/** What a Throttle does over a run of polls.

    A run is a sequence of events, one per call of `poll_next`: the clock
    reading at the call and whether the inner stream has its next answer
    ready. The clock never goes backwards (`Monotone`).
 */
module ThrottleTrace {
  import opened InnerStream
  import opened Throttling

  datatype Event = Event(now: nat, ready: bool)

  ghost predicate Monotone(evs: seq<Event>) {
    forall i, j :: 0 <= i < j < |evs| ==> evs[i].now <= evs[j].now
  }

  /** The outcome of every poll of a run, in order. */
  function Run<T>(s: ThrottleState<T>, evs: seq<Event>): (outs: seq<StepOut<T>>)
    ensures |outs| == |evs|
    decreases |evs|
  {
    if evs == [] then []
    else
      var o := Step(s, evs[0].now, evs[0].ready);
      [o] + Run(o.next, evs[1..])
  }

  /** The Throttle's state after a run. */
  function Final<T>(s: ThrottleState<T>, evs: seq<Event>): (last: ThrottleState<T>)
    decreases |evs|
  {
    if evs == [] then s else Final(Step(s, evs[0].now, evs[0].ready).next, evs[1..])
  }

  /** The state after a run is the state the run's last poll left behind. */
  lemma {:induction false} FinalIsLastStep<T>(s: ThrottleState<T>, evs: seq<Event>)
    requires evs != []
    ensures Final(s, evs) == Run(s, evs)[|evs| - 1].next
    decreases |evs|
  {
    var o := Step(s, evs[0].now, evs[0].ready);
    if |evs| > 1 {
      FinalIsLastStep(o.next, evs[1..]);
      assert Run(s, evs)[|evs| - 1] == Run(o.next, evs[1..])[|evs| - 2];
    }
  }

  /** The items a run passed on, in order. */
  function Emitted<T>(outs: seq<StepOut<T>>): (items: seq<T>) {
    if outs == [] then []
    else (if outs[0].result.IsItem() then [outs[0].result.item.value] else []) + Emitted(outs[1..])
  }

  /** The answers of a run, in order. */
  function Answers<T>(outs: seq<StepOut<T>>): (answers: seq<Poll<T>>) {
    if outs == [] then [] else [outs[0].result] + Answers(outs[1..])
  }

  /** The answers the inner stream itself gives when polled at every event. */
  function Direct<T>(f: Feed<T>, evs: seq<Event>): (answers: seq<Poll<T>>)
    decreases |evs|
  {
    if evs == [] then []
    else
      var p := FeedPoll(f, evs[0].ready);
      [p.result] + Direct(p.next, evs[1..])
  }

  predicate Finished<T>(outs: seq<StepOut<T>>) {
    exists i :: 0 <= i < |outs| && outs[i].result == Ready(None)
  }

  /** The interval stays what it was set to at construction. */
  lemma {:induction false} DurationFixed<T>(s: ThrottleState<T>, evs: seq<Event>)
    ensures Final(s, evs).duration == s.duration
    decreases |evs|
  {
    if evs != [] {
      DurationFixed(Step(s, evs[0].now, evs[0].ready).next, evs[1..]);
    }
  }

  /** Every item passed on is the inner stream's next one: a run hands on
      exactly the items its polls took from the inner stream, in order, and
      if the run saw the end of the stream the inner stream is ended. */
  lemma {:induction false} NoDropsFrom<T>(s: ThrottleState<T>, evs: seq<Event>)
    requires s.feed.Valid()
    ensures Final(s, evs).feed.Valid()
    ensures Final(s, evs).feed.items == s.feed.items
    ensures s.feed.pos <= Final(s, evs).feed.pos
    ensures Emitted(Run(s, evs)) == s.feed.items[s.feed.pos..Final(s, evs).feed.pos]
    ensures s.feed.ended || Finished(Run(s, evs)) ==> Final(s, evs).feed.ended
    decreases |evs|
  {
    if evs != [] {
      var o := Step(s, evs[0].now, evs[0].ready);
      var outs := Run(s, evs);
      NoDropsFrom(o.next, evs[1..]);
      assert outs[1..] == Run(o.next, evs[1..]);
      var f := Final(s, evs).feed;
      if o.result.IsItem() {
        assert s.feed.items[s.feed.pos..f.pos]
            == [s.feed.items[s.feed.pos]] + s.feed.items[s.feed.pos + 1..f.pos];
      }
      if Finished(outs) && !s.feed.ended {
        var i :| 0 <= i < |outs| && outs[i].result == Ready(None);
        if i > 0 {
          assert Run(o.next, evs[1..])[i - 1].result == Ready(None);
        }
      }
    }
  }

  /** No drops, same order: from construction, the items passed on are a
      prefix of the inner stream's items, and once the Throttle has reported
      the end of the stream they are all of them. */
  lemma NothingDropped<T>(items: seq<T>, duration: nat, evs: seq<Event>)
    ensures var out := Emitted(Run(New(Feed(items, 0, false), duration), evs));
            |out| <= |items| && out == items[..|out|]
    ensures Finished(Run(New(Feed(items, 0, false), duration), evs)) ==>
            Emitted(Run(New(Feed(items, 0, false), duration), evs)) == items
  {
    NoDropsFrom(New(Feed(items, 0, false), duration), evs);
  }

  /** Starting with the inner stream ended and no cooldown, every answer is
      the end of the stream. */
  lemma {:induction false} StaysFinished<T>(s: ThrottleState<T>, evs: seq<Event>)
    requires s.feed.ended && s.delay.None?
    ensures forall j :: 0 <= j < |evs| ==> Run(s, evs)[j].result == Ready(None)
    decreases |evs|
  {
    if evs != [] {
      var o := Step(s, evs[0].now, evs[0].ready);
      StaysFinished(o.next, evs[1..]);
      assert Run(s, evs)[1..] == Run(o.next, evs[1..]);
    }
  }

  /** Once the Throttle reports the end of the stream, every later poll
      reports it too. */
  lemma {:induction false} EndIsFinal<T>(s: ThrottleState<T>, evs: seq<Event>, i: nat)
    requires i < |evs| && Run(s, evs)[i].result == Ready(None)
    ensures forall j :: i <= j < |evs| ==> Run(s, evs)[j].result == Ready(None)
    decreases i
  {
    var o := Step(s, evs[0].now, evs[0].ready);
    assert Run(s, evs)[1..] == Run(o.next, evs[1..]);
    if i == 0 {
      StaysFinished(o.next, evs[1..]);
    } else {
      EndIsFinal(o.next, evs[1..], i - 1);
    }
  }

  /** The cooldown is consistent with `last`, the time of the latest item
      passed on: a pending deadline is `duration` after it, and a cleared one
      was seen elapsed no later than `clock`. */
  ghost predicate CooledSince<T>(s: ThrottleState<T>, last: Option<nat>, clock: nat) {
    match last
    case None => s.delay.None?
    case Some(t) => s.delay == Some(t + s.duration) || (s.delay.None? && t + s.duration <= clock)
  }

  lemma {:induction false} SpacedFrom<T>(s: ThrottleState<T>, last: Option<nat>, clock: nat, evs: seq<Event>)
    requires CooledSince(s, last, clock)
    requires Monotone(evs)
    requires |evs| > 0 ==> clock <= evs[0].now
    ensures forall j :: 0 <= j < |evs| && Run(s, evs)[j].result.IsItem() && last.Some? ==>
              last.value + s.duration <= evs[j].now
    ensures forall i, j :: 0 <= i < j < |evs| && Run(s, evs)[i].result.IsItem() && Run(s, evs)[j].result.IsItem() ==>
              evs[i].now + s.duration <= evs[j].now
    decreases |evs|
  {
    if evs != [] {
      var now := evs[0].now;
      var o := Step(s, now, evs[0].ready);
      var last' := if o.result.IsItem() then Some(now) else last;
      assert CooledSince(o.next, last', now);
      assert Monotone(evs[1..]) by {
        forall i, j | 0 <= i < j < |evs| - 1 ensures evs[1..][i].now <= evs[1..][j].now {
          assert evs[1..][i] == evs[i + 1] && evs[1..][j] == evs[j + 1];
        }
      }
      SpacedFrom(o.next, last', now, evs[1..]);
      assert Run(s, evs)[1..] == Run(o.next, evs[1..]);
      forall j | 0 <= j < |evs| - 1 ensures evs[1..][j] == evs[j + 1] && Run(s, evs)[j + 1] == Run(o.next, evs[1..])[j] {
      }
    }
  }

  /** Minimum spacing: from construction, any two items are passed on at
      least `duration` ticks apart; the first item is not held back by any
      minimum delay. */
  lemma MinimumSpacing<T>(feed: Feed<T>, duration: nat, evs: seq<Event>)
    requires Monotone(evs)
    ensures forall i, j ::
              0 <= i < j < |evs| &&
              Run(New(feed, duration), evs)[i].result.IsItem() &&
              Run(New(feed, duration), evs)[j].result.IsItem()
              ==> evs[i].now + duration <= evs[j].now
  {
    SpacedFrom(New(feed, duration), None, 0, evs);
  }

  /** With no cooldown in effect, the first poll at which the inner stream is
      ready passes its next item on, however early it comes: polls before it
      only forward the inner stream's Pending. */
  lemma {:induction false} FirstItemNotHeldBack<T>(s: ThrottleState<T>, evs: seq<Event>, k: nat)
    requires s.delay.None? && !s.feed.ended && s.feed.pos < |s.feed.items|
    requires k < |evs| && evs[k].ready
    requires forall i :: 0 <= i < k ==> !evs[i].ready
    ensures forall i :: 0 <= i < k ==> Run(s, evs)[i].result.Pending? && Run(s, evs)[i].woke
    ensures Run(s, evs)[k].result == Ready(Some(s.feed.items[s.feed.pos]))
    decreases k
  {
    var o := Step(s, evs[0].now, evs[0].ready);
    if k > 0 {
      assert o.next == s;
      FirstItemNotHeldBack(s, evs[1..], k - 1);
      assert Run(s, evs)[1..] == Run(s, evs[1..]);
      forall i | 0 < i < k ensures Run(s, evs)[i] == Run(s, evs[1..])[i - 1] {
      }
    }
  }

  lemma {:induction false} ZeroIntervalFrom<T>(s: ThrottleState<T>, clock: nat, evs: seq<Event>)
    requires s.duration == 0
    requires s.delay.Some? ==> s.delay.value <= clock
    requires Monotone(evs)
    requires |evs| > 0 ==> clock <= evs[0].now
    ensures Answers(Run(s, evs)) == Direct(s.feed, evs)
    decreases |evs|
  {
    if evs != [] {
      var o := Step(s, evs[0].now, evs[0].ready);
      assert Monotone(evs[1..]) by {
        forall i, j | 0 <= i < j < |evs| - 1 ensures evs[1..][i].now <= evs[1..][j].now {
          assert evs[1..][i] == evs[i + 1] && evs[1..][j] == evs[j + 1];
        }
      }
      ZeroIntervalFrom(o.next, evs[0].now, evs[1..]);
      assert Run(s, evs)[1..] == Run(o.next, evs[1..]);
    }
  }

  /** Zero interval: a Throttle with `duration` 0 gives exactly the answers
      the inner stream would give on its own. */
  lemma ZeroIntervalPassThrough<T>(feed: Feed<T>, evs: seq<Event>)
    requires Monotone(evs)
    ensures Answers(Run(New(feed, 0), evs)) == Direct(feed, evs)
  {
    ZeroIntervalFrom(New(feed, 0), 0, evs);
  }
}
