/** The Throttle stream adapter: it passes the inner stream's items through
    no faster than one per `duration`, holding an item back rather than
    dropping it.

    Time is a number of ticks. The cooldown timer is an absolute deadline:
    a timer armed at `now` for `duration` is elapsed at any `now'` with
    `now + duration <= now'`. The `wake_by_ref` call on the context's waker
    is the `woke` flag of a step.
 */
module Throttling {
  import opened InnerStream

  /** The fields of a Throttle: the fixed interval, the optional cooldown
      deadline, and the state of the owned inner stream. */
  datatype ThrottleState<T> = ThrottleState(duration: nat, delay: Option<nat>, feed: Feed<T>)

  /** A freshly constructed Throttle: no cooldown in effect. */
  function New<T>(feed: Feed<T>, duration: nat): (s: ThrottleState<T>) {
    ThrottleState(duration, None, feed)
  }

  /** Whether a timer with the given deadline reports ready when polled at `now`. */
  predicate Elapsed(deadline: nat, now: nat) {
    deadline <= now
  }

  /** What one poll of the Throttle did: the new state, the answer, whether
      the inner stream was polled, and whether the task woke itself. */
  datatype StepOut<T> = StepOut(next: ThrottleState<T>, result: Poll<T>, polled: bool, woke: bool)

  /** One `poll_next` of the Throttle at time `now`; `ready` is whether the
      inner stream has its next answer ready should it be polled. */
  function Step<T>(s: ThrottleState<T>, now: nat, ready: bool): (o: StepOut<T>)
    // the interval is never changed
    ensures o.next.duration == s.duration
    ensures s.feed.Valid() ==> o.next.feed.Valid()
    // cooling down: Pending, the inner stream is left alone, nothing changes
    ensures s.delay.Some? && now < s.delay.value ==> o == StepOut(s, Pending, false, false)
    // no cooldown, or it has elapsed: the inner stream is polled in this same
    // call and its answer is passed on unchanged
    ensures s.delay.None? || s.delay.value <= now ==>
              o.polled && o.result == FeedPoll(s.feed, ready).result && o.next.feed == FeedPoll(s.feed, ready).next
    // after a poll of the inner stream a cooldown is in effect exactly when an
    // item was passed on, and it ends `duration` ticks from now
    ensures o.polled ==> o.next.delay == if o.result.IsItem() then Some(now + s.duration) else None
    // the task wakes itself exactly when the inner stream was not ready
    ensures o.woke <==> o.polled && o.result.Pending?
    // a Pending answer always leaves something that will wake the task:
    // either the self-wake or an armed timer
    ensures o.result.Pending? ==> o.woke || o.next.delay.Some?
  {
    if s.delay.Some? && !Elapsed(s.delay.value, now) then
      StepOut(s, Pending, false, false)
    else
      var inner := FeedPoll(s.feed, ready);
      match inner.result
      case Pending =>
        StepOut(s.(delay := None, feed := inner.next), Pending, true, true)
      case Ready(None) =>
        StepOut(s.(delay := None, feed := inner.next), Ready(None), true, false)
      case Ready(Some(v)) =>
        StepOut(s.(delay := Some(now + s.duration), feed := inner.next), Ready(Some(v)), true, false)
  }

  /** A Throttle owning its inner stream, updated in place by each poll. */
  class Throttle<T> {
    const stream: VecStream<T>
    const duration: nat
    var delay: Option<nat>

    function State(): ThrottleState<T>
      reads this, stream
    {
      ThrottleState(duration, delay, stream.State())
    }

    /** The Throttle takes sole ownership of a new inner stream over `items`. */
    constructor (items: seq<T>, duration: nat)
      ensures fresh(stream) && stream.polls == 0
      ensures State() == New(Feed(items, 0, false), duration)
    {
      stream := new VecStream(items);
      this.duration := duration;
      delay := None;
    }

    method PollNext(now: nat, ready: bool) returns (r: Poll<T>, woke: bool)
      modifies this, stream
      ensures var o := Step(old(State()), now, ready);
              State() == o.next && r == o.result && woke == o.woke
      ensures stream.polls == old(stream.polls) + if Step(old(State()), now, ready).polled then 1 else 0
    {
      if delay.Some? {
        if Elapsed(delay.value, now) {
          delay := None;
        } else {
          return Pending, false;
        }
      }
      var p := stream.PollNext(ready);
      match p
      case Pending =>
        r, woke := Pending, true;
      case Ready(None) =>
        r, woke := Ready(None), false;
      case Ready(Some(v)) =>
        delay := Some(now + duration);
        r, woke := Ready(Some(v)), false;
    }
  }
}
