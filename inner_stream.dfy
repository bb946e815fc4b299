/** The inner stream a Throttle wraps, as seen through its poll interface.

    The real inner stream is any `Stream`; here it is a finite list of items
    handed out one per successful poll, with a per-call `ready` flag standing
    for whatever makes the real stream not ready yet. It is fused: once it has
    answered `Ready(None)` it answers `Ready(None)` forever.
 */
module InnerStream {

  datatype Option<T> = None | Some(value: T)

  /** `Poll<Option<T>>`: not ready yet, one item, or end of stream. */
  datatype Poll<T> = Pending | Ready(item: Option<T>) {
    predicate IsItem() {
      Ready? && item.Some?
    }
  }

  /** The state of a list-backed stream: its items, a cursor, and whether
      it has already signalled its end. */
  datatype Feed<T> = Feed(items: seq<T>, pos: nat, ended: bool) {
    predicate Valid() {
      pos <= |items| && (ended ==> pos == |items|)
    }
  }

  datatype FeedStep<T> = FeedStep(next: Feed<T>, result: Poll<T>)

  /** One `poll_next` of the inner stream. */
  function FeedPoll<T>(f: Feed<T>, ready: bool): (r: FeedStep<T>)
    ensures r.next.items == f.items
    ensures f.Valid() ==> r.next.Valid()
    // an item is produced exactly when the stream is live, ready and not yet drained,
    // and it is the item under the cursor, which then moves on by one
    ensures r.result.IsItem() <==> !f.ended && ready && f.pos < |f.items|
    ensures r.result.IsItem() ==> r.result.item.value == f.items[f.pos] && r.next == f.(pos := f.pos + 1)
    ensures !r.result.IsItem() ==> r.next.pos == f.pos
    // not ready: nothing changes
    ensures r.result.Pending? <==> !f.ended && !ready
    ensures r.result.Pending? ==> r.next == f
    // end of stream is reported exactly when the stream is (now) ended, and stays so
    ensures r.result == Ready(None) <==> r.next.ended
    ensures f.ended ==> r == FeedStep(f, Ready(None))
  {
    if f.ended then FeedStep(f, Ready(None))
    else if !ready then FeedStep(f, Pending)
    else if f.pos < |f.items| then FeedStep(f.(pos := f.pos + 1), Ready(Some(f.items[f.pos])))
    else FeedStep(f.(ended := true), Ready(None))
  }

  /** The inner stream as an object the Throttle owns and advances in place. */
  class VecStream<T> {
    const items: seq<T>
    var pos: nat
    var ended: bool
    /** How many times the stream has been polled. */
    ghost var polls: nat

    function State(): Feed<T>
      reads this
    {
      Feed(items, pos, ended)
    }

    constructor (items: seq<T>)
      ensures State() == Feed(items, 0, false) && State().Valid()
      ensures polls == 0
    {
      this.items := items;
      pos := 0;
      ended := false;
      polls := 0;
    }

    method PollNext(ready: bool) returns (p: Poll<T>)
      modifies this
      ensures FeedStep(State(), p) == FeedPoll(old(State()), ready)
      ensures polls == old(polls) + 1
    {
      if ended {
        p := Ready(None);
      } else if !ready {
        p := Pending;
      } else if pos < |items| {
        p := Ready(Some(items[pos]));
        pos := pos + 1;
      } else {
        ended := true;
        p := Ready(None);
      }
      polls := polls + 1;
    }
  }
}
