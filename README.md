# Throttle stream adapter, modelled in Dafny

This project models `Throttle`, the async-std stream adapter that wraps an
inner stream and a fixed `duration` and yields the inner stream's items no
faster than one per `duration`. It applies backpressure: an item that comes
too soon is held back, never dropped.

The adapter's only mutable state is an optional cooldown timer, `delay`.
Each call of `poll_next` first looks at the timer, if there is one:

- if the timer has not elapsed, the call answers Pending;
- if it has elapsed, the timer is cleared and the call goes on.

With no timer left, the call polls the inner stream:

- Pending: the task wakes itself (`wake_by_ref`) and answers Pending;
- an item: a fresh timer of `duration` is armed and the item is passed on;
- end of stream: the end is passed on.

Three modules make up the model:

- `InnerStream` (`inner_stream.dfy`) stands in for the inner stream. It is a
  list of items handed out one per successful poll. A per-call `ready` flag
  says whether the stream has its next answer ready. The stream is fused:
  after answering `Ready(None)` it always answers `Ready(None)`. It comes as
  a pure function `FeedPoll` and as a class `VecStream` whose `PollNext`
  is proved equal to that function.
- `Throttling` (`throttle.dfy`) holds the adapter itself. `Step` is one
  `poll_next` as a pure function of the state, the clock reading `now` and
  the inner stream's readiness. The class `Throttle` has the source's fields:
  the owned `stream`, the constant `duration` and the mutable `delay`. Its
  `PollNext` updates them in place, and its contract ties the new state and
  the answer to `Step`. It also says the inner stream is polled exactly when
  `Step` says so.
- `ThrottleTrace` (`throttle_trace.dfy`) runs `Step` over a sequence of
  calls and proves what the adapter promises across calls. The items passed
  on are the inner stream's items, in order, none dropped. Any two items are
  at least `duration` apart. The end of the stream is final. A zero interval
  changes nothing. The first item is never held back.

Time is a natural number of ticks. A timer armed at `now` has the deadline
`now + duration` and is elapsed when polled at any `now'` with
`now + duration <= now'`. The `wake_by_ref` call is the `woke` result of a
step.

The adapter does not remember that the inner stream has ended. The code
(`src/stream/stream/throttle.rs:47`) polls the inner stream on every call
that finds no pending timer, also after `Ready(None)`, and relies on the
inner stream answering `Ready(None)` again. `Step` does the same, and the
lemmas `StaysFinished` and `EndIsFinal` show that a fused inner stream keeps
the answer at `Ready(None)`.

## Model

| member | source | states |
|---|---|---|
| `InnerStream.FeedPoll` | src/stream/stream/throttle.rs:47 | The inner stream's side of the poll at this line. It yields an item exactly when it is live, ready and not drained; that item is the one under the cursor, which then moves by one. It is Pending exactly when live and not ready, and then nothing changes. It reports the end exactly when it is ended afterwards, and once ended it stays ended. |
| `InnerStream.VecStream.PollNext` | src/stream/stream/throttle.rs:47 | Polling the owned inner stream in place gives the answer and new state `FeedPoll` gives, and counts one poll. |
| `Throttling.Step` | src/stream/stream/throttle.rs:37-58 | One `poll_next`. An unelapsed timer gives Pending with the inner stream not polled and the state unchanged. Otherwise the inner stream is polled in the same call and its answer is passed on unchanged. After that poll a timer is present exactly when an item was passed on, with deadline `now + duration`. The task wakes itself exactly when the inner stream was Pending. A Pending answer always leaves a self-wake or an armed timer. `duration` never changes. |
| `Throttling.Throttle.constructor` | src/stream/stream/throttle.rs:25-31 | A new Throttle owns a fresh inner stream that no other object shares, as `stream` is moved in. It keeps the given `duration` and has no timer. |
| `Throttling.Throttle.PollNext` | src/stream/stream/throttle.rs:37-58 | Updating `delay` and the inner stream in place yields exactly the new state, answer and wake flag of `Step`. The inner stream is polled once if `Step` polls it, and not at all otherwise. |
| `ThrottleTrace.FinalIsLastStep` | src/stream/stream/throttle.rs:37-58 | The state after a run of polls is the state that the run's last poll left behind. |
| `ThrottleTrace.DurationFixed` | src/stream/stream/throttle.rs:18 | After any run of polls the interval is still the one set at construction. |
| `ThrottleTrace.NoDropsFrom` | src/stream/stream/throttle.rs:47-57 | Over any run, the items passed on are exactly the inner stream's items between the cursor before and after the run, in order. The inner stream keeps its items and its cursor only moves forward. If the run reported the end of the stream, the inner stream is ended. |
| `ThrottleTrace.NothingDropped` | src/stream/stream/throttle.rs:12 | From construction, the items passed on are a prefix of the inner stream's items. Once the end of the stream has been reported, they are all of its items, in order. |
| `ThrottleTrace.StaysFinished` | src/stream/stream/throttle.rs:47-52 | With the inner stream ended and no timer, every poll of a run answers `Ready(None)`. |
| `ThrottleTrace.EndIsFinal` | src/stream/stream/throttle.rs:52 | Once a poll has answered `Ready(None)`, every later poll of the run answers `Ready(None)`. |
| `ThrottleTrace.SpacedFrom` | src/stream/stream/throttle.rs:39-55 | Start from a timer that agrees with the time of the last item passed on, and let the clock never go backwards. Then every item is passed on at least `duration` after that last item. Any two items of the run are at least `duration` apart. |
| `ThrottleTrace.MinimumSpacing` | src/stream/stream/throttle.rs:12 | From construction, with a clock that never goes backwards, any two items are passed on at least `duration` ticks apart. |
| `ThrottleTrace.FirstItemNotHeldBack` | src/stream/stream/throttle.rs:47-55 | With no timer armed, as at construction, polls while the inner stream is not ready answer Pending and wake the task. The first poll at which it is ready passes its next item on, however early that poll comes. |
| `ThrottleTrace.ZeroIntervalFrom` | src/stream/stream/throttle.rs:39-55 | With `duration` 0, any timer already elapsed and a clock that never goes backwards, a run gives the same answers as polling the inner stream directly. |
| `ThrottleTrace.ZeroIntervalPassThrough` | src/stream/stream/throttle.rs:54 | A Throttle constructed with `duration` 0 gives exactly the answers of the inner stream on its own. |

## Left out

- `Pin`, `pin_project!` and the projection at lines 11-22 and 38 are memory-pinning plumbing with no behaviour of their own.
- The `Context` and its waker are not modelled. The `wake_by_ref` call is the `woke` flag. The wake that a pending timer registers for itself is the presence of `delay`.
- `futures_timer::Delay` and the real clock are replaced by an integer deadline checked against an explicit `now` argument. A real timer may fire somewhat after its deadline. That only delays items further, so the spacing and no-drop lemmas still hold.
- Throttling.Step: its answer at each poll assumes an exact timer. A real `Delay` that fires late answers Pending at a poll where `Step` already polls the inner stream.
- ThrottleTrace.ZeroIntervalFrom: depends on the timer being exact. With `duration` 0 a real `Delay::new(0)` that has not fired yet makes the next poll answer Pending where the inner stream alone would answer.
- ThrottleTrace.ZeroIntervalPassThrough: depends on the timer being exact, for the same reason as `ZeroIntervalFrom`.
- `Duration` is a natural number of ticks. The overflow panic of `Instant + Duration` in the timer crate is not modelled.
- The generic inner `Stream` is a fused, list-backed stand-in with a readiness flag per call. An inner stream that yields items again after `Ready(None)` is not covered.
- The executor and the scheduling of wake-ups are runtime concerns outside this adapter.
