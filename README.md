# AsyncIterableEmitter, modelled in Dafny

`AsyncIterableEmitter<T>` turns push-style `emit(value)` calls into pull-style
`next()` requests. Each `[Symbol.asyncIterator]()` call hands out an independent cursor.
A cursor's `next()` registers one waiter in the emitter: a `resolve` function in
`#listeners` and a cancel handle `currentDispose` in `#disposes`, plus an optional
timeout. `emit(v)` resolves every registered waiter with `v`.
`dispose()` calls every cancel handle. `return()` stops one cursor early.

This project models that class as a single-threaded state machine.

- `EmitterState` (emitter_state.dfy) holds the state as a value:
  - the two sets, as duplicate-free sequences of request ids in insertion order;
  - one `Cursor` record per cursor, holding its captured `promise`, `dispose` and `done` variables;
  - one `Request` record per promise `next()` created, holding the inner promise
    (`Pending`, `Fulfilled(v)` or `Rejected`), the armed-timer flag and the result the
    `.then` handler produced.

  It has one transition function per event, and the invariant `Valid`.
- `EmitterProperties` (emitter_properties.dfy) proves that every transition keeps `Valid`,
  and proves the properties the emitter's users rely on.
- `Emitter` (emitter.dfy) holds the class `AsyncIterableEmitter`. Its fields are updated in
  place, its `Emit` and `Dispose` loop over the sets as the source does, and every method is
  proved to have the effect of its transition: `ensures Model() == EmitterState.F(old(Model()))`.
- `Scenarios` (scenarios.dfy) replays the behaviours checked by index.spec.ts through the class.

Asynchrony is made explicit. `emit` only resolves promises: a resolved waiter stays in
both sets, and its cursor keeps its `done` value, until the promise's `.then` handler (a
microtask) runs. `dispose` and a firing timer call cancel handles, which delete the waiter
from both sets at once and reject its promise. The handler then runs later, like any other.
The model keeps that window:

- `Settle(r)` is the handler of request `r` running. It is enabled once the promise has
  settled, and it runs once.
- `FireTimer(r)` is the timeout of `r` expiring. It is enabled while the timer is armed.

A cursor becomes terminal in one of two ways: when a rejection is handled, or when
`return()` runs. A waiter that `emit` had already resolved before `dispose` still yields its
value, and its handler leaves the cursor non-terminal.

Two consequences of the code, which the model keeps and proves, are easy to miss:

- The handler calls the cursor's *current* `dispose` variable, not its own cancel handle.
  After `next(); dispose(); next()`, the first request's handler cancels the second waiter
  (`EmitterProperties.SettleCancelsLaterWaiter`, `Scenarios.HandlerCancelsLaterWaiter`).
- The fulfilment handler sets `done = false` unconditionally. A value delivered before
  `return()`, but handled after it, makes the cursor non-terminal again
  (`Scenarios.HandlerAfterReturn`).

## Model

| member | source | states |
|---|---|---|
| EmitterState.Init | index.ts:4-10 | a new emitter satisfies the invariant, keeps the given timeout, has empty listener and cancel-handle sets and no waiting cursor |
| Emitter.AsyncIterableEmitter.constructor | index.ts:4-10 | the object starts in the state `Init(timeout)` and satisfies the invariant |
| EmitterProperties.CountIsWaitingCursors | index.ts:32-42 | in every valid state `#listeners` and `#disposes` have the same size, equal to the number of cursors with a registered waiter |
| Emitter.AsyncIterableEmitter.ListenersCount | index.ts:34-36 | `listenersCount` is the number of cursors with a registered waiter |
| Emitter.AsyncIterableEmitter.DisposesCount | index.ts:40-42 | `disposesCount` is that same number, so it always equals `listenersCount` |
| EmitterState.Acquire | index.ts:44-49 | acquiring appends one cursor with nothing in flight, no cancel handle and `done` unset, returns its id and changes nothing else |
| EmitterProperties.AcquireSpec | index.ts:44-49 | the invariant is kept; the new cursor has nothing in flight, no cancel handle and is not terminal; no set, other cursor or request changes |
| Emitter.AsyncIterableEmitter.AsyncIterator | index.ts:44-49 | the object moves to the `Acquire` state and returns the id of the one cursor it adds, which starts idle, keeping the invariant |
| EmitterState.Next | index.ts:50-110 | the returned request is the cursor's in-flight promise; at most one request is added, earlier ones and other cursors are unchanged; the state is unchanged exactly when a request was already in flight, and otherwise the new request is the cursor's |
| EmitterProperties.NextValid | index.ts:50-110 | `next()` keeps the invariant, settles nothing, and leaves the returned request as the cursor's in-flight promise |
| EmitterProperties.NextTwice | index.spec.ts:44-56 | a second `next()` while a request is in flight returns the same request and changes nothing |
| EmitterProperties.NextRegisters | index.ts:59-79 | on a non-terminal cursor with nothing in flight, `next()` appends exactly one fresh pending request to both sets, arms a timer iff a timeout was given, and adds this cursor to the waiting cursors |
| EmitterProperties.TerminalHoldsNothing | index.ts:55-58 | a terminal cursor has no registered waiter, and none of its requests has an armed timer or a pending promise |
| EmitterProperties.NextTerminal | index.ts:55-58 | on a terminal cursor, `next()` adds no listener, cancel handle or timer, whether it creates a request or returns the one in flight; that request is unregistered, untimed and rejected, its handler result (if any) is `done: true`, and once handled it yields `done: true` and the cursor stays terminal |
| Emitter.AsyncIterableEmitter.Next | index.ts:50-110 | the fields change as the `Next` transition says; the returned request belongs to the cursor and is its in-flight promise; earlier requests are unchanged; a registering call appends the request to `#listeners` as a pending promise |
| Seqs.Remove | index.ts:66-67 | `Set.prototype.delete`: the result holds exactly the other members, is the input when the member is absent, and stays duplicate-free, one shorter exactly when the member was present |
| EmitterState.Cancel | index.ts:64-73 | a cancel handle keeps the timeout, the number of cursors and requests, and every request's cursor |
| EmitterProperties.CancelSpec | index.ts:64-73 | a cancel handle removes exactly its request from both sets (so the count drops by one exactly when the request was registered), clears its timer, rejects it if pending and forgets the cursor's in-flight promise; nothing else changes |
| EmitterProperties.CancelIdempotent | index.ts:64-73 | calling a cancel handle twice in a row has the effect of calling it once |
| EmitterProperties.StaleCancel | index.ts:64-73 | a cancel handle that already ran changes no set, timer or promise, only its cursor's `promise` variable |
| Emitter.AsyncIterableEmitter.CancelHandle | index.ts:64-73 | the fields change as `Cancel` says and the invariant is kept |
| EmitterState.FireTimer | index.ts:77-79 | a firing timer leaves its request with no timer and a settled promise, and adds no cursor or request |
| EmitterProperties.FireTimerSpec | index.ts:77-79 | a firing timer belongs to a registered request; it cancels only that request (timer cleared, promise rejected if pending, the cursor's in-flight promise forgotten), removes it from both sets, and leaves the other requests and cursors unchanged |
| Emitter.AsyncIterableEmitter.FireTimer | index.ts:77-79 | the fields change as `FireTimer` says and the invariant is kept |
| EmitterState.Fulfil | index.ts:17 | `resolve(v)` fulfils a pending promise with `v`, leaves a settled one as it is, and touches no other field of the request |
| EmitterState.ResolveEach | index.ts:16-18 | calling listeners changes only requests, and adds or removes none |
| EmitterProperties.ResolveEachAt | index.ts:16-18 | after calling the listeners of a list, exactly the pending requests in the list are fulfilled with the value; sets and cursors are untouched |
| EmitterState.Emit | index.ts:15-19 | `emit(v)` changes only requests, and adds or removes none |
| EmitterProperties.EmitSpec | index.ts:15-19 | `emit(v)` fulfils with `v` every request pending in `#listeners` at call time and nothing else, registers and removes nothing, and changes nothing when no listener exists |
| Emitter.AsyncIterableEmitter.Emit | index.ts:15-19 | the loop over `#listeners` ends in the state `Emit(old state, value)`, keeping the invariant |
| EmitterState.CancelEach | index.ts:25-27 | calling a list of cancel handles keeps the timeout, the number of cursors and requests, and every request's cursor |
| EmitterProperties.CancelEachSets | index.ts:25-27 | after calling a list of cancel handles, both sets still hold the same ids without duplicates: exactly the ids that were registered and are not in the list |
| EmitterProperties.CancelEachRequestAt | index.ts:25-27 | after calling a list of cancel handles, a request is cancelled (timer cleared, rejected if pending) iff its handle is in the list, and a handle called twice acts once |
| EmitterProperties.CancelEachCursorAt | index.ts:25-27 | after calling a list of cancel handles, a cursor's in-flight promise is forgotten iff one of the handles belongs to one of its requests; nothing else in the cursor changes |
| EmitterProperties.HitsWaiting | index.ts:64-73 | in a valid state, handles of registered requests belong to cursor `c` iff `c` has a registered waiter whose handle is among them |
| EmitterProperties.CancelEachSpec | index.ts:25-27 | calling the cancel handles of registered requests keeps the invariant, removes exactly those from both sets, cancels exactly those requests and forgets the in-flight promise of exactly their cursors |
| EmitterProperties.CancelEachPrefix | index.ts:25-27 | each turn of the `dispose` loop starts in a valid state, with the next handle still registered and held by its cursor |
| EmitterState.Dispose | index.ts:24-28 | `dispose()` keeps the timeout and adds no cursor or request |
| EmitterProperties.DisposeSpec | index.ts:24-28 | `dispose()` empties both sets, rejects every waiter pending at call time, clears their timers and forgets their cursors' in-flight promises; other requests and cursors are unchanged |
| Emitter.AsyncIterableEmitter.Dispose | index.ts:24-28 | the loop over `#disposes` ends in the state `Dispose(old state)` with both sets empty, keeping the invariant |
| EmitterState.CallDispose | index.ts:83-85 | `dispose?.()` adds no cursor or request |
| EmitterProperties.CallDisposeSpec | index.ts:83-85 | calling the cursor's current `dispose` cancels that cursor's waiter (timer cleared, a pending promise rejected) and no other; the count drops by one exactly when the cursor had a waiter; other cursors and their requests are unchanged; no handler result changes |
| EmitterState.Settle | index.ts:82-105 | the handler records `{value, done: false}` for a fulfilled promise and `done: true` for a rejected one, sets the cursor's `done` to match, and adds no cursor or request |
| EmitterProperties.SettleSpec | index.ts:82-105 | a handler records `{value, done: false}` for a fulfilled promise and `done: true` for a rejected one, sets `done` to match and leaves its cursor with no registered waiter; the count drops by one exactly when the cursor had a waiter; other cursors and their requests are untouched; settled requests never change |
| Emitter.AsyncIterableEmitter.Settle | index.ts:82-105 | the fields change as `Settle` says and the invariant is kept |
| EmitterState.Return | index.ts:114-125 | `return()` leaves the cursor terminal and adds no cursor or request |
| EmitterProperties.ReturnSpec | index.ts:114-125 | `return()` makes the cursor terminal and cancels only its own waiter (timer cleared, a pending promise rejected), so the count drops by one exactly when it had one; other cursors, their requests and their set entries are unchanged |
| Emitter.AsyncIterableEmitter.Return | index.ts:114-125 | the fields change as `Return` says and the result is `done: true` |
| EmitterProperties.EmitThenSettle | index.ts:82-92 | a waiter pending at `emit(v)` yields `{value: v, done: false}`, leaves both sets, and leaves its cursor non-terminal with nothing in flight |
| EmitterProperties.DisposeThenSettle | index.ts:94-104 | a waiter pending at `dispose()` yields `done: true`, and its cursor becomes terminal with nothing in flight |
| EmitterProperties.TimeoutThenSettle | index.ts:77-79 | a waiter still pending when its timeout expires is rejected, so its handler yields `done: true`, and its cursor becomes terminal with nothing in flight |
| EmitterProperties.ReturnThenSettle | index.ts:114-119 | a waiter pending at `return()` is rejected, so its handler yields `done: true`, and its cursor stays terminal with nothing in flight |
| EmitterProperties.SettleCancelsLaterWaiter | index.ts:83-85 | if the cursor's `dispose` now holds a later registered waiter, an earlier request's handler cancels that waiter: it leaves both sets, its timer is cleared and a pending promise is rejected (it is `Cancelled`); its handler has not run yet |
| Scenarios.GetSingleValue | index.spec.ts:8-18 | a pull issued before `emit(1)` yields 1 |
| Scenarios.TwoPullsOneEmit | index.spec.ts:44-56 | two pulls before `emit(1)` are one request with one listener, and both yield 1 |
| Scenarios.ConsumeUntilTimeout | index.spec.ts:76-120 | a pull loop yields exactly the emitted values in order, then the timeout completes it with `done: true` |
| Scenarios.DisposeFinishes | index.spec.ts:122-132 | `dispose()` completes a pending pull with `done: true` and leaves no listener |
| Scenarios.IteratorsDoNotInterfere | index.spec.ts:134-149 | two cursors pending on `emit(0)` both yield 0 |
| Scenarios.DisposeMultiple | index.spec.ts:151-166 | one `dispose()` completes both cursors' pulls with `done: true` and leaves no cancel handle |
| Scenarios.ReturnLeavesOtherCursor | index.ts:114-125 | `return()` on one cursor completes its own pending pull with `done: true` and leaves the other's pull registered, and that pull still yields the next value |
| Scenarios.HandlerCancelsLaterWaiter | index.ts:94-104 | after `next(); dispose(); next()`, the first handler cancels the second waiter, so both pulls yield `done: true` and nothing stays registered |
| Scenarios.HandlerAfterReturn | index.ts:82-92 | a value handled after `return()` is still delivered and clears `done`, so the next pull registers again |

## Left out

- Real time: `setTimeout` and `clearTimeout` become an armed flag and a `FireTimer` event. The millisecond value is kept only as `Option<int>` and plays no part.
- Promise and microtask machinery: a promise is `Pending`, `Fulfilled(v)` or `Rejected`, and its handler is an explicit `Settle` step. Handlers may run in any order, not only the FIFO order of the JavaScript microtask queue. A timer may also fire between an `emit` and the handler, which the event loop never does. The model therefore allows more interleavings than JavaScript.
- The order in which `emit` resolves its listeners: the sets keep insertion order, but handlers may settle in any order, so ordering between waiters is not captured.
- Promise adoption of thenable values, and handlers that throw: `T` is an opaque type parameter.
- The `value: undefined` field of a completed result: `Done` carries no value.
- The `for await` protocol: the scenarios call `Next`, `Emit`, `Settle` and `FireTimer` explicitly.
- `Scenarios.ConsumeUntilTimeout` emits each value while the pull is pending. It does not model the test's emit delays. The test at index.spec.ts:58-74 (one value, then a timeout) is its one-value case.
- Identity of closures: a request's `resolve` function and its cancel handle are both named by the request id. The invariant states that the two sets list the same ids in the same order.
- Requests are never deleted from `requests`. The sequence is a record of every promise, not a resource the emitter holds.
- The single-cursor variant is not part of this model.
