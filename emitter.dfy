/**
 * `AsyncIterableEmitter` as an object: the two sets it owns, the optional timeout fixed at
 * construction, and the per-cursor and per-request state that the source keeps in the
 * variables captured by `[Symbol.asyncIterator]()` and `next()`. Each method changes these
 * fields step by step as the source does, and is proved to have the effect of the
 * corresponding transition of `EmitterState`.
 *
 * The asynchronous parts become methods too: `Settle(r)` is the `.then` handler of request
 * `r` running as a microtask, `FireTimer(r)` is its timeout expiring.
 */
module Emitter {
  import opened Seqs
  import opened EmitterState
  import EmitterProperties

  class AsyncIterableEmitter<T> {
    const timeout: Option<int>
    /** `#listeners`: the `resolve` function of each registered request. */
    var listeners: seq<nat>
    /** `#disposes`: the cancel handle `currentDispose` of each registered request. */
    var disposes: seq<nat>
    /** The variables `promise`, `dispose` and `done` of each cursor handed out. */
    var cursors: seq<Cursor>
    /** Every promise `next()` has created, with its timer and its handler's result. */
    var requests: seq<Request<T>>

    function Model(): (m: State<T>)
      reads this
    {
      State(timeout, listeners, disposes, cursors, requests)
    }

    ghost predicate Valid()
      reads this
    {
      EmitterState.Valid(Model())
    }

    /** index.ts:4-10 */
    constructor (timeout: Option<int>)
      ensures Model() == Init(timeout) && Valid()
    {
      this.timeout := timeout;
      listeners := [];
      disposes := [];
      cursors := [];
      requests := [];
    }

    /** `listenersCount` (index.ts:34-36): one per cursor with a registered waiter. */
    function ListenersCount(): (n: nat)
      reads this
      requires Valid()
      ensures n == |WaitingCursors(Model())|
    {
      EmitterProperties.CountIsWaitingCursors(Model());
      |listeners|
    }

    /** `disposesCount` (index.ts:40-42): always equal to `listenersCount`. */
    function DisposesCount(): (n: nat)
      reads this
      requires Valid()
      ensures n == |WaitingCursors(Model())| && n == ListenersCount()
    {
      EmitterProperties.CountIsWaitingCursors(Model());
      |disposes|
    }

    /** What awaiting request `r` yields, once its handler has run. */
    function Awaited(r: nat): (res: Option<Step<T>>)
      reads this
      requires r < |requests|
    {
      requests[r].result
    }

    /** `[Symbol.asyncIterator]()` (index.ts:44-49, 112-126): a new cursor, returned by id. */
    method AsyncIterator() returns (c: nat)
      requires Valid()
      modifies this
      ensures (Model(), c) == Acquire(old(Model())) && Valid()
      ensures c == |old(cursors)| && |cursors| == c + 1
    {
      c := |cursors|;
      cursors := cursors + [Cursor(None, None, false)];
      EmitterProperties.AcquireSpec(old(Model()));
    }

    /** `next()` of cursor `c` (index.ts:50-110); returns the request the caller awaits. */
    method Next(c: nat) returns (r: nat)
      requires Valid() && c < |cursors|
      modifies this
      ensures (Model(), r) == EmitterState.Next(old(Model()), c) && Valid()
      ensures r < |requests| && requests[r].cursor == c && cursors[c].promise == Some(r)
      ensures |old(requests)| <= |requests| && requests[..|old(requests)|] == old(requests)
      ensures old(cursors[c].promise).None? && !old(cursors[c].done) ==>
        listeners == old(listeners) + [r] && requests[r].inner.Pending?
    {
      EmitterProperties.NextValid(Model(), c);
      assert CursorOk(Model(), c);
      var cur := cursors[c];
      if cur.promise.Some? {
        return cur.promise.value;
      }
      r := |requests|;
      if cur.done {
        // the executor rejects at once and registers nothing
        cursors := cursors[c := cur.(promise := Some(r))];
        requests := requests + [Request(c, Rejected, false, false, None)];
      } else {
        listeners := listeners + [r];
        cursors := cursors[c := cur.(promise := Some(r), dispose := Some(r))];
        disposes := disposes + [r];
        requests := requests + [Request(c, Pending, true, timeout.Some?, None)];
      }
    }

    /**
     * The cancel handle `currentDispose` of request `d` (index.ts:64-73). Every caller
     * reaches it through the cursor's `dispose` variable, the `#disposes` set or the
     * request's own timer, so the cursor's `dispose` variable holds it.
     */
    method CancelHandle(d: nat)
      requires Valid() && d < |requests| && requests[d].cursor < |cursors|
      requires cursors[requests[d].cursor].dispose == Some(d)
      modifies this
      ensures Model() == Cancel(old(Model()), d) && Valid()
    {
      EmitterProperties.CancelSpec(Model(), d);
      var c := requests[d].cursor;
      cursors := cursors[c := cursors[c].(promise := None)];
      listeners := Remove(listeners, d);
      disposes := Remove(disposes, d);
      var q := requests[d];
      // clearTimeout, then reject, which does nothing to a settled promise
      requests := requests[d := q.(timer := false, inner := if q.inner.Pending? then Rejected else q.inner)];
    }

    /** `emit(value)` (index.ts:15-19): calls every listener with `value`. */
    method Emit(value: T)
      requires Valid()
      modifies this
      ensures Model() == EmitterState.Emit(old(Model()), value) && Valid()
    {
      EmitterProperties.EmitSpec(Model(), value);
      assert forall j :: 0 <= j < |listeners| ==> listeners[j] in listeners;
      var i := 0;
      while i < |listeners|
        invariant 0 <= i <= |listeners| && listeners == old(listeners)
        invariant forall j :: 0 <= j < |listeners| ==> listeners[j] < |old(requests)|
        invariant Model() == ResolveEach(old(Model()), listeners[..i], value)
      {
        assert listeners[..i + 1][..i] == listeners[..i];
        var l := listeners[i];
        requests := requests[l := Fulfil(requests[l], value)];
        i := i + 1;
      }
      assert listeners[..i] == listeners;
    }

    /** `dispose()` (index.ts:24-28): calls every cancel handle. */
    method Dispose()
      requires Valid()
      modifies this
      ensures Model() == EmitterState.Dispose(old(Model())) && Valid()
      ensures listeners == [] && disposes == []
    {
      ghost var s0 := Model();
      var handles := disposes;
      assert forall j :: 0 <= j < |handles| ==> handles[j] in listeners && RequestOk(s0, handles[j]);
      var i := 0;
      while i < |handles|
        invariant 0 <= i <= |handles|
        invariant forall j :: 0 <= j < |handles| ==>
          handles[j] < |s0.requests| && s0.requests[handles[j]].cursor < |s0.cursors|
        invariant Model() == CancelEach(s0, handles[..i])
      {
        EmitterProperties.CancelEachPrefix(s0, i);
        EmitterProperties.CancelEachStep(s0, handles, i);
        CancelHandle(handles[i]);
        i := i + 1;
      }
      assert handles[..i] == handles;
      EmitterProperties.DisposeSpec(s0);
    }

    /** The timer of request `r` expires (index.ts:78). */
    method FireTimer(r: nat)
      requires Valid() && r < |requests| && requests[r].timer
      modifies this
      ensures Model() == EmitterState.FireTimer(old(Model()), r) && Valid()
    {
      assert RequestOk(Model(), r);
      CancelHandle(r);
    }

    /** The `.then` handlers of request `r` (index.ts:82-105), run once its promise has settled. */
    method Settle(r: nat)
      requires Valid() && r < |requests|
      requires !requests[r].inner.Pending? && requests[r].result.None?
      modifies this
      ensures Model() == EmitterState.Settle(old(Model()), r) && Valid()
    {
      EmitterProperties.SettleSpec(Model(), r);
      var c := requests[r].cursor;
      var inner := requests[r].inner;
      assert CursorOk(Model(), c);
      if cursors[c].dispose.Some? {
        CancelHandle(cursors[c].dispose.value);
      }
      cursors := cursors[c := cursors[c].(done := inner.Rejected?)];
      requests := requests[r := requests[r].(result := Some(StepOf(inner)))];
    }

    /** `return()` of cursor `c` (index.ts:114-125). */
    method Return(c: nat) returns (res: Step<T>)
      requires Valid() && c < |cursors|
      modifies this
      ensures Model() == EmitterState.Return(old(Model()), c) && Valid()
      ensures res == Done
    {
      EmitterProperties.ReturnSpec(Model(), c);
      assert CursorOk(Model(), c);
      if cursors[c].dispose.Some? {
        CancelHandle(cursors[c].dispose.value);
      }
      cursors := cursors[c := cursors[c].(done := true)];
      res := Done;
    }
  }
}
