/**
 * The behaviours that index.spec.ts checks, replayed through the methods of
 * `AsyncIterableEmitter`: every `await` of the tests becomes an explicit `Settle` of the
 * awaited request, and every timeout a `FireTimer`. After each step, a snapshot of the
 * model names the state, and the facts the next step needs are drawn from the lemma
 * about that step.
 */
module Scenarios {
  import opened Seqs
  import opened EmitterState
  import opened Emitter
  import EmitterProperties

  /** A new emitter without timeout, one cursor, and that cursor's first pull registered. */
  method OnePendingPull() returns (e: AsyncIterableEmitter<int>, c: nat, r: nat)
    ensures fresh(e) && e.Valid() && e.timeout == None && c == 0 && r == 0
    ensures e.listeners == [r] && e.disposes == [r]
    ensures e.cursors == [Cursor(Some(r), Some(r), false)]
    ensures e.requests == [Request(c, Pending, true, false, None)]
  {
    e := new AsyncIterableEmitter<int>(None);
    c := e.AsyncIterator();
    r := e.Next(c);
  }

  /** A new emitter without timeout, two cursors, and the first pull of each registered. */
  method TwoPendingPulls() returns (e: AsyncIterableEmitter<int>, c1: nat, c2: nat, r1: nat, r2: nat)
    ensures fresh(e) && e.Valid() && e.timeout == None && c1 == r1 == 0 && c2 == r2 == 1
    ensures e.listeners == [r1, r2] && e.disposes == [r1, r2]
    ensures e.cursors == [Cursor(Some(r1), Some(r1), false), Cursor(Some(r2), Some(r2), false)]
    ensures e.requests == [Request(c1, Pending, true, false, None), Request(c2, Pending, true, false, None)]
  {
    e := new AsyncIterableEmitter<int>(None);
    c1 := e.AsyncIterator();
    c2 := e.AsyncIterator();
    r1 := e.Next(c1);
    r2 := e.Next(c2);
  }

  /** A pull issued before `emit(1)` yields 1 (index.spec.ts:8-18). */
  method GetSingleValue() returns (got: Option<Step<int>>)
    ensures got == Some(Item(1))
  {
    var e, c, r := OnePendingPull();
    EmitterProperties.EmitThenSettle(e.Model(), 1, r);
    e.Emit(1);
    e.Settle(r);
    got := e.Awaited(r);
  }

  /**
   * Two `next()` calls before `emit(1)` return the same request, so both yield 1, and
   * only one listener was registered (index.spec.ts:44-56).
   */
  method TwoPullsOneEmit() returns (sameRequest: bool, count: nat, got: Option<Step<int>>)
    ensures sameRequest && count == 1 && got == Some(Item(1))
  {
    var e, c, r1 := OnePendingPull();
    var r2 := e.Next(c);
    sameRequest := r1 == r2;
    count := |e.listeners|;
    EmitterProperties.EmitThenSettle(e.Model(), 1, r1);
    e.Emit(1);
    e.Settle(r1);
    got := e.Awaited(r2);
  }

  /**
   * One turn of a consumer's loop on an idle cursor: it pulls, `v` is emitted while the
   * pull is pending, and the handler runs. The pull yields `v` and the cursor is idle again.
   */
  method PullEmitHandle(e: AsyncIterableEmitter<int>, c: nat, v: int) returns (got: Option<Step<int>>)
    requires e.Valid() && c < |e.cursors| && e.cursors[c].promise.None? && !e.cursors[c].done
    modifies e
    ensures e.Valid() && c < |e.cursors| && e.cursors[c].promise.None? && !e.cursors[c].done
    ensures got == Some(Item(v))
  {
    var r := e.Next(c);
    ghost var s := e.Model();
    EmitterProperties.EmitThenSettle(s, v, r);
    e.Emit(v);
    e.Settle(r);
    got := e.Awaited(r);
  }

  /**
   * A consumer that pulls, receives each value emitted while its pull is pending, and stops
   * at the first `done: true`: it yields the emitted values in order, and then the
   * timeout completes it (index.spec.ts:20-42 and 76-120).
   */
  method ConsumeUntilTimeout(values: seq<int>) returns (got: seq<int>, finished: bool)
    ensures got == values && finished
  {
    var e := new AsyncIterableEmitter<int>(Some(50));
    var c := e.AsyncIterator();
    got := [];
    var i := 0;
    while i < |values|
      invariant 0 <= i <= |values| && got == values[..i]
      invariant e.Valid() && c < |e.cursors| && e.timeout == Some(50)
      invariant e.cursors[c].promise.None? && !e.cursors[c].done
    {
      var step := PullEmitHandle(e, c, values[i]);
      got := got + [step.value.value];
      assert values[..i + 1] == values[..i] + [values[i]];
      i := i + 1;
    }
    assert values[..i] == values;
    var r := e.Next(c);
    ghost var s := e.Model();
    assert e.requests[r].timer by {
      assert r in s.listeners;
      assert RequestOk(s, r);
    }
    e.FireTimer(r);
    assert !e.requests[r].inner.Pending? && e.requests[r].result.None? by {
      EmitterProperties.FireTimerSpec(s, r);
    }
    e.Settle(r);
    finished := e.Awaited(r) == Some(Done);
  }

  /** `dispose()` completes a pending pull with `done: true` (index.spec.ts:122-132). */
  method DisposeFinishes() returns (got: Option<Step<int>>, count: nat)
    ensures got == Some(Done) && count == 0
  {
    var e, c, r := OnePendingPull();
    EmitterProperties.DisposeThenSettle(e.Model(), r);
    e.Dispose();
    count := e.ListenersCount();
    e.Settle(r);
    got := e.Awaited(r);
  }

  /** Two cursors pending on one `emit(0)` both yield 0 (index.spec.ts:134-149). */
  method IteratorsDoNotInterfere() returns (got1: Option<Step<int>>, got2: Option<Step<int>>)
    ensures got1 == Some(Item(0)) && got2 == Some(Item(0))
  {
    var e, c1, c2, r1, r2 := TwoPendingPulls();
    ghost var s2 := e.Model();
    e.Emit(0);
    ghost var s3 := e.Model();
    assert s3.requests[r1].inner == Fulfilled(0) && s3.requests[r2].inner == Fulfilled(0) &&
      s3.requests[r1].result.None? && s3.requests[r2].result.None? &&
      s3.requests[r1].cursor == c1 && s3.requests[r2].cursor == c2 by {
      EmitterProperties.EmitSpec(s2, 0);
    }
    e.Settle(r1);
    ghost var s4 := e.Model();
    assert s4.requests[r1].result == Some(Item(0)) && s4.requests[r2] == s3.requests[r2] by {
      EmitterProperties.SettleSpec(s3, r1);
    }
    e.Settle(r2);
    assert e.requests[r1].result == Some(Item(0)) && e.requests[r2].result == Some(Item(0)) by {
      EmitterProperties.SettleSpec(s4, r2);
    }
    got1 := e.Awaited(r1);
    got2 := e.Awaited(r2);
  }

  /** One `dispose()` completes the pending pulls of two cursors (index.spec.ts:151-166). */
  method DisposeMultiple() returns (got1: Option<Step<int>>, got2: Option<Step<int>>, count: nat)
    ensures got1 == Some(Done) && got2 == Some(Done) && count == 0
  {
    var e, c1, c2, r1, r2 := TwoPendingPulls();
    ghost var s2 := e.Model();
    e.Dispose();
    count := e.DisposesCount();
    ghost var s3 := e.Model();
    assert s3.requests[r1].inner == Rejected && s3.requests[r2].inner == Rejected &&
      s3.requests[r1].result.None? && s3.requests[r2].result.None? by {
      EmitterProperties.DisposeSpec(s2);
    }
    e.Settle(r1);
    ghost var s4 := e.Model();
    assert s4.requests[r1].result == Some(Done) && s4.requests[r2] == s3.requests[r2] by {
      EmitterProperties.SettleSpec(s3, r1);
    }
    e.Settle(r2);
    assert e.requests[r1].result == Some(Done) && e.requests[r2].result == Some(Done) by {
      EmitterProperties.SettleSpec(s4, r2);
    }
    got1 := e.Awaited(r1);
    got2 := e.Awaited(r2);
  }

  /**
   * `return()` on one cursor completes that cursor's pending pull with `done: true` and leaves
   * another cursor's pending pull registered, which still receives the next value
   * (index.ts:64-73, 114-125).
   */
  method ReturnLeavesOtherCursor() returns (stopped: Step<int>, pull: Option<Step<int>>, other: Option<Step<int>>, count: nat)
    ensures stopped == Done && pull == Some(Done) && other == Some(Item(7)) && count == 1
  {
    var e, c1, c2, r1, r2 := TwoPendingPulls();
    ghost var s2 := e.Model();
    stopped := e.Return(c1);
    ghost var s3 := e.Model();
    assert |s3.listeners| == 1 && r2 in s3.listeners && s3.requests[r2] == s2.requests[r2] &&
      s3.requests[r1].inner == Rejected && s3.requests[r1].result.None? by {
      EmitterProperties.ReturnSpec(s2, c1);
      EmitterProperties.ReturnThenSettle(s2, c1);
    }
    e.Settle(r1);
    pull := e.Awaited(r1);
    ghost var s4 := e.Model();
    assert pull == Some(Done) && |s4.listeners| == 1 && r2 in s4.listeners && s4.requests[r2] == s2.requests[r2] by {
      EmitterProperties.ReturnThenSettle(s2, c1);
      EmitterProperties.SettleSpec(s3, r1);
    }
    count := e.ListenersCount();
    EmitterProperties.EmitThenSettle(s4, 7, r2);
    e.Emit(7);
    e.Settle(r2);
    other := e.Awaited(r2);
  }

  /**
   * `next(); dispose(); next()` before the first handler runs: the second pull registers a
   * new waiter, and the first request's rejection handler, calling the cursor's current
   * `dispose`, cancels it, so both pulls complete with `done: true` and nothing stays
   * registered (index.ts:64-73, 94-104).
   */
  method HandlerCancelsLaterWaiter() returns (got1: Option<Step<int>>, got2: Option<Step<int>>, registered: nat, count: nat)
    ensures registered == 1 && got1 == Some(Done) && got2 == Some(Done) && count == 0
  {
    var e, c, r1, r2 := PullDisposePull();
    registered := e.ListenersCount();
    ghost var s3 := e.Model();
    e.Settle(r1);
    ghost var s4 := e.Model();
    assert s4.requests[r1].result == Some(Done) && |s4.listeners| == 0 &&
      s4.requests[r2].inner == Rejected && s4.requests[r2].result.None? by {
      EmitterProperties.SettleCancelsLaterWaiter(s3, r1, r2);
      EmitterProperties.SettleSpec(s3, r1);
    }
    e.Settle(r2);
    assert e.requests[r1].result == Some(Done) && e.requests[r2].result == Some(Done) &&
      |e.listeners| == 0 by {
      EmitterProperties.SettleSpec(s4, r2);
    }
    got1 := e.Awaited(r1);
    got2 := e.Awaited(r2);
    count := e.ListenersCount();
  }

  /**
   * `next(); dispose(); next()` on a new cursor, before any handler runs: the first request
   * is rejected but not yet handled, and the second is registered and held by `dispose`.
   */
  method PullDisposePull() returns (e: AsyncIterableEmitter<int>, c: nat, r1: nat, r2: nat)
    ensures fresh(e) && e.Valid() && c == r1 == 0 && r2 == 1
    ensures e.listeners == [r2] && e.disposes == [r2]
    ensures e.cursors == [Cursor(Some(r2), Some(r2), false)]
    ensures e.requests == [Request(c, Rejected, true, false, None), Request(c, Pending, true, false, None)]
  {
    e, c, r1 := OnePendingPull();
    ghost var s1 := e.Model();
    e.Dispose();
    assert e.requests == [Request(c, Rejected, true, false, None)] &&
      e.cursors == [Cursor(None, Some(r1), false)] by {
      EmitterProperties.DisposeSpec(s1);
    }
    r2 := e.Next(c);
  }

  /**
   * `next(); emit(1); return()` before the handler runs: the pull still yields 1, and the
   * fulfilment handler's `done = false` undoes the `done = true` of `return()`, so the
   * following `next()` registers a new waiter (index.ts:87, 114-125).
   */
  method HandlerAfterReturn() returns (got: Option<Step<int>>, terminal: bool, count: nat)
    ensures got == Some(Item(1)) && !terminal && count == 1
  {
    var e, c, r := OnePendingPull();
    ghost var s1 := e.Model();
    e.Emit(1);
    ghost var s2 := e.Model();
    assert s2.listeners == [r] && s2.cursors == s1.cursors && s2.requests[r].inner == Fulfilled(1) &&
      s2.requests[r].result.None? && s2.requests[r].cursor == c by {
      EmitterProperties.EmitSpec(s1, 1);
    }
    var _ := e.Return(c);
    ghost var s3 := e.Model();
    assert s3.requests[r].inner == Fulfilled(1) && s3.requests[r].result.None? &&
      |s3.listeners| == 0 && c < |s3.cursors| by {
      EmitterProperties.CallDisposeSpec(s2, c);
    }
    e.Settle(r);
    assert e.requests[r].result == Some(Item(1)) && c < |e.cursors| && !e.cursors[c].done &&
      e.cursors[c].promise.None? && |e.listeners| == 0 by {
      assert CursorOk(s3, c);
      EmitterProperties.SettleSpec(s3, r);
    }
    got := e.Awaited(r);
    terminal := e.cursors[c].done;
    var r2 := e.Next(c);
    count := e.ListenersCount();
  }
}
