/**
 * What the emitter promises, proved about the transitions of `EmitterState`:
 * every transition keeps the invariant `Valid`, the two sets always have as many
 * entries as there are cursors with a registered waiter, and each operation has the
 * effect its callers rely on.
 */
module EmitterProperties {
  import opened Seqs
  import opened EmitterState

  /**
   * A settled promise never settles again and a handler result never changes:
   * each waiter is resolved or rejected at most once.
   */
  ghost predicate SettledStay<T>(s: State<T>, t: State<T>)
  {
    |s.requests| <= |t.requests| &&
    forall q :: 0 <= q < |s.requests| ==>
      (!s.requests[q].inner.Pending? ==> t.requests[q].inner == s.requests[q].inner) &&
      (s.requests[q].result.Some? ==> t.requests[q].result == s.requests[q].result)
  }

  // ---------------------------------------------------------------------------
  // listenersCount and disposesCount

  ghost function CursorsWaitingOn<T>(s: State<T>, ids: seq<nat>): (cs: set<nat>)
  {
    set c: nat | c < |s.cursors| && s.cursors[c].promise.Some? && s.cursors[c].promise.value in ids
  }

  lemma {:induction false} CursorsWaitingOnCard<T>(s: State<T>, ids: seq<nat>)
    requires Valid(s) && NoDup(ids)
    requires forall r :: r in ids ==> r in s.listeners
    ensures |CursorsWaitingOn(s, ids)| == |ids|
  {
    if ids == [] {
      assert CursorsWaitingOn(s, ids) == {};
    } else {
      var init, x := ids[..|ids| - 1], ids[|ids| - 1];
      assert ids == init + [x];
      assert NoDup(init) by {
        forall i, j | 0 <= i < j < |init| ensures init[i] != init[j] {
          assert init[i] == ids[i] && init[j] == ids[j];
        }
      }
      assert x !in init by {
        forall i | 0 <= i < |init| ensures init[i] != x {
          assert init[i] == ids[i];
        }
      }
      CursorsWaitingOnCard(s, init);
      assert x in s.listeners;
      assert RequestOk(s, x);
      var cx := s.requests[x].cursor;
      forall c: nat | c < |s.cursors|
        ensures c in CursorsWaitingOn(s, ids) <==> c in CursorsWaitingOn(s, init) || c == cx
      {
        assert CursorOk(s, c);
      }
      assert CursorsWaitingOn(s, ids) == CursorsWaitingOn(s, init) + {cx};
      assert cx !in CursorsWaitingOn(s, init);
    }
  }

  /** `listenersCount == disposesCount ==` the number of cursors with a registered waiter. */
  lemma CountIsWaitingCursors<T>(s: State<T>)
    requires Valid(s)
    ensures |s.listeners| == |s.disposes| == |WaitingCursors(s)|
  {
    CursorsWaitingOnCard(s, s.listeners);
    assert WaitingCursors(s) == CursorsWaitingOn(s, s.listeners);
  }

  // ---------------------------------------------------------------------------
  // Acquiring a cursor

  lemma AcquireSpec<T>(s: State<T>)
    requires Valid(s)
    ensures var (t, c) := Acquire(s);
      Valid(t) && SettledStay(s, t) && c < |t.cursors| && !HasWaiter(t, c) &&
      t.cursors[c] == Cursor(None, None, false) && t.requests == s.requests &&
      t.listeners == s.listeners && t.disposes == s.disposes && WaitingCursors(t) == WaitingCursors(s) &&
      (forall c' :: 0 <= c' < |s.cursors| ==> t.cursors[c'] == s.cursors[c'])
  {
    var (t, c) := Acquire(s);
    forall c' | 0 <= c' < |t.cursors| ensures CursorOk(t, c') {
      if c' < |s.cursors| { assert CursorOk(s, c'); }
    }
    forall r | 0 <= r < |t.requests| ensures RequestOk(t, r) {
      assert RequestOk(s, r);
    }
    forall c': nat | c' < |t.cursors| ensures c' in WaitingCursors(t) <==> c' in WaitingCursors(s) {
      if c' < |s.cursors| { assert t.cursors[c'] == s.cursors[c']; }
    }
  }

  // ---------------------------------------------------------------------------
  // next()

  lemma NextValid<T>(s: State<T>, c: nat)
    requires Valid(s) && c < |s.cursors|
    ensures var (t, r) := Next(s, c);
      Valid(t) && SettledStay(s, t) && r < |t.requests| && t.cursors[c].promise == Some(r)
  {
    var (t, r) := Next(s, c);
    var cur := s.cursors[c];
    if cur.promise.None? {
      assert CursorOk(s, c);
      assert r !in s.listeners;
      assert NoDup(t.listeners) by {
        forall i, j | 0 <= i < j < |t.listeners| ensures t.listeners[i] != t.listeners[j] {
          if j == |s.listeners| { assert t.listeners[i] in s.listeners; }
        }
      }
      forall c' | 0 <= c' < |t.cursors| ensures CursorOk(t, c') {
        assert CursorOk(s, c');
      }
      forall q | 0 <= q < |t.requests| ensures RequestOk(t, q) {
        if q < |s.requests| {
          assert RequestOk(s, q);
          assert t.requests[q] == s.requests[q];
          if q in s.listeners { assert s.requests[q].cursor != c; }
        }
      }
    }
  }

  /** A second `next()` while a request is in flight returns that request and registers nothing. */
  lemma NextTwice<T>(s: State<T>, c: nat)
    requires Valid(s) && c < |s.cursors|
    ensures var (t, r) := Next(s, c);
      c < |t.cursors| && Next(t, c) == (t, r)
  {
    NextValid(s, c);
  }

  /**
   * `next()` on a non-terminal cursor with nothing in flight adds exactly one listener and
   * one cancel handle, for a fresh pending request, and arms a timer iff a timeout was given.
   */
  lemma NextRegisters<T>(s: State<T>, c: nat)
    requires Valid(s) && c < |s.cursors|
    requires s.cursors[c].promise.None? && !s.cursors[c].done
    ensures var (t, r) := Next(s, c);
      r < |t.requests| && r !in s.listeners &&
      t.listeners == s.listeners + [r] && t.disposes == s.disposes + [r] &&
      t.requests[r].inner.Pending? && t.requests[r].timer == s.timeout.Some? &&
      c !in WaitingCursors(s) && WaitingCursors(t) == WaitingCursors(s) + {c} &&
      (forall q :: 0 <= q < |s.requests| ==> t.requests[q] == s.requests[q])
  {
    var (t, r) := Next(s, c);
    assert r !in s.listeners;
    assert !HasWaiter(s, c);
    forall c': nat | c' < |t.cursors| ensures c' in WaitingCursors(t) <==> c' in WaitingCursors(s) + {c} {
      if c' != c {
        assert CursorOk(s, c');
        assert t.cursors[c'] == s.cursors[c'];
      }
    }
  }

  /**
   * A terminal cursor has no registered waiter, and none of its requests has an armed timer
   * or a pending promise.
   */
  lemma TerminalHoldsNothing<T>(s: State<T>, c: nat)
    requires Valid(s) && c < |s.cursors| && s.cursors[c].done
    ensures !HasWaiter(s, c)
    ensures forall r :: 0 <= r < |s.requests| && s.requests[r].cursor == c ==>
      r !in s.listeners && !s.requests[r].timer && !s.requests[r].inner.Pending?
  {
    assert CursorOk(s, c);
    forall r | 0 <= r < |s.requests| && s.requests[r].cursor == c
      ensures r !in s.listeners && !s.requests[r].timer && !s.requests[r].inner.Pending?
    {
      assert RequestOk(s, r);
    }
  }

  /**
   * Once a cursor is terminal, `next()` adds no listener, cancel handle or timer, and the
   * request it returns (a new one, or the one still in flight) was rejected by the executor:
   * its handler yields `done: true` and leaves the cursor terminal.
   */
  lemma NextTerminal<T>(s: State<T>, c: nat)
    requires Valid(s) && c < |s.cursors| && s.cursors[c].done
    ensures var (t, r) := Next(s, c);
      Valid(t) && r < |t.requests| && t.requests[r].cursor == c &&
      t.listeners == s.listeners && t.disposes == s.disposes &&
      !t.requests[r].registered && !t.requests[r].timer && t.requests[r].inner == Rejected &&
      (t.requests[r].result.Some? ==> t.requests[r].result == Some(Done))
    ensures var (t, r) := Next(s, c);
      t.requests[r].result.None? ==>
      var u := Settle(t, r);
      u.requests[r].result == Some(Done) && u.cursors[c].done && u.listeners == s.listeners
  {
    NextValid(s, c);
    var (t, r) := Next(s, c);
    assert RequestOk(t, r);
    assert CursorOk(t, c);
    assert forall d :: d in t.listeners ==> RequestOk(t, d);
    assert t.cursors[c].dispose.Some? ==> t.cursors[c].dispose.value !in t.listeners;
  }

  // ---------------------------------------------------------------------------
  // The cancel handle

  /**
   * A cancel handle called through `dispose`, `return()` or a settle handler
   * (the cursor's `dispose` variable holds it) removes exactly that request from both
   * sets, clears its timer, rejects it if it was pending, and forgets the cursor's
   * in-flight promise; nothing else changes.
   */
  lemma CancelSpec<T>(s: State<T>, d: nat)
    requires Valid(s) && d < |s.requests| && s.requests[d].cursor < |s.cursors|
    requires s.cursors[s.requests[d].cursor].dispose == Some(d)
    ensures var t := Cancel(s, d);
      var c := s.requests[d].cursor;
      Valid(t) && SettledStay(s, t) &&
      (forall r :: r in t.listeners <==> r in s.listeners && r != d) &&
      |t.listeners| == (if d in s.listeners then |s.listeners| - 1 else |s.listeners|) &&
      t.requests == s.requests[d := Cancelled(s.requests[d])] &&
      t.cursors == s.cursors[c := s.cursors[c].(promise := None)]
  {
    var t := Cancel(s, d);
    var c := s.requests[d].cursor;
    forall c' | 0 <= c' < |t.cursors| ensures CursorOk(t, c') {
      assert CursorOk(s, c');
    }
    forall r | 0 <= r < |t.requests| ensures RequestOk(t, r) {
      assert RequestOk(s, r);
      if r != d && r in s.listeners {
        assert s.requests[r].cursor != c;
      }
    }
  }

  /** Calling a cancel handle twice has the effect of calling it once. */
  lemma CancelIdempotent<T>(s: State<T>, d: nat)
    requires d < |s.requests| && s.requests[d].cursor < |s.cursors|
    ensures Cancel(Cancel(s, d), d) == Cancel(s, d)
  {
  }

  /**
   * A cancel handle that has already run touches only its cursor's `promise` variable:
   * no set, timer or promise changes.
   */
  lemma StaleCancel<T>(s: State<T>, d: nat)
    requires Valid(s) && d < |s.requests| && d !in s.listeners
    ensures s.requests[d].cursor < |s.cursors|
    ensures var c := s.requests[d].cursor;
      Cancel(s, d) == s.(cursors := s.cursors[c := s.cursors[c].(promise := None)])
  {
    assert RequestOk(s, d);
    assert Cancelled(s.requests[d]) == s.requests[d];
    assert s.requests[d := s.requests[d]] == s.requests;
  }

  /** A timer cancels only its own waiter. */
  lemma FireTimerSpec<T>(s: State<T>, r: nat)
    requires Valid(s) && r < |s.requests| && s.requests[r].timer
    ensures var t := FireTimer(s, r);
      var c := s.requests[r].cursor;
      Valid(t) && SettledStay(s, t) && r in s.listeners && !t.requests[r].timer &&
      !t.requests[r].inner.Pending? && t.requests[r].result.None? &&
      t.requests[r] == Cancelled(s.requests[r]) && c < |s.cursors| &&
      t.cursors == s.cursors[c := s.cursors[c].(promise := None)] &&
      (forall q :: q in t.listeners <==> q in s.listeners && q != r) &&
      (forall q :: 0 <= q < |s.requests| && q != r ==> t.requests[q] == s.requests[q]) &&
      (forall c' :: 0 <= c' < |s.cursors| && c' != c ==> t.cursors[c'] == s.cursors[c'])
  {
    assert RequestOk(s, r);
    CancelSpec(s, r);
  }

  // ---------------------------------------------------------------------------
  // emit

  lemma {:induction false} ResolveEachAt<T>(s: State<T>, ls: seq<nat>, v: T)
    requires forall i :: 0 <= i < |ls| ==> ls[i] < |s.requests|
    ensures var t := ResolveEach(s, ls, v);
      t.timeout == s.timeout && t.listeners == s.listeners && t.disposes == s.disposes &&
      t.cursors == s.cursors && |t.requests| == |s.requests| &&
      forall r :: 0 <= r < |s.requests| ==>
        t.requests[r] == if r in ls then Fulfil(s.requests[r], v) else s.requests[r]
    decreases |ls|
  {
    if ls != [] {
      var init := ls[..|ls| - 1];
      ResolveEachAt(s, init, v);
      forall r | 0 <= r < |s.requests| ensures r in ls <==> r in init || r == ls[|ls| - 1] {
        assert ls == init + [ls[|ls| - 1]];
      }
    }
  }

  /**
   * `emit(v)` resolves with `v` every waiter pending at call time and nothing else; it neither
   * adds nor removes a listener or a cancel handle, and with no listener it changes nothing.
   */
  lemma EmitSpec<T>(s: State<T>, v: T)
    requires Valid(s)
    ensures var t := Emit(s, v);
      Valid(t) && SettledStay(s, t) &&
      t.listeners == s.listeners && t.disposes == s.disposes && t.cursors == s.cursors &&
      |t.requests| == |s.requests| &&
      (forall r :: 0 <= r < |s.requests| ==>
        t.requests[r] == if r in s.listeners then Fulfil(s.requests[r], v) else s.requests[r]) &&
      (s.listeners == [] ==> t == s)
  {
    var t := Emit(s, v);
    assert forall i :: 0 <= i < |s.listeners| ==> s.listeners[i] in s.listeners;
    ResolveEachAt(s, s.listeners, v);
    forall c | 0 <= c < |t.cursors| ensures CursorOk(t, c) {
      assert CursorOk(s, c);
    }
    forall r | 0 <= r < |t.requests| ensures RequestOk(t, r) {
      assert RequestOk(s, r);
    }
    if s.listeners == [] {
      assert t.requests == s.requests;
    }
  }

  // ---------------------------------------------------------------------------
  // dispose

  /** Some handle in `ds` is the cancel handle of a request of cursor `c`. */
  ghost predicate Hits<T>(s: State<T>, ds: seq<nat>, c: nat)
    decreases |ds|
  {
    ds != [] &&
    ((ds[|ds| - 1] < |s.requests| && s.requests[ds[|ds| - 1]].cursor == c) || Hits(s, ds[..|ds| - 1], c))
  }

  /** Calling the cancel handles `ds` deletes exactly them from both sets. */
  lemma {:induction false} CancelEachSets<T>(s: State<T>, ds: seq<nat>)
    requires forall i :: 0 <= i < |ds| ==> ds[i] < |s.requests| && s.requests[ds[i]].cursor < |s.cursors|
    requires s.listeners == s.disposes && NoDup(s.listeners)
    ensures var t := CancelEach(s, ds);
      t.listeners == t.disposes && NoDup(t.listeners) &&
      forall r :: r in t.listeners <==> r in s.listeners && r !in ds
    decreases |ds|
  {
    if ds != [] {
      var init := ds[..|ds| - 1];
      CancelEachSets(s, init);
      assert ds == init + [ds[|ds| - 1]];
    }
  }

  /** Calling the cancel handles `ds` cancels request `r` iff its handle is among them, and once. */
  lemma {:induction false} CancelEachRequestAt<T>(s: State<T>, ds: seq<nat>, r: nat)
    requires forall i :: 0 <= i < |ds| ==> ds[i] < |s.requests| && s.requests[ds[i]].cursor < |s.cursors|
    requires r < |s.requests|
    ensures CancelEach(s, ds).requests[r] == if r in ds then Cancelled(s.requests[r]) else s.requests[r]
    decreases |ds|
  {
    if ds != [] {
      var init, d := ds[..|ds| - 1], ds[|ds| - 1];
      CancelEachRequestAt(s, init, r);
      assert r in ds <==> r in init || r == d by {
        assert ds == init + [d];
      }
    }
  }

  /** Calling the cancel handles `ds` forgets cursor `c`'s in-flight promise iff one of them is its. */
  lemma {:induction false} CancelEachCursorAt<T>(s: State<T>, ds: seq<nat>, c: nat)
    requires forall i :: 0 <= i < |ds| ==> ds[i] < |s.requests| && s.requests[ds[i]].cursor < |s.cursors|
    requires c < |s.cursors|
    ensures CancelEach(s, ds).cursors[c] ==
      if Hits(s, ds, c) then s.cursors[c].(promise := None) else s.cursors[c]
    decreases |ds|
  {
    if ds != [] {
      var init, d := ds[..|ds| - 1], ds[|ds| - 1];
      CancelEachCursorAt(s, init, c);
    }
  }

  /** In a valid state, the handles of registered requests hit exactly the cursors waiting on them. */
  lemma {:induction false} HitsWaiting<T>(s: State<T>, ds: seq<nat>, c: nat)
    requires Valid(s) && c < |s.cursors|
    requires forall d :: d in ds ==> d in s.listeners
    ensures Hits(s, ds, c) <==> HasWaiter(s, c) && s.cursors[c].promise.value in ds
    decreases |ds|
  {
    if ds != [] {
      var init, d := ds[..|ds| - 1], ds[|ds| - 1];
      assert ds == init + [d];
      HitsWaiting(s, init, c);
      assert d in s.listeners;
      assert RequestOk(s, d) && CursorOk(s, c);
    }
  }

  /**
   * Calling the cancel handles of registered requests keeps the invariant, removes exactly
   * those from both sets, cancels exactly those requests and forgets the in-flight promise of
   * exactly their cursors.
   */
  lemma CancelEachSpec<T>(s: State<T>, ds: seq<nat>)
    requires Valid(s) && NoDup(ds)
    requires forall d :: d in ds ==> d in s.listeners
    ensures forall i :: 0 <= i < |ds| ==> ds[i] < |s.requests| && s.requests[ds[i]].cursor < |s.cursors|
    ensures var t := CancelEach(s, ds);
      Valid(t) && SettledStay(s, t) &&
      (forall r :: r in t.listeners <==> r in s.listeners && r !in ds) &&
      (forall r :: 0 <= r < |s.requests| ==>
        t.requests[r] == if r in ds then Cancelled(s.requests[r]) else s.requests[r]) &&
      (forall c :: 0 <= c < |s.cursors| ==>
        t.cursors[c] == if HasWaiter(s, c) && s.cursors[c].promise.value in ds
                        then s.cursors[c].(promise := None) else s.cursors[c])
  {
    assert forall i :: 0 <= i < |ds| ==> ds[i] in s.listeners && RequestOk(s, ds[i]);
    var t := CancelEach(s, ds);
    CancelEachSets(s, ds);
    forall c | 0 <= c < |s.cursors|
      ensures t.cursors[c] == if HasWaiter(s, c) && s.cursors[c].promise.value in ds
                              then s.cursors[c].(promise := None) else s.cursors[c]
      ensures CursorOk(t, c)
    {
      CancelEachCursorAt(s, ds, c);
      HitsWaiting(s, ds, c);
      assert CursorOk(s, c);
      var cur := s.cursors[c];
      if cur.promise.Some? { CancelEachRequestAt(s, ds, cur.promise.value); }
      if cur.dispose.Some? { CancelEachRequestAt(s, ds, cur.dispose.value); }
    }
    forall r | 0 <= r < |s.requests|
      ensures t.requests[r] == if r in ds then Cancelled(s.requests[r]) else s.requests[r]
      ensures RequestOk(t, r)
    {
      CancelEachRequestAt(s, ds, r);
      assert RequestOk(s, r);
      var c := s.requests[r].cursor;
      CancelEachCursorAt(s, ds, c);
      if r in t.listeners {
        HitsWaiting(s, ds, c);
      }
    }
  }

  /** One more turn of the `dispose` loop calls one more cancel handle. */
  lemma CancelEachStep<T>(s: State<T>, ds: seq<nat>, i: nat)
    requires forall j :: 0 <= j < |ds| ==> ds[j] < |s.requests| && s.requests[ds[j]].cursor < |s.cursors|
    requires i < |ds|
    ensures CancelEach(s, ds[..i + 1]) == Cancel(CancelEach(s, ds[..i]), ds[i])
  {
    assert ds[..i + 1][..i] == ds[..i];
  }

  /**
   * Each turn of the `dispose` loop starts in a valid state, and the next handle still names
   * a registered request, held by its cursor's `dispose` variable.
   */
  lemma CancelEachPrefix<T>(s: State<T>, i: nat)
    requires Valid(s) && i < |s.disposes|
    ensures forall j :: 0 <= j < |s.disposes| ==>
      s.disposes[j] < |s.requests| && s.requests[s.disposes[j]].cursor < |s.cursors|
    ensures var d := s.disposes[i];
      var u := CancelEach(s, s.disposes[..i]);
      Valid(u) && d < |u.requests| && u.requests[d].cursor < |u.cursors| &&
      u.cursors[u.requests[d].cursor].dispose == Some(d)
  {
    var ds := s.disposes;
    assert forall j :: 0 <= j < |ds| ==> ds[j] in s.listeners && RequestOk(s, ds[j]);
    var init, d := ds[..i], ds[i];
    NoDupPrefix(ds, i);
    var u := CancelEach(s, init);
    assert Valid(u) && d in u.listeners by {
      CancelEachSpec(s, init);
    }
    assert RequestOk(u, d);
  }

  /**
   * `dispose()` rejects every waiter pending at call time, clears their timers, empties both
   * sets and forgets the in-flight promise of every cursor that had a waiter; requests that
   * were not registered and cursors without a waiter do not change.
   */
  lemma DisposeSpec<T>(s: State<T>)
    requires Valid(s)
    ensures var t := Dispose(s);
      Valid(t) && SettledStay(s, t) && t.listeners == [] && t.disposes == [] &&
      WaitingCursors(t) == {} &&
      (forall r :: 0 <= r < |s.requests| ==>
        t.requests[r] == if r in s.listeners then Cancelled(s.requests[r]) else s.requests[r]) &&
      (forall c :: 0 <= c < |s.cursors| ==>
        t.cursors[c] == if HasWaiter(s, c) then s.cursors[c].(promise := None) else s.cursors[c])
  {
    CancelEachSpec(s, s.disposes);
    CountIsWaitingCursors(Dispose(s));
  }

  // ---------------------------------------------------------------------------
  // The settle handlers and return()

  /**
   * `dispose?.()` on cursor `c` (index.ts:83-85, 95-97, 115-117) removes this cursor's
   * waiter, if it has one, and no other: `listenersCount` drops by one exactly when the
   * cursor had a waiter, and the other cursors and their requests are unchanged.
   */
  lemma CallDisposeSpec<T>(s: State<T>, c: nat)
    requires Valid(s) && c < |s.cursors|
    ensures var t := CallDispose(s, c);
      Valid(t) && SettledStay(s, t) && !HasWaiter(t, c) &&
      t.timeout == s.timeout && |t.requests| == |s.requests| &&
      t.cursors[c].done == s.cursors[c].done &&
      (forall q :: q in t.listeners <==> q in s.listeners && s.requests[q].cursor != c) &&
      |t.listeners| == (if HasWaiter(s, c) then |s.listeners| - 1 else |s.listeners|) &&
      (HasWaiter(s, c) ==>
        t.requests[s.cursors[c].promise.value] == Cancelled(s.requests[s.cursors[c].promise.value])) &&
      (forall q :: 0 <= q < |s.requests| ==>
        t.requests[q].cursor == s.requests[q].cursor && t.requests[q].result == s.requests[q].result &&
        (s.requests[q].cursor != c ==> t.requests[q] == s.requests[q])) &&
      (forall c' :: 0 <= c' < |s.cursors| && c' != c ==> t.cursors[c'] == s.cursors[c'])
  {
    assert CursorOk(s, c);
    var p := s.cursors[c].promise;
    assert p.Some? ==> RequestOk(s, p.value);
    forall q | q in s.listeners ensures s.requests[q].cursor == c ==> Some(q) == s.cursors[c].dispose {
      assert RequestOk(s, q);
    }
    if s.cursors[c].dispose.Some? {
      var d := s.cursors[c].dispose.value;
      CancelSpec(s, d);
      assert d in s.listeners ==> RequestOk(s, d);
    }
  }

  /**
   * The `.then` handler of `r` records `{ value, done: false }` for a fulfilled promise and
   * `{ value: undefined, done: true }` for a rejected one, sets the cursor's `done`
   * accordingly and leaves the cursor with no registered waiter. It touches no other
   * cursor and no request of another cursor.
   */
  lemma SettleSpec<T>(s: State<T>, r: nat)
    requires Valid(s) && r < |s.requests|
    requires !s.requests[r].inner.Pending? && s.requests[r].result.None?
    ensures s.requests[r].cursor < |s.cursors|
    ensures var t := Settle(s, r);
      var c := s.requests[r].cursor;
      Valid(t) && SettledStay(s, t) &&
      t.requests[r].result == Some(StepOf(s.requests[r].inner)) &&
      t.cursors[c].done == s.requests[r].inner.Rejected? &&
      r !in t.listeners && !HasWaiter(t, c) &&
      (forall q :: q in t.listeners <==> q in s.listeners && s.requests[q].cursor != c) &&
      |t.listeners| == (if HasWaiter(s, c) then |s.listeners| - 1 else |s.listeners|) &&
      (forall q :: 0 <= q < |s.requests| && s.requests[q].cursor != c ==> t.requests[q] == s.requests[q]) &&
      (forall c' :: 0 <= c' < |s.cursors| && c' != c ==> t.cursors[c'] == s.cursors[c'])
  {
    assert RequestOk(s, r);
    var c := s.requests[r].cursor;
    CallDisposeSpec(s, c);
    var u := CallDispose(s, c);
    var t := Settle(s, r);
    assert !s.requests[r].inner.Pending? && u.requests[r].result.None? by {
      assert RequestOk(u, r);
    }
    forall c' | 0 <= c' < |t.cursors| ensures CursorOk(t, c') {
      assert CursorOk(u, c');
    }
    forall q | 0 <= q < |t.requests| ensures RequestOk(t, q) {
      assert RequestOk(u, q);
    }
  }

  /**
   * `return()` cancels only this cursor's waiter, if it has one (its timer is cleared and a
   * pending promise is rejected), and makes the cursor
   * terminal; the other cursors, their requests and their entries in both sets are unchanged.
   */
  lemma ReturnSpec<T>(s: State<T>, c: nat)
    requires Valid(s) && c < |s.cursors|
    ensures var t := Return(s, c);
      Valid(t) && SettledStay(s, t) && t.cursors[c].done && !HasWaiter(t, c) &&
      (forall q :: q in t.listeners <==> q in s.listeners && s.requests[q].cursor != c) &&
      |t.listeners| == (if HasWaiter(s, c) then |s.listeners| - 1 else |s.listeners|) &&
      (HasWaiter(s, c) ==>
        t.requests[s.cursors[c].promise.value] == Cancelled(s.requests[s.cursors[c].promise.value])) &&
      (forall q :: 0 <= q < |s.requests| && s.requests[q].cursor != c ==> t.requests[q] == s.requests[q]) &&
      (forall c' :: 0 <= c' < |s.cursors| && c' != c ==> t.cursors[c'] == s.cursors[c'])
  {
    CallDisposeSpec(s, c);
    var u := CallDispose(s, c);
    var t := Return(s, c);
    forall c' | 0 <= c' < |t.cursors| ensures CursorOk(t, c') {
      assert CursorOk(u, c');
    }
    forall q | 0 <= q < |t.requests| ensures RequestOk(t, q) {
      assert RequestOk(u, q);
    }
  }

  // ---------------------------------------------------------------------------
  // Operations in sequence

  /**
   * A waiter pending when `emit(v)` runs yields `{ value: v, done: false }` once its handler
   * runs; it is then out of both sets and its cursor is not terminal and has nothing in
   * flight, so the following `next()` registers a fresh waiter for the next value.
   */
  lemma EmitThenSettle<T>(s: State<T>, v: T, r: nat)
    requires Valid(s) && r in s.listeners && s.requests[r].inner.Pending?
    ensures r < |s.requests| && Valid(Emit(s, v)) && r < |Emit(s, v).requests|
    ensures Emit(s, v).requests[r].inner == Fulfilled(v) && Emit(s, v).requests[r].result.None?
    ensures var t := Settle(Emit(s, v), r);
      var c := s.requests[r].cursor;
      c < |t.cursors| && t.requests[r].result == Some(Item(v)) &&
      r !in t.listeners && r !in t.disposes &&
      !t.cursors[c].done && t.cursors[c].promise.None?
  {
    assert RequestOk(s, r);
    EmitSpec(s, v);
    var e := Emit(s, v);
    SettleSpec(e, r);
    assert RequestOk(e, r);
    CancelSpec(e, r);
  }

  /**
   * A waiter pending when `dispose()` runs yields `{ value: undefined, done: true }` once its
   * handler runs, and its cursor is then terminal with nothing in flight.
   */
  lemma DisposeThenSettle<T>(s: State<T>, r: nat)
    requires Valid(s) && r in s.listeners && s.requests[r].inner.Pending?
    ensures r < |s.requests| && Valid(Dispose(s)) && r < |Dispose(s).requests|
    ensures Dispose(s).requests[r].inner == Rejected && Dispose(s).requests[r].result.None?
    ensures var t := Settle(Dispose(s), r);
      var c := s.requests[r].cursor;
      c < |t.cursors| && t.requests[r].result == Some(Done) &&
      t.cursors[c].done && t.cursors[c].promise.None? && t.listeners == []
  {
    assert RequestOk(s, r);
    DisposeSpec(s);
    var u := Dispose(s);
    SettleSpec(u, r);
    var c := s.requests[r].cursor;
    assert CursorOk(s, c);
    StaleCancel(u, r);
  }

  /**
   * A waiter still pending when its timeout expires is rejected, so once its handler runs it
   * yields `{ value: undefined, done: true }`, and its cursor is then terminal with nothing
   * in flight.
   */
  lemma TimeoutThenSettle<T>(s: State<T>, r: nat)
    requires Valid(s) && r < |s.requests| && s.requests[r].timer && s.requests[r].inner.Pending?
    ensures Valid(FireTimer(s, r)) && r < |FireTimer(s, r).requests|
    ensures FireTimer(s, r).requests[r].inner == Rejected && FireTimer(s, r).requests[r].result.None?
    ensures var t := Settle(FireTimer(s, r), r);
      var c := s.requests[r].cursor;
      c < |t.cursors| && t.requests[r].result == Some(Done) &&
      t.cursors[c].done && t.cursors[c].promise.None?
  {
    assert RequestOk(s, r);
    CancelSpec(s, r);
    var u := FireTimer(s, r);
    SettleSpec(u, r);
    var c := s.requests[r].cursor;
    assert CursorOk(s, c);
    StaleCancel(u, r);
  }

  /**
   * A waiter pending when `return()` runs is rejected, so once its handler runs it yields
   * `{ value: undefined, done: true }`, and its cursor stays terminal with nothing in flight.
   */
  lemma ReturnThenSettle<T>(s: State<T>, c: nat)
    requires Valid(s) && c < |s.cursors| && HasWaiter(s, c)
    requires s.requests[s.cursors[c].promise.value].inner.Pending?
    ensures var w := s.cursors[c].promise.value;
      w < |s.requests| && Valid(Return(s, c)) && w < |Return(s, c).requests| &&
      Return(s, c).requests[w].inner == Rejected && Return(s, c).requests[w].result.None?
    ensures var w := s.cursors[c].promise.value;
      var t := Settle(Return(s, c), w);
      c < |t.cursors| && t.requests[w].result == Some(Done) &&
      t.cursors[c].done && t.cursors[c].promise.None?
  {
    var w := s.cursors[c].promise.value;
    assert RequestOk(s, w);
    ReturnSpec(s, c);
    var u := Return(s, c);
    SettleSpec(u, w);
    assert CursorOk(u, c);
    StaleCancel(u, w);
  }

  /**
   * The settle handler calls whatever cancel handle the cursor's `dispose` variable holds
   * now. When a later waiter of the same cursor has registered meanwhile (for example
   * `next(); dispose(); next()` before the first handler runs), the earlier request's
   * handler cancels that later waiter.
   */
  lemma SettleCancelsLaterWaiter<T>(s: State<T>, r: nat, w: nat)
    requires Valid(s) && r < |s.requests| && !s.requests[r].inner.Pending? && s.requests[r].result.None?
    requires w in s.listeners && w != r && s.requests[r].cursor < |s.cursors|
    requires s.cursors[s.requests[r].cursor].dispose == Some(w)
    ensures var t := Settle(s, r);
      w < |t.requests| && w !in t.listeners && !t.requests[w].inner.Pending? && !t.requests[w].timer &&
      t.requests[w].result.None? && t.requests[w] == Cancelled(s.requests[w])
  {
    assert RequestOk(s, w);
    SettleSpec(s, r);
    CallDisposeSpec(s, s.requests[r].cursor);
  }
}
