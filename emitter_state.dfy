/**
 * The state of an `AsyncIterableEmitter` and of the cursors it hands out, as a value,
 * with one transition function per thing that can happen to it: a cursor is acquired,
 * `next()` is called, a value is emitted, the emitter is disposed, a timeout fires,
 * a promise's `.then` handler runs, `return()` is called.
 *
 * Waiters are identified by request ids: the index of the promise in `requests`.
 * The emitter's `#listeners` set holds a request's `resolve` function and its
 * `#disposes` set holds the request's cancel handle `currentDispose`; both sets
 * are modelled as sequences of request ids in insertion order.
 */
module EmitterState {
  import opened Seqs

  /** The promise built by `new Promise(executor)` at index.ts:52. */
  datatype Promise<T> = Pending | Fulfilled(value: T) | Rejected

  /** What awaiting `next()` yields: `{ value, done: false }` or `{ value: undefined, done: true }`. */
  datatype Step<T> = Item(value: T) | Done

  /**
   * One promise created by `next()`.
   * `registered`: the executor took the registering branch (the cursor was not terminal).
   * `timer`: a timeout is armed for it.
   * `result`: what the `.then` handler returned, once it has run.
   */
  datatype Request<T> = Request(cursor: nat, inner: Promise<T>, registered: bool, timer: bool, result: Option<Step<T>>)

  /**
   * The variables captured by one `[Symbol.asyncIterator]()` call: the in-flight
   * request `promise`, the request whose cancel handle `dispose` holds, and `done`
   * (`undefined` is read as `false`).
   */
  datatype Cursor = Cursor(promise: Option<nat>, dispose: Option<nat>, done: bool)

  datatype State<T> = State(
    timeout: Option<int>,
    listeners: seq<nat>,
    disposes: seq<nat>,
    cursors: seq<Cursor>,
    requests: seq<Request<T>>)

  /** The iterator result the `.then` handlers build from a settled promise. */
  function StepOf<T>(p: Promise<T>): (st: Step<T>)
  {
    if p.Fulfilled? then Item(p.value) else Done
  }

  /** Cursor `c` has a request whose listener and cancel handle are registered. */
  predicate HasWaiter<T>(s: State<T>, c: nat)
    requires c < |s.cursors|
  {
    s.cursors[c].promise.Some? && s.cursors[c].promise.value in s.listeners
  }

  ghost function WaitingCursors<T>(s: State<T>): (cs: set<nat>)
  {
    set c | 0 <= c < |s.cursors| && HasWaiter(s, c)
  }

  // ---------------------------------------------------------------------------
  // The invariant

  /**
   * The cursor's in-flight request and the request its `dispose` variable holds are its own.
   * An in-flight request outside the sets is one the executor rejected at once (the cursor
   * was terminal), and a terminal cursor has no registered waiter: `done` is set only after
   * `dispose?.()` has run, and a waiter registers only while `done` is unset.
   */
  ghost predicate CursorOk<T>(s: State<T>, c: nat)
    requires c < |s.cursors|
  {
    var cur := s.cursors[c];
    (cur.promise.Some? ==>
      cur.promise.value < |s.requests| && s.requests[cur.promise.value].cursor == c &&
      (cur.promise.value !in s.listeners ==>
        !s.requests[cur.promise.value].registered && s.requests[cur.promise.value].inner.Rejected?)) &&
    (cur.done && cur.promise.Some? ==> cur.promise.value !in s.listeners) &&
    (cur.dispose.Some? ==>
      cur.dispose.value < |s.requests| && s.requests[cur.dispose.value].cursor == c &&
      s.requests[cur.dispose.value].registered)
  }

  /**
   * A request is in the sets exactly while its cancel handle has not run; while it is
   * there it is its cursor's in-flight request, its promise is not rejected, its
   * `.then` handler has not run and it has a timer iff a timeout was given.
   * A timer is armed only while the request is in the sets; a pending promise is
   * always in the sets, so every pending waiter can be reached by `emit` and `dispose`.
   */
  ghost predicate RequestOk<T>(s: State<T>, r: nat)
    requires r < |s.requests|
  {
    var q := s.requests[r];
    q.cursor < |s.cursors| &&
    (r in s.listeners ==>
      q.registered && !q.inner.Rejected? && q.result.None? && q.timer == s.timeout.Some? &&
      s.cursors[q.cursor].promise == Some(r) && s.cursors[q.cursor].dispose == Some(r)) &&
    (q.timer ==> r in s.listeners) &&
    (q.inner.Pending? ==> r in s.listeners) &&
    (q.result.Some? ==> q.result.value == StepOf(q.inner))
  }

  ghost predicate Valid<T>(s: State<T>)
  {
    s.listeners == s.disposes && NoDup(s.listeners) &&
    (forall r :: r in s.listeners ==> r < |s.requests|) &&
    (forall c :: 0 <= c < |s.cursors| ==> CursorOk(s, c)) &&
    (forall r :: 0 <= r < |s.requests| ==> RequestOk(s, r))
  }

  // ---------------------------------------------------------------------------
  // Transitions

  /** The constructor (index.ts:4-10): empty sets, no cursor yet. */
  function Init<T>(timeout: Option<int>): (s: State<T>)
    ensures Valid(s) && s.timeout == timeout
    ensures |s.listeners| == 0 && |s.disposes| == 0 && WaitingCursors(s) == {}
  {
    State(timeout, [], [], [], [])
  }

  /** `[Symbol.asyncIterator]()` (index.ts:44-49): a fresh cursor with nothing in flight. */
  function Acquire<T>(s: State<T>): (res: (State<T>, nat))
    ensures var (t, c) := res;
      c == |s.cursors| && |t.cursors| == c + 1 && t.cursors[c] == Cursor(None, None, false) &&
      t.cursors[..c] == s.cursors && t == s.(cursors := t.cursors)
  {
    (s.(cursors := s.cursors + [Cursor(None, None, false)]), |s.cursors|)
  }

  /**
   * `next()` (index.ts:50-110): the same request while one is in flight; otherwise a new
   * promise, rejected at once when the cursor is terminal, registered otherwise.
   */
  function Next<T>(s: State<T>, c: nat): (res: (State<T>, nat))
    requires c < |s.cursors|
    ensures var (t, r) := res;
      t.timeout == s.timeout && |t.cursors| == |s.cursors| && t.cursors[c].promise == Some(r) &&
      |s.requests| <= |t.requests| <= |s.requests| + 1 && t.requests[..|s.requests|] == s.requests &&
      (s.cursors[c].promise.None? ==> r == |s.requests| && r < |t.requests| && t.requests[r].cursor == c) &&
      (forall c' :: 0 <= c' < |s.cursors| && c' != c ==> t.cursors[c'] == s.cursors[c'])
    ensures var (t, r) := res;
      s.cursors[c].promise.Some? <==> t == s
  {
    var cur := s.cursors[c];
    if cur.promise.Some? then (s, cur.promise.value)
    else
      var r := |s.requests|;
      if cur.done then
        (s.(cursors := s.cursors[c := cur.(promise := Some(r))],
            requests := s.requests + [Request(c, Rejected, false, false, None)]), r)
      else
        (s.(listeners := s.listeners + [r],
            disposes := s.disposes + [r],
            cursors := s.cursors[c := cur.(promise := Some(r), dispose := Some(r))],
            requests := s.requests + [Request(c, Pending, true, s.timeout.Some?, None)]), r)
  }

  /** What a cancel handle does to its own request: clears the timer, rejects a pending promise. */
  function Cancelled<T>(q: Request<T>): (p: Request<T>)
  {
    q.(timer := false, inner := if q.inner.Pending? then Rejected else q.inner)
  }

  /**
   * The cancel handle `currentDispose` of request `d` (index.ts:64-73): forgets the
   * cursor's in-flight promise, deletes the listener and the handle, clears the timer
   * and rejects (a no-op on a settled promise).
   */
  function Cancel<T>(s: State<T>, d: nat): (t: State<T>)
    requires d < |s.requests| && s.requests[d].cursor < |s.cursors|
    ensures t.timeout == s.timeout && |t.cursors| == |s.cursors| && |t.requests| == |s.requests|
    ensures forall r :: 0 <= r < |t.requests| ==> t.requests[r].cursor == s.requests[r].cursor
  {
    var c := s.requests[d].cursor;
    s.(listeners := Remove(s.listeners, d),
       disposes := Remove(s.disposes, d),
       cursors := s.cursors[c := s.cursors[c].(promise := None)],
       requests := s.requests[d := Cancelled(s.requests[d])])
  }

  /** What `listener(value)`, i.e. `resolve`, does to a request: a no-op once it has settled. */
  function Fulfil<T>(q: Request<T>, v: T): (p: Request<T>)
    ensures p.inner == (if q.inner.Pending? then Fulfilled(v) else q.inner)
    ensures p.(inner := q.inner) == q
  {
    if q.inner.Pending? then q.(inner := Fulfilled(v)) else q
  }

  /** The loop of `emit` (index.ts:16-18) after visiting the listeners `ls`. */
  function ResolveEach<T>(s: State<T>, ls: seq<nat>, v: T): (t: State<T>)
    requires forall i :: 0 <= i < |ls| ==> ls[i] < |s.requests|
    ensures t == s.(requests := t.requests) && |t.requests| == |s.requests|
    decreases |ls|
  {
    if ls == [] then s
    else
      var t := ResolveEach(s, ls[..|ls| - 1], v);
      var l := ls[|ls| - 1];
      t.(requests := t.requests[l := Fulfil(t.requests[l], v)])
  }

  /** `emit(value)` (index.ts:15-19). */
  function Emit<T>(s: State<T>, v: T): (t: State<T>)
    requires Valid(s)
    ensures t == s.(requests := t.requests) && |t.requests| == |s.requests|
  {
    assert forall i :: 0 <= i < |s.listeners| ==> s.listeners[i] in s.listeners;
    ResolveEach(s, s.listeners, v)
  }

  /** The loop of `dispose` (index.ts:25-27) after calling the cancel handles `ds`. */
  function CancelEach<T>(s: State<T>, ds: seq<nat>): (t: State<T>)
    requires forall i :: 0 <= i < |ds| ==> ds[i] < |s.requests| && s.requests[ds[i]].cursor < |s.cursors|
    ensures t.timeout == s.timeout && |t.cursors| == |s.cursors| && |t.requests| == |s.requests|
    ensures forall r :: 0 <= r < |t.requests| ==> t.requests[r].cursor == s.requests[r].cursor
    decreases |ds|
  {
    if ds == [] then s
    else Cancel(CancelEach(s, ds[..|ds| - 1]), ds[|ds| - 1])
  }

  /** `dispose()` (index.ts:24-28). */
  function Dispose<T>(s: State<T>): (t: State<T>)
    requires Valid(s)
    ensures t.timeout == s.timeout && |t.cursors| == |s.cursors| && |t.requests| == |s.requests|
  {
    assert forall i :: 0 <= i < |s.disposes| ==> s.disposes[i] in s.listeners && RequestOk(s, s.disposes[i]);
    CancelEach(s, s.disposes)
  }

  /** The cursor's current `dispose` variable, called if set (index.ts:83-85, 95-97, 115-117). */
  function CallDispose<T>(s: State<T>, c: nat): (t: State<T>)
    requires Valid(s) && c < |s.cursors|
    ensures |t.cursors| == |s.cursors| && |t.requests| == |s.requests|
  {
    assert CursorOk(s, c);
    if s.cursors[c].dispose.Some? then
      assert RequestOk(s, s.cursors[c].dispose.value);
      Cancel(s, s.cursors[c].dispose.value)
    else s
  }

  /** The `.then` handlers of request `r` (index.ts:82-105), once its promise has settled. */
  function Settle<T>(s: State<T>, r: nat): (t: State<T>)
    requires Valid(s) && r < |s.requests|
    requires !s.requests[r].inner.Pending? && s.requests[r].result.None?
    ensures |t.cursors| == |s.cursors| && |t.requests| == |s.requests| && s.requests[r].cursor < |s.cursors|
    ensures t.requests[r].result == Some(StepOf(s.requests[r].inner))
    ensures t.cursors[s.requests[r].cursor].done == s.requests[r].inner.Rejected?
  {
    assert RequestOk(s, r);
    var c := s.requests[r].cursor;
    var inner := s.requests[r].inner;
    var t := CallDispose(s, c);
    t.(cursors := t.cursors[c := t.cursors[c].(done := inner.Rejected?)],
       requests := t.requests[r := t.requests[r].(result := Some(StepOf(inner)))])
  }

  /** The timer of request `r` fires: it calls the request's own cancel handle (index.ts:78). */
  function FireTimer<T>(s: State<T>, r: nat): (t: State<T>)
    requires Valid(s) && r < |s.requests| && s.requests[r].timer
    ensures |t.cursors| == |s.cursors| && |t.requests| == |s.requests|
    ensures !t.requests[r].timer && !t.requests[r].inner.Pending?
  {
    assert RequestOk(s, r);
    Cancel(s, r)
  }

  /** `return()` (index.ts:114-125): early stop of cursor `c`. */
  function Return<T>(s: State<T>, c: nat): (t: State<T>)
    requires Valid(s) && c < |s.cursors|
    ensures |t.cursors| == |s.cursors| && |t.requests| == |s.requests| && t.cursors[c].done
  {
    var t := CallDispose(s, c);
    t.(cursors := t.cursors[c := t.cursors[c].(done := true)])
  }
}
