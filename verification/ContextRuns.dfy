/**
 The context tree as a concurrent program: the registration protocol of `propagateCancel`, any
 number of cancels in progress, and removals. Each channel poll and each critical section is one
 atomic step, except that of `cancel`: it is a step that takes the lock, a step per child, during
 which other goroutines may run, and a step that releases the lock.
*/
module ContextRuns {
  import opened Common
  import opened ContextTree

  // ---------- the concurrent program ----------

  /** What a goroutine inside propagateCancel or removeChild is about to do for context `c`. */
  datatype Op = Poll(c: nat) | Register(c: nat) | CancelNew(c: nat) | Remove(c: nat)

  /** A cancel in progress, holding its context's lock: children still to visit, and the one being cancelled. */
  datatype Frame = Frame(todo: set<nat>, inside: Option<nat>)

  /**
   A cancel request that found its context uncancelled: `behind` says whether the Done channel of
   an ancestor in scope was already closed when it locked its context.
  */
  datatype Entry = Entry(id: nat, err: Error, cause: Error, behind: bool)

  /**
   `frames`: the locks that cancel holds. `live`: contexts whose constructor has registered them.
   `log`: the requests that took effect, in the order in which they locked their contexts.
  */
  datatype State = State(sh: seq<Shape>, cx: seq<Ctx>, frames: map<nat, Frame>,
                         live: set<nat>, ops: set<Op>, log: seq<Entry>)

  ghost predicate Usable(s: State) {
    && Sized(s.sh, s.cx)
    && (forall i :: i in s.live ==> i < |s.sh|)
    && (forall i :: i in s.frames ==> i < |s.sh|)
    && (forall p: nat :: p < |s.cx| && s.cx[p].err.Some? ==> s.cx[p].cause.Some?)
  }

  ghost predicate IsClosed(d: Chan) { d.Closed? || d.SharedClosed? }

  /**
   What the constructors make below `parent`: a deadline context never expires after its parent, and
   one whose parent expires sooner is a plain cancelCtx.
  */
  ghost predicate Derivable(sh: seq<Shape>, parent: nat, kind: Kind)
    requires WellFormed(sh) && parent < |sh|
  {
    && !kind.Background?
    && (kind.WithDeadline? ==> kind == DeadlineKind(sh, parent, kind.deadline, kind.onExpiry))
  }

  ghost predicate NewStep(s: State, s': State, parent: nat, kind: Kind)
    requires Usable(s)
  {
    && parent in s.live && Derivable(s.sh, parent, kind)
    && var n, sh' := |s.sh|, s.sh + [Shape(kind, parent)];
       if WellFormed(sh') && Link(sh', n).Some?
       then s' == s.(sh := sh', cx := s.cx + [FRESH], ops := s.ops + {Poll(n)})
       else s' == s.(sh := sh', cx := s.cx + [FRESH], live := s.live + {n})
  }

  /** `<-parent.Done()` in the select of propagateCancel. */
  ghost predicate PollStep(s: State, s': State, c: nat)
    requires Usable(s)
  {
    && Poll(c) in s.ops && c < |s.sh| && Link(s.sh, c).Some?
    && var p := Link(s.sh, c).value;
       s' == s.(cx := MakeDone(s.cx, p),
                ops := s.ops - {Poll(c)} + {if IsClosed(s.cx[p].done) then CancelNew(c) else Register(c)})
  }

  /** The parent's critical section; it is entered only if parentCancelCtx recognises the parent. */
  ghost predicate RegisterStep(s: State, s': State, c: nat)
    requires Usable(s)
  {
    && Register(c) in s.ops && c < |s.sh| && Link(s.sh, c).Some?
    && var p := Link(s.sh, c).value;
    && p !in s.frames && !s.cx[p].done.SharedClosed?
    && s' == s.(cx := AttachTo(s.sh, s.cx, c, p), ops := s.ops - {Register(c)}, live := s.live + {c})
  }

  /** `child.cancel(false, parent.Err(), Cause(parent))` for a parent found closed; both reads take its lock. */
  ghost predicate CancelNewStep(s: State, s': State, c: nat)
    requires Usable(s)
  {
    && CancelNew(c) in s.ops && c < |s.sh| && Link(s.sh, c).Some?
    && var p := Link(s.sh, c).value;
    && p !in s.frames && s.cx[p].err.Some?
    && s' == s.(cx := CancelAll(s.sh, s.cx, c, s.cx[p].err.value, s.cx[p].cause.value),
                ops := s.ops - {CancelNew(c)}, live := s.live + {c})
  }

  /** What cancel does before its loop. */
  function Hit(x: Ctx, err: Error, cause: Error): Ctx {
    Stop(x, err, cause).(children := x.children)
  }

  /** The Done channel of an ancestor in scope is closed. */
  ghost predicate BehindClosed(s: State, c: nat)
    requires Usable(s) && c < |s.sh|
  {
    exists a: nat :: a < c && s.sh[a].Cancelable() && InScope(s.sh, a, c) && IsClosed(s.cx[a].done)
  }

  /**
   The cancel requests there are for a context: a CancelFunc, which sets no cause, a CancelCauseFunc of a
   context without deadline, and the timer, which has the cause given to WithDeadlineCause.
  */
  ghost predicate Requested(kind: Kind, err: Error, cause: Option<Error>) {
    || (err == Canceled && (cause.None? || kind.WithCancel?))
    || (err == DeadlineExceeded && kind.WithDeadline? && cause == kind.onExpiry)
  }

  /** A CancelFunc or CancelCauseFunc is called, or a deadline passes: the call locks its context. */
  ghost predicate BeginStep(s: State, s': State, c: nat, err: Error, cause: Option<Error>)
    requires Usable(s)
  {
    && c in s.live && s.sh[c].Cancelable() && c !in s.frames
    && Requested(s.sh[c].kind, err, cause)
    && var why := if cause.Some? then cause.value else err;
       if s.cx[c].err.Some? then s' == if s.sh[c].kind.WithDeadline? then s.(ops := s.ops + {Remove(c)}) else s
       else s' == s.(cx := s.cx[c := Hit(s.cx[c], err, why)],
                     frames := s.frames[c := Frame(s.cx[c].children, None)],
                     log := s.log + [Entry(c, err, why, BehindClosed(s, c))])
  }

  ghost predicate CanVisit(s: State, p: nat, ch: nat)
    requires Usable(s)
  {
    && p in s.frames && s.frames[p].inside.None? && ch in s.frames[p].todo
    && ch < |s.cx| && ch !in s.frames && s.cx[p].err.Some?
  }

  /** The loop of the cancel at `p` locks its child `ch`, and cancels it unless it is cancelled already. */
  ghost function AfterVisit(s: State, p: nat, ch: nat): State
    requires Usable(s) && CanVisit(s, p, ch)
  {
    var todo := s.frames[p].todo - {ch};
    if s.cx[ch].err.Some? then s.(frames := s.frames[p := Frame(todo, None)])
    else s.(cx := s.cx[ch := Hit(s.cx[ch], s.cx[p].err.value, s.cx[p].cause.value)],
            frames := s.frames[p := Frame(todo, Some(ch))][ch := Frame(s.cx[ch].children, None)])
  }

  ghost predicate VisitStep(s: State, s': State, p: nat, ch: nat)
    requires Usable(s)
  {
    CanVisit(s, p, ch) && s' == AfterVisit(s, p, ch)
  }

  /** The cancel at `c` was called from the loop at its parent. */
  ghost predicate Nested(s: State, c: nat)
    requires Usable(s) && c < |s.sh|
  {
    Link(s.sh, c).Some? && Link(s.sh, c).value in s.frames && s.frames[Link(s.sh, c).value].inside == Some(c)
  }

  /** The loop at `c` is over: its lock is released, and the calling loop goes on or `c` is to be removed. */
  ghost function AfterEnd(s: State, c: nat): State
    requires Usable(s) && c in s.frames
  {
    var cx', rest := s.cx[c := s.cx[c].(children := {})], s.frames - {c};
    if Nested(s, c)
    then var p := Link(s.sh, c).value; s.(cx := cx', frames := rest[p := s.frames[p].(inside := None)])
    else s.(cx := cx', frames := rest, ops := s.ops + {Remove(c)})
  }

  ghost predicate EndStep(s: State, s': State, c: nat)
    requires Usable(s)
  {
    c in s.frames && s.frames[c] == Frame({}, None) && s' == AfterEnd(s, c)
  }

  ghost predicate RemoveStep(s: State, s': State, c: nat)
    requires Usable(s)
  {
    && Remove(c) in s.ops && c < |s.cx|
    && (Link(s.sh, c).Some? ==>
          var p := Link(s.sh, c).value; p !in s.frames || s.cx[p].done.SharedClosed?)
    && s' == s.(cx := Detach(s.sh, s.cx, c), ops := s.ops - {Remove(c)})
  }

  ghost predicate DoneStep(s: State, s': State, i: nat)
    requires Usable(s)
  {
    i in s.live && Nearest(s.sh, i).Some? && s' == s.(cx := MakeDone(s.cx, Nearest(s.sh, i).value))
  }

  /** A step of a cancel in progress. */
  ghost predicate LoopStep(s: State, s': State)
    requires Usable(s)
  {
    (exists p: nat, ch: nat :: VisitStep(s, s', p, ch)) || (exists c: nat :: EndStep(s, s', c))
  }

  ghost predicate Next(s: State, s': State) {
    && Usable(s)
    && (|| (exists parent, kind :: NewStep(s, s', parent, kind))
        || (exists c :: PollStep(s, s', c))
        || (exists c :: RegisterStep(s, s', c))
        || (exists c :: CancelNewStep(s, s', c))
        || (exists c, err, cause :: BeginStep(s, s', c, err, cause))
        || LoopStep(s, s')
        || (exists c :: RemoveStep(s, s', c))
        || (exists i :: DoneStep(s, s', i)))
  }

  const INITIAL := State([Shape(Background, 0)], [FRESH], map[], {0}, {}, [])

  ghost predicate IsRun(run: seq<State>) {
    && |run| > 0 && run[0] == INITIAL
    && forall i :: 0 <= i < |run| - 1 ==> Next(run[i], run[i + 1])
  }

  // ---------- what a context reports ----------

  /** `Err` and `Cause` of `i` return without waiting: no cancel holds the lock they take. */
  ghost predicate Readable(s: State, i: nat)
    requires Usable(s) && i < |s.sh|
  {
    Nearest(s.sh, i).Some? ==> Nearest(s.sh, i).value !in s.frames
  }

  /** `Err()` of any context. */
  ghost function ErrOf(s: State, i: nat): Option<Error>
    requires Usable(s) && i < |s.sh| && Readable(s, i)
  {
    if Nearest(s.sh, i).Some? then s.cx[Nearest(s.sh, i).value].err else None
  }

  /** `Cause` of any context. */
  ghost function CauseOf(s: State, i: nat): Option<Error>
    requires Usable(s) && i < |s.sh| && Readable(s, i)
  {
    if Nearest(s.sh, i).Some? then s.cx[Nearest(s.sh, i).value].cause else None
  }

  /** The request that took effect at `i` itself. */
  ghost function Own(log: seq<Entry>, i: nat): (r: Option<Entry>)
    ensures r.Some? ==> r.value in log && r.value.id == i
    ensures r.None? ==> forall e :: e in log ==> e.id != i
  {
    if log == [] then None
    else
      var last := log[|log| - 1];
      var r := Own(log[..|log| - 1], i);
      assert log == log[..|log| - 1] + [last];
      if r.Some? then r else if last.id == i then Some(last) else None
  }

  /** The request nearest to `i`: its own, or else that of the closest ancestor in scope that has one. */
  ghost function Winner(sh: seq<Shape>, log: seq<Entry>, i: nat): (r: Option<Entry>)
    requires WellFormed(sh) && i < |sh|
    ensures r.Some? ==> r.value in log && InScope(sh, r.value.id, i)
    decreases i
  {
    if Own(log, i).Some? then Own(log, i)
    else if sh[i].Forwards() then Winner(sh, log, sh[i].parent) else None
  }

  /** The request in scope of `i` that locked its context first. */
  ghost function First(sh: seq<Shape>, log: seq<Entry>, i: nat): (r: Option<Entry>)
    requires WellFormed(sh) && i < |sh|
    ensures r.Some? ==> r.value in log && InScope(sh, r.value.id, i)
  {
    if log == [] then None
    else
      var earlier := First(sh, log[..|log| - 1], i);
      if earlier.Some? then earlier
      else if InScope(sh, log[|log| - 1].id, i) then Some(log[|log| - 1]) else None
  }

  // ---------- the invariant ----------

  ghost predicate OpOk(s: State, op: Op)
    requires Usable(s)
  {
    && op.c < |s.sh| && s.sh[op.c].Cancelable()
    && if op.Remove? then op.c in s.live && s.cx[op.c].err.Some? && op.c !in s.frames
       else op.c !in s.live && Link(s.sh, op.c).Some?
            && var d := s.cx[Link(s.sh, op.c).value].done;
               (op.Register? ==> d.Open? || d.Closed?) && (op.CancelNew? ==> IsClosed(d))
  }

  /** Contexts are derived from registered ones; unregistered ones are untouched. */
  ghost predicate Derived(s: State)
    requires Usable(s)
  {
    && (forall i: nat {:trigger s.sh[i].parent} :: i < |s.sh| && !s.sh[i].kind.Background? ==>
          s.sh[i].parent in s.live)
    && (forall i: nat {:trigger i in s.live} :: i < |s.sh| && !s.sh[i].Cancelable() ==> i in s.live)
    && (forall i: nat {:trigger s.cx[i]} :: i < |s.sh| && i !in s.live ==> s.cx[i] == FRESH)
    && (forall i {:trigger i in s.frames} :: i in s.frames ==> i in s.live && s.sh[i].Cancelable())
  }

  /** A cancelCtx is untouched, or carries exactly the request nearest to it. */
  ghost predicate Tracks(s: State, i: nat)
    requires Usable(s) && i < |s.sh|
  {
    var x := s.cx[i];
    if x.err.None? then x.cause.None? && !IsClosed(x.done) && Own(s.log, i).None? && i !in s.frames
    else
      && IsClosed(x.done) && (i in s.frames || x.children == {})
      && (Own(s.log, i).Some? || (Link(s.sh, i).Some? && s.cx[Link(s.sh, i).value].err.Some?))
      && var w := Winner(s.sh, s.log, i);
         w.Some? && x.err == Some(w.value.err) && x.cause == Some(w.value.cause)
  }

  /** Not cancelled yet, or still in the middle of it. */
  ghost predicate Unfinished(s: State, i: nat)
    requires Usable(s) && i < |s.sh|
  {
    s.cx[i].err.None? || i in s.frames
  }

  /** An unfinished context below a cancelled one is still ahead of that one's loop; below others it is registered. */
  ghost predicate Covered(s: State, i: nat)
    requires Usable(s) && i < |s.sh|
  {
    Link(s.sh, i).Some? && Unfinished(s, i) ==>
      var p := Link(s.sh, i).value;
      if s.cx[p].err.None? then i in s.cx[p].children
      else p in s.frames && (i in s.frames[p].todo || s.frames[p].inside == Some(i))
  }

  ghost predicate FrameOk(s: State, p: nat)
    requires Usable(s) && p in s.frames
  {
    var f := s.frames[p];
    && f.todo <= s.cx[p].children && s.cx[p].err.Some?
    && (f.inside.Some? ==>
          f.inside.value in s.cx[p].children && f.inside.value in s.frames && f.inside.value !in f.todo)
  }

  /** A cancelled child is kept only while it, or its parent's loop, is under way or its removal pending. */
  ghost predicate ChildOk(s: State, p: nat, i: nat)
    requires Usable(s)
  {
    i in s.live && i < |s.cx| && (s.cx[i].err.Some? ==> Remove(i) in s.ops || i in s.frames || p in s.frames)
  }

  ghost predicate Held(s: State)
    requires Usable(s)
  {
    && Linked(s.sh, s.cx)
    && (forall p {:trigger FrameOk(s, p)} :: p in s.frames ==> FrameOk(s, p))
    && (forall p: nat, i: nat {:trigger i in s.cx[p].children} :: p < |s.cx| && i in s.cx[p].children ==>
          ChildOk(s, p, i))
  }

  ghost predicate Tracking(s: State)
    requires Usable(s)
  {
    && (forall i {:trigger Tracks(s, i)} :: i in s.live && s.sh[i].Cancelable() ==> Tracks(s, i))
    && (forall i {:trigger Covered(s, i)} :: i in s.live && s.sh[i].Cancelable() ==> Covered(s, i))
  }

  ghost predicate OpsOk(s: State)
    requires Usable(s)
  {
    && (forall op {:trigger op in s.ops} :: op in s.ops ==> OpOk(s, op))
    && (forall o, o' :: o in s.ops && o' in s.ops && o.c == o'.c && !o.Remove? && !o'.Remove? ==> o == o')
  }

  /** An earlier request was made for an ancestor in scope of the `k`-th one's context. */
  ghost predicate Preceded(sh: seq<Shape>, log: seq<Entry>, k: nat)
    requires WellFormed(sh) && k < |log| && log[k].id < |sh|
  {
    exists j :: 0 <= j < k && InScope(sh, log[j].id, log[k].id)
  }

  /** At most one request takes effect at a context, and its flag tells whether it came behind another. */
  ghost predicate LogOk(sh: seq<Shape>, live: set<nat>, log: seq<Entry>)
    requires WellFormed(sh) && forall i :: i in live ==> i < |sh|
  {
    && (forall e {:trigger e in log} :: e in log ==> e.id in live && sh[e.id].Cancelable())
    && (forall j, k :: 0 <= j < k < |log| ==> log[j].id != log[k].id)
    && (forall k {:trigger log[k]} :: 0 <= k < |log| && log[k] in log ==>
          (log[k].behind <==> Preceded(sh, log, k)))
  }

  ghost predicate Inv(s: State) {
    Usable(s) && Derived(s) && Tracking(s) && Held(s) && OpsOk(s) && LogOk(s.sh, s.live, s.log)
  }

  // ---------- scope and requests ----------

  lemma {:induction false} ScopeTransitive(sh: seq<Shape>, a: nat, b: nat, i: nat)
    requires WellFormed(sh) && i < |sh| && b < |sh| && InScope(sh, b, i) && InScope(sh, a, b)
    ensures InScope(sh, a, i)
    decreases i
  {
    if b != i { ScopeTransitive(sh, a, b, sh[i].parent); }
  }

  /** The scopes of a context form a chain. */
  lemma {:induction false} ScopeChain(sh: seq<Shape>, a: nat, b: nat, i: nat)
    requires WellFormed(sh) && i < |sh| && a <= b && InScope(sh, a, i) && InScope(sh, b, i)
    ensures b < |sh| && InScope(sh, a, b)
    decreases i
  {
    ScopeIsBelow(sh, b, i);
    if b != i {
      if a == i { ScopeIsBelow(sh, b, i); }
      ScopeChain(sh, a, b, sh[i].parent);
    }
  }

  /** No request was made strictly between `a` and `i`: they have the same nearest one. */
  lemma {:induction false} WinnerSkips(sh: seq<Shape>, log: seq<Entry>, a: nat, i: nat)
    requires WellFormed(sh) && i < |sh| && a < |sh| && InScope(sh, a, i)
    requires forall e :: e in log && InScope(sh, e.id, i) ==> e.id <= a
    ensures Winner(sh, log, i) == Winner(sh, log, a)
    decreases i
  {
    if a != i {
      ScopeIsBelow(sh, a, i);
      assert Own(log, i).None? by {
        if Own(log, i).Some? { assert InScope(sh, i, i); }
      }
      WinnerSkips(sh, log, a, sh[i].parent);
    }
  }

  /** The nearest request is at or below every request in scope. */
  lemma {:induction false} WinnerNearest(sh: seq<Shape>, log: seq<Entry>, e: Entry, i: nat)
    requires WellFormed(sh) && i < |sh| && e in log && InScope(sh, e.id, i)
    ensures Winner(sh, log, i).Some? && e.id <= Winner(sh, log, i).value.id
    decreases i
  {
    ScopeIsBelow(sh, e.id, i);
    if Own(log, i).None? { WinnerNearest(sh, log, e, sh[i].parent); }
  }

  /** Contexts that are not cancelable have no request of their own. */
  lemma {:induction false} WinnerViaNearest(sh: seq<Shape>, log: seq<Entry>, i: nat)
    requires WellFormed(sh) && i < |sh|
    requires forall e :: e in log ==> e.id < |sh| && sh[e.id].Cancelable()
    ensures Winner(sh, log, i) ==
            if Nearest(sh, i).None? then None else Winner(sh, log, Nearest(sh, i).value)
    decreases i
  {
    if sh[i].kind.WithValue? { WinnerViaNearest(sh, log, sh[i].parent); }
  }

  lemma {:induction false} WinnerOfPrefix(sh: seq<Shape>, x: Shape, log: seq<Entry>, i: nat)
    requires WellFormed(sh) && WellFormed(sh + [x]) && i < |sh|
    ensures Winner(sh + [x], log, i) == Winner(sh, log, i)
    decreases i
  {
    if sh[i].Forwards() { WinnerOfPrefix(sh, x, log, sh[i].parent); }
  }

  /** Another request changes the nearest one only within its own scope. */
  lemma {:induction false} WinnerOfMore(sh: seq<Shape>, log: seq<Entry>, e: Entry, i: nat)
    requires WellFormed(sh) && i < |sh| && Own(log, e.id).None?
    ensures !InScope(sh, e.id, i) ==> Winner(sh, log + [e], i) == Winner(sh, log, i)
    ensures i == e.id ==> Winner(sh, log + [e], i) == Some(e)
    ensures Winner(sh, log, i).Some? && Winner(sh, log, i).value.id > e.id ==>
              Winner(sh, log + [e], i) == Winner(sh, log, i)
    decreases i
  {
    assert (log + [e])[..|log|] == log;
    if Winner(sh, log, i).Some? { ScopeIsBelow(sh, Winner(sh, log, i).value.id, i); }
    if i != e.id && sh[i].Forwards() { WinnerOfMore(sh, log, e, sh[i].parent); }
  }

  lemma {:induction false} NearestLive(s: State, i: nat)
    requires Usable(s) && Derived(s) && i in s.live && Nearest(s.sh, i).Some?
    ensures Nearest(s.sh, i).value in s.live
    decreases i
  {
    if s.sh[i].kind.WithValue? { NearestLive(s, s.sh[i].parent); }
  }

  lemma LinkLive(s: State, c: nat)
    requires Usable(s) && Derived(s) && c < |s.sh| && Link(s.sh, c).Some?
    ensures Link(s.sh, c).value in s.live
  {
    NearestLive(s, s.sh[c].parent);
  }

  /** A cancelCtx without a request of its own answers from the one it hangs below. */
  lemma WinnerViaLink(s: State, c: nat)
    requires Usable(s) && LogOk(s.sh, s.live, s.log) && c < |s.sh| && s.sh[c].Cancelable() && Own(s.log, c).None?
    ensures Winner(s.sh, s.log, c) ==
            if Link(s.sh, c).None? then None else Winner(s.sh, s.log, Link(s.sh, c).value)
  {
    WinnerViaNearest(s.sh, s.log, s.sh[c].parent);
  }

  /** The nearest request of a cancelled context lies below every uncancelled ancestor. */
  lemma {:induction false} WinnerBelow(s: State, c: nat, i: nat)
    requires Inv(s) && i in s.live && s.sh[i].Cancelable() && s.cx[i].err.Some?
    requires c in s.live && s.sh[c].Cancelable() && s.cx[c].err.None? && InScope(s.sh, c, i)
    ensures Winner(s.sh, s.log, i).Some? && Winner(s.sh, s.log, i).value.id > c
    decreases i
  {
    assert Tracks(s, i);
    ScopeIsBelow(s.sh, c, i);
    if Own(s.log, i).None? {
      WinnerViaLink(s, i);
      LinkLive(s, i);
      ScopeViaNearest(s.sh, c, s.sh[i].parent);
      WinnerBelow(s, c, Link(s.sh, i).value);
    }
  }

  // ---------- every step keeps the invariant ----------

  lemma LinksOfPrefix(s: State, s': State, parent: nat, kind: Kind)
    requires Inv(s) && NewStep(s, s', parent, kind)
    ensures WellFormed(s'.sh) && Usable(s')
    ensures forall i: nat {:trigger Link(s'.sh, i)} :: i < |s.sh| ==> Link(s'.sh, i) == Link(s.sh, i)
  {
    forall i: nat | i < |s.sh| ensures Link(s'.sh, i) == Link(s.sh, i) {
      if s.sh[i].Cancelable() { NearestOfPrefix(s.sh, Shape(kind, parent), s.sh[i].parent); }
    }
  }

  lemma NewTracking(s: State, s': State, parent: nat, kind: Kind)
    requires Inv(s) && NewStep(s, s', parent, kind) && WellFormed(s'.sh) && Usable(s')
    requires forall i: nat {:trigger Link(s'.sh, i)} :: i < |s.sh| ==> Link(s'.sh, i) == Link(s.sh, i)
    ensures Tracking(s')
  {
    var n := |s.sh|;
    forall i | i in s'.live && s'.sh[i].Cancelable() ensures Tracks(s', i) && Covered(s', i) {
      if i < n {
        WinnerOfPrefix(s.sh, Shape(kind, parent), s.log, i);
        assert Tracks(s, i) && Covered(s, i);
      }
    }
  }

  lemma NewHeld(s: State, s': State, parent: nat, kind: Kind)
    requires Inv(s) && NewStep(s, s', parent, kind) && WellFormed(s'.sh) && Usable(s')
    requires forall i: nat {:trigger Link(s'.sh, i)} :: i < |s.sh| ==> Link(s'.sh, i) == Link(s.sh, i)
    ensures Held(s')
  {
    hide Own, Winner, InScope, LogOk, Tracking, OpsOk;
    forall p: nat, i: nat | p < |s'.cx| && i in s'.cx[p].children
      ensures i < |s'.sh| && Link(s'.sh, i) == Some(p) && ChildOk(s', p, i)
    {
      assert i in s.cx[p].children;
      assert ChildOk(s, p, i);
    }
    forall p | p in s'.frames ensures FrameOk(s', p) { assert FrameOk(s, p); }
  }

  lemma NewOps(s: State, s': State, parent: nat, kind: Kind)
    requires Inv(s) && NewStep(s, s', parent, kind) && WellFormed(s'.sh) && Usable(s')
    requires forall i: nat {:trigger Link(s'.sh, i)} :: i < |s.sh| ==> Link(s'.sh, i) == Link(s.sh, i)
    ensures OpsOk(s')
  {
    hide Own, Winner, InScope, LogOk, Tracking, Held, Derived, Derivable;
    forall op | op in s'.ops ensures OpOk(s', op) {
      if op in s.ops { assert OpOk(s, op); }
    }
  }

  lemma NewLog(s: State, s': State, parent: nat, kind: Kind)
    requires Inv(s) && NewStep(s, s', parent, kind) && WellFormed(s'.sh) && Usable(s')
    ensures LogOk(s'.sh, s'.live, s'.log) && Derived(s')
  {
    forall k | 0 <= k < |s.log| && s.log[k] in s.log ensures s.log[k].behind <==> Preceded(s'.sh, s.log, k) {
      forall j | 0 <= j < k
        ensures InScope(s'.sh, s.log[j].id, s.log[k].id) == InScope(s.sh, s.log[j].id, s.log[k].id)
      {
        ScopeOfPrefix(s.sh, Shape(kind, parent), s.log[j].id, s.log[k].id);
      }
    }
  }

  lemma NewKeepsInv(s: State, s': State, parent: nat, kind: Kind)
    requires Inv(s) && NewStep(s, s', parent, kind)
    ensures Inv(s')
  {
    LinksOfPrefix(s, s', parent, kind);
    NewTracking(s, s', parent, kind);
    NewHeld(s, s', parent, kind);
    NewOps(s, s', parent, kind);
    NewLog(s, s', parent, kind);
  }

  lemma MakeDoneKeepsInv(s: State, p: nat)
    requires Inv(s) && p in s.live && s.sh[p].Cancelable()
    ensures Inv(s.(cx := MakeDone(s.cx, p)))
  {
    MakeDoneTracking(s, p);
    MakeDoneRest(s, p);
  }

  lemma MakeDoneTracking(s: State, p: nat)
    requires Inv(s) && p in s.live && s.sh[p].Cancelable()
    ensures var s' := s.(cx := MakeDone(s.cx, p)); Usable(s') && Tracking(s')
  {
    hide Own, Winner, InScope, LogOk;
    var s' := s.(cx := MakeDone(s.cx, p));
    assert forall i: nat {:trigger s'.cx[i]} :: i < |s.cx| ==> s'.cx[i].(done := s.cx[i].done) == s.cx[i];
    forall i | i in s'.live && s'.sh[i].Cancelable() ensures Tracks(s', i) && Covered(s', i) {
      assert Tracks(s, i) && Covered(s, i);
    }
  }

  lemma MakeDoneRest(s: State, p: nat)
    requires Inv(s) && p in s.live && s.sh[p].Cancelable()
    ensures var s' := s.(cx := MakeDone(s.cx, p)); Usable(s') && Derived(s') && Held(s') && OpsOk(s')
  {
    hide Own, Winner, InScope, LogOk;
    var s' := s.(cx := MakeDone(s.cx, p));
    assert Tracks(s, p);
    forall i | i in s'.frames ensures FrameOk(s', i) { assert FrameOk(s, i); }
    forall q: nat, i: nat | q < |s'.cx| && i in s'.cx[q].children
      ensures i < |s'.sh| && Link(s'.sh, i) == Some(q) && ChildOk(s', q, i)
    {
      assert i in s.cx[q].children;
      assert ChildOk(s, q, i);
    }
    forall op | op in s'.ops ensures OpOk(s', op) { assert OpOk(s, op); }
  }

  lemma SameTracking(s: State, s': State)
    requires Inv(s) && s' == s.(ops := s'.ops)
    ensures Tracking(s')
  {
    hide Own, Winner, InScope, LogOk, OpsOk;
    forall i | i in s'.live && s'.sh[i].Cancelable() ensures Tracks(s', i) && Covered(s', i) {
      assert Tracks(s, i) && Covered(s, i);
    }
  }

  /** Steps that change only the pending operations. */
  lemma OpsKeepInv(s: State, s': State)
    requires Inv(s) && s' == s.(ops := s'.ops) && OpsOk(s')
    requires forall op {:trigger op in s'.ops} :: op in s.ops && op.Remove? ==> op in s'.ops
    ensures Inv(s')
  {
    hide Own, Winner, InScope, LogOk, Tracking, Covered, Tracks, OpsOk;
    SameTracking(s, s');
    forall i | i in s'.frames ensures FrameOk(s', i) { assert FrameOk(s, i); }
    forall q: nat, i: nat | q < |s'.cx| && i in s'.cx[q].children ensures ChildOk(s', q, i) { assert ChildOk(s, q, i); }
  }

  lemma PollKeepsInv(s: State, s': State, c: nat)
    requires Inv(s) && PollStep(s, s', c)
    ensures Inv(s')
  {
    hide Own, Winner, InScope;
    LinkLive(s, c);
    var p := Link(s.sh, c).value;
    var m := s.(cx := MakeDone(s.cx, p));
    MakeDoneKeepsInv(s, p);
    assert OpOk(s, Poll(c));
    var o := if IsClosed(s.cx[p].done) then CancelNew(c) else Register(c);
    assert OpOk(m, o);
    forall op | op in s'.ops ensures OpOk(s', op) {
      if op in m.ops { assert OpOk(m, op); } else { assert op == o; }
    }
    OpsKeepInv(m, s');
  }

  /** Cancelling a context nobody hangs below stops just that context. */
  lemma CancelLeaf(sh: seq<Shape>, cx: seq<Ctx>, c: nat, err: Error, cause: Error)
    requires Linked(sh, cx) && c < |cx| && cx[c].children == {} && cx[c].err.None?
    ensures CancelAll(sh, cx, c, err, cause) == cx[c := Stop(cx[c], err, cause)]
  {
    forall i | 0 <= i < |cx| && i != c ensures !Reached(sh, cx, i, c) {
      if Reached(sh, cx, i, c) {
        var ch := ReachedThroughChild(sh, cx, i, c);
      }
    }
  }

  /** What joins the live contexts: `c`, stopped like its parent or registered with it. */
  ghost predicate Joins(s: State, s': State, c: nat, p: nat, op: Op)
    requires Usable(s)
  {
    && op in s.ops && op.c == c < |s.cx| && !op.Remove? && Link(s.sh, c) == Some(p) && p !in s.frames
    && s' == s.(cx := s'.cx, ops := s.ops - {op}, live := s.live + {c})
    && if s.cx[p].err.Some? then s'.cx == s.cx[c := Stop(s.cx[c], s.cx[p].err.value, s.cx[p].cause.value)]
       else s'.cx == s.cx[p := s.cx[p].(children := s.cx[p].children + {c})]
  }

  lemma JoinTracking(s: State, s': State, c: nat, p: nat, op: Op)
    requires Inv(s) && Joins(s, s', c, p, op) && Usable(s')
    ensures Tracking(s')
  {
    LinkLive(s, c);
    assert OpOk(s, op) && s.cx[c] == FRESH;
    assert Tracks(s, p);
    assert Own(s.log, c).None?;
    WinnerViaLink(s, c);
    forall i | i in s'.live && s'.sh[i].Cancelable() ensures Tracks(s', i) && Covered(s', i) {
      if i != c {
        assert Tracks(s, i) && Covered(s, i);
        if Link(s.sh, i).Some? { LinkLive(s, i); }
      }
    }
  }

  lemma JoinHeld(s: State, s': State, c: nat, p: nat, op: Op)
    requires Inv(s) && Joins(s, s', c, p, op) && Usable(s')
    ensures Held(s')
  {
    hide Own, Winner, InScope;
    assert OpOk(s, op) && s.cx[c] == FRESH;
    forall q: nat, i: nat | q < |s'.cx| && i in s'.cx[q].children
      ensures i < |s'.sh| && Link(s'.sh, i) == Some(q) && ChildOk(s', q, i)
    {
      if i in s.cx[q].children { assert ChildOk(s, q, i); }
    }
    forall i | i in s'.frames ensures FrameOk(s', i) { assert FrameOk(s, i); }
  }

  lemma JoinRest(s: State, s': State, c: nat, p: nat, op: Op)
    requires Inv(s) && Joins(s, s', c, p, op)
    ensures Usable(s') && Derived(s') && OpsOk(s') && LogOk(s'.sh, s'.live, s'.log)
  {
    hide Own, Winner, InScope;
    assert OpOk(s, op);
    LinkLive(s, c);
    forall o | o in s'.ops ensures OpOk(s', o) {
      assert OpOk(s, o);
      if !o.Remove? { LinkLive(s, o.c); }
    }
  }

  lemma JoinKeepsInv(s: State, s': State, c: nat, p: nat, op: Op)
    requires Inv(s) && Joins(s, s', c, p, op)
    ensures Inv(s')
  {
    JoinRest(s, s', c, p, op);
    JoinTracking(s, s', c, p, op);
    JoinHeld(s, s', c, p, op);
  }

  lemma RegisterKeepsInv(s: State, s': State, c: nat)
    requires Inv(s) && RegisterStep(s, s', c)
    ensures Inv(s')
  {
    var p := Link(s.sh, c).value;
    assert OpOk(s, Register(c)) && s.cx[c] == FRESH;
    if s.cx[p].err.Some? { CancelLeaf(s.sh, s.cx, c, s.cx[p].err.value, s.cx[p].cause.value); }
    JoinKeepsInv(s, s', c, p, Register(c));
  }

  lemma CancelNewKeepsInv(s: State, s': State, c: nat)
    requires Inv(s) && CancelNewStep(s, s', c)
    ensures Inv(s')
  {
    var p := Link(s.sh, c).value;
    assert OpOk(s, CancelNew(c)) && s.cx[c] == FRESH;
    CancelLeaf(s.sh, s.cx, c, s.cx[p].err.value, s.cx[p].cause.value);
    JoinKeepsInv(s, s', c, p, CancelNew(c));
  }

  /** A cancel that takes effect locks its context. */
  ghost predicate Locks(s: State, s': State, c: nat, err: Error, why: Error)
    requires Usable(s)
  {
    && c in s.live && s.sh[c].Cancelable() && s.cx[c].err.None?
    && s' == s.(cx := s.cx[c := Hit(s.cx[c], err, why)],
                frames := s.frames[c := Frame(s.cx[c].children, None)],
                log := s.log + [Entry(c, err, why, BehindClosed(s, c))])
  }

  lemma BeginTracking(s: State, s': State, c: nat, err: Error, why: Error)
    requires Inv(s) && Locks(s, s', c, err, why) && Usable(s')
    ensures Tracking(s')
  {
    assert Tracks(s, c);
    var e := s'.log[|s.log|];
    assert s'.log[..|s.log|] == s.log;
    forall i | i in s'.live && s'.sh[i].Cancelable() ensures Tracks(s', i) && Covered(s', i) {
      assert Tracks(s, i) && Covered(s, i);
      WinnerOfMore(s.sh, s.log, e, i);
      if i != c && s.cx[i].err.Some? && InScope(s.sh, c, i) { WinnerBelow(s, c, i); }
    }
  }

  lemma BeginHeld(s: State, s': State, c: nat, err: Error, why: Error)
    requires Inv(s) && Locks(s, s', c, err, why)
    ensures Usable(s') && Held(s')
  {
    hide Own, Winner, InScope, LogOk, Covered, OpsOk;
    assert Tracks(s, c);
    forall q: nat, i: nat | q < |s'.cx| && i in s'.cx[q].children
      ensures i < |s'.sh| && Link(s'.sh, i) == Some(q) && ChildOk(s', q, i)
    {
      assert i in s.cx[q].children;
      assert ChildOk(s, q, i);
    }
    forall i | i in s'.frames ensures FrameOk(s', i) { if i != c { assert FrameOk(s, i); } }
  }

  lemma BeginRest(s: State, s': State, c: nat, err: Error, why: Error)
    requires Inv(s) && Locks(s, s', c, err, why) && Usable(s')
    ensures OpsOk(s') && Derived(s')
  {
    hide Own, Winner, InScope, LogOk, Covered, Held;
    assert Tracks(s, c);
    forall op | op in s'.ops ensures OpOk(s', op) { assert OpOk(s, op); }
  }

  /** A closed Done channel above `c` means that a request was made there or further up. */
  lemma ClosedMeansRequest(s: State, a: nat, c: nat) returns (e: Entry)
    requires Inv(s) && c in s.live && InScope(s.sh, a, c) && a < c && s.sh[a].Cancelable() && IsClosed(s.cx[a].done)
    ensures e in s.log && InScope(s.sh, e.id, c)
  {
    ScopeLive(s, a, c);
    assert Tracks(s, a);
    e := Winner(s.sh, s.log, a).value;
    ScopeTransitive(s.sh, e.id, a, c);
  }

  lemma {:induction false} ScopeLive(s: State, a: nat, i: nat)
    requires Usable(s) && Derived(s) && i in s.live && InScope(s.sh, a, i)
    ensures a in s.live
    decreases i
  {
    if a != i { ScopeLive(s, a, s.sh[i].parent); }
  }

  /** A cancel finds an ancestor closed exactly when a request has been made in its scope. */
  lemma BehindIsPreceded(s: State, c: nat)
    requires Inv(s) && c in s.live && s.sh[c].Cancelable() && Own(s.log, c).None?
    ensures BehindClosed(s, c) <==> exists e :: e in s.log && InScope(s.sh, e.id, c)
  {
    hide Own, Winner, InScope, Covered, Held, OpsOk;
    if BehindClosed(s, c) {
      var a: nat :| a < c && s.sh[a].Cancelable() && InScope(s.sh, a, c) && IsClosed(s.cx[a].done);
      var e := ClosedMeansRequest(s, a, c);
    }
    if e :| e in s.log && InScope(s.sh, e.id, c) {
      ScopeIsBelow(s.sh, e.id, c);
      assert Tracks(s, e.id);
      assert BehindClosed(s, c);
    }
  }

  /** The record of a request says whether there was an earlier one in its scope. */
  lemma LogGrows(s: State, log: seq<Entry>, e: Entry)
    requires Usable(s) && LogOk(s.sh, s.live, s.log) && log == s.log + [e]
    requires e.id in s.live && s.sh[e.id].Cancelable() && forall f :: f in s.log ==> f.id != e.id
    requires e.behind <==> exists f :: f in s.log && InScope(s.sh, f.id, e.id)
    ensures LogOk(s.sh, s.live, log)
  {
    hide InScope, Preceded;
    var n := |s.log|;
    forall k | 0 <= k < n
      ensures log[k] == s.log[k] && s.log[k] in s.log && Preceded(s.sh, log, k) == Preceded(s.sh, s.log, k)
    {
      PrecededBefore(s.sh, s.log, log, k);
    }
    PrecededLast(s.sh, s.log, e);
  }

  lemma PrecededBefore(sh: seq<Shape>, log: seq<Entry>, more: seq<Entry>, k: nat)
    requires WellFormed(sh) && k < |log| && log <= more && log[k].id < |sh|
    ensures more[k] == log[k] && Preceded(sh, more, k) == Preceded(sh, log, k)
  {
    hide InScope;
    assert forall j :: 0 <= j <= k ==> more[j] == log[j];
  }

  lemma PrecededLast(sh: seq<Shape>, log: seq<Entry>, e: Entry)
    requires WellFormed(sh) && e.id < |sh|
    ensures Preceded(sh, log + [e], |log|) <==> exists f :: f in log && InScope(sh, f.id, e.id)
  {
    hide InScope;
    var more := log + [e];
    if f :| f in log && InScope(sh, f.id, e.id) {
      var j :| 0 <= j < |log| && log[j] == f;
      assert more[j] == f;
    }
    if j :| 0 <= j < |log| && InScope(sh, more[j].id, e.id) {
      assert log[j] in log;
    }
  }

  lemma BeginLog(s: State, s': State, c: nat, err: Error, why: Error)
    requires Inv(s) && Locks(s, s', c, err, why) && Usable(s')
    ensures LogOk(s'.sh, s'.live, s'.log)
  {
    assert Tracks(s, c);
    BehindIsPreceded(s, c);
    LogGrows(s, s'.log, Entry(c, err, why, BehindClosed(s, c)));
  }

  lemma BeginKeepsInv(s: State, s': State, c: nat, err: Error, cause: Option<Error>)
    requires Inv(s) && BeginStep(s, s', c, err, cause)
    ensures Inv(s')
  {
    var why := if cause.Some? then cause.value else err;
    if s.cx[c].err.None? {
      BeginHeld(s, s', c, err, why);
      BeginRest(s, s', c, err, why);
      BeginTracking(s, s', c, err, why);
      BeginLog(s, s', c, err, why);
    } else if s.sh[c].kind.WithDeadline? {
      forall op | op in s'.ops ensures OpOk(s', op) { if op in s.ops { assert OpOk(s, op); } }
      OpsKeepInv(s, s');
    }
  }

  lemma VisitTracks(s: State, s': State, p: nat, ch: nat, i: nat)
    requires Inv(s) && VisitStep(s, s', p, ch) && Usable(s') && i in s.live && s.sh[i].Cancelable()
    ensures Tracks(s', i)
  {
    hide Own, Winner, InScope, OpsOk, Covered;
    assert FrameOk(s, p) && ChildOk(s, p, ch);
    assert Tracks(s, p) && Tracks(s, ch) && Tracks(s, i);
    if s.cx[ch].err.None? { WinnerViaLink(s, ch); }
  }

  lemma VisitCovered(s: State, s': State, p: nat, ch: nat, i: nat)
    requires Inv(s) && VisitStep(s, s', p, ch) && Usable(s') && i in s.live && s.sh[i].Cancelable()
    ensures Covered(s', i)
  {
    hide Own, Winner, InScope, OpsOk, LogOk, Tracks;
    assert FrameOk(s, p) && ChildOk(s, p, ch) && Covered(s, i);
  }

  lemma VisitTracking(s: State, s': State, p: nat, ch: nat)
    requires Inv(s) && VisitStep(s, s', p, ch) && Usable(s')
    ensures Tracking(s')
  {
    hide Inv, Tracks, Covered;
    forall i | i in s'.live && s'.sh[i].Cancelable() ensures Tracks(s', i) && Covered(s', i) {
      VisitTracks(s, s', p, ch, i);
      VisitCovered(s, s', p, ch, i);
    }
  }

  lemma VisitHeld(s: State, s': State, p: nat, ch: nat)
    requires Inv(s) && VisitStep(s, s', p, ch)
    ensures Usable(s') && Held(s')
  {
    hide Own, Winner, InScope, LogOk, Covered, OpsOk;
    assert FrameOk(s, p) && ChildOk(s, p, ch) && Link(s.sh, ch) == Some(p);
    assert Tracks(s, ch);
    forall q: nat, i: nat | q < |s'.cx| && i in s'.cx[q].children
      ensures i < |s'.sh| && Link(s'.sh, i) == Some(q) && ChildOk(s', q, i)
    {
      assert i in s.cx[q].children;
      assert ChildOk(s, q, i);
    }
    forall i | i in s'.frames ensures FrameOk(s', i) { if i in s.frames { assert FrameOk(s, i); } }
  }

  lemma VisitRest(s: State, s': State, p: nat, ch: nat)
    requires Inv(s) && VisitStep(s, s', p, ch) && Usable(s')
    ensures OpsOk(s') && Derived(s') && LogOk(s'.sh, s'.live, s'.log)
  {
    hide Own, Winner, InScope, LogOk, Covered;
    assert FrameOk(s, p) && ChildOk(s, p, ch) && Link(s.sh, ch) == Some(p);
    assert Tracks(s, ch);
    hide Tracking, Held, FrameOk, ChildOk;
    forall op | op in s'.ops ensures OpOk(s', op) { assert OpOk(s, op); }
  }

  lemma VisitKeepsInv(s: State, s': State, p: nat, ch: nat)
    requires Inv(s) && VisitStep(s, s', p, ch)
    ensures Inv(s')
  {
    VisitHeld(s, s', p, ch);
    VisitRest(s, s', p, ch);
    VisitTracking(s, s', p, ch);
  }

  lemma EndTracks(s: State, s': State, c: nat, i: nat)
    requires Inv(s) && EndStep(s, s', c) && Usable(s') && i in s.live && s.sh[i].Cancelable()
    ensures Tracks(s', i)
  {
    hide Own, Winner, InScope, LogOk, OpsOk, Held, Covered, Linked;
    assert Tracks(s, c) && Tracks(s, i);
  }

  lemma EndCovered(s: State, s': State, c: nat, i: nat)
    requires Inv(s) && EndStep(s, s', c) && Usable(s') && i in s.live && s.sh[i].Cancelable()
    ensures Covered(s', i)
  {
    hide Own, Winner, InScope, LogOk, OpsOk, Derived, Linked, ChildOk;
    assert FrameOk(s, c) && Covered(s, i);
  }

  lemma EndTracking(s: State, s': State, c: nat)
    requires Inv(s) && EndStep(s, s', c) && Usable(s')
    ensures Tracking(s')
  {
    hide Inv, Tracks, Covered;
    forall i | i in s'.live && s'.sh[i].Cancelable() ensures Tracks(s', i) && Covered(s', i) {
      EndTracks(s, s', c, i);
      EndCovered(s, s', c, i);
    }
  }

  lemma EndHeld(s: State, s': State, c: nat)
    requires Inv(s) && EndStep(s, s', c)
    ensures Usable(s') && Held(s')
  {
    hide Own, Winner, InScope, LogOk, Tracks, Covered;
    assert FrameOk(s, c);
    forall q: nat, i: nat | q < |s'.cx| && i in s'.cx[q].children
      ensures i < |s'.sh| && Link(s'.sh, i) == Some(q) && ChildOk(s', q, i)
    {
      assert i in s.cx[q].children;
      assert ChildOk(s, q, i);
    }
    forall i | i in s'.frames ensures FrameOk(s', i) {
      assert FrameOk(s, i);
      if s.frames[i].inside == Some(c) { assert Link(s.sh, c) == Some(i); }
    }
  }

  lemma EndRest(s: State, s': State, c: nat)
    requires Inv(s) && EndStep(s, s', c) && Usable(s')
    ensures OpsOk(s') && Derived(s') && LogOk(s'.sh, s'.live, s'.log)
  {
    hide Own, Winner, InScope, LogOk, Tracks, Covered, ChildOk;
    assert FrameOk(s, c);
    forall op | op in s'.ops ensures OpOk(s', op) { if op in s.ops { assert OpOk(s, op); } }
  }

  lemma EndKeepsInv(s: State, s': State, c: nat)
    requires Inv(s) && EndStep(s, s', c)
    ensures Inv(s')
  {
    EndHeld(s, s', c);
    EndRest(s, s', c);
    EndTracking(s, s', c);
  }

  lemma RemoveKeepsInv(s: State, s': State, c: nat)
    requires Inv(s) && RemoveStep(s, s', c)
    ensures Inv(s')
  {
    hide Own, Winner, InScope;
    assert OpOk(s, Remove(c));
    var p := Link(s.sh, c);
    if p.Some? {
      LinkLive(s, c);
      assert Tracks(s, p.value);
      if s.cx[p.value].done.SharedClosed? {
        DropKeepsInv(s, s', c);
      } else {
        MakeDoneKeepsInv(s, p.value);
        UnholdKeepsInv(s.(cx := MakeDone(s.cx, p.value)), s', c, p.value);
      }
    } else {
      DropKeepsInv(s, s', c);
    }
  }

  /** Nothing to remove: no parent recognised holds `c`. */
  lemma DropKeepsInv(s: State, s': State, c: nat)
    requires Inv(s) && Remove(c) in s.ops && s' == s.(ops := s.ops - {Remove(c)})
    requires Link(s.sh, c).Some? ==>
      var p := Link(s.sh, c).value; p in s.frames || c !in s.cx[p].children
    ensures Inv(s')
  {
    hide Own, Winner, InScope, LogOk, Tracking, Covered, Tracks;
    SameTracking(s, s');
    forall i | i in s'.frames ensures FrameOk(s', i) { assert FrameOk(s, i); }
    forall q: nat, i: nat | q < |s'.cx| && i in s'.cx[q].children ensures ChildOk(s', q, i) { assert ChildOk(s, q, i); }
    forall op | op in s'.ops ensures OpOk(s', op) { assert OpOk(s, op); }
  }

  /** Dropping the cancelled `c` from `p`'s children. */
  lemma UnholdKeepsInv(m: State, s': State, c: nat, p: nat)
    requires Inv(m) && Remove(c) in m.ops && Link(m.sh, c) == Some(p) && p !in m.frames
    requires s' == m.(cx := m.cx[p := m.cx[p].(children := m.cx[p].children - {c})], ops := m.ops - {Remove(c)})
    ensures Inv(s')
  {
    hide Own, Winner, InScope;
    assert OpOk(m, Remove(c));
    LinkLive(m, c);
    forall q: nat, i: nat | q < |s'.cx| && i in s'.cx[q].children
      ensures i < |m.sh| && Link(m.sh, i) == Some(q) && ChildOk(s', q, i)
    {
      assert i in m.cx[q].children;
      assert ChildOk(m, q, i);
    }
    UnholdRest(m, s', c, p);
    UnholdTracking(m, s', c, p);
  }

  lemma UnholdTracking(m: State, s': State, c: nat, p: nat)
    requires Inv(m) && Remove(c) in m.ops && Link(m.sh, c) == Some(p) && p !in m.frames && p in m.live
    requires s' == m.(cx := m.cx[p := m.cx[p].(children := m.cx[p].children - {c})], ops := m.ops - {Remove(c)})
    requires Usable(s')
    ensures Tracking(s')
  {
    hide Own, Winner, InScope, LogOk;
    assert OpOk(m, Remove(c));
    forall i | i in s'.live && s'.sh[i].Cancelable() ensures Tracks(s', i) && Covered(s', i) {
      assert Tracks(m, i) && Covered(m, i);
    }
  }

  lemma UnholdRest(m: State, s': State, c: nat, p: nat)
    requires Inv(m) && Remove(c) in m.ops && Link(m.sh, c) == Some(p) && p !in m.frames && p in m.live
    requires s' == m.(cx := m.cx[p := m.cx[p].(children := m.cx[p].children - {c})], ops := m.ops - {Remove(c)})
    ensures Usable(s') && Derived(s') && OpsOk(s') && LogOk(s'.sh, s'.live, s'.log)
    ensures forall i {:trigger FrameOk(s', i)} :: i in s'.frames ==> FrameOk(s', i)
  {
    hide Own, Winner, InScope, LogOk, Tracks, Covered;
    assert OpOk(m, Remove(c));
    forall op | op in s'.ops ensures OpOk(s', op) { assert OpOk(m, op); }
    forall i | i in s'.frames ensures FrameOk(s', i) { assert FrameOk(m, i); }
  }

  lemma DoneKeepsInv(s: State, s': State, i: nat)
    requires Inv(s) && DoneStep(s, s', i)
    ensures Inv(s')
  {
    NearestLive(s, i);
    MakeDoneKeepsInv(s, Nearest(s.sh, i).value);
  }

  lemma LoopKeepsInv(s: State, s': State)
    requires Inv(s) && LoopStep(s, s')
    ensures Inv(s')
  {
    if p: nat, ch: nat :| VisitStep(s, s', p, ch) {
      VisitKeepsInv(s, s', p, ch);
    } else {
      var c: nat :| EndStep(s, s', c);
      EndKeepsInv(s, s', c);
    }
  }

  lemma NextKeepsInv(s: State, s': State)
    requires Inv(s) && Next(s, s')
    ensures Inv(s')
  {
    hide Inv, NewStep, PollStep, RegisterStep, CancelNewStep, BeginStep, RemoveStep, DoneStep, LoopStep;
    if parent, kind :| NewStep(s, s', parent, kind) {
      NewKeepsInv(s, s', parent, kind);
    } else if c :| PollStep(s, s', c) {
      PollKeepsInv(s, s', c);
    } else if c :| RegisterStep(s, s', c) {
      RegisterKeepsInv(s, s', c);
    } else if c :| CancelNewStep(s, s', c) {
      CancelNewKeepsInv(s, s', c);
    } else if c, err, cause :| BeginStep(s, s', c, err, cause) {
      BeginKeepsInv(s, s', c, err, cause);
    } else if LoopStep(s, s') {
      LoopKeepsInv(s, s');
    } else if c :| RemoveStep(s, s', c) {
      RemoveKeepsInv(s, s', c);
    } else {
      var i :| DoneStep(s, s', i);
      DoneKeepsInv(s, s', i);
    }
  }

  lemma {:induction false} RunKeepsInv(run: seq<State>)
    requires IsRun(run)
    ensures Inv(run[|run| - 1])
  {
    if |run| > 1 {
      var prefix := run[..|run| - 1];
      RunKeepsInv(prefix);
      NextKeepsInv(prefix[|prefix| - 1], run[|run| - 1]);
    }
  }
}
