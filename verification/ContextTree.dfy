/**
 The cancellation tree of Go's context package (context.go): contexts derived from one another,
 and the methods that update them, above all the recursive `cancelCtx.cancel`. A context is named
 by its index; a parent's index is smaller than its children's.
*/
module ContextTree {
  import opened Common

  datatype Error = Canceled | DeadlineExceeded | Custom(code: int)

  /** `cancelCtx.done`: absent, made and open, made and closed, or the shared `closedchan`. */
  datatype Chan = NoChan | Open | Closed | SharedClosed

  datatype Kind =
    | Background
    | WithValue
    | WithoutCancel
    | WithCancel
    | WithDeadline(deadline: int, onExpiry: Option<Error>)

  /** The immutable part of a context: what it is and what it was derived from. */
  datatype Shape = Shape(kind: Kind, parent: nat)
  {
    predicate Cancelable() { kind.WithCancel? || kind.WithDeadline? }
    /** `Done`, `Err` and the cancelCtx lookup are answered by the parent. */
    predicate Forwards() { kind.WithValue? || Cancelable() }
  }

  /** The fields of a `cancelCtx` that its mutex guards. */
  datatype Ctx = Ctx(err: Option<Error>, cause: Option<Error>, done: Chan, children: set<nat>)

  const FRESH := Ctx(None, None, NoChan, {})

  predicate WellFormed(sh: seq<Shape>) {
    forall i :: 0 <= i < |sh| && !sh[i].kind.Background? ==> sh[i].parent < i
  }

  // ---------- lookups along the parent chain ----------

  /** The innermost enclosing cancelCtx not cut off by WithoutCancel: `Value(&cancelCtxKey)`. */
  function Nearest(sh: seq<Shape>, i: nat): (r: Option<nat>)
    requires WellFormed(sh) && i < |sh|
    ensures r.Some? ==> r.value <= i && sh[r.value].Cancelable()
    decreases i
  {
    match sh[i].kind
    case Background => None
    case WithoutCancel => None
    case WithValue => Nearest(sh, sh[i].parent)
    case _ => Some(i)
  }

  /** The cancelCtx that a cancelable context hangs below, if any: `parentCancelCtx`. */
  function Link(sh: seq<Shape>, i: nat): (r: Option<nat>)
    requires WellFormed(sh) && i < |sh|
    ensures r.Some? ==> r.value < i && sh[r.value].Cancelable()
  {
    if sh[i].Cancelable() then Nearest(sh, sh[i].parent) else None
  }

  /** `a` is `i` or an ancestor of `i` that no WithoutCancel separates from it. */
  ghost predicate InScope(sh: seq<Shape>, a: nat, i: nat)
    requires WellFormed(sh) && i < |sh|
    decreases i
  {
    a == i || (sh[i].Forwards() && InScope(sh, a, sh[i].parent))
  }

  lemma {:induction false} ScopeIsBelow(sh: seq<Shape>, a: nat, i: nat)
    requires WellFormed(sh) && i < |sh| && InScope(sh, a, i)
    ensures a <= i
    decreases i
  {
    if a != i { ScopeIsBelow(sh, a, sh[i].parent); }
  }

  /** `a` is `i` or was derived from on the way to `i`. */
  ghost predicate Ancestor(sh: seq<Shape>, a: nat, i: nat)
    requires WellFormed(sh) && i < |sh|
    decreases i
  {
    a == i || (!sh[i].kind.Background? && Ancestor(sh, a, sh[i].parent))
  }

  /** Only WithoutCancel ends the scope of an ancestor: `a` itself may be one, but none between it and `i`. */
  lemma {:induction false} ScopeEndsAtWithoutCancel(sh: seq<Shape>, a: nat, i: nat)
    requires WellFormed(sh) && i < |sh|
    ensures InScope(sh, a, i) <==>
      Ancestor(sh, a, i)
      && forall b: nat :: a < b < |sh| && Ancestor(sh, b, i) ==> !sh[b].kind.WithoutCancel?
    decreases i
  {
    if a != i {
      AncestorIsBelow(sh, a, i);
      if !sh[i].kind.Background? {
        ScopeEndsAtWithoutCancel(sh, a, sh[i].parent);
        assert forall b: nat :: Ancestor(sh, b, sh[i].parent) ==> Ancestor(sh, b, i);
        assert Ancestor(sh, i, i);
      }
    } else {
      forall b: nat | Ancestor(sh, b, i) ensures b <= i { AncestorIsBelow(sh, b, i); }
    }
  }

  lemma {:induction false} AncestorIsBelow(sh: seq<Shape>, a: nat, i: nat)
    requires WellFormed(sh) && i < |sh|
    ensures Ancestor(sh, a, i) ==> a <= i
    decreases i
  {
    if a != i && !sh[i].kind.Background? { AncestorIsBelow(sh, a, sh[i].parent); }
  }

  /** A cancelable ancestor is in scope exactly when it is in scope of the nearest cancelCtx. */
  lemma {:induction false} ScopeViaNearest(sh: seq<Shape>, a: nat, i: nat)
    requires WellFormed(sh) && i < |sh| && a < |sh| && sh[a].Cancelable()
    ensures InScope(sh, a, i) <==> Nearest(sh, i).Some? && InScope(sh, a, Nearest(sh, i).value)
    decreases i
  {
    if sh[i].kind.WithValue? { ScopeViaNearest(sh, a, sh[i].parent); }
  }

  lemma {:induction false} NearestOfPrefix(sh: seq<Shape>, x: Shape, i: nat)
    requires WellFormed(sh) && WellFormed(sh + [x]) && i < |sh|
    ensures Nearest(sh + [x], i) == Nearest(sh, i)
    decreases i
  {
    if sh[i].kind.WithValue? { NearestOfPrefix(sh, x, sh[i].parent); }
  }

  lemma {:induction false} ScopeOfPrefix(sh: seq<Shape>, x: Shape, a: nat, i: nat)
    requires WellFormed(sh) && WellFormed(sh + [x]) && i < |sh|
    ensures InScope(sh + [x], a, i) == InScope(sh, a, i)
    decreases i
  {
    if sh[i].Forwards() { ScopeOfPrefix(sh, x, a, sh[i].parent); }
  }

  /** `Deadline()`: that of the innermost deadline context not cut off by WithoutCancel. */
  function Deadline(sh: seq<Shape>, i: nat): Option<int>
    requires WellFormed(sh) && i < |sh|
    decreases i
  {
    match sh[i].kind
    case WithDeadline(d, _) => Some(d)
    case Background => None
    case WithoutCancel => None
    case _ => Deadline(sh, sh[i].parent)
  }

  /** What WithDeadlineCause builds: a plain cancelCtx when the parent expires sooner anyway. */
  function DeadlineKind(sh: seq<Shape>, parent: nat, d: int, cause: Option<Error>): Kind
    requires WellFormed(sh) && parent < |sh|
  {
    var cur := Deadline(sh, parent);
    if cur.Some? && cur.value < d then WithCancel else WithDeadline(d, cause)
  }

  // ---------- cancellation ----------

  ghost predicate Sized(sh: seq<Shape>, cx: seq<Ctx>) {
    |sh| == |cx| && WellFormed(sh)
  }

  /** The `children` maps agree with the parent links. */
  ghost predicate Linked(sh: seq<Shape>, cx: seq<Ctx>) {
    && Sized(sh, cx)
    && forall p: nat, i: nat {:trigger i in cx[p].children} :: p < |cx| && i in cx[p].children ==>
         i < |sh| && Link(sh, i) == Some(p)
  }

  /** `i` is reached by the recursion that starts at `c`: a chain of uncancelled, registered children. */
  ghost predicate Reached(sh: seq<Shape>, cx: seq<Ctx>, i: nat, c: nat)
    requires Sized(sh, cx) && i < |sh|
    decreases i
  {
    && cx[i].err.None?
    && (i == c ||
        (Link(sh, i).Some? && i in cx[Link(sh, i).value].children && Reached(sh, cx, Link(sh, i).value, c)))
  }

  function Stop(x: Ctx, err: Error, cause: Error): Ctx {
    Ctx(Some(err), Some(cause), if x.done.NoChan? then SharedClosed else Closed, {})
  }

  /** The state after `cancel` at `c`: every reached context is stopped, all others untouched. */
  ghost function CancelAll(sh: seq<Shape>, cx: seq<Ctx>, c: nat, err: Error, cause: Error): (r: seq<Ctx>)
    requires Sized(sh, cx)
    ensures |r| == |cx|
  {
    seq(|cx|, i requires 0 <= i < |cx| => if Reached(sh, cx, i, c) then Stop(cx[i], err, cause) else cx[i])
  }

  lemma {:induction false} ReachedRoot(sh: seq<Shape>, cx: seq<Ctx>, i: nat, c: nat)
    requires Sized(sh, cx) && i < |sh| && Reached(sh, cx, i, c)
    ensures c <= i && cx[c].err.None?
    decreases i
  {
    if i != c { ReachedRoot(sh, cx, Link(sh, i).value, c); }
  }

  /** What lies strictly below `c` is reached through exactly one child of `c`. */
  lemma {:induction false} ReachedThroughChild(sh: seq<Shape>, cx: seq<Ctx>, i: nat, c: nat) returns (ch: nat)
    requires Linked(sh, cx) && i < |sh| && c < |sh| && i != c && Reached(sh, cx, i, c)
    ensures ch in cx[c].children && ch < |sh| && Reached(sh, cx, i, ch)
    decreases i
  {
    var p := Link(sh, i).value;
    if p == c {
      ch := i;
    } else {
      ch := ReachedThroughChild(sh, cx, p, c);
    }
  }

  lemma {:induction false} ReachedExtends(sh: seq<Shape>, cx: seq<Ctx>, i: nat, ch: nat, c: nat)
    requires Linked(sh, cx) && i < |sh| && c < |cx| && ch in cx[c].children && cx[c].err.None?
    requires Reached(sh, cx, i, ch)
    ensures Reached(sh, cx, i, c)
    decreases i
  {
    if i != ch { ReachedExtends(sh, cx, Link(sh, i).value, ch, c); }
  }

  /** Sibling subtrees are disjoint. */
  lemma {:induction false} SiblingsDisjoint(sh: seq<Shape>, cx: seq<Ctx>, i: nat, a: nat, b: nat, c: nat)
    requires Linked(sh, cx) && i < |sh| && c < |cx| && a in cx[c].children && b in cx[c].children
    requires Reached(sh, cx, i, a) && Reached(sh, cx, i, b)
    ensures a == b
    decreases i
  {
    if i == a && i != b {
      ReachedRoot(sh, cx, c, b);
    } else if i == b && i != a {
      ReachedRoot(sh, cx, c, a);
    } else if i != a {
      SiblingsDisjoint(sh, cx, Link(sh, i).value, a, b, c);
    }
  }

  /** The loop of `cancel` half way: the children outside `todo` have been cancelled. */
  ghost predicate Halfway(sh: seq<Shape>, cx: seq<Ctx>, now: seq<Ctx>, c: nat, todo: set<nat>, err: Error, cause: Error)
    requires Linked(sh, cx) && c < |cx|
  {
    && |now| == |cx|
    && now[c] == Stop(cx[c], err, cause).(children := cx[c].children)
    && todo <= cx[c].children
    && forall i :: 0 <= i < |cx| && i != c ==>
         now[i] == if exists ch :: ch in cx[c].children - todo && Reached(sh, cx, i, ch)
                   then Stop(cx[i], err, cause) else cx[i]
  }

  /** Cancelling some children leaves the subtrees of the others as they were. */
  lemma {:induction false} HalfwayReached(sh: seq<Shape>, cx: seq<Ctx>, now: seq<Ctx>, c: nat, todo: set<nat>,
                                          err: Error, cause: Error, i: nat, ch: nat)
    requires Linked(sh, cx) && c < |cx| && Halfway(sh, cx, now, c, todo, err, cause)
    requires i < |sh| && ch in todo && Sized(sh, now)
    ensures Reached(sh, now, i, ch) == Reached(sh, cx, i, ch)
    decreases i
  {
    assert c < ch;
    if i > c {
      if i != ch && Link(sh, i).Some? {
        HalfwayReached(sh, cx, now, c, todo, err, cause, Link(sh, i).value, ch);
      }
      if Reached(sh, cx, i, ch) {
        forall o | o in cx[c].children - todo && Reached(sh, cx, i, o) ensures false {
          SiblingsDisjoint(sh, cx, i, ch, o, c);
        }
        if i != ch {
          var p := Link(sh, i).value;
          ReachedRoot(sh, cx, p, ch);
          forall o | o in cx[c].children - todo && Reached(sh, cx, p, o) ensures false {
            SiblingsDisjoint(sh, cx, p, ch, o, c);
          }
        }
      }
    } else {
      if Reached(sh, cx, i, ch) { ReachedRoot(sh, cx, i, ch); }
      if Reached(sh, now, i, ch) { ReachedRoot(sh, now, i, ch); }
    }
  }

  lemma HalfwayUntouched(sh: seq<Shape>, cx: seq<Ctx>, now: seq<Ctx>, c: nat, todo: set<nat>,
                         err: Error, cause: Error, i: nat, ch: nat)
    requires Linked(sh, cx) && c < |cx| && Halfway(sh, cx, now, c, todo, err, cause)
    requires i < |cx| && ch in todo && Reached(sh, cx, i, ch)
    ensures ch in cx[c].children && i != c && now[i] == cx[i]
  {
    ReachedRoot(sh, cx, i, ch);
    forall o | o in cx[c].children - todo && Reached(sh, cx, i, o) ensures false {
      SiblingsDisjoint(sh, cx, i, ch, o, c);
    }
  }

  lemma HalfwayStep(sh: seq<Shape>, cx: seq<Ctx>, now: seq<Ctx>, next: seq<Ctx>, c: nat, todo: set<nat>,
                    err: Error, cause: Error, ch: nat)
    requires Linked(sh, cx) && c < |cx| && Halfway(sh, cx, now, c, todo, err, cause)
    requires ch in todo && Sized(sh, now) && next == CancelAll(sh, now, ch, err, cause)
    ensures Halfway(sh, cx, next, c, todo - {ch}, err, cause)
  {
    assert ch in cx[c].children;
    assert cx[c].children - (todo - {ch}) == (cx[c].children - todo) + {ch};
    forall i | 0 <= i < |cx|
      ensures next[i] == if Reached(sh, cx, i, ch) then Stop(cx[i], err, cause) else now[i]
      ensures Reached(sh, cx, i, ch) ==> i != c
    {
      HalfwayReached(sh, cx, now, c, todo, err, cause, i, ch);
      if Reached(sh, cx, i, ch) { HalfwayUntouched(sh, cx, now, c, todo, err, cause, i, ch); }
    }
    hide Reached, CancelAll;
  }

  lemma HalfwayDone(sh: seq<Shape>, cx: seq<Ctx>, now: seq<Ctx>, c: nat, err: Error, cause: Error)
    requires Linked(sh, cx) && c < |cx| && Halfway(sh, cx, now, c, {}, err, cause) && cx[c].err.None?
    ensures now[c := now[c].(children := {})] == CancelAll(sh, cx, c, err, cause)
  {
    forall i | 0 <= i < |cx| && i != c
      ensures Reached(sh, cx, i, c) <==> exists ch :: ch in cx[c].children - {} && Reached(sh, cx, i, ch)
    {
      if Reached(sh, cx, i, c) {
        var ch := ReachedThroughChild(sh, cx, i, c);
      }
      forall ch | ch in cx[c].children && Reached(sh, cx, i, ch) ensures Reached(sh, cx, i, c) {
        ReachedExtends(sh, cx, i, ch, c);
      }
    }
  }

  /** Cancelling keeps the children maps and the parent links in agreement. */
  lemma CancelAllLinked(sh: seq<Shape>, cx: seq<Ctx>, c: nat, err: Error, cause: Error)
    requires Linked(sh, cx)
    ensures Linked(sh, CancelAll(sh, cx, c, err, cause))
  {
  }

  /** The contexts of a program, with the methods that update them. */
  class Forest {
    var shape: seq<Shape>
    var ctx: seq<Ctx>

    constructor ()
      ensures shape == [Shape(Background, 0)] && ctx == [FRESH]
    {
      shape, ctx := [Shape(Background, 0)], [FRESH];
    }

    /** `value(c, &cancelCtxKey)`: walk up to the innermost cancelCtx. */
    method FindCancelCtx(i: nat) returns (r: Option<nat>)
      requires WellFormed(shape) && i < |shape|
      ensures r == Nearest(shape, i)
    {
      var c: nat := i;
      while true
        invariant c < |shape| && Nearest(shape, i) == Nearest(shape, c)
        decreases c
      {
        match shape[c].kind
        case WithValue => c := shape[c].parent;
        case WithoutCancel => return None;
        case Background => return None;
        case WithCancel => return Some(c);
        case WithDeadline(_, _) => return Some(c);
      }
    }

    /** `cancelCtx.cancel`: the first call stops `c` and, recursively, the children registered with it. */
    method Cancel(c: nat, err: Error, cause: Option<Error>)
      requires Linked(shape, ctx) && c < |ctx|
      modifies this`ctx
      ensures ctx == CancelAll(shape, old(ctx), c, err, if cause.Some? then cause.value else err)
      decreases |ctx| - c
    {
      var why := if cause.Some? then cause.value else err;
      if ctx[c].err.Some? {
        forall i | 0 <= i < |ctx| ensures !Reached(shape, ctx, i, c) {
          if Reached(shape, ctx, i, c) { ReachedRoot(shape, ctx, i, c); }
        }
        return;
      }
      var d := if ctx[c].done.NoChan? then SharedClosed else Closed;
      ctx := ctx[c := ctx[c].(err := Some(err), cause := Some(why), done := d)];
      var todo := ctx[c].children;
      ghost var cx := old(ctx);
      while todo != {}
        invariant Halfway(shape, cx, ctx, c, todo, err, why)
        invariant Linked(shape, ctx)
        decreases todo
      {
        var child :| child in todo;
        ghost var now := ctx;
        assert child in cx[c].children;
        Cancel(child, err, Some(why));
        HalfwayStep(shape, cx, now, ctx, c, todo, err, why, child);
        CancelAllLinked(shape, now, child, err, why);
        todo := todo - {child};
      }
      HalfwayDone(shape, cx, ctx, c, err, why);
      ctx := ctx[c := ctx[c].(children := {})];
    }

    /** `Done`: the channel is made on first use. */
    method Done(p: nat)
      requires p < |ctx|
      modifies this`ctx
      ensures ctx == MakeDone(old(ctx), p)
    {
      if ctx[p].done.NoChan? { ctx := ctx[p := ctx[p].(done := Open)]; }
    }

    /** The critical section of `propagateCancel`: register with the parent, or stop at once. */
    method Attach(c: nat, p: nat)
      requires Linked(shape, ctx) && c < |ctx| && Link(shape, c) == Some(p)
      requires ctx[p].err.Some? ==> ctx[p].cause.Some?
      modifies this`ctx
      ensures ctx == AttachTo(shape, old(ctx), c, p)
    {
      if ctx[p].err.Some? {
        Cancel(c, ctx[p].err.value, ctx[p].cause);
      } else {
        ctx := ctx[p := ctx[p].(children := ctx[p].children + {c})];
      }
    }

    /** `removeChild(c.Context, c)`. */
    method RemoveChild(c: nat)
      requires Linked(shape, ctx) && c < |ctx|
      modifies this`ctx
      ensures ctx == Detach(shape, old(ctx), c)
    {
      if !shape[c].Cancelable() { return; }
      var p := FindCancelCtx(shape[c].parent);
      if p.None? || ctx[p.value].done.SharedClosed? { return; }
      Done(p.value);
      ctx := ctx[p.value := ctx[p.value].(children := ctx[p.value].children - {c})];
    }

    /** WithDeadlineCause up to the allocation of the new context. */
    method Derive(parent: nat, d: int, cause: Option<Error>) returns (c: nat)
      requires WellFormed(shape) && |shape| == |ctx| && parent < |shape|
      modifies this
      ensures c == old(|shape|) && ctx == old(ctx) + [FRESH]
      ensures shape == old(shape) + [Shape(DeadlineKind(old(shape), parent, d, cause), parent)]
    {
      var i: nat := parent;
      while shape[i].kind.WithValue? || shape[i].kind.WithCancel?
        invariant i < |shape| && Deadline(shape, parent) == Deadline(shape, i)
        decreases i
      {
        i := shape[i].parent;
      }
      var sooner := shape[i].kind.WithDeadline? && shape[i].kind.deadline < d;
      c := |shape|;
      shape := shape + [Shape(if sooner then WithCancel else WithDeadline(d, cause), parent)];
      ctx := ctx + [FRESH];
    }
  }

  function MakeDone(cx: seq<Ctx>, p: nat): seq<Ctx>
    requires p < |cx|
  {
    if cx[p].done.NoChan? then cx[p := cx[p].(done := Open)] else cx
  }

  ghost function AttachTo(sh: seq<Shape>, cx: seq<Ctx>, c: nat, p: nat): seq<Ctx>
    requires Sized(sh, cx) && p < |cx| && (cx[p].err.Some? ==> cx[p].cause.Some?)
  {
    if cx[p].err.Some? then CancelAll(sh, cx, c, cx[p].err.value, cx[p].cause.value)
    else cx[p := cx[p].(children := cx[p].children + {c})]
  }

  ghost function Detach(sh: seq<Shape>, cx: seq<Ctx>, c: nat): seq<Ctx>
    requires Sized(sh, cx) && c < |cx|
  {
    var p := Link(sh, c);
    if p.None? || cx[p.value].done.SharedClosed? then cx
    else var cx' := MakeDone(cx, p.value); cx'[p.value := cx'[p.value].(children := cx'[p.value].children - {c})]
  }

  /** A deadline context expires no later than the deadline asked for, nor than its parent. */
  lemma DeadlineTightens(sh: seq<Shape>, parent: nat, d: int, cause: Option<Error>)
    requires WellFormed(sh) && parent < |sh|
    ensures var sh' := sh + [Shape(DeadlineKind(sh, parent, d, cause), parent)];
      && WellFormed(sh')
      && Deadline(sh', |sh|) == Some(match Deadline(sh, parent) case None => d case Some(cur) => Min(d, cur))
  {
    DeadlineOfPrefix(sh, Shape(DeadlineKind(sh, parent, d, cause), parent), parent);
  }

  lemma {:induction false} DeadlineOfPrefix(sh: seq<Shape>, x: Shape, i: nat)
    requires WellFormed(sh) && WellFormed(sh + [x]) && i < |sh|
    ensures Deadline(sh + [x], i) == Deadline(sh, i)
    decreases i
  {
    if sh[i].kind.WithValue? || sh[i].kind.WithCancel? { DeadlineOfPrefix(sh, x, sh[i].parent); }
  }
}
