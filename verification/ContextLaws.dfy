/**
 What holds in every run of the context tree: what Err and Cause report, how far a cancellation
 reaches, whose cause a context has, and that every cancel comes to an end.
*/
module ContextLaws {
  import opened Common
  import opened ContextTree
  import opened ContextRuns

  // ---------- what contexts report ----------

  /**
   In every reachable state, `Err` and `Cause` of a returned context are, as soon as they can be
   read, those of the nearest request: its own, or that of the closest ancestor in scope with
   one. They are nil without a request, and while that ancestor's cancel has not come by yet.
  */
  lemma NearestRequestDecides(run: seq<State>, i: nat)
    requires IsRun(run) && i in run[|run| - 1].live
    ensures var s := run[|run| - 1];
      && Inv(s)
      && var w := Winner(s.sh, s.log, i);
      (Readable(s, i) ==>
         if ErrOf(s, i).Some?
         then w.Some? && ErrOf(s, i) == Some(w.value.err) && CauseOf(s, i) == Some(w.value.cause)
         else CauseOf(s, i).None? && (w.None? || exists a :: a in s.frames && InScope(s.sh, a, i)))
  {
    RunKeepsInv(run);
    var s := run[|run| - 1];
    WinnerViaNearest(s.sh, s.log, i);
    if Nearest(s.sh, i).Some? {
      var c := Nearest(s.sh, i).value;
      NearestLive(s, i);
      assert Tracks(s, c);
      if s.cx[c].err.None? && Winner(s.sh, s.log, c).Some? {
        var a := StillAhead(s, c);
        NearestInScope(s, i);
        ScopeTransitive(s.sh, a, c, i);
      }
    }
  }

  lemma {:induction false} NearestInScope(s: State, i: nat)
    requires Usable(s) && i < |s.sh| && Nearest(s.sh, i).Some?
    ensures InScope(s.sh, Nearest(s.sh, i).value, i)
    decreases i
  {
    if s.sh[i].kind.WithValue? { NearestInScope(s, s.sh[i].parent); }
  }

  /** The cancel that has not come by yet. */
  lemma {:induction false} StillAhead(s: State, c: nat) returns (a: nat)
    requires Inv(s) && c in s.live && s.sh[c].Cancelable() && s.cx[c].err.None? && Winner(s.sh, s.log, c).Some?
    ensures a in s.frames && InScope(s.sh, a, c)
    decreases c
  {
    assert Tracks(s, c) && Covered(s, c);
    WinnerViaLink(s, c);
    a := Link(s.sh, c).value;
    LinkLive(s, c);
    if s.cx[a].err.None? { a := StillAhead(s, a); }
    NearestInScope(s, s.sh[c].parent);
    ScopeTransitive(s.sh, a, Link(s.sh, c).value, s.sh[c].parent);
  }

  /** Below a context whose cancellation is complete, everything registered is cancelled, completely. */
  lemma {:induction false} FinishedBelow(s: State, a: nat, i: nat)
    requires Inv(s) && a in s.live && i in s.live && s.sh[a].Cancelable() && s.sh[i].Cancelable()
    requires InScope(s.sh, a, i) && !Unfinished(s, a)
    ensures !Unfinished(s, i)
    decreases i
  {
    if a != i {
      ScopeViaNearest(s.sh, a, s.sh[i].parent);
      LinkLive(s, i);
      FinishedBelow(s, a, Link(s.sh, i).value);
      assert Covered(s, i);
    }
  }

  /**
   Once a context reports an error, every returned descendant in its scope does too, without
   waiting, however registration, cancellation and removal raced.
  */
  lemma CancellationReachesDescendants(run: seq<State>, a: nat, i: nat)
    requires IsRun(run) && a in run[|run| - 1].live && i in run[|run| - 1].live
    ensures var s := run[|run| - 1];
      Inv(s) && (InScope(s.sh, a, i) && Readable(s, a) && ErrOf(s, a).Some? ==> Readable(s, i) && ErrOf(s, i).Some?)
  {
    RunKeepsInv(run);
    var s := run[|run| - 1];
    if InScope(s.sh, a, i) && Readable(s, a) && ErrOf(s, a).Some? {
      var b := Nearest(s.sh, a).value;
      NearestLive(s, a);
      NearestInScope(s, a);
      ScopeTransitive(s.sh, b, a, i);
      ScopeViaNearest(s.sh, b, i);
      NearestLive(s, i);
      FinishedBelow(s, b, Nearest(s.sh, i).value);
    }
  }

  /** Err and Cause are written once: no step changes them, or takes the lock for good again, once they are set. */
  lemma WrittenOnce(run: seq<State>, s': State, i: nat)
    requires IsRun(run) && Next(run[|run| - 1], s') && i < |run[|run| - 1].cx|
    ensures var s := run[|run| - 1];
      && Inv(s) && Inv(s') && i < |s'.cx|
      && (s.cx[i].err.Some? ==> s'.cx[i].err == s.cx[i].err && s'.cx[i].cause == s.cx[i].cause)
      && (s.cx[i].err.Some? && i !in s.frames ==> i !in s'.frames)
  {
    RunKeepsInv(run);
    NextKeepsInv(run[|run| - 1], s');
    NextKeepsFields(run[|run| - 1], s', i);
  }

  /** What a step leaves as it was at `i` once its error is set. */
  ghost predicate FieldsKept(s: State, s': State, i: nat) {
    && i < |s.cx| && i < |s'.cx|
    && (s.cx[i].err.Some? ==> s'.cx[i].err == s.cx[i].err && s'.cx[i].cause == s.cx[i].cause)
    && (s.cx[i].err.Some? && i !in s.frames ==> i !in s'.frames)
  }

  lemma LoopKeepsFields(s: State, s': State, i: nat)
    requires Usable(s) && LoopStep(s, s') && i < |s.cx|
    ensures FieldsKept(s, s', i)
  {
    hide Own, Winner, InScope, Link, Nearest;
  }

  lemma NextKeepsFields(s: State, s': State, i: nat)
    requires Usable(s) && Next(s, s') && i < |s.cx|
    ensures FieldsKept(s, s', i)
  {
    hide LoopStep, Own, Winner, InScope, Link, Nearest;
    if LoopStep(s, s') { LoopKeepsFields(s, s', i); }
  }

  /** The race in propagateCancel: a parent polled open is always recognised by parentCancelCtx. */
  lemma RegistrationFindsParent(run: seq<State>, c: nat)
    requires IsRun(run) && Register(c) in run[|run| - 1].ops
    ensures var s := run[|run| - 1];
      && Inv(s) && c < |s.sh| && Link(s.sh, c).Some?
      && !s.cx[Link(s.sh, c).value].done.SharedClosed? && !s.cx[Link(s.sh, c).value].done.NoChan?
  {
    RunKeepsInv(run);
    assert OpOk(run[|run| - 1], Register(c));
  }

  /** No leak: once no cancel or removal is under way, only uncancelled contexts are held by a parent. */
  lemma NoCancelledChildKept(run: seq<State>, p: nat, i: nat)
    requires IsRun(run) && p < |run[|run| - 1].cx| && i in run[|run| - 1].cx[p].children
    requires run[|run| - 1].frames == map[] && forall c :: Remove(c) !in run[|run| - 1].ops
    ensures i in run[|run| - 1].live && Inv(run[|run| - 1]) && run[|run| - 1].cx[i].err.None?
  {
    RunKeepsInv(run);
    assert ChildOk(run[|run| - 1], p, i);
  }

  // ---------- whose cause it is ----------

  /** `First` is the entry with the smallest index in scope. */
  lemma {:induction false} FirstAt(sh: seq<Shape>, log: seq<Entry>, i: nat, k: nat) returns (j: nat)
    requires WellFormed(sh) && i < |sh| && k < |log| && InScope(sh, log[k].id, i)
    ensures j <= k && First(sh, log, i) == Some(log[j]) && InScope(sh, log[j].id, i)
    ensures forall l :: 0 <= l < j ==> !InScope(sh, log[l].id, i)
  {
    var n := |log| - 1;
    if exists l :: 0 <= l < n && InScope(sh, log[l].id, i) {
      var l :| 0 <= l < n && InScope(sh, log[l].id, i);
      j := FirstAt(sh, log[..n], i, if k < n then k else l);
    } else {
      forall e | e in log[..n] ensures !InScope(sh, e.id, i) {
        var l :| 0 <= l < n && log[..n][l] == e;
        assert log[l] == e;
      }
      j := n;
    }
  }

  /** The nearest request is the first one exactly when it did not come behind another. */
  lemma NearestIsFirstIff(s: State, i: nat)
    requires Inv(s) && i < |s.sh| && Winner(s.sh, s.log, i).Some?
    ensures Winner(s.sh, s.log, i) == First(s.sh, s.log, i) <==> !Winner(s.sh, s.log, i).value.behind
  {
    hide Own, Winner, First, InScope, Tracking, Held, OpsOk, Derived;
    var w := Winner(s.sh, s.log, i).value;
    var k :| 0 <= k < |s.log| && s.log[k] == w;
    var j := FirstAt(s.sh, s.log, i, k);
    if j < k {
      var f := s.log[j];
      assert f in s.log;
      WinnerNearest(s.sh, s.log, f, i);
      ScopeChain(s.sh, f.id, w.id, i);
      assert Preceded(s.sh, s.log, k);
      assert f.id != w.id;
    } else if w.behind {
      assert s.log[k] in s.log && Preceded(s.sh, s.log, k);
      var l :| 0 <= l < k && InScope(s.sh, s.log[l].id, w.id);
      assert s.log[l] in s.log;
      ScopeTransitive(s.sh, s.log[l].id, w.id, i);
      assert false;
    }
  }

  /**
   The documentation gives a context the cause of the first cancellation of it or of an ancestor.
   The code does so exactly when the request that decided found no ancestor's Done channel closed:
   a request that comes behind another still wins if it locks its context before the other's loop.
  */
  lemma FirstRequestDecidesIff(run: seq<State>, i: nat)
    requires IsRun(run) && i in run[|run| - 1].live
    ensures var s := run[|run| - 1];
      && Inv(s)
      && (Winner(s.sh, s.log, i).Some? ==>
            (Winner(s.sh, s.log, i) == First(s.sh, s.log, i) <==> !Winner(s.sh, s.log, i).value.behind))
      && (Readable(s, i) && ErrOf(s, i).Some? ==>
            var w := Winner(s.sh, s.log, i);
            w.Some? && (!w.value.behind ==> w == First(s.sh, s.log, i) && CauseOf(s, i) == Some(w.value.cause)))
  {
    hide Winner, First, Next;
    NearestRequestDecides(run, i);
    var s := run[|run| - 1];
    if Winner(s.sh, s.log, i).Some? { NearestIsFirstIff(s, i); }
  }

  /** A request took effect at a context strictly between `a` and `i`, `i` included. */
  ghost predicate RequestBetween(s: State, a: nat, i: nat)
    requires Usable(s) && i < |s.sh|
  {
    exists e :: e in s.log && a < e.id && InScope(s.sh, e.id, i)
  }

  /** The request nearest to a descendant is its ancestor's exactly when none was made in between. */
  lemma NearestIsAncestorsIff(s: State, a: nat, i: nat)
    requires Inv(s) && i < |s.sh| && a < |s.sh| && InScope(s.sh, a, i) && Winner(s.sh, s.log, a).Some?
    ensures Winner(s.sh, s.log, i) == Winner(s.sh, s.log, a) <==> !RequestBetween(s, a, i)
    ensures RequestBetween(s, a, i) ==>
      && Winner(s.sh, s.log, i).Some? && a < Winner(s.sh, s.log, i).value.id
      && InScope(s.sh, a, Winner(s.sh, s.log, i).value.id)
  {
    hide Own, Winner, InScope, Tracking, Held, OpsOk, Derived, LogOk;
    if RequestBetween(s, a, i) {
      var e :| e in s.log && a < e.id && InScope(s.sh, e.id, i);
      WinnerNearest(s.sh, s.log, e, i);
      ScopeIsBelow(s.sh, Winner(s.sh, s.log, a).value.id, a);
      ScopeChain(s.sh, a, Winner(s.sh, s.log, i).value.id, i);
    } else {
      WinnerSkips(s.sh, s.log, a, i);
    }
  }

  /** What `i` reports was requested at a context strictly below `a`, `i` included. */
  ghost predicate FromBetween(s: State, a: nat, i: nat, e: Entry)
    requires Usable(s) && i < |s.sh| && e.id < |s.sh| && Readable(s, i)
  {
    && e in s.log && a < e.id && InScope(s.sh, a, e.id) && InScope(s.sh, e.id, i)
    && ErrOf(s, i) == Some(e.err) && CauseOf(s, i) == Some(e.cause)
  }

  /**
   What a cancelled descendant reports: the error and the cause of its ancestor if no request
   between them got there first, and otherwise those of one that did.
  */
  lemma AncestorDecidesIff(run: seq<State>, a: nat, i: nat)
    requires IsRun(run) && a in run[|run| - 1].live && i in run[|run| - 1].live
    ensures var s := run[|run| - 1];
      && Inv(s)
      && (InScope(s.sh, a, i) && Winner(s.sh, s.log, a).Some? ==>
            (Winner(s.sh, s.log, i) == Winner(s.sh, s.log, a) <==> !RequestBetween(s, a, i)))
      && (InScope(s.sh, a, i) && Readable(s, a) && Readable(s, i) && ErrOf(s, a).Some? && ErrOf(s, i).Some? ==>
            if RequestBetween(s, a, i) then exists e: Entry :: e.id < |s.sh| && FromBetween(s, a, i, e)
            else ErrOf(s, i) == ErrOf(s, a) && CauseOf(s, i) == CauseOf(s, a))
  {
    NearestRequestDecides(run, a);
    NearestRequestDecides(run, i);
    var s := run[|run| - 1];
    if InScope(s.sh, a, i) && Winner(s.sh, s.log, a).Some? {
      NearestIsAncestorsIff(s, a, i);
      if Readable(s, a) && Readable(s, i) && ErrOf(s, a).Some? && ErrOf(s, i).Some? && RequestBetween(s, a, i) {
        ReportsBetween(s, a, i, Winner(s.sh, s.log, i).value);
      }
    }
  }

  lemma ReportsBetween(s: State, a: nat, i: nat, e: Entry)
    requires Inv(s) && i < |s.sh| && Readable(s, i) && Winner(s.sh, s.log, i) == Some(e)
    requires a < e.id && InScope(s.sh, a, e.id) && ErrOf(s, i) == Some(e.err) && CauseOf(s, i) == Some(e.cause)
    ensures e.id < |s.sh| && FromBetween(s, a, i, e)
  {
    ScopeIsBelow(s.sh, e.id, i);
  }

  // A cancelable context below the background, and a cancelable child of it.
  const PARENT_SHAPE := [Shape(Background, 0), Shape(WithCancel, 0)]
  const FAMILY := PARENT_SHAPE + [Shape(WithCancel, 1)]
  const OPENED := Ctx(None, None, Open, {})
  const HOLDING := Ctx(None, None, Open, {2})
  const STARTED := [
    INITIAL,
    State(PARENT_SHAPE, [FRESH, FRESH], map[], {0, 1}, {}, []),
    State(FAMILY, [FRESH, FRESH, FRESH], map[], {0, 1}, {Poll(2)}, []),
    State(FAMILY, [FRESH, OPENED, FRESH], map[], {0, 1}, {Register(2)}, []),
    State(FAMILY, [FRESH, HOLDING, FRESH], map[], {0, 1, 2}, {}, [])]

  lemma FamilyLinks()
    ensures WellFormed(PARENT_SHAPE) && WellFormed(FAMILY)
    ensures Link(PARENT_SHAPE, 1) == None && Link(FAMILY, 1) == None && Link(FAMILY, 2) == Some(1)
    ensures Nearest(FAMILY, 2) == Some(2) && Nearest(FAMILY, 1) == Some(1)
    ensures InScope(FAMILY, 1, 2) && !InScope(FAMILY, 2, 1)
  {
    assert Nearest(FAMILY, 0) == None && Nearest(PARENT_SHAPE, 0) == None;
    assert !InScope(FAMILY, 2, 0);
  }

  lemma StartedSteps()
    ensures Next(STARTED[0], STARTED[1]) && Next(STARTED[1], STARTED[2])
    ensures Next(STARTED[2], STARTED[3]) && Next(STARTED[3], STARTED[4])
  {
    FamilyLinks();
    assert NewStep(STARTED[0], STARTED[1], 0, WithCancel);
    assert NewStep(STARTED[1], STARTED[2], 1, WithCancel);
    assert PollStep(STARTED[2], STARTED[3], 2);
    var none: set<nat>, all: set<nat> := {}, {0, 1, 2};
    assert none + {2} == {2} && {0, 1} + {2} == all && {Register(2)} - {Register(2)} == {};
    assert RegisterStep(STARTED[3], STARTED[4], 2);
  }

  /** The states after the family has been set up, from the parent's cancel to the end. */
  function Overtaking(cause1: Error, cause2: Error): (r: seq<State>)
    ensures |r| == 5
  {
    var e1, e2 := Entry(1, Canceled, cause1, false), Entry(2, Canceled, cause2, true);
    var x1, x2 := Hit(HOLDING, Canceled, cause1), Hit(FRESH, Canceled, cause2);
    var all: set<nat> := {0, 1, 2};
    [State(FAMILY, [FRESH, x1, FRESH], map[1 := Frame({2}, None)], all, {}, [e1]),
     State(FAMILY, [FRESH, x1, x2], map[1 := Frame({2}, None), 2 := Frame({}, None)], all, {}, [e1, e2]),
     State(FAMILY, [FRESH, x1, x2], map[1 := Frame({2}, None)], all, {Remove(2)}, [e1, e2]),
     State(FAMILY, [FRESH, x1, x2], map[1 := Frame({}, None)], all, {Remove(2)}, [e1, e2]),
     State(FAMILY, [FRESH, x1.(children := {}), x2], map[], all, {Remove(2), Remove(1)}, [e1, e2])]
  }

  lemma OvertakingBegins(cause1: Error, cause2: Error)
    ensures var o := Overtaking(cause1, cause2); Next(STARTED[4], o[0]) && Next(o[0], o[1])
  {
    FamilyLinks();
    var o := Overtaking(cause1, cause2);
    assert !BehindClosed(STARTED[4], 1);
    assert BeginStep(STARTED[4], o[0], 1, Canceled, Some(cause1));
    assert BehindClosed(o[0], 2) by { assert InScope(FAMILY, 1, 2) && IsClosed(o[0].cx[1].done); }
    assert BeginStep(o[0], o[1], 2, Canceled, Some(cause2));
  }

  lemma OvertakingReleases(cause1: Error, cause2: Error)
    ensures var o := Overtaking(cause1, cause2); Next(o[1], o[2]) && Next(o[3], o[4])
  {
    FamilyLinks();
    var o := Overtaking(cause1, cause2);
    assert EndStep(o[1], o[2], 2);
    assert EndStep(o[3], o[4], 1);
  }

  lemma OvertakingVisits(cause1: Error, cause2: Error)
    ensures var o := Overtaking(cause1, cause2); Next(o[2], o[3])
  {
    FamilyLinks();
    var o := Overtaking(cause1, cause2);
    var two: set<nat> := {2};
    assert two - {2} == {};
    assert VisitStep(o[2], o[3], 1, 2);
  }

  /**
   A run in which a child keeps its own cause although its parent's cancellation came first: the
   parent's Done channel closes, the child is cancelled, and only then does the parent's loop
   reach it. Every lock is free again at the end.
  */
  lemma ChildOvertakes(cause1: Error, cause2: Error) returns (run: seq<State>)
    ensures IsRun(run)
    ensures var s := run[|run| - 1];
      && Inv(s) && s.frames == map[] && 2 in s.live && InScope(s.sh, 1, 2)
      && First(s.sh, s.log, 2) == Some(Entry(1, Canceled, cause1, false))
      && CauseOf(s, 1) == Some(cause1) && CauseOf(s, 2) == Some(cause2)
  {
    run := STARTED + Overtaking(cause1, cause2);
    OvertakingRun(cause1, cause2);
    RunKeepsInv(run);
    FamilyLinks();
    var e1 := Entry(1, Canceled, cause1, false);
    var log := Overtaking(cause1, cause2)[4].log;
    assert log[..1] == [e1] && [e1][..0] == [];
    assert First(FAMILY, [e1], 2) == Some(e1);
    assert run[9] == Overtaking(cause1, cause2)[4];
  }

  lemma OvertakingRun(cause1: Error, cause2: Error)
    ensures IsRun(STARTED + Overtaking(cause1, cause2))
  {
    StartedSteps();
    OvertakingBegins(cause1, cause2);
    OvertakingReleases(cause1, cause2);
    OvertakingVisits(cause1, cause2);
    hide Next, Overtaking;
    var o := Overtaking(cause1, cause2);
    var run := STARTED + o;
    forall i | 0 <= i < |run| - 1 ensures Next(run[i], run[i + 1]) {
      if i >= 5 { assert run[i] == o[i - 5] && run[i + 1] == o[i - 4]; }
    }
  }

  // ---------- a cancel runs to its end ----------

  lemma {:induction false} Largest(s: set<nat>) returns (m: nat)
    requires s != {}
    ensures m in s && forall i: nat :: i in s ==> i <= m
  {
    var x :| x in s;
    if s == {x} {
      m := x;
    } else {
      assert s - {x} != {} by { assert s == (s - {x}) + {x}; }
      m := Largest(s - {x});
      if m < x { m := x; }
      forall i: nat | i in s ensures i <= m { if i != x { assert i in s - {x}; } }
    }
  }

  /** No deadlock among locks: as long as a cancel is under way, one of the loops has a step to take. */
  lemma LoopAdvances(s: State) returns (s': State)
    requires Inv(s) && s.frames != map[]
    ensures Usable(s) && LoopStep(s, s')
  {
    var k :| k in s.frames;
    assert k in s.frames.Keys;
    var p := Largest(s.frames.Keys);
    assert FrameOk(s, p);
    var f := s.frames[p];
    if f.inside.Some? {
      assert false;
    } else if f.todo == {} {
      s' := AfterEnd(s, p);
      assert EndStep(s, s', p);
    } else {
      var ch :| ch in f.todo;
      assert Link(s.sh, ch) == Some(p) && ch !in s.frames.Keys;
      s' := AfterVisit(s, p, ch);
      assert VisitStep(s, s', p, ch);
    }
  }

  function Uncancelled(s: State): set<nat> {
    set i: nat | i < |s.cx| && s.cx[i].err.None?
  }

  /** The visits still to be made. */
  function Ahead(s: State): set<(nat, nat)> {
    set p, ch | p in s.frames && ch in s.frames[p].todo :: (p, ch)
  }

  /** Every step of a loop leaves less to be done. */
  lemma LoopShrinks(s: State, s': State)
    requires Inv(s) && LoopStep(s, s')
    ensures Uncancelled(s') < Uncancelled(s)
            || (Uncancelled(s') == Uncancelled(s) && Ahead(s') < Ahead(s))
            || (Uncancelled(s') == Uncancelled(s) && Ahead(s') == Ahead(s) && s'.frames.Keys < s.frames.Keys)
  {
    hide Own, Winner, InScope, Link, LogOk, Tracking, Derived, OpsOk;
    if p: nat, ch: nat :| VisitStep(s, s', p, ch) {
      if s.cx[ch].err.None? {
        assert ch in Uncancelled(s) && ch !in Uncancelled(s');
      } else {
        assert (p, ch) in Ahead(s) && (p, ch) !in Ahead(s');
        assert Uncancelled(s') == Uncancelled(s);
      }
    } else {
      var c: nat :| EndStep(s, s', c);
      assert c in s.frames.Keys && c !in s'.frames.Keys;
      assert Uncancelled(s') == Uncancelled(s);
      assert Ahead(s') == Ahead(s);
    }
  }

  ghost predicate IsLoop(run: seq<State>) {
    |run| > 0 && forall i :: 0 <= i < |run| - 1 ==> Usable(run[i]) && LoopStep(run[i], run[i + 1])
  }

  /** Recursive cancel terminates: left to themselves, the loops under way finish and release every lock. */
  lemma {:induction false} CancelsFinish(s: State) returns (run: seq<State>)
    requires Inv(s)
    ensures IsLoop(run) && run[0] == s && run[|run| - 1].frames == map[] && Inv(run[|run| - 1])
    decreases Uncancelled(s), Ahead(s), s.frames.Keys
  {
    hide Inv, Usable, LoopStep, Uncancelled, Ahead;
    if s.frames == map[] {
      run := [s];
    } else {
      var s' := LoopAdvances(s);
      LoopKeepsInv(s, s');
      LoopShrinks(s, s');
      var rest := CancelsFinish(s');
      run := [s] + rest;
    }
  }

  /** Undisturbed, a cancel at `c` changes only what the recursion reaches: not yet, being stopped, or stopped. */
  ghost predicate Midway(s: State, t: State, c: nat, err: Error, why: Error)
    requires Usable(s) && c < |s.cx|
  {
    && t.sh == s.sh && t.live == s.live && |t.cx| == |s.cx| && t.cx[c].err.Some?
    && forall i: nat {:trigger t.cx[i]} :: i < |s.cx| ==>
         || (t.cx[i] == s.cx[i] && i !in t.frames)
         || (Reached(s.sh, s.cx, i, c)
             && t.cx[i] == if i in t.frames then Hit(s.cx[i], err, why) else Stop(s.cx[i], err, why))
  }

  lemma VisitMidway(s: State, t: State, p: nat, ch: nat, c: nat, err: Error, why: Error)
    requires Inv(s) && Inv(t) && c < |s.cx| && Midway(s, t, c, err, why) && CanVisit(t, p, ch)
    ensures Midway(s, AfterVisit(t, p, ch), c, err, why)
  {
    hide Own, Winner, InScope, LogOk, Tracking, Derived, OpsOk, Link;
    var u := AfterVisit(t, p, ch);
    assert FrameOk(t, p) && t.cx[p] == Hit(s.cx[p], err, why) && Reached(s.sh, s.cx, p, c);
    assert ch in s.cx[p].children;
    assert Link(s.sh, ch) == Some(p);
    assert t.cx[ch].err.None? ==> t.cx[ch] == s.cx[ch] && Reached(s.sh, s.cx, ch, c);
    forall i: nat | i < |s.cx|
      ensures || (u.cx[i] == s.cx[i] && i !in u.frames)
              || (Reached(s.sh, s.cx, i, c)
                  && u.cx[i] == if i in u.frames then Hit(s.cx[i], err, why) else Stop(s.cx[i], err, why))
    {
      assert t.cx[i] == t.cx[i];
    }
  }

  lemma EndMidway(s: State, t: State, d: nat, c: nat, err: Error, why: Error)
    requires Inv(s) && Inv(t) && c < |s.cx| && Midway(s, t, c, err, why) && d in t.frames
    ensures Midway(s, AfterEnd(t, d), c, err, why)
  {
    hide Own, Winner, InScope, LogOk, Tracking, Derived, OpsOk, Link;
    var u := AfterEnd(t, d);
    assert t.cx[d] == Hit(s.cx[d], err, why) && Reached(s.sh, s.cx, d, c);
    forall i: nat | i < |s.cx|
      ensures || (u.cx[i] == s.cx[i] && i !in u.frames)
              || (Reached(s.sh, s.cx, i, c)
                  && u.cx[i] == if i in u.frames then Hit(s.cx[i], err, why) else Stop(s.cx[i], err, why))
    {
      assert t.cx[i] == t.cx[i];
    }
  }

  lemma LoopMidway(s: State, t: State, u: State, c: nat, err: Error, why: Error)
    requires Inv(s) && Inv(t) && c < |s.cx| && Midway(s, t, c, err, why) && LoopStep(t, u)
    ensures Midway(s, u, c, err, why)
  {
    hide Own, Winner, InScope, LogOk, Tracking, Derived, OpsOk;
    if p: nat, ch: nat :| VisitStep(t, u, p, ch) {
      VisitMidway(s, t, p, ch, c, err, why);
    } else {
      var d: nat :| EndStep(t, u, d);
      EndMidway(s, t, d, c, err, why);
    }
  }

  lemma {:induction false} ReachedIsStopped(s: State, t: State, c: nat, i: nat)
    requires Inv(s) && Inv(t) && c in s.live && i < |s.sh| && Reached(s.sh, s.cx, i, c)
    requires t.sh == s.sh && t.live == s.live && t.cx[c].err.Some? && t.frames == map[] && s.sh[c].Cancelable()
    ensures i in s.live && t.cx[i].err.Some?
    decreases i
  {
    if i != c {
      var p := Link(s.sh, i).value;
      ReachedIsStopped(s, t, c, p);
      assert ChildOk(s, p, i);
      assert Covered(t, i);
    }
  }

  /**
   If nothing interferes, the loops of one cancel, in whatever order they visit the children, leave
   the state that the recursive method computes.
  */
  lemma {:induction false} UndisturbedCancel(s: State, run: seq<State>, c: nat, err: Error, cause: Option<Error>)
    requires Inv(s) && s.frames == map[] && IsLoop(run) && run[|run| - 1].frames == map[]
    requires BeginStep(s, run[0], c, err, cause) && s.cx[c].err.None?
    ensures run[|run| - 1].cx == CancelAll(s.sh, s.cx, c, err, if cause.Some? then cause.value else err)
  {
    var why := if cause.Some? then cause.value else err;
    var t := LoopsMidway(s, run, c, err, cause);
    forall i | 0 <= i < |s.cx| ensures t.cx[i] == CancelAll(s.sh, s.cx, c, err, why)[i] {
      if Reached(s.sh, s.cx, i, c) { ReachedIsStopped(s, t, c, i); }
    }
  }

  lemma {:induction false} LoopsMidway(s: State, run: seq<State>, c: nat, err: Error, cause: Option<Error>)
    returns (t: State)
    requires Inv(s) && s.frames == map[] && IsLoop(run)
    requires BeginStep(s, run[0], c, err, cause) && s.cx[c].err.None?
    ensures t == run[|run| - 1] && Inv(t) && Midway(s, t, c, err, if cause.Some? then cause.value else err)
  {
    var why := if cause.Some? then cause.value else err;
    t := run[|run| - 1];
    if |run| == 1 {
      BeginKeepsInv(s, t, c, err, cause);
    } else {
      var before := LoopsMidway(s, run[..|run| - 1], c, err, cause);
      LoopKeepsInv(before, t);
      LoopMidway(s, before, t, c, err, why);
    }
  }
}
