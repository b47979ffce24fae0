/**
 Deadlines and causes over whole runs of the context tree: which deadline a context has, what its
 timer makes it report, and that the Done channel tells the same as Err.
*/
module ContextCauses {
  import opened Common
  import opened ContextTree
  import opened ContextRuns
  import opened ContextLaws

  // ---------- the same contexts throughout ----------

  /** A run goes on: no context disappears or changes its kind or parent. */
  lemma {:induction false} ShapesStay(run: seq<State>, m: nat, j: nat)
    requires IsRun(run) && m <= j < |run|
    ensures run[m].sh <= run[j].sh
  {
    hide Next;
    if m < j {
      ShapesStay(run, m, j - 1);
      ShapeStays(run[j - 1], run[j]);
    }
  }

  lemma ShapeStays(s: State, s': State)
    requires Next(s, s')
    ensures s.sh <= s'.sh
  {
    hide Own, Winner, InScope, Link, Nearest, CancelAll, Inv;
  }

  /** Once set, err and cause stay as they are to the end of the run. */
  lemma {:induction false} FieldsStay(run: seq<State>, m: nat, j: nat, i: nat)
    requires IsRun(run) && m <= j < |run| && i < |run[m].cx| && run[m].cx[i].err.Some?
    ensures i < |run[j].cx| && run[j].cx[i].err == run[m].cx[i].err && run[j].cx[i].cause == run[m].cx[i].cause
    decreases j - m
  {
    hide Inv, Next;
    if m < j {
      FieldsStay(run, m, j - 1, i);
      WrittenOnce(run[..j], run[j], i);
    }
  }

  // ---------- what a request makes its context report ----------

  /**
   The first request to lock a context decides for good what it reports: its error, and as the cause
   the one it gave or else the error itself.
  */
  lemma RequestReported(run: seq<State>, m: nat, j: nat, c: nat, err: Error, cause: Option<Error>)
    requires IsRun(run) && m < j < |run| && c < |run[m].cx| && run[m].cx[c].err.None?
    requires Usable(run[m]) && BeginStep(run[m], run[m + 1], c, err, cause)
    ensures Usable(run[j]) && c < |run[j].sh|
    ensures Readable(run[j], c) ==>
      ErrOf(run[j], c) == Some(err) && CauseOf(run[j], c) == Some(if cause.Some? then cause.value else err)
  {
    FieldsStay(run, m + 1, j, c);
    RunKeepsInv(run[..j + 1]);
    ShapesStay(run, m, j);
    assert run[j].sh[c] == run[m].sh[c];
  }

  /** The CancelFunc of a context with a deadline sets no cause: what it cancels reports Canceled for both. */
  lemma CancelFuncSetsNoCause(run: seq<State>, m: nat, j: nat, c: nat, given: Option<Error>)
    requires IsRun(run) && m < j < |run| && c < |run[m].cx| && run[m].cx[c].err.None?
    requires Usable(run[m]) && run[m].sh[c].kind.WithDeadline? && BeginStep(run[m], run[m + 1], c, Canceled, given)
    ensures Usable(run[j]) && c < |run[j].sh|
    ensures Readable(run[j], c) ==> ErrOf(run[j], c) == Some(Canceled) == CauseOf(run[j], c)
  {
    RequestReported(run, m, j, c, Canceled, given);
  }

  /**
   WithDeadlineCause(parent, d, cause), whose parent has no earlier deadline: when its timer fires
   before anything else has cancelled the context, it reports DeadlineExceeded and that cause.
  */
  lemma DeadlineReported(run: seq<State>, k: nat, m: nat, j: nat, parent: nat, d: int, cause: Option<Error>,
                         given: Option<Error>)
    requires IsRun(run) && k < m < j < |run| && Usable(run[k]) && Usable(run[m]) && parent < |run[k].sh|
    requires Deadline(run[k].sh, parent).None? || d <= Deadline(run[k].sh, parent).value
    requires NewStep(run[k], run[k + 1], parent, DeadlineKind(run[k].sh, parent, d, cause))
    requires var c := |run[k].sh|;
      c < |run[m].cx| && run[m].cx[c].err.None? && BeginStep(run[m], run[m + 1], c, DeadlineExceeded, given)
    ensures var c := |run[k].sh|;
      && Usable(run[j]) && c < |run[j].sh| && Deadline(run[j].sh, c) == Some(d)
      && (Readable(run[j], c) ==>
            ErrOf(run[j], c) == Some(DeadlineExceeded)
            && CauseOf(run[j], c) == Some(if cause.Some? then cause.value else DeadlineExceeded))
  {
    var c := |run[k].sh|;
    ShapesStay(run, k + 1, m);
    ShapesStay(run, k + 1, j);
    assert run[m].sh[c] == run[k + 1].sh[c] == run[j].sh[c];
    RequestReported(run, m, j, c, DeadlineExceeded, given);
  }

  /**
   A context made by WithDeadlineCause has a timer that can fire exactly if its parent has no deadline sooner than the
   one asked for: if the parent's is the same, the context still has its own.
  */
  lemma TimerIff(run: seq<State>, k: nat, m: nat, parent: nat, d: int, cause: Option<Error>)
    requires IsRun(run) && k < m < |run| && Usable(run[k]) && Usable(run[m]) && parent < |run[k].sh|
    requires NewStep(run[k], run[k + 1], parent, DeadlineKind(run[k].sh, parent, d, cause))
    requires |run[k].sh| in run[m].live && |run[k].sh| !in run[m].frames
    ensures (exists s', given :: BeginStep(run[m], s', |run[k].sh|, DeadlineExceeded, given))
            <==> Deadline(run[k].sh, parent).None? || d <= Deadline(run[k].sh, parent).value
  {
    var c, s := |run[k].sh|, run[m];
    ShapesStay(run, k + 1, m);
    assert s.sh[c] == run[k + 1].sh[c];
    if Deadline(run[k].sh, parent).None? || d <= Deadline(run[k].sh, parent).value {
      var s' := Fired(s, c);
    }
  }

  /** The state right after the timer of `c` has fired. */
  lemma Fired(s: State, c: nat) returns (s': State)
    requires Usable(s) && c in s.live && c !in s.frames && s.sh[c].kind.WithDeadline?
    ensures BeginStep(s, s', c, DeadlineExceeded, s.sh[c].kind.onExpiry)
  {
    var cause := s.sh[c].kind.onExpiry;
    var why := if cause.Some? then cause.value else DeadlineExceeded;
    s' := if s.cx[c].err.Some? then s.(ops := s.ops + {Remove(c)})
          else s.(cx := s.cx[c := Hit(s.cx[c], DeadlineExceeded, why)],
                  frames := s.frames[c := Frame(s.cx[c].children, None)],
                  log := s.log + [Entry(c, DeadlineExceeded, why, BehindClosed(s, c))]);
  }

  // ---------- the deadline is the earliest in scope ----------

  /** Deadlines only tighten on the way down. */
  ghost predicate Nested(sh: seq<Shape>)
    requires WellFormed(sh)
  {
    forall i: nat {:trigger sh[i]} :: i < |sh| && sh[i].kind.WithDeadline? ==>
      match Deadline(sh, sh[i].parent) case None => true case Some(cur) => sh[i].kind.deadline <= cur
  }

  lemma NestedStays(s: State, s': State)
    requires Next(s, s') && Nested(s.sh) && WellFormed(s'.sh)
    ensures Nested(s'.sh)
  {
    ShapeStays(s, s');
    if s'.sh != s.sh {
      var x := GrowsByOne(s, s');
      forall i: nat | i < |s'.sh| && s'.sh[i].kind.WithDeadline?
        ensures match Deadline(s'.sh, s'.sh[i].parent) case None => true case Some(cur) => s'.sh[i].kind.deadline <= cur
      {
        DeadlineOfPrefix(s.sh, x, s'.sh[i].parent);
        assert i < |s.sh| ==> s'.sh[i] == s.sh[i];
      }
    }
  }

  lemma GrowsByOne(s: State, s': State) returns (x: Shape)
    requires Next(s, s') && s'.sh != s.sh
    ensures s'.sh == s.sh + [x] && x.parent < |s.sh| && Derivable(s.sh, x.parent, x.kind)
  {
    hide Own, Winner, InScope, Link, Nearest, CancelAll, Derivable;
    x := s'.sh[|s.sh|];
  }

  lemma {:induction false} RunNested(run: seq<State>)
    requires IsRun(run)
    ensures Inv(run[|run| - 1]) && Nested(run[|run| - 1].sh)
  {
    RunKeepsInv(run);
    if |run| > 1 {
      RunNested(run[..|run| - 1]);
      NestedStays(run[|run| - 2], run[|run| - 1]);
    }
  }

  /** `a` has a deadline of its own and `i` is in its scope. */
  ghost predicate Bounds(sh: seq<Shape>, a: nat, i: nat)
    requires WellFormed(sh) && i < |sh|
  {
    a < |sh| && sh[a].kind.WithDeadline? && InScope(sh, a, i)
  }

  /** `r` is the earliest of the deadlines that bound `i`, if there are any. */
  ghost predicate Earliest(sh: seq<Shape>, i: nat, r: Option<int>)
    requires WellFormed(sh) && i < |sh|
  {
    && (r.None? ==> forall a: nat :: !Bounds(sh, a, i))
    && (r.Some? ==>
          && (exists a: nat :: Bounds(sh, a, i) && sh[a].kind.deadline == r.value)
          && forall a: nat :: Bounds(sh, a, i) ==> r.value <= sh[a].kind.deadline)
  }

  /**
   In every reachable state, Deadline() of a context is the earliest deadline of it and the ancestors in
   scope, and there is none exactly if none of them has one.
  */
  lemma DeadlineIsEarliest(run: seq<State>, i: nat)
    requires IsRun(run) && i < |run[|run| - 1].sh|
    ensures var sh := run[|run| - 1].sh;
      && WellFormed(sh)
      && Earliest(sh, i, Deadline(sh, i))
  {
    RunNested(run);
    EarliestInScope(run[|run| - 1].sh, i);
  }

  lemma {:induction false} EarliestInScope(sh: seq<Shape>, i: nat)
    requires WellFormed(sh) && i < |sh| && Nested(sh)
    ensures Earliest(sh, i, Deadline(sh, i))
    decreases i
  {
    if sh[i].Forwards() {
      EarliestInScope(sh, sh[i].parent);
      assert forall a: nat :: Bounds(sh, a, i) <==> (a == i && sh[i].kind.WithDeadline?) || Bounds(sh, a, sh[i].parent);
    }
    if sh[i].kind.WithDeadline? {
      assert Bounds(sh, i, i);
      assert Deadline(sh, i) == Some(sh[i].kind.deadline);
    }
  }

  // ---------- Done and Err ----------

  /**
   Done is closed exactly when Err is not nil, in every reachable state: for a returned context as soon as Err
   can be read. A context without a cancelCtx above has neither.
  */
  lemma DoneClosedIffErr(run: seq<State>, i: nat)
    requires IsRun(run) && i in run[|run| - 1].live
    ensures var s := run[|run| - 1];
      && Inv(s)
      && (Readable(s, i) ==>
            (ErrOf(s, i).Some? <==>
               Nearest(s.sh, i).Some? && IsClosed(s.cx[Nearest(s.sh, i).value].done)))
  {
    RunKeepsInv(run);
    var s := run[|run| - 1];
    if Nearest(s.sh, i).Some? {
      NearestLive(s, i);
      assert Tracks(s, Nearest(s.sh, i).value);
    }
  }

  /** What a step can make of a Done channel. */
  predicate ChannelMoves(d: Chan, d': Chan) {
    match d
    case NoChan => d' != Closed
    case Open => d' == Open || d' == Closed
    case _ => d' == d
  }

  /**
   A Done channel that has been handed out is the one that gets closed, and stays; only a context
   cancelled before anyone asked for its channel has the shared closed one.
  */
  lemma ChannelStays(run: seq<State>, s': State, i: nat)
    requires IsRun(run) && Next(run[|run| - 1], s')
    requires Usable(run[|run| - 1]) && i < |run[|run| - 1].sh| && run[|run| - 1].sh[i].Cancelable()
    ensures i < |s'.cx| && ChannelMoves(run[|run| - 1].cx[i].done, s'.cx[i].done)
  {
    RunKeepsInv(run);
    var s := run[|run| - 1];
    assert s.cx[i].err.None? ==> !IsClosed(s.cx[i].done) by {
      if i in s.live { assert Tracks(s, i); }
    }
    StepMovesChannel(s, s', i);
  }

  lemma StepMovesChannel(s: State, s': State, i: nat)
    requires Next(s, s') && i < |s.cx| && (s.cx[i].err.None? ==> !IsClosed(s.cx[i].done))
    ensures i < |s'.cx| && ChannelMoves(s.cx[i].done, s'.cx[i].done)
  {
    hide LoopStep, Own, Winner, InScope, Link, Nearest;
    if LoopStep(s, s') { LoopMovesChannel(s, s', i); }
  }

  lemma LoopMovesChannel(s: State, s': State, i: nat)
    requires Usable(s) && LoopStep(s, s') && i < |s.cx| && (s.cx[i].err.None? ==> !IsClosed(s.cx[i].done))
    ensures i < |s'.cx| && ChannelMoves(s.cx[i].done, s'.cx[i].done)
  {
    hide Own, Winner, InScope, Link, Nearest;
  }
}
