/**
 The transfers of a pipe over whole runs: what each one hands over, how many a write takes, and that a reader
 and a writer that are both there get on with it.
*/
module PipeTransfers {
  import opened Common
  import opened Pipe

  /** Writer `w` has taken part in a transfer. */
  ghost predicate Took(shakes: seq<Shake>, w: nat) {
    exists k :: 0 <= k < |shakes| && shakes[k].w == w
  }

  /**
   The `k`-th transfer hands over what comes next in the writer's argument, as much as the reader has room for; and
   it is the writer's first, or something was left to hand over.
  */
  ghost predicate ShakeOk(p: Pipe, k: nat)
    requires k < |p.shakes| && p.shakes[k].w in p.ws && p.shakes[k].r in p.rs
  {
    var x, arg := p.shakes[k], p.ws[p.shakes[k].w].arg;
    var before := |Given(p.shakes[..k], x.w)|;
    && before <= |arg| && x.data == arg[before..][..Min(p.rs[x.r].cap, |arg| - before)]
    && (before < |arg| || !Took(p.shakes[..k], x.w))
  }

  /** Whether a write has had a transfer yet, by where it is. */
  ghost predicate TookOk(shakes: seq<Shake>, w: nat, x: Writer) {
    && (x.pc.WStart? || x.pc.WLocking? || (x.pc.WLoop? && x.pc.once) ==> !Took(shakes, w))
    && (x.pc.WLoop? && !x.pc.once ==> Took(shakes, w))
    && (x.pc.WWait? ==> x.pc.rest != [] || !Took(shakes, w))
    && (x.pc.WDone? && x.pc.err.None? ==> Took(shakes, w))
  }

  ghost predicate Exact(p: Pipe) {
    && (forall k {:trigger p.shakes[k]} :: 0 <= k < |p.shakes| ==>
          p.shakes[k].w in p.ws && p.shakes[k].r in p.rs && ShakeOk(p, k))
    && (forall w {:trigger p.ws[w]} :: w in p.ws ==> TookOk(p.shakes, w, p.ws[w]))
  }

  lemma TookSnoc(shakes: seq<Shake>, x: Shake, w: nat)
    ensures Took(shakes + [x], w) <==> Took(shakes, w) || x.w == w
  {
    if Took(shakes, w) {
      var k :| 0 <= k < |shakes| && shakes[k].w == w;
      assert (shakes + [x])[k].w == w;
    }
    if x.w == w { assert (shakes + [x])[|shakes|].w == w; }
  }

  /** Calls keep their arguments. */
  ghost predicate SameCalls(p: Pipe, q: Pipe) {
    && (forall w :: w in p.ws ==> w in q.ws && q.ws[w].arg == p.ws[w].arg)
    && (forall r :: r in p.rs ==> r in q.rs && q.rs[r].cap == p.rs[r].cap)
  }

  lemma StepSameCalls(p: Pipe, s: Step)
    requires Enabled(p, s)
    ensures SameCalls(p, Apply(p, s))
  {
    if s.Offer? || s.Reply? { PairSameCalls(p, s); }
  }

  lemma PairSameCalls(p: Pipe, s: Step)
    requires Enabled(p, s) && (s.Offer? || s.Reply?)
    ensures SameCalls(p, Apply(p, s))
  {
  }

  lemma ShakesStay(p: Pipe, q: Pipe, k: nat)
    requires Exact(p) && SameCalls(p, q) && k < |p.shakes| && p.shakes <= q.shakes
    ensures q.shakes[k].w in q.ws && q.shakes[k].r in q.rs && ShakeOk(q, k)
  {
    hide Given, Took;
    assert q.shakes[k] == p.shakes[k] && q.shakes[..k] == p.shakes[..k];
    assert ShakeOk(p, k);
  }

  /** The step is one of writer `w`, and transfers nothing. */
  predicate Moves(s: Step, w: nat) {
    match s
    case WPoll(v) => v == w
    case WLock(v) => v == w
    case WSeeDone(v) => v == w
    case WReturn(v) => v == w
    case WLoadWerr(v) => v == w
    case WLoadRerr(v) => v == w
    case Offer(v, _) => v == w
    case _ => false
  }

  lemma OthersStay(p: Pipe, s: Step, w: nat)
    requires Enabled(p, s) && !s.Reply? && w in p.ws && !Moves(s, w)
    ensures Apply(p, s).ws[w] == p.ws[w]
  {
  }

  lemma MoverTook(p: Pipe, s: Step, w: nat)
    requires Enabled(p, s) && w in p.ws && Moves(s, w) && TookOk(p.shakes, w, p.ws[w])
    ensures TookOk(p.shakes, w, Apply(p, s).ws[w])
  {
    hide Took;
  }

  lemma NewTook(p: Pipe, s: Step, w: nat)
    requires Enabled(p, s) && w !in p.ws && w in Apply(p, s).ws && !Took(p.shakes, w)
    ensures TookOk(p.shakes, w, Apply(p, s).ws[w])
  {
    hide Took;
  }

  /** The step of a writer that transfers nothing leaves its own account right. */
  lemma WriterTook(p: Pipe, s: Step, w: nat)
    requires Exact(p) && Enabled(p, s) && !s.Reply? && w in Apply(p, s).ws
    ensures TookOk(p.shakes, w, Apply(p, s).ws[w])
  {
    hide TookOk, Apply, Enabled;
    if w !in p.ws {
      NeverTook(p, w);
      NewTook(p, s, w);
    } else {
      assert TookOk(p.shakes, w, p.ws[w]);
      if Moves(s, w) { MoverTook(p, s, w); } else { OthersStay(p, s, w); }
    }
  }

  lemma NeverTook(p: Pipe, w: nat)
    requires Exact(p) && w !in p.ws
    ensures !Took(p.shakes, w)
  {
  }

  lemma QuietExact(p: Pipe, s: Step)
    requires Inv(p) && Traced(p) && Exact(p) && Enabled(p, s) && !s.Reply?
    ensures Exact(Apply(p, s))
  {
    hide Apply, Enabled, Inv, Traced, TookOk, ShakeOk, SameCalls;
    var q := Apply(p, s);
    StepSameCalls(p, s);
    QuietSteps(p, s);
    hide Quiet;
    forall k | 0 <= k < |q.shakes| ensures q.shakes[k].w in q.ws && q.shakes[k].r in q.rs && ShakeOk(q, k) {
      ShakesStay(p, q, k);
    }
    forall w | w in q.ws ensures TookOk(q.shakes, w, q.ws[w]) { WriterTook(p, s, w); }
  }

  lemma ReplyShakeOk(p: Pipe, w: nat, r: nat)
    requires Inv(p) && Traced(p) && Exact(p) && Enabled(p, Reply(w, r))
    ensures var q := Apply(p, Reply(w, r));
      |q.shakes| == |p.shakes| + 1 && p.shakes <= q.shakes && w in q.ws && r in q.rs
      && q.shakes[|p.shakes|].w == w && q.shakes[|p.shakes|].r == r && ShakeOk(q, |p.shakes|)
  {
    hide Took, Given, Received, Inv, Traced, Exact, TookOk, GaveCount;
    var q := Apply(p, Reply(w, r));
    ReplyMatches(p, w, r);
    ReplyAccounts(p, w);
    assert q.shakes[..|p.shakes|] == p.shakes;
    assert p.ws[w].arg[p.ws[w].pc.n..] == p.ws[w].pc.rest;
  }

  lemma ReplyAccounts(p: Pipe, w: nat)
    requires Inv(p) && Traced(p) && Exact(p) && w in p.ws && p.ws[w].pc.WWait?
    ensures var x := p.ws[w];
      && x.pc.n <= |x.arg| && |Given(p.shakes, w)| == x.pc.n && x.pc.rest == x.arg[x.pc.n..]
      && (x.pc.n < |x.arg| || !Took(p.shakes, w))
  {
    hide Took, Prefixes, Delivered, Given, Received, ShakeOk, Paired, ReaderOk;
    assert GaveCount(p.shakes, w, p.ws[w]) && TookOk(p.shakes, w, p.ws[w]);
    assert WriterOk(p, w);
  }

  lemma ReplyTook(p: Pipe, w: nat, r: nat, v: nat)
    requires Exact(p) && Enabled(p, Reply(w, r)) && v in p.ws
    ensures var q := Apply(p, Reply(w, r)); v in q.ws && TookOk(q.shakes, v, q.ws[v])
  {
    var q := Apply(p, Reply(w, r));
    TookSnoc(p.shakes, q.shakes[|p.shakes|], v);
    assert TookOk(p.shakes, v, p.ws[v]);
    hide Took, ShakeOk;
  }

  lemma ReplyCalls(p: Pipe, w: nat, r: nat)
    requires Enabled(p, Reply(w, r))
    ensures Apply(p, Reply(w, r)).ws.Keys == p.ws.Keys
  {
  }

  lemma ReplyExact(p: Pipe, w: nat, r: nat)
    requires Inv(p) && Traced(p) && Exact(p) && Enabled(p, Reply(w, r))
    ensures Exact(Apply(p, Reply(w, r)))
  {
    hide Apply, Enabled, Inv, Traced, TookOk, ShakeOk, SameCalls;
    var q := Apply(p, Reply(w, r));
    StepSameCalls(p, Reply(w, r));
    ReplyShakeOk(p, w, r);
    ReplyCalls(p, w, r);
    forall k | 0 <= k < |q.shakes| ensures q.shakes[k].w in q.ws && q.shakes[k].r in q.rs && ShakeOk(q, k) {
      if k < |p.shakes| { ShakesStay(p, q, k); }
    }
    forall v | v in q.ws ensures TookOk(q.shakes, v, q.ws[v]) { ReplyTook(p, w, r, v); }
  }

  /**
   Every transfer of every run takes exactly the next bytes of its write, as many as the reader has room for. No write
   takes part in one after it has nothing left, but a successful one, an empty one included, took part in at
   least one: it waited for a reader.
  */
  lemma {:induction false} TransfersExact(run: seq<Pipe>, steps: seq<Step>)
    requires IsRun(run, steps)
    ensures var p := run[|run| - 1];
      && (forall k :: 0 <= k < |p.shakes| ==> p.shakes[k].w in p.ws && p.shakes[k].r in p.rs && ShakeOk(p, k))
      && (forall w :: w in p.ws && p.ws[w].pc.WDone? && p.ws[w].pc.err.None? ==> Took(p.shakes, w))
  {
    RunExact(run, steps);
    var p := run[|run| - 1];
    forall w | w in p.ws && p.ws[w].pc.WDone? && p.ws[w].pc.err.None? ensures Took(p.shakes, w) {
      assert TookOk(p.shakes, w, p.ws[w]);
    }
  }

  lemma {:induction false} RunExact(run: seq<Pipe>, steps: seq<Step>)
    requires IsRun(run, steps)
    ensures Exact(run[|run| - 1])
  {
    hide Exact, Enabled, Apply, Inv, Traced;
    if steps == [] {
      InitialExact();
    } else {
      var n := |steps| - 1;
      RunExact(run[..n + 1], steps[..n]);
      RunKeepsInv(run[..n + 1], steps[..n]);
      RunTraced(run[..n + 1], steps[..n]);
      if steps[n].Reply? {
        ReplyExact(run[n], steps[n].w, steps[n].r);
      } else {
        QuietExact(run[n], steps[n]);
      }
    }
  }

  lemma InitialExact()
    ensures Exact(INITIAL)
  {
  }

  // ---------- a reader and a writer ----------

  predicate AllWritten(p: Pipe) {
    forall w :: w in p.ws ==> p.ws[w].pc.WDone?
  }

  predicate AllRead(p: Pipe) {
    forall r :: r in p.rs ==> p.rs[r].pc.RDone?
  }

  /** An open pipe is not stuck either: as long as a read and a write are unfinished, some call has a step to take. */
  lemma NoDeadlockWhileBoth(run: seq<Pipe>, steps: seq<Step>) returns (s: Step)
    requires IsRun(run, steps) && !AllWritten(run[|run| - 1]) && !AllRead(run[|run| - 1])
    ensures Enabled(run[|run| - 1], s) && Pending(s)
  {
    RunKeepsInv(run, steps);
    var p := run[|run| - 1];
    var r :| r in p.rs && !p.rs[r].pc.RDone?;
    assert ReaderOk(p, r);
    match p.rs[r].pc {
      case RStart => s := RPoll(r);
      case RErr1 => s := RLoadRerr(r);
      case RErr2(_) => s := RLoadWerr(r);
      case RCopying(_) => s := Reply(p.holder.value, r);
      case RSelect =>
        var w :| w in p.ws && !p.ws[w].pc.WDone?;
        s := WriterStep(p, w, r);
    }
  }

  lemma WriterStep(p: Pipe, w: nat, r: nat) returns (s: Step)
    requires Inv(p) && w in p.ws && !p.ws[w].pc.WDone? && r in p.rs && p.rs[r].pc.RSelect?
    ensures Enabled(p, s) && Pending(s)
  {
    var v := if p.ws[w].pc.WLocking? && p.holder.Some? then p.holder.value else w;
    assert WriterOk(p, w) && WriterOk(p, v);
    match p.ws[v].pc {
      case WStart => s := WPoll(v);
      case WLocking => s := WLock(v);
      case WLoop(_, _, _) => s := if Looping(p.ws[v].pc) then Offer(v, r) else WReturn(v);
      case WErr1(_) => s := WLoadWerr(v);
      case WErr2(_, _) => s := WLoadRerr(v);
      case WWait(_, _) =>
        var c :| c in p.rs && p.rs[c].pc.RCopying?;
        assert ReaderOk(p, c);
        s := Reply(v, c);
    }
  }

  /**
   Steps of the calls in progress, whichever comes next, lead to a state in which all writes or all reads have
   returned: a read waits only for want of a write, and a write only for want of a read.
  */
  lemma {:induction false} CallsMeet(run: seq<Pipe>, steps: seq<Step>) returns (run': seq<Pipe>, steps': seq<Step>)
    requires IsRun(run, steps)
    ensures IsRun(run', steps') && run <= run' && steps <= steps'
    ensures AllWritten(run'[|run'| - 1]) || AllRead(run'[|run'| - 1])
    ensures forall i :: |steps| <= i < |steps'| ==> Pending(steps'[i])
    decreases ReaderSteps(run[|run| - 1]), WriterSteps(run[|run| - 1])
  {
    hide ReaderSteps, WriterSteps, Enabled, Apply, AllWritten, AllRead;
    var p := run[|run| - 1];
    if AllWritten(p) || AllRead(p) {
      run', steps' := run, steps;
    } else {
      var s := NoDeadlockWhileBoth(run, steps);
      StepsRunOut(p, s);
      var more, taken := run + [Apply(p, s)], steps + [s];
      RunSnoc(run, steps, s);
      run', steps' := CallsMeet(more, taken);
      forall i | |steps| <= i < |steps'| ensures Pending(steps'[i]) {
        if i == |steps| { assert taken[i] == s; }
      }
    }
  }
}
