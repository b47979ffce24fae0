/**
 Which error a call on a closed pipe returns, over whole runs: closing is final, a call that begins after it
 transfers nothing, and the error is fixed by what the two sides had stored when it was looked up.
*/
module PipeErrors {
  import opened Common
  import opened Pipe

  // ---------- closing is final ----------

  /** What later states keep: calls and their arguments, stored errors, and the closed channel. */
  ghost predicate Later(p: Pipe, q: Pipe) {
    && p.ws.Keys <= q.ws.Keys && p.rs.Keys <= q.rs.Keys
    && (p.done ==> q.done) && (p.rerr.Some? ==> q.rerr == p.rerr) && (p.werr.Some? ==> q.werr == p.werr)
  }

  lemma StepIsLater(p: Pipe, s: Step)
    requires Enabled(p, s)
    ensures Later(p, Apply(p, s))
  {
  }

  lemma {:induction false} RunIsLater(run: seq<Pipe>, steps: seq<Step>, i: nat, j: nat)
    requires IsRun(run, steps) && i <= j < |run|
    ensures Later(run[i], run[j])
    decreases j - i
  {
    hide Enabled, Apply;
    if i < j {
      RunIsLater(run, steps, i, j - 1);
      StepIsLater(run[j - 1], steps[j - 1]);
    }
  }

  /**
   The first error stored on a side stays, whatever is closed later: the caller's, or ErrClosedPipe if
   the reader gives none and EOF if the writer gives none.
  */
  lemma FirstCloseWins(run: seq<Pipe>, steps: seq<Step>, i: nat, j: nat)
    requires IsRun(run, steps) && i < j < |run| && steps[i].Store?
    ensures var given, p, q := steps[i].err, run[i], run[j];
      if steps[i].read
      then q.rerr == (if p.rerr.Some? then p.rerr else if given.Some? then given else Some(ErrClosedPipe))
      else q.werr == (if p.werr.Some? then p.werr else if given.Some? then given else Some(EOF))
  {
    RunIsLater(run, steps, i + 1, j);
  }

  /** Once a close has returned, the pipe is closed for good and one of the sides has an error stored. */
  lemma CloseTakesEffect(run: seq<Pipe>, steps: seq<Step>, i: nat, j: nat)
    requires IsRun(run, steps) && i < j < |run| && steps[i].CloseDone?
    ensures run[j].done && (run[j].rerr.Some? || run[j].werr.Some?)
  {
    RunIsLater(run, steps, i + 1, j);
    RunKeepsInv(run[..j + 1], steps[..j]);
  }

  // ---------- calls that begin after the close ----------

  predicate FailingWrite(pc: WPc) {
    pc == WStart || pc == WErr1(0) || (pc.WErr2? && pc.n == 0) || (pc.WDone? && pc.n == 0 && pc.err.Some?)
  }

  predicate FailingRead(pc: RPc) {
    pc == RStart || pc == RErr1 || pc.RErr2? || (pc.RDone? && pc.data == [] && pc.err.Some?)
  }

  lemma FailingStep(p: Pipe, s: Step, c: nat)
    requires Enabled(p, s) && p.done
    ensures var q := Apply(p, s);
      && (c in q.ws && (c in p.ws ==> FailingWrite(p.ws[c].pc)) ==> FailingWrite(q.ws[c].pc))
      && (c in q.rs && (c in p.rs ==> FailingRead(p.rs[c].pc)) ==> FailingRead(q.rs[c].pc))
  {
  }

  /** A write that begins once the pipe is closed hands nothing over and can only end in an error. */
  lemma {:induction false} WriteAfterClose(run: seq<Pipe>, steps: seq<Step>, i: nat, w: nat)
    requires IsRun(run, steps) && i < |run| && run[i].done && w !in run[i].ws && w in run[|run| - 1].ws
    ensures var p := run[|run| - 1]; FailingWrite(p.ws[w].pc) && Given(p.shakes, w) == []
  {
    FailingWrites(run, steps, i, |run| - 1, w);
    RunTraced(run, steps);
    assert GaveCount(run[|run| - 1].shakes, w, run[|run| - 1].ws[w]);
  }

  lemma {:induction false} FailingWrites(run: seq<Pipe>, steps: seq<Step>, i: nat, j: nat, w: nat)
    requires IsRun(run, steps) && i <= j < |run| && run[i].done && w !in run[i].ws
    ensures w in run[j].ws ==> FailingWrite(run[j].ws[w].pc)
    decreases j - i
  {
    hide Enabled, Apply;
    if i < j {
      FailingWrites(run, steps, i, j - 1, w);
      RunIsLater(run, steps, i, j - 1);
      FailingStep(run[j - 1], steps[j - 1], w);
    }
  }

  /** A read that begins once the pipe is closed takes part in no transfer and can only end in an error. */
  lemma {:induction false} ReadAfterClose(run: seq<Pipe>, steps: seq<Step>, i: nat, r: nat)
    requires IsRun(run, steps) && i < |run| && run[i].done && r !in run[i].rs && r in run[|run| - 1].rs
    ensures var p := run[|run| - 1]; FailingRead(p.rs[r].pc) && Received(p.shakes, r) == []
  {
    FailingReads(run, steps, i, |run| - 1, r);
    RunTraced(run, steps);
    assert Returned(run[|run| - 1].rs[r].pc) == [];
  }

  lemma {:induction false} FailingReads(run: seq<Pipe>, steps: seq<Step>, i: nat, j: nat, r: nat)
    requires IsRun(run, steps) && i <= j < |run| && run[i].done && r !in run[i].rs
    ensures r in run[j].rs ==> FailingRead(run[j].rs[r].pc)
    decreases j - i
  {
    hide Enabled, Apply;
    if i < j {
      FailingReads(run, steps, i, j - 1, r);
      RunIsLater(run, steps, i, j - 1);
      FailingStep(run[j - 1], steps[j - 1], r);
    }
  }

  // ---------- the error of a write ----------

  lemma WriterErrorStep(p: Pipe, s: Step, w: nat)
    requires Enabled(p, s) && w in Apply(p, s).ws
    ensures var pc := Apply(p, s).ws[w].pc;
      && (pc.WErr2? && !(w in p.ws && p.ws[w].pc == pc) ==>
            w in p.ws && s == WLoadWerr(w) && pc.werr == p.werr.Some?)
      && (pc.WDone? && pc.err.Some? && !(w in p.ws && p.ws[w].pc == pc) ==>
            s == WLoadRerr(w) && w in p.ws && p.ws[w].pc.WErr2?
            && pc.err == Some(if !p.ws[w].pc.werr && p.rerr.Some? then p.rerr.value else ErrClosedPipe))
  {
  }

  /** When a write that is about to load the read side's error loaded its own side's. */
  lemma {:induction false} WerrLoaded(run: seq<Pipe>, steps: seq<Step>, w: nat) returns (i: nat)
    requires IsRun(run, steps) && w in run[|run| - 1].ws && run[|run| - 1].ws[w].pc.WErr2?
    ensures i < |steps| && steps[i] == WLoadWerr(w) && w in run[i].ws
    ensures run[|run| - 1].ws[w].pc.werr == run[i].werr.Some?
  {
    hide Enabled, Apply;
    var n := |steps| - 1;
    WriterErrorStep(run[n], steps[n], w);
    if w in run[n].ws && run[n].ws[w].pc == run[n + 1].ws[w].pc {
      i := WerrLoaded(run[..n + 1], steps[..n], w);
    } else {
      i := n;
    }
  }

  /**
   The error of a write, exactly: at step `i` it looked up the write side's error, and at a later step `j` the read
   side's. It reports the latter if there was none of the former and one of the latter then, and ErrClosedPipe
   otherwise.
  */
  lemma {:induction false} WriteErrorExact(run: seq<Pipe>, steps: seq<Step>, w: nat) returns (i: nat, j: nat)
    requires IsRun(run, steps) && w in run[|run| - 1].ws
    requires run[|run| - 1].ws[w].pc.WDone? && run[|run| - 1].ws[w].pc.err.Some?
    ensures i < j < |steps| && steps[i] == WLoadWerr(w) && steps[j] == WLoadRerr(w) && w in run[i].ws
    ensures run[|run| - 1].ws[w].pc.err
      == Some(if run[i].werr.None? && run[j].rerr.Some? then run[j].rerr.value else ErrClosedPipe)
  {
    hide Enabled, Apply;
    var n := |steps| - 1;
    WriterErrorStep(run[n], steps[n], w);
    if w in run[n].ws && run[n].ws[w].pc == run[n + 1].ws[w].pc {
      i, j := WriteErrorExact(run[..n + 1], steps[..n], w);
    } else {
      i := WerrLoaded(run[..n + 1], steps[..n], w);
      j := n;
    }
  }

  /**
   Consequences for a write that begins at or after state `i`. If the writer had closed its side by then, an error is
   ErrClosedPipe. If the reader had and the writer never does, an error is the one the reader closed with.
  */
  lemma WriteErrorBySides(run: seq<Pipe>, steps: seq<Step>, i: nat, w: nat)
    requires IsRun(run, steps) && i < |run| && w !in run[i].ws && w in run[|run| - 1].ws
    requires run[|run| - 1].ws[w].pc.WDone? && run[|run| - 1].ws[w].pc.err.Some?
    ensures var p, err := run[|run| - 1], run[|run| - 1].ws[w].pc.err.value;
      && (run[i].werr.Some? ==> err == ErrClosedPipe)
      && (run[i].rerr.Some? && p.werr.None? ==> err == run[i].rerr.value)
  {
    var k, l := WriteErrorExact(run, steps, w);
    if k <= i { RunIsLater(run, steps, k, i); } else { RunIsLater(run, steps, i, k); RunIsLater(run, steps, i, l); }
    RunIsLater(run, steps, k, |run| - 1);
  }

  // ---------- the error of a read ----------

  lemma ReaderErrorStep(p: Pipe, s: Step, r: nat)
    requires Enabled(p, s) && r in Apply(p, s).rs
    ensures var pc := Apply(p, s).rs[r].pc;
      && (pc.RErr2? && !(r in p.rs && p.rs[r].pc == pc) ==>
            r in p.rs && s == RLoadRerr(r) && pc.rerr == p.rerr.Some?)
      && (pc.RDone? && pc.err.Some? && !(r in p.rs && p.rs[r].pc == pc) ==>
            s == RLoadWerr(r) && r in p.rs && p.rs[r].pc.RErr2?
            && pc.err == Some(if !p.rs[r].pc.rerr && p.werr.Some? then p.werr.value else ErrClosedPipe))
  {
  }

  lemma {:induction false} RerrLoaded(run: seq<Pipe>, steps: seq<Step>, r: nat) returns (i: nat)
    requires IsRun(run, steps) && r in run[|run| - 1].rs && run[|run| - 1].rs[r].pc.RErr2?
    ensures i < |steps| && steps[i] == RLoadRerr(r) && r in run[i].rs
    ensures run[|run| - 1].rs[r].pc.rerr == run[i].rerr.Some?
  {
    hide Enabled, Apply;
    var n := |steps| - 1;
    ReaderErrorStep(run[n], steps[n], r);
    if r in run[n].rs && run[n].rs[r].pc == run[n + 1].rs[r].pc {
      i := RerrLoaded(run[..n + 1], steps[..n], r);
    } else {
      i := n;
    }
  }

  /** The same for a read, with the sides exchanged: EOF or the writer's error only if the reader had not closed. */
  lemma {:induction false} ReadErrorExact(run: seq<Pipe>, steps: seq<Step>, r: nat) returns (i: nat, j: nat)
    requires IsRun(run, steps) && r in run[|run| - 1].rs
    requires run[|run| - 1].rs[r].pc.RDone? && run[|run| - 1].rs[r].pc.err.Some?
    ensures i < j < |steps| && steps[i] == RLoadRerr(r) && steps[j] == RLoadWerr(r) && r in run[i].rs
    ensures run[|run| - 1].rs[r].pc.err
      == Some(if run[i].rerr.None? && run[j].werr.Some? then run[j].werr.value else ErrClosedPipe)
  {
    hide Enabled, Apply;
    var n := |steps| - 1;
    ReaderErrorStep(run[n], steps[n], r);
    if r in run[n].rs && run[n].rs[r].pc == run[n + 1].rs[r].pc {
      i, j := ReadErrorExact(run[..n + 1], steps[..n], r);
    } else {
      i := RerrLoaded(run[..n + 1], steps[..n], r);
      j := n;
    }
  }

  lemma ReadErrorBySides(run: seq<Pipe>, steps: seq<Step>, i: nat, r: nat)
    requires IsRun(run, steps) && i < |run| && r !in run[i].rs && r in run[|run| - 1].rs
    requires run[|run| - 1].rs[r].pc.RDone? && run[|run| - 1].rs[r].pc.err.Some?
    ensures var p, err := run[|run| - 1], run[|run| - 1].rs[r].pc.err.value;
      && (run[i].rerr.Some? ==> err == ErrClosedPipe)
      && (run[i].werr.Some? && p.rerr.None? ==> err == run[i].werr.value)
  {
    var k, l := ReadErrorExact(run, steps, r);
    if k <= i { RunIsLater(run, steps, k, i); } else { RunIsLater(run, steps, i, k); RunIsLater(run, steps, i, l); }
    RunIsLater(run, steps, k, |run| - 1);
  }
}
