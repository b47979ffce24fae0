/**
 The buffered writer of bufio/bufio.go. Whatever the sink does (fail, write short, write all
 and still report an error), the bytes it got followed by the bytes buffered are exactly the
 bytes the writer has accepted, in order.
*/
module BufWriter {
  import opened Common
  import opened Streams

  class Writer {
    const buf: array<byte>
    const wr: Sink
    var err: Option<IoError>
    var n: nat
    ghost var accepted: seq<byte>
    /** The calls of Flush made by the program, and the sink's writes of a full buffer or more. */
    ghost var flushes: nat
    ghost var full: nat

    ghost predicate Valid()
      reads this, buf, wr
    {
      && 0 < buf.Length && n <= buf.Length && wr.got + buf[..n] == accepted
      && err == wr.failure && full * buf.Length <= |wr.got|
    }

    /**
     The point of buffering: the sink is written to only when a full buffer's worth of bytes is there for it, the
     calls of Flush and one write that failed aside.
    */
    ghost predicate Sparing()
      reads this, wr
    {
      wr.calls <= full + flushes + (if wr.failure.Some? then 1 else 0)
    }

    constructor (wr: Sink, size: nat)
      requires size > 0 && wr.got == [] && wr.failure == None
      ensures Valid() && this.wr == wr && fresh(buf) && buf.Length == size && accepted == [] && err == None
      ensures flushes == 0 && (wr.calls == 0 ==> Sparing())
    {
      this.wr, buf, err, n, accepted, flushes, full := wr, new byte[size](_ => 0), None, 0, [], 0, 0;
    }

    /** The buffer passes to the sink; what the sink refuses stays at the front of the buffer. */
    method Flush() returns (e: Option<IoError>)
      requires Valid()
      modifies this, buf, wr
      ensures Valid() && accepted == old(accepted) && e == err && flushes == old(flushes)
      ensures old(err).Some? ==> err == old(err) && n == old(n) && wr.got == old(wr.got)
      ensures e == None ==> n == 0
      ensures old(err).Some? || old(n) == 0 ==> wr.calls == old(wr.calls) && full == old(full)
      ensures wr.calls <= old(wr.calls) + 1 && full >= old(full)
      ensures old(n) == buf.Length && old(Sparing()) ==> Sparing()
    {
      if err.Some? { return err; }
      if n == 0 { return None; }
      ghost var pending, before := buf[..n], wr.got;
      var m;
      m, e := wr.Write(buf[..n]);
      if m < n && e == None { e := Some(ShortWrite); }
      assert pending == pending[..m] + pending[m..];
      Regroup(before, pending[..m], pending[m..]);
      if e.Some? {
        if 0 < m < n {
          forall k | 0 <= k < n - m { buf[k] := buf[m + k]; }
        }
        n, err := n - m, e;
        assert buf[..n] == pending[m..];
        return;
      }
      if n == buf.Length {
        OneMoreFull(full, |before|, n, buf.Length);
        full := full + 1;
      }
      n := 0;
      assert pending[m..] == [];
    }

    /** `n = copy(b.buf[b.n:], p); b.n += n`. */
    method Fill(p: seq<byte>) returns (m: nat)
      requires Valid()
      modifies this, buf
      ensures m == Min(|p|, buf.Length - old(n)) && n == old(n) + m && err == old(err)
      ensures flushes == old(flushes) && full == old(full)
      ensures Valid() && accepted == old(accepted) + p[..m]
    {
      m := Min(|p|, buf.Length - n);
      ghost var was := buf[..n];
      forall k | 0 <= k < m { buf[n + k] := p[k]; }
      n := n + m;
      accepted := accepted + p[..m];
      assert buf[..n] == was + p[..m];
      Regroup(wr.got, was, p[..m]);
    }

    /** A write from `p` straight to the sink, past the empty buffer. */
    method Direct(p: seq<byte>) returns (m: nat)
      requires Valid() && n == 0 && err == None && |p| >= buf.Length
      modifies this, wr
      ensures m <= |p| && n == 0 && (m < |p| ==> err.Some?) && flushes == old(flushes)
      ensures old(Sparing()) ==> Sparing()
      ensures Valid() && accepted == old(accepted) + p[..m]
    {
      ghost var before := wr.got;
      m, err := wr.Write(p);
      if err == None {
        OneMoreFull(full, |before|, m, buf.Length);
        full := full + 1;
      }
      accepted := accepted + p[..m];
      assert buf[..0] == [];
    }

    /** One iteration of the loop in Write, for data beyond the free space. */
    method Overflow(q: seq<byte>) returns (m: nat)
      requires Valid() && err == None && |q| > buf.Length - n
      modifies this, buf, wr
      ensures m <= |q| && Valid() && accepted == old(accepted) + q[..m] && flushes == old(flushes)
      ensures err == None ==> m > 0 || n < old(n)
      ensures old(Sparing()) ==> Sparing()
    {
      if n == 0 {
        m := Direct(q);
      } else {
        m := Fill(q);
        var _ := Flush();
      }
    }

    /** `Write`: `nn` bytes of `p` are accepted; fewer than all only with an error. */
    method Write(p: seq<byte>) returns (nn: nat, e: Option<IoError>)
      requires Valid()
      modifies this, buf, wr
      ensures Valid() && nn <= |p| && accepted == old(accepted) + p[..nn] && e == err
      ensures nn < |p| ==> e.Some?
      ensures old(err).Some? ==> e == old(err) && nn == 0
      ensures |p| <= buf.Length - old(n) ==> wr.calls == old(wr.calls) && wr.got == old(wr.got)
      ensures flushes == old(flushes) && (old(Sparing()) ==> Sparing())
    {
      nn := 0;
      var q := p;
      while |q| > buf.Length - n && err == None
        invariant Valid() && nn <= |p| && q == p[nn..] && accepted == old(accepted) + p[..nn]
        invariant old(err).Some? ==> err == old(err) && nn == 0
        invariant |p| <= buf.Length - old(n) ==>
          n == old(n) && nn == 0 && wr.calls == old(wr.calls) && wr.got == old(wr.got)
        invariant flushes == old(flushes) && (old(Sparing()) ==> Sparing())
        decreases if err == None then 1 else 0, |q|, n
      {
        var m := Overflow(q);
        SliceChain(p, nn, m);
        Regroup(old(accepted), p[..nn], q[..m]);
        nn, q := nn + m, q[m..];
      }
      if err.Some? { return nn, err; }
      var m := Fill(q);
      SliceChain(p, nn, m);
      Regroup(old(accepted), p[..nn], q[..m]);
      return nn + m, None;
    }

    method WriteByte(c: byte) returns (e: Option<IoError>)
      requires Valid()
      modifies this, buf, wr
      ensures Valid() && e == err
      ensures accepted == if e == None then old(accepted) + [c] else old(accepted)
      ensures old(err).Some? ==> e == old(err)
      ensures old(n) < buf.Length ==> wr.calls == old(wr.calls) && wr.got == old(wr.got)
      ensures flushes == old(flushes) && (old(Sparing()) ==> Sparing())
    {
      if err.Some? { return err; }
      if buf.Length - n <= 0 {
        var f := Flush();
        if f.Some? { return err; }
      }
      ghost var was := buf[..n];
      buf[n] := c;
      n := n + 1;
      accepted := accepted + [c];
      assert buf[..n] == was + [c];
      Regroup(wr.got, was, [c]);
      return None;
    }

    /** The inner loop of ReadFrom: read into the free space, at most 100 times if nothing comes. */
    method Receive(r: Source) returns (m: nat, e: Option<IoError>, stuck: bool)
      requires Valid() && n < buf.Length && err == None
      modifies this, buf, r
      ensures m <= |old(r.rest)| && r.rest == old(r.rest)[m..] && err == None
      ensures Valid() && accepted == old(accepted) + old(r.rest)[..m]
      ensures e == None || e == Some(r.end)
      ensures e == Some(r.end) ==> r.rest == []
      ensures flushes == old(flushes) && full == old(full)
      ensures stuck ==> m == 0 && r.stalls >= MAX_CONSECUTIVE_EMPTY_READS
      ensures !stuck && e == None ==> m > 0
    {
      var nr := 0;
      ghost var was := buf[..n];
      while nr < MAX_CONSECUTIVE_EMPTY_READS
        invariant nr <= MAX_CONSECUTIVE_EMPTY_READS && n == old(n) && err == None
        invariant buf[..n] == was && r.rest == old(r.rest) && accepted == old(accepted)
        invariant flushes == old(flushes) && full == old(full)
        invariant nr > 0 ==> r.stalls >= nr && r.stalls <= r.maxStalls
      {
        m, e := r.Read(buf, n, buf.Length);
        if m != 0 || e.Some? {
          assert buf[..n + m] == was + old(r.rest)[..m];
          n := n + m;
          accepted := accepted + old(r.rest)[..m];
          Regroup(wr.got, was, old(r.rest)[..m]);
          return m, e, false;
        }
        assert old(r.rest)[..0] == [];
        nr := nr + 1;
      }
      assert old(r.rest)[..0] == [];
      return 0, None, true;
    }

    /** `ReadFrom` for a sink without a ReadFrom of its own: everything the source delivers is accepted. */
    method ReadFrom(r: Source) returns (total: nat, e: Option<IoError>)
      requires Valid()
      modifies this, buf, wr, r
      ensures Valid() && total <= |old(r.rest)| && r.rest == old(r.rest)[total..]
      ensures accepted == old(accepted) + old(r.rest)[..total]
      ensures e == None ==> r.rest == [] && r.end == EOF
      ensures e.Some? ==>
        || e == wr.failure
        || (e == Some(r.end) && r.end != EOF && r.rest == [])
        || (e == Some(NoProgress) && r.stalls >= MAX_CONSECUTIVE_EMPTY_READS)
      ensures wr.failure.Some? ==> e.Some?
      ensures old(err).Some? ==> e == old(err) && total == 0
      ensures flushes == old(flushes) && (old(Sparing()) ==> Sparing())
    {
      total := 0;
      if err.Some? { return 0, err; }
      while true
        invariant Valid() && err == None && total <= |old(r.rest)| && r.rest == old(r.rest)[total..]
        invariant accepted == old(accepted) + old(r.rest)[..total]
        invariant flushes == old(flushes) && (old(Sparing()) ==> Sparing())
        decreases |r.rest|
      {
        if buf.Length - n == 0 {
          e := Flush();
          if e.Some? { return; }
        }
        var m, stuck;
        m, e, stuck := Receive(r);
        SliceChain(old(r.rest), total, m);
        Regroup(old(accepted), old(r.rest)[..total], old(r.rest)[total..][..m]);
        total := total + m;
        if stuck { return total, Some(NoProgress); }
        if e.Some? { break; }
      }
      if e == Some(EOF) {
        if buf.Length - n == 0 {
          e := Flush();
        } else {
          e := None;
        }
      }
    }
  }

  /** One more write of a full buffer or more. */
  lemma OneMoreFull(full: nat, got: nat, m: nat, size: nat)
    requires full * size <= got && m >= size
    ensures (full + 1) * size <= got + m
  {
    assert (full + 1) * size == full * size + size;
  }

  /** Once a flush succeeds, the sink holds everything ever accepted. */
  method WriteThenFlush(b: Writer, p: seq<byte>) returns (e: Option<IoError>)
    requires b.Valid()
    modifies b, b.buf, b.wr
    ensures b.Valid() && (e == None ==> b.wr.got == old(b.accepted) + p)
  {
    var nn;
    nn, e := b.Write(p);
    if e == None {
      assert p[..nn] == p;
      e := b.Flush();
      assert b.buf[..0] == [];
    }
  }

  // ---------- whole runs ----------

  datatype Op = DoWrite(p: seq<byte>) | DoWriteByte(c: byte) | DoFlush

  function Argument(op: Op): seq<byte> {
    match op case DoWrite(p) => p case DoWriteByte(c) => [c] case DoFlush => []
  }

  /** One call; `took` is the part of its argument that it reports as written. */
  method Perform(b: Writer, op: Op) returns (took: seq<byte>, e: Option<IoError>)
    requires b.Valid()
    modifies b, b.buf, b.wr
    ensures b.Valid() && b.accepted == old(b.accepted) + took && took <= Argument(op)
    ensures e == b.err && (e == None ==> took == Argument(op))
    ensures old(b.err).Some? ==> e == old(b.err) && took == []
    ensures b.flushes == old(b.flushes) + (if op.DoFlush? then 1 else 0) && (old(b.Sparing()) ==> b.Sparing())
  {
    match op
    case DoWrite(p) =>
      var nn;
      nn, e := b.Write(p);
      took := p[..nn];
    case DoWriteByte(c) =>
      e := b.WriteByte(c);
      took := if e == None then [c] else [];
    case DoFlush =>
      e := b.Flush();
      took := [];
      b.flushes := b.flushes + 1;
  }

  function Flushes(ops: seq<Op>): nat {
    if ops == [] then 0 else Flushes(ops[..|ops| - 1]) + if ops[|ops| - 1].DoFlush? then 1 else 0
  }

  /** Every call took a prefix of its argument, and all of it if `whole`. */
  ghost predicate Taken(took: seq<seq<byte>>, ops: seq<Op>, whole: bool) {
    && |took| == |ops|
    && forall i :: 0 <= i < |ops| ==> if whole then took[i] == Argument(ops[i]) else took[i] <= Argument(ops[i])
  }

  lemma TakenSnoc(took: seq<seq<byte>>, ops: seq<Op>, part: seq<byte>, op: Op, whole: bool)
    requires Taken(took, ops, whole) && if whole then part == Argument(op) else part <= Argument(op)
    ensures Taken(took + [part], ops + [op], whole)
  {
  }

  lemma FlattenSnoc(took: seq<seq<byte>>, part: seq<byte>)
    ensures Flatten(took + [part]) == Flatten(took) + part
  {
    assert (took + [part])[..|took|] == took;
  }

  /**
   Any sequence of calls on a sink that may fail or write short at any point: the sink's bytes
   followed by the buffered ones are the accepted prefixes of the arguments, in order, and as long
   as the sink has not failed those are the whole arguments. The sink is written to sparingly.
  */
  method RunWrites(b: Writer, ops: seq<Op>) returns (took: seq<seq<byte>>)
    requires b.Valid() && b.accepted == []
    modifies b, b.buf, b.wr
    ensures b.Valid() && b.wr.got + b.buf[..b.n] == Flatten(took)
    ensures Taken(took, ops, false) && (b.wr.failure.None? ==> Taken(took, ops, true))
    ensures b.flushes == old(b.flushes) + Flushes(ops) && b.full * b.buf.Length <= |b.wr.got|
    ensures old(b.Sparing()) ==> b.wr.calls <= b.full + b.flushes + if b.wr.failure.Some? then 1 else 0
  {
    hide Argument, Flatten, Taken;
    took := [];
    TakenNone(ops[..0]);
    var i := 0;
    while i < |ops|
      invariant 0 <= i <= |ops|
      invariant b.Valid() && b.accepted == Flatten(took)
      invariant Taken(took, ops[..i], false) && (b.err == None ==> Taken(took, ops[..i], true))
      invariant b.flushes == old(b.flushes) + Flushes(ops[..i]) && (old(b.Sparing()) ==> b.Sparing())
    {
      assert ops[..i + 1][..i] == ops[..i];
      ghost var clean := b.err == None;
      var part, e := Perform(b, ops[i]);
      FlattenSnoc(took, part);
      TakenSnoc(took, ops[..i], part, ops[i], false);
      if clean && e == None { TakenSnoc(took, ops[..i], part, ops[i], true); }
      assert ops[..i] + [ops[i]] == ops[..i + 1];
      took, i := took + [part], i + 1;
    }
    assert ops[..i] == ops;
  }

  lemma TakenNone(ops: seq<Op>)
    requires ops == []
    ensures Flatten([]) == [] && Taken([], ops, false) && Taken([], ops, true)
  {
  }
}
