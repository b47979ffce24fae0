/**
 exitCodeFilter of misc/go_android_exec/main.go: output is passed through except for a tail that
 may turn out to be "exitcode=" and a number. What is held back, and what Finish reports, depend
 only on the bytes written, not on how they were cut into Write calls.
*/
module ExitCodeFilter {
  import opened Common
  import opened Streams

  /** "exitcode=" */
  const EXIT_STR: seq<byte> := [101, 120, 105, 116, 99, 111, 100, 101, 61]
  const EXIT_LEN: nat := 9

  predicate Digit(c: byte) { 48 <= c <= 57 }

  /** What the regular expression matches at the end of the text: a non-empty prefix, or the whole with digits. */
  predicate Matches(w: seq<byte>) {
    if |w| <= EXIT_LEN then w != [] && w == EXIT_STR[..|w|]
    else w[..EXIT_LEN] == EXIT_STR && forall i :: EXIT_LEN <= i < |w| ==> Digit(w[i])
  }

  /** Where the leftmost match begins; the length of the text if there is none. */
  function Start(t: seq<byte>): (r: nat)
    ensures r <= |t| && (r < |t| ==> Matches(t[r..]))
    ensures forall i :: 0 <= i < r ==> !Matches(t[i..])
  {
    if t == [] then 0
    else if Matches(t) then 0
    else
      var r := 1 + Start(t[1..]);
      assert r < |t| ==> t[r..] == t[1..][r - 1..];
      assert forall i :: 1 <= i < r ==> t[i..] == t[1..][i - 1..];
      r
  }

  /** The bytes that must be held back after `t`. */
  function Tail(t: seq<byte>): seq<byte> {
    t[Start(t)..]
  }

  /** A non-empty prefix of a match is a match. */
  lemma PrefixMatches(a: seq<byte>, b: seq<byte>)
    requires a != [] && Matches(a + b)
    ensures Matches(a)
  {
    var w := a + b;
    forall i | 0 <= i < |a| ensures w[i] == a[i] {}
    if |a| <= EXIT_LEN {
      assert forall i :: 0 <= i < |a| ==> a[i] == EXIT_STR[i] by {
        if |w| <= EXIT_LEN {
          assert forall i :: 0 <= i < |w| ==> w[i] == EXIT_STR[..|w|][i];
        } else {
          assert forall i :: 0 <= i < EXIT_LEN ==> w[i] == w[..EXIT_LEN][i];
        }
      }
      assert a == EXIT_STR[..|a|];
    } else {
      assert a[..EXIT_LEN] == w[..EXIT_LEN];
    }
  }

  /** The held bytes are all that matters of what came before. */
  lemma {:induction false} TailAppend(t: seq<byte>, data: seq<byte>)
    ensures Tail(t + data) == Tail(Tail(t) + data)
    ensures |Tail(t + data)| <= |Tail(t)| + |data|
  {
    if t == [] {
      assert t + data == data && Tail(t) + data == data;
    } else if Matches(t) {
      assert Tail(t) == t;
    } else {
      if Matches(t + data) { PrefixMatches(t, data); }
      assert (t + data)[1..] == t[1..] + data;
      TailAppend(t[1..], data);
      assert Tail(t) == Tail(t[1..]);
      assert Tail(t + data) == Tail(t[1..] + data);
    }
  }

  /** Whatever precedes it, a final "exitcode=" with digits is exactly what is held back. */
  lemma {:induction false} ExitCodeHeld(p: seq<byte>, ds: seq<byte>)
    requires ds != [] && forall i :: 0 <= i < |ds| ==> Digit(ds[i])
    ensures Tail(p + EXIT_STR + ds) == EXIT_STR + ds
  {
    var t := p + EXIT_STR + ds;
    if p == [] {
      assert t == EXIT_STR + ds && t[..EXIT_LEN] == EXIT_STR;
      assert Matches(t);
    } else {
      assert t[|p| + 8] == 61;
      assert !Matches(t);
      assert t[1..] == p[1..] + EXIT_STR + ds;
      ExitCodeHeld(p[1..], ds);
    }
  }

  /** `t` ends in "exitcode=" and the digits `ds`. */
  ghost predicate EndsInCode(t: seq<byte>, p: seq<byte>, ds: seq<byte>) {
    ds != [] && (forall i :: 0 <= i < |ds| ==> Digit(ds[i])) && t == p + EXIT_STR + ds
  }

  /** A complete exit code is held back exactly when the text ends in one. */
  lemma ExitCodeIff(t: seq<byte>)
    ensures |Tail(t)| > EXIT_LEN <==> exists p, ds :: EndsInCode(t, p, ds)
  {
    if |Tail(t)| > EXIT_LEN {
      var tail := Tail(t);
      assert tail == EXIT_STR + tail[EXIT_LEN..];
      assert t == t[..Start(t)] + tail;
      assert EndsInCode(t, t[..Start(t)], tail[EXIT_LEN..]);
    }
    forall p, ds | EndsInCode(t, p, ds) ensures |Tail(t)| > EXIT_LEN {
      ExitCodeHeld(p, ds);
    }
  }

  function Number(ds: seq<byte>): int {
    if ds == [] then 0 else 10 * Number(ds[..|ds| - 1]) + ds[|ds| - 1] - 48
  }

  datatype Outcome = Code(n: int) | NoExitCode | BadExitCode

  /** What Finish reports for everything written, `t`. */
  function Report(t: seq<byte>): Outcome {
    var tail := Tail(t);
    if |tail| <= EXIT_LEN then NoExitCode
    else if Number(tail[EXIT_LEN..]) > MAX_INT then BadExitCode
    else Code(Number(tail[EXIT_LEN..]))
  }

  /** What has reached the sink in the end: all of `t`, less a valid exit code at its end. */
  function Output(t: seq<byte>): seq<byte> {
    if Report(t).Code? then t[..|t| - |Tail(t)|] else t
  }

  class Filter {
    const w: Sink
    var buf: seq<byte>
    ghost var seen: seq<byte>

    ghost predicate Valid()
      reads this, w
    {
      buf == Tail(seen) && (w.failure.None? ==> w.got + buf == seen)
    }

    constructor (w: Sink)
      requires w.got == [] && w.failure.None?
      ensures Valid() && this.w == w && seen == []
    {
      this.w, buf, seen := w, [], [];
    }

    /** `FindIndex`: the leftmost match, or -1. */
    method FindIndex(b: seq<byte>) returns (i: int)
      ensures i == if Start(b) == |b| then -1 else Start(b)
    {
      i := 0;
      while i < |b|
        invariant 0 <= i <= |b| && i <= Start(b)
      {
        if Matches(b[i..]) { return; }
        i := i + 1;
      }
      i := -1;
    }

    /** `Write`: everything before a possible match is flushed; it is dropped from the buffer even if the sink fails. */
    method Write(data: seq<byte>) returns (err: Option<IoError>)
      requires Valid()
      modifies this, w
      ensures Valid() && seen == old(seen) + data
      ensures w.failure.Some? == (old(w.failure).Some? || err.Some?)
    {
      hide Start, Matches;
      ghost var held := buf;
      buf := buf + data;
      TailAppend(seen, data);
      ghost var n0 := w.got;
      seen := seen + data;
      var b := buf;
      var at := FindIndex(b);
      var n;
      if at < 0 {
        n, err := w.Write(b);
        buf := [];
        Regroup(n0, held, data);
      } else {
        n, err := w.Write(b[..at]);
        buf := b[at..];
        Regroup(n0, held, data);
        Regroup(n0, b[..at], b[at..]);
        assert b[..at] + b[at..] == b;
      }
    }

    /** `Finish`: the exit code, or an error after flushing what was held back. */
    method Finish() returns (r: Outcome, err: Option<IoError>)
      requires Valid()
      modifies this, w
      ensures buf == [] && r == Report(seen) && seen == old(seen)
      ensures w.failure.Some? == (old(w.failure).Some? || err.Some?)
      ensures w.failure.None? ==> w.got == Output(seen)
    {
      var b := buf;
      buf, err := [], None;
      var n;
      if |b| <= EXIT_LEN {
        n, err := w.Write(b);
        return NoExitCode, err;
      }
      var code := Atoi(b[EXIT_LEN..]);
      if code.None? {
        n, err := w.Write(b);
        return BadExitCode, err;
      }
      assert w.failure.None? ==> w.got == seen[..|seen| - |b|];
      return Code(code.value), None;
    }

    /** `strconv.Atoi` on decimal digits: fails only out of range. */
    method Atoi(ds: seq<byte>) returns (r: Option<int>)
      requires forall i :: 0 <= i < |ds| ==> Digit(ds[i])
      ensures r == if Number(ds) > MAX_INT then None else Some(Number(ds))
    {
      var v, i := 0, 0;
      assert ds[..0] == [];
      while i < |ds|
        invariant 0 <= i <= |ds| && v == Number(ds[..i]) <= MAX_INT
      {
        assert ds[..i + 1][..i] == ds[..i];
        v := 10 * v + ds[i] - 48;
        if v > MAX_INT {
          NumberGrows(ds, i + 1);
          return None;
        }
        i := i + 1;
      }
      assert ds[..i] == ds;
      return Some(v);
    }
  }

  lemma {:induction false} NumberGrows(ds: seq<byte>, i: nat)
    requires i <= |ds| && (forall k :: 0 <= k < |ds| ==> Digit(ds[k])) && Number(ds[..i]) > MAX_INT
    ensures Number(ds) > MAX_INT
    decreases |ds| - i
  {
    if i < |ds| {
      assert ds[..i + 1][..i] == ds[..i];
      NumberGrows(ds, i + 1);
    } else {
      assert ds[..i] == ds;
    }
  }

  /** A whole run: any two ways of cutting the same bytes give the same report and the same output. */
  method FilterAll(chunks: seq<seq<byte>>, w: Sink) returns (r: Outcome, ok: bool)
    requires w.got == [] && w.failure.None?
    modifies w
    ensures r == Report(Flatten(chunks))
    ensures (ok <==> w.failure.None?) && (ok ==> w.got == Output(Flatten(chunks)))
  {
    var f := new Filter(w);
    ok := true;
    assert chunks[..0] == [];
    for i := 0 to |chunks|
      invariant f.Valid() && fresh(f) && f.w == w && f.seen == Flatten(chunks[..i])
      invariant ok <==> w.failure.None?
    {
      assert chunks[..i + 1][..i] == chunks[..i];
      var err := f.Write(chunks[i]);
      ok := ok && err.None?;
    }
    assert chunks[..|chunks|] == chunks;
    var err;
    r, err := f.Finish();
    ok := ok && err.None?;
  }
}
