/** Contract-abiding readers and writers: what io.Reader and io.Writer promise to the buffered layers. */
module Streams {
  import opened Common

  /** Reads in a row that may bring nothing before the buffered layers give up with NoProgress. */
  const MAX_CONSECUTIVE_EMPTY_READS: nat := 100

  datatype IoError = EOF | Failed(code: int) | NoProgress | BufferFull | ShortWrite | TooLong

  /** How a source ends: with EOF, or by failing. */
  type EndError = e: IoError | e == EOF || e.Failed? witness EOF

  /**
   A finite source. Each `Read` delivers a chunk of any size, may report the end, EOF or a failure,
   together with the last bytes or later, and may return nothing without an error at most
   `maxStalls` times in a row.
  */
  class Source {
    var rest: seq<byte>
    var stalls: nat
    /** All reads so far, and those that brought nothing. */
    ghost var calls: nat
    ghost var empties: nat
    const maxStalls: nat
    const end: EndError

    constructor (data: seq<byte>, maxStalls: nat, end: EndError)
      ensures rest == data && this.maxStalls == maxStalls && this.end == end
      ensures stalls == 0 && calls == 0 && empties == 0
    {
      this.rest, this.maxStalls, this.end, stalls, calls, empties := data, maxStalls, end, 0, 0, 0;
    }

    /** `Read(b[from..to])`; the part of the slice beyond the bytes read may be used as scratch space. */
    method Read(b: array<byte>, from: nat, to: nat) returns (n: nat, err: Option<IoError>)
      requires from <= to <= b.Length
      modifies this, b
      ensures n <= to - from && n <= |old(rest)| && rest == old(rest)[n..]
      ensures b[..from + n] == old(b[..from]) + old(rest)[..n] && b[to..] == old(b[to..])
      ensures err == None || err == Some(end)
      ensures err == Some(end) ==> rest == []
      ensures n == 0 && err == None && from < to ==> stalls == old(stalls) + 1 <= maxStalls
      ensures n > 0 ==> stalls == 0
      ensures calls == old(calls) + 1
      ensures empties == old(empties) + if n == 0 && err == None && from < to then 1 else 0
    {
      calls := calls + 1;
      n :| 0 <= n <= to - from && n <= |rest|;
      var ended: bool := *;
      if n == 0 && stalls >= maxStalls && from < to {
        // out of patience: deliver something, or the end
        n := Min(1, |rest|);
        ended := true;
      }
      for k := 0 to n
        invariant rest == old(rest) && stalls == old(stalls) && empties == old(empties) && n <= |rest|
        invariant calls == old(calls) + 1
        invariant b[..from + k] == old(b[..from]) + rest[..k] && b[to..] == old(b[to..])
      {
        b[from + k] := rest[k];
      }
      rest := rest[n..];
      ghost var head := b[..from + n];
      for k := from + n to to
        invariant b[..from + n] == head && b[to..] == old(b[to..])
        invariant rest == old(rest)[n..] && stalls == old(stalls) && empties == old(empties)
        invariant calls == old(calls) + 1
      {
        var scratch: byte := *;
        b[k] := scratch;
      }
      err := if ended && rest == [] then Some(end) else None;
      if n > 0 {
        stalls := 0;
      } else if err == None && from < to {
        stalls, empties := stalls + 1, empties + 1;
      }
    }
  }

  /** A sink that accepts any prefix of what it is given; a short write always comes with an error. */
  class Sink {
    var got: seq<byte>
    /** The first error that a write has returned. */
    ghost var failure: Option<IoError>
    /** The writes so far. */
    ghost var calls: nat

    constructor ()
      ensures got == [] && failure == None && calls == 0
    {
      got, failure, calls := [], None, 0;
    }

    method Write(p: seq<byte>) returns (n: nat, err: Option<IoError>)
      modifies this
      ensures n <= |p| && got == old(got) + p[..n]
      ensures n < |p| ==> err.Some?
      ensures failure == (if old(failure).Some? then old(failure) else err) && calls == old(calls) + 1
    {
      n :| 0 <= n <= |p|;
      var code: int, fails: bool := *, *;
      got := got + p[..n];
      err := if n < |p| || fails then Some(Failed(code)) else None;
      failure, calls := if failure.Some? then failure else err, calls + 1;
    }
  }
}
