/**
 bufio.Scanner with the ScanLines split function (bufio/scan.go): a buffer that shifts and
 doubles while the source delivers its data in arbitrary chunks.
*/
module Scanner {
  import opened Common
  import opened Streams
  import opened TextLines

  const START_BUF_SIZE: nat := 4096

  /** ScanLines: how far to advance and the token, if there is one. */
  function ScanLines(data: seq<byte>, atEOF: bool): (r: (nat, Option<seq<byte>>))
    ensures r.0 <= |data|
    ensures r.1.Some? ==> r.0 > 0
    ensures r.1.None? ==> r.0 == 0 && LF !in data && (atEOF ==> data == [])
  {
    if atEOF && data == [] then (0, None)
    else
      var i := IndexByte(data, LF);
      if i >= 0 then (i + 1, Some(DropCR(data[..i])))
      else if atEOF then (|data|, Some(DropCR(data)))
      else (0, None)
  }

  /** Every line with its newline has at most `limit` bytes, an unterminated last line fewer. */
  predicate Fits(t: seq<byte>, limit: nat)
    decreases |t|
  {
    t == [] ||
    var i := IndexByte(t, LF);
    if i < 0 then |t| < limit else i + 1 <= limit && Fits(t[i + 1..], limit)
  }

  /** The same, an unterminated last line of exactly `limit` bytes allowed. */
  predicate BarelyFits(t: seq<byte>, limit: nat)
    decreases |t|
  {
    t == [] ||
    var i := IndexByte(t, LF);
    if i < 0 then |t| <= limit else i + 1 <= limit && BarelyFits(t[i + 1..], limit)
  }

  /** `piece` is one line with its newline, or a last one without, and `token` is what it stands for. */
  ghost predicate Piece(piece: seq<byte>, token: seq<byte>, ended: bool) {
    && piece != []
    && if ended then piece[|piece| - 1] == LF && LF !in piece[..|piece| - 1] && token == DropCR(piece[..|piece| - 1])
       else LF !in piece && token == DropCR(piece)
  }

  lemma FirstPiece(piece: seq<byte>, token: seq<byte>, ended: bool, rest: seq<byte>, limit: nat)
    requires Piece(piece, token, ended) && |piece| <= limit && (!ended ==> rest == [])
    ensures Lines(piece + rest, true) == [token] + Lines(rest, true)
    ensures Fits(piece + rest, limit) ==> Fits(rest, limit)
    ensures BarelyFits(rest, limit) ==> BarelyFits(piece + rest, limit)
  {
    var t := piece + rest;
    if ended {
      var i := |piece| - 1;
      assert t[..i] == piece[..i];
      IndexUnique(t, LF, i);
      assert t[i + 1..] == rest;
    } else {
      assert t == piece;
      IndexAbsent(t, LF);
      assert Lines(rest, true) == [];
    }
  }

  /** A text whose first `limit` bytes hold no newline does not fit. */
  lemma LongHead(t: seq<byte>, limit: nat)
    requires limit <= |t| && t != [] && LF !in t[..limit]
    ensures !Fits(t, limit)
  {
    forall k | 0 <= k < limit ensures t[k] != LF {
      assert t[..limit][k] == t[k] && t[..limit][k] in t[..limit];
    }
  }

  /** A token of ScanLines stands for one piece of the data. */
  lemma ScanLinesPiece(data: seq<byte>, atEOF: bool)
    requires ScanLines(data, atEOF).1.Some?
    ensures var (advance, tok) := ScanLines(data, atEOF);
      && Piece(data[..advance], tok.value, LF in data)
      && (LF !in data ==> atEOF && advance == |data|)
  {
    var (advance, tok) := ScanLines(data, atEOF);
    var i := IndexByte(data, LF);
    if i >= 0 {
      assert data[..advance][..advance - 1] == data[..i] && data[i] in data;
    } else {
      assert data[..advance] == data;
    }
  }

  class Scanner {
    const r: Source
    const maxTokenSize: nat
    ghost const limit: nat
    var buf: array<byte>
    var start: nat
    var end: nat
    var err: Option<IoError>
    var token: Option<seq<byte>>
    var empties: nat

    ghost predicate Valid()
      reads this, r
    {
      && start <= end <= buf.Length <= limit
      && (buf.Length >= maxTokenSize ==> buf.Length == limit)
      && maxTokenSize <= limit && (buf.Length < maxTokenSize ==> maxTokenSize == limit)
      && (err == None || err == Some(r.end) || err == Some(TooLong) || err == Some(NoProgress))
      && (err == Some(r.end) ==> r.rest == [])
      && (err == Some(NoProgress) ==> r.maxStalls > MAX_CONSECUTIVE_EMPTY_READS)
      && empties <= MAX_CONSECUTIVE_EMPTY_READS
    }

    /** Everything not yet turned into tokens. */
    ghost function Stream(): seq<byte>
      reads this, r, buf
      requires start <= end <= buf.Length
    {
      buf[start..end] + r.rest
    }

    /** NewScanner, or Buffer(initial, max) before the first Scan. */
    constructor (r: Source, initial: array<byte>, max: nat)
      ensures Valid() && this.r == r && buf == initial && Stream() == r.rest && err == None
      ensures limit == Max(max, initial.Length) && maxTokenSize == max
    {
      this.r, maxTokenSize, limit, buf := r, max, Max(max, initial.Length), initial;
      start, end, err, token, empties := 0, 0, None, None, 0;
    }

    method SetErr(e: IoError)
      modifies this`err
      ensures err == if old(err) == None || old(err) == Some(EOF) then Some(e) else old(err)
    {
      if err == None || err == Some(EOF) { err := Some(e); }
    }

    /** Shift the data to the front if there is much empty space before it, or space is needed. */
    method Shift()
      requires Valid()
      modifies this`start, this`end, buf
      ensures Valid() && buf[start..end] == old(buf[start..end])
      ensures end == buf.Length ==> start == 0
    {
      if start > 0 && (end == buf.Length || start > buf.Length / 2) {
        ghost var was := buf[start..end];
        forall k | 0 <= k < end - start { buf[k] := buf[start + k]; }
        assert buf[..end - start] == was;
        start, end := 0, end - start;
      }
    }

    /** A full buffer doubles, up to maxTokenSize; false if it may not grow. */
    method Resize() returns (ok: bool)
      requires Valid() && (end == buf.Length ==> start == 0)
      modifies this`buf, this`start, this`end
      ensures Valid() && (buf == old(buf) || fresh(buf)) && buf[start..end] == old(buf[start..end])
      ensures ok ==> end < buf.Length
      ensures !ok ==> start == 0 && end == buf.Length == limit
      ensures ok && old(end == buf.Length) ==>
        buf.Length == Min(maxTokenSize, if old(buf.Length) == 0 then START_BUF_SIZE else 2 * old(buf.Length))
      ensures !(ok && old(end == buf.Length)) ==> buf == old(buf)
    {
      if end < buf.Length { return true; }
      if buf.Length >= maxTokenSize { return false; }
      var newSize := buf.Length * 2;
      if newSize == 0 { newSize := START_BUF_SIZE; }
      newSize := Min(newSize, maxTokenSize);
      var newBuf := new byte[newSize](_ => 0);
      forall k | 0 <= k < end - start { newBuf[k] := buf[start + k]; }
      assert newBuf[..end - start] == buf[start..end];
      buf, start, end := newBuf, 0, end - start;
      return true;
    }

    /** `s.r.Read(s.buf[s.end:])`, keeping the bytes delivered. */
    method ReadOnce() returns (n: nat, e: Option<IoError>)
      requires Valid() && err == None && end < buf.Length
      modifies this`end, buf, r
      ensures Valid() && Stream() == old(Stream()) && start == old(start) && end == old(end) + n
      ensures r.rest == old(r.rest)[n..] && n <= |old(r.rest)|
      ensures n == 0 ==> buf[start..end] == old(buf[start..end])
      ensures e == None || (e == Some(r.end) && r.rest == [])
      ensures n == 0 && e == None ==> r.stalls == old(r.stalls) + 1 <= r.maxStalls
    {
      ghost var was, head := buf[start..end], buf[..end];
      n, e := r.Read(buf, end, buf.Length);
      assert buf[..end + n] == head + old(r.rest)[..n];
      assert buf[start..end + n] == buf[..end + n][start..] == was + old(r.rest)[..n];
      end := end + n;
      assert old(r.rest) == old(r.rest)[..n] + r.rest;
      Regroup(was, old(r.rest)[..n], r.rest);
    }

    /** Read some input, giving up after more than 100 empty reads. */
    method Fill()
      requires Valid() && err == None && end < buf.Length
      modifies this`end, this`err, this`empties, buf, r
      ensures Valid() && Stream() == old(Stream()) && err != Some(TooLong)
      ensures err == None ==> |r.rest| < |old(r.rest)|
    {
      ghost var was := buf[start..end];
      var loop := 0;
      while true
        invariant Valid() && err == None && start == old(start) && end == old(end) < buf.Length
        invariant buf[start..end] == was && r.rest == old(r.rest)
        invariant Stream() == old(Stream())
        invariant loop <= MAX_CONSECUTIVE_EMPTY_READS && (loop > 0 ==> loop <= r.stalls <= r.maxStalls)
        decreases MAX_CONSECUTIVE_EMPTY_READS - loop
      {
        var n, e := ReadOnce();
        if e.Some? {
          SetErr(e.value);
          return;
        }
        if n > 0 {
          empties := 0;
          return;
        }
        loop := loop + 1;
        if loop > MAX_CONSECUTIVE_EMPTY_READS {
          SetErr(NoProgress);
          return;
        }
      }
    }

    /** The split attempt at the head of the loop in Scan; true if it produced a token. */
    method Split() returns (found: bool, ghost piece: seq<byte>, ghost ended: bool)
      requires Valid()
      modifies this`start, this`token, this`empties
      ensures Valid() && (found ==> token.Some? && Piece(piece, token.value, ended) && |piece| <= limit)
      ensures found ==> old(Stream()) == piece + Stream() && (!ended ==> err.Some? && start == end)
      ensures !found ==> start == old(start) && token == None
      ensures !found ==> LF !in buf[start..end] && (err.Some? ==> start == end)
    {
      hide ScanLines, IndexByte, Piece;
      ghost var data := buf[start..end];
      var (advance, tok) := ScanLines(buf[start..end], err.Some?);
      found, piece, ended := tok.Some?, data[..advance], LF in data;
      if found {
        ScanLinesPiece(data, err.Some?);
        if err.None? || advance > 0 {
          empties := 0;
        } else {
          assert false;
        }
      }
      start := start + advance;
      assert buf[start..end] == data[advance..] && data == piece + data[advance..];
      Regroup(piece, data[advance..], r.rest);
      token := tok;
    }

    /** `Scan`: the next token, or false at the end of the input or on an error. */
    method Scan() returns (ok: bool, ghost piece: seq<byte>, ghost ended: bool)
      requires Valid()
      modifies this, buf, r
      ensures Valid() && (buf == old(buf) || fresh(buf))
      ensures ok ==> token.Some? && Piece(piece, token.value, ended) && |piece| <= limit
      ensures ok ==> old(Stream()) == piece + Stream() && (!ended ==> err.Some?)
      ensures ok && !ended && err == Some(r.end) ==> Stream() == []
      ensures ok && old(err) != Some(TooLong) ==> err != Some(TooLong)
      ensures !ok ==> err.Some?
      ensures !ok && err == Some(r.end) ==> old(Stream()) == []
      ensures !ok && err == Some(TooLong) && old(err) != Some(TooLong) ==> !Fits(old(Stream()), limit) || limit == 0
      ensures old(err).Some? ==> err == old(err) && r.rest == old(r.rest)
      ensures old(err).Some? || LF in old(buf[start..end]) ==> r.calls == old(r.calls)
      ensures LF in old(buf[start..end]) ==> ok
    {
      hide Fits, Piece;
      piece, ended := [], false;
      while true
        invariant Valid() && (buf == old(buf) || fresh(buf)) && Stream() == old(Stream())
        invariant old(err).Some? ==> err == old(err) && r.rest == old(r.rest)
        invariant old(err) != Some(TooLong) ==> err != Some(TooLong)
        invariant old(err).Some? || LF in old(buf[start..end]) ==>
          r.calls == old(r.calls) && buf[start..end] == old(buf[start..end])
        decreases if err == None then |r.rest| + 1 else 0
      {
        if end > start || err.Some? {
          ok, piece, ended := Split();
          if ok { return true, piece, ended; }
        }
        if err.Some? {
          start, end := 0, 0;
          return false, [], false;
        }
        ok := MakeSpace();
        if !ok {
          SetErr(TooLong);
          return false, [], false;
        }
        Fill();
      }
    }

    /** Shift, then grow if the buffer is still full; false if the first `limit` bytes hold no newline. */
    method MakeSpace() returns (ok: bool)
      requires Valid() && LF !in buf[start..end]
      modifies this`buf, this`start, this`end, buf
      ensures Valid() && (buf == old(buf) || fresh(buf)) && Stream() == old(Stream())
      ensures ok ==> end < buf.Length
      ensures !ok ==> !Fits(Stream(), limit) || limit == 0
    {
      Shift();
      ok := Resize();
      if !ok && limit > 0 {
        assert Stream()[..limit] == buf[start..end];
        LongHead(Stream(), limit);
      }
    }
  }

  /** After `tokens`, `rest` is what is left of the text `all`. */
  ghost predicate Track(all: seq<byte>, tokens: seq<seq<byte>>, rest: seq<byte>, limit: nat) {
    && Lines(all, true) == tokens + Lines(rest, true)
    && (Fits(all, limit) ==> Fits(rest, limit))
    && (BarelyFits(rest, limit) ==> BarelyFits(all, limit))
  }

  lemma TrackStep(all: seq<byte>, tokens: seq<seq<byte>>, limit: nat,
                  piece: seq<byte>, token: seq<byte>, ended: bool, rest: seq<byte>)
    requires Track(all, tokens, piece + rest, limit)
    requires Piece(piece, token, ended) && |piece| <= limit && (!ended ==> rest == [])
    ensures Track(all, tokens + [token], rest, limit)
  {
    hide Lines, Fits, BarelyFits, Piece;
    FirstPiece(piece, token, ended, rest, limit);
    assert tokens + ([token] + Lines(rest, true)) == tokens + [token] + Lines(rest, true);
  }

  lemma TrackStart(all: seq<byte>, limit: nat)
    ensures Track(all, [], all, limit)
  {
    assert [] + Lines(all, true) == Lines(all, true);
  }

  lemma TrackEnd(all: seq<byte>, tokens: seq<seq<byte>>, limit: nat)
    requires Track(all, tokens, [], limit)
    ensures tokens == Lines(all, true) && BarelyFits(all, limit)
  {
    assert tokens + [] == tokens;
  }

  /**
   Scanning a whole input. If the lines fit and the source is not stuck, scanning goes to its end and
   the tokens are exactly the lines, for every chunking. Conversely, whenever it reaches the end
   the tokens are the lines, and each line fitted; only the case of an unterminated last line
   of exactly `limit` bytes depends on how the source reports its end.
  */
  method ScanAll(s: Scanner) returns (tokens: seq<seq<byte>>)
    requires s.Valid() && s.err == None && s.limit > 0
    modifies s, s.buf, s.r
    ensures s.Valid() && s.err.Some?
    ensures s.err == Some(s.r.end) ==> tokens == Lines(old(s.Stream()), true) && BarelyFits(old(s.Stream()), s.limit)
    ensures s.r.maxStalls <= MAX_CONSECUTIVE_EMPTY_READS && Fits(old(s.Stream()), s.limit) ==> s.err == Some(s.r.end)
  {
    hide Lines, Fits, BarelyFits, Piece, Track;
    tokens := [];
    ghost var all := s.Stream();
    TrackStart(all, s.limit);
    while true
      invariant s.Valid() && (s.buf == old(s.buf) || fresh(s.buf)) && s.err != Some(TooLong)
      invariant s.err != Some(NoProgress) ==> Track(all, tokens, s.Stream(), s.limit)
      decreases |s.Stream()|
    {
      ghost var before := s.Stream();
      var ok;
      ghost var piece, ended;
      ok, piece, ended := s.Scan();
      if !ok {
        if s.err == Some(s.r.end) { TrackEnd(all, tokens, s.limit); }
        if s.err == Some(TooLong) { TrackFits(all, tokens, before, s.limit); }
        return;
      }
      PieceNotEmpty(piece, s.token.value, ended);
      if s.err != Some(NoProgress) {
        TrackStep(all, tokens, s.limit, piece, s.token.value, ended, s.Stream());
      }
      tokens := tokens + [s.token.value];
    }
  }

  lemma TrackFits(all: seq<byte>, tokens: seq<seq<byte>>, rest: seq<byte>, limit: nat)
    requires Track(all, tokens, rest, limit) && !Fits(rest, limit)
    ensures !Fits(all, limit)
  {
  }

  lemma PieceNotEmpty(piece: seq<byte>, token: seq<byte>, ended: bool)
    requires Piece(piece, token, ended)
    ensures piece != []
  {
  }
}
