/**
 The buffered reader of bufio/bufio.go. The bytes still to be read are the buffered ones followed
 by what the source holds; every operation takes a prefix of that stream, however the source
 cuts it into chunks.
*/
module BufReader {
  import opened Common
  import opened Streams
  import opened TextLines

  const MIN_READ_BUFFER_SIZE: nat := 16

  class Reader {
    const buf: array<byte>
    const rd: Source
    var r: nat
    var w: nat
    var err: Option<IoError>

    ghost predicate Shape()
      reads this, rd
    {
      && buf.Length >= MIN_READ_BUFFER_SIZE && r <= w <= buf.Length
      && (err == None || err == Some(rd.end) || err == Some(NoProgress))
      && (err == Some(rd.end) ==> rd.rest == [])
      && (err == Some(NoProgress) ==> rd.maxStalls >= MAX_CONSECUTIVE_EMPTY_READS)
    }

    /** Between calls no ErrNoProgress is pending: it is handed out by the call that met it. */
    ghost predicate Valid()
      reads this, rd
    {
      Shape() && err != Some(NoProgress)
    }

    function Buffered(): seq<byte>
      reads this, buf
      requires r <= w <= buf.Length
    {
      buf[r..w]
    }

    /** Everything not yet read. */
    ghost function Stream(): seq<byte>
      reads this, rd, buf
      requires r <= w <= buf.Length
    {
      Buffered() + rd.rest
    }

    constructor (rd: Source, size: nat)
      ensures Valid() && this.rd == rd && fresh(buf) && Stream() == rd.rest
      ensures buf.Length == Max(size, MIN_READ_BUFFER_SIZE)
    {
      this.rd, buf := rd, new byte[Max(size, MIN_READ_BUFFER_SIZE)](_ => 0);
      r, w, err := 0, 0, None;
    }

    /** Slide existing data to the beginning. */
    method Slide()
      requires Shape()
      modifies this, buf
      ensures Shape() && r == 0 && Buffered() == old(Buffered()) && err == old(err)
    {
      if r > 0 {
        ghost var was := Buffered();
        forall k | 0 <= k < w - r { buf[k] := buf[r + k]; }
        assert buf[..w - r] == was;
        r, w := 0, w - r;
      }
    }

    /** `fill`: one non-empty chunk, or an error, behind the buffered bytes. */
    method Fill()
      requires Shape() && w - r < buf.Length && err == None
      modifies this, buf, rd
      ensures Shape() && Stream() == old(Stream()) && old(Buffered()) <= Buffered()
      ensures err == None ==> |Buffered()| > |old(Buffered())|
      ensures err == Some(NoProgress) ==> Buffered() == old(Buffered())
      ensures rd.empties >= old(rd.empties) + if err == Some(NoProgress) then MAX_CONSECUTIVE_EMPTY_READS else 0
    {
      Slide();
      ghost var before := Buffered();
      var i := MAX_CONSECUTIVE_EMPTY_READS;
      while i > 0
        invariant Shape() && err == None && r == 0 && w < buf.Length
        invariant Buffered() == before && rd.rest == old(rd.rest)
        invariant i <= MAX_CONSECUTIVE_EMPTY_READS && (i < MAX_CONSECUTIVE_EMPTY_READS ==>
                    rd.stalls >= MAX_CONSECUTIVE_EMPTY_READS - i && rd.stalls <= rd.maxStalls)
        invariant rd.empties >= old(rd.empties) + MAX_CONSECUTIVE_EMPTY_READS - i
      {
        ghost var rest := rd.rest;
        var n, e := rd.Read(buf, w, buf.Length);
        assert buf[..w + n] == before + rest[..n];
        w := w + n;
        assert Buffered() == before + rest[..n] && rest == rest[..n] + rd.rest;
        Regroup(before, rest[..n], rd.rest);
        if e.Some? {
          err := e;
          return;
        }
        if n > 0 { return; }
        i := i - 1;
      }
      err := Some(NoProgress);
    }

    /** The search of ReadSlice for `delim` in the buffered bytes from offset `s`. */
    method Search(delim: byte, s: nat) returns (i: int)
      requires Shape() && s <= w - r && delim !in Buffered()[..s]
      ensures i == IndexByte(Buffered(), delim)
    {
      i := s;
      ghost var b := Buffered();
      while i < w - r
        invariant s <= i <= w - r && delim !in b[..i]
      {
        if buf[r + i] == delim {
          IndexUnique(b, delim, i);
          return;
        }
        i := i + 1;
      }
      assert b[..i] == b;
      IndexAbsent(b, delim);
      i := -1;
    }

    /** Hands out the first `k` buffered bytes. */
    method Take(k: nat) returns (line: seq<byte>)
      requires Shape() && k <= w - r
      modifies this
      ensures Shape() && line == old(Buffered())[..k] && old(Stream()) == line + Stream() && err == old(err)
      ensures Buffered() == old(Buffered())[k..] && r == old(r) + k && w == old(w)
    {
      ghost var was := Buffered();
      line := buf[r..r + k];
      r := r + k;
      assert Buffered() == was[k..] && was == line + was[k..];
      Regroup(line, Buffered(), rd.rest);
    }

    /** Hands out everything buffered, leaving just what the source still holds. */
    method TakeAll() returns (line: seq<byte>)
      requires Shape()
      modifies this
      ensures Shape() && line == old(Buffered()) && old(Stream()) == line + Stream() && err == old(err)
      ensures Stream() == rd.rest && r == w == old(w)
    {
      line := Take(w - r);
    }

    /** Hands out the buffered bytes through the first `delim`, at `i`. */
    method TakeThrough(delim: byte, i: nat) returns (line: seq<byte>)
      requires Shape() && i < |Buffered()| && IndexByte(Buffered(), delim) == i
      modifies this
      ensures Shape() && old(Stream()) == line + Stream() && err == old(err)
      ensures line != [] && line[|line| - 1] == delim && delim !in line[..|line| - 1]
    {
      ghost var b := Buffered();
      line := Take(i + 1);
      assert b[..i + 1][..i] == b[..i];
    }

    /** Hands out everything buffered together with the pending error, which is cleared. */
    method TakeWithError() returns (line: seq<byte>, e: Option<IoError>)
      requires Shape()
      modifies this
      ensures Shape() && line == old(Buffered()) && old(Stream()) == line + Stream() && Stream() == rd.rest
      ensures e == old(err) && err == None
    {
      line := TakeAll();
      e, err := err, None;
    }

    /** ReadSlice: through the delimiter, or a full buffer without it, or everything before an error. */
    method ReadSlice(delim: byte) returns (line: seq<byte>, e: Option<IoError>)
      requires Valid()
      modifies this, buf, rd
      ensures Valid() && old(Stream()) == line + Stream()
      ensures e == None ==> line != [] && line[|line| - 1] == delim && delim !in line[..|line| - 1]
      ensures e != None ==> delim !in line
      ensures e == Some(BufferFull) ==> |line| == buf.Length && r == w && buf[..r] == line && err == None
      ensures e == Some(rd.end) ==> Stream() == []
      ensures e == Some(NoProgress) ==> rd.maxStalls >= MAX_CONSECUTIVE_EMPTY_READS
      ensures e == None || e == Some(BufferFull) || e == Some(rd.end) || e == Some(NoProgress)
      ensures rd.empties >= old(rd.empties) + if e == Some(NoProgress) then MAX_CONSECUTIVE_EMPTY_READS else 0
      ensures delim in old(Buffered()) ==> e == None && rd.calls == old(rd.calls)
    {
      hide IndexByte, Stream;
      var s := 0;
      while true
        invariant Shape() && Stream() == old(Stream()) && s <= w - r && delim !in Buffered()[..s]
        invariant err == Some(NoProgress) ==> s == w - r
        invariant rd.empties >= old(rd.empties) + if err == Some(NoProgress) then MAX_CONSECUTIVE_EMPTY_READS else 0
        invariant delim in old(Buffered()) ==> rd.calls == old(rd.calls) && Buffered() == old(Buffered())
        decreases if err == None then buf.Length - (w - r) + 1 else 0
      {
        var i := Search(delim, s);
        ghost var b := Buffered();
        assert err == Some(NoProgress) ==> b[..s] == b;
        if i >= 0 {
          line := TakeThrough(delim, i);
          return line, None;
        }
        if err != None {
          line, e := TakeWithError();
          return;
        }
        if w - r >= buf.Length {
          line := TakeAll();
          assert line == buf[..r];
          return line, Some(BufferFull);
        }
        s := w - r;
        Fill();
        assert Buffered()[..s] == b;
      }
    }

    /** The CR at the end of a full buffer is put back: it may be half of a line end. */
    method PutBackCR(line: seq<byte>) returns (rest: seq<byte>)
      requires Valid() && r == w && buf[..r] == line && line != [] && line[|line| - 1] == CR
      modifies this`r
      ensures Valid() && line == rest + [CR] && line + old(Stream()) == rest + Stream()
      ensures Stream() != [] && Stream()[0] == CR
    {
      r := r - 1;
      rest := line[..|line| - 1];
      assert buf[r..w] == [CR];
      Regroup(rest, [CR], rd.rest);
    }

    /** ReadLine: a line without its end, or a fragment of one that does not fit the buffer. */
    method ReadLine() returns (line: seq<byte>, isPrefix: bool, e: Option<IoError>, ghost eol: seq<byte>)
      requires Valid()
      modifies this, buf, rd
      ensures Valid() && old(Stream()) == line + eol + Stream() && LF !in line
      ensures isPrefix ==> e == None && line != [] && eol == [] && buf.Length - 1 <= |line| <= buf.Length
      ensures isPrefix && line[|line| - 1] == CR ==> Stream() != [] && Stream()[0] == CR
      ensures e.Some? ==> !isPrefix && line == [] && eol == []
      ensures e == Some(rd.end) ==> Stream() == []
      ensures e.Some? && e != Some(rd.end) ==> rd.maxStalls >= MAX_CONSECUTIVE_EMPTY_READS
      ensures e == None && !isPrefix ==> LineEnd(line, eol)
      ensures e == None && !isPrefix && eol == [] ==>
        line != [] && (Stream() == [] || rd.maxStalls >= MAX_CONSECUTIVE_EMPTY_READS)
      ensures rd.empties >= old(rd.empties)
        + if e == Some(NoProgress) || (e == None && !isPrefix && eol == [] && Stream() != [])
          then MAX_CONSECUTIVE_EMPTY_READS else 0
      ensures e == None || e == Some(rd.end) || e == Some(NoProgress)
      ensures LF in old(Buffered()) ==> e == None && !isPrefix && eol != [] && rd.calls == old(rd.calls)
    {
      line, e := ReadSlice(LF);
      isPrefix, eol := false, [];
      if e == Some(BufferFull) {
        if |line| > 0 && line[|line| - 1] == CR { line := PutBackCR(line); }
        return line, true, None, eol;
      }
      if |line| == 0 { return; }
      e := None;
      if line[|line| - 1] == LF { line, eol := DropEnd(line); }
    }
  }

  /** The line less the LF or CR LF at its end. */
  method DropEnd(line: seq<byte>) returns (text: seq<byte>, ghost eol: seq<byte>)
    requires line != [] && line[|line| - 1] == LF && LF !in line[..|line| - 1]
    ensures line == text + eol && LF !in text && eol != [] && LineEnd(text, eol)
  {
    var drop := if |line| > 1 && line[|line| - 2] == CR then 2 else 1;
    text, eol := line[..|line| - drop], line[|line| - drop..];
    assert text <= line[..|line| - 1];
  }

  // ---------- ReadBytes ----------

  /** collectFragments: full buffers without the delimiter, then the last fragment. */
  method CollectFragments(b: Reader, delim: byte)
    returns (full: seq<seq<byte>>, frag: seq<byte>, totalLen: nat, e: Option<IoError>)
    requires b.Valid()
    modifies b, b.buf, b.rd
    ensures b.Valid() && old(b.Stream()) == Flatten(full) + frag + b.Stream()
    ensures totalLen == |Flatten(full)| + |frag| && delim !in Flatten(full)
    ensures forall i :: 0 <= i < |full| ==> |full[i]| == b.buf.Length
    ensures e == None ==> frag != [] && frag[|frag| - 1] == delim && delim !in frag[..|frag| - 1]
    ensures e != None ==> delim !in frag && e != Some(BufferFull)
    ensures e == Some(b.rd.end) ==> b.Stream() == []
    ensures e.Some? && e != Some(b.rd.end) ==> b.rd.maxStalls >= MAX_CONSECUTIVE_EMPTY_READS
  {
    full, totalLen := [], 0;
    ghost var all := b.Stream();
    while true
      invariant b.Valid() && all == Flatten(full) + b.Stream()
      invariant totalLen == |Flatten(full)| && delim !in Flatten(full)
      invariant forall i :: 0 <= i < |full| ==> |full[i]| == b.buf.Length
      decreases |b.Stream()|
    {
      frag, e := b.ReadSlice(delim);
      Regroup(Flatten(full), frag, b.Stream());
      if e == None { break; }
      if e != Some(BufferFull) { break; }
      assert (full + [frag])[..|full|] == full;
      full, totalLen := full + [frag], totalLen + |frag|;
    }
    totalLen := totalLen + |frag|;
  }

  /** The prefix of a stream that ReadBytes asks for: through the first delimiter, or all of it. */
  function Through(t: seq<byte>, delim: byte): seq<byte> {
    if IndexByte(t, delim) < 0 then t else t[..IndexByte(t, delim) + 1]
  }

  lemma ThroughIs(head: seq<byte>, tail: seq<byte>, delim: byte)
    requires head != [] && head[|head| - 1] == delim && delim !in head[..|head| - 1]
    ensures Through(head + tail, delim) == head
  {
    assert (head + tail)[..|head| - 1] == head[..|head| - 1];
    IndexUnique(head + tail, delim, |head| - 1);
    assert (head + tail)[..|head|] == head;
  }

  /**
   ReadBytes returns exactly the bytes through the first delimiter; it reports an error exactly
   when what it returns does not end in the delimiter, and the source's own error only with all that was left.
  */
  method ReadBytes(b: Reader, delim: byte) returns (out: seq<byte>, e: Option<IoError>)
    requires b.Valid()
    modifies b, b.buf, b.rd
    ensures b.Valid() && old(b.Stream()) == out + b.Stream()
    ensures e != None <==> out == [] || out[|out| - 1] != delim
    ensures e == None || e == Some(b.rd.end) ==> out == Through(old(b.Stream()), delim)
    ensures e.Some? && e != Some(b.rd.end) ==> b.rd.maxStalls >= MAX_CONSECUTIVE_EMPTY_READS
  {
    var full, frag, n;
    full, frag, n, e := CollectFragments(b, delim);
    ghost var head := Flatten(full) + frag;
    out := Concat(full, frag, n);
    if e == None {
      assert head[..|head| - 1] == Flatten(full) + frag[..|frag| - 1];
      ThroughIs(head, b.Stream(), delim);
    } else {
      assert delim !in head;
      if e == Some(b.rd.end) {
        IndexAbsent(head, delim);
        assert head + [] == head;
      }
    }
  }

  /** The full pieces and the fragment copied into one new buffer. */
  method Concat(full: seq<seq<byte>>, frag: seq<byte>, total: nat) returns (out: seq<byte>)
    requires total == |Flatten(full)| + |frag|
    ensures out == Flatten(full) + frag
  {
    var copy := new byte[total](_ => 0);
    var n := 0;
    assert Flatten(full[..0]) == [];
    for i := 0 to |full|
      invariant n == |Flatten(full[..i])| <= |Flatten(full)| && copy[..n] == Flatten(full[..i])
    {
      assert full[..i + 1][..i] == full[..i];
      FlattenPrefix(full, i + 1);
      forall k | 0 <= k < |full[i]| { copy[n + k] := full[i][k]; }
      n := n + |full[i]|;
    }
    assert full[..|full|] == full;
    forall k | 0 <= k < |frag| { copy[n + k] := frag[k]; }
    out := copy[..];
  }

  lemma {:induction false} FlattenPrefix(parts: seq<seq<byte>>, i: nat)
    requires i <= |parts|
    ensures |Flatten(parts[..i])| <= |Flatten(parts)|
    decreases |parts| - i
  {
    if i < |parts| {
      FlattenPrefix(parts, i + 1);
      assert parts[..i + 1][..i] == parts[..i];
    } else {
      assert parts[..i] == parts;
    }
  }

  // ---------- logical lines ----------

  lemma LinesOfEnded(line: seq<byte>, eol: seq<byte>, rest: seq<byte>)
    requires LF !in line && LineEnd(line, eol) && eol != []
    ensures Lines(line + eol + rest, false) == [line] + Lines(rest, false)
  {
    var t := line + eol + rest;
    var i := |line| + |eol| - 1;
    assert t[..i] == line + eol[..|eol| - 1];
    IndexUnique(t, LF, i);
    assert t[i + 1..] == rest;
    assert DropCR(t[..i]) == line;
  }

  lemma LinesOfLast(line: seq<byte>)
    requires LF !in line && line != []
    ensures Lines(line, false) == [line] && Lines([], false) == []
  {
    IndexAbsent(line, LF);
  }

  predicate EndsInCR(t: seq<byte>) {
    t != [] && t[|t| - 1] == CR
  }

  lemma LineEndAfter(acc: seq<byte>, line: seq<byte>, eol: seq<byte>, rest: seq<byte>)
    requires LineEnd(line, eol)
    requires EndsInCR(acc) ==> line + eol + rest == [] || (line + eol + rest)[0] != LF
    ensures LineEnd(acc + line, eol)
  {
    if eol == [LF] && line == [] && acc != [] {
      assert (line + eol + rest)[0] == LF;
      assert acc + line == acc;
    }
  }

  /** The last fragment `line` of a line completes what was collected in `acc`. */
  lemma LineStep(acc: seq<byte>, line: seq<byte>, eol: seq<byte>, rest: seq<byte>)
    requires LF !in acc && LF !in line && LineEnd(line, eol)
    requires EndsInCR(acc) ==> line + eol + rest == [] || (line + eol + rest)[0] != LF
    requires eol == [] ==> rest == [] && line != []
    ensures Lines(acc + (line + eol + rest), false) == [acc + line] + Lines(rest, false)
  {
    hide Lines, LineEnd, EndsInCR;
    assert acc + (line + eol + rest) == acc + line + eol + rest by {
      Regroup(acc, line + eol, rest);
      Regroup(acc, line, eol);
    }
    if eol == [] {
      assert acc + line + eol + rest == acc + line;
      LinesOfLast(acc + line);
      assert [acc + line] + Lines(rest, false) == [acc + line];
    } else {
      LineEndAfter(acc, line, eol, rest);
      LinesOfEnded(acc + line, eol, rest);
    }
  }

  /** An unfinished long line is a line. */
  function FlushedLines(acc: seq<byte>): seq<seq<byte>> {
    if acc == [] then [] else [acc]
  }

  /**
   From the text `cur` the lines `lines` and the unfinished line `acc` have been read: whatever
   follows, but for the LF of a CR LF that would be cut in two.
  */
  ghost predicate InProgress(cur: seq<byte>, lines: seq<seq<byte>>, acc: seq<byte>) {
    && LF !in acc
    && forall rest: seq<byte> {:trigger Lines(cur + rest, false)} :: (EndsInCR(acc) ==> rest == [] || rest[0] != LF) ==>
         Lines(cur + rest, false) == lines + Lines(acc + rest, false)
  }

  lemma ProgressStart()
    ensures InProgress([], [], [])
  {
  }

  lemma ProgressFragment(cur: seq<byte>, lines: seq<seq<byte>>, acc: seq<byte>, line: seq<byte>)
    requires InProgress(cur, lines, acc) && LF !in line && line != []
    ensures InProgress(cur + line, lines, acc + line)
  {
    hide Lines;
    forall rest: seq<byte> | EndsInCR(acc + line) ==> rest == [] || rest[0] != LF
      ensures Lines(cur + line + rest, false) == lines + Lines(acc + line + rest, false)
    {
      Regroup(cur, line, rest);
      Regroup(acc, line, rest);
      assert (line + rest)[0] == line[0] && line[0] in line;
      assert Lines(cur + (line + rest), false) == lines + Lines(acc + (line + rest), false);
    }
  }

  lemma ProgressLine(cur: seq<byte>, lines: seq<seq<byte>>, acc: seq<byte>, line: seq<byte>, eol: seq<byte>)
    requires InProgress(cur, lines, acc) && LF !in line && LineEnd(line, eol) && eol != []
    requires EndsInCR(acc) ==> (line + eol)[0] != LF
    ensures InProgress(cur + (line + eol), lines + [acc + line], [])
  {
    hide Lines, LineEnd;
    forall rest: seq<byte>
      ensures Lines(cur + (line + eol) + rest, false) == lines + [acc + line] + Lines([] + rest, false)
    {
      var more := line + eol + rest;
      assert more[0] == (line + eol)[0];
      Regroup(cur, line + eol, rest);
      assert Lines(cur + more, false) == lines + Lines(acc + more, false);
      LineStep(acc, line, eol, rest);
      Regroup(lines, [acc + line], Lines(rest, false));
      assert [] + rest == rest;
    }
  }

  /** The text ends here. */
  lemma ProgressEnd(cur: seq<byte>, lines: seq<seq<byte>>, acc: seq<byte>)
    requires InProgress(cur, lines, acc)
    ensures Lines(cur, false) == lines + FlushedLines(acc)
  {
    hide Lines;
    assert cur + [] == cur && acc + [] == acc;
    if acc != [] { LinesOfLast(acc); } else { LinesOfNothing(); }
  }

  lemma LinesOfNothing()
    ensures Lines([], false) == []
  {
  }

  /** The lines of several texts. */
  function AllLines(parts: seq<seq<byte>>): seq<seq<byte>> {
    if parts == [] then [] else AllLines(parts[..|parts| - 1]) + Lines(parts[|parts| - 1], false)
  }

  lemma AllLinesOne(parts: seq<seq<byte>>, part: seq<byte>)
    ensures AllLines(parts + [part]) == AllLines(parts) + Lines(part, false)
    ensures Flatten(parts + [part]) == Flatten(parts) + part
  {
    assert (parts + [part])[..|parts|] == parts;
  }

  /** All but the last of these texts break off in the middle of a line. */
  ghost predicate CutInLines(parts: seq<seq<byte>>) {
    forall k :: 0 <= k < |parts| - 1 ==> parts[k] != [] && parts[k][|parts[k]| - 1] != LF
  }

  /** What has been read from `all`: the finished texts `parts`, and `cur` with its lines; `rest` is to come. */
  ghost predicate Along(all: seq<byte>, lines: seq<seq<byte>>, parts: seq<seq<byte>>, cur: seq<byte>,
                        curLines: seq<seq<byte>>, acc: seq<byte>, rest: seq<byte>) {
    && all == Flatten(parts) + cur + rest && lines == AllLines(parts) + curLines
    && InProgress(cur, curLines, acc)
    && (EndsInCR(acc) ==> rest != [] && rest[0] == CR)
    && (forall k :: 0 <= k < |parts| ==> parts[k] != [] && parts[k][|parts[k]| - 1] != LF)
  }

  lemma AlongStart(all: seq<byte>)
    ensures Along(all, [], [], [], [], [], all)
  {
    assert Flatten([]) + [] + all == all;
  }

  lemma AlongFragment(all: seq<byte>, lines: seq<seq<byte>>, parts: seq<seq<byte>>, cur: seq<byte>,
                      curLines: seq<seq<byte>>, acc: seq<byte>, line: seq<byte>, rest: seq<byte>)
    requires Along(all, lines, parts, cur, curLines, acc, line + rest) && LF !in line && line != []
    requires EndsInCR(line) ==> rest != [] && rest[0] == CR
    ensures Along(all, lines, parts, cur + line, curLines, acc + line, rest)
  {
    hide InProgress, Flatten, AllLines;
    ProgressFragment(cur, curLines, acc, line);
    Regroup(Flatten(parts) + cur, line, rest);
    Regroup(Flatten(parts), cur, line);
  }

  lemma AlongLine(all: seq<byte>, lines: seq<seq<byte>>, parts: seq<seq<byte>>, cur: seq<byte>,
                  curLines: seq<seq<byte>>, acc: seq<byte>, line: seq<byte>, eol: seq<byte>, rest: seq<byte>)
    requires Along(all, lines, parts, cur, curLines, acc, line + eol + rest)
    requires LF !in line && LineEnd(line, eol) && eol != []
    ensures Along(all, lines + [acc + line], parts, cur + (line + eol), curLines + [acc + line], [], rest)
  {
    hide InProgress, Flatten, AllLines, LineEnd;
    assert (line + eol + rest)[0] == (line + eol)[0];
    ProgressLine(cur, curLines, acc, line, eol);
    Regroup(Flatten(parts) + cur, line + eol, rest);
    Regroup(Flatten(parts), cur, line + eol);
    Regroup(AllLines(parts), curLines, [acc + line]);
  }

  /** The line `line` ends without an end: the text breaks off here. */
  lemma AlongCut(all: seq<byte>, lines: seq<seq<byte>>, parts: seq<seq<byte>>, cur: seq<byte>,
                 curLines: seq<seq<byte>>, acc: seq<byte>, line: seq<byte>, rest: seq<byte>)
    requires Along(all, lines, parts, cur, curLines, acc, line + rest) && LF !in line && line != []
    ensures Along(all, lines + [acc + line], parts + [cur + line], [], [], [], rest)
  {
    hide InProgress, Flatten, AllLines;
    ProgressFragment(cur, curLines, acc, line);
    ProgressEnd(cur + line, curLines, acc + line);
    AllLinesOne(parts, cur + line);
    ProgressStart();
    Regroup(Flatten(parts) + cur, line, rest);
    Regroup(Flatten(parts), cur, line);
    Regroup(AllLines(parts), curLines, [acc + line]);
    assert Flatten(parts + [cur + line]) + [] == Flatten(parts + [cur + line]);
    assert AllLines(parts + [cur + line]) + [] == AllLines(parts + [cur + line]);
    assert (cur + line)[|cur + line| - 1] == line[|line| - 1] && line[|line| - 1] in line;
  }

  /** One call of ReadLine: a fragment, a line with its end, or one where the text breaks off. */
  lemma AlongNext(all: seq<byte>, lines: seq<seq<byte>>, parts: seq<seq<byte>>, cur: seq<byte>,
                  curLines: seq<seq<byte>>, acc: seq<byte>, line: seq<byte>, eol: seq<byte>, isPrefix: bool,
                  rest: seq<byte>)
    returns (parts': seq<seq<byte>>, cur': seq<byte>, curLines': seq<seq<byte>>)
    requires Along(all, lines, parts, cur, curLines, acc, line + eol + rest)
    requires LF !in line && (isPrefix || LineEnd(line, eol))
    requires eol == [] ==> line != []
    requires isPrefix ==> eol == [] && (EndsInCR(line) ==> rest != [] && rest[0] == CR)
    ensures isPrefix ==> Along(all, lines, parts', cur', curLines', acc + line, rest)
    ensures !isPrefix ==> Along(all, lines + [acc + line], parts', cur', curLines', [], rest)
    ensures parts' == (if !isPrefix && eol == [] then parts + [cur + line] else parts)
    ensures cur' == if isPrefix then cur + line else if eol == [] then [] else cur + (line + eol)
  {
    hide Along, LineEnd;
    assert line + [] == line;
    parts', curLines' := parts, curLines;
    if isPrefix {
      AlongFragment(all, lines, parts, cur, curLines, acc, line, rest);
      cur' := cur + line;
    } else if eol == [] {
      AlongCut(all, lines, parts, cur, curLines, acc, line, rest);
      parts', cur', curLines' := parts + [cur + line], [], [];
    } else {
      AlongLine(all, lines, parts, cur, curLines, acc, line, eol, rest);
      cur', curLines' := cur + (line + eol), curLines + [acc + line];
    }
  }

  /** What is left unfinished when reading stops. */
  lemma AlongEnd(all: seq<byte>, lines: seq<seq<byte>>, parts: seq<seq<byte>>, cur: seq<byte>,
                 curLines: seq<seq<byte>>, acc: seq<byte>, rest: seq<byte>) returns (texts: seq<seq<byte>>)
    requires Along(all, lines, parts, cur, curLines, acc, rest)
    ensures texts == parts + (if cur == [] then [] else [cur])
    ensures all == Flatten(texts) + rest && lines + FlushedLines(acc) == AllLines(texts) && CutInLines(texts)
  {
    hide InProgress, Flatten, AllLines, FlushedLines;
    ProgressEnd(cur, curLines, acc);
    LinesOfNothing();
    Regroup(AllLines(parts), curLines, FlushedLines(acc));
    texts := parts + (if cur == [] then [] else [cur]);
    if cur == [] {
      assert texts == parts && Flatten(parts) + [] == Flatten(parts) && AllLines(parts) + [] == AllLines(parts);
    } else {
      AllLinesOne(parts, cur);
    }
  }

  /**
   Reading line by line and joining the fragments of long lines gives the lines of the text,
   whatever the buffer size and however the source cuts its data, CR LF split between two
   buffers included. A source that stalls 100 times in a row breaks this: in the middle of a line
   it cuts the text in two there, as if it ended and began anew, and between lines it stops
   the reading. `texts` are the pieces: what is returned are exactly their lines.
  */
  method ReadAllLines(b: Reader) returns (lines: seq<seq<byte>>, e: Option<IoError>, ghost texts: seq<seq<byte>>)
    requires b.Valid()
    modifies b, b.buf, b.rd
    ensures b.Valid() && (e == Some(b.rd.end) || e == Some(NoProgress)) && (e == Some(b.rd.end) ==> b.Stream() == [])
    ensures old(b.Stream()) == Flatten(texts) + b.Stream() && lines == AllLines(texts) && CutInLines(texts)
    ensures MAX_CONSECUTIVE_EMPTY_READS * (|texts| - 1 + if e == Some(NoProgress) then 1 else 0)
            <= b.rd.empties - old(b.rd.empties)
    ensures b.rd.maxStalls < MAX_CONSECUTIVE_EMPTY_READS ==>
      e == Some(b.rd.end) && lines == Lines(old(b.Stream()), false)
  {
    hide Reader.Stream, Lines, LineEnd, InProgress, IndexByte, Along, Flatten, AllLines, CutInLines, FlushedLines;
    lines := [];
    var acc: seq<byte> := [];
    ghost var all, parts, cur, curLines: seq<seq<byte>> := b.Stream(), [], [], [];
    ghost var patient := b.rd.maxStalls < MAX_CONSECUTIVE_EMPTY_READS;
    AlongStart(all);
    assert Counted(parts, cur, all, patient, 0);
    hide Counted;
    while true
      invariant b.Valid() && Along(all, lines, parts, cur, curLines, acc, b.Stream())
      invariant Counted(parts, cur, b.Stream(), patient, b.rd.empties - old(b.rd.empties))
      decreases |b.Stream()|
    {
      var line, isPrefix;
      ghost var eol;
      ghost var stalls := b.rd.empties - old(b.rd.empties);
      line, isPrefix, e, eol := b.ReadLine();
      ghost var rest := b.Stream();
      assert line + [] == line;
      if e.Some? {
        assert line + eol + rest == rest;
        texts := AlongEnd(all, lines, parts, cur, curLines, acc, rest);
        lines := lines + FlushedLines(acc);
        CountEnd(parts, cur, texts, rest, patient, stalls, b.rd.empties - old(b.rd.empties), e == Some(NoProgress));
        return;
      }
      ghost var parts0, cur0 := parts, cur;
      parts, cur, curLines := AlongNext(all, lines, parts, cur, curLines, acc, line, eol, isPrefix, rest);
      CountNext(parts0, cur0, parts, cur, line, eol, rest, patient, stalls, b.rd.empties - old(b.rd.empties));
      if isPrefix {
        acc := acc + line;
      } else {
        lines, acc := lines + [acc + line], [];
      }
    }
  }

  /** How often the text read has broken off: not at its very end. */
  function Breaks(parts: seq<seq<byte>>, cur: seq<byte>, rest: seq<byte>): int {
    if rest == [] && cur == [] then |parts| - 1 else |parts|
  }

  /**
   The account of the breaks: each came with 100 empty reads. A patient source has none, but for the
   end of a text whose last line has no end.
  */
  ghost predicate Counted(parts: seq<seq<byte>>, cur: seq<byte>, rest: seq<byte>, patient: bool, empties: int) {
    && MAX_CONSECUTIVE_EMPTY_READS * Breaks(parts, cur, rest) <= empties
    && (patient && parts != [] ==> |parts| == 1 && cur == [] && rest == [])
  }

  lemma CountNext(parts: seq<seq<byte>>, cur: seq<byte>, parts': seq<seq<byte>>, cur': seq<byte>, line: seq<byte>,
                  eol: seq<byte>, rest: seq<byte>, patient: bool, empties: int, empties': int)
    requires Counted(parts, cur, line + eol + rest, patient, empties) && line + eol != [] && empties <= empties'
    requires || (parts' == parts && cur' != [])
             || (parts' == parts + [cur + line] && cur' == []
                 && (rest != [] ==> !patient && empties' >= empties + MAX_CONSECUTIVE_EMPTY_READS))
    ensures Counted(parts', cur', rest, patient, empties')
  {
    assert line + eol + rest != [] by { assert |line + eol + rest| == |line + eol| + |rest|; }
  }

  lemma CountEnd(parts: seq<seq<byte>>, cur: seq<byte>, texts: seq<seq<byte>>, rest: seq<byte>, patient: bool,
                 empties: int, empties': int, stuck: bool)
    requires Counted(parts, cur, rest, patient, empties) && texts == parts + (if cur == [] then [] else [cur])
    requires empties' >= empties + if stuck then MAX_CONSECUTIVE_EMPTY_READS else 0
    ensures MAX_CONSECUTIVE_EMPTY_READS * (|texts| - 1 + if stuck then 1 else 0) <= empties'
    ensures patient ==> AllLines(texts) == Lines(Flatten(texts), false) && Flatten(texts) + [] == Flatten(texts)
  {
    hide AllLines, Lines, Flatten;
    if patient { OneText(texts); }
  }

  lemma OneText(texts: seq<seq<byte>>)
    requires |texts| <= 1
    ensures AllLines(texts) == Lines(Flatten(texts), false)
  {
    if texts == [] {
      LinesOfNothing();
    } else {
      SingleText(texts[0]);
      hide Lines, AllLines, Flatten;
      assert texts == [texts[0]];
    }
  }

  lemma SingleText(t: seq<byte>)
    ensures AllLines([t]) == Lines(t, false) && Flatten([t]) == t
  {
    hide Lines;
    assert [t][..0] == [];
  }

  /** `eol` ends the line `line`: CR LF, or LF after a line without a final CR, or the end of the input. */
  predicate LineEnd(line: seq<byte>, eol: seq<byte>) {
    || eol == [CR, LF]
    || (eol == [LF] && (line == [] || line[|line| - 1] != CR))
    || eol == []
  }
}
