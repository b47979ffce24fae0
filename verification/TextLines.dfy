/** Lines of text as bufio cuts them: ended by LF, or by CR LF. */
module TextLines {
  import opened Common

  const CR: byte := 13
  const LF: byte := 10

  function DropCR(line: seq<byte>): seq<byte> {
    if line != [] && line[|line| - 1] == CR then line[..|line| - 1] else line
  }

  /**
   The lines of a text without their ends; a last line without an end counts unless it is empty,
   and loses a final CR only if `cutLast`.
  */
  function Lines(t: seq<byte>, cutLast: bool): seq<seq<byte>>
    decreases |t|
  {
    if t == [] then []
    else
      var i := IndexByte(t, LF);
      if i < 0 then [if cutLast then DropCR(t) else t] else [DropCR(t[..i])] + Lines(t[i + 1..], cutLast)
  }

  /** Lines written one after the other, each with CR LF or LF as its end. */
  function Written(lines: seq<seq<byte>>, crlf: seq<bool>): seq<byte>
    requires |crlf| == |lines|
  {
    if lines == [] then [] else lines[0] + (if crlf[0] then [CR, LF] else [LF]) + Written(lines[1..], crlf[1..])
  }

  /** A line that its end does not change: it has no LF, and no CR before a bare LF. */
  predicate Clean(line: seq<byte>, crlf: bool) {
    LF !in line && (crlf || line == [] || line[|line| - 1] != CR)
  }

  /** Lines written with either end are read back as they were, and so is a last line without an end. */
  lemma {:induction false} LinesRoundTrip(lines: seq<seq<byte>>, crlf: seq<bool>, last: seq<byte>, cutLast: bool)
    requires |crlf| == |lines| && LF !in last
    requires forall i :: 0 <= i < |lines| ==> Clean(lines[i], crlf[i])
    ensures Lines(Written(lines, crlf) + last, cutLast)
      == lines + if last == [] then [] else if cutLast && last[|last| - 1] == CR then [last[..|last| - 1]] else [last]
  {
    hide Lines;
    if lines == [] {
      assert [] + last == last && Written(lines, crlf) + last == last;
      LastLine(last, cutLast);
    } else {
      var end := if crlf[0] then [CR, LF] else [LF];
      var rest := Written(lines[1..], crlf[1..]) + last;
      LinesRoundTrip(lines[1..], crlf[1..], last, cutLast);
      Regroup(lines[0] + end, Written(lines[1..], crlf[1..]), last);
      FirstLine(lines[0], crlf[0], rest, cutLast);
      assert lines == [lines[0]] + lines[1..];
    }
  }

  lemma LastLine(last: seq<byte>, cutLast: bool)
    requires LF !in last
    ensures Lines(last, cutLast)
      == if last == [] then [] else if cutLast && last[|last| - 1] == CR then [last[..|last| - 1]] else [last]
  {
    IndexAbsent(last, LF);
  }

  lemma FirstLine(line: seq<byte>, crlf: bool, rest: seq<byte>, cutLast: bool)
    requires Clean(line, crlf)
    ensures Lines(line + (if crlf then [CR, LF] else [LF]) + rest, cutLast) == [line] + Lines(rest, cutLast)
  {
    var t := line + (if crlf then [CR, LF] else [LF]) + rest;
    var i := if crlf then |line| + 1 else |line|;
    assert t[..i] == line + (if crlf then [CR] else []);
    IndexUnique(t, LF, i);
    assert t[i + 1..] == rest;
    assert DropCR(t[..i]) == line by {
      if crlf { assert (line + [CR])[..|line|] == line; } else { assert t[..i] == line; }
    }
  }
}
