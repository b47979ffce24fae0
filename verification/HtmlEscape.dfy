/**
 Escaping and in-place unescaping of HTML text (html/escape.go). `UnescapeString` overwrites
 the buffer it is still reading; the model proves that this computes the same bytes as a
 left-to-right function on the original string, and that it undoes `EscapeString`.
*/
module HtmlEscape {
  import opened Common

  type Text = seq<byte>

  const AMP: byte := 38
  const HASH: byte := 35
  const SEMI: byte := 59
  const RUNE_ERROR := 0xFFFD
  const MAX_RUNE := 0x10FFFF
  const LONGEST_WITHOUT_SEMICOLON: nat := 6

  // ---------- UTF-8 ----------

  predicate Surrogate(x: int) { 0xD800 <= x <= 0xDFFF }

  /** The bytes `utf8.EncodeRune` writes; invalid and negative values encode U+FFFD. */
  function Utf8(x: int): (r: Text)
    ensures 1 <= |r| <= 4
  {
    if 0 <= x < 0x80 then [x]
    else if 0 <= x < 0x800 then [0xC0 + x / 64, 0x80 + x % 64]
    else if x < 0 || x > MAX_RUNE || Surrogate(x) then [0xEF, 0xBF, 0xBD]
    else if x < 0x10000 then [0xE0 + x / 4096, 0x80 + x / 64 % 64, 0x80 + x % 64]
    else [0xF0 + x / 262144, 0x80 + x / 4096 % 64, 0x80 + x / 64 % 64, 0x80 + x % 64]
  }

  method EncodeRune(b: array<byte>, at: nat, x: int) returns (n: nat)
    requires at + |Utf8(x)| <= b.Length
    modifies b
    ensures n == |Utf8(x)| && b[..at + n] == old(b[..at]) + Utf8(x)
    ensures forall k | at + n <= k <= b.Length :: b[k..] == old(b[k..])
  {
    if 0 <= x < 0x80 {
      b[at] := x;
      n := 1;
    } else if 0 <= x < 0x800 {
      b[at], b[at + 1] := 0xC0 + x / 64, 0x80 + x % 64;
      n := 2;
    } else if x < 0 || x > MAX_RUNE || Surrogate(x) {
      b[at], b[at + 1], b[at + 2] := 0xEF, 0xBF, 0xBD;
      n := 3;
    } else if x < 0x10000 {
      b[at], b[at + 1], b[at + 2] := 0xE0 + x / 4096, 0x80 + x / 64 % 64, 0x80 + x % 64;
      n := 3;
    } else {
      b[at], b[at + 1] := 0xF0 + x / 262144, 0x80 + x / 4096 % 64;
      b[at + 2], b[at + 3] := 0x80 + x / 64 % 64, 0x80 + x % 64;
      n := 4;
    }
  }

  // ---------- the entity tables ----------

  /** The maps `entity` and `entity2`; a missing name reads as rune 0. */
  datatype Tables = Tables(entity: map<Text, int>, entity2: map<Text, (int, int)>)
  {
    function One(name: Text): int { if name in entity then entity[name] else 0 }
    function Two(name: Text): (int, int) { if name in entity2 then entity2[name] else (0, 0) }

    /** What the table test of the package demands: no entity is longer than its reference. */
    ghost predicate Compact() {
      && (forall name :: name in entity ==> |Utf8(entity[name])| <= 1 + |name|)
      && (forall name :: name in entity2 ==>
            |Utf8(entity2[name].0)| + |Utf8(entity2[name].1)| <= 1 + |name|)
    }

    /** The three table entries that EscapeString relies on. */
    ghost predicate HasBasics() {
      One([97, 109, 112, SEMI]) == 38 && One([108, 116, SEMI]) == 60 && One([103, 116, SEMI]) == 62
    }
  }

  // ---------- numeric references ----------

  /** A Go `rune` is 32 bits wide: arithmetic wraps into [-2^31, 2^31). */
  function Wrap32(x: int): int {
    (x + 0x8000_0000) % 0x1_0000_0000 - 0x8000_0000
  }

  function Digit(hex: bool, c: byte): Option<int> {
    if 48 <= c <= 57 then Some(c - 48)
    else if hex && 97 <= c <= 102 then Some(c - 87)
    else if hex && 65 <= c <= 70 then Some(c - 55)
    else None
  }

  function Base(hex: bool): int { if hex then 16 else 10 }

  /** The digit loop from position `i` with accumulator `x`: end position and value. */
  function NumScan(s: Text, i: nat, hex: bool, x: int): (r: (nat, int))
    requires i <= |s|
    ensures i <= r.0 <= |s|
    decreases |s| - i
  {
    if i == |s| then (i, x)
    else match Digit(hex, s[i])
      case Some(d) => NumScan(s, i + 1, hex, Wrap32(Base(hex) * x + d))
      case None => if s[i] == SEMI then (i + 1, x) else (i, x)
  }

  const REPLACEMENT: seq<int> := [
    0x20AC, 0x81, 0x201A, 0x192, 0x201E, 0x2026, 0x2020, 0x2021, 0x2C6, 0x2030, 0x160, 0x2039, 0x152, 0x8D,
    0x17D, 0x8F, 0x90, 0x2018, 0x2019, 0x201C, 0x201D, 0x2022, 0x2013, 0x2014, 0x2DC, 0x2122, 0x161, 0x203A,
    0x153, 0x9D, 0x17E, 0x178]

  /** The rune a numeric reference denotes once its digits have been read as `x`. */
  function Fix(x: int): int {
    if 0x80 <= x <= 0x9F then REPLACEMENT[x - 0x80]
    else if x == 0 || Surrogate(x) || x > MAX_RUNE then RUNE_ERROR
    else x
  }

  // ---------- one entity ----------

  predicate Alnum(c: byte) { 97 <= c <= 122 || 65 <= c <= 90 || 48 <= c <= 57 }

  /** End of the run of name characters from `i`, a closing semicolon included. */
  function NameScan(s: Text, i: nat): (r: nat)
    requires i <= |s|
    ensures i <= r <= |s|
    decreases |s| - i
  {
    if i == |s| then i
    else if Alnum(s[i]) then NameScan(s, i + 1)
    else if s[i] == SEMI then i + 1
    else i
  }

  /** The longest proper prefix of at most `j` and at least 2 characters that names an entity; 0 if none. */
  function PrefixMatch(t: Tables, name: Text, j: int): (r: nat)
    requires j <= |name|
    ensures r == 0 || (1 < r <= j && t.One(name[..r]) != 0)
    decreases if j < 0 then 0 else j
  {
    if j <= 1 then 0 else if t.One(name[..j]) != 0 then j else PrefixMatch(t, name, j - 1)
  }

  /** What the reference at the head of `s` becomes, and how many bytes of `s` it takes. */
  function Consume(t: Tables, s: Text): (r: (Text, nat))
    requires s != [] && s[0] == AMP
    ensures 1 <= r.1 <= |s|
  {
    if |s| == 1 then ([AMP], 1)
    else if s[1] == HASH then ConsumeNumeric(s)
    else
      var i := NameScan(s, 1);
      var name := s[1..i];
      if name == [] then (s[..i], i)
      else if t.One(name) != 0 then (Utf8(t.One(name)), i)
      else if t.Two(name).0 != 0 then (Utf8(t.Two(name).0) + Utf8(t.Two(name).1), i)
      else
        var j := PrefixMatch(t, name, Min(|name| - 1, LONGEST_WITHOUT_SEMICOLON));
        if j != 0 then (Utf8(t.One(name[..j])), j + 1) else (s[..i], i)
  }

  function ConsumeNumeric(s: Text): (r: (Text, nat))
    requires |s| > 1 && s[0] == AMP && s[1] == HASH
    ensures 1 <= r.1 <= |s|
  {
    if |s| <= 3 then ([AMP], 1)
    else
      var hex := s[2] == 120 || s[2] == 88;
      var (i, x) := NumScan(s, if hex then 3 else 2, hex, 0);
      if i <= 3 then ([AMP], 1) else (Utf8(Fix(x)), i)
  }

  /** A reference is never shorter than what it becomes. */
  lemma ConsumeShrinks(t: Tables, s: Text)
    requires s != [] && s[0] == AMP && t.Compact()
    ensures |Consume(t, s).0| <= Consume(t, s).1
  {
  }

  /** Unescaping as a function of the whole string. */
  function Unescape(t: Tables, s: Text): Text {
    if s == [] then []
    else if s[0] != AMP then [s[0]] + Unescape(t, s[1..])
    else Consume(t, s).0 + Unescape(t, s[Consume(t, s).1..])
  }

  // ---------- the in-place algorithm ----------

  /** The numeric loop of unescapeEntity. */
  method ScanNumber(s: Text, from: nat, hex: bool) returns (i: nat, x: int)
    requires from <= |s|
    ensures (i, x) == NumScan(s, from, hex, 0)
  {
    i, x := from, 0;
    while i < |s|
      invariant i <= |s| && NumScan(s, from, hex, 0) == NumScan(s, i, hex, x)
    {
      var c := s[i];
      i := i + 1;
      if hex && 97 <= c <= 102 {
        x := Wrap32(16 * x + (c - 97 + 10));
        continue;
      } else if hex && 65 <= c <= 70 {
        x := Wrap32(16 * x + (c - 65 + 10));
        continue;
      } else if 48 <= c <= 57 {
        x := Wrap32((if hex then 16 else 10) * x + (c - 48));
        continue;
      }
      if c != SEMI { i := i - 1; }
      return;
    }
  }

  method ScanName(s: Text) returns (i: nat)
    requires |s| > 1
    ensures i == NameScan(s, 1)
  {
    i := 1;
    while i < |s|
      invariant 1 <= i <= |s| && NameScan(s, 1) == NameScan(s, i)
    {
      var c := s[i];
      i := i + 1;
      if Alnum(c) { continue; }
      if c != SEMI { i := i - 1; }
      return;
    }
  }

  method FindPrefix(t: Tables, name: Text) returns (j: nat)
    requires name != []
    ensures j == PrefixMatch(t, name, Min(|name| - 1, LONGEST_WITHOUT_SEMICOLON))
  {
    j := |name| - 1;
    if j > LONGEST_WITHOUT_SEMICOLON { j := LONGEST_WITHOUT_SEMICOLON; }
    while j > 1
      invariant j <= |name|
      invariant PrefixMatch(t, name, j) == PrefixMatch(t, name, Min(|name| - 1, LONGEST_WITHOUT_SEMICOLON))
    {
      if t.One(name[..j]) != 0 { return; }
      j := j - 1;
    }
    j := 0;
  }

  /** What the buffer looks like after `out` has replaced the reference: written part, cursors, unread part. */
  ghost predicate Written(was: Text, b: Text, dst: nat, src: nat, dst1: nat, src1: nat, out: Text)
  {
    && dst <= dst1 <= src1 && src <= src1 <= |b| && |b| == |was| && dst1 == dst + |out|
    && b[..dst1] == was[..dst] + out && b[src1..] == was[src1..]
  }

  /** One rune replaces the `take` bytes at `src`. */
  method PutRune(b: array<byte>, dst: nat, src: nat, take: nat, x: int) returns (dst1: nat, src1: nat)
    requires dst <= src && src + take <= b.Length && |Utf8(x)| <= take
    modifies b
    ensures src1 == src + take && Written(old(b[..]), b[..], dst, src, dst1, src1, Utf8(x))
  {
    var n := EncodeRune(b, dst, x);
    return dst + n, src + take;
  }

  method PutRunes(b: array<byte>, dst: nat, src: nat, take: nat, x: int, y: int) returns (dst1: nat, src1: nat)
    requires dst <= src && src + take <= b.Length && |Utf8(x)| + |Utf8(y)| <= take
    modifies b
    ensures src1 == src + take && Written(old(b[..]), b[..], dst, src, dst1, src1, Utf8(x) + Utf8(y))
  {
    var n := EncodeRune(b, dst, x);
    var m := EncodeRune(b, dst + n, y);
    return dst + n + m, src + take;
  }

  /** The ampersand stands for itself. */
  method CopyAmp(b: array<byte>, dst: nat, src: nat) returns (dst1: nat, src1: nat)
    requires dst <= src < b.Length && b[src] == AMP
    modifies b
    ensures src1 == src + 1 && Written(old(b[..]), b[..], dst, src, dst1, src1, [AMP])
  {
    b[dst] := b[src];
    return dst + 1, src + 1;
  }

  method UnescapeNumeric(b: array<byte>, dst: nat, src: nat) returns (dst1: nat, src1: nat)
    requires dst <= src < b.Length - 1 && b[src] == AMP && b[src + 1] == HASH
    modifies b
    ensures src1 == src + ConsumeNumeric(old(b[src..])).1
    ensures Written(old(b[..]), b[..], dst, src, dst1, src1, ConsumeNumeric(old(b[src..])).0)
  {
    var s := b[src..];
    if |s| <= 3 {
      dst1, src1 := CopyAmp(b, dst, src);
      return;
    }
    var hex := s[2] == 120 || s[2] == 88;
    hide Utf8, NumScan;
    var i, x := ScanNumber(s, if hex then 3 else 2, hex);
    if i <= 3 {
      dst1, src1 := CopyAmp(b, dst, src);
      return;
    }
    if 0x80 <= x <= 0x9F {
      x := REPLACEMENT[x - 0x80];
    } else if x == 0 || Surrogate(x) || x > MAX_RUNE {
      x := RUNE_ERROR;
    }
    dst1, src1 := PutRune(b, dst, src, i, x);
  }

  method UnescapeNamed(t: Tables, b: array<byte>, dst: nat, src: nat) returns (dst1: nat, src1: nat)
    requires t.Compact() && dst <= src < b.Length - 1 && b[src] == AMP && b[src + 1] != HASH
    modifies b
    ensures src1 == src + Consume(t, old(b[src..])).1
    ensures Written(old(b[..]), b[..], dst, src, dst1, src1, Consume(t, old(b[src..])).0)
  {
    var s := b[src..];
    ghost var was := b[..];
    ConsumeShrinks(t, s);
    hide Utf8, PrefixMatch, NameScan;
    var i := ScanName(s);
    var name := s[1..i];
    if name != [] {
      var x := t.One(name);
      if x != 0 {
        dst1, src1 := PutRune(b, dst, src, i, x);
        return;
      }
      var x2 := t.Two(name);
      if x2.0 != 0 {
        dst1, src1 := PutRunes(b, dst, src, i, x2.0, x2.1);
        return;
      }
      var j := FindPrefix(t, name);
      if j != 0 {
        dst1, src1 := PutRune(b, dst, src, j + 1, t.One(name[..j]));
        return;
      }
    }
    dst1, src1 := Slide(b, dst, src, i);
    assert s[..i] == was[src..src + i];
  }

  /** `copy(b[dst:dst+i], b[src:src+i])`, the ranges possibly overlapping. */
  method Slide(b: array<byte>, dst: nat, src: nat, i: nat) returns (dst1: nat, src1: nat)
    requires dst <= src && src + i <= b.Length
    modifies b
    ensures src1 == src + i && Written(old(b[..]), b[..], dst, src, dst1, src1, old(b[src..src + i]))
  {
    forall k | 0 <= k < i { b[dst + k] := b[src + k]; }
    return dst + i, src + i;
  }

  method UnescapeEntity(t: Tables, b: array<byte>, dst: nat, src: nat) returns (dst1: nat, src1: nat)
    requires t.Compact() && dst <= src < b.Length && b[src] == AMP
    modifies b
    ensures src1 == src + Consume(t, old(b[src..])).1
    ensures Written(old(b[..]), b[..], dst, src, dst1, src1, Consume(t, old(b[src..])).0)
  {
    if b.Length - src <= 1 {
      dst1, src1 := CopyAmp(b, dst, src);
    } else if b[src + 1] == HASH {
      dst1, src1 := UnescapeNumeric(b, dst, src);
    } else {
      dst1, src1 := UnescapeNamed(t, b, dst, src);
    }
  }

  lemma {:induction false} UnescapePlain(t: Tables, s: Text, i: nat)
    requires i <= |s| && AMP !in s[..i]
    ensures Unescape(t, s) == s[..i] + Unescape(t, s[i..])
  {
    if i > 0 {
      assert s[0] == s[..i][0] && s[1..][..i - 1] == s[..i][1..];
      UnescapePlain(t, s[1..], i - 1);
      assert s[1..][i - 1..] == s[i..] && s[..i] == [s[0]] + s[1..][..i - 1];
      Regroup([s[0]], s[1..][..i - 1], Unescape(t, s[i..]));
    }
  }

  /** The buffer splits into finished output before `dst` and text from `src` still to be unescaped. */
  ghost predicate Progress(t: Tables, b: Text, s: Text, dst: nat, src: nat) {
    && dst <= src <= |s| == |b|
    && b[src..] == s[src..]
    && b[..dst] + Unescape(t, s[src..]) == Unescape(t, s)
  }

  /** `copy(b[dst:], s[src:src+i])`: plain text moves over from the original string. */
  method CopyText(t: Tables, b: array<byte>, s: Text, dst: nat, src: nat, i: nat) returns (dst1: nat, src1: nat)
    requires Progress(t, b[..], s, dst, src) && src + i <= |s| && AMP !in s[src..][..i]
    modifies b
    ensures src1 == src + i && Progress(t, b[..], s, dst1, src1)
  {
    hide Unescape;
    ghost var done, rest := b[..dst], s[src..];
    UnescapePlain(t, rest, i);
    forall k | 0 <= k < i { b[dst + k] := s[src + k]; }
    dst1, src1 := dst + i, src + i;
    assert rest[i..] == s[src1..] && b[src1..] == s[src1..];
    assert b[..dst1] == done + rest[..i];
    Regroup(done, rest[..i], Unescape(t, s[src1..]));
  }

  method EntityStep(t: Tables, b: array<byte>, s: Text, dst: nat, src: nat) returns (dst1: nat, src1: nat)
    requires t.Compact() && Progress(t, b[..], s, dst, src) && src < |s| && s[src] == AMP
    modifies b
    ensures src1 > src && Progress(t, b[..], s, dst1, src1)
  {
    hide Unescape, Consume;
    ghost var was := b[..];
    assert was[src..] == s[src..] && was[src..][0] == s[src..][0];
    dst1, src1 := UnescapeEntity(t, b, dst, src);
    EntityProgress(t, was, b[..], s, dst, src, dst1, src1);
  }

  lemma EntityProgress(t: Tables, was: Text, b: Text, s: Text, dst: nat, src: nat, dst1: nat, src1: nat)
    requires Progress(t, was, s, dst, src) && src < |s| && s[src] == AMP
    requires src1 == src + Consume(t, s[src..]).1
    requires Written(was, b, dst, src, dst1, src1, Consume(t, s[src..]).0)
    ensures Progress(t, b, s, dst1, src1)
  {
    hide Consume;
    var rest, out := s[src..], Consume(t, s[src..]).0;
    assert rest[src1 - src..] == s[src1..];
    assert Unescape(t, rest) == out + Unescape(t, s[src1..]);
    Regroup(was[..dst], out, Unescape(t, s[src1..]));
    assert was[src1..] == was[src..][src1 - src..];
  }

  /** `UnescapeString`: the buffer is overwritten behind the read cursor, never ahead of it. */
  method UnescapeString(t: Tables, s: Text) returns (r: Text)
    requires t.Compact()
    ensures r == Unescape(t, s)
  {
    var i := IndexByte(s, AMP);
    if i < 0 {
      UnescapePlain(t, s, |s|);
      return s;
    }
    var b := new byte[|s|](k requires 0 <= k < |s| => s[k]);
    assert b[..] == s;
    UnescapePlain(t, s, i);
    var dst, src := EntityStep(t, b, s, i, i);
    while |s[src..]| > 0
      invariant Progress(t, b[..], s, dst, src)
    {
      if s[src] == AMP { i := 0; } else { i := IndexByte(s[src..], AMP); }
      if i < 0 {
        dst, src := CopyText(t, b, s, dst, src, |s| - src);
        break;
      }
      dst, src := CopyText(t, b, s, dst, src, i);
      dst, src := EntityStep(t, b, s, dst, src);
    }
    r := b[..dst];
  }

  // ---------- escaping ----------

  /** The replacements of `htmlEscaper`. */
  function EscapeByte(c: byte): (r: Text)
    ensures r != []
  {
    if c == 38 then [AMP, 97, 109, 112, SEMI]
    else if c == 39 then [AMP, HASH, 51, 57, SEMI]
    else if c == 60 then [AMP, 108, 116, SEMI]
    else if c == 62 then [AMP, 103, 116, SEMI]
    else if c == 34 then [AMP, HASH, 51, 52, SEMI]
    else [c]
  }

  function EscapeString(s: Text): Text {
    if s == [] then [] else EscapeByte(s[0]) + EscapeString(s[1..])
  }

  /** The characters <, >, &, ' and ". */
  const SPECIALS: set<byte> := {34, 38, 39, 60, 62}

  /** Each of the five is escaped: the sequence is consumed whole and gives its byte back, whatever text follows. */
  lemma EscapedByteConsumed(t: Tables, c: byte, rest: Text)
    requires t.HasBasics() && c in SPECIALS
    ensures var s := EscapeByte(c) + rest;
      s[0] == AMP && Consume(t, s) == ([c], |EscapeByte(c)|) && EscapeByte(c) != [c]
  {
    var e := EscapeByte(c);
    var s := e + rest;
    if e[1] == HASH {
      assert NumScan(s, 4, false, c) == (5, c);
      assert NumScan(s, 3, false, 3) == NumScan(s, 4, false, c);
      assert NumScan(s, 2, false, 0) == NumScan(s, 3, false, 3);
    } else if c == 38 {
      assert NameScan(s, 4) == 5;
      assert NameScan(s, 1) == NameScan(s, 2) == NameScan(s, 3) == NameScan(s, 4);
      assert s[1..5] == [97, 109, 112, SEMI];
    } else {
      assert NameScan(s, 3) == 4;
      assert NameScan(s, 1) == NameScan(s, 2) == NameScan(s, 3);
      assert s[1..4] == e[1..4];
    }
  }

  /** UnescapeString(EscapeString(s)) == s for every byte string. */
  lemma {:induction false} EscapeRoundTrip(t: Tables, s: Text)
    requires t.HasBasics()
    ensures Unescape(t, EscapeString(s)) == s
  {
    if s != [] {
      var e, rest := EscapeByte(s[0]), EscapeString(s[1..]);
      EscapeRoundTrip(t, s[1..]);
      if s[0] in SPECIALS {
        EscapedByteConsumed(t, s[0], rest);
      }
      assert (e + rest)[|e|..] == rest;
    }
  }

  /** The round trip through the buffer that is unescaped in place. */
  method EscapeThenUnescape(t: Tables, s: Text) returns (r: Text)
    requires t.Compact() && t.HasBasics()
    ensures r == s
  {
    EscapeRoundTrip(t, s);
    r := UnescapeString(t, EscapeString(s));
  }

  // ---------- named references ----------

  lemma {:induction false} NameRun(s: Text, i: nat, n: nat)
    requires i + n <= |s| && forall k :: i <= k < i + n ==> Alnum(s[k])
    ensures NameScan(s, i) == NameScan(s, i + n)
    decreases n
  {
    if n > 0 { NameRun(s, i + 1, n - 1); }
  }

  /** The prefix taken is the longest that names an entity, of 2 up to `j` characters. */
  lemma {:induction false} LongestPrefix(t: Tables, name: Text, j: int, k: nat)
    requires j <= |name| && 2 <= k <= j && t.One(name[..k]) != 0
    ensures k <= PrefixMatch(t, name, j)
    decreases j
  {
    if t.One(name[..j]) == 0 { LongestPrefix(t, name, j - 1, k); }
  }

  /**
   A name, its semicolon included if there is one, becomes its one or two runes; an unknown one
   becomes the rune of the longest proper prefix of at most six characters that is known, followed
   by the rest of the name, or stays as it is if there is no such prefix.
  */
  lemma NamedReferenceValue(t: Tables, w: Text, closed: bool, rest: Text)
    requires (w != [] || closed) && forall i :: 0 <= i < |w| ==> Alnum(w[i])
    requires closed || rest == [] || (!Alnum(rest[0]) && rest[0] != SEMI)
    ensures var name := w + (if closed then [SEMI] else []);
      var s, n := [AMP] + name + rest, |name|;
      && s[0] == AMP
      && (t.One(name) != 0 ==> Consume(t, s) == (Utf8(t.One(name)), n + 1))
      && (t.One(name) == 0 && t.Two(name).0 != 0 ==>
            Consume(t, s) == (Utf8(t.Two(name).0) + Utf8(t.Two(name).1), n + 1))
      && (t.One(name) == 0 && t.Two(name).0 == 0 ==>
            if exists k: nat :: StandsAlone(t, name, k)
            then exists k: nat :: StandsAlone(t, name, k) && (forall l: nat :: StandsAlone(t, name, l) ==> l <= k)
                             && Consume(t, s) == (Utf8(t.One(name[..k])), k + 1)
            else Consume(t, s) == ([AMP] + name, n + 1))
  {
    hide Utf8, PrefixMatch;
    var name := w + (if closed then [SEMI] else []);
    var s, n := [AMP] + name + rest, |name|;
    NameEnds(w, closed, rest);
    assert s[1..n + 1] == name && s[..n + 1] == [AMP] + name;
    assert s[1] != HASH by { assert s[1] == name[0]; }
    var j := Min(n - 1, LONGEST_WITHOUT_SEMICOLON);
    var r := PrefixMatch(t, name, j);
    forall k: nat | StandsAlone(t, name, k) ensures k <= r { LongestPrefix(t, name, j, k); }
    if r != 0 { assert StandsAlone(t, name, r); }
  }

  /** An ampersand that begins no reference stands for itself. */
  lemma LoneAmpersand(t: Tables, rest: Text)
    requires rest == [] || (!Alnum(rest[0]) && rest[0] != SEMI && rest[0] != HASH)
    ensures ([AMP] + rest)[0] == AMP && Consume(t, [AMP] + rest) == ([AMP], 1)
  {
    var s := [AMP] + rest;
    NameEnds([], false, rest);
    assert [AMP] + [] + rest == s && s[1..1] == [] && s[..1] == [AMP];
    assert rest != [] ==> s[1] == rest[0];
  }

  /** The scan of a name stops behind it, and behind its semicolon. */
  lemma NameEnds(w: Text, closed: bool, rest: Text)
    requires forall i :: 0 <= i < |w| ==> Alnum(w[i])
    requires closed || rest == [] || (!Alnum(rest[0]) && rest[0] != SEMI)
    ensures var name := w + (if closed then [SEMI] else []);
      NameScan([AMP] + name + rest, 1) == |name| + 1
  {
    var name := w + (if closed then [SEMI] else []);
    var s := [AMP] + name + rest;
    assert forall k :: 1 <= k < 1 + |w| ==> s[k] == w[k - 1];
    NameRun(s, 1, |w|);
    if closed { assert s[|w| + 1] == SEMI; } else if rest != [] { assert s[|w| + 1] == rest[0]; }
  }

  /** The first `k` characters of the name, fewer than all, name an entity of their own. */
  ghost predicate StandsAlone(t: Tables, name: Text, k: nat) {
    2 <= k <= Min(|name| - 1, LONGEST_WITHOUT_SEMICOLON) && t.One(name[..k]) != 0
  }

  // ---------- numeric references against their mathematical value ----------

  predicate AllDigits(hex: bool, ds: Text) {
    forall i :: 0 <= i < |ds| ==> Digit(hex, ds[i]).Some?
  }

  /** The number a digit string denotes, without any bound. */
  function Value(hex: bool, ds: Text): int
    requires AllDigits(hex, ds)
  {
    if ds == [] then 0 else Base(hex) * Value(hex, ds[..|ds| - 1]) + Digit(hex, ds[|ds| - 1]).value
  }

  lemma WrapStep(hex: bool, v: int, d: int)
    ensures Wrap32(Base(hex) * Wrap32(v) + d) == Wrap32(Base(hex) * v + d)
  {
    var k := (v + 0x8000_0000) / 0x1_0000_0000;
    assert v == Wrap32(v) + k * 0x1_0000_0000;
    assert Base(hex) * v + d == Base(hex) * Wrap32(v) + d + (Base(hex) * k) * 0x1_0000_0000;
    WrapPeriod(Base(hex) * Wrap32(v) + d, Base(hex) * k);
  }

  lemma WrapPeriod(x: int, k: int)
    ensures Wrap32(x + k * 0x1_0000_0000) == Wrap32(x)
  {
  }

  /** The scan accumulates the value of the digits, wrapped to 32 bits. */
  lemma {:induction false} ScanValue(s: Text, from: nat, hex: bool, ds: Text, n: nat)
    requires from + |ds| <= |s| && s[from..from + |ds|] == ds && AllDigits(hex, ds) && n <= |ds|
    ensures AllDigits(hex, ds[..n])
    ensures NumScan(s, from, hex, 0) == NumScan(s, from + n, hex, Wrap32(Value(hex, ds[..n])))
  {
    if n > 0 {
      ScanValue(s, from, hex, ds, n - 1);
      assert ds[..n][..n - 1] == ds[..n - 1];
      assert s[from + n - 1] == s[from..from + |ds|][n - 1];
      WrapStep(hex, Value(hex, ds[..n - 1]), Digit(hex, ds[n - 1]).value);
    }
  }

  /** A numeric reference, decimal or marked as hexadecimal by x or X, with or without its semicolon. */
  function NumericReference(mark: Text, ds: Text, closed: bool): Text {
    [AMP, HASH] + mark + ds + (if closed then [SEMI] else [])
  }

  /** What follows the reference does not belong to it. */
  predicate Follows(mark: Text, ds: Text, closed: bool, rest: Text) {
    && (mark == [] || mark == [120] || mark == [88]) && AllDigits(mark != [], ds)
    && (closed || rest == [] || (Digit(mark != [], rest[0]).None? && rest[0] != SEMI))
    && (mark == [] && ds == [] && !closed && rest != [] ==> rest[0] != 120 && rest[0] != 88)
  }

  /**
   What becomes of a numeric reference of any digits, closed or not: the rune of its value, which
   wraps at 32 bits first, or just the ampersand if the reference has at most three characters.
  */
  lemma NumericReferenceValue(t: Tables, mark: Text, ds: Text, closed: bool, rest: Text)
    requires Follows(mark, ds, closed, rest)
    ensures var ref := NumericReference(mark, ds, closed);
      var s := ref + rest;
      && s[0] == AMP
      && Consume(t, s) == if |ref| > 3 then (Utf8(Fix(Wrap32(Value(mark != [], ds)))), |ref|) else ([AMP], 1)
  {
    var ref := NumericReference(mark, ds, closed);
    var s := ref + rest;
    ScanEnds(mark, ds, closed, rest);
    assert s[1] == HASH;
    hide Utf8, Fix, NumScan, Value, Wrap32, Digit;
    if |s| > 3 && mark == [] { DecimalMark(ds, closed, rest); }
  }

  /** The scan stops behind the reference. */
  lemma ScanEnds(mark: Text, ds: Text, closed: bool, rest: Text)
    requires Follows(mark, ds, closed, rest)
    ensures var ref := NumericReference(mark, ds, closed);
      NumScan(ref + rest, if mark != [] then 3 else 2, mark != [], 0) == (|ref|, Wrap32(Value(mark != [], ds)))
  {
    var ref := NumericReference(mark, ds, closed);
    var s := ref + rest;
    var from := if mark != [] then 3 else 2;
    var at := from + |ds|;
    assert s[from..at] == ds && ds[..|ds|] == ds;
    ScanValue(s, from, mark != [], ds, |ds|);
    if closed {
      assert s[at] == SEMI;
    } else if rest != [] {
      assert s[at] == rest[0];
    }
  }

  lemma DecimalMark(ds: Text, closed: bool, rest: Text)
    requires Follows([], ds, closed, rest) && |NumericReference([], ds, closed) + rest| > 2
    ensures var c := (NumericReference([], ds, closed) + rest)[2]; c != 120 && c != 88
  {
    var s := NumericReference([], ds, closed) + rest;
    if ds != [] { assert s[2] == ds[0]; } else if closed { assert s[2] == SEMI; } else { assert s[2] == rest[0]; }
  }

  /**
   The code means to replace a reference exactly when it has digits. It does, but for two kinds: a
   decimal one of one digit without semicolon stays, and a hexadecimal one of none but with
   a semicolon becomes U+FFFD.
  */
  lemma DigitsReplacedIff(t: Tables, mark: Text, ds: Text, closed: bool, rest: Text)
    requires Follows(mark, ds, closed, rest)
    ensures var s := NumericReference(mark, ds, closed) + rest;
      && s[0] == AMP
      && ((Consume(t, s) != ([AMP], 1) <==> ds != [])
          <==> !(mark == [] && |ds| == 1 && !closed) && !(mark != [] && ds == [] && closed))
  {
    NumericReferenceValue(t, mark, ds, closed, rest);
  }

  /** &#9x stays as it is. */
  lemma OneDigitKept(t: Tables)
    ensures Consume(t, [AMP, HASH, 57, 120]) == ([AMP], 1)
  {
    NumericReferenceValue(t, [], [57], false, [120]);
    assert NumericReference([], [57], false) + [120] == [AMP, HASH, 57, 120];
  }

  /** &#x; becomes U+FFFD. */
  lemma NoDigitReplaced(t: Tables)
    ensures Consume(t, [AMP, HASH, 120, SEMI]) == (Utf8(RUNE_ERROR), 4)
  {
    NumericReferenceValue(t, [120], [], true, []);
    assert NumericReference([120], [], true) + [] == [AMP, HASH, 120, SEMI];
  }

  lemma WrapRange(v: int, k: int)
    requires 0 <= v - k * 0x1_0000_0000 < 0x1_0000_0000
    ensures var low := v - k * 0x1_0000_0000;
      low == v % 0x1_0000_0000 && Wrap32(v) == if low < 0x8000_0000 then low else low - 0x1_0000_0000
  {
    WrapPeriod(v - k * 0x1_0000_0000, k);
  }

  /** For values up to 2^31 - 1 this is the replacement rule of the HTML standard. */
  lemma SmallReferencesExact(t: Tables, mark: Text, ds: Text, closed: bool, rest: Text)
    requires Follows(mark, ds, closed, rest) && |NumericReference(mark, ds, closed)| > 3
    requires 0 <= Value(mark != [], ds) < 0x8000_0000
    ensures var s := NumericReference(mark, ds, closed) + rest;
      s[0] == AMP && Consume(t, s).0 == Utf8(Fix(Value(mark != [], ds)))
  {
    hide Consume, Utf8, Fix, Value, Wrap32, AllDigits, NumericReference;
    NumericReferenceValue(t, mark, ds, closed, rest);
    WrapRange(Value(mark != [], ds), 0);
  }

  /** Which 32-bit values come out as U+FFFD. */
  lemma ErrorRunes(low: int)
    requires 0 <= low < 0x1_0000_0000
    ensures Utf8(Fix(if low < 0x8000_0000 then low else low - 0x1_0000_0000)) == Utf8(RUNE_ERROR)
            <==> low == 0 || Surrogate(low) || low == RUNE_ERROR || low > MAX_RUNE
  {
    var x := if low < 0x8000_0000 then low else low - 0x1_0000_0000;
    assert forall k :: 0 <= k < |REPLACEMENT| ==> 0 < REPLACEMENT[k] < 0xD800;
    Utf8OfError(Fix(x));
  }

  lemma Utf8OfError(x: int)
    ensures Utf8(x) == Utf8(RUNE_ERROR) <==> x < 0 || x > MAX_RUNE || Surrogate(x) || x == RUNE_ERROR
  {
    if 0x800 <= x < 0x10000 && !Surrogate(x) && Utf8(x) == Utf8(RUNE_ERROR) {
      assert Utf8(x)[0] == 0xEF && Utf8(x)[1] == 0xBF && Utf8(x)[2] == 0xBD;
    }
  }

  /** A value beyond U+10FFFF takes several digits. */
  lemma HugeIsLong(hex: bool, ds: Text)
    requires AllDigits(hex, ds) && Value(hex, ds) > MAX_RUNE
    ensures |ds| >= 2
  {
  }

  /**
   A value beyond U+10FFFF must give U+FFFD. The code does so exactly when its low 32 bits are
   themselves no encodable code point other than U+FFFD.
  */
  lemma HugeReferenceIff(t: Tables, mark: Text, ds: Text, closed: bool, rest: Text)
    requires Follows(mark, ds, closed, rest) && Value(mark != [], ds) > MAX_RUNE
    ensures var s, low := NumericReference(mark, ds, closed) + rest, Value(mark != [], ds) % 0x1_0000_0000;
      s[0] == AMP &&
      (Consume(t, s).0 == Utf8(RUNE_ERROR) <==> low == 0 || Surrogate(low) || low == RUNE_ERROR || low > MAX_RUNE)
  {
    var v := Value(mark != [], ds);
    HugeIsLong(mark != [], ds);
    assert |NumericReference(mark, ds, closed)| > 3;
    hide Consume, Utf8, Fix, Value, Wrap32, AllDigits, NumericReference;
    NumericReferenceValue(t, mark, ds, closed, rest);
    WrapRange(v, v / 0x1_0000_0000);
    ErrorRunes(v % 0x1_0000_0000);
  }

  lemma ValueSnoc(hex: bool, ds: Text, c: byte)
    requires AllDigits(hex, ds) && Digit(hex, c).Some?
    ensures AllDigits(hex, ds + [c]) && Value(hex, ds + [c]) == Base(hex) * Value(hex, ds) + Digit(hex, c).value
  {
    assert (ds + [c])[..|ds|] == ds;
  }

  /** One more hexadecimal digit. */
  lemma Append(ds: Text, c: byte, v: int) returns (more: Text)
    requires AllDigits(true, ds) && Value(true, ds) == v && Digit(true, c).Some?
    ensures more == ds + [c] && AllDigits(true, more) && Value(true, more) == 16 * v + Digit(true, c).value
  {
    more := ds + [c];
    ValueSnoc(true, ds, c);
  }

  /** One input for which it does not: &#x100000041; becomes the letter A. */
  lemma HugeReferenceExample(t: Tables) returns (ds: Text)
    ensures ds == [49, 48, 48, 48, 48, 48, 48, 52, 49] && AllDigits(true, ds)
    ensures Value(true, ds) == 0x1_0000_0041 > MAX_RUNE
    ensures Consume(t, [AMP, HASH, 120] + ds + [SEMI]) == ([65], 13)
  {
    ds := Append([], 49, 0);
    hide Value, AllDigits;
    ds := Append(ds, 48, 1);
    ds := Append(ds, 48, 16);
    ds := Append(ds, 48, 0x100);
    ds := Append(ds, 48, 0x1000);
    ds := Append(ds, 48, 0x1_0000);
    ds := Append(ds, 48, 0x10_0000);
    ds := Append(ds, 52, 0x100_0000);
    ds := Append(ds, 49, 0x1000_0004);
    LetterA(t, ds);
  }

  lemma LetterA(t: Tables, ds: Text)
    requires |ds| == 9 && AllDigits(true, ds) && Value(true, ds) == 0x1_0000_0041
    ensures Consume(t, [AMP, HASH, 120] + ds + [SEMI]) == ([65], 13)
  {
    hide Consume, Value, AllDigits, Wrap32, Fix, Utf8, Digit;
    NumericReferenceValue(t, [120], ds, true, []);
    assert NumericReference([120], ds, true) + [] == [AMP, HASH, 120] + ds + [SEMI];
    WrapsToA();
  }

  lemma WrapsToA()
    ensures Wrap32(0x1_0000_0041) == 65 && Fix(65) == 65 && Utf8(65) == [65]
  {
  }
}
