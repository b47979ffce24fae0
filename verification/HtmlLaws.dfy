/**
 What HTML escaping and unescaping mean to a caller: which bytes are escaped and what they turn
 into, and which text a reference becomes, against UTF-8 as its readers decode it.
*/
module HtmlLaws {
  import opened Common
  import opened HtmlEscape

  // ---------- what escaping does ----------

  /** What an ampersand in escaped text must be: the start of a reference to one of the five. */
  ghost predicate EscapesSpecial(t: Tables, s: Text) {
    && s != [] && s[0] == AMP
    && exists c: byte :: c in SPECIALS && Consume(t, s).0 == [c]
  }

  /** The byte at the head of `s` is none of <, >, ' and ", and if it is & it begins a reference. */
  ghost predicate SafeHead(t: Tables, s: Text) {
    s != [] && (s[0] !in SPECIALS || EscapesSpecial(t, s))
  }

  /**
   Escaped text is free of <, >, ' and ", and every & in it begins a reference to one of the five
   characters, so that nothing in it is taken for markup.
  */
  lemma {:induction false} EscapedIsSafe(t: Tables, s: Text)
    requires t.HasBasics()
    ensures forall i {:trigger EscapeString(s)[i..]} :: 0 <= i < |EscapeString(s)| ==> SafeHead(t, EscapeString(s)[i..])
  {
    if s != [] {
      var e, rest := EscapeByte(s[0]), EscapeString(s[1..]);
      var r := e + rest;
      EscapedIsSafe(t, s[1..]);
      hide SafeHead;
      forall i | 0 <= i < |r| ensures SafeHead(t, r[i..]) {
        if i >= |e| {
          var j := i - |e|;
          assert r[i..] == rest[j..] && SafeHead(t, rest[j..]);
        } else {
          EscapedHead(t, s[0], rest, i);
        }
      }
    }
  }

  lemma EscapedHead(t: Tables, c: byte, rest: Text, i: nat)
    requires t.HasBasics() && i < |EscapeByte(c)|
    ensures SafeHead(t, (EscapeByte(c) + rest)[i..])
  {
    if c in SPECIALS { EscapedByteConsumed(t, c, rest); }
    var r := EscapeByte(c) + rest;
    assert r[0..] == r && r[i..][0] == EscapeByte(c)[i];
  }

  /** Nothing else is changed: a text stays as it is exactly when it has none of the five characters. */
  lemma {:induction false} EscapeUnchangedIff(s: Text)
    ensures EscapeString(s) == s <==> forall c :: c in s ==> c !in SPECIALS
    ensures |EscapeString(s)| >= |s|
  {
    if s != [] {
      var e, rest := EscapeByte(s[0]), s[1..];
      EscapeUnchangedIff(rest);
      assert s == [s[0]] + rest;
      if s[0] in SPECIALS {
        assert |EscapeString(s)| > |s|;
      } else {
        assert EscapeString(s) == [s[0]] + EscapeString(rest);
        if EscapeString(s) == s { assert EscapeString(rest) == ([s[0]] + EscapeString(rest))[1..] == rest; }
      }
    }
  }

  /** Escaping works character by character. */
  lemma {:induction false} EscapeConcat(a: Text, b: Text)
    ensures EscapeString(a + b) == EscapeString(a) + EscapeString(b)
  {
    if a == [] {
      assert a + b == b;
    } else {
      EscapeConcat(a[1..], b);
      hide EscapeByte;
      assert (a + b)[1..] == a[1..] + b;
      Regroup(EscapeByte(a[0]), EscapeString(a[1..]), EscapeString(b));
    }
  }

  /** What the five become: &lt; &gt; &amp; &#39; and &#34;, in this order. */
  lemma EscapedFive()
    ensures EscapeString([60, 62, 38, 39, 34]) ==
      [38, 108, 116, 59] + [38, 103, 116, 59] + [38, 97, 109, 112, 59] + [38, 35, 51, 57, 59] + [38, 35, 51, 52, 59]
  {
    EscapeConcat([60, 62, 38, 39], [34]);
    EscapeConcat([60, 62, 38], [39]);
    EscapeConcat([60, 62], [38]);
    EscapeConcat([60], [62]);
    assert [60, 62, 38, 39, 34] == [60] + [62] + [38] + [39] + [34];
  }

  // ---------- UTF-8 as its readers see it ----------

  predicate Tail(c: byte) {
    0x80 <= c <= 0xBF
  }

  /** The bits of `c` above the marker `tag`. */
  function Bits(c: byte, tag: int): int {
    c - tag
  }

  /** The character at the head of `s` by the grammar in section 4 of RFC 3629, and its length. */
  function Decode(s: Text): Option<(int, nat)> {
    if s == [] then None
    else if s[0] < 0x80 then Some((s[0], 1))
    else if 0xC2 <= s[0] <= 0xDF && |s| >= 2 && Tail(s[1]) then Some((64 * Bits(s[0], 0xC0) + Bits(s[1], 0x80), 2))
    else if 0xE0 <= s[0] <= 0xEF && |s| >= 3 && Tail(s[1]) && Tail(s[2])
            && (s[0] == 0xE0 ==> s[1] >= 0xA0) && (s[0] == 0xED ==> s[1] <= 0x9F)
    then Some((4096 * Bits(s[0], 0xE0) + 64 * Bits(s[1], 0x80) + Bits(s[2], 0x80), 3))
    else if 0xF0 <= s[0] <= 0xF4 && |s| >= 4 && Tail(s[1]) && Tail(s[2]) && Tail(s[3])
            && (s[0] == 0xF0 ==> s[1] >= 0x90) && (s[0] == 0xF4 ==> s[1] <= 0x8F)
    then Some((262144 * Bits(s[0], 0xF0) + 4096 * Bits(s[1], 0x80) + 64 * Bits(s[2], 0x80) + Bits(s[3], 0x80), 4))
    else None
  }

  predicate Scalar(x: int) {
    0 <= x <= MAX_RUNE && !Surrogate(x)
  }

  /** What is written for `x` is read back as `x` if it is a character, and as U+FFFD otherwise. */
  lemma Utf8Decodes(x: int, rest: Text)
    ensures Decode(Utf8(x) + rest) == Some((if Scalar(x) then x else RUNE_ERROR, |Utf8(x)|))
  {
    var u := Utf8(x);
    var s := u + rest;
    assert forall k :: 0 <= k < |u| ==> s[k] == u[k];
    if Scalar(x) && x >= 0x1_0000 {
      FourBytes(x);
    } else if Scalar(x) && x >= 0x800 {
      ThreeBytes(x);
    }
  }

  lemma ThreeBytes(x: int)
    requires 0x800 <= x < 0x1_0000
    ensures x == 4096 * (x / 4096) + 64 * (x / 64 % 64) + x % 64
    ensures x / 4096 == 0 ==> x / 64 % 64 >= 0x20
    ensures x / 4096 == 13 && x / 64 % 64 >= 0x20 ==> Surrogate(x)
  {
    var q := x / 64;
    assert x == 64 * q + x % 64 && q / 64 == x / 4096;
  }

  lemma FourBytes(x: int)
    requires 0x1_0000 <= x <= MAX_RUNE
    ensures x == 262144 * (x / 262144) + 4096 * (x / 4096 % 64) + 64 * (x / 64 % 64) + x % 64
    ensures x / 262144 <= 4 && (x / 262144 == 0 ==> x / 4096 % 64 >= 0x10)
    ensures x / 262144 == 4 ==> x / 4096 % 64 <= 0x0F
  {
    var q, p := x / 64, x / 4096;
    assert x == 64 * q + x % 64 && q / 64 == p && p / 64 == x / 262144;
  }

  // ---------- digits and names ----------

  const LOWER: Text := [48, 49, 50, 51, 52, 53, 54, 55, 56, 57, 97, 98, 99, 100, 101, 102]
  const UPPER: Text := [48, 49, 50, 51, 52, 53, 54, 55, 56, 57, 65, 66, 67, 68, 69, 70]

  /** The digits 0 to 9, and a to f in either case for hexadecimal, stand for their places in the list. */
  lemma DigitIs(hex: bool, c: byte)
    ensures Digit(hex, c).Some? <==> exists d :: 0 <= d < Base(hex) && (LOWER[d] == c || UPPER[d] == c)
    ensures forall d :: 0 <= d < Base(hex) && (LOWER[d] == c || UPPER[d] == c) ==> Digit(hex, c) == Some(d)
  {
    if Digit(hex, c).Some? {
      var d := Digit(hex, c).value;
      assert 0 <= d < Base(hex) && (LOWER[d] == c || UPPER[d] == c);
    }
  }

  /** Names are made of the letters in either case and the digits. */
  lemma NameCharacterIs(c: byte)
    ensures Alnum(c) <==> var x := c as char; 'a' <= x <= 'z' || 'A' <= x <= 'Z' || '0' <= x <= '9'
  {
  }

  // ---------- the character a reference stands for ----------

  /** The characters U+0080 to U+009F that Windows-1252 leaves where they are. */
  const KEPT_CONTROLS: set<int> := {0x81, 0x8D, 0x8F, 0x90, 0x9D}

  predicate Control(x: int) {
    0x80 <= x <= 0x9F
  }

  /**
   A reference to a value below 2^31 is read as that very character exactly when it is one, other
   than U+0000 and the controls that Windows-1252 uses for something else; those become
   characters above U+00FF, and whatever is no character becomes U+FFFD.
  */
  lemma ReferenceReadsAs(t: Tables, mark: Text, ds: Text, closed: bool, rest: Text, more: Text)
    requires Follows(mark, ds, closed, rest) && |NumericReference(mark, ds, closed)| > 3
    requires 0 <= Value(mark != [], ds) < 0x8000_0000
    ensures var s, v := NumericReference(mark, ds, closed) + rest, Value(mark != [], ds);
      && s[0] == AMP && Consume(t, s).1 == |NumericReference(mark, ds, closed)|
      && var out := Consume(t, s).0;
      && Decode(out + more).Some? && Decode(out + more).value.1 == |out|
      && var x := Decode(out + more).value.0;
      && (x == v <==> Scalar(v) && v != 0 && (Control(v) ==> v in KEPT_CONTROLS))
      && (x == RUNE_ERROR <==> v == 0 || !Scalar(v) || v == RUNE_ERROR)
      && (Control(v) && v !in KEPT_CONTROLS ==> x > 0xFF)
  {
    var v := Value(mark != [], ds);
    hide Consume, Utf8, Value, Wrap32, AllDigits, NumericReference, Follows, Decode;
    NumericReferenceValue(t, mark, ds, closed, rest);
    SmallReferencesExact(t, mark, ds, closed, rest);
    Utf8Decodes(Fix(v), more);
    FixIs(v);
  }

  lemma FixIs(v: int)
    requires v >= 0
    ensures Scalar(Fix(v))
    ensures Fix(v) == v <==> Scalar(v) && v != 0 && (Control(v) ==> v in KEPT_CONTROLS)
    ensures Fix(v) == RUNE_ERROR <==> v == 0 || !Scalar(v) || v == RUNE_ERROR
    ensures Control(v) && v !in KEPT_CONTROLS ==> Fix(v) > 0xFF
  {
    assert forall k :: 0 <= k < |REPLACEMENT| ==> 0 < REPLACEMENT[k] < 0xD800;
    if Control(v) {
      var k := v - 0x80;
      assert REPLACEMENT[k] == v <==> v in KEPT_CONTROLS;
    }
  }

  // ---------- every ampersand is covered ----------

  /** What an ampersand can begin: a numeric reference, a named one, or none. */
  datatype Form =
    | Numeric(mark: Text, ds: Text, closed: bool, rest: Text)
    | Named(w: Text, closed: bool, rest: Text)
    | Lone(rest: Text)

  ghost predicate HasForm(s: Text, form: Form) {
    match form
    case Numeric(mark, ds, closed, rest) =>
      Follows(mark, ds, closed, rest) && s == NumericReference(mark, ds, closed) + rest
    case Named(w, closed, rest) =>
      && (w != [] || closed) && (forall i :: 0 <= i < |w| ==> Alnum(w[i]))
      && (closed || rest == [] || (!Alnum(rest[0]) && rest[0] != SEMI))
      && s == [AMP] + (w + (if closed then [SEMI] else [])) + rest
    case Lone(rest) =>
      (rest == [] || (!Alnum(rest[0]) && rest[0] != SEMI && rest[0] != HASH)) && s == [AMP] + rest
  }

  /** How far the name characters go, or the digits. */
  function Run(s: Text, digits: bool, hex: bool): (n: nat)
    ensures n <= |s|
    ensures forall i :: 0 <= i < n ==> if digits then Digit(hex, s[i]).Some? else Alnum(s[i])
    ensures n < |s| ==> if digits then Digit(hex, s[n]).None? else !Alnum(s[n])
  {
    if s == [] || !(if digits then Digit(hex, s[0]).Some? else Alnum(s[0])) then 0 else 1 + Run(s[1..], digits, hex)
  }

  /**
   The laws on numeric references, named ones and lone ampersands leave no case out: every text that begins with an
   ampersand has one of these forms.
  */
  lemma EveryAmpersand(s: Text) returns (form: Form)
    requires s != [] && s[0] == AMP
    ensures HasForm(s, form)
  {
    hide HasForm;
    var tail := s[1..];
    assert s == [AMP] + tail;
    if tail != [] && tail[0] == HASH {
      form := NumericForm(tail[1..]);
      assert [AMP, HASH] + tail[1..] == s;
    } else {
      form := NamedForm(tail);
    }
  }

  lemma NamedForm(t: Text) returns (form: Form)
    requires t == [] || t[0] != HASH
    ensures HasForm([AMP] + t, form)
  {
    hide Run, Alnum;
    var n := Run(t, false, false);
    var w, more := t[..n], t[n..];
    assert t == w + more;
    if more != [] && more[0] == SEMI {
      form := Named(w, true, more[1..]);
      Closing(more);
      Regroup(w, [SEMI], more[1..]);
      Regroup([AMP], w + [SEMI], more[1..]);
    } else if w != [] {
      form := Named(w, false, more);
      assert w + [] == w;
      Regroup([AMP], w, more);
    } else {
      form := Lone(t);
    }
  }

  lemma Closing(more: Text)
    requires more != [] && more[0] == SEMI
    ensures more == [SEMI] + more[1..]
  {
  }

  lemma NumericForm(t: Text) returns (form: Form)
    ensures HasForm([AMP, HASH] + t, form)
  {
    hide Run, Digit;
    var mark, from := MarkOf(t);
    var n := Run(from, true, mark != []);
    var ds, more := from[..n], from[n..];
    assert from == ds + more;
    if more != [] && more[0] == SEMI {
      form := Numeric(mark, ds, true, more[1..]);
      Closing(more);
      assert Follows(mark, ds, true, more[1..]);
    } else {
      form := Numeric(mark, ds, false, more);
      assert Follows(mark, ds, false, more);
    }
    hide Follows;
    NumericText(mark, ds, more);
  }

  lemma MarkOf(t: Text) returns (mark: Text, from: Text)
    ensures t == mark + from && (mark == [] || mark == [120] || mark == [88])
    ensures mark == [] && from != [] ==> from[0] != 120 && from[0] != 88
  {
    if t != [] && (t[0] == 120 || t[0] == 88) {
      mark, from := [t[0]], t[1..];
    } else {
      mark, from := [], t;
    }
  }

  lemma NumericText(mark: Text, ds: Text, more: Text)
    ensures [AMP, HASH] + (mark + (ds + more)) == NumericReference(mark, ds, false) + more
    ensures more != [] && more[0] == SEMI ==>
      [AMP, HASH] + (mark + (ds + more)) == NumericReference(mark, ds, true) + more[1..]
  {
    var start: Text := [AMP, HASH];
    Regroup(mark, ds, more);
    Regroup(start, mark + ds, more);
    Regroup(start, mark, ds);
    assert start + mark + ds + [] == start + mark + ds;
    if more != [] && more[0] == SEMI {
      Closing(more);
      Regroup(start + mark + ds, [SEMI], more[1..]);
    }
  }
}
