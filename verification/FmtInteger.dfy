/**
 Integer formatting of the fmt package (fmt/format.go): `fmtInteger` writes digits, zeros,
 prefixes and sign right to left into a 68-byte buffer, or a larger one, then pads the text.
*/
module FmtInteger {
  import opened Common

  const TWO64: int := 0x1_0000_0000_0000_0000
  type uint64 = x: int | 0 <= x < TWO64

  const INTBUF: nat := 68
  const MINUS: byte := 45
  const PLUS: byte := 43
  const SPACE: byte := 32
  const ZERO: byte := 48

  /** The flags, width and precision of a verb, and which of `ldigits` and `udigits` it uses. */
  datatype Spec = Spec(widPresent: bool, precPresent: bool, minus: bool, plus: bool, sharp: bool, space: bool,
                       zero: bool, wid: nat, prec: nat, base: nat, signed: bool, verbO: bool, upper: bool)
  {
    /** The bases fmtInteger knows; the verb 'O' is only used with base 8. */
    predicate Ok() { base in {2, 8, 10, 16} && (verbO ==> base == 8) }

    function Negative(u: uint64): bool { signed && u >= TWO64 / 2 }
    function Magnitude(u: uint64): uint64 { if Negative(u) then TWO64 - u else u }
    function HasSign(u: uint64): bool { Negative(u) || plus || space }

    /** `prec` after the choice between %.3d and %03d. */
    function Precision(u: uint64): int {
      if precPresent then prec
      else if zero && widPresent then wid - (if HasSign(u) then 1 else 0)
      else 0
    }
  }

  // ---------- the text a value should have ----------

  function DigitChar(d: int, upper: bool): byte
    requires 0 <= d < 16
  {
    if d < 10 then 48 + d else if upper then 55 + d else 87 + d
  }

  /** The digits of `v`, most significant first, at least one. */
  function Digits(v: nat, base: nat, upper: bool): (r: seq<byte>)
    requires 2 <= base <= 16
    ensures r != []
  {
    if v < base then [DigitChar(v, upper)]
    else Digits(v / base, base, upper) + [DigitChar(v % base, upper)]
  }

  function Fill(n: int, c: byte): (r: seq<byte>)
    ensures |r| == Max(n, 0)
    ensures forall k :: 0 <= k < |r| ==> r[k] == c
  {
    if n <= 0 then [] else Fill(n - 1, c) + [c]
  }

  /** The digits with leading zeros up to the precision. */
  function Body(s: Spec, u: uint64): seq<byte>
    requires s.Ok()
  {
    var d := Digits(s.Magnitude(u), s.base, s.upper);
    Fill(s.Precision(u) - |d|, ZERO) + d
  }

  /** What %# puts in front of a body. */
  function SharpPrefix(s: Spec, body: seq<byte>): seq<byte>
    requires body != []
  {
    if !s.sharp then []
    else if s.base == 2 then [ZERO, 98]
    else if s.base == 8 then (if body[0] != ZERO then [ZERO] else [])
    else if s.base == 16 then [ZERO, if s.upper then 88 else 120]
    else []
  }

  function Sign(s: Spec, u: uint64): seq<byte> {
    if s.Negative(u) then [MINUS] else if s.plus then [PLUS] else if s.space then [SPACE] else []
  }

  function Text(s: Spec, u: uint64): seq<byte>
    requires s.Ok()
  {
    var body := Body(s, u);
    Sign(s, u) + (if s.verbO then [ZERO, 111] else []) + SharpPrefix(s, body) + body
  }

  /** The text in its field; %.0 of zero prints an empty field. */
  function Padded(s: Spec, u: uint64): seq<byte>
    requires s.Ok()
  {
    if s.precPresent && s.prec == 0 && u == 0 then Fill(s.wid, SPACE)
    else Aligned(s, Text(s, u))
  }

  /** A text at the left or right of a field of the wanted width. */
  function Aligned(s: Spec, t: seq<byte>): seq<byte> {
    if !s.widPresent then t
    else if s.minus then t + Fill(s.wid - |t|, SPACE)
    else Fill(s.wid - |t|, SPACE) + t
  }

  // ---------- what the text means ----------

  function DigitValue(c: byte): int {
    if c <= 57 then c - 48 else if c <= 70 then c - 55 else c - 87
  }

  /** Reading digits in a base. */
  function Value(ds: seq<byte>, base: nat): int {
    if ds == [] then 0 else base * Value(ds[..|ds| - 1], base) + DigitValue(ds[|ds| - 1])
  }

  lemma DigitRoundTrip(d: int, upper: bool)
    requires 0 <= d < 16
    ensures DigitValue(DigitChar(d, upper)) == d
  {
  }

  lemma DivMod(v: nat, base: nat)
    requires base >= 2
    ensures v == base * (v / base) + v % base
  {
  }

  lemma {:induction false} DigitsDecode(v: nat, base: nat, upper: bool)
    requires 2 <= base <= 16
    ensures Value(Digits(v, base, upper), base) == v
  {
    hide DigitValue, DigitChar;
    var d := Digits(v, base, upper);
    DigitRoundTrip(v % base, upper);
    if v >= base {
      DigitsDecode(v / base, base, upper);
      assert d[..|d| - 1] == Digits(v / base, base, upper);
      DivMod(v, base);
    } else {
      DigitRoundTrip(v, upper);
      assert d[..0] == [];
    }
  }

  lemma {:induction false} LeadingZeros(n: nat, ds: seq<byte>, base: nat)
    ensures Value(Fill(n, ZERO) + ds, base) == Value(ds, base)
  {
    var t := Fill(n, ZERO) + ds;
    if ds != [] {
      LeadingZeros(n, ds[..|ds| - 1], base);
      assert t[..|t| - 1] == Fill(n, ZERO) + ds[..|ds| - 1];
    } else if n > 0 {
      LeadingZeros(n - 1, [], base);
      assert t[..|t| - 1] == Fill(n - 1, ZERO) + [];
    }
  }

  /** The digit run has length max(digit count, precision) and decodes to the magnitude. */
  lemma BodyDecodes(s: Spec, u: uint64)
    requires s.Ok()
    ensures |Body(s, u)| == Max(|Digits(s.Magnitude(u), s.base, s.upper)|, s.Precision(u))
    ensures Value(Body(s, u), s.base) == s.Magnitude(u)
  {
    var d := Digits(s.Magnitude(u), s.base, s.upper);
    DigitsDecode(s.Magnitude(u), s.base, s.upper);
    LeadingZeros(Max(s.Precision(u) - |d|, 0), d, s.base);
    assert Fill(s.Precision(u) - |d|, ZERO) == Fill(Max(s.Precision(u) - |d|, 0), ZERO);
  }

  /** A reader of formatted integers: blanks around them, sign, fixed prefixes, then digits. */
  function Parse(s: Spec, t: seq<byte>): int {
    var c := TrimRight(TrimLeft(t));
    var v := Value(DropSharp(s, DropO(s, DropSign(c))), s.base);
    if StartsNegative(c) then TWO64 - v else v
  }

  predicate StartsNegative(t: seq<byte>) { t != [] && t[0] == MINUS }

  function TrimLeft(t: seq<byte>): seq<byte> {
    if t != [] && t[0] == SPACE then TrimLeft(t[1..]) else t
  }

  function TrimRight(t: seq<byte>): seq<byte> {
    if t != [] && t[|t| - 1] == SPACE then TrimRight(t[..|t| - 1]) else t
  }

  function DropSign(t: seq<byte>): seq<byte> {
    if t != [] && (t[0] == MINUS || t[0] == PLUS) then t[1..] else t
  }

  function DropO(s: Spec, t: seq<byte>): seq<byte> {
    if s.verbO && |t| >= 2 then t[2..] else t
  }

  function DropSharp(s: Spec, t: seq<byte>): seq<byte> {
    if s.sharp && (s.base == 2 || s.base == 16) && |t| >= 2 then t[2..] else t
  }

  lemma {:induction false} DigitsNoSign(v: nat, base: nat, upper: bool)
    requires 2 <= base <= 16
    ensures forall k :: 0 <= k < |Digits(v, base, upper)| ==> Digits(v, base, upper)[k] >= 48
  {
    if v >= base { DigitsNoSign(v / base, base, upper); }
  }

  lemma BodyNoSign(s: Spec, u: uint64)
    requires s.Ok()
    ensures Body(s, u) != [] && Body(s, u)[0] >= 48 && Body(s, u)[|Body(s, u)| - 1] >= 48
  {
    DigitsNoSign(s.Magnitude(u), s.base, s.upper);
  }

  lemma {:induction false} TrimLeftFill(n: nat, t: seq<byte>)
    requires t == [] || t[0] != SPACE
    ensures TrimLeft(Fill(n, SPACE) + t) == t
  {
    if n == 0 {
      assert [] + t == t;
    } else {
      TrimLeftFill(n - 1, t);
      FillFront(n, SPACE);
      assert (Fill(n, SPACE) + t)[1..] == Fill(n - 1, SPACE) + t;
    }
  }

  lemma {:induction false} TrimRightFill(n: nat, t: seq<byte>)
    requires t == [] || t[|t| - 1] != SPACE
    ensures TrimRight(t + Fill(n, SPACE)) == t
  {
    if n == 0 {
      assert t + [] == t;
    } else {
      TrimRightFill(n - 1, t);
      assert (t + Fill(n, SPACE))[..|t| + n - 1] == t + Fill(n - 1, SPACE);
    }
  }

  /** Trimming leaves `core`, whatever blanks surround it. */
  lemma Trimmed(a: nat, core: seq<byte>, b: nat)
    requires core == [] || (core[0] != SPACE && core[|core| - 1] != SPACE)
    ensures TrimRight(TrimLeft(Fill(a, SPACE) + core + Fill(b, SPACE))) == core
  {
    if core == [] {
      FillAdd(a, b);
      TrimLeftFill(a + b, []);
      assert TrimRight([]) == [];
      hide TrimLeft, TrimRight, Fill;
      assert Fill(a, SPACE) + core == Fill(a, SPACE) && Fill(a + b, SPACE) + [] == Fill(a + b, SPACE);
    } else {
      hide TrimLeft, TrimRight, Fill;
      Regroup(Fill(a, SPACE), core, Fill(b, SPACE));
      TrimLeftFill(a, core + Fill(b, SPACE));
      TrimRightFill(b, core);
    }
  }

  lemma {:induction false} FillAdd(a: nat, b: nat)
    ensures Fill(a, SPACE) + Fill(b, SPACE) == Fill(a + b, SPACE)
  {
    if b > 0 { FillAdd(a, b - 1); }
  }

  /** The sign less a blank, which is trimmed like the padding. */
  function InkSign(s: Spec, u: uint64): seq<byte> {
    if Sign(s, u) == [SPACE] then [] else Sign(s, u)
  }

  lemma TrimmedLeft(a: nat, core: seq<byte>)
    requires core == [] || (core[0] != SPACE && core[|core| - 1] != SPACE)
    ensures TrimRight(TrimLeft(Fill(a, SPACE) + core)) == core
  {
    Trimmed(a, core, 0);
    assert Fill(0, SPACE) == [];
    hide TrimLeft, TrimRight, Fill;
    assert Fill(a, SPACE) + core + [] == Fill(a, SPACE) + core;
  }

  lemma AlignTrimmed(s: Spec, blank: nat, core: seq<byte>)
    requires core != [] && core[0] != SPACE && core[|core| - 1] != SPACE
    ensures TrimRight(TrimLeft(Aligned(s, Fill(blank, SPACE) + core))) == core
  {
    hide TrimLeft, TrimRight, Fill;
    var n := Max(s.wid - |Fill(blank, SPACE) + core|, 0);
    FillSame(s.wid - |Fill(blank, SPACE) + core|, n, SPACE);
    if !s.widPresent {
      TrimmedLeft(blank, core);
    } else if s.minus {
      Trimmed(blank, core, n);
    } else {
      Regroup(Fill(n, SPACE), Fill(blank, SPACE), core);
      FillAdd(n, blank);
      TrimmedLeft(n + blank, core);
    }
  }

  lemma PaddingTrimmed(s: Spec, u: uint64, rest: seq<byte>)
    requires s.Ok() && rest != [] && rest[0] >= 48 && rest[|rest| - 1] >= 48
    ensures TrimRight(TrimLeft(Aligned(s, Sign(s, u) + rest))) == InkSign(s, u) + rest
  {
    hide TrimLeft, TrimRight, Aligned;
    var core := InkSign(s, u) + rest;
    var blank: nat := if Sign(s, u) == [SPACE] then 1 else 0;
    assert Fill(0, SPACE) == [] && Fill(1, SPACE) == [SPACE];
    assert Sign(s, u) + rest == Fill(blank, SPACE) + core;
    AlignTrimmed(s, blank, core);
  }

  lemma SignDropped(s: Spec, u: uint64, t: seq<byte>)
    requires t != [] && t[0] >= 48
    ensures DropSign(InkSign(s, u) + t) == t && (StartsNegative(InkSign(s, u) + t) <==> s.Negative(u))
  {
    if InkSign(s, u) == [] { assert InkSign(s, u) + t == t; } else { assert (InkSign(s, u) + t)[1..] == t; }
  }

  /** What is left behind the fixed prefixes decodes like the body. */
  lemma PrefixesDropped(s: Spec, body: seq<byte>)
    requires s.Ok() && body != []
    ensures var o := if s.verbO then [ZERO, 111] else [];
      Value(DropSharp(s, DropO(s, o + SharpPrefix(s, body) + body)), s.base) == Value(body, s.base)
  {
    var o, p := if s.verbO then [ZERO, 111] else [], SharpPrefix(s, body);
    assert DropO(s, o + p + body) == p + body by {
      if s.verbO { assert (o + p + body)[2..] == p + body; } else { assert o + p + body == p + body; }
    }
    if s.sharp && (s.base == 2 || s.base == 16) {
      assert (p + body)[2..] == body;
    } else if p == [ZERO] {
      assert Fill(1, ZERO) == [ZERO] by { assert Fill(0, ZERO) == []; }
      LeadingZeros(1, body, s.base);
    } else {
      assert p + body == body;
    }
  }

  /**
   Reading the output back gives the value, whatever the flags, width and precision; the blank
   field that %.0 prints for zero reads as zero.
  */
  lemma FormatRoundTrip(s: Spec, u: uint64)
    requires s.Ok()
    ensures Parse(s, Padded(s, u)) == u
  {
    hide Body, Value, DropSign, DropO, DropSharp, StartsNegative, Digits, Aligned, TrimLeft, TrimRight, InkSign, Sign;
    if s.precPresent && s.prec == 0 && u == 0 {
      TrimmedLeft(s.wid, []);
      assert Fill(s.wid, SPACE) + [] == Fill(s.wid, SPACE);
      BlankIsZero(s);
    } else {
      var body := Body(s, u);
      BodyDecodes(s, u);
      BodyNoSign(s, u);
      var rest := (if s.verbO then [ZERO, 111] else []) + SharpPrefix(s, body) + body;
      assert rest[0] >= 48 && rest[|rest| - 1] == body[|body| - 1];
      assert Text(s, u) == Sign(s, u) + rest;
      PaddingTrimmed(s, u, rest);
      SignDropped(s, u, rest);
      PrefixesDropped(s, body);
    }
  }

  lemma BlankIsZero(s: Spec)
    ensures Value(DropSharp(s, DropO(s, DropSign([]))), s.base) == 0 && !StartsNegative([])
  {
  }

  // ---------- room in the buffer ----------

  lemma Halves(v: nat, base: nat, p: nat)
    requires base >= 2 && v < 2 * p
    ensures v / base < p
  {
    DivMod(v, base);
    AtLeastTwice(base, v / base);
  }

  lemma AtLeastTwice(base: nat, q: nat)
    requires base >= 2
    ensures base * q >= 2 * q
  {
    assert base * q == 2 * q + (base - 2) * q;
  }

  lemma PowTwice(k: nat)
    requires k >= 1
    ensures Pow2(k) == 2 * Pow2(k - 1)
  {
  }

  lemma DigitsLonger(v: nat, base: nat, upper: bool, p: nat) returns (q: nat)
    requires 2 <= base <= 16 && base <= v < 2 * p
    ensures q < v && q < p && |Digits(v, base, upper)| == |Digits(q, base, upper)| + 1
  {
    q := v / base;
    Halves(v, base, p);
    Halves(v, base, v);
  }

  lemma {:induction false} DigitCount(v: nat, base: nat, upper: bool, k: nat)
    requires 2 <= base <= 16 && k >= 1 && v < Pow2(k)
    ensures |Digits(v, base, upper)| <= k
    decreases k
  {
    hide Digits, Pow2, DigitChar;
    PowTwice(k);
    PowZero();
    if k == 1 || v < base {
      DigitsLast(v, base, upper);
    } else {
      var q := DigitsLonger(v, base, upper, Pow2(k - 1));
      DigitCount(q, base, upper, k - 1);
    }
  }

  lemma PlusFour(a: nat)
    ensures Pow2(a + 4) == 16 * Pow2(a)
  {
    assert Pow2(a + 4) == 2 * Pow2(a + 3) == 4 * Pow2(a + 2) == 8 * Pow2(a + 1);
  }

  lemma PlusSixteen(a: nat)
    ensures Pow2(a + 16) == 0x1_0000 * Pow2(a)
  {
    hide Pow2;
    PlusFour(a);
    PlusFour(a + 4);
    PlusFour(a + 8);
    PlusFour(a + 12);
  }

  lemma SixtyFour()
    ensures Pow2(64) == TWO64
  {
    hide Pow2;
    assert Pow2(16) == 0x1_0000 * Pow2(0) by { PlusSixteen(0); }
    assert Pow2(32) == 0x1_0000 * Pow2(16) by { PlusSixteen(16); }
    assert Pow2(48) == 0x1_0000 * Pow2(32) by { PlusSixteen(32); }
    assert Pow2(64) == 0x1_0000 * Pow2(48) by { PlusSixteen(48); }
    assert Pow2(0) == 1 by { PowZero(); }
  }

  lemma PowZero()
    ensures Pow2(0) == 1
  {
  }

  lemma AtMost64Digits(v: uint64, base: nat, upper: bool)
    requires 2 <= base <= 16
    ensures |Digits(v, base, upper)| <= 64
  {
    hide Pow2, Digits;
    SixtyFour();
    DigitCount(v, base, upper, 64);
  }

  function BufLen(s: Spec): nat {
    if s.widPresent || s.precPresent then Max(3 + s.wid + s.prec, INTBUF) else INTBUF
  }

  /** 68 bytes, or 3 + wid + prec, always hold the text, with three bytes to spare beside the body. */
  lemma TextFits(s: Spec, u: uint64)
    requires s.Ok()
    ensures |Text(s, u)| <= BufLen(s) && s.Precision(u) <= BufLen(s) - 3
  {
    var body, d := Body(s, u), Digits(s.Magnitude(u), s.base, s.upper);
    AtMost64Digits(s.Magnitude(u), s.base, s.upper);
    if s.Precision(u) > |d| { assert body[0] == ZERO; }
  }

  // ---------- the formatter ----------

  /** One division peels the last digit off. */
  lemma DigitsStep(u: nat, base: nat, upper: bool)
    requires 2 <= base <= 16 && u >= base
    ensures var next := u / base;
      && 0 <= next < u && 0 <= u - next * base < base
      && Digits(u, base, upper) == Digits(next, base, upper) + [DigitChar(u - next * base, upper)]
  {
    Quotient(u, base);
    hide DigitChar;
  }

  lemma Quotient(u: nat, base: nat)
    requires base >= 2 && u >= base
    ensures u - u / base * base == u % base && 0 <= u / base < u
  {
    DivMod(u, base);
    Halves(u, base, u);
  }

  lemma DigitsLast(u: nat, base: nat, upper: bool)
    requires 2 <= base <= 16 && u < base
    ensures Digits(u, base, upper) == [DigitChar(u, upper)]
  {
  }

  class Formatter {
    var buf: seq<byte>
    var zero: bool
    const spec: Spec
    const intbuf: array<byte>

    constructor (spec: Spec)
      ensures this.spec == spec && zero == spec.zero && buf == [] && intbuf.Length == INTBUF && fresh(intbuf)
    {
      this.spec, zero, buf, intbuf := spec, spec.zero, [], new byte[INTBUF](_ => 0);
    }

    /** writePadding. */
    method WritePadding(n: int)
      modifies this`buf
      ensures buf == old(buf) + Fill(n, if zero then ZERO else SPACE)
    {
      if n <= 0 { return; }
      var padByte := if zero then ZERO else SPACE;
      var i := 0;
      while i < n
        invariant 0 <= i <= n && buf == old(buf) + Fill(i, padByte)
      {
        buf, i := buf + [padByte], i + 1;
      }
    }

    /** pad, for text of one-byte characters. */
    method Pad(b: seq<byte>)
      requires !zero
      modifies this`buf
      ensures buf == old(buf) + Aligned(spec, b)
    {
      if !spec.widPresent || spec.wid == 0 {
        buf := buf + b;
        assert b + [] == b && [] + b == b;
        return;
      }
      var width := spec.wid - |b|;
      if !spec.minus {
        WritePadding(width);
        buf := buf + b;
      } else {
        buf := buf + b;
        WritePadding(width);
      }
    }

    /** The digits of `v`, right to left; returns the index of the first. */
    method WriteDigits(b: array<byte>, v: uint64) returns (i: nat)
      requires spec.Ok() && b.Length >= INTBUF
      modifies b
      ensures i <= b.Length && b[i..] == Digits(v, spec.base, spec.upper)
    {
      hide Digits, DigitChar;
      ghost var all := Digits(v, spec.base, spec.upper);
      AtMost64Digits(v, spec.base, spec.upper);
      var u: uint64 := v;
      i := b.Length;
      assert all + b[i..] == all;
      while u >= spec.base
        invariant 0 < i <= b.Length && i + |all| == b.Length + |Digits(u, spec.base, spec.upper)|
        invariant all == Digits(u, spec.base, spec.upper) + b[i..]
      {
        var next := u / spec.base;
        DigitsStep(u, spec.base, spec.upper);
        ghost var front := Digits(next, spec.base, spec.upper);
        ghost var tail := b[i..];
        i := Put(b, i, DigitChar(u - next * spec.base, spec.upper));
        Regroup(front, [b[i]], tail);
        u := next;
      }
      DigitsLast(u, spec.base, spec.upper);
      i := Put(b, i, DigitChar(u, spec.upper));
    }

    /** Leading zeros up to the precision. The guard `i > 0` never cuts them short. */
    method ZeroFill(b: array<byte>, i0: nat, prec: int) returns (i: nat)
      requires i0 <= b.Length && prec <= b.Length
      modifies b
      ensures i <= b.Length && b[i..] == Fill(prec - (b.Length - i0), ZERO) + old(b[i0..])
    {
      i := i0;
      ghost var ds := b[i0..];
      assert [] + ds == ds;
      while i > 0 && prec > b.Length - i
        invariant i <= i0 && (i == i0 || b.Length - i <= prec)
        invariant b[i..] == Fill(i0 - i, ZERO) + ds
      {
        ghost var was := Fill(i0 - i, ZERO);
        i := Put(b, i, ZERO);
        FillFront(i0 - i, ZERO);
        Regroup([ZERO], was, ds);
      }
      FillSame(prec - (b.Length - i0), i0 - i, ZERO);
    }

    /** One byte more on the left. */
    method Put(b: array<byte>, i: nat, c: byte) returns (j: nat)
      requires 1 <= i <= b.Length
      modifies b
      ensures j == i - 1 && b[j] == c && b[j..] == [c] + old(b[i..])
    {
      j := i - 1;
      b[j] := c;
    }

    /** The prefix of `%#`. */
    method WriteSharp(b: array<byte>, i0: nat) returns (i: nat)
      requires spec.Ok() && i0 < b.Length && i0 >= |SharpPrefix(spec, b[i0..])|
      modifies b
      ensures i == i0 - |SharpPrefix(spec, old(b[i0..]))|
      ensures b[i..] == SharpPrefix(spec, old(b[i0..])) + old(b[i0..])
    {
      i := i0;
      if spec.sharp {
        if spec.base == 2 {
          i := Put(b, i, 98);
          i := Put(b, i, ZERO);
        } else if spec.base == 8 {
          if b[i] != ZERO { i := Put(b, i, ZERO); }
        } else if spec.base == 16 {
          i := Put(b, i, if spec.upper then 88 else 120);
          i := Put(b, i, ZERO);
        }
      }
    }

    /** The prefix of the verb 'O', and the sign. */
    method WriteSign(b: array<byte>, i0: nat, u: uint64) returns (i: nat)
      requires i0 <= b.Length && i0 >= (if spec.verbO then 2 else 0) + |Sign(spec, u)|
      modifies b
      ensures i <= b.Length
      ensures b[i..] == Sign(spec, u) + (if spec.verbO then [ZERO, 111] else []) + old(b[i0..])
    {
      i := i0;
      if spec.verbO {
        i := Put(b, i, 111);
        i := Put(b, i, ZERO);
      }
      ghost var unsigned := b[i..];
      assert unsigned == (if spec.verbO then [ZERO, 111] else []) + old(b[i0..]);
      if spec.Negative(u) {
        i := Put(b, i, MINUS);
      } else if spec.plus {
        i := Put(b, i, PLUS);
      } else if spec.space {
        i := Put(b, i, SPACE);
      }
      assert b[i..] == Sign(spec, u) + unsigned;
      Regroup(Sign(spec, u), if spec.verbO then [ZERO, 111] else [], old(b[i0..]));
    }

    /** The text of `u` at the end of `b`. */
    method WriteText(b: array<byte>, u: uint64, v: uint64, prec: int) returns (i: nat)
      requires spec.Ok() && b.Length == BufLen(spec) && v == spec.Magnitude(u) && prec == spec.Precision(u)
      modifies b
      ensures i <= b.Length && b[i..] == Text(spec, u)
    {
      hide Digits, SharpPrefix, Sign, Spec.Magnitude, Spec.Precision, Fill;
      TextFits(spec, u);
      i := WriteDigits(b, v);
      i := ZeroFill(b, i, prec);
      ghost var body := Body(spec, u);
      assert b[i..] == body;
      i := WriteSharp(b, i);
      i := WriteSign(b, i, u);
      var o := if spec.verbO then [ZERO, 111] else [];
      Regroup(Sign(spec, u) + o, SharpPrefix(spec, body), body);
    }

    /** The field printed for %.0 of zero: `wid` blanks, the zero flag saved and restored. */
    method BlankField()
      modifies this`buf, this`zero
      ensures buf == old(buf) + Fill(spec.wid, SPACE) && zero == old(zero)
    {
      var oldZero := zero;
      zero := false;
      WritePadding(spec.wid);
      zero := oldZero;
    }

    /** Padding with blanks whatever the zero flag says: it is saved and restored. */
    method PadPlain(text: seq<byte>)
      modifies this`buf, this`zero
      ensures buf == old(buf) + Aligned(spec, text) && zero == old(zero)
    {
      var oldZero := zero;
      zero := false;
      Pad(text);
      zero := oldZero;
    }

    /** fmtInteger: the padded text of `u` is appended, without leaving the buffer and for every flag set. */
    method FmtInteger(u: uint64)
      requires spec.Ok() && intbuf.Length == INTBUF && zero == spec.zero
      modifies this, intbuf
      ensures buf == old(buf) + Padded(spec, u) && zero == old(zero)
    {
      hide Text, Aligned;
      var v := if spec.Negative(u) then TWO64 - u else u;
      var b := intbuf;
      if spec.widPresent || spec.precPresent {
        var width := 3 + spec.wid + spec.prec;
        if width > b.Length { b := new byte[width](_ => 0); }
      }
      var prec: int := 0;
      if spec.precPresent {
        prec := spec.prec;
        if prec == 0 && v == 0 {
          BlankField();
          return;
        }
      } else if spec.zero && spec.widPresent {
        prec := spec.wid;
        if spec.Negative(u) || spec.plus || spec.space { prec := prec - 1; }
      }
      var i := WriteText(b, u, v, prec);
      PadPlain(b[i..]);
    }
  }

  lemma FillSame(m: int, n: nat, c: byte)
    requires n == Max(m, 0)
    ensures Fill(m, c) == Fill(n, c)
  {
  }

  lemma {:induction false} FillFront(n: nat, c: byte)
    requires n > 0
    ensures Fill(n, c) == [c] + Fill(n - 1, c)
  {
  }
}
