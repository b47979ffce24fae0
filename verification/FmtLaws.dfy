/**
 What a formatted integer looks like: where it stands in its field, which characters it is made of, and that the
 zero flag fills the field.
*/
module FmtLaws {
  import opened Common
  import opened FmtInteger

  predicate All(t: seq<byte>, c: byte) {
    forall k :: 0 <= k < |t| ==> t[k] == c
  }

  /** The one output without digits: %.0 of zero. */
  predicate PrintsNothing(s: Spec, u: uint64) {
    s.precPresent && s.prec == 0 && u == 0
  }

  // ---------- the field ----------

  /**
   The field is as wide as asked for and holds the text whole: at its right end behind blanks, or with the minus flag at
   its left end before blanks. Without a width there is nothing but the text.
  */
  lemma TextInField(s: Spec, u: uint64)
    requires s.Ok() && !PrintsNothing(s, u)
    ensures var t, r := Text(s, u), Padded(s, u);
      && |r| == (if s.widPresent then Max(s.wid, |t|) else |t|)
      && (if s.minus then t <= r && All(r[|t|..], SPACE)
          else r[|r| - |t|..] == t && All(r[..|r| - |t|], SPACE))
  {
    hide Text, Fill;
    var t, r := Text(s, u), Padded(s, u);
    if s.minus { assert r[..|t|] == t; }
  }

  /** %.0 of zero prints blanks alone. */
  lemma NothingInField(s: Spec, u: uint64)
    requires s.Ok() && PrintsNothing(s, u)
    ensures |Padded(s, u)| == s.wid && All(Padded(s, u), SPACE)
  {
  }

  // ---------- the characters ----------

  const LOWER: seq<byte> := [48, 49, 50, 51, 52, 53, 54, 55, 56, 57, 97, 98, 99, 100, 101, 102]
  const UPPER: seq<byte> := [48, 49, 50, 51, 52, 53, 54, 55, 56, 57, 65, 66, 67, 68, 69, 70]

  predicate IsDigit(c: byte, base: nat, upper: bool)
    requires base <= 16
  {
    c in (if upper then UPPER else LOWER)[..base]
  }

  /** A numeral: digits of the base, in the case asked for, with no zero in front unless it is the only one. */
  ghost predicate Numeral(ds: seq<byte>, base: nat, upper: bool)
    requires base <= 16
  {
    && ds != [] && (|ds| > 1 ==> ds[0] != ZERO)
    && forall k :: 0 <= k < |ds| ==> IsDigit(ds[k], base, upper)
  }

  lemma DigitCharIs(d: int, base: nat, upper: bool)
    requires 0 <= d < base <= 16
    ensures IsDigit(DigitChar(d, upper), base, upper) && (DigitChar(d, upper) == ZERO <==> d == 0)
  {
    var list := if upper then UPPER else LOWER;
    assert DigitChar(d, upper) == list[d] == list[..base][d];
  }

  lemma {:induction false} DigitsNumeral(v: nat, base: nat, upper: bool)
    requires 2 <= base <= 16
    ensures Numeral(Digits(v, base, upper), base, upper)
    ensures v > 0 ==> Digits(v, base, upper)[0] != ZERO
  {
    hide IsDigit, DigitChar;
    if v < base {
      DigitsLast(v, base, upper);
      DigitCharIs(v, base, upper);
    } else {
      DigitsStep(v, base, upper);
      DigitsNumeral(v / base, base, upper);
      DigitCharIs(v - v / base * base, base, upper);
    }
  }

  /** The value is negative: its sign bit is set and the verb is for signed integers. */
  predicate IsNegative(s: Spec, u: uint64) {
    s.signed && u >= 0x8000_0000_0000_0000
  }

  /** How many digits are wanted, the sign counted in where the zero flag fills the width. */
  function Wanted(s: Spec, sign: seq<byte>): int {
    if s.precPresent then s.prec else if s.zero && s.widPresent then s.wid - |sign| else 0
  }

  /**
   The parts of a text: sign, what %O and %# put in front, zeros, and the numeral of the value. There are just as many
   zeros as make up the digits wanted; in base 8 %# adds a zero only where none is in front yet.
  */
  lemma TextLayout(s: Spec, u: uint64)
    returns (sign: seq<byte>, o: seq<byte>, sharp: seq<byte>, zeros: seq<byte>, ds: seq<byte>)
    requires s.Ok()
    ensures Text(s, u) == sign + o + sharp + (zeros + ds)
    ensures IsNegative(s, u) ==> sign == [45] && Value(ds, s.base) == TWO64 - u
    ensures !IsNegative(s, u) ==> Value(ds, s.base) == u
    ensures !IsNegative(s, u) ==> sign == if s.plus then [43] else if s.space then [32] else []
    ensures Numeral(ds, s.base, s.upper)
    ensures All(zeros, 48) && |zeros + ds| == Max(|ds|, Wanted(s, sign))
    ensures o == if s.verbO then [48, 111] else []
    ensures !s.sharp || s.base == 10 ==> sharp == []
    ensures s.sharp && s.base == 2 ==> sharp == [48, 98]
    ensures s.sharp && s.base == 8 ==> sharp == if (zeros + ds)[0] == 48 then [] else [48]
    ensures s.sharp && s.base == 16 ==> sharp == [48, if s.upper then 88 else 120]
  {
    hide Digits, Value, Numeral, Fill;
    sign, o := Sign(s, u), if s.verbO then [48, 111] else [];
    ds := Digits(s.Magnitude(u), s.base, s.upper);
    zeros := Fill(s.Precision(u) - |ds|, ZERO);
    sharp := SharpPrefix(s, Body(s, u));
    DigitsDecode(s.Magnitude(u), s.base, s.upper);
    DigitsNumeral(s.Magnitude(u), s.base, s.upper);
    SignWidth(s, u);
  }

  lemma SignWidth(s: Spec, u: uint64)
    ensures |Sign(s, u)| == if s.HasSign(u) then 1 else 0
  {
  }

  /**
   The zero flag: without a precision, sign, zeros and digits fill the width together, the prefix of
   %# or %O comes on top of it, and no blank is used.
  */
  lemma ZeroFlagFillsWidth(s: Spec, u: uint64)
    requires s.Ok() && s.zero && s.widPresent && !s.precPresent
    ensures var r, sign, ds := Padded(s, u), |Sign(s, u)|, |Digits(s.Magnitude(u), s.base, s.upper)|;
      && r == Text(s, u)
      && |r| >= Max(s.wid, sign + ds) && (!s.sharp && !s.verbO ==> |r| == Max(s.wid, sign + ds))
  {
    hide Digits;
    var r := Padded(s, u);
    assert |Text(s, u)| >= s.wid;
    assert Fill(s.wid - |Text(s, u)|, SPACE) == [];
    assert [] + Text(s, u) == Text(s, u) == Text(s, u) + [];
  }
}
