/**
 The Internet checksum (section 1 of RFC 1071) as computed by `checksum` in
 04_protocolstack_underlying_c/second_version/src/icmp.c: 16-bit words are loaded
 little-endian, summed in 32 bits, folded twice and complemented.
*/
module Checksum {
  import opened Common

  const M := 0xffff

  /** The sum of the 16-bit words; an odd last byte counts as a low byte. */
  function WordSum(b: seq<byte>): (r: nat)
    ensures r <= M * ((|b| + 1) / 2)
  {
    if |b| == 0 then 0
    else if |b| == 1 then b[0]
    else (var lo: int := b[0]; var hi: int := b[1]; lo + 256 * hi) + WordSum(b[2..])
  }

  /** The ones' complement value of a sum: its representative in 1..65535, or 0 for an all-zero sum. */
  function Ones(s: nat): (r: nat)
    ensures r <= M && (r == 0 <==> s == 0) && r % M == s % M
  {
    if s == 0 then 0 else (s - 1) % M + 1
  }

  /** The reference definition: the complement of the ones' complement sum of the words. */
  function Cks(b: seq<byte>): uint16 {
    M - Ones(WordSum(b))
  }

  lemma OnesUnique(s: nat, r: nat)
    requires r <= M && (r == 0 <==> s == 0) && r % M == s % M
    ensures r == Ones(s)
  {
  }

  /** Two folds bring any 32-bit sum to its ones' complement value. */
  lemma TwoFolds(sum: nat)
    requires sum < 0x1_0000_0000
    ensures var once := sum / 0x1_0000 + sum % 0x1_0000;
      (once + once / 0x1_0000) % 0x1_0000 == Ones(sum)
  {
    var once := sum / 0x1_0000 + sum % 0x1_0000;
    assert sum == once + M * (sum / 0x1_0000);
    ModShift(once, sum / 0x1_0000);
    var twice := once + once / 0x1_0000;
    assert once / 0x1_0000 <= 1;
    assert twice % 0x1_0000 == once - M * (once / 0x1_0000);
    ModShift(twice % 0x1_0000, once / 0x1_0000);
    OnesUnique(sum, twice % 0x1_0000);
  }

  lemma ModShift(x: nat, k: nat)
    ensures (x + M * k) % M == x % M
  {
  }

  lemma {:induction false} WordSumSnoc(b: seq<byte>, n: nat)
    requires n + 2 <= |b| && n % 2 == 0
    ensures WordSum(b[..n + 2]) == WordSum(b[..n]) + b[n] + 256 * (var hi: int := b[n + 1]; hi)
  {
    if n == 0 {
      assert b[..2][2..] == [];
    } else {
      WordSumSnoc(b[2..], n - 2);
      assert b[..n + 2][2..] == b[2..][..n] && b[..n][2..] == b[2..][..n - 2];
    }
  }

  lemma {:induction false} WordSumLast(b: seq<byte>)
    requires |b| % 2 == 1
    ensures WordSum(b) == WordSum(b[..|b| - 1]) + b[|b| - 1]
  {
    if |b| > 1 {
      WordSumLast(b[2..]);
      assert b[..|b| - 1][2..] == b[2..][..|b| - 3];
    }
  }

  /** An odd last byte counts as if a zero byte followed, and words of zero change nothing. */
  lemma {:induction false} ZeroPadding(b: seq<byte>, n: nat)
    requires n % 2 == |b| % 2
    ensures Cks(b + seq(n, _ => 0)) == Cks(b)
    decreases n
  {
    if n == 1 {
      assert b + seq(1, _ => 0) == b + [0];
      OddPadded(b);
    } else if n > 1 {
      ZeroPadding(b, n - 2);
      hide WordSum;
      var c := b + seq(n - 2, _ => 0);
      assert b + seq(n, _ => 0) == c + [0, 0];
      ZeroWord(c);
    } else {
      assert b + seq(0, _ => 0) == b;
    }
  }

  lemma ZeroWord(c: seq<byte>)
    requires |c| % 2 == 0
    ensures WordSum(c + [0, 0]) == WordSum(c)
  {
    WordSumSnoc(c + [0, 0], |c|);
    hide WordSum;
    assert (c + [0, 0])[..|c|] == c && (c + [0, 0])[..|c| + 2] == c + [0, 0];
  }

  lemma {:induction false} OddPadded(b: seq<byte>)
    requires |b| % 2 == 1
    ensures WordSum(b + [0]) == WordSum(b)
  {
    if |b| == 1 {
      assert WordSum((b + [0])[2..]) == 0;
    } else {
      OddPadded(b[2..]);
      assert (b + [0])[2..] == b[2..] + [0];
    }
  }

  /** One loop iteration takes the word at `n` into the sum. */
  lemma SumStep(b: seq<byte>, n: nat, sum: uint32)
    requires n + 2 <= |b| <= 0x2_0000 && n % 2 == 0 && sum == WordSum(b[..n])
    ensures Add32(sum, (var lo: int := b[n]; var hi: int := b[n + 1]; lo + 256 * hi)) == WordSum(b[..n + 2])
  {
    WordSumSnoc(b, n);
    SumFits(b, n + 2);
  }

  /** The two folds and the complement. */
  method Finish(sum: uint32) returns (result: uint16)
    ensures result == M - Ones(sum)
  {
    TwoFolds(sum);
    var folded := sum / 0x1_0000 + sum % 0x1_0000;
    folded := folded + folded / 0x1_0000;
    result := M - folded % 0x1_0000;
  }

  lemma SumFits(b: seq<byte>, n: nat)
    requires n <= |b| <= 0x2_0000
    ensures WordSum(b[..n]) < 0x1_0000_0000
  {
    assert WordSum(b[..n]) <= M * 0x1_0000;
  }

  /** The loop over whole words. */
  method SumPairs(a: array<byte>, from: nat, len: nat) returns (sum: uint32, left: nat)
    requires from + len <= a.Length && len <= 0x2_0000
    ensures left == len % 2 && sum == WordSum(a[from..from + len][..len - left])
  {
    ghost var b := a[from..from + len];
    sum, left := 0, len;
    var index := from;
    ghost var n: nat := 0;
    while left > 1
      invariant n + left == len && index == from + n && n % 2 == 0
      invariant sum == WordSum(b[..n])
    {
      SumStep(b, n, sum);
      assert a[index] == b[n] && a[index + 1] == b[n + 1];
      var lo: int, hi: int := a[index], a[index + 1];
      sum := Add32(sum, lo + 256 * hi);
      index, left, n := index + 2, left - 2, n + 2;
    }
  }

  /** `checksum(data, len)` over part of a buffer; for any IP-sized length the 32-bit sum cannot wrap. */
  method Compute(a: array<byte>, from: nat, len: nat) returns (result: uint16)
    requires from + len <= a.Length && len <= 0x2_0000
    ensures result == Cks(a[from..from + len])
  {
    var sum, left := SumPairs(a, from, len);
    ghost var b := a[from..from + len];
    assert b[..len] == b;
    if left == 1 {
      WordSumLast(b);
      SumFits(b, len);
      sum := Add32(sum, a[from + len - 1]);
    }
    result := Finish(sum);
  }

  // ---------- checking a buffer that holds its own checksum ----------

  /** Stores a 16-bit word in the byte order in which the sum loads it. */
  function PutWord(b: seq<byte>, off: nat, v: uint16): (r: seq<byte>)
    requires off + 2 <= |b|
    ensures |r| == |b|
  {
    b[off := v % 256][off + 1 := v / 256]
  }

  lemma {:induction false} WordSumOfPut(b: seq<byte>, off: nat, v: uint16)
    requires off + 2 <= |b| && off % 2 == 0 && b[off] == 0 && b[off + 1] == 0
    ensures WordSum(PutWord(b, off, v)) == WordSum(b) + v
  {
    if off == 0 {
      assert PutWord(b, off, v)[2..] == b[2..];
    } else {
      WordSumOfPut(b[2..], off - 2, v);
      assert PutWord(b, off, v)[2..] == PutWord(b[2..], off - 2, v);
    }
  }

  /** Recomputing over a buffer whose zeroed field received the checksum gives 0. */
  lemma ChecksumVerifies(b: seq<byte>, off: nat)
    requires off + 2 <= |b| && off % 2 == 0 && b[off] == 0 && b[off + 1] == 0
    ensures Cks(PutWord(b, off, Cks(b))) == 0
  {
    WordSumOfPut(b, off, Cks(b));
    var s := WordSum(b);
    var q := OnesQuotient(s);
    assert s + (M - Ones(s)) == M + M * q;
    ModShift(M, q);
    OnesUnique(s + (M - Ones(s)), M);
  }

  // ---------- byte order independence ----------

  /** Every 16-bit word with its bytes exchanged. */
  function SwapWords(b: seq<byte>): (r: seq<byte>)
    requires |b| % 2 == 0
    ensures |r| == |b|
  {
    if b == [] then [] else [b[1], b[0]] + SwapWords(b[2..])
  }

  function Swap16(x: uint16): uint16 {
    x % 256 * 256 + x / 256
  }

  /** Exchanging bytes multiplies a word by 256 modulo 65535. */
  lemma {:induction false} SwapSum(b: seq<byte>)
    requires |b| % 2 == 0
    ensures WordSum(SwapWords(b)) % M == 256 * WordSum(b) % M
    ensures WordSum(SwapWords(b)) == 0 <==> WordSum(b) == 0
  {
    if b != [] {
      var lo: int, hi: int := b[0], b[1];
      SwapSum(b[2..]);
      assert SwapWords(b)[2..] == SwapWords(b[2..]);
      var x, y := WordSum(SwapWords(b[2..])), 256 * WordSum(b[2..]);
      assert WordSum(SwapWords(b)) == hi + 256 * lo + x;
      assert 256 * WordSum(b) == (hi + 256 * lo) + y + M * hi;
      AddMod(hi + 256 * lo, x, y);
      ModShift(hi + 256 * lo + y, hi);
    }
  }

  lemma AddMod(c: nat, x: nat, y: nat)
    requires x % M == y % M
    ensures (c + x) % M == (c + y) % M
  {
    assert c + x == c + x % M + M * (x / M);
    assert c + y == c + y % M + M * (y / M);
    ModShift(c + x % M, x / M);
    ModShift(c + y % M, y / M);
  }

  lemma OnesQuotient(s: nat) returns (q: nat)
    ensures s == Ones(s) + M * q
  {
    q := if s == 0 then 0 else (s - 1) / M;
  }

  lemma SwapOnes(r: uint16)
    ensures Swap16(M - r) == M - Swap16(r) && Swap16(r) % M == 256 * r % M && (Swap16(r) == 0 <==> r == 0)
  {
    var hi: nat, x: nat := r / 256, Swap16(r);
    assert 256 * r == x + M * hi;
    ModShift(x, hi);
  }

  lemma OnesOfSwapped(s: nat, w: nat)
    requires w % M == 256 * s % M && (w == 0 <==> s == 0)
    ensures Ones(w) == Swap16(Ones(s))
  {
    var r: uint16 := Ones(s);
    var q := OnesQuotient(s);
    assert 256 * s == 256 * r + M * (256 * q);
    ModShift(256 * r, 256 * q);
    SwapOnes(r);
    OnesUnique(w, Swap16(r));
  }

  /** Section 2(B) of RFC 1071: the checksum of byte-swapped words is the byte-swapped checksum. */
  lemma ByteOrderIndependence(b: seq<byte>)
    requires |b| % 2 == 0
    ensures Cks(SwapWords(b)) == Swap16(Cks(b))
  {
    SwapSum(b);
    OnesOfSwapped(WordSum(b), WordSum(SwapWords(b)));
    SwapOnes(Ones(WordSum(b)));
  }
}
