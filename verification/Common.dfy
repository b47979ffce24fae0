/** Machine integers and small helpers on sequences, shared by the models of this project. */
module Common {
  type byte = x: int | 0 <= x < 0x100
  type uint16 = x: int | 0 <= x < 0x1_0000
  type uint32 = x: int | 0 <= x < 0x1_0000_0000

  /** The largest `int` on a 64-bit machine. */
  const MAX_INT: nat := 0x7fff_ffff_ffff_ffff

  datatype Option<+T> = None | Some(value: T)

  function Min(a: int, b: int): int {
    if a < b then a else b
  }

  function Max(a: int, b: int): int {
    if a < b then b else a
  }

  /** `uint32_t` addition. */
  function Add32(x: uint32, y: int): (r: uint32)
    ensures 0 <= x + y < 0x1_0000_0000 ==> r == x + y
  {
    (x + y) % 0x1_0000_0000
  }

  function Pow2(k: nat): (r: nat)
    ensures r >= 1
  {
    if k == 0 then 1 else 2 * Pow2(k - 1)
  }

  /** The first index of `c`, or -1. */
  function IndexByte(s: seq<byte>, c: byte): (r: int)
    ensures -1 <= r < |s|
    ensures r < 0 ==> c !in s
    ensures r >= 0 ==> s[r] == c && c !in s[..r]
  {
    if s == [] then -1
    else if s[0] == c then 0
    else var r := IndexByte(s[1..], c); if r < 0 then -1 else r + 1
  }

  lemma {:induction false} IndexUnique(s: seq<byte>, c: byte, i: nat)
    requires i < |s| && s[i] == c && c !in s[..i]
    ensures IndexByte(s, c) == i
  {
    if i > 0 {
      assert s[..i][0] == s[0] && s[1..][..i - 1] == s[..i][1..];
      IndexUnique(s[1..], c, i - 1);
    }
  }

  lemma {:induction false} IndexAbsent(s: seq<byte>, c: byte)
    requires c !in s
    ensures IndexByte(s, c) == -1
  {
    if s != [] { IndexAbsent(s[1..], c); }
  }

  /** All the parts behind one another. */
  function Flatten(parts: seq<seq<byte>>): seq<byte> {
    if parts == [] then [] else Flatten(parts[..|parts| - 1]) + parts[|parts| - 1]
  }

  lemma Regroup<T>(a: seq<T>, b: seq<T>, c: seq<T>)
    ensures a + b + c == a + (b + c)
  {
  }

  lemma SliceChain(s: seq<byte>, n: nat, m: nat)
    requires n + m <= |s|
    ensures s[n..][m..] == s[n + m..] && s[..n] + s[n..][..m] == s[..n + m]
  {
  }
}
