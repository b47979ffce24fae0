/**
 Splitting, joining, replacing and repeating byte slices (bytes/bytes.go), for a non-empty
 separator. The loops fill arrays allocated in advance to exactly the size needed.
*/
module BytesSplit {
  import opened Common

  type Bytes = seq<byte>

  const CHUNK_LIMIT: nat := 8192

  /** The first index at which `sep` occurs, or -1. */
  function Index(s: Bytes, sep: Bytes): (r: int)
    requires sep != []
    ensures r == -1 || (0 <= r && r + |sep| <= |s| && s[r..r + |sep|] == sep)
    decreases |s|
  {
    if |s| < |sep| then -1
    else if s[..|sep|] == sep then 0
    else
      var r := Index(s[1..], sep);
      assert r >= 0 ==> s[1..][r..r + |sep|] == s[r + 1..r + 1 + |sep|];
      if r < 0 then -1 else r + 1
  }

  /** The number of non-overlapping occurrences, from the left. */
  function Count(s: Bytes, sep: Bytes): (r: nat)
    requires sep != []
    ensures r <= |s|
    decreases |s|
  {
    var i := Index(s, sep);
    if i < 0 then 0 else 1 + Count(s[i + |sep|..], sep)
  }

  /** At most `n` pieces; each but the last ends before a separator, of which it keeps `save` bytes. */
  function Split(s: Bytes, sep: Bytes, save: nat, n: nat): (r: seq<Bytes>)
    requires sep != [] && save <= |sep| && n >= 1
    ensures r != [] && |r| <= n
    decreases n
  {
    var m := Index(s, sep);
    if n == 1 || m < 0 then [s] else [s[..m + save]] + Split(s[m + |sep|..], sep, save, n - 1)
  }

  function Join(parts: seq<Bytes>, sep: Bytes): Bytes {
    if parts == [] then []
    else if |parts| == 1 then parts[0]
    else parts[0] + sep + Join(parts[1..], sep)
  }

  // ---------- laws ----------

  /** Index finds an occurrence whenever there is one, and no later than any other. */
  lemma {:induction false} IndexIsFirst(s: Bytes, sep: Bytes, k: nat)
    requires sep != [] && k + |sep| <= |s| && s[k..k + |sep|] == sep
    ensures 0 <= Index(s, sep) <= k
    decreases |s|
  {
    if s[..|sep|] != sep {
      assert s[1..][k - 1..k - 1 + |sep|] == s[k..k + |sep|];
      IndexIsFirst(s[1..], sep, k - 1);
    }
  }

  lemma IndexSplits(s: Bytes, sep: Bytes)
    requires sep != [] && Index(s, sep) >= 0
    ensures var m := Index(s, sep); s == s[..m] + sep + s[m + |sep|..]
  {
    hide Index;
    var m := Index(s, sep);
    assert s[..m + |sep|] == s[..m] + s[m..m + |sep|];
    assert s == s[..m + |sep|] + s[m + |sep|..];
  }

  /** Joining the pieces with the separator gives the text back. */
  lemma {:induction false} JoinSplit(s: Bytes, sep: Bytes, n: nat)
    requires sep != [] && n >= 1
    ensures Join(Split(s, sep, 0, n), sep) == s
    decreases n
  {
    hide Index;
    var m := Index(s, sep);
    if n > 1 && m >= 0 {
      var rest := s[m + |sep|..];
      JoinSplit(rest, sep, n - 1);
      var tail := Split(rest, sep, 0, n - 1);
      assert ([s[..m]] + tail)[1..] == tail;
      IndexSplits(s, sep);
    }
  }

  /** SplitAfter loses nothing: its pieces concatenate to the text. */
  lemma {:induction false} JoinSplitAfter(s: Bytes, sep: Bytes, n: nat)
    requires sep != [] && n >= 1
    ensures Join(Split(s, sep, |sep|, n), []) == s
    decreases n
  {
    hide Index;
    var m := Index(s, sep);
    if n > 1 && m >= 0 {
      var rest := s[m + |sep|..];
      JoinSplitAfter(rest, sep, n - 1);
      var tail := Split(rest, sep, |sep|, n - 1);
      assert ([s[..m + |sep|]] + tail)[1..] == tail;
      assert s == s[..m + |sep|] + [] + rest;
    }
  }

  /** More pieces than separators change nothing. */
  lemma {:induction false} SplitSaturates(s: Bytes, sep: Bytes, save: nat, n: nat)
    requires sep != [] && save <= |sep| && n >= 1
    ensures Split(s, sep, save, n) == Split(s, sep, save, Min(n - 1, Count(s, sep)) + 1)
    ensures |Split(s, sep, save, n)| == Min(n - 1, Count(s, sep)) + 1
    decreases n
  {
    hide Index;
    var m := Index(s, sep);
    if n > 1 && m >= 0 {
      SplitSaturates(s[m + |sep|..], sep, save, n - 1);
    }
  }

  /** The length of a text in which `k` separators have been exchanged. */
  lemma {:induction false} ReplacedLength(s: Bytes, sep: Bytes, to: Bytes, k: nat)
    requires sep != [] && k <= Count(s, sep)
    ensures |Join(Split(s, sep, 0, k + 1), to)| == |s| + k * (|to| - |sep|)
    decreases k
  {
    if k > 0 {
      var m := Index(s, sep);
      var rest := s[m + |sep|..];
      ReplacedLength(rest, sep, to, k - 1);
      var tail := Split(rest, sep, 0, k);
      assert ([s[..m]] + tail)[1..] == tail;
      assert (k - 1) * (|to| - |sep|) + (|to| - |sep|) == k * (|to| - |sep|);
    }
  }

  /** No piece contains the separator, but for the last one where the limit left some. */
  lemma {:induction false} PiecesAreFree(s: Bytes, sep: Bytes, n: nat, k: nat)
    requires sep != [] && n >= 1 && k < |Split(s, sep, 0, n)|
    ensures k < |Split(s, sep, 0, n)| - 1 || n > Count(s, sep) ==> Index(Split(s, sep, 0, n)[k], sep) == -1
    decreases n
  {
    hide Index;
    var m := Index(s, sep);
    if n > 1 && m >= 0 {
      if k == 0 {
        IndexOfHead(s, sep);
      } else {
        PiecesAreFree(s[m + |sep|..], sep, n - 1, k - 1);
      }
    }
  }

  /** SplitAfter makes the same pieces, each but the last with its separator. */
  lemma {:induction false} SplitAfterKeeps(s: Bytes, sep: Bytes, n: nat, k: nat)
    requires sep != [] && n >= 1
    ensures |Split(s, sep, |sep|, n)| == |Split(s, sep, 0, n)|
    ensures k < |Split(s, sep, 0, n)| ==>
      Split(s, sep, |sep|, n)[k] == Split(s, sep, 0, n)[k] + if k < |Split(s, sep, 0, n)| - 1 then sep else []
    decreases n
  {
    hide Index;
    var m := Index(s, sep);
    if n > 1 && m >= 0 {
      SplitAfterKeeps(s[m + |sep|..], sep, n - 1, if k > 0 then k - 1 else 0);
      assert s[..m + |sep|] == s[..m] + sep by { IndexSplits(s, sep); }
    } else {
      assert s + [] == s;
    }
  }

  lemma {:induction false} IndexOfHead(s: Bytes, sep: Bytes)
    requires sep != [] && Index(s, sep) >= 0
    ensures Index(s[..Index(s, sep)], sep) == -1
    decreases |s|
  {
    var m := Index(s, sep);
    if m > 0 {
      IndexInTail(s, sep);
      hide Index;
      IndexOfHead(s[1..], sep);
      NoMatchInHead(s, sep, m);
    } else {
      assert |s[..m]| < |sep|;
    }
  }

  lemma IndexInTail(s: Bytes, sep: Bytes)
    requires sep != [] && Index(s, sep) > 0
    ensures |s| >= |sep| && s[..|sep|] != sep && Index(s[1..], sep) == Index(s, sep) - 1
  {
  }

  lemma NoMatchInHead(s: Bytes, sep: Bytes, m: nat)
    requires sep != [] && 0 < m <= |s| && Index(s[1..][..m - 1], sep) == -1
    requires |s| >= |sep| && s[..|sep|] != sep
    ensures Index(s[..m], sep) == -1
  {
    assert s[..m][1..] == s[1..][..m - 1];
    if m >= |sep| { assert s[..m][..|sep|] == s[..|sep|]; }
  }

  // ---------- the loops ----------

  /** The byte count behind the one-byte case of Count. */
  function CountByte(s: Bytes, c: byte): nat {
    if s == [] then 0 else (if s[0] == c then 1 else 0) + CountByte(s[1..], c)
  }

  lemma {:induction false} CountOneByte(s: Bytes, c: byte)
    ensures Count(s, [c]) == CountByte(s, c)
  {
    if s != [] {
      CountOneByte(s[1..], c);
      if s[0] == c {
        assert s[..1] == [c];
      } else {
        assert s[..1] != [c] by { assert s[..1][0] != c; }
        var i := Index(s[1..], [c]);
        if i >= 0 { assert s[1..][i + 1..] == s[i + 2..]; }
      }
    }
  }

  method CountSep(s: Bytes, sep: Bytes) returns (n: nat)
    requires sep != []
    ensures n == Count(s, sep)
  {
    if |sep| == 1 {
      CountOneByte(s, sep[0]);
      assert sep == [sep[0]];
      return CountByte(s, sep[0]);
    }
    n := CountLoop(s, sep);
  }

  /** The general case of Count. */
  method CountLoop(s: Bytes, sep: Bytes) returns (n: nat)
    requires sep != []
    ensures n == Count(s, sep)
  {
    n := 0;
    hide Index;
    var rest := s;
    while true
      invariant Count(s, sep) == n + Count(rest, sep)
      decreases |rest|
    {
      var i := Index(rest, sep);
      if i == -1 { return; }
      n := n + 1;
      rest := rest[i + |sep|..];
    }
  }

  /** genSplit for a non-empty separator; `n` of 0 gives no slice at all, a negative one all pieces. */
  method GenSplit(s: Bytes, sep: Bytes, sepSave: nat, n: int) returns (r: Option<seq<Bytes>>)
    requires sep != [] && sepSave <= |sep|
    ensures r.None? <==> n == 0
    ensures r.Some? ==> r.value == Split(s, sep, sepSave, if n < 0 then Count(s, sep) + 1 else n)
  {
    if n == 0 { return None; }
    var k := n;
    if k < 0 {
      k := CountSep(s, sep);
      k := k + 1;
    }
    SplitSaturates(s, sep, sepSave, k);
    SplitSaturates(s, sep, sepSave, |s| + 1);
    if k > |s| + 1 { k := |s| + 1; }
    r := Pieces(s, sep, sepSave, k);
  }

  /** The filling loop of genSplit. */
  method Pieces(s: Bytes, sep: Bytes, sepSave: nat, k: nat) returns (r: Option<seq<Bytes>>)
    requires sep != [] && sepSave <= |sep| && k >= 1
    ensures r == Some(Split(s, sep, sepSave, k))
  {
    hide Split, Index;
    var a := new Bytes[k](_ => []);
    var i, rest := 0, s;
    ghost var all, done: seq<Bytes> := Split(s, sep, sepSave, k), [];
    while i < k - 1
      invariant 0 <= i < k && a[..i] == done && all == done + Split(rest, sep, sepSave, k - i)
    {
      var m := Index(rest, sep);
      if m < 0 { break; }
      Extend(all, done, rest, sep, sepSave, k - i);
      done := Store(a, i, rest[..m + sepSave], done);
      rest, i := rest[m + |sep|..], i + 1;
    }
    SplitOnce(rest, sep, sepSave, k - i);
    done := Store(a, i, rest, done);
    return Some(a[..i + 1]);
  }

  lemma Extend(all: seq<Bytes>, done: seq<Bytes>, s: Bytes, sep: Bytes, save: nat, n: nat)
    requires sep != [] && save <= |sep| && n > 1 && Index(s, sep) >= 0
    requires all == done + Split(s, sep, save, n)
    ensures var m := Index(s, sep);
            all == (done + [s[..m + save]]) + Split(s[m + |sep|..], sep, save, n - 1)
  {
    hide Split, Index;
    SplitOnce(s, sep, save, n);
    var m := Index(s, sep);
    Regroup(done, [s[..m + save]], Split(s[m + |sep|..], sep, save, n - 1));
  }

  /** `a[i] = v`, after which the first `i + 1` cells hold `done + [v]`. */
  method Store(a: array<Bytes>, i: nat, v: Bytes, ghost done: seq<Bytes>) returns (ghost more: seq<Bytes>)
    requires i < a.Length && a[..i] == done
    modifies a
    ensures more == done + [v] && a[..i + 1] == more
  {
    a[i] := v;
    more := done + [v];
  }

  lemma SplitOnce(s: Bytes, sep: Bytes, save: nat, n: nat)
    requires sep != [] && save <= |sep| && n >= 1
    ensures var m := Index(s, sep);
            Split(s, sep, save, n)
              == if n == 1 || m < 0 then [s] else [s[..m + save]] + Split(s[m + |sep|..], sep, save, n - 1)
  {}

  lemma {:induction false} JoinSnoc(parts: seq<Bytes>, sep: Bytes, v: Bytes)
    requires parts != []
    ensures Join(parts + [v], sep) == Join(parts, sep) + sep + v
  {
    var more := parts + [v];
    if |parts| == 1 {
      assert more[1..] == [v];
    } else {
      JoinSnoc(parts[1..], sep, v);
      assert more[1..] == parts[1..] + [v];
    }
  }

  lemma {:induction false} JoinPrefix(parts: seq<Bytes>, sep: Bytes, i: nat)
    requires 1 <= i <= |parts|
    ensures |Join(parts[..i], sep)| <= |Join(parts, sep)|
    decreases |parts| - i
  {
    if i < |parts| {
      assert parts[..i + 1] == parts[..i] + [parts[i]];
      JoinSnoc(parts[..i], sep, parts[i]);
      JoinPrefix(parts, sep, i + 1);
    } else {
      assert parts[..i] == parts;
    }
  }

  /** `bp += copy(b[bp:], v)`. */
  method CopyAt(b: array<byte>, bp: nat, v: Bytes) returns (bp1: nat)
    requires bp + |v| <= b.Length
    modifies b
    ensures bp1 == bp + |v| && b[..bp1] == old(b[..bp]) + v
  {
    forall k | 0 <= k < |v| { b[bp + k] := v[k]; }
    bp1 := bp + |v|;
  }

  function Lengths(parts: seq<Bytes>): nat {
    if parts == [] then 0 else Lengths(parts[..|parts| - 1]) + |parts[|parts| - 1]|
  }

  lemma {:induction false} JoinLength(parts: seq<Bytes>, sep: Bytes)
    requires parts != []
    ensures |Join(parts, sep)| == |sep| * (|parts| - 1) + Lengths(parts)
  {
    var last := |parts| - 1;
    if last == 0 {
      assert Lengths(parts[..0]) == 0;
    } else {
      JoinLength(parts[..last], sep);
      JoinSnoc(parts[..last], sep, parts[last]);
      assert parts == parts[..last] + [parts[last]];
      assert |sep| * (last - 1) + |sep| == |sep| * last;
    }
  }

  predicate SeparatorsOverflow(parts: seq<Bytes>, sep: Bytes)
    requires |parts| >= 2
  {
    sep != [] && |sep| >= MAX_INT / (|parts| - 1)
  }

  predicate JoinOverflows(parts: seq<Bytes>, sep: Bytes)
    requires |parts| >= 2
  {
    SeparatorsOverflow(parts, sep) || |Join(parts, sep)| > MAX_INT
  }

  lemma BelowQuotient(x: nat, k: nat, m: nat)
    requires k > 0 && x < m / k
    ensures x * k <= m
  {
    assert m / k * k <= m;
    assert x * k <= m / k * k;
  }

  lemma {:induction false} LengthsGrow(parts: seq<Bytes>, i: nat)
    requires i <= |parts|
    ensures Lengths(parts[..i]) <= Lengths(parts)
    decreases |parts| - i
  {
    if i < |parts| {
      assert parts[..i + 1][..i] == parts[..i];
      LengthsGrow(parts, i + 1);
    } else {
      assert parts[..i] == parts;
    }
  }

  /**
   The length loop of Join, with its two overflow panics: `None` exactly when the separators
   alone reach the integer limit or the joined text would not fit an int.
  */
  method JoinSize(parts: seq<Bytes>, sep: Bytes) returns (n: Option<nat>)
    requires |parts| >= 2
    ensures n.None? <==> JoinOverflows(parts, sep)
    ensures n.Some? ==> n.value == |Join(parts, sep)|
  {
    var len := 0;
    JoinLength(parts, sep);
    assert parts[..|parts|] == parts;
    if |sep| > 0 {
      if |sep| >= MAX_INT / (|parts| - 1) { return None; }
      BelowQuotient(|sep|, |parts| - 1, MAX_INT);
      len := |sep| * (|parts| - 1);
    }
    var i := 0;
    while i < |parts|
      invariant 0 <= i <= |parts|
      invariant len == |sep| * (|parts| - 1) + Lengths(parts[..i]) && len <= MAX_INT
      invariant !SeparatorsOverflow(parts, sep)
    {
      assert parts[..i + 1][..i] == parts[..i];
      LengthsGrow(parts, i + 1);
      if |parts[i]| > MAX_INT - len { return None; }
      len := len + |parts[i]|;
      i := i + 1;
    }
    return Some(len);
  }

  /** `Join`: one allocation, filled exactly; `None` stands for the overflow panic. */
  method JoinInto(parts: seq<Bytes>, sep: Bytes) returns (r: Option<Bytes>)
    ensures r.None? <==> |parts| >= 2 && JoinOverflows(parts, sep)
    ensures r.Some? ==> r.value == Join(parts, sep)
  {
    if |parts| == 0 { return Some([]); }
    if |parts| == 1 { return Some(parts[0]); }
    var n := JoinSize(parts, sep);
    if n.None? { return None; }
    var b := new byte[n.value](_ => 0);
    JoinPrefix(parts, sep, 1);
    assert parts[..1] == [parts[0]] && |Join(parts[..1], sep)| == |parts[0]|;
    var bp := CopyAt(b, 0, parts[0]);
    var i := 1;
    while i < |parts|
      invariant 1 <= i <= |parts| && 0 <= bp <= b.Length && b[..bp] == Join(parts[..i], sep)
    {
      assert parts[..i + 1] == parts[..i] + [parts[i]];
      JoinSnoc(parts[..i], sep, parts[i]);
      JoinPrefix(parts, sep, i + 1);
      bp := CopyAt(b, bp, sep);
      bp := CopyAt(b, bp, parts[i]);
      i := i + 1;
    }
    assert parts[..i] == parts;
    return Some(b[..]);
  }

  // ---------- Replace ----------

  /** How many occurrences a limit of `n` replaces. */
  function Replaced(s: Bytes, from: Bytes, n: int): nat
    requires from != []
  {
    if n < 0 then Count(s, from) else Min(n, Count(s, from))
  }

  /** One more piece is one more replacement: the piece before the match, then `to`. */
  lemma JoinSplitStep(s: Bytes, from: Bytes, to: Bytes, k: nat)
    requires from != [] && 1 <= k <= Count(s, from)
    ensures var m := Index(s, from);
            m >= 0 && k - 1 <= Count(s[m + |from|..], from) &&
            Join(Split(s, from, 0, k + 1), to) == s[..m] + to + Join(Split(s[m + |from|..], from, 0, k), to)
  {
    hide Index;
    var m := Index(s, from);
    var tail := Split(s[m + |from|..], from, 0, k);
    assert ([s[..m]] + tail)[1..] == tail;
  }

  lemma ReplaceStep(whole: Bytes, done: Bytes, s: Bytes, start: nat, from: Bytes, to: Bytes, k: nat)
    requires from != [] && start <= |s| && 1 <= k <= Count(s[start..], from)
    requires whole == done + Join(Split(s[start..], from, 0, k + 1), to)
    ensures var j := start + Index(s[start..], from);
            start <= j && j + |from| <= |s| && k - 1 <= Count(s[j + |from|..], from) &&
            whole == ((done + s[start..j]) + to) + Join(Split(s[j + |from|..], from, 0, k), to)
  {
    hide Split, Join, Index, Count;
    var rest := s[start..];
    JoinSplitStep(rest, from, to, k);
    var m := Index(rest, from);
    assert rest[m + |from|..] == s[start + m + |from|..] && rest[..m] == s[start..start + m];
    var tail := Join(Split(rest[m + |from|..], from, 0, k), to);
    Regroup(done, rest[..m] + to, tail);
    Regroup(done, rest[..m], to);
  }

  /** `Replace` for a non-empty `from`: the buffer is filled exactly. */
  method Replace(s: Bytes, from: Bytes, to: Bytes, n: int) returns (r: Bytes)
    requires from != []
    ensures r == Join(Split(s, from, 0, Replaced(s, from, n) + 1), to)
    ensures |r| == |s| + Replaced(s, from, n) * (|to| - |from|)
  {
    var m := 0;
    if n != 0 { m := CountSep(s, from); }
    var k := if n < 0 || m < n then m else n;
    ReplacedLength(s, from, to, Replaced(s, from, n));
    if m == 0 { return s; }
    r := Exchange(s, from, to, k, |s| + k * (|to| - |from|));
  }

  /** The filling loop of Replace. */
  method Exchange(s: Bytes, from: Bytes, to: Bytes, k: nat, size: nat) returns (r: Bytes)
    requires from != [] && k <= Count(s, from) && size == |Join(Split(s, from, 0, k + 1), to)|
    ensures r == Join(Split(s, from, 0, k + 1), to)
  {
    hide Split, Join, Index, Count;
    ghost var whole := Join(Split(s, from, 0, k + 1), to);
    var t := new byte[size](_ => 0);
    var w, start, i := 0, 0, 0;
    assert s[0..] == s && t[..0] + whole == whole;
    while i < k
      invariant 0 <= i <= k && 0 <= start <= |s| && k - i <= Count(s[start..], from)
      invariant 0 <= w <= t.Length == |whole| && whole == t[..w] + Join(Split(s[start..], from, 0, k - i + 1), to)
    {
      ReplaceStep(whole, t[..w], s, start, from, to, k - i);
      var j := start + Index(s[start..], from);
      w := CopyAt(t, w, s[start..j]);
      w := CopyAt(t, w, to);
      start, i := j + |from|, i + 1;
    }
    JoinOnePiece(s[start..], from, to);
    w := CopyAt(t, w, s[start..]);
    assert t[..w] == whole;
    return t[..w];
  }

  lemma JoinOnePiece(s: Bytes, from: Bytes, to: Bytes)
    requires from != []
    ensures Join(Split(s, from, 0, 1), to) == s
  {}

  /** A limit of `n` replacements is a split into at most `n + 1` pieces, joined with the new text. */
  lemma ReplaceIsSplitJoin(s: Bytes, from: Bytes, to: Bytes, n: nat)
    requires from != []
    ensures Join(Split(s, from, 0, Replaced(s, from, n) + 1), to) == Join(Split(s, from, 0, n + 1), to)
  {
    SplitSaturates(s, from, 0, n + 1);
  }

  /** Without a limit all occurrences are replaced: it is the same as any limit of at least the length of the text. */
  lemma ReplaceAllIs(s: Bytes, from: Bytes, to: Bytes, limit: int, n: nat)
    requires from != [] && limit < 0 && n >= |s|
    ensures Replaced(s, from, limit) == Replaced(s, from, n)
    ensures Join(Split(s, from, 0, Replaced(s, from, limit) + 1), to) == Join(Split(s, from, 0, n + 1), to)
  {
    ReplaceIsSplitJoin(s, from, to, n);
  }

  // ---------- the overflow tests ----------

  /** What the tests with a quotient come to: one byte more in each of `k` parts would pass the limit. */
  lemma QuotientTest(x: nat, k: nat)
    requires k > 0
    ensures x >= MAX_INT / k <==> (x + 1) * k > MAX_INT
  {
    var q := MAX_INT / k;
    assert q * k <= MAX_INT < (q + 1) * k by { Quotient(MAX_INT, k); }
    if x >= q { Growing(q + 1, x + 1, k); } else { Growing(x + 1, q, k); }
  }

  lemma Quotient(m: nat, k: nat)
    requires k > 0
    ensures m / k * k <= m < (m / k + 1) * k
  {
    assert m == k * (m / k) + m % k;
    assert (m / k + 1) * k == m / k * k + k;
  }

  /**
   Repeat is documented to panic if the length of its result overflows. It panics exactly if the count is negative or
   one byte more in each copy would overflow: always where it should, and for some results that would fit.
  */
  lemma RepeatPanicsIff(b: Bytes, count: int)
    ensures RepeatPanics(b, count) <==> count < 0 || (count > 0 && (|b| + 1) * count > MAX_INT)
    ensures count >= 0 && |Copies(b, count)| > MAX_INT ==> RepeatPanics(b, count)
  {
    if count > 0 {
      QuotientTest(|b|, count);
      CopiesLength(b, count);
      assert (|b| + 1) * count == count * |b| + count;
    }
  }

  /** One result that would fit: a single copy of the longest slice. */
  lemma RepeatPanicsEarly(b: Bytes)
    requires |b| == MAX_INT
    ensures RepeatPanics(b, 1) && Copies(b, 1) == b
  {
    RepeatPanicsIff(b, 1);
    assert Copies(b, 0) == [] && b + [] == b;
  }

  /** Join panics exactly if the result does not fit, or would not with one byte more in each separator. */
  lemma JoinPanicsIff(parts: seq<Bytes>, sep: Bytes)
    requires |parts| >= 2
    ensures JoinOverflows(parts, sep) <==>
      |Join(parts, sep)| > MAX_INT || (sep != [] && (|sep| + 1) * (|parts| - 1) > MAX_INT)
  {
    QuotientTest(|sep|, |parts| - 1);
  }

  // ---------- Repeat ----------

  /** The tests of Repeat. */
  predicate RepeatPanics(b: Bytes, count: int) {
    count < 0 || (count > 0 && |b| >= MAX_INT / count)
  }

  function Copies(b: Bytes, count: nat): Bytes {
    if count == 0 then [] else b + Copies(b, count - 1)
  }

  lemma {:induction false} CopiesLength(b: Bytes, count: nat)
    ensures |Copies(b, count)| == count * |b|
  {
    if count > 0 {
      CopiesLength(b, count - 1);
      assert count * |b| == (count - 1) * |b| + |b|;
    }
  }

  lemma {:induction false} CopiesAdd(b: Bytes, c: nat, d: nat)
    ensures Copies(b, c + d) == Copies(b, c) + Copies(b, d)
  {
    if c > 0 {
      CopiesAdd(b, c - 1, d);
      assert Copies(b, c + d) == b + Copies(b, c - 1 + d);
      Regroup(b, Copies(b, c - 1), Copies(b, d));
    } else {
      assert [] + Copies(b, d) == Copies(b, d);
    }
  }

  /** Copy number `k` holds the bytes of `b` in their places. */
  lemma {:induction false} CopiesPeriodic(b: Bytes, count: nat, k: nat, j: nat)
    requires k < count && j < |b|
    ensures 0 <= k * |b| + j < |Copies(b, count)| == count * |b| && Copies(b, count)[k * |b| + j] == b[j]
  {
    CopiesLength(b, count);
    assert count * |b| == (count - 1) * |b| + |b|;
    if k > 0 {
      CopiesPeriodic(b, count - 1, k - 1, j);
      assert k * |b| == (k - 1) * |b| + |b|;
    }
  }

  lemma FrontCopies(b: Bytes, c: nat, d: nat)
    requires d <= c
    ensures d * |b| <= |Copies(b, c)| && Copies(b, c)[..d * |b|] == Copies(b, d)
  {
    CopiesLength(b, d);
    CopiesAdd(b, d, c - d);
  }

  lemma ProductOrder(x: nat, y: nat, l: nat)
    requires l > 0
    ensures x * l <= y * l <==> x <= y
  {
    if x <= y {
      Growing(x, y, l);
    } else {
      Growing(y + 1, x, l);
      assert (y + 1) * l == y * l + l;
    }
  }

  lemma Growing(x: nat, y: nat, l: nat)
    requires x <= y
    ensures x * l <= y * l
  {
    assert y * l == x * l + (y - x) * l;
  }

  /** The largest chunk the doubling may reach, in whole copies of `b`. */
  method ChunkCopies(len: nat, count: nat) returns (chunkMax: nat, ghost q: nat)
    requires len > 0 && count > 0
    ensures q >= 1 && chunkMax == q * len
  {
    chunkMax, q := count * len, count;
    if chunkMax > CHUNK_LIMIT {
      chunkMax, q := CHUNK_LIMIT / len * len, CHUNK_LIMIT / len;
      if chunkMax == 0 { chunkMax, q := len, 1; }
    }
  }

  /** Repeat by doubling copies inside the result; `None` stands for its two panics. */
  method Repeat(b: Bytes, count: int) returns (r: Option<Bytes>)
    ensures r.None? <==> RepeatPanics(b, count)
    ensures r.Some? ==> r.value == Copies(b, count)
  {
    if count == 0 { return Some([]); }
    if count < 0 { return None; }
    if |b| >= MAX_INT / count { return None; }
    if |b| == 0 {
      CopiesLength(b, count);
      assert |Copies(b, count)| == 0;
      return Some([]);
    }
    r := Doubled(b, count);
  }

  /** The doubling loop of Repeat. */
  method Doubled(b: Bytes, count: nat) returns (r: Option<Bytes>)
    requires b != [] && count > 0
    ensures r == Some(Copies(b, count))
  {
    var n := count * |b|;
    var chunkMax, q := ChunkCopies(|b|, count);
    var nb := new byte[n](_ => 0);
    ghost var c := 1;
    ProductOrder(1, count, |b|);
    var bp := CopyAt(nb, 0, b);
    assert nb[..bp] == Copies(b, 1);
    hide Copies;
    while bp < n
      invariant 1 <= c <= count && 0 <= bp == c * |b| <= n && nb[..bp] == Copies(b, c)
      decreases n - bp
    {
      SmallerProduct(c, count, |b|);
      bp, c := Double(nb, b, bp, chunkMax, count, c, q);
      ProductOrder(c, count, |b|);
    }
    ProductOrder(count, c, |b|);
    assert nb[..] == nb[..bp];
    return Some(nb[..]);
  }

  lemma SmallerProduct(x: nat, y: nat, l: nat)
    requires l > 0 && x * l < y * l
    ensures x < y
  {
    ProductOrder(y, x, l);
  }

  lemma RoundSize(len: nat, count: nat, c: nat, q: nat)
    requires len > 0 && q >= 1 && 1 <= c < count
    ensures var d := Min(count - c, Min(c, q));
            d * len == Min(count * len - c * len, Min(c * len, q * len)) &&
            (c + d) * len == c * len + d * len && d >= 1 && d * len >= 1
  {
    ProductOrder(c, q, len);
    ProductOrder(count - c, Min(c, q), len);
    ProductOrder(1, Min(count - c, Min(c, q)), len);
    assert (count - c) * len == count * len - c * len;
  }

  /** One round of the doubling loop: `bp += copy(nb[bp:], nb[:chunk])`. */
  method Double(nb: array<byte>, b: Bytes, bp: nat, chunkMax: nat, ghost count: nat, ghost c: nat, ghost q: nat)
    returns (bp1: nat, ghost c1: nat)
    requires b != [] && q >= 1 && chunkMax == q * |b| && nb.Length == count * |b|
    requires 1 <= c < count && bp == c * |b| < nb.Length && nb[..bp] == Copies(b, c)
    modifies nb
    ensures c < c1 <= count && bp < bp1 == c1 * |b| && nb[..bp1] == Copies(b, c1)
  {
    var chunk := bp;
    if chunk > chunkMax { chunk := chunkMax; }
    var size := Min(nb.Length - bp, chunk);
    ghost var d := Min(count - c, Min(c, q));
    RoundSize(|b|, count, c, q);
    assert size == d * |b|;
    hide Copies;
    FrontCopies(b, c, d);
    CopiesAdd(b, c, d);
    assert nb[..size] == nb[..bp][..size];
    bp1 := CopyAt(nb, bp, nb[..size]);
    c1 := c + d;
  }
}
