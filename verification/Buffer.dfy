/**
 The growable byte buffer of bytes/buffer.go: the unread bytes behave as a queue, and the bytes
 copied while making room are paid for by the bytes written.
*/
module Buffer {
  import opened Common
  import opened Streams

  const SMALL_BUFFER_SIZE: nat := 64
  const MIN_READ: nat := 512

  datatype ReadOp = OpInvalid | OpRead

  /** How `grow` makes room for `n` bytes. */
  datatype Plan = Reslice | Small | Slide | TooLarge | Realloc(minCap: nat)

  function GrowPlan(isNil: bool, cap: nat, off: nat, len: nat, n: nat): Plan
    requires off <= len <= cap
  {
    if n <= cap - len then Reslice
    else if isNil && n <= SMALL_BUFFER_SIZE then Small
    else if n <= cap / 2 - (len - off) then Slide
    else if cap > MAX_INT - cap - n then TooLarge
    else Realloc(Max(len - off + (off + n), 2 * (cap - off)))
  }

  /**
   The accounting behind amortised growth: a slide or a reallocation moves the `len - off` unread
   bytes, and gains at least as much free space. `m` is where the new bytes go.
  */
  lemma GrowPays(isNil: bool, cap: nat, off: nat, len: nat, n: nat, newCap: nat)
    requires off <= len <= cap && (isNil ==> cap == 0)
    ensures var m := len - off;
      match GrowPlan(isNil, cap, off, len, n)
      case Slide => cap - m >= (cap - len) + m && m + n <= cap
      case Realloc(minCap) => newCap >= minCap ==> newCap - m >= (cap - len) + m && m + n <= newCap
      case Small => SMALL_BUFFER_SIZE >= cap - len && m == 0
      case _ => true
  {
  }

  /** A reallocation asks for at most four times what the buffer is about to hold. */
  lemma ReallocModest(isNil: bool, cap: nat, off: nat, len: nat, n: nat)
    requires off <= len <= cap && GrowPlan(isNil, cap, off, len, n).Realloc?
    ensures GrowPlan(isNil, cap, off, len, n).minCap <= 4 * (len - off + n)
    ensures GrowPlan(isNil, cap, off, len, n).minCap <= MAX_INT
  {
  }

  /**
   Where growing is refused with ErrTooLarge: never unless twice the capacity and the room asked for pass the int limit,
   and then exactly if there is no cheaper way, by reslicing, a first small allocation or sliding.
  */
  lemma TooLargeIff(isNil: bool, cap: nat, off: nat, len: nat, n: nat)
    requires off <= len <= cap && (isNil ==> cap == 0)
    ensures var plan, m := GrowPlan(isNil, cap, off, len, n), len - off;
      && (plan.TooLarge? ==> 2 * cap + n > MAX_INT)
      && (n > cap - len && !(isNil && n <= SMALL_BUFFER_SIZE) && n > cap / 2 - m ==>
            (plan.TooLarge? <==> 2 * cap + n > MAX_INT))
      && (n <= cap / 2 - m ==> !plan.TooLarge? && !plan.Realloc?)
      && (isNil && 0 < n <= SMALL_BUFFER_SIZE ==> plan.Small?)
      && (cap <= MAX_INT < m + n ==> plan.TooLarge?)
  {
  }

  lemma SliceTake(s: seq<byte>, from: nat, to: nat, n: nat)
    requires from + n <= to <= |s|
    ensures s[from..to][..n] == s[from..from + n]
  {
  }

  class Buffer {
    var buf: array<byte>
    var len: nat
    var off: nat
    var isNil: bool
    var lastRead: ReadOp

    // Accounting: bytes moved by grow, bytes written, room asked for beyond that, the most that was unread and
    // asked for at one time, and by how much the allocator rounded up the present array.
    ghost var moved: nat
    ghost var written: nat
    ghost var asked: nat
    ghost var peak: nat
    ghost var slack: nat

    ghost predicate Shape()
      reads this
    {
      off <= len <= buf.Length <= MAX_INT && (isNil ==> buf.Length == 0)
    }

    /** Growth is amortised, and the capacity is proportional to the most there was at one time. */
    ghost predicate Paid()
      reads this
    {
      && len <= written && moved + len <= written + buf.Length
      && buf.Length <= SMALL_BUFFER_SIZE + 4 * peak + slack && peak <= written + asked
    }

    ghost predicate Valid()
      reads this
    {
      Shape() && Paid()
    }

    ghost function Accounts(): (nat, nat, nat, nat, nat)
      reads this
    {
      (moved, written, asked, peak, slack)
    }

    /** The unread portion. */
    function Contents(): seq<byte>
      reads this, buf
      requires Shape()
    {
      buf[off..len]
    }

    function Available(): nat
      reads this
      requires Shape()
    {
      buf.Length - len
    }

    /** The byte in front of the unread ones that UnreadByte would step back to. */
    function Behind(): Option<byte>
      reads this, buf
      requires Shape()
    {
      if off > 0 then Some(buf[off - 1]) else None
    }

    /** Making room for `n` bytes ends in ErrTooLarge; an empty buffer starts over at the front first. */
    predicate TooLarge(n: nat)
      reads this
      requires Shape()
    {
      if len == off then GrowPlan(isNil, buf.Length, 0, 0, n).TooLarge?
      else GrowPlan(isNil, buf.Length, off, len, n).TooLarge?
    }

    /** The zero value. */
    constructor ()
      ensures Valid() && Contents() == [] && lastRead == OpInvalid && fresh(buf)
      ensures moved == 0 && written == 0 && asked == 0 && peak == 0 && slack == 0
    {
      buf := new byte[0];
      len, off, isNil, lastRead := 0, 0, true, OpInvalid;
      moved, written, asked, peak, slack := 0, 0, 0, 0, 0;
    }

    /** NewBuffer: takes over the caller's slice, whose capacity counts as asked for. */
    constructor FromSlice(b: array<byte>, n: nat)
      requires n <= b.Length <= MAX_INT
      ensures Valid() && buf == b && Contents() == b[..n] && lastRead == OpInvalid
      ensures moved == 0 && written == n && asked == b.Length && peak == b.Length && slack == 0
    {
      buf, len, off, isNil, lastRead := b, n, 0, false, OpInvalid;
      moved, written, asked, peak, slack := 0, n, b.Length, b.Length, 0;
    }

    method Reset()
      requires Valid()
      modifies this
      ensures Valid() && Contents() == [] && buf == old(buf) && len == off == 0 && lastRead == OpInvalid
      ensures Accounts() == old(Accounts()) && isNil == old(isNil)
    {
      len, off, lastRead := 0, 0, OpInvalid;
    }

    /** The result is false where the source panics: n out of range. */
    method Truncate(n: int) returns (ok: bool)
      requires Valid()
      modifies this
      ensures Valid() && ok == (0 <= n <= |old(Contents())|)
      ensures Contents() == if ok then old(Contents())[..n] else old(Contents())
      ensures lastRead == OpInvalid && buf == old(buf) && Accounts() == old(Accounts())
      ensures n == 0 ==> off == 0
    {
      if n == 0 {
        Reset();
        return true;
      }
      lastRead := OpInvalid;
      if n < 0 || n > len - off { return false; }
      SliceTake(buf[..], off, len, n);
      len := off + n;
      return true;
    }

    /** growSlice on `buf[off..len]`: a new array with room for `off + n` more bytes, rounded up by the allocator. */
    method GrowSlice(n: nat) returns (b2: array<byte>)
      requires Shape() && GrowPlan(isNil, buf.Length, off, len, n).Realloc?
      ensures fresh(b2) && len - off <= b2.Length <= MAX_INT
      ensures b2.Length >= GrowPlan(isNil, buf.Length, off, len, n).minCap
      ensures b2[..len - off] == Contents()
    {
      ReallocModest(isNil, buf.Length, off, len, n);
      var c := len - off + (off + n);
      if c < 2 * (buf.Length - off) { c := 2 * (buf.Length - off); }
      var rounded: nat :| c <= rounded <= MAX_INT;
      b2 := new byte[rounded](_ => 0);
      forall k | 0 <= k < len - off { b2[k] := buf[off + k]; }
    }

    /** What `grow` promises: `n` writable bytes at `m`, behind the unread bytes. */
    ghost predicate Room(m: int, n: nat, was: seq<byte>)
      reads this, buf
    {
      && Shape() && off <= m && m + n == len && buf[off..m] == was
      && m <= written && moved + m <= written + buf.Length && peak <= written + asked
      && buf.Length <= SMALL_BUFFER_SIZE + 4 * Max(peak, m - off + n) + slack
    }

    /** The unread bytes slide to the front of the array. */
    method SlideDown(n: nat)
      requires Valid() && GrowPlan(isNil, buf.Length, off, len, n).Slide?
      modifies this, buf
      ensures Room(len - n, n, old(Contents())) && buf == old(buf) && lastRead == old(lastRead)
      ensures written == old(written) && asked == old(asked) && peak == old(peak) && slack == old(slack)
      ensures moved == old(moved) + |old(Contents())| && off == 0
    {
      GrowPays(isNil, buf.Length, off, len, n, 0);
      var m := len - off;
      forall k | 0 <= k < m { buf[k] := buf[off + k]; }
      moved := moved + m;
      off, len := 0, m + n;
    }

    /** The unread bytes move to a larger array. */
    method Reallocate(n: nat)
      requires Valid() && GrowPlan(isNil, buf.Length, off, len, n).Realloc?
      modifies this
      ensures Room(len - n, n, old(Contents())) && fresh(buf) && lastRead == old(lastRead)
      ensures written == old(written) && asked == old(asked) && peak == old(peak)
      ensures slack == buf.Length - GrowPlan(old(isNil), old(buf.Length), old(off), old(len), n).minCap
      ensures moved == old(moved) + |old(Contents())| && off == 0
    {
      hide GrowPlan;
      var b2 := GrowSlice(n);
      GrowPays(isNil, buf.Length, off, len, n, b2.Length);
      ReallocModest(isNil, buf.Length, off, len, n);
      Switch(b2, len - off, n, b2.Length - GrowPlan(isNil, buf.Length, off, len, n).minCap);
    }

    /** Installs the new array. */
    method Switch(b2: array<byte>, m: nat, n: nat, ghost slack': nat)
      requires m == len - off && m + n <= b2.Length <= MAX_INT && m <= written
      requires moved + m + m <= written + b2.Length
      requires b2.Length <= 4 * (m + n) + slack' && peak <= written + asked
      modifies this
      ensures Room(m, n, b2[..m]) && buf == b2 && off == 0 && lastRead == old(lastRead)
      ensures written == old(written) && asked == old(asked) && peak == old(peak)
      ensures slack == slack' && moved == old(moved) + m
    {
      slack, moved := slack', moved + m;
      buf, isNil, off, len := b2, false, 0, m + n;
    }

    /** The first small write. */
    method AllocateSmall(n: nat)
      requires Valid() && isNil && n <= SMALL_BUFFER_SIZE
      modifies this
      ensures Room(0, n, []) && fresh(buf) && lastRead == old(lastRead) && moved == old(moved)
      ensures written == old(written) && asked == old(asked) && peak == old(peak)
    {
      buf := new byte[SMALL_BUFFER_SIZE](_ => 0);
      len, isNil := n, false;
    }

    /** The part of `grow` behind the failed reslice; `m` unread bytes. */
    method MakeRoomSlow(m: nat, n: nat) returns (ok: bool)
      requires Valid() && m == len - off && n > buf.Length - len && (m == 0 ==> off == 0)
      modifies this, buf
      ensures (buf == old(buf) || fresh(buf)) && written == old(written) && asked == old(asked) && peak == old(peak)
      ensures ok == !old(TooLarge(n))
      ensures ok ==> Room(m, n, old(Contents()))
      ensures !ok ==> Valid() && Contents() == old(Contents())
      ensures moved == old(moved) || moved == old(moved) + m
      ensures lastRead == old(lastRead) && (ok ==> off == 0) && (!ok ==> TooLarge(n))
    {
      ok := true;
      var c := buf.Length;
      if isNil && n <= SMALL_BUFFER_SIZE {
        AllocateSmall(n);
      } else if n <= c / 2 - m {
        SlideDown(n);
      } else if c > MAX_INT - c - n {
        ok := false;
      } else {
        Reallocate(n);
      }
    }

    /** `grow`: room for `n` bytes at index `m`; `ok` is false where the source panics with ErrTooLarge. */
    method MakeRoom(n: nat) returns (m: nat, ok: bool)
      requires Valid()
      modifies this, buf
      ensures (buf == old(buf) || fresh(buf)) && written == old(written) && asked == old(asked) && peak == old(peak)
      ensures ok == !old(TooLarge(n))
      ensures ok ==> Room(m, n, old(Contents()))
      ensures !ok ==> Valid() && Contents() == old(Contents())
      ensures moved == old(moved) || moved == old(moved) + |old(Contents())|
      ensures lastRead == if old(Contents()) == [] && old(off) > 0 then OpInvalid else old(lastRead)
      ensures !ok ==> TooLarge(n)
      ensures ok ==> if old(Contents()) == [] || n > old(Available()) then off == 0 else Behind() == old(Behind())
    {
      m, ok := len - off, true;
      if m == 0 && off != 0 { Reset(); }
      if n <= buf.Length - len {
        m, len := len, len + n;
      } else {
        ok := MakeRoomSlow(m, n);
      }
    }

    /** `Grow`: false where the source panics. */
    method Grow(n: int) returns (ok: bool)
      requires Valid()
      modifies this, buf
      ensures Valid() && Contents() == old(Contents()) && (buf == old(buf) || fresh(buf))
      ensures ok == (n >= 0 && !old(TooLarge(n))) && (ok ==> Available() >= n) && (!ok && n >= 0 ==> TooLarge(n))
      ensures written == old(written) && (moved == old(moved) || moved == old(moved) + |old(Contents())|)
      ensures peak == if ok then Max(old(peak), |old(Contents())| + n) else old(peak)
      ensures ok ==> lastRead == if old(Contents()) == [] && old(off) > 0 then OpInvalid else old(lastRead)
      ensures ok ==> if old(Contents()) == [] || n > old(Available()) then off == 0 else Behind() == old(Behind())
    {
      if n < 0 { return false; }
      ok := OpenRoom(n);
    }

    /** `b.buf = b.buf[:b.grow(n)]`. */
    method OpenRoom(n: nat) returns (ok: bool)
      requires Valid()
      modifies this, buf
      ensures Valid() && Contents() == old(Contents()) && (buf == old(buf) || fresh(buf))
      ensures ok == !old(TooLarge(n)) && (ok ==> Available() >= n) && (!ok ==> TooLarge(n))
      ensures written == old(written) && (moved == old(moved) || moved == old(moved) + |old(Contents())|)
      ensures peak == if ok then Max(old(peak), |old(Contents())| + n) else old(peak)
      ensures lastRead == if old(Contents()) == [] && old(off) > 0 then OpInvalid else old(lastRead)
      ensures ok ==> if old(Contents()) == [] || n > old(Available()) then off == 0 else Behind() == old(Behind())
    {
      hide Contents, TooLarge;
      var m;
      m, ok := MakeRoom(n);
      if !ok { return; }
      Claim(m, n, old(Contents()));
    }

    /** The room made is not used yet. */
    method Claim(m: nat, n: nat, ghost was: seq<byte>)
      requires Room(m, n, was)
      modifies this`asked, this`peak, this`len
      ensures Valid() && Contents() == was && Available() >= n && peak == Max(old(peak), |was| + n)
    {
      asked := asked + n;
      peak := Max(peak, m - off + n);
      len := m;
    }

    /** `Write` (and WriteString): appends `p`; false where the source panics with ErrTooLarge. */
    method Write(p: seq<byte>) returns (ok: bool)
      requires Valid()
      modifies this, buf
      ensures Valid() && (buf == old(buf) || fresh(buf)) && lastRead == OpInvalid
      ensures ok == !old(TooLarge(|p|)) && Contents() == if ok then old(Contents()) + p else old(Contents())
      ensures written == old(written) + (if ok then |p| else 0) && (!ok ==> TooLarge(|p|))
      ensures p == [] ==> Behind() == old(Behind())
      ensures asked == old(asked) && (moved == old(moved) || moved == old(moved) + |old(Contents())|)
      ensures peak == if ok then Max(old(peak), |Contents()|) else old(peak)
    {
      hide GrowPlan;
      lastRead := OpInvalid;
      var m;
      m, ok := Reserve(|p|);
      if ok { CopyIn(m, p); }
    }

    /** tryGrowByReslice, and grow if that fails. */
    method Reserve(n: nat) returns (m: nat, ok: bool)
      requires Valid()
      modifies this, buf
      ensures (buf == old(buf) || fresh(buf)) && written == old(written) && asked == old(asked) && peak == old(peak)
      ensures ok == !old(TooLarge(n))
      ensures ok ==> Room(m, n, old(Contents()))
      ensures !ok ==> Valid() && Contents() == old(Contents()) && TooLarge(n)
      ensures moved == old(moved) || moved == old(moved) + |old(Contents())|
      ensures lastRead == old(lastRead) || lastRead == OpInvalid
      ensures n == 0 ==> Behind() == old(Behind())
    {
      if n <= buf.Length - len {
        m, ok := len, true;
        len := len + n;
      } else {
        m, ok := MakeRoom(n);
      }
    }

    /** `copy(b.buf[m:], p)` into room already made. */
    method CopyIn(m: nat, p: seq<byte>)
      requires exists was :: Room(m, |p|, was)
      modifies buf, this`written, this`peak
      ensures Valid() && Contents() == old(buf[off..m]) + p && (p == [] ==> Behind() == old(Behind()))
      ensures written == old(written) + |p| && peak == Max(old(peak), |Contents()|)
    {
      written := written + |p|;
      peak := Max(peak, m - off + |p|);
      forall k | 0 <= k < |p| { buf[m + k] := p[k]; }
      assert buf[m..len] == p;
      assert buf[off..len] == buf[off..m] + buf[m..len];
    }

    method WriteByte(c: byte) returns (ok: bool)
      requires Valid()
      modifies this, buf
      ensures Valid() && (buf == old(buf) || fresh(buf)) && lastRead == OpInvalid
      ensures ok == !old(TooLarge(1)) && Contents() == if ok then old(Contents()) + [c] else old(Contents())
      ensures written == old(written) + (if ok then 1 else 0) && (!ok ==> TooLarge(1))
      ensures asked == old(asked) && (moved == old(moved) || moved == old(moved) + |old(Contents())|)
      ensures peak == if ok then Max(old(peak), |Contents()|) else old(peak)
    {
      hide GrowPlan;
      lastRead := OpInvalid;
      var m;
      m, ok := Reserve(1);
      if ok { PutByte(m, c); }
    }

    /** `b.buf[m] = c` in room already made. */
    method PutByte(m: nat, c: byte)
      requires exists was :: Room(m, 1, was)
      modifies buf, this`written, this`peak
      ensures Valid() && Contents() == old(buf[off..m]) + [c]
      ensures written == old(written) + 1 && peak == Max(old(peak), |Contents()|)
    {
      written := written + 1;
      peak := Max(peak, m + 1 - off);
      buf[m] := c;
      assert buf[off..len] == buf[off..m] + [c];
    }

    /** `Read` into a slice of `size` bytes. */
    method Read(size: nat) returns (data: seq<byte>, err: Option<IoError>)
      requires Valid()
      modifies this
      ensures Valid() && buf == old(buf) && Accounts() == old(Accounts())
      ensures old(Contents()) == data + Contents() && |data| == Min(size, |old(Contents())|)
      ensures err == if old(Contents()) == [] && size > 0 then Some(EOF) else None
      ensures lastRead == if data == [] then OpInvalid else OpRead
      ensures off == if old(Contents()) == [] then 0 else old(off) + |data|
    {
      lastRead := OpInvalid;
      if len <= off {
        Reset();
        return [], if size == 0 then None else Some(EOF);
      }
      var n := Min(size, len - off);
      data, err := buf[off..off + n], None;
      off := off + n;
      if n > 0 { lastRead := OpRead; }
    }

    /** `Next`. */
    method Next(n: nat) returns (data: seq<byte>)
      requires Valid()
      modifies this
      ensures Valid() && buf == old(buf) && Accounts() == old(Accounts())
      ensures old(Contents()) == data + Contents() && |data| == Min(n, |old(Contents())|)
      ensures lastRead == if data == [] then OpInvalid else OpRead
      ensures off == old(off) + |data|
    {
      lastRead := OpInvalid;
      var m := Min(n, len - off);
      data := buf[off..off + m];
      off := off + m;
      if m > 0 { lastRead := OpRead; }
    }

    method ReadByte() returns (c: Option<byte>)
      requires Valid()
      modifies this
      ensures Valid() && buf == old(buf) && Accounts() == old(Accounts())
      ensures c.None? <==> old(Contents()) == []
      ensures c.Some? ==> old(Contents()) == [c.value] + Contents() && off == old(off) + 1 && lastRead == OpRead
      ensures c.None? ==> Contents() == [] && lastRead == OpInvalid && off == 0
    {
      if len <= off {
        Reset();
        return None;
      }
      c := Some(buf[off]);
      off, lastRead := off + 1, OpRead;
    }

    /** The delimiter's position, relative to the unread bytes; -1 if absent. */
    method FindByte(delim: byte) returns (i: int)
      requires Valid()
      ensures -1 <= i < len - off
      ensures i < 0 ==> delim !in Contents()
      ensures i >= 0 ==> Contents()[i] == delim && delim !in Contents()[..i]
    {
      i := 0;
      while i < len - off
        invariant 0 <= i <= len - off && delim !in Contents()[..i]
      {
        if buf[off + i] == delim { return; }
        i := i + 1;
      }
      assert Contents()[..i] == Contents();
      i := -1;
    }

    /** `ReadBytes`: through the first delimiter, or everything with EOF. */
    method ReadBytes(delim: byte) returns (line: seq<byte>, err: Option<IoError>)
      requires Valid()
      modifies this
      ensures Valid() && buf == old(buf) && Accounts() == old(Accounts())
      ensures old(Contents()) == line + Contents() && off == old(off) + |line|
      ensures err == None ==> line != [] && line[|line| - 1] == delim && delim !in line[..|line| - 1]
      ensures err != None ==> err == Some(EOF) && delim !in line && Contents() == []
      ensures lastRead == OpRead
    {
      var i := FindByte(delim);
      var end := off + i + 1;
      err := None;
      if i < 0 { end, err := len, Some(EOF); }
      line := buf[off..end];
      if i >= 0 {
        SliceTake(buf[..], off, len, i + 1);
        SliceTake(buf[..], off, len, i);
        assert line[..i] == buf[off..off + i];
      }
      off, lastRead := end, OpRead;
    }

    /** `UnreadByte`: steps back over the last byte, unless nothing was read or growing has moved the bytes. */
    method UnreadByte() returns (ok: bool)
      requires Valid()
      modifies this
      ensures Valid() && buf == old(buf) && lastRead == OpInvalid && Accounts() == old(Accounts())
      ensures ok == (old(lastRead) != OpInvalid)
      ensures Contents() == if ok && old(off) > 0 then [buf[old(off) - 1]] + old(Contents()) else old(Contents())
      ensures off == if ok && old(off) > 0 then old(off) - 1 else old(off)
    {
      if lastRead == OpInvalid { return false; }
      lastRead := OpInvalid;
      if off > 0 { off := off - 1; }
      return true;
    }

    /** One iteration of ReadFrom: make room for MinRead bytes and read into all the room there is. */
    method ReadChunk(r: Source) returns (m: nat, e: Option<IoError>, ok: bool)
      requires Valid()
      modifies this, buf, r
      ensures Valid() && (buf == old(buf) || fresh(buf))
      ensures m <= |old(r.rest)| && r.rest == old(r.rest)[m..] && Contents() == old(Contents()) + old(r.rest)[..m]
      ensures e == None || e == Some(r.end)
      ensures !ok ==> m == 0 && e == None && TooLarge(MIN_READ)
      ensures ok && e == Some(r.end) ==> r.rest == []
      ensures ok && m == 0 && e == None ==> r.stalls == old(r.stalls) + 1 <= r.maxStalls
      ensures lastRead == old(lastRead) || lastRead == OpInvalid
      ensures written == old(written) + m && (ok && Contents() == [] ==> off == 0)
      ensures peak <= Max(old(peak), |old(Contents())| + MIN_READ)
    {
      hide Contents, Paid, TooLarge;
      m, e := 0, None;
      ok := OpenRoom(MIN_READ);
      if !ok {
        assert r.rest[0..] == r.rest && Contents() + r.rest[..0] == Contents();
        return;
      }
      ghost var was := Contents();
      m, e := Receive(r);
      assert Contents() == [] ==> was == [];
    }

    /** `r.Read(b.buf[i:cap(b.buf)])`, keeping the bytes delivered. */
    method Receive(r: Source) returns (m: nat, e: Option<IoError>)
      requires Valid() && len < buf.Length
      modifies this, buf, r
      ensures Valid() && buf == old(buf) && lastRead == old(lastRead) && off == old(off) && written == old(written) + m
      ensures peak == old(peak)
      ensures m <= |old(r.rest)| && r.rest == old(r.rest)[m..] && Contents() == old(Contents()) + old(r.rest)[..m]
      ensures e == None || e == Some(r.end)
      ensures e == Some(r.end) ==> r.rest == []
      ensures m == 0 && e == None ==> r.stalls == old(r.stalls) + 1 <= r.maxStalls
    {
      ghost var before := buf[..len];
      m, e := r.Read(buf, len, buf.Length);
      len := len + m;
      written := written + m;
      assert buf[..len] == before + old(r.rest)[..m];
      assert buf[off..len] == buf[..len][off..] == before[off..] + old(r.rest)[..m];
      assert before[off..] == old(Contents());
    }

    /**
     `ReadFrom`: everything the source delivers, and its error unless that is EOF; `ok` is false
     where the source panics with ErrTooLarge, which it does only without room for MinRead bytes.
    */
    method ReadFrom(r: Source) returns (n: nat, e: Option<IoError>, ok: bool)
      requires Valid()
      modifies this, buf, r
      ensures Valid() && lastRead == OpInvalid && (buf == old(buf) || fresh(buf))
      ensures n <= |old(r.rest)| && r.rest == old(r.rest)[n..]
      ensures Contents() == old(Contents()) + old(r.rest)[..n]
      ensures ok ==> r.rest == [] && e == if r.end == EOF then None else Some(r.end)
      ensures !ok ==> e == None && TooLarge(MIN_READ)
      ensures written == old(written) + n && (ok && Contents() == [] ==> off == 0)
      ensures peak <= Max(old(peak), |Contents()| + MIN_READ)
    {
      lastRead, n, ok, e := OpInvalid, 0, true, None;
      while true
        invariant Valid() && lastRead == OpInvalid && (buf == old(buf) || fresh(buf))
        invariant n <= |old(r.rest)| && r.rest == old(r.rest)[n..]
        invariant Contents() == old(Contents()) + old(r.rest)[..n]
        invariant written == old(written) + n && e == None && peak <= Max(old(peak), |Contents()| + MIN_READ)
        decreases |r.rest|, if r.stalls <= r.maxStalls then r.maxStalls - r.stalls + 1 else 0
      {
        hide Contents, Paid, TooLarge;
        ghost var left := r.rest;
        var m;
        m, e, ok := ReadChunk(r);
        if !ok { return; }
        SliceChain(old(r.rest), n, m);
        Regroup(old(Contents()), old(r.rest)[..n], left[..m]);
        n := n + m;
        if e == Some(EOF) { return n, None, true; }
        if e.Some? { return; }
      }
    }
  }
}
