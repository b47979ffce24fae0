/**
 Whole runs of the buffer of bytes/buffer.go against a queue of bytes that remembers what
 UnreadByte needs, and the rule of UnreadByte's documentation against what the code does.
*/
module BufferRuns {
  import opened Common
  import opened Streams
  import opened Buffer

  // ---------- the queue a buffer stands for ----------

  /** `back`: the byte in front of the queue, as far as UnreadByte may still return to it. */
  datatype Queue = Queue(bytes: seq<byte>, back: Option<byte>, canUnread: bool)

  const EMPTY := Queue([], None, false)

  ghost function AsQueue(b: Buffer): Queue
    requires b.Shape()
    reads b, b.buf
  {
    var canUnread := b.lastRead == OpRead;
    Queue(b.Contents(), if canUnread || b.Contents() == [] then b.Behind() else None, canUnread)
  }

  datatype Op = DoWrite(p: seq<byte>) | DoWriteByte(c: byte) | DoRead(size: nat) | DoNext(n: nat)
              | DoReadByte | DoReadBytes(delim: byte) | DoUnreadByte | DoTruncate(keep: int) | DoGrow(room: int)
              | DoReset | DoReadFrom(data: seq<byte>, end: EndError, patience: nat)

  /** What an operation hands out, and whether it reports an error. */
  datatype Reply = Reply(data: seq<byte>, error: bool)

  function Quiet(bytes: seq<byte>, back: Option<byte>): Queue {
    Queue(bytes, if bytes == [] then back else None, false)
  }

  /** The first `n` bytes are taken off. */
  function Taken(q: Queue, n: nat): (Queue, Reply)
    requires 0 < n <= |q.bytes|
  {
    (Queue(q.bytes[n..], Some(q.bytes[n - 1]), true), Reply(q.bytes[..n], false))
  }

  /**
   The queue after an operation that is not refused. A Grow that moves the bytes, `moved`, loses
   the byte in front of them.
  */
  function QueueStep(q: Queue, op: Op, moved: bool): (r: (Queue, Reply)) {
    var quiet := Reply([], false);
    match op
    case DoWrite(p) => (Quiet(q.bytes + p, q.back), quiet)
    case DoWriteByte(c) => (Quiet(q.bytes + [c], None), quiet)
    case DoRead(size) =>
      if q.bytes == [] then (EMPTY, Reply([], size > 0))
      else if size == 0 then (Quiet(q.bytes, None), quiet)
      else Taken(q, Min(size, |q.bytes|))
    case DoNext(n) =>
      if q.bytes == [] || n == 0 then (Quiet(q.bytes, q.back), quiet) else Taken(q, Min(n, |q.bytes|))
    case DoReadByte => if q.bytes == [] then (EMPTY, Reply([], true)) else Taken(q, 1)
    case DoReadBytes(delim) =>
      var i := IndexByte(q.bytes, delim);
      if q.bytes == [] then (q.(canUnread := true), Reply([], true))
      else if i >= 0 then Taken(q, i + 1)
      else var (rest, reply) := Taken(q, |q.bytes|); (rest, reply.(error := true))
    case DoUnreadByte =>
      if !q.canUnread then (q, Reply([], true))
      else if q.back.None? then (q.(canUnread := false), quiet)
      else (Quiet([q.back.value] + q.bytes, None), quiet)
    case DoTruncate(keep) =>
      if 0 <= keep <= |q.bytes| then (Quiet(q.bytes[..keep], None), quiet) else (q, quiet)
    case DoGrow(_) =>
      if q.bytes == [] then (Queue([], None, q.canUnread && q.back.None?), quiet)
      else (q.(back := if moved then None else q.back), quiet)
    case DoReset => (EMPTY, quiet)
    case DoReadFrom(data, end, _) => (Quiet(q.bytes + data, None), Reply([], end != EOF))
  }

  function QueueRun(q: Queue, ops: seq<Op>, moved: seq<bool>): (r: (Queue, seq<Reply>))
    requires |moved| == |ops|
  {
    if ops == [] then (q, [])
    else
      var n := |ops| - 1;
      var (q1, replies) := QueueRun(q, ops[..n], moved[..n]);
      var (q2, reply) := QueueStep(q1, ops[n], moved[n]);
      (q2, replies + [reply])
  }

  function BytesWritten(ops: seq<Op>): nat {
    if ops == [] then 0
    else
      BytesWritten(ops[..|ops| - 1])
      + match ops[|ops| - 1]
        case DoWrite(p) => |p|
        case DoWriteByte(_) => 1
        case DoReadFrom(data, _, _) => |data|
        case _ => 0
  }

  /** The most an operation needs at one time: the bytes unread and those it adds or asks room for. */
  function Needs(q: Queue, op: Op): nat {
    match op
    case DoWrite(p) => |q.bytes| + |p|
    case DoWriteByte(_) => |q.bytes| + 1
    case DoGrow(room) => |q.bytes| + Max(room, 0)
    case DoReadFrom(data, _, _) => |q.bytes| + |data| + MIN_READ
    case _ => 0
  }

  function Peak(q: Queue, ops: seq<Op>, moved: seq<bool>): (r: nat)
    requires |moved| == |ops|
  {
    if ops == [] then 0
    else
      var n := |ops| - 1;
      Max(Peak(q, ops[..n], moved[..n]), Needs(QueueRun(q, ops[..n], moved[..n]).0, ops[n]))
  }

  /** Where the source panics: a count out of range, or no room below the int limit. */
  ghost predicate Refused(b: Buffer, op: Op)
    requires b.Shape()
    reads b
  {
    match op
    case DoWrite(p) => b.TooLarge(|p|)
    case DoWriteByte(_) => b.TooLarge(1)
    case DoTruncate(keep) => keep < 0 || keep > b.len - b.off
    case DoGrow(room) => room < 0 || b.TooLarge(room)
    case DoReadFrom(_, _, _) => b.TooLarge(MIN_READ)
    case _ => false
  }

  // ---------- one operation ----------

  lemma TakenIs(q: Queue, a: seq<byte>, rest: seq<byte>, n: nat)
    requires q.bytes == a + rest && |a| == n > 0
    ensures Taken(q, n) == (Queue(rest, Some(a[n - 1]), true), Reply(a, false))
  {
  }

  /** The byte just taken is the one in front. */
  lemma BehindTaken(s: seq<byte>, off: nat, n: nat, len: nat)
    requires 0 < n && off + n <= len <= |s|
    ensures s[off + n - 1] == s[off..len][..n][n - 1]
  {
  }

  method PerformRead(b: Buffer, size: nat) returns (reply: Reply)
    requires b.Valid()
    modifies b
    ensures b.Valid() && b.buf == old(b.buf) && b.written == old(b.written) && b.peak == old(b.peak)
    ensures (AsQueue(b), reply) == QueueStep(old(AsQueue(b)), DoRead(size), false)
  {
    ghost var s, off, len := b.buf[..], b.off, b.len;
    ghost var q := AsQueue(b);
    var data, err := b.Read(size);
    reply := Reply(data, err.Some?);
    if data != [] {
      BehindTaken(s, off, |data|, len);
      TakenIs(q, data, b.Contents(), |data|);
    }
  }

  method PerformNext(b: Buffer, n: nat) returns (reply: Reply)
    requires b.Valid()
    modifies b
    ensures b.Valid() && b.buf == old(b.buf) && b.written == old(b.written) && b.peak == old(b.peak)
    ensures (AsQueue(b), reply) == QueueStep(old(AsQueue(b)), DoNext(n), false)
  {
    ghost var s, off, len := b.buf[..], b.off, b.len;
    ghost var q := AsQueue(b);
    var data := b.Next(n);
    reply := Reply(data, false);
    if data != [] {
      BehindTaken(s, off, |data|, len);
      TakenIs(q, data, b.Contents(), |data|);
    }
  }

  method PerformReadByte(b: Buffer) returns (reply: Reply)
    requires b.Valid()
    modifies b
    ensures b.Valid() && b.buf == old(b.buf) && b.written == old(b.written) && b.peak == old(b.peak)
    ensures (AsQueue(b), reply) == QueueStep(old(AsQueue(b)), DoReadByte, false)
  {
    ghost var s, off, len := b.buf[..], b.off, b.len;
    ghost var q := AsQueue(b);
    var c := b.ReadByte();
    var data: seq<byte> := if c.Some? then [c.value] else [];
    reply := Reply(data, c.None?);
    if data != [] {
      BehindTaken(s, off, |data|, len);
      TakenIs(q, data, b.Contents(), |data|);
    }
  }

  /** ReadBytes in terms of the queue: what is read is taken off the front, and may be unread. */
  method TakeLine(b: Buffer, delim: byte) returns (data: seq<byte>, error: bool)
    requires b.Valid()
    modifies b
    ensures b.Valid() && b.buf == old(b.buf) && b.written == old(b.written) && b.peak == old(b.peak)
    ensures old(AsQueue(b)).bytes == data + AsQueue(b).bytes
    ensures !error ==> data != [] && data[|data| - 1] == delim && delim !in data[..|data| - 1]
    ensures error ==> delim !in data && AsQueue(b).bytes == []
    ensures AsQueue(b).canUnread
    ensures AsQueue(b).back == if data == [] then old(AsQueue(b)).back else Some(data[|data| - 1])
  {
    ghost var s, off, len := b.buf[..], b.off, b.len;
    var err;
    data, err := b.ReadBytes(delim);
    error := err.Some?;
    if data != [] { BehindTaken(s, off, |data|, len); }
  }

  method PerformReadBytes(b: Buffer, delim: byte) returns (reply: Reply)
    requires b.Valid()
    modifies b
    ensures b.Valid() && b.buf == old(b.buf) && b.written == old(b.written) && b.peak == old(b.peak)
    ensures (AsQueue(b), reply) == QueueStep(old(AsQueue(b)), DoReadBytes(delim), false)
  {
    hide AsQueue, IndexByte;
    ghost var q := AsQueue(b);
    var data, error := TakeLine(b, delim);
    reply := Reply(data, error);
    DelimiterAt(q.bytes, data, AsQueue(b).bytes, delim, error);
    if data != [] { TakenIs(q, data, AsQueue(b).bytes, |data|); }
  }

  method PerformUnread(b: Buffer) returns (reply: Reply)
    requires b.Valid()
    modifies b
    ensures b.Valid() && b.buf == old(b.buf) && b.written == old(b.written) && b.peak == old(b.peak)
    ensures (AsQueue(b), reply) == QueueStep(old(AsQueue(b)), DoUnreadByte, false)
  {
    var ok := b.UnreadByte();
    reply := Reply([], !ok);
  }

  lemma DelimiterAt(t: seq<byte>, line: seq<byte>, rest: seq<byte>, delim: byte, error: bool)
    requires t == line + rest
    requires !error ==> line != [] && line[|line| - 1] == delim && delim !in line[..|line| - 1]
    requires error ==> delim !in line && rest == []
    ensures IndexByte(t, delim) == if error then -1 else |line| - 1
  {
    if error {
      assert t == line;
      IndexAbsent(t, delim);
    } else {
      var k := |line| - 1;
      assert t[..k] == line[..k];
      IndexUnique(t, delim, k);
    }
  }

  method PerformChange(b: Buffer, op: Op) returns (reply: Reply, moved: bool, ok: bool)
    requires b.Valid() && (op.DoWrite? || op.DoWriteByte? || op.DoTruncate? || op.DoGrow? || op.DoReset?)
    modifies b, b.buf
    ensures b.Valid() && (b.buf == old(b.buf) || fresh(b.buf))
    ensures ok ==> (AsQueue(b), reply) == QueueStep(old(AsQueue(b)), op, moved)
    ensures ok ==> b.written == old(b.written) + BytesWritten([op])
    ensures ok ==> b.peak <= Max(old(b.peak), Needs(old(AsQueue(b)), op))
    ensures !ok ==> Refused(b, op) && b.Contents() == old(b.Contents())
  {
    reply, moved, ok := Reply([], false), false, true;
    assert [op][..0] == [];
    match op
    case DoWrite(p) => ok := b.Write(p);
    case DoWriteByte(c) => ok := b.WriteByte(c);
    case DoTruncate(keep) => ok := b.Truncate(keep);
    case DoGrow(room) =>
      moved := room > b.Available();
      ok := b.Grow(room);
    case DoReset => b.Reset();
  }

  /** ReadFrom a source of `data`; where the source panics, `partial` has been read by then. */
  method PerformReadFrom(b: Buffer, data: seq<byte>, end: EndError, patience: nat)
    returns (reply: Reply, ok: bool, partial: seq<byte>)
    requires b.Valid()
    modifies b, b.buf
    ensures b.Valid() && (b.buf == old(b.buf) || fresh(b.buf))
    ensures ok ==>
      (AsQueue(b), reply) == QueueStep(old(AsQueue(b)), DoReadFrom(data, end, patience), false) && partial == []
    ensures ok ==> b.written == old(b.written) + |data|
    ensures ok ==> b.peak <= Max(old(b.peak), |old(b.Contents())| + |data| + MIN_READ)
    ensures !ok ==> b.TooLarge(MIN_READ) && b.Contents() == old(b.Contents()) + partial && partial <= data
  {
    var r := new Source(data, patience, end);
    var n, e;
    n, e, ok := b.ReadFrom(r);
    reply, partial := Reply([], e.Some?), [];
    if ok {
      assert data[..n] == data;
    } else {
      partial := data[..n];
    }
  }

  /** One operation; `ok` is false where the source panics. */
  method Perform(b: Buffer, op: Op) returns (reply: Reply, moved: bool, ok: bool, partial: seq<byte>)
    requires b.Valid()
    modifies b, b.buf
    ensures b.Valid() && (b.buf == old(b.buf) || fresh(b.buf))
    ensures ok ==> (AsQueue(b), reply) == QueueStep(old(AsQueue(b)), op, moved)
    ensures ok ==> b.written == old(b.written) + BytesWritten([op])
    ensures ok ==> b.peak <= Max(old(b.peak), Needs(old(AsQueue(b)), op))
    ensures !ok ==> Refused(b, op) && b.Contents() == old(b.Contents()) + partial
    ensures partial == [] || (!ok && op.DoReadFrom? && partial <= op.data)
  {
    moved, ok, partial := false, true, [];
    assert [op][..0] == [];
    match op
    case DoRead(size) => reply := PerformRead(b, size);
    case DoNext(n) => reply := PerformNext(b, n);
    case DoReadByte => reply := PerformReadByte(b);
    case DoReadBytes(delim) => reply := PerformReadBytes(b, delim);
    case DoUnreadByte => reply := PerformUnread(b);
    case DoReadFrom(data, end, patience) => reply, ok, partial := PerformReadFrom(b, data, end, patience);
    case _ => reply, moved, ok := PerformChange(b, op);
  }

  // ---------- whole runs ----------

  /** What the run `ops` on a queue `q0` gave: `done` operations in full, then `partial` bytes of a refused ReadFrom. */
  ghost predicate Refines(b: Buffer, q0: Queue, ops: seq<Op>, replies: seq<Reply>, moved: seq<bool>, done: nat,
                          partial: seq<byte>)
    requires b.Shape()
    reads b, b.buf
  {
    && done <= |ops| && |moved| == done
    && replies == QueueRun(q0, ops[..done], moved).1
    && b.Contents() == QueueRun(q0, ops[..done], moved).0.bytes + partial
    && (done == |ops| ==> AsQueue(b) == QueueRun(q0, ops, moved).0)
    && (done < |ops| ==> Refused(b, ops[done]))
    && (partial == [] || (done < |ops| && ops[done].DoReadFrom? && partial <= ops[done].data))
  }

  lemma StoppedRefines(b: Buffer, q0: Queue, ops: seq<Op>, replies: seq<Reply>, moved: seq<bool>, done: nat,
                       partial: seq<byte>)
    requires b.Shape() && done < |ops| && |moved| == done && replies == QueueRun(q0, ops[..done], moved).1
    requires b.Contents() == QueueRun(q0, ops[..done], moved).0.bytes + partial && Refused(b, ops[done])
    requires partial == [] || (ops[done].DoReadFrom? && partial <= ops[done].data)
    ensures Refines(b, q0, ops, replies, moved, done, partial)
  {
  }

  lemma WholeRefines(b: Buffer, q0: Queue, ops: seq<Op>, replies: seq<Reply>, moved: seq<bool>)
    requires b.Shape() && |moved| == |ops| && (AsQueue(b), replies) == QueueRun(q0, ops, moved)
    ensures Refines(b, q0, ops, replies, moved, |ops|, [])
  {
    assert ops[..|ops|] == ops;
  }

  /**
   Any run of operations on a buffer is a run of the queue it stands for, up to the first operation
   that the source refuses with a panic; what it refuses is out of range or has no room below the int
   limit.
  */
  method RunOn(b: Buffer, ops: seq<Op>)
    returns (replies: seq<Reply>, moved: seq<bool>, done: nat, partial: seq<byte>)
    requires b.Valid()
    modifies b, b.buf
    ensures b.Valid() && (b.buf == old(b.buf) || fresh(b.buf))
    ensures Refines(b, old(AsQueue(b)), ops, replies, moved, done, partial)
    ensures done == |ops| ==> b.written == old(b.written) + BytesWritten(ops)
    ensures done == |ops| ==> b.peak <= Max(old(b.peak), Peak(old(AsQueue(b)), ops, moved))
  {
    ghost var q0 := AsQueue(b);
    replies, moved, done, partial := [], [], 0, [];
    while done < |ops|
      invariant done <= |ops| && |moved| == done && partial == []
      invariant b.Valid() && (b.buf == old(b.buf) || fresh(b.buf))
      invariant (AsQueue(b), replies) == QueueRun(q0, ops[..done], moved)
      invariant b.written == old(b.written) + BytesWritten(ops[..done])
      invariant b.peak <= Max(old(b.peak), Peak(q0, ops[..done], moved))
    {
      hide QueueStep, QueueRun, Refused, Refines, Needs, Peak, BytesWritten;
      var reply, slid, ok;
      reply, slid, ok, partial := Perform(b, ops[done]);
      if !ok {
        StoppedRefines(b, q0, ops, replies, moved, done, partial);
        return;
      }
      RunSnoc(q0, ops, moved, slid, done);
      replies, moved, done := replies + [reply], moved + [slid], done + 1;
    }
    assert ops[..done] == ops;
    WholeRefines(b, q0, ops, replies, moved);
  }

  /**
   A run on a new buffer. The bytes moved by growing are at most the bytes written plus the free space, and the
   array is at most four times as large as the most that was needed at one time, the allocator's rounding aside.
  */
  method Run(ops: seq<Op>)
    returns (b: Buffer, replies: seq<Reply>, moved: seq<bool>, done: nat, partial: seq<byte>)
    ensures fresh(b) && b.Valid() && b.moved <= b.written + b.Available()
    ensures b.moved <= SMALL_BUFFER_SIZE + 5 * b.written + 4 * b.asked + b.slack
    ensures Refines(b, EMPTY, ops, replies, moved, done, partial)
    ensures done == |ops| ==> b.written == BytesWritten(ops)
    ensures done == |ops| ==> b.buf.Length <= SMALL_BUFFER_SIZE + 4 * Peak(EMPTY, ops, moved) + b.slack
  {
    hide QueueRun, Refused, Peak;
    b := new Buffer();
    replies, moved, done, partial := RunOn(b, ops);
  }

  /** A run on a buffer that takes over `n` bytes of the caller's slice: they are read first, in order. */
  method RunFrom(slice: array<byte>, n: nat, ops: seq<Op>)
    returns (b: Buffer, replies: seq<Reply>, moved: seq<bool>, done: nat, partial: seq<byte>)
    requires n <= slice.Length <= MAX_INT
    modifies slice
    ensures fresh(b) && b.Valid() && b.moved <= b.written + b.Available()
    ensures Refines(b, Queue(old(slice[..n]), None, false), ops, replies, moved, done, partial)
    ensures done == |ops| ==> b.written == n + BytesWritten(ops)
    ensures done == |ops| ==>
      var start := Queue(old(slice[..n]), None, false);
      b.buf.Length <= SMALL_BUFFER_SIZE + 4 * Max(slice.Length, Peak(start, ops, moved)) + b.slack
  {
    hide QueueRun, Refused, Peak;
    b := new Buffer.FromSlice(slice, n);
    replies, moved, done, partial := RunOn(b, ops);
  }

  lemma RunSnoc(q0: Queue, ops: seq<Op>, moved: seq<bool>, slid: bool, i: nat)
    requires i < |ops| && |moved| == i
    ensures var (q, replies) := QueueRun(q0, ops[..i], moved);
      var (q', reply) := QueueStep(q, ops[i], slid);
      && QueueRun(q0, ops[..i + 1], moved + [slid]) == (q', replies + [reply])
      && Peak(q0, ops[..i + 1], moved + [slid]) == Max(Peak(q0, ops[..i], moved), Needs(q, ops[i]))
    ensures BytesWritten(ops[..i + 1]) == BytesWritten(ops[..i]) + BytesWritten([ops[i]])
  {
    hide QueueStep, Needs;
    assert ops[..i + 1][..i] == ops[..i] && (moved + [slid])[..i] == moved;
    assert [ops[i]][..0] == [];
  }

  // ---------- the rule of UnreadByte ----------

  /** UnreadByte is documented to work only after a read that returned no error and at least one byte. */
  predicate Documented(data: seq<byte>, error: bool) {
    !error && data != []
  }

  /** A byte unread is the last one read. */
  ghost predicate GivenBack(b: Buffer, data: seq<byte>, rest: seq<byte>)
    requires b.Shape()
    reads b, b.buf
  {
    data != [] && b.Contents() == [data[|data| - 1]] + rest
  }

  lemma QueueBytes(b: Buffer)
    requires b.Shape()
    ensures AsQueue(b).bytes == b.Contents()
    ensures b.Contents() == [] ==> AsQueue(b).back == b.Behind()
  {
  }

  /** Read or Next of up to `n` bytes and UnreadByte, on the queue. */
  lemma TakenBack(q: Queue, op: Op, n: nat)
    requires op == DoRead(n) || op == DoNext(n)
    ensures var (q1, first) := QueueStep(q, op, false);
      var (q2, second) := QueueStep(q1, DoUnreadByte, false);
      && first.data == q.bytes[..Min(n, |q.bytes|)] && second.error == (first.data == [])
      && q2.bytes == (if first.data == [] then [] else [first.data[|first.data| - 1]]) + q.bytes[|first.data|..]
  {
  }

  method UnreadAfterRead(b: Buffer, size: nat) returns (data: seq<byte>, ok: bool)
    requires b.Valid()
    modifies b
    ensures b.Valid() && data <= old(b.Contents()) && |data| == Min(size, |old(b.Contents())|)
    ensures ok == Documented(data, old(b.Contents()) == [] && size > 0)
    ensures if ok then GivenBack(b, data, old(b.Contents())[|data|..]) else b.Contents() == old(b.Contents())[|data|..]
  {
    hide QueueStep, AsQueue;
    ghost var was := b.Contents();
    QueueBytes(b);
    TakenBack(AsQueue(b), DoRead(size), size);
    var first := PerformRead(b, size);
    var second := PerformUnread(b);
    QueueBytes(b);
    assert first.data == was[..|first.data|];
    data, ok := first.data, !second.error;
  }

  method UnreadAfterNext(b: Buffer, n: nat) returns (data: seq<byte>, ok: bool)
    requires b.Valid()
    modifies b
    ensures b.Valid() && data <= old(b.Contents()) && |data| == Min(n, |old(b.Contents())|)
    ensures ok == Documented(data, false)
    ensures if ok then GivenBack(b, data, old(b.Contents())[|data|..]) else b.Contents() == old(b.Contents())[|data|..]
  {
    hide QueueStep, AsQueue;
    ghost var was := b.Contents();
    QueueBytes(b);
    TakenBack(AsQueue(b), DoNext(n), n);
    var first := PerformNext(b, n);
    var second := PerformUnread(b);
    QueueBytes(b);
    assert first.data == was[..|first.data|];
    data, ok := first.data, !second.error;
  }

  /** A byte read and unread again leaves the queue as it was; at its end UnreadByte is refused. */
  method UnreadAfterReadByte(b: Buffer) returns (c: Option<byte>, ok: bool)
    requires b.Valid()
    modifies b
    ensures b.Valid() && b.Contents() == old(b.Contents())
    ensures ok == c.Some? == (old(b.Contents()) != [])
  {
    ghost var was, s := b.Contents(), b.buf[..];
    c := b.ReadByte();
    if c.Some? { BehindTaken(s, b.off - 1, 1, b.len); }
    ok := b.UnreadByte();
  }

  /**
   After ReadBytes the code keeps the rule exactly when the delimiter was found. Otherwise ReadBytes
   returns an error and UnreadByte works all the same: the last byte read comes back, or, if
   none was, the one in front of the drained buffer, if there is one.
  */
  method UnreadAfterReadBytes(b: Buffer, delim: byte) returns (line: seq<byte>, error: bool, ok: bool)
    requires b.Valid()
    modifies b
    ensures b.Valid() && line <= old(b.Contents())
    ensures ok == Documented(line, error) <==> delim in old(b.Contents())
    ensures old(b.Contents()) != [] ==> line != [] && GivenBack(b, line, old(b.Contents())[|line|..])
    ensures old(b.Contents()) == [] ==>
      b.Contents() == match old(b.Behind()) case None => [] case Some(x) => [x]
  {
    hide QueueStep, AsQueue;
    ghost var q := AsQueue(b);
    QueueBytes(b);
    line, error := TakeLine(b, delim);
    LineBack(q, AsQueue(b), line, error, delim);
    var second := PerformUnread(b);
    QueueBytes(b);
    ok := !second.error;
  }

  /** ReadBytes and UnreadByte, on the queue. */
  lemma LineBack(q: Queue, q1: Queue, line: seq<byte>, error: bool, delim: byte)
    requires q.bytes == line + q1.bytes && q1.canUnread
    requires !error ==> line != [] && line[|line| - 1] == delim && delim !in line[..|line| - 1]
    requires error ==> delim !in line && q1.bytes == []
    requires q1.back == if line == [] then q.back else Some(line[|line| - 1])
    ensures line <= q.bytes && (Documented(line, error) <==> delim in q.bytes)
    ensures q.bytes != [] ==> line != []
    ensures var (q2, second) := QueueStep(q1, DoUnreadByte, false);
      && !second.error
      && q2.bytes == (if line != [] then [line[|line| - 1]]
                      else match q.back case None => [] case Some(x) => [x]) + q.bytes[|line|..]
  {
    assert line == q.bytes[..|line|] && q.bytes[|line|..] == q1.bytes;
    assert !error ==> line[|line| - 1] in q.bytes;
    assert error ==> q.bytes == line;
  }

  /**
   Grow is no write, yet it can lose the byte: after a read and a Grow, UnreadByte gives the byte
   back exactly when unread bytes remain and the room was there already.
  */
  method UnreadAfterGrow(b: Buffer, size: nat, room: nat) returns (data: seq<byte>, grown: bool, ok: bool)
    requires b.Valid() && b.Contents() != [] && size > 0
    modifies b, b.buf
    ensures b.Valid() && data <= old(b.Contents()) && |data| == Min(size, |old(b.Contents())|)
    ensures var rest := old(b.Contents())[|data|..];
      && (grown ==> (GivenBack(b, data, rest) <==> rest != [] && room <= old(b.Available())))
      && (grown && !GivenBack(b, data, rest) ==> b.Contents() == rest)
  {
    ghost var was, s := b.Contents(), b.buf[..];
    var err;
    data, err := b.Read(size);
    ghost var rest := was[|data|..];
    assert rest == b.Contents();
    BehindTaken(s, b.off - |data|, |data|, b.len);
    assert b.Behind() == Some(data[|data| - 1]);
    grown := b.Grow(room);
    if !grown { return data, false, false; }
    assert room <= old(b.Available()) && rest != [] ==> b.Behind() == Some(data[|data| - 1]);
    ok := b.UnreadByte();
    assert |[data[|data| - 1]] + rest| == |rest| + 1;
  }
}
