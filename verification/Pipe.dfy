/**
 The synchronous in-memory pipe of io/pipe.go as a system of concurrent steps: any number of
 readers, writers and closers, one step per channel operation, lock operation or error load.
*/
module Pipe {
  import opened Common

  datatype Error = EOF | ErrClosedPipe | Custom(code: int)

  /** Program counter of one `write(b)` call; `rest` is what remains of `b`, `n` what was consumed. */
  datatype WPc =
    | WStart
    | WLocking
    | WLoop(rest: seq<byte>, n: nat, once: bool)
    | WWait(rest: seq<byte>, n: nat)
    | WErr1(n: nat)
    | WErr2(n: nat, werr: bool)
    | WDone(n: nat, err: Option<Error>)

  /** Program counter of one `read(b)` call. */
  datatype RPc =
    | RStart
    | RSelect
    | RCopying(bw: seq<byte>)
    | RErr1
    | RErr2(rerr: bool)
    | RDone(data: seq<byte>, err: Option<Error>)

  datatype Writer = Writer(arg: seq<byte>, pc: WPc)
  datatype Reader = Reader(cap: nat, pc: RPc)

  /** A completed transfer: reader `r` took `data` from writer `w`. */
  datatype Shake = Shake(w: nat, r: nat, data: seq<byte>)

  /**
   `ws` and `rs` are the calls made so far, `holder` the owner of wrMu, `closing` the closers
   between Store and close(done). `order` and `shakes` record lock order and transfer order.
  */
  datatype Pipe = Pipe(ws: map<nat, Writer>, rs: map<nat, Reader>, holder: Option<nat>,
                       done: bool, rerr: Option<Error>, werr: Option<Error>, closing: nat,
                       order: seq<nat>, shakes: seq<Shake>)

  const INITIAL := Pipe(map[], map[], None, false, None, None, 0, [], [])

  function SetW(p: Pipe, w: nat, pc: WPc): Pipe
    requires w in p.ws
  {
    p.(ws := p.ws[w := p.ws[w].(pc := pc)])
  }

  function SetR(p: Pipe, r: nat, pc: RPc): Pipe
    requires r in p.rs
  {
    p.(rs := p.rs[r := p.rs[r].(pc := pc)])
  }

  /** The deferred Unlock of a writer that holds wrMu. */
  function Unlock(p: Pipe, w: nat): Pipe {
    if p.holder == Some(w) then p.(holder := None) else p
  }

  // ---------- the steps ----------

  datatype Step =
    | NewWrite(w: nat, arg: seq<byte>)
    | NewRead(r: nat, cap: nat)
    | Store(read: bool, err: Option<Error>)
    | CloseDone
    | WPoll(w: nat)
    | WLock(w: nat)
    | WSeeDone(w: nat)
    | Offer(w: nat, r: nat)
    | Reply(w: nat, r: nat)
    | WReturn(w: nat)
    | WLoadWerr(w: nat)
    | WLoadRerr(w: nat)
    | RPoll(r: nat)
    | RSeeDone(r: nat)
    | RLoadRerr(r: nat)
    | RLoadWerr(r: nat)

  /** The loop condition of write. */
  predicate Looping(pc: WPc) {
    pc.WLoop? && (pc.once || pc.rest != [])
  }

  predicate Enabled(p: Pipe, s: Step) {
    match s
    case NewWrite(w, _) => w !in p.ws
    case NewRead(r, _) => r !in p.rs
    case Store(_, _) => true
    case CloseDone => p.closing > 0
    case WPoll(w) => w in p.ws && p.ws[w].pc.WStart?
    case WLock(w) => w in p.ws && p.ws[w].pc.WLocking? && p.holder.None?
    case WSeeDone(w) => w in p.ws && Looping(p.ws[w].pc) && p.done
    case Offer(w, r) => w in p.ws && r in p.rs && Looping(p.ws[w].pc) && p.rs[r].pc.RSelect?
    case Reply(w, r) => w in p.ws && r in p.rs && p.ws[w].pc.WWait? && p.rs[r].pc.RCopying?
    case WReturn(w) => w in p.ws && p.ws[w].pc.WLoop? && !Looping(p.ws[w].pc)
    case WLoadWerr(w) => w in p.ws && p.ws[w].pc.WErr1?
    case WLoadRerr(w) => w in p.ws && p.ws[w].pc.WErr2?
    case RPoll(r) => r in p.rs && p.rs[r].pc.RStart?
    case RSeeDone(r) => r in p.rs && p.rs[r].pc.RSelect? && p.done
    case RLoadRerr(r) => r in p.rs && p.rs[r].pc.RErr1?
    case RLoadWerr(r) => r in p.rs && p.rs[r].pc.RErr2?
  }

  /** What `copy(b, bw)` transfers into a buffer of `cap` bytes. */
  function Copied(cap: nat, bw: seq<byte>): seq<byte> {
    bw[..Min(cap, |bw|)]
  }

  /** What CloseWithError stores: without an error of the caller's, ErrClosedPipe for the reader, EOF for the writer. */
  function CloseError(read: bool, err: Option<Error>): Error {
    if err.Some? then err.value else if read then ErrClosedPipe else EOF
  }

  function Apply(p: Pipe, s: Step): Pipe
    requires Enabled(p, s)
  {
    match s
    case NewWrite(w, arg) => p.(ws := p.ws[w := Writer(arg, WStart)])
    case NewRead(r, cap) => p.(rs := p.rs[r := Reader(cap, RStart)])
    case Store(read, err) =>
      var e := Some(CloseError(read, err));
      var q := if read then (if p.rerr.None? then p.(rerr := e) else p)
               else (if p.werr.None? then p.(werr := e) else p);
      q.(closing := p.closing + 1)
    case CloseDone => p.(done := true, closing := p.closing - 1)
    case WPoll(w) => SetW(p, w, if p.done then WErr1(0) else WLocking)
    case WLock(w) => SetW(p, w, WLoop(p.ws[w].arg, 0, true)).(holder := Some(w), order := p.order + [w])
    case WSeeDone(w) => SetW(p, w, WErr1(p.ws[w].pc.n))
    case Offer(w, r) =>
      var b := p.ws[w].pc.rest;
      SetR(SetW(p, w, WWait(b, p.ws[w].pc.n)), r, RCopying(b))
    case Reply(w, r) =>
      var data, pc := Copied(p.rs[r].cap, p.rs[r].pc.bw), p.ws[w].pc;
      var rest := if |data| <= |pc.rest| then pc.rest[|data|..] else [];
      SetR(SetW(p, w, WLoop(rest, pc.n + |data|, false)), r, RDone(data, None))
        .(shakes := p.shakes + [Shake(w, r, data)])
    case WReturn(w) => Unlock(SetW(p, w, WDone(p.ws[w].pc.n, None)), w)
    case WLoadWerr(w) => SetW(p, w, WErr2(p.ws[w].pc.n, p.werr.Some?))
    case WLoadRerr(w) =>
      var pc := p.ws[w].pc;
      var err := if !pc.werr && p.rerr.Some? then p.rerr.value else ErrClosedPipe;
      Unlock(SetW(p, w, WDone(pc.n, Some(err))), w)
    case RPoll(r) => SetR(p, r, if p.done then RErr1 else RSelect)
    case RSeeDone(r) => SetR(p, r, RErr1)
    case RLoadRerr(r) => SetR(p, r, RErr2(p.rerr.Some?))
    case RLoadWerr(r) =>
      var err := if !p.rs[r].pc.rerr && p.werr.Some? then p.werr.value else ErrClosedPipe;
      SetR(p, r, RDone([], Some(err)))
  }

  ghost predicate IsRun(run: seq<Pipe>, steps: seq<Step>) {
    && |run| == |steps| + 1 && run[0] == INITIAL
    && forall i :: 0 <= i < |steps| ==> Enabled(run[i], steps[i]) && run[i + 1] == Apply(run[i], steps[i])
  }

  // ---------- what has been transferred ----------

  /** Bytes a write call has had consumed so far. */
  function Consumed(pc: WPc): nat {
    match pc
    case WLoop(_, n, _) => n
    case WWait(_, n) => n
    case WErr1(n) => n
    case WErr2(n, _) => n
    case WDone(n, _) => n
    case _ => 0
  }

  function Delivered(shakes: seq<Shake>): seq<byte> {
    if shakes == [] then [] else Delivered(shakes[..|shakes| - 1]) + shakes[|shakes| - 1].data
  }

  /** The consumed prefixes of the writes, in the order in which they took the lock. */
  ghost function Prefixes(ws: map<nat, Writer>, order: seq<nat>): seq<byte>
    requires forall w :: w in order ==> w in ws && Consumed(ws[w].pc) <= |ws[w].arg|
  {
    if order == [] then []
    else
      var x := ws[order[|order| - 1]];
      Prefixes(ws, order[..|order| - 1]) + x.arg[..Consumed(x.pc)]
  }

  // ---------- the invariant ----------

  /** A write call: how much of its argument is gone, and what holding the lock means. */
  ghost predicate WriterOk(p: Pipe, w: nat)
    requires w in p.ws
  {
    var x := p.ws[w];
    && Consumed(x.pc) <= |x.arg|
    && (x.pc.WLoop? || x.pc.WWait? ==> p.holder == Some(w) && x.pc.rest == x.arg[x.pc.n..])
    && (p.holder == Some(w) ==> !x.pc.WStart? && !x.pc.WLocking? && !x.pc.WDone?)
    && (Consumed(x.pc) > 0 || p.holder == Some(w) ==> w in p.order)
    && (w in p.order ==> !x.pc.WStart? && !x.pc.WLocking?)
    && (x.pc.WErr1? || x.pc.WErr2? ==> p.done)
    && (x.pc.WErr2? && x.pc.werr ==> p.werr.Some?)
    && (x.pc.WDone? && x.pc.err.None? ==> x.pc.n == |x.arg| && w in p.order)
    && (x.pc.WDone? && x.pc.err.Some? ==> p.done && WriteErrorOk(p, x.pc.err.value))
  }

  /** The close error of a write: the read side's, unless the write side was closed too. */
  ghost predicate WriteErrorOk(p: Pipe, err: Error) {
    && (err == ErrClosedPipe || p.rerr == Some(err))
    && (p.werr.None? && p.rerr.Some? ==> err == p.rerr.value)
  }

  ghost predicate ReadErrorOk(p: Pipe, err: Error) {
    && (err == ErrClosedPipe || p.werr == Some(err))
    && (p.rerr.None? && p.werr.Some? ==> err == p.werr.value)
  }

  ghost predicate ReaderOk(p: Pipe, r: nat)
    requires r in p.rs
  {
    var x := p.rs[r];
    && (x.pc.RCopying? ==>
          p.holder.Some? && p.holder.value in p.ws && p.ws[p.holder.value].pc.WWait?
          && p.ws[p.holder.value].pc.rest == x.pc.bw)
    && (x.pc.RErr1? || x.pc.RErr2? ==> p.done)
    && (x.pc.RErr2? && x.pc.rerr ==> p.rerr.Some?)
    && (x.pc.RDone? && x.pc.err.Some? ==> p.done && x.pc.data == [] && ReadErrorOk(p, x.pc.err.value))
    && (x.pc.RDone? && x.pc.err.None? ==> |x.pc.data| <= x.cap)
  }

  /** Exactly one reader is copying while the writer waits for its count, and none otherwise. */
  ghost predicate Paired(p: Pipe) {
    && (forall r, r' :: r in p.rs && r' in p.rs && p.rs[r].pc.RCopying? && p.rs[r'].pc.RCopying? ==> r == r')
    && (p.holder.Some? && p.holder.value in p.ws && p.ws[p.holder.value].pc.WWait? ==>
          exists r :: r in p.rs && p.rs[r].pc.RCopying?)
  }

  ghost predicate Ordered(p: Pipe) {
    && (forall w :: w in p.order ==> w in p.ws)
    && (forall i, j :: 0 <= i < j < |p.order| ==> p.order[i] != p.order[j])
    && (p.holder.Some? ==> p.order != [] && p.order[|p.order| - 1] == p.holder.value)
  }

  ghost predicate Inv(p: Pipe) {
    && (p.done || p.closing > 0 ==> p.rerr.Some? || p.werr.Some?)
    && Ordered(p)
    && (forall w {:trigger p.ws[w]} :: w in p.ws ==> WriterOk(p, w))
    && (forall r {:trigger p.rs[r]} :: r in p.rs ==> ReaderOk(p, r))
    && Paired(p)
    && (forall w {:trigger w in p.order} :: w in p.order ==> w in p.ws && Consumed(p.ws[w].pc) <= |p.ws[w].arg|)
    && Delivered(p.shakes) == Prefixes(p.ws, p.order)
  }

  lemma {:induction false} PrefixesSame(ws: map<nat, Writer>, ws': map<nat, Writer>, order: seq<nat>)
    requires forall w {:trigger w in order} :: w in order ==>
      w in ws && w in ws' && Consumed(ws[w].pc) <= |ws[w].arg|
      && ws'[w].arg == ws[w].arg && Consumed(ws'[w].pc) == Consumed(ws[w].pc)
    ensures Prefixes(ws', order) == Prefixes(ws, order)
  {
    if order != [] {
      assert order[|order| - 1] in order;
      assert forall w {:trigger w in order[..|order| - 1]} :: w in order[..|order| - 1] ==> w in order;
      PrefixesSame(ws, ws', order[..|order| - 1]);
    }
  }

  /** A step of one writer that transfers nothing. */
  lemma WriterMoves(p: Pipe, q: Pipe, w: nat, pc: WPc)
    requires Inv(p) && w in p.ws && Consumed(pc) == Consumed(p.ws[w].pc)
    requires !p.ws[w].pc.WWait? && !pc.WWait?
    requires q == SetW(p, w, pc) || q == Unlock(SetW(p, w, pc), w)
    requires WriterOk(q, w)
    requires q.holder != p.holder ==> forall v :: v in p.ws && v != w ==> !p.ws[v].pc.WLoop? && !p.ws[v].pc.WWait?
    ensures Inv(q)
  {
    PrefixesSame(p.ws, q.ws, p.order);
    forall v | v in q.ws ensures WriterOk(q, v) { if v != w { assert WriterOk(p, v); } }
    forall r | r in q.rs ensures ReaderOk(q, r) { assert ReaderOk(p, r); }
  }

  /** A step of one reader that transfers nothing. */
  lemma ReaderMoves(p: Pipe, q: Pipe, r: nat, pc: RPc)
    requires Inv(p) && r in p.rs && !p.rs[r].pc.RCopying? && !pc.RCopying?
    requires q == SetR(p, r, pc) && ReaderOk(q, r)
    ensures Inv(q)
  {
    forall v | v in q.ws ensures WriterOk(q, v) { assert WriterOk(p, v); }
    forall v | v in q.rs ensures ReaderOk(q, v) { if v != r { assert ReaderOk(p, v); } }
    if q.holder.Some? && q.holder.value in q.ws && q.ws[q.holder.value].pc.WWait? {
      var v :| v in p.rs && p.rs[v].pc.RCopying?;
      assert v in q.rs && q.rs[v].pc.RCopying?;
    }
  }

  lemma NewCallPaired(p: Pipe, q: Pipe)
    requires Paired(p) && Ordered(p) && q.holder == p.holder && q.order == p.order
    requires p.holder.Some? ==> p.holder.value in p.ws && p.holder.value in q.ws
    requires forall w :: w in p.ws ==> w in q.ws && q.ws[w] == p.ws[w]
    requires forall r :: r in p.rs ==> r in q.rs && q.rs[r] == p.rs[r]
    requires forall r :: r in q.rs && r !in p.rs ==> q.rs[r].pc.RStart?
    ensures Paired(q)
  {
    if q.holder.Some? && q.ws[q.holder.value].pc.WWait? {
      var v :| v in p.rs && p.rs[v].pc.RCopying?;
      assert v in q.rs && q.rs[v].pc.RCopying?;
    }
  }

  lemma NewWriteKeepsInv(p: Pipe, w: nat, arg: seq<byte>)
    requires Inv(p) && Enabled(p, NewWrite(w, arg))
    ensures Inv(Apply(p, NewWrite(w, arg)))
  {
    hide Prefixes, Delivered, Paired;
    var q := Apply(p, NewWrite(w, arg));
    PrefixesSame(p.ws, q.ws, p.order);
    forall v | v in q.ws ensures WriterOk(q, v) { if v in p.ws { assert WriterOk(p, v); } }
    forall v | v in q.rs ensures ReaderOk(q, v) { assert ReaderOk(p, v); }
    NewCallPaired(p, q);
  }

  lemma NewReadKeepsInv(p: Pipe, r: nat, cap: nat)
    requires Inv(p) && Enabled(p, NewRead(r, cap))
    ensures Inv(Apply(p, NewRead(r, cap)))
  {
    hide Prefixes, Delivered, Paired;
    var q := Apply(p, NewRead(r, cap));
    forall v | v in q.ws ensures WriterOk(q, v) { assert WriterOk(p, v); }
    forall v | v in q.rs ensures ReaderOk(q, v) { if v in p.rs { assert ReaderOk(p, v); } }
    NewCallPaired(p, q);
  }

  /** A closer's step changes neither the calls nor any error already stored. */
  ghost predicate Closes(p: Pipe, q: Pipe) {
    && q == p.(done := q.done, rerr := q.rerr, werr := q.werr, closing := q.closing)
    && (p.rerr.Some? ==> q.rerr == p.rerr) && (p.werr.Some? ==> q.werr == p.werr) && (p.done ==> q.done)
    && (p.done ==> p.rerr.Some? || p.werr.Some?)
  }

  lemma CloserWriter(p: Pipe, q: Pipe, w: nat)
    requires Closes(p, q) && w in p.ws && WriterOk(p, w)
    ensures WriterOk(q, w)
  {
  }

  lemma CloserReader(p: Pipe, q: Pipe, r: nat)
    requires Closes(p, q) && r in p.rs && ReaderOk(p, r)
    ensures ReaderOk(q, r)
  {
  }

  lemma CloserKeepsInv(p: Pipe, s: Step)
    requires Inv(p) && Enabled(p, s) && (s.Store? || s.CloseDone?)
    ensures Inv(Apply(p, s))
  {
    hide WriterOk, ReaderOk, Prefixes, Delivered;
    var q := Apply(p, s);
    assert Closes(p, q);
    forall v | v in q.ws ensures WriterOk(q, v) { CloserWriter(p, q, v); }
    forall v | v in q.rs ensures ReaderOk(q, v) { CloserReader(p, q, v); }
  }

  lemma LockPrefixes(p: Pipe, w: nat)
    requires Inv(p) && Enabled(p, WLock(w))
    ensures var q := Apply(p, WLock(w));
      && (forall v {:trigger v in q.order} :: v in q.order ==> v in q.ws && Consumed(q.ws[v].pc) <= |q.ws[v].arg|)
      && Delivered(q.shakes) == Prefixes(q.ws, q.order)
  {
    hide Paired, ReaderOk, Delivered;
    var q := Apply(p, WLock(w));
    assert WriterOk(p, w);
    PrefixesSame(p.ws, q.ws, p.order);
    assert q.order[..|p.order|] == p.order;
  }

  lemma LockKeepsInv(p: Pipe, w: nat)
    requires Inv(p) && Enabled(p, WLock(w))
    ensures Inv(Apply(p, WLock(w)))
  {
    hide Prefixes, Delivered;
    var q := Apply(p, WLock(w));
    LockPrefixes(p, w);
    assert WriterOk(p, w);
    assert p.ws[w].arg[0..] == p.ws[w].arg;
    forall v | v in q.ws ensures WriterOk(q, v) { if v != w { assert WriterOk(p, v); } }
    forall v | v in q.rs ensures ReaderOk(q, v) { assert ReaderOk(p, v); }
  }

  lemma OfferKeepsInv(p: Pipe, w: nat, r: nat)
    requires Inv(p) && Enabled(p, Offer(w, r))
    ensures Inv(Apply(p, Offer(w, r)))
  {
    hide Prefixes, Delivered;
    var q := Apply(p, Offer(w, r));
    assert WriterOk(p, w);
    PrefixesSame(p.ws, q.ws, p.order);
    forall v | v in q.ws ensures WriterOk(q, v) { assert WriterOk(p, v); }
    forall v | v in q.rs ensures ReaderOk(q, v) && (q.rs[v].pc.RCopying? ==> v == r) { assert ReaderOk(p, v); }
    assert q.rs[r].pc.RCopying?;
  }

  /** The writer and the reader of a transfer agree on what is handed over. */
  lemma ReplyMatches(p: Pipe, w: nat, r: nat)
    requires Inv(p) && Enabled(p, Reply(w, r))
    ensures p.holder == Some(w) && p.order != [] && p.order[|p.order| - 1] == w
    ensures p.rs[r].pc.bw == p.ws[w].pc.rest == p.ws[w].arg[p.ws[w].pc.n..]
    ensures forall v :: v in p.rs && p.rs[v].pc.RCopying? ==> v == r
  {
    assert WriterOk(p, w) && ReaderOk(p, r);
  }

  lemma PrefixesLast(ws: map<nat, Writer>, order: seq<nat>)
    requires order != []
    requires forall w :: w in order ==> w in ws && Consumed(ws[w].pc) <= |ws[w].arg|
    ensures var last := order[|order| - 1];
      && last in order && (forall w :: w in order[..|order| - 1] ==> w in order)
      && Prefixes(ws, order) == Prefixes(ws, order[..|order| - 1]) + ws[last].arg[..Consumed(ws[last].pc)]
  {
  }

  lemma OnlyLast(order: seq<nat>, w: nat)
    requires order != [] && order[|order| - 1] == w
    requires forall i, j :: 0 <= i < j < |order| ==> order[i] != order[j]
    ensures forall v :: v in order[..|order| - 1] ==> v != w && v in order
  {
  }

  /** The writer that locked last gets `data` more consumed. */
  lemma PrefixesGrow(ws: map<nat, Writer>, ws': map<nat, Writer>, order: seq<nat>, w: nat, data: seq<byte>)
    requires order != [] && order[|order| - 1] == w
    requires forall i, j :: 0 <= i < j < |order| ==> order[i] != order[j]
    requires forall v {:trigger v in order} :: v in order ==>
      v in ws && v in ws' && Consumed(ws[v].pc) <= |ws[v].arg| && ws'[v].arg == ws[v].arg
      && (v != w ==> Consumed(ws'[v].pc) == Consumed(ws[v].pc))
    requires w in order && Consumed(ws[w].pc) + |data| == Consumed(ws'[w].pc) <= |ws[w].arg|
    requires ws[w].arg[Consumed(ws[w].pc)..Consumed(ws'[w].pc)] == data
    ensures Prefixes(ws', order) == Prefixes(ws, order) + data
  {
    hide Consumed, Prefixes;
    var last := |order| - 1;
    var before := order[..last];
    OnlyLast(order, w);
    assert forall v {:trigger v in before} :: v in before ==> v in order && v != w;
    PrefixesSame(ws, ws', before);
    PrefixesLast(ws, order);
    PrefixesLast(ws', order);
    var m, n := Consumed(ws[w].pc), Consumed(ws'[w].pc);
    assert ws[w].arg[..n] == ws[w].arg[..m] + data;
  }

  lemma ReplyPrefixes(p: Pipe, w: nat, r: nat)
    requires Inv(p) && Enabled(p, Reply(w, r))
    ensures var q := Apply(p, Reply(w, r));
      && (forall v {:trigger v in q.order} :: v in q.order ==> v in q.ws && Consumed(q.ws[v].pc) <= |q.ws[v].arg|)
      && Delivered(q.shakes) == Prefixes(q.ws, q.order)
  {
    hide Prefixes, Paired, ReaderOk;
    ReplyMatches(p, w, r);
    assert WriterOk(p, w);
    var q := Apply(p, Reply(w, r));
    var x, data := p.ws[w], Copied(p.rs[r].cap, p.rs[r].pc.bw);
    assert x.arg[x.pc.n..x.pc.n + |data|] == x.arg[x.pc.n..][..|data|];
    PrefixesGrow(p.ws, q.ws, p.order, w, data);
    assert q.shakes[..|p.shakes|] == p.shakes;
  }

  lemma ReplyWriters(p: Pipe, w: nat, r: nat, v: nat)
    requires Inv(p) && Enabled(p, Reply(w, r)) && v in p.ws
    ensures WriterOk(Apply(p, Reply(w, r)), v)
  {
    hide Prefixes, Delivered, Paired, ReaderOk;
    ReplyMatches(p, w, r);
    var x, data := p.ws[w], Copied(p.rs[r].cap, p.rs[r].pc.bw);
    assert x.arg[x.pc.n..][|data|..] == x.arg[x.pc.n + |data|..];
    assert WriterOk(p, v) && WriterOk(p, w);
  }

  lemma ReplyKeepsInv(p: Pipe, w: nat, r: nat)
    requires Inv(p) && Enabled(p, Reply(w, r))
    ensures Inv(Apply(p, Reply(w, r)))
  {
    hide Prefixes, Delivered, WriterOk;
    var q := Apply(p, Reply(w, r));
    ReplyMatches(p, w, r);
    ReplyPrefixes(p, w, r);
    forall v | v in q.ws ensures WriterOk(q, v) { ReplyWriters(p, w, r, v); }
    forall v | v in q.rs ensures ReaderOk(q, v) { assert ReaderOk(p, v); }
  }

  lemma WriterStepKeepsInv(p: Pipe, s: Step)
    requires Inv(p) && Enabled(p, s)
    requires s.WPoll? || s.WSeeDone? || s.WReturn? || s.WLoadWerr? || s.WLoadRerr?
    ensures Inv(Apply(p, s))
  {
    var q := Apply(p, s);
    assert WriterOk(p, s.w);
    forall v | v in p.ws && v != s.w && q.holder != p.holder ensures !p.ws[v].pc.WLoop? && !p.ws[v].pc.WWait? {
      assert WriterOk(p, v);
    }
    WriterMoves(p, q, s.w, q.ws[s.w].pc);
  }

  lemma ReaderStepKeepsInv(p: Pipe, s: Step)
    requires Inv(p) && Enabled(p, s)
    requires s.RPoll? || s.RSeeDone? || s.RLoadRerr? || s.RLoadWerr?
    ensures Inv(Apply(p, s))
  {
    var q := Apply(p, s);
    assert ReaderOk(p, s.r);
    ReaderMoves(p, q, s.r, q.rs[s.r].pc);
  }

  lemma StepKeepsInv(p: Pipe, s: Step)
    requires Inv(p) && Enabled(p, s)
    ensures Inv(Apply(p, s))
  {
    match s
    case NewWrite(w, arg) => NewWriteKeepsInv(p, w, arg);
    case NewRead(r, cap) => NewReadKeepsInv(p, r, cap);
    case Store(_, _) => CloserKeepsInv(p, s);
    case CloseDone => CloserKeepsInv(p, s);
    case WLock(w) => LockKeepsInv(p, w);
    case Offer(w, r) => OfferKeepsInv(p, w, r);
    case Reply(w, r) => ReplyKeepsInv(p, w, r);
    case WPoll(_) => WriterStepKeepsInv(p, s);
    case WSeeDone(_) => WriterStepKeepsInv(p, s);
    case WReturn(_) => WriterStepKeepsInv(p, s);
    case WLoadWerr(_) => WriterStepKeepsInv(p, s);
    case WLoadRerr(_) => WriterStepKeepsInv(p, s);
    case RPoll(_) => ReaderStepKeepsInv(p, s);
    case RSeeDone(_) => ReaderStepKeepsInv(p, s);
    case RLoadRerr(_) => ReaderStepKeepsInv(p, s);
    case RLoadWerr(_) => ReaderStepKeepsInv(p, s);
  }

  lemma {:induction false} RunKeepsInv(run: seq<Pipe>, steps: seq<Step>)
    requires IsRun(run, steps)
    ensures Inv(run[|run| - 1])
  {
    if steps != [] {
      var n := |steps| - 1;
      RunKeepsInv(run[..n + 1], steps[..n]);
      StepKeepsInv(run[n], steps[n]);
    }
  }

  // ---------- what each call got and gave ----------

  /** What reader `r` took, transfer by transfer. */
  function Received(shakes: seq<Shake>, r: nat): seq<seq<byte>> {
    if shakes == [] then []
    else
      var last := shakes[|shakes| - 1];
      Received(shakes[..|shakes| - 1], r) + if last.r == r then [last.data] else []
  }

  /** What was taken from writer `w`, all together. */
  function Given(shakes: seq<Shake>, w: nat): seq<byte> {
    if shakes == [] then []
    else
      var last := shakes[|shakes| - 1];
      Given(shakes[..|shakes| - 1], w) + if last.w == w then last.data else []
  }

  /** What a read call returned without an error. */
  function Returned(pc: RPc): seq<seq<byte>> {
    if pc.RDone? && pc.err.None? then [pc.data] else []
  }

  /** A read that succeeded took part in exactly one transfer, any other in none; a write gave away what it counts. */
  ghost predicate Traced(p: Pipe) {
    && (forall k :: 0 <= k < |p.shakes| ==> p.shakes[k].w in p.ws && p.shakes[k].r in p.rs)
    && (forall r {:trigger p.rs[r]} :: r in p.rs ==> Received(p.shakes, r) == Returned(p.rs[r].pc))
    && (forall w {:trigger p.ws[w]} :: w in p.ws ==> GaveCount(p.shakes, w, p.ws[w]))
  }

  ghost predicate GaveCount(shakes: seq<Shake>, w: nat, x: Writer) {
    Consumed(x.pc) <= |x.arg| && Given(shakes, w) == x.arg[..Consumed(x.pc)]
  }

  lemma {:induction false} NothingTraced(shakes: seq<Shake>, c: nat)
    ensures (forall k :: 0 <= k < |shakes| ==> shakes[k].r != c) ==> Received(shakes, c) == []
    ensures (forall k :: 0 <= k < |shakes| ==> shakes[k].w != c) ==> Given(shakes, c) == []
  {
    if shakes != [] { NothingTraced(shakes[..|shakes| - 1], c); }
  }

  lemma ShakeTraced(shakes: seq<Shake>, x: Shake, c: nat)
    ensures Received(shakes + [x], c) == Received(shakes, c) + if x.r == c then [x.data] else []
    ensures Given(shakes + [x], c) == Given(shakes, c) + if x.w == c then x.data else []
  {
    assert (shakes + [x])[..|shakes|] == shakes;
  }

  lemma ReplyTraced(p: Pipe, w: nat, r: nat)
    requires Inv(p) && Traced(p) && Enabled(p, Reply(w, r))
    ensures Traced(Apply(p, Reply(w, r)))
  {
    hide Received, Given, Inv;
    var q, x := Apply(p, Reply(w, r)), p.ws[w];
    ReplyHandsOver(p, w, r);
    var shake := q.shakes[|p.shakes|];
    assert q.shakes == p.shakes + [shake];
    forall c | c in q.rs ensures Received(q.shakes, c) == Returned(q.rs[c].pc) {
      ShakeTraced(p.shakes, shake, c);
    }
    forall c | c in q.ws ensures GaveCount(q.shakes, c, q.ws[c]) {
      ShakeTraced(p.shakes, shake, c);
      assert GaveCount(p.shakes, c, p.ws[c]);
    }
  }

  lemma ReplyHandsOver(p: Pipe, w: nat, r: nat)
    requires Inv(p) && Enabled(p, Reply(w, r))
    ensures var x, data := p.ws[w], Copied(p.rs[r].cap, p.rs[r].pc.bw);
      && x.pc.n + |data| <= |x.arg| && x.arg[..x.pc.n + |data|] == x.arg[..x.pc.n] + data
  {
    ReplyMatches(p, w, r);
    assert WriterOk(p, w);
  }

  /** No transfer: what calls have got and given stays, and new calls start with nothing. */
  ghost predicate Quiet(p: Pipe, q: Pipe) {
    && q.shakes == p.shakes && p.ws.Keys <= q.ws.Keys && p.rs.Keys <= q.rs.Keys
    && (forall c :: c in q.rs ==> Returned(q.rs[c].pc) == if c in p.rs then Returned(p.rs[c].pc) else [])
    && (forall c :: c in q.ws ==>
          if c in p.ws then q.ws[c].arg == p.ws[c].arg && Consumed(q.ws[c].pc) == Consumed(p.ws[c].pc)
          else Consumed(q.ws[c].pc) == 0)
  }

  lemma WriterQuiet(p: Pipe, q: Pipe, w: nat)
    requires q.shakes == p.shakes && q.rs == p.rs && w in p.ws && w in q.ws
    requires q.ws == p.ws[w := p.ws[w].(pc := q.ws[w].pc)] && Consumed(q.ws[w].pc) == Consumed(p.ws[w].pc)
    ensures Quiet(p, q)
  {
    hide Consumed, Returned;
  }

  lemma ReaderQuiet(p: Pipe, q: Pipe, r: nat)
    requires q.shakes == p.shakes && q.ws == p.ws && r in p.rs && r in q.rs
    requires q.rs == p.rs[r := p.rs[r].(pc := q.rs[r].pc)] && Returned(q.rs[r].pc) == Returned(p.rs[r].pc)
    ensures Quiet(p, q)
  {
    hide Consumed, Returned;
  }

  lemma QuietSteps(p: Pipe, s: Step)
    requires Enabled(p, s) && !s.Reply?
    ensures Quiet(p, Apply(p, s))
  {
    hide Quiet;
    var q := Apply(p, s);
    if s.NewWrite? || s.NewRead? {
      NewIsQuiet(p, s);
    } else if s.Store? || s.CloseDone? {
      SameIsQuiet(p, q);
    } else if s.Offer? {
      OfferIsQuiet(p, s.w, s.r);
    } else if s.RPoll? || s.RSeeDone? || s.RLoadRerr? || s.RLoadWerr? {
      ReaderQuiet(p, q, s.r);
    } else {
      WriterQuiet(p, q, s.w);
    }
  }

  lemma SameIsQuiet(p: Pipe, q: Pipe)
    requires q.shakes == p.shakes && q.ws == p.ws && q.rs == p.rs
    ensures Quiet(p, q)
  {
    hide Consumed, Returned;
  }

  lemma NewIsQuiet(p: Pipe, s: Step)
    requires Enabled(p, s) && (s.NewWrite? || s.NewRead?)
    ensures Quiet(p, Apply(p, s))
  {
    assert Consumed(WStart) == 0 && Returned(RStart) == [];
    hide Consumed, Returned;
  }

  lemma OfferIsQuiet(p: Pipe, w: nat, r: nat)
    requires Enabled(p, Offer(w, r))
    ensures Quiet(p, Apply(p, Offer(w, r)))
  {
    var q := Apply(p, Offer(w, r));
    assert Consumed(q.ws[w].pc) == Consumed(p.ws[w].pc) && Returned(q.rs[r].pc) == Returned(p.rs[r].pc) == [];
    hide Consumed, Returned;
  }

  lemma QuietTraced(p: Pipe, q: Pipe)
    requires Traced(p) && Quiet(p, q)
    ensures Traced(q)
  {
    hide Received, Given, Returned, Consumed;
    forall c | c in q.rs ensures Received(q.shakes, c) == Returned(q.rs[c].pc) {
      if c !in p.rs { NothingTraced(p.shakes, c); }
    }
    forall c | c in q.ws ensures GaveCount(q.shakes, c, q.ws[c]) {
      if c in p.ws { assert GaveCount(p.shakes, c, p.ws[c]); } else { NothingTraced(p.shakes, c); }
    }
  }

  lemma {:induction false} RunTraced(run: seq<Pipe>, steps: seq<Step>)
    requires IsRun(run, steps)
    ensures Traced(run[|run| - 1])
  {
    if steps != [] {
      var n := |steps| - 1;
      RunTraced(run[..n + 1], steps[..n]);
      RunKeepsInv(run[..n + 1], steps[..n]);
      if steps[n].Reply? {
        ReplyTraced(run[n], steps[n].w, steps[n].r);
      } else {
        QuietSteps(run[n], steps[n]);
        QuietTraced(run[n], run[n + 1]);
      }
    }
  }

  // ---------- main results ----------

  /**
   Conservation: over every interleaving the bytes the readers took, in transfer order, are the
   consumed prefixes of the writes, in lock order.
  */
  lemma BytesConserved(run: seq<Pipe>, steps: seq<Step>)
    requires IsRun(run, steps)
    ensures var p := run[|run| - 1];
      && (forall w :: w in p.order ==> w in p.ws && Consumed(p.ws[w].pc) <= |p.ws[w].arg|)
      && (forall i, j :: 0 <= i < j < |p.order| ==> p.order[i] != p.order[j])
      && Delivered(p.shakes) == Prefixes(p.ws, p.order)
  {
    RunKeepsInv(run, steps);
  }

  /**
   A finished write reports its consumed count, the length of the prefix of its argument that its
   transfers handed over; without an error everything was.
  */
  lemma WriteResult(run: seq<Pipe>, steps: seq<Step>, w: nat)
    requires IsRun(run, steps) && w in run[|run| - 1].ws && run[|run| - 1].ws[w].pc.WDone?
    ensures var p := run[|run| - 1];
      && var x := p.ws[w];
      && x.pc.n == Consumed(x.pc) <= |x.arg| && Given(p.shakes, w) == x.arg[..x.pc.n]
      && (x.pc.err.None? ==> x.pc.n == |x.arg| && w in p.order)
      && (w !in p.order ==> x.pc.n == 0)
      && (x.pc.err.Some? ==> p.done && WriteErrorOk(p, x.pc.err.value))
  {
    RunKeepsInv(run, steps);
    RunTraced(run, steps);
    hide Given, Received;
    assert WriterOk(run[|run| - 1], w);
  }

  /**
   A finished read returns exactly what its one transfer handed over. It fails only on a closed
   pipe, without a transfer, and with the error the writer gave.
  */
  lemma ReadResult(run: seq<Pipe>, steps: seq<Step>, r: nat)
    requires IsRun(run, steps) && r in run[|run| - 1].rs && run[|run| - 1].rs[r].pc.RDone?
    ensures var p := run[|run| - 1];
      && var x := p.rs[r];
      && |x.pc.data| <= x.cap && Received(p.shakes, r) == (if x.pc.err.None? then [x.pc.data] else [])
      && (x.pc.err.Some? ==> p.done && x.pc.data == [] && ReadErrorOk(p, x.pc.err.value))
  {
    RunKeepsInv(run, steps);
    RunTraced(run, steps);
    hide Given, Received;
    assert ReaderOk(run[|run| - 1], r);
  }

  /** A write that handed its slice over is waiting for exactly one reader, whose reply is always enabled. */
  lemma HandshakePartner(run: seq<Pipe>, steps: seq<Step>, w: nat) returns (r: nat)
    requires IsRun(run, steps) && w in run[|run| - 1].ws && run[|run| - 1].ws[w].pc.WWait?
    ensures var p := run[|run| - 1];
      && Enabled(p, Reply(w, r)) && p.rs[r].pc.bw == p.ws[w].pc.rest
      && forall v :: Enabled(p, Reply(w, v)) ==> v == r
  {
    RunKeepsInv(run, steps);
    var p := run[|run| - 1];
    assert WriterOk(p, w);
    r :| r in p.rs && p.rs[r].pc.RCopying?;
    assert ReaderOk(p, r);
  }

  /**
   A started handshake ends with the reader it began with: whatever happens in between, closing
   included, leaves both waiting for each other until their own reply step.
  */
  lemma HandshakeCompletes(run: seq<Pipe>, steps: seq<Step>, w: nat, r: nat, s: Step)
    requires IsRun(run, steps) && Enabled(run[|run| - 1], Reply(w, r)) && Enabled(run[|run| - 1], s)
    ensures var p := run[|run| - 1];
      && var q := Apply(p, s);
      if s == Reply(w, r) then q.rs[r].pc == RDone(Copied(p.rs[r].cap, p.ws[w].pc.rest), None)
                               && Consumed(q.ws[w].pc) == Consumed(p.ws[w].pc) + |q.rs[r].pc.data|
      else q.ws[w] == p.ws[w] && q.rs[r] == p.rs[r]
  {
    hide Inv, Apply;
    RunKeepsInv(run, steps);
    var p := run[|run| - 1];
    ReplyMatches(p, w, r);
    if s.Reply? { ReplyMatches(p, s.w, s.r); }
    OnlyReplyMoves(p, w, r, s);
  }

  lemma OnlyReplyMoves(p: Pipe, w: nat, r: nat, s: Step)
    requires Enabled(p, Reply(w, r)) && Enabled(p, s) && p.rs[r].pc.bw == p.ws[w].pc.rest
    requires s.Reply? ==> s.w == w && s.r == r
    ensures var q := Apply(p, s);
      if s == Reply(w, r) then w in q.ws && r in q.rs
                               && q.rs[r].pc == RDone(Copied(p.rs[r].cap, p.ws[w].pc.rest), None)
                               && Consumed(q.ws[w].pc) == Consumed(p.ws[w].pc) + |q.rs[r].pc.data|
      else w in q.ws && r in q.rs && q.ws[w] == p.ws[w] && q.rs[r] == p.rs[r]
  {
  }

  predicate Finished(p: Pipe) {
    && (forall w :: w in p.ws ==> p.ws[w].pc.WDone?)
    && (forall r :: r in p.rs ==> p.rs[r].pc.RDone?)
  }

  /** Once the pipe is closed no call can be stuck: some pending call has a step to take. */
  lemma NoDeadlockOnceClosed(run: seq<Pipe>, steps: seq<Step>) returns (s: Step)
    requires IsRun(run, steps) && run[|run| - 1].done && !Finished(run[|run| - 1])
    ensures Enabled(run[|run| - 1], s) && !s.NewWrite? && !s.NewRead? && !s.Store? && !s.CloseDone?
  {
    RunKeepsInv(run, steps);
    var p := run[|run| - 1];
    if r :| r in p.rs && !p.rs[r].pc.RDone? {
      s := ReaderStep(p, r);
    } else {
      var w :| w in p.ws && !p.ws[w].pc.WDone?;
      var v := if p.ws[w].pc.WLocking? && p.holder.Some? then p.holder.value else w;
      assert WriterOk(p, v);
      s := match p.ws[v].pc
        case WStart => WPoll(v)
        case WLocking => WLock(v)
        case WLoop(_, _, _) => if Looping(p.ws[v].pc) then WSeeDone(v) else WReturn(v)
        case WErr1(_) => WLoadWerr(v)
        case WErr2(_, _) => WLoadRerr(v)
        case _ => CloseDone;
    }
  }

  lemma ReaderStep(p: Pipe, r: nat) returns (s: Step)
    requires Inv(p) && p.done && r in p.rs && !p.rs[r].pc.RDone?
    ensures Enabled(p, s) && (s.RPoll? || s.RSeeDone? || s.RLoadRerr? || s.RLoadWerr? || s.Reply?)
  {
    assert ReaderOk(p, r);
    match p.rs[r].pc
    case RStart => s := RPoll(r);
    case RSelect => s := RSeeDone(r);
    case RErr1 => s := RLoadRerr(r);
    case RErr2(_) => s := RLoadWerr(r);
    case RCopying(_) => s := Reply(p.holder.value, r);
  }

  // ---------- termination once closed ----------

  /** How many steps a write call has left, transfers aside. */
  function WRank(pc: WPc): nat {
    match pc
    case WStart => 6
    case WLocking => 5
    case WWait(_, _) => 4
    case WLoop(_, _, _) => 3
    case WErr1(_) => 2
    case WErr2(_, _) => 1
    case WDone(_, _) => 0
  }

  function RRank(pc: RPc): nat {
    match pc
    case RStart => 4
    case RSelect => 3
    case RErr1 => 2
    case RErr2(_) => 1
    case RCopying(_) => 1
    case RDone(_, _) => 0
  }

  /** The steps the readers have left, and those of the writers: one element a step. */
  function ReaderSteps(p: Pipe): set<(nat, nat)> {
    set r, k: nat | r in p.rs && k < RRank(p.rs[r].pc) :: (r, k)
  }

  function WriterSteps(p: Pipe): set<(nat, nat)> {
    set w, k: nat | w in p.ws && k < WRank(p.ws[w].pc) :: (w, k)
  }

  /** A step of a call in progress, as opposed to a new call or a close. */
  predicate Pending(s: Step) {
    !s.NewWrite? && !s.NewRead? && !s.Store? && !s.CloseDone?
  }

  lemma ReaderRankDrops(p: Pipe, q: Pipe, r: nat)
    requires r in p.rs && q.rs.Keys == p.rs.Keys && RRank(q.rs[r].pc) < RRank(p.rs[r].pc)
    requires forall v :: v in p.rs && v != r ==> q.rs[v] == p.rs[v]
    ensures ReaderSteps(q) < ReaderSteps(p)
  {
    var k := RRank(q.rs[r].pc);
    assert (r, k) in ReaderSteps(p) && (r, k) !in ReaderSteps(q);
    assert forall v :: v in q.rs ==> v in p.rs;
  }

  lemma WriterRankDrops(p: Pipe, q: Pipe, w: nat)
    requires w in p.ws && q.ws.Keys == p.ws.Keys && WRank(q.ws[w].pc) < WRank(p.ws[w].pc)
    requires forall v :: v in p.ws && v != w ==> q.ws[v] == p.ws[v]
    ensures WriterSteps(q) < WriterSteps(p)
  {
    var k := WRank(q.ws[w].pc);
    assert (w, k) in WriterSteps(p) && (w, k) !in WriterSteps(q);
    assert forall v :: v in q.ws ==> v in p.ws;
  }

  lemma ReaderStepsRunOut(p: Pipe, s: Step)
    requires Enabled(p, s)
    requires s.Offer? || s.Reply? || s.RPoll? || s.RSeeDone? || s.RLoadRerr? || s.RLoadWerr?
    ensures ReaderSteps(Apply(p, s)) < ReaderSteps(p)
  {
    hide ReaderSteps;
    ReaderRankDrops(p, Apply(p, s), s.r);
  }

  lemma WriterStepsRunOut(p: Pipe, s: Step)
    requires Enabled(p, s)
    requires s.WPoll? || s.WLock? || s.WSeeDone? || s.WReturn? || s.WLoadWerr? || s.WLoadRerr?
    ensures WriterSteps(Apply(p, s)) < WriterSteps(p) && Apply(p, s).rs == p.rs
  {
    hide WriterSteps;
    WriterRankDrops(p, Apply(p, s), s.w);
  }

  /** Every step of a call in progress leaves fewer: the readers', or else the writers'. */
  lemma StepsRunOut(p: Pipe, s: Step)
    requires Enabled(p, s) && Pending(s)
    ensures var q := Apply(p, s);
      && q.done == p.done
      && (ReaderSteps(q) < ReaderSteps(p) || (ReaderSteps(q) == ReaderSteps(p) && WriterSteps(q) < WriterSteps(p)))
  {
    hide ReaderSteps, WriterSteps, Enabled;
    if s.Offer? || s.Reply? || s.RPoll? || s.RSeeDone? || s.RLoadRerr? || s.RLoadWerr? {
      ReaderStepsRunOut(p, s);
    } else {
      WriterStepsRunOut(p, s);
      SameReaders(p, Apply(p, s));
    }
  }

  lemma SameReaders(p: Pipe, q: Pipe)
    requires q.rs == p.rs
    ensures ReaderSteps(q) == ReaderSteps(p)
  {
  }

  /**
   After a close the calls in progress all return, whichever of them takes the next step: from any
   reachable state, following steps of pending calls as long as there are any ends with every call
   finished.
  */
  lemma {:induction false} DrainsOnceClosed(run: seq<Pipe>, steps: seq<Step>)
    returns (run': seq<Pipe>, steps': seq<Step>)
    requires IsRun(run, steps) && run[|run| - 1].done
    ensures IsRun(run', steps') && run <= run' && steps <= steps' && Finished(run'[|run'| - 1])
    ensures forall i :: |steps| <= i < |steps'| ==> Pending(steps'[i])
    decreases ReaderSteps(run[|run| - 1]), WriterSteps(run[|run| - 1])
  {
    hide ReaderSteps, WriterSteps, Enabled, Apply, Finished;
    var p := run[|run| - 1];
    if Finished(p) {
      run', steps' := run, steps;
    } else {
      var s := NoDeadlockOnceClosed(run, steps);
      StepsRunOut(p, s);
      var q := Apply(p, s);
      var more, taken := run + [q], steps + [s];
      RunSnoc(run, steps, s);
      run', steps' := DrainsOnceClosed(more, taken);
      forall i | |steps| <= i < |steps'| ensures Pending(steps'[i]) {
        if i == |steps| { assert taken[i] == s; }
      }
    }
  }

  lemma RunSnoc(run: seq<Pipe>, steps: seq<Step>, s: Step)
    requires IsRun(run, steps) && Enabled(run[|run| - 1], s)
    ensures IsRun(run + [Apply(run[|run| - 1], s)], steps + [s])
  {
    hide Enabled, Apply;
  }
}
