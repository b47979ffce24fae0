/**
 Where the TCP echo stack (04_protocolstack_underlying_c/second_version/src/tcp.c) falls short of
 the protocol, each time with the exact condition and an input: a FIN beside data, segments that
 are acknowledged in part, closes that nobody acknowledged, and data out of order.
*/
module TcpLimits {
  import opened Common
  import opened Checksum
  import opened TcpFrame
  import opened TcpSegment
  import opened TcpStack

  // ---------- FIN handling ----------

  /**
   A FIN starts the close of an established connection exactly when it does not come with
   acknowledged data: the echo of such data overwrites the flags before they are tested again.
  */
  lemma FinClosesIff(s: Slot, f: Frame)
    requires Acceptable(f) && s.state == ESTABLISHED && Fin(Flags(f))
    ensures OnSegment(s, f).slot.state == LAST_ACK <==> !(Ack(Flags(f)) && PayloadLen(f) > 0)
  {
    hide EchoReply, ControlReply;
  }

  // ---------- what a reply answers ----------

  /** How many of payload, SYN and FIN a segment has. */
  function Kinds(f: Frame): nat
    requires WellFormed(f)
  {
    (if PayloadLen(f) > 0 then 1 else 0) + (if Syn(Flags(f)) then 1 else 0) + (if Fin(Flags(f)) then 1 else 0)
  }

  lemma AddInjective(x: uint32, a: nat, b: nat)
    requires a < 0x1_0000_0000 && b < 0x1_0000_0000
    ensures Add32(x, a) == Add32(x, b) <==> a == b
  {
  }

  /** A frame `r` that acknowledges `acked` of the sequence space of `f`, and echoes `payload`. */
  lemma AnswerAcknowledges(f: Frame, r: Frame, sq: uint32, flags: byte, payload: seq<byte>, acked: nat)
    requires WellFormed(f) && acked <= SegLen(f) < 0x2_0000
    requires Says(r, sq, Add32(SeqOf(f), acked), flags, payload)
    ensures WellFormed(r) && AckOf(r) == Add32(SeqOf(f), acked) && Payload(r) == payload
    ensures AckOf(r) == Add32(SeqOf(f), SegLen(f)) <==> acked == SegLen(f)
  {
    AddInjective(SeqOf(f), acked, SegLen(f));
  }

  /**
   A reply carries the payload it received (an echo) or none, and acknowledges what it consumed.
   It acknowledges the whole sequence space of the segment exactly when the segment has only one
   of payload, SYN and FIN: data beside a SYN, or a FIN beside data, is left to be sent again.
  */
  lemma ReplyAcknowledgesIff(t: seq<Slot>, f: Frame)
    requires Acceptable(f) && Target(t, f) >= 0 && Handle(t, f).out.Some?
    ensures var e := Handle(t, f);
      var r := e.out.value;
      && Verifies(r) && AckOf(r) == e.slot.recvNext
      && Payload(r) == (if Flags(r) == ACK_PSH then Payload(f) else [])
      && (AckOf(r) == Add32(SeqOf(f), SegLen(f)) <==> Kinds(f) == 1)
  {
    hide EchoReply, ControlReply, Verifies, SeqOf, AckOf, PayloadLen, Flags, Payload, Find, Free;
    var i := Target(t, f);
    var sq := t[i].sendNext;
    PayloadBound(f);
    var r := Handle(t, f).out.value;
    if Find(t, KeyOf(f)) < 0 {
      ControlSays(f, SYN_ACK, ISS, Add32(SeqOf(f), 1));
      AnswerAcknowledges(f, r, ISS, SYN_ACK, [], 1);
    } else if Ack(Flags(f)) && PayloadLen(f) > 0 {
      EchoSays(f, sq, Add32(SeqOf(f), PayloadLen(f)));
      AnswerAcknowledges(f, r, sq, ACK_PSH, Payload(f), PayloadLen(f));
    } else {
      ControlSays(f, ACK_FIN, sq, Add32(SeqOf(f), 1));
      AnswerAcknowledges(f, r, sq, ACK_FIN, [], 1);
    }
  }

  lemma PayloadBound(f: Frame)
    requires WellFormed(f)
    ensures 0 <= PayloadLen(f) < 0x1_0000
  {
  }

  // ---------- a run that meets the first two limits ----------

  /** Byte `k` of the headers of a segment from 10.0.0.1 port 9 to 10.0.0.2 port 7, sequence number `sq`. */
  function HeaderByte(k: nat, total: byte, flags: byte, sq: byte, ack: uint16): byte {
    if k == 14 then 0x45
    else if k == 17 then total
    else if k == 26 || k == 30 then 10
    else if k == 29 then 1
    else if k == 33 then 2
    else if k == 35 then 9
    else if k == 37 then 7
    else if k == 41 then sq
    else if k == 44 then ack / 256
    else if k == 45 then ack % 256
    else if k == 46 then 0x50
    else if k == 47 then flags
    else 0
  }

  function Segment(flags: byte, sq: byte, ack: uint16, payload: seq<byte>): (f: Frame)
    requires |payload| < 200
    ensures |f| == 54 + |payload| && f[54..] == payload
    ensures forall k {:trigger f[k]} :: 0 <= k < 54 ==> f[k] == HeaderByte(k, 40 + |payload|, flags, sq, ack)
  {
    seq(54, k requires 0 <= k < 54 => HeaderByte(k, 40 + |payload|, flags, sq, ack)) + payload
  }

  const PEER := Key(0x0a00_0001, 0x0a00_0002, 9, 7)

  lemma SegmentFields(flags: byte, sq: byte, ack: uint16, payload: seq<byte>)
    requires |payload| < 200
    ensures var f := Segment(flags, sq, ack, payload);
      && Acceptable(f) && Flags(f) == flags && PayloadLen(f) == |payload| && Payload(f) == payload
      && SeqOf(f) == sq && AckOf(f) == ack && KeyOf(f) == PEER
  {
    hide Segment;
    var f := Segment(flags, sq, ack, payload);
    assert f[14] == 0x45 && f[16] == 0 && f[17] == 40 + |payload| && f[46] == 0x50 && f[47] == flags;
    assert f[26] == 10 && f[27] == 0 && f[28] == 0 && f[29] == 1;
    assert f[30] == 10 && f[31] == 0 && f[32] == 0 && f[33] == 2;
    assert f[34] == 0 && f[35] == 9 && f[36] == 0 && f[37] == 7;
    assert f[38] == 0 && f[39] == 0 && f[40] == 0 && f[41] == sq;
    assert f[42] == 0 && f[43] == 0 && f[44] == ack / 256 && f[45] == ack % 256;
  }

  const UNUSED := Slot(false, PEER, false, 0, 0, 0, CLOSED, 0, 0, [])
  const START := System(seq(MAX_CONN, _ => UNUSED), seq(MAX_CONN, _ => Hist([], {})))

  /** What a segment does to the table. */
  function After(y: System, f: Frame): System
    requires |y.t| == |y.h| && Acceptable(f) && Target(y.t, f) >= 0
  {
    var i, e := Target(y.t, f), Handle(y.t, f);
    System(y.t[i := e.slot], y.h[i := Observe(y.h[i], f, e, Find(y.t, KeyOf(f)) < 0)])
  }

  /** Slot `i` is the only one in use. */
  ghost predicate OnlyUsed(y: System, i: nat) {
    && Sized(y) && i < MAX_CONN && y.t[i].used && y.t[i].key == PEER
    && forall j :: 0 <= j < MAX_CONN && j != i ==> !y.t[j].used
  }

  lemma OnlyUsedFound(y: System, i: nat, f: Frame)
    requires OnlyUsed(y, i) && Acceptable(f) && KeyOf(f) == PEER
    ensures Find(y.t, PEER) == i && Target(y.t, f) == i
  {
  }

  lemma StartIsInitial(f: Frame)
    requires Acceptable(f) && KeyOf(f) == PEER && Syn(Flags(f))
    ensures Initial(START) && |START.t| == |START.h| && Find(START.t, PEER) < 0
    ensures Target(START.t, f) == Free(START.t) >= 0
  {
  }

  lemma SynOpens(f: Frame)
    requires Acceptable(f) && KeyOf(f) == PEER && Syn(Flags(f))
    requires Find(START.t, PEER) < 0 && Target(START.t, f) == Free(START.t) >= 0
    ensures var y, i := After(START, f), Free(START.t);
      && SegmentStep(START, y, f) && OnlyUsed(y, i) && y.t[i].state == SYN_RCVD && y.t[i].sendNext == 5659
      && y.t[i].recvNext == Add32(SeqOf(f), 1)
  {
    hide ControlReply, EchoReply, Find, Free, KeyOf, SeqOf, AckOf, Flags, PayloadLen, Acceptable;
  }

  lemma AckEstablishes(y: System, i: nat, f: Frame)
    requires OnlyUsed(y, i) && y.t[i].state == SYN_RCVD && y.t[i].sendNext == 5659
    requires Acceptable(f) && KeyOf(f) == PEER && Ack(Flags(f)) && AckOf(f) == 5659 && Target(y.t, f) == i
    requires Find(y.t, PEER) == i
    ensures var y' := After(y, f);
      && SegmentStep(y, y', f) && OnlyUsed(y', i) && y'.t[i].state == ESTABLISHED && y'.t[i].sendNext == 5659
      && y'.t[i].recvNext == y.t[i].recvNext
  {
    hide ControlReply, EchoReply, Find, Free, KeyOf, SeqOf, AckOf, Flags, PayloadLen, Acceptable;
  }

  lemma OpeningSegments()
    ensures var f := Segment(2, 0, 0, []);
      Acceptable(f) && KeyOf(f) == PEER && Syn(Flags(f)) && Add32(SeqOf(f), 1) == 1
    ensures var g := Segment(16, 1, 5659, []);
      Acceptable(g) && KeyOf(g) == PEER && Ack(Flags(g)) && AckOf(g) == 5659
  {
    SegmentFields(2, 0, 0, []);
    SegmentFields(16, 1, 5659, []);
    hide Segment, Acceptable, KeyOf, SeqOf, AckOf;
  }

  /** The peer opens a connection: a SYN, then the ACK of the SYN+ACK. */
  lemma Opened() returns (run: seq<System>, i: nat)
    ensures IsRun(run) && |run| == 3 && OnlyUsed(run[2], i)
    ensures run[2].t[i].state == ESTABLISHED && run[2].t[i].sendNext == 5659 && run[2].t[i].recvNext == 1
  {
    hide *;
    var syn, ack := Segment(2, 0, 0, []), Segment(16, 1, 5659, []);
    OpeningSegments();
    StartIsInitial(syn);
    SynOpens(syn);
    i := Free(START.t);
    var y1 := After(START, syn);
    OnlyUsedFound(y1, i, ack);
    AckEstablishes(y1, i, ack);
    OnlyUsedSized(y1, i);
    run := [START, y1, After(y1, ack)];
    RunOfThree(run, syn, ack);
  }

  lemma RunOfThree(run: seq<System>, f: Frame, g: Frame)
    requires |run| == 3 && Initial(run[0]) && Sized(run[1])
    requires SegmentStep(run[0], run[1], f) && SegmentStep(run[1], run[2], g)
    ensures IsRun(run)
  {
    hide SegmentStep;
  }

  lemma RunExtends(run: seq<System>, y: System, f: Frame)
    requires IsRun(run) && Sized(run[|run| - 1]) && SegmentStep(run[|run| - 1], y, f)
    ensures IsRun(run + [y])
  {
    hide SegmentStep;
    var more := run + [y];
    forall k | 0 <= k < |more| - 1 ensures Next(more[k], more[k + 1]) {
      if k < |run| - 1 { assert Next(run[k], run[k + 1]); }
    }
  }

  /** A data segment for the connection in slot `i`. */
  lemma DataAnswered(y: System, i: nat, f: Frame)
    requires Acceptable(f) && KeyOf(f) == PEER && Ack(Flags(f)) && PayloadLen(f) > 0
    requires OnlyUsed(y, i) && y.t[i].state == ESTABLISHED && Target(y.t, f) == i && Find(y.t, PEER) == i
    ensures var y', e := After(y, f), OnData(y.t[i], f);
      && Handle(y.t, f) == e && e.out.Some? && SegmentStep(y, y', f)
      && OnlyUsed(y', i) && y'.t[i] == e.slot && y'.t[i].state == ESTABLISHED
      && y'.h[i].sent == y.h[i].sent + [e.out.value]
  {
    hide ControlReply, EchoReply, Find, Free, KeyOf, SeqOf, AckOf, Flags, PayloadLen, Acceptable;
  }

  /**
   The run goes on with one byte of data and a FIN in one segment: the byte is echoed, the FIN is
   neither answered nor acknowledged, and the connection stays ESTABLISHED.
  */
  lemma FinUnanswered() returns (run: seq<System>, i: nat, f: Frame)
    ensures IsRun(run) && |run| == 4 && Sized(run[2]) && SegmentStep(run[2], run[3], f)
    ensures Acceptable(f) && Target(run[2].t, f) == i < MAX_CONN && |f| == 55
    ensures Fin(Flags(f)) && Ack(Flags(f)) && Payload(f) == [65]
    ensures |run[3].t| == |run[3].h| == MAX_CONN && run[2].t[i].state == ESTABLISHED == run[3].t[i].state
    ensures run[3].h[i].sent != []
    ensures var r := run[3].h[i].sent[|run[3].h[i].sent| - 1];
      && Verifies(r) && Payload(r) == [65] && !Fin(Flags(r))
      && AckOf(r) == Add32(SeqOf(f), 1) != Add32(SeqOf(f), SegLen(f))
  {
    hide *;
    var before;
    before, i := Opened();
    f := Segment(17, 1, 5659, [65]);
    FinSegment(f);
    var y2 := before[2];
    OnlyUsedSized(y2, i);
    OnlyUsedFound(y2, i, f);
    DataAnswered(y2, i, f);
    var y3 := After(y2, f);
    SegmentStepSized(y2, y3, f);
    run := before + [y3];
    RunExtends(before, y3, f);
    EchoOfFin(y2.t[i], f);
  }

  lemma OnlyUsedSized(y: System, i: nat)
    requires OnlyUsed(y, i)
    ensures Sized(y) && |y.t| == |y.h| == MAX_CONN && i < MAX_CONN && y.t[i].used
  {
  }

  lemma SegmentStepSized(y: System, y': System, f: Frame)
    requires Sized(y) && SegmentStep(y, y', f)
    ensures Sized(y') && |y'.t| == |y'.h| == MAX_CONN
  {
    hide Handle, Observe, Acceptable, KeyOf, Flags;
  }

  lemma FinSegment(f: Frame)
    requires f == Segment(17, 1, 5659, [65])
    ensures Acceptable(f) && KeyOf(f) == PEER && PayloadLen(f) == 1 && Payload(f) == [65] && |f| == 55
    ensures Fin(Flags(f)) && Ack(Flags(f)) && SegLen(f) == 2
  {
    SegmentFields(17, 1, 5659, [65]);
    hide Segment, Acceptable, KeyOf, PayloadLen, Payload, Flags;
  }

  lemma FinLeftOut(f: Frame, r: Frame, sq: uint32)
    requires WellFormed(f) && SegLen(f) == 2 && Says(r, sq, Add32(SeqOf(f), 1), ACK_PSH, [65])
    ensures Verifies(r) && Payload(r) == [65] && !Fin(Flags(r))
    ensures AckOf(r) == Add32(SeqOf(f), 1) != Add32(SeqOf(f), SegLen(f))
  {
    hide SegLen, SeqOf, AckOf, Flags, Payload, Verifies, WellFormed;
    AddInjective(SeqOf(f), 1, 2);
    assert !Fin(ACK_PSH);
  }

  /** The echo of a FIN beside one byte acknowledges the byte only. */
  lemma EchoOfFin(s: Slot, f: Frame)
    requires Acceptable(f) && PayloadLen(f) == 1 && Payload(f) == [65] && SegLen(f) == 2
    ensures OnData(s, f).out.Some?
    ensures var r := OnData(s, f).out.value;
      && Verifies(r) && Payload(r) == [65] && !Fin(Flags(r))
      && AckOf(r) == Add32(SeqOf(f), 1) != Add32(SeqOf(f), SegLen(f))
  {
    EchoSays(f, s.sendNext, Add32(SeqOf(f), 1));
    FinLeftOut(f, OnData(s, f).out.value, s.sendNext);
    hide EchoReply, Acceptable, PayloadLen, Payload, SegLen, Verifies, AckOf, SeqOf, Flags, Says;
  }

  // ---------- closes ----------

  /**
   Any segment frees a connection that waits for the last acknowledgement. Whether its FIN was
   acknowledged shows in the state left behind, and only there.
  */
  lemma CloseAcknowledgedIff(s: Slot, f: Frame)
    requires Acceptable(f) && s.state == LAST_ACK
    ensures var s' := OnSegment(s, f).slot;
      && !s'.used && !s'.timeActive && OnSegment(s, f).out == None
      && (s'.state == LISTEN <==> Ack(Flags(f)) && AckOf(f) == s.sendNext)
  {
    hide EchoReply, ControlReply;
  }

  /** A FIN without data closes the connection in slot `i`. */
  lemma FinAnswered(y: System, i: nat, f: Frame)
    requires Acceptable(f) && KeyOf(f) == PEER && Fin(Flags(f)) && PayloadLen(f) == 0
    requires OnlyUsed(y, i) && y.t[i].state == ESTABLISHED && Target(y.t, f) == i && Find(y.t, PEER) == i
    ensures var y' := After(y, f);
      SegmentStep(y, y', f) && OnlyUsed(y', i) && y'.t[i].state == LAST_ACK
  {
    hide ControlReply, EchoReply, Find, Free, KeyOf, SeqOf, AckOf, Flags, PayloadLen, Acceptable;
  }

  lemma CloseTaken(y: System, i: nat, f: Frame)
    requires Acceptable(f) && KeyOf(f) == PEER && !Ack(Flags(f))
    requires OnlyUsed(y, i) && y.t[i].state == LAST_ACK && Target(y.t, f) == i && Find(y.t, PEER) == i
    ensures var y' := After(y, f);
      && SegmentStep(y, y', f) && Sized(y') && y'.h[i] == y.h[i]
      && !y'.t[i].used && !y'.t[i].timeActive && y'.t[i].state != LISTEN
  {
    hide ControlReply, EchoReply, Find, Free, KeyOf, SeqOf, AckOf, Flags, PayloadLen, Acceptable, OnSegment;
    CloseAcknowledgedIff(y.t[i], f);
  }

  lemma ClosingSegments()
    ensures var f := Segment(17, 1, 5659, []);
      Acceptable(f) && KeyOf(f) == PEER && Fin(Flags(f)) && PayloadLen(f) == 0
    ensures var g := Segment(8, 2, 0, [65]); Acceptable(g) && KeyOf(g) == PEER && !Ack(Flags(g))
  {
    SegmentFields(17, 1, 5659, []);
    SegmentFields(8, 2, 0, [65]);
    hide Segment, Acceptable, KeyOf, PayloadLen;
  }

  /**
   The run goes on with a FIN, which is answered, and a segment without any acknowledgement: the
   slot is freed, its FIN+ACK is never sent again, and the peer may not have received it.
  */
  lemma CloseUnacknowledged() returns (run: seq<System>, i: nat, f: Frame)
    ensures IsRun(run) && |run| == 5 && Sized(run[3]) && Sized(run[4]) && i < MAX_CONN
    ensures Acceptable(f) && !Ack(Flags(f)) && SegmentStep(run[3], run[4], f)
    ensures run[3].t[i].used && run[3].t[i].state == LAST_ACK
    ensures !run[4].t[i].used && run[4].t[i].state != LISTEN && TickSlot(run[4].t[i]).1 == None
  {
    hide *;
    var before;
    before, i := Opened();
    var fin := Segment(17, 1, 5659, []);
    f := Segment(8, 2, 0, [65]);
    ClosingSegments();
    OnlyUsedSized(before[2], i);
    OnlyUsedFound(before[2], i, fin);
    FinAnswered(before[2], i, fin);
    var y3 := After(before[2], fin);
    OnlyUsedSized(y3, i);
    RunExtends(before, y3, fin);
    OnlyUsedFound(y3, i, f);
    CloseTaken(y3, i, f);
    var y4 := After(y3, f);
    RunExtends(before + [y3], y4, f);
    run := before + [y3] + [y4];
    FreedIsSilent(y4, i);
  }

  lemma FreedIsSilent(y: System, i: nat)
    requires Sized(y) && i < MAX_CONN && !y.t[i].used
    ensures i < |y.t| && TickSlot(y.t[i]).1 == None
  {
  }

  // ---------- data out of order ----------

  predicate IsData(f: Frame) {
    Acceptable(f) && Ack(Flags(f)) && PayloadLen(f) > 0
  }

  predicate AllData(ds: seq<Frame>) {
    forall d :: d in ds ==> IsData(d)
  }

  /** The slot after these data segments. */
  function Feed(s: Slot, ds: seq<Frame>): Slot
    requires AllData(ds)
  {
    if ds == [] then s
    else
      var n := |ds| - 1;
      assert ds[n] in ds;
      OnSegment(Feed(s, ds[..n]), ds[n]).slot
  }

  /** `n` consecutive sequence numbers. */
  function Numbers(start: uint32, n: nat): (r: seq<uint32>)
    ensures |r| == n && forall k :: 0 <= k < n ==> r[k] == Add32(start, k)
  {
    if n == 0 then [] else Numbers(start, n - 1) + [Add32(start, n - 1)]
  }

  /** The frames written in answer, in order. */
  function Outs(s: Slot, ds: seq<Frame>): seq<Frame>
    requires AllData(ds)
  {
    if ds == [] then []
    else
      var n := |ds| - 1;
      assert ds[n] in ds;
      var out := OnSegment(Feed(s, ds[..n]), ds[n]).out;
      Outs(s, ds[..n]) + if out.Some? then [out.value] else []
  }

  /** The bytes that frames carry, behind one another. */
  function Carried(rs: seq<Frame>): seq<byte> {
    if rs == [] then []
    else
      var r := rs[|rs| - 1];
      Carried(rs[..|rs| - 1]) + if WellFormed(r) then Payload(r) else []
  }

  /** The peer's sequence numbers of those bytes, read off the frames: an echo acknowledges what it carries. */
  function Echoed(rs: seq<Frame>): seq<uint32> {
    if rs == [] then []
    else
      var r := rs[|rs| - 1];
      Echoed(rs[..|rs| - 1])
      + if WellFormed(r) then Numbers(Add32(AckOf(r), 0 - |Payload(r)|), |Payload(r)|) else []
  }

  /** Every segment starts where the connection expects it. */
  predicate InOrder(s: Slot, ds: seq<Frame>)
    requires AllData(ds)
  {
    forall k {:trigger ds[k]} :: 0 <= k < |ds| && ds[k] in ds ==> SeqOf(ds[k]) == Feed(s, ds[..k]).recvNext
  }

  lemma PayloadSize(f: Frame)
    requires WellFormed(f)
    ensures |Payload(f)| == PayloadLen(f)
  {
  }

  /** A data segment is answered by an echo of its payload, which acknowledges it. */
  lemma DataEchoed(s: Slot, d: Frame)
    requires s.state == ESTABLISHED && IsData(d)
    ensures WellFormed(d) && Acceptable(d) && PayloadLen(d) > 0
    ensures var e := OnSegment(s, d);
      && e.slot.state == ESTABLISHED && e.slot.recvNext == Add32(SeqOf(d), PayloadLen(d))
      && e.slot.sendNext == Add32(s.sendNext, PayloadLen(d))
      && e.out.Some?
      && var r := e.out.value;
         && Verifies(r) && Flags(r) == ACK_PSH && SeqOf(r) == s.sendNext
         && AckOf(r) == Add32(SeqOf(d), PayloadLen(d)) && Payload(r) == Payload(d) && |Payload(r)| == PayloadLen(d)
  {
    EchoSays(d, s.sendNext, Add32(SeqOf(d), PayloadLen(d)));
    PayloadSize(d);
    hide EchoReply, ControlReply, SeqOf, AckOf, PayloadLen, Payload, Flags, Verifies;
  }

  /** One more data segment: one more echo, which carries its payload. */
  lemma {:induction false} FeedOne(s: Slot, ds: seq<Frame>, d: Frame)
    requires s.state == ESTABLISHED && AllData(ds + [d])
    ensures AllData(ds) && IsData(d) && Feed(s, ds).state == ESTABLISHED
    ensures var e, more := OnSegment(Feed(s, ds), d), ds + [d];
      && e.out.Some? && Feed(s, more) == e.slot && Outs(s, more) == Outs(s, ds) + [e.out.value]
    decreases |ds|
  {
    hide OnSegment, IsData, SeqOf, PayloadLen;
    var more := ds + [d];
    assert more[..|ds|] == ds && more[|ds|] == d;
    assert d in more && forall x :: x in ds ==> x in more;
    if ds != [] {
      var n := |ds| - 1;
      assert ds == ds[..n] + [ds[n]];
      FeedOne(s, ds[..n], ds[n]);
      DataEchoed(Feed(s, ds[..n]), ds[n]);
    }
    DataEchoed(Feed(s, ds), d);
  }

  lemma AddBack(x: uint32, n: nat)
    ensures Add32(Add32(x, n), 0 - n) == x
  {
  }

  lemma OneMoreOut(rs: seq<Frame>, r: Frame)
    requires WellFormed(r)
    ensures Carried(rs + [r]) == Carried(rs) + Payload(r)
    ensures Echoed(rs + [r]) == Echoed(rs) + Numbers(Add32(AckOf(r), 0 - |Payload(r)|), |Payload(r)|)
  {
    assert (rs + [r])[..|rs|] == rs;
  }

  lemma VerifiedIsWellFormed(r: Frame)
    requires Verifies(r)
    ensures WellFormed(r)
  {
  }

  /** What one more data segment adds to the bytes echoed and to their numbers. */
  lemma EchoGrows(s: Slot, ds: seq<Frame>, d: Frame)
    requires s.state == ESTABLISHED && AllData(ds + [d])
    ensures AllData(ds) && IsData(d) && WellFormed(d) && PayloadLen(d) > 0 && Acceptable(d)
    ensures Carried(Outs(s, ds + [d])) == Carried(Outs(s, ds)) + Payload(d)
    ensures Echoed(Outs(s, ds + [d])) == Echoed(Outs(s, ds)) + Numbers(SeqOf(d), PayloadLen(d))
    ensures Feed(s, ds + [d]).recvNext == Add32(SeqOf(d), PayloadLen(d))
  {
    hide OnSegment, Outs, Feed, Carried, Echoed, SeqOf, AckOf, PayloadLen, Payload, Numbers, Verifies;
    FeedOne(s, ds, d);
    DataEchoed(Feed(s, ds), d);
    var r := OnSegment(Feed(s, ds), d).out.value;
    assert WellFormed(r) by { VerifiedIsWellFormed(r); }
    OneMoreOut(Outs(s, ds), r);
    AddBack(SeqOf(d), PayloadLen(d));
  }

  /** Every data segment gets its own echo: it verifies, carries that segment's payload and acknowledges it. */
  lemma {:induction false} EachEchoed(s: Slot, ds: seq<Frame>, k: nat)
    requires s.state == ESTABLISHED && AllData(ds) && k < |ds|
    ensures |Outs(s, ds)| == |ds| && IsData(ds[k])
    ensures var r := Outs(s, ds)[k];
      && Verifies(r) && Flags(r) == ACK_PSH && Payload(r) == Payload(ds[k])
      && AckOf(r) == Add32(SeqOf(ds[k]), PayloadLen(ds[k]))
    decreases |ds|
  {
    hide IsData, OnSegment, Verifies, SeqOf, AckOf, PayloadLen, Payload, Flags;
    var n := |ds| - 1;
    assert ds == ds[..n] + [ds[n]];
    FeedOne(s, ds[..n], ds[n]);
    DataEchoed(Feed(s, ds[..n]), ds[n]);
    OutsCount(s, ds[..n]);
    if k < n { EachEchoed(s, ds[..n], k); }
  }

  lemma {:induction false} OutsCount(s: Slot, ds: seq<Frame>)
    requires s.state == ESTABLISHED && AllData(ds)
    ensures |Outs(s, ds)| == |ds|
    decreases |ds|
  {
    hide IsData, OnSegment;
    if ds != [] {
      var n := |ds| - 1;
      assert ds == ds[..n] + [ds[n]];
      FeedOne(s, ds[..n], ds[n]);
      OutsCount(s, ds[..n]);
    }
  }

  lemma InOrderOne(s: Slot, ds: seq<Frame>, d: Frame)
    requires AllData(ds + [d]) && AllData(ds) && IsData(d)
    ensures InOrder(s, ds + [d]) <==> InOrder(s, ds) && SeqOf(d) == Feed(s, ds).recvNext
  {
    hide Feed, SeqOf;
    var more := ds + [d];
    assert more[..|ds|] == ds && more[|ds|] == d;
    forall k | 0 <= k < |ds| ensures more[k] == ds[k] && more[..k] == ds[..k] && more[k] in more && ds[k] in ds {}
    assert d in more;
  }

  lemma NumbersAdd(start: uint32, m: nat, n: nat, from: uint32)
    requires n > 0
    ensures Numbers(start, m) + Numbers(from, n) == Numbers(start, m + n) <==> from == Add32(start, m)
  {
    hide Numbers;
    var a, b, c := Numbers(start, m), Numbers(from, n), Numbers(start, m + n);
    if from == Add32(start, m) {
      forall k | 0 <= k < m + n ensures (a + b)[k] == c[k] {
        if k >= m { AddAdd(start, m, k - m); }
      }
      assert a + b == c;
    } else {
      AddAdd(from, 0, 0);
      assert (a + b)[m] == b[0] && c[m] == Add32(start, m);
    }
  }

  /**
   The stack never compares a data segment's number with the one it expects. The frames it writes
   carry the peer's bytes from there on, each once and in order, exactly when every data segment
   starts where the one before it ended.
  */
  lemma {:induction false} EchoIsStreamIff(s: Slot, ds: seq<Frame>)
    requires s.state == ESTABLISHED && AllData(ds)
    ensures var numbers := Echoed(Outs(s, ds));
      && (numbers == Numbers(s.recvNext, |numbers|) <==> InOrder(s, ds))
      && (InOrder(s, ds) ==> Feed(s, ds).recvNext == Add32(s.recvNext, |numbers|))
    decreases |ds|
  {
    if ds != [] {
      var n := |ds| - 1;
      var front, d := ds[..n], ds[n];
      assert ds == front + [d];
      EchoGrows(s, front, d);
      EchoIsStreamIff(s, front);
      InOrderOne(s, front, d);
      EchoOneMore(s, front, d);
    }
  }

  lemma EchoOneMore(s: Slot, front: seq<Frame>, d: Frame)
    requires AllData(front) && IsData(d) && AllData(front + [d])
    requires Echoed(Outs(s, front + [d])) == Echoed(Outs(s, front)) + Numbers(SeqOf(d), PayloadLen(d))
    requires Echoed(Outs(s, front)) == Numbers(s.recvNext, |Echoed(Outs(s, front))|) <==> InOrder(s, front)
    requires InOrder(s, front) ==> Feed(s, front).recvNext == Add32(s.recvNext, |Echoed(Outs(s, front))|)
    requires Feed(s, front + [d]).recvNext == Add32(SeqOf(d), PayloadLen(d))
    requires InOrder(s, front + [d]) <==> InOrder(s, front) && SeqOf(d) == Feed(s, front).recvNext
    ensures var all := Echoed(Outs(s, front + [d]));
      && (all == Numbers(s.recvNext, |all|) <==> InOrder(s, front + [d]))
      && (InOrder(s, front + [d]) ==> Feed(s, front + [d]).recvNext == Add32(s.recvNext, |all|))
  {
    hide Echoed, Outs, Feed, InOrder, SeqOf, PayloadLen, Numbers, Flags;
    var all, m, n := Echoed(Outs(s, front + [d])), |Echoed(Outs(s, front))|, PayloadLen(d);
    NumbersAdd(s.recvNext, m, n, SeqOf(d));
    if all == Numbers(s.recvNext, |all|) {
      assert Echoed(Outs(s, front)) == all[..m];
      assert all[..m] == Numbers(s.recvNext, m);
    }
    AddAdd(s.recvNext, m, n);
  }

  /** The peer's byte at each sequence number; every segment carries those of its own numbers. */
  ghost predicate Sends(peer: uint32 -> byte, ds: seq<Frame>)
    requires AllData(ds)
  {
    forall d {:trigger d in ds} :: d in ds ==>
      |Payload(d)| == PayloadLen(d)
      && forall k :: 0 <= k < PayloadLen(d) ==> Payload(d)[k] == peer(Add32(SeqOf(d), k))
  }

  /** The peer's bytes at some sequence numbers. */
  function BytesAt(peer: uint32 -> byte, numbers: seq<uint32>): (r: seq<byte>)
    ensures |r| == |numbers| && forall k :: 0 <= k < |r| ==> r[k] == peer(numbers[k])
  {
    seq(|numbers|, k requires 0 <= k < |numbers| => peer(numbers[k]))
  }

  lemma BytesAtAppend(peer: uint32 -> byte, a: seq<uint32>, b: seq<uint32>)
    ensures BytesAt(peer, a + b) == BytesAt(peer, a) + BytesAt(peer, b)
  {
  }

  lemma SentBytes(peer: uint32 -> byte, ds: seq<Frame>, d: Frame)
    requires AllData(ds + [d]) && AllData(ds) && IsData(d) && WellFormed(d) && Sends(peer, ds + [d])
    ensures Sends(peer, ds) && Payload(d) == BytesAt(peer, Numbers(SeqOf(d), PayloadLen(d)))
  {
    hide IsData, WellFormed, SeqOf, PayloadLen, Payload;
    assert d in ds + [d];
    assert forall x :: x in ds ==> x in ds + [d];
  }

  /** The bytes on the wire are the peer's bytes at the numbers echoed, in the order of the echoes. */
  lemma {:induction false} CarriedIs(s: Slot, ds: seq<Frame>, peer: uint32 -> byte)
    requires s.state == ESTABLISHED && AllData(ds) && Sends(peer, ds)
    ensures Carried(Outs(s, ds)) == BytesAt(peer, Echoed(Outs(s, ds)))
    decreases |ds|
  {
    if ds != [] {
      var n := |ds| - 1;
      var front, d := ds[..n], ds[n];
      assert ds == front + [d];
      EchoGrows(s, front, d);
      SentBytes(peer, front, d);
      hide AllData, IsData, WellFormed, Sends, Carried, Echoed, Outs, SeqOf, PayloadLen, Payload, Numbers, BytesAt;
      CarriedIs(s, front, peer);
      BytesAtAppend(peer, Echoed(Outs(s, front)), Numbers(SeqOf(d), PayloadLen(d)));
    }
  }

  /** No two sequence numbers involved have the same byte. */
  ghost predicate Distinct(peer: uint32 -> byte, a: seq<uint32>, b: seq<uint32>) {
    forall x, y :: x in a && y in b && peer(x) == peer(y) ==> x == y
  }

  /**
   In terms of the bytes on the wire: if the segments are in order, the frames written carry the
   peer's stream. If they are not, they do not, unless the stream repeats itself so that a
   wrong byte happens to be the right one.
  */
  lemma CarriedIsStreamIff(s: Slot, ds: seq<Frame>, peer: uint32 -> byte)
    requires s.state == ESTABLISHED && AllData(ds) && Sends(peer, ds)
    ensures var out, numbers := Carried(Outs(s, ds)), Echoed(Outs(s, ds));
      var stream := Numbers(s.recvNext, |out|);
      && (InOrder(s, ds) ==> out == BytesAt(peer, stream))
      && (Distinct(peer, numbers, stream) ==> (out == BytesAt(peer, stream) <==> InOrder(s, ds)))
  {
    CarriedIs(s, ds, peer);
    EchoIsStreamIff(s, ds);
    hide Carried, Echoed, Outs, InOrder, Numbers, BytesAt;
    var out, numbers := Carried(Outs(s, ds)), Echoed(Outs(s, ds));
    var stream := Numbers(s.recvNext, |out|);
    if Distinct(peer, numbers, stream) && out == BytesAt(peer, stream) {
      forall k | 0 <= k < |out| ensures numbers[k] == stream[k] {
        assert numbers[k] in numbers && stream[k] in stream && out[k] == peer(stream[k]);
      }
      assert numbers == stream;
    }
  }

  /**
   The run goes on with one byte of data that the network delivers twice. The first is what the
   connection expects, the second is not; both are echoed, as different bytes of the stack's own
   stream.
  */
  lemma DuplicateEchoed() returns (run: seq<System>, i: nat, f: Frame)
    ensures IsRun(run) && |run| == 5 && i < MAX_CONN && IsData(f) && Payload(f) == [65]
    ensures Sized(run[2]) && Sized(run[3]) && Sized(run[4])
    ensures SegmentStep(run[2], run[3], f) && SegmentStep(run[3], run[4], f)
    ensures run[2].t[i].recvNext == SeqOf(f) != run[3].t[i].recvNext
    ensures var before, sent := run[2].h[i].sent, run[4].h[i].sent;
      && |sent| == |before| + 2 && before <= sent
      && var r1, r2 := sent[|before|], sent[|before| + 1];
         Says(r1, 5659, 2, ACK_PSH, [65]) && Says(r2, 5660, 2, ACK_PSH, [65])
  {
    hide *;
    var before;
    before, i := Opened();
    f := Segment(16, 1, 5659, [65]);
    DataSegment(f);
    var y2 := before[2];
    OnlyUsedSized(y2, i);
    OnlyUsedFound(y2, i, f);
    DataAnswered(y2, i, f);
    DataIsEcho(y2.t[i], f);
    var y3 := After(y2, f);
    RunExtends(before, y3, f);
    OnlyUsedSized(y3, i);
    OnlyUsedFound(y3, i, f);
    DataAnswered(y3, i, f);
    DataIsEcho(y3.t[i], f);
    var y4 := After(y3, f);
    RunExtends(before + [y3], y4, f);
    OnlyUsedSized(y4, i);
    run := before + [y3] + [y4];
  }

  lemma DataSegment(f: Frame)
    requires f == Segment(16, 1, 5659, [65])
    ensures Acceptable(f) && KeyOf(f) == PEER && Ack(Flags(f)) && PayloadLen(f) == 1 && Payload(f) == [65]
    ensures SeqOf(f) == 1 && IsData(f)
  {
    SegmentFields(16, 1, 5659, [65]);
    hide Segment, Acceptable, KeyOf, PayloadLen, Payload, SeqOf, AckOf;
  }

  /** The echo of one byte numbered 1. */
  lemma DataIsEcho(s: Slot, d: Frame)
    requires s.state == ESTABLISHED && IsData(d) && Acceptable(d)
    requires SeqOf(d) == 1 && PayloadLen(d) == 1 && Payload(d) == [65]
    ensures var e := OnData(s, d);
      && e.out.Some? && e.slot.recvNext == 2 && e.slot.sendNext == Add32(s.sendNext, 1)
      && (s.sendNext == 5659 ==> e.slot.sendNext == 5660)
      && Says(e.out.value, s.sendNext, 2, ACK_PSH, [65])
  {
    EchoSays(d, s.sendNext, 2);
    assert Add32(1, 1) == 2 && Add32(5659, 1) == 5660;
    hide EchoReply, Says, Payload, SeqOf, PayloadLen, Acceptable;
  }
}
