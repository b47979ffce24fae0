/**
 The connection table of 04_protocolstack_underlying_c/second_version/src/tcp.c: the state
 machine of handle_tcp and the retransmission timer of tcp_timer_tick, with what every run of
 received segments and timer ticks keeps.
*/
module TcpStack {
  import opened Common
  import opened TcpFrame
  import opened TcpSegment

  const MAX_CONN: nat := 20
  const MAX_RETRIES := 5
  const INITIAL_RTO_TICKS: uint32 := 100
  const ISS: uint32 := 5658

  datatype TcpState = CLOSED | LISTEN | SYN_RCVD | ESTABLISHED | LAST_ACK

  /** `saddr, daddr, sport, dport`. */
  datatype Key = Key(saddr: uint32, daddr: uint32, sport: uint16, dport: uint16)

  /** `struct tcp`; `pkg` is the saved frame `unreact_pkg[..unreact_len]`. */
  datatype Slot = Slot(used: bool, key: Key,
                       timeActive: bool, rtoTicks: uint32, rtoCounts: uint32, retryCount: byte,
                       state: TcpState, sendNext: uint32, recvNext: uint32, pkg: Frame)

  function KeyOf(f: Frame): Key
    requires WellFormed(f)
  {
    Key(Get32(f, 26), Get32(f, 30), Get16(f, Tcp(f)), Get16(f, Tcp(f) + 2))
  }

  // ---------- handle_tcp ----------

  /** find_tcp: the first used slot with this 4-tuple, or -1. */
  function Find(t: seq<Slot>, key: Key): (r: int)
    ensures -1 <= r < |t|
    ensures r >= 0 ==> t[r].used && t[r].key == key
    ensures r < 0 ==> forall i :: 0 <= i < |t| ==> !(t[i].used && t[i].key == key)
  {
    if t == [] then -1
    else if t[0].used && t[0].key == key then 0
    else var r := Find(t[1..], key); if r < 0 then -1 else r + 1
  }

  /** The slot alloc_tcp takes: the first unused one, or -1. */
  function Free(t: seq<Slot>): (r: int)
    ensures -1 <= r < |t|
    ensures r >= 0 ==> !t[r].used
    ensures r < 0 ==> forall i :: 0 <= i < |t| ==> t[i].used
  {
    if t == [] then -1
    else if !t[0].used then 0
    else var r := Free(t[1..]); if r < 0 then -1 else r + 1
  }

  function StartTimer(s: Slot, pkg: Frame): Slot {
    s.(pkg := pkg, timeActive := true, rtoCounts := 0, rtoTicks := INITIAL_RTO_TICKS, retryCount := 0)
  }

  function CloseTimer(s: Slot): Slot {
    s.(timeActive := false, rtoCounts := 0, retryCount := 0)
  }

  /** The effect of one call: the slot, the receive buffer and the frame written, if any. */
  datatype Effect = Effect(slot: Slot, buf: Frame, out: Option<Frame>)

  /** A SYN from an unknown peer takes over a free slot. */
  function OnSyn(s: Slot, f: Frame): Effect
    requires Acceptable(f) && Syn(Flags(f))
  {
    var recv := Add32(SeqOf(f), 1);
    var b := ControlReply(f, SYN_ACK, ISS, recv);
    var out := b[..ETH + IP_HDR + TCP_HDR];
    Effect(StartTimer(s.(used := true, key := KeyOf(f), state := SYN_RCVD, recvNext := recv,
                         sendNext := Add32(ISS, 1)), out), b, Some(out))
  }

  /** The state machine for a segment of a known connection. */
  function OnSegment(s: Slot, f: Frame): Effect
    requires Acceptable(f)
  {
    var flags := Flags(f);
    match s.state
    case SYN_RCVD =>
      if Ack(flags) && AckOf(f) == s.sendNext
      then Effect(CloseTimer(s).(state := ESTABLISHED), f, None) else Effect(s, f, None)
    case ESTABLISHED =>
      if Ack(flags) && PayloadLen(f) > 0 then OnData(s, f)
      else
        var s1 := if Ack(flags) && PayloadLen(f) == 0 && AckOf(f) == s.sendNext then CloseTimer(s) else s;
        if Fin(flags) then OnFin(s1, f) else Effect(s1, f, None)
    case LAST_ACK =>
      var st := if Ack(flags) && AckOf(f) == s.sendNext then LISTEN else LAST_ACK;
      Effect(CloseTimer(s.(used := false, state := st)), f, None)
    case _ => Effect(s, f, None)
  }

  /** Data is echoed; the echo overwrites the flags in the buffer, so a FIN beside data is not seen again. */
  function OnData(s: Slot, f: Frame): Effect
    requires Acceptable(f)
  {
    var recv := Add32(SeqOf(f), PayloadLen(f));
    var b := EchoReply(f, s.sendNext, recv);
    var out := b[..ETH + TotalLen(f)];
    Effect(StartTimer(s.(recvNext := recv, sendNext := Add32(s.sendNext, PayloadLen(f))), out), b, Some(out))
  }

  function OnFin(s: Slot, f: Frame): Effect
    requires Acceptable(f) && Fin(Flags(f))
  {
    var recv := Add32(SeqOf(f), 1);
    var b := ControlReply(f, ACK_FIN, s.sendNext, recv);
    var out := b[..ETH + IP_HDR + TCP_HDR];
    Effect(StartTimer(s.(recvNext := recv, sendNext := Add32(s.sendNext, 1), state := LAST_ACK), out), b, Some(out))
  }

  /** The slot a segment is handled in: that of its connection, else a free one for a SYN, else none (-1). */
  function Target(t: seq<Slot>, f: Frame): (r: int)
    requires Acceptable(f)
    ensures -1 <= r < |t|
  {
    if Find(t, KeyOf(f)) >= 0 then Find(t, KeyOf(f)) else if Syn(Flags(f)) then Free(t) else -1
  }

  function Handle(t: seq<Slot>, f: Frame): Effect
    requires Acceptable(f) && Target(t, f) >= 0
  {
    if Find(t, KeyOf(f)) >= 0 then OnSegment(t[Target(t, f)], f) else OnSyn(t[Target(t, f)], f)
  }

  // ---------- tcp_timer_tick ----------

  function TickSlot(s: Slot): (Slot, Option<Frame>) {
    if !(s.timeActive && s.used) then (s, None)
    else
      var n := Add32(s.rtoCounts, 1);
      if n < s.rtoTicks then (s.(rtoCounts := n), None)
      else if s.retryCount >= MAX_RETRIES
      then (s.(rtoCounts := n, used := false, timeActive := false, state := CLOSED), None)
      else (s.(retryCount := (s.retryCount + 1) % 256, rtoCounts := 0, rtoTicks := Add32(s.rtoTicks, s.rtoTicks)),
            Some(s.pkg))
  }

  // ---------- the table as updated by the program ----------

  class Stack {
    const conn: array<Slot>

    ghost predicate Valid() { conn.Length == MAX_CONN }

    constructor ()
      ensures Valid() && fresh(conn)
      ensures forall i :: 0 <= i < MAX_CONN ==> !conn[i].used && !conn[i].timeActive
    {
      var zero := Slot(false, Key(0, 0, 0, 0), false, 0, 0, 0, CLOSED, 0, 0, []);
      conn := new Slot[MAX_CONN](_ => zero);
    }

    method FindTcp(key: Key) returns (r: int)
      requires Valid()
      ensures r == Find(conn[..], key)
    {
      var i := 0;
      while i < conn.Length
        invariant 0 <= i <= conn.Length
        invariant Find(conn[..], key) == (if Find(conn[i..], key) < 0 then -1 else Find(conn[i..], key) + i)
      {
        if conn[i].used && conn[i].key == key { return i; }
        assert conn[i..][1..] == conn[i + 1..];
        i := i + 1;
      }
      return -1;
    }

    method FreeSlot() returns (r: int)
      requires Valid()
      ensures r == Free(conn[..])
    {
      var i := 0;
      while i < conn.Length
        invariant 0 <= i <= conn.Length
        invariant Free(conn[..]) == (if Free(conn[i..]) < 0 then -1 else Free(conn[i..]) + i)
      {
        if !conn[i].used { return i; }
        assert conn[i..][1..] == conn[i + 1..];
        i := i + 1;
      }
      return -1;
    }

    method Save(i: nat, packet: array<byte>, totalLen: nat)
      requires Valid() && i < MAX_CONN && totalLen <= packet.Length
      modifies conn
      ensures conn[..] == old(conn[..])[i := StartTimer(old(conn[i]), packet[..totalLen])]
    {
      conn[i] := conn[i].(pkg := packet[..totalLen], timeActive := true);
      conn[i] := conn[i].(rtoCounts := 0, rtoTicks := INITIAL_RTO_TICKS, retryCount := 0);
    }

    method CloseTcpTimer(i: nat)
      requires Valid() && i < MAX_CONN
      modifies conn
      ensures conn[..] == old(conn[..])[i := CloseTimer(old(conn[i]))]
    {
      conn[i] := conn[i].(timeActive := false, rtoCounts := 0, retryCount := 0);
    }

    method SynReceived(i: nat, buf: array<byte>) returns (out: Option<Frame>)
      requires Valid() && i < MAX_CONN && Acceptable(buf[..]) && Syn(Flags(buf[..]))
      modifies conn, buf
      ensures var e := OnSyn(old(conn[i]), old(buf[..]));
        conn[..] == old(conn[..])[i := e.slot] && buf[..] == e.buf && out == e.out
    {
      hide ControlReply, KeyOf, SeqOf;
      var f := buf[..];
      conn[i] := conn[i].(used := true, key := KeyOf(f), state := SYN_RCVD);
      conn[i] := conn[i].(recvNext := Add32(SeqOf(f), 1), sendNext := ISS);
      var written := ControlInPlace(buf, SYN_ACK, conn[i].sendNext, conn[i].recvNext);
      conn[i] := conn[i].(sendNext := Add32(conn[i].sendNext, 1));
      conn[i] := conn[i].(state := SYN_RCVD);
      Save(i, buf, ETH + IP_HDR + TCP_HDR);
      out := Some(written);
    }

    method FinReceived(i: nat, buf: array<byte>) returns (out: Option<Frame>)
      requires Valid() && i < MAX_CONN && Acceptable(buf[..]) && Fin(Flags(buf[..]))
      modifies conn, buf
      ensures var e := OnFin(old(conn[i]), old(buf[..]));
        conn[..] == old(conn[..])[i := e.slot] && buf[..] == e.buf && out == e.out
    {
      hide ControlReply, SeqOf;
      var f := buf[..];
      conn[i] := conn[i].(recvNext := Add32(SeqOf(f), 1));
      var written := ControlInPlace(buf, ACK_FIN, conn[i].sendNext, conn[i].recvNext);
      conn[i] := conn[i].(sendNext := Add32(conn[i].sendNext, 1));
      conn[i] := conn[i].(state := LAST_ACK);
      Save(i, buf, ETH + IP_HDR + TCP_HDR);
      out := Some(written);
    }

    /** The data branch; afterwards the flags in the buffer are those of the echo. */
    method DataReceived(i: nat, buf: array<byte>) returns (out: Option<Frame>)
      requires Valid() && i < MAX_CONN && Acceptable(buf[..]) && PayloadLen(buf[..]) > 0
      modifies conn, buf
      ensures var e := OnData(old(conn[i]), old(buf[..]));
        conn[..] == old(conn[..])[i := e.slot] && buf[..] == e.buf && out == e.out
      ensures buf[Tcp(old(buf[..])) + 13] == ACK_PSH
    {
      hide EchoReply, SeqOf;
      var f := buf[..];
      var payloadLen := PayloadLen(f);
      conn[i] := conn[i].(recvNext := Add32(SeqOf(f), payloadLen));
      var written := EchoInPlace(buf, conn[i].sendNext, conn[i].recvNext);
      conn[i] := conn[i].(sendNext := Add32(conn[i].sendNext, payloadLen));
      Save(i, buf, ETH + TotalLen(f));
      out := Some(written);
    }

    /** The ESTABLISHED case: three tests in a row, each reading the flags from the buffer again. */
    method Established(i: nat, buf: array<byte>) returns (out: Option<Frame>)
      requires Valid() && i < MAX_CONN && Acceptable(buf[..]) && conn[i].state == ESTABLISHED
      modifies conn, buf
      ensures var e := OnSegment(old(conn[i]), old(buf[..]));
        conn[..] == old(conn[..])[i := e.slot] && buf[..] == e.buf && out == e.out
    {
      hide OnData, OnFin, AckOf;
      var f := buf[..];
      var tcp, payloadLen, incomingAck := Tcp(f), PayloadLen(f), AckOf(f);
      out := None;
      if Ack(buf[tcp + 13]) && payloadLen > 0 {
        out := DataReceived(i, buf);
      }
      if Ack(buf[tcp + 13]) && payloadLen == 0 && incomingAck == conn[i].sendNext {
        CloseTcpTimer(i);
      }
      if Fin(buf[tcp + 13]) {
        out := FinReceived(i, buf);
      }
    }

    method HandleTcp(buf: array<byte>) returns (out: Option<Frame>)
      requires Valid() && Acceptable(buf[..])
      requires Find(conn[..], KeyOf(buf[..])) < 0 && Syn(Flags(buf[..])) ==> Free(conn[..]) >= 0
      modifies conn, buf
      ensures var i := Target(old(conn[..]), old(buf[..]));
        if i < 0 then conn[..] == old(conn[..]) && buf[..] == old(buf[..]) && out == None
        else var e := Handle(old(conn[..]), old(buf[..]));
          conn[..] == old(conn[..])[i := e.slot] && buf[..] == e.buf && out == e.out
    {
      var f := buf[..];
      var i := FindTcp(KeyOf(f));
      if i < 0 && Syn(Flags(f)) {
        i := FreeSlot();
        out := SynReceived(i, buf);
        return;
      }
      if i < 0 { return None; }
      out := None;
      match conn[i].state
      case SYN_RCVD =>
        if Ack(Flags(f)) && AckOf(f) == conn[i].sendNext {
          CloseTcpTimer(i);
          conn[i] := conn[i].(state := ESTABLISHED);
        }
      case ESTABLISHED =>
        out := Established(i, buf);
      case LAST_ACK =>
        if Ack(Flags(f)) && AckOf(f) == conn[i].sendNext {
          conn[i] := conn[i].(state := LISTEN);
        }
        conn[i] := conn[i].(used := false);
        CloseTcpTimer(i);
      case _ =>
    }

    /** tcp_timer_tick; `resent[i]` is what slot `i` wrote. */
    method TimerTick() returns (resent: seq<Option<Frame>>)
      requires Valid()
      modifies conn
      ensures |resent| == MAX_CONN
      ensures forall i :: 0 <= i < MAX_CONN ==> (conn[i], resent[i]) == TickSlot(old(conn[i]))
    {
      resent := [];
      var i := 0;
      while i < MAX_CONN
        invariant 0 <= i <= MAX_CONN && |resent| == i
        invariant forall k :: 0 <= k < i ==> (conn[k], resent[k]) == TickSlot(old(conn[k]))
        invariant forall k :: i <= k < MAX_CONN ==> conn[k] == old(conn[k])
      {
        var out: Option<Frame> := None;
        if conn[i].timeActive && conn[i].used {
          conn[i] := conn[i].(rtoCounts := Add32(conn[i].rtoCounts, 1));
          if conn[i].rtoCounts >= conn[i].rtoTicks {
            if conn[i].retryCount >= MAX_RETRIES {
              conn[i] := conn[i].(used := false, timeActive := false, state := CLOSED);
            } else {
              out := Some(conn[i].pkg);
              conn[i] := conn[i].(retryCount := (conn[i].retryCount + 1) % 256, rtoCounts := 0,
                                  rtoTicks := Add32(conn[i].rtoTicks, conn[i].rtoTicks));
            }
          }
        }
        resent, i := resent + [out], i + 1;
      }
    }
  }

  // ---------- what is observed of a connection ----------

  /**
   History of a slot's current connection: the frames first sent for it, in order, and the
   acknowledgement numbers received since the last of them.
  */
  datatype Hist = Hist(sent: seq<Frame>, acks: set<uint32>)

  datatype System = System(t: seq<Slot>, h: seq<Hist>)

  function Observe(h: Hist, f: Frame, e: Effect, opening: bool): Hist
    requires Acceptable(f)
  {
    if opening then Hist(if e.out.Some? then [e.out.value] else [], {})
    else if e.out.Some? then Hist(h.sent + [e.out.value], {})
    else if Ack(Flags(f)) then h.(acks := h.acks + {AckOf(f)})
    else h
  }

  ghost predicate Sized(y: System) {
    |y.t| == |y.h| == MAX_CONN
  }

  /** A frame arrives; a SYN from a new peer needs a free slot. */
  ghost predicate SegmentStep(y: System, y': System, f: Frame)
    requires Sized(y)
  {
    && Acceptable(f)
    && (Find(y.t, KeyOf(f)) < 0 && Syn(Flags(f)) ==> Free(y.t) >= 0)
    && var i := Target(y.t, f);
       if i < 0 then y' == y
       else var e := Handle(y.t, f);
         y' == System(y.t[i := e.slot], y.h[i := Observe(y.h[i], f, e, Find(y.t, KeyOf(f)) < 0)])
  }

  ghost predicate TickStep(y: System, y': System)
    requires Sized(y)
  {
    Sized(y') && y'.h == y.h && forall i :: 0 <= i < MAX_CONN ==> y'.t[i] == TickSlot(y.t[i]).0
  }

  ghost predicate Initial(y: System) {
    Sized(y) && forall i :: 0 <= i < MAX_CONN ==> !y.t[i].used && !y.t[i].timeActive
  }

  ghost predicate Next(y: System, y': System) {
    Sized(y) && (TickStep(y, y') || exists f: Frame :: SegmentStep(y, y', f))
  }

  ghost predicate IsRun(run: seq<System>) {
    && |run| > 0 && Initial(run[0])
    && forall i :: 0 <= i < |run| - 1 ==> Next(run[i], run[i + 1])
  }

  // ---------- the invariant ----------

  /** What a receiver reads from a frame; `ok` if it fits the save buffer and both checksums verify. */
  datatype View = View(ok: bool, sq: uint32, flags: byte, payload: seq<byte>)
  {
    /** The sequence space occupied: the payload, one for SYN, one for FIN. */
    function Len(): nat { |payload| + (if Syn(flags) then 1 else 0) + (if Fin(flags) then 1 else 0) }
  }

  ghost function ViewOf(f: Frame): View {
    if Verifies(f) && |f| <= MAX_SAVED then View(true, SeqOf(f), Flags(f), Payload(f)) else View(false, 0, 0, [])
  }

  /** The payload bytes sent so far. */
  ghost function EchoedBytes(fs: seq<Frame>): nat {
    if fs == [] then 0 else EchoedBytes(fs[..|fs| - 1]) + |ViewOf(fs[|fs| - 1]).payload|
  }

  /** Each frame starts in sequence space where the one before it ends; `next` is where the last one ends. */
  ghost predicate Tiles(fs: seq<Frame>, next: uint32) {
    && fs != [] && (forall k {:trigger fs[k]} :: 0 <= k < |fs| ==> ViewOf(fs[k]).ok)
    && ViewOf(fs[0]).sq == ISS
    && (forall k :: 0 <= k < |fs| - 1 ==> ViewOf(fs[k + 1]).sq == Add32(ViewOf(fs[k]).sq, ViewOf(fs[k]).Len()))
    && next == Add32(ViewOf(fs[|fs| - 1]).sq, ViewOf(fs[|fs| - 1]).Len())
  }

  /** A SYN+ACK, then echoes of data, then a FIN+ACK once the connection is closing. */
  ghost predicate Shape(fs: seq<Frame>, st: TcpState) {
    && fs != [] && ViewOf(fs[0]).flags == SYN_ACK && ViewOf(fs[0]).payload == []
    && (st == SYN_RCVD ==> |fs| == 1)
    && (st == LAST_ACK ==>
          |fs| > 1 && ViewOf(fs[|fs| - 1]).flags == ACK_FIN && ViewOf(fs[|fs| - 1]).payload == [])
    && forall k {:trigger fs[k]} :: 1 <= k < |fs| && !(st == LAST_ACK && k == |fs| - 1) ==>
         ViewOf(fs[k]).flags == ACK_PSH && ViewOf(fs[k]).payload != []
  }

  ghost predicate TimerOk(s: Slot, acks: set<uint32>) {
    if s.timeActive
    then
      && s.retryCount <= MAX_RETRIES && s.rtoTicks == INITIAL_RTO_TICKS * Pow2(s.retryCount)
      && s.rtoCounts < s.rtoTicks && s.sendNext !in acks
    else s.state == ESTABLISHED && s.sendNext in acks
  }

  ghost predicate SlotInv(s: Slot, h: Hist) {
    if !s.used then !s.timeActive
    else
      && (s.state == SYN_RCVD || s.state == ESTABLISHED || s.state == LAST_ACK)
      && Tiles(h.sent, s.sendNext) && Shape(h.sent, s.state)
      && s.sendNext == Add32(ISS, 1 + EchoedBytes(h.sent) + (if s.state == LAST_ACK then 1 else 0))
      && s.pkg == h.sent[|h.sent| - 1]
      && TimerOk(s, h.acks)
      && (s.state == ESTABLISHED && |h.sent| == 1 ==> s.sendNext in h.acks)
  }

  ghost predicate Inv(y: System) {
    && Sized(y)
    && (forall i :: 0 <= i < MAX_CONN ==> SlotInv(y.t[i], y.h[i]))
    && (forall i, j :: 0 <= i < j < MAX_CONN && y.t[i].used && y.t[j].used ==> y.t[i].key != y.t[j].key)
  }

  lemma AddAdd(x: uint32, a: int, b: int)
    ensures Add32(Add32(x, a), b) == Add32(x, a + b)
  {
  }

  lemma ViewOfSaid(r: Frame, sq: uint32, ack: uint32, flags: byte, payload: seq<byte>)
    requires Says(r, sq, ack, flags, payload)
    ensures ViewOf(r) == View(true, sq, flags, payload)
  {
  }

  /** Sending one more frame from where the last one ended. */
  lemma TilesSnoc(fs: seq<Frame>, next: uint32, r: Frame)
    requires Tiles(fs, next) && ViewOf(r).ok && ViewOf(r).sq == next
    ensures Tiles(fs + [r], Add32(next, ViewOf(r).Len()))
    ensures EchoedBytes(fs + [r]) == EchoedBytes(fs) + |ViewOf(r).payload|
  {
    hide ViewOf, View.Len, Add32;
    var gs := fs + [r];
    assert gs[..|fs|] == fs;
    forall k | 0 <= k < |gs| - 1 ensures ViewOf(gs[k + 1]).sq == Add32(ViewOf(gs[k]).sq, ViewOf(gs[k]).Len()) {
      if k < |fs| - 1 { assert gs[k + 1] == fs[k + 1]; }
    }
  }

  lemma ShapeSnoc(fs: seq<Frame>, r: Frame)
    requires Shape(fs, ESTABLISHED)
    ensures ViewOf(r).flags == ACK_PSH && ViewOf(r).payload != [] ==> Shape(fs + [r], ESTABLISHED)
    ensures ViewOf(r).flags == ACK_FIN && ViewOf(r).payload == [] ==> Shape(fs + [r], LAST_ACK)
  {
    hide ViewOf;
    var gs := fs + [r];
    assert forall k {:trigger gs[k]} :: 0 <= k < |fs| ==> gs[k] == fs[k];
  }

  lemma SentShape(fs: seq<Frame>, st: TcpState)
    requires Shape(fs, st)
    ensures fs != [] && ViewOf(fs[0]).payload == [] && (st == SYN_RCVD ==> |fs| == 1) && (st == LAST_ACK ==> |fs| > 1)
  {
  }

  lemma SynKeepsInv(s: Slot, h: Hist, f: Frame)
    requires Acceptable(f) && Syn(Flags(f)) && !s.used
    ensures SlotInv(OnSyn(s, f).slot, Observe(h, f, OnSyn(s, f), true))
  {
    hide ControlReply, ViewOf;
    var recv := Add32(SeqOf(f), 1);
    ControlSays(f, SYN_ACK, ISS, recv);
    var r := OnSyn(s, f).out.value;
    ViewOfSaid(r, ISS, recv, SYN_ACK, []);
    var fs: seq<Frame> := [r];
    assert EchoedBytes(fs[..0]) == 0;
    assert EchoedBytes(fs) == 0;
  }

  lemma DataKeepsInv(s: Slot, h: Hist, f: Frame)
    requires SlotInv(s, h) && s.used && s.state == ESTABLISHED && Acceptable(f) && PayloadLen(f) > 0
    ensures SlotInv(OnData(s, f).slot, Observe(h, f, OnData(s, f), false))
  {
    hide EchoReply, ViewOf, Tiles, Shape, Says, EchoedBytes;
    var recv := Add32(SeqOf(f), PayloadLen(f));
    EchoSays(f, s.sendNext, recv);
    var r := OnData(s, f).out.value;
    ViewOfSaid(r, s.sendNext, recv, ACK_PSH, Payload(f));
    TilesSnoc(h.sent, s.sendNext, r);
    ShapeSnoc(h.sent, r);
    SentShape(h.sent, s.state);
    AddAdd(ISS, 1 + EchoedBytes(h.sent), PayloadLen(f));
  }

  lemma FinKeepsInv(s: Slot, h: Hist, f: Frame)
    requires s.used && s.state == ESTABLISHED && Acceptable(f) && Fin(Flags(f))
    requires Tiles(h.sent, s.sendNext) && Shape(h.sent, s.state)
    requires s.sendNext == Add32(ISS, 1 + EchoedBytes(h.sent))
    ensures SlotInv(OnFin(s, f).slot, Observe(h, f, OnFin(s, f), false))
  {
    hide ControlReply, ViewOf, Tiles, Shape, Says, EchoedBytes;
    var recv := Add32(SeqOf(f), 1);
    ControlSays(f, ACK_FIN, s.sendNext, recv);
    var r := OnFin(s, f).out.value;
    ViewOfSaid(r, s.sendNext, recv, ACK_FIN, []);
    TilesSnoc(h.sent, s.sendNext, r);
    ShapeSnoc(h.sent, r);
    AddAdd(ISS, 1 + EchoedBytes(h.sent), 1);
  }

  lemma ShapeOpens(fs: seq<Frame>)
    requires Shape(fs, SYN_RCVD)
    ensures Shape(fs, ESTABLISHED)
  {
  }

  lemma SegmentKeepsInv(s: Slot, h: Hist, f: Frame)
    requires SlotInv(s, h) && s.used && Acceptable(f)
    ensures SlotInv(OnSegment(s, f).slot, Observe(h, f, OnSegment(s, f), false))
  {
    hide OnData, OnFin, Tiles, Shape, EchoedBytes, AckOf, ControlReply;
    if s.state == SYN_RCVD {
      ShapeOpens(h.sent);
    } else if s.state == ESTABLISHED {
      if Ack(Flags(f)) && PayloadLen(f) > 0 {
        DataKeepsInv(s, h, f);
      } else if Fin(Flags(f)) {
        var closing := Ack(Flags(f)) && PayloadLen(f) == 0 && AckOf(f) == s.sendNext;
        FinKeepsInv(if closing then CloseTimer(s) else s, h, f);
      }
    }
  }

  lemma TickKeepsInv(s: Slot, h: Hist)
    requires SlotInv(s, h)
    ensures SlotInv(TickSlot(s).0, h)
  {
    hide Tiles, Shape, EchoedBytes;
    if s.used && s.timeActive {
      PowBound(s.retryCount);
      assert Pow2(s.retryCount + 1) == 2 * Pow2(s.retryCount);
      hide Pow2;
    }
  }

  lemma {:induction false} PowBound(n: nat)
    requires n <= 5
    ensures Pow2(n) <= 32
    decreases 5 - n
  {
    if n < 5 { PowBound(n + 1); }
  }

  // ---------- lifting to the table and to runs ----------

  lemma SegmentStepKeepsInv(y: System, y': System, f: Frame)
    requires Inv(y) && SegmentStep(y, y', f)
    ensures Inv(y')
  {
    hide SlotInv, OnSyn, OnSegment;
    var i := Target(y.t, f);
    if i >= 0 {
      var e := Handle(y.t, f);
      assert SlotInv(y.t[i], y.h[i]);
      if Find(y.t, KeyOf(f)) >= 0 {
        SegmentKeepsInv(y.t[i], y.h[i], f);
        SegmentKeepsKey(y.t[i], f);
      } else {
        SynKeepsInv(y.t[i], y.h[i], f);
        SynSetsKey(y.t[i], f);
      }
    }
  }

  lemma SegmentKeepsKey(s: Slot, f: Frame)
    requires Acceptable(f) && s.used
    ensures OnSegment(s, f).slot.key == s.key
  {
  }

  lemma SynSetsKey(s: Slot, f: Frame)
    requires Acceptable(f) && Syn(Flags(f))
    ensures OnSyn(s, f).slot.key == KeyOf(f)
  {
  }

  lemma TickStepKeepsInv(y: System, y': System)
    requires Inv(y) && TickStep(y, y')
    ensures Inv(y')
  {
    hide SlotInv;
    forall i | 0 <= i < MAX_CONN
      ensures SlotInv(y'.t[i], y'.h[i]) && y'.t[i].key == y.t[i].key && (y'.t[i].used ==> y.t[i].used)
    {
      TickKeepsInv(y.t[i], y.h[i]);
    }
  }

  lemma {:induction false} RunKeepsInv(run: seq<System>)
    requires IsRun(run)
    ensures Inv(run[|run| - 1])
  {
    hide SlotInv, SegmentStep, TickStep;
    if |run| == 1 {
      InitialInv(run[0]);
    } else {
      var prefix := run[..|run| - 1];
      RunKeepsInv(prefix);
      NextKeepsInv(prefix[|prefix| - 1], run[|run| - 1]);
    }
  }

  lemma InitialInv(y: System)
    requires Initial(y)
    ensures Inv(y)
  {
  }

  lemma NextKeepsInv(y: System, y': System)
    requires Inv(y) && Next(y, y')
    ensures Inv(y')
  {
    hide Inv, SegmentStep, TickStep;
    if TickStep(y, y') {
      TickStepKeepsInv(y, y');
    } else {
      var f: Frame :| SegmentStep(y, y', f);
      SegmentStepKeepsInv(y, y', f);
    }
  }

  // ---------- main results ----------

  /**
   Sequence space: in every reachable state the fresh segments of a used slot start at 5658 and
   follow one another without gap or overlap modulo 2^32, all verify, and `send_next` is 5659
   plus the bytes echoed, plus one once the FIN+ACK is out.
  */
  lemma SequenceSpaceTiled(run: seq<System>, i: nat)
    requires IsRun(run) && i < MAX_CONN
    ensures var y := run[|run| - 1];
      && Sized(y)
      && var s, h := y.t[i], y.h[i];
         s.used ==>
           && Tiles(h.sent, s.sendNext) && Shape(h.sent, s.state)
           && s.sendNext == (5659 + EchoedBytes(h.sent) + (if s.state == LAST_ACK then 1 else 0)) % 0x1_0000_0000
  {
    hide Tiles, Shape, EchoedBytes;
    RunKeepsInv(run);
    assert SlotInv(run[|run| - 1].t[i], run[|run| - 1].h[i]);
  }

  /**
   A retransmission is byte for byte the connection's latest fresh segment, verifies, and is sent
   only as long as that segment has not been acknowledged in full.
  */
  lemma RetransmitsLatestSegment(run: seq<System>, i: nat)
    requires IsRun(run) && i < MAX_CONN
    ensures var y := run[|run| - 1];
      && Sized(y)
      && var s, h := y.t[i], y.h[i];
         TickSlot(s).1.Some? ==>
           && h.sent != [] && TickSlot(s).1.value == h.sent[|h.sent| - 1] && Verifies(h.sent[|h.sent| - 1])
           && s.sendNext !in h.acks
  {
    hide Shape, EchoedBytes, Verifies;
    RunKeepsInv(run);
    var s, h := run[|run| - 1].t[i], run[|run| - 1].h[i];
    assert SlotInv(s, h);
    if s.used { assert ViewOf(h.sent[|h.sent| - 1]).ok; }
  }

  /**
   The table: used slots have distinct 4-tuples and one of three states, an unused slot has no
   active timer, and a used slot has one exactly until an acknowledgement of `send_next` has come
   in since its latest segment, which happens only while it stays ESTABLISHED.
  */
  lemma TableConsistent(run: seq<System>, i: nat)
    requires IsRun(run) && i < MAX_CONN
    ensures var y := run[|run| - 1];
      && Sized(y)
      && var s, h := y.t[i], y.h[i];
         && (s.used ==> s.state == SYN_RCVD || s.state == ESTABLISHED || s.state == LAST_ACK)
         && (!s.used ==> !s.timeActive)
         && (s.used ==> (s.timeActive <==> s.sendNext !in h.acks))
         && (s.used && !s.timeActive ==> s.state == ESTABLISHED)
         && (forall j :: 0 <= j < MAX_CONN && j != i && s.used && y.t[j].used ==> y.t[j].key != s.key)
  {
    hide Tiles, Shape, EchoedBytes;
    RunKeepsInv(run);
    assert SlotInv(run[|run| - 1].t[i], run[|run| - 1].h[i]);
  }

  /**
   What ESTABLISHED means: a connection leaves SYN_RCVD exactly when its SYN+ACK, number 5658, has been acknowledged
   with 5659. Until then nothing but the SYN+ACK is sent.
  */
  lemma EstablishedByHandshake(run: seq<System>, i: nat)
    requires IsRun(run) && i < MAX_CONN
    ensures var y := run[|run| - 1];
      && Sized(y)
      && var s, h := y.t[i], y.h[i];
         && (s.used ==> (s.state == SYN_RCVD <==> |h.sent| == 1 && 5659 !in h.acks))
         && (s.used && s.state == ESTABLISHED && |h.sent| == 1 ==> 5659 in h.acks && !s.timeActive)
  {
    hide Shape;
    RunKeepsInv(run);
    var s, h := run[|run| - 1].t[i], run[|run| - 1].h[i];
    assert SlotInv(s, h);
    if s.used {
      SentShape(h.sent, s.state);
      if |h.sent| == 1 {
        assert h.sent[..0] == [] && EchoedBytes(h.sent[..0]) == 0;
        hide EchoedBytes, Tiles;
      }
    }
  }

  /** What a step can do to the frames sent for a connection that is in use after it. */
  lemma SentGrows(y: System, y': System, i: nat)
    requires Inv(y) && Next(y, y') && Inv(y') && i < MAX_CONN && y'.t[i].used && |y'.h[i].sent| > 1
    ensures y.t[i].used && y.h[i].sent <= y'.h[i].sent && y.h[i].sent != []
    ensures |y.h[i].sent| == 1 ==> y.t[i].state == ESTABLISHED
  {
    hide Tiles, Shape, EchoedBytes, TimerOk, ControlReply, EchoReply, ViewOf, OnData, OnFin;
    if f: Frame :| SegmentStep(y, y', f) {
      var j := Target(y.t, f);
      if j == i && Find(y.t, KeyOf(f)) < 0 {
        SynSendsOnce(y.t[i], y.h[i], f);
      }
    }
    assert SlotInv(y.t[i], y.h[i]) && SlotInv(y'.t[i], y'.h[i]);
    SentShape(y.h[i].sent, y.t[i].state);
    SentShape(y'.h[i].sent, y'.t[i].state);
  }

  lemma SynSendsOnce(s: Slot, h: Hist, f: Frame)
    requires Acceptable(f) && Syn(Flags(f))
    ensures |Observe(h, f, OnSyn(s, f), true).sent| == 1
  {
    hide ControlReply;
  }

  /** No echo and no FIN+ACK before the handshake: an earlier state had just the SYN+ACK, acknowledged. */
  lemma {:induction false} HandshakeFirst(run: seq<System>, i: nat) returns (m: nat)
    requires IsRun(run) && i < MAX_CONN
    requires Sized(run[|run| - 1]) && run[|run| - 1].t[i].used && |run[|run| - 1].h[i].sent| > 1
    ensures m < |run| && Sized(run[m]) && run[m].t[i].used
    ensures run[m].h[i].sent == run[|run| - 1].h[i].sent[..1] && 5659 in run[m].h[i].acks
  {
    hide Inv, Next, SlotInv;
    RunKeepsInv(run);
    var n := |run| - 1;
    if n == 0 { NothingInitially(run[0], i); }
    var before := run[..n];
    RunKeepsInv(before);
    assert Next(before[n - 1], run[n]);
    SentGrows(run[n - 1], run[n], i);
    EstablishedByHandshake(before, i);
    if |run[n - 1].h[i].sent| == 1 {
      m := n - 1;
    } else {
      m := HandshakeFirst(before, i);
      assert run[n - 1].h[i].sent[..1] == run[n].h[i].sent[..1];
    }
  }

  lemma NothingInitially(y: System, i: nat)
    requires Initial(y) && i < MAX_CONN
    ensures !y.t[i].used
  {
  }

  /** While it is active, the timer backs off by doubling and never runs past its limit. */
  lemma TimerBacksOff(run: seq<System>, i: nat)
    requires IsRun(run) && i < MAX_CONN
    ensures var y := run[|run| - 1];
      && Sized(y)
      && (y.t[i].timeActive ==> y.t[i].retryCount <= 5 && y.t[i].rtoTicks == 100 * Pow2(y.t[i].retryCount)
                                && y.t[i].rtoCounts < y.t[i].rtoTicks)
  {
    hide Tiles, Shape, EchoedBytes;
    RunKeepsInv(run);
    assert SlotInv(run[|run| - 1].t[i], run[|run| - 1].h[i]);
  }

  // ---------- whose segments they are ----------

  lemma BytesOf32(f: Frame, g: Frame, i: nat, j: nat)
    requires i + 4 <= |f| && j + 4 <= |g|
    ensures Get32(f, i) == Get32(g, j) <==> f[i..i + 4] == g[j..j + 4]
  {
    BytesOf16(f, g, i, j);
    BytesOf16(f, g, i + 2, j + 2);
    assert f[i..i + 4] == f[i..i + 2] + f[i + 2..i + 4] && g[j..j + 4] == g[j..j + 2] + g[j + 2..j + 4];
    hide Get16;
    if f[i..i + 4] == g[j..j + 4] {
      assert f[i..i + 2] == f[i..i + 4][..2] && g[j..j + 2] == g[j..j + 4][..2];
      assert f[i + 2..i + 4] == f[i..i + 4][2..] && g[j + 2..j + 4] == g[j..j + 4][2..];
    }
  }

  lemma BytesOf16(f: Frame, g: Frame, i: nat, j: nat)
    requires i + 2 <= |f| && j + 2 <= |g|
    ensures Get16(f, i) == Get16(g, j) <==> f[i..i + 2] == g[j..j + 2]
  {
    assert f[i..i + 2] == [f[i], f[i + 1]] && g[j..j + 2] == [g[j], g[j + 1]];
  }

  /** Two segments belong to the same connection exactly when both addresses and both ports agree. */
  lemma SameConnectionIff(f: Frame, g: Frame)
    requires WellFormed(f) && WellFormed(g)
    ensures KeyOf(f) == KeyOf(g) <==>
      f[26..30] == g[26..30] && f[30..34] == g[30..34]
      && f[Tcp(f)..Tcp(f) + 2] == g[Tcp(g)..Tcp(g) + 2] && f[Tcp(f) + 2..Tcp(f) + 4] == g[Tcp(g) + 2..Tcp(g) + 4]
  {
    BytesOf32(f, g, 26, 26);
    BytesOf32(f, g, 30, 30);
    BytesOf16(f, g, Tcp(f), Tcp(g));
    BytesOf16(f, g, Tcp(f) + 2, Tcp(g) + 2);
    hide Get16, Get32;
  }

  /**
   What is answered: a SYN from a new peer, data that comes with an ACK on an established connection, and a FIN on one.
   Whatever else arrives there, data without ACK included, is not answered and can at most stop the timer.
  */
  lemma AnsweredIff(t: seq<Slot>, f: Frame)
    requires Acceptable(f) && Target(t, f) >= 0
    ensures var s, e := t[Target(t, f)], Handle(t, f);
      && (e.out.Some? <==> Find(t, KeyOf(f)) < 0
                           || (s.state == ESTABLISHED && (Fin(Flags(f)) || (Ack(Flags(f)) && PayloadLen(f) > 0))))
      && (e.out.None? && s.state == ESTABLISHED ==>
            e.slot == s || (Ack(Flags(f)) && AckOf(f) == s.sendNext && e.slot == CloseTimer(s)))
      && (e.out.None? ==> e.buf == f)
  {
    hide ControlReply, EchoReply;
  }

  /** Whatever is written in answer to a segment goes back to its sender, on the same connection. */
  lemma AnswerReturns(t: seq<Slot>, f: Frame)
    requires Acceptable(f) && Target(t, f) >= 0 && Handle(t, f).out.Some?
    ensures var r, k := Handle(t, f).out.value, KeyOf(f);
      Returns(r, f) && KeyOf(r) == Key(k.daddr, k.saddr, k.dport, k.sport)
  {
    hide Get16, Get32, Returns, EchoReply, ControlReply, Find, Free;
    var i := Target(t, f);
    var sq := t[i].sendNext;
    var r := Handle(t, f).out.value;
    if Find(t, KeyOf(f)) < 0 {
      ControlReturns(f, SYN_ACK, ISS, Add32(SeqOf(f), 1));
    } else if Ack(Flags(f)) && PayloadLen(f) > 0 {
      EchoReturns(f, sq, Add32(SeqOf(f), PayloadLen(f)));
    } else {
      ControlReturns(f, ACK_FIN, sq, Add32(SeqOf(f), 1));
    }
    KeyReturns(r, f);
  }

  lemma KeyReturns(r: Frame, f: Frame)
    requires Returns(r, f)
    ensures KeyOf(r) == Key(KeyOf(f).daddr, KeyOf(f).saddr, KeyOf(f).dport, KeyOf(f).sport)
  {
    BytesOf32(r, f, 26, 30);
    BytesOf32(r, f, 30, 26);
    BytesOf16(r, f, Tcp(f), Tcp(f) + 2);
    BytesOf16(r, f, Tcp(f) + 2, Tcp(f));
    hide Get16, Get32;
  }

  // ---------- the retransmission schedule ----------

  /** The slot after `n` ticks without a segment for it. */
  function Ticks(s: Slot, n: nat): Slot {
    if n == 0 then s else TickSlot(Ticks(s, n - 1)).0
  }

  lemma {:induction false} TicksAdd(s: Slot, m: nat, n: nat)
    ensures Ticks(s, m + n) == Ticks(Ticks(s, m), n)
  {
    if n > 0 { TicksAdd(s, m, n - 1); }
  }

  lemma TickCounts(s: Slot)
    requires s.used && s.timeActive && s.rtoCounts + 1 < s.rtoTicks
    ensures TickSlot(s) == (s.(rtoCounts := s.rtoCounts + 1), None)
  {
  }

  lemma TickExpires(s: Slot)
    requires s.used && s.timeActive && s.rtoCounts + 1 == s.rtoTicks <= 3200 && s.retryCount <= 5
    ensures s.retryCount < 5 ==>
      TickSlot(s) == (s.(retryCount := s.retryCount + 1, rtoCounts := 0, rtoTicks := 2 * s.rtoTicks), Some(s.pkg))
    ensures s.retryCount == 5 ==> TickSlot(s).1.None? && !TickSlot(s).0.used && !TickSlot(s).0.timeActive
  {
  }

  /** Below the timeout a tick only counts. */
  lemma {:induction false} Counting(s: Slot, n: nat)
    requires s.used && s.timeActive && s.rtoCounts + n < s.rtoTicks
    ensures Ticks(s, n) == s.(rtoCounts := s.rtoCounts + n)
  {
    hide TickSlot;
    if n > 0 {
      Counting(s, n - 1);
      TickCounts(Ticks(s, n - 1));
    }
  }

  /** The slot as it is right after the `r`-th timeout. */
  function Phase(s: Slot, r: nat): Slot
    requires r <= 5
  {
    PowBound(r);
    s.(retryCount := r, rtoCounts := 0, rtoTicks := 100 * Pow2(r))
  }

  /** The tick at which phase `r` begins: 100 * (2^r - 1). */
  function PhaseStart(r: nat): nat { 100 * (Pow2(r) - 1) }

  /** Phase `r` lasts 100 * 2^r ticks, silent but for the last, which resends and doubles, or gives up. */
  lemma OnePhase(s: Slot, r: nat, n: nat)
    requires s.used && s.timeActive && r <= 5 && 1 <= n <= 100 * Pow2(r)
    ensures var p, q := Phase(s, r), TickSlot(Ticks(Phase(s, r), n - 1));
      && (n < 100 * Pow2(r) ==> q.1.None? && q.0.used)
      && (n == 100 * Pow2(r) && r < 5 ==> q == (Phase(s, r + 1), Some(s.pkg)))
      && (n == 100 * Pow2(r) && r == 5 ==> q.1.None? && !q.0.used && !q.0.timeActive)
  {
    var p, t: nat := Phase(s, r), 100 * Pow2(r);
    PowBound(r);
    assert p.rtoTicks == t <= 3200;
    if r < 5 { assert Pow2(r + 1) == 2 * Pow2(r); }
    hide Pow2, Ticks, TickSlot;
    Counting(p, n - 1);
    if n < t { TickCounts(Ticks(p, n - 1)); } else { TickExpires(Ticks(p, n - 1)); }
  }

  lemma WholePhase(s: Slot, r: nat)
    requires s.used && s.timeActive && r < 5
    ensures Ticks(Phase(s, r), 100 * Pow2(r)) == Phase(s, r + 1)
  {
    OnePhase(s, r, 100 * Pow2(r));
  }

  lemma {:induction false} ReachPhase(s: Slot, r: nat)
    requires s.used && s.timeActive && r <= 5
    ensures Ticks(Phase(s, 0), PhaseStart(r)) == Phase(s, r)
  {
    hide Ticks, TickSlot, Phase;
    if r == 0 {
      TicksNone(Phase(s, 0));
    } else {
      ReachPhase(s, r - 1);
      WholePhase(s, r - 1);
      TicksAdd(Phase(s, 0), PhaseStart(r - 1), 100 * Pow2(r - 1));
      assert PhaseStart(r) == PhaseStart(r - 1) + 100 * Pow2(r - 1);
    }
  }

  lemma TicksNone(s: Slot)
    ensures Ticks(s, 0) == s
  {
  }

  /**
   Left alone, a freshly started connection resends exactly at ticks 100, 300, 700, 1500 and
   3100, and is freed exactly at tick 6300.
  */
  lemma RetransmissionSchedule(s: Slot, pkg: Frame, n: nat)
    requires s.used && 1 <= n <= 6300
    ensures var before := Ticks(StartTimer(s, pkg), n - 1);
      && (TickSlot(before).1.Some? <==> n == 100 || n == 300 || n == 700 || n == 1500 || n == 3100)
      && (TickSlot(before).1.Some? ==> TickSlot(before).1.value == pkg)
      && (TickSlot(before).0.used <==> n < 6300)
  {
    var t := StartTimer(s, pkg);
    assert t == Phase(t, 0);
    assert Pow2(5) == 2 * Pow2(4) && Pow2(4) == 2 * Pow2(3) && Pow2(3) == 8;
    var r := if n <= 100 then 0 else if n <= 300 then 1 else if n <= 700 then 2 else if n <= 1500 then 3
             else if n <= 3100 then 4 else 5;
    ReachPhase(t, r);
    var k := n - PhaseStart(r);
    TicksAdd(t, PhaseStart(r), k - 1);
    OnePhase(t, r, k);
  }
}
