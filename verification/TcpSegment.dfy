/**
 The segments that 04_protocolstack_underlying_c/second_version/src/tcp.c sends: a received
 frame stamped with new flags and numbers, cut to bare headers if it carries no data, and
 answered through reply_tcp_packet.
*/
module TcpSegment {
  import opened Common
  import opened TcpFrame
  import opened Checksum

  const TCP_FIN: byte := 0x01
  const TCP_SYN: byte := 0x02
  const TCP_PSH: byte := 0x08
  const TCP_ACK: byte := 0x10

  const SYN_ACK: byte := TCP_ACK + TCP_SYN
  const ACK_PSH: byte := TCP_ACK + TCP_PSH
  const ACK_FIN: byte := TCP_ACK + TCP_FIN

  // ---------- the segments the stack builds ----------

  /** Frames the stack is prepared for: a segment it answers with bare headers carries no IP options. */
  predicate Acceptable(f: Frame) {
    WellFormed(f) && (Syn(Flags(f)) || Fin(Flags(f)) ==> IhlBytes(f) == IP_HDR)
  }

  /** A frame with flags, sequence and acknowledgement numbers filled in. */
  function Stamp(f: Frame, flags: byte, sq: uint32, ack: uint32): (r: Frame)
    requires WellFormed(f)
    ensures |r| == |f|
  {
    Put32(Put32(f[Tcp(f) + 13 := flags], Tcp(f) + 4, sq), Tcp(f) + 8, ack)
  }

  lemma StampFrame(f: Frame, flags: byte, sq: uint32, ack: uint32)
    requires WellFormed(f)
    ensures var r, t := Stamp(f, flags, sq, ack), Tcp(f);
      && WellFormed(r) && Tcp(r) == t && TotalLen(r) == TotalLen(f) && PayloadLen(r) == PayloadLen(f)
      && Flags(r) == flags && SeqOf(r) == sq && AckOf(r) == ack
      && Payload(r) == Payload(f)
  {
    var t, g := Tcp(f), f[Tcp(f) + 13 := flags];
    var h := Put32(g, t + 4, sq);
    var r := Put32(h, t + 8, ack);
    StampNumbers(g, h, r, t, sq, ack);
    hide Put32, Get32;
    assert forall k {:trigger r[k]} :: 0 <= k < t + 4 || t + 12 <= k < |f| ==> r[k] == g[k];
    SameShape(f, r);
  }

  /** Frames that differ only in the numbers and flags of the TCP header have the same shape and payload. */
  lemma SameShape(f: Frame, r: Frame)
    requires WellFormed(f) && |r| == |f|
    requires forall k {:trigger r[k]} :: 0 <= k < |f| && !(Tcp(f) + 4 <= k < Tcp(f) + 12) && k != Tcp(f) + 13
               ==> r[k] == f[k]
    ensures WellFormed(r) && Tcp(r) == Tcp(f) && TotalLen(r) == TotalLen(f) && PayloadLen(r) == PayloadLen(f)
    ensures Payload(r) == Payload(f)
  {
    var t := Tcp(f);
    assert r[ETH] == f[ETH] && r[ETH + 2] == f[ETH + 2] && r[ETH + 3] == f[ETH + 3] && r[t + 12] == f[t + 12];
    assert r[t + OffBytes(f)..ETH + TotalLen(f)] == f[t + OffBytes(f)..ETH + TotalLen(f)];
  }

  lemma StampNumbers(g: Frame, h: Frame, r: Frame, t: nat, sq: uint32, ack: uint32)
    requires t + TCP_HDR <= |g| && h == Put32(g, t + 4, sq) && r == Put32(h, t + 8, ack)
    ensures Get32(r, t + 4) == sq && Get32(r, t + 8) == ack
  {
    assert r[t + 4] == h[t + 4] && r[t + 5] == h[t + 5] && r[t + 6] == h[t + 6] && r[t + 7] == h[t + 7];
  }

  /** A frame cut down to two bare headers. */
  function Bare(f: Frame): (r: Frame)
    requires WellFormed(f) && IhlBytes(f) == IP_HDR
    ensures |r| == |f| && WellFormed(r) && Tcp(r) == Tcp(f) && PayloadLen(r) == 0 && TotalLen(r) == IP_HDR + TCP_HDR
  {
    Put16(f, ETH + 2, IP_HDR + TCP_HDR)[Tcp(f) + 12 := 0x50]
  }

  /** The buffer after an echo of the received payload. */
  function EchoReply(f: Frame, sq: uint32, ack: uint32): (r: Frame)
    requires WellFormed(f)
    ensures |r| == |f|
  {
    StampFrame(f, ACK_PSH, sq, ack);
    Reply(Stamp(f, ACK_PSH, sq, ack), PayloadLen(f))
  }

  /** The buffer after a control reply without payload. */
  function ControlReply(f: Frame, flags: byte, sq: uint32, ack: uint32): (r: Frame)
    requires WellFormed(f) && IhlBytes(f) == IP_HDR
    ensures |r| == |f|
  {
    StampFrame(Bare(f), flags, sq, ack);
    Reply(Stamp(Bare(f), flags, sq, ack), 0)
  }

  /** A frame on the wire: it verifies, and carries these numbers, flags and payload. */
  ghost predicate Says(r: Frame, sq: uint32, ack: uint32, flags: byte, payload: seq<byte>) {
    && Verifies(r) && |r| <= MAX_SAVED
    && SeqOf(r) == sq && AckOf(r) == ack && Flags(r) == flags && Payload(r) == payload
  }

  lemma SentHeader(g: Frame, b: Frame, r: Frame)
    requires WellFormed(g) && |b| == |g| && r == b[..ETH + TotalLen(g)]
    requires forall k {:trigger b[k]} :: 12 <= k < 24 || Tcp(g) + 4 <= k < Tcp(g) + 16 || Tcp(g) + 18 <= k < |g|
               ==> b[k] == g[k]
    ensures WellFormed(r) && Tcp(r) == Tcp(g) && TotalLen(r) == TotalLen(g) && PayloadLen(r) == PayloadLen(g)
    ensures SeqOf(r) == SeqOf(g) && AckOf(r) == AckOf(g) && Flags(r) == Flags(g)
  {
    var t := Tcp(g);
    assert r[ETH] == b[ETH] && r[ETH + 2] == b[ETH + 2] && r[ETH + 3] == b[ETH + 3] && r[t + 12] == b[t + 12];
    assert r[t + 4] == b[t + 4] && r[t + 5] == b[t + 5] && r[t + 6] == b[t + 6] && r[t + 7] == b[t + 7];
    assert r[t + 8] == b[t + 8] && r[t + 9] == b[t + 9] && r[t + 10] == b[t + 10] && r[t + 11] == b[t + 11];
    assert r[t + 13] == b[t + 13];
  }

  lemma SentPayload(g: Frame, b: Frame, r: Frame)
    requires WellFormed(g) && |b| == |g| && r == b[..ETH + TotalLen(g)]
    requires WellFormed(r) && Tcp(r) == Tcp(g) && TotalLen(r) == TotalLen(g) && PayloadLen(r) == PayloadLen(g)
    requires forall k {:trigger b[k]} :: Tcp(g) + 18 <= k < |g| ==> b[k] == g[k]
    ensures Payload(r) == Payload(g)
  {
    var from := Tcp(g) + OffBytes(g);
    forall k | from <= k < |r| ensures r[k] == g[k] { assert b[k] == g[k]; }
    assert r[from..] == g[from..|r|];
  }

  lemma SentChecks(g: Frame, b: Frame, r: Frame)
    requires WellFormed(g) && |b| == |g| && r == b[..ETH + TotalLen(g)]
    requires WellFormed(r) && Tcp(r) == Tcp(g) == Tcp(b) && TotalLen(r) == TotalLen(g)
    requires Cks(b[ETH..Tcp(g)]) == 0
    requires Cks(PseudoSegment(b, TotalLen(g) - IhlBytes(g))) == 0
    ensures Verifies(r)
  {
    assert r[ETH..Tcp(g)] == b[ETH..Tcp(g)];
    assert PseudoSegment(r, TotalLen(g) - IhlBytes(g)) == PseudoSegment(b, TotalLen(g) - IhlBytes(g));
  }

  /** What a written frame says, given the frame that was stamped. */
  lemma SentSays(g: Frame)
    requires WellFormed(g)
    ensures var r := Reply(g, PayloadLen(g))[..ETH + TotalLen(g)];
      Says(r, SeqOf(g), AckOf(g), Flags(g), Payload(g))
  {
    hide Reply, Cks, PseudoSegment, SeqOf, AckOf, Flags, Payload, Verifies;
    var b := Reply(g, PayloadLen(g));
    var r := b[..ETH + TotalLen(g)];
    ReplyFrame(g, PayloadLen(g));
    SentHeader(g, b, r);
    SentPayload(g, b, r);
    SentChecks(g, b, r);
  }

  /** A stamped frame, answered and written. */
  lemma AnswerSays(f: Frame, g: Frame, r: Frame, flags: byte, sq: uint32, ack: uint32)
    requires WellFormed(f) && g == Stamp(f, flags, sq, ack) && WellFormed(g)
    requires r == Reply(g, PayloadLen(g))[..ETH + TotalLen(g)]
    ensures Says(r, sq, ack, flags, Payload(f))
  {
    SentSays(g);
    assert SeqOf(g) == sq && AckOf(g) == ack && Flags(g) == flags && Payload(g) == Payload(f) by {
      StampFrame(f, flags, sq, ack);
    }
  }

  /** The echo carries the payload it received, numbered and acknowledged as asked, and verifies. */
  lemma EchoSays(f: Frame, sq: uint32, ack: uint32)
    requires WellFormed(f)
    ensures Says(EchoReply(f, sq, ack)[..ETH + TotalLen(f)], sq, ack, ACK_PSH, Payload(f))
  {
    hide Reply, Stamp, Says;
    var g := Stamp(f, ACK_PSH, sq, ack);
    assert WellFormed(g) && TotalLen(g) == TotalLen(f) && PayloadLen(g) == PayloadLen(f) by {
      StampFrame(f, ACK_PSH, sq, ack);
    }
    AnswerSays(f, g, EchoReply(f, sq, ack)[..ETH + TotalLen(f)], ACK_PSH, sq, ack);
  }

  lemma ControlSays(f: Frame, flags: byte, sq: uint32, ack: uint32)
    requires WellFormed(f) && IhlBytes(f) == IP_HDR
    ensures Says(ControlReply(f, flags, sq, ack)[..ETH + IP_HDR + TCP_HDR], sq, ack, flags, [])
  {
    hide Reply, Stamp, Says;
    var e := Bare(f);
    var g := Stamp(e, flags, sq, ack);
    assert WellFormed(g) && TotalLen(g) == TotalLen(e) && PayloadLen(g) == PayloadLen(e) by {
      StampFrame(e, flags, sq, ack);
    }
    assert Payload(e) == [];
    AnswerSays(e, g, ControlReply(f, flags, sq, ack)[..ETH + IP_HDR + TCP_HDR], flags, sq, ack);
  }

  /** `r` goes back to where `f` came from: addresses and ports are exchanged, and the frame type and protocol kept. */
  ghost predicate Returns(r: Frame, f: Frame) {
    && WellFormed(f) && WellFormed(r) && Tcp(r) == Tcp(f)
    && r[0..6] == f[6..12] && r[6..12] == f[0..6] && r[12..16] == f[12..16] && r[18..24] == f[18..24]
    && r[26..30] == f[30..34] && r[30..34] == f[26..30]
    && r[Tcp(f)..Tcp(f) + 2] == f[Tcp(f) + 2..Tcp(f) + 4] && r[Tcp(f) + 2..Tcp(f) + 4] == f[Tcp(f)..Tcp(f) + 2]
  }

  /** Only the length, the header size, the numbers and the flags differ between a received frame and a stamped one. */
  ghost predicate SameEnds(g: Frame, f: Frame)
    requires WellFormed(f)
  {
    && |g| == |f| && WellFormed(g) && Tcp(g) == Tcp(f)
    && forall k {:trigger g[k]} :: 0 <= k < 16 || 18 <= k < Tcp(f) + 4 ==> g[k] == f[k]
  }

  lemma StampSameEnds(f: Frame, flags: byte, sq: uint32, ack: uint32)
    requires WellFormed(f)
    ensures SameEnds(Stamp(f, flags, sq, ack), f)
  {
    StampFrame(f, flags, sq, ack);
    hide Get32;
  }

  lemma BareSameEnds(f: Frame)
    requires WellFormed(f) && IhlBytes(f) == IP_HDR
    ensures SameEnds(Bare(f), f)
  {
  }

  lemma ReplyReturns(f: Frame, g: Frame, r: Frame)
    requires WellFormed(f) && SameEnds(g, f) && r == Reply(g, PayloadLen(g))[..ETH + TotalLen(g)]
    ensures Returns(r, f)
  {
    hide Reply, Cks, PseudoSegment, SeqOf, AckOf, Flags, Payload;
    var b := Reply(g, PayloadLen(g));
    ReplyFrame(g, PayloadLen(g));
    ReplyAddresses(g, PayloadLen(g));
    SentHeader(g, b, r);
    hide WellFormed;
    FieldsReturn(f, g, b, r, Tcp(f));
  }

  lemma FieldsReturn(f: Frame, g: Frame, b: Frame, r: Frame, t: nat)
    requires t >= 34 && |f| == |g| == |b| && t + 4 <= |r| <= |b| && r == b[..|r|]
    requires forall k {:trigger g[k]} :: 0 <= k < 16 || 18 <= k < t + 4 ==> g[k] == f[k]
    requires forall k {:trigger b[k]} :: 12 <= k < 24 ==> b[k] == g[k]
    requires b[0..6] == g[6..12] && b[6..12] == g[0..6] && b[26..30] == g[30..34] && b[30..34] == g[26..30]
    requires b[t..t + 2] == g[t + 2..t + 4] && b[t + 2..t + 4] == g[t..t + 2]
    ensures r[0..6] == f[6..12] && r[6..12] == f[0..6] && r[12..16] == f[12..16] && r[18..24] == f[18..24]
    ensures r[26..30] == f[30..34] && r[30..34] == f[26..30]
    ensures r[t..t + 2] == f[t + 2..t + 4] && r[t + 2..t + 4] == f[t..t + 2]
  {
    assert g[6..12] == f[6..12] && g[0..6] == f[0..6] && g[30..34] == f[30..34] && g[26..30] == f[26..30];
    assert g[t + 2..t + 4] == f[t + 2..t + 4] && g[t..t + 2] == f[t..t + 2];
    assert r[0..6] == b[0..6] && r[6..12] == b[6..12] && r[26..30] == b[26..30] && r[30..34] == b[30..34];
    assert r[t..t + 2] == b[t..t + 2] && r[t + 2..t + 4] == b[t + 2..t + 4];
  }

  /** An echo is addressed to the sender of the data. */
  lemma EchoReturns(f: Frame, sq: uint32, ack: uint32)
    requires WellFormed(f)
    ensures Returns(EchoReply(f, sq, ack)[..ETH + TotalLen(f)], f)
  {
    hide Reply, Stamp, Returns, SameEnds;
    StampFrame(f, ACK_PSH, sq, ack);
    StampSameEnds(f, ACK_PSH, sq, ack);
    ReplyReturns(f, Stamp(f, ACK_PSH, sq, ack), EchoReply(f, sq, ack)[..ETH + TotalLen(f)]);
  }

  lemma ControlReturns(f: Frame, flags: byte, sq: uint32, ack: uint32)
    requires WellFormed(f) && IhlBytes(f) == IP_HDR
    ensures Returns(ControlReply(f, flags, sq, ack)[..ETH + IP_HDR + TCP_HDR], f)
  {
    hide Reply, Stamp, Returns;
    var e := Bare(f);
    StampFrame(e, flags, sq, ack);
    StampSameEnds(e, flags, sq, ack);
    BareSameEnds(f);
    ReplyReturns(f, Stamp(e, flags, sq, ack), ControlReply(f, flags, sq, ack)[..ETH + IP_HDR + TCP_HDR]);
  }

  // ---------- the same segments built in the receive buffer ----------

  method StampInPlace(b: array<byte>, flags: byte, sq: uint32, ack: uint32)
    requires WellFormed(b[..])
    modifies b
    ensures b[..] == Stamp(old(b[..]), flags, sq, ack)
  {
    var tcp := ETH + b[ETH] % 16 * 4;
    b[tcp + 13] := flags;
    Store32(b, tcp + 4, sq);
    Store32(b, tcp + 8, ack);
  }

  method BareInPlace(b: array<byte>)
    requires WellFormed(b[..]) && IhlBytes(b[..]) == IP_HDR
    modifies b
    ensures b[..] == Bare(old(b[..]))
  {
    var tcp := ETH + b[ETH] % 16 * 4;
    Store16(b, ETH + 2, IP_HDR + TCP_HDR);
    b[tcp + 12] := 0x50;
  }

  method EchoInPlace(b: array<byte>, sq: uint32, ack: uint32) returns (written: Frame)
    requires WellFormed(b[..])
    modifies b
    ensures b[..] == EchoReply(old(b[..]), sq, ack) && written == b[..ETH + TotalLen(old(b[..]))]
    ensures b[Tcp(old(b[..])) + 13] == ACK_PSH
  {
    hide Reply, Stamp;
    ghost var f := b[..];
    StampFrame(f, ACK_PSH, sq, ack);
    StampInPlace(b, ACK_PSH, sq, ack);
    ghost var g := b[..];
    written := ReplyTcpPacket(b, PayloadLen(b[..]));
    ReplyFrame(g, PayloadLen(f));
    assert b[..][Tcp(f) + 13] == g[Tcp(f) + 13];
  }

  method ControlInPlace(b: array<byte>, flags: byte, sq: uint32, ack: uint32) returns (written: Frame)
    requires WellFormed(b[..]) && IhlBytes(b[..]) == IP_HDR
    modifies b
    ensures b[..] == ControlReply(old(b[..]), flags, sq, ack) && written == b[..ETH + IP_HDR + TCP_HDR]
  {
    hide Reply, Stamp;
    BareInPlace(b);
    StampFrame(b[..], flags, sq, ack);
    StampInPlace(b, flags, sq, ack);
    written := ReplyTcpPacket(b, 0);
  }
}
