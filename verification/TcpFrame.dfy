/**
 Ethernet/IPv4/TCP frames and `reply_tcp_packet` of
 04_protocolstack_underlying_c/second_version/src/tcp.c, which turns a received frame into a
 reply inside its own buffer: swap addresses and ports, recompute both checksums, write.
*/
module TcpFrame {
  import opened Common
  import opened Checksum

  type Frame = seq<byte>

  const ETH: nat := 14
  const IP_HDR: nat := 20
  const TCP_HDR: nat := 20
  const PSEUDO: nat := 12
  const MAX_SAVED: nat := 1500

  // ---------- reading and writing fields ----------

  function Get16(f: Frame, off: nat): uint16
    requires off + 2 <= |f|
  {
    var hi: int := f[off];
    256 * hi + f[off + 1]
  }

  function Get32(f: Frame, off: nat): uint32
    requires off + 4 <= |f|
  {
    0x1_0000 * (var hi: int := Get16(f, off); hi) + Get16(f, off + 2)
  }

  /** A 16-bit field in network byte order. */
  function Put16(f: Frame, off: nat, v: uint16): (r: Frame)
    requires off + 2 <= |f|
    ensures |r| == |f| && Get16(r, off) == v
    ensures forall k {:trigger r[k]} :: 0 <= k < |f| && (k < off || k >= off + 2) ==> r[k] == f[k]
  {
    f[off := v / 256][off + 1 := v % 256]
  }

  function Put32(f: Frame, off: nat, v: uint32): (r: Frame)
    requires off + 4 <= |f|
    ensures |r| == |f| && Get32(r, off) == v
    ensures forall k {:trigger r[k]} :: 0 <= k < |f| && (k < off || k >= off + 4) ==> r[k] == f[k]
  {
    Put16(Put16(f, off, v / 0x1_0000), off + 2, v % 0x1_0000)
  }

  /** The `n` bytes at `off` and the `n` bytes after them change places. */
  function SwapFields(f: Frame, off: nat, n: nat): (r: Frame)
    requires off + 2 * n <= |f|
    ensures |r| == |f|
    ensures r[off..off + n] == f[off + n..off + 2 * n] && r[off + n..off + 2 * n] == f[off..off + n]
    ensures forall k {:trigger r[k]} :: 0 <= k < |f| && (k < off || k >= off + 2 * n) ==> r[k] == f[k]
  {
    f[..off] + f[off + n..off + 2 * n] + f[off..off + n] + f[off + 2 * n..]
  }

  function IhlBytes(f: Frame): nat
    requires |f| > ETH
  {
    f[ETH] % 16 * 4
  }

  function TotalLen(f: Frame): nat
    requires |f| >= ETH + IP_HDR
  {
    Get16(f, ETH + 2)
  }

  /** Where the TCP header starts. */
  function Tcp(f: Frame): nat
    requires |f| > ETH
  {
    ETH + IhlBytes(f)
  }

  function OffBytes(f: Frame): nat
    requires |f| > ETH && |f| > Tcp(f) + 12
  {
    f[Tcp(f) + 12] / 16 * 4
  }

  /** A frame as long as its headers say, whose IP total length covers both headers and fits the save buffer. */
  predicate WellFormed(f: Frame) {
    && |f| >= ETH + IP_HDR + TCP_HDR
    && IhlBytes(f) >= IP_HDR && Tcp(f) + TCP_HDR <= |f|
    && OffBytes(f) >= TCP_HDR
    && IhlBytes(f) + OffBytes(f) <= TotalLen(f)
    && ETH + TotalLen(f) <= Min(|f|, MAX_SAVED)
  }

  /** `payload_len`, the result of get_tcp_payloadlen. */
  function PayloadLen(f: Frame): int
    requires WellFormed(f)
  {
    TotalLen(f) - IhlBytes(f) - OffBytes(f)
  }

  function Payload(f: Frame): seq<byte>
    requires WellFormed(f)
  {
    f[Tcp(f) + OffBytes(f)..ETH + TotalLen(f)]
  }

  function SeqOf(f: Frame): uint32
    requires WellFormed(f)
  {
    Get32(f, Tcp(f) + 4)
  }

  function AckOf(f: Frame): uint32
    requires WellFormed(f)
  {
    Get32(f, Tcp(f) + 8)
  }

  function Flags(f: Frame): byte
    requires WellFormed(f)
  {
    f[Tcp(f) + 13]
  }

  predicate Fin(flags: byte) { flags % 2 == 1 }
  predicate Syn(flags: byte) { flags / 2 % 2 == 1 }
  predicate Ack(flags: byte) { flags / 16 % 2 == 1 }

  /** The sequence space a segment occupies: its payload plus one for SYN and one for FIN. */
  function SegLen(f: Frame): nat
    requires WellFormed(f)
  {
    PayloadLen(f) + (if Syn(Flags(f)) then 1 else 0) + (if Fin(Flags(f)) then 1 else 0)
  }

  // ---------- checksums ----------

  /** The pseudo-header in front of a TCP segment of `len` bytes. */
  function PseudoSegment(f: Frame, len: nat): seq<byte>
    requires |f| >= ETH + IP_HDR && Tcp(f) + len <= |f| && len < 0x1_0000
  {
    f[26..34] + [0, f[23], len / 256, len % 256] + f[Tcp(f)..Tcp(f) + len]
  }

  /** Section 3.1 of RFC 9293: source and destination address, a zero byte, the protocol and the segment's length. */
  lemma PseudoFields(f: Frame, len: nat)
    requires |f| >= ETH + IP_HDR && Tcp(f) + len <= |f| && len < 0x1_0000
    ensures var p := PseudoSegment(f, len);
      && |p| == PSEUDO + len && p[PSEUDO..] == f[Tcp(f)..Tcp(f) + len]
      && Get32(p, 0) == Get32(f, 26) && Get32(p, 4) == Get32(f, 30)
      && p[8] == 0 && p[9] == f[23] && Get16(p, 10) == len
  {
    var p := PseudoSegment(f, len);
    assert forall k :: 0 <= k < 8 ==> p[k] == f[26 + k];
    assert Get16(p, 0) == Get16(f, 26) && Get16(p, 2) == Get16(f, 28);
    assert Get16(p, 4) == Get16(f, 30) && Get16(p, 6) == Get16(f, 32);
  }

  /** What a receiver checks: both checksums recompute to zero, the TCP one over the length IP announces. */
  ghost predicate Verifies(f: Frame) {
    && WellFormed(f)
    && Cks(f[ETH..Tcp(f)]) == 0
    && Cks(PseudoSegment(f, TotalLen(f) - IhlBytes(f))) == 0
  }

  // ---------- reply_tcp_packet ----------

  /** The header with its checksum field cleared, then filled in. */
  function SealIp(f: Frame): (r: Frame)
    requires |f| >= ETH + IP_HDR && IP_HDR <= IhlBytes(f) && Tcp(f) <= |f|
    ensures |r| == |f|
  {
    var f0 := PutWord(f, ETH + 10, 0);
    PutWord(f0, ETH + 10, Cks(f0[ETH..Tcp(f)]))
  }

  function SealTcp(f: Frame, len: nat): (r: Frame)
    requires |f| >= ETH + IP_HDR && IP_HDR <= IhlBytes(f)
    requires TCP_HDR <= len < 0x1_0000 && Tcp(f) + len <= |f|
    ensures |r| == |f|
  {
    var f0 := PutWord(f, Tcp(f) + 16, 0);
    PutWord(f0, Tcp(f) + 16, Cks(PseudoSegment(f0, len)))
  }

  predicate Replyable(f: Frame, payloadLen: int) {
    && |f| >= ETH + IP_HDR && IhlBytes(f) >= IP_HDR && Tcp(f) + TCP_HDR <= |f| && payloadLen >= 0
    && OffBytes(f) >= TCP_HDR && Tcp(f) + OffBytes(f) + payloadLen <= |f|
    && OffBytes(f) + payloadLen < 0x1_0000 && ETH + TotalLen(f) <= |f|
  }

  /** The frame addressed back to its sender, the IP header sealed. */
  function Readdress(f: Frame): (r: Frame)
    requires |f| >= ETH + IP_HDR && IhlBytes(f) >= IP_HDR && Tcp(f) + TCP_HDR <= |f|
    ensures |r| == |f| && Tcp(r) == Tcp(f)
  {
    SwapFields(SealIp(SwapFields(SwapFields(f, 0, 6), 26, 4)), Tcp(f), 2)
  }

  function Reply(f: Frame, payloadLen: int): (r: Frame)
    requires Replyable(f, payloadLen)
    ensures |r| == |f|
  {
    SealTcp(Readdress(f), OffBytes(f) + payloadLen)
  }

  lemma SealIpFrame(f: Frame)
    requires |f| >= ETH + IP_HDR && IP_HDR <= IhlBytes(f) && Tcp(f) <= |f|
    ensures var r := SealIp(f);
      && (forall k {:trigger r[k]} :: 0 <= k < |f| && k != 24 && k != 25 ==> r[k] == f[k])
      && Cks(r[ETH..Tcp(f)]) == 0
  {
    var f0 := PutWord(f, ETH + 10, 0);
    var h := f0[ETH..Tcp(f)];
    ChecksumVerifies(h, 10);
    assert SealIp(f)[ETH..Tcp(f)] == PutWord(h, 10, Cks(h));
  }

  lemma SealTcpFrame(f: Frame, len: nat)
    requires |f| >= ETH + IP_HDR && IP_HDR <= IhlBytes(f)
    requires TCP_HDR <= len < 0x1_0000 && Tcp(f) + len <= |f|
    ensures var r, at := SealTcp(f, len), Tcp(f) + 16;
      && (forall k {:trigger r[k]} :: 0 <= k < |f| && k != at && k != at + 1 ==> r[k] == f[k])
      && Tcp(r) == Tcp(f) && Cks(PseudoSegment(r, len)) == 0
  {
    var f0 := PutWord(f, Tcp(f) + 16, 0);
    var p := PseudoSegment(f0, len);
    ChecksumVerifies(p, PSEUDO + 16);
    var r := SealTcp(f, len);
    assert PseudoSegment(r, len) == PutWord(p, PSEUDO + 16, Cks(p));
  }

  /** Replying changes only the MAC and IP addresses, the ports and the two checksums. */
  lemma ReplyFrame(f: Frame, payloadLen: int)
    requires Replyable(f, payloadLen)
    ensures var r := Reply(f, payloadLen);
      && (forall k {:trigger r[k]} :: 12 <= k < 24 || Tcp(f) + 4 <= k < Tcp(f) + 16 || Tcp(f) + 18 <= k < |f|
            ==> r[k] == f[k])
      && Tcp(r) == Tcp(f)
      && Cks(r[ETH..Tcp(f)]) == 0
      && Cks(PseudoSegment(r, OffBytes(f) + payloadLen)) == 0
  {
    var t, len := Tcp(f), OffBytes(f) + payloadLen;
    var f2 := SwapFields(SwapFields(f, 0, 6), 26, 4);
    assert f2[ETH] == f[ETH];
    var f3 := SealIp(f2);
    SealIpFrame(f2);
    var f4 := SwapFields(f3, t, 2);
    assert f4[ETH] == f[ETH];
    SealTcpFrame(f4, len);
    var r := SealTcp(f4, len);
    assert r[ETH..t] == f3[ETH..t];
  }

  /** Source and destination of the reply are those of the request exchanged. */
  lemma ReplyAddresses(f: Frame, payloadLen: int)
    requires Replyable(f, payloadLen)
    ensures var r, t := Reply(f, payloadLen), Tcp(f);
      && r[0..6] == f[6..12] && r[6..12] == f[0..6]
      && r[26..30] == f[30..34] && r[30..34] == f[26..30]
      && r[t..t + 2] == f[t + 2..t + 4] && r[t + 2..t + 4] == f[t..t + 2]
  {
    ReaddressFields(f);
    var g := Readdress(f);
    SealTcpFrame(g, OffBytes(f) + payloadLen);
    var r := Reply(f, payloadLen);
    SameFields(g, r, Tcp(f));
  }

  lemma SameFields(g: Frame, r: Frame, t: nat)
    requires |g| == |r| && 34 <= t && t + 4 <= |g|
    requires forall k {:trigger r[k]} :: 0 <= k < t + 4 ==> r[k] == g[k]
    ensures r[0..6] == g[0..6] && r[6..12] == g[6..12] && r[26..30] == g[26..30] && r[30..34] == g[30..34]
    ensures r[t..t + 2] == g[t..t + 2] && r[t + 2..t + 4] == g[t + 2..t + 4]
  {
  }

  lemma ReaddressFields(f: Frame)
    requires |f| >= ETH + IP_HDR && IhlBytes(f) >= IP_HDR && Tcp(f) + TCP_HDR <= |f|
    ensures var r, t := Readdress(f), Tcp(f);
      && r[0..6] == f[6..12] && r[6..12] == f[0..6]
      && r[26..30] == f[30..34] && r[30..34] == f[26..30]
      && r[t..t + 2] == f[t + 2..t + 4] && r[t + 2..t + 4] == f[t..t + 2]
  {
    var t, f1 := Tcp(f), SwapFields(f, 0, 6);
    var f2 := SwapFields(f1, 26, 4);
    var f3 := SealIp(f2);
    SealIpFrame(f2);
    var r := SwapFields(f3, t, 2);
    assert f1[26..30] == f[26..30] && f1[30..34] == f[30..34];
    assert r[0..6] == f3[0..6] == f2[0..6] == f1[0..6];
    assert r[6..12] == f3[6..12] == f2[6..12] == f1[6..12];
    assert r[26..30] == f3[26..30] == f2[26..30] && r[30..34] == f3[30..34] == f2[30..34];
    assert f3[t..t + 2] == f[t..t + 2] && f3[t + 2..t + 4] == f[t + 2..t + 4];
  }

  // ---------- the same edits made in the receive buffer ----------

  method StoreWord(b: array<byte>, off: nat, v: uint16)
    requires off + 2 <= b.Length
    modifies b
    ensures b[..] == PutWord(old(b[..]), off, v)
  {
    b[off], b[off + 1] := v % 256, v / 256;
  }

  method Store16(b: array<byte>, off: nat, v: uint16)
    requires off + 2 <= b.Length
    modifies b
    ensures b[..] == Put16(old(b[..]), off, v)
  {
    b[off], b[off + 1] := v / 256, v % 256;
  }

  method Store32(b: array<byte>, off: nat, v: uint32)
    requires off + 4 <= b.Length
    modifies b
    ensures b[..] == Put32(old(b[..]), off, v)
  {
    Store16(b, off, v / 0x1_0000);
    Store16(b, off + 2, v % 0x1_0000);
  }

  /** `memcpy(b + at, v, |v|)` */
  method CopyInto(b: array<byte>, at: nat, v: seq<byte>)
    requires at + |v| <= b.Length
    modifies b
    ensures b[..] == old(b[..at]) + v + old(b[at + |v|..])
  {
    forall k | 0 <= k < |v| { b[at + k] := v[k]; }
  }

  /** Exchange two adjacent fields through a temporary. */
  method SwapInPlace(b: array<byte>, off: nat, n: nat)
    requires off + 2 * n <= b.Length
    modifies b
    ensures b[..] == SwapFields(old(b[..]), off, n)
  {
    var temp := b[off..off + n];
    CopyInto(b, off, b[off + n..off + 2 * n]);
    CopyInto(b, off + n, temp);
  }

  /** `tcp_checksum`: the pseudo-header and the segment are copied behind one another and summed. */
  method TcpChecksum(b: array<byte>, len: nat) returns (sum: uint16)
    requires b.Length >= ETH + IP_HDR && Tcp(b[..]) + len <= b.Length && len < 0x1_0000
    ensures sum == Cks(PseudoSegment(b[..], len))
  {
    var tcp := ETH + b[ETH] % 16 * 4;
    var pre := b[26..34] + [0, b[23], len / 256, len % 256];
    var copy := pre + b[tcp..tcp + len];
    var temp := new byte[PSEUDO + len](k requires 0 <= k < PSEUDO + len => copy[k]);
    sum := Compute(temp, 0, temp.Length);
    assert temp[0..temp.Length] == copy;
    assert b[26..34] == b[..][26..34] && b[tcp..tcp + len] == b[..][tcp..tcp + len];
  }

  method SealIpInPlace(b: array<byte>)
    requires b.Length >= ETH + IP_HDR && IP_HDR <= IhlBytes(b[..]) && Tcp(b[..]) <= b.Length
    modifies b
    ensures b[..] == SealIp(old(b[..]))
  {
    var tcp := ETH + b[ETH] % 16 * 4;
    StoreWord(b, ETH + 10, 0);
    assert b[..][ETH..tcp] == b[ETH..ETH + (tcp - ETH)];
    var sum := Compute(b, ETH, tcp - ETH);
    StoreWord(b, ETH + 10, sum);
  }

  method SealTcpInPlace(b: array<byte>, len: nat)
    requires b.Length >= ETH + IP_HDR && IP_HDR <= IhlBytes(b[..])
    requires TCP_HDR <= len < 0x1_0000 && Tcp(b[..]) + len <= b.Length
    modifies b
    ensures b[..] == SealTcp(old(b[..]), len)
  {
    var tcp := ETH + b[ETH] % 16 * 4;
    StoreWord(b, tcp + 16, 0);
    var sum := TcpChecksum(b, len);
    StoreWord(b, tcp + 16, sum);
  }

  method ReaddressInPlace(b: array<byte>)
    requires b.Length >= ETH + IP_HDR && IhlBytes(b[..]) >= IP_HDR && Tcp(b[..]) + TCP_HDR <= b.Length
    modifies b
    ensures b[..] == Readdress(old(b[..]))
  {
    var tcp := ETH + b[ETH] % 16 * 4;
    SwapInPlace(b, 0, 6);
    SwapInPlace(b, 26, 4);
    SealIpInPlace(b);
    SwapInPlace(b, tcp, 2);
  }

  method ReplyTcpPacket(b: array<byte>, payloadLen: int) returns (written: Frame)
    requires Replyable(b[..], payloadLen)
    modifies b
    ensures b[..] == Reply(old(b[..]), payloadLen)
    ensures |written| == ETH + TotalLen(old(b[..])) && written == b[..|written|]
  {
    hide SwapFields, SealIp, SealTcp, Readdress;
    var off := b[ETH + b[ETH] % 16 * 4 + 12] / 16 * 4;
    var hi: int := b[ETH + 2];
    var total := 256 * hi + b[ETH + 3];
    ReaddressInPlace(b);
    SealTcpInPlace(b, off + payloadLen);
    written := b[..ETH + total];
  }
}
