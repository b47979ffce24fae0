/**
 The lock-step file transfer of 01_socket_underlying_c/03_tftp: a client and a server that
 exchange datagrams over a network that may lose, duplicate and reorder them (RFC 1350).
 The server counts blocks in a wrapping 16-bit variable, the client in an int.
*/
module Tftp {
  import opened Common

  const BLK_SIZE: nat := 512
  const HEADER: nat := 4

  type Packet = seq<byte>

  // ---------- packet formats ----------

  const OCTET: seq<byte> := [0x6f, 0x63, 0x74, 0x65, 0x74]
  const FILE_NOT_FOUND: seq<byte> :=
    [0x66, 0x69, 0x6c, 0x65, 0x20, 0x6e, 0x6f, 0x74, 0x20, 0x66, 0x6f, 0x75, 0x6e, 0x64]

  function Request(name: seq<byte>): Packet {
    [0, 1] + name + [0] + OCTET + [0]
  }

  function Data(b: uint16, payload: seq<byte>): Packet {
    [0, 3, b / 256, b % 256] + payload
  }

  function Ack(b: uint16): Packet {
    [0, 4, b / 256, b % 256]
  }

  function ErrorPacket(): Packet {
    [0, 5, 0, 1] + FILE_NOT_FOUND + [0]
  }

  function BlockNumber(p: Packet): uint16
    requires |p| >= HEADER
  {
    var hi: int := p[2];
    256 * hi + p[3]
  }

  /** What `strcpy` copies: the bytes before the first NUL. */
  function CString(p: seq<byte>): seq<byte> {
    if p == [] || p[0] == 0 then [] else [p[0]] + CString(p[1..])
  }

  /** The server recovers the requested file name from the request datagram. */
  lemma {:induction false} RequestRoundTrip(name: seq<byte>, tail: seq<byte>)
    requires 0 !in name
    ensures CString(name + [0] + tail) == name
  {
    var p := name + [0] + tail;
    if name != [] {
      assert p[1..] == name[1..] + [0] + tail;
      RequestRoundTrip(name[1..], tail);
    }
  }

  // ---------- the server ----------

  /** `AwaitAck` holds the open file, its read offset, `bl_num` and the length of the block just sent. */
  datatype Server = Idle | AwaitAck(content: seq<byte>, pos: nat, blNum: uint16, lastLen: nat)

  type FileSystem = map<seq<byte>, seq<byte>>

  predicate ServerShape(s: Server) {
    s.AwaitAck? ==> s.pos <= |s.content|
  }

  function SendBlock(content: seq<byte>, pos: nat, blNum: uint16): (Server, Option<Packet>)
    requires pos <= |content|
  {
    var n := Min(BLK_SIZE, |content| - pos);
    var b := (blNum + 1) % 0x1_0000;
    (AwaitAck(content, pos + n, b, n), Some(Data(b, content[pos..pos + n])))
  }

  function ServerStep(fs: FileSystem, s: Server, p: Packet): (Server, Option<Packet>)
    requires ServerShape(s)
  {
    match s
    case Idle =>
      if |p| < 2 || p[1] != 1 then (Idle, None)
      else if CString(p[2..]) !in fs then (Idle, Some(ErrorPacket()))
      else SendBlock(fs[CString(p[2..])], 0, 0)
    case AwaitAck(content, pos, blNum, lastLen) =>
      if |p| >= HEADER && p[1] == 4 && BlockNumber(p) == blNum && lastLen >= BLK_SIZE
      then SendBlock(content, pos, blNum)
      else (Idle, None)
  }

  /** The server process between two `recvfrom` calls. */
  class TftpServer {
    const fs: FileSystem
    var sending: bool
    var content: seq<byte>
    var pos: nat
    var blNum: uint16
    var lastLen: nat

    ghost predicate Valid()
      reads this
    {
      pos <= |content|
    }

    function State(): Server
      reads this
    {
      if sending then AwaitAck(content, pos, blNum, lastLen) else Idle
    }

    constructor (fs: FileSystem)
      ensures Valid() && State() == Idle && this.fs == fs
    {
      this.fs := fs;
      sending, content, pos, blNum, lastLen := false, [], 0, 0, 0;
    }

    /** The head of the transfer loop: read a block, advance the 16-bit counter, send. */
    method SendNext() returns (out: Packet)
      requires Valid()
      modifies this
      ensures Valid()
      ensures (State(), Some(out)) == SendBlock(old(content), old(pos), old(blNum))
    {
      lastLen := Min(BLK_SIZE, |content| - pos);
      var block := content[pos..pos + lastLen];
      pos := pos + lastLen;
      blNum := (blNum + 1) % 0x1_0000;
      sending := true;
      out := [0, 3, blNum / 256, blNum % 256] + block;
    }

    method OnDatagram(p: Packet) returns (out: Option<Packet>)
      requires Valid()
      modifies this
      ensures Valid()
      ensures (State(), out) == ServerStep(fs, old(State()), p)
    {
      if !sending {
        if |p| < 2 || p[1] != 1 { return None; }
        var name := CString(p[2..]);
        if name !in fs { return Some(ErrorPacket()); }
        content, pos, blNum := fs[name], 0, 0;
      } else if !(|p| >= HEADER && p[1] == 4 && BlockNumber(p) == blNum) {
        sending := false;
        return None;
      } else if lastLen < BLK_SIZE {
        sending := false;
        return None;
      }
      var d := SendNext();
      out := Some(d);
    }
  }

  // ---------- the client ----------

  datatype Status = Running | Done | Failed
  datatype Client = Client(num: int, created: bool, out: seq<byte>, status: Status)

  function ClientStep(c: Client, p: Packet): (Client, Option<Packet>) {
    if c.status != Running || |p| < HEADER then (c, None)
    else if p[1] == 5 then (c.(status := Failed), None)
    else if p[1] != 3 then (c, None)
    else if c.num + 1 != BlockNumber(p) then (c.(created := true), None)
    else (Client(c.num + 1, true, c.out + p[HEADER..], if |p| < HEADER + BLK_SIZE then Done else Running),
          Some([p[0], 4] + p[2..HEADER]))
  }

  /** The client process: the body of the receive loop of `download`. */
  class TftpClient {
    var num: int
    var flag: bool
    var file: seq<byte>
    var status: Status

    function State(): Client
      reads this
    {
      Client(num, flag, file, status)
    }

    constructor ()
      ensures State() == Client(0, false, [], Running)
    {
      num, flag, file, status := 0, false, [], Running;
    }

    method OnDatagram(p: Packet) returns (out: Option<Packet>)
      requires |p| >= HEADER
      modifies this
      ensures (State(), out) == ClientStep(old(State()), p)
    {
      out := None;
      if status != Running { return; }
      if p[1] == 5 {
        status := Failed;
      } else if p[1] == 3 {
        if !flag { flag := true; }
        if num + 1 == BlockNumber(p) {
          num := num + 1;
          file := file + p[HEADER..];
          out := Some(p[1 := 4][..HEADER]);
          assert out.value == [p[0], 4] + p[2..HEADER];
          if |p| < HEADER + BLK_SIZE { status := Done; }
        }
      }
    }
  }

  // ---------- both ends joined by a lossy, duplicating, reordering network ----------

  /** Packets stay in the bags, so any of them may arrive late, repeatedly, or never. */
  datatype System = System(server: Server, client: Client, toServer: set<Packet>, toClient: set<Packet>)

  function Emit(bag: set<Packet>, out: Option<Packet>): set<Packet> {
    if out.Some? then bag + {out.value} else bag
  }

  ghost predicate ServerReceives(fs: FileSystem, s: System, s': System, p: Packet) {
    && p in s.toServer && ServerShape(s.server)
    && var (sv, out) := ServerStep(fs, s.server, p);
       s' == s.(server := sv, toClient := Emit(s.toClient, out))
  }

  ghost predicate ClientReceives(s: System, s': System, p: Packet) {
    && p in s.toClient
    && var (c, out) := ClientStep(s.client, p);
       s' == s.(client := c, toServer := Emit(s.toServer, out))
  }

  ghost predicate NetworkDrops(s: System, s': System) {
    && s'.toServer <= s.toServer && s'.toClient <= s.toClient
    && s'.server == s.server && s'.client == s.client
  }

  ghost predicate Next(fs: FileSystem, s: System, s': System) {
    || (exists p :: ServerReceives(fs, s, s', p))
    || (exists p :: ClientReceives(s, s', p))
    || NetworkDrops(s, s')
  }

  function Initial(name: seq<byte>): System {
    System(Idle, Client(0, false, [], Running), {Request(name)}, {})
  }

  ghost predicate IsRun(fs: FileSystem, name: seq<byte>, run: seq<System>) {
    && |run| > 0 && run[0] == Initial(name)
    && forall i :: 0 <= i < |run| - 1 ==> Next(fs, run[i], run[i + 1])
  }

  // ---------- the protocol invariant ----------

  /** Block number `k` (counted from 1) of a file. */
  function Block(file: seq<byte>, k: nat): seq<byte>
    requires k >= 1 && BLK_SIZE * (k - 1) <= |file|
  {
    file[BLK_SIZE * (k - 1)..Min(BLK_SIZE * k, |file|)]
  }

  /** The unwrapped block that a 16-bit label can stand for: label 0 is block 65536. */
  function Unwrap(b: uint16): nat {
    if b == 0 then 0x1_0000 else b
  }

  ghost predicate IsFileBlock(file: seq<byte>, p: Packet) {
    && |p| >= HEADER
    && var k := Unwrap(BlockNumber(p));
       BLK_SIZE * (k - 1) <= |file| && p == Data(k % 0x1_0000, Block(file, k))
  }

  ghost predicate IsClientPacket(name: seq<byte>, p: Packet) {
    p == Request(name) || exists b: uint16 :: b != 0 && p == Ack(b)
  }

  ghost predicate ServerInv(file: seq<byte>, s: Server) {
    s.AwaitAck? ==>
      && s.content == file && s.lastLen <= s.pos <= |file|
      && var start := s.pos - s.lastLen;
         && start % BLK_SIZE == 0
         && start / BLK_SIZE < 0x1_0000
         && s.lastLen == Min(BLK_SIZE, |file| - start)
         && s.blNum == (start / BLK_SIZE + 1) % 0x1_0000
  }

  ghost predicate ClientInv(file: seq<byte>, c: Client) {
    && 0 <= c.num < 0x1_0000
    && (c.status == Running ==> BLK_SIZE * c.num <= |file| && c.out == file[..BLK_SIZE * c.num])
    && (c.status == Done ==> c.out == file && c.num == |file| / BLK_SIZE + 1)
    && c.status != Failed
  }

  ghost predicate Inv(fs: FileSystem, name: seq<byte>, s: System) {
    && ServerShape(s.server)
    && (forall p :: p in s.toServer ==> IsClientPacket(name, p))
    && if name in fs then
         && ServerInv(fs[name], s.server)
         && ClientInv(fs[name], s.client)
         && (forall p :: p in s.toClient ==> IsFileBlock(fs[name], p))
       else
         && s.server == Idle
         && s.client.out == [] && s.client.status != Done
         && (forall p :: p in s.toClient ==> p == ErrorPacket())
  }

  lemma RequestParsed(name: seq<byte>)
    requires 0 !in name
    ensures CString(Request(name)[2..]) == name
  {
    assert Request(name)[2..] == name + [0] + (OCTET + [0]);
    RequestRoundTrip(name, OCTET + [0]);
  }

  lemma AckBytes(b: uint16)
    ensures BlockNumber(Ack(b)) == b
  {
  }

  lemma SendBlockIsFileBlock(file: seq<byte>, pos: nat, blNum: uint16)
    requires pos <= |file| && pos % BLK_SIZE == 0 && pos / BLK_SIZE < 0x1_0000
    requires blNum == (pos / BLK_SIZE) % 0x1_0000
    ensures ServerInv(file, SendBlock(file, pos, blNum).0)
    ensures SendBlock(file, pos, blNum).1.Some? && IsFileBlock(file, SendBlock(file, pos, blNum).1.value)
  {
    var k := pos / BLK_SIZE + 1;
    var b: uint16 := (blNum + 1) % 0x1_0000;
    assert Unwrap(b) == k;
    var p := SendBlock(file, pos, blNum).1.value;
    assert BlockNumber(p) == b;
    assert Block(file, k) == file[pos..pos + Min(BLK_SIZE, |file| - pos)];
  }

  lemma ServerKeepsInv(fs: FileSystem, name: seq<byte>, s: System, s': System, p: Packet)
    requires 0 !in name && Inv(fs, name, s) && ServerReceives(fs, s, s', p)
    ensures Inv(fs, name, s')
  {
    if name in fs {
      ServerStepOk(fs, name, s.server, p);
      hide ServerInv, ClientInv, IsFileBlock, ServerStep;
    } else {
      RequestParsed(name);
    }
  }

  /** The server's state and what it sends belong to the file. */
  lemma ServerStepOk(fs: FileSystem, name: seq<byte>, s: Server, p: Packet)
    requires 0 !in name && name in fs && IsClientPacket(name, p) && ServerShape(s) && ServerInv(fs[name], s)
    ensures var (s', out) := ServerStep(fs, s, p);
      ServerShape(s') && ServerInv(fs[name], s') && (out.Some? ==> IsFileBlock(fs[name], out.value))
  {
    var file := fs[name];
    RequestParsed(name);
    if s.Idle? {
      if p == Request(name) { SendBlockIsFileBlock(file, 0, 0); }
    } else if p != Request(name) {
      var b: uint16 :| b != 0 && p == Ack(b);
      AckBytes(b);
      if b == s.blNum && s.lastLen == BLK_SIZE {
        assert s.pos / BLK_SIZE == (s.pos - BLK_SIZE) / BLK_SIZE + 1;
        SendBlockIsFileBlock(file, s.pos, b);
      }
    }
  }

  lemma ClientKeepsInv(fs: FileSystem, name: seq<byte>, s: System, s': System, p: Packet)
    requires Inv(fs, name, s) && ClientReceives(s, s', p)
    ensures Inv(fs, name, s')
  {
    if name in fs && s.client.status == Running {
      var file, c := fs[name], s.client;
      var b := BlockNumber(p);
      if c.num + 1 == b {
        var k := Unwrap(b);
        assert k == c.num + 1;
        assert p[HEADER..] == Block(file, k);
        assert [p[0], 4] + p[2..HEADER] == Ack(b);
        assert file[..BLK_SIZE * c.num] + Block(file, k) == file[..Min(BLK_SIZE * k, |file|)];
        if |p| < HEADER + BLK_SIZE {
          assert |file| / BLK_SIZE == c.num;
        }
      }
    }
  }

  lemma NextKeepsInv(fs: FileSystem, name: seq<byte>, s: System, s': System)
    requires 0 !in name && Inv(fs, name, s) && Next(fs, s, s')
    ensures Inv(fs, name, s')
  {
    if p :| ServerReceives(fs, s, s', p) {
      ServerKeepsInv(fs, name, s, s', p);
    } else if p :| ClientReceives(s, s', p) {
      ClientKeepsInv(fs, name, s, s', p);
    }
  }

  lemma {:induction false} RunKeepsInv(fs: FileSystem, name: seq<byte>, run: seq<System>)
    requires 0 !in name && IsRun(fs, name, run)
    ensures Inv(fs, name, run[|run| - 1])
  {
    if |run| > 1 {
      var prefix := run[..|run| - 1];
      RunKeepsInv(fs, name, prefix);
      NextKeepsInv(fs, name, prefix[|prefix| - 1], run[|run| - 1]);
    }
  }

  // ---------- main results ----------

  /**
   Whatever the network loses, repeats or reorders (the request included), the client has
   written a prefix of the requested file, and all of it once it reports completion.
  */
  lemma TransferSafety(fs: FileSystem, name: seq<byte>, run: seq<System>)
    requires 0 !in name && IsRun(fs, name, run)
    ensures var c := run[|run| - 1].client;
      && (name in fs ==> c.out <= fs[name] && c.status != Failed)
      && (name !in fs ==> c.out == [])
      && (c.status == Done ==> name in fs && c.out == fs[name])
  {
    RunKeepsInv(fs, name, run);
  }

  /** Files of 65535 full blocks or more never complete: the client never accepts label 0. */
  lemma CompletionNeedsShortFile(fs: FileSystem, name: seq<byte>, run: seq<System>)
    requires 0 !in name && IsRun(fs, name, run) && run[|run| - 1].client.status == Done
    ensures name in fs && |fs[name]| / BLK_SIZE < 0xffff
  {
    RunKeepsInv(fs, name, run);
  }

  /** State of the loss-free exchange after `k` blocks have been sent and `k - 1` of them accepted. */
  ghost predicate BlockInFlight(file: seq<byte>, k: nat, s: Server, c: Client, p: Packet) {
    && ServerInv(file, s) && s.AwaitAck? && k >= 1
    && s.pos - s.lastLen == BLK_SIZE * (k - 1) <= |file| && k <= 0xffff
    && ClientInv(file, c) && c.status == Running && c.num == k - 1
    && p == Data(k, Block(file, k))
  }

  /** One loss-free round trip: the block is accepted and either ends the transfer or brings the next block. */
  lemma Exchange(fs: FileSystem, file: seq<byte>, k: nat, s: Server, c: Client, p: Packet)
    requires BlockInFlight(file, k, s, c, p) && |file| / BLK_SIZE < 0xffff
    ensures var (c', ack) := ClientStep(c, p);
      && ack == Some(Ack(k)) && ServerShape(s)
      && var (s', next) := ServerStep(fs, s, ack.value);
         if k == |file| / BLK_SIZE + 1 then c'.status == Done && c'.out == file && s' == Idle && next == None
         else next.Some? && BlockInFlight(file, k + 1, s', c', next.value)
  {
    AcceptBlock(file, k, c, p);
    AckBytes(k);
    hide Block, ClientStep, SendBlock;
    if k != |file| / BLK_SIZE + 1 {
      SendBlockIsFileBlock(file, s.pos, k);
      NextInFlight(file, s.pos, k);
    }
  }

  /** The client appends the block in flight and acknowledges it; it is done after a short one. */
  lemma AcceptBlock(file: seq<byte>, k: nat, c: Client, p: Packet)
    requires 1 <= k <= 0xffff && BLK_SIZE * (k - 1) <= |file| && p == Data(k, Block(file, k))
    requires c.status == Running && c.num == k - 1 && c.out == file[..BLK_SIZE * (k - 1)]
    ensures var (c', ack) := ClientStep(c, p);
      && ack == Some(Ack(k)) && c'.num == k && c'.out == file[..Min(BLK_SIZE * k, |file|)]
      && c'.status == if k == |file| / BLK_SIZE + 1 then Done else Running
  {
    assert BlockNumber(p) == k && p[HEADER..] == Block(file, k);
    assert [p[0], 4] + p[2..HEADER] == Ack(k);
    assert file[..BLK_SIZE * (k - 1)] + Block(file, k) == file[..Min(BLK_SIZE * k, |file|)];
  }

  lemma NextInFlight(file: seq<byte>, pos: nat, k: nat)
    requires pos == BLK_SIZE * k <= |file| && k < 0xffff
    ensures SendBlock(file, pos, k).1 == Some(Data(k + 1, Block(file, k + 1)))
    ensures var s := SendBlock(file, pos, k).0; s.AwaitAck? && s.pos - s.lastLen == BLK_SIZE * k
  {
    assert Block(file, k + 1) == file[pos..pos + Min(BLK_SIZE, |file| - pos)];
  }

  /**
   On a loss-free FIFO network the transfer takes `|file| / 512 + 1` exchanges, an exact
   multiple of 512 included, and ends with both sides finished.
  */
  method LockStepTransfer(server: TftpServer, client: TftpClient, name: seq<byte>) returns (exchanges: nat)
    requires server.Valid() && server.State() == Idle
    requires client.State() == Client(0, false, [], Running)
    requires 0 !in name && name in server.fs && |server.fs[name]| / BLK_SIZE < 0xffff
    modifies server, client
    ensures client.status == Done && client.file == server.fs[name]
    ensures server.State() == Idle
    ensures exchanges == |server.fs[name]| / BLK_SIZE + 1
  {
    ghost var file := server.fs[name];
    RequestParsed(name);
    SendBlockIsFileBlock(file, 0, 0);
    NextInFlight(file, 0, 0);
    hide Block, SendBlock, ClientStep, CString;
    var inFlight := server.OnDatagram(Request(name));
    exchanges := 0;
    while inFlight.Some?
      invariant server.Valid()
      invariant if inFlight.None?
        then client.status == Done && client.file == file && server.State() == Idle
             && exchanges == |file| / BLK_SIZE + 1
        else BlockInFlight(file, exchanges + 1, server.State(), client.State(), inFlight.value)
      decreases if inFlight.Some? then 1 else 0, 0x1_0000 - exchanges
    {
      Exchange(server.fs, file, exchanges + 1, server.State(), client.State(), inFlight.value);
      var ack := client.OnDatagram(inFlight.value);
      inFlight := server.OnDatagram(ack.value);
      exchanges := exchanges + 1;
    }
  }

  ghost predicate Chain(fs: FileSystem, run: seq<System>) {
    |run| > 0 && forall i :: 0 <= i < |run| - 1 ==> Next(fs, run[i], run[i + 1])
  }

  /** With no losses, a state with a block in flight runs on to completion. */
  lemma FinishRun(fs: FileSystem, file: seq<byte>, k: nat, s: System, p: Packet) returns (run: seq<System>)
    requires BlockInFlight(file, k, s.server, s.client, p) && p in s.toClient
    requires |file| / BLK_SIZE < 0xffff
    ensures Chain(fs, run) && run[0] == s && run[|run| - 1].client.status == Done
    decreases |file| - BLK_SIZE * (k - 1)
  {
    Exchange(fs, file, k, s.server, s.client, p);
    var (c', ack) := ClientStep(s.client, p);
    var s1 := s.(client := c', toServer := Emit(s.toServer, ack));
    assert ClientReceives(s, s1, p);
    run := [s, s1];
    if k != |file| / BLK_SIZE + 1 {
      var (sv', next) := ServerStep(fs, s1.server, ack.value);
      var s2 := s1.(server := sv', toClient := Emit(s1.toClient, next));
      assert ServerReceives(fs, s1, s2, ack.value);
      var rest := FinishRun(fs, file, k + 1, s2, next.value);
      run := run + rest;
    }
  }

  /** The request arrives and is answered with the first block. */
  lemma Requested(fs: FileSystem, name: seq<byte>) returns (s: System, p: Packet)
    requires 0 !in name && name in fs
    ensures Next(fs, Initial(name), s) && p in s.toClient && BlockInFlight(fs[name], 1, s.server, s.client, p)
  {
    var s0 := Initial(name);
    RequestParsed(name);
    SendBlockIsFileBlock(fs[name], 0, 0);
    NextInFlight(fs[name], 0, 0);
    var (sv, out) := ServerStep(fs, Idle, Request(name));
    s, p := s0.(server := sv, toClient := Emit({}, out)), out.value;
    assert ServerReceives(fs, s0, s, Request(name));
  }

  lemma CompletingRun(fs: FileSystem, name: seq<byte>) returns (run: seq<System>)
    requires 0 !in name && name in fs && |fs[name]| / BLK_SIZE < 0xffff
    ensures IsRun(fs, name, run) && run[|run| - 1].client.status == Done
  {
    var s, p := Requested(fs, name);
    var rest := FinishRun(fs, fs[name], 1, s, p);
    hide Next, Initial;
    run := [Initial(name)] + rest;
    assert run[|rest|] == rest[|rest| - 1];
  }

  /** Exactly the files of fewer than 65535 full blocks can be completed by some run. */
  lemma CompletableIff(fs: FileSystem, name: seq<byte>)
    requires 0 !in name
    ensures (exists run: seq<System> :: IsRun(fs, name, run) && run[|run| - 1].client.status == Done)
            <==> name in fs && |fs[name]| / BLK_SIZE < 0xffff
  {
    forall run: seq<System> | IsRun(fs, name, run) && run[|run| - 1].client.status == Done
      ensures name in fs && |fs[name]| / BLK_SIZE < 0xffff
    {
      CompletionNeedsShortFile(fs, name, run);
    }
    if name in fs && |fs[name]| / BLK_SIZE < 0xffff {
      var run := CompletingRun(fs, name);
    }
  }
}
