/**
 Requests that fail, and what each end makes of a datagram: over whole runs of the file transfer, and for
 the datagrams that end it.
*/
module TftpLaws {
  import opened Common
  import opened Tftp

  // ---------- missing files ----------

  /** What the client prints: the text behind the header, up to the NUL. Its code is 1, file not found. */
  lemma ErrorMessage()
    ensures var p := ErrorPacket();
      && |p| >= HEADER && p[0] == 0 && p[1] == 5 && BlockNumber(p) == 1
      && CString(p[HEADER..]) == FILE_NOT_FOUND
  {
    var p := ErrorPacket();
    assert p[HEADER..] == FILE_NOT_FOUND + [0] + [];
    RequestRoundTrip(FILE_NOT_FOUND, []);
  }

  /** Behind the name the request says `octet`. */
  lemma RequestMode(name: seq<byte>)
    requires 0 !in name
    ensures var p := Request(name);
      p[0] == 0 && p[1] == 1 && CString(p[2..]) == name && CString(p[2 + |name| + 1..]) == OCTET
  {
    RequestParsed(name);
    assert Request(name)[2 + |name| + 1..] == OCTET + [0] + [];
    RequestRoundTrip(OCTET, []);
  }

  /** The request for a missing file arrives, the error comes back, and the client gives up. */
  lemma FailingRun(fs: FileSystem, name: seq<byte>) returns (run: seq<System>)
    requires 0 !in name && name !in fs
    ensures IsRun(fs, name, run) && run[|run| - 1].client.status == Failed
  {
    RequestParsed(name);
    var s0 := Initial(name);
    var s1 := s0.(toClient := Emit({}, Some(ErrorPacket())));
    assert ServerReceives(fs, s0, s1, Request(name));
    ErrorMessage();
    var s2 := s1.(client := s1.client.(status := Failed));
    assert ClientReceives(s1, s2, ErrorPacket());
    run := [s0, s1, s2];
  }

  /** The client fails in some run exactly if the file does not exist, and then it can have written nothing. */
  lemma FailableIff(fs: FileSystem, name: seq<byte>)
    requires 0 !in name
    ensures (exists run: seq<System> :: IsRun(fs, name, run) && run[|run| - 1].client.status == Failed)
            <==> name !in fs
  {
    forall run: seq<System> | IsRun(fs, name, run) && run[|run| - 1].client.status == Failed ensures name !in fs {
      TransferSafety(fs, name, run);
    }
    if name !in fs {
      var run := FailingRun(fs, name);
    }
  }

  // ---------- the local file ----------

  /** A datagram that carries file data. */
  predicate IsData(p: Packet) {
    |p| >= HEADER && p[1] == 3
  }

  /** The `i`-th step of the run hands a waiting client some file data. */
  ghost predicate DataArrives(run: seq<System>, i: nat, p: Packet) {
    && i + 1 < |run| && IsData(p) && run[i].client.status == Running
    && ClientReceives(run[i], run[i + 1], p)
  }

  /** The client creates its file with the first data that reaches it, whichever block that is, and not before. */
  lemma {:induction false} CreatedIff(fs: FileSystem, name: seq<byte>, run: seq<System>)
    requires IsRun(fs, name, run)
    ensures run[|run| - 1].client.created ==> exists i: nat, p :: DataArrives(run, i, p)
    ensures (exists i: nat, p :: DataArrives(run, i, p)) ==> run[|run| - 1].client.created
  {
    if |run| > 1 {
      var n := |run| - 1;
      var front := run[..n];
      CreatedIff(fs, name, front);
      hide Next, Initial, ClientReceives;
      forall i: nat, p | i + 1 < n ensures DataArrives(run, i, p) <==> DataArrives(front, i, p) {}
      LastArrival(fs, run, n - 1);
    }
  }

  /** A step creates the file exactly if it hands file data to a client that waits and has no file yet. */
  lemma LastArrival(fs: FileSystem, run: seq<System>, i: nat)
    requires i + 1 < |run| && Next(fs, run[i], run[i + 1])
    ensures run[i + 1].client.created ==> run[i].client.created || exists p :: DataArrives(run, i, p)
    ensures run[i].client.created || (exists p :: DataArrives(run, i, p)) ==> run[i + 1].client.created
  {
    hide ServerStep;
    var s, s' := run[i], run[i + 1];
    if p :| ClientReceives(s, s', p) {
      if IsData(p) && s.client.status == Running { assert DataArrives(run, i, p); }
    }
  }

  /** No file is left behind by a request for a missing one, and none is written before it is created. */
  lemma {:induction false} NothingCreated(fs: FileSystem, name: seq<byte>, run: seq<System>)
    requires 0 !in name && IsRun(fs, name, run)
    ensures var c := run[|run| - 1].client;
      (name !in fs ==> !c.created) && (c.out != [] || c.status == Done ==> c.created)
  {
    if |run| > 1 {
      var n := |run| - 1;
      NothingCreated(fs, name, run[..n]);
      RunKeepsInv(fs, name, run[..n]);
      assert Next(fs, run[n - 1], run[n]);
      ErrorMessage();
    }
  }

  // ---------- what keeps the server busy ----------

  /** The datagram asks for this file. */
  predicate Asks(p: Packet, file: seq<byte>) {
    |p| >= 2 && p[1] == 1 && CString(p[2..]) == file
  }

  predicate Acknowledges(p: Packet, b: uint16) {
    |p| >= HEADER && p[1] == 4 && BlockNumber(p) == b
  }

  /**
   A datagram keeps the server busy exactly if it asks an idle server for an existing file, or acknowledges the full
   block that was sent last: any other one, a repeated request or a late acknowledgement included, ends the
   transfer without an answer, and what is not asked for is never sent.
  */
  lemma ServerBusyIff(fs: FileSystem, s: Server, p: Packet)
    requires ServerShape(s)
    ensures var (s', out) := ServerStep(fs, s, p);
      && (s'.AwaitAck? <==>
            if s.Idle? then exists file :: file in fs && Asks(p, file)
            else s.lastLen >= BLK_SIZE && Acknowledges(p, s.blNum))
      && (out.Some? <==> s'.AwaitAck? || (s.Idle? && exists file :: file !in fs && Asks(p, file)))
      && (s'.Idle? && out.Some? ==> out.value == ErrorPacket())
  {
    if s.Idle? && |p| >= 2 && p[1] == 1 { assert Asks(p, CString(p[2..])); }
  }
}
