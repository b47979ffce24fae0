# Verified models of the protocol programs and of the Go cores

This project models, in Dafny 4.11, the stateful code of the repository and proves what it is for:
the author's own protocol programs in C (a lock-step TFTP client and server, a userspace TCP echo
stack with its checksums and retransmission timer) and ten stateful pieces of the vendored Go tree
(the context cancellation tree, the synchronous pipe, in-place HTML unescaping, `bytes.Buffer`,
`bufio` Reader, Writer and Scanner, integer formatting, the `bytes` split and join family, and an
exit-code filter). `dafny verify dfyconfig.toml` checks all of it.

Code that updates state in place is a class or a method over arrays here too. Its contract ties the
new state to a function of the old one, and the lemmas are about that function: about one call,
about every reachable state, or about whole runs. Concurrent code (the network between the TFTP
ends, the pipe, the context tree, the TCP table under segments and timer ticks) is a state machine
whose runs are sequences of states; the results hold for every run.

| file | models |
|---|---|
| Tftp.dfy, TftpLaws.dfy | both TFTP programs, joined by a network that loses, repeats and reorders; missing files and unexpected datagrams |
| Checksum.dfy, TcpFrame.dfy, TcpSegment.dfy, TcpStack.dfy, TcpLimits.dfy | the Internet checksum, frames rewritten in place, the segments the stack sends, the connection table with its timer, and where the stack falls short of the protocol |
| ContextTree.dfy, ContextRuns.dfy, ContextLaws.dfy, ContextCauses.dfy | context derivation and the recursive cancel; registration, cancels and removals as interleaved steps; what holds in every run; deadlines and causes |
| Pipe.dfy, PipeErrors.dfy, PipeTransfers.dfy | io.Pipe, one step per channel, lock or error operation; which error a call returns; what each transfer hands over |
| HtmlEscape.dfy, HtmlLaws.dfy | EscapeString and the in-place UnescapeString; what they mean to a reader of the text |
| Streams.dfy | readers and writers as their interfaces promise them: arbitrary chunks, stalls, short writes |
| Buffer.dfy, BufferRuns.dfy, TextLines.dfy, BufReader.dfy, BufWriter.dfy, Scanner.dfy | the buffered layers |
| FmtInteger.dfy, FmtLaws.dfy, BytesSplit.dfy, ExitCodeFilter.dfy, ExitCodeLaws.dfy | formatting, splitting, filtering |

## What the models assume

- TFTP: every datagram has at least its 4 header bytes, file names fit their buffer and end in a
  NUL, files are read without errors and do not change while they are sent.
- TCP: a frame is as long as its headers say and fits the 1500-byte save buffer, a segment answered
  with bare headers (SYN, FIN) carries no IP options, and a SYN from a new peer finds a free slot.
  Checksums load 16-bit words with the low byte first, as on the little-endian machines the program
  runs on; `Checksum.ByteOrderIndependence` says why the result does not depend on it.
- Context: a cancel takes its lock in one step, visits each child in one, and releases its lock in
  one; any other goroutine may step in between, unless it needs a lock that is held. The other
  critical sections, which call nothing that can be interrupted, are single steps. Deadlines fire
  at any time.
- HTML: the entity tables are a parameter. They are assumed to have the properties that the package's
  own table test (html/entity_test.go:16-37) demands, and to hold the three names that EscapeString
  writes.
- Buffered I/O: sources and sinks keep their interface contracts, and sources are finite: they end
  with EOF or by failing at any point. They may stall (return nothing without an error) any number of times up to a bound of their own.
- Integers are unbounded except where the code's width matters: the 16-bit block number, the 32-bit
  sequence numbers, timer counters and checksum accumulator, the 8-bit retry counter, the 32-bit
  rune accumulator, the 64-bit values of integer formatting, and the limits behind ErrTooLarge and
  the overflow panics.

## Where the code departs from its own documentation or standard

The model follows the code in each case, and a lemma says exactly when.

- A file of 65535 or more full blocks never completes: the client's block counter is an int and
  never accepts label 0 (`Tftp.CompletableIff`).
- A FIN that comes with acknowledged data is not answered: the echo overwrites the flags before
  they are tested again (`TcpLimits.FinClosesIff`, and a run in `TcpLimits.FinUnanswered`).
- A reply does not acknowledge all of a segment that mixes payload, SYN and FIN: data beside a SYN,
  or a FIN beside data, stays unacknowledged (`TcpLimits.ReplyAcknowledgesIff`).
- A connection in LAST_ACK is freed by any segment, also one that does not acknowledge the FIN
  (`TcpLimits.CloseAcknowledgedIff`, and a run in `TcpLimits.CloseUnacknowledged`).
- Sequence numbers of data are never checked: what is echoed is the peer's stream exactly when every
  segment starts where the one before it ended (`TcpLimits.EchoIsStreamIff`,
  `TcpLimits.CarriedIsStreamIff`), and a segment that the network delivers twice is echoed twice
  (a run in `TcpLimits.DuplicateEchoed`).
- The first cancellation of a context or of an ancestor is documented to set its cause. A later
  request for a descendant still sets its own there if it takes the descendant's lock before the
  loop of the first one does (`ContextLaws.FirstRequestDecidesIff`, `ContextLaws.AncestorDecidesIff`,
  and a run in `ContextLaws.ChildOvertakes`).
- A numeric character reference beyond U+10FFFF should become U+FFFD; the value wraps at 32 bits,
  so some become another character (`HtmlEscape.HugeReferenceIff`, `HtmlEscape.HugeReferenceExample`).
- A numeric reference should be replaced exactly if it has digits; the test counts characters
  instead, so &#9x stays and &#x; is replaced (`HtmlEscape.DigitsReplacedIff`,
  `HtmlEscape.OneDigitKept`, `HtmlEscape.NoDigitReplaced`).
- `bytes.Buffer.UnreadByte` should fail if the last read returned an error or no byte. After
  ReadBytes it never fails, so it keeps the rule exactly when the delimiter was found
  (`BufferRuns.UnreadAfterReadBytes`). After a Grow, which is no write, it may give no byte back
  (`BufferRuns.UnreadAfterGrow`).
- `bufio.Reader.ReadLine` is documented to return a line without its end only where the input ends.
  When the source brings nothing 100 times running in the middle of a line, it drops that error and
  returns what it has as a finished line: the line is cut in two (`BufReader.ReadAllLines`).
- A read on a pipe whose write side was closed is documented to return the writer's error or EOF. It
  returns ErrClosedPipe instead if the read side was closed too when the read looked, and writes behave likewise
  (`PipeErrors.ReadErrorExact`, `PipeErrors.WriteErrorExact`).
- `bytes.Repeat` is documented to panic if the count is negative or the result overflows. It panics already when
  one more byte in each copy would overflow (`BytesSplit.RepeatPanicsIff`, `BytesSplit.RepeatPanicsEarly`).

## Model

| member | source | states |
|---|---|---|
| Tftp.TransferSafety | 01_socket_underlying_c/03_tftp/01_tftp_client.c:35-75 | In every run of client, server and lossy, duplicating, reordering network, the client has written a prefix of the requested file, never fails on an existing file, and has written all of it once it reports completion; for a missing file it writes nothing |
| Tftp.CompletableIff | 01_socket_underlying_c/03_tftp/01_tftp_client.c:55-73 | Some run completes the transfer if and only if the file exists and has fewer than 65535 full blocks |
| Tftp.CompletionNeedsShortFile | 01_socket_underlying_c/03_tftp/01_tftp_client.c:55-73 | No run whatsoever completes a file of 65535 full blocks or more |
| Tftp.LockStepTransfer | 01_socket_underlying_c/03_tftp/02_tftp_server.c:60-111 | Without losses the two programs finish any shorter file, exact multiples of 512 included, in length/512+1 exchanges, with both sides done and the file complete |
| Tftp.Exchange | 01_socket_underlying_c/03_tftp/02_tftp_server.c:67-111 | One round trip accepts the block in flight and either ends the transfer with the whole file or puts the next block in flight |
| Tftp.RunKeepsInv | 01_socket_underlying_c/03_tftp/02_tftp_server.c:60-111 | Every reachable state satisfies the protocol invariant over both ends and all packets in flight: each data packet carries exactly the block its 16-bit label stands for, with label 0 only as block 65536, and no acknowledgement of 0 exists |
| Tftp.RequestRoundTrip | 01_socket_underlying_c/03_tftp/02_tftp_server.c:48-53 | The server recovers the requested name from the request datagram, whatever follows the NUL |
| TftpLaws.RequestMode | 01_socket_underlying_c/03_tftp/01_tftp_client.c:30 | The request has opcode 1 and, behind the name, the mode octet |
| TftpLaws.FailableIff | 01_socket_underlying_c/03_tftp/01_tftp_client.c:41-45 | Some run ends with the client giving up if and only if the requested file does not exist |
| TftpLaws.ErrorMessage | 01_socket_underlying_c/03_tftp/02_tftp_server.c:15-21 | The error datagram carries code 1, and the text the client prints from it is "file not found" |
| TftpLaws.CreatedIff | 01_socket_underlying_c/03_tftp/01_tftp_client.c:46-54 | In every run the client has created its file if and only if some data packet reached it while it was waiting, whichever block that was |
| TftpLaws.NothingCreated | 01_socket_underlying_c/03_tftp/01_tftp_client.c:46-75 | In every run a request for a missing file creates none, and nothing is written or completed without one |
| TftpLaws.ServerBusyIff | 01_socket_underlying_c/03_tftp/02_tftp_server.c:46-111 | A datagram leaves the server with a transfer under way if and only if it asks an idle server for an existing file or acknowledges the full block sent last; any other ends the transfer unanswered, and an answer is a block or, to an idle server's request for a missing file, the error |
| Tftp.TftpServer.OnDatagram | 01_socket_underlying_c/03_tftp/02_tftp_server.c:35-117 | The server loop's in-place updates for one datagram are the server step of the state machine: request, wrong packet, matching or stale ACK, last block, missing file |
| Tftp.TftpServer.SendNext | 01_socket_underlying_c/03_tftp/02_tftp_server.c:69-85 | Reads the next block, advances the wrapping 16-bit counter and produces the data packet of that block |
| Tftp.TftpClient.OnDatagram | 01_socket_underlying_c/03_tftp/01_tftp_client.c:35-75 | The client loop's updates for one datagram are the client step: error packet, block acceptance, append, acknowledgement, stop rule |
| Checksum.TwoFolds | 04_protocolstack_underlying_c/second_version/src/icmp.c:20-23 | Two folds of any 32-bit sum always leave a 16-bit value, and it is the ones' complement residue of the sum |
| Checksum.Compute | 04_protocolstack_underlying_c/second_version/src/icmp.c:10-24 | The accumulation loop over a buffer range, odd last byte included, computes the ones' complement checksum of its words without the 32-bit sum wrapping |
| Checksum.ChecksumVerifies | 04_protocolstack_underlying_c/second_version/src/icmp.c:34-41 | Storing the checksum in the field that was zero while it was computed makes the whole buffer check to 0 (section 1 of RFC 1071) |
| Checksum.ByteOrderIndependence | 04_protocolstack_underlying_c/second_version/src/icmp.c:10-24 | The checksum of the byte-swapped words is the byte-swapped checksum (section 2(B) of RFC 1071) |
| Checksum.SwapSum | 04_protocolstack_underlying_c/second_version/src/icmp.c:14-19 | Swapping the bytes of every word multiplies the sum by 256 modulo 65535 and keeps it zero or non-zero |
| Checksum.ZeroPadding | 04_protocolstack_underlying_c/second_version/src/icmp.c:14-19 | An odd last byte counts as if a zero byte followed it, and zero words change nothing, so that padding leaves the checksum alone |
| TcpFrame.ReplyFrame | 04_protocolstack_underlying_c/second_version/src/tcp.c:46-68 | A reply differs from the frame it answers only in addresses, ports and the two checksums, and both the IP and the pseudo-header checksum of the result verify to 0 |
| TcpFrame.ReplyAddresses | 04_protocolstack_underlying_c/second_version/src/tcp.c:47-61 | Source and destination MAC address, IP address and port of the reply are those of the request exchanged |
| TcpFrame.ReplyTcpPacket | 04_protocolstack_underlying_c/second_version/src/tcp.c:46-68 | The swaps and checksum updates in the receive buffer produce that reply, and the bytes written are the frame as long as its IP header says |
| TcpFrame.TcpChecksum | 04_protocolstack_underlying_c/second_version/src/tcp.c:211-227 | Copying pseudo-header and segment behind one another and summing gives the checksum of their concatenation |
| TcpFrame.PseudoFields | 04_protocolstack_underlying_c/second_version/src/tcp.c:211-222 | The summed bytes are source address, destination address, a zero byte, the protocol, the segment length in network order and the segment (section 3.1 of RFC 9293) |
| TcpSegment.EchoSays | 04_protocolstack_underlying_c/second_version/src/tcp.c:162-169 | The echo written to the wire verifies, fits the save buffer, and carries the received payload with the numbers asked for and flags ACK and PSH |
| TcpSegment.ControlSays | 04_protocolstack_underlying_c/second_version/src/tcp.c:129-134 | The SYN+ACK and FIN+ACK cut from a received frame verify, carry no payload, and have the numbers and flags asked for |
| TcpSegment.StampFrame | 04_protocolstack_underlying_c/second_version/src/tcp.c:164-166 | Writing flags and numbers keeps a frame well formed, with the same lengths and payload, and they read back |
| TcpSegment.EchoReturns | 04_protocolstack_underlying_c/second_version/src/tcp.c:46-68 | The echo on the wire goes back to the sender of the data: MAC addresses, IP addresses and ports are exchanged, frame type, IP identification, protocol and lifetime kept |
| TcpSegment.ControlReturns | 04_protocolstack_underlying_c/second_version/src/tcp.c:46-68 | The same for SYN+ACK and FIN+ACK |
| TcpSegment.EchoInPlace | 04_protocolstack_underlying_c/second_version/src/tcp.c:164-169 | Building the echo in the receive buffer gives that segment and leaves the new flags where they are read again |
| TcpSegment.ControlInPlace | 04_protocolstack_underlying_c/second_version/src/tcp.c:129-134 | The same for the bare control segments |
| TcpStack.SequenceSpaceTiled | 04_protocolstack_underlying_c/second_version/src/tcp.c:123-189 | In every reachable state the fresh segments of a connection (a SYN+ACK, echoes, then at most one FIN+ACK) start at 5658 and follow one another without gap or overlap modulo 2^32, and send_next is 5659 plus the bytes echoed, plus one in LAST_ACK |
| TcpStack.RetransmitsLatestSegment | 04_protocolstack_underlying_c/second_version/src/tcp.c:84-102 | In every reachable state a timer retransmission is byte for byte the connection's most recent fresh segment, both its checksums verify, and no ACK equal to send_next has arrived since that segment (section 3.1 of RFC 9293) |
| TcpStack.TableConsistent | 04_protocolstack_underlying_c/second_version/src/tcp.c:20-205 | In every reachable state used slots have distinct 4-tuples and one of three states, unused slots have no active timer, a used slot's timer runs if and only if no ACK equal to its send_next has arrived since its latest segment, and without it the slot is ESTABLISHED |
| TcpStack.EstablishedByHandshake | 04_protocolstack_underlying_c/second_version/src/tcp.c:149-158 | In every reachable state a used slot is in SYN_RCVD if and only if its SYN+ACK is all it has sent and no ACK of 5659 has arrived since; an ESTABLISHED slot that has sent nothing else has received that ACK and its timer is off |
| TcpStack.HandshakeFirst | 04_protocolstack_underlying_c/second_version/src/tcp.c:149-189 | In every run a slot that has sent more than its SYN+ACK was, in an earlier state, a slot that had sent only that and had received the ACK of 5659: nothing is echoed and no FIN answered without a completed handshake |
| TcpStack.AnsweredIff | 04_protocolstack_underlying_c/second_version/src/tcp.c:123-189 | A segment is answered if and only if it is a SYN from a new peer or, on an established connection, a FIN or data with an ACK; any other there leaves all but the timer as it was, which stops only on an ACK of send_next |
| TcpStack.SameConnectionIff | 04_protocolstack_underlying_c/second_version/src/tcp.c:20-27 | Two segments belong to the same connection if and only if both addresses and both ports agree |
| TcpStack.AnswerReturns | 04_protocolstack_underlying_c/second_version/src/tcp.c:46-68 | Whatever handle_tcp writes in answer to a segment goes back to its sender with addresses and ports exchanged |
| TcpStack.TimerBacksOff | 04_protocolstack_underlying_c/second_version/src/tcp.c:70-107 | While a timer is active its retry count is at most 5, its period is 100 times 2 to the retry count, and the count stays below the period (section 5, rule 5.5, of RFC 6298) |
| TcpStack.RetransmissionSchedule | 04_protocolstack_underlying_c/second_version/src/tcp.c:70-107 | From a freshly started timer, with no segment arriving, exactly ticks 100, 300, 700, 1500 and 3100 resend the saved frame, and the slot is freed exactly at tick 6300 |
| TcpLimits.FinClosesIff | 04_protocolstack_underlying_c/second_version/src/tcp.c:159-189 | A FIN moves an established connection to LAST_ACK if and only if it does not come with acknowledged data |
| TcpLimits.FinUnanswered | 04_protocolstack_underlying_c/second_version/src/tcp.c:123-189 | A run that reaches an ESTABLISHED slot, and a 55-byte frame with one byte of data, ACK and FIN: the byte is echoed, the FIN neither answered nor acknowledged, and the slot stays ESTABLISHED |
| TcpLimits.ReplyAcknowledgesIff | 04_protocolstack_underlying_c/second_version/src/tcp.c:123-188 | Every reply verifies, carries the received payload if it is an echo and none otherwise, and acknowledges the whole sequence space of the segment it answers if and only if that segment has just one of payload, SYN and FIN |
| TcpLimits.CloseAcknowledgedIff | 04_protocolstack_underlying_c/second_version/src/tcp.c:190-198 | In LAST_ACK any segment frees the slot unanswered, and the state left behind is LISTEN if and only if the segment acknowledges the FIN |
| TcpLimits.CloseUnacknowledged | 04_protocolstack_underlying_c/second_version/src/tcp.c:190-198 | A run to LAST_ACK and on: a segment without any acknowledgement frees the slot, in a state other than LISTEN, and the FIN+ACK is not sent again |
| TcpLimits.EachEchoed | 04_protocolstack_underlying_c/second_version/src/tcp.c:160-171 | Over any sequence of data segments, every one gets its own frame, in order: it verifies, carries that segment's payload and acknowledges it |
| TcpLimits.EchoIsStreamIff | 04_protocolstack_underlying_c/second_version/src/tcp.c:160-171 | Over any sequence of data segments, the peer's bytes carried by the frames written, numbered by their acknowledgement numbers, are consecutive from recv_next, each once, if and only if every segment starts at the recv_next it meets |
| TcpLimits.CarriedIsStreamIff | 04_protocolstack_underlying_c/second_version/src/tcp.c:160-171 | In bytes: in order, the payloads written concatenate to the peer's stream from recv_next; out of order they do not, unless the stream has equal bytes at different numbers |
| TcpLimits.DuplicateEchoed | 04_protocolstack_underlying_c/second_version/src/tcp.c:160-171 | A run in which one byte is delivered twice: two frames are written, with the same payload and the same acknowledgement but consecutive sequence numbers, although the second segment did not start at recv_next |
| TcpStack.Stack.HandleTcp | 04_protocolstack_underlying_c/second_version/src/tcp.c:109-205 | The in-place handling of one segment changes only the slot of its connection (or the first free one for a new SYN), to the state, saved frame, timer and reply that the per-segment step describes |
| TcpStack.Stack.TimerTick | 04_protocolstack_underlying_c/second_version/src/tcp.c:70-93 | One tick advances every slot independently and resends exactly the saved frames that are due |
| TcpStack.Stack.FindTcp | 04_protocolstack_underlying_c/second_version/src/tcp.c:20-27 | Finds the first used slot with the 4-tuple, and reports none only if there is none |
| TcpStack.RunKeepsInv | 04_protocolstack_underlying_c/second_version/src/tcp.c:109-205 | Every reachable table satisfies the slot invariant that the results above are read from |
| ContextLaws.NearestRequestDecides | 02_go_sdk/go/src/context/context.go:462-566 | In every reachable state Err and Cause of every returned context, as soon as its lock is free to read them, are those of the request that took effect at it or else at its closest ancestor not separated from it by WithoutCancel; they are nil if there is none, or while a cancel above has not come by yet |
| ContextLaws.FirstRequestDecidesIff | 02_go_sdk/go/src/context/context.go:276-295 | The request that decides is the first one made in scope, as documented, if and only if no Done channel of an ancestor was closed when it took its lock |
| ContextLaws.AncestorDecidesIff | 02_go_sdk/go/src/context/context.go:242-249 | Once both report an error and their locks are free to read, a descendant in scope reports the error and the cause of its ancestor, as documented, unless a request took effect strictly between them (itself included), and then those of such a request; it has the ancestor's request if and only if there is none |
| ContextCauses.RequestReported | 02_go_sdk/go/src/context/context.go:536-566 | In every run the first cancel request to lock a context decides for good what it reports: its error, and the cause it gave or else the error itself |
| ContextCauses.DeadlineReported | 02_go_sdk/go/src/context/context.go:618-643 | A context made by WithDeadlineCause(parent, d, cause) with no earlier deadline above it reports, once its timer was the first to cancel it, DeadlineExceeded and that cause, or DeadlineExceeded as cause if none was given |
| ContextCauses.CancelFuncSetsNoCause | 02_go_sdk/go/src/context/context.go:614-643 | The CancelFunc of a context with a deadline sets no cause: what it cancels reports Canceled for both |
| ContextCauses.TimerIff | 02_go_sdk/go/src/context/context.go:618-643 | It has a timer that can fire if and only if the parent has no deadline sooner than d; with an equal one it does |
| ContextCauses.DeadlineIsEarliest | 02_go_sdk/go/src/context/context.go:618-657 | In every reachable state Deadline() is the earliest deadline among the context and its ancestors in scope, and there is none if and only if none of them has one |
| ContextCauses.DoneClosedIffErr | 02_go_sdk/go/src/context/context.go:438-458 | In every reachable state the Done channel of a readable returned context is closed if and only if its Err is not nil |
| ContextCauses.ChannelStays | 02_go_sdk/go/src/context/context.go:438-451 | In every run a Done channel once made stays and is the one that gets closed; only a context cancelled before its channel was made has the shared closed one |
| ContextLaws.ChildOvertakes | 02_go_sdk/go/src/context/context.go:536-566 | A run in which a child keeps its own cause although its parent was cancelled first, all locks being free at the end |
| ContextLaws.CancellationReachesDescendants | 02_go_sdk/go/src/context/context.go:462-566 | Once a context reports an error, every returned descendant in scope reports one without waiting, however registrations, cancels and removals interleaved |
| ContextLaws.WrittenOnce | 02_go_sdk/go/src/context/context.go:536-566 | No step of any run changes a non-nil err or the cause beside it, and a lock released after cancellation is not held by a cancel again |
| ContextLaws.RegistrationFindsParent | 02_go_sdk/go/src/context/context.go:372-386 | In every run, half-finished cancels included, a context about to register finds its parent's channel made and not the shared closed one, so parentCancelCtx recognises the parent and no goroutine is needed |
| ContextLaws.NoCancelledChildKept | 02_go_sdk/go/src/context/context.go:389-403 | Once no cancel or removal is under way, only uncancelled contexts remain in a parent's children |
| ContextLaws.CancelsFinish | 02_go_sdk/go/src/context/context.go:536-566 | Recursive cancel terminates: from every state the loops under way, however many, run to their end and release every lock |
| ContextLaws.LoopAdvances | 02_go_sdk/go/src/context/context.go:551-560 | The locks taken from parent to child cannot deadlock: while any cancel is under way, one of the loops has a step to take |
| ContextLaws.UndisturbedCancel | 02_go_sdk/go/src/context/context.go:536-566 | A cancel that nothing interferes with leaves, whatever the order of the children, the state the recursive method computes |
| ContextRuns.RunKeepsInv | 02_go_sdk/go/src/context/context.go:462-566 | Every reachable state, those in the middle of cancels included, satisfies the tree invariant over fields, locks, children maps, registrations and removals |
| ContextTree.DeadlineTightens | 02_go_sdk/go/src/context/context.go:618-643 | The Deadline of a context made by WithDeadlineCause is the sooner of the parent's and the one asked for, although a later one yields a plain cancelCtx |
| ContextTree.ScopeViaNearest | 02_go_sdk/go/src/context/context.go:759-790 | The cancelCtx lookup along the parent chain is exact: a cancelable context is an ancestor in scope of a context if and only if it is one of the cancelCtx the lookup finds |
| ContextTree.ScopeEndsAtWithoutCancel | 02_go_sdk/go/src/context/context.go:759-790 | What is in scope: an ancestor with no WithoutCancel between it and the context, and no other |
| ContextTree.HalfwayStep | 02_go_sdk/go/src/context/context.go:551-559 | After one more child has been cancelled, exactly the subtrees of the children visited are stopped and all other contexts are untouched |
| ContextTree.Forest.Cancel | 02_go_sdk/go/src/context/context.go:536-566 | The recursive cancel terminates and stops exactly the uncancelled contexts reachable through registered children, with the given error and cause, each once |
| ContextTree.Forest.FindCancelCtx | 02_go_sdk/go/src/context/context.go:759-790 | The lookup loop returns the innermost cancelCtx not cut off by WithoutCancel |
| ContextTree.Forest.Attach | 02_go_sdk/go/src/context/context.go:481-495 | Under the parent's lock the child is either registered or, if the parent is already cancelled, stopped with the parent's error and cause |
| ContextTree.Forest.RemoveChild | 02_go_sdk/go/src/context/context.go:389-403 | Removes exactly this child from the nearest cancelCtx unless that one was cancelled before its channel was made |
| ContextTree.Forest.Derive | 02_go_sdk/go/src/context/context.go:618-643 | The new context is a plain cancelCtx exactly when the parent's deadline is sooner |
| Pipe.BytesConserved | 02_go_sdk/go/src/io/pipe.go:50-105 | Over every interleaving of readers, writers and closers, the bytes delivered in handshake order are the consumed prefixes of the writes in lock order |
| Pipe.WriteResult | 02_go_sdk/go/src/io/pipe.go:76-96 | A finished write reports the length of exactly what its transfers handed over, a prefix of its argument; a nil error means all was consumed, and an error comes only from a closed pipe and is ErrClosedPipe or the read side's |
| Pipe.ReadResult | 02_go_sdk/go/src/io/pipe.go:50-65 | A finished read returns exactly the data of its one transfer; it fails only on a closed pipe, without a transfer or data, and with ErrClosedPipe or the write side's error |
| PipeErrors.WriteErrorExact | 02_go_sdk/go/src/io/pipe.go:117-123 | In every run the error of a write is the read side's if and only if, at the step that looked it up, the write side had none, and at the later step that looked up the read side's there was one; otherwise it is ErrClosedPipe |
| PipeErrors.WriteErrorBySides | 02_go_sdk/go/src/io/pipe.go:76-123 | A write begun after the writer has closed can only report ErrClosedPipe; one begun after the reader has closed, the writer never doing so, reports exactly the reader's error |
| PipeErrors.ReadErrorExact | 02_go_sdk/go/src/io/pipe.go:108-114 | The same for reads with the sides exchanged |
| PipeErrors.ReadErrorBySides | 02_go_sdk/go/src/io/pipe.go:50-114 | A read begun after the reader has closed can only report ErrClosedPipe; one begun after the writer has closed, the reader never doing so, reports exactly the writer's error |
| PipeErrors.FirstCloseWins | 02_go_sdk/go/src/io/pipe.go:21-28 | In every run the first error stored on a side stays whatever is closed later; without one of the caller's it is ErrClosedPipe for the reader and EOF for the writer |
| PipeErrors.CloseTakesEffect | 02_go_sdk/go/src/io/pipe.go:67-106 | From the moment a close has closed done, in every later state the pipe is closed and one of the sides has an error |
| PipeErrors.WriteAfterClose | 02_go_sdk/go/src/io/pipe.go:76-82 | A write that begins on a closed pipe hands nothing over and can only end in an error |
| PipeErrors.ReadAfterClose | 02_go_sdk/go/src/io/pipe.go:50-55 | A read that begins on a closed pipe gets nothing and can only end in an error |
| PipeTransfers.TransfersExact | 02_go_sdk/go/src/io/pipe.go:56-96 | In every run each transfer hands over exactly the next bytes of its write, as many as fit the reader's slice; a write has no transfer once nothing is left, and a successful one, an empty one included, had at least one |
| PipeTransfers.NoDeadlockWhileBoth | 02_go_sdk/go/src/io/pipe.go:50-105 | Open or closed, as long as a read and a write are unfinished some call in progress has a step to take |
| PipeTransfers.CallsMeet | 02_go_sdk/go/src/io/pipe.go:50-105 | From every reachable state, steps of the calls in progress lead to one in which all writes or all reads have returned |
| Pipe.HandshakePartner | 02_go_sdk/go/src/io/pipe.go:56-58 | A writer waiting for a count waits for exactly one reader, which holds the writer's remaining slice |
| Pipe.HandshakeCompletes | 02_go_sdk/go/src/io/pipe.go:86-91 | Nothing but the reply of that reader moves either of the two, closing included, and the reply transfers exactly what was copied |
| Pipe.NoDeadlockOnceClosed | 02_go_sdk/go/src/io/pipe.go:50-105 | Once done is closed, as long as any call is unfinished some call has a step to take |
| Pipe.StepKeepsInv | 02_go_sdk/go/src/io/pipe.go:50-123 | Every step of every kind keeps the pipe invariant |
| Pipe.StepsRunOut | 02_go_sdk/go/src/io/pipe.go:50-105 | Every step of a call in progress leaves the readers, or else the writers, with fewer steps to take |
| Pipe.DrainsOnceClosed | 02_go_sdk/go/src/io/pipe.go:50-105 | From every reachable closed state, steps of the calls in progress lead to a state in which all of them have returned |
| HtmlEscape.EscapeRoundTrip | 02_go_sdk/go/src/html/escape.go:166-214 | Unescaping an escaped text gives the text back, for every byte string |
| HtmlEscape.EscapeThenUnescape | 02_go_sdk/go/src/html/escape.go:178-214 | The same through the buffer that is overwritten in place |
| HtmlLaws.EscapedIsSafe | 02_go_sdk/go/src/html/escape.go:166-180 | No byte of an escaped text is <, >, ' or ", and every & in it begins a reference that unescapes to one of the five |
| HtmlLaws.EscapeUnchangedIff | 02_go_sdk/go/src/html/escape.go:166-180 | Only those five are escaped: a text is returned unchanged if and only if it has none of them |
| HtmlLaws.EscapeConcat | 02_go_sdk/go/src/html/escape.go:166-180 | Escaping works character by character |
| HtmlLaws.EscapedFive | 02_go_sdk/go/src/html/escape.go:166-172 | The five become `&lt;`, `&gt;`, `&amp;`, `&#39;` and `&#34;` |
| HtmlEscape.UnescapeString | 02_go_sdk/go/src/html/escape.go:187-214 | Overwriting one buffer with cursors dst and src computes the unescaping of the whole string; the write cursor never passes the read cursor and the unread part stays the original |
| HtmlEscape.UnescapePlain | 02_go_sdk/go/src/html/escape.go:187-193 | Text without an ampersand is unescaped to itself |
| HtmlEscape.UnescapeEntity | 02_go_sdk/go/src/html/escape.go:56-164 | At an ampersand the bytes written and the bytes skipped are those of the reference found there, and nothing behind the read cursor's new place changes |
| HtmlEscape.UnescapeNumeric | 02_go_sdk/go/src/html/escape.go:66-118 | The numeric branch, including text too short, no digits, the Windows-1252 replacements and U+FFFD |
| HtmlEscape.UnescapeNamed | 02_go_sdk/go/src/html/escape.go:120-163 | The named branch, including two-rune entities, the longest known prefix without semicolon, and text left as it is |
| HtmlEscape.EscapedByteConsumed | 02_go_sdk/go/src/html/escape.go:166-176 | Each of the five characters is escaped: its sequence is consumed whole and gives it back, whatever text follows |
| HtmlEscape.NamedReferenceValue | 02_go_sdk/go/src/html/escape.go:120-163 | A name, with its semicolon if it has one, becomes the one or two runes of the table; an unknown one becomes the rune of its longest known proper prefix of at most six characters, if there is one, and stays as it is otherwise |
| HtmlEscape.LoneAmpersand | 02_go_sdk/go/src/html/escape.go:56-163 | An ampersand that begins no reference stands for itself |
| HtmlLaws.EveryAmpersand | 02_go_sdk/go/src/html/escape.go:56-163 | The laws on numeric references, named ones and lone ampersands leave no text that begins with an ampersand uncovered |
| HtmlEscape.LongestPrefix | 02_go_sdk/go/src/html/escape.go:149-157 | The downward search finds a prefix at least as long as any that names an entity |
| HtmlEscape.NumericReferenceValue | 02_go_sdk/go/src/html/escape.go:66-118 | A numeric reference, decimal or hexadecimal, of any digits, with or without semicolon, becomes the rune of its value taken modulo 2^32 as a signed 32-bit number, or stays if it has at most three characters |
| HtmlLaws.ReferenceReadsAs | 02_go_sdk/go/src/html/escape.go:107-118 | A reference to a value below 2^31, decoded as UTF-8, reads as that character if and only if it is one other than U+0000 and the controls that Windows-1252 redefines; those read as characters above U+00FF, and everything else as U+FFFD |
| HtmlLaws.Utf8Decodes | 02_go_sdk/go/src/unicode/utf8/utf8.go:342-370 | What is written for a rune is read back as that rune by the grammar in section 4 of RFC 3629, and as U+FFFD if it is none |
| HtmlLaws.DigitIs | 02_go_sdk/go/src/html/escape.go:82-100 | The digits are 0 to 9 and, in hexadecimal, a to f in either case, with the values of their places |
| HtmlLaws.NameCharacterIs | 02_go_sdk/go/src/html/escape.go:123-134 | A name consists of letters in either case and digits |
| HtmlEscape.DigitsReplacedIff | 02_go_sdk/go/src/html/escape.go:107-110 | It is replaced exactly if it has digits, as meant, unless it is decimal with one digit and open, or hexadecimal without digits and closed |
| HtmlEscape.OneDigitKept | 02_go_sdk/go/src/html/escape.go:107-110 | &#9x stays as it is |
| HtmlEscape.NoDigitReplaced | 02_go_sdk/go/src/html/escape.go:107-118 | &#x; becomes U+FFFD |
| HtmlEscape.SmallReferencesExact | 02_go_sdk/go/src/html/escape.go:100-118 | For values below 2^31 that is the replacement rule for the unbounded value |
| HtmlEscape.HugeReferenceIff | 02_go_sdk/go/src/html/escape.go:75-118 | A value beyond U+10FFFF becomes U+FFFD if and only if its low 32 bits are no encodable code point other than U+FFFD |
| HtmlEscape.HugeReferenceExample | 02_go_sdk/go/src/html/escape.go:75-118 | &#x100000041; becomes the letter A |
| BufferRuns.Run | 02_go_sdk/go/src/bytes/buffer.go:91-450 | Any run of the operations on a new buffer (ReadFrom, ReadBytes, ReadByte and UnreadByte included) hands out, reports and holds what a byte queue with one byte of memory does, up to the first operation that panics, which is a count out of range or no room below the int limit; the bytes moved by growing are at most the bytes written plus Available(), and the array is at most four times the most that was unread and added at one time, plus 64 and the allocator's rounding |
| BufferRuns.RunFrom | 02_go_sdk/go/src/bytes/buffer.go:472 | The same for NewBuffer on a caller's slice: the queue starts with the slice's bytes, and the capacity behind them is used |
| BufferRuns.RunOn | 02_go_sdk/go/src/bytes/buffer.go:91-450 | The same from any state of a buffer, with whatever UnreadByte can still return to |
| Buffer.GrowPays | 02_go_sdk/go/src/bytes/buffer.go:126-157 | Every slide or reallocation gains at least as much free space as the bytes it moves, and leaves room for the bytes asked for |
| Buffer.TooLargeIff | 02_go_sdk/go/src/bytes/buffer.go:126-147 | Growing is refused only if twice the capacity and the room asked for pass the int limit, and then exactly if neither reslicing nor a first small allocation nor sliding will do; it slides or reslices whenever what is needed is at most half the capacity |
| Buffer.Buffer.Write | 02_go_sdk/go/src/bytes/buffer.go:175-182 | Appends the bytes to the queue, or leaves it alone exactly where the source panics with ErrTooLarge, moves at most the unread bytes, and keeps the amortised bound |
| Buffer.Buffer.MakeRoom | 02_go_sdk/go/src/bytes/buffer.go:126-157 | Provides n writable bytes behind the unread ones, which keep their contents, by reslice, first small allocation, slide or reallocation; fails exactly when the capacity would pass the int limit, and moves at most the unread bytes |
| Buffer.Buffer.GrowSlice | 02_go_sdk/go/src/bytes/buffer.go:229-252 | The new array has room for what is needed and for twice the capacity behind the read offset, and starts with the unread bytes |
| Buffer.Buffer.ReadFrom | 02_go_sdk/go/src/bytes/buffer.go:206-225 | Appends exactly what the source delivers, up to its end, for every chunking, and reports the source's error unless it is EOF; panics only without room for MinRead bytes |
| Buffer.Buffer.Read | 02_go_sdk/go/src/bytes/buffer.go:318-334 | Takes the first bytes of the queue, EOF exactly on an empty queue and a non-empty request |
| Buffer.Buffer.Truncate | 02_go_sdk/go/src/bytes/buffer.go:91-101 | Keeps the first n unread bytes, and refuses n out of range |
| Buffer.Buffer.ReadBytes | 02_go_sdk/go/src/bytes/buffer.go:430-450 | Takes the bytes through the first delimiter, or all of them with EOF if there is none |
| Buffer.Buffer.UnreadByte | 02_go_sdk/go/src/bytes/buffer.go:413-422 | Steps back over the byte before the unread ones if the last operation allows it |
| BufferRuns.UnreadAfterReadByte | 02_go_sdk/go/src/bytes/buffer.go:356-422 | A byte read and unread leaves the queue as it was, and at the end of the queue UnreadByte is refused |
| BufferRuns.UnreadAfterRead | 02_go_sdk/go/src/bytes/buffer.go:318-422 | After Read, UnreadByte works exactly when documented and gives the last byte read back |
| BufferRuns.UnreadAfterNext | 02_go_sdk/go/src/bytes/buffer.go:340-422 | The same after Next |
| BufferRuns.UnreadAfterReadBytes | 02_go_sdk/go/src/bytes/buffer.go:404-450 | After ReadBytes UnreadByte keeps its documentation if and only if the delimiter was among the unread bytes; in the other cases it gives back the last byte read, or one from before if none was |
| BufferRuns.UnreadAfterGrow | 02_go_sdk/go/src/bytes/buffer.go:164-422 | After a read and a Grow, UnreadByte gives the byte back if and only if unread bytes remain and the room was there already |
| BufReader.ReadAllLines | 02_go_sdk/go/src/bufio/bufio.go:404-437 | For every buffer size and chunking, the lines joined from ReadLine's fragments are the lines of the whole text, CR LF split by a full buffer included, and the last error is the source's end, if the source never stalls 100 times running; otherwise the text read falls into texts broken off in the middle of a line, whose lines are returned one after the other, with at least 100 empty reads for each break and for an ErrNoProgress at the end |
| BufReader.ReadBytes | 02_go_sdk/go/src/bufio/bufio.go:477-488 | Returns exactly the bytes through the first delimiter, with an error if and only if they do not end in it |
| BufReader.CollectFragments | 02_go_sdk/go/src/bufio/bufio.go:446-468 | The full buffers and the last fragment together are the text read, with the delimiter only at the very end |
| BufReader.LineStep | 02_go_sdk/go/src/bufio/bufio.go:404-437 | A fragment collected so far and the piece that ends it are one line of the text, a CR put back at a full buffer included |
| BufReader.Reader.ReadLine | 02_go_sdk/go/src/bufio/bufio.go:404-437 | Line, dropped line end and what is still to come make up the text; a fragment is never empty and ends in CR only if a CR follows; a line that is buffered already is returned without reading |
| BufReader.Reader.ReadSlice | 02_go_sdk/go/src/bufio/bufio.go:347-386 | Returns through the delimiter, or a full buffer without it, or everything before an error, losing nothing, and without reading from the source if the delimiter is buffered already |
| BufReader.Reader.Fill | 02_go_sdk/go/src/bufio/bufio.go:96-124 | Slides and reads until one non-empty chunk or an error, keeping the text still to be read |
| BufWriter.RunWrites | 02_go_sdk/go/src/bufio/bufio.go:632-708 | After any sequence of Write, WriteByte and Flush on a sink that fails or writes short at any point, the sink's bytes followed by the buffered ones are the accepted prefixes of the arguments in order; as long as the sink has not failed, everything was accepted; and the sink was written to at most once per full buffer, once per Flush, and once more if it failed |
| BufWriter.Writer.Write | 02_go_sdk/go/src/bufio/bufio.go:673-695 | Accepts a prefix of its argument, all of it unless it reports an error, which is the first one the sink returned; after an earlier error nothing; and leaves the sink alone if the argument fits |
| BufWriter.Writer.Flush | 02_go_sdk/go/src/bufio/bufio.go:632-653 | Empties the buffer unless the sink fails; what the sink refuses stays, in order, at its front, and the first error of the sink is what is reported from then on |
| BufWriter.Writer.WriteByte | 02_go_sdk/go/src/bufio/bufio.go:698-708 | Accepts the byte exactly if it reports no error, which is the first one the sink returned, and leaves the sink alone unless the buffer is full |
| BufWriter.Writer.ReadFrom | 02_go_sdk/go/src/bufio/bufio.go:781-825 | Accepts exactly the bytes it takes from the source, to its end, unless it reports that the sink failed, the source's own failure at its end, or 100 empty reads in a row |
| BufWriter.WriteThenFlush | 02_go_sdk/go/src/bufio/bufio.go:632-695 | Once a flush succeeds the sink holds everything ever accepted |
| Scanner.ScanAll | 02_go_sdk/go/src/bufio/scan.go:139-261 | If every line with its newline fits maxTokenSize (an unterminated last line being shorter) and the source is not stuck, scanning goes to its end; and whenever it does the tokens are exactly the lines less an optional CR, for every chunking and buffer growth |
| Scanner.Scanner.Scan | 02_go_sdk/go/src/bufio/scan.go:139-240 | Each token stands for the next piece of the text and nothing is lost or repeated; ErrTooLong only if the text does not fit; a line that is buffered already is returned without reading |
| Scanner.FirstPiece | 02_go_sdk/go/src/bufio/scan.go:355-369 | One line taken off the front is the first token of the text, and the rest gives the other tokens |
| TextLines.LinesRoundTrip | 02_go_sdk/go/src/bufio/scan.go:340-369 | Lines written one after the other, each ended by LF or CR LF, are read back as they were, and so is a last line without an end |
| Scanner.LongHead | 02_go_sdk/go/src/bufio/scan.go:193-199 | A full buffer without a newline means the text does not fit |
| Scanner.ScanLines | 02_go_sdk/go/src/bufio/scan.go:355-369 | Asks for more data only if there is no newline, and at EOF only on empty data; a token always advances |
| FmtInteger.FormatRoundTrip | 02_go_sdk/go/src/fmt/format.go:194-321 | Reading the padded output back gives the 64-bit value, for every base, flag set, width and precision |
| FmtLaws.TextInField | 02_go_sdk/go/src/fmt/format.go:89-104 | With a width the output has max(wid, text length) bytes: the text stands at the right end behind blanks or, with the minus flag, at the left end before blanks; without a width it is the text |
| FmtLaws.NothingInField | 02_go_sdk/go/src/fmt/format.go:216-225 | %.0 of zero prints wid blanks and nothing else |
| FmtLaws.TextLayout | 02_go_sdk/go/src/fmt/format.go:236-315 | The text is sign, prefixes, zeros and numeral: minus exactly for negative values, else plus or blank by the flags; 0o for %O, 0b, 0x or 0X for %#, and in base 8 one zero unless there is one in front; as many zeros as make up the digits wanted; digits of the base in the case asked for without a leading zero |
| FmtLaws.ZeroFlagFillsWidth | 02_go_sdk/go/src/fmt/format.go:226-231 | With the zero flag and no precision, sign, zeros and digits fill the width, and no blank is used |
| FmtInteger.BodyDecodes | 02_go_sdk/go/src/fmt/format.go:236-274 | The digit run has length max(digit count, effective precision) and decodes to the magnitude |
| FmtInteger.TextFits | 02_go_sdk/go/src/fmt/format.go:200-208 | 68 bytes, or 3 + wid + prec, always hold the text with its zeros, prefixes and sign |
| FmtInteger.AtMost64Digits | 02_go_sdk/go/src/fmt/format.go:236-268 | A 64-bit value has at most 64 digits in any base from 2 |
| FmtInteger.Formatter.FmtInteger | 02_go_sdk/go/src/fmt/format.go:194-321 | Writing right to left into the buffer appends exactly the padded text (blank field for %.0 of zero), never leaves the buffer, and restores the zero flag |
| FmtInteger.Formatter.WriteDigits | 02_go_sdk/go/src/fmt/format.go:236-268 | The division loop leaves the digits of the value at the end of the buffer, with the index never below 0 |
| FmtInteger.Formatter.ZeroFill | 02_go_sdk/go/src/fmt/format.go:271-274 | The zeros reach the precision in full: the guard i > 0 never stops them |
| ExitCodeFilter.FilterAll | 02_go_sdk/go/misc/go_android_exec/main.go:222-289 | The result of Finish, and the final output unless the sink fails, depend only on the concatenation of the chunks |
| ExitCodeFilter.TailAppend | 02_go_sdk/go/misc/go_android_exec/main.go:241-263 | What must be held back after more data is determined by what was held back before, whatever was flushed |
| ExitCodeFilter.ExitCodeIff | 02_go_sdk/go/misc/go_android_exec/main.go:225-236 | A complete match is held back if and only if the text ends in exitcode= and at least one digit |
| ExitCodeFilter.ExitCodeHeld | 02_go_sdk/go/misc/go_android_exec/main.go:225-236 | Whatever precedes it, a final exitcode= with digits is exactly what is held back |
| ExitCodeLaws.PassedOnIsSafe | 02_go_sdk/go/misc/go_android_exec/main.go:241-263 | No byte passed on could have been part of an exit code at the end, whatever is written later |
| ExitCodeLaws.HeldIsNeeded | 02_go_sdk/go/misc/go_android_exec/main.go:241-263 | Whatever is held back can be continued to an exit code that begins just there |
| ExitCodeLaws.CodeReported | 02_go_sdk/go/misc/go_android_exec/main.go:265-289 | After any output p and exitcode= with the decimal digits of n, n is reported and exactly p passed on; beyond the int range it is an error and everything is passed on |
| ExitCodeLaws.NoCodeIff | 02_go_sdk/go/misc/go_android_exec/main.go:265-277 | A missing code is reported if and only if the text does not end in one, and then all of it is passed on |
| ExitCodeFilter.Filter.Write | 02_go_sdk/go/misc/go_android_exec/main.go:241-263 | Flushed bytes followed by the buffer are all bytes written, the buffer being the leftmost suffix that can still become a match; a sink error, and nothing else, is reported |
| ExitCodeFilter.Filter.Finish | 02_go_sdk/go/misc/go_android_exec/main.go:265-289 | Reports the number, a missing code or a code out of range, and flushes what turned out not to be a code |
| BytesSplit.JoinSplit | 02_go_sdk/go/src/bytes/bytes.go:323-535 | Joining the pieces of a split with its separator gives the text back, for every limit |
| BytesSplit.JoinSplitAfter | 02_go_sdk/go/src/bytes/bytes.go:323-378 | The pieces that keep their separators concatenate to the text |
| BytesSplit.SplitSaturates | 02_go_sdk/go/src/bytes/bytes.go:330-336 | There are min(limit, separators + 1) pieces, and a larger limit changes nothing, the cap at len(s)+1 included |
| BytesSplit.PiecesAreFree | 02_go_sdk/go/src/bytes/bytes.go:341-349 | No piece before the last contains the separator, nor does the last unless the limit cut the splitting short |
| BytesSplit.SplitAfterKeeps | 02_go_sdk/go/src/bytes/bytes.go:341-349 | SplitAfter makes the same pieces, each but the last with its separator |
| BytesSplit.IndexIsFirst | 02_go_sdk/go/src/bytes/bytes.go:1238-1239 | What is assumed of Index, whose search code is not modelled: it finds an occurrence whenever there is one, and none is earlier |
| BytesSplit.GenSplit | 02_go_sdk/go/src/bytes/bytes.go:323-351 | The loop over a preallocated array yields the pieces of the specification, none for limit 0, all for a negative one |
| BytesSplit.CountSep | 02_go_sdk/go/src/bytes/bytes.go:55-72 | The counting loop and its one-byte case count the non-overlapping separators from the left |
| BytesSplit.JoinInto | 02_go_sdk/go/src/bytes/bytes.go:505-535 | One buffer of the exact length is filled completely with the join; the overflow panic occurs exactly if the separators alone reach the int limit or the result exceeds it |
| BytesSplit.JoinPanicsIff | 02_go_sdk/go/src/bytes/bytes.go:515-527 | Join panics if and only if its result would not fit, or would not with one more byte in each separator |
| BytesSplit.Replace | 02_go_sdk/go/src/bytes/bytes.go:1107-1141 | A buffer of length len(s) + n*(len(new)-len(old)) is filled exactly, with the split of the text joined by the new separator |
| BytesSplit.ReplacedLength | 02_go_sdk/go/src/bytes/bytes.go:1122 | That length is the length of the result |
| BytesSplit.ReplaceIsSplitJoin | 02_go_sdk/go/src/bytes/bytes.go:1107-1141 | For a limit n >= 0 the result is the split into at most n+1 pieces joined by the new text, also where n exceeds the occurrences |
| BytesSplit.ReplaceAllIs | 02_go_sdk/go/src/bytes/bytes.go:1107-1118 | A negative limit replaces all occurrences: the result is that of any limit of at least len(s) |
| BytesSplit.Repeat | 02_go_sdk/go/src/bytes/bytes.go:575-623 | The doubling copies inside the result, chunk limit included, equal count plain copies; the two panics occur exactly for a negative count or len(b) >= maxInt/count |
| BytesSplit.CopiesAdd | 02_go_sdk/go/src/bytes/bytes.go:617-621 | Copies followed by copies are that many copies, which is what a round of doubling relies on |
| BytesSplit.CopiesPeriodic | 02_go_sdk/go/src/bytes/bytes.go:575-623 | Copy number k of the result holds the bytes in their places |
| BytesSplit.RepeatPanicsIff | 02_go_sdk/go/src/bytes/bytes.go:575-588 | Repeat panics if and only if the count is negative or one more byte in each copy would pass the int limit; so it does whenever the result would |
| BytesSplit.RepeatPanicsEarly | 02_go_sdk/go/src/bytes/bytes.go:586-588 | It panics for one copy of a slice of the largest length, which would fit |

## Left out

- Sockets, TAP devices, epoll, fork and threads: system calls; what is written or received is a parameter, a result or a bag of packets.
- ARP and ICMP replies beyond the checksum, and the first version of the TCP stack: the same field swaps, and a weaker copy.
- Malformed or oversized packets, IP options on SYN and FIN segments, a full connection table: preconditions, listed above.
- TFTP buffers: stale bytes of an earlier datagram behind a short one, and names without NUL, are not modelled; neither are several clients at once.
- Context: AfterFunc, Context implementations from outside the package (and the goroutine they need), values under other keys, and stopping the deadline timer.
- ContextTree.Forest.Derive: does not model the clock; a deadline that has already passed is a cancel step right after creation.
- Pipe: slices are passed as values, so a caller that changes a slice while it is being written or read is not modelled.
- HTML: strings.NewReplacer is modelled by what its five replacements do; the entity tables are a parameter; the branches for attribute values are switched off in the source and left out.
- Buffer: WriteTo, ReadRune, WriteRune, UnreadRune and the string variants; slices handed out are values, so a caller's view that a later write overwrites is not modelled. A read returning a negative count is outside the contract of a source here, and an allocation that fails for want of memory is not modelled.
- Bufio reader and writer: Peek, Discard, Read, ReadByte, WriteTo, rune functions, WriteString, lastByte, and the direct ReadFrom of a sink that has one.
- Scanner: split functions other than ScanLines, and with them ErrFinalToken, negative advances and the panic after 100 empty tokens; the maxInt/2 limit on the buffer is not modelled.
- Scanner.ScanAll: does not decide the case of an unterminated last line of exactly maxTokenSize bytes, because it depends on whether the source reports its end together with its last bytes.
- FmtInteger: the panics for unknown bases and oversized widths, fmtUnicode, and padding of text with multi-byte characters.
- BytesSplit: the empty separator, which splits by UTF-8 sequences; the one-byte count and Index are taken by what they promise, not by their assembly or Rabin-Karp forms.
- ExitCodeFilter: the regexp engine, replaced by the language its expression denotes; the wording of Finish's errors.
