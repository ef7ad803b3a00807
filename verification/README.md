# ExLink firmware: verified models

ExLink is a USB debug-probe firmware on an RT-Thread board. A host sends framed commands over one pair of bulk
endpoints and CMSIS-DAP requests over another; the firmware parses, answers and executes them, and below that sit
the kernel's lists and atomics and a handful of drivers. This project models the parts of that code with real
state, arithmetic or concurrency and proves what they promise.

`dafny verify dfyconfig.toml` checks everything.

## How it is organised

Code that changes things in place is written as methods and classes with the same fields and branches, and proved
against specification functions. Code that two contexts run at once (an interrupt and a thread, or several
threads) is a state machine in which every access to a shared variable is one step; its theorems hold for every
interleaving of those steps, by an invariant that each step keeps.

| module | stands for |
|---|---|
| `Gf2`, `Crc16` | the bitwise CRC-16 and, for comparison, polynomials over GF(2) with multiplication, division and uniqueness of the remainder |
| `FrameProto`, `FrameFormat` | the frozen constants and wire layout; the frame builder, writing into a buffer |
| `FrameParser` | the byte-fed parser with all its fields; its specification `Next` is a machine on the bytes of the frame in progress |
| `FrameDecoder` | a recursive decoder of whole streams that knows nothing of parser states, and everything that relates it to the parser |
| `ErrorDetection` | which altered frames the parser notices |
| `WireAnswers` | what a host puts on the wire and what it gets back, in bytes, without parser, dispatcher or builder |
| `FrameDispatch`, `DispatchThread` | the handlers, and the dispatch thread's loop over a parser object and a ring object |
| `Ring`, `CtrlRing` | the one-slot-empty ring shape, and the receive ring as an object |
| `CtrlLink` | the OUT callback and the dispatch thread as interleaved steps, from packets to responses |
| `UsbIn` | the blocking send, its completion callback and the controller as interleaved steps, with packet size, buffer size and timeout as parameters so that it covers both channels |
| `SendLog` | a sender and its caller: what was passed to the send, what each call returned, what of it the host has |
| `CommandChannel` | `CtrlLink` and a sender together: the dispatch thread is inside the send while a response is on its way |
| `DapChannel` | `DapEngine` and a sender together, in the same way |
| `DapEngine`, `DapRing` | the DAP request ring, semaphore and engine thread as interleaved steps, and the ring as an object |
| `LockFreeList`, `RefCount`, `Atomic` | the lock-less stack and the reference count as interleaved steps; the retry loops as code on a shared cell |
| `DoublyLinkedList`, `SinglyLinkedList` | the intrusive lists, on the heap, each with a ghost sequence of its nodes |
| `FlashErase`, `EnetGather`, `UartDma`, `Crc32` | four driver loops |
| `Crc32Division` | the CRC-32 as polynomial division, on `Gf2` like the CRC-16 |
| `Arithmetic` | quotients and remainders |

Five results are not what the code's documentation or design would suggest; the code is modelled as it is, with the
exact condition proved:

* The comment at applications/frame_proto.h:65 says that op-codes not implemented are answered NOT_IMPLEMENTED. Of
  the frozen codes without a handler the dispatcher does so exactly for those a host may send
  (`FrameDispatch.NotImplementedExactly`); the four that only the device sends, 0x12, 0x41, 0xFE and 0xFF, are
  answered UNKNOWN_OP (`FrameDispatch.DeviceCodesAreUnknown`).
* The CRC goes out low byte first, so the last payload byte and the first CRC byte are neighbours on the wire but
  not in the division. Changing exactly these two by 0x89 and 0xA1 goes unnoticed, and no other change of the two
  does (`ErrorDetection.SeamVerdict`).
* The flash erase rounds the size up with a mask after an addition that can wrap. The round-up is right exactly
  when size plus sector size is at most 2^32 (`FlashErase.MaskRoundsUp`); beyond that no command is issued
  (`FlashErase.WrapReadsAsError`, with size 0xFFFFF001 and 4096-byte sectors as an instance in
  `FlashErase.WrapExample`). The routine hands the size back as an int. When the ROM has carried out every command
  the result is therefore negative exactly when the size is at least 2^31, which every wrapped size is
  (`FlashErase.EraseRegion`), and the caller at rt-thread/components/fal/src/fal_partition.c:511-513 then reports an
  error.
* The Ethernet hand-off counts the descriptors again, from the length with four bytes added. It counts the ones that
  were filled exactly when those four bytes still fit into the last of them, and one more otherwise
  (`EnetGather.GivenAreFilled`; a payload of one full 1536-byte buffer is an instance in `EnetGather.OneTooMany`).
* The IN callback does not look at the result of starting the zero-length packet. If the controller refuses it, and
  only then, the busy flag stays set with nothing in flight (`UsbIn.StuckByRefusal`, `UsbIn.StuckExactly`); from then
  on no packet is sent and every call is turned away or times out (`UsbIn.StuckStays`, `UsbIn.StuckForever`). That a
  controller refuses is an assumption of the model: the ports at
  rt-thread/components/drivers/usb/cherryusb/port/hpmicro/usb_dc_hpm.c:236-241 and
  port/chipidea/usb_dc_chipidea.c:590-595 beside it do so only on a disabled endpoint, and between reset events a
  transfer that has completed was started on an enabled one. A caller whose messages are never whole packets is safe
  whatever the controller does (`UsbIn.OddLengthsNeverStick`).

## Model

| member | source | states |
|---|---|---|
| `Crc16.Crc16Update` | applications/frame_parser.c:14-30 | the bit loop returns the register after the whole buffer, and the start value for a null buffer |
| `Crc16.Crc16Of` | applications/frame_parser.c:32-35 | the CRC is that register started from the initial value, which a null buffer leaves |
| `Crc16.UpdateCompose` | applications/frame_parser.c:14-30 | feeding two pieces one after the other is feeding their concatenation, which is what lets the parser compute it byte by byte |
| `Crc16.UpdateLinear` | applications/frame_parser.c:14-30 | the register is linear over xor in start value and message together |
| `Crc16.UpdateDivides` | applications/frame_parser.c:14-30 | c·x^(8n) + m·x^16 is a multiple of x^16+x^12+x^5+1 plus the register, with the quotient exhibited |
| `Crc16.CrcIsRemainder` | applications/frame_parser.c:14-30 | a 16-bit value is the remainder of that division if and only if it is what the loop computes |
| `Crc16.CrcDividesFromOnes` | applications/frame_parser.c:32-35 | a 16-bit value is the CRC of m if and only if it is the remainder of (x^15 + ... + 1)·x^(8n) + m·x^16, the sixteen ones written out |
| `Crc16.CheckValue` | applications/frame_proto.h:55-60 | the CRC of "123456789" is 0x29B1, the check value of CRC-16/CCITT-FALSE |
| `Gf2.RemainderUnique` | applications/frame_parser.c:14-30 | a polynomial has one remainder only, so the previous row pins the CRC down without mentioning the loop |
| `FrameFormat.FrameBuild` | applications/frame_parser.c:40-72 | the error cases return 0 and leave the buffer alone; otherwise the buffer starts with the frame, nothing behind it changes, and its length is returned; a null payload counts as zeros, and a payload in the output buffer itself is replaced by the header over and over |
| `FrameFormat.FrameLayout` | applications/frame_proto.h:15-28 | where MAGIC, OP, LEN and PAYLOAD sit in a built frame, and what its CRC covers |
| `FrameFormat.FramePrefixFree` | applications/frame_parser.c:40-72 | a built frame that is a prefix of another carries the same op, length and payload: building is injective and no frame can be cut short into another |
| `FrameParser.Parser.Init` | applications/frame_parser.c:77-88 | from any field values the parser starts over with nothing held |
| `FrameParser.Parser.Feed` | applications/frame_parser.c:90-172 | one byte moves the fields exactly as `Next` moves the bytes held, with the same verdict; an OK leaves op, length and payload readable; fields that do not matter in a state may hold anything before |
| `FrameParser.VerdictByCrc` | applications/frame_parser.c:154-164 | the CRC comparison succeeds exactly when the bytes are the frame the builder would have written for that op and payload |
| `FrameDecoder.FeedInPieces` | applications/frame_parser.c:90-172 | reports and state do not depend on how a stream is cut |
| `FrameDecoder.ParserRefinesDecoder` | applications/frame_parser.c:90-172 | from every state and on every stream the parser reports what the recursive decoder reports, at the same positions, and holds what it leaves over |
| `FrameDecoder.NoiseSkipped` | applications/frame_parser.c:97-115 | bytes without a MAGIC pair, even ending in 4C, are skipped |
| `FrameDecoder.FrameDecodes` | applications/frame_parser.c:40-72 | a built frame is decoded on exactly its last byte to what was built, leaving the rest of the stream as it was |
| `FrameDecoder.RoundTripUnderNoise` | applications/frame_parser.c:97-164 | any list of built frames with pair-free noise before, between and after them decodes to exactly those frames in order |
| `FrameDecoder.Stabilises` | applications/frame_parser.c:96-164 | from every reachable state, 4102 bytes without a MAGIC pair bring the parser back to hunting |
| `FrameDecoder.StabilisationBoundIsTight` | applications/frame_parser.c:96-164 | 4101 such bytes do not always, by a concrete state and stream |
| `FrameDecoder.HuntingParserTakesFrame` | applications/frame_parser.c:96-164 | a hunting parser reports the next built frame on exactly its last byte and holds nothing after it |
| `FrameDecoder.HuntingParserJudges` | applications/frame_parser.c:96-164 | it judges anything of a frame's outline there, good or bad |
| `ErrorDetection.UpdateInjective` | applications/frame_parser.c:19-28 | equal bytes never bring two different registers together |
| `ErrorDetection.CorruptionVerdict` | applications/frame_parser.c:154-164 | a frame altered anywhere but in MAGIC and LEN is still accepted if and only if the alteration's own CRC from a zero register equals its change of the CRC field |
| `ErrorDetection.ShortCorruptionDetected` | applications/frame_parser.c:154-164 | one byte altered in OP, PAYLOAD or CRC, or two adjacent bytes inside PAYLOAD or inside CRC: nothing is reported before the last byte and BAD_CRC is reported there |
| `ErrorDetection.SeamVerdict` | applications/frame_parser.c:66-69 | altering the last payload byte and the low CRC byte goes unnoticed for exactly one pair of changes |
| `FrameDispatch.BuildError` | applications/frame_dispatch.c:26-30 | the ERROR frame with that code, or 0 when it does not fit |
| `FrameDispatch.HandlePing` | applications/frame_dispatch.c:33-52 | the PONG frame: version, board name cut to 31 characters, NUL |
| `FrameDispatch.HandleEcho` | applications/frame_dispatch.c:55-58 | the same payload back in an ECHO frame, or 0 when it is longer than a frame or the buffer allows; a payload in the response buffer itself goes the way the builder treats it |
| `FrameDispatch.Dispatch` | applications/frame_dispatch.c:60-84 | for every op-code and length the response buffer holds the frame of the reply this op-code calls for, or 0 is returned when it cannot be built: for 0x02 the ECHO frame of the very payload, for 0x01 22 bytes of op-code 0x01 with the board name in them, for all others 8 bytes of op-code 0xFF with error 0x04 or 0x05 |
| `FrameDispatch.NotImplementedExactly` | applications/frame_proto.h:63-92 | a frozen op-code other than PING and ECHO is answered NOT_IMPLEMENTED if and only if a host may send it, and UNKNOWN_OP otherwise |
| `FrameDispatch.UnfrozenIsUnknown` | applications/frame_dispatch.c:81-82 | an op-code outside the table is answered UNKNOWN_OP |
| `FrameDispatch.DeviceCodesAreUnknown` | applications/frame_dispatch.c:70-82 | the codes that only the device sends are 0x12, 0x41, 0xFE and 0xFF, and each is answered UNKNOWN_OP |
| `FrameDispatch.RepliesGrow` | applications/frame_dispatch.c:107-134 | one more byte is at most one more reply, namely to what that byte completed |
| `FrameDispatch.ResponsesDecode` | applications/frame_dispatch.c:111-133 | a host that decodes the responses one after the other gets exactly the replies |
| `WireAnswers.FrameCarries` | applications/frame_proto.h:15-28 | a built frame in bytes: 0x4C, 0x4B, the op-code, the payload length low byte first, the payload, and the CRC of all that low byte first |
| `WireAnswers.CarriedOnce` | applications/frame_proto.h:15-28 | no two byte strings are the frame of the same op-code and payload |
| `WireAnswers.RequestIsAnswered` | applications/frame_dispatch.c:107-133 | the answer to every request, in bytes: error 0x03 to a header announcing more than 4096 bytes, error 0x01 to a frame whose CRC does not match, the PONG payload written out to op-code 0x01, the same bytes back to op-code 0x02, error 0x05 to the eight op-codes listed and error 0x04 to all others |
| `WireAnswers.AnswersOnce` | applications/frame_dispatch.c:107-133 | there is only one such answer |
| `WireAnswers.StreamIsAnswered` | applications/frame_dispatch.c:97-136 | a stream of any number of such requests, intact or not, with pair-free noise anywhere between them, has one answer each, in order, and nothing else |
| `WireAnswers.PingFrame` | applications/frame_proto.h:15-60 | the bytes 4C 4B 01 00 00 FC CC are the PING frame |
| `DispatchThread.BuildResponse` | applications/frame_dispatch.c:111-129 | a response is built exactly for a judgement, and it always fits the buffer |
| `DispatchThread.Turn` | applications/frame_dispatch.c:107-133 | a turn takes one byte off the ring, feeds it and builds its response |
| `DispatchThread.Drain` | applications/frame_dispatch.c:106-134 | the inner loop empties the ring and passes on, in order, one frame for each report on the bytes it took |
| `CtrlRing.RxRing.Put` | applications/usb_if_ctrl.c:47-58 | stores exactly the longest prefix that fits behind what is queued, and counts one drop if and only if something was left |
| `CtrlRing.RxRing.GetChar` | applications/usb_if_ctrl.c:61-69 | takes the oldest byte, or reports an empty ring |
| `Ring.SpanSize` | applications/usb_if_ctrl.c:46-69 | the occupancy of the ring from its indices; it is full one slot early |
| `Ring.SpanPush` | applications/usb_if_ctrl.c:50-56 | writing the head slot disturbs nothing queued; advancing the head appends |
| `Ring.SpanPop` | applications/usb_if_ctrl.c:66-67 | advancing the tail takes the first element |
| `CtrlLink.LinkIsQueue` | applications/usb_if_ctrl.c:47-83 | in every interleaving the bytes taken are a prefix of those accepted, at most 8191 are queued, the slot being written is never the slot being read, and the byte read is the next accepted one |
| `CtrlLink.PutStoresPrefix` | applications/usb_if_ctrl.c:47-58 | in every interleaving a finished put has stored a prefix of its packet behind what was accepted before, and has counted one drop if and only if the prefix is short |
| `CtrlLink.DropsOnlyWhenFull` | applications/usb_if_ctrl.c:50-54 | in every interleaving a put gives up only at a moment when 8191 bytes are queued, so no longer prefix would have fitted |
| `CtrlLink.PutRemembersStart` | applications/usb_if_ctrl.c:74-80 | what these two call "before" is the state when the packet arrived |
| `CtrlLink.PutAdvances` | applications/usb_if_ctrl.c:47-83 | the callback never waits: a put of n bytes ends within 3n + 3 of its own steps, whatever the thread does |
| `CtrlLink.NoLostWakeup` | applications/frame_dispatch.c:103-104 | in every interleaving, while bytes wait and no callback runs, a waiting thread has a token to take and need not wait for the timeout |
| `CtrlLink.OneTokenEach` | applications/usb_if_ctrl.c:77-80 | a token is released at the end of each packet that is not empty and at no other moment, and taken only by the waiting thread |
| `CtrlLink.EndToEnd` | applications/frame_dispatch.c:97-136 | in every interleaving the replies sent are those to the reference decoder's reports on the bytes fed; while no put has found the ring full these are a prefix of all that arrived, and all of it when nothing is in flight |
| `CtrlLink.HostReadsReplies` | applications/frame_dispatch.c:97-136 | in every interleaving the concatenated responses decode to exactly the replies sent |
| `WireAnswers.LinkAnswers` | applications/frame_dispatch.c:97-136 | in every interleaving, when the bytes fed are such a stream, the frames passed on are its answers |
| `CtrlLink.ThreadDrains` | applications/frame_dispatch.c:102-135 | whenever the callback is idle, drops or not, the thread on its own reaches the point where everything accepted has been answered; without drops that is everything that arrived |
| `CommandChannel.HostIsAnswered` | applications/frame_dispatch.c:97-136 | in the same interleavings, while every send that has ended has returned 0: the host has read a prefix of the frames due, outside a send all of them, and they decode to exactly the replies; without drops the bytes fed are all that arrived once nothing is in flight |
| `CommandChannel.HostReadsSome` | applications/usb_if_ctrl.c:142-181 | in every interleaving of callback, thread, blocking send, IN callback and controller, and whatever the sends returned: what the host has read are frames due for the reports on the bytes fed, in order and once each; all frames whose sends returned 0 are among them, and between sends only frames whose sends returned 0 or -6 |
| `WireAnswers.HostHasAnswers` | applications/frame_dispatch.c:97-136 | in every interleaving, when nothing was dropped, every send succeeded and nothing is in flight, the host has the answer to each request it put on the wire, in order, and nothing else |
| `WireAnswers.EchoComesBack` | applications/frame_dispatch.c:54-58 | one ECHO frame of up to 4096 bytes put on the wire: the host has exactly the same bytes back |
| `WireAnswers.PingGetsPong` | applications/frame_dispatch.c:32-52 | one PING frame put on the wire: the host has exactly one frame, the PONG |
| `CommandChannel.HostIsAnsweredInTime` | applications/usb_if_ctrl.c:142-181 | all that takes from the controller is to refuse nothing and to clear the flag within the looks that each wait has |
| `CommandChannel.GivesUpAfterHalfASecond` | applications/usb_if_ctrl.c:154-180 | in every run a send returns -4 or -6 only after 501 looks in that wait that all found the flag set |
| `CommandChannel.OnlyUnconfiguredTurnsAway` | applications/usb_if_ctrl.c:144-152 | in every run a response is turned away if and only if the device is not configured; none is empty or too long |
| `CommandChannel.EverythingIsAnswered` | applications/frame_dispatch.c:102-135 | with a controller that completes every transfer before the sender looks again and refuses nothing: from any moment with the callback idle and the endpoint free or a send in order under way, the thread alone reaches the point where everything accepted has been judged, nothing is in flight, and every further send has succeeded |
| `CommandChannel.AnsweredMeansRead` | applications/frame_dispatch.c:102-135 | at that point, if no send has failed, the host has read exactly one response frame for each judgement on everything accepted |
| `UsbIn.HostReadsTransfer` | applications/usb_if_ctrl.c:85-93 | the packets of one message, zero-length packet included, are read back as that message whatever follows, for every packet size |
| `UsbIn.BufferIsStable` | applications/usb_if_ctrl.c:154-180 | in every interleaving, also after timeouts, the IN buffer is not written and no transfer is started while one or its zero-length packet is pending |
| `UsbIn.HostHasMessages` | applications/usb_if_ctrl.c:142-181 | at every moment a host that reads to a short packet (section 5.8.3 of the USB 2.0 specification) has exactly the messages whose transfers were started, less the one in progress |
| `UsbIn.SuccessMeansDelivered` | applications/usb_if_dap.c:77-110 | when the last wait finds the flag clear, the host's last complete message is the one sent |
| `UsbIn.CallLooks` | applications/usb_if_ctrl.c:144-152 | a call is turned away exactly for an empty message, a device that must be configured and is not, or a message longer than the buffer, with -1, -2 or -3 in this order |
| `UsbIn.ThreadLooks` | applications/usb_if_ctrl.c:154-181 | a call that was let in ends with the one result its course calls for: -4 when timeout + 1 looks before the copy all found the flag set, -5 when the controller refused, -6 when timeout + 1 looks after the start all found it set, and 0 when a look found it clear in time each time |
| `UsbIn.LooksAreRecorded` | applications/usb_if_ctrl.c:158-180 | each look at the flag is recorded with what it found, and nothing else is |
| `UsbIn.ZeroExactly` | applications/usb_if_ctrl.c:154-181 | the result is 0 if and only if the call was let in, was not refused, and found the flag clear in both waits |
| `SendLog.HostReadsSome` | applications/usb_if_ctrl.c:142-181 | for either channel: the host has read a subsequence of the messages passed, with all whose sends returned 0, and between calls none but those whose sends returned 0 or -6 |
| `SendLog.HostReadsAll` | applications/usb_if_dap.c:77-110 | while every send that has ended has returned 0 the host has a prefix of the messages passed, and between calls all of them |
| `SendLog.SendCompletes` | applications/usb_if_ctrl.c:154-181 | with a prompt controller that refuses nothing, there is a run in which a send that is in order ends with 0; the next rows are about controllers of any speed |
| `SendLog.GivesUpOnlyInTime` | applications/usb_if_ctrl.c:157-180 | at every moment, for every call that has ended: -4 and -6 mean that timeout + 1 looks of that wait all found the flag set, and -5 that the controller refused |
| `SendLog.SucceedsWhenInTime` | applications/usb_if_dap.c:86-110 | for every call that has ended, the result is 0 if and only if the controller did not refuse and each wait found the flag clear within its looks |
| `SendLog.CallEnds` | applications/usb_if_ctrl.c:157-181 | whatever controller and callback do in between, a call ends within 2·timeout + 5 steps of its own, with exactly one result, which is 0 if and only if the controller was in time |
| `SendLog.OverInTime` | applications/usb_if_ctrl.c:174-181 | a transfer that is over before its caller has given up is a success, whatever happens after that |
| `UsbIn.StuckByRefusal` | applications/usb_if_ctrl.c:85-93 | a step leads to a busy flag with nothing in flight if and only if it is a callback whose zero-length packet is refused |
| `UsbIn.StuckExactly` | applications/usb_if_ctrl.c:85-93 | in every run the machine is in that state exactly when some earlier callback was refused a zero-length packet it needed |
| `UsbIn.OddLengthsNeverStick` | applications/usb_if_ctrl.c:88 | while the last message started is not a whole number of packets no step leads there |
| `UsbIn.StuckStays` | applications/usb_if_ctrl.c:142-181 | from there every step keeps it so, sends no packet and leaves the buffer, and a call ends only in one of -1, -2, -3, -4 and -6 |
| `UsbIn.StuckForever` | applications/usb_if_ctrl.c:142-181 | on every continuation of every run the host never has the message that was cut short |
| `UsbIn.RefusalExample` | applications/usb_if_ctrl.c:88-89 | a run with the command endpoint's parameters at full speed and a 64-byte message that gets there, if the controller refuses |
| `DapEngine.NoLostWakeup` | applications/dap_engine.c:86-105 | blocked on an empty semaphore with no submission under way, the engine has an empty ring and has answered everything it accepted |
| `DapEngine.ExecutedInOrder` | applications/dap_engine.c:86-105 | requests are executed in acceptance order with the bytes they were accepted with, answers leave in that order, and the slot being written is never the one being executed |
| `DapEngine.AcceptedIsRequest` | applications/dap_engine.c:66-74 | an accepted slot holds the submitted bytes, all of them or as many as the slot has room for, and their number |
| `DapEngine.DataIsSubmitted` | applications/dap_engine.c:59-70 | the bytes submitted are fixed when a submission begins |
| `DapEngine.AcceptedAreOffered` | applications/dap_engine.c:59-76 | in every run the accepted slots hold, in order and once each, what the submissions brought, less those turned away; with none turned away, all of them |
| `DapEngine.CopyingKeepsRest` | applications/dap_engine.c:69 | the copy leaves the rest of the slot and every other slot as they were |
| `DapEngine.DropsOnlyWhenFull` | applications/dap_engine.c:61-65 | a submission is turned away only at a moment when DAP_PACKET_COUNT requests wait |
| `DapEngine.OneTokenEach` | applications/dap_engine.c:74-83 | every accepted request brings one token, and the engine wakes once for each and never without |
| `DapEngine.AnswerGoesOut` | applications/dap_engine.c:92-97 | each answer that is not empty goes out behind the answers to earlier requests |
| `DapEngine.NothingElseGoesOut` | applications/dap_engine.c:92-97 | everything that goes out is such an answer |
| `DapEngine.SubmissionAdvances` | applications/dap_engine.c:59-76 | a submission ends within six of its own steps |
| `DapEngine.EngineDrains` | applications/dap_engine.c:82-105 | between submissions the engine, left alone, reaches the point where it has answered everything accepted and blocks |
| `DapEngine.CountersAgree` | applications/dap_engine.c:59-98 | when neither side is in mid-step, calls are accepted plus dropped, and accepted less processed is the occupancy |
| `DapEngine.BackToBackAccepted` | applications/dap_engine.c:27-31 | from an empty ring the next DAP_PACKET_COUNT submissions are all accepted, whatever the engine does meanwhile |
| `DapChannel.HostReadsResponses` | applications/dap_engine.c:85-98 | in every interleaving of submissions, engine, blocking send, IN callback and controller: what is executed is what was accepted, in order, and the host has read a subsequence of the responses to it, with all whose sends returned 0; while every send has returned 0 it has a prefix, and between sends all |
| `DapChannel.GivesUpAfterASecond` | applications/usb_if_dap.c:86-109 | in every run a send returns -4 or -6 only after 1001 looks in that wait that all found the flag set |
| `DapChannel.BlockedMeansAnswered` | applications/dap_engine.c:82-105 | blocked on an empty semaphore with no submission under way and no send failed, the host has read the answer to every request accepted, in acceptance order |
| `DapRing.RequestRing.Submit` | applications/dap_engine.c:59-76 | undisturbed, a submission is refused exactly when DAP_PACKET_COUNT requests wait, and otherwise joins the queue with one token, its bytes and their number in front of what the slot held before |
| `DapRing.RequestRing.Drain` | applications/dap_engine.c:85-105 | undisturbed, the inner loop executes everything queued once, in order, and passes on each answer that is not empty |
| `LockFreeList.Linearizable` | rt-thread/include/rtatomic.h:244-265 | every interleaving of any number of enqueuers and one dequeuer is a legal history of a stack, and at every moment the links spell out that stack, each node once; nodes taken out may be put back at any time |
| `LockFreeList.NullMeansEmpty` | rt-thread/include/rtatomic.h:254-265 | the dequeuer comes to return null only by a load of the head that found the stack empty |
| `LockFreeList.DequeuedWasTop` | rt-thread/include/rtatomic.h:254-265 | a node comes out only as the top of the stack at that moment |
| `LockFreeList.NothingLost` | rt-thread/include/rtatomic.h:244-265 | nodes put in are nodes taken out plus those still linked, none twice |
| `LockFreeList.EnqueueEndsByPush` | rt-thread/include/rtatomic.h:244-252 | a thread leaves its enqueue in a step if and only if that step pushes its node |
| `LockFreeList.FinishedEnqueuePushedOnce` | rt-thread/include/rtatomic.h:244-252 | every enqueue that has ended has pushed the node it began with, in its last step and in no other |
| `LockFreeList.FinishedDequeue` | rt-thread/include/rtatomic.h:254-265 | every dequeue that has ended hands out the node that its last step popped, or null after a load of its own has found the list empty; it pops nothing before |
| `LockFreeList.NullWasLoaded` | rt-thread/include/rtatomic.h:254-265 | a null in the dequeuer's hands comes from a load in the same call, at a moment when the stack was empty |
| `LockFreeList.EnqueueAdvances` | rt-thread/include/rtatomic.h:244-252 | each step of an enqueue brings it nearer to its end unless it is a swap that fails |
| `LockFreeList.DequeueAdvances` | rt-thread/include/rtatomic.h:254-265 | the same for the dequeue |
| `LockFreeList.FailureMeansProgress` | rt-thread/include/rtatomic.h:248-251 | lock freedom: a swap of an enqueuer fails only if another operation has taken effect since that enqueuer last loaded the head |
| `LockFreeList.DequeueFailureMeansProgress` | rt-thread/include/rtatomic.h:259-263 | the same for the dequeuer |
| `RefCount.CountsLiveReferences` | rt-thread/include/rtatomic.h:204-232 | in every interleaving without word overflow the counter is the number of live references, and when there are none exactly one decrement has reported zero |
| `RefCount.DeadStaysDead` | rt-thread/include/rtatomic.h:204-232 | after zero no increment succeeds and no second decrement reports zero, however many threads were already trying |
| `RefCount.RefusedOnlyWhenDead` | rt-thread/include/rtatomic.h:209-232 | an attempt ends exactly by taking a reference or by being refused, and is refused only when no reference is left, on a zero that a load or failed swap of its own has seen |
| `RefCount.SeenZero` | rt-thread/include/rtatomic.h:209-222 | a zero in a thread's hands was in the counter at a load or failed swap of the same attempt |
| `RefCount.GoesOnAfterFailedSwap` | rt-thread/include/rtatomic.h:213-219 | an attempt goes on exactly after a failed swap, with the value the counter held |
| `Atomic.Cell.CompareExchangeStrong` | rt-thread/include/rtatomic.h:183-201 | swaps if and only if the cell holds the expected value, and always hands back what it held |
| `Atomic.Cell.Sub` | rt-thread/include/rtatomic.h:97-106 | subtracts with wrap-around and hands back the value before |
| `Atomic.Cell.DecAndTest` | rt-thread/include/rtatomic.h:204-207 | true exactly for the decrement from one |
| `Atomic.Cell.FetchAddUnless` | rt-thread/include/rtatomic.h:209-222 | whatever other contexts do to the cell between the steps, as long as some turn is undisturbed: the loop ends, every turn before the last was disturbed, and the addition is applied to the value the cell held at the swap, or the excluded value was what the cell held and nothing is added |
| `Atomic.Cell.IncNotZero` | rt-thread/include/rtatomic.h:224-232 | under the same interference it adds one exactly when the cell was not zero at that moment, and otherwise leaves it zero |
| `DoublyLinkedList.RingUnique` | rt-thread/include/rtservice.h:50-95 | the links determine the sequence: a ring read from the same node is the same sequence |
| `DoublyLinkedList.RingRotates` | rt-thread/include/rtservice.h:50-95 | any node of a ring can serve as its head |
| `DoublyLinkedList.ListNode.constructor` | rt-thread/include/rtservice.h:43 | the static initializer makes a ring of one |
| `DoublyLinkedList.Init` | rt-thread/include/rtservice.h:50-53 | the node is alone, whatever its links were |
| `DoublyLinkedList.InsertAfter` | rt-thread/include/rtservice.h:61-68 | the ring gains exactly this node behind the given one; no other list changes |
| `DoublyLinkedList.InsertBefore` | rt-thread/include/rtservice.h:76-83 | the ring gains exactly this node before the given one, at the tail when that is the head; no other list changes |
| `DoublyLinkedList.Remove` | rt-thread/include/rtservice.h:89-95 | the ring loses exactly this node, which is then alone; no other list changes |
| `DoublyLinkedList.EmptyWhenAlone` | rt-thread/include/rtservice.h:101-104 | the emptiness test holds exactly for a head alone |
| `DoublyLinkedList.Len` | rt-thread/include/rtservice.h:110-121 | the walk ends and counts the nodes besides the head, modulo the counter's width |
| `DoublyLinkedList.RemoveWhileWalking` | rt-thread/include/rtservice.h:146-148 | the removal-safe walk visits every node once, in order, even if the body removes the current one, and the survivors stay linked in order |
| `SinglyLinkedList.ChainNeverRepeats` | rt-thread/include/rtservice.h:192-269 | a null-terminated list cannot contain a node twice |
| `SinglyLinkedList.ChainUnique` | rt-thread/include/rtservice.h:192-269 | the links determine the sequence |
| `SinglyLinkedList.Init` | rt-thread/include/rtservice.h:192-195 | the head has nothing behind it |
| `SinglyLinkedList.Append` | rt-thread/include/rtservice.h:197-207 | the walk ends and the node becomes the last |
| `SinglyLinkedList.Insert` | rt-thread/include/rtservice.h:209-213 | the node goes directly behind the given one, the rest stays |
| `SinglyLinkedList.Len` | rt-thread/include/rtservice.h:215-226 | the number of nodes behind the head, modulo the counter's width |
| `SinglyLinkedList.Pop` | rt-thread/include/rtservice.h:228-241 | the first node comes out unlinked and the rest stays; null exactly for an empty list |
| `SinglyLinkedList.Remove` | rt-thread/include/rtservice.h:243-257 | a node behind the head is taken out and unlinked wherever it is; an absent one, or the head itself, changes nothing |
| `SinglyLinkedList.Tail` | rt-thread/include/rtservice.h:264-269 | the last node, the head itself when the list is empty |
| `FlashErase.MaskRoundsUp` | board/fal_flash_port.c:219 | for a power-of-two sector the masked size is the true round-up if and only if size plus sector is at most 2^32 |
| `FlashErase.WrapLeavesNothing` | board/fal_flash_port.c:219 | otherwise it is zero |
| `FlashErase.WrapReadsAsError` | board/fal_flash_port.c:219-221 | then there is nothing to erase and the size is negative as an int |
| `FlashErase.WrapExample` | board/fal_flash_port.c:219-221 | size 0xFFFFF001 with 4096-byte sectors: nothing is erased and -4095 is returned |
| `FlashErase.EraseRegion` | board/fal_flash_port.c:217-252 | for every offset, size and device block size that rounds to whole sectors the remainder never underflows and the loop ends; when the ROM succeeds the commands are the plan and the size is returned, below 2^31 as it is and as a negative int from there on, otherwise they stop at the first failure with -1; when the round-up wraps no command is issued |
| `FlashErase.NeverComesOut` | board/fal_flash_port.c:228-250 | a rounded size that is not whole sectors, which only a device block size other than the sector size can give, never brings the counter to zero: without a ROM failure the loop does not end |
| `FlashErase.PlanTiles` | board/fal_flash_port.c:228-250 | from a sector-aligned offset the plan covers the region without gap or overlap, each command aligned to its unit and inside the 32-bit address range, if and only if the region lies in that range |
| `FlashErase.EveryByteOnce` | board/fal_flash_port.c:228-250 | a byte lies in a command of such a tiling if and only if it lies in the region, and then in one only |
| `FlashErase.PlanIsShortest` | board/fal_flash_port.c:231-240 | no other tiling by aligned blocks and sectors takes fewer commands |
| `FlashErase.PlanCoversRegion` | board/fal_flash_port.c:217-252 | the three together for the size the routine computes |
| `EnetGather.TxRing.WaitReleased` | libraries/drivers/drv_enet.c:401-408 | the wait ends; it succeeds exactly when the descriptor is no longer owned, and fails only after more ticks than the limit, in none of which the descriptor was given back |
| `EnetGather.TxRing.CopyInto` | libraries/drivers/drv_enet.c:411-413 | a copy needs a released descriptor and room, and changes nothing but its stretch of that buffer |
| `EnetGather.TxRing.AppendPiece` | libraries/drivers/drv_enet.c:444-451 | one copy extends what has been gathered by the next bytes of the payload |
| `EnetGather.TxRing.Transmit` | libraries/drivers/drv_enet.c:371-465 | whatever the outcome the buffers of descriptors the DMA still owns read as before; the loops end although a turn may copy nothing; with no descriptor owned the frame is always handed over, its length is the total plus 4 in 16 bits, the last descriptor filled is the one the total calls for, and the buffers in ring order hold the concatenated payloads whenever these are no longer than all buffers together |
| `EnetGather.GivenAreFilled` | libraries/hpm_sdk/drivers/src/hpm_enet_drv.c:665-672 | the descriptors counted at the hand-off are those filled if and only if the total plus 4 fits into them, and one more otherwise |
| `EnetGather.OneTooMany` | libraries/hpm_sdk/drivers/src/hpm_enet_drv.c:665-672 | 1536 bytes in 1536-byte buffers: one filled, two counted |
| `UartDma.Receiver.DmaRecvIsr` | libraries/drivers/drv_uart_v2.c:565-603 | with a ping buffer it is the interrupt step of the machine, for every remaining count; without one it does nothing |
| `UartDma.Receiver.ReceiveDmaNext` | libraries/drivers/drv_uart_v2.c:969-988 | the channel is enabled on the whole ping buffer again, and the whole buffer remains |
| `UartDma.InterruptExact` | libraries/drivers/drv_uart_v2.c:581-598 | in every reachable state, bytes lost before or not, one interrupt never reports more than arrived since the last one, and reports all of it if and only if fewer than a buffer came, or exactly a buffer from a fresh start whose wrap still shows as 0 |
| `UartDma.CircularAccount` | libraries/drivers/drv_uart_v2.c:581-598 | at every point of every run the reports add up to at most the bytes that had arrived at the last interrupt, and to exactly these if and only if every interrupt met that condition; each report is within the buffer |
| `UartDma.CircularExact` | libraries/drivers/drv_uart_v2.c:581-598 | with fewer than a buffer between interrupts the reports add up to the bytes received, whichever of 0 and the buffer size the wrap shows |
| `UartDma.SingleExact` | libraries/drivers/drv_uart_v2.c:679-700 | on a channel that stops at zero and is set up afresh this needs no condition |
| `UartDma.SingleFillsBuffers` | libraries/drivers/drv_uart_v2.c:679-700 | there a done interrupt comes only after a whole number of buffers, all of which have then been reported |
| `Crc32.Crc32` | libraries/hpm_sdk/utils/hpm_crc32.c:11-26 | the nested loops compute the complemented register |
| `Crc32.CheckValue` | libraries/hpm_sdk/utils/hpm_crc32.c:11-26 | the CRC of "123456789" is 0xCBF43926 |
| `Crc32.TableDriven` | libraries/hpm_sdk/utils/hpm_crc32.c:11-26 | it is the checksum of section 8 of RFC 1952: one table lookup per byte gives the same register |
| `Crc32.Residue` | libraries/hpm_sdk/utils/hpm_crc32.c:11-26 | every message followed by its own CRC, low byte first, has the CRC 0x2144DF1C |
| `Crc32.BurstChangesCrc` | libraries/hpm_sdk/utils/hpm_crc32.c:11-26 | messages of equal length that differ only within four consecutive bytes have different CRCs |
| `Crc32.RegisterInjective` | libraries/hpm_sdk/utils/hpm_crc32.c:15-23 | equal bytes never bring two different registers together |
| `Crc32Division.RegisterDivides` | libraries/hpm_sdk/utils/hpm_crc32.c:15-23 | read lowest bit first, c·x^(8n) + m·x^32 is a multiple of the CRC-32 generator plus the register, with the quotient exhibited |
| `Crc32Division.RegisterIsRemainder` | libraries/hpm_sdk/utils/hpm_crc32.c:15-23 | a register value is the remainder of that division if and only if it is what the loops compute |
| `Crc32Division.CrcIsRemainder` | libraries/hpm_sdk/utils/hpm_crc32.c:11-26 | a word is the CRC of m if and only if its complement is that remainder for the all-ones start value |

## Left out

- FrameBuild: a payload that overlaps the output buffer partly; the model's buffers are the same or apart. No caller passes either.
- FrameParser.Parser.Init: a null parser pointer, which the source turns away and no caller passes.
- Feed: the unreachable default branch of the state switch, because the state is an enumeration here.
- HostHasMessages: bus reset and configured events inside a send, whose handlers clear the busy flag unconditionally, so the statements are about the time between such events; the DAP channel's send is the same machine without the configured test.
- BackToBackAccepted: DAP_PACKET_COUNT and DAP_PACKET_SIZE are parameters, since DAP_config.h is not part of this model; the command handler is an arbitrary function of everything executed so far.
- CountersAgree: wrap-around of the 32-bit drop and debug counters.
- Linearizable: several concurrent dequeuers.
- CountsLiveReferences: references beyond the word width.
- FetchAddUnless: runs in which every turn of the retry loop is disturbed, so that it does not end; `RefCount` has no such limit.
- IncNotZero: the same.
- EraseRegion: a device block size that does not round to whole sectors, for which the loop does not end (`FlashErase.NeverComesOut`).
- GivenAreFilled: frames of 65532 bytes and more, whose length does not fit the hand-off's 16 bits, and buffers of fewer than four bytes.
- EverythingIsAnswered: controllers that are not prompt; for those `HostIsAnsweredInTime` says what a timely one gives in every run, and `HostReadsSome` what any does.
- Transmit: address translation, cache maintenance and the setting of own bits by the hand-off; a descriptor is given back by the DMA and never taken while the driver fills it.
- CircularExact: the packing of the length into the upper 24 bits of the framework's event word.
- CtrlLink, UsbIn, SendLog, CommandChannel, DapEngine, DapChannel, LockFreeList and RefCount are machines on values, since methods cannot be interleaved; CtrlRing, DispatchThread, DapRing and Atomic give the same code as methods on objects when nothing comes between.
- Memory barriers, caches and real time: accesses take effect in program order on one core, and timeouts count turns of the waiting loop.
- USB descriptors, enumeration and the USB stack: endpoint calls and callbacks are steps of the environment.
- usb_if_uart.c and usb_if_dapv1.c: an echo stub and a drain stub that repeat the send machine in an easier form.
- Flash read and write: the write path's error test compares an unsigned variable with zero and never fires.
- Ethernet reception, and UART reception without idle detection.
- Board, clock, pin and remaining peripheral drivers, the shell commands and the heartbeat.
