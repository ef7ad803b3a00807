/** The answers spelled out in bytes. What a host puts on the wire and what it gets back are related here without the
    parser, the dispatcher or the builder: only the layout of a frame, the CRC, and the numbers of the protocol. */
module WireAnswers {
  import opened FrameProto
  import opened Crc16
  import opened FrameFormat
  import opened FrameParser
  import opened FrameDecoder
  import opened FrameDispatch
  import opened DispatchThread
  import CommandChannel
  import CtrlLink
  import SendLog

  // ---------------------------------------------------------------- frames in bytes

  /** Two bytes, low one first. */
  function LowFirst(lo: byte, hi: byte): bv16 {
    (lo as bv16) | ((hi as bv16) << 8)
  }

  /** The frame that carries this op-code and payload. */
  predicate Carries(f: seq<byte>, op: byte, payload: seq<byte>) {
    && |f| == |payload| + 7
    && f[0] == 0x4C && f[1] == 0x4B && f[2] == op
    && LowFirst(f[3], f[4]) as int == |payload|
    && f[5..|f| - 2] == payload
    && LowFirst(f[|f| - 2], f[|f| - 1]) == Crc(f[..|f| - 2])
  }

  /** What a host may put on the wire and get an answer to: a header that announces more than 4096 bytes of payload, or
      a header and what it announces, whatever the CRC. */
  predicate IsRequest(f: seq<byte>) {
    && |f| >= 5 && f[0] == 0x4C && f[1] == 0x4B
    && var len := LowFirst(f[3], f[4]) as int;
       if len > 4096 then |f| == 5 else |f| == len + 7
  }

  /** "hpm5300evk" and a NUL behind protocol version 1.0 and firmware version 0.1. */
  const PONG: seq<byte> :=
    [0x00, 0x01, 0x00, 0x01, 0x68, 0x70, 0x6D, 0x35, 0x33, 0x30, 0x30, 0x65, 0x76, 0x6B, 0x00]

  /** What the answer to an intact frame carries. */
  predicate Suits(f: seq<byte>, op: byte, g: seq<byte>) {
    if op == 0x01 then Carries(g, 0x01, PONG)
    else if op == 0x02 then g == f
    else if op in {0x10, 0x11, 0x20, 0x21, 0x30, 0x31, 0x40, 0x80} then Carries(g, 0xFF, [0x05])
    else Carries(g, 0xFF, [0x04])
  }

  /** g is the answer to f. */
  predicate Answers(f: seq<byte>, g: seq<byte>)
    requires IsRequest(f)
  {
    if |f| == 5 then Carries(g, 0xFF, [0x03])
    else if LowFirst(f[|f| - 2], f[|f| - 1]) != Crc(f[..|f| - 2]) then Carries(g, 0xFF, [0x01])
    else Suits(f, f[2], g)
  }

  lemma LowFirstIsJoin(lo: byte, hi: byte)
    ensures LowFirst(lo, hi) == Join(lo, hi) && LowFirst(lo, hi) as int == Size(Join(lo, hi))
  {
  }

  lemma CarriedIsFrame(f: seq<byte>, op: byte, payload: seq<byte>)
    requires Carries(f, op, payload)
    ensures f == Frame(op, LenField(f), payload) && Size(LenField(f)) == |payload|
  {
    LowFirstIsJoin(f[3], f[4]);
    LowFirstIsJoin(f[|f| - 2], f[|f| - 1]);
    VerdictByCrc(f);
    hide LowFirst, Join, Size, Crc, Frame;
  }

  lemma SameSize(x: bv16, y: bv16)
    requires Size(x) == Size(y)
    ensures x == y
  {
    assert (x as int) as bv16 == x && (y as int) as bv16 == y;
  }

  /** No two frames carry the same, so every request has one answer. */
  lemma CarriedOnce(f: seq<byte>, g: seq<byte>, op: byte, payload: seq<byte>)
    requires Carries(f, op, payload) && Carries(g, op, payload)
    ensures f == g
  {
    CarriedIsFrame(f, op, payload);
    CarriedIsFrame(g, op, payload);
    SameSize(LenField(f), LenField(g));
    hide Carries, LenField, Frame, Size;
  }

  lemma AnswersOnce(f: seq<byte>, g: seq<byte>, h: seq<byte>)
    requires IsRequest(f) && Answers(f, g) && Answers(f, h)
    ensures g == h
  {
    hide Carries, LowFirst, Crc;
    if |f| == 5 { CarriedOnce(g, h, 0xFF, [0x03]); }
    else if LowFirst(f[|f| - 2], f[|f| - 1]) != Crc(f[..|f| - 2]) { CarriedOnce(g, h, 0xFF, [0x01]); }
    else if f[2] == 0x01 { CarriedOnce(g, h, 0x01, PONG); }
    else if f[2] == 0x02 {}
    else if f[2] in {0x10, 0x11, 0x20, 0x21, 0x30, 0x31, 0x40, 0x80} { CarriedOnce(g, h, 0xFF, [0x05]); }
    else { CarriedOnce(g, h, 0xFF, [0x04]); }
  }

  lemma LowFirstOfCrc(x: bv16)
    ensures LowFirst(Lo(x), Hi(x)) == x
  {
  }

  lemma FrameCarries(op: byte, len: bv16, payload: seq<byte>)
    requires |payload| == Size(len)
    ensures Carries(Frame(op, len, payload), op, payload)
  {
    FrameLayout(op, len, payload);
    var f := Frame(op, len, payload);
    LowFirstIsJoin(f[3], f[4]);
    LowFirstOfCrc(Crc(Covered(op, len, payload)));
    hide LowFirst, Join, Lo, Hi, Crc, Size;
  }

  // ---------------------------------------------------------------- one request

  /** What the parser makes of a request. */
  function Judged(f: seq<byte>): Outcome
    requires IsRequest(f)
  {
    if |f| == 5 then BadLen else Verdict(f)
  }

  lemma RequestDecodes(f: seq<byte>, rest: seq<byte>, at: nat)
    requires IsRequest(f)
    ensures Decode(f + rest, at) == [Report(at + |f| - 1, Judged(f))] + Decode(rest, at + |f|)
  {
    LowFirstIsJoin(f[3], f[4]);
    hide LowFirst, Join, Size, Verdict, Decode;
    if |f| == 5 {
      DecodeBadLen(f, rest, at);
    } else {
      DecodeWhole(f, rest, at);
    }
  }

  lemma Judgement(f: seq<byte>)
    requires IsRequest(f) && |f| > 5
    ensures var intact := LowFirst(f[|f| - 2], f[|f| - 1]) == Crc(f[..|f| - 2]);
      if intact then
        && Judged(f) == Good(f[2], LenField(f), f[5..|f| - 2]) && Sendable(LenField(f), f[5..|f| - 2])
        && f == Frame(f[2], LenField(f), f[5..|f| - 2])
      else Judged(f) == BadCrc
  {
    LowFirstIsJoin(f[3], f[4]);
    LowFirstIsJoin(f[|f| - 2], f[|f| - 1]);
    VerdictByCrc(f);
    hide LowFirst, Join, Size, Crc, Frame;
  }

  lemma ErrorCarries(code: byte)
    ensures Carries(FrameOf(ErrorReply(code)), 0xFF, [code])
  {
    assert Size(1) == 1;
    hide Carries, Frame, Size;
    FrameCarries(0xFF, 1, [code]);
  }

  lemma PongCarries()
    ensures Carries(FrameOf(PongReply(BOARD_NAME)), 0x01, PONG)
  {
    VersionBytes();
    LengthIsSize(15);
    hide Carries, Frame, Size, Length, Lo, Hi;
    assert PongPayload(BOARD_NAME) == PONG;
    FrameCarries(0x01, Length(15), PONG);
  }

  lemma VersionBytes()
    ensures Lo(PROTO_VERSION) == 0x00 && Hi(PROTO_VERSION) == 0x01
  {
  }

  lemma Routed(op: byte, len: bv16, payload: seq<byte>)
    ensures op == 0x01 ==> ReplyTo(op, len, payload) == PongReply(BOARD_NAME)
    ensures op == 0x02 ==> ReplyTo(op, len, payload) == Reply(op, len, payload)
    ensures op != 0x01 && op != 0x02 ==>
              ReplyTo(op, len, payload) ==
              ErrorReply(if op in {0x10, 0x11, 0x20, 0x21, 0x30, 0x31, 0x40, 0x80} then 0x05 else 0x04)
  {
    hide PongReply;
  }

  lemma RoutedSuits(op: byte, len: bv16, payload: seq<byte>)
    ensures Suits(Frame(op, len, payload), op, FrameOf(ReplyTo(op, len, payload)))
  {
    Routed(op, len, payload);
    hide Carries, Frame, PongReply, ErrorReply, ReplyTo;
    PongCarries();
    ErrorCarries(0x04);
    ErrorCarries(0x05);
  }

  lemma GoodIsAnswered(f: seq<byte>)
    requires IsRequest(f) && |f| > 5 && LowFirst(f[|f| - 2], f[|f| - 1]) == Crc(f[..|f| - 2])
    ensures Proper(Judged(f)) && Answers(f, FrameOf(Answer(Judged(f))))
  {
    Judgement(f);
    RoutedSuits(f[2], LenField(f), f[5..|f| - 2]);
    hide LowFirst, Crc, Frame, FrameOf, Judged, LenField, Sendable, ReplyTo, Suits;
  }

  /** Every request gets its answer. */
  lemma RequestIsAnswered(f: seq<byte>)
    requires IsRequest(f)
    ensures Proper(Judged(f)) && Answers(f, FrameOf(Answer(Judged(f))))
  {
    if |f| > 5 { Judgement(f); }
    hide LowFirst, Carries, Crc, Frame, Verdict, LenField, Sendable, PongReply, ErrorReply, ReplyTo;
    if |f| == 5 {
      ErrorCarries(0x03);
    } else if LowFirst(f[|f| - 2], f[|f| - 1]) != Crc(f[..|f| - 2]) {
      ErrorCarries(0x01);
    } else {
      GoodIsAnswered(f);
    }
  }

  // ---------------------------------------------------------------- streams of requests

  /** A request and the noise in front of it. */
  datatype Item = Item(noise: seq<byte>, request: seq<byte>)

  ghost predicate AreRequests(items: seq<Item>) {
    forall i | 0 <= i < |items| :: PairFree(items[i].noise) && IsRequest(items[i].request)
  }

  function Stream(items: seq<Item>): seq<byte> {
    if items == [] then [] else items[0].noise + items[0].request + Stream(items[1..])
  }

  /** One answer for each request, in order, and nothing else. */
  ghost predicate AllAnswered(items: seq<Item>, got: seq<seq<byte>>)
    requires AreRequests(items)
  {
    |got| == |items| && forall i | 0 <= i < |items| :: Answers(items[i].request, got[i])
  }

  lemma {:induction false} StreamDecodes(items: seq<Item>, tail: seq<byte>, at: nat)
    requires AreRequests(items) && PairFree(tail)
    ensures var reports := Decode(Stream(items) + tail, at);
      |reports| == |items| && forall i | 0 <= i < |items| :: reports[i].outcome == Judged(items[i].request)
    decreases |items|
  {
    hide Decode, Judged;
    if items == [] {
      NoiseSkipped(tail, [], at);
      assert Stream(items) + tail == tail == tail + [];
      PendingDecodesToNothing([], at + |tail|);
    } else {
      var noise, f := items[0].noise, items[0].request;
      var rest := Stream(items[1..]) + tail;
      assert Stream(items) + tail == noise + (f + rest);
      NoiseSkipped(noise, f + rest, at);
      RequestDecodes(f, rest, at + |noise|);
      StreamDecodes(items[1..], tail, at + |noise| + |f|);
    }
  }

  /** On every stream of requests, with noise anywhere between them, the replies are the answers. */
  lemma StreamIsAnswered(items: seq<Item>, tail: seq<byte>)
    requires AreRequests(items) && PairFree(tail)
    ensures AllProper(Decode(Stream(items) + tail, 0))
    ensures AllAnswered(items, Frames(Replies(Decode(Stream(items) + tail, 0))))
  {
    StreamDecodes(items, tail, 0);
    hide Stream, Decode, Judged, IsRequest, Answers, Answer, FrameOf, Proper;
    forall i | 0 <= i < |items|
      ensures Proper(Judged(items[i].request)) && Answers(items[i].request, FrameOf(Answer(Judged(items[i].request))))
    {
      RequestIsAnswered(items[i].request);
    }
  }

  // ---------------------------------------------------------------- the link and the channel

  /** The responses the thread has passed on are the answers to what it was fed. */
  lemma LinkAnswers(run: seq<CtrlLink.Link>, k: nat, items: seq<Item>, tail: seq<byte>)
    requires CtrlLink.IsRun(run) && k < |run|
    requires AreRequests(items) && PairFree(tail) && CtrlLink.Fed(run[k]) == Stream(items) + tail
    ensures AllAnswered(items, Frames(run[k].sent))
  {
    StreamIsAnswered(items, tail);
    CtrlLink.EndToEnd(run, k);
    hide CtrlLink.IsRun, AreRequests, Stream, Decode, AllAnswered, AllProper;
  }

  /** From the packets of the host to the packets for the host: when nothing was dropped, every send succeeded, and
      nothing is in flight, the host has the answer to each request it put on the wire, in order, and nothing else. */
  lemma HostHasAnswers(mps: nat, run: seq<CommandChannel.Channel>, k: nat, items: seq<Item>, tail: seq<byte>)
    requires CommandChannel.IsRun(mps, run) && k < |run|
    requires AreRequests(items) && PairFree(tail) && run[k].link.arrived == Stream(items) + tail
    requires forall i :: 0 <= i < |run[k].log.results| ==> run[k].log.results[i] == 0
    requires run[k].link.dropped == 0 && CtrlLink.Quiescent(run[k].link) && run[k].log.usb.pc.Outside?
    ensures AllAnswered(items, CommandChannel.Host(mps, run[k]))
  {
    StreamIsAnswered(items, tail);
    CommandChannel.HostIsAnswered(mps, run, k);
    hide CommandChannel.IsRun, CommandChannel.Host, AreRequests, Stream, Decode, AllAnswered, AllProper;
  }

  /** One ECHO frame put on the wire: the very same bytes come back. */
  lemma EchoComesBack(mps: nat, run: seq<CommandChannel.Channel>, k: nat, f: seq<byte>, payload: seq<byte>)
    requires CommandChannel.IsRun(mps, run) && k < |run|
    requires Carries(f, 0x02, payload) && |payload| <= 4096 && run[k].link.arrived == f
    requires forall i :: 0 <= i < |run[k].log.results| ==> run[k].log.results[i] == 0
    requires run[k].link.dropped == 0 && CtrlLink.Quiescent(run[k].link) && run[k].log.usb.pc.Outside?
    ensures CommandChannel.Host(mps, run[k]) == [f]
  {
    hide CommandChannel.IsRun, CommandChannel.Host, CtrlLink.Quiescent, LowFirst, Crc;
    var items := [Item([], f)];
    assert items[1..] == [] && Stream(items) + [] == f;
    HostHasAnswers(mps, run, k, items, []);
    assert Answers(items[0].request, CommandChannel.Host(mps, run[k])[0]);
  }

  /** One PING frame put on the wire: one PONG comes back. */
  lemma PingGetsPong(mps: nat, run: seq<CommandChannel.Channel>, k: nat)
    requires CommandChannel.IsRun(mps, run) && k < |run|
    requires run[k].link.arrived == [0x4C, 0x4B, 0x01, 0x00, 0x00, 0xFC, 0xCC]
    requires forall i :: 0 <= i < |run[k].log.results| ==> run[k].log.results[i] == 0
    requires run[k].link.dropped == 0 && CtrlLink.Quiescent(run[k].link) && run[k].log.usb.pc.Outside?
    ensures |CommandChannel.Host(mps, run[k])| == 1 && Carries(CommandChannel.Host(mps, run[k])[0], 0x01, PONG)
  {
    hide CommandChannel.IsRun, CommandChannel.Host, CtrlLink.Quiescent, LowFirst, Crc;
    PingFrame();
    var f: seq<byte> := [0x4C, 0x4B, 0x01, 0x00, 0x00, 0xFC, 0xCC];
    var items := [Item([], f)];
    assert items[1..] == [] && Stream(items) + [] == f;
    HostHasAnswers(mps, run, k, items, []);
    assert Answers(items[0].request, CommandChannel.Host(mps, run[k])[0]);
  }

  /** The PING frame in bytes. */
  lemma PingFrame()
    ensures Carries([0x4C, 0x4B, 0x01, 0x00, 0x00, 0xFC, 0xCC], 0x01, [])
  {
    PingWords();
    PingCrc();
    hide LowFirst, Crc;
    var f: seq<byte> := [0x4C, 0x4B, 0x01, 0x00, 0x00, 0xFC, 0xCC];
    assert f[..5] == [0x4C, 0x4B, 0x01, 0x00, 0x00] && f[5..5] == [];
  }

  lemma PingWords()
    ensures LowFirst(0x00, 0x00) as int == 0 && LowFirst(0xFC, 0xCC) == 0xCCFC
  {
  }

  lemma PingSteps()
    ensures ByteStep(0xFFFF, 0x4C) == 0x68B8
    ensures ByteStep(0x68B8, 0x4B) == 0xAC01
    ensures ByteStep(0xAC01, 0x01) == 0x6547
    ensures ByteStep(0x6547, 0x00) == 0x7B03
    ensures ByteStep(0x7B03, 0x00) == 0xCCFC
  {
    ByteInHalves(0xFFFF, 0x4C, 0xB3FF, 0x8E9B, 0x68B8);
    ByteInHalves(0x68B8, 0x4B, 0x23B8, 0x1BC2, 0xAC01);
    ByteInHalves(0xAC01, 0x01, 0xAD01, 0x715A, 0x6547);
    ByteInHalves(0x6547, 0x00, 0x6547, 0x34B6, 0x7B03);
    ByteInHalves(0x7B03, 0x00, 0x7B03, 0xC0D7, 0xCCFC);
  }

  lemma PingCrc()
    ensures Crc([0x4C, 0x4B, 0x01, 0x00, 0x00]) == 0xCCFC
  {
    hide ByteStep, Update;
    PingSteps();
    var m: seq<byte> := [0x4C, 0x4B, 0x01, 0x00, 0x00];
    assert m[..0] == [] && m[..5] == m;
    UpdateNothing(CRC16_INIT);
    UpdateNext(CRC16_INIT, m, 0);
    UpdateNext(CRC16_INIT, m, 1);
    UpdateNext(CRC16_INIT, m, 2);
    UpdateNext(CRC16_INIT, m, 3);
    UpdateNext(CRC16_INIT, m, 4);
  }
}
