/** Routing of judged frames: which reply every outcome of the parser gets. */
module FrameDispatch {
  import opened FrameProto
  import opened FrameFormat
  import opened FrameParser
  import opened FrameDecoder

  const OP_PING: byte := 0x01
  const OP_ECHO: byte := 0x02
  const OP_UART_OPEN: byte := 0x10
  const OP_UART_WRITE: byte := 0x11
  const OP_UART_READ: byte := 0x12
  const OP_SPI_XFER: byte := 0x20
  const OP_SPI_SLAVE_TABLE: byte := 0x21
  const OP_I2C_XFER: byte := 0x30
  const OP_I2C_SLAVE_TABLE: byte := 0x31
  const OP_CAN_SEND: byte := 0x40
  const OP_CAN_RECV: byte := 0x41
  const OP_DAP_PASSTHROUGH: byte := 0x80
  const OP_LOG: byte := 0xFE
  const OP_ERROR: byte := 0xFF

  /** Who sends an op-code, according to the frozen table. */
  datatype Direction = ToDevice | ToHost | BothWays | NotFrozen

  function DirectionOf(op: byte): Direction {
    if op == OP_ECHO || op == OP_DAP_PASSTHROUGH then BothWays
    else if op == OP_UART_READ || op == OP_CAN_RECV || op == OP_LOG || op == OP_ERROR then ToHost
    else if op == OP_PING || op == OP_UART_OPEN || op == OP_UART_WRITE || op == OP_SPI_XFER || op == OP_SPI_SLAVE_TABLE
            || op == OP_I2C_XFER || op == OP_I2C_SLAVE_TABLE || op == OP_CAN_SEND then ToDevice
    else NotFrozen
  }

  const ERR_BAD_CRC: byte := 0x01
  const ERR_BAD_LEN: byte := 0x03
  const ERR_UNKNOWN_OP: byte := 0x04
  const ERR_NOT_IMPLEMENTED: byte := 0x05

  const PROTO_VERSION: bv16 := 0x0100
  const FW_VERSION_MAJOR: byte := 0x00
  const FW_VERSION_MINOR: byte := 0x01

  /** "hpm5300evk" */
  const BOARD_NAME: seq<byte> := [0x68, 0x70, 0x6D, 0x35, 0x33, 0x30, 0x30, 0x65, 0x76, 0x6B]

  /** The room in the PONG payload buffer behind the four version bytes, less the final NUL. */
  const MAX_NAME := 31

  /** The op-codes that the switch answers with NOT_IMPLEMENTED. */
  predicate IsReserved(op: byte) {
    op in {OP_UART_OPEN, OP_UART_WRITE, OP_SPI_XFER, OP_SPI_SLAVE_TABLE,
           OP_I2C_XFER, OP_I2C_SLAVE_TABLE, OP_CAN_SEND, OP_DAP_PASSTHROUGH}
  }

  datatype Reply = Reply(op: byte, len: bv16, payload: seq<byte>)

  function FrameOf(r: Reply): seq<byte> {
    Frame(r.op, r.len, r.payload)
  }

  function ErrorReply(code: byte): Reply {
    Reply(OP_ERROR, 1, [code])
  }

  function PongPayload(name: seq<byte>): (p: seq<byte>)
    ensures |p| <= 36
  {
    var shown := if |name| <= MAX_NAME then name else name[..MAX_NAME];
    [Lo(PROTO_VERSION), Hi(PROTO_VERSION), FW_VERSION_MAJOR, FW_VERSION_MINOR] + shown + [0]
  }

  function Length(n: nat): bv16
    requires n <= 36
  {
    n as bv16
  }

  lemma LengthIsSize(n: nat)
    requires n <= 36
    ensures Size(Length(n)) == n
  {
  }

  function PongReply(name: seq<byte>): Reply {
    Reply(OP_PING, Length(|PongPayload(name)|), PongPayload(name))
  }

  function ReplyTo(op: byte, len: bv16, payload: seq<byte>): Reply {
    if op == OP_PING then PongReply(BOARD_NAME)
    else if op == OP_ECHO then Reply(OP_ECHO, len, payload)
    else if IsReserved(op) then ErrorReply(ERR_NOT_IMPLEMENTED)
    else ErrorReply(ERR_UNKNOWN_OP)
  }

  /** The table promises NOT_IMPLEMENTED for every frozen op-code without a handler. The dispatcher keeps that
      promise exactly for the codes a host may send; those only the device sends are unknown to it. */
  lemma NotImplementedExactly(op: byte, len: bv16, payload: seq<byte>)
    requires DirectionOf(op) != NotFrozen && op != OP_PING && op != OP_ECHO
    ensures ReplyTo(op, len, payload) == ErrorReply(ERR_NOT_IMPLEMENTED) <==> DirectionOf(op) != ToHost
    ensures ReplyTo(op, len, payload) == ErrorReply(ERR_UNKNOWN_OP) <==> DirectionOf(op) == ToHost
  {
    assert [ERR_NOT_IMPLEMENTED][0] != [ERR_UNKNOWN_OP][0];
  }

  /** An op-code outside the table is unknown. */
  lemma UnfrozenIsUnknown(op: byte, len: bv16, payload: seq<byte>)
    requires DirectionOf(op) == NotFrozen
    ensures ReplyTo(op, len, payload) == ErrorReply(ERR_UNKNOWN_OP)
  {
  }

  /** The four codes for which the promise fails, whatever the payload. */
  lemma DeviceCodesAreUnknown(len: bv16, payload: seq<byte>)
    ensures forall op: byte :: op in {0x12, 0x41, 0xFE, 0xFF} <==> DirectionOf(op) == ToHost
    ensures ReplyTo(0x12, len, payload) == ReplyTo(0x41, len, payload) == ErrorReply(ERR_UNKNOWN_OP)
    ensures ReplyTo(0xFE, len, payload) == ReplyTo(0xFF, len, payload) == ErrorReply(ERR_UNKNOWN_OP)
    ensures ErrorReply(ERR_UNKNOWN_OP) != ErrorReply(ERR_NOT_IMPLEMENTED)
  {
    assert [ERR_NOT_IMPLEMENTED][0] != [ERR_UNKNOWN_OP][0];
  }

  /** What the dispatch thread answers when the parser has come to a judgement. */
  function Answer(o: Outcome): Reply
    requires o != Nothing
  {
    match o
    case Good(op, len, payload) => ReplyTo(op, len, payload)
    case BadCrc => ErrorReply(ERR_BAD_CRC)
    case BadLen => ErrorReply(ERR_BAD_LEN)
  }

  predicate Proper(o: Outcome) {
    o != Nothing && (o.Good? ==> Sendable(o.len, o.payload))
  }

  lemma AnswerFits(o: Outcome)
    requires Proper(o)
    ensures Sendable(Answer(o).len, Answer(o).payload)
  {
    LengthIsSize(|PongPayload(BOARD_NAME)|);
    assert Size(1) == 1;
    hide Size, Length, PongPayload, Lo, Hi;
  }

  // ---------------------------------------------------------------- handlers

  /** The error path of every handler: nothing is built when the reply does not fit. */
  function Built(r: Reply, cap: nat): nat {
    if |r.payload| > MAX_PAYLOAD || cap < FRAME_OVERHEAD + |r.payload| then 0 else FRAME_OVERHEAD + |r.payload|
  }

  method BuildError(err: byte, resp: array<byte>, cap: nat) returns (n: nat)
    requires cap <= resp.Length
    modifies resp
    ensures n == Built(ErrorReply(err), cap)
    ensures n > 0 ==> resp[..n] == FrameOf(ErrorReply(err))
  {
    assert Size(1) == 1;
    hide Size, Frame;
    var code := new byte[1];
    code[0] := err;
    n := FrameBuild(OP_ERROR, code, 1, resp, cap);
    assert code[..1] == [err];
  }

  /** The board name is a C string: its text, which holds no NUL, and a NUL behind it. */
  method HandlePing(text: seq<byte>, resp: array<byte>, cap: nat) returns (n: nat)
    requires 0 !in text
    requires cap <= resp.Length
    modifies resp
    ensures n == Built(PongReply(text), cap)
    ensures n > 0 ==> resp[..n] == FrameOf(PongReply(text))
  {
    hide Size, Frame, Lo, Hi, Length;
    var name := text + [0];
    var payload := new byte[36];
    ghost var version := [Lo(PROTO_VERSION), Hi(PROTO_VERSION), FW_VERSION_MAJOR, FW_VERSION_MINOR];
    payload[0] := Lo(PROTO_VERSION);
    payload[1] := Hi(PROTO_VERSION);
    payload[2] := FW_VERSION_MAJOR;
    payload[3] := FW_VERSION_MINOR;
    var maxName := payload.Length - 4 - 1;
    var i := 0;
    while name[i] != 0 && i < maxName
      invariant 0 <= i <= |text| && i <= maxName
      invariant payload[..4 + i] == version + text[..i]
      decreases maxName - i
    {
      payload[4 + i] := name[i];
      i := i + 1;
    }
    assert i < |text| ==> text[i] in text;
    assert text[..|text|] == text;
    payload[4 + i] := 0;
    assert payload[..4 + i + 1] == PongPayload(text);
    LengthIsSize(4 + i + 1);
    n := FrameBuild(OP_PING, payload, Length(4 + i + 1), resp, cap);
  }

  /** What an echo carries: the payload, which would be lost only if it lay in the response buffer itself. */
  function Echoed(payload: array<byte>, len: bv16, resp: array<byte>): (p: seq<byte>)
    requires Size(len) <= payload.Length
    reads payload
    ensures |p| == Size(len)
    ensures payload != resp ==> p == payload[..Size(len)]
  {
    Carried(Covered(OP_ECHO, len, []), payload, Size(len), resp)
  }

  method HandleEcho(payload: array<byte>, len: bv16, resp: array<byte>, cap: nat) returns (n: nat)
    requires Size(len) <= payload.Length
    requires cap <= resp.Length
    modifies resp
    ensures n == old(Built(Reply(OP_ECHO, len, Echoed(payload, len, resp)), cap))
    ensures n > 0 ==> resp[..n] == FrameOf(Reply(OP_ECHO, len, old(Echoed(payload, len, resp))))
  {
    hide Size, Frame, Carried, Covered;
    n := FrameBuild(OP_ECHO, payload, len, resp, cap);
  }

  lemma PongShape()
    ensures var f := FrameOf(PongReply(BOARD_NAME));
      |f| == 22 && f[2] == 0x01 && f[9..19] == BOARD_NAME
  {
    hide Lo, Hi, Length;
  }

  lemma ErrorShape(code: byte)
    ensures var f := FrameOf(ErrorReply(code));
      |f| == 8 && f[2] == 0xFF && f[5] == code
  {
    hide Lo, Hi;
  }

  method Dispatch(op: byte, payload: array<byte>, len: bv16, resp: array<byte>, cap: nat) returns (n: nat)
    requires Size(len) <= payload.Length
    requires cap <= resp.Length
    modifies resp
    ensures n == Built(ReplyTo(op, len, old(Echoed(payload, len, resp))), cap)
    ensures n > 0 ==> resp[..n] == FrameOf(ReplyTo(op, len, old(Echoed(payload, len, resp))))
    ensures n > 0 && op == 0x01 ==> n == 22 && resp[..n][2] == 0x01 && resp[..n][9..19] == BOARD_NAME
    ensures n > 0 && op == 0x02 && payload != resp ==> resp[..n] == Frame(0x02, len, old(payload[..Size(len)]))
    ensures n > 0 && op != 0x01 && op != 0x02 ==> n == 8 && resp[..n][2] == 0xFF && resp[..n][5] in {0x04, 0x05}
  {
    PongShape();
    ErrorShape(0x04);
    ErrorShape(0x05);
    hide Size, FrameOf, PongReply, ErrorReply, Echoed;
    if op == OP_PING {
      n := HandlePing(BOARD_NAME, resp, cap);
    } else if op == OP_ECHO {
      n := HandleEcho(payload, len, resp, cap);
      EchoIsFrame(len, old(Echoed(payload, len, resp)));
    } else if IsReserved(op) {
      n := BuildError(ERR_NOT_IMPLEMENTED, resp, cap);
    } else {
      n := BuildError(ERR_UNKNOWN_OP, resp, cap);
    }
  }

  lemma EchoIsFrame(len: bv16, payload: seq<byte>)
    ensures FrameOf(Reply(OP_ECHO, len, payload)) == Frame(0x02, len, payload)
  {
    hide Frame;
  }

  // ---------------------------------------------------------------- the stream of responses

  ghost predicate AllProper(reports: seq<Report>) {
    forall i | 0 <= i < |reports| :: Proper(reports[i].outcome)
  }

  /** One reply for every report, in order. */
  function Replies(reports: seq<Report>): (replies: seq<Reply>)
    requires AllProper(reports)
    ensures |replies| == |reports|
    ensures forall i | 0 <= i < |reports| :: replies[i] == Answer(reports[i].outcome)
  {
    seq(|reports|, i requires 0 <= i < |reports| && AllProper(reports) => Answer(reports[i].outcome))
  }

  /** The frames of a list of replies, one after the other on the wire. */
  function WireOf(replies: seq<Reply>): seq<byte> {
    if replies == [] then [] else FrameOf(replies[0]) + WireOf(replies[1..])
  }

  lemma NextProper(p: seq<byte>, b: byte)
    requires IsPending(p)
    ensures Next(p, b).1 != Nothing ==> Proper(Next(p, b).1)
  {
    hide Size, Frame, Join;
  }

  lemma {:induction false} ReportsProper(p: seq<byte>, s: seq<byte>, at: nat)
    requires IsPending(p)
    ensures AllProper(Reports(p, s, at))
    decreases s
  {
    hide Next, IsPending, Proper;
    if s != [] {
      NextProper(p, s[0]);
      ReportsProper(Next(p, s[0]).0, s[1..], at + 1);
    }
  }

  /** One more byte fed is at most one more reply. */
  lemma RepliesGrow(p0: seq<byte>, fed: seq<byte>, b: byte)
    requires IsPending(p0)
    ensures AllProper(Reports(p0, fed, 0)) && AllProper(Reports(p0, fed + [b], 0))
    ensures var step := Next(Held(p0, fed), b);
            && Held(p0, fed + [b]) == step.0
            && Replies(Reports(p0, fed + [b], 0)) ==
               Replies(Reports(p0, fed, 0)) + if step.1 == Nothing then [] else [Answer(step.1)]
  {
    hide Next, IsPending, Answer, Proper;
    FeedInPieces(p0, fed, [b], 0);
    ReportsProper(p0, fed, 0);
    ReportsProper(p0, fed + [b], 0);
  }

  /** A host that runs the same decoder over the responses gets back exactly the replies, in order. */
  lemma ResponsesDecode(reports: seq<Report>, at: nat)
    requires AllProper(reports)
    ensures var bursts := Silent(Replies(reports));
            && WireOf(Replies(reports)) == OnWire(bursts)
            && Decode(WireOf(Replies(reports)), at) == Expected(bursts, at)
  {
    hide Sendable, Decode, OnWire, WireOf, Answer, Proper;
    var replies := Replies(reports);
    forall i | 0 <= i < |replies| ensures Sendable(replies[i].len, replies[i].payload) {
      AnswerFits(reports[i].outcome);
    }
    WireIsSilentBursts(replies);
    RoundTripUnderNoise(Silent(replies), [], at);
    assert OnWire(Silent(replies)) + [] == OnWire(Silent(replies));
  }

  /** Replies sent without any noise in between. */
  function Silent(replies: seq<Reply>): (bursts: seq<Burst>)
    ensures |bursts| == |replies|
    ensures forall i | 0 <= i < |replies| ::
              bursts[i] == Burst([], replies[i].op, replies[i].len, replies[i].payload)
  {
    seq(|replies|, i requires 0 <= i < |replies| =>
      Burst([], replies[i].op, replies[i].len, replies[i].payload))
  }

  lemma {:induction false} WireIsSilentBursts(replies: seq<Reply>)
    ensures WireOf(replies) == OnWire(Silent(replies))
  {
    hide Frame;
    if replies != [] {
      WireIsSilentBursts(replies[1..]);
      assert Silent(replies)[1..] == Silent(replies[1..]);
      assert [] + FrameOf(replies[0]) == FrameOf(replies[0]);
    }
  }
}
