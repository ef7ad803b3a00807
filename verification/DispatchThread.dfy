/** The inner loop of the dispatch thread, on the parser and the ring as objects. */
module DispatchThread {
  import opened FrameProto
  import opened FrameFormat
  import opened FrameParser
  import opened FrameDecoder
  import opened FrameDispatch
  import opened CtrlRing

  function Frames(replies: seq<Reply>): (f: seq<seq<byte>>)
    ensures |f| == |replies|
  {
    seq(|replies|, i requires 0 <= i < |replies| => FrameOf(replies[i]))
  }

  /** Builds the response to one judgement; `resp` is large enough for every frame. */
  method BuildResponse(r: FrameResult, parser: Parser, resp: array<byte>, ghost o: Outcome) returns (n: nat)
    requires parser.Valid() && resp.Length == MAX_FRAME && resp != parser.payload
    requires r == ResultOf(o) && (o == Nothing || Proper(o))
    requires o.Good? ==> parser.op == o.op && parser.len == o.len && parser.payload[..Size(parser.len)] == o.payload
    modifies resp
    ensures n == 0 <==> o == Nothing
    ensures n > 0 ==> n <= resp.Length && resp[..n] == FrameOf(Answer(o))
  {
    if o != Nothing { AnswerFits(o); }
    hide FrameOf, Size, PongPayload, Length, IsReserved, Echoed;
    match r {
      case FrOk => n := Dispatch(parser.op, parser.payload, parser.len, resp, resp.Length);
      case FrBadCrc => n := BuildError(ERR_BAD_CRC, resp, resp.Length);
      case FrBadLen => n := BuildError(ERR_BAD_LEN, resp, resp.Length);
      case FrNone => n := 0;
    }
  }

  /** One byte through the parser and, if it completes something, its response. */
  method HandleByte(b: byte, parser: Parser, resp: array<byte>) returns (n: nat)
    requires parser.Valid() && resp.Length == MAX_FRAME && resp != parser.payload
    modifies parser, parser.payload, resp
    ensures parser.Valid()
    ensures var step := Next(old(parser.pending), b);
            && parser.pending == step.0
            && (n == 0 <==> step.1 == Nothing)
            && (n > 0 ==> n <= resp.Length && resp[..n] == FrameOf(Answer(step.1)))
  {
    ghost var p := parser.pending;
    NextProper(p, b);
    hide Next, IsPending, Phase, Proper, Answer, FrameOf, ResultOf, Size, Parser.Valid;
    var r := parser.Feed(b);
    n := BuildResponse(r, parser, resp, Next(p, b).1);
  }

  /** One turn of the inner loop; without a byte in the ring nothing happens. */
  method Turn(parser: Parser, ring: RxRing, resp: array<byte>) returns (some: bool, b: byte, n: nat)
    requires parser.Valid() && ring.Valid() && resp.Length == MAX_FRAME
    requires resp != parser.payload && resp != ring.buf && ring.buf != parser.payload
    modifies parser, parser.payload, ring`tail, resp
    ensures parser.Valid() && ring.Valid()
    ensures some <==> old(ring.Contents()) != []
    ensures !some ==> n == 0 && parser.pending == old(parser.pending) && ring.Contents() == []
    ensures some ==>
              var step := Next(old(parser.pending), b);
              && old(ring.Contents()) == [b] + ring.Contents()
              && parser.pending == step.0
              && (n == 0 <==> step.1 == Nothing)
              && (n > 0 ==> n <= resp.Length && resp[..n] == FrameOf(Answer(step.1)))
  {
    hide Next, IsPending, Answer, FrameOf, Parser.Valid, RxRing.Valid, RxRing.Contents;
    some, b := ring.GetChar();
    n := 0;
    if some {
      ghost var rest := ring.Contents();
      n := HandleByte(b, parser, resp);
      assert ring.Valid() && ring.Contents() == rest;
    }
  }

  /** Takes byte after byte until the ring is empty; `sent` is what it passes to usb_if_ctrl_send. */
  method Drain(parser: Parser, ring: RxRing, resp: array<byte>) returns (sent: seq<seq<byte>>)
    requires parser.Valid() && ring.Valid() && resp.Length == MAX_FRAME
    requires resp != parser.payload && resp != ring.buf && ring.buf != parser.payload
    modifies parser, parser.payload, ring`tail, resp
    ensures parser.Valid() && ring.Valid() && ring.Contents() == []
    ensures parser.pending == Held(old(parser.pending), old(ring.Contents()))
    ensures var reports := Reports(old(parser.pending), old(ring.Contents()), 0);
            AllProper(reports) && sent == Frames(Replies(reports))
  {
    assert IsPending(parser.pending);
    hide Next, IsPending, Proper, Answer, FrameOf, Parser.Valid, RxRing.Valid, RxRing.Contents,
         Held, Reports, Replies, AllProper, Frames;
    ghost var p0, all := parser.pending, ring.Contents();
    ghost var done: seq<byte> := [];
    sent := [];
    NoneYet(p0);
    while true
      invariant parser.Valid() && ring.Valid()
      invariant all == done + ring.Contents()
      invariant parser.pending == Held(p0, done)
      invariant AllProper(Reports(p0, done, 0)) && sent == Frames(Replies(Reports(p0, done, 0)))
      decreases |ring.Contents()|
    {
      var some, b, n := Turn(parser, ring, resp);
      if !some {
        break;
      }
      OneMore(p0, done, b);
      Regroup(done, b, ring.Contents());
      done := done + [b];
      if n > 0 {
        sent := sent + [resp[..n]];
      }
    }
    assert done + [] == done;
  }

  lemma Regroup(done: seq<byte>, b: byte, rest: seq<byte>)
    ensures done + ([b] + rest) == done + [b] + rest
  {
  }

  lemma NoneYet(p0: seq<byte>)
    requires IsPending(p0)
    ensures Held(p0, []) == p0 && AllProper(Reports(p0, [], 0)) && Frames(Replies(Reports(p0, [], 0))) == []
  {
  }

  lemma OneMore(p0: seq<byte>, done: seq<byte>, b: byte)
    requires IsPending(p0)
    ensures var step := Next(Held(p0, done), b);
            var before, after := Reports(p0, done, 0), Reports(p0, done + [b], 0);
            && Held(p0, done + [b]) == step.0
            && AllProper(before) && AllProper(after)
            && Frames(Replies(after)) ==
               if step.1 == Nothing then Frames(Replies(before))
               else Frames(Replies(before)) + [FrameOf(Answer(step.1))]
  {
    hide Next, IsPending, Answer, Proper, FrameOf, Held, Reports, AllProper, Replies;
    RepliesGrow(p0, done, b);
  }
}
