/** What a whole byte stream means, stated without any parser state, and the proof that feeding the
    stream byte by byte reports the same things at the same positions. */
module FrameDecoder {
  import opened FrameProto
  import opened FrameFormat
  import opened FrameParser

  /** Something was reported on the byte at position `at` of the stream. */
  datatype Report = Report(at: nat, outcome: Outcome)

  predicate StartsWithMagic(s: seq<byte>) {
    |s| >= 2 && s[0] == MAGIC0 && s[1] == MAGIC1
  }

  /** The reference decoder: find the first MAGIC pair, take a header, check the length, take the
      frame, judge it, go on behind it. `at` is the position of s[0]. */
  function Decode(s: seq<byte>, at: nat): seq<Report> {
    if |s| < 2 then []
    else if !StartsWithMagic(s) then Decode(s[1..], at + 1)
    else if |s| < HEADER_LEN then []
    else if Size(LenField(s)) > MAX_PAYLOAD then
      [Report(at + HEADER_LEN - 1, BadLen)] + Decode(s[HEADER_LEN..], at + HEADER_LEN)
    else
      var n := FrameSize(s);
      if |s| < n then []
      else [Report(at + n - 1, Verdict(s[..n]))] + Decode(s[n..], at + n)
  }

  /** The tail of the stream that the decoder has not disposed of yet. */
  function Leftover(s: seq<byte>): seq<byte> {
    if |s| < 2 then (if s == [MAGIC0] then s else [])
    else if !StartsWithMagic(s) then Leftover(s[1..])
    else if |s| < HEADER_LEN then s
    else if Size(LenField(s)) > MAX_PAYLOAD then Leftover(s[HEADER_LEN..])
    else if |s| < FrameSize(s) then s
    else Leftover(s[FrameSize(s)..])
  }

  /** Feeding s to a parser that holds p: what it reports and what it holds afterwards. */
  function Reports(p: seq<byte>, s: seq<byte>, at: nat): seq<Report>
    requires IsPending(p)
    decreases s
  {
    if s == [] then []
    else
      var step := Next(p, s[0]);
      (if step.1 == Nothing then [] else [Report(at, step.1)]) + Reports(step.0, s[1..], at + 1)
  }

  function Held(p: seq<byte>, s: seq<byte>): (h: seq<byte>)
    requires IsPending(p)
    ensures IsPending(h)
    decreases s
  {
    if s == [] then p else Held(Next(p, s[0]).0, s[1..])
  }

  // ---------------------------------------------------------------- splitting a stream

  lemma {:induction false} FeedInPieces(p: seq<byte>, a: seq<byte>, b: seq<byte>, at: nat)
    requires IsPending(p)
    ensures Held(p, a + b) == Held(Held(p, a), b)
    ensures Reports(p, a + b, at) == Reports(p, a, at) + Reports(Held(p, a), b, at + |a|)
    decreases a
  {
    hide Next, IsPending;
    if a == [] {
      assert a + b == b;
    } else {
      assert (a + b)[1..] == a[1..] + b;
      FeedInPieces(Next(p, a[0]).0, a[1..], b, at + 1);
    }
  }

  // ---------------------------------------------------------------- refinement

  lemma PendingDecodesToNothing(p: seq<byte>, at: nat)
    requires IsPending(p)
    ensures Decode(p, at) == [] && Leftover(p) == p
  {
    hide Size, LenField, Verdict;
  }

  lemma DecodeStepHunting(p: seq<byte>, b: byte, rest: seq<byte>, at: nat)
    requires IsPending(p) && IsHunting(p)
    ensures var step := Next(p, b);
            && step.1 == Nothing
            && Decode(p + [b] + rest, at) == Decode(step.0 + rest, at + |p| + 1 - |step.0|)
            && Leftover(p + [b] + rest) == Leftover(step.0 + rest)
  {
    hide Size, LenField, Verdict, FrameSize;
    var s := p + [b] + rest;
    if p == [] && b == MAGIC0 {
      assert s == [b] + rest;
    } else if p == [] {
      assert s[0] == b && s[1..] == rest == Next(p, b).0 + rest;
    } else if b == MAGIC1 {
      assert Next(p, b).0 == p + [b];
    } else {
      assert !StartsWithMagic(s);
      assert s[1..] == [b] + rest;
      if b == MAGIC0 {
        assert Next(p, b).0 == [b];
      } else {
        var t := [b] + rest;
        assert t[0] == b && t[1..] == rest;
        assert Decode(t, at + 1) == Decode(rest, at + 2) && Leftover(t) == Leftover(rest);
        assert Next(p, b).0 + rest == rest;
      }
    }
  }

  lemma DecodeBadLen(q: seq<byte>, rest: seq<byte>, at: nat)
    requires |q| == HEADER_LEN && StartsWithMagic(q) && Size(LenField(q)) > MAX_PAYLOAD
    ensures Decode(q + rest, at) == [Report(at + |q| - 1, BadLen)] + Decode(rest, at + |q|)
    ensures Leftover(q + rest) == Leftover(rest)
  {
    hide Size, LenField;
    var s := q + rest;
    LenFieldOfPrefix(q, rest);
    assert s[|q|..] == rest;
  }

  lemma DecodeWhole(q: seq<byte>, rest: seq<byte>, at: nat)
    requires |q| >= FRAME_OVERHEAD && StartsWithMagic(q)
    requires Size(LenField(q)) <= MAX_PAYLOAD && |q| == FrameSize(q)
    ensures Decode(q + rest, at) == [Report(at + |q| - 1, Verdict(q))] + Decode(rest, at + |q|)
    ensures Leftover(q + rest) == Leftover(rest)
    ensures Verdict(q) != Nothing
  {
    hide Size, LenField, Verdict;
    var s := q + rest;
    LenFieldOfPrefix(q, rest);
    VerdictSays(q);
    assert s[..|q|] == q && s[|q|..] == rest;
  }

  lemma VerdictSays(q: seq<byte>)
    requires |q| >= FRAME_OVERHEAD
    ensures Verdict(q) != Nothing
  {
    hide Frame, LenField;
  }

  lemma LenFieldOfPrefix(q: seq<byte>, rest: seq<byte>)
    requires |q| >= HEADER_LEN
    ensures LenField(q + rest) == LenField(q)
  {
    hide Join;
  }

  lemma FrameOver(p: seq<byte>, b: byte)
    requires IsPending(p) && |p| >= 2
    requires Next(p, b).0 != p + [b]
    ensures var q, step := p + [b], Next(p, b);
            && |q| >= HEADER_LEN && StartsWithMagic(q) && step.0 == []
            && ((|q| == HEADER_LEN && Size(LenField(q)) > MAX_PAYLOAD && step.1 == BadLen)
                || (Size(LenField(q)) <= MAX_PAYLOAD && |q| == FrameSize(q) && step.1 == Verdict(q)))
  {
    hide Size, Verdict, Join;
  }

  lemma DecodeStepInFrame(p: seq<byte>, b: byte, rest: seq<byte>, at: nat)
    requires IsPending(p) && |p| >= 2
    requires Next(p, b).0 != p + [b]
    ensures var step := Next(p, b);
            && step.0 == [] && step.1 != Nothing
            && Decode(p + [b] + rest, at) == [Report(at + |p|, step.1)] + Decode(rest, at + |p| + 1)
            && Leftover(p + [b] + rest) == Leftover(rest)
  {
    hide Next, IsPending, Verdict, Size, LenField, StartsWithMagic, Decode, Leftover;
    FrameOver(p, b);
    var q := p + [b];
    if Size(LenField(q)) > MAX_PAYLOAD {
      DecodeBadLen(q, rest, at);
    } else {
      DecodeWhole(q, rest, at);
    }
  }


  lemma KeptMeansNothing(p: seq<byte>, b: byte)
    requires IsPending(p)
    ensures |Next(p, b).0| <= |p| + 1
    ensures Next(p, b).0 == p + [b] ==> Next(p, b).1 == Nothing
  {
    hide Size, LenField, Verdict;
  }

  /** One byte more: the decoder sees the same stream with the parser's step taken out. */
  lemma DecodeStep(p: seq<byte>, b: byte, rest: seq<byte>, at: nat)
    requires IsPending(p)
    ensures var step := Next(p, b);
            && |step.0| <= |p| + 1
            && Decode(p + [b] + rest, at) ==
               (if step.1 == Nothing then [] else [Report(at + |p|, step.1)])
               + Decode(step.0 + rest, at + |p| + 1 - |step.0|)
            && Leftover(p + [b] + rest) == Leftover(step.0 + rest)
  {
    hide Next, IsPending, Decode, Leftover;
    var step := Next(p, b);
    KeptMeansNothing(p, b);
    if IsHunting(p) {
      DecodeStepHunting(p, b, rest, at);
    } else if step.0 == p + [b] {
    } else {
      DecodeStepInFrame(p, b, rest, at);
      assert step.0 + rest == rest;
    }
  }

  /** The parser refines the decoder, from every state it can be in and on every stream. */
  lemma {:induction false} ParserRefinesDecoder(p: seq<byte>, s: seq<byte>, at: nat)
    requires IsPending(p) && at >= |p|
    ensures Reports(p, s, at) == Decode(p + s, at - |p|)
    ensures Held(p, s) == Leftover(p + s)
    decreases s
  {
    hide Next, IsPending, Decode, Leftover;
    if s == [] {
      assert p + s == p;
      PendingDecodesToNothing(p, at - |p|);
    } else {
      var step := Next(p, s[0]);
      DecodeStep(p, s[0], s[1..], at - |p|);
      ParserRefinesDecoder(step.0, s[1..], at + 1);
      assert p + s == p + [s[0]] + s[1..];
    }
  }

  // ---------------------------------------------------------------- noise

  /** No MAGIC pair inside; the last byte may still be a MAGIC0. */
  ghost predicate PairFree(n: seq<byte>) {
    forall i | 0 <= i < |n| - 1 :: !(n[i] == MAGIC0 && n[i + 1] == MAGIC1)
  }

  /** Noise before a frame, or before nothing, is skipped. */
  lemma {:induction false} NoiseSkipped(n: seq<byte>, s: seq<byte>, at: nat)
    requires PairFree(n)
    requires s != [] ==> s[0] != MAGIC1
    ensures Decode(n + s, at) == Decode(s, at + |n|)
    ensures s != [] ==> Leftover(n + s) == Leftover(s)
  {
    hide Size, LenField, Verdict, FrameSize;
    var t := n + s;
    if n == [] {
      assert t == s;
    } else {
      assert t[1..] == n[1..] + s;
      assert !StartsWithMagic(t);
      NoiseSkipped(n[1..], s, at + 1);
      assert |t| < 2 ==> Decode(t[1..], at + 1) == [];
    }
  }

  lemma FrameDecodes(op: byte, len: bv16, payload: seq<byte>, s: seq<byte>, at: nat)
    requires Sendable(len, payload)
    ensures var f := Frame(op, len, payload);
            && Decode(f + s, at) == [Report(at + |f| - 1, Good(op, len, payload))] + Decode(s, at + |f|)
            && Leftover(f + s) == Leftover(s)
  {
    FrameLayout(op, len, payload);
    hide Size, LenField, Frame;
    DecodeWhole(Frame(op, len, payload), s, at);
  }

  /** A frame and the noise in front of it. */
  datatype Burst = Burst(noise: seq<byte>, op: byte, len: bv16, payload: seq<byte>)

  ghost predicate Transmittable(bursts: seq<Burst>) {
    forall i | 0 <= i < |bursts| :: PairFree(bursts[i].noise) && Sendable(bursts[i].len, bursts[i].payload)
  }

  function OnWire(bursts: seq<Burst>): seq<byte> {
    if bursts == [] then []
    else
      var b := bursts[0];
      b.noise + Frame(b.op, b.len, b.payload) + OnWire(bursts[1..])
  }

  /** Each frame, on its last byte, and nothing else. */
  function Expected(bursts: seq<Burst>, at: nat): seq<Report> {
    if bursts == [] then []
    else
      var b := bursts[0];
      var next := at + |b.noise| + FRAME_OVERHEAD + |b.payload|;
      [Report(next - 1, Good(b.op, b.len, b.payload))] + Expected(bursts[1..], next)
  }

  lemma {:induction false} RoundTripUnderNoise(bursts: seq<Burst>, tail: seq<byte>, at: nat)
    requires Transmittable(bursts) && PairFree(tail)
    ensures Decode(OnWire(bursts) + tail, at) == Expected(bursts, at)
  {
    hide Size, Decode, Frame, Sendable;
    if bursts == [] {
      NoiseSkipped(tail, [], at);
      assert OnWire(bursts) + tail == tail == tail + [];
      PendingDecodesToNothing([], at + |tail|);
    } else {
      var b := bursts[0];
      var f := Frame(b.op, b.len, b.payload);
      var rest := OnWire(bursts[1..]) + tail;
      FrameLayout(b.op, b.len, b.payload);
      assert OnWire(bursts) + tail == b.noise + (f + rest);
      NoiseSkipped(b.noise, f + rest, at);
      FrameDecodes(b.op, b.len, b.payload, rest, at + |b.noise|);
      RoundTripUnderNoise(bursts[1..], tail, at + |b.noise| + |f|);
    }
  }

  // ---------------------------------------------------------------- self-stabilisation

  lemma {:induction false} StaysHunting(p: seq<byte>, n: seq<byte>)
    requires IsPending(p) && IsHunting(p) && PairFree(p + n)
    ensures IsHunting(Held(p, n))
    decreases n
  {
    hide Size, LenField, Verdict, FrameSize;
    if n != [] {
      var q := Next(p, n[0]).0;
      assert p == [] || ((p + n)[0] == MAGIC0 && (p + n)[1] == n[0]);
      forall i | 0 <= i < |q + n[1..]| - 1
        ensures !((q + n[1..])[i] == MAGIC0 && (q + n[1..])[i + 1] == MAGIC1)
      {
        var j := i + |p| + 1 - |q|;
        assert (q + n[1..])[i] == (p + n)[j] && (q + n[1..])[i + 1] == (p + n)[j + 1];
      }
      StaysHunting(q, n[1..]);
    }
  }

  /** Bytes still needed before a frame that has begun must be over, whatever its length field says. */
  lemma {:induction false} InFrameRunsOut(p: seq<byte>, n: seq<byte>)
    requires IsPending(p) && |p| >= 2 && PairFree(n)
    requires |p| + |n| >= MAX_FRAME
    ensures IsHunting(Held(p, n))
    decreases n
  {
    hide Size, LenField, Verdict;
    assert |p| < MAX_FRAME;
    var q := Next(p, n[0]).0;
    assert PairFree(n[1..]);
    if |q| >= 2 {
      InFrameRunsOut(q, n[1..]);
    } else {
      assert q == [] && q + n[1..] == n[1..];
      StaysHunting(q, n[1..]);
    }
  }

  /** From every reachable state, 4102 bytes without a MAGIC pair bring the parser back to hunting. */
  lemma Stabilises(p: seq<byte>, n: seq<byte>)
    requires IsPending(p) && PairFree(n) && |n| >= 4102
    ensures IsHunting(Held(p, n))
  {
    hide Size, LenField, Verdict, FrameSize;
    if |p| >= 2 {
      InFrameRunsOut(p, n);
    } else if |p| == 1 && n[0] == MAGIC1 {
      assert Next(p, n[0]).0 == p + [n[0]];
      assert PairFree(n[1..]);
      InFrameRunsOut(p + [n[0]], n[1..]);
    } else {
      StaysHunting(p, n);
    }
  }

  /** ... and bytes with a frame's outline sent then are judged on exactly their last byte, leaving
      nothing behind. */
  lemma HuntingParserJudges(p: seq<byte>, g: seq<byte>, at: nat)
    requires IsPending(p) && IsHunting(p) && at >= |p|
    requires |g| >= FRAME_OVERHEAD && StartsWithMagic(g)
    requires Size(LenField(g)) <= MAX_PAYLOAD && |g| == FrameSize(g)
    ensures Reports(p, g, at) == [Report(at + |g| - 1, Verdict(g))] && Held(p, g) == []
  {
    hide Size, LenField, Verdict, Decode, Leftover;
    ParserRefinesDecoder(p, g, at);
    NoiseSkipped(p, g, at - |p|);
    DecodeWhole(g, [], at);
    assert g + [] == g;
    PendingDecodesToNothing([], at + |g|);
  }

  lemma HuntingParserTakesFrame(p: seq<byte>, op: byte, len: bv16, payload: seq<byte>, at: nat)
    requires IsPending(p) && IsHunting(p) && at >= |p|
    requires Sendable(len, payload)
    ensures var f := Frame(op, len, payload);
            && Reports(p, f, at) == [Report(at + |f| - 1, Good(op, len, payload))]
            && Held(p, f) == []
  {
    hide LenField, Frame, Size;
    FrameLayout(op, len, payload);
    HuntingParserJudges(p, Frame(op, len, payload), at);
  }

  /** 4101 bytes are not enough: a parser holding one MAGIC0 can be led into the longest frame. */
  lemma StabilisationBoundIsTight() returns (p: seq<byte>, n: seq<byte>)
    ensures IsPending(p) && PairFree(n) && |n| == 4101
    ensures !IsHunting(Held(p, n))
  {
    p := [MAGIC0];
    var zeros := seq(MAX_PAYLOAD + 1, _ => 0);
    n := [MAGIC1, 0, 0, 0x10] + zeros;
    var s := p + n;
    assert Size(LenField(s)) == MAX_PAYLOAD;
    ParserRefinesDecoder(p, n, 1);
    hide Size, LenField;
    assert StartsWithMagic(s);
  }
}
