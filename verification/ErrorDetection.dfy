/** Which corruptions of a frame the parser notices. */
module ErrorDetection {
  import opened FrameProto
  import opened Crc16
  import opened FrameFormat
  import opened FrameParser
  import opened FrameDecoder

  // ---------------------------------------------------------------- the register loses nothing

  function Unstep(c: bv16): bv16 {
    if c & 1 != 0 then ((c ^ CRC16_POLY) >> 1) | 0x8000 else c >> 1
  }

  lemma OverflowBits(c: bv16)
    requires c & 0x8000 != 0
    ensures ((c << 1) ^ CRC16_POLY) & 1 != 0
    ensures ((((c << 1) ^ CRC16_POLY) ^ CRC16_POLY) >> 1) | 0x8000 == c
  {
  }

  lemma UnstepOverflow(c: bv16)
    requires c & 0x8000 != 0
    ensures Unstep(BitStep(c)) == c
  {
    OverflowBits(c);
  }

  lemma UnstepPlain(c: bv16)
    requires c & 0x8000 == 0
    ensures Unstep(BitStep(c)) == c
  {
    assert (c << 1) & 1 == 0;
  }

  lemma {:induction false} BitStepsInjective(x: bv16, y: bv16, k: nat)
    requires BitSteps(x, k) == BitSteps(y, k)
    ensures x == y
    decreases k
  {
    if k > 0 {
      var u, v := BitSteps(x, k - 1), BitSteps(y, k - 1);
      if u & 0x8000 != 0 { UnstepOverflow(u); } else { UnstepPlain(u); }
      if v & 0x8000 != 0 { UnstepOverflow(v); } else { UnstepPlain(v); }
      hide BitStep, Unstep;
      BitStepsInjective(x, y, k - 1);
    }
  }

  lemma MixInjective(r: bv16, s: bv16, b: byte)
    requires Mix(r, b) == Mix(s, b)
    ensures r == s
  {
  }

  /** Equal bytes never bring two different registers together. */
  lemma {:induction false} UpdateInjective(r: bv16, s: bv16, z: seq<byte>)
    requires Update(r, z) == Update(s, z)
    ensures r == s
  {
    if z != [] {
      var n := |z| - 1;
      BitStepsInjective(Mix(Update(r, z[..n]), z[n]), Mix(Update(s, z[..n]), z[n]), 8);
      MixInjective(Update(r, z[..n]), Update(s, z[..n]), z[n]);
      hide ByteStep;
      UpdateInjective(r, s, z[..n]);
    }
  }

  function Zero(n: nat): (z: seq<byte>)
    ensures |z| == n && forall i | 0 <= i < n :: z[i] == 0
  {
    seq(n, _ => 0)
  }

  lemma StepsOfZero(k: nat)
    ensures BitSteps(0, k) == 0
  {
  }

  lemma {:induction false} UpdateOfZero(n: nat)
    ensures Update(0, Zero(n)) == 0
  {
    if n > 0 {
      assert Zero(n)[..n - 1] == Zero(n - 1);
      UpdateOfZero(n - 1);
      assert Mix(0, 0) == 0;
      StepsOfZero(8);
    }
  }

  lemma OneByteSeen(d: byte)
    requires ByteStep(0, d) == 0
    ensures d == 0
  {
    StepsOfZero(8);
    BitStepsInjective(Mix(0, d), 0, 8);
    hide BitSteps;
    assert Mix(0, d) == 0;
    assert (d as bv16) << 8 == 0;
  }

  // ---------------------------------------------------------------- two adjacent bytes

  predicate AtTop(x: bv16) { x & 0x8000 != 0 }

  lemma PlainSteps(x: bv16, k: nat)
    requires forall j: nat | j < k :: !AtTop(Shifted(x, j))
    ensures BitSteps(x, k) == Shifted(x, k)
    decreases k
  {
    if k > 0 {
      PlainStep(Shifted(x, k - 1));
      hide BitStep, Shifted, AtTop;
      PlainSteps(x, k - 1);
      ShiftedOnce(x, k - 1);
    }
  }

  lemma PlainStep(v: bv16)
    ensures !AtTop(v) ==> BitStep(v) == v << 1
  {
  }

  lemma {:induction false} ShiftedOnce(x: bv16, k: nat)
    ensures Shifted(x, k + 1) == Shifted(x, k) << 1
    decreases k
  {
    if k > 0 { ShiftedOnce(x << 1, k - 1); }
  }

  /** A byte in the low half of the register needs eight shifts to reach the top. */
  lemma LowByteRises(d: byte)
    ensures BitSteps(Low(d), 8) == TopByte(d)
  {
    var x := Low(d);
    forall j: nat | j < 8 ensures !AtTop(Shifted(x, j)) {
      NotYetAtTop(d, j);
    }
    PlainSteps(x, 8);
    ShiftedEight(x);
    hide Shifted, BitSteps;
    assert (d as bv16) << 8 == TopByte(d);
  }

  lemma ShiftedEight(x: bv16)
    ensures Shifted(x, 8) == x << 8
  {
  }

  lemma LowStaysLow(d: byte)
    ensures var x := Low(d);
      && !AtTop(Shifted(x, 0)) && !AtTop(Shifted(x, 1)) && !AtTop(Shifted(x, 2)) && !AtTop(Shifted(x, 3))
      && !AtTop(Shifted(x, 4)) && !AtTop(Shifted(x, 5)) && !AtTop(Shifted(x, 6)) && !AtTop(Shifted(x, 7))
  {
  }

  lemma NotYetAtTop(d: byte, j: nat)
    requires j < 8
    ensures !AtTop(Shifted(Low(d), j))
  {
    LowStaysLow(d);
    hide Shifted, Low, AtTop;
    if j < 4 {
      if j < 2 { assert j == 0 || j == 1; } else { assert j == 2 || j == 3; }
    } else {
      if j < 6 { assert j == 4 || j == 5; } else { assert j == 6 || j == 7; }
    }
  }

  lemma TwoBytesSeen(d: byte, e: byte)
    requires Update(0, [d, e]) == 0
    ensures d == 0 && e == 0
  {
    var r := ByteStep(0, d);
    assert [d, e][..1] == [d] && [d][..0] == [];
    assert Update(0, [d, e]) == ByteStep(r, e) by { assert Update(0, [d]) == r; }
    StepsOfZero(8);
    BitStepsInjective(Mix(r, e), 0, 8);
    MixCancels(r, e);
    LowByteRises(e);
    BitStepsInjective(TopByte(d), Low(e), 8) by { MixFromZero(d); }
    hide BitSteps, Update, ByteStep, Mix;
    HalvesDisjoint(d, e);
  }

  lemma MixCancels(r: bv16, e: byte)
    requires Mix(r, e) == 0
    ensures r == TopByte(e)
  {
  }

  lemma MixFromZero(d: byte)
    ensures Mix(0, d) == TopByte(d)
  {
  }

  lemma HalvesDisjoint(d: byte, e: byte)
    requires TopByte(d) == Low(e)
    ensures d == 0 && e == 0
  {
    assert (d as bv16) << 8 == e as bv16;
  }

  // ---------------------------------------------------------------- corrupted frames

  /** A corruption that leaves MAGIC and LEN alone, so that the parser still takes the right bytes. */
  ghost predicate KeepsFraming(e: seq<byte>) {
    |e| >= FRAME_OVERHEAD && e[0] == 0 && e[1] == 0 && e[3] == 0 && e[4] == 0
  }

  lemma {:induction false} XorBytesAt(a: seq<byte>, b: seq<byte>, n: nat)
    requires |a| == |b| && n <= |a|
    ensures XorBytes(a, b)[..n] == XorBytes(a[..n], b[..n])
    ensures n < |a| ==> XorBytes(a, b)[n] == XorByte(a[n], b[n])
  {
    hide XorByte;
    var m := |a| - 1;
    if n == |a| {
      assert a[..n] == a && b[..n] == b;
    } else if n < m {
      XorBytesAt(a[..m], b[..m], n);
      assert a[..m][..n] == a[..n] && b[..m][..n] == b[..n];
    }
  }

  lemma JoinXor(a: byte, b: byte, c: byte, d: byte)
    ensures Join(XorByte(a, c), XorByte(b, d)) == Xor(Join(a, b), Join(c, d))
  {
  }

  lemma XorByteZero(a: byte)
    ensures XorByte(a, 0) == a
  {
  }

  lemma XorFacts(x: bv16, y: bv16, z: bv16)
    ensures Xor(x, 0) == x
    ensures Xor(x, y) == Xor(x, z) <==> y == z
  {
    assert y == x ^ (x ^ y) && z == x ^ (x ^ z);
  }

  lemma CorruptionKeepsFraming(op: byte, len: bv16, payload: seq<byte>, e: seq<byte>)
    requires Sendable(len, payload) && |e| == FRAME_OVERHEAD + |payload| && KeepsFraming(e)
    ensures var g := XorBytes(Frame(op, len, payload), e);
            StartsWithMagic(g) && FrameSize(g) == |e| && LenField(g) == len
  {
    hide Crc, XorByte, XorBytes, Join, Lo, Hi, Size, Frame;
    var f := Frame(op, len, payload);
    FrameLayout(op, len, payload);
    XorBytesAt(f, e, 0); XorBytesAt(f, e, 1); XorBytesAt(f, e, 3); XorBytesAt(f, e, 4);
    XorByteZero(f[0]); XorByteZero(f[1]); XorByteZero(f[3]); XorByteZero(f[4]);
  }

  /** Exactly when a corruption slips through: its own CRC, from a zero register, must be the change
      it makes to the CRC field. */
  lemma CorruptionVerdict(op: byte, len: bv16, payload: seq<byte>, e: seq<byte>)
    requires Sendable(len, payload) && |e| == FRAME_OVERHEAD + |payload| && KeepsFraming(e)
    ensures var n := |e|;
            var g := XorBytes(Frame(op, len, payload), e);
            && (Verdict(g).Good? <==> Update(0, e[..n - 2]) == Join(e[n - 2], e[n - 1]))
            && (!Verdict(g).Good? ==> Verdict(g) == BadCrc)
  {
    CorruptionKeepsFraming(op, len, payload, e);
    hide Update, XorByte, XorBytes, Xor, Join, Lo, Hi, Verdict, Size;
    var f, n := Frame(op, len, payload), |e|;
    var g := XorBytes(f, e);
    VerdictByCrc(g);
    FrameLayout(op, len, payload);
    var covered, change := f[..n - 2], e[..n - 2];
    assert f[n - 2] == Lo(Crc(covered)) && f[n - 1] == Hi(Crc(covered));
    hide Frame, Covered, FrameSize, LenField, StartsWithMagic;
    XorBytesAt(f, e, n - 2); XorBytesAt(f, e, n - 1);
    UpdateLinear(CRC16_INIT, 0, covered, change);
    XorFacts(CRC16_INIT, 0, 0);
    JoinXor(f[n - 2], f[n - 1], e[n - 2], e[n - 1]);
    JoinSplit(Crc(covered));
    XorFacts(Crc(covered), Update(0, change), Join(e[n - 2], e[n - 1]));
  }

  /** A change of one or two adjacent bytes: in OP, or both in PAYLOAD, or both in the CRC. */
  ghost predicate ShortCorruption(e: seq<byte>, k: nat, w: seq<byte>) {
    && |e| >= FRAME_OVERHEAD
    && 1 <= |w| <= 2 && k + |w| <= |e|
    && (exists i | 0 <= i < |w| :: w[i] != 0)
    && e == Zero(k) + w + Zero(|e| - k - |w|)
    && ((k == 2 && |w| == 1) || (HEADER_LEN <= k && k + |w| <= |e| - CRC_LEN) || |e| - CRC_LEN <= k)
  }

  lemma WindowSeen(k: nat, w: seq<byte>, m: nat)
    requires 1 <= |w| <= 2 && exists i | 0 <= i < |w| :: w[i] != 0
    ensures Update(0, Zero(k) + w + Zero(m)) != 0
  {
    if Update(0, Zero(k) + w + Zero(m)) == 0 {
      UpdateCompose(0, Zero(k) + w, Zero(m));
      UpdateCompose(0, Zero(k), w);
      UpdateOfZero(k);
      UpdateOfZero(m);
      UpdateInjective(Update(0, w), 0, Zero(m));
      if |w| == 2 {
        assert w == [w[0], w[1]];
        TwoBytesSeen(w[0], w[1]);
      } else {
        assert w == [w[0]] && w[..0] == [];
        OneByteSeen(w[0]);
      }
    }
  }

  lemma JoinZero(lo: byte, hi: byte)
    ensures Join(lo, hi) == 0 <==> lo == 0 && hi == 0
  {
    SplitJoin(lo, hi);
    assert Lo(0) == 0 && Hi(0) == 0;
  }

  lemma ZerosJoin(e: seq<byte>, k: nat, w: seq<byte>, n: nat)
    requires k + |w| <= n <= |e| && e == Zero(k) + w + Zero(|e| - k - |w|)
    ensures e[..n] == Zero(k) + w + Zero(n - k - |w|)
    ensures forall i :: n <= i < |e| ==> e[i] == 0
  {
  }

  lemma CoveredChange(e: seq<byte>, k: nat, w: seq<byte>)
    requires ShortCorruption(e, k, w) && k + |w| <= |e| - CRC_LEN
    ensures Update(0, e[..|e| - 2]) != Join(e[|e| - 2], e[|e| - 1])
  {
    hide Update, Join, Zero;
    var n := |e|;
    ZerosJoin(e, k, w, n - 2);
    WindowSeen(k, w, n - 2 - k - |w|);
    JoinZero(e[n - 2], e[n - 1]);
  }

  lemma FieldChange(e: seq<byte>, k: nat, w: seq<byte>)
    requires ShortCorruption(e, k, w) && k + |w| > |e| - CRC_LEN
    ensures Update(0, e[..|e| - 2]) != Join(e[|e| - 2], e[|e| - 1])
  {
    hide Update, Join;
    var n := |e|;
    assert e[..n - 2] == Zero(n - 2);
    UpdateOfZero(n - 2);
    JoinZero(e[n - 2], e[n - 1]);
  }

  lemma ShortKeepsFraming(e: seq<byte>, k: nat, w: seq<byte>)
    requires ShortCorruption(e, k, w)
    ensures KeepsFraming(e)
  {
  }

  lemma ShortCorruptionBad(op: byte, len: bv16, payload: seq<byte>, e: seq<byte>, k: nat, w: seq<byte>)
    requires Sendable(len, payload) && |e| == FRAME_OVERHEAD + |payload| && ShortCorruption(e, k, w)
    ensures KeepsFraming(e)
    ensures Verdict(XorBytes(Frame(op, len, payload), e)) == BadCrc
  {
    hide Size, Frame, Verdict, Update, Join, XorBytes, ShortCorruption, KeepsFraming, Sendable;
    ShortKeepsFraming(e, k, w);
    CorruptionVerdict(op, len, payload, e);
    if k + |w| <= |e| - CRC_LEN {
      CoveredChange(e, k, w);
    } else {
      FieldChange(e, k, w);
    }
  }

  /** ... is never taken for a frame: nothing is reported before the last byte, and there it is BadCrc. */
  lemma ShortCorruptionDetected(p: seq<byte>, op: byte, len: bv16, payload: seq<byte>,
                                e: seq<byte>, k: nat, w: seq<byte>, at: nat)
    requires IsPending(p) && IsHunting(p) && at >= |p|
    requires Sendable(len, payload) && |e| == FRAME_OVERHEAD + |payload| && ShortCorruption(e, k, w)
    ensures var g := XorBytes(Frame(op, len, payload), e);
            Reports(p, g, at) == [Report(at + |g| - 1, BadCrc)] && Held(p, g) == []
  {
    var g := XorBytes(Frame(op, len, payload), e);
    ShortCorruptionBad(op, len, payload, e, k, w);
    CorruptionKeepsFraming(op, len, payload, e);
    hide Frame, Verdict, XorBytes, LenField, FrameSize, StartsWithMagic, ShortCorruption;
    HuntingParserJudges(p, g, at);
  }

  // ---------------------------------------------------------------- the seam between PAYLOAD and CRC

  function Pick(d: byte, mask: byte, image: bv16): bv16 {
    if d & mask != 0 then image else 0
  }

  lemma {:induction false} StepCommutes(x: bv16, k: nat)
    ensures BitSteps(BitStep(x), k) == BitStep(BitSteps(x, k))
    decreases k
  {
    if k > 0 {
      hide BitStep;
      StepCommutes(x, k - 1);
    }
  }

  lemma NextImage(mask: byte)
    requires mask & 0x80 == 0
    ensures ByteStep(0, mask << 1) == BitStep(ByteStep(0, mask))
  {
    MixFromZero(mask);
    MixFromZero(mask << 1);
    assert TopByte(mask) & 0x8000 == 0 && TopByte(mask << 1) == TopByte(mask) << 1;
    assert BitStep(TopByte(mask)) == TopByte(mask << 1);
    hide BitStep, TopByte, Mix;
    StepCommutes(TopByte(mask), 8);
  }

  lemma BitImages()
    ensures ByteStep(0, 0x01) == 0x1021
    ensures ByteStep(0, 0x02) == 0x2042
    ensures ByteStep(0, 0x04) == 0x4084
    ensures ByteStep(0, 0x08) == 0x8108
    ensures ByteStep(0, 0x10) == 0x1231
    ensures ByteStep(0, 0x20) == 0x2462
    ensures ByteStep(0, 0x40) == 0x48C4
    ensures ByteStep(0, 0x80) == 0x9188
  {
    assert BitSteps(0x0100, 4) == 0x1000 && BitSteps(0x0100, 7) == 0x8000;
    assert ByteStep(0, 0x01) == BitStep(0x8000) == 0x1021;
    hide ByteStep;
    NextImage(0x01); assert BitStep(0x1021) == 0x2042;
    NextImage(0x02); assert BitStep(0x2042) == 0x4084;
    NextImage(0x04); assert BitStep(0x4084) == 0x8108;
    NextImage(0x08); assert BitStep(0x8108) == 0x1231;
    NextImage(0x10); assert BitStep(0x1231) == 0x2462;
    NextImage(0x20); assert BitStep(0x2462) == 0x48C4;
    NextImage(0x40); assert BitStep(0x48C4) == 0x9188;
  }

  // Bits are taken off from the lowest one; Rest(d, others) is what is still to be taken.
  function Rest(d: byte, others: byte): byte { d & others }

  lemma PeelBit(d: byte, mask: byte, others: byte, image: bv16)
    requires mask & others == 0 && mask != 0
    requires d & mask == 0 || d & mask == mask
    requires ByteStep(0, mask) == image
    ensures ByteStep(0, Rest(d, mask | others)) == Xor(ByteStep(0, Rest(d, others)), Pick(d, mask, image))
  {
    SplitBit(d, mask, others);
    assert ByteStep(0, 0) == 0;
    hide ByteStep, Xor, Rest, XorByte;
    XorFacts(0, 0, 0);
    ByteStepLinear(0, 0, Rest(d, others), d & mask);
  }

  lemma SplitBit(d: byte, mask: byte, others: byte)
    requires mask & others == 0
    ensures Rest(d, mask | others) == XorByte(Rest(d, others), d & mask)
  {
  }

  lemma ByteStepImage(d: byte)
    ensures ByteStep(0, d) ==
            Xor(Xor(Xor(Xor(Xor(Xor(Xor(Xor(0, Pick(d, 0x80, 0x9188)), Pick(d, 0x40, 0x48C4)),
                                    Pick(d, 0x20, 0x2462)), Pick(d, 0x10, 0x1231)),
                            Pick(d, 0x08, 0x8108)), Pick(d, 0x04, 0x4084)),
                    Pick(d, 0x02, 0x2042)), Pick(d, 0x01, 0x1021))
  {
    BitImages();
    assert ByteStep(0, Rest(d, 0)) == 0 && Rest(d, 0xFF) == d;
    hide ByteStep, Pick, Xor, Rest;
    PeelBit(d, 0x01, 0xFE, 0x1021);
    PeelBit(d, 0x02, 0xFC, 0x2042);
    PeelBit(d, 0x04, 0xF8, 0x4084);
    PeelBit(d, 0x08, 0xF0, 0x8108);
    PeelBit(d, 0x10, 0xE0, 0x1231);
    PeelBit(d, 0x20, 0xC0, 0x2462);
    PeelBit(d, 0x40, 0x80, 0x48C4);
    PeelBit(d, 0x80, 0x00, 0x9188);
  }

  lemma OnlySilentPair(d: byte)
    requires ByteStep(0, d) & 0xFF00 == 0
    ensures d == 0 || d == 0x89
  {
    ByteStepImage(d);
    hide ByteStep;
    assert d & 0x02 == 0 && d & 0x10 == 0 && d & 0x20 == 0 && d & 0x40 == 0 && d & 0x04 == 0;
    assert d == 0 || d == 0x89;
  }

  /** The seam: changing the last payload byte by d and the low CRC byte by x goes unnoticed for exactly
      one change, d = 0x89 with x = 0xA1. The CRC is sent low byte first, so the two bytes are
      neighbours on the wire but not in the division. */
  lemma SeamVerdict(op: byte, len: bv16, payload: seq<byte>, d: byte, x: byte)
    requires Sendable(len, payload) && payload != []
    ensures var e := Zero(HEADER_LEN + |payload| - 1) + [d, x, 0];
            Verdict(XorBytes(Frame(op, len, payload), e)).Good?
            <==> (d == 0 && x == 0) || (d == 0x89 && x == 0xA1)
  {
    hide Update, ByteStep, Join, Verdict, XorBytes, Frame, Size;
    var k := HEADER_LEN + |payload| - 1;
    var e := Zero(k) + [d, x, 0];
    var n := |e|;
    CorruptionVerdict(op, len, payload, e);
    assert e[..n - 2] == Zero(k) + [d];
    UpdateAppend(0, Zero(k), d);
    UpdateOfZero(k);
    assert e[n - 2] == x && e[n - 1] == 0;
    SilentPair(d, x);
  }

  lemma SilentPair(d: byte, x: byte)
    ensures ByteStep(0, d) == Join(x, 0) <==> (d == 0 && x == 0) || (d == 0x89 && x == 0xA1)
  {
    assert ByteStep(0, 0) == Join(0, 0) && ByteStep(0, 0x89) == Join(0xA1, 0);
    SplitJoin(x, 0); SplitJoin(0, 0); SplitJoin(0xA1, 0);
    if ByteStep(0, d) == Join(x, 0) {
      hide ByteStep;
      assert Join(x, 0) & 0xFF00 == 0;
      OnlySilentPair(d);
    }
  }
}
