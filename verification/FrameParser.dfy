/** The byte-fed frame parser.

    The specification is a machine on the bytes of the frame being received (`Next`); the class
    keeps the fields of the firmware and is proved to compute exactly that machine. */
module FrameParser {
  import opened FrameProto
  import opened Crc16
  import opened FrameFormat

  /** What one byte completes. */
  datatype Outcome =
    | Nothing
    | Good(op: byte, len: bv16, payload: seq<byte>)
    | BadCrc
    | BadLen

  /** The judgement on a complete frame-sized run of bytes. */
  function Verdict(q: seq<byte>): Outcome
    requires |q| >= FRAME_OVERHEAD
  {
    var op, len, payload := q[2], LenField(q), q[HEADER_LEN..|q| - CRC_LEN];
    if q == Frame(op, len, payload) then Good(op, len, payload) else BadCrc
  }

  /** The bytes a parser can be holding: a proper prefix of something frame-shaped. */
  predicate IsPending(p: seq<byte>) {
    && (|p| >= 1 ==> p[0] == MAGIC0)
    && (|p| >= 2 ==> p[1] == MAGIC1)
    && (|p| >= HEADER_LEN ==> Size(LenField(p)) <= MAX_PAYLOAD && |p| < FrameSize(p))
  }

  /** Not inside a frame: waiting for the first or the second MAGIC byte. */
  predicate IsHunting(p: seq<byte>) {
    |p| <= 1
  }

  function Next(p: seq<byte>, b: byte): (r: (seq<byte>, Outcome))
    requires IsPending(p)
    ensures IsPending(r.0)
  {
    var q := p + [b];
    if |q| == 1 then
      (if b == MAGIC0 then q else [], Nothing)
    else if |q| == 2 then
      (if b == MAGIC1 then q else if b == MAGIC0 then [b] else [], Nothing)
    else if |q| < HEADER_LEN then
      (q, Nothing)
    else if |q| == HEADER_LEN && Size(LenField(q)) > MAX_PAYLOAD then
      ([], BadLen)
    else if |q| < FrameSize(q) then
      (q, Nothing)
    else
      ([], Verdict(q))
  }

  datatype ParseState = ExpectMagic0 | ExpectMagic1 | ExpectOp | ExpectLenLo | ExpectLenHi | ExpectPayload | ExpectCrcLo | ExpectCrcHi

  datatype FrameResult = FrNone | FrOk | FrBadCrc | FrBadLen

  function ResultOf(o: Outcome): FrameResult {
    match o
    case Nothing => FrNone
    case Good(_, _, _) => FrOk
    case BadCrc => FrBadCrc
    case BadLen => FrBadLen
  }

  /** Which byte is expected next, given those already held. */
  function Phase(p: seq<byte>): ParseState
    requires IsPending(p)
  {
    if |p| == 0 then ExpectMagic0
    else if |p| == 1 then ExpectMagic1
    else if |p| == 2 then ExpectOp
    else if |p| == 3 then ExpectLenLo
    else if |p| == 4 then ExpectLenHi
    else if |p| < FrameSize(p) - CRC_LEN then ExpectPayload
    else if |p| == FrameSize(p) - CRC_LEN then ExpectCrcLo
    else ExpectCrcHi
  }

  class Parser {
    var state: ParseState
    var op: byte
    var len: bv16
    var idx: nat
    var crcCalc: bv16
    var crcRx: bv16
    const payload: array<byte>

    ghost var pending: seq<byte>

    /** The fields that matter in the current state; every other field may hold anything. */
    ghost predicate Valid()
      reads this, payload
    {
      && payload.Length == MAX_PAYLOAD
      && IsPending(pending)
      && state == Phase(pending)
      && (1 <= |pending| && state != ExpectCrcHi ==> crcCalc == Crc(pending))
      && (|pending| >= 3 ==> op == pending[2])
      && (|pending| == 4 ==> len == Join(pending[3], 0))
      && (|pending| >= HEADER_LEN ==> len == LenField(pending))
      && (state == ExpectPayload ==>
            && idx == |pending| - HEADER_LEN
            && payload[..idx] == pending[HEADER_LEN..])
      && (state == ExpectCrcLo ==> payload[..Size(len)] == pending[HEADER_LEN..])
      && (state == ExpectCrcHi ==>
            && payload[..Size(len)] == pending[HEADER_LEN..|pending| - 1]
            && crcRx == Join(pending[|pending| - 1], 0)
            && crcCalc == Crc(pending[..|pending| - 1]))
    }

    constructor ()
      ensures Valid() && fresh(payload)
      ensures pending == []
      ensures state == ExpectMagic0 && op == 0 && len == 0 && idx == 0 && crcCalc == 0xFFFF && crcRx == 0
    {
      payload := new byte[MAX_PAYLOAD];
      state := ExpectMagic0;
      op, len, idx := 0, 0, 0;
      crcCalc, crcRx := CRC16_INIT, 0;
      pending := [];
    }

    /** Whatever the fields held before, the parser starts over. */
    method Init()
      requires payload.Length == MAX_PAYLOAD
      modifies this
      ensures Valid() && pending == []
      ensures state == ExpectMagic0 && op == 0 && len == 0 && idx == 0 && crcCalc == 0xFFFF && crcRx == 0
    {
      state := ExpectMagic0;
      op, len, idx := 0, 0, 0;
      crcCalc, crcRx := CRC16_INIT, 0;
      pending := [];
    }

    /** The parser has just taken byte b on top of the bytes held before and answered r. */
    ghost predicate Took(before: seq<byte>, b: byte, r: FrameResult)
      requires IsPending(before)
      reads this, payload
    {
      var step := Next(before, b);
      && Valid()
      && pending == step.0
      && r == ResultOf(step.1)
      && (step.1.Good? ==> op == step.1.op && len == step.1.len && payload[..Size(len)] == step.1.payload)
    }

    /** One byte: the fields move exactly as `Next` moves the bytes held. */
    method Feed(b: byte) returns (r: FrameResult)
      requires Valid()
      modifies this, payload
      ensures Took(old(pending), b, r)
    {
      hide *;
      match state {
        case ExpectMagic0 => r := FeedMagic(b);
        case ExpectMagic1 => r := FeedMagic(b);
        case ExpectOp => r := FeedHeader(b);
        case ExpectLenLo => r := FeedHeader(b);
        case ExpectLenHi => r := FeedLenHi(b);
        case ExpectPayload => r := FeedPayload(b);
        case ExpectCrcLo => r := FeedCrcLo(b);
        case ExpectCrcHi => r := FeedCrcHi(b);
      }
    }

    method FeedMagic(b: byte) returns (r: FrameResult)
      requires Valid() && state in {ExpectMagic0, ExpectMagic1}
      modifies this
      ensures Took(old(pending), b, r)
    {
      hide Update, Join, Size, Frame;
      if state == ExpectMagic0 {
        if b == MAGIC0 {
          crcCalc := Update(CRC16_INIT, [b]);
          state := ExpectMagic1;
          pending := [b];
        }
      } else {
        if b == MAGIC1 {
          CrcAppend(pending, b);
          crcCalc := Update(crcCalc, [b]);
          state := ExpectOp;
          pending := pending + [b];
        } else if b == MAGIC0 {
          crcCalc := Update(CRC16_INIT, [b]);
          pending := [b];
        } else {
          state := ExpectMagic0;
          pending := [];
        }
      }
      r := FrNone;
    }

    method FeedHeader(b: byte) returns (r: FrameResult)
      requires Valid() && state in {ExpectOp, ExpectLenLo}
      modifies this
      ensures Took(old(pending), b, r)
    {
      JoinLow(b);
      hide Crc, Update, Join, Size, Frame, Low, OrHigh;
      if state == ExpectOp {
        op := b;
        state := ExpectLenLo;
      } else {
        len := Low(b);
        state := ExpectLenHi;
      }
      CrcAppend(pending, b);
      crcCalc := Update(crcCalc, [b]);
      pending := pending + [b];
      r := FrNone;
    }

    method FeedLenHi(b: byte) returns (r: FrameResult)
      requires Valid() && state == ExpectLenHi
      modifies this
      ensures Took(old(pending), b, r)
    {
      hide Crc, Update, Join, Size, Verdict, LenField, OrHigh, Next, IsPending, Phase;
      ghost var q := pending + [b];
      NextLenHi(pending, b);
      JoinHigh(pending[3], b);
      CrcAppend(pending, b);
      len := OrHigh(len, b);
      crcCalc := Update(crcCalc, [b]);
      if Size(len) > MAX_PAYLOAD {
        Init();
        return FrBadLen;
      }
      idx := 0;
      state := if Size(len) == 0 then ExpectCrcLo else ExpectPayload;
      pending := q;
      assert payload[..0] == q[HEADER_LEN..];
      r := FrNone;
    }

    method FeedPayload(b: byte) returns (r: FrameResult)
      requires Valid() && state == ExpectPayload
      modifies this, payload
      ensures Took(old(pending), b, r)
    {
      hide Crc, Update, Join, Size, Verdict, LenField, Next, IsPending, Phase;
      ghost var q := pending + [b];
      NextPayload(pending, b);
      CrcAppend(pending, b);
      payload[idx] := b;
      idx := idx + 1;
      assert payload[..idx] == q[HEADER_LEN..];
      crcCalc := Update(crcCalc, [b]);
      if idx >= Size(len) {
        state := ExpectCrcLo;
      }
      pending := q;
      r := FrNone;
    }

    method FeedCrcLo(b: byte) returns (r: FrameResult)
      requires Valid() && state == ExpectCrcLo
      modifies this
      ensures Took(old(pending), b, r)
    {
      ghost var q := pending + [b];
      JoinLow(b);
      NextCrcLo(pending, b);
      hide Crc, Update, Join, Size, Verdict, LenField, Low, Next, IsPending, Phase;
      assert q[..|q| - 1] == pending;
      assert q[HEADER_LEN..|q| - 1] == pending[HEADER_LEN..];
      crcRx := Low(b);
      state := ExpectCrcHi;
      pending := q;
      r := FrNone;
    }

    method FeedCrcHi(b: byte) returns (r: FrameResult)
      requires Valid() && state == ExpectCrcHi
      modifies this
      ensures Took(old(pending), b, r)
    {
      hide Crc, Update, Join, Size, Verdict, LenField, OrHigh, Next, IsPending, Phase;
      ghost var p := pending;
      ghost var q := p + [b];
      NextCrcHi(p, b);
      JoinHigh(p[|p| - 1], b);
      VerdictByCrc(q);
      NothingHeld();
      assert q[..|q| - CRC_LEN] == p[..|p| - 1];
      assert q[HEADER_LEN..|q| - CRC_LEN] == p[HEADER_LEN..|p| - 1];
      crcRx := OrHigh(crcRx, b);
      r := if crcRx == crcCalc then FrOk else FrBadCrc;
      state := ExpectMagic0;
      crcCalc := CRC16_INIT;
      pending := [];
    }
  }

  lemma NothingHeld()
    ensures IsPending([]) && Phase([]) == ExpectMagic0
  {
  }

  lemma CrcAppend(p: seq<byte>, b: byte)
    ensures Crc(p + [b]) == Update(Crc(p), [b])
  {
    UpdateCompose(CRC16_INIT, p, [b]);
  }

  // What `Next` does from each of the last four states.
  lemma NextLenHi(p: seq<byte>, b: byte)
    requires IsPending(p) && Phase(p) == ExpectLenHi
    ensures |p| == 4
    ensures var q := p + [b];
            && |q| == HEADER_LEN
            && LenField(q) == Join(p[3], b)
            && if Size(LenField(q)) > MAX_PAYLOAD then Next(p, b) == ([], BadLen)
               else Next(p, b) == (q, Nothing) && IsPending(q)
                    && Phase(q) == if Size(LenField(q)) == 0 then ExpectCrcLo else ExpectPayload
  {
    hide Join, Size, Verdict;
  }

  lemma NextPayload(p: seq<byte>, b: byte)
    requires IsPending(p) && Phase(p) == ExpectPayload
    ensures HEADER_LEN <= |p| < HEADER_LEN + Size(LenField(p)) <= HEADER_LEN + MAX_PAYLOAD
    ensures var q := p + [b];
            && Next(p, b) == (q, Nothing) && IsPending(q) && LenField(q) == LenField(p)
            && Phase(q) == if |q| >= HEADER_LEN + Size(LenField(p)) then ExpectCrcLo else ExpectPayload
  {
    hide Join, Size, Verdict;
  }

  lemma NextCrcLo(p: seq<byte>, b: byte)
    requires IsPending(p) && Phase(p) == ExpectCrcLo
    ensures |p| == HEADER_LEN + Size(LenField(p))
    ensures var q := p + [b];
            && Next(p, b) == (q, Nothing) && IsPending(q) && LenField(q) == LenField(p)
            && Phase(q) == ExpectCrcHi
  {
    hide Join, Size, Verdict;
  }

  lemma NextCrcHi(p: seq<byte>, b: byte)
    requires IsPending(p) && Phase(p) == ExpectCrcHi
    ensures |p| == HEADER_LEN + Size(LenField(p)) + 1
    ensures var q := p + [b];
            && Next(p, b) == ([], Verdict(q)) && LenField(q) == LenField(p)
            && q[0] == MAGIC0 && q[1] == MAGIC1
  {
    hide Join, Size, Verdict;
  }

  // The low byte of a field arrives first and the high byte is or-ed in above it.
  function Low(b: byte): bv16 { b as bv16 }

  function OrHigh(x: bv16, b: byte): bv16 { x | ((b as bv16) << 8) }

  lemma JoinLow(b: byte)
    ensures Low(b) == Join(b, 0)
  {
  }

  lemma JoinHigh(lo: byte, hi: byte)
    ensures OrHigh(Join(lo, 0), hi) == Join(lo, hi)
  {
  }

  /** Comparing the received CRC with the computed one is comparing with the frame the builder would
      have written. */
  lemma VerdictByCrc(q: seq<byte>)
    requires |q| >= FRAME_OVERHEAD && q[0] == MAGIC0 && q[1] == MAGIC1
    ensures Verdict(q).Good? <==> Join(q[|q| - 2], q[|q| - 1]) == Crc(q[..|q| - CRC_LEN])
    ensures Verdict(q) == BadCrc || Verdict(q) == Good(q[2], LenField(q), q[HEADER_LEN..|q| - CRC_LEN])
  {
    var op, len, payload := q[2], LenField(q), q[HEADER_LEN..|q| - CRC_LEN];
    SplitJoin(q[3], q[4]);
    SplitJoin(q[|q| - 2], q[|q| - 1]);
    var covered := q[..|q| - CRC_LEN];
    assert covered == Covered(op, len, payload);
    JoinSplit(Crc(covered));
    hide Crc, Update, Join, Lo, Hi, Covered;
    assert q == covered + [q[|q| - 2], q[|q| - 1]];
  }
}
