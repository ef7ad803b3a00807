/** The frame as a value: what the builder writes and what the parser has to recognise. */
module FrameFormat {
  import opened FrameProto
  import opened Crc16

  /** A 16-bit length as a number. */
  function Size(len: bv16): (n: nat)
    ensures n < 0x1_0000
  {
    len as int
  }

  function Lo(x: bv16): byte { (x & 0xFF) as byte }

  function Hi(x: bv16): byte { ((x >> 8) & 0xFF) as byte }

  function Join(lo: byte, hi: byte): bv16 { (lo as bv16) | ((hi as bv16) << 8) }

  lemma JoinSplit(x: bv16)
    ensures Join(Lo(x), Hi(x)) == x
  {
  }

  lemma SplitJoin(lo: byte, hi: byte)
    ensures Lo(Join(lo, hi)) == lo && Hi(Join(lo, hi)) == hi
  {
  }

  /** MAGIC, OP, LEN and PAYLOAD: the bytes the CRC covers. */
  function Covered(op: byte, len: bv16, payload: seq<byte>): (c: seq<byte>)
    ensures |c| == HEADER_LEN + |payload|
  {
    [MAGIC0, MAGIC1, op, Lo(len), Hi(len)] + payload
  }

  function Frame(op: byte, len: bv16, payload: seq<byte>): (f: seq<byte>)
    ensures |f| == FRAME_OVERHEAD + |payload|
  {
    var covered := Covered(op, len, payload);
    covered + [Lo(Crc(covered)), Hi(Crc(covered))]
  }

  lemma CoveredSplit(op: byte, len: bv16, payload: seq<byte>)
    ensures Covered(op, len, payload) == Covered(op, len, []) + payload
  {
  }

  /** What the length argument of the builder promises about the payload. */
  predicate Sendable(len: bv16, payload: seq<byte>) {
    |payload| == Size(len) <= MAX_PAYLOAD
  }

  function LenField(q: seq<byte>): bv16
    requires |q| >= HEADER_LEN
  {
    Join(q[3], q[4])
  }

  function FrameSize(q: seq<byte>): nat
    requires |q| >= HEADER_LEN
  {
    FRAME_OVERHEAD + Size(LenField(q))
  }

  lemma FrameLayout(op: byte, len: bv16, payload: seq<byte>)
    ensures var f := Frame(op, len, payload);
            && f[0] == MAGIC0 && f[1] == MAGIC1 && f[2] == op && LenField(f) == len
            && f[HEADER_LEN..|f| - CRC_LEN] == payload
            && f[..|f| - CRC_LEN] == Covered(op, len, payload)
  {
    JoinSplit(len);
    hide Join, Lo, Hi, Crc;
    var f := Frame(op, len, payload);
    assert f[3] == Lo(len) && f[4] == Hi(len);
  }

  /** Two frames are equal only if everything they carry is equal, and neither can be cut short. */
  lemma FramePrefixFree(op1: byte, len1: bv16, payload1: seq<byte>, op2: byte, len2: bv16, payload2: seq<byte>)
    requires Sendable(len1, payload1) && Sendable(len2, payload2)
    requires Frame(op1, len1, payload1) <= Frame(op2, len2, payload2)
    ensures op1 == op2 && len1 == len2 && payload1 == payload2
  {
    FrameLayout(op1, len1, payload1);
    FrameLayout(op2, len2, payload2);
    hide Join, Frame, Size;
  }

  // ---------------------------------------------------------------- the builder

  /** h over and over, n bytes of it. */
  function Repeated(h: seq<byte>, n: nat): (r: seq<byte>)
    requires |h| == HEADER_LEN
    ensures |r| == n
  {
    seq(n, i requires 0 <= i < n => h[i % HEADER_LEN])
  }

  lemma RepeatedAt(h: seq<byte>, n: nat, i: nat)
    requires |h| == HEADER_LEN && i < n
    ensures Repeated(h, n)[i] == if i < HEADER_LEN then h[i] else Repeated(h, n)[i - HEADER_LEN]
  {
  }

  /** The payload the builder ends up sending: zeros for none; and since the header is written first, a payload
      in the output buffer itself is replaced by that header, over and over. */
  function Carried(header: seq<byte>, payload: array?<byte>, len: nat, out: array?<byte>): (p: seq<byte>)
    requires |header| == HEADER_LEN
    requires payload != null ==> len <= payload.Length
    reads payload
    ensures |p| == len
  {
    if payload == null then seq(len, _ => 0)
    else if payload == out then Repeated(header, len)
    else payload[..len]
  }

  lemma InPlace(header: seq<byte>, out: array<byte>, len: nat)
    requires |header| == HEADER_LEN && len <= out.Length
    ensures Carried(header, out, len, out) == Repeated(header, len)
  {
  }

  method WriteHeader(op: byte, payloadLen: bv16, out: array<byte>)
    requires HEADER_LEN <= out.Length
    modifies out
    ensures out[..HEADER_LEN] == Covered(op, payloadLen, [])
    ensures forall k | HEADER_LEN <= k < out.Length :: out[k] == old(out[k])
  {
    hide Lo, Hi;
    out[0] := MAGIC0;
    out[1] := MAGIC1;
    out[2] := op;
    out[3] := Lo(payloadLen);
    out[4] := Hi(payloadLen);
  }

  method WritePayload(payload: array?<byte>, len: nat, out: array<byte>)
    requires HEADER_LEN + len <= out.Length
    requires payload != null ==> len <= payload.Length
    modifies out
    ensures var header := old(out[..HEADER_LEN]);
            out[..HEADER_LEN + len] == header + old(Carried(header, payload, len, out))
    ensures forall k | HEADER_LEN + len <= k < out.Length :: out[k] == old(out[k])
  {
    ghost var header := out[..HEADER_LEN];
    ghost var filled := Carried(header, payload, len, out);
    hide Repeated;
    for i := 0 to len
      invariant forall k | HEADER_LEN <= k < HEADER_LEN + i :: out[k] == filled[k - HEADER_LEN]
      invariant forall k | 0 <= k < HEADER_LEN :: out[k] == header[k]
      invariant forall k | HEADER_LEN + len <= k < out.Length :: out[k] == old(out[k])
    {
      RepeatedAt(header, len, i);
      out[HEADER_LEN + i] := if payload != null then payload[i] else 0;
    }
  }

  method WriteCrc(out: array<byte>, end: nat)
    requires end + CRC_LEN <= out.Length
    modifies out
    ensures var covered := old(out[..end]);
            out[..end + CRC_LEN] == covered + [Lo(Crc(covered)), Hi(Crc(covered))]
    ensures forall k | end + CRC_LEN <= k < out.Length :: out[k] == old(out[k])
  {
    hide Lo, Hi, Crc;
    var crc := Crc16Of(out, end);
    out[end] := Lo(crc);
    out[end + 1] := Hi(crc);
  }

  method FrameBuild(op: byte, payload: array?<byte>, payloadLen: bv16, out: array?<byte>, outCap: nat)
    returns (total: nat)
    requires out != null ==> outCap <= out.Length
    requires payload != null ==> Size(payloadLen) <= payload.Length
    modifies out
    ensures total == if out == null || Size(payloadLen) > MAX_PAYLOAD
                        || outCap < FRAME_OVERHEAD + Size(payloadLen)
                     then 0 else FRAME_OVERHEAD + Size(payloadLen)
    ensures total > 0 ==>
              && out[..total] == Frame(op, payloadLen, old(Carried(Covered(op, payloadLen, []), payload, Size(payloadLen), out)))
              && forall k | total <= k < out.Length :: out[k] == old(out[k])
    ensures total == 0 && out != null ==> out[..] == old(out[..])
  {
    hide Lo, Hi, Crc, Covered, Size, Repeated, Carried;
    if out == null {
      return 0;
    }
    if Size(payloadLen) > MAX_PAYLOAD {
      return 0;
    }
    total := FRAME_OVERHEAD + Size(payloadLen);
    if outCap < total {
      return 0;
    }
    ghost var header := Covered(op, payloadLen, []);
    ghost var carried := Carried(header, payload, Size(payloadLen), out);
    if payload == out { InPlace(header, out, Size(payloadLen)); }
    WriteHeader(op, payloadLen, out);
    if payload == out { InPlace(header, out, Size(payloadLen)); }
    assert Carried(header, payload, Size(payloadLen), out) == carried;
    WritePayload(payload, Size(payloadLen), out);
    CoveredSplit(op, payloadLen, carried);
    WriteCrc(out, HEADER_LEN + Size(payloadLen));
  }
}
