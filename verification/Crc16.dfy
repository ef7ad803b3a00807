/** CRC-16/CCITT-FALSE of the command link: the bit-serial register, and what it means as
    polynomial division over GF(2). */
module Crc16 {
  import opened FrameProto
  import opened Gf2

  // ---------------------------------------------------------------- the register

  function BitStep(c: bv16): bv16 {
    if c & 0x8000 != 0 then (c << 1) ^ CRC16_POLY else c << 1
  }

  function BitSteps(c: bv16, k: nat): bv16
  {
    if k == 0 then c else BitStep(BitSteps(c, k - 1))
  }

  function ByteStep(c: bv16, b: byte): bv16 {
    BitSteps(Mix(c, b), 8)
  }

  /** The next byte enters at the top of the register. */
  function Mix(c: bv16, b: byte): bv16 {
    c ^ TopByte(b)
  }

  function TopByte(b: byte): bv16 {
    (b as bv16) << 8
  }

  /** The register after the whole message m, starting from c. */
  function Update(c: bv16, m: seq<byte>): bv16 {
    if m == [] then c else ByteStep(Update(c, m[..|m| - 1]), m[|m| - 1])
  }

  function Crc(m: seq<byte>): bv16 {
    Update(CRC16_INIT, m)
  }

  method Crc16Update(start: bv16, buf: array?<byte>, len: nat) returns (crc: bv16)
    requires buf != null ==> len <= buf.Length
    ensures crc == if buf == null then start else Update(start, buf[..len])
  {
    if buf == null {
      return start;
    }
    crc := start;
    for i := 0 to len
      invariant crc == Update(start, buf[..i])
    {
      ghost var before := crc;
      crc := crc ^ ((buf[i] as bv16) << 8);
      ghost var mixed := crc;
      for b := 0 to 8
        invariant crc == BitSteps(mixed, b)
      {
        if crc & 0x8000 != 0 {
          crc := (crc << 1) ^ CRC16_POLY;
        } else {
          crc := crc << 1;
        }
      }
      assert buf[..i + 1][..i] == buf[..i];
    }
  }

  method Crc16Of(buf: array?<byte>, len: nat) returns (crc: bv16)
    requires buf != null ==> len <= buf.Length
    ensures crc == if buf == null then CRC16_INIT else Crc(buf[..len])
  {
    crc := Crc16Update(CRC16_INIT, buf, len);
  }

  // ---------------------------------------------------------------- composition and linearity

  lemma UpdateAppend(c: bv16, m: seq<byte>, b: byte)
    ensures Update(c, m + [b]) == ByteStep(Update(c, m), b)
  {
    assert (m + [b])[..|m|] == m;
  }

  lemma {:induction false} UpdateCompose(c: bv16, a: seq<byte>, b: seq<byte>)
    ensures Update(c, a + b) == Update(Update(c, a), b)
  {
    hide ByteStep;
    if b == [] {
      assert a + b == a;
    } else {
      var front := b[..|b| - 1];
      UpdateCompose(c, a, front);
      assert (a + b)[..|a + b| - 1] == a + front;
    }
  }

  function Xor(x: bv16, y: bv16): bv16 { x ^ y }

  function XorBytes(a: seq<byte>, b: seq<byte>): (r: seq<byte>)
    requires |a| == |b|
    ensures |r| == |a|
  {
    if a == [] then [] else XorBytes(a[..|a| - 1], b[..|a| - 1]) + [XorByte(a[|a| - 1], b[|a| - 1])]
  }

  function XorByte(a: byte, b: byte): byte { a ^ b }

  lemma XorCommutes(x: bv16, y: bv16)
    ensures Xor(x, y) == Xor(y, x)
  {
  }

  lemma BitStepLinear(x: bv16, y: bv16)
    ensures BitStep(Xor(x, y)) == Xor(BitStep(x), BitStep(y))
  {
    XorCommutes(x, y);
    XorCommutes(BitStep(x), BitStep(y));
    hide BitStep, Xor;
    if x & 0x8000 != 0 {
      if y & 0x8000 != 0 { BothOverflow(x, y); } else { OneOverflows(y, x); }
    } else {
      if y & 0x8000 != 0 { OneOverflows(x, y); } else { NoneOverflows(x, y); }
    }
  }

  // The four cases are lemmas of their own: word-level facts are cheap only without branches.
  lemma BothOverflow(x: bv16, y: bv16)
    requires x & 0x8000 != 0 && y & 0x8000 != 0
    ensures BitStep(Xor(x, y)) == Xor(BitStep(x), BitStep(y))
  {}

  lemma OneOverflows(x: bv16, y: bv16)
    requires x & 0x8000 == 0 && y & 0x8000 != 0
    ensures BitStep(Xor(x, y)) == Xor(BitStep(x), BitStep(y))
  {}

  lemma NoneOverflows(x: bv16, y: bv16)
    requires x & 0x8000 == 0 && y & 0x8000 == 0
    ensures BitStep(Xor(x, y)) == Xor(BitStep(x), BitStep(y))
  {}

  lemma {:induction false} BitStepsLinear(x: bv16, y: bv16, k: nat)
    ensures BitSteps(Xor(x, y), k) == Xor(BitSteps(x, k), BitSteps(y, k))
  {
    hide BitStep, Xor;
    if k > 0 {
      BitStepsLinear(x, y, k - 1);
      BitStepLinear(BitSteps(x, k - 1), BitSteps(y, k - 1));
    }
  }

  lemma MixLinear(c: bv16, d: bv16, a: byte, b: byte)
    ensures Mix(Xor(c, d), XorByte(a, b)) == Xor(Mix(c, a), Mix(d, b))
  {
  }

  lemma ByteStepLinear(c: bv16, d: bv16, a: byte, b: byte)
    ensures ByteStep(Xor(c, d), XorByte(a, b)) == Xor(ByteStep(c, a), ByteStep(d, b))
  {
    hide BitSteps, Xor, XorByte, Mix;
    MixLinear(c, d, a, b);
    BitStepsLinear(Mix(c, a), Mix(d, b), 8);
  }

  /** The register is linear in the start value and the message together. */
  lemma {:induction false} UpdateLinear(c: bv16, d: bv16, a: seq<byte>, b: seq<byte>)
    requires |a| == |b|
    ensures Update(Xor(c, d), XorBytes(a, b)) == Xor(Update(c, a), Update(d, b))
  {
    hide ByteStep, Xor, XorByte;
    if a != [] {
      var n := |a| - 1;
      UpdateLinear(c, d, a[..n], b[..n]);
      assert XorBytes(a, b)[..n] == XorBytes(a[..n], b[..n]);
      ByteStepLinear(Update(c, a[..n]), Update(d, b[..n]), a[n], b[n]);
    }
  }

  // ---------------------------------------------------------------- polynomial division

  /** x^16 + x^12 + x^5 + 1 */
  function Generator(): (g: Poly)
    ensures |g| == 17 && g[16]
  {
    [true, false, false, false, false, true, false, false,
     false, false, false, false, true, false, false, false, true]
  }

  /** The j-th bit of a register, counted from the most significant one. */
  predicate Top(c: bv16, j: nat)
    decreases j
  {
    if j == 0 then c & 0x8000 != 0 else Top(c << 1, j - 1)
  }

  /** Bit i of the register is the coefficient of x^i. */
  function Word(c: bv16): (p: Poly)
    ensures |p| == 16
  {
    seq(16, i requires 0 <= i < 16 => Top(c, 15 - i))
  }

  function Octet(b: byte): (p: Poly)
    ensures |p| == 8
  {
    seq(8, i requires 0 <= i < 8 => Top(TopByte(b), 7 - i))
  }

  /** A message read most significant bit first: its last byte holds the lowest powers. */
  function Message(m: seq<byte>): (p: Poly)
    ensures |p| == 8 * |m|
  {
    if m == [] then [] else Octet(m[|m| - 1]) + Message(m[..|m| - 1])
  }

  lemma ShiftXor(x: bv16, y: bv16)
    ensures Xor(x, y) << 1 == Xor(x << 1, y << 1)
  {
  }

  lemma TopBitXor(x: bv16, y: bv16)
    ensures (Xor(x, y) & 0x8000 != 0) == ((x & 0x8000 != 0) != (y & 0x8000 != 0))
  {
  }

  lemma {:induction false} TopXor(x: bv16, y: bv16, j: nat)
    ensures Top(Xor(x, y), j) == (Top(x, j) != Top(y, j))
    decreases j
  {
    hide Xor;
    ShiftXor(x, y);
    TopBitXor(x, y);
    if j > 0 {
      TopXor(x << 1, y << 1, j - 1);
    }
  }

  lemma WordXor(x: bv16, y: bv16)
    ensures Same(Word(Xor(x, y)), Add(Word(x), Word(y)))
  {
    hide Xor, Top;
    var s, t := Word(Xor(x, y)), Add(Word(x), Word(y));
    forall i: nat ensures Coef(s, i) == Coef(t, i) {
      if i < 16 { TopXor(x, y, 15 - i); }
    }
  }

  function Shifted(c: bv16, n: nat): bv16
    decreases n
  {
    if n == 0 then c else Shifted(c << 1, n - 1)
  }

  lemma {:induction false} TopShifted(c: bv16, n: nat, j: nat)
    ensures Top(c, n + j) == Top(Shifted(c, n), j)
    decreases n
  {
    if n > 0 { TopShifted(c << 1, n - 1, j); }
  }

  lemma TopZero(j: nat)
    ensures !Top(0, j)
  {
  }

  lemma ShiftedOut(b: byte, c: bv16)
    ensures Shifted(TopByte(b), 8) == 0
    ensures Shifted(c << 1, 15) == 0
  {
  }

  lemma WordTopByte(b: byte)
    ensures Same(Word(TopByte(b)), Shift(Octet(b), 8))
  {
    ShiftedOut(b, 0);
    hide Top, TopByte, Shifted;
    var w := TopByte(b);
    forall i: nat ensures Coef(Word(w), i) == Coef(Shift(Octet(b), 8), i) {
      if i < 8 {
        TopShifted(w, 8, 7 - i);
        TopZero(7 - i);
      }
    }
  }

  /** One shift of the register multiplies by x and takes off the generator when it overflows. */
  lemma BitStepDivides(c: bv16)
    ensures Same(Shift(Word(c), 1),
                 Add(if c & 0x8000 != 0 then Generator() else [], Word(BitStep(c))))
  {
    var s := Word(c << 1);
    ShiftedWord(c);
    if c & 0x8000 != 0 {
      assert BitStep(c) == Xor(c << 1, CRC16_POLY);
      GeneratorWord();
      WordXor(c << 1, CRC16_POLY);
    }
  }

  lemma ShiftedWord(c: bv16)
    ensures Same(Shift(Word(c), 1), Word(c << 1) + [c & 0x8000 != 0])
  {
    ShiftedOut(0, c);
    forall i: nat ensures Coef(Shift(Word(c), 1), i) == Coef(Word(c << 1) + [c & 0x8000 != 0], i) {
      if 0 < i < 16 {
        TopShifted(c, 1, 15 - i);
      } else if i == 0 {
        TopShifted(c << 1, 15, 0);
      }
    }
  }

  lemma TopNibble(c: bv16)
    ensures Top(c, 0) == (c & 0x8000 != 0) && Top(c, 1) == (c & 0x4000 != 0)
    ensures Top(c, 2) == (c & 0x2000 != 0) && Top(c, 3) == (c & 0x1000 != 0)
  {
  }

  lemma GeneratorNibbles()
    ensures Shifted(CRC16_POLY, 4) == 0x0210 && Shifted(CRC16_POLY, 8) == 0x2100 && Shifted(CRC16_POLY, 12) == 0x1000
  {
  }

  lemma GeneratorWord()
    ensures Same(Generator(), Word(CRC16_POLY) + [true])
  {
    hide Top, Shifted;
    var p := CRC16_POLY;
    GeneratorNibbles();
    var p4, p8, p12: bv16 := 0x0210, 0x2100, 0x1000;
    forall j: nat | j < 4
      ensures Top(p, 4 + j) == Top(p4, j) && Top(p, 8 + j) == Top(p8, j) && Top(p, 12 + j) == Top(p12, j)
    {
      TopShifted(p, 4, j); TopShifted(p, 8, j); TopShifted(p, 12, j);
    }
    TopNibble(p);
    TopNibble(p4);
    TopNibble(p8);
    TopNibble(p12);
    assert !Top(p, 0) && !Top(p, 1) && !Top(p, 2) && Top(p, 3);
    assert !Top(p4, 0) && !Top(p4, 1) && !Top(p4, 2) && !Top(p4, 3);
    assert !Top(p8, 0) && !Top(p8, 1) && Top(p8, 2) && !Top(p8, 3);
    assert !Top(p12, 0) && !Top(p12, 1) && !Top(p12, 2) && Top(p12, 3);
    var w := Word(p);
    forall i: nat ensures Coef(w + [true], i) == Coef(Generator(), i) {
      if i < 4 {
        assert w[i] == Top(p, 12 + (3 - i));
      } else if i < 8 {
        assert w[i] == Top(p, 8 + (7 - i));
      } else if i < 12 {
        assert w[i] == Top(p, 4 + (11 - i));
      }
    }
  }

  lemma {:induction false} BitStepsDivide(v: bv16, k: nat) returns (q: Poly)
    ensures Same(Shift(Word(v), k), Add(Mul(q, Generator()), Word(BitSteps(v, k))))
  {
    hide BitStep, Word, Generator;
    var g := Generator();
    if k == 0 {
      q := [];
    } else {
      var q1 := BitStepsDivide(v, k - 1);
      var w := BitSteps(v, k - 1);
      BitStepDivides(w);
      var top := if w & 0x8000 != 0 then [true] else [];
      q := Add(Shift(q1, 1), top);
      MulAdd(Shift(q1, 1), top, g);
      MulShift(q1, 1, g);
      MulUnit(g);
      var taken := Mul(q1, g);
      forall i: nat
        ensures Coef(Shift(Word(v), k), i) == Coef(Add(Mul(q, g), Word(BitStep(w))), i)
      {
        if i > 0 {
          assert Coef(Shift(Word(v), k - 1), i - 1) == Coef(Add(taken, Word(w)), i - 1);
        }
        assert Coef(Shift(Word(v), k), i) == (Coef(Shift(taken, 1), i) != Coef(Shift(Word(w), 1), i));
        assert Coef(Mul(q, g), i) == (Coef(Mul(Shift(q1, 1), g), i) != Coef(Mul(top, g), i));
      }
    }
  }

  /** c * x^(8n) + m * x^16, for a message of n bytes. */
  function Dividend(c: bv16, m: seq<byte>): Poly {
    Add(Shift(Word(c), 8 * |m|), Shift(Message(m), 16))
  }

  lemma DividendAppend(c: bv16, f: seq<byte>, b: byte)
    ensures Same(Dividend(c, f + [b]), Add(Shift(Dividend(c, f), 8), Shift(Word(TopByte(b)), 8)))
  {
    var m := f + [b];
    assert m[..|m| - 1] == f;
    assert Message(m) == Octet(b) + Message(f);
    WordTopByte(b);
    hide Word, Octet, TopByte, Message;
    forall i: nat
      ensures Coef(Dividend(c, m), i) ==
              Coef(Add(Shift(Dividend(c, f), 8), Shift(Word(TopByte(b)), 8)), i)
    {
      if i >= 8 {
        assert Coef(Word(TopByte(b)), i - 8) == Coef(Shift(Octet(b), 8), i - 8);
        if i >= 16 {
          assert Coef(Message(m), i - 16) == (Coef(Octet(b), i - 16) != Coef(Shift(Message(f), 8), i - 16));
        }
      }
    }
  }

  lemma {:induction false} UpdateDivides(c: bv16, m: seq<byte>) returns (q: Poly)
    ensures Same(Dividend(c, m), Add(Mul(q, Generator()), Word(Update(c, m))))
  {
    hide Word, Generator, ByteStep;
    var g := Generator();
    if m == [] {
      q := [];
    } else {
      var f, b := m[..|m| - 1], m[|m| - 1];
      assert m == f + [b];
      var q1 := UpdateDivides(c, f);
      var q2 := ByteDivides(Update(c, f), b);
      DividendAppend(c, f, b);
      q := Add(Shift(q1, 8), q2);
      MulAdd(Shift(q1, 8), q2, g);
      MulShift(q1, 8, g);
      hide Mul, Update, Dividend;
      NextDividend(Dividend(c, m), Dividend(c, f), Word(TopByte(b)), Mul(q1, g), Word(Update(c, f)),
                   Mul(Shift(q1, 8), g), Mul(q2, g), Mul(q, g), Word(Update(c, m)));
    }
  }

  lemma ByteDivides(r: bv16, b: byte) returns (q: Poly)
    ensures Same(Shift(Add(Word(r), Word(TopByte(b))), 8), Add(Mul(q, Generator()), Word(ByteStep(r, b))))
  {
    assert Mix(r, b) == Xor(r, TopByte(b));
    hide Word, Generator, BitSteps, TopByte, Xor, Mix;
    WordXor(r, TopByte(b));
    q := BitStepsDivide(Mix(r, b), 8);
    forall i: nat
      ensures Coef(Shift(Add(Word(r), Word(TopByte(b))), 8), i) ==
              Coef(Add(Mul(q, Generator()), Word(ByteStep(r, b))), i)
    {
      if i >= 8 {
        assert Coef(Word(Mix(r, b)), i - 8) == Coef(Add(Word(r), Word(TopByte(b))), i - 8);
      }
    }
  }

  lemma NoTopBits(c: bv16, j: nat)
    requires !Top(c, j)
    ensures Shifted(c, j) & 0x8000 == 0
  {
    TopShifted(c, j, 0);
  }

  lemma WordZero(c: bv16)
    requires forall j: nat | j < 16 :: !Top(c, j)
    ensures c == 0
  {
    NoTopBits(c, 0); NoTopBits(c, 1); NoTopBits(c, 2); NoTopBits(c, 3);
    NoTopBits(c, 4); NoTopBits(c, 5); NoTopBits(c, 6); NoTopBits(c, 7);
    NoTopBits(c, 8); NoTopBits(c, 9); NoTopBits(c, 10); NoTopBits(c, 11);
    NoTopBits(c, 12); NoTopBits(c, 13); NoTopBits(c, 14); NoTopBits(c, 15);
    hide Top;
  }

  lemma XorZeroEqual(x: bv16, y: bv16)
    requires Xor(x, y) == 0
    ensures x == y
  {
  }

  lemma SameTop(x: bv16, y: bv16, j: nat)
    requires Same(Word(x), Word(y)) && j < 16
    ensures Top(x, j) == Top(y, j)
  {
    hide Top;
    assert Coef(Word(x), 15 - j) == Coef(Word(y), 15 - j);
  }

  lemma WordInjective(x: bv16, y: bv16)
    requires Same(Word(x), Word(y))
    ensures x == y
  {
    hide Top, Word, Xor, Same;
    forall j: nat | j < 16 ensures !Top(Xor(x, y), j) {
      TopXor(x, y, j);
      SameTop(x, y, j);
    }
    WordZero(Xor(x, y));
    XorZeroEqual(x, y);
  }

  /** The register after m is exactly the remainder of the division by the generator. */
  lemma CrcIsRemainder(c: bv16, m: seq<byte>, v: bv16)
    ensures IsRemainder(Dividend(c, m), Generator(), Word(v)) <==> v == Update(c, m)
  {
    var q := UpdateDivides(c, m);
    hide Update, Dividend;
    if IsRemainder(Dividend(c, m), Generator(), Word(v)) {
      RemainderUnique(Dividend(c, m), Generator(), Word(v), Word(Update(c, m)));
      WordInjective(v, Update(c, m));
    }
  }

  // ---------------------------------------------------------------- the start value, without its name

  lemma OnesNibbles()
    ensures Shifted(0xFFFF, 4) == 0xFFF0 && Shifted(0xFFFF, 8) == 0xFF00 && Shifted(0xFFFF, 12) == 0xF000
  {
  }

  lemma StartIsOnes()
    ensures Word(CRC16_INIT) == [true, true, true, true, true, true, true, true,
                                 true, true, true, true, true, true, true, true]
  {
    hide Top, Shifted;
    OnesNibbles();
    var c: bv16 := 0xFFFF;
    TopNibble(0xFFFF);
    TopNibble(0xFFF0);
    TopNibble(0xFF00);
    TopNibble(0xF000);
    forall j: nat | j < 16 ensures Top(c, j) {
      if j < 4 {
        assert j == 0 || j == 1 || j == 2 || j == 3;
      } else if j < 8 {
        TopShifted(c, 4, j - 4);
        assert j == 4 || j == 5 || j == 6 || j == 7;
      } else if j < 12 {
        TopShifted(c, 8, j - 8);
        assert j == 8 || j == 9 || j == 10 || j == 11;
      } else {
        TopShifted(c, 12, j - 12);
        assert j == 12 || j == 13 || j == 14 || j == 15;
      }
    }
  }

  lemma DividendIs(c: bv16, m: seq<byte>)
    ensures Dividend(c, m) == Add(Shift(Word(c), 8 * |m|), Shift(Message(m), 16))
  {
  }

  /** The CRC of m is exactly the remainder of (x^15 + ... + 1) * x^(8n) + m * x^16 by x^16 + x^12 + x^5 + 1. */
  lemma CrcDividesFromOnes(m: seq<byte>, v: bv16)
    ensures var ones := [true, true, true, true, true, true, true, true,
                         true, true, true, true, true, true, true, true];
            IsRemainder(Add(Shift(ones, 8 * |m|), Shift(Message(m), 16)), Generator(), Word(v)) <==> v == Crc(m)
  {
    hide Update, Message, Word, IsRemainder, Generator, Add, Shift;
    var start := CRC16_INIT;
    StartIsOnes();
    CrcIsRemainder(start, m, v);
    DividendIs(start, m);
    assert Crc(m) == Update(start, m);
    var ones := [true, true, true, true, true, true, true, true,
                 true, true, true, true, true, true, true, true];
    assert Word(start) == ones;
    assert Dividend(start, m) == Add(Shift(ones, 8 * |m|), Shift(Message(m), 16));
  }

  lemma {:induction false} BitStepsAdd(c: bv16, j: nat, k: nat)
    ensures BitSteps(c, j + k) == BitSteps(BitSteps(c, j), k)
    decreases k
  {
    hide BitStep;
    if k > 0 { BitStepsAdd(c, j, k - 1); }
  }

  lemma ByteInHalves(c: bv16, b: byte, v: bv16, mid: bv16, next: bv16)
    requires Mix(c, b) == v && BitSteps(v, 4) == mid && BitSteps(mid, 4) == next
    ensures ByteStep(c, b) == next
  {
    hide BitSteps, Mix;
    BitStepsAdd(v, 4, 4);
  }

  lemma CheckDigits1()
    ensures ByteStep(0xFFFF, 0x31) == 0xC782
    ensures ByteStep(0xC782, 0x32) == 0x3DBA
    ensures ByteStep(0x3DBA, 0x33) == 0x5BCE
  {
    ByteInHalves(0xFFFF, 0x31, 0xCEFF, 0x2E7C, 0xC782);
    ByteInHalves(0xC782, 0x32, 0xF582, 0xA9CF, 0x3DBA);
    ByteInHalves(0x3DBA, 0x33, 0x0EBA, 0xEBA0, 0x5BCE);
  }

  lemma CheckDigits2()
    ensures ByteStep(0x5BCE, 0x34) == 0x5349
    ensures ByteStep(0x5349, 0x35) == 0x4560
    ensures ByteStep(0x4560, 0x36) == 0x2EF4
  {
    ByteInHalves(0x5BCE, 0x34, 0x6FCE, 0x9C26, 0x5349);
    ByteInHalves(0x5349, 0x35, 0x6649, 0x0456, 0x4560);
    ByteInHalves(0x4560, 0x36, 0x7360, 0x46E7, 0x2EF4);
  }

  lemma CheckDigits3()
    ensures ByteStep(0x2EF4, 0x37) == 0x7718
    ensures ByteStep(0x7718, 0x38) == 0xA12B
    ensures ByteStep(0xA12B, 0x39) == 0x29B1
  {
    ByteInHalves(0x2EF4, 0x37, 0x19F4, 0x8F61, 0x7718);
    ByteInHalves(0x7718, 0x38, 0x4F18, 0xB104, 0xA12B);
    ByteInHalves(0xA12B, 0x39, 0x982B, 0x1399, 0x29B1);
  }

  /** The check value of CRC-16/CCITT-FALSE: the CRC of the nine digits "123456789". */
  lemma CheckValue()
    ensures Crc([0x31, 0x32, 0x33, 0x34, 0x35, 0x36, 0x37, 0x38, 0x39]) == 0x29B1
  {
    hide ByteStep, Update;
    CheckDigits1();
    CheckDigits2();
    CheckDigits3();
    var digits: seq<byte> := [0x31, 0x32, 0x33, 0x34, 0x35, 0x36, 0x37, 0x38, 0x39];
    assert digits[..0] == [] && digits[..9] == digits;
    UpdateNothing(CRC16_INIT);
    UpdateNext(CRC16_INIT, digits, 0);
    UpdateNext(CRC16_INIT, digits, 1);
    UpdateNext(CRC16_INIT, digits, 2);
    UpdateNext(CRC16_INIT, digits, 3);
    UpdateNext(CRC16_INIT, digits, 4);
    UpdateNext(CRC16_INIT, digits, 5);
    UpdateNext(CRC16_INIT, digits, 6);
    UpdateNext(CRC16_INIT, digits, 7);
    UpdateNext(CRC16_INIT, digits, 8);
  }

  lemma UpdateNothing(c: bv16)
    ensures Update(c, []) == c
  {
  }

  lemma UpdateNext(c: bv16, m: seq<byte>, n: nat)
    requires n < |m|
    ensures Update(c, m[..n + 1]) == ByteStep(Update(c, m[..n]), m[n])
  {
    hide ByteStep;
    assert m[..n + 1][..n] == m[..n];
  }
}
