/** What the SDK's CRC-32 means as polynomial division over GF(2). The register is reflected: its lowest bit is the
    coefficient of x^31, and every byte is read lowest bit first. */
module Crc32Division {
  import opened Crc32
  import opened FrameProto
  import opened Gf2

  /** x^32 + x^26 + x^23 + x^22 + x^16 + x^12 + x^11 + x^10 + x^8 + x^7 + x^5 + x^4 + x^2 + x + 1 */
  function Generator(): (g: Poly)
    ensures |g| == 33 && g[32]
  {
    [true, true, true, false, true, true, false, true,
     true, false, true, true, true, false, false, false,
     true, false, false, false, false, false, true, true,
     false, false, true, false, false, false, false, false, true]
  }

  /** The j-th bit of a register, counted from the least significant one. */
  predicate Low(c: bv32, j: nat)
    decreases j
  {
    if j == 0 then !Even(c) else Low(Half(c), j - 1)
  }

  function PolyOf(c: bv32): (p: Poly)
    ensures |p| == 32
  {
    seq(32, i requires 0 <= i < 32 => Low(c, 31 - i))
  }

  function Octet(b: byte): (p: Poly)
    ensures |p| == 8
  {
    seq(8, i requires 0 <= i < 8 => Low(Word(b), 7 - i))
  }

  /** A message read least significant bit first: its last byte holds the lowest powers. */
  function Message(m: seq<byte>): (p: Poly)
    ensures |p| == 8 * |m|
  {
    if m == [] then [] else Octet(m[|m| - 1]) + Message(m[..|m| - 1])
  }

  // ---------------------------------------------------------------- bits

  lemma HalfXor(x: bv32, y: bv32)
    ensures Half(Xor(x, y)) == Xor(Half(x), Half(y))
  {
  }

  lemma EvenXor(x: bv32, y: bv32)
    ensures Even(Xor(x, y)) == (Even(x) == Even(y))
  {
  }

  lemma {:induction false} LowXor(x: bv32, y: bv32, j: nat)
    ensures Low(Xor(x, y), j) == (Low(x, j) != Low(y, j))
    decreases j
  {
    hide Xor, Half, Even;
    HalfXor(x, y);
    EvenXor(x, y);
    if j > 0 { LowXor(Half(x), Half(y), j - 1); }
  }

  lemma PolyXor(x: bv32, y: bv32)
    ensures Same(PolyOf(Xor(x, y)), Add(PolyOf(x), PolyOf(y)))
  {
    hide Xor, Low;
    var s, t := PolyOf(Xor(x, y)), Add(PolyOf(x), PolyOf(y));
    forall i: nat ensures Coef(s, i) == Coef(t, i) {
      if i < 32 { LowXor(x, y, 31 - i); }
    }
  }

  lemma {:induction false} LowShifted(c: bv32, n: nat, j: nat)
    ensures Low(c, n + j) == Low(Shifted(c, n), j)
    decreases n
  {
    hide Half, Even;
    if n > 0 { LowShifted(c, n - 1, j + 1); }
  }

  lemma {:induction false} LowOfZero(j: nat)
    ensures !Low(0, j)
    decreases j
  {
    assert Half(0) == 0 && Even(0);
    hide Half, Even;
    if j > 0 { LowOfZero(j - 1); }
  }

  lemma {:induction false} ShiftedAdd(c: bv32, j: nat, k: nat)
    ensures Shifted(c, j + k) == Shifted(Shifted(c, j), k)
    decreases k
  {
    hide Half;
    if k > 0 { ShiftedAdd(c, j, k - 1); }
  }

  lemma HalvesAreRest(c: bv32)
    ensures Half(Half(Half(Half(Half(Half(Half(Half(c)))))))) == Rest(c)
  {
  }

  lemma ShiftedByte(c: bv32)
    ensures Shifted(c, 8) == Rest(c)
  {
    hide Half, Rest;
    HalvesAreRest(c);
    assert Shifted(c, 1) == Half(Shifted(c, 0));
    assert Shifted(c, 2) == Half(Shifted(c, 1));
    assert Shifted(c, 4) == Half(Half(Shifted(c, 2)));
    assert Shifted(c, 6) == Half(Half(Shifted(c, 4)));
    assert Shifted(c, 8) == Half(Half(Shifted(c, 6)));
  }

  lemma RestsEmpty(c: bv32, b: byte)
    ensures Rest(Rest(Rest(Rest(c)))) == 0 && Rest(Word(b)) == 0
  {
  }

  lemma ShiftedOut(c: bv32)
    ensures Shifted(c, 32) == 0
  {
    hide Shifted, Rest;
    ShiftedByte(c);
    ShiftedByte(Rest(c));
    ShiftedByte(Rest(Rest(c)));
    ShiftedByte(Rest(Rest(Rest(c))));
    ShiftedAdd(c, 8, 24);
    ShiftedAdd(Rest(c), 8, 16);
    ShiftedAdd(Rest(Rest(c)), 8, 8);
    RestsEmpty(c, 0);
  }

  /** A byte enters at the low end, which is the top of the polynomial. */
  lemma PolyOfByte(b: byte)
    ensures Same(PolyOf(Word(b)), Shift(Octet(b), 24))
  {
    hide Low, Word, Shifted, Rest;
    ShiftedByte(Word(b));
    RestsEmpty(0, b);
    var w := Word(b);
    forall i: nat ensures Coef(PolyOf(w), i) == Coef(Shift(Octet(b), 24), i) {
      if i < 24 {
        LowShifted(w, 8, 23 - i);
        LowOfZero(23 - i);
      }
    }
  }

  // ---------------------------------------------------------------- the generator

  lemma SecondBit(c: bv32)
    ensures Even(Half(c)) == (c & 2 == 0)
  {
  }

  lemma ThirdBit(c: bv32)
    ensures Even(Half(Half(c))) == (c & 4 == 0)
  {
  }

  lemma FourthBit(c: bv32)
    ensures Even(Half(Half(Half(c)))) == (c & 8 == 0)
  {
  }

  lemma FirstBit(c: bv32)
    ensures Even(c) == (c & 1 == 0)
  {
  }

  lemma Nibble(c: bv32)
    ensures Low(c, 0) == (c & 1 != 0) && Low(c, 1) == (c & 2 != 0)
    ensures Low(c, 2) == (c & 4 != 0) && Low(c, 3) == (c & 8 != 0)
  {
    hide Half, Even;
    FirstBit(c);
    SecondBit(c);
    ThirdBit(c);
    FourthBit(c);
    assert Low(c, 1) == Low(Half(c), 0);
    assert Low(c, 2) == Low(Half(c), 1) == Low(Half(Half(c)), 0);
    assert Low(c, 3) == Low(Half(c), 2) == Low(Half(Half(c)), 1) == Low(Half(Half(Half(c))), 0);
  }

  lemma NibbleAt(n: nat, c: bv32)
    requires Shifted(CRC32_POLY, n) == c
    ensures Low(CRC32_POLY, n) == (c & 1 != 0) && Low(CRC32_POLY, n + 1) == (c & 2 != 0)
    ensures Low(CRC32_POLY, n + 2) == (c & 4 != 0) && Low(CRC32_POLY, n + 3) == (c & 8 != 0)
  {
    hide Low, Shifted;
    Nibble(c);
    LowShifted(CRC32_POLY, n, 0);
    LowShifted(CRC32_POLY, n, 1);
    LowShifted(CRC32_POLY, n, 2);
    LowShifted(CRC32_POLY, n, 3);
  }

  lemma FourHalves(c: bv32)
    ensures Shifted(c, 4) == c >> 4
  {
    assert Half(Half(Half(Half(c)))) == c >> 4;
    hide Half;
    assert Shifted(c, 1) == Half(Shifted(c, 0));
    assert Shifted(c, 2) == Half(Shifted(c, 1));
    assert Shifted(c, 4) == Half(Half(Shifted(c, 2)));
  }

  lemma PolyNibbles()
    ensures var p := CRC32_POLY;
      && Shifted(p, 0) == 0xEDB8_8320 && Shifted(p, 4) == 0x0EDB_8832 && Shifted(p, 8) == 0x00ED_B883
      && Shifted(p, 12) == 0x000E_DB88 && Shifted(p, 16) == 0x0000_EDB8 && Shifted(p, 20) == 0x0000_0EDB
      && Shifted(p, 24) == 0x0000_00ED && Shifted(p, 28) == 0x0000_000E
  {
    var p := CRC32_POLY;
    assert Shifted(p, 0) == p;
    hide Shifted;
    FourHalves(p);
    ShiftedAdd(p, 4, 4); FourHalves(0x0EDB_8832);
    ShiftedAdd(p, 8, 4); FourHalves(0x00ED_B883);
    ShiftedAdd(p, 12, 4); FourHalves(0x000E_DB88);
    ShiftedAdd(p, 16, 4); FourHalves(0x0000_EDB8);
    ShiftedAdd(p, 20, 4); FourHalves(0x0000_0EDB);
    ShiftedAdd(p, 24, 4); FourHalves(0x0000_00ED);
  }

  lemma PolyBits()
    ensures forall j: nat | j < 32 :: Low(CRC32_POLY, j) == Generator()[31 - j]
  {
    hide Low, Shifted;
    PolyNibbles();
    NibbleAt(0, 0xEDB8_8320);
    NibbleAt(4, 0x0EDB_8832);
    NibbleAt(8, 0x00ED_B883);
    NibbleAt(12, 0x000E_DB88);
    NibbleAt(16, 0x0000_EDB8);
    NibbleAt(20, 0x0000_0EDB);
    NibbleAt(24, 0x0000_00ED);
    NibbleAt(28, 0x0000_000E);
    forall j: nat | j < 32 ensures Low(CRC32_POLY, j) == Generator()[31 - j] {
      if j < 8 {
        assert j == 0 || j == 1 || j == 2 || j == 3 || j == 4 || j == 5 || j == 6 || j == 7;
      } else if j < 16 {
        assert j == 8 || j == 9 || j == 10 || j == 11 || j == 12 || j == 13 || j == 14 || j == 15;
      } else if j < 24 {
        assert j == 16 || j == 17 || j == 18 || j == 19 || j == 20 || j == 21 || j == 22 || j == 23;
      } else {
        assert j == 24 || j == 25 || j == 26 || j == 27 || j == 28 || j == 29 || j == 30 || j == 31;
      }
    }
  }

  lemma GeneratorPoly()
    ensures Same(Generator(), PolyOf(CRC32_POLY) + [true])
  {
    PolyBits();
    hide Low, Generator;
    forall i: nat ensures Coef(Generator(), i) == Coef(PolyOf(CRC32_POLY) + [true], i) {
      if i < 32 { assert Low(CRC32_POLY, 31 - i) == Generator()[31 - (31 - i)]; }
    }
  }

  // ---------------------------------------------------------------- division

  lemma LowFirst(c: bv32)
    ensures Low(c, 0) == !Even(c)
  {
  }

  lemma LowNext(c: bv32, j: nat)
    ensures Low(c, j + 1) == Low(Half(c), j)
  {
    hide Half, Even;
  }

  lemma ShiftedPoly(c: bv32)
    ensures Same(Shift(PolyOf(c), 1), PolyOf(Half(c)) + [!Even(c)])
  {
    hide Half, Even, Low, Shifted;
    ShiftedOut(c);
    LowShifted(c, 32, 0);
    LowOfZero(0);
    LowFirst(c);
    forall i: nat ensures Coef(Shift(PolyOf(c), 1), i) == Coef(PolyOf(Half(c)) + [!Even(c)], i) {
      if 0 < i < 32 {
        LowNext(c, 31 - i);
      } else if i == 0 {
        LowNext(c, 31);
      }
    }
  }

  lemma StepIs(c: bv32)
    ensures BitStep(c) == if Even(c) then Half(c) else Xor(Half(c), CRC32_POLY)
  {
  }

  /** One step of the register multiplies by x and takes off the generator when it overflows. */
  lemma BitStepDivides(c: bv32)
    ensures Same(Shift(PolyOf(c), 1), Add(if Even(c) then [] else Generator(), PolyOf(BitStep(c))))
  {
    hide BitStep, Half, Even, Xor, PolyOf, Generator;
    StepIs(c);
    ShiftedPoly(c);
    if !Even(c) {
      GeneratorPoly();
      PolyXor(Half(c), CRC32_POLY);
    }
  }

  lemma {:induction false} StepsDivide(v: bv32, k: nat) returns (q: Poly)
    ensures Same(Shift(PolyOf(v), k), Add(Mul(q, Generator()), PolyOf(Steps(v, k))))
    decreases k
  {
    hide BitStep, PolyOf, Generator, Even;
    var g := Generator();
    if k == 0 {
      q := [];
    } else {
      var q1 := StepsDivide(v, k - 1);
      var w := Steps(v, k - 1);
      BitStepDivides(w);
      var top := if Even(w) then [] else [true];
      q := Add(Shift(q1, 1), top);
      MulAdd(Shift(q1, 1), top, g);
      MulShift(q1, 1, g);
      MulUnit(g);
      hide Mul;
      NextQuotient(PolyOf(v), k, Mul(q1, g), PolyOf(w), Mul(Shift(q1, 1), g), Mul(top, g), Mul(q, g), PolyOf(BitStep(w)));
    }
  }

  /** If p x^(k-1) = t1 + w is a division and w x = t2 + r is one, then p x^k = t + r is one, with t = t1 x + t2. */
  lemma NextQuotient(p: Poly, k: nat, t1: Poly, w: Poly, t1x: Poly, t2: Poly, t: Poly, r: Poly)
    requires k > 0 && Same(Shift(p, k - 1), Add(t1, w)) && Same(Shift(w, 1), Add(t2, r))
    requires Same(t1x, Shift(t1, 1)) && Same(t, Add(t1x, t2))
    ensures Same(Shift(p, k), Add(t, r))
  {
    forall i: nat ensures Coef(Shift(p, k), i) == Coef(Add(t, r), i) {
      assert Coef(Shift(w, 1), i) == Coef(Add(t2, r), i);
      if i > 0 {
        assert Coef(Shift(p, k - 1), i - 1) == Coef(Add(t1, w), i - 1);
      }
    }
  }

  /** c * x^(8n) + m * x^32, for a message of n bytes. */
  function Dividend(c: bv32, m: seq<byte>): Poly {
    Add(Shift(PolyOf(c), 8 * |m|), Shift(Message(m), 32))
  }

  lemma DividendAppend(c: bv32, f: seq<byte>, b: byte)
    ensures Same(Dividend(c, f + [b]), Add(Shift(Dividend(c, f), 8), Shift(PolyOf(Word(b)), 8)))
  {
    var m := f + [b];
    assert m[..|m| - 1] == f;
    assert Message(m) == Octet(b) + Message(f);
    PolyOfByte(b);
    hide PolyOf, Octet, Word, Message;
    forall i: nat
      ensures Coef(Dividend(c, m), i) == Coef(Add(Shift(Dividend(c, f), 8), Shift(PolyOf(Word(b)), 8)), i)
    {
      if i >= 8 {
        assert Coef(PolyOf(Word(b)), i - 8) == Coef(Shift(Octet(b), 24), i - 8);
        if i >= 32 {
          assert Coef(Message(m), i - 32) == (Coef(Octet(b), i - 32) != Coef(Shift(Message(f), 8), i - 32));
        }
      }
    }
  }

  lemma ByteDivides(r: bv32, b: byte) returns (q: Poly)
    ensures Same(Shift(Add(PolyOf(r), PolyOf(Word(b))), 8), Add(Mul(q, Generator()), PolyOf(ByteStep(r, b))))
  {
    hide PolyOf, Generator, Steps, Word, Xor;
    var v := Xor(r, Word(b));
    PolyXor(r, Word(b));
    q := StepsDivide(v, 8);
    hide Mul;
    forall i: nat
      ensures Coef(Shift(Add(PolyOf(r), PolyOf(Word(b))), 8), i)
        == Coef(Add(Mul(q, Generator()), PolyOf(ByteStep(r, b))), i)
    {
      if i >= 8 {
        assert Coef(PolyOf(v), i - 8) == Coef(Add(PolyOf(r), PolyOf(Word(b))), i - 8);
      }
      assert Coef(Shift(PolyOf(v), 8), i) == Coef(Add(Mul(q, Generator()), PolyOf(Steps(v, 8))), i);
    }
  }

  lemma {:induction false} RegisterDivides(c: bv32, m: seq<byte>) returns (q: Poly)
    ensures Same(Dividend(c, m), Add(Mul(q, Generator()), PolyOf(Register(c, m))))
    decreases |m|
  {
    hide PolyOf, Generator, ByteStep;
    var g := Generator();
    if m == [] {
      q := [];
    } else {
      var f, b := m[..|m| - 1], m[|m| - 1];
      assert m == f + [b];
      var q1 := RegisterDivides(c, f);
      var q2 := ByteDivides(Register(c, f), b);
      DividendAppend(c, f, b);
      q := Add(Shift(q1, 8), q2);
      MulAdd(Shift(q1, 8), q2, g);
      MulShift(q1, 8, g);
      hide Mul, Register, Dividend;
      NextDividend(Dividend(c, m), Dividend(c, f), PolyOf(Word(b)), Mul(q1, g), PolyOf(Register(c, f)),
                   Mul(Shift(q1, 8), g), Mul(q2, g), Mul(q, g), PolyOf(Register(c, m)));
    }
  }

  // ---------------------------------------------------------------- the remainder

  lemma EvenAndHalfZero(z: bv32)
    requires Even(z) && Half(z) == 0
    ensures z == 0
  {
  }

  lemma {:induction false} ZeroBits(z: bv32, n: nat)
    requires Shifted(z, n) == 0 && forall j: nat | j < n :: !Low(z, j)
    ensures z == 0
    decreases n
  {
    hide Half, Even;
    if n > 0 {
      ShiftedAdd(z, 1, n - 1);
      assert Shifted(z, 1) == Half(Shifted(z, 0));
      assert !Low(z, 0);
      forall j: nat | j < n - 1 ensures !Low(Half(z), j) { assert !Low(z, j + 1); }
      ZeroBits(Half(z), n - 1);
      EvenAndHalfZero(z);
    }
  }

  lemma SameBit(x: bv32, y: bv32, j: nat)
    requires Same(PolyOf(x), PolyOf(y)) && j < 32
    ensures Low(x, j) == Low(y, j)
  {
    hide Low;
    assert Coef(PolyOf(x), 31 - j) == Coef(PolyOf(y), 31 - j);
  }

  lemma XorZeroEqual(x: bv32, y: bv32)
    requires Xor(x, y) == 0
    ensures x == y
  {
  }

  lemma PolyInjective(x: bv32, y: bv32)
    requires Same(PolyOf(x), PolyOf(y))
    ensures x == y
  {
    hide Low, PolyOf, Xor, Same, Shifted;
    forall j: nat | j < 32 ensures !Low(Xor(x, y), j) {
      LowXor(x, y, j);
      SameBit(x, y, j);
    }
    ShiftedOut(Xor(x, y));
    ZeroBits(Xor(x, y), 32);
    XorZeroEqual(x, y);
  }

  /** The register after m is exactly the remainder of the division by the generator. */
  lemma RegisterIsRemainder(c: bv32, m: seq<byte>, v: bv32)
    ensures IsRemainder(Dividend(c, m), Generator(), PolyOf(v)) <==> v == Register(c, m)
  {
    var q := RegisterDivides(c, m);
    hide Register, Dividend;
    if IsRemainder(Dividend(c, m), Generator(), PolyOf(v)) {
      RemainderUnique(Dividend(c, m), Generator(), PolyOf(v), PolyOf(Register(c, m)));
      PolyInjective(v, Register(c, m));
    }
  }

  /** The CRC of m is the complement of that remainder, for the all-ones start value. */
  lemma CrcIsRemainder(m: seq<byte>, v: bv32)
    ensures IsRemainder(Dividend(CRC32_INIT, m), Generator(), PolyOf(Complement(v))) <==> v == Crc(m)
  {
    hide Register, Dividend, Complement, IsRemainder, PolyOf, Generator;
    RegisterIsRemainder(CRC32_INIT, m, Complement(v));
    ComplementTwice(v);
    ComplementTwice(Register(CRC32_INIT, m));
  }

  lemma ComplementTwice(x: bv32)
    ensures Complement(Complement(x)) == x
  {
  }
}
