/** The SDK's CRC-32: reflected register, initial value and final complement all ones. */
module Crc32 {
  import opened FrameProto

  const CRC32_POLY: bv32 := 0xEDB88320
  const CRC32_INIT: bv32 := 0xFFFF_FFFF

  /** The check value of a message followed by its own CRC. */
  const CRC32_RESIDUE: bv32 := 0x2144_DF1C

  function BitStep(c: bv32): bv32 {
    if c & 1 != 0 then (c >> 1) ^ CRC32_POLY else c >> 1
  }

  function Steps(c: bv32, k: nat): bv32 {
    if k == 0 then c else BitStep(Steps(c, k - 1))
  }

  function Word(b: byte): bv32 { b as bv32 }

  function Xor(x: bv32, y: bv32): bv32 { x ^ y }

  function ByteStep(c: bv32, b: byte): bv32 {
    Steps(Xor(c, Word(b)), 8)
  }

  function Register(c: bv32, m: seq<byte>): bv32 {
    if m == [] then c else ByteStep(Register(c, m[..|m| - 1]), m[|m| - 1])
  }

  function Complement(c: bv32): bv32 { !c }

  function Crc(m: seq<byte>): bv32 {
    Complement(Register(CRC32_INIT, m))
  }

  lemma RegisterNext(c: bv32, m: seq<byte>, n: nat)
    requires n < |m|
    ensures Register(c, m[..n + 1]) == ByteStep(Register(c, m[..n]), m[n])
  {
    hide ByteStep;
    assert m[..n + 1][..n] == m[..n];
  }

  lemma OddStep(c: bv32)
    requires c & 1 != 0
    ensures BitStep(c) == (c >> 1) ^ CRC32_POLY
  {
  }

  lemma EvenStep(c: bv32)
    requires c & 1 == 0
    ensures BitStep(c) == c >> 1
  {
  }

  method Crc32(buf: array<byte>, len: nat) returns (r: bv32)
    requires len <= buf.Length
    ensures r == Crc(buf[..len])
  {
    hide BitStep, Register, Xor, Word, Complement;
    var crc := CRC32_INIT;
    var left, at := len, 0;
    assert buf[..0] == [];
    RegisterStarts(crc);
    while left > 0
      invariant at + left == len
      invariant crc == Register(CRC32_INIT, buf[..at])
    {
      left := left - 1;
      RegisterNext(CRC32_INIT, buf[..], at);
      assert buf[..][..at] == buf[..at] && buf[..][..at + 1] == buf[..at + 1];
      crc := Xor(crc, Word(buf[at]));
      ghost var mixed := crc;
      for i := 0 to 8
        invariant crc == Steps(mixed, i)
      {
        if crc & 1 != 0 {
          OddStep(crc);
          crc := (crc >> 1) ^ CRC32_POLY;
        } else {
          EvenStep(crc);
          crc := crc >> 1;
        }
      }
      at := at + 1;
    }
    r := Complement(crc);
  }

  lemma RegisterStarts(c: bv32)
    ensures Register(c, []) == c
  {
  }

  // ---------------------------------------------------------------- linearity and injectivity

  lemma OddOdd(x: bv32, y: bv32)
    requires x & 1 != 0 && y & 1 != 0
    ensures BitStep(Xor(x, y)) == Xor(BitStep(x), BitStep(y))
  {
  }

  lemma EvenOdd(x: bv32, y: bv32)
    requires x & 1 == 0 && y & 1 != 0
    ensures BitStep(Xor(x, y)) == Xor(BitStep(x), BitStep(y))
  {
  }

  lemma EvenEven(x: bv32, y: bv32)
    requires x & 1 == 0 && y & 1 == 0
    ensures BitStep(Xor(x, y)) == Xor(BitStep(x), BitStep(y))
  {
  }

  lemma XorCommutes(x: bv32, y: bv32)
    ensures Xor(x, y) == Xor(y, x)
  {
  }

  lemma BitStepLinear(x: bv32, y: bv32)
    ensures BitStep(Xor(x, y)) == Xor(BitStep(x), BitStep(y))
  {
    hide BitStep, Xor;
    XorCommutes(x, y);
    XorCommutes(BitStep(x), BitStep(y));
    if x & 1 != 0 {
      if y & 1 != 0 { OddOdd(x, y); } else { EvenOdd(y, x); }
    } else {
      if y & 1 != 0 { EvenOdd(x, y); } else { EvenEven(x, y); }
    }
  }

  lemma {:induction false} StepsLinear(x: bv32, y: bv32, k: nat)
    ensures Steps(Xor(x, y), k) == Xor(Steps(x, k), Steps(y, k))
    decreases k
  {
    hide BitStep, Xor;
    if k > 0 {
      StepsLinear(x, y, k - 1);
      BitStepLinear(Steps(x, k - 1), Steps(y, k - 1));
    }
  }

  function Unstep(c: bv32): bv32 {
    if c & 0x8000_0000 != 0 then ((c ^ CRC32_POLY) << 1) | 1 else c << 1
  }

  lemma UnstepOdd(c: bv32)
    requires c & 1 != 0
    ensures Unstep(BitStep(c)) == c
  {
    OddBits(c);
  }

  lemma OddBits(c: bv32)
    requires c & 1 != 0
    ensures ((c >> 1) ^ CRC32_POLY) & 0x8000_0000 != 0
    ensures ((((c >> 1) ^ CRC32_POLY) ^ CRC32_POLY) << 1) | 1 == c
  {
  }

  lemma UnstepEven(c: bv32)
    requires c & 1 == 0
    ensures Unstep(BitStep(c)) == c
  {
    EvenBits(c);
  }

  lemma EvenBits(c: bv32)
    requires c & 1 == 0
    ensures (c >> 1) & 0x8000_0000 == 0 && (c >> 1) << 1 == c
  {
  }

  lemma UnstepUndoes(c: bv32)
    ensures Unstep(BitStep(c)) == c
  {
    hide Unstep, BitStep;
    if c & 1 != 0 { UnstepOdd(c); } else { UnstepEven(c); }
  }

  lemma {:induction false} StepsInjective(x: bv32, y: bv32, k: nat)
    requires Steps(x, k) == Steps(y, k)
    ensures x == y
    decreases k
  {
    hide BitStep, Unstep;
    if k > 0 {
      UnstepUndoes(Steps(x, k - 1));
      UnstepUndoes(Steps(y, k - 1));
      StepsInjective(x, y, k - 1);
    }
  }

  lemma XorCancels(x: bv32, y: bv32, z: bv32)
    requires Xor(x, z) == Xor(y, z)
    ensures x == y
  {
    assert x == (x ^ z) ^ z && y == (y ^ z) ^ z;
  }

  lemma {:induction false} RegisterInjective(c: bv32, d: bv32, m: seq<byte>)
    requires Register(c, m) == Register(d, m)
    ensures c == d
  {
    hide Steps, Xor, Word;
    if m != [] {
      var n := |m| - 1;
      var u, v, w := Register(c, m[..n]), Register(d, m[..n]), Word(m[n]);
      StepsInjective(Xor(u, w), Xor(v, w), 8);
      XorCancels(u, v, w);
      RegisterInjective(c, d, m[..n]);
    }
  }

  lemma {:induction false} RegisterCompose(c: bv32, a: seq<byte>, b: seq<byte>)
    ensures Register(c, a + b) == Register(Register(c, a), b)
  {
    hide ByteStep;
    if b == [] {
      assert a + b == a;
    } else {
      var front := b[..|b| - 1];
      RegisterCompose(c, a, front);
      assert (a + b)[..|a + b| - 1] == a + front;
    }
  }

  // ---------------------------------------------------------------- four bytes at a time

  function Rest(w: bv32): bv32 { w >> 8 }

  function LowByte(w: bv32): byte { (w & 0xFF) as byte }

  predicate Even(v: bv32) { v & 1 == 0 }

  function Half(v: bv32): bv32 { v >> 1 }

  function Shifted(y: bv32, k: nat): bv32 {
    if k == 0 then y else Half(Shifted(y, k - 1))
  }

  lemma PlainStep(v: bv32)
    ensures Even(v) ==> BitStep(v) == Half(v)
  {
  }

  /** While the low bit stays clear the steps only shift. */
  lemma {:induction false} PlainSteps(y: bv32, k: nat)
    requires forall j: nat | j < k :: Even(Shifted(y, j))
    ensures Steps(y, k) == Shifted(y, k)
    decreases k
  {
    hide BitStep, Even, Half;
    if k > 0 {
      PlainSteps(y, k - 1);
      PlainStep(Shifted(y, k - 1));
    }
  }

  function HighPart(w: bv32): bv32 { w & 0xFFFF_FF00 }

  lemma EightHalves(w: bv32)
    ensures Half(Half(Half(Half(Half(Half(Half(Half(HighPart(w))))))))) == Rest(w)
  {
  }

  lemma ShiftedEight(w: bv32)
    ensures Shifted(HighPart(w), 8) == Rest(w)
  {
    hide Half, HighPart, Rest;
    var y := HighPart(w);
    EightHalves(w);
    assert Shifted(y, 1) == Half(Shifted(y, 0));
    assert Shifted(y, 2) == Half(Shifted(y, 1));
    assert Shifted(y, 4) == Half(Half(Shifted(y, 2)));
    assert Shifted(y, 6) == Half(Half(Shifted(y, 4)));
    assert Shifted(y, 8) == Half(Half(Shifted(y, 6)));
  }

  lemma NotYetOdd(w: bv32, j: nat)
    requires j < 8
    ensures Even(Shifted(HighPart(w), j))
  {
    NoLowBits(w);
    hide HighPart, Shifted, Even;
    if j < 4 {
      if j < 2 { assert j == 0 || j == 1; } else { assert j == 2 || j == 3; }
    } else {
      if j < 6 { assert j == 4 || j == 5; } else { assert j == 6 || j == 7; }
    }
  }

  lemma HighPartShifts(w: bv32)
    ensures Steps(HighPart(w), 8) == Rest(w)
  {
    hide HighPart, Rest, Shifted, Even, Steps;
    var y := HighPart(w);
    ShiftedEight(w);
    forall j: nat | j < 8 ensures Even(Shifted(y, j)) {
      NotYetOdd(w, j);
    }
    PlainSteps(y, 8);
  }

  lemma NoLowBits(w: bv32)
    ensures var y := HighPart(w);
      && Even(Shifted(y, 0)) && Even(Shifted(y, 1)) && Even(Shifted(y, 2)) && Even(Shifted(y, 3))
      && Even(Shifted(y, 4)) && Even(Shifted(y, 5)) && Even(Shifted(y, 6)) && Even(Shifted(y, 7))
  {
  }

  lemma MaskedParts(w: bv32)
    ensures (w & 0xFF) ^ (w & 0xFFFF_FF00) == w
  {
  }

  lemma LowByteMasked(w: bv32)
    ensures Word(LowByte(w)) == w & 0xFF
  {
  }

  lemma XorAssociates(x: bv32, y: bv32, z: bv32)
    ensures Xor(Xor(x, y), z) == Xor(x, Xor(y, z))
  {
  }

  lemma SplitWord(r: bv32, w: bv32)
    ensures Xor(r, w) == Xor(Xor(r, Word(LowByte(w))), HighPart(w))
  {
    hide Word, LowByte;
    MaskedParts(w);
    LowByteMasked(w);
    XorAssociates(r, Word(LowByte(w)), HighPart(w));
  }

  /** The low byte of a word is fed exactly as a byte would be; the rest moves down behind it. */
  lemma LowByteThenRest(r: bv32, w: bv32)
    ensures Steps(Xor(r, w), 8) == Xor(ByteStep(r, LowByte(w)), Rest(w))
  {
    SplitWord(r, w);
    HighPartShifts(w);
    hide Xor, HighPart, Rest, Word, LowByte, Steps;
    StepsLinear(Xor(r, Word(LowByte(w))), HighPart(w), 8);
  }

  /** One entry of the table in section 8 of RFC 1952. */
  function TableEntry(n: byte): bv32 {
    Steps(Word(n), 8)
  }

  /** The update loop of section 8 of RFC 1952: one table lookup per byte. */
  function TableRegister(c: bv32, m: seq<byte>): bv32
    decreases |m|
  {
    if m == [] then c
    else TableRegister(Xor(TableEntry(LowByte(Xor(c, Word(m[0])))), Rest(c)), m[1..])
  }

  lemma XorZero(x: bv32)
    ensures Xor(0, x) == x
  {
  }

  lemma RestIgnoresByte(c: bv32, b: byte)
    ensures Rest(Xor(c, Word(b))) == Rest(c)
  {
  }

  lemma TableStep(c: bv32, b: byte)
    ensures ByteStep(c, b) == Xor(TableEntry(LowByte(Xor(c, Word(b)))), Rest(c))
  {
    hide Xor, Rest, Word, LowByte, Steps;
    var w := Xor(c, Word(b));
    LowByteThenRest(0, w);
    XorZero(w);
    XorZero(Word(LowByte(w)));
    RestIgnoresByte(c, b);
  }

  /** The bitwise loop computes the checksum of RFC 1952. */
  lemma {:induction false} TableDriven(c: bv32, m: seq<byte>)
    ensures Register(c, m) == TableRegister(c, m)
    decreases |m|
  {
    hide Xor, Rest, Word, LowByte, Steps, ByteStep, TableEntry;
    if m != [] {
      var head := m[..1];
      assert head[..0] == [] && m == head + m[1..];
      assert Register(c, head) == ByteStep(Register(c, []), m[0]);
      RegisterCompose(c, head, m[1..]);
      TableStep(c, m[0]);
      TableDriven(ByteStep(c, m[0]), m[1..]);
    }
  }

  /** The bytes of a word, low byte first. */
  function Bytes(w: bv32): seq<byte> {
    [LowByte(w), LowByte(Rest(w)), LowByte(Rest(Rest(w))), LowByte(Rest(Rest(Rest(w))))]
  }

  lemma {:induction false} StepsAdd(x: bv32, j: nat, k: nat)
    ensures Steps(x, j + k) == Steps(Steps(x, j), k)
    decreases k
  {
    hide BitStep;
    if k > 0 { StepsAdd(x, j, k - 1); }
  }

  lemma RegisterOfFour(r: bv32, a: byte, b: byte, c: byte, d: byte)
    ensures Register(r, [a, b, c, d]) == ByteStep(ByteStep(ByteStep(ByteStep(r, a), b), c), d)
  {
    hide ByteStep;
    assert [a, b, c, d][..3] == [a, b, c] && [a, b, c][..2] == [a, b] && [a, b][..1] == [a] && [a][..0] == [];
    assert Register(r, [a]) == ByteStep(r, a);
    assert Register(r, [a, b]) == ByteStep(Register(r, [a]), b);
    assert Register(r, [a, b, c]) == ByteStep(Register(r, [a, b]), c);
  }

  lemma WordEmpties(x: bv32, w: bv32)
    ensures Xor(x, Rest(Rest(Rest(Rest(w))))) == x
  {
  }

  /** Feeding the four bytes of a word is adding the word to the register and shifting it through. */
  lemma FourBytes(r: bv32, w: bv32)
    ensures Register(r, Bytes(w)) == Steps(Xor(r, w), 32)
  {
    hide Steps, Xor, Rest, LowByte, ByteStep;
    var w1, w2, w3 := Rest(w), Rest(Rest(w)), Rest(Rest(Rest(w)));
    var r1 := ByteStep(r, LowByte(w));
    var r2 := ByteStep(r1, LowByte(w1));
    var r3 := ByteStep(r2, LowByte(w2));
    RegisterOfFour(r, LowByte(w), LowByte(w1), LowByte(w2), LowByte(w3));
    LowByteThenRest(r, w);
    LowByteThenRest(r1, w1);
    LowByteThenRest(r2, w2);
    LowByteThenRest(r3, w3);
    WordEmpties(ByteStep(r3, LowByte(w3)), w);
    StepsAdd(Xor(r, w), 8, 24);
    StepsAdd(Xor(r1, w1), 8, 16);
    StepsAdd(Xor(r2, w2), 8, 8);
  }

  // ---------------------------------------------------------------- residue and bursts

  lemma OnesShifted()
    ensures Complement(Steps(CRC32_INIT, 32)) == CRC32_RESIDUE
  {
    assert Steps(CRC32_INIT, 4) == 0xB242_0DE3 && Steps(0xB242_0DE3, 4) == 0x2DFD_1072;
    assert Steps(0x2DFD_1072, 4) == 0x39B1_F1CF && Steps(0x39B1_F1CF, 4) == 0xBE26_ED00;
    assert Steps(0xBE26_ED00, 4) == 0x0BE2_6ED0 && Steps(0x0BE2_6ED0, 4) == 0x00BE_26ED;
    assert Steps(0x00BE_26ED, 4) == 0x86D8_30BA && Steps(0x86D8_30BA, 4) == 0xDEBB_20E3;
    hide Steps;
    StepsAdd(CRC32_INIT, 4, 28);
    StepsAdd(0xB242_0DE3, 4, 24);
    StepsAdd(0x2DFD_1072, 4, 20);
    StepsAdd(0x39B1_F1CF, 4, 16);
    StepsAdd(0xBE26_ED00, 4, 12);
    StepsAdd(0x0BE2_6ED0, 4, 8);
    StepsAdd(0x00BE_26ED, 4, 4);
  }

  lemma XorWithComplement(c: bv32)
    ensures Xor(c, Complement(c)) == CRC32_INIT
  {
  }

  /** Any message followed by its own CRC, low byte first, has the same CRC. */
  lemma Residue(m: seq<byte>)
    ensures Crc(m + Bytes(Crc(m))) == CRC32_RESIDUE
  {
    hide Register, Bytes, Complement, Xor, Steps;
    var c := Register(CRC32_INIT, m);
    RegisterCompose(CRC32_INIT, m, Bytes(Crc(m)));
    FourBytes(c, Crc(m));
    XorWithComplement(c);
    OnesShifted();
  }

  function WordOf(a: byte, b: byte, c: byte, d: byte): bv32 {
    (a as bv32) | ((b as bv32) << 8) | ((c as bv32) << 16) | ((d as bv32) << 24)
  }

  lemma BytesOfWord(a: byte, b: byte, c: byte, d: byte)
    ensures Bytes(WordOf(a, b, c, d)) == [a, b, c, d]
  {
    var w := WordOf(a, b, c, d);
    assert LowByte(w) == a && LowByte(Rest(w)) == b;
    assert LowByte(Rest(Rest(w))) == c && LowByte(Rest(Rest(Rest(w)))) == d;
    hide LowByte, Rest, WordOf;
  }

  lemma FourBytesSeen(r: bv32, u: seq<byte>, v: seq<byte>)
    requires |u| == |v| == 4 && Register(r, u) == Register(r, v)
    ensures u == v
  {
    hide Register, Bytes, Xor, Steps, WordOf;
    var x, y := WordOf(u[0], u[1], u[2], u[3]), WordOf(v[0], v[1], v[2], v[3]);
    BytesOfWord(u[0], u[1], u[2], u[3]);
    BytesOfWord(v[0], v[1], v[2], v[3]);
    assert u == [u[0], u[1], u[2], u[3]] && v == [v[0], v[1], v[2], v[3]];
    FourBytes(r, x);
    FourBytes(r, y);
    StepsInjective(Xor(r, x), Xor(r, y), 32);
    XorCommutes(r, x);
    XorCommutes(r, y);
    XorCancels(x, y, r);
  }

  function Padding(n: nat): (z: seq<byte>)
    ensures |z| == n
  {
    seq(n, _ => 0)
  }

  /** From the same register, two texts of at most four bytes lead to the same register only when equal. */
  lemma ShortTextSeen(r: bv32, u: seq<byte>, v: seq<byte>)
    requires |u| == |v| <= 4 && Register(r, u) == Register(r, v)
    ensures u == v
  {
    hide Register;
    var p := Padding(4 - |u|);
    RegisterCompose(r, u, p);
    RegisterCompose(r, v, p);
    FourBytesSeen(r, u + p, v + p);
    assert u == (u + p)[..|u|] && v == (v + p)[..|u|];
  }

  /** Messages of equal length that differ only within four consecutive bytes have different CRCs. */
  lemma BurstChangesCrc(a: seq<byte>, u: seq<byte>, v: seq<byte>, z: seq<byte>)
    requires |u| == |v| <= 4 && u != v
    ensures Crc(a + u + z) != Crc(a + v + z)
  {
    hide Register, Complement;
    var r := Register(CRC32_INIT, a);
    RegisterCompose(CRC32_INIT, a + u, z);
    RegisterCompose(CRC32_INIT, a + v, z);
    RegisterCompose(CRC32_INIT, a, u);
    RegisterCompose(CRC32_INIT, a, v);
    ComplementInjective(Register(CRC32_INIT, a + u + z), Register(CRC32_INIT, a + v + z));
    if Crc(a + u + z) == Crc(a + v + z) {
      RegisterInjective(Register(r, u), Register(r, v), z);
      ShortTextSeen(r, u, v);
    }
  }

  lemma ComplementInjective(x: bv32, y: bv32)
    ensures Complement(x) == Complement(y) ==> x == y
  {
    assert !(!x) == x && !(!y) == y;
  }

  // ---------------------------------------------------------------- a known answer

  lemma ByteInHalves(c: bv32, b: byte, v: bv32, mid: bv32, next: bv32)
    requires Xor(c, Word(b)) == v && Steps(v, 4) == mid && Steps(mid, 4) == next
    ensures ByteStep(c, b) == next
  {
    hide Steps, Xor, Word;
    StepsAdd(v, 4, 4);
  }

  lemma CheckDigits1()
    ensures ByteStep(0xFFFFFFFF, 0x31) == 0x7C231048
    ensures ByteStep(0x7C231048, 0x32) == 0xB0ACBB32
    ensures ByteStep(0xB0ACBB32, 0x33) == 0x77B79C2D
  {
    ByteInHalves(0xFFFFFFFF, 0x31, 0xFFFFFFCE, 0xAFF51D84, 0x7C231048);
    ByteInHalves(0x7C231048, 0x32, 0x7C23107A, 0xD11492EF, 0xB0ACBB32);
    ByteInHalves(0xB0ACBB32, 0x33, 0xB0ACBB01, 0x16BDDBD4, 0x77B79C2D);
  }

  lemma CheckDigits2()
    ensures ByteStep(0x77B79C2D, 0x34) == 0x641C1F5C
    ensures ByteStep(0x641C1F5C, 0x35) == 0x340AC5E3
    ensures ByteStep(0x340AC5E3, 0x36) == 0xF68D2C9E
  {
    ByteInHalves(0x77B79C2D, 0x34, 0x77B79C19, 0xF774EA85, 0x641C1F5C);
    ByteInHalves(0x641C1F5C, 0x35, 0x641C1F69, 0xF64E52B2, 0x340AC5E3);
    ByteInHalves(0x340AC5E3, 0x36, 0x340AC5D5, 0x682BFDA9, 0xF68D2C9E);
  }

  lemma CheckDigits3()
    ensures ByteStep(0xF68D2C9E, 0x37) == 0xAFFC9660
    ensures ByteStep(0xAFFC9660, 0x38) == 0x651F2550
    ensures ByteStep(0x651F2550, 0x39) == 0x340BC6D9
  {
    ByteInHalves(0xF68D2C9E, 0x37, 0xF68D2CA9, 0xFF67418E, 0xAFFC9660);
    ByteInHalves(0xAFFC9660, 0x38, 0xAFFC9658, 0xE7474A45, 0x651F2550);
    ByteInHalves(0x651F2550, 0x39, 0x651F2569, 0xF65E6112, 0x340BC6D9);
  }

  /** The check value of CRC-32: the CRC of the nine digits "123456789". */
  lemma CheckValue()
    ensures Crc([0x31, 0x32, 0x33, 0x34, 0x35, 0x36, 0x37, 0x38, 0x39]) == 0xCBF4_3926
  {
    hide ByteStep, Register;
    CheckDigits1();
    CheckDigits2();
    CheckDigits3();
    RegisterStarts(CRC32_INIT);
    var digits: seq<byte> := [0x31, 0x32, 0x33, 0x34, 0x35, 0x36, 0x37, 0x38, 0x39];
    assert digits[..0] == [] && digits[..9] == digits;
    RegisterNext(CRC32_INIT, digits, 0);
    RegisterNext(CRC32_INIT, digits, 1);
    RegisterNext(CRC32_INIT, digits, 2);
    RegisterNext(CRC32_INIT, digits, 3);
    RegisterNext(CRC32_INIT, digits, 4);
    RegisterNext(CRC32_INIT, digits, 5);
    RegisterNext(CRC32_INIT, digits, 6);
    RegisterNext(CRC32_INIT, digits, 7);
    RegisterNext(CRC32_INIT, digits, 8);
    assert Complement(0x340B_C6D9) == 0xCBF4_3926;
  }
}
