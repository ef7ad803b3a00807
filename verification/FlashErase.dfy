/** Erasing a region of the NOR flash: whole blocks where they fit, sectors elsewhere. */
module FlashErase {
  import opened Arithmetic

  /** Words, sizes and flash offsets are unsigned 32-bit. */
  const WORD: nat := 0x1_0000_0000

  const ERR: int := -1

  /** One command to the boot ROM. */
  datatype Erase = Erase(offset: nat, unit: nat)

  // ---------------------------------------------------------------- rounding with a mask

  /** Bitwise and. */
  function And(x: nat, y: nat): nat {
    if x == 0 || y == 0 then 0 else (x % 2) * (y % 2) + 2 * And(x / 2, y / 2)
  }

  function Pow2(k: nat): (p: nat)
    ensures p > 0
  {
    if k == 0 then 1 else 2 * Pow2(k - 1)
  }

  function AlignedSize(size: nat, sector: nat): nat
    requires 0 < sector <= WORD
  {
    And((size + sector - 1) % WORD, WORD - 1 - (sector - 1))
  }

  lemma {:induction false} Pow2Monotone(j: nat, k: nat)
    requires j <= k
    ensures Pow2(j) <= Pow2(k)
    decreases k
  {
    if j < k { Pow2Monotone(j, k - 1); }
  }

  lemma HalvedRemainder(x: nat, p: nat)
    requires p > 0
    ensures x % (2 * p) == x % 2 + 2 * ((x / 2) % p)
  {
    var q, r := (x / 2) / p, (x / 2) % p;
    assert x == 2 * (q * p + r) + x % 2;
    assert x == q * (2 * p) + (2 * r + x % 2) by { assert q * (2 * p) == 2 * (q * p); }
    RemainderIs(x, 2 * p, q, 2 * r + x % 2);
  }

  lemma AndOdd(x: nat, y: nat)
    ensures And(x, 2 * y + 1) == x % 2 + 2 * And(x / 2, y)
  {
    assert (2 * y + 1) % 2 == 1 && (2 * y + 1) / 2 == y;
  }

  lemma AndEven(x: nat, y: nat)
    ensures And(x, 2 * y) == 2 * And(x / 2, y)
  {
    assert (2 * y) % 2 == 0 && (2 * y) / 2 == y;
  }

  lemma MaskStep(x: nat, p: nat, q: nat)
    requires 0 < q <= p && And(x / 2, p - q) == x / 2 - (x / 2) % q
    ensures And(x, 2 * p - 2 * q) == x - x % (2 * q)
  {
    hide And;
    AndEven(x, p - q);
    HalvedRemainder(x, q);
  }

  lemma OnesStep(x: nat, p: nat)
    requires p > 0 && And(x / 2, p - 1) == x / 2
    ensures And(x, 2 * p - 1) == x
  {
    hide And;
    AndOdd(x, p - 1);
  }

  lemma {:induction false} OnesKeepAll(x: nat, w: nat)
    requires x < Pow2(w)
    ensures And(x, Pow2(w) - 1) == x
    decreases w
  {
    if w > 0 {
      OnesKeepAll(x / 2, w - 1);
      OnesStep(x, Pow2(w - 1));
    }
  }

  /** A mask of ones above bit k clears the low k bits. */
  lemma {:induction false} MaskClearsLowBits(x: nat, w: nat, k: nat)
    requires x < Pow2(w) && k <= w
    ensures Pow2(k) <= Pow2(w)
    ensures And(x, Pow2(w) - Pow2(k)) == x - x % Pow2(k)
    decreases k
  {
    hide And;
    Pow2Monotone(k, w);
    if k == 0 {
      OnesKeepAll(x, w);
    } else {
      MaskClearsLowBits(x / 2, w - 1, k - 1);
      MaskStep(x, Pow2(w - 1), Pow2(k - 1));
    }
  }

  lemma WordIsPow2()
    ensures Pow2(32) == WORD
  {
    assert Pow2(8) == 0x100 && Pow2(16) == 0x1_0000 && Pow2(24) == 0x100_0000;
  }

  ghost predicate IsRoundUp(r: int, size: nat, sector: nat)
    requires sector > 0
  {
    r % sector == 0 && size <= r < size + sector
  }

  lemma RoundedDown(x: nat, s: nat)
    requires s > 0
    ensures (x - x % s) % s == 0
  {
    RemainderIs(x - x % s, s, x / s, 0);
  }

  lemma RoundedDownSum(size: nat, s: nat, x: int, r: nat)
    requires r < s < WORD && size < WORD && (x - r) % s == 0
    requires x == if size + s <= WORD then size + s - 1 else size + s - 1 - WORD
    ensures IsRoundUp(x - r, size, s) <==> size + s <= WORD
  {
  }

  lemma WrapsOnce(a: nat)
    requires a < 2 * WORD
    ensures a % WORD == if a < WORD then a else a - WORD
  {
  }

  lemma SectorFits(k: nat)
    requires k < 32
    ensures Pow2(k) < WORD
  {
    Pow2Monotone(k, 31);
    WordIsPow2();
  }

  lemma AlignedSizeIs(size: nat, k: nat)
    requires size < WORD && k < 32
    ensures Pow2(k) < WORD
    ensures var x := (size + Pow2(k) - 1) % WORD; AlignedSize(size, Pow2(k)) == x - x % Pow2(k)
  {
    SectorFits(k);
    WordIsPow2();
    hide Pow2, And;
    MaskClearsLowBits((size + Pow2(k) - 1) % WORD, 32, k);
  }

  /** For a power-of-two sector the mask is the true round-up exactly when the addition before it does not wrap. */
  lemma MaskRoundsUp(size: nat, k: nat)
    requires size < WORD && k < 32
    ensures Pow2(k) < WORD
    ensures IsRoundUp(AlignedSize(size, Pow2(k)), size, Pow2(k)) <==> size + Pow2(k) <= WORD
  {
    AlignedSizeIs(size, k);
    hide IsRoundUp, And, Pow2, AlignedSize;
    var s := Pow2(k);
    WrapsOnce(size + s - 1);
    var x := (size + s - 1) % WORD;
    RoundedDown(x, s);
    RoundedDownSum(size, s, x, x % s);
  }

  /** When the addition wraps the rounded size is zero: nothing is erased. */
  lemma WrapLeavesNothing(size: nat, k: nat)
    requires size < WORD && k < 32 && size + Pow2(k) > WORD
    ensures Pow2(k) < WORD && AlignedSize(size, Pow2(k)) == 0
  {
    AlignedSizeIs(size, k);
    hide *;
    WrapsOnce(size + Pow2(k) - 1);
    RemainderIs(size + Pow2(k) - 1 - WORD, Pow2(k), 0, size + Pow2(k) - 1 - WORD);
  }

  lemma WholeSectors(size: nat, k: nat)
    requires size < WORD && k < 32
    ensures Pow2(k) < WORD && AlignedSize(size, Pow2(k)) % Pow2(k) == 0
  {
    AlignedSizeIs(size, k);
    RoundedDown((size + Pow2(k) - 1) % WORD, Pow2(k));
  }

  // ---------------------------------------------------------------- the commands

  /** Offsets are unsigned 32-bit. */
  function Advance(at: nat, unit: nat): (r: nat)
    ensures r < WORD
  {
    (at + unit) % WORD
  }

  lemma AdvanceIs(at: nat, unit: nat)
    requires at + unit < WORD
    ensures Advance(at, unit) == at + unit
  {
  }

  lemma AdvanceToTop(at: nat, unit: nat)
    requires at + unit == WORD
    ensures Advance(at, unit) == 0
  {
  }

  /** What the loop issues for `left` bytes from `offset`. */
  function Plan(offset: nat, left: nat, sector: nat, block: nat): seq<Erase>
    requires Geometry(sector, block) && left % sector == 0
    decreases left
  {
    if left == 0 then []
    else if offset % block == 0 && left >= block then
      MultipleLess(left, block, sector);
      [Erase(offset, block)] + Plan(Advance(offset, block), left - block, sector, block)
    else
      AtLeastOne(left, sector);
      MultipleLess(left, sector, sector);
      [Erase(offset, sector)] + Plan(Advance(offset, sector), left - sector, sector, block)
  }

  /** Blocks are made of whole sectors. */
  ghost predicate Geometry(sector: nat, block: nat) {
    sector > 0 && block > 0 && block % sector == 0
  }

  lemma AtLeastOne(x: int, s: nat)
    requires s > 0 && x > 0 && x % s == 0
    ensures x >= s
  {
  }

  lemma MultipleLess(x: int, y: int, s: nat)
    requires s > 0 && x % s == 0 && y % s == 0
    ensures (x - y) % s == 0 && (x + y) % s == 0
  {
    RemainderIs(x - y, s, x / s - y / s, 0);
    RemainderIs(x + y, s, x / s + y / s, 0);
  }

  /** The commands cover [from, to) without gap or overlap, each at an offset its unit divides, none reaching past
      the 32-bit address range. */
  ghost predicate Tiles(cmds: seq<Erase>, from: nat, to: nat, sector: nat, block: nat)
    requires Geometry(sector, block)
    decreases |cmds|
  {
    if cmds == [] then from == to
    else
      && cmds[0].offset == from
      && (cmds[0].unit == sector || cmds[0].unit == block)
      && from % cmds[0].unit == 0 && from + cmds[0].unit <= WORD
      && Tiles(cmds[1..], from + cmds[0].unit, to, sector, block)
  }

  function Unit(offset: nat, left: nat, sector: nat, block: nat): nat
    requires block > 0
  {
    if offset % block == 0 && left >= block then block else sector
  }

  lemma PlanStep(offset: nat, left: nat, sector: nat, block: nat)
    requires Geometry(sector, block) && left % sector == 0 && left > 0
    ensures var unit := Unit(offset, left, sector, block);
      && 0 < unit <= left && (left - unit) % sector == 0
      && Plan(offset, left, sector, block)
        == [Erase(offset, unit)] + Plan(Advance(offset, unit), left - unit, sector, block)
  {
    AtLeastOne(left, sector);
    MultipleLess(left, Unit(offset, left, sector, block), sector);
    hide Advance;
  }

  lemma PlanEnds(at: nat, sector: nat, block: nat)
    requires Geometry(sector, block)
    ensures Plan(at, 0, sector, block) == []
  {
  }

  lemma TilesStep(c: Erase, rest: seq<Erase>, from: nat, to: nat, sector: nat, block: nat)
    requires Geometry(sector, block)
    ensures Tiles([c] + rest, from, to, sector, block)
      <==> && c.offset == from && (c.unit == sector || c.unit == block) && from % c.unit == 0
           && from + c.unit <= WORD && Tiles(rest, from + c.unit, to, sector, block)
  {
    assert ([c] + rest)[1..] == rest;
  }

  /** From a sector-aligned offset the plan covers its region exactly when that lies in the address range. */
  lemma {:induction false} PlanTiles(offset: nat, left: nat, sector: nat, block: nat)
    requires Geometry(sector, block) && left % sector == 0 && offset % sector == 0 && offset < WORD
    ensures Tiles(Plan(offset, left, sector, block), offset, offset + left, sector, block) <==> offset + left <= WORD
    decreases left
  {
    hide Plan, Tiles, Advance;
    PlanEnds(offset, sector, block);
    NothingTiles(offset, sector, block);
    if left > 0 {
      var unit := Unit(offset, left, sector, block);
      PlanStep(offset, left, sector, block);
      var rest := Plan(Advance(offset, unit), left - unit, sector, block);
      TilesStep(Erase(offset, unit), rest, offset, offset + left, sector, block);
      var next := offset + unit;
      if next < WORD {
        AdvanceIs(offset, unit);
        MultipleLess(offset, unit, sector);
        PlanTiles(next, left - unit, sector, block);
      } else if next == WORD {
        AdvanceToTop(offset, unit);
        if left == unit {
          PlanEnds(0, sector, block);
          NothingTiles(next, sector, block);
        } else {
          PlanStep(0, left - unit, sector, block);
          var u := Unit(0, left - unit, sector, block);
          TilesStep(Erase(0, u), Plan(Advance(0, u), left - unit - u, sector, block), next, offset + left, sector, block);
        }
      }
    }
  }

  lemma NothingTiles(from: nat, sector: nat, block: nat)
    requires Geometry(sector, block)
    ensures Tiles([], from, from, sector, block)
  {
  }

  lemma {:induction false} TilesGoForward(cmds: seq<Erase>, from: nat, to: nat, sector: nat, block: nat)
    requires Geometry(sector, block) && Tiles(cmds, from, to, sector, block)
    ensures from <= to && (cmds != [] ==> to <= WORD)
    decreases |cmds|
  {
    if cmds != [] {
      TilesGoForward(cmds[1..], from + cmds[0].unit, to, sector, block);
    }
  }

  ghost predicate Covers(c: Erase, b: nat) {
    c.offset <= b < c.offset + c.unit
  }

  /** A tiling erases every byte of its region, once, and no other byte. */
  lemma {:induction false} EveryByteOnce(cmds: seq<Erase>, from: nat, to: nat, sector: nat, block: nat, b: nat)
    requires Geometry(sector, block) && Tiles(cmds, from, to, sector, block)
    ensures from <= b < to <==> exists i :: 0 <= i < |cmds| && Covers(cmds[i], b)
    ensures forall i, j :: 0 <= i < j < |cmds| ==> !(Covers(cmds[i], b) && Covers(cmds[j], b))
    decreases |cmds|
  {
    if cmds != [] {
      var next := from + cmds[0].unit;
      EveryByteOnce(cmds[1..], next, to, sector, block, b);
      TilesGoForward(cmds[1..], next, to, sector, block);
      assert forall i :: 0 < i < |cmds| ==> cmds[i] == cmds[1..][i - 1];
      assert forall i :: 0 <= i < |cmds[1..]| ==> cmds[i + 1] == cmds[1..][i];
      if from <= b < next { assert Covers(cmds[0], b); }
    }
  }

  lemma NotAlignedInside(a: int, e: int, block: nat)
    requires block > 0 && e % block == 0 && e - block < a < e
    ensures a % block != 0
  {
    RemainderIs(a, block, e / block - 1, a - e + block);
  }

  /** Between two block boundaries only sectors fit, so a tiling that enters a block must walk through it. */
  lemma {:induction false} ThroughBlock(cmds: seq<Erase>, a: nat, e: nat, to: nat, sector: nat, block: nat)
      returns (rest: seq<Erase>)
    requires Geometry(sector, block) && Tiles(cmds, a, to, sector, block)
    requires e % block == 0 && e - block < a <= e <= to && a % sector == 0 && e % sector == 0
    ensures Tiles(rest, e, to, sector, block) && |rest| <= |cmds|
    decreases |cmds|
  {
    if a == e {
      rest := cmds;
    } else {
      NotAlignedInside(a, e, block);
      MultipleLess(e, a, sector);
      AtLeastOne(e - a, sector);
      MultipleLess(a, sector, sector);
      rest := ThroughBlock(cmds[1..], a + sector, e, to, sector, block);
    }
  }

  lemma UnitAligned(offset: nat, left: nat, sector: nat, block: nat)
    requires Geometry(sector, block) && offset % sector == 0
    ensures block > 0 && (offset + Unit(offset, left, sector, block)) % sector == 0
  {
    if offset % block == 0 && left >= block {
      MultipleLess(offset, block, sector);
    } else {
      RemainderIs(sector, sector, 1, 0);
      MultipleLess(offset, sector, sector);
    }
  }

  /** What any tiling spends on the stretch of the plan's first command is at least one command. */
  lemma OneCommandAtLeast(offset: nat, left: nat, sector: nat, block: nat, cmds: seq<Erase>) returns (rest: seq<Erase>)
    requires Geometry(sector, block) && left % sector == 0 && offset % sector == 0 && left > 0
    requires Tiles(cmds, offset, offset + left, sector, block)
    ensures Tiles(rest, offset + Unit(offset, left, sector, block), offset + left, sector, block) && |rest| < |cmds|
  {
    assert cmds != [];
    var c, unit := cmds[0], Unit(offset, left, sector, block);
    rest := cmds[1..];
    assert Tiles(rest, offset + c.unit, offset + left, sector, block) && offset % c.unit == 0;
    hide Tiles;
    TilesGoForward(rest, offset + c.unit, offset + left, sector, block);
    if unit == block && c.unit != block {
      AtLeastOne(block, sector);
      MultipleLess(offset, sector, sector);
      MultipleLess(offset, block, sector);
      MultipleLess(offset, block, block);
      rest := ThroughBlock(rest, offset + sector, offset + block, offset + left, sector, block);
    }
  }

  /** No tiling of the region by aligned blocks and sectors takes fewer commands. */
  lemma {:induction false} PlanIsShortest(offset: nat, left: nat, sector: nat, block: nat, cmds: seq<Erase>)
    requires Geometry(sector, block) && sector > 0 && block > 0 && left % sector == 0 && offset % sector == 0
    requires Tiles(cmds, offset, offset + left, sector, block)
    ensures |Plan(offset, left, sector, block)| <= |cmds|
    decreases left
  {
    if left == 0 {
      PlanEnds(offset, sector, block);
    } else {
      hide Plan, Tiles, Advance, Unit, Geometry;
      var unit := Unit(offset, left, sector, block);
      PlanStep(offset, left, sector, block);
      UnitAligned(offset, left, sector, block);
      var rest := OneCommandAtLeast(offset, left, sector, block, cmds);
      PlanIsShortest(offset + unit, left - unit, sector, block, rest);
      TilesGoForward(cmds, offset, offset + left, sector, block);
      if left == unit {
        PlanEnds(Advance(offset, unit), sector, block);
      } else {
        AdvanceIs(offset, unit);
      }
    }
  }

  /** The commands cover the computed size exactly when it lies in the address range, that size is the rounded-up
      one exactly when the addition does not wrap, and no other choice of blocks and sectors covers the same region
      in fewer commands. */
  lemma PlanCoversRegion(offset: nat, size: nat, k: nat, block: nat)
    requires size < WORD && k < 32 && Geometry(Pow2(k), block) && offset % Pow2(k) == 0 && offset < WORD
    ensures Pow2(k) < WORD && AlignedSize(size, Pow2(k)) % Pow2(k) == 0
    ensures var sector, span := Pow2(k), AlignedSize(size, Pow2(k));
      && (Tiles(Plan(offset, span, sector, block), offset, offset + span, sector, block) <==> offset + span <= WORD)
      && (IsRoundUp(span, size, sector) <==> size + sector <= WORD)
      && forall cmds | Tiles(cmds, offset, offset + span, sector, block) ::
          |Plan(offset, span, sector, block)| <= |cmds|
  {
    MaskRoundsUp(size, k);
    WholeSectors(size, k);
    hide *;
    var sector, span := Pow2(k), AlignedSize(size, Pow2(k));
    PlanTiles(offset, span, sector, block);
    forall cmds | Tiles(cmds, offset, offset + span, sector, block)
      ensures |Plan(offset, span, sector, block)| <= |cmds|
    {
      PlanIsShortest(offset, span, sector, block, cmds);
    }
  }

  // ---------------------------------------------------------------- when the size is not whole sectors

  /** What the loop's counter holds after n turns in which the ROM succeeds: unsigned subtraction wraps. */
  function Counter(offset: nat, left: nat, sector: nat, block: nat, n: nat): nat
    requires block > 0
    decreases n
  {
    if n == 0 then left
    else
      var unit := Unit(offset, left, sector, block);
      Counter(Advance(offset, unit), (left - unit) % WORD, sector, block, n - 1)
  }

  lemma WordLess(left: int, sector: nat)
    requires sector > 0 && WORD % sector == 0
    ensures (left % WORD) % sector == left % sector
  {
    var q, r := left / WORD, left % WORD;
    var m, p := WORD / sector, r / sector;
    assert WORD == m * sector;
    assert q * (m * sector) == (q * m) * sector;
    assert left == (q * m + p) * sector + r % sector;
    RemainderIs(left, sector, q * m + p, r % sector);
  }

  lemma SameAfterUnit(left: int, unit: int, sector: nat)
    requires sector > 0 && unit % sector == 0
    ensures (left - unit) % sector == left % sector
  {
    var q, p := left / sector, unit / sector;
    assert unit == p * sector;
    assert left - unit == (q - p) * sector + left % sector;
    RemainderIs(left - unit, sector, q - p, left % sector);
  }

  /** A counter that is not whole sectors never comes out at zero, however long the loop goes on. */
  lemma {:induction false} NeverComesOut(offset: nat, left: nat, sector: nat, block: nat, n: nat)
    requires Geometry(sector, block) && WORD % sector == 0 && left % sector != 0
    ensures Counter(offset, left, sector, block, n) % sector != 0 && Counter(offset, left, sector, block, n) > 0
    decreases n
  {
    if n > 0 {
      var unit := Unit(offset, left, sector, block);
      UnitIsWhole(offset, left, sector, block);
      SameAfterUnit(left, unit, sector);
      WordLess(left - unit, sector);
      hide Unit, Advance;
      NeverComesOut(Advance(offset, unit), (left - unit) % WORD, sector, block, n - 1);
    }
  }

  lemma UnitIsWhole(offset: nat, left: nat, sector: nat, block: nat)
    requires Geometry(sector, block)
    ensures block > 0 && Unit(offset, left, sector, block) % sector == 0
  {
    RemainderIs(sector, sector, 1, 0);
  }

  // ---------------------------------------------------------------- the loop

  function Int32(n: nat): int
    requires n < WORD
  {
    if n < 0x8000_0000 then n else n - WORD
  }

  lemma HalfWordAtMost(k: nat)
    requires k < 32
    ensures 2 * Pow2(k) <= WORD
  {
    Pow2Monotone(k, 31);
    WordIsPow2();
  }

  /** A wrapped round-up leaves nothing to erase, and the size handed back, being that large, reads as an error. */
  lemma WrapReadsAsError(offset: nat, size: nat, k: nat, sector: nat, block: nat)
    requires size < WORD && k < 32 && Geometry(sector, block) && size + Pow2(k) > WORD
    ensures Pow2(k) < WORD && AlignedSize(size, Pow2(k)) == 0 && 0 % sector == 0
    ensures Plan(offset, 0, sector, block) == [] && Int32(size) < 0
  {
    HalfWordAtMost(k);
    hide AlignedSize, Plan, Pow2;
    WrapLeavesNothing(size, k);
    PlanEnds(offset, sector, block);
  }

  /** One such size, for 4096-byte sectors. */
  lemma WrapExample()
    ensures Pow2(12) == 4096 && 0xFFFF_F001 + Pow2(12) > WORD
    ensures AlignedSize(0xFFFF_F001, Pow2(12)) == 0 && Int32(0xFFFF_F001) == -4095
  {
    assert Pow2(6) == 64;
    WrapLeavesNothing(0xFFFF_F001, 12);
  }

  ghost predicate AllDone(cmds: seq<Erase>, rom: Erase -> bool) {
    forall i :: 0 <= i < |cmds| ==> rom(cmds[i])
  }

  /** The commands up to and including the first one the ROM fails. */
  ghost predicate StopsAtFailure(issued: seq<Erase>, plan: seq<Erase>, rom: Erase -> bool) {
    && 0 < |issued| <= |plan| && issued == plan[..|issued|]
    && !rom(issued[|issued| - 1]) && AllDone(issued[..|issued| - 1], rom)
  }

  lemma FailureFound(before: seq<Erase>, c: Erase, rest: seq<Erase>, plan: seq<Erase>, rom: Erase -> bool)
    requires plan == before + [c] + rest && AllDone(before, rom) && !rom(c)
    ensures StopsAtFailure(before + [c], plan, rom) && !AllDone(plan, rom)
  {
    var issued := before + [c];
    assert issued[..|issued| - 1] == before;
    assert plan[|before|] == c;
  }

  lemma OneMoreDone(issued: seq<Erase>, c: Erase, rom: Erase -> bool)
    requires AllDone(issued, rom) && rom(c)
    ensures AllDone(issued + [c], rom)
  {
  }

  lemma NothingIssued(rom: Erase -> bool)
    ensures AllDone([], rom)
  {
  }

  /** The erase routine. `unit` is the device's block size, which rounds the size up; initialization sets it to the
      sector size. `rom` says whether the boot ROM carries out a command; the first one it fails ends the loop. The
      rounded size has to be whole sectors, without which the loop need not end (`NeverComesOut`). */
  method EraseRegion(offset: nat, size: nat, unit: nat, sector: nat, block: nat, rom: Erase -> bool, ghost k: nat)
      returns (ret: int, issued: seq<Erase>)
    requires k < 32 && unit == Pow2(k) < WORD && Geometry(sector, block) && offset < WORD && size < WORD
    requires AlignedSize(size, unit) % sector == 0
    ensures var plan := Plan(offset, AlignedSize(size, unit), sector, block);
      if AllDone(plan, rom) then issued == plan && ret == Int32(size) && (ret < 0 <==> size >= 0x8000_0000)
      else StopsAtFailure(issued, plan, rom) && ret == ERR
    ensures AllDone(Plan(offset, AlignedSize(size, unit), sector, block), rom) && size < 0x8000_0000 ==> ret == size
    ensures !AllDone(Plan(offset, AlignedSize(size, unit), sector, block), rom) ==> ret == -1
    ensures size + unit > WORD ==> issued == [] && ret < 0
  {
    hide AlignedSize, Plan, AllDone, StopsAtFailure, Pow2, Advance;
    if size + unit > WORD { WrapReadsAsError(offset, size, k, sector, block); }
    var alignedSize: nat := AlignedSize(size, unit);
    ret := Int32(size);
    issued := [];
    ghost var plan := Plan(offset, alignedSize, sector, block);
    var at: nat := offset;
    NothingIssued(rom);
    while alignedSize > 0
      invariant alignedSize % sector == 0
      invariant size + unit > WORD ==> alignedSize == 0 && issued == []
      invariant plan == issued + Plan(at, alignedSize, sector, block)
      invariant AllDone(issued, rom)
    {
      var eraseUnit: nat;
      if at % block == 0 && alignedSize >= block {
        eraseUnit := block;
      } else {
        eraseUnit := sector;
      }
      var command := Erase(at, eraseUnit);
      PlanStep(at, alignedSize, sector, block);
      ghost var rest := Plan(Advance(at, eraseUnit), alignedSize - eraseUnit, sector, block);
      Reassociate(issued, command, rest);
      if !rom(command) {
        FailureFound(issued, command, rest, plan, rom);
        issued := issued + [command];
        ret := ERR;
        return;
      }
      OneMoreDone(issued, command, rom);
      issued := issued + [command];
      at := Advance(at, eraseUnit);
      alignedSize := alignedSize - eraseUnit;
    }
    PlanEnds(at, sector, block);
  }

  lemma Reassociate(before: seq<Erase>, c: Erase, rest: seq<Erase>)
    ensures before + ([c] + rest) == before + [c] + rest
  {
  }
}
