/** Sending a chained packet over Ethernet: the payloads are gathered into the fixed-size buffers of consecutive
    transmit descriptors, which are then handed to the DMA as one frame. */
module EnetGather {
  import opened Arithmetic
  import opened FrameProto

  /** Length of the frame check sequence the hand-off accounts for. */
  const FCS_LEN: nat := 4

  /** The hand-off takes the length as 16 bits. */
  const LENGTH_FIELD: nat := 0x1_0000

  datatype TxResult = Handed(length: nat) | Timeout | InProgress

  function Concat(chain: seq<seq<byte>>): seq<byte> {
    if chain == [] then [] else Concat(chain[..|chain| - 1]) + chain[|chain| - 1]
  }

  lemma {:induction false} ConcatGrows(chain: seq<seq<byte>>, i: nat)
    requires i <= |chain|
    ensures |Concat(chain[..i])| <= |Concat(chain)|
    decreases |chain|
  {
    if i < |chain| {
      var front := chain[..|chain| - 1];
      assert front[..i] == chain[..i];
      ConcatGrows(front, i);
    } else {
      assert chain[..i] == chain;
    }
  }

  lemma ConcatNext(chain: seq<seq<byte>>, i: nat)
    requires i < |chain|
    ensures Concat(chain[..i + 1]) == Concat(chain[..i]) + chain[i]
    ensures |Concat(chain[..i])| + |chain[i]| <= |Concat(chain)|
  {
    assert chain[..i + 1][..i] == chain[..i];
    ConcatGrows(chain, i + 1);
  }

  lemma MoreIsMore(a: nat, b: nat, size: nat)
    requires a <= b
    ensures a * size <= b * size
  {
  }

  /** How many bytes u full buffers and the first `at` bytes of the next hold. */
  function Position(u: nat, at: nat, size: nat): nat {
    u * size + at
  }

  lemma PositionMoves(u: nat, at: nat, n: nat, size: nat)
    ensures Position(u, at + n, size) == Position(u, at, size) + n
  {
  }

  lemma PositionWraps(u: nat, size: nat)
    ensures Position(u, size, size) == Position(u + 1, 0, size)
  {
    assert (u + 1) * size == u * size + size;
  }

  lemma AtStart(size: nat)
    ensures Position(0, 0, size) == 0
  {
  }

  predicate Fits(total: nat, count: nat, size: nat) {
    total <= count * size
  }

  /** u + 1 full buffers and more do not fit unless there is a further descriptor. */
  lemma RoomLeft(u: nat, size: nat, count: nat, total: nat)
    requires Fits(total, count, size) && Position(u, size, size) < total
    ensures u + 1 < count
  {
    PositionWraps(u, size);
    if u + 1 >= count { MoreIsMore(count, u + 1, size); }
  }

  // ---------------------------------------------------------------- the hand-off

  /** How many descriptors the driver fills for this many bytes: it moves on only when there is more to copy. */
  function Filled(total: nat, size: nat): (n: nat)
    requires size > 0
    ensures n > 0
  {
    if total == 0 then 1 else (total - 1) / size + 1
  }

  lemma FilledIs(total: nat, size: nat, u: nat, at: nat)
    requires size > 0 && total == Position(u, at, size) && at <= size && (u > 0 ==> at > 0)
    ensures Filled(total, size) == u + 1
  {
    if at > 0 { QuotientIs(total - 1, size, u, at - 1); } else { assert u == 0 && total == 0; }
  }

  /** How many descriptors the hand-off gives to the DMA for a frame of this length. */
  function Given(length: nat, size: nat): nat
    requires size > 0
  {
    if length > size then length / size + (if length % size != 0 then 1 else 0) else 1
  }

  lemma GivenIs(length: nat, size: nat)
    requires size > 0 && length > 0
    ensures Given(length, size) == (length - 1) / size + 1
  {
    var q, r := length / size, length % size;
    if length <= size {
      QuotientIs(length - 1, size, 0, length - 1);
    } else if r == 0 {
      assert length - 1 == (q - 1) * size + (size - 1);
      QuotientIs(length - 1, size, q - 1, size - 1);
    } else {
      QuotientIs(length - 1, size, q, r - 1);
    }
  }

  /** The hand-off counts the descriptors again, from the length with four bytes added. It gives the DMA the ones that
      were filled exactly when those four bytes still fit behind the payload in the last of them; otherwise it gives
      away one more, which the driver has neither filled nor seen released. */
  lemma GivenAreFilled(total: nat, size: nat)
    requires size >= FCS_LEN && total + FCS_LEN < LENGTH_FIELD
    ensures var n, given := Filled(total, size), Given((total + FCS_LEN) % LENGTH_FIELD, size);
      && (given == n <==> total + FCS_LEN <= n * size)
      && (given != n ==> given == n + 1)
  {
    var n := Filled(total, size);
    var x := total + FCS_LEN - 1;
    GivenIs(total + FCS_LEN, size);
    WithinLast(total, size);
    if x < n * size {
      assert x == (n - 1) * size + (x - (n - 1) * size);
      QuotientIs(x, size, n - 1, x - (n - 1) * size);
    } else {
      QuotientIs(x, size, n, x - n * size);
    }
  }

  lemma NextMultiple(q: int, size: nat)
    ensures (q + 1) * size == q * size + size
  {
  }

  lemma WithinLast(total: nat, size: nat)
    requires size > 0
    ensures var n := Filled(total, size);
      (n - 1) * size <= total <= n * size && n * size == (n - 1) * size + size
  {
    NextMultiple(Filled(total, size) - 1, size);
    if total > 0 {
      var q, r := (total - 1) / size, (total - 1) % size;
      assert total - 1 == q * size + r;
    }
  }

  /** A payload that fills its buffer to the last byte is one such case. */
  lemma OneTooMany()
    ensures Filled(1536, 1536) == 1 && Given(1536 + FCS_LEN, 1536) == 2
  {
  }

  class TxRing {
    const count: nat
    const size: nat
    const buffers: array2<byte>

    /** Descriptors whose own bit is set: their buffers belong to the DMA. */
    var owned: set<nat>
    var now: nat

    /** How many ticks the driver waits for a descriptor. */
    const patience: nat

    /** The descriptors the DMA gives back at each tick. */
    const release: nat -> set<nat>

    ghost predicate Valid() {
      count > 0 && size > 0 && buffers.Length0 == count && buffers.Length1 == size
    }

    constructor (count: nat, size: nat, patience: nat, owned: set<nat>, release: nat -> set<nat>)
      requires count > 0 && size > 0
      ensures Valid() && this.owned == owned && this.release == release && now == 0
      ensures this.count == count && this.size == size && this.patience == patience
    {
      this.count, this.size, this.patience := count, size, patience;
      this.owned, this.now, this.release := owned, 0, release;
      buffers := new byte[count, size];
    }

    ghost function Row(d: nat): (r: seq<byte>)
      requires Valid() && d < count
      reads buffers
      ensures |r| == size
    {
      seq(size, o requires 0 <= o < size reads buffers => buffers[d, o])
    }

    /** The descriptor j places after d in the ring. */
    function After(d: nat, j: nat): (e: nat)
      requires count > 0
      ensures e < count
    {
      (d + j) % count
    }

    /** All buffers, as values. */
    ghost function Rows(): (r: seq<seq<byte>>)
      requires Valid()
      reads buffers
      ensures |r| == count && forall d :: 0 <= d < count ==> r[d] == Row(d)
    {
      seq(count, d requires 0 <= d < count reads buffers => Row(d))
    }

    /** The contents of j consecutive buffers from descriptor d. */
    ghost function Flat(rows: seq<seq<byte>>, d: nat, j: nat): (r: seq<byte>)
      requires count > 0 && |rows| == count
    {
      if j == 0 then [] else Flat(rows, d, j - 1) + rows[After(d, j - 1)]
    }

    /** What the DMA still owns when n ticks have passed since tick t. */
    function Remaining(at: set<nat>, t: nat, n: nat): (r: set<nat>)
      ensures r <= at
    {
      if n == 0 then at else Remaining(at, t, n - 1) - release(t + n)
    }

    /** Polls the own bit until it clears or the time is up. The DMA only ever gives descriptors back. */
    method WaitReleased(d: nat) returns (ok: bool)
      modifies `owned, `now
      ensures old(now) <= now && owned == Remaining(old(owned), old(now), now - old(now))
      ensures owned <= old(owned) && (ok <==> d !in owned)
      ensures !ok ==> now == old(now) + patience + 1 && forall t :: old(now) < t <= now ==> d !in release(t)
      ensures ok && old(now) < now ==> now - old(now) <= patience + 1 && d in release(now)
      ensures d !in old(owned) ==> ok && now == old(now)
    {
      var start := now;
      while d in owned
        invariant owned <= old(owned) && start <= now <= start + patience + 1
        invariant owned == Remaining(old(owned), start, now - start)
        invariant start < now && d !in owned ==> d in release(now)
        invariant d in owned ==> forall t :: start < t <= now ==> d !in release(t)
        invariant d !in old(owned) ==> now == start
        decreases patience + 1 + start - now
      {
        if now - start > patience {
          return false;
        }
        now := now + 1;
        owned := owned - release(now);
      }
      ok := true;
    }

    /** A copy into one buffer: the buffer is the driver's, and the bytes fit. */
    method CopyInto(d: nat, at: nat, data: seq<byte>)
      requires Valid() && d < count && d !in owned && at + |data| <= size
      modifies buffers
      ensures Row(d) == old(Row(d))[..at] + data + old(Row(d))[at + |data|..]
      ensures forall e :: 0 <= e < count && e != d ==> Row(e) == old(Row(e))
    {
      forall o | 0 <= o < |data| {
        buffers[d, at + o] := data[o];
      }
    }

    lemma AfterDiffers(d: nat, i: nat, j: nat)
      requires count > 0 && i < j < count
      ensures After(d, i) != After(d, j)
    {
      var p, q := (d + i) / count, (d + j) / count;
      if q > p { WholeStep(q, p, count); }
      if p > q { WholeStep(p, q, count); }
    }

    lemma {:induction false} FlatUnchanged(rows: seq<seq<byte>>, after: seq<seq<byte>>, d: nat, u: nat, j: nat)
      requires count > 0 && |rows| == |after| == count && j <= u < count
      requires forall e :: 0 <= e < count && e != After(d, u) ==> rows[e] == after[e]
      ensures Flat(rows, d, j) == Flat(after, d, j)
      decreases j
    {
      if j > 0 {
        AfterDiffers(d, j - 1, u);
        FlatUnchanged(rows, after, d, u, j - 1);
      }
    }

    lemma {:induction false} FlatPrefix(rows: seq<seq<byte>>, d: nat, u: nat, n: nat)
      requires count > 0 && |rows| == count && u <= n
      ensures Flat(rows, d, u) <= Flat(rows, d, n)
      decreases n
    {
      if u < n { FlatPrefix(rows, d, u, n - 1); }
    }

    lemma {:induction false} FlatSize(rows: seq<seq<byte>>, d: nat, n: nat)
      requires count > 0 && |rows| == count && forall e :: 0 <= e < count ==> |rows[e]| == size
      ensures |Flat(rows, d, n)| == n * size
      decreases n
    {
      if n > 0 { FlatSize(rows, d, n - 1); }
    }

    /** Appends to what has been gathered in u buffers and the first `at` bytes of the next. */
    method Append(d: nat, ghost cur: nat, ghost u: nat, at: nat, data: seq<byte>)
      requires Valid() && d == After(cur, u) && d !in owned && at + |data| <= size
      modifies buffers
      ensures forall e :: 0 <= e < count && e in owned ==> Row(e) == old(Row(e))
      ensures u < count ==> Flat(Rows(), cur, u) == old(Flat(Rows(), cur, u))
      ensures Rows()[After(cur, u)][..at + |data|] == old(Rows()[After(cur, u)][..at]) + data
    {
      ghost var rows := Rows();
      CopyInto(d, at, data);
      if u < count {
        FlatUnchanged(rows, Rows(), cur, u, u);
      }
    }

    lemma NextDescriptor(d: nat, j: nat)
      requires count > 0
      ensures (After(d, j) + 1) % count == After(d, j + 1)
    {
      NextRemainder(d + j, count);
    }

    /** u full buffers from descriptor cur, and the first `at` bytes of the one behind them. */
    ghost function Gathered(rows: seq<seq<byte>>, cur: nat, u: nat, at: nat): seq<byte>
      requires count > 0 && |rows| == count && (forall e :: 0 <= e < count ==> |rows[e]| == size) && at <= size
    {
      Flat(rows, cur, u) + rows[After(cur, u)][..at]
    }

    lemma FullBuffer(rows: seq<seq<byte>>, cur: nat, u: nat)
      requires count > 0 && |rows| == count && forall e :: 0 <= e < count ==> |rows[e]| == size
      ensures Gathered(rows, cur, u, size) == Gathered(rows, cur, u + 1, 0)
    {
      assert rows[After(cur, u)][..size] == rows[After(cur, u)];
    }

    /** Copies the chain into the buffers from the current descriptor on and hands the frame to the DMA. Whatever
        the pieces, the buffers read in ring order hold the payloads in order exactly when they can hold them. */
    method Transmit(cur: nat, chain: seq<seq<byte>>) returns (ret: TxResult, d: nat)
      requires Valid() && cur < count
      modifies `owned, `now, buffers
      ensures owned <= old(owned)
      ensures forall e :: 0 <= e < count && e in owned ==> Row(e) == old(Row(e))
      ensures old(owned) == {} ==> ret.Handed?
      ensures ret.Handed? ==> ret.length == (|Concat(chain)| + 4) % 0x1_0000
      ensures ret.Timeout? ==> d in owned && now > old(now) + patience
      ensures ret.Timeout? ==> forall t :: now - patience <= t <= now ==> d !in release(t)
      ensures ret.InProgress? ==> d in owned
      ensures ret.Handed? ==> d == After(cur, Filled(|Concat(chain)|, size) - 1)
      ensures ret.Handed? ==> (Concat(chain) <= Flat(Rows(), cur, count) <==> |Concat(chain)| <= count * size)
    {
      hide Concat, Flat, After, Rows, Gathered, Filled, Fits, Position, Remaining;
      ghost var total, u := |Concat(chain)|, 0;
      ghost var fits := Fits(total, count, size);
      AtStart(size);
      var bufferOffset: nat, frameLength: nat := 0, 0;
      d := cur;
      Start(cur, chain);
      var i := 0;
      while i < |chain|
        invariant 0 <= i <= |chain| && bufferOffset <= size && owned <= old(owned)
        invariant forall e :: 0 <= e < count && e in owned ==> Row(e) == old(Row(e))
        invariant d == After(cur, u) && old(now) <= now
        invariant frameLength == |Concat(chain[..i])| == Position(u, bufferOffset, size) && (u > 0 ==> bufferOffset > 0)
        invariant fits ==> u < count && Gathered(Rows(), cur, u, bufferOffset) == Concat(chain[..i])
      {
        var q := chain[i];
        ghost var done := Concat(chain[..i]);
        var bytesLeft: nat, payloadOffset: nat := |q|, 0;
        ConcatNext(chain, i);
        while bytesLeft + bufferOffset > size
          invariant bufferOffset <= size && owned <= old(owned) && d == After(cur, u) && old(now) <= now
          invariant forall e :: 0 <= e < count && e in owned ==> Row(e) == old(Row(e))
          invariant payloadOffset + bytesLeft == |q|
          invariant frameLength == |done| + payloadOffset == Position(u, bufferOffset, size)
          invariant u > 0 ==> bufferOffset > 0 || bytesLeft > 0
          invariant fits ==> u < count && Gathered(Rows(), cur, u, bufferOffset) == done + q[..payloadOffset]
          decreases bytesLeft + bufferOffset
        {
          var ok := WaitReleased(d);
          if !ok {
            return Timeout, d;
          }
          var room := size - bufferOffset;
          AppendPiece(d, cur, u, bufferOffset, done, q, payloadOffset, room);
          PositionMoves(u, bufferOffset, room, size);
          PositionWraps(u, size);
          if fits { RoomLeft(u, size, count, total); }
          FullBuffer(Rows(), cur, u);
          NextDescriptor(cur, u);
          d := (d + 1) % count;
          if d in owned {
            return InProgress, d;
          }
          bytesLeft := bytesLeft - room;
          payloadOffset := payloadOffset + room;
          frameLength := frameLength + room;
          bufferOffset := 0;
          u := u + 1;
        }
        var ok := WaitReleased(d);
        if !ok {
          return Timeout, d;
        }
        AppendPiece(d, cur, u, bufferOffset, done, q, payloadOffset, bytesLeft);
        PositionMoves(u, bufferOffset, bytesLeft, size);
        bufferOffset := bufferOffset + bytesLeft;
        frameLength := frameLength + bytesLeft;
        i := i + 1;
      }
      assert chain[..i] == chain;
      FilledIs(frameLength, size, u, bufferOffset);
      Finish(Rows(), cur, u, bufferOffset, chain);
      ret := Handed((frameLength + FCS_LEN) % LENGTH_FIELD);
    }

    lemma Start(cur: nat, chain: seq<seq<byte>>)
      requires Valid() && cur < count
      ensures After(cur, 0) == cur && |Concat([])| == 0
      ensures Gathered(Rows(), cur, 0, 0) == [] == Concat(chain[..0])
    {
    }

    /** The next n bytes of q go behind what is already there. */
    method AppendPiece(d: nat, ghost cur: nat, ghost u: nat, at: nat, ghost done: seq<byte>, q: seq<byte>,
                       from: nat, n: nat)
      requires Valid() && d == After(cur, u) && d !in owned && at + n <= size && from + n <= |q|
      modifies buffers
      ensures forall e :: 0 <= e < count && e in owned ==> Row(e) == old(Row(e))
      ensures u < count && old(Gathered(Rows(), cur, u, at)) == done + q[..from]
        ==> Gathered(Rows(), cur, u, at + n) == done + q[..from + n]
    {
      ghost var rows := Rows();
      Append(d, cur, u, at, q[from..from + n]);
      assert q[..from + n] == q[..from] + q[from..from + n];
      if u < count && Gathered(rows, cur, u, at) == done + q[..from] {
        var piece, row := q[from..from + n], rows[d];
        calc {
          Gathered(Rows(), cur, u, at + n);
          Flat(rows, cur, u) + (row[..at] + piece);
          (Flat(rows, cur, u) + row[..at]) + piece;
          done + q[..from] + piece;
          done + q[..from + n];
        }
      }
    }

    lemma Finish(rows: seq<seq<byte>>, cur: nat, u: nat, at: nat, chain: seq<seq<byte>>)
      requires count > 0 && |rows| == count && (forall e :: 0 <= e < count ==> |rows[e]| == size) && at <= size
      requires Fits(|Concat(chain)|, count, size) ==> u < count && Gathered(rows, cur, u, at) == Concat(chain)
      ensures Concat(chain) <= Flat(rows, cur, count) <==> |Concat(chain)| <= count * size
    {
      FlatSize(rows, cur, count);
      if |Concat(chain)| <= count * size {
        FlatPrefix(rows, cur, u + 1, count);
        assert Flat(rows, cur, u + 1) == Flat(rows, cur, u) + rows[After(cur, u)];
      }
    }
  }
}
