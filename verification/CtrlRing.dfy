/** The receive ring of the command channel, filled by the OUT callback. */
module CtrlRing {
  import opened FrameProto
  import opened Ring

  const RX_RING_SIZE := 8192

  class RxRing {
    const buf: array<byte>
    var head: nat
    var tail: nat
    var dropped: nat

    ghost predicate Valid()
      reads this
    {
      buf.Length == RX_RING_SIZE && head < RX_RING_SIZE && tail < RX_RING_SIZE
    }

    ghost function Contents(): seq<byte>
      requires Valid()
      reads this, buf
    {
      Span(buf[..], tail, head)
    }

    constructor ()
      ensures Valid() && fresh(buf)
      ensures Contents() == [] && dropped == 0
    {
      buf := new byte[RX_RING_SIZE];
      head, tail, dropped := 0, 0, 0;
    }

    /** Stores the longest prefix that fits in the 8191 usable slots, and counts one drop if bytes were
        left over. The consumer's index is not touched. */
    method Put(data: array<byte>, n: nat)
      requires Valid() && n <= data.Length && data != buf
      modifies this`head, this`dropped, buf
      ensures Valid()
      ensures var room := RX_RING_SIZE - 1 - |old(Contents())|;
              var k := if n <= room then n else room;
              && Contents() == old(Contents()) + data[..k]
              && dropped == old(dropped) + if k < n then 1 else 0
    {
      ghost var before := Contents();
      for i := 0 to n
        invariant Valid() && tail == old(tail) && dropped == old(dropped)
        invariant Contents() == before + data[..i]
      {
        var next := (head + 1) % RX_RING_SIZE;
        SpanSize(buf[..], tail, head);
        if next == tail {
          dropped := dropped + 1;
          return;
        }
        SpanPush(buf[..], tail, head, data[i]);
        buf[head] := data[i];
        head := next;
        assert data[..i + 1] == data[..i] + [data[i]];
      }
      SpanSize(buf[..], tail, head);
    }

    /** The oldest byte, if there is one. */
    method GetChar() returns (some: bool, b: byte)
      requires Valid()
      modifies this`tail
      ensures Valid()
      ensures some <==> old(Contents()) != []
      ensures some ==> old(Contents()) == [b] + Contents()
      ensures !some ==> Contents() == old(Contents())
    {
      SpanSize(buf[..], tail, head);
      if tail == head {
        return false, 0;
      }
      SpanPop(buf[..], tail, head);
      some, b := true, buf[tail];
      tail := (tail + 1) % RX_RING_SIZE;
    }
  }
}
