/** Index arithmetic of a ring whose full state leaves one slot empty: the shape shared by the receive
    ring of the command channel and the request ring of the DAP engine. */
module Ring {

  function Succ(i: nat, size: nat): (j: nat)
    requires i < size
    ensures j < size
  {
    (i + 1) % size
  }

  /** The elements between the consumer's index and the producer's. */
  function Span<T>(buf: seq<T>, tail: nat, head: nat): seq<T>
    requires tail < |buf| && head < |buf|
  {
    if tail <= head then buf[tail..head] else buf[tail..] + buf[..head]
  }

  lemma SuccIs(i: nat, size: nat)
    requires i < size
    ensures Succ(i, size) == if i + 1 == size then 0 else i + 1
  {
    if i + 1 < size { assert (i + 1) / size == 0; }
  }

  lemma SpanSize<T>(buf: seq<T>, tail: nat, head: nat)
    requires tail < |buf| && head < |buf|
    ensures |Span(buf, tail, head)| == if tail <= head then head - tail else head - tail + |buf|
    ensures |Span(buf, tail, head)| < |buf|
    ensures Succ(head, |buf|) == tail <==> |Span(buf, tail, head)| == |buf| - 1
    ensures tail == head <==> Span(buf, tail, head) == []
  {
    SuccIs(head, |buf|);
  }

  /** Storing at the head and advancing it appends. */
  lemma SpanPush<T>(buf: seq<T>, tail: nat, head: nat, x: T)
    requires tail < |buf| && head < |buf| && Succ(head, |buf|) != tail
    ensures Span(buf[head := x], tail, head) == Span(buf, tail, head)
    ensures Span(buf[head := x], tail, Succ(head, |buf|)) == Span(buf, tail, head) + [x]
  {
    SuccIs(head, |buf|);
    var b := buf[head := x];
    if head + 1 == |buf| {
      assert b[tail..] == buf[tail..head] + [x];
    } else if head < tail {
      assert b[..head + 1] == buf[..head] + [x];
      assert b[tail..] == buf[tail..];
    }
  }

  /** Advancing the tail takes the first element. */
  lemma SpanPop<T>(buf: seq<T>, tail: nat, head: nat)
    requires tail < |buf| && head < |buf| && tail != head
    ensures Span(buf, tail, head) == [buf[tail]] + Span(buf, Succ(tail, |buf|), head)
  {
    SuccIs(tail, |buf|);
  }
}
