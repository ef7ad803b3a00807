/** The circular doubly linked list of the service layer. A list is known by any one of its nodes, usually a
    sentinel head; the ghost sequence names the nodes in next-order. */
module DoublyLinkedList {
  import opened Arithmetic

  /** Lengths are counted in an unsigned 32-bit variable. */
  const COUNTER: nat := 0x1_0000_0000

  class ListNode {
    var next: ListNode
    var prev: ListNode

    /** The static initializer: a node alone in its own ring. */
    constructor ()
      ensures Ring([this])
    {
      next := this;
      prev := this;
    }
  }

  ghost predicate Distinct(s: seq<ListNode>) {
    forall i, j :: 0 <= i < j < |s| ==> s[i] != s[j]
  }

  ghost predicate Linked(a: ListNode, b: ListNode)
    reads a, b
  {
    a.next == b && b.prev == a
  }

  ghost predicate Alone(x: ListNode)
    reads x
  {
    x.next == x && x.prev == x
  }

  /** s lists every node of one ring, once, in next-order. */
  ghost predicate Ring(s: seq<ListNode>)
    reads s
  {
    && |s| > 0
    && Distinct(s)
    && (forall i :: 0 <= i < |s| - 1 ==> Linked(s[i], s[i + 1]))
    && Linked(s[|s| - 1], s[0])
  }

  // ---------------------------------------------------------------- what a ring determines

  lemma Neighbours(s: seq<ListNode>, k: nat)
    requires Ring(s) && k < |s|
    ensures s[k].next == if k + 1 < |s| then s[k + 1] else s[0]
    ensures s[k].prev == if k > 0 then s[k - 1] else s[|s| - 1]
  {
    if k > 0 { assert Linked(s[k - 1], s[k]); }
    if k + 1 < |s| { assert Linked(s[k], s[k + 1]); }
  }

  lemma RingFacts(s: seq<ListNode>)
    requires Ring(s)
    ensures |s| > 0 && Distinct(s) && forall i :: 0 < i < |s| ==> s[i] != s[0]
  {
  }

  /** The links fix the sequence: two rings read from the same node are the same ring. */
  lemma RingUnique(s: seq<ListNode>, t: seq<ListNode>)
    requires Ring(s) && Ring(t) && s[0] == t[0]
    ensures s == t
  {
    var n := if |s| <= |t| then |s| else |t|;
    if |s| <= |t| { RingAgrees(s, t, n - 1); } else { RingAgrees(t, s, n - 1); }
    Neighbours(s, n - 1);
    Neighbours(t, n - 1);
  }

  lemma {:induction false} RingAgrees(s: seq<ListNode>, t: seq<ListNode>, n: nat)
    requires Ring(s) && Ring(t) && s[0] == t[0] && n < |s| <= |t|
    ensures forall i :: 0 <= i <= n ==> s[i] == t[i]
  {
    if n > 0 {
      RingAgrees(s, t, n - 1);
      assert Linked(s[n - 1], s[n]) && Linked(t[n - 1], t[n]);
    }
  }

  /** A ring may be read from any of its nodes. */
  function Rotated(s: seq<ListNode>, k: nat): (r: seq<ListNode>)
    requires k < |s|
    ensures |r| == |s| && r[0] == s[k]
  {
    s[k..] + s[..k]
  }

  lemma RingRotates(s: seq<ListNode>, k: nat)
    requires Ring(s) && k < |s|
    ensures Ring(Rotated(s, k))
  {
    var r := Rotated(s, k);
    forall i | 0 <= i < |r| - 1 ensures Linked(r[i], r[i + 1]) {
      if i + k + 1 < |s| {
        assert Linked(s[i + k], s[i + k + 1]);
      } else if i + k + 1 > |s| {
        assert Linked(s[i + k - |s|], s[i + k - |s| + 1]);
      }
    }
    if k > 0 { assert Linked(s[k - 1], s[k]); }
  }

  // ---------------------------------------------------------------- operations

  /** t is another list: it shares no node with s and does not hold n. */
  ghost predicate Apart(t: seq<ListNode>, s: seq<ListNode>, n: ListNode) {
    forall i :: 0 <= i < |t| ==> t[i] !in s && t[i] != n
  }

  method Init(l: ListNode)
    modifies l
    ensures Ring([l])
  {
    l.next, l.prev := l, l;
  }

  /** The ring with n inserted behind position k. */
  function Inserted(s: seq<ListNode>, k: nat, n: ListNode): (r: seq<ListNode>)
    requires k < |s|
    ensures |r| == |s| + 1 && r[k + 1] == n
    ensures forall i :: 0 <= i <= k ==> r[i] == s[i]
    ensures forall i :: k < i < |s| ==> r[i + 1] == s[i]
  {
    s[..k + 1] + [n] + s[k + 1..]
  }

  /** The ring without its node at position k. */
  function Without(s: seq<ListNode>, k: nat): (r: seq<ListNode>)
    requires k < |s|
    ensures |r| == |s| - 1
    ensures forall i :: 0 <= i < k ==> r[i] == s[i]
    ensures forall i :: k < i < |s| ==> r[i - 1] == s[i]
  {
    s[..k] + s[k + 1..]
  }

  lemma InsertedDistinct(s: seq<ListNode>, k: nat, n: ListNode)
    requires Distinct(s) && k < |s| && n !in s
    ensures Distinct(Inserted(s, k, n))
  {
    var r := Inserted(s, k, n);
    forall i, j | 0 <= i < j < |r| ensures r[i] != r[j] {
      if i == k + 1 {
        assert r[j] == s[j - 1];
      } else if j == k + 1 {
        assert r[i] == s[i];
      } else {
        assert r[i] == s[if i <= k then i else i - 1] && r[j] == s[if j <= k then j else j - 1];
      }
    }
  }

  lemma WithoutDistinct(s: seq<ListNode>, k: nat)
    requires Distinct(s) && k < |s|
    ensures Distinct(Without(s, k))
  {
    var r := Without(s, k);
    forall i, j | 0 <= i < j < |r| ensures r[i] != r[j] {
      assert r[i] == s[if i < k then i else i + 1] && r[j] == s[if j < k then j else j + 1];
    }
  }

  /** Every node but one is some other node. */
  lemma OthersDiffer(s: seq<ListNode>, k: nat)
    requires Distinct(s) && k < |s|
    ensures forall i :: 0 <= i < |s| && i != k ==> s[i] != s[k]
  {
  }

  method InsertAfter(l: ListNode, n: ListNode, ghost s: seq<ListNode>, ghost k: nat)
    requires Ring(s) && k < |s| && s[k] == l && n !in s
    modifies l`next, l.next`prev, n
    ensures Ring(Inserted(s, k, n))
    ensures forall t: seq<ListNode> {:trigger Apart(t, s, n)} ::
      old(allocated(t)) && Apart(t, s, n) && old(Ring(t)) ==> Ring(t)
  {
    ghost var r, m := Inserted(s, k, n), if k + 1 < |s| then k + 1 else 0;
    InsertedDistinct(s, k, n);
    OthersDiffer(s, k);
    OthersDiffer(s, m);
    Neighbours(s, k);
    hide Distinct, Inserted;
    l.next.prev := n;
    n.next := l.next;
    l.next := n;
    n.prev := l;
    forall i | 0 <= i < |r| - 1 ensures Linked(r[i], r[i + 1]) {
      if i < k {
        assert old(Linked(s[i], s[i + 1]));
      } else if i > k + 1 {
        assert old(Linked(s[i - 1], s[i]));
      }
    }
  }

  /** Before the head means at the tail; elsewhere, behind the predecessor. */
  method InsertBefore(l: ListNode, n: ListNode, ghost s: seq<ListNode>, ghost k: nat)
    requires Ring(s) && k < |s| && s[k] == l && n !in s
    modifies l`prev, l.prev`next, n
    ensures Ring(Inserted(s, if k == 0 then |s| - 1 else k - 1, n))
    ensures forall t: seq<ListNode> {:trigger Apart(t, s, n)} ::
      old(allocated(t)) && Apart(t, s, n) && old(Ring(t)) ==> Ring(t)
  {
    ghost var p := if k == 0 then |s| - 1 else k - 1;
    ghost var r := Inserted(s, p, n);
    InsertedDistinct(s, p, n);
    OthersDiffer(s, k);
    OthersDiffer(s, p);
    Neighbours(s, k);
    hide Distinct, Inserted;
    l.prev.next := n;
    n.prev := l.prev;
    l.prev := n;
    n.next := l;
    forall i | 0 <= i < |r| - 1 ensures Linked(r[i], r[i + 1]) {
      if i < p {
        assert old(Linked(s[i], s[i + 1]));
      } else if i > p + 1 {
        assert old(Linked(s[i - 1], s[i]));
      }
    }
  }

  method Remove(n: ListNode, ghost s: seq<ListNode>, ghost k: nat)
    requires Ring(s) && k < |s| && s[k] == n
    modifies n, n.next`prev, n.prev`next
    ensures Ring([n]) && Alone(n)
    ensures |s| > 1 ==> Ring(Without(s, k))
    ensures forall t: seq<ListNode> {:trigger Apart(t, s, n)} ::
      old(allocated(t)) && Apart(t, s, n) && old(Ring(t)) ==> Ring(t)
  {
    ghost var p, m := if k == 0 then |s| - 1 else k - 1, if k + 1 < |s| then k + 1 else 0;
    ghost var r := Without(s, k);
    WithoutDistinct(s, k);
    OthersDiffer(s, k);
    OthersDiffer(s, p);
    OthersDiffer(s, m);
    Neighbours(s, k);
    n.next.prev := n.prev;
    n.prev.next := n.next;
    n.next, n.prev := n, n;
    hide Without;
    assert Ring([n]);
    hide Distinct;
    if |s| > 1 {
      forall i | 0 <= i < |r| - 1 ensures Linked(r[i], r[i + 1]) {
        if i + 1 < k {
          assert old(Linked(s[i], s[i + 1]));
        } else if i >= k {
          assert old(Linked(s[i + 1], s[i + 2]));
        }
      }
      if k > 0 && k + 1 < |s| {
        assert old(Linked(s[|s| - 1], s[0]));
      }
    }
  }

  predicate IsEmpty(l: ListNode)
    reads l
  {
    l.next == l
  }

  lemma EmptyWhenAlone(s: seq<ListNode>)
    requires Ring(s)
    ensures IsEmpty(s[0]) <==> |s| == 1
  {
    if |s| > 1 { assert Linked(s[0], s[1]); }
  }

  method Len(l: ListNode, ghost s: seq<ListNode>) returns (len: nat)
    requires Ring(s) && s[0] == l
    ensures len == (|s| - 1) % 0x1_0000_0000
  {
    RingFacts(s);
    Neighbours(s, 0);
    hide Ring, Linked, Distinct;
    len := 0;
    var p := l;
    ghost var i := 0;
    while p.next != l
      invariant 0 <= i < |s| && p == s[i] && len == i % COUNTER
      invariant p.next == if i + 1 < |s| then s[i + 1] else s[0]
      decreases |s| - i
    {
      Neighbours(s, i + 1);
      NextRemainder(i, COUNTER);
      p := p.next;
      len := (len + 1) % COUNTER;
      i := i + 1;
    }
  }

  // ---------------------------------------------------------------- walking while removing

  ghost function Kept(s: seq<ListNode>, gone: set<ListNode>): (r: seq<ListNode>)
    ensures forall i :: 0 <= i < |r| ==> r[i] in s && r[i] !in gone
    ensures forall i :: 0 <= i < |s| && s[i] !in gone ==> s[i] in r
  {
    if s == [] then []
    else Kept(s[..|s| - 1], gone) + if s[|s| - 1] in gone then [] else [s[|s| - 1]]
  }

  lemma KeptNext(seen: seq<ListNode>, x: ListNode, gone: set<ListNode>)
    ensures Kept(seen + [x], gone) == Kept(seen, gone) + if x in gone then [] else [x]
  {
    assert (seen + [x])[..|seen|] == seen;
  }

  /** Mid-walk: the first k nodes of the ring are the survivors of the first v nodes of s; the rest is untouched. */
  ghost predicate Walked(s: seq<ListNode>, v: nat, ring: seq<ListNode>, k: nat, gone: set<ListNode>) {
    && v <= |s| && k <= |ring|
    && ring[..k] == Kept(s[..v], gone)
    && ring[k..] == s[v..]
  }

  lemma WalkStarts(s: seq<ListNode>, gone: set<ListNode>)
    requires |s| > 0 && s[0] !in gone
    ensures Walked(s, 1, s, 1, gone)
  {
    KeptNext([], s[0], gone);
    assert s[..1] == [] + [s[0]];
  }

  lemma WalkNext(s: seq<ListNode>, v: nat, ring: seq<ListNode>, k: nat, gone: set<ListNode>)
    requires Walked(s, v, ring, k, gone) && k < |ring|
    ensures v < |s| && ring[k] == s[v]
    ensures s[v] in gone ==> Walked(s, v + 1, Without(ring, k), k, gone)
    ensures s[v] !in gone ==> Walked(s, v + 1, ring, k + 1, gone)
  {
    assert ring[k] == ring[k..][0] == s[v];
    KeptNext(s[..v], s[v], gone);
    assert s[..v] + [s[v]] == s[..v + 1];
    assert ring[k + 1..] == ring[k..][1..] == s[v..][1..] == s[v + 1..];
    assert ring[..k + 1] == ring[..k] + [ring[k]];
    assert Without(ring, k)[..k] == ring[..k] && Without(ring, k)[k..] == ring[k + 1..];
  }

  lemma WalkEnds(s: seq<ListNode>, v: nat, ring: seq<ListNode>, gone: set<ListNode>)
    requires Walked(s, v, ring, |ring|, gone)
    ensures v == |s| && ring == Kept(s, gone)
  {
    assert ring[|ring|..] == [] && |s[v..]| == |s| - v;
    assert s[..v] == s && ring[..|ring|] == ring;
  }

  lemma RemovedStayOut(s: seq<ListNode>, v: nat, ring: seq<ListNode>, k: nat, gone: set<ListNode>, i: nat)
    requires Walked(s, v, ring, k, gone) && Distinct(s) && i < v && s[i] in gone
    ensures s[i] !in ring
  {
    assert ring == ring[..k] + ring[k..];
    forall j | k <= j < |ring| ensures ring[j] != s[i] {
      assert ring[j] == s[v..][j - k];
    }
  }

  /** Removing a node behind the head touches nothing outside the ring. */
  method RemoveBehindHead(n: ListNode, ghost ring: seq<ListNode>, ghost k: nat)
    requires Ring(ring) && 0 < k < |ring| && ring[k] == n
    modifies ring
    ensures Ring(Without(ring, k)) && Alone(n)
  {
    Neighbours(ring, k);
    hide Ring;
    assert n in ring && n.next in ring && n.prev in ring;
    Remove(n, ring, k);
  }

  /** The removal-safe walk: it remembers the next node before the body runs, so the body may remove the current
      one. It visits every node behind the head exactly once, in order, and the survivors stay linked in order. */
  method RemoveWhileWalking(head: ListNode, gone: set<ListNode>, ghost s: seq<ListNode>)
      returns (visited: seq<ListNode>)
    requires Ring(s) && s[0] == head && head !in gone
    modifies s
    ensures [head] + visited == s
    ensures Ring(Kept(s, gone))
    ensures forall i :: 0 <= i < |s| && s[i] in gone ==> Alone(s[i])
  {
    hide Walked, Kept, Ring, Distinct, Linked;
    RingFacts(s);
    visited := [];
    ghost var ring, k, v := s, 1, 1;
    WalkStarts(s, gone);
    Neighbours(s, 0);
    var pos := head.next;
    var n := pos.next;
    while pos != head
      invariant Ring(ring) && 0 < k <= |ring| && ring[0] == head
      invariant forall i :: 0 <= i < |ring| ==> ring[i] in s
      invariant Walked(s, v, ring, k, gone)
      invariant 1 <= v <= |s| && visited == s[1..v]
      invariant pos == if k == |ring| then head else ring[k]
      invariant n == pos.next
      invariant forall i :: 0 <= i < v && s[i] in gone ==> Alone(s[i])
      decreases |ring| - k, |ring|
    {
      RingFacts(ring);
      Neighbours(ring, k);
      WalkNext(s, v, ring, k, gone);
      if pos in gone {
        forall i: nat | i < v && s[i] in gone ensures s[i] !in ring {
          RemovedStayOut(s, v, ring, k, gone, i);
        }
        RemoveBehindHead(pos, ring, k);
        ring := Without(ring, k);
      } else {
        k := k + 1;
      }
      assert visited + [pos] == s[1..v + 1];
      visited := visited + [pos];
      v := v + 1;
      pos := n;
      n := pos.next;
    }
    RingFacts(ring);
    WalkEnds(s, v, ring, gone);
  }
}
