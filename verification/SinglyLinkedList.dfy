/** The null-terminated singly linked list of the service layer, with an embedded head node. The ghost sequence
    names the nodes from the head in next-order. */
module SinglyLinkedList {
  import opened Arithmetic

  /** Lengths are counted in an unsigned 32-bit variable. */
  const COUNTER: nat := 0x1_0000_0000

  class SlistNode {
    var next: SlistNode?

    /** The static initializer: a head with nothing behind it. */
    constructor ()
      ensures Chain([this])
    {
      next := null;
    }
  }

  /** What the next field of position k holds. */
  function NextOf(s: seq<SlistNode>, k: nat): SlistNode?
    requires k < |s|
  {
    if k + 1 < |s| then s[k + 1] else null
  }

  /** s lists the nodes from s[0] to the end. */
  ghost predicate Chain(s: seq<SlistNode>)
    reads s
  {
    && |s| > 0
    && forall i :: 0 <= i < |s| ==> s[i].next == NextOf(s, i)
  }

  // ---------------------------------------------------------------- what a chain determines

  /** A null-terminated chain cannot pass the same node twice. */
  lemma {:induction false} ChainNeverRepeats(s: seq<SlistNode>, i: nat, j: nat)
    requires Chain(s) && i < j < |s|
    ensures s[i] != s[j]
    decreases |s| - j
  {
    if j + 1 < |s| {
      ChainNeverRepeats(s, i + 1, j + 1);
    }
    assert s[i].next == NextOf(s, i) && s[j].next == NextOf(s, j);
  }

  /** The links fix the sequence. */
  lemma {:induction false} ChainUnique(s: seq<SlistNode>, t: seq<SlistNode>)
    requires Chain(s) && Chain(t) && s[0] == t[0]
    ensures s == t
    decreases |s|
  {
    assert s[0].next == NextOf(s, 0) && t[0].next == NextOf(t, 0);
    if |s| > 1 {
      ChainFrom(s, 1);
      ChainFrom(t, 1);
      ChainUnique(s[1..], t[1..]);
      assert s == [s[0]] + s[1..] && t == [t[0]] + t[1..];
    }
  }

  lemma ChainFrom(s: seq<SlistNode>, k: nat)
    requires Chain(s) && k < |s|
    ensures Chain(s[k..])
  {
    forall i | 0 <= i < |s[k..]| ensures s[k..][i].next == NextOf(s[k..], i) {
      assert s[k + i].next == NextOf(s, k + i);
    }
  }

  lemma ChainFacts(s: seq<SlistNode>)
    requires Chain(s)
    ensures forall i, j :: 0 <= i < j < |s| ==> s[i] != s[j]
  {
    forall i, j | 0 <= i < j < |s| ensures s[i] != s[j] {
      ChainNeverRepeats(s, i, j);
    }
  }

  // ---------------------------------------------------------------- operations

  method Init(l: SlistNode)
    modifies l
    ensures Chain([l])
  {
    l.next := null;
  }

  method Append(l: SlistNode, n: SlistNode, ghost s: seq<SlistNode>)
    requires Chain(s) && s[0] == l && n !in s
    modifies s[|s| - 1], n
    ensures Chain(s + [n])
  {
    ChainFacts(s);
    var node := l;
    ghost var i := 0;
    while node.next != null
      invariant 0 <= i < |s| && node == s[i]
      decreases |s| - i
    {
      node := node.next;
      i := i + 1;
    }
    node.next := n;
    n.next := null;
  }

  /** Insertion directly behind any node of the list. */
  method Insert(l: SlistNode, n: SlistNode, ghost s: seq<SlistNode>, ghost k: nat)
    requires Chain(s) && k < |s| && s[k] == l && n !in s
    modifies l, n
    ensures Chain(s[..k + 1] + [n] + s[k + 1..])
  {
    ChainFacts(s);
    n.next := l.next;
    l.next := n;
    ghost var r := s[..k + 1] + [n] + s[k + 1..];
    forall i | 0 <= i < |r| ensures r[i].next == NextOf(r, i) {
      if i <= k { assert r[i] == s[i]; } else if i > k + 1 { assert r[i] == s[i - 1]; }
    }
  }

  method Len(l: SlistNode, ghost s: seq<SlistNode>) returns (len: nat)
    requires Chain(s) && s[0] == l
    ensures len == (|s| - 1) % 0x1_0000_0000
  {
    len := 0;
    var list := l.next;
    ghost var i := 0;
    while list != null
      invariant 0 <= i < |s| && list == NextOf(s, i) && len == i % COUNTER
      decreases |s| - i
    {
      NextRemainder(i, COUNTER);
      list := list.next;
      len := (len + 1) % COUNTER;
      i := i + 1;
    }
  }

  function Without(s: seq<SlistNode>, k: nat): (r: seq<SlistNode>)
    requires k < |s|
    ensures |r| == |s| - 1
    ensures forall i :: 0 <= i < k ==> r[i] == s[i]
    ensures forall i :: k <= i < |r| ==> r[i] == s[i + 1]
  {
    s[..k] + s[k + 1..]
  }

  method Pop(l: SlistNode, ghost s: seq<SlistNode>) returns (node: SlistNode?)
    requires Chain(s) && s[0] == l
    modifies l, l.next
    ensures |s| == 1 ==> node == null && Chain(s)
    ensures |s| > 1 ==> node == s[1] && Chain([s[1]]) && Chain(Without(s, 1))
  {
    ChainFacts(s);
    node := l.next;
    if node != null {
      l.next := node.next;
      node.next := null;
      ghost var r := Without(s, 1);
      forall i | 0 <= i < |r| ensures r[i].next == NextOf(r, i) {
      }
    }
  }

  /** The position of n behind the head, or |s| when it is not there. */
  function Behind(s: seq<SlistNode>, n: SlistNode): (k: nat)
    requires |s| > 0
    ensures 0 < k <= |s| && (k < |s| ==> s[k] == n)
    ensures forall i :: 0 < i < k ==> s[i] != n
  {
    if |s| == 1 then 1
    else if s[1] == n then 1
    else 1 + Behind(s[1..], n)
  }

  /** Removal of a node wherever it is; a node that is not behind the head changes nothing. */
  method Remove(l: SlistNode, n: SlistNode, ghost s: seq<SlistNode>) returns (r: SlistNode)
    requires Chain(s) && s[0] == l
    modifies s
    ensures r == l
    ensures Behind(s, n) == |s| ==> unchanged(s)
    ensures Behind(s, n) < |s| ==> Chain(Without(s, Behind(s, n))) && Chain([n])
  {
    ChainFacts(s);
    hide Behind, Without;
    ghost var k := Behind(s, n);
    var node := l;
    ghost var i := 0;
    while node.next != null && node.next != n
      invariant 0 <= i < |s| && node == s[i] && forall j :: 0 < j <= i ==> s[j] != n
      decreases |s| - i
    {
      node := node.next;
      i := i + 1;
    }
    if node.next != null {
      node.next := node.next.next;
      n.next := null;
      ghost var t := Without(s, i + 1);
      forall j | 0 <= j < |t| ensures t[j].next == NextOf(t, j) {
      }
    }
    r := l;
  }

  method Tail(l: SlistNode, ghost s: seq<SlistNode>) returns (last: SlistNode)
    requires Chain(s) && s[0] == l
    ensures last == s[|s| - 1] && last.next == null
  {
    last := l;
    ghost var i := 0;
    while last.next != null
      invariant 0 <= i < |s| && last == s[i]
      decreases |s| - i
    {
      last := last.next;
      i := i + 1;
    }
  }
}
