/** The software atomics and the retry loops built on them, as code on shared cells. Each primitive runs with
    interrupts off; between two primitives other contexts may write the cell. */
module Atomic {
  import RefCount

  class Cell {
    var value: nat

    constructor (v: nat)
      ensures value == v
    {
      value := v;
    }

    /** Swaps in `desired` if the cell holds `expected`; otherwise hands back what it holds. */
    method CompareExchangeStrong(expected: nat, desired: nat) returns (done: bool, seen: nat)
      modifies this
      ensures done == (old(value) == expected) && seen == old(value)
      ensures value == if done then desired else old(value)
    {
      if value != expected {
        done, seen := false, value;
      } else {
        done, seen := true, expected;
        value := desired;
      }
    }

    method Sub(v: nat) returns (before: nat)
      modifies this
      ensures before == old(value) && value == RefCount.Wrap(old(value) - v)
    {
      before := value;
      value := RefCount.Wrap(value - v);
    }

    method DecAndTest() returns (zero: bool)
      modifies this
      ensures value == RefCount.Wrap(old(value) - 1) && zero == (old(value) == 1)
    {
      var before := Sub(1);
      zero := before == 1;
    }

    /** Before the i-th swap other contexts do to the cell whatever `others(i)` does to its value. The addition is
        applied to the value the cell held at the moment of the swap, or `u` was what the cell held when the loop
        last looked, and nothing is added. The loop ends because some turn, `quiet`, is undisturbed. */
    method FetchAddUnless(a: nat, u: nat, others: nat -> (nat -> nat), ghost quiet: nat) returns (c: nat, ghost turns: nat)
      requires forall v: nat :: others(quiet)(v) == v
      modifies this
      ensures turns <= quiet && c == Held(old(value), others, turns)
      ensures c == u ==> value == c
      ensures c != u ==> Held(old(value), others, turns + 1) == c && value == RefCount.Wrap(c + a)
      ensures forall i :: 0 <= i < turns ==> Disturbed(old(value), others, i)
    {
      hide RefCount.Wrap, Held;
      ghost var first := value;
      c := value;
      turns := 0;
      var i := 0;
      FirstHeld(first, others);
      while c != u
        invariant c == value == Held(first, others, i) && turns == i <= quiet
        invariant forall j :: 0 <= j < i ==> Disturbed(first, others, j)
        decreases quiet - i
      {
        NextHeld(first, others, i);
        value := others(i)(value);
        var done;
        done, c := CompareExchangeStrong(c, RefCount.Wrap(c + a));
        if done {
          return;
        }
        i, turns := i + 1, i + 1;
      }
    }

    method IncNotZero(others: nat -> (nat -> nat), ghost quiet: nat) returns (taken: bool, ghost turns: nat)
      requires forall v: nat :: others(quiet)(v) == v
      modifies this
      ensures turns <= quiet && taken == (Held(old(value), others, turns) != 0)
      ensures forall i :: 0 <= i < turns ==> Disturbed(old(value), others, i)
      ensures !taken ==> value == 0
      ensures taken ==> Held(old(value), others, turns + 1) == Held(old(value), others, turns)
      ensures taken ==> value == RefCount.Wrap(Held(old(value), others, turns + 1) + 1)
    {
      var c;
      c, turns := FetchAddUnless(1, 0, others, quiet);
      taken := c != 0;
    }
  }

  /** What the cell holds after other contexts have been at it i times. */
  function Held(first: nat, others: nat -> (nat -> nat), i: nat): nat {
    if i == 0 then first else others(i - 1)(Held(first, others, i - 1))
  }

  /** The i-th turn comes to nothing: other contexts have changed the cell since the loop last looked. */
  ghost predicate Disturbed(first: nat, others: nat -> (nat -> nat), i: nat) {
    Held(first, others, i + 1) != Held(first, others, i)
  }

  lemma FirstHeld(first: nat, others: nat -> (nat -> nat))
    ensures Held(first, others, 0) == first
  {
  }

  lemma NextHeld(first: nat, others: nat -> (nat -> nat), i: nat)
    ensures Held(first, others, i + 1) == others(i)(Held(first, others, i))
  {
  }
}
