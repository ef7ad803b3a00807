/** Polynomials over GF(2): the mathematics that a cyclic redundancy check computes in.
    Element i of a sequence is the coefficient of x^i; coefficients past the end are zero,
    so two sequences of different lengths may stand for the same polynomial (`Same`). */
module Gf2 {

  type Poly = seq<bool>

  predicate Coef(p: Poly, i: nat) {
    i < |p| && p[i]
  }

  ghost predicate Same(p: Poly, q: Poly) {
    forall i: nat :: Coef(p, i) == Coef(q, i)
  }

  /** The degree of p is less than n (the zero polynomial is below every n). */
  ghost predicate DegreeBelow(p: Poly, n: nat) {
    forall i: nat :: n <= i ==> !Coef(p, i)
  }

  function Zeros(n: nat): (z: Poly)
    ensures |z| == n && forall i: nat :: !Coef(z, i)
  {
    seq(n, _ => false)
  }

  function Add(p: Poly, q: Poly): (r: Poly)
    ensures forall i: nat {:trigger Coef(r, i)} :: Coef(r, i) == (Coef(p, i) != Coef(q, i))
  {
    seq(if |p| < |q| then |q| else |p|, i requires 0 <= i => Coef(p, i) != Coef(q, i))
  }

  /** p * x^k */
  function Shift(p: Poly, k: nat): (r: Poly)
    ensures forall i: nat {:trigger Coef(r, i)} :: Coef(r, i) == (k <= i && Coef(p, i - k))
  {
    Zeros(k) + p
  }

  /** Schoolbook multiplication: one shifted copy of b for every coefficient of a. */
  function Mul(a: Poly, b: Poly): Poly {
    if a == [] then [] else Add(if a[0] then b else [], Shift(Mul(a[1..], b), 1))
  }

  /** r is what is left of p after division by g. */
  ghost predicate IsRemainder(p: Poly, g: Poly, r: Poly) {
    |g| > 0 && DegreeBelow(r, |g| - 1) && exists q: Poly :: Same(p, Add(Mul(q, g), r))
  }

  lemma CoefTail(a: Poly, i: nat)
    requires a != []
    ensures Coef(a[1..], i) == Coef(a, i + 1)
  {
  }

  lemma {:induction false} MulZero(a: Poly, g: Poly)
    requires forall i: nat :: !Coef(a, i)
    ensures forall i: nat :: !Coef(Mul(a, g), i)
  {
    if a != [] {
      forall i: nat ensures !Coef(a[1..], i) { CoefTail(a, i); }
      MulZero(a[1..], g);
      assert !Coef(a, 0);
    }
  }

  lemma {:induction false} MulAdd(a: Poly, b: Poly, g: Poly)
    ensures Same(Mul(Add(a, b), g), Add(Mul(a, g), Mul(b, g)))
  {
    if a == [] {
      assert Add(a, b) == b;
    } else if b == [] {
      assert Add(a, b) == a;
    } else {
      MulAdd(a[1..], b[1..], g);
      AddHead(a, b);
      MulAddStep(a, b, g, Mul(a[1..], g), Mul(b[1..], g), Mul(Add(a[1..], b[1..]), g));
    }
  }

  lemma AddHead(a: Poly, b: Poly)
    requires a != [] && b != []
    ensures Add(a, b) != [] && Add(a, b)[1..] == Add(a[1..], b[1..]) && Add(a, b)[0] == (a[0] != b[0])
  {
  }

  lemma MulAddStep(a: Poly, b: Poly, g: Poly, u: Poly, v: Poly, w: Poly)
    requires a != [] && b != [] && Add(a, b) != [] && Add(a, b)[0] == (a[0] != b[0])
    requires u == Mul(a[1..], g) && v == Mul(b[1..], g) && w == Mul(Add(a, b)[1..], g) && Same(w, Add(u, v))
    ensures Same(Mul(Add(a, b), g), Add(Mul(a, g), Mul(b, g)))
  {
    var s := Add(a, b);
    assert Mul(s, g) == Add(if s[0] then g else [], Shift(w, 1));
    assert Mul(a, g) == Add(if a[0] then g else [], Shift(u, 1));
    assert Mul(b, g) == Add(if b[0] then g else [], Shift(v, 1));
    hide Mul, Add, Shift;
    forall i: nat ensures Coef(Mul(s, g), i) == Coef(Add(Mul(a, g), Mul(b, g)), i) {
      if i > 0 { assert Coef(w, i - 1) == Coef(Add(u, v), i - 1); }
    }
  }

  lemma {:induction false} MulShift(a: Poly, k: nat, g: Poly)
    ensures Same(Mul(Shift(a, k), g), Shift(Mul(a, g), k))
  {
    if k == 0 {
      assert Shift(a, 0) == a;
    } else {
      var s := Shift(a, k);
      assert s[1..] == Shift(a, k - 1);
      assert !s[0];
      var low := Mul(s[1..], g);
      assert Same(low, Shift(Mul(a, g), k - 1)) by { MulShift(a, k - 1, g); }
      forall i: nat ensures Coef(Mul(s, g), i) == Coef(Shift(Mul(a, g), k), i) {
        assert Coef(Mul(s, g), i) == Coef(Shift(low, 1), i);
        if i > 0 {
          assert Coef(low, i - 1) == Coef(Shift(Mul(a, g), k - 1), i - 1);
        }
      }
    }
  }

  /** The top coefficient of a product with a polynomial of degree n sits n places higher. */
  lemma {:induction false} MulTop(q: Poly, g: Poly, t: nat)
    requires |g| > 0 && g[|g| - 1]
    requires Coef(q, t) && DegreeBelow(q, t + 1)
    ensures Coef(Mul(q, g), t + |g| - 1)
    ensures DegreeBelow(Mul(q, g), t + |g|)
  {
    var tail := q[1..];
    forall i: nat ensures Coef(tail, i) == Coef(q, i + 1) { CoefTail(q, i); }
    if t == 0 {
      MulZero(tail, g);
    } else {
      MulTop(tail, g, t - 1);
      assert !Coef(if q[0] then g else [], t + |g| - 1);
    }
  }

  lemma {:induction false} HighestCoef(q: Poly, n: nat) returns (t: nat)
    requires DegreeBelow(q, n)
    requires exists i: nat :: Coef(q, i)
    ensures Coef(q, t) && DegreeBelow(q, t + 1)
  {
    var i: nat :| Coef(q, i);
    assert i < n;
    if Coef(q, n - 1) {
      t := n - 1;
    } else {
      t := HighestCoef(q, n - 1);
    }
  }

  /** Division is unambiguous: a polynomial has only one remainder. */
  lemma RemainderUnique(p: Poly, g: Poly, r1: Poly, r2: Poly)
    requires |g| > 0 && g[|g| - 1]
    requires IsRemainder(p, g, r1) && IsRemainder(p, g, r2)
    ensures Same(r1, r2)
  {
    var q1: Poly :| Same(p, Add(Mul(q1, g), r1));
    var q2: Poly :| Same(p, Add(Mul(q2, g), r2));
    var q := Add(q1, q2);
    MulAdd(q1, q2, g);
    forall i: nat ensures Coef(Mul(q, g), i) == (Coef(r1, i) != Coef(r2, i)) {
      assert Coef(p, i) == Coef(Add(Mul(q1, g), r1), i) == Coef(Add(Mul(q2, g), r2), i);
    }
    if exists i: nat :: Coef(q, i) {
      var t := HighestCoef(q, |q|);
      MulTop(q, g, t);
      assert false;
    } else {
      MulZero(q, g);
    }
  }

  lemma MulUnit(g: Poly)
    ensures Same(Mul([true], g), g) && Mul([], g) == []
  {
  }

  /** If d = t1 + r is a division and (r + in) x^8 = t2 + w is one, then (d + in) x^8 = t + w is one,
      with t = t1 x^8 + t2. */
  lemma NextDividend(next: Poly, d: Poly, input: Poly, t1: Poly, r: Poly, t1x8: Poly, t2: Poly, t: Poly, w: Poly)
    requires Same(next, Add(Shift(d, 8), Shift(input, 8)))
    requires Same(d, Add(t1, r))
    requires Same(Shift(Add(r, input), 8), Add(t2, w))
    requires Same(t1x8, Shift(t1, 8)) && Same(t, Add(t1x8, t2))
    ensures Same(next, Add(t, w))
  {
    forall i: nat ensures Coef(next, i) == Coef(Add(t, w), i) {
      assert Coef(Shift(Add(r, input), 8), i) == Coef(Add(t2, w), i);
      if i >= 8 {
        assert Coef(d, i - 8) == Coef(Add(t1, r), i - 8);
      }
    }
  }
}
