/**
 The field of residues modulo `p` that the derived type's `*` and `square`
 compute in, with canonical representatives in `[0, p)`.
 */
module Residue {
  import opened Arith
  import opened NumberTheory

  function Mul(a: int, b: int, p: int): (r: int)
    requires p > 0
    ensures 0 <= r < p && Cong(r, a * b, p)
  {
    RemRange(a * b, p);
    Rem(a * b, p)
  }

  /** `a` squared `n` times. */
  function Sq(a: int, n: nat, p: int): (r: int)
    requires p > 0
  {
    if n == 0 then a else Mul(Sq(a, n - 1, p), Sq(a, n - 1, p), p)
  }

  lemma MulCong(a: int, a': int, b: int, b': int, p: int)
    requires p > 0 && Cong(a, a', p) && Cong(b, b', p)
    ensures Mul(a, b, p) == Mul(a', b', p)
  {
    CongMul(a, a', b, b', p);
  }

  lemma MulIsCanonical(r: int, a: int, b: int, p: int)
    requires 0 <= r < p && Cong(r, a * b, p)
    ensures Mul(a, b, p) == r
  {
    CongSmall(Mul(a, b, p), r, p);
  }

  lemma MulComm(a: int, b: int, p: int)
    requires p > 0
    ensures Mul(a, b, p) == Mul(b, a, p)
  {
    assert a * b == b * a;
  }

  lemma MulAssociative(a: int, b: int, c: int, p: int)
    requires p > 0
    ensures Mul(Mul(a, b, p), c, p) == Mul(a, Mul(b, c, p), p)
  {
    CongMul(Mul(a, b, p), a * b, c, c, p);
    CongMul(a, a, Mul(b, c, p), b * c, p);
    MulAssoc(a, b, c);
  }

  /** Four factors may be regrouped. */
  lemma MulRegroup(a: int, b: int, c: int, d: int, p: int)
    requires p > 0
    ensures Mul(Mul(a, b, p), Mul(c, d, p), p) == Mul(Mul(a, c, p), Mul(b, d, p), p)
  {
    CongMul(Mul(a, b, p), a * b, Mul(c, d, p), c * d, p);
    CongMul(Mul(a, c, p), a * c, Mul(b, d, p), b * d, p);
    MulSwap(a, b, c, d);
  }

  lemma MulOne(a: int, p: int)
    requires 0 <= a < p
    ensures Mul(a, 1, p) == a && Mul(1, a, p) == a
  {
  }

  lemma MulZero(a: int, p: int)
    requires p > 0
    ensures Mul(a, 0, p) == 0 && Mul(0, a, p) == 0
  {
  }

  lemma MinusOneSquared(p: int)
    requires p > 1
    ensures Mul(p - 1, p - 1, p) == 1
  {
    assert (p - 1) * (p - 1) == 1 + (p - 2) * p;
    CongIntro((p - 1) * (p - 1), 1, p - 2, p);
    MulIsCanonical(1, p - 1, p - 1, p);
  }

  lemma {:induction false} SqRange(a: int, n: nat, p: int)
    requires 0 <= a < p
    ensures 0 <= Sq(a, n, p) < p
  {
  }

  lemma {:induction false} SqAdd(a: int, m: nat, n: nat, p: int)
    requires p > 0
    ensures Sq(Sq(a, m, p), n, p) == Sq(a, m + n, p)
    decreases n
  {
    if n > 0 {
      SqAdd(a, m, n - 1, p);
      assert m + n - 1 == m + (n - 1);
    }
  }

  lemma {:induction false} SqMul(a: int, b: int, n: nat, p: int)
    requires p > 0
    ensures Sq(Mul(a, b, p), n, p) == Mul(Sq(a, n, p), Sq(b, n, p), p)
  {
    if n > 0 {
      SqMul(a, b, n - 1, p);
      var u, v := Sq(a, n - 1, p), Sq(b, n - 1, p);
      MulRegroup(u, v, u, v, p);
    }
  }

  /** Once a value is `1` or `-1`, squaring it keeps it there. */
  lemma {:induction false} SqOfUnit(a: int, n: nat, p: int)
    requires p > 1 && (a == 1 || a == p - 1)
    ensures Sq(a, n, p) == 1 || (n == 0 && Sq(a, n, p) == p - 1)
    ensures Mul(Sq(a, n, p), Sq(a, n, p), p) == 1
  {
    MinusOneSquared(p);
    MulOne(1, p);
    if n > 0 { SqOfUnit(a, n - 1, p); }
  }

  /** Squaring `n` times is raising to the power `2^n`. */
  lemma {:induction false} SqIsPow(a: int, e: nat, n: nat, p: int)
    requires p > 0
    ensures e * Pow(2, n) >= 0 && Sq(Rem(Pow(a, e), p), n, p) == Rem(Pow(a, e * Pow(2, n)), p)
  {
    PowPos(2, n);
    assert e * Pow(2, n) >= 0;
    if n == 0 {
      assert e * Pow(2, 0) == e;
    } else {
      SqIsPow(a, e, n - 1, p);
      var f := e * Pow(2, n - 1);
      assert e * Pow(2, n) == f + f by { assert Pow(2, n) == 2 * Pow(2, n - 1); }
      PowAdd(a, f, f);
      RemRange(Pow(a, f), p);
      MulCong(Rem(Pow(a, f), p), Pow(a, f), Rem(Pow(a, f), p), Pow(a, f), p);
    }
  }

  /** The only square roots of 1 modulo a prime. */
  lemma RootsOfOne(b: int, p: int)
    requires Prime(p) && 0 <= b < p && Mul(b, b, p) == 1
    ensures b == 1 || b == p - 1
  {
    SameSquare(b, 1, p);
    if Cong(b, 1, p) {
      CongSmall(b, 1, p);
    } else {
      CongIntro(p - 1, -1, 1, p);
      CongSmall(b, p - 1, p);
    }
  }
}
