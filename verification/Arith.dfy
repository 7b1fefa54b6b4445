/**
 Integer powers and congruences, stated with explicit arguments so that each
 use names the terms it is about.
 */
module Arith {

  function Pow(b: int, e: nat): int
    decreases e
  {
    if e == 0 then 1 else b * Pow(b, e - 1)
  }

  /** The remainder of `a` by `m`, as repeated addition and subtraction. */
  function Rem(a: int, m: int): int
    requires m > 0
    decreases if a < 0 then m - a else a
  {
    if a < 0 then Rem(a + m, m) else if a < m then a else Rem(a - m, m)
  }

  ghost predicate Cong(a: int, b: int, m: int)
    requires m > 0
  {
    Rem(a, m) == Rem(b, m)
  }

  lemma MulMono(a: int, b: int, c: int)
    requires 0 <= c && a <= b
    ensures a * c <= b * c
  {
    assert (b - a) * c >= 0;
  }

  lemma MulStrict(a: int, b: int, c: int)
    requires 0 < c && a < b
    ensures a * c < b * c
  {
    assert (b - a) * c > 0;
  }

  lemma MulAssoc(a: int, b: int, c: int)
    ensures (a * b) * c == a * (b * c)
  {
  }

  lemma MulSwap(a: int, b: int, x: int, y: int)
    ensures (a * b) * (x * y) == (a * x) * (b * y)
  {
  }

  /** Quotient and remainder are determined by their defining equation. */
  lemma DivModUnique(x: int, q: int, r: int, m: int)
    requires m > 0 && 0 <= r < m && x == q * m + r
    ensures x / m == q && x % m == r
  {
    var q', r' := x / m, x % m;
    assert x == q' * m + r';
    assert (q - q') * m == r' - r;
    if q - q' >= 1 {
      MulMono(1, q - q', m);
    } else if q - q' <= -1 {
      MulMono(q - q', -1, m);
    }
  }

  lemma RemRange(a: int, m: int)
    requires m > 0
    ensures 0 <= Rem(a, m) < m && Rem(Rem(a, m), m) == Rem(a, m)
  {
    RemIsMod(a, m);
  }

  lemma {:induction false} RemIsMod(a: int, m: int)
    requires m > 0
    ensures Rem(a, m) == a % m
    decreases if a < 0 then m - a else a
  {
    assert a == (a / m) * m + a % m;
    if a < 0 {
      RemIsMod(a + m, m);
      assert a + m == (a / m + 1) * m + a % m;
      DivModUnique(a + m, a / m + 1, a % m, m);
    } else if a < m {
      DivModUnique(a, 0, a, m);
    } else {
      RemIsMod(a - m, m);
      assert a - m == (a / m - 1) * m + a % m;
      DivModUnique(a - m, a / m - 1, a % m, m);
    }
  }

  lemma CongIffMod(a: int, b: int, m: int)
    requires m > 0
    ensures Cong(a, b, m) <==> a % m == b % m
  {
    RemIsMod(a, m);
    RemIsMod(b, m);
  }

  lemma CongIntro(a: int, b: int, k: int, m: int)
    requires m > 0 && a == b + k * m
    ensures Cong(a, b, m)
  {
    assert b == (b / m) * m + b % m;
    assert a == (b / m + k) * m + b % m;
    DivModUnique(a, b / m + k, b % m, m);
    CongIffMod(a, b, m);
  }

  lemma CongElim(a: int, b: int, m: int) returns (k: int)
    requires m > 0 && Cong(a, b, m)
    ensures a == b + k * m
  {
    CongIffMod(a, b, m);
    k := a / m - b / m;
    assert a == (a / m) * m + a % m;
    assert b == (b / m) * m + b % m;
    assert k * m == (a / m) * m - (b / m) * m;
  }

  lemma CongMod(a: int, m: int)
    requires m > 0
    ensures Cong(a % m, a, m) && 0 <= a % m < m
  {
    assert a == (a / m) * m + a % m;
    CongIntro(a % m, a, -(a / m), m);
  }

  lemma CongAdd(a: int, b: int, c: int, d: int, m: int)
    requires m > 0 && Cong(a, b, m) && Cong(c, d, m)
    ensures Cong(a + c, b + d, m) && Cong(a - c, b - d, m)
  {
    var j := CongElim(a, b, m);
    var k := CongElim(c, d, m);
    assert (j + k) * m == j * m + k * m;
    assert (j - k) * m == j * m - k * m;
    CongIntro(a + c, b + d, j + k, m);
    CongIntro(a - c, b - d, j - k, m);
  }

  lemma CongMul(a: int, b: int, c: int, d: int, m: int)
    requires m > 0 && Cong(a, b, m) && Cong(c, d, m)
    ensures Cong(a * c, b * d, m)
  {
    var j := CongElim(a, b, m);
    var k := CongElim(c, d, m);
    calc {
      a * c;
      (b + j * m) * (d + k * m);
      b * d + b * (k * m) + (j * m) * d + (j * m) * (k * m);
      b * d + (b * k + j * d + j * m * k) * m;
    }
    CongIntro(a * c, b * d, b * k + j * d + j * m * k, m);
  }

  /** Residues in the canonical range are equal as soon as they are congruent. */
  lemma CongSmall(a: int, b: int, m: int)
    requires m > 0 && Cong(a, b, m) && 0 <= a < m && 0 <= b < m
    ensures a == b
  {
    CongIffMod(a, b, m);
    DivModUnique(a, 0, a, m);
    DivModUnique(b, 0, b, m);
  }

  lemma SmallMod(a: int, m: int)
    requires 0 <= a < m
    ensures a % m == a
  {
    DivModUnique(a, 0, a, m);
  }

  /** A congruence modulo `m` holds modulo every divisor of `m`. */
  lemma CongDivisor(a: int, b: int, d: int, q: int)
    requires d > 0 && q > 0 && d * q > 0 && Cong(a, b, d * q)
    ensures Cong(a, b, d)
  {
    var k := CongElim(a, b, d * q);
    assert k * (d * q) == (k * q) * d;
    CongIntro(a, b, k * q, d);
  }

  lemma {:induction false} PowAdd(b: int, e: nat, f: nat)
    ensures Pow(b, e + f) == Pow(b, e) * Pow(b, f)
    decreases e
  {
    if e > 0 {
      PowAdd(b, e - 1, f);
      assert Pow(b, e + f) == b * Pow(b, e - 1 + f);
      assert b * (Pow(b, e - 1) * Pow(b, f)) == (b * Pow(b, e - 1)) * Pow(b, f);
    }
  }

  lemma {:induction false} PowPos(b: int, e: nat)
    requires b > 0
    ensures Pow(b, e) > 0
  {
    if e > 0 {
      PowPos(b, e - 1);
      MulStrict(0, b, Pow(b, e - 1));
    }
  }

  lemma {:induction false} PowProduct(a: int, b: int, e: nat)
    ensures Pow(a * b, e) == Pow(a, e) * Pow(b, e)
  {
    if e > 0 {
      PowProduct(a, b, e - 1);
      MulSwap(a, b, Pow(a, e - 1), Pow(b, e - 1));
    }
  }

  lemma {:induction false} PowPow(b: int, e: nat, f: nat)
    ensures e * f >= 0 && Pow(Pow(b, e), f) == Pow(b, e * f)
    decreases f
  {
    if f > 0 {
      PowPow(b, e, f - 1);
      assert e * f == e + e * (f - 1);
      PowAdd(b, e, e * (f - 1));
    }
  }

  lemma {:induction false} PowOne(e: nat)
    ensures Pow(1, e) == 1
  {
    if e > 0 { PowOne(e - 1); }
  }

  lemma {:induction false} PowCong(a: int, b: int, e: nat, m: int)
    requires m > 0 && Cong(a, b, m)
    ensures Cong(Pow(a, e), Pow(b, e), m)
  {
    if e > 0 {
      PowCong(a, b, e - 1, m);
      CongMul(a, b, Pow(a, e - 1), Pow(b, e - 1), m);
    }
  }

  lemma {:induction false} PowMono(b: int, e: nat, f: nat)
    requires b >= 1 && e <= f
    ensures 0 < Pow(b, e) <= Pow(b, f)
  {
    PowPos(b, e);
    if e < f {
      PowMono(b, e, f - 1);
      MulMono(1, b, Pow(b, f - 1));
    }
  }
}
