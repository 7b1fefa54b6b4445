/**
 The facts about a prime modulus that the square root and the inversion of the
 derived field rest on: inverses, Wilson, Euler's criterion and Fermat.  All
 four come from one pairing argument over the set of non-zero residues.
 */
module NumberTheory {
  import opened Arith

  ghost predicate Divides(d: int, n: int)
    requires d > 0
  {
    n % d == 0
  }

  ghost predicate Prime(p: int)
  {
    p >= 2 && forall d :: 2 <= d < p ==> !Divides(d, p)
  }

  ghost predicate Root(y: int, a: int, p: int)
    requires p > 0
  {
    Cong(y * y, a, p)
  }

  ghost predicate IsSquare(a: int, p: int)
    requires p > 0
  {
    exists y :: 0 <= y < p && Root(y, a, p)
  }

  // ---- Inverses -----------------------------------------------------------

  /** Euclid's recursion: `p = q x + r` turns an inverse of `r` into one of `x`. */
  lemma {:induction false} InverseExists(x: int, p: int) returns (y: int)
    requires Prime(p) && 1 <= x < p
    ensures 1 <= y < p && Cong(x * y, 1, p)
    decreases x
  {
    if x == 1 {
      y := 1;
    } else {
      assert !Divides(x, p);
      var i := InverseExists(p % x, p);
      InverseStep(x, p % x, i, p);
      y := (-(p / x) * i) % p;
    }
  }

  lemma EuclidProduct(x: int, q: int, r: int, i: int, p: int)
    requires p > 0 && p == q * x + r
    ensures Cong(x * (-q * i), r * i, p)
  {
    assert -q * x == r - p;
    calc {
      x * (-q * i);
      (-q * x) * i;
      (r - p) * i;
      r * i + (-i) * p;
    }
    CongIntro(x * (-q * i), r * i, -i, p);
  }

  lemma InverseStep(x: int, r: int, i: int, p: int)
    requires 2 <= x < p && r == p % x && Cong(r * i, 1, p)
    ensures var y := (-(p / x) * i) % p; 1 <= y < p && Cong(x * y, 1, p)
  {
    var q := p / x;
    EuclidProduct(x, q, r, i, p);
    InverseRange(x, -q * i, p);
  }

  lemma InverseRange(x: int, z: int, p: int)
    requires p >= 2 && Cong(x * z, 1, p)
    ensures 1 <= z % p < p && Cong(x * (z % p), 1, p)
  {
    var y := z % p;
    CongMod(z, p);
    CongMul(x, x, y, z, p);
    assert y == 0 ==> x * y == 0;
    assert Rem(1, p) == 1 && Rem(0, p) == 0;
  }

  lemma ModInRange(c: int, p: int)
    requires p > 0 && !Cong(c, 0, p)
    ensures 1 <= c % p < p && Cong(c % p, c, p)
  {
    CongMod(c, p);
    SmallMod(0, p);
  }

  /** A factor that is not zero modulo the prime cancels. */
  lemma Cancel(a: int, b: int, c: int, p: int)
    requires Prime(p) && !Cong(c, 0, p) && Cong(a * c, b * c, p)
    ensures Cong(a, b, p)
  {
    ModInRange(c, p);
    var i := InverseExists(c % p, p);
    CongMul(c % p, c, i, i, p);
    CongMul(a, a, c * i, 1, p);
    CongMul(b, b, c * i, 1, p);
    CongMul(a * c, b * c, i, i, p);
    MulAssoc(a, c, i);
    MulAssoc(b, c, i);
  }

  lemma NoZeroDivisors(a: int, b: int, p: int)
    requires Prime(p) && Cong(a * b, 0, p)
    ensures Cong(a, 0, p) || Cong(b, 0, p)
  {
    if !Cong(b, 0, p) {
      assert 0 * b == 0;
      Cancel(a, 0, b, p);
    }
  }

  /** Square roots modulo a prime come in pairs `x`, `-x`. */
  lemma SameSquare(x: int, y: int, p: int)
    requires Prime(p) && Cong(x * x, y * y, p)
    ensures Cong(x, y, p) || Cong(x, -y, p)
  {
    CongAdd(x * x, y * y, y * y, y * y, p);
    assert (x - y) * (x + y) == x * x - y * y;
    NoZeroDivisors(x - y, x + y, p);
    if Cong(x - y, 0, p) {
      CongAdd(x - y, 0, y, y, p);
    } else {
      CongAdd(x + y, 0, y, y, p);
    }
  }

  // ---- Products over sets -------------------------------------------------

  lemma Member(s: set<int>)
    ensures s != {} ==> exists x :: x in s
  {
    if !exists x :: x in s { assert s == {}; }
  }

  ghost function Pick(s: set<int>): (x: int)
    requires s != {}
    ensures x in s
  {
    Member(s);
    var x :| x in s; x
  }

  ghost function Prod(s: set<int>): int
  {
    if s == {} then 1 else var x := Pick(s); x * Prod(s - {x})
  }

  lemma {:induction false} ProdRemove(s: set<int>, x: int)
    requires x in s
    ensures Prod(s) == x * Prod(s - {x})
    decreases |s|
  {
    var y := Pick(s);
    if x != y {
      ProdRemove(s - {y}, x);
      ProdRemove(s - {x}, y);
      assert s - {y} - {x} == s - {x} - {y};
      var r := Prod(s - {x} - {y});
      assert y * (x * r) == x * (y * r);
    }
  }

  lemma ProdRemoveTwo(s: set<int>, x: int, y: int)
    requires x in s && y in s && x != y
    ensures Prod(s) == x * (y * Prod(s - {x, y})) && |s - {x, y}| == |s| - 2
  {
    assert s - {x} - {y} == s - {x, y};
    ProdRemove(s, x);
    ProdRemove(s - {x}, y);
  }

  ghost predicate InRange(x: int, p: int)
  {
    1 <= x < p
  }

  ghost function NonZero(p: int): set<int>
  {
    set x {:trigger InRange(x, p)} | 1 <= x < p && InRange(x, p)
  }

  lemma {:induction false} NonZeroSize(p: int)
    requires p >= 1
    ensures |NonZero(p)| == p - 1
  {
    if p == 1 {
      assert NonZero(1) == {};
    } else {
      NonZeroSize(p - 1);
      assert NonZero(p) == NonZero(p - 1) + {p - 1};
    }
  }

  // ---- The pairing --------------------------------------------------------

  lemma PartnerExists(x: int, g: int, p: int)
    requires Prime(p) && 1 <= x < p && !Cong(g, 0, p)
    ensures exists y :: 1 <= y < p && Cong(x * y, g, p)
  {
    var i := InverseExists(x, p);
    PartnerStep(x, g, i, p);
  }

  /** The residue that multiplies with `x` to `g`. */
  ghost function Partner(x: int, g: int, p: int): (y: int)
    requires Prime(p) && 1 <= x < p && !Cong(g, 0, p)
    ensures 1 <= y < p && Cong(x * y, g, p)
  {
    PartnerExists(x, g, p);
    var y :| 1 <= y < p && Cong(x * y, g, p);
    y
  }

  lemma PartnerStep(x: int, g: int, i: int, p: int)
    requires p >= 2 && Cong(x * i, 1, p) && !Cong(g, 0, p)
    ensures var y := (g * i) % p; 1 <= y < p && Cong(x * y, g, p)
  {
    var y := (g * i) % p;
    CongMod(g * i, p);
    CongMul(x, x, y, g * i, p);
    CongMul(g, g, x * i, 1, p);
    assert x * (g * i) == g * (x * i);
    assert y == 0 ==> x * y == 0;
  }

  lemma PartnerUnique(x: int, y: int, g: int, p: int)
    requires Prime(p) && 1 <= x < p && 1 <= y < p && !Cong(g, 0, p) && Cong(x * y, g, p)
    ensures Partner(x, g, p) == y
  {
    var z := Partner(x, g, p);
    assert z * x == x * z && y * x == x * y;
    SmallMod(x, p);
    SmallMod(0, p);
    Cancel(z, y, x, p);
    CongSmall(z, y, p);
  }

  lemma PartnerInvolution(x: int, g: int, p: int)
    requires Prime(p) && 1 <= x < p && !Cong(g, 0, p)
    ensures Partner(Partner(x, g, p), g, p) == x
  {
    var y := Partner(x, g, p);
    assert y * x == x * y;
    PartnerUnique(y, x, g, p);
  }

  ghost predicate Paired(s: set<int>, g: int, p: int)
    requires Prime(p) && !Cong(g, 0, p)
  {
    && (forall x :: x in s ==> 1 <= x < p)
    && (forall x {:trigger Partner(x, g, p)} :: x in s ==> Partner(x, g, p) in s && Partner(x, g, p) != x)
  }

  lemma PairedRemove(s: set<int>, x: int, g: int, p: int)
    requires Prime(p) && !Cong(g, 0, p) && Paired(s, g, p) && x in s
    ensures Paired(s - {x, Partner(x, g, p)}, g, p)
  {
    var y := Partner(x, g, p);
    var s' := s - {x, y};
    forall z | z in s' ensures Partner(z, g, p) in s' && Partner(z, g, p) != z {
      PartnerInvolution(z, g, p);
      PartnerInvolution(x, g, p);
    }
  }

  lemma PairStep(x: int, y: int, q: int, g: int, j: nat, p: int)
    requires p > 0 && Cong(x * y, g, p) && Cong(q, Pow(g, j), p)
    ensures Cong(x * (y * q), Pow(g, j + 1), p)
  {
    MulAssoc(x, y, q);
    CongMul(x * y, g, q, Pow(g, j), p);
  }

  /** A set split into pairs that multiply to `g` has product `g` to the number of pairs. */
  lemma {:induction false} PairedProduct(s: set<int>, g: int, p: int) returns (k: nat)
    requires Prime(p) && !Cong(g, 0, p) && Paired(s, g, p)
    ensures |s| == 2 * k && Cong(Prod(s), Pow(g, k), p)
    decreases |s|
  {
    if s == {} {
      k := 0;
    } else {
      var x := Pick(s);
      var y := Partner(x, g, p);
      var s' := s - {x, y};
      PairedRemove(s, x, g, p);
      ProdRemoveTwo(s, x, y);
      var j := PairedProduct(s', g, p);
      PairStep(x, y, Prod(s'), g, j, p);
      k := j + 1;
    }
  }

  ghost predicate OddPrime(p: int)
  {
    Prime(p) && p % 2 == 1
  }

  /** With no square root there is no fixed point: all residues pair up. */
  lemma ProductNonSquare(g: int, p: int)
    requires OddPrime(p) && !Cong(g, 0, p) && !IsSquare(g, p)
    ensures Cong(Prod(NonZero(p)), Pow(g, (p - 1) / 2), p)
  {
    NonSquarePairs(g, p);
    var k := PairedProduct(NonZero(p), g, p);
    NonZeroSize(p);
    assert (p - 1) / 2 == k;
  }

  lemma NonSquarePairs(g: int, p: int)
    requires OddPrime(p) && !Cong(g, 0, p) && !IsSquare(g, p)
    ensures Paired(NonZero(p), g, p)
  {
    var s := NonZero(p);
    forall x | x in s ensures Partner(x, g, p) in s && Partner(x, g, p) != x {
      if Partner(x, g, p) == x {
        assert Root(x, g, p);
      }
    }
  }

  lemma NonZeroSquare(y: int, p: int)
    requires Prime(p) && 1 <= y < p
    ensures !Cong(y * y, 0, p)
  {
    SmallMod(y, p);
    SmallMod(0, p);
    if Cong(y * y, 0, p) { NoZeroDivisors(y, y, p); }
  }

  /** The two fixed points of the pairing by `y*y` are `y` and `p - y`. */
  lemma SquareFixedPoints(y: int, x: int, p: int)
    requires OddPrime(p) && 1 <= y < p && 1 <= x < p && x != y && x != p - y
    ensures !Cong(y * y, 0, p)
    ensures var z := Partner(x, y * y, p); z != x && z != y && z != p - y
  {
    NonZeroSquare(y, p);
    var g := y * y;
    var z := Partner(x, g, p);
    CongIntro(p - y, -y, 1, p);
    if z == x {
      SameSquare(x, y, p);
      if Cong(x, y, p) { CongSmall(x, y, p); } else { CongSmall(x, p - y, p); }
      assert false;
    }
    if z == y {
      PartnerInvolution(x, g, p);
      PartnerUnique(y, y, g, p);
      assert false;
    }
    if z == p - y {
      CongMul(p - y, -y, p - y, -y, p);
      assert (-y) * (-y) == g;
      PartnerInvolution(x, g, p);
      PartnerUnique(p - y, p - y, g, p);
      assert false;
    }
  }

  lemma SquarePairs(y: int, p: int)
    requires OddPrime(p) && 1 <= y < p
    ensures !Cong(y * y, 0, p) && Paired(NonZero(p) - {y, p - y}, y * y, p)
  {
    NonZeroSquare(y, p);
    var s := NonZero(p) - {y, p - y};
    forall x | x in s ensures Partner(x, y * y, p) in s && Partner(x, y * y, p) != x {
      SquareFixedPoints(y, x, p);
    }
  }

  lemma SquareStep(y: int, q: int, k: nat, p: int)
    requires p > 0 && Cong(q, Pow(y * y, k), p)
    ensures Cong(y * ((p - y) * q), -Pow(y * y, k + 1), p)
  {
    var g := y * y;
    calc {
      y * ((p - y) * q);
      { MulAssoc(y, p - y, q); }
      (y * (p - y)) * q;
      (y * p - g) * q;
      (y * p) * q - g * q;
      { MulAssoc(y, p, q); MulAssoc(y, q, p); }
      -(g * q) + (y * q) * p;
    }
    CongIntro(y * ((p - y) * q), -(g * q), y * q, p);
    CongMul(g, g, q, Pow(g, k), p);
    CongAdd(0, 0, g * q, g * Pow(g, k), p);
  }

  lemma RestProduct(y: int, p: int) returns (k: nat)
    requires OddPrime(p) && 1 <= y < p
    ensures |NonZero(p) - {y, p - y}| == 2 * k
    ensures Cong(Prod(NonZero(p) - {y, p - y}), Pow(y * y, k), p)
  {
    SquarePairs(y, p);
    k := PairedProduct(NonZero(p) - {y, p - y}, y * y, p);
  }

  lemma RestSize(y: int, p: int)
    requires p % 2 == 1 && 1 <= y < p
    ensures var s := NonZero(p) - {y, p - y};
      |s| == p - 3 && Prod(NonZero(p)) == y * ((p - y) * Prod(s))
  {
    NonZeroSize(p);
    assert y in NonZero(p) && p - y in NonZero(p) && y != p - y;
    ProdRemoveTwo(NonZero(p), y, p - y);
  }

  lemma ProductSquare(y: int, p: int)
    requires OddPrime(p) && 1 <= y < p
    ensures Cong(Prod(NonZero(p)), -Pow(y * y, (p - 1) / 2), p)
  {
    var k := RestProduct(y, p);
    RestSize(y, p);
    SquareStep(y, Prod(NonZero(p) - {y, p - y}), k, p);
    assert (p - 1) / 2 == k + 1;
  }

  /** Wilson's theorem. */
  lemma Wilson(p: int)
    requires OddPrime(p)
    ensures Cong(Prod(NonZero(p)), -1, p)
  {
    ProductSquare(1, p);
    PowOne((p - 1) / 2);
  }

  /** Euler's criterion, both directions. */
  lemma Euler(a: int, p: int)
    requires OddPrime(p) && !Cong(a, 0, p)
    ensures IsSquare(a, p) ==> Cong(Pow(a, (p - 1) / 2), 1, p)
    ensures !IsSquare(a, p) ==> Cong(Pow(a, (p - 1) / 2), -1, p)
  {
    Wilson(p);
    var h, n := (p - 1) / 2, Prod(NonZero(p));
    if IsSquare(a, p) {
      var y :| 0 <= y < p && Root(y, a, p);
      assert y == 0 ==> y * y == 0;
      ProductSquare(y, p);
      PowCong(y * y, a, h, p);
      CongAdd(0, 0, -1, -Pow(y * y, h), p);
    } else {
      ProductNonSquare(a, p);
    }
  }

  /** Fermat's little theorem: the square of any unit meets Euler's criterion. */
  lemma Fermat(a: int, p: int)
    requires OddPrime(p) && !Cong(a, 0, p)
    ensures Cong(Pow(a, p - 1), 1, p)
  {
    var h := (p - 1) / 2;
    ModInRange(a, p);
    var y := a % p;
    CongMul(y, a, y, a, p);
    assert Root(y, a * a, p);
    if Cong(a * a, 0, p) { NoZeroDivisors(a, a, p); }
    Euler(a * a, p);
    PowProduct(a, a, h);
    PowAdd(a, h, h);
  }
}
