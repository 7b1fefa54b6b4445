/**
 The square root of the derived field, for both residue classes of the
 modulus, the inversion by Fermat, and the constants they use.  The algorithms
 run on limbs; the account of each loop is kept on the residues they stand for.
 */
module Sqrt {
  import opened Arith
  import opened Common
  import opened FieldElement
  import opened LimbPow
  import opened NumberTheory
  import opened PowFixed
  import opened Residue
  import opened Words
  import Montgomery
  import Repr

  type Modulus = Montgomery.Modulus

  /** The modulus with `p - 1 = 2^s t`, `t` odd, and the root of unity `g^t` of a non-residue `g`. */
  datatype Params = Params(p: int, s: nat, t: nat, g: int, root: int)

  ghost predicate Valid(f: Params)
  {
    && OddPrime(f.p)
    && f.p - 1 == Pow(2, f.s) * f.t && f.t % 2 == 1
    && !Cong(f.g, 0, f.p) && !IsSquare(f.g, f.p)
    && f.root == Rem(Pow(f.g, f.t), f.p)
  }

  // ---- Constants ----------------------------------------------------------

  /** `modulus - 1 = 2^s t` by dividing out twos. */
  method SplitTwos(p: int) returns (s: nat, t: nat)
    requires p >= 2
    ensures p - 1 == Pow(2, s) * t && t % 2 == 1
  {
    s, t := 0, p - 1;
    while t % 2 == 0
      invariant t > 0 && p - 1 == Pow(2, s) * t
      decreases t
    {
      assert Pow(2, s) * t == (2 * Pow(2, s)) * (t / 2);
      t := t / 2;
      s := s + 1;
    }
  }

  /** The constants of the derived type for a prime and its non-residue generator. */
  method Constants(p: nat, g: nat) returns (f: Params, twoInv: nat, rootInv: nat, delta: nat)
    requires OddPrime(p) && !Cong(g, 0, p) && !IsSquare(g, p)
    ensures Valid(f) && f.p == p && f.g == g && twoInv < p && rootInv < p
    ensures Mul(2, twoInv, p) == 1 && Mul(f.root, rootInv, p) == 1
    ensures 0 < f.root < p && delta < p
    ensures delta == Rem(Pow(g, Pow(2, f.s)), p) && Rem(Pow(delta, f.t), p) == 1
  {
    var s, t := SplitTwos(p);
    var root := Exp(g, t, p);
    f := Params(p, s, t, g, root);
    RootNotZero(f);
    twoInv := Exp(2, p - 2, p);
    rootInv := Exp(root, p - 2, p);
    Inverses(p, root);
    PowPos(2, s);
    delta := Exp(g, Pow(2, s), p);
    DeltaOrder(f, delta);
  }

  lemma Inverses(p: int, root: int)
    requires OddPrime(p) && 0 < root < p
    ensures 0 <= Rem(Pow(2, p - 2), p) < p && 0 <= Rem(Pow(root, p - 2), p) < p
    ensures Mul(2, Rem(Pow(2, p - 2), p), p) == 1 && Mul(root, Rem(Pow(root, p - 2), p), p) == 1
  {
    RemRange(Pow(2, p - 2), p);
    RemRange(Pow(root, p - 2), p);
    FermatInverse(2, p);
    FermatInverse(root, p);
  }

  lemma DeltaOrder(f: Params, delta: int)
    requires Valid(f) && Pow(2, f.s) >= 0 && delta == Rem(Pow(f.g, Pow(2, f.s)), f.p)
    ensures Rem(Pow(delta, f.t), f.p) == 1 && 0 <= delta < f.p
  {
    RemRange(Pow(f.g, Pow(2, f.s)), f.p);
    PowCong(delta, Pow(f.g, Pow(2, f.s)), f.t, f.p);
    PowPow(f.g, Pow(2, f.s), f.t);
    Fermat(f.g, f.p);
  }

  /** The constants of the derived type as elements. */
  datatype Consts = Consts(one: seq<Word>, twoInv: seq<Word>, generator: seq<Word>,
                           root: seq<Word>, rootInv: seq<Word>, delta: seq<Word>)

  ghost predicate StandsAs(a: seq<Word>, x: int, md: Modulus)
    requires Montgomery.Valid(md)
  {
    Reduced(a, md) && Decode(a, md) == x
  }

  /** The limbs of the constants, as the macro builds them for a prime and its generator. */
  method LimbConstants(p: nat, g: nat) returns (md: Modulus, r2: seq<Word>, f: Params, c: Consts)
    requires OddPrime(p) && !Cong(g, 0, p) && !IsSquare(g, p)
    ensures Montgomery.Valid(md) && Montgomery.M(md) == p && IsR2(r2, md)
    ensures Valid(f) && f.p == p && f.g == g
    ensures StandsAs(c.one, 1, md) && StandsAs(c.generator, Rem(g, p), md) && StandsAs(c.root, f.root, md)
    ensures Mul(2, Decode(c.twoInv, md), p) == 1 && Mul(f.root, Decode(c.rootInv, md), p) == 1
    ensures StandsAs(c.delta, Rem(Pow(g, Pow(2, f.s)), p), md)
  {
    var one, twoInv, rootInv, delta;
    md, one, r2 := Build(p);
    f, twoInv, rootInv, delta := Constants(p, g);
    var generatorLimbs := ToMont(g, p, md);
    var rootLimbs := ToMont(f.root, p, md);
    var twoInvLimbs := ToMont(twoInv, p, md);
    var rootInvLimbs := ToMont(rootInv, p, md);
    var deltaLimbs := ToMont(delta, p, md);
    c := Consts(one, twoInvLimbs, generatorLimbs, rootLimbs, rootInvLimbs, deltaLimbs);
  }

  lemma RootNotZero(f: Params)
    requires Valid(f)
    ensures 0 < f.root < f.p
  {
    RootOrder(f);
    if f.root == 0 { SqOfZero(f.s - 1, f.p); }
  }

  lemma {:induction false} SqOfZero(n: nat, p: int)
    requires p > 0
    ensures Sq(0, n, p) == 0
  {
    MulZero(0, p);
    if n > 0 { SqOfZero(n - 1, p); }
  }

  lemma HalfOrder(f: Params)
    requires Valid(f)
    ensures f.s >= 1 && (f.p - 1) / 2 == f.t * Pow(2, f.s - 1)
  {
    assert f.s == 0 ==> Pow(2, f.s) == 1 && 1 * f.t == f.t;
    if f.s >= 1 {
      var w := Pow(2, f.s - 1);
      assert (2 * w) * f.t == 2 * (f.t * w);
    }
  }

  /** `g^t` has order exactly `2^s`: its `2^(s-1)`-th power is `-1`. */
  lemma RootOrder(f: Params)
    requires Valid(f)
    ensures f.s >= 1 && 0 <= f.root < f.p && Sq(f.root, f.s - 1, f.p) == f.p - 1
  {
    HalfOrder(f);
    SqIsPow(f.g, f.t, f.s - 1, f.p);
    Euler(f.g, f.p);
    RemRange(Pow(f.g, f.t), f.p);
    CongIntro(f.p - 1, -1, 1, f.p);
    RemRange(Pow(f.g, (f.p - 1) / 2), f.p);
  }

  /** A non-zero square raised to `t` has order dividing `2^(s-1)`. */
  lemma SquareOrder(a: int, f: Params)
    requires Valid(f) && 0 < a < f.p && IsSquare(a, f.p)
    ensures f.s >= 1 && Sq(Rem(Pow(a, f.t), f.p), f.s - 1, f.p) == 1
  {
    HalfOrder(f);
    SqIsPow(a, f.t, f.s - 1, f.p);
    Euler(a, f.p);
  }

  // ---- Tonelli-Shanks -----------------------------------------------------

  function Select<T>(a: T, b: T, choice: bool): T
  {
    if choice then b else a
  }

  function Min(a: nat, b: nat): nat
  {
    if a < b then a else b
  }

  /** Not done yet: `x² = a b`, `b` has order dividing `2^(v-1)`, `z` has order `2^v`. */
  ghost predicate Searching(a: int, x: int, b: int, z: int, v: nat, maxV: nat, p: int)
    requires p > 1
  {
    && 1 <= v <= maxV && 0 <= b < p && 0 <= z < p
    && Mul(x, x, p) == Mul(a, b, p)
    && Sq(b, v - 1, p) == 1
    && Sq(z, v - 1, p) == p - 1
  }

  /** Done: `x² = a`, and every later factor is `1` or `-1`. */
  ghost predicate Found(a: int, x: int, z: int, p: int)
    requires p > 1
  {
    Mul(x, x, p) == a && Mul(z, z, p) == 1
  }

  /**
   The inner loop before index `j`, started from `z == c`.  `k` is the least
   positive number of squarings that turn `b` into 1, as far as it is known,
   and `z` has been squared once for each index between `k` and `v`.
   */
  ghost predicate Inner(b: int, c: int, v: nat, j: nat, tmp: int, k: nat, z: int, less: bool, p: int)
    requires p > 1
  {
    if b != 1 then
      && 1 <= k < v && k < j && Sq(b, k - 1, p) != 1
      && tmp == Sq(b, k, p) && (tmp != 1 ==> k == j - 1)
      && less == (j <= v)
      && k < Min(j, v) && z == Sq(c, Min(j, v) - 1 - k, p)
    else
      && tmp == 1 && k == 1 && j >= 2
      && (if v >= 2 then less == (j <= v) && z == Sq(c, Min(j, v) - 2, p)
          else less && z == Sq(c, j - 2, p))
  }

  lemma InnerInit(b: int, c: int, v: nat, p: int)
    requires p > 1 && 0 <= b < p && v >= 1 && Sq(b, v - 1, p) == 1
    ensures Inner(b, c, v, 2, Mul(b, b, p), 1, c, true, p)
  {
    MulOne(1, p);
    assert Sq(b, 1, p) == Mul(Sq(b, 0, p), Sq(b, 0, p), p);
  }

  lemma InnerStep(b: int, c: int, v: nat, j: nat, tmp: int, k: nat, z: int, less: bool, p: int)
    requires p > 1 && v >= 1 && Sq(b, v - 1, p) == 1 && Inner(b, c, v, j, tmp, k, z, less, p)
    ensures
      var one := tmp == 1;
      var squared := Mul(Select(tmp, z, one), Select(tmp, z, one), p);
      var less' := less && j != v;
      Inner(b, c, v, j + 1, Select(squared, tmp, one), Select(j, k, one),
            Select(z, Select(z, squared, one), less'), less', p)
  {
    if b != 1 && tmp != 1 {
      assert k != v - 1;
      assert Sq(b, j, p) == Mul(tmp, tmp, p);
    }
  }

  /** The inner loop ends with `z` squared up to order `2^(k+1)`. */
  lemma InnerExit(b: int, c: int, v: nat, j: nat, tmp: int, k: nat, z: int, less: bool, p: int)
    requires p > 1 && b != 1 && v <= j && Inner(b, c, v, j, tmp, k, z, less, p)
    requires Sq(b, v - 1, p) == 1 && Sq(c, v - 1, p) == p - 1
    ensures Sq(b, k, p) == 1 && Sq(b, k - 1, p) != 1 && Sq(z, k, p) == p - 1
  {
    assert tmp != 1 ==> k == v - 1;
    SqAdd(c, v - 1 - k, k, p);
  }

  lemma StepSearching(a: int, x: int, b: int, z: int, k: nat, p: int)
    requires Prime(p) && k >= 1 && 0 <= b < p && Mul(x, x, p) == Mul(a, b, p)
    requires Sq(b, k, p) == 1 && Sq(b, k - 1, p) != 1 && Sq(z, k, p) == p - 1
    ensures var z' := Mul(z, z, p); var b' := Mul(b, z', p); var x' := Mul(x, z, p);
      && Mul(x', x', p) == Mul(a, b', p)
      && Sq(b', k - 1, p) == 1 && Sq(z', k - 1, p) == p - 1
  {
    var z' := Mul(z, z, p);
    assert Sq(z, 1, p) == Mul(Sq(z, 0, p), Sq(z, 0, p), p);
    SqAdd(z, 1, k - 1, p);
    SqRange(b, k - 1, p);
    RootsOfOne(Sq(b, k - 1, p), p);
    SqMul(b, z', k - 1, p);
    MinusOneSquared(p);
    MulRegroup(x, z, x, z, p);
    MulAssociative(a, b, z', p);
  }

  /** With `b == 1` the root is found, and `z` squares to `1` twice over. */
  lemma StepFound(a: int, x: int, c: int, v: nat, j: nat, tmp: int, k: nat, z: int, less: bool, p: int)
    requires p > 1 && 0 <= a < p && 1 <= v <= j && Inner(1, c, v, j, tmp, k, z, less, p)
    requires Mul(x, x, p) == Mul(a, 1, p) && Sq(c, v - 1, p) == p - 1
    ensures Found(a, x, Mul(z, z, p), p)
  {
    MulOne(a, p);
    if v >= 2 {
      assert Mul(z, z, p) == Sq(c, v - 1, p);
      MinusOneSquared(p);
    } else {
      SqOfUnit(c, j - 2, p);
      MulOne(1, p);
    }
  }

  lemma KeepFound(a: int, x: int, z: int, p: int)
    requires p > 1 && 0 <= a < p && Found(a, x, z, p)
    ensures Found(a, Mul(x, z, p), Mul(z, z, p), p) && Found(a, x, Mul(z, z, p), p)
  {
    MulRegroup(x, z, x, z, p);
    MulOne(a, p);
    MulOne(1, p);
  }

  /** What the code has computed before the loops: `w`, `x = a w`, `b = x w`. */
  lemma Start(a: int, w: int, f: Params)
    requires Valid(f) && 0 < a < f.p && IsSquare(a, f.p) && w == Rem(Pow(a, (f.t - 1) / 2), f.p)
    ensures var x := Mul(a, w, f.p);
      f.s >= 1 && Searching(a, x, Mul(x, w, f.p), f.root, f.s, f.s, f.p)
  {
    var p, e := f.p, (f.t - 1) / 2;
    var x := Mul(a, w, p);
    MulOfPowers(a, e, e, p);
    MulAssociative(a, w, w, p);
    assert Pow(a, 1) == a;
    MulOfPowers(a, 1, e + e, p);
    assert 1 + (e + e) == f.t;
    SquareOrder(a, f);
    RootOrder(f);
    MulAssociative(a, w, x, p);
    MulComm(w, x, p);
  }

  /** What the limb code needs to know: the field in limbs, its constant 1 and its byte order. */
  datatype Field = Field(md: Modulus, one: seq<Word>, e: Repr.Endianness) {
    ghost predicate Ok(p: int)
    {
      Montgomery.Valid(md) && Montgomery.M(md) == p && p > 1 && StandsAs(one, 1, md)
    }
  }

  method IsOne(a: seq<Word>, k: Field, ghost p: int) returns (r: bool)
    requires k.Ok(p) && Reduced(a, k.md)
    ensures r <==> Decode(a, k.md) == 1
  {
    r := Repr.CtEq(a, k.one, k.e, k.md);
  }

  /** The body of the loop `for j in 2..max_v`, with its selects. */
  method InnerLoop(b: seq<Word>, c: seq<Word>, v: nat, maxV: nat, k: Field, ghost p: int)
    returns (least: nat, z: seq<Word>)
    requires k.Ok(p) && Reduced(b, k.md) && Reduced(c, k.md)
    ensures Reduced(z, k.md)
    ensures 1 <= v <= maxV && Sq(Decode(b, k.md), v - 1, p) == 1 ==>
      InnerDone(Decode(b, k.md), Decode(c, k.md), v, least, Decode(z, k.md), p)
    ensures Mul(Decode(c, k.md), Decode(c, k.md), p) == 1 ==> Mul(Decode(z, k.md), Decode(z, k.md), p) == 1
  {
    var md := k.md;
    ghost var b0, c0 := Decode(b, md), Decode(c, md);
    least, z := 1, c;
    var tmp := FieldElement.Square(b, md);
    var jLessThanV := true;
    ghost var searching := 1 <= v <= maxV && Sq(b0, v - 1, p) == 1;
    if searching { InnerInit(b0, c0, v, p); }
    var j := 2;
    while j < maxV
      invariant j >= 2 && Reduced(z, md) && Reduced(tmp, md)
      invariant searching ==> Inner(b0, c0, v, j, Decode(tmp, md), least, Decode(z, md), jLessThanV, p)
      invariant Mul(c0, c0, p) == 1 ==> Mul(Decode(z, md), Decode(z, md), p) == 1
    {
      if searching { InnerStep(b0, c0, v, j, Decode(tmp, md), least, Decode(z, md), jLessThanV, p); }
      MulOne(1, p);
      var tmpIsOne := IsOne(tmp, k, p);
      var squared := FieldElement.Square(Select(tmp, z, tmpIsOne), md);
      tmp := Select(squared, tmp, tmpIsOne);
      var newZ := Select(z, squared, tmpIsOne);
      jLessThanV := jLessThanV && j != v;
      least := Select(j, least, tmpIsOne);
      z := Select(z, newZ, jLessThanV);
      j := j + 1;
    }
  }

  /** The inner loop has ended, at whatever index. */
  ghost predicate InnerDone(b: int, c: int, v: nat, k: nat, z: int, p: int)
    requires p > 1
  {
    exists j, tmp, less :: v <= j && Inner(b, c, v, j, tmp, k, z, less, p)
  }

  lemma Advance(a: int, x: int, b: int, c: int, v: nat, maxV: nat, k: nat, z: int, p: int)
    requires Prime(p) && 0 <= a < p && Searching(a, x, b, c, v, maxV, p)
    requires InnerDone(b, c, v, k, z, p)
    ensures var z' := Mul(z, z, p); var b' := Mul(b, z', p);
      if b == 1 then Found(a, x, z', p)
      else maxV >= 1 && Searching(a, Mul(x, z, p), b', z', k, maxV - 1, p)
  {
    var j, tmp, less :| v <= j && Inner(b, c, v, j, tmp, k, z, less, p);
    if b == 1 {
      StepFound(a, x, c, v, j, tmp, k, z, less, p);
    } else {
      InnerExit(b, c, v, j, tmp, k, z, less, p);
      StepSearching(a, x, b, z, k, p);
    }
  }

  /** The power that both square roots start from; for `t == 1` the code takes the constant 1. */
  method FirstPower(a: seq<Word>, f: Params, k: Field, chain: seq<PowFixed.Step>) returns (w: seq<Word>)
    requires Valid(f) && k.Ok(f.p) && Reduced(a, k.md)
    requires f.t != 1 ==> WellFormed(chain) && ChainLast(chain) == (f.t - 1) / 2
    ensures StandsAs(w, Rem(Pow(Decode(a, k.md), (f.t - 1) / 2), f.p), k.md)
  {
    if f.t == 1 {
      w := k.one;
    } else {
      w := PowLimbs(a, chain, k.md);
    }
  }

  /** The relation of the outer loop, on the residues that the four variables stand for. */
  ghost predicate Outer(a: int, x: int, b: int, z: int, v: nat, maxV: nat, p: int)
    requires p > 1
  {
    && (a != 0 && IsSquare(a, p) ==> Searching(a, x, b, z, v, maxV, p) || Found(a, x, z, p))
    && (a == 0 ==> x == 0)
  }

  lemma OuterStart(a: int, w: int, f: Params)
    requires Valid(f) && 0 <= a < f.p && w == Rem(Pow(a, (f.t - 1) / 2), f.p)
    ensures var x := Mul(a, w, f.p); Outer(a, x, Mul(x, w, f.p), f.root, f.s, f.s, f.p)
  {
    if a != 0 && IsSquare(a, f.p) { Start(a, w, f); }
    MulZero(w, f.p);
  }

  lemma OuterStep(a: int, x: int, b: int, c: int, v: nat, maxV: nat, k: nat, z: int, p: int)
    requires Prime(p) && 0 <= a < p && maxV >= 1 && Outer(a, x, b, c, v, maxV, p)
    requires 1 <= v <= maxV && Sq(b, v - 1, p) == 1 ==> InnerDone(b, c, v, k, z, p)
    requires Mul(c, c, p) == 1 ==> Mul(z, z, p) == 1
    ensures var z' := Mul(z, z, p);
      Outer(a, Select(Mul(x, z, p), x, b == 1), Mul(b, z', p), z', k, maxV - 1, p)
  {
    if a != 0 && IsSquare(a, p) {
      if Searching(a, x, b, c, v, maxV, p) {
        Advance(a, x, b, c, v, maxV, k, z, p);
      } else {
        KeepFound(a, x, z, p);
      }
    }
    MulZero(z, p);
  }

  lemma OuterEnd(a: int, x: int, b: int, z: int, v: nat, p: int)
    requires p > 1 && 0 <= x < p && 0 <= a < p && Outer(a, x, b, z, v, 0, p)
    ensures Mul(x, x, p) == a <==> IsSquare(a, p)
  {
    RootMeansSquare(x, a, p);
    MulZero(0, p);
  }

  /**
   Square root for `p % 4 == 1`, on limbs.  `chain` is the addition chain for
   `(t - 1)/2`, unused when `t == 1`.  A root is reported exactly when the
   element is a square.
   */
  method TonelliShanks(a: seq<Word>, f: Params, root: seq<Word>, k: Field, chain: seq<PowFixed.Step>)
    returns (x: seq<Word>, isSome: bool)
    requires Valid(f) && k.Ok(f.p) && Reduced(a, k.md) && StandsAs(root, f.root, k.md)
    requires f.t != 1 ==> WellFormed(chain) && ChainLast(chain) == (f.t - 1) / 2
    ensures isSome <==> IsSquare(Decode(a, k.md), f.p)
    ensures isSome ==> Reduced(x, k.md) && Mul(Decode(x, k.md), Decode(x, k.md), f.p) == Decode(a, k.md)
  {
    var md := k.md;
    ghost var p, a0 := f.p, Decode(a, md);
    var w := FirstPower(a, f, k, chain);
    OuterStart(a0, Decode(w, md), f);
    x := Times(a, w, md);
    var b := Times(x, w, md);
    var z, v := root, f.s;
    var maxV := f.s;
    while maxV >= 1
      invariant Reduced(x, md) && Reduced(b, md) && Reduced(z, md)
      invariant Outer(a0, Decode(x, md), Decode(b, md), Decode(z, md), v, maxV, p)
    {
      var least, z1 := InnerLoop(b, z, v, maxV, k, p);
      OuterStep(a0, Decode(x, md), Decode(b, md), Decode(z, md), v, maxV, least, Decode(z1, md), p);
      var result := Times(x, z1, md);
      var bIsOne := IsOne(b, k, p);
      x := Select(result, x, bIsOne);
      z := FieldElement.Square(z1, md);
      b := Times(b, z, md);
      v := least;
      maxV := maxV - 1;
    }
    OuterEnd(a0, Decode(x, md), Decode(b, md), Decode(z, md), v, p);
    var square := Times(x, x, md);
    isSome := Repr.CtEq(square, a, k.e, md);
  }

  lemma RootMeansSquare(x: int, a: int, p: int)
    requires 0 <= x < p && 0 <= a < p
    ensures Mul(x, x, p) == a ==> IsSquare(a, p)
  {
    if Mul(x, x, p) == a { assert Root(x, a, p); }
  }

  // ---- The other residue class, and inversion -----------------------------

  /** Square root for `p % 4 == 3`, on limbs: one power with exponent `(p + 1) / 4`. */
  method SqrtThreeModFour(a: seq<Word>, k: Field, ghost p: int, chain: seq<PowFixed.Step>)
    returns (x: seq<Word>, isSome: bool)
    requires OddPrime(p) && p % 4 == 3 && k.Ok(p) && Reduced(a, k.md)
    requires WellFormed(chain) && ChainLast(chain) == (p + 1) / 4
    ensures isSome <==> IsSquare(Decode(a, k.md), p)
    ensures isSome ==> Reduced(x, k.md) && Mul(Decode(x, k.md), Decode(x, k.md), p) == Decode(a, k.md)
  {
    ghost var a0 := Decode(a, k.md);
    x := PowLimbs(a, chain, k.md);
    var square := Times(x, x, k.md);
    isSome := Repr.CtEq(square, a, k.e, k.md);
    RootMeansSquare(Decode(x, k.md), a0, p);
    if IsSquare(a0, p) { QuarterPower(a0, p); }
  }

  lemma QuarterPower(a: int, p: int)
    requires OddPrime(p) && p % 4 == 3 && 0 <= a < p && IsSquare(a, p)
    ensures var x := Rem(Pow(a, (p + 1) / 4), p); Mul(x, x, p) == a
  {
    var e, h := (p + 1) / 4, (p - 1) / 2;
    TwoQuarters(p);
    MulOfPowers(a, e, e, p);
    TimesHalfPower(a, h, p);
  }

  lemma TwoQuarters(p: int)
    requires p % 4 == 3
    ensures (p + 1) / 4 + (p + 1) / 4 == 1 + (p - 1) / 2
  {
  }

  lemma TimesHalfPower(a: int, h: nat, p: int)
    requires OddPrime(p) && h == (p - 1) / 2 && 0 <= a < p && IsSquare(a, p)
    ensures Rem(Pow(a, 1 + h), p) == a
  {
    assert Pow(a, 1 + h) == a * Pow(a, h);
    if a == 0 {
      assert a * Pow(a, h) == 0;
    } else {
      Euler(a, p);
      CongMul(a, a, Pow(a, h), 1, p);
    }
  }

  /** On limbs, `a^(p-2)` is the inverse of every non-zero `a`; zero has none. */
  method Invert(a: seq<Word>, k: Field, ghost p: int, chain: seq<PowFixed.Step>) returns (x: seq<Word>, isSome: bool)
    requires OddPrime(p) && k.Ok(p) && Reduced(a, k.md)
    requires WellFormed(chain) && ChainLast(chain) == p - 2
    ensures isSome <==> exists y :: 0 <= y < p && Mul(Decode(a, k.md), y, p) == 1
    ensures isSome ==> Reduced(x, k.md) && Mul(Decode(a, k.md), Decode(x, k.md), p) == 1
  {
    ghost var a0 := Decode(a, k.md);
    x := PowLimbs(a, chain, k.md);
    var zero := Repeat<Word>(0, |k.md.limbs|);
    ZeroDecodes(zero, k.md);
    var isZero := Repr.CtEq(a, zero, k.e, k.md);
    isSome := !isZero;
    if isSome {
      FermatInverse(a0, p);
    } else {
      forall y | 0 <= y < p ensures Mul(a0, y, p) != 1 { MulZero(y, p); }
    }
  }

  lemma FermatInverse(a: int, p: int)
    requires OddPrime(p) && 0 < a < p
    ensures Mul(a, Rem(Pow(a, p - 2), p), p) == 1
  {
    assert Pow(a, 1) == a;
    MulOfPowers(a, 1, p - 2, p);
    Fermat(a, p);
  }
}
