/**
 The quartic extension of the recursion circuits, `F[X] / (X^4 - W)`, and the
 sumcheck helpers built on it.  Coefficients are residues modulo an odd `p`.
 */
module ExtField {
  import opened Arith

  datatype Ext = Ext(c0: int, c1: int, c2: int, c3: int)

  /** Reduction of every coefficient. */
  function Red(x: Ext, p: int): Ext
    requires p > 0
  {
    Ext(Rem(x.c0, p), Rem(x.c1, p), Rem(x.c2, p), Rem(x.c3, p))
  }

  ghost predicate InField(x: Ext, p: int)
    requires p > 0
  {
    Red(x, p) == x
  }

  // ---- The operations of the source, coefficient by coefficient -------------

  function BaseToExt(x: int): Ext
  {
    Ext(x, 0, 0, 0)
  }

  function Add(x: Ext, y: Ext, p: int): Ext
    requires p > 0
  {
    Red(Ext(x.c0 + y.c0, x.c1 + y.c1, x.c2 + y.c2, x.c3 + y.c3), p)
  }

  function Subtract(x: Ext, y: Ext, p: int): Ext
    requires p > 0
  {
    Red(Ext(x.c0 - y.c0, x.c1 - y.c1, x.c2 - y.c2, x.c3 - y.c3), p)
  }

  /** The product before reduction of the coefficients. */
  function Product(x: Ext, y: Ext, w: int): Ext
  {
    var z0Beta := x.c1 * y.c3 + x.c2 * y.c2 + x.c3 * y.c1;
    var z1Beta := x.c2 * y.c3 + x.c3 * y.c2;
    var z2Beta := x.c3 * y.c3;
    Ext(x.c0 * y.c0 + z0Beta * w,
        x.c0 * y.c1 + x.c1 * y.c0 + z1Beta * w,
        x.c0 * y.c2 + x.c1 * y.c1 + x.c2 * y.c0 + z2Beta * w,
        x.c0 * y.c3 + x.c1 * y.c2 + x.c2 * y.c1 + x.c3 * y.c0)
  }

  function Multiply(x: Ext, y: Ext, w: int, p: int): Ext
    requires p > 0
  {
    Red(Product(x, y, w), p)
  }

  function MultiplyScalar(x: Ext, y: int, p: int): Ext
    requires p > 0
  {
    Red(Ext(x.c0 * y, x.c1 * y, x.c2 * y, x.c3 * y), p)
  }

  function ScalarSubtract(x: int, y: Ext, p: int): Ext
    requires p > 0
  {
    Red(Ext(x - y.c0, -y.c1, -y.c2, -y.c3), p)
  }

  // ---- The product as polynomials -------------------------------------------

  /** Coefficient `k` of the polynomial, zero beyond degree three. */
  ghost function Coeff(x: Ext, k: int): int
  {
    if k == 0 then x.c0 else if k == 1 then x.c1 else if k == 2 then x.c2 else if k == 3 then x.c3 else 0
  }

  /** Coefficient `k` of the plain product of two polynomials: the convolution up to index `n`. */
  ghost function Convolve(x: Ext, y: Ext, k: int, n: nat): int
  {
    if n == 0 then 0 else Convolve(x, y, k, n - 1) + Coeff(x, n - 1) * Coeff(y, k - (n - 1))
  }

  ghost function ProductCoeff(x: Ext, y: Ext, k: int): int
  {
    Convolve(x, y, k, 4)
  }

  /** The product folded once by `X^4 = w`, before reduction of the coefficients. */
  ghost function FoldedProduct(x: Ext, y: Ext, w: int): Ext
  {
    Ext(ProductCoeff(x, y, 0) + ProductCoeff(x, y, 4) * w,
        ProductCoeff(x, y, 1) + ProductCoeff(x, y, 5) * w,
        ProductCoeff(x, y, 2) + ProductCoeff(x, y, 6) * w,
        ProductCoeff(x, y, 3) + ProductCoeff(x, y, 7) * w)
  }

  lemma ConvolveFour(x: Ext, y: Ext, k: int)
    ensures ProductCoeff(x, y, k) == x.c0 * Coeff(y, k) + x.c1 * Coeff(y, k - 1)
                                   + x.c2 * Coeff(y, k - 2) + x.c3 * Coeff(y, k - 3)
  {
    assert Convolve(x, y, k, 0) == 0;
    assert Convolve(x, y, k, 1) == x.c0 * Coeff(y, k);
    assert Convolve(x, y, k, 2) == x.c0 * Coeff(y, k) + x.c1 * Coeff(y, k - 1);
    assert Convolve(x, y, k, 3) == x.c0 * Coeff(y, k) + x.c1 * Coeff(y, k - 1) + x.c2 * Coeff(y, k - 2);
  }

  /** The multiplication is the polynomial product modulo `X^4 - w`. */
  lemma MultiplyIsPolynomialProduct(x: Ext, y: Ext, w: int, p: int)
    requires p > 0
    ensures Multiply(x, y, w, p) == Red(FoldedProduct(x, y, w), p)
    ensures ProductCoeff(x, y, 7) == 0
  {
    ConvolveFour(x, y, 0);
    ConvolveFour(x, y, 1);
    ConvolveFour(x, y, 2);
    ConvolveFour(x, y, 3);
    ConvolveFour(x, y, 4);
    ConvolveFour(x, y, 5);
    ConvolveFour(x, y, 6);
    ConvolveFour(x, y, 7);
  }

  // ---- Ring laws ------------------------------------------------------------

  function Plus(x: Ext, y: Ext): Ext
  {
    Ext(x.c0 + y.c0, x.c1 + y.c1, x.c2 + y.c2, x.c3 + y.c3)
  }

  function Scale(k: int, x: Ext): Ext
  {
    Ext(k * x.c0, k * x.c1, k * x.c2, k * x.c3)
  }

  /** Multiplication by `X`. */
  function TimesX(x: Ext, w: int): Ext
  {
    Ext(x.c3 * w, x.c0, x.c1, x.c2)
  }

  lemma Dist3(k: int, a: int, b: int, c: int)
    ensures (a + b + c) * k == a * k + b * k + c * k
  {
  }

  lemma ProductCommutes(x: Ext, y: Ext, w: int)
    ensures Product(x, y, w) == Product(y, x, w)
  {
  }

  /** The product as a combination of the shifts of `y`. */
  lemma ProductByShifts(x: Ext, y: Ext, w: int)
    ensures var y1 := TimesX(y, w); var y2 := TimesX(y1, w); var y3 := TimesX(y2, w);
      Product(x, y, w) == Plus(Plus(Scale(x.c0, y), Scale(x.c1, y1)), Plus(Scale(x.c2, y2), Scale(x.c3, y3)))
  {
    Dist3(w, x.c1 * y.c3, x.c2 * y.c2, x.c3 * y.c1);
    Dist3(w, x.c2 * y.c3, x.c3 * y.c2, 0);
    MulAssoc(x.c1, y.c3, w); MulAssoc(x.c2, y.c2, w); MulAssoc(x.c3, y.c1, w);
    MulAssoc(x.c2, y.c3, w); MulAssoc(x.c3, y.c2, w); MulAssoc(x.c3, y.c3, w);
  }

  lemma ProductAdditive(x: Ext, a: Ext, b: Ext, w: int)
    ensures Product(x, Plus(a, b), w) == Plus(Product(x, a, w), Product(x, b, w))
  {
    var s := Plus(a, b);
    DistributeFour(x, a, b);
    Dist3(w, x.c1 * a.c3 + x.c2 * a.c2 + x.c3 * a.c1, x.c1 * b.c3 + x.c2 * b.c2 + x.c3 * b.c1, 0);
    Dist3(w, x.c2 * a.c3 + x.c3 * a.c2, x.c2 * b.c3 + x.c3 * b.c2, 0);
    Dist3(w, x.c3 * a.c3, x.c3 * b.c3, 0);
  }

  lemma DistributeFour(x: Ext, a: Ext, b: Ext)
    ensures x.c0 * (a.c0 + b.c0) == x.c0 * a.c0 + x.c0 * b.c0
    ensures x.c0 * (a.c1 + b.c1) == x.c0 * a.c1 + x.c0 * b.c1
    ensures x.c0 * (a.c2 + b.c2) == x.c0 * a.c2 + x.c0 * b.c2
    ensures x.c0 * (a.c3 + b.c3) == x.c0 * a.c3 + x.c0 * b.c3
    ensures x.c1 * (a.c0 + b.c0) == x.c1 * a.c0 + x.c1 * b.c0
    ensures x.c1 * (a.c1 + b.c1) == x.c1 * a.c1 + x.c1 * b.c1
    ensures x.c1 * (a.c2 + b.c2) == x.c1 * a.c2 + x.c1 * b.c2
    ensures x.c1 * (a.c3 + b.c3) == x.c1 * a.c3 + x.c1 * b.c3
    ensures x.c2 * (a.c0 + b.c0) == x.c2 * a.c0 + x.c2 * b.c0
    ensures x.c2 * (a.c1 + b.c1) == x.c2 * a.c1 + x.c2 * b.c1
    ensures x.c2 * (a.c2 + b.c2) == x.c2 * a.c2 + x.c2 * b.c2
    ensures x.c2 * (a.c3 + b.c3) == x.c2 * a.c3 + x.c2 * b.c3
    ensures x.c3 * (a.c0 + b.c0) == x.c3 * a.c0 + x.c3 * b.c0
    ensures x.c3 * (a.c1 + b.c1) == x.c3 * a.c1 + x.c3 * b.c1
    ensures x.c3 * (a.c2 + b.c2) == x.c3 * a.c2 + x.c3 * b.c2
    ensures x.c3 * (a.c3 + b.c3) == x.c3 * a.c3 + x.c3 * b.c3
  {
  }

  lemma ProductHomogeneous(x: Ext, k: int, a: Ext, w: int)
    ensures Product(x, Scale(k, a), w) == Scale(k, Product(x, a, w))
  {
    PullOut(k, x.c1, a.c3, x.c2, a.c2, x.c3, a.c1, w, x.c0, a.c0, 0, 0, 0, 0);
    PullOut(k, x.c2, a.c3, x.c3, a.c2, 0, 0, w, x.c0, a.c1, x.c1, a.c0, 0, 0);
    PullOut(k, x.c3, a.c3, 0, 0, 0, 0, w, x.c0, a.c2, x.c1, a.c1, x.c2, a.c0);
    PullOut(k, x.c3, a.c0, 0, 0, 0, 0, 1, x.c0, a.c3, x.c1, a.c2, x.c2, a.c1);
  }

  lemma PullSum(k: int, a: int, b: int, c: int, d: int, e: int, f: int)
    ensures a * (k * b) + c * (k * d) + e * (k * f) == k * (a * b + c * d + e * f)
  {
  }

  lemma PullOut(k: int, a: int, b: int, c: int, d: int, e: int, f: int, w: int,
                g: int, h: int, i: int, j: int, l: int, m: int)
    ensures g * (k * h) + i * (k * j) + l * (k * m) + (a * (k * b) + c * (k * d) + e * (k * f)) * w
         == k * (g * h + i * j + l * m + (a * b + c * d + e * f) * w)
  {
    PullSum(k, a, b, c, d, e, f);
    PullSum(k, g, h, i, j, l, m);
    MulAssoc(k, a * b + c * d + e * f, w);
  }

  lemma ProductShift(x: Ext, a: Ext, w: int)
    ensures Product(x, TimesX(a, w), w) == TimesX(Product(x, a, w), w)
  {
  }

  /** Multiplications by `x` and by `y` may be exchanged. */
  lemma ProductExchange(x: Ext, y: Ext, z: Ext, w: int)
    ensures Product(x, Product(y, z, w), w) == Product(y, Product(x, z, w), w)
  {
    var z1 := TimesX(z, w); var z2 := TimesX(z1, w); var z3 := TimesX(z2, w);
    var a, b := Plus(Scale(y.c0, z), Scale(y.c1, z1)), Plus(Scale(y.c2, z2), Scale(y.c3, z3));
    ProductByShifts(y, z, w);
    ProductAdditive(x, a, b, w);
    ProductAdditive(x, Scale(y.c0, z), Scale(y.c1, z1), w);
    ProductAdditive(x, Scale(y.c2, z2), Scale(y.c3, z3), w);
    ProductHomogeneous(x, y.c0, z, w);
    ProductHomogeneous(x, y.c1, z1, w);
    ProductHomogeneous(x, y.c2, z2, w);
    ProductHomogeneous(x, y.c3, z3, w);
    ProductShift(x, z, w);
    ProductShift(x, z1, w);
    ProductShift(x, z2, w);
    ProductByShifts(y, Product(x, z, w), w);
  }

  lemma ProductAssociates(x: Ext, y: Ext, z: Ext, w: int)
    ensures Product(Product(x, y, w), z, w) == Product(x, Product(y, z, w), w)
  {
    ProductCommutes(Product(x, y, w), z, w);
    ProductExchange(z, x, y, w);
    ProductCommutes(z, y, w);
  }

  // ---- Reduction is compatible with everything -------------------------------

  ghost predicate Same(x: Ext, y: Ext, p: int)
    requires p > 0
  {
    Red(x, p) == Red(y, p)
  }

  lemma SameRed(x: Ext, p: int)
    requires p > 0
    ensures Same(Red(x, p), x, p) && InField(Red(x, p), p)
  {
    RemRange(x.c0, p);
    RemRange(x.c1, p);
    RemRange(x.c2, p);
    RemRange(x.c3, p);
  }

  lemma SamePlus(a: Ext, a': Ext, b: Ext, b': Ext, p: int)
    requires p > 0 && Same(a, a', p) && Same(b, b', p)
    ensures Same(Plus(a, b), Plus(a', b'), p)
  {
    CongAdd(a.c0, a'.c0, b.c0, b'.c0, p);
    CongAdd(a.c1, a'.c1, b.c1, b'.c1, p);
    CongAdd(a.c2, a'.c2, b.c2, b'.c2, p);
    CongAdd(a.c3, a'.c3, b.c3, b'.c3, p);
  }

  lemma SameScale(k: int, k': int, a: Ext, a': Ext, p: int)
    requires p > 0 && Cong(k, k', p) && Same(a, a', p)
    ensures Same(Scale(k, a), Scale(k', a'), p)
  {
    CongMul(k, k', a.c0, a'.c0, p);
    CongMul(k, k', a.c1, a'.c1, p);
    CongMul(k, k', a.c2, a'.c2, p);
    CongMul(k, k', a.c3, a'.c3, p);
  }

  lemma SameTimesX(a: Ext, a': Ext, w: int, p: int)
    requires p > 0 && Same(a, a', p)
    ensures Same(TimesX(a, w), TimesX(a', w), p)
  {
    CongMul(a.c3, a'.c3, w, w, p);
  }

  lemma SameProductRight(x: Ext, a: Ext, a': Ext, w: int, p: int)
    requires p > 0 && Same(a, a', p)
    ensures Same(Product(x, a, w), Product(x, a', w), p)
  {
    var a1 := TimesX(a, w); var a2 := TimesX(a1, w); var a3 := TimesX(a2, w);
    var b1 := TimesX(a', w); var b2 := TimesX(b1, w); var b3 := TimesX(b2, w);
    SameTimesX(a, a', w, p);
    SameTimesX(a1, b1, w, p);
    SameTimesX(a2, b2, w, p);
    SameScale(x.c0, x.c0, a, a', p);
    SameScale(x.c1, x.c1, a1, b1, p);
    SameScale(x.c2, x.c2, a2, b2, p);
    SameScale(x.c3, x.c3, a3, b3, p);
    SamePlus(Scale(x.c0, a), Scale(x.c0, a'), Scale(x.c1, a1), Scale(x.c1, b1), p);
    SamePlus(Scale(x.c2, a2), Scale(x.c2, b2), Scale(x.c3, a3), Scale(x.c3, b3), p);
    SamePlus(Plus(Scale(x.c0, a), Scale(x.c1, a1)), Plus(Scale(x.c0, a'), Scale(x.c1, b1)),
             Plus(Scale(x.c2, a2), Scale(x.c3, a3)), Plus(Scale(x.c2, b2), Scale(x.c3, b3)), p);
    ProductByShifts(x, a, w);
    ProductByShifts(x, a', w);
  }

  lemma SameProduct(x: Ext, x': Ext, a: Ext, a': Ext, w: int, p: int)
    requires p > 0 && Same(x, x', p) && Same(a, a', p)
    ensures Same(Product(x, a, w), Product(x', a', w), p)
  {
    SameProductRight(x, a, a', w, p);
    SameProductRight(a', x, x', w, p);
    ProductCommutes(x, a', w);
    ProductCommutes(x', a', w);
  }

  // ---- The field laws of the source's operations ------------------------------

  lemma MultiplyCommutes(x: Ext, y: Ext, w: int, p: int)
    requires p > 0
    ensures Multiply(x, y, w, p) == Multiply(y, x, w, p)
  {
    ProductCommutes(x, y, w);
  }

  lemma MultiplyAssociates(x: Ext, y: Ext, z: Ext, w: int, p: int)
    requires p > 0
    ensures Multiply(Multiply(x, y, w, p), z, w, p) == Multiply(x, Multiply(y, z, w, p), w, p)
  {
    SameRed(Product(x, y, w), p);
    SameRed(Product(y, z, w), p);
    SameProduct(Multiply(x, y, w, p), Product(x, y, w), z, z, w, p);
    SameProduct(x, x, Multiply(y, z, w, p), Product(y, z, w), w, p);
    ProductAssociates(x, y, z, w);
  }

  lemma MultiplyDistributes(x: Ext, y: Ext, z: Ext, w: int, p: int)
    requires p > 0
    ensures Multiply(x, Add(y, z, p), w, p) == Add(Multiply(x, y, w, p), Multiply(x, z, w, p), p)
  {
    SameRed(Plus(y, z), p);
    SameRed(Product(x, y, w), p);
    SameRed(Product(x, z, w), p);
    SameProduct(x, x, Add(y, z, p), Plus(y, z), w, p);
    ProductAdditive(x, y, z, w);
    SamePlus(Multiply(x, y, w, p), Product(x, y, w), Multiply(x, z, w, p), Product(x, z, w), p);
  }

  // ---- Sumcheck interpolation --------------------------------------------------

  function Minus(x: Ext, y: Ext): Ext
  {
    Ext(x.c0 - y.c0, x.c1 - y.c1, x.c2 - y.c2, x.c3 - y.c3)
  }

  lemma SameMinus(a: Ext, a': Ext, b: Ext, b': Ext, p: int)
    requires p > 0 && Same(a, a', p) && Same(b, b', p)
    ensures Same(Minus(a, b), Minus(a', b'), p) && Same(Subtract(a, b, p), Minus(a', b'), p)
  {
    CongAdd(a.c0, a'.c0, b.c0, b'.c0, p);
    CongAdd(a.c1, a'.c1, b.c1, b'.c1, p);
    CongAdd(a.c2, a'.c2, b.c2, b'.c2, p);
    CongAdd(a.c3, a'.c3, b.c3, b'.c3, p);
    SameRed(Minus(a, b), p);
  }

  function InterpolateQuadratic(preClaim: Ext, ev1: Ext, ev2: Ext, alpha: Ext, half: int, w: int, p: int): Ext
    requires p > 0
  {
    var ev0 := Subtract(preClaim, ev1, p);
    var s1 := Subtract(ev1, ev0, p);
    var s2 := Subtract(ev2, ev1, p);
    var c := Multiply(Subtract(s2, s1, p), BaseToExt(half), w, p);
    var q := Subtract(s1, c, p);
    Add(ev0, Multiply(alpha, Add(q, Multiply(c, alpha, w, p), p), w, p), p)
  }

  /** `f(x) = a + b x + c x^2` */
  function Quadratic(a: Ext, b: Ext, c: Ext, x: Ext, w: int, p: int): Ext
    requires p > 0
  {
    Add(a, Multiply(x, Add(b, Multiply(c, x, w, p), p), w, p), p)
  }

  lemma SameQuadratic(a: Ext, a': Ext, b: Ext, b': Ext, c: Ext, c': Ext, x: Ext, w: int, p: int)
    requires p > 0 && Same(a, a', p) && Same(b, b', p) && Same(c, c', p)
    ensures Quadratic(a, b, c, x, w, p) == Quadratic(a', b', c', x, w, p)
  {
    SameProduct(c, c', x, x, w, p);
    SamePlus(b, b', Multiply(c, x, w, p), Multiply(c', x, w, p), p);
    SamePlus(a, a', Multiply(x, Add(b, Multiply(c, x, w, p), p), w, p),
             Multiply(x, Add(b', Multiply(c', x, w, p), p), w, p), p);
  }

  lemma ProductByBase(x: Ext, k: int, w: int)
    ensures Product(x, BaseToExt(k), w) == Scale(k, x) && Product(BaseToExt(k), x, w) == Scale(k, x)
  {
  }

  /** At a base field point only the coefficients matter. */
  lemma QuadraticAtBase(a: Ext, b: Ext, c: Ext, k: int, w: int, p: int)
    requires p > 0
    ensures Same(Quadratic(a, b, c, BaseToExt(k), w, p), Plus(a, Scale(k, Plus(b, Scale(k, c)))), p)
  {
    var x, cx := BaseToExt(k), Multiply(c, BaseToExt(k), w, p);
    ProductByBase(c, k, w);
    SameRed(Scale(k, c), p);
    SamePlus(b, b, cx, Scale(k, c), p);
    SameRed(Plus(b, cx), p);
    var s := Add(b, cx, p);
    ProductByBase(s, k, w);
    SameScale(k, k, s, Plus(b, Scale(k, c)), p);
    SameRed(Scale(k, s), p);
    SamePlus(a, a, Multiply(x, s, w, p), Scale(k, Plus(b, Scale(k, c))), p);
    SameRed(Plus(a, Multiply(x, s, w, p)), p);
  }

  /** The polynomial itself: `a + b x + c x^2` with plain products. */
  function Polynomial(a: Ext, b: Ext, c: Ext, x: Ext, w: int): Ext
  {
    Plus(a, Plus(Product(b, x, w), Product(c, Product(x, x, w), w)))
  }

  /** Horner's rule evaluates the polynomial, at every point of the extension. */
  lemma QuadraticIsPolynomial(a: Ext, b: Ext, c: Ext, x: Ext, w: int, p: int)
    requires p > 0
    ensures Quadratic(a, b, c, x, w, p) == Red(Polynomial(a, b, c, x, w), p)
    ensures Same(Quadratic(a, b, c, x, w, p), Polynomial(a, b, c, x, w), p)
  {
    var cx, m := Product(c, x, w), Multiply(c, x, w, p);
    SameRed(cx, p);
    SamePlus(b, b, m, cx, p);
    SameRed(Plus(b, m), p);
    var s := Add(b, m, p);
    SameProduct(x, x, s, Plus(b, cx), w, p);
    SameRed(Product(x, s, w), p);
    ProductAdditive(x, b, cx, w);
    ProductCommutes(x, b, w);
    ProductExchange(x, c, x, w);
    SamePlus(a, a, Multiply(x, s, w, p), Plus(Product(b, x, w), Product(c, Product(x, x, w), w)), p);
    SameRed(Polynomial(a, b, c, x, w), p);
  }

  /** The claims of the sumcheck round about the polynomial with these coefficients. */
  ghost predicate Interpolates(a: Ext, b: Ext, c: Ext, preClaim: Ext, ev1: Ext, ev2: Ext, w: int, p: int)
    requires p > 0
  {
    && Same(preClaim, Plus(Polynomial(a, b, c, BaseToExt(0), w), Polynomial(a, b, c, BaseToExt(1), w)), p)
    && Same(ev1, Polynomial(a, b, c, BaseToExt(1), w), p)
    && Same(ev2, Polynomial(a, b, c, BaseToExt(2), w), p)
  }

  ghost predicate Meets(a: Ext, b: Ext, c: Ext, preClaim: Ext, ev1: Ext, ev2: Ext, w: int, p: int)
    requires p > 0
  {
    && Same(preClaim, Plus(Quadratic(a, b, c, BaseToExt(0), w, p), Quadratic(a, b, c, BaseToExt(1), w, p)), p)
    && Same(ev1, Quadratic(a, b, c, BaseToExt(1), w, p), p)
    && Same(ev2, Quadratic(a, b, c, BaseToExt(2), w, p), p)
  }

  lemma MeetsIffInterpolates(a: Ext, b: Ext, c: Ext, preClaim: Ext, ev1: Ext, ev2: Ext, w: int, p: int)
    requires p > 0
    ensures Meets(a, b, c, preClaim, ev1, ev2, w, p) <==> Interpolates(a, b, c, preClaim, ev1, ev2, w, p)
  {
    var x0, x1, x2 := BaseToExt(0), BaseToExt(1), BaseToExt(2);
    QuadraticIsPolynomial(a, b, c, x0, w, p);
    QuadraticIsPolynomial(a, b, c, x1, w, p);
    QuadraticIsPolynomial(a, b, c, x2, w, p);
    SamePlus(Quadratic(a, b, c, x0, w, p), Polynomial(a, b, c, x0, w),
             Quadratic(a, b, c, x1, w, p), Polynomial(a, b, c, x1, w), p);
  }

  lemma HalfOfTwice(c: Ext, d: Ext, half: int, w: int, p: int)
    requires p > 0 && Cong(2 * half, 1, p) && Same(d, Scale(2, c), p)
    ensures Same(Multiply(d, BaseToExt(half), w, p), c, p)
  {
    ProductByBase(d, half, w);
    SameRed(Scale(half, d), p);
    SameScale(half, half, d, Scale(2, c), p);
    ScaleTwice(half, c);
    SameScale(2 * half, 1, c, c, p);
    assert Scale(1, c) == c;
  }

  lemma ScaleTwice(half: int, c: Ext)
    ensures Scale(half, Scale(2, c)) == Scale(2 * half, c)
  {
    MulAssoc(half, 2, c.c0);
    MulAssoc(half, 2, c.c1);
    MulAssoc(half, 2, c.c2);
    MulAssoc(half, 2, c.c3);
  }

  /** The interpolation evaluates every polynomial that meets the three claims, at any point of the extension. */
  lemma InterpolationCorrect(a: Ext, b: Ext, c: Ext, preClaim: Ext, ev1: Ext, ev2: Ext, alpha: Ext,
                             half: int, w: int, p: int)
    requires p > 0 && Cong(2 * half, 1, p) && Interpolates(a, b, c, preClaim, ev1, ev2, w, p)
    ensures InterpolateQuadratic(preClaim, ev1, ev2, alpha, half, w, p) == Red(Polynomial(a, b, c, alpha, w), p)
  {
    MeetsIffInterpolates(a, b, c, preClaim, ev1, ev2, w, p);
    InterpolationIsHorner(a, b, c, preClaim, ev1, ev2, alpha, half, w, p);
    QuadraticIsPolynomial(a, b, c, alpha, w, p);
  }

  lemma InterpolationIsHorner(a: Ext, b: Ext, c: Ext, preClaim: Ext, ev1: Ext, ev2: Ext, alpha: Ext,
                              half: int, w: int, p: int)
    requires p > 0 && Cong(2 * half, 1, p) && Meets(a, b, c, preClaim, ev1, ev2, w, p)
    ensures InterpolateQuadratic(preClaim, ev1, ev2, alpha, half, w, p) == Quadratic(a, b, c, alpha, w, p)
  {
    var f0, f1, f2 := Quadratic(a, b, c, BaseToExt(0), w, p), Quadratic(a, b, c, BaseToExt(1), w, p),
                      Quadratic(a, b, c, BaseToExt(2), w, p);
    QuadraticAtBase(a, b, c, 0, w, p);
    QuadraticAtBase(a, b, c, 1, w, p);
    QuadraticAtBase(a, b, c, 2, w, p);
    var abc := Plus(a, Plus(b, c));
    assert Same(f1, abc, p) by { assert Scale(1, Plus(b, Scale(1, c))) == Plus(b, c); }
    assert Same(f0, a, p) by { assert Plus(a, Scale(0, Plus(b, Scale(0, c)))) == a; }
    var ev0 := Subtract(preClaim, ev1, p);
    SameMinus(preClaim, Plus(f0, f1), ev1, f1, p);
    assert Minus(Plus(f0, f1), f1) == f0;
    var s1 := Subtract(ev1, ev0, p);
    SameMinus(ev1, abc, ev0, a, p);
    assert Minus(abc, a) == Plus(b, c);
    var s2 := Subtract(ev2, ev1, p);
    var a24 := Plus(a, Scale(2, Plus(b, Scale(2, c))));
    SameMinus(ev2, a24, ev1, abc, p);
    var d := Subtract(s2, s1, p);
    SameMinus(s2, Minus(a24, abc), s1, Plus(b, c), p);
    assert Minus(Minus(a24, abc), Plus(b, c)) == Scale(2, c);
    HalfOfTwice(c, d, half, w, p);
    var cc := Multiply(d, BaseToExt(half), w, p);
    SameMinus(s1, Plus(b, c), cc, c, p);
    assert Minus(Plus(b, c), c) == b;
    SameQuadratic(ev0, a, Subtract(s1, cc, p), b, cc, c, alpha, w, p);
  }

  lemma TwiceHalf(d: Ext, half: int, p: int)
    requires p > 0 && Cong(2 * half, 1, p)
    ensures Same(Scale(2, Scale(half, d)), d, p)
  {
    ScaleTwice(half, d);
    assert Scale(half, Scale(2, d)) == Scale(2, Scale(half, d)) by {
      MulAssoc(half, 2, d.c0);
      MulAssoc(half, 2, d.c1);
      MulAssoc(half, 2, d.c2);
      MulAssoc(half, 2, d.c3);
    }
    SameScale(2 * half, 1, d, d, p);
    assert Scale(1, d) == d;
  }

  /** `a + 2 (b + 2 c)` when `b = (ev1 - a) - c` and `2 c` stands for `d`. */
  lemma SecondPoint(a: Ext, c: Ext, d: Ext, ev1: Ext, ev2: Ext, p: int)
    requires p > 0 && Same(Scale(2, c), d, p) && d == Minus(Minus(ev2, ev1), Minus(ev1, a))
    ensures Same(Plus(a, Scale(2, Plus(Minus(Minus(ev1, a), c), Scale(2, c)))), ev2, p)
  {
    var e := Plus(ev1, Minus(ev1, a));
    SamePlus(e, e, Scale(2, c), d, p);
    assert Plus(a, Scale(2, Plus(Minus(Minus(ev1, a), c), Scale(2, c)))) == Plus(e, Scale(2, c));
    assert Plus(e, d) == ev2;
  }

  /** The three claims always determine such a quadratic. */
  lemma InterpolantExists(preClaim: Ext, ev1: Ext, ev2: Ext, half: int, w: int, p: int)
    returns (a: Ext, b: Ext, c: Ext)
    requires p > 0 && Cong(2 * half, 1, p)
    ensures Interpolates(a, b, c, preClaim, ev1, ev2, w, p)
  {
    a := Minus(preClaim, ev1);
    var d := Minus(Minus(ev2, ev1), Minus(ev1, a));
    c := Scale(half, d);
    b := Minus(Minus(ev1, a), c);
    QuadraticAtBase(a, b, c, 0, w, p);
    QuadraticAtBase(a, b, c, 1, w, p);
    QuadraticAtBase(a, b, c, 2, w, p);
    FirstPoints(a, b, c, ev1);
    TwiceHalf(d, half, p);
    SecondPoint(a, c, d, ev1, ev2, p);
    var f0, f1 := Quadratic(a, b, c, BaseToExt(0), w, p), Quadratic(a, b, c, BaseToExt(1), w, p);
    SamePlus(f0, a, f1, ev1, p);
    assert Plus(a, ev1) == preClaim;
    MeetsIffInterpolates(a, b, c, preClaim, ev1, ev2, w, p);
  }

  lemma FirstPoints(a: Ext, b: Ext, c: Ext, ev1: Ext)
    requires b == Minus(Minus(ev1, a), c)
    ensures Plus(a, Scale(0, Plus(b, Scale(0, c)))) == a
    ensures Plus(a, Scale(1, Plus(b, Scale(1, c)))) == ev1
  {
  }

  // ---- The equality kernels -----------------------------------------------------

  function Eq1(x: Ext, y: Ext, w: int, p: int): Ext
    requires p > 0
  {
    var twoXy := MultiplyScalar(Multiply(x, y, w, p), 2, p);
    Add(ScalarSubtract(1, Add(x, y, p), p), twoXy, p)
  }

  function MobiusEq1(u: Ext, x: Ext, w: int, p: int): Ext
    requires p > 0
  {
    var threeUx := MultiplyScalar(Multiply(u, x, w, p), 3, p);
    var twoU := MultiplyScalar(u, 2, p);
    Add(ScalarSubtract(1, Add(x, twoU, p), p), threeUx, p)
  }

  function OneMinus(x: Ext, p: int): Ext
    requires p > 0
  {
    Red(Ext(1 - x.c0, -x.c1, -x.c2, -x.c3), p)
  }

  lemma ProductOfOneMinus(u: Ext, x: Ext, k: int, w: int)
    ensures Plus(Product(Minus(BaseToExt(1), Scale(k, u)), Minus(BaseToExt(1), x), w), Product(u, x, w))
         == Plus(Minus(BaseToExt(1), Plus(x, Scale(k, u))), Scale(k + 1, Product(u, x, w)))
  {
    var one, v, y := BaseToExt(1), Minus(BaseToExt(1), Scale(k, u)), Scale(-1, x);
    assert Minus(one, x) == Plus(one, y);
    ProductAdditive(v, one, y, w);
    ProductByBase(v, 1, w);
    ProductHomogeneous(v, -1, x, w);
    ProductCommutes(v, x, w);
    var nu := Scale(-k, u);
    assert v == Plus(one, nu);
    ProductAdditive(x, one, nu, w);
    ProductByBase(x, 1, w);
    ProductHomogeneous(x, -k, u, w);
    ProductCommutes(x, u, w);
    OneMinusSum(Product(u, x, w), u, x, k);
  }

  lemma OneMinusSum(ux: Ext, u: Ext, x: Ext, k: int)
    ensures Plus(Plus(Minus(BaseToExt(1), Scale(k, u)), Scale(-1, Plus(x, Scale(-k, ux)))), ux)
         == Plus(Minus(BaseToExt(1), Plus(x, Scale(k, u))), Scale(k + 1, ux))
  {
    ScalePlusOne(k, ux.c0);
    ScalePlusOne(k, ux.c1);
    ScalePlusOne(k, ux.c2);
    ScalePlusOne(k, ux.c3);
  }

  lemma ScalePlusOne(k: int, a: int)
    ensures (k + 1) * a == k * a + a && (-k) * a == -(k * a)
  {
  }

  /** `1 - x - k u + (k + 1) u x` factors, whatever stands for `k u`. */
  lemma KernelFactored(u: Ext, ku: Ext, x: Ext, k: int, w: int, p: int)
    requires p > 0 && Same(ku, Scale(k, u), p)
    ensures Add(ScalarSubtract(1, Add(x, ku, p), p), MultiplyScalar(Multiply(u, x, w, p), k + 1, p), p)
         == Add(Multiply(OneMinus(ku, p), OneMinus(x, p), w, p), Multiply(u, x, w, p), p)
  {
    var one, ux, v := BaseToExt(1), Product(u, x, w), Minus(BaseToExt(1), Scale(k, u));
    SameRed(ux, p);
    KernelLeft(u, ku, x, Multiply(u, x, w, p), k, ux, p);
    SameMinus(one, one, ku, Scale(k, u), p);
    SameRed(Minus(one, ku), p);
    SameRed(Minus(one, x), p);
    SameProduct(OneMinus(ku, p), v, OneMinus(x, p), Minus(one, x), w, p);
    SameRed(Product(OneMinus(ku, p), OneMinus(x, p), w), p);
    SamePlus(Multiply(OneMinus(ku, p), OneMinus(x, p), w, p), Product(v, Minus(one, x), w),
             Multiply(u, x, w, p), ux, p);
    ProductOfOneMinus(u, x, k, w);
  }

  lemma KernelLeft(u: Ext, ku: Ext, x: Ext, m: Ext, k: int, ux: Ext, p: int)
    requires p > 0 && Same(ku, Scale(k, u), p) && Same(m, ux, p)
    ensures Same(Plus(ScalarSubtract(1, Add(x, ku, p), p), MultiplyScalar(m, k + 1, p)),
                 Plus(Minus(BaseToExt(1), Plus(x, Scale(k, u))), Scale(k + 1, ux)), p)
  {
    var one, s := BaseToExt(1), Plus(x, Scale(k, u));
    SamePlus(x, x, ku, Scale(k, u), p);
    SameRed(Plus(x, ku), p);
    SameMinus(one, one, Add(x, ku, p), s, p);
    SameRed(Minus(one, Add(x, ku, p)), p);
    SameScale(k + 1, k + 1, m, ux, p);
    assert MultiplyScalar(m, k + 1, p) == Red(Scale(k + 1, m), p);
    SameRed(Scale(k + 1, m), p);
    SamePlus(ScalarSubtract(1, Add(x, ku, p), p), Minus(one, s), MultiplyScalar(m, k + 1, p), Scale(k + 1, ux), p);
  }

  /** The factored form with plain products. */
  lemma FactoredIsPlain(u: Ext, ku: Ext, x: Ext, k: int, w: int, p: int)
    requires p > 0 && Same(ku, Scale(k, u), p)
    ensures Add(Multiply(OneMinus(ku, p), OneMinus(x, p), w, p), Multiply(u, x, w, p), p)
         == Red(Plus(Product(Minus(BaseToExt(1), Scale(k, u)), Minus(BaseToExt(1), x), w), Product(u, x, w)), p)
  {
    var one, v := BaseToExt(1), Minus(BaseToExt(1), Scale(k, u));
    SameRed(Product(u, x, w), p);
    SameMinus(one, one, ku, Scale(k, u), p);
    SameRed(Minus(one, ku), p);
    SameRed(Minus(one, x), p);
    SameProduct(OneMinus(ku, p), v, OneMinus(x, p), Minus(one, x), w, p);
    SameRed(Product(OneMinus(ku, p), OneMinus(x, p), w), p);
    SamePlus(Multiply(OneMinus(ku, p), OneMinus(x, p), w, p), Product(v, Minus(one, x), w),
             Multiply(u, x, w, p), Product(u, x, w), p);
  }

  /** `mobius_eq_1(u, x) = (1 - 2u)(1 - x) + u x` */
  lemma MobiusEq1Factored(u: Ext, x: Ext, w: int, p: int)
    requires p > 0
    ensures MobiusEq1(u, x, w, p)
         == Red(Plus(Product(Minus(BaseToExt(1), Scale(2, u)), Minus(BaseToExt(1), x), w), Product(u, x, w)), p)
    ensures MobiusEq1(u, x, w, p)
         == Add(Multiply(OneMinus(MultiplyScalar(u, 2, p), p), OneMinus(x, p), w, p), Multiply(u, x, w, p), p)
  {
    var twoU := MultiplyScalar(u, 2, p);
    assert twoU == Red(Scale(2, u), p);
    SameRed(Scale(2, u), p);
    KernelFactored(u, twoU, x, 2, w, p);
    FactoredIsPlain(u, twoU, x, 2, w, p);
  }

  /** `eq_1(x, y) = (1 - x)(1 - y) + x y`, symmetric in its arguments. */
  lemma Eq1Factored(x: Ext, y: Ext, w: int, p: int)
    requires p > 0
    ensures Eq1(x, y, w, p) == Add(Multiply(OneMinus(x, p), OneMinus(y, p), w, p), Multiply(x, y, w, p), p)
    ensures Eq1(x, y, w, p)
         == Red(Plus(Product(Minus(BaseToExt(1), y), Minus(BaseToExt(1), x), w), Product(y, x, w)), p)
    ensures Eq1(x, y, w, p) == Eq1(y, x, w, p)
  {
    assert Scale(1, y) == y;
    FactoredIsPlain(y, y, x, 1, w, p);
    KernelFactored(y, y, x, 1, w, p);
    MultiplyCommutes(x, y, w, p);
    MultiplyCommutes(OneMinus(x, p), OneMinus(y, p), w, p);
    assert Plus(x, y) == Plus(y, x);
  }
}
