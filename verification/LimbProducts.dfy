/**
 The double-width products of limb arrays: the schoolbook multiplication and
 the squaring that computes each off-diagonal product once and doubles them
 all by a shift.  The temporaries `r0 … r(2L-1)` are one sequence; a temporary
 the code starts from a literal zero starts from zero here.
 */
module LimbProducts {
  import opened Arith
  import opened Common
  import opened Digits
  import opened Words
  import opened WordBits

  lemma {:induction false} PartZero(s: seq<Word>, lo: nat, hi: nat)
    requires lo <= hi <= |s| && forall i :: lo <= i < hi ==> s[i] == 0
    ensures Part(s, lo, hi, B) == 0
    decreases hi
  {
    if lo < hi { PartZero(s, lo, hi - 1); }
  }

  /** Storing a row's carry in the limb above it. */
  lemma StoreCarry(r: seq<Word>, n: nat, carry: Word)
    requires n < |r|
    ensures Part(r[n := carry], 0, n + 1, B) == Part(r, 0, n, B) + carry * W(n)
  {
    PartSame(r, r[n := carry], 0, n, B);
  }

  /** A row starting at `lo` leaves the limbs below it alone. */
  lemma RowFromZero(r: seq<Word>, r0: seq<Word>, lo: nat, hi: nat, c: int)
    requires lo <= hi <= |r| == |r0|
    requires forall n :: 0 <= n < lo ==> r[n] == r0[n]
    requires Part(r, lo, hi, B) + c == Part(r0, lo, hi, B)
    ensures Part(r, 0, hi, B) + c == Part(r0, 0, hi, B)
  {
    PartSplit(r, 0, lo, hi, B);
    PartSplit(r0, 0, lo, hi, B);
    PartSame(r, r0, 0, lo, B);
  }

  /** Words that carry the value of a product are the digits of that product. */
  lemma WideDigits(r: seq<Word>, v: nat)
    requires Val(r, B) == v
    ensures r == ToDigits(v, |r|, B)
  {
    WordsAreDigits(r);
    ToDigitsVal(r, B);
  }

  // ---- Multiplication -----------------------------------------------------

  method MulWide(a: seq<Word>, b: seq<Word>) returns (r: seq<Word>)
    requires |a| == |b|
    ensures |r| == 2 * |a| && Val(r, B) == Val(a, B) * Val(b, B)
    ensures r == ToDigits(Val(a, B) * Val(b, B), 2 * |a|, B)
  {
    var len := |a|;
    r := Repeat<Word>(0, 2 * len);
    PartZero(r, 0, len);
    for i := 0 to len
      invariant |r| == 2 * len
      invariant forall n :: i + len <= n < 2 * len ==> r[n] == 0
      invariant Part(r, 0, i + len, B) == Part(a, 0, i, B) * Val(b, B)
    {
      ghost var r0 := r;
      var carry;
      r, carry := MacRow(r, i, a[i], b, 0, 0);
      MulRowDone(r0, r, a, b, i, carry);
      r := r[i + len := carry];
    }
    WideDigits(r, Val(a, B) * Val(b, B));
  }

  lemma MulRowDone(r0: seq<Word>, r: seq<Word>, a: seq<Word>, b: seq<Word>, i: nat, carry: Word)
    requires i < |a| == |b| && |r| == |r0| == 2 * |a|
    requires forall n :: 0 <= n < i ==> r[n] == r0[n]
    requires Part(r0, 0, i + |a|, B) == Part(a, 0, i, B) * Val(b, B)
    requires Part(r, i, i + |b|, B) + carry * W(i + |b|)
          == Part(r0, i, i + |b|, B) + (a[i] * W(i)) * Val(b, B)
    ensures Part(r[i + |a| := carry], 0, i + 1 + |a|, B) == Part(a, 0, i + 1, B) * Val(b, B)
  {
    RowFromZero(r, r0, i, i + |b|, carry * W(i + |b|) - (a[i] * W(i)) * Val(b, B));
    StoreCarry(r, i + |a|, carry);
    MulDistributes(Part(a, 0, i, B), a[i] * W(i), Val(b, B));
  }

  lemma MulDistributes(a: int, b: int, c: int)
    ensures (a + b) * c == a * c + b * c
  {
  }

  // ---- Squaring -----------------------------------------------------------

  /** The products of different limbs whose lower index is below `i`. */
  ghost function OffDiagonal(a: seq<Word>, i: nat): int
    requires i <= |a|
  {
    if i == 0 then 0 else OffDiagonal(a, i - 1) + (a[i - 1] * W(i - 1)) * Part(a, i, |a|, B)
  }

  /** The squares of the limbs below `i`. */
  ghost function Diagonal(a: seq<Word>, i: nat): int
    requires i <= |a|
  {
    if i == 0 then 0 else Diagonal(a, i - 1) + (a[i - 1] * a[i - 1]) * W(2 * (i - 1))
  }

  /** The binomial expansion, row by row. */
  lemma {:induction false} SquareExpansion(a: seq<Word>, i: nat)
    requires i <= |a|
    ensures Val(a, B) * Val(a, B)
         == Diagonal(a, i) + 2 * OffDiagonal(a, i) + Part(a, i, |a|, B) * Part(a, i, |a|, B)
  {
    if i > 0 {
      SquareExpansion(a, i - 1);
      PartSplit(a, i - 1, i, |a|, B);
      PartOne(a, i - 1, B);
      BinomialSquare(a[i - 1] * W(i - 1), Part(a, i, |a|, B));
      MulSwap(a[i - 1], W(i - 1), a[i - 1], W(i - 1));
      WAdd(i - 1, i - 1);
    }
  }

  lemma BinomialSquare(x: int, y: int)
    ensures (x + y) * (x + y) == x * x + 2 * (x * y) + y * y
  {
  }

  method OffDiagonalRows(a: seq<Word>) returns (r: seq<Word>)
    requires |a| > 1
    ensures |r| == 2 * |a| && r[0] == 0 && r[2 * |a| - 1] == 0
    ensures Part(r, 0, 2 * |a|, B) == OffDiagonal(a, |a|)
  {
    var len := |a|;
    r := Repeat<Word>(0, 2 * len);
    PartZero(r, 0, len);
    for i := 0 to len - 1
      invariant |r| == 2 * len && r[0] == 0
      invariant forall n :: i + len <= n < 2 * len ==> r[n] == 0
      invariant Part(r, 0, i + len, B) == OffDiagonal(a, i)
    {
      ghost var r0 := r;
      var carry;
      r, carry := MacRow(r, i, a[i], a, i + 1, 0);
      RowFromZero(r, r0, i + (i + 1), i + len, carry * W(i + len) - (a[i] * W(i)) * Part(a, i + 1, len, B));
      StoreCarry(r, i + len, carry);
      r := r[i + len := carry];
    }
    assert Part(a, len, len, B) == 0;
    assert (a[len - 1] * W(len - 1)) * Part(a, len, len, B) == 0;
  }

  /** The one-bit left shift across all limbs, from the top limb down. */
  method DoubleLimbs(r0: seq<Word>) returns (r: seq<Word>)
    requires |r0| >= 3 && r0[0] == 0 && r0[|r0| - 1] == 0
    ensures |r| == |r0| && r[0] == 0
    ensures Part(r, 0, |r0|, B) == 2 * Part(r0, 0, |r0|, B)
  {
    r := r0;
    var len := |r0|;
    assert Part(r, len, len, B) == 0 && Part(r0, len, len, B) == 0;
    var n := len - 1;
    while n >= 1
      invariant 0 <= n < len && |r| == len
      invariant forall k :: 0 <= k <= n ==> r[k] == r0[k]
      invariant Part(r, n + 1, len, B) == 2 * Part(r0, n + 1, len, B) + ShiftOut(r0[n]) * W(n + 1)
    {
      var x :=
        if n == len - 1 then ShiftOut(r[n - 1])
        else if n == 1 then ShiftUp(r[n])
        else ShiftUp(r[n]) + ShiftOut(r[n - 1]);
      ShiftLimb(r, r0, n, x);
      r := r[n := x];
      n := n - 1;
    }
    PartSplit(r, 0, 1, len, B);
    PartSplit(r0, 0, 1, len, B);
    PartOne(r, 0, B);
    PartOne(r0, 0, B);
    assert ShiftOut(r0[0]) * W(1) == 0;
  }

  lemma ShiftLimb(r: seq<Word>, r0: seq<Word>, n: nat, x: Word)
    requires 1 <= n < |r| == |r0| && forall k :: 0 <= k <= n ==> r[k] == r0[k]
    requires x == ShiftUp(r0[n]) + ShiftOut(r0[n - 1])
    requires Part(r, n + 1, |r|, B) == 2 * Part(r0, n + 1, |r|, B) + ShiftOut(r0[n]) * W(n + 1)
    ensures Part(r[n := x], n, |r|, B) == 2 * Part(r0, n, |r|, B) + ShiftOut(r0[n - 1]) * W(n)
  {
    var r', len := r[n := x], |r|;
    PartSplit(r', n, n + 1, len, B);
    PartSplit(r0, n, n + 1, len, B);
    PartOne(r', n, B);
    PartOne(r0, n, B);
    PartSame(r, r', n + 1, len, B);
    ScaleShift(r0[n], ShiftUp(r0[n]), ShiftOut(r0[n]), ShiftOut(r0[n - 1]), W(n));
  }

  lemma ScaleShift(x: int, up: int, out: int, low: int, w: int)
    requires 2 * x == up + B * out
    ensures (up + low) * w + out * (B * w) == 2 * (x * w) + low * w
  {
    assert (2 * x) * w == (up + B * out) * w;
    assert (B * out) * w == out * (B * w);
  }

  /** Adding the squares of the limbs on the even positions. */
  method AddDiagonal(a: seq<Word>, r0: seq<Word>) returns (r: seq<Word>, carry: Word)
    requires |r0| == 2 * |a|
    ensures |r| == |r0|
    ensures Part(r, 0, |r0|, B) + carry * W(|r0|) == Part(r0, 0, |r0|, B) + Diagonal(a, |a|)
  {
    r, carry := r0, 0;
    for i := 0 to |a|
      invariant |r| == |r0|
      invariant forall n :: 2 * i <= n < |r| ==> r[n] == r0[n]
      invariant Part(r, 0, 2 * i, B) + carry * W(2 * i) == Part(r0, 0, 2 * i, B) + Diagonal(a, i)
    {
      var (lo, hi) := Mac(r[2 * i], a[i], a[i], carry);
      var (lo1, hi1) := Adc(r[2 * i + 1], 0, hi);
      DiagonalStep(r, r0, a, i, carry, lo, hi, lo1, hi1);
      r := r[2 * i := lo][2 * i + 1 := lo1];
      carry := hi1;
    }
  }

  lemma DiagonalStep(r: seq<Word>, r0: seq<Word>, a: seq<Word>, i: nat, carry: Word,
                     lo: Word, hi: Word, lo1: Word, hi1: Word)
    requires i < |a| && |r| == |r0| == 2 * |a|
    requires r[2 * i] == r0[2 * i] && r[2 * i + 1] == r0[2 * i + 1]
    requires lo + B * hi == r[2 * i] + a[i] * a[i] + carry && lo1 + B * hi1 == r[2 * i + 1] + hi
    requires Part(r, 0, 2 * i, B) + carry * W(2 * i) == Part(r0, 0, 2 * i, B) + Diagonal(a, i)
    ensures Part(r[2 * i := lo][2 * i + 1 := lo1], 0, 2 * i + 2, B) + hi1 * W(2 * i + 2)
         == Part(r0, 0, 2 * i + 2, B) + Diagonal(a, i + 1)
  {
    var r' := r[2 * i := lo][2 * i + 1 := lo1];
    PartSame(r, r', 0, 2 * i, B);
    var w := W(2 * i);
    ScaleMac(lo, hi, r[2 * i], a[i], a[i], carry, w, w, 1);
    MulRotate(a[i], w, a[i]);
    ScaleMac(lo1, hi1, r[2 * i + 1], 0, 0, hi, B * w, B * w, 1);
  }

  lemma MulRotate(x: int, w: int, y: int)
    ensures (x * w) * (y * 1) == (x * y) * w
  {
  }

  /**
   The squaring: every limb agrees with the schoolbook product of `a` with
   itself, and no carry is lost on the way.
   */
  method SquareWide(a: seq<Word>) returns (r: seq<Word>)
    requires |a| >= 1
    ensures |r| == 2 * |a| && Val(r, B) == Val(a, B) * Val(a, B)
    ensures r == ToDigits(Val(a, B) * Val(a, B), 2 * |a|, B)
  {
    var len := |a|;
    r := Repeat<Word>(0, 2 * len);
    PartZero(r, 0, 2 * len);
    if len > 1 {
      r := OffDiagonalRows(a);
      r := DoubleLimbs(r);
    } else {
      assert Part(a, 1, 1, B) == 0;
      assert (a[0] * W(0)) * 0 == 0;
      assert OffDiagonal(a, 0) == 0;
      assert OffDiagonal(a, 1) == 0;
    }
    var carry;
    r, carry := AddDiagonal(a, r);
    SquareExpansion(a, len);
    assert Part(a, len, len, B) == 0;
    NoCarry(a, r, carry);
    WideDigits(r, Val(a, B) * Val(a, B));
  }

  lemma NoCarry(a: seq<Word>, r: seq<Word>, carry: Word)
    requires |r| == 2 * |a| && Part(r, 0, |r|, B) + carry * W(|r|) == Val(a, B) * Val(a, B)
    ensures carry == 0 && Val(r, B) == Val(a, B) * Val(a, B)
  {
    ValBound(a, B);
    var v, w := Val(a, B), W(|a|);
    MulMono(v, w, v);
    MulStrictBelow(v, w);
    WAdd(|a|, |a|);
    if carry >= 1 { MulMono(1, carry, W(|r|)); }
  }

  lemma MulStrictBelow(v: nat, w: nat)
    requires v < w
    ensures v * v < w * w
  {
    MulMono(v, w, v);
    MulStrict(v, w, w);
  }
}
