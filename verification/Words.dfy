/**
 64-bit words and the double-word primitives `mac`, `adc` and `sbb` that the
 generated limb code is written in, with one row of multiply-accumulate.
 */
module Words {
  import opened Arith
  import opened Digits
  import opened WordBits

  type Word = x: nat | x < B

  /** The weight of limb `n`. */
  ghost function W(n: nat): (w: nat)
    ensures w > 0
  {
    PowPos(B, n);
    Pow(B, n)
  }

  /** `a + b * c + carry` as low and high word. */
  function Mac(a: Word, b: Word, c: Word, carry: Word): (r: (Word, Word))
    ensures r.0 + B * r.1 == a + b * c + carry
  {
    MacFits(a, b, c, carry);
    SplitWord(a + b * c + carry);
    (Rem(a + b * c + carry, B), Quo(a + b * c + carry, B))
  }

  lemma MacFits(a: Word, b: Word, c: Word, carry: Word)
    ensures 0 <= b * c && a + b * c + carry < B * B
  {
    MulBelow(b, c, B);
  }

  lemma MulBelow(b: nat, c: nat, n: nat)
    requires b < n && c < n
    ensures 0 <= b * c <= n * n - 2 * n + 1
  {
    MulMono(b, n - 1, c);
    MulMono(c, n - 1, n - 1);
  }

  lemma SplitWord(t: nat)
    requires t < B * B
    ensures 0 <= Rem(t, B) < B && 0 <= Quo(t, B) < B && t == Rem(t, B) + B * Quo(t, B)
  {
    QuoRem(t, B);
    DivShrinks(t, B, B);
  }

  /** `a + b + carry` as low and high word. */
  function Adc(a: Word, b: Word, carry: Word): (r: (Word, Word))
    ensures r.0 + B * r.1 == a + b + carry
    ensures b <= 1 ==> r.1 <= 1
  {
    var t := a + b + carry;
    if t < B then (t, 0) else if t < 2 * B then (t - B, 1) else (t - 2 * B, 2)
  }

  /** The bit carried by a borrow word: all ones after an underflow, else zero. */
  function BorrowBit(borrow: Word): nat
  {
    if borrow >= HALF then 1 else 0
  }

  /** `a - b - bit`, wrapping, with the new borrow word. */
  function Sbb(a: Word, b: Word, borrow: Word): (r: (Word, Word))
    ensures r.0 == a - b - BorrowBit(borrow) + B * BorrowBit(r.1)
    ensures r.1 == 0 || r.1 == B - 1
  {
    var t := a - b - BorrowBit(borrow);
    if t >= 0 then (t, 0) else (t + B, B - 1)
  }

  lemma WordsAreDigits(s: seq<Word>)
    ensures IsDigits(s, B)
  {
  }

  /** The equation of one `mac`, scaled to the position it is used at. */
  lemma ScaleMac(lo: int, hi: int, x: int, a: int, b: int, c: int, w: int, u: int, v: int)
    requires lo + B * hi == x + a * b + c && w == u * v
    ensures lo * w + hi * (B * w) == x * w + (a * u) * (b * v) + c * w
  {
    assert (lo + B * hi) * w == (x + a * b + c) * w;
    assert (lo + B * hi) * w == lo * w + (B * hi) * w;
    assert (B * hi) * w == hi * (B * w);
    assert (x + a * b + c) * w == x * w + (a * b) * w + c * w;
    MulSwap(a, b, u, v);
  }

  lemma WAdd(i: nat, j: nat)
    ensures W(i + j) == W(i) * W(j) && W(i + j + 1) == B * W(i + j)
  {
    PowAdd(B, i, j);
  }

  /**
   One row of the generated code: for `j` in `from..|b|`, accumulate `x * b[j]`
   into limb `i + j`.  The limbs outside the row keep their value.
   */
  method MacRow(r0: seq<Word>, i: nat, x: Word, b: seq<Word>, from: nat, carry0: Word)
    returns (r: seq<Word>, carry: Word)
    requires from <= |b| && i + |b| <= |r0|
    ensures |r| == |r0|
    ensures forall n :: 0 <= n < |r| && !(i + from <= n < i + |b|) ==> r[n] == r0[n]
    ensures Part(r, i + from, i + |b|, B) + carry * W(i + |b|)
         == Part(r0, i + from, i + |b|, B) + carry0 * W(i + from) + (x * W(i)) * Part(b, from, |b|, B)
  {
    r, carry := r0, carry0;
    for j := from to |b|
      invariant |r| == |r0|
      invariant forall n :: 0 <= n < |r| && !(i + from <= n < i + j) ==> r[n] == r0[n]
      invariant Part(r, i + from, i + j, B) + carry * W(i + j)
             == Part(r0, i + from, i + j, B) + carry0 * W(i + from) + (x * W(i)) * Part(b, from, j, B)
    {
      var (lo, hi) := Mac(r[i + j], x, b[j], carry);
      RowStep(r, r0, i, from, j, x, b, carry0, carry, lo, hi);
      r := r[i + j := lo];
      carry := hi;
    }
  }

  lemma RowStep(r: seq<Word>, r0: seq<Word>, i: nat, from: nat, j: nat, x: Word, b: seq<Word>,
                carry0: Word, carry: Word, lo: Word, hi: Word)
    requires from <= j < |b| && i + j < |r| == |r0| && r[i + j] == r0[i + j]
    requires lo + B * hi == r[i + j] + x * b[j] + carry
    requires Part(r, i + from, i + j, B) + carry * W(i + j)
          == Part(r0, i + from, i + j, B) + carry0 * W(i + from) + (x * W(i)) * Part(b, from, j, B)
    ensures Part(r[i + j := lo], i + from, i + j + 1, B) + hi * W(i + j + 1)
         == Part(r0, i + from, i + j + 1, B) + carry0 * W(i + from) + (x * W(i)) * Part(b, from, j + 1, B)
  {
    PartSame(r, r[i + j := lo], i + from, i + j, B);
    WAdd(i, j);
    ScaleMac(lo, hi, r[i + j], x, b[j], carry, W(i + j), W(i), W(j));
    Distribute(x * W(i), Part(b, from, j, B), b[j] * W(j));
  }

  lemma Distribute(p: int, a: int, b: int)
    ensures p * (a + b) == p * a + p * b
  {
  }
}
