/**
 Montgomery reduction on limbs and its constant `INV`, the in-place limb
 helpers, and the comparison they rest on.
 */
module Montgomery {
  import opened Arith
  import opened Digits
  import opened Words
  import opened WordBits
  import opened LimbProducts

  datatype Ordering = Less | Equal | Greater

  /** The modulus in limbs with `INV`. */
  datatype Modulus = Modulus(limbs: seq<Word>, inv: Word)

  ghost function M(md: Modulus): nat
  {
    Val(md.limbs, B)
  }

  /** The radix `R = 2^(64 L)`. */
  ghost function R(md: Modulus): (r: nat)
    ensures r > 0
  {
    W(|md.limbs|)
  }

  /** The macro's limb count rule `2 m <= R`, an odd modulus, and its `INV`. */
  ghost predicate Valid(md: Modulus)
  {
    && |md.limbs| >= 1 && M(md) % 2 == 1 && 2 * M(md) <= R(md)
    && Cong(md.inv * md.limbs[0], -1, B)
  }

  // ---- The constant INV ---------------------------------------------------

  lemma SquareLifts(x: int, k: nat)
    requires k >= 1 && Cong(x, 1, PowTwo(k))
    ensures Cong(x * x, 1, PowTwo(k + 1))
  {
    var u := CongElim(x, 1, PowTwo(k));
    var w, h := PowTwo(k), PowTwo(k - 1);
    assert x * x == 1 + (u + u * (u * h)) * (2 * w) by {
      SquareOfOnePlus(u, h);
    }
    CongIntro(x * x, 1, u + u * (u * h), 2 * w);
  }

  lemma SquareOfOnePlus(u: int, h: int)
    ensures (1 + u * (2 * h)) * (1 + u * (2 * h)) == 1 + (u + u * (u * h)) * (2 * (2 * h))
  {
    var y := u * h;
    assert u * (2 * h) == 2 * y;
    assert (1 + 2 * y) * (1 + 2 * y) == 1 + 4 * y + 4 * (y * y);
    assert (u + u * y) * (4 * h) == 4 * y + 4 * (y * y) by {
      assert (u + u * y) * (4 * h) == 4 * (u * h) + 4 * ((u * y) * h);
      assert (u * y) * h == (u * h) * y;
    }
  }

  ghost function PowTwo(k: nat): (w: nat)
    ensures w > 0
  {
    PowPos(2, k);
    Pow(2, k)
  }

  lemma PowTwo64()
    ensures PowTwo(64) == B
  {
    assert Pow(2, 8) == 256;
    PowAdd(2, 8, 8);
    PowAdd(2, 16, 16);
    PowAdd(2, 32, 32);
  }

  function WrappingMul(a: Word, b: Word): (r: Word)
    ensures Cong(r, a * b, B)
  {
    assert a * b >= 0;
    RemRange(a * b, B);
    Rem(a * b, B)
  }

  /** Wrapping at 64 bits keeps the low `k` bits. */
  lemma WrapMul(a: Word, b: Word, k: nat)
    requires k <= 64
    ensures Cong(WrappingMul(a, b), a * b, PowTwo(k))
  {
    PowTwo64();
    PowAdd(2, k, 64 - k);
    CongDivisor(WrappingMul(a, b), a * b, PowTwo(k), PowTwo(64 - k));
  }

  function WrappingNeg(a: Word): (r: Word)
    ensures Cong(r, 0 - a, B)
  {
    CongIntro(if a == 0 then 0 else B - a, 0 - a, if a == 0 then 0 else 1, B);
    if a == 0 then 0 else B - a
  }

  lemma InvProduct(inv: int, m0: int, sq: int, next: int, w: int)
    requires w > 0 && Cong(sq, inv * inv, w) && Cong(next, sq * m0, w)
    ensures Cong(next * m0, (inv * m0) * (inv * m0), w)
  {
    CongMul(sq, inv * inv, m0 * m0, m0 * m0, w);
    CongMul(next, sq * m0, m0, m0, w);
    MulAssoc(sq, m0, m0);
    MulSwap(inv, inv, m0, m0);
  }

  lemma InvStep(inv: Word, m0: Word, n: nat)
    requires n < 63 && Cong(inv * m0, 1, PowTwo(n + 1))
    ensures Cong(WrappingMul(WrappingMul(inv, inv), m0) * m0, 1, PowTwo(n + 2))
  {
    var sq := WrappingMul(inv, inv);
    var next := WrappingMul(sq, m0);
    SquareLifts(inv * m0, n + 1);
    WrapMul(inv, inv, n + 2);
    WrapMul(sq, m0, n + 2);
    InvProduct(inv, m0, sq, next, PowTwo(n + 2));
  }

  /** 63 rounds of squaring: each doubles the number of low bits that are right. */
  method ComputeInv(m0: Word) returns (inv: Word)
    requires m0 % 2 == 1
    ensures Cong(inv * m0, -1, B)
  {
    inv := 1;
    assert PowTwo(1) == 2;
    CongIntro(m0, 1, m0 / 2, 2);
    for n := 0 to 63
      invariant Cong(inv * m0, 1, PowTwo(n + 1))
    {
      InvStep(inv, m0, n);
      inv := WrappingMul(inv, inv);
      inv := WrappingMul(inv, m0);
    }
    PowTwo64();
    var pos := inv;
    inv := WrappingNeg(pos);
    CongMul(inv, -pos, m0, m0, B);
    CongAdd(0, 0, pos * m0, 1, B);
    assert (-pos) * m0 == -(pos * m0);
  }

  // ---- In-place limb helpers ----------------------------------------------

  /** Comparison from the top limb down decides the numeric order. */
  method CmpNative(a: seq<Word>, b: seq<Word>) returns (r: Ordering)
    requires |a| == |b|
    ensures r == Less <==> Val(a, B) < Val(b, B)
    ensures r == Greater <==> Val(a, B) > Val(b, B)
    ensures r == Equal <==> a == b
  {
    WordsAreDigits(a);
    WordsAreDigits(b);
    for n := |a| downto 0
      invariant forall k :: n <= k < |a| ==> a[k] == b[k]
    {
      if a[n] < b[n] {
        ValLess(a, b, n, B);
        return Less;
      } else if a[n] > b[n] {
        ValLess(b, a, n, B);
        return Greater;
      }
    }
    assert a == b;
    return Equal;
  }

  lemma AddStep(s: seq<Word>, a: Word, b: Word, c: Word, lo: Word, hi: Word, w: int)
    requires lo + B * hi == a + b + c
    ensures lo * w + hi * (B * w) == a * w + b * w + c * w
  {
    ScaleMac(lo, hi, a, b, 1, c, w, w, 1);
    MulRotate(b, w, 1);
  }

  /** Adds `b` in place and drops the last carry. */
  method AddNoCarry(a: array<Word>, b: seq<Word>)
    requires a.Length == |b|
    modifies a
    ensures Val(a[..], B) == Rem(old(Val(a[..], B)) + Val(b, B), W(|b|))
    ensures old(Val(a[..], B)) + Val(b, B) < W(|b|) ==> Val(a[..], B) == old(Val(a[..], B)) + Val(b, B)
  {
    ghost var a0 := a[..];
    var carry: Word := 0;
    for i := 0 to a.Length
      invariant carry <= 1 && forall n :: i <= n < a.Length ==> a[n] == a0[n]
      invariant Part(a[..], 0, i, B) + carry * W(i) == Part(a0, 0, i, B) + Part(b, 0, i, B)
    {
      var (lo, hi) := Adc(a[i], b[i], carry);
      AddStep(a0, a[i], b[i], carry, lo, hi, W(i));
      ghost var before := a[..];
      a[i] := lo;
      PartSame(before, a[..], 0, i, B);
      assert Adc(a0[i], b[i], carry).1 <= 1;
      carry := hi;
    }
    WordsAreDigits(a[..]);
    ValBound(a[..], B);
    Wrapped(Val(a[..], B), Val(a0, B) + Val(b, B), carry, W(|b|));
  }

  lemma Wrapped(v: nat, total: int, carry: nat, w: nat)
    requires v < w && v + carry * w == total
    ensures v == Rem(total, w)
    ensures total < w ==> v == total
  {
    CongIntro(v, total, 0 - carry, w);
    assert Rem(v, w) == v;
    if carry >= 1 { MulMono(1, carry, w); }
  }

  lemma SubStep(a: Word, b: Word, c: nat, lo: Word, hi: nat, w: int)
    requires lo == a - b - c + B * hi
    ensures lo * w - hi * (B * w) == a * w - b * w - c * w
  {
    assert lo * w == (a - b - c + B * hi) * w;
    assert (a - b - c + B * hi) * w == a * w - b * w - c * w + (B * hi) * w;
    assert (B * hi) * w == hi * (B * w);
  }

  /** Subtracts `b` in place and drops the last borrow. */
  method SubNoBorrow(a: array<Word>, b: seq<Word>)
    requires a.Length == |b|
    modifies a
    ensures Val(a[..], B) == Rem(old(Val(a[..], B)) - Val(b, B), W(|b|))
    ensures old(Val(a[..], B)) >= Val(b, B) ==> Val(a[..], B) == old(Val(a[..], B)) - Val(b, B)
  {
    ghost var a0 := a[..];
    var borrow: Word := 0;
    for i := 0 to a.Length
      invariant forall n :: i <= n < a.Length ==> a[n] == a0[n]
      invariant Part(a[..], 0, i, B) - BorrowBit(borrow) * W(i) == Part(a0, 0, i, B) - Part(b, 0, i, B)
    {
      var (lo, hi) := Sbb(a[i], b[i], borrow);
      SubStep(a[i], b[i], BorrowBit(borrow), lo, BorrowBit(hi), W(i));
      ghost var before := a[..];
      a[i] := lo;
      PartSame(before, a[..], 0, i, B);
      borrow := hi;
    }
    WordsAreDigits(a[..]);
    ValBound(a[..], B);
    WordsAreDigits(a0);
    ValBound(a0, B);
    Unwrapped(Val(a[..], B), Val(a0, B) - Val(b, B), BorrowBit(borrow), W(|b|));
  }

  lemma Unwrapped(v: nat, total: int, bit: nat, w: nat)
    requires v < w && v - bit * w == total && bit <= 1
    ensures v == Rem(total, w)
    ensures total >= 0 ==> v == total
  {
    CongIntro(v, total, bit, w);
    assert Rem(v, w) == v;
  }

  method IsValid(a: seq<Word>, md: Modulus) returns (r: bool)
    requires |a| == |md.limbs|
    ensures r <==> Val(a, B) < M(md)
  {
    var c := CmpNative(a, md.limbs);
    r := c == Less;
  }

  /** One conditional subtraction. */
  method Reduce(a: array<Word>, md: Modulus)
    requires a.Length == |md.limbs|
    modifies a
    ensures Val(a[..], B) == (if old(Val(a[..], B)) < M(md) then old(Val(a[..], B)) else old(Val(a[..], B)) - M(md))
  {
    var ok := IsValid(a[..], md);
    if !ok {
      SubNoBorrow(a, md.limbs);
    }
  }

  // ---- Montgomery reduction -----------------------------------------------

  /** `k` is chosen so that adding `k m` clears the lowest limb. */
  lemma LowLimbClears(x: Word, md: Modulus, k: Word, lo: Word, hi: Word)
    requires |md.limbs| >= 1 && Cong(md.inv * md.limbs[0], -1, B)
    requires k == WrappingMul(x, md.inv) && lo + B * hi == x + k * md.limbs[0]
    ensures lo == 0
  {
    var m0 := md.limbs[0];
    CongMul(k, x * md.inv, m0, m0, B);
    CongMul(x, x, md.inv * m0, -1, B);
    MulAssoc(x, md.inv, m0);
    CongAdd(x, x, k * m0, x * -1, B);
    CongIntro(lo, x + k * m0, 0 - hi, B);
  }

  /**
   One round: clear limb `i`, add the row of `k m` above it and fold both
   carries into limb `i + L`.
   */
  method MontRound(r0: seq<Word>, i: nat, carry2: Word, md: Modulus)
    returns (r: seq<Word>, carry2': Word, ghost k: Word)
    requires Valid(md) && |r0| == 2 * |md.limbs| && i < |md.limbs| && carry2 <= 1
    ensures |r| == |r0| && carry2' <= 1
    ensures Part(r, i + 1, |r|, B) + carry2' * W(i + 1 + |md.limbs|)
         == Part(r0, i, |r|, B) + carry2 * W(i + |md.limbs|) + (k * W(i)) * M(md)
  {
    var len := |md.limbs|;
    var k0 := WrappingMul(r0[i], md.inv);
    k := k0;
    var (lo, hi) := Mac(r0[i], k0, md.limbs[0], 0);
    LowLimbClears(r0[i], md, k0, lo, hi);
    var carry;
    r, carry := MacRow(r0, i, k0, md.limbs, 1, hi);
    var (top, c2) := Adc(r[i + len], carry2, carry);
    assert top + B * c2 == r0[i + len] + carry2 + carry && c2 <= 1 by {
      assert Adc(r[i + len], carry2, carry).0 + B * Adc(r[i + len], carry2, carry).1
          == r[i + len] + carry2 + carry;
    }
    RoundSum(r0, r, i, carry2, md, k0, hi, carry, top, c2);
    r := r[i + len := top];
    carry2' := c2;
  }

  lemma RoundSum(r0: seq<Word>, r: seq<Word>, i: nat, carry2: Word, md: Modulus,
                 k: Word, hi: Word, carry: Word, top: Word, c2: Word)
    requires |md.limbs| >= 1 && |r| == |r0| == 2 * |md.limbs| && i < |md.limbs|
    requires B * hi == r0[i] + k * md.limbs[0]
    requires forall n :: i + |md.limbs| <= n < |r| ==> r[n] == r0[n]
    requires Part(r, i + 1, i + |md.limbs|, B) + carry * W(i + |md.limbs|)
          == Part(r0, i + 1, i + |md.limbs|, B) + hi * W(i + 1) + (k * W(i)) * Part(md.limbs, 1, |md.limbs|, B)
    requires top + B * c2 == r0[i + |md.limbs|] + carry2 + carry
    ensures Part(r[i + |md.limbs| := top], i + 1, |r|, B) + c2 * W(i + 1 + |md.limbs|)
         == Part(r0, i, |r|, B) + carry2 * W(i + |md.limbs|) + (k * W(i)) * M(md)
  {
    var len := |md.limbs|;
    var r', n := r[i + len := top], i + len;
    PartSplit(r', i + 1, n, |r|, B);
    PartSplit(r', n, n + 1, |r|, B);
    PartOne(r', n, B);
    PartSame(r, r', i + 1, n, B);
    PartSplit(r0, i, i + 1, |r|, B);
    PartSplit(r0, i + 1, n, |r|, B);
    PartSplit(r0, n, n + 1, |r|, B);
    PartOne(r0, i, B);
    PartOne(r0, n, B);
    PartSame(r0, r', n + 1, |r|, B);
    AddStep(r0, r0[n], carry2, carry, top, c2, W(n));
    LowLimbScaled(r0[i], k, md.limbs[0], hi, W(i));
    PartSplit(md.limbs, 0, 1, len, B);
    PartOne(md.limbs, 0, B);
    Distribute(k * W(i), md.limbs[0], Part(md.limbs, 1, len, B));
  }

  lemma LowLimbScaled(x: int, k: int, m0: int, hi: int, w: int)
    requires B * hi == x + k * m0
    ensures hi * (B * w) == x * w + (k * w) * m0
  {
    assert (B * hi) * w == (x + k * m0) * w;
    assert (B * hi) * w == hi * (B * w);
    assert (k * m0) * w == (k * w) * m0;
  }

  /** The exact quotient after `L` rounds is below `2 m`, so nothing is carried out. */
  lemma FinalBound(v: nat, c: nat, t: nat, q: nat, m: nat, w: nat)
    requires (v + c * w) * w == t + q * m && v < w && q < w && t < m * w && 2 * m <= w && w > 0
    ensures c == 0 && v < 2 * m && Cong(v * w, t, m)
  {
    MulMono(q, w, m);
    assert w * m == m * w;
    assert (v + c * w) * w < (2 * m) * w;
    if v + c * w >= 2 * m { MulMono(2 * m, v + c * w, w); }
    if c >= 1 { MulMono(1, c, w); }
    CongIntro(v * w, t, q, m);
  }

  lemma QuotientStep(q: nat, k: Word, i: nat)
    requires q < W(i)
    ensures 0 <= q + k * W(i) < W(i + 1)
  {
    MulMono(k, B - 1, W(i));
    assert (B - 1) * W(i) == B * W(i) - W(i);
    assert k * W(i) >= 0;
  }

  /**
   Montgomery reduction (Algorithm 14.32 of the Handbook of Applied
   Cryptography): for every input below `m R` the result is the residue
   `t R^-1`, fully reduced.
   */
  method MontReduce(self: array<Word>, t: seq<Word>, md: Modulus)
    requires Valid(md) && self.Length == |md.limbs| && |t| == 2 * |md.limbs|
    requires Val(t, B) < M(md) * R(md)
    modifies self
    ensures Val(self[..], B) < M(md) && Cong(Val(self[..], B) * R(md), Val(t, B), M(md))
  {
    var len := |md.limbs|;
    var r := t;
    var carry2: Word := 0;
    ghost var q: nat := 0;
    for i := 0 to len
      invariant |r| == 2 * len && carry2 <= 1 && q < W(i)
      invariant Part(r, i, 2 * len, B) + carry2 * W(i + len) == Val(t, B) + q * M(md)
    {
      ghost var k;
      r, carry2, k := MontRound(r, i, carry2, md);
      QuotientStep(q, k, i);
      MulDistributes(q, k * W(i), M(md));
      q := q + k * W(i);
    }
    FinalLimbs(r, carry2, t, q, md);
    CopyLimbs(self, r[len..]);
    Reduce(self, md);
    SubtractModulus(Val(r[len..], B), R(md), M(md));
  }

  method CopyLimbs(self: array<Word>, s: seq<Word>)
    requires self.Length == |s|
    modifies self
    ensures self[..] == s
  {
    for i := 0 to |s|
      invariant self[..i] == s[..i]
    {
      self[i] := s[i];
    }
  }

  lemma SubtractModulus(v: int, w: int, m: int)
    requires m > 0
    ensures Cong((v - m) * w, v * w, m)
  {
    assert (v - m) * w == v * w + (-w) * m;
    CongIntro((v - m) * w, v * w, -w, m);
  }

  lemma FinalLimbs(r: seq<Word>, carry2: Word, t: seq<Word>, q: nat, md: Modulus)
    requires Valid(md) && |r| == 2 * |md.limbs| && q < R(md) && Val(t, B) < M(md) * R(md)
    requires Part(r, |md.limbs|, |r|, B) + carry2 * W(2 * |md.limbs|) == Val(t, B) + q * M(md)
    ensures carry2 == 0
    ensures Val(r[|md.limbs|..], B) < 2 * M(md)
    ensures Cong(Val(r[|md.limbs|..], B) * R(md), Val(t, B), M(md))
  {
    var len := |md.limbs|;
    var hi := r[len..];
    assert r[len..len + len] == hi;
    PartShift(r, len, len, B);
    WAdd(len, len);
    WordsAreDigits(hi);
    ValBound(hi, B);
    var w := W(len);
    assert (Val(hi, B) + carry2 * w) * w == Val(hi, B) * w + carry2 * (w * w);
    FinalBound(Val(hi, B), carry2, Val(t, B), q, M(md), w);
  }
}
