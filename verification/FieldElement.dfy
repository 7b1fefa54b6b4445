/**
 The arithmetic of the derived field type on Montgomery limbs, and what each
 operation means for the residue the limbs stand for.
 */
module FieldElement {
  import opened Arith
  import opened Common
  import opened Digits
  import opened Words
  import opened WordBits
  import opened LimbProducts
  import opened Montgomery
  import Residue

  // ---- Decoding -----------------------------------------------------------

  /** The inverse of `R`: powers of `(m + 1)/2`, the inverse of two. */
  ghost function RInv(md: Modulus): int
  {
    Pow(Pow((M(md) + 1) / 2, 64), |md.limbs|)
  }

  lemma RInvCancels(md: Modulus)
    requires Valid(md)
    ensures Cong(R(md) * RInv(md), 1, M(md))
  {
    var m, h, len := M(md), (M(md) + 1) / 2, |md.limbs|;
    CongIntro(2 * h, 1, 1, m);
    PowTwo64();
    PowProduct(2, h, 64);
    PowCong(2 * h, 1, 64, m);
    PowOne(64);
    PowProduct(B, Pow(h, 64), len);
    PowCong(B * Pow(h, 64), 1, len, m);
    PowOne(len);
  }

  /** The residue that the limbs `a` stand for: `a R^-1 mod m`. */
  ghost function Decode(a: seq<Word>, md: Modulus): (x: int)
    requires Valid(md)
    ensures 0 <= x < M(md)
  {
    RemRange(Val(a, B) * RInv(md), M(md));
    Rem(Val(a, B) * RInv(md), M(md))
  }

  ghost predicate Reduced(a: seq<Word>, md: Modulus)
  {
    |a| == |md.limbs| && Val(a, B) < M(md)
  }

  /** Limbs whose value times `R` is `v` stand for `v` scaled down twice. */
  lemma DecodeOfProduct(c: seq<Word>, v: int, md: Modulus)
    requires Valid(md) && Cong(Val(c, B) * R(md), v, M(md))
    ensures Cong(Val(c, B), v * RInv(md), M(md))
  {
    var m, r, ri := M(md), R(md), RInv(md);
    RInvCancels(md);
    CongMul(Val(c, B) * r, v, ri, ri, m);
    CongMul(Val(c, B), Val(c, B), r * ri, 1, m);
    MulAssoc(Val(c, B), r, ri);
  }

  lemma DecodeCong(a: seq<Word>, v: int, md: Modulus)
    requires Valid(md) && Cong(Val(a, B), v, M(md))
    ensures Decode(a, md) == Rem(v * RInv(md), M(md))
  {
    CongMul(Val(a, B), v, RInv(md), RInv(md), M(md));
  }

  /** Encoding back: the value is the residue times `R`. */
  lemma EncodeDecode(a: seq<Word>, md: Modulus)
    requires Valid(md)
    ensures Cong(Decode(a, md) * R(md), Val(a, B), M(md))
  {
    var m, r, ri := M(md), R(md), RInv(md);
    RInvCancels(md);
    RemRange(Val(a, B) * ri, m);
    CongMul(Decode(a, md), Val(a, B) * ri, r, r, m);
    CongMul(Val(a, B), Val(a, B), ri * r, 1, m);
    MulAssoc(Val(a, B), ri, r);
    assert ri * r == r * ri;
  }

  /** Reduced limbs are determined by the residue: equality of limbs is equality in the field. */
  lemma DecodeInjective(a: seq<Word>, b: seq<Word>, md: Modulus)
    requires Valid(md) && Reduced(a, md) && Reduced(b, md)
    ensures Decode(a, md) == Decode(b, md) <==> a == b
  {
    if Decode(a, md) == Decode(b, md) {
      EncodeDecode(a, md);
      EncodeDecode(b, md);
      CongSmall(Val(a, B), Val(b, B), M(md));
      WordsAreDigits(a);
      WordsAreDigits(b);
      ValUnique(a, b, B);
    }
  }

  lemma DecodeSum(va: int, vb: int, md: Modulus)
    requires Valid(md)
    ensures Rem((va + vb) * RInv(md), M(md)) == Rem(Rem(va * RInv(md), M(md)) + Rem(vb * RInv(md), M(md)), M(md))
    ensures Rem((va - vb) * RInv(md), M(md)) == Rem(Rem(va * RInv(md), M(md)) - Rem(vb * RInv(md), M(md)), M(md))
  {
    var m, ri := M(md), RInv(md);
    RemRange(va * ri, m);
    RemRange(vb * ri, m);
    CongAdd(Rem(va * ri, m), va * ri, Rem(vb * ri, m), vb * ri, m);
    assert (va + vb) * ri == va * ri + vb * ri;
    assert (va - vb) * ri == va * ri - vb * ri;
  }

  lemma DecodeProduct(c: seq<Word>, va: int, vb: int, md: Modulus)
    requires Valid(md) && Cong(Val(c, B) * R(md), va * vb, M(md))
    ensures Decode(c, md) == Residue.Mul(Rem(va * RInv(md), M(md)), Rem(vb * RInv(md), M(md)), M(md))
  {
    var m, ri := M(md), RInv(md);
    DecodeOfProduct(c, va * vb, md);
    DecodeCong(c, (va * vb) * ri, md);
    RemRange(va * ri, m);
    RemRange(vb * ri, m);
    Residue.MulCong(Rem(va * ri, m), va * ri, Rem(vb * ri, m), vb * ri, m);
    MulAssoc(va * vb, ri, ri);
    MulSwap(va, vb, ri, ri);
  }

  // ---- Ring operations ----------------------------------------------------

  method AddAssign(self: array<Word>, other: seq<Word>, md: Modulus)
    requires Valid(md) && Reduced(self[..], md) && Reduced(other, md)
    modifies self
    ensures Reduced(self[..], md)
    ensures Decode(self[..], md) == Rem(old(Decode(self[..], md)) + Decode(other, md), M(md))
  {
    ghost var v := Val(self[..], B) + Val(other, B);
    DecodeSum(Val(self[..], B), Val(other, B), md);
    AddNoCarry(self, other);
    assert Val(self[..], B) == v;
    Reduce(self, md);
    CongIntro(v - M(md), v, -1, M(md));
    DecodeCong(self[..], v, md);
  }

  method SubAssign(self: array<Word>, other: seq<Word>, md: Modulus)
    requires Valid(md) && Reduced(self[..], md) && Reduced(other, md)
    modifies self
    ensures Reduced(self[..], md)
    ensures Decode(self[..], md) == Rem(old(Decode(self[..], md)) - Decode(other, md), M(md))
  {
    ghost var v := Val(self[..], B) - Val(other, B);
    DecodeSum(Val(self[..], B), Val(other, B), md);
    var c := CmpNative(other, self[..]);
    if c == Greater {
      AddNoCarry(self, md.limbs);
    }
    SubNoBorrow(self, other);
    CongIntro(v + M(md), v, 1, M(md));
    DecodeCong(self[..], v, md);
  }

  method IsZero(a: seq<Word>) returns (r: bool)
    ensures r <==> Val(a, B) == 0
  {
    for i := 0 to |a|
      invariant Part(a, 0, i, B) == 0
    {
      if a[i] != 0 {
        PartSplit(a, 0, i + 1, |a|, B);
        PowPos(B, i);
        MulMono(1, a[i], W(i));
        return false;
      }
    }
    return true;
  }

  method Neg(self: seq<Word>, md: Modulus) returns (ret: seq<Word>)
    requires Valid(md) && Reduced(self, md)
    ensures Reduced(ret, md) && Decode(ret, md) == Rem(-Decode(self, md), M(md))
  {
    DecodeSum(0, Val(self, B), md);
    assert 0 * RInv(md) == 0;
    var zero := IsZero(self);
    if zero {
      ret := self;
    } else {
      var tmp := new Word[|self|](i requires 0 <= i < |self| => 0);
      CopyLimbs(tmp, md.limbs);
      SubNoBorrow(tmp, self);
      ret := tmp[..];
      CongIntro(M(md) - Val(self, B), 0 - Val(self, B), 1, M(md));
      DecodeCong(ret, 0 - Val(self, B), md);
    }
  }

  /** Doubling by a one-bit shift from the lowest limb up. */
  method Double(self: array<Word>, md: Modulus)
    requires Valid(md) && Reduced(self[..], md)
    modifies self
    ensures Reduced(self[..], md)
    ensures Decode(self[..], md) == Rem(2 * old(Decode(self[..], md)), M(md))
  {
    ghost var a0 := self[..];
    ghost var v := Val(a0, B);
    DecodeSum(v, v, md);
    var last: Word := 0;
    for i := 0 to self.Length
      invariant last <= 1 && forall n :: i <= n < self.Length ==> self[n] == a0[n]
      invariant Part(self[..], 0, i, B) + last * W(i) == 2 * Part(a0, 0, i, B)
    {
      var tmp := ShiftOut(self[i]);
      ScaleShift(a0[i], ShiftUp(a0[i]), tmp, last, W(i));
      ghost var before := self[..];
      self[i] := ShiftUp(self[i]) + last;
      PartSame(before, self[..], 0, i, B);
      last := tmp;
    }
    WordsAreDigits(self[..]);
    ValBound(self[..], B);
    if last >= 1 { MulMono(1, last, R(md)); }
    assert Val(self[..], B) == 2 * v;
    Reduce(self, md);
    CongIntro(2 * v - M(md), v + v, -1, M(md));
    DecodeCong(self[..], v + v, md);
  }

  lemma ProductBelow(a: seq<Word>, b: seq<Word>, md: Modulus)
    requires Valid(md) && |a| == |b| == |md.limbs| && (Val(b, B) < M(md) || Val(a, B) < M(md))
    ensures Val(a, B) * Val(b, B) < M(md) * R(md)
  {
    WordsAreDigits(a);
    WordsAreDigits(b);
    ValBound(a, B);
    ValBound(b, B);
    if Val(b, B) < M(md) {
      ProductOfBounds(Val(b, B), Val(a, B), M(md), R(md));
    } else {
      ProductOfBounds(Val(a, B), Val(b, B), M(md), R(md));
    }
  }

  lemma ProductOfBounds(x: nat, y: nat, m: nat, r: nat)
    requires x < m && y < r
    ensures x * y < m * r && y * x < m * r
  {
    MulMono(x, m, y);
    MulStrict(y, r, m);
  }

  /** Multiplication; one operand may be unreduced, as in `from_repr`. */
  method MulAssign(self: array<Word>, other: seq<Word>, md: Modulus)
    requires Valid(md) && self.Length == |other| == |md.limbs|
    requires Reduced(self[..], md) || Reduced(other, md)
    modifies self
    ensures Reduced(self[..], md)
    ensures Decode(self[..], md) == Residue.Mul(old(Decode(self[..], md)), Decode(other, md), M(md))
  {
    ghost var v := Val(self[..], B);
    ProductBelow(self[..], other, md);
    var t := MulWide(self[..], other);
    MontReduce(self, t, md);
    DecodeProduct(self[..], v, Val(other, B), md);
  }

  /** `*` copies its left operand and multiplies in place. */
  method Times(self: seq<Word>, other: seq<Word>, md: Modulus) returns (ret: seq<Word>)
    requires Valid(md) && Reduced(self, md) && Reduced(other, md)
    ensures Reduced(ret, md)
    ensures Decode(ret, md) == Residue.Mul(Decode(self, md), Decode(other, md), M(md))
  {
    var out := new Word[|self|](i requires 0 <= i < |self| => 0);
    CopyLimbs(out, self);
    MulAssign(out, other, md);
    ret := out[..];
  }

  method Square(self: seq<Word>, md: Modulus) returns (ret: seq<Word>)
    requires Valid(md) && Reduced(self, md)
    ensures Reduced(ret, md)
    ensures Decode(ret, md) == Residue.Mul(Decode(self, md), Decode(self, md), M(md))
  {
    ProductBelow(self, self, md);
    var t := SquareWide(self);
    var out := new Word[|self|](i requires 0 <= i < |self| => 0);
    MontReduce(out, t, md);
    ret := out[..];
    DecodeProduct(ret, Val(self, B), Val(self, B), md);
  }

  /** The shortest limb sequence of a value. */
  method ShortWords(n: nat) returns (ret: seq<Word>)
    ensures Val(ret, B) == n && (|ret| > 0 ==> W(|ret| - 1) <= n)
  {
    ret := [];
    var v: nat := n;
    while v > 0
      invariant n == Val(ret, B) + v * W(|ret|)
      invariant |ret| > 0 && v == 0 ==> W(|ret| - 1) <= n
      decreases v
    {
      ShortStep(ret, v, n);
      ret, v := ret + [Rem(v, B)], Quo(v, B);
    }
  }

  lemma ShortStep(ret: seq<Word>, v: nat, n: nat)
    requires v > 0 && n == Val(ret, B) + v * W(|ret|)
    ensures 0 <= Rem(v, B) < B && Quo(v, B) < v
    ensures n == Val(ret + [Rem(v, B)], B) + Quo(v, B) * W(|ret| + 1)
    ensures W(|ret|) <= n
  {
    QuoRem(v, B);
    ValAppend(ret, Rem(v, B), B);
    WordStep(Rem(v, B), Quo(v, B), W(|ret|));
    MulMono(1, v, W(|ret|));
  }

  /** Constants into limbs: the macro asserts that they fit. */
  method BigUintToWords(n: nat, limbs: nat) returns (ret: seq<Word>, ok: bool)
    ensures ok <==> n < W(limbs)
    ensures ok ==> |ret| == limbs && Val(ret, B) == n
  {
    ret := ShortWords(n);
    FitsIff(ret, n, limbs);
    ghost var short := |ret|;
    while |ret| < limbs
      invariant Val(ret, B) == n && (short <= limbs ==> |ret| <= limbs) && (short > limbs ==> |ret| == short)
      decreases limbs - |ret|
    {
      ValAppend(ret, 0, B);
      ret := ret + [0];
    }
    ok := |ret| == limbs;
  }

  lemma FitsIff(ret: seq<Word>, n: nat, limbs: nat)
    requires Val(ret, B) == n && (|ret| > 0 ==> W(|ret| - 1) <= n)
    ensures |ret| <= limbs <==> n < W(limbs)
  {
    WordsAreDigits(ret);
    ValBound(ret, B);
    if |ret| <= limbs {
      PowMono(B, |ret|, limbs);
    } else {
      PowMono(B, limbs, |ret| - 1);
    }
  }

  lemma WordStep(lo: nat, hi: nat, w: int)
    ensures (hi * B + lo) * w == lo * w + hi * (B * w)
  {
    assert (hi * B + lo) * w == (hi * B) * w + lo * w;
    assert (hi * B) * w == hi * (B * w);
  }

  /** The fewest limbs with room for twice the modulus. */
  method LimbCount(m: nat) returns (limbs: nat)
    ensures limbs >= 1 && 2 * m <= W(limbs)
    ensures forall n :: 1 <= n < limbs ==> W(n) < 2 * m
  {
    limbs := 1;
    var cur := B;
    assert W(1) == B;
    while cur < 2 * m
      invariant limbs >= 1 && cur == W(limbs)
      invariant forall n :: 1 <= n < limbs ==> W(n) < 2 * m
      decreases 2 * m - cur
    {
      limbs, cur := limbs + 1, B * cur;
    }
  }

  lemma LowLimbParity(s: seq<Word>)
    requires |s| >= 1
    ensures Val(s, B) % 2 == s[0] % 2
  {
    assert s == [s[0]] + s[1..];
    ValCons(s[0], s[1..], B);
  }

  /** The limbs of `R` are the element 1, which the code compares against. */
  lemma OneDecodes(one: seq<Word>, md: Modulus)
    requires Valid(md) && Cong(Val(one, B), R(md), M(md))
    ensures Decode(one, md) == Rem(1, M(md))
  {
    RInvCancels(md);
    DecodeCong(one, R(md), md);
  }

  lemma ZeroDecodes(zero: seq<Word>, md: Modulus)
    requires Valid(md) && zero == Repeat<Word>(0, |md.limbs|)
    ensures Reduced(zero, md) && Decode(zero, md) == 0
  {
    PartZero(zero, 0, |zero|);
    assert 0 * RInv(md) == 0;
  }

  /** The constants of the limb code for an odd modulus: all of them exist and fit. */
  method Build(m: nat) returns (md: Modulus, one: seq<Word>, r2: seq<Word>)
    requires m % 2 == 1
    ensures Valid(md) && M(md) == m && IsR2(r2, md)
    ensures Reduced(one, md) && Decode(one, md) == Rem(1, m)
  {
    var len := LimbCount(m);
    var limbs, ok := BigUintToWords(m, len);
    LowLimbParity(limbs);
    var inv := ComputeInv(limbs[0]);
    md := Modulus(limbs, inv);
    RemRange(Pow(B, len), m);
    PowPos(B, len);
    var r := Rem(Pow(B, len), m);
    one, ok := BigUintToWords(r, len);
    OneDecodes(one, md);
    var sq := Residue.Mul(r, r, m);
    CongMul(r, Pow(B, len), r, Pow(B, len), m);
    r2, ok := BigUintToWords(sq, len);
  }

  /** `to_mont`: the limbs of a constant stand for the constant. */
  method ToMont(v: nat, m: nat, md: Modulus) returns (ret: seq<Word>)
    requires Valid(md) && M(md) == m
    ensures Reduced(ret, md) && Decode(ret, md) == Rem(v, m)
    ensures v < m ==> Decode(ret, md) == v
  {
    var len := |md.limbs|;
    RemRange(Pow(B, len), m);
    var r := Rem(Pow(B, len), m);
    var ok;
    ret, ok := BigUintToWords(Residue.Mul(v, r, m), len);
    CongMul(v, v, r, R(md), m);
    ScaledDecodes(ret, v, md);
  }

  lemma ScaledDecodes(a: seq<Word>, v: int, md: Modulus)
    requires Valid(md) && Cong(Val(a, B), v * R(md), M(md))
    ensures Decode(a, md) == Rem(v, M(md))
  {
    var m, r, ri := M(md), R(md), RInv(md);
    DecodeCong(a, v * r, md);
    RInvCancels(md);
    CongMul(v, v, r * ri, 1, m);
    MulAssoc(v, r, ri);
  }

  ghost predicate IsR2(r2: seq<Word>, md: Modulus)
  {
    Reduced(r2, md) && M(md) > 0 && Cong(Val(r2, B), R(md) * R(md), M(md))
  }

  /** Multiplying by `R2` turns a plain value into its Montgomery form. */
  method ToMontgomery(self: array<Word>, r2: seq<Word>, md: Modulus)
    requires Valid(md) && IsR2(r2, md) && self.Length == |md.limbs|
    modifies self
    ensures Reduced(self[..], md)
    ensures Decode(self[..], md) == Rem(old(Val(self[..], B)), M(md))
  {
    ghost var v := Val(self[..], B);
    R2Lifts(v, r2, md);
    MulAssign(self, r2, md);
  }

  lemma R2IsR(r2: seq<Word>, md: Modulus)
    requires Valid(md) && IsR2(r2, md)
    ensures Cong(Decode(r2, md), R(md), M(md))
  {
    var m, r, ri := M(md), R(md), RInv(md);
    RInvCancels(md);
    DecodeCong(r2, r * r, md);
    RemRange((r * r) * ri, m);
    CongMul(r, r, r * ri, 1, m);
    MulAssoc(r, r, ri);
  }

  lemma R2Lifts(v: int, r2: seq<Word>, md: Modulus)
    requires Valid(md) && IsR2(r2, md)
    ensures Residue.Mul(Rem(v * RInv(md), M(md)), Decode(r2, md), M(md)) == Rem(v, M(md))
  {
    var m, r, ri := M(md), R(md), RInv(md);
    R2IsR(r2, md);
    RemRange(v * ri, m);
    Residue.MulCong(Rem(v * ri, m), v * ri, Decode(r2, md), r, m);
    RInvCancels(md);
    CongMul(v, v, r * ri, 1, m);
    MulAssoc(v, ri, r);
    assert ri * r == r * ri;
  }

  /** `From<u64>`: the value in the lowest limb, then times `R2`. */
  method FromU64(val: Word, r2: seq<Word>, md: Modulus) returns (ret: seq<Word>)
    requires Valid(md) && IsR2(r2, md)
    ensures Reduced(ret, md) && Decode(ret, md) == Rem(val, M(md))
  {
    var raw := new Word[|md.limbs|](i requires 0 <= i < |md.limbs| => 0);
    raw[0] := val;
    PartSplit(raw[..], 0, 1, |md.limbs|, B);
    PartOne(raw[..], 0, B);
    PartZero(raw[..], 1, |md.limbs|);
    ToMontgomery(raw, r2, md);
    ret := raw[..];
  }

  // ---- Canonical values ---------------------------------------------------

  /** Reduction of the limbs themselves: the canonical value in limbs. */
  method Canonical(self: seq<Word>, md: Modulus) returns (r: seq<Word>)
    requires Valid(md) && |self| == |md.limbs|
    ensures |r| == |md.limbs| && Val(r, B) == Decode(self, md)
  {
    var t := self + Repeat<Word>(0, |self|);
    PartSplit(t, 0, |self|, |t|, B);
    PartSame(t, self, 0, |self|, B);
    PartZero(t, |self|, |t|);
    WordsAreDigits(self);
    ValBound(self, B);
    MulMono(1, M(md), R(md));
    var out := new Word[|self|](i requires 0 <= i < |self| => 0);
    MontReduce(out, t, md);
    r := out[..];
    DecodeOfProduct(r, Val(self, B), md);
    CongSmall(Val(r, B), Decode(self, md), M(md));
  }

  /** The `Ord` implementation orders by canonical value. */
  method Cmp(a: seq<Word>, b: seq<Word>, md: Modulus) returns (r: Ordering)
    requires Valid(md) && |a| == |b| == |md.limbs|
    ensures r == Less <==> Decode(a, md) < Decode(b, md)
    ensures r == Greater <==> Decode(a, md) > Decode(b, md)
    ensures r == Equal <==> Decode(a, md) == Decode(b, md)
  {
    var x := Canonical(a, md);
    var y := Canonical(b, md);
    r := CmpNative(x, y);
  }
}
