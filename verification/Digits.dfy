/**
 Little-endian positional notation in any base: the value of limb arrays
 (base 2^64), byte arrays (base 256) and field digests (base p) alike.
 */
module Digits {
  import opened Arith

  ghost predicate IsDigits(s: seq<nat>, b: nat)
  {
    forall n :: 0 <= n < |s| ==> s[n] < b
  }

  /** What positions `lo` to `hi` contribute to the value. */
  function Part(s: seq<nat>, lo: nat, hi: nat, b: nat): nat
    requires lo <= hi <= |s| && b > 0
    decreases hi
  {
    if lo == hi then 0 else
      PowPos(b, hi - 1);
      assert s[hi - 1] * Pow(b, hi - 1) >= 0;
      Part(s, lo, hi - 1, b) + s[hi - 1] * Pow(b, hi - 1)
  }

  function Val(s: seq<nat>, b: nat): nat
    requires b > 0
  {
    Part(s, 0, |s|, b)
  }

  lemma {:induction false} PartSplit(s: seq<nat>, lo: nat, mid: nat, hi: nat, b: nat)
    requires lo <= mid <= hi <= |s| && b > 0
    ensures Part(s, lo, hi, b) == Part(s, lo, mid, b) + Part(s, mid, hi, b)
    decreases hi
  {
    if mid < hi { PartSplit(s, lo, mid, hi - 1, b); }
  }

  lemma {:induction false} PartSame(s: seq<nat>, t: seq<nat>, lo: nat, hi: nat, b: nat)
    requires lo <= hi <= |s| && hi <= |t| && b > 0
    requires forall n :: lo <= n < hi ==> s[n] == t[n]
    ensures Part(s, lo, hi, b) == Part(t, lo, hi, b)
    decreases hi
  {
    if lo < hi { PartSame(s, t, lo, hi - 1, b); }
  }

  lemma PartOne(s: seq<nat>, lo: nat, b: nat)
    requires lo < |s| && b > 0
    ensures Part(s, lo, lo + 1, b) == s[lo] * Pow(b, lo)
  {
    assert Part(s, lo, lo, b) == 0;
  }

  lemma {:induction false} PartBound(s: seq<nat>, n: nat, b: nat)
    requires n <= |s| && b > 0 && IsDigits(s, b)
    ensures Part(s, 0, n, b) < Pow(b, n)
  {
    if n > 0 {
      PartBound(s, n - 1, b);
      PowPos(b, n - 1);
      MulMono(s[n - 1], b - 1, Pow(b, n - 1));
      assert (b - 1) * Pow(b, n - 1) == Pow(b, n) - Pow(b, n - 1);
    }
  }

  lemma ValBound(s: seq<nat>, b: nat)
    requires b > 0 && IsDigits(s, b)
    ensures Val(s, b) < Pow(b, |s|)
  {
    PartBound(s, |s|, b);
  }

  lemma ValAppend(s: seq<nat>, x: nat, b: nat)
    requires b > 0
    ensures Val(s + [x], b) == Val(s, b) + x * Pow(b, |s|)
  {
    PartSame(s, s + [x], 0, |s|, b);
  }

  lemma ConsStep(x: int, v: int, y: int, w: int, b: int)
    ensures (x + b * v) + y * (b * w) == x + b * (v + y * w)
  {
    assert y * (b * w) == b * (y * w);
    assert b * (v + y * w) == b * v + b * (y * w);
  }

  lemma {:induction false} ValCons(x: nat, s: seq<nat>, b: nat)
    requires b > 0
    ensures Val([x] + s, b) == x + b * Val(s, b)
  {
    if |s| == 0 {
      assert [x] + s == [x];
      PartOne([x], 0, b);
    } else {
      var t := s[..|s| - 1];
      var y := s[|s| - 1];
      assert s == t + [y] && [x] + s == ([x] + t) + [y];
      ValCons(x, t, b);
      ValAppend(t, y, b);
      ValAppend([x] + t, y, b);
      ConsStep(x, Val(t, b), y, Pow(b, |t|), b);
    }
  }

  lemma PartLess(s: seq<nat>, t: seq<nat>, k: nat, b: nat)
    requires k < |s| && k < |t| && b > 0 && IsDigits(s, b) && s[k] < t[k]
    ensures Part(s, 0, k + 1, b) < Part(t, 0, k + 1, b)
  {
    PartBound(s, k, b);
    var w := Pow(b, k);
    PowPos(b, k);
    MulMono(s[k] + 1, t[k], w);
    assert (s[k] + 1) * w == s[k] * w + w;
  }

  /** The most significant difference decides the order. */
  lemma ValLess(s: seq<nat>, t: seq<nat>, k: nat, b: nat)
    requires |s| == |t| && k < |s| && b > 0 && IsDigits(s, b)
    requires s[k] < t[k] && forall n :: k < n < |s| ==> s[n] == t[n]
    ensures Val(s, b) < Val(t, b)
  {
    PartSplit(s, 0, k + 1, |s|, b);
    PartSplit(t, 0, k + 1, |s|, b);
    PartSame(s, t, k + 1, |s|, b);
    PartLess(s, t, k, b);
  }

  /** A value has one representation of each length. */
  lemma {:induction false} ValUnique(s: seq<nat>, t: seq<nat>, b: nat)
    requires |s| == |t| && b > 0 && IsDigits(s, b) && IsDigits(t, b) && Val(s, b) == Val(t, b)
    ensures s == t
  {
    if s != t {
      var k := LastDifference(s, t);
      if s[k] < t[k] { ValLess(s, t, k, b); } else { ValLess(t, s, k, b); }
    }
  }

  lemma {:induction false} LastDifference(s: seq<nat>, t: seq<nat>) returns (k: nat)
    requires |s| == |t| && s != t
    ensures k < |s| && s[k] != t[k] && forall n :: k < n < |s| ==> s[n] == t[n]
  {
    k := |s| - 1;
    while s[k] == t[k]
      invariant 0 <= k < |s| && forall n :: k < n < |s| ==> s[n] == t[n]
      decreases k
    {
      assert k == 0 ==> s == t;
      k := k - 1;
    }
  }

  function Quo(n: nat, b: nat): (q: nat)
    requires b > 0
  {
    if n < b then 0 else 1 + Quo(n - b, b)
  }

  lemma {:induction false} QuoRem(n: nat, b: nat)
    requires b > 0
    ensures 0 <= Rem(n, b) < b && n == Quo(n, b) * b + Rem(n, b)
  {
    if n >= b {
      QuoRem(n - b, b);
      assert (1 + Quo(n - b, b)) * b == b + Quo(n - b, b) * b;
    }
  }

  /** The `len` low digits of `n`, least significant first. */
  function ToDigits(n: nat, len: nat, b: nat): (s: seq<nat>)
    requires b > 0
    ensures |s| == len
    decreases len
  {
    if len == 0 then [] else
      RemRange(n, b);
      [Rem(n, b)] + ToDigits(Quo(n, b), len - 1, b)
  }

  lemma {:induction false} ToDigitsAreDigits(n: nat, len: nat, b: nat)
    requires b > 0
    ensures IsDigits(ToDigits(n, len, b), b)
    decreases len
  {
    if len > 0 {
      RemRange(n, b);
      ToDigitsAreDigits(Quo(n, b), len - 1, b);
    }
  }

  lemma DivShrinks(n: nat, b: nat, q: nat)
    requires b > 0 && n < b * q
    ensures Quo(n, b) < q
  {
    QuoRem(n, b);
    if Quo(n, b) >= q { MulMono(q, Quo(n, b), b); }
  }

  lemma {:induction false} ValToDigits(n: nat, len: nat, b: nat)
    requires b > 0 && n < Pow(b, len)
    ensures Val(ToDigits(n, len, b), b) == n
    decreases len
  {
    if len > 0 {
      DivShrinks(n, b, Pow(b, len - 1));
      ValToDigits(Quo(n, b), len - 1, b);
      QuoRem(n, b);
      ValCons(Rem(n, b), ToDigits(Quo(n, b), len - 1, b), b);
    }
  }

  lemma ToDigitsVal(s: seq<nat>, b: nat)
    requires b > 0 && IsDigits(s, b)
    ensures ToDigits(Val(s, b), |s|, b) == s
  {
    ValBound(s, b);
    ValToDigits(Val(s, b), |s|, b);
    ToDigitsAreDigits(Val(s, b), |s|, b);
    ValUnique(ToDigits(Val(s, b), |s|, b), s, b);
  }

  /** `g` holds one base-`b^w` digit for each `w` base-`b` digits of `s`. */
  ghost predicate Grouped(s: seq<nat>, g: seq<nat>, w: nat, b: nat)
    requires b > 0
  {
    && |s| == |g| * w
    && forall i :: 0 <= i < |g| ==>
      0 <= i * w && i * w + w <= |s| && g[i] == Val(s[i * w..i * w + w], b)
  }

  lemma {:induction false} PartGroup(s: seq<nat>, g: seq<nat>, w: nat, n: nat, b: nat)
    requires b > 0 && n <= |g| && Grouped(s, g, w, b)
    ensures Pow(b, w) > 0
    ensures 0 <= n * w <= |s| && Part(g, 0, n, Pow(b, w)) == Part(s, 0, n * w, b)
  {
    PowPos(b, w);
    MulMono(n, |g|, w);
    if n > 0 {
      PartGroup(s, g, w, n - 1, b);
      PartGroupStep(s, g, w, n - 1, b);
      assert n * w == (n - 1) * w + w;
    }
  }

  lemma PartGroupStep(s: seq<nat>, g: seq<nat>, w: nat, i: nat, b: nat)
    requires b > 0 && i < |g| && Grouped(s, g, w, b) && Pow(b, w) > 0
    ensures i * w >= 0 && i * w + w <= |s|
    ensures Part(s, 0, i * w + w, b) == Part(s, 0, i * w, b) + g[i] * Pow(Pow(b, w), i)
  {
    PartSplit(s, 0, i * w, i * w + w, b);
    PartShift(s, i * w, w, b);
    PowPow(b, w, i);
    assert w * i == i * w;
  }

  lemma ValGroup(s: seq<nat>, g: seq<nat>, w: nat, b: nat)
    requires b > 0 && Grouped(s, g, w, b)
    ensures Pow(b, w) > 0 && Val(g, Pow(b, w)) == Val(s, b)
  {
    PartGroup(s, g, w, |g|, b);
  }

  lemma ShiftStep(v: int, x: int, u: int, w: int)
    ensures (v + x * u) * w == v * w + x * (w * u)
  {
    assert (v + x * u) * w == v * w + (x * u) * w;
    MulAssoc(x, u, w);
  }

  /** A slice contributes its own value, shifted. */
  lemma {:induction false} PartShift(s: seq<nat>, lo: nat, len: nat, b: nat)
    requires b > 0 && lo + len <= |s|
    ensures Part(s, lo, lo + len, b) == Val(s[lo..lo + len], b) * Pow(b, lo)
  {
    if len > 0 {
      PartShift(s, lo, len - 1, b);
      var t, x := s[lo..lo + len - 1], s[lo + len - 1];
      assert s[lo..lo + len] == t + [x];
      ValAppend(t, x, b);
      PowAdd(b, lo, len - 1);
      ShiftStep(Val(t, b), x, Pow(b, len - 1), Pow(b, lo));
    }
  }

  // ---- Big-endian bytes ---------------------------------------------------

  function Reverse<T>(s: seq<T>): (r: seq<T>)
    ensures |r| == |s|
    ensures forall n :: 0 <= n < |s| ==> r[n] == s[|s| - 1 - n]
  {
    seq(|s|, n requires 0 <= n < |s| => s[|s| - 1 - n])
  }

  lemma ReverseTwice<T>(s: seq<T>)
    ensures Reverse(Reverse(s)) == s
  {
    assert |Reverse(Reverse(s))| == |s|;
  }

  lemma ReverseSlice<T>(s: seq<T>, lo: nat, hi: nat)
    requires lo <= hi <= |s|
    ensures Reverse(s[lo..hi]) == Reverse(s)[|s| - hi..|s| - lo]
  {
    var a, b := Reverse(s[lo..hi]), Reverse(s)[|s| - hi..|s| - lo];
    forall n | 0 <= n < hi - lo ensures a[n] == b[n] {
      assert a[n] == s[hi - 1 - n];
    }
  }

  /** Horner's rule over big-endian digits. */
  function BeVal(s: seq<nat>, b: nat): nat
  {
    if s == [] then 0 else BeVal(s[..|s| - 1], b) * b + s[|s| - 1]
  }

  lemma {:induction false} BeValIsVal(s: seq<nat>, b: nat)
    requires b > 0
    ensures BeVal(s, b) == Val(Reverse(s), b)
  {
    if s != [] {
      BeValIsVal(s[..|s| - 1], b);
      assert Reverse(s) == [s[|s| - 1]] + Reverse(s[..|s| - 1]);
      ValCons(s[|s| - 1], Reverse(s[..|s| - 1]), b);
    }
  }

  /** Shortest big-endian byte string of `n`; one zero byte for zero. */
  function ToBytesBe(n: nat): (s: seq<nat>)
    ensures |s| >= 1
  {
    if n < 256 then [n] else ToBytesBe(n / 256) + [n % 256]
  }

  lemma {:induction false} ToBytesBeValue(n: nat)
    ensures BeVal(ToBytesBe(n), 256) == n && IsDigits(ToBytesBe(n), 256)
  {
    var s := ToBytesBe(n);
    if n < 256 {
      assert s[..0] == [];
    } else {
      ToBytesBeValue(n / 256);
      assert s[..|s| - 1] == ToBytesBe(n / 256);
    }
  }
}
