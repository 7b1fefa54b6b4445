/**
 Commitments as 32 big-endian bytes: the canonicity check, the conversion to
 and from eight base-`p` digits, and the identification with Bn254 scalars.
 */
module CommitBytes {
  import opened Arith
  import opened Digits
  import opened Bytes
  import opened Common

  type U32 = x: nat | x < 0x1_0000_0000

  /** The BabyBear modulus. */
  const P: nat := 2013265921
  const DIGEST_SIZE: nat := 8
  const COMMIT_NUM_BYTES: nat := 32

  /** The order of the Bn254 scalar field. */
  const BN254: nat := 21888242871839275222246405745257275088548364400416034343698204186575808495617

  /** `p^8`, the number of digests. */
  const P8: nat := P * P * P * P * P * P * P * P

  lemma PowersOfP()
    ensures Pow(P, 8) == P8 < BN254 < Pow(256, 32) && 0x2_0000_0000 * Pow(P, 7) < Pow(256, 32)
  {
    assert Pow(P, 1) == 2013265921;
    assert Pow(P, 2) == 4053239668659978241;
    PowAdd(P, 2, 2);
    assert Pow(P, 4) == 16428751811598850197311699254593454081;
    PowAdd(P, 4, 2);
    PowAdd(P, 6, 1);
    PowAdd(P, 4, 4);
    Pow256At32();
  }

  lemma Pow256At32()
    ensures Pow(256, 32) == 0x1_0000000000000000_0000000000000000_0000000000000000_0000000000000000
  {
    assert Pow(256, 4) == 0x1_0000_0000;
    PowAdd(256, 4, 4);
    PowAdd(256, 8, 8);
    PowAdd(256, 16, 16);
  }

  // ---- Conversions ------------------------------------------------------------

  lemma {:induction false} ShortestFits(n: nat, k: nat)
    requires k >= 1 && n < Pow(256, k)
    ensures |ToBytesBe(n)| <= k
    decreases k
  {
    if n >= 256 {
      assert Pow(256, 1) == 256;
      ShortestFits(n / 256, k - 1);
    }
  }

  method BytesToBigUint(bytes: seq<Byte>) returns (bigint: nat)
    ensures bigint == BeVal(bytes, 256)
  {
    bigint := 0;
    for i := 0 to |bytes|
      invariant bigint == BeVal(bytes[..i], 256)
    {
      assert bytes[..i + 1][..i] == bytes[..i];
      bigint := bigint * 256;
      bigint := bigint + bytes[i];
    }
    assert bytes[..|bytes|] == bytes;
  }

  lemma {:induction false} ToDigitsStep(n: nat, len: nat, b: nat)
    requires b > 0
    ensures ToDigits(n, len + 1, b) == ToDigits(n, len, b) + [Rem(QuoTimes(n, len, b), b)]
    decreases len
  {
    if len == 0 {
      RemRange(n, b);
      assert ToDigits(n, 1, b) == [Rem(n, b)] + ToDigits(Quo(n, b), 0, b);
    } else {
      ToDigitsStep(Quo(n, b), len - 1, b);
      QuoTimesFirst(n, len, b);
    }
  }

  /** `n` divided by `b`, `k` times over. */
  function QuoTimes(n: nat, k: nat, b: nat): nat
    requires b > 0
  {
    if k == 0 then n else Quo(QuoTimes(n, k - 1, b), b)
  }

  lemma {:induction false} QuoTimesFirst(n: nat, k: nat, b: nat)
    requires b > 0 && k > 0
    ensures QuoTimes(n, k, b) == QuoTimes(Quo(n, b), k - 1, b)
  {
    if k > 1 { QuoTimesFirst(n, k - 1, b); }
  }

  method BigUintToU32Digest(n: nat) returns (digest: seq<U32>)
    ensures digest == ToDigits(n, DIGEST_SIZE, P)
  {
    digest := [];
    var bigint: nat := n;
    for i := 0 to DIGEST_SIZE
      invariant bigint == QuoTimes(n, i, P) && digest == ToDigits(n, i, P)
    {
      ToDigitsStep(n, i, P);
      RemRange(bigint, P);
      var digit := Rem(bigint, P);
      bigint := Quo(bigint, P);
      digest := digest + [digit];
    }
  }

  method U32DigestToBigUint(digest: seq<U32>) returns (bigint: nat)
    ensures bigint == Val(digest, P)
  {
    bigint := 0;
    var base: nat := 1;
    for i := 0 to |digest|
      invariant base == Pow(P, i) && bigint == Part(digest, 0, i, P)
    {
      assert base * digest[i] == digest[i] * base;
      bigint := bigint + base * digest[i];
      base := base * P;
    }
  }

  lemma {:induction false} U32Bound(digest: seq<U32>, n: nat)
    requires 1 <= n <= |digest|
    ensures Part(digest, 0, n, P) <= 0x2_0000_0000 * Pow(P, n - 1)
  {
    var w := Pow(P, n - 1);
    PowPos(P, n - 1);
    MulMono(digest[n - 1], 0x1_0000_0000, w);
    if n > 1 {
      U32Bound(digest, n - 1);
      assert w == P * Pow(P, n - 2);
    } else {
      assert Part(digest, 0, 0, P) == 0;
    }
  }

  /** Any eight 32-bit digits fit into 32 bytes, so the padding subtraction cannot underflow. */
  lemma DigestFits(digest: seq<U32>)
    requires |digest| == DIGEST_SIZE
    ensures Val(digest, P) < Pow(256, 32)
  {
    U32Bound(digest, 8);
    PowersOfP();
  }

  lemma {:induction false} LeadingZeros(k: nat, s: seq<nat>)
    ensures BeVal(Repeat<nat>(0, k) + s, 256) == BeVal(s, 256)
    decreases k + |s|
  {
    var t: seq<nat> := Repeat<nat>(0, k) + s;
    if s != [] {
      assert t[..|t| - 1] == Repeat<nat>(0, k) + s[..|s| - 1];
      LeadingZeros(k, s[..|s| - 1]);
    } else if k > 0 {
      assert t[..k - 1] == Repeat<nat>(0, k - 1) + [];
      LeadingZeros(k - 1, []);
    }
  }

  /** Shortest big-endian bytes, right-aligned in a zeroed array of 32. */
  method PadTo32(n: nat) returns (ret: seq<Byte>)
    requires n < Pow(256, 32)
    ensures |ret| == COMMIT_NUM_BYTES && BeVal(ret, 256) == n
  {
    ToBytesBeValue(n);
    ShortestFits(n, 32);
    var bytes: seq<nat> := ToBytesBe(n);
    var start: nat := COMMIT_NUM_BYTES - |bytes|;
    LeadingZeros(start, bytes);
    ret := seq(COMMIT_NUM_BYTES, i requires 0 <= i < COMMIT_NUM_BYTES => if i < start then 0 else bytes[i - start]);
    assert ret == Repeat<nat>(0, start) + bytes;
  }

  method U32DigestToBytes(digest: seq<U32>) returns (ret: seq<Byte>)
    requires |digest| == DIGEST_SIZE
    ensures |ret| == COMMIT_NUM_BYTES && BeVal(ret, 256) == Val(digest, P)
  {
    DigestFits(digest);
    var n := U32DigestToBigUint(digest);
    ret := PadTo32(n);
  }

  method BytesToU32Digest(bytes: seq<Byte>) returns (digest: seq<U32>)
    ensures digest == ToDigits(BeVal(bytes, 256), DIGEST_SIZE, P)
  {
    var n := BytesToBigUint(bytes);
    digest := BigUintToU32Digest(n);
  }

  // ---- Canonicity -----------------------------------------------------------------

  ghost predicate Canonical(bytes: seq<Byte>)
  {
    |bytes| == COMMIT_NUM_BYTES && BeVal(bytes, 256) < P8
  }

  lemma DigitsValue(n: nat)
    ensures Val(ToDigits(n, 8, P), P) < P8
    ensures n < P8 ==> Val(ToDigits(n, 8, P), P) == n
  {
    PowersOfP();
    ToDigitsAreDigits(n, 8, P);
    ValBound(ToDigits(n, 8, P), P);
    if n < P8 { ValToDigits(n, 8, P); }
  }

  /** Untrusted bytes are accepted exactly when their number is below `p^8`. */
  method TryNew(bytes: seq<Byte>) returns (r: Option<seq<Byte>>)
    requires |bytes| == COMMIT_NUM_BYTES
    ensures r == if Canonical(bytes) then Some(bytes) else None
  {
    var digest := BytesToU32Digest(bytes);
    var back := U32DigestToBytes(digest);
    DigitsValue(BeVal(bytes, 256));
    if back == bytes {
      return Some(bytes);
    } else {
      if Canonical(bytes) { BytesUnique(back, bytes); }
      return None;
    }
  }

  /** A digest of eight digits below `p`; a larger limb panics. */
  method FromDigest(digest: seq<U32>) returns (r: Option<seq<Byte>>)
    requires |digest| == DIGEST_SIZE
    ensures r.Some? <==> IsDigits(digest, P)
    ensures r.Some? ==> Canonical(r.value) && BeVal(r.value, 256) == Val(digest, P)
  {
    if exists i :: 0 <= i < |digest| && digest[i] >= P {
      return None;
    }
    var bytes := U32DigestToBytes(digest);
    ValBound(digest, P);
    PowersOfP();
    return Some(bytes);
  }

  /** Back to digits; non-canonical bytes panic. */
  method ToDigest(bytes: seq<Byte>) returns (r: Option<seq<U32>>)
    requires |bytes| == COMMIT_NUM_BYTES
    ensures r.Some? <==> Canonical(bytes)
    ensures r.Some? ==> |r.value| == DIGEST_SIZE && IsDigits(r.value, P) && Val(r.value, P) == BeVal(bytes, 256)
  {
    var checked := TryNew(bytes);
    if checked.None? {
      return None;
    }
    var digest := BytesToU32Digest(bytes);
    ToDigitsAreDigits(BeVal(bytes, 256), 8, P);
    DigitsValue(BeVal(bytes, 256));
    return Some(digest);
  }

  /** Digest to bytes to digest is the identity on digests … */
  method DigestRoundTrip(digest: seq<U32>) returns (back: seq<U32>)
    requires |digest| == DIGEST_SIZE && IsDigits(digest, P)
    ensures back == digest
  {
    var bytes := FromDigest(digest);
    var r := ToDigest(bytes.value);
    back := r.value;
    ValUnique(back, digest, P);
  }

  /** … and bytes to digest to bytes on canonical bytes. */
  method BytesRoundTrip(bytes: seq<Byte>) returns (back: seq<Byte>)
    requires Canonical(bytes)
    ensures back == bytes
  {
    var digest := ToDigest(bytes);
    var r := FromDigest(digest.value);
    back := r.value;
    BytesUnique(back, bytes);
  }

  // ---- Bn254 -----------------------------------------------------------------------

  lemma Bn254Step(ret: int, base: int, v: int, w: int, byte: nat)
    requires Cong(ret, v, BN254) && Cong(base, w, BN254)
    ensures Cong(Rem(ret + base * byte, BN254), v + byte * w, BN254)
    ensures Cong(Rem(base * 256, BN254), 256 * w, BN254)
  {
    CongMul(base, w, byte, byte, BN254);
    CongAdd(ret, v, base * byte, w * byte, BN254);
    CongMul(base, w, 256, 256, BN254);
    RemRange(ret + base * byte, BN254);
    RemRange(base * 256, BN254);
    assert w * byte == byte * w;
  }

  /** The bytes as a scalar: Horner's rule in the field, from the last byte up. */
  method BytesToBn254(bytes: seq<Byte>) returns (ret: nat)
    ensures ret < BN254 && ret == Rem(BeVal(bytes, 256), BN254)
  {
    var rev := Reverse<nat>(bytes);
    ret := 0;
    var base: nat := 1;
    for i := 0 to |rev|
      invariant ret < BN254 && Cong(ret, Part(rev, 0, i, 256), BN254) && Cong(base, Pow(256, i), BN254)
    {
      Bn254Step(ret, base, Part(rev, 0, i, 256), Pow(256, i), rev[i]);
      RemRange(ret + base * rev[i], BN254);
      RemRange(base * 256, BN254);
      ret := Rem(ret + base * rev[i], BN254);
      base := Rem(base * 256, BN254);
    }
    BeValIsVal(bytes, 256);
  }

  /** A scalar is accepted as a commitment exactly below `p^8`; otherwise `new` panics. */
  method FromBn254(x: nat) returns (r: Option<seq<Byte>>)
    requires x < BN254
    ensures r.Some? <==> x < P8
    ensures r.Some? ==> Canonical(r.value) && BeVal(r.value, 256) == x
  {
    PowersOfP();
    var bytes := PadTo32(x);
    r := TryNew(bytes);
  }

  /** Commitments and scalars below `p^8` correspond one to one. */
  method Bn254RoundTrip(bytes: seq<Byte>) returns (scalar: nat, back: seq<Byte>)
    requires Canonical(bytes)
    ensures scalar == BeVal(bytes, 256) && back == bytes
  {
    PowersOfP();
    scalar := BytesToBn254(bytes);
    var r := FromBn254(scalar);
    back := r.value;
    BytesUnique(back, bytes);
  }
}
