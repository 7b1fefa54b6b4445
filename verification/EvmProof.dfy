/**
 The conversions between the raw proof, a list of Bn254 scalars, and the proof
 sent to the EVM, where the same data is big-endian bytes.
 */
module EvmProof {
  import opened Arith
  import opened Digits
  import opened Bytes
  import opened Common
  import opened CommitBytes

  const NUM_BN254_ACCUMULATOR: nat := 12
  const BN254_BYTES: nat := 32

  type Fr = x: nat | x < BN254

  datatype RawEvmProof = RawEvmProof(instances: seq<Fr>, proof: seq<Byte>)

  /** The two commitments are values of the `CommitBytes` type, hence canonical. */
  datatype EvmProof = EvmProof(exeCommit: seq<Byte>, vmCommit: seq<Byte>, userPublicValues: seq<Byte>,
                               accumulator: seq<Byte>, proof: seq<Byte>)

  ghost predicate Typed(e: EvmProof)
  {
    Canonical(e.exeCommit) && Canonical(e.vmCommit)
  }

  datatype Error =
    | InvalidLengthInstances(length: nat)
    | InvalidAccumulatorLength(length: nat)
    | NonCanonicalScalar
    | NonCanonicalCommit

  datatype Result<+T> = Ok(value: T) | Err(error: Error)

  // ---- Scalars as bytes -----------------------------------------------------------

  /** `Fr::to_bytes`, little-endian. */
  function FrToBytes(f: Fr): (s: seq<Byte>)
    ensures |s| == 32 && Val(s, 256) == f
  {
    PowersOfP();
    ToDigitsAreDigits(f, 32, 256);
    ValToDigits(f, 32, 256);
    ToDigits(f, 32, 256)
  }

  /** `Fr::from_bytes`: only numbers below the order. */
  function FrFromBytes(s: seq<Byte>): (r: Option<Fr>)
  {
    if Val(s, 256) < BN254 then Some(Val(s, 256)) else None
  }

  lemma FromToBytes(f: Fr)
    ensures FrFromBytes(FrToBytes(f)) == Some(f)
  {
  }

  lemma LowByte(f: Fr)
    ensures FrToBytes(f)[0] == Rem(f, 256)
  {
  }

  /** Thirty-two bytes starting at chunk `i`. */
  function Chunk(s: seq<Byte>, i: nat): (c: seq<Byte>)
    requires 32 * i + 32 <= |s|
    ensures |c| == 32
  {
    s[32 * i..32 * i + 32]
  }

  ghost predicate ChunksReversed(s: seq<Byte>, t: seq<Byte>)
  {
    |t| == |s| && |s| % 32 == 0 && forall i :: 0 <= i < |s| / 32 ==> Chunk(t, i) == Reverse(Chunk(s, i))
  }

  /** Reversal of every 32-byte chunk, chunk by chunk. */
  method ReverseChunks(s: seq<Byte>) returns (t: seq<Byte>)
    requires |s| % 32 == 0
    ensures ChunksReversed(s, t)
  {
    t := [];
    for i := 0 to |s| / 32
      invariant |t| == 32 * i
      invariant forall k :: 0 <= k < i ==> Chunk(t, k) == Reverse(Chunk(s, k))
    {
      ghost var before := t;
      t := t + Reverse(Chunk(s, i));
      forall k | 0 <= k <= i ensures Chunk(t, k) == Reverse(Chunk(s, k)) {
        ChunkAppend(before, Reverse(Chunk(s, i)), k);
      }
    }
  }

  lemma ChunkAppend(t: seq<Byte>, c: seq<Byte>, k: nat)
    requires |t| % 32 == 0 && |c| == 32 && k <= |t| / 32
    ensures Chunk(t + c, k) == if k < |t| / 32 then Chunk(t, k) else c
  {
    if k < |t| / 32 {
      assert (t + c)[32 * k..32 * k + 32] == t[32 * k..32 * k + 32];
    } else {
      assert (t + c)[32 * k..32 * k + 32] == c;
    }
  }

  /** The value of chunk `i` of an accumulator in EVM byte order. */
  function AccValue(acc: seq<Byte>, i: nat): nat
    requires 32 * i + 32 <= |acc|
  {
    Val(Reverse(Chunk(acc, i)), 256)
  }

  /** Every 32 bytes of the accumulator are an instance in big-endian order. */
  ghost predicate BigEndianChunks(acc: seq<Byte>, instances: seq<Fr>)
  {
    |acc| % 32 == 0 && |acc| / 32 <= |instances| &&
    forall i :: 0 <= i < |acc| / 32 ==> BeVal(acc[32 * i..32 * i + 32], 256) == instances[i]
  }

  lemma ChunksAreBigEndian(acc: seq<Byte>, instances: seq<Fr>)
    requires |acc| % 32 == 0 && |acc| / 32 <= |instances|
    requires forall i :: 0 <= i < |acc| / 32 ==> AccValue(acc, i) == instances[i]
    ensures BigEndianChunks(acc, instances)
  {
    forall i | 0 <= i < |acc| / 32 ensures BeVal(acc[32 * i..32 * i + 32], 256) == instances[i] {
      BeValReversed(Chunk(acc, i));
      assert AccValue(acc, i) == instances[i];
    }
  }

  lemma ChunkUnique(a: seq<Byte>, b: seq<Byte>, i: nat)
    requires |a| == |b| && 32 * i + 32 <= |a| && AccValue(a, i) == AccValue(b, i)
    ensures Chunk(a, i) == Chunk(b, i)
  {
    BeValReversed(Chunk(a, i));
    BeValReversed(Chunk(b, i));
    BytesUnique(Chunk(a, i), Chunk(b, i));
  }

  lemma InChunk(a: seq<Byte>, n: nat)
    requires n < |a| && |a| % 32 == 0
    ensures n / 32 < |a| / 32 && a[n] == Chunk(a, n / 32)[n % 32]
  {
  }

  lemma AccumulatorUnique(a: seq<Byte>, b: seq<Byte>)
    requires |a| == |b| && |a| % 32 == 0
    requires forall i :: 0 <= i < |a| / 32 ==> AccValue(a, i) == AccValue(b, i)
    ensures a == b
  {
    forall n | 0 <= n < |a| ensures a[n] == b[n] {
      InChunk(a, n);
      InChunk(b, n);
      ChunkUnique(a, b, n / 32);
    }
  }

  // ---- Raw to EVM -------------------------------------------------------------------

  /** Concatenated little-endian bytes of the first `n` scalars. */
  method ConcatBytes(fs: seq<Fr>) returns (acc: seq<Byte>)
    ensures |acc| == 32 * |fs| && forall i :: 0 <= i < |fs| ==> Chunk(acc, i) == FrToBytes(fs[i])
  {
    acc := [];
    for n := 0 to |fs|
      invariant |acc| == 32 * n && forall i :: 0 <= i < n ==> Chunk(acc, i) == FrToBytes(fs[i])
    {
      AppendScalar(acc, fs, n);
      acc := acc + FrToBytes(fs[n]);
    }
  }

  lemma AppendScalar(acc: seq<Byte>, fs: seq<Fr>, n: nat)
    requires n < |fs| && |acc| == 32 * n && forall i :: 0 <= i < n ==> Chunk(acc, i) == FrToBytes(fs[i])
    ensures forall i :: 0 <= i <= n ==> Chunk(acc + FrToBytes(fs[n]), i) == FrToBytes(fs[i])
  {
    var c := FrToBytes(fs[n]);
    forall i | 0 <= i <= n ensures Chunk(acc + c, i) == if i < n then Chunk(acc, i) else c {
      ChunkAppend(acc, c, i);
    }
  }

  method CommitOf(f: Fr) returns (r: Option<seq<Byte>>)
    ensures r.Some? <==> f < P8
    ensures r.Some? ==> Canonical(r.value) && BeVal(r.value, 256) == f
  {
    var bytes := Reverse(FrToBytes(f));
    BeValReversed(bytes);
    ReverseTwice(FrToBytes(f));
    r := TryNew(bytes);
  }

  /** What the conversion promises of its result. */
  ghost predicate Represents(e: EvmProof, raw: RawEvmProof)
  {
    && |raw.instances| > 14 && Typed(e)
    && |e.accumulator| == 384
    && (forall i :: 0 <= i < 12 ==> AccValue(e.accumulator, i) == raw.instances[i])
    && BeVal(e.exeCommit, 256) == raw.instances[12] && BeVal(e.vmCommit, 256) == raw.instances[13]
    && |e.userPublicValues| == |raw.instances| - 14
    && (forall n :: 0 <= n < |e.userPublicValues| ==> e.userPublicValues[n] == Rem(raw.instances[14 + n], 256))
    && e.proof == raw.proof
  }

  method ToEvm(raw: RawEvmProof) returns (r: Result<EvmProof>)
    ensures r.Ok? <==> |raw.instances| > 14 && raw.instances[12] < P8 && raw.instances[13] < P8
    ensures r.Ok? ==> Represents(r.value, raw)
    ensures r.Ok? ==> BigEndianChunks(r.value.accumulator, raw.instances)
    ensures r.Err? ==>
      r == Err(if |raw.instances| <= 14 then InvalidLengthInstances(|raw.instances|) else NonCanonicalCommit)
  {
    var instances := raw.instances;
    if |instances| <= NUM_BN254_ACCUMULATOR + 2 {
      return Err(InvalidLengthInstances(|instances|));
    }
    var accumulator := ConcatBytes(instances[..NUM_BN254_ACCUMULATOR]);
    var evmAccumulator := ReverseChunks(accumulator);
    forall i | 0 <= i < 12 ensures AccValue(evmAccumulator, i) == instances[i] {
      ReverseTwice(Chunk(accumulator, i));
      assert Chunk(accumulator, i) == FrToBytes(instances[i]);
    }
    var user := LowBytes(instances[NUM_BN254_ACCUMULATOR + 2..]);
    var exe := CommitOf(instances[NUM_BN254_ACCUMULATOR]);
    if exe.None? {
      return Err(NonCanonicalCommit);
    }
    var vm := CommitOf(instances[NUM_BN254_ACCUMULATOR + 1]);
    if vm.None? {
      return Err(NonCanonicalCommit);
    }
    ChunksAreBigEndian(evmAccumulator, instances);
    return Ok(EvmProof(exe.value, vm.value, user, evmAccumulator, raw.proof));
  }

  method LowBytes(fs: seq<Fr>) returns (user: seq<Byte>)
    ensures |user| == |fs| && forall n :: 0 <= n < |fs| ==> user[n] == Rem(fs[n], 256)
  {
    user := [];
    for n := 0 to |fs|
      invariant |user| == n && forall k :: 0 <= k < n ==> user[k] == Rem(fs[k], 256)
    {
      LowByte(fs[n]);
      user := user + [FrToBytes(fs[n])[0]];
    }
  }

  // ---- EVM to raw -------------------------------------------------------------------

  method CommitToFr(bytes: seq<Byte>) returns (r: Option<Fr>)
    requires Canonical(bytes)
    ensures r.Some? && r.value == BeVal(bytes, 256)
  {
    PowersOfP();
    BeValReversed(bytes);
    r := FrFromBytes(Reverse(bytes));
  }

  method UserScalars(user: seq<Byte>) returns (frs: seq<Fr>)
    ensures |frs| == |user| && forall n :: 0 <= n < |user| ==> frs[n] == user[n]
  {
    frs := [];
    for n := 0 to |user|
      invariant |frs| == n && forall k :: 0 <= k < n ==> frs[k] == user[k]
    {
      var bytes: seq<Byte> := Repeat<Byte>(0, 32)[0 := user[n]];
      OneByte(bytes);
      frs := frs + [FrFromBytes(bytes).value];
    }
  }

  lemma OneByte(bytes: seq<Byte>)
    requires |bytes| == 32 && forall i :: 1 <= i < 32 ==> bytes[i] == 0
    ensures Val(bytes, 256) == bytes[0]
  {
    ZeroTail(bytes, 32);
  }

  lemma {:induction false} ZeroTail(bytes: seq<Byte>, n: nat)
    requires 1 <= n <= |bytes| && forall i :: 1 <= i < |bytes| ==> bytes[i] == 0
    ensures Part(bytes, 0, n, 256) == bytes[0]
  {
    if n > 1 {
      ZeroTail(bytes, n - 1);
    } else {
      PartOne(bytes, 0, 256);
    }
  }

  ghost predicate ScalarAccumulator(acc: seq<Byte>)
  {
    |acc| % 32 == 0 && forall i :: 0 <= i < |acc| / 32 ==> AccValue(acc, i) < BN254
  }

  ghost predicate Rebuilds(raw: RawEvmProof, e: EvmProof)
  {
    var k := |e.accumulator| / 32;
    && |raw.instances| == k + 2 + |e.userPublicValues|
    && (forall i :: 0 <= i < k ==> raw.instances[i] == AccValue(e.accumulator, i))
    && raw.instances[k] == BeVal(e.exeCommit, 256) && raw.instances[k + 1] == BeVal(e.vmCommit, 256)
    && (forall n :: 0 <= n < |e.userPublicValues| ==> raw.instances[k + 2 + n] == e.userPublicValues[n])
    && raw.proof == e.proof
  }

  method ToRaw(e: EvmProof) returns (r: Result<RawEvmProof>)
    requires Typed(e)
    ensures r.Ok? <==> ScalarAccumulator(e.accumulator)
    ensures r.Ok? ==> Rebuilds(r.value, e)
    ensures r.Ok? ==> BigEndianChunks(e.accumulator, r.value.instances)
    ensures r.Err? ==>
      r == Err(if |e.accumulator| % 32 != 0 then InvalidAccumulatorLength(|e.accumulator|) else NonCanonicalScalar)
  {
    if |e.accumulator| % BN254_BYTES != 0 {
      return Err(InvalidAccumulatorLength(|e.accumulator|));
    }
    var reversed := ReverseChunks(e.accumulator);
    var exe := CommitToFr(e.exeCommit);
    var vm := CommitToFr(e.vmCommit);
    var user := UserScalars(e.userPublicValues);
    var instances: seq<Fr> := [];
    for i := 0 to |reversed| / BN254_BYTES
      invariant |instances| == i && forall k :: 0 <= k < i ==> instances[k] == AccValue(e.accumulator, k)
    {
      var c := FrFromBytes(Chunk(reversed, i));
      assert Val(Chunk(reversed, i), 256) == AccValue(e.accumulator, i);
      if c.None? {
        return Err(NonCanonicalScalar);
      }
      instances := instances + [c.value];
    }
    instances := instances + [exe.value];
    instances := instances + [vm.value];
    instances := instances + user;
    ChunksAreBigEndian(e.accumulator, instances);
    return Ok(RawEvmProof(instances, e.proof));
  }

  // ---- Round trips --------------------------------------------------------------------

  ghost predicate SingleBytes(instances: seq<Fr>)
  {
    forall n :: 14 <= n < |instances| ==> instances[n] < 256
  }

  /**
   Raw to EVM and back: whenever the first conversion succeeds so does the
   second, and the result is the input exactly when the user values are bytes.
   */
  method RawRoundTrip(raw: RawEvmProof) returns (r: Result<RawEvmProof>)
    ensures r.Ok? <==> |raw.instances| > 14 && raw.instances[12] < P8 && raw.instances[13] < P8
    ensures r.Ok? ==> (r.value == raw <==> SingleBytes(raw.instances))
  {
    var evm := ToEvm(raw);
    if evm.Err? {
      return Err(evm.error);
    }
    r := ToRaw(evm.value);
    SameInstances(raw, evm.value, r.value);
  }

  lemma SameInstances(raw: RawEvmProof, e: EvmProof, back: RawEvmProof)
    requires Represents(e, raw) && Rebuilds(back, e)
    ensures back == raw <==> SingleBytes(raw.instances)
  {
    forall n | 14 <= n < |raw.instances|
      ensures back.instances[n] == Rem(raw.instances[n], 256)
      ensures back.instances[n] == raw.instances[n] <==> raw.instances[n] < 256
    {
      assert e.userPublicValues[n - 14] == Rem(raw.instances[14 + (n - 14)], 256);
      assert back.instances[12 + 2 + (n - 14)] == e.userPublicValues[n - 14];
      RemRange(raw.instances[n], 256);
    }
    if SingleBytes(raw.instances) {
      assert back.instances == raw.instances;
    }
  }

  /**
   EVM to raw and back, from whatever the first conversion accepts: it succeeds
   and restores the proof exactly when the accumulator has twelve scalars and
   there is a user value.
   */
  method EvmRoundTrip(e: EvmProof) returns (r: Result<EvmProof>)
    requires Typed(e) && ScalarAccumulator(e.accumulator)
    ensures (r.Ok? && r.value == e) <==> |e.accumulator| == 384 && |e.userPublicValues| > 0
    ensures |e.accumulator| / 32 + |e.userPublicValues| <= 12 ==> r.Err?
  {
    var raw := ToRaw(e);
    r := ToEvm(raw.value);
    if r.Ok? && |e.accumulator| == 384 {
      SameProof(e, raw.value, r.value);
    }
    if |e.accumulator| == 384 { CommitsAreScalars(e, raw.value); }
  }

  lemma CommitsAreScalars(e: EvmProof, raw: RawEvmProof)
    requires Typed(e) && Rebuilds(raw, e) && |e.accumulator| == 384
    ensures raw.instances[12] < P8 && raw.instances[13] < P8
  {
  }

  lemma SameProof(e: EvmProof, raw: RawEvmProof, back: EvmProof)
    requires Typed(e) && Rebuilds(raw, e) && Represents(back, raw) && |e.accumulator| == 384
    ensures back == e
  {
    BytesUnique(back.exeCommit, e.exeCommit);
    BytesUnique(back.vmCommit, e.vmCommit);
    forall i | 0 <= i < 12 ensures AccValue(back.accumulator, i) == AccValue(e.accumulator, i) {
      assert raw.instances[i] == AccValue(e.accumulator, i);
    }
    AccumulatorUnique(back.accumulator, e.accumulator);
    forall n | 0 <= n < |e.userPublicValues| ensures back.userPublicValues[n] == e.userPublicValues[n] {
      assert raw.instances[12 + 2 + n] == e.userPublicValues[n];
      assert back.userPublicValues[n] == Rem(raw.instances[14 + n], 256);
    }
  }

  /** A user value that is no single byte comes back cut to its low byte. */
  method WideUserValue() returns (raw: RawEvmProof, back: Result<RawEvmProof>)
    ensures |raw.instances| == 15 && raw.instances[14] == 256 && raw.proof == []
    ensures back.Ok? && back.value != raw
  {
    raw := RawEvmProof(seq(15, i => if i == 14 then 256 else 0), []);
    back := RawRoundTrip(raw);
    assert raw.instances[14] == 256;
  }

  /** Without user values the way back is refused, although the way there was not. */
  method NoUserValues() returns (e: EvmProof, back: Result<EvmProof>)
    ensures Typed(e) && ScalarAccumulator(e.accumulator) && |e.accumulator| == 384 && e.userPublicValues == []
    ensures back.Err?
  {
    var zeros := Repeat<Byte>(0, 384);
    ZeroProof(zeros);
    e := EvmProof(zeros[..32], zeros[..32], [], zeros, []);
    back := EvmRoundTrip(e);
  }

  lemma ZeroProof(zeros: seq<Byte>)
    requires zeros == Repeat<Byte>(0, 384)
    ensures Canonical(zeros[..32]) && ScalarAccumulator(zeros)
  {
    var z := Repeat<Byte>(0, 32);
    ZeroTail(z, 32);
    BeValReversed(z);
    assert Reverse(z) == z && zeros[..32] == z;
    forall i | 0 <= i < 12 ensures AccValue(zeros, i) < BN254 {
      assert Chunk(zeros, i) == z;
    }
  }
}
