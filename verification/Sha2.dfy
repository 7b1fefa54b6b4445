/**
 The streaming SHA-2 hashers of the guest library against the one-shot hash of
 FIPS 180-4.  The compression function is a parameter; SHA-256, SHA-512 and
 SHA-384 are variants of one hasher.
 */
module Sha2 {
  import opened Arith
  import opened Bytes
  import opened Common
  import opened Digits

  type State = seq<nat>
  type Compress = (State, seq<Byte>) -> State

  /** Block size and width of the length field in bytes, initial words, word and digest size. */
  datatype Variant = Variant(block: nat, lenBytes: nat, init: State, wordBytes: nat, outBytes: nat)

  const SHA256: Variant := Variant(64, 8,
    [0x6a09e667, 0xbb67ae85, 0x3c6ef372, 0xa54ff53a, 0x510e527f, 0x9b05688c, 0x1f83d9ab, 0x5be0cd19], 4, 32)

  const SHA512: Variant := Variant(128, 16,
    [0x6a09e667f3bcc908, 0xbb67ae8584caa73b, 0x3c6ef372fe94f82b, 0xa54ff53a5f1d36f1,
     0x510e527fade682d1, 0x9b05688c2b3e6c1f, 0x1f83d9abfb41bd6b, 0x5be0cd19137e2179], 8, 64)

  const SHA384: Variant := Variant(128, 16,
    [0xcbbb9d5dc1059ed8, 0x629a292a367cd507, 0x9159015a3070dd17, 0x152fecd8f70e5939,
     0x67332667ffc00b31, 0x8eb44a8768581511, 0xdb0c2e0d64f98fa7, 0x47b5481dbefa4fa4], 8, 48)

  ghost predicate Sizes(v: Variant)
  {
    (v.block == 64 && v.lenBytes == 8) || (v.block == 128 && v.lenBytes == 16)
  }

  /** One more than the largest length that the counter of the hasher can hold. */
  function Limit(v: Variant): nat
  {
    if v.lenBytes == 8 then 0x1_0000_0000_0000_0000 else 0x1_0000_0000_0000_0000_0000_0000_0000_0000
  }

  // ---- The initial words --------------------------------------------------------

  /** `h` is the first `log2 unit` bits of the fractional part of the square root of `p`; `k` is the integer part. */
  ghost predicate RootFraction(h: nat, p: nat, k: nat, unit: nat)
  {
    h < unit && (k * unit + h) * (k * unit + h) <= p * (unit * unit) < (k * unit + h + 1) * (k * unit + h + 1)
  }

  const TWO32: nat := 0x1_0000_0000
  const TWO64: nat := 0x1_0000_0000_0000_0000

  /** Section 5.3.3 of FIPS 180-4: the square roots of the first eight primes. */
  lemma InitialWords256()
    ensures |SHA256.init| == 8
    ensures RootFraction(SHA256.init[0], 2, 1, TWO32) && RootFraction(SHA256.init[1], 3, 1, TWO32)
    ensures RootFraction(SHA256.init[2], 5, 2, TWO32) && RootFraction(SHA256.init[3], 7, 2, TWO32)
    ensures RootFraction(SHA256.init[4], 11, 3, TWO32) && RootFraction(SHA256.init[5], 13, 3, TWO32)
    ensures RootFraction(SHA256.init[6], 17, 4, TWO32) && RootFraction(SHA256.init[7], 19, 4, TWO32)
  {
  }

  /** Section 5.3.5 of FIPS 180-4: the same square roots to 64 bits. */
  lemma InitialWords512()
    ensures |SHA512.init| == 8
    ensures RootFraction(SHA512.init[0], 2, 1, TWO64) && RootFraction(SHA512.init[1], 3, 1, TWO64)
    ensures RootFraction(SHA512.init[2], 5, 2, TWO64) && RootFraction(SHA512.init[3], 7, 2, TWO64)
    ensures RootFraction(SHA512.init[4], 11, 3, TWO64) && RootFraction(SHA512.init[5], 13, 3, TWO64)
    ensures RootFraction(SHA512.init[6], 17, 4, TWO64) && RootFraction(SHA512.init[7], 19, 4, TWO64)
  {
  }

  /** Section 5.3.4 of FIPS 180-4: the square roots of the ninth to the sixteenth prime. */
  lemma InitialWords384()
    ensures |SHA384.init| == 8
    ensures RootFraction(SHA384.init[0], 23, 4, TWO64) && RootFraction(SHA384.init[1], 29, 5, TWO64)
    ensures RootFraction(SHA384.init[2], 31, 5, TWO64) && RootFraction(SHA384.init[3], 37, 6, TWO64)
    ensures RootFraction(SHA384.init[4], 41, 6, TWO64) && RootFraction(SHA384.init[5], 43, 6, TWO64)
    ensures RootFraction(SHA384.init[6], 47, 6, TWO64) && RootFraction(SHA384.init[7], 53, 7, TWO64)
  {
  }

  // ---- The one-shot hash ------------------------------------------------------

  /** A number as `n` bytes, most significant first. */
  function BeBytes(x: nat, n: nat): (s: seq<Byte>)
    ensures |s| == n
  {
    if n == 0 then [] else BeBytes(x / 256, n - 1) + [x % 256]
  }

  /** The zero bytes between the marker and the length field. */
  function ZeroBytes(v: Variant, n: nat): (z: nat)
    requires Sizes(v)
    ensures z < v.block
  {
    RemRange(n + v.lenBytes, v.block);
    v.block - 1 - Rem(n + v.lenBytes, v.block)
  }

  /** Padding: the bit 1, then zeros, then the length in bits, up to a block boundary. */
  function Pad(v: Variant, m: seq<Byte>): seq<Byte>
    requires Sizes(v)
  {
    m + [0x80] + Repeat<Byte>(0, ZeroBytes(v, |m|)) + BeBytes(8 * |m|, v.lenBytes)
  }

  function Fold(v: Variant, compress: Compress, st: State, s: seq<Byte>): State
    requires Sizes(v)
    decreases |s|
  {
    if |s| < v.block then st else Fold(v, compress, compress(st, s[..v.block]), s[v.block..])
  }

  function StateBytes(v: Variant, st: State): (s: seq<Byte>)
    ensures |s| == |st| * v.wordBytes
  {
    if st == [] then [] else
      assert |st| * v.wordBytes == (|st| - 1) * v.wordBytes + v.wordBytes;
      StateBytes(v, st[..|st| - 1]) + BeBytes(st[|st| - 1], v.wordBytes)
  }

  function Truncated(s: seq<Byte>, n: nat): seq<Byte>
  {
    if n <= |s| then s[..n] else s
  }

  /** The hash with a given initial state. */
  function HashFrom(v: Variant, compress: Compress, start: State, m: seq<Byte>): seq<Byte>
    requires Sizes(v)
  {
    Truncated(StateBytes(v, Fold(v, compress, start, Pad(v, m))), v.outBytes)
  }

  function Hash(v: Variant, compress: Compress, m: seq<Byte>): seq<Byte>
    requires Sizes(v)
  {
    HashFrom(v, compress, v.init, m)
  }

  /** `k` zero bits after the marker bit complete `l` message bits up to the length field. */
  ghost predicate Completes512(l: nat, k: nat)
  {
    (l + 1 + k) % 512 == 448
  }

  ghost predicate Completes1024(l: nat, k: nat)
  {
    (l + 1 + k) % 1024 == 896
  }

  /**
   Section 5.1.1: the least `k` that completes is seven bits after the marker
   byte and eight for each zero byte.
   */
  lemma PaddingOfSection511(n: nat)
    ensures var k := 7 + 8 * ZeroBytes(SHA256, n);
      Completes512(8 * n, k) && forall j :: 0 <= j < k ==> !Completes512(8 * n, j)
  {
    var z := ZeroBytes(SHA256, n);
    RemIsMod(n + 8, 64);
    var q := (n + 1 + z + 8) / 64;
    assert n + 1 + z + 8 == 64 * q;
    assert 8 * n + 1 + (7 + 8 * z) == 512 * (q - 1) + 448;
    Between512(8 * n + 1 + (7 + 8 * z), q - 1);
    forall j | 0 <= j < 7 + 8 * z ensures !Completes512(8 * n, j) {
      Between512(8 * n + 1 + j, q - 1);
    }
  }

  lemma Between512(x: int, q: int)
    ensures x == 512 * q + 448 ==> x % 512 == 448
    ensures 512 * q - 64 < x < 512 * q + 448 ==> x % 512 != 448
  {
  }

  /** Section 5.1.2: the same for blocks of 1024 bits. */
  lemma PaddingOfSection512(n: nat)
    ensures var k := 7 + 8 * ZeroBytes(SHA512, n);
      Completes1024(8 * n, k) && forall j :: 0 <= j < k ==> !Completes1024(8 * n, j)
  {
    var z := ZeroBytes(SHA512, n);
    RemIsMod(n + 16, 128);
    var q := (n + 1 + z + 16) / 128;
    assert n + 1 + z + 16 == 128 * q;
    assert 8 * n + 1 + (7 + 8 * z) == 1024 * (q - 1) + 896;
    Between1024(8 * n + 1 + (7 + 8 * z), q - 1);
    forall j | 0 <= j < 7 + 8 * z ensures !Completes1024(8 * n, j) {
      Between1024(8 * n + 1 + j, q - 1);
    }
  }

  lemma Between1024(x: int, q: int)
    ensures x == 1024 * q + 896 ==> x % 1024 == 896
    ensures 1024 * q - 128 < x < 1024 * q + 896 ==> x % 1024 != 896
  {
  }

  // ---- Layout by value --------------------------------------------------------

  lemma {:induction false} BeBytesValue(x: nat, n: nat)
    requires x < Pow(256, n)
    ensures BeVal(BeBytes(x, n), 256) == x
  {
    if n > 0 { BeBytesValue(x / 256, n - 1); }
  }

  lemma LimitIsPower(v: Variant)
    requires Sizes(v)
    ensures Limit(v) == Pow(256, v.lenBytes)
  {
    assert Pow(256, 4) == 0x1_0000_0000;
    PowAdd(256, 4, 4);
    PowAdd(256, 8, 8);
  }

  /** `p` is `m`, the byte 0x80, zero bytes, and the number of message bits as a big-endian number. */
  ghost predicate IsPadded(v: Variant, m: seq<Byte>, p: seq<Byte>)
  {
    var end := |p| - v.lenBytes;
    && |m| < end && p[..|m|] == m && p[|m|] == 0x80
    && (forall n :: |m| < n < end ==> p[n] == 0)
    && BeVal(p[end..], 256) == 8 * |m|
  }

  /** The padded message within the length limit, and its size: whole blocks, and no block to spare. */
  lemma PadLayout(v: Variant, m: seq<Byte>)
    requires Sizes(v) && 8 * |m| < Limit(v)
    ensures IsPadded(v, m, Pad(v, m))
    ensures |Pad(v, m)| % v.block == 0 && |Pad(v, m)| <= |m| + v.lenBytes + v.block
  {
    var len := BeBytes(8 * |m|, v.lenBytes);
    var front := m + [0x80] + Repeat<Byte>(0, ZeroBytes(v, |m|));
    LimitIsPower(v);
    BeBytesValue(8 * |m|, v.lenBytes);
    assert Pad(v, m) == front + len && (front + len)[|front|..] == len;
    PadSize(v, |m|);
  }

  lemma PadSize(v: Variant, n: nat)
    requires Sizes(v)
    ensures var size := n + 1 + ZeroBytes(v, n) + v.lenBytes;
      size % v.block == 0 && size <= n + v.lenBytes + v.block
  {
    PaddedToBlocks(v, n);
    RemIsMod(n + 1 + ZeroBytes(v, n) + v.lenBytes, v.block);
  }

  /** Word `i` of `st` sits big-endian at its place in `s`. */
  ghost predicate WordAt(s: seq<Byte>, st: State, w: nat, i: nat)
  {
    i < |st| && 0 <= w * i && w * i + w <= |s| && BeVal(s[w * i..w * i + w], 256) == st[i]
  }

  lemma {:induction false} StateBytesAt(v: Variant, st: State, i: nat, at: nat)
    requires i < |st| && st[i] < Pow(256, v.wordBytes) && at == i * v.wordBytes
    ensures at + v.wordBytes <= |StateBytes(v, st)|
    ensures BeVal(StateBytes(v, st)[at..at + v.wordBytes], 256) == st[i]
    decreases |st|
  {
    var n, w := |st| - 1, v.wordBytes;
    var init, last := StateBytes(v, st[..n]), BeBytes(st[n], w);
    assert |init| == n * w;
    if i == n {
      BeBytesValue(st[n], w);
      assert (init + last)[at..at + w] == last;
    } else {
      StateBytesAt(v, st[..n], i, at);
      assert (init + last)[at..at + w] == init[at..at + w];
    }
  }

  /** The compression function keeps the eight words of the state. */
  ghost predicate EightWords(compress: Compress)
  {
    forall st, b :: |st| == 8 ==> |compress(st, b)| == 8
  }

  ghost predicate Standard(v: Variant)
  {
    v == SHA256 || v == SHA384 || v == SHA512
  }

  /**
   The hash of each variant is as long as its name says, and holds word by word,
   big-endian, the state that the blocks of the padded message fold to.
   */
  lemma HashLayout(v: Variant, compress: Compress, m: seq<Byte>)
    requires Standard(v) && EightWords(compress)
    ensures |Hash(v, compress, m)| == if v == SHA256 then 32 else if v == SHA384 then 48 else 64
    ensures var st := Fold(v, compress, v.init, Pad(v, m)); var w := if v == SHA256 then 4 else 8;
      |st| == 8 && forall i: nat :: i < |Hash(v, compress, m)| / w && st[i] < Pow(256, w) ==>
        WordAt(Hash(v, compress, m), st, w, i)
  {
    var st, w := Fold(v, compress, v.init, Pad(v, m)), v.wordBytes;
    var out := Hash(v, compress, m);
    FoldWords(v, compress, v.init, Pad(v, m));
    forall i: nat | i < |out| / w && st[i] < Pow(256, w) ensures WordAt(out, st, w, i) {
      StateBytesAt(v, st, i, w * i);
      assert out[w * i..w * i + w] == StateBytes(v, st)[w * i..w * i + w];
    }
  }

  // ---- Folding and remainders ---------------------------------------------------

  lemma {:induction false} FoldAppend(v: Variant, compress: Compress, st: State, s: seq<Byte>, b: seq<Byte>)
    requires Sizes(v) && Rem(|s|, v.block) == 0 && |b| == v.block
    ensures Fold(v, compress, st, s + b) == compress(Fold(v, compress, st, s), b)
    decreases |s|
  {
    if |s| < v.block {
      assert s + b == b && b[..v.block] == b && b[v.block..] == [];
      assert Fold(v, compress, compress(st, b), []) == compress(st, b);
    } else {
      assert (s + b)[..v.block] == s[..v.block] && (s + b)[v.block..] == s[v.block..] + b;
      FoldAppend(v, compress, compress(st, s[..v.block]), s[v.block..], b);
    }
  }

  lemma RemStep(n: nat, k: nat, b: nat)
    requires b > 0 && Rem(n, b) + k <= b
    ensures Rem(n + k, b) == if Rem(n, b) + k == b then 0 else Rem(n, b) + k
    ensures Rem(n, b) <= n
  {
    RemRange(n, b);
    var q := CongElim(n, Rem(n, b), b);
    CongIntro(n + k, Rem(n, b) + k, q, b);
    RemLe(n, b);
    assert Rem(b, b) == Rem(0, b) == 0;
  }

  lemma {:induction false} RemLe(n: nat, b: nat)
    requires b > 0
    ensures 0 <= Rem(n, b) <= n
  {
    if n >= b { RemLe(n - b, b); }
  }

  lemma RemOfRem(n: nat, k: nat, b: nat)
    requires b > 0
    ensures Rem(Rem(n, b) + k, b) == Rem(n + k, b)
  {
    RemRange(n, b);
    CongAdd(Rem(n, b), n, k, k, b);
  }

  /** A piece that leaves room in the buffer only lengthens the buffered tail. */
  lemma AbsorbedPart(v: Variant, m: seq<Byte>, i: nat, piece: seq<Byte>)
    requires Sizes(v) && i == Rem(|m|, v.block) <= |m| && i + |piece| < v.block
    ensures var m', i' := m + piece, i + |piece|;
      Rem(|m'|, v.block) == i' && m'[|m'| - i'..] == m[|m| - i..] + piece && m'[..|m'| - i'] == m[..|m| - i]
  {
    RemStep(|m|, |piece|, v.block);
  }

  /** A piece that fills the buffer completes one more block. */
  lemma AbsorbedBlock(v: Variant, compress: Compress, start: State, m: seq<Byte>, i: nat, piece: seq<Byte>)
    requires Sizes(v) && i == Rem(|m|, v.block) <= |m| && i + |piece| == v.block
    ensures Rem(|m + piece|, v.block) == 0
    ensures Fold(v, compress, start, m + piece)
         == compress(Fold(v, compress, start, m[..|m| - i]), m[|m| - i..] + piece)
  {
    RemStep(|m|, |piece|, v.block);
    BlockBoundary(|m|, v.block);
    FoldAppend(v, compress, start, m[..|m| - i], m[|m| - i..] + piece);
    assert m[..|m| - i] + (m[|m| - i..] + piece) == m + piece;
  }

  /** `m` is what was absorbed: whole blocks in the state `st`, the rest in `tail`. */
  ghost predicate Absorbed(v: Variant, compress: Compress, start: State, m: seq<Byte>, st: State, tail: seq<Byte>)
    requires Sizes(v)
  {
    && |tail| == Rem(|m|, v.block) <= |m|
    && tail == m[|m| - |tail|..]
    && st == Fold(v, compress, start, m[..|m| - |tail|])
  }

  /** Taking a piece lengthens the tail, or completes one more block. */
  lemma TakeStep(v: Variant, compress: Compress, start: State, m: seq<Byte>, st: State, tail: seq<Byte>,
                 piece: seq<Byte>)
    requires Sizes(v) && Absorbed(v, compress, start, m, st, tail) && |tail| + |piece| <= v.block
    ensures
      if |tail| + |piece| == v.block then Absorbed(v, compress, start, m + piece, compress(st, tail + piece), [])
      else Absorbed(v, compress, start, m + piece, st, tail + piece)
  {
    if |tail| + |piece| == v.block {
      AbsorbedBlock(v, compress, start, m, |tail|, piece);
      assert (m + piece)[..|m + piece|] == m + piece;
    } else {
      AbsorbedPart(v, m, |tail|, piece);
    }
  }

  method CopyIn(buffer: array<Byte>, at: nat, piece: seq<Byte>)
    requires at + |piece| <= buffer.Length
    modifies buffer
    ensures buffer[..at + |piece|] == old(buffer[..at]) + piece
  {
    for k := 0 to |piece|
      invariant buffer[..at] == old(buffer[..at]) && buffer[at..at + k] == piece[..k]
    {
      buffer[at + k] := piece[k];
    }
    assert buffer[..at + |piece|] == buffer[..at] + buffer[at..at + |piece|];
  }

  // ---- The streaming hasher --------------------------------------------------------

  class Hasher {
    const v: Variant
    const compress: Compress
    var state: State
    var buffer: array<Byte>
    var idx: nat
    var len: nat
    ghost var start: State
    ghost var message: seq<Byte>

    ghost predicate Valid()
      reads this, buffer
    {
      && Sizes(v) && buffer.Length == v.block
      && len == |message| < Limit(v)
      && Buffered()
    }

    ghost predicate Buffered()
      requires Sizes(v) && buffer.Length == v.block
      reads this, buffer
    {
      idx < v.block && Absorbed(v, compress, start, message, state, buffer[..idx])
    }

    constructor (v: Variant, compress: Compress)
      requires Sizes(v)
      ensures Valid() && this.v == v && this.compress == compress && fresh(buffer)
      ensures message == [] && start == v.init
    {
      this.v, this.compress := v, compress;
      state, start := v.init, v.init;
      buffer := new Byte[v.block](_ => 0);
      idx, len := 0, 0;
      message := [];
    }

    /** Copy the next piece into the buffer; compress when it is full. */
    method Take(piece: seq<Byte>)
      requires Sizes(v) && buffer.Length == v.block && Buffered() && idx + |piece| <= v.block
      modifies this`state, this`idx, this`message, buffer
      ensures Buffered() && message == old(message) + piece
    {
      TakeStep(v, compress, start, message, state, buffer[..idx], piece);
      CopyIn(buffer, idx, piece);
      message := message + piece;
      idx := idx + |piece|;
      if idx == v.block {
        assert buffer[..] == buffer[..idx];
        idx := 0;
        state := compress(state, buffer[..]);
      }
    }

    /** The length counter is checked first; an overflow is a panic before anything changes. */
    method Update(input0: seq<Byte>) returns (ok: bool)
      requires Valid()
      modifies this`state, this`idx, this`message, this`len, buffer
      ensures Valid() && (ok <==> old(len) + |input0| < Limit(v))
      ensures message == if ok then old(message) + input0 else old(message)
    {
      if len + |input0| >= Limit(v) {
        return false;
      }
      len := len + |input0|;
      var input := input0;
      while input != []
        invariant Sizes(v) && buffer.Length == v.block && Buffered()
        invariant message + input == old(message) + input0 && len == old(len) + |input0|
        decreases |input|
      {
        var toCopy := if |input| < v.block - idx then |input| else v.block - idx;
        ghost var before := message;
        Take(input[..toCopy]);
        assert (before + input[..toCopy]) + input[toCopy..] == before + input;
        input := input[toCopy..];
      }
      assert message + [] == message;
      return true;
    }

    lemma Flushed()
      requires Valid() && Rem(|message|, v.block) == 0
      ensures state == Fold(v, compress, start, message)
    {
      assert message[..|message| - 0] == message;
    }

    /** Both padding updates; after them the buffer is empty. */
    method AbsorbPadding() returns (ok: bool)
      requires Valid()
      modifies this`state, this`idx, this`message, this`len, buffer
      ensures ok <==> 8 * |old(message)| < Limit(v)
      ensures ok ==> state == Fold(v, compress, start, Pad(v, old(message)))
    {
      ghost var m := message;
      PaddingLength(v, |m|);
      var numPadding := v.block - Rem(idx + v.lenBytes, v.block);
      if len * 8 >= Limit(v) {
        return false;
      }
      var lengthField := BeBytes(len * 8, v.lenBytes);
      ok := Update(PaddingBytes()[..numPadding]);
      ok := Update(lengthField);
      PaddingPieces(v, m);
      Flushed();
    }

    /** The digest of everything absorbed, whatever the chunking was. */
    method Finalize() returns (output: seq<Byte>, ok: bool)
      requires Valid()
      modifies this`state, this`idx, this`message, this`len, buffer
      ensures ok <==> 8 * |old(message)| < Limit(v)
      ensures ok ==> output == HashFrom(v, compress, start, old(message))
    {
      ok := AbsorbPadding();
      output := [];
      if ok {
        for n := 0 to |state|
          invariant output == StateBytes(v, state[..n])
        {
          assert state[..n + 1][..n] == state[..n];
          output := output + BeBytes(state[n], v.wordBytes);
        }
        assert state[..|state|] == state;
        output := Truncated(output, v.outBytes);
      }
    }
  }

  /** The static padding array of the source. */
  function PaddingBytes(): (s: seq<Byte>)
    ensures |s| == 128
  {
    [0x80] + Repeat<Byte>(0, 127)
  }

  lemma PaddingLength(v: Variant, n: nat)
    requires Sizes(v)
    ensures var p := v.block - Rem(Rem(n, v.block) + v.lenBytes, v.block);
      1 <= p <= v.block && p == 1 + ZeroBytes(v, n)
    ensures Rem(n + 1 + ZeroBytes(v, n) + v.lenBytes, v.block) == 0
  {
    RemRange(n, v.block);
    RemOfRem(n, v.lenBytes, v.block);
    RemRange(n + v.lenBytes, v.block);
    PaddedToBlocks(v, n);
  }

  lemma PaddingPieces(v: Variant, m: seq<Byte>)
    requires Sizes(v)
    ensures Pad(v, m) == m + PaddingBytes()[..1 + ZeroBytes(v, |m|)] + BeBytes(|m| * 8, v.lenBytes)
    ensures Rem(|Pad(v, m)|, v.block) == 0
  {
    var z := ZeroBytes(v, |m|);
    assert PaddingBytes()[..1 + z] == [0x80] + Repeat<Byte>(0, z);
    assert m + ([0x80] + Repeat<Byte>(0, z)) == m + [0x80] + Repeat<Byte>(0, z);
    PaddedToBlocks(v, |m|);
  }

  lemma BlockBoundary(n: nat, b: nat)
    requires b > 0 && Rem(n, b) <= n
    ensures Rem(n - Rem(n, b), b) == 0
  {
    RemRange(n, b);
    var q := CongElim(n, Rem(n, b), b);
    CongIntro(n - Rem(n, b), 0, q, b);
  }

  lemma PaddedToBlocks(v: Variant, n: nat)
    requires Sizes(v)
    ensures Rem(n + 1 + ZeroBytes(v, n) + v.lenBytes, v.block) == 0
  {
    var t := n + v.lenBytes;
    RemRange(t, v.block);
    var q := CongElim(t, Rem(t, v.block), v.block);
    CongIntro(t + 1 + ZeroBytes(v, n), v.block, q, v.block);
  }

  // ---- Any chunking ---------------------------------------------------------------

  /** Hashing a message in pieces: the digest depends on the concatenation alone. */
  method HashChunks(v: Variant, compress: Compress, chunks: seq<seq<Byte>>) returns (digest: seq<Byte>, ok: bool)
    requires Sizes(v)
    ensures ok <==> 8 * |Concat(chunks)| < Limit(v)
    ensures ok ==> digest == Hash(v, compress, Concat(chunks))
  {
    var hasher := new Hasher(v, compress);
    for n := 0 to |chunks|
      invariant fresh(hasher) && fresh(hasher.buffer) && hasher.Valid()
      invariant hasher.v == v && hasher.compress == compress && hasher.start == v.init
      invariant hasher.message == Concat(chunks[..n])
    {
      assert chunks[..n + 1][..n] == chunks[..n];
      ok := hasher.Update(chunks[n]);
      if !ok {
        ConcatPrefix(chunks, n + 1);
        return [], false;
      }
    }
    assert chunks[..|chunks|] == chunks;
    digest, ok := hasher.Finalize();
  }

  lemma {:induction false} ConcatPrefix(chunks: seq<seq<Byte>>, n: nat)
    requires n <= |chunks|
    ensures |Concat(chunks[..n])| <= |Concat(chunks)|
    decreases |chunks| - n
  {
    if n == |chunks| {
      assert chunks[..n] == chunks;
    } else {
      ConcatPrefix(chunks, n + 1);
      assert chunks[..n + 1][..n] == chunks[..n];
    }
  }

  // ---- SHA-384 ----------------------------------------------------------------------

  lemma {:induction false} FoldWords(v: Variant, compress: Compress, st: State, s: seq<Byte>)
    requires Sizes(v) && EightWords(compress) && |st| == 8
    ensures |Fold(v, compress, st, s)| == 8
    decreases |s|
  {
    if |s| >= v.block { FoldWords(v, compress, compress(st, s[..v.block]), s[v.block..]); }
  }

  /** A SHA-512 hasher whose state was overwritten, and whose digest is cut. */
  class Sha384 {
    const inner: Hasher

    ghost predicate Valid()
      reads this, inner, inner.buffer
    {
      inner.Valid() && inner.v == SHA512 && inner.start == SHA384.init && EightWords(inner.compress)
    }

    constructor (compress: Compress)
      requires EightWords(compress)
      ensures Valid() && inner.message == [] && inner.compress == compress && fresh(inner) && fresh(inner.buffer)
    {
      inner := new Hasher(SHA512, compress);
      new;
      inner.state := SHA384.init;
      inner.start := SHA384.init;
      assert inner.message[..0] == [];
    }

    method Update(input: seq<Byte>) returns (ok: bool)
      requires Valid()
      modifies inner`state, inner`idx, inner`message, inner`len, inner.buffer
      ensures Valid() && (ok <==> old(inner.len) + |input| < Limit(SHA384))
      ensures inner.message == if ok then old(inner.message) + input else old(inner.message)
    {
      ok := inner.Update(input);
    }

    /** The digest is SHA-384 of everything absorbed. */
    method Finalize() returns (output: seq<Byte>, ok: bool)
      requires Valid()
      modifies inner`state, inner`idx, inner`message, inner`len, inner.buffer
      ensures ok <==> 8 * |old(inner.message)| < Limit(SHA384)
      ensures ok ==> output == Hash(SHA384, inner.compress, old(inner.message)) && |output| == 48
    {
      ghost var m := inner.message;
      FoldWords(SHA512, inner.compress, SHA384.init, Pad(SHA512, m));
      Sha384IsCutSha512(inner.compress, m);
      var digest;
      digest, ok := inner.Finalize();
      output := if ok then digest[..48] else [];
    }
  }

  /** SHA-384 of the standard is the SHA-512 computation from other initial words, cut to 48 bytes. */
  lemma Sha384IsCutSha512(compress: Compress, m: seq<Byte>)
    ensures Hash(SHA384, compress, m) == Truncated(HashFrom(SHA512, compress, SHA384.init, m), 48)
  {
    SameFold(compress, SHA384.init, Pad(SHA512, m));
    SameBytes(Fold(SHA512, compress, SHA384.init, Pad(SHA512, m)));
  }

  lemma {:induction false} SameFold(compress: Compress, st: State, s: seq<Byte>)
    ensures Fold(SHA384, compress, st, s) == Fold(SHA512, compress, st, s)
    decreases |s|
  {
    if |s| >= 128 { SameFold(compress, compress(st, s[..128]), s[128..]); }
  }

  lemma {:induction false} SameBytes(st: State)
    ensures StateBytes(SHA384, st) == StateBytes(SHA512, st)
  {
    if st != [] { SameBytes(st[..|st| - 1]); }
  }
}
