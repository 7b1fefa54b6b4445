/**
 The streaming Keccak-256 hasher of the guest library against the sponge of
 FIPS 202 with padding `pad10*1`.  The permutation is a parameter.
 */
module Keccak {
  import opened Common

  /** Bytes of the state; 136 of its 200 bytes are the rate, and 32 are the digest. */
  type Byte = bv8
  type Perm = seq<Byte> -> seq<Byte>

  ghost predicate KeepsWidth(perm: Perm)
  {
    forall s :: |s| == 200 ==> |perm(s)| == 200
  }

  /** The initial state. */
  const ZERO_STATE: seq<Byte> := Repeat<Byte>(0, 200)

  // ---- The sponge -------------------------------------------------------------

  /** `b` XORed into the front of the state. */
  function XorFront(s: seq<Byte>, b: seq<Byte>): (r: seq<Byte>)
    ensures |r| == |s|
  {
    seq(|s|, i requires 0 <= i < |s| => if i < |b| then s[i] ^ b[i] else s[i])
  }

  /** `b` XORed into the state from position `at`. */
  function XorRange(s: seq<Byte>, at: nat, b: seq<Byte>): (r: seq<Byte>)
    ensures |r| == |s|
  {
    seq(|s|, i requires 0 <= i < |s| => if at <= i < at + |b| then s[i] ^ b[i - at] else s[i])
  }

  /** Padding to a multiple of the rate: `0x01`, zeros, `0x80`, in one byte where they meet. */
  function Padding(n: nat): (p: seq<Byte>)
    ensures 1 <= |p| <= 136 && (n + |p|) % 136 == 0
  {
    var q := 136 - n % 136;
    if q == 1 then [0x81] else [0x01] + Repeat<Byte>(0, q - 2) + [0x80]
  }

  function Sponge(perm: Perm, s: seq<Byte>, p: seq<Byte>): seq<Byte>
    decreases |p|
  {
    if |p| < 136 then s else Sponge(perm, perm(XorFront(s, p[..136])), p[136..])
  }

  /** Absorb the padded message into the zero state and squeeze 32 bytes. */
  function Hash(perm: Perm, m: seq<Byte>): seq<Byte>
  {
    var s := Sponge(perm, ZERO_STATE, m + Padding(|m|));
    if |s| >= 32 then s[..32] else s
  }

  lemma {:induction false} SpongeWidth(perm: Perm, s: seq<Byte>, p: seq<Byte>)
    requires KeepsWidth(perm) && |s| == 200
    ensures |Sponge(perm, s, p)| == 200
    decreases |p|
  {
    if |p| >= 136 { SpongeWidth(perm, perm(XorFront(s, p[..136])), p[136..]); }
  }

  lemma {:induction false} SpongeAppend(perm: Perm, s: seq<Byte>, p: seq<Byte>, b: seq<Byte>)
    requires |p| % 136 == 0 && |b| == 136
    ensures Sponge(perm, s, p + b) == perm(XorFront(Sponge(perm, s, p), b))
    decreases |p|
  {
    if |p| == 0 {
      assert p + b == b && b[..136] == b && b[136..] == [];
      assert Sponge(perm, perm(XorFront(s, b)), []) == perm(XorFront(s, b));
    } else {
      assert (p + b)[..136] == p[..136] && (p + b)[136..] == p[136..] + b;
      SpongeAppend(perm, perm(XorFront(s, p[..136])), p[136..], b);
    }
  }

  // ---- The padding, bit by bit ----------------------------------------------------

  function Mask(i: nat): Byte
  {
    if i == 0 then 1 else if i == 1 then 2 else if i == 2 then 4 else if i == 3 then 8
    else if i == 4 then 16 else if i == 5 then 32 else if i == 6 then 64 else 128
  }

  /** Bit `i` of a byte, lowest first, the order of section B.1 of FIPS 202. */
  predicate Bit(b: Byte, i: nat)
  {
    b & Mask(i) != 0
  }

  function Bits(p: seq<Byte>): (s: seq<bool>)
    ensures |s| == 8 * |p|
  {
    seq(8 * |p|, n requires 0 <= n < 8 * |p| => Bit(p[n / 8], n % 8))
  }

  function NoBits(n: nat): (s: seq<bool>)
    ensures |s| == n
  {
    seq(n, _ => false)
  }

  /** `pad10*1(x, m)` of section 5.1 of FIPS 202. */
  function Pad101(x: nat, m: nat): seq<bool>
    requires x > 0
  {
    [true] + NoBits((-(m as int) - 2) % x) + [true]
  }

  lemma BitFacts(i: nat)
    requires i < 8
    ensures !Bit(0, i) && (Bit(0x01, i) <==> i == 0) && (Bit(0x80, i) <==> i == 7)
    ensures Bit(0x81, i) <==> i == 0 || i == 7
  {
  }

  lemma BitsAppend(p: seq<Byte>, q: seq<Byte>)
    ensures Bits(p + q) == Bits(p) + Bits(q)
  {
    var a, b := Bits(p + q), Bits(p) + Bits(q);
    forall n | 0 <= n < |a| ensures a[n] == b[n] {
      if n >= 8 * |p| {
        assert (n - 8 * |p|) / 8 == n / 8 - |p| && (n - 8 * |p|) % 8 == n % 8;
      }
    }
  }

  lemma PaddingBits(n: nat)
    ensures Bits(Padding(n)) == Pad101(1088, 8 * n)
  {
    var p := Padding(n);
    var j := (-(8 * n as int) - 2) % 1088;
    assert j == 8 * |p| - 2;
    var a, b := Bits(p), Pad101(1088, 8 * n);
    forall k | 0 <= k < |a| ensures a[k] == b[k] {
      BitFacts(k % 8);
      assert b[k] == (k == 0 || k == |a| - 1);
    }
  }

  /** The bytes absorbed are the message bits, no suffix, and `pad10*1` to the rate of 1088 bits. */
  lemma PaddedMessageBits(m: seq<Byte>)
    ensures Bits(m + Padding(|m|)) == Bits(m) + Pad101(1088, 8 * |m|)
  {
    BitsAppend(m, Padding(|m|));
    PaddingBits(|m|);
  }

  // ---- The streaming hasher ----------------------------------------------------------

  /** The state after absorbing `m`: whole blocks permuted, the rest XORed in. */
  ghost function Absorbed(perm: Perm, m: seq<Byte>): seq<Byte>
  {
    AbsorbedFrom(perm, ZERO_STATE, m, |m| % 136)
  }

  ghost function AbsorbedFrom(perm: Perm, s: seq<Byte>, m: seq<Byte>, i: nat): seq<Byte>
    requires i <= |m|
  {
    XorFront(Sponge(perm, s, m[..|m| - i]), m[|m| - i..])
  }

  lemma XorRangeStart(s: seq<Byte>, at: nat, b: seq<Byte>)
    ensures XorRange(s, at, b[..0]) == s
  {
  }

  lemma XorRangeStep(s: seq<Byte>, at: nat, b: seq<Byte>, k: nat)
    requires k < |b| && at + k < |s|
    ensures var r := XorRange(s, at, b[..k]); XorRange(s, at, b[..k + 1]) == r[at + k := r[at + k] ^ b[k]]
  {
    var r, t := XorRange(s, at, b[..k]), XorRange(s, at, b[..k + 1]);
    forall n | 0 <= n < |s| && n != at + k ensures t[n] == r[n] {
      if at <= n < at + k { assert b[..k][n - at] == b[..k + 1][n - at]; }
    }
  }

  lemma XorTwice(s: seq<Byte>, tail: seq<Byte>, piece: seq<Byte>)
    ensures XorRange(XorFront(s, tail), |tail|, piece) == XorFront(s, tail + piece)
  {
  }

  lemma ModRest(n: nat)
    ensures (n - n % 136) % 136 == 0
  {
  }

  lemma ModAdd(a: nat, b: nat)
    requires a % 136 == 0 && b < 136
    ensures (a + b) % 136 == b
  {
  }

  lemma AbsorbedSplit(perm: Perm, head: seq<Byte>, tail: seq<Byte>)
    requires |head| % 136 == 0 && |tail| < 136
    ensures Absorbed(perm, head + tail) == XorFront(Sponge(perm, ZERO_STATE, head), tail)
  {
    ModAdd(|head|, |tail|);
    assert |head + tail| == |head| + |tail|;
    assert |head + tail| % 136 == |tail|;
    AbsorbedFromSplit(perm, ZERO_STATE, head, tail);
  }

  lemma AbsorbedFromSplit(perm: Perm, s: seq<Byte>, head: seq<Byte>, tail: seq<Byte>)
    ensures AbsorbedFrom(perm, s, head + tail, |tail|) == XorFront(Sponge(perm, s, head), tail)
  {
    var m := head + tail;
    assert m[..|m| - |tail|] == head && m[|m| - |tail|..] == tail;
  }

  /** What one piece, at most up to the end of the rate, does to the state. */
  lemma AbsorbPiece(perm: Perm, m: seq<Byte>, piece: seq<Byte>)
    requires KeepsWidth(perm) && |m| % 136 + |piece| <= 136
    ensures var s := XorRange(Absorbed(perm, m), |m| % 136, piece);
      Absorbed(perm, m + piece) == if |m| % 136 + |piece| == 136 then perm(s) else s
  {
    var i := |m| % 136;
    var head, tail := m[..|m| - i], m[|m| - i..];
    var base := Sponge(perm, ZERO_STATE, head);
    assert |head| % 136 == 0;
    XorTwice(base, tail, piece);
    if i + |piece| == 136 {
      SpongeAppend(perm, ZERO_STATE, head, tail + piece);
      AbsorbedSplit(perm, head + (tail + piece), []);
      XorNothing(Sponge(perm, ZERO_STATE, head + (tail + piece)));
      assert head + (tail + piece) + [] == m + piece;
    } else {
      AbsorbedSplit(perm, head, tail + piece);
      assert head + (tail + piece) == m + piece;
    }
  }

  lemma XorNothing(s: seq<Byte>)
    ensures XorFront(s, []) == s
  {
  }

  lemma AbsorbedWidth(perm: Perm, m: seq<Byte>)
    requires KeepsWidth(perm)
    ensures |Absorbed(perm, m)| == 200
  {
    AbsorbedFromWidth(perm, ZERO_STATE, m, |m| % 136);
  }

  lemma AbsorbedFromWidth(perm: Perm, s: seq<Byte>, m: seq<Byte>, i: nat)
    requires KeepsWidth(perm) && |s| == 200 && i <= |m|
    ensures |AbsorbedFrom(perm, s, m, i)| == 200
  {
    SpongeWidth(perm, s, m[..|m| - i]);
  }

  /** The two padding bits as the code sets them. */
  function SetPadding(a: seq<Byte>, i: nat): (s: seq<Byte>)
    requires |a| == 200 && i < 136
  {
    var t := a[i := a[i] ^ 0x01];
    t[135 := t[135] ^ 0x80]
  }

  /** What the padding byte at `n` must do to a state byte `x`, with the message ending before `i`. */
  function PaddedState(x: Byte, i: nat, n: nat): Byte
  {
    var y := if n == i then x ^ 0x01 else x;
    if n == 135 then y ^ 0x80 else y
  }

  lemma SetPaddingValue(a: seq<Byte>, i: nat, n: nat)
    requires |a| == 200 && i < 136 && n < 200
    ensures SetPadding(a, i)[n] == if i <= n < 136 then PaddedState(a[n], i, n) else a[n]
  {
  }

  /** Beyond the tail, the bytes that follow it are XORed in as if there were no tail. */
  lemma XorBehind(base: seq<Byte>, tail: seq<Byte>, p: seq<Byte>, n: nat)
    requires n < |base|
    ensures XorFront(base, tail + p)[n] ==
      if |tail| <= n < |tail| + |p| then XorFront(base, tail)[n] ^ p[n - |tail|] else XorFront(base, tail)[n]
  {
  }

  lemma SetPaddingIsXor(base: seq<Byte>, tail: seq<Byte>, len: nat)
    requires |base| == 200 && |tail| == len % 136
    ensures SetPadding(XorFront(base, tail), |tail|) == XorFront(base, tail + Padding(len))
  {
    var a := XorFront(base, tail);
    var s, r := SetPadding(a, |tail|), XorFront(base, tail + Padding(len));
    forall n | 0 <= n < 200 ensures s[n] == r[n] {
      SetPaddingValue(a, |tail|, n);
      XorBehind(base, tail, Padding(len), n);
      if |tail| <= n < 136 { PaddedByte(a[n], len, n); }
    }
  }

  /** Setting the two padding bits in place absorbs the padding, also when they share a byte. */
  lemma AbsorbPadding(perm: Perm, m: seq<Byte>)
    requires KeepsWidth(perm) && |Absorbed(perm, m)| == 200
    ensures perm(SetPadding(Absorbed(perm, m), |m| % 136)) == Sponge(perm, ZERO_STATE, m + Padding(|m|))
  {
    var i := |m| % 136;
    var head, tail := m[..|m| - i], m[|m| - i..];
    ModRest(|m|);
    assert |head| == |m| - i && |tail| == i;
    Rejoin(m, i, Padding(|m|));
    PaddingCloses(perm, head, tail, |m|);
  }

  lemma Rejoin(m: seq<Byte>, i: nat, p: seq<Byte>)
    requires i <= |m|
    ensures m[..|m| - i] + (m[|m| - i..] + p) == m + p
  {
  }

  lemma PaddingCloses(perm: Perm, head: seq<Byte>, tail: seq<Byte>, len: nat)
    requires KeepsWidth(perm) && |head| % 136 == 0 && |tail| == len % 136
    ensures |Sponge(perm, ZERO_STATE, head)| == 200
    ensures perm(SetPadding(XorFront(Sponge(perm, ZERO_STATE, head), tail), |tail|))
         == Sponge(perm, ZERO_STATE, head + (tail + Padding(len)))
  {
    assert |tail + Padding(len)| == 136;
    SpongeWidth(perm, ZERO_STATE, head);
    SpongeAppend(perm, ZERO_STATE, head, tail + Padding(len));
    SetPaddingIsXor(Sponge(perm, ZERO_STATE, head), tail, len);
  }

  /** The padding byte by byte. */
  function PadByte(k: nat, q: nat): Byte
  {
    if k == 0 then (if q == 1 then 0x81 else 0x01) else if k == q - 1 then 0x80 else 0
  }

  lemma PaddingAt(len: nat, k: nat)
    requires k < 136 - len % 136
    ensures |Padding(len)| == 136 - len % 136 && Padding(len)[k] == PadByte(k, 136 - len % 136)
  {
  }

  lemma PadByteXor(x: Byte, i: nat, n: nat)
    requires i <= n < 136
    ensures x ^ PadByte(n - i, 136 - i) == PaddedState(x, i, n)
  {
    XorFacts(x);
  }

  lemma PaddedByte(x: Byte, len: nat, n: nat)
    requires len % 136 <= n < 136
    ensures |Padding(len)| == 136 - len % 136
    ensures x ^ Padding(len)[n - len % 136] == PaddedState(x, len % 136, n)
  {
    PaddingAt(len, n - len % 136);
    PadByteXor(x, len % 136, n);
  }

  lemma XorFacts(x: Byte)
    ensures x ^ 0 == x && (x ^ 0x01) ^ 0x80 == x ^ 0x81
  {
  }

  class Keccak256 {
    const perm: Perm
    var state: array<Byte>
    var idx: nat
    ghost var message: seq<Byte>

    ghost predicate Valid()
      reads this, state
    {
      && KeepsWidth(perm) && state.Length == 200
      && idx == |message| % 136
      && state[..] == Absorbed(perm, message)
    }

    constructor (perm: Perm)
      requires KeepsWidth(perm)
      ensures Valid() && this.perm == perm && message == [] && fresh(state)
    {
      this.perm := perm;
      state := new Byte[200](_ => 0);
      idx := 0;
      message := [];
      new;
      assert state[..] == ZERO_STATE == XorFront(ZERO_STATE, []);
    }

    method Reset()
      requires KeepsWidth(perm) && state.Length == 200
      modifies this`idx, this`message, state
      ensures Valid() && message == [] && idx == 0 && state[..] == ZERO_STATE
    {
      for n := 0 to 200
        invariant forall k :: 0 <= k < n ==> state[k] == 0
      {
        state[n] := 0;
      }
      idx := 0;
      message := [];
      assert state[..] == ZERO_STATE == XorFront(ZERO_STATE, []);
    }

    method XorIn(input: seq<Byte>)
      requires idx + |input| <= state.Length
      modifies this`idx, state
      ensures idx == old(idx) + |input|
      ensures state[..] == XorRange(old(state[..]), old(idx), input)
    {
      ghost var s := state[..];
      XorRangeStart(s, idx, input);
      for k := 0 to |input|
        invariant idx == old(idx) && state[..] == XorRange(s, idx, input[..k])
      {
        XorRangeStep(s, idx, input, k);
        state[idx + k] := state[idx + k] ^ input[k];
      }
      assert input[..|input|] == input;
      idx := idx + |input|;
    }

    method KeccakF()
      requires KeepsWidth(perm) && state.Length == 200
      modifies state
      ensures state[..] == perm(old(state[..]))
    {
      var next := perm(state[..]);
      for n := 0 to 200
        invariant forall k :: 0 <= k < n ==> state[k] == next[k]
      {
        state[n] := next[n];
      }
      assert state[..] == next;
    }

    method Absorb(piece: seq<Byte>)
      requires Valid() && idx + |piece| <= 136
      modifies this`idx, this`message, state
      ensures Valid() && message == old(message) + piece
    {
      AbsorbedWidth(perm, message);
      AbsorbPiece(perm, message, piece);
      XorIn(piece);
      if idx == 136 {
        KeccakF();
        idx := 0;
      }
      message := message + piece;
    }

    method Update(input0: seq<Byte>)
      requires Valid()
      modifies this`idx, this`message, state
      ensures Valid() && message == old(message) + input0
    {
      var input := input0;
      while input != []
        invariant Valid() && message + input == old(message) + input0
        decreases |input|
      {
        var toAbsorb := if |input| < 136 - idx then |input| else 136 - idx;
        ghost var m := message;
        Absorb(input[..toAbsorb]);
        assert (m + input[..toAbsorb]) + input[toAbsorb..] == m + input;
        input := input[toAbsorb..];
      }
      assert message + [] == message;
    }

    /** The digest of everything absorbed, whatever the chunking was. */
    method Finalize() returns (output: seq<Byte>)
      requires Valid()
      modifies state
      ensures output == Hash(perm, message)
      ensures |output| == 32 && forall i :: 0 <= i < 32 ==>
        output[i] == Sponge(perm, seq(200, _ => 0), message + Padding(|message|))[i]
    {
      assert ZERO_STATE == seq(200, _ => 0);
      SpongeWidth(perm, ZERO_STATE, message + Padding(|message|));
      AbsorbedWidth(perm, message);
      ghost var a := state[..];
      state[idx] := state[idx] ^ 0x01;
      state[136 - 1] := state[136 - 1] ^ 0x80;
      assert state[..] == SetPadding(a, idx);
      AbsorbPadding(perm, message);
      KeccakF();
      output := state[..32];
      assert output == state[..][..32];
    }
  }

  /** Hashing a message in pieces. */
  method HashChunks(perm: Perm, chunks: seq<seq<Byte>>) returns (digest: seq<Byte>)
    requires KeepsWidth(perm)
    ensures digest == Hash(perm, Concat(chunks))
  {
    var hasher := new Keccak256(perm);
    for n := 0 to |chunks|
      invariant fresh(hasher) && fresh(hasher.state) && hasher.Valid()
      invariant hasher.perm == perm && hasher.message == Concat(chunks[..n])
    {
      assert chunks[..n + 1][..n] == chunks[..n];
      hasher.Update(chunks[n]);
    }
    assert chunks[..|chunks|] == chunks;
    digest := hasher.Finalize();
  }

  /**
   The native hook on the shared hasher: it finds the hasher in its initial
   state and leaves it so.
   */
  method NativeKeccak256(hasher: Keccak256, bytes: seq<Byte>) returns (output: seq<Byte>)
    requires hasher.Valid() && hasher.message == []
    modifies hasher`idx, hasher`message, hasher.state
    ensures hasher.Valid() && hasher.message == []
    ensures output == Hash(hasher.perm, bytes)
  {
    hasher.Update(bytes);
    assert [] + bytes == bytes;
    output := hasher.Finalize();
    hasher.Reset();
  }

  /** Any number of calls through the shared hasher: each result depends on its own input only. */
  method NativeCalls(perm: Perm, inputs: seq<seq<Byte>>) returns (outputs: seq<seq<Byte>>)
    requires KeepsWidth(perm)
    ensures |outputs| == |inputs|
    ensures forall n :: 0 <= n < |inputs| ==> outputs[n] == Hash(perm, inputs[n])
  {
    var hasher := new Keccak256(perm);
    outputs := [];
    for n := 0 to |inputs|
      invariant fresh(hasher) && fresh(hasher.state) && hasher.Valid()
      invariant hasher.perm == perm && hasher.message == [] && |outputs| == n
      invariant forall k :: 0 <= k < n ==> outputs[k] == Hash(perm, inputs[k])
    {
      var output := NativeKeccak256(hasher, inputs[n]);
      outputs := outputs + [output];
    }
  }
}
