/**
 Canonical byte representations of field elements in either endianness: the
 range check of `from_repr`, its agreement with `is_valid`, and the round trip
 through `to_repr`.
 */
module Repr {
  import opened Arith
  import opened Digits
  import opened Bytes
  import opened Common
  import opened Words
  import opened WordBits
  import opened Montgomery
  import opened FieldElement

  datatype Endianness = Big | Little

  /** The number a byte string stands for. */
  function ReprValue(bytes: seq<Byte>, e: Endianness): nat
  {
    if e == Big then BeVal(bytes, 256) else Val(bytes, 256)
  }

  /** Little-endian strings start with the lowest byte, big-endian ones end with it. */
  lemma ByteOrder(b: Byte, n: nat)
    ensures ReprValue([b] + Repeat<Byte>(0, n), Little) == b && ReprValue(Repeat<Byte>(0, n) + [b], Big) == b
  {
    LowestOnly(b, n, n + 1);
    BeValReversed(Repeat<Byte>(0, n) + [b]);
    assert Reverse(Repeat<Byte>(0, n) + [b]) == [b] + Repeat<Byte>(0, n);
  }

  lemma {:induction false} LowestOnly(b: Byte, n: nat, k: nat)
    requires 1 <= k <= n + 1
    ensures Part([b] + Repeat<Byte>(0, n), 0, k, 256) == b
  {
    if k > 1 { LowestOnly(b, n, k - 1); } else { PartOne([b] + Repeat<Byte>(0, n), 0, 256); }
  }

  lemma EightBytes()
    ensures Pow(256, 8) == B
  {
    assert Pow(256, 4) == 0x1_0000_0000;
    PowAdd(256, 4, 4);
  }

  // ---- Words from bytes -----------------------------------------------------

  function WordLe(bytes: seq<Byte>): (w: Word)
    requires |bytes| == 8
  {
    BytesAreDigits(bytes);
    ValBound(bytes, 256);
    EightBytes();
    Val(bytes, 256)
  }

  function WordBe(bytes: seq<Byte>): (w: Word)
    requires |bytes| == 8
    ensures w == WordLe(Reverse(bytes))
  {
    BeValReversed(bytes);
    var w: Word := WordLe(Reverse(bytes));
    BeVal(bytes, 256)
  }

  /** `LittleEndian::read_u64_into` */
  function ReadLe(bytes: seq<Byte>): (s: seq<Word>)
    requires |bytes| % 8 == 0
    ensures |s| == |bytes| / 8
  {
    seq(|bytes| / 8, i requires 0 <= i < |bytes| / 8 => WordLe(bytes[8 * i..8 * i + 8]))
  }

  /** `BigEndian::read_u64_into` */
  function ReadBe(bytes: seq<Byte>): (s: seq<Word>)
    requires |bytes| % 8 == 0
    ensures |s| == |bytes| / 8
  {
    seq(|bytes| / 8, i requires 0 <= i < |bytes| / 8 => WordBe(bytes[8 * i..8 * i + 8]))
  }

  function FromBytes(bytes: seq<Byte>, e: Endianness): (s: seq<Word>)
    requires |bytes| % 8 == 0
    ensures |s| == |bytes| / 8
  {
    match e
    case Big => Reverse(ReadBe(bytes))
    case Little => ReadLe(bytes)
  }

  lemma ReadLeValue(bytes: seq<Byte>)
    requires |bytes| % 8 == 0
    ensures Val(ReadLe(bytes), B) == Val(bytes, 256)
  {
    var g := ReadLe(bytes);
    forall i | 0 <= i < |g|
      ensures 0 <= i * 8 && i * 8 + 8 <= |bytes| && g[i] == Val(bytes[i * 8..i * 8 + 8], 256)
    {
      assert bytes[8 * i..8 * i + 8] == bytes[i * 8..i * 8 + 8];
    }
    assert Grouped(bytes, g, 8, 256);
    ValGroup(bytes, g, 8, 256);
    EightBytes();
  }

  lemma ReadBeAt(bytes: seq<Byte>, i: nat)
    requires |bytes| % 8 == 0 && i < |bytes| / 8
    ensures Reverse(ReadBe(bytes))[i] == ReadLe(Reverse(bytes))[i]
  {
    var j := |bytes| / 8 - 1 - i;
    ReverseSlice(bytes, 8 * j, 8 * j + 8);
    assert Reverse(ReadBe(bytes))[i] == ReadBe(bytes)[j];
    assert ReadBe(bytes)[j] == WordBe(bytes[8 * j..8 * j + 8]);
  }

  /** Reading big-endian words and reversing them is reading the reversed bytes. */
  lemma ReadBeReversed(bytes: seq<Byte>)
    requires |bytes| % 8 == 0
    ensures Reverse(ReadBe(bytes)) == ReadLe(Reverse(bytes))
  {
    forall i | 0 <= i < |bytes| / 8
      ensures Reverse(ReadBe(bytes))[i] == ReadLe(Reverse(bytes))[i]
    {
      ReadBeAt(bytes, i);
    }
  }

  lemma ReadBeValue(bytes: seq<Byte>)
    requires |bytes| % 8 == 0
    ensures Val(Reverse(ReadBe(bytes)), B) == BeVal(bytes, 256)
  {
    ReadBeReversed(bytes);
    ReadLeValue(Reverse(bytes));
    BeValReversed(bytes);
  }

  lemma FromBytesValue(bytes: seq<Byte>, e: Endianness)
    requires |bytes| % 8 == 0
    ensures Val(FromBytes(bytes, e), B) == ReprValue(bytes, e)
  {
    match e
    case Little => ReadLeValue(bytes);
    case Big => ReadBeValue(bytes);
  }

  // ---- Bytes from words -----------------------------------------------------

  function WordBytes(w: Word): (s: seq<Byte>)
    ensures |s| == 8 && Val(s, 256) == w
  {
    EightBytes();
    ToDigitsAreDigits(w, 8, 256);
    ValToDigits(w, 8, 256);
    ToDigits(w, 8, 256)
  }

  ghost predicate Octets(g: seq<seq<Byte>>)
  {
    forall i :: 0 <= i < |g| ==> |g[i]| == 8
  }

  function Map<X, Y>(f: X -> Y, s: seq<X>): (r: seq<Y>)
    ensures |r| == |s|
  {
    seq(|s|, i requires 0 <= i < |s| => f(s[i]))
  }

  function AllWordBytes(s: seq<Word>): (g: seq<seq<Byte>>)
    ensures |g| == |s| && Octets(g)
  {
    Map(WordBytes, s)
  }

  function Join(g: seq<seq<Byte>>): (bytes: seq<Byte>)
    requires Octets(g)
    ensures |bytes| == 8 * |g|
  {
    seq(8 * |g|, n requires 0 <= n < 8 * |g| => g[n / 8][n % 8])
  }

  function JoinReversed(g: seq<seq<Byte>>): (bytes: seq<Byte>)
    requires Octets(g)
    ensures |bytes| == 8 * |g|
  {
    seq(8 * |g|, n requires 0 <= n < 8 * |g| => g[n / 8][7 - n % 8])
  }

  /** `LittleEndian::write_u64_into` */
  function WriteLe(s: seq<Word>): (bytes: seq<Byte>)
    ensures |bytes| == 8 * |s|
  {
    Join(AllWordBytes(s))
  }

  /** `BigEndian::write_u64_into` */
  function WriteBe(s: seq<Word>): (bytes: seq<Byte>)
    ensures |bytes| == 8 * |s|
  {
    JoinReversed(AllWordBytes(s))
  }

  function ToBytes(s: seq<Word>, e: Endianness): (bytes: seq<Byte>)
    ensures |bytes| == 8 * |s|
  {
    match e
    case Big => WriteBe(Reverse(s))
    case Little => WriteLe(s)
  }

  lemma JoinSlice(g: seq<seq<Byte>>, i: nat)
    requires Octets(g) && i < |g|
    ensures Join(g)[8 * i..8 * i + 8] == g[i]
  {
    var a := Join(g)[8 * i..8 * i + 8];
    forall n | 0 <= n < 8 ensures a[n] == g[i][n] {
      assert (8 * i + n) / 8 == i && (8 * i + n) % 8 == n;
    }
  }

  lemma JoinAt(g: seq<seq<Byte>>, n: nat)
    requires Octets(g) && n < 8 * |g|
    ensures Octets(Reverse(g)) && JoinReversed(Reverse(g))[n] == Reverse(Join(g))[n]
  {
    var k := 8 * |g| - 1 - n;
    assert k / 8 == |g| - 1 - n / 8 && k % 8 == 7 - n % 8;
    assert Reverse(g)[n / 8] == g[k / 8];
  }

  lemma JoinReverse(g: seq<seq<Byte>>)
    requires Octets(g)
    ensures Octets(Reverse(g)) && JoinReversed(Reverse(g)) == Reverse(Join(g))
  {
    forall n | 0 <= n < 8 * |g|
      ensures Octets(Reverse(g)) && JoinReversed(Reverse(g))[n] == Reverse(Join(g))[n]
    {
      JoinAt(g, n);
    }
  }

  lemma ReadWriteLe(s: seq<Word>)
    ensures ReadLe(WriteLe(s)) == s
  {
    forall i | 0 <= i < |s| ensures ReadLe(WriteLe(s))[i] == s[i] {
      MapAt(WordBytes, s, i);
      WordBack(s[i]);
      ReadJoined(AllWordBytes(s), i, s[i]);
    }
  }

  lemma ReadJoined(g: seq<seq<Byte>>, i: nat, w: Word)
    requires Octets(g) && i < |g| && WordLe(g[i]) == w
    ensures ReadLe(Join(g))[i] == w
  {
    JoinSlice(g, i);
  }

  lemma MapAt<X, Y>(f: X -> Y, s: seq<X>, i: nat)
    requires i < |s|
    ensures Map(f, s)[i] == f(s[i])
  {
  }

  lemma WordBack(w: Word)
    ensures WordLe(WordBytes(w)) == w
  {
  }

  lemma WriteBeReversed(s: seq<Word>)
    ensures WriteBe(Reverse(s)) == Reverse(WriteLe(s))
  {
    JoinReverse(AllWordBytes(s));
    MapReversed(WordBytes, s);
  }

  lemma MapReversed<X, Y>(f: X -> Y, s: seq<X>)
    ensures Reverse(Map(f, s)) == Map(f, Reverse(s))
  {
  }

  /** Reading back what was written gives the same words, in either order. */
  lemma FromToBytes(s: seq<Word>, e: Endianness)
    ensures FromBytes(ToBytes(s, e), e) == s
  {
    ReadWriteLe(s);
    if e == Big {
      WriteBeReversed(s);
      ReadBeReversed(ToBytes(s, e));
      ReverseTwice(WriteLe(s));
    }
  }

  /** A byte string of given length is determined by its number. */
  lemma ReprUnique(a: seq<Byte>, b: seq<Byte>, e: Endianness)
    requires |a| == |b| && ReprValue(a, e) == ReprValue(b, e)
    ensures a == b
  {
    if e == Little {
      ValUnique(a, b, 256);
    } else {
      BytesUnique(a, b);
    }
  }

  // ---- from_repr and to_repr ------------------------------------------------

  /** Subtracting the modulus limb by limb borrows at the end iff the value is smaller. */
  method FinalBorrow(a: seq<Word>, b: seq<Word>) returns (borrow: Word)
    requires |a| == |b|
    ensures borrow == (if Val(a, B) < Val(b, B) then B - 1 else 0)
  {
    borrow := 0;
    ghost var diff: nat := 0;
    for i := 0 to |a|
      invariant borrow == 0 || borrow == B - 1
      invariant diff < W(i) && diff - BorrowBit(borrow) * W(i) == Part(a, 0, i, B) - Part(b, 0, i, B)
    {
      var (lo, hi) := Sbb(a[i], b[i], borrow);
      SubStep(a[i], b[i], BorrowBit(borrow), lo, BorrowBit(hi), W(i));
      QuotientStep(diff, lo, i);
      diff := diff + lo * W(i);
      borrow := hi;
    }
  }

  /** `(borrow as u8) & 1` */
  function LowBit(borrow: Word): nat
  {
    (borrow % 256) % 2
  }

  lemma BorrowBits()
    ensures LowBit(0) == 0 && LowBit(B - 1) == 1
  {
  }

  method ReadLimbs(bytes: seq<Byte>, e: Endianness) returns (inner: seq<Word>)
    requires |bytes| % 8 == 0
    ensures |inner| == |bytes| / 8 && Val(inner, B) == ReprValue(bytes, e)
  {
    inner := FromBytes(bytes, e);
    FromBytesValue(bytes, e);
  }

  method LoadMontgomery(inner: seq<Word>, r2: seq<Word>, md: Modulus) returns (r: seq<Word>)
    requires Valid(md) && IsR2(r2, md) && |inner| == |md.limbs|
    ensures Reduced(r, md) && Decode(r, md) == Rem(Val(inner, B), M(md))
  {
    var out := new Word[|inner|](i requires 0 <= i < |inner| => 0);
    CopyLimbs(out, inner);
    ToMontgomery(out, r2, md);
    r := out[..];
  }

  /**
   Reading a byte string: accepted exactly when its number is below the
   modulus, and then standing for that number.
   */
  method FromRepr(bytes: seq<Byte>, e: Endianness, r2: seq<Word>, md: Modulus)
    returns (r: seq<Word>, isSome: bool)
    requires Valid(md) && IsR2(r2, md) && |bytes| == 8 * |md.limbs|
    ensures isSome <==> ReprValue(bytes, e) < M(md)
    ensures Reduced(r, md) && Decode(r, md) == Rem(ReprValue(bytes, e), M(md))
  {
    var inner := ReadLimbs(bytes, e);
    var borrow := FinalBorrow(inner, md.limbs);
    BorrowBits();
    isSome := LowBit(borrow) == 1;
    r := LoadMontgomery(inner, r2, md);
  }

  /** The variable-time form decides by comparison instead of borrows, with the same outcome. */
  method FromReprVartime(bytes: seq<Byte>, e: Endianness, r2: seq<Word>, md: Modulus)
    returns (r: seq<Word>, isSome: bool)
    requires Valid(md) && IsR2(r2, md) && |bytes| == 8 * |md.limbs|
    ensures isSome <==> ReprValue(bytes, e) < M(md)
    ensures isSome ==> Reduced(r, md) && Decode(r, md) == ReprValue(bytes, e)
  {
    var inner := ReadLimbs(bytes, e);
    isSome := IsValid(inner, md);
    r := [];
    if isSome {
      assert Rem(Val(inner, B), M(md)) == Val(inner, B);
      r := LoadMontgomery(inner, r2, md);
    }
  }

  /** Writing a field element: the bytes of its canonical residue. */
  method ToRepr(self: seq<Word>, e: Endianness, md: Modulus) returns (bytes: seq<Byte>)
    requires Valid(md) && |self| == |md.limbs|
    ensures |bytes| == 8 * |md.limbs| && ReprValue(bytes, e) == Decode(self, md)
  {
    var r := Canonical(self, md);
    bytes := ToBytes(r, e);
    FromToBytes(r, e);
    FromBytesValue(bytes, e);
  }

  /** `ct_eq`, and with it `==`, compares the byte strings: that is equality in the field. */
  method CtEq(a: seq<Word>, b: seq<Word>, e: Endianness, md: Modulus) returns (r: bool)
    requires Valid(md) && |a| == |b| == |md.limbs|
    ensures r <==> Decode(a, md) == Decode(b, md)
    ensures Reduced(a, md) && Reduced(b, md) ==> (r <==> a == b)
  {
    var x := ToRepr(a, e, md);
    var y := ToRepr(b, e, md);
    r := x == y;
    if Decode(a, md) == Decode(b, md) { ReprUnique(x, y, e); }
    if Reduced(a, md) && Reduced(b, md) { DecodeInjective(a, b, md); }
  }

  /** Bytes that are accepted come back unchanged. */
  method BytesRoundTrip(bytes: seq<Byte>, e: Endianness, r2: seq<Word>, md: Modulus)
    returns (back: seq<Byte>, isSome: bool)
    requires Valid(md) && IsR2(r2, md) && |bytes| == 8 * |md.limbs|
    ensures isSome <==> back == bytes
    ensures isSome <==> ReprValue(bytes, e) < M(md)
  {
    var r;
    r, isSome := FromRepr(bytes, e, r2, md);
    back := ToRepr(r, e, md);
    if isSome { ReprUnique(back, bytes, e); }
  }

  /** Every reduced element is accepted back from its own bytes, limb for limb. */
  method ElementRoundTrip(a: seq<Word>, e: Endianness, r2: seq<Word>, md: Modulus)
    returns (back: seq<Word>, isSome: bool)
    requires Valid(md) && IsR2(r2, md) && Reduced(a, md)
    ensures isSome && back == a
  {
    var bytes := ToRepr(a, e, md);
    back, isSome := FromRepr(bytes, e, r2, md);
    DecodeInjective(back, a, md);
  }

  /**
   The byte-limb comparison of the zkvm build: scanning from the lowest limb,
   the last difference wins, which is the numeric order.
   */
  method ConstantTimeIsReduced(x: seq<Byte>, p: seq<Byte>) returns (isLess: bool)
    requires |x| == |p|
    ensures isLess <==> Val(x, 256) < Val(p, 256)
  {
    isLess := false;
    for i := 0 to |x|
      invariant isLess <==> Part(x, 0, i, 256) < Part(p, 0, i, 256)
    {
      if x[i] < p[i] {
        PartLess(x, p, i, 256);
        isLess := true;
      } else if x[i] > p[i] {
        PartLess(p, x, i, 256);
        isLess := false;
      }
    }
  }
}
