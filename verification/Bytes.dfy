/** Byte strings and the numbers they stand for in either order. */
module Bytes {
  import opened Digits

  type Byte = x: nat | x < 256

  lemma BytesAreDigits(s: seq<Byte>)
    ensures IsDigits(s, 256)
  {
  }

  lemma BeValReversed(s: seq<Byte>)
    ensures BeVal(s, 256) == Val(Reverse(s), 256)
  {
    BeValIsVal(s, 256);
    assert Reverse<nat>(s) == Reverse(s);
  }

  /** A big-endian byte string of given length is determined by its number. */
  lemma BytesUnique(a: seq<Byte>, b: seq<Byte>)
    requires |a| == |b| && BeVal(a, 256) == BeVal(b, 256)
    ensures a == b
  {
    BeValReversed(a);
    BeValReversed(b);
    ValUnique(Reverse(a), Reverse(b), 256);
    ReverseTwice(a);
    ReverseTwice(b);
  }
}
