/** Small shared vocabulary: optional values, right shifts and chunked messages. */
module Common {

  datatype Option<+T> = None | Some(value: T)

  /** `x >> k` */
  function Shr(x: nat, k: nat): nat
  {
    if k == 0 then x else Shr(x, k - 1) / 2
  }

  function Concat<X>(chunks: seq<seq<X>>): seq<X>
  {
    if chunks == [] then [] else Concat(chunks[..|chunks| - 1]) + chunks[|chunks| - 1]
  }

  function Repeat<X>(x: X, n: nat): (s: seq<X>)
    ensures |s| == n && forall i :: 0 <= i < n ==> s[i] == x
  {
    seq(n, _ => x)
  }
}
