/** The TFHE values the SNP-calling programs compute with, each modelled by
    the plaintext it encrypts: encryption wraps a value, decryption reads it
    back, and the homomorphic operators act on the plaintexts. */
module Fhe {
  import opened Outcome
  import opened UInt

  /** An encrypted boolean. */
  datatype FheBool = FheBool(plain: bool)

  /** An encrypted 32-bit unsigned integer. */
  datatype FheUint32 = FheUint32(plain: bv32)

  /** An encrypted 16-bit unsigned integer. */
  datatype FheUint16 = FheUint16(plain: u16)

  /** `query.eq(x)` on an encrypted u32 and a clear value. */
  function Eq32(q: FheUint32, x: bv32): FheBool
  {
    FheBool(q.plain == x)
  }

  /** `query.eq(x)` on an encrypted u16 and a clear value. */
  function Eq16(q: FheUint16, x: u16): FheBool
  {
    FheBool(q.plain == x)
  }

  /** `a | b` on encrypted booleans. */
  function Or(a: FheBool, b: FheBool): FheBool
  {
    FheBool(a.plain || b.plain)
  }

  /** Folding `|` over the rest of an iterator, starting from acc: true
      exactly when acc or some later item is true. */
  function FoldOr(acc: FheBool, rest: seq<FheBool>): (r: FheBool)
    ensures r.plain <==> acc.plain || exists i :: 0 <= i < |rest| && rest[i].plain
    decreases |rest|
  {
    if rest == [] then acc
    else
      var r := FoldOr(Or(acc, rest[0]), rest[1..]);
      assert forall i :: 1 <= i < |rest| ==> rest[1..][i - 1] == rest[i];
      r
  }

  /** `iter.reduce(|a, b| a | b)`: nothing for an empty iterator, otherwise
      the OR of all its items. */
  function ReduceOr(bs: seq<FheBool>): (r: Option<FheBool>)
    ensures r.Some? <==> bs != []
    ensures r.Some? ==> (r.value.plain <==> exists i :: 0 <= i < |bs| && bs[i].plain)
  {
    if bs == [] then None
    else
      var r := FoldOr(bs[0], bs[1..]);
      assert forall i :: 1 <= i < |bs| ==> bs[1..][i - 1] == bs[i];
      Some(r)
  }

  /** `iter.reduce(|a, b| a | b).unwrap()`: panics on an empty iterator. */
  function ReduceOrUnwrap(bs: seq<FheBool>): (r: Result<FheBool>)
    ensures r.Ok? <==> bs != []
    ensures r.Err? ==> r.fault == EmptyReduction
    ensures r.Ok? ==> (r.value.plain <==> exists i :: 0 <= i < |bs| && bs[i].plain)
  {
    match ReduceOr(bs)
    case None => Err(EmptyReduction)
    case Some(b) => Ok(b)
  }

  /** The client's decryption of a result vector, element by element. */
  function DecryptAll(bs: seq<FheBool>): (r: seq<bool>)
    ensures |r| == |bs| && forall i :: 0 <= i < |bs| ==> (r[i] <==> bs[i].plain)
  {
    seq(|bs|, i requires 0 <= i < |bs| => bs[i].plain)
  }
}
