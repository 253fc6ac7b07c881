/** Small value types shared by every module of the model. */
module Prelude {

  /** A value that may be absent; `None` stands for a C# `null`. */
  datatype Option<+T> = None | Some(value: T)

  /** The outcome of an operation that throws on some inputs. */
  datatype Result<+T, +E> = Success(value: T) | Failure(error: E)

  /** An unsigned 8-bit value, as in a C# `byte[]`. */
  type byte = x: int | 0 <= x < 256

  function Min(a: int, b: int): (m: int)
    ensures m <= a && m <= b && (m == a || m == b)
  {
    if a < b then a else b
  }

  /** The position of the first element satisfying `p`, or -1 when none does: LINQ's `FirstOrDefault` over a list. */
  function IndexWhere<T>(xs: seq<T>, p: T -> bool): (k: int)
    ensures -1 <= k < |xs|
    ensures k >= 0 ==> p(xs[k]) && forall j :: 0 <= j < k ==> !p(xs[j])
    ensures k < 0 ==> forall j :: 0 <= j < |xs| ==> !p(xs[j])
  {
    if xs == [] then -1
    else if p(xs[0]) then 0
    else
      var k := IndexWhere(xs[1..], p);
      if k < 0 then -1 else k + 1
  }

  /** Two lists on which `p` gives the same verdict at every position have the same first match. */
  lemma {:induction false} SameVerdictsSameIndex<T>(a: seq<T>, b: seq<T>, p: T -> bool)
    requires |a| == |b| && forall j :: 0 <= j < |a| ==> p(a[j]) == p(b[j])
    ensures IndexWhere(a, p) == IndexWhere(b, p)
  {
    if a != [] && !p(a[0]) {
      SameVerdictsSameIndex(a[1..], b[1..], p);
    }
  }
}
