/** Option and Result values shared by every module of the model. */
module Common {

  /** A value that may be absent: a missing request parameter, a SQL NULL, a row that is not there. */
  datatype Option<+T> = None | Some(value: T) {
    function GetOr(default: T): T {
      match this
      case Some(v) => v
      case None => default
    }
  }

  /** The outcome of an operation that throws in the source: the value, or the error it throws. */
  datatype Result<+T, +E> = Ok(value: T) | Err(error: E)

  /** The number of elements of `s` satisfying `p`, as SQL `COUNT(*) FILTER (WHERE p)`. */
  function Count<T>(s: seq<T>, p: T -> bool): (n: nat)
    ensures n <= |s|
    decreases |s|
  {
    if s == [] then 0 else (if p(s[0]) then 1 else 0) + Count(s[1..], p)
  }

  /** A filter split into two disjoint filters that together cover it splits its count. */
  lemma {:induction false} CountPartition<T>(s: seq<T>, p: T -> bool, q: T -> bool, r: T -> bool)
    requires forall x :: p(x) <==> q(x) || r(x)
    requires forall x :: !(q(x) && r(x))
    ensures Count(s, p) == Count(s, q) + Count(s, r)
    decreases |s|
  {
    if s != [] {
      CountPartition(s[1..], p, q, r);
    }
  }
}
