/** Small failure-carrying datatypes and a sequence predicate shared by the
    other modules. */
module Basics {

  /** A value that may be absent: a missing field, a lookup that found nothing. */
  datatype Option<+T> = None | Some(value: T) {
    /** The carried value, or `default` when absent. */
    function GetOr(default: T): T {
      match this
      case Some(v) => v
      case None => default
    }
  }

  /** The result of a check that either passes or raises one error. */
  datatype Outcome<+E> = Pass | Fail(error: E)

  /** The result of an operation that either yields a value or raises one error. */
  datatype Result<+T, +E> = Success(value: T) | Failure(error: E)

  /** No element occurs twice. */
  predicate Distinct<T(==)>(s: seq<T>) {
    forall i, j :: 0 <= i < j < |s| ==> s[i] != s[j]
  }

  /** A concatenation is free of repeats exactly when both parts are and
      no element of the second occurs in the first. */
  lemma DistinctConcat<T>(a: seq<T>, b: seq<T>)
    ensures Distinct(a + b) <==> Distinct(a) && Distinct(b) && forall k :: 0 <= k < |b| ==> b[k] !in a
  {
    if Distinct(a + b) {
      assert a == (a + b)[..|a|];
      forall i, j | 0 <= i < j < |b| ensures b[i] != b[j] {
        assert b[i] == (a + b)[|a| + i] && b[j] == (a + b)[|a| + j];
      }
    }
  }
}
