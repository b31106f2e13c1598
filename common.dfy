/** Small failure-compatible wrappers shared by the other modules. */
module Common {

  /** A value that may be absent: a decode that failed, a key that is missing. */
  datatype Option<+T> = None | Some(value: T)

  /** The result of a Go function that returns `(T, error)`. */
  datatype Result<+T, +E> = Ok(value: T) | Err(error: E)

  /** The result of a Go function that returns only `error` (`nil` is `Pass`). */
  datatype Outcome<+E> = Pass | Fail(error: E)

  /** `a` can be obtained from `b` by deleting elements, keeping the order of the rest. */
  predicate IsSubsequence<T(==)>(a: seq<T>, b: seq<T>)
    decreases |b|
  {
    if a == [] then true
    else if b == [] then false
    else (a[|a| - 1] == b[|b| - 1] && IsSubsequence(a[..|a| - 1], b[..|b| - 1]))
         || IsSubsequence(a, b[..|b| - 1])
  }

  /** Putting the same element in front of both keeps a subsequence a subsequence, and so
      does putting it in front of the longer one only. */
  lemma {:induction false} SubsequencePrepend<T>(a: seq<T>, b: seq<T>, x: T)
    requires IsSubsequence(a, b)
    ensures IsSubsequence(a, [x] + b) && IsSubsequence([x] + a, [x] + b)
    decreases |b|
  {
    if b == [] {
      assert ([x] + a)[..0] == [];
    } else {
      assert ([x] + b)[..|b|] == [x] + b[..|b| - 1];
      if a == [] {
        SubsequencePrepend(a, b[..|b| - 1], x);
      } else {
        assert ([x] + a)[..|a|] == [x] + a[..|a| - 1];
        if a[|a| - 1] == b[|b| - 1] && IsSubsequence(a[..|a| - 1], b[..|b| - 1]) {
          SubsequencePrepend(a[..|a| - 1], b[..|b| - 1], x);
        } else {
          SubsequencePrepend(a, b[..|b| - 1], x);
        }
      }
    }
  }
}
