/** Small shared vocabulary: optional values, bytes and sums. */
module Basics {

  /** A value that may be absent: an undefined request field, a missing row. */
  datatype Option<+T> = None | Some(value: T)

  /** The outcome of an operation that can fail: the source's thrown errors. */
  datatype Result<+T, +E> = Ok(value: T) | Err(error: E)

  /** `!x` for a string field of a request: absent or empty. */
  predicate Missing(field: Option<string>)
  {
    field.None? || field.value == ""
  }

  /** One octet of a file or a request body. */
  newtype byte = x: int | 0 <= x < 256

  /** `s.reduce((sum, x) => sum + f(x), 0)`. */
  function SumOf<T>(s: seq<T>, f: T -> int): int
  {
    if s == [] then 0 else SumOf(s[..|s| - 1], f) + f(s[|s| - 1])
  }

  /** Summing distributes over concatenation. */
  lemma {:induction false} SumOfAppend<T>(a: seq<T>, b: seq<T>, f: T -> int)
    ensures SumOf(a + b, f) == SumOf(a, f) + SumOf(b, f)
  {
    if b == [] {
      assert a + b == a;
    } else {
      assert (a + b)[..|a + b| - 1] == a + b[..|b| - 1];
      SumOfAppend(a, b[..|b| - 1], f);
    }
  }

  /** Summing over a sequence with one element removed at index k. */
  lemma SumOfRemove<T>(s: seq<T>, k: nat, f: T -> int)
    requires k < |s|
    ensures SumOf(s, f) == SumOf(s[..k] + s[k + 1..], f) + f(s[k])
  {
    var before, x, after := s[..k], [s[k]], s[k + 1..];
    assert s == (before + x) + after;
    SumOfAppend(before + x, after, f);
    SumOfAppend(before, x, f);
    SumOfAppend(before, after, f);
    assert SumOf(x, f) == f(s[k]) by {
      assert x[..0] == [];
    }
  }
}
