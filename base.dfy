/** Small value types shared by every module of the model. */
module Base {

  datatype Option<+T> = None | Some(value: T)

  datatype Result<+T, +E> = Ok(value: T) | Err(error: E)

  /** One byte of file content. */
  type Byte = b: int | 0 <= b < 256

  /** The 32-bit range of an xxh32 digest. */
  type U32 = x: int | 0 <= x < 0x1_0000_0000

  function Min(a: int, b: int): int
  {
    if a <= b then a else b
  }

  /** Every element of `s` occurs once. */
  ghost predicate Distinct<T>(s: seq<T>)
  {
    forall i, j :: 0 <= i < j < |s| ==> s[i] != s[j]
  }

  /** Two duplicate-free sequences with no element in common concatenate to a duplicate-free one. */
  lemma DistinctConcat<T>(a: seq<T>, b: seq<T>)
    requires Distinct(a) && Distinct(b)
    requires forall i, j :: 0 <= i < |a| && 0 <= j < |b| ==> a[i] != b[j]
    ensures Distinct(a + b)
  {
    forall i, j | 0 <= i < j < |a + b|
      ensures (a + b)[i] != (a + b)[j]
    {
      if j < |a| {
      } else if i >= |a| {
        assert (a + b)[i] == b[i - |a|] && (a + b)[j] == b[j - |a|];
      } else {
        assert (a + b)[j] == b[j - |a|];
      }
    }
  }

  /** Concatenation regroups freely. */
  lemma AppendAssoc<T>(a: seq<T>, b: seq<T>, c: seq<T>)
    ensures a + (b + c) == (a + b) + c
  {
  }

  /** Strictly ascending, so free of duplicates. */
  predicate Ascending(s: seq<int>)
  {
    forall i, j :: 0 <= i < j < |s| ==> s[i] < s[j]
  }

  /** An ascending sequence stays ascending when a larger element is appended. */
  lemma AscendingSnoc(s: seq<int>, x: int)
    requires Ascending(s) && forall k :: 0 <= k < |s| ==> s[k] < x
    ensures Ascending(s + [x])
  {
    assert forall k :: 0 <= k < |s| ==> (s + [x])[k] == s[k];
  }
}
