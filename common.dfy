/** Stock helper datatype: a value that may be absent (a null result in the source). */
module Common {
  datatype Option<+T> = None | Some(value: T)

  /** No element occurs twice. */
  ghost predicate Distinct<T>(s: seq<T>)
  {
    forall i, j :: 0 <= i < j < |s| ==> s[i] != s[j]
  }

  /** Position of `x` in `s`, or -1 when it does not occur. */
  ghost function IndexOf<T>(s: seq<T>, x: T): (r: int)
    ensures -1 <= r < |s|
    ensures r >= 0 ==> s[r] == x && x !in s[..r]
    ensures r == -1 <==> x !in s
  {
    if |s| == 0 then -1
    else if s[|s| - 1] == x && x !in s[..|s| - 1] then |s| - 1
    else if x in s[..|s| - 1] then IndexOf(s[..|s| - 1], x)
    else -1
  }

  lemma IndexOfDistinct<T>(s: seq<T>, i: int)
    requires Distinct(s) && 0 <= i < |s|
    ensures IndexOf(s, s[i]) == i
  {
  }

  lemma IndexOfAppend<T>(s: seq<T>, x: T, y: T)
    requires y in s
    ensures IndexOf(s + [x], y) == IndexOf(s, y)
  {
    assert (s + [x])[..|s|] == s;
  }

  /** A distinct sequence drawn from a finite set is no longer than the set. */
  lemma {:induction false} DistinctBound<T>(s: seq<T>, keys: set<T>)
    requires Distinct(s)
    requires forall k :: 0 <= k < |s| ==> s[k] in keys
    ensures |s| <= |keys|
  {
    if |s| > 0 {
      var last := s[|s| - 1];
      assert last !in s[..|s| - 1];
      DistinctBound(s[..|s| - 1], keys - {last});
    }
  }

  /** Regrouping a concatenation, as a fact of its own so that callers
      need not prove it among their other facts. */
  lemma AppendAssociative<T>(a: seq<T>, b: seq<T>, c: seq<T>)
    ensures a + b + c == a + (b + c)
  {
  }
}
