/** Small building blocks shared by every module of the model: an Option
    type for values that may be missing (a missing file, a remote call that
    raised) and Python's list-prefix slice `s[:k]`. */
module Prelude {

  datatype Option<+T> = None | Some(value: T)

  function Min(a: int, b: int): int
  {
    if a <= b then a else b
  }

  /** Where Python's slice `s[:k]` ends for a list of length `n`: a negative
      `k` counts from the end, and the result is clamped to `[0, n]`. */
  function SliceEnd(n: nat, k: int): (e: nat)
    ensures e <= n
    ensures k >= 0 ==> e == Min(k, n)
    ensures k < 0 ==> e == (if n + k >= 0 then n + k else 0)
  {
    if k >= 0 then Min(k, n) else if n + k >= 0 then n + k else 0
  }

  /** Python's `s[:k]`. */
  function Take<T>(s: seq<T>, k: int): (r: seq<T>)
    ensures r == s[..SliceEnd(|s|, k)]
    ensures k >= 0 ==> |r| <= k
  {
    s[..SliceEnd(|s|, k)]
  }

  /** Python's `set(s)`. */
  function SetOf<T>(s: seq<T>): set<T>
  {
    set x | x in s
  }

  predicate Distinct<T(==)>(s: seq<T>)
  {
    forall i, j :: 0 <= i < j < |s| ==> s[i] != s[j]
  }

  /** A list without repeated elements has as many distinct elements as entries. */
  lemma {:induction false} DistinctCard<T>(s: seq<T>)
    requires Distinct(s)
    ensures |SetOf(s)| == |s|
  {
    if s != [] {
      assert SetOf(s) == {s[0]} + SetOf(s[1..]);
      assert s[0] !in SetOf(s[1..]);
      DistinctCard(s[1..]);
    }
  }

  /** A subset is never larger than its superset. */
  lemma {:induction false} SubsetCard<T>(a: set<T>, b: set<T>)
    requires a <= b
    ensures |a| <= |b|
    decreases |b|
  {
    if a != {} {
      var x :| x in a;
      SubsetCard(a - {x}, b - {x});
    }
  }

  /** A subset as large as its superset is the whole set. */
  lemma {:induction false} SubsetCardEq<T>(a: set<T>, b: set<T>)
    requires a <= b && |a| == |b|
    ensures a == b
  {
    if a != b {
      var x :| x in b && x !in a;
      SubsetCard(a, b - {x});
    }
  }
}
