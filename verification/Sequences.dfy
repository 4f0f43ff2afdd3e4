/** Edits and facts of sequences that stand for linked lists. */
module Sequences {
  ghost predicate Distinct<T>(s: seq<T>) {
    forall i, j :: 0 <= i < j < |s| ==> s[i] != s[j]
  }

  /** The first position whose element satisfies `p`, or the length if there is none. */
  function FirstWith<T>(s: seq<T>, p: T -> bool): (k: nat)
    ensures k <= |s| && (k < |s| ==> p(s[k])) && forall i :: 0 <= i < k ==> !p(s[i])
  {
    if s == [] || p(s[0]) then 0 else 1 + FirstWith(s[1..], p)
  }

  function Without<T>(s: seq<T>, k: nat): (r: seq<T>)
    requires k < |s|
    ensures |r| == |s| - 1
  {
    s[..k] + s[k + 1..]
  }

  lemma {:induction false} DistinctWithout<T>(s: seq<T>, k: nat)
    requires Distinct(s) && k < |s|
    ensures Distinct(Without(s, k)) && s[k] !in Without(s, k)
  {
  }
}
