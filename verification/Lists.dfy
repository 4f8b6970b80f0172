/** What is said of lists in several modules. */
module Lists {

  predicate Distinct<T(==)>(s: seq<T>) {
    forall i, j :: 0 <= i < j < |s| ==> s[i] != s[j]
  }

  predicate Increasing(at: seq<nat>) {
    forall i, j :: 0 <= i < j < |at| ==> at[i] < at[j]
  }

  lemma {:induction false} IncreasingIsShort(at: seq<nat>, n: nat)
    requires Increasing(at) && forall k :: 0 <= k < |at| ==> at[k] < n
    ensures |at| <= n
  {
    if at != [] {
      var front := at[..|at| - 1];
      IncreasingIsShort(front, at[|at| - 1]);
    }
  }
}
