/** Small facts about sequences and sums that several modules use. */
module Sequences {
  ghost predicate Distinct<T>(s: seq<T>) {
    forall i, j :: 0 <= i < j < |s| ==> s[i] != s[j]
  }

  function ToSet<T>(s: seq<T>): set<T> { set x | x in s }

  lemma DistinctInit<T>(s: seq<T>)
    requires s != []
    ensures Distinct(s) <==> Distinct(s[..|s| - 1]) && s[|s| - 1] !in s[..|s| - 1]
  {
    var n := |s| - 1;
    assert forall i :: 0 <= i < n ==> s[..n][i] == s[i];
    if Distinct(s[..n]) && s[n] !in s[..n] {
      forall i, j | 0 <= i < j < |s|
        ensures s[i] != s[j]
      {
        assert s[i] == s[..n][i];
        if j < n { assert s[j] == s[..n][j]; }
      }
    }
    if s[n] in s[..n] {
      var i :| 0 <= i < n && s[..n][i] == s[n];
    }
  }

  /** The set of elements is as large as the list exactly when they are distinct. */
  lemma {:induction false} SetSize<T>(s: seq<T>)
    ensures |ToSet(s)| <= |s|
    ensures |ToSet(s)| == |s| <==> Distinct(s)
  {
    if s != [] {
      var n := |s| - 1;
      SetSize(s[..n]);
      DistinctInit(s);
      hide Distinct;
      assert s == s[..n] + [s[n]];
      assert ToSet(s) == ToSet(s[..n]) + {s[n]};
    }
  }

  function Sum(s: seq<real>): real {
    if s == [] then 0.0 else Sum(s[..|s| - 1]) + s[|s| - 1]
  }

  lemma PositiveProduct(a: real, b: real)
    requires a > 0.0 && b > 0.0
    ensures a * b > 0.0
  {}
}
