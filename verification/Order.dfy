/** The lexicographic order on strings and the sorted list of a set of strings. */
module Order {
  import opened Sequences

  predicate Less(a: string, b: string) {
    if b == "" then false
    else if a == "" then true
    else a[0] < b[0] || (a[0] == b[0] && Less(a[1..], b[1..]))
  }

  lemma {:induction false} LessIrreflexive(a: string)
    ensures !Less(a, a)
  {
    if a != "" { LessIrreflexive(a[1..]); }
  }

  lemma {:induction false} LessTransitive(a: string, b: string, c: string)
    requires Less(a, b) && Less(b, c)
    ensures Less(a, c)
  {
    if a != "" && a[0] == b[0] == c[0] { LessTransitive(a[1..], b[1..], c[1..]); }
  }

  lemma {:induction false} LessTotal(a: string, b: string)
    ensures a == b || Less(a, b) || Less(b, a)
    ensures !(Less(a, b) && Less(b, a))
  {
    if a != "" && b != "" && a[0] == b[0] {
      LessTotal(a[1..], b[1..]);
      assert a == [a[0]] + a[1..] && b == [b[0]] + b[1..];
    }
  }

  ghost predicate Increasing(s: seq<string>) {
    forall i, j :: 0 <= i < j < |s| ==> Less(s[i], s[j])
  }

  /** s lists the elements of t in increasing order. */
  ghost predicate Sorts(s: seq<string>, t: set<string>) {
    Increasing(s) && ToSet(s) == t
  }

  lemma IncreasingDistinct(s: seq<string>)
    requires Increasing(s)
    ensures forall i, j :: 0 <= i < j < |s| ==> s[i] != s[j]
  {
    forall i, j | 0 <= i < j < |s|
      ensures s[i] != s[j]
    {
      LessIrreflexive(s[i]);
    }
  }

  lemma EmptySet(s: seq<string>)
    ensures ToSet(s) == {} ==> s == []
  {
    if s != [] { assert s[0] in ToSet(s); }
  }

  /** There is only one such list. */
  lemma {:induction false} SortsUnique(s: seq<string>, u: seq<string>, t: set<string>)
    requires Sorts(s, t) && Sorts(u, t)
    ensures s == u
    decreases |s|
  {
    if s == [] {
      EmptySet(u);
    } else {
      assert s[|s| - 1] in ToSet(s);
      var m, n := |s| - 1, |u| - 1;
      assert u[n] in ToSet(u);
      var i :| 0 <= i < |u| && u[i] == s[m];
      var j :| 0 <= j < |s| && s[j] == u[n];
      LessTotal(s[m], u[n]);
      assert s[m] == u[n];
      InitSorts(s, t);
      InitSorts(u, t);
      SortsUnique(s[..m], u[..n], t - {s[m]});
      assert s == s[..m] + [s[m]] && u == u[..n] + [u[n]];
    }
  }

  lemma InitSorts(s: seq<string>, t: set<string>)
    requires Sorts(s, t) && s != []
    ensures Sorts(s[..|s| - 1], t - {s[|s| - 1]})
  {
    var m := |s| - 1;
    IncreasingDistinct(s);
    assert s == s[..m] + [s[m]];
    forall x
      ensures x in s[..m] <==> x in t && x != s[m]
    {
      assert x in t <==> x in s;
      if x in s[..m] {
        var i :| 0 <= i < m && s[..m][i] == x;
        assert s[i] == x;
      }
    }
  }

  /** `sorted(t)`: insertion of the elements, taken in any order. */
  method SortedSet(t: set<string>) returns (s: seq<string>)
    ensures Sorts(s, t)
  {
    s := [];
    var rest := t;
    while rest != {}
      invariant rest <= t && Sorts(s, t - rest)
      decreases rest
    {
      var x :| x in rest;
      s := Insert(s, t - rest, x);
      rest := rest - {x};
      assert t - rest == (t - (rest + {x})) + {x};
    }
    assert t - rest == t;
  }

  method Insert(s: seq<string>, ghost t: set<string>, x: string) returns (r: seq<string>)
    requires Sorts(s, t) && x !in t
    ensures Sorts(r, t + {x})
  {
    var i := 0;
    while i < |s| && Less(s[i], x)
      invariant 0 <= i <= |s| && forall k :: 0 <= k < i ==> Less(s[k], x)
    {
      i := i + 1;
    }
    r := s[..i] + [x] + s[i..];
    forall k | i <= k < |s|
      ensures Less(x, s[k])
    {
      assert s[i] in ToSet(s);
      LessTotal(x, s[i]);
      if k > i { LessTransitive(x, s[i], s[k]); }
    }
    forall a, b | 0 <= a < b < |r|
      ensures Less(r[a], r[b])
    {
      if a < i && b > i { LessTransitive(r[a], x, r[b]); }
    }
    assert s == s[..i] + s[i..];
  }
}
