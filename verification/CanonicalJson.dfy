/** Canonical JSON: object keys sorted at every depth. An object is the list of its members
    in enumeration order. */
module CanonicalJson {
  import opened Order
  import opened Sequences

  datatype Json =
    | Null
    | Bool(b: bool)
    | Number(n: real)
    | Str(s: string)
    | Arr(items: seq<Json>)
    | Obj(members: seq<(string, Json)>)

  // ---------------------------------------------------------------- enumeration order of keys

  /** Canonical decimal array indices come first, in numeric order, when JavaScript lists the
      keys of an object; all other keys follow in insertion order. */
  predicate IsIndex(k: string) {
    && 1 <= |k| <= 10
    && (forall i :: 0 <= i < |k| ==> '0' <= k[i] <= '9')
    && (k[0] == '0' ==> k == "0")
    && (|k| == 10 ==> Less(k, "4294967295"))
  }

  /** Numeric order of indices: shorter numerals first, then digit by digit. */
  predicate IndexLess(a: string, b: string) {
    |a| < |b| || (|a| == |b| && Less(a, b))
  }

  function InsertIndex(s: seq<string>, k: string): seq<string> {
    if s == [] || !IndexLess(k, s[|s| - 1]) then s + [k]
    else InsertIndex(s[..|s| - 1], k) + [s[|s| - 1]]
  }

  /** The enumeration order of keys inserted in the given order. */
  function Indices(inserted: seq<string>): seq<string> {
    if inserted == [] then []
    else
      var rest, k := Indices(inserted[..|inserted| - 1]), inserted[|inserted| - 1];
      if IsIndex(k) then InsertIndex(rest, k) else rest
  }

  function Names(inserted: seq<string>): seq<string> {
    if inserted == [] then []
    else
      var rest, k := Names(inserted[..|inserted| - 1]), inserted[|inserted| - 1];
      if IsIndex(k) then rest else rest + [k]
  }

  function Enumerated(inserted: seq<string>): seq<string> {
    Indices(inserted) + Names(inserted)
  }

  lemma {:induction false} InsertIndexMembers(s: seq<string>, k: string)
    ensures forall x :: x in InsertIndex(s, k) <==> x in s || x == k
    ensures |InsertIndex(s, k)| == |s| + 1
  {
    if s != [] && IndexLess(k, s[|s| - 1]) {
      InsertIndexMembers(s[..|s| - 1], k);
      assert s == s[..|s| - 1] + [s[|s| - 1]];
    }
  }

  lemma {:induction false} EnumeratedMembers(inserted: seq<string>)
    ensures forall x :: x in Enumerated(inserted) <==> x in inserted
    ensures |Enumerated(inserted)| == |inserted|
  {
    hide IsIndex;
    if inserted != [] {
      var init, k := inserted[..|inserted| - 1], inserted[|inserted| - 1];
      EnumeratedMembers(init);
      InsertIndexMembers(Indices(init), k);
      assert inserted == init + [k];
      forall x
        ensures x in Enumerated(inserted) <==> x in inserted
      {
        assert x in Enumerated(init) <==> x in Indices(init) || x in Names(init);
        assert x in Enumerated(inserted) <==> x in Indices(inserted) || x in Names(inserted);
      }
    }
  }

  // ---------------------------------------------------------------- objects as mappings

  function KeySet(members: seq<(string, Json)>): set<string> {
    set i | 0 <= i < |members| :: members[i].0
  }

  /** No key occurs twice. */
  ghost predicate DistinctKeys(members: seq<(string, Json)>) {
    forall i, j :: 0 <= i < j < |members| ==> members[i].0 != members[j].0
  }

  /** The value of a key. */
  function Get(members: seq<(string, Json)>, k: string): (v: Json)
    requires k in KeySet(members)
    ensures (k, v) in members
  {
    if members[0].0 == k then
      assert members[0] in members;
      members[0].1
    else
      assert forall i :: 1 <= i < |members| ==> members[1..][i - 1] == members[i];
      var i :| 0 <= i < |members| && members[i].0 == k;
      assert members[1..][i - 1].0 == k;
      Get(members[1..], k)
  }

  /** Objects with distinct keys at every depth. */
  ghost predicate WellFormed(v: Json) {
    match v
    case Arr(items) => forall i :: 0 <= i < |items| ==> WellFormed(items[i])
    case Obj(members) => DistinctKeys(members) && forall i :: 0 <= i < |members| ==> WellFormed(members[i].1)
    case _ => true
  }

  /** Equal up to the order of object keys at every depth. */
  ghost predicate Equivalent(a: Json, b: Json)
    decreases a
  {
    match (a, b)
    case (Arr(x), Arr(y)) => |x| == |y| && forall i :: 0 <= i < |x| ==> Equivalent(x[i], y[i])
    case (Obj(x), Obj(y)) =>
      && KeySet(x) == KeySet(y)
      && forall i, j :: 0 <= i < |x| && 0 <= j < |y| && x[i].0 == y[j].0 ==> Equivalent(x[i].1, y[j].1)
    case (Arr(_), _) => false
    case (Obj(_), _) => false
    case (_, _) => a == b
  }

  // ---------------------------------------------------------------- sorting

  function InsertString(s: seq<string>, k: string): seq<string> {
    if s == [] || !Less(k, s[|s| - 1]) then s + [k]
    else InsertString(s[..|s| - 1], k) + [s[|s| - 1]]
  }

  /** `keys.sort()` */
  function SortStrings(keys: seq<string>): seq<string> {
    if keys == [] then [] else InsertString(SortStrings(keys[..|keys| - 1]), keys[|keys| - 1])
  }

  lemma AppendSorts(s: seq<string>, t: set<string>, k: string)
    requires Sorts(s, t) && forall x :: x in t ==> Less(x, k)
    ensures Sorts(s + [k], t + {k})
  {
    hide Less;
    forall i | 0 <= i < |s|
      ensures Less(s[i], k)
    {
      assert s[i] in ToSet(s);
    }
    assert ToSet(s + [k]) == ToSet(s) + {k};
  }

  /** Everything before the last key is below it. */
  lemma BelowLast(s: seq<string>, t: set<string>, x: string)
    requires Sorts(s, t) && s != [] && x in t
    ensures x == s[|s| - 1] || Less(x, s[|s| - 1])
  {
    hide Less;
    assert x in ToSet(s);
    var i :| 0 <= i < |s| && s[i] == x;
  }

  lemma {:induction false} InsertSorts(s: seq<string>, t: set<string>, k: string)
    requires Sorts(s, t) && k !in t
    ensures Sorts(InsertString(s, k), t + {k}) && |InsertString(s, k)| == |s| + 1
  {
    hide Less, Sorts;
    if s == [] {
      OneSorts(t, k);
      assert InsertString(s, k) == [k];
    } else {
      var n := |s| - 1;
      var last := s[n];
      LastIn(s, t);
      LessTotal(k, last);
      if Less(k, last) {
        InitSorts(s, t);
        InsertSorts(s[..n], t - {last}, k);
        forall x | x in t - {last} + {k}
          ensures Less(x, last)
        {
          if x != k { BelowLast(s, t, x); }
        }
        AppendSorts(InsertString(s[..n], k), t - {last} + {k}, last);
        assert t - {last} + {k} + {last} == t + {k};
      } else {
        forall x | x in t
          ensures Less(x, k)
        {
          BelowLast(s, t, x);
          if x != last { LessTransitive(x, last, k); }
        }
        AppendSorts(s, t, k);
      }
    }
  }

  lemma OneSorts(t: set<string>, k: string)
    requires Sorts([], t)
    ensures Sorts([k], t + {k})
  {
    assert ToSet([k]) == {k};
  }

  lemma LastIn(s: seq<string>, t: set<string>)
    requires Sorts(s, t) && s != []
    ensures s[|s| - 1] in t
  {
    assert s[|s| - 1] in ToSet(s);
  }

  lemma {:induction false} SortStringsSorts(keys: seq<string>)
    requires Distinct(keys)
    ensures Sorts(SortStrings(keys), ToSet(keys)) && |SortStrings(keys)| == |keys|
  {
    if keys != [] {
      var n := |keys| - 1;
      SortStringsSorts(keys[..n]);
      assert keys[n] !in ToSet(keys[..n]);
      InsertSorts(SortStrings(keys[..n]), ToSet(keys[..n]), keys[n]);
      assert keys == keys[..n] + [keys[n]];
      assert ToSet(keys) == ToSet(keys[..n]) + {keys[n]};
    }
  }

  function KeysOf(members: seq<(string, Json)>): (r: seq<string>)
    ensures |r| == |members| && forall i :: 0 <= i < |members| ==> r[i] == members[i].0
  {
    seq(|members|, i requires 0 <= i < |members| => members[i].0)
  }

  /** The keys of the rebuilt object in enumeration order: sorted, then inserted one by one. */
  function CanonicalKeys(members: seq<(string, Json)>): (r: seq<string>)
    ensures forall x :: x in r ==> x in KeySet(members)
  {
    var sorted := SortStrings(KeysOf(members));
    EnumeratedMembers(sorted);
    SortStringsMembers(KeysOf(members));
    Enumerated(sorted)
  }

  lemma {:induction false} SortStringsMembers(keys: seq<string>)
    ensures forall x :: x in SortStrings(keys) <==> x in keys
  {
    if keys != [] {
      var n := |keys| - 1;
      SortStringsMembers(keys[..n]);
      InsertStringMembers(SortStrings(keys[..n]), keys[n]);
      assert keys == keys[..n] + [keys[n]];
    }
  }

  lemma {:induction false} InsertStringMembers(s: seq<string>, k: string)
    ensures forall x :: x in InsertString(s, k) <==> x in s || x == k
  {
    if s != [] && Less(k, s[|s| - 1]) {
      InsertStringMembers(s[..|s| - 1], k);
      assert s == s[..|s| - 1] + [s[|s| - 1]];
    }
  }

  /** `sortKeysRecursive` */
  function SortKeys(v: Json): Json
    decreases v
  {
    match v
    case Arr(items) => Arr(seq(|items|, i requires 0 <= i < |items| => SortKeys(items[i])))
    case Obj(members) =>
      var keys := CanonicalKeys(members);
      Obj(seq(|keys|, i requires 0 <= i < |keys| => (keys[i], SortKeys(Get(members, keys[i])))))
    case _ => v
  }

  /** `deterministicStringify`, for any serialisation of values. */
  function DeterministicStringify(stringify: Json -> string, v: Json): string {
    stringify(SortKeys(v))
  }

  // ---------------------------------------------------------------- canonical form

  /** The canonical key list depends on the key set alone, and lists each key once. */
  lemma CanonicalKeysUnique(x: seq<(string, Json)>, y: seq<(string, Json)>)
    requires DistinctKeys(x) && DistinctKeys(y) && KeySet(x) == KeySet(y)
    ensures CanonicalKeys(x) == CanonicalKeys(y)
  {
    hide Enumerated, SortStrings;
    SortStringsSorts(KeysOf(x));
    SortStringsSorts(KeysOf(y));
    assert ToSet(KeysOf(x)) == KeySet(x) && ToSet(KeysOf(y)) == KeySet(y);
    SortsUnique(SortStrings(KeysOf(x)), SortStrings(KeysOf(y)), KeySet(x));
  }

  lemma CanonicalKeysComplete(x: seq<(string, Json)>)
    requires DistinctKeys(x)
    ensures |CanonicalKeys(x)| == |x| && Distinct(CanonicalKeys(x))
    ensures forall k :: k in CanonicalKeys(x) <==> k in KeySet(x)
  {
    hide Enumerated, SortStrings;
    SortStringsSorts(KeysOf(x));
    SortStringsMembers(KeysOf(x));
    EnumeratedMembers(SortStrings(KeysOf(x)));
    AsManyAsMembers(CanonicalKeys(x), KeysOf(x));
  }

  /** A list as long as a duplicate-free one with the same members is duplicate-free. */
  lemma AsManyAsMembers(r: seq<string>, s: seq<string>)
    requires |r| == |s| && Distinct(s) && forall k :: k in r <==> k in s
    ensures Distinct(r)
  {
    SetSize(r);
    SetSize(s);
    assert ToSet(r) == ToSet(s);
  }

  lemma {:induction false} GetIs(members: seq<(string, Json)>, i: nat)
    requires DistinctKeys(members) && i < |members|
    ensures members[i].0 in KeySet(members) && Get(members, members[i].0) == members[i].1
  {
    if i > 0 {
      assert forall j, k ::
        0 <= j < k < |members| - 1 ==> members[1..][j] == members[j + 1] && members[1..][k] == members[k + 1];
      GetIs(members[1..], i - 1);
    }
  }

  /** Two objects equivalent member by member. */
  lemma MembersEquivalent(x: seq<(string, Json)>, y: seq<(string, Json)>, k: string)
    requires Equivalent(Obj(x), Obj(y)) && k in KeySet(x)
    ensures k in KeySet(y) && Equivalent(Get(x, k), Get(y, k))
  {
    var i :| 0 <= i < |x| && x[i] == (k, Get(x, k));
    var j :| 0 <= j < |y| && y[j] == (k, Get(y, k));
  }

  lemma MemberWellFormed(x: seq<(string, Json)>, k: string)
    requires WellFormed(Obj(x)) && k in KeySet(x)
    ensures WellFormed(Get(x, k))
  {
    var i :| 0 <= i < |x| && x[i] == (k, Get(x, k));
  }

  /** Values equal up to key order have the same canonical form. */
  lemma {:induction false} EquivalentSortEqual(a: Json, b: Json)
    requires WellFormed(a) && WellFormed(b) && Equivalent(a, b)
    ensures SortKeys(a) == SortKeys(b)
    decreases a
  {
    hide CanonicalKeys;
    match (a, b)
    case (Arr(x), Arr(y)) =>
      forall i | 0 <= i < |x|
        ensures SortKeys(x[i]) == SortKeys(y[i])
      {
        EquivalentSortEqual(x[i], y[i]);
      }
    case (Obj(x), Obj(y)) =>
      CanonicalKeysUnique(x, y);
      var keys := CanonicalKeys(x);
      forall i | 0 <= i < |keys|
        ensures SortKeys(Get(x, keys[i])) == SortKeys(Get(y, keys[i]))
      {
        MembersEquivalent(x, y, keys[i]);
        MemberWellFormed(x, keys[i]);
        MemberWellFormed(y, keys[i]);
        EquivalentSortEqual(Get(x, keys[i]), Get(y, keys[i]));
      }
    case (_, _) =>
  }

  /** Sorting an object keeps its key set and sorts each member's value. */
  lemma SortedMembers(x: seq<(string, Json)>)
    requires DistinctKeys(x)
    ensures var y := SortKeys(Obj(x)).members;
            && DistinctKeys(y) && KeySet(y) == KeySet(x)
            && forall j :: 0 <= j < |y| ==> y[j].0 in KeySet(x) && y[j].1 == SortKeys(Get(x, y[j].0))
  {
    hide CanonicalKeys;
    CanonicalKeysComplete(x);
    var keys, y := CanonicalKeys(x), SortKeys(Obj(x)).members;
    assert forall i :: 0 <= i < |keys| ==> y[i].0 == keys[i];
    forall k | k in KeySet(x)
      ensures k in KeySet(y)
    {
      var i :| 0 <= i < |keys| && keys[i] == k;
      assert y[i].0 == k;
    }
  }

  /** The canonical form is the same value, with keys still distinct. */
  lemma {:induction false} SortPreserves(v: Json)
    requires WellFormed(v)
    ensures WellFormed(SortKeys(v)) && Equivalent(v, SortKeys(v))
    decreases v
  {
    hide CanonicalKeys;
    match v
    case Arr(x) =>
      forall i | 0 <= i < |x|
        ensures WellFormed(SortKeys(x[i])) && Equivalent(x[i], SortKeys(x[i]))
      {
        SortPreserves(x[i]);
      }
    case Obj(x) =>
      SortedMembers(x);
      var y := SortKeys(v).members;
      forall j | 0 <= j < |y|
        ensures WellFormed(y[j].1) && Equivalent(Get(x, y[j].0), y[j].1)
      {
        MemberWellFormed(x, y[j].0);
        SortPreserves(Get(x, y[j].0));
      }
      forall i, j | 0 <= i < |x| && 0 <= j < |y| && x[i].0 == y[j].0
        ensures Equivalent(x[i].1, y[j].1)
      {
        GetIs(x, i);
      }
    case _ =>
  }

  /** Sorting twice is sorting once. */
  lemma SortIdempotent(v: Json)
    requires WellFormed(v)
    ensures SortKeys(SortKeys(v)) == SortKeys(v)
  {
    SortPreserves(v);
    EquivalentSortEqual(v, SortKeys(v));
  }

  /** Values with the same canonical form are equal up to key order. */
  lemma {:induction false} SortEqualEquivalent(a: Json, b: Json)
    requires WellFormed(a) && WellFormed(b) && SortKeys(a) == SortKeys(b)
    ensures Equivalent(a, b)
    decreases a
  {
    hide CanonicalKeys;
    match (a, b)
    case (Arr(x), Arr(y)) =>
      assert |x| == |SortKeys(a).items| == |y|;
      forall i | 0 <= i < |x|
        ensures Equivalent(x[i], y[i])
      {
        assert SortKeys(x[i]) == SortKeys(a).items[i] == SortKeys(y[i]);
        SortEqualEquivalent(x[i], y[i]);
      }
    case (Obj(x), Obj(y)) =>
      CanonicalKeysComplete(x);
      CanonicalKeysComplete(y);
      var kx, ky, s := CanonicalKeys(x), CanonicalKeys(y), SortKeys(a).members;
      assert |kx| == |s| == |ky|;
      assert forall i :: 0 <= i < |kx| ==> kx[i] == s[i].0 == ky[i];
      assert kx == ky;
      assert KeySet(x) == KeySet(y);
      forall i, j | 0 <= i < |x| && 0 <= j < |y| && x[i].0 == y[j].0
        ensures Equivalent(x[i].1, y[j].1)
      {
        GetIs(x, i);
        GetIs(y, j);
        assert x[i].0 in kx;
        var l :| 0 <= l < |kx| && kx[l] == x[i].0;
        assert SortKeys(x[i].1) == s[l].1 == SortKeys(y[j].1);
        SortEqualEquivalent(x[i].1, y[j].1);
      }
    case (_, _) =>
  }

  /** Canonical forms, and so serialisations by any function, coincide exactly for values
      equal up to the order of object keys. */
  lemma CanonicalForm(a: Json, b: Json)
    requires WellFormed(a) && WellFormed(b)
    ensures SortKeys(a) == SortKeys(b) <==> Equivalent(a, b)
    ensures Equivalent(a, b) ==>
      forall stringify :: DeterministicStringify(stringify, a) == DeterministicStringify(stringify, b)
  {
    if Equivalent(a, b) { EquivalentSortEqual(a, b); }
    if SortKeys(a) == SortKeys(b) { SortEqualEquivalent(a, b); }
  }
}
