/** The results service's own clustering over Map and Set. */
module CollusionResults {
  import opened Rings
  import opened Order
  import opened Sequences
  import opened Wrappers

  datatype StoredPair = StoredPair(pairId: string, centerId: string, candidateU: string, candidateV: string,
    logLambda: real)

  /** `edges` only serves the statements below: the pairs whose ids are listed. */
  datatype StoredCluster = StoredCluster(
    centerId: string, candidateIds: seq<string>, pairIds: seq<string>, maxLogLambda: real, averageLogLambda: real,
      edges: seq<Key>)

  function AsFlagged(pairs: seq<StoredPair>): (r: seq<Flagged>)
    ensures |r| == |pairs|
    ensures forall i ::
      0 <= i < |pairs| ==> r[i] == Flagged(pairs[i].candidateU, pairs[i].candidateV, pairs[i].logLambda)
  {
    seq(|pairs|, i requires 0 <= i < |pairs| => Flagged(pairs[i].candidateU, pairs[i].candidateV, pairs[i].logLambda))
  }

  // ---------------------------------------------------------------- edge keys

  function Joined(k: Key): string {
    k.0 + ("|" + k.1)
  }

  /** `[u, v].sort().join('|')` */
  function EdgeKey(u: string, v: string): string {
    Joined(KeyOf(u, v))
  }

  /** A bar at m, with the part behind it not before the part in front of it. */
  predicate Splits(s: string, m: nat)
    requires m < |s|
  {
    s[m] == '|' && !Less(s[m + 1..], s[..m])
  }

  /** Another bar than the joining one splits the joined key into sorted halves. */
  ghost predicate Ambiguous(u: string, v: string) {
    exists m: nat :: m < |EdgeKey(u, v)| && m != |KeyOf(u, v).0| && Splits(EdgeKey(u, v), m)
  }

  lemma KeySorted(u: string, v: string)
    ensures !Less(KeyOf(u, v).1, KeyOf(u, v).0)
  {
    LessIrreflexive(u);
    if Less(u, v) && Less(v, u) {
      LessTransitive(u, v, u);
    }
  }

  lemma JoinedParts(k: Key)
    ensures |k.0| < |Joined(k)| && Joined(k)[|k.0|] == '|'
    ensures Joined(k)[..|k.0|] == k.0 && Joined(k)[|k.0| + 1..] == k.1
  {}

  /** A joined key stands for no other pair exactly when it is not ambiguous. */
  lemma AmbiguousExactly(u: string, v: string)
    ensures Ambiguous(u, v) <==> exists x, y :: EdgeKey(x, y) == EdgeKey(u, v) && KeyOf(x, y) != KeyOf(u, v)
  {
    hide Joined, KeyOf;
    var k := KeyOf(u, v);
    JoinedParts(k);
    if Ambiguous(u, v) {
      var m: nat :| m < |EdgeKey(u, v)| && m != |k.0| && Splits(EdgeKey(u, v), m);
      OtherPair(EdgeKey(u, v), m);
    }
    if x, y :| EdgeKey(x, y) == EdgeKey(u, v) && KeyOf(x, y) != k {
      JoinedParts(KeyOf(x, y));
      KeySorted(x, y);
      assert Splits(EdgeKey(u, v), |KeyOf(x, y).0|);
    }
  }

  lemma OtherPair(s: string, m: nat)
    requires m < |s| && Splits(s, m)
    ensures KeyOf(s[..m], s[m + 1..]) == (s[..m], s[m + 1..]) && EdgeKey(s[..m], s[m + 1..]) == s
  {
    assert s == s[..m] + ("|" + s[m + 1..]);
  }

  lemma EdgeKeyInjective(u: string, v: string, x: string, y: string)
    requires !Ambiguous(u, v)
    ensures EdgeKey(u, v) == EdgeKey(x, y) <==> KeyOf(u, v) == KeyOf(x, y)
  {
    AmbiguousExactly(u, v);
  }

  /** Ids without bars are never ambiguous. */
  lemma NoBarsSuffice(u: string, v: string)
    requires '|' !in u && '|' !in v
    ensures !Ambiguous(u, v)
  {
    var k := KeyOf(u, v);
    forall m: nat | m < |EdgeKey(u, v)| && m != |k.0|
      ensures EdgeKey(u, v)[m] != '|'
    {
      assert EdgeKey(u, v)[m] in k.0 || EdgeKey(u, v)[m] in k.1;
    }
  }

  lemma BarsCollide()
    ensures Ambiguous("a", "b|c") && EdgeKey("a", "b|c") == EdgeKey("a|b", "c")
      && KeyOf("a", "b|c") != KeyOf("a|b", "c")
  {
    assert KeyOf("a", "b|c") == ("a", "b|c") && KeyOf("a|b", "c") == ("a|b", "c");
    assert "a" + ("|" + "b|c") == "a|b" + ("|" + "c");
    AmbiguousExactly("a", "b|c");
  }

  // ---------------------------------------------------------------- the tables

  /** `pairsByEdge` on unordered pairs: the last pair of an edge wins. */
  function PairsByEdge(pairs: seq<StoredPair>): map<Key, string> {
    if pairs == [] then map[]
    else
      var p := pairs[|pairs| - 1];
      PairsByEdge(pairs[..|pairs| - 1])[KeyOf(p.candidateU, p.candidateV) := p.pairId]
  }

  /** `pairsByEdge` as it is kept, under joined keys. */
  function EdgeTable(pairs: seq<StoredPair>): map<string, string> {
    if pairs == [] then map[]
    else
      var p := pairs[|pairs| - 1];
      EdgeTable(pairs[..|pairs| - 1])[EdgeKey(p.candidateU, p.candidateV) := p.pairId]
  }

  /** `candidateToCenter` */
  function CenterTable(pairs: seq<StoredPair>): map<string, string> {
    if pairs == [] then map[]
    else
      var p := pairs[|pairs| - 1];
      CenterTable(pairs[..|pairs| - 1])[p.candidateU := p.centerId][p.candidateV := p.centerId]
  }

  method IndexPairs(pairs: seq<StoredPair>) returns (table: map<string, string>, centers: map<string, string>)
    ensures table == EdgeTable(pairs) && centers == CenterTable(pairs)
  {
    hide EdgeKey;
    table, centers := map[], map[];
    var i := 0;
    while i < |pairs|
      invariant 0 <= i <= |pairs| && table == EdgeTable(pairs[..i]) && centers == CenterTable(pairs[..i])
    {
      assert pairs[..i + 1][..i] == pairs[..i];
      table := table[EdgeKey(pairs[i].candidateU, pairs[i].candidateV) := pairs[i].pairId];
      centers := centers[pairs[i].candidateU := pairs[i].centerId];
      centers := centers[pairs[i].candidateV := pairs[i].centerId];
      i := i + 1;
    }
    assert pairs[..|pairs|] == pairs;
  }

  ghost predicate Unambiguous(pairs: seq<StoredPair>) {
    forall i :: 0 <= i < |pairs| ==> !Ambiguous(pairs[i].candidateU, pairs[i].candidateV)
  }

  /** When no pair's key is ambiguous the two tables agree on every pair of ids. */
  lemma {:induction false} TablesAgree(pairs: seq<StoredPair>, u: string, v: string)
    requires Unambiguous(pairs)
    ensures EdgeKey(u, v) in EdgeTable(pairs) <==> KeyOf(u, v) in PairsByEdge(pairs)
    ensures KeyOf(u, v) in PairsByEdge(pairs) ==> EdgeTable(pairs)[EdgeKey(u, v)] == PairsByEdge(pairs)[KeyOf(u, v)]
  {
    hide EdgeKey, KeyOf, Ambiguous;
    if pairs != [] {
      var n := |pairs| - 1;
      TablesAgree(pairs[..n], u, v);
      EdgeKeyInjective(pairs[n].candidateU, pairs[n].candidateV, u, v);
    }
  }

  lemma {:induction false} SameKeys(pairs: seq<StoredPair>)
    ensures PairsByEdge(pairs).Keys == Scores(AsFlagged(pairs)).Keys
  {
    hide KeyOf;
    if pairs != [] {
      var n := |pairs| - 1;
      SameKeys(pairs[..n]);
      assert AsFlagged(pairs)[..n] == AsFlagged(pairs[..n]);
    }
  }

  // ---------------------------------------------------------------- ids and scores

  /** `flaggedPairs.find((p) => p.pairId === pairId)`: the first pair with the id. */
  function Find(pairs: seq<StoredPair>, pairId: string): Option<StoredPair> {
    if pairs == [] then None
    else
      var earlier := Find(pairs[..|pairs| - 1], pairId);
      if earlier.Some? then earlier
      else if pairs[|pairs| - 1].pairId == pairId then Some(pairs[|pairs| - 1])
      else None
  }

  function FoundScores(pairs: seq<StoredPair>, ids: seq<string>): seq<real> {
    if ids == [] then []
    else
      var p := Find(pairs, ids[|ids| - 1]);
      FoundScores(pairs, ids[..|ids| - 1]) + if p.Some? then [p.value.logLambda] else []
  }

  /** No joined key is ambiguous, and each pair has an id of its own. */
  ghost predicate Regular(pairs: seq<StoredPair>) {
    && Unambiguous(pairs)
    && (forall i :: 0 <= i < |pairs| ==> pairs[i].pairId != "")
    && (forall i, j :: 0 <= i < j < |pairs| ==> pairs[i].pairId != pairs[j].pairId)
  }

  lemma RegularInit(pairs: seq<StoredPair>)
    requires Regular(pairs) && pairs != []
    ensures Regular(pairs[..|pairs| - 1])
  {
    hide Ambiguous;
  }

  lemma {:induction false} FindNone(pairs: seq<StoredPair>, pairId: string)
    requires forall i :: 0 <= i < |pairs| ==> pairs[i].pairId != pairId
    ensures Find(pairs, pairId) == None
  {
    if pairs != [] { FindNone(pairs[..|pairs| - 1], pairId); }
  }

  /** The id stored for an edge finds the pair whose score is stored for it. */
  lemma {:induction false} EdgeScore(pairs: seq<StoredPair>, k: Key)
    requires Regular(pairs) && k in PairsByEdge(pairs)
    ensures k in Scores(AsFlagged(pairs)) && PairsByEdge(pairs)[k] != ""
    ensures var p := Find(pairs, PairsByEdge(pairs)[k]); p.Some? && p.value.logLambda == Scores(AsFlagged(pairs))[k]
  {
    hide KeyOf, Unambiguous;
    var n := |pairs| - 1;
    RegularInit(pairs);
    assert AsFlagged(pairs)[..n] == AsFlagged(pairs[..n]);
    if KeyOf(pairs[n].candidateU, pairs[n].candidateV) == k {
      FindNone(pairs[..n], pairs[n].pairId);
    } else {
      EdgeScore(pairs[..n], k);
    }
  }

  lemma {:induction false} ScoresFound(pairs: seq<StoredPair>, edges: seq<Key>, ids: seq<string>)
    requires Regular(pairs) && |ids| == |edges|
    requires forall k :: 0 <= k < |edges| ==> edges[k] in PairsByEdge(pairs) && ids[k] == PairsByEdge(pairs)[edges[k]]
    ensures |FoundScores(pairs, ids)| == |edges|
    ensures forall k ::
      0 <= k < |edges| ==>
        edges[k] in Scores(AsFlagged(pairs)) && FoundScores(pairs, ids)[k] == Scores(AsFlagged(pairs))[edges[k]]
  {
    hide Regular, PairsByEdge, Scores, Find;
    if edges != [] {
      var n := |edges| - 1;
      ScoresFound(pairs, edges[..n], ids[..n]);
      EdgeScore(pairs, edges[n]);
    }
  }

  ghost function KeysAmong(members: seq<string>): (s: set<Key>)
    ensures forall k :: k in s <==> exists i, j :: 0 <= i < j < |members| && KeyOf(members[i], members[j]) == k
  {
    set i, j | 0 <= i < j < |members| :: KeyOf(members[i], members[j])
  }

  /** What looking up the joined keys among the members finds; an empty id counts as none. */
  ghost function LookedUp(members: seq<string>, table: map<string, string>): (t: map<Key, string>)
    ensures forall k :: k in t <==> k in KeysAmong(members) && Joined(k) in table && table[Joined(k)] != ""
    ensures forall k :: k in t ==> t[k] == table[Joined(k)]
  {
    map k | k in KeysAmong(members) && Joined(k) in table && table[Joined(k)] != "" :: table[Joined(k)]
  }

  /** The double loop over the candidates of a component. */
  method CollectIds(members: seq<string>, table: map<string, string>, pairs: seq<StoredPair>)
    returns (pairIds: seq<string>, logLambdas: seq<real>, edges: seq<Key>)
    requires Distinct(members)
    ensures PairsOf(members, LookedUp(members, table), edges, pairIds)
    ensures logLambdas == FoundScores(pairs, pairIds)
  {
    hide PairsSoFar, KeyOf, Joined, Find, Distinct, PairsOf, LookedUp, KeysAmong;
    ghost var t := LookedUp(members, table);
    pairIds, logLambdas, edges := [], [], [];
    var i := 0;
    NoPairs(members, t, 0, 0);
    while i < |members|
      invariant 0 <= i <= |members| && logLambdas == FoundScores(pairs, pairIds)
      invariant PairsSoFar(members, t, edges, pairIds, (i, 0))
    {
      var j := i + 1;
      RowStarts(members, t, edges, pairIds, i);
      while j < |members|
        invariant i < j <= |members| && logLambdas == FoundScores(pairs, pairIds)
        invariant PairsSoFar(members, t, edges, pairIds, (i, j))
      {
        var edgeKey := EdgeKey(members[i], members[j]);
        assert KeyOf(members[i], members[j]) in KeysAmong(members);
        ConsiderPair(members, t, edges, pairIds, i, j);
        if edgeKey in table && table[edgeKey] != "" {
          var pairId := table[edgeKey];
          assert (pairIds + [pairId])[..|pairIds|] == pairIds;
          pairIds := pairIds + [pairId];
          edges := edges + [KeyOf(members[i], members[j])];
          var pair := Find(pairs, pairId);
          if pair.Some? {
            logLambdas := logLambdas + [pair.value.logLambda];
          }
        }
        j := j + 1;
      }
      RowEnds(members, t, edges, pairIds, i);
      i := i + 1;
    }
    AllPairs(members, t, edges, pairIds);
  }

  // ---------------------------------------------------------------- one cluster

  /** `Array.from(component)`, in any order. */
  method ArrayFrom(s: set<string>) returns (r: seq<string>)
    ensures ToSet(r) == s && Distinct(r) && |r| == |s|
  {
    r := [];
    var rest := s;
    while rest != {}
      invariant rest <= s && ToSet(r) == s - rest && Distinct(r) && |r| + |rest| == |s|
      decreases rest
    {
      var x :| x in rest;
      Push(r, x);
      r := r + [x];
      rest := rest - {x};
      assert s - rest == (s - (rest + {x})) + {x};
    }
  }

  lemma Push(r: seq<string>, x: string)
    requires x !in ToSet(r) && Distinct(r)
    ensures ToSet(r + [x]) == ToSet(r) + {x} && Distinct(r + [x])
  {}

  function CenterOf(centers: map<string, string>, u: string): string {
    if u in centers && centers[u] != "" then centers[u] else "unknown"
  }

  /** A whole connected component of two or more candidates, with a centre of its first, the
      ids found under the joined keys among them, and the scores found for these ids. */
  ghost predicate Whole(c: StoredCluster, g: Graph, pairs: seq<StoredPair>) {
    && |c.candidateIds| >= 2 && Distinct(c.candidateIds) && Class(g, c.candidateIds)
    && c.centerId == CenterOf(CenterTable(pairs), c.candidateIds[0])
    && PairsOf(c.candidateIds, LookedUp(c.candidateIds, EdgeTable(pairs)), c.edges, c.pairIds)
    && Summary(FoundScores(pairs, c.pairIds), c.maxLogLambda, c.averageLogLambda)
  }

  /** The greatest and the mean of some scores, zero for none. */
  ghost predicate Summary(s: seq<real>, max: real, average: real) {
    if s == [] then max == 0.0 && average == 0.0
    else max in s && (forall i :: 0 <= i < |s| ==> s[i] <= max) && average == Sum(s) / |s| as real
  }

  /** The ids listed are those of the reported pairs inside, once each, and the figures are
      the maximum and the mean of their scores. */
  ghost predicate Faithful(c: StoredCluster, pairs: seq<StoredPair>) {
    && Distinct(c.edges) && |c.pairIds| == |c.edges| > 0
    && (forall k ::
      0 <= k < |c.edges| ==> c.edges[k] in PairsByEdge(pairs) && c.pairIds[k] == PairsByEdge(pairs)[c.edges[k]])
    && (forall k :: k in c.edges <==> Reported(AsFlagged(pairs), k) && k.0 in c.candidateIds)
    && Figures(c.edges, Scores(AsFlagged(pairs)), c.maxLogLambda, c.averageLogLambda)
  }

  /** A path to another node leaves its first node by some edge. */
  lemma {:induction false} LeavesStart(g: Graph, path: seq<string>, u: string, v: string) returns (w: string)
    requires IsPath(g, path, u, v) && u != v
    ensures u in g && w in g[u] && w != u
  {
    w := path[1];
    if w == u {
      w := LeavesStart(g, path[1..], u, v);
    }
  }

  /** Two connected candidates have a reported pair in their component. */
  lemma HasReported(pairs: seq<StoredPair>, g: Graph, order: seq<string>, members: seq<string>) returns (k: Key)
    requires GraphOf(g, order, AsFlagged(pairs)) && Class(g, members) && |members| >= 2 && Distinct(members)
    ensures Reported(AsFlagged(pairs), k) && k.0 in members
  {
    hide KeyOf;
    var u, v := members[0], members[1];
    assert Connected(g, u, v);
    var path :| IsPath(g, path, u, v);
    var w := LeavesStart(g, path, u, v);
    assert Edge(AsFlagged(pairs), u, w) && Edge(AsFlagged(pairs), w, u);
    assert u in g[w];
    assert IsPath(g, [u, w], u, w);
    assert Connected(g, u, w);
    KeySymmetric(u, w);
    k := KeyOf(u, w);
  }

  /** On regular data the joined keys find what the pairs themselves would. */
  lemma FoundByEdge(pairs: seq<StoredPair>, members: seq<string>, edges: seq<Key>, ids: seq<string>)
    requires Regular(pairs) && PairsOf(members, LookedUp(members, EdgeTable(pairs)), edges, ids)
    ensures PairsOf(members, PairsByEdge(pairs), edges, ids)
  {
    hide Ambiguous, KeyOf, Joined, PairsByEdge, EdgeTable, Scores, Find, LookedUp, KeysAmong;
    forall i, j | 0 <= i < j < |members|
      ensures KeyOf(members[i], members[j]) in LookedUp(members, EdgeTable(pairs)) <==>
        KeyOf(members[i], members[j]) in PairsByEdge(pairs)
      ensures KeyOf(members[i], members[j]) in PairsByEdge(pairs) ==>
        PairsByEdge(pairs)[KeyOf(members[i], members[j])] ==
          LookedUp(members, EdgeTable(pairs))[KeyOf(members[i], members[j])]
    {
      var k := KeyOf(members[i], members[j]);
      assert k in KeysAmong(members);
      TablesAgree(pairs, members[i], members[j]);
      if k in PairsByEdge(pairs) {
        EdgeScore(pairs, k);
      }
    }
  }

  /** The body of the loop for a component of two or more. */
  method MakeStored(pairs: seq<StoredPair>, table: map<string, string>, centers: map<string, string>,
    component: set<string>,
    ghost g: Graph, ghost order: seq<string>) returns (c: StoredCluster)
    requires table == EdgeTable(pairs) && centers == CenterTable(pairs) && GraphOf(g, order, AsFlagged(pairs))
    requires |component| >= 2
    requires forall u, v :: u in component ==> (v in component <==> Connected(g, u, v))
    ensures ToSet(c.candidateIds) == component && Whole(c, g, pairs)
    ensures Regular(pairs) ==> Faithful(c, pairs)
  {
    hide GraphOf, Connected, Regular, Faithful, PairsOf, EdgeTable, CenterTable, FoundScores, Sum, LookedUp, Find;
    var candidateIds := ArrayFrom(component);
    assert forall u :: u in candidateIds <==> u in ToSet(candidateIds);
    var pairIds, logLambdas, edges := CollectIds(candidateIds, table, pairs);
    var max, average := 0.0, 0.0;
    if |logLambdas| > 0 {
      max := MaxScore(logLambdas);
      average := Sum(logLambdas) / |logLambdas| as real;
    }
    c := StoredCluster(CenterOf(centers, candidateIds[0]), candidateIds, pairIds, max, average, edges);
    if Regular(pairs) {
      StoredFaithful(pairs, g, order, c, component);
    }
  }

  lemma StoredFaithful(pairs: seq<StoredPair>, g: Graph, order: seq<string>, c: StoredCluster, component: set<string>)
    requires Regular(pairs) && GraphOf(g, order, AsFlagged(pairs)) && Whole(c, g, pairs)
      && ToSet(c.candidateIds) == component
    requires forall u, v :: u in component ==> (v in component <==> Connected(g, u, v))
    ensures Faithful(c, pairs)
  {
    hide Regular, GraphOf, Connected, PairsByEdge, FoundScores, Scores, Reported, CenterTable, Figures, Summary,
      Class, KeyOf, AsFlagged,
      PairsOf, LookedUp, EdgeTable;
    var flagged := AsFlagged(pairs);
    assert forall u :: u in c.candidateIds <==> u in component;
    SameKeys(pairs);
    FoundByEdge(pairs, c.candidateIds, c.edges, c.pairIds);
    ComponentPairs(flagged, g, order, component, c.candidateIds, PairsByEdge(pairs), c.edges, c.pairIds);
    var k := HasReported(pairs, g, order, c.candidateIds);
    assert k in c.edges;
    PairsFacts(c.candidateIds, PairsByEdge(pairs), c.edges, c.pairIds);
    StoredFigures(pairs, c);
  }

  lemma PairsFacts(members: seq<string>, table: map<Key, string>, edges: seq<Key>, ids: seq<string>)
    requires PairsOf(members, table, edges, ids)
    ensures |ids| == |edges| && Distinct(edges)
    ensures forall k :: 0 <= k < |edges| ==> edges[k] in table && ids[k] == table[edges[k]]
  {}

  lemma StoredFigures(pairs: seq<StoredPair>, c: StoredCluster)
    requires Regular(pairs) && |c.pairIds| == |c.edges| > 0
    requires forall k ::
      0 <= k < |c.edges| ==> c.edges[k] in PairsByEdge(pairs) && c.pairIds[k] == PairsByEdge(pairs)[c.edges[k]]
    requires Summary(FoundScores(pairs, c.pairIds), c.maxLogLambda, c.averageLogLambda)
    ensures Figures(c.edges, Scores(AsFlagged(pairs)), c.maxLogLambda, c.averageLogLambda)
  {
    hide Regular, PairsByEdge, FoundScores, Scores, Figures, Sum, AsFlagged;
    ScoresFound(pairs, c.edges, c.pairIds);
    FiguresHold(c.edges, FoundScores(pairs, c.pairIds), Scores(AsFlagged(pairs)), c.maxLogLambda);
  }

  // ---------------------------------------------------------------- all clusters

  ghost predicate Listed(clusters: seq<StoredCluster>, k: Key) {
    exists i :: 0 <= i < |clusters| && k in clusters[i].edges
  }

  ghost predicate EdgesDisjoint(clusters: seq<StoredCluster>) {
    forall i, j, k :: 0 <= i < j < |clusters| && k in clusters[i].edges ==> k !in clusters[j].edges
  }

  ghost predicate Descending(clusters: seq<StoredCluster>) {
    forall i, j :: 0 <= i < j < |clusters| ==> clusters[i].maxLogLambda >= clusters[j].maxLogLambda
  }

  /** A cluster set between the others. */
  lemma Placed(before: seq<StoredCluster>, c: StoredCluster, behind: seq<StoredCluster>)
    ensures forall k :: Listed(before + [c] + behind, k) <==> Listed(before + behind, k) || k in c.edges
    ensures EdgesDisjoint(before + behind) && (forall k :: k in c.edges ==> !Listed(before + behind, k)) ==>
      EdgesDisjoint(before + [c] + behind)
  {
    var all, rest := before + [c] + behind, before + behind;
    assert all[|before|] == c;
    forall i | 0 <= i < |rest|
      ensures rest[i] == all[if i < |before| then i else i + 1]
    {
    }
    forall k | Listed(rest, k)
      ensures Listed(all, k)
    {
      var i :| 0 <= i < |rest| && k in rest[i].edges;
      assert k in all[if i < |before| then i else i + 1].edges;
    }
    forall i | 0 <= i < |all| && i != |before|
      ensures all[i] == rest[if i < |before| then i else i - 1]
    {
    }
  }

  lemma Appended(clusters: seq<StoredCluster>, c: StoredCluster)
    ensures forall k :: Listed(clusters + [c], k) <==> Listed(clusters, k) || k in c.edges
    ensures EdgesDisjoint(clusters) && (forall k :: k in c.edges ==> !Listed(clusters, k)) ==>
      EdgesDisjoint(clusters + [c])
  {
    Placed(clusters, c, []);
    assert clusters + [] == clusters && clusters + [c] + [] == clusters + [c];
  }

  /** `clusters.sort((a, b) => b.maxLogLambda - a.maxLogLambda)`, stable. */
  method SortClusters(clusters: seq<StoredCluster>) returns (r: seq<StoredCluster>)
    ensures Descending(r) && multiset(r) == multiset(clusters)
    ensures forall k :: Listed(r, k) <==> Listed(clusters, k)
    ensures EdgesDisjoint(clusters) ==> EdgesDisjoint(r)
  {
    hide Listed, EdgesDisjoint, Descending;
    r := [];
    var i := 0;
    NoClusters();
    while i < |clusters|
      invariant 0 <= i <= |clusters| && Descending(r) && multiset(r) == multiset(clusters[..i])
      invariant forall k :: Listed(r, k) <==> Listed(clusters[..i], k)
      invariant EdgesDisjoint(clusters) ==> EdgesDisjoint(r)
    {
      assert clusters[..i + 1] == clusters[..i] + [clusters[i]];
      Appended(clusters[..i], clusters[i]);
      NotBefore(clusters, i);
      r := Insert(r, clusters[i]);
      i := i + 1;
    }
    assert clusters[..|clusters|] == clusters;
  }

  lemma NotBefore(clusters: seq<StoredCluster>, i: nat)
    requires i < |clusters|
    ensures EdgesDisjoint(clusters) ==> forall k :: k in clusters[i].edges ==> !Listed(clusters[..i], k)
  {}

  method Insert(sorted: seq<StoredCluster>, c: StoredCluster) returns (r: seq<StoredCluster>)
    requires Descending(sorted)
    ensures Descending(r) && multiset(r) == multiset(sorted + [c])
    ensures forall k :: Listed(r, k) <==> Listed(sorted, k) || k in c.edges
    ensures EdgesDisjoint(sorted) && (forall k :: k in c.edges ==> !Listed(sorted, k)) ==> EdgesDisjoint(r)
  {
    hide Listed, EdgesDisjoint, Descending;
    var i := |sorted|;
    while i > 0 && sorted[i - 1].maxLogLambda < c.maxLogLambda
      invariant 0 <= i <= |sorted| && forall j :: i <= j < |sorted| ==> sorted[j].maxLogLambda < c.maxLogLambda
    {
      i := i - 1;
    }
    ghost var before, behind := sorted[..i], sorted[i..];
    r := sorted[..i] + [c] + sorted[i..];
    assert sorted == before + behind;
    PlacedDescending(before, c, behind);
    assert multiset(r) == multiset(before) + multiset{c} + multiset(behind);
    Placed(before, c, behind);
  }

  lemma PlacedDescending(before: seq<StoredCluster>, c: StoredCluster, behind: seq<StoredCluster>)
    requires Descending(before + behind)
    requires before == [] || before[|before| - 1].maxLogLambda >= c.maxLogLambda
    requires forall j :: 0 <= j < |behind| ==> behind[j].maxLogLambda < c.maxLogLambda
    ensures Descending(before + [c] + behind)
  {
    var rest, all, n := before + behind, before + [c] + behind, |before|;
    forall i, j | 0 <= i < j < |all|
      ensures all[i].maxLogLambda >= all[j].maxLogLambda
    {
      AllAt(before, c, behind, i);
      AllAt(before, c, behind, j);
      if j == n {
        assert rest[n - 1] == before[n - 1] && (i < n - 1 ==> rest[i].maxLogLambda >= rest[n - 1].maxLogLambda);
      }
    }
  }

  lemma AllAt(before: seq<StoredCluster>, c: StoredCluster, behind: seq<StoredCluster>, i: nat)
    requires i < |before + [c] + behind|
    ensures (before + [c] + behind)[i] ==
      if i < |before| then (before + behind)[i] else if i == |before| then c else (before + behind)[i - 1]
    ensures i > |before| ==> (before + [c] + behind)[i] == behind[i - 1 - |before|]
  {}

  lemma NoClusters()
    ensures EdgesDisjoint([]) && Descending([]) && forall k :: !Listed([], k)
  {}

  /** A component of one node carries no reported pair. */
  lemma SingletonHasNone(g: Graph, order: seq<string>, flagged: seq<Flagged>, component: set<string>, k: Key)
    requires GraphOf(g, order, flagged) && |component| < 2 && k.0 in component
    requires forall u, v :: u in component ==> (v in component <==> Connected(g, u, v))
    ensures !Reported(flagged, k)
  {
    hide Connected, GraphOf, Reported;
    if Reported(flagged, k) {
      ReportedJoins(flagged, g, order, k);
      TwoMembers(component, k.0, k.1);
    }
  }

  lemma TwoMembers(s: set<string>, x: string, y: string)
    requires x in s && y in s && x != y
    ensures |s| >= 2
  {
    assert {x, y} <= s;
    assert |s| == |{x, y}| + |s - {x, y}|;
  }

  /** The clusters so far list exactly the reported pairs of the first i components. */
  ghost predicate Lists(clusters: seq<StoredCluster>, pairs: seq<StoredPair>, components: seq<set<string>>, i: nat)
    requires i <= |components|
  {
    && EdgesDisjoint(clusters) && (forall c :: c in clusters ==> Faithful(c, pairs))
    && forall k :: Listed(clusters, k) <==> k in KeysWithin(AsFlagged(pairs), components, i)
  }

  lemma ListsNext(clusters: seq<StoredCluster>, pairs: seq<StoredPair>, g: Graph, components: seq<set<string>>,
    i: nat, c: StoredCluster)
    requires i < |components| && Components(g, components) && Lists(clusters, pairs, components, i)
    requires Faithful(c, pairs) && ToSet(c.candidateIds) == components[i]
    ensures Lists(clusters + [c], pairs, components, i + 1)
  {
    hide Components, Listed, EdgesDisjoint, Reported, Figures;
    assert forall u :: u in c.candidateIds <==> u in ToSet(c.candidateIds);
    NextComponent(AsFlagged(pairs), g, components, i, c.edges);
    Appended(clusters, c);
  }

  lemma ListsSkip(clusters: seq<StoredCluster>, pairs: seq<StoredPair>, g: Graph, order: seq<string>,
    components: seq<set<string>>, i: nat)
    requires i < |components| && Components(g, components) && Lists(clusters, pairs, components, i)
    requires GraphOf(g, order, AsFlagged(pairs)) && |components[i]| < 2
    ensures Lists(clusters, pairs, components, i + 1)
  {
    hide Components, Listed, EdgesDisjoint, Reported, GraphOf, Connected, Faithful;
    IsClass(g, components, i);
    forall k: Key | k.0 in components[i]
      ensures !Reported(AsFlagged(pairs), k)
    {
      SingletonHasNone(g, order, AsFlagged(pairs), components[i], k);
    }
    NextComponent(AsFlagged(pairs), g, components, i, []);
  }

  /** Some cluster holds both candidates of a pair. */
  ghost predicate Together(clusters: seq<StoredCluster>, k: Key) {
    exists c :: c in clusters && k.0 in c.candidateIds && k.1 in c.candidateIds
  }

  ghost predicate TogetherSoFar(clusters: seq<StoredCluster>, pairs: seq<StoredPair>, components: seq<set<string>>,
    i: nat)
    requires i <= |components|
  {
    forall k :: k in KeysWithin(AsFlagged(pairs), components, i) ==> Together(clusters, k)
  }

  lemma TogetherNext(clusters: seq<StoredCluster>, more: seq<StoredCluster>, pairs: seq<StoredPair>, g: Graph,
    order: seq<string>, components: seq<set<string>>, i: nat)
    requires i < |components| && Components(g, components) && GraphOf(g, order, AsFlagged(pairs))
    requires TogetherSoFar(clusters, pairs, components, i) && forall c :: c in clusters ==> c in more
    requires |components[i]| >= 2 ==> exists c :: c in more && ToSet(c.candidateIds) == components[i]
    ensures TogetherSoFar(more, pairs, components, i + 1)
  {
    hide Components, GraphOf, Reported, Connected;
    IsClass(g, components, i);
    forall k | k in KeysWithin(AsFlagged(pairs), components, i + 1) && k !in KeysWithin(AsFlagged(pairs), components, i)
      ensures Together(more, k)
    {
      assert k.0 in components[i];
      ReportedJoins(AsFlagged(pairs), g, order, k);
      TwoMembers(components[i], k.0, k.1);
      var c :| c in more && ToSet(c.candidateIds) == components[i];
      assert k.0 in ToSet(c.candidateIds) && k.1 in ToSet(c.candidateIds);
    }
  }

  /** `getClusters`: each cluster is a whole component of two or more candidates, in order of
      greatest score, with the ids found under the joined keys; every reported pair has its
      candidates together in one; on regular data each lists the ids of the reported pairs inside it with
      their greatest and mean score, and every reported pair is in exactly one. */
  method GetClusters(pairs: seq<StoredPair>)
    returns (clusters: seq<StoredCluster>, ghost g: Graph, ghost order: seq<string>)
    ensures GraphOf(g, order, AsFlagged(pairs)) && Descending(clusters)
    ensures forall c :: c in clusters ==> Whole(c, g, pairs)
    ensures forall k :: Reported(AsFlagged(pairs), k) ==> Together(clusters, k)
    ensures Regular(pairs) ==> forall c :: c in clusters ==> Faithful(c, pairs)
    ensures Regular(pairs) ==>
      EdgesDisjoint(clusters) && forall k :: Listed(clusters, k) <==> Reported(AsFlagged(pairs), k)
  {
    hide GraphOf, Connected, Reported, Faithful, Whole, Regular, Listed, EdgesDisjoint, Descending, EdgeTable,
      CenterTable, Together, TogetherSoFar;
    var flagged := AsFlagged(pairs);
    var adjacency, nodes := BuildAdjacencyGraph(flagged);
    g, order := adjacency, nodes;
    OrderIsNodes(g, order, flagged);
    var components := ConnectedComponents(adjacency, nodes);
    var table, centers := IndexPairs(pairs);
    clusters := [];
    NoClusters();
    NoneTogether(pairs, components);
    var i := 0;
    while i < |components|
      invariant 0 <= i <= |components|
      invariant forall c :: c in clusters ==> Whole(c, g, pairs)
      invariant TogetherSoFar(clusters, pairs, components, i)
      invariant Regular(pairs) ==> Lists(clusters, pairs, components, i)
    {
      if |components[i]| >= 2 {
        IsClass(g, components, i);
        var c := MakeStored(pairs, table, centers, components[i], g, order);
        if Regular(pairs) { ListsNext(clusters, pairs, g, components, i, c); }
        assert c in clusters + [c];
        TogetherNext(clusters, clusters + [c], pairs, g, order, components, i);
        clusters := clusters + [c];
      } else {
        if Regular(pairs) { ListsSkip(clusters, pairs, g, order, components, i); }
        TogetherNext(clusters, clusters, pairs, g, order, components, i);
      }
      i := i + 1;
    }
    AllComponents(flagged, g, order, components);
    ghost var unsorted := clusters;
    clusters := SortClusters(clusters);
    SameMembers(unsorted, clusters);
    AllTogether(unsorted, clusters, pairs, components);
  }

  lemma NoneTogether(pairs: seq<StoredPair>, components: seq<set<string>>)
    ensures TogetherSoFar([], pairs, components, 0)
  {}

  lemma AllTogether(clusters: seq<StoredCluster>, sorted: seq<StoredCluster>, pairs: seq<StoredPair>,
    components: seq<set<string>>)
    requires TogetherSoFar(clusters, pairs, components, |components|) && forall c :: c in clusters ==> c in sorted
    requires KeysWithin(AsFlagged(pairs), components, |components|) == ReportedKeys(AsFlagged(pairs))
    ensures forall k :: Reported(AsFlagged(pairs), k) ==> Together(sorted, k)
  {
    hide Reported;
    forall k | Reported(AsFlagged(pairs), k)
      ensures Together(sorted, k)
    {
      assert k in ReportedKeys(AsFlagged(pairs));
      assert Together(clusters, k);
    }
  }

  /** For every ambiguous pair there is a list of two pairs with ids of their own on which its
      id is listed nowhere and the other pair's id is listed in its place. */
  method Misled(u: string, v: string) returns (pairs: seq<StoredPair>, clusters: seq<StoredCluster>)
    requires u != v && Ambiguous(u, v)
    ensures |pairs| == 2 && pairs[0] == StoredPair("1", "", u, v, 1.0) && pairs[1].pairId == "2"
    ensures KeyOf(pairs[1].candidateU, pairs[1].candidateV) != KeyOf(u, v)
    ensures forall c :: c in clusters ==> "1" !in c.pairIds
    ensures exists c :: c in clusters && u in c.candidateIds && v in c.candidateIds && "2" in c.pairIds
  {
    hide Joined, KeyOf, GraphOf, Ambiguous;
    var x, y := OtherIds(u, v);
    pairs := [StoredPair("1", "", u, v, 1.0), StoredPair("2", "", x, y, 1.0)];
    TableOfTwo(pairs, EdgeKey(u, v));
    ghost var g, order;
    clusters, g, order := GetClusters(pairs);
    forall c | c in clusters
      ensures "1" !in c.pairIds
    {
      OnlyTwo(c, g, pairs, EdgeKey(u, v));
    }
    var k := KeyOf(u, v);
    KeySymmetric(u, v);
    assert AsFlagged(pairs)[0].candidateU == u;
    assert Reported(AsFlagged(pairs), k);
    var c :| c in clusters && k.0 in c.candidateIds && k.1 in c.candidateIds;
    ListsTwo(c, g, pairs, u, v);
  }

  method OtherIds(u: string, v: string) returns (x: string, y: string)
    requires Ambiguous(u, v)
    ensures EdgeKey(x, y) == EdgeKey(u, v) && KeyOf(x, y) != KeyOf(u, v)
  {
    hide KeyOf, Joined;
    var s, n, m := EdgeKey(u, v), |KeyOf(u, v).0|, 0;
    while m == n || !Splits(s, m)
      invariant 0 <= m < |s|
      invariant forall i: nat :: i < m ==> i == n || !Splits(s, i)
      decreases |s| - m
    {
      assert exists i: nat :: i < |s| && i != n && Splits(s, i);
      m := m + 1;
    }
    x, y := s[..m], s[m + 1..];
    OtherPair(s, m);
  }

  lemma TableOfTwo(pairs: seq<StoredPair>, key: string)
    requires |pairs| == 2 && pairs[1].pairId == "2"
    requires EdgeKey(pairs[0].candidateU, pairs[0].candidateV) == key ==
      EdgeKey(pairs[1].candidateU, pairs[1].candidateV)
    ensures EdgeTable(pairs) == map[key := "2"]
  {
    hide EdgeKey;
    assert pairs[..1] == [pairs[0]] && pairs[..1][..0] == [];
    assert EdgeTable(pairs[..1]) == map[key := pairs[0].pairId];
  }

  lemma OnlyTwo(c: StoredCluster, g: Graph, pairs: seq<StoredPair>, key: string)
    requires Whole(c, g, pairs) && EdgeTable(pairs) == map[key := "2"]
    ensures forall k :: 0 <= k < |c.pairIds| ==> c.pairIds[k] == "2"
  {
    hide EdgeTable, Class, CenterTable, Summary, KeyOf, Joined, KeysAmong;
  }

  lemma FoundBetween(members: seq<string>, table: map<string, string>, edges: seq<Key>, ids: seq<string>, i: nat,
    j: nat) returns (l: nat)
    requires PairsOf(members, LookedUp(members, table), edges, ids) && i < j < |members|
    requires EdgeKey(members[i], members[j]) in table && table[EdgeKey(members[i], members[j])] != ""
    ensures l < |ids| && ids[l] == table[EdgeKey(members[i], members[j])]
  {
    hide KeyOf, Joined, KeysAmong;
    var k := KeyOf(members[i], members[j]);
    assert k in KeysAmong(members);
    assert k in LookedUp(members, table);
    l :| 0 <= l < |edges| && edges[l] == k;
  }

  lemma ListsTwo(c: StoredCluster, g: Graph, pairs: seq<StoredPair>, u: string, v: string)
    requires Whole(c, g, pairs) && EdgeTable(pairs) == map[EdgeKey(u, v) := "2"]
    requires u != v && u in c.candidateIds && v in c.candidateIds
    ensures "2" in c.pairIds
  {
    hide EdgeTable, Class, CenterTable, Summary, KeyOf, Joined, KeysAmong, FoundScores, PairsOf, LookedUp;
    var i: nat :| i < |c.candidateIds| && c.candidateIds[i] == u;
    var j: nat :| j < |c.candidateIds| && c.candidateIds[j] == v;
    KeySymmetric(u, v);
    var l := FoundBetween(c.candidateIds, EdgeTable(pairs), c.edges, c.pairIds, if i < j then i
      else j, if i < j then j else i);
  }

  lemma SameMembers(a: seq<StoredCluster>, b: seq<StoredCluster>)
    requires multiset(a) == multiset(b)
    ensures forall c :: c in a <==> c in b
  {
    forall c
      ensures c in a <==> c in b
    {
      assert c in a <==> c in multiset(a);
    }
  }
}
