/** The worker's `cluster_analysis`: connected components by breadth-first search with duplicate
    queue entries, and the clustering of flagged pairs into rings. */
module Rings {
  import opened Order
  import opened Sequences
  import opened Wrappers

  // ================================================================ components

  type Graph = map<string, set<string>>

  /** Undirected: edges stay inside the node set and go both ways. */
  ghost predicate Undirected(g: Graph) {
    forall u, v :: u in g && v in g[u] ==> v in g && u in g[v]
  }

  // ---------------------------------------------------------------- connection

  ghost predicate IsPath(g: Graph, path: seq<string>, u: string, v: string) {
    && path != [] && path[0] == u && path[|path| - 1] == v
    && (forall i :: 0 <= i < |path| ==> path[i] in g)
    && (forall i :: 0 < i < |path| ==> path[i] in g[path[i - 1]])
  }

  ghost predicate Connected(g: Graph, u: string, v: string) {
    exists path :: IsPath(g, path, u, v)
  }

  lemma ConnectedSelf(g: Graph, u: string)
    requires u in g
    ensures Connected(g, u, u)
  {
    assert IsPath(g, [u], u, u);
  }

  lemma ConnectedStep(g: Graph, u: string, v: string, w: string)
    requires Connected(g, u, v) && Undirected(g) && v in g && w in g[v]
    ensures Connected(g, u, w)
  {
    var path :| IsPath(g, path, u, v);
    assert IsPath(g, path + [w], u, w);
  }

  lemma {:induction false} ConnectedBack(g: Graph, path: seq<string>, u: string, v: string)
    requires IsPath(g, path, u, v) && Undirected(g)
    ensures Connected(g, v, u)
    decreases |path|
  {
    if |path| == 1 {
      ConnectedSelf(g, u);
    } else {
      var n := |path| - 1;
      var w := path[n - 1];
      assert IsPath(g, path[..n], u, w);
      ConnectedBack(g, path[..n], u, w);
      var back :| IsPath(g, back, w, u);
      assert v in g[w] && w in g[v];
      assert IsPath(g, [v] + back, v, u);
    }
  }

  lemma ConnectedSymmetric(g: Graph, u: string, v: string)
    requires Connected(g, u, v) && Undirected(g)
    ensures Connected(g, v, u)
  {
    var path :| IsPath(g, path, u, v);
    ConnectedBack(g, path, u, v);
  }

  lemma ConnectedTransitive(g: Graph, u: string, v: string, w: string)
    requires Connected(g, u, v) && Connected(g, v, w)
    ensures Connected(g, u, w)
  {
    var p :| IsPath(g, p, u, v);
    var q :| IsPath(g, q, v, w);
    var r := p + q[1..];
    forall i | 0 < i < |r|
      ensures r[i] in g[r[i - 1]]
    {
      if i >= |p| {
        assert r[i] == q[i - |p| + 1];
        assert r[i - 1] == q[i - |p|];
      }
    }
    assert IsPath(g, r, u, w);
  }

  /** Nothing leaves a set closed under neighbours. */
  lemma {:induction false} ClosedHolds(g: Graph, s: set<string>, path: seq<string>, u: string, v: string)
    requires IsPath(g, path, u, v) && u in s
    requires forall x :: x in s ==> x in g && g[x] <= s
    ensures v in s
    decreases |path|
  {
    if |path| > 1 {
      var n := |path| - 1;
      assert IsPath(g, path[..n], u, path[n - 1]);
      ClosedHolds(g, s, path[..n], u, path[n - 1]);
    }
  }

  // ---------------------------------------------------------------- one search

  ghost predicate Closed(g: Graph, s: set<string>) {
    forall x :: x in s ==> x in g && g[x] <= s
  }

  /** Visited nodes found in this search have their neighbours visited or queued. */
  ghost predicate Frontier(g: Graph, component: set<string>, visited: set<string>, queue: seq<string>) {
    forall x, y :: x in component && x in g && y in g[x] ==> y in visited || y in queue
  }

  ghost predicate Found(g: Graph, node: string, component: set<string>, queue: seq<string>) {
    && (forall x :: x in component ==> x in g && Connected(g, node, x))
    && (forall k :: 0 <= k < |queue| ==> queue[k] in g && Connected(g, node, queue[k]))
  }

  /** The inner loop: neighbours not yet visited are queued, in any order. */
  method Enqueue(g: Graph, node: string, current: string, visited: set<string>, queue0: seq<string>)
    returns (queue: seq<string>)
    requires Undirected(g) && current in g && Connected(g, node, current)
    requires forall k :: 0 <= k < |queue0| ==> queue0[k] in g && Connected(g, node, queue0[k])
    ensures queue0 <= queue
    ensures forall k :: 0 <= k < |queue| ==> queue[k] in g && Connected(g, node, queue[k])
    ensures forall y :: y in g[current] ==> y in visited || y in queue
  {
    hide Connected;
    queue := queue0;
    var todo := g[current];
    while todo != {}
      invariant todo <= g[current] && queue0 <= queue
      invariant forall k :: 0 <= k < |queue| ==> queue[k] in g && Connected(g, node, queue[k])
      invariant forall y :: y in g[current] - todo ==> y in visited || y in queue
      decreases todo
    {
      var neighbor :| neighbor in todo;
      todo := todo - {neighbor};
      if neighbor !in visited {
        ConnectedStep(g, node, current, neighbor);
        queue := queue + [neighbor];
      }
    }
  }

  /** One search. Nodes may be queued several times; each step visits a new node or shortens
      the queue. */
  method Search(g: Graph, node: string, visited0: set<string>) returns (component: set<string>, visited: set<string>)
    requires Undirected(g) && node in g && node !in visited0 && Closed(g, visited0)
    ensures visited == visited0 + component && component !! visited0
    ensures forall v :: v in component <==> Connected(g, node, v)
    ensures Closed(g, visited) && node in component
  {
    hide Connected;
    component, visited := {}, visited0;
    var queue := [node];
    ConnectedSelf(g, node);
    while queue != []
      invariant visited == visited0 + component && component !! visited0
      invariant Found(g, node, component, queue) && Frontier(g, component, visited, queue)
      invariant node in component || node in queue
      decreases g.Keys - visited, |queue|
    {
      var current := queue[0];
      queue := queue[1..];
      assert current in g && Connected(g, node, current);
      if current !in visited {
        visited := visited + {current};
        component := component + {current};
        queue := Enqueue(g, node, current, visited, queue);
      }
    }
    SearchComplete(g, node, component, visited0);
  }

  lemma NoEdgeInto(g: Graph, s: set<string>, x: string, y: string)
    requires Undirected(g) && Closed(g, s) && x in g && x !in s && y in g[x]
    ensures y !in s
  {}

  lemma SearchComplete(g: Graph, node: string, component: set<string>, visited0: set<string>)
    requires Undirected(g) && Closed(g, visited0) && component !! visited0 && node in component
    requires Found(g, node, component, []) && Frontier(g, component, visited0 + component, [])
    ensures Closed(g, component) && Closed(g, visited0 + component)
    ensures forall v :: v in component <==> Connected(g, node, v)
  {
    forall x | x in component
      ensures g[x] <= component
    {
      forall y | y in g[x]
        ensures y in component
      {
        NoEdgeInto(g, visited0, x, y);
      }
    }
    forall v | Connected(g, node, v)
      ensures v in component
    {
      var path :| IsPath(g, path, node, v);
      ClosedHolds(g, component, path, node, v);
    }
  }

  // ---------------------------------------------------------------- all components

  /** The components listed so far: non-empty, disjoint, covering the visited nodes, and two
      nodes share one exactly when a path joins them. */
  ghost predicate Partial(g: Graph, visited: set<string>, components: seq<set<string>>) {
    && (forall i :: 0 <= i < |components| ==> components[i] != {})
    && (forall i, u, v :: 0 <= i < |components| && u in components[i] ==> (v in components[i] <==> Connected(g, u, v)))
    && (forall u :: u in visited <==> exists i :: 0 <= i < |components| && u in components[i])
    && (forall i, j :: 0 <= i < j < |components| ==> components[i] !! components[j])
  }

  ghost predicate Components(g: Graph, components: seq<set<string>>) {
    Partial(g, g.Keys, components)
  }

  lemma ComponentClass(g: Graph, node: string, component: set<string>, u: string, v: string)
    requires Undirected(g) && u in component
    requires forall x :: x in component <==> Connected(g, node, x)
    ensures v in component <==> Connected(g, u, v)
  {
    hide Connected;
    ConnectedSymmetric(g, node, u);
    if v in component {
      ConnectedTransitive(g, u, node, v);
    }
    if Connected(g, u, v) {
      ConnectedTransitive(g, node, u, v);
    }
  }

  lemma AddComponent(g: Graph, visited: set<string>, components: seq<set<string>>, node: string, component: set<string>)
    requires Undirected(g) && Partial(g, visited, components) && component !! visited && node in component
    requires forall x :: x in component <==> Connected(g, node, x)
    ensures Partial(g, visited + component, components + [component])
  {
    hide Connected;
    var more, n := components + [component], |components|;
    assert more[n] == component && forall i :: 0 <= i < n ==> more[i] == components[i];
    forall u, v | u in component
      ensures v in component <==> Connected(g, u, v)
    {
      ComponentClass(g, node, component, u, v);
    }
    forall u
      ensures u in visited + component <==> exists i :: 0 <= i < |more| && u in more[i]
    {
      if u in visited {
        var i :| 0 <= i < n && u in components[i];
        assert u in more[i];
      }
      if u in component {
        assert u in more[n];
      }
    }
    forall i | 0 <= i < n
      ensures components[i] !! component
    {
      assert forall u :: u in components[i] ==> u in visited;
    }
  }

  /** `_bfs_connected_components`, over the nodes in insertion order. */
  method ConnectedComponents(g: Graph, order: seq<string>) returns (components: seq<set<string>>)
    requires Undirected(g) && forall u :: u in order <==> u in g
    ensures Components(g, components)
  {
    hide Connected, Partial;
    var visited: set<string> := {};
    components := [];
    NothingYet(g);
    var i := 0;
    while i < |order|
      invariant 0 <= i <= |order|
      invariant Closed(g, visited) && Partial(g, visited, components)
      invariant forall k :: 0 <= k < i ==> order[k] in visited
    {
      var node := order[i];
      if node !in visited {
        var component, after := Search(g, node, visited);
        AddComponent(g, visited, components, node, component);
        components := components + [component];
        visited := after;
      }
      i := i + 1;
    }
    assert visited == g.Keys;
  }

  lemma NothingYet(g: Graph)
    ensures Partial(g, {}, [])
  {}

  // ================================================================ rings

  datatype Flagged = Flagged(candidateU: string, candidateV: string, logLambda: real)

  /** An unordered pair, smaller id first. */
  type Key = (string, string)

  function KeyOf(u: string, v: string): Key {
    if Less(v, u) then (v, u) else (u, v)
  }

  lemma KeySymmetric(u: string, v: string)
    ensures KeyOf(u, v) == KeyOf(v, u)
    ensures KeyOf(u, v) == (u, v) || KeyOf(u, v) == (v, u)
  {
    LessTotal(u, v);
  }

  /** The reported pairs of two different candidates. */
  ghost predicate Reported(results: seq<Flagged>, k: Key) {
    exists i :: 0 <= i < |results| && ReportOf(results[i], k)
  }

  predicate ReportOf(r: Flagged, k: Key) {
    r.candidateU != r.candidateV && KeyOf(r.candidateU, r.candidateV) == k
  }

  // ---------------------------------------------------------------- the graph

  ghost predicate Edge(results: seq<Flagged>, u: string, v: string) {
    exists i :: 0 <= i < |results| &&
      ((results[i].candidateU == u && results[i].candidateV == v)
        || (results[i].candidateU == v && results[i].candidateV == u))
  }

  /** The edges of the graph are exactly the flagged pairs; `order` lists its nodes. */
  ghost predicate GraphOf(g: Graph, order: seq<string>, results: seq<Flagged>) {
    && (forall u :: u in order <==> u in g)
    && (forall u, v :: (u in g && v in g[u]) <==> Edge(results, u, v))
    && (forall u :: u in g ==> g[u] != {})
  }

  lemma EdgeAppend(results: seq<Flagged>, r: Flagged, u: string, v: string)
    ensures Edge(results + [r], u, v) <==>
      Edge(results, u, v) || (r.candidateU == u && r.candidateV == v) || (r.candidateU == v && r.candidateV == u)
  {
    var more := results + [r];
    assert more[|results|] == r;
    if Edge(results, u, v) {
      var i :| 0 <= i < |results| &&
        ((results[i].candidateU == u && results[i].candidateV == v)
          || (results[i].candidateU == v && results[i].candidateV == u));
      assert more[i] == results[i];
    }
  }

  function WithNode(g: Graph, u: string): Graph {
    if u in g then g else g[u := {}]
  }

  function WithEdge(g: Graph, u: string, v: string): Graph {
    var g1 := WithNode(WithNode(g, u), v);
    var g2 := g1[u := g1[u] + {v}];
    g2[v := g2[v] + {u}]
  }

  lemma EdgeAdded(g: Graph, order: seq<string>, order': seq<string>, results: seq<Flagged>, r: Flagged)
    requires GraphOf(g, order, results)
    requires forall w :: w in order' <==> w in order || w == r.candidateU || w == r.candidateV
    ensures GraphOf(WithEdge(g, r.candidateU, r.candidateV), order', results + [r])
  {
    hide Edge;
    var g' := WithEdge(g, r.candidateU, r.candidateV);
    forall u, v
      ensures (u in g' && v in g'[u]) <==> Edge(results + [r], u, v)
    {
      EdgeAppend(results, r, u, v);
    }
  }

  /** `_build_adjacency_graph` */
  method BuildAdjacencyGraph(results: seq<Flagged>) returns (g: Graph, order: seq<string>)
    ensures GraphOf(g, order, results) && Undirected(g)
  {
    hide GraphOf, WithEdge;
    g, order := map[], [];
    EmptyGraph();
    var i := 0;
    while i < |results|
      invariant 0 <= i <= |results| && GraphOf(g, order, results[..i])
    {
      var u, v := results[i].candidateU, results[i].candidateV;
      ghost var before := order;
      OrderIsNodes(g, order, results[..i]);
      if u !in g {
        order := order + [u];
      }
      if v !in g && v != u {
        order := order + [v];
      }
      EdgeAdded(g, before, order, results[..i], results[i]);
      assert results[..i + 1] == results[..i] + [results[i]];
      g := WithEdge(g, u, v);
      i := i + 1;
    }
    assert results[..|results|] == results;
    GraphIsUndirected(g, order, results);
  }

  lemma EmptyGraph()
    ensures GraphOf(map[], [], [])
  {}

  lemma OrderIsNodes(g: Graph, order: seq<string>, results: seq<Flagged>)
    requires GraphOf(g, order, results)
    ensures forall u :: u in order <==> u in g
  {}

  lemma GraphIsUndirected(g: Graph, order: seq<string>, results: seq<Flagged>)
    requires GraphOf(g, order, results)
    ensures Undirected(g)
  {
    forall u, v | u in g && v in g[u]
      ensures v in g && u in g[v]
    {
      assert Edge(results, v, u);
    }
  }

  // ---------------------------------------------------------------- pairs inside a cluster

  /** The pairs list each table key between two of the members once, with its value. */
  ghost predicate PairsOf<T>(members: seq<string>, table: map<Key, T>, pairs: seq<Key>, values: seq<T>) {
    && |values| == |pairs| && Distinct(pairs)
    && (forall k :: 0 <= k < |pairs| ==> pairs[k] in table && values[k] == table[pairs[k]])
    && (forall i, j ::
      0 <= i < j < |members| && KeyOf(members[i], members[j]) in table ==> KeyOf(members[i], members[j]) in pairs)
    && (forall k :: k in pairs ==> exists i, j :: 0 <= i < j < |members| && KeyOf(members[i], members[j]) == k)
  }

  /** The inner loop's part: keys with the member at n and members before n. */
  ghost predicate Between(members: seq<string>, i: int, j: int, n: nat, m: nat) {
    0 <= i < j < |members| && (i < n || (i == n && j < m))
  }

  ghost predicate PairsSoFar<T>(members: seq<string>, table: map<Key, T>, pairs: seq<Key>, values: seq<T>,
    at: (nat, nat)) {
    && |values| == |pairs| && Distinct(pairs)
    && (forall k :: 0 <= k < |pairs| ==> pairs[k] in table && values[k] == table[pairs[k]])
    && (forall i, j ::
      Between(members, i, j, at.0, at.1) && KeyOf(members[i], members[j]) in table ==>
        KeyOf(members[i], members[j]) in pairs)
    && (forall k ::
      k in pairs ==> exists i, j :: Between(members, i, j, at.0, at.1) && KeyOf(members[i], members[j]) == k)
  }

  lemma KeyDetermines(members: seq<string>, i: nat, j: nat, k: nat, l: nat)
    requires Distinct(members) && i < j < |members| && k < l < |members|
    requires KeyOf(members[i], members[j]) == KeyOf(members[k], members[l])
    ensures i == k && j == l
  {}

  lemma ConsiderPair<T>(members: seq<string>, table: map<Key, T>, pairs: seq<Key>, values: seq<T>, n: nat, m: nat)
    requires Distinct(members) && n < m < |members| && PairsSoFar(members, table, pairs, values, (n, m))
    ensures var k := KeyOf(members[n], members[m]);
      && (k in table ==> PairsSoFar(members, table, pairs + [k], values + [table[k]], (n, m + 1)))
      && (k !in table ==> PairsSoFar(members, table, pairs, values, (n, m + 1)))
  {
    hide KeyOf;
    var k := KeyOf(members[n], members[m]);
    assert Between(members, n, m, n, m + 1);
    if k in table {
      if k in pairs {
        var i, j :| Between(members, i, j, n, m) && KeyOf(members[i], members[j]) == k;
        KeyDetermines(members, i, j, n, m);
        assert false;
      }
      var more := pairs + [k];
      assert more[|pairs|] == k;
      forall q | q in more
        ensures exists i, j :: Between(members, i, j, n, m + 1) && KeyOf(members[i], members[j]) == q
      {
        if q in pairs {
          var i, j :| Between(members, i, j, n, m) && KeyOf(members[i], members[j]) == q;
          assert Between(members, i, j, n, m + 1);
        }
      }
    } else {
      forall q | q in pairs
        ensures exists i, j :: Between(members, i, j, n, m + 1) && KeyOf(members[i], members[j]) == q
      {
        var i, j :| Between(members, i, j, n, m) && KeyOf(members[i], members[j]) == q;
        assert Between(members, i, j, n, m + 1);
      }
    }
  }

  /** The double loop over the members of a component. */
  method CollectPairs<T>(members: seq<string>, table: map<Key, T>) returns (pairs: seq<Key>, values: seq<T>)
    requires Distinct(members)
    ensures PairsOf(members, table, pairs, values)
  {
    hide PairsSoFar, KeyOf;
    pairs, values := [], [];
    var i := 0;
    NoPairs(members, table, 0, 0);
    while i < |members|
      invariant 0 <= i <= |members| && PairsSoFar(members, table, pairs, values, (i, 0))
    {
      var j := i + 1;
      RowStarts(members, table, pairs, values, i);
      while j < |members|
        invariant i < j <= |members| && PairsSoFar(members, table, pairs, values, (i, j))
      {
        var key := KeyOf(members[i], members[j]);
        ConsiderPair(members, table, pairs, values, i, j);
        if key in table {
          pairs := pairs + [key];
          values := values + [table[key]];
        }
        j := j + 1;
      }
      RowEnds(members, table, pairs, values, i);
      i := i + 1;
    }
    AllPairs(members, table, pairs, values);
  }

  lemma NoPairs<T>(members: seq<string>, table: map<Key, T>, n: nat, m: nat)
    requires n == 0 && m == 0
    ensures PairsSoFar(members, table, [], [], (n, m))
  {}

  lemma SameRange<T>(members: seq<string>, table: map<Key, T>, pairs: seq<Key>, values: seq<T>, n: nat, m: nat,
    n': nat, m': nat)
    requires PairsSoFar(members, table, pairs, values, (n, m))
    requires forall i, j :: Between(members, i, j, n, m) <==> Between(members, i, j, n', m')
    ensures PairsSoFar(members, table, pairs, values, (n', m'))
  {
    hide KeyOf;
    forall q | q in pairs
      ensures exists i, j :: Between(members, i, j, n', m') && KeyOf(members[i], members[j]) == q
    {
      var i, j :| Between(members, i, j, n, m) && KeyOf(members[i], members[j]) == q;
      assert Between(members, i, j, n', m');
    }
  }

  lemma RowStarts<T>(members: seq<string>, table: map<Key, T>, pairs: seq<Key>, values: seq<T>, n: nat)
    requires PairsSoFar(members, table, pairs, values, (n, 0))
    ensures PairsSoFar(members, table, pairs, values, (n, n + 1))
  {
    hide PairsSoFar;
    SameRange(members, table, pairs, values, n, 0, n, n + 1);
  }

  lemma RowEnds<T>(members: seq<string>, table: map<Key, T>, pairs: seq<Key>, values: seq<T>, n: nat)
    requires PairsSoFar(members, table, pairs, values, (n, |members|))
    ensures PairsSoFar(members, table, pairs, values, (n + 1, 0))
  {
    hide PairsSoFar;
    SameRange(members, table, pairs, values, n, |members|, n + 1, 0);
  }

  lemma AllPairs<T>(members: seq<string>, table: map<Key, T>, pairs: seq<Key>, values: seq<T>)
    requires PairsSoFar(members, table, pairs, values, (|members|, 0))
    ensures PairsOf(members, table, pairs, values)
  {
    hide KeyOf;
    forall i, j | 0 <= i < j < |members| && KeyOf(members[i], members[j]) in table
      ensures KeyOf(members[i], members[j]) in pairs
    {
      assert Between(members, i, j, |members|, 0);
    }
  }

  // ---------------------------------------------------------------- scores

  /** The score table: the last result of a pair wins. */
  function Scores(results: seq<Flagged>): map<Key, real> {
    if results == [] then map[]
    else
      var r := results[|results| - 1];
      Scores(results[..|results| - 1])[KeyOf(r.candidateU, r.candidateV) := r.logLambda]
  }

  lemma {:induction false} ScoreKeys(results: seq<Flagged>, k: Key)
    ensures k in Scores(results) <==>
      exists i :: 0 <= i < |results| && KeyOf(results[i].candidateU, results[i].candidateV) == k
  {
    hide KeyOf;
    if results != [] {
      var n := |results| - 1;
      ScoreKeys(results[..n], k);
    }
  }

  method IndexScores(results: seq<Flagged>) returns (table: map<Key, real>)
    ensures table == Scores(results)
  {
    hide KeyOf;
    table := map[];
    var i := 0;
    while i < |results|
      invariant 0 <= i <= |results| && table == Scores(results[..i])
    {
      assert results[..i + 1][..i] == results[..i];
      table := table[KeyOf(results[i].candidateU, results[i].candidateV) := results[i].logLambda];
      i := i + 1;
    }
    assert results[..|results|] == results;
  }

  lemma {:induction false} SumBounds(s: seq<real>, lo: real, hi: real)
    requires forall i :: 0 <= i < |s| ==> lo <= s[i] <= hi
    ensures lo * |s| as real <= Sum(s) <= hi * |s| as real
  {
    if s != [] {
      SumBounds(s[..|s| - 1], lo, hi);
    }
  }

  /** The mean of scores lies between any bounds of them. */
  lemma MeanBounds(s: seq<real>, lo: real, hi: real)
    requires s != [] && forall i :: 0 <= i < |s| ==> lo <= s[i] <= hi
    ensures lo <= Sum(s) / |s| as real <= hi
  {
    SumBounds(s, lo, hi);
    QuotientBounds(Sum(s), |s| as real, lo, hi);
  }

  lemma QuotientBounds(x: real, n: real, lo: real, hi: real)
    requires n > 0.0 && lo * n <= x <= hi * n
    ensures lo <= x / n <= hi
  {
    var q := x / n;
    assert q * n == x;
    if q < lo { PositiveProduct(lo - q, n); }
    if hi < q { PositiveProduct(q - hi, n); }
  }

  /** The greatest score. */
  method MaxScore(s: seq<real>) returns (r: real)
    requires s != []
    ensures r in s && forall i :: 0 <= i < |s| ==> s[i] <= r
  {
    r := s[0];
    var i := 1;
    while i < |s|
      invariant 1 <= i <= |s| && r in s && forall k :: 0 <= k < i ==> s[k] <= r
    {
      if r < s[i] { r := s[i]; }
      i := i + 1;
    }
  }

  // ---------------------------------------------------------------- evidence and seating

  datatype Strength = Strong | Moderate | Weak

  /** `_classify_evidence_strength` */
  function Classify(mean: real, max: real, size: nat): Strength {
    if max > 50.0 && size >= 3 then Strong
    else if max > 30.0 && mean > 20.0 then Strong
    else if max > 20.0 then Moderate
    else if mean > 10.0 && size >= 2 then Moderate
    else Weak
  }

  function Seat(seating: map<string, string>, m: string): Option<string> {
    if m in seating then Some(seating[m]) else None
  }

  /** Two candidates with seats, on adjacent ones. */
  ghost predicate SeatedTogether(seating: map<string, string>, adjacent: seq<(string, string)>, k: Key) {
    && k.0 in seating && k.1 in seating && seating[k.0] != "" && seating[k.1] != ""
    && exists i :: 0 <= i < |adjacent| && KeyOf(adjacent[i].0, adjacent[i].1) == KeyOf(seating[k.0], seating[k.1])
  }

  method AdjacentSeats(adjacent: seq<(string, string)>) returns (s: set<Key>)
    ensures forall k :: k in s <==> exists i :: 0 <= i < |adjacent| && KeyOf(adjacent[i].0, adjacent[i].1) == k
  {
    hide KeyOf;
    s := {};
    var i := 0;
    while i < |adjacent|
      invariant 0 <= i <= |adjacent|
      invariant forall k :: k in s <==> exists j :: 0 <= j < i && KeyOf(adjacent[j].0, adjacent[j].1) == k
    {
      s := s + {KeyOf(adjacent[i].0, adjacent[i].1)};
      i := i + 1;
    }
  }

  method HasAdjacency(pairs: seq<Key>, seating: map<string, string>, adjacent: seq<(string, string)>,
    seats: set<Key>) returns (r: bool)
    requires forall k :: k in seats <==> exists i :: 0 <= i < |adjacent| && KeyOf(adjacent[i].0, adjacent[i].1) == k
    ensures r <==> exists k :: k in pairs && SeatedTogether(seating, adjacent, k)
  {
    hide KeyOf;
    var i := 0;
    while i < |pairs|
      invariant 0 <= i <= |pairs|
      invariant forall j :: 0 <= j < i ==> !SeatedTogether(seating, adjacent, pairs[j])
    {
      var (u, v) := pairs[i];
      if u in seating && v in seating && seating[u] != "" && seating[v] != "" {
        if KeyOf(seating[u], seating[v]) in seats {
          assert SeatedTogether(seating, adjacent, pairs[i]);
          return true;
        }
      }
      i := i + 1;
    }
    r := false;
  }

  // ---------------------------------------------------------------- clusters

  datatype Cluster = Cluster(
    clusterId: nat, members: seq<string>, pairs: seq<Key>, maxLogLambda: real, meanLogLambda: real,
    totalPairs: nat, hasSeatingAdjacency: bool, evidenceStrength: Strength, seatingInfo: map<string, Option<string>>)

  /** What each cluster's figures mean. */
  ghost predicate Sound(c: Cluster, table: map<Key, real>, seating: map<string, string>,
    adjacent: seq<(string, string)>) {
    && c.pairs != [] && Distinct(c.pairs) && c.totalPairs == |c.pairs|
    && Figures(c.pairs, table, c.maxLogLambda, c.meanLogLambda)
    && c.evidenceStrength == Classify(c.meanLogLambda, c.maxLogLambda, |c.members|)
    && (c.hasSeatingAdjacency <==> exists k :: k in c.pairs && SeatedTogether(seating, adjacent, k))
    && (seating != map[] ==> c.seatingInfo == map m | m in c.members :: Seat(seating, m))
  }

  lemma MeanReached(s: seq<real>)
    requires s != []
    ensures exists i :: 0 <= i < |s| && s[i] <= Sum(s) / |s| as real
  {
    var mean := Sum(s) / |s| as real;
    assert mean * |s| as real == Sum(s);
    if forall i :: 0 <= i < |s| ==> s[i] > mean {
      StrictSum(s, mean);
    }
  }

  lemma {:induction false} StrictSum(s: seq<real>, lo: real)
    requires s != [] && forall i :: 0 <= i < |s| ==> s[i] > lo
    ensures Sum(s) > lo * |s| as real
  {
    if |s| > 1 {
      StrictSum(s[..|s| - 1], lo);
    } else {
      assert s[..0] == [];
      assert Sum(s) == s[0];
    }
  }

  /** The body of the loop over components; `None` when a component has no scored pair. */
  method MakeCluster(clusterId: nat, members: seq<string>, table: map<Key, real>, seating: map<string, string>,
    adjacent: seq<(string, string)>, seats: set<Key>)
    returns (r: Option<Cluster>, ghost pairs: seq<Key>, ghost values: seq<real>)
    requires Distinct(members)
    requires forall k :: k in seats <==> exists i :: 0 <= i < |adjacent| && KeyOf(adjacent[i].0, adjacent[i].1) == k
    ensures PairsOf(members, table, pairs, values)
    ensures r.None? <==> pairs == []
    ensures r.Some? ==>
      r.value.clusterId == clusterId && r.value.members == members && r.value.pairs == pairs
        && Sound(r.value, table, seating, adjacent)
  {
    hide KeyOf, SeatedTogether, Sum, Figures, Classify;
    var clusterPairs, clusterScores := CollectPairs(members, table);
    pairs, values := clusterPairs, clusterScores;
    if clusterScores == [] {
      return None, pairs, values;
    }
    var maxScore := MaxScore(clusterScores);
    var meanScore := Sum(clusterScores) / |clusterScores| as real;
    FiguresHold(clusterPairs, clusterScores, table, maxScore);
    var hasAdjacency := HasAdjacency(clusterPairs, seating, adjacent, seats);
    var info := if seating != map[] then map m | m in members :: Seat(seating, m) else map[];
    var evidence := Classify(meanScore, maxScore, |members|);
    r := Some(Cluster(clusterId, members, clusterPairs, maxScore, meanScore, |clusterPairs|, hasAdjacency, evidence,
      info));
  }

  /** The maximum and the mean against the scores of the pairs. */
  ghost predicate Figures(pairs: seq<Key>, table: map<Key, real>, max: real, mean: real) {
    && (forall k :: k in pairs ==> k in table && table[k] <= max)
    && (exists k :: k in pairs && table[k] == max)
    && mean * |pairs| as real == ScoreSum(pairs, table)
    && mean <= max
    && (exists k :: k in pairs && table[k] <= mean)
  }

  function ScoreOf(table: map<Key, real>, k: Key): real { if k in table then table[k] else 0.0 }

  /** The scores of the pairs added up. */
  function ScoreSum(pairs: seq<Key>, table: map<Key, real>): real {
    if pairs == [] then 0.0 else ScoreSum(pairs[..|pairs| - 1], table) + ScoreOf(table, pairs[|pairs| - 1])
  }

  lemma {:induction false} SumOfScores(pairs: seq<Key>, values: seq<real>, table: map<Key, real>)
    requires |pairs| == |values| && forall k :: 0 <= k < |pairs| ==> pairs[k] in table && values[k] == table[pairs[k]]
    ensures Sum(values) == ScoreSum(pairs, table)
  {
    if pairs != [] {
      SumOfScores(pairs[..|pairs| - 1], values[..|pairs| - 1], table);
    }
  }

  lemma MeanTimes(x: real, n: real)
    requires n > 0.0
    ensures x / n * n == x
  {}

  lemma FiguresHold(pairs: seq<Key>, values: seq<real>, table: map<Key, real>, max: real)
    requires pairs != [] && |pairs| == |values| && forall k ::
      0 <= k < |pairs| ==> pairs[k] in table && values[k] == table[pairs[k]]
    requires max in values && forall i :: 0 <= i < |values| ==> values[i] <= max
    ensures Figures(pairs, table, max, Sum(values) / |values| as real)
  {
    SumOfScores(pairs, values, table);
    hide Sum, ScoreSum;
    var mean := Sum(values) / |values| as real;
    MeanTimes(Sum(values), |values| as real);
    MeanReached(values);
    MeanBoundsAbove(values, max);
    var low :| 0 <= low < |values| && values[low] <= mean;
    var high :| 0 <= high < |values| && values[high] == max;
    assert pairs[low] in pairs && pairs[high] in pairs;
  }

  lemma MeanBoundsAbove(s: seq<real>, hi: real)
    requires s != [] && forall i :: 0 <= i < |s| ==> s[i] <= hi
    ensures Sum(s) / |s| as real <= hi
  {
    var lo := Least(s);
    MeanBounds(s, lo, hi);
  }

  ghost function Least(s: seq<real>): (r: real)
    requires s != []
    ensures forall i :: 0 <= i < |s| ==> r <= s[i]
  {
    if |s| == 1 then s[0]
    else
      var rest, last := Least(s[..|s| - 1]), s[|s| - 1];
      if rest < last then rest else last
  }

  // ---------------------------------------------------------------- bookkeeping over cluster lists

  /** In how many clusters a pair is listed. */
  function CountIn(clusters: seq<Cluster>, k: Key): nat {
    if clusters == [] then 0
    else CountIn(clusters[..|clusters| - 1], k) + if k in clusters[|clusters| - 1].pairs then 1 else 0
  }

  function SumPairs(clusters: seq<Cluster>): nat {
    if clusters == [] then 0 else SumPairs(clusters[..|clusters| - 1]) + clusters[|clusters| - 1].totalPairs
  }

  /** The clusters list each of the keys in exactly one cluster, and nothing else. */
  ghost predicate OnceEach(clusters: seq<Cluster>, keys: set<Key>) {
    && (forall k :: CountIn(clusters, k) == if k in keys then 1 else 0)
    && SumPairs(clusters) == |keys|
  }

  lemma CountAppend(clusters: seq<Cluster>, c: Cluster)
    ensures SumPairs(clusters + [c]) == SumPairs(clusters) + c.totalPairs
    ensures forall k :: CountIn(clusters + [c], k) == CountIn(clusters, k) + if k in c.pairs then 1 else 0
  {
    assert (clusters + [c])[..|clusters|] == clusters;
  }

  lemma AddCluster(clusters: seq<Cluster>, keys: set<Key>, c: Cluster)
    requires OnceEach(clusters, keys) && Distinct(c.pairs) && c.totalPairs == |c.pairs| && ToSet(c.pairs) !! keys
    ensures OnceEach(clusters + [c], keys + ToSet(c.pairs))
  {
    hide CountIn, SumPairs;
    CountAppend(clusters, c);
    SetSize(c.pairs);
    forall k
      ensures CountIn(clusters + [c], k) == if k in keys + ToSet(c.pairs) then 1 else 0
    {
      assert k in c.pairs <==> k in ToSet(c.pairs);
    }
  }

  // ---------------------------------------------------------------- the final sort

  function Rank(s: Strength): nat {
    match s case Strong => 0 case Moderate => 1 case Weak => 2
  }

  /** The sort key (strength, -max), compared strictly. */
  predicate Before(c: Cluster, d: Cluster) {
    Rank(c.evidenceStrength) < Rank(d.evidenceStrength) ||
    (Rank(c.evidenceStrength) == Rank(d.evidenceStrength) && c.maxLogLambda > d.maxLogLambda)
  }

  ghost predicate InOrder(clusters: seq<Cluster>) {
    forall i, j :: 0 <= i < j < |clusters| ==> !Before(clusters[j], clusters[i])
  }

  /** Stable insertion behind every cluster that does not come strictly after it. */
  function Insert(clusters: seq<Cluster>, c: Cluster): seq<Cluster> {
    if clusters == [] || !Before(c, clusters[|clusters| - 1]) then clusters + [c]
    else Insert(clusters[..|clusters| - 1], c) + [clusters[|clusters| - 1]]
  }

  function Sorted(clusters: seq<Cluster>): seq<Cluster> {
    if clusters == [] then [] else Insert(Sorted(clusters[..|clusters| - 1]), clusters[|clusters| - 1])
  }

  lemma {:induction false} InsertTally(clusters: seq<Cluster>, c: Cluster)
    ensures SumPairs(Insert(clusters, c)) == SumPairs(clusters) + c.totalPairs
    ensures forall k :: CountIn(Insert(clusters, c), k) == CountIn(clusters, k) + if k in c.pairs then 1 else 0
    ensures multiset(Insert(clusters, c)) == multiset(clusters) + multiset{c}
  {
    hide SumPairs, CountIn, Before;
    if clusters == [] || !Before(c, clusters[|clusters| - 1]) {
      CountAppend(clusters, c);
    } else {
      var init, last := clusters[..|clusters| - 1], clusters[|clusters| - 1];
      assert clusters == init + [last];
      InsertTally(init, c);
      CountAppend(init, last);
      CountAppend(Insert(init, c), last);
    }
  }

  lemma BeforeOrder(c: Cluster, d: Cluster, e: Cluster)
    ensures Before(c, d) ==> !Before(d, c)
    ensures !Before(c, d) && !Before(d, e) ==> !Before(c, e)
  {}

  lemma InsertMembers(clusters: seq<Cluster>, c: Cluster)
    ensures forall i ::
      0 <= i < |Insert(clusters, c)| ==> Insert(clusters, c)[i] in clusters || Insert(clusters, c)[i] == c
  {
    InsertTally(clusters, c);
    hide Insert;
    forall i | 0 <= i < |Insert(clusters, c)|
      ensures Insert(clusters, c)[i] in clusters || Insert(clusters, c)[i] == c
    {
      assert Insert(clusters, c)[i] in multiset(Insert(clusters, c));
    }
  }

  lemma {:induction false} InsertInOrder(clusters: seq<Cluster>, c: Cluster)
    requires InOrder(clusters)
    ensures InOrder(Insert(clusters, c))
  {
    hide Before;
    if clusters != [] {
      var init, last := clusters[..|clusters| - 1], clusters[|clusters| - 1];
      if Before(c, last) {
        InsertInOrder(init, c);
        InsertMembers(init, c);
        BeforeOrder(c, last, c);
        assert forall x :: x in init ==> !Before(last, x);
      } else {
        forall i | 0 <= i < |clusters|
          ensures !Before(c, clusters[i])
        {
          BeforeOrder(c, last, clusters[i]);
        }
      }
    }
  }

  /** Sorting changes neither the tallies nor the members, and orders the clusters. */
  lemma {:induction false} SortedTally(clusters: seq<Cluster>)
    ensures SumPairs(Sorted(clusters)) == SumPairs(clusters)
    ensures forall k :: CountIn(Sorted(clusters), k) == CountIn(clusters, k)
    ensures multiset(Sorted(clusters)) == multiset(clusters)
    ensures InOrder(Sorted(clusters))
  {
    hide Insert, Before;
    if clusters != [] {
      var init, last := clusters[..|clusters| - 1], clusters[|clusters| - 1];
      assert clusters == init + [last];
      SortedTally(init);
      InsertTally(Sorted(init), last);
      InsertInOrder(Sorted(init), last);
    }
  }

  /** `clusters.sort(key=...)` */
  method SortClusters(clusters: seq<Cluster>) returns (r: seq<Cluster>)
    ensures r == Sorted(clusters) && InOrder(r) && multiset(r) == multiset(clusters)
  {
    SortedTally(clusters);
    hide Insert, InOrder, CountIn, SumPairs;
    r := [];
    var i := 0;
    while i < |clusters|
      invariant 0 <= i <= |clusters| && r == Sorted(clusters[..i])
    {
      assert clusters[..i + 1][..i] == clusters[..i];
      r := Insert(r, clusters[i]);
      i := i + 1;
    }
    assert clusters[..|clusters|] == clusters;
  }

  // ---------------------------------------------------------------- rings

  /** The reported pairs, as unordered pairs of different candidates. */
  ghost function ReportedKeys(results: seq<Flagged>): (s: set<Key>)
    ensures forall k :: k in s <==> Reported(results, k)
  {
    set i | 0 <= i < |results| && results[i].candidateU != results[i].candidateV ::
      KeyOf(results[i].candidateU, results[i].candidateV)
  }

  /** The reported pairs with a member, hence both, in one of the first n components. */
  ghost function KeysWithin(results: seq<Flagged>, components: seq<set<string>>, n: nat): (s: set<Key>)
    requires n <= |components|
    ensures forall k :: k in s <==> Reported(results, k) && exists i :: 0 <= i < n && k.0 in components[i]
  {
    set k | k in ReportedKeys(results) && exists i :: 0 <= i < n && k.0 in components[i]
  }

  lemma ReportedJoins(results: seq<Flagged>, g: Graph, order: seq<string>, k: Key)
    requires GraphOf(g, order, results) && Reported(results, k)
    ensures k.0 != k.1 && k.0 in g && Connected(g, k.0, k.1)
  {
    var i :| 0 <= i < |results| && ReportOf(results[i], k);
    KeySymmetric(results[i].candidateU, results[i].candidateV);
    assert Edge(results, k.0, k.1) && Edge(results, k.1, k.0);
    assert k.1 in g[k.0] && k.0 in g[k.1];
    assert IsPath(g, [k.0, k.1], k.0, k.1);
  }

  /** A table key of two different members is a reported pair, and conversely. */
  lemma KeyReported(results: seq<Flagged>, u: string, v: string)
    requires u != v
    ensures Reported(results, KeyOf(u, v)) <==> KeyOf(u, v) in Scores(results)
  {
    hide Scores;
    ScoreKeys(results, KeyOf(u, v));
    KeySymmetric(u, v);
    if KeyOf(u, v) in Scores(results) {
      var i :| 0 <= i < |results| && KeyOf(results[i].candidateU, results[i].candidateV) == KeyOf(u, v);
      KeySymmetric(results[i].candidateU, results[i].candidateV);
    }
  }

  lemma ReportedDiffer(results: seq<Flagged>, k: Key)
    requires Reported(results, k)
    ensures k.0 != k.1 && k == KeyOf(k.0, k.1)
  {
    var i :| 0 <= i < |results| && ReportOf(results[i], k);
    LessTotal(results[i].candidateU, results[i].candidateV);
  }

  /** The pairs collected for a component are the reported ones with a member in it. */
  lemma ComponentPairs<T>(results: seq<Flagged>, g: Graph, order: seq<string>, component: set<string>,
    members: seq<string>, table: map<Key, T>, pairs: seq<Key>, values: seq<T>)
    requires GraphOf(g, order, results) && table.Keys == Scores(results).Keys
    requires ToSet(members) == component && Distinct(members) && PairsOf(members, table, pairs, values)
    requires forall u, v :: u in component ==> (v in component <==> Connected(g, u, v))
    ensures forall k :: k in pairs <==> Reported(results, k) && k.0 in component
  {
    hide Scores, KeyOf, Connected, GraphOf, Reported;
    forall k | k in pairs
      ensures Reported(results, k) && k.0 in component
    {
      var i, j :| 0 <= i < j < |members| && KeyOf(members[i], members[j]) == k;
      KeySymmetric(members[i], members[j]);
      assert members[i] in ToSet(members) && members[j] in ToSet(members);
      assert k in table;
      KeyReported(results, members[i], members[j]);
    }
    forall k | Reported(results, k) && k.0 in component
      ensures k in pairs
    {
      ReportedJoins(results, g, order, k);
      ReportedDiffer(results, k);
      KeyReported(results, k.0, k.1);
      KeySymmetric(k.0, k.1);
      assert k.0 in ToSet(members) && k.1 in ToSet(members);
      var i :| 0 <= i < |members| && members[i] == k.0;
      var j :| 0 <= j < |members| && members[j] == k.1;
      if j < i {
        assert KeyOf(members[j], members[i]) in pairs;
      }
    }
  }

  lemma NextComponent(results: seq<Flagged>, g: Graph, components: seq<set<string>>, n: nat, pairs: seq<Key>)
    requires n < |components| && Components(g, components)
    requires forall k :: k in pairs <==> Reported(results, k) && k.0 in components[n]
    ensures ToSet(pairs) !! KeysWithin(results, components, n)
    ensures KeysWithin(results, components, n + 1) == KeysWithin(results, components, n) + ToSet(pairs)
  {
    hide Connected, Reported;
    forall k | k in ToSet(pairs)
      ensures k !in KeysWithin(results, components, n)
    {
      forall i | 0 <= i < n
        ensures k.0 !in components[i]
      {
        assert components[i] !! components[n];
      }
    }
  }

  lemma AllComponents(results: seq<Flagged>, g: Graph, order: seq<string>, components: seq<set<string>>)
    requires GraphOf(g, order, results) && Components(g, components)
    ensures KeysWithin(results, components, |components|) == ReportedKeys(results)
  {
    hide Reported, Connected, GraphOf;
    forall k | Reported(results, k)
      ensures k in KeysWithin(results, components, |components|)
    {
      ReportedJoins(results, g, order, k);
    }
  }

  /** The members are one whole class of connected candidates. */
  ghost predicate Class(g: Graph, members: seq<string>) {
    forall u, v :: u in members ==> (v in members <==> Connected(g, u, v))
  }

  /** `find_cheating_rings`: each reported pair is in exactly one cluster, the totals add up
      to the number of reported pairs, and the clusters come in order of evidence. */
  method FindCheatingRings(results: seq<Flagged>, seating: map<string, string>, adjacent: seq<(string, string)>)
    returns (clusters: seq<Cluster>, ghost g: Graph, ghost order: seq<string>, ghost found: seq<Cluster>)
    ensures GraphOf(g, order, results) && multiset(clusters) == multiset(found)
    ensures forall i, j :: 0 <= i < j < |found| ==> found[i].clusterId < found[j].clusterId
    ensures OnceEach(clusters, ReportedKeys(results)) && InOrder(clusters)
    ensures forall c ::
      c in clusters ==> Increasing(c.members) && Class(g, c.members) && Sound(c, Scores(results), seating, adjacent)
  {
    hide Sound, PairsOf, GraphOf, Connected, Scores, OnceEach, Partial, KeyOf, Insert, Distinct, Class, Increasing;
    var graph, nodes := BuildAdjacencyGraph(results);
    g, order := graph, nodes;
    OrderIsNodes(g, order, results);
    var components := ConnectedComponents(graph, nodes);
    var table := IndexScores(results);
    var seats := AdjacentSeats(adjacent);
    clusters := [];
    NothingCovered(results, components);
    var i := 0;
    while i < |components|
      invariant 0 <= i <= |components|
      invariant OnceEach(clusters, KeysWithin(results, components, i))
      invariant forall j :: 0 <= j < |clusters| ==> clusters[j].clusterId < i
      invariant forall j, k :: 0 <= j < k < |clusters| ==> clusters[j].clusterId < clusters[k].clusterId
      invariant forall c ::
        c in clusters ==> Increasing(c.members) && Class(g, c.members) && Sound(c, table, seating, adjacent)
    {
      var members := SortedSet(components[i]);
      SortedDistinct(members);
      var cluster;
      ghost var pairs, values;
      cluster, pairs, values := MakeCluster(i, members, table, seating, adjacent, seats);
      IsClass(g, components, i);
      ClassOf(g, components[i], members);
      ComponentPairs(results, g, order, components[i], members, table, pairs, values);
      NextComponent(results, g, components, i, pairs);
      if cluster.Some? {
        SoundPairs(cluster.value, table, seating, adjacent);
        AddCluster(clusters, KeysWithin(results, components, i), cluster.value);
        clusters := clusters + [cluster.value];
      } else {
        assert ToSet(pairs) == {};
      }
      i := i + 1;
    }
    AllComponents(results, g, order, components);
    SortedOnceEach(clusters, ReportedKeys(results));
    found := clusters;
    clusters := SortClusters(clusters);
  }

  lemma ClassOf(g: Graph, component: set<string>, members: seq<string>)
    requires ToSet(members) == component
    requires forall u, v :: u in component ==> (v in component <==> Connected(g, u, v))
    ensures Class(g, members)
  {
    hide Connected;
    assert forall u :: u in members <==> u in ToSet(members);
  }

  lemma NothingCovered(results: seq<Flagged>, components: seq<set<string>>)
    ensures OnceEach([], KeysWithin(results, components, 0))
  {
    assert KeysWithin(results, components, 0) == {};
  }

  lemma SortedDistinct(members: seq<string>)
    requires Increasing(members)
    ensures Distinct(members)
  {
    IncreasingDistinct(members);
  }

  lemma IsClass(g: Graph, components: seq<set<string>>, i: nat)
    requires Components(g, components) && i < |components|
    ensures forall u, v :: u in components[i] ==> (v in components[i] <==> Connected(g, u, v))
  {
    hide Connected;
  }

  lemma SoundPairs(c: Cluster, table: map<Key, real>, seating: map<string, string>, adjacent: seq<(string, string)>)
    requires Sound(c, table, seating, adjacent)
    ensures Distinct(c.pairs) && c.totalPairs == |c.pairs|
  {}

  lemma SortedOnceEach(clusters: seq<Cluster>, keys: set<Key>)
    requires OnceEach(clusters, keys)
    ensures OnceEach(Sorted(clusters), keys) && InOrder(Sorted(clusters))
    ensures forall c :: c in Sorted(clusters) <==> c in clusters
  {
    SortedTally(clusters);
    forall c
      ensures c in Sorted(clusters) <==> c in clusters
    {
      assert c in multiset(Sorted(clusters)) <==> c in multiset(clusters);
    }
  }
}
