/** The whole of `solve_assignment_matrix`: building the initial papers from the blueprint,
    annealing them, and what the returned matrix and its `converged` flag say and do not say. */
module Solver {
  import opened Annealing
  import opened Constraints
  import opened Sequences

  // ================================================================ the initial papers

  datatype Center = Center(centerId: string, seatIds: seq<string>, adjacencyPairs: seq<(string, string)>)

  function PaperKey(centerId: string, seatId: string): string {
    centerId + "_" + seatId
  }

  /** A seat's key is another seat's too exactly when one of its ids has an underscore. */
  lemma KeyIsShared(centerId: string, seatId: string)
    ensures (exists c, s :: (c, s) != (centerId, seatId) && PaperKey(c, s) == PaperKey(centerId, seatId)) <==>
      '_' in centerId || '_' in seatId
  {
    var key := PaperKey(centerId, seatId);
    if m: nat :| m < |key| && m != |centerId| && key[m] == '_' {
      var c, s := key[..m], key[m + 1..];
      assert c + "_" == key[..m + 1];
      assert PaperKey(c, s) == key && |c| != |centerId|;
      assert (c, s) != (centerId, seatId);
      if m < |centerId| {
        assert centerId[m] == '_';
      } else {
        assert seatId[m - |centerId| - 1] == '_';
      }
    } else {
      Underscores(centerId, seatId);
      forall c, s | PaperKey(c, s) == key
        ensures (c, s) == (centerId, seatId)
      {
        KeyParts(c, s);
        KeyParts(centerId, seatId);
        assert key[|c|] == '_';
      }
    }
  }

  lemma KeyParts(centerId: string, seatId: string)
    ensures var key := PaperKey(centerId, seatId);
            |centerId| < |key| && key[|centerId|] == '_' && key[..|centerId|] == centerId
              && key[|centerId| + 1..] == seatId
  {}

  lemma Underscores(centerId: string, seatId: string)
    ensures '_' in centerId || '_' in seatId ==>
      exists m: nat :: m < |PaperKey(centerId, seatId)| && m != |centerId| && PaperKey(centerId, seatId)[m] == '_'
  {
    var key := PaperKey(centerId, seatId);
    if '_' in centerId {
      var i :| 0 <= i < |centerId| && centerId[i] == '_';
      assert key[i] == '_';
    } else if '_' in seatId {
      var i :| 0 <= i < |seatId| && seatId[i] == '_';
      assert key[|centerId| + 1 + i] == '_';
    }
  }

  /** The question bank grouped by topic: exactly the known questions of each. */
  ghost predicate Grouped(byTopic: map<string, seq<string>>, questions: map<string, Question>) {
    forall topic, q :: (topic in byTopic && q in byTopic[topic]) <==> (q in questions && questions[q].topic == topic)
  }

  function Available(byTopic: map<string, seq<string>>, topic: string): seq<string> {
    if topic in byTopic then byTopic[topic] else []
  }

  /** Grouping as in the first loop of `_initialize_assignments`; ids are distinct. */
  method GroupByTopic(ids: seq<string>, questions: map<string, Question>) returns (byTopic: map<string, seq<string>>)
    requires forall q :: q in ids <==> q in questions
    ensures Grouped(byTopic, questions)
  {
    byTopic := map[];
    var i := 0;
    while i < |ids|
      invariant 0 <= i <= |ids|
      invariant forall topic, q ::
        (topic in byTopic && q in byTopic[topic]) <==> (q in ids[..i] && questions[q].topic == topic)
    {
      assert ids[..i + 1] == ids[..i] + [ids[i]];
      var topic := questions[ids[i]].topic;
      byTopic := byTopic[topic := Available(byTopic, topic) + [ids[i]]];
      i := i + 1;
    }
    assert ids[..|ids|] == ids;
  }

  /** The draws for one topic: without replacement when the bank suffices, with replacement
      when it does not, none from an empty bank. Which questions are drawn is arbitrary. */
  method Draw(available: seq<string>, count: nat) returns (sampled: seq<string>)
    ensures |sampled| == if available == [] then 0 else count
    ensures forall q :: q in sampled ==> q in available
    ensures |available| >= count ==> multiset(sampled) <= multiset(available)
  {
    sampled := [];
    if |available| < count {
      if available != [] {
        while |sampled| < count
          invariant |sampled| <= count && forall q :: q in sampled ==> q in available
        {
          var j: nat :| j < |available|;
          sampled := sampled + [available[j]];
        }
      }
    } else {
      var pool := available;
      while |sampled| < count
        invariant |sampled| <= count && |sampled| + |pool| == |available|
        invariant multiset(sampled) + multiset(pool) == multiset(available)
      {
        assert |pool| > 0;
        var j: nat :| j < |pool|;
        assert pool == pool[..j] + [pool[j]] + pool[j + 1..];
        sampled := sampled + [pool[j]];
        pool := pool[..j] + pool[j + 1..];
      }
      forall q | q in sampled
        ensures q in available
      {
        assert q in multiset(sampled) + multiset(pool);
      }
    }
  }

  lemma {:induction false} CountConcat(a: seq<string>, b: seq<string>, questions: map<string, Question>, topic: string)
    ensures TopicCount(a + b, questions, topic) == TopicCount(a, questions, topic) + TopicCount(b, questions, topic)
  {
    if b == [] {
      assert a + b == a;
    } else {
      CountConcat(a, b[..|b| - 1], questions, topic);
      assert (a + b)[..|a + b| - 1] == a + b[..|b| - 1];
    }
  }

  lemma {:induction false} CountOfOneTopic(s: seq<string>, questions: map<string, Question>, t: string, topic: string)
    requires forall q :: q in s ==> q in questions && questions[q].topic == t
    ensures TopicCount(s, questions, topic) == if t == topic then |s| else 0
  {
    if s != [] {
      assert s == s[..|s| - 1] + [s[|s| - 1]];
      CountOfOneTopic(s[..|s| - 1], questions, t, topic);
    }
  }

  ghost predicate DistinctTopics(p: Problem) {
    forall i, j :: 0 <= i < j < |p.blueprint| ==> p.blueprint[i].0 != p.blueprint[j].0
  }

  /** The bank has at least one question for each topic of which some are required. */
  ghost predicate Feasible(byTopic: map<string, seq<string>>, p: Problem) {
    forall t :: 0 <= t < |p.blueprint| && p.blueprint[t].1 > 0 ==> Available(byTopic, p.blueprint[t].0) != []
  }

  function Drawn(byTopic: map<string, seq<string>>, entry: (string, nat)): nat {
    if Available(byTopic, entry.0) == [] then 0 else entry.1
  }

  /** One paper: draws for each blueprint topic in turn. */
  method BuildPaper(byTopic: map<string, seq<string>>, p: Problem) returns (paper: seq<string>)
    requires Grouped(byTopic, p.questions) && DistinctTopics(p)
    ensures forall i :: 0 <= i < |paper| ==> paper[i] in p.questions
    ensures forall t ::
      0 <= t < |p.blueprint| ==> TopicCount(paper, p.questions, p.blueprint[t].0) == Drawn(byTopic, p.blueprint[t])
  {
    hide TopicCount;
    paper := [];
    var t := 0;
    forall u | 0 <= u < |p.blueprint|
      ensures TopicCount([], p.questions, p.blueprint[u].0) == 0
    {
      CountOfOneTopic([], p.questions, "", p.blueprint[u].0);
    }
    while t < |p.blueprint|
      invariant 0 <= t <= |p.blueprint|
      invariant forall q :: q in paper ==> q in p.questions
      invariant forall u :: 0 <= u < |p.blueprint| ==>
        TopicCount(paper, p.questions, p.blueprint[u].0) == if u < t then Drawn(byTopic, p.blueprint[u]) else 0
    {
      var (topic, count) := p.blueprint[t];
      var sampled := Draw(Available(byTopic, topic), count);
      forall u | 0 <= u < |p.blueprint|
        ensures TopicCount(paper + sampled, p.questions, p.blueprint[u].0)
             == TopicCount(paper, p.questions, p.blueprint[u].0) + if u == t then |sampled| else 0
      {
        CountConcat(paper, sampled, p.questions, p.blueprint[u].0);
        CountOfOneTopic(sampled, p.questions, topic, p.blueprint[u].0);
      }
      paper := paper + sampled;
      t := t + 1;
    }
  }

  /** What the initial papers satisfy. */
  ghost predicate Initial(keys: seq<string>, m: Matrix, byTopic: map<string, seq<string>>, p: Problem) {
    && KeysOf(keys, m) && AllKnown(m, p)
    && forall k, t ::
      k in m && 0 <= t < |p.blueprint| ==>
        TopicCount(m[k], p.questions, p.blueprint[t].0) == Drawn(byTopic, p.blueprint[t])
  }

  /** The initial matrix covers the blueprint exactly when the bank is feasible for it. */
  lemma CoversIffFeasible(keys: seq<string>, m: Matrix, byTopic: map<string, seq<string>>, p: Problem)
    requires Initial(keys, m, byTopic, p) && keys != []
    ensures Covers(m, p) <==> Feasible(byTopic, p)
  {
    hide TopicCount, Available;
    assert keys[0] in m;
    if Covers(m, p) {
      assert PaperCovers(m[keys[0]], p);
    }
  }

  /** The paper keys of a centre, seat by seat. */
  ghost predicate KeysOfCenter(center: Center, centerKeys: seq<string>) {
    && |centerKeys| == |center.seatIds|
    && forall s :: 0 <= s < |center.seatIds| ==> centerKeys[s] == PaperKey(center.centerId, center.seatIds[s])
  }

  /** k is the paper key of a seat of one of the first n centres. */
  ghost predicate IsSeat(centers: seq<Center>, n: nat, k: string)
    requires n <= |centers|
  {
    exists c, s ::
      0 <= c < n && 0 <= s < |centers[c].seatIds| && k == PaperKey(centers[c].centerId, centers[c].seatIds[s])
  }

  lemma NoSeats(centers: seq<Center>)
    ensures forall k :: !IsSeat(centers, 0, k)
  {}

  lemma SeatsGrow(centers: seq<Center>, c: nat, centerKeys: seq<string>)
    requires c < |centers| && KeysOfCenter(centers[c], centerKeys)
    ensures forall k :: IsSeat(centers, c + 1, k) <==> IsSeat(centers, c, k) || k in centerKeys
  {
    hide PaperKey;
    forall k | k in centerKeys
      ensures IsSeat(centers, c + 1, k)
    {
      var s :| 0 <= s < |centerKeys| && centerKeys[s] == k;
      assert k == PaperKey(centers[c].centerId, centers[c].seatIds[s]);
    }
    forall k | IsSeat(centers, c + 1, k) && !IsSeat(centers, c, k)
      ensures k in centerKeys
    {
      var d, s :| 0 <= d < c + 1 && 0 <= s < |centers[d].seatIds|
        && k == PaperKey(centers[d].centerId, centers[d].seatIds[s]);
      assert d == c && centerKeys[s] == k;
    }
  }

  /** The adjacent seats of a centre as paper keys. */
  function CenterAdjacency(center: Center, n: nat): seq<(string, string)>
    requires n <= |center.adjacencyPairs|
  {
    if n == 0 then []
    else
      var pair := center.adjacencyPairs[n - 1];
      CenterAdjacency(center, n - 1) + [(PaperKey(center.centerId, pair.0), PaperKey(center.centerId, pair.1))]
  }

  function AdjacencyOf(centers: seq<Center>, n: nat): seq<(string, string)>
    requires n <= |centers|
  {
    if n == 0 then []
      else AdjacencyOf(centers, n - 1) + CenterAdjacency(centers[n - 1], |centers[n - 1].adjacencyPairs|)
  }

  method AddAdjacency(adjacency0: seq<(string, string)>, center: Center) returns (adjacency: seq<(string, string)>)
    ensures adjacency == adjacency0 + CenterAdjacency(center, |center.adjacencyPairs|)
  {
    adjacency := adjacency0;
    var i := 0;
    while i < |center.adjacencyPairs|
      invariant 0 <= i <= |center.adjacencyPairs| && adjacency == adjacency0 + CenterAdjacency(center, i)
    {
      var (s1, s2) := center.adjacencyPairs[i];
      adjacency := adjacency + [(PaperKey(center.centerId, s1), PaperKey(center.centerId, s2))];
      i := i + 1;
    }
  }

  /** `_initialize_assignments`: one fresh list per seat, keyed by centre and seat. */
  method InitializeAssignments(byTopic: map<string, seq<string>>, p: Problem, centers: seq<Center>)
    returns (keys: seq<string>, papers: map<string, array<string>>, centerPapers: seq<seq<string>>,
      adjacency: seq<(string, string)>)
    requires Grouped(byTopic, p.questions) && DistinctTopics(p)
    ensures Unaliased(papers) && Initial(keys, Snapshot(papers), byTopic, p)
    ensures forall k :: k in papers ==> fresh(papers[k])
    ensures forall k :: k in papers <==> IsSeat(centers, |centers|, k)
    ensures adjacency == AdjacencyOf(centers, |centers|)
    ensures |centerPapers| == |centers|
    ensures forall c :: 0 <= c < |centers| ==> KeysOfCenter(centers[c], centerPapers[c])
  {
    hide TopicCount, Grouped, Drawn, PaperKey, IsSeat, KeysOfCenter, CenterAdjacency, DistinctTopics, Initial,
      Unaliased, Snapshot;
    NoSeats(centers);
    centerPapers, adjacency := [], [];
    keys, papers := NoPapers(byTopic, p);
    var c := 0;
    while c < |centers|
      invariant 0 <= c <= |centers|
      invariant Unaliased(papers) && Initial(keys, Snapshot(papers), byTopic, p)
      invariant forall k :: k in papers ==> fresh(papers[k])
      invariant |centerPapers| == c
      invariant forall d :: 0 <= d < c ==> KeysOfCenter(centers[d], centerPapers[d])
      invariant forall k :: k in papers <==> IsSeat(centers, c, k)
      invariant adjacency == AdjacencyOf(centers, c)
    {
      var centerKeys;
      keys, papers, centerKeys := AddCenter(keys, papers, byTopic, p, centers[c]);
      centerPapers := centerPapers + [centerKeys];
      SeatsGrow(centers, c, centerKeys);
      adjacency := AddAdjacency(adjacency, centers[c]);
      c := c + 1;
    }
  }

  lemma LastAdded(s: seq<string>, x: string)
    ensures forall k :: k in s + [x] <==> k in s || k == x
  {}

  method NoPapers(byTopic: map<string, seq<string>>, p: Problem)
    returns (keys: seq<string>, papers: map<string, array<string>>)
    ensures Unaliased(papers) && Initial(keys, Snapshot(papers), byTopic, p) && papers == map[]
  {
    keys, papers := [], map[];
  }

  /** The seats of one centre. */
  method AddCenter(keys0: seq<string>, papers0: map<string, array<string>>, byTopic: map<string, seq<string>>,
    p: Problem, center: Center)
    returns (keys: seq<string>, papers: map<string, array<string>>, centerKeys: seq<string>)
    requires Grouped(byTopic, p.questions) && DistinctTopics(p)
    requires Unaliased(papers0) && Initial(keys0, Snapshot(papers0), byTopic, p)
    ensures Unaliased(papers) && Initial(keys, Snapshot(papers), byTopic, p)
    ensures forall k :: k in papers ==> fresh(papers[k]) || (k in papers0 && papers[k] == papers0[k])
    ensures forall k :: k in papers <==> k in papers0 || k in centerKeys
    ensures KeysOfCenter(center, centerKeys)
  {
    hide TopicCount, Grouped, Drawn, Initial, PaperKey, DistinctTopics, Unaliased, Snapshot;
    keys, papers, centerKeys := keys0, papers0, [];
    var s := 0;
    while s < |center.seatIds|
      invariant 0 <= s <= |center.seatIds| && |centerKeys| == s
      invariant Unaliased(papers) && Initial(keys, Snapshot(papers), byTopic, p)
      invariant forall k :: k in papers ==> fresh(papers[k]) || (k in papers0 && papers[k] == papers0[k])
      invariant forall k :: k in papers <==> k in papers0 || k in centerKeys
      invariant forall i :: 0 <= i < s ==> centerKeys[i] == PaperKey(center.centerId, center.seatIds[i])
    {
      var key := PaperKey(center.centerId, center.seatIds[s]);
      LastAdded(centerKeys, key);
      centerKeys := centerKeys + [key];
      keys, papers := AddSeat(keys, papers, byTopic, p, key);
      s := s + 1;
    }
  }

  /** The paper of one seat. */
  method AddSeat(keys0: seq<string>, papers0: map<string, array<string>>, byTopic: map<string, seq<string>>,
    p: Problem, key: string)
    returns (keys: seq<string>, papers: map<string, array<string>>)
    requires Grouped(byTopic, p.questions) && DistinctTopics(p)
    requires Unaliased(papers0) && Initial(keys0, Snapshot(papers0), byTopic, p)
    ensures Unaliased(papers) && Initial(keys, Snapshot(papers), byTopic, p)
    ensures key in papers && fresh(papers[key]) && papers == papers0[key := papers[key]]
  {
    hide TopicCount, Grouped, Drawn, Initial, DistinctTopics, Unaliased;
    var paper := BuildPaper(byTopic, p);
    keys, papers := StorePaper(keys0, papers0, byTopic, p, key, paper);
  }

  method NewList(paper: seq<string>) returns (list: array<string>)
    ensures fresh(list) && list[..] == paper
  {
    list := new string[|paper|](i requires 0 <= i < |paper| => paper[i]);
  }

  /** `assignments[key] = paper_questions`: a new list object, replacing any earlier one. */
  method StorePaper(keys0: seq<string>, papers0: map<string, array<string>>, byTopic: map<string, seq<string>>,
    p: Problem, key: string, paper: seq<string>)
    returns (keys: seq<string>, papers: map<string, array<string>>)
    requires Unaliased(papers0) && Initial(keys0, Snapshot(papers0), byTopic, p)
    requires forall i :: 0 <= i < |paper| ==> paper[i] in p.questions
    requires forall t ::
      0 <= t < |p.blueprint| ==> TopicCount(paper, p.questions, p.blueprint[t].0) == Drawn(byTopic, p.blueprint[t])
    ensures Unaliased(papers) && Initial(keys, Snapshot(papers), byTopic, p)
    ensures Snapshot(papers) == Snapshot(papers0)[key := paper]
    ensures key in papers && fresh(papers[key])
    ensures papers == papers0[key := papers[key]]
  {
    hide TopicCount, Drawn;
    StoreKeepsInitial(keys0, Snapshot(papers0), byTopic, p, key, paper);
    hide Initial;
    var list := NewList(paper);
    keys := if key in papers0 then keys0 else keys0 + [key];
    papers := papers0[key := list];
    assert Snapshot(papers) == Snapshot(papers0)[key := paper];
  }

  lemma StoreKeepsInitial(keys: seq<string>, m: Matrix, byTopic: map<string, seq<string>>, p: Problem, key: string,
    paper: seq<string>)
    requires Initial(keys, m, byTopic, p)
    requires forall i :: 0 <= i < |paper| ==> paper[i] in p.questions
    requires forall t ::
      0 <= t < |p.blueprint| ==> TopicCount(paper, p.questions, p.blueprint[t].0) == Drawn(byTopic, p.blueprint[t])
    ensures Initial(if key in m then keys else keys + [key], m[key := paper], byTopic, p)
  {
    hide TopicCount, Drawn;
  }

  // ================================================================ the converged flag

  // ---------------------------------------------------------------- an early stop

  lemma {:induction false} NoTopicPenalty(keys: seq<string>, m: Matrix, p: Problem, n: nat)
    requires n <= |keys| && KeysOf(keys, m) && TopicPenalty(keys, m, p, n) == 0
    ensures forall i :: 0 <= i < n ==> PaperCovers(m[keys[i]], p)
  {
    hide PaperPenalty, PaperCovers;
    if n > 0 {
      NoTopicPenalty(keys, m, p, n - 1);
      PenaltyFree(m[keys[n - 1]], p);
    }
  }

  lemma PenaltyFree(qids: seq<string>, p: Problem)
    ensures PaperPenalty(qids, p, |p.blueprint|) == 0 <==> PaperCovers(qids, p)
  {
    NoPenalty(qids, p, |p.blueprint|);
  }

  function Square(d: real): real { Prod(d, d) }

  function Prod(a: real, b: real): real { a * b }

  /** The sum of the deviations from a value. */
  function Deviations(s: seq<real>, mean: real): real {
    if s == [] then 0.0 else Deviations(s[..|s| - 1], mean) + (s[|s| - 1] - mean)
  }

  lemma {:induction false} DeviationsSum(s: seq<real>, mean: real)
    ensures Deviations(s, mean) == Sum(s) - Prod(mean, |s| as real)
  {
    if s != [] {
      DeviationsSum(s[..|s| - 1], mean);
    }
  }

  lemma {:induction false} Concatenated(a: seq<real>, b: seq<real>, mean: real)
    ensures Deviations(a + b, mean) == Deviations(a, mean) + Deviations(b, mean)
    ensures SquaredDeviations(a + b, mean) == SquaredDeviations(a, mean) + SquaredDeviations(b, mean)
  {
    if b == [] {
      assert a + b == a;
    } else {
      Concatenated(a, b[..|b| - 1], mean);
      assert (a + b)[..|a + b| - 1] == a + b[..|b| - 1];
    }
  }

  /** The square of a sum of deviations is at most their number times the sum of the squares. */
  lemma {:induction false} Cauchy(s: seq<real>, mean: real)
    ensures Square(Deviations(s, mean)) <= Prod(|s| as real, SquaredDeviations(s, mean))
  {
    if s != [] {
      var n := |s| - 1;
      var e := s[n] - mean;
      assert SquaredDeviations(s, mean) == SquaredDeviations(s[..n], mean) + Square(e);
      assert Deviations(s, mean) == Deviations(s[..n], mean) + e;
      hide Square, Prod, SquaredDeviations, Deviations;
      Cauchy(s[..n], mean);
      SquaresNonNegative(s[..n], mean);
      CauchyStep(Deviations(s[..n], mean), e, SquaredDeviations(s[..n], mean), n as real);
      assert n as real + 1.0 == |s| as real;
    }
  }

  lemma CauchyStep(sum: real, e: real, squares: real, k: real)
    requires k >= 0.0 && squares >= 0.0 && Square(sum) <= Prod(k, squares)
    ensures Square(sum + e) <= Prod(k + 1.0, squares + Square(e))
  {
    var x, y := 2.0 * Prod(sum, e), squares + Prod(k, Square(e));
    Expand(sum, e, squares, k);
    hide Square, Prod;
    if k == 0.0 {
      ZeroTimes(squares);
      SumIsZero(sum);
      ZeroTimes(e);
      ZeroTimes(Square(e));
    } else {
      SquarePositive(sum - Prod(k, e));
      ProdOrder(k, x, y);
    }
  }

  lemma Expand(sum: real, e: real, squares: real, k: real)
    ensures Square(sum + e) == Square(sum) + 2.0 * Prod(sum, e) + Square(e)
    ensures Prod(k + 1.0, squares + Square(e)) == Prod(k, squares) + (squares + Prod(k, Square(e))) + Square(e)
    ensures Square(sum - Prod(k, e)) == Square(sum) - Prod(k, 2.0 * Prod(sum, e)) + Prod(k, Prod(k, Square(e)))
    ensures Prod(k, squares + Prod(k, Square(e))) == Prod(k, squares) + Prod(k, Prod(k, Square(e)))
  {}

  lemma ZeroTimes(x: real)
    ensures Prod(0.0, x) == 0.0
  {}

  lemma ProdOrder(k: real, x: real, y: real)
    requires k > 0.0 && Prod(k, x) <= Prod(k, y)
    ensures x <= y
  {
    if x > y { PositiveProduct(k, x - y); }
  }

  lemma SumIsZero(x: real)
    requires Square(x) <= 0.0
    ensures x == 0.0
  {
    var y := 0.0 - x;
    SameSquare(x, y);
    hide Square;
    if x > 0.0 { SquareAbove(x); }
    if y > 0.0 { SquareAbove(y); }
  }

  lemma SameSquare(x: real, y: real)
    requires y == 0.0 - x
    ensures Square(y) == Square(x)
  {}

  lemma SquareAbove(x: real)
    requires x > 0.0
    ensures Square(x) > 0.0
  {
    ProdAbove(x, x);
    hide Prod;
  }

  lemma ProdAbove(a: real, b: real)
    requires a > 0.0 && b > 0.0
    ensures Prod(a, b) > 0.0
  {
    PositiveProduct(a, b);
  }

  /** One deviation from the mean forces opposite ones on the others. */
  lemma OneDeviation(s: seq<real>, i: nat)
    requires i < |s|
    ensures Prod(Square(s[i] - Mean(s)), |s| as real) <= Prod(|s| as real - 1.0, SquaredDeviations(s, Mean(s)))
  {
    var mean, n := Mean(s), |s| as real;
    var d, others := s[i] - mean, s[..i] + s[i + 1..];
    MeanTimes(s);
    DeviationsSum(s, mean);
    Apart(s, i, mean);
    Cauchy(others, mean);
    hide Prod, Mean, SquaredDeviations, Deviations, Sum;
    assert Square(-d) == Square(d);
    assert |others| as real == n - 1.0;
    LastStep(Square(d), n - 1.0, SquaredDeviations(others, mean));
  }

  lemma MeanTimes(s: seq<real>)
    requires s != []
    ensures Prod(Mean(s), |s| as real) == Sum(s)
  {}

  lemma LastStep(x: real, k: real, q: real)
    requires x <= Prod(k, q)
    ensures Prod(x, k + 1.0) <= Prod(k, q + x)
  {}

  lemma OneOnly(x: real, mean: real)
    ensures Deviations([x], mean) == x - mean && SquaredDeviations([x], mean) == Square(x - mean)
  {
    assert [x][..0] == [];
  }

  lemma Apart(s: seq<real>, i: nat, mean: real)
    requires i < |s|
    ensures var others := s[..i] + s[i + 1..];
            && Deviations(s, mean) == Deviations(others, mean) + (s[i] - mean)
            && SquaredDeviations(s, mean) == SquaredDeviations(others, mean) + Square(s[i] - mean)
  {
    var one, rest := [s[i]], s[i + 1..];
    OneOnly(s[i], mean);
    hide *;
    assert s == s[..i] + (one + rest);
    Concatenated(s[..i], one + rest, mean);
    Concatenated(one, rest, mean);
    Concatenated(s[..i], rest, mean);
  }

  lemma SquarePositive(d: real)
    ensures Square(d) >= 0.0
  {}

  lemma SmallSquare(d: real)
    requires Square(d) <= 0.022
    ensures Abs(d) <= 0.15
  {
    if d > 0.15 {
      ProductAbove(d);
    } else if d < -0.15 {
      ProductAbove(-d);
    }
  }

  lemma ProductAbove(d: real)
    requires d > 0.15
    ensures d * d > 0.022
  {
    assert d * d > 0.15 * d;
  }

  /** At most 23 papers with a variance below 0.001 are balanced. */
  lemma SmallVariance(means: seq<real>)
    requires 2 <= |means| <= 23 && Variance(means) < 0.001
    ensures Balanced(means, DIFFICULTY_EPSILON)
  {
    forall i | 0 <= i < |means|
      ensures Abs(means[i] - Mean(means)) <= DIFFICULTY_EPSILON
    {
      OneDeviation(means, i);
      hide Mean, SquaredDeviations, Square, Prod;
      Bounded(Square(means[i] - Mean(means)), SquaredDeviations(means, Mean(means)), |means| as real);
      SmallSquare(means[i] - Mean(means));
    }
  }

  lemma Bounded(x: real, total: real, n: real)
    requires 2.0 <= n <= 23.0 && Prod(x, n) <= Prod(n - 1.0, total) && total / n < 0.001
    ensures x <= 0.022
  {
    var q := total / n;
    Regroup(x, q, n, total);
    LessTimes(n - 1.0, q, 0.001);
    assert Prod(n - 1.0, 0.001) == 0.001 * n - 0.001;
    hide Prod;
    ProdOrder(n, x, Prod(n - 1.0, q));
  }

  lemma Regroup(x: real, q: real, n: real, total: real)
    requires n > 0.0 && q == total / n
    ensures Prod(n - 1.0, total) == Prod(n, Prod(n - 1.0, q)) && Prod(x, n) == Prod(n, x)
  {
    assert total == q * n;
  }

  lemma LessTimes(a: real, x: real, y: real)
    requires a > 0.0 && x < y
    ensures Prod(a, x) < Prod(a, y)
  {
    PositiveProduct(a, y - x);
    assert a * (y - x) == Prod(a, y) - Prod(a, x);
  }

  /** The overlap of papers of at most 1012 different questions is a fraction coarse enough not to lie
      barely above a limit of 1/10 or 3/20. */
  lemma CoarseOverlap(a: seq<string>, b: seq<string>)
    requires a != [] && b != [] && |ToSet(a)| <= 1012 && |ToSet(b)| <= 1012
    ensures Overlap(a, b) < 0.10 + 0.0001 / 3.0 ==> Overlap(a, b) <= 0.10
    ensures Overlap(a, b) < 0.15 + 0.00005 ==> Overlap(a, b) <= 0.15
  {
    NonEmptySet(a);
    NonEmptySet(b);
    var c, u, v := |ToSet(a) * ToSet(b)|, |ToSet(a)|, |ToSet(b)|;
    CoarseFraction(c, if u < v then v else u);
  }

  lemma CoarseFraction(c: nat, n: nat)
    requires 0 < n <= 1012
    ensures c as real / n as real < 0.10 + 0.0001 / 3.0 ==> c as real / n as real <= 0.10
    ensures c as real / n as real < 0.15 + 0.00005 ==> c as real / n as real <= 0.15
  {
    var x, m := c as real / n as real, n as real;
    var r := c as real;
    assert x * m == r && (10 * c) as real == 10.0 * r && (20 * c) as real == 20.0 * r && (3 * n) as real == 3.0 * m;
    if 10 * c <= n {
      Below(x, 0.10, m, r);
    } else {
      assert 10.0 * r >= m + 1.0;
      Above(x, 0.10 + 0.00005, m, r);
    }
    if 20 * c <= 3 * n {
      Below(x, 0.15, m, r);
    } else {
      TwentiethsApart(c, n);
      assert 20.0 * r >= 3.0 * m + (if n <= 1000 then 1.0 else 2.0);
      Above(x, 0.15 + 0.00005, m, r);
    }
  }

  /** Between 1001 and 1012 no number of questions makes a fraction just above 3/20. */
  lemma TwentiethsApart(c: nat, n: nat)
    requires 20 * c > 3 * n && n <= 1012
    ensures n > 1000 ==> 20 * c >= 3 * n + 2
  {
    var twentieth := (3 * n + 1) % 20;
    assert 20 * c == 3 * n + 1 ==> twentieth == 0;
    assert n > 1000 ==> twentieth != 0;
  }

  lemma Below(x: real, y: real, m: real, r: real)
    requires m > 0.0 && x * m == r && r <= y * m
    ensures x <= y
  {}

  lemma Above(x: real, y: real, m: real, r: real)
    requires m > 0.0 && x * m == r && r >= y * m
    ensures x >= y
  {}

  /** No paper has more than s questions. */
  ghost predicate ShortPapers(m: Matrix, s: nat) {
    forall k :: k in m ==> |m[k]| <= s
  }

  /** No paper has more than 1012 different questions. */
  ghost predicate FewQuestions(m: Matrix) {
    forall k :: k in m ==> |ToSet(m[k])| <= 1012
  }

  lemma ShortHasFew(m: Matrix)
    requires ShortPapers(m, 1012)
    ensures FewQuestions(m)
  {
    forall k | k in m
      ensures |ToSet(m[k])| <= 1012
    {
      SetSize(m[k]);
    }
  }

  lemma EnergyParts(keys: seq<string>, m: Matrix, p: Problem)
    requires KeysOf(keys, m) && Energy(keys, m, p) < 0.01
    ensures DifficultyEnergy(PaperMeans(keys, m, p.questions, |keys|)) < 0.01
    ensures TopicPenalty(keys, m, p, |keys|) == 0
    ensures MaxOverlap(m, p.adjacency) < MAX_NEIGHBOR_OVERLAP + 0.0001 / 3.0
    ensures MaxOverlap(m, CrossPairs(p.centers, SAMPLE, |p.centers|)) < MAX_CROSS_CENTER_OVERLAP + 0.00005
  {
    hide PaperMeans, Mean, TopicPenalty, MaxOverlap, CrossPairs;
    var means := PaperMeans(keys, m, p.questions, |keys|);
    if |means| >= 2 {
      SquaresNonNegative(means, Mean(means));
    }
  }

  lemma {:induction false} FewMeans(keys: seq<string>, m: Matrix, questions: map<string, Question>, n: nat)
    requires n <= |keys| && KeysOf(keys, m)
    ensures |PaperMeans(keys, m, questions, n)| <= n
  {
    hide Difficulties, Mean;
    if n > 0 { FewMeans(keys, m, questions, n - 1); }
  }

  /** With at most 23 papers of at most 1012 different questions, an energy below 0.01 means that all
      four constraints hold. */
  lemma LowEnergyConverges(keys: seq<string>, m: Matrix, p: Problem)
    requires KeysOf(keys, m) && |keys| <= 23 && FewQuestions(m) && Energy(keys, m, p) < 0.01
    ensures Satisfied(keys, m, p) == 4
  {
    hide PaperMeans, Variance, TopicPenalty, MaxOverlap, CrossPairs, Overlap, PaperCovers;
    EnergyParts(keys, m, p);
    FewMeans(keys, m, p.questions, |keys|);
    var means := PaperMeans(keys, m, p.questions, |keys|);
    if |means| >= 2 {
      SmallVariance(means);
    }
    NoTopicPenalty(keys, m, p, |keys|);
    NeighborsCoarse(m, p);
    CentersCoarse(m, p);
  }

  lemma NeighborsCoarse(m: Matrix, p: Problem)
    requires FewQuestions(m) && MaxOverlap(m, p.adjacency) < MAX_NEIGHBOR_OVERLAP + 0.0001 / 3.0
    ensures NeighborsApart(m, p)
  {
    hide Overlap, MaxOverlap;
    MaxOverlapBound(m, p.adjacency, MaxOverlap(m, p.adjacency));
    forall pr | pr in p.adjacency && Counts(m, pr)
      ensures Overlap(m[pr.0], m[pr.1]) <= MAX_NEIGHBOR_OVERLAP
    {
      CoarseOverlap(m[pr.0], m[pr.1]);
    }
  }

  lemma CentersCoarse(m: Matrix, p: Problem)
    requires FewQuestions(m)
      && MaxOverlap(m, CrossPairs(p.centers, SAMPLE, |p.centers|)) < MAX_CROSS_CENTER_OVERLAP + 0.00005
    ensures Dissimilar(m, p.centers, SAMPLE, MAX_CROSS_CENTER_OVERLAP)
  {
    hide Overlap, MaxOverlap, CrossPairs, Across;
    DissimilarBound(m, p.centers, SAMPLE, MaxOverlap(m, CrossPairs(p.centers, SAMPLE, |p.centers|)));
    forall a, b, pr | 0 <= a < b < |p.centers| && Across(p.centers, SAMPLE, a, b, pr) && Counts(m, pr)
      ensures Overlap(m[pr.0], m[pr.1]) <= MAX_CROSS_CENTER_OVERLAP
    {
      CoarseOverlap(m[pr.0], m[pr.1]);
    }
  }

  /** When the loop stops early on such papers, the matrix returned satisfies everything: the
      best one has no more energy than the one it stopped at. */
  lemma EarlyStopConverges(keys: seq<string>, r: Run, p: Problem)
    requires Explored(keys, r, p) && Energy(keys, r.current, p) < 0.01
    requires |keys| <= 23 && ShortPapers(r.initial, 1012) && Kept(keys, r.initial, r.best, p)
    ensures Satisfied(keys, r.best, p) == 4
  {
    hide Energy, Satisfied, IsSwap, Questions, TopicTotal, FewQuestions;
    ShortHasFew(r.best);
    LowEnergyConverges(keys, r.best, p);
  }

  // ---------------------------------------------------------------- the sample

  /** No two non-empty centres of which one has more than five papers. */
  ghost predicate SampleSuffices(centers: seq<seq<string>>) {
    forall a, b ::
      0 <= a < b < |centers| && centers[a] != [] && centers[b] != [] ==>
        |centers[a]| <= SAMPLE && |centers[b]| <= SAMPLE
  }

  /** A larger sample is more demanding. */
  lemma LargerSample(m: Matrix, centers: seq<seq<string>>, limit: nat, bound: real)
    requires Dissimilar(m, centers, Longest(centers), bound)
    ensures Dissimilar(m, centers, limit, bound)
  {
    hide Overlap;
    forall a, b, pr | 0 <= a < b < |centers| && Across(centers, limit, a, b, pr)
      ensures Across(centers, Longest(centers), a, b, pr)
    {
      assert pr.0 in centers[a] && pr.1 in centers[b];
    }
  }

  lemma ShortCentersSampled(m: Matrix, centers: seq<seq<string>>, bound: real)
    requires SampleSuffices(centers) && Dissimilar(m, centers, SAMPLE, bound)
    ensures Dissimilar(m, centers, Longest(centers), bound)
  {
    hide Overlap;
    forall a, b, pr | 0 <= a < b < |centers| && Across(centers, Longest(centers), a, b, pr)
      ensures Across(centers, SAMPLE, a, b, pr)
    {
      assert centers[a] != [] && centers[b] != [];
    }
  }

  ghost predicate DistinctPapers(centers: seq<seq<string>>) {
    forall a, i, b, j ::
      0 <= a < |centers| && 0 <= b < |centers| && 0 <= i < |centers[a]| && 0 <= j < |centers[b]| && (a, i) != (b, j) ==>
      centers[a][i] != centers[b][j]
  }

  /** The keys are those of all the seats. */
  ghost predicate AllSeats(keys: seq<string>, centers: seq<seq<string>>) {
    forall k :: k in keys <==> InSomeCenter(centers, |centers|, k)
  }

  ghost predicate InSomeCenter(centers: seq<seq<string>>, n: nat, k: string)
    requires n <= |centers|
  {
    exists c :: 0 <= c < n && k in centers[c]
  }

  function Seats(centers: seq<seq<string>>, n: nat): seq<string>
    requires n <= |centers|
  {
    if n == 0 then [] else Seats(centers, n - 1) + centers[n - 1]
  }

  lemma {:induction false} SeatsDistinct(centers: seq<seq<string>>, n: nat)
    requires n <= |centers| && DistinctPapers(centers)
    ensures forall k :: k in Seats(centers, n) <==> InSomeCenter(centers, n, k)
    ensures forall i, j :: 0 <= i < j < |Seats(centers, n)| ==> Seats(centers, n)[i] != Seats(centers, n)[j]
  {
    if n > 0 {
      SeatsDistinct(centers, n - 1);
      var before, last := Seats(centers, n - 1), centers[n - 1];
      forall i, j | 0 <= i < |before| && 0 <= j < |last|
        ensures before[i] != last[j]
      {
        assert before[i] in before;
        var c :| 0 <= c < n - 1 && before[i] in centers[c];
        var l :| 0 <= l < |centers[c]| && centers[c][l] == before[i];
      }
    }
  }

  /** Every paper has one question of its own, except that y has the one of x. */
  function Copying(keys: seq<string>, x: string, y: string): (m: Matrix)
    ensures forall k :: k in m <==> k in keys
    ensures forall k :: k in m ==> m[k] == [if k == y then x else k]
  {
    map k | k in keys :: [if k == y then x else k]
  }

  /** All questions on one topic and equally difficult, one for each paper. */
  function OneTopic(keys: seq<string>, centers: seq<seq<string>>): Problem {
    Problem(map k | k in keys :: Question("topic", 0.0), [("topic", 1)], [], centers)
  }

  lemma OneQuestion(p: Problem, q: string)
    requires p.blueprint == [("topic", 1)] && q in p.questions && p.questions[q] == Question("topic", 0.0)
    ensures PaperCovers([q], p) && Difficulties([q], p.questions) == [0.0] && Mean([0.0]) == 0.0
  {
    assert [q][..0] == [] && [0.0][..0] == [];
  }

  lemma {:induction false} ZeroMeans(keys: seq<string>, m: Matrix, p: Problem, n: nat)
    requires n <= |keys| && KeysOf(keys, m)
    requires forall k :: k in m ==> Difficulties(m[k], p.questions) == [0.0]
    ensures |PaperMeans(keys, m, p.questions, n)| == n
    ensures forall i :: 0 <= i < n ==> PaperMeans(keys, m, p.questions, n)[i] == 0.0
  {
    hide Difficulties;
    if n > 0 {
      ZeroMeans(keys, m, p, n - 1);
      assert [0.0][..0] == [];
      assert Mean([0.0]) == 0.0;
    }
  }

  lemma {:induction false} SumOfZeros(s: seq<real>)
    requires forall i :: 0 <= i < |s| ==> s[i] == 0.0
    ensures Sum(s) == 0.0
  {
    if s != [] { SumOfZeros(s[..|s| - 1]); }
  }

  lemma ZerosBalanced(means: seq<real>)
    requires forall i :: 0 <= i < |means| ==> means[i] == 0.0
    ensures Balanced(means, DIFFICULTY_EPSILON)
  {
    SumOfZeros(means);
  }

  lemma OverlapOfSingles(a: string, b: string)
    ensures Overlap([a], [b]) == if a == b then 1.0 else 0.0
  {
    assert ToSet([a]) == {a} && ToSet([b]) == {b};
    assert ToSet([a]) * ToSet([b]) == if a == b then {a} else {};
  }

  /** Two equal papers, one of them outside its centre's sample, pass the sampled check. */
  lemma CopyUnseen(keys: seq<string>, centers: seq<seq<string>>, a: nat, i: nat, b: nat, j: nat)
    requires DistinctPapers(centers) && a < b < |centers| && i < |centers[a]| && j < |centers[b]|
      && (i >= SAMPLE || j >= SAMPLE)
    ensures Dissimilar(Copying(keys, centers[a][i], centers[b][j]), centers, SAMPLE, MAX_CROSS_CENTER_OVERLAP)
  {
    var x, y := centers[a][i], centers[b][j];
    var m := Copying(keys, x, y);
    hide Overlap;
    forall c, d, pr | 0 <= c < d < |centers| && Across(centers, SAMPLE, c, d, pr) && Counts(m, pr)
      ensures Overlap(m[pr.0], m[pr.1]) <= MAX_CROSS_CENTER_OVERLAP
    {
      SampledIndex(centers[c], pr.0);
      SampledIndex(centers[d], pr.1);
      var k: nat :| k < |centers[c]| && k < SAMPLE && centers[c][k] == pr.0;
      var l: nat :| l < |centers[d]| && l < SAMPLE && centers[d][l] == pr.1;
      OverlapOfSingles(m[pr.0][0], m[pr.1][0]);
    }
  }

  lemma SampledIndex(papers: seq<string>, x: string)
    requires x in Sampled(papers, SAMPLE)
    ensures exists k: nat :: k < |papers| && k < SAMPLE && papers[k] == x
  {
    var k :| 0 <= k < |Sampled(papers, SAMPLE)| && Sampled(papers, SAMPLE)[k] == x;
  }

  /** A state the solver can hold and calls converged: a paper for every seat, known questions
      and all four constraints. */
  ghost predicate Converges(keys: seq<string>, m: Matrix, p: Problem) {
    KeysOf(keys, m) && AllSeats(keys, p.centers) && AllKnown(m, p) && Satisfied(keys, m, p) == 4
  }

  /** Where a sample is partial there is a converged matrix with two equal papers in it. */
  lemma UnseenCopy(centers: seq<seq<string>>, a: nat, i: nat, b: nat, j: nat)
    returns (keys: seq<string>, m: Matrix, p: Problem)
    requires DistinctPapers(centers) && a < b < |centers| && i < |centers[a]| && j < |centers[b]|
      && (i >= SAMPLE || j >= SAMPLE)
    ensures p.centers == centers && Converges(keys, m, p)
    ensures !Dissimilar(m, centers, Longest(centers), MAX_CROSS_CENTER_OVERLAP)
  {
    hide Overlap, Balanced, Covers, Dissimilar, Satisfied, Copying, OneTopic, KeysOf, AllKnown;
    keys := Seats(centers, |centers|);
    SeatsDistinct(centers, |centers|);
    var x, y := centers[a][i], centers[b][j];
    assert InSomeCenter(centers, |centers|, x) && InSomeCenter(centers, |centers|, y);
    m, p := Copying(keys, x, y), OneTopic(keys, centers);
    CopyUnseen(keys, centers, a, i, b, j);
    CopySatisfies(keys, centers, x, y);
    CopySeen(keys, centers, a, i, b, j);
  }

  lemma CopySatisfies(keys: seq<string>, centers: seq<seq<string>>, x: string, y: string)
    requires x in keys && forall i, j :: 0 <= i < j < |keys| ==> keys[i] != keys[j]
    requires Dissimilar(Copying(keys, x, y), centers, SAMPLE, MAX_CROSS_CENTER_OVERLAP)
    ensures var m, p := Copying(keys, x, y), OneTopic(keys, centers);
            p.centers == centers && KeysOf(keys, m) && AllKnown(m, p) && Satisfied(keys, m, p) == 4
  {
    hide Overlap, Difficulties, Mean, PaperMeans, PaperCovers, Balanced, Dissimilar, Sum;
    var m, p := Copying(keys, x, y), OneTopic(keys, centers);
    forall k | k in m
      ensures PaperCovers(m[k], p) && Difficulties(m[k], p.questions) == [0.0]
    {
      OneQuestion(p, m[k][0]);
    }
    ZeroMeans(keys, m, p, |keys|);
    ZerosBalanced(PaperMeans(keys, m, p.questions, |keys|));
  }

  lemma CopySeen(keys: seq<string>, centers: seq<seq<string>>, a: nat, i: nat, b: nat, j: nat)
    requires a < b < |centers| && i < |centers[a]| && j < |centers[b]| && centers[a][i] in keys && centers[b][j] in keys
    ensures !Dissimilar(Copying(keys, centers[a][i], centers[b][j]), centers, Longest(centers),
      MAX_CROSS_CENTER_OVERLAP)
  {
    hide Overlap;
    var x, y := centers[a][i], centers[b][j];
    var m := Copying(keys, x, y);
    OverlapOfSingles(x, x);
    assert Across(centers, Longest(centers), a, b, (x, y)) && Counts(m, (x, y));
  }

  /** The five-paper sample decides the full cross-centre check for every converged matrix
      exactly when no two non-empty centres include one of more than five papers. */
  lemma SampleDecides(centers: seq<seq<string>>)
    requires DistinctPapers(centers)
    ensures SampleSuffices(centers) <==>
      forall keys: seq<string>, m: Matrix, p: Problem ::
        p.centers == centers && Converges(keys, m, p) ==>
          Dissimilar(m, centers, Longest(centers), MAX_CROSS_CENTER_OVERLAP)
  {
    if SampleSuffices(centers) {
      forall keys: seq<string>, m: Matrix, p: Problem | p.centers == centers && Converges(keys, m, p)
        ensures Dissimilar(m, centers, Longest(centers), MAX_CROSS_CENTER_OVERLAP)
      {
        ConvergedSample(keys, m, p);
        ShortCentersSampled(m, centers, MAX_CROSS_CENTER_OVERLAP);
      }
    } else {
      hide Dissimilar, Converges;
      var a, b :| 0 <= a < b < |centers| && centers[a] != [] && centers[b] != []
        && (|centers[a]| > SAMPLE || |centers[b]| > SAMPLE);
      var keys, m, p := UnseenCopy(centers, a, |centers[a]| - 1, b, |centers[b]| - 1);
    }
  }

  lemma ConvergedSample(keys: seq<string>, m: Matrix, p: Problem)
    requires Converges(keys, m, p)
    ensures Dissimilar(m, p.centers, SAMPLE, MAX_CROSS_CENTER_OVERLAP)
  {
    hide Dissimilar, Balanced, Covers, NeighborsApart;
  }

  // ---------------------------------------------------------------- the checkers

  /** The four checkers on a matrix whose questions are all known. A converged matrix passes
      the first three, and the fourth too when no centre's sample is partial; a matrix that
      passes all four satisfies all the solver's constraints. */
  method CheckAll(keys: seq<string>, m: Matrix, p: Problem)
    returns (balanced: bool, covered: bool, neighbors: bool, centers: bool)
    requires KeysOf(keys, m) && AllKnown(m, p)
    ensures Satisfied(keys, m, p) == 4 ==> balanced && covered && neighbors
    ensures Satisfied(keys, m, p) == 4 && SampleSuffices(p.centers) ==> centers
    ensures balanced && covered && neighbors && centers ==> Satisfied(keys, m, p) == 4
  {
    hide Balanced, PaperMeans, Covers, LabelsMatch, Overlap, Across, Counts, GreatestDeviation, OverlapReached,
      Tallied, KeysOf, SampleSuffices;
    var dev, o1, o2;
    balanced, dev := CheckDifficultyBalance(keys, m, p.questions, DIFFICULTY_EPSILON);
    CoverageAgrees(m, p);
    var coverage;
    covered, coverage := CheckTopicCoverage(keys, m, p.blueprint, TopicTable(p));
    neighbors, o1 := CheckNeighborDissimilarity(m, p.adjacency, MAX_NEIGHBOR_OVERLAP);
    centers, o2 := CheckCrossCenterDissimilarity(m, p.centers, MAX_CROSS_CENTER_OVERLAP);
    if SampleSuffices(p.centers) && Dissimilar(m, p.centers, SAMPLE, MAX_CROSS_CENTER_OVERLAP) {
      ShortCentersSampled(m, p.centers, MAX_CROSS_CENTER_OVERLAP);
    }
    if Dissimilar(m, p.centers, Longest(p.centers), MAX_CROSS_CENTER_OVERLAP) {
      LargerSample(m, p.centers, SAMPLE, MAX_CROSS_CENTER_OVERLAP);
    }
  }

  // ================================================================ the whole call

  // ---------------------------------------------------------------- what annealing cannot change

  /** The questions of the papers together are those of some paper. */
  lemma {:induction false} QuestionsMember(keys: seq<string>, m: Matrix, n: nat, q: string)
    requires n <= |keys| && KeysOf(keys, m)
    ensures q in Questions(keys, m, n) <==> exists j :: 0 <= j < n && q in m[keys[j]]
  {
    if n > 0 {
      QuestionsMember(keys, m, n - 1, q);
    }
  }

  /** Moves bring in no question from outside the bank. */
  lemma StaysKnown(keys: seq<string>, initial: Matrix, m: Matrix, p: Problem)
    requires KeysOf(keys, initial) && Kept(keys, initial, m, p) && AllKnown(initial, p)
    ensures AllKnown(m, p)
  {
    hide Questions, TopicTotal;
    forall k, i | k in m && 0 <= i < |m[k]|
      ensures m[k][i] in p.questions
    {
      var q := m[k][i];
      var j :| 0 <= j < |keys| && keys[j] == k;
      QuestionsMember(keys, m, |keys|, q);
      QuestionsMember(keys, initial, |keys|, q);
      var l :| 0 <= l < |keys| && q in initial[keys[l]];
      assert initial[keys[l]][..] == initial[keys[l]];
    }
  }

  lemma {:induction false} EqualTotals(keys: seq<string>, m: Matrix, p: Problem, topic: string, c: nat, n: nat)
    requires n <= |keys| && KeysOf(keys, m)
    requires forall k :: k in m ==> TopicCount(m[k], p.questions, topic) == c
    ensures TopicTotal(keys, m, p, topic, n) == n * c
  {
    hide TopicCount;
    if n > 0 {
      EqualTotals(keys, m, p, topic, c, n - 1);
    }
  }

  lemma EqualFactors(n: nat, c: nat, d: nat)
    requires n > 0 && n * c == n * d
    ensures c == d
  {
    assert n * (c - d) == 0;
  }

  /** Since moves keep every topic's total, no sequence of moves reaches a matrix that covers
      the blueprint unless the bank has questions for every required topic. */
  lemma CoverageNeedsFeasible(keys: seq<string>, initial: Matrix, m: Matrix, byTopic: map<string, seq<string>>,
    p: Problem)
    requires Initial(keys, initial, byTopic, p) && Kept(keys, initial, m, p) && keys != [] && Covers(m, p)
    ensures Feasible(byTopic, p)
  {
    hide TopicCount, Questions, TopicTotal;
    forall t | 0 <= t < |p.blueprint| && p.blueprint[t].1 > 0
      ensures Available(byTopic, p.blueprint[t].0) != []
    {
      var topic, required := p.blueprint[t].0, p.blueprint[t].1;
      EqualTotals(keys, initial, p, topic, Drawn(byTopic, p.blueprint[t]), |keys|);
      EqualTotals(keys, m, p, topic, required, |keys|);
      EqualFactors(|keys|, Drawn(byTopic, p.blueprint[t]), required);
    }
  }

  // ---------------------------------------------------------------- the seats' keys

  ghost predicate DistinctIds(centers: seq<Center>) {
    && (forall a, b :: 0 <= a < b < |centers| ==> centers[a].centerId != centers[b].centerId)
    && (forall a :: 0 <= a < |centers| ==> Distinct(centers[a].seatIds))
  }

  ghost predicate NoUnderscores(centers: seq<Center>) {
    forall a :: 0 <= a < |centers| ==>
      '_' !in centers[a].centerId && forall s :: 0 <= s < |centers[a].seatIds| ==> '_' !in centers[a].seatIds[s]
  }

  /** With distinct ids without underscores every seat has a paper of its own. */
  lemma PapersApart(centers: seq<Center>, keys: seq<seq<string>>)
    requires |keys| == |centers| && forall c :: 0 <= c < |centers| ==> KeysOfCenter(centers[c], keys[c])
    requires DistinctIds(centers) && NoUnderscores(centers)
    ensures DistinctPapers(keys)
  {
    hide PaperKey;
    forall a, i, b, j | 0 <= a < |keys| && 0 <= b < |keys| && 0 <= i < |keys[a]| && 0 <= j < |keys[b]|
      && (a, i) != (b, j)
      ensures keys[a][i] != keys[b][j]
    {
      KeyIsShared(centers[a].centerId, centers[a].seatIds[i]);
    }
  }

  // ---------------------------------------------------------------- the call

  lemma SameInitial(keys: seq<string>, m: Matrix, byTopic: map<string, seq<string>>, p: Problem, p': Problem)
    requires Initial(keys, m, byTopic, p) && p.questions == p'.questions && p.blueprint == p'.blueprint
    ensures Initial(keys, m, byTopic, p')
  {
    hide TopicCount, Drawn;
  }

  /** `solve_assignment_matrix`: every seat has a paper; each paper is as long as drawn and each
      topic occurs as often in all as initially; the matrix is reported as converged exactly
      when the four constraints hold of it; and for a blueprint whose bank lacks a
      required topic no run converges. */
  method SolveAssignmentMatrix(ids: seq<string>, questions: map<string, Question>, blueprint: seq<(string, nat)>,
    centers: seq<Center>)
    returns (r: AssignmentMatrix, keys: seq<string>, p: Problem, ghost initial: Matrix, ghost byTopic: map<string,
      seq<string>>)
    requires forall q :: q in ids <==> q in questions
    requires DistinctTopics(Problem(questions, blueprint, [], []))
    ensures p.questions == questions && p.blueprint == blueprint && p.adjacency == AdjacencyOf(centers, |centers|)
    ensures |p.centers| == |centers| && forall c :: 0 <= c < |centers| ==> KeysOfCenter(centers[c], p.centers[c])
    ensures Grouped(byTopic, questions) && Initial(keys, initial, byTopic, p)
    ensures Kept(keys, initial, r.assignments, p) && AllKnown(r.assignments, p)
    ensures forall k :: k in r.assignments <==> IsSeat(centers, |centers|, k)
    ensures r.energy == Energy(keys, r.assignments, p) <= Energy(keys, initial, p)
    ensures r.converged <==>
      && Balanced(PaperMeans(keys, r.assignments, questions, |keys|), DIFFICULTY_EPSILON)
      && Covers(r.assignments, p) && NeighborsApart(r.assignments, p)
      && Dissimilar(r.assignments, p.centers, SAMPLE, MAX_CROSS_CENTER_OVERLAP)
    ensures r.converged && SampleSuffices(p.centers) ==>
      Dissimilar(r.assignments, p.centers, Longest(p.centers), MAX_CROSS_CENTER_OVERLAP)
    ensures r.converged && keys != [] ==> Feasible(byTopic, p)
    ensures 2 <= |keys| <= 23 && ShortPapers(initial, 1012) && r.iterations < MAX_ITERATIONS ==> r.converged
  {
    hide Energy, Balanced, Covers, NeighborsApart, Dissimilar, Kept, Initial, Feasible, PaperMeans, Explored, IsSeat,
      Grouped,
      KeysOfCenter, AdjacencyOf, AllKnown, Unaliased, SampleSuffices, ShortPapers;
    var grouped := GroupByTopic(ids, questions);
    byTopic := grouped;
    var bare := Problem(questions, blueprint, [], []);
    var papers, centerPapers, adjacency;
    keys, papers, centerPapers, adjacency := InitializeAssignments(grouped, bare, centers);
    p := Problem(questions, blueprint, adjacency, centerPapers);
    initial := Snapshot(papers);
    SameInitial(keys, initial, byTopic, bare, p);
    InitialKnown(keys, initial, byTopic, p);
    ghost var accepted;
    r, accepted := Solve(keys, papers, p);
    StaysKnown(keys, initial, r.assignments, p);
    SameSeats(keys, initial, r.assignments, p);
    if SampleSuffices(p.centers) && r.converged {
      ShortCentersSampled(r.assignments, p.centers, MAX_CROSS_CENTER_OVERLAP);
    }
    if 2 <= |keys| <= 23 && ShortPapers(initial, 1012) && r.iterations < MAX_ITERATIONS {
      EarlyStopConverges(keys, Run(accepted, initial, Snapshot(papers), r.assignments), p);
    }
    if r.converged && keys != [] {
      CoverageNeedsFeasible(keys, initial, r.assignments, byTopic, p);
    }
  }

  lemma InitialKnown(keys: seq<string>, m: Matrix, byTopic: map<string, seq<string>>, p: Problem)
    requires Initial(keys, m, byTopic, p)
    ensures KeysOf(keys, m) && AllKnown(m, p)
  {}

  lemma SameSeats(keys: seq<string>, initial: Matrix, m: Matrix, p: Problem)
    requires KeysOf(keys, initial) && Kept(keys, initial, m, p)
    ensures KeysOf(keys, m) && initial.Keys == m.Keys
  {
    hide Questions, TopicTotal;
  }
}
