/** The assignment matrix, its energy, and the four constraint checkers the energy
    function duplicates. Floating-point numbers are reals. */
module Constraints {
  import opened Sequences

  datatype Question = Question(topic: string, difficultyB: real)

  /** `centers` lists each centre's paper keys in dictionary order. */
  datatype Problem = Problem(
    questions: map<string, Question>,
    blueprint: seq<(string, nat)>,
    adjacency: seq<(string, string)>,
    centers: seq<seq<string>>)

  /** Paper key to question ids; `keys` is the dictionary's insertion order. */
  type Matrix = map<string, seq<string>>

  const WEIGHT_DIFFICULTY_VARIANCE := 10.0
  const WEIGHT_TOPIC_COVERAGE := 5.0
  const WEIGHT_NEIGHBOR_OVERLAP := 3.0
  const WEIGHT_CROSS_CENTER_OVERLAP := 2.0
  const MAX_NEIGHBOR_OVERLAP := 0.10
  const MAX_CROSS_CENTER_OVERLAP := 0.15
  const DIFFICULTY_EPSILON := 0.15
  const SAMPLE := 5

  ghost predicate KeysOf(keys: seq<string>, m: Matrix) {
    && (forall k :: k in keys <==> k in m)
    && (forall i, j :: 0 <= i < j < |keys| ==> keys[i] != keys[j])
  }

  // ---------------------------------------------------------------- difficulty

  function Mean(s: seq<real>): real
    requires s != []
  {
    Sum(s) / |s| as real
  }

  function SquaredDeviations(s: seq<real>, mean: real): real {
    if s == [] then 0.0
    else
      var d := s[|s| - 1] - mean;
      SquaredDeviations(s[..|s| - 1], mean) + d * d
  }

  /** `np.var` */
  function Variance(s: seq<real>): real
    requires s != []
  {
    SquaredDeviations(s, Mean(s)) / |s| as real
  }

  function Abs(x: real): real { if x < 0.0 then -x else x }
  function Max(x: real, y: real): real { if x < y then y else x }

  /** The difficulties of the known questions among `qids`. */
  function Difficulties(qids: seq<string>, questions: map<string, Question>): seq<real> {
    if qids == [] then []
    else
      var last := qids[|qids| - 1];
      Difficulties(qids[..|qids| - 1], questions) +
      if last in questions then [questions[last].difficultyB] else []
  }

  /** The mean difficulty of each paper that has one, over the first n papers. */
  function PaperMeans(keys: seq<string>, m: Matrix, questions: map<string, Question>, n: nat): seq<real>
    requires n <= |keys| && KeysOf(keys, m)
  {
    if n == 0 then []
    else
      var bs := Difficulties(m[keys[n - 1]], questions);
      PaperMeans(keys, m, questions, n - 1) + if bs != [] then [Mean(bs)] else []
  }

  /** Every paper mean is within epsilon of the mean of the paper means. */
  ghost predicate Balanced(means: seq<real>, epsilon: real) {
    |means| < 2 || forall i :: 0 <= i < |means| ==> Abs(means[i] - Mean(means)) <= epsilon
  }

  method MeanDifficulties(keys: seq<string>, m: Matrix, questions: map<string, Question>) returns (means: seq<real>)
    requires KeysOf(keys, m)
    ensures means == PaperMeans(keys, m, questions, |keys|)
  {
    means := [];
    var i := 0;
    while i < |keys|
      invariant 0 <= i <= |keys| && means == PaperMeans(keys, m, questions, i)
    {
      var qids := m[keys[i]];
      var bs := [];
      var j := 0;
      while j < |qids|
        invariant 0 <= j <= |qids| && bs == Difficulties(qids[..j], questions)
      {
        assert qids[..j + 1][..j] == qids[..j];
        if qids[j] in questions {
          bs := bs + [questions[qids[j]].difficultyB];
        }
        j := j + 1;
      }
      assert qids[..|qids|] == qids;
      if bs != [] {
        means := means + [Mean(bs)];
      }
      i := i + 1;
    }
  }

  method MaxDeviation(means: seq<real>) returns (r: real)
    requires means != []
    ensures forall i :: 0 <= i < |means| ==> Abs(means[i] - Mean(means)) <= r
    ensures exists i :: 0 <= i < |means| && Abs(means[i] - Mean(means)) == r
  {
    var mean := Mean(means);
    r := Abs(means[0] - mean);
    var i := 1;
    while i < |means|
      invariant 1 <= i <= |means|
      invariant forall j :: 0 <= j < i ==> Abs(means[j] - mean) <= r
      invariant exists j :: 0 <= j < i && Abs(means[j] - mean) == r
    {
      var d := Abs(means[i] - mean);
      if r < d {
        r := d;
      }
      i := i + 1;
    }
  }

  /** The greatest deviation from the mean, zero when there is nothing to compare. */
  ghost predicate GreatestDeviation(means: seq<real>, r: real) {
    if |means| < 2 then r == 0.0
    else
      && (forall i :: 0 <= i < |means| ==> Abs(means[i] - Mean(means)) <= r)
      && (exists i :: 0 <= i < |means| && Abs(means[i] - Mean(means)) == r)
  }

  /** `check_difficulty_balance` */
  method CheckDifficultyBalance(keys: seq<string>, m: Matrix, questions: map<string, Question>, epsilonB: real)
    returns (passes: bool, maxDeviation: real)
    requires KeysOf(keys, m)
    ensures passes <==> Balanced(PaperMeans(keys, m, questions, |keys|), epsilonB)
    ensures GreatestDeviation(PaperMeans(keys, m, questions, |keys|), maxDeviation)
  {
    var means := MeanDifficulties(keys, m, questions);
    if |means| < 2 {
      return true, 0.0;
    }
    maxDeviation := MaxDeviation(means);
    passes := maxDeviation <= epsilonB;
  }

  // ---------------------------------------------------------------- topics

  /** How many known questions of the topic are among `qids`. */
  function TopicCount(qids: seq<string>, questions: map<string, Question>, topic: string): nat {
    if qids == [] then 0
    else
      var last := qids[|qids| - 1];
      TopicCount(qids[..|qids| - 1], questions, topic) +
      if last in questions && questions[last].topic == topic then 1 else 0
  }

  function Deviation(actual: nat, required: nat): nat {
    if actual < required then required - actual else actual - required
  }

  /** The total deviation of one paper over the first n topics. */
  function PaperPenalty(qids: seq<string>, p: Problem, n: nat): nat
    requires n <= |p.blueprint|
  {
    if n == 0 then 0
    else
      var (topic, required) := p.blueprint[n - 1];
      PaperPenalty(qids, p, n - 1) + Deviation(TopicCount(qids, p.questions, topic), required)
  }

  function TopicPenalty(keys: seq<string>, m: Matrix, p: Problem, n: nat): nat
    requires n <= |keys| && KeysOf(keys, m)
  {
    if n == 0 then 0
    else TopicPenalty(keys, m, p, n - 1) + PaperPenalty(m[keys[n - 1]], p, |p.blueprint|)
  }

  ghost predicate PaperCovers(qids: seq<string>, p: Problem) {
    forall t :: 0 <= t < |p.blueprint| ==> TopicCount(qids, p.questions, p.blueprint[t].0) == p.blueprint[t].1
  }

  /** Every paper has exactly the required number of questions of every topic. */
  ghost predicate Covers(m: Matrix, p: Problem) {
    forall k :: k in m ==> PaperCovers(m[k], p)
  }

  method CountTopics(qids: seq<string>, questions: map<string, Question>) returns (counts: map<string, nat>)
    ensures forall t :: (if t in counts then counts[t] else 0) == TopicCount(qids, questions, t)
  {
    counts := map[];
    var j := 0;
    while j < |qids|
      invariant 0 <= j <= |qids|
      invariant forall t :: (if t in counts then counts[t] else 0) == TopicCount(qids[..j], questions, t)
    {
      assert qids[..j + 1][..j] == qids[..j];
      if qids[j] in questions {
        var t := questions[qids[j]].topic;
        counts := counts[t := (if t in counts then counts[t] else 0) + 1];
      }
      j := j + 1;
    }
    assert qids[..|qids|] == qids;
  }

  lemma {:induction false} NoPenalty(qids: seq<string>, p: Problem, n: nat)
    requires n <= |p.blueprint|
    ensures PaperPenalty(qids, p, n) == 0 <==>
      forall t :: 0 <= t < n ==> TopicCount(qids, p.questions, p.blueprint[t].0) == p.blueprint[t].1
  {
    if n > 0 { NoPenalty(qids, p, n - 1); }
  }

  /** The topic part of the energy. */
  method TopicPart(keys: seq<string>, m: Matrix, p: Problem) returns (penalty: nat, ok: bool)
    requires KeysOf(keys, m)
    ensures penalty == TopicPenalty(keys, m, p, |keys|)
    ensures ok <==> Covers(m, p)
  {
    hide PaperCovers, PaperPenalty;
    penalty, ok := 0, true;
    var i := 0;
    while i < |keys|
      invariant 0 <= i <= |keys| && penalty == TopicPenalty(keys, m, p, i)
      invariant ok <==> forall j :: 0 <= j < i ==> PaperCovers(m[keys[j]], p)
    {
      var deviation := PaperDeviation(m[keys[i]], p);
      if deviation > 0 {
        penalty := penalty + deviation;
        ok := false;
      }
      i := i + 1;
    }
  }

  /** The loop over the blueprint topics for one paper. */
  method PaperDeviation(qids: seq<string>, p: Problem) returns (penalty: nat)
    ensures penalty == PaperPenalty(qids, p, |p.blueprint|)
    ensures penalty == 0 <==> PaperCovers(qids, p)
  {
    hide TopicCount;
    var counts := CountTopics(qids, p.questions);
    penalty := 0;
    var t := 0;
    while t < |p.blueprint|
      invariant 0 <= t <= |p.blueprint| && penalty == PaperPenalty(qids, p, t)
    {
      var (topic, required) := p.blueprint[t];
      var actual := if topic in counts then counts[topic] else 0;
      penalty := penalty + Deviation(actual, required);
      t := t + 1;
    }
    NoPenalty(qids, p, |p.blueprint|);
  }

  /** The topic table of the checker: unknown ids count under "unknown". */
  function TopicOf(qid: string, topics: map<string, string>): string {
    if qid in topics then topics[qid] else "unknown"
  }

  function LabelCount(qids: seq<string>, topics: map<string, string>, topic: string): nat {
    if qids == [] then 0
    else LabelCount(qids[..|qids| - 1], topics, topic) + if TopicOf(qids[|qids| - 1], topics) == topic then 1 else 0
  }

  ghost predicate Tallied(counts: map<string, nat>, qids: seq<string>, topics: map<string, string>) {
    forall t :: (if t in counts then counts[t] else 0) == LabelCount(qids, topics, t)
  }

  method CountLabels(qids: seq<string>, topics: map<string, string>) returns (counts: map<string, nat>)
    ensures Tallied(counts, qids, topics)
  {
    counts := map[];
    var j := 0;
    while j < |qids|
      invariant 0 <= j <= |qids|
      invariant forall t :: (if t in counts then counts[t] else 0) == LabelCount(qids[..j], topics, t)
    {
      assert qids[..j + 1][..j] == qids[..j];
      var t := TopicOf(qids[j], topics);
      counts := counts[t := (if t in counts then counts[t] else 0) + 1];
      j := j + 1;
    }
    assert qids[..|qids|] == qids;
  }

  ghost predicate LabelsMatch(qids: seq<string>, blueprint: seq<(string, nat)>, topics: map<string, string>) {
    forall t :: 0 <= t < |blueprint| ==> LabelCount(qids, topics, blueprint[t].0) == blueprint[t].1
  }

  /** The loop over the blueprint, left at the first mismatch. */
  method PaperPasses(qids: seq<string>, blueprint: seq<(string, nat)>, topics: map<string, string>,
    counts: map<string, nat>) returns (passes: bool)
    requires Tallied(counts, qids, topics)
    ensures passes <==> LabelsMatch(qids, blueprint, topics)
  {
    hide LabelCount;
    var t := 0;
    while t < |blueprint|
      invariant 0 <= t <= |blueprint|
      invariant forall u :: 0 <= u < t ==> LabelCount(qids, topics, blueprint[u].0) == blueprint[u].1
    {
      var (topic, required) := blueprint[t];
      var actual := if topic in counts then counts[topic] else 0;
      if actual != required {
        return false;
      }
      t := t + 1;
    }
    passes := true;
  }

  /** `check_topic_coverage`, with the topic counts of every paper. */
  method CheckTopicCoverage(keys: seq<string>, m: Matrix, blueprint: seq<(string, nat)>, topics: map<string, string>)
    returns (allPass: bool, coverageByPaper: map<string, map<string, nat>>)
    requires KeysOf(keys, m)
    ensures allPass <==> forall k :: k in m ==> LabelsMatch(m[k], blueprint, topics)
    ensures coverageByPaper.Keys == m.Keys && forall k :: k in m ==> Tallied(coverageByPaper[k], m[k], topics)
  {
    hide LabelsMatch, Tallied;
    allPass, coverageByPaper := true, map[];
    var i := 0;
    while i < |keys|
      invariant 0 <= i <= |keys|
      invariant allPass <==> forall j :: 0 <= j < i ==> LabelsMatch(m[keys[j]], blueprint, topics)
      invariant forall k :: k in coverageByPaper <==> exists j :: 0 <= j < i && keys[j] == k
      invariant forall j :: 0 <= j < i ==> Tallied(coverageByPaper[keys[j]], m[keys[j]], topics)
    {
      var counts := CountLabels(m[keys[i]], topics);
      var paperPasses := PaperPasses(m[keys[i]], blueprint, topics, counts);
      if !paperPasses {
        allPass := false;
      }
      coverageByPaper := coverageByPaper[keys[i] := counts];
      i := i + 1;
    }
  }

  // ---------------------------------------------------------------- overlaps

  /** The shared fraction of two papers' question sets. */
  function Overlap(a: seq<string>, b: seq<string>): real
    requires a != [] && b != []
  {
    NonEmptySet(a);
    NonEmptySet(b);
    |ToSet(a) * ToSet(b)| as real / Max(|ToSet(a)| as real, |ToSet(b)| as real)
  }

  lemma NonEmptySet(a: seq<string>)
    requires a != []
    ensures |ToSet(a)| > 0
  {
    assert a[0] in ToSet(a);
  }

  /** A pair that a maximum takes into account: both papers present and not empty. */
  predicate Counts(m: Matrix, pair: (string, string)) {
    pair.0 in m && pair.1 in m && m[pair.0] != [] && m[pair.1] != []
  }

  function MaxOverlap(m: Matrix, pairs: seq<(string, string)>): (r: real)
    ensures r >= 0.0
  {
    if pairs == [] then 0.0
    else
      var rest, last := MaxOverlap(m, pairs[..|pairs| - 1]), pairs[|pairs| - 1];
      if Counts(m, last) then Max(rest, Overlap(m[last.0], m[last.1])) else rest
  }

  /** A maximum is within a bound exactly when every pair is. */
  lemma {:induction false} MaxOverlapBound(m: Matrix, pairs: seq<(string, string)>, bound: real)
    ensures MaxOverlap(m, pairs) <= bound <==>
      bound >= 0.0 && forall pr :: pr in pairs && Counts(m, pr) ==> Overlap(m[pr.0], m[pr.1]) <= bound
  {
    hide Overlap;
    if pairs != [] {
      var init, last := pairs[..|pairs| - 1], pairs[|pairs| - 1];
      MaxOverlapBound(m, init, bound);
      assert pairs == init + [last];
    }
  }

  /** A positive maximum is the overlap of some pair. */
  lemma {:induction false} MaxOverlapAttained(m: Matrix, pairs: seq<(string, string)>)
    ensures MaxOverlap(m, pairs) == 0.0 || exists pr ::
      pr in pairs && Counts(m, pr) && Overlap(m[pr.0], m[pr.1]) == MaxOverlap(m, pairs)
  {
    hide Overlap;
    if pairs != [] {
      var init, last := pairs[..|pairs| - 1], pairs[|pairs| - 1];
      MaxOverlapAttained(m, init);
      assert pairs == init + [last];
    }
  }

  lemma {:induction false} MaxOverlapConcat(m: Matrix, a: seq<(string, string)>, b: seq<(string, string)>)
    ensures MaxOverlap(m, a + b) == Max(MaxOverlap(m, a), MaxOverlap(m, b))
  {
    hide Overlap;
    if b == [] {
      assert a + b == a;
    } else {
      MaxOverlapConcat(m, a, b[..|b| - 1]);
      assert (a + b)[..|a + b| - 1] == a + b[..|b| - 1];
    }
  }

  method MaxOverlapOf(m: Matrix, pairs: seq<(string, string)>) returns (r: real)
    ensures r == MaxOverlap(m, pairs)
  {
    hide Overlap;
    r := 0.0;
    var i := 0;
    while i < |pairs|
      invariant 0 <= i <= |pairs| && r == MaxOverlap(m, pairs[..i])
    {
      assert pairs[..i + 1][..i] == pairs[..i];
      var (a, b) := pairs[i];
      if a in m && b in m && m[a] != [] && m[b] != [] {
        r := Max(r, Overlap(m[a], m[b]));
      }
      i := i + 1;
    }
    assert pairs[..|pairs|] == pairs;
  }

  /** `check_neighbor_dissimilarity` */
  method CheckNeighborDissimilarity(m: Matrix, adjacency: seq<(string, string)>, maxOverlap: real)
    returns (passes: bool, maxObserved: real)
    ensures passes <==>
      adjacency == [] || (maxOverlap >= 0.0 && forall pr ::
        pr in adjacency && Counts(m, pr) ==> Overlap(m[pr.0], m[pr.1]) <= maxOverlap)
    ensures forall pr :: pr in adjacency && Counts(m, pr) ==> Overlap(m[pr.0], m[pr.1]) <= maxObserved
    ensures maxObserved == 0.0 || exists pr ::
      pr in adjacency && Counts(m, pr) && Overlap(m[pr.0], m[pr.1]) == maxObserved
  {
    hide Overlap, MaxOverlap;
    MaxOverlapBound(m, adjacency, maxOverlap);
    if |adjacency| == 0 {
      return true, 0.0;
    }
    maxObserved := MaxOverlapOf(m, adjacency);
    MaxOverlapBound(m, adjacency, maxObserved);
    MaxOverlapAttained(m, adjacency);
    passes := maxObserved <= maxOverlap;
  }

  // ---------------------------------------------------------------- cross-centre overlaps

  function PairsWith(x: string, ys: seq<string>): seq<(string, string)> {
    if ys == [] then [] else PairsWith(x, ys[..|ys| - 1]) + [(x, ys[|ys| - 1])]
  }

  function Product(xs: seq<string>, ys: seq<string>): seq<(string, string)> {
    if xs == [] then [] else Product(xs[..|xs| - 1], ys) + PairsWith(xs[|xs| - 1], ys)
  }

  /** The first `limit` papers of a centre. */
  function Sampled(papers: seq<string>, limit: nat): seq<string> {
    if |papers| <= limit then papers else papers[..limit]
  }

  /** Pairs of papers of centre i and of the centres i+1, ..., j-1. */
  function PairsAfter(centers: seq<seq<string>>, limit: nat, i: nat, j: nat): seq<(string, string)>
    requires i < j <= |centers|
  {
    if j == i + 1 then []
    else PairsAfter(centers, limit, i, j - 1) + Product(Sampled(centers[i], limit), Sampled(centers[j - 1], limit))
  }

  /** Pairs of papers of two centres, the first among the first n. */
  function CrossPairs(centers: seq<seq<string>>, limit: nat, n: nat): seq<(string, string)>
    requires n <= |centers|
  {
    if n == 0 then []
    else CrossPairs(centers, limit, n - 1) + PairsAfter(centers, limit, n - 1, |centers|)
  }

  lemma {:induction false} PairsWithMembers(x: string, ys: seq<string>, pr: (string, string))
    ensures pr in PairsWith(x, ys) <==> pr.0 == x && pr.1 in ys
  {
    if ys != [] {
      PairsWithMembers(x, ys[..|ys| - 1], pr);
      assert ys == ys[..|ys| - 1] + [ys[|ys| - 1]];
    }
  }

  lemma {:induction false} ProductMembers(xs: seq<string>, ys: seq<string>, pr: (string, string))
    ensures pr in Product(xs, ys) <==> pr.0 in xs && pr.1 in ys
  {
    if xs != [] {
      ProductMembers(xs[..|xs| - 1], ys, pr);
      PairsWithMembers(xs[|xs| - 1], ys, pr);
      assert xs == xs[..|xs| - 1] + [xs[|xs| - 1]];
    }
  }

  ghost predicate Across(centers: seq<seq<string>>, limit: nat, a: nat, b: nat, pr: (string, string))
    requires a < |centers| && b < |centers|
  {
    pr.0 in Sampled(centers[a], limit) && pr.1 in Sampled(centers[b], limit)
  }

  lemma ProductAcross(centers: seq<seq<string>>, limit: nat, a: nat, b: nat, pr: (string, string))
    requires a < |centers| && b < |centers|
    ensures pr in Product(Sampled(centers[a], limit), Sampled(centers[b], limit)) <==> Across(centers, limit, a, b, pr)
  {
    hide Sampled;
    ProductMembers(Sampled(centers[a], limit), Sampled(centers[b], limit), pr);
  }

  lemma {:induction false} PairsAfterMembers(centers: seq<seq<string>>, limit: nat, i: nat, j: nat,
    pr: (string, string))
    requires i < j <= |centers|
    ensures pr in PairsAfter(centers, limit, i, j) <==> exists b :: i < b < j && Across(centers, limit, i, b, pr)
  {
    hide Across, Product, Sampled;
    if j > i + 1 {
      PairsAfterMembers(centers, limit, i, j - 1, pr);
      ProductAcross(centers, limit, i, j - 1, pr);
    }
  }

  /** The scanned pairs are those of sampled papers of two different centres. */
  lemma {:induction false} CrossPairsMembers(centers: seq<seq<string>>, limit: nat, n: nat, pr: (string, string))
    requires n <= |centers|
    ensures pr in CrossPairs(centers, limit, n) <==>
      exists a, b :: 0 <= a < n && a < b < |centers| && Across(centers, limit, a, b, pr)
  {
    hide Across, PairsAfter;
    if n > 0 {
      CrossPairsMembers(centers, limit, n - 1, pr);
      PairsAfterMembers(centers, limit, n - 1, |centers|, pr);
    }
  }

  lemma MaxOverlapPush(m: Matrix, pairs: seq<(string, string)>, last: (string, string))
    ensures MaxOverlap(m, pairs + [last])
         == if Counts(m, last) then Max(MaxOverlap(m, pairs), Overlap(m[last.0], m[last.1])) else MaxOverlap(m, pairs)
  {
    hide Overlap;
    assert (pairs + [last])[..|pairs|] == pairs;
  }

  /** The innermost loop: one paper against all papers of the other centre. */
  method ScanAgainst(m: Matrix, start: real, x: string, papersJ: seq<string>) returns (r: real)
    requires start >= 0.0
    ensures r == Max(start, MaxOverlap(m, PairsWith(x, papersJ)))
  {
    hide Overlap, MaxOverlap;
    r := start;
    var b := 0;
    MaxOverlapNone(m);
    while b < |papersJ|
      invariant 0 <= b <= |papersJ| && r == Max(start, MaxOverlap(m, PairsWith(x, papersJ[..b])))
    {
      assert papersJ[..b + 1][..b] == papersJ[..b];
      MaxOverlapPush(m, PairsWith(x, papersJ[..b]), (x, papersJ[b]));
      if x in m && papersJ[b] in m && m[x] != [] && m[papersJ[b]] != [] {
        r := Max(r, Overlap(m[x], m[papersJ[b]]));
      }
      b := b + 1;
    }
    assert papersJ[..|papersJ|] == papersJ;
  }

  lemma MaxOverlapNone(m: Matrix)
    ensures MaxOverlap(m, []) == 0.0
  {}

  /** The two inner loops over the papers of two centres. */
  method ScanPapers(m: Matrix, start: real, papersI: seq<string>, papersJ: seq<string>) returns (r: real)
    requires start >= 0.0
    ensures r == Max(start, MaxOverlap(m, Product(papersI, papersJ)))
  {
    hide MaxOverlap, PairsWith;
    r := start;
    var a := 0;
    MaxOverlapNone(m);
    while a < |papersI|
      invariant 0 <= a <= |papersI| && r == Max(start, MaxOverlap(m, Product(papersI[..a], papersJ)))
    {
      assert papersI[..a + 1][..a] == papersI[..a];
      MaxOverlapConcat(m, Product(papersI[..a], papersJ), PairsWith(papersI[a], papersJ));
      r := ScanAgainst(m, r, papersI[a], papersJ);
      a := a + 1;
    }
    assert papersI[..|papersI|] == papersI;
  }

  /** One centre against all later ones. */
  method ScanLater(m: Matrix, start: real, centers: seq<seq<string>>, limit: nat, i: nat) returns (r: real)
    requires start >= 0.0 && i < |centers|
    ensures r == Max(start, MaxOverlap(m, PairsAfter(centers, limit, i, |centers|)))
  {
    hide MaxOverlap, Product, Sampled;
    r := start;
    var j := i + 1;
    MaxOverlapNone(m);
    while j < |centers|
      invariant i < j <= |centers| && r == Max(start, MaxOverlap(m, PairsAfter(centers, limit, i, j)))
    {
      var sampleI, sampleJ := Sampled(centers[i], limit), Sampled(centers[j], limit);
      MaxOverlapConcat(m, PairsAfter(centers, limit, i, j), Product(sampleI, sampleJ));
      r := ScanPapers(m, r, sampleI, sampleJ);
      j := j + 1;
    }
  }

  /** The loops over pairs of centres, looking at `limit` papers of each. */
  method ScanCenters(m: Matrix, centers: seq<seq<string>>, limit: nat) returns (r: real)
    ensures r == MaxOverlap(m, CrossPairs(centers, limit, |centers|))
  {
    hide MaxOverlap, PairsAfter;
    r := 0.0;
    var i := 0;
    MaxOverlapNone(m);
    while i < |centers|
      invariant 0 <= i <= |centers| && r == MaxOverlap(m, CrossPairs(centers, limit, i))
    {
      MaxOverlapConcat(m, CrossPairs(centers, limit, i), PairsAfter(centers, limit, i, |centers|));
      r := ScanLater(m, r, centers, limit, i);
      i := i + 1;
    }
  }

  /** Within the bound on every pair of papers, among the first `limit` of each centre, of
      different centres. */
  ghost predicate Dissimilar(m: Matrix, centers: seq<seq<string>>, limit: nat, bound: real) {
    forall a, b, pr :: 0 <= a < b < |centers| && Across(centers, limit, a, b, pr) && Counts(m, pr) ==>
      Overlap(m[pr.0], m[pr.1]) <= bound
  }

  lemma DissimilarBound(m: Matrix, centers: seq<seq<string>>, limit: nat, bound: real)
    ensures MaxOverlap(m, CrossPairs(centers, limit, |centers|)) <= bound <==>
      bound >= 0.0 && Dissimilar(m, centers, limit, bound)
  {
    hide Overlap, MaxOverlap, CrossPairs, Across;
    var pairs := CrossPairs(centers, limit, |centers|);
    MaxOverlapBound(m, pairs, bound);
    forall pr
      ensures pr in pairs <==>
        exists a, b :: 0 <= a < |centers| && a < b < |centers| && Across(centers, limit, a, b, pr)
    {
      CrossPairsMembers(centers, limit, |centers|, pr);
    }
  }

  /** Two papers of different centres overlap by exactly this much. */
  ghost predicate OverlapReached(m: Matrix, centers: seq<seq<string>>, limit: nat, r: real) {
    exists a, b, pr ::
      0 <= a < b < |centers| && Across(centers, limit, a, b, pr) && Counts(m, pr) && Overlap(m[pr.0], m[pr.1]) == r
  }

  lemma CrossOverlapAttained(m: Matrix, centers: seq<seq<string>>, limit: nat)
    ensures var r := MaxOverlap(m, CrossPairs(centers, limit, |centers|));
      r == 0.0 || OverlapReached(m, centers, limit, r)
  {
    hide Overlap, MaxOverlap, CrossPairs, Across;
    var pairs := CrossPairs(centers, limit, |centers|);
    MaxOverlapAttained(m, pairs);
    if MaxOverlap(m, pairs) != 0.0 {
      var pr :| pr in pairs && Counts(m, pr) && Overlap(m[pr.0], m[pr.1]) == MaxOverlap(m, pairs);
      CrossPairsMembers(centers, limit, |centers|, pr);
    }
  }

  function Longest(centers: seq<seq<string>>): (r: nat)
    ensures forall i :: 0 <= i < |centers| ==> |centers[i]| <= r
  {
    if centers == [] then 0
    else
      var rest, last := Longest(centers[..|centers| - 1]), |centers[|centers| - 1]|;
      if rest < last then last else rest
  }

  /** `check_cross_center_dissimilarity`: all papers of every centre. */
  method CheckCrossCenterDissimilarity(m: Matrix, centers: seq<seq<string>>, maxOverlap: real)
    returns (passes: bool, maxObserved: real)
    ensures passes <==> |centers| < 2 || (maxOverlap >= 0.0 && Dissimilar(m, centers, Longest(centers), maxOverlap))
    ensures Dissimilar(m, centers, Longest(centers), maxObserved)
    ensures maxObserved == 0.0 || OverlapReached(m, centers, Longest(centers), maxObserved)
  {
    if |centers| < 2 {
      return true, 0.0;
    }
    hide Overlap, MaxOverlap, CrossPairs, Across;
    DissimilarBound(m, centers, Longest(centers), maxOverlap);
    maxObserved := ScanCenters(m, centers, Longest(centers));
    DissimilarBound(m, centers, Longest(centers), maxObserved);
    CrossOverlapAttained(m, centers, Longest(centers));
    passes := maxObserved <= maxOverlap;
  }

  // ---------------------------------------------------------------- energy

  function DifficultyEnergy(means: seq<real>): real {
    if |means| >= 2 then WEIGHT_DIFFICULTY_VARIANCE * Variance(means) else 0.0
  }

  function Energy(keys: seq<string>, m: Matrix, p: Problem): real
    requires KeysOf(keys, m)
  {
    DifficultyEnergy(PaperMeans(keys, m, p.questions, |keys|))
    + WEIGHT_TOPIC_COVERAGE * TopicPenalty(keys, m, p, |keys|) as real
    + WEIGHT_NEIGHBOR_OVERLAP * Max(0.0, MaxOverlap(m, p.adjacency) - MAX_NEIGHBOR_OVERLAP) * 100.0
    + WEIGHT_CROSS_CENTER_OVERLAP * Max(0.0,
      MaxOverlap(m, CrossPairs(p.centers, SAMPLE, |p.centers|)) - MAX_CROSS_CENTER_OVERLAP) * 100.0
  }

  ghost predicate NeighborsApart(m: Matrix, p: Problem) {
    forall pr :: pr in p.adjacency && Counts(m, pr) ==> Overlap(m[pr.0], m[pr.1]) <= MAX_NEIGHBOR_OVERLAP
  }

  /** How many of the four constraints hold, each said on its own terms; the cross-centre
      one on the first five papers of each centre. */
  ghost function Satisfied(keys: seq<string>, m: Matrix, p: Problem): nat
    requires KeysOf(keys, m)
  {
    (if Balanced(PaperMeans(keys, m, p.questions, |keys|), DIFFICULTY_EPSILON) then 1 else 0)
    + (if Covers(m, p) then 1 else 0)
    + (if NeighborsApart(m, p) then 1 else 0)
    + (if Dissimilar(m, p.centers, SAMPLE, MAX_CROSS_CENTER_OVERLAP) then 1 else 0)
  }

  /** `_compute_energy` */
  method ComputeEnergy(keys: seq<string>, m: Matrix, p: Problem) returns (energy: real, satisfied: nat, total: nat)
    requires KeysOf(keys, m)
    ensures energy == Energy(keys, m, p) && satisfied == Satisfied(keys, m, p) && total == 4
  {
    hide PaperMeans, Balanced, Variance, TopicPenalty, Covers, MaxOverlap, NeighborsApart, Dissimilar, CrossPairs, Mean;
    energy, satisfied, total := 0.0, 0, 4;
    var means := MeanDifficulties(keys, m, p.questions);
    if |means| >= 2 {
      energy := energy + WEIGHT_DIFFICULTY_VARIANCE * Variance(means);
    }
    var balanced := WithinEpsilon(means);
    if balanced {
      satisfied := satisfied + 1;
    }
    var penalty, topicsOk := TopicPart(keys, m, p);
    energy := energy + WEIGHT_TOPIC_COVERAGE * penalty as real;
    if topicsOk {
      satisfied := satisfied + 1;
    }
    var neighbor := MaxOverlapOf(m, p.adjacency);
    NeighborBound(m, p);
    energy := energy + WEIGHT_NEIGHBOR_OVERLAP * Max(0.0, neighbor - MAX_NEIGHBOR_OVERLAP) * 100.0;
    if neighbor <= MAX_NEIGHBOR_OVERLAP {
      satisfied := satisfied + 1;
    }
    var cross := ScanCenters(m, p.centers, SAMPLE);
    DissimilarBound(m, p.centers, SAMPLE, MAX_CROSS_CENTER_OVERLAP);
    energy := energy + WEIGHT_CROSS_CENTER_OVERLAP * Max(0.0, cross - MAX_CROSS_CENTER_OVERLAP) * 100.0;
    if cross <= MAX_CROSS_CENTER_OVERLAP {
      satisfied := satisfied + 1;
    }
  }

  method WithinEpsilon(means: seq<real>) returns (ok: bool)
    ensures ok <==> Balanced(means, DIFFICULTY_EPSILON)
  {
    hide Mean;
    if |means| < 2 {
      return true;
    }
    var maxDev := MaxDeviation(means);
    ok := maxDev <= DIFFICULTY_EPSILON;
  }

  lemma NeighborBound(m: Matrix, p: Problem)
    ensures MaxOverlap(m, p.adjacency) <= MAX_NEIGHBOR_OVERLAP <==> NeighborsApart(m, p)
  {
    hide MaxOverlap, Overlap;
    MaxOverlapBound(m, p.adjacency, MAX_NEIGHBOR_OVERLAP);
  }

  /** The energy never rewards anything: it is zero at least. */
  lemma EnergyNonNegative(keys: seq<string>, m: Matrix, p: Problem)
    requires KeysOf(keys, m)
    ensures Energy(keys, m, p) >= 0.0
  {
    hide PaperMeans, Mean, TopicPenalty, MaxOverlap, CrossPairs;
    var means := PaperMeans(keys, m, p.questions, |keys|);
    if |means| >= 2 {
      SquaresNonNegative(means, Mean(means));
    }
  }

  lemma {:induction false} SquaresNonNegative(s: seq<real>, mean: real)
    ensures SquaredDeviations(s, mean) >= 0.0
  {
    if s != [] {
      SquaresNonNegative(s[..|s| - 1], mean);
      var d := s[|s| - 1] - mean;
      assert d * d >= 0.0;
    }
  }
}
