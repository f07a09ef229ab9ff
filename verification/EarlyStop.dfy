/** When an early stop can leave the returned matrix unconverged: the loop stops because of the
    matrix it is at, and returns the one of least energy. */
module EarlyStop {
  import opened Annealing
  import opened Constraints
  import opened Sequences
  import opened Solver

  // ---------------------------------------------------------------- runs that stop early

  /** The test at the head of the loop. */
  ghost predicate Stops(keys: seq<string>, m: Matrix, p: Problem)
    requires KeysOf(keys, m)
  {
    Satisfied(keys, m, p) == 4 && Energy(keys, m, p) < 0.01
  }

  /** A run that stops at its last matrix and at none before. */
  ghost predicate StopsEarly(keys: seq<string>, r: Run, p: Problem) {
    && Explored(keys, r, p) && Stops(keys, r.current, p)
    && forall n :: 0 <= n < |r.accepted| - 1 ==> !Stops(keys, r.accepted[n], p)
  }

  /** A paper of known questions for every seat, at most n papers of at most s questions. */
  ghost predicate Starts(keys: seq<string>, m: Matrix, p: Problem, n: nat, s: nat) {
    AllKnown(m, p) && AllSeats(keys, p.centers) && |keys| <= n && ShortPapers(m, s)
  }

  ghost predicate Misses(keys: seq<string>, r: Run, p: Problem) {
    StopsEarly(keys, r, p) && Satisfied(keys, r.best, p) != 4
  }

  /** An early stop always returns a converged matrix, on so many papers of so many questions. */
  ghost predicate AlwaysConverges(n: nat, s: nat) {
    forall keys: seq<string>, r: Run, p: Problem :: Starts(keys, r.initial, p, n, s) ==> !Misses(keys, r, p)
  }

  // ---------------------------------------------------------------- papers in a row

  /** The i-th key has the i-th paper. */
  ghost predicate Lies(keys: seq<string>, m: Matrix, papers: seq<seq<string>>) {
    KeysOf(keys, m) && |papers| == |keys| && forall i :: 0 <= i < |keys| ==> m[keys[i]] == papers[i]
  }

  lemma {:induction false} Lay(keys: seq<string>, papers: seq<seq<string>>) returns (m: Matrix)
    requires |papers| == |keys| && Distinct(keys)
    ensures Lies(keys, m, papers)
  {
    if keys == [] {
      m := map[];
    } else {
      var n := |keys| - 1;
      DistinctInit(keys);
      m := Lay(keys[..n], papers[..n]);
      assert keys == keys[..n] + [keys[n]];
      m := m[keys[n] := papers[n]];
    }
  }

  /** Question a of paper i exchanged with question b of paper j. */
  function Exchanged(papers: seq<seq<string>>, i: nat, a: nat, j: nat, b: nat): seq<seq<string>>
    requires i < |papers| && j < |papers| && a < |papers[i]| && b < |papers[j]|
  {
    papers[i := papers[i][a := papers[j][b]]][j := papers[j][b := papers[i][a]]]
  }

  lemma LiesSwapped(keys: seq<string>, m: Matrix, papers: seq<seq<string>>, i: nat, a: nat, j: nat, b: nat)
    requires Lies(keys, m, papers) && i < |papers| && j < |papers| && i != j && a < |papers[i]| && b < |papers[j]|
    ensures var e := Exchange(keys[i], a, keys[j], b);
            && ValidMove(m, e) && IsSwap(m, Swapped(m, e))
            && Lies(keys, Swapped(m, e), Exchanged(papers, i, a, j, b))
  {
    var e := Exchange(keys[i], a, keys[j], b);
    assert keys[i] in m && keys[j] in m && keys[i] != keys[j];
    assert ValidMove(m, e);
  }

  // ---------------------------------------------------------------- one topic

  ghost predicate OnTopic(qids: seq<string>, p: Problem) {
    forall q :: q in qids ==> q in p.questions && p.questions[q].topic == "topic"
  }

  /** All questions known, on one topic, and r of them on every paper; no adjacent seats. */
  ghost predicate OnOneTopic(papers: seq<seq<string>>, p: Problem, r: nat) {
    && p.blueprint == [("topic", r)] && p.adjacency == []
    && forall i :: 0 <= i < |papers| ==> |papers[i]| == r && OnTopic(papers[i], p)
  }

  lemma PaperOnTopic(qids: seq<string>, p: Problem, r: nat)
    requires p.blueprint == [("topic", r)] && |qids| == r && OnTopic(qids, p)
    ensures PaperCovers(qids, p) && forall i :: 0 <= i < |qids| ==> qids[i] in p.questions
  {
    CountOfOneTopic(qids, p.questions, "topic", "topic");
  }

  lemma OneTopicCovers(keys: seq<string>, m: Matrix, papers: seq<seq<string>>, p: Problem, r: nat)
    requires Lies(keys, m, papers) && OnOneTopic(papers, p, r)
    ensures Covers(m, p) && AllKnown(m, p) && NeighborsApart(m, p) && ShortPapers(m, r)
  {
    hide PaperCovers, OnTopic;
    forall k | k in m
      ensures PaperCovers(m[k], p) && |m[k]| <= r && forall i :: 0 <= i < |m[k]| ==> m[k][i] in p.questions
    {
      var i :| 0 <= i < |keys| && keys[i] == k;
      PaperOnTopic(papers[i], p, r);
    }
  }

  lemma {:induction false} CoveredFree(keys: seq<string>, m: Matrix, p: Problem, n: nat)
    requires n <= |keys| && KeysOf(keys, m) && Covers(m, p)
    ensures TopicPenalty(keys, m, p, n) == 0
  {
    hide PaperPenalty, PaperCovers;
    if n > 0 {
      CoveredFree(keys, m, p, n - 1);
      PenaltyFree(m[keys[n - 1]], p);
    }
  }

  function CrossOverlap(m: Matrix, p: Problem): real {
    MaxOverlap(m, CrossPairs(p.centers, SAMPLE, |p.centers|))
  }

  /** On such papers the energy is that of the difficulties and of the cross-centre overlap. */
  lemma EnergyOfTwo(keys: seq<string>, m: Matrix, p: Problem)
    requires KeysOf(keys, m) && Covers(m, p) && p.adjacency == []
    ensures Energy(keys, m, p) ==
      DifficultyEnergy(PaperMeans(keys, m, p.questions, |keys|))
        + 200.0 * Max(0.0, CrossOverlap(m, p) - MAX_CROSS_CENTER_OVERLAP)
  {
    CoveredFree(keys, m, p, |keys|);
    NoPairs(m);
    hide KeysOf, Covers, PaperMeans, CrossPairs, MaxOverlap, DifficultyEnergy, TopicPenalty;
  }

  lemma NoPairs(m: Matrix)
    ensures MaxOverlap(m, []) == 0.0
  {}

  /** The mean difficulties, given the difficulties of each paper. */
  lemma {:induction false} MeansAre(keys: seq<string>, m: Matrix, questions: map<string, Question>,
    ds: seq<seq<real>>, n: nat)
    requires n <= |keys| == |ds| && KeysOf(keys, m)
    requires forall i :: 0 <= i < |ds| ==> ds[i] != [] && Difficulties(m[keys[i]], questions) == ds[i]
    ensures |PaperMeans(keys, m, questions, n)| == n
    ensures forall i :: 0 <= i < n ==> PaperMeans(keys, m, questions, n)[i] == Mean(ds[i])
  {
    hide Difficulties, Mean;
    if n > 0 {
      MeansAre(keys, m, questions, ds, n - 1);
    }
  }

  // ---------------------------------------------------------------- 24 papers

  const DIFFICULTY: map<string, Question> := map[
    "a" := Question("topic", 0.3126), "b" := Question("topic", 0.001), "c" := Question("topic", 0.02),
    "d" := Question("topic", -0.02), "y" := Question("topic", 0.0), "z" := Question("topic", 0.0)]

  /** The questions by name, with their difficulties. */
  lemma Bank()
    ensures forall q :: q in DIFFICULTY ==> DIFFICULTY[q].topic == "topic"
    ensures "a" in DIFFICULTY && DIFFICULTY["a"].difficultyB == 0.3126
    ensures "b" in DIFFICULTY && DIFFICULTY["b"].difficultyB == 0.001
    ensures "c" in DIFFICULTY && DIFFICULTY["c"].difficultyB == 0.02
    ensures "d" in DIFFICULTY && DIFFICULTY["d"].difficultyB == -0.02
    ensures "y" in DIFFICULTY && DIFFICULTY["y"].difficultyB == 0.0
    ensures "z" in DIFFICULTY && DIFFICULTY["z"].difficultyB == 0.0
  {}

  function InOneCenter(keys: seq<string>): Problem { Problem(DIFFICULTY, [("topic", 2)], [], [keys]) }

  function Pair(u: string, v: string): seq<string> { [u, v] }

  /** Four papers in front of twenty easy ones. */
  function Papers(a: seq<string>, b: seq<string>, c: seq<string>, d: seq<string>): (papers: seq<seq<string>>)
    ensures |papers| == 24 && papers[0] == a && papers[1] == b && papers[2] == c && papers[3] == d
    ensures forall i :: 4 <= i < 24 ==> papers[i] == Pair("y", "z")
  {
    [a, b, c, d] + seq(20, _ => Pair("y", "z"))
  }

  lemma PairDifficulties(u: string, v: string)
    requires u in DIFFICULTY && v in DIFFICULTY
    ensures var x, y := DIFFICULTY[u].difficultyB, DIFFICULTY[v].difficultyB;
            Difficulties(Pair(u, v), DIFFICULTY) == [x, y] && Mean([x, y]) == (x + y) / 2.0
  {
    hide DIFFICULTY;
    var x, y := DIFFICULTY[u].difficultyB, DIFFICULTY[v].difficultyB;
    assert Pair(u, v)[..1] == [u] && [u][..0] == [] && [x, y][..1] == [x] && [x][..0] == [];
    assert Difficulties([u], DIFFICULTY) == [x] && Sum([x]) == x;
  }

  /** Paper i has a pair of known questions whose mean difficulty is the i-th mean. */
  ghost predicate HasMean(qids: seq<string>, mean: real) {
    exists u, v :: u in DIFFICULTY && v in DIFFICULTY && qids == Pair(u, v)
      && mean == (DIFFICULTY[u].difficultyB + DIFFICULTY[v].difficultyB) / 2.0
  }

  lemma PairHasMean(u: string, v: string, mean: real)
    requires u in DIFFICULTY && v in DIFFICULTY && mean == (DIFFICULTY[u].difficultyB + DIFFICULTY[v].difficultyB) / 2.0
    ensures HasMean(Pair(u, v), mean)
  {
    hide DIFFICULTY;
  }

  lemma MeanOfPair(qids: seq<string>, p: Problem, mean: real)
    requires HasMean(qids, mean) && p.questions == DIFFICULTY
    ensures |qids| == 2 && OnTopic(qids, p) && Difficulties(qids, DIFFICULTY) != []
      && Mean(Difficulties(qids, DIFFICULTY)) == mean
  {
    Bank();
    hide DIFFICULTY;
    var u, v :| u in DIFFICULTY && v in DIFFICULTY && qids == Pair(u, v)
      && mean == (DIFFICULTY[u].difficultyB + DIFFICULTY[v].difficultyB) / 2.0;
    PairDifficulties(u, v);
  }

  lemma PaperMeansAre(keys: seq<string>, m: Matrix, papers: seq<seq<string>>, means: seq<real>)
    requires Lies(keys, m, papers) && |means| == |keys| && forall i :: 0 <= i < |keys| ==> HasMean(papers[i], means[i])
    ensures OnOneTopic(papers, InOneCenter(keys), 2) && PaperMeans(keys, m, DIFFICULTY, |keys|) == means
  {
    hide HasMean, DIFFICULTY, OnTopic, Mean, Difficulties;
    var p := InOneCenter(keys);
    var ds := seq(|keys|, i requires 0 <= i < |keys| => Difficulties(papers[i], DIFFICULTY));
    forall i | 0 <= i < |keys|
      ensures |papers[i]| == 2 && OnTopic(papers[i], p) && ds[i] != [] && Mean(ds[i]) == means[i]
    {
      MeanOfPair(papers[i], p, means[i]);
    }
    MeansAre(keys, m, DIFFICULTY, ds, |keys|);
  }

  function Zeros(n: nat): (s: seq<real>)
    ensures |s| == n && forall i :: 0 <= i < n ==> s[i] == 0.0
  {
    seq(n, _ => 0.0)
  }

  function FourMeans(u: real, v: real, w: real, x: real): (means: seq<real>)
    ensures |means| == 24 && means[0] == u && means[1] == v && means[2] == w && means[3] == x
    ensures forall i :: 4 <= i < 24 ==> means[i] == 0.0
  {
    [u, v, w, x] + Zeros(20)
  }

  lemma {:induction false} ZerosAdd(s: seq<real>, n: nat, mean: real)
    ensures Sum(s + Zeros(n)) == Sum(s)
    ensures SquaredDeviations(s + Zeros(n), mean) == SquaredDeviations(s, mean) + Prod(n as real, Square(mean))
  {
    if n == 0 {
      assert s + Zeros(0) == s;
    } else {
      ZerosAdd(s, n - 1, mean);
      assert (s + Zeros(n))[..|s| + n - 1] == s + Zeros(n - 1) && (s + Zeros(n))[|s| + n - 1] == 0.0;
      SameSquare(mean, 0.0 - mean);
      OneMore(n as real, Square(mean));
      assert SquaredDeviations(s + Zeros(n), mean) == SquaredDeviations(s + Zeros(n - 1), mean) + Square(0.0 - mean);
    }
  }

  lemma OneMore(n: real, x: real)
    ensures Prod(n, x) == Prod(n - 1.0, x) + x
  {}

  lemma FourSums(u: real, v: real, w: real, x: real, mean: real)
    ensures Sum([u, v, w, x]) == u + v + w + x
    ensures SquaredDeviations([u, v, w, x], mean) ==
      Square(u - mean) + Square(v - mean) + Square(w - mean) + Square(x - mean)
  {
    OneOnly(u, mean);
    assert [u][..0] == [] && Sum([u]) == u;
    Snoc([u], v, mean);
    Snoc([u, v], w, mean);
    Snoc([u, v, w], x, mean);
    assert [u] + [v] == [u, v] && [u, v] + [w] == [u, v, w] && [u, v, w] + [x] == [u, v, w, x];
  }

  lemma Snoc(s: seq<real>, x: real, mean: real)
    ensures Sum(s + [x]) == Sum(s) + x
    ensures SquaredDeviations(s + [x], mean) == SquaredDeviations(s, mean) + Square(x - mean)
  {
    assert (s + [x])[..|s|] == s;
  }

  const CENTRE: real := 0.1568 / 24.0

  function Squares(u: real, v: real, w: real, x: real): real {
    Square(u - CENTRE) + Square(v - CENTRE) + Square(w - CENTRE) + Square(x - CENTRE) + Prod(20.0, Square(CENTRE))
  }

  lemma VarianceOf(u: real, v: real, w: real, x: real)
    requires u + v + w + x == 0.1568
    ensures var means := FourMeans(u, v, w, x);
      Mean(means) == CENTRE && DifficultyEnergy(means) == 10.0 * (Squares(u, v, w, x) / 24.0)
  {
    ZerosAdd([u, v, w, x], 20, CENTRE);
    FourSums(u, v, w, x, CENTRE);
    hide Square, Prod;
  }

  /** The three states' figures. */
  lemma Numbers()
    ensures 10.0 * (Squares(0.1568, 0.0, 0.0, 0.0) / 24.0) < 0.00982
    ensures 10.0 * (Squares(0.1568, 0.0, 0.01, -0.01) / 24.0) > 0.00982
    ensures 0.00982 < 10.0 * (Squares(0.1563, 0.0005, 0.01, -0.01) / 24.0) < 0.01
  {}

  lemma OneCenterApart(m: Matrix, p: Problem)
    requires |p.centers| == 1
    ensures CrossOverlap(m, p) == 0.0 && Dissimilar(m, p.centers, SAMPLE, MAX_CROSS_CENTER_OVERLAP)
  {
    hide MaxOverlap, CrossPairs, Overlap;
    DissimilarBound(m, p.centers, SAMPLE, 0.0);
  }

  /** On pairs in one centre only the difficulties count. */
  lemma StateOf(keys: seq<string>, m: Matrix, papers: seq<seq<string>>, u: real, v: real, w: real, x: real)
    requires Lies(keys, m, papers) && |keys| == 24 && u + v + w + x == 0.1568
    requires forall i :: 0 <= i < 24 ==> HasMean(papers[i], FourMeans(u, v, w, x)[i])
    ensures var p := InOneCenter(keys);
            && OnOneTopic(papers, p, 2) && KeysOf(keys, m)
            && Energy(keys, m, p) == 10.0 * (Squares(u, v, w, x) / 24.0)
            && (Satisfied(keys, m, p) == 4 <==> Balanced(FourMeans(u, v, w, x), DIFFICULTY_EPSILON))
  {
    var p := InOneCenter(keys);
    PaperMeansAre(keys, m, papers, FourMeans(u, v, w, x));
    OneTopicCovers(keys, m, papers, p, 2);
    EnergyOfTwo(keys, m, p);
    OneCenterApart(m, p);
    VarianceOf(u, v, w, x);
    hide HasMean, DIFFICULTY, OnOneTopic, Covers, NeighborsApart, Dissimilar, Balanced, Energy, FourMeans, Squares,
      CrossOverlap,
      DifficultyEnergy, PaperMeans;
  }

  lemma Unbalanced(w: real, x: real)
    requires w + x == 0.0
    ensures !Balanced(FourMeans(0.1568, 0.0, w, x), DIFFICULTY_EPSILON)
  {
    VarianceOf(0.1568, 0.0, w, x);
    hide FourMeans, Mean;
    assert Abs(FourMeans(0.1568, 0.0, w, x)[0] - CENTRE) > DIFFICULTY_EPSILON;
  }

  lemma NowBalanced()
    ensures Balanced(FourMeans(0.1563, 0.0005, 0.01, -0.01), DIFFICULTY_EPSILON)
  {
    VarianceOf(0.1563, 0.0005, 0.01, -0.01);
    hide FourMeans, Mean;
    var means := FourMeans(0.1563, 0.0005, 0.01, -0.01);
    forall i | 0 <= i < |means|
      ensures Abs(means[i] - CENTRE) <= DIFFICULTY_EPSILON
    {
      if i >= 4 { assert means[i] == 0.0; }
    }
  }

  function First(): (p: seq<seq<string>>)
    ensures |p| == 24
  {
    Papers(Pair("a", "b"), Pair("y", "z"), Pair("c", "d"), Pair("y", "z"))
  }

  function Second(): (p: seq<seq<string>>)
    ensures |p| == 24
  {
    Papers(Pair("a", "b"), Pair("y", "z"), Pair("c", "y"), Pair("d", "z"))
  }

  function Third(): (p: seq<seq<string>>)
    ensures |p| == 24
  {
    Papers(Pair("a", "y"), Pair("b", "z"), Pair("c", "y"), Pair("d", "z"))
  }

  lemma Moves()
    ensures forall i :: 0 <= i < 4 ==> |First()[i]| == 2 && |Second()[i]| == 2
    ensures Exchanged(First(), 2, 1, 3, 0) == Second() && Exchanged(Second(), 0, 1, 1, 0) == Third()
  {
    assert Pair("c", "d")[1 := "y"] == Pair("c", "y") && Pair("y", "z")[0 := "d"] == Pair("d", "z");
    assert Pair("a", "b")[1 := "y"] == Pair("a", "y") && Pair("y", "z")[0 := "b"] == Pair("b", "z");
    hide Pair, Papers;
    PairLengths();
  }

  lemma PairLengths()
    ensures forall u, v :: |Pair(u, v)| == 2 && Pair(u, v)[0] == u && Pair(u, v)[1] == v
  {}

  lemma MeansOfStates()
    ensures forall i :: 0 <= i < 24 ==> HasMean(First()[i], FourMeans(0.1568, 0.0, 0.0, 0.0)[i])
    ensures forall i :: 0 <= i < 24 ==> HasMean(Second()[i], FourMeans(0.1568, 0.0, 0.01, -0.01)[i])
    ensures forall i :: 0 <= i < 24 ==> HasMean(Third()[i], FourMeans(0.1563, 0.0005, 0.01, -0.01)[i])
  {
    Bank();
    hide DIFFICULTY, HasMean, FourMeans, Papers, Pair;
    PairHasMean("a", "b", 0.1568); PairHasMean("y", "z", 0.0); PairHasMean("c", "d", 0.0);
    PairHasMean("c", "y", 0.01); PairHasMean("d", "z", -0.01);
    PairHasMean("a", "y", 0.1563); PairHasMean("b", "z", 0.0005);
  }

  /** 24 papers of two questions in one centre: the hard paper is out of balance, an unrelated
      move raises the energy a little, the next one restores balance and stops the loop, and
      the initial matrix, still the best, is returned. */
  lemma MissesOn24(keys: seq<string>) returns (r: Run)
    requires |keys| == 24 && Distinct(keys)
    ensures Misses(keys, r, InOneCenter(keys)) && Starts(keys, r.initial, InOneCenter(keys), 24, 2)
  {
    hide HasMean, FourMeans, First, Second, Third, Energy, Satisfied, Balanced, Squares, Exchanged, Lies, IsSwap,
      InOneCenter, Swapped;
    Moves();
    MeansOfStates();
    Numbers();
    var m := Lay(keys, First());
    var e, f := Exchange(keys[2], 1, keys[3], 0), Exchange(keys[0], 1, keys[1], 0);
    LiesSwapped(keys, m, First(), 2, 1, 3, 0);
    LiesSwapped(keys, Swapped(m, e), Second(), 0, 1, 1, 0);
    StateOf(keys, m, First(), 0.1568, 0.0, 0.0, 0.0);
    StateOf(keys, Swapped(m, e), Second(), 0.1568, 0.0, 0.01, -0.01);
    StateOf(keys, Swapped(Swapped(m, e), f), Third(), 0.1563, 0.0005, 0.01, -0.01);
    Unbalanced(0.0, 0.0);
    Unbalanced(0.01, -0.01);
    NowBalanced();
    OneTopicCovers(keys, m, First(), InOneCenter(keys), 2);
    OneCenterSeats(keys);
    r := Run([m, Swapped(m, e), Swapped(Swapped(m, e), f)], m, Swapped(Swapped(m, e), f), m);
    RunOfThree(keys, m, Swapped(m, e), Swapped(Swapped(m, e), f), InOneCenter(keys));
  }

  lemma OneCenterSeats(keys: seq<string>)
    ensures AllSeats(keys, InOneCenter(keys).centers)
  {
    forall k
      ensures k in keys <==> InSomeCenter([keys], 1, k)
    {
      assert [keys][0] == keys;
    }
  }

  lemma RunOfThree(keys: seq<string>, m: Matrix, m': Matrix, m'': Matrix, p: Problem)
    requires KeysOf(keys, m) && KeysOf(keys, m') && KeysOf(keys, m'') && IsSwap(m, m') && IsSwap(m', m'')
    requires Satisfied(keys, m, p) != 4 && Satisfied(keys, m', p) != 4 && Satisfied(keys, m'', p) == 4
    requires Energy(keys, m, p) <= Energy(keys, m', p) && Energy(keys, m, p) <= Energy(keys, m'', p) < 0.01
    ensures Misses(keys, Run([m, m', m''], m, m'', m), p)
  {
    hide Satisfied, Energy, IsSwap, KeysOf;
  }

  // ---------------------------------------------------------------- 1013 questions

  /** The i-th of many questions. */
  function Q(i: nat): string { seq(i + 1, _ => 'q') }

  lemma QLength(i: nat)
    ensures |Q(i)| == i + 1
  {}

  function Numbered(xs: seq<nat>): (qids: seq<string>)
    ensures |qids| == |xs| && forall i :: 0 <= i < |xs| ==> qids[i] == Q(xs[i])
  {
    seq(|xs|, i requires 0 <= i < |xs| => Q(xs[i]))
  }

  const HARD: nat := 1500
  const EASY: nat := 1501

  /** One question is much harder than the rest and one much easier. */
  function D(i: nat): real { if i == HARD then 32.0 else if i == EASY then -32.0 else 0.0 }

  function Many(): (questions: map<string, Question>)
    ensures forall i: nat :: i < 1874 ==> Q(i) in questions && questions[Q(i)] == Question("topic", D(i))
  {
    forall i: nat | i < 1874
      ensures |Q(i)| == i + 1
    {
      QLength(i);
    }
    map q | q in (set i: nat | i < 1874 :: Q(i)) :: Question("topic", D(|q| - 1))
  }

  function InTwoCenters(k: string, l: string): Problem { Problem(Many(), [("topic", 1013)], [], [[k], [l]]) }

  /** The two papers share the questions from 861 to 1012. */
  function Lower(): (xs: seq<nat>)
    ensures |xs| == 1013 && forall i :: 0 <= i < 1013 ==> xs[i] == i
  {
    seq(1013, i requires 0 <= i < 1013 => i)
  }

  function Upper(): (xs: seq<nat>)
    ensures |xs| == 1013 && forall i :: 0 <= i < 1013 ==> xs[i] == 861 + i
  {
    seq(1013, i requires 0 <= i < 1013 => 861 + i)
  }

  /** Question 861 of the first paper exchanged with question 1500 of the second. */
  function Lower2(): (xs: seq<nat>)
    ensures |xs| == 1013
  {
    Lower()[861 := HARD]
  }

  function Upper2(): (xs: seq<nat>)
    ensures |xs| == 1013
  {
    Upper()[639 := 861]
  }

  lemma {:induction false} DifficultiesAre(xs: seq<nat>)
    requires forall i :: 0 <= i < |xs| ==> xs[i] < 1874
    ensures |Difficulties(Numbered(xs), Many())| == |xs|
    ensures forall i :: 0 <= i < |xs| ==> Difficulties(Numbered(xs), Many())[i] == D(xs[i])
  {
    hide Many, Q, D;
    if xs != [] {
      var n := |xs| - 1;
      DifficultiesAre(xs[..n]);
      assert Numbered(xs)[..n] == Numbered(xs[..n]);
      assert Numbered(xs)[n] == Q(xs[n]);
    }
  }

  lemma {:induction false} SumUpdate(s: seq<real>, i: nat, x: real)
    requires i < |s|
    ensures Sum(s[i := x]) == Sum(s) - s[i] + x
  {
    var n := |s| - 1;
    if i < n {
      SumUpdate(s[..n], i, x);
      assert s[i := x][..n] == s[..n][i := x];
    } else {
      assert s[i := x][..n] == s[..n];
    }
  }

  /** The mean of 1013 values of which all but the given ones are zero. */
  lemma MeanOfZeros(s: seq<real>, i: nat, x: real, j: nat, y: real)
    requires |s| == 1013 && i < j < 1013 && s[i] == x && s[j] == y
    requires forall k :: 0 <= k < 1013 && k != i && k != j ==> s[k] == 0.0
    ensures Mean(s) == (x + y) / 1013.0
  {
    var zeros := Zeros(1013);
    SumOfZeros(zeros);
    SumUpdate(zeros, i, x);
    SumUpdate(zeros[i := x], j, y);
    assert s == zeros[i := x][j := y];
  }

  /** A paper of 1013 known questions with a given mean difficulty. */
  ghost predicate MeanIs(xs: seq<nat>, u: real) {
    && |xs| == 1013 && OnTopic(Numbered(xs), Problem(Many(), [], [], []))
    && Difficulties(Numbered(xs), Many()) != [] && Mean(Difficulties(Numbered(xs), Many())) == u
  }

  lemma MeanOf(xs: seq<nat>, i: nat, j: nat)
    requires |xs| == 1013 && i < j < 1013 && forall k :: 0 <= k < 1013 ==> xs[k] < 1874
    requires forall k :: 0 <= k < 1013 && k != i && k != j ==> D(xs[k]) == 0.0
    ensures MeanIs(xs, (D(xs[i]) + D(xs[j])) / 1013.0)
  {
    DifficultiesAre(xs);
    KnownTopic(xs);
    hide Many, Q, D, Mean, Difficulties, OnTopic;
    MeanOfZeros(Difficulties(Numbered(xs), Many()), i, D(xs[i]), j, D(xs[j]));
  }

  lemma KnownTopic(xs: seq<nat>)
    requires forall i :: 0 <= i < |xs| ==> xs[i] < 1874
    ensures OnTopic(Numbered(xs), Problem(Many(), [], [], []))
  {
    hide Many, Q;
  }

  /** The mean difficulties before and after. */
  lemma MeansOfFour()
    ensures MeanIs(Lower(), 0.0) && MeanIs(Upper(), 0.0)
    ensures MeanIs(Lower2(), 32.0 / 1013.0) && MeanIs(Upper2(), -32.0 / 1013.0)
  {
    hide MeanIs;
    MeanOf(Lower(), 0, 1);
    MeanOf(Upper(), 639, 640);
    MeanOf(Lower2(), 0, 861);
    MeanOf(Upper2(), 0, 640);
  }

  // ---------------------------------------------------------------- their overlaps

  lemma {:induction false} QSetSize(xs: seq<nat>)
    requires Distinct(xs)
    ensures |ToSet(Numbered(xs))| == |xs|
  {
    var qids := Numbered(xs);
    forall i, j | 0 <= i < j < |xs|
      ensures qids[i] != qids[j]
    {
      QLength(xs[i]);
      QLength(xs[j]);
    }
    SetSize(qids);
  }

  function Stretch(from: nat, n: nat): (xs: seq<nat>)
    ensures |xs| == n && forall i :: 0 <= i < n ==> xs[i] == from + i
  {
    seq(n, i requires 0 <= i < n => from + i)
  }

  lemma InQuestions(xs: seq<nat>, q: string)
    ensures q in ToSet(Numbered(xs)) <==> |q| >= 1 && q == Q(|q| - 1) && (|q| - 1) in xs
  {
    var qids := Numbered(xs);
    if q in qids {
      var i :| 0 <= i < |xs| && qids[i] == q;
      QLength(xs[i]);
    }
    if |q| >= 1 && q == Q(|q| - 1) && (|q| - 1) in xs {
      var i :| 0 <= i < |xs| && xs[i] == |q| - 1;
      assert qids[i] == q;
    }
  }

  lemma InRun(from: nat, n: nat, x: nat)
    ensures x in Stretch(from, n) <==> from <= x < from + n
  {
    if from <= x < from + n {
      assert Stretch(from, n)[x - from] == x;
    }
  }

  lemma Shared(xs: seq<nat>, ys: seq<nat>, from: nat, n: nat)
    requires forall x: nat :: x in xs && x in ys ==> from <= x < from + n
    ensures |ToSet(Numbered(xs)) * ToSet(Numbered(ys))| <= n
    ensures (forall x: nat :: from <= x < from + n ==> x in xs && x in ys) ==>
      |ToSet(Numbered(xs)) * ToSet(Numbered(ys))| == n
  {
    hide Q, Numbered, Stretch;
    var common, run := ToSet(Numbered(xs)) * ToSet(Numbered(ys)), ToSet(Numbered(Stretch(from, n)));
    QSetSize(Stretch(from, n));
    forall q | q in common
      ensures q in run
    {
      InQuestions(xs, q); InQuestions(ys, q); InQuestions(Stretch(from, n), q);
      InRun(from, n, |q| - 1);
    }
    NoLarger(common, run);
    if forall x: nat :: from <= x < from + n ==> x in xs && x in ys {
      forall q | q in run
        ensures q in common
      {
        InQuestions(xs, q); InQuestions(ys, q); InQuestions(Stretch(from, n), q);
        InRun(from, n, |q| - 1);
      }
      assert common == run;
    }
  }

  lemma NoLarger(a: set<string>, b: set<string>)
    requires a <= b
    ensures |a| <= |b|
  {
    assert b == a + (b - a);
  }

  lemma OverlapOf(a: seq<string>, b: seq<string>, c: nat)
    requires |a| == |b| == 1013 && |ToSet(a)| == 1013 && |ToSet(a) * ToSet(b)| <= c
    ensures Overlap(a, b) <= c as real / 1013.0
    ensures |ToSet(a) * ToSet(b)| == c ==> Overlap(a, b) == c as real / 1013.0
  {
    SetSize(b);
  }

  lemma Overlaps()
    ensures Overlap(Numbered(Lower()), Numbered(Upper())) == 152.0 / 1013.0
    ensures Overlap(Numbered(Lower2()), Numbered(Upper2())) <= 151.0 / 1013.0
  {
    QSetSize(Lower());
    QSetSize(Lower2());
    hide Numbered, Q, Overlap;
    forall x: nat | 861 <= x < 1013
      ensures x in Lower() && x in Upper()
    {
      assert Lower()[x] == x && Upper()[x - 861] == x;
    }
    Shared(Lower(), Upper(), 861, 152);
    OverlapOf(Numbered(Lower()), Numbered(Upper()), 152);
    Shared(Lower2(), Upper2(), 862, 151);
    OverlapOf(Numbered(Lower2()), Numbered(Upper2()), 151);
  }

  // ---------------------------------------------------------------- two papers

  /** With one paper in each of two centres the cross-centre overlap is theirs. */
  lemma CrossOfTwo(keys: seq<string>, m: Matrix, p: Problem)
    requires |keys| == 2 && KeysOf(keys, m) && p.centers == [[keys[0]], [keys[1]]] && m[keys[0]] != []
      && m[keys[1]] != []
    requires Overlap(m[keys[0]], m[keys[1]]) >= 0.0
    ensures CrossOverlap(m, p) <= Overlap(m[keys[0]], m[keys[1]])
    ensures Dissimilar(m, p.centers, SAMPLE, MAX_CROSS_CENTER_OVERLAP) <==>
      Overlap(m[keys[0]], m[keys[1]]) <= MAX_CROSS_CENTER_OVERLAP
  {
    hide MaxOverlap, CrossPairs, Overlap;
    var o := Overlap(m[keys[0]], m[keys[1]]);
    DissimilarBound(m, p.centers, SAMPLE, o);
    assert Across(p.centers, SAMPLE, 0, 1, (keys[0], keys[1])) && Counts(m, (keys[0], keys[1]));
    forall a, b, pr | 0 <= a < b < |p.centers| && Across(p.centers, SAMPLE, a, b, pr)
      ensures pr == (keys[0], keys[1])
    {
      assert a == 0 && b == 1;
    }
  }

  lemma TwoMeans(u: real, v: real)
    requires u + v == 0.0
    ensures Mean([u, v]) == 0.0 && DifficultyEnergy([u, v]) == 10.0 * (2.0 * Square(u) / 2.0)
    ensures Balanced([u, v], DIFFICULTY_EPSILON) <==> Abs(u) <= DIFFICULTY_EPSILON
  {
    OneOnly(u, 0.0);
    Snoc([u], v, 0.0);
    assert [u][..0] == [] && Sum([u]) == u && [u] + [v] == [u, v];
    SameSquare(u, v);
    hide Square;
    var s := [u, v];
    assert Mean(s) == 0.0 && Variance(s) == 2.0 * Square(u) / 2.0;
    assert s[0] == u && s[1] == v;
  }

  /** The state of two such papers with opposite means. */
  lemma StateOfTwo(keys: seq<string>, m: Matrix, xs: seq<nat>, ys: seq<nat>, u: real)
    requires Distinct(keys) && |keys| == 2 && Lies(keys, m, [Numbered(xs), Numbered(ys)]) && |xs| == |ys| == 1013
    requires MeanIs(xs, u) && MeanIs(ys, -u)
    requires Overlap(Numbered(xs), Numbered(ys)) >= 0.0
    ensures var p, o := InTwoCenters(keys[0], keys[1]), Overlap(Numbered(xs), Numbered(ys));
            && OnOneTopic([Numbered(xs), Numbered(ys)], p, 1013) && KeysOf(keys, m)
            && 10.0 * Square(u) <= Energy(keys, m, p) <= 10.0 * Square(u)
              + 200.0 * Max(0.0, o - MAX_CROSS_CENTER_OVERLAP)
            && (Satisfied(keys, m, p) == 4 <==> Abs(u) <= DIFFICULTY_EPSILON && o <= MAX_CROSS_CENTER_OVERLAP)
  {
    hide Numbered, Many, MeanIs, Overlap, Square, PaperMeans, Balanced, Covers, NeighborsApart, Dissimilar, Energy,
      DifficultyEnergy,
      CrossOverlap, OnOneTopic, Lies, KeysOf, AllKnown, ShortPapers, Distinct;
    var p, a, b := InTwoCenters(keys[0], keys[1]), Numbered(xs), Numbered(ys);
    TwoLie(keys, m, a, b);
    TopicOfTwo(xs, ys, u, p);
    MeansOfTwo(keys, m, xs, ys, u);
    OneTopicCovers(keys, m, [a, b], p, 1013);
    EnergyOfTwo(keys, m, p);
    CrossOfTwo(keys, m, p);
    TwoMeans(u, -u);
  }

  lemma TwoLie(keys: seq<string>, m: Matrix, a: seq<string>, b: seq<string>)
    requires |keys| == 2 && Lies(keys, m, [a, b])
    ensures KeysOf(keys, m) && keys[0] in m && keys[1] in m && m[keys[0]] == a && m[keys[1]] == b
  {
    assert [a, b][0] == a && [a, b][1] == b;
  }

  lemma TopicOfTwo(xs: seq<nat>, ys: seq<nat>, u: real, p: Problem)
    requires MeanIs(xs, u) && MeanIs(ys, -u)
    requires p.questions == Many() && p.blueprint == [("topic", 1013)] && p.adjacency == []
    ensures OnOneTopic([Numbered(xs), Numbered(ys)], p, 1013)
  {
    hide Numbered, Many, Difficulties, Mean;
  }

  lemma MeanFacts(xs: seq<nat>, u: real)
    requires MeanIs(xs, u)
    ensures Difficulties(Numbered(xs), Many()) != [] && Mean(Difficulties(Numbered(xs), Many())) == u
  {}

  lemma MeansOfTwo(keys: seq<string>, m: Matrix, xs: seq<nat>, ys: seq<nat>, u: real)
    requires |keys| == 2 && Lies(keys, m, [Numbered(xs), Numbered(ys)]) && MeanIs(xs, u) && MeanIs(ys, -u)
    ensures KeysOf(keys, m) && PaperMeans(keys, m, Many(), 2) == [u, -u]
  {
    hide Numbered, Many, Difficulties, Mean, Lies, KeysOf, MeanIs, PaperMeans;
    TwoLie(keys, m, Numbered(xs), Numbered(ys));
    MeanFacts(xs, u);
    MeanFacts(ys, -u);
    var ds := [Difficulties(m[keys[0]], Many()), Difficulties(m[keys[1]], Many())];
    MeansAre(keys, m, Many(), ds, 2);
    var means := PaperMeans(keys, m, Many(), 2);
    assert means[0] == u && means[1] == -u;
  }

  lemma NumbersOfTwo()
    ensures 200.0 * (152.0 / 1013.0 - 0.15) < 0.00988 < 10.0 * Square(32.0 / 1013.0) < 0.01
    ensures 10.0 * Square(0.0) == 0.0
  {}

  lemma OverlapPositive(a: seq<string>, b: seq<string>)
    requires a != [] && b != []
    ensures Overlap(a, b) >= 0.0
  {
    NonEmptySet(a);
    NonEmptySet(b);
  }

  /** Two papers of 1013 questions in two centres that share 152: one too many by so little that
      the energy stays low. An exchange takes one of them out and makes the papers differ in
      difficulty, which costs slightly more; it satisfies all constraints and stops the loop. */
  lemma MissesOn1013(keys: seq<string>) returns (r: Run)
    requires |keys| == 2 && Distinct(keys)
    ensures var p := InTwoCenters(keys[0], keys[1]); Misses(keys, r, p) && Starts(keys, r.initial, p, 2, 1013)
  {
    hide Numbered, Many, Lower, Upper, Lower2, Upper2, MeanIs, Overlap, Square, Energy, Satisfied, Lies, IsSwap,
      Swapped,
      InTwoCenters, Exchanged, OnOneTopic, AllKnown, AllSeats, KeysOf, ShortPapers;
    var xs, ys, xs2, ys2 := Lower(), Upper(), Lower2(), Upper2();
    var before, after := [Numbered(xs), Numbered(ys)], [Numbered(xs2), Numbered(ys2)];
    MeansOfFour();
    Overlaps();
    NumbersOfTwo();
    OverlapPositive(before[0], before[1]);
    OverlapPositive(after[0], after[1]);
    var p := InTwoCenters(keys[0], keys[1]);
    var m := Lay(keys, before);
    ExchangedTwo();
    LiesSwapped(keys, m, before, 0, 861, 1, 639);
    var m' := Swapped(m, Exchange(keys[0], 861, keys[1], 639));
    StateOfTwo(keys, m, xs, ys, 0.0);
    StateOfTwo(keys, m', xs2, ys2, 32.0 / 1013.0);
    OneTopicCovers(keys, m, before, p, 1013);
    TwoCenterSeats(keys);
    r := Run([m, m'], m, m', m);
    RunOfTwo(keys, m, m', p);
  }

  lemma ExchangedTwo()
    ensures Exchanged([Numbered(Lower()), Numbered(Upper())], 0, 861, 1, 639) ==
      [Numbered(Lower2()), Numbered(Upper2())]
  {
    hide Q;
    assert Numbered(Lower())[861 := Q(HARD)] == Numbered(Lower2());
    assert Numbered(Upper())[639 := Q(861)] == Numbered(Upper2());
  }

  lemma TwoCenterSeats(keys: seq<string>)
    requires |keys| == 2
    ensures AllSeats(keys, InTwoCenters(keys[0], keys[1]).centers)
  {
    hide Many;
    var centers := [[keys[0]], [keys[1]]];
    forall k
      ensures k in keys <==> InSomeCenter(centers, 2, k)
    {
      if k in keys {
        assert k in centers[0] || k in centers[1];
      }
    }
  }

  lemma RunOfTwo(keys: seq<string>, m: Matrix, m': Matrix, p: Problem)
    requires KeysOf(keys, m) && KeysOf(keys, m') && IsSwap(m, m')
    requires Satisfied(keys, m, p) != 4 && Satisfied(keys, m', p) == 4
      && Energy(keys, m, p) <= Energy(keys, m', p) < 0.01
    ensures Misses(keys, Run([m, m'], m, m', m), p)
  {
    hide Satisfied, Energy, IsSwap, KeysOf;
  }

  // ---------------------------------------------------------------- exactly when

  function Names(n: nat): (keys: seq<string>)
    ensures |keys| == n && Distinct(keys)
  {
    var keys := seq(n, i requires 0 <= i < n => Q(i));
    NamesDiffer(n, keys);
    keys
  }

  lemma NamesDiffer(n: nat, keys: seq<string>)
    requires |keys| == n && forall i :: 0 <= i < n ==> keys[i] == Q(i)
    ensures Distinct(keys)
  {
    forall i, j | 0 <= i < j < n
      ensures keys[i] != keys[j]
    {
      QLength(i);
      QLength(j);
    }
  }

  /** On two papers or more of up to two questions or more, an early stop always returns a
      converged matrix exactly for at most 23 papers of at most 1012 questions. */
  lemma ConvergesExactly(n: nat, s: nat)
    requires n >= 2 && s >= 2
    ensures AlwaysConverges(n, s) <==> n <= 23 && s <= 1012
  {
    hide Misses, Starts, InOneCenter, InTwoCenters;
    if n <= 23 && s <= 1012 {
      forall keys: seq<string>, r: Run, p: Problem | Starts(keys, r.initial, p, n, s)
        ensures !Misses(keys, r, p)
      {
        NeverMisses(keys, r, p, n, s);
      }
    } else if n >= 24 {
      var r := MissesOn24(Names(24));
      Larger(Names(24), r.initial, InOneCenter(Names(24)), 24, 2, n, s);
    } else {
      var keys := Names(2);
      var r := MissesOn1013(keys);
      Larger(keys, r.initial, InTwoCenters(keys[0], keys[1]), 2, 1013, n, s);
    }
  }

  lemma NeverMisses(keys: seq<string>, r: Run, p: Problem, n: nat, s: nat)
    requires Starts(keys, r.initial, p, n, s) && n <= 23 && s <= 1012
    ensures !Misses(keys, r, p)
  {
    hide Energy, Satisfied, IsSwap, AllKnown, AllSeats, Questions, TopicTotal;
    if StopsEarly(keys, r, p) {
      var i :| 0 <= i < |r.accepted| && r.accepted[i] == r.best;
      TraceKeeps(keys, r.accepted, r.initial, p, i);
      EarlyStopConverges(keys, r, p);
    }
  }

  lemma Larger(keys: seq<string>, m: Matrix, p: Problem, n: nat, s: nat, n': nat, s': nat)
    requires Starts(keys, m, p, n, s) && n <= n' && s <= s'
    ensures Starts(keys, m, p, n', s')
  {
    hide AllKnown, AllSeats;
  }
}
