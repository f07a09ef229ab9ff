/** Pairwise collusion scores and the scan over all pairs of candidates. `log` is the natural
    logarithm, any function here; numbers are reals. */
module Detector {
  import opened Rings
  import opened Sequences

  type Profile = seq<real>
  type Answers = map<int, int>

  /** The item model: option probabilities, the correct option of each question, and the
      logarithm used. */
  datatype Items = Items(profiles: map<int, Profile>, correct: map<int, int>, log: real -> real)

  const FLOOR := 0.0000000001
  const EPSILON := 0.000001

  function AtLeast(x: real, low: real): (r: real)
    ensures r >= low
  {
    if x < low then low else x
  }

  /** The summed probability of the wrong options, and of their squares. */
  function WrongSum(profile: Profile, correct: int, n: nat): real
    requires n <= |profile|
  {
    if n == 0 then 0.0 else WrongSum(profile, correct, n - 1) + if n - 1 == correct then 0.0 else profile[n - 1]
  }

  function WrongSquares(profile: Profile, correct: int, n: nat): real
    requires n <= |profile|
  {
    if n == 0 then 0.0 else WrongSquares(profile, correct, n - 1) + if n - 1 == correct then 0.0
      else profile[n - 1] * profile[n - 1]
  }

  datatype Verdict = Skipped | SameWrong | DiffWrong

  function Judge(ru: int, rv: int, correct: int): Verdict {
    if ru == correct || rv == correct then Skipped else if ru == rv then SameWrong else DiffWrong
  }

  lemma SquarePositive(x: real)
    requires x > 0.0
    ensures x * x > 0.0
  {}

  /** The evidence against collusion of two different wrong answers. */
  function DiffTerm(log: real -> real, wrong: real, squares: real): real
    requires wrong > 0.0
  {
    SquarePositive(wrong);
    var diff := AtLeast(wrong * wrong - squares, FLOOR);
    log(AtLeast(diff / (wrong * wrong), FLOOR) / EPSILON)
  }

  /** What one question adds to the log-likelihood ratio. */
  function Contribution(log: real -> real, profile: Profile, correct: int, ru: int, rv: int): real
    requires 0 <= ru < |profile|
  {
    var wrong := AtLeast(WrongSum(profile, correct, |profile|), FLOOR);
    match Judge(ru, rv, correct)
    case Skipped => 0.0
    case SameWrong => log(wrong / AtLeast(profile[ru], FLOOR))
    case DiffWrong => -DiffTerm(log, wrong, WrongSquares(profile, correct, |profile|))
  }

  // ---------------------------------------------------------------- the sign of the evidence

  /** What is used of the logarithm. */
  ghost predicate Logarithmic(log: real -> real) {
    log(1.0) == 0.0 && forall x, y :: 0.0 < x < y ==> log(x) < log(y)
  }

  lemma LogSign(log: real -> real, x: real)
    requires Logarithmic(log) && x > 0.0
    ensures (log(x) >= 0.0 <==> x >= 1.0) && (log(x) > 0.0 <==> x > 1.0)
  {
    assert x < 1.0 ==> log(x) < log(1.0);
    assert x > 1.0 ==> log(1.0) < log(x);
  }

  lemma {:induction false} WrongSumAtLeast(profile: Profile, correct: int, n: nat, k: nat)
    requires k < n <= |profile| && k != correct && forall i :: 0 <= i < |profile| ==> profile[i] >= 0.0
    ensures WrongSum(profile, correct, n) >= profile[k]
  {
    if k < n - 1 {
      WrongSumAtLeast(profile, correct, n - 1, k);
    } else {
      WrongSumPositive(profile, correct, n - 1);
    }
  }

  lemma {:induction false} WrongSumPositive(profile: Profile, correct: int, n: nat)
    requires n <= |profile| && forall i :: 0 <= i < |profile| ==> profile[i] >= 0.0
    ensures WrongSum(profile, correct, n) >= 0.0
  {
    if n > 0 { WrongSumPositive(profile, correct, n - 1); }
  }

  lemma RatioAtLeast(x: real, y: real, c: real)
    requires y > 0.0
    ensures (x / y >= c <==> x >= c * y) && (x / y > c <==> x > c * y)
  {
    var q := x / y;
    assert q * y == x;
    if q < c { PositiveProduct(c - q, y); }
    if q > c { PositiveProduct(q - c, y); }
  }

  /** The same wrong answer never counts against collusion. */
  lemma SameWrongRaises(log: real -> real, profile: Profile, correct: int, r: int)
    requires Logarithmic(log) && 0 <= r < |profile| && r != correct
    requires forall i :: 0 <= i < |profile| ==> profile[i] >= 0.0
    ensures Contribution(log, profile, correct, r, r) >= 0.0
  {
    WrongSumAtLeast(profile, correct, |profile|, r);
    hide WrongSum;
    var wrong, one := AtLeast(WrongSum(profile, correct, |profile|), FLOOR), AtLeast(profile[r], FLOOR);
    RatioAtLeast(wrong, one, 1.0);
    LogSign(log, wrong / one);
  }

  /** The probability of two different wrong answers, relative and floored as in the score. */
  function DiffRatio(profile: Profile, correct: int): real {
    var wrong := AtLeast(WrongSum(profile, correct, |profile|), FLOOR);
    SquarePositive(wrong);
    AtLeast(AtLeast(wrong * wrong - WrongSquares(profile, correct, |profile|), FLOOR) / (wrong * wrong), FLOOR)
  }

  /** Different wrong answers do not raise the score exactly when their floored ratio is at
      least EPSILON, and lower it exactly when it is above. */
  lemma DiffWrongLowers(log: real -> real, profile: Profile, correct: int, ru: int, rv: int)
    requires Logarithmic(log) && 0 <= ru < |profile| && ru != correct && rv != correct && ru != rv
    ensures Contribution(log, profile, correct, ru, rv) <= 0.0 <==> DiffRatio(profile, correct) >= EPSILON
    ensures Contribution(log, profile, correct, ru, rv) < 0.0 <==> DiffRatio(profile, correct) > EPSILON
  {
    hide WrongSum, WrongSquares;
    var ratio := DiffRatio(profile, correct);
    assert Contribution(log, profile, correct, ru, rv) == -log(ratio / EPSILON);
    hide Contribution, DiffTerm, DiffRatio;
    RatioAtLeast(ratio, EPSILON, 1.0);
    RatioAtLeast(ratio, EPSILON, 0.0);
    LogSign(log, ratio / EPSILON);
  }

  /** A profile with one likely wrong option: two different wrong answers raise the score. */
  lemma DiffWrongCanRaise(log: real -> real)
    requires Logarithmic(log)
    ensures Contribution(log, [0.5, 0.5, 0.0, 0.0], 0, 1, 2) > 0.0
  {
    var profile: Profile := [0.5, 0.5, 0.0, 0.0];
    assert WrongSum(profile, 0, 1) == 0.0 && WrongSum(profile, 0, 2) == 0.5 && WrongSum(profile, 0, 3) == 0.5;
    assert WrongSquares(profile, 0, 1) == 0.0 && WrongSquares(profile, 0, 2) == 0.25
      && WrongSquares(profile, 0, 3) == 0.25;
    assert WrongSum(profile, 0, 4) == 0.5 && WrongSquares(profile, 0, 4) == 0.25;
    assert DiffRatio(profile, 0) < EPSILON;
    DiffWrongLowers(log, profile, 0, 1, 2);
  }

  // ---------------------------------------------------------------- one pair

  predicate AnsweredAt(items: Items, u: Answers, v: Answers, q: int) {
    && q in u && q in v && q in items.correct && q in items.profiles
    && 0 <= u[q] < |items.profiles[q]| && 0 <= v[q] < |items.profiles[q]|
  }

  lemma ContributionCases(log: real -> real, profile: Profile, correct: int, ru: int, rv: int, wrong: real,
    squares: real)
    requires 0 <= ru < |profile| && wrong > 0.0
    requires wrong == AtLeast(WrongSum(profile, correct, |profile|), FLOOR)
      && squares == WrongSquares(profile, correct, |profile|)
    ensures ru != correct && ru == rv ==>
      Contribution(log, profile, correct, ru, rv) == log(wrong / AtLeast(profile[ru], FLOOR))
    ensures ru != correct && rv != correct && ru != rv ==>
      Contribution(log, profile, correct, ru, rv) == -DiffTerm(log, wrong, squares)
  {
    hide WrongSum, WrongSquares;
  }

  lemma SkippedIsZero(log: real -> real, profile: Profile, correct: int, ru: int, rv: int)
    requires 0 <= ru < |profile|
    ensures ru == correct || rv == correct ==> Contribution(log, profile, correct, ru, rv) == 0.0
  {
    hide WrongSum, WrongSquares, DiffTerm;
  }

  /** Both candidates answered all the questions with listed options. */
  ghost predicate Answered(items: Items, u: Answers, v: Answers, shared: seq<int>) {
    forall q :: q in shared ==> AnsweredAt(items, u, v, q)
  }

  function At(items: Items, u: Answers, v: Answers, q: int): real
    requires Answered(items, u, v, [q])
  {
    assert q in [q];
    Contribution(items.log, items.profiles[q], items.correct[q], u[q], v[q])
  }

  function Score(items: Items, u: Answers, v: Answers, shared: seq<int>): real
    requires Answered(items, u, v, shared)
  {
    if shared == [] then 0.0
    else Score(items, u, v, shared[..|shared| - 1]) + At(items, u, v, shared[|shared| - 1])
  }

  function Tally(items: Items, u: Answers, v: Answers, shared: seq<int>, verdict: Verdict): nat
    requires Answered(items, u, v, shared)
  {
    if shared == [] then 0
    else
      var q := shared[|shared| - 1];
      assert q in shared;
      Tally(items, u, v, shared[..|shared| - 1], verdict) + if Judge(u[q], v[q], items.correct[q]) == verdict then 1
        else 0
  }

  lemma ScorePush(items: Items, u: Answers, v: Answers, s: seq<int>, q: int)
    requires Answered(items, u, v, s) && AnsweredAt(items, u, v, q)
    ensures Answered(items, u, v, s + [q])
    ensures Score(items, u, v, s + [q])
         == Score(items, u, v, s) + Contribution(items.log, items.profiles[q], items.correct[q], u[q], v[q])
    ensures forall w ::
      Tally(items, u, v, s + [q], w) == Tally(items, u, v, s, w) + if Judge(u[q], v[q], items.correct[q]) == w then 1
        else 0
  {
    hide Contribution;
    assert (s + [q])[..|s|] == s;
  }

  lemma NothingScored(items: Items, u: Answers, v: Answers)
    ensures Score(items, u, v, []) == 0.0 && EvidenceOf(items, u, v, []) == [] && EvidenceSum([]) == 0.0
      && forall w :: Tally(items, u, v, [], w) == 0
  {}

  method Wrong(profile: Profile, correct: int) returns (sum: real, squares: real)
    ensures sum == WrongSum(profile, correct, |profile|) && squares == WrongSquares(profile, correct, |profile|)
  {
    sum, squares := 0.0, 0.0;
    var k := 0;
    while k < |profile|
      invariant 0 <= k <= |profile| && sum == WrongSum(profile, correct, k)
        && squares == WrongSquares(profile, correct, k)
    {
      if k != correct {
        sum := sum + profile[k];
        squares := squares + profile[k] * profile[k];
      }
      k := k + 1;
    }
  }

  datatype Evidence = Evidence(question: int, verdict: Verdict, contribution: real)

  function EvidenceSum(e: seq<Evidence>): real {
    if e == [] then 0.0 else EvidenceSum(e[..|e| - 1]) + e[|e| - 1].contribution
  }

  /** The evidence of the questions both got wrong, in order. */
  function EvidenceOf(items: Items, u: Answers, v: Answers, shared: seq<int>): seq<Evidence>
    requires Answered(items, u, v, shared)
  {
    if shared == [] then []
    else
      var q := shared[|shared| - 1];
      assert q in shared;
      var verdict := Judge(u[q], v[q], items.correct[q]);
      EvidenceOf(items, u, v, shared[..|shared| - 1]) + if verdict == Skipped then []
        else [Evidence(q, verdict, At(items, u, v, q))]
  }

  lemma EvidencePush(items: Items, u: Answers, v: Answers, s: seq<int>, q: int)
    requires Answered(items, u, v, s) && AnsweredAt(items, u, v, q)
    ensures Answered(items, u, v, s + [q])
    ensures var verdict := Judge(u[q], v[q], items.correct[q]);
            EvidenceOf(items, u, v, s + [q]) == EvidenceOf(items, u, v, s) +
              if verdict == Skipped then []
                else [Evidence(q, verdict, Contribution(items.log, items.profiles[q], items.correct[q], u[q], v[q]))]
  {
    hide Contribution;
    assert (s + [q])[..|s|] == s;
  }

  /** `compute_collusion_score`: the score, the two counters, and evidence for exactly the
      questions both got wrong, with contributions that add up to the score. */
  method ComputeCollusionScore(items: Items, u: Answers, v: Answers, shared: seq<int>)
    returns (logLambda: real, sameWrong: nat, diffWrong: nat, evidence: seq<Evidence>)
    requires Answered(items, u, v, shared)
    ensures logLambda == Score(items, u, v, shared) == EvidenceSum(evidence)
    ensures sameWrong == Tally(items, u, v, shared, SameWrong) && diffWrong == Tally(items, u, v, shared, DiffWrong)
    ensures evidence == EvidenceOf(items, u, v, shared) && |evidence| == sameWrong + diffWrong
  {
    hide WrongSum, WrongSquares, Score, Tally, Contribution, DiffTerm, EvidenceOf, EvidenceSum;
    logLambda, sameWrong, diffWrong, evidence := 0.0, 0, 0, [];
    var i := 0;
    NothingScored(items, u, v);
    assert shared[..0] == [];
    while i < |shared|
      invariant 0 <= i <= |shared|
      invariant logLambda == Score(items, u, v, shared[..i]) == EvidenceSum(evidence)
      invariant sameWrong == Tally(items, u, v, shared[..i], SameWrong)
        && diffWrong == Tally(items, u, v, shared[..i], DiffWrong)
      invariant evidence == EvidenceOf(items, u, v, shared[..i]) && |evidence| == sameWrong + diffWrong
    {
      var q := shared[i];
      assert q in shared;
      assert shared[..i + 1] == shared[..i] + [q];
      ScorePush(items, u, v, shared[..i], q);
      EvidencePush(items, u, v, shared[..i], q);
      var ru, rv, correct, profile := u[q], v[q], items.correct[q], items.profiles[q];
      SkippedIsZero(items.log, profile, correct, ru, rv);
      if !(ru == correct || rv == correct) {
        var sum, squares := Wrong(profile, correct);
        var pWrongTotal := AtLeast(sum, FLOOR);
        ContributionCases(items.log, profile, correct, ru, rv, pWrongTotal, squares);
        var contribution;
        if ru == rv {
          contribution := items.log(pWrongTotal / AtLeast(profile[ru], FLOOR));
          sameWrong := sameWrong + 1;
        } else {
          contribution := -DiffTerm(items.log, pWrongTotal, squares);
          diffWrong := diffWrong + 1;
        }
        logLambda := logLambda + contribution;
        evidence := Record(evidence, Evidence(q, Judge(ru, rv, correct), contribution));
      }
      i := i + 1;
    }
    assert shared[..|shared|] == shared;
  }

  method Record(evidence: seq<Evidence>, e: Evidence) returns (r: seq<Evidence>)
    ensures r == evidence + [e] && EvidenceSum(r) == EvidenceSum(evidence) + e.contribution
  {
    r := evidence + [e];
    assert r[..|evidence|] == evidence;
  }

  /** The statistic does not depend on the order of the two candidates. */
  lemma {:induction false} ScoreSymmetric(items: Items, u: Answers, v: Answers, shared: seq<int>)
    requires Answered(items, u, v, shared)
    ensures Answered(items, v, u, shared)
    ensures Score(items, u, v, shared) == Score(items, v, u, shared)
  {
    hide WrongSum, WrongSquares;
    if shared != [] {
      assert shared[|shared| - 1] in shared;
      ScoreSymmetric(items, u, v, shared[..|shared| - 1]);
    }
  }

  /** The scoring loop of `compute_null_distribution` over drawn pairs of simulated
      candidates: the same statistic as the detector's. */
  method NullScores(items: Items, responses: seq<Answers>, questions: seq<int>, draws: seq<(nat, nat)>)
    returns (scores: seq<real>)
    requires forall d ::
      d in draws ==>
        d.0 < |responses| && d.1 < |responses| && Answered(items, responses[d.0], responses[d.1], questions)
    ensures |scores| == |draws|
    ensures forall d ::
      0 <= d < |draws| ==> scores[d] == Score(items, responses[draws[d].0], responses[draws[d].1], questions)
  {
    hide WrongSum, WrongSquares, Score;
    scores := [];
    var d := 0;
    while d < |draws|
      invariant 0 <= d <= |draws| && |scores| == d
      invariant forall e ::
        0 <= e < d ==> scores[e] == Score(items, responses[draws[e].0], responses[draws[e].1], questions)
    {
      var s := ScorePair(items, responses[draws[d].0], responses[draws[d].1], questions);
      scores := scores + [s];
      d := d + 1;
    }
  }

  /** The inner loop of `compute_null_distribution`. */
  method ScorePair(items: Items, u: Answers, v: Answers, questions: seq<int>) returns (logLambda: real)
    requires Answered(items, u, v, questions)
    ensures logLambda == Score(items, u, v, questions)
  {
    hide WrongSum, WrongSquares, Score, Tally, Contribution, DiffTerm;
    logLambda := 0.0;
    var i := 0;
    NothingScored(items, u, v);
    while i < |questions|
      invariant 0 <= i <= |questions| && logLambda == Score(items, u, v, questions[..i])
    {
      var q := questions[i];
      assert q in questions;
      assert questions[..i + 1] == questions[..i] + [q];
      ScorePush(items, u, v, questions[..i], q);
      var ru, rv, correct, profile := u[q], v[q], items.correct[q], items.profiles[q];
      SkippedIsZero(items.log, profile, correct, ru, rv);
      if ru == correct || rv == correct {
      } else {
        var sum, squares := Wrong(profile, correct);
        var pWrongTotal := AtLeast(sum, FLOOR);
        ContributionCases(items.log, profile, correct, ru, rv, pWrongTotal, squares);
        if ru == rv {
          logLambda := logLambda + items.log(pWrongTotal / AtLeast(profile[ru], FLOOR));
        } else {
          logLambda := logLambda - DiffTerm(items.log, pWrongTotal, squares);
        }
      }
      i := i + 1;
    }
    assert questions[..|questions|] == questions;
  }

  // ---------------------------------------------------------------- all pairs

  /** One centre's data; `allQuestions` lists the keys of the answer key. */
  datatype Centre = Centre(
    candidates: seq<string>, responses: map<string, Answers>,
    sharedMap: map<(string, string), seq<int>>, allQuestions: seq<int>, items: Items)

  function Shared(c: Centre, u: string, v: string): seq<int> {
    if (u, v) in c.sharedMap then c.sharedMap[(u, v)]
    else if (v, u) in c.sharedMap then c.sharedMap[(v, u)]
    else c.allQuestions
  }

  /** The pair is looked at: both have responses and they share questions. */
  predicate Examined(c: Centre, u: string, v: string) {
    u in c.responses && v in c.responses && Shared(c, u, v) != []
  }

  /** What scoring the pair reads is there. */
  ghost predicate Scorable(c: Centre, u: string, v: string) {
    Examined(c, u, v) && Answered(c.items, c.responses[u], c.responses[v], Shared(c, u, v))
  }

  /** Every pair that the scan examines can be scored. */
  ghost predicate WellFormed(c: Centre) {
    forall i, j ::
      0 <= i < j < |c.candidates| && Examined(c, c.candidates[i], c.candidates[j]) ==>
        Scorable(c, c.candidates[i], c.candidates[j])
  }

  function PairScore(c: Centre, u: string, v: string): real
    requires Scorable(c, u, v)
  {
    Score(c.items, c.responses[u], c.responses[v], Shared(c, u, v))
  }

  /** The pair deserves a report. */
  ghost predicate Suspicious(c: Centre, threshold: real, u: string, v: string) {
    Scorable(c, u, v) && PairScore(c, u, v) > threshold
  }

  /** Candidates i and j, with i and j among the pairs scanned before (n, m). */
  ghost predicate Scanned(c: Centre, i: int, j: int, n: nat, m: nat) {
    0 <= i < j < |c.candidates| && (i < n || (i == n && j < m))
  }

  /** The report of a suspicious pair of candidates. */
  ghost predicate ReportFor(c: Centre, threshold: real, r: Flagged, i: int, j: int)
    requires 0 <= i < j < |c.candidates|
  {
    && r.candidateU == c.candidates[i] && r.candidateV == c.candidates[j]
    && Suspicious(c, threshold, r.candidateU, r.candidateV)
    && r.logLambda == PairScore(c, r.candidateU, r.candidateV)
  }

  /** The reports so far: exactly the suspicious scanned pairs, each once. */
  ghost predicate Reports(c: Centre, threshold: real, results: seq<Flagged>, n: nat, m: nat) {
    && (forall r :: r in results ==> exists i, j :: Scanned(c, i, j, n, m) && ReportFor(c, threshold, r, i, j))
    && (forall i, j :: Scanned(c, i, j, n, m) && Suspicious(c, threshold, c.candidates[i], c.candidates[j]) ==>
          exists r :: r in results && ReportFor(c, threshold, r, i, j))
    && Distinct(Keys(results))
  }

  function Keys(results: seq<Flagged>): (k: seq<Key>)
    ensures |k| == |results|
    ensures forall i :: 0 <= i < |results| ==> k[i] == KeyOf(results[i].candidateU, results[i].candidateV)
  {
    seq(|results|, i requires 0 <= i < |results| => KeyOf(results[i].candidateU, results[i].candidateV))
  }

  lemma KeyOfCandidates(candidates: seq<string>, i: nat, j: nat, n: nat, m: nat)
    requires Distinct(candidates) && i < j < |candidates| && n < m < |candidates|
    requires KeyOf(candidates[i], candidates[j]) == KeyOf(candidates[n], candidates[m])
    ensures i == n && j == m
  {
    KeyDetermines(candidates, i, j, n, m);
  }

  lemma SameScan(c: Centre, threshold: real, results: seq<Flagged>, n: nat, m: nat, n': nat, m': nat)
    requires Reports(c, threshold, results, n, m)
    requires forall i, j :: Scanned(c, i, j, n, m) && Suspicious(c, threshold, c.candidates[i], c.candidates[j]) <==>
      Scanned(c, i, j, n', m') && Suspicious(c, threshold, c.candidates[i], c.candidates[j])
    ensures Reports(c, threshold, results, n', m')
  {
    hide Suspicious, PairScore;
    forall r | r in results
      ensures exists i, j :: Scanned(c, i, j, n', m') && ReportFor(c, threshold, r, i, j)
    {
      var i, j :| Scanned(c, i, j, n, m) && ReportFor(c, threshold, r, i, j);
      assert Scanned(c, i, j, n', m');
    }
  }

  /** One more pair scanned. */
  lemma ScanOne(c: Centre, threshold: real, results: seq<Flagged>, n: nat, m: nat, r: Flagged)
    requires Distinct(c.candidates) && n < m < |c.candidates|
    requires Reports(c, threshold, results, n, m)
    ensures !Suspicious(c, threshold, c.candidates[n], c.candidates[m]) ==> Reports(c, threshold, results, n, m + 1)
    ensures ReportFor(c, threshold, r, n, m) ==> Reports(c, threshold, results + [r], n, m + 1)
  {
    hide Suspicious, PairScore, KeyOf;
    forall i, j
      ensures Scanned(c, i, j, n, m + 1) <==> Scanned(c, i, j, n, m) || (i == n && j == m)
    {
    }
    if !Suspicious(c, threshold, c.candidates[n], c.candidates[m]) {
      SameScan(c, threshold, results, n, m, n, m + 1);
    }
    if ReportFor(c, threshold, r, n, m) {
      ExtendReports(c, threshold, results, n, m, r);
    }
  }

  lemma ExtendReports(c: Centre, threshold: real, results: seq<Flagged>, n: nat, m: nat, r: Flagged)
    requires Distinct(c.candidates) && n < m < |c.candidates|
    requires Reports(c, threshold, results, n, m) && ReportFor(c, threshold, r, n, m)
    ensures Reports(c, threshold, results + [r], n, m + 1)
  {
    hide Suspicious, PairScore, KeyOf;
    var more := results + [r];
    assert more[|results|] == r;
    forall x | x in more
      ensures exists i, j :: Scanned(c, i, j, n, m + 1) && ReportFor(c, threshold, x, i, j)
    {
      if x in results {
        var i, j :| Scanned(c, i, j, n, m) && ReportFor(c, threshold, x, i, j);
        assert Scanned(c, i, j, n, m + 1);
      } else {
        assert Scanned(c, n, m, n, m + 1);
      }
    }
    forall i, j | Scanned(c, i, j, n, m + 1) && Suspicious(c, threshold, c.candidates[i], c.candidates[j])
      ensures exists x :: x in more && ReportFor(c, threshold, x, i, j)
    {
      if Scanned(c, i, j, n, m) {
        var x :| x in results && ReportFor(c, threshold, x, i, j);
        assert x in more;
      } else {
        assert r in more;
      }
    }
    forall a | 0 <= a < |results|
      ensures Keys(more)[a] != Keys(more)[|results|]
    {
      assert results[a] in results;
      var i, j :| Scanned(c, i, j, n, m) && ReportFor(c, threshold, results[a], i, j);
      assert more[a] == results[a];
      if Keys(more)[a] == Keys(more)[|results|] {
        KeyOfCandidates(c.candidates, i, j, n, m);
      }
    }
    assert forall a :: 0 <= a < |results| ==> Keys(more)[a] == Keys(results)[a];
  }

  /** `detect_collusion`: for distinct candidate ids each suspicious unordered pair is
      reported exactly once, and nothing else is. */
  method DetectCollusion(c: Centre, threshold: real) returns (results: seq<Flagged>)
    requires WellFormed(c) && Distinct(c.candidates)
    ensures Reports(c, threshold, results, |c.candidates|, 0)
  {
    hide Reports, Score, WellFormed, Distinct;
    results := [];
    NoReports(c, threshold);
    var i := 0;
    while i < |c.candidates|
      invariant 0 <= i <= |c.candidates| && Reports(c, threshold, results, i, 0)
    {
      var j := i + 1;
      SameScan(c, threshold, results, i, 0, i, i + 1);
      while j < |c.candidates|
        invariant i < j <= |c.candidates| && Reports(c, threshold, results, i, j)
      {
        var u, v := c.candidates[i], c.candidates[j];
        if u in c.responses && v in c.responses && Shared(c, u, v) != [] {
          ExaminedScorable(c, i, j);
          var logLambda, sameWrong, diffWrong, evidence :=
            ComputeCollusionScore(c.items, c.responses[u], c.responses[v], Shared(c, u, v));
          ScanOne(c, threshold, results, i, j, Flagged(u, v, logLambda));
          if logLambda > threshold {
            results := results + [Flagged(u, v, logLambda)];
          }
        } else {
          ScanOne(c, threshold, results, i, j, Flagged(u, v, 0.0));
        }
        j := j + 1;
      }
      SameScan(c, threshold, results, i, |c.candidates|, i + 1, 0);
      i := i + 1;
    }
  }

  lemma NoReports(c: Centre, threshold: real)
    ensures Reports(c, threshold, [], 0, 0)
  {}

  lemma ExaminedScorable(c: Centre, i: nat, j: nat)
    requires WellFormed(c) && i < j < |c.candidates| && Examined(c, c.candidates[i], c.candidates[j])
    ensures Scorable(c, c.candidates[i], c.candidates[j])
  {}

  /** The reported keys are as many as the reports. */
  lemma ReportCount(c: Centre, threshold: real, results: seq<Flagged>)
    requires Distinct(c.candidates) && Reports(c, threshold, results, |c.candidates|, 0)
    ensures |ReportedKeys(results)| == |results|
  {
    hide Suspicious, PairScore, KeyOf;
    forall a | 0 <= a < |results|
      ensures results[a].candidateU != results[a].candidateV
    {
      assert results[a] in results;
      var i, j :| Scanned(c, i, j, |c.candidates|, 0) && ReportFor(c, threshold, results[a], i, j);
    }
    SetSize(Keys(results));
    forall k
      ensures k in ReportedKeys(results) <==> k in ToSet(Keys(results))
    {
      if k in ToSet(Keys(results)) {
        var a :| 0 <= a < |results| && Keys(results)[a] == k;
        assert Reported(results, k);
      }
    }
    assert ReportedKeys(results) == ToSet(Keys(results));
  }

  /** Detection and clustering end to end: the clusters' totals add up to the number of
      reports. */
  method DetectAndCluster(c: Centre, threshold: real, seating: map<string, string>, adjacent: seq<(string, string)>)
    returns (results: seq<Flagged>, clusters: seq<Cluster>, ghost g: Rings.Graph, ghost order: seq<string>)
    requires WellFormed(c) && Distinct(c.candidates)
    ensures Reports(c, threshold, results, |c.candidates|, 0)
    ensures OnceEach(clusters, ReportedKeys(results)) && SumPairs(clusters) == |results|
    ensures GraphOf(g, order, results) && forall c :: c in clusters ==> Class(g, c.members)
  {
    hide Reports, WellFormed, Distinct, GraphOf, Class;
    results := DetectCollusion(c, threshold);
    ghost var found;
    clusters, g, order, found := FindCheatingRings(results, seating, adjacent);
    ReportCount(c, threshold, results);
  }
}
