/** Choosing the detection threshold from simulated scores. */
module Threshold {
  import opened Detector
  import opened Sequences
  import opened Wrappers

  datatype ThresholdError = IndexOutOfRange

  function CountAbove(s: seq<real>, t: real): nat {
    if s == [] then 0 else CountAbove(s[..|s| - 1], t) + if s[|s| - 1] > t then 1 else 0
  }

  ghost predicate Ascending(s: seq<real>) {
    forall i, j :: 0 <= i < j < |s| ==> s[i] <= s[j]
  }

  function Insert(s: seq<real>, x: real): seq<real> {
    if s == [] || s[|s| - 1] <= x then s + [x] else Insert(s[..|s| - 1], x) + [s[|s| - 1]]
  }

  lemma CountAppend(s: seq<real>, x: real, t: real)
    ensures CountAbove(s + [x], t) == CountAbove(s, t) + if x > t then 1 else 0
  {
    assert (s + [x])[..|s|] == s;
  }

  lemma {:induction false} InsertCounts(s: seq<real>, x: real, t: real)
    ensures CountAbove(Insert(s, x), t) == CountAbove(s, t) + if x > t then 1 else 0
  {
    hide CountAbove;
    if s == [] || s[|s| - 1] <= x {
      CountAppend(s, x, t);
    } else {
      var init, last := s[..|s| - 1], s[|s| - 1];
      assert s == init + [last];
      InsertCounts(init, x, t);
      CountAppend(init, last, t);
      CountAppend(Insert(init, x), last, t);
    }
  }

  lemma {:induction false} InsertMembers(s: seq<real>, x: real)
    ensures |Insert(s, x)| == |s| + 1 && multiset(Insert(s, x)) == multiset(s) + multiset{x}
  {
    if s != [] && s[|s| - 1] > x {
      var init, last := s[..|s| - 1], s[|s| - 1];
      assert s == init + [last];
      InsertMembers(init, x);
    }
  }

  lemma {:induction false} InsertAscends(s: seq<real>, x: real)
    requires Ascending(s)
    ensures Ascending(Insert(s, x))
  {
    if s != [] && s[|s| - 1] > x {
      var init, last := s[..|s| - 1], s[|s| - 1];
      InsertAscends(init, x);
      InsertMembers(init, x);
      var r := Insert(init, x);
      forall i | 0 <= i < |r|
        ensures r[i] <= last
      {
        assert r[i] in multiset(init) + multiset{x};
      }
    }
  }

  /** `np.sort` */
  method Sort(scores: seq<real>) returns (sorted: seq<real>)
    ensures Ascending(sorted) && |sorted| == |scores| && multiset(sorted) == multiset(scores)
    ensures forall t :: CountAbove(sorted, t) == CountAbove(scores, t)
  {
    hide CountAbove, Insert;
    sorted := [];
    var i := 0;
    while i < |scores|
      invariant 0 <= i <= |scores| && |sorted| == i && Ascending(sorted) && multiset(sorted) == multiset(scores[..i])
      invariant forall t :: CountAbove(sorted, t) == CountAbove(scores[..i], t)
    {
      assert scores[..i + 1] == scores[..i] + [scores[i]];
      InsertAscends(sorted, scores[i]);
      InsertMembers(sorted, scores[i]);
      forall t
        ensures CountAbove(Insert(sorted, scores[i]), t) == CountAbove(scores[..i + 1], t)
      {
        CountAppend(scores[..i], scores[i], t);
        InsertCounts(sorted, scores[i], t);
      }
      sorted := Insert(sorted, scores[i]);
      i := i + 1;
    }
    assert scores[..|scores|] == scores;
  }

  /** Only scores behind an index can exceed a threshold above the score there. */
  lemma {:induction false} FewAbove(s: seq<real>, idx: nat, t: real)
    requires Ascending(s) && idx < |s| && s[idx] < t
    ensures CountAbove(s, t) <= |s| - 1 - idx
  {
    if |s| - 1 > idx {
      FewAbove(s[..|s| - 1], idx, t);
    } else {
      NoneAbove(s, t);
    }
  }

  lemma {:induction false} NoneAbove(s: seq<real>, t: real)
    requires forall i :: 0 <= i < |s| ==> s[i] <= t
    ensures CountAbove(s, t) == 0
  {
    if s != [] { NoneAbove(s[..|s| - 1], t); }
  }

  lemma {:induction false} AtMostAll(s: seq<real>, t: real)
    ensures CountAbove(s, t) <= |s|
  {
    if s != [] { AtMostAll(s[..|s| - 1], t); }
  }

  function Ceil(x: real): int { -((-x).Floor) }

  /** The index of the (1 - fpr) quantile. */
  function QuantileIndex(n: nat, targetFpr: real): int {
    IndexAt(Kept(n, targetFpr), n)
  }

  /** How many scores are not meant to lie above the threshold. */
  function Kept(n: nat, targetFpr: real): real {
    (1.0 - targetFpr) * n as real
  }

  function IndexAt(x: real, n: nat): int {
    var i := Ceil(x) - 1;
    if i < n - 1 then i else n - 1
  }

  lemma QuantileLeavesFew(n: nat, targetFpr: real)
    requires n > 0 && 0.0 <= targetFpr < 1.0
    ensures 0 <= QuantileIndex(n, targetFpr) < n
    ensures (n - 1 - QuantileIndex(n, targetFpr)) as real <= targetFpr * n as real
  {
    var x := (1.0 - targetFpr) * n as real;
    PositiveProduct(1.0 - targetFpr, n as real);
    OneMinus(targetFpr, n as real);
    assert x == n as real - targetFpr * n as real;
    assert targetFpr * n as real >= 0.0;
    assert Ceil(x) as real >= x;
    assert Ceil(x) >= 1;
  }

  lemma Scale(f: real, n: real)
    requires n > 0.0
    ensures f >= 1.0 ==> f * n >= n
    ensures f < 0.0 ==> f * n < 0.0
  {}

  /** A target of at most zero asks for the greatest score, one of at least 1 counts from the
      end, and one of at least 2 falls outside. */
  lemma IndexRange(n: nat, targetFpr: real)
    requires n > 0
    ensures QuantileIndex(n, targetFpr) < n
    ensures targetFpr <= 0.0 ==> QuantileIndex(n, targetFpr) == n - 1
    ensures QuantileIndex(n, targetFpr) < 0 <==> targetFpr >= 1.0
    ensures QuantileIndex(n, targetFpr) < 0 - n <==> targetFpr >= 2.0
  {
    KeptCrossings(n, targetFpr);
    IndexCases(Kept(n, targetFpr), n);
    hide IndexAt, Kept;
  }

  lemma KeptCrossings(n: nat, f: real)
    requires n > 0
    ensures f <= 0.0 ==> Kept(n, f) >= n as real
    ensures Kept(n, f) <= 0.0 <==> f >= 1.0
    ensures Kept(n, f) <= -(n as real) <==> f >= 2.0
  {
    Crossings(f, n as real);
  }

  lemma Crossings(f: real, m: real)
    requires m > 0.0
    ensures f <= 0.0 ==> (1.0 - f) * m >= m
    ensures (1.0 - f) * m <= 0.0 <==> f >= 1.0
    ensures (1.0 - f) * m <= -m <==> f >= 2.0
  {
    var y := f * m;
    ScaleOrder(f, 0.0, m, y, 0.0);
    ScaleOrder(f, 1.0, m, y, m);
    ScaleOrder(f, 2.0, m, y, 2.0 * m);
    OneMinus(f, m);
  }

  lemma ScaleOrder(a: real, b: real, m: real, x: real, y: real)
    requires m > 0.0 && x == a * m && y == b * m
    ensures (a <= b <==> x <= y) && (a >= b <==> x >= y)
  {
    if a < b { PositiveProduct(b - a, m); }
    if b < a { PositiveProduct(a - b, m); }
  }

  lemma OneMinus(a: real, m: real)
    ensures (1.0 - a) * m == m - a * m
  {}

  lemma IndexCases(x: real, n: nat)
    requires n > 0
    ensures IndexAt(x, n) < n && (x >= n as real ==> IndexAt(x, n) == n - 1)
    ensures (IndexAt(x, n) < 0 <==> x <= 0.0) && (IndexAt(x, n) < 0 - n <==> x <= -(n as real))
  {
    CeilBounds(x);
  }

  lemma CeilBounds(x: real)
    ensures x <= Ceil(x) as real < x + 1.0
  {}

  /** Python's indexing: negative positions count from the end. */
  function PythonIndex(i: int, n: nat): Option<nat> {
    if 0 <= i < n then Some(i) else if 0 - n <= i < 0 then Some(i + n) else None
  }

  /** The safety margin always lies above the quantile. */
  function WithMargin(x: real): (t: real)
    ensures t > x
  {
    if x > 0.0 then x * 1.1 else x + 1.0
  }

  /** `calibrate_threshold`, with the observed false-positive rate: the threshold is the
      quantile of the sorted sample with its margin; and whatever the target rate, when one is
      returned for a non-empty sample, the scores above it are at most the target fraction
      exactly when the target is not negative. */
  method CalibrateThreshold(scores: seq<real>, targetFpr: real)
    returns (r: Result<(real, real), ThresholdError>, ghost sorted: seq<real>)
    ensures Ascending(sorted) && multiset(sorted) == multiset(scores) && |sorted| == |scores|
    ensures scores != [] && r.Success? ==>
      var at := PythonIndex(QuantileIndex(|scores|, targetFpr), |scores|);
      at.Some? && r.value.0 == WithMargin(sorted[at.value])
    ensures scores == [] ==> r == Success((20.0, 0.0))
    ensures scores != [] && r.Success? ==>
      && r.value.1 * |scores| as real == CountAbove(scores, r.value.0) as real
      && (CountAbove(scores, r.value.0) as real <= targetFpr * |scores| as real <==> targetFpr >= 0.0)
    ensures r.Failure? <==> scores != [] && targetFpr >= 2.0
  {
    hide CountAbove;
    var n := |scores|;
    if n == 0 {
      return Success((20.0, 0.0)), [];
    }
    var sortedScores := Sort(scores);
    sorted := sortedScores;
    var at := PythonIndex(QuantileIndex(n, targetFpr), n);
    IndexRange(n, targetFpr);
    if at.None? {
      return Failure(IndexOutOfRange), sorted;
    }
    var threshold := WithMargin(sortedScores[at.value]);
    var above := CountAbove(scores, threshold);
    var actualFpr := above as real / n as real;
    FewAbove(sorted, at.value, threshold);
    AtMostAll(scores, threshold);
    Scale(targetFpr, n as real);
    r := Success((threshold, actualFpr));
  }

  // ---------------------------------------------------------------- calibrated detection

  /** How many of the drawn pairs the detector's statistic puts above a threshold. */
  function FlaggedDraws(items: Items, responses: seq<Answers>, questions: seq<int>, draws: seq<(nat, nat)>,
    t: real): nat
    requires forall d ::
      d in draws ==>
        d.0 < |responses| && d.1 < |responses| && Answered(items, responses[d.0], responses[d.1], questions)
  {
    if draws == [] then 0
    else
      var (u, v) := draws[|draws| - 1];
      assert (u, v) in draws;
      FlaggedDraws(items, responses, questions, draws[..|draws| - 1], t)
      + if Score(items, responses[u], responses[v], questions) > t then 1 else 0
  }

  lemma {:induction false} FlaggedAreAbove(items: Items, responses: seq<Answers>, questions: seq<int>,
    draws: seq<(nat, nat)>, t: real, scores: seq<real>)
    requires forall d ::
      d in draws ==>
        d.0 < |responses| && d.1 < |responses| && Answered(items, responses[d.0], responses[d.1], questions)
    requires |scores| == |draws|
    requires forall d ::
      0 <= d < |draws| ==> scores[d] == Score(items, responses[draws[d].0], responses[draws[d].1], questions)
    ensures FlaggedDraws(items, responses, questions, draws, t) == CountAbove(scores, t)
  {
    hide Score, Answered;
    if draws != [] {
      FlaggedAreAbove(items, responses, questions, draws[..|draws| - 1], t, scores[..|draws| - 1]);
    }
  }

  /** Simulation, calibration and detection together: at the calibrated threshold the
      detector's own statistic flags at most the target fraction of the independent pairs. */
  method CalibrateOnNull(items: Items, responses: seq<Answers>, questions: seq<int>, draws: seq<(nat, nat)>,
    targetFpr: real)
    returns (r: Result<(real, real), ThresholdError>)
    requires forall d ::
      d in draws ==>
        d.0 < |responses| && d.1 < |responses| && Answered(items, responses[d.0], responses[d.1], questions)
    requires 0.0 <= targetFpr < 1.0
    ensures r.Success? && WithinRate(FlaggedDraws(items, responses, questions, draws, r.value.0), targetFpr, |draws|)
  {
    hide Score, Answered, CountAbove, FlaggedDraws, WithinRate;
    var scores := NullScores(items, responses, questions, draws);
    r := CalibrateWithin(scores, targetFpr);
    FlaggedAreAbove(items, responses, questions, draws, r.value.0, scores);
  }

  predicate WithinRate(count: nat, rate: real, n: nat) {
    count as real <= rate * n as real
  }

  method CalibrateWithin(scores: seq<real>, targetFpr: real) returns (r: Result<(real, real), ThresholdError>)
    requires 0.0 <= targetFpr < 1.0
    ensures r.Success? && WithinRate(CountAbove(scores, r.value.0), targetFpr, |scores|)
  {
    hide CountAbove, WithMargin, QuantileIndex;
    ghost var sorted;
    r, sorted := CalibrateThreshold(scores, targetFpr);
    if scores == [] {
      NoneAbove(scores, r.value.0);
    }
  }
}
