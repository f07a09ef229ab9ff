/** The annealing loop: in-place swaps and undos over a dictionary of lists, with a cached
    energy and a deep-copied best solution. */
module Annealing {
  import opened Constraints

  const MAX_ITERATIONS := 1_000_000

  datatype AssignmentMatrix = AssignmentMatrix(assignments: Matrix, energy: real, iterations: nat, converged: bool)

  // ---------------------------------------------------------------- dictionaries of lists

  predicate Unaliased(papers: map<string, array<string>>) {
    forall k, l :: k in papers && l in papers && k != l ==> papers[k] != papers[l]
  }

  /** `{k: list(v) for k, v in assignments.items()}` */
  function Snapshot(papers: map<string, array<string>>): (m: Matrix)
    reads set k | k in papers :: papers[k]
    ensures m.Keys == papers.Keys
    ensures forall k :: k in papers ==> m[k] == papers[k][..]
  {
    map k | k in papers :: papers[k][..]
  }

  // ---------------------------------------------------------------- moves

  /** Two papers and a position in each. */
  datatype Exchange = Exchange(a: string, i: nat, b: string, j: nat)

  predicate ValidMove(m: Matrix, e: Exchange) {
    e.a in m && e.b in m && e.a != e.b && e.i < |m[e.a]| && e.j < |m[e.b]|
  }

  /** The matrix with question i of paper a and question j of paper b exchanged. */
  function Swapped(m: Matrix, e: Exchange): Matrix
    requires ValidMove(m, e)
  {
    Written(m, e, m[e.b][e.j], m[e.a][e.i])
  }

  function Written(m: Matrix, e: Exchange, x: string, y: string): Matrix
    requires ValidMove(m, e)
  {
    m[e.a := m[e.a][e.i := x]][e.b := m[e.b][e.j := y]]
  }

  /** Writing the two questions back restores the matrix exactly. */
  lemma UndoRestores(m: Matrix, a: string, i: nat, b: string, j: nat)
    requires ValidMove(m, Exchange(a, i, b, j))
    ensures ValidMove(Swapped(m, Exchange(a, i, b, j)), Exchange(a, i, b, j))
    ensures Written(Swapped(m, Exchange(a, i, b, j)), Exchange(a, i, b, j), m[a][i], m[b][j]) == m
  {
    assert m[a][i := m[b][j]][i := m[a][i]] == m[a];
    assert m[b][j := m[a][i]][j := m[b][j]] == m[b];
  }

  ghost predicate IsSwap(m: Matrix, m': Matrix) {
    exists e :: ValidMove(m, e) && m' == Swapped(m, e)
  }

  // ---------------------------------------------------------------- what a move keeps

  /** The questions of the first n papers, with multiplicity. */
  function Questions(keys: seq<string>, m: Matrix, n: nat): multiset<string>
    requires n <= |keys| && KeysOf(keys, m)
  {
    if n == 0 then multiset{} else Questions(keys, m, n - 1) + multiset(m[keys[n - 1]])
  }

  /** How many questions of a topic the first n papers have together. */
  function TopicTotal(keys: seq<string>, m: Matrix, p: Problem, topic: string, n: nat): nat
    requires n <= |keys| && KeysOf(keys, m)
  {
    if n == 0 then 0 else TopicTotal(keys, m, p, topic, n - 1) + TopicCount(m[keys[n - 1]], p.questions, topic)
  }

  lemma SumSwap(a: multiset<string>, b: multiset<string>, c: multiset<string>)
    ensures (a + b) + c == (a + c) + b
  {}

  lemma {:induction false} QuestionsUpdate(keys: seq<string>, m: Matrix, k: string, s: seq<string>, n: nat)
    requires n <= |keys| && KeysOf(keys, m) && k in m
    ensures KeysOf(keys, m[k := s])
    ensures k !in keys[..n] ==> Questions(keys, m[k := s], n) == Questions(keys, m, n)
    ensures k in keys[..n] ==> Questions(keys, m[k := s], n) + multiset(m[k]) == Questions(keys, m, n) + multiset(s)
  {
    if n > 0 {
      QuestionsUpdate(keys, m, k, s, n - 1);
      assert keys[..n] == keys[..n - 1] + [keys[n - 1]];
      var before, after, x := Questions(keys, m, n - 1), Questions(keys, m[k := s], n - 1), keys[n - 1];
      SumSwap(before, multiset(m[k]), multiset(s));
      SumSwap(after, multiset(m[x]), multiset(m[k]));
      SumSwap(before, multiset(m[x]), multiset(s));
    }
  }

  lemma {:induction false} TopicTotalUpdate(keys: seq<string>, m: Matrix, p: Problem, topic: string, k: string,
    s: seq<string>, n: nat)
    requires n <= |keys| && KeysOf(keys, m) && k in m
    ensures KeysOf(keys, m[k := s])
    ensures k !in keys[..n] ==> TopicTotal(keys, m[k := s], p, topic, n) == TopicTotal(keys, m, p, topic, n)
    ensures k in keys[..n] ==>
      TopicTotal(keys, m[k := s], p, topic, n) + TopicCount(m[k], p.questions, topic) ==
      TopicTotal(keys, m, p, topic, n) + TopicCount(s, p.questions, topic)
  {
    hide TopicCount;
    if n > 0 {
      TopicTotalUpdate(keys, m, p, topic, k, s, n - 1);
      assert keys[..n] == keys[..n - 1] + [keys[n - 1]];
    }
  }

  function Matches(qid: string, p: Problem, topic: string): nat {
    if qid in p.questions && p.questions[qid].topic == topic then 1 else 0
  }

  lemma {:induction false} TopicCountUpdate(s: seq<string>, i: nat, x: string, p: Problem, topic: string)
    requires i < |s|
    ensures TopicCount(s[i := x], p.questions, topic) + Matches(s[i], p, topic)
         == TopicCount(s, p.questions, topic) + Matches(x, p, topic)
  {
    var n := |s| - 1;
    if i < n {
      TopicCountUpdate(s[..n], i, x, p, topic);
      assert s[i := x][..n] == s[..n][i := x];
    } else {
      assert s[i := x][..n] == s[..n];
    }
  }

  lemma UpdateMultiset(s: seq<string>, i: nat, x: string)
    requires i < |s|
    ensures multiset(s[i := x]) + multiset{s[i]} == multiset(s) + multiset{x}
  {}

  /** A move keeps every paper's length, the questions over all papers and every topic total. */
  lemma SwapKeeps(keys: seq<string>, m: Matrix, m': Matrix, p: Problem)
    requires KeysOf(keys, m) && IsSwap(m, m')
    ensures KeysOf(keys, m') && forall k :: k in m ==> |m'[k]| == |m[k]|
    ensures Questions(keys, m', |keys|) == Questions(keys, m, |keys|)
    ensures forall topic :: TopicTotal(keys, m', p, topic, |keys|) == TopicTotal(keys, m, p, topic, |keys|)
  {
    hide Questions, TopicTotal;
    var e :| ValidMove(m, e) && m' == Swapped(m, e);
    var Exchange(a, i, b, j) := e;
    SwapKeepsQuestions(keys, m, a, i, b, j);
    forall topic
      ensures TopicTotal(keys, m', p, topic, |keys|) == TopicTotal(keys, m, p, topic, |keys|)
    {
      SwapKeepsTopic(keys, m, a, i, b, j, p, topic);
    }
  }

  lemma SwapKeepsTopic(keys: seq<string>, m: Matrix, a: string, i: nat, b: string, j: nat, p: Problem, topic: string)
    requires KeysOf(keys, m) && ValidMove(m, Exchange(a, i, b, j))
    ensures KeysOf(keys, Swapped(m, Exchange(a, i, b, j)))
    ensures TopicTotal(keys, Swapped(m, Exchange(a, i, b, j)), p, topic, |keys|) ==
      TopicTotal(keys, m, p, topic, |keys|)
  {
    hide TopicCount, TopicTotal;
    var sa, sb := m[a][i := m[b][j]], m[b][j := m[a][i]];
    assert keys[..|keys|] == keys;
    TopicTotalUpdate(keys, m, p, topic, a, sa, |keys|);
    TopicTotalUpdate(keys, m[a := sa], p, topic, b, sb, |keys|);
    TopicCountUpdate(m[a], i, m[b][j], p, topic);
    TopicCountUpdate(m[b], j, m[a][i], p, topic);
  }

  lemma SwapKeepsQuestions(keys: seq<string>, m: Matrix, a: string, i: nat, b: string, j: nat)
    requires KeysOf(keys, m) && ValidMove(m, Exchange(a, i, b, j))
    ensures KeysOf(keys, Swapped(m, Exchange(a, i, b, j)))
    ensures Questions(keys, Swapped(m, Exchange(a, i, b, j)), |keys|) == Questions(keys, m, |keys|)
  {
    hide Questions;
    var m' := Swapped(m, Exchange(a, i, b, j));
    var sa, sb := m[a][i := m[b][j]], m[b][j := m[a][i]];
    var m1 := m[a := sa];
    assert keys[..|keys|] == keys;
    QuestionsUpdate(keys, m, a, sa, |keys|);
    QuestionsUpdate(keys, m1, b, sb, |keys|);
    UpdateMultiset(m[a], i, m[b][j]);
    UpdateMultiset(m[b], j, m[a][i]);
    MultisetExchange(Questions(keys, m, |keys|), Questions(keys, m1, |keys|), Questions(keys, m', |keys|), m[a], sa,
      m[b], sb, m[a][i], m[b][j]);
  }

  lemma MultisetExchange(q: multiset<string>, q1: multiset<string>, q2: multiset<string>,
                         a: seq<string>, a': seq<string>, b: seq<string>, b': seq<string>, x: string, y: string)
    requires q1 + multiset(a) == q + multiset(a') && q2 + multiset(b) == q1 + multiset(b')
    requires multiset(a') + multiset{x} == multiset(a) + multiset{y}
    requires multiset(b') + multiset{y} == multiset(b) + multiset{x}
    ensures q2 == q
  {
    forall z
      ensures q2[z] == q[z]
    {
      assert (q1 + multiset(a))[z] == (q + multiset(a'))[z];
      assert (q2 + multiset(b))[z] == (q1 + multiset(b'))[z];
      assert (multiset(a') + multiset{x})[z] == (multiset(a) + multiset{y})[z];
      assert (multiset(b') + multiset{y})[z] == (multiset(b) + multiset{x})[z];
    }
  }

  /** The accepted matrices of a run, from the initial one on, each one move after the last. */
  ghost predicate Trace(accepted: seq<Matrix>, initial: Matrix) {
    && accepted != [] && accepted[0] == initial
    && forall n :: 0 < n < |accepted| ==> IsSwap(accepted[n - 1], accepted[n])
  }

  ghost predicate Kept(keys: seq<string>, initial: Matrix, m: Matrix, p: Problem)
    requires KeysOf(keys, initial)
  {
    && KeysOf(keys, m)
    && (forall k :: k in m && k in initial ==> |m[k]| == |initial[k]|)
    && Questions(keys, m, |keys|) == Questions(keys, initial, |keys|)
    && (forall topic :: TopicTotal(keys, m, p, topic, |keys|) == TopicTotal(keys, initial, p, topic, |keys|))
  }

  /** Every matrix a run accepts keeps what a single move keeps. */
  lemma {:induction false} TraceKeeps(keys: seq<string>, accepted: seq<Matrix>, initial: Matrix, p: Problem, n: nat)
    requires KeysOf(keys, initial) && Trace(accepted, initial) && n < |accepted|
    ensures Kept(keys, initial, accepted[n], p)
  {
    hide IsSwap, Questions, TopicTotal;
    if n > 0 {
      TraceKeeps(keys, accepted, initial, p, n - 1);
      SwapKeeps(keys, accepted[n - 1], accepted[n], p);
    }
  }

  // ---------------------------------------------------------------- the loop

  /** The lowest energy accepted so far belongs to `best`. */
  ghost predicate IsBest(keys: seq<string>, accepted: seq<Matrix>, best: Matrix, p: Problem)
    requires KeysOf(keys, best) && forall n :: 0 <= n < |accepted| ==> KeysOf(keys, accepted[n])
  {
    best in accepted && forall n :: 0 <= n < |accepted| ==> Energy(keys, best, p) <= Energy(keys, accepted[n], p)
  }

  /** The matrices accepted so far, from the initial to the current one, and the best of them. */
  datatype Run = Run(accepted: seq<Matrix>, initial: Matrix, current: Matrix, best: Matrix)

  ghost predicate Explored(keys: seq<string>, r: Run, p: Problem) {
    && KeysOf(keys, r.initial) && Trace(r.accepted, r.initial)
    && (forall n :: 0 <= n < |r.accepted| ==> KeysOf(keys, r.accepted[n]))
    && r.accepted[|r.accepted| - 1] == r.current
    && KeysOf(keys, r.best) && IsBest(keys, r.accepted, r.best, p)
  }

  lemma TraceAppend(accepted: seq<Matrix>, initial: Matrix, next: Matrix)
    requires Trace(accepted, initial) && IsSwap(accepted[|accepted| - 1], next)
    ensures Trace(accepted + [next], initial)
  {
    hide IsSwap;
    var longer := accepted + [next];
    assert forall n :: 0 <= n < |accepted| ==> longer[n] == accepted[n];
  }

  /** Accepting a move extends the trace; the best is replaced only by a lower energy. */
  lemma Accept(keys: seq<string>, accepted: seq<Matrix>, initial: Matrix, current: Matrix, best: Matrix,
    next: Matrix, p: Problem)
    requires Explored(keys, Run(accepted, initial, current, best), p) && IsSwap(current, next)
    ensures KeysOf(keys, next)
    ensures Explored(keys,
      Run(accepted + [next], initial, next, if Energy(keys, next, p) < Energy(keys, best, p) then next else best), p)
  {
    hide IsSwap, Energy, Trace;
    SwapKeeps(keys, current, next, p);
    var longer := accepted + [next];
    TraceAppend(accepted, initial, next);
    assert forall n :: 0 <= n < |accepted| ==> longer[n] == accepted[n];
    assert longer[|accepted|] == next;
  }

  /** What one iteration draws: two papers, a position in each, and whether a move that does
      not lower the energy is accepted all the same. */
  datatype Draws = Draws(paperA: nat, paperB: nat, idxA: nat, idxB: nat, coin: bool)

  ghost predicate Drawable(keys: seq<string>, m: Matrix, d: Draws)
    requires KeysOf(keys, m)
  {
    && d.paperA < |keys| && d.paperB < |keys| && d.paperA != d.paperB
    && (m[keys[d.paperA]] != [] && m[keys[d.paperB]] != [] ==>
      d.idxA < |m[keys[d.paperA]]| && d.idxB < |m[keys[d.paperB]]|)
  }

  /** The drawn papers are not empty and the drawn questions differ. */
  ghost predicate Movable(keys: seq<string>, m: Matrix, d: Draws)
    requires KeysOf(keys, m) && Drawable(keys, m, d)
  {
    && m[keys[d.paperA]] != [] && m[keys[d.paperB]] != []
    && m[keys[d.paperA]][d.idxA] != m[keys[d.paperB]][d.idxB]
  }

  /** The matrix one iteration leaves: the swap when it lowers the energy or the coin says so. */
  ghost function After(keys: seq<string>, m: Matrix, d: Draws, p: Problem): Matrix
    requires KeysOf(keys, m) && Drawable(keys, m, d)
  {
    if !Movable(keys, m, d) then m
    else
      KeptOrSwapped(keys, m, Exchange(keys[d.paperA], d.idxA, keys[d.paperB], d.idxB), d.coin, p)
  }

  ghost function KeptOrSwapped(keys: seq<string>, m: Matrix, e: Exchange, coin: bool, p: Problem): Matrix
    requires KeysOf(keys, m) && ValidMove(m, e)
  {
    var next := Swapped(m, e);
    SwappedKeys(keys, m, e.a, e.i, e.b, e.j);
    if Energy(keys, next, p) < Energy(keys, m, p) || coin then next else m
  }

  lemma SwappedKeys(keys: seq<string>, m: Matrix, a: string, i: nat, b: string, j: nat)
    requires KeysOf(keys, m) && ValidMove(m, Exchange(a, i, b, j))
    ensures KeysOf(keys, Swapped(m, Exchange(a, i, b, j)))
  {}

  /** One iteration: a swap between two papers, evaluated, then kept or undone. The choices
      of papers, positions and of the acceptance coin are arbitrary. */
  method Iterate(keys: seq<string>, papers: map<string, array<string>>, p: Problem, energy: real, satisfied: nat)
    returns (newEnergy: real, newSatisfied: nat, moved: bool, ghost d: Draws)
    requires Unaliased(papers) && KeysOf(keys, Snapshot(papers)) && |keys| >= 2
    requires energy == Energy(keys, Snapshot(papers), p) && satisfied == Satisfied(keys, Snapshot(papers), p)
    modifies set k | k in papers :: papers[k]
    ensures Drawable(keys, old(Snapshot(papers)), d) && Snapshot(papers) == After(keys, old(Snapshot(papers)), d, p)
    ensures KeysOf(keys, Snapshot(papers))
    ensures newEnergy == Energy(keys, Snapshot(papers), p) && newSatisfied == Satisfied(keys, Snapshot(papers), p)
    ensures !moved ==> Snapshot(papers) == old(Snapshot(papers))
    ensures moved ==> IsSwap(old(Snapshot(papers)), Snapshot(papers))
  {
    hide Energy, Satisfied, KeptOrSwapped, IsSwap;
    newEnergy, newSatisfied, moved := energy, satisfied, false;
    var paperA: nat :| paperA < |keys|;
    ghost var other: nat := if paperA == 0 then 1 else 0;
    assert other < |keys| && other != paperA;
    var paperB: nat :| paperB < |keys| && paperB != paperA;
    var keyA, keyB := keys[paperA], keys[paperB];
    assert keyA in papers && keyB in papers && keyA != keyB;
    var qsA, qsB := papers[keyA], papers[keyB];
    d := Draws(paperA, paperB, 0, 0, false);
    if qsA.Length == 0 || qsB.Length == 0 {
      return;
    }
    var idxA: nat :| idxA < qsA.Length;
    var idxB: nat :| idxB < qsB.Length;
    var qA, qB := qsA[idxA], qsB[idxB];
    d := Draws(paperA, paperB, idxA, idxB, false);
    if qA == qB {
      return;
    }
    var coin: bool := *;
    d := d.(coin := coin);
    newEnergy, newSatisfied, moved := Move(keys, papers, p, energy, satisfied, keyA, idxA, keyB, idxB, coin);
  }

  /** The swap, its evaluation, and the undo when it is rejected. */
  method Move(keys: seq<string>, papers: map<string, array<string>>, p: Problem, energy: real, satisfied: nat,
    keyA: string, idxA: nat, keyB: string, idxB: nat, coin: bool)
      returns (newEnergy: real, newSatisfied: nat, moved: bool)
    requires Unaliased(papers) && KeysOf(keys, Snapshot(papers))
      && ValidMove(Snapshot(papers), Exchange(keyA, idxA, keyB, idxB))
    requires energy == Energy(keys, Snapshot(papers), p) && satisfied == Satisfied(keys, Snapshot(papers), p)
    modifies papers[keyA], papers[keyB]
    ensures Snapshot(papers) == KeptOrSwapped(keys, old(Snapshot(papers)), Exchange(keyA, idxA, keyB, idxB), coin, p)
    ensures KeysOf(keys, Snapshot(papers))
    ensures newEnergy == Energy(keys, Snapshot(papers), p) && newSatisfied == Satisfied(keys, Snapshot(papers), p)
    ensures !moved ==> Snapshot(papers) == old(Snapshot(papers))
    ensures moved ==> IsSwap(old(Snapshot(papers)), Snapshot(papers))
  {
    hide Energy, Satisfied;
    ghost var before := Snapshot(papers);
    newEnergy, newSatisfied, moved := energy, satisfied, false;
    SwappedKeys(keys, before, keyA, idxA, keyB, idxB);
    hide KeysOf;
    var qA, qB := papers[keyA][idxA], papers[keyB][idxB];
    Write(papers, keyA, idxA, qB, keyB, idxB, qA);
    var e, s, total := ComputeEnergy(keys, Snapshot(papers), p);
    if e - energy < 0.0 || coin {
      newEnergy, newSatisfied, moved := e, s, true;
    } else {
      Write(papers, keyA, idxA, qA, keyB, idxB, qB);
      UndoRestores(before, keyA, idxA, keyB, idxB);
    }
  }

  /** The two assignments of a swap, and of its undo. */
  method Write(papers: map<string, array<string>>, a: string, i: nat, x: string, b: string, j: nat, y: string)
    requires Unaliased(papers) && ValidMove(Snapshot(papers), Exchange(a, i, b, j))
    modifies papers[a], papers[b]
    ensures Snapshot(papers) == Written(old(Snapshot(papers)), Exchange(a, i, b, j), x, y)
  {
    papers[a][i] := x;
    papers[b][j] := y;
    forall k | k in papers
      ensures papers[k][..] == Written(old(Snapshot(papers)), Exchange(a, i, b, j), x, y)[k]
    {
      if k != a && k != b {
        assert papers[k] != papers[a] && papers[k] != papers[b];
      }
    }
  }

  /** `solve_assignment_matrix` from the initial assignments on. */
  method Solve(keys: seq<string>, papers: map<string, array<string>>, p: Problem)
    returns (r: AssignmentMatrix, ghost accepted: seq<Matrix>)
    requires Unaliased(papers) && KeysOf(keys, Snapshot(papers))
    modifies set k | k in papers :: papers[k]
    ensures Explored(keys, Run(accepted, old(Snapshot(papers)), Snapshot(papers), r.assignments), p)
    ensures Kept(keys, old(Snapshot(papers)), r.assignments, p)
    ensures r.energy == Energy(keys, r.assignments, p) <= Energy(keys, old(Snapshot(papers)), p)
    ensures r.converged <==> Satisfied(keys, r.assignments, p) == 4
    ensures r.iterations <= MAX_ITERATIONS && (|keys| < 2 ==>
      r.iterations == 0 && r.assignments == old(Snapshot(papers)))
    ensures |keys| >= 2 && r.iterations < MAX_ITERATIONS ==>
      Satisfied(keys, Snapshot(papers), p) == 4 && Energy(keys, Snapshot(papers), p) < 0.01
  {
    hide Energy, Satisfied, Kept, IsSwap;
    ghost var initial := Snapshot(papers);
    var energy, satisfied, total := ComputeEnergy(keys, Snapshot(papers), p);
    var bestEnergy, best := energy, Snapshot(papers);
    accepted := [initial];
    if |keys| < 2 {
      TraceKeeps(keys, accepted, initial, p, 0);
      r := AssignmentMatrix(Snapshot(papers), energy, 0, satisfied == total);
      return;
    }
    var iteration, done := 0, false;
    while iteration < MAX_ITERATIONS && !done
      invariant 0 <= iteration <= MAX_ITERATIONS && (done ==> iteration < MAX_ITERATIONS)
      invariant KeysOf(keys, Snapshot(papers))
      invariant energy == Energy(keys, Snapshot(papers), p) && satisfied == Satisfied(keys, Snapshot(papers), p)
      invariant Explored(keys, Run(accepted, initial, Snapshot(papers), best), p)
      invariant bestEnergy == Energy(keys, best, p)
      invariant done ==> satisfied == 4 && energy < 0.01
      decreases MAX_ITERATIONS - iteration, !done
    {
      if satisfied == total && energy < 0.01 {
        done := true;
      } else {
        ghost var current := Snapshot(papers);
        var moved;
        ghost var draws;
        energy, satisfied, moved, draws := Iterate(keys, papers, p, energy, satisfied);
        if moved {
          Accept(keys, accepted, initial, current, best, Snapshot(papers), p);
          accepted := accepted + [Snapshot(papers)];
          if energy < bestEnergy {
            bestEnergy := energy;
            best := Snapshot(papers);
          }
        }
        iteration := iteration + 1;
      }
    }
    var finalEnergy, finalSatisfied, finalTotal := ComputeEnergy(keys, best, p);
    ghost var n :| 0 <= n < |accepted| && accepted[n] == best;
    TraceKeeps(keys, accepted, initial, p, n);
    r := AssignmentMatrix(best, finalEnergy, if done then iteration + 1 else iteration, finalSatisfied == finalTotal);
  }

  // ---------------------------------------------------------------- what convergence means

  ghost predicate AllKnown(m: Matrix, p: Problem) {
    forall k, i :: k in m && 0 <= i < |m[k]| ==> m[k][i] in p.questions
  }

  function TopicTable(p: Problem): map<string, string> {
    map q | q in p.questions :: p.questions[q].topic
  }

  lemma {:induction false} LabelsAreTopics(qids: seq<string>, p: Problem, topic: string)
    requires forall i :: 0 <= i < |qids| ==> qids[i] in p.questions
    ensures LabelCount(qids, TopicTable(p), topic) == TopicCount(qids, p.questions, topic)
  {
    if qids != [] { LabelsAreTopics(qids[..|qids| - 1], p, topic); }
  }

  lemma CoverageAgrees(m: Matrix, p: Problem)
    requires AllKnown(m, p)
    ensures Covers(m, p) <==> forall k :: k in m ==> LabelsMatch(m[k], p.blueprint, TopicTable(p))
  {
    hide TopicCount, LabelCount;
    forall k | k in m
      ensures PaperCovers(m[k], p) <==> LabelsMatch(m[k], p.blueprint, TopicTable(p))
    {
      forall t | 0 <= t < |p.blueprint|
        ensures LabelCount(m[k], TopicTable(p), p.blueprint[t].0) == TopicCount(m[k], p.questions, p.blueprint[t].0)
      {
        LabelsAreTopics(m[k], p, p.blueprint[t].0);
      }
    }
  }
}
