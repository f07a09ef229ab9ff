/** Secret sharing by bytes: splitting, reconstruction, secrecy; and the collect/reconstruct
    protocol of the 3-of-5 emergency release, cut at each `await`, so that between two steps of
    one call steps of any other calls may run. */
module Shamir {
  import opened Bits
  import opened GF256
  import opened Sequences
  import opened Wrappers

  // ================================================================ splitting and reconstruction

  datatype Fragment = Fragment(examId: string, index: byte, data: seq<byte>, holderRole: string)

  datatype ShamirError =
    | ThresholdTooSmall | FewerSharesThanThreshold | TooManyShares | EmptyKey
    | TooFewFragments | FragmentLengthMismatch | DuplicateIndices

  /** The random source: coefficient c (1-based) of the polynomial of byte b. */
  type Random = (nat, nat) -> byte

  // ---------------------------------------------------------------- the split

  function Coefficients(key: seq<byte>, threshold: nat, random: Random, b: nat): (c: seq<byte>)
    requires b < |key| && threshold >= 1
    ensures |c| == threshold && c[0] == key[b]
    ensures forall i :: 1 <= i < threshold ==> c[i] == random(b, i)
  {
    [key[b]] + seq(threshold - 1, (i: nat) => random(b, i + 1))
  }

  /** The data of the share at x: each byte's polynomial evaluated there. */
  function Share(key: seq<byte>, threshold: nat, random: Random, x: byte): (d: seq<byte>)
    requires threshold >= 1
    ensures |d| == |key|
    ensures forall b :: 0 <= b < |key| ==> d[b] == Eval(Coefficients(key, threshold, random, b), x)
  {
    seq(|key|, b requires 0 <= b < |key| => Eval(Coefficients(key, threshold, random, b), x))
  }

  const HOLDER_ROLES :=
    ["exam_controller_1", "exam_controller_2", "nta_official_1", "nta_official_2", "independent_auditor"]

  function SplitCheck(keyLength: nat, threshold: int, shares: int): Option<ShamirError> {
    if threshold < 2 then Some(ThresholdTooSmall)
    else if shares < threshold then Some(FewerSharesThanThreshold)
    else if shares > 255 then Some(TooManyShares)
    else if keyLength == 0 then Some(EmptyKey)
    else None
  }

  /** A genuine fragment of the split: its data is the share at its index. */
  ghost predicate Genuine(f: Fragment, key: seq<byte>, threshold: nat, random: Random)
    requires threshold >= 1
  {
    f.data == Share(key, threshold, random, f.index)
  }

  method SplitKey(tables: Tables, masterKey: seq<byte>, threshold: int, shares: int, examId: string, random: Random,
    holderName: nat -> string)
    returns (r: Result<seq<Fragment>, ShamirError>)
    requires tables.Valid()
    ensures SplitCheck(|masterKey|, threshold, shares).Some? ==>
      r == Failure(SplitCheck(|masterKey|, threshold, shares).value)
    ensures SplitCheck(|masterKey|, threshold, shares).None? ==> r.Success? && |r.value| == shares
    ensures r.Success? ==> forall s :: 0 <= s < shares ==>
      && r.value[s].index == s + 1 && r.value[s].examId == examId
      && r.value[s].holderRole == (if s < 5 then HOLDER_ROLES[s] else holderName(s + 1))
      && Genuine(r.value[s], masterKey, threshold, random)
  {
    hide Eval, PowerSum;
    if threshold < 2 { return Failure(ThresholdTooSmall); }
    if shares < threshold { return Failure(FewerSharesThanThreshold); }
    if shares > 255 { return Failure(TooManyShares); }
    if |masterKey| == 0 { return Failure(EmptyKey); }
    var shareBuffers := new byte[shares, |masterKey|]((s, b) => 0);
    var byteIdx := 0;
    while byteIdx < |masterKey|
      invariant 0 <= byteIdx <= |masterKey|
      invariant forall s, b :: 0 <= s < shares && 0 <= b < byteIdx ==>
        shareBuffers[s, b] == Share(masterKey, threshold, random, s + 1)[b]
    {
      FillByte(tables, masterKey, threshold, random, shareBuffers, byteIdx);
      byteIdx := byteIdx + 1;
    }
    var fragments := BuildFragments(masterKey, threshold, random, examId, holderName, shareBuffers);
    r := Success(fragments);
  }

  /** The body of the loop over key bytes: draw a polynomial, evaluate it at 1, 2, ..., shares. */
  method FillByte(tables: Tables, masterKey: seq<byte>, threshold: nat, random: Random, shareBuffers: array2<byte>,
    byteIdx: nat)
    requires tables.Valid() && 2 <= threshold
    requires shareBuffers.Length0 <= 255 && shareBuffers.Length1 == |masterKey| && byteIdx < |masterKey|
    modifies shareBuffers
    ensures forall s :: 0 <= s < shareBuffers.Length0 ==>
      shareBuffers[s, byteIdx] == Share(masterKey, threshold, random, s + 1)[byteIdx]
    ensures forall s, b :: 0 <= s < shareBuffers.Length0 && 0 <= b < |masterKey| && b != byteIdx ==>
      shareBuffers[s, b] == old(shareBuffers[s, b])
  {
    hide Eval, PowerSum;
    var coefficients := new byte[threshold](_ => 0);
    coefficients[0] := masterKey[byteIdx];
    var c := 1;
    while c < threshold
      invariant 1 <= c <= threshold && coefficients[0] == masterKey[byteIdx]
      invariant forall i :: 1 <= i < c ==> coefficients[i] == random(byteIdx, i)
      modifies coefficients
    {
      coefficients[c] := random(byteIdx, c);
      c := c + 1;
    }
    assert coefficients[..] == Coefficients(masterKey, threshold, random, byteIdx);
    var s := 0;
    while s < shareBuffers.Length0
      invariant 0 <= s <= shareBuffers.Length0
      invariant coefficients[..] == Coefficients(masterKey, threshold, random, byteIdx)
      invariant forall s' :: 0 <= s' < s ==>
        shareBuffers[s', byteIdx] == Share(masterKey, threshold, random, s' + 1)[byteIdx]
      invariant forall s', b :: 0 <= s' < shareBuffers.Length0 && 0 <= b < |masterKey| && b != byteIdx ==>
        shareBuffers[s', b] == old(shareBuffers[s', b])
    {
      var x := s + 1;
      var v := EvalPoly(tables, coefficients[..], x);
      HornerIsPowerSum(coefficients[..], x);
      shareBuffers[s, byteIdx] := v.value;
      s := s + 1;
    }
    forall i | 0 <= i < threshold { coefficients[i] := 0; }
  }

  method BuildFragments(masterKey: seq<byte>, threshold: nat, random: Random, examId: string,
    holderName: nat -> string, shareBuffers: array2<byte>)
    returns (fragments: seq<Fragment>)
    requires 2 <= threshold && shareBuffers.Length0 <= 255 && shareBuffers.Length1 == |masterKey|
    requires forall s, b :: 0 <= s < shareBuffers.Length0 && 0 <= b < |masterKey| ==>
      shareBuffers[s, b] == Share(masterKey, threshold, random, s + 1)[b]
    ensures |fragments| == shareBuffers.Length0
    ensures forall s :: 0 <= s < |fragments| ==>
      && fragments[s].index == s + 1 && fragments[s].examId == examId
      && fragments[s].holderRole == (if s < 5 then HOLDER_ROLES[s] else holderName(s + 1))
      && Genuine(fragments[s], masterKey, threshold, random)
  {
    hide Share;
    fragments := [];
    var s := 0;
    while s < shareBuffers.Length0
      invariant 0 <= s <= shareBuffers.Length0 && |fragments| == s
      invariant forall i :: 0 <= i < s ==>
        && fragments[i].index == i + 1 && fragments[i].examId == examId
        && fragments[i].holderRole == (if i < 5 then HOLDER_ROLES[i] else holderName(i + 1))
        && Genuine(fragments[i], masterKey, threshold, random)
    {
      var holderRole := if s < |HOLDER_ROLES| then HOLDER_ROLES[s] else holderName(s + 1);
      var data := seq(|masterKey|, b requires 0 <= b < |masterKey| reads shareBuffers => shareBuffers[s, b]);
      assert data == Share(masterKey, threshold, random, s + 1);
      fragments := fragments + [Fragment(examId, s + 1, data, holderRole)];
      s := s + 1;
    }
  }

  // ---------------------------------------------------------------- the reconstruction

  function Indices(fragments: seq<Fragment>): (xs: seq<byte>)
    ensures |xs| == |fragments| && forall i :: 0 <= i < |xs| ==> xs[i] == fragments[i].index
  {
    seq(|fragments|, i requires 0 <= i < |fragments| => fragments[i].index)
  }

  predicate SameLengths(fragments: seq<Fragment>) {
    forall i :: 0 <= i < |fragments| ==> |fragments[i].data| == |fragments[0].data|
  }

  function Column(fragments: seq<Fragment>, b: nat): (ys: seq<byte>)
    requires forall i :: 0 <= i < |fragments| ==> b < |fragments[i].data|
    ensures |ys| == |fragments| && forall i :: 0 <= i < |ys| ==> ys[i] == fragments[i].data[b]
  {
    seq(|fragments|, i requires 0 <= i < |fragments| => fragments[i].data[b])
  }

  /** What reconstruction returns: each byte interpolated at zero, unless a check fails. */
  ghost function Recover(fragments: seq<Fragment>): (r: Result<seq<byte>, ShamirError>)
    ensures r.Success? ==> |fragments| >= 2 && |r.value| == |fragments[0].data|
  {
    if |fragments| < 2 then Failure(TooFewFragments)
    else if !SameLengths(fragments) then Failure(FragmentLengthMismatch)
    else if !Distinct(Indices(fragments)) then Failure(DuplicateIndices)
    else Success(seq(|fragments[0].data|, b requires 0 <= b < |fragments[0].data| =>
      Lagrange(Indices(fragments), Column(fragments, b))))
  }

  method ReconstructKey(tables: Tables, fragments: seq<Fragment>) returns (r: Result<seq<byte>, ShamirError>)
    requires tables.Valid()
    ensures r == Recover(fragments)
  {
    hide Lagrange;
    if |fragments| < 2 { return Failure(TooFewFragments); }
    var dataLength := |fragments[0].data|;
    var i := 0;
    while i < |fragments|
      invariant 0 <= i <= |fragments|
      invariant forall k :: 0 <= k < i ==> |fragments[k].data| == dataLength
    {
      if |fragments[i].data| != dataLength {
        return Failure(FragmentLengthMismatch);
      }
      i := i + 1;
    }
    var xs := Indices(fragments);
    SetSize(xs);
    if |ToSet(xs)| != |fragments| { return Failure(DuplicateIndices); }
    var result := new byte[dataLength](_ => 0);
    var byteIdx := 0;
    while byteIdx < dataLength
      invariant 0 <= byteIdx <= dataLength
      invariant forall b :: 0 <= b < byteIdx ==> result[b] == Lagrange(xs, Column(fragments, b))
    {
      var y := LagrangeInterpolateAtZero(tables, xs, Column(fragments, byteIdx));
      result[byteIdx] := y.value;
      byteIdx := byteIdx + 1;
    }
    assert result[..] == Recover(fragments).value;
    r := Success(result[..]);
  }

  // ---------------------------------------------------------------- correctness

  /** Any two or more genuine fragments with distinct indices, at least `threshold` of
      them, in any order, reconstruct the key. */
  lemma ReconstructionCorrect(key: seq<byte>, threshold: nat, random: Random, fragments: seq<Fragment>)
    requires threshold >= 2 && |fragments| >= threshold
    requires Distinct(Indices(fragments))
    requires forall i :: 0 <= i < |fragments| ==> Genuine(fragments[i], key, threshold, random)
    ensures Recover(fragments) == Success(key)
  {
    hide Eval, Lagrange;
    var xs, r := Indices(fragments), Recover(fragments);
    assert forall i :: 0 <= i < |fragments| ==> |fragments[i].data| == |key|;
    assert r.Success? && |r.value| == |key|;
    forall b | 0 <= b < |key|
      ensures r.value[b] == key[b]
    {
      var c := Coefficients(key, threshold, random, b);
      assert Column(fragments, b) == Values(c, xs);
      LagrangeRecovers(c, xs);
      EvalAtZero(c);
    }
    assert r.value == key;
  }

  /** With one fragment that may not be genuine among enough others, each byte comes out right
      exactly when that fragment's byte is, even when the genuine ones alone would do. */
  lemma OneOddFragment(key: seq<byte>, threshold: nat, random: Random, fragments: seq<Fragment>, o: nat)
    requires threshold >= 2 && |fragments| >= threshold && o < |fragments|
    requires Distinct(Indices(fragments)) && forall i :: 0 <= i < |fragments| ==> fragments[i].index != 0
    requires forall i :: 0 <= i < |fragments| && i != o ==> Genuine(fragments[i], key, threshold, random)
    requires |fragments[o].data| == |key|
    ensures Recover(fragments).Success? && |Recover(fragments).value| == |key|
    ensures forall b :: 0 <= b < |key| ==>
      (Recover(fragments).value[b] == key[b] <==>
       fragments[o].data[b] == Share(key, threshold, random, fragments[o].index)[b])
  {
    hide Eval, Lagrange, Coefficients, Genuine;
    GenuineSizes(key, threshold, random, fragments, o);
    var xs := Indices(fragments);
    forall b | 0 <= b < |key|
      ensures Recover(fragments).value[b] == key[b] <==>
        fragments[o].data[b] == Share(key, threshold, random, fragments[o].index)[b]
    {
      OddByte(key, threshold, random, fragments, o, b);
    }
  }

  lemma GenuineSizes(key: seq<byte>, threshold: nat, random: Random, fragments: seq<Fragment>, o: nat)
    requires threshold >= 2 && |fragments| >= 2 && o < |fragments|
    requires forall i :: 0 <= i < |fragments| && i != o ==> Genuine(fragments[i], key, threshold, random)
    ensures forall i :: 0 <= i < |fragments| && i != o ==> |fragments[i].data| == |key|
    ensures SameLengths(fragments) <==> |fragments[o].data| == |key|
  {
    hide Eval, Coefficients;
    var other := if o == 0 then 1 else 0;
    assert Genuine(fragments[other], key, threshold, random);
  }

  lemma OddByte(key: seq<byte>, threshold: nat, random: Random, fragments: seq<Fragment>, o: nat, b: nat)
    requires threshold >= 2 && |fragments| >= threshold && o < |fragments| && SameLengths(fragments)
    requires Distinct(Indices(fragments)) && forall i :: 0 <= i < |fragments| ==> fragments[i].index != 0
    requires forall i :: 0 <= i < |fragments| && i != o ==> Genuine(fragments[i], key, threshold, random)
    requires b < |key| && |fragments[0].data| == |key|
    ensures Lagrange(Indices(fragments), Column(fragments, b)) == key[b] <==>
      fragments[o].data[b] == Share(key, threshold, random, fragments[o].index)[b]
  {
    hide Eval, Lagrange;
    var xs, c := Indices(fragments), Coefficients(key, threshold, random, b);
    var right, ys := Values(c, xs), Column(fragments, b);
    forall i | 0 <= i < |xs| && i != o
      ensures ys[i] == right[i]
    {
      assert Genuine(fragments[i], key, threshold, random);
    }
    assert ys == right[o := ys[o]];
    OneValueMatters(xs, right, o, ys[o]);
    LagrangeRecovers(c, xs);
    EvalAtZero(c);
  }

  /** Splitting and then reconstructing from any choice of distinct fragments. */
  method SplitThenReconstruct(tables: Tables, key: seq<byte>, threshold: nat, shares: nat, random: Random,
    holderName: nat -> string, chosen: seq<nat>)
    returns (r: Result<seq<byte>, ShamirError>)
    requires tables.Valid()
    requires 2 <= threshold <= shares <= 255 && key != [] && threshold <= |chosen|
    requires forall i :: 0 <= i < |chosen| ==> chosen[i] < shares
    requires forall i, j :: 0 <= i < j < |chosen| ==> chosen[i] != chosen[j]
    ensures r == Success(key)
  {
    var all := SplitKey(tables, key, threshold, shares, "", random, holderName);
    var picked := seq(|chosen|, i requires 0 <= i < |chosen| => all.value[chosen[i]]);
    r := ReconstructKey(tables, picked);
    ReconstructionCorrect(key, threshold, random, picked);
  }

  // ---------------------------------------------------------------- secrecy

  ghost predicate Consistent(secret: byte, coefficients: seq<byte>, xs: seq<byte>, ys: seq<byte>)
    requires |xs| == |ys|
  {
    forall i :: 0 <= i < |xs| ==> Eval([secret] + coefficients, xs[i]) == ys[i]
  }

  ghost predicate ValidPoints(xs: seq<byte>) {
    Distinct(xs) && forall i :: 0 <= i < |xs| ==> xs[i] != 0
  }

  /** What the random part must evaluate to at x for the share there to be y. */
  lemma ConsistentAt(secret: byte, c: seq<byte>, x: byte, y: byte)
    requires x != 0
    ensures Eval([secret] + c, x) == y <==> Eval(c, x) == Quotient(Add(y, secret), x)
  {
    hide *;
    EvalCons(secret, c, x);
    var v := SlowMul(x, Eval(c, x));
    MulComm(x, Eval(c, x));
    QuotientUnique(Add(y, secret), x, Eval(c, x));
    AddComm(y, secret);
    AddCancel(v, secret);
    AddCancel(y, secret);
  }

  /** With threshold - 1 shares, whatever their bytes, every secret is explained by exactly
      one choice of the random coefficients. */
  lemma ExactlyOneExplanation(secret: byte, xs: seq<byte>, ys: seq<byte>) returns (c: seq<byte>)
    requires |xs| == |ys| && ValidPoints(xs)
    ensures |c| == |xs| && Consistent(secret, c, xs, ys)
    ensures forall d :: |d| == |xs| && Consistent(secret, d, xs, ys) ==> d == c
  {
    hide Eval, Quotient, Add;
    var targets := seq(|xs|, i requires 0 <= i < |xs| => Quotient(Add(ys[i], secret), xs[i]));
    c := Interpolate(xs, targets);
    InterpolateCorrect(xs, targets);
    forall i | 0 <= i < |xs|
      ensures Eval([secret] + c, xs[i]) == ys[i]
    {
      ConsistentAt(secret, c, xs[i], ys[i]);
    }
    forall d | |d| == |xs| && Consistent(secret, d, xs, ys)
      ensures d == c
    {
      forall i | 0 <= i < |xs|
        ensures Eval(d, xs[i]) == Eval(c, xs[i])
      {
        ConsistentAt(secret, d, xs[i], ys[i]);
      }
      Unique(d, c, xs);
    }
  }

  /** Fewer than threshold shares explain any two secrets equally often: one translation of
      the coefficients, its own inverse, exchanges the explanations of one secret for those
      of the other. */
  lemma EquallyManyExplanations(secret: byte, other: byte, xs: seq<byte>, ys: seq<byte>, n: nat)
    returns (delta: seq<byte>)
    requires |xs| == |ys| <= n && ValidPoints(xs)
    ensures |delta| == n
    ensures forall c :: |c| == n ==>
      && AddPoly(AddPoly(c, delta), delta) == c
      && (Consistent(secret, c, xs, ys) <==> Consistent(other, AddPoly(c, delta), xs, ys))
  {
    hide Eval, Add, AddPoly, Consistent;
    var zeros := seq(|xs|, _ => 0);
    var short := ExactlyOneExplanation(Add(secret, other), xs, zeros);
    delta := short + seq(n - |xs|, _ => 0);
    forall c | |c| == n
      ensures AddPoly(AddPoly(c, delta), delta) == c
      ensures Consistent(secret, c, xs, ys) <==> Consistent(other, AddPoly(c, delta), xs, ys)
    {
      AddPolyTwice(c, delta);
      Translate(secret, other, short, delta, c, xs, ys);
    }
  }

  lemma AddPolyTwice(c: seq<byte>, delta: seq<byte>)
    requires |c| == |delta|
    ensures AddPoly(AddPoly(c, delta), delta) == c
  {
    hide Add, AddPoly;
    forall i | 0 <= i < |c|
      ensures AddPoly(AddPoly(c, delta), delta)[i] == c[i]
    {
      AddCancel(c[i], delta[i]);
    }
  }

  lemma Translate(secret: byte, other: byte, short: seq<byte>, delta: seq<byte>, c: seq<byte>, xs: seq<byte>,
    ys: seq<byte>)
    requires |xs| == |ys| && |short| <= |delta| == |c|
    requires delta == short + seq(|delta| - |short|, _ => 0)
    requires Consistent(Add(secret, other), short, xs, seq(|xs|, _ => 0))
    ensures Consistent(secret, c, xs, ys) <==> Consistent(other, AddPoly(c, delta), xs, ys)
  {
    hide Eval, Add, AddPoly;
    forall i | 0 <= i < |xs|
      ensures Eval([secret] + c, xs[i]) == Eval([other] + AddPoly(c, delta), xs[i])
    {
      var x := xs[i];
      EvalZeros([Add(secret, other)] + short, |delta| - |short|, x);
      assert [Add(secret, other)] + short + seq(|delta| - |short|, _ => 0) == [Add(secret, other)] + delta;
      EvalAddPoly([secret] + c, [Add(secret, other)] + delta, x);
      AddCancel(other, secret);
      AddComm(other, secret);
      AddPolyCons(secret, c, Add(secret, other), delta);
      AddZero(Eval([secret] + c, x));
    }
  }

  lemma AddPolyCons(a: byte, c: seq<byte>, b: byte, d: seq<byte>)
    requires |c| == |d|
    ensures AddPoly([a] + c, [b] + d) == [Add(a, b)] + AddPoly(c, d)
  {
    hide Add;
    assert ([a] + c)[1..] == c && ([b] + d)[1..] == d;
  }

  // ================================================================ the emergency release

  const THRESHOLD := 3

  datatype Item = Item(index: int, data: seq<byte>, holderRole: string)

  /** Each exam's pending list is an object shared between the map and suspended calls, so
      it is named by an id; the id indexes `lists` in order of creation. */
  datatype Memory = Memory(pending: map<string, nat>, lists: seq<seq<Item>>)

  datatype CollectError = InvalidIndex | AlreadySubmitted

  predicate Submitted(items: seq<Item>, index: int) {
    exists k :: 0 <= k < |items| && items[k].index == index
  }

  /** The list of an exam, created empty when there is none. */
  function ListOf(m: Memory, exam: string): (Memory, nat) {
    if exam in m.pending then (m, m.pending[exam])
    else (Memory(m.pending[exam := |m.lists|], m.lists + [[]]), |m.lists|)
  }

  /** `existing.push(fragment)`: the list object itself grows. */
  function Push(m: Memory, id: nat, item: Item): Memory
    requires id < |m.lists|
  {
    m.(lists := m.lists[id := m.lists[id] + [item]])
  }

  /** `collectFragment` up to its first await. */
  function CollectStart(m: Memory, exam: string, item: Item): (r: (Memory, Result<nat, CollectError>))
    requires InRange(m)
  {
    if item.index < 1 || item.index > 5 then (m, Failure(InvalidIndex))
    else
      var (m1, id) := ListOf(m, exam);
      if Submitted(m1.lists[id], item.index) then (m1, Failure(AlreadySubmitted))
      else (Push(m1, id, item), Success(id))
  }

  function Fragments(exam: string, items: seq<Item>): (f: seq<Fragment>)
    requires forall k :: 0 <= k < |items| ==> 1 <= items[k].index <= 5
    ensures |f| == |items|
    ensures forall k :: 0 <= k < |items| ==> f[k] == Fragment(exam, items[k].index, items[k].data, items[k].holderRole)
  {
    seq(|items|, k requires 0 <= k < |items| => Fragment(exam, items[k].index, items[k].data, items[k].holderRole))
  }

  datatype Attempt = Insufficient(count: nat) | Threw(error: ShamirError) | Started(id: nat, key: seq<byte>)

  /** `attemptReconstruction` up to its first await. */
  ghost function AttemptStart(m: Memory, exam: string): Attempt
    requires WellFormed(m)
  {
    if exam !in m.pending then Insufficient(0)
    else
      var items := m.lists[m.pending[exam]];
      if |items| < THRESHOLD then Insufficient(|items|)
      else
        var r := Recover(Fragments(exam, items));
        if r.Success? then Started(m.pending[exam], r.value) else Threw(r.error)
  }

  function Zeroised(items: seq<Item>): (z: seq<Item>)
    ensures |z| == |items|
    ensures forall k :: 0 <= k < |items| ==> z[k] == items[k].(data := seq(|items[k].data|, _ => 0))
  {
    seq(|items|, k requires 0 <= k < |items| => items[k].(data := seq(|items[k].data|, _ => 0)))
  }

  /** `attemptReconstruction` from its last await on: wipe the list the call started with
      and remove whatever list the exam has now. */
  function AttemptFinish(m: Memory, exam: string, id: nat): Memory
    requires id < |m.lists|
  {
    Memory(m.pending - {exam}, m.lists[id := Zeroised(m.lists[id])])
  }

  // ---------------------------------------------------------------- invariants of the memory

  predicate InRange(m: Memory) {
    forall e :: e in m.pending ==> m.pending[e] < |m.lists|
  }

  ghost predicate DistinctIndices(items: seq<Item>) {
    && (forall k :: 0 <= k < |items| ==> 1 <= items[k].index <= 5)
    && (forall j, k :: 0 <= j < k < |items| ==> items[j].index != items[k].index)
  }

  ghost predicate WellFormed(m: Memory) {
    && InRange(m)
    && (forall e, f :: e in m.pending && f in m.pending && e != f ==> m.pending[e] != m.pending[f])
    && (forall k :: 0 <= k < |m.lists| ==> DistinctIndices(m.lists[k]))
  }

  lemma CollectKeepsWellFormed(m: Memory, exam: string, item: Item)
    requires WellFormed(m)
    ensures WellFormed(CollectStart(m, exam, item).0)
  {
    hide DistinctIndices, Submitted;
    EmptyDistinct();
    var (m1, id) := ListOf(m, exam);
    assert WellFormed(m1);
    PushKeepsDistinct(m1.lists[id], item);
  }

  lemma EmptyDistinct()
    ensures DistinctIndices([])
  {}

  lemma PushKeepsDistinct(items: seq<Item>, item: Item)
    requires DistinctIndices(items)
    ensures 1 <= item.index <= 5 && !Submitted(items, item.index) ==> DistinctIndices(items + [item])
  {}

  lemma FinishKeepsWellFormed(m: Memory, exam: string, id: nat)
    requires WellFormed(m) && id < |m.lists|
    ensures WellFormed(AttemptFinish(m, exam, id))
  {
    assert DistinctIndices(m.lists[id]);
  }

  // ---------------------------------------------------------------- the service object

  class Service {
    const tables: Tables
    var pendingFragments: map<string, nat>
    var lists: seq<seq<Item>>

    function State(): Memory
      reads this
    {
      Memory(pendingFragments, lists)
    }

    ghost predicate Valid()
      reads this, tables.exp, tables.log
    {
      tables.Valid() && WellFormed(State())
    }

    constructor ()
      ensures Valid() && fresh(tables.exp) && fresh(tables.log)
      ensures State() == Memory(map[], [])
    {
      tables := new Tables();
      pendingFragments := map[];
      lists := [];
    }

    method CollectFragmentStart(exam: string, item: Item) returns (r: Result<nat, CollectError>)
      requires Valid()
      modifies this
      ensures Valid() && (State(), r) == CollectStart(old(State()), exam, item)
    {
      CollectKeepsWellFormed(State(), exam, item);
      if item.index < 1 || item.index > 5 {
        return Failure(InvalidIndex);
      }
      if exam !in pendingFragments {
        pendingFragments := pendingFragments[exam := |lists|];
        lists := lists + [[]];
      }
      var id := pendingFragments[exam];
      var collected := lists[id];
      var k := 0;
      while k < |collected|
        invariant 0 <= k <= |collected|
        invariant forall j :: 0 <= j < k ==> collected[j].index != item.index
      {
        if collected[k].index == item.index {
          return Failure(AlreadySubmitted);
        }
        k := k + 1;
      }
      lists := lists[id := collected + [item]];
      r := Success(id);
    }

    /** The reply of `collectFragment`, after its last await: the list as it is by then. */
    method CollectFragmentFinish(id: nat) returns (fragmentsCollected: nat, thresholdMet: bool)
      requires Valid() && id < |lists|
      ensures fragmentsCollected == |lists[id]| && (thresholdMet <==> |lists[id]| >= THRESHOLD)
    {
      fragmentsCollected := |lists[id]|;
      thresholdMet := fragmentsCollected >= THRESHOLD;
    }

    method AttemptReconstructionStart(exam: string) returns (r: Attempt)
      requires Valid()
      ensures r == AttemptStart(State(), exam)
    {
      if exam !in pendingFragments || |lists[pendingFragments[exam]]| < THRESHOLD {
        r := Insufficient(if exam in pendingFragments then |lists[pendingFragments[exam]]| else 0);
      } else {
        assert DistinctIndices(lists[pendingFragments[exam]]);
        var key := ReconstructKey(tables, Fragments(exam, lists[pendingFragments[exam]]));
        r := if key.Success? then Started(pendingFragments[exam], key.value) else Threw(key.error);
      }
    }

    method AttemptReconstructionFinish(exam: string, id: nat) returns (fragmentsUsed: nat)
      requires Valid() && id < |lists|
      modifies this
      ensures Valid() && State() == AttemptFinish(old(State()), exam, id)
      ensures fragmentsUsed == |old(lists)[id]|
    {
      FinishKeepsWellFormed(State(), exam, id);
      var was := lists[id];
      var k := 0;
      while k < |lists[id]|
        invariant pendingFragments == old(pendingFragments) && |lists| == |old(lists)|
        invariant 0 <= k <= |lists[id]| == |was|
        invariant forall j :: 0 <= j < |lists| && j != id ==> lists[j] == old(lists)[j]
        invariant forall j :: 0 <= j < |was| ==> lists[id][j] == if j < k then Zeroised(was)[j] else was[j]
      {
        var c := lists[id][k];
        lists := lists[id := lists[id][k := c.(data := seq(|c.data|, _ => 0))]];
        k := k + 1;
      }
      assert lists[id] == Zeroised(was);
      assert lists == old(lists)[id := Zeroised(was)];
      pendingFragments := map e | e in pendingFragments && e != exam :: pendingFragments[e];
      assert pendingFragments == old(pendingFragments) - {exam};
      fragmentsUsed := |was|;
    }
  }

  // ---------------------------------------------------------------- interleaved runs

  /** A call suspended at one of its two awaits. `used` and `since` record, for the statements
      below only, the fragments an attempt began with and how many had been accepted by then. */
  datatype Task =
    | Collecting(exam: string, id: nat, second: bool)
    | Attempting(exam: string, id: nat, key: seq<byte>, second: bool, used: seq<Item>, since: nat)

  datatype Reply =
    | Rejected(collectError: CollectError)
    | Collected(count: nat, thresholdMet: bool)
    | NotEnough(exam: string, count: nat)
    | Failed(exam: string, error: ShamirError)
    | Recovered(exam: string, key: seq<byte>, fragmentsUsed: nat)

  /** `accepted` records, for the statements below only, each accepted submission. */
  datatype System = System(memory: Memory, tasks: seq<Task>, replies: seq<Reply>, accepted: seq<(nat, Item)>)

  datatype Event = Submit(exam: string, item: Item) | Request(exam: string) | Resume(task: nat)

  function RemoveTask(tasks: seq<Task>, i: nat): seq<Task>
    requires i < |tasks|
  {
    tasks[..i] + tasks[i + 1..]
  }

  ghost function Step(s: System, e: Event): System
    requires WellFormed(s.memory) && TasksInRange(s)
  {
    match e
    case Submit(exam, item) =>
      (match CollectStart(s.memory, exam, item)
       case (m, Failure(err)) => s.(memory := m, replies := s.replies + [Rejected(err)])
       case (m, Success(id)) =>
         s.(memory := m, tasks := s.tasks + [Collecting(exam, id, false)], accepted := s.accepted + [(id, item)]))
    case Request(exam) =>
      (match AttemptStart(s.memory, exam)
       case Insufficient(n) => s.(replies := s.replies + [NotEnough(exam, n)])
       case Threw(err) => s.(replies := s.replies + [Failed(exam, err)])
       case Started(id, key) => s.(tasks :=
         s.tasks + [Attempting(exam, id, key, false, s.memory.lists[id], |s.accepted|)]))
    case Resume(i) =>
      if i >= |s.tasks| then s
      else if !s.tasks[i].second then s.(tasks := s.tasks[i := s.tasks[i].(second := true)])
      else
        var t, rest, n := s.tasks[i], RemoveTask(s.tasks, i), |s.memory.lists[s.tasks[i].id]|;
        if t.Collecting? then s.(tasks := rest, replies := s.replies + [Collected(n, n >= THRESHOLD)])
        else System(AttemptFinish(s.memory, t.exam, t.id), rest, s.replies + [Recovered(t.exam, t.key, n)], s.accepted)
  }

  ghost predicate TasksInRange(s: System) {
    forall i :: 0 <= i < |s.tasks| ==> s.tasks[i].id < |s.memory.lists|
  }

  /** The submissions accepted into one list, in order. */
  function AcceptedInto(accepted: seq<(nat, Item)>, id: nat): seq<Item> {
    if accepted == [] then []
    else
      var last := accepted[|accepted| - 1];
      AcceptedInto(accepted[..|accepted| - 1], id) + if last.0 == id then [last.1] else []
  }

  lemma AcceptedAppend(accepted: seq<(nat, Item)>, id: nat, item: Item, k: nat)
    ensures AcceptedInto(accepted + [(id, item)], k) == AcceptedInto(accepted, k) + if id == k then [item] else []
  {
    assert (accepted + [(id, item)])[..|accepted|] == accepted;
  }

  lemma {:induction false} AcceptedFresh(accepted: seq<(nat, Item)>, k: nat)
    requires forall j :: 0 <= j < |accepted| ==> accepted[j].0 < k
    ensures AcceptedInto(accepted, k) == []
  {
    if accepted != [] {
      AcceptedFresh(accepted[..|accepted| - 1], k);
    }
  }

  /** Every list still pending holds exactly what was accepted into it, unchanged. */
  ghost predicate Untouched(s: System)
    requires InRange(s.memory)
  {
    && (forall j :: 0 <= j < |s.accepted| ==> s.accepted[j].0 < |s.memory.lists|)
    && (forall e :: e in s.memory.pending ==>
          s.memory.lists[s.memory.pending[e]] == AcceptedInto(s.accepted, s.memory.pending[e]))
  }

  /** A suspended call refers to a list that no other exam uses. */
  ghost predicate Owned(s: System) {
    forall i, e ::
      0 <= i < |s.tasks| && e in s.memory.pending && s.memory.pending[e] == s.tasks[i].id ==> e == s.tasks[i].exam
  }

  ghost predicate Inv(s: System) {
    WellFormed(s.memory) && TasksInRange(s) && Owned(s) && Untouched(s)
  }

  lemma ListOfKeepsInv(s: System, exam: string)
    requires Inv(s)
    ensures Inv(s.(memory := ListOf(s.memory, exam).0))
  {
    hide DistinctIndices, AcceptedInto;
    EmptyDistinct();
    AcceptedFresh(s.accepted, |s.memory.lists|);
  }

  lemma PushKeepsUntouched(s: System, id: nat, item: Item)
    requires InRange(s.memory) && Untouched(s) && id < |s.memory.lists|
    ensures Untouched(s.(memory := Push(s.memory, id, item), accepted := s.accepted + [(id, item)]))
  {
    hide AcceptedInto;
    var m := Push(s.memory, id, item);
    forall e | e in m.pending
      ensures m.lists[m.pending[e]] == AcceptedInto(s.accepted + [(id, item)], m.pending[e])
    {
      AcceptedAppend(s.accepted, id, item, m.pending[e]);
    }
  }

  lemma SubmitKeepsInv(s: System, exam: string, item: Item)
    requires Inv(s)
    ensures Inv(Step(s, Submit(exam, item)))
  {
    hide AcceptedInto, DistinctIndices;
    CollectKeepsWellFormed(s.memory, exam, item);
    ListOfKeepsInv(s, exam);
    var (m1, id) := ListOf(s.memory, exam);
    PushKeepsUntouched(s.(memory := m1), id, item);
  }

  lemma RequestKeepsInv(s: System, exam: string)
    requires Inv(s)
    ensures Inv(Step(s, Request(exam)))
  {
    hide AcceptedInto, DistinctIndices, Recover;
  }

  lemma FinishKeepsInv(s: System, i: nat)
    requires Inv(s) && i < |s.tasks|
    ensures Inv(s.(memory := AttemptFinish(s.memory, s.tasks[i].exam, s.tasks[i].id)))
  {
    hide AcceptedInto, DistinctIndices, Zeroised;
    FinishKeepsWellFormed(s.memory, s.tasks[i].exam, s.tasks[i].id);
  }

  lemma RemoveKeepsInv(s: System, i: nat)
    requires Inv(s) && i < |s.tasks|
    ensures Inv(s.(tasks := RemoveTask(s.tasks, i)))
    ensures forall t :: t in RemoveTask(s.tasks, i) ==> t in s.tasks
  {
    hide AcceptedInto, DistinctIndices;
    var rest := RemoveTask(s.tasks, i);
    forall j | 0 <= j < |rest|
      ensures rest[j] in s.tasks
    {
      assert rest[j] == s.tasks[if j < i then j else j + 1];
    }
  }

  lemma ResumeKeepsInv(s: System, i: nat)
    requires Inv(s)
    ensures Inv(Step(s, Resume(i)))
  {
    hide AcceptedInto, DistinctIndices, WellFormed, AttemptFinish;
    if i < |s.tasks| && s.tasks[i].second {
      if s.tasks[i].Attempting? {
        FinishKeepsInv(s, i);
        RemoveKeepsInv(s.(memory := AttemptFinish(s.memory, s.tasks[i].exam, s.tasks[i].id)), i);
      } else {
        RemoveKeepsInv(s, i);
      }
    }
  }

  lemma StepKeepsInv(s: System, e: Event)
    requires Inv(s)
    ensures Inv(Step(s, e))
  {
    hide *;
    match e
    case Submit(exam, item) => SubmitKeepsInv(s, exam, item);
    case Request(exam) => RequestKeepsInv(s, exam);
    case Resume(i) => ResumeKeepsInv(s, i);
  }

  const START := System(Memory(map[], []), [], [], [])

  /** The state after any interleaving of calls and continuations. */
  ghost function Run(events: seq<Event>): (s: System)
    ensures Inv(s)
  {
    if events == [] then START
    else
      var s := Run(events[..|events| - 1]);
      StepKeepsInv(s, events[|events| - 1]);
      Step(s, events[|events| - 1])
  }

  /** After any interleaving each pending list has distinct indices in 1..5 and holds the
      submitted bytes: nothing pending was ever zeroised or altered. */
  lemma PendingIsIntact(events: seq<Event>, exam: string)
    requires exam in Run(events).memory.pending
    ensures var s := Run(events); var id := s.memory.pending[exam];
            id < |s.memory.lists| && DistinctIndices(s.memory.lists[id])
            && s.memory.lists[id] == AcceptedInto(s.accepted, id)
  {
    hide Run;
  }

  // ---------------------------------------------------------------- genuine submissions

  datatype Secret = Secret(key: seq<byte>, random: Random)

  ghost predicate GenuineItem(item: Item, z: Secret) {
    0 <= item.index < 256 ==> item.data == Share(z.key, THRESHOLD, z.random, item.index)
  }

  ghost predicate AllGenuine(items: seq<Item>, z: Secret) {
    forall k :: 0 <= k < |items| ==> GenuineItem(items[k], z)
  }

  ghost predicate SubmissionsGenuine(events: seq<Event>, exam: string, z: Secret) {
    forall k :: 0 <= k < |events| && events[k].Submit? && events[k].exam == exam ==> GenuineItem(events[k].item, z)
  }

  ghost predicate Honest(s: System, exam: string, z: Secret)
    requires InRange(s.memory)
  {
    && (exam in s.memory.pending ==> AllGenuine(s.memory.lists[s.memory.pending[exam]], z))
    && (forall t :: t in s.tasks && t.Attempting? && t.exam == exam ==> t.key == z.key)
    && (forall r :: r in s.replies && r.Recovered? && r.exam == exam ==> r.key == z.key)
    && (forall r :: r in s.replies ==> !(r.Failed? && r.exam == exam))
  }

  /** Three genuine fragments under distinct indices give back the key. */
  lemma AttemptIsRight(m: Memory, exam: string, z: Secret)
    requires WellFormed(m) && exam in m.pending && |m.lists[m.pending[exam]]| >= THRESHOLD
    requires AllGenuine(m.lists[m.pending[exam]], z)
    ensures AttemptStart(m, exam) == Started(m.pending[exam], z.key)
  {
    hide Recover, Share;
    var items := m.lists[m.pending[exam]];
    assert DistinctIndices(items);
    var f := Fragments(exam, items);
    forall k | 0 <= k < |f|
      ensures Genuine(f[k], z.key, THRESHOLD, z.random)
    {
      assert GenuineItem(items[k], z);
    }
    ReconstructionCorrect(z.key, THRESHOLD, z.random, f);
  }

  /** An attempt interpolates from all pending fragments: when all but one are genuine, however
      many there are, it returns the key exactly when that one is genuine as well, and throws
      when it has another length. */
  lemma OddAttempt(m: Memory, exam: string, z: Secret, o: nat)
    requires WellFormed(m) && exam in m.pending && |m.lists[m.pending[exam]]| >= THRESHOLD
    requires var items := m.lists[m.pending[exam]];
             o < |items| && forall k :: 0 <= k < |items| && k != o ==> GenuineItem(items[k], z)
    ensures var odd := m.lists[m.pending[exam]][o];
            && (|odd.data| != |z.key| ==> AttemptStart(m, exam) == Threw(FragmentLengthMismatch))
            && (|odd.data| == |z.key| ==>
                  && AttemptStart(m, exam).Started?
                  && (AttemptStart(m, exam).key == z.key <==> GenuineItem(odd, z)))
  {
    hide Recover, Share;
    var items := m.lists[m.pending[exam]];
    assert DistinctIndices(items);
    var f := Fragments(exam, items);
    forall k | 0 <= k < |f| && k != o
      ensures Genuine(f[k], z.key, THRESHOLD, z.random)
    {
      assert GenuineItem(items[k], z);
    }
    GenuineSizes(z.key, THRESHOLD, z.random, f, o);
    if |items[o].data| == |z.key| {
      OneOddFragment(z.key, THRESHOLD, z.random, f, o);
    } else {
      Mismatch(f);
    }
  }

  lemma Mismatch(f: seq<Fragment>)
    requires |f| >= 2 && !SameLengths(f)
    ensures Recover(f) == Failure(FragmentLengthMismatch)
  {}

  lemma SubmitKeepsHonest(s: System, other: string, item: Item, exam: string, z: Secret)
    requires Inv(s) && Honest(s, exam, z)
    requires other == exam ==> GenuineItem(item, z)
    ensures Inv(Step(s, Submit(other, item))) && Honest(Step(s, Submit(other, item)), exam, z)
  {
    hide AcceptedInto, DistinctIndices, GenuineItem, Untouched;
    SubmitKeepsInv(s, other, item);
  }

  lemma RequestKeepsHonest(s: System, other: string, exam: string, z: Secret)
    requires Inv(s) && Honest(s, exam, z)
    ensures Inv(Step(s, Request(other))) && Honest(Step(s, Request(other)), exam, z)
  {
    hide AcceptedInto, DistinctIndices, GenuineItem, Untouched, Recover, Owned;
    RequestKeepsInv(s, other);
    if exam in s.memory.pending && |s.memory.lists[s.memory.pending[exam]]| >= THRESHOLD {
      AttemptIsRight(s.memory, exam, z);
    }
  }

  lemma ResumeKeepsHonest(s: System, i: nat, exam: string, z: Secret)
    requires Inv(s) && Honest(s, exam, z)
    ensures Inv(Step(s, Resume(i))) && Honest(Step(s, Resume(i)), exam, z)
  {
    hide AcceptedInto, DistinctIndices, GenuineItem, Untouched;
    ResumeKeepsInv(s, i);
    if i < |s.tasks| {
      assert s.tasks[i] in s.tasks;
      RemoveKeepsInv(s, i);
    }
  }

  lemma StepKeepsHonest(s: System, e: Event, exam: string, z: Secret)
    requires Inv(s) && Honest(s, exam, z)
    requires e.Submit? && e.exam == exam ==> GenuineItem(e.item, z)
    ensures Inv(Step(s, e)) && Honest(Step(s, e), exam, z)
  {
    hide *;
    match e
    case Submit(other, item) => SubmitKeepsHonest(s, other, item, exam, z);
    case Request(other) => RequestKeepsHonest(s, other, exam, z);
    case Resume(i) => ResumeKeepsHonest(s, i, exam, z);
  }

  /** Whatever the interleaving and whatever happens to other exams: if all submissions for
      an exam are genuine, no attempt for it throws and every successful one returns its key. */
  lemma {:induction false} EveryRecoveryIsTheKey(events: seq<Event>, exam: string, z: Secret)
    requires SubmissionsGenuine(events, exam, z)
    ensures Honest(Run(events), exam, z)
  {
    hide Step, Inv, GenuineItem;
    if events != [] {
      EveryRecoveryIsTheKey(events[..|events| - 1], exam, z);
      StepKeepsHonest(Run(events[..|events| - 1]), events[|events| - 1], exam, z);
    }
  }

  // ================================================================ what runs wipe and use

  // ---------------------------------------------------------------- what a run wipes

  /** Every list that an event removes is wiped by it. */
  ghost predicate Wipes(s: System, e: Event)
    requires WellFormed(s.memory) && TasksInRange(s)
  {
    var after := Step(s, e).memory;
    |after.lists| >= |s.memory.lists| && forall exam :: exam in s.memory.pending && exam !in after.pending ==>
      s.memory.pending[exam] < |s.memory.lists|
        && after.lists[s.memory.pending[exam]] == Zeroised(s.memory.lists[s.memory.pending[exam]])
  }

  ghost predicate AllWiped(events: seq<Event>) {
    forall n :: 0 <= n < |events| ==> Wipes(Run(events[..n]), events[n])
  }

  /** No exam has two attempts outstanding. */
  predicate Single(tasks: seq<Task>) {
    forall i, j ::
      0 <= i < j < |tasks| && tasks[i].Attempting? && tasks[j].Attempting? ==> tasks[i].exam != tasks[j].exam
  }

  ghost predicate Serial(events: seq<Event>) {
    forall n :: 0 <= n <= |events| ==> Single(Run(events[..n]).tasks)
  }

  /** Every outstanding attempt still holds its exam's list. */
  predicate Held(s: System) {
    forall i :: 0 <= i < |s.tasks| && s.tasks[i].Attempting? ==>
      s.tasks[i].exam in s.memory.pending && s.memory.pending[s.tasks[i].exam] == s.tasks[i].id
  }

  lemma SubmitHeld(s: System, exam: string, item: Item)
    requires Inv(s) && Held(s)
    ensures Held(Step(s, Submit(exam, item))) && Wipes(s, Submit(exam, item))
  {
    hide DistinctIndices, AcceptedInto, Submitted, Untouched, Owned;
  }

  lemma RequestHeld(s: System, exam: string)
    requires Inv(s) && Held(s)
    ensures Held(Step(s, Request(exam))) && Wipes(s, Request(exam))
  {
    hide DistinctIndices, AcceptedInto, Untouched, Owned, Recover;
  }

  lemma RemovedTask(tasks: seq<Task>, i: nat, j: nat)
    requires i < |tasks| && j < |tasks| - 1
    ensures RemoveTask(tasks, i)[j] == tasks[if j < i then j else j + 1]
  {}

  lemma ResumeHeld(s: System, i: nat)
    requires Inv(s) && Held(s) && Single(s.tasks)
    ensures Held(Step(s, Resume(i))) && Wipes(s, Resume(i)) && Single(Step(s, Resume(i)).tasks)
  {
    hide DistinctIndices, AcceptedInto, Untouched, Owned, Zeroised;
    if i < |s.tasks| && s.tasks[i].second {
      forall j | 0 <= j < |s.tasks| - 1
        ensures RemoveTask(s.tasks, i)[j] == s.tasks[if j < i then j else j + 1]
      {
        RemovedTask(s.tasks, i, j);
      }
    }
  }

  lemma StepHeld(s: System, e: Event)
    requires Inv(s) && Held(s) && Single(s.tasks)
    ensures Inv(Step(s, e)) && Held(Step(s, e)) && Wipes(s, e)
    ensures !e.Request? ==> Single(Step(s, e).tasks)
  {
    hide *;
    StepKeepsInv(s, e);
    match e
    case Submit(exam, item) => SubmitHeld(s, exam, item); SubmitSingle(s, exam, item);
    case Request(exam) => RequestHeld(s, exam);
    case Resume(i) => ResumeHeld(s, i);
  }

  lemma SubmitSingle(s: System, exam: string, item: Item)
    requires Inv(s) && Single(s.tasks)
    ensures Single(Step(s, Submit(exam, item)).tasks)
  {
    hide DistinctIndices, AcceptedInto, Submitted, Untouched, Owned;
  }

  lemma RunStep(events: seq<Event>, e: Event)
    ensures Run(events + [e]) == Step(Run(events), e)
  {
    hide Step;
    assert (events + [e])[..|events|] == events;
  }

  lemma {:induction false} SerialHeld(events: seq<Event>, n: nat)
    requires Serial(events) && n <= |events|
    ensures Held(Run(events[..n]))
  {
    hide Step, Inv, Single, Held;
    if n == 0 {
      NoTasksHeld();
    } else {
      SerialHeld(events, n - 1);
      assert events[..n] == events[..n - 1] + [events[n - 1]];
      RunStep(events[..n - 1], events[n - 1]);
      StepHeld(Run(events[..n - 1]), events[n - 1]);
    }
  }

  lemma NoTasksHeld()
    ensures Run([]) == START && Held(START) && Single(START.tasks)
  {}

  /** While no exam has two attempts outstanding, whatever a finishing attempt removes is wiped. */
  lemma SerialWipes(events: seq<Event>)
    requires Serial(events)
    ensures AllWiped(events)
  {
    hide Step, Single, Held, Wipes, Run, WellFormed, TasksInRange, Untouched, Owned;
    forall n | 0 <= n < |events|
      ensures Wipes(Run(events[..n]), events[n])
    {
      SerialHeld(events, n);
      StepHeld(Run(events[..n]), events[n]);
    }
  }

  predicate NoRequest(events: seq<Event>) {
    forall n :: 0 <= n < |events| ==> !events[n].Request?
  }

  lemma {:induction false} StaysSerial(events: seq<Event>, more: seq<Event>)
    requires Serial(events) && NoRequest(more)
    ensures Serial(events + more)
    decreases |more|
  {
    hide Step, Inv, Single, Held;
    if more == [] {
      assert events + more == events;
    } else {
      var k := |more| - 1;
      var before, e := more[..k], more[k];
      StaysSerial(events, before);
      var all := events + before;
      assert events + more == all + [e];
      SerialHeld(all, |all|);
      assert all[..|all|] == all;
      RunStep(all, e);
      StepHeld(Run(all), e);
      forall n | 0 <= n <= |all| + 1
        ensures Single(Run((all + [e])[..n]).tasks)
      {
        if n <= |all| {
          assert (all + [e])[..n] == all[..n];
        } else {
          assert (all + [e])[..n] == all + [e];
        }
      }
    }
  }

  /** The continuations and the submission that make two outstanding attempts leave a list
      behind: the later one finishes, a fragment arrives, the earlier one finishes. */
  function Overrun(tasks: seq<Task>, i: nat, j: nat, exam: string): seq<Event>
    requires i < j < |tasks|
  {
    (if tasks[i].second then [] else [Resume(i)]) + (if tasks[j].second then [] else [Resume(j)])
    + [Resume(j), Submit(exam, Item(1, [1], "")), Resume(i)]
  }

  /** A suspended call passes its first await. */
  lemma Awaken(s: System, i: nat)
    requires Inv(s) && i < |s.tasks| && !s.tasks[i].second
    ensures Inv(Step(s, Resume(i))) && Step(s, Resume(i)).tasks == s.tasks[i := s.tasks[i].(second := true)]
  {
    ResumeKeepsInv(s, i);
  }

  lemma LastUnwiped(s: System, i: nat, j: nat, item: Item)
    requires Inv(s) && i < j < |s.tasks| && item == Item(1, [1], "")
    requires s.tasks[i].Attempting? && s.tasks[j].Attempting? && s.tasks[i].exam == s.tasks[j].exam
    requires s.tasks[i].second && s.tasks[j].second
    ensures var first := Step(s, Resume(j));
            && Inv(first) && Inv(Step(first, Submit(s.tasks[i].exam, item)))
            && !Wipes(Step(first, Submit(s.tasks[i].exam, item)), Resume(i))
  {
    hide AcceptedInto, DistinctIndices, Untouched, Owned;
    var exam, k := s.tasks[i].exam, |s.memory.lists|;
    ResumeKeepsInv(s, j);
    var first := Step(s, Resume(j));
    SubmitKeepsInv(first, exam, item);
    var second := Step(first, Submit(exam, item));
    assert second.tasks[i] == s.tasks[i];
    assert second.memory.pending[exam] == k && second.memory.lists[k] == [item];
    assert Zeroised([item])[0].data[0] == 0;
  }

  /** With two attempts of an exam outstanding there is a continuation without further requests
      that removes a list without wiping it. */
  lemma OverlapLeavesData(events: seq<Event>) returns (more: seq<Event>)
    requires !Single(Run(events).tasks)
    ensures NoRequest(more) && !AllWiped(events + more)
  {
    hide Step, Wipes, Run, WellFormed, TasksInRange, Untouched, Owned;
    var tasks := Run(events).tasks;
    var i: nat, j: nat :| i < j < |tasks| && tasks[i].Attempting? && tasks[j].Attempting?
      && tasks[i].exam == tasks[j].exam;
    var exam, item := tasks[i].exam, Item(1, [1], "");
    var one := AwakeRun(events, i);
    var all := AwakeRun(one, j);
    LastUnwiped(Run(all), i, j, item);
    RunStep(all, Resume(j));
    RunStep(all + [Resume(j)], Submit(exam, item));
    var last := all + [Resume(j)] + [Submit(exam, item)];
    more := Overrun(tasks, i, j, exam);
    assert events + more == last + [Resume(i)];
    assert (events + more)[..|last|] == last && (events + more)[|last|] == Resume(i);
  }

  /** A suspended call past its first await, after one continuation at most. */
  lemma AwakeRun(events: seq<Event>, i: nat) returns (all: seq<Event>)
    requires i < |Run(events).tasks|
    ensures all == events + if Run(events).tasks[i].second then [] else [Resume(i)]
    ensures Run(all).tasks == Run(events).tasks[i := Run(events).tasks[i].(second := true)]
  {
    hide Step, Run, WellFormed, TasksInRange, Untouched, Owned;
    all := events;
    if Run(events).tasks[i].second {
      assert events + [] == events;
    } else {
      RunStep(events, Resume(i));
      Awaken(Run(events), i);
      all := events + [Resume(i)];
    }
  }

  /** A run never has two attempts of an exam outstanding exactly when, from each of its states
      on, nothing is removed unwiped by any further submissions and continuations. */
  lemma WipedExactly(events: seq<Event>)
    ensures Serial(events) <==> forall n, more :: 0 <= n <= |events| && NoRequest(more) ==> AllWiped(events[..n] + more)
  {
    hide AllWiped, Single, NoRequest, Run;
    if Serial(events) {
      forall n, more | 0 <= n <= |events| && NoRequest(more)
        ensures AllWiped(events[..n] + more)
      {
        SerialPrefix(events, n);
        StaysSerial(events[..n], more);
        SerialWipes(events[..n] + more);
      }
    } else {
      var n :| 0 <= n <= |events| && !Single(Run(events[..n]).tasks);
      var more := OverlapLeavesData(events[..n]);
    }
  }

  lemma SerialPrefix(events: seq<Event>, n: nat)
    requires Serial(events) && n <= |events|
    ensures Serial(events[..n])
  {
    hide Run, Single;
    forall k | 0 <= k <= n
      ensures Single(Run(events[..n][..k]).tasks)
    {
      assert events[..n][..k] == events[..k];
    }
  }

  // ---------------------------------------------------------------- what an attempt uses

  /** The accepted submissions from `since` on that went into a list. */
  function Later(s: System, since: nat, id: nat): seq<Item>
    requires since <= |s.accepted|
  {
    AcceptedInto(s.accepted[since..], id)
  }

  lemma {:induction false} AcceptedSplit(accepted: seq<(nat, Item)>, since: nat, id: nat)
    requires since <= |accepted|
    ensures AcceptedInto(accepted, id) == AcceptedInto(accepted[..since], id) + AcceptedInto(accepted[since..], id)
  {
    if since == |accepted| {
      assert accepted[..since] == accepted;
    } else {
      var n := |accepted| - 1;
      AcceptedSplit(accepted[..n], since, id);
      assert accepted[..n][..since] == accepted[..since];
      assert accepted[..n][since..] == accepted[since..][..n - since];
    }
  }

  /** What an outstanding attempt used is what its list had been given when it began, and the key
      is interpolated from that; if its exam has another list by now, that one is younger. */
  ghost predicate Tracked(s: System, t: Task) {
    t.Attempting? ==>
      && t.since <= |s.accepted| && t.used == AcceptedInto(s.accepted[..t.since], t.id)
      && DistinctIndices(t.used) && Recover(Fragments(t.exam, t.used)) == Success(t.key)
      && (t.exam in s.memory.pending && s.memory.pending[t.exam] != t.id ==>
        AcceptedInto(s.accepted[..t.since], s.memory.pending[t.exam]) == [])
  }

  ghost predicate AllTracked(s: System) {
    forall t :: t in s.tasks ==> Tracked(s, t)
  }

  lemma SubmitTracked(s: System, exam: string, item: Item, t: Task)
    requires Inv(s) && Tracked(s, t)
    ensures Tracked(Step(s, Submit(exam, item)), t)
  {
    hide DistinctIndices, AcceptedInto, Submitted, Owned, Recover;
    var after := Step(s, Submit(exam, item));
    if t.Attempting? {
      assert after.accepted[..t.since] == s.accepted[..t.since];
      AcceptedFresh(s.accepted[..t.since], |s.memory.lists|);
    }
  }

  lemma SubmitTracksAll(s: System, exam: string, item: Item)
    requires Inv(s) && AllTracked(s)
    ensures AllTracked(Step(s, Submit(exam, item)))
  {
    hide Tracked, CollectStart, WellFormed, Untouched, Owned;
    var after := Step(s, Submit(exam, item));
    forall t | t in after.tasks
      ensures Tracked(after, t)
    {
      if t in s.tasks {
        SubmitTracked(s, exam, item, t);
      } else {
        CollectingTracked(after, t);
      }
    }
  }

  lemma CollectingTracked(s: System, t: Task)
    requires t.Collecting?
    ensures Tracked(s, t)
  {}

  lemma RequestTracksAll(s: System, exam: string)
    requires Inv(s) && AllTracked(s)
    ensures AllTracked(Step(s, Request(exam)))
  {
    hide DistinctIndices, AcceptedInto, Owned, Recover;
    assert s.accepted[..|s.accepted|] == s.accepted;
  }

  lemma FinishTracked(s: System, i: nat, t: Task)
    requires Inv(s) && Tracked(s, t) && i < |s.tasks|
    ensures Tracked(Step(s, Resume(i)), t) && Tracked(Step(s, Resume(i)), t.(second := true))
  {
    hide DistinctIndices, AcceptedInto, Owned, Recover, Untouched, Zeroised;
  }

  lemma ResumeTracksAll(s: System, i: nat)
    requires Inv(s) && AllTracked(s)
    ensures AllTracked(Step(s, Resume(i)))
  {
    hide Owned, Untouched, WellFormed, Tracked, AttemptFinish;
    if i < |s.tasks| {
      assert s.tasks[i] in s.tasks;
      forall t | t in s.tasks
        ensures Tracked(Step(s, Resume(i)), t) && Tracked(Step(s, Resume(i)), t.(second := true))
      {
        FinishTracked(s, i, t);
      }
      assert forall t :: t in RemoveTask(s.tasks, i) ==> t in s.tasks;
    }
  }

  lemma {:induction false} RunTracked(events: seq<Event>)
    ensures AllTracked(Run(events))
  {
    hide Step, Inv, Tracked;
    if events != [] {
      var n := |events| - 1;
      RunTracked(events[..n]);
      assert events == events[..n] + [events[n]];
      RunStep(events[..n], events[n]);
      var s := Run(events[..n]);
      match events[n]
      case Submit(exam, item) => SubmitTracksAll(s, exam, item);
      case Request(exam) => RequestTracksAll(s, exam);
      case Resume(i) => ResumeTracksAll(s, i);
    }
  }

  // ---------------------------------------------------------------- what all attempts used

  /** An attempt as it began: its list, the fragments in it, how many had been accepted. */
  datatype Beginning = Beginning(id: nat, used: seq<Item>, since: nat)

  /** The attempts that a run has begun, finished or not. */
  ghost function Begun(events: seq<Event>): seq<Beginning> {
    if events == [] then []
    else
      var n := |events| - 1;
      Begun(events[..n]) + BegunBy(Run(events[..n]), events[n])
  }

  ghost function BegunBy(s: System, e: Event): seq<Beginning>
    requires WellFormed(s.memory)
  {
    if e.Request? && AttemptStart(s.memory, e.exam).Started? then
      var id := s.memory.pending[e.exam];
      [Beginning(id, s.memory.lists[id], |s.accepted|)]
    else []
  }

  /** An attempt once begun used what its list had been given by then. */
  ghost predicate UsedThen(s: System, t: Beginning) {
    t.since <= |s.accepted| && t.used == AcceptedInto(s.accepted[..t.since], t.id)
  }

  lemma AcceptedGrows(s: System, e: Event)
    requires Inv(s)
    ensures s.accepted <= Step(s, e).accepted
  {
    hide WellFormed, TasksInRange, Untouched, Owned;
  }

  lemma BegunThen(s: System, e: Event, t: Beginning)
    requires Inv(s) && t in BegunBy(s, e)
    ensures UsedThen(s, t)
  {
    hide WellFormed, TasksInRange, Owned, Recover, AcceptedInto;
    assert s.accepted[..|s.accepted|] == s.accepted;
  }

  lemma {:induction false} AllUsedThen(events: seq<Event>)
    ensures forall t :: t in Begun(events) ==> UsedThen(Run(events), t)
  {
    hide Step, AcceptedInto, WellFormed, TasksInRange, Untouched, Owned, BegunBy;
    if events != [] {
      var n := |events| - 1;
      var s, e := Run(events[..n]), events[n];
      AllUsedThen(events[..n]);
      assert events == events[..n] + [e];
      RunStep(events[..n], e);
      AcceptedGrows(s, e);
      assert Begun(events) == Begun(events[..n]) + BegunBy(s, e);
      forall t | t in Begun(events)
        ensures UsedThen(Run(events), t)
      {
        if t in BegunBy(s, e) {
          BegunThen(s, e, t);
        } else {
          assert t in Begun(events[..n]);
        }
        assert UsedThen(s, t);
        assert Run(events).accepted[..t.since] == s.accepted[..t.since];
      }
    }
  }

  /** The entries of `accepted` for one list have different indices, so an item is in the part
      before a place exactly when it was accepted before it. */
  lemma {:induction false} InFirstPart(accepted: seq<(nat, Item)>, a: nat, since: nat)
    requires a < |accepted| && since <= |accepted| && DistinctIndices(AcceptedInto(accepted, accepted[a].0))
    ensures accepted[a].1 in AcceptedInto(accepted[..since], accepted[a].0) <==> a < since
  {
    hide AcceptedInto;
    var (id, item) := accepted[a];
    AcceptedSplit(accepted, since, id);
    if a < since {
      EntryIn(accepted[..since], a);
    } else {
      EntryIn(accepted[since..], a - since);
      NotTwice(AcceptedInto(accepted[..since], id), AcceptedInto(accepted[since..], id), item);
    }
  }

  lemma NotTwice(x: seq<Item>, y: seq<Item>, item: Item)
    requires DistinctIndices(x + y) && item in y
    ensures item !in x
  {
    var j :| 0 <= j < |y| && y[j] == item;
    assert (x + y)[|x| + j] == item;
    assert forall i :: 0 <= i < |x| ==> (x + y)[i] == x[i];
  }

  lemma {:induction false} EntryIn(accepted: seq<(nat, Item)>, a: nat)
    requires a < |accepted|
    ensures accepted[a].1 in AcceptedInto(accepted, accepted[a].0)
  {
    var n := |accepted| - 1;
    if a < n { EntryIn(accepted[..n], a); }
  }

  /** In any run, the pending fragment accepted as number a is in the fragments of none of the
      attempts on its list exactly when all of them began before it was accepted. As a finishing
      attempt removes its exam's list, this decides which fragments are removed unused. */
  lemma UnusedExactly(events: seq<Event>, exam: string, a: nat)
    requires var s := Run(events);
             a < |s.accepted| && exam in s.memory.pending && s.accepted[a].0 == s.memory.pending[exam]
    ensures var (id, item) := Run(events).accepted[a];
            && id < |Run(events).memory.lists| && item in Run(events).memory.lists[id]
            && ((forall t :: t in Begun(events) && t.id == id ==> item !in t.used) <==>
                (forall t :: t in Begun(events) && t.id == id ==> t.since <= a))
  {
    hide AcceptedInto, Run, Begun, DistinctIndices, Owned, TasksInRange;
    var s := Run(events);
    var (id, item) := s.accepted[a];
    AllUsedThen(events);
    EntryIn(s.accepted, a);
    forall t | t in Begun(events) && t.id == id
      ensures item in t.used <==> a < t.since
    {
      assert UsedThen(s, t);
      InFirstPart(s.accepted, a, t.since);
    }
  }

  /** A finishing attempt removes whatever list its exam has. */
  lemma FinishRemoves(s: System, i: nat)
    requires Inv(s) && i < |s.tasks| && s.tasks[i].second && s.tasks[i].Attempting?
    ensures s.tasks[i].exam !in Step(s, Resume(i)).memory.pending
  {
    hide WellFormed, Untouched, Owned;
  }

  /** In any run, when an attempt finishes, the list it removes holds the fragments its key was
      interpolated from, if the list is still the attempt's, followed by exactly the fragments
      accepted into it since the attempt began. */
  lemma DroppedExactly(events: seq<Event>, i: nat)
    requires var s := Run(events);
      i < |s.tasks| && s.tasks[i].Attempting? && s.tasks[i].second && s.tasks[i].exam in s.memory.pending
    ensures var s := Run(events); var t := s.tasks[i]; var id := s.memory.pending[t.exam];
            && t.exam !in Step(s, Resume(i)).memory.pending
            && t.since <= |s.accepted| && id < |s.memory.lists|
            && DistinctIndices(t.used) && Recover(Fragments(t.exam, t.used)) == Success(t.key)
            && s.memory.lists[id] == (if id == t.id then t.used else []) + Later(s, t.since, id)
            && ((forall a :: t.since <= a < |s.accepted| ==> s.accepted[a].0 != id) <==>
                s.memory.lists[id] == if id == t.id then t.used else [])
  {
    hide AcceptedInto, DistinctIndices, Recover, Run;
    var s := Run(events);
    var t := s.tasks[i];
    var id := s.memory.pending[t.exam];
    RunTracked(events);
    assert t in s.tasks;
    assert Tracked(s, t);
    AcceptedSplit(s.accepted, t.since, id);
    NothingLater(s, t.since, id);
  }

  lemma NothingLater(s: System, since: nat, id: nat)
    requires since <= |s.accepted|
    ensures Later(s, since, id) == [] <==> forall a :: since <= a < |s.accepted| ==> s.accepted[a].0 != id
  {
    hide AcceptedInto;
    NoneInto(s.accepted[since..], id);
    assert forall a :: since <= a < |s.accepted| ==> s.accepted[since..][a - since] == s.accepted[a];
  }

  lemma {:induction false} NoneInto(accepted: seq<(nat, Item)>, id: nat)
    ensures AcceptedInto(accepted, id) == [] <==> forall a :: 0 <= a < |accepted| ==> accepted[a].0 != id
  {
    if accepted != [] {
      NoneInto(accepted[..|accepted| - 1], id);
    }
  }

  // ---------------------------------------------------------------- a run with two attempts

  function GenuineShare(z: Secret, index: byte): Item {
    Item(index, Share(z.key, THRESHOLD, z.random, index), "")
  }

  /** Three genuine submissions and two requests. */
  function TwoRequests(exam: string, z: Secret): seq<Event> {
    [Submit(exam, GenuineShare(z, 1)), Submit(exam, GenuineShare(z, 2)), Submit(exam, GenuineShare(z, 3)),
      Request(exam), Request(exam)]
  }

  lemma SubmitFirst(s: System, exam: string, item: Item)
    requires Inv(s) && exam !in s.memory.pending && 1 <= item.index <= 5
    ensures Step(s, Submit(exam, item)).memory ==
      Memory(s.memory.pending[exam := |s.memory.lists|], s.memory.lists + [[item]])
    ensures Step(s, Submit(exam, item)).tasks == s.tasks + [Collecting(exam, |s.memory.lists|, false)]
  {
    hide DistinctIndices, Untouched, Owned;
    assert !Submitted([], item.index);
    var lists: seq<seq<Item>> := s.memory.lists;
    var more: seq<seq<Item>> := lists + [[]];
    assert more[|lists|] == [] && more[|lists|] + [item] == [item];
    assert more[|lists| := [item]] == lists + [[item]];
  }

  lemma SubmitNext(s: System, exam: string, item: Item)
    requires Inv(s) && exam in s.memory.pending && 1 <= item.index <= 5
    requires !Submitted(s.memory.lists[s.memory.pending[exam]], item.index)
    ensures Step(s, Submit(exam, item)).memory == Push(s.memory, s.memory.pending[exam], item)
    ensures Step(s, Submit(exam, item)).tasks == s.tasks + [Collecting(exam, s.memory.pending[exam], false)]
  {
    hide DistinctIndices, Untouched, Owned, Submitted;
  }

  lemma ThreeSubmitted(exam: string, z: Secret)
    ensures var s := Run(TwoRequests(exam, z)[..3]);
            && s.memory == Memory(map[exam := 0], [[GenuineShare(z, 1), GenuineShare(z, 2), GenuineShare(z, 3)]])
            && |s.tasks| == 3 && forall t :: t in s.tasks ==> t.Collecting?
  {
    hide GenuineShare, Run, Step, Untouched, Owned, DistinctIndices;
    var e := TwoRequests(exam, z);
    NoTasksHeld();
    assert e[..0] == [] && e[..1] == [] + [e[0]] && e[..2] == e[..1] + [e[1]] && e[..3] == e[..2] + [e[2]];
    RunStep([], e[0]);
    RunStep(e[..1], e[1]);
    RunStep(e[..2], e[2]);
    ShareIndex(z, 1); ShareIndex(z, 2); ShareIndex(z, 3);
    SubmitFirst(Run([]), exam, GenuineShare(z, 1));
    var one, two, three := GenuineShare(z, 1), GenuineShare(z, 2), GenuineShare(z, 3);
    assert Run(e[..1]).memory == Memory(map[exam := 0], [[one]]);
    SubmitNext(Run(e[..1]), exam, two);
    assert [one] + [two] == [one, two] && [[one]][0 := [one, two]] == [[one, two]];
    assert Run(e[..2]).memory == Memory(map[exam := 0], [[one, two]]);
    SubmitNext(Run(e[..2]), exam, three);
    assert [one, two] + [three] == [one, two, three] && [[one, two]][0 := [one, two, three]] == [[one, two, three]];
  }

  lemma ShareIndex(z: Secret, index: byte)
    ensures GenuineShare(z, index).index == index && GenuineItem(GenuineShare(z, index), z)
  {
    hide Share;
  }

  /** Two requests after three genuine submissions leave two attempts outstanding, so from there
      something can be removed unwiped. */
  lemma OverlapReachable(exam: string, z: Secret) returns (more: seq<Event>)
    ensures !Serial(TwoRequests(exam, z)) && NoRequest(more) && !AllWiped(TwoRequests(exam, z) + more)
  {
    hide GenuineShare, Run, AcceptedInto, DistinctIndices, GenuineItem, AllWiped, NoRequest;
    var e := TwoRequests(exam, z);
    ThreeSubmitted(exam, z);
    ShareIndex(z, 1); ShareIndex(z, 2); ShareIndex(z, 3);
    assert e[..4] == e[..3] + [e[3]] && e[..5] == e[..4] + [e[4]] && e[..5] == e;
    RunStep(e[..3], e[3]);
    RunStep(e[..4], e[4]);
    AttemptIsRight(Run(e[..3]).memory, exam, z);
    AttemptIsRight(Run(e[..4]).memory, exam, z);
    var tasks := Run(e).tasks;
    assert tasks[3].Attempting? && tasks[4].Attempting? && tasks[3].exam == tasks[4].exam;
    more := OverlapLeavesData(e);
  }

  // ---------------------------------------------------------------- a run that loses a fragment

  /** Three genuine submissions, a request, a fourth submission, and the attempt's two
      continuations. */
  function LateSubmission(exam: string, z: Secret): seq<Event> {
    TwoRequests(exam, z)[..4] + [Submit(exam, GenuineShare(z, 4)), Resume(3), Resume(3)]
  }

  lemma RequestStarts(s: System, exam: string, key: seq<byte>)
    requires Inv(s) && AttemptStart(s.memory, exam).Started?
    ensures Step(s, Request(exam)).memory == s.memory && |Step(s, Request(exam)).tasks| == |s.tasks| + 1
    ensures Step(s, Request(exam)).tasks[|s.tasks|].Attempting? && !Step(s, Request(exam)).tasks[|s.tasks|].second
    ensures Step(s, Request(exam)).tasks[|s.tasks|].exam == exam
  {
    hide WellFormed, TasksInRange, Untouched, Owned;
  }

  lemma AwakenMemory(s: System, i: nat)
    requires Inv(s) && i < |s.tasks| && !s.tasks[i].second
    ensures Step(s, Resume(i)).memory == s.memory
  {
    hide WellFormed, TasksInRange, Untouched, Owned;
  }

  /** The state before the fourth submission. */
  lemma AttemptSuspended(exam: string, z: Secret)
    ensures var s := Run(TwoRequests(exam, z)[..4]);
            && s.memory == Memory(map[exam := 0], [[GenuineShare(z, 1), GenuineShare(z, 2), GenuineShare(z, 3)]])
            && |s.tasks| == 4 && s.tasks[3].Attempting? && !s.tasks[3].second && s.tasks[3].exam == exam
  {
    hide GenuineShare, Run, Step, AcceptedInto, DistinctIndices, GenuineItem, WellFormed, TasksInRange, Untouched,
      Owned;
    var t := TwoRequests(exam, z);
    ThreeSubmitted(exam, z);
    ShareIndex(z, 1); ShareIndex(z, 2); ShareIndex(z, 3);
    assert t[..4] == t[..3] + [Request(exam)];
    RunStep(t[..3], Request(exam));
    AttemptIsRight(Run(t[..3]).memory, exam, z);
    RequestStarts(Run(t[..3]), exam, z.key);
  }

  /** The state after it, when the attempt is about to finish. */
  lemma AboutToFinish(exam: string, z: Secret)
    ensures var s := Run(LateSubmission(exam, z)[..6]);
            && s.memory ==
              Memory(map[exam := 0], [[GenuineShare(z, 1), GenuineShare(z, 2), GenuineShare(z, 3), GenuineShare(z, 4)]])
            && |s.tasks| == 5 && s.tasks[3].Attempting? && s.tasks[3].second && s.tasks[3].exam == exam
  {
    hide GenuineShare, Run, Step, DistinctIndices, GenuineItem, WellFormed, TasksInRange, Untouched, Owned;
    var t := TwoRequests(exam, z)[..4];
    var one, two, three, four := GenuineShare(z, 1), GenuineShare(z, 2), GenuineShare(z, 3), GenuineShare(z, 4);
    AttemptSuspended(exam, z);
    ShareIndex(z, 1); ShareIndex(z, 2); ShareIndex(z, 3); ShareIndex(z, 4);
    RunStep(t, Submit(exam, four));
    SubmitNext(Run(t), exam, four);
    var u := t + [Submit(exam, four)];
    assert [one, two, three] + [four] == [one, two, three, four];
    assert [[one, two, three]][0 := [one, two, three, four]] == [[one, two, three, four]];
    assert Run(u).memory == Memory(map[exam := 0], [[one, two, three, four]]);
    RunStep(u, Resume(3));
    Awaken(Run(u), 3);
    AwakenMemory(Run(u), 3);
    assert LateSubmission(exam, z)[..6] == u + [Resume(3)];
  }

  lemma BegunStep(events: seq<Event>, e: Event)
    ensures Begun(events + [e]) == Begun(events) + BegunBy(Run(events), e)
  {
    hide Run, BegunBy;
    assert (events + [e])[..|events|] == events;
  }

  lemma NoneBegun(events: seq<Event>, e: Event)
    requires !e.Request?
    ensures Begun(events + [e]) == Begun(events)
  {
    hide Run;
    BegunStep(events, e);
  }

  lemma OneBegun(exam: string, z: Secret)
    ensures |Begun(LateSubmission(exam, z))| == 1
    ensures Begun(LateSubmission(exam, z))[0].used == [GenuineShare(z, 1), GenuineShare(z, 2), GenuineShare(z, 3)]
  {
    hide GenuineShare, Run, GenuineItem, WellFormed, Begun;
    var t, e := TwoRequests(exam, z), LateSubmission(exam, z);
    ThreeSubmitted(exam, z);
    ShareIndex(z, 1); ShareIndex(z, 2); ShareIndex(z, 3);
    assert t[..0] == [] && t[..1] == [] + [t[0]] && t[..2] == t[..1] + [t[1]] && t[..3] == t[..2] + [t[2]]
      && t[..4] == t[..3] + [t[3]];
    assert e[..4] == t[..4] && e[..5] == e[..4] + [e[4]] && e[..6] == e[..5] + [e[5]] && e == e[..6] + [e[6]];
    NothingBegun();
    NoneBegun([], t[0]);
    NoneBegun(t[..1], t[1]);
    NoneBegun(t[..2], t[2]);
    AttemptIsRight(Run(t[..3]).memory, exam, z);
    BegunStep(t[..3], t[3]);
    NoneBegun(e[..4], e[4]);
    NoneBegun(e[..5], e[5]);
    NoneBegun(e[..6], e[6]);
  }

  lemma NothingBegun()
    ensures Begun([]) == []
  {}

  /** The fourth fragment is accepted and removed, and the only attempt did not use it. */
  lemma FourthIsLost(exam: string, z: Secret)
    ensures var before := Run(LateSubmission(exam, z)[..6]).memory;
            before.pending == map[exam := 0] && |before.lists| == 1 && GenuineShare(z, 4) in before.lists[0]
    ensures exam !in Run(LateSubmission(exam, z)).memory.pending
    ensures forall t :: t in Begun(LateSubmission(exam, z)) ==> GenuineShare(z, 4) !in t.used
  {
    hide GenuineShare, Run, Step, Begun, GenuineItem, WellFormed, TasksInRange, Untouched, Owned;
    var e := LateSubmission(exam, z);
    AboutToFinish(exam, z);
    OneBegun(exam, z);
    ShareIndex(z, 1); ShareIndex(z, 2); ShareIndex(z, 3); ShareIndex(z, 4);
    assert e == e[..6] + [Resume(3)];
    RunStep(e[..6], Resume(3));
    FinishRemoves(Run(e[..6]), 3);
  }
}
