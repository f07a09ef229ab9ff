/** Merkle proofs over a block's transaction hashes, with an odd last node promoted as it is.
    `h` is the digest of the concatenation of two digests. */
module Merkle {
  import opened Bits

  datatype Position = Left | Right
  datatype ProofNode<D> = ProofNode(hash: D, position: Position)

  // ---------------------------------------------------------------- the tree

  /** The next level: pairs combined, an odd last node promoted. */
  function Level<D>(h: (D, D) -> D, s: seq<D>): (r: seq<D>)
    ensures |r| == (|s| + 1) / 2
  {
    if |s| <= 1 then s else [h(s[0], s[1])] + Level(h, s[2..])
  }

  function Top<D>(h: (D, D) -> D, s: seq<D>): D
    requires s != []
    decreases |s|
  {
    if |s| == 1 then s[0] else Top(h, Level(h, s))
  }

  lemma {:induction false} LevelAt<D>(h: (D, D) -> D, s: seq<D>, k: nat)
    requires k < (|s| + 1) / 2
    ensures Level(h, s)[k] == if 2 * k + 1 < |s| then h(s[2 * k], s[2 * k + 1]) else s[2 * k]
  {
    if k > 0 {
      LevelAt(h, s[2..], k - 1);
    }
  }

  // ---------------------------------------------------------------- the proof

  function Siblings<D>(s: seq<D>, i: nat): seq<ProofNode<D>>
    requires i < |s|
  {
    if i % 2 == 1 then [ProofNode(s[i - 1], Left)]
    else if i + 1 < |s| then [ProofNode(s[i + 1], Right)]
    else []
  }

  function Proof<D>(h: (D, D) -> D, s: seq<D>, i: nat): seq<ProofNode<D>>
    requires i < |s|
    decreases |s|
  {
    if |s| == 1 then [] else Siblings(s, i) + Proof(h, Level(h, s), i / 2)
  }

  /** `computeMerkleProof`: an empty block has an empty proof. */
  method ComputeMerkleProof<D>(h: (D, D) -> D, leafHashes: seq<D>, targetIndex: nat) returns (proof: seq<ProofNode<D>>)
    requires leafHashes != [] ==> targetIndex < |leafHashes|
    ensures leafHashes == [] ==> proof == []
    ensures leafHashes != [] ==> proof == Proof(h, leafHashes, targetIndex)
  {
    if |leafHashes| == 0 || |leafHashes| == 1 {
      return [];
    }
    hide Level, Proof, Siblings;
    proof := [];
    ConcatAssoc(Proof(h, leafHashes, targetIndex), [], []);
    var currentLevel, currentIndex: nat := leafHashes, targetIndex;
    while |currentLevel| > 1
      invariant currentIndex < |currentLevel|
      invariant proof + Proof(h, currentLevel, currentIndex) == Proof(h, leafHashes, targetIndex)
      decreases |currentLevel|
    {
      ProofStep(h, currentLevel, currentIndex);
      var nextLevel := NextLevel(h, currentLevel);
      ConcatAssoc(proof, Siblings(currentLevel, currentIndex), Proof(h, nextLevel, currentIndex / 2));
      proof := AppendSibling(proof, currentLevel, currentIndex);
      currentIndex := currentIndex / 2;
      currentLevel := nextLevel;
    }
    SingleProof(h, currentLevel);
    ConcatAssoc(proof, [], []);
  }

  lemma ConcatAssoc<T>(a: seq<T>, b: seq<T>, c: seq<T>)
    ensures (a + b) + c == a + (b + c)
    ensures a + [] == a && [] + a == a
  {}

  lemma ProofStep<D>(h: (D, D) -> D, s: seq<D>, i: nat)
    requires i < |s| && |s| > 1
    ensures Proof(h, s, i) == Siblings(s, i) + Proof(h, Level(h, s), i / 2)
  {}

  lemma SingleProof<D>(h: (D, D) -> D, s: seq<D>)
    requires |s| == 1
    ensures Proof(h, s, 0) == []
  {}

  /** The sibling choice of `computeMerkleProof`: none for a promoted node. */
  method AppendSibling<D>(proof: seq<ProofNode<D>>, currentLevel: seq<D>, currentIndex: nat)
    returns (r: seq<ProofNode<D>>)
    requires currentIndex < |currentLevel|
    ensures r == proof + Siblings(currentLevel, currentIndex)
  {
    r := proof;
    if currentIndex % 2 == 0 {
      if currentIndex + 1 < |currentLevel| {
        r := r + [ProofNode(currentLevel[currentIndex + 1], Right)];
      }
    } else {
      r := r + [ProofNode(currentLevel[currentIndex - 1], Left)];
    }
  }

  /** The inner loop of `computeMerkleProof`. */
  method NextLevel<D>(h: (D, D) -> D, currentLevel: seq<D>) returns (nextLevel: seq<D>)
    ensures nextLevel == Level(h, currentLevel)
  {
    hide Level;
    nextLevel := [];
    var i := 0;
    ghost var rest := currentLevel;
    ShortLevels(h);
    ConcatAssoc(Level(h, rest), [], []);
    while i < |currentLevel|
      invariant 0 <= i <= |currentLevel| + 1
      invariant rest == if i <= |currentLevel| then currentLevel[i..] else []
      invariant nextLevel + Level(h, rest) == Level(h, currentLevel)
    {
      ghost var built, next := nextLevel, if i + 1 < |currentLevel| then rest[2..] else [];
      if i + 1 < |currentLevel| {
        LevelPair(h, rest);
        nextLevel := nextLevel + [h(currentLevel[i], currentLevel[i + 1])];
      } else {
        assert rest == [currentLevel[i]];
        nextLevel := nextLevel + [currentLevel[i]];
      }
      ConcatAssoc(built, nextLevel[|built|..], Level(h, next));
      rest := next;
      i := i + 2;
    }
    ConcatAssoc(nextLevel, [], []);
  }

  // ---------------------------------------------------------------- recomputation

  function Combine<D>(h: (D, D) -> D, current: D, node: ProofNode<D>): D {
    if node.position == Left then h(node.hash, current) else h(current, node.hash)
  }

  function Root<D>(h: (D, D) -> D, leaf: D, proof: seq<ProofNode<D>>): D {
    if proof == [] then leaf else Root(h, Combine(h, leaf, proof[0]), proof[1..])
  }

  /** `recomputeRoot` */
  method RecomputeRoot<D>(h: (D, D) -> D, leafHash: D, proof: seq<ProofNode<D>>) returns (currentHash: D)
    ensures currentHash == Root(h, leafHash, proof)
  {
    currentHash := leafHash;
    var i := 0;
    assert proof[0..] == proof;
    while i < |proof|
      invariant 0 <= i <= |proof|
      invariant Root(h, currentHash, proof[i..]) == Root(h, leafHash, proof)
    {
      var node := proof[i];
      var left := if node.position == Left then node.hash else currentHash;
      var right := if node.position == Left then currentHash else node.hash;
      assert proof[i..][1..] == proof[i + 1..];
      currentHash := h(left, right);
      i := i + 1;
    }
  }

  /** `verifyMerkleProof` against the root in the block header. */
  method VerifyMerkleProof<D(==)>(h: (D, D) -> D, txHash: D, proof: seq<ProofNode<D>>, merkleRoot: D)
    returns (verified: bool, computedRoot: D)
    ensures computedRoot == Root(h, txHash, proof) && (verified <==> computedRoot == merkleRoot)
  {
    computedRoot := RecomputeRoot(h, txHash, proof);
    verified := computedRoot == merkleRoot;
  }

  /** One level up: combining leaf i with its sibling gives node i / 2 of the next level. */
  lemma RootStep<D>(h: (D, D) -> D, s: seq<D>, i: nat, rest: seq<ProofNode<D>>)
    requires i < |s| && |s| > 1
    ensures i / 2 < |Level(h, s)| && Root(h, s[i], Siblings(s, i) + rest) == Root(h, Level(h, s)[i / 2], rest)
  {
    LevelAt(h, s, i / 2);
    hide Level;
    var sib := Siblings(s, i);
    if sib == [] {
      assert sib + rest == rest;
    } else {
      assert (sib + rest)[1..] == rest;
    }
  }

  /** Completeness: every leaf's proof leads to the top of the tree. */
  lemma {:induction false} ProofIsComplete<D>(h: (D, D) -> D, s: seq<D>, i: nat)
    requires i < |s|
    ensures Root(h, s[i], Proof(h, s, i)) == Top(h, s)
    decreases |s|
  {
    if |s| > 1 {
      hide Level, Siblings;
      var up := Level(h, s);
      RootStep(h, s, i, Proof(h, up, i / 2));
      ProofIsComplete(h, up, i / 2);
    }
  }

  // ---------------------------------------------------------------- proof length

  /** A proof has at most d nodes when there are at most 2^d leaves. */
  lemma {:induction false} ProofIsShort<D>(h: (D, D) -> D, s: seq<D>, i: nat, d: nat)
    requires i < |s| <= Pow2(d)
    ensures |Proof(h, s, i)| <= d
    decreases d
  {
    if |s| > 1 {
      ProofIsShort(h, Level(h, s), i / 2, d - 1);
    }
  }

  /** The bound is attained: the proof of the first leaf has as many nodes as the tree has levels. */
  lemma {:induction false} FirstProofLength<D>(h: (D, D) -> D, s: seq<D>, d: nat)
    requires s != [] && |s| <= Pow2(d) && (d > 0 ==> |s| > Pow2(d - 1))
    ensures |Proof(h, s, 0)| == d
    decreases d
  {
    if d > 0 {
      FirstProofLength(h, Level(h, s), d - 1);
    }
  }

  // ---------------------------------------------------------------- binding

  predicate SamePositions<D>(p: seq<ProofNode<D>>, q: seq<ProofNode<D>>) {
    |p| == |q| && forall k :: 0 <= k < |p| ==> p[k].position == q[k].position
  }

  /** The two digests that `recomputeRoot` combines at a node. */
  function PairAt<D>(current: D, node: ProofNode<D>): (D, D) {
    if node.position == Left then (node.hash, current) else (current, node.hash)
  }

  /** Where the recomputation stands after k nodes. */
  function Climb<D>(h: (D, D) -> D, leaf: D, proof: seq<ProofNode<D>>, k: nat): D
    requires k <= |proof|
  {
    if k == 0 then leaf else Climb(h, Combine(h, leaf, proof[0]), proof[1..], k - 1)
  }

  /** At level k the two recomputations combine different pairs to the same digest. */
  predicate CollidesAt<D(==)>(h: (D, D) -> D, x: D, p: seq<ProofNode<D>>, y: D, q: seq<ProofNode<D>>, k: nat) {
    && k < |p| && k < |q|
    && var a, b := PairAt(Climb(h, x, p, k), p[k]), PairAt(Climb(h, y, q, k), q[k]);
       a != b && h(a.0, a.1) == h(b.0, b.1)
  }

  /** Two leaves with sibling lists of the same positions and the same root are the same leaf
      with the same siblings, or the two recomputations collide at some level. */
  lemma {:induction false} RootIsBinding<D>(h: (D, D) -> D, x: D, p: seq<ProofNode<D>>, y: D, q: seq<ProofNode<D>>)
    returns (k: nat)
    requires SamePositions(p, q) && Root(h, x, p) == Root(h, y, q)
    ensures (x == y && p == q) || CollidesAt(h, x, p, y, q, k)
  {
    k := 0;
    if p != [] && (x != y || p[0] != q[0]) && Combine(h, x, p[0]) == Combine(h, y, q[0]) {
      assert PairAt(x, p[0]) != PairAt(y, q[0]);
    } else if p != [] {
      k := RootIsBinding(h, Combine(h, x, p[0]), p[1..], Combine(h, y, q[0]), q[1..]);
      k := k + 1;
      assert p == [p[0]] + p[1..] && q == [q[0]] + q[1..];
    }
  }

  /** Against the tree: whatever recomputes to the top along the positions of leaf i's proof
      is leaf i with its own siblings, or collides with leaf i's path at some level. */
  lemma TreeIsBinding<D>(h: (D, D) -> D, s: seq<D>, i: nat, y: D, q: seq<ProofNode<D>>) returns (k: nat)
    requires i < |s| && SamePositions(Proof(h, s, i), q) && Root(h, y, q) == Top(h, s)
    ensures (y == s[i] && q == Proof(h, s, i)) || CollidesAt(h, s[i], Proof(h, s, i), y, q, k)
  {
    ProofIsComplete(h, s, i);
    k := RootIsBinding(h, s[i], Proof(h, s, i), y, q);
  }

  // ---------------------------------------------------------------- the shape of the tree

  lemma ShortLevels<D>(h: (D, D) -> D)
    ensures Level(h, []) == []
    ensures forall x :: Level(h, [x]) == [x]
  {}

  lemma LevelPair<D>(h: (D, D) -> D, s: seq<D>)
    requires |s| >= 2
    ensures Level(h, s) == [h(s[0], s[1])] + Level(h, s[2..])
  {}

  /** Splitting a level at an even place. */
  lemma {:induction false} LevelSplit<D>(h: (D, D) -> D, s: seq<D>, k: nat)
    requires 2 * k <= |s|
    ensures Level(h, s) == Level(h, s[..2 * k]) + Level(h, s[2 * k..])
  {
    if k == 0 {
      assert s[0..] == s;
      assert Level(h, s[..0]) == [];
    } else {
      hide Level;
      var t, low := s[2..], s[..2 * k];
      LevelSplit(h, t, k - 1);
      LevelPair(h, s);
      LevelPair(h, low);
      assert low[2..] == t[..2 * (k - 1)];
      assert s[2 * k..] == t[2 * (k - 1)..];
      ConcatAssoc([h(s[0], s[1])], Level(h, low[2..]), Level(h, s[2 * k..]));
    }
  }

  /** The promoting tree is the one of the hash-tree definition in section 2.1 of RFC 6962:
      the root combines the roots of the first 2^d leaves, 2^d being the largest power of two
      below the number of leaves, and of the rest. */
  lemma {:induction false} TopSplits<D>(h: (D, D) -> D, s: seq<D>, d: nat)
    requires Pow2(d) < |s| <= 2 * Pow2(d)
    ensures Top(h, s) == h(Top(h, s[..Pow2(d)]), Top(h, s[Pow2(d)..]))
    decreases d
  {
    var k := Pow2(d);
    var left, right := s[..k], s[k..];
    if d == 0 {
      assert Level(h, s) == [h(s[0], s[1])] + Level(h, s[2..]);
    } else {
      LevelSplit(h, s, k / 2);
      TopSplits(h, Level(h, s), d - 1);
      assert Level(h, s)[..k / 2] == Level(h, left);
      assert Level(h, s)[k / 2..] == Level(h, right);
    }
  }
}
