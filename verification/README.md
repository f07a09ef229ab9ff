# Verified models of the examination platform

This project models, in Dafny, the algorithms on which the platform's guarantees rest, and
proves what they are for.

* **Secret sharing** (`Bits`, `GF256`, `Shamir`). The arithmetic of GF(2^8) with the polynomial
  0x11B (section 4.2 of FIPS 197) is built from the shift-and-reduce loop; it is shown to be a
  field in which 3 generates all non-zero elements, so the logarithm tables compute its
  product, inverse and quotient. On top are Horner evaluation, Lagrange interpolation at zero,
  byte-wise splitting and reconstruction, the secrecy of fewer than threshold shares, and the
  emergency-release protocol over all interleavings of its suspended calls.
* **Time-lock puzzle** (`NumberTheory`, `TimeLock`). The trapdoor computation agrees with the
  sequential squarings for every base, so solving a puzzle returns the sealed key; the exact
  condition on the primes and on the key is proved, from Bezout and Fermat upwards.
* **Merkle proofs and block parsing** (`Merkle`, `FabricBlock`). Completeness, length and
  binding of proofs in the tree that promotes odd nodes; round trips of the varint, field,
  header, block and envelope codecs with JavaScript's 32-bit shifts.
* **Assignment matrix** (`Constraints`, `Annealing`, `Solver`, `EarlyStop`). The energy
  function against the four checkers; what in-place swaps and undos keep over any run; what the
  `converged` flag means.
* **Collusion detection** (`Rings`, `CollusionResults`, `Detector`, `Threshold`). Breadth-first
  components, clustering of reported pairs in its two implementations, the pair scan, and the
  calibrated threshold.
* **Audit ledgers** (`Ledger`, `CanonicalJson`, `HashChain`). Composite-key indexes and their
  queries, canonical JSON, and the server's hash chain.

`Sequences`, `Order` and `Wrappers` hold what several of these share.

Conventions. Random draws are inputs or arbitrary choices. SHA-256 is an arbitrary function;
binding results name the collision in the given data otherwise, so they assume nothing of it.
Bytes are integers below 256, with exclusive or by recursion on binary digits. Floating-point
numbers are reals, and the logarithm is an arbitrary function, increasing and 0 at 1 where the
sign of a score is at stake. Exceptions are `Result` values, in the order in which the code
raises them. Objects updated in place are classes, arrays and maps of arrays; loops are methods
with invariants, tied to a function or predicate about which the lemmas speak. `hide`
statements only keep the solver from unfolding definitions.

Where the code does not do what is expected of it, the model follows the code and gives the
exact condition:

* Nothing keeps the two primes of a puzzle different; with equal primes unsealing fails for
  some base (`TimeLock.EqualPrimesFail`, `TimeLock.DistinctPrimesNeeded`).
* The energy function looks at five papers of each centre: where a centre has more there is a
  converged matrix, with a paper for every seat, that fails the full cross-centre check
  (`Solver.SampleDecides`).
* The loop stops early because of the matrix it is at, but returns the best one; the latter has
  always converged too exactly for at most 23 papers of at most 1012 questions
  (`EarlyStop.ConvergesExactly`, with failing runs in `EarlyStop.MissesOn24` and
  `EarlyStop.MissesOn1013`).
* `addAuditEvent` hashes its arguments before it applies their defaults, so an event that
  relied on a default does not verify (`HashChain.VerifiesExactly`,
  `HashChain.DefaultedFails`).
* `attemptReconstruction` clears the list its exam has after its awaits. A fragment it removes
  has been used by no attempt exactly when none on its list began after it was accepted
  (`Shamir.UnusedExactly`, and `Shamir.FourthIsLost` for a run that loses one); what is removed
  is wiped as long as no two attempts of an exam overlap, and not otherwise
  (`Shamir.WipedExactly`).
* The comment in `attemptReconstruction` says that only the threshold is needed and that more
  fragments give the same result; the code uses all of them. With all but one genuine, the key
  comes back exactly when that one is genuine too (`Shamir.OddAttempt`).
* Answering wrongly in different ways is meant to lower the collusion score. It does so exactly
  when the ratio under the logarithm exceeds `EPSILON`, and it can raise the score
  (`Detector.DiffWrongLowers`, `Detector.DiffWrongCanRaise`).
* A paper's key joins centre and seat with an underscore: two seats share a paper exactly
  because of underscores in their ids (`Solver.KeyIsShared`, `Solver.PapersApart`).
* `getClusters` joins two candidate ids with a bar, so pairs can be taken for one another
  exactly when another bar splits the joined key into sorted halves
  (`CollusionResults.AmbiguousExactly`, `CollusionResults.Misled`).
* `calibrate_threshold` keeps its bound for every target that is not negative; a negative one
  gives the greatest score with its margin, one of at least 1 counts from the end of the sorted
  scores, and one of at least 2 fails (`Threshold.IndexRange`).
* Varints, and with them block numbers, are written modulo 2^32. The reader accepts longer ones
  and overlays their upper digits on the lower ones (`FabricBlock.VarintReadsAs`), so a number
  survives exactly when it is below 2^32 (`FabricBlock.ComesBackExactly`).

`dafny verify dfyconfig.toml` checks the whole project.

## Model

| member | source | states |
|---|---|---|
| GF256.MultSlow | packages/crypto-lifecycle/src/shamir/gf256.ts:55-70 | the shift-and-reduce loop computes the field product given by the binary digits of its second factor |
| GF256.MulAddRight | packages/crypto-lifecycle/src/shamir/gf256.ts:55-70 | the product distributes over exclusive or |
| GF256.MulComm | packages/crypto-lifecycle/src/shamir/gf256.ts:55-70 | the product commutes |
| GF256.MulAssoc | packages/crypto-lifecycle/src/shamir/gf256.ts:55-70 | the product is associative |
| GF256.NoZeroDivisors | packages/crypto-lifecycle/src/shamir/gf256.ts:93-122 | a product is zero only when a factor is: the reduction polynomial 0x11B yields a field |
| GF256.Logarithm | packages/crypto-lifecycle/src/shamir/gf256.ts:28-43 | every non-zero byte is a power of the generator with an exponent below 255 |
| GF256.ExpInjective | packages/crypto-lifecycle/src/shamir/gf256.ts:35-43 | the 255 powers of the generator are all different |
| GF256.InverseExists | packages/crypto-lifecycle/src/shamir/gf256.ts:99-110 | every non-zero byte has an inverse |
| GF256.QuotientUnique | packages/crypto-lifecycle/src/shamir/gf256.ts:112-122 | a quotient is the only solution of its defining equation |
| GF256.Tables.InitTables | packages/crypto-lifecycle/src/shamir/gf256.ts:35-43 | after the loop the exponential and logarithm tables hold all powers of the generator and their exponents |
| GF256.Tables.Extend | packages/crypto-lifecycle/src/shamir/gf256.ts:44-48 | the upper half of the exponential table repeats the lower with period 255 |
| GF256.Tables.Mul | packages/crypto-lifecycle/src/shamir/gf256.ts:93-97 | the table product is the shift-and-reduce product for all operands, zero included |
| GF256.Tables.Inv | packages/crypto-lifecycle/src/shamir/gf256.ts:104-110 | the table inverse multiplies with its argument to one, and fails exactly on zero |
| GF256.Tables.Div | packages/crypto-lifecycle/src/shamir/gf256.ts:115-122 | the table quotient times the divisor is the dividend, and fails exactly on a zero divisor |
| GF256.HornerIsPowerSum | packages/crypto-lifecycle/src/shamir/gf256.ts:129-140 | Horner's scheme equals the sum of coefficients times powers |
| GF256.EvalPoly | packages/crypto-lifecycle/src/shamir/gf256.ts:129-140 | returns the power sum under the slow product; fails exactly on an empty coefficient list |
| GF256.TooManyRoots | packages/crypto-lifecycle/src/shamir/gf256.ts:142-184 | a polynomial with as many distinct roots as coefficients has zero coefficients only |
| GF256.InterpolateCorrect | packages/crypto-lifecycle/src/shamir/gf256.ts:142-184 | through k points with distinct x there is a polynomial with k coefficients |
| GF256.Unique | packages/crypto-lifecycle/src/shamir/gf256.ts:142-184 | two coefficient lists of length k that agree at k distinct points are equal |
| GF256.Neville | packages/crypto-lifecycle/src/shamir/gf256.ts:161-183 | the interpolated value at zero of k points combines those of two subsets of k - 1 points |
| GF256.WeightsSumToOne | packages/crypto-lifecycle/src/shamir/gf256.ts:163-177 | the Lagrange weights at zero add up to one |
| GF256.LagrangeRecovers | packages/crypto-lifecycle/src/shamir/gf256.ts:149-184 | interpolating at zero the values of a polynomial at enough distinct non-zero points gives its constant term |
| GF256.OneValueMatters | packages/crypto-lifecycle/src/shamir/gf256.ts:149-184 | changing any one value changes the value interpolated at zero |
| GF256.LagrangeInterpolateAtZero | packages/crypto-lifecycle/src/shamir/gf256.ts:149-184 | computes the Lagrange sum at zero, and fails on no points, on lists of different length and on a repeated x, and only then |
| Shamir.SplitKey | packages/crypto-lifecycle/src/shamir/shamir.service.ts:91-165 | the four rejections in order, and otherwise one fragment for each x from 1 on, holding the values of the byte polynomials at x |
| Sequences.SetSize | packages/crypto-lifecycle/src/shamir/shamir.service.ts:191-195 | comparing the size of the set of indices with the number of fragments detects exactly the repeated ones |
| Shamir.ReconstructKey | packages/crypto-lifecycle/src/shamir/shamir.service.ts:176-212 | too few fragments, unequal lengths and repeated indices fail in this order; otherwise each byte is the interpolation at zero of its column |
| Shamir.ReconstructionCorrect | packages/crypto-lifecycle/src/shamir/shamir.service.ts:176-212 | any list of at least threshold genuine fragments with distinct indices, in any order, gives back the key |
| Shamir.OneOddFragment | packages/crypto-lifecycle/src/shamir/shamir.service.ts:176-212 | with all but one of the fragments genuine, each byte recovered is the byte of the key exactly when the odd fragment has the right byte there |
| Shamir.SplitThenReconstruct | packages/crypto-lifecycle/src/shamir/shamir.service.ts:91-212 | splitting, choosing any threshold or more of the fragments in any order, and reconstructing returns the key |
| Shamir.ExactlyOneExplanation | packages/crypto-lifecycle/src/shamir/shamir.service.ts:119-136 | for every candidate secret byte, exactly one choice of the random coefficients yields the given t - 1 shares |
| Shamir.EquallyManyExplanations | packages/crypto-lifecycle/src/shamir/shamir.service.ts:119-136 | with t - 1 shares or fewer, adding one fixed vector exchanges the coefficient choices that explain one secret and those that explain another |
| Shamir.Service.CollectFragmentStart | packages/crypto-lifecycle/src/shamir/shamir.service.ts:224-261 | the first part of the call changes the pending lists and rejects as the protocol step does |
| Shamir.Service.AttemptReconstructionStart | packages/crypto-lifecycle/src/shamir/shamir.service.ts:313-343 | below three fragments nothing is attempted; otherwise the key is interpolated from all pending fragments |
| Shamir.Service.AttemptReconstructionFinish | packages/crypto-lifecycle/src/shamir/shamir.service.ts:373-387 | wipes every fragment of the list the call began with and removes the exam's entry; reports the list's length by then |
| Shamir.StepKeepsInv | packages/crypto-lifecycle/src/shamir/shamir.service.ts:224-388 | every step of every interleaving keeps the pending lists apart, in range, without repeated indices and unwiped |
| Shamir.PendingIsIntact | packages/crypto-lifecycle/src/shamir/shamir.service.ts:224-299 | after any interleaving a pending list has distinct indices in 1..5 and holds exactly the bytes accepted into it |
| Shamir.AttemptIsRight | packages/crypto-lifecycle/src/shamir/shamir.service.ts:313-343 | an attempt on genuine fragments returns the split key |
| Shamir.OddAttempt | packages/crypto-lifecycle/src/shamir/shamir.service.ts:332-343 | with three or more pending, all but one genuine, an attempt returns the key exactly when the odd fragment is genuine, and throws when it has another length |
| Shamir.EveryRecoveryIsTheKey | packages/crypto-lifecycle/src/shamir/shamir.service.ts:313-388 | over all interleavings, if the submissions for an exam are genuine, every successful attempt returns its key and none throws |
| Shamir.SerialWipes | packages/crypto-lifecycle/src/shamir/shamir.service.ts:313-388 | while no exam has two attempts outstanding, every list removed in a run is wiped as it is removed |
| Shamir.WipedExactly | packages/crypto-lifecycle/src/shamir/shamir.service.ts:313-388 | a run never has two attempts of an exam outstanding exactly when, from each of its states on, no further submissions and continuations remove anything unwiped |
| Shamir.DroppedExactly | packages/crypto-lifecycle/src/shamir/shamir.service.ts:326-377 | over all runs, what a finishing attempt removes is what its own key was interpolated from, if the list is still its own, followed by exactly the fragments accepted for the exam since it began |
| Shamir.UnusedExactly | packages/crypto-lifecycle/src/shamir/shamir.service.ts:326-377 | over all runs, a fragment still pending, which the next attempt to finish removes, has been used by no attempt exactly when every attempt on its list began before it was accepted |
| Shamir.FourthIsLost | packages/crypto-lifecycle/src/shamir/shamir.service.ts:313-377 | three genuine submissions, a request and a fourth submission: the attempt removes the fourth fragment, which no attempt has used |
| Shamir.OverlapLeavesData | packages/crypto-lifecycle/src/shamir/shamir.service.ts:373-377 | from any state of any run with two attempts of an exam outstanding, a continuation without further requests removes a list unwiped |
| Shamir.OverlapReachable | packages/crypto-lifecycle/src/shamir/shamir.service.ts:313-377 | three genuine submissions and two requests reach such a state from the start |
| NumberTheory.Fermat | workers/tlp-generator/src/tlp.py:166-169 | a^(p-1) is 1 modulo a prime p not dividing a |
| NumberTheory.ProductDivides | workers/tlp-generator/src/tlp.py:155-169 | a multiple of two different primes is a multiple of their product |
| TimeLock.GenerateSafePrime | workers/tlp-generator/src/tlp.py:40-77 | for any draws, given sound prime search and test, a returned number is a safe prime of the wanted bit length and the first acceptable one drawn |
| TimeLock.ToBytesMeans | workers/tlp-generator/src/tlp.py:171-173 | big-endian bytes and their value determine each other at a fixed length, leading zeros included |
| TimeLock.Generate | workers/tlp-generator/src/tlp.py:126-195 | the empty key and the past target fail in this order; otherwise the sealed puzzle, with a modulus of at least 4095 bits |
| TimeLock.SquaredIsPower | workers/tlp-generator/src/tlp.py:221-224 | t modular squarings compute a^(2^t) modulo n |
| TimeLock.Solve | workers/tlp-generator/src/tlp.py:207-232 | the squaring loop and the subtraction recover the key integer and its bytes; overflow fails |
| TimeLock.VerifySolvable | workers/tlp-generator/src/puzzle_verifier.py:16-92 | times out only at a multiple of 100000 past the limit; otherwise answers whether the recovered bytes are the expected ones |
| TimeLock.ExponentPositive | workers/tlp-generator/src/tlp.py:167-168 | for distinct safe primes 2^t mod phi(n) is never zero |
| TimeLock.TrapdoorAgrees | workers/tlp-generator/src/tlp.py:166-169 | a^(2^t) and a^(2^t mod phi(n)) agree modulo n for every base, coprime to n or not |
| TimeLock.UnlocksWhen | workers/tlp-generator/src/tlp.py:155-175 | for any two factors above one, the puzzle opens to the key exactly when the key value is below n and the two exponentiations agree |
| TimeLock.SolvingUnseals | workers/tlp-generator/src/tlp.py:155-232 | for distinct safe primes, every base and every t, solving returns the sealed bytes exactly when their value is below n |
| TimeLock.EqualPrimesFail | workers/tlp-generator/src/tlp.py:149-156 | with p = q some base and t make every key fail |
| TimeLock.DistinctPrimesNeeded | workers/tlp-generator/src/tlp.py:149-156 | a pair of safe primes serves all bases, all t and all keys below n exactly when the primes differ |
| TimeLock.ShortKeysUnseal | workers/tlp-generator/src/tlp.py:155-173 | with two different 2048-bit safe primes every key of at most 511 bytes unseals |
| TimeLock.SealSolveVerify | workers/tlp-generator/src/puzzle_verifier.py:45-92 | sealing, solving and verifying end to end: the solver returns the key and the verifier accepts it unless it times out |
| Merkle.ComputeMerkleProof | packages/blockchain-service/src/merkle/merkle.service.ts:370-429 | the loop over levels builds the sibling list of the leaf, none where an odd last node is promoted |
| Merkle.NextLevel | packages/blockchain-service/src/merkle/merkle.service.ts:388-403 | pairs are combined and an odd last node is promoted unchanged |
| Merkle.RecomputeRoot | packages/blockchain-service/src/merkle/merkle.service.ts:435-459 | folds the sibling list over the leaf hash by position |
| Merkle.VerifyMerkleProof | packages/blockchain-service/src/merkle/merkle.service.ts:129-146 | accepts exactly when the recomputed root is the expected one |
| Merkle.ProofIsComplete | packages/blockchain-service/src/merkle/merkle.service.ts:370-459 | recomputing the root of any leaf along its own proof gives the top of the tree |
| Merkle.ProofIsShort | packages/blockchain-service/src/merkle/merkle.service.ts:367-369 | with at most 2^d leaves a proof has at most d nodes |
| Merkle.FirstProofLength | packages/blockchain-service/src/merkle/merkle.service.ts:367-369 | the first leaf's proof attains that bound |
| Merkle.RootIsBinding | packages/blockchain-service/src/merkle/merkle.service.ts:435-459 | two leaves and sibling lists with the same positions and the same root are equal, or at a level found here the two recomputations combine different pairs to the same digest |
| Merkle.TreeIsBinding | packages/blockchain-service/src/merkle/merkle.service.ts:129-146 | what recomputes to the top along leaf i's positions is leaf i with its siblings, or collides with leaf i's own path at a level found here |
| Merkle.TopSplits | packages/blockchain-service/src/merkle/merkle.service.ts:358-361 | the promoting tree is the hash tree of section 2.1 of RFC 6962: split at the largest power of two below the number of leaves |
| FabricBlock.ReadVarint | packages/blockchain-service/src/merkle/merkle.service.ts:542-561 | the reading loop, with 32-bit shifts, the ten-byte limit and the silent stop at the end of the buffer |
| FabricBlock.EncodeVarint | packages/blockchain-service/src/merkle/merkle.service.ts:599-608 | the encoding of the value modulo 2^32 in groups of seven bits |
| FabricBlock.VarintRoundTrip | packages/blockchain-service/src/merkle/merkle.service.ts:542-608 | a varint written for any value below 2^32, at any place of any buffer, reads back with the place behind it |
| FabricBlock.VarintReadsAs | packages/blockchain-service/src/merkle/merkle.service.ts:542-561 | what the reader makes of the varint of any number: below 2^70 the part below 2^32 overlaid with the digits from 2^35 on, shifted to start at the third place; an error from there on |
| FabricBlock.ComesBackExactly | packages/blockchain-service/src/merkle/merkle.service.ts:542-561 | a number comes back as itself exactly when it is below 2^32 |
| FabricBlock.ReadProtobufField | packages/blockchain-service/src/merkle/merkle.service.ts:563-597 | tag, the four supported wire types and the rejection of the others; each field ends behind its start |
| FabricBlock.VarintFieldRoundTrip | packages/blockchain-service/src/merkle/merkle.service.ts:563-613 | a written varint field reads back as its number and value |
| FabricBlock.BytesFieldRoundTrip | packages/blockchain-service/src/merkle/merkle.service.ts:563-618 | a written bytes field reads back as its number and bytes |
| FabricBlock.ParseBlock | packages/blockchain-service/src/merkle/merkle.service.ts:193-262 | the nested reading loops compute the parse of the block; any bytes are parsed or rejected |
| FabricBlock.SerializeBlockHeader | packages/blockchain-service/src/merkle/merkle.service.ts:493-512 | number, and the two hashes where they are not empty, as fields 1 to 3 |
| FabricBlock.HeaderRoundTrip | packages/blockchain-service/src/merkle/merkle.service.ts:228-243 | parsing a serialised header gives it back, the number modulo 2^32 |
| FabricBlock.DataRoundTrip | packages/blockchain-service/src/merkle/merkle.service.ts:244-255 | parsing concatenated transaction fields gives the transactions in order |
| FabricBlock.BlockRoundTrip | packages/blockchain-service/src/merkle/merkle.service.ts:193-262 | parsing a block of serialised header, transaction fields and metadata gives back all three |
| FabricBlock.ExtractTxIdFromEnvelope | packages/blockchain-service/src/merkle/merkle.service.ts:305-353 | the four nested loops return the first transaction id found depth first, or an empty one |
| FabricBlock.ChannelHeaderHasTxId | packages/blockchain-service/src/merkle/merkle.service.ts:331-345 | the id is found behind the type, version and channel fields |
| FabricBlock.TxIdRoundTrip | packages/blockchain-service/src/merkle/merkle.service.ts:305-353 | the id written into an envelope is found whatever other fields stand in front of the four on the path and whatever bytes follow |
| Constraints.CheckDifficultyBalance | workers/matrix-solver/src/constraints.py:12-51 | passes exactly when every paper mean is within epsilon of their mean; the number reported is the greatest deviation, and attained |
| Constraints.CheckTopicCoverage | workers/matrix-solver/src/constraints.py:54-90 | passes exactly when every paper has the required number of every topic; returns the topic counts of every paper |
| Constraints.CheckNeighborDissimilarity | workers/matrix-solver/src/constraints.py:93-127 | passes exactly when every counted pair of adjacent papers is within the limit; the number reported bounds their overlaps and is attained or zero |
| Constraints.CheckCrossCenterDissimilarity | workers/matrix-solver/src/constraints.py:130-172 | passes exactly when every two papers of different centres are within the limit; the number reported bounds their overlaps and is attained or zero |
| Constraints.ComputeEnergy | workers/matrix-solver/src/solver.py:94-190 | the energy is the weighted sum of the four terms, and the count is the number of constraints that hold, each said on its own terms |
| Constraints.MaxOverlapBound | workers/matrix-solver/src/solver.py:150-159 | the accumulated maximum is within a limit exactly when every counted pair is |
| Constraints.DissimilarBound | workers/matrix-solver/src/solver.py:165-188 | the cross-centre maximum over samples is within a limit exactly when every sampled pair is |
| Constraints.EnergyNonNegative | workers/matrix-solver/src/solver.py:94-190 | the energy is never negative |
| Annealing.Iterate | workers/matrix-solver/src/solver.py:331-379 | one iteration leaves the swap when it lowers the energy or the coin says so, and else exactly the former matrix; cached energy and count are those of the matrix left |
| Annealing.Move | workers/matrix-solver/src/solver.py:355-379 | swap, evaluation and undo in place on the two lists |
| Annealing.UndoRestores | workers/matrix-solver/src/solver.py:376-379 | writing the two questions back restores the matrix |
| Annealing.SwapKeeps | workers/matrix-solver/src/solver.py:355-357 | a swap keeps each paper's length, the multiset of all questions and every topic's total |
| Annealing.TraceKeeps | workers/matrix-solver/src/solver.py:320-379 | every matrix accepted in a run keeps them too, whatever the random choices |
| Annealing.Solve | workers/matrix-solver/src/solver.py:293-420 | the run is a chain of moves; the returned snapshot has the least energy on it, the reported energy and converged flag are its own, and an early stop means all constraints held with energy below 0.01 |
| Solver.CheckAll | workers/matrix-solver/src/solver.py:394-420 | a converged matrix passes the first three checkers, and the fourth when no centre pair is sampled in part; passing all four satisfies the solver's constraints |
| Solver.SampleDecides | workers/matrix-solver/src/solver.py:170-174 | where no two seats share a paper: for every matrix with a paper for each seat, known questions and all four constraints satisfied, the full cross-centre check holds, exactly when no two non-empty centres include one with more than five papers |
| Solver.LowEnergyConverges | workers/matrix-solver/src/solver.py:94-190 | with at most 23 papers of at most 1012 different questions each, an energy below 0.01 implies all four constraints |
| Solver.EarlyStopConverges | workers/matrix-solver/src/solver.py:326-329 | so on such papers an early stop implies that the matrix returned, which may be an earlier one, has converged too |
| EarlyStop.ConvergesExactly | workers/matrix-solver/src/solver.py:320-420 | over all problems, seats and runs on at most n papers of at most s questions (both at least 2), an early stop always returns a converged matrix exactly when n is at most 23 and s at most 1012 |
| EarlyStop.MissesOn24 | workers/matrix-solver/src/solver.py:320-420 | on any 24 seats of one centre, a run on papers of two questions that stops early and returns the matrix it began with, which has not converged |
| EarlyStop.MissesOn1013 | workers/matrix-solver/src/solver.py:320-420 | on any two seats, a run on papers of 1013 questions that stops early and returns an unconverged matrix |
| Annealing.CoverageAgrees | workers/matrix-solver/src/constraints.py:72-88 | the solver's and the checker's coverage conditions agree on matrices of known questions |
| Solver.GroupByTopic | workers/matrix-solver/src/solver.py:203-208 | the groups hold exactly the questions of their topic |
| Solver.Draw | workers/matrix-solver/src/solver.py:223-233 | as many questions as required, without repetition where the bank suffices, with repetition where not, none from an empty bank |
| Solver.BuildPaper | workers/matrix-solver/src/solver.py:220-234 | a paper has for each topic as many questions as drawn |
| Solver.InitializeAssignments | workers/matrix-solver/src/solver.py:193-246 | one fresh list for each seat and no other key, each with the drawn numbers of each topic; the adjacency list in paper keys |
| Solver.CoversIffFeasible | workers/matrix-solver/src/solver.py:220-234 | the initial matrix covers the blueprint exactly when the bank has a question for every required topic |
| Solver.KeyIsShared | workers/matrix-solver/src/solver.py:89-91 | a paper's key is also the key of another centre and seat exactly when one of the two ids contains an underscore |
| Solver.PapersApart | workers/matrix-solver/src/solver.py:89-91 | centres with distinct ids and no underscores have papers of their own for all seats |
| Solver.CoverageNeedsFeasible | workers/matrix-solver/src/solver.py:320-379 | no sequence of moves reaches coverage of a blueprint with a required topic missing from the bank |
| Solver.StaysKnown | workers/matrix-solver/src/solver.py:355-379 | moves bring in no question from outside the bank |
| Solver.SolveAssignmentMatrix | workers/matrix-solver/src/solver.py:249-420 | the whole call: papers exactly for the seats, lengths and topic totals as drawn, energy at most the initial one; converged exactly when balance, coverage, neighbour and sampled cross-centre dissimilarity hold, and then the blueprint is feasible; converged after an early stop on at most 23 papers of at most 1012 questions |
| Rings.Search | workers/collusion-detector/src/cluster_analysis.py:76-89 | from an unvisited node the queue, duplicates included, empties, and what it visited is exactly what paths reach |
| Rings.ConnectedComponents | workers/collusion-detector/src/cluster_analysis.py:60-94 | the components are non-empty, disjoint, cover all nodes, and two nodes share one exactly when a path joins them |
| Rings.BuildAdjacencyGraph | workers/collusion-detector/src/cluster_analysis.py:32-57 | the edges are exactly the flagged pairs, both ways |
| Rings.CollectPairs | workers/collusion-detector/src/cluster_analysis.py:166-174 | each scored pair between two members is collected once, with its score |
| Rings.MakeCluster | workers/collusion-detector/src/cluster_analysis.py:162-213 | a cluster's figures: greatest score, exact mean, number of pairs, whether a pair sits together, evidence strength and seats |
| Rings.MeanBounds | workers/collusion-detector/src/cluster_analysis.py:179-180 | a mean lies between any bounds of the scores |
| Rings.SortedTally | workers/collusion-detector/src/cluster_analysis.py:215-217 | the final sort orders by strength and greatest score and keeps the multiset of clusters |
| Rings.FindCheatingRings | workers/collusion-detector/src/cluster_analysis.py:125-217 | each reported pair of different candidates is in exactly one cluster, the totals add up to their number, each cluster is a whole component with its figures, and the clusters found are returned in order of strength and greatest score |
| CollusionResults.AmbiguousExactly | packages/collusion-engine/src/results/results.service.ts:241-242 | a joined key stands for another pair too exactly when another bar splits it into sorted halves |
| CollusionResults.NoBarsSuffice | packages/collusion-engine/src/results/results.service.ts:241-242 | ids without bars are never ambiguous |
| CollusionResults.BarsCollide | packages/collusion-engine/src/results/results.service.ts:241-242 | two different pairs of ids with the same joined key |
| CollusionResults.Misled | packages/collusion-engine/src/results/results.service.ts:241-296 | for every ambiguous pair there is a list of two pairs on which the clustering lists its id nowhere and the other pair's id in its place |
| CollusionResults.TablesAgree | packages/collusion-engine/src/results/results.service.ts:227-246 | when no pair is ambiguous the table under joined keys is the table under unordered pairs |
| CollusionResults.EdgeScore | packages/collusion-engine/src/results/results.service.ts:287-293 | with pair ids of their own, the id stored for an edge finds the score stored for it |
| CollusionResults.GetClusters | packages/collusion-engine/src/results/results.service.ts:216-322 | each cluster is a whole component of two or more in order of greatest score, with the ids found under the joined keys and the greatest and mean of the scores found for them; when no pair is ambiguous and pair ids are distinct it lists the ids of the reported pairs inside once each, and every reported pair is in exactly one |
| Detector.ComputeCollusionScore | workers/collusion-detector/src/detector.py:33-126 | the score is the sum of the per-question terms; the evidence lists exactly the questions both got wrong, in order, with the terms that add up to it; the counters count the two kinds |
| Detector.ScoreSymmetric | workers/collusion-detector/src/detector.py:33-126 | the score does not depend on the order of the two candidates |
| Detector.SameWrongRaises | workers/collusion-detector/src/detector.py:84-97 | the same wrong answer never lowers the score, for any non-negative profile and any increasing logarithm that is 0 at 1 |
| Detector.DiffWrongLowers | workers/collusion-detector/src/detector.py:98-114 | two different wrong answers lower the score exactly when the floored ratio exceeds EPSILON, and do not raise it exactly when it is at least EPSILON |
| Detector.DiffWrongCanRaise | workers/collusion-detector/src/detector.py:98-114 | a profile on which two different wrong answers raise the score |
| Detector.NullScores | workers/collusion-detector/src/threshold_calibration.py:97-139 | the simulation's own loop computes the detector's statistic |
| Detector.DetectCollusion | workers/collusion-detector/src/detector.py:166-215 | for distinct ids each examined pair above the threshold is reported exactly once, and nothing else |
| Detector.ReportCount | workers/collusion-detector/src/detector.py:166-215 | there are as many reports as reported unordered pairs |
| Detector.DetectAndCluster | workers/collusion-detector/src/cluster_analysis.py:125-217 | detection and clustering: the clusters' totals add up to the number of reports |
| Threshold.Sort | workers/collusion-detector/src/threshold_calibration.py:165-166 | sorted, and with the same scores |
| Threshold.QuantileLeavesFew | workers/collusion-detector/src/threshold_calibration.py:168-170 | for a rate in [0, 1) the index is in range and leaves at most the target fraction behind it |
| Threshold.CalibrateThreshold | workers/collusion-detector/src/threshold_calibration.py:142-177 | the threshold is the quantile of the sorted sample with its margin; the scores above it are at most the target fraction exactly when the target is not negative; it fails exactly for a target of at least 2 |
| Threshold.IndexRange | workers/collusion-detector/src/threshold_calibration.py:168-171 | a target of at most 0 selects the greatest score, one of at least 1 counts from the end, one of at least 2 falls outside |
| Threshold.CalibrateOnNull | workers/collusion-detector/src/threshold_calibration.py:61-177 | simulation, calibration and detection together: at the calibrated threshold the detector's statistic flags at most the target fraction of the simulated pairs |
| Ledger.CompositeInjective | chaincode/exam-audit/src/exam-audit-contract.ts:151-173 | different index entries have different composite keys |
| Ledger.PartialMatches | chaincode/exam-audit/src/exam-audit-contract.ts:261-264 | a partial key is a prefix of exactly the keys of its index with its first attribute |
| Ledger.KeyOrder | chaincode/exam-audit/src/exam-audit-contract.ts:338-342 | composite keys of one index are ordered by the first attribute, and by event id where it is equal |
| Ledger.IndexHolds | chaincode/exam-audit/src/exam-audit-contract.ts:148-173 | after any recorded events each one is found under its index key |
| Ledger.IndexOnly | chaincode/exam-audit/src/exam-audit-contract.ts:148-173 | an index key holds nothing but a recorded event |
| Ledger.ScanFinds | chaincode/exam-audit/src/exam-audit-contract.ts:261-280 | a prefix scan visits exactly the recorded events selected, once each |
| Ledger.ExactlyIsFilter | chaincode/exam-audit/src/exam-audit-contract.ts:258-288 | once-each lists of the selected events are the filter of all recorded ones up to order |
| Ledger.ExamAuditContract.RecordEvent | chaincode/exam-audit/src/exam-audit-contract.ts:76-179 | the validations in order, each without a write; otherwise the record and its three index entries |
| Ledger.ExamAuditContract.GetEventsByExam | chaincode/exam-audit/src/exam-audit-contract.ts:258-287 | the recorded events of the exam, each as often as recorded, in timestamp order |
| Ledger.ExamAuditContract.GetEventCount | chaincode/exam-audit/src/exam-audit-contract.ts:366-383 | the number of recorded events of the exam |
| Ledger.ExamAuditContract.GetEventsByTimeRange | chaincode/exam-audit/src/exam-audit-contract.ts:300-354 | the recorded events in the range, in timestamp order, in spite of the early stop |
| Ledger.NothingLater | chaincode/exam-audit/src/exam-audit-contract.ts:338-342 | once a key past the end is seen no later key is in the range |
| CanonicalJson.CanonicalKeysUnique | chaincode/exam-audit/src/exam-audit-contract.ts:403-407 | the sorted key list depends only on the key set |
| CanonicalJson.EquivalentSortEqual | chaincode/exam-audit/src/exam-audit-contract.ts:394-409 | values equal up to key order at every depth have the same canonical form |
| CanonicalJson.SortPreserves | chaincode/exam-audit/src/exam-audit-contract.ts:398-409 | the canonical form is the same value up to key order |
| CanonicalJson.SortIdempotent | chaincode/exam-audit/src/exam-audit-contract.ts:398-409 | sorting twice is sorting once |
| CanonicalJson.CanonicalForm | chaincode/exam-audit/src/exam-audit-contract.ts:394-409 | two values have the same canonical form exactly when they are equal up to key order at every depth |
| HashChain.HeadDeterminesLog | mvp-server.js:49-53 | two sequences of calls with the same head are equal, or at two places found here they hash different bodies alike or yield the genesis value |
| HashChain.VerifiesExactly | mvp-server.js:2411-2419 | an event passes verification exactly when its call had a non-empty actor and a string exam id, or the two given bodies, hashed and rebuilt, differ and hash alike |
| HashChain.DefaultedFails | mvp-server.js:57-61 | a call passes under every hash function exactly when none of its arguments is defaulted |
| HashChain.AuditTrail.AddAuditEvent | mvp-server.js:49-68 | appends one event chained to the former head and makes its hash the head |
| HashChain.AuditTrail.Verify | mvp-server.js:2407-2422 | recomputes the hash of the first event with the id; passes when no call relied on a default |
| HashChain.AuditTrail.Linked | mvp-server.js:49-68 | each event's previous hash is its predecessor's hash, the genesis value for the first, and the head is the last hash |
| HashChain.SameHeadSameTrail | mvp-server.js:49-68 | two trails with the same head have the same number of events with the same hashed fields, or clash at two places found here |

## Left out

- Firestore, KMS, Redis, Pub/Sub, HTTP and gRPC routing, logging and progress reports: I/O around the modelled state. Awaited calls that fail are not modelled; a suspended call always resumes normally or never.
- AES-GCM, HMAC, the inside of SHA-256, hexadecimal and UTF-8 conversion, `JSON.parse` and `JSON.stringify`: library behaviour, taken as arbitrary functions or as the identity on bytes and values.
- Shamir.Service.AttemptReconstructionFinish: wipes the submitted bytes as values; that a caller might have submitted one buffer object for two exams, and see both wiped, is not modelled. Pending lists are named by ids, so their sharing between the map and suspended calls is.
- Shamir.Service.CollectFragmentStart: fragment indices are integers and collection times are not kept.
- Shamir.SplitKey: fragment ids (UUIDs) are not modelled, and the names of the holders are given by a function.
- The wiping of local integers in the puzzle generator (`_secure_delete_int`): a memory effect without a visible result.
- TimeLock.GenerateSafePrime: the unbounded search is over a given list of draws, and gives no result when they run out; `nextprime` and `isprime` are functions assumed sound.
- TimeLock.Generate: the primes, the base and the seconds left are inputs; the product of seconds and squarings is real, not floating point.
- TimeLock.VerifySolvable: the clock is an oracle that says at which checks the limit has passed.
- TimeLock.Solve: a modulus of zero is an error, and a negative size cannot occur.
- `getMerkleProof`, `extractTransactionHashes`, `computeTxHash` and `computeBlockHash`: plumbing around the modelled functions; that the Merkle root is Fabric's own data hash is not claimed.
- Merkle.ComputeMerkleProof: an index outside a non-empty leaf list is excluded; the caller finds the index in the list.
- FabricBlock.BlockRoundTrip: hashes are bytes rather than hexadecimal text; header fields of an unexpected wire type are kept as the parser keeps them, but the round trip writes none.
- `write_assignment_to_firestore` and `ProgressReporter`: I/O.
- Annealing.Iterate: the temperature and the exponential only decide the acceptance coin, which is arbitrary; redrawing until the two papers differ is a draw of different papers.
- Solver.InitializeAssignments: the papers of each centre are a sequence in the order of the centres, not a dictionary; the ids of centres are taken as distinct there. Papers that share a key share an entry, as in the code.
- Detector.ComputeCollusionScore: evidence entries keep the question, the kind and the contribution; responses are option numbers of the profile, so an unanswered question coded as -1, which indexes from the end, is outside the model.
- Detector.NullScores: the simulated responses and the drawn pairs are inputs.
- Threshold.CalibrateThreshold: of the calibration information only the observed rate is returned.
- CollusionResults.GetClusters: the generated cluster ids are not modelled; `edges` is kept beside the ids for the statements.
- Rings.FindCheatingRings: `None` and the empty seating map are the same, as they are to the code.
- `getEvent` and `verifyEvent` of the chaincode, and the emitted chaincode event: single reads and a notification.
- Ledger.ExamAuditContract.RecordEvent: event id, timestamp, actor and transaction id are inputs; that event ids are distinct is a condition of the queries.
- Ledger.ExamAuditContract.GetEventsByExam: `localeCompare` is code-point order, which it is on ISO timestamps of one format; among equal timestamps any order.
- CanonicalJson.CanonicalForm: a key named `__proto__` and values that are undefined are not modelled; integer-like keys, which JavaScript lists first, are.
- HashChain.AuditTrail.AddAuditEvent: the arguments are strings or undefined; metadata is a string and is not changed after the call.
- IRT calibration, ability estimation, equating, CAPTCHA and session counters, encryption packing, the simulated endpoints, seed data and user interface: floating-point fitting, one-branch invariants or presentation.
