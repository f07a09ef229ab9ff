/** RSA time-lock puzzles (Rivest, Shamir and Wagner 1996): sealing with the trapdoor,
    solving by sequential squaring. */
module TimeLock {
  import opened Bits
  import opened NumberTheory
  import opened Wrappers

  datatype Puzzle = Puzzle(n: nat, a: nat, t: nat, cipher: nat, keySizeBytes: nat)

  datatype PuzzleError = EmptyKey | TargetInPast | Overflow | TimedOut | ZeroModulus

  // ---------------------------------------------------------------- big-endian integers

  /** `int.from_bytes(b, "big")` */
  function FromBytes(b: seq<byte>): nat {
    if b == [] then 0 else FromBytes(b[..|b| - 1]) * 256 + b[|b| - 1]
  }

  function Digits(x: nat, size: nat): seq<byte> {
    if size == 0 then [] else Digits(x / 256, size - 1) + [x % 256]
  }

  function Capacity(size: nat): nat {
    if size == 0 then 1 else 256 * Capacity(size - 1)
  }

  /** `x.to_bytes(size, "big")` */
  function ToBytes(x: nat, size: nat): Result<seq<byte>, PuzzleError> {
    if x < Capacity(size) then Success(Digits(x, size)) else Failure(Overflow)
  }

  lemma {:induction false} FromBytesBound(b: seq<byte>)
    ensures FromBytes(b) < Capacity(|b|)
  {
    if b != [] {
      FromBytesBound(b[..|b| - 1]);
    }
  }

  /** Leading zeros included, the bytes come back. */
  lemma {:induction false} DigitsOfBytes(b: seq<byte>)
    ensures Digits(FromBytes(b), |b|) == b
  {
    if b != [] {
      DigitsOfBytes(b[..|b| - 1]);
      assert FromBytes(b) / 256 == FromBytes(b[..|b| - 1]);
    }
  }

  lemma {:induction false} BytesOfDigits(x: nat, size: nat)
    requires x < Capacity(size)
    ensures |Digits(x, size)| == size && FromBytes(Digits(x, size)) == x
  {
    if size > 0 {
      BytesOfDigits(x / 256, size - 1);
      assert Digits(x, size)[..size - 1] == Digits(x / 256, size - 1);
    }
  }

  /** `ToBytes` gives exactly the byte string of the right length and value. */
  lemma ToBytesMeans(x: nat, b: seq<byte>)
    ensures ToBytes(x, |b|) == Success(b) <==> x == FromBytes(b)
  {
    FromBytesBound(b);
    DigitsOfBytes(b);
    if x < Capacity(|b|) {
      BytesOfDigits(x, |b|);
    }
  }

  // ---------------------------------------------------------------- safe primes

  ghost predicate SafePrime(p: int) {
    Prime(p) && exists r: int :: Prime(r) && p == 2 * r + 1
  }

  predicate BitLength(x: nat, bits: nat) {
    bits > 0 && Pow2(bits - 1) <= x < Pow2(bits)
  }

  /** The number tested for a draw: the next prime from the drawn odd number, doubled, plus one. */
  function Candidate(bits: nat, draw: nat, nextPrime: nat -> nat): nat
    requires bits >= 2
  {
    var start := draw + Pow2(bits - 2);
    2 * nextPrime(if start % 2 == 0 then start + 1 else start) + 1
  }

  predicate Acceptable(bits: nat, draw: nat, nextPrime: nat -> nat, isPrime: nat -> bool)
    requires bits >= 2
  {
    var p := Candidate(bits, draw, nextPrime);
    BitLength(p, bits) && isPrime(p)
  }

  ghost predicate First(bits: nat, draws: seq<nat>, i: int, nextPrime: nat -> nat, isPrime: nat -> bool)
    requires bits >= 2
  {
    && 0 <= i < |draws| && Acceptable(bits, draws[i], nextPrime, isPrime)
    && forall j :: 0 <= j < i ==> !Acceptable(bits, draws[j], nextPrime, isPrime)
  }

  /** `_generate_safe_prime`: `draws` are the results of the random source, one per attempt;
      no value is returned when they run out. */
  method GenerateSafePrime(bits: nat, draws: seq<nat>, nextPrime: nat -> nat, isPrime: nat -> bool)
    returns (r: Option<nat>)
    requires bits >= 2
    requires forall x: nat :: Prime(nextPrime(x))
    requires forall x: nat :: isPrime(x) <==> Prime(x)
    ensures r.Some? ==> SafePrime(r.value) && BitLength(r.value, bits)
    ensures r.Some? ==>
      exists i :: First(bits, draws, i, nextPrime, isPrime) && r.value == Candidate(bits, draws[i], nextPrime)
    ensures r.None? ==> forall i :: 0 <= i < |draws| ==> !Acceptable(bits, draws[i], nextPrime, isPrime)
  {
    var i := 0;
    while i < |draws|
      invariant 0 <= i <= |draws|
      invariant forall j :: 0 <= j < i ==> !Acceptable(bits, draws[j], nextPrime, isPrime)
    {
      var qCandidate := draws[i] + Pow2(bits - 2);
      if qCandidate % 2 == 0 {
        qCandidate := qCandidate + 1;
      }
      var q := nextPrime(qCandidate);
      var p := 2 * q + 1;
      if BitLength(p, bits) && isPrime(p) {
        assert Prime(q) && First(bits, draws, i, nextPrime, isPrime);
        return Some(p);
      }
      i := i + 1;
    }
    r := None;
  }

  // ---------------------------------------------------------------- sealing

  function PowMod(a: nat, e: nat, n: nat): (r: nat)
    requires n > 0
    ensures r < n && r == Power(a, e) % n
  {
    Power(a, e) % n
  }

  lemma ProductPositive(a: int, b: int)
    requires a > 0 && b > 0
    ensures a * b > 0
  {}

  function Modulus(p: nat, q: nat): (n: nat)
    requires p > 1 && q > 1
    ensures n > 0
  {
    ProductPositive(p, q);
    p * q
  }

  function Phi(p: nat, q: nat): (phi: nat)
    requires p > 1 && q > 1
    ensures phi > 0
  {
    ProductPositive(p - 1, q - 1);
    (p - 1) * (q - 1)
  }

  /** The trapdoor exponent 2^t mod phi. */
  function Exponent(p: nat, q: nat, t: nat): nat
    requires p > 1 && q > 1
  {
    PowMod(2, t, Phi(p, q))
  }

  /** Steps 2 to 6: modulus, trapdoor exponent, trapdoor power, sealed key. */
  function Seal(key: seq<byte>, p: nat, q: nat, a: nat, t: nat): Puzzle
    requires p > 1 && q > 1
  {
    var n := Modulus(p, q);
    var result := PowMod(a, Exponent(p, q, t), n);
    Puzzle(n, a, t, (FromBytes(key) + result) % n, |key|)
  }

  const SAFETY_BITS := 2048

  /** The number of squarings for the time left, a safety margin before the target. */
  function SquaringCount(secondsUntilRelease: real, marginSeconds: int, squaringsPerSec: nat): nat {
    var early := secondsUntilRelease - marginSeconds as real;
    var effective := if early > 1.0 then early else 1.0;
    (effective * squaringsPerSec as real).Floor
  }

  /** `generate_time_lock_puzzle`, given the time left, the two primes and the base drawn. */
  method Generate(key: seq<byte>, secondsUntilRelease: real, squaringsPerSec: nat, marginSeconds: int, p: nat,
    q: nat, a: nat)
    returns (r: Result<Puzzle, PuzzleError>)
    requires p > 1 && q > 1 && SafePrime(p) && SafePrime(q) && BitLength(p, SAFETY_BITS) && BitLength(q, SAFETY_BITS)
    requires 2 <= a < Modulus(p, q)
    ensures key == [] ==> r == Failure(EmptyKey)
    ensures key != [] && secondsUntilRelease <= 0.0 ==> r == Failure(TargetInPast)
    ensures key != [] && secondsUntilRelease > 0.0 ==>
      r == Success(Seal(key, p, q, a, SquaringCount(secondsUntilRelease, marginSeconds, squaringsPerSec)))
    ensures Pow2(2 * SAFETY_BITS - 2) <= Modulus(p, q)
  {
    LargeModulus(p, q, SAFETY_BITS);
    if key == [] {
      return Failure(EmptyKey);
    }
    if secondsUntilRelease <= 0.0 {
      return Failure(TargetInPast);
    }
    var t := SquaringCount(secondsUntilRelease, marginSeconds, squaringsPerSec);
    var n := p * q;
    var phi := (p - 1) * (q - 1);
    var e := PowMod(2, t, Phi(p, q));
    var result := PowMod(a, e, n);
    var keyInt := FromBytes(key);
    var cipher := (keyInt + result) % n;
    r := Success(Puzzle(n, a, t, cipher, |key|));
  }

  /** The modulus has at least 2 * bits - 1 bits: the assertion after step 2 never fails. */
  lemma LargeModulus(p: nat, q: nat, bits: nat)
    requires p > 1 && q > 1 && BitLength(p, bits) && BitLength(q, bits)
    ensures 2 * bits >= 2 && Pow2(2 * bits - 2) <= Modulus(p, q)
  {
    hide Pow2;
    Pow2Add(bits - 1, bits - 1);
    var h := Pow2(bits - 1);
    assert h * h <= h * q <= p * q;
  }

  lemma {:induction false} CapacityIsPower(size: nat)
    ensures Capacity(size) == Pow2(8 * size)
  {
    if size > 0 {
      CapacityIsPower(size - 1);
      Pow2Add(8, 8 * (size - 1));
      assert Pow2(8) == 256;
    }
  }

  // ---------------------------------------------------------------- sequential squaring

  /** The value after t squarings modulo n. */
  function Squared(a: nat, n: nat, t: nat): nat
    requires n > 0
  {
    if t == 0 then a else (Squared(a, n, t - 1) * Squared(a, n, t - 1)) % n
  }

  function Recovered(z: Puzzle): nat
    requires z.n > 0
  {
    (z.cipher - Squared(z.a, z.n, z.t)) % z.n
  }

  /** `solve_time_lock_puzzle` */
  method Solve(z: Puzzle) returns (r: Result<seq<byte>, PuzzleError>)
    ensures z.n == 0 ==> r == Failure(ZeroModulus)
    ensures z.n > 0 ==> r == ToBytes(Recovered(z), z.keySizeBytes)
  {
    if z.n == 0 {
      return Failure(ZeroModulus);
    }
    var result, i := z.a, 0;
    while i < z.t
      invariant 0 <= i <= z.t && result == Squared(z.a, z.n, i)
    {
      result := (result * result) % z.n;
      i := i + 1;
    }
    var keyInt := (z.cipher - result) % z.n;
    r := ToBytes(keyInt, z.keySizeBytes);
  }

  /** `verify_puzzle_solvable`; `late(i)` is the outcome of the clock check at iteration i. */
  method VerifySolvable(z: Puzzle, expectedKey: seq<byte>, late: nat -> bool) returns (r: Result<bool, PuzzleError>)
    ensures z.n == 0 ==> r == Failure(ZeroModulus)
    ensures z.n > 0 ==> (r == Failure(TimedOut) <==> exists i :: 0 < i < z.t && i % 100000 == 0 && late(i))
    ensures z.n > 0 && r != Failure(TimedOut) ==>
      match ToBytes(Recovered(z), z.keySizeBytes)
      case Success(key) => r == Success(key == expectedKey)
      case Failure(e) => r == Failure(e)
  {
    if z.n == 0 {
      return Failure(ZeroModulus);
    }
    var result, i := z.a, 0;
    while i < z.t
      invariant 0 <= i <= z.t && result == Squared(z.a, z.n, i)
      invariant forall j :: 0 < j < i && j % 100000 == 0 ==> !late(j)
    {
      result := (result * result) % z.n;
      if i % 100000 == 0 && i > 0 {
        if late(i) {
          return Failure(TimedOut);
        }
      }
      i := i + 1;
    }
    var keyInt := (z.cipher - result) % z.n;
    var recovered := ToBytes(keyInt, z.keySizeBytes);
    if recovered.Failure? {
      return Failure(recovered.error);
    }
    r := Success(recovered.value == expectedKey);
  }

  /** Sequential squaring computes a^(2^t) modulo n. */
  lemma {:induction false} SquaredIsPower(a: nat, n: nat, t: nat)
    requires n > 0
    ensures Divides(n, Squared(a, n, t) - Power(a, Pow2(t)))
  {
    hide Divides;
    if t == 0 {
      assert Power(a, 1) == a * Power(a, 0) == a;
      IsMultiple(n, 0, 0);
    } else {
      SquaredIsPower(a, n, t - 1);
      var s, w := Squared(a, n, t - 1), Power(a, Pow2(t - 1));
      PowerAdd(a, Pow2(t - 1), Pow2(t - 1));
      DividesProduct(n, s - w, s + w);
      assert (s - w) * (s + w) == s * s - w * w;
      ModIsMultiple(s * s, n);
      DividesSum(n, s * s - w * w, s * s - (s * s) % n);
    }
  }

  // ---------------------------------------------------------------- the trapdoor

  lemma {:induction false} PowerOfTwo(t: nat)
    ensures Power(2, t) == Pow2(t)
  {
    if t > 0 { PowerOfTwo(t - 1); }
  }

  /** An odd prime, or any number but 2, is not a prime divisor of a power of two. */
  lemma OnlyTwo(r: int, t: nat)
    requires Prime(r) && Divides(r, Pow2(t))
    ensures r == 2
  {
    PowerOfTwo(t);
    PrimeDividesPower(r, 2, t);
    if r > 2 {
      SmallMultiple(r, 2);
    }
  }

  lemma PhiOfSafe(r: nat, s: nat, k: int, t: nat)
    requires r > 0 && s > 0 && Pow2(t) == Phi(2 * r + 1, 2 * s + 1) * k
    ensures Divides(r, Pow2(t)) && Divides(s, Pow2(t))
  {
    hide Divides, Pow2;
    var phi := (2 * r) * (2 * s);
    assert phi == r * (4 * s) && phi == s * (4 * r);
    assert phi * k == r * (4 * s * k) && phi * k == s * (4 * r * k);
    IsMultiple(r, Pow2(t), 4 * s * k);
    IsMultiple(s, Pow2(t), 4 * r * k);
  }

  /** For distinct safe primes the reduced exponent is never zero. */
  lemma ExponentPositive(p: nat, q: nat, t: nat)
    requires SafePrime(p) && SafePrime(q) && p != q
    ensures Exponent(p, q, t) > 0
  {
    hide Divides, Power, Phi;
    var r :| Prime(r) && p == 2 * r + 1;
    var s :| Prime(s) && q == 2 * s + 1;
    PowerOfTwo(t);
    ModIsMultiple(Power(2, t), Phi(p, q));
    if Exponent(p, q, t) == 0 {
      var k := Quotient(Phi(p, q), Pow2(t));
      PhiOfSafe(r, s, k, t);
      OnlyTwo(r, t);
      OnlyTwo(s, t);
    }
  }

  /** Modulo a prime, exponents that differ by a multiple of p - 1 agree: by Fermat off the
      multiples of p, and trivially on them as long as the exponent is positive. */
  lemma ReducedExponent(p: int, a: nat, e: nat, k: nat)
    requires Prime(p) && e > 0
    ensures (p - 1) * k >= 0 && Divides(p, Power(a, e + (p - 1) * k) - Power(a, e))
  {
    hide Prime, Divides;
    PrimeAtLeastTwo(p);
    PowerMul(a, p - 1, k);
    PowerAdd(a, e, (p - 1) * k);
    var w := Power(Power(a, p - 1), k);
    assert Power(a, e) * w - Power(a, e) == Power(a, e) * (w - 1);
    if Divides(p, a) {
      DividesProduct(p, a, Power(a, e - 1));
      DividesProduct(p, Power(a, e), w - 1);
    } else {
      Fermat(p, a);
      PowerCongruent(Power(a, p - 1), 1, k, p);
      NumberTheory.PowerOfOne(k);
      DividesProduct(p, w - 1, Power(a, e));
    }
  }

  lemma PhiMultiples(p: nat, q: nat, k: nat)
    requires p > 1 && q > 1
    ensures (q - 1) * k >= 0 && (p - 1) * k >= 0
    ensures Phi(p, q) * k == (p - 1) * ((q - 1) * k) && Phi(p, q) * k == (q - 1) * ((p - 1) * k)
  {}

  lemma SafeIsPrime(p: int)
    requires SafePrime(p)
    ensures Prime(p) && p > 1
  {}

  /** a^(2^t) = a^(2^t mod phi) modulo n, for every base, coprime to n or not. */
  lemma TrapdoorAgrees(p: nat, q: nat, a: nat, t: nat)
    requires SafePrime(p) && SafePrime(q) && p != q
    ensures Divides(Modulus(p, q), Power(a, Pow2(t)) - Power(a, Exponent(p, q, t)))
  {
    hide Divides, Prime, SafePrime, Power, Phi, Pow2;
    SafeIsPrime(p);
    SafeIsPrime(q);
    ExponentPositive(p, q, t);
    PowerOfTwo(t);
    var e, k := Pow2(t) % Phi(p, q), Pow2(t) / Phi(p, q);
    PhiMultiples(p, q, k);
    ReducedExponent(p, a, e, (q - 1) * k);
    ReducedExponent(q, a, e, (p - 1) * k);
    ProductDivides(p, q, Power(a, Pow2(t)) - Power(a, e));
  }

  lemma SumOfMultiples(n: int, x: int, u: int, w: int, result: int, c: int, s: int, r: int)
    requires n > 0 && Divides(n, u - result) && Divides(n, x + result - c) && Divides(n, c - s - r) && Divides(n, s - w)
    ensures Divides(n, r - (x + u - w))
  {
    hide Divides;
    DividesSum(n, u - result, x + result - c);
    DividesSum(n, u + x - c, c - s - r);
    DividesSum(n, u + x - s - r, s - w);
    IsMultiple(n, 0, 0);
    DividesSum(n, 0, u + x - r - w);
    assert u - result + (x + result - c) == u + x - c;
  }

  /** Unlocking gives the key value plus the discrepancy of the two exponentiations. */
  lemma RecoveredIs(key: seq<byte>, p: nat, q: nat, a: nat, t: nat)
    requires p > 1 && q > 1
    ensures Divides(Modulus(p, q), Recovered(Seal(key, p, q, a, t))
                    - (FromBytes(key) + Power(a, Exponent(p, q, t)) - Power(a, Pow2(t))))
  {
    hide Divides, Power, Squared, FromBytes, Modulus, Exponent, Pow2;
    var n, e := Modulus(p, q), Exponent(p, q, t);
    var x: int, result: int, s: int := FromBytes(key), PowMod(a, e, n), Squared(a, n, t);
    var c: int := (x + result) % n;
    ModIsMultiple(Power(a, e), n);
    ModIsMultiple(x + result, n);
    ModIsMultiple(c - s, n);
    SquaredIsPower(a, n, t);
    SumOfMultiples(n, x, Power(a, e), Power(a, Pow2(t)), result, c, s, (c - s) % n);
  }

  ghost predicate Unlocks(key: seq<byte>, p: nat, q: nat, a: nat, t: nat)
    requires p > 1 && q > 1
  {
    var z := Seal(key, p, q, a, t);
    ToBytes(Recovered(z), z.keySizeBytes) == Success(key)
  }

  /** The puzzle opens to the key exactly when the key value is below the modulus and the two
      exponentiations agree. */
  lemma UnlocksWhen(key: seq<byte>, p: nat, q: nat, a: nat, t: nat)
    requires p > 1 && q > 1
    ensures Unlocks(key, p, q, a, t) <==>
      FromBytes(key) < Modulus(p, q) && Divides(Modulus(p, q), Power(a, Pow2(t)) - Power(a, Exponent(p, q, t)))
  {
    hide Divides, Power, Squared, FromBytes, Modulus, Exponent, Pow2, ToBytes;
    var n, x := Modulus(p, q), FromBytes(key);
    var z := Seal(key, p, q, a, t);
    var w, delta := Recovered(z), Power(a, Pow2(t)) - Power(a, Exponent(p, q, t));
    ToBytesMeans(w, key);
    RecoveredIs(key, p, q, a, t);
    var gap := w - (x - delta);
    IsMultiple(n, 0, 0);
    if w == x {
      assert gap == delta;
    }
    if x < n && Divides(n, delta) {
      DividesSum(n, gap, delta);
      SmallMultiple(n, w - x);
    }
  }

  /** With distinct safe primes, for every base and every number of squarings, solving the
      puzzle gives back the sealed bytes exactly when their value is below the modulus. */
  lemma SolvingUnseals(key: seq<byte>, p: nat, q: nat, a: nat, t: nat)
    requires SafePrime(p) && SafePrime(q) && p != q
    ensures Unlocks(key, p, q, a, t) <==> FromBytes(key) < Modulus(p, q)
  {
    hide Divides, Power, FromBytes, Modulus, Exponent, Pow2, Unlocks;
    UnlocksWhen(key, p, q, a, t);
    TrapdoorAgrees(p, q, a, t);
  }

  // ---------------------------------------------------------------- equal primes

  /** (1 + p)^m = 1 + m p modulo p^2. */
  lemma {:induction false} OnePlus(p: nat, m: nat)
    ensures Divides(p * p, Power(1 + p, m) - (1 + m * p))
  {
    hide Divides;
    var n := p * p;
    if m == 0 {
      IsMultiple(n, 0, 0);
    } else {
      OnePlus(p, m - 1);
      var w := Power(1 + p, m - 1);
      var k := Quotient(n, w - (1 + (m - 1) * p));
      var l := k * (1 + p) + (m - 1);
      OnePlusStep(p, m, w, k);
      IsMultiple(n, (1 + p) * w - (1 + m * p), l);
    }
  }

  lemma OnePlusStep(p: nat, m: nat, w: int, k: int)
    requires m > 0 && w - (1 + (m - 1) * p) == (p * p) * k
    ensures (1 + p) * w - (1 + m * p) == (p * p) * (k * (1 + p) + (m - 1))
  {
    var n := p * p;
    assert w == n * k + 1 + (m - 1) * p;
    assert (1 + p) * w == (1 + p) * (n * k) + (1 + p) + (1 + p) * ((m - 1) * p);
    assert (1 + p) * (n * k) == n * (k * (1 + p));
    assert (1 + p) * ((m - 1) * p) == (m - 1) * p + n * (m - 1);
    assert m * p == (m - 1) * p + p;
  }

  /** A power of two in [x, 2x). */
  lemma {:induction false} PowerOfTwoAbove(x: nat) returns (t: nat)
    requires x >= 1
    ensures x <= Pow2(t) < 2 * x
  {
    if x == 1 {
      t := 0;
    } else {
      t := PowerOfTwoAbove(x - 1);
      if Pow2(t) < x {
        t := t + 1;
      }
    }
  }

  lemma ExponentWraps(p: nat, t: nat)
    requires p > 1 && Phi(p, p) <= Pow2(t) < 2 * Phi(p, p)
    ensures Pow2(t) == Exponent(p, p, t) + Phi(p, p)
  {
    hide Phi, Pow2, Divides;
    PowerOfTwo(t);
    var phi := Phi(p, p);
    var e := Pow2(t) - phi;
    IsMultiple(phi, Pow2(t) - e, 1);
    EqualRemainders(Pow2(t), e, phi);
    SmallMod(e, phi);
  }

  lemma Discrepancy(p: nat, e: nat)
    requires Prime(p)
    ensures !Divides(p * p, Power(1 + p, e + (p - 1) * (p - 1)) - Power(1 + p, e))
  {
    hide Divides, Power, Prime;
    PrimeAtLeastTwo(p);
    var n, phi := p * p, (p - 1) * (p - 1);
    var m := e + phi;
    var x, y := Power(1 + p, m), Power(1 + p, e);
    if Divides(n, x - y) {
      OnePlus(p, m);
      OnePlus(p, e);
      DividesSum(n, x - (1 + m * p), y - (1 + e * p));
      DividesSum(n, x - y, x - (1 + m * p) - (y - (1 + e * p)));
      assert m * p == e * p + phi * p;
      SquareNotMultiple(p);
    }
  }

  /** When the two primes coincide some base and number of squarings make every key come
      back wrong. */
  lemma EqualPrimesFail(p: nat) returns (a: nat, t: nat)
    requires SafePrime(p)
    ensures 2 <= a < Modulus(p, p)
    ensures forall key :: !Unlocks(key, p, p, a, t)
  {
    hide Divides, Power, Unlocks, Pow2, Prime, SafePrime;
    SafeIsPrime(p);
    a := 1 + p;
    assert p * p >= 2 * p;
    t := PowerOfTwoAbove(Phi(p, p));
    ExponentWraps(p, t);
    Discrepancy(p, Exponent(p, p, t));
    forall key
      ensures !Unlocks(key, p, p, a, t)
    {
      UnlocksWhen(key, p, p, a, t);
    }
  }

  lemma SquareNotMultiple(p: nat)
    requires Prime(p)
    ensures !Divides(p * p, (p - 1) * (p - 1) * p)
  {
    hide Divides, Prime;
    PrimeAtLeastTwo(p);
    var w := (p - 1) * (p - 1);
    if Divides(p * p, w * p) {
      var k := Quotient(p * p, w * p);
      assert p * (w - p * k) == 0;
      assert w == p * k;
      IsMultiple(p, w, k);
      Euclid(p, p - 1, p - 1);
      SmallMultiple(p, p - 1);
    }
  }

  /** Sealing works for every base, number of squarings and key below the modulus exactly
      when the two primes differ. */
  lemma DistinctPrimesNeeded(p: nat, q: nat)
    requires SafePrime(p) && SafePrime(q)
    ensures p != q <==>
      forall key, a, t: nat ::
        2 <= a < Modulus(p, q) && key != [] && FromBytes(key) < Modulus(p, q) ==> Unlocks(key, p, q, a, t)
  {
    hide Unlocks, FromBytes, Modulus;
    SafeIsPrime(p);
    SafeIsPrime(q);
    if p == q {
      var a, t := EqualPrimesFail(p);
      ZeroKey();
      assert !Unlocks([0], p, q, a, t);
    } else {
      forall key, a, t: nat | FromBytes(key) < Modulus(p, q)
        ensures Unlocks(key, p, q, a, t)
      {
        SolvingUnseals(key, p, q, a, t);
      }
    }
  }

  lemma ZeroKey()
    ensures FromBytes([0]) == 0
  {}

  /** With 2048-bit primes every key of at most 511 bytes is below the modulus, so the
      generated puzzle opens to it. */
  lemma ShortKeysUnseal(key: seq<byte>, p: nat, q: nat, a: nat, t: nat)
    requires SafePrime(p) && SafePrime(q) && p != q && BitLength(p, SAFETY_BITS) && BitLength(q, SAFETY_BITS)
    requires |key| <= 511
    ensures p > 1 && q > 1 && Unlocks(key, p, q, a, t)
  {
    hide Pow2, Capacity, FromBytes, Unlocks, Modulus;
    SafeIsPrime(p);
    SafeIsPrime(q);
    FromBytesBound(key);
    CapacityIsPower(|key|);
    Pow2Monotone(8 * |key|, 2 * SAFETY_BITS - 2);
    LargeModulus(p, q, SAFETY_BITS);
    SolvingUnseals(key, p, q, a, t);
  }

  /** Sealing, solving and verifying end to end. */
  method SealSolveVerify(key: seq<byte>, p: nat, q: nat, a: nat, t: nat, late: nat -> bool)
    returns (solved: Result<seq<byte>, PuzzleError>, verified: Result<bool, PuzzleError>)
    requires p > 1 && q > 1 && SafePrime(p) && SafePrime(q) && p != q && FromBytes(key) < Modulus(p, q)
    ensures solved == Success(key)
    ensures verified != Failure(TimedOut) ==> verified == Success(true)
  {
    hide Modulus, SafePrime;
    SolvingUnseals(key, p, q, a, t);
    var z := Seal(key, p, q, a, t);
    solved := Solve(z);
    verified := VerifySolvable(z, key, late);
  }
}
