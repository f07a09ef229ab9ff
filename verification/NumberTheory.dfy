/** The number theory behind the time-lock trapdoor: Bezout, Euclid's lemma and Fermat's
    little theorem, with divisibility by explicit witnesses. */
module NumberTheory {
  function Times(a: int, b: int): int { a * b }

  ghost predicate Divides(d: int, x: int) {
    exists k: int :: Times(d, k) == x
  }

  ghost predicate Prime(p: int) {
    p >= 2 && forall d: nat, k: nat :: Times(d, k) == p ==> d == 1 || d == p
  }

  function Power(a: int, e: nat): int {
    if e == 0 then 1 else a * Power(a, e - 1)
  }

  // ---------------------------------------------------------------- divisibility

  lemma IsMultiple(d: int, x: int, k: int)
    requires x == d * k
    ensures Divides(d, x)
  {
    assert Times(d, k) == x;
  }

  lemma Quotient(d: int, x: int) returns (k: int)
    requires Divides(d, x)
    ensures x == d * k
  {
    k :| Times(d, k) == x;
  }

  lemma DividesSum(d: int, x: int, y: int)
    requires Divides(d, x) && Divides(d, y)
    ensures Divides(d, x + y) && Divides(d, x - y)
  {
    var i := Quotient(d, x);
    var j := Quotient(d, y);
    IsMultiple(d, x + y, i + j);
    IsMultiple(d, x - y, i - j);
  }

  lemma DividesProduct(d: int, x: int, y: int)
    requires Divides(d, x)
    ensures Divides(d, x * y) && Divides(d, y * x)
  {
    var i := Quotient(d, x);
    assert x * y == d * (i * y);
    IsMultiple(d, x * y, i * y);
  }

  lemma SmallMultiple(d: int, x: int)
    requires d > 0 && Divides(d, x) && -d < x < d
    ensures x == 0
  {
    var k := Quotient(d, x);
    MultipleSize(d, k);
  }

  lemma MultipleSize(d: int, k: int)
    requires d > 0
    ensures k >= 1 ==> d * k >= d
    ensures k <= -1 ==> d * k <= -d
    ensures k == 0 ==> d * k == 0
  {}

  lemma ModIsMultiple(x: int, n: int)
    requires n > 0
    ensures 0 <= x % n < n && Divides(n, x - x % n)
  {
    IsMultiple(n, x - x % n, x / n);
  }

  /** Remainders are equal exactly when the difference is a multiple. */
  lemma EqualRemainders(x: int, y: int, n: int)
    requires n > 0
    ensures x % n == y % n <==> Divides(n, x - y)
  {
    ModIsMultiple(x, n);
    ModIsMultiple(y, n);
    DividesSum(n, x - x % n, y - y % n);
    if x % n == y % n {
      assert (x - x % n) - (y - y % n) == x - y;
    }
    if Divides(n, x - y) {
      DividesSum(n, x - y, (x - x % n) - (y - y % n));
      assert (x - y) - ((x - x % n) - (y - y % n)) == x % n - y % n;
      SmallMultiple(n, x % n - y % n);
    }
  }

  lemma SmallMod(x: int, n: int)
    requires 0 <= x < n
    ensures x % n == x
  {}

  // ---------------------------------------------------------------- Bezout and Euclid

  lemma Bezout(a: nat, b: nat) returns (g: nat, u: int, v: int, i: nat, j: nat)
    requires a + b > 0
    ensures g > 0 && g == a * u + b * v && a == g * i && b == g * j
    decreases a + b
  {
    if a == 0 {
      g, u, v, i, j := b, 0, 1, 0, 1;
    } else if b == 0 {
      g, u, v, i, j := a, 1, 0, 1, 0;
    } else if a >= b {
      g, u, v, i, j := Bezout(a - b, b);
      assert g == a * u + b * (v - u);
      assert a == g * (i + j);
      v, i := v - u, i + j;
    } else {
      g, u, v, i, j := Bezout(a, b - a);
      assert g == a * (u - v) + b * v;
      assert b == g * (i + j);
      u, j := u - v, i + j;
    }
  }

  /** A prime dividing a product divides a factor. */
  lemma Euclid(p: int, x: nat, y: int)
    requires Prime(p) && Divides(p, x * y)
    ensures Divides(p, x) || Divides(p, y)
  {
    var g, u, v, i, j := Bezout(p, x);
    assert Times(g, i) == p;
    if g == p {
      IsMultiple(p, x, j);
    } else {
      var w := Quotient(p, x * y);
      assert y == (p * u + x * v) * y;
      assert (x * v) * y == (x * y) * v;
      assert y == p * (u * y) + p * (w * v);
      assert y == p * (u * y + w * v);
      IsMultiple(p, y, u * y + w * v);
    }
  }

  /** Distinct primes do not divide each other. */
  lemma PrimesIncomparable(p: int, q: int)
    requires Prime(p) && Prime(q) && p != q
    ensures !Divides(p, q)
  {
    if Divides(p, q) {
      var k := Quotient(p, q);
      MultipleSize(p, k);
      var n: nat, t := k, Times(p, k);
    }
  }

  /** Two distinct primes dividing a number make their product divide it. */
  lemma ProductDivides(p: int, q: int, x: int)
    requires Prime(p) && Prime(q) && p != q && Divides(p, x) && Divides(q, x)
    ensures Divides(p * q, x)
  {
    var k := Quotient(p, x);
    Euclid(q, p, k);
    PrimesIncomparable(q, p);
    var l := Quotient(q, k);
    assert x == p * (q * l) == (p * q) * l;
    IsMultiple(p * q, x, l);
  }

  lemma OneNotMultiple(p: int)
    requires p >= 2
    ensures !Divides(p, 1)
  {
    if Divides(p, 1) { SmallMultiple(p, 1); }
  }

  lemma {:induction false} PrimeDividesPower(p: int, a: nat, e: nat)
    requires Prime(p) && Divides(p, Power(a, e))
    ensures Divides(p, a)
  {
    if e == 0 {
      OneNotMultiple(p);
    } else {
      Euclid(p, a, Power(a, e - 1));
      if !Divides(p, a) {
        PrimeDividesPower(p, a, e - 1);
      }
    }
  }

  // ---------------------------------------------------------------- powers

  lemma {:induction false} PowerAdd(a: int, d: nat, e: nat)
    ensures Power(a, d + e) == Power(a, d) * Power(a, e)
  {
    if d > 0 {
      PowerAdd(a, d - 1, e);
      assert Power(a, d + e) == a * (Power(a, d - 1) * Power(a, e));
    }
  }

  lemma {:induction false} PowerMul(a: int, d: nat, e: nat)
    ensures 0 <= d * e && Power(a, d * e) == Power(Power(a, d), e)
  {
    if e == 0 {
      assert d * 0 == 0;
    } else {
      PowerMul(a, d, e - 1);
      assert d * e == d + d * (e - 1);
      PowerAdd(a, d, d * (e - 1));
    }
  }

  /** Congruent bases have congruent powers. */
  lemma {:induction false} PowerCongruent(a: int, b: int, e: nat, n: int)
    requires Divides(n, a - b)
    ensures Divides(n, Power(a, e) - Power(b, e))
  {
    if e == 0 {
      IsMultiple(n, 0, 0);
    } else {
      PowerCongruent(a, b, e - 1, n);
      var x, y := Power(a, e - 1), Power(b, e - 1);
      DividesProduct(n, a - b, x);
      DividesProduct(n, x - y, b);
      DividesSum(n, (a - b) * x, (x - y) * b);
      assert (a - b) * x + (x - y) * b == a * x - b * y;
    }
  }

  lemma {:induction false} PowerOfOne(e: nat)
    ensures Power(1, e) == 1
  {
    if e > 0 { PowerOfOne(e - 1); }
  }

  // ---------------------------------------------------------------- binomials and Fermat

  /** Pascal's triangle. */
  function Choose(n: nat, k: nat): nat {
    if k == 0 then 1 else if n == 0 then 0 else Choose(n - 1, k - 1) + Choose(n - 1, k)
  }

  lemma {:induction false} ChooseBeyond(n: nat, k: nat)
    requires k > n
    ensures Choose(n, k) == 0
  {
    if n > 0 {
      ChooseBeyond(n - 1, k - 1);
      ChooseBeyond(n - 1, k);
    }
  }

  lemma {:induction false} ChooseAll(n: nat)
    ensures Choose(n, n) == 1
  {
    if n > 0 {
      ChooseAll(n - 1);
      ChooseBeyond(n - 1, n);
    }
  }

  lemma {:induction false} Absorb(n: nat, k: nat)
    requires n > 0 && k > 0
    ensures k * Choose(n, k) == n * Choose(n - 1, k - 1)
  {
    if n == 1 {
      assert Choose(0, k) == 0 && Choose(1, k) == Choose(0, k - 1);
      if k > 1 { ChooseBeyond(0, k - 1); }
    } else {
      var u, v := Choose(n - 1, k - 1), Choose(n - 1, k);
      Absorb(n - 1, k);
      if k == 1 {
        assert u == 1 && Choose(n - 2, 0) == 1;
      } else {
        Absorb(n - 1, k - 1);
        AbsorbStep(n, k, u, v, Choose(n - 2, k - 1), Choose(n - 2, k - 2));
      }
    }
  }

  lemma AbsorbStep(n: int, k: int, u: int, v: int, w: int, z: int)
    requires k * v == (n - 1) * w && (k - 1) * u == (n - 1) * z && u == z + w
    ensures k * (u + v) == n * u
  {
    assert k * (u + v) == u + (n - 1) * z + (n - 1) * w;
    assert (n - 1) * z + (n - 1) * w == (n - 1) * u;
  }

  lemma PrimeDividesChoose(p: int, k: nat)
    requires Prime(p) && 0 < k < p
    ensures Divides(p, Choose(p, k))
  {
    hide Prime, Divides, Choose;
    Absorb(p, k);
    IsMultiple(p, k * Choose(p, k), Choose(p - 1, k - 1));
    Euclid(p, k, Choose(p, k));
    if Divides(p, k) {
      SmallMultiple(p, k);
    }
  }

  /** The first k + 1 terms of the binomial expansion of (1 + a)^n. */
  function Expansion(a: int, n: nat, k: nat): int {
    Choose(n, k) * Power(a, k) + if k == 0 then 0 else Expansion(a, n, k - 1)
  }

  lemma {:induction false} PascalRows(a: int, n: nat, k: nat)
    requires n > 0 && k > 0
    ensures Expansion(a, n, k) == Expansion(a, n - 1, k) + a * Expansion(a, n - 1, k - 1)
  {
    var u, v, w := Choose(n - 1, k - 1), Choose(n - 1, k), Power(a, k - 1);
    assert Choose(n, k) * Power(a, k) == v * Power(a, k) + a * (u * w);
    if k == 1 {
      assert Expansion(a, n, 0) == 1 && Expansion(a, n - 1, 0) == 1;
    } else {
      PascalRows(a, n, k - 1);
      Distribute(a, u * w, Expansion(a, n - 1, k - 2));
    }
  }

  lemma Distribute(a: int, x: int, y: int)
    ensures a * (x + y) == a * x + a * y
  {}

  /** The binomial theorem. */
  lemma {:induction false} Binomial(a: int, n: nat)
    ensures Power(1 + a, n) == Expansion(a, n, n)
  {
    if n == 0 {
      assert Power(a, 0) == 1 && Choose(0, 0) == 1;
    } else {
      Binomial(a, n - 1);
      PascalRows(a, n, n);
      ChooseBeyond(n - 1, n);
    }
  }

  /** All inner terms of the expansion of a p-th power are multiples of p. */
  lemma {:induction false} InnerTerms(p: int, a: int, k: nat)
    requires Prime(p) && k < p
    ensures Divides(p, Expansion(a, p, k) - 1)
  {
    hide Prime, Divides;
    if k == 0 {
      assert Choose(p, 0) == 1 && Power(a, 0) == 1;
      IsMultiple(p, 0, 0);
    } else {
      InnerTerms(p, a, k - 1);
      PrimeDividesChoose(p, k);
      DividesProduct(p, Choose(p, k), Power(a, k));
      DividesSum(p, Choose(p, k) * Power(a, k), Expansion(a, p, k - 1) - 1);
    }
  }

  /** a^p = a modulo p. */
  lemma {:induction false} FermatAll(p: int, a: nat)
    requires Prime(p)
    ensures p > 0 && Divides(p, Power(a, p) - a)
  {
    PrimeAtLeastTwo(p);
    hide Prime, Divides;
    if a == 0 {
      assert Power(0, p) == 0 * Power(0, p - 1) == 0;
      IsMultiple(p, 0, 0);
    } else {
      FermatAll(p, a - 1);
      Binomial(a - 1, p);
      InnerTerms(p, a - 1, p - 1);
      ChooseAll(p);
      DividesSum(p, Expansion(a - 1, p, p - 1) - 1, Power(a - 1, p) - (a - 1));
    }
  }

  /** Fermat's little theorem. */
  lemma Fermat(p: int, a: nat)
    requires Prime(p) && !Divides(p, a)
    ensures p > 0 && Divides(p, Power(a, p - 1) - 1)
  {
    FermatAll(p, a);
    hide Prime, Divides;
    assert Power(a, p) - a == a * (Power(a, p - 1) - 1);
    Euclid(p, a, Power(a, p - 1) - 1);
  }

  lemma PrimeAtLeastTwo(p: int)
    requires Prime(p)
    ensures p >= 2
  {}
}
