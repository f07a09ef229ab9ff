/** The bitwise operators of JavaScript on non-negative integers, by structural recursion
    on the binary digits. */
module Bits {
  type byte = x: int | 0 <= x < 256

  function Pow2(k: nat): (r: nat)
    ensures r >= 1
  {
    if k == 0 then 1 else 2 * Pow2(k - 1)
  }

  lemma {:induction false} Pow2Add(j: nat, k: nat)
    ensures Pow2(j + k) == Pow2(j) * Pow2(k)
  {
    if j > 0 {
      Pow2Add(j - 1, k);
      assert Pow2(j + k) == 2 * (Pow2(j - 1) * Pow2(k));
    }
  }

  lemma {:induction false} Pow2Monotone(j: nat, k: nat)
    requires j <= k
    ensures Pow2(j) <= Pow2(k)
  {
    if j < k { Pow2Monotone(j, k - 1); }
  }

  lemma Pow2At32()
    ensures Pow2(7) == 128 && Pow2(32) == 0x1_0000_0000
  {
    assert Pow2(8) == 256;
    Pow2Add(8, 8);
    Pow2Add(16, 16);
  }

  /** `a ^ b` */
  function Xor(a: nat, b: nat): nat
    decreases a + b
  {
    if a == 0 && b == 0 then 0 else (a + b) % 2 + 2 * Xor(a / 2, b / 2)
  }

  /** `a | b` */
  function Or(a: nat, b: nat): nat
    decreases a + b
  {
    if a == 0 && b == 0 then 0
    else (if a % 2 == 1 || b % 2 == 1 then 1 else 0) + 2 * Or(a / 2, b / 2)
  }

  /** The last digit and the rest determine an exclusive or. */
  lemma {:induction false} XorDigits(a: nat, b: nat)
    ensures Xor(a, b) == (a + b) % 2 + 2 * Xor(a / 2, b / 2)
    ensures Xor(a, b) % 2 == (a + b) % 2
    ensures Xor(a, b) / 2 == Xor(a / 2, b / 2)
  {
    var low, rest := (a + b) % 2, Xor(a / 2, b / 2);
    assert Xor(a, b) == low + 2 * rest;
  }

  lemma Parity(x: nat, a: nat, b: nat, c: nat, y: nat)
    requires x % 2 == (a + b) % 2 && y % 2 == (b + c) % 2
    ensures (x + c) % 2 == (a + y) % 2
  {}

  lemma {:induction false} XorComm(a: nat, b: nat)
    ensures Xor(a, b) == Xor(b, a)
    decreases a + b
  {
    if a + b != 0 { XorComm(a / 2, b / 2); }
  }

  lemma {:induction false} XorZero(a: nat)
    ensures Xor(a, 0) == a && Xor(0, a) == a
  {
    if a != 0 { XorZero(a / 2); }
  }

  lemma {:induction false} XorSelf(a: nat)
    ensures Xor(a, a) == 0
  {
    if a != 0 { XorSelf(a / 2); }
  }

  lemma {:induction false} XorAssoc(a: nat, b: nat, c: nat)
    ensures Xor(Xor(a, b), c) == Xor(a, Xor(b, c))
    decreases a + b + c
  {
    hide Xor;
    if a + b + c == 0 {
      XorZero(0);
    } else {
      XorAssoc(a / 2, b / 2, c / 2);
      XorDigits(a, b);
      XorDigits(b, c);
      XorDigits(Xor(a, b), c);
      XorDigits(a, Xor(b, c));
      Parity(Xor(a, b), a, b, c, Xor(b, c));
    }
  }

  lemma {:induction false} XorDouble(a: nat, b: nat)
    ensures Xor(2 * a, 2 * b) == 2 * Xor(a, b)
  {
    hide Xor;
    XorDigits(2 * a, 2 * b);
    XorZero(0);
  }

  /** An exclusive or of k+1 digit numbers has k+1 digits, the leading one being the
      exclusive or of the leading ones. */
  lemma {:induction false} XorTop(a: nat, b: nat, k: nat)
    requires a < Pow2(k + 1) && b < Pow2(k + 1)
    ensures Xor(a, b) < Pow2(k + 1)
    ensures Xor(a, b) >= Pow2(k) <==> ((a >= Pow2(k)) != (b >= Pow2(k)))
  {
    XorDigits(a, b);
    if k > 0 {
      XorTop(a / 2, b / 2, k - 1);
    } else {
      assert Pow2(1) == 2;
      XorZero(0);
      assert Xor(a / 2, b / 2) == 0;
    }
  }

  /** Joining digit groups that do not overlap is addition. */
  lemma {:induction false} OrDisjoint(a: nat, b: nat, k: nat)
    requires a < Pow2(k)
    ensures Or(a, b * Pow2(k)) == a + b * Pow2(k)
  {
    if k == 0 {
      OrZero(b);
    } else {
      var r := b * Pow2(k - 1);
      assert b * Pow2(k) == 2 * r;
      OrDisjoint(a / 2, b, k - 1);
    }
  }

  lemma {:induction false} OrZero(b: nat)
    ensures Or(0, b) == b
  {
    if b != 0 { OrZero(b / 2); }
  }

  lemma {:induction false} OrAssoc(a: nat, b: nat, c: nat)
    ensures Or(Or(a, b), c) == Or(a, Or(b, c))
    decreases a + b + c
  {
    OrDigits(a, b);
    OrDigits(b, c);
    OrDigits(Or(a, b), c);
    OrDigits(a, Or(b, c));
    if a + b + c != 0 {
      OrAssoc(a / 2, b / 2, c / 2);
    }
  }

  function LowOr(a: nat, b: nat): nat { if a % 2 == 1 || b % 2 == 1 then 1 else 0 }

  lemma OrUnfolds(a: nat, b: nat)
    ensures Or(a, b) == LowOr(a, b) + 2 * Or(a / 2, b / 2)
  {}

  lemma OrDigits(a: nat, b: nat)
    ensures Or(a, b) % 2 == LowOr(a, b) && Or(a, b) / 2 == Or(a / 2, b / 2)
  {
    hide Or;
    OrUnfolds(a, b);
    LowAndRest(LowOr(a, b), Or(a / 2, b / 2));
  }

  lemma LowAndRest(low: nat, rest: nat)
    requires low <= 1
    ensures (low + 2 * rest) % 2 == low && (low + 2 * rest) / 2 == rest
  {}
}
