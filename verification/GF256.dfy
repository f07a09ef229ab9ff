/** The field GF(2^8) with the polynomial 0x11B (section 4.2 of FIPS 197), built from the
    shift-and-reduce multiplication, its logarithm tables, and polynomials over it: evaluation,
    interpolation and uniqueness at any degree. */
module GF256 {
  import opened Bits
  import opened Sequences
  import opened Wrappers

  // ================================================================ the field

  const IRREDUCIBLE_POLY := 0x11b
  const GENERATOR: byte := 3

  // ---------------------------------------------------------------- addition

  lemma PowersUsed()
    ensures Pow2(7) == 128 && Pow2(8) == 256 && Pow2(9) == 512
  {}

  /** Addition and subtraction in the field. */
  function Add(a: byte, b: byte): byte {
    PowersUsed(); XorTop(a, b, 7);
    Xor(a, b)
  }

  lemma AddZero(a: byte)
    ensures Add(a, 0) == a && Add(0, a) == a
  {
    XorZero(a);
  }

  lemma AddSelf(a: byte)
    ensures Add(a, a) == 0
  {
    XorSelf(a);
  }

  lemma AddComm(a: byte, b: byte)
    ensures Add(a, b) == Add(b, a)
  {
    XorComm(a, b);
  }

  lemma AddAssoc(a: byte, b: byte, c: byte)
    ensures Add(Add(a, b), c) == Add(a, Add(b, c))
  {
    XorAssoc(a, b, c);
  }

  lemma AddSwap(a: byte, b: byte, c: byte, d: byte)
    ensures Add(Add(a, b), Add(c, d)) == Add(Add(a, c), Add(b, d))
  {
    hide *;
    AddAssoc(a, b, Add(c, d));
    AddAssoc(b, c, d);
    AddComm(b, c);
    AddAssoc(c, b, d);
    AddAssoc(a, c, Add(b, d));
  }

  lemma AddCancel(a: byte, b: byte)
    ensures Add(Add(a, b), b) == a && Add(b, Add(b, a)) == a && Add(Add(b, a), b) == a
    ensures Add(a, b) == 0 <==> a == b
  {
    hide *;
    AddAssoc(a, b, b);
    AddAssoc(b, b, a);
    AddSelf(b);
    AddZero(a);
    AddZero(b);
    AddComm(a, b);
  }

  // ---------------------------------------------------------------- slow product

  /** Doubling: shift left and subtract the reduction polynomial on overflow. */
  function Xtime(a: byte): byte {
    PowersUsed();
    if 2 * a >= 0x100 then XorTop(2 * a, IRREDUCIBLE_POLY, 8); Xor(2 * a, IRREDUCIBLE_POLY) else 2 * a
  }

  function Odd(a: byte, b: nat): byte {
    if b % 2 == 1 then a else 0
  }

  /** The value computed by the shift-and-reduce loop. */
  function SlowMul(a: byte, b: nat): byte
    decreases b
  {
    if b == 0 then 0 else Add(Odd(a, b), SlowMul(Xtime(a), b / 2))
  }

  method MultSlow(a: byte, b: byte) returns (result: byte)
    ensures result == SlowMul(a, b)
  {
    hide SlowMul, Add, Xtime, Odd, Xor;
    result := 0;
    var aa: nat, bb: nat := a, b;
    AddZero(SlowMul(a, b));
    while bb > 0
      invariant aa < 256
      invariant Add(result, SlowMul(aa, bb)) == SlowMul(a, b)
    {
      MulStep(aa, bb);
      AddAssoc(result, Odd(aa, bb), SlowMul(Xtime(aa), bb / 2));
      OddCases(aa, bb);
      AddZero(result);
      if bb % 2 == 1 {
        result := Add(result, aa);
      }
      DoubleThenReduce(aa);
      aa := aa * 2;
      if aa >= 0x100 {
        aa := Xor(aa, IRREDUCIBLE_POLY);
      }
      bb := bb / 2;
    }
    MulZero(aa);
    AddZero(result);
  }

  lemma OddCases(a: byte, b: nat)
    ensures Odd(a, b) == if b % 2 == 1 then a else 0
  {}

  lemma DoubleThenReduce(a: byte)
    ensures (if a * 2 >= 0x100 then Xor(a * 2, IRREDUCIBLE_POLY) else a * 2) == Xtime(a)
  {
    hide Xor;
  }

  // ---------------------------------------------------------------- ring laws

  lemma XtimeLinear(a: byte, b: byte)
    ensures Xtime(Add(a, b)) == Add(Xtime(a), Xtime(b))
  {
    hide Xor;
    PowersUsed();
    XorTop(a, b, 7);
    XorDouble(a, b);
    var p := IRREDUCIBLE_POLY;
    XorAssoc(2 * a, p, Xor(2 * b, p));
    XorComm(2 * b, p);
    XorAssoc(p, p, 2 * b);
    XorSelf(p);
    XorZero(2 * b);
    XorAssoc(2 * a, p, 2 * b);
    XorAssoc(2 * a, 2 * b, p);
  }

  /** One unfolding, valid for every multiplier. */
  lemma MulStep(a: byte, b: nat)
    ensures SlowMul(a, b) == Add(Odd(a, b), SlowMul(Xtime(a), b / 2))
  {
    if b == 0 { AddZero(0); }
  }

  lemma {:induction false} MulZero(a: byte)
    ensures SlowMul(a, 0) == 0
  {}

  lemma {:induction false} ZeroMul(b: nat)
    ensures SlowMul(0, b) == 0
  {
    if b != 0 {
      ZeroMul(b / 2);
      AddZero(0);
    }
  }

  lemma {:induction false} MulAddLeft(a: byte, a': byte, b: nat)
    ensures SlowMul(Add(a, a'), b) == Add(SlowMul(a, b), SlowMul(a', b))
    decreases b
  {
    hide *;
    if b == 0 {
      AddZero(0);
      MulZero(a); MulZero(a'); MulZero(Add(a, a'));
    } else {
      MulStep(a, b); MulStep(a', b); MulStep(Add(a, a'), b);
      XtimeLinear(a, a');
      MulAddLeft(Xtime(a), Xtime(a'), b / 2);
      OddCases(a, b); OddCases(a', b); OddCases(Add(a, a'), b);
      AddZero(0);
      AddSwap(Odd(a, b), Odd(a', b), SlowMul(Xtime(a), b / 2), SlowMul(Xtime(a'), b / 2));
    }
  }

  lemma {:induction false} MulXorRight(a: byte, b: nat, b': nat)
    ensures SlowMul(a, Xor(b, b')) == Add(SlowMul(a, b), SlowMul(a, b'))
    decreases b + b'
  {
    hide *;
    if b + b' == 0 {
      XorZero(0);
      AddZero(0);
      MulZero(a);
    } else {
      MulStep(a, b); MulStep(a, b'); MulStep(a, Xor(b, b'));
      XorDigits(b, b');
      OddCases(a, b); OddCases(a, b'); OddCases(a, Xor(b, b'));
      AddZero(0); AddZero(a); AddSelf(a);
      MulXorRight(Xtime(a), b / 2, b' / 2);
      AddSwap(Odd(a, b), Odd(a, b'), SlowMul(Xtime(a), b / 2), SlowMul(Xtime(a), b' / 2));
    }
  }

  lemma MulAddRight(a: byte, b: byte, b': byte)
    ensures SlowMul(a, Add(b, b')) == Add(SlowMul(a, b), SlowMul(a, b'))
  {
    hide SlowMul, Xor;
    MulXorRight(a, b, b');
  }

  lemma {:induction false} MulXtimeLeft(a: byte, b: nat)
    ensures SlowMul(Xtime(a), b) == Xtime(SlowMul(a, b))
    decreases b
  {
    hide *;
    if b == 0 {
      MulZero(a); MulZero(Xtime(a));
      XtimeSmall(0);
    } else {
      MulStep(a, b); MulStep(Xtime(a), b);
      MulXtimeLeft(Xtime(a), b / 2);
      OddCases(a, b); OddCases(Xtime(a), b);
      XtimeSmall(0);
      XtimeLinear(Odd(a, b), SlowMul(Xtime(a), b / 2));
    }
  }

  lemma XtimeSmall(a: byte)
    requires a < 128
    ensures Xtime(a) == 2 * a
  {}

  /** Every byte is its low bit plus the double of its half. */
  lemma LowBit(b: byte)
    ensures b == Add(b % 2, Xtime(b / 2))
  {
    hide Xor;
    XorZero(0);
    XtimeSmall(b / 2);
    XorDigits(b % 2, 2 * (b / 2));
    XorZero(b / 2);
  }

  lemma {:induction false} MulOne(a: byte)
    ensures SlowMul(1, a) == a && SlowMul(a, 1) == a
  {
    hide *;
    MulStep(a, 1); MulZero(Xtime(a)); OddCases(a, 1); AddZero(a);
    if a == 0 {
      MulZero(1);
    } else {
      MulStep(1, a); OddCases(1, a);
      MulOne(a / 2);
      MulXtimeLeft(1, a / 2);
      LowBit(a);
    }
  }

  lemma {:induction false} MulComm(a: byte, b: byte)
    ensures SlowMul(a, b) == SlowMul(b, a)
    decreases b
  {
    hide *;
    if b == 0 {
      ZeroMul(a);
      MulZero(a);
    } else {
      MulStep(a, b); OddCases(a, b);
      LowBit(b);
      MulAddLeft(b % 2, Xtime(b / 2), a);
      MulXtimeLeft(b / 2, a);
      MulXtimeLeft(a, b / 2);
      MulComm(a, b / 2);
      MulOne(a);
      ZeroMul(a);
    }
  }

  lemma {:induction false} MulAssoc(a: byte, b: byte, c: byte)
    ensures SlowMul(SlowMul(a, b), c) == SlowMul(a, SlowMul(b, c))
    decreases c
  {
    hide *;
    if c == 0 {
      MulZero(a); MulZero(b); MulZero(SlowMul(a, b));
    } else {
      MulStep(SlowMul(a, b), c); MulStep(b, c);
      OddCases(b, c); OddCases(SlowMul(a, b), c);
      MulZero(a);
      MulComm(a, b);
      MulXtimeLeft(b, a);
      MulComm(a, Xtime(b));
      MulAssoc(a, Xtime(b), c / 2);
      MulAddRight(a, Odd(b, c), SlowMul(Xtime(b), c / 2));
    }
  }

  // ---------------------------------------------------------------- powers of the generator

  function Exp(i: nat): byte {
    if i == 0 then 1 else SlowMul(Exp(i - 1), GENERATOR)
  }

  lemma {:induction false} ExpAdd(i: nat, j: nat)
    ensures Exp(i + j) == SlowMul(Exp(i), Exp(j))
  {
    hide SlowMul;
    if j == 0 {
      MulOne(Exp(i));
    } else {
      ExpAdd(i, j - 1);
      MulAssoc(Exp(i), Exp(j - 1), GENERATOR);
    }
  }

  // ---------------------------------------------------------------- concrete products

  /** The binary digits of a byte, least significant first: concrete products are
      evaluated on digits, where they are propositional. */
  datatype Digits = Digits(d0: bool, d1: bool, d2: bool, d3: bool, d4: bool, d5: bool, d6: bool, d7: bool)

  function Cons(d: bool, rest: nat): nat { (if d then 1 else 0) + 2 * rest }

  function Num(b: Digits): nat {
    Cons(b.d0, Cons(b.d1, Cons(b.d2, Cons(b.d3, Cons(b.d4, Cons(b.d5, Cons(b.d6, Cons(b.d7, 0))))))))
  }

  lemma NumBound(b: Digits)
    ensures Num(b) < 256
  {}

  function Val(b: Digits): byte {
    NumBound(b); Num(b)
  }

  function AddB(a: Digits, b: Digits): Digits {
    Digits(a.d0 != b.d0, a.d1 != b.d1, a.d2 != b.d2, a.d3 != b.d3,
           a.d4 != b.d4, a.d5 != b.d5, a.d6 != b.d6, a.d7 != b.d7)
  }

  function XtimeB(a: Digits): Digits {
    Digits(a.d7, a.d0 != a.d7, a.d1, a.d2 != a.d7, a.d3 != a.d7, a.d4, a.d5, a.d6)
  }

  const ZERO := Digits(false, false, false, false, false, false, false, false)

  function Row(a: Digits, d: bool, rest: Digits): Digits {
    if d then AddB(a, rest) else rest
  }

  function MulB(a: Digits, b: Digits): Digits {
    var a1 := XtimeB(a);
    var a2 := XtimeB(a1);
    var a3 := XtimeB(a2);
    var a4 := XtimeB(a3);
    var a5 := XtimeB(a4);
    var a6 := XtimeB(a5);
    var a7 := XtimeB(a6);
    Row(a, b.d0, Row(a1, b.d1, Row(a2, b.d2, Row(a3, b.d3,
    Row(a4, b.d4, Row(a5, b.d5, Row(a6, b.d6, Row(a7, b.d7, ZERO))))))))
  }

  lemma ConsHalf(a: bool, x: nat)
    ensures Cons(a, x) / 2 == x
  {}

  lemma ConsParity(a: bool, x: nat, b: bool, y: nat)
    ensures (Cons(a, x) + Cons(b, y)) % 2 == if a != b then 1 else 0
  {
    var carry := if a && b then 1 else 0;
    assert Cons(a, x) + Cons(b, y) == (if a != b then 1 else 0) + 2 * (x + y + carry);
  }

  lemma XorCons(a: bool, x: nat, b: bool, y: nat)
    ensures Xor(Cons(a, x), Cons(b, y)) == Cons(a != b, Xor(x, y))
  {
    hide Xor;
    ConsHalf(a, x);
    ConsHalf(b, y);
    ConsParity(a, x, b, y);
    XorDigits(Cons(a, x), Cons(b, y));
  }

  lemma XorCons4(a0: bool, a1: bool, a2: bool, a3: bool, x: nat, b0: bool, b1: bool, b2: bool, b3: bool, y: nat)
    ensures Xor(Cons(a0, Cons(a1, Cons(a2, Cons(a3, x)))), Cons(b0, Cons(b1, Cons(b2, Cons(b3, y)))))
         == Cons(a0 != b0, Cons(a1 != b1, Cons(a2 != b2, Cons(a3 != b3, Xor(x, y)))))
  {
    hide *;
    XorCons(a3, x, b3, y);
    XorCons(a2, Cons(a3, x), b2, Cons(b3, y));
    XorCons(a1, Cons(a2, Cons(a3, x)), b1, Cons(b2, Cons(b3, y)));
    XorCons(a0, Cons(a1, Cons(a2, Cons(a3, x))), b0, Cons(b1, Cons(b2, Cons(b3, y))));
  }

  lemma NumFields(b: Digits)
    ensures Val(b) == Num(b)
    ensures Num(b) == Cons(b.d0, Cons(b.d1, Cons(b.d2, Cons(b.d3, Cons(b.d4, Cons(b.d5, Cons(b.d6, Cons(b.d7, 0))))))))
  {
    hide Cons;
  }

  lemma AddIsXor(a: byte, b: byte)
    ensures Add(a, b) == Xor(a, b)
  {
    hide Xor;
  }

  lemma NumFlat(b0: bool, b1: bool, b2: bool, b3: bool, b4: bool, b5: bool, b6: bool, b7: bool)
    ensures Num(Digits(b0, b1, b2, b3, b4, b5, b6, b7))
         == Cons(b0, Cons(b1, Cons(b2, Cons(b3, Cons(b4, Cons(b5, Cons(b6, Cons(b7, 0))))))))
  {
    hide Cons;
  }

  lemma AddFlat(a0: bool, a1: bool, a2: bool, a3: bool, a4: bool, a5: bool, a6: bool, a7: bool,
                b0: bool, b1: bool, b2: bool, b3: bool, b4: bool, b5: bool, b6: bool, b7: bool)
    ensures Xor(Num(Digits(a0, a1, a2, a3, a4, a5, a6, a7)), Num(Digits(b0, b1, b2, b3, b4, b5, b6, b7)))
         == Num(Digits(a0 != b0, a1 != b1, a2 != b2, a3 != b3, a4 != b4, a5 != b5, a6 != b6, a7 != b7))
  {
    hide *;
    NumFlat(a0, a1, a2, a3, a4, a5, a6, a7);
    NumFlat(b0, b1, b2, b3, b4, b5, b6, b7);
    NumFlat(a0 != b0, a1 != b1, a2 != b2, a3 != b3, a4 != b4, a5 != b5, a6 != b6, a7 != b7);
    XorCons4(a4, a5, a6, a7, 0, b4, b5, b6, b7, 0);
    XorZero(0);
    XorCons4(a0, a1, a2, a3, Cons(a4, Cons(a5, Cons(a6, Cons(a7, 0)))), b0, b1, b2, b3,
      Cons(b4, Cons(b5, Cons(b6, Cons(b7, 0)))));
  }

  lemma AddFields(a: Digits, b: Digits)
    ensures a == Digits(a.d0, a.d1, a.d2, a.d3, a.d4, a.d5, a.d6, a.d7)
    ensures AddB(a, b) == Digits(a.d0 != b.d0, a.d1 != b.d1, a.d2 != b.d2, a.d3 != b.d3,
                                 a.d4 != b.d4, a.d5 != b.d5, a.d6 != b.d6, a.d7 != b.d7)
  {}

  lemma AddBits(a: Digits, b: Digits)
    ensures Add(Val(a), Val(b)) == Val(AddB(a, b))
  {
    hide *;
    AddIsXor(Val(a), Val(b));
    NumFields(a);
    NumFields(b);
    NumFields(AddB(a, b));
    AddFields(a, b);
    AddFields(b, a);
    AddFlat(a.d0, a.d1, a.d2, a.d3, a.d4, a.d5, a.d6, a.d7, b.d0, b.d1, b.d2, b.d3, b.d4, b.d5, b.d6, b.d7);
  }

  // The digits without the leading one, the leading one alone, the shift, and the reduction.
  function Low(a: Digits): Digits { a.(d7 := false) }
  function High(a: Digits): Digits { ZERO.(d7 := a.d7) }
  function Shifted(a: Digits): Digits { Digits(false, a.d0, a.d1, a.d2, a.d3, a.d4, a.d5, a.d6) }
  function Reduction(a: Digits): Digits { Digits(a.d7, a.d7, false, a.d7, a.d7, false, false, false) }

  lemma SplitDigits(a: Digits)
    ensures AddB(Low(a), High(a)) == a
    ensures AddB(Shifted(a), Reduction(a)) == XtimeB(a)
  {}

  lemma SplitLow(a: Digits)
    ensures Val(Low(a)) < 128 && 2 * Val(Low(a)) == Val(Shifted(a))
  {
    hide Cons, Num;
    NumFields(Low(a));
    NumFields(Shifted(a));
    ConsLow(Num(Low(a)));
    NumBound(Shifted(a));
  }

  lemma ConsLow(n: nat)
    ensures Cons(false, 0) == 0 && Cons(false, n) == 2 * n
  {}

  lemma SplitHigh(a: Digits)
    ensures Val(High(a)) == if a.d7 then 128 else 0
    ensures Val(Reduction(a)) == if a.d7 then 0x1b else 0
  {}

  lemma XtimeOfHigh()
    ensures Xtime(128) == 0x1b && Xtime(0) == 0
  {
    hide Xor;
    XorDigits(256, 0x11b);
    XorDigits(128, 141);
    XorDigits(64, 70);
    XorDigits(32, 35);
    XorDigits(16, 17);
    XorDigits(8, 8);
    XorSelf(8);
  }

  lemma XtimeBits(a: Digits)
    ensures Xtime(Val(a)) == Val(XtimeB(a))
  {
    hide *;
    SplitDigits(a);
    SplitLow(a);
    SplitHigh(a);
    AddBits(Low(a), High(a));
    XtimeLinear(Val(Low(a)), Val(High(a)));
    XtimeSmall(Val(Low(a)));
    XtimeOfHigh();
    AddBits(Shifted(a), Reduction(a));
  }

  lemma RowStep(a: Digits, d: bool, r: nat, rest: Digits)
    requires SlowMul(Xtime(Val(a)), r) == Val(rest)
    ensures SlowMul(Val(a), Cons(d, r)) == Val(Row(a, d, rest))
  {
    hide Xor, Add, SlowMul, Xtime, Val, AddB;
    MulStep(Val(a), Cons(d, r));
    AddBits(a, rest);
    AddZero(Val(rest));
  }

  lemma MulBits(a: Digits, b: Digits)
    ensures SlowMul(Val(a), Val(b)) == Val(MulB(a, b))
  {
    hide *;
    NumFields(b);
    MulRows(a, b, XtimeB(a), XtimeB(XtimeB(a)), XtimeB(XtimeB(XtimeB(a))));
  }

  lemma MulRows(a: Digits, b: Digits, a1: Digits, a2: Digits, a3: Digits)
    requires a1 == XtimeB(a) && a2 == XtimeB(a1) && a3 == XtimeB(a2)
    ensures SlowMul(Val(a), Num(b)) == Val(MulB(a, b))
  {
    hide Val, Cons, SlowMul, Xtime, XtimeB, Row;
    var a4 := XtimeB(a3);
    var a5 := XtimeB(a4);
    var a6 := XtimeB(a5);
    var a7 := XtimeB(a6);
    XtimeBits(a); XtimeBits(a1); XtimeBits(a2); XtimeBits(a3); XtimeBits(a4); XtimeBits(a5); XtimeBits(a6);
    var r7 := Row(a7, b.d7, ZERO);
    var r6 := Row(a6, b.d6, r7);
    var r5 := Row(a5, b.d5, r6);
    var r4 := Row(a4, b.d4, r5);
    var r3 := Row(a3, b.d3, r4);
    var r2 := Row(a2, b.d2, r3);
    var r1 := Row(a1, b.d1, r2);
    var n7 := Cons(b.d7, 0);
    var n6 := Cons(b.d6, n7);
    var n5 := Cons(b.d5, n6);
    var n4 := Cons(b.d4, n5);
    var n3 := Cons(b.d3, n4);
    var n2 := Cons(b.d2, n3);
    var n1 := Cons(b.d1, n2);
    MulZero(Xtime(Val(a7))); ZeroVal();
    RowStep(a7, b.d7, 0, ZERO);
    RowStep(a6, b.d6, n7, r7);
    RowStep(a5, b.d5, n6, r6);
    RowStep(a4, b.d4, n5, r5);
    RowStep(a3, b.d3, n4, r4);
    RowStep(a2, b.d2, n3, r3);
    RowStep(a1, b.d1, n2, r2);
    RowStep(a, b.d0, n1, r1);
  }

  lemma ZeroVal()
    ensures Val(ZERO) == 0
  {}

  // Generator powers on digits: 3, 5, 17, 26, 95, 225, 92, 12, 189, 188.
  const P1 := Digits(true, true, false, false, false, false, false, false)
  const P2 := Digits(true, false, true, false, false, false, false, false)
  const P4 := Digits(true, false, false, false, true, false, false, false)
  const P8 := Digits(false, true, false, true, true, false, false, false)
  const P16 := Digits(true, true, true, true, true, false, true, false)
  const P17 := Digits(true, false, false, false, false, true, true, true)
  const P34 := Digits(false, false, true, true, true, false, true, false)
  const P51 := Digits(false, false, true, true, false, false, false, false)
  const P85 := Digits(true, false, true, true, true, true, false, true)
  const P170 := Digits(false, false, true, true, true, true, false, true)
  const ONE := Digits(true, false, false, false, false, false, false, false)

  lemma Products1()
    ensures MulB(P1, P1) == P2 && MulB(P2, P2) == P4 && MulB(P4, P4) == P8
  {}
  lemma Products2()
    ensures MulB(P8, P8) == P16 && MulB(P16, P1) == P17 && MulB(P17, P17) == P34
  {}
  lemma Products3()
    ensures MulB(P34, P17) == P51 && MulB(P51, P34) == P85
  {}
  lemma Products4()
    ensures MulB(P85, P85) == P170 && MulB(P170, P85) == ONE
  {}
  lemma Vals()
    ensures Val(ONE) == 1 && Val(P1) == 3 && Val(P16) == 95 && Val(P51) == 12 && Val(P85) == 189
  {}

  lemma ExpProduct(i: nat, a: Digits, j: nat, b: Digits)
    requires Exp(i) == Val(a) && Exp(j) == Val(b)
    ensures Exp(i + j) == Val(MulB(a, b))
  {
    hide *;
    ExpAdd(i, j);
    MulBits(a, b);
  }

  lemma ExpStep(i: nat)
    ensures Exp(0) == 1 && Exp(i + 1) == SlowMul(Exp(i), GENERATOR)
  {
    hide SlowMul;
  }

  /** The generator has order 255: it is 1 at 255 and not at the maximal proper divisors. */
  lemma ExpValues()
    ensures Exp(1) == GENERATOR && Exp(0) == 1 && Exp(255) == 1 && Exp(15) != 1 && Exp(51) != 1 && Exp(85) != 1
  {
    hide Val, MulB, SlowMul;
    Vals(); Products1(); Products2(); Products3(); Products4();
    MulOne(GENERATOR);
    ExpProduct(1, P1, 1, P1);
    ExpProduct(2, P2, 2, P2);
    ExpProduct(4, P4, 4, P4);
    ExpProduct(8, P8, 8, P8);
    ExpProduct(16, P16, 1, P1);
    ExpProduct(17, P17, 17, P17);
    ExpProduct(34, P34, 17, P17);
    ExpProduct(51, P51, 34, P34);
    ExpProduct(85, P85, 85, P85);
    ExpProduct(170, P170, 85, P85);
    assert Exp(16) == SlowMul(Exp(15), GENERATOR);
  }

  // ---------------------------------------------------------------- the generator is primitive

  lemma {:induction false} PowerOfOne(d: nat, k: nat)
    requires Exp(d) == 1
    ensures d * k >= 0 && Exp(d * k) == 1
    decreases k
  {
    hide Exp, SlowMul;
    if k == 0 {
      ExpValues();
    } else {
      PowerOfOne(d, k - 1);
      var m: nat := d * (k - 1);
      ExpAdd(m, d);
      assert m + d == d * k;
      MulOne(1);
    }
  }

  /** Exponents at which the generator is 1 are closed under positive differences. */
  lemma ExpDifference(m: nat, n: nat)
    requires m < n && Exp(m) == 1 && Exp(n) == 1
    ensures Exp(n - m) == 1
  {
    hide Exp;
    ExpAdd(n - m, m);
    MulOne(Exp(n - m));
  }

  /** Euclid's algorithm on exponents. */
  lemma {:induction false} CommonDivisor(m: nat, n: nat) returns (e: nat, i: nat, j: nat)
    requires m > 0 && n > 0 && Exp(m) == 1 && Exp(n) == 1
    ensures e > 0 && Exp(e) == 1 && m == e * i && n == e * j
    decreases m + n
  {
    hide Exp;
    if m == n {
      e, i, j := m, 1, 1;
    } else if m < n {
      ExpDifference(m, n);
      e, i, j := CommonDivisor(m, n - m);
      assert n == e * (i + j);
      j := i + j;
    } else {
      ExpDifference(n, m);
      e, i, j := CommonDivisor(m - n, n);
      assert m == e * (i + j);
      i := i + j;
    }
  }

  lemma Multiplier(e: nat, k: nat) returns (c: nat)
    requires e * k == 255 && k != 1
    ensures e * c == 15 || e * c == 51 || e * c == 85
  {
    if e <= 15 {
      assert e in {0, 1, 2, 3, 4, 5, 6, 7, 8, 9, 10, 11, 12, 13, 14, 15};
      c := if e == 1 then 15 else if e == 3 then 5 else if e == 5 then 3 else 1;
    } else {
      SmallCofactor(e, k);
      assert k in {0, 1, 2, 3, 4, 5, 6, 7, 8, 9, 10, 11, 12, 13, 14, 15};
      c := if k == 15 then 3 else 1;
    }
  }

  lemma SmallCofactor(e: nat, k: nat)
    requires e * k == 255 && e > 15
    ensures k <= 15
  {}

  lemma ExpNotOne(d: nat)
    requires 0 < d < 255
    ensures Exp(d) != 1
  {
    hide Exp;
    ExpValues();
    if Exp(d) == 1 {
      var e, i, j := CommonDivisor(d, 255);
      if j == 1 {
        assert false;
      }
      var c := Multiplier(e, j);
      PowerOfOne(e, c);
      assert false;
    }
  }

  lemma ExpInjective(i: nat, j: nat)
    requires i < j < 255
    ensures Exp(i) != Exp(j)
  {
    hide Exp;
    if Exp(i) == Exp(j) {
      ExpValues();
      ExpAdd(i, 255 - i);
      ExpAdd(j, 255 - i);
      ExpAdd(j - i, 255);
      MulOne(Exp(j - i));
      ExpNotOne(j - i);
    }
  }

  /** The numbers 1, ..., n. */
  function UpTo(n: nat): (s: set<int>)
    ensures |s| == n && forall x :: x in s <==> 1 <= x <= n
  {
    if n == 0 then {} else UpTo(n - 1) + {n}
  }

  /** The first n powers of the generator. */
  function Powers(n: nat): set<int> {
    if n == 0 then {} else Powers(n - 1) + {Exp(n - 1)}
  }

  lemma {:induction false} PowersWitness(n: nat, x: int) returns (i: nat)
    requires x in Powers(n)
    ensures i < n && Exp(i) == x
  {
    hide Exp;
    if x == Exp(n - 1) {
      i := n - 1;
    } else {
      i := PowersWitness(n - 1, x);
    }
  }

  lemma {:induction false} PowersSize(n: nat)
    requires n <= 255
    ensures |Powers(n)| == n
  {
    hide Exp;
    if n > 0 {
      PowersSize(n - 1);
      var x: int := Exp(n - 1);
      if x in Powers(n - 1) {
        var i := PowersWitness(n - 1, x);
        ExpInjective(i, n - 1);
        assert false;
      }
    }
  }

  lemma {:induction false} ExpNonZero(i: nat)
    ensures Exp(i) != 0
  {
    hide Exp;
    if Exp(i) == 0 {
      PowerWraps(i, i);
      ExpValues();
      ExpAdd(i, 255 * i - i);
      assert i + (255 * i - i) == 255 * i;
      ZeroMul(Exp(255 * i - i));
      assert false;
    }
  }

  /** Powers repeat with period 255. */
  lemma PowerWraps(i: nat, k: nat)
    ensures Exp(255 * k) == 1 && Exp(i + 255 * k) == Exp(i)
  {
    hide Exp;
    ExpValues();
    PowerOfOne(255, k);
    ExpAdd(i, 255 * k);
    MulOne(Exp(i));
  }

  lemma SubsetOfSameSize<T>(a: set<T>, b: set<T>)
    requires a <= b && |a| == |b|
    ensures a == b
  {
    assert b == a + (b - a);
    assert |b| == |a| + |b - a|;
    assert b - a == {};
  }

  /** Every non-zero byte is a power of the generator. */
  lemma Logarithm(x: byte) returns (i: nat)
    requires x != 0
    ensures i < 255 && Exp(i) == x
  {
    hide Exp;
    PowersSize(255);
    forall y | y in Powers(255)
      ensures y in UpTo(255)
    {
      var j := PowersWitness(255, y);
      ExpNonZero(j);
    }
    SubsetOfSameSize(Powers(255), UpTo(255));
    i := PowersWitness(255, x);
  }

  // ---------------------------------------------------------------- the field

  lemma InverseExists(a: byte)
    requires a != 0
    ensures exists b: byte :: SlowMul(a, b) == 1
  {
    hide SlowMul, Exp;
    var i := Logarithm(a);
    ExpAdd(i, 255 - i);
    ExpValues();
    assert SlowMul(a, Exp(255 - i)) == 1;
  }

  /** The multiplicative inverse, and 0 at 0. */
  ghost function Inverse(a: byte): (b: byte)
    ensures a != 0 ==> SlowMul(a, b) == 1
  {
    if a == 0 then 0 else
    InverseExists(a);
    var b: byte :| SlowMul(a, b) == 1;
    b
  }

  ghost function Quotient(a: byte, b: byte): byte {
    SlowMul(a, Inverse(b))
  }

  lemma MulCancel(a: byte, b: byte, c: byte)
    requires c != 0 && SlowMul(a, c) == SlowMul(b, c)
    ensures a == b
  {
    hide SlowMul;
    var d := Inverse(c);
    MulAssoc(a, c, d);
    MulAssoc(b, c, d);
    MulOne(a);
    MulOne(b);
  }

  lemma NoZeroDivisors(a: byte, b: byte)
    ensures SlowMul(a, b) == 0 <==> a == 0 || b == 0
  {
    hide SlowMul;
    MulZero(a);
    ZeroMul(b);
    if a != 0 && b != 0 && SlowMul(a, b) == 0 {
      ZeroMul(b);
      MulCancel(a, 0, b);
      assert false;
    }
  }

  /** The quotient is the unique solution of c * b = a. */
  lemma QuotientUnique(a: byte, b: byte, c: byte)
    requires b != 0
    ensures Quotient(a, b) == c <==> SlowMul(c, b) == a
  {
    hide SlowMul;
    var d := Inverse(b);
    MulAssoc(a, d, b);
    MulComm(d, b);
    MulOne(a);
    if SlowMul(c, b) == a {
      MulCancel(c, Quotient(a, b), b);
    }
  }

  // ---------------------------------------------------------------- table arithmetic

  datatype FieldError = ZeroInverse | DivisionByZero | EmptyPolynomial | NoPoints | LengthMismatch

  /** The module-level exp and log tables. */
  class Tables {
    const exp: array<byte>
    const log: array<nat>

    ghost predicate Valid()
      reads exp, log
    {
      && exp.Length == 512 && log.Length == 256 && exp != log as object
      && (forall i :: 0 <= i < 512 ==> exp[i] == Exp(i))
      && (forall x :: 0 < x < 256 ==> log[x] < 255 && Exp(log[x]) == x)
    }

    constructor ()
      ensures Valid() && fresh(exp) && fresh(log)
    {
      exp := new byte[512];
      log := new nat[256];
      new;
      InitTables(exp, log);
    }

    /** `initTables` */
    static method InitTables(exp: array<byte>, log: array<nat>)
      requires exp.Length == 512 && log.Length == 256 && exp != log as object
      modifies exp, log
      ensures forall i :: 0 <= i < 512 ==> exp[i] == Exp(i)
      ensures forall x :: 0 < x < 256 ==> log[x] < 255 && Exp(log[x]) == x
    {
      hide SlowMul, Add, Xor, Exp;
      ExpStep(0);
      var x: byte := 1;
      var i := 0;
      while i < 255
        invariant 0 <= i <= 255 && x == Exp(i)
        invariant forall j :: 0 <= j < i ==> exp[j] == Exp(j)
        invariant forall j :: 0 <= j < i ==> log[Exp(j)] == j
      {
        forall j | 0 <= j < i ensures Exp(j) != Exp(i) { ExpInjective(j, i); }
        exp[i] := x;
        log[x] := i;
        ExpStep(i);
        x := MultSlow(x, GENERATOR);
        i := i + 1;
      }
      Extend(exp, log);
      forall y | 0 < y < 256
        ensures log[y] < 255 && Exp(log[y]) == y
      {
        var j := Logarithm(y);
      }
    }

    /** The second half of `initTables`: entry 255 and the wrapped upper half. */
    static method Extend(exp: array<byte>, log: array<nat>)
      requires exp.Length == 512 && exp != log as object
      requires forall j :: 0 <= j < 255 ==> exp[j] == Exp(j)
      modifies exp
      ensures forall j :: 0 <= j < 512 ==> exp[j] == Exp(j)
    {
      hide SlowMul, Add, Xor, Exp;
      ExpValues();
      exp[255] := 1;
      var i := 256;
      while i < 512
        invariant 256 <= i <= 512
        invariant forall j :: 0 <= j < i ==> exp[j] == Exp(j)
      {
        exp[i] := exp[i - 255];
        PowerWraps(i - 255, 1);
        i := i + 1;
      }
    }

    /** `gf256Mul`: the table product is the shift-and-reduce product. */
    function Mul(a: byte, b: byte): (r: byte)
      requires Valid()
      reads exp, log
      ensures r == SlowMul(a, b)
    {
      hide SlowMul, Exp;
      if a == 0 || b == 0 then NoZeroDivisors(a, b); 0
      else ExpAdd(log[a], log[b]); exp[log[a] + log[b]]
    }

    /** `gf256Inv`: fails exactly at zero, otherwise the inverse. */
    function Inv(a: byte): (r: Result<byte, FieldError>)
      requires Valid()
      reads exp, log
      ensures r.Success? <==> a != 0
      ensures r.Success? ==> SlowMul(a, r.value) == 1
      ensures r.Failure? ==> r.error == ZeroInverse
    {
      hide SlowMul, Exp;
      if a == 0 then Failure(ZeroInverse)
      else ExpAdd(log[a], 255 - log[a]); ExpValues(); Success(exp[255 - log[a]])
    }

    /** `gf256Div`: fails exactly on a zero divisor, otherwise undoes multiplication. */
    function Div(a: byte, b: byte): (r: Result<byte, FieldError>)
      requires Valid()
      reads exp, log
      ensures r.Success? <==> b != 0
      ensures r.Success? ==> SlowMul(r.value, b) == a && r.value == Quotient(a, b)
      ensures r.Failure? ==> r.error == DivisionByZero
    {
      hide SlowMul, Exp;
      if b == 0 then Failure(DivisionByZero)
      else if a == 0 then ZeroMul(b); QuotientUnique(0, b, 0); Success(0)
      else
        var d := log[a] + 255 - log[b];
        ExpAdd(d, log[b]);
        PowerWraps(log[a], 1);
        QuotientUnique(a, b, exp[d]);
        Success(exp[d])
    }
  }

  // ================================================================ polynomials

  // ---------------------------------------------------------------- evaluation

  /** Coefficients lowest degree first. */
  function Eval(c: seq<byte>, x: byte): byte {
    if c == [] then 0 else Add(c[0], SlowMul(x, Eval(c[1..], x)))
  }

  function Power(x: byte, n: nat): byte {
    if n == 0 then 1 else SlowMul(x, Power(x, n - 1))
  }

  /** The sum of c[i] * x^i over i < n. */
  function PowerSum(c: seq<byte>, x: byte, n: nat): byte
    requires n <= |c|
  {
    if n == 0 then 0 else Add(PowerSum(c, x, n - 1), SlowMul(c[n - 1], Power(x, n - 1)))
  }

  lemma {:induction false} HornerSplit(c: seq<byte>, x: byte, n: nat)
    requires n <= |c|
    ensures Eval(c, x) == Add(PowerSum(c, x, n), SlowMul(Power(x, n), Eval(c[n..], x)))
  {
    hide SlowMul, Add;
    if n == 0 {
      MulOne(Eval(c, x));
      AddZero(Eval(c, x));
      assert c[0..] == c;
    } else {
      HornerSplit(c, x, n - 1);
      var p, rest := Power(x, n - 1), Eval(c[n..], x);
      assert c[n - 1..][1..] == c[n..];
      MulAddRight(p, c[n - 1], SlowMul(x, rest));
      MulAssoc(p, x, rest);
      MulComm(p, x);
      MulComm(p, c[n - 1]);
      AddAssoc(PowerSum(c, x, n - 1), SlowMul(c[n - 1], p), SlowMul(Power(x, n), rest));
    }
  }

  /** Horner's rule computes the power sum. */
  lemma HornerIsPowerSum(c: seq<byte>, x: byte)
    ensures Eval(c, x) == PowerSum(c, x, |c|)
  {
    hide SlowMul, Add;
    HornerSplit(c, x, |c|);
    MulZero(Power(x, |c|));
    AddZero(PowerSum(c, x, |c|));
  }

  lemma EvalAtZero(c: seq<byte>)
    requires c != []
    ensures Eval(c, 0) == c[0]
  {
    hide SlowMul, Add;
    ZeroMul(Eval(c[1..], 0));
    AddZero(c[0]);
  }

  lemma EvalCons(a: byte, c: seq<byte>, x: byte)
    ensures Eval([a] + c, x) == Add(a, SlowMul(x, Eval(c, x)))
  {
    hide SlowMul, Add;
    assert ([a] + c)[1..] == c;
  }

  lemma MulSwap(a: byte, b: byte, c: byte)
    ensures SlowMul(a, SlowMul(b, c)) == SlowMul(b, SlowMul(a, c))
  {
    hide *;
    MulAssoc(a, b, c);
    MulComm(a, b);
    MulAssoc(b, a, c);
  }

  // ---------------------------------------------------------------- division by x - a

  /** The quotient of c by (x - a). */
  function Synthetic(c: seq<byte>, a: byte): (q: seq<byte>)
    ensures |q| == if c == [] then 0 else |c| - 1
  {
    if |c| <= 1 then [] else [Eval(c[1..], a)] + Synthetic(c[1..], a)
  }

  lemma FactorRegroup(c0: byte, x: byte, a: byte, ta: byte, u: byte)
    ensures Add(c0, SlowMul(x, Add(ta, SlowMul(Add(x, a), u))))
         == Add(Add(c0, SlowMul(a, ta)), SlowMul(Add(x, a), Add(ta, SlowMul(x, u))))
  {
    hide *;
    var s := Add(x, a);
    MulAddRight(x, ta, SlowMul(s, u));
    MulSwap(x, s, u);
    MulAddRight(s, ta, SlowMul(x, u));
    MulAddLeft(x, a, ta);
    var xt, at, w := SlowMul(x, ta), SlowMul(a, ta), SlowMul(s, SlowMul(x, u));
    AddComm(xt, at);
    AddAssoc(at, xt, w);
    AddAssoc(c0, at, Add(Add(at, xt), w));
    AddAssoc(at, at, Add(xt, w));
    AddSelf(at);
    AddZero(Add(xt, w));
  }

  /** p(x) = p(a) + (x - a) q(x). */
  lemma {:induction false} Factor(c: seq<byte>, a: byte, x: byte)
    ensures Eval(c, x) == Add(Eval(c, a), SlowMul(Add(x, a), Eval(Synthetic(c, a), x)))
  {
    hide SlowMul, Add;
    if |c| <= 1 {
      MulZero(Add(x, a));
      AddZero(Eval(c, a));
      if |c| == 1 {
        MulZero(x); MulZero(a);
      }
    } else {
      var t := c[1..];
      Factor(t, a, x);
      EvalCons(Eval(t, a), Synthetic(t, a), x);
      FactorRegroup(c[0], x, a, Eval(t, a), Eval(Synthetic(t, a), x));
    }
  }

  // ---------------------------------------------------------------- roots and uniqueness

  ghost predicate AllZero(c: seq<byte>) {
    forall i :: 0 <= i < |c| ==> c[i] == 0
  }

  lemma {:induction false} ZeroQuotient(c: seq<byte>, a: byte)
    requires Eval(c, a) == 0 && AllZero(Synthetic(c, a))
    ensures AllZero(c)
  {
    hide SlowMul, Add;
    if c != [] {
      var t := c[1..];
      MulZero(a);
      AddZero(c[0]);
      if |c| > 1 {
        var q := Synthetic(c, a);
        assert q[0] == Eval(t, a) == 0;
        assert Synthetic(t, a) == q[1..];
        ZeroQuotient(t, a);
        assert forall i :: 1 <= i < |c| ==> c[i] == t[i - 1];
      }
    }
  }

  /** A polynomial with as many distinct roots as coefficients is zero. */
  lemma {:induction false} TooManyRoots(c: seq<byte>, xs: seq<byte>)
    requires |c| == |xs| && Distinct(xs)
    requires forall i :: 0 <= i < |xs| ==> Eval(c, xs[i]) == 0
    ensures AllZero(c)
    decreases |c|
  {
    hide SlowMul, Add, Eval;
    if c != [] {
      var q, rest := Synthetic(c, xs[0]), xs[1..];
      forall i | 0 <= i < |rest|
        ensures Eval(q, rest[i]) == 0
      {
        assert rest[i] == xs[i + 1];
        Factor(c, xs[0], rest[i]);
        AddZero(SlowMul(Add(rest[i], xs[0]), Eval(q, rest[i])));
        AddCancel(rest[i], xs[0]);
        NoZeroDivisors(Add(rest[i], xs[0]), Eval(q, rest[i]));
      }
      TooManyRoots(q, rest);
      ZeroQuotient(c, xs[0]);
    }
  }

  function AddPoly(a: seq<byte>, b: seq<byte>): (r: seq<byte>)
    requires |a| == |b|
    ensures |r| == |a| && forall i :: 0 <= i < |a| ==> r[i] == Add(a[i], b[i])
  {
    if a == [] then [] else [Add(a[0], b[0])] + AddPoly(a[1..], b[1..])
  }

  function Scale(k: byte, a: seq<byte>): (r: seq<byte>)
    ensures |r| == |a|
  {
    if a == [] then [] else [SlowMul(k, a[0])] + Scale(k, a[1..])
  }

  lemma {:induction false} EvalAddPoly(a: seq<byte>, b: seq<byte>, x: byte)
    requires |a| == |b|
    ensures Eval(AddPoly(a, b), x) == Add(Eval(a, x), Eval(b, x))
  {
    hide SlowMul, Add;
    if a == [] {
      AddZero(0);
    } else {
      EvalAddPoly(a[1..], b[1..], x);
      EvalCons(Add(a[0], b[0]), AddPoly(a[1..], b[1..]), x);
      MulAddRight(x, Eval(a[1..], x), Eval(b[1..], x));
      AddSwap(a[0], b[0], SlowMul(x, Eval(a[1..], x)), SlowMul(x, Eval(b[1..], x)));
    }
  }

  lemma {:induction false} EvalScale(k: byte, a: seq<byte>, x: byte)
    ensures Eval(Scale(k, a), x) == SlowMul(k, Eval(a, x))
  {
    hide SlowMul, Add;
    if a == [] {
      MulZero(k);
    } else {
      EvalScale(k, a[1..], x);
      EvalCons(SlowMul(k, a[0]), Scale(k, a[1..]), x);
      MulAddRight(k, a[0], SlowMul(x, Eval(a[1..], x)));
      MulSwap(k, x, Eval(a[1..], x));
    }
  }

  lemma {:induction false} EvalPadded(a: seq<byte>, x: byte)
    ensures Eval(a + [0], x) == Eval(a, x)
  {
    hide SlowMul, Add;
    if a == [] {
      MulZero(x);
      AddZero(0);
    } else {
      EvalPadded(a[1..], x);
      assert (a + [0])[1..] == a[1..] + [0];
    }
  }

  /** Two polynomials of n coefficients that agree at n distinct points are equal. */
  lemma Unique(a: seq<byte>, b: seq<byte>, xs: seq<byte>)
    requires |a| == |b| == |xs| && Distinct(xs)
    requires forall i :: 0 <= i < |xs| ==> Eval(a, xs[i]) == Eval(b, xs[i])
    ensures a == b
  {
    hide SlowMul, Add, Eval;
    var d := AddPoly(a, b);
    forall i | 0 <= i < |xs|
      ensures Eval(d, xs[i]) == 0
    {
      EvalAddPoly(a, b, xs[i]);
      AddSelf(Eval(a, xs[i]));
    }
    TooManyRoots(d, xs);
    forall i | 0 <= i < |a|
      ensures a[i] == b[i]
    {
      AddCancel(a[i], b[i]);
    }
  }

  lemma {:induction false} EvalZeros(c: seq<byte>, n: nat, x: byte)
    ensures Eval(c + seq(n, _ => 0), x) == Eval(c, x)
  {
    hide Eval;
    if n == 0 {
      assert c + seq(0, _ => 0) == c;
    } else {
      EvalZeros(c, n - 1, x);
      EvalPadded(c + seq(n - 1, _ => 0), x);
      assert c + seq(n, _ => 0) == (c + seq(n - 1, _ => 0)) + [0];
    }
  }

  // ---------------------------------------------------------------- Lagrange at zero

  function Without(xs: seq<byte>, i: nat): (others: seq<byte>)
    requires i < |xs|
    ensures |others| == |xs| - 1
  {
    xs[..i] + xs[i + 1..]
  }

  /** o / (x - o), the factor a point o contributes to the weight of x. */
  ghost function Ratio(o: byte, x: byte): byte {
    Quotient(o, Add(x, o))
  }

  ghost function Weight(x: byte, others: seq<byte>): byte {
    if others == [] then 1 else SlowMul(Ratio(others[0], x), Weight(x, others[1..]))
  }

  ghost function Term(xs: seq<byte>, ys: seq<byte>, i: nat): byte
    requires i < |xs| == |ys|
  {
    SlowMul(ys[i], Weight(xs[i], Without(xs, i)))
  }

  /** The sum of the terms from i on. */
  ghost function Terms(xs: seq<byte>, ys: seq<byte>, i: nat): byte
    requires i <= |xs| == |ys|
    decreases |xs| - i
  {
    if i == |xs| then 0 else Add(Term(xs, ys, i), Terms(xs, ys, i + 1))
  }

  ghost function Lagrange(xs: seq<byte>, ys: seq<byte>): byte
    requires |xs| == |ys|
  {
    Terms(xs, ys, 0)
  }

  lemma WeightCons(x: byte, o: byte, others: seq<byte>)
    ensures Weight(x, [o] + others) == SlowMul(Ratio(o, x), Weight(x, others))
  {
    hide SlowMul, Ratio;
    assert ([o] + others)[1..] == others;
  }

  // ---------------------------------------------------------------- the interpolating polynomial

  /** The product of q and x - o. */
  function TimesRoot(q: seq<byte>, o: byte): (c: seq<byte>)
    ensures |c| == |q| + 1
  {
    AddPoly([0] + q, Scale(o, q) + [0])
  }

  lemma EvalTimesRoot(q: seq<byte>, o: byte, x: byte)
    ensures Eval(TimesRoot(q, o), x) == SlowMul(Add(x, o), Eval(q, x))
  {
    hide SlowMul, Add, Eval, AddPoly, Scale;
    EvalAddPoly([0] + q, Scale(o, q) + [0], x);
    EvalCons(0, q, x);
    EvalPadded(Scale(o, q), x);
    EvalScale(o, q, x);
    AddZero(SlowMul(x, Eval(q, x)));
    MulAddLeft(x, o, Eval(q, x));
  }

  /** The product of x - o over the given points. */
  function RootPoly(others: seq<byte>): (c: seq<byte>)
    ensures |c| == |others| + 1
  {
    if others == [] then [1] else TimesRoot(RootPoly(others[1..]), others[0])
  }

  lemma EvalRoots(others: seq<byte>, x: byte)
    ensures others == [] ==> Eval(RootPoly(others), x) == 1
    ensures others != [] ==> Eval(RootPoly(others), x) == SlowMul(Add(x, others[0]), Eval(RootPoly(others[1..]), x))
  {
    hide SlowMul, Add, Eval, TimesRoot;
    if others == [] {
      EvalCons(1, [], x);
      EvalNothing(x);
    } else {
      EvalTimesRoot(RootPoly(others[1..]), others[0], x);
    }
  }

  lemma EvalNothing(x: byte)
    ensures Eval([], x) == 0 && SlowMul(x, 0) == 0 && Add(1, 0) == 1 && [1] + [] == [1]
  {
    MulZero(x);
    AddZero(1);
  }

  lemma {:induction false} RootsVanish(others: seq<byte>, x: byte)
    ensures Eval(RootPoly(others), x) == 0 <==> x in others
  {
    hide SlowMul, Add, Eval, RootPoly;
    EvalRoots(others, x);
    if others != [] {
      RootsVanish(others[1..], x);
      AddCancel(x, others[0]);
      NoZeroDivisors(Add(x, others[0]), Eval(RootPoly(others[1..]), x));
    }
  }

  /** The weight of x is the quotient of the product's values at zero and at x. */
  lemma {:induction false} WeightIsRatio(x: byte, others: seq<byte>)
    requires x !in others
    ensures SlowMul(Weight(x, others), Eval(RootPoly(others), x)) == Eval(RootPoly(others), 0)
  {
    hide SlowMul, Add, Eval, RootPoly, Ratio;
    EvalRoots(others, x);
    EvalRoots(others, 0);
    if others == [] {
      MulOne(1);
    } else {
      var o, rest := others[0], others[1..];
      WeightIsRatio(x, rest);
      RatioProduct(o, x);
      AddZero(o);
      ProductOfProducts(Ratio(o, x), Weight(x, rest), Add(x, o), Eval(RootPoly(rest), x));
    }
  }

  lemma RatioProduct(o: byte, x: byte)
    requires o != x
    ensures SlowMul(Ratio(o, x), Add(x, o)) == o
  {
    hide SlowMul, Add, Quotient;
    AddCancel(x, o);
    QuotientUnique(o, Add(x, o), Ratio(o, x));
  }

  lemma ProductOfProducts(a: byte, b: byte, c: byte, d: byte)
    ensures SlowMul(SlowMul(a, b), SlowMul(c, d)) == SlowMul(SlowMul(a, c), SlowMul(b, d))
  {
    hide *;
    MulAssoc(a, b, SlowMul(c, d));
    MulSwap(b, c, d);
    MulAssoc(a, c, SlowMul(b, d));
  }

  /** The polynomial that is y at point i and zero at the others. */
  ghost function Part(xs: seq<byte>, ys: seq<byte>, i: nat): (c: seq<byte>)
    requires i < |xs| == |ys|
    ensures |c| == |xs|
  {
    var roots := RootPoly(Without(xs, i));
    Scale(Quotient(ys[i], Eval(roots, xs[i])), roots)
  }

  lemma PartAt(xs: seq<byte>, ys: seq<byte>, i: nat, k: nat)
    requires i < |xs| == |ys| && k < |xs| && Distinct(xs)
    ensures Eval(Part(xs, ys, i), xs[k]) == if k == i then ys[i] else 0
  {
    hide SlowMul, Eval, RootPoly, Quotient, Scale;
    var others := Without(xs, i);
    var roots, x := RootPoly(others), xs[i];
    var scale := Quotient(ys[i], Eval(roots, x));
    EvalScale(scale, roots, xs[k]);
    RootsVanish(others, xs[k]);
    if k == i {
      assert x !in others;
      QuotientUnique(ys[i], Eval(roots, x), scale);
    } else {
      assert others[if k < i then k else k - 1] == xs[k];
      MulZero(scale);
    }
  }

  lemma PartAtZero(xs: seq<byte>, ys: seq<byte>, i: nat)
    requires i < |xs| == |ys| && Distinct(xs)
    ensures Eval(Part(xs, ys, i), 0) == Term(xs, ys, i)
  {
    hide SlowMul, Eval, RootPoly, Quotient, Scale, Weight;
    var others, x := Without(xs, i), xs[i];
    var roots := RootPoly(others);
    var scale, at := Quotient(ys[i], Eval(roots, x)), Eval(roots, x);
    EvalScale(scale, roots, 0);
    assert x !in others;
    RootsVanish(others, x);
    WeightIsRatio(x, others);
    QuotientUnique(ys[i], at, scale);
    MulComm(Weight(x, others), at);
    MulAssoc(scale, at, Weight(x, others));
  }

  /** The sum of the parts from i on. */
  ghost function Parts(xs: seq<byte>, ys: seq<byte>, i: nat): (c: seq<byte>)
    requires i <= |xs| == |ys|
    ensures |c| == |xs|
    decreases |xs| - i
  {
    if i == |xs| then Scale(0, xs) else AddPoly(Part(xs, ys, i), Parts(xs, ys, i + 1))
  }

  ghost function Interpolate(xs: seq<byte>, ys: seq<byte>): (c: seq<byte>)
    requires |xs| == |ys|
    ensures |c| == |xs|
  {
    Parts(xs, ys, 0)
  }

  lemma {:induction false} PartsAt(xs: seq<byte>, ys: seq<byte>, i: nat, k: nat)
    requires i <= |xs| == |ys| && k < |xs| && Distinct(xs)
    ensures Eval(Parts(xs, ys, i), xs[k]) == if k >= i then ys[k] else 0
    decreases |xs| - i
  {
    hide SlowMul, Add, Eval, Part, Scale, AddPoly;
    if i == |xs| {
      EvalScale(0, xs, xs[k]);
      ZeroMul(Eval(xs, xs[k]));
    } else {
      EvalAddPoly(Part(xs, ys, i), Parts(xs, ys, i + 1), xs[k]);
      PartsAt(xs, ys, i + 1, k);
      PartAt(xs, ys, i, k);
      AddZero(ys[k]);
      AddZero(0);
    }
  }

  lemma {:induction false} PartsAtZero(xs: seq<byte>, ys: seq<byte>, i: nat)
    requires i <= |xs| == |ys| && Distinct(xs)
    ensures Eval(Parts(xs, ys, i), 0) == Terms(xs, ys, i)
    decreases |xs| - i
  {
    hide SlowMul, Add, Eval, Part, Scale, AddPoly, Term;
    if i == |xs| {
      EvalScale(0, xs, 0);
      ZeroMul(Eval(xs, 0));
    } else {
      EvalAddPoly(Part(xs, ys, i), Parts(xs, ys, i + 1), 0);
      PartsAtZero(xs, ys, i + 1);
      PartAtZero(xs, ys, i);
    }
  }

  /** Through k points with distinct x there is a polynomial of k coefficients, and its value
      at zero is the Lagrange sum. */
  lemma InterpolateCorrect(xs: seq<byte>, ys: seq<byte>)
    requires |xs| == |ys| && Distinct(xs)
    ensures forall k :: 0 <= k < |xs| ==> Eval(Interpolate(xs, ys), xs[k]) == ys[k]
    ensures Eval(Interpolate(xs, ys), 0) == Lagrange(xs, ys)
  {
    hide Eval, Parts, Terms;
    forall k | 0 <= k < |xs|
      ensures Eval(Interpolate(xs, ys), xs[k]) == ys[k]
    {
      PartsAt(xs, ys, 0, k);
    }
    PartsAtZero(xs, ys, 0);
  }

  function Values(c: seq<byte>, xs: seq<byte>): (ys: seq<byte>)
    ensures |ys| == |xs|
    ensures forall i :: 0 <= i < |xs| ==> ys[i] == Eval(c, xs[i])
  {
    if xs == [] then [] else [Eval(c, xs[0])] + Values(c, xs[1..])
  }

  /** Lagrange interpolation at zero of a polynomial with at most as many coefficients
      as there are points is its value at zero. */
  lemma LagrangeRecovers(c: seq<byte>, xs: seq<byte>)
    requires |c| <= |xs| && Distinct(xs)
    ensures Lagrange(xs, Values(c, xs)) == Eval(c, 0)
  {
    hide Eval, Interpolate, Lagrange, Distinct;
    var n, ys := |xs| - |c|, Values(c, xs);
    var padded := c + seq(n, _ => 0);
    InterpolateCorrect(xs, ys);
    forall k | 0 <= k < |xs|
      ensures Eval(padded, xs[k]) == ys[k]
    {
      EvalZeros(c, n, xs[k]);
    }
    Unique(Interpolate(xs, ys), padded, xs);
    EvalZeros(c, n, 0);
  }

  lemma TermUpdate(xs: seq<byte>, ys: seq<byte>, o: nat, y: byte, i: nat)
    requires o < |xs| == |ys| && i < |xs|
    ensures Term(xs, ys[o := y], i) ==
      if i == o then Add(Term(xs, ys, o), SlowMul(Add(ys[o], y), Weight(xs[o], Without(xs, o)))) else Term(xs, ys, i)
  {
    hide SlowMul, Add, Weight, Without;
    if i == o {
      var w := Weight(xs[o], Without(xs, o));
      MulAddLeft(ys[o], Add(ys[o], y), w);
      AddComm(ys[o], y);
      AddCancel(y, ys[o]);
      AddComm(ys[o], Add(y, ys[o]));
    }
  }

  lemma {:induction false} TermsUpdate(xs: seq<byte>, ys: seq<byte>, o: nat, y: byte, i: nat)
    requires o < |xs| == |ys| && i <= |xs|
    ensures var change := SlowMul(Add(ys[o], y), Weight(xs[o], Without(xs, o)));
            Terms(xs, ys[o := y], i) == if i <= o then Add(change, Terms(xs, ys, i)) else Terms(xs, ys, i)
    decreases |xs| - i
  {
    hide SlowMul, Add, Term, Weight, Without;
    if i < |xs| {
      var change := SlowMul(Add(ys[o], y), Weight(xs[o], Without(xs, o)));
      TermsUpdate(xs, ys, o, y, i + 1);
      TermUpdate(xs, ys, o, y, i);
      var t, rest := Term(xs, ys, i), Terms(xs, ys, i + 1);
      AddAssoc(t, change, rest);
      AddAssoc(change, t, rest);
      AddComm(t, change);
    }
  }

  /** Changing one of the values interpolated at distinct non-zero points changes the result. */
  lemma OneValueMatters(xs: seq<byte>, ys: seq<byte>, o: nat, y: byte)
    requires o < |xs| == |ys| && Distinct(xs) && forall i :: 0 <= i < |xs| ==> xs[i] != 0
    ensures Lagrange(xs, ys[o := y]) == Lagrange(xs, ys) <==> y == ys[o]
  {
    hide SlowMul, Add, Terms, Weight, RootPoly, Eval;
    var others, x := Without(xs, o), xs[o];
    assert x !in others && 0 !in others;
    WeightIsRatio(x, others);
    RootsVanish(others, 0);
    ZeroMul(Eval(RootPoly(others), x));
    TermsUpdate(xs, ys, o, y, 0);
    AddCancel(ys[o], y);
    NoZeroDivisors(Add(ys[o], y), Weight(x, others));
    ZeroAdded(SlowMul(Add(ys[o], y), Weight(x, others)), Lagrange(xs, ys));
  }

  lemma ZeroAdded(change: byte, value: byte)
    ensures Add(change, value) == value <==> change == 0
  {
    hide Add;
    AddZero(value);
    AddAssoc(change, value, value);
    AddSelf(value);
    AddZero(change);
  }

  /** The Lagrange weights at zero sum to one. */
  lemma WeightsSumToOne(xs: seq<byte>)
    requires xs != [] && Distinct(xs)
    ensures Lagrange(xs, seq(|xs|, _ => 1)) == 1
  {
    hide SlowMul, Add, Eval, Lagrange, Distinct;
    forall x
      ensures Eval([1], x) == 1
    {
      EvalCons(1, [], x);
      EvalNothing(x);
    }
    LagrangeRecovers([1], xs);
    assert Values([1], xs) == seq(|xs|, _ => 1);
  }

  /** The parts of two interpolations that meet the conditions at a common point. */
  lemma CombinedAt(x0: byte, x1: byte, p: seq<byte>, q: seq<byte>, x: byte)
    requires |p| == |q|
    ensures Eval(AddPoly(TimesRoot(p, x0), TimesRoot(q, x1)), x)
         == Add(SlowMul(Add(x, x0), Eval(p, x)), SlowMul(Add(x, x1), Eval(q, x)))
  {
    hide SlowMul, Add, Eval, TimesRoot, AddPoly;
    EvalAddPoly(TimesRoot(p, x0), TimesRoot(q, x1), x);
    EvalTimesRoot(p, x0, x);
    EvalTimesRoot(q, x1, x);
  }

  /** Neville's recurrence for interpolation at zero, cleared of its denominator. */
  lemma Neville(x0: byte, y0: byte, x1: byte, y1: byte, r: seq<byte>, s: seq<byte>)
    requires |r| == |s| && Distinct([x0, x1] + r)
    ensures SlowMul(Add(x0, x1), Lagrange([x0, x1] + r, [y0, y1] + s))
         == Add(SlowMul(x0, Lagrange([x1] + r, [y1] + s)), SlowMul(x1, Lagrange([x0] + r, [y0] + s)))
  {
    hide SlowMul, Add, Eval, Lagrange, Interpolate, AddPoly, TimesRoot, Scale;
    var xs, ys, d := [x0, x1] + r, [y0, y1] + s, Add(x0, x1);
    var xs0, ys0, xs1, ys1 := [x0] + r, [y0] + s, [x1] + r, [y1] + s;
    DistinctTails(x0, x1, r);
    InterpolateCorrect(xs, ys);
    InterpolateCorrect(xs0, ys0);
    InterpolateCorrect(xs1, ys1);
    var whole, p1, p0 := Interpolate(xs, ys), Interpolate(xs1, ys1), Interpolate(xs0, ys0);
    var combined := AddPoly(TimesRoot(p1, x0), TimesRoot(p0, x1));
    forall k | 0 <= k < |xs|
      ensures Eval(combined, xs[k]) == Eval(Scale(d, whole), xs[k])
    {
      var x := xs[k];
      CombinedAt(x0, x1, p1, p0, x);
      EvalScale(d, whole, x);
      assert k >= 1 ==> xs1[k - 1] == x && ys1[k - 1] == ys[k];
      assert k != 1 ==> xs0[if k == 0 then 0 else k - 1] == x && ys0[if k == 0 then 0 else k - 1] == ys[k];
      assert xs[0] == x0 && xs[1] == x1;
      NevilleAt(x0, x1, x, Eval(p1, x), Eval(p0, x), ys[k]);
    }
    Unique(combined, Scale(d, whole), xs);
    CombinedAt(x0, x1, p1, p0, 0);
    EvalScale(d, whole, 0);
    AddZero(x0);
    AddZero(x1);
  }

  lemma DistinctTails(x0: byte, x1: byte, r: seq<byte>)
    requires Distinct([x0, x1] + r)
    ensures x0 != x1 && Distinct([x0] + r) && Distinct([x1] + r)
  {
    var xs := [x0, x1] + r;
    assert xs[0] == x0 && xs[1] == x1;
    forall x, i, j | (x == x0 || x == x1) && 0 <= i < j < |r| + 1
      ensures ([x] + r)[i] != ([x] + r)[j]
    {
      assert ([x] + r)[j] == xs[j + 1];
      assert ([x] + r)[i] == if i > 0 then xs[i + 1] else if x == x0 then xs[0] else xs[1];
    }
  }

  /** (x - x0) u + (x - x1) v = (x0 - x1) y, when u is y off x0 and v is y off x1. */
  lemma NevilleAt(x0: byte, x1: byte, x: byte, u: byte, v: byte, y: byte)
    requires (x != x0 ==> u == y) && (x != x1 ==> v == y) && x0 != x1
    ensures Add(SlowMul(Add(x, x0), u), SlowMul(Add(x, x1), v)) == SlowMul(Add(x0, x1), y)
  {
    hide *;
    AddSelf(x);
    if x == x0 {
      ZeroMul(u);
      AddZero(SlowMul(Add(x0, x1), v));
    } else if x == x1 {
      ZeroMul(v);
      AddZero(SlowMul(Add(x, x0), u));
      AddComm(x0, x1);
    } else {
      MulAddLeft(Add(x, x0), Add(x, x1), y);
      AddSwap(x, x0, x, x1);
      AddZero(Add(x0, x1));
    }
  }

  // ---------------------------------------------------------------- the loops

  /** `gf256EvalPoly`: Horner's loop from the highest coefficient down. */
  method EvalPoly(tables: Tables, coefficients: seq<byte>, x: byte) returns (r: Result<byte, FieldError>)
    requires tables.Valid()
    ensures coefficients == [] ==> r == Failure(EmptyPolynomial)
    ensures coefficients != [] ==> r == Success(PowerSum(coefficients, x, |coefficients|))
  {
    hide SlowMul, Add;
    if |coefficients| == 0 {
      return Failure(EmptyPolynomial);
    }
    var result: byte, i := 0, |coefficients|;
    while i > 0
      invariant 0 <= i <= |coefficients|
      invariant result == Eval(coefficients[i..], x)
    {
      i := i - 1;
      assert coefficients[i..][1..] == coefficients[i + 1..];
      MulComm(result, x);
      AddComm(SlowMul(x, result), coefficients[i]);
      result := Add(tables.Mul(result, x), coefficients[i]);
    }
    assert coefficients[0..] == coefficients;
    HornerIsPowerSum(coefficients, x);
    r := Success(result);
  }

  lemma QuotientProduct(n: byte, d: byte, o: byte, e: byte)
    requires d != 0 && e != 0
    ensures Quotient(SlowMul(n, o), SlowMul(d, e)) == SlowMul(Quotient(n, d), Quotient(o, e))
  {
    hide *;
    var p, q := Quotient(n, d), Quotient(o, e);
    QuotientUnique(n, d, p);
    QuotientUnique(o, e, q);
    NoZeroDivisors(d, e);
    MulAssoc(p, q, SlowMul(d, e));
    MulSwap(q, d, e);
    MulAssoc(p, d, SlowMul(q, e));
    QuotientUnique(SlowMul(n, o), SlowMul(d, e), SlowMul(p, q));
  }

  /** The points still to be visited when the inner loop stands at j. */
  function Remaining(xs: seq<byte>, i: nat, j: nat): seq<byte>
    requires i < |xs| && j <= |xs|
  {
    if j <= i then xs[j..i] + xs[i + 1..] else xs[j..]
  }

  lemma RemainingStep(xs: seq<byte>, i: nat, j: nat)
    requires i < |xs| && j < |xs|
    ensures i == j ==> Remaining(xs, i, j) == Remaining(xs, i, j + 1)
    ensures i != j ==> Remaining(xs, i, j) == [xs[j]] + Remaining(xs, i, j + 1)
    ensures Remaining(xs, i, 0) == Without(xs, i)
    ensures Remaining(xs, i, |xs|) == []
  {}

  /** A repeated point among the first j, other than i itself. */
  ghost predicate Repeated(xs: seq<byte>, i: nat, j: nat)
    requires i < |xs| && j <= |xs|
  {
    exists k :: 0 <= k < j && k != i && xs[k] == xs[i]
  }

  /** The numerator and denominator loop: fails exactly on a repeated point. */
  method Basis(tables: Tables, xs: seq<byte>, i: nat) returns (r: Result<byte, FieldError>)
    requires tables.Valid() && i < |xs|
    ensures Repeated(xs, i, |xs|) ==> r == Failure(DivisionByZero)
    ensures !Repeated(xs, i, |xs|) ==> r == Success(Weight(xs[i], Without(xs, i)))
  {
    hide SlowMul, Add, Quotient, Without, Remaining;
    var numerator: byte, denominator: byte := 1, 1;
    ghost var whole := Weight(xs[i], Without(xs, i));
    RemainingStep(xs, i, i);
    MulOne(1);
    MulOne(whole);
    QuotientUnique(1, 1, 1);
    var j := 0;
    while j < |xs|
      invariant 0 <= j <= |xs|
      invariant denominator == 0 <==> Repeated(xs, i, j)
      invariant denominator != 0 ==>
        SlowMul(Quotient(numerator, denominator), Weight(xs[i], Remaining(xs, i, j))) == whole
    {
      RemainingStep(xs, i, j);
      if i != j {
        ghost var e := Add(xs[i], xs[j]);
        AddCancel(xs[i], xs[j]);
        NoZeroDivisors(denominator, e);
        if denominator != 0 && e != 0 {
          WeightCons(xs[i], xs[j], Remaining(xs, i, j + 1));
          QuotientProduct(numerator, denominator, xs[j], e);
          MulAssoc(Quotient(numerator, denominator), Ratio(xs[j], xs[i]), Weight(xs[i], Remaining(xs, i, j + 1)));
        }
        numerator := tables.Mul(numerator, xs[j]);
        denominator := tables.Mul(denominator, Add(xs[i], xs[j]));
      }
      j := j + 1;
    }
    RemainingStep(xs, i, i);
    MulOne(Quotient(numerator, denominator));
    r := tables.Div(numerator, denominator);
  }

  /** `gf256LagrangeInterpolateAtZero`: fails exactly on no points, unequal lengths or a
      repeated point, and otherwise returns the interpolated value at zero. */
  method LagrangeInterpolateAtZero(tables: Tables, xs: seq<byte>, ys: seq<byte>) returns (r: Result<byte, FieldError>)
    requires tables.Valid()
    ensures xs == [] ==> r == Failure(NoPoints)
    ensures xs != [] && |xs| != |ys| ==> r == Failure(LengthMismatch)
    ensures xs != [] && |xs| == |ys| && !Distinct(xs) ==> r == Failure(DivisionByZero)
    ensures xs != [] && |xs| == |ys| && Distinct(xs) ==> r == Success(Lagrange(xs, ys))
  {
    hide SlowMul, Add, Weight, Without;
    if |xs| == 0 {
      return Failure(NoPoints);
    }
    if |xs| != |ys| {
      return Failure(LengthMismatch);
    }
    var secret: byte, i := 0, 0;
    AddZero(Lagrange(xs, ys));
    while i < |xs|
      invariant 0 <= i <= |xs|
      invariant forall k :: 0 <= k < i ==> !Repeated(xs, k, |xs|)
      invariant Add(secret, Terms(xs, ys, i)) == Lagrange(xs, ys)
    {
      var basis := Basis(tables, xs, i);
      if basis.Failure? {
        return Failure(basis.error);
      }
      AddAssoc(secret, Term(xs, ys, i), Terms(xs, ys, i + 1));
      secret := Add(secret, tables.Mul(ys[i], basis.value));
      i := i + 1;
    }
    AddZero(secret);
    forall a, b | 0 <= a < b < |xs|
      ensures xs[a] != xs[b]
    {
      assert !Repeated(xs, a, |xs|);
    }
    r := Success(secret);
  }
}
