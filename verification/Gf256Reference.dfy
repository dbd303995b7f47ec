/** The product of Gf256 is the carry-less product of two bytes modulo
    x^8 + x^4 + x^3 + x + 1, the field of section 4.2 of FIPS 197. */
module Gf256Reference {
  import opened Gf256

  function Xor(a: bv16, b: bv16): bv16 {
    a ^ b
  }

  function Double(a: bv16): bv16 {
    a << 1
  }

  /** x^i * a, unreduced. */
  function Shl(a: bv16, i: nat): bv16 {
    if i == 0 then a else Double(Shl(a, i - 1))
  }

  function Widen(a: bv8): bv16 {
    a as bv16
  }

  function HighBit(a: bv8): bv16 {
    (a >> 7) as bv16
  }

  /** The unreduced carry-less product of `a` and the low `n` bits of `b`. */
  function CarryLess(a: bv8, b: bv8, n: nat): bv16
    requires n <= 8
  {
    if n == 0 then 0
    else Xor(CarryLess(a, b, n - 1), if BitSet(b, n - 1) then Shl(Widen(a), n - 1) else 0)
  }

  predicate BitSet(b: bv8, i: nat)
    requires i < 8
  {
    (b >> i) & 1 == 1
  }

  /** The carry-less product of POLY == 0x11B and `q`: one shift of `q` for each term of POLY. */
  function PolyTimes(q: bv16): bv16 {
    Xor(Xor(Shl(q, 8), Shl(q, 4)), Xor(Xor(Shl(q, 3), Shl(q, 1)), q))
  }

  /** `r` is the remainder of `p` on division by POLY, witnessed by a quotient of degree at most 6. */
  ghost predicate IsRemainder(p: bv16, r: bv8) {
    exists q: bv16 :: q < 128 && p == Xor(PolyTimes(q), Widen(r))
  }

  // ----- XOR on 16 bits ---------------------------------------------------------

  lemma XorComm(a: bv16, b: bv16)
    ensures Xor(a, b) == Xor(b, a)
    ensures Xor(a, 0) == a && Xor(0, a) == a
  {}

  lemma XorAssoc(a: bv16, b: bv16, c: bv16)
    ensures Xor(Xor(a, b), c) == Xor(a, Xor(b, c))
  {}

  lemma XorSwap(a: bv16, b: bv16, c: bv16, d: bv16)
    ensures Xor(Xor(a, b), Xor(c, d)) == Xor(Xor(a, c), Xor(b, d))
  {
    hide Xor, Shl, Widen, HighBit;
    XorAssoc(a, b, Xor(c, d));
    XorAssoc(b, c, d);
    XorComm(b, c);
    XorAssoc(c, b, d);
    XorAssoc(a, c, Xor(b, d));
  }

  lemma DoubleLinear(p: bv16, q: bv16)
    ensures Double(Xor(p, q)) == Xor(Double(p), Double(q))
  {}

  lemma {:induction false} ShlLinear(p: bv16, q: bv16, i: nat)
    ensures Shl(Xor(p, q), i) == Xor(Shl(p, i), Shl(q, i))
  {
    hide Xor, Double;
    if i > 0 {
      ShlLinear(p, q, i - 1);
      DoubleLinear(Shl(p, i - 1), Shl(q, i - 1));
    }
  }

  lemma {:induction false} ShlDouble(p: bv16, i: nat)
    ensures Shl(Double(p), i) == Double(Shl(p, i))
  {
    hide Double;
    if i > 0 {
      ShlDouble(p, i - 1);
    }
  }

  lemma DoubleSteps(q: bv16)
    ensures Double(q) == q << 1 && Double(q << 1) == q << 2 && Double(q << 2) == q << 3 && Double(q << 3) == q << 4
    ensures Double(q << 4) == q << 5 && Double(q << 5) == q << 6 && Double(q << 6) == q << 7 && Double(q << 7) == q << 8
  {}

  /** The recursive shift is the machine shift. */
  lemma ShlLiteral(q: bv16)
    ensures Shl(q, 1) == q << 1 && Shl(q, 3) == q << 3 && Shl(q, 4) == q << 4 && Shl(q, 8) == q << 8
  {
    hide Double;
    DoubleSteps(q);
    assert Shl(q, 1) == q << 1;
    assert Shl(q, 2) == q << 2;
    assert Shl(q, 3) == q << 3;
    assert Shl(q, 4) == q << 4;
    assert Shl(q, 5) == q << 5;
    assert Shl(q, 6) == q << 6;
    assert Shl(q, 7) == q << 7;
  }

  lemma PolyTimesLinear(p: bv16, q: bv16)
    ensures PolyTimes(Xor(p, q)) == Xor(PolyTimes(p), PolyTimes(q))
  {
    hide Xor, Shl, Widen, HighBit;
    ShlLinear(p, q, 8);
    ShlLinear(p, q, 4);
    ShlLinear(p, q, 3);
    ShlLinear(p, q, 1);
    XorSwap(Shl(p, 8), Shl(q, 8), Shl(p, 4), Shl(q, 4));
    XorSwap(Shl(p, 3), Shl(q, 3), Shl(p, 1), Shl(q, 1));
    XorSwap(Xor(Shl(p, 3), Shl(p, 1)), Xor(Shl(q, 3), Shl(q, 1)), p, q);
    XorSwap(Xor(Shl(p, 8), Shl(p, 4)), Xor(Shl(q, 8), Shl(q, 4)),
            Xor(Xor(Shl(p, 3), Shl(p, 1)), p), Xor(Xor(Shl(q, 3), Shl(q, 1)), q));
  }

  lemma PolyTimesShift(p: bv16)
    ensures PolyTimes(Double(p)) == Double(PolyTimes(p))
  {
    hide Xor, Double;
    ShlDouble(p, 8);
    ShlDouble(p, 4);
    ShlDouble(p, 3);
    ShlDouble(p, 1);
    hide Shl;
    DoubleLinear(Shl(p, 8), Shl(p, 4));
    DoubleLinear(Shl(p, 3), Shl(p, 1));
    DoubleLinear(Xor(Shl(p, 3), Shl(p, 1)), p);
    DoubleLinear(Xor(Shl(p, 8), Shl(p, 4)), Xor(Xor(Shl(p, 3), Shl(p, 1)), p));
  }

  lemma PolyTimesZero()
    ensures PolyTimes(0) == 0
  {
    hide Xor, PolyTimes;
    PolyTimesLinear(0, 0);
    XorSelf(0);
    XorSelf(PolyTimes(0));
  }

  lemma XorSelf(a: bv16)
    ensures Xor(a, a) == 0
  {}

  lemma WidenAdd(a: bv8, b: bv8)
    ensures Widen(Add(a, b)) == Xor(Widen(a), Widen(b))
    ensures Widen(0) == 0
  {}

  lemma WidenTimesX(a: bv8)
    ensures Double(Widen(a)) == Xor(PolyTimes(HighBit(a)), Widen(TimesX(a)))
  {
    ShlLiteral(HighBit(a));
    hide Shl;
  }

  // ----- the quotients ------------------------------------------------------------

  /** The quotient of x^i * a on division by POLY. */
  function ShiftQuotient(a: bv8, i: nat): bv16
    requires i <= 7
  {
    if i == 0 then 0 else Xor(Double(ShiftQuotient(a, i - 1)), HighBit(TimesXPow(a, i - 1)))
  }

  lemma {:induction false} ShiftModPoly(a: bv8, i: nat)
    requires i <= 7
    ensures Shl(Widen(a), i) == Xor(PolyTimes(ShiftQuotient(a, i)), Widen(TimesXPow(a, i)))
  {
    hide Xor, Double, Widen, HighBit, PolyTimes, TimesX;
    if i == 0 {
      PolyTimesZero();
      XorComm(Widen(a), 0);
    } else {
      var q, x := ShiftQuotient(a, i - 1), TimesXPow(a, i - 1);
      ShiftModPoly(a, i - 1);
      DoubleLinear(PolyTimes(q), Widen(x));
      PolyTimesShift(q);
      WidenTimesX(x);
      PolyTimesLinear(Double(q), HighBit(x));
      XorAssoc(PolyTimes(Double(q)), PolyTimes(HighBit(x)), Widen(TimesX(x)));
    }
  }

  function Bound(i: nat): bv16
    requires i <= 7
  {
    if i == 0 then 1 else Bound(i - 1) * 2
  }

  lemma BoundStep(q: bv16, h: bv16, l: bv16)
    requires q < l <= 64 && h <= 1
    ensures Xor(Double(q), h) < l * 2
  {}

  lemma Bounds()
    ensures Bound(1) == 2 && Bound(2) == 4 && Bound(3) == 8 && Bound(4) == 16
    ensures Bound(5) == 32 && Bound(6) == 64 && Bound(7) == 128
  {
    assert Bound(2) == 4 && Bound(4) == 16 && Bound(6) == 64;
  }

  lemma HighBitSmall(x: bv8)
    ensures HighBit(x) <= 1
  {}

  lemma {:induction false} ShiftQuotientSmall(a: bv8, i: nat)
    requires i <= 7
    ensures ShiftQuotient(a, i) < Bound(i) <= 128
  {
    hide Xor, Shl, Widen, HighBit, TimesXPow;
    Bounds();
    if i > 0 {
      ShiftQuotientSmall(a, i - 1);
      HighBitSmall(TimesXPow(a, i - 1));
      BoundStep(ShiftQuotient(a, i - 1), HighBit(TimesXPow(a, i - 1)), Bound(i - 1));
    }
  }

  function ProductQuotient(a: bv8, b: bv8, n: nat): bv16
    requires n <= 8
  {
    if n == 0 then 0
    else Xor(ProductQuotient(a, b, n - 1), if BitSet(b, n - 1) then ShiftQuotient(a, n - 1) else 0)
  }

  lemma XorSmall(p: bv16, q: bv16)
    requires p < 128 && q < 128
    ensures Xor(p, q) < 128
  {}

  lemma {:induction false} ProductQuotientSmall(a: bv8, b: bv8, n: nat)
    requires n <= 8
    ensures ProductQuotient(a, b, n) < 128
  {
    hide Xor, Shl, Widen, HighBit, ShiftQuotient, BitSet;
    if n > 0 {
      ProductQuotientSmall(a, b, n - 1);
      ShiftQuotientSmall(a, n - 1);
      XorSmall(ProductQuotient(a, b, n - 1), if BitSet(b, n - 1) then ShiftQuotient(a, n - 1) else 0);
    }
  }

  lemma SelectIsBit(x: bv8, b: bv8, i: nat)
    requires i < 8
    ensures Select(x, b, i) == if BitSet(b, i) then x else 0
  {
    var s := (b >> i) & 1;
    assert s == 0 || s == 1;
  }

  lemma {:induction false} PartialModPoly(a: bv8, b: bv8, n: nat)
    requires n <= 8
    ensures CarryLess(a, b, n) == Xor(PolyTimes(ProductQuotient(a, b, n)), Widen(Partial(a, b, n)))
  {
    hide Xor, Shl, Widen, HighBit, PolyTimes, ShiftQuotient, BitSet, Select, TimesXPow, Add;
    WidenAdd(0, 0);
    if n == 0 {
      PolyTimesZero();
      XorComm(0, 0);
    } else {
      var q, r := ProductQuotient(a, b, n - 1), Partial(a, b, n - 1);
      PartialModPoly(a, b, n - 1);
      ShiftModPoly(a, n - 1);
      var isSet := BitSet(b, n - 1);
      var q', r' := if isSet then ShiftQuotient(a, n - 1) else 0, if isSet then TimesXPow(a, n - 1) else 0;
      SelectIsBit(TimesXPow(a, n - 1), b, n - 1);
      PolyTimesZero();
      XorComm(0, 0);
      PolyTimesLinear(q, q');
      WidenAdd(r, r');
      XorSwap(PolyTimes(q), Widen(r), PolyTimes(q'), Widen(r'));
    }
  }

  // ----- the statement ----------------------------------------------------------------

  lemma SmallMultipleIsZero(d: bv16, r: bv8)
    requires d < 128 && PolyTimes(d) == Widen(r)
    ensures r == 0
  {
    ShlLiteral(d);
    hide Shl;
  }

  lemma RemainderUnique(q: bv16, r: bv8, q': bv16, r': bv8)
    requires q < 128 && q' < 128
    requires Xor(PolyTimes(q), Widen(r)) == Xor(PolyTimes(q'), Widen(r'))
    ensures r == r'
  {
    hide Xor, PolyTimes, Widen, Add;
    XorSmall(q, q');
    PolyTimesLinear(q, q');
    XorSwap(PolyTimes(q), Widen(r), PolyTimes(q'), Widen(r'));
    XorSelf(Xor(PolyTimes(q), Widen(r)));
    WidenAdd(r, r');
    XorZeroEqual(PolyTimes(Xor(q, q')), Widen(Add(r, r')));
    SmallMultipleIsZero(Xor(q, q'), Add(r, r'));
    AddCancel(r, r');
  }

  lemma XorZeroEqual(a: bv16, b: bv16)
    requires Xor(a, b) == 0
    ensures a == b
  {}

  /** Mul(a, b) is the remainder, and the only one, of the carry-less product of a and b modulo POLY. */
  lemma MulIsProductModPoly(a: bv8, b: bv8, r: bv8)
    ensures IsRemainder(CarryLess(a, b, 8), r) <==> r == Mul(a, b)
  {
    hide Xor, Shl, Widen, HighBit, PolyTimes, CarryLess, Partial, ProductQuotient;
    var q := ProductQuotient(a, b, 8);
    PartialModPoly(a, b, 8);
    ProductQuotientSmall(a, b, 8);
    if IsRemainder(CarryLess(a, b, 8), r) {
      var q' :| q' < 128 && CarryLess(a, b, 8) == Xor(PolyTimes(q'), Widen(r));
      RemainderUnique(q, Mul(a, b), q', r);
    }
  }
}
