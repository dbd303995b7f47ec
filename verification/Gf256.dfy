/** GF(2^8): bytes with XOR as addition and the Russian-peasant product of
    `src/shamir.rs` as multiplication.  The field laws are proved here. */
module Gf256 {
  /** x^8 + x^4 + x^3 + x + 1, the reduction polynomial. */
  const POLY: bv16 := 0x11B

  // ----- specification functions ----------------------------------------------

  function Add(a: bv8, b: bv8): bv8 {
    a ^ b
  }

  /** Multiplication by x, reduced. */
  function TimesX(a: bv8): bv8 {
    (a << 1) ^ (0x1B & (0 - (a >> 7)))
  }

  function TimesXPow(a: bv8, i: nat): bv8 {
    if i == 0 then a else TimesX(TimesXPow(a, i - 1))
  }

  /** `a` if bit `i` of `b` is set, 0 otherwise, by masking. */
  function Select(a: bv8, b: bv8, i: nat): bv8
    requires i < 8
  {
    a & (0 - ((b >> i) & 1))
  }

  /** The product of `a` with the polynomial of the low `n` bits of `b`. */
  function Partial(a: bv8, b: bv8, n: nat): bv8
    requires n <= 8
  {
    if n == 0 then 0
    else Add(Partial(a, b, n - 1), Select(TimesXPow(a, n - 1), b, n - 1))
  }

  function Mul(a: bv8, b: bv8): bv8 {
    Partial(a, b, 8)
  }

  function Pow(a: bv8, n: nat): bv8 {
    if n == 0 then 1 else Mul(a, Pow(a, n - 1))
  }

  function Inv(a: bv8): bv8 {
    Pow(a, 254)
  }

  // ----- the additive group ---------------------------------------------------

  lemma AddComm(a: bv8, b: bv8)
    ensures Add(a, b) == Add(b, a)
  {}

  lemma AddAssoc(a: bv8, b: bv8, c: bv8)
    ensures Add(Add(a, b), c) == Add(a, Add(b, c))
  {}

  lemma AddZero(a: bv8)
    ensures Add(a, 0) == a && Add(0, a) == a && Add(a, a) == 0
  {}

  lemma AddCancel(a: bv8, b: bv8)
    ensures Add(a, b) == 0 <==> a == b
    ensures Add(a, Add(a, b)) == b
  {}

  lemma AddSwap(a: bv8, b: bv8, c: bv8, d: bv8)
    ensures Add(Add(a, b), Add(c, d)) == Add(Add(a, c), Add(b, d))
  {
    hide Add;
    AddAssoc(a, b, Add(c, d));
    AddAssoc(b, c, d);
    AddComm(b, c);
    AddAssoc(c, b, d);
    AddAssoc(a, c, Add(b, d));
  }

  // ----- TimesX and Partial are linear ------------------------------------------

  lemma TimesXLinear(a: bv8, b: bv8)
    ensures TimesX(Add(a, b)) == Add(TimesX(a), TimesX(b))
  {}

  /** A selected value is always the value itself, or always 0. */
  lemma SelectCases(b: bv8, i: nat)
    requires i < 8
    ensures (forall x :: Select(x, b, i) == x) || (forall x :: Select(x, b, i) == 0)
  {
    var s := (b >> i) & 1;
    if s == 0 {
      forall x ensures Select(x, b, i) == 0 {}
    } else {
      assert s == 1;
      forall x ensures Select(x, b, i) == x {}
    }
  }

  lemma SelectLinear(a: bv8, b: bv8, c: bv8, i: nat)
    requires i < 8
    ensures Select(Add(a, b), c, i) == Add(Select(a, c, i), Select(b, c, i))
  {
    hide Select, Add;
    SelectCases(c, i);
    AddZero(0);
  }

  lemma {:induction false} TimesXPowLinear(a: bv8, b: bv8, i: nat)
    ensures TimesXPow(Add(a, b), i) == Add(TimesXPow(a, i), TimesXPow(b, i))
  {
    hide TimesX, Add;
    if i > 0 {
      TimesXPowLinear(a, b, i - 1);
      TimesXLinear(TimesXPow(a, i - 1), TimesXPow(b, i - 1));
    }
  }

  lemma {:induction false} TimesXPowShift(a: bv8, i: nat)
    ensures TimesXPow(TimesX(a), i) == TimesX(TimesXPow(a, i))
  {
    hide TimesX;
    if i > 0 {
      TimesXPowShift(a, i - 1);
    }
  }

  lemma {:induction false} PartialLinear(a: bv8, b: bv8, c: bv8, n: nat)
    requires n <= 8
    ensures Partial(Add(a, b), c, n) == Add(Partial(a, c, n), Partial(b, c, n))
  {
    hide TimesX, Add, Select, TimesXPow;
    if n == 0 {
      AddZero(0);
    } else {
      PartialLinear(a, b, c, n - 1);
      TimesXPowLinear(a, b, n - 1);
      var u, v := TimesXPow(a, n - 1), TimesXPow(b, n - 1);
      SelectLinear(u, v, c, n - 1);
      AddSwap(Partial(a, c, n - 1), Partial(b, c, n - 1), Select(u, c, n - 1), Select(v, c, n - 1));
    }
  }

  lemma {:induction false} PartialTimesX(a: bv8, b: bv8, n: nat)
    requires n <= 8
    ensures Partial(TimesX(a), b, n) == TimesX(Partial(a, b, n))
  {
    hide Add, Select, TimesXPow, TimesX;
    if n == 0 {
      TimesXZero();
    } else {
      PartialTimesX(a, b, n - 1);
      TimesXPowShift(a, n - 1);
      var u := TimesXPow(a, n - 1);
      TimesXSelect(u, b, n - 1);
      TimesXLinear(Partial(a, b, n - 1), Select(u, b, n - 1));
    }
  }

  lemma TimesXZero()
    ensures TimesX(0) == 0
  {}

  lemma TimesXSelect(a: bv8, b: bv8, i: nat)
    requires i < 8
    ensures Select(TimesX(a), b, i) == TimesX(Select(a, b, i))
  {
    hide TimesX, Select;
    TimesXZero();
    SelectCases(b, i);
  }

  lemma {:induction false} PartialTimesXPow(a: bv8, b: bv8, i: nat)
    ensures Partial(TimesXPow(a, i), b, 8) == TimesXPow(Partial(a, b, 8), i)
  {
    hide Partial, TimesX;
    if i > 0 {
      PartialTimesXPow(a, b, i - 1);
      PartialTimesX(TimesXPow(a, i - 1), b, 8);
    }
  }

  lemma MulZeroLeft(b: bv8)
    ensures Mul(0, b) == 0
  {
    hide Mul, Partial, Add;
    AddZero(0);
    MulDistLeft(0, 0, b);
    AddZero(Mul(0, b));
  }

  lemma MulDistLeft(a: bv8, b: bv8, c: bv8)
    ensures Mul(Add(a, b), c) == Add(Mul(a, c), Mul(b, c))
  {
    hide Partial, Add;
    PartialLinear(a, b, c, 8);
  }

  lemma MulSelect(a: bv8, b: bv8, c: bv8, i: nat)
    requires i < 8
    ensures Mul(Select(a, b, i), c) == Select(Mul(a, c), b, i)
  {
    hide Mul, Select;
    MulZeroLeft(c);
    SelectCases(b, i);
  }

  /** Multiplication by `b` commutes with the bit sum that defines the product. */
  lemma {:induction false} MulPartial(u: bv8, c: bv8, b: bv8, n: nat)
    requires n <= 8
    ensures Mul(Partial(u, c, n), b) == Partial(Mul(u, b), c, n)
  {
    hide Mul, Add, Select, TimesXPow;
    if n == 0 {
      MulZeroLeft(b);
    } else {
      MulPartial(u, c, b, n - 1);
      var x := TimesXPow(u, n - 1);
      MulDistLeft(Partial(u, c, n - 1), Select(x, c, n - 1), b);
      MulSelect(x, c, b, n - 1);
      MulTimesXPow(u, b, n - 1);
    }
  }

  lemma MulTimesXPow(a: bv8, b: bv8, i: nat)
    ensures Mul(TimesXPow(a, i), b) == TimesXPow(Mul(a, b), i)
  {
    hide Partial, TimesXPow;
    PartialTimesXPow(a, b, i);
  }

  // ----- commutative ring -------------------------------------------------------

  lemma PowersOfX()
    ensures TimesXPow(1, 0) == 1 && TimesXPow(1, 1) == 2 && TimesXPow(1, 2) == 4 && TimesXPow(1, 3) == 8
    ensures TimesXPow(1, 4) == 16 && TimesXPow(1, 5) == 32 && TimesXPow(1, 6) == 64 && TimesXPow(1, 7) == 128
  {
    assert TimesX(1) == 2 && TimesX(2) == 4 && TimesX(4) == 8 && TimesX(8) == 16;
    assert TimesX(16) == 32 && TimesX(32) == 64 && TimesX(64) == 128;
    hide TimesX;
    assert TimesXPow(1, 2) == 4;
    assert TimesXPow(1, 4) == 16;
    assert TimesXPow(1, 6) == 64;
  }

  lemma BitsSum(b: bv8)
    ensures Add(0, Select(1, b, 0)) == b & 1
    ensures Add(b & 1, Select(2, b, 1)) == b & 3
    ensures Add(b & 3, Select(4, b, 2)) == b & 7
    ensures Add(b & 7, Select(8, b, 3)) == b & 15
    ensures Add(b & 15, Select(16, b, 4)) == b & 31
    ensures Add(b & 31, Select(32, b, 5)) == b & 63
    ensures Add(b & 63, Select(64, b, 6)) == b & 127
    ensures Add(b & 127, Select(128, b, 7)) == b
  {}

  lemma MulOneLeft(b: bv8)
    ensures Mul(1, b) == b
  {
    PowersOfX();
    BitsSum(b);
    hide TimesXPow, TimesX, Add, Select;
    assert Partial(1, b, 1) == b & 1;
    assert Partial(1, b, 2) == b & 3;
    assert Partial(1, b, 3) == b & 7;
    assert Partial(1, b, 4) == b & 15;
    assert Partial(1, b, 5) == b & 31;
    assert Partial(1, b, 6) == b & 63;
    assert Partial(1, b, 7) == b & 127;
  }

  lemma MulComm(a: bv8, b: bv8)
    ensures Mul(a, b) == Mul(b, a)
  {
    MulPartial(1, a, b, 8);
    MulOneLeft(a);
    MulOneLeft(b);
    hide Partial;
  }

  lemma MulAssoc(a: bv8, b: bv8, c: bv8)
    ensures Mul(Mul(a, b), c) == Mul(a, Mul(b, c))
  {
    hide Partial;
    MulPartial(b, c, a, 8);
    MulComm(a, b);
    MulComm(a, Mul(b, c));
  }

  lemma MulDistRight(a: bv8, b: bv8, c: bv8)
    ensures Mul(a, Add(b, c)) == Add(Mul(a, b), Mul(a, c))
  {
    hide Mul, Add;
    MulDistLeft(b, c, a);
    MulComm(a, b);
    MulComm(a, c);
    MulComm(a, Add(b, c));
  }

  lemma MulUnits(a: bv8)
    ensures Mul(a, 1) == a && Mul(1, a) == a
    ensures Mul(a, 0) == 0 && Mul(0, a) == 0
  {
    hide Mul;
    MulOneLeft(a);
    MulComm(a, 1);
    MulZeroLeft(a);
    MulComm(a, 0);
  }

  // ----- every nonzero element is invertible --------------------------------------

  lemma {:induction false} PowAdd(a: bv8, m: nat, n: nat)
    ensures Pow(a, m + n) == Mul(Pow(a, m), Pow(a, n))
  {
    hide Mul;
    if m == 0 {
      MulUnits(Pow(a, n));
    } else {
      PowAdd(a, m - 1, n);
      MulAssoc(a, Pow(a, m - 1), Pow(a, n));
    }
  }

  /** Squaring, written as the linear map it is in characteristic 2. */
  function Square(a: bv8): bv8 {
    (0x01 & (0 - ((a >> 0) & 1))) ^ (0x04 & (0 - ((a >> 1) & 1))) ^
    (0x10 & (0 - ((a >> 2) & 1))) ^ (0x40 & (0 - ((a >> 3) & 1))) ^
    (0x1B & (0 - ((a >> 4) & 1))) ^ (0x6C & (0 - ((a >> 5) & 1))) ^
    (0xAB & (0 - ((a >> 6) & 1))) ^ (0x9A & (0 - ((a >> 7) & 1)))
  }

  lemma SquareLaws(a: bv8)
    ensures Square(Square(Square(Square(Square(Square(Square(Square(a)))))))) == a
    ensures Square(a) == a ==> a == 0 || a == 1
  {}

  lemma MulSelfLinear(a: bv8, b: bv8)
    ensures Mul(Add(a, b), Add(a, b)) == Add(Mul(a, a), Mul(b, b))
  {
    hide Mul, Add;
    var s := Add(a, b);
    MulDistLeft(a, b, s);
    MulDistRight(a, a, b);
    MulDistRight(b, a, b);
    MulComm(a, b);
    AddSwap(Mul(a, a), Mul(a, b), Mul(a, b), Mul(b, b));
    AddComm(Mul(a, b), Mul(b, b));
    AddSwap(Mul(a, a), Mul(a, b), Mul(b, b), Mul(a, b));
    AddZero(Mul(a, b));
    AddZero(Add(Mul(a, a), Mul(b, b)));
  }

  lemma MulSelfSelect(x: bv8, b: bv8, i: nat)
    requires i < 8
    ensures Mul(Select(x, b, i), Select(x, b, i)) == Select(Mul(x, x), b, i)
  {
    hide Mul, Select;
    SelectCases(b, i);
    MulUnits(0);
  }

  lemma MorePowersOfX()
    ensures TimesXPow(1, 8) == 0x1B && TimesXPow(1, 10) == 0x6C && TimesXPow(1, 12) == 0xAB && TimesXPow(1, 14) == 0x9A
  {
    PowersOfX();
    assert TimesX(128) == 0x1B && TimesX(0x1B) == 0x36 && TimesX(0x36) == 0x6C && TimesX(0x6C) == 0xD8;
    assert TimesX(0xD8) == 0xAB && TimesX(0xAB) == 0x4D && TimesX(0x4D) == 0x9A;
    hide TimesX;
    assert TimesXPow(1, 8) == 0x1B;
    assert TimesXPow(1, 9) == 0x36;
    assert TimesXPow(1, 10) == 0x6C;
    assert TimesXPow(1, 12) == 0xAB;
    assert TimesXPow(1, 13) == 0x4D;
  }

  /** The squares of the eight basis elements. */
  lemma BasisSquares()
    ensures Mul(1, 1) == 1 && Mul(2, 2) == 4 && Mul(4, 4) == 16 && Mul(8, 8) == 64
    ensures Mul(16, 16) == 0x1B && Mul(32, 32) == 0x6C && Mul(64, 64) == 0xAB && Mul(128, 128) == 0x9A
  {
    hide Mul, TimesXPow;
    MulUnits(1);
    PowersOfX();
    MorePowersOfX();
    MulBasis(1);
    MulBasis(2);
    MulBasis(3);
    MulBasis(4);
    MulBasis(5);
    MulBasis(6);
    MulBasis(7);
  }

  /** x^i * x^i == x^(2i). */
  lemma MulBasis(i: nat)
    ensures Mul(TimesXPow(1, i), TimesXPow(1, i)) == TimesXPow(1, 2 * i)
  {
    hide Mul, TimesX;
    var x := TimesXPow(1, i);
    MulTimesXPow(1, x, i);
    MulOneLeft(x);
    TimesXPowAdd(1, i, i);
  }

  lemma {:induction false} TimesXPowAdd(a: bv8, i: nat, j: nat)
    ensures TimesXPow(TimesXPow(a, i), j) == TimesXPow(a, i + j)
  {
    hide TimesX;
    if j > 0 {
      TimesXPowAdd(a, i, j - 1);
    }
  }

  lemma MulSelfIsSquare(a: bv8)
    ensures Mul(a, a) == Square(a)
  {
    hide Mul, Square, Add, Select;
    SquareAsSum(a);
    BitsSum(a);
    BasisSquares();
    MulSelfStep(0, 1, a, 0);
    MulUnits(0);
    AddZero(Select(1, a, 0));
    MulSelfStep(a & 1, 2, a, 1);
    MulSelfStep(a & 3, 4, a, 2);
    MulSelfStep(a & 7, 8, a, 3);
    MulSelfStep(a & 15, 16, a, 4);
    MulSelfStep(a & 31, 32, a, 5);
    MulSelfStep(a & 63, 64, a, 6);
    MulSelfStep(a & 127, 128, a, 7);
  }

  lemma MulSelfStep(low: bv8, x: bv8, b: bv8, i: nat)
    requires i < 8
    ensures var s := Add(low, Select(x, b, i)); Mul(s, s) == Add(Mul(low, low), Select(Mul(x, x), b, i))
  {
    hide Mul, Add, Select;
    MulSelfLinear(low, Select(x, b, i));
    MulSelfSelect(x, b, i);
  }

  lemma SquareAsSum(a: bv8)
    ensures Square(a) ==
      Add(Add(Add(Add(Add(Add(Add(Select(1, a, 0), Select(4, a, 1)), Select(16, a, 2)), Select(64, a, 3)),
                      Select(0x1B, a, 4)), Select(0x6C, a, 5)), Select(0xAB, a, 6)), Select(0x9A, a, 7))
  {}

  lemma PowDouble(a: bv8, n: nat)
    ensures Pow(a, 2 * n) == Square(Pow(a, n))
  {
    hide Mul, Square, Pow;
    PowAdd(a, n, n);
    MulSelfIsSquare(Pow(a, n));
  }

  /** Every element is a root of x^256 - x. */
  lemma PowOrder(a: bv8)
    ensures Pow(a, 256) == a
  {
    SquareLaws(a);
    hide Mul, Square;
    MulUnits(a);
    assert Pow(a, 1) == Mul(a, Pow(a, 0));
    hide Pow;
    PowDouble(a, 1);
    PowDouble(a, 2);
    PowDouble(a, 4);
    PowDouble(a, 8);
    PowDouble(a, 16);
    PowDouble(a, 32);
    PowDouble(a, 64);
    PowDouble(a, 128);
  }

  /** a^255 is idempotent, so it is 0 or 1; and it is 0 only for a == 0. */
  lemma InvIsInverse(a: bv8)
    requires a != 0
    ensures Mul(a, Inv(a)) == 1
    ensures Inv(a) != 0
  {
    var n := Pow(a, 255);
    PowOrder(a);
    assert n == Mul(a, Inv(a)) && Pow(a, 256) == Mul(a, n);
    PowAdd(a, 256, 254);
    PowAdd(a, 255, 255);
    MulSelfIsSquare(n);
    SquareLaws(n);
    hide Mul, Square, Pow;
    MulUnits(a);
  }

  lemma NoZeroDivisors(a: bv8, b: bv8)
    ensures Mul(a, b) == 0 <==> a == 0 || b == 0
  {
    hide Mul, Inv;
    MulUnits(a);
    MulUnits(b);
    if a != 0 {
      InvIsInverse(a);
      MulComm(a, Inv(a));
      MulAssoc(Inv(a), a, b);
      MulUnits(Inv(a));
    }
  }

  /** Inv(a) is the only inverse of a, and 0 maps to 0. */
  lemma InvUnique(a: bv8, b: bv8)
    ensures a != 0 ==> (Mul(a, b) == 1 <==> b == Inv(a))
    ensures Inv(0) == 0
  {
    hide Mul, Pow;
    if a != 0 {
      InvIsInverse(a);
      if Mul(a, b) == 1 {
        MulComm(a, Inv(a));
        MulAssoc(Inv(a), a, b);
        MulUnits(Inv(a));
        MulUnits(b);
      }
    }
    InvZero();
  }

  lemma InvZero()
    ensures Inv(0) == 0
  {
    hide Mul;
    MulUnits(Pow(0, 253));
  }
}
