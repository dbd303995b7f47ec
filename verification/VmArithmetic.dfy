/** What the machine's sums, products and bitwise operations do to the number of a word. */
module VmArithmetic {
  import opened Bytes
  import opened VmWords

  // ----- sums and products of words ----------------------------------------------------------------------

  /** n ones, added up by the machine. */
  ghost function Count(n: nat): u64 {
    if n == 0 then 0 else Next(Count(n - 1))
  }

  function Plus(a: u64, b: u64): u64 {
    a + b
  }

  function Times(a: u64, b: u64): u64 {
    a * b
  }

  function Next(a: u64): u64 {
    a + 1
  }

  lemma NextIs(a: u64)
    ensures Next(a) == a + 1
  {}

  lemma PlusOne(a: u64, b: u64)
    ensures Plus(a, b + 1) == Plus(a, b) + 1
  {}

  lemma PlusNext(a: u64, b: u64)
    ensures Plus(a, Next(b)) == Next(Plus(a, b))
  {
    hide Plus, Next;
    NextIs(b);
    NextIs(Plus(a, b));
    PlusOne(a, b);
  }

  lemma TimesIs(a: u64, b: u64)
    ensures Times(a, b) == a * b
  {}

  lemma TimesOne(a: u64, b: u64)
    ensures Times(a, b + 1) == a * b + a
  {}

  lemma PlusProduct(a: u64, b: u64)
    ensures Plus(a * b, a) == a * b + a
  {}

  lemma TimesNext(a: u64, b: u64)
    ensures Times(a, Next(b)) == Plus(Times(a, b), a)
  {
    hide Plus, Times, Next;
    NextIs(b);
    TimesOne(a, b);
    TimesIs(a, b);
    PlusProduct(a, b);
  }

  lemma PlusTimesZero(a: u64)
    ensures Plus(a, 0) == a && Times(a, 0) == 0
  {}

  lemma {:induction false} CountSum(m: nat, n: nat)
    ensures Count(m + n) == Plus(Count(m), Count(n))
  {
    hide Plus, Next;
    if n == 0 {
      PlusTimesZero(Count(m));
    } else {
      CountSum(m, n - 1);
      PlusNext(Count(m), Count(n - 1));
    }
  }

  lemma {:induction false} CountProduct(m: nat, n: nat)
    ensures Count(m * n) == Times(Count(m), Count(n))
    decreases n
  {
    hide Plus, Times, Next;
    if n == 0 {
      PlusTimesZero(Count(m));
    } else {
      CountProduct(m, n - 1);
      TimesNext(Count(m), Count(n - 1));
      assert m * n == m * (n - 1) + m;
      CountSum(m * (n - 1), m);
    }
  }

  function Widen(b: byte): u64 {
    b as bv64
  }

  lemma WidenNext(b: byte)
    ensures b != 255 ==> Widen(b + 1) == Next(Widen(b))
    ensures Widen(0) == 0
  {}

  lemma {:induction false} CountSmall(n: nat)
    requires n < 256
    ensures Count(n) == Widen(ToByte(n))
  {
    hide Next, Widen;
    WidenNext(0);
    if n > 0 {
      CountSmall(n - 1);
      ByteRoundTrip(n - 1);
      WidenNext(ToByte(n - 1));
    }
  }

  lemma CountDigit(b: byte)
    ensures Count(Digit(b)) == Widen(b)
  {
    hide Widen, ToByte, Count;
    CountSmall(Digit(b));
    ByteRoundTrip(Digit(b));
    DigitOrder(b, ToByte(Digit(b)));
  }

  lemma Count256()
    ensures Count(256) == 256
  {
    hide ToByte;
    CountDigit(255);
    assert Widen(255) == 255;
    assert Count(256) == Next(Count(255));
  }

  lemma LowByte(x: u64)
    ensures x == Plus(Widen((x & 0xFF) as bv8), Times(256, x >> 8))
  {}

  lemma ShiftedRight(x: u64)
    ensures ToLe(x)[0] == (x & 0xFF) as bv8
    ensures ToLe(x >> 8) == ToLe(x)[1..] + [0]
  {}

  lemma {:induction false} ValuePad(s: ByteString)
    ensures Value(s + [0]) == Value(s)
  {
    if s == [] {
      assert [0 as byte][1..] == [];
    } else {
      ValuePad(s[1..]);
      assert (s + [0])[1..] == s[1..] + [0];
    }
  }

  lemma WordLow(x: u64)
    ensures WordValue(x) == Digit((x & 0xFF) as bv8) + 256 * WordValue(x >> 8)
  {
    ShiftedRight(x);
    hide ToLe, Digit;
    ValuePad(ToLe(x)[1..]);
  }

  /** A word is its number of ones, added up. */
  lemma {:induction false} CountValue(x: u64)
    ensures Count(WordValue(x)) == x
    decreases WordValue(x)
  {
    hide Count, Plus, Times, Widen, WordValue;
    WordInjective(x, 0);
    WordZero();
    if x == 0 {
      CountNone();
    } else {
      WordLow(x);
      var low, rest := (x & 0xFF) as bv8, x >> 8;
      CountValue(rest);
      CountDigit(low);
      Count256();
      CountProduct(256, WordValue(rest));
      CountSum(Digit(low), 256 * WordValue(rest));
      LowByte(x);
    }
  }

  lemma CountNone()
    ensures Count(0) == 0
  {}

  lemma WordZero()
    ensures WordValue(0) == 0
  {
    assert ToLe(0) == ZeroBytes(8);
    assert Value(ZeroBytes(8)) == 0 by {
      hide ToLe;
      ValueZeros(8);
    }
  }

  lemma {:induction false} ValueZeros(n: nat)
    ensures Value(ZeroBytes(n)) == 0
  {
    if n > 0 {
      ValueZeros(n - 1);
      assert ZeroBytes(n)[1..] == ZeroBytes(n - 1);
    }
  }

  lemma Squares()
    ensures Times(256, 256) == 0x1_0000 && Times(0x1_0000, 0x1_0000) == 0x1_0000_0000
    ensures Times(0x1_0000_0000, 0x1_0000_0000) == 0
  {}

  /** 2^64 ones add up to nothing. */
  lemma CountWraps()
    ensures Count(TWO_64) == 0
  {
    hide Count, Times;
    Squares();
    Count256();
    CountProduct(256, 256);
    CountProduct(0x1_0000, 0x1_0000);
    CountProduct(0x1_0000_0000, 0x1_0000_0000);
  }

  lemma ZeroLaws(a: u64, b: u64)
    ensures Times(0, a) == 0 && Plus(0, a) == a
  {}

  lemma CountModulo(q: nat, r: nat)
    ensures Count(TWO_64 * q + r) == Count(r)
  {
    hide Count, Times, Plus;
    CountWraps();
    CountProduct(TWO_64, q);
    CountSum(TWO_64 * q, r);
    ZeroLaws(Count(q), 0);
    ZeroLaws(Count(r), 0);
  }

  /** n ones stand for n, modulo 2^64. */
  lemma ValueCount(n: nat)
    ensures WordValue(Count(n)) == n % TWO_64
  {
    hide Count, WordValue, Word;
    CountModulo(n / TWO_64, n % TWO_64);
    WordRoundTrip(n);
    CountValue(Word(n));
  }

  lemma SumValue(a: u64, b: u64)
    ensures WordValue(Plus(a, b)) == (WordValue(a) + WordValue(b)) % TWO_64
  {
    hide Count, WordValue, Plus;
    CountValue(a);
    CountValue(b);
    CountSum(WordValue(a), WordValue(b));
    ValueCount(WordValue(a) + WordValue(b));
  }

  lemma ProductValue(a: u64, b: u64)
    ensures WordValue(Times(a, b)) == WordValue(a) * WordValue(b) % TWO_64
  {
    hide Count, WordValue, Times;
    CountValue(a);
    CountValue(b);
    CountProduct(WordValue(a), WordValue(b));
    ValueCount(WordValue(a) * WordValue(b));
  }

  // ----- the bits of a word --------------------------------------------------------------------------------

  function Half(x: u64): u64 {
    x >> 1
  }

  function LowBit(x: u64): u64 {
    x & 1
  }

  lemma HalfSum(x: u64)
    ensures x == Plus(Plus(Half(x), Half(x)), LowBit(x))
  {}

  lemma LowBitCases(x: u64)
    ensures LowBit(x) == 0 || LowBit(x) == 1
  {}

  lemma HalfTop(x: u64)
    ensures ToLe(Half(x))[7] < 128
  {}

  lemma HalfBound(x: u64)
    ensures 2 * WordValue(Half(x)) < TWO_64 - 1
  {
    HalfTop(x);
    hide ToLe, Value, Half, Power256;
    var s := ToLe(Half(x));
    DigitOrder(s[7], 128);
    ValueTop(s);
    Power256Of7();
    assert Digit(128) == 128;
    MulMono(Digit(s[7]), 127, Power256(7));
  }

  lemma Power256Of7()
    ensures 256 * Power256(7) == TWO_64
  {
    Power256Of8();
  }

  lemma MulMono(a: nat, b: nat, p: nat)
    requires a <= b
    ensures a * p <= b * p
  {}

  lemma WordOne()
    ensures WordValue(1) == 1
  {
    hide WordValue, Count;
    ValueCount(1);
    CountOne();
  }

  lemma CountOne()
    ensures Count(1) == 1
  {
    assert Count(1) == Next(Count(0));
  }

  /** The lowest bit is the parity, and the other bits are half the number. */
  lemma Halving(x: u64)
    ensures WordValue(x) / 2 == WordValue(Half(x))
    ensures WordValue(x) % 2 == if LowBit(x) == 1 then 1 else 0
  {
    hide WordValue, Half, LowBit, Plus;
    HalfSum(x);
    LowBitCases(x);
    HalfBound(x);
    var y := Half(x);
    SumValue(y, y);
    SumValue(Plus(y, y), LowBit(x));
    WordOne();
    WordZero();
  }

  /** Bit i of a number. */
  predicate NatBit(n: nat, i: nat) {
    n / Pow2(i) % 2 == 1
  }

  lemma NatBitNext(n: nat, i: nat)
    requires i > 0
    ensures NatBit(n, i) <==> NatBit(n / 2, i - 1)
  {
    hide Pow2;
    Pow2Double(i);
    DivDiv(n, 2, Pow2(i - 1));
  }

  lemma Pow2Double(i: nat)
    requires i > 0
    ensures Pow2(i) == 2 * Pow2(i - 1)
  {}

  function AndWord(a: u64, b: u64): u64 {
    a & b
  }

  function OrWord(a: u64, b: u64): u64 {
    a | b
  }

  function XorWord(a: u64, b: u64): u64 {
    a ^ b
  }

  function NotWord(a: u64): u64 {
    !a
  }

  lemma AndHalves(a: u64, b: u64)
    ensures Half(AndWord(a, b)) == AndWord(Half(a), Half(b))
    ensures LowBit(AndWord(a, b)) == 1 <==> LowBit(a) == 1 && LowBit(b) == 1
  {}

  lemma OrHalves(a: u64, b: u64)
    ensures Half(OrWord(a, b)) == OrWord(Half(a), Half(b))
    ensures LowBit(OrWord(a, b)) == 1 <==> LowBit(a) == 1 || LowBit(b) == 1
  {}

  lemma XorHalves(a: u64, b: u64)
    ensures Half(XorWord(a, b)) == XorWord(Half(a), Half(b))
    ensures LowBit(XorWord(a, b)) == 1 <==> (LowBit(a) == 1) != (LowBit(b) == 1)
  {}

  /** One bit of a word, from the word or from its half. */
  lemma BitStep(x: u64, i: nat)
    ensures i == 0 ==> (NatBit(WordValue(x), 0) <==> LowBit(x) == 1)
    ensures i > 0 ==> (NatBit(WordValue(x), i) <==> NatBit(WordValue(Half(x)), i - 1))
  {
    hide WordValue, Half, LowBit;
    Halving(x);
    if i > 0 {
      hide NatBit;
      NatBitNext(WordValue(x), i);
    }
  }

  lemma {:induction false} AndBits(a: u64, b: u64, i: nat)
    ensures NatBit(WordValue(AndWord(a, b)), i) <==> NatBit(WordValue(a), i) && NatBit(WordValue(b), i)
    decreases i
  {
    hide WordValue, Half, LowBit, AndWord, NatBit;
    AndHalves(a, b);
    BitStep(a, i);
    BitStep(b, i);
    BitStep(AndWord(a, b), i);
    if i > 0 {
      AndBits(Half(a), Half(b), i - 1);
    }
  }

  lemma {:induction false} OrBits(a: u64, b: u64, i: nat)
    ensures NatBit(WordValue(OrWord(a, b)), i) <==> NatBit(WordValue(a), i) || NatBit(WordValue(b), i)
    decreases i
  {
    hide WordValue, Half, LowBit, OrWord, NatBit;
    OrHalves(a, b);
    BitStep(a, i);
    BitStep(b, i);
    BitStep(OrWord(a, b), i);
    if i > 0 {
      OrBits(Half(a), Half(b), i - 1);
    }
  }

  lemma {:induction false} XorBits(a: u64, b: u64, i: nat)
    ensures NatBit(WordValue(XorWord(a, b)), i) <==> NatBit(WordValue(a), i) != NatBit(WordValue(b), i)
    decreases i
  {
    hide WordValue, Half, LowBit, XorWord, NatBit;
    XorHalves(a, b);
    BitStep(a, i);
    BitStep(b, i);
    BitStep(XorWord(a, b), i);
    if i > 0 {
      XorBits(Half(a), Half(b), i - 1);
    }
  }

  const ALL_ONES: u64 := 0xFFFF_FFFF_FFFF_FFFF

  lemma NotSum(a: u64)
    ensures Plus(a, NotWord(a)) == ALL_ONES
  {}

  lemma OnesWrap()
    ensures Plus(ALL_ONES, 1) == 0
  {}

  /** The complement is what is missing to 2^64 - 1. */
  lemma NotValue(a: u64)
    ensures WordValue(NotWord(a)) == TWO_64 - 1 - WordValue(a)
  {
    hide WordValue, NotWord, Plus, ALL_ONES;
    NotSum(a);
    OnesWrap();
    SumValue(a, NotWord(a));
    SumValue(ALL_ONES, 1);
    WordZero();
    WordOne();
    WordBound(a);
    WordBound(NotWord(a));
    WordBound(ALL_ONES);
  }

  // ----- shifts ------------------------------------------------------------------------------------------------

  function Double(x: u64): u64 {
    x << 1
  }

  lemma DoubleIsSum(x: u64)
    ensures Double(x) == Plus(x, x)
  {}

  /** x << n, as n shifts by one bit. */
  function ShiftLeft(x: u64, n: nat): u64 {
    if n == 0 then x else Double(ShiftLeft(x, n - 1))
  }

  /** x >> n, as n shifts by one bit. */
  function ShiftRight(x: u64, n: nat): u64 {
    if n == 0 then x else Half(ShiftRight(x, n - 1))
  }

  lemma {:induction false} ShiftLeftValue(x: u64, n: nat)
    ensures WordValue(ShiftLeft(x, n)) == WordValue(x) * Pow2(n) % TWO_64
  {
    hide WordValue, Double, Plus, Pow2;
    Pow2Zero();
    if n == 0 {
      WordBound(x);
    } else {
      var y := ShiftLeft(x, n - 1);
      ShiftLeftValue(x, n - 1);
      DoubleIsSum(y);
      SumValue(y, y);
      Pow2Double(n);
      DoubleModulo(WordValue(x), Pow2(n - 1));
    }
  }

  lemma Pow2Zero()
    ensures Pow2(0) == 1
  {}

  lemma DoubleModulo(v: nat, p: nat)
    ensures (v * p % TWO_64 + v * p % TWO_64) % TWO_64 == v * (2 * p) % TWO_64
  {
    TwiceModulo(v * p);
    assert v * (2 * p) == 2 * (v * p);
  }

  lemma TwiceModulo(n: nat)
    ensures (n % TWO_64 + n % TWO_64) % TWO_64 == 2 * n % TWO_64
  {}

  lemma {:induction false} ShiftRightValue(x: u64, n: nat)
    ensures WordValue(ShiftRight(x, n)) == WordValue(x) / Pow2(n)
  {
    hide WordValue, Half;
    if n > 0 {
      ShiftRightValue(x, n - 1);
      Halving(ShiftRight(x, n - 1));
      DivDiv(WordValue(x), Pow2(n - 1), 2);
    }
  }

  lemma LowSix(x: u64)
    ensures ToLe(x & 63) == [ToLe(x)[0] & 63] + ZeroBytes(7)
  {
    assert (x & 63) & 0xFF == x & 63;
    assert (x & 63) as bv8 == ((x & 0xFF) as bv8) & 63;
  }

  lemma SixBits(b: byte)
    ensures Digit(b & 63) == Digit(b) % 64
  {}

  /** The masked shift amount is the number modulo 64. */
  lemma MaskedAmount(x: u64)
    ensures WordValue(x & 63) == WordValue(x) % 64
  {
    LowSix(x);
    SixBits(ToLe(x)[0]);
    hide ToLe, Digit;
    ValueZeros(7);
    var s := ToLe(x & 63);
    assert s[1..] == ZeroBytes(7);
    assert Value(s) == Digit(s[0]);
    ModSmall(Digit(ToLe(x)[0]), Value(ToLe(x)[1..]));
  }

  lemma ModSmall(d: nat, u: nat)
    ensures (d + 256 * u) % 64 == d % 64
  {}
}
