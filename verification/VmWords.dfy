/** 64-bit words (`u64`): their bytes, the number they stand for, and the order of words. */
module VmWords {
  import opened Bytes

  type u64 = bv64

  // ----- words ------------------------------------------------------------------------------

  /** `u64::to_le_bytes` */
  function ToLe(x: u64): (s: ByteString)
    ensures |s| == 8
  {
    [(x & 0xFF) as bv8, ((x >> 8) & 0xFF) as bv8, ((x >> 16) & 0xFF) as bv8, ((x >> 24) & 0xFF) as bv8,
     ((x >> 32) & 0xFF) as bv8, ((x >> 40) & 0xFF) as bv8, ((x >> 48) & 0xFF) as bv8, ((x >> 56) & 0xFF) as bv8]
  }

  /** `u64::from_le_bytes` */
  function FromLe(s: ByteString): u64
    requires |s| == 8
  {
    (s[0] as bv64) | ((s[1] as bv64) << 8) | ((s[2] as bv64) << 16) | ((s[3] as bv64) << 24) |
    ((s[4] as bv64) << 32) | ((s[5] as bv64) << 40) | ((s[6] as bv64) << 48) | ((s[7] as bv64) << 56)
  }

  lemma FromToLe(x: u64)
    ensures FromLe(ToLe(x)) == x
  {}

  lemma ToFromLe(s: ByteString)
    requires |s| == 8
    ensures ToLe(FromLe(s)) == s
  {}

  // ----- the number a word stands for ----------------------------------------------------------------

  /** The number that little-endian digits in base 256 stand for. */
  function Value(s: ByteString): nat {
    if s == [] then 0 else Digit(s[0]) + 256 * Value(s[1..])
  }

  function Digit(b: byte): (d: nat)
    ensures d < 256
  {
    b as nat
  }

  function WordValue(x: u64): nat {
    Value(ToLe(x))
  }

  /** The borrow out of x - y - borrow, subtracting digit by digit. */
  function BorrowOut(x: ByteString, y: ByteString, borrow: nat): nat
    requires |x| == |y|
  {
    if x == [] then borrow
    else BorrowOut(x[1..], y[1..], if Digit(x[0]) < Digit(y[0]) + borrow then 1 else 0)
  }

  /** The flag of `a.overflowing_sub(b)`. */
  function BorrowBit(a: u64, b: u64): u64 {
    if BorrowOut(ToLe(a), ToLe(b), 0) == 1 then 1 else 0
  }

  /** One digit of a comparison in base 256: the first digit below decides only when the rest is equal. */
  lemma DigitStep(x: nat, xs: nat, y: nat, ys: nat, borrow: nat)
    requires x < 256 && y < 256 && borrow <= 1
    ensures x + 256 * xs < y + 256 * ys + borrow <==> xs < ys + if x < y + borrow then 1 else 0
  {}

  lemma {:induction false} BorrowIsLess(x: ByteString, y: ByteString, borrow: nat)
    requires |x| == |y| && borrow <= 1
    ensures BorrowOut(x, y, borrow) == if Value(x) < Value(y) + borrow then 1 else 0
  {
    if x != [] {
      var a, b := Digit(x[0]), Digit(y[0]);
      DigitStep(a, Value(x[1..]), b, Value(y[1..]), borrow);
      hide Digit;
      BorrowIsLess(x[1..], y[1..], if a < b + borrow then 1 else 0);
    }
  }

  lemma DigitOrder(x: byte, y: byte)
    ensures x < y <==> Digit(x) < Digit(y)
    ensures x == y <==> Digit(x) == Digit(y)
  {}

  /** x stands for a smaller number than y, comparing digits from the top. */
  predicate Below(x: ByteString, y: ByteString)
    requires |x| == |y|
  {
    if x == [] then false
    else
      var k := |x| - 1;
      x[k] < y[k] || (x[k] == y[k] && Below(x[..k], y[..k]))
  }

  lemma {:induction false} ValueTop(s: ByteString)
    requires s != []
    ensures var k := |s| - 1;
      Value(s) == Value(s[..k]) + Digit(s[k]) * Power256(k) && Value(s[..k]) < Power256(k)
  {
    hide Digit;
    var k := |s| - 1;
    if k > 0 {
      ValueTop(s[1..]);
      assert s[1..][..k - 1] == s[..k][1..];
      assert Value(s[..k]) == Digit(s[0]) + 256 * Value(s[..k][1..]);
      MulShift(Digit(s[k]), Power256(k - 1));
    }
  }

  lemma MulShift(d: nat, p: nat)
    ensures 256 * (d * p) == d * (256 * p)
  {}

  lemma TopDecides(u: nat, d: nat, v: nat, e: nat, p: nat)
    requires u < p && v < p
    ensures u + d * p < v + e * p <==> d < e || (d == e && u < v)
  {
    MulGap(p, d, e);
    MulGap(p, e, d);
  }

  lemma {:induction false} BelowIsLess(x: ByteString, y: ByteString)
    requires |x| == |y|
    ensures Below(x, y) <==> Value(x) < Value(y)
  {
    hide Digit, Value;
    if x == [] {
      ValueNone();
    } else {
      var k := |x| - 1;
      BelowIsLess(x[..k], y[..k]);
      ValueTop(x);
      ValueTop(y);
      DigitOrder(x[k], y[k]);
      TopDecides(Value(x[..k]), Digit(x[k]), Value(y[..k]), Digit(y[k]), Power256(k));
    }
  }

  lemma ValueNone()
    ensures Value([]) == 0
  {}

  predicate Less(a: u64, b: u64) {
    a < b
  }

  /** x << 8 */
  function Shifted(x: u64): u64 {
    x << 8
  }

  lemma ShiftedDigits(x: u64)
    ensures (Shifted(x) & 0xFF) as bv8 == 0
    ensures ((Shifted(x) >> 8) & 0xFF) as bv8 == (x & 0xFF) as bv8
    ensures ((Shifted(x) >> 16) & 0xFF) as bv8 == ((x >> 8) & 0xFF) as bv8
    ensures ((Shifted(x) >> 24) & 0xFF) as bv8 == ((x >> 16) & 0xFF) as bv8
    ensures ((Shifted(x) >> 32) & 0xFF) as bv8 == ((x >> 24) & 0xFF) as bv8
    ensures ((Shifted(x) >> 40) & 0xFF) as bv8 == ((x >> 32) & 0xFF) as bv8
    ensures ((Shifted(x) >> 48) & 0xFF) as bv8 == ((x >> 40) & 0xFF) as bv8
    ensures ((Shifted(x) >> 56) & 0xFF) as bv8 == ((x >> 48) & 0xFF) as bv8
  {}

  lemma ShiftedBytes(x: u64)
    ensures ToLe(Shifted(x)) == [0] + ToLe(x)[..7]
  {
    hide Shifted;
    ShiftedDigits(x);
  }

  function TopByte(x: u64): byte {
    ((x >> 56) & 0xFF) as bv8
  }

  lemma TopByteAt(x: u64)
    ensures ToLe(x)[7] == TopByte(x)
  {}

  lemma TopBytes(a: u64, b: u64)
    ensures TopByte(a) < TopByte(b) ==> Less(a, b)
    ensures Less(a, b) ==> TopByte(a) <= TopByte(b)
  {}

  lemma EqualTop(a: u64, b: u64)
    requires TopByte(a) == TopByte(b) && Less(a, b)
    ensures Less(Shifted(a), Shifted(b))
  {}

  lemma EqualTopBack(a: u64, b: u64)
    requires TopByte(a) == TopByte(b) && Less(Shifted(a), Shifted(b))
    ensures Less(a, b)
  {}

  lemma ByteOrder(x: byte, y: byte)
    ensures x <= y <==> x < y || x == y
  {}

  /** The top byte decides; if it is equal, the bytes below do. */
  lemma TopOrder(a: u64, b: u64)
    ensures Less(a, b) <==> TopByte(a) < TopByte(b) || (TopByte(a) == TopByte(b) && Less(Shifted(a), Shifted(b)))
  {
    hide Less, Shifted, TopByte;
    TopBytes(a, b);
    ByteOrder(TopByte(a), TopByte(b));
    if TopByte(a) == TopByte(b) {
      if Less(a, b) {
        EqualTop(a, b);
      }
      if Less(Shifted(a), Shifted(b)) {
        EqualTopBack(a, b);
      }
    }
  }

  lemma EqualWords(a: u64, b: u64)
    ensures ToLe(a) == ToLe(b) ==> !Less(a, b)
  {
    FromToLe(a);
    FromToLe(b);
    hide ToLe, FromLe;
  }

  /** The bytes of a word from position k on. */
  function Upper(x: u64, k: nat): (s: ByteString)
    requires k <= 8
    ensures |s| == 8 - k
  {
    ToLe(x)[k..]
  }

  predicate ZeroBelow(x: u64, k: nat)
    requires k <= 8
  {
    ToLe(x)[..k] == ZeroBytes(k)
  }

  lemma UpperStep(x: u64, k: nat)
    requires k < 8
    ensures Upper(x, k) == Upper(Shifted(x), k + 1) + [TopByte(x)]
  {
    hide ToLe, Shifted, TopByte;
    ShiftedBytes(x);
    TopByteAt(x);
  }

  lemma ZeroBelowStep(x: u64, k: nat)
    requires k < 8
    ensures ZeroBelow(x, k) ==> ZeroBelow(Shifted(x), k + 1)
  {
    hide ToLe, Shifted;
    ShiftedBytes(x);
    assert ToLe(Shifted(x))[..k + 1] == [0] + ToLe(x)[..k];
    assert [0] + ZeroBytes(k) == ZeroBytes(k + 1);
  }

  lemma BelowSnoc(u: ByteString, c: byte, v: ByteString, d: byte)
    requires |u| == |v|
    ensures Below(u + [c], v + [d]) <==> c < d || (c == d && Below(u, v))
  {
    assert (u + [c])[..|u|] == u && (v + [d])[..|v|] == v;
  }

  lemma OrderEnds(a: u64, b: u64)
    requires ZeroBelow(a, 8) && ZeroBelow(b, 8)
    ensures !Below(Upper(a, 8), Upper(b, 8)) && !Less(a, b)
  {
    hide ToLe, Less;
    assert ToLe(a)[..8] == ToLe(a) && ToLe(b)[..8] == ToLe(b);
    EqualWords(a, b);
  }

  /** Words whose bytes below position k are zero are ordered by the bytes from k on. */
  lemma {:induction false} OrderFrom(a: u64, b: u64, k: nat)
    requires k <= 8 && ZeroBelow(a, k) && ZeroBelow(b, k)
    ensures Below(Upper(a, k), Upper(b, k)) <==> Less(a, b)
    decreases 8 - k
  {
    hide Upper, ZeroBelow, Below, Less, Shifted, TopByte;
    if k == 8 {
      OrderEnds(a, b);
    } else {
      TopOrder(a, b);
      UpperStep(a, k);
      UpperStep(b, k);
      ZeroBelowStep(a, k);
      ZeroBelowStep(b, k);
      OrderFrom(Shifted(a), Shifted(b), k + 1);
      BelowSnoc(Upper(Shifted(a), k + 1), TopByte(a), Upper(Shifted(b), k + 1), TopByte(b));
    }
  }

  /** The digit values order words as the machine does. */
  lemma WordOrder(a: u64, b: u64)
    ensures WordValue(a) < WordValue(b) <==> Less(a, b)
  {
    hide ToLe, Value, Below, Less;
    assert ToLe(a)[0..] == ToLe(a) && ToLe(b)[0..] == ToLe(b);
    OrderFrom(a, b, 0);
    BelowIsLess(ToLe(a), ToLe(b));
  }

  lemma DigitsUnique(d: nat, u: nat, e: nat, v: nat)
    requires d < 256 && e < 256
    ensures d + 256 * u == e + 256 * v ==> d == e && u == v
  {}

  lemma {:induction false} ValueInjective(x: ByteString, y: ByteString)
    requires |x| == |y|
    ensures Value(x) == Value(y) ==> x == y
  {
    if x != [] {
      ValueInjective(x[1..], y[1..]);
      DigitOrder(x[0], y[0]);
      hide Digit;
      DigitsUnique(Digit(x[0]), Value(x[1..]), Digit(y[0]), Value(y[1..]));
      assert x == [x[0]] + x[1..] && y == [y[0]] + y[1..];
    }
  }

  /** A word is determined by its number. */
  lemma WordInjective(a: u64, b: u64)
    ensures WordValue(a) == WordValue(b) <==> a == b
  {
    FromToLe(a);
    FromToLe(b);
    hide ToLe, FromLe, Value;
    ValueInjective(ToLe(a), ToLe(b));
  }

  lemma {:induction false} ValueBound(s: ByteString)
    ensures Value(s) < Power256(|s|)
  {
    if s != [] {
      ValueBound(s[1..]);
    }
  }

  lemma Power256Of8()
    ensures Power256(8) == TWO_64
  {
    assert Power256(2) == 0x1_0000 && Power256(4) == 0x1_0000_0000 && Power256(6) == 0x1_0000_0000_0000;
  }

  lemma WordBound(x: u64)
    ensures WordValue(x) < TWO_64
  {
    hide ToLe;
    ValueBound(ToLe(x));
    Power256Of8();
  }

  lemma {:induction false} ValueOfLittleEndian(n: nat, k: nat)
    ensures Value(LittleEndian(n, k)) == n % Power256(k)
  {
    hide ToByte;
    if k > 0 {
      ValueOfLittleEndian(n / 256, k - 1);
      ByteRoundTrip(n % 256);
      var s := LittleEndian(n, k);
      assert s[0] == ToByte(n % 256) && s[1..] == LittleEndian(n / 256, k - 1);
      ModDigit(n, Power256(k - 1));
    }
  }

  lemma ModDigit(n: nat, p: nat)
    requires p > 0
    ensures n % (256 * p) == n % 256 + 256 * ((n / 256) % p)
  {
    var q, r := (n / 256) / p, (n / 256) % p;
    assert n / 256 == p * q + r;
    assert (256 * p) * q == 256 * (p * q);
    ModUnique(n, 256 * p, q, n % 256 + 256 * r);
  }

  /** The quotient, rounded down; 0 for a zero divisor. */
  function Divide(x: nat, y: nat): (q: nat)
    ensures y > 0 ==> q == x / y && y * q <= x < y * (q + 1)
  {
    if y == 0 then 0
    else
      assert x == y * (x / y) + x % y;
      x / y
  }

  /** The word with a given number, modulo 2^64. */
  function Word(n: nat): u64 {
    FromLe(Le64(n))
  }

  lemma WordRoundTrip(n: nat)
    ensures WordValue(Word(n)) == n % TWO_64
  {
    hide ToLe, FromLe, Value, LittleEndian;
    ToFromLe(Le64(n));
    ValueOfLittleEndian(n, 8);
    Power256Of8();
  }

  /** The bytes of a word are the digits of its number. */
  lemma ToLeIsLe64(x: u64)
    ensures ToLe(x) == Le64(WordValue(x))
  {
    hide ToLe, FromLe, Value, LittleEndian;
    WordBound(x);
    ToFromLe(Le64(WordValue(x)));
    ValueOfLittleEndian(WordValue(x), 8);
    Power256Of8();
    ValueInjective(ToLe(x), Le64(WordValue(x)));
  }
}
