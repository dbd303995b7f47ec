/** Bytes and 64-bit little-endian words. */
module Bytes {
  type byte = bv8
  type ByteString = seq<byte>

  /** The byte with value n, by counting up from 0. */
  function ToByte(n: nat): byte
    requires n < 256
  {
    if n == 0 then 0 else ToByte(n - 1) + 1
  }

  lemma {:induction false} ByteRoundTrip(n: nat)
    requires n < 256
    ensures ToByte(n) as nat == n
  {
    if n > 0 {
      ByteRoundTrip(n - 1);
    }
  }

  lemma ByteInjective(m: nat, n: nat)
    requires m < 256 && n < 256 && ToByte(m) == ToByte(n)
    ensures m == n
  {
    hide ToByte;
    ByteRoundTrip(m);
    ByteRoundTrip(n);
  }

  /** 2^64, the bound on `usize` and `u64` values. */
  const TWO_64: nat := 0x1_0000_0000_0000_0000

  /** The low `k` bytes of `n`, least significant first. */
  function LittleEndian(n: nat, k: nat): (s: ByteString)
    ensures |s| == k
  {
    if k == 0 then [] else [ToByte(n % 256)] + LittleEndian(n / 256, k - 1)
  }

  function Power256(k: nat): (r: nat)
    ensures r >= 1
  {
    if k == 0 then 1 else 256 * Power256(k - 1)
  }

  /** `u64::to_le_bytes` of a length or counter. */
  function Le64(n: nat): (s: ByteString)
    ensures |s| == 8
  {
    LittleEndian(n, 8)
  }

  lemma {:induction false} LittleEndianInjective(m: nat, n: nat, k: nat)
    requires m < Power256(k) && n < Power256(k)
    requires LittleEndian(m, k) == LittleEndian(n, k)
    ensures m == n
  {
    hide ToByte;
    if k > 0 {
      var s, t := LittleEndian(m, k), LittleEndian(n, k);
      assert s[0] == t[0] && s[1..] == t[1..];
      assert s[1..] == LittleEndian(m / 256, k - 1) && t[1..] == LittleEndian(n / 256, k - 1);
      ByteInjective(m % 256, n % 256);
      LittleEndianInjective(m / 256, n / 256, k - 1);
    }
  }

  lemma Le64Injective(m: nat, n: nat)
    requires m < TWO_64 && n < TWO_64 && Le64(m) == Le64(n)
    ensures m == n
  {
    assert Power256(2) == 0x1_0000 && Power256(4) == 0x1_0000_0000 && Power256(6) == 0x1_0000_0000_0000;
    hide LittleEndian;
    LittleEndianInjective(m, n, 8);
  }

  function Pow2(i: nat): (r: nat)
    ensures r >= 1
  {
    if i == 0 then 1 else 2 * Pow2(i - 1)
  }

  /** Bitwise and of two words. */
  function BitAnd(a: nat, b: nat): nat {
    if a == 0 || b == 0 then 0
    else (if a % 2 == 1 && b % 2 == 1 then 1 else 0) + 2 * BitAnd(a / 2, b / 2)
  }

  /** Masking with k ones keeps the remainder modulo 2^k. */
  lemma {:induction false} LowBits(n: nat, k: nat)
    ensures BitAnd(n, Pow2(k) - 1) == n % Pow2(k)
  {
    if k == 0 {
    } else if n == 0 {
      assert 0 % Pow2(k) == 0;
    } else {
      var m := Pow2(k - 1);
      LowBits(n / 2, k - 1);
      ModDouble(n, m);
      assert Pow2(k) == 2 * m && (2 * m - 1) / 2 == m - 1 && (2 * m - 1) % 2 == 1;
      BitAndStep(n, 2 * m - 1);
    }
  }

  lemma BitAndStep(a: nat, b: nat)
    ensures BitAnd(a, b) == (if a % 2 == 1 && b % 2 == 1 then 1 else 0) + 2 * BitAnd(a / 2, b / 2)
  {}

  lemma ModDouble(n: nat, m: nat)
    requires m > 0
    ensures n % (2 * m) == n % 2 + 2 * ((n / 2) % m)
  {
    var q, r := (n / 2) / m, (n / 2) % m;
    assert n / 2 == m * q + r;
    assert (2 * m) * q == 2 * (m * q);
    ModUnique(n, 2 * m, q, n % 2 + 2 * r);
  }

  lemma ModUnique(n: nat, d: nat, q: nat, r: nat)
    requires n == d * q + r && r < d
    ensures n % d == r
  {
    var q', r' := n / d, n % d;
    assert n == d * q' + r';
    MulGap(d, q, q');
    MulGap(d, q', q);
  }

  lemma MulGap(d: nat, x: nat, y: nat)
    ensures x < y ==> d * x + d <= d * y
  {
    if x < y {
      assert d * y == d * x + d * (y - x);
      assert d * (y - x) == d + d * (y - x - 1);
    }
  }

  lemma DivDiv(n: nat, a: nat, b: nat)
    requires a > 0 && b > 0
    ensures a * b > 0 && n / (a * b) == n / a / b
  {
    var q, r := n / a, n % a;
    var q', r' := q / b, q % b;
    assert n == a * q + r && q == b * q' + r';
    MulPositive(a, b);
    assert a * q == (a * b) * q' + a * r' by {
      assert a * (b * q' + r') == a * (b * q') + a * r';
      assert a * (b * q') == (a * b) * q';
    }
    MulGap(a, r', b);
    DivUnique(n, a * b, q', a * r' + r);
  }

  lemma MulPositive(a: nat, b: nat)
    requires a > 0 && b > 0
    ensures a * b > 0
  {}

  lemma DivUnique(n: nat, d: nat, q: nat, r: nat)
    requires n == d * q + r && r < d
    ensures n / d == q
  {
    var q', r' := n / d, n % d;
    assert n == d * q' + r';
    MulGap(d, q, q');
    MulGap(d, q', q);
  }

  /** The byte at position j is the digit of weight 256^j. */
  lemma {:induction false} LittleEndianAt(n: nat, k: nat, j: nat)
    requires j < k
    ensures LittleEndian(n, k)[j] as nat == n / Power256(j) % 256
  {
    hide ToByte, Power256, LittleEndian;
    LittleEndianUnfold(n, k);
    PowerUnfold(j);
    if j == 0 {
      ByteRoundTrip(n % 256);
    } else {
      LittleEndianAt(n / 256, k - 1, j - 1);
      DivDiv(n, 256, Power256(j - 1));
    }
  }

  lemma LittleEndianUnfold(n: nat, k: nat)
    requires k > 0
    ensures LittleEndian(n, k) == [ToByte(n % 256)] + LittleEndian(n / 256, k - 1)
  {
    hide ToByte;
  }

  lemma PowerUnfold(j: nat)
    ensures j == 0 ==> Power256(j) == 1
    ensures j > 0 ==> Power256(j) == 256 * Power256(j - 1)
  {}

  function ZeroBytes(n: nat): (s: ByteString)
    ensures |s| == n && forall i :: 0 <= i < n ==> s[i] == 0
  {
    seq(n, _ => 0)
  }
}
