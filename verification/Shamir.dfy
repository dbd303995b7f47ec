/** Shamir sharing of a 64-byte secret (`src/shamir.rs`): the loops of the source,
    proved against the field and polynomial specifications, then the round trip
    and perfect hiding. */
module Shamir {
  import opened Bytes
  import opened Gf256
  import opened Polynomial
  import opened Wrappers

  const SECRET_LEN := 64
  const LANE := 32

  datatype Share = Share(index: bv8, data: seq<bv8>)

  // ----- field arithmetic, as loops ------------------------------------------------

  /** The 16-bit accumulator update of the product loop: XOR in `x` under the mask of bit `i` of `y`. */
  function Accumulate(result: bv16, x: bv16, y: bv16, i: nat): bv16
    requires i < 8
  {
    var mask := 0 - ((y >> i) & 1);
    result ^ (x & mask)
  }

  /** The 16-bit doubling of the product loop, reducing by POLY under the mask of the high bit. */
  function DoubleAndReduce(x: bv16): bv16 {
    var reduceMask := 0 - ((x >> 7) & 1);
    (x << 1) ^ (POLY & reduceMask)
  }

  function Word(a: bv8): bv16 {
    a as bv16
  }

  lemma WordBit(b: bv8, i: nat)
    requires i < 8
    ensures (b >> i) & 1 == 0 ==> (Word(b) >> i) & 1 == 0
    ensures (b >> i) & 1 == 1 ==> (Word(b) >> i) & 1 == 1
    ensures (b >> i) & 1 == 0 || (b >> i) & 1 == 1
  {
    if i == 0 {} else if i == 1 {} else if i == 2 {} else if i == 3 {}
    else if i == 4 {} else if i == 5 {} else if i == 6 {} else {}
  }

  lemma AccumulateByBit(r: bv8, x: bv8, y: bv16, i: nat)
    requires i < 8
    ensures (y >> i) & 1 == 0 ==> Accumulate(Word(r), Word(x), y, i) == Word(r)
    ensures (y >> i) & 1 == 1 ==> Accumulate(Word(r), Word(x), y, i) == Word(Add(r, x))
  {}

  lemma SelectByBit(x: bv8, b: bv8, i: nat)
    requires i < 8
    ensures (b >> i) & 1 == 0 ==> Select(x, b, i) == 0
    ensures (b >> i) & 1 == 1 ==> Select(x, b, i) == x
  {}

  lemma AccumulateStep(r: bv8, x: bv8, b: bv8, i: nat)
    requires i < 8
    ensures Accumulate(Word(r), Word(x), Word(b), i) == Word(Add(r, Select(x, b, i)))
  {
    hide Add, Select, Word, Accumulate;
    SelectByBit(x, b, i);
    WordBit(b, i);
    AccumulateByBit(r, x, Word(b), i);
    AddZero(r);
  }

  lemma DoubleStep(x: bv8)
    ensures DoubleAndReduce(Word(x)) == Word(TimesX(x))
  {}

  method GfMul(a: bv8, b: bv8) returns (r: bv8)
    ensures r == Mul(a, b)
  {
    hide Accumulate, DoubleAndReduce, Word, Add, Select, TimesX;
    var result, x, y := Word(0), Word(a), Word(b);
    for i := 0 to 8
      invariant x == Word(TimesXPow(a, i))
      invariant y == Word(b)
      invariant result == Word(Partial(a, b, i))
    {
      AccumulateStep(Partial(a, b, i), TimesXPow(a, i), b, i);
      DoubleStep(TimesXPow(a, i));
      result := Accumulate(result, x, y, i);
      x := DoubleAndReduce(x);
    }
    r := LowByte(result);
    LowByteOfWord(Mul(a, b));
  }

  /** The truncating cast `as u8`. */
  function LowByte(w: bv16): bv8 {
    (w & 0xFF) as bv8
  }

  lemma LowByteOfWord(a: bv8)
    ensures LowByte(Word(a)) == a
  {}

  /** 254 has every bit set except bit 0. */
  lemma ExponentBit(i: nat)
    requires i < 8
    ensures ((254 as bv8) >> i) & 1 == if i == 0 then 0 else 1
  {
    if i == 0 {} else if i == 1 {} else if i == 2 {} else if i == 3 {}
    else if i == 4 {} else if i == 5 {} else if i == 6 {} else {}
  }

  /** `bit ? product : acc`, by masking. */
  function Choose(acc: bv8, product: bv8, bit: bv8): bv8 {
    var mask := 0 - bit;
    (acc & !mask) | (product & mask)
  }

  lemma ChooseByBit(acc: bv8, product: bv8)
    ensures Choose(acc, product, 0) == acc && Choose(acc, product, 1) == product
  {}

  method GfInv(a: bv8) returns (r: bv8)
    ensures r == Inv(a)
  {
    hide Mul, Choose, Pow;
    var acc: bv8 := 1;
    var base := a;
    PowStart(a);
    for i := 0 to 8
      invariant base == Pow(a, Pow2(i))
      invariant acc == Pow(a, if i == 0 then 0 else Pow2(i) - 2)
    {
      var bit := (254 as bv8 >> i) & 1;
      ExponentBit(i);
      var product := GfMul(acc, base);
      ChooseByBit(acc, product);
      PowAdd(a, if i == 0 then 0 else Pow2(i) - 2, Pow2(i));
      PowAdd(a, Pow2(i), Pow2(i));
      acc := Choose(acc, product, bit);
      base := GfMul(base, base);
    }
    assert Pow2(2) == 4 && Pow2(4) == 16 && Pow2(6) == 64 && Pow2(8) == 256;
    return acc;
  }

  lemma PowStart(a: bv8)
    ensures Pow(a, 0) == 1 && Pow(a, 1) == a
  {
    hide Mul;
    MulUnits(a);
    assert Pow(a, 1) == Mul(a, Pow(a, 0));
  }

  /** (acc + p * (c + x * e)) == (acc + c * p) + (p * x) * e */
  lemma RingHorner(acc: bv8, p: bv8, c: bv8, x: bv8, e: bv8)
    ensures Add(acc, Mul(p, Add(c, Mul(x, e)))) == Add(Add(acc, Mul(c, p)), Mul(Mul(p, x), e))
  {
    hide Add, Mul;
    MulDistRight(p, c, Mul(x, e));
    MulComm(p, c);
    MulAssoc(p, x, e);
    AddAssoc(acc, Mul(c, p), Mul(Mul(p, x), e));
  }

  lemma AddIsXor(a: bv8, b: bv8)
    ensures a ^ b == Add(a, b)
  {}

  method GfEval(coeffs: seq<bv8>, x: bv8) returns (result: bv8)
    ensures result == Eval(coeffs, x)
  {
    hide Add, Mul;
    result := 0;
    var xPow: bv8 := 1;
    MulUnits(Eval(coeffs, x));
    AddZero(Eval(coeffs, x));
    assert coeffs[0..] == coeffs;
    for i := 0 to |coeffs|
      invariant Eval(coeffs, x) == Add(result, Mul(xPow, Eval(coeffs[i..], x)))
    {
      assert coeffs[i..][1..] == coeffs[i + 1..];
      RingHorner(result, xPow, coeffs[i], x, Eval(coeffs[i + 1..], x));
      var term := GfMul(coeffs[i], xPow);
      AddIsXor(result, term);
      result := result ^ term;
      xPow := GfMul(xPow, x);
    }
    MulUnits(xPow);
    AddZero(result);
  }

  // ----- splitting -------------------------------------------------------------------

  /** The sharing polynomial of one byte lane: the secret byte, then t - 1 random bytes. */
  function Coefficients(secret: seq<bv8>, rng: seq<bv8>, t: nat, pos: nat): (c: Poly)
    requires |secret| == SECRET_LEN && |rng| == SECRET_LEN * LANE
    requires 1 <= t <= LANE && pos < SECRET_LEN
    ensures |c| == t
  {
    [secret[pos]] + rng[pos * LANE + 1..pos * LANE + t]
  }

  function ShareOf(secret: seq<bv8>, rng: seq<bv8>, t: nat, x: bv8): (s: Share)
    requires |secret| == SECRET_LEN && |rng| == SECRET_LEN * LANE && 1 <= t <= LANE
    ensures |s.data| == SECRET_LEN && s.index == x
    ensures forall pos :: 0 <= pos < SECRET_LEN ==> s.data[pos] == Eval(Coefficients(secret, rng, t, pos), x)
  {
    Share(x, seq(SECRET_LEN, pos requires 0 <= pos < SECRET_LEN => Eval(Coefficients(secret, rng, t, pos), x)))
  }

  /** The x-coordinate of the share at position `i`. */
  function IndexOf(i: nat): bv8
    requires i < 255
  {
    ToByte(i + 1)
  }

  /** Honest share indices are distinct and avoid 0, where the secret itself would be. */
  lemma IndexOfInjective(i: nat, j: nat)
    requires i < 255 && j < 255
    ensures IndexOf(i) == IndexOf(j) ==> i == j
    ensures IndexOf(i) != 0
  {
    hide ToByte;
    if IndexOf(i) == IndexOf(j) {
      ByteInjective(i + 1, j + 1);
    }
    ZeroByte();
    if IndexOf(i) == 0 {
      ByteInjective(i + 1, 0);
    }
  }

  /** The share at position i has the index i + 1. */
  lemma IndexOfIs(i: nat)
    requires i < 255
    ensures IndexOf(i) as nat == i + 1
  {
    ByteRoundTrip(i + 1);
  }

  /** rng[32 * pos + j] * x^j, summed over 1 <= j < n. */
  function RandomSum(rng: seq<bv8>, pos: nat, x: bv8, n: nat): bv8
    requires |rng| == 64 * 32 && pos < 64 && 1 <= n <= 32
  {
    if n == 1 then 0 else Add(RandomSum(rng, pos, x, n - 1), Mul(rng[32 * pos + (n - 1)], Pow(x, n - 1)))
  }

  lemma {:induction false} CoefficientsSum(secret: seq<bv8>, rng: seq<bv8>, t: nat, pos: nat, x: bv8, n: nat)
    requires |secret| == 64 && |rng| == 64 * 32 && 1 <= n <= t <= 32 && pos < 64
    ensures PowerSum(Coefficients(secret, rng, t, pos), x, n) == Add(secret[pos], RandomSum(rng, pos, x, n))
  {
    hide Add, Mul, Pow;
    var p := Coefficients(secret, rng, t, pos);
    if n == 1 {
      PowZero(x);
      assert PowerSum(p, x, 0) == 0;
      MulUnits(p[0]);
      AddZero(p[0]);
    } else {
      CoefficientsSum(secret, rng, t, pos, x, n - 1);
      assert p[n - 1] == rng[32 * pos + (n - 1)];
      AddAssoc(secret[pos], RandomSum(rng, pos, x, n - 1), Mul(p[n - 1], Pow(x, n - 1)));
    }
  }

  lemma PowZero(x: bv8)
    ensures Pow(x, 0) == 1
  {}

  /** Byte pos of the share at x is the secret byte plus the random bytes of its lane times the powers of x. */
  lemma ShareByte(secret: seq<bv8>, rng: seq<bv8>, t: nat, x: bv8, pos: nat)
    requires |secret| == 64 && |rng| == 64 * 32 && 1 <= t <= 32 && pos < 64
    ensures ShareOf(secret, rng, t, x).data[pos] == Add(secret[pos], RandomSum(rng, pos, x, t))
  {
    hide Add, Mul, Pow, Eval;
    EvalIsSum(Coefficients(secret, rng, t, pos), x);
    CoefficientsSum(secret, rng, t, pos, x, t);
  }

  lemma ZeroByte()
    ensures ToByte(0) == 0
  {}

  /** The first `done` bytes of a share are filled in. */
  ghost predicate FilledTo(s: Share, full: Share, done: nat)
    requires |full.data| == SECRET_LEN && done <= SECRET_LEN
  {
    s.index == full.index && |s.data| == SECRET_LEN && s.data[..done] == full.data[..done]
  }

  /** `split` refuses the request, gives shares, or aborts on an index out of bounds. */
  datatype SplitResult = Rejected | Panics | Shares(shares: seq<Share>)

  /** `getrandom` is the input `rng`.  Thresholds above the 32 bytes of the coefficient buffer pass the parameter
      check and abort. */
  method Split(secret: seq<bv8>, n: nat, t: nat, rng: seq<bv8>) returns (r: SplitResult)
    requires |secret| == SECRET_LEN && |rng| == SECRET_LEN * LANE
    requires n <= 255 && t <= 255
    ensures r.Rejected? <==> n < 1 || t < 2 || t > n
    ensures r.Panics? <==> 2 <= t <= n && t > LANE
    ensures r.Shares? ==> t <= LANE && |r.shares| == n
                          && forall i :: 0 <= i < n ==> r.shares[i] == ShareOf(secret, rng, t, IndexOf(i))
    ensures r.Shares? ==> forall i :: 0 <= i < n ==> r.shares[i].index as nat == i + 1
  {
    hide Eval, Coefficients, IndexOf;
    if n < 1 || t < 2 || t > n {
      return Rejected;
    }
    var shares := seq(n, i requires 0 <= i < n => Share(IndexOf(i), seq(SECRET_LEN, _ => 0)));
    ghost var full := if t <= LANE then AllShares(secret, n, t, rng) else shares;
    for pos := 0 to SECRET_LEN
      invariant |shares| == n && (pos > 0 ==> t <= LANE)
      invariant forall i :: 0 <= i < n ==> FilledTo(shares[i], full[i], pos)
    {
      var coeffs := BuildCoefficients(secret, rng, t, pos);
      if coeffs.None? {
        return Panics;
      }
      shares := FillLane(shares, coeffs.value, pos, full);
    }
    forall i | 0 <= i < n
      ensures shares[i] == full[i] && shares[i].index as nat == i + 1
    {
      IndexOfIs(i);
      assert FilledTo(shares[i], full[i], SECRET_LEN);
      assert shares[i].data[..SECRET_LEN] == shares[i].data && full[i].data[..SECRET_LEN] == full[i].data;
    }
    return Shares(shares);
  }

  ghost function AllShares(secret: seq<bv8>, n: nat, t: nat, rng: seq<bv8>): (full: seq<Share>)
    requires |secret| == SECRET_LEN && |rng| == SECRET_LEN * LANE && n <= 255 && 1 <= t <= LANE
    ensures |full| == n && forall i :: 0 <= i < n ==> full[i] == ShareOf(secret, rng, t, IndexOf(i))
  {
    seq(n, i requires 0 <= i < n => ShareOf(secret, rng, t, IndexOf(i)))
  }

  /** The smallest documented request that aborts. */
  method SplitPanicsAt33(secret: seq<bv8>, rng: seq<bv8>) returns (r: SplitResult)
    requires |secret| == SECRET_LEN && |rng| == SECRET_LEN * LANE
    ensures r == Panics
  {
    r := Split(secret, 33, 33, rng);
  }

  /** The inner loop of Split: byte `pos` of every share. */
  method FillLane(input: seq<Share>, coeffs: Poly, pos: nat, ghost full: seq<Share>) returns (shares: seq<Share>)
    requires pos < SECRET_LEN && |input| == |full| && WellSized(full)
    requires forall i :: 0 <= i < |full| ==> FilledTo(input[i], full[i], pos)
    requires forall i :: 0 <= i < |full| ==> full[i].data[pos] == Eval(coeffs, full[i].index)
    ensures |shares| == |full|
    ensures forall i :: 0 <= i < |full| ==> FilledTo(shares[i], full[i], pos + 1)
  {
    hide Eval;
    shares := input;
    for k := 0 to |shares|
      invariant |shares| == |full|
      invariant forall i :: 0 <= i < k ==> FilledTo(shares[i], full[i], pos + 1)
      invariant forall i :: k <= i < |full| ==> FilledTo(shares[i], full[i], pos)
    {
      var v := GfEval(coeffs, shares[k].index);
      var s := shares[k].(data := shares[k].data[pos := v]);
      assert s.data[..pos + 1] == s.data[..pos] + [v] == full[k].data[..pos] + [v] == full[k].data[..pos + 1];
      shares := shares[k := s];
    }
  }

  /** The coefficient loop of one byte; `None` is the abort on an index past the 32-byte buffer. */
  method BuildCoefficients(secret: seq<bv8>, rng: seq<bv8>, t: nat, pos: nat) returns (c: Option<Poly>)
    requires |secret| == SECRET_LEN && |rng| == SECRET_LEN * LANE
    requires 1 <= t && pos < SECRET_LEN
    ensures c.None? <==> t > LANE
    ensures c.Some? ==> c.value == Coefficients(secret, rng, t, pos)
  {
    var coeffs := new bv8[LANE](_ => 0);
    coeffs[0] := secret[pos];
    for j := 1 to t
      invariant j <= LANE
      invariant coeffs[0] == secret[pos]
      invariant forall k :: 1 <= k < j ==> coeffs[k] == rng[pos * LANE + k]
    {
      if j >= coeffs.Length {
        return None;
      }
      coeffs[j] := rng[pos * LANE + j];
    }
    c := Some(coeffs[..t]);
  }

  // ----- reconstruction ----------------------------------------------------------------

  function Indices(shares: seq<Share>): (xs: seq<bv8>)
    ensures |xs| == |shares| && forall i :: 0 <= i < |xs| ==> xs[i] == shares[i].index
  {
    seq(|shares|, i requires 0 <= i < |shares| => shares[i].index)
  }

  ghost predicate WellSized(shares: seq<Share>) {
    forall i :: 0 <= i < |shares| ==> |shares[i].data| == SECRET_LEN
  }

  /** Byte `pos` of every share. */
  ghost function LaneOf(shares: seq<Share>, pos: nat): (ys: seq<bv8>)
    requires WellSized(shares) && pos < SECRET_LEN
    ensures |ys| == |shares| && forall i :: 0 <= i < |ys| ==> ys[i] == shares[i].data[pos]
  {
    seq(|shares|, i requires 0 <= i < |shares| => shares[i].data[pos])
  }

  /** The interpolated value at 0 of every lane. */
  ghost function Interpolated(shares: seq<Share>): (s: seq<bv8>)
    requires WellSized(shares)
    ensures |s| == SECRET_LEN
  {
    seq(SECRET_LEN, pos requires 0 <= pos < SECRET_LEN =>
      Lagrange(Indices(shares), LaneOf(shares, pos), |shares|, 0))
  }

  lemma InterpolatedAt(shares: seq<Share>, pos: nat)
    requires WellSized(shares) && pos < SECRET_LEN
    ensures Interpolated(shares)[pos] == Lagrange(Indices(shares), LaneOf(shares, pos), |shares|, 0)
  {}

  method HasDuplicate(shares: seq<Share>) returns (dup: bool)
    ensures dup <==> !Distinct(Indices(shares))
  {
    var k := |shares|;
    ghost var xs := Indices(shares);
    for i := 0 to k
      invariant forall a, b :: 0 <= a < i && a < b < k ==> xs[a] != xs[b]
    {
      for j := i + 1 to k
        invariant forall b :: i < b < j ==> xs[i] != xs[b]
      {
        if shares[i].index == shares[j].index {
          assert xs[i] == xs[j];
          return true;
        }
      }
    }
    return false;
  }

  /** The numerator and denominator of the basis polynomial of share i at 0. */
  method BasisAtZero(shares: seq<Share>, i: nat) returns (num: bv8, den: bv8)
    requires i < |shares|
    ensures num == Prod(Without(Indices(shares), i), 0)
    ensures den == Prod(Without(Indices(shares), i), shares[i].index)
  {
    hide Mul, Add;
    ghost var xs := Indices(shares);
    num, den := 1, 1;
    for j := 0 to |shares|
      invariant num == Prod(Without(xs[..j], i), 0)
      invariant den == Prod(Without(xs[..j], i), xs[i])
    {
      WithoutStep(xs, i, j);
      if i != j {
        ProdSnoc(Without(xs[..j], i), xs[j], 0);
        ProdSnoc(Without(xs[..j], i), xs[j], xs[i]);
        AddZero(xs[j]);
        AddIsXor(shares[i].index, shares[j].index);
        num := GfMul(num, shares[j].index);
        den := GfMul(den, shares[i].index ^ shares[j].index);
      }
    }
    assert xs[..|shares|] == xs;
  }

  lemma WithoutStep(xs: seq<bv8>, i: nat, j: nat)
    requires i < |xs| && j < |xs|
    ensures Without(xs[..j + 1], i) == if i == j then Without(xs[..j], i) else Without(xs[..j], i) + [xs[j]]
  {}

  lemma ProdSnoc(zs: seq<bv8>, z: bv8, x: bv8)
    ensures Prod(zs + [z], x) == Mul(Prod(zs, x), Add(x, z))
  {
    hide Mul, Add;
    assert (zs + [z])[..|zs|] == zs;
  }

  /** The exit on a zero inverse is never taken: `None` means no shares or a repeated index. */
  method Reconstruct(shares: seq<Share>) returns (r: Option<seq<bv8>>)
    requires WellSized(shares)
    ensures r.None? <==> shares == [] || !Distinct(Indices(shares))
    ensures r.Some? ==> r.value == Interpolated(shares)
  {
    if shares == [] {
      return None;
    }
    var dup := HasDuplicate(shares);
    if dup {
      return None;
    }
    r := ReconstructLanes(shares);
  }

  /** The loop over the byte positions. */
  method ReconstructLanes(shares: seq<Share>) returns (r: Option<seq<bv8>>)
    requires WellSized(shares) && Distinct(Indices(shares))
    ensures r == Some(Interpolated(shares))
  {
    hide Lagrange, LaneOf, Distinct, Interpolated, Indices;
    var secret := ZeroBytes(SECRET_LEN);
    for pos := 0 to SECRET_LEN
      invariant |secret| == SECRET_LEN
      invariant secret[..pos] == Interpolated(shares)[..pos]
    {
      var value := LaneValue(shares, pos);
      if value.None? {
        assert false;
        return None;
      }
      InterpolatedAt(shares, pos);
      secret := secret[pos := value.value];
      assert secret[..pos + 1] == secret[..pos] + [value.value];
    }
    assert secret == secret[..SECRET_LEN] && Interpolated(shares) == Interpolated(shares)[..SECRET_LEN];
    return Some(secret);
  }

  /** The loop over the shares for one byte; `None` is the exit on a zero inverse. */
  method LaneValue(shares: seq<Share>, pos: nat) returns (r: Option<bv8>)
    requires WellSized(shares) && Distinct(Indices(shares)) && pos < SECRET_LEN
    ensures r == Some(Lagrange(Indices(shares), LaneOf(shares, pos), |shares|, 0))
  {
    hide Mul, Add, Prod, Inv;
    ghost var xs, ys := Indices(shares), LaneOf(shares, pos);
    var value: bv8 := 0;
    for i := 0 to |shares|
      invariant value == Lagrange(xs, ys, i, 0)
    {
      var num, den := BasisAtZero(shares, i);
      var denInv := GfInv(den);
      DenominatorNonzero(xs, i);
      if denInv == 0 {
        assert false;
        return None;
      }
      var basis := GfMul(num, denInv);
      var term := GfMul(shares[i].data[pos], basis);
      AddIsXor(value, term);
      value := value ^ term;
    }
    return Some(value);
  }

  // ----- the round trip -------------------------------------------------------------------

  /** Any list of at least t shares of one splitting, in any order, interpolates to the secret.
      The indices need only be distinct: the share index 0 is covered as well. */
  lemma RoundTrip(secret: seq<bv8>, rng: seq<bv8>, t: nat, shares: seq<Share>)
    requires |secret| == SECRET_LEN && |rng| == SECRET_LEN * LANE && 1 <= t <= LANE
    requires forall i :: 0 <= i < |shares| ==> shares[i] == ShareOf(secret, rng, t, shares[i].index)
    requires Distinct(Indices(shares)) && |shares| >= t
    ensures WellSized(shares) && Interpolated(shares) == secret
  {
    hide Lagrange, Eval;
    var xs := Indices(shares);
    forall pos | 0 <= pos < SECRET_LEN
      ensures Interpolated(shares)[pos] == secret[pos]
    {
      var p := Coefficients(secret, rng, t, pos);
      assert LaneOf(shares, pos) == Values(p, xs);
      LagrangeRecovers(p, xs, 0);
      EvalAtZero(p);
    }
  }

  /** The two operations end to end: split, keep any t or more of the shares in any order, reconstruct. */
  method SplitAndReconstruct(secret: seq<bv8>, n: nat, t: nat, rng: seq<bv8>, picks: seq<nat>)
    returns (r: Option<seq<bv8>>)
    requires |secret| == SECRET_LEN && |rng| == SECRET_LEN * LANE
    requires 2 <= t <= n <= 255 && t <= LANE
    requires |picks| >= t && forall i :: 0 <= i < |picks| ==> picks[i] < n
    requires forall i, j :: 0 <= i < j < |picks| ==> picks[i] != picks[j]
    ensures r == Some(secret)
  {
    hide Interpolated, IndexOf, Eval, Coefficients;
    var all := Split(secret, n, t, rng);
    var shares := seq(|picks|, i requires 0 <= i < |picks| => all.shares[picks[i]]);
    assert Distinct(Indices(shares)) by {
      forall i, j | 0 <= i < j < |picks|
        ensures Indices(shares)[i] != Indices(shares)[j]
      {
        IndexOfInjective(picks[i], picks[j]);
      }
    }
    RoundTrip(secret, rng, t, shares);
    r := Reconstruct(shares);
  }

  // ----- perfect hiding ------------------------------------------------------------------------

  /** The coefficients `c` explain the bytes `ys` at the indices `xs` with secret byte `s`. */
  ghost predicate Explains(c: Poly, t: nat, s: bv8, xs: seq<bv8>, ys: seq<bv8>) {
    |c| == t && t >= 1 && c[0] == s && Values(c, xs) == ys
  }

  lemma ExplainsAtZero(c: Poly, t: nat, s: bv8, xs: seq<bv8>, ys: seq<bv8>)
    requires |xs| == |ys| && |c| == t >= 1
    ensures Explains(c, t, s, xs, ys) <==> Values(c, [0] + xs) == [s] + ys
  {
    hide Eval;
    EvalAtZero(c);
    var v := Values(c, [0] + xs);
    assert v == [Eval(c, 0)] + Values(c, xs);
    if v == [s] + ys {
      assert ys == v[1..] == Values(c, xs);
      assert v[0] == s;
    }
  }

  lemma DistinctWithZero(xs: seq<bv8>)
    requires Distinct(xs) && 0 !in xs
    ensures Distinct([0] + xs)
  {}

  /** With t - 1 shares, every candidate secret byte is explained by exactly one coefficient vector. */
  lemma HidingExactlyOne(t: nat, s: bv8, xs: seq<bv8>, ys: seq<bv8>) returns (c: Poly)
    requires t >= 1 && |xs| == |ys| == t - 1 && Distinct(xs) && 0 !in xs
    ensures Explains(c, t, s, xs, ys)
    ensures forall c' :: Explains(c', t, s, xs, ys) ==> c' == c
  {
    hide Eval;
    var zs := [0] + xs;
    DistinctWithZero(xs);
    c := Interpolant(zs, [s] + ys);
    ExplainsAtZero(c, t, s, xs, ys);
    forall c' | Explains(c', t, s, xs, ys)
      ensures c' == c
    {
      ExplainsAtZero(c', t, s, xs, ys);
      assert forall i :: 0 <= i < |zs| ==> Eval(c, zs[i]) == Values(c, zs)[i] == Values(c', zs)[i] == Eval(c', zs[i]);
      AgreeingPolynomialsEqual(c, c', zs);
    }
  }

  /** With fewer than t shares, every candidate secret byte is explained. */
  lemma HidingAtLeastOne(t: nat, s: bv8, xs: seq<bv8>, ys: seq<bv8>) returns (c: Poly)
    requires |xs| == |ys| < t && Distinct(xs) && 0 !in xs
    ensures Explains(c, t, s, xs, ys)
  {
    hide Eval;
    var d := HidingExactlyOne(|xs| + 1, s, xs, ys);
    c := d + ZeroBytes(t - |d|);
    forall i | 0 <= i < |xs|
      ensures Eval(c, xs[i]) == ys[i]
    {
      EvalPad(d, t - |d|, xs[i]);
      assert Values(d, xs)[i] == ys[i];
    }
  }

  /** A polynomial of length t with constant term `delta` that vanishes on xs. */
  ghost function Shift(t: nat, delta: bv8, xs: seq<bv8>): (d: Poly)
    requires |xs| < t
    ensures |d| == t
  {
    LagrangePoly([0] + xs, [delta] + ZeroBytes(|xs|), |xs| + 1) + ZeroBytes(t - |xs| - 1)
  }

  lemma ShiftVanishes(t: nat, delta: bv8, xs: seq<bv8>)
    requires |xs| < t && Distinct(xs) && 0 !in xs
    ensures Shift(t, delta, xs)[0] == delta
    ensures forall i :: 0 <= i < |xs| ==> Eval(Shift(t, delta, xs), xs[i]) == 0
  {
    hide Eval, Lagrange, LagrangePoly;
    DistinctWithZero(xs);
    var zs, ys := [0] + xs, [delta] + ZeroBytes(|xs|);
    var p := LagrangePoly(zs, ys, |zs|);
    forall m | 0 <= m < |zs|
      ensures Eval(Shift(t, delta, xs), zs[m]) == ys[m]
    {
      EvalLagrangePoly(zs, ys, |zs|, zs[m]);
      LagrangeHits(zs, ys, |zs|, m);
      EvalPad(p, t - |xs| - 1, zs[m]);
    }
    assert zs[0] == 0 && ys[0] == delta;
    EvalAtZero(Shift(t, delta, xs));
    forall i | 0 <= i < |xs|
      ensures Eval(Shift(t, delta, xs), xs[i]) == 0
    {
      assert zs[i + 1] == xs[i] && ys[i + 1] == 0;
    }
  }

  /** The random bytes that turn a sharing of `secret` into a sharing of `secret'` with the same shares at xs. */
  ghost function Mask(secret: seq<bv8>, secret': seq<bv8>, t: nat, xs: seq<bv8>): (m: seq<bv8>)
    requires |secret| == |secret'| == SECRET_LEN && |xs| < t <= LANE
    ensures |m| == SECRET_LEN * LANE
  {
    seq(SECRET_LEN * LANE, k requires 0 <= k < SECRET_LEN * LANE =>
      if k % LANE < t then Shift(t, Add(secret[k / LANE], secret'[k / LANE]), xs)[k % LANE] else 0)
  }

  lemma MaskedCoefficients(secret: seq<bv8>, secret': seq<bv8>, rng: seq<bv8>, t: nat, xs: seq<bv8>, pos: nat)
    requires |secret| == |secret'| == SECRET_LEN && |rng| == SECRET_LEN * LANE
    requires |xs| < t <= LANE && Distinct(xs) && 0 !in xs && pos < SECRET_LEN
    ensures Coefficients(secret', PolyAdd(rng, Mask(secret, secret', t, xs)), t, pos) ==
            PolyAdd(Coefficients(secret, rng, t, pos), Shift(t, Add(secret[pos], secret'[pos]), xs))
  {
    hide Add, Shift;
    var delta := Add(secret[pos], secret'[pos]);
    ShiftVanishes(t, delta, xs);
    AddCancel(secret[pos], secret'[pos]);
    hide Mask;
    var mask := Mask(secret, secret', t, xs);
    var c := Coefficients(secret', PolyAdd(rng, mask), t, pos);
    var d := PolyAdd(Coefficients(secret, rng, t, pos), Shift(t, delta, xs));
    forall j | 0 <= j < t
      ensures c[j] == d[j]
    {
      if j > 0 {
        MaskAt(secret, secret', t, xs, pos, j);
        assert c[j] == PolyAdd(rng, mask)[pos * LANE + j];
      }
    }
  }

  lemma MaskAt(secret: seq<bv8>, secret': seq<bv8>, t: nat, xs: seq<bv8>, pos: nat, j: nat)
    requires |secret| == |secret'| == SECRET_LEN && |xs| < t <= LANE && pos < SECRET_LEN && j < t
    ensures Mask(secret, secret', t, xs)[pos * LANE + j] == Shift(t, Add(secret[pos], secret'[pos]), xs)[j]
  {
    hide Add, Shift;
    var k := pos * LANE + j;
    assert k / LANE == pos && k % LANE == j;
  }

  /** Perfect hiding of the whole 64-byte secret.  For any fewer than t distinct nonzero indices and any
      two secrets there is one mask such that, for every random buffer, the shares of `secret` under `rng`
      are the shares of `secret'` under `rng` XOR mask.  Masking is its own inverse, so every view of fewer
      than t shares arises from exactly as many random buffers under either secret. */
  lemma SharesHideSecret(secret: seq<bv8>, secret': seq<bv8>, t: nat, xs: seq<bv8>)
    requires |secret| == |secret'| == SECRET_LEN
    requires |xs| < t <= LANE && Distinct(xs) && 0 !in xs
    ensures var mask := Mask(secret, secret', t, xs);
      forall rng: seq<bv8> {:trigger PolyAdd(rng, mask)} | |rng| == SECRET_LEN * LANE ::
        && PolyAdd(PolyAdd(rng, mask), mask) == rng
        && forall i :: 0 <= i < |xs| ==>
             ShareOf(secret, rng, t, xs[i]) == ShareOf(secret', PolyAdd(rng, mask), t, xs[i])
  {
    hide Add, Eval, Shift, Mask, Coefficients;
    var mask := Mask(secret, secret', t, xs);
    forall rng: seq<bv8> {:trigger PolyAdd(rng, mask)} | |rng| == SECRET_LEN * LANE
      ensures PolyAdd(PolyAdd(rng, mask), mask) == rng
      ensures forall i :: 0 <= i < |xs| ==>
                ShareOf(secret, rng, t, xs[i]) == ShareOf(secret', PolyAdd(rng, mask), t, xs[i])
    {
      AddTwice(rng, mask);
      forall i | 0 <= i < |xs|
        ensures ShareOf(secret, rng, t, xs[i]) == ShareOf(secret', PolyAdd(rng, mask), t, xs[i])
      {
        SameShare(secret, secret', rng, t, xs, i);
      }
    }
  }

  lemma AddTwice(a: seq<bv8>, m: seq<bv8>)
    requires |a| == |m|
    ensures PolyAdd(PolyAdd(a, m), m) == a
  {
    hide Add;
    forall i | 0 <= i < |a|
      ensures PolyAdd(PolyAdd(a, m), m)[i] == a[i]
    {
      AddComm(a[i], m[i]);
      AddComm(Add(m[i], a[i]), m[i]);
      AddCancel(m[i], a[i]);
    }
  }

  lemma SameShare(secret: seq<bv8>, secret': seq<bv8>, rng: seq<bv8>, t: nat, xs: seq<bv8>, i: nat)
    requires |secret| == |secret'| == SECRET_LEN && |rng| == SECRET_LEN * LANE
    requires |xs| < t <= LANE && Distinct(xs) && 0 !in xs && i < |xs|
    ensures ShareOf(secret, rng, t, xs[i]) ==
            ShareOf(secret', PolyAdd(rng, Mask(secret, secret', t, xs)), t, xs[i])
  {
    hide Add, Eval, Shift, Mask, Coefficients;
    var rng' := PolyAdd(rng, Mask(secret, secret', t, xs));
    var a, b := ShareOf(secret, rng, t, xs[i]), ShareOf(secret', rng', t, xs[i]);
    forall pos | 0 <= pos < SECRET_LEN
      ensures a.data[pos] == b.data[pos]
    {
      var delta := Add(secret[pos], secret'[pos]);
      MaskedCoefficients(secret, secret', rng, t, xs, pos);
      ShiftVanishes(t, delta, xs);
      EvalAdd(Coefficients(secret, rng, t, pos), Shift(t, delta, xs), xs[i]);
      AddZero(a.data[pos]);
    }
  }

  // ----- what the documentation says and reconstruction does not do -----------------------------------

  /** The shares of one splitting at the given indices. */
  ghost function SharesAt(secret: seq<bv8>, rng: seq<bv8>, t: nat, xs: seq<bv8>): (shares: seq<Share>)
    requires |secret| == SECRET_LEN && |rng| == SECRET_LEN * LANE && 1 <= t <= LANE
    ensures |shares| == |xs| && WellSized(shares) && Indices(shares) == xs
    ensures forall i :: 0 <= i < |xs| ==> shares[i] == ShareOf(secret, rng, t, xs[i])
  {
    seq(|xs|, i requires 0 <= i < |xs| => ShareOf(secret, rng, t, xs[i]))
  }

  /** Too few shares do not tell the secrets apart: every other secret has a splitting with the very same shares. */
  lemma TooFewSharesUnnoticed(secret: seq<bv8>, rng: seq<bv8>, t: nat, xs: seq<bv8>, secret': seq<bv8>)
    returns (rng': seq<bv8>)
    requires |secret| == |secret'| == SECRET_LEN && |rng| == SECRET_LEN * LANE
    requires |xs| < t <= LANE && Distinct(xs) && 0 !in xs
    ensures |rng'| == SECRET_LEN * LANE && SharesAt(secret', rng', t, xs) == SharesAt(secret, rng, t, xs)
  {
    hide Add, Mask, Coefficients, Interpolated, Eval;
    SharesHideSecret(secret, secret', t, xs);
    var mask := Mask(secret, secret', t, xs);
    rng' := PolyAdd(rng, mask);
    forall i | 0 <= i < |xs|
      ensures SharesAt(secret', rng', t, xs)[i] == SharesAt(secret, rng, t, xs)[i]
    {
      assert ShareOf(secret, rng, t, xs[i]) == ShareOf(secret', PolyAdd(rng, mask), t, xs[i]);
    }
  }

  /** Reconstruct is right on the shares at xs, whatever the secret and the random bytes. */
  ghost predicate AlwaysRight(t: nat, xs: seq<bv8>)
    requires 1 <= t <= LANE
  {
    forall secret, rng | |secret| == SECRET_LEN && |rng| == SECRET_LEN * LANE ::
      Interpolated(SharesAt(secret, rng, t, xs)) == secret
  }

  /** Reconstruction gives the secret of every splitting if and only if at least t shares are given. */
  lemma EnoughSharesIff(t: nat, xs: seq<bv8>)
    requires 1 <= t <= LANE && Distinct(xs) && 0 !in xs
    ensures AlwaysRight(t, xs) <==> |xs| >= t
  {
    hide Interpolated, ShareOf;
    if |xs| >= t {
      forall secret, rng | |secret| == SECRET_LEN && |rng| == SECRET_LEN * LANE
        ensures Interpolated(SharesAt(secret, rng, t, xs)) == secret
      {
        RoundTrip(secret, rng, t, SharesAt(secret, rng, t, xs));
      }
    } else {
      var zeros, other, rng := ZeroBytes(SECRET_LEN), ZeroBytes(SECRET_LEN)[0 := 1], ZeroBytes(SECRET_LEN * LANE);
      var rng' := TooFewSharesUnnoticed(zeros, rng, t, xs, other);
      assert zeros[0] != other[0];
      assert Interpolated(SharesAt(zeros, rng, t, xs)) == Interpolated(SharesAt(other, rng', t, xs));
    }
  }

  /** For any shares of one splitting, enough of them or not: a byte is reconstructed right if and only if nothing is
      left of its polynomial after division by the share indices, or the constant term of what is left is 0. */
  lemma ReconstructedByteIff(secret: seq<bv8>, rng: seq<bv8>, t: nat, xs: seq<bv8>, pos: nat)
    requires |secret| == SECRET_LEN && |rng| == SECRET_LEN * LANE && 1 <= t <= LANE && pos < SECRET_LEN
    requires Distinct(xs) && 0 !in xs
    ensures var left := DivideAll(Coefficients(secret, rng, t, pos), xs);
      Interpolated(SharesAt(secret, rng, t, xs))[pos] == secret[pos] <==> left == [] || left[0] == 0
  {
    hide Add, Mul, Eval, DivideAll, Prod, Lagrange, Interpolated;
    var p, shares := Coefficients(secret, rng, t, pos), SharesAt(secret, rng, t, xs);
    InterpolatedAt(shares, pos);
    assert LaneOf(shares, pos) == Values(p, xs);
    InterpolationError(p, xs, 0);
    var left := DivideAll(p, xs);
    EvalAtZero(p);
    EvalAtZero(left);
    var error := Mul(Prod(xs, 0), Eval(left, 0));
    AddSelf(Eval(p, 0), error);
    NoZeroDivisors(Prod(xs, 0), Eval(left, 0));
    ProdZero(xs, 0);
  }

  /** One share short: a byte is reconstructed right if and only if its last random coefficient is 0. */
  lemma OneShareShort(secret: seq<bv8>, rng: seq<bv8>, t: nat, xs: seq<bv8>, pos: nat)
    requires |secret| == SECRET_LEN && |rng| == SECRET_LEN * LANE && 2 <= t <= LANE && pos < SECRET_LEN
    requires |xs| == t - 1 && Distinct(xs) && 0 !in xs
    ensures Interpolated(SharesAt(secret, rng, t, xs))[pos] == secret[pos] <==> rng[pos * LANE + t - 1] == 0
  {
    hide DivideAll, Interpolated;
    var p := Coefficients(secret, rng, t, pos);
    ReconstructedByteIff(secret, rng, t, xs, pos);
    DivideAllTop(p, xs);
    assert p[t - 1] == rng[pos * LANE + t - 1];
  }

  /** The value at 0 of the basis polynomial of point i. */
  function BasisValue(xs: seq<bv8>, i: nat): bv8
    requires i < |xs|
  {
    Mul(Prod(Without(xs, i), 0), Weight(xs, i))
  }

  /** Changing one value adds the difference times its basis value. */
  lemma {:induction false} LagrangeUpdate(xs: seq<bv8>, ys: seq<bv8>, n: nat, i: nat, y: bv8)
    requires n <= |xs| == |ys| && i < |xs|
    ensures Lagrange(xs, ys[i := y], n, 0) ==
            Add(Lagrange(xs, ys, n, 0), if i < n then Mul(Add(ys[i], y), BasisValue(xs, i)) else 0)
  {
    hide Add, Mul, Prod, Weight, Without;
    if n == 0 {
      AddZero(0);
    } else {
      LagrangeUpdate(xs, ys, n - 1, i, y);
      var rest := Lagrange(xs, ys, n - 1, 0);
      var b := BasisValue(xs, n - 1);
      if i == n - 1 {
        AddZero(rest);
        MulDistLeft(ys[i], y, b);
        AddAssoc(rest, Mul(ys[i], b), Add(Mul(ys[i], b), Mul(y, b)));
        AddCancel(Mul(ys[i], b), Mul(y, b));
      } else {
        var d := if i < n - 1 then Mul(Add(ys[i], y), BasisValue(xs, i)) else 0;
        AddAssoc(rest, d, Mul(ys[n - 1], b));
        AddComm(d, Mul(ys[n - 1], b));
        AddAssoc(rest, Mul(ys[n - 1], b), d);
      }
    }
  }

  lemma AddSelf(a: bv8, b: bv8)
    ensures Add(a, b) == 0 <==> a == b
    ensures Add(a, b) == a <==> b == 0
  {}

  /** Extra shares are not ignored: changing one byte of one share changes that byte of the result, whatever the
      number of shares, unless another share has the index 0. */
  lemma EveryShareCounts(shares: seq<Share>, i: nat, pos: nat, y: bv8)
    requires WellSized(shares) && Distinct(Indices(shares)) && i < |shares| && pos < SECRET_LEN
    ensures var shares' := shares[i := Share(shares[i].index, shares[i].data[pos := y])];
      && WellSized(shares') && Indices(shares') == Indices(shares)
      && (Interpolated(shares')[pos] == Interpolated(shares)[pos] <==>
          y == shares[i].data[pos] || 0 in Without(Indices(shares), i))
  {
    hide Add, Mul, Prod, Weight, Without, Lagrange;
    var shares' := shares[i := Share(shares[i].index, shares[i].data[pos := y])];
    var xs, ys := Indices(shares), LaneOf(shares, pos);
    assert Indices(shares') == xs;
    assert LaneOf(shares', pos) == ys[i := y];
    LagrangeUpdate(xs, ys, |xs|, i, y);
    var change := Mul(Add(ys[i], y), BasisValue(xs, i));
    AddSelf(Lagrange(xs, ys, |xs|, 0), change);
    NoZeroDivisors(Add(ys[i], y), BasisValue(xs, i));
    AddSelf(ys[i], y);
    DenominatorNonzero(xs, i);
    NoZeroDivisors(Prod(Without(xs, i), 0), Weight(xs, i));
    ProdZero(Without(xs, i), 0);
    hide Interpolated;
    InterpolatedAt(shares, pos);
    InterpolatedAt(shares', pos);
  }
}
