/** Polynomials over GF(2^8): evaluation, root counting and Lagrange interpolation.
    A polynomial is its coefficient sequence, constant term first. */
module Polynomial {
  import opened Bytes
  import opened Gf256

  type Poly = seq<bv8>

  function Eval(p: Poly, x: bv8): bv8 {
    if p == [] then 0 else Add(p[0], Mul(x, Eval(p[1..], x)))
  }

  function PolyAdd(p: Poly, q: Poly): (r: Poly)
    requires |p| == |q|
    ensures |r| == |p|
  {
    seq(|p|, i requires 0 <= i < |p| => Add(p[i], q[i]))
  }

  function Scale(c: bv8, p: Poly): (r: Poly)
    ensures |r| == |p|
  {
    seq(|p|, i requires 0 <= i < |p| => Mul(c, p[i]))
  }

  /** (X + z) * p */
  function MulLinear(p: Poly, z: bv8): (r: Poly)
    ensures |r| == |p| + 1
  {
    PolyAdd([0] + p, Scale(z, p) + [0])
  }

  // ----- evaluation is a homomorphism ----------------------------------------------

  /** c * (a + x * e) == c * a + x * (c * e) */
  lemma RingScale(c: bv8, a: bv8, x: bv8, e: bv8)
    ensures Mul(c, Add(a, Mul(x, e))) == Add(Mul(c, a), Mul(x, Mul(c, e)))
  {
    hide Add, Mul;
    MulDistRight(c, a, Mul(x, e));
    MulAssoc(c, x, e);
    MulComm(c, x);
    MulAssoc(x, c, e);
  }

  lemma {:induction false} EvalAdd(p: Poly, q: Poly, x: bv8)
    requires |p| == |q|
    ensures Eval(PolyAdd(p, q), x) == Add(Eval(p, x), Eval(q, x))
  {
    hide Add, Mul;
    if p == [] {
      AddZero(0);
    } else {
      EvalAdd(p[1..], q[1..], x);
      assert PolyAdd(p, q)[1..] == PolyAdd(p[1..], q[1..]);
      var e, f := Eval(p[1..], x), Eval(q[1..], x);
      MulDistRight(x, e, f);
      AddSwap(p[0], Mul(x, e), q[0], Mul(x, f));
    }
  }

  lemma {:induction false} EvalScale(c: bv8, p: Poly, x: bv8)
    ensures Eval(Scale(c, p), x) == Mul(c, Eval(p, x))
  {
    hide Add, Mul;
    if p == [] {
      MulUnits(c);
    } else {
      EvalScale(c, p[1..], x);
      assert Scale(c, p)[1..] == Scale(c, p[1..]);
      RingScale(c, p[0], x, Eval(p[1..], x));
    }
  }

  lemma {:induction false} EvalPad(p: Poly, n: nat, x: bv8)
    ensures Eval(p + ZeroBytes(n), x) == Eval(p, x)
    decreases |p| + n
  {
    hide Add, Mul;
    if p != [] {
      EvalPad(p[1..], n, x);
      assert (p + ZeroBytes(n))[1..] == p[1..] + ZeroBytes(n);
    } else if n > 0 {
      EvalPad([], n - 1, x);
      assert ([] + ZeroBytes(n))[1..] == [] + ZeroBytes(n - 1);
      MulUnits(x);
      AddZero(0);
    }
  }

  lemma EvalZeros(n: nat, x: bv8)
    ensures Eval(ZeroBytes(n), x) == 0
  {
    EvalPad([], n, x);
    assert [] + ZeroBytes(n) == ZeroBytes(n);
  }

  lemma EvalMulLinear(p: Poly, z: bv8, x: bv8)
    ensures Eval(MulLinear(p, z), x) == Mul(Add(x, z), Eval(p, x))
  {
    hide Add, Mul;
    var e := Eval(p, x);
    EvalAdd([0] + p, Scale(z, p) + [0], x);
    assert ([0] + p)[1..] == p;
    AddZero(Mul(x, e));
    EvalScale(z, p, x);
    EvalPad(Scale(z, p), 1, x);
    assert ZeroBytes(1) == [0];
    MulDistLeft(x, z, e);
  }

  /** The value at 0 is the constant term. */
  lemma EvalAtZero(p: Poly)
    ensures Eval(p, 0) == if p == [] then 0 else p[0]
  {
    hide Add, Mul;
    if p != [] {
      MulUnits(Eval(p[1..], 0));
      AddZero(p[0]);
    }
  }

  /** The sum of p[i] * x^i over i < n. */
  function PowerSum(p: Poly, x: bv8, n: nat): bv8
    requires n <= |p|
  {
    if n == 0 then 0 else Add(PowerSum(p, x, n - 1), Mul(p[n - 1], Pow(x, n - 1)))
  }

  lemma {:induction false} PowerSumShift(p: Poly, x: bv8, n: nat)
    requires n < |p|
    ensures PowerSum(p, x, n + 1) == Add(p[0], Mul(x, PowerSum(p[1..], x, n)))
  {
    hide Add, Mul;
    if n == 0 {
      MulUnits(p[0]);
      MulUnits(x);
      AddZero(p[0]);
    } else {
      PowerSumShift(p, x, n - 1);
      var s, c, e := PowerSum(p[1..], x, n - 1), p[n], Pow(x, n - 1);
      PowNext(x, n);
      MulAssoc(c, x, e);
      MulComm(c, x);
      MulAssoc(x, c, e);
      MulDistRight(x, s, Mul(c, e));
      AddAssoc(p[0], Mul(x, s), Mul(x, Mul(c, e)));
    }
  }

  lemma PowNext(x: bv8, n: nat)
    requires n > 0
    ensures Pow(x, n) == Mul(x, Pow(x, n - 1))
  {
    hide Mul;
  }

  /** The value of a polynomial is the sum of its coefficients times the powers of x. */
  lemma {:induction false} EvalIsSum(p: Poly, x: bv8)
    ensures Eval(p, x) == PowerSum(p, x, |p|)
  {
    hide Add, Mul;
    if p != [] {
      EvalIsSum(p[1..], x);
      PowerSumShift(p, x, |p| - 1);
    }
  }

  // ----- a polynomial with as many roots as coefficients is zero ----------------------

  /** The quotient of p - p(r) by X + r. */
  function Quotient(p: Poly, r: bv8): (q: Poly)
    ensures |q| == if p == [] then 0 else |p| - 1
  {
    if |p| <= 1 then [] else [Eval(p[1..], r)] + Quotient(p[1..], r)
  }

  /** a + x * (e + (x + r) * q) == (a + r * e) + (x + r) * (e + x * q) */
  lemma RingDivide(a: bv8, x: bv8, r: bv8, e: bv8, q: bv8)
    ensures Add(a, Mul(x, Add(e, Mul(Add(x, r), q)))) ==
            Add(Add(a, Mul(r, e)), Mul(Add(x, r), Add(e, Mul(x, q))))
  {
    hide Add, Mul;
    var s := Add(x, r);
    var re, xe, u := Mul(r, e), Mul(x, e), Mul(x, Mul(s, q));
    MulDistRight(x, e, Mul(s, q));
    RingScale(s, e, x, q);
    MulDistLeft(x, r, e);
    calc {
      Add(Add(a, re), Add(Mul(s, e), u));
      { AddAssoc(a, re, Add(Add(xe, re), u)); }
      Add(a, Add(re, Add(Add(xe, re), u)));
      { AddComm(xe, re); AddAssoc(re, xe, u); }
      Add(a, Add(re, Add(re, Add(xe, u))));
      { AddCancel(re, Add(xe, u)); }
      Add(a, Add(xe, u));
    }
  }

  lemma {:induction false} Division(p: Poly, r: bv8, x: bv8)
    ensures Eval(p, x) == Add(Eval(p, r), Mul(Add(x, r), Eval(Quotient(p, r), x)))
  {
    hide Add, Mul;
    if p == [] {
      MulUnits(Add(x, r));
      AddZero(0);
    } else if |p| == 1 {
      assert p[1..] == [];
      MulUnits(x);
      MulUnits(r);
      MulUnits(Add(x, r));
      AddZero(Eval(p, r));
    } else {
      Division(p[1..], r, x);
      assert Quotient(p, r)[1..] == Quotient(p[1..], r);
      RingDivide(p[0], x, r, Eval(p[1..], r), Eval(Quotient(p[1..], r), x));
    }
  }

  /** If the quotient by X + r and the remainder p(r) are zero, so is p. */
  lemma {:induction false} ZeroQuotient(p: Poly, r: bv8)
    requires Eval(p, r) == 0
    requires Quotient(p, r) == ZeroBytes(|Quotient(p, r)|)
    ensures p == ZeroBytes(|p|)
  {
    hide Add, Mul;
    if p == [] {
    } else {
      if |p| > 1 {
        assert Quotient(p, r)[0] == Eval(p[1..], r) == 0;
        assert Quotient(p[1..], r) == Quotient(p, r)[1..] == ZeroBytes(|p| - 2);
        ZeroQuotient(p[1..], r);
      }
      MulUnits(r);
      AddZero(p[0]);
      assert p[0] == 0;
      assert p == [p[0]] + p[1..];
    }
  }

  ghost predicate Distinct(xs: seq<bv8>) {
    forall i, j :: 0 <= i < j < |xs| ==> xs[i] != xs[j]
  }

  lemma {:induction false} RootsForceZero(p: Poly, xs: seq<bv8>)
    requires Distinct(xs) && |p| <= |xs|
    requires forall i :: 0 <= i < |xs| ==> Eval(p, xs[i]) == 0
    ensures p == ZeroBytes(|p|)
    decreases |p|
  {
    hide Add, Mul, Eval;
    if p != [] {
      var r, rest := xs[0], xs[1..];
      var q := Quotient(p, r);
      forall i | 0 <= i < |rest|
        ensures Eval(q, rest[i]) == 0
      {
        var x := rest[i];
        assert x == xs[i + 1] && x != r;
        Division(p, r, x);
        AddZero(Mul(Add(x, r), Eval(q, x)));
        AddCancel(x, r);
        NoZeroDivisors(Add(x, r), Eval(q, x));
      }
      RootsForceZero(q, rest);
      ZeroQuotient(p, r);
    }
  }

  /** Two polynomials of length at most |xs| that agree on xs are equal. */
  lemma AgreeingPolynomialsEqual(p: Poly, q: Poly, xs: seq<bv8>)
    requires Distinct(xs) && |p| == |q| <= |xs|
    requires forall i :: 0 <= i < |xs| ==> Eval(p, xs[i]) == Eval(q, xs[i])
    ensures p == q
  {
    hide Add, Mul, Eval;
    var d := PolyAdd(p, q);
    forall i | 0 <= i < |xs|
      ensures Eval(d, xs[i]) == 0
    {
      EvalAdd(p, q, xs[i]);
      AddZero(Eval(p, xs[i]));
    }
    RootsForceZero(d, xs);
    forall i | 0 <= i < |p|
      ensures p[i] == q[i]
    {
      assert d[i] == Add(p[i], q[i]);
      AddCancel(p[i], q[i]);
    }
  }

  // ----- Lagrange interpolation -----------------------------------------------------------

  /** The product of x + z over zs. */
  function Prod(zs: seq<bv8>, x: bv8): bv8 {
    if zs == [] then 1 else Mul(Prod(zs[..|zs| - 1], x), Add(x, zs[|zs| - 1]))
  }

  function PolyProd(zs: seq<bv8>): (r: Poly)
    ensures |r| == |zs| + 1
  {
    if zs == [] then [1] else MulLinear(PolyProd(zs[..|zs| - 1]), zs[|zs| - 1])
  }

  function Without(xs: seq<bv8>, i: nat): (r: seq<bv8>)
    ensures i < |xs| ==> |r| == |xs| - 1
    ensures i >= |xs| ==> r == xs
  {
    if i < |xs| then xs[..i] + xs[i + 1..] else xs
  }

  /** The inverse of the product of xs[i] + xs[j] over j != i. */
  function Weight(xs: seq<bv8>, i: nat): bv8
    requires i < |xs|
  {
    Inv(Prod(Without(xs, i), xs[i]))
  }

  /** Sum over i < n of ys[i] * (prod_{j != i} (x + xs[j])) * Weight(xs, i). */
  function Lagrange(xs: seq<bv8>, ys: seq<bv8>, n: nat, x: bv8): bv8
    requires n <= |xs| == |ys|
  {
    if n == 0 then 0
    else Add(Lagrange(xs, ys, n - 1, x),
             Mul(ys[n - 1], Mul(Prod(Without(xs, n - 1), x), Weight(xs, n - 1))))
  }

  /** The coefficients of Lagrange(xs, ys, n, _). */
  function LagrangePoly(xs: seq<bv8>, ys: seq<bv8>, n: nat): (r: Poly)
    requires n <= |xs| == |ys|
    ensures |r| == |xs|
  {
    if n == 0 then ZeroBytes(|xs|)
    else PolyAdd(LagrangePoly(xs, ys, n - 1),
                 Scale(Mul(ys[n - 1], Weight(xs, n - 1)), PolyProd(Without(xs, n - 1))))
  }

  lemma {:induction false} EvalPolyProd(zs: seq<bv8>, x: bv8)
    ensures Eval(PolyProd(zs), x) == Prod(zs, x)
  {
    hide Add, Mul;
    if zs == [] {
      assert PolyProd(zs)[1..] == [];
      MulUnits(x);
      AddZero(1);
    } else {
      var front, z := zs[..|zs| - 1], zs[|zs| - 1];
      EvalPolyProd(front, x);
      EvalMulLinear(PolyProd(front), z, x);
      MulComm(Prod(front, x), Add(x, z));
    }
  }

  lemma {:induction false} EvalLagrangePoly(xs: seq<bv8>, ys: seq<bv8>, n: nat, x: bv8)
    requires n <= |xs| == |ys|
    ensures Eval(LagrangePoly(xs, ys, n), x) == Lagrange(xs, ys, n, x)
  {
    hide Add, Mul, Eval, Weight, Prod, PolyProd, Without;
    if n == 0 {
      EvalZeros(|xs|, x);
    } else {
      EvalLagrangePoly(xs, ys, n - 1, x);
      var y, w, zs := ys[n - 1], Weight(xs, n - 1), Without(xs, n - 1);
      EvalAdd(LagrangePoly(xs, ys, n - 1), Scale(Mul(y, w), PolyProd(zs)), x);
      EvalScale(Mul(y, w), PolyProd(zs), x);
      EvalPolyProd(zs, x);
      MulAssoc(y, w, Prod(zs, x));
      MulComm(w, Prod(zs, x));
    }
  }

  lemma {:induction false} ProdZero(zs: seq<bv8>, x: bv8)
    ensures Prod(zs, x) == 0 <==> x in zs
  {
    hide Add, Mul;
    if zs != [] {
      var front, z := zs[..|zs| - 1], zs[|zs| - 1];
      ProdZero(front, x);
      NoZeroDivisors(Prod(front, x), Add(x, z));
      AddCancel(x, z);
      assert zs == front + [z];
    }
  }

  /** The denominators of the interpolation are nonzero when the points are distinct. */
  lemma DenominatorNonzero(xs: seq<bv8>, i: nat)
    requires Distinct(xs) && i < |xs|
    ensures Prod(Without(xs, i), xs[i]) != 0
    ensures Weight(xs, i) != 0
    ensures Mul(Prod(Without(xs, i), xs[i]), Weight(xs, i)) == 1
  {
    hide Mul, Prod, Inv;
    assert xs[i] !in Without(xs, i);
    ProdZero(Without(xs, i), xs[i]);
    InvIsInverse(Prod(Without(xs, i), xs[i]));
  }

  lemma InWithout(xs: seq<bv8>, i: nat, m: nat)
    requires i < |xs| && m < |xs| && m != i
    ensures xs[m] in Without(xs, i)
  {
    assert xs[m] == Without(xs, i)[if m < i then m else m - 1];
  }

  lemma {:induction false} LagrangeHits(xs: seq<bv8>, ys: seq<bv8>, n: nat, m: nat)
    requires Distinct(xs) && n <= |xs| == |ys| && m < |xs|
    ensures Lagrange(xs, ys, n, xs[m]) == if m < n then ys[m] else 0
  {
    hide Add, Mul, Prod, Weight, Without, Distinct;
    if n > 0 {
      LagrangeHits(xs, ys, n - 1, m);
      var i, x := n - 1, xs[m];
      if m == i {
        DenominatorNonzero(xs, i);
        MulUnits(ys[i]);
        AddZero(ys[i]);
      } else {
        InWithout(xs, i, m);
        ProdZero(Without(xs, i), x);
        MulUnits(Weight(xs, i));
        MulUnits(ys[i]);
        AddZero(Lagrange(xs, ys, n - 1, x));
      }
    }
  }

  function Values(p: Poly, xs: seq<bv8>): (ys: seq<bv8>)
    ensures |ys| == |xs|
  {
    seq(|xs|, i requires 0 <= i < |xs| => Eval(p, xs[i]))
  }

  /** Existence: some polynomial of length |xs| takes the values ys at xs. */
  lemma Interpolant(xs: seq<bv8>, ys: seq<bv8>) returns (p: Poly)
    requires Distinct(xs) && |xs| == |ys|
    ensures |p| == |xs| && Values(p, xs) == ys
  {
    hide Add, Mul, Eval, Lagrange, LagrangePoly;
    p := LagrangePoly(xs, ys, |xs|);
    forall m | 0 <= m < |xs|
      ensures Eval(p, xs[m]) == ys[m]
    {
      EvalLagrangePoly(xs, ys, |xs|, xs[m]);
      LagrangeHits(xs, ys, |xs|, m);
    }
  }

  /** The interpolation sum recovers any polynomial with at most |xs| coefficients, everywhere. */
  lemma LagrangeRecovers(p: Poly, xs: seq<bv8>, x: bv8)
    requires Distinct(xs) && |p| <= |xs|
    ensures Lagrange(xs, Values(p, xs), |xs|, x) == Eval(p, x)
  {
    hide Add, Mul, Eval, Lagrange, LagrangePoly;
    var k, ys := |xs|, Values(p, xs);
    var f, g := p + ZeroBytes(k - |p|), LagrangePoly(xs, ys, k);
    forall m | 0 <= m < k
      ensures Eval(f, xs[m]) == Eval(g, xs[m])
    {
      EvalPad(p, k - |p|, xs[m]);
      EvalLagrangePoly(xs, ys, k, xs[m]);
      LagrangeHits(xs, ys, k, m);
    }
    AgreeingPolynomialsEqual(f, g, xs);
    EvalPad(p, k - |p|, x);
    EvalLagrangePoly(xs, ys, k, x);
  }

  // ----- interpolation with too few points ----------------------------------------------------------

  /** The quotient of p by the product of X + x over xs, one factor at a time. */
  function DivideAll(p: Poly, xs: seq<bv8>): (q: Poly)
    ensures |q| == if |p| <= |xs| then 0 else |p| - |xs|
  {
    if xs == [] then p else Quotient(DivideAll(p, xs[..|xs| - 1]), xs[|xs| - 1])
  }

  /** The remainder of that division, in Newton's form. */
  function Newton(p: Poly, xs: seq<bv8>): (r: Poly)
    ensures |r| == |xs|
  {
    if xs == [] then []
    else
      var front, x := xs[..|xs| - 1], xs[|xs| - 1];
      PolyAdd(Newton(p, front) + ZeroBytes(1), Scale(Eval(DivideAll(p, front), x), PolyProd(front)))
  }

  /** n + c * (e + s * q) == (n + e * c) + (c * s) * q */
  lemma RingNewton(n: bv8, c: bv8, e: bv8, s: bv8, q: bv8)
    ensures Add(n, Mul(c, Add(e, Mul(s, q)))) == Add(Add(n, Mul(e, c)), Mul(Mul(c, s), q))
  {
    hide Add, Mul;
    MulDistRight(c, e, Mul(s, q));
    MulComm(c, e);
    MulAssoc(c, s, q);
    AddAssoc(n, Mul(e, c), Mul(Mul(c, s), q));
  }

  lemma EvalNewton(p: Poly, front: seq<bv8>, z: bv8, x: bv8)
    ensures Eval(Newton(p, front + [z]), x) ==
            Add(Eval(Newton(p, front), x), Mul(Eval(DivideAll(p, front), z), Prod(front, x)))
  {
    hide Add, Mul, Eval, DivideAll, Prod, PolyProd;
    var xs := front + [z];
    assert xs[..|xs| - 1] == front;
    var e := Eval(DivideAll(p, front), z);
    EvalAdd(Newton(p, front) + ZeroBytes(1), Scale(e, PolyProd(front)), x);
    EvalPad(Newton(p, front), 1, x);
    EvalScale(e, PolyProd(front), x);
    EvalPolyProd(front, x);
  }

  lemma {:induction false} NewtonForm(p: Poly, xs: seq<bv8>, x: bv8)
    ensures Eval(p, x) == Add(Eval(Newton(p, xs), x), Mul(Prod(xs, x), Eval(DivideAll(p, xs), x)))
  {
    hide Add, Mul, Eval, Newton, Quotient;
    if xs == [] {
      NewtonNone(p, x);
      MulUnits(Eval(p, x));
      AddZero(Eval(p, x));
    } else {
      var front, z := xs[..|xs| - 1], xs[|xs| - 1];
      assert xs == front + [z];
      NewtonForm(p, front, x);
      EvalNewton(p, front, z, x);
      var q := DivideAll(p, front);
      Division(q, z, x);
      RingNewton(Eval(Newton(p, front), x), Prod(front, x), Eval(q, z), Add(x, z), Eval(Quotient(q, z), x));
    }
  }

  lemma NewtonNone(p: Poly, x: bv8)
    ensures Eval(Newton(p, []), x) == 0
  {}

  /** The exact error of interpolation, for any polynomial and any distinct points: the product of x + xs[i] times
      the quotient. */
  lemma InterpolationError(p: Poly, xs: seq<bv8>, x: bv8)
    requires Distinct(xs)
    ensures Lagrange(xs, Values(p, xs), |xs|, x) == Add(Eval(p, x), Mul(Prod(xs, x), Eval(DivideAll(p, xs), x)))
  {
    hide Add, Mul, Eval, Newton, DivideAll, Prod, Lagrange;
    var n := Newton(p, xs);
    forall i | 0 <= i < |xs|
      ensures Eval(n, xs[i]) == Eval(p, xs[i])
    {
      NewtonForm(p, xs, xs[i]);
      ProdZero(xs, xs[i]);
      MulUnits(Eval(DivideAll(p, xs), xs[i]));
      AddZero(Eval(n, xs[i]));
    }
    assert Values(n, xs) == Values(p, xs);
    LagrangeRecovers(n, xs, x);
    NewtonForm(p, xs, x);
    var d := Mul(Prod(xs, x), Eval(DivideAll(p, xs), x));
    AddAssoc(Eval(n, x), d, d);
    AddZero(d);
    AddZero(Eval(n, x));
  }

  lemma {:induction false} QuotientTop(p: Poly, r: bv8)
    requires |p| >= 2
    ensures Quotient(p, r)[|p| - 2] == p[|p| - 1]
  {
    hide Add, Mul;
    if |p| == 2 {
      assert p[1..][1..] == [];
      MulUnits(r);
      AddZero(p[1]);
    } else {
      QuotientTop(p[1..], r);
    }
  }

  /** Division keeps the top coefficient. */
  lemma {:induction false} DivideAllTop(p: Poly, xs: seq<bv8>)
    requires |p| > |xs|
    ensures DivideAll(p, xs)[|p| - |xs| - 1] == p[|p| - 1]
  {
    hide Quotient;
    if xs != [] {
      var front := xs[..|xs| - 1];
      DivideAllTop(p, front);
      QuotientTop(DivideAll(p, front), xs[|xs| - 1]);
    }
  }
}
