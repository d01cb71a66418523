/** Dense univariate polynomials over the scalar field, as arkworks'
    `DensePolynomial`: a coefficient vector, lowest degree first.  The
    operations that arkworks normalises (drops trailing zero coefficients)
    are normalised here too; a direct edit of a coefficient is not. */
module Polynomial {
  import opened Field

  type Poly = seq<Fe>

  /** Coefficient k, zero beyond the vector. */
  function Coeff(p: Poly, k: nat): Fe { if k < |p| then p[k] else 0 }

  function Tail(p: Poly): Poly { if p == [] then [] else p[1..] }

  /** `is_zero`: every coefficient is zero (the empty vector included). */
  predicate IsZero(p: Poly) { forall k :: 0 <= k < |p| ==> p[k] == 0 }

  predicate IsNormalized(p: Poly) { p == [] || p[|p| - 1] != 0 }

  /** Two vectors that denote the same polynomial (they differ only in
      trailing zeros). */
  ghost predicate SamePoly(p: Poly, q: Poly) { forall k: nat :: Coeff(p, k) == Coeff(q, k) }

  /** `from_coefficients_vec`: drops trailing zero coefficients. */
  function Normalize(p: Poly): (r: Poly)
    ensures IsNormalized(r) && |r| <= |p| && r == p[..|r|]
    ensures forall k :: |r| <= k < |p| ==> p[k] == 0
  {
    if p == [] || p[|p| - 1] != 0 then p else Normalize(p[..|p| - 1])
  }

  /** `degree()`: zero for the zero polynomial. */
  function Degree(p: Poly): nat
  {
    var q := Normalize(p);
    if q == [] then 0 else |q| - 1
  }

  /** `evaluate` (Horner's rule). */
  function Eval(p: Poly, x: Fe): Fe
  {
    if p == [] then 0 else Add(p[0], Mul(x, Eval(p[1..], x)))
  }

  function Zeros(t: nat): (r: Poly)
    ensures |r| == t && IsZero(r)
  {
    seq(t, k => 0)
  }

  /** The linear polynomial x - a. */
  function Linear(a: Fe): Poly { [Neg(a), 1] }

  /** Coefficient-wise sum and difference, without normalisation. */
  function AddRaw(p: Poly, q: Poly): (r: Poly)
    ensures |r| == if |p| >= |q| then |p| else |q|
  {
    seq(if |p| >= |q| then |p| else |q|, k requires 0 <= k => Add(Coeff(p, k), Coeff(q, k)))
  }

  function SubRaw(p: Poly, q: Poly): (r: Poly)
    ensures |r| == if |p| >= |q| then |p| else |q|
  {
    seq(if |p| >= |q| then |p| else |q|, k requires 0 <= k => Field.Sub(Coeff(p, k), Coeff(q, k)))
  }

  /** Every coefficient times c, without normalisation. */
  function ScaleRaw(p: Poly, c: Fe): (r: Poly)
    ensures |r| == |p|
  {
    seq(|p|, k requires 0 <= k < |p| => Mul(p[k], c))
  }

  /** The product of coefficient vectors (convolution). */
  function Conv(p: Poly, q: Poly): Poly
  {
    if p == [] then [] else AddRaw(ScaleRaw(q, p[0]), [0] + Conv(p[1..], q))
  }

  /** `naive_mul` (and the FFT product `mul`): the normalised product. */
  function PolyMul(p: Poly, q: Poly): Poly { Normalize(Conv(p, q)) }

  /** `sub`: the normalised difference. */
  function PolySub(p: Poly, q: Poly): Poly { Normalize(SubRaw(p, q)) }

  /** `&p * c`: the zero polynomial when p is zero or c is zero, otherwise
      every coefficient times c (not renormalised). */
  function ScaleBy(p: Poly, c: Fe): (r: Poly)
    ensures |r| == 0 || |r| == |p|
  {
    if IsZero(p) || c == 0 then [] else ScaleRaw(p, c)
  }

  /** x^t * p as the source builds it: t zero coefficients, then p, normalised. */
  function ShiftUp(p: Poly, t: nat): Poly { Normalize(Zeros(t) + p) }

  // ---------------------------------------------------------------------
  // Coefficients and evaluation

  lemma CoeffTail(p: Poly, k: nat)
    ensures Coeff(Tail(p), k) == Coeff(p, k + 1)
  {
  }

  lemma NormalizeSame(p: Poly)
    ensures SamePoly(Normalize(p), p)
  {
  }

  lemma EvalUnfold(p: Poly, x: Fe)
    ensures Eval(p, x) == Add(Coeff(p, 0), Mul(x, Eval(Tail(p), x)))
  {
    MulZero(x);
  }

  /** Evaluation depends only on the polynomial, not on trailing zeros. */
  lemma {:induction false} EvalSame(p: Poly, q: Poly, x: Fe)
    requires SamePoly(p, q)
    ensures Eval(p, x) == Eval(q, x)
    decreases |p| + |q|
  {
    if p != [] || q != [] {
      forall k: nat ensures Coeff(Tail(p), k) == Coeff(Tail(q), k) {
        CoeffTail(p, k);
        CoeffTail(q, k);
      }
      EvalSame(Tail(p), Tail(q), x);
      EvalUnfold(p, x);
      EvalUnfold(q, x);
    }
  }

  lemma EvalNormalize(p: Poly, x: Fe)
    ensures Eval(Normalize(p), x) == Eval(p, x)
  {
    NormalizeSame(p);
    EvalSame(Normalize(p), p, x);
  }

  lemma EvalZero(p: Poly, x: Fe)
    requires IsZero(p)
    ensures Eval(p, x) == 0
  {
    EvalSame(p, [], x);
  }

  lemma {:induction false} EvalAddRaw(p: Poly, q: Poly, x: Fe)
    ensures Eval(AddRaw(p, q), x) == Add(Eval(p, x), Eval(q, x))
    decreases |p| + |q|
  {
    var r := AddRaw(p, q);
    if r != [] {
      assert r[1..] == AddRaw(Tail(p), Tail(q));
      EvalAddRaw(Tail(p), Tail(q), x);
      EvalUnfold(p, x);
      EvalUnfold(q, x);
      var tp, tq := Eval(Tail(p), x), Eval(Tail(q), x);
      Distrib(x, tp, tq);
      AddSwap(Coeff(p, 0), Coeff(q, 0), Mul(x, tp), Mul(x, tq));
    }
  }

  lemma {:induction false} EvalSubRaw(p: Poly, q: Poly, x: Fe)
    ensures Eval(SubRaw(p, q), x) == Field.Sub(Eval(p, x), Eval(q, x))
    decreases |p| + |q|
  {
    var r := SubRaw(p, q);
    if r != [] {
      assert r[1..] == SubRaw(Tail(p), Tail(q));
      EvalSubRaw(Tail(p), Tail(q), x);
      EvalUnfold(p, x);
      EvalUnfold(q, x);
      var tp, tq := Eval(Tail(p), x), Eval(Tail(q), x);
      DistribSub(x, tp, tq);
      SubSwap(Coeff(p, 0), Coeff(q, 0), Mul(x, tp), Mul(x, tq));
    }
  }

  lemma {:induction false} EvalScaleRaw(p: Poly, c: Fe, x: Fe)
    ensures Eval(ScaleRaw(p, c), x) == Mul(Eval(p, x), c)
    decreases |p|
  {
    if p != [] {
      assert ScaleRaw(p, c)[1..] == ScaleRaw(p[1..], c);
      EvalScaleRaw(p[1..], c, x);
      MulAssoc(x, Eval(p[1..], x), c);
      DistribRight(p[0], Mul(x, Eval(p[1..], x)), c);
    } else {
      MulZero(c);
    }
  }

  /** Overwriting the constant coefficient changes the value by the difference. */
  lemma EvalSetFirst(p: Poly, c: Fe, x: Fe)
    requires p != []
    ensures Eval(p[0 := c], x) == Add(Field.Sub(Eval(p, x), p[0]), c)
  {
    assert p[0 := c][1..] == p[1..];
    var m := Mul(x, Eval(p[1..], x));
    AddComm(p[0], m);
    AddSubCancel(m, p[0]);
    AddComm(m, c);
  }

  lemma EvalShiftOne(r: Poly, x: Fe)
    ensures Eval([0] + r, x) == Mul(x, Eval(r, x))
  {
    assert ([0] + r)[1..] == r;
  }

  lemma {:induction false} EvalConv(p: Poly, q: Poly, x: Fe)
    ensures Eval(Conv(p, q), x) == Mul(Eval(p, x), Eval(q, x))
    decreases |p|
  {
    if p == [] {
      MulZero(Eval(q, x));
    } else {
      var ep, eq, et := Eval(p, x), Eval(q, x), Eval(p[1..], x);
      EvalAddRaw(ScaleRaw(q, p[0]), [0] + Conv(p[1..], q), x);
      EvalScaleRaw(q, p[0], x);
      EvalShiftOne(Conv(p[1..], q), x);
      EvalConv(p[1..], q, x);
      MulAssoc(x, et, eq);
      DistribRight(p[0], Mul(x, et), eq);
      MulComm(eq, p[0]);
    }
  }

  lemma EvalPolyMul(p: Poly, q: Poly, x: Fe)
    ensures Eval(PolyMul(p, q), x) == Mul(Eval(p, x), Eval(q, x))
  {
    EvalNormalize(Conv(p, q), x);
    EvalConv(p, q, x);
  }

  lemma EvalScaleBy(p: Poly, c: Fe, x: Fe)
    ensures Eval(ScaleBy(p, c), x) == Mul(Eval(p, x), c)
  {
    if IsZero(p) {
      EvalZero(p, x);
      MulZero(c);
    } else if c == 0 {
      MulZero(Eval(p, x));
    } else {
      EvalScaleRaw(p, c, x);
    }
  }

  lemma EvalLinear(a: Fe, x: Fe)
    ensures Eval(Linear(a), x) == Field.Sub(x, a)
  {
    var l := Linear(a);
    assert l[1..] == [1];
    assert Eval([1], x) == 1 by {
      assert [1][1..] == [];
      MulZero(x);
    }
    MulOne(x);
    assert Eval(l, x) == Add(Neg(a), x);
    AddComm(Neg(a), x);
    SubIsAddNeg(x, a);
  }

  lemma EvalOne(x: Fe)
    ensures Eval([1], x) == 1
  {
    assert [1][1..] == [];
    MulZero(x);
  }

  // ---------------------------------------------------------------------
  // Products of linear factors

  /** Coefficient k of a sum. */
  lemma AddRawAt(p: Poly, q: Poly, k: nat)
    requires k < |p| || k < |q|
    ensures AddRaw(p, q)[k] == Add(Coeff(p, k), Coeff(q, k))
  {
  }

  /** The length and the leading coefficient of a product of non-empty vectors. */
  lemma {:induction false} ConvShape(p: Poly, q: Poly)
    requires p != [] && q != []
    ensures |Conv(p, q)| == |p| + |q| - 1
    ensures Conv(p, q)[|p| + |q| - 2] == Mul(p[|p| - 1], q[|q| - 1])
    decreases |p|
  {
    if |p| == 1 {
      ConvShapeOne(p, q);
    } else {
      ConvShape(p[1..], q);
      ConvShapeStep(p, q);
    }
  }

  lemma ConvShapeOne(p: Poly, q: Poly)
    requires |p| == 1 && q != []
    ensures |Conv(p, q)| == |q|
    ensures Conv(p, q)[|q| - 1] == Mul(p[0], q[|q| - 1])
  {
    var s := ScaleRaw(q, p[0]);
    var k := |q| - 1;
    assert p[1..] == [];
    assert Conv(p, q) == AddRaw(s, [0]);
    AddRawAt(s, [0], k);
    assert Coeff([0], k) == 0;
    MulComm(q[k], p[0]);
    AddZero(s[k]);
  }

  lemma ConvShapeStep(p: Poly, q: Poly)
    requires |p| > 1 && q != []
    requires |Conv(p[1..], q)| == |p| + |q| - 2
    requires Conv(p[1..], q)[|p| + |q| - 3] == Mul(p[|p| - 1], q[|q| - 1])
    ensures |Conv(p, q)| == |p| + |q| - 1
    ensures Conv(p, q)[|p| + |q| - 2] == Mul(p[|p| - 1], q[|q| - 1])
  {
    var s := ScaleRaw(q, p[0]);
    var t := [0] + Conv(p[1..], q);
    var k := |p| + |q| - 2;
    assert Conv(p, q) == AddRaw(s, t);
    AddRawAt(s, t, k);
    assert Coeff(s, k) == 0;
    assert t[k] == Conv(p[1..], q)[k - 1];
    AddZero(t[k]);
  }

  /** The product of the monic linear factors x - pts[k], multiplied in one
      at a time from the left as `interp_mostly_zero` does; monic of degree |pts|. */
  function FromRoots(pts: seq<Fe>): (r: Poly)
    ensures |r| == |pts| + 1 && r[|pts|] == 1
    decreases |pts|
  {
    if pts == [] then [1]
    else
      var q := FromRoots(pts[..|pts| - 1]);
      var l := Linear(pts[|pts| - 1]);
      ConvShape(q, l);
      MulOne(1);
      PolyMul(q, l)
  }

  /** The product of the differences x - pts[k]. */
  function ProdDiff(x: Fe, pts: seq<Fe>): Fe
  {
    if pts == [] then 1 else Mul(ProdDiff(x, pts[..|pts| - 1]), Field.Sub(x, pts[|pts| - 1]))
  }

  lemma {:induction false} EvalFromRoots(pts: seq<Fe>, x: Fe)
    ensures Eval(FromRoots(pts), x) == ProdDiff(x, pts)
    decreases |pts|
  {
    if pts == [] {
      EvalOne(x);
    } else {
      var init, last := pts[..|pts| - 1], pts[|pts| - 1];
      EvalFromRoots(init, x);
      EvalPolyMul(FromRoots(init), Linear(last), x);
      EvalLinear(last, x);
    }
  }

  /** The product vanishes at each of its roots. */
  lemma {:induction false} ProdDiffZero(x: Fe, pts: seq<Fe>, k: nat)
    requires k < |pts| && pts[k] == x
    ensures ProdDiff(x, pts) == 0
    decreases |pts|
  {
    var init := pts[..|pts| - 1];
    if k == |pts| - 1 {
      AddSubCancel(x, 0);
      MulZero(ProdDiff(x, init));
    } else {
      ProdDiffZero(x, init, k);
      MulZero(Field.Sub(x, pts[|pts| - 1]));
    }
  }

  /** Away from its roots (every difference a unit) the product is a unit. */
  lemma {:induction false} ProdDiffUnit(x: Fe, pts: seq<Fe>)
    requires forall k :: 0 <= k < |pts| ==> IsUnit(Field.Sub(x, pts[k]))
    ensures IsUnit(ProdDiff(x, pts))
    decreases |pts|
  {
    if pts == [] {
      OneIsUnit();
    } else {
      var init := pts[..|pts| - 1];
      ProdDiffUnit(x, init);
      UnitMul(ProdDiff(x, init), Field.Sub(x, pts[|pts| - 1]));
    }
  }

  // ---------------------------------------------------------------------
  // Scaling

  /** Scaling a normalised non-zero polynomial by a unit scales every
      coefficient and keeps the vector normalised. */
  lemma ScaleByUnit(p: Poly, c: Fe)
    requires IsNormalized(p) && p != [] && IsUnit(c)
    ensures ScaleBy(p, c) == ScaleRaw(p, c)
    ensures IsNormalized(ScaleBy(p, c)) && |ScaleBy(p, c)| == |p|
  {
    ZeroIsNotUnit();
    assert !IsZero(p) by { assert p[|p| - 1] != 0; }
    var last := p[|p| - 1];
    if Mul(last, c) == 0 {
      MulComm(last, c);
      UnitNoZeroDivisor(c, last);
    }
  }

  /** Normalisation commutes with scaling by a unit. */
  lemma {:induction false} NormalizeScale(p: Poly, c: Fe)
    requires IsUnit(c)
    ensures Normalize(ScaleRaw(p, c)) == ScaleRaw(Normalize(p), c)
    decreases |p|
  {
    if p != [] {
      var last := p[|p| - 1];
      if last == 0 {
        MulZero(c);
        assert ScaleRaw(p, c)[..|p| - 1] == ScaleRaw(p[..|p| - 1], c);
        NormalizeScale(p[..|p| - 1], c);
      } else if Mul(last, c) == 0 {
        MulComm(last, c);
        UnitNoZeroDivisor(c, last);
      }
    }
  }

  // ---------------------------------------------------------------------
  // Division by a linear factor

  /** The quotient of synthetic division by x - a: coefficient k is the
      evaluation at a of the coefficients above k. */
  function SyntheticQuotient(p: Poly, a: Fe): (r: Poly)
    ensures |r| == if |p| <= 1 then 0 else |p| - 1
    decreases |p|
  {
    if |p| <= 1 then [] else [Eval(p[1..], a)] + SyntheticQuotient(p[1..], a)
  }

  /** `p.div(&(x - a))`: the normalised quotient of the division by x - a. */
  function DivLinear(p: Poly, a: Fe): Poly { Normalize(SyntheticQuotient(p, a)) }

  /** The top coefficient of the quotient is the top coefficient of p. */
  lemma {:induction false} SyntheticQuotientLast(p: Poly, a: Fe)
    requires |p| >= 2
    ensures SyntheticQuotient(p, a)[|p| - 2] == p[|p| - 1]
    decreases |p|
  {
    var q := p[1..];
    if |p| == 2 {
      assert q[1..] == [] && q[0] == p[1];
      MulZero(a);
      AddZero(p[1]);
      assert Eval(q, a) == p[1];
      assert SyntheticQuotient(p, a) == [Eval(q, a)];
    } else {
      SyntheticQuotientLast(q, a);
      assert SyntheticQuotient(p, a) == [Eval(q, a)] + SyntheticQuotient(q, a);
    }
  }

  /** Dividing by x - a lowers the length of a normalised vector by one. */
  lemma DivLinearShape(p: Poly, a: Fe)
    requires |p| <= 1 || p[|p| - 1] != 0
    ensures |DivLinear(p, a)| == if |p| <= 1 then 0 else |p| - 1
    ensures Degree(DivLinear(p, a)) == if |p| <= 1 then 0 else |p| - 2
  {
    if |p| >= 2 {
      SyntheticQuotientLast(p, a);
    }
  }

  /** p = (x - a) q + p(a) at every point x. */
  lemma {:induction false} EvalSyntheticQuotient(p: Poly, a: Fe, x: Fe)
    ensures Eval(p, x) == Add(Mul(Field.Sub(x, a), Eval(SyntheticQuotient(p, a), x)), Eval(p, a))
    decreases |p|
  {
    var s := Field.Sub(x, a);
    if |p| == 0 {
      MulZero(s);
      AddZero(0);
    } else if |p| == 1 {
      assert p[1..] == [];
      MulZero(s);
      MulZero(x);
      MulZero(a);
      AddZero(p[0]);
    } else {
      var t := p[1..];
      var q := SyntheticQuotient(p, a);
      var qt := SyntheticQuotient(t, a);
      assert q[1..] == qt;
      EvalSyntheticQuotient(t, a, x);
      SyntheticDivisionStep(p[0], x, a, Eval(t, a), Eval(qt, x));
    }
  }

  /** When p vanishes at a the division by x - a is exact. */
  lemma EvalDivLinear(p: Poly, a: Fe, x: Fe)
    requires Eval(p, a) == 0
    ensures Eval(p, x) == Mul(Field.Sub(x, a), Eval(DivLinear(p, a), x))
  {
    EvalSyntheticQuotient(p, a, x);
    EvalNormalize(SyntheticQuotient(p, a), x);
    AddZero(Mul(Field.Sub(x, a), Eval(SyntheticQuotient(p, a), x)));
  }

  // ---------------------------------------------------------------------
  // Shifting

  /** Evaluation of x^t * p written as t zero coefficients followed by p. */
  lemma {:induction false} EvalZerosPrefix(t: nat, p: Poly, x: Fe)
    ensures Eval(Zeros(t) + p, x) == Mul(Pow(x, t), Eval(p, x))
    decreases t
  {
    if t == 0 {
      assert Zeros(0) + p == p;
      MulOne(Eval(p, x));
    } else {
      assert Zeros(t) + p == [0] + (Zeros(t - 1) + p);
      EvalShiftOne(Zeros(t - 1) + p, x);
      EvalZerosPrefix(t - 1, p, x);
      MulAssoc(x, Pow(x, t - 1), Eval(p, x));
    }
  }

  lemma EvalShiftUp(p: Poly, t: nat, x: Fe)
    ensures Eval(ShiftUp(p, t), x) == Mul(Pow(x, t), Eval(p, x))
  {
    EvalNormalize(Zeros(t) + p, x);
    EvalZerosPrefix(t, p, x);
  }

  /** Shifting a normalised non-zero polynomial up by t places: t zero
      coefficients, then its own, and the degree grows by t. */
  lemma ShiftUpShape(p: Poly, t: nat)
    requires IsNormalized(p) && p != []
    ensures ShiftUp(p, t) == Zeros(t) + p
    ensures Degree(ShiftUp(p, t)) == t + Degree(p) == t + |p| - 1
    ensures forall k :: 0 <= k < t + |p| ==> ShiftUp(p, t)[k] == if k < t then 0 else p[k - t]
  {
    var z := Zeros(t) + p;
    assert z[|z| - 1] == p[|p| - 1];
  }

  // ---------------------------------------------------------------------
  // Division by the vanishing polynomial x^n - 1

  /** p[j] + p[j + n] + p[j + 2n] + ... */
  function VanishingTail(p: Poly, j: nat, n: nat): Fe
    requires n > 0
    decreases |p| - j
  {
    if j >= |p| then 0 else Add(p[j], VanishingTail(p, j + n, n))
  }

  /** `divide_by_vanishing_poly` for a domain of size n: (quotient, remainder).
      A vector shorter than n is all remainder; otherwise quotient
      coefficient k collects p[k + n], p[k + 2n], ... and remainder
      coefficient k is p[k] plus the quotient coefficient k. */
  function DivideByVanishing(p: Poly, n: nat): (r: (Poly, Poly))
    requires n > 0
    ensures |r.1| <= n && |r.0| <= |p|
  {
    if |p| < n then ([], p)
    else (Normalize(QuotientRaw(p, n)), Normalize(RemainderRaw(p, n)))
  }

  function QuotientRaw(p: Poly, n: nat): (r: Poly)
    requires 0 < n <= |p|
    ensures |r| == |p| - n
  {
    seq<Fe>(|p| - n, k requires 0 <= k < |p| - n => VanishingTail(p, k + n, n))
  }

  function RemainderRaw(p: Poly, n: nat): (r: Poly)
    requires 0 < n <= |p|
    ensures |r| == n
  {
    seq<Fe>(n, k requires 0 <= k < n => Add(p[k], VanishingTail(p, k + n, n)))
  }

  lemma DivideByVanishingCoeffs(p: Poly, n: nat, k: nat)
    requires n > 0
    ensures Coeff(DivideByVanishing(p, n).0, k) == VanishingTail(p, k + n, n)
    ensures Coeff(DivideByVanishing(p, n).1, k)
         == if k < n then Add(Coeff(p, k), VanishingTail(p, k + n, n)) else 0
  {
    var qr := DivideByVanishing(p, n);
    if |p| < n {
      if k < n {
        AddZero(Coeff(p, k));
      }
    } else {
      var qraw, rraw := QuotientRaw(p, n), RemainderRaw(p, n);
      NormalizeSame(qraw);
      NormalizeSame(rraw);
      assert Coeff(qr.0, k) == Coeff(qraw, k);
      assert Coeff(qr.1, k) == Coeff(rraw, k);
    }
  }

  /** p = q (x^n - 1) + r at every point x, for (q, r) = DivideByVanishing(p, n). */
  lemma EvalDivideByVanishing(p: Poly, n: nat, x: Fe)
    requires n > 0
    ensures var (q, r) := DivideByVanishing(p, n);
      Eval(p, x) == Add(Mul(Eval(q, x), Field.Sub(Pow(x, n), 1)), Eval(r, x))
  {
    var (q, r) := DivideByVanishing(p, n);
    var shifted := Zeros(n) + q;
    var w := AddRaw(SubRaw(shifted, q), r);
    forall k: nat ensures Coeff(w, k) == Coeff(p, k) {
      DivideByVanishingCoeffs(p, n, k);
      var qk := VanishingTail(p, k + n, n);
      if k < n {
        assert Coeff(shifted, k) == 0;
        AddSubCancel(Coeff(p, k), qk);
      } else {
        DivideByVanishingCoeffs(p, n, k - n);
        assert Coeff(shifted, k) == Coeff(q, k - n);
        assert VanishingTail(p, k, n) == Add(Coeff(p, k), qk);
        AddSubCancel(Coeff(p, k), qk);
        AddZero(Coeff(p, k));
      }
    }
    EvalSame(w, p, x);
    EvalAddRaw(SubRaw(shifted, q), r, x);
    EvalSubRaw(shifted, q, x);
    EvalZerosPrefix(n, q, x);
    var eq, xn := Eval(q, x), Pow(x, n);
    DistribSub(eq, xn, 1);
    MulComm(eq, xn);
    MulOne(eq);
  }
}
