/** The polynomial helpers of the scheme: the Lagrange polynomials of the
    domain and the "mostly zero" interpolation that builds B. */
module Utils {
  import opened Field
  import opened Polynomial
  import opened Results
  import opened Curve
  import opened Domain

  /** The evaluation vector `lagrange_poly` starts from. */
  function OneHot(n: nat, i: nat): seq<Fe>
  {
    seq(n, j requires 0 <= j < n => if i == j then 1 else 0)
  }

  /** The loop of `lagrange_poly` that pushes the evaluations one by one. */
  method LagrangeEvals(n: nat, i: nat) returns (evals: seq<Fe>)
    ensures |evals| == n
    ensures forall j :: 0 <= j < n ==> evals[j] == if i == j then 1 else 0
    ensures evals == OneHot(n, i)
  {
    evals := [];
    var j := 0;
    while j < n
      invariant 0 <= j <= n && |evals| == j
      invariant forall k :: 0 <= k < j ==> evals[k] == if i == k then 1 else 0
    {
      var l: Fe := if i == j then 1 else 0;
      evals := evals + [l];
      j := j + 1;
    }
  }

  /** `lagrange_poly(n, i)` over the domain d of size n: the polynomial of
      degree below n that is 1 at omega^i and 0 at the other elements.  With
      i >= n (which the source only checks in debug builds) every evaluation
      is zero and so is the polynomial. */
  method LagrangePoly(d: Domain, i: nat) returns (r: Poly)
    ensures r == Interpolate(d, OneHot(d.size, i))
    ensures IsNormalized(r) && |r| <= d.size
    ensures ValidDomain(d) ==>
      forall j :: 0 <= j < d.size ==> Eval(r, Element(d, j)) == if i == j then 1 else 0
    ensures i >= d.size ==> r == []
  {
    var evals := LagrangeEvals(d.size, i);
    r := Interpolate(d, evals);
  }

  // ---------------------------------------------------------------------
  // interp_mostly_zero

  /** `interp_mostly_zero(eval, points)`: the product of x - points[k] over
      k >= 1, rescaled to take the value eval at points[0]; the constant 1
      when there are no points.  The rescaling divides by the product's value
      at points[0] and fails when that value has no inverse. */
  function MostlyZero(eval: Fe, points: seq<Fe>): Result<Poly>
  {
    if points == [] then Ok([1])
    else
      var interp := FromRoots(points[1..]);
      match Div(eval, Eval(interp, points[0]))
      case None => Err(DivisionByZero)
      case Some(c) => Ok(ScaleBy(interp, c))
  }

  method InterpMostlyZero(eval: Fe, points: seq<Fe>) returns (r: Result<Poly>)
    ensures r == MostlyZero(eval, points)
  {
    if |points| == 0 {
      return Ok([1]);
    }
    var interp: Poly := [1];
    var k := 1;
    while k < |points|
      invariant 1 <= k <= |points|
      invariant interp == FromRoots(points[1..k])
    {
      assert points[1..k + 1][..k - 1] == points[1..k];
      interp := PolyMul(interp, Linear(points[k]));
      k := k + 1;
    }
    assert points[1..k] == points[1..];
    var scale := Eval(interp, points[0]);
    var c := Div(eval, scale);
    if c.None? {
      return Err(DivisionByZero);
    }
    r := Ok(ScaleBy(interp, c.value));
  }

  /** The rescaling fails exactly when the product of the differences
      points[0] - points[k], k >= 1, is not a unit. */
  lemma MostlyZeroFails(eval: Fe, points: seq<Fe>)
    ensures MostlyZero(eval, points).Err? <==>
      points != [] && !IsUnit(ProdDiff(points[0], points[1..]))
    ensures MostlyZero(eval, points).Err? ==> MostlyZero(eval, points).error == DivisionByZero
  {
    if points != [] {
      EvalFromRoots(points[1..], points[0]);
    }
  }

  /** Without points the result is the constant 1, whatever eval is. */
  lemma MostlyZeroEmpty(eval: Fe)
    ensures MostlyZero(eval, []) == Ok([1])
  {
  }

  /** The result vanishes at every point after the first. */
  lemma MostlyZeroVanishes(eval: Fe, points: seq<Fe>, k: nat)
    requires 1 <= k < |points| && MostlyZero(eval, points).Ok?
    ensures Eval(MostlyZero(eval, points).value, points[k]) == 0
  {
    var rest := points[1..];
    var interp := FromRoots(rest);
    var c := Div(eval, Eval(interp, points[0])).value;
    EvalScaleBy(interp, c, points[k]);
    EvalFromRoots(rest, points[k]);
    ProdDiffZero(points[k], rest, k - 1);
    MulZero(c);
  }

  /** A repeated first point makes the rescaling divide by zero. */
  lemma MostlyZeroRepeated(eval: Fe, points: seq<Fe>, k: nat)
    requires 1 <= k < |points| && points[k] == points[0]
    ensures MostlyZero(eval, points) == Err(DivisionByZero)
  {
    MostlyZeroFails(eval, points);
    ProdDiffZero(points[0], points[1..], k - 1);
    ZeroIsNotUnit();
  }

  /** When points[0] differs from the others by units the rescaling succeeds
      and the result takes the value eval at points[0]. */
  lemma MostlyZeroAtFirst(eval: Fe, points: seq<Fe>)
    requires points != []
    requires forall k :: 1 <= k < |points| ==> IsUnit(Field.Sub(points[0], points[k]))
    ensures MostlyZero(eval, points).Ok?
    ensures Eval(MostlyZero(eval, points).value, points[0]) == eval
  {
    var rest := points[1..];
    var interp := FromRoots(rest);
    var x := points[0];
    EvalFromRoots(rest, x);
    assert forall k :: 0 <= k < |rest| ==> IsUnit(Field.Sub(x, rest[k])) by {
      forall k | 0 <= k < |rest| ensures IsUnit(Field.Sub(x, rest[k])) {
        assert rest[k] == points[k + 1];
      }
    }
    ProdDiffUnit(x, rest);
    var c := Div(eval, Eval(interp, x)).value;
    EvalScaleBy(interp, c, x);
    MulComm(c, Eval(interp, x));
  }

  /** With a unit eval the result has one coefficient per point: degree
      |points| - 1, normalised (every factor is monic and the scale a unit). */
  lemma MostlyZeroShape(eval: Fe, points: seq<Fe>)
    requires IsUnit(eval)
    requires forall k :: 1 <= k < |points| ==> IsUnit(Field.Sub(points[0], points[k]))
    ensures MostlyZero(eval, points).Ok?
    ensures var b := MostlyZero(eval, points).value;
      |b| == if points == [] then 1 else |points|
    ensures IsNormalized(MostlyZero(eval, points).value)
    ensures Degree(MostlyZero(eval, points).value) == if points == [] then 0 else |points| - 1
  {
    if points != [] {
      MostlyZeroAtFirst(eval, points);
      var rest := points[1..];
      var interp := FromRoots(rest);
      var s := Eval(interp, points[0]);
      MostlyZeroFails(eval, points);
      EvalFromRoots(rest, points[0]);
      UnitInv(s);
      UnitMul(eval, Inv(s));
      ScaleByUnit(interp, Mul(eval, Inv(s)));
    }
  }

  /** With eval zero (and a successful rescaling) the result is zero. */
  lemma MostlyZeroZero(points: seq<Fe>)
    requires points != [] && MostlyZero(0, points).Ok?
    ensures MostlyZero(0, points) == Ok([])
  {
    MulZero(Inv(Eval(FromRoots(points[1..]), points[0])));
  }

  // ---------------------------------------------------------------------
  // Precomputed tables

  /** `LagrangePolyHelper`: per party, the G1 commitments to its Lagrange
      polynomial and the derived hints, all for secret key 1. */
  datatype LagrangePolyHelper = LagrangePolyHelper(
    li: seq<G1>, liMinus0: seq<G1>, liByTau: seq<G1>, liByZ: seq<seq<G1>>)

  /** `IsValidHelper`: for one party, the G2 elements its hints are checked
      against. */
  datatype IsValidHelper = IsValidHelper(li: G2, liMinus0: G2, liByTau: G2, liByZ: seq<G2>)
}
