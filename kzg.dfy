/** KZG commitments in the discrete-logarithm representation. */
module Kzg {
  import opened Field
  import opened Polynomial
  import opened Results
  import opened Curve

  /** `UniversalParams`: the powers of tau in G1 and in G2. */
  datatype Params = Params(powersOfG: seq<G1>, powersOfH: seq<G2>)

  /** `KZG10::commit_g1` (with `powersOfG`) and `commit_g2` (with
      `powersOfH`): the multi-scalar product of the coefficients with the
      powers, failing when the polynomial has more coefficients than there are
      powers. */
  function Commit(powers: seq<Fe>, p: Poly): (r: Result<Fe>)
    ensures r.Ok? <==> Degree(p) < |powers|
    ensures r.Err? ==> r.error == SetupInsufficient
  {
    var q := Normalize(p);
    if Degree(p) + 1 > |powers| then Err(SetupInsufficient) else Ok(InnerProduct(q, powers[..|q|]))
  }

  /** The powers are g * tau^k: a structured reference string with secret tau. */
  ghost predicate IsSrs(powers: seq<Fe>, g: Fe, tau: Fe)
  {
    forall k :: 0 <= k < |powers| ==> powers[k] == Mul(g, Pow(tau, k))
  }

  lemma {:induction false} EvalSnoc(q: Poly, c: Fe, x: Fe)
    ensures Eval(q + [c], x) == Add(Eval(q, x), Mul(c, Pow(x, |q|)))
    decreases |q|
  {
    if q == [] {
      assert [c][1..] == [];
      MulZero(x);
      AddZero(c);
      MulOne(c);
      AddZero(Mul(c, Pow(x, 0)));
    } else {
      assert (q + [c])[1..] == q[1..] + [c];
      EvalSnoc(q[1..], c, x);
      var t, m := Eval(q[1..], x), Mul(c, Pow(x, |q| - 1));
      Distrib(x, t, m);
      MulAssoc(x, c, Pow(x, |q| - 1));
      MulComm(x, c);
      MulAssoc(c, x, Pow(x, |q| - 1));
      AddAssoc(q[0], Mul(x, t), Mul(x, m));
    }
  }

  /** Against a structured reference string the inner product of the
      coefficients with the powers is g times the evaluation at tau. */
  lemma {:induction false} InnerProductSrs(q: Poly, powers: seq<Fe>, g: Fe, tau: Fe)
    requires |q| <= |powers| && IsSrs(powers, g, tau)
    ensures InnerProduct(q, powers[..|q|]) == Mul(g, Eval(q, tau))
    decreases |q|
  {
    if q == [] {
      MulZero(g);
    } else {
      var init, c := q[..|q| - 1], q[|q| - 1];
      assert powers[..|q|][..|q| - 1] == powers[..|init|];
      InnerProductSrs(init, powers, g, tau);
      assert q == init + [c];
      EvalSnoc(init, c, tau);
      var pw := Pow(tau, |init|);
      MulAssoc(g, c, pw);
      MulComm(g, c);
      MulAssoc(c, g, pw);
      Distrib(g, Eval(init, tau), Mul(c, pw));
    }
  }

  /** A commitment against a structured reference string is g times the
      evaluation of the polynomial at the secret tau. */
  lemma CommitSrs(powers: seq<Fe>, g: Fe, tau: Fe, p: Poly)
    requires IsSrs(powers, g, tau) && Degree(p) < |powers|
    ensures Commit(powers, p) == Ok(Mul(g, Eval(p, tau)))
  {
    InnerProductSrs(Normalize(p), powers, g, tau);
    EvalNormalize(p, tau);
  }

  lemma {:induction false} InnerProductScale(q: Poly, w: seq<Fe>, c: Fe)
    requires |q| == |w|
    ensures InnerProduct(ScaleRaw(q, c), w) == Mul(InnerProduct(q, w), c)
    decreases |q|
  {
    if q == [] {
      MulZero(c);
    } else {
      var k := |q| - 1;
      assert ScaleRaw(q, c)[..k] == ScaleRaw(q[..k], c);
      InnerProductScale(q[..k], w[..k], c);
      var a := q[k];
      MulAssoc(a, c, w[k]);
      MulComm(c, w[k]);
      MulAssoc(a, w[k], c);
      DistribRight(InnerProduct(q[..k], w[..k]), Mul(a, w[k]), c);
    }
  }

  /** Committing to every coefficient times a unit c commits to c times the
      commitment, and fails exactly when the unscaled commitment fails. */
  lemma CommitScaleRaw(powers: seq<Fe>, p: Poly, c: Fe)
    requires IsUnit(c)
    ensures Commit(powers, ScaleRaw(p, c)).Ok? == Commit(powers, p).Ok?
    ensures Commit(powers, p).Ok? ==>
      Commit(powers, ScaleRaw(p, c)).value == Mul(Commit(powers, p).value, c)
  {
    var q := Normalize(p);
    NormalizeScale(p, c);
    if Degree(p) + 1 <= |powers| {
      InnerProductScale(q, powers[..|q|], c);
    }
  }

  lemma NormalizeZero(p: Poly)
    requires IsZero(p)
    ensures Normalize(p) == [] && Degree(p) == 0
    decreases |p|
  {
    if p != [] {
      NormalizeZero(p[..|p| - 1]);
    }
  }

  /** The same for `&p * c`, which short-cuts a zero polynomial. */
  lemma CommitScaleBy(powers: seq<Fe>, p: Poly, c: Fe)
    requires IsUnit(c)
    ensures Commit(powers, ScaleBy(p, c)).Ok? == Commit(powers, p).Ok?
    ensures Commit(powers, p).Ok? ==>
      Commit(powers, ScaleBy(p, c)).value == Mul(Commit(powers, p).value, c)
  {
    ZeroIsNotUnit();
    if IsZero(p) {
      NormalizeZero(p);
      MulZero(c);
    } else {
      CommitScaleRaw(powers, p, c);
    }
  }
}
