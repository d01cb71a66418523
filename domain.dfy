/** A multiplicative evaluation domain of size n with generator omega, the
    role `Radix2EvaluationDomain` plays: its elements are omega^0, ...,
    omega^(n-1).  Constructing the domain (finding an n-th root of unity) is
    library code, so the domain is a parameter; the model asks of it only
    that its elements differ pairwise by units. */
module Domain {
  import opened Field
  import opened Polynomial

  datatype Domain = Domain(size: nat, omega: Fe)

  /** `domain.elements()[i]`. */
  function Element(d: Domain, i: nat): Fe { Pow(d.omega, i) }

  /** The elements are pairwise distinct, in the strong form the proofs use:
      every difference of two of them is a unit. */
  ghost predicate ValidDomain(d: Domain)
  {
    forall i, j :: 0 <= i < d.size && 0 <= j < d.size && i != j ==>
      IsUnit(Field.Sub(Element(d, i), Element(d, j)))
  }

  /** `domain.fft(coeffs)`: the evaluations at the n domain elements of the
      coefficient vector resized to n (truncated when longer). */
  function Fft(d: Domain, coeffs: Poly): (r: seq<Fe>)
    ensures |r| == d.size
    ensures |coeffs| <= d.size ==> forall i :: 0 <= i < d.size ==> r[i] == Eval(coeffs, Element(d, i))
  {
    var c := if |coeffs| <= d.size then coeffs else coeffs[..d.size];
    seq<Fe>(d.size, i requires 0 <= i => Eval(c, Element(d, i)))
  }

  // ---------------------------------------------------------------------
  // Lagrange basis and interpolation

  /** The elements omega^k for k < m, k != j, in ascending order of k. */
  function Others(d: Domain, j: nat, m: nat): (r: seq<Fe>)
    ensures |r| == if j < m then m - 1 else m
    decreases m
  {
    if m == 0 then []
    else Others(d, j, m - 1) + (if m - 1 == j then [] else [Element(d, m - 1)])
  }

  lemma {:induction false} OthersContains(d: Domain, j: nat, m: nat, k: nat)
    requires k < m && k != j
    ensures Element(d, k) in Others(d, j, m)
    decreases m
  {
    if k < m - 1 {
      OthersContains(d, j, m - 1, k);
    }
  }

  lemma {:induction false} OthersUnits(d: Domain, j: nat, m: nat)
    requires ValidDomain(d) && j < d.size && m <= d.size
    ensures forall e :: e in Others(d, j, m) ==> IsUnit(Field.Sub(Element(d, j), e))
    decreases m
  {
    if m > 0 {
      OthersUnits(d, j, m - 1);
    }
  }

  /** The Lagrange basis polynomial for omega^j: 1 there, 0 at the other
      domain elements. */
  function Basis(d: Domain, j: nat): (r: Poly)
    ensures j < d.size ==> |r| <= d.size
  {
    var o := Others(d, j, d.size);
    ScaleBy(FromRoots(o), Inv(ProdDiff(Element(d, j), o)))
  }

  lemma EvalBasis(d: Domain, j: nat, k: nat)
    requires ValidDomain(d) && j < d.size && k < d.size
    ensures Eval(Basis(d, j), Element(d, k)) == if j == k then 1 else 0
  {
    var o := Others(d, j, d.size);
    var x := Element(d, k);
    EvalScaleBy(FromRoots(o), Inv(ProdDiff(Element(d, j), o)), x);
    EvalFromRoots(o, x);
    if j == k {
      OthersUnits(d, j, d.size);
      ProdDiffUnit(x, o);
    } else {
      OthersContains(d, j, d.size, k);
      var idx :| 0 <= idx < |o| && o[idx] == x;
      ProdDiffZero(x, o, idx);
      MulZero(Inv(ProdDiff(Element(d, j), o)));
    }
  }

  /** The Lagrange basis of the domain, omega^0 first. */
  function LagrangeBasis(d: Domain): (r: seq<Poly>)
    ensures |r| == d.size
    ensures forall j :: 0 <= j < d.size ==> r[j] == Basis(d, j) && |r[j]| <= d.size
  {
    seq(d.size, j requires 0 <= j < d.size => Basis(d, j))
  }

  /** The sum of evals[j] * basis[j] over j < m (entries of evals beyond
      its length count as zero). */
  function LinearCombination(basis: seq<Poly>, evals: seq<Fe>, m: nat): Poly
    requires m <= |basis|
    decreases m
  {
    if m == 0 then []
    else AddRaw(LinearCombination(basis, evals, m - 1), ScaleBy(basis[m - 1], Coeff(evals, m - 1)))
  }

  lemma {:induction false} LinearCombinationLength(basis: seq<Poly>, evals: seq<Fe>, m: nat, n: nat)
    requires m <= |basis| && forall j :: 0 <= j < |basis| ==> |basis[j]| <= n
    ensures |LinearCombination(basis, evals, m)| <= n
    decreases m
  {
    if m > 0 {
      LinearCombinationLength(basis, evals, m - 1, n);
    }
  }

  /** Against a basis that is 1 at its own point and 0 at the others, the
      combination takes the value evals[k] at point k. */
  lemma {:induction false} EvalLinearCombination(basis: seq<Poly>, pts: seq<Fe>, evals: seq<Fe>, m: nat, k: nat)
    requires m <= |basis| == |pts| && k < |pts|
    requires forall i, j :: 0 <= i < |basis| && 0 <= j < |pts| ==>
      Eval(basis[i], pts[j]) == if i == j then 1 else 0
    ensures Eval(LinearCombination(basis, evals, m), pts[k]) == if k < m then Coeff(evals, k) else 0
    decreases m
  {
    var x := pts[k];
    if m > 0 {
      var rest := LinearCombination(basis, evals, m - 1);
      var c := Coeff(evals, m - 1);
      var s := ScaleBy(basis[m - 1], c);
      EvalLinearCombination(basis, pts, evals, m - 1, k);
      EvalAddRaw(rest, s, x);
      EvalScaleBy(basis[m - 1], c, x);
      assert Eval(LinearCombination(basis, evals, m), x) == Add(Eval(rest, x), Eval(s, x));
      if k == m - 1 {
        assert Eval(basis[m - 1], x) == 1;
        MulOne(c);
        assert Eval(rest, x) == 0;
        AddZero(c);
      } else {
        assert Eval(basis[m - 1], x) == 0;
        MulZero(c);
        AddZero(Eval(rest, x));
      }
    }
  }

  /** With every weight zero the combination is the zero polynomial. */
  lemma {:induction false} LinearCombinationZero(basis: seq<Poly>, evals: seq<Fe>, m: nat)
    requires m <= |basis| && forall j :: 0 <= j < m ==> Coeff(evals, j) == 0
    ensures LinearCombination(basis, evals, m) == []
    decreases m
  {
    if m > 0 {
      LinearCombinationZero(basis, evals, m - 1);
    }
  }

  /** The domain elements in order. */
  function Elements(d: Domain): (r: seq<Fe>)
    ensures |r| == d.size && forall k :: 0 <= k < d.size ==> r[k] == Element(d, k)
  {
    seq(d.size, k requires 0 <= k => Element(d, k))
  }

  lemma InterpolationFacts(d: Domain, evals: seq<Fe>)
    ensures |LinearCombination(LagrangeBasis(d), evals, d.size)| <= d.size
    ensures ValidDomain(d) ==> forall k :: 0 <= k < d.size ==>
      Eval(Normalize(LinearCombination(LagrangeBasis(d), evals, d.size)), Element(d, k)) == Coeff(evals, k)
    ensures (forall j :: 0 <= j < d.size ==> Coeff(evals, j) == 0) ==>
      LinearCombination(LagrangeBasis(d), evals, d.size) == []
  {
    var basis, pts := LagrangeBasis(d), Elements(d);
    var c := LinearCombination(basis, evals, d.size);
    LinearCombinationLength(basis, evals, d.size, d.size);
    if ValidDomain(d) {
      forall i, j | 0 <= i < |basis| && 0 <= j < |pts|
        ensures Eval(basis[i], pts[j]) == if i == j then 1 else 0
      {
        EvalBasis(d, i, j);
      }
      forall k | 0 <= k < d.size
        ensures Eval(Normalize(c), Element(d, k)) == Coeff(evals, k)
      {
        EvalNormalize(c, Element(d, k));
        EvalLinearCombination(basis, pts, evals, d.size, k);
      }
    }
    if forall j :: 0 <= j < d.size ==> Coeff(evals, j) == 0 {
      LinearCombinationZero(basis, evals, d.size);
    }
  }

  /** `Evaluations::from_vec_and_domain(evals, d).interpolate()`: the
      polynomial of degree below n taking the value evals[k] at omega^k. */
  function Interpolate(d: Domain, evals: seq<Fe>): (r: Poly)
    ensures IsNormalized(r) && |r| <= d.size
    ensures ValidDomain(d) ==>
      forall k :: 0 <= k < d.size ==> Eval(r, Element(d, k)) == Coeff(evals, k)
    ensures (forall j :: 0 <= j < d.size ==> Coeff(evals, j) == 0) ==> r == []
  {
    InterpolationFacts(d, evals);
    Normalize(LinearCombination(LagrangeBasis(d), evals, d.size))
  }
}
