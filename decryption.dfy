/** Decryption and key verification: `agg_dec`, which combines the partial
    decryptions of the responding parties into the decryption key,
    `part_verify`, which checks one partial decryption, and `is_valid` with
    `prepare_and_pair`, which check a party's hints against a helper table. */
module Decryption {
  import opened Field
  import opened Polynomial
  import opened Results
  import opened Curve
  import opened Kzg
  import opened Domain
  import opened Utils
  import opened Setup

  // ---------------------------------------------------------------------
  // The selector partition

  /** `parties`: the indexes i < n whose selector entry is true, ascending. */
  function Parties(selector: seq<bool>, n: nat): (r: seq<nat>)
    requires n <= |selector|
    ensures |r| <= n && forall k :: 0 <= k < |r| ==> r[k] < n
  {
    if n == 0 then [] else Parties(selector, n - 1) + (if selector[n - 1] then [n - 1] else [])
  }

  /** The indexes i < n whose selector entry is false, ascending. */
  function NonParties(selector: seq<bool>, n: nat): (r: seq<nat>)
    requires n <= |selector|
    ensures |r| <= n && forall k :: 0 <= k < |r| ==> r[k] < n
  {
    if n == 0 then [] else NonParties(selector, n - 1) + (if selector[n - 1] then [] else [n - 1])
  }

  /** The domain elements at a list of indexes. */
  function ElementsAt(d: Domain, idx: seq<nat>): (r: seq<Fe>)
    ensures |r| == |idx| && forall k :: 0 <= k < |idx| ==> r[k] == Element(d, idx[k])
  {
    seq(|idx|, k requires 0 <= k < |idx| => Element(d, idx[k]))
  }

  /** `points`: omega^0 (the dummy party), then the elements of the
      non-responding parties. */
  function Points(d: Domain, selector: seq<bool>, n: nat): seq<Fe>
    requires n <= |selector|
  {
    [Element(d, 0)] + ElementsAt(d, NonParties(selector, n))
  }

  // ---------------------------------------------------------------------
  // The polynomials of `agg_dec`

  /** B: 1 at omega^0 and 0 at every point of a non-responder. */
  function BPoly(d: Domain, selector: seq<bool>, n: nat): Result<Poly>
    requires n <= |selector|
  {
    MostlyZero(1, Points(d, selector, n))
  }

  /** `bminus1`: B with its constant coefficient decreased by 1. */
  function Bminus1(b: Poly): Poly
    requires b != []
  {
    b[0 := Field.Sub(b[0], 1)]
  }

  /** `q0 = bminus1 / (x - omega^0)`. */
  function Q0(b: Poly, a: Fe): Poly
    requires b != []
  {
    DivLinear(Bminus1(b), a)
  }

  /** `bhat`: t zero coefficients followed by those of B. */
  function Bhat(b: Poly, t: nat): Poly { ShiftUp(b, t) }

  /** `E::ScalarField::from(n as u32)`: the cast keeps the low 32 bits. */
  function FromU32(n: nat): (r: Fe)
    ensures r < 0x1_0000_0000 && (n < 0x1_0000_0000 ==> r == n)
  {
    n % 0x1_0000_0000
  }

  // ---------------------------------------------------------------------
  // Weighted sums

  /** The entries of v at the given indexes (the `bases`/`scalars` vectors). */
  function Select(idx: seq<nat>, v: seq<Fe>): (r: seq<Fe>)
    requires forall k :: 0 <= k < |idx| ==> idx[k] < |v|
    ensures |r| == |idx| && forall k :: 0 <= k < |idx| ==> r[k] == v[idx[k]]
  {
    seq(|idx|, k requires 0 <= k < |idx| => v[idx[k]])
  }

  /** The msm over the selected parties of values weighted by evals. */
  function WeightedSum(parties: seq<nat>, values: seq<Fe>, evals: seq<Fe>): Fe
    requires forall k :: 0 <= k < |parties| ==> parties[k] < |values| && parties[k] < |evals|
  {
    Msm(Select(parties, values), Select(parties, evals))
  }

  function BlsPks(pk: seq<PublicKey>): (r: seq<G1>)
    ensures |r| == |pk| && forall i :: 0 <= i < |pk| ==> r[i] == pk[i].blsPk
  {
    seq(|pk|, i requires 0 <= i < |pk| => pk[i].blsPk)
  }

  function ByTauHints(pk: seq<PublicKey>): (r: seq<G1>)
    ensures |r| == |pk| && forall i :: 0 <= i < |pk| ==> r[i] == pk[i].skLiByTau
  {
    seq(|pk|, i requires 0 <= i < |pk| => pk[i].skLiByTau)
  }

  function Minus0Hints(pk: seq<PublicKey>): (r: seq<G1>)
    ensures |r| == |pk| && forall i :: 0 <= i < |pk| ==> r[i] == pk[i].skLiMinus0
  {
    seq(|pk|, i requires 0 <= i < |pk| => pk[i].skLiMinus0)
  }

  // ---------------------------------------------------------------------
  // agg_dec

  /** The two sides of the final multi-pairing:
      `[-apk, -qz, -qx, qhatx, -bhat_g1, -q0_g1] ++ sa1` and `sa2 ++ [b_g2, sigma]`,
      the negations written as products with -1 as the source computes them. */
  function PairingInputs(apk: G1, qz: G1, qx: G1, qhatx: G1, bhatG1: G1, q0G1: G1,
                         bG2: G2, sigma: G2, sa1: seq<G1>, sa2: seq<G2>): (seq<G1>, seq<G2>)
  {
    var minus1 := Neg(1);
    var w1 := [Mul(apk, minus1), Mul(qz, minus1), Mul(qx, minus1), qhatx,
               Mul(bhatG1, minus1), Mul(q0G1, minus1)];
    var w2 := [bG2, sigma];
    (w1 + sa1, sa2 + w2)
  }

  /** The shapes `agg_dec` indexes into: the selector, the partial
      decryptions, the roster and its summed hints cover the n parties, the
      domain has at least n elements, and the ciphertext parts have their
      fixed array lengths. */
  predicate AggDecInputs(partialDecryptions: seq<G2>, sa1: seq<G1>, sa2: seq<G2>, n: nat,
                         selector: seq<bool>, aggKey: AggregateKey, d: Domain)
  {
    n <= |selector| && n <= |partialDecryptions| && n <= |aggKey.pk| &&
    n <= |aggKey.aggSkLiByZ| && n <= d.size && |sa1| == 2 && |sa2| == 6
  }

  /** What `agg_dec` computes, failing where it panics, in the order the
      panics surface: the rescaling inside `interp_mostly_zero`, the
      coefficient edit of `bminus1`, the commitment to q0, the inverse of n,
      and then the commitments to bhat and to B, whose tasks' panics are
      held by their join handles until they are unwrapped. */
  function AggDecSpec(partialDecryptions: seq<G2>, sa1: seq<G1>, sa2: seq<G2>, t: nat, n: nat,
                      selector: seq<bool>, aggKey: AggregateKey, params: Params, d: Domain): Result<GT>
    requires AggDecInputs(partialDecryptions, sa1, sa2, n, selector, aggKey, d)
  {
    var parties := Parties(selector, n);
    var b :- BPoly(d, selector, n);
    var bEvals := Fft(d, b);
    var bG2 := Commit(params.powersOfH, b);
    if b == [] then Err(EmptyCoefficients)
    else
      var q0G1 :- Commit(params.powersOfG, Q0(b, Element(d, 0)));
      var bhatG1 := Commit(params.powersOfG, Bhat(b, t));
      match Div(1, FromU32(n))
      case None => Err(DivisionByZero)
      case Some(nInv) =>
        var apk := Mul(WeightedSum(parties, BlsPks(aggKey.pk), bEvals), nInv);
        var sigma := Mul(WeightedSum(parties, partialDecryptions, bEvals), nInv);
        var qx := WeightedSum(parties, ByTauHints(aggKey.pk), bEvals);
        var qz := WeightedSum(parties, aggKey.aggSkLiByZ, bEvals);
        var qhatx := WeightedSum(parties, Minus0Hints(aggKey.pk), bEvals);
        var bhat :- bhatG1;
        var bg2 :- bG2;
        var (lhs, rhs) := PairingInputs(apk, qz, qx, qhatx, bhat, q0G1, bg2, sigma, sa1, sa2);
        Ok(MultiPairing(lhs, rhs))
  }

  /** The partition loop of `agg_dec`. */
  method Partition(d: Domain, selector: seq<bool>, n: nat) returns (parties: seq<nat>, points: seq<Fe>)
    requires n <= |selector|
    ensures parties == Parties(selector, n) && points == Points(d, selector, n)
  {
    points := [Element(d, 0)];
    parties := [];
    for i := 0 to n
      invariant parties == Parties(selector, i)
      invariant points == Points(d, selector, i)
    {
      if selector[i] {
        parties := parties + [i];
      } else {
        assert ElementsAt(d, NonParties(selector, i) + [i]) == ElementsAt(d, NonParties(selector, i)) + [Element(d, i)];
        points := points + [Element(d, i)];
      }
    }
  }

  /** One of the loops that fill `bases` and `scalars`, followed by the msm. */
  method Gather(parties: seq<nat>, values: seq<Fe>, evals: seq<Fe>) returns (r: Fe)
    requires forall k :: 0 <= k < |parties| ==> parties[k] < |values| && parties[k] < |evals|
    ensures r == WeightedSum(parties, values, evals)
  {
    var bases: seq<Fe> := [];
    var scalars: seq<Fe> := [];
    for k := 0 to |parties|
      invariant bases == Select(parties[..k], values)
      invariant scalars == Select(parties[..k], evals)
    {
      var i := parties[k];
      assert parties[..k + 1] == parties[..k] + [i];
      bases := bases + [values[i]];
      scalars := scalars + [evals[i]];
    }
    assert parties[..|parties|] == parties;
    r := Msm(bases, scalars);
  }

  /** `agg_dec`. */
  method AggDec(partialDecryptions: seq<G2>, sa1: seq<G1>, sa2: seq<G2>, t: nat, n: nat,
                selector: seq<bool>, aggKey: AggregateKey, params: Params, d: Domain)
    returns (r: Result<GT>)
    requires AggDecInputs(partialDecryptions, sa1, sa2, n, selector, aggKey, d)
    ensures r == AggDecSpec(partialDecryptions, sa1, sa2, t, n, selector, aggKey, params, d)
  {
    var parties, points := Partition(d, selector, n);
    var bRes := InterpMostlyZero(1, points);
    if bRes.Err? {
      return Err(bRes.error);
    }
    var b := bRes.value;
    var bEvals := Fft(d, b);
    var bG2Task := Commit(params.powersOfH, b);
    if b == [] {
      return Err(EmptyCoefficients);
    }
    var bminus1 := b;
    bminus1 := bminus1[0 := Field.Sub(bminus1[0], 1)];
    var q0 := DivLinear(bminus1, Element(d, 0));
    var q0G1 := Commit(params.powersOfG, q0);
    if q0G1.Err? {
      return Err(q0G1.error);
    }
    var bhatCoeffs := Zeros(t) + b;
    var bhatG1Task := Commit(params.powersOfG, Normalize(bhatCoeffs));
    var nInv := Div(1, FromU32(n));
    if nInv.None? {
      return Err(DivisionByZero);
    }
    r := AggDecTail(partialDecryptions, sa1, sa2, parties, bEvals, aggKey, nInv.value,
                    q0G1.value, bhatG1Task, bG2Task);
  }

  /** The weighted sums and the final multi-pairing of `agg_dec`. */
  method AggDecTail(partialDecryptions: seq<G2>, sa1: seq<G1>, sa2: seq<G2>, parties: seq<nat>,
                    bEvals: seq<Fe>, aggKey: AggregateKey, nInv: Fe, q0G1: G1,
                    bhatG1Task: Result<G1>, bG2Task: Result<G2>)
    returns (r: Result<GT>)
    requires |sa1| == 2 && |sa2| == 6
    requires forall k :: 0 <= k < |parties| ==>
      parties[k] < |bEvals| && parties[k] < |partialDecryptions| &&
      parties[k] < |aggKey.pk| && parties[k] < |aggKey.aggSkLiByZ|
    ensures
      var apk := Mul(WeightedSum(parties, BlsPks(aggKey.pk), bEvals), nInv);
      var sigma := Mul(WeightedSum(parties, partialDecryptions, bEvals), nInv);
      var qx := WeightedSum(parties, ByTauHints(aggKey.pk), bEvals);
      var qz := WeightedSum(parties, aggKey.aggSkLiByZ, bEvals);
      var qhatx := WeightedSum(parties, Minus0Hints(aggKey.pk), bEvals);
      r == if bhatG1Task.Err? then Err(bhatG1Task.error)
           else if bG2Task.Err? then Err(bG2Task.error)
           else
             var (lhs, rhs) := PairingInputs(apk, qz, qx, qhatx, bhatG1Task.value, q0G1,
                                             bG2Task.value, sigma, sa1, sa2);
             Ok(MultiPairing(lhs, rhs))
  {
    var apk := Gather(parties, BlsPks(aggKey.pk), bEvals);
    apk := Mul(apk, nInv);
    var sigma := Gather(parties, partialDecryptions, bEvals);
    sigma := Mul(sigma, nInv);
    var qx := Gather(parties, ByTauHints(aggKey.pk), bEvals);
    var qz := Gather(parties, aggKey.aggSkLiByZ, bEvals);
    var qhatx := Gather(parties, Minus0Hints(aggKey.pk), bEvals);
    var minus1 := Neg(1);
    if bhatG1Task.Err? {
      return Err(bhatG1Task.error);
    }
    if bG2Task.Err? {
      return Err(bG2Task.error);
    }
    var w1 := [Mul(apk, minus1), Mul(qz, minus1), Mul(qx, minus1), qhatx,
               Mul(bhatG1Task.value, minus1), Mul(q0G1, minus1)];
    var w2 := [bG2Task.value, sigma];
    var encKeyLhs := w1 + sa1;
    var encKeyRhs := sa2 + w2;
    r := Ok(MultiPairing(encKeyLhs, encKeyRhs));
  }

  // ---------------------------------------------------------------------
  // part_verify, prepare_and_pair, is_valid

  /** `part_verify`: e(bls_pk, gamma) == e(g1, part_dec). */
  function PartVerify(gammaG2: G2, pk: PublicKey, g1: G1, partDec: G2): (r: bool)
    ensures IsUnit(g1) ==> (r <==> partDec == Mul(Mul(pk.blsPk, gammaG2), Inv(g1)))
  {
    if IsUnit(g1) then
      UnitSolve(g1, partDec, Mul(pk.blsPk, gammaG2));
      Pairing(pk.blsPk, gammaG2) == Pairing(g1, partDec)
    else
      Pairing(pk.blsPk, gammaG2) == Pairing(g1, partDec)
  }

  /** `prepare_and_pair`: e(hint, h0) == e(bls_pk, li_x). */
  function PrepareAndPair(hint: G1, h0: G2, blsPk: G1, liX: G2): (r: bool)
    ensures IsUnit(h0) ==> (r <==> hint == Mul(Mul(blsPk, liX), Inv(h0)))
  {
    MulComm(hint, h0);
    if IsUnit(h0) then
      UnitSolve(h0, hint, Mul(blsPk, liX));
      Pairing(hint, h0) == Pairing(blsPk, liX)
    else
      Pairing(hint, h0) == Pairing(blsPk, liX)
  }

  /** The 3 + n checks of `is_valid`, in the order they run. */
  function Checks(pk: PublicKey, n: nat, h0: G2, helper: IsValidHelper): (r: seq<bool>)
    requires n <= |pk.skLiByZ| && n <= |helper.liByZ|
    ensures |r| == 3 + n
  {
    [PrepareAndPair(pk.skLi, h0, pk.blsPk, helper.li),
     PrepareAndPair(pk.skLiMinus0, h0, pk.blsPk, helper.liMinus0),
     PrepareAndPair(pk.skLiByTau, h0, pk.blsPk, helper.liByTau)] +
    seq(n, i requires 0 <= i < n => PrepareAndPair(pk.skLiByZ[i], h0, pk.blsPk, helper.liByZ[i]))
  }

  predicate AllPass(c: seq<bool>) { forall k :: 0 <= k < |c| ==> c[k] }

  /** `is_valid`: true exactly when every check passes; it stops at the first
      check that fails, so `examined` checks run, the last of them the
      failing one. */
  method IsValid(pk: PublicKey, n: nat, params: Params, helper: IsValidHelper)
    returns (r: bool, ghost examined: nat)
    requires 0 < |params.powersOfH| && n <= |pk.skLiByZ| && n <= |helper.liByZ|
    ensures r <==> AllPass(Checks(pk, n, params.powersOfH[0], helper))
    ensures var c := Checks(pk, n, params.powersOfH[0], helper);
      1 <= examined <= |c| &&
      (forall k :: 0 <= k < examined - 1 ==> c[k]) &&
      (if r then examined == |c| else !c[examined - 1])
  {
    var h0 := params.powersOfH[0];
    ghost var c := Checks(pk, n, h0, helper);
    examined := 1;
    if PrepareAndPair(pk.skLi, h0, pk.blsPk, helper.li) == false {
      assert !c[0];
      return false, examined;
    }
    examined := 2;
    if PrepareAndPair(pk.skLiMinus0, h0, pk.blsPk, helper.liMinus0) == false {
      assert !c[1];
      return false, examined;
    }
    examined := 3;
    if PrepareAndPair(pk.skLiByTau, h0, pk.blsPk, helper.liByTau) == false {
      assert !c[2];
      return false, examined;
    }
    for i := 0 to n
      invariant examined == 3 + i
      invariant forall k :: 0 <= k < examined ==> c[k]
    {
      examined := examined + 1;
      if PrepareAndPair(pk.skLiByZ[i], h0, pk.blsPk, helper.liByZ[i]) == false {
        assert !c[3 + i];
        return false, examined;
      }
      assert c[3 + i];
    }
    assert AllPass(c);
    r := true;
  }

  // ---------------------------------------------------------------------
  // Properties of the partition

  predicate Ascending(s: seq<nat>) { forall a, b :: 0 <= a < b < |s| ==> s[a] < s[b] }

  /** The loop sorts [0, n) into responders and non-responders, each list
      ascending, and so `points` has n + 1 - |parties| entries. */
  lemma {:induction false} PartitionCounts(d: Domain, selector: seq<bool>, n: nat)
    requires n <= |selector|
    ensures |Parties(selector, n)| + |NonParties(selector, n)| == n
    ensures |Parties(selector, n)| + |Points(d, selector, n)| == n + 1
  {
    if n > 0 {
      PartitionCounts(d, selector, n - 1);
    }
  }

  lemma {:induction false} PartitionMembers(selector: seq<bool>, n: nat)
    requires n <= |selector|
    ensures forall i :: 0 <= i < n ==>
      (i in Parties(selector, n) <==> selector[i]) && (i in NonParties(selector, n) <==> !selector[i])
  {
    if n > 0 {
      PartitionMembers(selector, n - 1);
      var p, q := Parties(selector, n - 1), NonParties(selector, n - 1);
      assert n - 1 !in p && n - 1 !in q;
      if selector[n - 1] {
        assert Parties(selector, n) == p + [n - 1] && NonParties(selector, n) == q;
      } else {
        assert Parties(selector, n) == p && NonParties(selector, n) == q + [n - 1];
      }
    }
  }

  lemma {:induction false} PartitionAscending(selector: seq<bool>, n: nat)
    requires n <= |selector|
    ensures Ascending(Parties(selector, n)) && Ascending(NonParties(selector, n))
  {
    if n > 0 {
      PartitionAscending(selector, n - 1);
    }
  }

  /** The loop sorts [0, n) into responders and non-responders, each list
      ascending, and so `points` has n + 1 - |parties| entries. */
  lemma PartitionFacts(d: Domain, selector: seq<bool>, n: nat)
    requires n <= |selector|
    ensures |Parties(selector, n)| + |NonParties(selector, n)| == n
    ensures |Parties(selector, n)| + |Points(d, selector, n)| == n + 1
    ensures forall i :: 0 <= i < n ==>
      (i in Parties(selector, n) <==> selector[i]) && (i in NonParties(selector, n) <==> !selector[i])
    ensures Ascending(Parties(selector, n)) && Ascending(NonParties(selector, n))
  {
    PartitionCounts(d, selector, n);
    PartitionMembers(selector, n);
    PartitionAscending(selector, n);
  }

  /** Without the dummy party omega^0 occurs twice among the points, and
      `agg_dec` fails in the rescaling of `interp_mostly_zero`. */
  lemma SelectorZeroFalse(partialDecryptions: seq<G2>, sa1: seq<G1>, sa2: seq<G2>, t: nat, n: nat,
                          selector: seq<bool>, aggKey: AggregateKey, params: Params, d: Domain)
    requires AggDecInputs(partialDecryptions, sa1, sa2, n, selector, aggKey, d)
    requires 0 < n && !selector[0]
    ensures BPoly(d, selector, n) == Err(DivisionByZero)
    ensures AggDecSpec(partialDecryptions, sa1, sa2, t, n, selector, aggKey, params, d) == Err(DivisionByZero)
  {
    BPolyRepeated(d, selector, n);
  }

  lemma BPolyRepeated(d: Domain, selector: seq<bool>, n: nat)
    requires 0 < n <= |selector| && !selector[0]
    ensures BPoly(d, selector, n) == Err(DivisionByZero)
  {
    PartitionMembers(selector, n);
    var np := NonParties(selector, n);
    assert 0 in np;
    var k :| 0 <= k < |np| && np[k] == 0;
    var points := Points(d, selector, n);
    assert points[k + 1] == Element(d, 0) == points[0];
    MostlyZeroRepeated(1, points, k + 1);
  }

  /** The conditions under which B is well defined: a domain of pairwise
      distinct elements, at least one party, and the dummy party selected. */
  ghost predicate GoodSelection(d: Domain, selector: seq<bool>, n: nat)
  {
    ValidDomain(d) && 0 < n <= |selector| && n <= d.size && selector[0]
  }

  /** B takes the value 1 at omega^0 and 0 at each non-responder's element,
      has one coefficient per point (degree |points| - 1, at most n
      coefficients), and `fft` returns its evaluations on the domain. */
  lemma BFacts(d: Domain, selector: seq<bool>, n: nat)
    requires GoodSelection(d, selector, n)
    ensures BPoly(d, selector, n).Ok?
    ensures var b := BPoly(d, selector, n).value;
      var points := Points(d, selector, n);
      b != [] && IsNormalized(b) && |b| == |points| && |b| <= n &&
      Degree(b) == |points| - 1 &&
      Eval(b, Element(d, 0)) == 1 &&
      (forall i :: 0 <= i < n && !selector[i] ==> Eval(b, Element(d, i)) == 0) &&
      (forall i :: 0 <= i < d.size ==> Fft(d, b)[i] == Eval(b, Element(d, i)))
  {
    PartitionFacts(d, selector, n);
    var points := Points(d, selector, n);
    PointsApart(d, selector, n);
    OneIsUnit();
    MostlyZeroShape(1, points);
    MostlyZeroAtFirst(1, points);
    BVanishes(d, selector, n);
  }

  /** omega^0 differs by a unit from every non-responder's element. */
  lemma PointsApart(d: Domain, selector: seq<bool>, n: nat)
    requires GoodSelection(d, selector, n)
    ensures var points := Points(d, selector, n);
      points != [] && forall k :: 1 <= k < |points| ==> IsUnit(Field.Sub(points[0], points[k]))
  {
    PartitionFacts(d, selector, n);
    var np := NonParties(selector, n);
    var points := Points(d, selector, n);
    assert 0 in Parties(selector, n);
    forall k | 1 <= k < |points|
      ensures IsUnit(Field.Sub(points[0], points[k]))
    {
      assert points[k] == Element(d, np[k - 1]);
      assert np[k - 1] !in Parties(selector, n);
    }
  }

  /** B vanishes at the element of every non-responder. */
  lemma BVanishes(d: Domain, selector: seq<bool>, n: nat)
    requires GoodSelection(d, selector, n) && BPoly(d, selector, n).Ok?
    ensures forall i :: 0 <= i < n && !selector[i] ==> Eval(BPoly(d, selector, n).value, Element(d, i)) == 0
  {
    PartitionMembers(selector, n);
    forall i | 0 <= i < n && !selector[i]
      ensures Eval(BPoly(d, selector, n).value, Element(d, i)) == 0
    {
      BVanishesAt(d, selector, n, i);
    }
  }

  lemma BVanishesAt(d: Domain, selector: seq<bool>, n: nat, i: nat)
    requires n <= |selector| && BPoly(d, selector, n).Ok?
    requires i in NonParties(selector, n)
    ensures Eval(BPoly(d, selector, n).value, Element(d, i)) == 0
  {
    var np := NonParties(selector, n);
    var points := Points(d, selector, n);
    var k :| 0 <= k < |np| && np[k] == i;
    assert points[k + 1] == Element(d, i);
    MostlyZeroVanishes(1, points, k + 1);
  }

  /** `bminus1` is B - 1 at every point. */
  lemma EvalBminus1(b: Poly, x: Fe)
    requires b != []
    ensures Eval(Bminus1(b), x) == Field.Sub(Eval(b, x), 1)
  {
    EvalSetFirst(b, Field.Sub(b[0], 1), x);
    AddSubChain(Eval(b, x), b[0], 1);
  }

  /** Where B is 1, `bminus1` vanishes and its division by x - a is exact:
      (x - a) q0(x) = B(x) - 1 everywhere. */
  lemma Bminus1Exact(b: Poly, a: Fe, x: Fe)
    requires b != [] && Eval(b, a) == 1
    ensures Eval(Bminus1(b), a) == 0
    ensures Mul(Field.Sub(x, a), Eval(Q0(b, a), x)) == Field.Sub(Eval(b, x), 1)
  {
    EvalBminus1(b, a);
    AddSubCancel(0, 1);
    EvalBminus1(b, x);
    EvalDivLinear(Bminus1(b), a, x);
  }

  /** q0 has one coefficient fewer than B. */
  lemma Q0Degree(b: Poly, a: Fe)
    requires b != [] && IsNormalized(b)
    ensures Degree(Q0(b, a)) == if |b| == 1 then 0 else |b| - 2
  {
    assert |b| >= 2 ==> Bminus1(b)[|b| - 1] == b[|b| - 1];
    DivLinearShape(Bminus1(b), a);
  }

  /** `bhat` is t zeros followed by B; its degree is t + |points| - 1, so the
      degree n - 1 that `agg_dec` asserts holds exactly when t + 1 parties
      (the dummy party included) are selected. */
  lemma BhatShape(d: Domain, selector: seq<bool>, n: nat, t: nat)
    requires GoodSelection(d, selector, n)
    ensures BPoly(d, selector, n).Ok?
    ensures var b := BPoly(d, selector, n).value;
      Bhat(b, t) == Zeros(t) + b &&
      Degree(Bhat(b, t)) == t + |Points(d, selector, n)| - 1 &&
      (Degree(Bhat(b, t)) == n - 1 <==> |Parties(selector, n)| == t + 1) &&
      forall x :: Eval(Bhat(b, t), x) == Mul(Pow(x, t), Eval(b, x))
  {
    BFacts(d, selector, n);
    PartitionFacts(d, selector, n);
    var b := BPoly(d, selector, n).value;
    ShiftUpShape(b, t);
    forall x ensures Eval(Bhat(b, t), x) == Mul(Pow(x, t), Eval(b, x)) {
      EvalShiftUp(b, t, x);
    }
  }

  // ---------------------------------------------------------------------
  // Properties of the weighted sums

  lemma SelectSnoc(idx: seq<nat>, i: nat, v: seq<Fe>)
    requires forall k :: 0 <= k < |idx| ==> idx[k] < |v|
    requires i < |v|
    ensures Select(idx + [i], v) == Select(idx, v) + [v[i]]
  {
  }

  /** When evals vanish at every non-responder, the sum over the responders
      is the sum over all n parties. */
  lemma {:induction false} SumOverParties(selector: seq<bool>, n: nat, values: seq<Fe>, evals: seq<Fe>)
    requires n <= |selector| && n <= |values| && n <= |evals|
    requires forall i :: 0 <= i < n && !selector[i] ==> evals[i] == 0
    ensures WeightedSum(Parties(selector, n), values, evals) == Msm(values[..n], evals[..n])
  {
    if n > 0 {
      SumOverParties(selector, n - 1, values, evals);
      var p := Parties(selector, n - 1);
      var w := WeightedSum(p, values, evals);
      PrefixSnoc(values, values[..n - 1], n);
      PrefixSnoc(evals, evals[..n - 1], n);
      MsmSnoc(values[..n - 1], evals[..n - 1], values[n - 1], evals[n - 1]);
      assert Msm(values[..n], evals[..n]) == Add(w, Mul(evals[n - 1], values[n - 1]));
      if selector[n - 1] {
        assert Parties(selector, n) == p + [n - 1];
        SelectSnoc(p, n - 1, values);
        SelectSnoc(p, n - 1, evals);
        MsmSnoc(Select(p, values), Select(p, evals), values[n - 1], evals[n - 1]);
      } else {
        assert Parties(selector, n) == p;
        MulZero(values[n - 1]);
        AddZero(Msm(values[..n - 1], evals[..n - 1]));
      }
    }
  }

  /** The B-weighted sums of `agg_dec` (apk, sigma, qx, qz, qhatx) are sums
      over the whole committee: a non-responder's entry is weighted by
      B(omega^i) = 0. */
  lemma NonRespondersContributeNothing(d: Domain, selector: seq<bool>, n: nat, values: seq<Fe>)
    requires GoodSelection(d, selector, n) && n <= |values|
    ensures BPoly(d, selector, n).Ok?
    ensures var bEvals := Fft(d, BPoly(d, selector, n).value);
      WeightedSum(Parties(selector, n), values, bEvals) == Msm(values[..n], bEvals[..n])
  {
    BFacts(d, selector, n);
    var b := BPoly(d, selector, n).value;
    var bEvals := Fft(d, b);
    forall i | 0 <= i < n && !selector[i]
      ensures bEvals[i] == 0
    {
    }
    SumOverParties(selector, n, values, bEvals);
  }

  // ---------------------------------------------------------------------
  // Properties of the final multi-pairing

  /** Both sides have 8 entries; every W1 entry but qhatx is negated, and the
      key is the pairing product of W1 with sa2 times that of sa1 with W2. */
  lemma PairingInputsShape(apk: G1, qz: G1, qx: G1, qhatx: G1, bhatG1: G1, q0G1: G1,
                           bG2: G2, sigma: G2, sa1: seq<G1>, sa2: seq<G2>)
    requires |sa1| == 2 && |sa2| == 6
    ensures var (lhs, rhs) := PairingInputs(apk, qz, qx, qhatx, bhatG1, q0G1, bG2, sigma, sa1, sa2);
      |lhs| == 8 && |rhs| == 8 &&
      lhs[..6] == [Neg(apk), Neg(qz), Neg(qx), qhatx, Neg(bhatG1), Neg(q0G1)] &&
      lhs[6..] == sa1 && rhs[..6] == sa2 && rhs[6..] == [bG2, sigma] &&
      MultiPairing(lhs, rhs) == Add(MultiPairing(lhs[..6], sa2), MultiPairing(sa1, [bG2, sigma]))
  {
    var (lhs, rhs) := PairingInputs(apk, qz, qx, qhatx, bhatG1, q0G1, bG2, sigma, sa1, sa2);
    forall x: Fe ensures Mul(x, Neg(1)) == Neg(x) {
      MulNeg(x, 1);
      MulOne(x);
    }
    assert lhs == lhs[..6] + sa1;
    assert rhs == sa2 + [bG2, sigma];
    MultiPairingAppend(lhs[..6], sa1, sa2, [bG2, sigma]);
  }

  /** Once B is well defined, `agg_dec` succeeds exactly when the three
      commitments fit the reference string and n has an inverse. */
  lemma AggDecSucceeds(partialDecryptions: seq<G2>, sa1: seq<G1>, sa2: seq<G2>, t: nat, n: nat,
                       selector: seq<bool>, aggKey: AggregateKey, params: Params, d: Domain)
    requires AggDecInputs(partialDecryptions, sa1, sa2, n, selector, aggKey, d)
    requires GoodSelection(d, selector, n)
    ensures var m := |Points(d, selector, n)|;
      AggDecSpec(partialDecryptions, sa1, sa2, t, n, selector, aggKey, params, d).Ok? <==>
        (if m == 1 then 0 else m - 2) < |params.powersOfG| &&
        IsUnit(FromU32(n)) &&
        t + m - 1 < |params.powersOfG| &&
        m - 1 < |params.powersOfH|
  {
    BFacts(d, selector, n);
    BhatShape(d, selector, n, t);
    var b := BPoly(d, selector, n).value;
    Q0Degree(b, Element(d, 0));
  }

  // ---------------------------------------------------------------------
  // Properties of the checks

  /** With a unit g1 and bls_pk = g1 * sk, `part_verify` accepts exactly the
      partial decryption gamma * sk. */
  lemma PartVerifyIff(gammaG2: G2, pk: PublicKey, g1: G1, partDec: G2, sk: Fe)
    requires IsUnit(g1) && pk.blsPk == Mul(g1, sk)
    ensures PartVerify(gammaG2, pk, g1, partDec) <==> partDec == Mul(gammaG2, sk)
  {
    MulAssoc(g1, sk, gammaG2);
    MulComm(sk, gammaG2);
    if PartVerify(gammaG2, pk, g1, partDec) {
      UnitCancel(g1, partDec, Mul(gammaG2, sk));
    }
  }

  /** The partial decryption of the key behind bls_pk passes `part_verify`. */
  lemma PartVerifyHonest(key: SecretKey, gammaG2: G2, pk: PublicKey, g1: G1)
    requires pk.blsPk == Mul(g1, key.sk)
    ensures PartVerify(gammaG2, pk, g1, key.PartialDecryption(gammaG2))
  {
    MulAssoc(g1, key.sk, gammaG2);
    MulComm(key.sk, gammaG2);
  }

  /** With a unit h0 and a helper entry h0 * y, `prepare_and_pair` accepts
      exactly the hint bls_pk * y. */
  lemma PrepareAndPairIff(hint: G1, h0: G2, blsPk: G1, y: Fe)
    requires IsUnit(h0)
    ensures PrepareAndPair(hint, h0, blsPk, Mul(h0, y)) <==> hint == Mul(blsPk, y)
  {
    MulComm(hint, h0);
    MulAssoc(blsPk, h0, y);
    MulComm(blsPk, h0);
    MulAssoc(h0, blsPk, y);
    if PrepareAndPair(hint, h0, blsPk, Mul(h0, y)) {
      UnitCancel(h0, hint, Mul(blsPk, y));
    }
  }

  lemma AllPassSplit(c: seq<bool>)
    requires |c| >= 3
    ensures AllPass(c) <==> c[0] && c[1] && c[2] && AllPass(c[3..])
  {
    if c[0] && c[1] && c[2] && AllPass(c[3..]) {
      forall k | 0 <= k < |c| ensures c[k] {
        if k >= 3 {
          assert c[3..][k - 3] == c[k];
        }
      }
    }
  }

  /** Against a helper whose entries are h0 * ys[k] (for a unit h0), the
      checks all pass exactly when every hint is bls_pk * ys[k]. */
  lemma ChecksExactly(pk: PublicKey, n: nat, h0: G2, helper: IsValidHelper, ys: seq<Fe>)
    requires n <= |pk.skLiByZ| && n <= |helper.liByZ| && |ys| == 3 + n && IsUnit(h0)
    requires helper.li == Mul(h0, ys[0]) && helper.liMinus0 == Mul(h0, ys[1]) &&
      helper.liByTau == Mul(h0, ys[2])
    requires forall i :: 0 <= i < n ==> helper.liByZ[i] == Mul(h0, ys[3 + i])
    ensures AllPass(Checks(pk, n, h0, helper)) <==>
      pk.skLi == Mul(pk.blsPk, ys[0]) && pk.skLiMinus0 == Mul(pk.blsPk, ys[1]) &&
      pk.skLiByTau == Mul(pk.blsPk, ys[2]) &&
      forall i :: 0 <= i < n ==> pk.skLiByZ[i] == Mul(pk.blsPk, ys[3 + i])
  {
    var c := Checks(pk, n, h0, helper);
    var b := pk.blsPk;
    AllPassSplit(c);
    assert c[0] == PrepareAndPair(pk.skLi, h0, b, Mul(h0, ys[0]));
    assert c[1] == PrepareAndPair(pk.skLiMinus0, h0, b, Mul(h0, ys[1]));
    assert c[2] == PrepareAndPair(pk.skLiByTau, h0, b, Mul(h0, ys[2]));
    PrepareAndPairIff(pk.skLi, h0, b, ys[0]);
    PrepareAndPairIff(pk.skLiMinus0, h0, b, ys[1]);
    PrepareAndPairIff(pk.skLiByTau, h0, b, ys[2]);
    forall i | 0 <= i < n
      ensures c[3..][i] <==> pk.skLiByZ[i] == Mul(b, ys[3 + i])
    {
      assert c[3..][i] == PrepareAndPair(pk.skLiByZ[i], h0, b, Mul(h0, ys[3 + i]));
      PrepareAndPairIff(pk.skLiByZ[i], h0, b, ys[3 + i]);
    }
  }

  /** Entries of `sk_li_by_z` (and of the helper's `li_by_z`) from index n on
      are never examined. */
  lemma ChecksIgnoreExtra(pk: PublicKey, pk': PublicKey, n: nat, h0: G2,
                          helper: IsValidHelper, helper': IsValidHelper)
    requires n <= |pk.skLiByZ| && n <= |helper.liByZ| && n <= |pk'.skLiByZ| && n <= |helper'.liByZ|
    requires pk'.(skLiByZ := pk.skLiByZ) == pk && helper'.(liByZ := helper.liByZ) == helper
    requires pk'.skLiByZ[..n] == pk.skLiByZ[..n] && helper'.liByZ[..n] == helper.liByZ[..n]
    ensures Checks(pk', n, h0, helper') == Checks(pk, n, h0, helper)
  {
    forall i | 0 <= i < n
      ensures pk'.skLiByZ[i] == pk.skLiByZ[i] && helper'.liByZ[i] == helper.liByZ[i]
    {
      assert pk'.skLiByZ[..n][i] == pk.skLiByZ[..n][i];
      assert helper'.liByZ[..n][i] == helper.liByZ[..n][i];
    }
  }
}
