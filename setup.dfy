/** Key material: a party's secret key, the public key with its five hint
    families, and the aggregate key folded from the roster. */
module Setup {
  import opened Field
  import opened Polynomial
  import opened Results
  import opened Curve
  import opened Kzg
  import opened Utils

  /** `PublicKey` (and `PublicKey::new`, which is its constructor). */
  datatype PublicKey = PublicKey(
    id: nat, blsPk: G1, skLi: G1, skLiMinus0: G1, skLiByZ: seq<G1>, skLiByTau: G1)

  /** `AggregateKey`. */
  datatype AggregateKey = AggregateKey(
    pk: seq<PublicKey>, aggSkLiByZ: seq<G1>, ask: G1, zG2: G2, hMinus1: G2, eGh: GT)

  // ---------------------------------------------------------------------
  // The hints of `get_pk`

  /** The numerator of hint j: li * li - li for the party itself, lj * li
      for every other party. */
  function ByZNumerator(li: Poly, lj: Poly, id: nat, j: nat): Poly
  {
    if id == j then PolySub(PolyMul(li, li), li) else PolyMul(lj, li)
  }

  /** The polynomial behind hint j: the quotient of the numerator by
      x^n - 1; the remainder is discarded. */
  function ByZQuotient(lagrangePolys: seq<Poly>, id: nat, j: nat, n: nat): Poly
    requires id < |lagrangePolys| && j < |lagrangePolys| && n > 0
  {
    DivideByVanishing(ByZNumerator(lagrangePolys[id], lagrangePolys[j], id, j), n).0
  }

  function ByZQuotients(lagrangePolys: seq<Poly>, id: nat, n: nat): (r: seq<Poly>)
    requires id < n <= |lagrangePolys|
    ensures |r| == n && forall j {:trigger r[j]} :: 0 <= j < n ==> r[j] == ByZQuotient(lagrangePolys, id, j, n)
  {
    seq(n, j requires 0 <= j < n => ByZQuotient(lagrangePolys, id, j, n))
  }

  /** The commitments to sk * polys[k], one per polynomial. */
  function ScaledCommits(sk: Fe, params: Params, polys: seq<Poly>): (r: seq<Result<G1>>)
    ensures |r| == |polys|
    ensures forall k {:trigger r[k]} :: 0 <= k < |polys| ==> r[k] == Commit(params.powersOfG, ScaleBy(polys[k], sk))
  {
    seq(|polys|, k requires 0 <= k < |polys| => Commit(params.powersOfG, ScaleBy(polys[k], sk)))
  }

  /** The commitments to sk * polys[k] for k < m, in order; the first
      failing one decides the error. */
  function CommitScaled(sk: Fe, params: Params, polys: seq<Poly>, m: nat): (r: Result<seq<G1>>)
    requires m <= |polys|
    ensures r.Ok? ==> |r.value| == m
  {
    Collect(ScaledCommits(sk, params, polys), m)
  }

  /** `sk_li`: the commitment to sk * li. */
  function SkLiHint(sk: Fe, params: Params, li: Poly): Result<G1>
  {
    Commit(params.powersOfG, ScaleBy(li, sk))
  }

  /** `sk_li_minus0`: the commitment to sk * li with its constant coefficient
      overwritten by zero; the overwrite indexes an empty vector when sk * li
      is the zero polynomial. */
  function SkLiMinus0Hint(sk: Fe, params: Params, li: Poly): Result<G1>
  {
    var f := ScaleBy(li, sk);
    if f == [] then Err(EmptyCoefficients) else Commit(params.powersOfG, f[0 := 0])
  }

  /** `sk_li_by_tau`: the commitment to sk times li without its constant
      coefficient, shifted down one place; slicing fails for an empty li. */
  function SkLiByTauHint(sk: Fe, params: Params, li: Poly): Result<G1>
  {
    if li == [] then Err(EmptyCoefficients)
    else Commit(params.powersOfG, ScaleBy(Normalize(li[1..]), sk))
  }

  /** The public key `get_pk` derives.  Its tasks are awaited in the order
      hints 0 .. n-1, bls_pk, sk_li, sk_li_minus0, sk_li_by_tau, and the first
      failing task decides the error. */
  function OnlinePk(sk: Fe, id: nat, params: Params, n: nat, lagrangePolys: seq<Poly>): Result<PublicKey>
    requires id < n <= |lagrangePolys|
  {
    var byZ :- CommitScaled(sk, params, ByZQuotients(lagrangePolys, id, n), n);
    var li := lagrangePolys[id];
    var skLi :- SkLiHint(sk, params, li);
    var minus0 :- SkLiMinus0Hint(sk, params, li);
    var byTau :- SkLiByTauHint(sk, params, li);
    Ok(PublicKey(id, Mul(Generator, sk), skLi, minus0, byZ, byTau))
  }

  // ---------------------------------------------------------------------
  // Secret keys

  class SecretKey {
    var sk: Fe

    /** `SecretKey::new`, with the random scalar passed in. */
    constructor(sk: Fe)
      ensures this.sk == sk
    {
      this.sk := sk;
    }

    /** `nullify`: the key becomes 1, after which partial decryption is the
        identity. */
    method Nullify()
      modifies this
      ensures sk == 1
      ensures forall gamma :: PartialDecryption(gamma) == gamma
    {
      sk := 1;
      forall gamma ensures PartialDecryption(gamma) == gamma {
        MulOne(gamma);
      }
    }

    /** `partial_decryption`: gamma * sk, a BLS signature on gamma under the
        public key generator * sk. */
    function PartialDecryption(gammaG2: G2): (r: G2)
      reads this
      ensures Pairing(Generator, r) == Pairing(Mul(Generator, sk), gammaG2)
    {
      MulOne(Mul(gammaG2, sk));
      MulComm(Generator, Mul(gammaG2, sk));
      MulOne(sk);
      MulComm(Generator, sk);
      MulComm(sk, gammaG2);
      Mul(gammaG2, sk)
    }

    /** `get_pk`: the tasks run in sequence, each awaited in order. */
    method GetPk(id: nat, params: Params, n: nat, lagrangePolys: seq<Poly>) returns (r: Result<PublicKey>)
      requires id < n <= |lagrangePolys|
      ensures r == OnlinePk(sk, id, params, n, lagrangePolys)
    {
      var tasks := SpawnByZTasks(sk, id, params, n, lagrangePolys);
      ghost var hs := ScaledCommits(sk, params, ByZQuotients(lagrangePolys, id, n));
      ByZTasksCommit(sk, params, lagrangePolys, id, n, n);
      assert hs[..n] == hs;
      var byZ := AwaitInOrder(tasks);
      assert byZ == CommitScaled(sk, params, ByZQuotients(lagrangePolys, id, n), n);
      if byZ.Err? {
        return Err(byZ.error);
      }
      var li := lagrangePolys[id];
      var blsPk := Mul(Generator, sk);
      var f := ScaleBy(li, sk);
      var skLi := Commit(params.powersOfG, f);
      if skLi.Err? {
        return Err(skLi.error);
      }
      if f == [] {
        return Err(EmptyCoefficients);
      }
      var fMinus0 := f[0 := 0];
      var skLiMinus0 := Commit(params.powersOfG, fMinus0);
      if skLiMinus0.Err? {
        return Err(skLiMinus0.error);
      }
      if li == [] {
        return Err(EmptyCoefficients);
      }
      var g := Normalize(li[1..]);
      var skLiByTau := Commit(params.powersOfG, ScaleBy(g, sk));
      if skLiByTau.Err? {
        return Err(skLiByTau.error);
      }
      r := Ok(PublicKey(id, blsPk, skLi.value, skLiMinus0.value, byZ.value, skLiByTau.value));
    }
  }

  /** One task of that loop: hint j. */
  method ByZHint(sk: Fe, id: nat, j: nat, params: Params, n: nat, lagrangePolys: seq<Poly>)
    returns (h: Result<G1>)
    requires id < n <= |lagrangePolys| && j < n
    ensures h == ByZTask(sk, params, lagrangePolys, id, j, n)
  {
    var li, lj := lagrangePolys[id], lagrangePolys[j];
    var num := if id == j then PolySub(PolyMul(li, li), li) else PolyMul(lj, li);
    var f := DivideByVanishing(num, n).0;
    h := Commit(params.powersOfG, ScaleBy(f, sk));
  }

  /** The result of task j: the commitment to sk times quotient j. */
  function ByZTask(sk: Fe, params: Params, lagrangePolys: seq<Poly>, id: nat, j: nat, n: nat): Result<G1>
    requires id < n <= |lagrangePolys| && j < n
  {
    Commit(params.powersOfG, ScaleBy(ByZQuotient(lagrangePolys, id, j, n), sk))
  }

  /** The tasks the first m iterations of that loop spawn, in order. */
  function ByZTasks(sk: Fe, params: Params, lagrangePolys: seq<Poly>, id: nat, n: nat, m: nat): (r: seq<Result<G1>>)
    requires id < n <= |lagrangePolys| && m <= n
    ensures |r| == m
    decreases m
  {
    if m == 0 then [] else
      ByZTasks(sk, params, lagrangePolys, id, n, m - 1) + [ByZTask(sk, params, lagrangePolys, id, m - 1, n)]
  }

  /** Task j gives the scaled commitment to quotient j. */
  lemma ByZTaskCommit(sk: Fe, params: Params, lagrangePolys: seq<Poly>, id: nat, n: nat, j: nat)
    requires id < n <= |lagrangePolys| && j < n
    ensures ScaledCommits(sk, params, ByZQuotients(lagrangePolys, id, n))[j] == ByZTask(sk, params, lagrangePolys, id, j, n)
  {
    var qs := ByZQuotients(lagrangePolys, id, n);
    assert qs[j] == ByZQuotient(lagrangePolys, id, j, n);
  }

  /** The tasks are the first m of the scaled commitments to the quotients. */
  lemma {:induction false} ByZTasksCommit(sk: Fe, params: Params, lagrangePolys: seq<Poly>, id: nat, n: nat, m: nat)
    requires id < n <= |lagrangePolys| && m <= n
    ensures ByZTasks(sk, params, lagrangePolys, id, n, m) == ScaledCommits(sk, params, ByZQuotients(lagrangePolys, id, n))[..m]
    decreases m
  {
    if m > 0 {
      var hs := ScaledCommits(sk, params, ByZQuotients(lagrangePolys, id, n));
      var prev := ByZTasks(sk, params, lagrangePolys, id, n, m - 1);
      ByZTasksCommit(sk, params, lagrangePolys, id, n, m - 1);
      ByZTaskCommit(sk, params, lagrangePolys, id, n, m - 1);
      PrefixSnoc(hs, prev, m);
    }
  }

  /** The first loop of `get_pk`: one task per j = 0 .. n-1, each computing
      hint j. */
  method SpawnByZTasks(sk: Fe, id: nat, params: Params, n: nat, lagrangePolys: seq<Poly>)
    returns (tasks: seq<Result<G1>>)
    requires id < n <= |lagrangePolys|
    ensures tasks == ByZTasks(sk, params, lagrangePolys, id, n, n)
  {
    tasks := [];
    for j := 0 to n
      invariant tasks == ByZTasks(sk, params, lagrangePolys, id, n, j)
    {
      var h := ByZHint(sk, id, j, params, n, lagrangePolys);
      tasks := tasks + [h];
    }
  }

  /** The second loop: the tasks awaited in order, their values pushed one
      by one; the first failing task ends the run. */
  method AwaitInOrder<T>(tasks: seq<Result<T>>) returns (r: Result<seq<T>>)
    ensures r == Collect(tasks, |tasks|)
  {
    var values: seq<T> := [];
    for j := 0 to |tasks|
      invariant Collect(tasks, j) == Ok(values)
    {
      CollectStep(tasks, j, values);
      if tasks[j].Err? {
        CollectErr(tasks, j + 1, |tasks|);
        return Err(tasks[j].error);
      }
      values := values + [tasks[j].value];
    }
    r := Ok(values);
  }

  // ---------------------------------------------------------------------
  // get_pk_exp

  /** The public key `get_pk_exp` derives from the helper table: every entry
      of the party's row times sk. */
  function PkFromHelper(sk: Fe, id: nat, helper: LagrangePolyHelper): PublicKey
    requires id < |helper.li| && id < |helper.liMinus0| && id < |helper.liByTau| && id < |helper.liByZ|
  {
    PublicKey(id, Mul(Generator, sk), Mul(helper.li[id], sk), Mul(helper.liMinus0[id], sk),
              ScaleRaw(helper.liByZ[id], sk), Mul(helper.liByTau[id], sk))
  }

  /** `get_pk_exp`: copies the party's row of hints and scales it in place. */
  method GetPkExp(key: SecretKey, id: nat, n: nat, helper: LagrangePolyHelper) returns (r: PublicKey)
    requires id < |helper.li| && id < |helper.liMinus0| && id < |helper.liByTau| && id < |helper.liByZ|
    ensures r == PkFromHelper(key.sk, id, helper)
  {
    var skLiByZ := helper.liByZ[id];
    for idx := 0 to |skLiByZ|
      invariant |skLiByZ| == |helper.liByZ[id]|
      invariant forall k :: 0 <= k < idx ==> skLiByZ[k] == Mul(helper.liByZ[id][k], key.sk)
      invariant forall k :: idx <= k < |skLiByZ| ==> skLiByZ[k] == helper.liByZ[id][k]
    {
      skLiByZ := skLiByZ[idx := Mul(skLiByZ[idx], key.sk)];
    }
    r := PublicKey(id, Mul(Generator, key.sk), Mul(helper.li[id], key.sk),
                   Mul(helper.liMinus0[id], key.sk), skLiByZ, Mul(helper.liByTau[id], key.sk));
  }

  // ---------------------------------------------------------------------
  // AggregateKey::new

  /** Entry i of a key's `sk_li_by_z` column (zero past its end). */
  function ByZAt(i: nat): PublicKey -> G1
  {
    (k: PublicKey) => if i < |k.skLiByZ| then k.skLiByZ[i] else 0
  }

  function SkLiOf(k: PublicKey): G1 { k.skLi }

  /** The aggregate key `AggregateKey::new` builds. */
  function AggregateKeyOf(pk: seq<PublicKey>, n: nat, params: Params): AggregateKey
    requires n < |params.powersOfH| && 0 < |params.powersOfG|
  {
    var hMinus1 := Mul(params.powersOfH[0], Neg(1));
    AggregateKey(pk, seq(n, i requires 0 <= i => SumBy(pk, ByZAt(i))), SumBy(pk, SkLiOf),
                 Add(params.powersOfH[n], hMinus1), hMinus1,
                 Pairing(params.powersOfG[0], params.powersOfH[0]))
  }

  method NewAggregateKey(pk: seq<PublicKey>, n: nat, params: Params) returns (r: AggregateKey)
    requires n < |params.powersOfH| && 0 < |params.powersOfG|
    requires forall j :: 0 <= j < |pk| ==> n <= |pk[j].skLiByZ|
    ensures r == AggregateKeyOf(pk, n, params)
  {
    var hMinus1 := Mul(params.powersOfH[0], Neg(1));
    var zG2 := Add(params.powersOfH[n], hMinus1);
    var ask: G1 := 0;
    for j := 0 to |pk|
      invariant ask == SumBy(pk[..j], SkLiOf)
    {
      assert pk[..j + 1][..j] == pk[..j];
      ask := Add(ask, pk[j].skLi);
    }
    assert pk[..|pk|] == pk;
    var agg: seq<G1> := [];
    for i := 0 to n
      invariant |agg| == i
      invariant forall k :: 0 <= k < i ==> agg[k] == SumBy(pk, ByZAt(k))
    {
      var acc: G1 := 0;
      for j := 0 to |pk|
        invariant acc == SumBy(pk[..j], ByZAt(i))
      {
        assert pk[..j + 1][..j] == pk[..j];
        acc := Add(acc, pk[j].skLiByZ[i]);
      }
      assert pk[..|pk|] == pk;
      agg := agg + [acc];
    }
    r := AggregateKey(pk, agg, ask, zG2, hMinus1, Pairing(params.powersOfG[0], params.powersOfH[0]));
  }

  // ---------------------------------------------------------------------
  // Properties of the hints

  /** The commitments are taken entry by entry. */
  lemma CommitScaledEntries(sk: Fe, params: Params, polys: seq<Poly>, m: nat, k: nat)
    requires k < m <= |polys| && CommitScaled(sk, params, polys, m).Ok?
    ensures Commit(params.powersOfG, ScaleBy(polys[k], sk)).Ok?
    ensures CommitScaled(sk, params, polys, m).value[k] == Commit(params.powersOfG, ScaleBy(polys[k], sk)).value
  {
    var hs := ScaledCommits(sk, params, polys);
    CollectOk(hs, m);
    assert hs[k] == Commit(params.powersOfG, ScaleBy(polys[k], sk));
  }

  /** A unit secret scales a commitment taken for secret 1. */
  lemma CommitAtSecret(powers: seq<Fe>, p: Poly, sk: Fe)
    requires IsUnit(sk) && Commit(powers, ScaleBy(p, 1)).Ok?
    ensures Commit(powers, ScaleBy(p, sk)) == Ok(Mul(Commit(powers, ScaleBy(p, 1)).value, sk))
  {
    OneIsUnit();
    CommitScaleBy(powers, p, 1);
    CommitScaleBy(powers, p, sk);
    MulOne(Commit(powers, p).value);
  }

  lemma CommitScaledAtSecret(sk: Fe, params: Params, polys: seq<Poly>, m: nat)
    requires m <= |polys| && IsUnit(sk) && CommitScaled(1, params, polys, m).Ok?
    ensures CommitScaled(sk, params, polys, m).Ok?
    ensures forall k :: 0 <= k < m ==>
      CommitScaled(sk, params, polys, m).value[k] == Mul(CommitScaled(1, params, polys, m).value[k], sk)
  {
    var hs1, hs := ScaledCommits(1, params, polys), ScaledCommits(sk, params, polys);
    CollectOk(hs1, m);
    forall k | 0 <= k < m
      ensures hs[k] == Ok(Mul(hs1[k].value, sk))
    {
      assert hs1[k] == Commit(params.powersOfG, ScaleBy(polys[k], 1));
      assert hs[k] == Commit(params.powersOfG, ScaleBy(polys[k], sk));
      CommitAtSecret(params.powersOfG, polys[k], sk);
    }
    CollectOk(hs, m);
  }

  lemma MinusZeroAtSecret(sk: Fe, params: Params, li: Poly)
    requires IsUnit(sk) && SkLiMinus0Hint(1, params, li).Ok?
    ensures SkLiMinus0Hint(sk, params, li) == Ok(Mul(SkLiMinus0Hint(1, params, li).value, sk))
  {
    OneIsUnit();
    ZeroIsNotUnit();
    var pg := params.powersOfG;
    assert !IsZero(li);
    var q := li[0 := 0];
    MulZero(sk);
    MulZero(1);
    assert ScaleRaw(li, sk)[0 := 0] == ScaleRaw(q, sk);
    assert ScaleRaw(li, 1)[0 := 0] == ScaleRaw(q, 1);
    CommitScaleRaw(pg, q, 1);
    CommitScaleRaw(pg, q, sk);
    MulOne(Commit(pg, q).value);
  }

  /** The public key `get_pk_exp` derives for a unit secret from a helper
      row holding the hints for secret 1 is the key `get_pk` derives. */
  lemma PkExpMatchesOnline(sk: Fe, id: nat, params: Params, n: nat, lagrangePolys: seq<Poly>,
                           helper: LagrangePolyHelper)
    requires id < n <= |lagrangePolys| && IsUnit(sk)
    requires id < |helper.li| && id < |helper.liMinus0| && id < |helper.liByTau| && id < |helper.liByZ|
    requires OnlinePk(1, id, params, n, lagrangePolys).Ok?
    requires var pk1 := OnlinePk(1, id, params, n, lagrangePolys).value;
      helper.li[id] == pk1.skLi && helper.liMinus0[id] == pk1.skLiMinus0 &&
      helper.liByTau[id] == pk1.skLiByTau && helper.liByZ[id] == pk1.skLiByZ
    ensures OnlinePk(sk, id, params, n, lagrangePolys) == Ok(PkFromHelper(sk, id, helper))
  {
    var li := lagrangePolys[id];
    var qs := ByZQuotients(lagrangePolys, id, n);
    CommitScaledAtSecret(sk, params, qs, n);
    assert CommitScaled(sk, params, qs, n).value == ScaleRaw(CommitScaled(1, params, qs, n).value, sk);
    CommitAtSecret(params.powersOfG, li, sk);
    MinusZeroAtSecret(sk, params, li);
    CommitAtSecret(params.powersOfG, Normalize(li[1..]), sk);
  }

  /** Against a structured reference string (powers g * tau^k), `sk_li` is
      g times sk * li(tau). */
  lemma SkLiSrs(sk: Fe, params: Params, li: Poly, g: Fe, tau: Fe)
    requires IsSrs(params.powersOfG, g, tau) && SkLiHint(sk, params, li).Ok?
    ensures SkLiHint(sk, params, li).value == Mul(g, Mul(Eval(li, tau), sk))
  {
    CommitSrs(params.powersOfG, g, tau, ScaleBy(li, sk));
    EvalScaleBy(li, sk, tau);
  }

  /** ... `sk_li_minus0` is g times sk * (li(tau) - li(0)). */
  lemma SkLiMinus0Srs(sk: Fe, params: Params, li: Poly, g: Fe, tau: Fe)
    requires IsSrs(params.powersOfG, g, tau) && SkLiMinus0Hint(sk, params, li).Ok?
    ensures li != [] && !IsZero(li) && sk != 0
    ensures SkLiMinus0Hint(sk, params, li).value == Mul(g, Mul(Field.Sub(Eval(li, tau), li[0]), sk))
  {
    var f := ScaleBy(li, sk);
    assert f == ScaleRaw(li, sk);
    CommitSrs(params.powersOfG, g, tau, f[0 := 0]);
    EvalSetFirst(f, 0, tau);
    AddZero(Field.Sub(Eval(f, tau), f[0]));
    EvalScaleRaw(li, sk, tau);
    var e := Eval(li, tau);
    DistribSub(sk, e, li[0]);
    MulComm(sk, e);
    MulComm(sk, li[0]);
    MulComm(sk, Field.Sub(e, li[0]));
  }

  /** ... and tau times `sk_li_by_tau` is that same element: the hint is the
      non-constant part of sk * li divided by tau. */
  lemma SkLiByTauSrs(sk: Fe, params: Params, li: Poly, g: Fe, tau: Fe)
    requires IsSrs(params.powersOfG, g, tau) && SkLiByTauHint(sk, params, li).Ok?
    ensures li != []
    ensures Mul(SkLiByTauHint(sk, params, li).value, tau) == Mul(g, Mul(Field.Sub(Eval(li, tau), li[0]), sk))
  {
    var t := Normalize(li[1..]);
    CommitSrs(params.powersOfG, g, tau, ScaleBy(t, sk));
    EvalScaleBy(t, sk, tau);
    EvalNormalize(li[1..], tau);
    var e1 := Eval(li[1..], tau);
    var m := Mul(tau, e1);
    AddComm(li[0], m);
    AddSubCancel(m, li[0]);
    MulRotate(g, e1, sk, tau);
  }

  /** ... and hint j times tau^n - 1, plus the commitment to sk times the
      discarded remainder, is g times sk * numerator_j(tau). */
  lemma ByZSrs(sk: Fe, params: Params, lagrangePolys: seq<Poly>, id: nat, j: nat, n: nat, g: Fe, tau: Fe)
    requires id < |lagrangePolys| && j < |lagrangePolys| && n > 0
    requires IsSrs(params.powersOfG, g, tau)
    requires Commit(params.powersOfG, ScaleBy(ByZQuotient(lagrangePolys, id, j, n), sk)).Ok?
    ensures var num := ByZNumerator(lagrangePolys[id], lagrangePolys[j], id, j);
      var h := Commit(params.powersOfG, ScaleBy(ByZQuotient(lagrangePolys, id, j, n), sk)).value;
      Add(Mul(h, Field.Sub(Pow(tau, n), 1)), Mul(g, Mul(Eval(DivideByVanishing(num, n).1, tau), sk)))
        == Mul(g, Mul(Eval(num, tau), sk))
  {
    var num := ByZNumerator(lagrangePolys[id], lagrangePolys[j], id, j);
    var (q, r) := DivideByVanishing(num, n);
    CommitSrs(params.powersOfG, g, tau, ScaleBy(q, sk));
    EvalScaleBy(q, sk, tau);
    EvalDivideByVanishing(num, n, tau);
    MulAddFactor(g, Eval(q, tau), sk, Field.Sub(Pow(tau, n), 1), Eval(r, tau));
  }

  /** What the public key of `get_pk` is, against a structured reference
      string: exactly n hints `sk_li_by_z` in the order j = 0 .. n-1, each
      meeting the division identity of ByZSrs, and the other hints as in
      SkLiSrs, SkLiMinus0Srs and SkLiByTauSrs. */
  lemma OnlinePkSrs(sk: Fe, id: nat, params: Params, n: nat, lagrangePolys: seq<Poly>, g: Fe, tau: Fe)
    requires id < n <= |lagrangePolys| && IsSrs(params.powersOfG, g, tau)
    requires OnlinePk(sk, id, params, n, lagrangePolys).Ok?
    ensures var pk := OnlinePk(sk, id, params, n, lagrangePolys).value;
      var li := lagrangePolys[id];
      pk.id == id && pk.blsPk == sk && |pk.skLiByZ| == n && li != [] &&
      pk.skLi == Mul(g, Mul(Eval(li, tau), sk)) &&
      pk.skLiMinus0 == Mul(g, Mul(Field.Sub(Eval(li, tau), li[0]), sk)) &&
      Mul(pk.skLiByTau, tau) == pk.skLiMinus0 &&
      forall j :: 0 <= j < n ==>
        var num := ByZNumerator(li, lagrangePolys[j], id, j);
        Add(Mul(pk.skLiByZ[j], Field.Sub(Pow(tau, n), 1)),
            Mul(g, Mul(Eval(DivideByVanishing(num, n).1, tau), sk)))
          == Mul(g, Mul(Eval(num, tau), sk))
  {
    var li := lagrangePolys[id];
    var qs := ByZQuotients(lagrangePolys, id, n);
    MulOne(sk);
    MulComm(Generator, sk);
    SkLiSrs(sk, params, li, g, tau);
    SkLiMinus0Srs(sk, params, li, g, tau);
    SkLiByTauSrs(sk, params, li, g, tau);
    forall j | 0 <= j < n
      ensures var num := ByZNumerator(li, lagrangePolys[j], id, j);
        Add(Mul(OnlinePk(sk, id, params, n, lagrangePolys).value.skLiByZ[j], Field.Sub(Pow(tau, n), 1)),
            Mul(g, Mul(Eval(DivideByVanishing(num, n).1, tau), sk)))
          == Mul(g, Mul(Eval(num, tau), sk))
    {
      CommitScaledEntries(sk, params, qs, n, j);
      ByZSrs(sk, params, lagrangePolys, id, j, n, g, tau);
    }
  }

  // ---------------------------------------------------------------------
  // Properties of the aggregate key

  /** `h_minus1` is the negation of the first G2 power and `z_g2` the
      difference of the n-th and the first (a commitment to x^n - 1). */
  lemma AggregateKeyPowers(pk: seq<PublicKey>, n: nat, params: Params)
    requires n < |params.powersOfH| && 0 < |params.powersOfG|
    ensures var ak := AggregateKeyOf(pk, n, params);
      ak.pk == pk && |ak.aggSkLiByZ| == n &&
      ak.hMinus1 == Neg(params.powersOfH[0]) &&
      ak.zG2 == Field.Sub(params.powersOfH[n], params.powersOfH[0]) &&
      ak.eGh == Pairing(params.powersOfG[0], params.powersOfH[0])
  {
    var h0 := params.powersOfH[0];
    MulNeg(h0, 1);
    MulOne(h0);
    SubIsAddNeg(params.powersOfH[n], h0);
  }

  /** The sums do not depend on the order of the roster. */
  lemma AggregateKeyOrder(pk: seq<PublicKey>, pk': seq<PublicKey>, n: nat, params: Params)
    requires n < |params.powersOfH| && 0 < |params.powersOfG|
    requires multiset(pk) == multiset(pk')
    ensures AggregateKeyOf(pk, n, params).ask == AggregateKeyOf(pk', n, params).ask
    ensures AggregateKeyOf(pk, n, params).aggSkLiByZ == AggregateKeyOf(pk', n, params).aggSkLiByZ
  {
    SumByPermutation(pk, pk', SkLiOf);
    forall i | 0 <= i < n
      ensures SumBy(pk, ByZAt(i)) == SumBy(pk', ByZAt(i))
    {
      SumByPermutation(pk, pk', ByZAt(i));
    }
  }
}
