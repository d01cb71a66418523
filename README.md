# Silent threshold encryption: a Dafny model of the algebraic core

This project models the setup, key and decryption logic of the
`threshold-encryption` crate. That crate implements silent-setup threshold
encryption over BLS12-381: every party publishes a public key with hints, the
hints are folded into an aggregate key, and any set of responders can combine
their partial decryptions into the decryption key, as long as the set has the
threshold size.

The model covers three files of the crate:

- `src/utils.rs`
  - `lagrange_poly`: the one-hot evaluation vector and its interpolation.
  - `interp_mostly_zero`: the product of linear factors `x - points[k]`,
    rescaled to take a given value at `points[0]`.
- `src/setup.rs`
  - `SecretKey` is a class with a mutable `sk` field, holding `new`,
    `nullify`, `partial_decryption` and `get_pk`.
  - `get_pk_exp`.
  - `AggregateKey::new`.
  - `PublicKey` and `AggregateKey` are datatypes. `PublicKey::new` is the
    datatype constructor.
- `src/decryption.rs`
  - `agg_dec`: the selector partition, the polynomials B, `bminus1`, `q0`
    and `bhat`, the B-weighted sums, and the inputs of the final
    multi-pairing.
  - `part_verify`, `prepare_and_pair` and `is_valid`.

Representation:

- **Scalars.** The scalar field is modelled as the integers modulo the
  BLS12-381 group order r (module `Field`).
- **Polynomials.** A polynomial is its coefficient sequence, lowest degree
  first (module `Polynomial`). arkworks normalises polynomials by dropping
  trailing zeros after products, differences and `from_coefficients_vec`;
  the model does the same. It does not normalise after raw coefficient edits,
  because the source does not either.
- **Group elements.** G1, G2 and target elements are written as their
  discrete logarithms (module `Curve`):
  - a scalar multiple is a product;
  - the pairing is multiplication;
  - an MSM is a sum of products.
- **KZG commitments.** A commitment is the sum of `coeffs[k] * powers[k]`.
  It fails when the polynomial has more coefficients than there are powers
  (module `Kzg`).
- **Evaluation domain.** The domain is a parameter: a size and a generator,
  whose elements are required to differ pairwise by units (module `Domain`).
  `fft` and `interpolate` are given by their evaluation contracts.

Panics:

- **Failures.** A panic that depends on values is a `Result` failure:
  - a division by a non-unit;
  - a commitment of too high a degree;
  - indexing the coefficients of the zero polynomial.
- **Preconditions.** An out-of-bounds index into a vector whose length is
  fixed by the inputs is a precondition.
- **Order of failures.** When several steps can fail, the model reports the
  failure that the source would hit first. Results of spawned tasks are
  unwrapped in a set order and the first failing one decides. `get_pk` is
  split the same way: one loop spawns the `sk_li_by_z` tasks, and a second
  loop awaits them in order.

`parties` includes index 0 (the dummy party) whenever `selector[0]` is true,
and `selector[0]` must be true: otherwise ω⁰ appears twice in `points` and
`interp_mostly_zero` divides by zero (`Decryption.SelectorZeroFalse`). As a
result, the `bhat` degree that `agg_dec` asserts holds exactly when t + 1
entries, the dummy included, are selected (`Decryption.BhatShape`).

## Model

| member | source | states |
|---|---|---|
| Utils.LagrangeEvals | src/utils.rs:17-21 | the vector has length n and is 1 at position i and 0 at every other position |
| Utils.LagrangePoly | src/utils.rs:14-28 | the result interpolates the one-hot vector; it has at most n coefficients (degree below n); over a valid domain it is 1 at ω^i and 0 at every other ω^j; for i ≥ n it is the zero polynomial |
| Utils.InterpMostlyZero | src/utils.rs:32-50 | the loop leaves the product of (x − points[k]) over k ≥ 1; the result is that product rescaled by eval / product(points[0]), or a division-by-zero failure |
| Utils.MostlyZeroEmpty | src/utils.rs:33-36 | with no points the result is the constant 1, whatever eval is |
| Utils.MostlyZeroVanishes | src/utils.rs:38-47 | a successful result is 0 at every points[k] with k ≥ 1 |
| Utils.MostlyZeroFails | src/utils.rs:46-47 | the result fails, with a division by zero, exactly when points is non-empty and the product of the differences points[0] − points[k] is not a unit |
| Utils.MostlyZeroRepeated | src/utils.rs:46-47 | when points[0] reappears among points[1..], the scale is 0 and the division fails |
| Utils.MostlyZeroAtFirst | src/utils.rs:46-47 | when points[0] differs from every later point by a unit, the result exists and takes the value eval at points[0] |
| Utils.MostlyZeroShape | src/utils.rs:38-47 | with a unit eval and distinct points the result is normalised, with \|points\| coefficients and degree \|points\| − 1 |
| Utils.MostlyZeroZero | src/utils.rs:46-47 | with eval 0 a successful result is the zero polynomial |
| Setup.SecretKey.constructor | src/setup.rs:61-65 | the key holds the given scalar |
| Setup.SecretKey.Nullify | src/setup.rs:67-69 | sk becomes 1, after which partial_decryption returns every γ unchanged |
| Setup.SecretKey.PartialDecryption | src/setup.rs:161-163 | γ times sk, a BLS signature: e(g1, result) = e(g1·sk, γ); it reads the key and does not change it |
| Setup.SecretKey.GetPk | src/setup.rs:71-159 | the result is OnlinePk: the n sk_li_by_z hints, then sk_li, sk_li_minus0 and sk_li_by_tau, with the first failing commitment in await order deciding the error |
| Setup.ByZHint | src/setup.rs:90-107 | task j commits sk times the quotient of num_j by xⁿ − 1, where num_j is li·li − li for j == id and lj·li otherwise; the remainder is discarded |
| Setup.SpawnByZTasks | src/setup.rs:82-109 | the loop spawns exactly n tasks, task j computing hint j, in the order j = 0 .. n−1 |
| Setup.ByZTasksCommit | src/setup.rs:85-109 | the first m spawned tasks are the first m scaled commitments to the quotients |
| Setup.AwaitInOrder | src/setup.rs:147-149 | awaiting the tasks in order gives their values in order, or the error of the first failing task |
| Results.CollectOk | src/setup.rs:147-149 | awaiting succeeds exactly when every task does, and value k is task k's value |
| Results.CollectFirstError | src/setup.rs:147-149 | a failed await carries the error of the first task that failed |
| Results.CollectErr | src/setup.rs:147-149 | once a task has failed, awaiting further tasks keeps that error |
| Setup.CommitScaledEntries | src/setup.rs:99-105 | after a successful await, hint k is the commitment to sk times quotient k |
| Setup.SkLiSrs | src/setup.rs:124-133 | against powers g·τ^k, sk_li is g·sk·li(τ) |
| Setup.SkLiMinus0Srs | src/setup.rs:136-145 | against powers g·τ^k, sk_li_minus0 is g·sk·(li(τ) − li(0)); success implies li is non-empty and not the zero polynomial, and sk is non-zero |
| Setup.SkLiByTauSrs | src/setup.rs:115-122 | τ times sk_li_by_tau is g·sk·(li(τ) − li(0)): the hint commits to the non-constant part of sk·li divided by x |
| Setup.ByZSrs | src/setup.rs:91-105 | hint j times (τⁿ − 1), plus the commitment to sk times the discarded remainder, is g·sk·num_j(τ) |
| Setup.OnlinePkSrs | src/setup.rs:71-159 | get_pk keeps id, sets bls_pk to the generator times sk, produces exactly n sk_li_by_z entries, each meeting the division identity at τ, and τ·sk_li_by_tau == sk_li_minus0 |
| Setup.GetPkExp | src/setup.rs:166-181 | the result is PkFromHelper: id kept, bls_pk = generator·sk, each of li, li_minus0 and li_by_tau at id times sk, and sk_li_by_z as long as helper.li_by_z[id] with entry k equal to helper.li_by_z[id][k]·sk; the helper is a value and is not changed |
| Setup.PkExpMatchesOnline | src/setup.rs:166-181 | for a unit sk and a helper row that holds get_pk's hints for secret 1, get_pk_exp derives exactly the key get_pk derives |
| Setup.CommitScaledAtSecret | src/setup.rs:166-171 | the by-z hints for a unit secret sk are sk times the hints for secret 1 |
| Setup.NewAggregateKey | src/setup.rs:184-211 | the nested loops compute AggregateKeyOf: ask = Σⱼ pk[j].sk_li and entry i of agg_sk_li_by_z = Σⱼ pk[j].sk_li_by_z[i] for i < n |
| Setup.AggregateKeyPowers | src/setup.rs:185-209 | pk is stored unchanged, agg_sk_li_by_z has n entries, h_minus1 = −powers_of_h[0], z_g2 = powers_of_h[n] − powers_of_h[0], e_gh = e(powers_of_g[0], powers_of_h[0]) |
| Setup.AggregateKeyOrder | src/setup.rs:188-201 | ask and agg_sk_li_by_z are the same for every reordering of pk |
| Decryption.Partition | src/decryption.rs:37-45 | the loop yields Parties and Points: ascending responder indexes, and ω⁰ followed by the non-responders' elements |
| Decryption.PartitionFacts | src/decryption.rs:37-45 | i < n is in parties iff selector[i] holds, and in the non-responders otherwise; both lists ascend; \|parties\| + \|points\| == n + 1 |
| Decryption.SelectorZeroFalse | src/decryption.rs:37-47 | with selector[0] false, B and hence agg_dec fail with a division by zero |
| Decryption.BFacts | src/decryption.rs:47-51 | for a valid selection B exists and is normalised with \|points\| ≤ n coefficients; B(ω⁰) = 1; B vanishes at every non-responder; fft returns B's evaluations on the domain |
| Decryption.BVanishes | src/decryption.rs:47-48 | a successful B is 0 at ω^i for every i < n with selector[i] false |
| Decryption.EvalBminus1 | src/decryption.rs:64-65 | bminus1 evaluates to B − 1 at every point |
| Decryption.Bminus1Exact | src/decryption.rs:64-75 | where B is 1, bminus1 vanishes and (x − a)·q0(x) = B(x) − 1 at every x: the division is exact |
| Decryption.Q0Degree | src/decryption.rs:69-75 | q0 has degree deg B − 1 (0 for constant B) |
| Decryption.BhatShape | src/decryption.rs:84-88 | bhat is t zeros followed by B, of degree t + \|points\| − 1; its degree is n − 1 iff \|parties\| == t + 1; bhat(x) = xᵗ·B(x) at every x |
| Decryption.FromU32 | src/decryption.rs:96 | the `as u32` cast gives a value below 2³², equal to n when n < 2³² |
| Decryption.Gather | src/decryption.rs:102-110 | the bases/scalars loop followed by msm is the B-weighted sum over parties of the values at those indexes |
| Decryption.SumOverParties | src/decryption.rs:96-175 | when the weights vanish at non-responders, the sum over parties is the msm over all n indexes |
| Decryption.NonRespondersContributeNothing | src/decryption.rs:96-175 | the B-weighted sum over parties equals the B-weighted sum over all n parties |
| Decryption.PairingInputsShape | src/decryption.rs:178-195 | both sides have 8 entries: lhs = [−apk, −qz, −qx, qhatx, −bhat_g1, −q0_g1] ++ sa1 and rhs = sa2 ++ [b_g2, sigma]; the multi-pairing splits accordingly |
| Decryption.AggDecTail | src/decryption.rs:100-196 | apk and sigma are (1/n)·Σ over parties of B(ω^i) times bls_pk and partial_decryptions; qx, qz and qhatx are the same sums without 1/n over sk_li_by_tau, agg_sk_li_by_z and sk_li_minus0; failures of the bhat and b_g2 commitments surface in that order |
| Decryption.AggDec | src/decryption.rs:23-198 | the method computes AggDecSpec, including its failure order: B's rescaling, the empty bminus1, q0's commitment, 1/n, bhat's commitment, b_g2's commitment |
| Decryption.AggDecSucceeds | src/decryption.rs:23-198 | for a valid selection, agg_dec succeeds iff the G1 powers cover q0 and bhat, the G2 powers cover B, and n mod 2³² is a unit |
| Decryption.PartVerify | src/decryption.rs:200-202 | the check e(bls_pk, γ) == e(g1, part_dec); for a unit g1 it accepts exactly part_dec = γ·bls_pk / g1 |
| Decryption.PartVerifyIff | src/decryption.rs:200-202 | for bls_pk = g1·sk with a unit g1, part_verify accepts exactly part_dec = γ·sk |
| Decryption.PartVerifyHonest | src/setup.rs:161-163 | the partial decryption of the key behind bls_pk passes part_verify |
| Decryption.PrepareAndPair | src/decryption.rs:204-209 | the check e(hint, h0) == e(bls_pk, li_x); for a unit h0 it accepts exactly hint = bls_pk·li_x / h0 |
| Decryption.PrepareAndPairIff | src/decryption.rs:204-209 | with a unit h0 and a helper entry h0·y, the check accepts exactly hint = bls_pk·y |
| Decryption.IsValid | src/decryption.rs:211-231 | returns true iff all 3 + n checks pass in the order sk_li, sk_li_minus0, sk_li_by_tau, sk_li_by_z[0..n); it stops at the first failing check |
| Decryption.ChecksExactly | src/decryption.rs:215-228 | with helper entries h0·y_k, all checks pass iff every hint is bls_pk·y_k |
| Decryption.ChecksIgnoreExtra | src/decryption.rs:224-228 | entries of sk_li_by_z and li_by_z at index ≥ n do not affect the checks |

## Left out

- Curve arithmetic, the pairing, MSM and `KZG10::commit_g1/commit_g2` are
  foreign library code. They are modelled by discrete logarithms, as above.
  Module `Kzg` models only `commit_g1` and `commit_g2`. The rest of the
  crate's `kzg` module (setup, opening proofs) is not part of this model.
- Domain construction and FFT internals (`Radix2EvaluationDomain::new`,
  `fft`, `interpolate`) are foreign library code.
  - The domain is a parameter.
  - The library rounds the domain size up to a power of two. The model
    takes n to be the domain size, so in `get_pk` the vanishing polynomial
    is xⁿ − 1.
  - Interpolation is given in Lagrange form rather than computed by an
    inverse FFT.
- Field: P is not proved to be prime. Statements that need an inverse say
  "unit" where the field would say "non-zero".
- `SecretKey::new`: the random scalar is a constructor parameter, because
  the random number generator is not modelled.
- tokio task spawning, cloning and joining: every task is awaited in a
  fixed order, so the model runs the tasks in sequence.
  - Task panics are failures, reported in the order the handles are
    unwrapped.
  - The generator times sk cannot fail.
- debug_assert!: release-build semantics, so the asserts are not failure
  points. The `agg_dec` asserts about B, `bminus1` and `bhat` are proved
  or characterised by lemmas (`Decryption.BFacts`,
  `Decryption.Bminus1Exact`, `Decryption.BhatShape`). `lagrange_poly` with
  i ≥ n gives the zero polynomial.
- Constructing `LagrangePolyHelper` and `IsValidHelper` is not part of this
  model. The tables are parameters, and `Setup.PkExpMatchesOnline` states
  the table contents under which `get_pk_exp` agrees with `get_pk`.
- These are I/O and wire plumbing, not part of this model:
  - `convert_hex_to_g1/g2` and transcript loading in `src/utils.rs`;
  - serde transcript structs;
  - route handlers;
  - deserialisation;
  - the encryption module;
  - SHA-256 and AES wrapping.
- Security properties such as confidentiality below the threshold cannot
  be expressed over the discrete-logarithm model.
- Decryption.IsValid: requires n entries in `sk_li_by_z` and `li_by_z` on every
  call. The source indexes them only once the first three checks and the
  earlier by-z checks have passed, so it returns false without indexing on
  some shorter inputs that the model's precondition excludes.
