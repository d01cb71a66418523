/** Failures of the core.  Each one is a panic of the Rust code (an `unwrap`,
    an `expect` or an indexing of an empty coefficient vector) that depends on
    the values involved rather than on the shapes of the inputs. */
module Results {

  datatype Error =
    | DivisionByZero      // a field inverse of a non-unit (`inverse().unwrap()`, `/`)
    | SetupInsufficient   // a KZG commitment to a polynomial of too high a degree
    | EmptyCoefficients   // `coeffs[0]` or `coeffs[1..]` of the zero polynomial

  datatype Result<T> = Ok(value: T) | Err(error: Error)
  {
    predicate IsFailure() { Err? }

    function PropagateFailure<U>(): Result<U>
      requires Err?
    {
      Err(error)
    }

    function Extract(): T
      requires Ok?
    {
      value
    }
  }

  /** The values of the first m results, in order, or the error of the first
      of them that failed (the tasks of a loop joined one after another). */
  function Collect<T>(rs: seq<Result<T>>, m: nat): (r: Result<seq<T>>)
    requires m <= |rs|
    ensures r.Ok? ==> |r.value| == m
    decreases m
  {
    if m == 0 then Ok([])
    else
      var prev :- Collect(rs, m - 1);
      var h :- rs[m - 1];
      Ok(prev + [h])
  }

  /** One more result: its value is appended, or its error ends the run. */
  lemma CollectStep<T>(rs: seq<Result<T>>, j: nat, acc: seq<T>)
    requires j < |rs| && Collect(rs, j) == Ok(acc)
    ensures Collect(rs, j + 1) == if rs[j].Err? then Err(rs[j].error) else Ok(acc + [rs[j].value])
  {
  }

  /** Collecting succeeds exactly when every result does, and then holds
      their values. */
  lemma {:induction false} CollectOk<T>(rs: seq<Result<T>>, m: nat)
    requires m <= |rs|
    ensures Collect(rs, m).Ok? <==> forall k :: 0 <= k < m ==> rs[k].Ok?
    ensures Collect(rs, m).Ok? ==> forall k :: 0 <= k < m ==> Collect(rs, m).value[k] == rs[k].value
    decreases m
  {
    if m > 0 {
      CollectOk(rs, m - 1);
    }
  }

  /** rs[k] is the first failing result. */
  predicate FailsFirstAt<T>(rs: seq<Result<T>>, k: nat)
  {
    k < |rs| && rs[k].Err? && forall j :: 0 <= j < k ==> rs[j].Ok?
  }

  /** A failure is the error of the first failing result. */
  lemma {:induction false} CollectFirstError<T>(rs: seq<Result<T>>, m: nat)
    requires m <= |rs| && Collect(rs, m).Err?
    ensures exists k: nat :: k < m && FailsFirstAt(rs, k) && Collect(rs, m).error == rs[k].error
    decreases m
  {
    if m > 0 {
      if Collect(rs, m - 1).Err? {
        CollectFirstError(rs, m - 1);
      } else {
        CollectOk(rs, m - 1);
        assert rs[m - 1].Err?;
      }
    }
  }

  /** Once collecting fails, collecting more fails with the same error. */
  lemma {:induction false} CollectErr<T>(rs: seq<Result<T>>, m: nat, m': nat)
    requires m <= m' <= |rs| && Collect(rs, m).Err?
    ensures Collect(rs, m') == Collect(rs, m)
    decreases m' - m
  {
    if m < m' {
      CollectErr(rs, m, m' - 1);
    }
  }
}
