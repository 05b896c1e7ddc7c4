/**
 * The bounded generate/validate loop `get_invalid_code`: ask a generator for
 * contract source up to `maxTries` times. It stops at the first attempt whose
 * generator or compiler raises. A compiler rejection is packaged as a task
 * record; a generator exception packages the previous candidate, which
 * compiled, or reads an unbound `code` on the first attempt. The generator
 * and the compiler are oracles: attempt `j` gets `gen(j)`, and
 * `compiles(src)` says whether compiling `src` returns normally (true) or
 * raises (false).
 */
module InvalidCodeLoop {
  import opened Wrappers
  import opened Text

  /** What one call of the generator does: return source text, or raise. */
  datatype GenOutcome = Generated(src: string) | GeneratorFailed

  datatype KnownVulnerability = InvalidCode
  datatype TaskType = RandomText

  /** The task record handed to the caller. */
  datatype ValidatorTask = ValidatorTask(
    contractCode: string,
    fromLine: int,
    toLine: int,
    vulnerabilityClass: KnownVulnerability,
    taskType: TaskType)

  datatype Error =
    | Exhausted       // the `ValueError` raised when every attempt compiled
    | CodeUnbound     // `code` read before any generator call returned
    | GeneratorFault  // the generator raised (corrected loop only)

  /** The result of a run and how many times the generator was called. */
  datatype Run = Run(result: Result<ValidatorTask, Error>, attempts: nat)

  /** The record built after the loop: the whole source, lines 1 to `len(code.splitlines()) + 1`. */
  function TaskFor(code: string): ValidatorTask {
    ValidatorTask(code, 1, LineCount(code) + 1, InvalidCode, RandomText)
  }

  /** An attempt ends the loop: the generator raised or the compiler rejected the candidate. */
  predicate Stops(o: GenOutcome, compiles: string -> bool) {
    o.GeneratorFailed? || !compiles(o.src)
  }

  /** The first attempt at or after `from` that ends the loop, or `from`/`n` when none below `n` does. */
  function FirstStop(gen: nat -> GenOutcome, compiles: string -> bool, n: int, from: nat): (k: nat)
    ensures from <= k
    ensures k < n ==> Stops(gen(k), compiles)
    ensures from <= n ==> k <= n
    ensures from >= n ==> k == from
    ensures forall j :: from <= j < k ==> !Stops(gen(j), compiles)
    decreases n - from
  {
    if from >= n then from
    else if Stops(gen(from), compiles) then from
    else FirstStop(gen, compiles, n, from + 1)
  }

  /**
   * What the source does, stated without its loop: with a budget of `n`, the
   * run ends at the first attempt that stops it, or raises after `n` attempts
   * that all compiled. When the generator raises, `code` still holds the
   * previous attempt's candidate, or is unbound on the first attempt.
   */
  function AsWritten(gen: nat -> GenOutcome, compiles: string -> bool, n: int): Run {
    if n <= 0 then Run(Failure(CodeUnbound), 0)
    else
      var k := FirstStop(gen, compiles, n, 0);
      if k == n then Run(Failure(Exhausted), n)
      else if gen(k).Generated? then Run(Success(TaskFor(gen(k).src)), k + 1)
      else if k == 0 then Run(Failure(CodeUnbound), 1)
      else Run(Success(TaskFor(gen(k - 1).src)), k + 1)
  }

  /** The loop with the generator failure kept apart from a compiler rejection. */
  function Corrected(gen: nat -> GenOutcome, compiles: string -> bool, n: int): Run {
    if n <= 0 then Run(Failure(Exhausted), 0)
    else
      var k := FirstStop(gen, compiles, n, 0);
      if k == n then Run(Failure(Exhausted), n)
      else if gen(k).Generated? then Run(Success(TaskFor(gen(k).src)), k + 1)
      else Run(Failure(GeneratorFault), k + 1)
  }

  /** `get_invalid_code()` as written, with `MAX_TRIES` passed in as `maxTries`. */
  method GetInvalidCode(gen: nat -> GenOutcome, compiles: string -> bool, maxTries: int)
    returns (result: Result<ValidatorTask, Error>, attempts: nat)
    ensures Run(result, attempts) == AsWritten(gen, compiles, maxTries)
  {
    var retries := maxTries;
    var code: Option<string> := None;
    attempts := 0;
    while retries > 0
      invariant maxTries <= 0 ==> attempts == 0 && retries == maxTries
      invariant maxTries > 0 ==> 0 <= retries < maxTries + 1 && attempts == maxTries - retries
      invariant forall j :: 0 <= j < attempts ==> !Stops(gen(j), compiles)
      invariant code == if attempts == 0 then None else Some(gen(attempts - 1).src)
      invariant maxTries > 0 ==> retries > 0  // the loop is only ever left by `break` or `raise`
    {
      retries := retries - 1;
      var outcome := gen(attempts);
      attempts := attempts + 1;
      if outcome.GeneratorFailed? {
        break;
      }
      code := Some(outcome.src);
      if !compiles(outcome.src) {
        break;
      }
      if retries == 0 {
        result := Failure(Exhausted);
        assert FirstStop(gen, compiles, maxTries, 0) == maxTries;
        return;
      }
    }
    if maxTries > 0 {
      assert FirstStop(gen, compiles, maxTries, 0) == attempts - 1;
    }
    match code
    case None =>
      result := Failure(CodeUnbound);
    case Some(c) =>
      result := Success(TaskFor(c));
  }

  /**
   * The loop corrected: a record is only built from the candidate the
   * compiler rejected in the same attempt, and a generator failure is
   * reported as such.
   */
  method GetInvalidCodeChecked(gen: nat -> GenOutcome, compiles: string -> bool, maxTries: int)
    returns (result: Result<ValidatorTask, Error>, attempts: nat)
    ensures Run(result, attempts) == Corrected(gen, compiles, maxTries)
    ensures result.Success? ==>
      && 1 <= attempts <= maxTries
      && gen(attempts - 1) == Generated(result.value.contractCode)
      && !compiles(result.value.contractCode)
  {
    var retries := maxTries;
    attempts := 0;
    while retries > 0
      invariant maxTries <= 0 ==> attempts == 0 && retries == maxTries
      invariant maxTries > 0 ==> 0 <= retries < maxTries + 1 && attempts == maxTries - retries
      invariant forall j :: 0 <= j < attempts ==> !Stops(gen(j), compiles)
    {
      retries := retries - 1;
      var outcome := gen(attempts);
      attempts := attempts + 1;
      if outcome.GeneratorFailed? {
        assert FirstStop(gen, compiles, maxTries, 0) == attempts - 1;
        result := Failure(GeneratorFault);
        return;
      }
      if !compiles(outcome.src) {
        assert FirstStop(gen, compiles, maxTries, 0) == attempts - 1;
        result := Success(TaskFor(outcome.src));
        return;
      }
    }
    if maxTries > 0 {
      assert FirstStop(gen, compiles, maxTries, 0) == maxTries;
    }
    result := Failure(Exhausted);
  }

  /** The first attempt to stop the loop is unique. */
  lemma FirstStopAt(gen: nat -> GenOutcome, compiles: string -> bool, n: int, k: nat)
    requires k < n && Stops(gen(k), compiles)
    requires forall j :: 0 <= j < k ==> !Stops(gen(j), compiles)
    ensures FirstStop(gen, compiles, n, 0) == k
  {
  }

  /** The generator is called at most `maxTries` times, and at least once when the budget allows. */
  lemma AttemptsBounded(gen: nat -> GenOutcome, compiles: string -> bool, n: int)
    ensures n <= 0 ==> AsWritten(gen, compiles, n).attempts == 0
    ensures n >= 1 ==> 1 <= AsWritten(gen, compiles, n).attempts <= n
  {
  }

  /**
   * The run raises `ValueError` exactly when all `n` attempts produced source
   * that compiled, and then only after the `n`-th attempt.
   */
  lemma ExhaustedIffAllCompile(gen: nat -> GenOutcome, compiles: string -> bool, n: int)
    requires n >= 1
    ensures AsWritten(gen, compiles, n).result == Failure(Exhausted)
        <==> forall j :: 0 <= j < n ==> gen(j).Generated? && compiles(gen(j).src)
    ensures AsWritten(gen, compiles, n).result == Failure(Exhausted) ==> AsWritten(gen, compiles, n).attempts == n
  {
    var k := FirstStop(gen, compiles, n, 0);
    if k < n {
      assert Stops(gen(k), compiles);
    }
  }

  /** A compiler rejection on attempt `k` ends the run there, and the record holds that attempt's candidate. */
  lemma RejectionEndsRun(gen: nat -> GenOutcome, compiles: string -> bool, n: int, k: nat)
    requires k < n && gen(k).Generated? && !compiles(gen(k).src)
    requires forall j :: 0 <= j < k ==> !Stops(gen(j), compiles)
    ensures AsWritten(gen, compiles, n) == Run(Success(TaskFor(gen(k).src)), k + 1)
  {
    FirstStopAt(gen, compiles, n, k);
  }

  /** Every record spans the whole source: lines 1 to its line count plus one, tagged invalid code / random text. */
  lemma RecordFidelity(gen: nat -> GenOutcome, compiles: string -> bool, n: int)
    requires AsWritten(gen, compiles, n).result.Success?
    ensures var t := AsWritten(gen, compiles, n).result.value;
      && t.fromLine == 1
      && t.toLine == |Lines(t.contractCode)| + 1
      && t.vulnerabilityClass == InvalidCode
      && t.taskType == RandomText
  {
  }

  /** With no budget, or a generator that raises on the first attempt, `code` is read unbound. */
  lemma UnboundCode(gen: nat -> GenOutcome, compiles: string -> bool, n: int)
    requires n <= 0 || gen(0).GeneratorFailed?
    ensures AsWritten(gen, compiles, n).result == Failure(CodeUnbound)
  {
    if n > 0 {
      FirstStopAt(gen, compiles, n, 0);
    }
  }

  /**
   * A generator failure after an attempt that compiled returns a record
   * built from that earlier candidate, which the compiler accepted.
   */
  lemma StaleCandidate(gen: nat -> GenOutcome, compiles: string -> bool, n: int, k: nat)
    requires 0 < k < n && gen(k).GeneratorFailed?
    requires forall j :: 0 <= j < k ==> !Stops(gen(j), compiles)
    ensures AsWritten(gen, compiles, n).result.Success?
    ensures compiles(AsWritten(gen, compiles, n).result.value.contractCode)
  {
    FirstStopAt(gen, compiles, n, k);
    assert !Stops(gen(k - 1), compiles);
  }

  /** Attempt 1 generates a well-formed contract; every later attempt raises. */
  function CompilesThenFails(j: nat): GenOutcome {
    if j == 0 then Generated("contract A {}") else GeneratorFailed
  }

  /** A compiler that rejects exactly one source: a contract with no closing brace. */
  function RejectsUnclosed(src: string): bool {
    src != "contract B {"
  }

  /**
   * A concrete run: the first candidate compiles, the generator then raises,
   * and the compiling source comes back as "invalid code". The corrected loop
   * reports the generator fault after the same two attempts instead.
   */
  lemma StaleCandidateExample()
    ensures AsWritten(CompilesThenFails, RejectsUnclosed, 10) == Run(Success(TaskFor("contract A {}")), 2)
    ensures Corrected(CompilesThenFails, RejectsUnclosed, 10) == Run(Failure(GeneratorFault), 2)
  {
    FirstStopAt(CompilesThenFails, RejectsUnclosed, 10, 1);
  }

  /** The corrected loop only ever returns the candidate the compiler rejected on the last attempt. */
  lemma CorrectedRecordRejected(gen: nat -> GenOutcome, compiles: string -> bool, n: int)
    requires Corrected(gen, compiles, n).result.Success?
    ensures var run := Corrected(gen, compiles, n);
      && 1 <= run.attempts <= n
      && gen(run.attempts - 1) == Generated(run.result.value.contractCode)
      && !compiles(run.result.value.contractCode)
  {
  }

  /** For a budget of at least one attempt, while the generator does not raise in those attempts, the correction changes nothing. */
  lemma CorrectedAgreesWithoutFaults(gen: nat -> GenOutcome, compiles: string -> bool, n: int)
    requires n >= 1
    requires forall j :: 0 <= j < n ==> gen(j).Generated?
    ensures Corrected(gen, compiles, n) == AsWritten(gen, compiles, n)
  {
  }

  /** The corrected loop never reads an unbound candidate, whatever the budget and the oracles. */
  lemma CorrectedNeverUnbound(gen: nat -> GenOutcome, compiles: string -> bool, n: int)
    ensures Corrected(gen, compiles, n).result != Failure(CodeUnbound)
  {
  }

  /**
   * Where the original reads `code` unbound, the corrected loop reports
   * exhaustion (no budget) or the generator fault of the first attempt.
   */
  lemma CorrectedNoBudget(gen: nat -> GenOutcome, compiles: string -> bool, n: int)
    requires n <= 0 || gen(0).GeneratorFailed?
    ensures n <= 0 ==> Corrected(gen, compiles, n) == Run(Failure(Exhausted), 0)
    ensures n > 0 ==> Corrected(gen, compiles, n) == Run(Failure(GeneratorFault), 1)
  {
    if n > 0 {
      FirstStopAt(gen, compiles, n, 0);
    }
  }
}
