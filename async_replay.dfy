/**
 * hpx::resiliency::async_replay: run a function f, and run it again when it
 * throws or when its result fails a validator, at most n more times.
 * The asynchrony is flattened: the outcomes of successive launches are
 * given as `attempts`, launch k producing attempts(k).
 */
module AsyncReplay {
  import opened Wrappers

  /** What a launch of f produced. */
  datatype Attempt<T> = Returned(value: T) | Threw(error: ReplayException)

  /** An exception: abort_replay_exception, or any other (kept as `what`). */
  datatype ReplayException = AbortReplay | Raised(what: string)

  /** The future that call(n) finally yields, and how many launches it took. */
  datatype Replay<T> = Replay(result: Result<T, ReplayException>, launches: nat)

  /** replay_validator: every result is accepted. */
  predicate ReplayValidator<T>(result: T) {
    true
  }

  /** rethrow_on_abort_replay: an abort is passed on, any other exception is captured. */
  function RethrowOnAbortReplay(error: ReplayException): (r: Result<ReplayException, ReplayException>)
    ensures r.Failure? <==> error.AbortReplay?
    ensures r.Failure? ==> r.error == AbortReplay
    ensures r.Success? ==> r.value == error
  {
    if error.AbortReplay? then Failure(AbortReplay) else Success(error)
  }

  /**
   * async_replay_helper::call(n) as written, starting at launch k.  An
   * accepted result is returned only when n != 0; on the last allowed
   * attempt it is turned into abort_replay_exception.
   */
  function Call<T>(n: nat, k: nat, attempts: nat -> Attempt<T>, pred: T -> bool): (r: Replay<T>)
    ensures 1 <= r.launches <= n + 1
    decreases n
  {
    match attempts(k)
    case Threw(error) =>
      (match RethrowOnAbortReplay(error)
       case Failure(abort) => Replay(Failure(abort), 1)
       case Success(captured) =>
         if n != 0 then
           var rest := Call(n - 1, k + 1, attempts, pred);
           Replay(rest.result, rest.launches + 1)
         else Replay(Failure(captured), 1))
    case Returned(value) =>
      if !pred(value) then
        if n != 0 then
          var rest := Call(n - 1, k + 1, attempts, pred);
          Replay(rest.result, rest.launches + 1)
        else Replay(Failure(AbortReplay), 1)
      else if n != 0 then Replay(Success(value), 1)
      else Replay(Failure(AbortReplay), 1)
  }

  /** call(n) with an accepted result returned on every attempt, the last one included. */
  function CallCorrected<T>(n: nat, k: nat, attempts: nat -> Attempt<T>, pred: T -> bool): (r: Replay<T>)
    ensures 1 <= r.launches <= n + 1
    decreases n
  {
    match attempts(k)
    case Threw(error) =>
      (match RethrowOnAbortReplay(error)
       case Failure(abort) => Replay(Failure(abort), 1)
       case Success(captured) =>
         if n != 0 then
           var rest := CallCorrected(n - 1, k + 1, attempts, pred);
           Replay(rest.result, rest.launches + 1)
         else Replay(Failure(captured), 1))
    case Returned(value) =>
      if !pred(value) then
        if n != 0 then
          var rest := CallCorrected(n - 1, k + 1, attempts, pred);
          Replay(rest.result, rest.launches + 1)
        else Replay(Failure(AbortReplay), 1)
      else Replay(Success(value), 1)
  }

  /** async_replay_validate(n, pred, f) */
  function AsyncReplayValidate<T>(n: nat, pred: T -> bool, attempts: nat -> Attempt<T>): (r: Replay<T>)
    ensures 1 <= r.launches <= n + 1
    ensures attempts(0).Returned? && pred(attempts(0).value) && n != 0 ==> r == Replay(Success(attempts(0).value), 1)
    ensures attempts(0).Returned? && n == 0 ==> r == Replay(Failure(AbortReplay), 1)
    ensures attempts(0) == Threw(AbortReplay) ==> r == Replay(Failure(AbortReplay), 1)
  {
    Call(n, 0, attempts, pred)
  }

  /** async_replay(n, f): async_replay_validate with replay_validator. */
  function AsyncReplay<T>(n: nat, attempts: nat -> Attempt<T>): (r: Replay<T>)
    ensures 1 <= r.launches <= n + 1
    ensures attempts(0).Returned? && n != 0 ==> r == Replay(Success(attempts(0).value), 1)
    ensures attempts(0) == Threw(AbortReplay) ==> r == Replay(Failure(AbortReplay), 1)
  {
    AsyncReplayValidate(n, (x: T) => ReplayValidator(x), attempts)
  }

  // ---------------------------------------------------------------------
  // Reference description of a replay

  /** A launch that ends the replay at once: an abort, or an accepted result. */
  predicate Decisive<T>(a: Attempt<T>, pred: T -> bool) {
    (a.Threw? && a.error.AbortReplay?) || (a.Returned? && pred(a.value))
  }

  /** What the launch `a` makes the replay yield when it is the final one. */
  function FinalResult<T>(a: Attempt<T>, pred: T -> bool): Result<T, ReplayException> {
    match a
    case Threw(error) => Failure(error)
    case Returned(value) => if pred(value) then Success(value) else Failure(AbortReplay)
  }

  /**
   * The replay stops at the first decisive launch among launches k..k+n,
   * or after launch k+n when none is; it yields what that launch makes it
   * yield.  `j` counts the launches before it.
   */
  lemma {:induction false} CorrectedStopsAtFirstDecisive<T>(n: nat, k: nat, attempts: nat -> Attempt<T>, pred: T -> bool)
    ensures var r := CallCorrected(n, k, attempts, pred);
      var j := r.launches - 1;
      (forall i :: k <= i < k + j ==> !Decisive(attempts(i), pred)) &&
      (j < n ==> Decisive(attempts(k + j), pred)) &&
      r.result == FinalResult(attempts(k + j), pred)
    decreases n
  {
    if n > 0 && !Decisive(attempts(k), pred) {
      CorrectedStopsAtFirstDecisive(n - 1, k + 1, attempts, pred);
    }
  }

  /** An abort thrown by f ends the replay at once, with no further launch. */
  lemma AbortIsRethrown<T>(n: nat, k: nat, attempts: nat -> Attempt<T>, pred: T -> bool)
    requires attempts(k) == Threw(AbortReplay)
    ensures Call(n, k, attempts, pred) == Replay(Failure(AbortReplay), 1)
  {
  }

  /** Another exception, or a rejected result, relaunches while attempts remain. */
  lemma {:induction false} FailureRelaunches<T>(n: nat, k: nat, attempts: nat -> Attempt<T>, pred: T -> bool)
    requires n != 0 && !Decisive(attempts(k), pred)
    ensures Call(n, k, attempts, pred).result == Call(n - 1, k + 1, attempts, pred).result
    ensures Call(n, k, attempts, pred).launches == Call(n - 1, k + 1, attempts, pred).launches + 1
  {
  }

  /** With no attempt left, another exception is rethrown and a rejected result aborts. */
  lemma LastAttemptFailure<T>(k: nat, attempts: nat -> Attempt<T>, pred: T -> bool)
    requires !Decisive(attempts(k), pred)
    ensures Call(0, k, attempts, pred).result ==
      if attempts(k).Threw? then Failure(attempts(k).error) else Failure(AbortReplay)
  {
  }

  /**
   * The replay as written agrees with the corrected one except that the
   * result of the last allowed launch, when accepted, becomes an abort.
   */
  lemma {:induction false} CallDiffersOnlyAtLastAttempt<T>(n: nat, k: nat, attempts: nat -> Attempt<T>, pred: T -> bool)
    ensures Call(n, k, attempts, pred).launches == CallCorrected(n, k, attempts, pred).launches
    ensures var c := CallCorrected(n, k, attempts, pred);
      Call(n, k, attempts, pred).result ==
        if c.launches == n + 1 && c.result.Success? then Failure(AbortReplay) else c.result
    decreases n
  {
    if n > 0 && !Decisive(attempts(k), pred) {
      CallDiffersOnlyAtLastAttempt(n - 1, k + 1, attempts, pred);
    }
  }

  /** As written, a result is returned only when some attempt was still left. */
  lemma {:induction false} AsWrittenNeverReturnsLastAttempt<T>(n: nat, k: nat, attempts: nat -> Attempt<T>, pred: T -> bool)
    ensures Call(n, k, attempts, pred).result.Success? ==> Call(n, k, attempts, pred).launches <= n
  {
    CallDiffersOnlyAtLastAttempt(n, k, attempts, pred);
  }

  /** async_replay(0, f) with an f that returns 42 fails with abort_replay_exception. */
  lemma AsWrittenZeroReplaysAborts()
    ensures AsyncReplay(0, (i: nat) => Returned(42)).result == Failure(AbortReplay)
  {
  }

  /** Corrected, async_replay(0, f) with an f that returns 42 yields 42. */
  lemma CorrectedZeroReplaysReturns()
    ensures CallCorrected(0, 0, (i: nat) => Returned(42), (x: int) => ReplayValidator(x)).result == Success(42)
  {
  }

  /** With replay_validator, the corrected replay yields the first result f returns. */
  lemma {:induction false} ValidatorAcceptsFirstResult<T>(n: nat, k: nat, attempts: nat -> Attempt<T>, j: nat, v: T)
    requires j <= n && attempts(k + j) == Returned(v)
    requires forall i :: k <= i < k + j ==> attempts(i).Threw? && attempts(i).error.Raised?
    ensures CallCorrected(n, k, attempts, (x: T) => ReplayValidator(x)) == Replay(Success(v), j + 1)
    decreases j
  {
    if j > 0 {
      ValidatorAcceptsFirstResult(n - 1, k + 1, attempts, j - 1, v);
    }
  }
}
