/** The retry loop one worker runs for its command. */
module Retry {
  import opened Wrappers
  import opened Shell

  /** What one launch of a command returns. */
  datatype Attempt = Attempt(stdout: string, stderr: string, error: Option<string>)

  /** The outcome of every launch: (index of the command, attempt number) to result. */
  type Oracle = (nat, int) -> Attempt

  /** The state of `out`, `err` and `stderr` before the first attempt. */
  const NOTHING_RUN := Attempt("", "", None)

  function AddFailure(command: ShellCommand, attempt: int, r: Attempt): ShellCommand
    requires r.error.Some?
  {
    command.(retryError := command.retryError + [Failure(attempt, r.error.value, r.stderr)])
  }

  /** What the worker stores once its loop is over. */
  function Finish(command: ShellCommand, last: Attempt): ShellCommand {
    command.(stdout := last.stdout, stderr := last.stderr, error := last.error, completed := true)
  }

  /** The command as the loop leaves it when it is about to test `attempt`. */
  function Rest(oracle: Oracle, index: nat, maxAttempts: int, attempt: int, command: ShellCommand, last: Attempt)
    : ShellCommand
    decreases maxAttempts - attempt
  {
    if attempt > maxAttempts then Finish(command, last)
    else
      var r := oracle(index, attempt);
      if r.error.None? then Finish(command, r)
      else Rest(oracle, index, maxAttempts, attempt + 1, AddFailure(command, attempt, r), r)
  }

  function Executed(oracle: Oracle, index: nat, maxAttempts: int, command: ShellCommand): ShellCommand {
    Rest(oracle, index, maxAttempts, 1, command, NOTHING_RUN)
  }

  /** Attempts `from` to `upTo` all fail. */
  ghost predicate AllFail(oracle: Oracle, index: nat, from: int, upTo: int) {
    forall a | from <= a <= upTo :: oracle(index, a).error.Some?
  }

  /** The retry entries of failed attempts `from` to `upTo`. */
  function FailuresOf(oracle: Oracle, index: nat, from: int, upTo: int): seq<Failure>
    requires AllFail(oracle, index, from, upTo)
    decreases upTo - from
  {
    if upTo < from then []
    else
      var r := oracle(index, from);
      [Failure(from, r.error.value, r.stderr)] + FailuresOf(oracle, index, from + 1, upTo)
  }

  /** `k` is the number of the first attempt that succeeds, or `maxAttempts` if none does. */
  ghost predicate IsLastRun(oracle: Oracle, index: nat, maxAttempts: int, k: int) {
    && 1 <= k <= maxAttempts
    && AllFail(oracle, index, 1, k - 1)
    && (k < maxAttempts ==> oracle(index, k).error.None?)
  }

  lemma LastRunIsUnique(oracle: Oracle, index: nat, maxAttempts: int, j: int, k: int)
    requires IsLastRun(oracle, index, maxAttempts, j) && IsLastRun(oracle, index, maxAttempts, k)
    ensures j == k
  {
    assert j < k ==> oracle(index, j).error.Some?;
    assert k < j ==> oracle(index, k).error.Some?;
  }

  lemma {:induction false} RestFrom(oracle: Oracle, index: nat, maxAttempts: int, k: int, attempt: int,
                                    command: ShellCommand, last: Attempt)
    requires IsLastRun(oracle, index, maxAttempts, k) && 1 <= attempt <= k
    ensures var r := oracle(index, k);
      var failures := if r.error.Some? then k else k - 1;
      AllFail(oracle, index, attempt, failures)
      && Rest(oracle, index, maxAttempts, attempt, command, last)
         == Finish(command.(retryError := command.retryError + FailuresOf(oracle, index, attempt, failures)), r)
    decreases k - attempt
  {
    var r := oracle(index, attempt);
    if attempt < k {
      assert r.error.Some?;
      var next := AddFailure(command, attempt, r);
      RestFrom(oracle, index, maxAttempts, k, attempt + 1, next, r);
      var failures := if oracle(index, k).error.Some? then k else k - 1;
      assert next.retryError + FailuresOf(oracle, index, attempt + 1, failures)
          == command.retryError + FailuresOf(oracle, index, attempt, failures);
    } else if r.error.Some? {
      assert k == maxAttempts;
      assert FailuresOf(oracle, index, k, k) == [Failure(k, r.error.value, r.stderr)];
    } else {
      assert command.retryError + [] == command.retryError;
    }
  }

  /** `FailuresOf` has one entry per attempt, numbered consecutively. */
  lemma {:induction false} FailuresAreConsecutive(oracle: Oracle, index: nat, from: int, upTo: int)
    requires AllFail(oracle, index, from, upTo) && from <= upTo + 1
    ensures var fs := FailuresOf(oracle, index, from, upTo);
      && |fs| == upTo - from + 1
      && forall i | 0 <= i < |fs| ::
           fs[i] == Failure(from + i, oracle(index, from + i).error.value, oracle(index, from + i).stderr)
    decreases upTo - from
  {
    if from <= upTo {
      FailuresAreConsecutive(oracle, index, from + 1, upTo);
      var rest := FailuresOf(oracle, index, from + 1, upTo);
      forall i | 0 <= i < 1 + |rest|
        ensures FailuresOf(oracle, index, from, upTo)[i]
             == Failure(from + i, oracle(index, from + i).error.value, oracle(index, from + i).stderr)
      {
        if i > 0 {
          assert FailuresOf(oracle, index, from, upTo)[i] == rest[i - 1];
        }
      }
    }
  }

  /** What `k` launches make of a command: output, stderr and error are those of the last launch, `RetryError`
      gains one entry for each failed launch, in order, the command is completed, and nothing else changes. */
  ghost predicate RanAs(oracle: Oracle, index: nat, k: int, command: ShellCommand, done: ShellCommand) {
    var r := oracle(index, k);
    && done == command.(stdout := r.stdout, stderr := r.stderr, error := r.error,
                        retryError := done.retryError, completed := true)
    && ListsFailures(oracle, index, if r.error.Some? then k else k - 1, command.retryError, done.retryError)
  }

  /** What `RetryError` says of a failed launch. */
  function Report(attempt: int, r: Attempt): Failure {
    Failure(attempt, if r.error.Some? then r.error.value else "", r.stderr)
  }

  /** `after` is `before` with one entry for each of the first `n` launches, all failed. */
  ghost predicate ListsFailures(oracle: Oracle, index: nat, n: int, before: seq<Failure>, after: seq<Failure>) {
    && n >= 0 && AllFail(oracle, index, 1, n)
    && after == before + seq(n, i => Report(i + 1, oracle(index, i + 1)))
  }

  lemma FailuresAreListed(oracle: Oracle, index: nat, n: int, before: seq<Failure>)
    requires n >= 0 && AllFail(oracle, index, 1, n)
    ensures ListsFailures(oracle, index, n, before, before + FailuresOf(oracle, index, 1, n))
  {
    FailuresAreConsecutive(oracle, index, 1, n);
    assert FailuresOf(oracle, index, 1, n) == seq(n, i => Report(i + 1, oracle(index, i + 1)));
  }

  /** With at least one attempt allowed, the loop leaves what its launches up to the last one make of the command. */
  lemma RetryOutcome(oracle: Oracle, index: nat, maxAttempts: int, k: int, command: ShellCommand)
    requires IsLastRun(oracle, index, maxAttempts, k)
    ensures RanAs(oracle, index, k, command, Executed(oracle, index, maxAttempts, command))
  {
    var failures := if oracle(index, k).error.Some? then k else k - 1;
    RestFrom(oracle, index, maxAttempts, k, 1, command, NOTHING_RUN);
    FailuresAreListed(oracle, index, failures, command.retryError);
  }

  /** What is left of a command that was not launched at all. */
  function Untried(command: ShellCommand): ShellCommand {
    command.(stdout := "", stderr := "", error := None, completed := true)
  }

  /** With no attempt allowed nothing runs, yet the command ends completed and without an error. */
  lemma NoAttempts(oracle: Oracle, index: nat, maxAttempts: int, command: ShellCommand)
    ensures maxAttempts < 1
        <==> forall o: Oracle :: Executed(o, index, maxAttempts, command) == Untried(command)
  {
    if maxAttempts >= 1 {
      var o: Oracle := (i, a) => Attempt("ran", "", None);
      assert Executed(o, index, maxAttempts, command).stdout == "ran";
      assert Untried(command).stdout == "";
    }
  }

  /** The worker's loop. `runs` is how many times the command was launched. */
  method RunWithRetries(oracle: Oracle, index: nat, maxAttempts: int, original: ShellCommand)
    returns (command: ShellCommand, runs: nat)
    ensures command == Executed(oracle, index, maxAttempts, original)
    ensures if maxAttempts < 1 then runs == 0 else IsLastRun(oracle, index, maxAttempts, runs)
  {
    command, runs := original, 0;
    var last := NOTHING_RUN;
    var attempt := 1;
    while attempt <= maxAttempts
      invariant attempt == runs + 1 && (attempt <= maxAttempts + 1 || maxAttempts < 1)
      invariant maxAttempts < 1 ==> attempt == 1
      invariant AllFail(oracle, index, 1, runs)
      invariant Rest(oracle, index, maxAttempts, attempt, command, last)
             == Executed(oracle, index, maxAttempts, original)
    {
      last := oracle(index, attempt);
      runs := runs + 1;
      if last.error.None? {
        break;
      }
      command := AddFailure(command, attempt, last);
      attempt := attempt + 1;
    }
    command := Finish(command, last);
  }
}
