/** What holds of every interleaving of the executor: safety, progress, termination, confluence. */
module ExecutorTheorems {
  import opened Shell
  import opened Retry
  import opened RemoteOutputs
  import opened Executor

  lemma {:induction false} InvAlong(c: Config, s: State, schedule: seq<Step>)
    requires Inv(c, s) && Runnable(c, s, schedule)
    ensures Inv(c, RunAll(c, s, schedule))
    decreases |schedule|
  {
    if schedule != [] {
      StepInv(c, s, schedule[0]);
      InvAlong(c, Apply(c, s, schedule[0]), schedule[1..]);
    }
  }

  /** A state some interleaving reaches. */
  ghost predicate Reaches(c: Config, schedule: seq<Step>, t: State) {
    Runnable(c, Init(c), schedule) && t == RunAll(c, Init(c), schedule)
  }

  lemma ReachableInv(c: Config, schedule: seq<Step>, t: State)
    requires Reaches(c, schedule, t)
    ensures Inv(c, t)
  {
    InitInv(c);
    InvAlong(c, Init(c), schedule);
  }

  // ---------------------------------------------------------------- Safety

  /** What a worker phase says about how often its worker has sent and written. */
  function Sent(w: Worker): nat { if w.Signalled? then 1 else 0 }
  function Wrote(w: Worker): nat { if w.Signalled? || w.Written? then 1 else 0 }

  function Tally(b: bool): nat { if b then 1 else 0 }

  lemma StepTally(c: Config, s: State, step: Step, i: nat)
    requires Inv(c, s) && Enabled(c, s, step) && i < |c.commands|
    ensures var t := Apply(c, s, step);
      && Sent(s.workers[i]) + Tally(step == Rendezvous(i)) == Sent(t.workers[i])
      && Wrote(s.workers[i]) + Tally(step == Write(i)) == Wrote(t.workers[i])
      && s.runs[i] + Tally(step == Launch(i)) == t.runs[i]
  {
    SlotOwnership(c, s, step, i);
  }

  lemma CountFirst<T>(first: T, rest: seq<T>, x: T)
    ensures multiset([first] + rest)[x] == Tally(first == x) + multiset(rest)[x]
  {
  }

  lemma {:induction false} StepCounts(c: Config, s: State, schedule: seq<Step>, i: nat)
    requires Inv(c, s) && Runnable(c, s, schedule) && i < |c.commands|
    ensures var t := RunAll(c, s, schedule);
      && Sent(s.workers[i]) + multiset(schedule)[Rendezvous(i)] == Sent(t.workers[i])
      && Wrote(s.workers[i]) + multiset(schedule)[Write(i)] == Wrote(t.workers[i])
      && s.runs[i] + multiset(schedule)[Launch(i)] == t.runs[i]
    decreases |schedule|
  {
    if schedule != [] {
      var step, rest := schedule[0], schedule[1..];
      StepInv(c, s, step);
      StepTally(c, s, step, i);
      StepCounts(c, Apply(c, s, step), rest, i);
      assert schedule == [step] + rest;
      CountFirst(step, rest, Rendezvous(i));
      CountFirst(step, rest, Write(i));
      CountFirst(step, rest, Launch(i));
    }
  }

  /** Through any interleaving each index is received at most once, each slot is written at most once and
      not after its index was received, and each command has been launched as often as recorded. */
  lemma EachIndexAtMostOnce(c: Config, schedule: seq<Step>, t: State, i: nat)
    requires Reaches(c, schedule, t) && i < |c.commands|
    ensures multiset(schedule)[Rendezvous(i)] == if i in t.received then 1 else 0
    ensures multiset(schedule)[Rendezvous(i)] <= multiset(schedule)[Write(i)] <= 1
    ensures multiset(schedule)[Launch(i)] == t.runs[i]
  {
    InitInv(c);
    StepCounts(c, Init(c), schedule, i);
    ReachableInv(c, schedule, t);
    assert WorkerInv(c, i, t.workers[i], t.slots[i], i in t.received);
  }

  /** A slot changes only in its own worker's write step, and a worker's step touches that worker only. */
  lemma SlotOwnership(c: Config, s: State, step: Step, j: nat)
    requires Inv(c, s) && Enabled(c, s, step) && j < |c.commands|
    ensures var t := Apply(c, s, step);
      && (t.slots[j] != s.slots[j] ==> step == Write(j))
      && (t.runs[j] != s.runs[j] ==> step == Launch(j))
      && (t.workers[j] != s.workers[j] ==>
            || step in {Start(j), Launch(j), GiveUp(j), Write(j), Rendezvous(j)}
            || (step == Spawn && s.collector == Spawning(j)))
      && (j in t.received && j !in s.received ==> step == Rendezvous(j))
  {
  }

  /** A step of worker `j`, alone or with the collector. */
  predicate IsOwn(step: Step, j: nat) {
    !step.Spawn? && !step.Check? && !step.Return? && step.i == j
  }

  /** The steps of worker `j` in a schedule. */
  function Own(schedule: seq<Step>, j: nat): seq<Step> {
    if schedule == [] then []
    else (if IsOwn(schedule[0], j) then [schedule[0]] else []) + Own(schedule[1..], j)
  }

  predicate NotStarted(w: Worker) { w.NotSpawned? || w.Spawned? }

  /** Worker `j`, its slot and its launches are the same, but for whether its goroutine is about to start. */
  predicate SameFor(c: Config, s: State, t: State, j: nat)
    requires Shaped(c, s) && Shaped(c, t) && j < |c.commands|
  {
    && s.slots[j] == t.slots[j] && s.runs[j] == t.runs[j]
    && (s.workers[j] == t.workers[j] || (NotStarted(s.workers[j]) && NotStarted(t.workers[j])))
  }

  lemma OthersLeaveAlone(c: Config, s: State, step: Step, t: State, j: nat)
    requires Inv(c, s) && Enabled(c, s, step) && Shaped(c, t) && j < |c.commands| && !IsOwn(step, j)
    requires SameFor(c, s, t, j)
    ensures SameFor(c, Apply(c, s, step), t, j)
  {
    SlotOwnership(c, s, step, j);
    if step == Spawn && s.collector == Spawning(j) {
      assert s.workers[j] == NotSpawned;
    }
  }

  lemma OwnStepsAgree(c: Config, s: State, t: State, step: Step, j: nat)
    requires Inv(c, s) && Inv(c, t) && Enabled(c, s, step) && Enabled(c, t, step) && j < |c.commands|
    requires SameFor(c, s, t, j) && IsOwn(step, j)
    ensures SameFor(c, Apply(c, s, step), Apply(c, t, step), j)
  {
  }

  lemma FirstOwn(schedule: seq<Step>, j: nat)
    requires schedule != [] && IsOwn(schedule[0], j)
    ensures Own(schedule, j) != [] && Own(schedule, j)[0] == schedule[0]
    ensures Own(schedule, j)[1..] == Own(schedule[1..], j)
  {
  }

  /** What becomes of a worker, its slot and its launches is decided by its own steps: two interleavings in
      which these are the same leave it the same, whatever the others did. */
  lemma {:induction false} OwnStepsDecide(c: Config, s: State, a: seq<Step>, t: State, b: seq<Step>, j: nat)
    requires Inv(c, s) && Inv(c, t) && Runnable(c, s, a) && Runnable(c, t, b) && j < |c.commands|
    requires SameFor(c, s, t, j) && Own(a, j) == Own(b, j)
    ensures SameFor(c, RunAll(c, s, a), RunAll(c, t, b), j)
    decreases |a| + |b|
  {
    if a != [] && !IsOwn(a[0], j) {
      StepInv(c, s, a[0]);
      OthersLeaveAlone(c, s, a[0], t, j);
      OwnStepsDecide(c, Apply(c, s, a[0]), a[1..], t, b, j);
    } else if b != [] && !IsOwn(b[0], j) {
      StepInv(c, t, b[0]);
      OthersLeaveAlone(c, t, b[0], s, j);
      OwnStepsDecide(c, s, a, Apply(c, t, b[0]), b[1..], j);
    } else if a != [] && b != [] {
      FirstOwn(a, j);
      FirstOwn(b, j);
      StepInv(c, s, a[0]);
      StepInv(c, t, b[0]);
      OwnStepsAgree(c, s, t, a[0], j);
      OwnStepsDecide(c, Apply(c, s, a[0]), a[1..], Apply(c, t, b[0]), b[1..], j);
    }
  }

  /** Steps of two different workers do not disable each other and commute, from any state at all. */
  lemma WorkersCommute(c: Config, s: State, a: Step, b: Step)
    requires Shaped(c, s) && Enabled(c, s, a) && Enabled(c, s, b)
    requires IsWorkerStep(a) && IsWorkerStep(b) && a.i != b.i
    ensures Enabled(c, Apply(c, s, a), b) && Enabled(c, Apply(c, s, b), a)
    ensures Apply(c, Apply(c, s, a), b) == Apply(c, Apply(c, s, b), a)
  {
    var ab, ba := Apply(c, Apply(c, s, a), b), Apply(c, Apply(c, s, b), a);
    assert ab.workers == ba.workers;
    assert ab.slots == ba.slots;
    assert ab.runs == ba.runs;
  }

  /** When the collector looks at a slot, its worker has written it and is past its last step. */
  lemma CollectorReadsFinishedSlot(c: Config, schedule: seq<Step>, t: State)
    requires Reaches(c, schedule, t) && Enabled(c, t, Check)
    ensures var i := t.collector.index;
      && t.workers[i].Signalled?
      && t.slots[i] == Final(c, i)
      && t.slots[i].completed
  {
    ReachableInv(c, schedule, t);
    var i := t.collector.index;
    assert WorkerInv(c, i, t.workers[i], t.slots[i], i in t.received);
    FinalIsCompleted(c, i);
  }

  lemma {:induction false} RestIsCompleted(oracle: Oracle, index: nat, maxAttempts: int, attempt: int,
                                           command: ShellCommand, last: Attempt)
    ensures Rest(oracle, index, maxAttempts, attempt, command, last).completed
    decreases maxAttempts - attempt
  {
    if attempt <= maxAttempts {
      var r := oracle(index, attempt);
      if r.error.Some? {
        RestIsCompleted(oracle, index, maxAttempts, attempt + 1, AddFailure(command, attempt, r), r);
      }
    }
  }

  lemma FinalIsCompleted(c: Config, i: nat)
    requires i < |c.commands|
    ensures Final(c, i).completed
  {
    RestIsCompleted(c.oracle, i, c.maxAttempts, 1, c.commands[i], NOTHING_RUN);
  }

  /** Once an index was received, no continuation changes its slot: the collector's read cannot race. */
  lemma {:induction false} ReceivedSlotIsStable(c: Config, s: State, schedule: seq<Step>, i: nat)
    requires Inv(c, s) && Runnable(c, s, schedule) && i in s.received
    ensures i < |c.commands| && RunAll(c, s, schedule).slots[i] == s.slots[i]
    decreases |schedule|
  {
    if schedule != [] {
      var t := Apply(c, s, schedule[0]);
      StepInv(c, s, schedule[0]);
      assert WorkerInv(c, i, s.workers[i], s.slots[i], true);
      SlotOwnership(c, s, schedule[0], i);
      ReceivedSlotIsStable(c, t, schedule[1..], i);
    }
  }

  /** `numErrors` is the number of received (and examined) indices whose slot carries an error. */
  lemma ErrorCount(c: Config, schedule: seq<Step>, t: State)
    requires Reaches(c, schedule, t)
    requires t.collector.Collecting? || t.collector.Checking?
    ensures var examined := if t.collector.Checking? then t.received - {t.collector.index} else t.received;
      && t.collector.count == |examined|
      && (forall i | i in examined :: i < |c.commands|)
      && t.collector.numErrors == |set i | i in examined && t.slots[i].error.Some?|
  {
    ReachableInv(c, schedule, t);
    var examined := if t.collector.Checking? then t.received - {t.collector.index} else t.received;
    forall i | i in examined
      ensures i < |c.commands| && t.slots[i] == Final(c, i)
    {
      assert WorkerInv(c, i, t.workers[i], t.slots[i], i in t.received);
    }
    assert Failing(c, examined) == set i | i in examined && t.slots[i].error.Some?;
  }

  // ---------------------------------------------------------------- Confluence

  /** Whatever the interleaving, an execution that returns, returns what sequential execution returns. */
  lemma Confluence(c: Config, schedule: seq<Step>, t: State)
    requires Reaches(c, schedule, t) && t.collector.Returned?
    ensures t.collector.output == SequentialOutput(c)
  {
    ReachableInv(c, schedule, t);
  }

  /** Command `i` was launched `runs` times, up to its first success or `maxAttempts` times, and these launches
      made `done` of it. */
  ghost predicate RanWithin(c: Config, i: nat, runs: nat, done: ShellCommand)
    requires i < |c.commands|
  {
    if c.maxAttempts < 1 then runs == 0 && done == Untried(c.commands[i])
    else IsLastRun(c.oracle, i, c.maxAttempts, runs) && RanAs(c.oracle, i, runs, c.commands[i], done)
  }

  /** At return every command ran as often as its outcomes demand and is what its launches made of it, failed
      and retried commands are picked out of the list in order, and the error count is the number of failed ones. */
  lemma AtReturn(c: Config, schedule: seq<Step>, t: State)
    requires Reaches(c, schedule, t) && t.collector.Returned?
    ensures var out := t.collector.output;
      && out.scope == c.scope
      && |out.commands| == |c.commands|
      && out.numErrors == |out.failedCommands|
      && FailedArePicked(out) && RetriedArePicked(out)
      && forall i: nat | i < |c.commands| :: RanWithin(c, i, multiset(schedule)[Launch(i)], out.commands[i])
  {
    ReachableInv(c, schedule, t);
    var done := FinalCommands(c);
    OutputIsPicked(c.scope, |Select(done, Failed)|, done);
    forall i: nat | i < |c.commands|
      ensures RanWithin(c, i, multiset(schedule)[Launch(i)], done[i])
    {
      EachIndexAtMostOnce(c, schedule, t, i);
      assert RunsAgree(c, i, t.workers[i], t.runs[i]);
      if c.maxAttempts < 1 {
        NoAttempts(c.oracle, i, c.maxAttempts, c.commands[i]);
      } else {
        RetryOutcome(c.oracle, i, c.maxAttempts, t.runs[i], c.commands[i]);
      }
    }
  }

  // ---------------------------------------------------------------- Progress and termination

  function MaxRuns(c: Config): nat { if c.maxAttempts > 0 then c.maxAttempts else 0 }

  /** An upper bound on the steps a worker has left. */
  function WorkerWork(c: Config, w: Worker): nat {
    match w
    case NotSpawned => MaxRuns(c) + 5
    case Spawned => MaxRuns(c) + 4
    case Looping(attempt, _, _) => (if attempt <= c.maxAttempts then c.maxAttempts - attempt + 1 else 0) + 3
    case Leaving(_, _) => 2
    case Written => 1
    case Signalled => 0
  }

  function TotalWork(c: Config, workers: seq<Worker>): nat {
    if workers == [] then 0 else WorkerWork(c, workers[0]) + TotalWork(c, workers[1..])
  }

  function CollectorWork(c: Config, m: Collector): int {
    match m
    case Spawning(_) => 2 * |c.commands| + 1
    case Collecting(count, _) => 2 * (|c.commands| - count) + 1
    case Checking(count, _, _) => 2 * (|c.commands| - count)
    case Returned(_) => 0
  }

  /** Remaining attempts, unsent signals and unreceived signals together. */
  function Work(c: Config, s: State): int {
    TotalWork(c, s.workers) + CollectorWork(c, s.collector)
  }

  lemma {:induction false} TotalWorkUpdate(c: Config, workers: seq<Worker>, i: nat, w: Worker)
    requires i < |workers|
    ensures TotalWork(c, workers[i := w]) == TotalWork(c, workers) - WorkerWork(c, workers[i]) + WorkerWork(c, w)
  {
    if i == 0 {
      assert workers[0 := w][1..] == workers[1..];
    } else {
      TotalWorkUpdate(c, workers[1..], i - 1, w);
      assert workers[i := w][1..] == workers[1..][i - 1 := w];
    }
  }

  lemma WorkIsNonNegative(c: Config, s: State)
    requires Inv(c, s)
    ensures Work(c, s) >= 0
  {
    AllReceived(|c.commands|, s.received);
  }

  lemma WorkerStepUsesWork(c: Config, s: State, step: Step)
    requires Shaped(c, s) && Enabled(c, s, step)
    requires IsWorkerStep(step)
    ensures Work(c, Apply(c, s, step)) < Work(c, s)
  {
    var t := Apply(c, s, step);
    assert WorkerWork(c, t.workers[step.i]) < WorkerWork(c, s.workers[step.i]);
    TotalWorkUpdate(c, s.workers, step.i, t.workers[step.i]);
    assert t.workers == s.workers[step.i := t.workers[step.i]];
  }

  lemma SpawnUsesWork(c: Config, s: State)
    requires Inv(c, s) && Enabled(c, s, Spawn)
    ensures Work(c, Apply(c, s, Spawn)) < Work(c, s)
  {
    assert s.workers[s.collector.next].NotSpawned?;
    TotalWorkUpdate(c, s.workers, s.collector.next, Spawned);
  }

  lemma CollectorStepUsesWork(c: Config, s: State, step: Step)
    requires Shaped(c, s) && Enabled(c, s, step)
    requires step.Rendezvous? || step.Check? || step.Return?
    ensures Work(c, Apply(c, s, step)) < Work(c, s)
  {
    if step.Rendezvous? {
      TotalWorkUpdate(c, s.workers, step.i, Signalled);
    }
  }

  /** Every step uses up work. */
  lemma StepUsesWork(c: Config, s: State, step: Step)
    requires Inv(c, s) && Enabled(c, s, step)
    ensures Work(c, Apply(c, s, step)) < Work(c, s)
  {
    if step.Spawn? {
      SpawnUsesWork(c, s);
    } else if step.Rendezvous? || step.Check? || step.Return? {
      CollectorStepUsesWork(c, s, step);
    } else {
      WorkerStepUsesWork(c, s, step);
    }
  }

  /** No interleaving is longer than the work of its first state. */
  lemma {:induction false} RunsAreBounded(c: Config, s: State, schedule: seq<Step>)
    requires Inv(c, s) && Runnable(c, s, schedule)
    ensures |schedule| + Work(c, RunAll(c, s, schedule)) <= Work(c, s)
    decreases |schedule|
  {
    if schedule != [] {
      StepInv(c, s, schedule[0]);
      StepUsesWork(c, s, schedule[0]);
      RunsAreBounded(c, Apply(c, s, schedule[0]), schedule[1..]);
    }
  }

  lemma {:induction false} InitialWork(c: Config, n: nat)
    ensures TotalWork(c, seq(n, _ => NotSpawned)) == n * (MaxRuns(c) + 5)
  {
    if n > 0 {
      InitialWork(c, n - 1);
      assert seq(n, _ => NotSpawned)[1..] == seq(n - 1, _ => NotSpawned);
    }
  }

  /** Every interleaving of `n` commands takes at most n * (attempts + 7) + 1 steps. */
  lemma Termination(c: Config, schedule: seq<Step>)
    requires Runnable(c, Init(c), schedule)
    ensures |schedule| <= |c.commands| * (MaxRuns(c) + 7) + 1
  {
    InitInv(c);
    RunsAreBounded(c, Init(c), schedule);
    InvAlong(c, Init(c), schedule);
    WorkIsNonNegative(c, RunAll(c, Init(c), schedule));
    InitialWork(c, |c.commands|);
  }

  /** The step a worker that has not signalled can take. */
  lemma UnsentWorkerCanStep(c: Config, s: State, i: nat) returns (step: Step)
    requires Inv(c, s) && s.collector.Collecting? && i < |c.commands| && i !in s.received
    ensures Enabled(c, s, step)
  {
    AllReceived(|c.commands|, s.received);
    assert WorkerInv(c, i, s.workers[i], s.slots[i], false);
    match s.workers[i]
    case Spawned => step := Start(i);
    case Looping(attempt, _, _) => step := if attempt <= c.maxAttempts then Launch(i) else GiveUp(i);
    case Leaving(_, _) => step := Write(i);
    case Written => step := Rendezvous(i);
  }

  /** Only a returned executor is stuck. */
  lemma Progress(c: Config, s: State) returns (step: Step)
    requires Inv(c, s) && !s.collector.Returned?
    ensures Enabled(c, s, step)
  {
    match s.collector
    case Spawning(_) => step := Spawn;
    case Checking(_, _, _) => step := Check;
    case Collecting(count, _) =>
      AllReceived(|c.commands|, s.received);
      if count == |c.commands| {
        step := Return;
      } else {
        var i: nat :| i < |c.commands| && i !in s.received;
        step := UnsentWorkerCanStep(c, s, i);
      }
  }

  /** A returned executor takes no further step, and any other reachable state takes some step. */
  lemma StuckIffReturned(c: Config, schedule: seq<Step>, t: State)
    requires Reaches(c, schedule, t)
    ensures t.collector.Returned? <==> forall step :: !Enabled(c, t, step)
  {
    ReachableInv(c, schedule, t);
    if !t.collector.Returned? {
      var step := Progress(c, t);
    }
  }

  lemma FinishFrom(c: Config, s: State) returns (rest: seq<Step>)
    requires Inv(c, s)
    ensures Runnable(c, s, rest) && RunAll(c, s, rest).collector.Returned?
    ensures RunAll(c, s, rest).collector.output == SequentialOutput(c)
    decreases Work(c, s)
  {
    if s.collector.Returned? {
      rest := [];
    } else {
      WorkIsNonNegative(c, s);
      var step := Progress(c, s);
      StepInv(c, s, step);
      StepUsesWork(c, s, step);
      rest := FinishFrom(c, Apply(c, s, step));
      rest := [step] + rest;
    }
  }

  /** Every interleaving, however far it got, can be continued until the executor returns the sequential output. */
  lemma EveryRunCanFinish(c: Config, schedule: seq<Step>, s: State)
    requires Reaches(c, schedule, s)
    ensures exists rest ::
      && Runnable(c, s, rest)
      && RunAll(c, s, rest).collector == Returned(SequentialOutput(c))
  {
    ReachableInv(c, schedule, s);
    var rest := FinishFrom(c, s);
  }
}
