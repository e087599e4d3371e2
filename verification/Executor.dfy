/**
 The parallel executor as a transition system. One worker per command retries it, writes its own slot of
 the shared list and offers its index on an unbuffered channel; the collector receives one index per
 command, looks at the slot and counts errors. A schedule is a list of steps, so a statement about all
 schedules is a statement about all interleavings.
 */
module Executor {
  import opened Shell
  import opened Retry
  import opened RemoteOutputs

  datatype Config = Config(scope: Scope, commands: seq<ShellCommand>, maxAttempts: int, oracle: Oracle)

  datatype Worker =
    | NotSpawned
    | Spawned
    | Looping(attempt: int, command: ShellCommand, last: Attempt)
    | Leaving(command: ShellCommand, last: Attempt)
    | Written
    | Signalled

  datatype Collector =
    | Spawning(next: nat)
    | Collecting(count: nat, numErrors: nat)
    | Checking(count: nat, numErrors: nat, index: nat)
    | Returned(output: RemoteOutput)

  /** `received` and `runs` record which indices came through the channel and how often each command ran. */
  datatype State = State(
    collector: Collector,
    workers: seq<Worker>,
    slots: seq<ShellCommand>,
    received: set<nat>,
    runs: seq<nat>)

  datatype Step =
    | Spawn
    | Start(i: nat)
    | Launch(i: nat)
    | GiveUp(i: nat)
    | Write(i: nat)
    | Rendezvous(i: nat)
    | Check
    | Return

  /** A step one worker takes by itself. */
  predicate IsWorkerStep(step: Step) { step.Start? || step.Launch? || step.GiveUp? || step.Write? }

  function Init(c: Config): State {
    var n := |c.commands|;
    State(if n == 0 then Collecting(0, 0) else Spawning(0), seq(n, _ => NotSpawned), c.commands, {}, seq(n, _ => 0))
  }

  predicate Shaped(c: Config, s: State) {
    |s.workers| == |s.slots| == |s.runs| == |c.commands|
  }

  predicate Enabled(c: Config, s: State, step: Step)
    requires Shaped(c, s)
  {
    var n := |c.commands|;
    match step
    case Spawn => s.collector.Spawning? && s.collector.next < n
    case Start(i) => i < n && s.workers[i].Spawned?
    case Launch(i) => i < n && s.workers[i].Looping? && s.workers[i].attempt <= c.maxAttempts
    case GiveUp(i) => i < n && s.workers[i].Looping? && s.workers[i].attempt > c.maxAttempts
    case Write(i) => i < n && s.workers[i].Leaving?
    case Rendezvous(i) => i < n && s.workers[i].Written? && s.collector.Collecting? && s.collector.count < n
    case Check => s.collector.Checking? && s.collector.index < n
    case Return => s.collector.Collecting? && s.collector.count == n
  }

  function Apply(c: Config, s: State, step: Step): (t: State)
    requires Shaped(c, s) && Enabled(c, s, step)
    ensures Shaped(c, t)
  {
    match step
    case Spawn =>
      var k := s.collector.next;
      s.(workers := s.workers[k := Spawned],
         collector := if k + 1 == |c.commands| then Collecting(0, 0) else Spawning(k + 1))
    case Start(i) =>
      s.(workers := s.workers[i := Looping(1, s.slots[i], NOTHING_RUN)])
    case Launch(i) =>
      var w := s.workers[i];
      var r := c.oracle(i, w.attempt);
      s.(runs := s.runs[i := s.runs[i] + 1],
         workers := s.workers[i :=
           if r.error.None? then Leaving(w.command, r)
           else Looping(w.attempt + 1, AddFailure(w.command, w.attempt, r), r)])
    case GiveUp(i) =>
      s.(workers := s.workers[i := Leaving(s.workers[i].command, s.workers[i].last)])
    case Write(i) =>
      s.(workers := s.workers[i := Written],
         slots := s.slots[i := Finish(s.workers[i].command, s.workers[i].last)])
    case Rendezvous(i) =>
      s.(workers := s.workers[i := Signalled],
         received := s.received + {i},
         collector := Checking(s.collector.count, s.collector.numErrors, i))
    case Check =>
      var m := s.collector;
      s.(collector := Collecting(m.count + 1, m.numErrors + if s.slots[m.index].error.Some? then 1 else 0))
    case Return =>
      s.(collector := Returned(Classify(c.scope, s.collector.numErrors, s.slots)))
  }

  /** Every step of the schedule is enabled when its turn comes. */
  predicate Runnable(c: Config, s: State, schedule: seq<Step>)
    requires Shaped(c, s)
    decreases |schedule|
  {
    schedule == [] || (Enabled(c, s, schedule[0]) && Runnable(c, Apply(c, s, schedule[0]), schedule[1..]))
  }

  function RunAll(c: Config, s: State, schedule: seq<Step>): (t: State)
    requires Shaped(c, s) && Runnable(c, s, schedule)
    ensures Shaped(c, t)
    decreases |schedule|
  {
    if schedule == [] then s else RunAll(c, Apply(c, s, schedule[0]), schedule[1..])
  }

  // ---------------------------------------------------------------- The sequential reference

  function Final(c: Config, i: nat): ShellCommand
    requires i < |c.commands|
  {
    Executed(c.oracle, i, c.maxAttempts, c.commands[i])
  }

  function FinalCommands(c: Config): seq<ShellCommand> {
    seq(|c.commands|, i requires 0 <= i < |c.commands| => Final(c, i))
  }

  /** What running the commands one after another would return. */
  function SequentialOutput(c: Config): RemoteOutput {
    var done := FinalCommands(c);
    Classify(c.scope, |Select(done, Failed)|, done)
  }

  // ---------------------------------------------------------------- The invariant

  /** How often command `i` has run when its worker is in this phase. */
  ghost predicate RunsAgree(c: Config, i: nat, w: Worker, runs: nat) {
    match w
    case NotSpawned => runs == 0
    case Spawned => runs == 0
    case Looping(attempt, _, _) =>
      && attempt == runs + 1
      && (runs <= c.maxAttempts || runs == 0)
      && AllFail(c.oracle, i, 1, runs)
    case _ => if c.maxAttempts < 1 then runs == 0 else IsLastRun(c.oracle, i, c.maxAttempts, runs)
  }

  ghost predicate WorkerInv(c: Config, i: nat, w: Worker, slot: ShellCommand, received: bool)
    requires i < |c.commands|
  {
    && (w.Signalled? <==> received)
    && match w
       case NotSpawned => slot == c.commands[i]
       case Spawned => slot == c.commands[i]
       case Looping(attempt, command, last) =>
         && slot == c.commands[i]
         && Rest(c.oracle, i, c.maxAttempts, attempt, command, last) == Final(c, i)
       case Leaving(command, last) => slot == c.commands[i] && Finish(command, last) == Final(c, i)
       case Written => slot == Final(c, i)
       case Signalled => slot == Final(c, i)
  }

  function Failing(c: Config, indices: set<nat>): set<nat> {
    set i | i in indices && i < |c.commands| && Final(c, i).error.Some?
  }

  ghost predicate CollectorInv(c: Config, s: State)
    requires Shaped(c, s)
  {
    var n := |c.commands|;
    match s.collector
    case Spawning(k) =>
      k < n && s.received == {} && forall i | 0 <= i < n :: s.workers[i].NotSpawned? <==> k <= i
    case Collecting(count, errors) =>
      && count == |s.received|
      && errors == |Failing(c, s.received)|
      && forall i | 0 <= i < n :: !s.workers[i].NotSpawned?
    case Checking(count, errors, index) =>
      && index in s.received
      && count == |s.received| - 1
      && errors == |Failing(c, s.received - {index})|
      && forall i | 0 <= i < n :: !s.workers[i].NotSpawned?
    case Returned(output) =>
      && output == SequentialOutput(c)
      && forall i | 0 <= i < n :: s.workers[i].Signalled?
  }

  ghost predicate Inv(c: Config, s: State) {
    && Shaped(c, s)
    && (forall i | i in s.received :: i < |c.commands|)
    && (forall i: nat | i < |c.commands| :: WorkerInv(c, i, s.workers[i], s.slots[i], i in s.received))
    && (forall i: nat | i < |c.commands| :: RunsAgree(c, i, s.workers[i], s.runs[i]))
    && CollectorInv(c, s)
  }

  lemma InitInv(c: Config)
    ensures Inv(c, Init(c))
  {
    assert Failing(c, {}) == {};
  }

  function Below(n: nat): (all: set<nat>)
    ensures |all| == n
    ensures forall i: nat :: i in all <==> i < n
  {
    if n == 0 then {} else Below(n - 1) + {n - 1}
  }

  lemma SubsetOfSameSize(a: set<nat>, b: set<nat>)
    requires a <= b && |a| == |b|
    ensures a == b
  {
    assert |b - a| == |b| - |a|;
  }

  /** A set of valid indices has at most `n` members, and `n` only if it has them all. */
  lemma AllReceived(n: nat, received: set<nat>)
    requires forall i | i in received :: i < n
    ensures |received| <= n
    ensures |received| == n ==> forall i: nat | i < n :: i in received
    ensures |received| < n ==> exists i: nat :: i < n && i !in received
  {
    var all := Below(n);
    assert received <= all;
    assert |all - received| == n - |received|;
    if |received| == n {
      SubsetOfSameSize(received, all);
    } else {
      var i :| i in all - received;
    }
  }

  lemma LaunchRuns(c: Config, i: nat, w: Worker, runs: nat)
    requires w.Looping? && w.attempt <= c.maxAttempts && RunsAgree(c, i, w, runs)
    ensures var r := c.oracle(i, w.attempt);
      RunsAgree(c, i, if r.error.None? then Leaving(w.command, r)
                      else Looping(w.attempt + 1, AddFailure(w.command, w.attempt, r), r), runs + 1)
  {
  }

  lemma WorkerStepKeepsOwn(c: Config, s: State, step: Step)
    requires Inv(c, s) && Enabled(c, s, step)
    requires IsWorkerStep(step)
    ensures var t := Apply(c, s, step); var i := step.i;
      && WorkerInv(c, i, t.workers[i], t.slots[i], i in t.received)
      && RunsAgree(c, i, t.workers[i], t.runs[i])
  {
    var i := step.i;
    assert WorkerInv(c, i, s.workers[i], s.slots[i], i in s.received);
    assert RunsAgree(c, i, s.workers[i], s.runs[i]);
    if step.Launch? {
      LaunchRuns(c, i, s.workers[i], s.runs[i]);
    }
  }

  /** Steps that only a worker takes keep the invariant. */
  lemma WorkerStepInv(c: Config, s: State, step: Step)
    requires Inv(c, s) && Enabled(c, s, step)
    requires IsWorkerStep(step)
    ensures Inv(c, Apply(c, s, step))
  {
    var t := Apply(c, s, step);
    WorkerStepKeepsOwn(c, s, step);
    forall j: nat | j < |c.commands|
      ensures WorkerInv(c, j, t.workers[j], t.slots[j], j in t.received) && RunsAgree(c, j, t.workers[j], t.runs[j])
    {
      assert WorkerInv(c, j, s.workers[j], s.slots[j], j in s.received);
      assert RunsAgree(c, j, s.workers[j], s.runs[j]);
    }
  }

  lemma SpawnInv(c: Config, s: State)
    requires Inv(c, s) && Enabled(c, s, Spawn)
    ensures Inv(c, Apply(c, s, Spawn))
  {
    assert Failing(c, {}) == {};
  }

  lemma RendezvousInv(c: Config, s: State, i: nat)
    requires Inv(c, s) && Enabled(c, s, Rendezvous(i))
    ensures i !in s.received
    ensures Inv(c, Apply(c, s, Rendezvous(i)))
  {
    var t := Apply(c, s, Rendezvous(i));
    assert WorkerInv(c, i, s.workers[i], s.slots[i], i in s.received);
    assert t.received - {i} == s.received;
    forall j: nat | j < |c.commands|
      ensures WorkerInv(c, j, t.workers[j], t.slots[j], j in t.received) && RunsAgree(c, j, t.workers[j], t.runs[j])
    {
      assert WorkerInv(c, j, s.workers[j], s.slots[j], j in s.received);
      assert RunsAgree(c, j, s.workers[j], s.runs[j]);
    }
  }

  lemma FailingGrows(c: Config, received: set<nat>, i: nat)
    requires i in received && i < |c.commands|
    ensures |Failing(c, received)| == |Failing(c, received - {i})| + if Final(c, i).error.Some? then 1 else 0
  {
    assert Failing(c, received) == Failing(c, received - {i}) + if Final(c, i).error.Some? then {i} else {};
  }

  lemma CheckInv(c: Config, s: State)
    requires Inv(c, s) && Enabled(c, s, Check)
    ensures Inv(c, Apply(c, s, Check))
  {
    var i := s.collector.index;
    assert WorkerInv(c, i, s.workers[i], s.slots[i], i in s.received);
    FailingGrows(c, s.received, i);
  }

  lemma ReturnInv(c: Config, s: State)
    requires Inv(c, s) && Enabled(c, s, Return)
    ensures Inv(c, Apply(c, s, Return))
  {
    AllReceived(|c.commands|, s.received);
    var done := FinalCommands(c);
    forall i: nat | i < |c.commands|
      ensures s.workers[i].Signalled? && s.slots[i] == done[i]
    {
      assert WorkerInv(c, i, s.workers[i], s.slots[i], i in s.received);
    }
    assert s.slots == done;
    FailedCount(done);
    assert Failing(c, s.received) == set i | 0 <= i < |done| && done[i].error.Some?;
  }

  /** Every step of every interleaving keeps the invariant. */
  lemma StepInv(c: Config, s: State, step: Step)
    requires Inv(c, s) && Enabled(c, s, step)
    ensures Inv(c, Apply(c, s, step))
  {
    match step
    case Spawn => SpawnInv(c, s);
    case Rendezvous(i) => RendezvousInv(c, s, i);
    case Check => CheckInv(c, s);
    case Return => ReturnInv(c, s);
    case _ => WorkerStepInv(c, s, step);
  }
}
