/** Classification of executed commands. */
module RemoteOutputs {
  import opened Shell

  datatype RemoteOutput = RemoteOutput(
    scope: Scope,
    numErrors: nat,
    commands: seq<ShellCommand>,
    failedCommands: seq<ShellCommand>,
    retriedCommands: seq<ShellCommand>)

  datatype Class = Failed | Retried | Clean

  function ClassOf(command: ShellCommand): Class {
    if command.error.Some? then Failed else if command.retryError != [] then Retried else Clean
  }

  /** The commands of one class, in list order. */
  function Select(commands: seq<ShellCommand>, cls: Class): seq<ShellCommand> {
    if commands == [] then []
    else
      var last := commands[|commands| - 1];
      Select(commands[..|commands| - 1], cls) + if ClassOf(last) == cls then [last] else []
  }

  function Classify(scope: Scope, numErrors: nat, commands: seq<ShellCommand>): RemoteOutput {
    RemoteOutput(scope, numErrors, commands, Select(commands, Failed), Select(commands, Retried))
  }

  method NewRemoteOutput(scope: Scope, numErrors: nat, commands: seq<ShellCommand>)
    returns (output: RemoteOutput)
    ensures output == Classify(scope, numErrors, commands)
    ensures output.scope == scope && output.numErrors == numErrors && output.commands == commands
    ensures FailedArePicked(output) && RetriedArePicked(output)
  {
    var failedCommands: seq<ShellCommand> := [];
    var retriedCommands: seq<ShellCommand> := [];
    for i := 0 to |commands|
      invariant failedCommands == Select(commands[..i], Failed)
      invariant retriedCommands == Select(commands[..i], Retried)
    {
      var command := commands[i];
      assert commands[..i + 1][..i] == commands[..i];
      if command.error.Some? {
        failedCommands := failedCommands + [command];
      } else if command.retryError != [] {
        retriedCommands := retriedCommands + [command];
      }
    }
    assert commands[..|commands|] == commands;
    output := RemoteOutput(scope, numErrors, commands, failedCommands, retriedCommands);
    OutputIsPicked(scope, numErrors, commands);
  }

  /** `picks` are the ascending positions of `commands` at which `part` is found. */
  ghost predicate PicksOut(picks: seq<nat>, part: seq<ShellCommand>, commands: seq<ShellCommand>) {
    && |picks| == |part|
    && (forall k | 0 <= k < |picks| :: picks[k] < |commands| && commands[picks[k]] == part[k])
    && (forall j, k | 0 <= j < k < |picks| :: picks[j] < picks[k])
  }

  /** The positions of one class, ascending. */
  function Positions(commands: seq<ShellCommand>, cls: Class): seq<nat> {
    if commands == [] then []
    else
      var n := |commands| - 1;
      Positions(commands[..n], cls) + if ClassOf(commands[n]) == cls then [n] else []
  }

  /** Each class is picked out of the list in order, at exactly the positions of that class. */
  lemma {:induction false} SelectIsOrderPreserving(commands: seq<ShellCommand>, cls: Class)
    ensures PicksOut(Positions(commands, cls), Select(commands, cls), commands)
    ensures forall i | 0 <= i < |commands| :: i in Positions(commands, cls) <==> ClassOf(commands[i]) == cls
  {
    if commands != [] {
      var n := |commands| - 1;
      SelectIsOrderPreserving(commands[..n], cls);
      var ps := Positions(commands[..n], cls);
      forall i | 0 <= i < |commands|
        ensures i in Positions(commands, cls) <==> ClassOf(commands[i]) == cls
      {
        if i < n {
          assert commands[..n][i] == commands[i];
        } else {
          assert n !in ps;
        }
      }
    }
  }

  /** The failed commands are those that carry an error, in list order. */
  ghost predicate FailedArePicked(out: RemoteOutput) {
    exists picks ::
      && PicksOut(picks, out.failedCommands, out.commands)
      && forall i | 0 <= i < |out.commands| :: i in picks <==> out.commands[i].error.Some?
  }

  /** The retried commands are those that carry no error but an earlier attempt's, in list order. */
  ghost predicate RetriedArePicked(out: RemoteOutput) {
    exists picks ::
      && PicksOut(picks, out.retriedCommands, out.commands)
      && forall i | 0 <= i < |out.commands| ::
           i in picks <==> out.commands[i].error.None? && out.commands[i].retryError != []
  }

  /** The fields of an output. */
  lemma OutputIsPicked(scope: Scope, numErrors: nat, commands: seq<ShellCommand>)
    ensures var out := Classify(scope, numErrors, commands);
      && out.scope == scope && out.numErrors == numErrors && out.commands == commands
      && FailedArePicked(out) && RetriedArePicked(out)
  {
    SelectIsOrderPreserving(commands, Failed);
    SelectIsOrderPreserving(commands, Retried);
    assert PicksOut(Positions(commands, Failed), Select(commands, Failed), commands);
    assert PicksOut(Positions(commands, Retried), Select(commands, Retried), commands);
  }

  lemma {:induction false} SelectLast(front: seq<ShellCommand>, last: ShellCommand, cls: Class)
    ensures multiset(Select(front + [last], cls))
         == multiset(Select(front, cls)) + if ClassOf(last) == cls then multiset{last} else multiset{}
  {
    assert (front + [last])[..|front|] == front;
  }

  lemma AddToOnePart<T>(f: multiset<T>, r: multiset<T>, c: multiset<T>, x: T, cls: Class)
    ensures f + r + c + multiset{x}
         == (f + if cls == Failed then multiset{x} else multiset{})
            + (r + if cls == Retried then multiset{x} else multiset{})
            + (c + if cls == Clean then multiset{x} else multiset{})
  {
    match cls
    case Failed =>
    case Retried =>
    case Clean =>
  }

  /** The three classes together, each command as often as it occurs in them. */
  function Parts(commands: seq<ShellCommand>): multiset<ShellCommand> {
    multiset(Select(commands, Failed)) + multiset(Select(commands, Retried)) + multiset(Select(commands, Clean))
  }

  lemma {:induction false} PartsGrow(front: seq<ShellCommand>, last: ShellCommand)
    ensures Parts(front + [last]) == Parts(front) + multiset{last}
  {
    SelectLast(front, last, Failed);
    SelectLast(front, last, Retried);
    SelectLast(front, last, Clean);
    AddToOnePart(
      multiset(Select(front, Failed)), multiset(Select(front, Retried)), multiset(Select(front, Clean)),
      last, ClassOf(last));
  }

  lemma SplitLast<T>(s: seq<T>)
    requires s != []
    ensures s == s[..|s| - 1] + [s[|s| - 1]]
    ensures multiset(s) == multiset(s[..|s| - 1]) + multiset{s[|s| - 1]}
  {
    assert s == s[..|s| - 1] + [s[|s| - 1]];
  }

  /** Failed, retried and clean commands together are the list, each command once. */
  lemma {:induction false} ClassesPartition(commands: seq<ShellCommand>)
    ensures Parts(commands) == multiset(commands)
  {
    if commands != [] {
      var front, last := commands[..|commands| - 1], commands[|commands| - 1];
      ClassesPartition(front);
      PartsGrow(front, last);
      SplitLast(commands);
    }
  }

  /** The number of failed commands is the number of positions whose command carries an error. */
  lemma {:induction false} FailedCount(commands: seq<ShellCommand>)
    ensures |Select(commands, Failed)| == |set i | 0 <= i < |commands| && commands[i].error.Some?|
  {
    var errs := set i | 0 <= i < |commands| && commands[i].error.Some?;
    if commands == [] {
      assert errs == {};
    } else {
      var n := |commands| - 1;
      var front := commands[..n];
      FailedCount(front);
      var fewer := set i | 0 <= i < |front| && front[i].error.Some?;
      assert forall i | 0 <= i < n :: front[i] == commands[i];
      assert errs == fewer + if commands[n].error.Some? then {n} else {};
    }
  }
}
