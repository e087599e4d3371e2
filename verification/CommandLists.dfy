/** Which commands a scope asks for, and for which contents and hosts. */
module CommandLists {
  import opened Wrappers
  import opened Shell
  import opened Segments
  import opened ClusterIndex
  import opened ClusterLookup

  predicate ScopeExcludesCoordinator(scope: Scope) { scope & INCLUDE_COORDINATOR == EXCLUDE_COORDINATOR }
  predicate ScopeExcludesMirrors(scope: Scope) { scope & INCLUDE_MIRRORS == EXCLUDE_MIRRORS }

  /** All references point into the segment list. */
  predicate RefsValid(x: Index) {
    && (forall id | id in x.byContent :: forall i | 0 <= i < |x.byContent[id]| :: x.byContent[id][i] < |x.segments|)
    && (forall name | name in x.byHost :: forall i | 0 <= i < |x.byHost[name]| :: x.byHost[name][i] < |x.segments|)
  }

  function Found(x: Index, id: int, role: seq<string>): Option<SegConfig>
    requires RefsValid(x)
  {
    match SegmentByRole(Entry(x.byContent, id), role)
    case None => None
    case Some(k) => Some(x.segments[k])
  }

  /** The contents of the segments on a host. */
  function ContentsForHost(x: Index, name: string): seq<int>
    requires RefsValid(x)
  {
    var refs := Entry(x.byHost, name);
    seq(|refs|, i requires 0 <= i < |refs| => x.segments[refs[i]].contentID)
  }

  predicate SkipsContent(scope: Scope, id: int) {
    id == -1 && ScopeExcludesCoordinator(scope)
  }

  predicate SkipsHost(x: Index, scope: Scope, host: string)
    requires RefsValid(x)
  {
    var hostHasOneContent := |ContentsForHost(x, host)| == 1;
    || (host == HostOf(Found(x, -1, ["p"])) && ScopeExcludesCoordinator(scope) && hostHasOneContent)
    || (host == HostOf(Found(x, -1, ["m"])) && ScopeExcludesMirrors(scope) && hostHasOneContent)
  }

  function ContentCommands(ids: seq<int>, scope: Scope, generate: int -> seq<string>): seq<ShellCommand> {
    if ids == [] then []
    else
      var id := ids[|ids| - 1];
      ContentCommands(ids[..|ids| - 1], scope, generate)
      + if SkipsContent(scope, id) then [] else [NewShellCommand(scope, id, "", generate(id))]
  }

  function HostCommands(x: Index, hosts: seq<string>, scope: Scope, generate: string -> seq<string>): seq<ShellCommand>
    requires RefsValid(x)
  {
    if hosts == [] then []
    else
      var host := hosts[|hosts| - 1];
      HostCommands(x, hosts[..|hosts| - 1], scope, generate)
      + if SkipsHost(x, scope, host) then [] else [NewShellCommand(scope, -2, host, generate(host))]
  }

  /** The two kinds of generator the type switch accepts, and any other. */
  datatype Generator = PerContent(forContent: int -> seq<string>) | PerHost(forHost: string -> seq<string>) | Invalid

  /** No content that is not skipped gets an empty command, which cannot be built. */
  predicate ContentsHaveCommands(ids: seq<int>, scope: Scope, generate: int -> seq<string>) {
    forall i | 0 <= i < |ids| && !SkipsContent(scope, ids[i]) :: generate(ids[i]) != []
  }

  predicate HostsHaveCommands(x: Index, hosts: seq<string>, scope: Scope, generate: string -> seq<string>)
    requires RefsValid(x)
  {
    forall i | 0 <= i < |hosts| && !SkipsHost(x, scope, hosts[i]) :: generate(hosts[i]) != []
  }

  /** `None` is the fatal exit for an invalid generator, or the panic on an empty command. */
  function CommandList(x: Index, scope: Scope, generator: Generator): Option<seq<ShellCommand>>
    requires RefsValid(x)
  {
    match generator
    case PerContent(forContent) =>
      if ContentsHaveCommands(x.contentIDs, scope, forContent)
      then Some(ContentCommands(x.contentIDs, scope, forContent))
      else None
    case PerHost(forHost) =>
      if HostsHaveCommands(x, x.hostnames, scope, forHost)
      then Some(HostCommands(x, x.hostnames, scope, forHost))
      else None
    case Invalid => None
  }

  // ---------------------------------------------------------------- Per-content commands

  /** The kept ids, in order. */
  function WithoutExcluded(ids: seq<int>, scope: Scope): seq<int> {
    if ids == [] then []
    else WithoutExcluded(ids[..|ids| - 1], scope) + if SkipsContent(scope, ids[|ids| - 1]) then [] else [ids[|ids| - 1]]
  }

  lemma {:induction false} ContentCommandsAre(ids: seq<int>, scope: Scope, generate: int -> seq<string>)
    ensures var kept := WithoutExcluded(ids, scope); var commands := ContentCommands(ids, scope, generate);
      && |commands| == |kept|
      && forall i | 0 <= i < |kept| :: commands[i] == NewShellCommand(scope, kept[i], "", generate(kept[i]))
  {
    if ids != [] {
      ContentCommandsAre(ids[..|ids| - 1], scope, generate);
    }
  }

  lemma {:induction false} KeptIds(ids: seq<int>, scope: Scope)
    requires Ascending(ids)
    ensures Ascending(WithoutExcluded(ids, scope))
    ensures forall id :: id in WithoutExcluded(ids, scope) <==> id in ids && !SkipsContent(scope, id)
  {
    if ids != [] {
      var front, last := ids[..|ids| - 1], ids[|ids| - 1];
      KeptIds(front, scope);
      var kept := WithoutExcluded(front, scope);
      assert forall id :: id in ids <==> id in front || id == last;
      forall i | 0 <= i < |kept|
        ensures kept[i] < last
      {
        assert kept[i] in kept;
        var j :| 0 <= j < |front| && front[j] == kept[i];
        assert ids[j] == kept[i];
      }
    }
  }

  /** A command as it is built: not yet run, with these arguments. */
  predicate IsFresh(command: ShellCommand, scope: Scope, content: int, host: string, args: seq<string>) {
    command == ShellCommand(scope, content, host, args, "", "", None, [], false)
  }

  /** The contents the commands are for. */
  function ContentsOf(commands: seq<ShellCommand>): seq<int> {
    seq(|commands|, i requires 0 <= i < |commands| => commands[i].content)
  }

  /** For generators that take a content there is a command list exactly if no content of a segment but the
      excluded coordinator's (-1) gets an empty command. */
  lemma ContentListIff(x: Index, scope: Scope, generate: int -> seq<string>)
    requires InStep(x) && RefsValid(x)
    ensures CommandList(x, scope, PerContent(generate)).Some? <==> forall k | 0 <= k < |x.segments| ::
      (scope & 2 == 0 && x.segments[k].contentID == -1) || generate(x.segments[k].contentID) != []
  {
    VisitedContents(x, scope, generate);
  }

  /** The list then has one command per such content, in ascending order, generated for that content. */
  lemma OneCommandPerContent(x: Index, scope: Scope, generate: int -> seq<string>)
    requires InStep(x) && RefsValid(x)
    ensures var list := CommandList(x, scope, PerContent(generate));
      list.Some? ==>
        var commands := list.value;
        && (forall i | 0 <= i < |commands| ::
              IsFresh(commands[i], scope, commands[i].content, "", generate(commands[i].content)))
        && Ascending(ContentsOf(commands))
        && (forall id :: id in ContentsOf(commands) <==>
              !(scope & 2 == 0 && id == -1) && exists k: nat :: k < |x.segments| && x.segments[k].contentID == id)
  {
    if CommandList(x, scope, PerContent(generate)).Some? {
      ContentCommandsAre(x.contentIDs, scope, generate);
      assert ContentsOf(CommandList(x, scope, PerContent(generate)).value) == WithoutExcluded(x.contentIDs, scope);
      KeptIdsExactly(x, scope);
    }
  }

  lemma KeptIdsExactly(x: Index, scope: Scope)
    requires InStep(x)
    ensures var kept := WithoutExcluded(x.contentIDs, scope);
      && Ascending(kept)
      && forall id :: id in kept <==>
           !(scope & 2 == 0 && id == -1) && exists k: nat :: k < |x.segments| && x.segments[k].contentID == id
  {
    KeptIds(x.contentIDs, scope);
    forall id
      ensures id in x.contentIDs <==> exists k: nat :: k < |x.segments| && x.segments[k].contentID == id
    {
      assert id in x.contentIDs <==> id in ContentSet(x.segments);
    }
  }

  lemma VisitedContents(x: Index, scope: Scope, generate: int -> seq<string>)
    requires InStep(x)
    ensures ContentsHaveCommands(x.contentIDs, scope, generate) <==> forall k | 0 <= k < |x.segments| ::
      (scope & 2 == 0 && x.segments[k].contentID == -1) || generate(x.segments[k].contentID) != []
  {
    forall k | 0 <= k < |x.segments|
      ensures x.segments[k].contentID in x.contentIDs
    {
      assert x.segments[k].contentID in ContentSet(x.segments);
    }
    forall i | 0 <= i < |x.contentIDs|
      ensures exists k :: 0 <= k < |x.segments| && x.segments[k].contentID == x.contentIDs[i]
    {
      assert x.contentIDs[i] in x.contentIDs;
      assert x.contentIDs[i] in ContentSet(x.segments);
    }
  }

  // ---------------------------------------------------------------- Per-host commands

  function KeptHosts(x: Index, hosts: seq<string>, scope: Scope): seq<string>
    requires RefsValid(x)
  {
    if hosts == [] then []
    else
      KeptHosts(x, hosts[..|hosts| - 1], scope)
      + if SkipsHost(x, scope, hosts[|hosts| - 1]) then [] else [hosts[|hosts| - 1]]
  }

  lemma {:induction false} HostCommandsAre(x: Index, hosts: seq<string>, scope: Scope, generate: string -> seq<string>)
    requires RefsValid(x)
    ensures var kept := KeptHosts(x, hosts, scope); var commands := HostCommands(x, hosts, scope, generate);
      && |commands| == |kept|
      && forall i | 0 <= i < |kept| :: commands[i] == NewShellCommand(scope, -2, kept[i], generate(kept[i]))
  {
    if hosts != [] {
      HostCommandsAre(x, hosts[..|hosts| - 1], scope, generate);
    }
  }

  lemma {:induction false} KeptHostsAre(x: Index, hosts: seq<string>, scope: Scope)
    requires RefsValid(x) && NoDuplicates(hosts)
    ensures NoDuplicates(KeptHosts(x, hosts, scope))
    ensures forall h :: h in KeptHosts(x, hosts, scope) <==> h in hosts && !SkipsHost(x, scope, h)
  {
    if hosts != [] {
      var front, last := hosts[..|hosts| - 1], hosts[|hosts| - 1];
      KeptHostsAre(x, front, scope);
      assert forall h :: h in hosts <==> h in front || h == last;
      assert last !in front;
    }
  }

  /** The host's only segment is entry `n` of the coordinator's content. */
  ghost predicate OnlyHolds(x: Index, host: string, n: nat) {
    var entries := ContentRefs(x.segments, -1);
    n < |entries| && HostRefs(x.segments, host) == [entries[n]]
  }

  lemma EntryOnHost(x: Index, host: string, n: nat)
    requires InStep(x) && |HostRefs(x.segments, host)| == 1 && n < |ContentRefs(x.segments, -1)|
    ensures OnlyHolds(x, host, n) <==> x.segments[ContentRefs(x.segments, -1)[n]].hostname == host
  {
    var k := ContentRefs(x.segments, -1)[n];
    PositionsAreExact(x.segments, Host(host));
    assert k in HostRefs(x.segments, host) <==> HasKey(x.segments[k], Host(host));
    assert HostRefs(x.segments, host) == [HostRefs(x.segments, host)[0]];
  }

  lemma RefsInStep(x: Index)
    requires InStep(x)
    ensures RefsValid(x)
    ensures forall name :: Entry(x.byHost, name) == HostRefs(x.segments, name)
    ensures forall id :: Entry(x.byContent, id) == ContentRefs(x.segments, id)
  {
    forall id
      ensures Entry(x.byContent, id) == ContentRefs(x.segments, id)
    {
      PresentContents(x.segments, id);
    }
  }

  /** The contents listed for a host are those of its segments, in input order. */
  lemma ContentsOfHost(x: Index, name: string, ps: seq<nat>)
    requires InStep(x) && RefsValid(x) && AreOnHost(x.segments, name, ps)
    ensures ContentsForHost(x, name) == seq(|ps|, i requires 0 <= i < |ps| => x.segments[ps[i]].contentID)
  {
    RefsInStep(x);
    PositionsOnHost(x.segments, name);
    AscendingListsAgree(ps, HostRefs(x.segments, name), |x.segments|);
  }

  /** In step, the class's lookups are those on the segment list itself. */
  lemma FoundIsLookup(x: Index, id: int, role: seq<string>)
    requires InStep(x)
    ensures RefsValid(x) && Found(x, id, role) == Lookup(x.segments, id, role)
  {
    RefsInStep(x);
  }

  /** The host holds a single segment, and that is the first entry for content -1 under coordinator exclusion or
      the second under mirror exclusion; or it has no name and there is no such entry at all. */
  ghost predicate IsLeftOut(x: Index, scope: Scope, host: string) {
    && |HostRefs(x.segments, host)| == 1
    && var entries := |ContentRefs(x.segments, -1)|;
       || (scope & 2 == 0 && (OnlyHolds(x, host, 0) || (host == "" && entries < 1)))
       || (scope & 8 == 0 && (OnlyHolds(x, host, 1) || (host == "" && entries < 2)))
  }

  /** These are exactly the hosts that are skipped. */
  lemma SkippedHosts(x: Index, scope: Scope, host: string)
    requires InStep(x) && host in x.hostnames
    ensures RefsValid(x)
    ensures SkipsHost(x, scope, host) <==> IsLeftOut(x, scope, host)
  {
    RefsInStep(x);
    assert |ContentsForHost(x, host)| == |HostRefs(x.segments, host)|;
    var entries := ContentRefs(x.segments, -1);
    if |HostRefs(x.segments, host)| == 1 {
      if |entries| >= 1 {
        EntryOnHost(x, host, 0);
      }
      if |entries| >= 2 {
        EntryOnHost(x, host, 1);
      }
    }
  }

  /** The hosts the commands are for. */
  function HostsFor(commands: seq<ShellCommand>): seq<string> {
    seq(|commands|, i requires 0 <= i < |commands| => commands[i].host)
  }

  /** Kept hosts stay in the order of the list. */
  lemma {:induction false} KeptInOrder(x: Index, hosts: seq<string>, scope: Scope) returns (picks: seq<nat>)
    requires RefsValid(x)
    ensures var kept := KeptHosts(x, hosts, scope);
      && |picks| == |kept|
      && (forall i | 0 <= i < |picks| :: picks[i] < |hosts| && hosts[picks[i]] == kept[i])
      && (forall i, j | 0 <= i < j < |picks| :: picks[i] < picks[j])
  {
    picks := [];
    if hosts != [] {
      var n := |hosts| - 1;
      picks := KeptInOrder(x, hosts[..n], scope);
      if !SkipsHost(x, scope, hosts[n]) {
        picks := picks + [n];
      }
    }
  }

  /** For generators that take a host there is a command list exactly if no host of a segment that is not left
      out gets an empty command. */
  lemma HostListIff(x: Index, scope: Scope, generate: string -> seq<string>)
    requires InStep(x) && RefsValid(x)
    ensures CommandList(x, scope, PerHost(generate)).Some? <==> forall k | 0 <= k < |x.segments| ::
      IsLeftOut(x, scope, x.segments[k].hostname) || generate(x.segments[k].hostname) != []
  {
    VisitedHosts(x, scope, generate);
  }

  /** Some hosts of a list, in its order. */
  ghost predicate InListOrder(some: seq<string>, hosts: seq<string>) {
    exists picks: seq<nat> ::
      && |picks| == |some|
      && (forall i | 0 <= i < |picks| :: picks[i] < |hosts| && hosts[picks[i]] == some[i])
      && (forall i, j | 0 <= i < j < |picks| :: picks[i] < picks[j])
  }

  /** The list then has one command per such host, generated for that host, in the order of the host list. */
  lemma OneCommandPerHost(x: Index, scope: Scope, generate: string -> seq<string>)
    requires InStep(x) && RefsValid(x)
    ensures var list := CommandList(x, scope, PerHost(generate));
      list.Some? ==>
        var commands := list.value;
        && (forall i | 0 <= i < |commands| ::
              IsFresh(commands[i], scope, -2, commands[i].host, generate(commands[i].host)))
        && NoDuplicates(HostsFor(commands))
        && InListOrder(HostsFor(commands), x.hostnames)
        && (forall host :: host in HostsFor(commands) <==> host in x.hostnames && !IsLeftOut(x, scope, host))
  {
    if CommandList(x, scope, PerHost(generate)).Some? {
      HostsAreExact(x.segments);
      HostCommandsAre(x, x.hostnames, scope, generate);
      assert HostsFor(CommandList(x, scope, PerHost(generate)).value) == KeptHosts(x, x.hostnames, scope);
      KeptExactly(x, scope);
    }
  }

  lemma KeptExactly(x: Index, scope: Scope)
    requires InStep(x) && RefsValid(x)
    ensures var kept := KeptHosts(x, x.hostnames, scope);
      && NoDuplicates(kept) && InListOrder(kept, x.hostnames)
      && forall host :: host in kept <==> host in x.hostnames && !IsLeftOut(x, scope, host)
  {
    HostsAreExact(x.segments);
    KeptHostsAre(x, x.hostnames, scope);
    KeptAreListed(x, x.hostnames, scope);
    forall host | host in x.hostnames
      ensures host in KeptHosts(x, x.hostnames, scope) <==> !IsLeftOut(x, scope, host)
    {
      SkippedHosts(x, scope, host);
    }
  }

  lemma KeptAreListed(x: Index, hosts: seq<string>, scope: Scope)
    requires RefsValid(x)
    ensures InListOrder(KeptHosts(x, hosts, scope), hosts)
  {
    var picks := KeptInOrder(x, hosts, scope);
  }

  lemma VisitedHosts(x: Index, scope: Scope, generate: string -> seq<string>)
    requires InStep(x) && RefsValid(x)
    ensures HostsHaveCommands(x, x.hostnames, scope, generate) <==> forall k | 0 <= k < |x.segments| ::
      IsLeftOut(x, scope, x.segments[k].hostname) || generate(x.segments[k].hostname) != []
  {
    HostsAppearInOrder(x.segments);
    forall i | 0 <= i < |x.hostnames|
      ensures SkipsHost(x, scope, x.hostnames[i]) <==> IsLeftOut(x, scope, x.hostnames[i])
      ensures exists k :: 0 <= k < |x.segments| && x.segments[k].hostname == x.hostnames[i]
    {
      SkippedHosts(x, scope, x.hostnames[i]);
      assert AppearsBefore(x.segments, x.hostnames[i], |x.segments|);
    }
    forall k | 0 <= k < |x.segments|
      ensures x.segments[k].hostname in x.hostnames
    {
      assert AppearsBefore(x.segments, x.segments[k].hostname, |x.segments|);
    }
  }

  /** A generator of any other type is fatal. */
  lemma NoListForOthers(x: Index, scope: Scope)
    requires RefsValid(x)
    ensures CommandList(x, scope, Invalid).None?
  {
  }

  lemma HoldsAnother(x: Index, k: nat, n: nat)
    requires k < |x.segments| && x.segments[k].contentID != -1
    ensures HostRefs(x.segments, x.segments[k].hostname) != []
    ensures !OnlyHolds(x, x.segments[k].hostname, n)
  {
    var host := x.segments[k].hostname;
    PositionsAreExact(x.segments, Host(host));
    PositionsAreExact(x.segments, Content(-1));
    assert HasKey(x.segments[k], Host(host)) && !HasKey(x.segments[k], Content(-1));
    var entries := ContentRefs(x.segments, -1);
    assert k in HostRefs(x.segments, host) && k !in PositionsOf(x.segments, Content(-1));
    assert n < |entries| ==> entries[n] in PositionsOf(x.segments, Content(-1));
  }

  /** Every named host that holds a segment of another content than the coordinator's gets a command, whatever
      the scope. */
  lemma OtherContentsAreCovered(x: Index, scope: Scope, generate: string -> seq<string>, k: nat)
    requires InStep(x) && RefsValid(x) && k < |x.segments|
    requires x.segments[k].contentID != -1 && x.segments[k].hostname != ""
    ensures var list := CommandList(x, scope, PerHost(generate));
      list.Some? ==> x.segments[k].hostname in HostsFor(list.value)
  {
    var host := x.segments[k].hostname;
    HoldsAnother(x, k, 0);
    HoldsAnother(x, k, 1);
    HostsAreExact(x.segments);
    OneCommandPerHost(x, scope, generate);
  }
}
