/** `Cluster` as the object the source has; every method is proved against the index functions. */
module Clusters {
  import opened Wrappers
  import opened Shell
  import opened Segments
  import opened ClusterIndex
  import opened ClusterLookup
  import opened CommandLists

  // ---------------------------------------------------------------- Sorting the content ids

  function Insert(x: int, s: seq<int>): seq<int> {
    if s == [] || x <= s[0] then [x] + s else [s[0]] + Insert(x, s[1..])
  }

  lemma {:induction false} InsertAscending(x: int, s: seq<int>)
    requires Ascending(s) && x !in s
    ensures Ascending(Insert(x, s))
    ensures forall y :: y in Insert(x, s) <==> y == x || y in s
  {
    if s != [] && x > s[0] {
      InsertAscending(x, s[1..]);
      var rest := Insert(x, s[1..]);
      assert forall i | 0 <= i < |rest| :: rest[i] in rest;
      assert forall y | y in s[1..] :: y > s[0];
      assert forall y :: y in s <==> y == s[0] || y in s[1..];
    }
  }

  /** The next key of a map iteration, which may be any. */
  method AnyOf<K(==)>(keys: set<K>) returns (k: K)
    requires keys != {}
    ensures k in keys
  {
    k :| k in keys;
  }

  /** Any way of visiting the keys once each, sorted. */
  method SortedKeys(keys: set<int>) returns (ids: seq<int>)
    ensures Ascending(ids)
    ensures forall id :: id in ids <==> id in keys
  {
    ids := [];
    var rest := keys;
    while rest != {}
      invariant rest <= keys
      invariant Ascending(ids)
      invariant forall k :: k in ids <==> k in keys && k !in rest
      decreases rest
    {
      var id := AnyOf(rest);
      InsertAscending(id, ids);
      ids := Insert(id, ids);
      rest := rest - {id};
    }
  }

  // ---------------------------------------------------------------- One more segment

  lemma PrimaryFirstGrows(segs: seq<SegConfig>, s: SegConfig, id: int)
    ensures var all := segs + [s];
      var refs := ContentRefs(segs, id);
      ContentRefs(all, id) ==
        if s.contentID != id then refs
        else if |refs| == 1 && all[refs[0]].role == "m" then [|segs|, refs[0]]
        else refs + [|segs|]
  {
    PositionsGrow(segs, s, Content(id));
    PositionsAreExact(segs, Content(id));
  }

  lemma ContentSetGrows(segs: seq<SegConfig>, s: SegConfig)
    ensures ContentSet(segs + [s]) == ContentSet(segs) + {s.contentID}
  {
    var all := segs + [s];
    assert all[|segs|] == s;
    forall id | id in ContentSet(segs)
      ensures id in ContentSet(all)
    {
      var k :| 0 <= k < |segs| && segs[k].contentID == id;
      assert all[k] == segs[k];
    }
  }

  lemma HostsGrow(segs: seq<SegConfig>, s: SegConfig)
    ensures HostsOf(segs + [s]) == HostsOf(segs) + if HostRefs(segs, s.hostname) == [] then [s.hostname] else []
    ensures forall name ::
      HostRefs(segs + [s], name) == HostRefs(segs, name) + if s.hostname == name then [|segs|] else []
  {
    assert (segs + [s])[..|segs|] == segs;
    forall name
      ensures HostRefs(segs + [s], name) == HostRefs(segs, name) + if s.hostname == name then [|segs|] else []
    {
      PositionsGrow(segs, s, Host(name));
    }
  }

  ghost predicate ContentsInStep(segs: seq<SegConfig>, byContent: map<int, seq<nat>>) {
    && byContent.Keys == ContentSet(segs)
    && forall id | id in byContent :: byContent[id] == ContentRefs(segs, id)
  }

  ghost predicate HostsInStep(segs: seq<SegConfig>, hostnames: seq<string>, byHost: map<string, seq<nat>>) {
    && (forall name :: name in byHost <==> HostRefs(segs, name) != [])
    && (forall name | name in byHost :: byHost[name] == HostRefs(segs, name))
    && hostnames == HostsOf(segs)
  }

  lemma EntryInStep(segs: seq<SegConfig>, byContent: map<int, seq<nat>>, id: int)
    requires ContentsInStep(segs, byContent)
    ensures Entry(byContent, id) == ContentRefs(segs, id)
  {
    PresentContents(segs, id);
  }

  lemma ContentsGrow(segs: seq<SegConfig>, s: SegConfig, byContent: map<int, seq<nat>>)
    requires ContentsInStep(segs, byContent)
    ensures ContentsInStep(segs + [s], byContent[s.contentID := ContentRefs(segs + [s], s.contentID)])
  {
    ContentSetGrows(segs, s);
    forall id | id in byContent && id != s.contentID
      ensures ContentRefs(segs + [s], id) == byContent[id]
    {
      PrimaryFirstGrows(segs, s, id);
    }
  }

  /** The entry after one more reference, as the source appends and swaps. */
  lemma EntryGrows(segs: seq<SegConfig>, s: SegConfig, byContent: map<int, seq<nat>>)
    requires ContentsInStep(segs, byContent)
    ensures var refs := Entry(byContent, s.contentID);
      && (|refs| == 1 ==> refs[0] < |segs|)
      && var list := if |refs| == 1 && segs[refs[0]].role == "m" then [|segs|, refs[0]] else refs + [|segs|];
         ContentsInStep(segs + [s], byContent[s.contentID := list])
  {
    EntryInStep(segs, byContent, s.contentID);
    PrimaryFirstGrows(segs, s, s.contentID);
    ContentsGrow(segs, s, byContent);
  }

  lemma HostMapGrows(segs: seq<SegConfig>, s: SegConfig, hostnames: seq<string>, byHost: map<string, seq<nat>>)
    requires HostsInStep(segs, hostnames, byHost)
    ensures var refs := Entry(byHost, s.hostname) + [|segs|];
      HostsInStep(segs + [s], if |refs| == 1 then hostnames + [s.hostname] else hostnames, byHost[s.hostname := refs])
  {
    HostsGrow(segs, s);
    assert Entry(byHost, s.hostname) == HostRefs(segs, s.hostname);
  }

  // ---------------------------------------------------------------- The class

  class Cluster {
    const segments: array<SegConfig>
    var contentIDs: seq<int>
    var hostnames: seq<string>
    var byContent: map<int, seq<nat>>
    var byHost: map<string, seq<nat>>

    function View(): Index
      reads this, segments
    {
      Index(segments[..], contentIDs, hostnames, byContent, byHost)
    }

    /** The segment slice is kept, not copied; the indexes built over it are in step with it. */
    constructor (segConfigs: array<SegConfig>)
      ensures segments == segConfigs
      ensures InStep(View()) && RefsValid(View())
    {
      segments := segConfigs;
      contentIDs, hostnames, byContent, byHost := [], [], map[], map[];
      new;
      for i := 0 to segments.Length
        invariant ContentsInStep(segments[..i], byContent)
        invariant HostsInStep(segments[..i], hostnames, byHost)
      {
        assert segments[..i + 1] == segments[..i] + [segments[i]];
        AddSegment(i);
      }
      assert segments[..segments.Length] == segments[..];
      contentIDs := SortedKeys(byContent.Keys);
      RefsInStep(View());
    }

    /** The loop body: a reference to segment `i` goes into both maps. */
    method AddSegment(i: nat)
      requires i < segments.Length
      requires ContentsInStep(segments[..i], byContent) && HostsInStep(segments[..i], hostnames, byHost)
      modifies this
      ensures ContentsInStep(segments[..i] + [segments[i]], byContent)
      ensures HostsInStep(segments[..i] + [segments[i]], hostnames, byHost)
    {
      AddToContent(i);
      AddToHost(i);
    }

    method AddToContent(i: nat)
      requires i < segments.Length && ContentsInStep(segments[..i], byContent)
      modifies `byContent
      ensures ContentsInStep(segments[..i] + [segments[i]], byContent)
    {
      var segment := segments[i];
      EntryGrows(segments[..i], segment, byContent);
      var segmentList := Entry(byContent, segment.contentID) + [i];
      if |segmentList| == 2 && segments[segmentList[0]].role == "m" {
        segmentList := [segmentList[1], segmentList[0]];
      }
      byContent := byContent[segment.contentID := segmentList];
    }

    method AddToHost(i: nat)
      requires i < segments.Length && HostsInStep(segments[..i], hostnames, byHost)
      modifies `byHost, `hostnames
      ensures HostsInStep(segments[..i] + [segments[i]], hostnames, byHost)
    {
      var segment := segments[i];
      HostMapGrows(segments[..i], segment, hostnames, byHost);
      byHost := byHost[segment.hostname := Entry(byHost, segment.hostname) + [i]];
      if |byHost[segment.hostname]| == 1 {
        hostnames := hostnames + [segment.hostname];
      }
    }

    function GetHostForContent(id: int, role: seq<string>): string
      requires RefsValid(View())
      reads this, segments
    {
      HostOf(Found(View(), id, role))
    }

    /** The host of the segment found, or the empty string. */
    lemma HostForContent(id: int, role: seq<string>, ps: seq<nat>)
      requires InStep(View()) && RefsValid(View()) && AreOfContent(segments[..], id, ps)
      ensures GetHostForContent(id, role) ==
        match Sought(segments[..], ps, role) case None => "" case Some(s) => s.hostname
    {
      FoundIsLookup(View(), id, role);
      LookupExactly(segments[..], id, role, ps);
    }

    method GetContentsForHost(hostname: string) returns (contents: array<int>)
      requires RefsValid(View())
      ensures fresh(contents) && contents[..] == ContentsForHost(View(), hostname)
    {
      var refs := Entry(byHost, hostname);
      contents := new int[|refs|];
      for i := 0 to |refs|
        invariant forall j | 0 <= j < i :: contents[j] == segments[refs[j]].contentID
      {
        contents[i] := segments[refs[i]].contentID;
      }
    }

    /** The branch for generators that take a content. */
    method PerContentCommands(scope: Scope, forContent: int -> seq<string>)
      returns (commands: Option<seq<ShellCommand>>)
      requires RefsValid(View())
      ensures commands == CommandList(View(), scope, PerContent(forContent))
    {
      var list: seq<ShellCommand> := [];
      for i := 0 to |contentIDs|
        invariant list == ContentCommands(contentIDs[..i], scope, forContent)
        invariant ContentsHaveCommands(contentIDs[..i], scope, forContent)
      {
        var content := contentIDs[i];
        assert contentIDs[..i + 1] == contentIDs[..i] + [content];
        if content == -1 && ScopeExcludesCoordinator(scope) {
          continue;
        }
        var command := forContent(content);
        if command == [] {
          return None;
        }
        list := list + [NewShellCommand(scope, content, "", command)];
      }
      assert contentIDs[..|contentIDs|] == contentIDs;
      return Some(list);
    }

    /** Whether the scope leaves out a host: the coordinator's or its standby's without other segments. */
    method ExcludesHost(scope: Scope, host: string) returns (skip: bool)
      requires RefsValid(View())
      ensures skip == SkipsHost(View(), scope, host)
    {
      var contents := GetContentsForHost(host);
      assert contents.Length == |contents[..]|;
      var hostHasOneContent := contents.Length == 1;
      if host == GetHostForContent(-1, ["p"]) && ScopeExcludesCoordinator(scope) && hostHasOneContent {
        return true;
      }
      if host == GetHostForContent(-1, ["m"]) && ScopeExcludesMirrors(scope) && hostHasOneContent {
        return true;
      }
      return false;
    }

    /** The branch for generators that take a host. */
    method PerHostCommands(scope: Scope, forHost: string -> seq<string>) returns (commands: Option<seq<ShellCommand>>)
      requires RefsValid(View())
      ensures commands == CommandList(View(), scope, PerHost(forHost))
    {
      var list: seq<ShellCommand> := [];
      for i := 0 to |hostnames|
        invariant list == HostCommands(View(), hostnames[..i], scope, forHost)
        invariant HostsHaveCommands(View(), hostnames[..i], scope, forHost)
      {
        var host := hostnames[i];
        assert hostnames[..i + 1] == hostnames[..i] + [host];
        var skip := ExcludesHost(scope, host);
        if skip {
          continue;
        }
        var command := forHost(host);
        if command == [] {
          return None;
        }
        list := list + [NewShellCommand(scope, -2, host, command)];
      }
      assert hostnames[..|hostnames|] == hostnames;
      return Some(list);
    }

    /** The type switch over the kind of generator. */
    method GenerateCommandList(scope: Scope, generator: Generator) returns (commands: Option<seq<ShellCommand>>)
      requires RefsValid(View())
      ensures commands == CommandList(View(), scope, generator)
    {
      match generator
      case PerContent(forContent) => commands := PerContentCommands(scope, forContent);
      case PerHost(forHost) => commands := PerHostCommands(scope, forHost);
      case Invalid => commands := None;
    }
  }
}
