/**
 The indexes of a cluster as functions of its segment list. A pointer into `Segments` is the position of
 the segment it points to, so what it reads is always the segment now stored there.
 */
module ClusterIndex {
  import opened Segments

  datatype Key = Content(id: int) | Host(name: string)

  predicate HasKey(s: SegConfig, key: Key) {
    match key case Content(id) => s.contentID == id case Host(name) => s.hostname == name
  }

  /** The positions of the segments with this key, in input order. */
  function PositionsOf(segs: seq<SegConfig>, key: Key): (ps: seq<nat>)
    ensures forall i | 0 <= i < |ps| :: ps[i] < |segs|
  {
    if segs == [] then []
    else
      var n := |segs| - 1;
      PositionsOf(segs[..n], key) + if HasKey(segs[n], key) then [n] else []
  }

  /** The first two swapped if the first is a mirror. */
  function PrimaryFirst(segs: seq<SegConfig>, ps: seq<nat>): (qs: seq<nat>)
    requires forall i | 0 <= i < |ps| :: ps[i] < |segs|
    ensures |qs| == |ps|
    ensures forall i | 0 <= i < |qs| :: qs[i] < |segs|
  {
    if |ps| >= 2 && segs[ps[0]].role == "m" then [ps[1], ps[0]] + ps[2..] else ps
  }

  /** The references kept for one content. */
  function ContentRefs(segs: seq<SegConfig>, id: int): seq<nat> {
    PrimaryFirst(segs, PositionsOf(segs, Content(id)))
  }

  function HostRefs(segs: seq<SegConfig>, name: string): seq<nat> {
    PositionsOf(segs, Host(name))
  }

  /** Each host once, in order of first appearance. */
  function HostsOf(segs: seq<SegConfig>): seq<string> {
    if segs == [] then []
    else
      var n := |segs| - 1;
      var h := segs[n].hostname;
      HostsOf(segs[..n]) + if HostRefs(segs[..n], h) == [] then [h] else []
  }

  function ContentSet(segs: seq<SegConfig>): set<int> {
    set i | 0 <= i < |segs| :: segs[i].contentID
  }

  predicate Ascending(ids: seq<int>) {
    forall i, j | 0 <= i < j < |ids| :: ids[i] < ids[j]
  }

  predicate NoDuplicates<T(==)>(s: seq<T>) {
    forall i, j | 0 <= i < j < |s| :: s[i] != s[j]
  }

  /** The five fields of a cluster. */
  datatype Index = Index(
    segments: seq<SegConfig>,
    contentIDs: seq<int>,
    hostnames: seq<string>,
    byContent: map<int, seq<nat>>,
    byHost: map<string, seq<nat>>)

  /** The entry of a map, or the empty slice. */
  function Entry<K(==)>(m: map<K, seq<nat>>, k: K): seq<nat> {
    if k in m then m[k] else []
  }

  /** The two maps and two lists agree with the segment list. */
  ghost predicate InStep(x: Index) {
    && x.byContent.Keys == ContentSet(x.segments)
    && (forall id | id in x.byContent :: x.byContent[id] == ContentRefs(x.segments, id))
    && (forall name :: name in x.byHost <==> HostRefs(x.segments, name) != [])
    && (forall name | name in x.byHost :: x.byHost[name] == HostRefs(x.segments, name))
    && x.hostnames == HostsOf(x.segments)
    && Ascending(x.contentIDs)
    && (forall id :: id in x.contentIDs <==> id in x.byContent)
  }

  // ---------------------------------------------------------------- What positions are

  /** `ps` lists, ascending, exactly the positions of the segments of a content. */
  ghost predicate AreOfContent(segs: seq<SegConfig>, id: int, ps: seq<nat>) {
    && (forall i, j | 0 <= i < j < |ps| :: ps[i] < ps[j])
    && (forall i | 0 <= i < |ps| :: ps[i] < |segs|)
    && (forall k: nat | k < |segs| :: k in ps <==> segs[k].contentID == id)
  }

  /** `ps` lists, ascending, exactly the positions of the segments on a host. */
  ghost predicate AreOnHost(segs: seq<SegConfig>, name: string, ps: seq<nat>) {
    && (forall i, j | 0 <= i < j < |ps| :: ps[i] < ps[j])
    && (forall i | 0 <= i < |ps| :: ps[i] < |segs|)
    && (forall k: nat | k < |segs| :: k in ps <==> segs[k].hostname == name)
  }

  lemma {:induction false} PositionsAreExact(segs: seq<SegConfig>, key: Key)
    ensures var ps := PositionsOf(segs, key);
      && (forall i, j | 0 <= i < j < |ps| :: ps[i] < ps[j])
      && (forall k | 0 <= k < |segs| :: k in ps <==> HasKey(segs[k], key))
      && (forall i | 0 <= i < |ps| :: HasKey(segs[ps[i]], key))
  {
    if segs != [] {
      var n := |segs| - 1;
      var front := segs[..n];
      PositionsAreExact(front, key);
      var ps := PositionsOf(segs, key);
      forall k | 0 <= k < |segs|
        ensures k in ps <==> HasKey(segs[k], key)
      {
        if k < n {
          assert front[k] == segs[k];
        } else {
          assert n !in PositionsOf(front, key);
        }
      }
    }
  }

  lemma PositionsOfContent(segs: seq<SegConfig>, id: int)
    ensures AreOfContent(segs, id, PositionsOf(segs, Content(id)))
  {
    PositionsAreExact(segs, Content(id));
  }

  lemma PositionsOnHost(segs: seq<SegConfig>, name: string)
    ensures AreOnHost(segs, name, PositionsOf(segs, Host(name)))
  {
    PositionsAreExact(segs, Host(name));
  }

  lemma PositionsGrow(segs: seq<SegConfig>, s: SegConfig, key: Key)
    ensures PositionsOf(segs + [s], key) == PositionsOf(segs, key) + if HasKey(s, key) then [|segs|] else []
  {
    assert (segs + [s])[..|segs|] == segs;
  }

  /** A content is present exactly if it has a position. */
  lemma PresentContents(segs: seq<SegConfig>, id: int)
    ensures id in ContentSet(segs) <==> PositionsOf(segs, Content(id)) != []
  {
    PositionsAreExact(segs, Content(id));
    var ps := PositionsOf(segs, Content(id));
    if ps != [] {
      assert HasKey(segs[ps[0]], Content(id));
    }
    if id in ContentSet(segs) {
      var k :| 0 <= k < |segs| && segs[k].contentID == id;
      assert HasKey(segs[k], Content(id));
      assert k in ps;
    }
  }

  /** One of the first `n` segments is on the host. */
  ghost predicate AppearsBefore(segs: seq<SegConfig>, name: string, n: nat) {
    exists k: nat :: k < n && k < |segs| && segs[k].hostname == name
  }

  /** The hosts of all segments, each in front of those that appear later. */
  ghost predicate InOrderOfAppearance(segs: seq<SegConfig>, hosts: seq<string>) {
    && (forall name :: name in hosts <==> AppearsBefore(segs, name, |segs|))
    && (forall i, j, m: nat | 0 <= i < j < |hosts| && m < |segs| && segs[m].hostname == hosts[j] ::
          AppearsBefore(segs, hosts[i], m))
  }

  lemma AppearsBeforeStays(segs: seq<SegConfig>, s: SegConfig, name: string, n: nat)
    requires n <= |segs|
    ensures AppearsBefore(segs + [s], name, n) <==> AppearsBefore(segs, name, n)
    ensures AppearsBefore(segs + [s], name, |segs| + 1) <==> AppearsBefore(segs, name, |segs|) || s.hostname == name
  {
    assert forall m: nat | m < |segs| :: (segs + [s])[m] == segs[m];
    assert (segs + [s])[|segs|] == s;
  }

  lemma {:induction false} HostsAreExact(segs: seq<SegConfig>)
    ensures NoDuplicates(HostsOf(segs))
    ensures forall name :: name in HostsOf(segs) <==> HostRefs(segs, name) != []
  {
    if segs != [] {
      var n := |segs| - 1;
      var front, s := segs[..n], segs[n];
      HostsAreExact(front);
      assert segs == front + [s];
      forall name
        ensures name in HostsOf(segs) <==> HostRefs(segs, name) != []
      {
        PositionsGrow(front, s, Host(name));
      }
    }
  }

  lemma {:induction false} HostsAppearInOrder(segs: seq<SegConfig>)
    ensures InOrderOfAppearance(segs, HostsOf(segs))
  {
    if segs != [] {
      var n := |segs| - 1;
      var front, s := segs[..n], segs[n];
      assert segs == front + [s];
      HostsAppearInOrder(front);
      OneMoreHost(front, s, HostsOf(front));
      HostsOfMore(front, s);
    }
  }

  lemma HostsOfMore(segs: seq<SegConfig>, s: SegConfig)
    ensures HostsOf(segs + [s])
         == if s.hostname in HostsOf(segs) then HostsOf(segs) else HostsOf(segs) + [s.hostname]
  {
    assert (segs + [s])[..|segs|] == segs;
    HostsAreExact(segs);
  }

  lemma OneMoreHost(segs: seq<SegConfig>, s: SegConfig, hosts: seq<string>)
    requires InOrderOfAppearance(segs, hosts)
    ensures InOrderOfAppearance(segs + [s], if s.hostname in hosts then hosts else hosts + [s.hostname])
  {
    var all := segs + [s];
    var more := if s.hostname in hosts then hosts else hosts + [s.hostname];
    forall name
      ensures name in more <==> AppearsBefore(all, name, |all|)
    {
      AppearsBeforeStays(segs, s, name, |segs|);
    }
    forall i, j, m: nat | 0 <= i < j < |more| && m < |all| && all[m].hostname == more[j]
      ensures AppearsBefore(all, more[i], m)
    {
      AppearsBeforeStays(segs, s, more[i], m);
      assert more[i] == hosts[i] && hosts[i] in hosts;
      if m < |segs| {
        assert all[m] == segs[m];
        assert AppearsBefore(segs, more[j], |segs|);
      }
    }
  }

  /** Each bucket of a content lists the positions of its segments in input order, but for the first two, which
      are swapped if the first is a mirror; the content ids are ascending. */
  ghost predicate ExactContents(x: Index) {
    && (forall id :: id in x.byContent <==> exists k: nat :: k < |x.segments| && x.segments[k].contentID == id)
    && (forall id, ps | id in x.byContent && AreOfContent(x.segments, id, ps) ::
          if |ps| >= 2 && x.segments[ps[0]].role == "m" then x.byContent[id] == [ps[1], ps[0]] + ps[2..]
          else x.byContent[id] == ps)
    && (forall i, j | 0 <= i < j < |x.contentIDs| :: x.contentIDs[i] < x.contentIDs[j])
    && (forall id :: id in x.contentIDs <==> id in x.byContent)
  }

  /** Each bucket of a host lists the positions of its segments in input order; the hosts are listed once, in
      order of first appearance. */
  ghost predicate ExactHosts(x: Index) {
    && (forall name :: name in x.byHost <==> AppearsBefore(x.segments, name, |x.segments|))
    && (forall name, ps | name in x.byHost && AreOnHost(x.segments, name, ps) :: x.byHost[name] == ps)
    && (forall i, j | 0 <= i < j < |x.hostnames| :: x.hostnames[i] != x.hostnames[j])
    && InOrderOfAppearance(x.segments, x.hostnames)
  }

  lemma ContentsAreExact(x: Index)
    requires InStep(x)
    ensures ExactContents(x)
  {
    forall id, ps | id in x.byContent && AreOfContent(x.segments, id, ps)
      ensures ps == PositionsOf(x.segments, Content(id))
    {
      PositionsOfContent(x.segments, id);
      AscendingListsAgree(ps, PositionsOf(x.segments, Content(id)), |x.segments|);
    }
  }

  lemma HostBucketsAreExact(x: Index)
    requires InStep(x)
    ensures ExactHosts(x)
  {
    HostsAreExact(x.segments);
    HostsAppearInOrder(x.segments);
    forall name, ps | name in x.byHost && AreOnHost(x.segments, name, ps)
      ensures ps == HostRefs(x.segments, name)
    {
      PositionsOnHost(x.segments, name);
      AscendingListsAgree(ps, HostRefs(x.segments, name), |x.segments|);
    }
  }

  /** An index in step, field by field. */
  lemma IndexExactly(x: Index)
    requires InStep(x)
    ensures ExactContents(x) && ExactHosts(x)
  {
    ContentsAreExact(x);
    HostBucketsAreExact(x);
  }

  lemma AscendingListsAgree(a: seq<nat>, b: seq<nat>, n: nat)
    requires forall i, j | 0 <= i < j < |a| :: a[i] < a[j]
    requires forall i, j | 0 <= i < j < |b| :: b[i] < b[j]
    requires (forall i | 0 <= i < |a| :: a[i] < n) && (forall i | 0 <= i < |b| :: b[i] < n)
    requires forall k: nat | k < n :: k in a <==> k in b
    ensures a == b
  {
    forall k: int
      ensures k in a <==> k in b
    {
    }
    AscendingIsUnique(a, b);
  }

  // ---------------------------------------------------------------- Sizes

  function SizeSum(segs: seq<SegConfig>, keys: seq<Key>): nat {
    if keys == [] then 0 else |PositionsOf(segs, keys[0])| + SizeSum(segs, keys[1..])
  }

  function BucketSum<K(==)>(buckets: map<K, seq<nat>>, keys: seq<K>): nat
    requires forall i | 0 <= i < |keys| :: keys[i] in buckets
  {
    if keys == [] then 0 else |buckets[keys[0]]| + BucketSum(buckets, keys[1..])
  }

  /** One of the keys is the segment's. */
  ghost predicate OneKeyOf(s: SegConfig, keys: seq<Key>) {
    exists k :: k in keys && HasKey(s, k)
  }

  lemma {:induction false} SizeSumGrows(segs: seq<SegConfig>, s: SegConfig, keys: seq<Key>)
    requires NoDuplicates(keys)
    requires (forall k | k in keys :: k.Content?) || (forall k | k in keys :: k.Host?)
    ensures SizeSum(segs + [s], keys) == SizeSum(segs, keys) + if OneKeyOf(s, keys) then 1 else 0
  {
    if keys != [] {
      var first, more := keys[0], keys[1..];
      PositionsGrow(segs, s, first);
      assert NoDuplicates(more);
      SizeSumGrows(segs, s, more);
      if HasKey(s, first) {
        assert OneKeyOf(s, keys);
        forall k | k in more
          ensures !HasKey(s, k)
        {
          assert k in keys && k != first;
        }
      } else {
        assert OneKeyOf(s, keys) <==> OneKeyOf(s, more);
      }
    }
  }

  lemma {:induction false} NoSizes(keys: seq<Key>)
    ensures SizeSum([], keys) == 0
  {
    if keys != [] {
      NoSizes(keys[1..]);
    }
  }

  /** Keys that cover the segments share them out. */
  lemma {:induction false} SizesAddUp(segs: seq<SegConfig>, keys: seq<Key>)
    requires NoDuplicates(keys) && forall i | 0 <= i < |segs| :: OneKeyOf(segs[i], keys)
    requires (forall k | k in keys :: k.Content?) || (forall k | k in keys :: k.Host?)
    ensures SizeSum(segs, keys) == |segs|
  {
    if segs == [] {
      NoSizes(keys);
    } else {
      var n := |segs| - 1;
      assert segs == segs[..n] + [segs[n]];
      SizesAddUp(segs[..n], keys);
      SizeSumGrows(segs[..n], segs[n], keys);
    }
  }

  lemma {:induction false} SameSums<K>(buckets: map<K, seq<nat>>, names: seq<K>, segs: seq<SegConfig>, keys: seq<Key>)
    requires |names| == |keys|
    requires forall i | 0 <= i < |keys| :: names[i] in buckets && |buckets[names[i]]| == |PositionsOf(segs, keys[i])|
    ensures BucketSum(buckets, names) == SizeSum(segs, keys)
  {
    if keys != [] {
      SameSums(buckets, names[1..], segs, keys[1..]);
    }
  }

  /** In an index in step, the buckets of either map add up to the number of segments. */
  lemma BucketsShareOutSegments(x: Index)
    requires InStep(x)
    ensures BucketSum(x.byContent, x.contentIDs) == |x.segments|
    ensures (forall i | 0 <= i < |x.hostnames| :: x.hostnames[i] in x.byHost)
         && BucketSum(x.byHost, x.hostnames) == |x.segments|
  {
    var contents := seq(|x.contentIDs|, i requires 0 <= i < |x.contentIDs| => Content(x.contentIDs[i]));
    var hosts := seq(|x.hostnames|, i requires 0 <= i < |x.hostnames| => Host(x.hostnames[i]));
    HostsAreExact(x.segments);
    forall i | 0 <= i < |x.hostnames|
      ensures x.hostnames[i] in x.byHost
    {
      assert x.hostnames[i] in HostsOf(x.segments);
    }
    forall k | 0 <= k < |x.segments|
      ensures OneKeyOf(x.segments[k], contents) && OneKeyOf(x.segments[k], hosts)
    {
      CoveredByKeys(x, k, contents, hosts);
    }
    SizesAddUp(x.segments, contents);
    SizesAddUp(x.segments, hosts);
    SameSums(x.byContent, x.contentIDs, x.segments, contents);
    SameSums(x.byHost, x.hostnames, x.segments, hosts);
  }

  lemma CoveredByKeys(x: Index, k: nat, contents: seq<Key>, hosts: seq<Key>)
    requires InStep(x) && k < |x.segments|
    requires |contents| == |x.contentIDs| && forall i | 0 <= i < |contents| :: contents[i] == Content(x.contentIDs[i])
    requires |hosts| == |x.hostnames| && forall i | 0 <= i < |hosts| :: hosts[i] == Host(x.hostnames[i])
    ensures OneKeyOf(x.segments[k], contents) && OneKeyOf(x.segments[k], hosts)
  {
    var s := x.segments[k];
    assert s.contentID in ContentSet(x.segments);
    var i :| 0 <= i < |x.contentIDs| && x.contentIDs[i] == s.contentID;
    assert contents[i] in contents && HasKey(s, contents[i]);
    PositionsAreExact(x.segments, Host(s.hostname));
    assert HasKey(s, Host(s.hostname));
    assert k in HostRefs(x.segments, s.hostname);
    HostsAreExact(x.segments);
    var j :| 0 <= j < |x.hostnames| && x.hostnames[j] == s.hostname;
    assert hosts[j] in hosts && HasKey(s, hosts[j]);
  }

  /** The index in step with a segment list is unique, whatever the order in which map keys were visited. */
  lemma InStepIsUnique(x: Index, y: Index)
    requires InStep(x) && InStep(y) && x.segments == y.segments
    ensures x == y
  {
    AscendingIsUnique(x.contentIDs, y.contentIDs);
    assert x.byContent == y.byContent;
    assert x.byHost == y.byHost;
  }

  lemma {:induction false} AscendingIsUnique(a: seq<int>, b: seq<int>)
    requires Ascending(a) && Ascending(b) && forall x :: x in a <==> x in b
    ensures a == b
    decreases |a|
  {
    if a == [] {
      assert forall i | 0 <= i < |b| :: b[i] in b;
    } else {
      assert a[0] in b && b != [];
      assert b[0] in a;
      assert a[0] == b[0];
      forall x
        ensures x in a[1..] <==> x in b[1..]
      {
        assert x in a <==> x == a[0] || x in a[1..];
        assert x in b <==> x == b[0] || x in b[1..];
        assert a[0] !in a[1..] && b[0] !in b[1..];
      }
      AscendingIsUnique(a[1..], b[1..]);
      assert a == [a[0]] + a[1..] && b == [b[0]] + b[1..];
    }
  }
}
