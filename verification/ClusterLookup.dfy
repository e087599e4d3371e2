/** Lookups by content and role, and how far they depend on the order of the segments. */
module ClusterLookup {
  import opened Wrappers
  import opened Segments
  import opened ClusterIndex

  /** The reference for a role: only the single argument "m" means the second, anything else the first. */
  function SegmentByRole<T>(refs: seq<T>, role: seq<string>): Option<T> {
    if |role| == 1 && role[0] == "m" then
      if |refs| < 2 then None else Some(refs[1])
    else if |refs| == 0 then None
    else Some(refs[0])
  }

  /** The segment found for a content in a list of segments. */
  function Lookup(segs: seq<SegConfig>, id: int, role: seq<string>): Option<SegConfig> {
    match SegmentByRole(ContentRefs(segs, id), role)
    case None => None
    case Some(k) => Some(segs[k])
  }

  function HostOf(found: Option<SegConfig>): string { if found.None? then "" else found.value.hostname }

  /** Of a content's segments, at positions `ps` in input order, the first two change places if the first is a
      mirror; the single argument "m" then asks for the second, anything else for the first. */
  ghost function Sought(segs: seq<SegConfig>, ps: seq<nat>, role: seq<string>): Option<SegConfig>
    requires forall i | 0 <= i < |ps| :: ps[i] < |segs|
  {
    var swapped := |ps| >= 2 && segs[ps[0]].role == "m";
    if role == ["m"] then
      if |ps| < 2 then None else Some(segs[ps[if swapped then 0 else 1]])
    else
      if |ps| < 1 then None else Some(segs[ps[if swapped then 1 else 0]])
  }

  /** That is the segment found. */
  lemma LookupExactly(segs: seq<SegConfig>, id: int, role: seq<string>, ps: seq<nat>)
    requires AreOfContent(segs, id, ps)
    ensures Lookup(segs, id, role) == Sought(segs, ps, role)
  {
    PositionsOfContent(segs, id);
    AscendingListsAgree(ps, PositionsOf(segs, Content(id)), |segs|);
    assert |role| == 1 && role[0] == "m" <==> role == ["m"];
  }

  // ---------------------------------------------------------------- The segments of one content

  /** The segments with this key, in input order. */
  function Bucket(segs: seq<SegConfig>, key: Key): seq<SegConfig> {
    var ps := PositionsOf(segs, key);
    seq(|ps|, i requires 0 <= i < |ps| => segs[ps[i]])
  }

  lemma BucketGrows(segs: seq<SegConfig>, s: SegConfig, key: Key)
    ensures Bucket(segs + [s], key) == Bucket(segs, key) + if HasKey(s, key) then [s] else []
  {
    PositionsGrow(segs, s, key);
  }

  lemma {:induction false} BucketCounts(segs: seq<SegConfig>, key: Key, s: SegConfig)
    ensures multiset(Bucket(segs, key))[s] == if HasKey(s, key) then multiset(segs)[s] else 0
  {
    if segs == [] {
      assert Bucket(segs, key) == [];
    } else {
      var n := |segs| - 1;
      assert segs == segs[..n] + [segs[n]];
      BucketCounts(segs[..n], key, s);
      BucketGrows(segs[..n], segs[n], key);
    }
  }

  /** Lists with the same segments have the same segments per key. */
  lemma SameBuckets(a: seq<SegConfig>, b: seq<SegConfig>, key: Key)
    requires multiset(a) == multiset(b)
    ensures multiset(Bucket(a, key)) == multiset(Bucket(b, key))
    ensures |Bucket(a, key)| == |Bucket(b, key)|
  {
    forall s: SegConfig
      ensures multiset(Bucket(a, key))[s] == multiset(Bucket(b, key))[s]
    {
      BucketCounts(a, key, s);
      BucketCounts(b, key, s);
    }
    assert |multiset(Bucket(a, key))| == |Bucket(a, key)|;
    assert |multiset(Bucket(b, key))| == |Bucket(b, key)|;
  }

  /** At most one segment, or two of which exactly one has role "m". */
  predicate WellPaired(bucket: seq<SegConfig>) {
    |bucket| <= 1 || (|bucket| == 2 && (bucket[0].role == "m" <==> bucket[1].role != "m"))
  }

  /** A bucket after the mirror-first swap. */
  function Arranged(bucket: seq<SegConfig>): seq<SegConfig> {
    if |bucket| >= 2 && bucket[0].role == "m" then [bucket[1], bucket[0]] + bucket[2..] else bucket
  }

  lemma LookupInBucket(segs: seq<SegConfig>, id: int, role: seq<string>)
    ensures Lookup(segs, id, role) == SegmentByRole(Arranged(Bucket(segs, Content(id))), role)
  {
  }

  /** Which roles the answers have, for every bucket: with two or more segments the default answer is a mirror
      only if the first two both are, and the mirror answer is one exactly if one of the first two is. A lone
      segment is the default answer whatever its role, and there is no mirror answer. */
  lemma RolesOfAnswers(segs: seq<SegConfig>, id: int, role: seq<string>)
    ensures var bucket := Bucket(segs, Content(id));
      var answer := Lookup(segs, id, role);
      if role == ["m"] then
        && (answer.Some? <==> |bucket| >= 2)
        && (answer.Some? ==> answer.value in bucket[..2])
        && (answer.Some? ==> (answer.value.role == "m" <==> bucket[0].role == "m" || bucket[1].role == "m"))
      else
        && (answer.Some? <==> |bucket| >= 1)
        && (|bucket| == 1 ==> answer == Some(bucket[0]))
        && (|bucket| >= 2 ==>
              && answer.value in bucket[..2]
              && (answer.value.role == "m" <==> bucket[0].role == "m" && bucket[1].role == "m"))
  {
    LookupInBucket(segs, id, role);
    var bucket := Bucket(segs, Content(id));
    if |bucket| >= 2 {
      assert bucket[..2] == [bucket[0], bucket[1]];
    }
  }

  lemma SamePair<T>(a: seq<T>, b: seq<T>)
    requires |a| == |b| == 2 && multiset(a) == multiset(b)
    ensures b == a || b == [a[1], a[0]]
  {
    assert a == [a[0], a[1]] && b == [b[0], b[1]];
    assert multiset(a)[a[0]] == multiset(b)[a[0]];
    assert multiset(a)[b[0]] == multiset(b)[b[0]];
    assert multiset(a)[a[1]] == multiset(b)[a[1]];
  }

  lemma SameSmallBucket(a: seq<SegConfig>, b: seq<SegConfig>)
    requires multiset(a) == multiset(b) && |a| == |b| && WellPaired(a)
    ensures Arranged(a) == Arranged(b)
  {
    if |a| == 1 {
      assert a[0] in multiset(b);
    } else if |a| == 2 {
      SamePair(a, b);
      assert a == [a[0], a[1]];
    }
  }

  /** For a well-paired content, every order of the same segments gives the same answers. */
  lemma LookupIgnoresOrder(a: seq<SegConfig>, b: seq<SegConfig>, id: int, role: seq<string>)
    requires multiset(a) == multiset(b) && WellPaired(Bucket(a, Content(id)))
    ensures Lookup(a, id, role) == Lookup(b, id, role)
  {
    SameBuckets(a, b, Content(id));
    SameSmallBucket(Bucket(a, Content(id)), Bucket(b, Content(id)));
    LookupInBucket(a, id, role);
    LookupInBucket(b, id, role);
  }

  // ---------------------------------------------------------------- The condition is necessary

  lemma {:induction false} SameKeysSamePositions(a: seq<SegConfig>, b: seq<SegConfig>, key: Key)
    requires |a| == |b| && forall i | 0 <= i < |a| :: HasKey(a[i], key) <==> HasKey(b[i], key)
    ensures PositionsOf(a, key) == PositionsOf(b, key)
  {
    if a != [] {
      SameKeysSamePositions(a[..|a| - 1], b[..|b| - 1], key);
    }
  }

  function Swap<T>(s: seq<T>, i: nat, j: nat): seq<T>
    requires i < |s| && j < |s|
  {
    s[i := s[j]][j := s[i]]
  }

  lemma SwapIsPermutation<T>(s: seq<T>, i: nat, j: nat)
    requires i < |s| && j < |s|
    ensures multiset(Swap(s, i, j)) == multiset(s)
  {
  }

  /** Swapping two segments of one content swaps them in its bucket. */
  lemma SwapInBucket(a: seq<SegConfig>, id: int, i: nat, j: nat)
    requires var ps := PositionsOf(a, Content(id)); i < j < |ps|
    ensures var ps := PositionsOf(a, Content(id));
      && Bucket(Swap(a, ps[i], ps[j]), Content(id)) == Swap(Bucket(a, Content(id)), i, j)
      && multiset(Swap(a, ps[i], ps[j])) == multiset(a)
  {
    var key := Content(id);
    var ps := PositionsOf(a, key);
    PositionsAreExact(a, key);
    var b := Swap(a, ps[i], ps[j]);
    SwapIsPermutation(a, ps[i], ps[j]);
    assert HasKey(a[ps[i]], key) && HasKey(a[ps[j]], key);
    SameKeysSamePositions(a, b, key);
    SwapAt(a, ps, i, j, Bucket(a, key), Bucket(b, key));
  }

  lemma SwapAt<T>(a: seq<T>, ps: seq<nat>, i: nat, j: nat, before: seq<T>, after: seq<T>)
    requires forall m | 0 <= m < |ps| :: ps[m] < |a|
    requires forall m, n | 0 <= m < n < |ps| :: ps[m] < ps[n]
    requires i < j < |ps| == |before| == |after|
    requires forall m | 0 <= m < |ps| :: before[m] == a[ps[m]] && after[m] == Swap(a, ps[i], ps[j])[ps[m]]
    ensures after == Swap(before, i, j)
  {
    forall m | 0 <= m < |ps|
      ensures after[m] == Swap(before, i, j)[m]
    {
      assert m != i ==> ps[m] != ps[i];
      assert m != j ==> ps[m] != ps[j];
    }
  }

  /** In a bucket that is not well paired, two places whose swap changes the default answer. */
  lemma SomeSwapMatters(bucket: seq<SegConfig>) returns (i: nat, j: nat)
    requires !WellPaired(bucket) && NoDuplicates(bucket)
    ensures i < j < |bucket|
    ensures Arranged(Swap(bucket, i, j))[0] != Arranged(bucket)[0]
  {
    if |bucket| == 2 {
      i, j := 0, 1;
    } else {
      j := 2;
      i := if bucket[0].role == "m" then 1 else 0;
      var swapped := Swap(bucket, i, j);
      assert Arranged(swapped)[0] in [swapped[0], swapped[1]];
      assert bucket[i] != bucket[1 - i] && bucket[i] != bucket[2];
    }
  }

  /** Order independence exactly: for distinct segments, the answers for a content are the same under every
      order if and only if the content is well paired. */
  lemma OrderIndependence(a: seq<SegConfig>, id: int)
    requires NoDuplicates(a)
    ensures WellPaired(Bucket(a, Content(id))) <==>
      forall b: seq<SegConfig>, role: seq<string> | multiset(b) == multiset(a) ::
        Lookup(b, id, role) == Lookup(a, id, role)
  {
    var bucket := Bucket(a, Content(id));
    if WellPaired(bucket) {
      forall b: seq<SegConfig>, role: seq<string> | multiset(b) == multiset(a)
        ensures Lookup(b, id, role) == Lookup(a, id, role)
      {
        LookupIgnoresOrder(a, b, id, role);
      }
    } else {
      PositionsAreExact(a, Content(id));
      assert NoDuplicates(bucket);
      var i, j := SomeSwapMatters(bucket);
      SwapInBucket(a, id, i, j);
      var ps := PositionsOf(a, Content(id));
      var b := Swap(a, ps[i], ps[j]);
      LookupInBucket(a, id, []);
      LookupInBucket(b, id, []);
      assert Lookup(b, id, []) != Lookup(a, id, []);
    }
  }

  function CountRole(bucket: seq<SegConfig>, role: string): nat {
    if bucket == [] then 0 else (if bucket[0].role == role then 1 else 0) + CountRole(bucket[1..], role)
  }

  lemma {:induction false} RolesAddUp(bucket: seq<SegConfig>)
    requires forall i | 0 <= i < |bucket| :: bucket[i].role == "p" || bucket[i].role == "m"
    ensures CountRole(bucket, "p") + CountRole(bucket, "m") == |bucket|
  {
    if bucket != [] {
      RolesAddUp(bucket[1..]);
    }
  }

  /** A content with at most one primary and at most one mirror, and nothing else, is well paired. */
  lemma OnePrimaryOneMirror(bucket: seq<SegConfig>)
    requires forall i | 0 <= i < |bucket| :: bucket[i].role == "p" || bucket[i].role == "m"
    requires CountRole(bucket, "p") <= 1 && CountRole(bucket, "m") <= 1
    ensures WellPaired(bucket)
  {
    RolesAddUp(bucket);
    if |bucket| == 2 {
      assert bucket[1..][1..] == [];
    }
  }

  /** The lists derived from the segments: the same contents in the same order, and the same hosts in some order. */
  lemma OrderOfDerivedLists(x: Index, y: Index)
    requires InStep(x) && InStep(y) && multiset(x.segments) == multiset(y.segments)
    ensures x.contentIDs == y.contentIDs
    ensures multiset(x.hostnames) == multiset(y.hostnames)
  {
    forall id
      ensures id in x.contentIDs <==> id in y.contentIDs
    {
      PresentContents(x.segments, id);
      PresentContents(y.segments, id);
      SameBuckets(x.segments, y.segments, Content(id));
    }
    AscendingIsUnique(x.contentIDs, y.contentIDs);
    HostsAreExact(x.segments);
    HostsAreExact(y.segments);
    forall name
      ensures multiset(x.hostnames)[name] == multiset(y.hostnames)[name]
    {
      SameBuckets(x.segments, y.segments, Host(name));
      CountInNoDuplicates(x.hostnames, name);
      CountInNoDuplicates(y.hostnames, name);
      assert name in x.hostnames <==> name in y.hostnames;
    }
  }

  lemma {:induction false} CountInNoDuplicates<T>(s: seq<T>, x: T)
    requires NoDuplicates(s)
    ensures multiset(s)[x] == if x in s then 1 else 0
  {
    if s != [] {
      assert s == [s[0]] + s[1..];
      CountInNoDuplicates(s[1..], x);
    }
  }

  // ---------------------------------------------------------------- Segments changed in place

  lemma {:induction false} SameHosts(a: seq<SegConfig>, b: seq<SegConfig>)
    requires |a| == |b| && forall k | 0 <= k < |a| :: a[k].hostname == b[k].hostname
    ensures HostsOf(a) == HostsOf(b)
  {
    if a != [] {
      var n := |a| - 1;
      SameHosts(a[..n], b[..n]);
      SameKeysSamePositions(a[..n], b[..n], Host(a[n].hostname));
    }
  }

  /** Overwriting segment `i` by `s` keeps content and host, and, if other segments of the content follow it,
      whether it is a mirror. */
  predicate FitsIndex(a: seq<SegConfig>, i: nat, s: SegConfig)
    requires i < |a|
  {
    var ps := PositionsOf(a, Content(a[i].contentID));
    && s.contentID == a[i].contentID && s.hostname == a[i].hostname
    && (|ps| >= 2 && ps[0] == i ==> (s.role == "m" <==> a[i].role == "m"))
  }

  lemma SameReferences(a: seq<SegConfig>, i: nat, s: SegConfig, key: Key)
    requires i < |a| && FitsIndex(a, i, s)
    ensures PositionsOf(a[i := s], key) == PositionsOf(a, key)
    ensures key.Content? ==> ContentRefs(a[i := s], key.id) == ContentRefs(a, key.id)
    ensures key.Content? ==> (key.id in ContentSet(a[i := s]) <==> key.id in ContentSet(a))
  {
    SameKeysSamePositions(a, a[i := s], key);
    if key.Content? {
      PresentContents(a, key.id);
      PresentContents(a[i := s], key.id);
      PositionsAreExact(a, key);
    }
  }

  lemma AllReferencesStay(a: seq<SegConfig>, i: nat, s: SegConfig)
    requires i < |a| && FitsIndex(a, i, s)
    ensures ContentSet(a[i := s]) == ContentSet(a) && HostsOf(a[i := s]) == HostsOf(a)
    ensures forall id :: ContentRefs(a[i := s], id) == ContentRefs(a, id)
    ensures forall name :: HostRefs(a[i := s], name) == HostRefs(a, name)
  {
    var b := a[i := s];
    SameHosts(a, b);
    forall id
      ensures ContentRefs(b, id) == ContentRefs(a, id)
      ensures id in ContentSet(b) <==> id in ContentSet(a)
    {
      SameReferences(a, i, s, Content(id));
    }
    forall name
      ensures HostRefs(b, name) == HostRefs(a, name)
    {
      SameReferences(a, i, s, Host(name));
    }
  }

  lemma FittingStaysInStep(x: Index, b: seq<SegConfig>)
    requires InStep(x) && ContentSet(b) == ContentSet(x.segments) && HostsOf(b) == HostsOf(x.segments)
    requires forall id :: ContentRefs(b, id) == ContentRefs(x.segments, id)
    requires forall name :: HostRefs(b, name) == HostRefs(x.segments, name)
    ensures InStep(x.(segments := b))
  {
  }

  /** In step with two segment lists, an index has the same references for both. */
  lemma SameIndexSameReferences(x: Index, b: seq<SegConfig>, i: nat)
    requires InStep(x) && InStep(x.(segments := b)) && i < |x.segments|
    ensures ContentRefs(b, x.segments[i].contentID) == ContentRefs(x.segments, x.segments[i].contentID)
    ensures HostRefs(b, x.segments[i].hostname) == HostRefs(x.segments, x.segments[i].hostname)
  {
    assert x.segments[i].contentID in ContentSet(x.segments);
  }

  lemma RefsHoldKey(a: seq<SegConfig>, i: nat, id: int, name: string)
    requires i < |a|
    ensures i in ContentRefs(a, id) <==> a[i].contentID == id
    ensures i in HostRefs(a, name) <==> a[i].hostname == name
  {
    PositionsAreExact(a, Content(id));
    PositionsAreExact(a, Host(name));
    var ps := PositionsOf(a, Content(id));
    assert |ps| >= 2 ==> ps == [ps[0], ps[1]] + ps[2..];
  }

  lemma InStepFits(x: Index, i: nat, s: SegConfig)
    requires InStep(x) && i < |x.segments| && InStep(x.(segments := x.segments[i := s]))
    ensures FitsIndex(x.segments, i, s)
  {
    var a, b := x.segments, x.segments[i := s];
    SameIndexSameReferences(x, b, i);
    RefsHoldKey(a, i, a[i].contentID, a[i].hostname);
    RefsHoldKey(b, i, a[i].contentID, a[i].hostname);
    SameKeysSamePositions(a, b, Content(a[i].contentID));
    PositionsAreExact(a, Content(a[i].contentID));
  }

  /** A caller that overwrites a segment in place leaves the whole index in step exactly if content and host
      are kept and, where it is the first of several segments of its content, whether it is a mirror. Then
      every reference stays, and a lookup that led to the segment now gives the new one. */
  lemma ReferencesAreLive(x: Index, i: nat, s: SegConfig)
    requires InStep(x) && i < |x.segments|
    ensures InStep(x.(segments := x.segments[i := s])) <==> FitsIndex(x.segments, i, s)
    ensures FitsIndex(x.segments, i, s) ==>
      forall id, role ::
        Lookup(x.segments[i := s], id, role) ==
          if SegmentByRole(ContentRefs(x.segments, id), role) == Some(i) then Some(s)
          else Lookup(x.segments, id, role)
  {
    if InStep(x.(segments := x.segments[i := s])) {
      InStepFits(x, i, s);
    }
    if FitsIndex(x.segments, i, s) {
      AllReferencesStay(x.segments, i, s);
      FittingStaysInStep(x, x.segments[i := s]);
    }
  }
}
