/** Which struct field a result column is scanned into. */
module FieldMaps {
  import opened Wrappers

  /** What reflection says of one visible field; `container` marks an embedded struct that does not scan as a whole. */
  datatype Field = Field(name: string, tag: string, container: bool, exported: bool, index: seq<nat>)

  /** The column a field claims; `lower` is strings.ToLower. */
  function Column(f: Field, lower: string -> string): string {
    if f.tag == "" then lower(f.name) else f.tag
  }

  predicate IsTarget(f: Field) {
    !f.container && f.exported && f.tag != "-"
  }

  /** An exported field that is no container has the column of its tag, or without a tag that of its lowercased
      name; the tag "-" means none. */
  predicate Names(f: Field, column: string, lower: string -> string) {
    && f.exported && !f.container && f.tag != "-"
    && if f.tag == "" then lower(f.name) == column else f.tag == column
  }

  /** Field `k` is the first of the shallowest fields that claim the column. */
  ghost predicate Wins(fields: seq<Field>, column: string, lower: string -> string, k: nat) {
    && k < |fields| && Names(fields[k], column, lower)
    && forall j | 0 <= j < |fields| && Names(fields[j], column, lower) ::
         |fields[k].index| < |fields[j].index| || (|fields[k].index| == |fields[j].index| && k <= j)
  }

  /** The map has exactly the claimed columns, each with the winner's path. */
  ghost predicate IsFieldMap(fields: seq<Field>, lower: string -> string, m: map<string, seq<nat>>) {
    && (forall column | column in m :: exists k: nat :: Wins(fields, column, lower, k) && m[column] == fields[k].index)
    && (forall k | 0 <= k < |fields| && IsTarget(fields[k]) :: Column(fields[k], lower) in m)
  }

  lemma WinnerIsUnique(fields: seq<Field>, column: string, lower: string -> string, j: nat, k: nat)
    requires Wins(fields, column, lower, j) && Wins(fields, column, lower, k)
    ensures j == k
  {
  }

  lemma EntryIsForced(fields: seq<Field>, lower: string -> string,
                      m: map<string, seq<nat>>, n: map<string, seq<nat>>, column: string)
    requires IsFieldMap(fields, lower, m) && IsFieldMap(fields, lower, n) && column in m
    ensures column in n && m[column] == n[column]
  {
    var k: nat :| Wins(fields, column, lower, k) && m[column] == fields[k].index;
    assert Column(fields[k], lower) in n;
    var j: nat :| Wins(fields, column, lower, j) && n[column] == fields[j].index;
    WinnerIsUnique(fields, column, lower, j, k);
  }

  lemma SameEntries<K, V>(m: map<K, V>, n: map<K, V>)
    requires (forall k | k in m :: k in n && m[k] == n[k]) && forall k | k in n :: k in m
    ensures m == n
  {
  }

  /** The visible fields determine the map. */
  lemma FieldMapIsUnique(fields: seq<Field>, lower: string -> string,
                         m: map<string, seq<nat>>, n: map<string, seq<nat>>)
    requires IsFieldMap(fields, lower, m) && IsFieldMap(fields, lower, n)
    ensures m == n
  {
    forall column | column in m
      ensures column in n && m[column] == n[column]
    {
      EntryIsForced(fields, lower, m, n, column);
    }
    forall column | column in n
      ensures column in m
    {
      EntryIsForced(fields, lower, n, m, column);
    }
    SameEntries(m, n);
  }

  // ---------------------------------------------------------------- The map in terms of tags and names

  /** A column is in the map exactly if a field has it, and leads to the first such field. */
  lemma MapExactly(fields: seq<Field>, lower: string -> string, m: map<string, seq<nat>>, column: string)
    requires IsFieldMap(fields, lower, m)
    ensures column in m <==> exists k :: 0 <= k < |fields| && Names(fields[k], column, lower)
    ensures forall k: nat | Wins(fields, column, lower, k) :: column in m && m[column] == fields[k].index
    ensures column in m ==> exists k: nat :: Wins(fields, column, lower, k) && m[column] == fields[k].index
  {
    forall k | 0 <= k < |fields| && Names(fields[k], column, lower)
      ensures column in m
    {
      assert IsTarget(fields[k]) && Column(fields[k], lower) == column;
    }
    if column in m {
      var j: nat :| Wins(fields, column, lower, j) && m[column] == fields[j].index;
      forall k: nat | Wins(fields, column, lower, k)
        ensures k == j
      {
        WinnerIsUnique(fields, column, lower, j, k);
      }
    }
  }

  /** A tag names the column: the field is found under its tag, unless a field in front of it has that column too,
      and not under its lowercased name, unless another field has that one. */
  lemma TagNamesColumn(fields: seq<Field>, lower: string -> string, m: map<string, seq<nat>>, k: nat)
    requires IsFieldMap(fields, lower, m) && k < |fields|
    requires fields[k].exported && !fields[k].container && fields[k].tag != "" && fields[k].tag != "-"
    ensures fields[k].tag in m
    ensures m[fields[k].tag] != fields[k].index ==> exists j ::
      && 0 <= j < |fields| && j != k && Names(fields[j], fields[k].tag, lower)
      && (|fields[j].index| < |fields[k].index| || (|fields[j].index| == |fields[k].index| && j < k))
    ensures lower(fields[k].name) != fields[k].tag && lower(fields[k].name) in m ==> exists j ::
      0 <= j < |fields| && j != k && Names(fields[j], lower(fields[k].name), lower)
  {
    MapExactly(fields, lower, m, fields[k].tag);
    MapExactly(fields, lower, m, lower(fields[k].name));
    assert Names(fields[k], fields[k].tag, lower);
  }

  /** Fields tagged "-", unexported fields and containers are not in the map, whatever their names. */
  lemma OthersNameNothing(fields: seq<Field>, lower: string -> string, m: map<string, seq<nat>>, column: string, k: nat)
    requires IsFieldMap(fields, lower, m) && column in m && k < |fields| && m[column] == fields[k].index
    requires forall i, j | 0 <= i < j < |fields| :: fields[i].index != fields[j].index
    ensures fields[k].exported && !fields[k].container && fields[k].tag != "-"
  {
    MapExactly(fields, lower, m, column);
  }

  // ---------------------------------------------------------------- Building the map

  lemma WinsWithOneMore(fields: seq<Field>, f: Field, column: string, lower: string -> string, k: nat)
    requires Wins(fields, column, lower, k)
    ensures Names(f, column, lower) && |f.index| < |fields[k].index| ==> Wins(fields + [f], column, lower, |fields|)
    ensures !(Names(f, column, lower) && |f.index| < |fields[k].index|) ==> Wins(fields + [f], column, lower, k)
  {
    assert forall j | 0 <= j < |fields| :: (fields + [f])[j] == fields[j];
  }

  /** The loop body: one more visible field. */
  function WithField(m: map<string, seq<nat>>, f: Field, lower: string -> string): map<string, seq<nat>> {
    if !IsTarget(f) then m
    else
      var name := Column(f, lower);
      if name !in m || |f.index| < |m[name]| then m[name := f.index] else m
  }

  lemma FirstOfAll(fields: seq<Field>, f: Field, column: string, lower: string -> string)
    requires Names(f, column, lower) && forall j | 0 <= j < |fields| :: !Names(fields[j], column, lower)
    ensures Wins(fields + [f], column, lower, |fields|)
  {
    var all := fields + [f];
    assert all[|fields|] == f;
    assert forall j | 0 <= j < |fields| :: all[j] == fields[j];
  }

  lemma OneMoreWinner(fields: seq<Field>, f: Field, lower: string -> string, m: map<string, seq<nat>>, column: string)
    requires IsFieldMap(fields, lower, m) && column in WithField(m, f, lower)
    ensures exists k: nat ::
      Wins(fields + [f], column, lower, k) && WithField(m, f, lower)[column] == (fields + [f])[k].index
  {
    if column in m {
      var k: nat :| Wins(fields, column, lower, k) && m[column] == fields[k].index;
      WinsWithOneMore(fields, f, column, lower, k);
      assert (fields + [f])[k] == fields[k];
    } else {
      FirstOfAll(fields, f, column, lower);
    }
    assert (fields + [f])[|fields|] == f;
  }

  lemma OneMoreField(fields: seq<Field>, f: Field, lower: string -> string, m: map<string, seq<nat>>)
    requires IsFieldMap(fields, lower, m)
    ensures IsFieldMap(fields + [f], lower, WithField(m, f, lower))
  {
    var all, after := fields + [f], WithField(m, f, lower);
    forall column | column in after
      ensures exists k: nat :: Wins(all, column, lower, k) && after[column] == all[k].index
    {
      OneMoreWinner(fields, f, lower, m, column);
    }
    forall k | 0 <= k < |all| && IsTarget(all[k])
      ensures Column(all[k], lower) in after
    {
      assert if k < |fields| then all[k] == fields[k] else all[k] == f;
    }
  }

  method BuildFieldMap(fields: seq<Field>, lower: string -> string) returns (m: map<string, seq<nat>>)
    ensures IsFieldMap(fields, lower, m)
  {
    m := map[];
    for i := 0 to |fields|
      invariant IsFieldMap(fields[..i], lower, m)
    {
      var f := fields[i];
      assert fields[..i + 1] == fields[..i] + [f];
      OneMoreField(fields[..i], f, lower, m);
      if f.container {
        continue;
      }
      if !f.exported {
        continue;
      }
      if f.tag == "-" {
        continue;
      }
      var name := if f.tag == "" then lower(f.name) else f.tag;
      if name !in m || |f.index| < |m[name]| {
        m := m[name := f.index];
      }
    }
    assert fields[..|fields|] == fields;
  }

  /** The path of a column: by its own name, else by its lowercased name. */
  function PathOf(m: map<string, seq<nat>>, column: string, lower: string -> string): Option<seq<nat>> {
    if column in m then Some(m[column])
    else if lower(column) in m then Some(m[lower(column)])
    else None
  }

  /** One path per column, or the first column without a field. */
  ghost predicate Resolved(m: map<string, seq<nat>>, columns: seq<string>, lower: string -> string,
                           r: Result<seq<seq<nat>>, nat>)
  {
    match r
    case Ok(paths) =>
      |paths| == |columns| && forall i | 0 <= i < |columns| :: PathOf(m, columns[i], lower) == Some(paths[i])
    case Err(k) =>
      && k < |columns| && PathOf(m, columns[k], lower).None?
      && forall j | 0 <= j < k :: PathOf(m, columns[j], lower).Some?
  }

  /** The column's field, by its own name if a field has that, else by its lowercased name. */
  ghost predicate LeadsTo(fields: seq<Field>, column: string, lower: string -> string, k: nat) {
    || Wins(fields, column, lower, k)
    || (Wins(fields, lower(column), lower, k)
        && forall j | 0 <= j < |fields| :: !Names(fields[j], column, lower))
  }

  ghost predicate IsPathOf(fields: seq<Field>, column: string, lower: string -> string, path: seq<nat>) {
    exists k: nat :: LeadsTo(fields, column, lower, k) && path == fields[k].index
  }

  /** No field has the column by its own or its lowercased name. */
  ghost predicate LeadsNowhere(fields: seq<Field>, column: string, lower: string -> string) {
    forall j | 0 <= j < |fields| ::
      !Names(fields[j], column, lower) && !Names(fields[j], lower(column), lower)
  }

  lemma PathExactly(fields: seq<Field>, lower: string -> string, m: map<string, seq<nat>>, column: string)
    requires IsFieldMap(fields, lower, m)
    ensures PathOf(m, column, lower).Some? ==> IsPathOf(fields, column, lower, PathOf(m, column, lower).value)
    ensures PathOf(m, column, lower).None? <==> LeadsNowhere(fields, column, lower)
  {
    MapExactly(fields, lower, m, column);
    MapExactly(fields, lower, m, lower(column));
  }

  /** Resolved columns have the paths of their fields; otherwise the first column that leads nowhere is named. */
  lemma ColumnsResolveExactly(fields: seq<Field>, lower: string -> string, m: map<string, seq<nat>>,
                              columns: seq<string>, r: Result<seq<seq<nat>>, nat>)
    requires IsFieldMap(fields, lower, m) && Resolved(m, columns, lower, r)
    ensures r.Ok? ==>
      && |r.value| == |columns|
      && forall i | 0 <= i < |columns| :: IsPathOf(fields, columns[i], lower, r.value[i])
    ensures r.Err? ==>
      && r.error < |columns| && LeadsNowhere(fields, columns[r.error], lower)
      && forall i | 0 <= i < r.error :: !LeadsNowhere(fields, columns[i], lower)
  {
    match r
    case Ok(paths) =>
      forall i | 0 <= i < |columns|
        ensures IsPathOf(fields, columns[i], lower, paths[i])
      {
        PathExactly(fields, lower, m, columns[i]);
        assert PathOf(m, columns[i], lower) == Some(paths[i]);
      }
    case Err(n) =>
      PathExactly(fields, lower, m, columns[n]);
      forall i | 0 <= i < n
        ensures !LeadsNowhere(fields, columns[i], lower)
      {
        PathExactly(fields, lower, m, columns[i]);
        assert PathOf(m, columns[i], lower).Some?;
      }
  }

  method ColumnPaths(columns: seq<string>, fields: seq<Field>, lower: string -> string)
    returns (r: Result<seq<seq<nat>>, nat>)
    ensures forall m | IsFieldMap(fields, lower, m) :: Resolved(m, columns, lower, r)
  {
    var fieldMap := BuildFieldMap(fields, lower);
    forall m | IsFieldMap(fields, lower, m)
      ensures m == fieldMap
    {
      FieldMapIsUnique(fields, lower, m, fieldMap);
    }
    var paths: seq<seq<nat>> := [];
    for i := 0 to |columns|
      invariant |paths| == i
      invariant forall j | 0 <= j < i :: PathOf(fieldMap, columns[j], lower) == Some(paths[j])
    {
      var path := PathOf(fieldMap, columns[i], lower);
      if path.None? {
        return Err(i);
      }
      paths := paths + [path.value];
    }
    return Ok(paths);
  }
}
