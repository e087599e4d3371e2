/** Where the values of a scanned row end up, and which columns can be scanned at all. */
module RowTheorems {
  import opened Wrappers
  import opened RowMemory
  import opened RowValues
  import opened RowScan
  import FieldMaps

  // ---------------------------------------------------------------- Columns in each other's way

  predicate PointerAt(t: Type, path: seq<nat>) {
    var f := FieldAlong(t, path);
    f.Some? && f.value.typ.Pointer?
  }

  /** The field of `q` is that of `p` or part of it, and scanning `p` can change what `q` reads: it has content,
      or is reached through a pointer of `p`'s field. */
  ghost predicate Contested(t: Type, p: seq<nat>, q: seq<nat>)
    requires FieldAlong(t, q).Some?
  {
    p <= q && (Varies(FieldAlong(t, q).value.typ) || exists k :: |p| <= k < |q| && PointerAt(t, q[..k]))
  }

  /** Two of the first `n` columns are in each other's way. */
  ghost predicate AnyContested(t: Type, paths: seq<seq<nat>>, n: nat)
    requires PathsExist(t, paths) && n <= |paths|
  {
    exists i, j :: 0 <= i < n && 0 <= j < n && i != j && Contested(t, paths[i], paths[j])
  }

  /** The value is found at the end of its path. */
  ghost predicate Arrives(m: Mem, root: nat, t: Type, path: seq<nat>, d: Datum) {
    var v := Locate(m.pointers, root, t, path);
    v.Some? && Read(m, v.value.addr, v.value.typ) == d
  }

  ghost predicate AllArrive(m: Mem, root: nat, t: Type, paths: seq<seq<nat>>, values: seq<Datum>)
    requires |values| <= |paths|
  {
    forall i | 0 <= i < |values| :: Arrives(m, root, t, paths[i], values[i])
  }

  // ---------------------------------------------------------------- Columns that are not

  lemma ArgsLie(ready: Mem, root: nat, t: Type, paths: seq<seq<nat>>, args: seq<Addr>)
    requires RowReady(ready, root, t, paths, args)
    ensures forall k | 0 <= k < |args| :: args[k].block < |ready.blocks|
  {
    forall k: nat | k < |args|
      ensures args[k].block < |ready.blocks|
    {
      ReachedLies(ready, root, t, paths, args, k);
    }
  }

  lemma NestedArgs(ready: Mem, root: nat, t: Type, paths: seq<seq<nat>>, args: seq<Addr>, i: nat, j: nat)
    requires RowReady(ready, root, t, paths, args) && i < |args| && j < |args| && Under(args[i], args[j])
    ensures paths[j] <= paths[i]
  {
    NestedCellsHaveNestedPaths(ready.pointers, root, t, paths[i], paths[j]);
  }

  /** No column is stored in a pointer that another looks through. */
  lemma PointerIsUntouched(ready: Mem, root: nat, t: Type, paths: seq<seq<nat>>, args: seq<Addr>,
                           n: nat, i: nat, k: nat)
    requires RowReady(ready, root, t, paths, args) && PathsExist(t, paths)
    requires n <= |paths| && !AnyContested(t, paths, n) && i < n && 0 < k < |paths[i]|
    requires Locate(ready.pointers, root, t, paths[i][..k]).Some?
    requires Locate(ready.pointers, root, t, paths[i][..k]).value.typ.Pointer?
    ensures Untouched(args, ColumnTypes(t, paths), 0, n, Locate(ready.pointers, root, t, paths[i][..k]).value.addr)
  {
    var v := Locate(ready.pointers, root, t, paths[i][..k]).value;
    LocateHasType(ready.pointers, root, t, paths[i][..k]);
    assert PointerAt(t, paths[i][..k]);
    forall j | 0 <= j < n
      ensures !Under(v.addr, args[j])
    {
      if Under(v.addr, args[j]) {
        NestedCellsHaveNestedPaths(ready.pointers, root, t, paths[i][..k], paths[j]);
        assert Contested(t, paths[j], paths[i]);
      }
    }
  }

  lemma PathStays(ready: Mem, root: nat, t: Type, paths: seq<seq<nat>>, args: seq<Addr>, values: seq<Datum>, i: nat)
    requires RowReady(ready, root, t, paths, args) && PathsExist(t, paths)
    requires Fitting(ColumnTypes(t, paths), values) && !AnyContested(t, paths, |values|) && i < |values|
    ensures var after := StoreAll(ready, args, ColumnTypes(t, paths), values);
      Locate(after.pointers, root, t, paths[i]) == Locate(ready.pointers, root, t, paths[i])
  {
    var types := ColumnTypes(t, paths);
    var after := StoreAll(ready, args, types, values);
    ArgsLie(ready, root, t, paths, args);
    LaterColumns(ready, args, types, values, 0);
    assert values[..0] == [];
    forall k | 0 < k < |paths[i]|
      ensures Undisturbed(ready.pointers, after.pointers, Locate(ready.pointers, root, t, paths[i][..k]))
    {
      LocatePrefix(ready.pointers, root, t, paths[i], k);
      LocateIsPlaced(ready, root, t, paths[i][..k]);
      var v := Locate(ready.pointers, root, t, paths[i][..k]).value;
      if v.typ.Pointer? {
        PointerIsUntouched(ready, root, t, paths, args, |values|, i, k);
        assert SameAt(ready, after, v.addr);
      }
    }
    LocateUndisturbed(ready.pointers, after.pointers, root, t, paths[i]);
  }

  /** Two columns with content that overlap in memory are in each other's way. */
  lemma OverlapIsContested(ready: Mem, root: nat, t: Type, paths: seq<seq<nat>>, args: seq<Addr>,
                           n: nat, i: nat, k: nat, b: Addr)
    requires RowReady(ready, root, t, paths, args) && PathsExist(t, paths) && n <= |paths|
    requires i < n && k < n && i != k && Varies(ColumnTypes(t, paths)[i]) && Varies(ColumnTypes(t, paths)[k])
    requires Under(b, args[i]) && Under(b, args[k])
    ensures AnyContested(t, paths, n)
  {
    if |args[i].path| <= |args[k].path| {
      assert args[i].path == args[k].path[..|args[i].path|];
      NestedArgs(ready, root, t, paths, args, k, i);
      assert Contested(t, paths[i], paths[k]);
    } else {
      assert args[k].path == args[i].path[..|args[k].path|];
      NestedArgs(ready, root, t, paths, args, i, k);
      assert Contested(t, paths[k], paths[i]);
    }
  }

  /** No later column is stored inside or around a column that has content. */
  lemma LaterStayOut(ready: Mem, root: nat, t: Type, paths: seq<seq<nat>>, args: seq<Addr>, n: nat, i: nat, b: Addr)
    requires RowReady(ready, root, t, paths, args) && PathsExist(t, paths) && n <= |paths|
    requires !AnyContested(t, paths, n) && i < n && Varies(ColumnTypes(t, paths)[i]) && Under(b, args[i])
    ensures Untouched(args, ColumnTypes(t, paths), i + 1, n, b)
  {
    forall k | i + 1 <= k < n && Varies(ColumnTypes(t, paths)[k])
      ensures !Under(b, args[k])
    {
      if Under(b, args[k]) {
        OverlapIsContested(ready, root, t, paths, args, n, i, k, b);
      }
    }
  }

  lemma ContentStays(ready: Mem, root: nat, t: Type, paths: seq<seq<nat>>, args: seq<Addr>,
                     values: seq<Datum>, i: nat)
    requires RowReady(ready, root, t, paths, args) && PathsExist(t, paths)
    requires Fitting(ColumnTypes(t, paths), values) && !AnyContested(t, paths, |values|) && i < |values|
    requires Varies(ColumnTypes(t, paths)[i])
    ensures var types := ColumnTypes(t, paths);
      Read(StoreAll(ready, args, types, values), args[i], types[i]) == values[i]
  {
    var types := ColumnTypes(t, paths);
    var mid, next := StoreAll(ready, args, types, values[..i]), StoreAll(ready, args, types, values[..i + 1]);
    var after := StoreAll(ready, args, types, values);
    ArgsLie(ready, root, t, paths, args);
    assert values[..i + 1][..i] == values[..i];
    LaterColumns(ready, args, types, values[..i + 1], i);
    LaterColumns(ready, args, types, values, i + 1);
    forall b: Addr | Under(b, args[i]) || |mid.blocks| <= b.block < |next.blocks|
      ensures SameAt(next, after, b)
    {
      if Under(b, args[i]) {
        LaterStayOut(ready, root, t, paths, args, |values|, i, b);
      }
      assert Untouched(args, types, i + 1, |values|, b);
    }
    StoredReadsBack(mid, args[i], types[i], values[i], after);
  }

  /** A row whose columns are not in each other's way: every value is found at the end of its path, and the
      cells outside the columns are as they were. */
  lemma RowArrives(ready: Mem, root: nat, t: Type, paths: seq<seq<nat>>, args: seq<Addr>, values: seq<Datum>)
    requires RowReady(ready, root, t, paths, args) && PathsExist(t, paths)
    requires Fitting(ColumnTypes(t, paths), values) && !AnyContested(t, paths, |values|)
    ensures var after := StoreAll(ready, args, ColumnTypes(t, paths), values);
      && AllArrive(after, root, t, paths, values)
      && forall b: Addr | b.block < |ready.blocks| && (forall i | 0 <= i < |values| :: !Under(b, args[i])) ::
           SameAt(ready, after, b)
  {
    var types := ColumnTypes(t, paths);
    var after := StoreAll(ready, args, types, values);
    forall i: nat | i < |values|
      ensures Arrives(after, root, t, paths[i], values[i])
    {
      PathStays(ready, root, t, paths, args, values, i);
      LocateHasType(ready.pointers, root, t, paths[i]);
      if Varies(types[i]) {
        ContentStays(ready, root, t, paths, args, values, i);
      } else {
        OnlyValue(types[i], values[i]);
        OnlyValue(types[i], Read(after, args[i], types[i]));
      }
    }
    ArgsLie(ready, root, t, paths, args);
    LaterColumns(ready, args, types, values, 0);
    assert values[..0] == [];
    forall b: Addr | b.block < |ready.blocks| && (forall i | 0 <= i < |values| :: !Under(b, args[i]))
      ensures SameAt(ready, after, b)
    {
      assert Untouched(args, types, 0, |values|, b);
    }
  }

  // ---------------------------------------------------------------- Columns that are

  /** Below a field that reads zero there is no pointer to look through, and every field reads zero. */
  lemma {:induction false} ZeroBelow(m: Mem, root: nat, t: Type, p: seq<nat>, q: seq<nat>)
    requires p <= q && Locate(m.pointers, root, t, q).Some?
    requires FieldAlong(t, p).Some? && Arrives(m, root, t, p, Zero(FieldAlong(t, p).value.typ))
    ensures FieldAlong(t, q).Some? && Arrives(m, root, t, q, Zero(FieldAlong(t, q).value.typ))
    ensures forall k | |p| <= k < |q| :: !PointerAt(t, q[..k])
    decreases |q|
  {
    LocateHasType(m.pointers, root, t, q);
    if p != q {
      var front := q[..|q| - 1];
      assert p <= front;
      LocateHasType(m.pointers, root, t, front);
      ZeroBelow(m, root, t, p, front);
      var v := Locate(m.pointers, root, t, front).value;
      assert v.typ.Struct?;
      assert Read(m, v.addr, v.typ).parts[q[|q| - 1]] == Zero(v.typ).parts[q[|q| - 1]];
      forall k | |p| <= k < |q|
        ensures !PointerAt(t, q[..k])
      {
        assert k < |front| ==> front[..k] == q[..k];
      }
    } else {
      LocateHasType(m.pointers, root, t, p);
    }
  }

  /** Zeros everywhere, except at column `j` if its field has content. */
  lemma TellingValues(types: seq<Type>, n: nat, j: nat) returns (values: seq<Datum>)
    requires j < n <= |types|
    ensures |values| == n && Fitting(types, values)
    ensures forall i | 0 <= i < n && i != j :: values[i] == Zero(types[i])
    ensures Varies(types[j]) ==> values[j] != Zero(types[j])
  {
    values := seq(n, i requires 0 <= i < n => Zero(types[i]));
    if Varies(types[j]) {
      var other := OtherValue(types[j]);
      values := values[j := other];
    }
  }

  /** With two columns in each other's way there are values that do not all arrive, in whatever order the
      columns are and whatever memory they are stored in. */
  lemma ContestedIsLost(t: Type, paths: seq<seq<nat>>, n: nat) returns (values: seq<Datum>)
    requires PathsExist(t, paths) && n <= |paths| && AnyContested(t, paths, n)
    ensures |values| == n && Fitting(ColumnTypes(t, paths), values)
    ensures forall m, root :: !AllArrive(m, root, t, paths, values)
  {
    var types := ColumnTypes(t, paths);
    var i, j :| 0 <= i < n && 0 <= j < n && i != j && Contested(t, paths[i], paths[j]);
    values := TellingValues(types, n, j);
    forall m, root
      ensures !AllArrive(m, root, t, paths, values)
    {
      if AllArrive(m, root, t, paths, values) {
        assert Arrives(m, root, t, paths[i], values[i]) && Arrives(m, root, t, paths[j], values[j]);
        ZeroBelow(m, root, t, paths[i], paths[j]);
        assert false;
      }
    }
  }

  /** Whatever values the driver assigns to the first `n` columns of a row, they are all found at the end of
      their paths, exactly if no two of these columns are in each other's way; when all fields have content,
      exactly if no path is a prefix of another's. */
  lemma ColumnsArriveIff(ready: Mem, root: nat, t: Type, paths: seq<seq<nat>>, args: seq<Addr>, n: nat)
    requires RowReady(ready, root, t, paths, args) && PathsExist(t, paths) && n <= |paths|
    ensures var types := ColumnTypes(t, paths);
      var arrive := forall values | |values| == n && Fitting(types, values) ::
        AllArrive(StoreAll(ready, args, types, values), root, t, paths, values);
      && (arrive <==> !AnyContested(t, paths, n))
      && ((forall i | 0 <= i < n :: Varies(types[i])) ==>
            (arrive <==> forall i, j | 0 <= i < n && 0 <= j < n && i != j :: !(paths[i] <= paths[j])))
  {
    var types := ColumnTypes(t, paths);
    if AnyContested(t, paths, n) {
      var lost := ContestedIsLost(t, paths, n);
      assert Fitting(types, lost) && !AllArrive(StoreAll(ready, args, types, lost), root, t, paths, lost);
    } else {
      forall values | |values| == n && Fitting(types, values)
        ensures AllArrive(StoreAll(ready, args, types, values), root, t, paths, values)
      {
        RowArrives(ready, root, t, paths, args, values);
      }
    }
    ContestedIsPrefix(t, paths, n);
  }

  lemma ContestedIsPrefix(t: Type, paths: seq<seq<nat>>, n: nat)
    requires PathsExist(t, paths) && n <= |paths|
    ensures (forall i | 0 <= i < n :: Varies(ColumnTypes(t, paths)[i])) ==>
      (AnyContested(t, paths, n) <==> exists i, j :: 0 <= i < n && 0 <= j < n && i != j && paths[i] <= paths[j])
  {
    if (forall i | 0 <= i < n :: Varies(ColumnTypes(t, paths)[i])) {
      forall i, j | 0 <= i < n && 0 <= j < n && i != j
        ensures Contested(t, paths[i], paths[j]) <==> paths[i] <= paths[j]
      {
        assert Varies(ColumnTypes(t, paths)[j]);
      }
    }
  }

  // ---------------------------------------------------------------- Columns as the field map resolves them

  /** The visible fields are described as the type has them. */
  ghost predicate Describe(fields: seq<FieldMaps.Field>, t: Type) {
    forall k | 0 <= k < |fields| ::
      && FieldAlong(t, fields[k].index).Some?
      && FieldAlong(t, fields[k].index).value.exported == fields[k].exported
  }

  /** The paths of resolved columns exist and end in exported fields, so that the walk along them can only
      panic on a nil pointer in an unexported field on the way. */
  lemma ResolvedPathsExist(fields: seq<FieldMaps.Field>, t: Type, lower: string -> string,
                           m: map<string, seq<nat>>, columns: seq<string>, paths: seq<seq<nat>>)
    requires Describe(fields, t) && FieldMaps.IsFieldMap(fields, lower, m)
    requires FieldMaps.Resolved(m, columns, lower, Ok(paths))
    ensures PathsExist(t, paths)
    ensures forall i, pointers, root | 0 <= i < |paths| ::
      Blocked(pointers, root, t, paths[i]) <==> Panics(pointers, root, t, paths[i])
  {
    forall i | 0 <= i < |paths|
      ensures FieldAlong(t, paths[i]).Some? && FieldAlong(t, paths[i]).value.exported
    {
      assert FieldMaps.PathOf(m, columns[i], lower) == Some(paths[i]);
      var column := if columns[i] in m then columns[i] else lower(columns[i]);
      var k: nat :| FieldMaps.Wins(fields, column, lower, k) && m[column] == fields[k].index;
      assert FieldMaps.IsTarget(fields[k]);
    }
  }

  lemma {:induction false} StaysInRoot(pointers: Pointers, root: nat, t: Type, path: seq<nat>)
    requires (forall a | a in pointers :: a.block != root) && Locate(pointers, root, t, path).Some?
    ensures Locate(pointers, root, t, path).value.addr.block == root
    decreases |path|
  {
    if path != [] {
      StaysInRoot(pointers, root, t, path[..|path| - 1]);
    }
  }

  /** In a new row's struct, the walk panics exactly if any pointer on the way sits in an unexported field. */
  lemma NewRowPanicsIff(pointers: Pointers, root: nat, t: Type, path: seq<nat>)
    requires forall a | a in pointers :: a.block != root
    ensures Panics(pointers, root, t, path) <==> exists k ::
      && 0 < k < |path| && FieldAlong(t, path[..k]).Some?
      && !FieldAlong(t, path[..k]).value.exported && FieldAlong(t, path[..k]).value.typ.Pointer?
  {
    if k :| 0 < k < |path| && UnexportedPointer(t, path[..k]) {
      var upTo := path[..k + 1];
      if Locate(pointers, root, t, upTo).Some? {
        assert upTo[..k] == path[..k];
        LocatePrefix(pointers, root, t, upTo, k);
        LocateHasType(pointers, root, t, path[..k]);
        StaysInRoot(pointers, root, t, path[..k]);
      }
    }
  }

  // ---------------------------------------------------------------- An embedded scanner and one of its fields

  /** A struct that embeds sql.NullString and sql.NullInt64. */
  const TWO_SCANNERS := Struct([Field(true, NULLABLE), Field(true, NULLABLE)])

  const NULLABLE := Struct([Field(true, Scalar), Field(true, Scalar)])

  /** Its visible fields; the two fields named Valid hide each other. */
  const SCANNER_FIELDS := [
    FieldMaps.Field("NullString", "", false, true, [0]),
    FieldMaps.Field("String", "", false, true, [0, 0]),
    FieldMaps.Field("NullInt64", "", false, true, [1]),
    FieldMaps.Field("Int64", "", false, true, [1, 0])]

  lemma ScannerPaths()
    ensures FieldAlong(TWO_SCANNERS, [0]) == FieldAlong(TWO_SCANNERS, [1]) == Some(Field(true, NULLABLE))
    ensures FieldAlong(TWO_SCANNERS, [0, 0]) == FieldAlong(TWO_SCANNERS, [1, 0]) == Some(Field(true, Scalar))
    ensures Describe(SCANNER_FIELDS, TWO_SCANNERS)
  {
    assert [0][..0] == [] && [1][..0] == [];
    assert FieldAlong(TWO_SCANNERS, []) == Some(Field(true, TWO_SCANNERS));
    assert [0, 0][..1] == [0] && [1, 0][..1] == [1];
  }

  lemma OnlyClaimant(fields: seq<FieldMaps.Field>, column: string, lower: string -> string,
                     m: map<string, seq<nat>>, k: nat)
    requires FieldMaps.IsFieldMap(fields, lower, m) && k < |fields| && FieldMaps.Names(fields[k], column, lower)
    requires forall j | 0 <= j < |fields| && j != k :: !FieldMaps.Names(fields[j], column, lower)
    ensures FieldMaps.PathOf(m, column, lower) == Some(fields[k].index)
  {
    assert FieldMaps.Column(fields[k], lower) in m;
    var j: nat :| FieldMaps.Wins(fields, column, lower, j) && m[column] == fields[j].index;
  }

  lemma ScannerClaims(lower: string -> string, k: nat)
    requires lower("NullString") == "nullstring" && lower("String") == "string"
    requires lower("NullInt64") == "nullint64" && lower("Int64") == "int64"
    requires k < 4
    ensures FieldMaps.Names(SCANNER_FIELDS[k], "nullstring", lower) <==> k == 0
    ensures FieldMaps.Names(SCANNER_FIELDS[k], "string", lower) <==> k == 1
  {
    var column := FieldMaps.Column(SCANNER_FIELDS[k], lower);
    assert |column| == if k == 0 then 10 else if k == 1 then 6 else if k == 2 then 9 else 5;
  }

  /** Both the scanner and its field are mapped. */
  lemma ScannerAndFieldAreMapped(lower: string -> string, m: map<string, seq<nat>>)
    requires lower("NullString") == "nullstring" && lower("String") == "string"
    requires lower("NullInt64") == "nullint64" && lower("Int64") == "int64"
    requires FieldMaps.IsFieldMap(SCANNER_FIELDS, lower, m)
    ensures FieldMaps.PathOf(m, "nullstring", lower) == Some([0])
    ensures FieldMaps.PathOf(m, "string", lower) == Some([0, 0])
  {
    forall k: nat | k < 4
      ensures FieldMaps.Names(SCANNER_FIELDS[k], "nullstring", lower) <==> k == 0
      ensures FieldMaps.Names(SCANNER_FIELDS[k], "string", lower) <==> k == 1
    {
      ScannerClaims(lower, k);
    }
    OnlyClaimant(SCANNER_FIELDS, "nullstring", lower, m, 0);
    OnlyClaimant(SCANNER_FIELDS, "string", lower, m, 1);
  }

  /** They are in each other's way: some values do not arrive. */
  lemma ScannerOrFieldIsLost(ready: Mem, root: nat, args: seq<Addr>)
    requires RowReady(ready, root, TWO_SCANNERS, [[0], [0, 0]], args)
    ensures PathsExist(TWO_SCANNERS, [[0], [0, 0]])
    ensures var types := ColumnTypes(TWO_SCANNERS, [[0], [0, 0]]);
      exists values :: |values| == 2 && Fitting(types, values)
        && !AllArrive(StoreAll(ready, args, types, values), root, TWO_SCANNERS, [[0], [0, 0]], values)
  {
    ScannerPaths();
    var paths := [[0], [0, 0]];
    assert paths[0] <= paths[1] && Contested(TWO_SCANNERS, paths[0], paths[1]);
    ColumnsArriveIff(ready, root, TWO_SCANNERS, paths, args, 2);
  }
}
