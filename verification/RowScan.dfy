/** Scanning a row into a struct: field addresses along index paths, with nil embedded pointers allocated. */
module RowScan {
  import opened Wrappers
  import opened RowMemory
  import opened RowValues

  // ---------------------------------------------------------------- Memory while field addresses are collected

  /** `b` is an exported pointer field passed on the way along one of the paths, and leads to a `typ`. */
  ghost predicate OnTheWay(pointers: Pointers, root: nat, t: Type, paths: seq<seq<nat>>, b: Addr, typ: Type) {
    exists i, k :: 0 <= i < |paths| && 0 < k < |paths[i]|
      && Locate(pointers, root, t, paths[i][..k]) == Some(Loc(b, true, Pointer(typ)))
  }

  /** From `m` to `n` only nil exported pointers on the way along the paths were set, each to a new allocation
      of its own of the pointer's element type. */
  ghost predicate Grown(m: Mem, n: Mem, root: nat, t: Type, paths: seq<seq<nat>>) {
    && Sound(n)
    && n.cells == m.cells
    && Keeps(m.pointers, n.pointers)
    && m.blocks <= n.blocks
    && |n.pointers| - |m.pointers| == |n.blocks| - |m.blocks|
    && NewLeadToNew(m, n)
    && (forall b | b in n.pointers && b !in m.pointers ::
          OnTheWay(n.pointers, root, t, paths, b, n.blocks[n.pointers[b]]))
  }

  /** Pointers set since lead to allocations made since, each to one of its own. */
  ghost predicate NewLeadToNew(m: Mem, n: Mem) {
    && (forall b | b in n.pointers && b !in m.pointers :: |m.blocks| <= n.pointers[b])
    && (forall a, b | a in n.pointers && b in n.pointers && a !in m.pointers && b !in m.pointers && a != b ::
          n.pointers[a] != n.pointers[b])
  }

  lemma OnTheWayStays(p: Pointers, q: Pointers, root: nat, t: Type,
                      paths: seq<seq<nat>>, more: seq<seq<nat>>, b: Addr, typ: Type)
    requires Keeps(p, q) && OnTheWay(p, root, t, paths, b, typ)
    requires forall i | 0 <= i < |paths| :: paths[i] in more
    ensures OnTheWay(q, root, t, more, b, typ)
  {
    var i, k :| 0 <= i < |paths| && 0 < k < |paths[i]|
             && Locate(p, root, t, paths[i][..k]) == Some(Loc(b, true, Pointer(typ)));
    LocateIsStable(p, q, root, t, paths[i][..k]);
    var j :| 0 <= j < |more| && more[j] == paths[i];
  }

  /** Growing twice is growing. */
  lemma GrownTwice(m: Mem, n: Mem, o: Mem, root: nat, t: Type,
                   first: seq<seq<nat>>, second: seq<seq<nat>>, all: seq<seq<nat>>)
    requires Sound(m) && Grown(m, n, root, t, first) && Grown(n, o, root, t, second)
    requires forall i | 0 <= i < |first| :: first[i] in all
    requires forall i | 0 <= i < |second| :: second[i] in all
    ensures Grown(m, o, root, t, all)
  {
    forall b | b in o.pointers && b !in m.pointers
      ensures OnTheWay(o.pointers, root, t, all, b, o.blocks[o.pointers[b]])
    {
      if b in n.pointers {
        OnTheWayStays(n.pointers, o.pointers, root, t, first, all, b, n.blocks[n.pointers[b]]);
      } else {
        OnTheWayStays(o.pointers, o.pointers, root, t, second, all, b, o.blocks[o.pointers[b]]);
      }
    }
  }

  lemma SetPointerSound(m: Mem, n: Mem, b: Addr, typ: Type)
    requires Sound(m) && LiesAt(m, b, Pointer(typ))
    requires n == Mem(m.blocks + [typ], m.pointers[b := |m.blocks|], m.cells)
    ensures Sound(n)
  {
    forall a | a in n.pointers
      ensures n.pointers[a] < |n.blocks| && LiesAt(n, a, Pointer(n.blocks[n.pointers[a]]))
    {
      assert a != b ==> LiesAt(m, a, Pointer(m.blocks[m.pointers[a]]));
    }
  }

  /** Setting one nil pointer on the way. */
  lemma GrownOnce(m: Mem, n: Mem, root: nat, t: Type, path: seq<nat>, k: nat, b: Addr, typ: Type)
    requires RowAt(m, root, t) && b !in m.pointers && 0 < k < |path|
    requires Locate(m.pointers, root, t, path[..k]) == Some(Loc(b, true, Pointer(typ)))
    requires n == Mem(m.blocks + [typ], m.pointers[b := |m.blocks|], m.cells)
    ensures Grown(m, n, root, t, [path])
  {
    LocateIsPlaced(m, root, t, path[..k]);
    SetPointerSound(m, n, b, typ);
    LocateIsStable(m.pointers, n.pointers, root, t, path[..k]);
    assert [path][0] == path;
    assert OnTheWay(n.pointers, root, t, [path], b, typ);
  }

  // ---------------------------------------------------------------- When the walk panics

  /** The path picks a pointer held in an unexported field. */
  predicate UnexportedPointer(t: Type, path: seq<nat>) {
    var f := FieldAlong(t, path);
    f.Some? && !f.value.exported && f.value.typ.Pointer?
  }

  /** A nil pointer on the way sits in an unexported field, which reflection does not allow to be set. */
  ghost predicate Panics(pointers: Pointers, root: nat, t: Type, path: seq<nat>) {
    exists k :: 0 < k < |path|
      && UnexportedPointer(t, path[..k]) && Locate(pointers, root, t, path[..k + 1]).None?
  }

  /** No argument can be had for the path: the walk panics, or the field at its end is unexported. */
  ghost predicate Blocked(pointers: Pointers, root: nat, t: Type, path: seq<nat>)
    requires FieldAlong(t, path).Some?
  {
    Panics(pointers, root, t, path) || !FieldAlong(t, path).value.exported
  }

  /** One of the first `n` paths is blocked. */
  ghost predicate AnyBlocked(pointers: Pointers, root: nat, t: Type, paths: seq<seq<nat>>, n: nat)
    requires n <= |paths| && forall i | 0 <= i < |paths| :: FieldAlong(t, paths[i]).Some?
  {
    n > 0 && (AnyBlocked(pointers, root, t, paths, n - 1) || Blocked(pointers, root, t, paths[n - 1]))
  }

  lemma {:induction false} AnyBlockedIff(pointers: Pointers, root: nat, t: Type, paths: seq<seq<nat>>, n: nat)
    requires n <= |paths| && forall i | 0 <= i < |paths| :: FieldAlong(t, paths[i]).Some?
    ensures AnyBlocked(pointers, root, t, paths, n) <==>
      exists i :: 0 <= i < n && Blocked(pointers, root, t, paths[i])
  {
    if n > 0 {
      AnyBlockedIff(pointers, root, t, paths, n - 1);
    }
  }

  /** A place in an old allocation that is reached now was reached before. */
  lemma {:induction false} OldPlaceWasReached(m: Mem, n: Mem, root: nat, t: Type, path: seq<nat>)
    requires RowAt(m, root, t) && Keeps(m.pointers, n.pointers) && NewLeadToNew(m, n)
    requires Locate(n.pointers, root, t, path).Some?
    requires Locate(n.pointers, root, t, path).value.addr.block < |m.blocks|
    ensures Locate(m.pointers, root, t, path) == Locate(n.pointers, root, t, path)
    decreases |path|
  {
    if path != [] {
      var front := path[..|path| - 1];
      var u := Locate(n.pointers, root, t, front).value;
      if |path| > 1 && u.typ.Pointer? {
        assert Locate(n.pointers, root, t, path).value.addr.block == n.pointers[u.addr];
        assert u.addr in m.pointers && LiesAt(m, u.addr, Pointer(m.blocks[m.pointers[u.addr]]));
      }
      OldPlaceWasReached(m, n, root, t, front);
    }
  }

  /** An unexported pointer looked through now was set before. */
  lemma UnexportedWasSet(m: Mem, n: Mem, root: nat, t: Type, paths: seq<seq<nat>>, path: seq<nat>, k: nat)
    requires RowAt(m, root, t) && Grown(m, n, root, t, paths) && 0 < k < |path|
    requires UnexportedPointer(t, path[..k]) && Locate(n.pointers, root, t, path[..k + 1]).Some?
    ensures Locate(m.pointers, root, t, path[..k + 1]).Some?
  {
    assert path[..k + 1][..k] == path[..k];
    var v := Locate(n.pointers, root, t, path[..k]).value;
    LocateHasType(n.pointers, root, t, path[..k]);
    LocateIsPlaced(n, root, t, path[..k]);
    assert v.addr in n.pointers && !v.exported;
    if v.addr !in m.pointers {
      var i, j :| 0 <= i < |paths| && 0 < j < |paths[i]|
        && Locate(n.pointers, root, t, paths[i][..j]) == Some(Loc(v.addr, true, Pointer(n.blocks[n.pointers[v.addr]])));
      LocateIsPlaced(n, root, t, paths[i][..j]);
      assert false;
    }
    OldPlaceWasReached(m, n, root, t, path[..k]);
  }

  /** A path walked to its end did not panic, wherever memory was growing from. */
  lemma WalkedDoesNotPanic(m: Mem, n: Mem, root: nat, t: Type, paths: seq<seq<nat>>, path: seq<nat>)
    requires RowAt(m, root, t) && Grown(m, n, root, t, paths) && Locate(n.pointers, root, t, path).Some?
    ensures !Panics(m.pointers, root, t, path)
  {
    forall k | 0 < k < |path| && UnexportedPointer(t, path[..k])
      ensures Locate(m.pointers, root, t, path[..k + 1]).Some?
    {
      LocatePrefix(n.pointers, root, t, path, k + 1);
      UnexportedWasSet(m, n, root, t, paths, path, k);
    }
  }

  /** A walk stuck now is one that was to panic. */
  lemma StuckPanics(p: Pointers, q: Pointers, root: nat, t: Type, path: seq<nat>)
    requires Keeps(p, q) && Panics(q, root, t, path)
    ensures Panics(p, root, t, path)
  {
    var k :| 0 < k < |path| && UnexportedPointer(t, path[..k]) && Locate(q, root, t, path[..k + 1]).None?;
    if Locate(p, root, t, path[..k + 1]).Some? {
      LocateIsStable(p, q, root, t, path[..k + 1]);
    }
  }

  // ---------------------------------------------------------------- Columns and their arguments

  /** Every path exists in the type, as the paths of visible fields do. */
  predicate PathsExist(t: Type, paths: seq<seq<nat>>) {
    forall i | 0 <= i < |paths| :: FieldAlong(t, paths[i]).Some?
  }

  function ColumnTypes(t: Type, paths: seq<seq<nat>>): seq<Type>
    requires PathsExist(t, paths)
  {
    seq(|paths|, i requires 0 <= i < |paths| => FieldAlong(t, paths[i]).value.typ)
  }

  /** Every argument is the cell its path reaches. */
  ghost predicate Reached(pointers: Pointers, root: nat, t: Type, paths: seq<seq<nat>>, args: seq<Addr>) {
    && |args| == |paths|
    && forall j | 0 <= j < |paths| ::
         Locate(pointers, root, t, paths[j]).Some? && Locate(pointers, root, t, paths[j]).value.addr == args[j]
  }

  /** All arguments taken, in memory where the row's allocations are its own. */
  ghost predicate RowReady(m: Mem, root: nat, t: Type, paths: seq<seq<nat>>, args: seq<Addr>) {
    RowAt(m, root, t) && Unshared(m.pointers, root) && Reached(m.pointers, root, t, paths, args)
  }

  lemma ReachedMore(p: Pointers, q: Pointers, root: nat, t: Type,
                    paths: seq<seq<nat>>, args: seq<Addr>, path: seq<nat>, v: Loc)
    requires Keeps(p, q) && Reached(p, root, t, paths, args) && Locate(q, root, t, path) == Some(v)
    ensures Reached(q, root, t, paths + [path], args + [v.addr])
  {
    forall j | 0 <= j < |paths|
      ensures Locate(q, root, t, paths[j]) == Locate(p, root, t, paths[j])
    {
      LocateIsStable(p, q, root, t, paths[j]);
    }
  }

  /** One more column's argument, in memory that keeps growing from `start`. */
  lemma OneMoreArg(start: Mem, was: Mem, now: Mem, root: nat, t: Type, paths: seq<seq<nat>>, i: nat, args: seq<Addr>)
    requires i < |paths| && RowAt(start, root, t)
    requires Keeps(was.pointers, now.pointers) && Grown(start, now, root, t, paths)
    requires Reached(was.pointers, root, t, paths[..i], args) && Locate(now.pointers, root, t, paths[i]).Some?
    ensures Reached(now.pointers, root, t, paths[..i + 1], args + [Locate(now.pointers, root, t, paths[i]).value.addr])
    ensures !Panics(start.pointers, root, t, paths[i])
  {
    assert paths[..i + 1] == paths[..i] + [paths[i]];
    ReachedMore(was.pointers, now.pointers, root, t, paths[..i], args, paths[i],
                Locate(now.pointers, root, t, paths[i]).value);
    WalkedDoesNotPanic(start, now, root, t, paths, paths[i]);
  }

  lemma NextField(pointers: Pointers, root: nat, t: Type, path: seq<nat>, i: nat, u: Loc, v: Loc)
    requires i < |path| && FieldAlong(t, path).Some?
    requires Locate(pointers, root, t, path[..i]) == Some(u)
    requires if i == 0 then v == u else Deref(pointers, u) == Some(v)
    ensures FieldOf(v, path[i]).Some? && Locate(pointers, root, t, path[..i + 1]) == FieldOf(v, path[i])
  {
    assert path[..i + 1][..i] == path[..i];
    FieldAlongPrefix(t, path, i + 1);
    LocateHasType(pointers, root, t, path[..i]);
  }

  /** Arguments lie where a column of their type can be stored. */
  lemma ReachedLies(m: Mem, root: nat, t: Type, paths: seq<seq<nat>>, args: seq<Addr>, i: nat)
    requires RowAt(m, root, t) && Reached(m.pointers, root, t, paths, args) && i < |paths|
    ensures FieldAlong(t, paths[i]).Some? && LiesAt(m, args[i], FieldAlong(t, paths[i]).value.typ)
  {
    LocateHasType(m.pointers, root, t, paths[i]);
    LocateIsPlaced(m, root, t, paths[i]);
  }

  // ---------------------------------------------------------------- The class

  /** How scanning a row ends: all columns assigned, an error of the driver, or a panic. */
  datatype Outcome = Scanned | Failed | Panicked

  class Memory {
    var blocks: seq<Type>
    var pointers: Pointers
    var cells: map<Addr, string>

    function View(): Mem
      reads this
    {
      Mem(blocks, pointers, cells)
    }

    constructor ()
      ensures View() == Mem([], map[], map[])
    {
      blocks, pointers, cells := [], map[], map[];
    }

    /** reflect.New for a row's struct: an allocation to which no pointer leads and which holds none. */
    method New(t: Type) returns (root: nat)
      requires Sound(View())
      modifies `blocks
      ensures root == |old(blocks)| && blocks == old(blocks) + [t] && RowAt(View(), root, t)
      ensures forall a | a in pointers :: pointers[a] != root && a.block != root
    {
      root := |blocks|;
      blocks := blocks + [t];
    }

    /** Looks through a pointer met between two fields of the path, allocating it if it is nil; `None` is the
        panic on setting a field that is not exported. */
    method DerefAlloc(v: Loc, ghost root: nat, ghost t: Type, ghost index: seq<nat>, ghost i: nat)
      returns (w: Option<Loc>)
      requires RowAt(View(), root, t) && 0 < i < |index| && Locate(pointers, root, t, index[..i]) == Some(v)
      modifies `blocks, `pointers
      ensures Grown(old(View()), View(), root, t, [index])
      ensures w.None? <==> v.typ.Pointer? && v.addr !in old(pointers) && !v.exported
      ensures w.None? ==> View() == old(View())
      ensures w.Some? ==> Locate(pointers, root, t, index[..i]) == Some(v) && Deref(pointers, v) == w
    {
      if !v.typ.Pointer? {
        return Some(v);
      }
      if v.addr !in pointers {
        if !v.exported {
          return None;
        }
        ghost var was := View();
        pointers, blocks := pointers[v.addr := |blocks|], blocks + [v.typ.elem];
        GrownOnce(was, View(), root, t, index, i, v.addr, v.typ.elem);
        LocateIsStable(was.pointers, pointers, root, t, index[..i]);
      }
      return Some(Loc(Addr(pointers[v.addr], []), v.exported, v.typ.elem));
    }

    /** Walks the index path from the struct at `root`, allocating nil pointers between two fields. */
    method FieldByIndexAlloc(root: nat, t: Type, index: seq<nat>) returns (r: Option<Loc>)
      requires RowAt(View(), root, t) && FieldAlong(t, index).Some?
      modifies `blocks, `pointers
      ensures Grown(old(View()), View(), root, t, [index])
      ensures r.None? <==> Panics(old(pointers), root, t, index)
      ensures r.Some? ==> Locate(pointers, root, t, index) == r
    {
      ghost var start := View();
      var v := Loc(Addr(root, []), true, t);
      for i := 0 to |index|
        invariant Grown(start, View(), root, t, [index])
        invariant Locate(pointers, root, t, index[..i]) == Some(v)
      {
        ghost var u := v;
        if i > 0 {
          ghost var was := View();
          var w := DerefAlloc(v, root, t, index, i);
          GrownTwice(start, was, View(), root, t, [index], [index], [index]);
          if w.None? {
            StuckAt(pointers, root, t, index, i, v);
            StuckPanics(start.pointers, pointers, root, t, index);
            return None;
          }
          v := w.value;
        }
        NextField(pointers, root, t, index, i, u, v);
        v := FieldOf(v, index[i]).value;
      }
      assert index[..|index|] == index;
      WalkedDoesNotPanic(start, View(), root, t, [index], index);
      return Some(v);
    }

    /** The loop body: the address of one more column's field, unless it cannot be had; the addresses taken
        before stay what their paths reach. */
    method NextArg(root: nat, t: Type, paths: seq<seq<nat>>, i: nat, scanArgs: array<Addr>, ghost start: Mem)
      returns (panics: bool)
      requires RowAt(start, root, t) && RowAt(View(), root, t)
      requires i < |paths| == scanArgs.Length && FieldAlong(t, paths[i]).Some?
      requires Grown(start, View(), root, t, paths) && Reached(pointers, root, t, paths[..i], scanArgs[..i])
      modifies `blocks, `pointers, scanArgs
      ensures RowAt(View(), root, t) && Grown(start, View(), root, t, paths)
      ensures panics <==> Blocked(start.pointers, root, t, paths[i])
      ensures !panics ==> Reached(pointers, root, t, paths[..i + 1], scanArgs[..i + 1])
    {
      ghost var was := View();
      var v := FieldByIndexAlloc(root, t, paths[i]);
      GrownTwice(start, was, View(), root, t, paths, [paths[i]], paths);
      if v.None? {
        StuckPanics(start.pointers, was.pointers, root, t, paths[i]);
        return true;
      }
      LocateHasType(pointers, root, t, paths[i]);
      OneMoreArg(start, was, View(), root, t, paths, i, scanArgs[..i]);
      if !v.value.exported {
        return true;
      }
      scanArgs[i] := v.value.addr;
      assert scanArgs[..i + 1] == old(scanArgs[..i]) + [v.value.addr];
      return false;
    }

    /** Refills the reused argument slice with the field addresses of all columns, unless that panics. */
    method CollectArgs(root: nat, t: Type, paths: seq<seq<nat>>, scanArgs: array<Addr>) returns (panics: bool)
      requires RowAt(View(), root, t) && PathsExist(t, paths) && scanArgs.Length == |paths|
      modifies `blocks, `pointers, scanArgs
      ensures Grown(old(View()), View(), root, t, paths)
      ensures panics <==> exists i :: 0 <= i < |paths| && Blocked(old(pointers), root, t, paths[i])
      ensures !panics ==> Reached(pointers, root, t, paths, scanArgs[..])
    {
      ghost var start := View();
      for i := 0 to |paths|
        invariant RowAt(View(), root, t) && Grown(start, View(), root, t, paths)
        invariant !AnyBlocked(start.pointers, root, t, paths, i)
        invariant Reached(pointers, root, t, paths[..i], scanArgs[..i])
      {
        panics := NextArg(root, t, paths, i, scanArgs, start);
        if panics {
          AnyBlockedIff(start.pointers, root, t, paths, i + 1);
          return;
        }
      }
      AnyBlockedIff(start.pointers, root, t, paths, |paths|);
      assert paths[..|paths|] == paths && scanArgs[..|paths|] == scanArgs[..];
      panics := false;
    }

    /** The driver's part of a row: the columns' values are stored one after another. */
    method Assign(args: seq<Addr>, types: seq<Type>, values: seq<Datum>)
      requires |args| == |types| && Fitting(types, values)
      requires Sound(View()) && forall i | 0 <= i < |args| :: LiesAt(View(), args[i], types[i])
      modifies this
      ensures View() == StoreAll(old(View()), args, types, values)
      ensures Sound(View()) && old(blocks) <= blocks
      ensures Separate(old(pointers)) ==> Separate(pointers)
    {
      ghost var start := View();
      for i := 0 to |values|
        invariant View() == StoreAll(start, args, types, values[..i])
        invariant Sound(View()) && start.blocks <= blocks
        invariant Separate(start.pointers) ==> Separate(pointers)
      {
        assert LiesAt(View(), args[i], types[i]);
        StoreSound(View(), args[i], types[i], values[i]);
        assert values[..i + 1][..i] == values[..i];
        var after := Store(View(), args[i], types[i], values[i]);
        blocks, pointers, cells := after.blocks, after.pointers, after.cells;
      }
      assert values[..|values|] == values;
    }

    /** Collects the field addresses, then lets the driver assign. `values` is what it leaves in the columns:
        in all of them, or in the first ones if it reports an error, the last perhaps half converted. */
    method ScanRowIntoStruct(root: nat, t: Type, paths: seq<seq<nat>>, scanArgs: array<Addr>,
                             values: seq<Datum>, fails: bool)
      returns (r: Outcome, ghost ready: Mem)
      requires RowAt(View(), root, t) && PathsExist(t, paths) && scanArgs.Length == |paths|
      requires Fitting(ColumnTypes(t, paths), values) && (fails || |values| == |paths|)
      modifies this, scanArgs
      ensures r == Panicked <==> exists i :: 0 <= i < |paths| && Blocked(old(pointers), root, t, paths[i])
      ensures r != Panicked ==> r == if fails then Failed else Scanned
      ensures Grown(old(View()), ready, root, t, paths)
      ensures r == Panicked ==> View() == ready
      ensures r != Panicked ==>
        && Reached(ready.pointers, root, t, paths, scanArgs[..])
        && View() == StoreAll(ready, scanArgs[..], ColumnTypes(t, paths), values)
        && (Unshared(old(pointers), root) ==> RowReady(ready, root, t, paths, scanArgs[..]))
      ensures RowAt(View(), root, t)
      ensures Separate(old(pointers)) ==> Separate(pointers)
    {
      var panics := CollectArgs(root, t, paths, scanArgs);
      ready := View();
      if panics {
        return Panicked, ready;
      }
      forall i: nat | i < |paths|
        ensures LiesAt(ready, scanArgs[i], ColumnTypes(t, paths)[i])
      {
        ReachedLies(ready, root, t, paths, scanArgs[..], i);
      }
      Assign(scanArgs[..], ColumnTypes(t, paths), values);
      r := if fails then Failed else Scanned;
    }
  }

  lemma StuckAt(pointers: Pointers, root: nat, t: Type, path: seq<nat>, i: nat, v: Loc)
    requires 0 < i < |path| && Locate(pointers, root, t, path[..i]) == Some(v)
    requires v.typ.Pointer? && !v.exported && v.addr !in pointers
    ensures Panics(pointers, root, t, path)
  {
    LocateHasType(pointers, root, t, path[..i]);
    assert path[..i + 1][..i] == path[..i];
    assert Before(pointers, root, t, path[..i + 1]).None?;
  }
}
