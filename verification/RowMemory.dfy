/**
 Struct memory as scanning sees it. An allocation has a type; embedded structs lie inline, so a cell is an
 allocation and a path of field numbers inside it. A pointer field that is not nil names its allocation.
 */
module RowMemory {
  import opened Wrappers

  datatype Type = Scalar | Struct(fields: seq<Field>) | Pointer(elem: Type)

  datatype Field = Field(exported: bool, typ: Type)

  datatype Addr = Addr(block: nat, path: seq<nat>)

  /** A reflect.Value: where it is, whether it was got through an exported field, and what type lives there. */
  datatype Loc = Loc(addr: Addr, exported: bool, typ: Type)

  type Pointers = map<Addr, nat>

  /** Types of the allocations made so far, the pointers that are not nil, and the scalar cells written. */
  datatype Mem = Mem(blocks: seq<Type>, pointers: Pointers, cells: map<Addr, string>)

  /** reflect.Value.Field; `None` is a panic. The paths walked lead through embedded fields only, and from
      these the fields behind them do not inherit that they are unexported. */
  function FieldOf(v: Loc, x: nat): Option<Loc> {
    if v.typ.Struct? && x < |v.typ.fields| then
      Some(Loc(Addr(v.addr.block, v.addr.path + [x]), v.typ.fields[x].exported, v.typ.fields[x].typ))
    else None
  }

  /** Past a pointer, unless it is nil. */
  function Deref(pointers: Pointers, v: Loc): Option<Loc> {
    if !v.typ.Pointer? then Some(v)
    else if v.addr in pointers then Some(Loc(Addr(pointers[v.addr], []), v.exported, v.typ.elem))
    else None
  }

  /** The location a path of field numbers reaches from the struct at allocation `root`, looking through
      pointers between two fields; `None` if a pointer on the way is nil or a field does not exist. */
  function Locate(pointers: Pointers, root: nat, t: Type, path: seq<nat>): Option<Loc>
    decreases |path|, 1
  {
    if path == [] then Some(Loc(Addr(root, []), true, t))
    else
      match Before(pointers, root, t, path)
      case None => None
      case Some(v) => FieldOf(v, path[|path| - 1])
  }

  /** The struct whose field the last number of the path picks. */
  function Before(pointers: Pointers, root: nat, t: Type, path: seq<nat>): Option<Loc>
    requires path != []
    decreases |path|, 0
  {
    match Locate(pointers, root, t, path[..|path| - 1])
    case None => None
    case Some(v) => if |path| == 1 then Some(v) else Deref(pointers, v)
  }

  /** The field a path picks in a struct type, whatever is nil; `None` if it does not exist. */
  function FieldAlong(t: Type, path: seq<nat>): Option<Field>
    decreases |path|
  {
    if path == [] then Some(Field(true, t))
    else
      match FieldAlong(t, path[..|path| - 1])
      case None => None
      case Some(f) =>
        var s := if |path| > 1 && f.typ.Pointer? then f.typ.elem else f.typ;
        if s.Struct? && path[|path| - 1] < |s.fields| then Some(s.fields[path[|path| - 1]]) else None
  }

  lemma {:induction false} LocateHasType(pointers: Pointers, root: nat, t: Type, path: seq<nat>)
    requires Locate(pointers, root, t, path).Some?
    ensures var v := Locate(pointers, root, t, path).value;
      FieldAlong(t, path) == Some(Field(v.exported, v.typ))
    decreases |path|
  {
    if path != [] {
      LocateHasType(pointers, root, t, path[..|path| - 1]);
    }
  }

  lemma {:induction false} FieldAlongPrefix(t: Type, path: seq<nat>, n: nat)
    requires n <= |path| && FieldAlong(t, path).Some?
    ensures FieldAlong(t, path[..n]).Some?
    decreases |path|
  {
    if n < |path| {
      var front := path[..|path| - 1];
      FieldAlongPrefix(t, front, n);
      assert front[..n] == path[..n];
    } else {
      assert path[..n] == path;
    }
  }

  lemma {:induction false} LocatePrefix(pointers: Pointers, root: nat, t: Type, path: seq<nat>, n: nat)
    requires n <= |path| && Locate(pointers, root, t, path).Some?
    ensures Locate(pointers, root, t, path[..n]).Some?
    decreases |path|
  {
    if n < |path| {
      var front := path[..|path| - 1];
      LocatePrefix(pointers, root, t, front, n);
      assert front[..n] == path[..n];
    } else {
      assert path[..n] == path;
    }
  }

  // ---------------------------------------------------------------- Reaching the same in two memories

  /** If `v` is a pointer that leads somewhere in `p`, it leads there in `q`. */
  predicate Undisturbed(p: Pointers, q: Pointers, v: Option<Loc>) {
    v.Some? && v.value.typ.Pointer? && v.value.addr in p ==>
      v.value.addr in q && q[v.value.addr] == p[v.value.addr]
  }

  /** A path reaches the same as long as the pointers on its way lead to the same allocations. */
  lemma {:induction false} LocateUndisturbed(p: Pointers, q: Pointers, root: nat, t: Type, path: seq<nat>)
    requires Locate(p, root, t, path).Some?
    requires forall k | 0 < k < |path| :: Undisturbed(p, q, Locate(p, root, t, path[..k]))
    ensures Locate(q, root, t, path) == Locate(p, root, t, path)
    decreases |path|
  {
    if path != [] {
      var front := path[..|path| - 1];
      assert forall k | 0 < k < |front| :: front[..k] == path[..k];
      LocateUndisturbed(p, q, root, t, front);
    }
  }

  /** No pointer of `p` is replaced in `q`. */
  ghost predicate Keeps(p: Pointers, q: Pointers) {
    forall a | a in p :: a in q && q[a] == p[a]
  }

  /** What a path reached, it still reaches when more pointers are set. */
  lemma LocateIsStable(p: Pointers, q: Pointers, root: nat, t: Type, path: seq<nat>)
    requires Keeps(p, q) && Locate(p, root, t, path).Some?
    ensures Locate(q, root, t, path) == Locate(p, root, t, path)
  {
    LocateUndisturbed(p, q, root, t, path);
  }

  // ---------------------------------------------------------------- Typed memory

  /** The field at a place inside an allocation of type `t`. */
  function PlaceAt(t: Type, path: seq<nat>): Option<Field>
    decreases |path|
  {
    if path == [] then Some(Field(true, t))
    else
      match PlaceAt(t, path[..|path| - 1])
      case None => None
      case Some(f) =>
        var x := path[|path| - 1];
        if f.typ.Struct? && x < |f.typ.fields| then Some(f.typ.fields[x]) else None
  }

  /** A cell of type `t` lies at `a`. */
  predicate LiesAt(m: Mem, a: Addr, t: Type) {
    && a.block < |m.blocks|
    && var f := PlaceAt(m.blocks[a.block], a.path); f.Some? && f.value.typ == t
  }

  /** Pointers lie where the types have them, and lead to allocations of the element type. */
  ghost predicate Sound(m: Mem) {
    forall a | a in m.pointers :: m.pointers[a] < |m.blocks| && LiesAt(m, a, Pointer(m.blocks[m.pointers[a]]))
  }

  /** Sound memory with a row's struct of type `t` at `root`. */
  ghost predicate RowAt(m: Mem, root: nat, t: Type) {
    Sound(m) && root < |m.blocks| && m.blocks[root] == t
  }

  lemma PlaceBehind(t: Type, path: seq<nat>, x: nat)
    requires PlaceAt(t, path).Some? && PlaceAt(t, path).value.typ.Struct? && x < |PlaceAt(t, path).value.typ.fields|
    ensures PlaceAt(t, path + [x]) == Some(PlaceAt(t, path).value.typ.fields[x])
  {
    assert (path + [x])[..|path|] == path;
  }

  lemma DerefLies(m: Mem, v: Loc)
    requires Sound(m) && LiesAt(m, v.addr, v.typ) && Deref(m.pointers, v).Some?
    ensures LiesAt(m, Deref(m.pointers, v).value.addr, Deref(m.pointers, v).value.typ)
  {
  }

  lemma {:induction false} LocateIsPlaced(m: Mem, root: nat, t: Type, path: seq<nat>)
    requires RowAt(m, root, t) && Locate(m.pointers, root, t, path).Some?
    ensures var v := Locate(m.pointers, root, t, path).value;
      && v.addr.block < |m.blocks|
      && PlaceAt(m.blocks[v.addr.block], v.addr.path) == Some(Field(v.exported, v.typ))
    decreases |path|
  {
    if path != [] {
      var front := path[..|path| - 1];
      LocateIsPlaced(m, root, t, front);
      if |path| > 1 {
        DerefLies(m, Locate(m.pointers, root, t, front).value);
      }
      var b := Before(m.pointers, root, t, path).value;
      PlaceBehind(m.blocks[b.addr.block], b.addr.path, path[|path| - 1]);
    }
  }

  // ---------------------------------------------------------------- Unshared memory

  /** No two pointers lead to the same allocation. */
  ghost predicate Separate(pointers: Pointers) {
    forall a, b | a in pointers && b in pointers && a != b :: pointers[a] != pointers[b]
  }

  /** Every pointer leads to an allocation of its own, none back to the struct being filled. */
  ghost predicate Unshared(pointers: Pointers, root: nat) {
    (forall a | a in pointers :: pointers[a] != root) && Separate(pointers)
  }

  lemma ReachedByFields(pointers: Pointers, root: nat, t: Type, path: seq<nat>)
    requires path != [] && Locate(pointers, root, t, path).Some?
    ensures Locate(pointers, root, t, path).value.addr.path != []
  {
  }

  /** Looking through pointers leads from different cells to different ones. */
  lemma SameDeref(pointers: Pointers, root: nat, u: Loc, v: Loc)
    requires Unshared(pointers, root) && u.addr.path != [] && v.addr.path != []
    requires Deref(pointers, u).Some? && Deref(pointers, v).Some?
    requires Deref(pointers, u).value.addr == Deref(pointers, v).value.addr
    ensures u.addr == v.addr
    ensures Deref(pointers, u).value.addr != Addr(root, [])
  {
    assert u.typ.Pointer? <==> v.typ.Pointer?;
  }

  lemma SameBefore(pointers: Pointers, root: nat, t: Type, p: seq<nat>, q: seq<nat>)
    requires Unshared(pointers, root) && p != [] && q != []
    requires Before(pointers, root, t, p).Some? && Before(pointers, root, t, q).Some?
    requires Before(pointers, root, t, p).value.addr == Before(pointers, root, t, q).value.addr
    ensures Locate(pointers, root, t, p[..|p| - 1]).value.addr == Locate(pointers, root, t, q[..|q| - 1]).value.addr
  {
    var u, v := Locate(pointers, root, t, p[..|p| - 1]).value, Locate(pointers, root, t, q[..|q| - 1]).value;
    if |p| > 1 {
      ReachedByFields(pointers, root, t, p[..|p| - 1]);
      SameDeref(pointers, root, u, u);
    }
    if |q| > 1 {
      ReachedByFields(pointers, root, t, q[..|q| - 1]);
      SameDeref(pointers, root, v, v);
    }
    if |p| > 1 && |q| > 1 {
      SameDeref(pointers, root, u, v);
    }
  }

  /** In unshared memory different paths reach different cells. */
  lemma {:induction false} PathsAreDistinct(pointers: Pointers, root: nat, t: Type, p: seq<nat>, q: seq<nat>)
    requires Unshared(pointers, root)
    requires Locate(pointers, root, t, p).Some? && Locate(pointers, root, t, q).Some?
    requires Locate(pointers, root, t, p).value.addr == Locate(pointers, root, t, q).value.addr
    ensures p == q
    decreases |p|
  {
    if p != [] && q != [] {
      var a := Locate(pointers, root, t, p).value.addr;
      var (n, m) := (|p| - 1, |q| - 1);
      var bp, bq := Before(pointers, root, t, p).value.addr, Before(pointers, root, t, q).value.addr;
      assert a.path == bp.path + [p[n]] && a.path == bq.path + [q[m]];
      assert bp.path == a.path[..|a.path| - 1] == bq.path;
      assert bp == bq && p[n] == q[m];
      SameBefore(pointers, root, t, p, q);
      PathsAreDistinct(pointers, root, t, p[..n], q[..m]);
      assert p == p[..n] + [p[n]] && q == q[..m] + [q[m]];
    } else if p != [] {
      ReachedByFields(pointers, root, t, p);
    } else if q != [] {
      ReachedByFields(pointers, root, t, q);
    }
  }

  lemma FieldIsBehind(pointers: Pointers, root: nat, t: Type, path: seq<nat>)
    requires path != [] && Locate(pointers, root, t, path).Some?
    ensures var a := Locate(pointers, root, t, path).value.addr;
      a.path != [] && Before(pointers, root, t, path).value.addr == Addr(a.block, a.path[..|a.path| - 1])
  {
    var b := Before(pointers, root, t, path).value.addr;
    assert (b.path + [path[|path| - 1]])[..|b.path|] == b.path;
  }

  /** In unshared memory two fields lie in the same struct exactly if their paths agree but for the last number. */
  lemma SameStructIff(pointers: Pointers, root: nat, t: Type, p: seq<nat>, q: seq<nat>)
    requires Unshared(pointers, root) && p != [] && q != []
    requires Locate(pointers, root, t, p).Some? && Locate(pointers, root, t, q).Some?
    ensures var a, b := Locate(pointers, root, t, p).value.addr, Locate(pointers, root, t, q).value.addr;
      && a.path != [] && b.path != []
      && (p[..|p| - 1] == q[..|q| - 1] <==>
            a.block == b.block && a.path[..|a.path| - 1] == b.path[..|b.path| - 1])
  {
    FieldIsBehind(pointers, root, t, p);
    FieldIsBehind(pointers, root, t, q);
    if Before(pointers, root, t, p).value.addr == Before(pointers, root, t, q).value.addr {
      SameBefore(pointers, root, t, p, q);
      PathsAreDistinct(pointers, root, t, p[..|p| - 1], q[..|q| - 1]);
    }
  }

  /** Cell `b` is `a` or lies inside it. */
  predicate Under(b: Addr, a: Addr) {
    b.block == a.block && a.path <= b.path
  }

  /** In unshared memory one field lies inside another only if its path extends the other's. */
  lemma {:induction false} NestedCellsHaveNestedPaths(pointers: Pointers, root: nat, t: Type, p: seq<nat>, q: seq<nat>)
    requires Unshared(pointers, root)
    requires Locate(pointers, root, t, p).Some? && Locate(pointers, root, t, q).Some?
    requires Under(Locate(pointers, root, t, p).value.addr, Locate(pointers, root, t, q).value.addr)
    ensures q <= p
    decreases |p|
  {
    var a, b := Locate(pointers, root, t, p).value.addr, Locate(pointers, root, t, q).value.addr;
    if a == b {
      PathsAreDistinct(pointers, root, t, p, q);
    } else if p != [] {
      var front := p[..|p| - 1];
      var before := Before(pointers, root, t, p).value.addr;
      assert before.path == a.path[..|a.path| - 1];
      assert Under(before, b);
      if q != [] {
        ReachedByFields(pointers, root, t, q);
        NestedCellsHaveNestedPaths(pointers, root, t, front, q);
      }
    }
  }
}
