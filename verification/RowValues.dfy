/** What row values leave in memory: the driver's assignment to one field, and to the fields of a row. */
module RowValues {
  import opened RowMemory

  /** The content of a field: a scalar's text, a nil pointer, a pointer to content, or a struct's parts. */
  datatype Datum = Plain(text: string) | Nil | To(elem: Datum) | Whole(parts: seq<Datum>)

  predicate Fits(t: Type, d: Datum)
    decreases d
  {
    match (t, d)
    case (Scalar, Plain(_)) => true
    case (Pointer(_), Nil) => true
    case (Pointer(e), To(x)) => Fits(e, x)
    case (Struct(fs), Whole(ps)) => |fs| == |ps| && forall i | 0 <= i < |ps| :: Fits(fs[i].typ, ps[i])
    case _ => false
  }

  /** The type has more than one value; a struct without content has one. */
  predicate Varies(t: Type) {
    t.Struct? ==> exists i :: 0 <= i < |t.fields| && Varies(t.fields[i].typ)
  }

  /** The zero value. */
  function Zero(t: Type): (d: Datum)
    ensures Fits(t, d)
  {
    match t
    case Scalar => Plain("")
    case Pointer(_) => Nil
    case Struct(fs) => Whole(seq(|fs|, i requires 0 <= i < |fs| => Zero(fs[i].typ)))
  }

  lemma {:induction false} OnlyValue(t: Type, d: Datum)
    requires Fits(t, d) && !Varies(t)
    ensures d == Zero(t)
    decreases d
  {
    forall i | 0 <= i < |d.parts|
      ensures d.parts[i] == Zero(t.fields[i].typ)
    {
      OnlyValue(t.fields[i].typ, d.parts[i]);
    }
    assert d.parts == Zero(t).parts;
  }

  lemma {:induction false} OtherValue(t: Type) returns (d: Datum)
    requires Varies(t)
    ensures Fits(t, d) && d != Zero(t)
    decreases t
  {
    match t
    case Scalar => d := Plain("x");
    case Pointer(e) => d := To(Zero(e));
    case Struct(fs) =>
      var i :| 0 <= i < |fs| && Varies(fs[i].typ);
      var part := OtherValue(fs[i].typ);
      d := Whole(Zero(t).parts[i := part]);
      assert d.parts[i] != Zero(t).parts[i];
  }

  // ---------------------------------------------------------------- Reading and storing

  /** Field `i` of the struct at `a`. */
  function Part(a: Addr, i: nat): Addr { Addr(a.block, a.path + [i]) }

  function Read(m: Mem, a: Addr, t: Type): (d: Datum)
    ensures Fits(t, d)
    decreases t
  {
    match t
    case Scalar => Plain(if a in m.cells then m.cells[a] else "")
    case Pointer(e) => if a in m.pointers then To(Read(m, Addr(m.pointers[a], []), e)) else Nil
    case Struct(fs) => Whole(seq(|fs|, i requires 0 <= i < |fs| => Read(m, Part(a, i), fs[i].typ)))
  }

  /** The assignment of one column: a pointer is cleared or led to a new allocation that takes the value, a
      struct that scans as a whole may get anything in any of its cells. */
  function Store(m: Mem, a: Addr, t: Type, d: Datum): Mem
    requires Fits(t, d)
    decreases d, 1, 0
  {
    match d
    case Plain(text) => m.(cells := m.cells[a := text])
    case Nil => m.(pointers := m.pointers - {a})
    case To(x) =>
      var block := |m.blocks|;
      Store(m.(blocks := m.blocks + [t.elem], pointers := m.pointers[a := block]), Addr(block, []), t.elem, x)
    case Whole(ps) => StoreParts(m, a, t, d, |ps|)
  }

  function StoreParts(m: Mem, a: Addr, t: Type, d: Datum, n: nat): Mem
    requires Fits(t, d) && d.Whole? && n <= |d.parts|
    decreases d, 0, n
  {
    if n == 0 then m
    else Store(StoreParts(m, a, t, d, n - 1), Part(a, n - 1), t.fields[n - 1].typ, d.parts[n - 1])
  }

  // ---------------------------------------------------------------- What an assignment leaves alone

  ghost predicate SameAt(m: Mem, n: Mem, b: Addr) {
    && (b in m.pointers <==> b in n.pointers) && (b in m.pointers ==> m.pointers[b] == n.pointers[b])
    && (b in m.cells <==> b in n.cells) && (b in m.cells ==> m.cells[b] == n.cells[b])
  }

  /** From `m` to `n` nothing changed but cells inside `a`; allocations may have been added. */
  ghost predicate Framed(m: Mem, n: Mem, a: Addr) {
    && m.blocks <= n.blocks
    && forall b: Addr | b.block < |m.blocks| && !Under(b, a) :: SameAt(m, n, b)
  }

  lemma {:induction false} StoreFrame(m: Mem, a: Addr, t: Type, d: Datum)
    requires a.block < |m.blocks| && Fits(t, d)
    ensures Framed(m, Store(m, a, t, d), a)
    decreases d, 1, 0
  {
    match d
    case Plain(_) =>
    case Nil =>
    case To(x) =>
      var block := |m.blocks|;
      var led := m.(blocks := m.blocks + [t.elem], pointers := m.pointers[a := block]);
      StoreFrame(led, Addr(block, []), t.elem, x);
      forall b: Addr | b.block < |m.blocks| && !Under(b, a)
        ensures SameAt(m, Store(m, a, t, d), b)
      {
        assert SameAt(m, led, b);
        assert !Under(b, Addr(block, []));
      }
    case Whole(ps) => StorePartsFrame(m, a, t, d, |ps|);
  }

  lemma {:induction false} StorePartsFrame(m: Mem, a: Addr, t: Type, d: Datum, n: nat)
    requires a.block < |m.blocks| && Fits(t, d) && d.Whole? && n <= |d.parts|
    ensures Framed(m, StoreParts(m, a, t, d, n), a)
    decreases d, 0, n
  {
    if n > 0 {
      var mid := StoreParts(m, a, t, d, n - 1);
      StorePartsFrame(m, a, t, d, n - 1);
      StoreFrame(mid, Part(a, n - 1), t.fields[n - 1].typ, d.parts[n - 1]);
      forall b: Addr | b.block < |m.blocks| && !Under(b, a)
        ensures SameAt(m, StoreParts(m, a, t, d, n), b)
      {
        assert SameAt(m, mid, b);
        assert !Under(b, Part(a, n - 1));
      }
    }
  }

  /** From `x` to `y` nothing changed outside the parts `i` to `n` of the struct at `a`. */
  ghost predicate SameBeyond(x: Mem, y: Mem, a: Addr, i: nat, n: nat) {
    && x.blocks <= y.blocks
    && forall b: Addr | b.block < |x.blocks| && (forall j | i <= j < n :: !Under(b, Part(a, j))) :: SameAt(x, y, b)
  }

  lemma OnePart(x: Mem, mid: Mem, y: Mem, a: Addr, i: nat, n: nat)
    requires i <= n && SameBeyond(x, mid, a, i, n) && Framed(mid, y, Part(a, n))
    ensures SameBeyond(x, y, a, i, n + 1)
  {
    forall b: Addr | b.block < |x.blocks| && (forall j | i <= j < n + 1 :: !Under(b, Part(a, j)))
      ensures SameAt(x, y, b)
    {
      assert SameAt(x, mid, b);
      assert !Under(b, Part(a, n));
      assert SameAt(mid, y, b);
    }
  }

  /** The parts stored after the first `i` leave everything outside themselves alone. */
  lemma {:induction false} LaterParts(m: Mem, a: Addr, t: Type, d: Datum, i: nat, n: nat)
    requires a.block < |m.blocks| && Fits(t, d) && d.Whole? && i <= n <= |d.parts|
    ensures SameBeyond(StoreParts(m, a, t, d, i), StoreParts(m, a, t, d, n), a, i, n)
    decreases n
  {
    if i < n {
      LaterParts(m, a, t, d, i, n - 1);
      StorePartsFrame(m, a, t, d, n - 1);
      var x, mid := StoreParts(m, a, t, d, i), StoreParts(m, a, t, d, n - 1);
      StoreFrame(mid, Part(a, n - 1), t.fields[n - 1].typ, d.parts[n - 1]);
      OnePart(x, mid, StoreParts(m, a, t, d, n), a, i, n - 1);
    }
  }

  /** Storing a value of a type without content changes nothing. */
  lemma {:induction false} StoreNothing(m: Mem, a: Addr, t: Type, d: Datum)
    requires Fits(t, d) && !Varies(t)
    ensures Store(m, a, t, d) == m
    decreases d, 1, 0
  {
    StoreNoParts(m, a, t, d, |d.parts|);
  }

  lemma {:induction false} StoreNoParts(m: Mem, a: Addr, t: Type, d: Datum, n: nat)
    requires Fits(t, d) && !Varies(t) && n <= |d.parts|
    ensures StoreParts(m, a, t, d, n) == m
    decreases d, 0, n
  {
    if n > 0 {
      StoreNoParts(m, a, t, d, n - 1);
      StoreNothing(m, Part(a, n - 1), t.fields[n - 1].typ, d.parts[n - 1]);
    }
  }

  // ---------------------------------------------------------------- What an assignment leaves behind

  /** What is stored is read back for as long as the cells inside `a` and the new allocations stay. */
  lemma {:induction false} StoredReadsBack(m: Mem, a: Addr, t: Type, d: Datum, o: Mem)
    requires a.block < |m.blocks| && Fits(t, d)
    requires forall b: Addr | Under(b, a) || |m.blocks| <= b.block < |Store(m, a, t, d).blocks| ::
      SameAt(Store(m, a, t, d), o, b)
    ensures Read(o, a, t) == d
    decreases d
  {
    var n := Store(m, a, t, d);
    assert SameAt(n, o, a);
    match d
    case Plain(_) =>
    case Nil =>
    case To(x) =>
      var block := |m.blocks|;
      var led := m.(blocks := m.blocks + [t.elem], pointers := m.pointers[a := block]);
      StoreFrame(led, Addr(block, []), t.elem, x);
      assert SameAt(led, n, a);
      StoredReadsBack(led, Addr(block, []), t.elem, x, o);
    case Whole(ps) =>
      forall i: nat | i < |ps|
        ensures Read(o, Part(a, i), t.fields[i].typ) == ps[i]
      {
        PartReadsBack(m, a, t, d, o, i);
      }
      assert Read(o, a, t).parts == ps;
  }

  lemma PartsAreApart(a: Addr, i: nat, j: nat, b: Addr)
    requires i != j && Under(b, Part(a, i))
    ensures !Under(b, Part(a, j))
  {
    assert b.path[|a.path|] == Part(a, i).path[|a.path|];
    assert Part(a, j).path[|a.path|] == j;
  }

  lemma {:induction false} PartReadsBack(m: Mem, a: Addr, t: Type, d: Datum, o: Mem, i: nat)
    requires a.block < |m.blocks| && Fits(t, d) && d.Whole? && i < |d.parts|
    requires forall b: Addr | Under(b, a) || |m.blocks| <= b.block < |Store(m, a, t, d).blocks| ::
      SameAt(Store(m, a, t, d), o, b)
    ensures Read(o, Part(a, i), t.fields[i].typ) == d.parts[i]
    decreases d, 0
  {
    var n := |d.parts|;
    var x, y := StoreParts(m, a, t, d, i), StoreParts(m, a, t, d, i + 1);
    StorePartsFrame(m, a, t, d, i);
    StorePartsFrame(m, a, t, d, i + 1);
    LaterParts(m, a, t, d, i + 1, n);
    forall b: Addr | Under(b, Part(a, i)) || |x.blocks| <= b.block < |y.blocks|
      ensures SameAt(y, o, b)
    {
      forall j | i + 1 <= j < n && Under(b, Part(a, i))
        ensures !Under(b, Part(a, j))
      {
        PartsAreApart(a, i, j, b);
      }
      assert SameAt(y, StoreParts(m, a, t, d, n), b);
      assert Under(b, Part(a, i)) ==> Under(b, a);
    }
    StoredReadsBack(x, Part(a, i), t.fields[i].typ, d.parts[i], o);
  }

  // ---------------------------------------------------------------- Memory stays sound

  lemma {:induction false} StoreSound(m: Mem, a: Addr, t: Type, d: Datum)
    requires Sound(m) && LiesAt(m, a, t) && Fits(t, d)
    ensures var n := Store(m, a, t, d); m.blocks <= n.blocks && Sound(n)
    ensures Separate(m.pointers) ==> Separate(Store(m, a, t, d).pointers)
    decreases d, 1, 0
  {
    match d
    case Plain(_) =>
    case Nil =>
    case To(x) =>
      var block := |m.blocks|;
      var led := m.(blocks := m.blocks + [t.elem], pointers := m.pointers[a := block]);
      assert Sound(led);
      StoreSound(led, Addr(block, []), t.elem, x);
    case Whole(ps) => StorePartsSound(m, a, t, d, |ps|);
  }

  lemma {:induction false} StorePartsSound(m: Mem, a: Addr, t: Type, d: Datum, n: nat)
    requires Sound(m) && LiesAt(m, a, t) && Fits(t, d) && d.Whole? && n <= |d.parts|
    ensures var o := StoreParts(m, a, t, d, n); m.blocks <= o.blocks && Sound(o)
    ensures Separate(m.pointers) ==> Separate(StoreParts(m, a, t, d, n).pointers)
    decreases d, 0, n
  {
    if n > 0 {
      var mid := StoreParts(m, a, t, d, n - 1);
      StorePartsSound(m, a, t, d, n - 1);
      var part := Part(a, n - 1);
      assert part.path[..|part.path| - 1] == a.path;
      assert LiesAt(mid, part, t.fields[n - 1].typ);
      StoreSound(mid, part, t.fields[n - 1].typ, d.parts[n - 1]);
    }
  }

  // ---------------------------------------------------------------- The columns of a row

  /** Values for the first columns. */
  predicate Fitting(types: seq<Type>, values: seq<Datum>) {
    |values| <= |types| && forall i | 0 <= i < |values| :: Fits(types[i], values[i])
  }

  /** The driver assigns the columns' values one after another. */
  function StoreAll(m: Mem, args: seq<Addr>, types: seq<Type>, values: seq<Datum>): Mem
    requires |args| == |types| && Fitting(types, values)
  {
    if values == [] then m
    else
      var n := |values| - 1;
      Store(StoreAll(m, args, types, values[..n]), args[n], types[n], values[n])
  }

  /** None of the columns from `i` on has content inside `b` or around it. */
  ghost predicate Untouched(args: seq<Addr>, types: seq<Type>, i: nat, n: nat, b: Addr)
    requires |args| == |types| && n <= |args|
  {
    forall k | i <= k < n && Varies(types[k]) :: !Under(b, args[k])
  }

  /** What the first `i` columns left stays where the other columns have no content. */
  lemma {:induction false} LaterColumns(m: Mem, args: seq<Addr>, types: seq<Type>, values: seq<Datum>, i: nat)
    requires |args| == |types| && Fitting(types, values) && i <= |values|
    requires forall k | 0 <= k < |args| :: args[k].block < |m.blocks|
    ensures var (x, y) := (StoreAll(m, args, types, values[..i]), StoreAll(m, args, types, values));
      && m.blocks <= x.blocks <= y.blocks
      && forall b: Addr | b.block < |x.blocks| && Untouched(args, types, i, |values|, b) :: SameAt(x, y, b)
    decreases |values|
  {
    if values != [] {
      var n := |values| - 1;
      var front := values[..n];
      var mid := StoreAll(m, args, types, front);
      if i <= n {
        assert front[..i] == values[..i];
        LaterColumns(m, args, types, front, i);
        OneColumn(m, mid, args, types, values, i);
      } else {
        LaterColumns(m, args, types, front, n);
        StoreFrame(mid, args[n], types[n], values[n]);
        assert values[..i] == values;
      }
    }
  }

  lemma OneColumn(m: Mem, mid: Mem, args: seq<Addr>, types: seq<Type>, values: seq<Datum>, i: nat)
    requires |args| == |types| && Fitting(types, values) && i < |values|
    requires mid == StoreAll(m, args, types, values[..|values| - 1])
    requires args[|values| - 1].block < |m.blocks|
    requires m.blocks <= StoreAll(m, args, types, values[..i]).blocks <= mid.blocks
    requires forall b: Addr | b.block < |StoreAll(m, args, types, values[..i]).blocks|
      && Untouched(args, types, i, |values| - 1, b) :: SameAt(StoreAll(m, args, types, values[..i]), mid, b)
    ensures var (x, y) := (StoreAll(m, args, types, values[..i]), StoreAll(m, args, types, values));
      && mid.blocks <= y.blocks
      && forall b: Addr | b.block < |x.blocks| && Untouched(args, types, i, |values|, b) :: SameAt(x, y, b)
  {
    var n := |values| - 1;
    var x, y := StoreAll(m, args, types, values[..i]), StoreAll(m, args, types, values);
    StoreFrame(mid, args[n], types[n], values[n]);
    forall b: Addr | b.block < |x.blocks| && Untouched(args, types, i, |values|, b)
      ensures SameAt(x, y, b)
    {
      assert Untouched(args, types, i, n, b) && SameAt(x, mid, b);
      if Varies(types[n]) {
        assert SameAt(mid, y, b);
      } else {
        StoreNothing(mid, args[n], types[n], values[n]);
      }
    }
  }
}
