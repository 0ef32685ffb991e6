/** Consequences of the invariant: each table has one parent entry, and the frame budget is
    exactly what the invariant needs. */
module TableTree {
  import opened Words
  import opened FrameAllocator
  import opened PageTables
  import opened Mapping
  import opened MemoryMap

  // ---- one parent entry ----

  /** p with its index at level l replaced. */
  function WithIndex(p: Path, l: Level, i: Index): (q: Path)
    ensures q.At(l) == i && forall k: Level :: k != l ==> q.At(k) == p.At(k)
  {
    if l == 3 then p.(pgd := i) else if l == 2 then p.(pud := i) else if l == 1 then p.(pmd := i) else p.(pte := i)
  }

  lemma {:induction false} SameAboveChanged(p: Path, l: Level, i: Index, k: Level)
    requires l <= k
    ensures SameAbove(p, WithIndex(p, l, i), k)
    decreases 3 - k
  {
    if k < 3 { SameAboveChanged(p, l, i, k + 1); }
  }

  lemma ChildIsReached(mem: seq<byte>, p: Path, l: Level, i: Index)
    requires l >= 1 && TableFor(mem, p, l).Some?
    ensures TableFor(mem, WithIndex(p, l, i), l) == TableFor(mem, p, l)
    ensures TableFor(mem, WithIndex(p, l, i), l - 1) == Child(mem, TableFor(mem, p, l), i)
  {
    SameAboveChanged(p, l, i, l);
    SameTable(mem, p, WithIndex(p, l, i), l);
  }

  /** No two entries of reachable tables point to the same table, and none points to the root. */
  lemma OneParentEntry(mem: seq<byte>, p: Path, l: Level, i: Index, q: Path, k: Level, j: Index)
    requires TablesFormTree(mem) && l >= 1 && k >= 1 && TableFor(mem, p, l).Some? && TableFor(mem, q, k).Some?
    requires Child(mem, TableFor(mem, p, l), i).Some?
    ensures Child(mem, TableFor(mem, p, l), i) != Some(CR3_FRAME)
    ensures Child(mem, TableFor(mem, p, l), i) == Child(mem, TableFor(mem, q, k), j) ==>
            TableFor(mem, p, l) == TableFor(mem, q, k) && l == k && i == j
  {
    var p', q' := WithIndex(p, l, i), WithIndex(q, k, j);
    ChildIsReached(mem, p, l, i);
    ChildIsReached(mem, q, k, j);
    assert OneParent(mem, p', l - 1, p, 3);
    assert OneParent(mem, p', l - 1, q', k - 1);
    if Child(mem, TableFor(mem, p, l), i) == Child(mem, TableFor(mem, q, k), j) { SameTable(mem, p', q', l); }
  }

  // ---- the frame budget is exact ----

  lemma KeepsChild(mem: seq<byte>, t: nat, i: Index, v: nat, table: Option<nat>, j: Index)
    requires !Present(Entry(mem, t, i)) && Child(mem, table, j).Some?
    ensures Child(Put(mem, t, i, v), table, j) == Child(mem, table, j)
  {
    OtherEntries(mem, t, i, v, table.value, j);
  }

  /** memory_map only fills entries that are not present, so it never moves a table. */
  lemma {:induction false} PutKeepsTables(mem: seq<byte>, t: nat, i: Index, v: nat, q: Path, k: Level)
    requires !Present(Entry(mem, t, i)) && TableFor(mem, q, k).Some?
    ensures TableFor(Put(mem, t, i, v), q, k) == TableFor(mem, q, k)
    decreases 3 - k
  {
    if k < 3 {
      PutKeepsTables(mem, t, i, v, q, k + 1);
      KeepsChild(mem, t, i, v, TableFor(mem, q, k + 1), q.At(k + 1));
    }
  }

  lemma LinkKeepsTables(m: Machine, p: Path, l: Level, q: Path, k: Level)
    requires TableFor(m.mem, q, k).Some?
    ensures TableFor(Link(m, p, l).mem, q, k) == TableFor(m.mem, q, k)
  {
    match TableFor(m.mem, p, l)
    case None =>
    case Some(t) =>
      if !Present(Entry(m.mem, t, p.At(l))) {
        PutKeepsTables(m.mem, t, p.At(l), WithFlags(PAGE_SIZE * Allocate(m.used).0), q, k);
      }
  }

  lemma SetLeafKeepsTables(m: Machine, va: nat, pa: nat, q: Path, k: Level)
    requires FrameOf(pa) < NB_PAGE && TableFor(m.mem, q, k).Some?
    ensures TableFor(SetLeaf(m, va, pa).mem, q, k) == TableFor(m.mem, q, k)
  {
    match TableFor(m.mem, Split(va), 0)
    case None =>
    case Some(t) =>
      var i := Split(va).pte;
      if !Present(Entry(m.mem, t, i)) { PutKeepsTables(m.mem, t, i, NewLeaf(m, va, pa), q, k); }
  }

  /** f cannot be a table: it is frame 0, or not wholly inside guest memory. */
  predicate NoRoomFor(mem: seq<byte>, f: nat) { f == 0 || PAGE_SIZE * f + PAGE_SIZE > |mem| }

  ghost predicate OutOfFrames(mem: seq<byte>, p: Path, l: Level) {
    exists k: Level :: l <= k && AtBadTable(mem, p, k)
  }

  predicate AtBadTable(mem: seq<byte>, p: Path, k: Level) {
    TableFor(mem, p, k).Some? && NoRoomFor(mem, TableFor(mem, p, k).value)
  }

  /** With nothing free inside guest memory the allocator's answer cannot be a table. */
  lemma LinkOverflows(m: Machine, p: Path, l: Level)
    requires Inv(m) && l >= 1 && NeedsLink(m, p, l) && FreeBelow(m.used, Frames(m)) == 0
    ensures AtBadTable(Link(m, p, l).mem, p, l - 1)
  {
    var t, f := TableFor(m.mem, p, l).value, Allocate(m.used).0;
    assert TableHeld(m, p, l);
    FreeBelowZero(m.used, Frames(m));
    LinkKeepsTables(m, p, l, p, l);
    TableEntry(f);
    FlagsOf(PAGE_SIZE * f);
    EntryAfterPut(m.mem, t, p.At(l), WithFlags(PAGE_SIZE * f), t, p.At(l));
  }

  lemma {:induction false} LinkedOverflows(m: Machine, p: Path, l: Level)
    requires Inv(m) && Missing(m.mem, p, l) > FreeBelow(m.used, Frames(m))
    ensures OutOfFrames(Linked(m, p, l).mem, p, l)
    decreases 3 - l
  {
    var before := Linked(m, p, l + 1);
    if Missing(m.mem, p, l + 1) > FreeBelow(m.used, Frames(m)) {
      LinkedOverflows(m, p, l + 1);
      var k: Level :| l + 1 <= k && AtBadTable(before.mem, p, k);
      LinkKeepsTables(before, p, l + 1, p, k);
      assert AtBadTable(Linked(m, p, l).mem, p, k);
    } else {
      LastFrameGone(m, p, l);
      LinkOverflows(before, p, l + 1);
      assert AtBadTable(Linked(m, p, l).mem, p, l);
    }
  }

  /** The state in which the first table does not fit. */
  lemma LastFrameGone(m: Machine, p: Path, l: Level)
    requires Inv(m) && l < 3 && Missing(m.mem, p, l + 1) <= FreeBelow(m.used, Frames(m)) < Missing(m.mem, p, l)
    ensures var before := Linked(m, p, l + 1);
            Inv(before) && NeedsLink(before, p, l + 1) && FreeBelow(before.used, Frames(before)) == 0
  {
    LinkedInv(m, p, l + 1);
    StillLacks(m, p, l);
    CountAfterTables(m, p, l + 1);
  }

  lemma StillLacks(m: Machine, p: Path, l: Level)
    requires Inv(m) && l < 3 && Missing(m.mem, p, l + 1) <= FreeBelow(m.used, Frames(m))
    requires Missing(m.mem, p, l + 1) < Missing(m.mem, p, l)
    ensures NeedsLink(Linked(m, p, l + 1), p, l + 1)
  {
    assert TableFor(m.mem, p, l).None?;
    LinkedInv(m, p, l + 1);
    LinkedTables(m, p, l + 1, p, l);
    LacksEntry(Linked(m, p, l + 1), p, l);
  }

  lemma LacksEntry(m: Machine, p: Path, l: Level)
    requires l < 3 && TableFor(m.mem, p, l + 1).Some? && TableFor(m.mem, p, l).None?
    ensures NeedsLink(m, p, l + 1)
  {}

  lemma CountAfterTables(m: Machine, p: Path, l: Level)
    requires Inv(m) && Missing(m.mem, p, l) <= FreeBelow(m.used, Frames(m))
    ensures FreeBelow(Linked(m, p, l).used, Frames(m)) == FreeBelow(m.used, Frames(m)) - Missing(m.mem, p, l)
  {
    LinkedInv(m, p, l);
    AfterTables(m, Missing(m.mem, p, l), Frames(m));
  }

  /** The frame budget is exact: memory_map keeps the invariant if and only if guest memory has a
      free frame for every table the address lacks. */
  lemma FrameBudgetExactly(m: Machine, va: nat, pa: nat)
    requires Inv(m) && FrameOf(pa) < NB_PAGE
    ensures Inv(MapPage(m, va, pa)) <==> Missing(m.mem, Split(va), 0) <= FreeBelow(m.used, Frames(m))
  {
    if Missing(m.mem, Split(va), 0) <= FreeBelow(m.used, Frames(m)) {
      MapPageKeepsInv(m, va, pa);
    } else {
      var before, after := Linked(m, Split(va), 0), MapPage(m, va, pa);
      LinkedOverflows(m, Split(va), 0);
      var k: Level :| 0 <= k && AtBadTable(before.mem, Split(va), k);
      SetLeafKeepsTables(before, va, pa, Split(va), k);
      assert AtBadTable(after.mem, Split(va), k);
      assert !TableHeld(after, Split(va), k);
    }
  }
}
