/** memory_map: what one call does to translations, tables and the allocator. */
module MemoryMap {
  import opened Words
  import opened FrameAllocator
  import opened PageTables
  import opened Mapping

  /** The last step of memory_map, once every table exists. A frame past the end of the flags is not
      something the code may reserve; Fits and TablesFit leave it out. */
  function SetLeaf(m: Machine, va: nat, pa: nat): (r: Machine)
    ensures |r.mem| == |m.mem|
  {
    var p := Split(va);
    match TableFor(m.mem, p, 0)
    case None => m
    case Some(t) =>
      if Present(Entry(m.mem, t, p.pte)) then m else
        var (target, used) :=
          if va == 0 then (0, m.used)
          else if pa == 0 then (PAGE_SIZE * Allocate(m.used).0, Allocate(m.used).1)
          else (pa, if FrameOf(pa) < NB_PAGE then Reserve(m.used, FrameOf(pa)) else m.used);
        Machine(Put(m.mem, t, p.pte, WithFlags(target)), used)
  }

  /** memory_map(mem, va, pa) */
  function MapPage(m: Machine, va: nat, pa: nat): (r: Machine)
    ensures |r.mem| == |m.mem|
  {
    SetLeaf(Linked(m, Split(va), 0), va, pa)
  }

  /** The frames one call takes from the allocator. */
  function Needs(m: Machine, va: nat, pa: nat): (n: nat)
    ensures n <= 4
  {
    Missing(m.mem, Split(va), 0) + if Leaf(m.mem, Split(va)).None? && va != 0 && pa == 0 then 1 else 0
  }

  /** Enough free frames inside guest memory for one call, and a target the flags array covers. */
  ghost predicate Fits(m: Machine, va: nat, pa: nat) {
    FrameOf(pa) < NB_PAGE && Needs(m, va, pa) <= FreeBelow(m.used, Frames(m))
  }

  /** Enough free frames for the tables the address lacks. */
  ghost predicate TablesFit(m: Machine, va: nat, pa: nat) {
    FrameOf(pa) < NB_PAGE && Missing(m.mem, Split(va), 0) <= FreeBelow(m.used, Frames(m))
  }

  /** The frame the page of va is mapped to. */
  function TargetFrame(m: Machine, va: nat, pa: nat): nat {
    if va == 0 then 0
    else if pa == 0 then Allocate(TakeN(m.used, Missing(m.mem, Split(va), 0))).0
    else FrameOf(pa)
  }

  lemma SplitPage(p: Path, q: Path)
    requires SameAbove(p, q, 0) && p.pte == q.pte
    ensures p == q
  {
    assert SameAbove(p, q, 1) && SameAbove(p, q, 2);
    assert p.At(1) == q.At(1) && p.At(2) == q.At(2) && p.At(3) == q.At(3);
  }

  // ---- the last step on its own ----

  ghost predicate NeedsLeaf(m: Machine, va: nat, pa: nat) {
    && TableFor(m.mem, Split(va), 0).Some?
    && Leaf(m.mem, Split(va)).None?
    && FrameOf(pa) < NB_PAGE
  }

  /** The entry SetLeaf stores. */
  function NewLeaf(m: Machine, va: nat, pa: nat): nat {
    WithFlags(if va == 0 then 0 else if pa == 0 then PAGE_SIZE * Allocate(m.used).0 else pa)
  }

  lemma NewLeafEntry(m: Machine, va: nat, pa: nat, u: nat, j: Index)
    requires Inv(m) && NeedsLeaf(m, va, pa)
    ensures var t := TableFor(m.mem, Split(va), 0).value;
            Entry(SetLeaf(m, va, pa).mem, u, j) ==
            if u == t && j == Split(va).pte then NewLeaf(m, va, pa) else Entry(m.mem, u, j)
    ensures Present(NewLeaf(m, va, pa))
    ensures FrameOf(NewLeaf(m, va, pa)) == if va == 0 then 0 else if pa == 0 then Allocate(m.used).0 else FrameOf(pa)
  {
    var t := TableFor(m.mem, Split(va), 0).value;
    var target := if va == 0 then 0 else if pa == 0 then PAGE_SIZE * Allocate(m.used).0 else pa;
    FlagsOf(target);
    assert target < WORD_LIMIT;
    assert TableHeld(m, Split(va), 0);
    EntryAfterPut(m.mem, t, Split(va).pte, NewLeaf(m, va, pa), u, j);
  }

  lemma SetLeafChild(m: Machine, va: nat, pa: nat, table: Option<nat>, j: Index)
    requires Inv(m) && NeedsLeaf(m, va, pa) && table != TableFor(m.mem, Split(va), 0)
    ensures Child(SetLeaf(m, va, pa).mem, table, j) == Child(m.mem, table, j)
  {
    if table.Some? { NewLeafEntry(m, va, pa, table.value, j); }
  }

  lemma {:induction false} SetLeafTables(m: Machine, va: nat, pa: nat, q: Path, k: Level)
    requires Inv(m) && NeedsLeaf(m, va, pa)
    ensures TableFor(SetLeaf(m, va, pa).mem, q, k) == TableFor(m.mem, q, k)
    decreases 3 - k
  {
    if k < 3 {
      SetLeafTables(m, va, pa, q, k + 1);
      assert OneParent(m.mem, Split(va), 0, q, k + 1);
      SetLeafChild(m, va, pa, TableFor(m.mem, q, k + 1), q.At(k + 1));
    }
  }

  lemma SetLeafLeaves(m: Machine, va: nat, pa: nat, q: Path)
    requires Inv(m) && NeedsLeaf(m, va, pa)
    ensures Leaf(SetLeaf(m, va, pa).mem, q) == if q == Split(va) then Some(NewLeaf(m, va, pa)) else Leaf(m.mem, q)
  {
    var p := Split(va);
    SetLeafTables(m, va, pa, q, 0);
    assert OneParent(m.mem, p, 0, q, 0);
    var last := TableFor(m.mem, q, 0);
    if last.Some? {
      NewLeafEntry(m, va, pa, last.value, q.pte);
      if last == TableFor(m.mem, p, 0) && q.pte == p.pte { SplitPage(p, q); }
    }
  }

  lemma SetLeafKeepsInv(m: Machine, va: nat, pa: nat)
    requires Inv(m) && NeedsLeaf(m, va, pa)
    ensures Inv(SetLeaf(m, va, pa))
  {
    var m', p := SetLeaf(m, va, pa), Split(va);
    var t := TableFor(m.mem, p, 0).value;
    assert TableHeld(m, p, 0);
    forall q, k ensures TableHeld(m', q, k) {
      SetLeafTables(m, va, pa, q, k);
      assert TableHeld(m, q, k);
    }
    forall q, k, q', k' ensures OneParent(m'.mem, q, k, q', k') {
      SetLeafTables(m, va, pa, q, k);
      SetLeafTables(m, va, pa, q', k');
      assert OneParent(m.mem, q, k, q', k');
    }
    forall f | 2 <= f < NB_PAGE && !m'.used[f] ensures ZeroFrame(m'.mem, f) {
      assert ZeroFrame(m.mem, f);
      PutElsewhere(m.mem, t, p.pte, NewLeaf(m, va, pa), f);
    }
    forall q ensures LeafHeld(m', q) { SetLeafHolds(m, va, pa, q); }
  }

  lemma SetLeafHolds(m: Machine, va: nat, pa: nat, q: Path)
    requires Inv(m) && NeedsLeaf(m, va, pa)
    ensures LeafHeld(SetLeaf(m, va, pa), q)
  {
    SetLeafLeaves(m, va, pa, q);
    NewLeafEntry(m, va, pa, 0, 0);
    assert LeafHeld(m, q);
  }

  // ---- one whole call ----

  lemma {:induction false} LinkedNothing(m: Machine, p: Path, l: Level)
    requires TableFor(m.mem, p, l).Some?
    ensures Linked(m, p, l) == m && Missing(m.mem, p, l) == 0
    decreases 3 - l
  {
    if l < 3 { LinkedNothing(m, p, l + 1); }
  }

  /** On a page that is already mapped, memory and allocator are left alone. */
  lemma MappedPageUnchanged(m: Machine, va: nat, pa: nat)
    requires Leaf(m.mem, Split(va)).Some?
    ensures MapPage(m, va, pa) == m && Needs(m, va, pa) == 0
  {
    LinkedNothing(m, Split(va), 0);
  }

  /** The state before the last step of a call on an unmapped page. */
  lemma BeforeLeaf(m: Machine, va: nat, pa: nat)
    requires Inv(m) && TablesFit(m, va, pa) && Leaf(m.mem, Split(va)).None?
    ensures var before := Linked(m, Split(va), 0);
            && Inv(before) && NeedsLeaf(before, va, pa)
            && before.used == TakeN(m.used, Missing(m.mem, Split(va), 0))
            && FrameOf(NewLeaf(before, va, pa)) == TargetFrame(m, va, pa)
  {
    var p := Split(va);
    LinkedInv(m, p, 0);
    LinkedLeaves(m, p, 0, p);
    NewLeafEntry(Linked(m, p, 0), va, pa, 0, 0);
  }

  /** One call keeps the invariant. With no frame left for the target itself, the page is mapped to
      frame 0, as the code does. */
  lemma MapPageKeepsInv(m: Machine, va: nat, pa: nat)
    requires Inv(m) && TablesFit(m, va, pa)
    ensures Inv(MapPage(m, va, pa))
  {
    if Leaf(m.mem, Split(va)).Some? {
      MappedPageUnchanged(m, va, pa);
    } else {
      BeforeLeaf(m, va, pa);
      SetLeafKeepsInv(Linked(m, Split(va), 0), va, pa);
    }
  }

  /** One call maps the page of va to the target frame and changes no other page. */
  lemma MapPageFrames(m: Machine, va: nat, pa: nat, q: Path)
    requires Inv(m) && TablesFit(m, va, pa)
    ensures MappedFrame(MapPage(m, va, pa).mem, q) ==
            if q == Split(va) && MappedFrame(m.mem, q).None? then Some(TargetFrame(m, va, pa))
            else MappedFrame(m.mem, q)
  {
    if Leaf(m.mem, Split(va)).Some? {
      MappedPageUnchanged(m, va, pa);
    } else {
      BeforeLeaf(m, va, pa);
      SetLeafLeaves(Linked(m, Split(va), 0), va, pa, q);
      LinkedLeaves(m, Split(va), 0, q);
    }
  }

  /** The same, told by gva_to_gpa: every address of the page now goes to the target frame at the
      same offset; every address that differs in bits 12 to 47 goes where it went before. */
  lemma MapPageWalk(m: Machine, va: nat, pa: nat, a: nat)
    requires Inv(m) && TablesFit(m, va, pa)
    ensures var samePage := (a / PAGE_SIZE) % 0x10_0000_0000 == (va / PAGE_SIZE) % 0x10_0000_0000;
            Walk(MapPage(m, va, pa).mem, a) ==
            if samePage && MappedFrame(m.mem, Split(va)).None? then TargetFrame(m, va, pa) * PAGE_SIZE + a % PAGE_SIZE
            else Walk(m.mem, a)
  {
    MapPageFrames(m, va, pa, Split(a));
    SamePageIffSamePath(a, va);
    WalkIsFrame(m.mem, a);
    WalkIsFrame(MapPage(m, va, pa).mem, a);
  }

  lemma WalkIsFrame(mem: seq<byte>, a: nat)
    ensures Walk(mem, a) ==
            match MappedFrame(mem, Split(a)) case None => 0 case Some(f) => f * PAGE_SIZE + a % PAGE_SIZE
  {}

  /** The tables after a call: the old ones and the frames handed out for missing ones. */
  lemma MapPageTables(m: Machine, va: nat, pa: nat, t: nat)
    requires Inv(m) && TablesFit(m, va, pa)
    ensures IsTable(MapPage(m, va, pa).mem, t) <==>
            IsTable(m.mem, t) || HandedOut(m.used, Missing(m.mem, Split(va), 0), t)
  {
    if Leaf(m.mem, Split(va)).Some? {
      MappedPageUnchanged(m, va, pa);
    } else {
      BeforeLeaf(m, va, pa);
      var before := Linked(m, Split(va), 0);
      LinkedNewTables(m, Split(va), 0, t);
      forall q, k ensures Reaches(SetLeaf(before, va, pa).mem, q, k, t) <==> Reaches(before.mem, q, k, t) {
        SetLeafTables(before, va, pa, q, k);
      }
    }
  }

  /** The table of q at level k after the call. */
  lemma MapPageTableFor(m: Machine, va: nat, pa: nat, q: Path, k: Level)
    requires Inv(m) && TablesFit(m, va, pa)
    ensures SameAbove(Split(va), q, k) ==> TableFor(MapPage(m, va, pa).mem, q, k).Some?
    ensures TableFor(m.mem, q, k).Some? || !SameAbove(Split(va), q, k) ==>
            TableFor(MapPage(m, va, pa).mem, q, k) == TableFor(m.mem, q, k)
  {
    if Leaf(m.mem, Split(va)).Some? {
      MappedPageUnchanged(m, va, pa);
      LinkedTables(m, Split(va), 0, q, k);
      LinkedNothing(m, Split(va), 0);
    } else {
      BeforeLeaf(m, va, pa);
      LinkedTables(m, Split(va), 0, q, k);
      SetLeafTables(Linked(m, Split(va), 0), va, pa, q, k);
    }
  }

  /** The frames marked after a call: the old ones, those handed out for tables, and the target. */
  lemma MapPageMarks(m: Machine, va: nat, pa: nat, f: nat)
    requires Inv(m) && TablesFit(m, va, pa) && f < NB_PAGE
    ensures MapPage(m, va, pa).used[f] <==>
            || m.used[f]
            || HandedOut(m.used, Missing(m.mem, Split(va), 0), f)
            || (MappedFrame(m.mem, Split(va)).None? && va != 0 && f == TargetFrame(m, va, pa) && (pa != 0 || f != 0))
  {
    if Leaf(m.mem, Split(va)).Some? {
      MappedPageUnchanged(m, va, pa);
    } else {
      BeforeLeaf(m, va, pa);
      FreeBelowMonotone(m.used, Frames(m), NB_PAGE);
      TakeNMarks(m.used, Missing(m.mem, Split(va), 0), f);
    }
  }

  /** The call marks the target frame, and it was free until then. */
  ghost predicate TakesTarget(m: Machine, va: nat, pa: nat) {
    var target := TargetFrame(m, va, pa);
    && MappedFrame(m.mem, Split(va)).None? && va != 0
    && target < NB_PAGE && !m.used[target] && !HandedOut(m.used, Missing(m.mem, Split(va), 0), target)
  }

  /** ... and how many free frames that leaves below any limit: the tables come from the least
      free frames, and the target counts where it lies. */
  lemma MapPageCount(m: Machine, va: nat, pa: nat, limit: nat)
    requires Inv(m) && TablesFit(m, va, pa) && limit <= NB_PAGE
    ensures FreeBelow(MapPage(m, va, pa).used, limit) ==
            Minus(FreeBelow(m.used, limit), Missing(m.mem, Split(va), 0)) -
            (if TakesTarget(m, va, pa) && 2 <= TargetFrame(m, va, pa) < limit then 1 else 0)
  {
    if Leaf(m.mem, Split(va)).Some? {
      MappedPageUnchanged(m, va, pa);
      LinkedNothing(m, Split(va), 0);
    } else {
      BeforeLeaf(m, va, pa);
      var before := Linked(m, Split(va), 0);
      AfterTables(m, Missing(m.mem, Split(va), 0), limit);
      FreeBelowTake(before.used, TargetFrame(m, va, pa), limit);
    }
  }

  /** The flags once the n missing tables have their frames. */
  lemma AfterTables(m: Machine, n: nat, limit: nat)
    requires n <= FreeBelow(m.used, Frames(m)) && limit <= NB_PAGE
    ensures FreeBelow(TakeN(m.used, n), limit) == Minus(FreeBelow(m.used, limit), n)
    ensures FreeBelow(TakeN(m.used, n), Frames(m)) == FreeBelow(m.used, Frames(m)) - n
    ensures forall f :: 0 <= f < NB_PAGE ==> (TakeN(m.used, n)[f] <==> m.used[f] || HandedOut(m.used, n, f))
  {
    FreeBelowMonotone(m.used, Frames(m), NB_PAGE);
    TakeNCount(m.used, n, limit);
    TakeNCount(m.used, n, Frames(m));
    forall f | 0 <= f < NB_PAGE ensures TakeN(m.used, n)[f] <==> m.used[f] || HandedOut(m.used, n, f) {
      TakeNMarks(m.used, n, f);
    }
  }

  // ---- tables are never data ----

  ghost predicate NotATable(mem: seq<byte>, p: Path) {
    MappedFrame(mem, p).Some? ==> !IsTable(mem, MappedFrame(mem, p).value)
  }

  /** No address is mapped to the frame of a reachable table. */
  ghost predicate Separated(mem: seq<byte>) {
    forall p :: NotATable(mem, p)
  }

  /** A call keeps tables and data apart exactly when the target frame is neither a table
      already nor among the frames this call hands out for tables. */
  lemma SeparatedExactly(m: Machine, va: nat, pa: nat)
    requires Inv(m) && TablesFit(m, va, pa) && Separated(m.mem) && MappedFrame(m.mem, Split(va)).None?
    ensures Separated(MapPage(m, va, pa).mem) <==>
            && !IsTable(m.mem, TargetFrame(m, va, pa))
            && !HandedOut(m.used, Missing(m.mem, Split(va), 0), TargetFrame(m, va, pa))
  {
    var m', target := MapPage(m, va, pa), TargetFrame(m, va, pa);
    MapPageFrames(m, va, pa, Split(va));
    MapPageTables(m, va, pa, target);
    assert Separated(m'.mem) ==> NotATable(m'.mem, Split(va));
    if !IsTable(m'.mem, target) {
      forall q ensures NotATable(m'.mem, q) { StaysSeparated(m, va, pa, q); }
    }
  }

  lemma StaysSeparated(m: Machine, va: nat, pa: nat, q: Path)
    requires Inv(m) && TablesFit(m, va, pa) && Separated(m.mem)
    requires MappedFrame(m.mem, Split(va)).None? ==> !IsTable(MapPage(m, va, pa).mem, TargetFrame(m, va, pa))
    ensures NotATable(MapPage(m, va, pa).mem, q)
  {
    MapPageFrames(m, va, pa, q);
    assert NotATable(m.mem, q) && LeafHeld(m, q);
    if MappedFrame(m.mem, q).Some? { MapPageTables(m, va, pa, MappedFrame(m.mem, q).value); }
  }
}
