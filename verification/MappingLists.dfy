/** Lists of mappings, as create_stack and the loader make them: a budget that can be read off
    before the first call, and what the whole list leaves behind. */
module MappingLists {
  import opened Words
  import opened FrameAllocator
  import opened PageTables
  import opened Mapping
  import opened MemoryMap

  /** One memory_map call with a physical target of its own, not one taken from the allocator. */
  datatype Raw = Raw(va: nat, pa: nat)
  type Request = r: Raw | FrameOf(r.pa) < NB_PAGE && (r.pa != 0 || r.va == 0) witness Raw(0, 0)

  function Target(r: Request): nat { if r.va == 0 then 0 else FrameOf(r.pa) }

  function MapAll(m: Machine, rs: seq<Request>): (r: Machine)
    ensures |r.mem| == |m.mem|
    decreases |rs|
  {
    if rs == [] then m else MapAll(MapPage(m, rs[0].va, rs[0].pa), rs[1..])
  }

  ghost predicate AllFit(m: Machine, rs: seq<Request>)
    decreases |rs|
  {
    rs == [] || (Fits(m, rs[0].va, rs[0].pa) && AllFit(MapPage(m, rs[0].va, rs[0].pa), rs[1..]))
  }

  lemma {:induction false} MapAllKeepsInv(m: Machine, rs: seq<Request>)
    requires Inv(m) && AllFit(m, rs)
    ensures Inv(MapAll(m, rs))
    decreases |rs|
  {
    if rs != [] {
      MapPageKeepsInv(m, rs[0].va, rs[0].pa);
      MapAllKeepsInv(MapPage(m, rs[0].va, rs[0].pa), rs[1..]);
    }
  }

  /** The target the list gives to a page: that of the first request for it. */
  function TargetIn(rs: seq<Request>, q: Path): Option<nat> {
    if rs == [] then None
    else if Split(rs[0].va) == q then Some(Target(rs[0]))
    else TargetIn(rs[1..], q)
  }

  /** After the list, a page that was mapped is mapped as before, a page it names is mapped to the
      target named first, and every other page is still unmapped. */
  lemma {:induction false} MapAllFrames(m: Machine, rs: seq<Request>, q: Path)
    requires Inv(m) && AllFit(m, rs)
    ensures MappedFrame(MapAll(m, rs).mem, q) ==
            if MappedFrame(m.mem, q).Some? then MappedFrame(m.mem, q) else TargetIn(rs, q)
    decreases |rs|
  {
    if rs != [] {
      MapPageKeepsInv(m, rs[0].va, rs[0].pa);
      MapPageFrames(m, rs[0].va, rs[0].pa, q);
      MapAllFrames(MapPage(m, rs[0].va, rs[0].pa), rs[1..], q);
    }
  }

  // ---- the budget ----

  /** The place of a table in the tree: its level, and the indices above it. */
  datatype Slot = Slot(level: Level, path: Path)

  function SlotOf(p: Path, l: Level): Slot {
    Slot(l, Path(if l < 3 then p.pgd else 0, if l < 2 then p.pud else 0, if l < 1 then p.pmd else 0, 0))
  }

  lemma SlotIffSameAbove(p: Path, q: Path, l: Level)
    ensures SlotOf(p, l) == SlotOf(q, l) <==> SameAbove(p, q, l)
  {
    assert SameAbove(p, q, 2) <==> p.pgd == q.pgd;
    assert SameAbove(p, q, 1) <==> SameAbove(p, q, 2) && p.pud == q.pud;
  }

  /** The tables an address lacks. */
  function MissingSlots(mem: seq<byte>, p: Path): set<Slot> {
    (if TableFor(mem, p, 2).None? then {SlotOf(p, 2)} else {}) +
    (if TableFor(mem, p, 1).None? then {SlotOf(p, 1)} else {}) +
    (if TableFor(mem, p, 0).None? then {SlotOf(p, 0)} else {})
  }

  lemma MissingSlotsCount(mem: seq<byte>, p: Path)
    ensures |MissingSlots(mem, p)| == Missing(mem, p, 0)
  {
    assert Missing(mem, p, 1) == Missing(mem, p, 2) + if TableFor(mem, p, 1).None? then 1 else 0;
    assert Missing(mem, p, 2) == if TableFor(mem, p, 2).None? then 1 else 0;
    assert SlotOf(p, 2).level == 2 && SlotOf(p, 1).level == 1 && SlotOf(p, 0).level == 0;
  }

  /** The tables the pages of a list lack, each once. */
  function NewTables(mem: seq<byte>, rs: seq<Request>): set<Slot> {
    if rs == [] then {} else MissingSlots(mem, Split(rs[0].va)) + NewTables(mem, rs[1..])
  }

  /** How many targets of the list lie below a limit. */
  function TargetsBelow(rs: seq<Request>, limit: nat): nat {
    if rs == [] then 0 else (if Target(rs[0]) < limit then 1 else 0) + TargetsBelow(rs[1..], limit)
  }

  /** Free frames below the limit: one for every new table, and one for each target that may itself be
      reserved there. */
  ghost predicate Room(m: Machine, rs: seq<Request>, limit: nat) {
    && limit <= Frames(m)
    && |NewTables(m.mem, rs)| + TargetsBelow(rs, limit) <= FreeBelow(m.used, limit)
  }

  lemma InMissing(mem: seq<byte>, q: Path, x: Slot)
    ensures x in MissingSlots(mem, q) <==> x.level < 3 && x == SlotOf(q, x.level) && TableFor(mem, q, x.level).None?
  {
    assert SlotOf(q, 2).level == 2 && SlotOf(q, 1).level == 1 && SlotOf(q, 0).level == 0;
  }

  /** One mapping settles the tables its page lacked, and no other. */
  lemma SlotsAfter(m: Machine, va: nat, pa: nat, q: Path)
    requires Inv(m) && Fits(m, va, pa)
    ensures MissingSlots(MapPage(m, va, pa).mem, q) == MissingSlots(m.mem, q) - MissingSlots(m.mem, Split(va))
  {
    var m' := MapPage(m, va, pa);
    forall x
      ensures x in MissingSlots(m'.mem, q) <==> x in MissingSlots(m.mem, q) && x !in MissingSlots(m.mem, Split(va))
    {
      InMissing(m'.mem, q, x);
      InMissing(m.mem, q, x);
      InMissing(m.mem, Split(va), x);
      if x.level < 3 { SlotAfter(m, va, pa, q, x.level); }
    }
  }

  lemma SlotAfter(m: Machine, va: nat, pa: nat, q: Path, l: Level)
    requires Inv(m) && Fits(m, va, pa) && l < 3
    ensures TableFor(MapPage(m, va, pa).mem, q, l).None? <==>
            TableFor(m.mem, q, l).None? && !(SlotOf(q, l) == SlotOf(Split(va), l) &&
                TableFor(m.mem, Split(va), l).None?)
  {
    MapPageTableFor(m, va, pa, q, l);
    SlotIffSameAbove(Split(va), q, l);
    if SameAbove(Split(va), q, l) { SameTable(m.mem, Split(va), q, l); }
  }

  lemma {:induction false} NewTablesAfter(m: Machine, va: nat, pa: nat, rs: seq<Request>)
    requires Inv(m) && Fits(m, va, pa)
    ensures NewTables(MapPage(m, va, pa).mem, rs) == NewTables(m.mem, rs) - MissingSlots(m.mem, Split(va))
    decreases |rs|
  {
    if rs != [] {
      SlotsAfter(m, va, pa, Split(rs[0].va));
      NewTablesAfter(m, va, pa, rs[1..]);
    }
  }

  /** Each table a list needs is counted where it is made. */
  lemma NewTablesCount(m: Machine, rs: seq<Request>)
    requires rs != [] && Inv(m) && Fits(m, rs[0].va, rs[0].pa)
    ensures |NewTables(m.mem, rs)| ==
            Missing(m.mem, Split(rs[0].va), 0) + |NewTables(MapPage(m, rs[0].va, rs[0].pa).mem, rs[1..])|
  {
    NewTablesAfter(m, rs[0].va, rs[0].pa, rs[1..]);
    MissingSlotsCount(m.mem, Split(rs[0].va));
    UnionSize(MissingSlots(m.mem, Split(rs[0].va)), NewTables(m.mem, rs[1..]));
  }

  lemma {:induction false} SameNewTables(mem: seq<byte>, mem': seq<byte>, rs: seq<Request>)
    requires forall q, l :: TableFor(mem', q, l) == TableFor(mem, q, l)
    ensures NewTables(mem', rs) == NewTables(mem, rs)
    decreases |rs|
  {
    if rs != [] { SameNewTables(mem, mem', rs[1..]); }
  }

  lemma FirstIsCounted(mem: seq<byte>, rs: seq<Request>)
    requires rs != []
    ensures Missing(mem, Split(rs[0].va), 0) <= |NewTables(mem, rs)|
  {
    MissingSlotsCount(mem, Split(rs[0].va));
    SubsetSize(MissingSlots(mem, Split(rs[0].va)), NewTables(mem, rs));
  }

  lemma RoomFitsFirst(m: Machine, rs: seq<Request>, limit: nat)
    requires rs != [] && Room(m, rs, limit)
    ensures Fits(m, rs[0].va, rs[0].pa)
  {
    FreeBelowMonotone(m.used, limit, Frames(m));
    FirstIsCounted(m.mem, rs);
  }

  lemma RoomStays(m: Machine, rs: seq<Request>, limit: nat)
    requires rs != [] && Inv(m) && Room(m, rs, limit)
    ensures Fits(m, rs[0].va, rs[0].pa)
    ensures Room(MapPage(m, rs[0].va, rs[0].pa), rs[1..], limit)
  {
    RoomFitsFirst(m, rs, limit);
    NewTablesCount(m, rs);
    MapPageCount(m, rs[0].va, rs[0].pa, limit);
  }

  /** Room for the list at its start is room for every call in it. */
  lemma {:induction false} RoomIsEnough(m: Machine, rs: seq<Request>, limit: nat)
    requires Inv(m) && Room(m, rs, limit)
    ensures AllFit(m, rs)
    decreases |rs|
  {
    if rs != [] {
      RoomStays(m, rs, limit);
      MapPageKeepsInv(m, rs[0].va, rs[0].pa);
      RoomIsEnough(MapPage(m, rs[0].va, rs[0].pa), rs[1..], limit);
    }
  }

  /** No target of the list is a frame the allocator may hand out inside guest memory. */
  ghost predicate TargetsHeld(m: Machine, rs: seq<Request>) {
    forall r :: r in rs ==> Held(m, Target(r)) || Target(r) >= Frames(m)
  }

  lemma TargetsHeldStays(m: Machine, rs: seq<Request>)
    requires rs != [] && Inv(m) && Fits(m, rs[0].va, rs[0].pa) && TargetsHeld(m, rs)
    ensures TargetsHeld(MapPage(m, rs[0].va, rs[0].pa), rs[1..])
  {
    forall r | r in rs[1..]
      ensures Held(MapPage(m, rs[0].va, rs[0].pa), Target(r)) || Target(r) >= Frames(m)
    {
      assert r in rs;
      if Target(r) < NB_PAGE { MapPageMarks(m, rs[0].va, rs[0].pa, Target(r)); }
    }
  }

  /** The budget is exact: where no target takes a frame of its own, every call of a list fits if and
      only if there is a free frame for each table its pages lack. */
  lemma {:induction false} AllFitExactly(m: Machine, rs: seq<Request>)
    requires Inv(m) && TargetsHeld(m, rs)
    ensures AllFit(m, rs) <==> |NewTables(m.mem, rs)| <= FreeBelow(m.used, Frames(m))
    decreases |rs|
  {
    if rs != [] {
      var r := rs[0];
      FirstIsCounted(m.mem, rs);
      if Fits(m, r.va, r.pa) {
        assert r in rs;
        NewTablesCount(m, rs);
        MapPageCount(m, r.va, r.pa, Frames(m));
        MapPageKeepsInv(m, r.va, r.pa);
        TargetsHeldStays(m, rs);
        AllFitExactly(MapPage(m, r.va, r.pa), rs[1..]);
      }
    }
  }

  /** The number of tables a list creates. */
  function TablesMade(m: Machine, rs: seq<Request>): nat
    decreases |rs|
  {
    if rs == [] then 0
    else Missing(m.mem, Split(rs[0].va), 0) + TablesMade(MapPage(m, rs[0].va, rs[0].pa), rs[1..])
  }

  /** A list creates each table its pages lack, once. */
  lemma {:induction false} TablesMadeExactly(m: Machine, rs: seq<Request>)
    requires Inv(m) && AllFit(m, rs)
    ensures TablesMade(m, rs) == |NewTables(m.mem, rs)|
    decreases |rs|
  {
    if rs != [] {
      MapPageKeepsInv(m, rs[0].va, rs[0].pa);
      NewTablesCount(m, rs);
      TablesMadeExactly(MapPage(m, rs[0].va, rs[0].pa), rs[1..]);
    }
  }

  /** The 2 MiB region of a page: its indices without the last. */
  function Region(p: Path): Path { p.(pte := 0) }

  /** The regions the list touches that have no last-level table yet. */
  function NewRegions(mem: seq<byte>, rs: seq<Request>): set<Path> {
    set i | 0 <= i < |rs| && TableFor(mem, Split(rs[i].va), 0).None? :: Region(Split(rs[i].va))
  }

  lemma RegionIffSameAbove(p: Path, q: Path)
    ensures Region(p) == Region(q) <==> SameAbove(p, q, 0)
  {
    SlotIffSameAbove(p, q, 0);
  }

  lemma NewRegionsFirst(mem: seq<byte>, rs: seq<Request>)
    requires rs != []
    ensures NewRegions(mem, rs) ==
            NewRegions(mem, rs[1..]) + (if TableFor(mem, Split(rs[0].va), 0).None? then {Region(Split(rs[0].va))}
                else {})
  {
    forall x | x in NewRegions(mem, rs)
      ensures x in NewRegions(mem, rs[1..]) || (TableFor(mem, Split(rs[0].va), 0).None? && x == Region(Split(rs[0].va)))
    {
      var i :| 0 <= i < |rs| && TableFor(mem, Split(rs[i].va), 0).None? && x == Region(Split(rs[i].va));
      if i > 0 { assert rs[1..][i - 1] == rs[i]; }
    }
    forall x | x in NewRegions(mem, rs[1..]) ensures x in NewRegions(mem, rs) {
      var i :| 0 <= i < |rs[1..]| && TableFor(mem, Split(rs[1..][i].va), 0).None? && x == Region(Split(rs[1..][i].va));
      assert rs[1..][i] == rs[i + 1];
    }
  }

  /** Pages of one region lack the same tables. */
  lemma SameRegionSlots(mem: seq<byte>, p: Path, q: Path)
    requires Region(p) == Region(q)
    ensures MissingSlots(mem, p) == MissingSlots(mem, q)
  {
    RegionIffSameAbove(p, q);
    SlotIffSameAbove(p, q, 0);
    SlotIffSameAbove(p, q, 1);
    SlotIffSameAbove(p, q, 2);
    assert SameAbove(p, q, 1) && SameAbove(p, q, 2);
    SameTable(mem, p, q, 0);
    SameTable(mem, p, q, 1);
    SameTable(mem, p, q, 2);
  }

  lemma {:induction false} RegionSlotsIn(mem: seq<byte>, rs: seq<Request>, p: Path)
    requires Region(p) in NewRegions(mem, rs)
    ensures MissingSlots(mem, p) <= NewTables(mem, rs)
    decreases |rs|
  {
    NewRegionsFirst(mem, rs);
    if Region(p) == Region(Split(rs[0].va)) {
      SameRegionSlots(mem, p, Split(rs[0].va));
    } else {
      RegionSlotsIn(mem, rs[1..], p);
    }
  }

  /** The first request opens a region that no later one does. */
  predicate OpensRegion(mem: seq<byte>, rs: seq<Request>)
    requires rs != []
  {
    TableFor(mem, Split(rs[0].va), 0).None? && Region(Split(rs[0].va)) !in NewRegions(mem, rs[1..])
  }

  lemma NewRegionsSize(mem: seq<byte>, rs: seq<Request>)
    requires rs != []
    ensures |NewRegions(mem, rs)| == |NewRegions(mem, rs[1..])| + if OpensRegion(mem, rs) then 1 else 0
  {
    var r := Region(Split(rs[0].va));
    NewRegionsFirst(mem, rs);
    if r in NewRegions(mem, rs[1..]) { assert NewRegions(mem, rs) == NewRegions(mem, rs[1..]); }
  }

  lemma NewTablesSize(mem: seq<byte>, rs: seq<Request>)
    requires rs != []
    ensures |NewTables(mem, rs)| <= |NewTables(mem, rs[1..])| + if OpensRegion(mem, rs) then 3 else 0
  {
    var p := Split(rs[0].va);
    var slots, rest := MissingSlots(mem, p), NewTables(mem, rs[1..]);
    if OpensRegion(mem, rs) {
      MissingSlotsCount(mem, p);
      UnionSize(slots, rest);
      SubsetSize(rest - slots, rest);
    } else {
      if TableFor(mem, p, 0).Some? { NothingMissing(mem, p); } else { RegionSlotsIn(mem, rs[1..], p); }
      assert slots + rest == rest;
    }
  }

  /** At most three tables for each 2 MiB region that had none, however many pages are mapped. */
  lemma {:induction false} ThreeTablesPerRegion(mem: seq<byte>, rs: seq<Request>)
    ensures |NewTables(mem, rs)| <= 3 * |NewRegions(mem, rs)|
    decreases |rs|
  {
    if rs != [] {
      ThreeTablesPerRegion(mem, rs[1..]);
      NewTablesSize(mem, rs);
      NewRegionsSize(mem, rs);
    }
  }

  lemma NothingMissing(mem: seq<byte>, p: Path)
    requires TableFor(mem, p, 0).Some?
    ensures MissingSlots(mem, p) == {}
  {
    LinkedNothing(Machine(mem, seq(NB_PAGE, _ => false)), p, 0);
    MissingSlotsCount(mem, p);
  }

  // ---- tables below, data above ----

  /** Every target lies at or above the limit and is not a table. */
  ghost predicate TargetsClear(mem: seq<byte>, rs: seq<Request>, limit: nat) {
    forall r :: r in rs ==> limit <= Target(r) && !IsTable(mem, Target(r))
  }

  lemma TablesStayLow(m: Machine, rs: seq<Request>, limit: nat, t: nat)
    requires rs != [] && Inv(m) && Room(m, rs, limit)
    ensures IsTable(MapPage(m, rs[0].va, rs[0].pa).mem, t) ==> IsTable(m.mem, t) || (t < limit && 2 <= t && !m.used[t])
  {
    RoomStays(m, rs, limit);
    FirstIsCounted(m.mem, rs);
    MapPageTables(m, rs[0].va, rs[0].pa, t);
    if 2 <= t < NB_PAGE && t >= limit { FreeBelowMonotone(m.used, limit, t); }
  }

  lemma ClearStays(m: Machine, rs: seq<Request>, limit: nat)
    requires rs != [] && Inv(m) && Room(m, rs, limit) && TargetsClear(m.mem, rs, limit)
    ensures TargetsClear(MapPage(m, rs[0].va, rs[0].pa).mem, rs[1..], limit)
  {
    forall r | r in rs[1..] ensures limit <= Target(r) && !IsTable(MapPage(m, rs[0].va, rs[0].pa).mem, Target(r)) {
      assert r in rs;
      TablesStayLow(m, rs, limit, Target(r));
    }
  }

  lemma SeparatedStays(m: Machine, rs: seq<Request>, limit: nat)
    requires rs != [] && Inv(m) && Room(m, rs, limit) && TargetsClear(m.mem, rs, limit) && Separated(m.mem)
    ensures Separated(MapPage(m, rs[0].va, rs[0].pa).mem)
  {
    var va, pa := rs[0].va, rs[0].pa;
    RoomStays(m, rs, limit);
    TablesStayLow(m, rs, limit, Target(rs[0]));
    assert rs[0] in rs;
    forall q ensures NotATable(MapPage(m, va, pa).mem, q) { StaysSeparated(m, va, pa, q); }
  }

  /** A list whose tables all fit below its targets keeps tables and data apart. */
  lemma {:induction false} MapAllSeparated(m: Machine, rs: seq<Request>, limit: nat)
    requires Inv(m) && Room(m, rs, limit) && TargetsClear(m.mem, rs, limit) && Separated(m.mem)
    ensures Separated(MapAll(m, rs).mem)
    decreases |rs|
  {
    if rs != [] {
      RoomStays(m, rs, limit);
      MapPageKeepsInv(m, rs[0].va, rs[0].pa);
      ClearStays(m, rs, limit);
      SeparatedStays(m, rs, limit);
      MapAllSeparated(MapPage(m, rs[0].va, rs[0].pa), rs[1..], limit);
    }
  }
}
