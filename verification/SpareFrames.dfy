/** Frames from a limit on. A call whose tables fit below the limit never allocates there, so it
    does not matter whether those frames are marked, nor what bytes they hold. */
module SpareFrames {
  import opened Words
  import opened FrameAllocator
  import opened PageTables
  import opened Mapping
  import opened MemoryMap
  import opened MappingLists
  import opened DataWrites

  function CapFlags(used: Flags, limit: nat): (r: Flags)
    ensures forall k :: 0 <= k < NB_PAGE ==> r[k] == (used[k] || k >= limit)
  {
    seq(NB_PAGE, k requires 0 <= k < NB_PAGE => used[k] || k >= limit)
  }

  /** The machine with every frame from the limit on marked. */
  function Capped(m: Machine, limit: nat): Machine {
    m.(used := CapFlags(m.used, limit))
  }

  // ---- the invariant below a limit ----

  /** The part of the invariant that is not about free frames. */
  ghost predicate Shape(m: Machine) {
    TablesHeld(m) && TablesFormTree(m.mem) && LeavesHeld(m)
  }

  /** Free frames below the limit are all zero. */
  ghost predicate ZeroBelow(m: Machine, limit: nat) {
    forall f :: 2 <= f < limit && f < NB_PAGE && !m.used[f] ==> ZeroFrame(m.mem, f)
  }

  lemma InvIsShape(m: Machine)
    ensures Inv(m) <==> Shape(m) && ZeroBelow(m, NB_PAGE)
  {}

  lemma ShapeCapped(m: Machine, limit: nat)
    requires Shape(m) && ZeroBelow(m, limit)
    ensures Inv(Capped(m, limit))
  {
    var c := Capped(m, limit);
    forall p, l ensures TableHeld(c, p, l) { assert TableHeld(m, p, l); }
    forall p ensures LeafHeld(c, p) { assert LeafHeld(m, p); }
    forall f | 2 <= f < NB_PAGE && !c.used[f] ensures ZeroFrame(c.mem, f) {}
  }

  // ---- allocation ----

  lemma {:induction false} FreeBelowCapped(used: Flags, limit: nat, n: nat)
    requires n <= NB_PAGE
    ensures FreeBelow(CapFlags(used, limit), n) == FreeBelow(used, if n <= limit then n else limit)
  {
    if n > 2 {
      FreeBelowCapped(used, limit, n - 1);
    } else {
      FreeBelowMonotone(used, if n <= limit then n else limit, n);
    }
  }

  lemma MarkCapped(used: Flags, limit: nat, f: nat)
    requires f < NB_PAGE
    ensures CapFlags(used[f := true], limit) == CapFlags(used, limit)[f := true]
  {}

  /** While there is a free frame below the limit, the frames above it make no difference. */
  lemma AllocateCapped(used: Flags, limit: nat)
    requires FreeBelow(CapFlags(used, limit), NB_PAGE) > 0
    ensures Allocate(CapFlags(used, limit)).0 == Allocate(used).0 && 2 <= Allocate(used).0 < limit
    ensures Allocate(CapFlags(used, limit)).1 == CapFlags(Allocate(used).1, limit)
  {
    AllocateBelow(CapFlags(used, limit), NB_PAGE);
    AllocateIsFirstFit(CapFlags(used, limit));
    AllocateIsFirstFit(used);
    MarkCapped(used, limit, Allocate(used).0);
  }

  // ---- memory_map ----

  lemma LinkCapped(m: Machine, p: Path, l: Level, limit: nat)
    requires NeedsLink(m, p, l) ==> FreeBelow(CapFlags(m.used, limit), NB_PAGE) > 0
    ensures Link(Capped(m, limit), p, l) == Capped(Link(m, p, l), limit)
    ensures forall f :: limit <= f < NB_PAGE ==> Link(m, p, l).used[f] == m.used[f]
  {
    if NeedsLink(m, p, l) { AllocateCapped(m.used, limit); }
  }

  lemma {:induction false} LinkedCapped(m: Machine, p: Path, l: Level, limit: nat)
    requires Inv(Capped(m, limit)) && Missing(m.mem, p, l) <= FreeBelow(CapFlags(m.used, limit), Frames(m))
    ensures Linked(Capped(m, limit), p, l) == Capped(Linked(m, p, l), limit)
    ensures forall f :: limit <= f < NB_PAGE ==> Linked(m, p, l).used[f] == m.used[f]
    decreases 3 - l
  {
    if l < 3 {
      LinkedCapped(m, p, l + 1, limit);
      FreeForNext(m, Linked(m, p, l + 1), p, l, limit);
      LinkCapped(Linked(m, p, l + 1), p, l + 1, limit);
    }
  }

  lemma FreeForNext(m: Machine, before: Machine, p: Path, l: Level, limit: nat)
    requires Inv(Capped(m, limit)) && Missing(m.mem, p, l) <= FreeBelow(CapFlags(m.used, limit), Frames(m)) && l < 3
    requires Linked(Capped(m, limit), p, l + 1) == Capped(before, limit)
    ensures NeedsLink(before, p, l + 1) ==> FreeBelow(CapFlags(before.used, limit), NB_PAGE) > 0
  {
    LinkedBefore(Capped(m, limit), p, l);
    FreeBelowMonotone(CapFlags(before.used, limit), Frames(m), NB_PAGE);
  }

  /** One level of the descent, as in Mapping.LinkedStep. */
  lemma LinkedStepCapped(m: Machine, p: Path, l: Level, limit: nat)
    requires Inv(Capped(m, limit)) && l < 3
    requires Missing(m.mem, p, 0) <= FreeBelow(CapFlags(m.used, limit), Frames(m))
    ensures var before, after := Linked(m, p, l + 1), Linked(m, p, l);
            && after == Link(before, p, l + 1)
            && TableFor(after.mem, p, l).Some?
            && PAGE_SIZE * TableFor(after.mem, p, l).value + PAGE_SIZE <= |m.mem|
            && (NeedsLink(before, p, l + 1) ==> TableFor(after.mem, p, l) == Some(Allocate(before.used).0))
  {
    var before := Linked(m, p, l + 1);
    MissingFromTop(m.mem, p, l);
    MissingFromTop(m.mem, p, l + 1);
    LinkedCapped(m, p, l, limit);
    LinkedCapped(m, p, l + 1, limit);
    LinkedStep(Capped(m, limit), p, l);
    FreeForNext(m, before, p, l, limit);
    if NeedsLink(before, p, l + 1) { AllocateCapped(before.used, limit); }
  }

  lemma SetLeafCapped(m: Machine, va: nat, pa: nat, limit: nat)
    requires FrameOf(pa) < NB_PAGE && TableFor(m.mem, Split(va), 0).Some?
    requires Leaf(m.mem, Split(va)).None? && va != 0 && pa == 0 ==> FreeBelow(CapFlags(m.used, limit), NB_PAGE) > 0
    ensures SetLeaf(Capped(m, limit), va, pa) == Capped(SetLeaf(m, va, pa), limit)
    ensures forall f :: limit <= f < NB_PAGE ==>
              (SetLeaf(m, va, pa).used[f] <==>
               m.used[f] || (Leaf(m.mem, Split(va)).None? && va != 0 && pa != 0 && f == FrameOf(pa)))
  {
    if Leaf(m.mem, Split(va)).None? {
      if va != 0 && pa == 0 { AllocateCapped(m.used, limit); }
      if pa != 0 { MarkCapped(m.used, limit, FrameOf(pa)); }
    }
  }

  /** A call whose frames fit below the limit does the same whatever is marked above it. */
  lemma MapPageCapped(m: Machine, va: nat, pa: nat, limit: nat)
    requires Inv(Capped(m, limit)) && Fits(Capped(m, limit), va, pa)
    ensures MapPage(Capped(m, limit), va, pa) == Capped(MapPage(m, va, pa), limit)
    ensures forall f :: limit <= f < NB_PAGE ==>
              (MapPage(m, va, pa).used[f] <==>
               m.used[f] || (MappedFrame(m.mem, Split(va)).None? && va != 0 && pa != 0 && f == FrameOf(pa)))
  {
    var c, before := Capped(m, limit), Linked(m, Split(va), 0);
    LinkedCapped(m, Split(va), 0, limit);
    LinkedInv(c, Split(va), 0);
    LinkedLeaves(c, Split(va), 0, Split(va));
    FreeBelowMonotone(c.used, Frames(m), NB_PAGE);
    TakeNCount(c.used, Missing(m.mem, Split(va), 0), NB_PAGE);
    SetLeafCapped(before, va, pa, limit);
  }

  /** Marks stay, above the limit and below. */
  lemma MapPageKeepsMarks(m: Machine, va: nat, pa: nat, limit: nat, f: nat)
    requires Inv(Capped(m, limit)) && Fits(Capped(m, limit), va, pa) && f < NB_PAGE && m.used[f]
    ensures MapPage(m, va, pa).used[f]
  {
    MapPageCapped(m, va, pa, limit);
    if f < limit { MapPageMarks(Capped(m, limit), va, pa, f); }
  }

  /** memory_map keeps the shape, and the free frames below the limit zero. */
  lemma MapPageKeepsShape(m: Machine, va: nat, pa: nat, limit: nat)
    requires Shape(m) && ZeroBelow(m, limit) && Fits(Capped(m, limit), va, pa)
    ensures Shape(MapPage(m, va, pa)) && ZeroBelow(MapPage(m, va, pa), limit)
  {
    var c, m' := Capped(m, limit), MapPage(m, va, pa);
    ShapeCapped(m, limit);
    MapPageCapped(m, va, pa, limit);
    MapPageKeepsInv(c, va, pa);
    assert m'.mem == Capped(m', limit).mem;
    forall q, k ensures TableHeld(m', q, k) { MapPageTableHeld(m, va, pa, limit, q, k); }
    forall q ensures LeafHeld(m', q) { MapPageLeafHeld(m, va, pa, limit, q); }
    forall f | 2 <= f < limit && f < NB_PAGE && !m'.used[f] ensures ZeroFrame(m'.mem, f) {}
  }

  lemma MapPageTableHeld(m: Machine, va: nat, pa: nat, limit: nat, q: Path, k: Level)
    requires Shape(m) && Inv(Capped(m, limit)) && Fits(Capped(m, limit), va, pa)
    ensures TableHeld(MapPage(m, va, pa), q, k)
  {
    var c, m' := Capped(m, limit), MapPage(m, va, pa);
    MapPageCapped(m, va, pa, limit);
    MapPageKeepsInv(c, va, pa);
    assert TableHeld(Capped(m', limit), q, k);
    if TableFor(m'.mem, q, k).Some? {
      var t := TableFor(m'.mem, q, k).value;
      assert Reaches(m'.mem, q, k, t);
      MapPageTables(c, va, pa, t);
      if IsTable(m.mem, t) {
        var p, l :| Reaches(m.mem, p, l, t);
        assert TableHeld(m, p, l);
        if t != CR3_FRAME { MapPageKeepsMarks(m, va, pa, limit, t); }
      }
    }
  }

  lemma MapPageLeafHeld(m: Machine, va: nat, pa: nat, limit: nat, q: Path)
    requires Shape(m) && Inv(Capped(m, limit)) && Fits(Capped(m, limit), va, pa)
    ensures LeafHeld(MapPage(m, va, pa), q)
  {
    var m' := MapPage(m, va, pa);
    MapPageCapped(m, va, pa, limit);
    MapPageKeepsInv(Capped(m, limit), va, pa);
    assert LeafHeld(Capped(m', limit), q) && LeafHeld(m, q);
    MapPageFrames(Capped(m, limit), va, pa, q);
    if MappedFrame(m.mem, q).Some? {
      if 2 <= MappedFrame(m.mem, q).value < NB_PAGE {
        MapPageKeepsMarks(m, va, pa, limit, MappedFrame(m.mem, q).value);
      }
    } else if q == Split(va) {
      TargetCapped(m, va, pa, limit);
    }
  }

  /** A target from the limit on is the one asked for. */
  lemma TargetCapped(m: Machine, va: nat, pa: nat, limit: nat)
    requires Inv(Capped(m, limit)) && Fits(Capped(m, limit), va, pa) && MappedFrame(m.mem, Split(va)).None?
    ensures var f := TargetFrame(Capped(m, limit), va, pa);
            f < limit || f == 0 || (va != 0 && pa != 0 && f == FrameOf(pa))
  {
    var c, n := Capped(m, limit), Missing(m.mem, Split(va), 0);
    if va != 0 && pa == 0 {
      FreeBelowMonotone(c.used, Frames(m), NB_PAGE);
      TakeNCount(c.used, n, NB_PAGE);
      AllocateBelow(TakeN(c.used, n), NB_PAGE);
      TakeNMarks(c.used, n, Allocate(TakeN(c.used, n)).0);
    }
  }

  // ---- marking and data writes ----

  lemma MarkingKeepsShape(m: Machine, limit: nat, f: nat)
    requires Shape(m) && ZeroBelow(m, limit) && f < NB_PAGE
    ensures Shape(m.(used := m.used[f := true])) && ZeroBelow(m.(used := m.used[f := true]), limit)
  {
    var m' := m.(used := m.used[f := true]);
    forall q, k ensures TableHeld(m', q, k) { assert TableHeld(m, q, k); }
    forall q ensures LeafHeld(m', q) { assert LeafHeld(m, q); }
  }

  lemma DataOnlyKeepsShape(m: Machine, limit: nat, mem': seq<byte>)
    requires Shape(m) && ZeroBelow(m, limit) && DataOnly(Capped(m, limit), mem')
    ensures Shape(m.(mem := mem')) && ZeroBelow(m.(mem := mem'), limit)
  {
    var c, m' := Capped(m, limit), m.(mem := mem');
    ShapeCapped(m, limit);
    DataOnlyKeepsInv(c, mem');
    forall q, k ensures TableHeld(m', q, k) {
      DataOnlyTables(c, mem', q, k);
      assert TableHeld(m, q, k);
    }
    forall q ensures LeafHeld(m', q) {
      DataOnlyLeaves(c, mem', q);
      assert LeafHeld(m, q);
    }
    forall f | 2 <= f < limit && f < NB_PAGE && !m'.used[f] ensures ZeroFrame(mem', f) { assert !c.used[f]; }
  }

  // ---- lists of mappings ----

  /** The calls of the list fit below the limit, one after the other. */
  ghost predicate FitBelow(m: Machine, rs: seq<Request>, limit: nat) {
    Inv(Capped(m, limit)) && AllFit(Capped(m, limit), rs)
  }

  lemma FitBelowNext(m: Machine, rs: seq<Request>, limit: nat)
    requires rs != [] && FitBelow(m, rs, limit)
    ensures Fits(Capped(m, limit), rs[0].va, rs[0].pa)
    ensures FitBelow(MapPage(m, rs[0].va, rs[0].pa), rs[1..], limit)
  {
    MapPageKeepsInv(Capped(m, limit), rs[0].va, rs[0].pa);
    MapPageCapped(m, rs[0].va, rs[0].pa, limit);
  }

  lemma {:induction false} MapAllCapped(m: Machine, rs: seq<Request>, limit: nat)
    requires FitBelow(m, rs, limit)
    ensures MapAll(Capped(m, limit), rs) == Capped(MapAll(m, rs), limit)
    decreases |rs|
  {
    if rs != [] {
      FitBelowNext(m, rs, limit);
      MapPageCapped(m, rs[0].va, rs[0].pa, limit);
      MapAllCapped(MapPage(m, rs[0].va, rs[0].pa), rs[1..], limit);
    }
  }

  lemma {:induction false} MapAllKeepsShape(m: Machine, rs: seq<Request>, limit: nat)
    requires Shape(m) && ZeroBelow(m, limit) && AllFit(Capped(m, limit), rs)
    ensures Shape(MapAll(m, rs)) && ZeroBelow(MapAll(m, rs), limit)
    decreases |rs|
  {
    if rs != [] {
      ShapeCapped(m, limit);
      FitBelowNext(m, rs, limit);
      MapPageKeepsShape(m, rs[0].va, rs[0].pa, limit);
      MapAllKeepsShape(MapPage(m, rs[0].va, rs[0].pa), rs[1..], limit);
    }
  }

  lemma RoomCapped(m: Machine, rs: seq<Request>, limit: nat)
    ensures Room(Capped(m, limit), rs, limit) <==> Room(m, rs, limit)
  {
    if limit <= NB_PAGE { FreeBelowCapped(m.used, limit, limit); }
  }

  /** For targets from the limit on, room below it is exactly what the list needs. */
  lemma RoomExactly(m: Machine, rs: seq<Request>, limit: nat)
    requires Inv(Capped(m, limit)) && limit <= Frames(m) && forall r :: r in rs ==> limit <= Target(r)
    ensures Room(m, rs, limit) <==> AllFit(Capped(m, limit), rs)
  {
    AllFitExactly(Capped(m, limit), rs);
    FreeBelowCapped(m.used, limit, Frames(m));
    NoTargetsBelow(rs, limit);
  }

  lemma {:induction false} NoTargetsBelow(rs: seq<Request>, limit: nat)
    requires forall r :: r in rs ==> limit <= Target(r)
    ensures TargetsBelow(rs, limit) == 0
  {
    if rs != [] {
      assert rs[0] in rs;
      NoTargetsBelow(rs[1..], limit);
    }
  }

  /** states[k] is the machine after the first k mappings, each of which fits below the limit. */
  ghost predicate IsTrace(states: seq<Machine>, rs: seq<Request>, limit: nat) {
    |states| == |rs| + 1 && forall k :: 0 <= k < |rs| ==> TraceStep(states, rs, limit, k)
  }

  ghost predicate TraceStep(states: seq<Machine>, rs: seq<Request>, limit: nat, k: nat)
    requires |states| == |rs| + 1 && k < |rs|
  {
    && Fits(Capped(states[k], limit), rs[k].va, rs[k].pa)
    && states[k + 1] == MapPage(states[k], rs[k].va, rs[k].pa)
  }

  lemma {:induction false} TraceOf(m: Machine, rs: seq<Request>, limit: nat) returns (states: seq<Machine>)
    requires FitBelow(m, rs, limit)
    ensures IsTrace(states, rs, limit) && states[0] == m && states[|rs|] == MapAll(m, rs)
    decreases |rs|
  {
    if rs == [] {
      states := [m];
    } else {
      FitBelowNext(m, rs, limit);
      var rest := TraceOf(MapPage(m, rs[0].va, rs[0].pa), rs[1..], limit);
      states := [m] + rest;
      TraceGrows(states, rest, rs, limit);
    }
  }

  lemma TraceGrows(states: seq<Machine>, rest: seq<Machine>, rs: seq<Request>, limit: nat)
    requires rs != [] && IsTrace(rest, rs[1..], limit) && |states| == |rs| + 1 && states[1..] == rest
    requires TraceStep(states, rs, limit, 0)
    ensures IsTrace(states, rs, limit)
  {
    forall k | 0 <= k < |rs| ensures TraceStep(states, rs, limit, k) {
      if k > 0 {
        assert TraceStep(rest, rs[1..], limit, k - 1);
        assert rs[1..][k - 1] == rs[k] && rest[k - 1] == states[k] && rest[k] == states[k + 1];
      }
    }
  }
}
