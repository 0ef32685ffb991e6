/** The state boot-time memory set-up maintains: page tables, data frames and free frames kept
    apart in one buffer, every mapping the identity, and room for the mappings still to come. */
module BootState {
  import opened Words
  import opened FrameAllocator
  import opened PageTables
  import opened Mapping
  import opened MemoryMap
  import opened MappingRuns
  import opened MappingLists
  import opened DataWrites
  import opened IdentityMap
  import opened SpareFrames

  /** f is neither a table nor a frame the allocator may still hand out. */
  ghost predicate DataFrame(m: Machine, f: nat) {
    Held(m, f) && !IsTable(m.mem, f)
  }

  /** The step from m to m' leaves the bytes of f alone and keeps it a data frame. */
  ghost predicate KeepsFrame(m: Machine, m': Machine, f: nat) {
    DataFrame(m, f) ==> DataFrame(m', f) && SameFrame(m.mem, m'.mem, f)
  }

  ghost predicate Sound(m: Machine) {
    Inv(m) && Separated(m.mem) && IdentityMapped(m.mem)
  }

  /** Sound, and ready for the identity mappings rs, whose tables fit below the limit and whose
      targets lie above it. */
  ghost predicate Ready(m: Machine, rs: seq<Request>, limit: nat) {
    && Sound(m)
    && Room(m, rs, limit)
    && TargetsClear(m.mem, rs, limit)
    && (forall r :: r in rs ==> IsIdentity(r))
  }

  // ---- the same with any bytes in the free frames from a limit on ----

  /** Sound, as far as calls that allocate below the limit can tell. */
  ghost predicate SoundBelow(m: Machine, limit: nat) {
    Shape(m) && ZeroBelow(m, limit) && Separated(m.mem) && IdentityMapped(m.mem)
  }

  /** Frame f is no table, and a call that allocates below the limit cannot take it. */
  ghost predicate OutOfReach(m: Machine, limit: nat, f: nat) {
    DataFrame(Capped(m, limit), f)
  }

  /** The step from m to m' leaves the bytes of such a frame alone. */
  ghost predicate SparesFrame(m: Machine, m': Machine, limit: nat, f: nat) {
    KeepsFrame(Capped(m, limit), Capped(m', limit), f)
  }

  ghost predicate ReadyBelow(m: Machine, rs: seq<Request>, limit: nat) {
    && SoundBelow(m, limit)
    && Room(m, rs, limit)
    && TargetsClear(m.mem, rs, limit)
    && (forall r :: r in rs ==> IsIdentity(r))
  }

  lemma SoundIsSoundBelow(m: Machine)
    ensures Sound(m) <==> SoundBelow(m, NB_PAGE)
  {
    InvIsShape(m);
  }

  lemma ReadyCapped(m: Machine, rs: seq<Request>, limit: nat)
    ensures ReadyBelow(m, rs, limit) ==> Ready(Capped(m, limit), rs, limit)
    ensures Shape(m) && ZeroBelow(m, limit) && Ready(Capped(m, limit), rs, limit) ==> ReadyBelow(m, rs, limit)
  {
    RoomCapped(m, rs, limit);
    if ReadyBelow(m, rs, limit) { ShapeCapped(m, limit); }
  }

  // ---- what leaves a machine ready ----

  lemma ReadyMap(m: Machine, rs: seq<Request>, limit: nat)
    requires rs != [] && Ready(m, rs, limit)
    ensures Fits(m, rs[0].va, rs[0].pa)
    ensures Ready(MapPage(m, rs[0].va, rs[0].pa), rs[1..], limit)
  {
    RoomStays(m, rs, limit);
    MapPageKeepsInv(m, rs[0].va, rs[0].pa);
    ClearStays(m, rs, limit);
    SeparatedStays(m, rs, limit);
    assert rs[0] in rs;
    MapPageIdentity(m, rs[0]);
  }

  lemma ReadyReserve(m: Machine, rs: seq<Request>, limit: nat, f: nat)
    requires Ready(m, rs, limit) && limit <= f < NB_PAGE
    ensures Ready(m.(used := Reserve(m.used, f)), rs, limit)
  {
    MarkingKeepsInv(m, f);
    FreeBelowTake(m.used, f, limit);
  }

  lemma ReadyData(m: Machine, mem': seq<byte>, rs: seq<Request>, limit: nat)
    requires Ready(m, rs, limit) && DataOnly(m, mem')
    ensures Ready(m.(mem := mem'), rs, limit)
  {
    DataOnlyKeepsInv(m, mem');
    DataOnlyIdentity(m, mem');
    forall q, l ensures TableFor(mem', q, l) == TableFor(m.mem, q, l) { DataOnlyTables(m, mem', q, l); }
    SameNewTables(m.mem, mem', rs);
    forall r | r in rs ensures limit <= Target(r) && !IsTable(mem', Target(r)) { DataOnlyIsTable(m, mem', Target(r)); }
  }

  lemma ReadyTail(m: Machine, rs: seq<Request>, limit: nat)
    requires rs != [] && Ready(m, rs, limit)
    ensures Ready(m, rs[1..], limit)
  {
    SubsetSize(NewTables(m.mem, rs[1..]), NewTables(m.mem, rs));
    forall r | r in rs[1..] ensures r in rs {}
  }

  // ---- which bytes memory_map writes ----

  lemma LinkBytes(m: Machine, p: Path, l: Level, f: nat)
    requires l >= 1 && TableFor(m.mem, p, l) != Some(f)
    ensures SameFrame(m.mem, Link(m, p, l).mem, f)
  {
    match TableFor(m.mem, p, l)
    case None =>
    case Some(t) => PutElsewhere(m.mem, t, p.At(l), WithFlags(PAGE_SIZE * Allocate(m.used).0), f);
  }

  lemma {:induction false} LinkedBytes(m: Machine, p: Path, l: Level, f: nat)
    requires Inv(m) && Missing(m.mem, p, l) <= FreeBelow(m.used, Frames(m)) && DataFrame(m, f)
    ensures SameFrame(m.mem, Linked(m, p, l).mem, f)
    ensures TableFor(Linked(m, p, l).mem, p, l) != Some(f)
    decreases 3 - l
  {
    LinkedNewTables(m, p, l, f);
    assert TableFor(Linked(m, p, l).mem, p, l) == Some(f) ==> Reaches(Linked(m, p, l).mem, p, l, f);
    if l < 3 {
      LinkedBytes(m, p, l + 1, f);
      LinkBytes(Linked(m, p, l + 1), p, l + 1, f);
    }
  }

  /** memory_map changes no byte of a data frame; the frame stays one when it is not handed out. */
  lemma MapKeepsFrame(m: Machine, va: nat, pa: nat, f: nat)
    requires Inv(m) && Fits(m, va, pa)
    ensures KeepsFrame(m, MapPage(m, va, pa), f)
  {
    if DataFrame(m, f) {
      MapPageTables(m, va, pa, f);
      if 2 <= f < NB_PAGE { MapPageMarks(m, va, pa, f); }
      LinkedBytes(m, Split(va), 0, f);
      var before := Linked(m, Split(va), 0);
      match TableFor(before.mem, Split(va), 0) {
        case None =>
        case Some(t) => PutElsewhere(before.mem, t, Split(va).pte, NewLeaf(before, va, pa), f);
      }
    }
  }

  // ---- the blank machine ----

  function Blank(size: nat): Machine {
    Machine(seq(size, _ => 0), seq(NB_PAGE, _ => false))
  }

  lemma BlankTables(size: nat, p: Path, l: Level)
    requires size >= 2 * PAGE_SIZE
    ensures l < 3 ==> TableFor(Blank(size).mem, p, l) == None
    decreases 3 - l
  {
    var mem := Blank(size).mem;
    if l < 3 {
      BlankTables(size, p, l + 1);
      assert ZeroFrame(mem, CR3_FRAME);
      ZeroFrameEntries(mem, CR3_FRAME, p.pgd);
    }
  }

  /** A freshly allocated guest memory is sound. */
  lemma BlankIsSound(size: nat)
    requires size >= 2 * PAGE_SIZE
    ensures Sound(Blank(size))
  {
    var m := Blank(size);
    forall p, l ensures TableHeld(m, p, l) { BlankTables(size, p, l); }
    forall p, l, q, k ensures OneParent(m.mem, p, l, q, k) {
      BlankTables(size, p, l);
      BlankTables(size, q, k);
    }
    forall p ensures LeafHeld(m, p) && NotATable(m.mem, p) && IdentityAt(m.mem, p) { BlankTables(size, p, 0); }
  }
}
