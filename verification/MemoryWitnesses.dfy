/** Inputs the memory manager and the loader can be given on which a promise fails. */
module MemoryWitnesses {
  import opened Words
  import opened FrameAllocator
  import opened PageTables
  import opened Mapping
  import opened MemoryMap
  import opened MappingLists
  import opened TableTree
  import opened DataWrites
  import opened StackPages
  import opened BootState
  import opened Sections
  import opened SectionSpill
  import opened Boot
  import opened BootLayout

  lemma {:induction false} BlankMissing(size: nat, p: Path)
    requires size >= 2 * PAGE_SIZE
    ensures Missing(Blank(size).mem, p, 0) == 3
  {
    BlankTables(size, p, 0);
    BlankTables(size, p, 1);
    BlankTables(size, p, 2);
    assert Missing(Blank(size).mem, p, 2) == 1 && Missing(Blank(size).mem, p, 1) == 2;
  }

  lemma {:induction false} BlankFree(size: nat)
    requires 2 * PAGE_SIZE <= size <= PAGE_SIZE * NB_PAGE
    ensures Frames(Blank(size)) == size / PAGE_SIZE
    ensures FreeBelow(Blank(size).used, Frames(Blank(size))) == size / PAGE_SIZE - 2
  {
    AllFree(Blank(size).used, size / PAGE_SIZE);
  }

  /** A stack at 0x2000, in the memory the monitor allocates: create_stack reserves the frame only
      after it has handed it out as a table, so the stack page is a page table. */
  lemma {:induction false} StackOnItsOwnTable()
    ensures StackArea(0x2000, 0)
    ensures var after := MapAll(Blank(0xF000), StackRequests(0x2000, 0));
            Inv(after) && IsTable(after.mem, 2) && Walk(after.mem, 0x2000) == 0x2000 && !Separated(after.mem)
  {
    var m := Blank(0xF000);
    assert StackRequests(0x2000, 0) == [Raw(0x2000, 0x2000)];
    assert MapAll(m, [Raw(0x2000, 0x2000)]) == MapPage(m, 0x2000, 0x2000);
    BlankIsSound(0xF000);
    BlankMissing(0xF000, Split(0x2000));
    BlankFree(0xF000);
    BlankTables(0xF000, Split(0x2000), 0);
    MapPageKeepsInv(m, 0x2000, 0x2000);
    MapPageTables(m, 0x2000, 0x2000, 2);
    MapPageWalk(m, 0x2000, 0x2000, 0x2000);
    SeparatedExactly(m, 0x2000, 0x2000);
  }

  /** Guest memory of four frames has two that are free, and a first mapping needs three. */
  lemma {:induction false} TooLittleMemory()
    ensures Inv(Blank(0x4000)) && !Inv(MapPage(Blank(0x4000), 0x3000, 0x3000))
  {
    BlankIsSound(0x4000);
    BlankMissing(0x4000, Split(0x3000));
    BlankFree(0x4000);
    FrameBudgetExactly(Blank(0x4000), 0x3000, 0x3000);
  }

  /** Two load_file calls with sections on one page: page_dico still knows the page, new_page is 0
      again, and the second section is copied to its offset in frame 0. */
  lemma {:induction false} SharedPage(file: seq<byte>)
    ensures var first, second := Section(2, 0x9000, 0, 4, 1), Section(2, 0x9800, 0, 4, 1);
            var after := LoadAll(Loader(Blank(0xF000), NoPages(), 0), file, [first]);
            var next := Loader(after.m, after.dico, 0);
            && CopyAddress(next, second) == 0x800
            && LoadAll(next, file, [second]).m.mem[0x800 .. 0x804] == Content(file, second)
  {
    var first, second := Section(2, 0x9000, 0, 4, 1), Section(2, 0x9800, 0, 4, 1);
    var start := Loader(Blank(0xF000), NoPages(), 0);
    assert CopyAddress(start, first) == 0x9000;
    LoadOne(start, file, first);
    var after := LoadAll(start, file, [first]);
    var next := Loader(after.m, after.dico, 0);
    assert CopyAddress(next, second) == 0x800;
    LoadOne(next, file, second);
    OverwriteSlice(next.m.mem, 0x800, Content(file, second), 0, 0);
  }

  lemma {:induction false} LoadOne(s: Loader, file: seq<byte>, sec: Section)
    requires Loaded(sec) && FrameOf(sec.addr) < DICO_SIZE && CopyAddress(s, sec) + sec.size <= |s.m.mem|
    ensures LoadAll(s, file, [sec]) == LoadSection(s, file, sec)
  {
    assert [sec][1..] == [];
  }

  /** A section of 0x1340 bytes at 0x9000, alone in the file. */
  function Spilling(): Section { Section(2, 0x9000, 0, 0x1340, 1) }

  lemma {:induction false} SpillingRequest()
    ensures forall sec :: sec in [Spilling()] && Loaded(sec) ==> FrameOf(sec.addr) < DICO_SIZE
    ensures Requests([Spilling()]) == [Raw(0x9000, 0x9000)]
  {
    assert [Spilling()][1..] == [];
  }

  /** It can be loaded into the monitor's memory ... */
  lemma {:induction false} SpillingLoads()
    ensures CanLoad(Loader(Blank(0xF000), NoPages(), 0), [Spilling()], 8)
  {
    var m, s, rs := Blank(0xF000), Loader(Blank(0xF000), NoPages(), 0), [Raw(0x9000, 0x9000)];
    SpillingRequest();
    forall f: nat ensures !IsTable(m.mem, f) || f == CR3_FRAME { BlankIsTable(0xF000, f); }
    forall f | Overlaps(f, 0x9000, 0x1340) ensures OutOfReach(m, 8, f) { assert f == 9 || f == 10; }
    AllFree(m.used, 8);
    assert NewRegions(m.mem, rs) <= {Region(Split(0x9000))};
    SubsetSize(NewRegions(m.mem, rs), {Region(Split(0x9000))});
    ThreeTablesPerRegion(m.mem, rs);
    assert TargetsBelow(rs, 8) == TargetsBelow(rs[1..], 8) == 0;
    assert Placed(m, Spilling(), 8) && Carried(s, Spilling());
  }

  /** ... so the results on booting cover it ... */
  lemma {:induction false} SpillingBoots(file: seq<byte>)
    ensures CanBoot(Booted(Blank(0xF000), NoPages()), [LoadFile(file, [Spilling()])])
  {
    var b, c := Booted(Blank(0xF000), NoPages()), LoadFile(file, [Spilling()]);
    BlankIsSound(0xF000);
    SoundIsSoundBelow(b.m);
    SpillingLoads();
    assert FitsCall(b, c, 8);
    assert [c][1..] == [];
    OneLimitForAll(b, [c], 8);
  }

  /** ... and with a nonzero byte in its second page it breaks the invariant: frame 10 is still free. */
  lemma {:induction false} SpillingBreaksZero(file: seq<byte>)
    requires |file| > 0x1000 && file[0x1000] != 0
    ensures var s := Loader(Blank(0xF000), NoPages(), 0);
            Inv(s.m) && CanLoad(s, [Spilling()], 8) && !Inv(LoadAll(s, file, [Spilling()]).m)
  {
    var s, secs := Loader(Blank(0xF000), NoPages(), 0), [Spilling()];
    BlankIsSound(0xF000);
    SpillingLoads();
    LoadKeepsInvExactly(s, file, secs, 8);
    SpillsOver(file);
  }

  lemma {:induction false} SpillsOver(file: seq<byte>)
    requires |file| > 0x1000 && file[0x1000] != 0
    ensures !NothingSpills(Loader(Blank(0xF000), NoPages(), 0), file, [Spilling()])
  {
    var s, secs := Loader(Blank(0xF000), NoPages(), 0), [Spilling()];
    assert HasData(1) && Spilling().offset + 0x1000 == 0x1000;
    assert Content(file, Spilling())[0x1000] == file[0x1000];
    assert !Begins(s, secs, 0, 10) && !Begins(s, secs, 1, 10);
    assert !Held(s.m, 10) && |secs| == 1;
    assert !Kept(s, secs, 10) && FrameOf(secs[0].addr + 0x1000) == 10;
    assert !StaysIn(s, file, secs, 0, 0x1000);
  }
}
