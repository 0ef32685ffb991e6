/** load_file: copies the sections of a file into guest memory and maps their pages. */
module ElfLoader {
  import opened Words
  import opened FrameAllocator
  import opened PageTables
  import opened Mapping
  import opened MemoryMap
  import opened SpareFrames
  import opened BootState
  import opened Sections
  import opened MemoryManager

  class FileLoader {
    const manager: Manager
    const pageDico: array<bool>

    ghost predicate Valid()
      reads this, manager, manager.mem, manager.pageAllocator, pageDico
    {
      && manager.Valid()
      && pageDico.Length == DICO_SIZE
      && pageDico != manager.pageAllocator
    }

    constructor (manager: Manager, pageDico: array<bool>)
      ensures this.manager == manager && this.pageDico == pageDico
    {
      this.manager, this.pageDico := manager, pageDico;
    }

    /** The machine and the loader's carried state; newPage is a local of the loop. */
    ghost function State(newPage: nat): Loader
      requires manager.pageAllocator.Length == NB_PAGE && pageDico.Length == DICO_SIZE
      reads this, manager, manager.mem, manager.pageAllocator, pageDico
    {
      Loader(manager.State(), pageDico[..], newPage)
    }

    /** load_file on the section headers and bytes of a file that has passed the ELF check. */
    method LoadFile(file: seq<byte>, secs: seq<Section>, ghost limit: nat)
      requires Valid() && SoundBelow(manager.State(), limit) && CanLoad(State(0), secs, limit)
      modifies manager.mem, manager.pageAllocator, pageDico
      ensures Valid() && SoundBelow(manager.State(), limit)
      ensures manager.State() == old(LoadAll(State(0), file, secs)).m
      ensures pageDico[..] == old(LoadAll(State(0), file, secs)).dico
      ensures forall i :: 0 <= i < |secs| && secs[i].flags % 4 >= 2 && secs[i].addr != 0 ==>
                InMemory(manager.mem[..], file, secs[i])
    {
      LoadKeepsSound(State(0), file, secs, limit);
      AllInMemory(State(0), file, secs, limit);
      ghost var states := LoadTrace(State(0), file, secs, limit);
      LoadSections(file, secs, states, limit);
    }

    static lemma AllInMemory(s: Loader, file: seq<byte>, secs: seq<Section>, limit: nat)
      requires SoundBelow(s.m, limit) && CanLoad(s, secs, limit)
      ensures forall i :: 0 <= i < |secs| && secs[i].flags % 4 >= 2 && secs[i].addr != 0 ==>
                InMemory(LoadAll(s, file, secs).m.mem, file, secs[i])
    {
      forall i | 0 <= i < |secs| && secs[i].flags % 4 >= 2 && secs[i].addr != 0
        ensures InMemory(LoadAll(s, file, secs).m.mem, file, secs[i])
      {
        LoadContent(s, file, secs, limit, i);
      }
    }

    /** The loop over the sections; newPage is its local. */
    method LoadSections(file: seq<byte>, secs: seq<Section>, ghost states: seq<Loader>, ghost limit: nat)
      requires IsLoad(states, file, secs, limit) && Valid() && State(0) == states[0]
      modifies manager.mem, manager.pageAllocator, pageDico
      ensures Valid() && manager.State() == states[|secs|].m && pageDico[..] == states[|secs|].dico
    {
      var newPage := 0;
      var i := 0;
      while i < |secs|
        invariant 0 <= i <= |secs| && Valid()
        invariant State(newPage) == states[i]
      {
        newPage := LoadNext(file, secs, i, newPage, states, limit);
        i := i + 1;
      }
    }

    /** One round of the loop. */
    method LoadNext(file: seq<byte>, secs: seq<Section>, i: nat, newPage: nat, ghost states: seq<Loader>,
                    ghost limit: nat)
      returns (page: nat)
      requires IsLoad(states, file, secs, limit) && i < |secs|
      requires Valid() && State(newPage) == states[i]
      modifies manager.mem, manager.pageAllocator, pageDico
      ensures Valid() && State(page) == states[i + 1]
    {
      assert LoadTraceStep(states, file, secs, limit, i) && secs[i..][0] == secs[i];
      if !Loaded(secs[i]) { return newPage; }
      LoadSectionCopies(states[i], file, secs[i]);
      page := EnterPage(secs[i], newPage, states[i], limit);
      CopySection(file, secs[i], page, states[i], BeforeCopy(states[i], secs[i]), states[i + 1]);
    }

    /** The second half of a round: read the section and copy it. */
    method CopySection(file: seq<byte>, sec: Section, page: nat, ghost s: Loader, ghost mapped: Machine,
                       ghost s': Loader)
      requires Valid() && manager.State() == mapped && pageDico[..] == s'.dico && page == s'.newPage
      requires FrameOf(sec.addr) < DICO_SIZE && CopiedFrom(s, mapped, s', file, sec) && Shape(s'.m)
      modifies manager.mem
      ensures Valid() && State(page) == s'
    {
      var section := Content(file, sec);
      manager.CopyIn(page + sec.addr % PAGE_SIZE, section);
      assert State(page) == s';
    }

    /** The first half of a round: the section's page, when it is new. */
    method EnterPage(sec: Section, newPage: nat, ghost s: Loader, ghost limit: nat) returns (page: nat)
      requires Valid() && State(newPage) == s && ZeroBelow(s.m, limit)
      requires Loaded(sec) && FrameOf(sec.addr) < DICO_SIZE && CanMap(s, sec, limit)
      modifies manager.mem, manager.pageAllocator, pageDico
      ensures Valid() && manager.State() == BeforeCopy(s, sec)
      ensures pageDico[..] == s.dico[FrameOf(sec.addr) := true]
      ensures page == if s.dico[FrameOf(sec.addr)] then s.newPage else PageBase(FrameOf(sec.addr))
    {
      page := newPage;
      if !pageDico[FrameOf(sec.addr)] {
        pageDico[FrameOf(sec.addr)] := true;
        page := PageBase(FrameOf(sec.addr));
        assert manager.State() == s.m;
        MapNewPage(sec.addr, limit);
      } else {
        assert s.dico[FrameOf(sec.addr) := true] == s.dico;
      }
    }

    /** Reserve and map, twice, as the code does. */
    method MapNewPage(addr: nat, ghost limit: nat)
      requires Valid() && ZeroBelow(manager.State(), limit) && addr != 0 && FrameOf(addr) < DICO_SIZE
      requires Fits(Capped(ReserveFrame(manager.State(), FrameOf(addr)), limit), addr, addr)
      modifies manager.mem, manager.pageAllocator
      ensures Valid() && manager.State() == MapSection(old(manager.State()), addr)
    {
      ghost var m := manager.State();
      var page := FrameOf(addr);
      MarkingKeepsShape(m, limit, page);
      manager.InvalidatePage(page);
      assert manager.State() == ReserveFrame(m, page);
      manager.MapMemory(addr, addr, limit);
      ghost var once := manager.State();
      MappedOnce(m, addr, limit);
      MarkingKeepsShape(once, limit, page);
      manager.InvalidatePage(page);
      assert manager.State() == ReserveFrame(once, page);
      MappedPageUnchanged(Capped(manager.State(), limit), addr, PageBase(page));
      manager.MapMemory(addr, PageBase(page), limit);
    }

    /** After the first mapping the page is mapped. */
    static lemma MappedOnce(m: Machine, addr: nat, limit: nat)
      requires FrameOf(addr) < DICO_SIZE && addr != 0
      requires Shape(ReserveFrame(m, FrameOf(addr))) && ZeroBelow(ReserveFrame(m, FrameOf(addr)), limit)
      requires Fits(Capped(ReserveFrame(m, FrameOf(addr)), limit), addr, addr)
      ensures Leaf(MapPage(ReserveFrame(m, FrameOf(addr)), addr, addr).mem, Split(addr)).Some?
    {
      var first := ReserveFrame(m, FrameOf(addr));
      ShapeCapped(first, limit);
      MapPageCapped(first, addr, addr, limit);
      MapPageFrames(Capped(first, limit), addr, addr, Split(addr));
    }
  }
}
