/** Boots whose conditions can be read off the section headers: with every table below a limit and
    every section above it, one call leaves the next what it needs. */
module BootLayout {
  import opened Words
  import opened FrameAllocator
  import opened PageTables
  import opened Mapping
  import opened MemoryMap
  import opened MappingLists
  import opened DataWrites
  import opened SpareFrames
  import opened StackPages
  import opened BootState
  import opened Sections
  import opened SectionSpill
  import opened Boot

  ghost predicate TablesBelow(mem: seq<byte>, limit: nat) {
    forall t: nat :: IsTable(mem, t) ==> t < limit
  }

  lemma {:induction false} MapAllTables(m: Machine, rs: seq<Request>, limit: nat)
    requires Inv(m) && Room(m, rs, limit) && TablesBelow(m.mem, limit)
    ensures TablesBelow(MapAll(m, rs).mem, limit)
    decreases |rs|
  {
    if rs != [] {
      var m' := MapPage(m, rs[0].va, rs[0].pa);
      RoomStays(m, rs, limit);
      MapPageKeepsInv(m, rs[0].va, rs[0].pa);
      forall t: nat | IsTable(m'.mem, t) ensures t < limit { TablesStayLow(m, rs, limit, t); }
      MapAllTables(m', rs[1..], limit);
    }
  }

  lemma {:induction false} SectionTables(s: Loader, file: seq<byte>, secs: seq<Section>, limit: nat)
    requires secs != [] && SoundBelow(s.m, limit) && CanLoad(s, secs, limit) && CanCopy(s, secs[0])
    requires TablesBelow(s.m.mem, limit)
    ensures TablesBelow(LoadSection(s, file, secs[0]).m.mem, limit)
  {
    if Loaded(secs[0]) {
      var m, sec := BeforeCopy(s, secs[0]), secs[0];
      SectionReady(s, secs, limit);
      MappedTables(s, secs, limit);
      assert sec in secs;
      forall f: nat | Overlaps(f, sec.addr, sec.size) ensures OutOfReach(m, limit, f) {
        assert SparesFrame(s.m, m, limit, f);
      }
      CopyIsData(m, sec, file, limit);
      forall t: nat | IsTable(LoadSection(s, file, sec).m.mem, t) ensures t < limit {
        DataOnlyIsTable(Capped(m, limit), LoadSection(s, file, sec).m.mem, t);
      }
    }
  }

  lemma {:induction false} MappedTables(s: Loader, secs: seq<Section>, limit: nat)
    requires secs != [] && Loaded(secs[0]) && SoundBelow(s.m, limit) && CanLoad(s, secs, limit)
    requires TablesBelow(s.m.mem, limit) && FrameOf(secs[0].addr) < DICO_SIZE
    ensures TablesBelow(BeforeCopy(s, secs[0]).mem, limit)
  {
    var addr := secs[0].addr;
    if !s.dico[FrameOf(addr)] {
      var c := Capped(ReserveFrame(s.m, FrameOf(addr)), limit);
      RequestsHead(secs);
      RequestsAreIdentity(secs);
      ReserveThenMap(s.m, addr, Requests(secs), limit);
      forall t: nat | IsTable(MapPage(c, addr, addr).mem, t) ensures t < limit { MapPageTables(c, addr, addr, t); }
    }
  }

  lemma {:induction false} LoadTables(s: Loader, file: seq<byte>, secs: seq<Section>, limit: nat)
    requires SoundBelow(s.m, limit) && CanLoad(s, secs, limit) && TablesBelow(s.m.mem, limit)
    ensures TablesBelow(LoadAll(s, file, secs).m.mem, limit)
    decreases |secs|
  {
    if secs != [] {
      LoadStep(s, file, secs, limit);
      SectionTables(s, file, secs, limit);
      LoadTables(LoadSection(s, file, secs[0]), file, secs[1..], limit);
    }
  }

  lemma {:induction false} CallKeepsTablesBelow(b: Booted, c: BootCall, limit: nat)
    requires SoundBelow(b.m, limit) && FitsCall(b, c, limit) && TablesBelow(b.m.mem, limit)
    ensures TablesBelow(Call(b, c).m.mem, limit)
  {
    match c
    case CreateStack(addr, size) =>
      var rs := StackRequests(addr, size);
      ShapeCapped(b.m, limit);
      RoomCapped(b.m, rs, limit);
      RoomIsEnough(Capped(b.m, limit), rs, limit);
      MapAllTables(Capped(b.m, limit), rs, limit);
      MapAllCapped(b.m, rs, limit);
    case LoadFile(file, secs) => LoadTables(Loader(b.m, b.dico, 0), file, secs, limit);
  }

  // ---- what the headers must say ----

  /** The section lies inside memory, from the limit on, and begins on a page new to page_dico. */
  predicate HeaderFits(size: nat, dico: Dico, sec: Section, limit: nat) {
    Loaded(sec) ==>
      && limit <= FrameOf(sec.addr) < 0x1000 && sec.addr + sec.size <= size
      && !dico[FrameOf(sec.addr)]
  }

  predicate HeadersFit(size: nat, dico: Dico, secs: seq<Section>, limit: nat) {
    InOrder(secs) && forall sec :: sec in secs ==> HeaderFits(size, dico, sec, limit)
  }

  lemma {:induction false} RequestsAbove(secs: seq<Section>, limit: nat)
    requires forall sec :: sec in secs && Loaded(sec) ==> limit <= FrameOf(sec.addr) < DICO_SIZE
    ensures forall r :: r in Requests(secs) ==> limit <= Target(r)
    ensures TargetsBelow(Requests(secs), limit) == 0
  {
    if secs != [] {
      assert secs[0] in secs;
      RequestsAbove(secs[1..], limit);
      if Loaded(secs[0]) {
        RequestsHead(secs);
        assert Requests(secs) == [Requests(secs)[0]] + Requests(secs[1..]);
      } else {
        RequestsSkip(secs);
      }
    }
  }

  /** Sections in order, above the limit, whole and on new pages can be loaded, however far they run
      over the page they begin in, when the tables their pages lack fit below the limit. */
  lemma {:induction false} HeadersSuffice(b: Booted, secs: seq<Section>, limit: nat)
    requires TablesBelow(b.m.mem, limit) && limit <= Frames(b.m) && HeadersFit(|b.m.mem|, b.dico, secs, limit)
    requires forall sec :: sec in secs && Loaded(sec) ==> FrameOf(sec.addr) < DICO_SIZE
    requires |NewTables(b.m.mem, Requests(secs))| <= FreeBelow(b.m.used, limit)
    ensures CanLoad(Loader(b.m, b.dico, 0), secs, limit)
  {
    RequestsAbove(secs, limit);
    forall sec | sec in secs && Loaded(sec) ensures Placed(b.m, sec, limit) && Carried(Loader(b.m, b.dico, 0), sec) {
      assert HeaderFits(|b.m.mem|, b.dico, sec, limit);
      forall f: nat | Overlaps(f, sec.addr, sec.size) ensures OutOfReach(b.m, limit, f) {
        assert f >= FrameOf(sec.addr) >= limit;
      }
    }
  }

  // ---- the monitor's own boot ----

  const MEMORY_SIZE: nat := 0xF000
  const STACK_ADDRESS: nat := 0xE000
  const STACK_SIZE: nat := 0x3000

  function NoPages(): Dico { seq(DICO_SIZE, _ => false) }

  function BlankBoot(): Booted { Booted(Blank(MEMORY_SIZE), NoPages()) }

  /** The limit: frames 2 to 4 become tables. */
  const LOW: nat := 8

  /** What each call of the boot leaves the next: tables low, and the region of the stack mapped, which
      is the only region there is. */
  ghost predicate Underway(b: Booted) {
    && SoundBelow(b.m, LOW) && TablesBelow(b.m.mem, LOW)
    && |b.m.mem| == MEMORY_SIZE && MappedFrame(b.m.mem, Split(STACK_ADDRESS)).Some?
  }

  lemma {:induction false} StackFits()
    ensures FitsCall(BlankBoot(), CreateStack(STACK_ADDRESS, STACK_SIZE), LOW)
    ensures SoundBelow(BlankBoot().m, LOW) && TablesBelow(BlankBoot().m.mem, LOW)
  {
    var m, rs := Blank(MEMORY_SIZE), StackRequests(STACK_ADDRESS, STACK_SIZE);
    BlankIsSound(MEMORY_SIZE);
    SoundIsSoundBelow(m);
    AllFree(m.used, LOW);
    OneRegion(m, STACK_ADDRESS, STACK_SIZE);
    BlankTargetsClear(MEMORY_SIZE, STACK_ADDRESS, STACK_SIZE);
    ThreeTablesPerRegion(m.mem, rs);
    NoTargetsBelow(rs, LOW);
    forall t: nat | IsTable(m.mem, t) ensures t < LOW { BlankIsTable(MEMORY_SIZE, t); }
  }

  lemma {:induction false} BlankIsTable(size: nat, t: nat)
    requires size >= 2 * PAGE_SIZE
    ensures IsTable(Blank(size).mem, t) ==> t == CR3_FRAME
  {
    forall p, l | Reaches(Blank(size).mem, p, l, t) ensures t == CR3_FRAME { BlankTables(size, p, l); }
  }

  lemma {:induction false} StackLeaves()
    ensures FitsCall(BlankBoot(), CreateStack(STACK_ADDRESS, STACK_SIZE), LOW)
    ensures Underway(Call(BlankBoot(), CreateStack(STACK_ADDRESS, STACK_SIZE)))
  {
    var c := CreateStack(STACK_ADDRESS, STACK_SIZE);
    StackFits();
    CallKeepsSound(BlankBoot(), c, LOW);
    CallKeepsTablesBelow(BlankBoot(), c, LOW);
    BlankIsSound(MEMORY_SIZE);
    RoomIsEnough(BlankBoot().m, StackRequests(STACK_ADDRESS, STACK_SIZE), LOW);
    StackTranslations(BlankBoot().m, STACK_ADDRESS, STACK_SIZE, STACK_ADDRESS);
    BlankTables(MEMORY_SIZE, Split(STACK_ADDRESS), 0);
    WalkIsFrame(Call(BlankBoot(), c).m.mem, STACK_ADDRESS);
  }

  /** An address below 2 MiB has its last table already. */
  lemma {:induction false} RegionHasTable(mem: seq<byte>, va: nat)
    requires MappedFrame(mem, Split(STACK_ADDRESS)).Some? && va < 0x20_0000
    ensures TableFor(mem, Split(va), 0).Some?
  {
    var p, q := Split(STACK_ADDRESS), Split(va);
    assert p.pgd == q.pgd == 0 && p.pud == q.pud == 0 && p.pmd == q.pmd == 0;
    assert SameAbove(p, q, 2) && SameAbove(p, q, 1) && SameAbove(p, q, 0);
    SameTable(mem, p, q, 0);
  }

  lemma {:induction false} RequestsLow(secs: seq<Section>, bound: nat)
    requires forall sec :: sec in secs && Loaded(sec) ==> FrameOf(sec.addr) < DICO_SIZE && sec.addr < bound
    ensures forall r :: r in Requests(secs) ==> r.va < bound
  {
    if secs != [] {
      assert secs[0] in secs;
      RequestsLow(secs[1..], bound);
      if Loaded(secs[0]) {
        RequestsHead(secs);
        assert Requests(secs) == [Requests(secs)[0]] + Requests(secs[1..]);
      } else {
        RequestsSkip(secs);
      }
    }
  }

  lemma {:induction false} FileFits(b: Booted, file: seq<byte>, secs: seq<Section>)
    requires Underway(b) && HeadersFit(MEMORY_SIZE, b.dico, secs, LOW)
    ensures FitsCall(b, LoadFile(file, secs), LOW)
  {
    forall sec | sec in secs && Loaded(sec) ensures FrameOf(sec.addr) < DICO_SIZE && sec.addr < 0x20_0000 {
      assert HeaderFits(MEMORY_SIZE, b.dico, sec, LOW);
    }
    var rs := Requests(secs);
    RequestsLow(secs, 0x20_0000);
    forall i | 0 <= i < |rs| ensures TableFor(b.m.mem, Split(rs[i].va), 0).Some? { RegionHasTable(b.m.mem, rs[i].va); }
    assert NewRegions(b.m.mem, rs) == {};
    ThreeTablesPerRegion(b.m.mem, rs);
    HeadersSuffice(b, secs, LOW);
  }

  lemma {:induction false} FileLeaves(b: Booted, file: seq<byte>, secs: seq<Section>)
    requires Underway(b) && FitsCall(b, LoadFile(file, secs), LOW)
    ensures Underway(Call(b, LoadFile(file, secs)))
  {
    CallKeepsSound(b, LoadFile(file, secs), LOW);
    CallKeepsTablesBelow(b, LoadFile(file, secs), LOW);
    LoadFrames(Loader(b.m, b.dico, 0), file, secs, LOW, Split(STACK_ADDRESS));
  }

  /** page_dico after a file knows the pages its sections begin in. */
  lemma {:induction false} PagesOf(b: Booted, file: seq<byte>, secs: seq<Section>, f: nat)
    requires SoundBelow(b.m, LOW) && FitsCall(b, LoadFile(file, secs), LOW) && LOW <= f < DICO_SIZE
    requires !b.dico[f] && forall sec :: sec in secs && Loaded(sec) ==> FrameOf(sec.addr) != f
    ensures !Call(b, LoadFile(file, secs)).dico[f]
  {
    var s := Loader(b.m, b.dico, 0);
    var states := LoadTrace(s, file, secs, LOW);
    MarksUpTo(states, file, secs, LOW, |secs|, f);
    NotBegun(s, secs, |secs|, f);
  }

  lemma {:induction false} NotBegun(s: Loader, secs: seq<Section>, n: nat, f: nat)
    requires n <= |secs| && forall sec :: sec in secs && Loaded(sec) ==> FrameOf(sec.addr) != f
    ensures !Begins(s, secs, n, f)
  {
    if n > 0 {
      assert secs[n - 1] in secs;
      NotBegun(s, secs, n - 1, f);
    }
  }

  predicate OnOtherPages(secs: seq<Section>, others: seq<Section>) {
    forall a, b :: a in secs && b in others && Loaded(a) && Loaded(b) ==> FrameOf(a.addr) != FrameOf(b.addr)
  }

  /** Bit 1 of sh_flags is set, and sh_addr is not 0. */
  predicate TakesMemory(sec: Section) { sec.flags % 4 >= 2 && sec.addr != 0 }

  /** The sections that take up memory come one after the other between 0x8000 and 0xF000. */
  predicate MonitorFile(secs: seq<Section>) {
    && (forall i, j :: 0 <= i < j < |secs| && TakesMemory(secs[i]) && TakesMemory(secs[j]) ==>
          secs[i].addr + secs[i].size <= secs[j].addr)
    && forall sec :: sec in secs && TakesMemory(sec) ==> 0x8000 <= sec.addr && sec.addr + sec.size <= 0xF000
  }

  predicate BeginOnOtherPages(secs: seq<Section>, others: seq<Section>) {
    forall a, b :: a in secs && b in others && TakesMemory(a) && TakesMemory(b) ==> a.addr / 0x1000 != b.addr / 0x1000
  }

  lemma MonitorHeaders(secs: seq<Section>)
    requires MonitorFile(secs)
    ensures HeadersFit(MEMORY_SIZE, NoPages(), secs, LOW)
  {
    forall sec ensures Loaded(sec) <==> TakesMemory(sec) { LoadedExactly(sec); }
    forall sec | sec in secs ensures HeaderFits(MEMORY_SIZE, NoPages(), sec, LOW) {
      if Loaded(sec) { FrameAtLeast(0x8000, sec.addr); }
    }
  }

  /** The monitor's main: a stack of 0x3000 bytes below 0xE000 in 0xF000 bytes of memory, the boot code,
      the application. Any two files whose sections are in order, inside memory, at 0x8000 or above and
      begin on different pages can be booted, whether or not they run over the page they begin in. Memory
      then holds the application, and the boot code where the application does not cover it. */
  lemma {:induction false} MonitorBoots(boot: seq<byte>, bootSecs: seq<Section>, app: seq<byte>, appSecs: seq<Section>)
    requires MonitorFile(bootSecs) && MonitorFile(appSecs) && BeginOnOtherPages(appSecs, bootSecs)
    ensures var blank := Booted(Blank(0xF000), NoPages());
            var cs := [CreateStack(0xE000, 0x3000), LoadFile(boot, bootSecs), LoadFile(app, appSecs)];
            && CanBoot(blank, cs)
            && var m := BootAll(blank, cs).m;
               && SoundBelow(m, 8)
               && (forall i :: 0 <= i < |appSecs| && TakesMemory(appSecs[i]) ==> InMemory(m.mem, app, appSecs[i]))
               && (forall i :: 0 <= i < |bootSecs| && TakesMemory(bootSecs[i]) ==>
                   InMemoryUncovered(m.mem, boot, bootSecs[i], appSecs))
  {
    forall sec ensures Loaded(sec) <==> TakesMemory(sec) { LoadedExactly(sec); }
    MonitorHeaders(bootSecs);
    MonitorHeaders(appSecs);
    BootsInOrder(boot, bootSecs, app, appSecs);
  }

  lemma {:induction false} BootsInOrder(boot: seq<byte>, bootSecs: seq<Section>, app: seq<byte>, appSecs: seq<Section>)
    requires HeadersFit(MEMORY_SIZE, NoPages(), bootSecs, LOW) && HeadersFit(MEMORY_SIZE, NoPages(), appSecs, LOW)
    requires OnOtherPages(appSecs, bootSecs)
    ensures var cs := [CreateStack(STACK_ADDRESS, STACK_SIZE), LoadFile(boot, bootSecs), LoadFile(app, appSecs)];
            && CanBoot(BlankBoot(), cs)
            && var m := BootAll(BlankBoot(), cs).m;
               && SoundBelow(m, LOW)
               && (forall i :: 0 <= i < |appSecs| && TakesMemory(appSecs[i]) ==> InMemory(m.mem, app, appSecs[i]))
               && (forall i :: 0 <= i < |bootSecs| && TakesMemory(bootSecs[i]) ==>
                   InMemoryUncovered(m.mem, boot, bootSecs[i], appSecs))
  {
    var c0, c1, c2 := CreateStack(STACK_ADDRESS, STACK_SIZE), LoadFile(boot, bootSecs), LoadFile(app, appSecs);
    StackLeaves();
    var b1 := Call(BlankBoot(), c0);
    FileFits(b1, boot, bootSecs);
    FileLeaves(b1, boot, bootSecs);
    StillNew(b1, boot, bootSecs, appSecs);
    FileFits(Call(b1, c1), app, appSecs);
    StackFits();
    BootOfThree(BlankBoot(), b1, Call(b1, c1), c0, c1, c2, [c0, c1, c2]);
    TwoFiles(b1, boot, bootSecs, app, appSecs);
  }

  /** Memory holds the section, except where a section of a later file covers it. */
  predicate InMemoryUncovered(mem: seq<byte>, file: seq<byte>, sec: Section, later: seq<Section>) {
    && sec.addr + sec.size <= |mem|
    && forall a :: sec.addr <= a < sec.addr + sec.size && !Covered(later, a) ==>
         mem[a] == if sec.kind / 8 % 2 == 0 && sec.offset + (a - sec.addr) < |file|
                   then file[sec.offset + (a - sec.addr)] else 0
  }

  predicate Covered(secs: seq<Section>, a: nat) {
    exists n :: 0 <= n < |secs| && Inside(secs[n], a)
  }

  lemma {:induction false} FirstCall(b: Booted, c: BootCall, rest: seq<BootCall>, cs: seq<BootCall>)
    requires cs == [c] + rest && CanBoot(b, cs)
    ensures c.CreateStack? ==> StackArea(c.addr, c.size)
    ensures CanBoot(Call(b, c), rest) && BootAll(b, cs) == BootAll(Call(b, c), rest)
  {
    assert cs[1..] == rest;
  }

  lemma {:induction false} LastOf(b: Booted, c0: BootCall, c1: BootCall, c2: BootCall)
    requires CanBoot(b, [c0, c1, c2]) && c1.LoadFile? && c2.LoadFile?
    requires c0.CreateStack? ==> StackArea(c0.addr, c0.size)
    ensures BootAll(b, [c0, c1, c2]) == Call(Call(Call(b, c0), c1), c2)
  {
    FirstCall(b, c0, [c1, c2], [c0, c1, c2]);
    FirstCall(Call(b, c0), c1, [c2], [c1, c2]);
    FirstCall(Call(Call(b, c0), c1), c2, [], [c2]);
  }

  /** What the boot code and the application leave in memory. */
  lemma {:induction false} TwoFiles(b: Booted, boot: seq<byte>, bootSecs: seq<Section>, app: seq<byte>,
                                    appSecs: seq<Section>)
    requires Underway(b) && HeadersFit(MEMORY_SIZE, b.dico, bootSecs, LOW) && FitsCall(b, LoadFile(boot, bootSecs), LOW)
    requires FitsCall(Call(b, LoadFile(boot, bootSecs)), LoadFile(app, appSecs), LOW)
    ensures var mem := Call(Call(b, LoadFile(boot, bootSecs)), LoadFile(app, appSecs)).m.mem;
            && (forall i :: 0 <= i < |appSecs| && TakesMemory(appSecs[i]) ==> InMemory(mem, app, appSecs[i]))
            && (forall i :: 0 <= i < |bootSecs| && TakesMemory(bootSecs[i]) ==>
                InMemoryUncovered(mem, boot, bootSecs[i], appSecs))
  {
    var b2 := Call(b, LoadFile(boot, bootSecs));
    FileLeaves(b, boot, bootSecs);
    forall i | 0 <= i < |appSecs| && TakesMemory(appSecs[i])
      ensures InMemory(Call(b2, LoadFile(app, appSecs)).m.mem, app, appSecs[i])
    {
      FileHeld(b2, app, appSecs, i);
    }
    forall i | 0 <= i < |bootSecs| && TakesMemory(bootSecs[i])
      ensures InMemoryUncovered(Call(b2, LoadFile(app, appSecs)).m.mem, boot, bootSecs[i], appSecs)
    {
      LoadedExactly(bootSecs[i]);
      assert HeaderFits(MEMORY_SIZE, b.dico, bootSecs[i], LOW);
      FileHeld(b, boot, bootSecs, i);
      StillHeld(b2, boot, bootSecs[i], app, appSecs);
    }
  }

  lemma {:induction false} FileHeld(b: Booted, file: seq<byte>, secs: seq<Section>, i: nat)
    requires Underway(b) && FitsCall(b, LoadFile(file, secs), LOW) && i < |secs|
    requires TakesMemory(secs[i])
    ensures InMemory(Call(b, LoadFile(file, secs)).m.mem, file, secs[i])
  {
    LoadContent(Loader(b.m, b.dico, 0), file, secs, LOW, i);
  }

  /** A section in memory stays there while another file is loaded, where that does not cover it. */
  lemma {:induction false} StillHeld(b: Booted, file: seq<byte>, sec: Section, later: seq<byte>, secs: seq<Section>)
    requires Underway(b) && InMemory(b.m.mem, file, sec) && FitsCall(b, LoadFile(later, secs), LOW)
    requires LOW <= FrameOf(sec.addr)
    ensures InMemoryUncovered(Call(b, LoadFile(later, secs)).m.mem, file, sec, secs)
  {
    var mem := Call(b, LoadFile(later, secs)).m.mem;
    FileLeaves(b, later, secs);
    forall a | sec.addr <= a < sec.addr + sec.size && !Covered(secs, a) ensures mem[a] == b.m.mem[a] {
      FrameAtLeast(sec.addr, a);
      LeftAlone(b, later, secs, a);
    }
  }

  lemma {:induction false} FrameAtLeast(a: nat, b: nat)
    requires a <= b
    ensures FrameOf(a) <= FrameOf(b)
  {}

  lemma {:induction false} LeftAlone(b: Booted, file: seq<byte>, secs: seq<Section>, a: nat)
    requires Underway(b) && FitsCall(b, LoadFile(file, secs), LOW)
    requires LOW <= FrameOf(a) && a < MEMORY_SIZE && !Covered(secs, a)
    ensures Call(b, LoadFile(file, secs)).m.mem[a] == b.m.mem[a]
  {
    assert !IsTable(b.m.mem, FrameOf(a)) && OutOfReach(b.m, LOW, FrameOf(a));
    LoadBytes(Loader(b.m, b.dico, 0), file, secs, LOW, a);
  }

  /** The pages the application begins in are still new after the boot code. */
  lemma {:induction false} StillNew(b: Booted, boot: seq<byte>, bootSecs: seq<Section>, appSecs: seq<Section>)
    requires SoundBelow(b.m, LOW) && FitsCall(b, LoadFile(boot, bootSecs), LOW) && b.dico == NoPages()
    requires HeadersFit(MEMORY_SIZE, NoPages(), appSecs, LOW) && OnOtherPages(appSecs, bootSecs)
    ensures HeadersFit(MEMORY_SIZE, Call(b, LoadFile(boot, bootSecs)).dico, appSecs, LOW)
  {
    var dico := Call(b, LoadFile(boot, bootSecs)).dico;
    forall sec | sec in appSecs ensures HeaderFits(MEMORY_SIZE, dico, sec, LOW) {
      assert HeaderFits(MEMORY_SIZE, NoPages(), sec, LOW);
      if Loaded(sec) { PagesOf(b, boot, bootSecs, FrameOf(sec.addr)); }
    }
  }

  lemma {:induction false} BootOfThree(b: Booted, b1: Booted, b2: Booted, c0: BootCall, c1: BootCall, c2: BootCall,
                                       cs: seq<BootCall>)
    requires cs == [c0, c1, c2] && c1.LoadFile? && c2.LoadFile?
    requires SoundBelow(b.m, LOW) && FitsCall(b, c0, LOW) && Call(b, c0) == b1
    requires FitsCall(b1, c1, LOW) && Call(b1, c1) == b2 && FitsCall(b2, c2, LOW)
    ensures CanBoot(b, cs) && SoundBelow(BootAll(b, cs).m, LOW) && BootAll(b, cs) == Call(b2, c2)
  {
    ThreeCalls(b, b1, b2, cs);
    OneLimitForAll(b, cs, LOW);
    LastOf(b, c0, c1, c2);
  }

  lemma {:induction false} ThreeCalls(b: Booted, b1: Booted, b2: Booted, cs: seq<BootCall>)
    requires |cs| == 3 && FitsCall(b, cs[0], LOW) && Call(b, cs[0]) == b1
    requires FitsCall(b1, cs[1], LOW) && Call(b1, cs[1]) == b2 && FitsCall(b2, cs[2], LOW)
    ensures FitBoot(b, cs, LOW)
  {
    TwoCalls(b1, b2, cs[1..]);
    FitsFirst(b, b1, cs[0], cs[1..], cs);
  }

  lemma {:induction false} TwoCalls(b: Booted, b1: Booted, cs: seq<BootCall>)
    requires |cs| == 2 && FitsCall(b, cs[0], LOW) && Call(b, cs[0]) == b1 && FitsCall(b1, cs[1], LOW)
    ensures FitBoot(b, cs, LOW)
  {
    FitsFirst(b1, Call(b1, cs[1]), cs[1], [], cs[1..]);
    FitsFirst(b, b1, cs[0], cs[1..], cs);
  }

  lemma {:induction false} FitsFirst(b: Booted, next: Booted, c: BootCall, rest: seq<BootCall>, cs: seq<BootCall>)
    requires cs == [c] + rest && FitsCall(b, c, LOW) && next == Call(b, c) && FitBoot(next, rest, LOW)
    ensures FitBoot(b, cs, LOW)
  {
    assert cs[1..] == rest;
  }
}
