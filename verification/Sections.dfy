/** load_file: the section loop, as a function of the machine and the loader's carried state. Only
    the first page of a section is reserved, so a section may spill into frames that are still free. */
module Sections {
  import opened Words
  import opened FrameAllocator
  import opened PageTables
  import opened Mapping
  import opened MemoryMap
  import opened MappingLists
  import opened DataWrites
  import opened SpareFrames
  import opened IdentityMap
  import opened BootState

  const DICO_SIZE: nat := 0x1000

  type Dico = s: seq<bool> | |s| == DICO_SIZE witness seq(DICO_SIZE, _ => false)

  /** The fields of a section header the loader reads. */
  datatype Section = Section(flags: nat, addr: nat, offset: nat, size: nat, kind: nat)

  /** The machine, the pages seen so far (page_dico), and the page of the last new one (new_page). */
  datatype Loader = Loader(m: Machine, dico: Dico, newPage: nat)

  /** sh_flags & 0x2 and a nonzero address: the section takes up memory. */
  predicate Loaded(sec: Section) { sec.flags / 2 % 2 == 1 && sec.addr != 0 }

  /** Bit 3 of sh_type clear. */
  predicate HasData(kind: nat) { kind / 8 % 2 == 0 }

  function PageBase(f: nat): nat { f * PAGE_SIZE }

  /** The bytes copied: the file's, zero past its end, or all zero. */
  function Content(file: seq<byte>, sec: Section): (c: seq<byte>)
    ensures |c| == sec.size
  {
    seq(sec.size, k requires 0 <= k < sec.size =>
      if HasData(sec.kind) && sec.offset + k < |file| then file[sec.offset + k] else 0)
  }

  /** Memory holds the section at its address: the byte k bytes in is byte sh_offset + k of the file, where
      sh_type has bit 3 clear and the file goes that far, and 0 elsewhere. */
  predicate InMemory(mem: seq<byte>, file: seq<byte>, sec: Section) {
    && sec.addr + sec.size <= |mem|
    && forall a :: sec.addr <= a < sec.addr + sec.size ==>
         mem[a] == if sec.kind / 8 % 2 == 0 && sec.offset + (a - sec.addr) < |file|
                   then file[sec.offset + (a - sec.addr)] else 0
  }

  lemma ContentAt(file: seq<byte>, sec: Section, k: nat)
    requires k < sec.size
    ensures Content(file, sec)[k] ==
            if sec.kind / 8 % 2 == 0 && sec.offset + k < |file| then file[sec.offset + k] else 0
  {
    assert HasData(sec.kind) <==> sec.kind / 8 % 2 == 0;
    var c := Content(file, sec);
    assert c[k] == if HasData(sec.kind) && sec.offset + k < |file| then file[sec.offset + k] else 0;
  }

  lemma ContentInMemory(mem: seq<byte>, file: seq<byte>, sec: Section)
    requires sec.addr + sec.size <= |mem|
    ensures mem[sec.addr .. sec.addr + sec.size] == Content(file, sec) <==> InMemory(mem, file, sec)
  {
    var s, c := mem[sec.addr .. sec.addr + sec.size], Content(file, sec);
    forall a | sec.addr <= a < sec.addr + sec.size
      ensures s[a - sec.addr] == mem[a]
      ensures c[a - sec.addr] ==
              if sec.kind / 8 % 2 == 0 && sec.offset + (a - sec.addr) < |file| then file[sec.offset + (a - sec.addr)]
              else 0
    {
      ContentAt(file, sec, a - sec.addr);
    }
    if InMemory(mem, file, sec) {
      forall k | 0 <= k < sec.size ensures s[k] == c[k] {
        var a: nat := sec.addr + k;
        assert s[a - sec.addr] == mem[a];
        assert c[a - sec.addr] == mem[a];
      }
    }
  }

  function ReserveFrame(m: Machine, f: nat): Machine
    requires f < NB_PAGE
  {
    m.(used := Reserve(m.used, f))
  }

  /** What happens to a section whose page is new: reserve and map, twice. */
  function MapSection(m: Machine, addr: nat): (r: Machine)
    requires FrameOf(addr) < NB_PAGE
    ensures |r.mem| == |m.mem|
  {
    var page := FrameOf(addr);
    var once := MapPage(ReserveFrame(m, page), addr, addr);
    MapPage(ReserveFrame(once, page), addr, PageBase(page))
  }

  /** The address the section is copied to. */
  function CopyAddress(s: Loader, sec: Section): nat
    requires FrameOf(sec.addr) < DICO_SIZE
  {
    (if s.dico[FrameOf(sec.addr)] then s.newPage else PageBase(FrameOf(sec.addr))) + sec.addr % PAGE_SIZE
  }

  function LoadSection(s: Loader, file: seq<byte>, sec: Section): (r: Loader)
    requires Loaded(sec) ==> FrameOf(sec.addr) < DICO_SIZE && CopyAddress(s, sec) + sec.size <= |s.m.mem|
    ensures |r.m.mem| == |s.m.mem|
  {
    if !Loaded(sec) then s else
      var page := FrameOf(sec.addr);
      var m := if s.dico[page] then s.m else MapSection(s.m, sec.addr);
      var newPage := if s.dico[page] then s.newPage else PageBase(page);
      Loader(m.(mem := Overwrite(m.mem, CopyAddress(s, sec), Content(file, sec))), s.dico[page := true], newPage)
  }

  /** A section lands at its own address exactly when its page is new to page_dico or is the page
      that was new last. In particular a page seen by an earlier call (page_dico is never cleared,
      new_page starts at 0) puts the section at its page offset in frame 0. */
  lemma {:induction false} CopiedToItsAddressExactly(s: Loader, sec: Section)
    requires FrameOf(sec.addr) < DICO_SIZE
    ensures CopyAddress(s, sec) == sec.addr <==>
            !s.dico[FrameOf(sec.addr)] || s.newPage == PageBase(FrameOf(sec.addr))
  {}

  /** Bit 1 of sh_flags, and a nonzero address. */
  lemma LoadedExactly(sec: Section)
    ensures Loaded(sec) <==> sec.flags % 4 >= 2 && sec.addr != 0
  {
    assert sec.flags % 4 == 2 * (sec.flags / 2 % 2) + sec.flags % 2;
  }

  /** Any other section leaves memory, flags and page_dico as they were. */
  lemma SkippedUnchanged(s: Loader, file: seq<byte>, sec: Section)
    requires sec.flags % 4 < 2 || sec.addr == 0
    ensures !Loaded(sec) && LoadSection(s, file, sec) == s
  {
    LoadedExactly(sec);
  }

  // ---- what load_file needs ----

  /** The mappings the sections ask for. */
  function Requests(secs: seq<Section>): (rs: seq<Request>)
    requires forall sec :: sec in secs && Loaded(sec) ==> FrameOf(sec.addr) < DICO_SIZE
  {
    if secs == [] then []
    else (if Loaded(secs[0]) then [Raw(secs[0].addr, secs[0].addr)] else []) + Requests(secs[1..])
  }

  /** The section fits in memory, and the pages it touches beyond its first are no tables and will
      not become tables: they are held, or lie at or above the limit. */
  ghost predicate Placed(m: Machine, sec: Section, limit: nat) {
    && sec.addr + sec.size <= |m.mem|
    && FrameOf(sec.addr) < DICO_SIZE
    && (forall f :: Overlaps(f, sec.addr, sec.size) && f != FrameOf(sec.addr) ==> OutOfReach(m, limit, f))
  }

  predicate InOrder(secs: seq<Section>) {
    forall i, j :: 0 <= i < j < |secs| && Loaded(secs[i]) && Loaded(secs[j]) ==>
      secs[i].addr + secs[i].size <= secs[j].addr
  }

  /** The carried state is right for the section: its page is new, or was the last new one. */
  ghost predicate Carried(s: Loader, sec: Section)
    requires FrameOf(sec.addr) < DICO_SIZE
  {
    && s.newPage <= sec.addr
    && (s.dico[FrameOf(sec.addr)] ==>
        s.newPage == PageBase(FrameOf(sec.addr)) && MappedFrame(s.m.mem, Split(sec.addr)).Some?)
  }

  ghost predicate AllPlaced(s: Loader, secs: seq<Section>, limit: nat) {
    forall sec :: sec in secs && Loaded(sec) ==> Placed(s.m, sec, limit) && Carried(s, sec)
  }

  /** Sections in order, on pages new to the call and clear of table frames, with room for the
      tables below the limit. */
  ghost predicate CanLoad(s: Loader, secs: seq<Section>, limit: nat) {
    && AllPlaced(s, secs, limit)
    && InOrder(secs)
    && Room(s.m, Requests(secs), limit)
    && TargetsClear(s.m.mem, Requests(secs), limit)
  }

  /** The run of the loop over the sections; where the code would copy outside memory it stops. */
  function LoadAll(s: Loader, file: seq<byte>, secs: seq<Section>): (r: Loader)
    ensures |r.m.mem| == |s.m.mem|
    decreases |secs|
  {
    if secs == [] then s
    else if !CanCopy(s, secs[0]) then s
    else LoadAll(LoadSection(s, file, secs[0]), file, secs[1..])
  }

  // ---- one section ----

  lemma {:induction false} SecondMappingIsNothing(m: Machine, addr: nat, limit: nat)
    requires FrameOf(addr) < NB_PAGE && addr != 0
    requires var c := Capped(ReserveFrame(m, FrameOf(addr)), limit); Inv(c) && Fits(c, addr, addr)
    ensures MapSection(m, addr) == MapPage(ReserveFrame(m, FrameOf(addr)), addr, addr)
  {
    var first := ReserveFrame(m, FrameOf(addr));
    var once := MapPage(first, addr, addr);
    MapPageKeepsMarks(first, addr, addr, limit, FrameOf(addr));
    assert once.used[FrameOf(addr) := true] == once.used;
    MapPageCapped(first, addr, addr, limit);
    MapPageFrames(Capped(first, limit), addr, addr, Split(addr));
    MappedPageUnchanged(once, addr, PageBase(FrameOf(addr)));
  }

  lemma {:induction false} RequestsHead(secs: seq<Section>)
    requires secs != [] && Loaded(secs[0])
    requires forall sec :: sec in secs && Loaded(sec) ==> FrameOf(sec.addr) < DICO_SIZE
    ensures forall sec :: sec in secs[1..] && Loaded(sec) ==> FrameOf(sec.addr) < DICO_SIZE
    ensures Requests(secs)[0] == Raw(secs[0].addr, secs[0].addr) && Requests(secs)[1..] == Requests(secs[1..])
  {}

  lemma {:induction false} RequestsAreIdentity(secs: seq<Section>)
    requires forall sec :: sec in secs && Loaded(sec) ==> FrameOf(sec.addr) < DICO_SIZE
    ensures forall r :: r in Requests(secs) ==> IsIdentity(r)
  {
    if secs != [] {
      RequestsAreIdentity(secs[1..]);
      assert secs[0] in secs;
      if Loaded(secs[0]) { SelfIsIdentity(secs[0].addr); }
    }
  }

  /** Reserving and mapping the page, as one mapping. */
  lemma {:induction false} ReserveThenMap(m: Machine, addr: nat, rs: seq<Request>, limit: nat)
    requires FrameOf(addr) < DICO_SIZE && addr != 0
    requires rs != [] && rs[0] == Raw(addr, addr) && ReadyBelow(m, rs, limit)
    ensures var first := ReserveFrame(m, FrameOf(addr));
            && Capped(first, limit) == ReserveFrame(Capped(m, limit), FrameOf(addr))
            && Ready(Capped(first, limit), rs, limit)
            && Shape(first) && ZeroBelow(first, limit)
            && Fits(Capped(first, limit), addr, addr)
            && MapSection(m, addr) == MapPage(first, addr, addr)
            && Capped(MapSection(m, addr), limit) == MapPage(Capped(first, limit), addr, addr)
            && Shape(MapSection(m, addr)) && ZeroBelow(MapSection(m, addr), limit)
  {
    var first := ReserveFrame(m, FrameOf(addr));
    assert rs[0] in rs;
    ReadyCapped(m, rs, limit);
    ReadyReserve(Capped(m, limit), rs, limit, FrameOf(addr));
    MarkCapped(m.used, limit, FrameOf(addr));
    MarkingKeepsShape(m, limit, FrameOf(addr));
    RoomFitsFirst(Capped(first, limit), rs, limit);
    SecondMappingIsNothing(m, addr, limit);
    MapPageCapped(first, addr, addr, limit);
    MapPageKeepsShape(first, addr, addr, limit);
  }

  /** Mapping a section whose page is new. */
  lemma {:induction false} SectionMapped(m: Machine, addr: nat, rs: seq<Request>, limit: nat)
    requires FrameOf(addr) < DICO_SIZE && addr != 0
    requires rs != [] && rs[0] == Raw(addr, addr) && ReadyBelow(m, rs, limit)
    ensures ReadyBelow(MapSection(m, addr), rs[1..], limit)
    ensures OutOfReach(MapSection(m, addr), limit, FrameOf(addr))
    ensures forall f :: SparesFrame(m, MapSection(m, addr), limit, f)
    ensures forall q :: MappedFrame(MapSection(m, addr).mem, q) == AfterMapping(m, addr, q)
  {
    var c := Capped(ReserveFrame(m, FrameOf(addr)), limit);
    ReserveThenMap(m, addr, rs, limit);
    assert rs[0] in rs;
    ReadyMap(c, rs, limit);
    ReadyCapped(MapSection(m, addr), rs[1..], limit);
    MapKeepsFrame(c, addr, addr, FrameOf(addr));
    forall f ensures SparesFrame(m, MapSection(m, addr), limit, f) { MapKeepsFrame(c, addr, addr, f); }
    forall q { MapPageFrames(c, addr, addr, q); }
  }

  /** Of the frames from the limit on, mapping a section marks its own page only. */
  lemma {:induction false} SectionMarks(m: Machine, addr: nat, rs: seq<Request>, limit: nat, f: nat)
    requires FrameOf(addr) < DICO_SIZE && addr != 0
    requires rs != [] && rs[0] == Raw(addr, addr) && ReadyBelow(m, rs, limit) && limit <= f < NB_PAGE
    ensures MapSection(m, addr).used[f] <==> m.used[f] || f == FrameOf(addr)
  {
    ReserveThenMap(m, addr, rs, limit);
    MapPageCapped(ReserveFrame(m, FrameOf(addr)), addr, addr, limit);
  }

  /** The state after a section has been mapped, if its page was new, and before it is copied. */
  function BeforeCopy(s: Loader, sec: Section): Machine
    requires FrameOf(sec.addr) < DICO_SIZE
  {
    if s.dico[FrameOf(sec.addr)] then s.m else MapSection(s.m, sec.addr)
  }

  /** The tables a section still needs fit below the limit. */
  ghost predicate CanMap(s: Loader, sec: Section, limit: nat) {
    Loaded(sec) && FrameOf(sec.addr) < DICO_SIZE && !s.dico[FrameOf(sec.addr)] ==>
      Fits(Capped(ReserveFrame(s.m, FrameOf(sec.addr)), limit), sec.addr, sec.addr)
  }

  lemma {:induction false} SectionReady(s: Loader, secs: seq<Section>, limit: nat)
    requires secs != [] && Loaded(secs[0]) && SoundBelow(s.m, limit) && CanLoad(s, secs, limit)
    ensures FrameOf(secs[0].addr) < DICO_SIZE && CopyAddress(s, secs[0]) == secs[0].addr
    ensures CanMap(s, secs[0], limit)
    ensures var m := BeforeCopy(s, secs[0]);
            && ReadyBelow(m, Requests(secs)[1..], limit)
            && OutOfReach(m, limit, FrameOf(secs[0].addr))
            && (forall f :: SparesFrame(s.m, m, limit, f))
            && (forall q :: MappedFrame(m.mem, q) == AfterMapping(s.m, secs[0].addr, q))
  {
    var rs := Requests(secs);
    RequestsHead(secs);
    RequestsAreIdentity(secs);
    assert secs[0] in secs && rs[0] in rs;
    if s.dico[FrameOf(secs[0].addr)] {
      ReadyCapped(s.m, rs, limit);
      ReadyTail(Capped(s.m, limit), rs, limit);
      ReadyCapped(s.m, rs[1..], limit);
    } else {
      ReserveThenMap(s.m, secs[0].addr, rs, limit);
      SectionMapped(s.m, secs[0].addr, rs, limit);
    }
  }

  /** s' is s with the section's page entered, giving machine `mapped`, and its content copied. */
  ghost predicate CopiedFrom(s: Loader, mapped: Machine, s': Loader, file: seq<byte>, sec: Section)
    requires FrameOf(sec.addr) < DICO_SIZE
  {
    && s'.dico == s.dico[FrameOf(sec.addr) := true]
    && s'.newPage == (if s.dico[FrameOf(sec.addr)] then s.newPage else PageBase(FrameOf(sec.addr)))
    && s'.newPage + sec.addr % PAGE_SIZE + sec.size <= |mapped.mem|
    && s'.m == mapped.(mem := Overwrite(mapped.mem, s'.newPage + sec.addr % PAGE_SIZE, Content(file, sec)))
  }

  lemma {:induction false} LoadSectionCopies(s: Loader, file: seq<byte>, sec: Section)
    requires Loaded(sec) && FrameOf(sec.addr) < DICO_SIZE && CanCopy(s, sec)
    ensures CopiedFrom(s, BeforeCopy(s, sec), LoadSection(s, file, sec), file, sec)
  {}

  lemma {:induction false} CopyIsData(m: Machine, sec: Section, file: seq<byte>, limit: nat)
    requires sec.addr + sec.size <= |m.mem|
    requires forall f :: Overlaps(f, sec.addr, sec.size) ==> OutOfReach(m, limit, f)
    ensures DataOnly(Capped(m, limit), Overwrite(m.mem, sec.addr, Content(file, sec)))
  {
    OverwriteIsData(Capped(m, limit), sec.addr, Content(file, sec));
  }

  /** What loading one section, from machine m to m', leaves behind. */
  ghost predicate SectionLoaded(m: Machine, m': Machine, file: seq<byte>, sec: Section, limit: nat) {
    && |m'.mem| == |m.mem| && InMemory(m'.mem, file, sec)
    && (forall f :: OutOfReach(m, limit, f) || Overlaps(f, sec.addr, sec.size) || f == FrameOf(sec.addr) ==>
          OutOfReach(m', limit, f))
    && (forall k :: 0 <= k < |m.mem| && !(sec.addr <= k < sec.addr + sec.size) ==> ByteKept(m, m', limit, k))
    && (forall q :: MappedFrame(m'.mem, q) == AfterMapping(m, sec.addr, q))
  }

  ghost predicate ByteKept(m: Machine, m': Machine, limit: nat, k: nat)
    requires k < |m.mem| == |m'.mem|
  {
    OutOfReach(m, limit, FrameOf(k)) ==> m'.mem[k] == m.mem[k]
  }

  /** The translation of q once addr has been mapped to itself. */
  function AfterMapping(m: Machine, addr: nat, q: Path): Option<nat> {
    if q == Split(addr) && MappedFrame(m.mem, q).None? then Some(FrameOf(addr)) else MappedFrame(m.mem, q)
  }

  /** One section is copied to its own address and leaves everything else alone. */
  lemma {:induction false} OneSection(s: Loader, file: seq<byte>, secs: seq<Section>, limit: nat)
    requires secs != [] && Loaded(secs[0]) && SoundBelow(s.m, limit) && CanLoad(s, secs, limit)
    ensures FrameOf(secs[0].addr) < DICO_SIZE && CopyAddress(s, secs[0]) == secs[0].addr
    ensures secs[0].addr + secs[0].size <= |s.m.mem|
    ensures ReadyBelow(LoadSection(s, file, secs[0]).m, Requests(secs)[1..], limit)
    ensures SectionLoaded(s.m, LoadSection(s, file, secs[0]).m, file, secs[0], limit)
  {
    var sec := secs[0];
    SectionReady(s, secs, limit);
    assert sec in secs;
    CopyDone(s.m, BeforeCopy(s, sec), file, sec, Requests(secs)[1..], limit);
    LoadSectionCopies(s, file, sec);
  }

  lemma {:induction false} CopyDone(m: Machine, mapped: Machine, file: seq<byte>, sec: Section, rs: seq<Request>,
                                    limit: nat)
    requires |mapped.mem| == |m.mem| && Placed(m, sec, limit) && ReadyBelow(mapped, rs, limit)
    requires OutOfReach(mapped, limit, FrameOf(sec.addr)) && forall f :: SparesFrame(m, mapped, limit, f)
    requires forall q :: MappedFrame(mapped.mem, q) == AfterMapping(m, sec.addr, q)
    ensures var m' := mapped.(mem := Overwrite(mapped.mem, sec.addr, Content(file, sec)));
            ReadyBelow(m', rs, limit) && SectionLoaded(m, m', file, sec, limit)
  {
    forall f | Overlaps(f, sec.addr, sec.size) ensures OutOfReach(mapped, limit, f) {
      assert SparesFrame(m, mapped, limit, f);
    }
    CopyIsData(mapped, sec, file, limit);
    var mem' := Overwrite(mapped.mem, sec.addr, Content(file, sec));
    CopyReady(mapped, mem', rs, limit);
    OverwriteSlice(mapped.mem, sec.addr, Content(file, sec), 0, 0);
    ContentInMemory(mem', file, sec);
    CopyResult(m, mapped, mem', file, sec, limit);
  }

  lemma {:induction false} CopyReady(m: Machine, mem': seq<byte>, rs: seq<Request>, limit: nat)
    requires ReadyBelow(m, rs, limit) && DataOnly(Capped(m, limit), mem')
    ensures ReadyBelow(m.(mem := mem'), rs, limit)
  {
    ReadyCapped(m, rs, limit);
    ReadyData(Capped(m, limit), mem', rs, limit);
    DataOnlyKeepsShape(m, limit, mem');
    ReadyCapped(m.(mem := mem'), rs, limit);
  }

  lemma {:induction false} CopyResult(m: Machine, mapped: Machine, mem': seq<byte>, file: seq<byte>, sec: Section,
                                      limit: nat)
    requires |mem'| == |mapped.mem| == |m.mem| && sec.addr + sec.size <= |m.mem|
    requires InMemory(mem', file, sec)
    requires forall k :: 0 <= k < |mem'| && !(sec.addr <= k < sec.addr + sec.size) ==> mem'[k] == mapped.mem[k]
    requires forall f :: SparesFrame(m, mapped, limit, f)
    requires OutOfReach(mapped, limit, FrameOf(sec.addr))
    requires forall f :: Overlaps(f, sec.addr, sec.size) ==> OutOfReach(mapped, limit, f)
    requires DataOnly(Capped(mapped, limit), mem')
    requires forall q :: MappedFrame(mapped.mem, q) == AfterMapping(m, sec.addr, q)
    ensures SectionLoaded(m, mapped.(mem := mem'), file, sec, limit)
  {
    var m' := mapped.(mem := mem');
    forall f | OutOfReach(m, limit, f) || Overlaps(f, sec.addr, sec.size) || f == FrameOf(sec.addr)
      ensures OutOfReach(m', limit, f)
    {
      assert SparesFrame(m, mapped, limit, f);
      DataOnlyIsTable(Capped(mapped, limit), mem', f);
    }
    forall q ensures MappedFrame(m'.mem, q) == AfterMapping(m, sec.addr, q) {
      DataOnlyLeaves(Capped(mapped, limit), mem', q);
    }
    forall k | 0 <= k < |m.mem| && !(sec.addr <= k < sec.addr + sec.size) ensures ByteKept(m, m', limit, k) {
      assert SparesFrame(m, mapped, limit, FrameOf(k));
    }
  }

  lemma {:induction false} CarriedOn(s: Loader, s': Loader, sec: Section, next: Section)
    requires FrameOf(sec.addr) < DICO_SIZE && FrameOf(next.addr) < DICO_SIZE
    requires Carried(s, sec) && Carried(s, next) && sec.addr <= next.addr
    requires s'.dico == s.dico[FrameOf(sec.addr) := true]
    requires s'.newPage == PageBase(FrameOf(sec.addr))
    requires MappedFrame(s'.m.mem, Split(sec.addr)).Some?
    ensures Carried(s', next)
  {
    if s'.dico[FrameOf(next.addr)] {
      assert FrameOf(sec.addr) <= FrameOf(next.addr);
      assert FrameOf(next.addr) == FrameOf(sec.addr);
      SelfIsIdentity(sec.addr);
      SelfIsIdentity(next.addr);
      PageNumberInjective(Split(sec.addr), Split(next.addr));
    }
  }

  /** After one section the loader is ready for the others, copying each to its own address. */
  lemma {:induction false} LoadStep(s: Loader, file: seq<byte>, secs: seq<Section>, limit: nat)
    requires secs != [] && SoundBelow(s.m, limit) && CanLoad(s, secs, limit)
    ensures CanCopy(s, secs[0]) && CanMap(s, secs[0], limit)
    ensures StepDone(s, LoadSection(s, file, secs[0]), file, secs[0], limit)
    ensures SoundBelow(LoadSection(s, file, secs[0]).m, limit)
    ensures CanLoad(LoadSection(s, file, secs[0]), secs[1..], limit)
  {
    if Loaded(secs[0]) {
      SectionReady(s, secs, limit);
      OneSection(s, file, secs, limit);
      RequestsHead(secs);
      OthersStillPlaced(s, LoadSection(s, file, secs[0]), file, secs, limit);
    } else {
      RequestsSkip(secs);
    }
  }

  predicate CanCopy(s: Loader, sec: Section) {
    Loaded(sec) ==> FrameOf(sec.addr) < DICO_SIZE && CopyAddress(s, sec) + sec.size <= |s.m.mem|
  }

  ghost predicate StepDone(s: Loader, s': Loader, file: seq<byte>, sec: Section, limit: nat) {
    if Loaded(sec) then SectionLoaded(s.m, s'.m, file, sec, limit) else s' == s
  }

  lemma {:induction false} RequestsSkip(secs: seq<Section>)
    requires secs != [] && !Loaded(secs[0])
    requires forall sec :: sec in secs && Loaded(sec) ==> FrameOf(sec.addr) < DICO_SIZE
    ensures forall sec :: sec in secs[1..] && Loaded(sec) ==> FrameOf(sec.addr) < DICO_SIZE
    ensures Requests(secs) == Requests(secs[1..])
  {}

  lemma {:induction false} OthersStillPlaced(s: Loader, s': Loader, file: seq<byte>, secs: seq<Section>, limit: nat)
    requires secs != [] && Loaded(secs[0]) && InOrder(secs) && AllPlaced(s, secs, limit)
    requires SectionLoaded(s.m, s'.m, file, secs[0], limit) && FrameOf(secs[0].addr) < DICO_SIZE
    requires s'.dico == s.dico[FrameOf(secs[0].addr) := true] && s'.newPage == PageBase(FrameOf(secs[0].addr))
    ensures AllPlaced(s', secs[1..], limit) && InOrder(secs[1..])
  {
    assert secs[0] in secs;
    forall i | 0 <= i < |secs[1..]| && Loaded(secs[1..][i])
      ensures Placed(s'.m, secs[1..][i], limit) && Carried(s', secs[1..][i])
    {
      assert secs[1..][i] == secs[i + 1] && secs[i + 1] in secs;
      CarriedOn(s, s', secs[0], secs[i + 1]);
    }
  }

  // ---- the whole loop ----

  /** states[k] is the loader before section k; each section is copied within memory. */
  ghost predicate IsLoad(states: seq<Loader>, file: seq<byte>, secs: seq<Section>, limit: nat) {
    |states| == |secs| + 1 && forall k :: 0 <= k < |secs| ==> LoadTraceStep(states, file, secs, limit, k)
  }

  ghost predicate LoadTraceStep(states: seq<Loader>, file: seq<byte>, secs: seq<Section>, limit: nat, k: nat)
    requires |states| == |secs| + 1 && k < |secs|
  {
    OneLoaded(states[k], states[k + 1], file, secs[k..], limit)
  }

  /** From s to s' the first section is loaded, and the others still can be. */
  ghost predicate OneLoaded(s: Loader, s': Loader, file: seq<byte>, secs: seq<Section>, limit: nat)
    requires secs != []
  {
    && CanCopy(s, secs[0]) && CanMap(s, secs[0], limit)
    && s' == LoadSection(s, file, secs[0])
    && StepDone(s, s', file, secs[0], limit)
    && SoundBelow(s.m, limit) && SoundBelow(s'.m, limit)
    && CanLoad(s, secs, limit)
  }

  lemma {:induction false} LoadTrace(s: Loader, file: seq<byte>, secs: seq<Section>, limit: nat)
    returns (states: seq<Loader>)
    requires SoundBelow(s.m, limit) && CanLoad(s, secs, limit)
    ensures IsLoad(states, file, secs, limit) && states[0] == s && states[|secs|] == LoadAll(s, file, secs)
    decreases |secs|, 1
  {
    if secs == [] {
      states := [s];
    } else {
      FirstLoaded(s, file, secs, limit);
      states := LoadRest(s, LoadSection(s, file, secs[0]), file, secs, secs[1..], limit);
    }
  }

  lemma {:induction false} LoadRest(s: Loader, s': Loader, file: seq<byte>, secs: seq<Section>, others: seq<Section>,
                                    limit: nat)
    returns (states: seq<Loader>)
    requires secs != [] && others == secs[1..] && OneLoaded(s, s', file, secs, limit)
    requires SoundBelow(s'.m, limit) && CanLoad(s', others, limit) &&
             LoadAll(s, file, secs) == LoadAll(s', file, others)
    ensures IsLoad(states, file, secs, limit) && states[0] == s && states[|secs|] == LoadAll(s, file, secs)
    decreases |secs|, 0
  {
    var rest := LoadTrace(s', file, others, limit);
    states := [s] + rest;
    LoadPrepends(s, s', states, rest, file, secs, others, limit);
  }

  /** load_file keeps the machine sound for calls that allocate below the limit. */
  lemma {:induction false} LoadKeepsSound(s: Loader, file: seq<byte>, secs: seq<Section>, limit: nat)
    requires SoundBelow(s.m, limit) && CanLoad(s, secs, limit)
    ensures SoundBelow(LoadAll(s, file, secs).m, limit)
    decreases |secs|
  {
    if secs != [] {
      FirstLoaded(s, file, secs, limit);
      LoadKeepsSound(LoadSection(s, file, secs[0]), file, secs[1..], limit);
    }
  }

  lemma {:induction false} LoadPrepends(s: Loader, s': Loader, states: seq<Loader>, rest: seq<Loader>,
                                        file: seq<byte>, secs: seq<Section>, others: seq<Section>, limit: nat)
    requires secs != [] && others == secs[1..] && OneLoaded(s, s', file, secs, limit)
    requires IsLoad(rest, file, others, limit) && states == [s] + rest && rest[0] == s'
    requires rest[|others|] == LoadAll(s, file, secs)
    ensures IsLoad(states, file, secs, limit) && states[0] == s && states[|secs|] == LoadAll(s, file, secs)
  {
    assert secs[0..] == secs && states[1..] == rest;
    LoadTraceGrows(states, rest, file, secs, limit);
  }

  lemma {:induction false} FirstLoaded(s: Loader, file: seq<byte>, secs: seq<Section>, limit: nat)
    requires secs != [] && SoundBelow(s.m, limit) && CanLoad(s, secs, limit)
    ensures CanCopy(s, secs[0])
    ensures var s' := LoadSection(s, file, secs[0]);
            && OneLoaded(s, s', file, secs, limit)
            && SoundBelow(s'.m, limit) && CanLoad(s', secs[1..], limit)
            && LoadAll(s, file, secs) == LoadAll(s', file, secs[1..])
  {
    LoadStep(s, file, secs, limit);
  }

  lemma {:induction false} LoadTraceGrows(states: seq<Loader>, rest: seq<Loader>, file: seq<byte>,
                                          secs: seq<Section>, limit: nat)
    requires secs != [] && IsLoad(rest, file, secs[1..], limit) && |states| == |secs| + 1 && states[1..] == rest
    requires |states| == |secs| + 1 && LoadTraceStep(states, file, secs, limit, 0)
    ensures IsLoad(states, file, secs, limit)
  {
    forall k | 0 <= k < |secs| ensures LoadTraceStep(states, file, secs, limit, k) {
      if k > 0 {
        assert LoadTraceStep(rest, file, secs[1..], limit, k - 1);
        assert secs[1..][k - 1] == secs[k] && rest[k - 1] == states[k] && rest[k] == states[k + 1];
        assert secs[1..][k - 1..] == secs[k..];
      }
    }
  }

  lemma {:induction false} StepAt(states: seq<Loader>, file: seq<byte>, secs: seq<Section>, limit: nat, k: nat)
    requires IsLoad(states, file, secs, limit) && k < |secs|
    ensures StepDone(states[k], states[k + 1], file, secs[k], limit)
  {
    assert LoadTraceStep(states, file, secs, limit, k) && secs[k..][0] == secs[k];
  }

  predicate Inside(sec: Section, k: nat) { Loaded(sec) && sec.addr <= k < sec.addr + sec.size }

  /** From state i on, frame f stays out of reach; so does a byte of it that no section from i on covers. */
  lemma {:induction false} DataSurvives(states: seq<Loader>, file: seq<byte>, secs: seq<Section>, limit: nat, i: nat,
                                        j: nat, k: nat)
    requires IsLoad(states, file, secs, limit) && i <= j <= |secs|
    requires k < |states[i].m.mem| && OutOfReach(states[i].m, limit, FrameOf(k))
    ensures |states[j].m.mem| == |states[i].m.mem| && OutOfReach(states[j].m, limit, FrameOf(k))
    ensures (forall n :: i <= n < j ==> !Inside(secs[n], k)) ==> states[j].m.mem[k] == states[i].m.mem[k]
    decreases j
  {
    if i < j {
      DataSurvives(states, file, secs, limit, i, j - 1, k);
      StepAt(states, file, secs, limit, j - 1);
      if Loaded(secs[j - 1]) && !Inside(secs[j - 1], k) {
        assert ByteKept(states[j - 1].m, states[j].m, limit, k);
      }
    }
  }

  /** A byte of section i, once copied, is not disturbed by the sections after it. */
  lemma {:induction false} CopiedByteKept(states: seq<Loader>, file: seq<byte>, secs: seq<Section>, limit: nat,
                                          i: nat, k: nat)
    requires IsLoad(states, file, secs, limit) && InOrder(secs) && i < |secs| && Inside(secs[i], k)
    ensures k < |states[i + 1].m.mem| == |states[|secs|].m.mem|
    ensures states[|secs|].m.mem[k] == states[i + 1].m.mem[k]
  {
    StepAt(states, file, secs, limit, i);
    assert Overlaps(FrameOf(k), secs[i].addr, secs[i].size);
    NotInsideLater(secs, i, k);
    DataSurvives(states, file, secs, limit, i + 1, |secs|, k);
  }

  lemma {:induction false} NotInsideLater(secs: seq<Section>, i: nat, k: nat)
    requires InOrder(secs) && i < |secs| && Inside(secs[i], k)
    ensures forall n :: i < n < |secs| ==> !Inside(secs[n], k)
  {}

  /** Section i is there at the end. */
  lemma {:induction false} SectionStays(states: seq<Loader>, file: seq<byte>, secs: seq<Section>, limit: nat, i: nat)
    requires IsLoad(states, file, secs, limit) && InOrder(secs) && i < |secs| && Loaded(secs[i])
    ensures secs[i].addr + secs[i].size <= |states[i].m.mem| == |states[|secs|].m.mem|
    ensures InMemory(states[|secs|].m.mem, file, secs[i])
  {
    StepAt(states, file, secs, limit, i);
    var before, after := states[i + 1].m.mem, states[|secs|].m.mem;
    var a, b := secs[i].addr, secs[i].addr + secs[i].size;
    SameLength(states, file, secs, limit, i + 1, |secs|);
    forall k | a <= k < b ensures after[k] == before[k] { CopiedByteKept(states, file, secs, limit, i, k); }
    StillInMemory(before, after, file, secs[i]);
  }

  lemma StillInMemory(mem: seq<byte>, mem': seq<byte>, file: seq<byte>, sec: Section)
    requires |mem'| == |mem| && InMemory(mem, file, sec)
    requires forall k :: sec.addr <= k < sec.addr + sec.size ==> mem'[k] == mem[k]
    ensures InMemory(mem', file, sec)
  {
  }

  lemma {:induction false} SameLength(states: seq<Loader>, file: seq<byte>, secs: seq<Section>, limit: nat,
                                      i: nat, j: nat)
    requires IsLoad(states, file, secs, limit) && i <= j <= |secs|
    ensures |states[i].m.mem| == |states[j].m.mem|
    decreases j
  {
    if i < j {
      SameLength(states, file, secs, limit, i, j - 1);
      StepAt(states, file, secs, limit, j - 1);
    }
  }

  /** load_file on any list of sections in order: every section that takes up memory ends at its own
      address with the file's bytes, or zeros, whatever was loaded after it; and the machine stays
      sound for calls that allocate below the limit. */
  lemma {:induction false} LoadContent(s: Loader, file: seq<byte>, secs: seq<Section>, limit: nat, i: nat)
    requires SoundBelow(s.m, limit) && CanLoad(s, secs, limit) && i < |secs|
    requires secs[i].flags % 4 >= 2 && secs[i].addr != 0
    ensures SoundBelow(LoadAll(s, file, secs).m, limit)
    ensures secs[i].addr + secs[i].size <= |s.m.mem|
    ensures InMemory(LoadAll(s, file, secs).m.mem, file, secs[i])
  {
    LoadedExactly(secs[i]);
    LoadKeepsSound(s, file, secs, limit);
    var states := LoadTrace(s, file, secs, limit);
    SectionStays(states, file, secs, limit, i);
  }

  /** A byte out of the call's reach that no section covers is not disturbed. */
  lemma {:induction false} LoadBytes(s: Loader, file: seq<byte>, secs: seq<Section>, limit: nat, k: nat)
    requires SoundBelow(s.m, limit) && CanLoad(s, secs, limit)
    requires k < |s.m.mem| && OutOfReach(s.m, limit, FrameOf(k))
    ensures OutOfReach(LoadAll(s, file, secs).m, limit, FrameOf(k))
    ensures (forall n :: 0 <= n < |secs| ==> !Inside(secs[n], k)) ==> LoadAll(s, file, secs).m.mem[k] == s.m.mem[k]
  {
    var states := LoadTrace(s, file, secs, limit);
    DataSurvives(states, file, secs, limit, 0, |secs|, k);
  }

  /** One of the first n sections takes up memory and begins on page q. */
  predicate BeginsOn(secs: seq<Section>, n: nat, q: Path)
    requires n <= |secs|
  {
    n > 0 && (BeginsOn(secs, n - 1, q) || (Loaded(secs[n - 1]) && Split(secs[n - 1].addr) == q))
  }

  /** The frame of q after the first n sections. */
  function FrameAfter(m: Machine, secs: seq<Section>, n: nat, q: Path): Option<nat>
    requires n <= |secs|
  {
    if MappedFrame(m.mem, q).Some? then MappedFrame(m.mem, q)
    else if BeginsOn(secs, n, q) then Some(PageNumber(q))
    else None
  }

  /** The frame of q after one more section. */
  function FrameNext(sec: Section, q: Path, was: Option<nat>): Option<nat> {
    if Loaded(sec) && Split(sec.addr) == q && was.None? then Some(PageNumber(q)) else was
  }

  lemma {:induction false} FramesUpTo(states: seq<Loader>, file: seq<byte>, secs: seq<Section>, limit: nat, n: nat,
                                      q: Path)
    requires IsLoad(states, file, secs, limit) && n <= |secs|
    ensures MappedFrame(states[n].m.mem, q) == FrameAfter(states[0].m, secs, n, q)
    decreases n
  {
    if n > 0 {
      FramesUpTo(states, file, secs, limit, n - 1, q);
      FramesNext(states, file, secs, limit, n - 1, q);
    } else {
      FrameAfterNone(states[0].m, secs, q);
    }
  }

  lemma {:induction false} FrameAfterNone(m: Machine, secs: seq<Section>, q: Path)
    ensures FrameAfter(m, secs, 0, q) == MappedFrame(m.mem, q)
  {}

  lemma {:induction false} FramesNext(states: seq<Loader>, file: seq<byte>, secs: seq<Section>, limit: nat, n: nat,
                                      q: Path)
    requires IsLoad(states, file, secs, limit) && n < |secs|
    requires MappedFrame(states[n].m.mem, q) == FrameAfter(states[0].m, secs, n, q)
    ensures MappedFrame(states[n + 1].m.mem, q) == FrameAfter(states[0].m, secs, n + 1, q)
  {
    FramesStep(states, file, secs, limit, n, q);
    FrameAfterNext(states[0].m, secs, n, q);
  }

  lemma {:induction false} FrameAfterNext(m: Machine, secs: seq<Section>, n: nat, q: Path)
    requires n < |secs|
    ensures FrameAfter(m, secs, n + 1, q) == FrameNext(secs[n], q, FrameAfter(m, secs, n, q))
  {}

  lemma {:induction false} FramesStep(states: seq<Loader>, file: seq<byte>, secs: seq<Section>, limit: nat, n: nat,
                                      q: Path)
    requires IsLoad(states, file, secs, limit) && n < |secs|
    ensures MappedFrame(states[n + 1].m.mem, q) == FrameNext(secs[n], q, MappedFrame(states[n].m.mem, q))
  {
    StepAt(states, file, secs, limit, n);
    assert LoadTraceStep(states, file, secs, limit, n) && secs[n..][0] == secs[n];
    if Loaded(secs[n]) { SelfIsIdentity(secs[n].addr); }
  }

  /** Pages that were mapped stay as they were; the pages sections begin in are mapped to
      themselves; nothing else becomes mapped. */
  lemma {:induction false} LoadFrames(s: Loader, file: seq<byte>, secs: seq<Section>, limit: nat, q: Path)
    requires SoundBelow(s.m, limit) && CanLoad(s, secs, limit)
    ensures MappedFrame(LoadAll(s, file, secs).m.mem, q) == FrameAfter(s.m, secs, |secs|, q)
  {
    var states := LoadTrace(s, file, secs, limit);
    FramesUpTo(states, file, secs, limit, |secs|, q);
  }
}
