/** Boot: any sequence of create_stack and load_file calls on a blank guest memory. */
module Boot {
  import opened Words
  import opened FrameAllocator
  import opened PageTables
  import opened Mapping
  import opened MemoryMap
  import opened MappingLists
  import opened DataWrites
  import opened SpareFrames
  import opened IdentityMap
  import opened StackPages
  import opened BootState
  import opened Sections

  datatype BootCall =
    | CreateStack(addr: nat, size: nat)
    | LoadFile(file: seq<byte>, secs: seq<Section>)

  datatype Booted = Booted(m: Machine, dico: Dico)

  /** The call meets its preconditions, with its tables below the given limit. */
  ghost predicate FitsCall(b: Booted, c: BootCall, limit: nat) {
    match c
    case CreateStack(addr, size) =>
      && StackArea(addr, size)
      && Room(b.m, StackRequests(addr, size), limit)
      && TargetsClear(b.m.mem, StackRequests(addr, size), limit)
    case LoadFile(_, secs) =>
      CanLoad(Loader(b.m, b.dico, 0), secs, limit)
  }

  /** ... and no earlier section has left bytes in the free frames below it. */
  ghost predicate CanCall(b: Booted, c: BootCall, limit: nat) {
    ZeroBelow(b.m, limit) && FitsCall(b, c, limit)
  }

  ghost function Call(b: Booted, c: BootCall): Booted
    requires c.CreateStack? ==> StackArea(c.addr, c.size)
  {
    match c
    case CreateStack(addr, size) => b.(m := MapAll(b.m, StackRequests(addr, size)))
    case LoadFile(file, secs) =>
      var after := LoadAll(Loader(b.m, b.dico, 0), file, secs);
      Booted(after.m, after.dico)
  }

  ghost predicate CanBoot(b: Booted, cs: seq<BootCall>)
    decreases |cs|
  {
    cs == [] || ((exists limit :: CanCall(b, cs[0], limit)) && CanBoot(Call(b, cs[0]), cs[1..]))
  }

  ghost function BootAll(b: Booted, cs: seq<BootCall>): Booted
    requires CanBoot(b, cs)
    decreases |cs|
  {
    if cs == [] then b else BootAll(Call(b, cs[0]), cs[1..])
  }

  lemma {:induction false} CallKeepsSound(b: Booted, c: BootCall, limit: nat)
    requires SoundBelow(b.m, limit) && FitsCall(b, c, limit)
    ensures SoundBelow(Call(b, c).m, limit)
  {
    match c
    case CreateStack(addr, size) => StackKeepsSound(b.m, addr, size, limit);
    case LoadFile(file, secs) => LoadKeepsSound(Loader(b.m, b.dico, 0), file, secs, limit);
  }

  lemma {:induction false} StackKeepsSound(m: Machine, addr: nat, size: nat, limit: nat)
    requires SoundBelow(m, limit) && StackArea(addr, size) && Room(m, StackRequests(addr, size), limit)
    requires TargetsClear(m.mem, StackRequests(addr, size), limit)
    ensures SoundBelow(MapAll(m, StackRequests(addr, size)), limit)
  {
    var rs := StackRequests(addr, size);
    ShapeCapped(m, limit);
    RoomCapped(m, rs, limit);
    RoomIsEnough(Capped(m, limit), rs, limit);
    StackKeeps(Capped(m, limit), addr, size, limit);
    MapAllCapped(m, rs, limit);
    MapAllKeepsShape(m, rs, limit);
  }

  /** Every boot keeps the machine in order, whatever its sections leave in free frames: tables form
      a tree, inside memory and marked; no table is anyone's data; every mapping is the identity. */
  lemma {:induction false} BootKeepsSound(b: Booted, cs: seq<BootCall>)
    requires SoundBelow(b.m, 0) && CanBoot(b, cs)
    ensures SoundBelow(BootAll(b, cs).m, 0)
    decreases |cs|
  {
    if cs != [] {
      var limit :| CanCall(b, cs[0], limit);
      CallKeepsSound(b, cs[0], limit);
      BootKeepsSound(Call(b, cs[0]), cs[1..]);
    }
  }

  ghost predicate FitBoot(b: Booted, cs: seq<BootCall>, limit: nat)
    decreases |cs|
  {
    cs == [] || (FitsCall(b, cs[0], limit) && FitBoot(Call(b, cs[0]), cs[1..], limit))
  }

  /** With one limit for the whole boot, the free frames below it need a look at its start only. */
  lemma {:induction false} OneLimitForAll(b: Booted, cs: seq<BootCall>, limit: nat)
    requires SoundBelow(b.m, limit) && FitBoot(b, cs, limit)
    ensures CanBoot(b, cs) && SoundBelow(BootAll(b, cs).m, limit)
    decreases |cs|
  {
    if cs != [] {
      assert CanCall(b, cs[0], limit);
      CallKeepsSound(b, cs[0], limit);
      OneLimitForAll(Call(b, cs[0]), cs[1..], limit);
    }
  }

  lemma {:induction false} StoresKeepIdentity(m: Machine, ss: seq<GuestStore>)
    requires Inv(m) && Separated(m.mem) && IdentityMapped(m.mem)
    ensures IdentityMapped(StoreAll(m, ss).mem)
    decreases |ss|
  {
    if ss != [] {
      StoreIsData(m, ss[0]);
      DataOnlyKeepsInv(m, Store(m, ss[0]).mem);
      DataOnlyIdentity(m, Store(m, ss[0]).mem);
      assert Store(m, ss[0]) == m.(mem := Store(m, ss[0]).mem);
      StoresKeepIdentity(Store(m, ss[0]), ss[1..]);
    }
  }

  lemma {:induction false} StoresOnCapped(m: Machine, ss: seq<GuestStore>, limit: nat)
    ensures StoreAll(Capped(m, limit), ss) == Capped(StoreAll(m, ss), limit)
    decreases |ss|
  {
    if ss != [] {
      assert Store(Capped(m, limit), ss[0]) == Capped(Store(m, ss[0]), limit);
      StoresOnCapped(Store(m, ss[0]), ss[1..], limit);
    }
  }

  /** The syscall handler may index guest memory with a guest address: whatever was booted on the
      blank memory, and whatever the guest has stored since, gva_to_gpa of a mapped address below
      2^48 is the address itself, and 0 for any other. */
  lemma DirectIndexingIsTranslation(size: nat, dico: Dico, cs: seq<BootCall>, ss: seq<GuestStore>, va: nat)
    requires size >= 2 * PAGE_SIZE && CanBoot(Booted(Blank(size), dico), cs) && va < 0x1_0000_0000_0000
    ensures var mem := StoreAll(BootAll(Booted(Blank(size), dico), cs).m, ss).mem;
            Walk(mem, va) == if MappedFrame(mem, Split(va)).Some? then va else 0
  {
    BlankIsSound(size);
    SoundIsSoundBelow(Blank(size));
    BootKeepsSound(Booted(Blank(size), dico), cs);
    var m := BootAll(Booted(Blank(size), dico), cs).m;
    ShapeCapped(m, 0);
    StoresKeepIdentity(Capped(m, 0), ss);
    StoresOnCapped(m, ss, 0);
    DirectIndexIsWalk(StoreAll(m, ss).mem, va);
  }

  // ---- a stack on the blank machine ----

  lemma {:induction false} AllFree(used: Flags, n: nat)
    requires 2 <= n <= NB_PAGE && forall k :: 0 <= k < NB_PAGE ==> !used[k]
    ensures FreeBelow(used, n) == n - 2
  {
    if n > 2 { AllFree(used, n - 1); }
  }

  lemma SameRegion(p: Path, q: Path)
    requires PageNumber(p) / 512 == PageNumber(q) / 512
    ensures Region(p) == Region(q)
  {
    Digit(PageNumber(p), (p.pgd * 512 + p.pud) * 512 + p.pmd, p.pte);
    Digit(PageNumber(q), (q.pgd * 512 + q.pud) * 512 + q.pmd, q.pte);
    PageNumberInjective(Region(p), Region(q));
  }

  /** A stack of one region needs at most one new region. */
  lemma OneRegion(m: Machine, addr: nat, size: nat)
    requires StackArea(addr, size) && FrameOf(addr - size) / 512 == FrameOf(addr) / 512
    ensures |NewRegions(m.mem, StackRequests(addr, size))| <= 1
  {
    var rs, top := StackRequests(addr, size), Region(Split(addr));
    StackBottom(addr, size);
    SelfIsIdentity(addr);
    forall x | x in NewRegions(m.mem, rs) ensures x in {top} {
      var i :| 0 <= i < |rs| && TableFor(m.mem, Split(rs[i].va), 0).None? && x == Region(Split(rs[i].va));
      PagesDownIdentity(addr, size / PAGE_SIZE + 1, rs[i]);
      SameRegion(Split(rs[i].va), Split(addr));
    }
    SubsetSize(NewRegions(m.mem, rs), {top});
  }

  /** On the blank memory, a stack inside one 2 MiB region whose lowest page is frame 5 or above
      meets create_stack's preconditions (the VMM's own is 0x3000 bytes below 0xE000). */
  lemma BlankStackFits(memSize: nat, dico: Dico, addr: nat, size: nat)
    requires memSize >= 2 * PAGE_SIZE && StackArea(addr, size)
    requires 5 <= FrameOf(addr - size) <= memSize / PAGE_SIZE && FrameOf(addr - size) / 512 == FrameOf(addr) / 512
    ensures CanCall(Booted(Blank(memSize), dico), CreateStack(addr, size), FrameOf(addr - size))
  {
    var m, rs, limit := Blank(memSize), StackRequests(addr, size), FrameOf(addr - size);
    AllFree(m.used, limit);
    OneRegion(m, addr, size);
    ThreeTablesPerRegion(m.mem, rs);
    BlankTargetsClear(memSize, addr, size);
    NoTargetsBelow(rs, limit);
  }

  lemma BlankTargetsClear(memSize: nat, addr: nat, size: nat)
    requires memSize >= 2 * PAGE_SIZE && StackArea(addr, size) && FrameOf(addr - size) >= 2
    ensures TargetsClear(Blank(memSize).mem, StackRequests(addr, size), FrameOf(addr - size))
  {
    StackBottom(addr, size);
    forall r | r in StackRequests(addr, size)
      ensures FrameOf(addr - size) <= Target(r) && !IsTable(Blank(memSize).mem, Target(r))
    {
      PagesDownIdentity(addr, size / PAGE_SIZE + 1, r);
      forall p, l ensures !Reaches(Blank(memSize).mem, p, l, Target(r)) { BlankTables(memSize, p, l); }
    }
  }
}
