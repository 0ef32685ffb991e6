/** The identity map the syscall handler relies on when it indexes guest memory directly. */
module IdentityMap {
  import opened Words
  import opened FrameAllocator
  import opened PageTables
  import opened Mapping
  import opened MemoryMap
  import opened MappingLists
  import opened DataWrites

  ghost predicate IdentityAt(mem: seq<byte>, p: Path) {
    MappedFrame(mem, p).Some? ==> MappedFrame(mem, p).value == PageNumber(p)
  }

  /** Every mapped page is mapped to the frame of the same number. */
  ghost predicate IdentityMapped(mem: seq<byte>) {
    forall p :: IdentityAt(mem, p)
  }

  /** For every address below 2^48 the direct index is the walk: gva_to_gpa gives the address
      itself on a mapped page, and 0 on any other. */
  lemma DirectIndexIsWalk(mem: seq<byte>, va: nat)
    requires IdentityMapped(mem) && va < 0x1_0000_0000_0000
    ensures Walk(mem, va) == if MappedFrame(mem, Split(va)).Some? then va else 0
  {
    assert IdentityAt(mem, Split(va));
    SplitIsPageNumber(va);
    WalkIsFrame(mem, va);
    PageAndOffset(va);
  }

  lemma PageAndOffset(va: nat)
    requires va < 0x1_0000_0000_0000
    ensures (va / PAGE_SIZE) % 0x10_0000_0000 == va / PAGE_SIZE
    ensures va / PAGE_SIZE * PAGE_SIZE + va % PAGE_SIZE == va
  {}

  predicate IsIdentity(r: Request) { Target(r) == PageNumber(Split(r.va)) }

  /** Mapping an address to itself maps its page to itself, even when the address is not aligned. */
  lemma SelfIsIdentity(a: nat)
    requires FrameOf(a) < NB_PAGE
    ensures IsIdentity(Raw(a, a)) && PageNumber(Split(a)) == FrameOf(a)
  {
    SplitIsPageNumber(a);
  }

  lemma MapPageIdentity(m: Machine, r: Request)
    requires Inv(m) && Fits(m, r.va, r.pa) && IsIdentity(r) && IdentityMapped(m.mem)
    ensures IdentityMapped(MapPage(m, r.va, r.pa).mem)
  {
    forall q ensures IdentityAt(MapPage(m, r.va, r.pa).mem, q) {
      assert IdentityAt(m.mem, q);
      MapPageFrames(m, r.va, r.pa, q);
    }
  }

  lemma {:induction false} TargetIsIdentity(rs: seq<Request>, q: Path)
    requires forall r :: r in rs ==> IsIdentity(r)
    ensures TargetIn(rs, q).Some? ==> TargetIn(rs, q).value == PageNumber(q)
  {
    if rs != [] {
      assert rs[0] in rs;
      TargetIsIdentity(rs[1..], q);
    }
  }

  lemma MapAllIdentity(m: Machine, rs: seq<Request>)
    requires Inv(m) && AllFit(m, rs) && IdentityMapped(m.mem)
    requires forall r :: r in rs ==> IsIdentity(r)
    ensures IdentityMapped(MapAll(m, rs).mem)
  {
    forall q ensures IdentityAt(MapAll(m, rs).mem, q) {
      assert IdentityAt(m.mem, q);
      MapAllFrames(m, rs, q);
      TargetIsIdentity(rs, q);
    }
  }

  lemma DataOnlyIdentity(m: Machine, mem': seq<byte>)
    requires DataOnly(m, mem') && IdentityMapped(m.mem)
    ensures IdentityMapped(mem')
  {
    forall q ensures IdentityAt(mem', q) {
      assert IdentityAt(m.mem, q);
      DataOnlyLeaves(m, mem', q);
    }
  }
}
