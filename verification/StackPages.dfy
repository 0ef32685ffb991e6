/** create_stack as a list of mappings. */
module StackPages {
  import opened Words
  import opened FrameAllocator
  import opened PageTables
  import opened Mapping
  import opened MemoryMap
  import opened MappingLists
  import opened IdentityMap

  /** What the code asks of create_stack's caller: see LoopEnds for the multiple of a page. */
  predicate StackArea(addr: nat, size: nat) {
    FrameOf(addr) < NB_PAGE && size % PAGE_SIZE == 0 && size <= addr
  }

  /** The n pages going down from address i, each mapped to itself. */
  function PagesDown(i: nat, n: nat): (rs: seq<Request>)
    requires n > 0 ==> FrameOf(i) < NB_PAGE && PAGE_SIZE * (n - 1) <= i
    decreases n
  {
    if n == 0 then []
    else [Raw(i, i)] + if n == 1 then [] else PagesDown(i - PAGE_SIZE, n - 1)
  }

  function StackRequests(addr: nat, size: nat): seq<Request>
    requires StackArea(addr, size)
  {
    PagesDown(addr, size / PAGE_SIZE + 1)
  }

  lemma {:induction false} PagesDownTargets(i: nat, n: nat, q: Path)
    requires n > 0 && FrameOf(i) < NB_PAGE && PAGE_SIZE * (n - 1) <= i
    ensures TargetIn(PagesDown(i, n), q) ==
            if FrameOf(i) < PageNumber(q) + n && PageNumber(q) <= FrameOf(i) then Some(PageNumber(q)) else None
    decreases n
  {
    SelfIsIdentity(i);
    if Split(i) != q && PageNumber(Split(i)) == PageNumber(q) { PageNumberInjective(Split(i), q); }
    if n > 1 {
      PagesDownTargets(i - PAGE_SIZE, n - 1, q);
      assert FrameOf(i - PAGE_SIZE) == FrameOf(i) - 1;
      assert PagesDown(i, n)[1..] == PagesDown(i - PAGE_SIZE, n - 1);
    } else {
      assert PagesDown(i, n)[1..] == [];
    }
  }

  lemma OnePageDown(i: nat)
    requires i >= PAGE_SIZE
    ensures FrameOf(i - PAGE_SIZE) == FrameOf(i) - 1
  {}

  lemma {:induction false} PagesDownIdentity(i: nat, n: nat, r: Request)
    requires n > 0 && FrameOf(i) < NB_PAGE && PAGE_SIZE * (n - 1) <= i && r in PagesDown(i, n)
    ensures IsIdentity(r) && FrameOf(i) < Target(r) + n && Target(r) <= FrameOf(i)
    decreases n
  {
    if r == Raw(i, i) {
      SelfIsIdentity(i);
    } else {
      assert n > 1 && r in PagesDown(i - PAGE_SIZE, n - 1);
      OnePageDown(i);
      PagesDownIdentity(i - PAGE_SIZE, n - 1, r);
    }
  }

  /** create_stack leaves addr and exactly the size / 0x1000 pages below it mapped to themselves
      where they were not mapped before; every other address is translated as before. */
  lemma StackTranslations(m: Machine, addr: nat, size: nat, va: nat)
    requires Inv(m) && StackArea(addr, size) && AllFit(m, StackRequests(addr, size)) && va < 0x1_0000_0000_0000
    ensures var after := MapAll(m, StackRequests(addr, size));
            var inStack := FrameOf(addr - size) <= FrameOf(va) <= FrameOf(addr);
            Walk(after.mem, va) == if inStack && MappedFrame(m.mem, Split(va)).None? then va else Walk(m.mem, va)
  {
    var rs := StackRequests(addr, size);
    MapAllFrames(m, rs, Split(va));
    PagesDownTargets(addr, size / PAGE_SIZE + 1, Split(va));
    SplitIsPageNumber(va);
    PageAndOffset(va);
    StackBottom(addr, size);
    WalkIsFrame(m.mem, va);
    WalkIsFrame(MapAll(m, rs).mem, va);
  }

  lemma StackBottom(addr: nat, size: nat)
    requires size % PAGE_SIZE == 0 && size <= addr
    ensures FrameOf(addr - size) == FrameOf(addr) - size / PAGE_SIZE
  {
    assert addr - size == (FrameOf(addr) - size / PAGE_SIZE) * PAGE_SIZE + addr % PAGE_SIZE;
  }

  /** The invariant, the identity map, and (with the tables fitting below the stack) the
      separation of tables from data all survive create_stack. */
  lemma StackKeeps(m: Machine, addr: nat, size: nat, limit: nat)
    requires Inv(m) && StackArea(addr, size) && AllFit(m, StackRequests(addr, size))
    ensures var rs := StackRequests(addr, size);
            var after := MapAll(m, rs);
            && Inv(after)
            && (IdentityMapped(m.mem) ==> IdentityMapped(after.mem))
            && (Separated(m.mem) && Room(m, rs, limit) && TargetsClear(m.mem, rs, limit) ==> Separated(after.mem))
  {
    var rs := StackRequests(addr, size);
    MapAllKeepsInv(m, rs);
    if IdentityMapped(m.mem) {
      forall r | r in rs ensures IsIdentity(r) { PagesDownIdentity(addr, size / PAGE_SIZE + 1, r); }
      MapAllIdentity(m, rs);
    }
    if Separated(m.mem) && Room(m, rs, limit) && TargetsClear(m.mem, rs, limit) { MapAllSeparated(m, rs, limit); }
  }

  /** i - 0x1000 in 64-bit arithmetic */
  function Below(i: nat): nat { (i - PAGE_SIZE) % WORD_LIMIT }

  /** The list goes down from address i page by page. */
  predicate GoesDown(rs: seq<Request>, i: nat) {
    forall k :: 0 <= k < |rs| ==> PAGE_SIZE * k <= i && rs[k] == Raw(i - PAGE_SIZE * k, i - PAGE_SIZE * k)
  }

  lemma {:induction false} PagesGoDown(i: nat, n: nat)
    requires n > 0 && FrameOf(i) < NB_PAGE && PAGE_SIZE * (n - 1) <= i
    ensures |PagesDown(i, n)| == n && GoesDown(PagesDown(i, n), i)
    decreases n
  {
    if n > 1 {
      PagesGoDown(i - PAGE_SIZE, n - 1);
      var rest := PagesDown(i - PAGE_SIZE, n - 1);
      assert PagesDown(i, n) == [Raw(i, i)] + rest;
      forall k | 0 < k < n ensures PagesDown(i, n)[k] == Raw(i - PAGE_SIZE * k, i - PAGE_SIZE * k) {
        assert PagesDown(i, n)[k] == rest[k - 1];
      }
    }
  }

  // ---- termination ----

  /** The loop's 64-bit size after k rounds. */
  function SizeAfter(size: nat, k: nat): nat { (size - PAGE_SIZE * k) % WORD_LIMIT }

  /** The loop of create_stack ends exactly for sizes that are a multiple of a page. */
  lemma LoopEnds(size: nat)
    requires size < WORD_LIMIT
    ensures (exists k: nat :: SizeAfter(size, k) == 0) <==> size % PAGE_SIZE == 0
  {
    if size % PAGE_SIZE == 0 {
      assert SizeAfter(size, size / PAGE_SIZE) == 0;
    }
    if k: nat :| SizeAfter(size, k) == 0 {
      var d := (size - PAGE_SIZE * k) / WORD_LIMIT;
      assert size == PAGE_SIZE * (k + d * 0x10_0000_0000_0000);
    }
  }
}
