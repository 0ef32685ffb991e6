/** The memory manager itself: page tables built in place in the guest memory buffer. */
module MemoryManager {
  import opened Words
  import opened FrameAllocator
  import opened PageTables
  import opened Mapping
  import opened MemoryMap
  import opened MappingLists
  import opened SpareFrames
  import opened StackPages
  import opened RawWalk

  class Manager {
    const mem: array<byte>
    const pageAllocator: array<bool>

    /** The tables are in order. What is known of free frames goes with each call: those below a
        limit are zero, and the call's frames fit there. */
    ghost predicate Valid()
      reads this, mem, pageAllocator
    {
      pageAllocator.Length == NB_PAGE && Shape(State())
    }

    ghost function State(): Machine
      requires pageAllocator.Length == NB_PAGE
      reads this, mem, pageAllocator
    {
      Machine(mem[..], pageAllocator[..])
    }

    constructor (mem: array<byte>, pageAllocator: array<bool>)
      ensures this.mem == mem && this.pageAllocator == pageAllocator
    {
      this.mem, this.pageAllocator := mem, pageAllocator;
    }

    // ---- 64-bit accesses ----

    method Load64(a: nat) returns (v: nat)
      requires a + 8 <= mem.Length
      ensures v == FromLE(mem[a .. a + 8])
    {
      v := FromLE(mem[a .. a + 8]);
    }

    method Store64(a: nat, v: nat)
      requires a + 8 <= mem.Length
      modifies mem
      ensures mem[..] == Overwrite(old(mem[..]), a, ToLE(v, 8))
    {
      CopyIn(a, ToLE(v, 8));
    }

    method ReadEntry(t: nat, i: Index) returns (e: nat)
      requires PAGE_SIZE * t + PAGE_SIZE <= mem.Length
      ensures e == Entry(mem[..], t, i)
    {
      e := Load64(PAGE_SIZE * t + 8 * i);
      assert mem[..][PAGE_SIZE * t + 8 * i .. PAGE_SIZE * t + 8 * i + 8] ==
             mem[PAGE_SIZE * t + 8 * i .. PAGE_SIZE * t + 8 * i + 8];
    }

    method WriteEntry(t: nat, i: Index, e: nat)
      requires PAGE_SIZE * t + PAGE_SIZE <= mem.Length
      modifies mem
      ensures mem[..] == Put(old(mem[..]), t, i, e)
    {
      Store64(PAGE_SIZE * t + 8 * i, e);
    }

    // ---- the frame allocator ----

    /** allocate_page: the address of the first free frame, 0 when there is none. */
    method AllocatePage() returns (ret: nat)
      requires pageAllocator.Length == NB_PAGE
      modifies pageAllocator
      ensures ret == 0x1000 * Allocate(old(pageAllocator[..])).0
      ensures pageAllocator[..] == Allocate(old(pageAllocator[..])).1
      ensures FirstFree(old(pageAllocator[..]), pageAllocator[..], Allocate(old(pageAllocator[..])).0)
    {
      AllocatesFirstFree(pageAllocator[..]);
      ghost var used: Flags := pageAllocator[..];
      ret := 0;
      var i := 2;
      while i < NB_PAGE
        invariant 2 <= i <= NB_PAGE && ret == 0
        invariant pageAllocator[..] == used
        invariant FirstFreeFrom(used, 2) == FirstFreeFrom(used, i)
      {
        if !pageAllocator[i] {
          ret := i * PAGE_SIZE;
          pageAllocator[i] := true;
          assert pageAllocator[..] == used[i := true];
          return;
        }
        i := i + 1;
      }
    }

    /** invalidate_page: reserves a frame. */
    method InvalidatePage(page: nat)
      requires pageAllocator.Length == NB_PAGE && page < NB_PAGE
      modifies pageAllocator
      ensures pageAllocator[..] == Reserve(old(pageAllocator[..]), page)
    {
      pageAllocator[page] := true;
    }

    // ---- memory_map ----

    /** Stores a freshly allocated table in entry i of table t. */
    method LinkTable(t: nat, i: Index) returns (e: nat)
      requires pageAllocator.Length == NB_PAGE && PAGE_SIZE * t + PAGE_SIZE <= mem.Length
      modifies mem, pageAllocator
      ensures pageAllocator[..] == Allocate(old(pageAllocator[..])).1
      ensures e == WithFlags(PAGE_SIZE * Allocate(old(pageAllocator[..])).0)
      ensures mem[..] == Put(old(mem[..]), t, i, e)
    {
      var page := AllocatePage();
      e := WithFlags(page);
      WriteEntry(t, i, e);
    }

    /** A call for path p that began in state m has come down to table t of level l. */
    ghost predicate At(m: Machine, p: Path, l: Level, t: nat)
      reads this, mem, pageAllocator
    {
      && pageAllocator.Length == NB_PAGE
      && State() == Linked(m, p, l)
      && TableFor(mem[..], p, l) == Some(t)
      && PAGE_SIZE * t + PAGE_SIZE <= mem.Length
    }

    /** The block memory_map repeats for PGD, PUD and PMD: follow entry i of table t, first giving
        it a fresh table if it is not present. */
    method FollowOrLink(t: nat, i: Index, ghost m: Machine, ghost p: Path, ghost l: Level, ghost limit: nat)
      returns (next: nat)
      requires l >= 1 && i == p.At(l) && At(m, p, l, t)
      requires Inv(Capped(m, limit)) && Missing(m.mem, p, 0) <= FreeBelow(Capped(m, limit).used, Frames(m))
      modifies mem, pageAllocator
      ensures At(m, p, l - 1, next)
    {
      LinkedStepCapped(m, p, l - 1, limit);
      var e := ReadEntry(t, i);
      if !Present(e) {
        TableEntry(Allocate(pageAllocator[..]).0);
        e := LinkTable(t, i);
        assert State() == Linked(m, p, l - 1);
      }
      next := FrameOf(e);
    }

    /** memory_map(mem, va, pa), with its frames below the limit. */
    method MapMemory(va: nat, pa: nat, ghost limit: nat)
      requires Valid() && ZeroBelow(State(), limit) && Fits(Capped(State(), limit), va, pa)
      modifies mem, pageAllocator
      ensures Valid() && ZeroBelow(State(), limit) && State() == MapPage(old(State()), va, pa)
      ensures NowMapped(old(mem[..]), mem[..], va, pa)
      ensures forall b: nat :: SameElsewhere(old(mem[..]), mem[..], va, b)
    {
      ghost var m := State();
      var p := Split(va);
      ShapeCapped(m, limit);
      MapPageCapped(m, va, pa, limit);
      CallInBytes(Capped(m, limit), va, pa);
      MapPageKeepsShape(m, va, pa, limit);
      assert TableHeld(m, p, 3);
      var pud := FollowOrLink(CR3_FRAME, p.pgd, m, p, 3, limit);
      var pmd := FollowOrLink(pud, p.pud, m, p, 2, limit);
      var pte := FollowOrLink(pmd, p.pmd, m, p, 1, limit);
      SetLastEntry(pte, va, pa);
    }

    /** The last block of memory_map. */
    method SetLastEntry(t: nat, va: nat, pa: nat)
      requires pageAllocator.Length == NB_PAGE && FrameOf(pa) < NB_PAGE
      requires PAGE_SIZE * t + PAGE_SIZE <= mem.Length
      requires TableFor(mem[..], Split(va), 0) == Some(t)
      modifies mem, pageAllocator
      ensures State() == SetLeaf(old(State()), va, pa)
    {
      var i := Split(va).pte;
      var e := ReadEntry(t, i);
      if !Present(e) {
        var target := ReserveTarget(va, pa);
        WriteEntry(t, i, WithFlags(target));
      }
    }

    /** Which physical address the last block stores, reserving it on the way. */
    method ReserveTarget(va: nat, pa: nat) returns (target: nat)
      requires pageAllocator.Length == NB_PAGE && FrameOf(pa) < NB_PAGE
      modifies pageAllocator
      ensures (target, pageAllocator[..]) ==
              if va == 0 then (0, old(pageAllocator[..]))
              else if pa == 0 then (PAGE_SIZE * Allocate(old(pageAllocator[..])).0, Allocate(old(pageAllocator[..])).1)
              else (pa, Reserve(old(pageAllocator[..]), FrameOf(pa)))
    {
      target := pa;
      if va == 0 {
        target := 0;
      } else if pa == 0 {
        target := AllocatePage();
      } else {
        InvalidatePage(FrameOf(pa));
      }
    }

    /** memcpy(&mem[a], w, |w|) */
    method CopyIn(a: nat, w: seq<byte>)
      requires a + |w| <= mem.Length
      modifies mem
      ensures mem[..] == Overwrite(old(mem[..]), a, w)
    {
      forall k | 0 <= k < |w| { mem[a + k] := w[k]; }
      assert mem[..] == Overwrite(old(mem[..]), a, w);
    }

    // ---- translation ----

    /** gva_to_gpa: 0 when some entry is not present. */
    method GvaToGpa(va: nat) returns (gpa: nat)
      requires Valid()
      ensures gpa == Walk(mem[..], va) == WalkBytes(mem[..], va)
    {
      WalkInBytes(mem[..], va);
      var p := Split(va);
      assert TableHeld(State(), p, 3);
      var e := ReadEntry(CR3_FRAME, p.pgd);
      if !Present(e) { return 0; }
      assert TableFor(mem[..], p, 2) == Some(FrameOf(e)) && TableHeld(State(), p, 2);
      e := ReadEntry(FrameOf(e), p.pud);
      if !Present(e) { return 0; }
      assert TableFor(mem[..], p, 1) == Some(FrameOf(e)) && TableHeld(State(), p, 1);
      e := ReadEntry(FrameOf(e), p.pmd);
      if !Present(e) { return 0; }
      assert TableFor(mem[..], p, 0) == Some(FrameOf(e)) && TableHeld(State(), p, 0);
      e := ReadEntry(FrameOf(e), p.pte);
      if !Present(e) { return 0; }
      gpa := FrameOf(e) * PAGE_SIZE + va % PAGE_SIZE;
    }

    /** gva_to_hva: an index into mem, None for the null pointer. */
    method GvaToHva(va: nat) returns (hva: Option<nat>)
      requires Valid()
      ensures hva == if WalkBytes(mem[..], va) == 0 then None else Some(WalkBytes(mem[..], va))
    {
      var gpa := GvaToGpa(va);
      if gpa == 0 { return None; }
      return Some(gpa);
    }

    // ---- create_stack ----

    /** create_stack(addr, size): the loop counts size down and i runs below it in 64-bit
        arithmetic, so i may wrap after the last round. */
    method CreateStack(addr: nat, size: nat, ghost limit: nat)
      requires Valid() && ZeroBelow(State(), limit)
      requires StackArea(addr, size) && AllFit(Capped(State(), limit), StackRequests(addr, size))
      modifies mem, pageAllocator
      ensures Valid() && ZeroBelow(State(), limit) && State() == MapAll(old(State()), StackRequests(addr, size))
    {
      ghost var rs := StackRequests(addr, size);
      ShapeCapped(State(), limit);
      ghost var states := TraceOf(State(), rs, limit);
      PagesGoDown(addr, size / PAGE_SIZE + 1);
      RunStack(addr, size, states, rs, limit);
    }

    method RunStack(addr: nat, size: nat, ghost states: seq<Machine>, ghost rs: seq<Request>, ghost limit: nat)
      requires Valid() && ZeroBelow(State(), limit) && StackArea(addr, size)
      requires IsTrace(states, rs, limit) && states[0] == State()
      requires |rs| == size / PAGE_SIZE + 1 && GoesDown(rs, addr)
      modifies mem, pageAllocator
      ensures Valid() && ZeroBelow(State(), limit) && State() == states[|rs|]
    {
      MapNext(addr, addr, states, rs, 0, limit);
      var i, left := Below(addr), size;
      ghost var k := 1;
      while left != 0
        invariant left == PAGE_SIZE * (|rs| - k) && 1 <= k <= |rs|
        invariant left != 0 ==> i == addr - PAGE_SIZE * k
        invariant Valid() && ZeroBelow(State(), limit) && State() == states[k]
        decreases left
      {
        MapNext(i, i, states, rs, k, limit);
        i, left, k := Below(i), left - PAGE_SIZE, k + 1;
      }
    }

    /** memory_map as the next step of a list of mappings. */
    method MapNext(va: nat, pa: nat, ghost states: seq<Machine>, ghost rs: seq<Request>, ghost k: nat, ghost limit: nat)
      requires IsTrace(states, rs, limit) && k < |rs| && rs[k] == Raw(va, pa)
      requires Valid() && ZeroBelow(State(), limit) && State() == states[k]
      modifies mem, pageAllocator
      ensures Valid() && ZeroBelow(State(), limit) && State() == states[k + 1]
    {
      assert TraceStep(states, rs, limit, k);
      MapMemory(va, pa, limit);
    }
  }
}
