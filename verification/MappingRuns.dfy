/** Runs of the memory manager: any interleaving of allocate_page, invalidate_page and
    memory_map, and lists of mappings such as create_stack and the loader make. */
module MappingRuns {
  import opened FrameAllocator
  import opened PageTables
  import opened Mapping
  import opened MemoryMap

  // ---- arbitrary runs ----

  datatype Op = AllocatePage | InvalidatePage(frame: nat) | MapMemory(va: nat, pa: nat)

  ghost predicate CanStep(m: Machine, op: Op) {
    match op
    case AllocatePage => true
    case InvalidatePage(f) => f < NB_PAGE
    case MapMemory(va, pa) => TablesFit(m, va, pa)
  }

  ghost function Step(m: Machine, op: Op): Machine
    requires CanStep(m, op)
  {
    match op
    case AllocatePage => m.(used := Allocate(m.used).1)
    case InvalidatePage(f) => m.(used := Reserve(m.used, f))
    case MapMemory(va, pa) => MapPage(m, va, pa)
  }

  ghost predicate CanRun(m: Machine, ops: seq<Op>)
    decreases |ops|
  {
    ops == [] || (CanStep(m, ops[0]) && CanRun(Step(m, ops[0]), ops[1..]))
  }

  ghost function Run(m: Machine, ops: seq<Op>): Machine
    requires CanRun(m, ops)
    decreases |ops|
  {
    if ops == [] then m else Run(Step(m, ops[0]), ops[1..])
  }

  lemma MarkingKeepsInv(m: Machine, f: nat)
    requires Inv(m) && f < NB_PAGE
    ensures Inv(m.(used := m.used[f := true]))
  {
    var m' := m.(used := m.used[f := true]);
    forall q, k ensures TableHeld(m', q, k) { assert TableHeld(m, q, k); }
    forall q ensures LeafHeld(m', q) { assert LeafHeld(m, q); }
  }

  lemma StepKeepsInv(m: Machine, op: Op)
    requires Inv(m) && CanStep(m, op)
    ensures Inv(Step(m, op))
  {
    match op
    case AllocatePage => if Allocate(m.used).0 != 0 { MarkingKeepsInv(m, Allocate(m.used).0); }
    case InvalidatePage(f) => MarkingKeepsInv(m, f);
    case MapMemory(va, pa) => MapPageKeepsInv(m, va, pa);
  }

  /** Every run keeps the page-table invariant. */
  lemma {:induction false} RunKeepsInv(m: Machine, ops: seq<Op>)
    requires Inv(m) && CanRun(m, ops)
    ensures Inv(Run(m, ops))
    decreases |ops|
  {
    if ops != [] {
      StepKeepsInv(m, ops[0]);
      RunKeepsInv(Step(m, ops[0]), ops[1..]);
    }
  }

  function AtMost(n: nat, limit: nat): nat { if n <= limit then n else limit }

  /** How many frames a step takes from the allocator, as far as it has any. */
  ghost function Takes(m: Machine, op: Op): nat {
    match op
    case AllocatePage => if FreeBelow(m.used, NB_PAGE) > 0 then 1 else 0
    case InvalidatePage(_) => 0
    case MapMemory(va, pa) => AtMost(Needs(m, va, pa), FreeBelow(m.used, NB_PAGE))
  }

  /** Step op, taken in state m, hands out frame f: for a table, for data, or to its caller. */
  ghost predicate Grants(m: Machine, op: Op, f: nat) {
    HandedOut(m.used, Takes(m, op), f)
  }

  /** A step hands out at most four frames, all free before and marked after; frames are
      never given back; the only other frame it can mark is the one it was asked to reserve. */
  lemma StepGrants(m: Machine, op: Op, f: nat)
    requires Inv(m) && CanStep(m, op) && f < NB_PAGE
    ensures Takes(m, op) <= 4
    ensures Grants(m, op, f) ==> !m.used[f]
    ensures m.used[f] || Grants(m, op, f) ==> Step(m, op).used[f]
    ensures Step(m, op).used[f] && !m.used[f] && !Grants(m, op, f) ==>
            (op == InvalidatePage(f) || (op.MapMemory? && op.pa != 0 && f == FrameOf(op.pa)))
  {
    match op
    case AllocatePage =>
      FreeBelowZero(m.used, NB_PAGE);
      AllocateIsFirstFit(m.used);
      if FreeBelow(m.used, NB_PAGE) > 0 { AllocateCount(m.used, f); }
    case InvalidatePage(g) =>
    case MapMemory(va, pa) => MapGrants(m, va, pa, f);
  }

  lemma MapGrants(m: Machine, va: nat, pa: nat, f: nat)
    requires Inv(m) && TablesFit(m, va, pa) && f < NB_PAGE
    ensures var n := AtMost(Needs(m, va, pa), FreeBelow(m.used, NB_PAGE));
            && (m.used[f] || HandedOut(m.used, n, f) ==> MapPage(m, va, pa).used[f])
            && (MapPage(m, va, pa).used[f] && !m.used[f] && !HandedOut(m.used, n, f) ==> pa != 0 && f == FrameOf(pa))
  {
    var tables := Missing(m.mem, Split(va), 0);
    MapPageMarks(m, va, pa, f);
    FreeBelowMonotone(m.used, Frames(m), NB_PAGE);
    if Needs(m, va, pa) > tables {
      if tables < FreeBelow(m.used, NB_PAGE) {
        NextHandedOut(m.used, tables, f);
      } else {
        NothingLeft(m, tables);
      }
    }
  }

  lemma NothingLeft(m: Machine, n: nat)
    requires n == FreeBelow(m.used, NB_PAGE)
    ensures Allocate(TakeN(m.used, n)).0 == 0
  {
    TakeNCount(m.used, n, NB_PAGE);
    FreeBelowZero(TakeN(m.used, n), NB_PAGE);
    AllocateIsFirstFit(TakeN(m.used, n));
  }

  lemma {:induction false} MarksStay(m: Machine, ops: seq<Op>, n: nat, f: nat)
    requires Inv(m) && CanRun(m, ops) && n <= |ops| && f < NB_PAGE && m.used[f]
    ensures CanRun(m, ops[..n]) && Run(m, ops[..n]).used[f]
    decreases n
  {
    if n > 0 {
      StepKeepsInv(m, ops[0]);
      StepGrants(m, ops[0], f);
      MarksStay(Step(m, ops[0]), ops[1..], n - 1, f);
      assert ops[..n][1..] == ops[1..][..n - 1];
    }
  }

  lemma {:induction false} PrefixRuns(m: Machine, ops: seq<Op>, n: nat)
    requires CanRun(m, ops) && n < |ops|
    ensures CanRun(m, ops[..n]) && CanStep(Run(m, ops[..n]), ops[n])
    decreases n
  {
    if n > 0 {
      PrefixRuns(Step(m, ops[0]), ops[1..], n - 1);
      assert ops[..n][1..] == ops[1..][..n - 1];
    }
  }

  lemma GrantedOnce(m: Machine, ops: seq<Op>, j: nat, f: nat)
    requires Inv(m) && CanRun(m, ops) && 0 < j < |ops| && Grants(m, ops[0], f)
    ensures CanRun(m, ops[..j]) && Run(m, ops[..j]).used[f]
  {
    StepKeepsInv(m, ops[0]);
    StepGrants(m, ops[0], f);
    MarksStay(Step(m, ops[0]), ops[1..], j - 1, f);
    assert ops[..j][1..] == ops[1..][..j - 1];
  }

  /** On any run, no frame is handed out by two different steps. */
  lemma {:induction false} NeverTwice(m: Machine, ops: seq<Op>, i: nat, j: nat, f: nat)
    requires Inv(m) && CanRun(m, ops) && i < j < |ops|
    requires CanRun(m, ops[..i]) && Grants(Run(m, ops[..i]), ops[i], f)
    ensures CanRun(m, ops[..j]) && !Grants(Run(m, ops[..j]), ops[j], f)
    decreases i
  {
    if i == 0 {
      GrantedOnce(m, ops, j, f);
    } else {
      StepKeepsInv(m, ops[0]);
      assert ops[..i][1..] == ops[1..][..i - 1];
      NeverTwice(Step(m, ops[0]), ops[1..], i - 1, j - 1, f);
      assert ops[..j][1..] == ops[1..][..j - 1];
    }
  }
}
