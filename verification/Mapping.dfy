/** memory_map as a function of the machine, and the invariant it keeps. */
module Mapping {
  import opened Words
  import opened FrameAllocator
  import opened PageTables

  /** Guest memory and the allocator's in-use flags. */
  datatype Machine = Machine(mem: seq<byte>, used: Flags)

  /** The number of frames that are both inside guest memory and known to the allocator. */
  function Frames(m: Machine): (n: nat)
    ensures n <= NB_PAGE
  {
    if |m.mem| / PAGE_SIZE < NB_PAGE then |m.mem| / PAGE_SIZE else NB_PAGE
  }

  // ---- the invariant ----

  ghost predicate TableFrame(m: Machine, t: nat) {
    PAGE_SIZE * t + PAGE_SIZE <= |m.mem| && (t == CR3_FRAME || (2 <= t < NB_PAGE && m.used[t]))
  }

  /** The allocator will never hand out frame f. */
  ghost predicate Held(m: Machine, f: nat) {
    f < 2 || f >= NB_PAGE || m.used[f]
  }

  ghost predicate ZeroFrame(mem: seq<byte>, f: nat) {
    forall k :: PAGE_SIZE * f <= k < PAGE_SIZE * f + PAGE_SIZE && k < |mem| ==> mem[k] == 0
  }

  ghost predicate TableHeld(m: Machine, p: Path, l: Level) {
    TableFor(m.mem, p, l).Some? ==> TableFrame(m, TableFor(m.mem, p, l).value)
  }

  /** Every reachable table lies inside guest memory and is marked used. */
  ghost predicate TablesHeld(m: Machine) {
    |m.mem| >= 2 * PAGE_SIZE && forall p, l :: TableHeld(m, p, l)
  }

  ghost predicate OneParent(mem: seq<byte>, p: Path, l: Level, q: Path, k: Level) {
    TableFor(mem, p, l).Some? && TableFor(mem, p, l) == TableFor(mem, q, k) ==> l == k && SameAbove(p, q, l)
  }

  /** The reachable tables form a tree: one frame is reached at one level, through one list of indices. */
  ghost predicate TablesFormTree(mem: seq<byte>) {
    forall p, l, q, k :: OneParent(mem, p, l, q, k)
  }

  ghost predicate FreeFramesZero(m: Machine) {
    forall f :: 2 <= f < NB_PAGE && !m.used[f] ==> ZeroFrame(m.mem, f)
  }

  ghost predicate LeafHeld(m: Machine, p: Path) {
    Leaf(m.mem, p).Some? ==> Held(m, FrameOf(Leaf(m.mem, p).value))
  }

  ghost predicate LeavesHeld(m: Machine) {
    forall p :: LeafHeld(m, p)
  }

  ghost predicate Inv(m: Machine) {
    TablesHeld(m) && TablesFormTree(m.mem) && FreeFramesZero(m) && LeavesHeld(m)
  }

  // ---- one step down: make sure the next table exists ----

  /** Gives the level-l table of p a child for p when it has none; l is 3, 2 or 1. */
  function Link(m: Machine, p: Path, l: Level): (r: Machine)
    ensures |r.mem| == |m.mem|
  {
    match TableFor(m.mem, p, l)
    case None => m
    case Some(t) =>
      if Present(Entry(m.mem, t, p.At(l))) then m else
        var (f, used) := Allocate(m.used);
        Machine(Put(m.mem, t, p.At(l), WithFlags(PAGE_SIZE * f)), used)
  }

  ghost predicate NeedsLink(m: Machine, p: Path, l: Level) {
    TableFor(m.mem, p, l).Some? && !Present(Entry(m.mem, TableFor(m.mem, p, l).value, p.At(l)))
  }

  lemma ZeroFrameEntries(mem: seq<byte>, f: nat, i: Index)
    requires ZeroFrame(mem, f)
    ensures Entry(mem, f, i) == 0
  {
    var a := PAGE_SIZE * f + 8 * i;
    if a + 8 <= |mem| { ZeroWord(mem[a .. a + 8]); }
  }

  /** Nothing reaches a free frame. */
  lemma FreeFrameIsNoTable(m: Machine, f: nat, q: Path, k: Level)
    requires Inv(m) && 2 <= f < NB_PAGE && !m.used[f]
    ensures TableFor(m.mem, q, k) != Some(f)
  {
    assert TableHeld(m, q, k);
  }

  /** The memories agree on every entry but the one that now points to frame f, which is empty. */
  ghost predicate LinkedTo(mem: seq<byte>, mem': seq<byte>, t: nat, i: Index, f: nat) {
    && !Present(Entry(mem, t, i))
    && (forall j: Index :: Entry(mem, f, j) == 0)
    && t != f
    && (forall u: nat, j: Index ::
          Entry(mem', u, j) == if u == t && j == i then WithFlags(PAGE_SIZE * f) else Entry(mem, u, j))
  }

  lemma LinkedChild(mem: seq<byte>, mem': seq<byte>, t: nat, i: Index, f: nat, u: nat, j: Index)
    requires LinkedTo(mem, mem', t, i, f)
    ensures Child(mem', Some(f), j) == None
    ensures Child(mem, Some(t), i) == None
    ensures Child(mem', Some(u), j) == if u == t && j == i then Some(f) else Child(mem, Some(u), j)
  {
    FlagsOf(PAGE_SIZE * f);
    assert Entry(mem', f, j) == 0;
    assert Entry(mem', u, j) == if u == t && j == i then WithFlags(PAGE_SIZE * f) else Entry(mem, u, j);
  }

  lemma LinkedBelow(mem: seq<byte>, mem': seq<byte>, p: Path, l: Level, f: nat, q: Path, k: Level)
    requires l >= 1 && k < 3 && TableFor(mem, p, l).Some? && LinkedTo(mem, mem', TableFor(mem, p, l).value, p.At(l), f)
    requires OneParent(mem, p, l, q, k + 1)
    requires TableFor(mem', q, k + 1) ==
             if k + 1 == l - 1 && SameAbove(p, q, k + 1) then Some(f) else TableFor(mem, q, k + 1)
    ensures TableFor(mem', q, k) == if k == l - 1 && SameAbove(p, q, k) then Some(f) else TableFor(mem, q, k)
  {
    var t := TableFor(mem, p, l).value;
    var above := TableFor(mem, q, k + 1);
    if SameAbove(p, q, l) { SameTable(mem, p, q, l); }
    LinkedChild(mem, mem', t, p.At(l), f, if above.Some? then above.value else 0, q.At(k + 1));
  }

  lemma {:induction false} LinkTables(m: Machine, p: Path, l: Level, q: Path, k: Level)
    requires Inv(m) && l >= 1 && NeedsLink(m, p, l) && FreeBelow(m.used, Frames(m)) > 0
    ensures TableFor(Link(m, p, l).mem, q, k) ==
            if k == l - 1 && SameAbove(p, q, k) then Some(Allocate(m.used).0) else TableFor(m.mem, q, k)
    decreases 3 - k
  {
    if k < 3 {
      var f := Allocate(m.used).0;
      LinkTables(m, p, l, q, k + 1);
      LinkIsLinked(m, p, l);
      assert OneParent(m.mem, p, l, q, k + 1);
      LinkedBelow(m.mem, Link(m, p, l).mem, p, l, f, q, k);
    }
  }

  lemma LinkIsLinked(m: Machine, p: Path, l: Level)
    requires Inv(m) && l >= 1 && NeedsLink(m, p, l) && FreeBelow(m.used, Frames(m)) > 0
    ensures 2 <= Allocate(m.used).0 < Frames(m) && !m.used[Allocate(m.used).0]
    ensures LinkedTo(m.mem, Link(m, p, l).mem, TableFor(m.mem, p, l).value, p.At(l), Allocate(m.used).0)
  {
    forall u, j: Index { LinkedEntry(m, p, l, u, j); }
    LinkedEntry(m, p, l, 0, 0);
  }

  /** What Link changes: one entry of p's level-l table; the new table is empty. */
  lemma LinkedEntry(m: Machine, p: Path, l: Level, u: nat, j: Index)
    requires Inv(m) && l >= 1 && NeedsLink(m, p, l) && FreeBelow(m.used, Frames(m)) > 0
    ensures var t, f := TableFor(m.mem, p, l).value, Allocate(m.used).0;
            && 2 <= f < Frames(m) && !m.used[f] && t != f
            && Entry(m.mem, f, j) == 0
            && Present(WithFlags(PAGE_SIZE * f)) && FrameOf(WithFlags(PAGE_SIZE * f)) == f
            && Entry(Link(m, p, l).mem, u, j) ==
               if u == t && j == p.At(l) then WithFlags(PAGE_SIZE * f) else Entry(m.mem, u, j)
  {
    var t, f := TableFor(m.mem, p, l).value, Allocate(m.used).0;
    AllocateBelow(m.used, Frames(m));
    FlagsOf(PAGE_SIZE * f);
    FreeFrameIsNoTable(m, f, p, l);
    assert TableHeld(m, p, l);
    assert ZeroFrame(m.mem, f);
    ZeroFrameEntries(m.mem, f, j);
    EntryAfterPut(m.mem, t, p.At(l), WithFlags(PAGE_SIZE * f), u, j);
  }

  lemma LinkLeaves(m: Machine, p: Path, l: Level, q: Path)
    requires Inv(m) && l >= 1 && NeedsLink(m, p, l) && FreeBelow(m.used, Frames(m)) > 0
    ensures Leaf(Link(m, p, l).mem, q) == Leaf(m.mem, q)
  {
    LinkTables(m, p, l, q, 0);
    var last := TableFor(m.mem, q, 0);
    if l == 1 && SameAbove(p, q, 0) {
      LinkedEntry(m, p, l, Allocate(m.used).0, q.pte);
      SameTable(m.mem, p, q, 1);
    } else if last.Some? {
      LinkedEntry(m, p, l, last.value, q.pte);
      assert OneParent(m.mem, p, l, q, 0);
    }
  }

  // ---- Link keeps the invariant ----

  lemma LinkFlags(m: Machine, p: Path, l: Level)
    requires l >= 1 && NeedsLink(m, p, l) && FreeBelow(m.used, Frames(m)) > 0
    ensures Frames(Link(m, p, l)) == Frames(m)
    ensures Link(m, p, l).used == m.used[Allocate(m.used).0 := true]
    ensures FreeBelow(Link(m, p, l).used, Frames(m)) == FreeBelow(m.used, Frames(m)) - 1
  {
    AllocateBelow(m.used, Frames(m));
  }

  lemma LinkTreeAt(m: Machine, p: Path, l: Level, q: Path, k: Level, q': Path, k': Level)
    requires Inv(m) && l >= 1 && NeedsLink(m, p, l) && FreeBelow(m.used, Frames(m)) > 0
    ensures OneParent(Link(m, p, l).mem, q, k, q', k')
  {
    LinkTables(m, p, l, q, k);
    LinkTables(m, p, l, q', k');
    AllocateBelow(m.used, Frames(m));
    FreeFrameIsNoTable(m, Allocate(m.used).0, q, k);
    FreeFrameIsNoTable(m, Allocate(m.used).0, q', k');
    assert OneParent(m.mem, q, k, q', k');
    if k == k' && SameAbove(p, q, k) && SameAbove(p, q', k) { SameAboveJoins(p, q, q', k); }
  }

  lemma {:induction false} SameAboveJoins(p: Path, q: Path, r: Path, k: Level)
    requires SameAbove(p, q, k) && SameAbove(p, r, k)
    ensures SameAbove(q, r, k)
    decreases 3 - k
  {
    if k < 3 { SameAboveJoins(p, q, r, k + 1); }
  }

  lemma LinkZero(m: Machine, p: Path, l: Level, f: nat)
    requires Inv(m) && l >= 1 && NeedsLink(m, p, l) && FreeBelow(m.used, Frames(m)) > 0
    requires 2 <= f < NB_PAGE && !Link(m, p, l).used[f]
    ensures ZeroFrame(Link(m, p, l).mem, f)
  {
    var t := TableFor(m.mem, p, l).value;
    LinkFlags(m, p, l);
    assert ZeroFrame(m.mem, f);
    assert TableHeld(m, p, l);
    assert t != f;
    PutElsewhere(m.mem, t, p.At(l), WithFlags(PAGE_SIZE * Allocate(m.used).0), f);
  }

  lemma PutElsewhere(mem: seq<byte>, t: nat, i: Index, v: nat, f: nat)
    requires t != f
    ensures forall k :: PAGE_SIZE * f <= k < PAGE_SIZE * f + PAGE_SIZE && k < |mem| ==> Put(mem, t, i, v)[k] == mem[k]
  {
    if t < f {
      assert PAGE_SIZE * (t + 1) <= PAGE_SIZE * f;
    } else {
      assert PAGE_SIZE * (f + 1) <= PAGE_SIZE * t;
    }
  }

  lemma LinkKeepsInv(m: Machine, p: Path, l: Level)
    requires Inv(m) && l >= 1 && NeedsLink(m, p, l) && FreeBelow(m.used, Frames(m)) > 0
    ensures Inv(Link(m, p, l))
  {
    var m' := Link(m, p, l);
    LinkFlags(m, p, l);
    AllocateBelow(m.used, Frames(m));
    forall q, k ensures TableHeld(m', q, k) {
      LinkTables(m, p, l, q, k);
      assert TableHeld(m, q, k);
    }
    forall q, k, q', k' ensures OneParent(m'.mem, q, k, q', k') { LinkTreeAt(m, p, l, q, k, q', k'); }
    forall f | 2 <= f < NB_PAGE && !m'.used[f] ensures ZeroFrame(m'.mem, f) { LinkZero(m, p, l, f); }
    forall q ensures LeafHeld(m', q) {
      LinkLeaves(m, p, l, q);
      assert LeafHeld(m, q);
    }
  }

  /** Link leaves an invariant state in which the next table down is there. */
  lemma LinkResult(m: Machine, p: Path, l: Level)
    requires Inv(m) && l >= 1 && NeedsLink(m, p, l) && FreeBelow(m.used, Frames(m)) > 0
    ensures Inv(Link(m, p, l))
    ensures TableFor(Link(m, p, l).mem, p, l - 1) == Some(Allocate(m.used).0)
  {
    LinkKeepsInv(m, p, l);
    LinkReached(m, p, l);
  }

  lemma LinkReached(m: Machine, p: Path, l: Level)
    requires Inv(m) && l >= 1 && NeedsLink(m, p, l) && FreeBelow(m.used, Frames(m)) > 0
    ensures TableFor(Link(m, p, l).mem, p, l - 1) == Some(Allocate(m.used).0)
  {
    var k: Level := l - 1;
    SameAboveSelf(p, k);
    LinkTables(m, p, l, p, k);
  }

  lemma LinkNewTable(m: Machine, p: Path, l: Level, t: nat)
    requires Inv(m) && l >= 1 && NeedsLink(m, p, l) && FreeBelow(m.used, Frames(m)) > 0
    ensures IsTable(Link(m, p, l).mem, t) <==> IsTable(m.mem, t) || t == Allocate(m.used).0
  {
    var m' := Link(m, p, l);
    if IsTable(m'.mem, t) {
      var q, k :| Reaches(m'.mem, q, k, t);
      LinkTables(m, p, l, q, k);
      assert t == Allocate(m.used).0 || Reaches(m.mem, q, k, t);
    }
    if IsTable(m.mem, t) {
      var q, k :| Reaches(m.mem, q, k, t);
      LinkedStays(m, p, l, q, k);
      assert Reaches(m'.mem, q, k, t);
    }
    LinkReached(m, p, l);
    assert Reaches(m'.mem, p, l - 1, Allocate(m.used).0);
  }

  lemma LinkedStays(m: Machine, p: Path, l: Level, q: Path, k: Level)
    requires Inv(m) && l >= 1 && NeedsLink(m, p, l) && FreeBelow(m.used, Frames(m)) > 0
    ensures TableFor(m.mem, q, k).Some? ==> TableFor(Link(m, p, l).mem, q, k) == TableFor(m.mem, q, k)
  {
    LinkTables(m, p, l, q, k);
    if k == l - 1 && SameAbove(p, q, k) { SameTable(m.mem, p, q, l); }
  }

  lemma {:induction false} SameAboveSelf(p: Path, l: Level)
    ensures SameAbove(p, p, l)
    decreases 3 - l
  {
    if l < 3 { SameAboveSelf(p, l + 1); }
  }

  // ---- all the tables of one address ----

  /** Walks down to level l, giving every table on the way the child it lacks. */
  function Linked(m: Machine, p: Path, l: Level): (r: Machine)
    ensures |r.mem| == |m.mem|
    decreases 3 - l
  {
    if l == 3 then m else Link(Linked(m, p, l + 1), p, l + 1)
  }

  /** How many tables from level l up the address lacks. */
  function Missing(mem: seq<byte>, p: Path, l: Level): (n: nat)
    ensures n <= 3 - l
    decreases 3 - l
  {
    if l == 3 then 0 else Missing(mem, p, l + 1) + (if TableFor(mem, p, l).None? then 1 else 0)
  }

  /** The state from which Linked makes its last step. */
  lemma {:induction false} LinkedBefore(m: Machine, p: Path, l: Level)
    requires Inv(m) && Missing(m.mem, p, l) <= FreeBelow(m.used, Frames(m)) && l < 3
    ensures var before := Linked(m, p, l + 1);
            && Inv(before)
            && before.used == TakeN(m.used, Missing(m.mem, p, l + 1))
            && TableFor(before.mem, p, l) == TableFor(m.mem, p, l)
            && TableFor(before.mem, p, l + 1).Some?
            && (TableFor(m.mem, p, l).None? <==> NeedsLink(before, p, l + 1))
            && (TableFor(m.mem, p, l).None? ==> FreeBelow(before.used, Frames(m)) > 0)
    decreases 3 - l, 0
  {
    LinkedInv(m, p, l + 1);
    LinkedTables(m, p, l + 1, p, l);
    FreeBelowMonotone(m.used, Frames(m), NB_PAGE);
    TakeNCount(m.used, Missing(m.mem, p, l + 1), Frames(m));
  }

  /** Linked allocates one frame for each missing table and keeps the invariant. */
  lemma {:induction false} LinkedInv(m: Machine, p: Path, l: Level)
    requires Inv(m) && Missing(m.mem, p, l) <= FreeBelow(m.used, Frames(m))
    ensures Inv(Linked(m, p, l))
    ensures TableFor(Linked(m, p, l).mem, p, l).Some?
    ensures Linked(m, p, l).used == TakeN(m.used, Missing(m.mem, p, l))
    decreases 3 - l, 1
  {
    if l < 3 {
      LinkedBefore(m, p, l);
      LinkedFrom(m, Linked(m, p, l + 1), p, l);
    }
  }

  lemma LinkedFrom(m: Machine, before: Machine, p: Path, l: Level)
    requires l < 3 && Inv(before) && before == Linked(m, p, l + 1)
    requires before.used == TakeN(m.used, Missing(m.mem, p, l + 1)) && TableFor(before.mem, p, l + 1).Some?
    requires TableFor(m.mem, p, l).None? <==> NeedsLink(before, p, l + 1)
    requires TableFor(m.mem, p, l).None? ==> FreeBelow(before.used, Frames(before)) > 0
    ensures Inv(Linked(m, p, l)) && TableFor(Linked(m, p, l).mem, p, l).Some?
    ensures Linked(m, p, l).used == TakeN(m.used, Missing(m.mem, p, l))
  {
    LinkLast(before, p, l);
    TakenStep(m, p, l);
    LinkedUnfolds(m, p, l);
  }

  lemma TakenStep(m: Machine, p: Path, l: Level)
    requires l < 3
    ensures TakeN(m.used, Missing(m.mem, p, l)) ==
            if TableFor(m.mem, p, l).None? then Allocate(TakeN(m.used, Missing(m.mem, p, l + 1))).1
            else TakeN(m.used, Missing(m.mem, p, l + 1))
  {}

  lemma LinkedUnfolds(m: Machine, p: Path, l: Level)
    requires l < 3
    ensures Linked(m, p, l) == Link(Linked(m, p, l + 1), p, l + 1)
  {}

  /** The last step of Linked. */
  lemma LinkLast(before: Machine, p: Path, l: Level)
    requires l < 3 && Inv(before) && TableFor(before.mem, p, l + 1).Some?
    requires NeedsLink(before, p, l + 1) ==> FreeBelow(before.used, Frames(before)) > 0
    ensures var after := Link(before, p, l + 1);
            && Inv(after) && TableFor(after.mem, p, l).Some?
            && after.used == if NeedsLink(before, p, l + 1) then Allocate(before.used).1 else before.used
  {
    if NeedsLink(before, p, l + 1) { LinkResult(before, p, l + 1); }
  }

  /** The tables Linked adds are those p lacked; every other table stays where it was. */
  lemma {:induction false} LinkedTables(m: Machine, p: Path, l: Level, q: Path, k: Level)
    requires Inv(m) && Missing(m.mem, p, l) <= FreeBelow(m.used, Frames(m))
    ensures l <= k && SameAbove(p, q, k) ==> TableFor(Linked(m, p, l).mem, q, k).Some?
    ensures TableFor(m.mem, q, k).Some? || k < l || !SameAbove(p, q, k) ==>
            TableFor(Linked(m, p, l).mem, q, k) == TableFor(m.mem, q, k)
    decreases 3 - l, 1
  {
    if l < 3 {
      LinkedTables(m, p, l + 1, q, k);
      LinkedBefore(m, p, l);
      if TableFor(m.mem, p, l).None? {
        LinkTables(Linked(m, p, l + 1), p, l + 1, q, k);
        LinkedStays(Linked(m, p, l + 1), p, l + 1, q, k);
      } else if k == l && SameAbove(p, q, k) {
        SameTable(m.mem, p, q, k);
      }
    }
  }

  /** ... and no translation changes. */
  lemma {:induction false} LinkedLeaves(m: Machine, p: Path, l: Level, q: Path)
    requires Inv(m) && Missing(m.mem, p, l) <= FreeBelow(m.used, Frames(m))
    ensures Leaf(Linked(m, p, l).mem, q) == Leaf(m.mem, q)
    decreases 3 - l
  {
    if l < 3 {
      LinkedLeaves(m, p, l + 1, q);
      LinkedBefore(m, p, l);
      if TableFor(m.mem, p, l).None? { LinkLeaves(Linked(m, p, l + 1), p, l + 1, q); }
    }
  }

  /** The new tables are exactly the frames handed out. */
  lemma {:induction false} LinkedNewTables(m: Machine, p: Path, l: Level, t: nat)
    requires Inv(m) && Missing(m.mem, p, l) <= FreeBelow(m.used, Frames(m))
    ensures IsTable(Linked(m, p, l).mem, t) <==> IsTable(m.mem, t) || HandedOut(m.used, Missing(m.mem, p, l), t)
    decreases 3 - l
  {
    if l < 3 {
      LinkedNewTables(m, p, l + 1, t);
      LinkedBefore(m, p, l);
      if TableFor(m.mem, p, l).None? {
        LinkNewTable(Linked(m, p, l + 1), p, l + 1, t);
        FreeBelowMonotone(m.used, Frames(m), NB_PAGE);
        if t < NB_PAGE { NextHandedOut(m.used, Missing(m.mem, p, l + 1), t); }
        AllocateBelow(Linked(m, p, l + 1).used, Frames(m));
      }
    }
  }

  lemma {:induction false} MissingFromTop(mem: seq<byte>, p: Path, l: Level)
    ensures Missing(mem, p, l) <= Missing(mem, p, 0)
    decreases l
  {
    if l > 0 { MissingFromTop(mem, p, l - 1); }
  }

  /** One level of Linked: what is there afterwards, and that it is inside guest memory. */
  lemma LinkedStep(m: Machine, p: Path, l: Level)
    requires Inv(m) && Missing(m.mem, p, 0) <= FreeBelow(m.used, Frames(m)) && l < 3
    ensures var before, after := Linked(m, p, l + 1), Linked(m, p, l);
            && after == Link(before, p, l + 1)
            && TableFor(after.mem, p, l).Some? && TableFrame(after, TableFor(after.mem, p, l).value)
            && (NeedsLink(before, p, l + 1) ==> TableFor(after.mem, p, l) == Some(Allocate(before.used).0))
  {
    MissingFromTop(m.mem, p, l);
    LinkedBefore(m, p, l);
    LinkedInv(m, p, l);
    assert TableHeld(Linked(m, p, l), p, l);
    if NeedsLink(Linked(m, p, l + 1), p, l + 1) { LinkResult(Linked(m, p, l + 1), p, l + 1); }
  }
}
