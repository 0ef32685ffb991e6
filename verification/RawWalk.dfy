/** memory_map and gva_to_gpa told in bytes: the four 64-bit words an address selects, from the one at
    0x1000 on, with every address written out. */
module RawWalk {
  import opened Words
  import opened FrameAllocator
  import opened PageTables
  import opened Mapping
  import opened MemoryMap
  import opened DataWrites
  import opened BootState

  function ByteAt(mem: seq<byte>, a: nat): (b: nat)
    ensures b < 0x100
  {
    if a < |mem| then mem[a] else 0
  }

  /** The n bytes from address a on as a number, low byte first. */
  function NumberAt(mem: seq<byte>, a: nat, n: nat): nat
    decreases n
  {
    if n == 0 then 0 else ByteAt(mem, a) + 0x100 * NumberAt(mem, a + 1, n - 1)
  }

  /** The 64-bit word at address a; 0 where memory ends. */
  function WordAt(mem: seq<byte>, a: nat): nat {
    if a + 8 > |mem| then 0 else NumberAt(mem, a, 8)
  }

  /** The page a word points to: the word without its low twelve bits. */
  function PageOf(w: nat): (a: nat)
    ensures a % 0x1000 == 0 && a <= w < a + 0x1000
  {
    w / 0x1000 * 0x1000
  }

  /** The words an address selects. */
  function PgdWord(mem: seq<byte>, va: nat): nat { WordAt(mem, 0x1000 + 8 * (va / 0x80_0000_0000 % 512)) }

  function PudWord(mem: seq<byte>, va: nat): nat {
    WordAt(mem, PageOf(PgdWord(mem, va)) + 8 * (va / 0x4000_0000 % 512))
  }

  function PmdWord(mem: seq<byte>, va: nat): nat {
    WordAt(mem, PageOf(PudWord(mem, va)) + 8 * (va / 0x20_0000 % 512))
  }

  function PteWord(mem: seq<byte>, va: nat): nat {
    WordAt(mem, PageOf(PmdWord(mem, va)) + 8 * (va / 0x1000 % 512))
  }

  /** Bit 0 is set in all four words. */
  predicate MappedInBytes(mem: seq<byte>, va: nat) {
    PgdWord(mem, va) % 2 == 1 && PudWord(mem, va) % 2 == 1 && PmdWord(mem, va) % 2 == 1 && PteWord(mem, va) % 2 == 1
  }

  function WalkBytes(mem: seq<byte>, va: nat): nat {
    if MappedInBytes(mem, va) then PageOf(PteWord(mem, va)) + va % 0x1000 else 0
  }

  // ---- the model's entries are these words ----

  lemma {:induction false} NumberIs(mem: seq<byte>, a: nat, n: nat)
    requires a + n <= |mem|
    ensures FromLE(mem[a .. a + n]) == NumberAt(mem, a, n)
    decreases n
  {
    if n > 0 {
      NumberIs(mem, a + 1, n - 1);
      assert mem[a .. a + n][1..] == mem[a + 1 .. a + n];
    }
  }

  lemma EntryIsWord(mem: seq<byte>, t: nat, i: Index)
    ensures Entry(mem, t, i) == WordAt(mem, 0x1000 * t + 8 * i)
  {
    var a := 0x1000 * t + 8 * i;
    if a + 8 <= |mem| { NumberIs(mem, a, 8); }
  }

  lemma NextTable(mem: seq<byte>, p: Path, k: Level, t: nat, w: nat)
    requires k >= 1 && TableFor(mem, p, k) == Some(t) && Entry(mem, t, p.At(k)) == w
    ensures TableFor(mem, p, k - 1) == if w % 2 == 1 then Some(w / 0x1000) else None
  {}

  // The table an address selects at each level is at the page of the word above, and its entry there is the
  // next word.

  lemma PgdEntry(mem: seq<byte>, va: nat)
    ensures TableFor(mem, Split(va), 3) == Some(1) && Entry(mem, 1, Split(va).pgd) == PgdWord(mem, va)
  {
    EntryIsWord(mem, 1, Split(va).pgd);
  }

  lemma PgdIsWord(mem: seq<byte>, va: nat)
    ensures TableFor(mem, Split(va), 2) == if PgdWord(mem, va) % 2 == 1 then Some(PgdWord(mem, va) / 0x1000) else None
  {
    PgdEntry(mem, va);
    NextTable(mem, Split(va), 3, 1, PgdWord(mem, va));
  }

  lemma PudEntry(mem: seq<byte>, va: nat)
    ensures Entry(mem, PgdWord(mem, va) / 0x1000, Split(va).pud) == PudWord(mem, va)
  {
    EntryIsWord(mem, PgdWord(mem, va) / 0x1000, Split(va).pud);
  }

  lemma PudIsWord(mem: seq<byte>, va: nat)
    requires PgdWord(mem, va) % 2 == 1
    ensures TableFor(mem, Split(va), 1) == if PudWord(mem, va) % 2 == 1 then Some(PudWord(mem, va) / 0x1000) else None
  {
    PgdIsWord(mem, va);
    PudEntry(mem, va);
    NextTable(mem, Split(va), 2, PgdWord(mem, va) / 0x1000, PudWord(mem, va));
  }

  lemma PmdEntry(mem: seq<byte>, va: nat)
    ensures Entry(mem, PudWord(mem, va) / 0x1000, Split(va).pmd) == PmdWord(mem, va)
  {
    EntryIsWord(mem, PudWord(mem, va) / 0x1000, Split(va).pmd);
  }

  lemma PmdIsWord(mem: seq<byte>, va: nat)
    requires PgdWord(mem, va) % 2 == 1 && PudWord(mem, va) % 2 == 1
    ensures TableFor(mem, Split(va), 0) == if PmdWord(mem, va) % 2 == 1 then Some(PmdWord(mem, va) / 0x1000) else None
  {
    PudIsWord(mem, va);
    PmdEntry(mem, va);
    NextTable(mem, Split(va), 1, PudWord(mem, va) / 0x1000, PmdWord(mem, va));
  }

  lemma PteEntry(mem: seq<byte>, va: nat)
    ensures Entry(mem, PmdWord(mem, va) / 0x1000, Split(va).pte) == PteWord(mem, va)
  {
    EntryIsWord(mem, PmdWord(mem, va) / 0x1000, Split(va).pte);
  }

  lemma LastTableIsWord(mem: seq<byte>, va: nat)
    ensures TableFor(mem, Split(va), 0) ==
            if PgdWord(mem, va) % 2 == 1 && PudWord(mem, va) % 2 == 1 && PmdWord(mem, va) % 2 == 1
            then Some(PmdWord(mem, va) / 0x1000) else None
  {
    PgdIsWord(mem, va);
    if PgdWord(mem, va) % 2 == 1 {
      PudIsWord(mem, va);
      if PudWord(mem, va) % 2 == 1 { PmdIsWord(mem, va); }
    }
  }

  lemma LeafOfTable(mem: seq<byte>, p: Path, t: nat, w: nat)
    requires TableFor(mem, p, 0) == Some(t) && Entry(mem, t, p.pte) == w
    ensures Leaf(mem, p) == if w % 2 == 1 then Some(w) else None
  {}

  /** The last-level entry of an address is the word four steps from 0x1000. */
  lemma LeafIsWord(mem: seq<byte>, va: nat)
    ensures Leaf(mem, Split(va)) == if MappedInBytes(mem, va) then Some(PteWord(mem, va)) else None
  {
    LastTableIsWord(mem, va);
    PteEntry(mem, va);
    if TableFor(mem, Split(va), 0).Some? {
      LeafOfTable(mem, Split(va), PmdWord(mem, va) / 0x1000, PteWord(mem, va));
    }
  }

  /** gva_to_gpa reads the word at 0x1000 + 8 * (bits 39 to 47), follows its frame three times, and puts the
      last frame before the low twelve bits. */
  lemma WalkInBytes(mem: seq<byte>, va: nat)
    ensures Walk(mem, va) == WalkBytes(mem, va)
  {
    LeafIsWord(mem, va);
  }

  // ---- memory_map in bytes ----

  /** p's entry at level k: the one it was if it led to a table, else a page's address or-ed with PRESENT,
      RW and USER. */
  ghost predicate EntryLinked(mem: seq<byte>, mem': seq<byte>, p: Path, k: Level)
    requires k >= 1
  {
    && TableFor(mem', p, k).Some?
    && var e := Entry(mem', TableFor(mem', p, k).value, p.At(k));
       if TableFor(mem, p, k - 1).Some?
       then TableFor(mem, p, k) == TableFor(mem', p, k) && e == Entry(mem, TableFor(mem, p, k).value, p.At(k))
       else e % 0x1000 == 7
  }

  lemma NewEntryFlags(f: nat)
    ensures WithFlags(PAGE_SIZE * f) % 0x1000 == 7
  {
    assert WithFlags(PAGE_SIZE * f) == 0x1000 * f + 7;
  }

  /** The entry Linked looks at last. */
  lemma LastEntryLinked(m: Machine, p: Path, l: Level)
    requires Inv(m) && Missing(m.mem, p, l) <= FreeBelow(m.used, Frames(m)) && l < 3
    ensures EntryLinked(m.mem, Linked(m, p, l).mem, p, l + 1)
  {
    var before, k: Level := Linked(m, p, l + 1), l + 1;
    LinkedBefore(m, p, l);
    if TableFor(m.mem, p, l).Some? {
      LinkedNothing(m, p, k);
    } else {
      LinkedStays(before, p, k, p, k);
      LinkedEntry(before, p, k, TableFor(before.mem, p, k).value, p.At(k));
      NewEntryFlags(Allocate(before.used).0);
    }
  }

  lemma {:induction false} EntriesLinked(m: Machine, p: Path, l: Level, k: Level)
    requires Inv(m) && Missing(m.mem, p, l) <= FreeBelow(m.used, Frames(m)) && l < k
    ensures EntryLinked(m.mem, Linked(m, p, l).mem, p, k)
    decreases 3 - l
  {
    if k == l + 1 {
      LastEntryLinked(m, p, l);
    } else {
      var before, at: Level := Linked(m, p, l + 1), l + 1;
      LinkedBefore(m, p, l);
      EntriesLinked(m, p, l + 1, k);
      if NeedsLink(before, p, at) {
        LinkedStays(before, p, at, p, k);
        LinkedEntry(before, p, at, TableFor(before.mem, p, k).value, p.At(k));
        assert OneParent(before.mem, p, at, p, k);
      }
    }
  }

  lemma MapPageEntries(m: Machine, va: nat, pa: nat, k: Level)
    requires Inv(m) && TablesFit(m, va, pa) && Leaf(m.mem, Split(va)).None? && k >= 1
    ensures EntryLinked(m.mem, MapPage(m, va, pa).mem, Split(va), k)
  {
    var before, p := Linked(m, Split(va), 0), Split(va);
    BeforeLeaf(m, va, pa);
    EntriesLinked(m, p, 0, k);
    SetLeafTables(before, va, pa, p, k);
    NewLeafEntry(before, va, pa, TableFor(before.mem, p, k).value, p.At(k));
    assert OneParent(before.mem, p, 0, p, k);
  }

  /** The value of a last-level entry for va and pa. */
  predicate LeafWord(va: nat, pa: nat, w: nat) {
    if va == 0 then w == 7 else if pa != 0 then w == pa / 8 * 8 + 7 else w % 0x1000 == 7
  }

  lemma NewLeafWord(m: Machine, va: nat, pa: nat)
    ensures LeafWord(va, pa, NewLeaf(m, va, pa))
  {
    NewEntryFlags(Allocate(m.used).0);
  }

  lemma MapPageLeaf(m: Machine, va: nat, pa: nat)
    requires Inv(m) && TablesFit(m, va, pa) && Leaf(m.mem, Split(va)).None?
    ensures Leaf(MapPage(m, va, pa).mem, Split(va)).Some?
    ensures LeafWord(va, pa, Leaf(MapPage(m, va, pa).mem, Split(va)).value)
  {
    BeforeLeaf(m, va, pa);
    SetLeafLeaves(Linked(m, Split(va), 0), va, pa, Split(va));
    NewLeafWord(Linked(m, Split(va), 0), va, pa);
  }

  /** What a call leaves on an unmapped page: in the PGD, at 0x1000 + 8 * (bits 39 to 47), and in the two
      tables after it the word that was there if it led on, else a page's address or-ed with PRESENT, RW
      and USER; and in the last table the physical address, or that of a page found for it, or-ed with the
      same. */
  predicate NowMapped(mem: seq<byte>, mem': seq<byte>, va: nat, pa: nat) {
    !MappedInBytes(mem, va) ==>
      var toPud := PgdWord(mem, va) % 2 == 1;
      var toPmd := toPud && PudWord(mem, va) % 2 == 1;
      var toPte := toPmd && PmdWord(mem, va) % 2 == 1;
      && MappedInBytes(mem', va)
      && (if toPud then PgdWord(mem', va) == PgdWord(mem, va) else PgdWord(mem', va) % 0x1000 == 7)
      && (if toPmd then PudWord(mem', va) == PudWord(mem, va) else PudWord(mem', va) % 0x1000 == 7)
      && (if toPte then PmdWord(mem', va) == PmdWord(mem, va) else PmdWord(mem', va) % 0x1000 == 7)
      && LeafWord(va, pa, PteWord(mem', va))
  }

  lemma MapPageInBytes(m: Machine, va: nat, pa: nat)
    requires Inv(m) && TablesFit(m, va, pa)
    ensures NowMapped(m.mem, MapPage(m, va, pa).mem, va, pa)
  {
    if !MappedInBytes(m.mem, va) {
      LeafIsWord(m.mem, va);
      MapPageLeaf(m, va, pa);
      LeafIsWord(MapPage(m, va, pa).mem, va);
      MapPageEntries(m, va, pa, 3);
      MapPageEntries(m, va, pa, 2);
      MapPageEntries(m, va, pa, 1);
      PgdLinked(m.mem, MapPage(m, va, pa).mem, va);
      PudLinked(m.mem, MapPage(m, va, pa).mem, va);
      PmdLinked(m.mem, MapPage(m, va, pa).mem, va);
    }
  }

  lemma EntryLed(mem: seq<byte>, mem': seq<byte>, p: Path, k: Level, t': nat, w': nat, led: bool, t: nat, w: nat)
    requires k >= 1 && EntryLinked(mem, mem', p, k)
    requires TableFor(mem', p, k) == Some(t') && Entry(mem', t', p.At(k)) == w'
    requires led <==> TableFor(mem, p, k - 1).Some?
    requires led ==> TableFor(mem, p, k) == Some(t) && Entry(mem, t, p.At(k)) == w
    ensures if led then w' == w else w' % 0x1000 == 7
  {}

  lemma PgdLinked(mem: seq<byte>, mem': seq<byte>, va: nat)
    requires EntryLinked(mem, mem', Split(va), 3)
    ensures if PgdWord(mem, va) % 2 == 1 then PgdWord(mem', va) == PgdWord(mem, va) else PgdWord(mem', va) % 0x1000 == 7
  {
    PgdIsWord(mem, va);
    PgdEntry(mem, va);
    PgdEntry(mem', va);
    EntryLed(mem, mem', Split(va), 3, 1, PgdWord(mem', va), PgdWord(mem, va) % 2 == 1, 1, PgdWord(mem, va));
  }

  lemma PudLinked(mem: seq<byte>, mem': seq<byte>, va: nat)
    requires EntryLinked(mem, mem', Split(va), 2) && PgdWord(mem', va) % 2 == 1
    ensures if PgdWord(mem, va) % 2 == 1 && PudWord(mem, va) % 2 == 1 then PudWord(mem', va) == PudWord(mem, va)
            else PudWord(mem', va) % 0x1000 == 7
  {
    PgdIsWord(mem', va);
    PudEntry(mem', va);
    PgdIsWord(mem, va);
    PudEntry(mem, va);
    if PgdWord(mem, va) % 2 == 1 { PudIsWord(mem, va); } else { NoTableBelow(mem, Split(va), 2); }
    EntryLed(mem, mem', Split(va), 2, PgdWord(mem', va) / 0x1000, PudWord(mem', va),
             PgdWord(mem, va) % 2 == 1 && PudWord(mem, va) % 2 == 1, PgdWord(mem, va) / 0x1000, PudWord(mem, va));
  }

  lemma NoTableBelow(mem: seq<byte>, p: Path, k: Level)
    requires k >= 1 && TableFor(mem, p, k).None?
    ensures TableFor(mem, p, k - 1).None?
  {}

  lemma PmdLinked(mem: seq<byte>, mem': seq<byte>, va: nat)
    requires EntryLinked(mem, mem', Split(va), 1) && PgdWord(mem', va) % 2 == 1 && PudWord(mem', va) % 2 == 1
    ensures if PgdWord(mem, va) % 2 == 1 && PudWord(mem, va) % 2 == 1 && PmdWord(mem, va) % 2 == 1
            then PmdWord(mem', va) == PmdWord(mem, va) else PmdWord(mem', va) % 0x1000 == 7
  {
    PudIsWord(mem', va);
    PmdEntry(mem', va);
    LastTableIsWord(mem, va);
    PmdEntry(mem, va);
    if PgdWord(mem, va) % 2 == 1 { PudIsWord(mem, va); }
    EntryLed(mem, mem', Split(va), 1, PudWord(mem', va) / 0x1000, PmdWord(mem', va),
             PgdWord(mem, va) % 2 == 1 && PudWord(mem, va) % 2 == 1 && PmdWord(mem, va) % 2 == 1,
             PudWord(mem, va) / 0x1000, PmdWord(mem, va));
  }

  /** The flags a call leaves: what was marked stays marked; the physical address of a page newly mapped is
      marked, or else a frame that was free, if there was one. */
  lemma MarksInBytes(m: Machine, va: nat, pa: nat)
    requires Inv(m) && TablesFit(m, va, pa)
    ensures forall f :: 0 <= f < 0x1_0000 && m.used[f] ==> MapPage(m, va, pa).used[f]
    ensures !MappedInBytes(m.mem, va) && va != 0 && pa != 0 ==>
              pa / 0x1000 < 0x1_0000 && MapPage(m, va, pa).used[pa / 0x1000]
    ensures !MappedInBytes(m.mem, va) && va != 0 && pa == 0 ==>
              var f := PteWord(MapPage(m, va, pa).mem, va) / 0x1000;
              f == 0 || (2 <= f < 0x1_0000 && !m.used[f] && MapPage(m, va, pa).used[f])
  {
    LeafIsWord(m.mem, va);
    forall f | 0 <= f < 0x1_0000 && m.used[f] ensures MapPage(m, va, pa).used[f] { MapPageMarks(m, va, pa, f); }
    if !MappedInBytes(m.mem, va) && va != 0 {
      var target := TargetFrame(m, va, pa);
      MapPageFrames(m, va, pa, Split(va));
      LeafIsWord(MapPage(m, va, pa).mem, va);
      if target < 0x1_0000 { MapPageMarks(m, va, pa, target); }
      if pa == 0 && target != 0 { WasFree(m, va, target); }
    }
  }

  lemma WasFree(m: Machine, va: nat, f: nat)
    requires Inv(m) && Missing(m.mem, Split(va), 0) <= FreeBelow(m.used, Frames(m))
    requires f == Allocate(TakeN(m.used, Missing(m.mem, Split(va), 0))).0 && f != 0
    ensures 2 <= f < 0x1_0000 && !m.used[f]
  {
    AfterTables(m, Missing(m.mem, Split(va), 0), 0);
  }

  /** Words of other pages are followed to where they led before. */
  lemma OtherPagesInBytes(m: Machine, va: nat, pa: nat, b: nat)
    requires Inv(m) && TablesFit(m, va, pa)
    requires (b / 0x1000) % 0x10_0000_0000 != (va / 0x1000) % 0x10_0000_0000
    ensures WalkBytes(MapPage(m, va, pa).mem, b) == WalkBytes(m.mem, b)
  {
    MapPageWalk(m, va, pa, b);
    WalkInBytes(m.mem, b);
    WalkInBytes(MapPage(m, va, pa).mem, b);
  }

  /** An address that differs from va in bits 12 to 47 goes where it went. */
  predicate SameElsewhere(mem: seq<byte>, mem': seq<byte>, va: nat, b: nat) {
    (b / 0x1000) % 0x10_0000_0000 != (va / 0x1000) % 0x10_0000_0000 ==> WalkBytes(mem', b) == WalkBytes(mem, b)
  }

  lemma CallInBytes(m: Machine, va: nat, pa: nat)
    requires Inv(m) && TablesFit(m, va, pa)
    ensures NowMapped(m.mem, MapPage(m, va, pa).mem, va, pa)
    ensures forall b: nat :: SameElsewhere(m.mem, MapPage(m, va, pa).mem, va, b)
  {
    MapPageInBytes(m, va, pa);
    forall b: nat ensures SameElsewhere(m.mem, MapPage(m, va, pa).mem, va, b) {
      if (b / 0x1000) % 0x10_0000_0000 != (va / 0x1000) % 0x10_0000_0000 { OtherPagesInBytes(m, va, pa, b); }
    }
  }

  /** No call writes below 0x1000. */
  lemma FrameZeroKept(m: Machine, va: nat, pa: nat, k: nat)
    requires Inv(m) && Fits(m, va, pa) && k < 0x1000
    ensures k < |m.mem| && MapPage(m, va, pa).mem[k] == m.mem[k]
  {
    forall p, l ensures !Reaches(m.mem, p, l, 0) { assert TableHeld(m, p, l); }
    MapKeepsFrame(m, va, pa, 0);
    assert SameFrame(m.mem, MapPage(m, va, pa).mem, 0);
  }

  lemma BlankPgd(size: nat, va: nat)
    requires size >= 0x2000
    ensures Leaf(Blank(size).mem, Split(va)).None? && PgdWord(Blank(size).mem, va) % 2 == 0
  {
    BlankTables(size, Split(va), 0);
    BlankTables(size, Split(va), 2);
    PgdIsWord(Blank(size).mem, va);
  }

  lemma FirstPgd(m: Machine, va: nat, pa: nat)
    requires Inv(m) && TablesFit(m, va, pa) && Leaf(m.mem, Split(va)).None? && PgdWord(m.mem, va) % 2 == 0
    ensures WordAt(MapPage(m, va, pa).mem, 0x1000 + 8 * (va / 0x80_0000_0000 % 512)) % 0x1000 == 7
  {
    MapPageEntries(m, va, pa, 3);
    PgdLinked(m.mem, MapPage(m, va, pa).mem, va);
  }

  /** The first mapping on the blank memory enters its PGD word at 0x1000 or above, and below it all is zero. */
  lemma FirstMapping(size: nat, va: nat, pa: nat)
    requires size >= 0x2000 && Fits(Blank(size), va, pa)
    ensures WordAt(MapPage(Blank(size), va, pa).mem, 0x1000 + 8 * (va / 0x80_0000_0000 % 512)) % 0x1000 == 7
    ensures forall k :: 0 <= k < 0x1000 ==> MapPage(Blank(size), va, pa).mem[k] == 0
  {
    BlankIsSound(size);
    BlankPgd(size, va);
    FirstPgd(Blank(size), va, pa);
    forall k | 0 <= k < 0x1000 ensures MapPage(Blank(size), va, pa).mem[k] == 0 {
      FrameZeroKept(Blank(size), va, pa, k);
    }
  }
}
