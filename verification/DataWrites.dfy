/** Writes to data frames: guest stores and section copies leave every translation alone. */
module DataWrites {
  import opened Words
  import opened FrameAllocator
  import opened PageTables
  import opened Mapping
  import opened MemoryMap

  ghost predicate SameFrame(mem: seq<byte>, mem': seq<byte>, f: nat) {
    |mem'| == |mem| &&
    forall k :: PAGE_SIZE * f <= k < PAGE_SIZE * f + PAGE_SIZE && k < |mem| ==> mem'[k] == mem[k]
  }

  /** mem' differs from the memory of m in data frames only: not in tables, not in free frames. */
  ghost predicate DataOnly(m: Machine, mem': seq<byte>) {
    |mem'| == |m.mem| &&
    forall f: nat :: IsTable(m.mem, f) || (2 <= f < NB_PAGE && !m.used[f]) ==> SameFrame(m.mem, mem', f)
  }

  lemma {:induction false} DataOnlyTables(m: Machine, mem': seq<byte>, q: Path, k: Level)
    requires DataOnly(m, mem')
    ensures TableFor(mem', q, k) == TableFor(m.mem, q, k)
    decreases 3 - k
  {
    if k < 3 {
      DataOnlyTables(m, mem', q, k + 1);
      var above := TableFor(m.mem, q, k + 1);
      if above.Some? {
        assert Reaches(m.mem, q, k + 1, above.value);
        assert SameFrame(m.mem, mem', above.value);
        EntryUnchanged(m.mem, mem', above.value, q.At(k + 1));
      }
    }
  }

  lemma DataOnlyLeaves(m: Machine, mem': seq<byte>, q: Path)
    requires DataOnly(m, mem')
    ensures Leaf(mem', q) == Leaf(m.mem, q)
  {
    DataOnlyTables(m, mem', q, 0);
    var last := TableFor(m.mem, q, 0);
    if last.Some? {
      assert Reaches(m.mem, q, 0, last.value);
      assert SameFrame(m.mem, mem', last.value);
      EntryUnchanged(m.mem, mem', last.value, q.pte);
    }
  }

  lemma DataOnlyIsTable(m: Machine, mem': seq<byte>, t: nat)
    requires DataOnly(m, mem')
    ensures IsTable(mem', t) <==> IsTable(m.mem, t)
  {
    forall q, k ensures Reaches(mem', q, k, t) <==> Reaches(m.mem, q, k, t) { DataOnlyTables(m, mem', q, k); }
  }

  /** Data writes keep the invariant, and keep tables and data apart. */
  lemma DataOnlyKeepsInv(m: Machine, mem': seq<byte>)
    requires Inv(m) && DataOnly(m, mem')
    ensures Inv(m.(mem := mem'))
    ensures Separated(m.mem) ==> Separated(mem')
  {
    var m' := m.(mem := mem');
    forall q, k ensures TableHeld(m', q, k) {
      DataOnlyTables(m, mem', q, k);
      assert TableHeld(m, q, k);
    }
    forall q, k, q', k' ensures OneParent(mem', q, k, q', k') {
      DataOnlyTables(m, mem', q, k);
      DataOnlyTables(m, mem', q', k');
      assert OneParent(m.mem, q, k, q', k');
    }
    forall f | 2 <= f < NB_PAGE && !m.used[f] ensures ZeroFrame(mem', f) {
      assert SameFrame(m.mem, mem', f) && ZeroFrame(m.mem, f);
    }
    forall q ensures LeafHeld(m', q) && (Separated(m.mem) ==> NotATable(mem', q)) {
      DataOnlyLeaves(m, mem', q);
      assert LeafHeld(m, q);
      if Separated(m.mem) && MappedFrame(m.mem, q).Some? {
        assert NotATable(m.mem, q);
        DataOnlyIsTable(m, mem', MappedFrame(m.mem, q).value);
      }
    }
  }

  /** A write of w at address a touches data only if every frame it overlaps is held and no table. */
  lemma OverwriteIsData(m: Machine, a: nat, w: seq<byte>)
    requires a + |w| <= |m.mem|
    requires forall f :: Overlaps(f, a, |w|) ==> Held(m, f) && !IsTable(m.mem, f)
    ensures DataOnly(m, Overwrite(m.mem, a, w))
  {
    forall f: nat | IsTable(m.mem, f) || (2 <= f < NB_PAGE && !m.used[f])
      ensures SameFrame(m.mem, Overwrite(m.mem, a, w), f)
    {
      assert !Overlaps(f, a, |w|);
    }
  }

  /** The n bytes from a on share an address with frame f. */
  ghost predicate Overlaps(f: nat, a: nat, n: nat) {
    n > 0 && PAGE_SIZE * f < a + n && a < PAGE_SIZE * f + PAGE_SIZE
  }

  // ---- guest stores ----

  datatype GuestStore = GuestStore(va: nat, value: byte)

  /** A byte stored by the guest: nothing happens when the address is not mapped into memory. */
  function Store(m: Machine, s: GuestStore): Machine {
    match MappedFrame(m.mem, Split(s.va))
    case None => m
    case Some(f) =>
      var a := f * PAGE_SIZE + s.va % PAGE_SIZE;
      if a < |m.mem| then m.(mem := Overwrite(m.mem, a, [s.value])) else m
  }

  function StoreAll(m: Machine, ss: seq<GuestStore>): Machine
    decreases |ss|
  {
    if ss == [] then m else StoreAll(Store(m, ss[0]), ss[1..])
  }

  lemma StoreIsData(m: Machine, s: GuestStore)
    requires Inv(m) && Separated(m.mem)
    ensures DataOnly(m, Store(m, s).mem) && Store(m, s).used == m.used
  {
    var p := Split(s.va);
    assert LeafHeld(m, p) && NotATable(m.mem, p);
    if MappedFrame(m.mem, p).Some? {
      var f := MappedFrame(m.mem, p).value;
      var a := f * PAGE_SIZE + s.va % PAGE_SIZE;
      forall g | Overlaps(g, a, 1) ensures g == f {}
      if a < |m.mem| { OverwriteIsData(m, a, [s.value]); }
    }
    forall f ensures SameFrame(m.mem, m.mem, f) {}
  }

  /** Any sequence of guest stores through translated addresses leaves every translation as it was. */
  lemma {:induction false} StoresKeepTranslations(m: Machine, ss: seq<GuestStore>)
    requires Inv(m) && Separated(m.mem)
    ensures Inv(StoreAll(m, ss)) && Separated(StoreAll(m, ss).mem) && StoreAll(m, ss).used == m.used
    ensures forall va :: Walk(StoreAll(m, ss).mem, va) == Walk(m.mem, va)
    decreases |ss|
  {
    if ss != [] {
      var m' := Store(m, ss[0]);
      StoreIsData(m, ss[0]);
      DataOnlyKeepsInv(m, m'.mem);
      assert m' == m.(mem := m'.mem);
      StoresKeepTranslations(m', ss[1..]);
      forall va ensures Walk(m'.mem, va) == Walk(m.mem, va) { DataOnlyLeaves(m, m'.mem, Split(va)); }
    }
  }
}
