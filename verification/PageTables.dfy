/** Four-level page tables stored in guest memory, and the walk over them. */
module PageTables {
  import opened Words

  const PAGE_SIZE: nat := 0x1000
  const CR3_FRAME: nat := 1       // CR3 is 0x1000
  const WORD_LIMIT: nat := 0x1_0000_0000_0000_0000

  type Index = i: int | 0 <= i < 512
  type Level = l: int | 0 <= l <= 3

  /** The table indices of an address: level 3 is the PGD, level 0 the last table. */
  datatype Path = Path(pgd: Index, pud: Index, pmd: Index, pte: Index) {
    function At(l: Level): Index {
      if l == 3 then pgd else if l == 2 then pud else if l == 1 then pmd else pte
    }
  }

  /** The bits of an address that select table entries (12 to 47). */
  function Split(va: nat): Path {
    Path((va / 0x80_0000_0000) % 512, (va / 0x4000_0000) % 512, (va / 0x20_0000) % 512, (va / 0x1000) % 512)
  }

  function PageNumber(p: Path): nat {
    ((p.pgd * 512 + p.pud) * 512 + p.pmd) * 512 + p.pte
  }

  /** q agrees with p on every index above level l. */
  ghost predicate SameAbove(p: Path, q: Path, l: Level)
    decreases 3 - l
  {
    l == 3 || (SameAbove(p, q, l + 1) && p.At(l + 1) == q.At(l + 1))
  }

  // ---- entries ----

  /** Entry i of the table in frame t. Reading outside guest memory is not something the code
      may do: `Reachable` tables are inside it (see Mapping.Inv), so the 0 is never observed. */
  function Entry(mem: seq<byte>, t: nat, i: Index): nat {
    var a := PAGE_SIZE * t + 8 * i;
    if a + 8 <= |mem| then FromLE(mem[a .. a + 8]) else 0
  }

  /** Memory after storing v in entry i of the table in frame t. */
  function Put(mem: seq<byte>, t: nat, i: Index, v: nat): (m: seq<byte>)
    ensures |m| == |mem|
  {
    var a := PAGE_SIZE * t + 8 * i;
    if a + 8 <= |mem| then Overwrite(mem, a, ToLE(v, 8)) else mem
  }

  predicate Present(e: nat) { e % 2 == 1 }

  /** The frame an entry points to: the entry without its low twelve bits. */
  function FrameOf(e: nat): nat { e / PAGE_SIZE }

  /** e | PRESENT | USER | RW */
  function WithFlags(e: nat): nat { e / 8 * 8 + 7 }

  lemma FlagsOf(e: nat)
    ensures Present(WithFlags(e)) && FrameOf(WithFlags(e)) == FrameOf(e)
    ensures e < WORD_LIMIT ==> WithFlags(e) < WORD_LIMIT
  {
    var a, b := e / 8 / 512, e / 8 % 512;
    assert WithFlags(e) == a * 0x1000 + (b * 8 + 7);
    assert e == a * 0x1000 + (b * 8 + e % 8);
  }

  lemma TableEntry(f: nat)
    ensures FrameOf(WithFlags(PAGE_SIZE * f)) == f
  {
    FlagsOf(PAGE_SIZE * f);
  }

  /** A store to one entry changes no other. */
  lemma OtherEntries(mem: seq<byte>, t: nat, i: Index, v: nat, u: nat, j: Index)
    requires u != t || j != i
    ensures Entry(Put(mem, t, i, v), u, j) == Entry(mem, u, j)
  {
    var a, b := PAGE_SIZE * t + 8 * i, PAGE_SIZE * u + 8 * j;
    if a + 8 <= |mem| && b + 8 <= |mem| {
      DistinctSlots(t, i, u, j);
      OverwriteSlice(mem, a, ToLE(v, 8), b, 8);
    }
  }

  lemma EntryAfterPut(mem: seq<byte>, t: nat, i: Index, v: nat, u: nat, j: Index)
    requires PAGE_SIZE * t + PAGE_SIZE <= |mem| && v < WORD_LIMIT
    ensures Entry(Put(mem, t, i, v), u, j) == if u == t && j == i then v else Entry(mem, u, j)
  {
    var a := PAGE_SIZE * t + 8 * i;
    assert a + 8 <= |mem|;
    if u == t && j == i {
      OverwriteSlice(mem, a, ToLE(v, 8), a, 0);
      Pow256Values();
      LoadAfterStore(v, 8);
    } else {
      OtherEntries(mem, t, i, v, u, j);
    }
  }

  lemma DistinctSlots(t: nat, i: Index, u: nat, j: Index)
    requires t != u || i != j
    ensures PAGE_SIZE * t + 8 * i + 8 <= PAGE_SIZE * u + 8 * j || PAGE_SIZE * u + 8 * j + 8 <= PAGE_SIZE * t + 8 * i
  {
    if t < u {
      assert PAGE_SIZE * (t + 1) <= PAGE_SIZE * u;
    } else if u < t {
      assert PAGE_SIZE * (u + 1) <= PAGE_SIZE * t;
    }
  }

  lemma EntryUnchanged(mem: seq<byte>, m: seq<byte>, t: nat, i: Index)
    requires |m| == |mem|
    requires forall k :: PAGE_SIZE * t <= k < PAGE_SIZE * t + PAGE_SIZE && k < |mem| ==> m[k] == mem[k]
    ensures Entry(m, t, i) == Entry(mem, t, i)
  {
    var a := PAGE_SIZE * t + 8 * i;
    if a + 8 <= |mem| { assert m[a .. a + 8] == mem[a .. a + 8]; }
  }

  // ---- the walk ----

  /** The frame that entry i of a table points to, when there is a table and the entry is present. */
  function Child(mem: seq<byte>, table: Option<nat>, i: Index): Option<nat> {
    match table
    case None => None
    case Some(t) =>
      var e := Entry(mem, t, i);
      if Present(e) then Some(FrameOf(e)) else None
  }

  /** The frame of the level-l table that an address selects, if every entry above is present. */
  function TableFor(mem: seq<byte>, p: Path, l: Level): Option<nat>
    decreases 3 - l
  {
    if l == 3 then Some(CR3_FRAME) else Child(mem, TableFor(mem, p, l + 1), p.At(l + 1))
  }

  /** The last-level entry of an address, when it is present. */
  function Leaf(mem: seq<byte>, p: Path): Option<nat> {
    match TableFor(mem, p, 0)
    case None => None
    case Some(t) =>
      var e := Entry(mem, t, p.pte);
      if Present(e) then Some(e) else None
  }

  /** The frame an address is mapped to. */
  function MappedFrame(mem: seq<byte>, p: Path): Option<nat> {
    match Leaf(mem, p)
    case None => None
    case Some(e) => Some(FrameOf(e))
  }

  /** gva_to_gpa: 0 when some entry is not present. */
  function Walk(mem: seq<byte>, va: nat): nat {
    match Leaf(mem, Split(va))
    case None => 0
    case Some(e) => FrameOf(e) * PAGE_SIZE + va % PAGE_SIZE
  }

  ghost predicate Reaches(mem: seq<byte>, p: Path, l: Level, t: nat) {
    TableFor(mem, p, l) == Some(t)
  }

  /** t is the frame of some table reachable from CR3. */
  ghost predicate IsTable(mem: seq<byte>, t: nat) {
    exists p, l :: Reaches(mem, p, l, t)
  }

  lemma {:induction false} SameTable(mem: seq<byte>, p: Path, q: Path, l: Level)
    requires SameAbove(p, q, l)
    ensures TableFor(mem, p, l) == TableFor(mem, q, l)
    decreases 3 - l
  {
    if l < 3 { SameTable(mem, p, q, l + 1); }
  }

  lemma Digit(x: nat, q: nat, r: nat)
    requires x == q * 512 + r && r < 512
    ensures x / 512 == q && x % 512 == r
  {}

  lemma PageNumberInjective(p: Path, q: Path)
    requires PageNumber(p) == PageNumber(q)
    ensures p == q
  {
    Digit(PageNumber(p), (p.pgd * 512 + p.pud) * 512 + p.pmd, p.pte);
    Digit(PageNumber(q), (q.pgd * 512 + q.pud) * 512 + q.pmd, q.pte);
    Digit((p.pgd * 512 + p.pud) * 512 + p.pmd, p.pgd * 512 + p.pud, p.pmd);
    Digit((q.pgd * 512 + q.pud) * 512 + q.pmd, q.pgd * 512 + q.pud, q.pmd);
  }

  /** The four indices are the base-512 digits of the page number. */
  lemma SplitIsPageNumber(va: nat)
    ensures PageNumber(Split(va)) == (va / PAGE_SIZE) % 0x10_0000_0000
  {
    var n := va / 0x1000;
    assert va / 0x20_0000 == n / 512;
    assert va / 0x4000_0000 == n / 512 / 512;
    assert va / 0x80_0000_0000 == n / 512 / 512 / 512;
    Digits(n, n / 512, n / 512 / 512, n / 512 / 512 / 512);
  }

  lemma Digits(n: nat, a: nat, b: nat, c: nat)
    requires a == n / 512 && b == a / 512 && c == b / 512
    ensures ((c % 512 * 512 + b % 512) * 512 + a % 512) * 512 + n % 512 == n % 0x10_0000_0000
  {
    var d, k := c / 512, ((c % 512 * 512 + b % 512) * 512 + a % 512) * 512 + n % 512;
    assert n == d * 0x10_0000_0000 + k;
    Wrap(n, d, k);
  }

  lemma Wrap(n: nat, d: nat, k: nat)
    requires n == d * 0x10_0000_0000 + k && k < 0x10_0000_0000
    ensures n % 0x10_0000_0000 == k
  {}

  lemma SamePageIffSamePath(va: nat, vb: nat)
    ensures Split(va) == Split(vb) <==> (va / PAGE_SIZE) % 0x10_0000_0000 == (vb / PAGE_SIZE) % 0x10_0000_0000
  {
    SplitIsPageNumber(va);
    SplitIsPageNumber(vb);
    if PageNumber(Split(va)) == PageNumber(Split(vb)) { PageNumberInjective(Split(va), Split(vb)); }
  }
}
