/** The bit operations of memory.h and memory.c on 64-bit words, and the arithmetic the rest of
    the model uses for them. */
module WordBits {
  import opened PageTables

  /** A uint64_t, bit 0 first. */
  type Word64 = b: seq<bool> | |b| == 64 witness seq(64, _ => false)

  function Val(b: seq<bool>): nat {
    if b == [] then 0 else (if b[0] then 1 else 0) + 2 * Val(b[1..])
  }

  function Pow2(k: nat): (p: nat)
    ensures p > 0
  {
    if k == 0 then 1 else 2 * Pow2(k - 1)
  }

  // ---- the C operators ----

  function And(a: Word64, b: Word64): (r: Word64) { seq(64, i requires 0 <= i < 64 => a[i] && b[i]) }

  function Or(a: Word64, b: Word64): (r: Word64) { seq(64, i requires 0 <= i < 64 => a[i] || b[i]) }

  function Not(a: Word64): (r: Word64) { seq(64, i requires 0 <= i < 64 => !a[i]) }

  function Shr(a: Word64, k: nat): (r: Word64)
    requires k <= 64
  {
    a[k..] + seq(k, _ => false)
  }

  /** The constant with its low k bits set: 0x1, 0x1FF, 0xFFF. */
  function Mask(k: nat): (r: Word64) { seq(64, i => i < k) }

  /** The constant with only bit k set: PRESENT, RW, USER. */
  function Single(k: nat): (r: Word64) { seq(64, i => i == k) }

  // ---- values ----

  lemma {:induction false} ValAppend(a: seq<bool>, b: seq<bool>)
    ensures Val(a + b) == Val(a) + Pow2(|a|) * Val(b)
  {
    if a == [] {
      assert a + b == b;
    } else {
      ValAppend(a[1..], b);
      assert (a + b)[1..] == a[1..] + b;
      Twice(Pow2(|a| - 1), Val(b));
    }
  }

  lemma Twice(p: nat, v: nat)
    ensures 2 * (p * v) == (2 * p) * v
  {}

  lemma {:induction false} ValBound(a: seq<bool>)
    ensures Val(a) < Pow2(|a|)
  {
    if a != [] { ValBound(a[1..]); }
  }

  lemma {:induction false} ValZeros(a: seq<bool>)
    requires forall i :: 0 <= i < |a| ==> !a[i]
    ensures Val(a) == 0
  {
    if a != [] { ValZeros(a[1..]); }
  }

  lemma Quotient(v: nat, p: nat, q: nat, r: nat)
    requires p > 0 && v == r + p * q && r < p
    ensures v / p == q && v % p == r
  {
    Scaled(p, q + 1, v / p);
    Scaled(p, v / p + 1, q);
  }

  lemma Scaled(p: nat, a: nat, b: nat)
    ensures a <= b ==> p * a <= p * b
  {}

  /** The low k bits and the rest are remainder and quotient. */
  lemma ValCut(a: seq<bool>, k: nat)
    requires k <= |a|
    ensures Val(a[..k]) == Val(a) % Pow2(k) && Val(a[k..]) == Val(a) / Pow2(k)
    ensures Val(a) == Val(a[..k]) + Pow2(k) * Val(a[k..])
  {
    assert a == a[..k] + a[k..];
    ValAppend(a[..k], a[k..]);
    ValBound(a[..k]);
    Quotient(Val(a), Pow2(k), Val(a[k..]), Val(a[..k]));
  }

  lemma MaskedValue(a: Word64, k: nat)
    requires k <= 64
    ensures Val(And(a, Mask(k))) == Val(a) % Pow2(k)
  {
    var m := And(a, Mask(k));
    assert m[..k] == a[..k];
    ValCut(m, k);
    ValZeros(m[k..]);
    ValCut(a, k);
  }

  lemma ClearedValue(a: Word64, k: nat)
    requires k <= 64
    ensures Val(And(a, Not(Mask(k)))) == Pow2(k) * (Val(a) / Pow2(k))
  {
    var m := And(a, Not(Mask(k)));
    assert m[k..] == a[k..];
    ValZeros(m[..k]);
    ValCut(m, k);
    ValCut(a, k);
  }

  lemma ShiftedValue(a: Word64, k: nat)
    requires k <= 64
    ensures Val(Shr(a, k)) == Val(a) / Pow2(k)
  {
    var zeros := seq(k, _ => false);
    ValAppend(a[k..], zeros);
    ValZeros(zeros);
    ValCut(a, k);
  }

  lemma JoinedValue(a: Word64, b: Word64, k: nat)
    requires k <= 64
    ensures Val(Or(And(a, Not(Mask(k))), And(b, Mask(k)))) == Pow2(k) * (Val(a) / Pow2(k)) + Val(b) % Pow2(k)
  {
    var m := Or(And(a, Not(Mask(k))), And(b, Mask(k)));
    assert m[..k] == b[..k] && m[k..] == a[k..];
    ValCut(m, k);
    ValCut(a, k);
    ValCut(b, k);
  }

  lemma Powers()
    ensures Pow2(1) == 2 && Pow2(3) == 8 && Pow2(9) == 512 && Pow2(12) == 0x1000
    ensures Pow2(21) == 0x20_0000 && Pow2(30) == 0x4000_0000 && Pow2(39) == 0x80_0000_0000
  {
    assert Pow2(6) == 64;
    assert Pow2(15) == 0x8000 && Pow2(18) == 0x4_0000;
    assert Pow2(24) == 0x100_0000 && Pow2(27) == 0x800_0000;
    assert Pow2(33) == 0x2_0000_0000 && Pow2(36) == 0x10_0000_0000;
  }

  // ---- the expressions of the code ----

  /** not_present is !(entry & PRESENT). */
  lemma PresentBit(e: Word64)
    ensures Val(And(e, Mask(1))) != 0 <==> Present(Val(e))
  {
    Powers();
    MaskedValue(e, 1);
  }

  /** pointer_to_page is entry & ~0xFFF. */
  lemma PageOfEntry(e: Word64)
    ensures Val(And(e, Not(Mask(12)))) == FrameOf(Val(e)) * PAGE_SIZE
  {
    Powers();
    ClearedValue(e, 12);
  }

  /** page | PRESENT | USER | RW */
  lemma FlaggedEntry(e: Word64)
    ensures Val(Or(Or(Or(e, Single(0)), Single(2)), Single(1))) == WithFlags(Val(e))
  {
    var m := Or(Or(Or(e, Single(0)), Single(2)), Single(1));
    Powers();
    assert m[..3] == [true, true, true] && m[3..] == e[3..];
    ValCut(m, 3);
    ValCut(e, 3);
    assert Val([true, true, true]) == 7 by {
      assert [true, true, true][1..] == [true, true] && [true, true][1..] == [true] && [true][1..] == [];
    }
  }

  /** pgd_index, pud_index, pmd_index and pte_index are addr >> k & 0x1FF. */
  lemma IndexMacros(addr: Word64)
    ensures Val(And(Shr(addr, 39), Mask(9))) == Split(Val(addr)).pgd
    ensures Val(And(Shr(addr, 30), Mask(9))) == Split(Val(addr)).pud
    ensures Val(And(Shr(addr, 21), Mask(9))) == Split(Val(addr)).pmd
    ensures Val(And(Shr(addr, 12), Mask(9))) == Split(Val(addr)).pte
  {
    Powers();
    ShiftedValue(addr, 39);
    ShiftedValue(addr, 30);
    ShiftedValue(addr, 21);
    ShiftedValue(addr, 12);
    MaskedValue(Shr(addr, 39), 9);
    MaskedValue(Shr(addr, 30), 9);
    MaskedValue(Shr(addr, 21), 9);
    MaskedValue(Shr(addr, 12), 9);
  }

  /** (entry & ~0xFFF) | (addr & 0xFFF), the result of gva_to_gpa. */
  lemma TranslatedAddress(e: Word64, addr: Word64)
    ensures Val(Or(And(e, Not(Mask(12))), And(addr, Mask(12)))) == FrameOf(Val(e)) * PAGE_SIZE + Val(addr) % PAGE_SIZE
  {
    Powers();
    JoinedValue(e, addr, 12);
  }
}
