/** The first-fit frame allocator: one in-use flag per 4 KiB frame. */
module FrameAllocator {

  const NB_PAGE: nat := 0x10000

  type Flags = s: seq<bool> | |s| == NB_PAGE witness seq(NB_PAGE, _ => false)

  /** The first-fit scan from frame i; NB_PAGE when it finds nothing. */
  function FirstFreeFrom(used: Flags, i: nat): (f: nat)
    requires i <= NB_PAGE
    ensures i <= f <= NB_PAGE && (f < NB_PAGE ==> !used[f])
    decreases NB_PAGE - i
  {
    if i == NB_PAGE || !used[i] then i else FirstFreeFrom(used, i + 1)
  }

  lemma {:induction false} FirstFreeFromIsLeast(used: Flags, i: nat, k: nat)
    requires i <= NB_PAGE && i <= k < FirstFreeFrom(used, i)
    ensures used[k]
    decreases NB_PAGE - i
  {
    if i < k { FirstFreeFromIsLeast(used, i + 1, k); }
  }

  /** The frame handed out, and the flags afterwards; frame 0 stands for exhaustion. */
  function Allocate(used: Flags): (r: (nat, Flags))
    ensures r.0 == 0 || (2 <= r.0 < NB_PAGE && !used[r.0])
    ensures r.1 == if r.0 == 0 then used else used[r.0 := true]
  {
    var f := FirstFreeFrom(used, 2);
    if f < NB_PAGE then (f, used[f := true]) else (0, used)
  }

  /** The allocator answers with the least free frame at or above 2, and with 0 exactly when
      there is none. */
  lemma AllocateIsFirstFit(used: Flags)
    ensures forall k :: 2 <= k < 0x1_0000 && !used[k] ==> 2 <= Allocate(used).0 <= k
    ensures Allocate(used).0 == 0 <==> forall k :: 2 <= k < 0x1_0000 ==> used[k]
  {
    forall k | 2 <= k < FirstFreeFrom(used, 2) ensures used[k] { FirstFreeFromIsLeast(used, 2, k); }
  }

  /** Frame f is the first free one from 2 on and has been marked, or f is 0 and there is none. */
  ghost predicate FirstFree(used: Flags, used': Flags, f: nat) {
    if f == 0 then used' == used && forall k :: 2 <= k < 0x1_0000 ==> used[k]
    else 2 <= f < 0x1_0000 && !used[f] && used' == used[f := true] && forall k :: 2 <= k < f ==> used[k]
  }

  lemma AllocatesFirstFree(used: Flags)
    ensures FirstFree(used, Allocate(used).1, Allocate(used).0)
  {
    AllocateIsFirstFit(used);
  }

  function Reserve(used: Flags, f: nat): (r: Flags)
    requires f < NB_PAGE
    ensures forall k :: 0 <= k < NB_PAGE ==> r[k] == (used[k] || k == f)
  {
    used[f := true]
  }

  /** How many allocatable frames lie below n and are still free. */
  function FreeBelow(used: Flags, n: nat): (c: nat)
    requires n <= NB_PAGE
  {
    if n <= 2 then 0 else FreeBelow(used, n - 1) + (if used[n - 1] then 0 else 1)
  }

  lemma {:induction false} FreeBelowZero(used: Flags, n: nat)
    requires n <= NB_PAGE
    ensures FreeBelow(used, n) == 0 <==> forall k :: 2 <= k < n ==> used[k]
  {
    if n > 2 { FreeBelowZero(used, n - 1); }
  }

  lemma {:induction false} FreeBelowMonotone(used: Flags, m: nat, n: nat)
    requires m <= n <= NB_PAGE
    ensures FreeBelow(used, m) <= FreeBelow(used, n)
    decreases n
  {
    if m < n { FreeBelowMonotone(used, m, n - 1); }
  }

  /** Taking one frame lowers the count by one exactly when that frame was counted. */
  lemma {:induction false} FreeBelowTake(used: Flags, f: nat, n: nat)
    requires n <= NB_PAGE && f < NB_PAGE
    ensures FreeBelow(used[f := true], n) == FreeBelow(used, n) - (if 2 <= f < n && !used[f] then 1 else 0)
  {
    if n > 2 { FreeBelowTake(used, f, n - 1); }
  }

  /** With a free frame below n, the allocator answers with a frame below n. */
  lemma AllocateBelow(used: Flags, n: nat)
    requires n <= NB_PAGE && FreeBelow(used, n) > 0
    ensures 2 <= Allocate(used).0 < n
    ensures Allocate(used).1 == used[Allocate(used).0 := true]
    ensures FreeBelow(Allocate(used).1, n) == FreeBelow(used, n) - 1
  {
    FreeBelowZero(used, n);
    AllocateIsFirstFit(used);
    FreeBelowTake(used, Allocate(used).0, n);
  }

  // ---- several allocations in a row ----

  /** The flags after n allocations. */
  function TakeN(used: Flags, n: nat): Flags {
    if n == 0 then used else Allocate(TakeN(used, n - 1)).1
  }

  /** Frame f is among the next n frames the allocator hands out. */
  ghost predicate HandedOut(used: Flags, n: nat, f: nat) {
    2 <= f < NB_PAGE && !used[f] && FreeBelow(used, f) < n
  }

  function Minus(a: nat, b: nat): nat { if a <= b then 0 else a - b }

  /** One allocation: the count below any limit drops by one unless it was zero, and the
      frame taken is the free one with no free frame below it. */
  lemma AllocateCount(used: Flags, limit: nat)
    requires limit <= NB_PAGE && FreeBelow(used, NB_PAGE) > 0
    ensures FreeBelow(Allocate(used).1, limit) == Minus(FreeBelow(used, limit), 1)
    ensures limit == Allocate(used).0 <==> 2 <= limit < NB_PAGE && !used[limit] && FreeBelow(used, limit) == 0
  {
    AllocateBelow(used, NB_PAGE);
    AllocateIsFirstFit(used);
    FreeBelowTake(used, Allocate(used).0, limit);
    FreeBelowZero(used, limit);
  }

  lemma {:induction false} TakeNCount(used: Flags, n: nat, limit: nat)
    requires limit <= NB_PAGE && n <= FreeBelow(used, NB_PAGE)
    ensures FreeBelow(TakeN(used, n), limit) == Minus(FreeBelow(used, limit), n)
  {
    if n > 0 {
      var before := TakeN(used, n - 1);
      TakeNCount(used, n - 1, limit);
      TakeNCount(used, n - 1, NB_PAGE);
      AllocateCount(before, limit);
      assert TakeN(used, n) == Allocate(before).1;
    }
  }

  /** n allocations mark exactly the n least free frames. */
  lemma {:induction false} TakeNMarks(used: Flags, n: nat, f: nat)
    requires n <= FreeBelow(used, NB_PAGE) && f < NB_PAGE
    ensures TakeN(used, n)[f] <==> used[f] || HandedOut(used, n, f)
  {
    if n > 0 {
      var before := TakeN(used, n - 1);
      TakeNMarks(used, n - 1, f);
      NextTaken(used, n - 1, f);
      assert TakeN(used, n) == Allocate(before).1;
    }
  }

  lemma NextTaken(used: Flags, n: nat, f: nat)
    requires n < FreeBelow(used, NB_PAGE) && f < NB_PAGE
    requires TakeN(used, n)[f] <==> used[f] || HandedOut(used, n, f)
    ensures 2 <= Allocate(TakeN(used, n)).0 < NB_PAGE
    ensures HandedOut(used, n + 1, f) <==> HandedOut(used, n, f) || f == Allocate(TakeN(used, n)).0
  {
    TakeNCount(used, n, NB_PAGE);
    AllocateBelow(TakeN(used, n), NB_PAGE);
    TakeNCount(used, n, f);
    AllocateCount(TakeN(used, n), f);
  }

  /** The frames handed out by n + 1 allocations: those of n, and the next one. */
  lemma NextHandedOut(used: Flags, n: nat, f: nat)
    requires n < FreeBelow(used, NB_PAGE) && f < NB_PAGE
    ensures HandedOut(used, n + 1, f) <==> HandedOut(used, n, f) || f == Allocate(TakeN(used, n)).0
  {
    TakeNMarks(used, n, f);
    NextTaken(used, n, f);
  }
}
