/** Later runs with opens. On a new process a migrated guest cannot tell, whatever it goes on to do,
    exactly when its files are reopened on the numbers they had. */
module LaterOpens {
  import opened Words
  import opened HostFiles
  import opened FileTable
  import opened FdTable
  import opened TableInvariant
  import opened Replay
  import opened Restore
  import opened Migration
  import opened ColdMigration
  import opened MigrationChain

  /** A fair run that both can take. */
  ghost predicate FairLater(a: Vm, b: Vm, es: seq<Event>) {
    PossibleRun(a, es) && PossibleRun(b, es) && FairRun(a, es)
  }

  /** The run gives both guests the same return values and leaves them the same files. */
  ghost predicate Agree(a: Vm, b: Vm, es: seq<Event>)
    requires PossibleRun(a, es) && PossibleRun(b, es)
  {
    SameToGuest(Run(a, es), Run(b, es)) && Returns(a, es) == Returns(b, es)
  }

  lemma SameFilesSeen(a: Vm, b: Vm)
    requires TableInv(a) && TableInv(b) && SameFiles(a, b)
    ensures SameToGuest(a, b)
  {
    forall g ensures GuestView(a, g) == GuestView(b, g) {
      EntryOf(a, g);
      var i := Find(a.open, g);
      if i < |a.open| { assert Shown(a, a.open[i]) == Shown(b, a.open[i]); }
    }
  }

  // ---- a run that tells ----

  /** Guest memory with a path of one letter at its beginning. */
  function Page(size: nat, letter: byte): seq<byte> {
    seq(size, k => if k == 0 then letter else 0)
  }

  lemma PageLetter(size: nat, letter: byte)
    requires size > 0 && letter != 0
    ensures PathAt(Page(size, letter), 0) == [letter]
  {
    var s := Page(size, letter);
    assert s[0..] == s;
    if size > 1 {
      UpToNulIs(s, 1);
      assert s[..1] == [letter];
    } else {
      assert s == [letter] && s[1..] == [];
    }
  }

  /** Put a new path in memory, close a file, and open the new one on the number that is now free. */
  function Reuse(size: nat, letter: byte, g: nat): seq<Event> {
    [Compute(Page(size, letter)), Close(g), Open(0, O_CREAT, 0, g)]
  }

  lemma ThreeSteps(vm: Vm, e0: Event, e1: Event, e2: Event)
    requires Possible(vm, e0) && Possible(Step(vm, e0).0, e1) && Possible(Step(Step(vm, e0).0, e1).0, e2)
    ensures var v1 := Step(vm, e0).0; var v2 := Step(v1, e1).0;
            && PossibleRun(vm, [e0, e1, e2]) && Run(vm, [e0, e1, e2]) == Step(v2, e2).0
            && (FairRun(vm, [e0, e1, e2]) <==> Fair(vm, e0) && Fair(v1, e1) && Fair(v2, e2))
  {
    var v1 := Step(vm, e0).0;
    FirstStep(Step(v1, e1).0, e2, [], [e2]);
    FirstStep(v1, e1, [e2], [e1, e2]);
    FirstStep(vm, e0, [e1, e2], [e0, e1, e2]);
  }

  lemma CreateAnswer(h: Host, name: Name, g: nat)
    requires g < 0x8000_0000 && g !in h.fds
    ensures OpenAnswer(h, name, ToInt(O_CREAT), g)
  {
    assert ToInt(O_CREAT) == O_CREAT && HasFlag(O_CREAT, O_CREAT);
  }

  lemma ClosedIsFree(vm: Vm, letter: byte, g: nat)
    requires TableInv(vm) && 3 <= g < 0x8000_0000 && Find(vm.open, g) < |vm.open|
    requires forall i :: 0 <= i < |vm.open| ==> NameOf(vm.open[i]) != [letter]
    ensures var v := SysClose(vm, g).0;
            && TableInv(v) && v.mem == vm.mem && |v.open| < MAX_OPEN_FILES && g !in v.host.fds
            && forall i :: 0 <= i < |v.open| ==> NameOf(v.open[i]) != [letter]
  {
    NumberOf(g);
    CloseEffect(vm, g);
    CloseKeepsTable(vm, g);
    StillUnused(vm.open, Find(vm.open, g), letter);
  }

  lemma StillUnused(open: seq<GuestFile>, i: nat, letter: byte)
    requires i < |open| && forall k :: 0 <= k < |open| ==> NameOf(open[k]) != [letter]
    ensures forall k :: 0 <= k < |SwapRemove(open, i)| ==> NameOf(SwapRemove(open, i)[k]) != [letter]
  {
    forall k | 0 <= k < |SwapRemove(open, i)| ensures NameOf(SwapRemove(open, i)[k]) != [letter] {
      assert SwapRemove(open, i)[k] == open[WasAt(open, i, k)];
    }
  }

  /** A VM that was not migrated shows the new file on the old number. */
  lemma ReuseStays(vm: Vm, letter: byte, g: nat)
    requires TableInv(vm) && |vm.mem| > 0 && letter != 0 && g < 0x8000_0000 && Find(vm.open, g) < |vm.open|
    requires forall i :: 0 <= i < |vm.open| ==> NameOf(vm.open[i]) != [letter]
    ensures var es := Reuse(|vm.mem|, letter, g);
            PossibleRun(vm, es) && FairRun(vm, es) && GuestView(Run(vm, es), g) == At([letter], 0, [])
  {
    var v1 := vm.(mem := Page(|vm.mem|, letter));
    var v2 := SysClose(v1, g).0;
    NumberOf(g);
    EntryOf(vm, g);
    SameTable(vm, v1);
    ClosedIsFree(v1, letter, g);
    PageLetter(|vm.mem|, letter);
    OpenAfterClose(v1, g);
    ThreeSteps(vm, Compute(Page(|vm.mem|, letter)), Close(g), Open(0, O_CREAT, 0, g));
    ReopenedSeen(v2, letter, g);
  }

  lemma ReopenedSeen(v: Vm, letter: byte, g: nat)
    requires TableInv(v) && CanOpen(v, 0, O_CREAT, g) && |v.open| < MAX_OPEN_FILES && g !in v.host.fds
    requires PathAt(v.mem, 0) == [letter] && forall i :: 0 <= i < |v.open| ==> NameOf(v.open[i]) != [letter]
    ensures GuestView(SysOpen(v, 0, O_CREAT, 0, g).0, g) == At([letter], 0, [])
  {
    TableIsNamed(v);
    forall i | 0 <= i < |v.open| ensures FreshFor(v.open[i], [letter], g) { assert EntryOk(v, i); }
    assert forall s :: 0 <= s <= 2 ==> s in v.host.fds;
    OpenSeen(v, 0, O_CREAT, 0, g, g);
  }

  /** A VM whose entry has another host fd shows nothing there: the entry is still in the table, and is
      found first. */
  lemma ReuseMoved(moved: Vm, letter: byte, g: nat)
    requires Named(moved) && CleanClose(moved, g) && |moved.mem| > 0 && letter != 0 && g < 0x8000_0000
    requires Find(moved.open, g) < |moved.open| && HostFd(moved.open, g) != g && g !in moved.host.fds
    ensures var es := Reuse(|moved.mem|, letter, g);
            PossibleRun(moved, es) && GuestView(Run(moved, es), g) == Closed
  {
    var m1 := moved.(mem := Page(|moved.mem|, letter));
    NumberOf(g);
    assert NamedEntry(moved, Find(moved.open, g));
    ClosedOutlives(m1, g);
    OpenAfterClose(m1, g);
    ThreeSteps(moved, Compute(Page(|moved.mem|, letter)), Close(g), Open(0, O_CREAT, 0, g));
    StillHidden(SysClose(m1, g).0, g);
  }

  lemma NumberOf(g: nat)
    requires g < 0x8000_0000
    ensures ToInt(g) == g
  {}

  lemma OpenAfterClose(vm: Vm, g: nat)
    requires g < 0x8000_0000 && g !in SysClose(vm, g).0.host.fds
    ensures Possible(SysClose(vm, g).0, Open(0, O_CREAT, 0, g))
  {
    CreateAnswer(SysClose(vm, g).0.host, PathAt(SysClose(vm, g).0.mem, 0), g);
  }

  /** An entry whose numbers differ stays when its guest fd is closed. */
  lemma ClosedOutlives(moved: Vm, g: nat)
    requires DistinctGuests(moved.open) && CleanClose(moved, g) && ToInt(g) == g && g !in moved.host.fds
    requires HostFd(moved.open, g) >= 0 && HostFd(moved.open, g) != g
    ensures var v := SysClose(moved, g).0;
            v.open == moved.open && v.mem == moved.mem && g !in v.host.fds && HostFd(v.open, g) !in v.host.fds
  {
    CloseSearches(moved, g);
  }

  lemma StillHidden(v: Vm, g: nat)
    requires CanOpen(v, 0, O_CREAT, g) && g >= 3 && Find(v.open, g) < |v.open|
    requires HostFd(v.open, g) != g && HostFd(v.open, g) !in v.host.fds
    ensures GuestView(SysOpen(v, 0, O_CREAT, 0, g).0, g) == Closed
  {
    if |v.open| < MAX_OPEN_FILES { HostFdAfterOpen(v, 0, O_CREAT, 0, g, g); }
  }

  // ---- a name not in the table ----

  function Letters(open: seq<GuestFile>): set<int> {
    if open == [] then {} else
      (if |NameOf(open[0])| == 1 then {NameOf(open[0])[0] as int} else {}) + Letters(open[1..])
  }

  lemma {:induction false} LettersSize(open: seq<GuestFile>)
    ensures |Letters(open)| <= |open|
  {
    if open != [] { LettersSize(open[1..]); }
  }

  lemma {:induction false} LettersHold(open: seq<GuestFile>, i: nat, letter: byte)
    requires i < |open| && NameOf(open[i]) == [letter]
    ensures letter as int in Letters(open)
  {
    if i > 0 { LettersHold(open[1..], i - 1, letter); }
  }

  function UpTo(n: nat): (s: set<int>)
    ensures |s| == n && forall x :: x in s <==> 1 <= x <= n
  {
    if n == 0 then {} else UpTo(n - 1) + {n}
  }

  /** There are more letters than entries. */
  lemma UnusedLetter(open: seq<GuestFile>) returns (letter: byte)
    requires |open| <= MAX_OPEN_FILES
    ensures letter != 0 && forall i :: 0 <= i < |open| ==> NameOf(open[i]) != [letter]
  {
    LettersSize(open);
    if UpTo(255) <= Letters(open) { SubsetSize(UpTo(255), Letters(open)); }
    assert exists x :: x in UpTo(255) && x !in Letters(open);
    var x :| x in UpTo(255) && x !in Letters(open);
    letter := x;
    forall i | 0 <= i < |open| ensures NameOf(open[i]) != [letter] {
      if NameOf(open[i]) == [letter] { LettersHold(open, i, letter); }
    }
  }

  // ---- exactly the saved numbers ----

  lemma OneClose(a: Vm, b: Vm, fd: nat, g: int)
    requires Fair(a, Close(fd)) && GuestView(SysClose(a, fd).0, g) != GuestView(SysClose(b, fd).0, g)
    ensures exists es :: FairLater(a, b, es) && !Agree(a, b, es)
  {
    FirstStep(a, Close(fd), [], [Close(fd)]);
    FirstStep(b, Close(fd), [], [Close(fd)]);
    assert FairLater(a, b, [Close(fd)]) && !Agree(a, b, [Close(fd)]);
  }

  /** Numbers that cross tell by a close. */
  lemma CrossingTells(vm: Vm, h: Host, answers: seq<Answer>)
    requires TableInv(vm) && GoodRestore(vm, h, answers) && !NoCrossing(vm.open, answers)
    ensures var moved := Restored(h, vm.mem, vm.open, answers);
            exists es :: FairLater(vm, moved, es) && !Agree(vm, moved, es)
  {
    var i, j :| 0 <= i < |vm.open| && 0 <= j < |vm.open| && i != j && vm.open[i].guestFd == answers[j].fd;
    PairTells(vm, h, answers, i, j);
  }

  lemma PairTells(vm: Vm, h: Host, answers: seq<Answer>, i: nat, j: nat)
    requires TableInv(vm) && GoodRestore(vm, h, answers) && i < |vm.open| && j < |vm.open| && i != j
    requires vm.open[i].guestFd == answers[j].fd
    ensures var moved := Restored(h, vm.mem, vm.open, answers);
            exists es :: FairLater(vm, moved, es) && !Agree(vm, moved, es)
  {
    assert EntryOk(vm, j);
    var fd: nat := vm.open[j].guestFd;
    NumberOf(fd);
    CrossingLosesAFile(vm, h, answers, i, j, fd);
    OneClose(vm, Restored(h, vm.mem, vm.open, answers), fd, vm.open[i].guestFd);
  }

  /** Numbers that differ and do not cross tell by a close and an open. */
  lemma RenumberingTells(vm: Vm, h: Host, answers: seq<Answer>, i: nat)
    requires TableInv(vm) && GoodRestore(vm, h, answers) && FreshProcess(h) && NoCrossing(vm.open, answers)
    requires |vm.mem| > 0 && i < |vm.open| && answers[i].fd != vm.open[i].guestFd
    ensures var moved := Restored(h, vm.mem, vm.open, answers);
            exists es :: FairLater(vm, moved, es) && !Agree(vm, moved, es)
  {
    var moved := Restored(h, vm.mem, vm.open, answers);
    assert EntryOk(vm, i);
    var g: nat := vm.open[i].guestFd;
    var letter := UnusedLetter(vm.open);
    FindEntry(vm.open, i);
    RestoredGuests(vm, h, answers, g);
    RestoredEntry(vm, h, answers, i);
    TableIsNamed(vm);
    RestoredIsNamed(vm, h, answers);
    UncrossedIsClean(moved, g);
    NotReopened(vm, h, answers, i);
    ReuseStays(vm, letter, g);
    ReuseMoved(moved, letter, g);
    assert FairLater(vm, moved, Reuse(|vm.mem|, letter, g)) && !Agree(vm, moved, Reuse(|vm.mem|, letter, g));
  }

  lemma NotReopened(vm: Vm, h: Host, answers: seq<Answer>, i: nat)
    requires TableInv(vm) && GoodRestore(vm, h, answers) && FreshProcess(h) && NoCrossing(vm.open, answers)
    requires i < |vm.open| && answers[i].fd != vm.open[i].guestFd
    ensures vm.open[i].guestFd !in Restored(h, vm.mem, vm.open, answers).host.fds
  {
    assert EntryOk(vm, i);
    RestoredKnown(vm, h, answers, vm.open[i].guestFd);
  }

  /** Restored in a new process, a guest cannot tell on any later fair run, with writes, closes and opens,
      if and only if each file is reopened on the number it had. */
  lemma MigrationUnseenExactly(vm: Vm, h: Host, answers: seq<Answer>)
    requires TableInv(vm) && ReplayInv(vm) && GoodRestore(vm, h, answers) && FreshProcess(h) && |vm.mem| > 0
    ensures var moved := Restored(h, vm.mem, vm.open, answers);
            (forall es :: FairLater(vm, moved, es) ==> Agree(vm, moved, es)) <==> SameNumbers(vm.open, answers)
  {
    var moved := Restored(h, vm.mem, vm.open, answers);
    if SameNumbers(vm.open, answers) {
      RestoreKeepsInvariants(vm, h, answers);
      forall es | FairLater(vm, moved, es) ensures Agree(vm, moved, es) {
        RunKeepsSameFiles(vm, moved, es);
        SameFilesSeen(Run(vm, es), Run(moved, es));
      }
    } else if NoCrossing(vm.open, answers) {
      var i :| 0 <= i < |vm.open| && answers[i].fd != vm.open[i].guestFd;
      RenumberingTells(vm, h, answers, i);
    } else {
      CrossingTells(vm, h, answers);
    }
  }
}
