/** The migrated VM simulates the unmigrated one. */
module ColdMigration {
  import opened HostFiles
  import opened FileTable
  import opened FdTable
  import opened TableInvariant
  import opened Replay
  import opened Restore
  import opened Migration

  // ---- two VMs that look alike to the guest ----

  /** The guest sees the same memory and the same files in both. */
  ghost predicate SameToGuest(a: Vm, b: Vm) {
    a.mem == b.mem && forall g :: GuestView(a, g) == GuestView(b, g)
  }

  predicate OpensNothing(e: Event) { !e.Open? }

  /** Neither opens nor closes a file. */
  predicate Quiet(e: Event) { !e.Open? && !e.Close? }

  /** A step whose effect the guest cannot tell apart: any write; a close in which neither VM takes
      another entry for the one named; an open on a number new to both, or with both tables full. */
  ghost predicate Matched(a: Vm, b: Vm, e: Event) {
    match e
    case Close(fd) => CleanClose(a, ToInt(fd)) && CleanClose(b, ToInt(fd))
    case Open(path, _, _, fd) =>
      || (|a.open| >= MAX_OPEN_FILES && |b.open| >= MAX_OPEN_FILES)
      || (FreshOpen(a, path, fd) && FreshOpen(b, path, fd))
    case _ => true
  }

  lemma StepSimulates(a: Vm, b: Vm, e: Event)
    requires Named(a) && Named(b) && SameToGuest(a, b)
    requires Possible(a, e) && Possible(b, e) && Matched(a, b, e)
    ensures Named(Step(a, e).0) && Named(Step(b, e).0) && SameToGuest(Step(a, e).0, Step(b, e).0)
    ensures Step(a, e).1 == Step(b, e).1
  {
    match e
    case Write(fd, addr, len, ret) => WriteSimulates(a, b, fd, addr, len, ret);
    case Open(path, flags, mode, fd) => OpenSimulates(a, b, path, flags, mode, fd);
    case Close(fd) => CloseSimulates(a, b, fd);
    case Compute(mem) => MemoryOnly(a, Step(a, e).0); MemoryOnly(b, Step(b, e).0);
    case IgnoredSave => MemoryOnly(a, Step(a, e).0); MemoryOnly(b, Step(b, e).0);
  }

  lemma WriteSimulates(a: Vm, b: Vm, fd: nat, addr: nat, len: nat, ret: int)
    requires Named(a) && Named(b) && SameToGuest(a, b)
    requires CanWrite(a, fd, addr, len, ret) && CanWrite(b, fd, addr, len, ret)
    ensures var ((a', r), (b', s)) := (SysWrite(a, fd, addr, len, ret), SysWrite(b, fd, addr, len, ret));
            Named(a') && Named(b') && SameToGuest(a', b') && r == s
  {
    var a', b' := SysWrite(a, fd, addr, len, ret).0, SysWrite(b, fd, addr, len, ret).0;
    WriteKeepsNamed(a, fd, addr, len, ret);
    WriteKeepsNamed(b, fd, addr, len, ret);
    forall k ensures GuestView(a', k) == GuestView(b', k) {
      WriteSeen(a, fd, addr, len, ret, k);
      WriteSeen(b, fd, addr, len, ret, k);
    }
    WriteSeen(a, fd, addr, len, ret, 0);
    WriteSeen(b, fd, addr, len, ret, 0);
  }

  lemma OpenSimulates(a: Vm, b: Vm, path: nat, flags: nat, mode: nat, fd: int)
    requires Named(a) && Named(b) && SameToGuest(a, b)
    requires CanOpen(a, path, flags, fd) && CanOpen(b, path, flags, fd) && Matched(a, b, Open(path, flags, mode, fd))
    ensures var ((a', r), (b', s)) := (SysOpen(a, path, flags, mode, fd), SysOpen(b, path, flags, mode, fd));
            Named(a') && Named(b') && SameToGuest(a', b') && r == s
  {
    var a', b' := SysOpen(a, path, flags, mode, fd).0, SysOpen(b, path, flags, mode, fd).0;
    if |a.open| < MAX_OPEN_FILES || |b.open| < MAX_OPEN_FILES {
      OpenKeepsNamed(a, path, flags, mode, fd);
      OpenKeepsNamed(b, path, flags, mode, fd);
      forall k ensures GuestView(a', k) == GuestView(b', k) {
        OpenSeen(a, path, flags, mode, fd, k);
        OpenSeen(b, path, flags, mode, fd, k);
      }
      OpenSeen(a, path, flags, mode, fd, 0);
      OpenSeen(b, path, flags, mode, fd, 0);
    }
  }

  lemma CloseSimulates(a: Vm, b: Vm, fd: nat)
    requires Named(a) && Named(b) && SameToGuest(a, b) && CleanClose(a, ToInt(fd)) && CleanClose(b, ToInt(fd))
    ensures var ((a', r), (b', s)) := (SysClose(a, fd), SysClose(b, fd));
            Named(a') && Named(b') && SameToGuest(a', b') && r == s
  {
    var a', b' := SysClose(a, fd).0, SysClose(b, fd).0;
    CloseKeepsNamed(a, fd);
    CloseKeepsNamed(b, fd);
    NamedIsPaired(a);
    NamedIsPaired(b);
    forall k ensures GuestView(a', k) == GuestView(b', k) {
      CloseSeen(a, fd, k);
      CloseSeen(b, fd, k);
    }
    CloseSeen(a, fd, 0);
    CloseSeen(b, fd, 0);
  }

  lemma MemoryOnly(a: Vm, a': Vm)
    requires Named(a) && a'.open == a.open && a'.host == a.host
    ensures Named(a') && forall g :: GuestView(a', g) == GuestView(a, g)
  {
    forall i | 0 <= i < |a'.open| ensures NamedEntry(a', i) { assert NamedEntry(a, i); }
  }

  // ---- runs ----

  /** The values of rax a run gives the guest. */
  function Returns(vm: Vm, es: seq<Event>): seq<nat>
    requires PossibleRun(vm, es)
    decreases |es|
  {
    if es == [] then [] else [Step(vm, es[0]).1] + Returns(Step(vm, es[0]).0, es[1..])
  }

  ghost predicate MatchedRun(a: Vm, b: Vm, es: seq<Event>)
    requires PossibleRun(a, es) && PossibleRun(b, es)
    decreases |es|
  {
    es == [] || (Matched(a, b, es[0]) && MatchedRun(Step(a, es[0]).0, Step(b, es[0]).0, es[1..]))
  }

  lemma {:induction false} RunSimulates(a: Vm, b: Vm, es: seq<Event>)
    requires Named(a) && Named(b) && SameToGuest(a, b)
    requires PossibleRun(a, es) && PossibleRun(b, es) && MatchedRun(a, b, es)
    ensures Named(Run(a, es)) && Named(Run(b, es))
    ensures SameToGuest(Run(a, es), Run(b, es)) && Returns(a, es) == Returns(b, es)
    decreases |es|
  {
    if es != [] {
      StepSimulates(a, b, es[0]);
      RunSimulates(Step(a, es[0]).0, Step(b, es[0]).0, es[1..]);
    }
  }

  /** Writes match on any numbers. */
  lemma {:induction false} WritesMatch(a: Vm, b: Vm, es: seq<Event>)
    requires PossibleRun(a, es) && PossibleRun(b, es) && forall i :: 0 <= i < |es| ==> Quiet(es[i])
    ensures MatchedRun(a, b, es)
    decreases |es|
  {
    if es != [] {
      assert Quiet(es[0]);
      WritesMatch(Step(a, es[0]).0, Step(b, es[0]).0, es[1..]);
    }
  }

  lemma StepKeepsUncrossed(vm: Vm, e: Event)
    requires Named(vm) && Uncrossed(vm.open) && Possible(vm, e) && OpensNothing(e)
    ensures Named(Step(vm, e).0) && Uncrossed(Step(vm, e).0.open)
    ensures e.Close? ==> CleanClose(vm, ToInt(e.fd))
  {
    match e
    case Write(fd, addr, len, ret) => WriteKeepsNamed(vm, fd, addr, len, ret);
    case Close(fd) =>
      UncrossedIsClean(vm, ToInt(fd));
      CloseKeepsNamed(vm, fd);
    case Compute(mem) => MemoryOnly(vm, Step(vm, e).0);
    case IgnoredSave => MemoryOnly(vm, Step(vm, e).0);
  }

  /** Closes match too where no guest fd is another entry's host fd. */
  lemma {:induction false} UncrossedMatch(a: Vm, b: Vm, es: seq<Event>)
    requires Named(a) && Uncrossed(a.open) && Named(b) && Uncrossed(b.open)
    requires PossibleRun(a, es) && PossibleRun(b, es) && forall i :: 0 <= i < |es| ==> OpensNothing(es[i])
    ensures MatchedRun(a, b, es)
    decreases |es|
  {
    if es != [] {
      assert OpensNothing(es[0]);
      StepKeepsUncrossed(a, es[0]);
      StepKeepsUncrossed(b, es[0]);
      UncrossedMatch(Step(a, es[0]).0, Step(b, es[0]).0, es[1..]);
    }
  }

  /** Any run of writes keeps every guest-to-host pair, on any table. */
  lemma {:induction false} WriteRunKeepsPairs(vm: Vm, es: seq<Event>, k: int)
    requires PossibleRun(vm, es) && forall i :: 0 <= i < |es| ==> Quiet(es[i])
    ensures HostFd(Run(vm, es).open, k) == HostFd(vm.open, k)
    decreases |es|
  {
    if es != [] {
      assert Quiet(es[0]);
      if es[0].Write? { WriteKeepsPairs(vm, es[0].fd, es[0].addr, es[0].len, es[0].ret, k); }
      WriteRunKeepsPairs(Step(vm, es[0]).0, es[1..], k);
    }
  }

  predicate ClosesNot(e: Event, k: int) { e.Close? ==> ToInt(e.fd) != k }

  ghost predicate CleanRun(vm: Vm, es: seq<Event>)
    requires PossibleRun(vm, es)
    decreases |es|
  {
    es == [] || (OpensNothing(es[0]) && ClosesCleanly(vm, es[0]) && CleanRun(Step(vm, es[0]).0, es[1..]))
  }

  ghost predicate ClosesCleanly(vm: Vm, e: Event) { e.Close? ==> CleanClose(vm, ToInt(e.fd)) }

  lemma StepKeepsDistinct(vm: Vm, e: Event)
    requires DistinctGuests(vm.open) && Possible(vm, e) && OpensNothing(e) && ClosesCleanly(vm, e)
    ensures DistinctGuests(Step(vm, e).0.open)
  {
    if e.Close? {
      CloseSearches(vm, e.fd);
      var i := Find(vm.open, ToInt(e.fd));
      if i < |vm.open| { SwapRemoveDistinct(vm.open, i); }
    }
  }

  /** On any table with one entry for each guest fd, any run of writes and clean closes keeps the host
      fd of every guest fd it does not close. */
  lemma {:induction false} RunKeepsPairs(vm: Vm, es: seq<Event>, k: int)
    requires DistinctGuests(vm.open) && PossibleRun(vm, es) && CleanRun(vm, es)
    requires forall i :: 0 <= i < |es| ==> ClosesNot(es[i], k)
    ensures DistinctGuests(Run(vm, es).open) && HostFd(Run(vm, es).open, k) == HostFd(vm.open, k)
    decreases |es|
  {
    if es != [] {
      assert ClosesNot(es[0], k);
      StepKeepsDistinct(vm, es[0]);
      match es[0] {
        case Write(fd, addr, len, ret) => WriteKeepsPairs(vm, fd, addr, len, ret, k);
        case Close(fd) => CloseKeepsPair(vm, fd, k);
        case _ =>
      }
      RunKeepsPairs(Step(vm, es[0]).0, es[1..], k);
    }
  }

  // ---- a restore, on any descriptor numbers ----

  /** No saved guest fd is the new host fd of another entry. */
  predicate NoCrossing(es: seq<GuestFile>, answers: seq<Answer>)
    requires |es| == |answers|
  {
    forall i, j :: 0 <= i < |es| && 0 <= j < |es| && i != j ==> es[i].guestFd != answers[j].fd
  }

  ghost predicate GoodRestore(vm: Vm, h: Host, answers: seq<Answer>) {
    AllReopen(vm.open, answers) && CanRestore(h, vm.mem, vm.open, answers) && StandardStreams(h)
  }

  lemma RestoredEntry(vm: Vm, h: Host, answers: seq<Answer>, i: nat)
    requires AllDistinct(vm.open) && GoodRestore(vm, h, answers) && i < |vm.open|
    ensures var vm' := Restored(h, vm.mem, vm.open, answers);
            && vm'.open[i] == vm.open[i].(hostFd := answers[i].fd) && answers[i].fd >= 3
            && answers[i].fd in vm'.host.fds
            && vm'.host.fds[answers[i].fd] == File(NameOf(vm.open[i]), vm.open[i].offset)
            && ViewOf(vm'.host, answers[i].fd) ==
               At(NameOf(vm.open[i]), vm.open[i].offset, Replayed(vm.mem, vm.open[i]))
            && (vm.open[i].offset > 0 ==> vm.open[i].startAddr + vm.open[i].offset <= |vm.mem|)
  {
    ReopenedViews(h, vm.mem, vm.open, answers, |vm.open| - 1, i);
  }

  lemma RestoredStreams(vm: Vm, h: Host, answers: seq<Answer>)
    requires AllReopen(vm.open, answers) && CanRestore(h, vm.mem, vm.open, answers) && StandardStreams(h)
    ensures StandardStreams(Restored(h, vm.mem, vm.open, answers).host)
  {
    ReopenedFds(h, vm.mem, vm.open, answers, |vm.open|);
    forall s | 0 <= s <= 2
      ensures s in Restored(h, vm.mem, vm.open, answers).host.fds &&
              Restored(h, vm.mem, vm.open, answers).host.fds[s] == Stream
    {
      assert KnownFd(h, ReopenAll(h, vm.mem, vm.open, answers, |vm.open|).0, answers, |vm.open|, s);
    }
  }

  /** A restored table is named, and uncrossed where the answers do not cross the saved numbers. */
  lemma RestoredIsNamed(vm: Vm, h: Host, answers: seq<Answer>)
    requires Named(vm) && GoodRestore(vm, h, answers)
    ensures Named(Restored(h, vm.mem, vm.open, answers))
    ensures NoCrossing(vm.open, answers) ==> Uncrossed(Restored(h, vm.mem, vm.open, answers).open)
  {
    var vm' := Restored(h, vm.mem, vm.open, answers);
    RestoredStreams(vm, h, answers);
    forall i | 0 <= i < |vm'.open| ensures NamedEntry(vm', i) {
      RestoredEntry(vm, h, answers, i);
      assert NamedEntry(vm, i);
    }
    forall i, j | 0 <= i < |vm'.open| && 0 <= j < |vm'.open| && i != j
      ensures DistinctEntries(vm'.open[i], vm'.open[j])
      ensures NoCrossing(vm.open, answers) ==> vm'.open[i].guestFd != vm'.open[j].hostFd
    {
      RestoredPair(vm, h, answers, i, j);
    }
  }

  lemma RestoredPair(vm: Vm, h: Host, answers: seq<Answer>, i: nat, j: nat)
    requires AllDistinct(vm.open) && GoodRestore(vm, h, answers) && i < |vm.open| && j < |vm.open| && i != j
    ensures var vm' := Restored(h, vm.mem, vm.open, answers);
            && DistinctEntries(vm'.open[i], vm'.open[j])
            && vm'.open[i].guestFd == vm.open[i].guestFd && vm'.open[j].hostFd == answers[j].fd
  {
    RestoredEntry(vm, h, answers, i);
    RestoredEntry(vm, h, answers, j);
    DifferentFds(vm.open, i, j);
    ReopenedDistinct(h, vm.mem, vm.open, answers, if i < j then i else j, if i < j then j else i);
  }

  lemma {:induction false} FindSameGuests(xs: seq<GuestFile>, ys: seq<GuestFile>, g: int)
    requires |xs| == |ys| && forall i :: 0 <= i < |xs| ==> xs[i].guestFd == ys[i].guestFd
    ensures Find(xs, g) == Find(ys, g)
  {
    if xs != [] && xs[0].guestFd != g { FindSameGuests(xs[1..], ys[1..], g); }
  }

  /** The entry's descriptor is open and at the entry's offset. */
  predicate UpToDate(vm: Vm, i: nat)
    requires i < |vm.open|
  {
    var e := vm.open[i];
    e.hostFd in vm.host.fds && vm.host.fds[e.hostFd] == File(NameOf(e), e.offset)
  }

  lemma TableIsUpToDate(vm: Vm, i: nat)
    requires TableInv(vm) && i < |vm.open|
    ensures UpToDate(vm, i)
  {
    assert EntryOk(vm, i);
  }

  /** The entry says where its descriptor is, and guest memory holds the bytes up to there. */
  predicate Recoverable(vm: Vm, i: nat)
    requires i < |vm.open|
  {
    UpToDate(vm, i) && Replayable(vm, i)
  }

  /** The guest sees after a restore what it saw at the save, exactly when each entry is still where
      its descriptor is and its buffer still holds what was written. This is for any VM, migrated
      before or not. */
  lemma RestoreShowsExactly(vm: Vm, h: Host, answers: seq<Answer>)
    requires Named(vm) && StandardStreams(vm.host) && GoodRestore(vm, h, answers)
    ensures SameToGuest(vm, Restored(h, vm.mem, vm.open, answers)) <==>
            forall i :: 0 <= i < |vm.open| ==> Recoverable(vm, i)
  {
    var vm' := Restored(h, vm.mem, vm.open, answers);
    forall g ensures GuestView(vm, g) == GuestView(vm', g) || Find(vm.open, g) < |vm.open| {
      UnknownSeen(vm, h, answers, g);
    }
    forall i | 0 <= i < |vm.open|
      ensures GuestView(vm, vm.open[i].guestFd) == GuestView(vm', vm.open[i].guestFd) <==> Recoverable(vm, i)
    {
      SeenEntry(vm, h, answers, i);
    }
    if forall i :: 0 <= i < |vm.open| ==> Recoverable(vm, i) {
      forall g ensures GuestView(vm, g) == GuestView(vm', g) {
        if Find(vm.open, g) < |vm.open| { assert Recoverable(vm, Find(vm.open, g)); }
      }
    }
  }

  lemma RestoredGuests(vm: Vm, h: Host, answers: seq<Answer>, g: int)
    requires AllDistinct(vm.open) && GoodRestore(vm, h, answers)
    ensures Find(Restored(h, vm.mem, vm.open, answers).open, g) == Find(vm.open, g)
  {
    var vm' := Restored(h, vm.mem, vm.open, answers);
    forall k | 0 <= k < |vm.open| ensures vm'.open[k].guestFd == vm.open[k].guestFd {
      RestoredEntry(vm, h, answers, k);
    }
    FindSameGuests(vm.open, vm'.open, g);
  }

  lemma UnknownSeen(vm: Vm, h: Host, answers: seq<Answer>, g: int)
    requires AllDistinct(vm.open) && StandardStreams(vm.host) && GoodRestore(vm, h, answers)
    ensures GuestView(vm, g) == GuestView(Restored(h, vm.mem, vm.open, answers), g) || Find(vm.open, g) < |vm.open|
  {
    RestoredGuests(vm, h, answers, g);
    RestoredStreams(vm, h, answers);
  }

  lemma SeenEntry(vm: Vm, h: Host, answers: seq<Answer>, i: nat)
    requires Named(vm) && GoodRestore(vm, h, answers) && i < |vm.open|
    ensures var vm' := Restored(h, vm.mem, vm.open, answers);
            GuestView(vm, vm.open[i].guestFd) == GuestView(vm', vm.open[i].guestFd) <==> Recoverable(vm, i)
  {
    RestoredEntry(vm, h, answers, i);
    RestoredGuests(vm, h, answers, vm.open[i].guestFd);
    FindEntry(vm.open, i);
    assert NamedEntry(vm, i);
  }

  // ---- one migration ----

  lemma MigratedLooksAlike(vm: Vm, h: Host, answers: seq<Answer>)
    requires TableInv(vm) && ReplayInv(vm) && GoodRestore(vm, h, answers)
    ensures SameToGuest(vm, Restored(h, vm.mem, vm.open, answers))
    ensures Named(vm) && Named(Restored(h, vm.mem, vm.open, answers))
  {
    TableIsNamed(vm);
    RestoredIsNamed(vm, h, answers);
    forall i | 0 <= i < |vm.open| ensures Recoverable(vm, i) { TableIsUpToDate(vm, i); }
    RestoreShowsExactly(vm, h, answers);
  }

  /** Cold migration. Take any run from a fresh table in which writes to a file follow each other
      in guest memory and what was written stays there; save it; restore it on any host that
      reopens every file and takes every byte. Then the guest sees the same files at the same
      positions with the same bytes up to them, and through any later matched run it gets the same
      return values and goes on seeing the same files as if it had never been migrated. */
  lemma ColdMigrationSimulates(start: Vm, before: seq<Event>, h: Host, answers: seq<Answer>, after: seq<Event>)
    requires TableInv(start) && ReplayInv(start) && PossibleRun(start, before) && SteadyRun(start, before)
    requires GoodRestore(Run(start, before), h, answers)
    requires var vm := Run(start, before);
             var moved := Restored(h, vm.mem, vm.open, answers);
             PossibleRun(vm, after) && PossibleRun(moved, after) && MatchedRun(vm, moved, after)
    ensures var vm := Run(start, before);
            var moved := Restored(h, vm.mem, vm.open, answers);
            && SameToGuest(vm, moved)
            && SameToGuest(Run(vm, after), Run(moved, after))
            && Returns(vm, after) == Returns(moved, after)
  {
    RunKeepsReplay(start, before);
    var vm := Run(start, before);
    MigratedLooksAlike(vm, h, answers);
    RunSimulates(vm, Restored(h, vm.mem, vm.open, answers), after);
  }

  /** Writes need nothing of the numbers: any later run of writes matches, on arbitrary host fds. */
  lemma MigrationKeepsWrites(start: Vm, before: seq<Event>, h: Host, answers: seq<Answer>, after: seq<Event>)
    requires TableInv(start) && ReplayInv(start) && PossibleRun(start, before) && SteadyRun(start, before)
    requires GoodRestore(Run(start, before), h, answers)
    requires var vm := Run(start, before);
             PossibleRun(vm, after) && PossibleRun(Restored(h, vm.mem, vm.open, answers), after)
    requires forall i :: 0 <= i < |after| ==> Quiet(after[i])
    ensures var vm := Run(start, before);
            var moved := Restored(h, vm.mem, vm.open, answers);
            && SameToGuest(vm, moved)
            && SameToGuest(Run(vm, after), Run(moved, after))
            && Returns(vm, after) == Returns(moved, after)
  {
    var vm := Run(start, before);
    WritesMatch(vm, Restored(h, vm.mem, vm.open, answers), after);
    ColdMigrationSimulates(start, before, h, answers, after);
  }

  /** Closes need numbers that do not cross. */
  lemma MigrationKeepsCloses(start: Vm, before: seq<Event>, h: Host, answers: seq<Answer>, after: seq<Event>)
    requires TableInv(start) && ReplayInv(start) && PossibleRun(start, before) && SteadyRun(start, before)
    requires GoodRestore(Run(start, before), h, answers) && NoCrossing(Run(start, before).open, answers)
    requires var vm := Run(start, before);
             PossibleRun(vm, after) && PossibleRun(Restored(h, vm.mem, vm.open, answers), after)
    requires forall i :: 0 <= i < |after| ==> OpensNothing(after[i])
    ensures var vm := Run(start, before);
            var moved := Restored(h, vm.mem, vm.open, answers);
            && SameToGuest(vm, moved)
            && SameToGuest(Run(vm, after), Run(moved, after))
            && Returns(vm, after) == Returns(moved, after)
  {
    var vm := Run(start, before);
    RunKeepsReplay(start, before);
    TableIsNamed(vm);
    RestoredIsNamed(vm, h, answers);
    UncrossedMatch(vm, Restored(h, vm.mem, vm.open, answers), after);
    ColdMigrationSimulates(start, before, h, answers, after);
  }

  // ---- crossing numbers ----

  lemma {:induction false} FindCrossed(xs: seq<GuestFile>, ys: seq<GuestFile>, i: nat)
    requires |xs| == |ys| && i < |xs| && AllDistinct(xs) && forall k :: 0 <= k < |xs| ==> xs[k].guestFd == ys[k].guestFd
    ensures Find(ys, xs[i].guestFd) == i
  {
    FindSameGuests(xs, ys, xs[i].guestFd);
    FindEntry(xs, i);
  }

  /** The condition on descriptor numbers is needed: when a saved guest fd is the new host fd of
      another entry, closing that other one takes the first away from the guest of the migrated VM,
      while the unmigrated guest keeps it. */
  lemma CrossingLosesAFile(vm: Vm, h: Host, answers: seq<Answer>, i: nat, j: nat, fd: nat)
    requires TableInv(vm) && GoodRestore(vm, h, answers) && i < |vm.open| && j < |vm.open| && i != j
    requires vm.open[i].guestFd == answers[j].fd && ToInt(fd) == vm.open[j].guestFd
    ensures var moved := Restored(h, vm.mem, vm.open, answers);
            && GuestView(SysClose(moved, fd).0, vm.open[i].guestFd) == Closed
            && GuestView(SysClose(vm, fd).0, vm.open[i].guestFd).At?
  {
    var moved := Restored(h, vm.mem, vm.open, answers);
    forall k | 0 <= k < |vm.open| ensures moved.open[k].guestFd == vm.open[k].guestFd {
      RestoredEntry(vm, h, answers, k);
    }
    RestoredEntry(vm, h, answers, j);
    assert EntryOk(vm, i) && EntryOk(vm, j);
    CrossedClose(moved, vm.open, i, j, fd);
    StillThere(vm, i, j, fd);
  }

  /** The run es, taken by both, leaves the guest seeing the same files. */
  ghost predicate AgreeAfter(a: Vm, b: Vm, es: seq<Event>)
    requires PossibleRun(a, es) && PossibleRun(b, es)
  {
    SameToGuest(Run(a, es), Run(b, es))
  }

  ghost predicate Later(a: Vm, b: Vm, es: seq<Event>) {
    PossibleRun(a, es) && PossibleRun(b, es) && forall i :: 0 <= i < |es| ==> OpensNothing(es[i])
  }

  /** The condition is exact: the migrated and the unmigrated VM agree after every later run of
      writes and closes if and only if no saved guest fd is another entry's new host fd. */
  lemma MigrationAgreesExactly(vm: Vm, h: Host, answers: seq<Answer>)
    requires TableInv(vm) && ReplayInv(vm) && GoodRestore(vm, h, answers)
    ensures var moved := Restored(h, vm.mem, vm.open, answers);
            (forall es :: Later(vm, moved, es) ==> AgreeAfter(vm, moved, es)) <==> NoCrossing(vm.open, answers)
  {
    var moved := Restored(h, vm.mem, vm.open, answers);
    if NoCrossing(vm.open, answers) {
      MigratedLooksAlike(vm, h, answers);
      TableIsNamed(vm);
      RestoredIsNamed(vm, h, answers);
      forall es | Later(vm, moved, es) ensures AgreeAfter(vm, moved, es) {
        UncrossedMatch(vm, moved, es);
        RunSimulates(vm, moved, es);
      }
    } else {
      CrossingDisagrees(vm, h, answers);
    }
  }

  /** The run on which they disagree is a single close. */
  lemma CrossingDisagrees(vm: Vm, h: Host, answers: seq<Answer>)
    requires TableInv(vm) && GoodRestore(vm, h, answers) && !NoCrossing(vm.open, answers)
    ensures var moved := Restored(h, vm.mem, vm.open, answers);
            exists es :: Later(vm, moved, es) && !AgreeAfter(vm, moved, es)
  {
    var moved := Restored(h, vm.mem, vm.open, answers);
    var i, j :| 0 <= i < |vm.open| && 0 <= j < |vm.open| && i != j && vm.open[i].guestFd == answers[j].fd;
    assert EntryOk(vm, j);
    var fd: nat := vm.open[j].guestFd;
    CrossingLosesAFile(vm, h, answers, i, j, fd);
    DisagreeAfterOne(vm, moved, Close(fd), vm.open[i].guestFd);
  }

  lemma DisagreeAfterOne(a: Vm, b: Vm, e: Event, g: int)
    requires Possible(a, e) && Possible(b, e) && OpensNothing(e)
    requires GuestView(Step(a, e).0, g) != GuestView(Step(b, e).0, g)
    ensures exists es :: Later(a, b, es) && !AgreeAfter(a, b, es)
  {
    OneEvent(a, e);
    OneEvent(b, e);
    assert Later(a, b, [e]) && !AgreeAfter(a, b, [e]);
  }

  lemma OneEvent(vm: Vm, e: Event)
    requires Possible(vm, e)
    ensures PossibleRun(vm, [e]) && Run(vm, [e]) == Step(vm, e).0
  {
    assert [e][1..] == [];
  }

  lemma CrossedClose(moved: Vm, xs: seq<GuestFile>, i: nat, j: nat, fd: nat)
    requires |moved.open| == |xs| && i < |xs| && j < |xs| && AllDistinct(xs)
    requires forall k :: 0 <= k < |xs| ==> moved.open[k].guestFd == xs[k].guestFd
    requires xs[i].guestFd == moved.open[j].hostFd >= 3 && moved.open[j].hostFd in moved.host.fds
    requires ToInt(fd) == xs[j].guestFd >= 3
    ensures GuestView(SysClose(moved, fd).0, xs[i].guestFd) == Closed
  {
    FindCrossed(xs, moved.open, i);
    FindCrossed(xs, moved.open, j);
    RemovedGuest(xs, moved.open, i);
    assert SysClose(moved, fd).0.open == SwapRemove(moved.open, i);
  }

  lemma StillThere(vm: Vm, i: nat, j: nat, fd: nat)
    requires TableInv(vm) && i < |vm.open| && j < |vm.open| && i != j && ToInt(fd) == vm.open[j].guestFd
    ensures GuestView(SysClose(vm, fd).0, vm.open[i].guestFd).At?
  {
    assert EntryOk(vm, i);
    DifferentFds(vm.open, i, j);
    FindEntry(vm.open, i);
    TableIsNamed(vm);
    UncrossedIsClean(vm, ToInt(fd));
    NamedIsPaired(vm);
    CloseSeen(vm, fd, vm.open[i].guestFd);
  }

  lemma RemovedGuest(xs: seq<GuestFile>, ys: seq<GuestFile>, i: nat)
    requires |xs| == |ys| && i < |xs| && AllDistinct(xs) && forall k :: 0 <= k < |xs| ==> xs[k].guestFd == ys[k].guestFd
    ensures Find(SwapRemove(ys, i), xs[i].guestFd) == |ys| - 1
  {
    var r, last := SwapRemove(ys, i), |ys| - 1;
    forall m | 0 <= m < |r| ensures r[m].guestFd != xs[i].guestFd {
      DifferentFds(xs, if m == i then last else m, i);
    }
  }
}
