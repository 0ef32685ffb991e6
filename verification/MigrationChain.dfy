/** Chains of migrations: when each restore gets the saved descriptor numbers again, the restored
    VM is as good as one that never moved. */
module MigrationChain {
  import opened Words
  import opened HostFiles
  import opened FileTable
  import opened TableInvariant
  import opened Replay
  import opened Restore
  import opened ColdMigration

  /** The same table and descriptors, and the same bytes up to each position. */
  ghost predicate SameFiles(a: Vm, b: Vm) {
    && a.mem == b.mem && a.open == b.open && a.host.fds == b.host.fds
    && (forall i :: 0 <= i < |a.open| ==> Shown(a, a.open[i]) == Shown(b, a.open[i]))
  }

  /** The host is a new process: nothing is open but the standard streams. */
  predicate FreshProcess(h: Host) {
    h.fds == map[0 := Stream, 1 := Stream, 2 := Stream]
  }

  /** The host hands out the saved numbers again. */
  predicate SameNumbers(es: seq<GuestFile>, answers: seq<Answer>)
    requires |es| == |answers|
  {
    forall i :: 0 <= i < |es| ==> answers[i].fd == es[i].guestFd
  }

  ghost predicate FaithfulRestore(vm: Vm, h: Host, answers: seq<Answer>) {
    AllReopen(vm.open, answers) && CanRestore(h, vm.mem, vm.open, answers) && FreshProcess(h) &&
        SameNumbers(vm.open, answers)
  }

  lemma SameEntry(vm: Vm, h: Host, answers: seq<Answer>, i: nat)
    requires TableInv(vm) && FaithfulRestore(vm, h, answers) && i < |vm.open|
    ensures Restored(h, vm.mem, vm.open, answers).open[i] == vm.open[i]
  {
    RestoredEntry(vm, h, answers, i);
    assert EntryOk(vm, i);
  }

  lemma SameEntries(vm: Vm, h: Host, moved: Vm, answers: seq<Answer>)
    requires TableInv(vm) && FaithfulRestore(vm, h, answers) && moved == Restored(h, vm.mem, vm.open, answers)
    ensures moved.open == vm.open
  {
    forall i | 0 <= i < |vm.open| ensures moved.open[i] == vm.open[i] { SameEntry(vm, h, answers, i); }
  }

  lemma SameDescriptors(vm: Vm, h: Host, moved: Vm, answers: seq<Answer>)
    requires TableInv(vm) && FaithfulRestore(vm, h, answers) && moved == Restored(h, vm.mem, vm.open, answers)
    ensures moved.host.fds == vm.host.fds
  {
    forall fd ensures fd in moved.host.fds <==> fd in vm.host.fds
              ensures fd in vm.host.fds ==> moved.host.fds[fd] == vm.host.fds[fd]
    {
      SameDescriptor(vm, h, moved, answers, fd);
    }
  }

  lemma RestoredKnown(vm: Vm, h: Host, answers: seq<Answer>, fd: int)
    requires AllReopen(vm.open, answers) && CanRestore(h, vm.mem, vm.open, answers)
    ensures KnownFd(h, Restored(h, vm.mem, vm.open, answers).host, answers, |vm.open|, fd)
  {
    ReopenedFds(h, vm.mem, vm.open, answers, |vm.open|);
  }

  lemma SameDescriptor(vm: Vm, h: Host, moved: Vm, answers: seq<Answer>, fd: int)
    requires TableInv(vm) && FaithfulRestore(vm, h, answers) && moved == Restored(h, vm.mem, vm.open, answers)
    ensures fd in moved.host.fds <==> fd in vm.host.fds
    ensures fd in vm.host.fds ==> moved.host.fds[fd] == vm.host.fds[fd]
  {
    RestoredKnown(vm, h, answers, fd);
    assert Owned(vm, fd);
    if 0 <= fd <= 2 {
      assert fd in h.fds && vm.host.fds[fd] == Stream;
    } else if Find(vm.open, fd) < |vm.open| {
      EntryDescriptor(vm, h, answers, Find(vm.open, fd));
    } else if fd in moved.host.fds {
      var i :| 0 <= i < |vm.open| && answers[i].fd == fd;
      EntryDescriptor(vm, h, answers, i);
    }
  }

  lemma EntryDescriptor(vm: Vm, h: Host, answers: seq<Answer>, i: nat)
    requires TableInv(vm) && FaithfulRestore(vm, h, answers) && i < |vm.open|
    ensures var moved, fd := Restored(h, vm.mem, vm.open, answers), vm.open[i].guestFd;
            && answers[i].fd == fd && fd in moved.host.fds && fd in vm.host.fds && moved.host.fds[fd] == vm.host.fds[fd]
  {
    RestoredEntry(vm, h, answers, i);
    assert EntryOk(vm, i);
  }

  /** When the reopened numbers are the saved ones, the restored VM satisfies the invariants of a
      VM that was never migrated, and has the same files as the saved one. */
  lemma RestoreKeepsInvariants(vm: Vm, h: Host, answers: seq<Answer>)
    requires TableInv(vm) && ReplayInv(vm) && FaithfulRestore(vm, h, answers)
    ensures var moved := Restored(h, vm.mem, vm.open, answers);
            TableInv(moved) && ReplayInv(moved) && SameFiles(vm, moved)
  {
    var moved := Restored(h, vm.mem, vm.open, answers);
    SameEntries(vm, h, moved, answers);
    SameDescriptors(vm, h, moved, answers);
    forall fd ensures Owned(moved, fd) { assert Owned(vm, fd); }
    forall i | 0 <= i < |vm.open|
      ensures EntryOk(moved, i) && Replayable(moved, i) && Shown(vm, vm.open[i]) == Shown(moved, vm.open[i])
    {
      MigratedFileExactly(vm, h, answers, i);
      assert EntryOk(vm, i) && Replayable(vm, i);
    }
  }

  // ---- two VMs with the same files stay so ----

  lemma WriteSame(a: Vm, b: Vm, fd: nat, addr: nat, len: nat, ret: int)
    requires TableInv(a) && TableInv(b) && SameFiles(a, b)
    requires CanWrite(a, fd, addr, len, ret) && CanWrite(b, fd, addr, len, ret) && Fair(a, Write(fd, addr, len, ret))
    ensures SameFiles(SysWrite(a, fd, addr, len, ret).0, SysWrite(b, fd, addr, len, ret).0)
    ensures SysWrite(a, fd, addr, len, ret).1 == SysWrite(b, fd, addr, len, ret).1
  {
    var i, a', b' := Find(a.open, ToInt(fd)), SysWrite(a, fd, addr, len, ret).0, SysWrite(b, fd, addr, len, ret).0;
    EntryOf(a, ToInt(fd));
    if ret >= 0 {
      WriteEffect(a, fd, addr, len, ret);
      WriteEffect(b, fd, addr, len, ret);
      if i < |a.open| { AdvanceSame(a, b, a', b', i, addr, Written(a.mem, addr, ret)); }
    } else {
      assert a' == a && b' == b;
    }
  }

  lemma OpenSame(a: Vm, b: Vm, path: nat, flags: nat, mode: nat, fd: int)
    requires TableInv(a) && TableInv(b) && SameFiles(a, b)
    requires CanOpen(a, path, flags, fd) && CanOpen(b, path, flags, fd) && Fair(a, Open(path, flags, mode, fd))
    ensures SameFiles(SysOpen(a, path, flags, mode, fd).0, SysOpen(b, path, flags, mode, fd).0)
    ensures SysOpen(a, path, flags, mode, fd).1 == SysOpen(b, path, flags, mode, fd).1
  {
    if |a.open| < MAX_OPEN_FILES {
      var a', b' := SysOpen(a, path, flags, mode, fd).0, SysOpen(b, path, flags, mode, fd).0;
      OpenedEntry(a, path, flags, mode, fd);
      OpenedEntry(b, path, flags, mode, fd);
      PathArgument(a.mem, path);
      forall j | 0 <= j < |a'.open| ensures Shown(a', a'.open[j]) == Shown(b', a'.open[j]) {
        if j < |a.open| { assert Shown(a, a.open[j]) == Shown(b, a.open[j]); }
      }
    }
  }

  lemma CloseSame(a: Vm, b: Vm, fd: nat)
    requires TableInv(a) && TableInv(b) && SameFiles(a, b) && !(0 <= ToInt(fd) <= 2)
    ensures SameFiles(SysClose(a, fd).0, SysClose(b, fd).0) && SysClose(a, fd).1 == SysClose(b, fd).1
  {
    var a', b', i := SysClose(a, fd).0, SysClose(b, fd).0, Find(a.open, ToInt(fd));
    CloseEffect(a, fd);
    CloseEffect(b, fd);
    if i < |a.open| {
      forall j | 0 <= j < |a'.open| ensures Shown(a', a'.open[j]) == Shown(b', a'.open[j]) {
        assert a'.open[j] == a.open[if j == i then |a.open| - 1 else j];
      }
    }
  }

  lemma QuietSame(a: Vm, b: Vm, a': Vm, b': Vm)
    requires SameFiles(a, b) && a'.mem == b'.mem
    requires a'.open == a.open && a'.host == a.host && b'.open == b.open && b'.host == b.host
    ensures SameFiles(a', b')
  {
    forall i | 0 <= i < |a.open| ensures Shown(a', a.open[i]) == Shown(b', a.open[i]) {
      assert Shown(a, a.open[i]) == Shown(b, a.open[i]);
    }
  }

  /** One step, any syscall included, keeps two such VMs the same and answers both alike. */
  lemma StepKeepsSameFiles(a: Vm, b: Vm, e: Event)
    requires TableInv(a) && TableInv(b) && SameFiles(a, b)
    requires Possible(a, e) && Possible(b, e) && Fair(a, e)
    ensures SameFiles(Step(a, e).0, Step(b, e).0) && Step(a, e).1 == Step(b, e).1
  {
    match e
    case Write(fd, addr, len, ret) => WriteSame(a, b, fd, addr, len, ret);
    case Open(path, flags, mode, fd) => OpenSame(a, b, path, flags, mode, fd);
    case Close(fd) => CloseSame(a, b, fd);
    case Compute(mem) => QuietSame(a, b, Step(a, e).0, Step(b, e).0);
    case IgnoredSave => QuietSame(a, b, Step(a, e).0, Step(b, e).0);
  }

  lemma AdvanceSame(a: Vm, b: Vm, a': Vm, b': Vm, i: nat, addr: nat, data: seq<byte>)
    requires TableInv(a) && TableInv(b) && SameFiles(a, b) && i < |a.open|
    requires AdvancesEntry(a, a', i, addr, data) && AdvancesEntry(b, b', i, addr, data)
    ensures SameFiles(a', b')
  {
    assert EntryOk(a, i) && EntryOk(b, i);
    forall j | 0 <= j < |a'.open| ensures Shown(a', a'.open[j]) == Shown(b', a'.open[j]) {
      if j == i {
        AdvanceShown(a, a', i, addr, data);
        AdvanceShown(b, b', i, addr, data);
      } else {
        DifferentFds(a.open, i, j);
        assert Shown(a, a.open[j]) == Shown(b, a.open[j]);
      }
    }
  }

  /** Through any fair run, opens included, two such VMs stay the same and answer alike. */
  lemma {:induction false} RunKeepsSameFiles(a: Vm, b: Vm, es: seq<Event>)
    requires TableInv(a) && TableInv(b) && SameFiles(a, b)
    requires PossibleRun(a, es) && PossibleRun(b, es) && FairRun(a, es)
    ensures TableInv(Run(a, es)) && TableInv(Run(b, es))
    ensures SameFiles(Run(a, es), Run(b, es)) && Returns(a, es) == Returns(b, es)
    ensures SteadyRun(a, es) ==> SteadyRun(b, es)
    decreases |es|
  {
    if es != [] {
      assert Fair(b, es[0]);
      StepKeepsTableExactly(a, es[0]);
      StepKeepsTableExactly(b, es[0]);
      StepKeepsSameFiles(a, b, es[0]);
      RunKeepsSameFiles(Step(a, es[0]).0, Step(b, es[0]).0, es[1..]);
    }
  }

  lemma {:induction false} SteadyIsFair(vm: Vm, es: seq<Event>)
    requires PossibleRun(vm, es) && SteadyRun(vm, es)
    ensures FairRun(vm, es)
    decreases |es|
  {
    if es != [] { SteadyIsFair(Step(vm, es[0]).0, es[1..]); }
  }

  // ---- chains of migrations ----

  /** A stretch of running, then a SAVE and a restore on the next host. */
  datatype Leg = Leg(events: seq<Event>, host: Host, answers: seq<Answer>)

  /** The legs can be run from vm: each SAVE comes when the one a restore makes the handler ignore
      is past, and each restore gets the saved numbers again. */
  ghost predicate CanTravel(vm: Vm, legs: seq<Leg>)
    decreases |legs|
  {
    legs == [] || (
      && PossibleRun(vm, legs[0].events)
      && var saved := Run(vm, legs[0].events);
      && !saved.restored && FaithfulRestore(saved, legs[0].host, legs[0].answers)
      && CanTravel(Restored(legs[0].host, saved.mem, saved.open, legs[0].answers), legs[1..]))
  }

  ghost function Travel(vm: Vm, legs: seq<Leg>): Vm
    requires CanTravel(vm, legs)
    decreases |legs|
  {
    if legs == [] then vm else
      var saved := Run(vm, legs[0].events);
      Travel(Restored(legs[0].host, saved.mem, saved.open, legs[0].answers), legs[1..])
  }

  /** The same stretches of running without the migrations between them. */
  ghost predicate CanStay(vm: Vm, legs: seq<Leg>)
    decreases |legs|
  {
    legs == [] || (PossibleRun(vm, legs[0].events) && SteadyRun(vm, legs[0].events) &&
        CanStay(Run(vm, legs[0].events), legs[1..]))
  }

  ghost function Stay(vm: Vm, legs: seq<Leg>): Vm
    requires CanStay(vm, legs)
    decreases |legs|
  {
    if legs == [] then vm else Stay(Run(vm, legs[0].events), legs[1..])
  }

  /** However often a VM is migrated, it has the same table, the same positions and the same bytes
      up to them as the VM that stayed, and it can be migrated again. */
  lemma {:induction false} ManyMigrations(stays: Vm, travels: Vm, legs: seq<Leg>)
    requires TableInv(stays) && ReplayInv(stays) && TableInv(travels) && ReplayInv(travels) && SameFiles(stays, travels)
    requires CanStay(stays, legs) && CanTravel(travels, legs)
    ensures SameFiles(Stay(stays, legs), Travel(travels, legs))
    ensures TableInv(Travel(travels, legs)) && ReplayInv(Travel(travels, legs))
    decreases |legs|
  {
    if legs != [] {
      var a, b := Run(stays, legs[0].events), Run(travels, legs[0].events);
      SteadyIsFair(stays, legs[0].events);
      RunKeepsSameFiles(stays, travels, legs[0].events);
      RunKeepsReplay(stays, legs[0].events);
      RunKeepsReplay(travels, legs[0].events);
      RestoreKeepsInvariants(b, legs[0].host, legs[0].answers);
      SameFilesJoin(a, b, Restored(legs[0].host, b.mem, b.open, legs[0].answers));
      ManyMigrations(a, Restored(legs[0].host, b.mem, b.open, legs[0].answers), legs[1..]);
    }
  }

  lemma SameFilesJoin(a: Vm, b: Vm, c: Vm)
    requires SameFiles(a, b) && SameFiles(b, c)
    ensures SameFiles(a, c)
  {
    forall i | 0 <= i < |a.open| ensures Shown(a, a.open[i]) == Shown(c, a.open[i]) {
      assert Shown(a, a.open[i]) == Shown(b, a.open[i]);
    }
  }
}
