/** Chains of migrations on whatever descriptor numbers the hosts hand out. After a restore on other
    numbers a write moves the descriptor but not the entry's offset, and a close leaves the entry in
    the table; the next migration is right exactly when neither has happened to a live entry. */
module RenumberedChains {
  import opened HostFiles
  import opened FileTable
  import opened FdTable
  import opened TableInvariant
  import opened Restore
  import opened Migration
  import opened ColdMigration
  import opened MigrationChain

  /** A write that moves the descriptor keeps the entry up to date exactly when its two numbers are
      the same. */
  lemma WriteStaysUpToDateExactly(vm: Vm, fd: nat, addr: nat, len: nat, ret: int)
    requires Named(vm) && CanWrite(vm, fd, addr, len, ret) && ret > 0
    requires Find(vm.open, ToInt(fd)) < |vm.open| && UpToDate(vm, Find(vm.open, ToInt(fd)))
    ensures var i := Find(vm.open, ToInt(fd));
            UpToDate(SysWrite(vm, fd, addr, len, ret).0, i) <==> vm.open[i].hostFd == vm.open[i].guestFd
  {
    var i := Find(vm.open, ToInt(fd));
    assert NamedEntry(vm, i);
    WriteMoves(vm, fd, addr, len, ret);
    WriteAdvancesOwn(vm, fd, addr, len, ret);
    NoWrap(vm.open[i].offset, ret);
  }

  lemma WriteAdvancesOwn(vm: Vm, fd: nat, addr: nat, len: nat, ret: int)
    requires CanWrite(vm, fd, addr, len, ret) && Find(vm.open, ToInt(fd)) < |vm.open| && ToInt(fd) >= 3
    requires HostFd(vm.open, ToInt(fd)) >= 0
    ensures var i := Find(vm.open, ToInt(fd));
            SysWrite(vm, fd, addr, len, ret).0.open[i] ==
            if vm.open[i].hostFd == vm.open[i].guestFd then Advanced(vm.open[i], addr, ret) else vm.open[i]
  {}

  lemma WriteMoves(vm: Vm, fd: nat, addr: nat, len: nat, ret: int)
    requires CanWrite(vm, fd, addr, len, ret) && ret > 0 && HostFd(vm.open, ToInt(fd)) >= 3
    requires var h := HostFd(vm.open, ToInt(fd)); h in vm.host.fds && vm.host.fds[h].File?
    ensures var h := HostFd(vm.open, ToInt(fd));
            && vm.host.fds[h].pos + ret < POSITION_LIMIT
            && SysWrite(vm, fd, addr, len, ret).0.host.fds ==
                vm.host.fds[h := File(vm.host.fds[h].name, vm.host.fds[h].pos + ret)]
  {
    WrittenSize(vm, fd, addr, len, ret);
  }

  /** A close forgets the entry exactly when its two numbers are the same. */
  lemma CloseForgetsExactly(vm: Vm, fd: nat)
    requires Named(vm) && CleanClose(vm, ToInt(fd))
    requires Find(vm.open, ToInt(fd)) < |vm.open| && HostFd(vm.open, ToInt(fd)) in vm.host.fds
    ensures Lookup(SysClose(vm, fd).0.open, ToInt(fd)).None? <==> HostFd(vm.open, ToInt(fd)) == ToInt(fd)
  {
    var i := Find(vm.open, ToInt(fd));
    assert NamedEntry(vm, i);
    CloseSearches(vm, fd);
    SwapRemoveIsRemoval(vm.open, i, ToInt(fd));
  }

  // ---- chains ----

  /** The travelling VM can take the legs beside one that stays: its runs match, each SAVE comes when
      the one a restore makes the handler ignore is past, and every file reopens and takes its bytes. */
  ghost predicate CanGo(stays: Vm, travels: Vm, legs: seq<Leg>)
    decreases |legs|
  {
    legs == [] || (
      && PossibleRun(stays, legs[0].events) && PossibleRun(travels, legs[0].events)
      && MatchedRun(stays, travels, legs[0].events)
      && var saved := Run(travels, legs[0].events);
      && !saved.restored && StandardStreams(saved.host) && GoodRestore(saved, legs[0].host, legs[0].answers)
      && CanGo(Run(stays, legs[0].events), Restored(legs[0].host, saved.mem, saved.open, legs[0].answers),
          legs[1..]))
  }

  /** At every save, every entry is where its descriptor is and its buffer holds what was written. */
  ghost predicate Recovers(stays: Vm, travels: Vm, legs: seq<Leg>)
    requires CanGo(stays, travels, legs)
    decreases |legs|
  {
    legs == [] || (
      && var saved := Run(travels, legs[0].events);
      && (forall i :: 0 <= i < |saved.open| ==> Recoverable(saved, i))
      && Recovers(Run(stays, legs[0].events), Restored(legs[0].host, saved.mem, saved.open, legs[0].answers),
          legs[1..]))
  }

  /** The two VMs look alike after every leg. */
  ghost predicate AlikeThroughout(stays: Vm, travels: Vm, legs: seq<Leg>)
    requires CanGo(stays, travels, legs)
    decreases |legs|
  {
    SameToGuest(stays, travels) &&
    (legs == [] ||
      var saved := Run(travels, legs[0].events);
      AlikeThroughout(Run(stays, legs[0].events), Restored(legs[0].host, saved.mem, saved.open, legs[0].answers),
          legs[1..]))
  }

  lemma LookAlikeThrough(a: Vm, b: Vm, c: Vm)
    requires SameToGuest(a, b)
    ensures SameToGuest(a, c) <==> SameToGuest(b, c)
  {
    if SameToGuest(a, c) {
      forall g ensures GuestView(b, g) == GuestView(c, g) {
        assert GuestView(a, g) == GuestView(b, g) == GuestView(c, g);
      }
    }
    if SameToGuest(b, c) {
      forall g ensures GuestView(a, g) == GuestView(c, g) {
        assert GuestView(a, g) == GuestView(b, g) == GuestView(c, g);
      }
    }
  }

  lemma LegAgreesExactly(stays: Vm, travels: Vm, leg: Leg)
    requires Named(stays) && Named(travels) && SameToGuest(stays, travels)
    requires PossibleRun(stays, leg.events) && PossibleRun(travels, leg.events) &&
             MatchedRun(stays, travels, leg.events)
    requires var saved := Run(travels, leg.events);
             StandardStreams(saved.host) && GoodRestore(saved, leg.host, leg.answers)
    ensures var saved := Run(travels, leg.events);
            var next := Restored(leg.host, saved.mem, saved.open, leg.answers);
            && Named(Run(stays, leg.events)) && Named(next)
            && (SameToGuest(Run(stays, leg.events), next) <==>
                forall i :: 0 <= i < |saved.open| ==> Recoverable(saved, i))
  {
    var saved := Run(travels, leg.events);
    RunSimulates(stays, travels, leg.events);
    RestoredIsNamed(saved, leg.host, leg.answers);
    RestoreShowsExactly(saved, leg.host, leg.answers);
    LookAlikeThrough(Run(stays, leg.events), saved, Restored(leg.host, saved.mem, saved.open, leg.answers));
  }

  /** On any descriptor numbers, a VM that travels looks to its guest like one that stays, after every
      leg, if and only if at each save every entry is up to date and its buffer still holds its bytes. */
  lemma {:induction false} ChainAgreesExactly(stays: Vm, travels: Vm, legs: seq<Leg>)
    requires Named(stays) && Named(travels) && SameToGuest(stays, travels) && CanGo(stays, travels, legs)
    ensures AlikeThroughout(stays, travels, legs) <==> Recovers(stays, travels, legs)
    decreases |legs|
  {
    if legs != [] {
      LegAgreesExactly(stays, travels, legs[0]);
      var saved := Run(travels, legs[0].events);
      var next := Restored(legs[0].host, saved.mem, saved.open, legs[0].answers);
      if SameToGuest(Run(stays, legs[0].events), next) {
        ChainAgreesExactly(Run(stays, legs[0].events), next, legs[1..]);
      }
    }
  }
}
