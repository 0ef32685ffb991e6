/** The array of open files as a map from guest fd to entry, on every run before a restore whose
    opens succeed. */
module FdTable {
  import opened Words
  import opened HostFiles
  import opened FileTable

  predicate DistinctGuests(open: seq<GuestFile>) {
    forall i, j :: 0 <= i < |open| && 0 <= j < |open| && i != j ==> open[i].guestFd != open[j].guestFd
  }

  predicate OpenOnHost(vm: Vm, i: nat)
    requires i < |vm.open|
  {
    vm.open[i].guestFd == vm.open[i].hostFd && vm.open[i].hostFd in vm.host.fds
  }

  /** At most 64 entries, one for each guest fd, and each guest fd is an open host fd. */
  ghost predicate FdInv(vm: Vm) {
    && |vm.open| <= MAX_OPEN_FILES
    && DistinctGuests(vm.open)
    && (forall i :: 0 <= i < |vm.open| ==> OpenOnHost(vm, i))
    && (forall fd :: fd in vm.host.fds ==> fd >= 0)
  }

  /** If the handler calls open, the host opens the file. */
  predicate OpensFine(vm: Vm, e: Event) {
    e.Open? && |vm.open| < MAX_OPEN_FILES ==> e.hostFd != -1
  }

  // ---- lookup ----

  lemma FindEntry(open: seq<GuestFile>, i: nat)
    requires i < |open| && DistinctGuests(open)
    ensures Find(open, open[i].guestFd) == i
  {
    FindIsFirst(open, open[i].guestFd, i);
  }

  /** The host fd found is the guest fd itself, or -1. */
  lemma HostFdIsGuestFd(vm: Vm, g: int)
    requires FdInv(vm)
    ensures HostFd(vm.open, g) == if 0 <= g <= 2 || Lookup(vm.open, g).Some? then g else -1
    ensures Lookup(vm.open, g).Some? ==> g >= 0 && g in vm.host.fds
  {
    if Find(vm.open, g) < |vm.open| { assert OpenOnHost(vm, Find(vm.open, g)); }
  }

  lemma {:induction false} FindUpdated(open: seq<GuestFile>, i: nat, e: GuestFile, g: int)
    requires i < |open| && e.guestFd == open[i].guestFd
    ensures Find(open[i := e], g) == Find(open, g)
  {
    if i > 0 && open[0].guestFd != g {
      FindUpdated(open[1..], i - 1, e, g);
      assert open[i := e][1..] == open[1..][i - 1 := e];
    }
  }

  lemma {:induction false} FindAppended(open: seq<GuestFile>, e: GuestFile, g: int)
    ensures Lookup(open + [e], g) ==
            if Lookup(open, g).Some? then Lookup(open, g) else if e.guestFd == g then Some(e) else None
  {
    if open == [] {
      assert (open + [e])[1..] == [];
    } else if open[0].guestFd != g {
      FindAppended(open[1..], e, g);
      assert (open + [e])[1..] == open[1..] + [e];
    }
  }

  /** Where an entry of the shorter table was before. */
  function WasAt(open: seq<GuestFile>, i: nat, k: nat): nat
    requires open != []
  {
    if k == i then |open| - 1 else k
  }

  lemma SwapRemoveDistinct(open: seq<GuestFile>, i: nat)
    requires i < |open| && DistinctGuests(open)
    ensures DistinctGuests(SwapRemove(open, i))
  {
    var r := SwapRemove(open, i);
    forall j, k | 0 <= j < |r| && 0 <= k < |r| && j != k ensures r[j].guestFd != r[k].guestFd {
      assert r[j] == open[WasAt(open, i, j)] && r[k] == open[WasAt(open, i, k)];
    }
  }

  /** Swap-remove takes exactly the entry at i out of the table. */
  lemma SwapRemoveIsRemoval(open: seq<GuestFile>, i: nat, g: int)
    requires i < |open| && DistinctGuests(open)
    ensures Lookup(SwapRemove(open, i), g) == if g == open[i].guestFd then None else Lookup(open, g)
  {
    var r, last := SwapRemove(open, i), |open| - 1;
    var n, m := Find(open, g), Find(r, g);
    SwapRemoveDistinct(open, i);
    if m < |r| { assert r[m] == open[WasAt(open, i, m)]; }
    if g != open[i].guestFd && n < |open| {
      var at := if n == last then i else n;
      assert r[at] == open[n];
      FindEntry(r, at);
    } else if g != open[i].guestFd && m < |r| {
      FindIsFirst(open, g, WasAt(open, i, m));
    }
  }

  // ---- the map ----

  /** A write, failed or not, advances the entry of its guest fd, and no other. */
  lemma WriteOnMap(vm: Vm, fd: nat, addr: nat, len: nat, ret: int, g: int)
    requires FdInv(vm) && CanWrite(vm, fd, addr, len, ret)
    ensures Lookup(SysWrite(vm, fd, addr, len, ret).0.open, g) ==
            match Lookup(vm.open, g) {
              case Some(e) => Some(if g == ToInt(fd) then Advanced(e, addr, ret) else e)
              case None => None
            }
  {
    HostFdIsGuestFd(vm, ToInt(fd));
    var i := Find(vm.open, ToInt(fd));
    if i < |vm.open| { FindUpdated(vm.open, i, Advanced(vm.open[i], addr, ret), g); }
  }

  /** An open that succeeds adds an entry for the new fd, with these contents. */
  lemma OpenOnMap(vm: Vm, path: nat, flags: nat, mode: nat, fd: int, g: int)
    requires FdInv(vm) && CanOpen(vm, path, flags, fd) && OpensFine(vm, Open(path, flags, mode, fd))
    ensures var (vm', rax) := SysOpen(vm, path, flags, mode, fd);
            if |vm.open| == MAX_OPEN_FILES then vm' == vm && rax == ToU64(-1) else
            && rax == fd && Lookup(vm.open, fd).None?
            && Lookup(vm'.open, g) ==
               if g == fd then Some(GuestFile(fd, fd, ToInt(flags), ToInt(mode), 0, 0, StrNCpy(PathAt(vm.mem, path))))
               else Lookup(vm.open, g)
  {
    if |vm.open| < MAX_OPEN_FILES {
      IntRoundTrip(fd);
      HostFdIsGuestFd(vm, fd);
      FindAppended(vm.open, GuestFile(fd, fd, ToInt(flags), ToInt(mode), 0, 0, StrNCpy(PathAt(vm.mem, path))), g);
    }
  }

  /** A close removes the entry of its guest fd, and no other; it fails when there is nothing open. */
  lemma CloseOnMap(vm: Vm, fd: nat, g: int)
    requires FdInv(vm)
    ensures Lookup(SysClose(vm, fd).0.open, g) == if g == ToInt(fd) then None else Lookup(vm.open, g)
    ensures SysClose(vm, fd).1 == 0 <==> ToInt(fd) in vm.host.fds && HostFd(vm.open, ToInt(fd)) >= 0
  {
    HostFdIsGuestFd(vm, ToInt(fd));
    var i := Find(vm.open, ToInt(fd));
    if i < |vm.open| { SwapRemoveIsRemoval(vm.open, i, g); }
  }

  /** The table refines a map from guest fd to entry: a write advances the named entry only, an open
      adds one, a close removes exactly the one named, and nothing else changes a lookup. */
  lemma StepOnMap(vm: Vm, e: Event, g: int)
    requires FdInv(vm) && Possible(vm, e) && OpensFine(vm, e)
    ensures var was, now := Lookup(vm.open, g), Lookup(Step(vm, e).0.open, g);
            match e {
              case Write(fd, addr, len, ret) =>
                now == if g == ToInt(fd) && was.Some? then Some(Advanced(was.value, addr, ret)) else was
              case Open(path, flags, mode, fd) =>
                now == if |vm.open| < MAX_OPEN_FILES && g == fd
                       then Some(GuestFile(fd, fd, ToInt(flags), ToInt(mode), 0, 0, StrNCpy(PathAt(vm.mem, path))))
                       else was
              case Close(fd) => now == if g == ToInt(fd) then None else was
              case _ => now == was
            }
  {
    match e
    case Write(fd, addr, len, ret) => WriteOnMap(vm, fd, addr, len, ret, g);
    case Open(path, flags, mode, fd) => OpenOnMap(vm, path, flags, mode, fd, g);
    case Close(fd) => CloseOnMap(vm, fd, g);
    case Compute(mem) =>
    case IgnoredSave =>
  }

  // ---- the invariant ----

  lemma WriteKeepsFds(vm: Vm, fd: nat, addr: nat, len: nat, ret: int)
    requires FdInv(vm) && CanWrite(vm, fd, addr, len, ret)
    ensures FdInv(SysWrite(vm, fd, addr, len, ret).0)
  {
    var vm' := SysWrite(vm, fd, addr, len, ret).0;
    forall i | 0 <= i < |vm'.open| ensures OpenOnHost(vm', i) { assert OpenOnHost(vm, i); }
    assert vm'.host.fds.Keys == vm.host.fds.Keys;
  }

  lemma OpenKeepsFdsExactly(vm: Vm, path: nat, flags: nat, mode: nat, fd: int)
    requires FdInv(vm) && CanOpen(vm, path, flags, fd)
    ensures FdInv(SysOpen(vm, path, flags, mode, fd).0) <==> OpensFine(vm, Open(path, flags, mode, fd))
  {
    var vm', n := SysOpen(vm, path, flags, mode, fd).0, |vm.open|;
    if n < MAX_OPEN_FILES {
      IntRoundTrip(fd);
      forall i | 0 <= i < n ensures OpenOnHost(vm', i) && vm'.open[i].guestFd != fd { assert OpenOnHost(vm, i); }
      assert fd == -1 ==> !OpenOnHost(vm', n);
    }
  }

  lemma CloseKeepsFds(vm: Vm, fd: nat)
    requires FdInv(vm)
    ensures FdInv(SysClose(vm, fd).0)
  {
    var vm', g := SysClose(vm, fd).0, ToInt(fd);
    HostFdIsGuestFd(vm, g);
    var i := Find(vm.open, g);
    if i < |vm.open| { SwapRemoveDistinct(vm.open, i); }
    forall k | 0 <= k < |vm'.open| ensures OpenOnHost(vm', k) {
      var at := if i < |vm.open| then WasAt(vm.open, i, k) else k;
      assert OpenOnHost(vm, at) && vm'.open[k] == vm.open[at];
      if i == |vm.open| && vm.open[at].guestFd == g { FindIsFirst(vm.open, g, at); }
    }
  }

  /** The invariant survives a step exactly when its open, if it makes one, succeeds: a failed open
      still adds an entry, because rax is unsigned. */
  lemma StepKeepsFdsExactly(vm: Vm, e: Event)
    requires FdInv(vm) && Possible(vm, e)
    ensures FdInv(Step(vm, e).0) <==> OpensFine(vm, e)
  {
    match e
    case Write(fd, addr, len, ret) => WriteKeepsFds(vm, fd, addr, len, ret);
    case Open(path, flags, mode, fd) => OpenKeepsFdsExactly(vm, path, flags, mode, fd);
    case Close(fd) => CloseKeepsFds(vm, fd);
    case Compute(mem) => SameFds(vm, vm.(mem := mem));
    case IgnoredSave => SameFds(vm, vm.(restored := false));
  }

  lemma SameFds(vm: Vm, vm': Vm)
    requires FdInv(vm) && vm'.open == vm.open && vm'.host == vm.host
    ensures FdInv(vm')
  {
    forall i | 0 <= i < |vm'.open| ensures OpenOnHost(vm', i) { assert OpenOnHost(vm, i); }
  }

  ghost predicate OpeningRun(vm: Vm, es: seq<Event>)
    requires PossibleRun(vm, es)
    decreases |es|
  {
    es == [] || (OpensFine(vm, es[0]) && OpeningRun(Step(vm, es[0]).0, es[1..]))
  }

  /** On every run whose opens succeed, with any files, paths, writes and closes: at most 64 entries,
      guest fds distinct and equal to their host fds, all of them open. */
  lemma {:induction false} RunKeepsFds(vm: Vm, es: seq<Event>)
    requires FdInv(vm) && PossibleRun(vm, es) && OpeningRun(vm, es)
    ensures FdInv(Run(vm, es))
    decreases |es|
  {
    if es != [] {
      StepKeepsFdsExactly(vm, es[0]);
      RunKeepsFds(Step(vm, es[0]).0, es[1..]);
    }
  }

  /** A guest fd that no event of the run names keeps its entry. */
  lemma {:induction false} RunKeepsEntry(vm: Vm, es: seq<Event>, g: int)
    requires FdInv(vm) && PossibleRun(vm, es) && OpeningRun(vm, es) && Lookup(vm.open, g).Some?
    requires forall i :: 0 <= i < |es| ==> Names(es[i]) != Some(g)
    ensures Lookup(Run(vm, es).open, g) == Lookup(vm.open, g)
    decreases |es|
  {
    if es != [] {
      assert Names(es[0]) != Some(g);
      StepOnMap(vm, es[0], g);
      if es[0].Open? { HostFdIsGuestFd(vm, g); }
      StepKeepsFdsExactly(vm, es[0]);
      RunKeepsEntry(Step(vm, es[0]).0, es[1..], g);
    }
  }

  /** The guest fd a write or close names. */
  function Names(e: Event): Option<int> {
    match e
    case Write(fd, _, _, _) => Some(ToInt(fd))
    case Close(fd) => Some(ToInt(fd))
    case _ => None
  }

  /** A VM that has just been launched. */
  function Launched(mem: seq<byte>, files: map<Name, seq<byte>>): Vm {
    Vm(mem, [], false, Host(files, map[0 := Stream, 1 := Stream, 2 := Stream]))
  }

  /** From the launch on, on every run whose opens succeed, the handler's lookup of a guest fd gives that
      number when it is a standard stream or in the table, and -1 when it is not. */
  lemma LaunchedLookup(mem: seq<byte>, files: map<Name, seq<byte>>, es: seq<Event>, g: int)
    requires PossibleRun(Launched(mem, files), es) && OpeningRun(Launched(mem, files), es)
    ensures var vm := Run(Launched(mem, files), es);
            && |vm.open| <= MAX_OPEN_FILES
            && HostFd(vm.open, g) == if 0 <= g <= 2 || Lookup(vm.open, g).Some? then g else -1
  {
    RunKeepsFds(Launched(mem, files), es);
    HostFdIsGuestFd(Run(Launched(mem, files), es), g);
  }
}
