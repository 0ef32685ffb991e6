/** What every run before a restore keeps of the file table, and what each entry's
    start_addr and offset are good for. */
module TableInvariant {
  import opened Words
  import opened HostFiles
  import opened FileTable
  import opened FdTable

  /** The file an entry names. */
  function NameOf(e: GuestFile): Name { UpToNul(e.path) }

  /** An entry's descriptor is at the entry's file and offset. */
  predicate Tracked(h: Host, e: GuestFile) {
    && e.hostFd in h.fds
    && h.fds[e.hostFd] == File(NameOf(e), e.offset)
    && 0 in e.path
    && e.offset < POSITION_LIMIT
  }

  predicate DistinctEntries(e: GuestFile, f: GuestFile) {
    e.guestFd != f.guestFd && e.hostFd != f.hostFd && NameOf(e) != NameOf(f)
  }

  predicate AllDistinct(open: seq<GuestFile>) {
    forall i, j :: 0 <= i < |open| && 0 <= j < |open| && i != j ==> DistinctEntries(open[i], open[j])
  }

  predicate StandardStreams(h: Host) {
    forall s :: 0 <= s <= 2 ==> s in h.fds && h.fds[s] == Stream
  }

  predicate EntryOk(vm: Vm, i: nat)
    requires i < |vm.open|
  {
    Tracked(vm.host, vm.open[i]) && vm.open[i].guestFd == vm.open[i].hostFd && vm.open[i].hostFd >= 3 &&
        FileFits(vm.open[i])
  }

  predicate Owned(vm: Vm, fd: int) {
    fd in vm.host.fds ==> 0 <= fd <= 2 || Find(vm.open, fd) < |vm.open|
  }

  /** The table of a VM whose guest fds are its host fds: every entry is tracked by a descriptor of
      its own, on a file of its own, and the host has nothing else open but the standard streams. */
  ghost predicate TableInv(vm: Vm) {
    && |vm.open| <= MAX_OPEN_FILES
    && (forall i :: 0 <= i < |vm.open| ==> EntryOk(vm, i))
    && AllDistinct(vm.open)
    && StandardStreams(vm.host)
    && (forall fd :: Owned(vm, fd))
  }

  /** The guest does not close a standard stream; what it opens succeeds, is not open yet and has a
      path the field can hold; its writes to files succeed. */
  predicate Fair(vm: Vm, e: Event) {
    match e
    case Write(fd, addr, len, ret) => ret >= 0 || Find(vm.open, ToInt(fd)) == |vm.open|
    case Open(path, flags, mode, fd) =>
      |vm.open| < MAX_OPEN_FILES ==>
        && fd != -1
        && |PathAt(vm.mem, path)| < MAX_PATH_LEN
        && (forall i :: 0 <= i < |vm.open| ==> NameOf(vm.open[i]) != PathAt(vm.mem, path))
    case Close(fd) => !(0 <= ToInt(fd) <= 2)
    case Compute(mem) => true
    case IgnoredSave => true
  }

  lemma DifferentFds(open: seq<GuestFile>, i: nat, j: nat)
    requires i < |open| && j < |open| && i != j && AllDistinct(open)
    ensures DistinctEntries(open[i], open[j])
  {}

  lemma TableIsFds(vm: Vm)
    requires TableInv(vm)
    ensures FdInv(vm)
  {
    forall i | 0 <= i < |vm.open| ensures OpenOnHost(vm, i) { assert EntryOk(vm, i); }
    forall fd | fd in vm.host.fds ensures fd >= 0 {
      assert Owned(vm, fd);
      if Find(vm.open, fd) < |vm.open| { assert EntryOk(vm, Find(vm.open, fd)); }
    }
  }

  /** The entry of a guest fd stands for the descriptor of the same number. */
  lemma EntryOf(vm: Vm, g: int)
    requires TableInv(vm)
    ensures HostFd(vm.open, g) == if 0 <= g <= 2 || Find(vm.open, g) < |vm.open| then g else -1
    ensures Find(vm.open, g) < |vm.open| ==>
              g == vm.open[Find(vm.open, g)].hostFd >= 3 && Tracked(vm.host, vm.open[Find(vm.open, g)])
  {
    if Find(vm.open, g) < |vm.open| { assert EntryOk(vm, Find(vm.open, g)); }
  }

  lemma RemovedDistinct(open: seq<GuestFile>, i: nat)
    requires i < |open| && AllDistinct(open)
    ensures AllDistinct(SwapRemove(open, i))
  {
    var r, last := SwapRemove(open, i), |open| - 1;
    forall j, k | 0 <= j < |r| && 0 <= k < |r| && j != k ensures DistinctEntries(r[j], r[k]) {
      DifferentFds(open, if j == i then last else j, if k == i then last else k);
    }
  }

  // ---- write ----

  /** What a successful write does on such a table: nothing to the entries when the number is a
      standard stream or unknown, else one entry and its descriptor advance together. */
  lemma WriteEffect(vm: Vm, fd: nat, addr: nat, len: nat, ret: int)
    requires TableInv(vm) && CanWrite(vm, fd, addr, len, ret) && ret >= 0
    ensures Find(vm.open, ToInt(fd)) == |vm.open| ==> SysWrite(vm, fd, addr, len, ret).0 == vm
    ensures Find(vm.open, ToInt(fd)) < |vm.open| ==>
              AdvancesEntry(vm, SysWrite(vm, fd, addr, len, ret).0, Find(vm.open, ToInt(fd)), addr,
                            Written(vm.mem, addr, ret))
    ensures Find(vm.open, ToInt(fd)) < |vm.open| ==> |Written(vm.mem, addr, ret)| == ret
  {
    var g := ToInt(fd);
    EntryOf(vm, g);
    if Find(vm.open, g) < |vm.open| {
      WriteAdvances(vm, Find(vm.open, g), fd, addr, len, ret);
    } else if 0 <= g <= 2 {
      assert vm.host.fds[g] == Stream;
    }
  }

  lemma WriteAdvances(vm: Vm, i: nat, fd: nat, addr: nat, len: nat, ret: int)
    requires CanWrite(vm, fd, addr, len, ret) && ret >= 0
    requires i == Find(vm.open, ToInt(fd)) < |vm.open| && vm.open[i].hostFd == ToInt(fd) >= 3 &&
             Tracked(vm.host, vm.open[i])
    ensures AdvancesEntry(vm, SysWrite(vm, fd, addr, len, ret).0, i, addr, Written(vm.mem, addr, ret))
    ensures |Written(vm.mem, addr, ret)| == ret
  {
    WrittenSize(vm, fd, addr, len, ret);
    NoWrap(vm.open[i].offset, ret);
    assert vm.host.fds[vm.open[i].hostFd].pos + ret < POSITION_LIMIT;
  }

  lemma WrittenSize(vm: Vm, fd: nat, addr: nat, len: nat, ret: int)
    requires CanWrite(vm, fd, addr, len, ret) && ret >= 0 && HostFd(vm.open, ToInt(fd)) >= 0
    ensures |Written(vm.mem, addr, ret)| == ret
  {}

  lemma NoWrap(offset: nat, ret: nat)
    requires offset < POSITION_LIMIT && ret < POSITION_LIMIT
    ensures (offset + ToU64(ret)) % U64 == offset + ret
  {}

  /** From vm to vm', entry i and its descriptor advance over data written from addr. */
  ghost predicate AdvancesEntry(vm: Vm, vm': Vm, i: nat, addr: nat, data: seq<byte>)
    requires i < |vm.open|
  {
    var e := vm.open[i];
    && e.offset + |data| < POSITION_LIMIT
    && vm'.mem == vm.mem && vm'.restored == vm.restored
    && vm'.host == HostWrite(vm.host, e.hostFd, data)
    && var start := if e.offset == 0 then addr % U32 else e.startAddr;
       vm'.open == vm.open[i := e.(startAddr := start, offset := e.offset + |data|)]
  }

  lemma AdvanceKeepsTable(vm: Vm, vm': Vm, i: nat, addr: nat, data: seq<byte>)
    requires TableInv(vm) && i < |vm.open| && AdvancesEntry(vm, vm', i, addr, data)
    ensures TableInv(vm')
  {
    forall j, k | 0 <= j < |vm'.open| && 0 <= k < |vm'.open| && j != k
      ensures DistinctEntries(vm'.open[j], vm'.open[k])
    {
      DifferentFds(vm.open, j, k);
    }
    forall j | 0 <= j < |vm'.open| ensures EntryOk(vm', j) { AdvancedEntryOk(vm, vm', i, addr, data, j); }
    forall fd ensures Owned(vm', fd) {
      assert EntryOk(vm, i) && Owned(vm, fd);
      FindUpdated(vm.open, i, vm'.open[i], fd);
    }
  }

  lemma AdvancedEntryOk(vm: Vm, vm': Vm, i: nat, addr: nat, data: seq<byte>, j: nat)
    requires TableInv(vm) && i < |vm.open| && j < |vm.open| && AdvancesEntry(vm, vm', i, addr, data)
    ensures EntryOk(vm', j)
  {
    assert EntryOk(vm, i) && EntryOk(vm, j);
    if j != i { DifferentFds(vm.open, i, j); }
  }

  lemma WriteKeepsTable(vm: Vm, fd: nat, addr: nat, len: nat, ret: int)
    requires TableInv(vm) && CanWrite(vm, fd, addr, len, ret) && ret >= 0
    ensures TableInv(SysWrite(vm, fd, addr, len, ret).0)
  {
    WriteEffect(vm, fd, addr, len, ret);
    var i, vm' := Find(vm.open, ToInt(fd)), SysWrite(vm, fd, addr, len, ret).0;
    if i < |vm.open| { AdvanceKeepsTable(vm, vm', i, addr, Written(vm.mem, addr, ret)); }
  }

  /** A failed write adds 2^64 - 1 to the offset of its entry, and leaves the descriptor where it was. */
  lemma FailedWriteMovesOffset(vm: Vm, fd: nat, addr: nat, len: nat, i: nat)
    requires CanWrite(vm, fd, addr, len, -1) && i == Find(vm.open, ToInt(fd)) < |vm.open| && EntryOk(vm, i)
    requires HostFd(vm.open, ToInt(fd)) == ToInt(fd)
    ensures |SysWrite(vm, fd, addr, len, -1).0.open| == |vm.open| && !EntryOk(SysWrite(vm, fd, addr, len, -1).0, i)
  {
    var vm' := SysWrite(vm, fd, addr, len, -1).0;
    assert vm'.host == vm.host && vm'.open[i].hostFd == vm.open[i].hostFd;
    assert vm'.open[i].offset == (vm.open[i].offset + U64 - 1) % U64 != vm.open[i].offset;
  }

  /** The invariant survives a write exactly when the write succeeds or reaches no entry: a write
      that fails adds -1 to the entry's offset, because rax is unsigned. */
  lemma WriteKeepsTableExactly(vm: Vm, fd: nat, addr: nat, len: nat, ret: int)
    requires TableInv(vm) && CanWrite(vm, fd, addr, len, ret)
    ensures TableInv(SysWrite(vm, fd, addr, len, ret).0) <==> ret >= 0 || Find(vm.open, ToInt(fd)) == |vm.open|
  {
    var i, vm' := Find(vm.open, ToInt(fd)), SysWrite(vm, fd, addr, len, ret).0;
    EntryOf(vm, ToInt(fd));
    if ret >= 0 {
      WriteKeepsTable(vm, fd, addr, len, ret);
    } else if i < |vm.open| {
      FailedWriteMovesOffset(vm, fd, addr, len, i);
    } else {
      assert vm' == vm;
    }
  }

  // ---- open ----

  lemma OpenedEntry(vm: Vm, path: nat, flags: nat, mode: nat, fd: int)
    requires CanOpen(vm, path, flags, fd) && |vm.open| < MAX_OPEN_FILES && fd != -1
    ensures var vm' := SysOpen(vm, path, flags, mode, fd).0;
            && vm'.open == vm.open + [GuestFile(fd, fd, ToInt(flags), ToInt(mode), 0, 0, StrNCpy(PathAt(vm.mem, path)))]
            && vm'.host == HostOpen(vm.host, PathAt(vm.mem, path), ToInt(flags), fd)
            && vm'.mem == vm.mem && vm'.restored == vm.restored
            && SysOpen(vm, path, flags, mode, fd).1 == fd
  {
    IntRoundTrip(fd);
  }

  /** A path argument has no NUL inside, so a short one survives the path field. */
  lemma PathArgument(mem: seq<byte>, addr: nat)
    requires |PathAt(mem, addr)| < MAX_PATH_LEN
    ensures UpToNul(StrNCpy(PathAt(mem, addr))) == PathAt(mem, addr) && 0 in StrNCpy(PathAt(mem, addr))
  {
    forall k | 0 <= k < |PathAt(mem, addr)| ensures PathAt(mem, addr)[k] != 0 { NoNulInside(mem[addr..], k); }
    PathKeptExactly(PathAt(mem, addr));
  }

  lemma OpenKeepsTable(vm: Vm, path: nat, flags: nat, mode: nat, fd: int)
    requires TableInv(vm) && CanOpen(vm, path, flags, fd) && Fair(vm, Open(path, flags, mode, fd))
    ensures TableInv(SysOpen(vm, path, flags, mode, fd).0)
  {
    if |vm.open| < MAX_OPEN_FILES {
      OpenedEntry(vm, path, flags, mode, fd);
      PathArgument(vm.mem, path);
      var e := GuestFile(fd, fd, ToInt(flags), ToInt(mode), 0, 0, StrNCpy(PathAt(vm.mem, path)));
      AppendKeepsTable(vm, SysOpen(vm, path, flags, mode, fd).0, e, PathAt(vm.mem, path), ToInt(flags), fd);
    }
  }

  /** The invariant survives an open exactly when the table is full (and nothing happens), or the
      host opened a file that is not open yet and whose path fits the field. A failed open still
      adds an entry, because rax is unsigned. */
  lemma OpenKeepsTableExactly(vm: Vm, path: nat, flags: nat, mode: nat, fd: int)
    requires TableInv(vm) && CanOpen(vm, path, flags, fd)
    ensures TableInv(SysOpen(vm, path, flags, mode, fd).0) <==> Fair(vm, Open(path, flags, mode, fd))
  {
    var vm', n, name := SysOpen(vm, path, flags, mode, fd).0, |vm.open|, PathAt(vm.mem, path);
    if Fair(vm, Open(path, flags, mode, fd)) {
      OpenKeepsTable(vm, path, flags, mode, fd);
    } else if fd == -1 {
      IntRoundTrip(-1);
      assert !EntryOk(vm', n);
    } else {
      OpenedEntry(vm, path, flags, mode, fd);
      forall k | 0 <= k < |name| ensures name[k] != 0 { NoNulInside(vm.mem[path..], k); }
      PathKeptExactly(name);
      if |name| < MAX_PATH_LEN {
        var i :| 0 <= i < n && NameOf(vm.open[i]) == name;
        assert !DistinctEntries(vm'.open[i], vm'.open[n]);
      } else {
        assert !EntryOk(vm', n);
      }
    }
  }

  lemma AppendKeepsTable(vm: Vm, vm': Vm, e: GuestFile, name: Name, flags: int, fd: int)
    requires TableInv(vm) && |vm.open| < MAX_OPEN_FILES
    requires fd >= 0 && fd !in vm.host.fds
    requires forall i :: 0 <= i < |vm.open| ==> NameOf(vm.open[i]) != name
    requires FileFits(e) && NameOf(e) == name && 0 in e.path && e.guestFd == fd && e.hostFd == fd && e.offset == 0
    requires vm' == vm.(open := vm.open + [e], host := HostOpen(vm.host, name, flags, fd))
    ensures TableInv(vm')
  {
    var n := |vm.open|;
    assert fd >= 3;
    forall j | 0 <= j < n ensures DistinctEntries(vm.open[j], e) { assert EntryOk(vm, j); }
    forall j, k | 0 <= j <= n && 0 <= k <= n && j != k ensures DistinctEntries(vm'.open[j], vm'.open[k]) {
      if j < n && k < n { DifferentFds(vm.open, j, k); }
    }
    forall j | 0 <= j <= n ensures EntryOk(vm', j) {
      if j < n { assert EntryOk(vm, j); }
    }
    forall h ensures Owned(vm', h) {
      assert Owned(vm, h);
      FindAppended(vm.open, e, h);
    }
  }

  // ---- close ----

  lemma CloseEffect(vm: Vm, fd: nat)
    requires TableInv(vm) && !(0 <= ToInt(fd) <= 2)
    ensures var g, i, vm' := ToInt(fd), Find(vm.open, ToInt(fd)), SysClose(vm, fd).0;
            if i == |vm.open| then vm' == vm
            else vm.open[i].hostFd == g && vm' == vm.(open := SwapRemove(vm.open, i), host := HostClose(vm.host, g))
  {
    EntryOf(vm, ToInt(fd));
  }

  lemma CloseKeepsTable(vm: Vm, fd: nat)
    requires TableInv(vm) && !(0 <= ToInt(fd) <= 2)
    ensures TableInv(SysClose(vm, fd).0)
  {
    CloseEffect(vm, fd);
    var i := Find(vm.open, ToInt(fd));
    if i < |vm.open| { RemoveKeepsTable(vm, SysClose(vm, fd).0, i); }
  }

  lemma RemoveKeepsTable(vm: Vm, vm': Vm, i: nat)
    requires TableInv(vm) && i < |vm.open|
    requires vm' == vm.(open := SwapRemove(vm.open, i), host := HostClose(vm.host, vm.open[i].hostFd))
    ensures TableInv(vm')
  {
    RemovedDistinct(vm.open, i);
    assert EntryOk(vm, i);
    forall j | 0 <= j < |vm'.open| ensures EntryOk(vm', j) {
      var at := if j == i then |vm.open| - 1 else j;
      DifferentFds(vm.open, at, i);
      assert EntryOk(vm, at);
    }
    forall h ensures Owned(vm', h) {
      assert Owned(vm, h);
      SwapRemoveIsRemoval(vm.open, i, h);
    }
  }

  /** A step keeps the invariant exactly when it is fair. */
  lemma StepKeepsTableExactly(vm: Vm, e: Event)
    requires TableInv(vm) && Possible(vm, e)
    ensures TableInv(Step(vm, e).0) <==> Fair(vm, e)
  {
    match e
    case Write(fd, addr, len, ret) => WriteKeepsTableExactly(vm, fd, addr, len, ret);
    case Open(path, flags, mode, fd) => OpenKeepsTableExactly(vm, path, flags, mode, fd);
    case Close(fd) =>
      assert 0 <= ToInt(fd) <= 2 ==> ToInt(fd) !in SysClose(vm, fd).0.host.fds;
      if !(0 <= ToInt(fd) <= 2) { CloseKeepsTable(vm, fd); }
    case Compute(mem) => SameTable(vm, vm.(mem := mem));
    case IgnoredSave => SameTable(vm, vm.(restored := false));
  }

  lemma SameTable(vm: Vm, vm': Vm)
    requires TableInv(vm) && vm'.open == vm.open && vm'.host == vm.host
    ensures TableInv(vm')
  {
    forall i | 0 <= i < |vm'.open| ensures EntryOk(vm', i) { assert EntryOk(vm, i); }
    forall fd ensures Owned(vm', fd) { assert Owned(vm, fd); }
  }

  ghost predicate FairRun(vm: Vm, es: seq<Event>)
    requires PossibleRun(vm, es)
    decreases |es|
  {
    es == [] || (Fair(vm, es[0]) && FairRun(Step(vm, es[0]).0, es[1..]))
  }

  /** A run, by its first step. */
  lemma FirstStep(vm: Vm, e: Event, rest: seq<Event>, es: seq<Event>)
    requires es == [e] + rest && Possible(vm, e) && PossibleRun(Step(vm, e).0, rest)
    ensures PossibleRun(vm, es) && Run(vm, es) == Run(Step(vm, e).0, rest)
    ensures FairRun(vm, es) <==> Fair(vm, e) && FairRun(Step(vm, e).0, rest)
  {
    assert es[1..] == rest;
  }

  /** Every run before a restore: at most 64 entries, guest fds distinct and equal to host fds, and
      each entry's descriptor at the entry's file and offset. */
  lemma {:induction false} RunKeepsTable(vm: Vm, es: seq<Event>)
    requires TableInv(vm) && PossibleRun(vm, es) && FairRun(vm, es)
    ensures TableInv(Run(vm, es))
    decreases |es|
  {
    if es != [] {
      StepKeepsTableExactly(vm, es[0]);
      RunKeepsTable(Step(vm, es[0]).0, es[1..]);
    }
  }
}
