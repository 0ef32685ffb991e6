/** What the guest of a restored VM sees, where host fds and guest fds may differ. */
module Migration {
  import opened HostFiles
  import opened FileTable
  import opened FdTable
  import opened TableInvariant

  /** What a guest fd shows. */
  function GuestView(vm: Vm, g: int): View {
    var h := HostFd(vm.open, g);
    if h < 0 then Closed else ViewOf(vm.host, h)
  }

  // ---- a table whose host fds may differ from its guest fds ----

  predicate NamedEntry(vm: Vm, i: nat)
    requires i < |vm.open|
  {
    var e := vm.open[i];
    && e.guestFd >= 3 && e.hostFd >= 3
    && (e.hostFd in vm.host.fds ==> vm.host.fds[e.hostFd].File? && vm.host.fds[e.hostFd].name == NameOf(e))
  }

  /** Every entry has a guest fd, a host fd and a file of its own. Entries may outlive their
      descriptor, and a guest fd may be another entry's host fd. */
  ghost predicate Named(vm: Vm) {
    && (forall i :: 0 <= i < |vm.open| ==> NamedEntry(vm, i))
    && AllDistinct(vm.open)
    && (forall s :: 0 <= s <= 2 && s in vm.host.fds ==> vm.host.fds[s] == Stream)
  }

  /** Every entry has a guest fd and a host fd of its own, none a standard stream; two may be of one
      file. */
  predicate Paired(open: seq<GuestFile>) {
    && DistinctGuests(open)
    && (forall i :: 0 <= i < |open| ==> open[i].guestFd >= 3 && open[i].hostFd >= 3)
    && (forall i, j :: 0 <= i < |open| && 0 <= j < |open| && i != j ==> open[i].hostFd != open[j].hostFd)
  }

  lemma NamedIsPaired(vm: Vm)
    requires Named(vm)
    ensures Paired(vm.open)
  {
    forall i | 0 <= i < |vm.open| ensures vm.open[i].guestFd >= 3 && vm.open[i].hostFd >= 3 {
      assert NamedEntry(vm, i);
    }
    forall i, j | 0 <= i < |vm.open| && 0 <= j < |vm.open| && i != j ensures vm.open[i].hostFd != vm.open[j].hostFd {
      DifferentFds(vm.open, i, j);
    }
  }

  lemma OtherHostFd(open: seq<GuestFile>, g: int, k: int)
    requires Paired(open) && g != k && HostFd(open, g) >= 0 && HostFd(open, k) >= 0
    ensures HostFd(open, g) != HostFd(open, k)
  {}

  /** No guest fd is another entry's host fd. */
  ghost predicate Uncrossed(open: seq<GuestFile>) {
    forall i, j :: 0 <= i < |open| && 0 <= j < |open| && i != j ==> open[i].guestFd != open[j].hostFd
  }

  lemma TableIsNamed(vm: Vm)
    requires TableInv(vm)
    ensures Named(vm) && Uncrossed(vm.open)
  {
    forall i | 0 <= i < |vm.open| ensures NamedEntry(vm, i) { assert EntryOk(vm, i); }
    forall i, j | 0 <= i < |vm.open| && 0 <= j < |vm.open| && i != j ensures vm.open[i].guestFd != vm.open[j].hostFd {
      DifferentFds(vm.open, i, j);
      assert EntryOk(vm, i) && EntryOk(vm, j);
    }
  }

  /** Another guest fd stands for the descriptor of another file, or for none. */
  lemma OtherDescriptor(vm: Vm, g: int, k: int)
    requires Named(vm) && g != k && HostFd(vm.open, g) >= 0 && HostFd(vm.open, k) >= 0
    ensures HostFd(vm.open, g) != HostFd(vm.open, k)
    ensures var (a, b) := (HostFd(vm.open, g), HostFd(vm.open, k));
            a in vm.host.fds && b in vm.host.fds && vm.host.fds[a].File? && vm.host.fds[b].File? ==>
              vm.host.fds[a].name != vm.host.fds[b].name
  {
    var i, j := Find(vm.open, g), Find(vm.open, k);
    if i < |vm.open| { assert NamedEntry(vm, i); }
    if j < |vm.open| { assert NamedEntry(vm, j); }
    if i < |vm.open| && j < |vm.open| { DifferentFds(vm.open, i, j); }
  }

  // ---- writes ----

  /** A write never changes which host fd a guest fd stands for, on any table. */
  lemma WriteKeepsPairs(vm: Vm, fd: nat, addr: nat, len: nat, ret: int, g: int)
    requires CanWrite(vm, fd, addr, len, ret)
    ensures HostFd(SysWrite(vm, fd, addr, len, ret).0.open, g) == HostFd(vm.open, g)
  {
    var w := HostFd(vm.open, ToInt(fd));
    var i := Find(vm.open, w);
    if w >= 0 && i < |vm.open| { FindUpdated(vm.open, i, Advanced(vm.open[i], addr, ret), g); }
  }

  /** What a write does to what the guest sees: its own fd is extended, every other is unchanged. */
  lemma WriteSeen(vm: Vm, fd: nat, addr: nat, len: nat, ret: int, k: int)
    requires Named(vm) && CanWrite(vm, fd, addr, len, ret)
    ensures var (vm', rax) := SysWrite(vm, fd, addr, len, ret);
            && GuestView(vm', k) == (if k == ToInt(fd) then Extended(GuestView(vm, k), Written(vm.mem, addr, ret))
                                     else GuestView(vm, k))
            && rax == if GuestView(vm, ToInt(fd)) == Closed then ToU64(-1) else ToU64(ret)
  {
    var g := ToInt(fd);
    var w, data := HostFd(vm.open, g), Written(vm.mem, addr, ret);
    WriteKeepsPairs(vm, fd, addr, len, ret, k);
    if w >= 0 {
      WriteViews(vm.host, w, data, w);
      if k != g && HostFd(vm.open, k) >= 0 {
        OtherDescriptor(vm, g, k);
        WriteViews(vm.host, w, data, HostFd(vm.open, k));
      }
    }
  }

  lemma WriteKeepsNamed(vm: Vm, fd: nat, addr: nat, len: nat, ret: int)
    requires Named(vm) && CanWrite(vm, fd, addr, len, ret)
    ensures Named(SysWrite(vm, fd, addr, len, ret).0)
    ensures Uncrossed(vm.open) ==> Uncrossed(SysWrite(vm, fd, addr, len, ret).0.open)
  {
    var vm' := SysWrite(vm, fd, addr, len, ret).0;
    assert |vm'.open| == |vm.open|;
    forall i | 0 <= i < |vm'.open| ensures NamedEntry(vm', i) { assert NamedEntry(vm, i); }
    forall i, j | 0 <= i < |vm'.open| && 0 <= j < |vm'.open| && i != j
      ensures DistinctEntries(vm'.open[i], vm'.open[j])
      ensures Uncrossed(vm.open) ==> vm'.open[i].guestFd != vm'.open[j].hostFd
    {
      DifferentFds(vm.open, i, j);
    }
  }

  // ---- closes ----

  /** The host fd being closed is no other entry's guest fd. */
  ghost predicate CleanClose(vm: Vm, g: int) {
    HostFd(vm.open, g) in vm.host.fds ==>
      forall j :: 0 <= j < |vm.open| && j != Find(vm.open, g) ==> vm.open[j].guestFd != HostFd(vm.open, g)
  }

  lemma UncrossedIsClean(vm: Vm, g: int)
    requires Named(vm) && Uncrossed(vm.open)
    ensures CleanClose(vm, g)
  {
    forall j | 0 <= j < |vm.open| && j != Find(vm.open, g) && HostFd(vm.open, g) >= 0
      ensures vm.open[j].guestFd != HostFd(vm.open, g)
    {
      assert NamedEntry(vm, j);
    }
    forall j | 0 <= j < |vm.open| ensures vm.open[j].guestFd >= 3 { assert NamedEntry(vm, j); }
  }

  /** What a close does to the table: the named entry goes when its two numbers are the same, and
      nothing goes otherwise. */
  lemma CloseSearches(vm: Vm, fd: nat)
    requires DistinctGuests(vm.open) && CleanClose(vm, ToInt(fd))
    ensures var g := ToInt(fd);
            SysClose(vm, fd).0.open ==
            if Find(vm.open, g) < |vm.open| && HostFd(vm.open, g) == g >= 0 && g in vm.host.fds
            then SwapRemove(vm.open, Find(vm.open, g)) else vm.open
  {
    var g := ToInt(fd);
    var h, n := HostFd(vm.open, g), Find(vm.open, g);
    var i := Find(vm.open, h);
    assert i < |vm.open| ==> vm.open[i].guestFd == h;
    assert n < |vm.open| ==> vm.open[n].guestFd == g;
    if h in vm.host.fds { assert i < |vm.open| ==> i == n; }
  }

  lemma CloseKeepsNamed(vm: Vm, fd: nat)
    requires Named(vm) && CleanClose(vm, ToInt(fd))
    ensures Named(SysClose(vm, fd).0)
    ensures Uncrossed(vm.open) ==> Uncrossed(SysClose(vm, fd).0.open)
  {
    CloseSearches(vm, fd);
    var vm', i := SysClose(vm, fd).0, Find(vm.open, ToInt(fd));
    if vm'.open == vm.open {
      forall j | 0 <= j < |vm.open| ensures NamedEntry(vm', j) { assert NamedEntry(vm, j); }
    } else {
      RemovedIsNamed(vm, vm', i, HostFd(vm.open, ToInt(fd)));
    }
  }

  lemma RemovedIsNamed(vm: Vm, vm': Vm, i: nat, h: int)
    requires Named(vm) && i < |vm.open| && vm'.open == SwapRemove(vm.open, i) && vm'.host == HostClose(vm.host, h)
    ensures Named(vm') && (Uncrossed(vm.open) ==> Uncrossed(vm'.open))
  {
    var last := |vm.open| - 1;
    RemovedDistinct(vm.open, i);
    forall j | 0 <= j < last ensures NamedEntry(vm', j) { assert NamedEntry(vm, WasAt(vm.open, i, j)); }
    forall j, k | 0 <= j < last && 0 <= k < last && j != k
      ensures Uncrossed(vm.open) ==> vm'.open[j].guestFd != vm'.open[k].hostFd
    {
      assert vm'.open[j] == vm.open[WasAt(vm.open, i, j)] && vm'.open[k] == vm.open[WasAt(vm.open, i, k)];
    }
  }

  /** What a close does to what the guest sees: its own fd is closed, every other is unchanged. */
  lemma CloseSeen(vm: Vm, fd: nat, k: int)
    requires Paired(vm.open) && CleanClose(vm, ToInt(fd))
    ensures var (vm', rax) := SysClose(vm, fd);
            && GuestView(vm', k) == (if k == ToInt(fd) then Closed else GuestView(vm, k))
            && rax == if GuestView(vm, ToInt(fd)) == Closed then ToU64(-1) else 0
  {
    var g := ToInt(fd);
    var w, vm', i := HostFd(vm.open, g), SysClose(vm, fd).0, Find(vm.open, g);
    if w >= 0 {
      CloseSearches(vm, fd);
      if vm'.open != vm.open { SwapRemoveIsRemoval(vm.open, i, k); }
      if k != g && HostFd(vm.open, k) >= 0 {
        OtherHostFd(vm.open, g, k);
        CloseViews(vm.host, w, HostFd(vm.open, k));
      }
    }
  }

  lemma CloseKeepsPair(vm: Vm, fd: nat, k: int)
    requires DistinctGuests(vm.open) && CleanClose(vm, ToInt(fd)) && ToInt(fd) != k
    ensures HostFd(SysClose(vm, fd).0.open, k) == HostFd(vm.open, k)
  {
    CloseSearches(vm, fd);
    var i := Find(vm.open, ToInt(fd));
    if i < |vm.open| { SwapRemoveIsRemoval(vm.open, i, k); }
  }

  /** A close keeps every other guest-to-host pair exactly when no other entry's guest fd is the
      host fd being closed: the search is by host fd, so such an entry is removed instead. */
  lemma CloseKeepsPairsExactly(vm: Vm, i: nat, fd: nat)
    requires i < |vm.open| && DistinctGuests(vm.open) && ToInt(fd) == vm.open[i].guestFd
    requires forall j :: 0 <= j < |vm.open| ==> vm.open[j].guestFd >= 3 && vm.open[j].hostFd >= 0
    requires vm.open[i].hostFd in vm.host.fds
    ensures (forall k :: k != ToInt(fd) ==> HostFd(SysClose(vm, fd).0.open, k) == HostFd(vm.open, k)) <==>
            (forall j :: 0 <= j < |vm.open| && j != i ==> vm.open[j].guestFd != vm.open[i].hostFd)
  {
    var h, open' := vm.open[i].hostFd, SysClose(vm, fd).0.open;
    var j := Find(vm.open, h);
    FindEntry(vm.open, i);
    forall n | 0 <= n < |vm.open| && vm.open[n].guestFd == h ensures n == j { FindEntry(vm.open, n); }
    if j < |vm.open| {
      assert open' == SwapRemove(vm.open, j);
      if j == i {
        forall k | k != ToInt(fd) ensures HostFd(open', k) == HostFd(vm.open, k) { SwapRemoveIsRemoval(vm.open, j, k); }
      } else {
        SwapRemoveIsRemoval(vm.open, j, h);
        assert HostFd(open', h) == -1 && HostFd(vm.open, h) == vm.open[j].hostFd;
      }
    }
  }

  // ---- opens ----

  /** The host opens a file that no entry names, with a path the field can hold, on a number that is
      neither guest fd nor host fd of an entry. The second matters after a restore: an entry whose
      numbers differ outlives its descriptor, and the host may use that number again. */
  ghost predicate FreshOpen(vm: Vm, path: nat, fd: int) {
    && |vm.open| < MAX_OPEN_FILES && fd >= 3 && |PathAt(vm.mem, path)| < MAX_PATH_LEN
    && (forall i :: 0 <= i < |vm.open| ==> FreshFor(vm.open[i], PathAt(vm.mem, path), fd))
  }

  predicate FreshFor(e: GuestFile, name: Name, fd: int) {
    e.guestFd != fd && e.hostFd != fd && NameOf(e) != name
  }

  lemma OpenKeepsNamed(vm: Vm, path: nat, flags: nat, mode: nat, fd: int)
    requires Named(vm) && CanOpen(vm, path, flags, fd) && FreshOpen(vm, path, fd)
    ensures Named(SysOpen(vm, path, flags, mode, fd).0)
  {
    var vm', n := SysOpen(vm, path, flags, mode, fd).0, |vm.open|;
    OpenedEntry(vm, path, flags, mode, fd);
    PathArgument(vm.mem, path);
    forall i | 0 <= i < n ensures NamedEntry(vm', i) && FreshFor(vm.open[i], PathAt(vm.mem, path), fd) {
      assert NamedEntry(vm, i);
    }
    assert NamedEntry(vm', n);
    forall i, j | 0 <= i <= n && 0 <= j <= n && i != j ensures DistinctEntries(vm'.open[i], vm'.open[j]) {
      if i < n && j < n { DifferentFds(vm.open, i, j); }
    }
  }

  /** Beside the name and the path, the number decides: an open shows the guest an empty prefix of the
      file on the new fd, and nothing else new, if and only if each entry has the number as guest fd and
      host fd both, or as neither. An entry found first hides the new one; an entry that outlived its
      descriptor comes back to life on the new file. */
  lemma OpenSeenExactly(vm: Vm, path: nat, flags: nat, mode: nat, fd: int)
    requires Named(vm) && CanOpen(vm, path, flags, fd) && |vm.open| < MAX_OPEN_FILES && fd >= 3
    requires forall i :: 0 <= i < |vm.open| ==> NameOf(vm.open[i]) != PathAt(vm.mem, path)
    ensures (forall k :: SeenAfterOpen(vm, SysOpen(vm, path, flags, mode, fd).0, PathAt(vm.mem, path), fd, k)) <==>
            (forall i :: 0 <= i < |vm.open| ==> BothOrNeither(vm.open[i], fd))
  {
    var vm', name := SysOpen(vm, path, flags, mode, fd).0, PathAt(vm.mem, path);
    if forall i :: 0 <= i < |vm.open| ==> BothOrNeither(vm.open[i], fd) {
      forall k ensures SeenAfterOpen(vm, vm', name, fd, k) { OpenSeenAt(vm, path, flags, mode, fd, k); }
    }
    forall i | 0 <= i < |vm.open| && !BothOrNeither(vm.open[i], fd)
      ensures !SeenAfterOpen(vm, vm', name, fd, vm.open[i].guestFd)
    {
      OpenHides(vm, path, flags, mode, fd, i);
    }
  }

  predicate BothOrNeither(e: GuestFile, fd: int) { e.guestFd == fd <==> e.hostFd == fd }

  predicate SeenAfterOpen(vm: Vm, vm': Vm, name: Name, fd: int, k: int) {
    GuestView(vm', k) == if k == fd then At(name, 0, []) else GuestView(vm, k)
  }

  lemma HostFdAfterOpen(vm: Vm, path: nat, flags: nat, mode: nat, fd: int, k: int)
    requires CanOpen(vm, path, flags, fd) && |vm.open| < MAX_OPEN_FILES && fd >= 3
    ensures var vm' := SysOpen(vm, path, flags, mode, fd).0;
            && vm'.host == HostOpen(vm.host, PathAt(vm.mem, path), ToInt(flags), fd)
            && HostFd(vm'.open, k) ==
               if HostFd(vm.open, k) < 0 && k == fd && Find(vm.open, k) == |vm.open| then fd else HostFd(vm.open, k)
  {
    OpenedEntry(vm, path, flags, mode, fd);
    FindAppended(vm.open, GuestFile(fd, fd, ToInt(flags), ToInt(mode), 0, 0, StrNCpy(PathAt(vm.mem, path))), k);
  }

  lemma OpenSeenAt(vm: Vm, path: nat, flags: nat, mode: nat, fd: int, k: int)
    requires Named(vm) && CanOpen(vm, path, flags, fd) && |vm.open| < MAX_OPEN_FILES && fd >= 3
    requires forall i :: 0 <= i < |vm.open| ==> NameOf(vm.open[i]) != PathAt(vm.mem, path)
    requires forall i :: 0 <= i < |vm.open| ==> BothOrNeither(vm.open[i], fd)
    ensures SeenAfterOpen(vm, SysOpen(vm, path, flags, mode, fd).0, PathAt(vm.mem, path), fd, k)
  {
    HostFdAfterOpen(vm, path, flags, mode, fd, k);
    var i := Find(vm.open, k);
    if i < |vm.open| { assert NamedEntry(vm, i) && BothOrNeither(vm.open[i], fd); }
    OpenViews(vm.host, PathAt(vm.mem, path), ToInt(flags), fd, HostFd(vm.open, k));
  }

  lemma OpenHides(vm: Vm, path: nat, flags: nat, mode: nat, fd: int, i: nat)
    requires Named(vm) && CanOpen(vm, path, flags, fd) && |vm.open| < MAX_OPEN_FILES && fd >= 3
    requires i < |vm.open| && !BothOrNeither(vm.open[i], fd) && NameOf(vm.open[i]) != PathAt(vm.mem, path)
    ensures !SeenAfterOpen(vm, SysOpen(vm, path, flags, mode, fd).0, PathAt(vm.mem, path), fd, vm.open[i].guestFd)
  {
    FindEntry(vm.open, i);
    assert NamedEntry(vm, i);
    HostFdAfterOpen(vm, path, flags, mode, fd, vm.open[i].guestFd);
    OpenViews(vm.host, PathAt(vm.mem, path), ToInt(flags), fd, vm.open[i].hostFd);
  }

  /** Such an open shows the guest an empty prefix of the file on the new fd, and changes no other. */
  lemma OpenSeen(vm: Vm, path: nat, flags: nat, mode: nat, fd: int, k: int)
    requires Named(vm) && CanOpen(vm, path, flags, fd) && FreshOpen(vm, path, fd)
    ensures var (vm', rax) := SysOpen(vm, path, flags, mode, fd);
            && GuestView(vm', k) == (if k == fd then At(PathAt(vm.mem, path), 0, []) else GuestView(vm, k))
            && rax == fd
  {
    var name := PathAt(vm.mem, path);
    OpenedEntry(vm, path, flags, mode, fd);
    var e := GuestFile(fd, fd, ToInt(flags), ToInt(mode), 0, 0, StrNCpy(name));
    FindAppended(vm.open, e, k);
    var i := Find(vm.open, k);
    if i < |vm.open| { assert NamedEntry(vm, i) && FreshFor(vm.open[i], name, fd); }
    OpenViews(vm.host, name, ToInt(flags), fd, HostFd(vm.open, k));
  }
}
