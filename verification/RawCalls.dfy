/** write, open, close and the reopening of a file told in 64-bit registers and in bytes, with every number
    written out: what the guest finds in rax, in its table of open files and in the host's files. */
module RawCalls {
  import opened Words
  import opened HostFiles
  import opened FileTable
  import opened Restore

  /** g is the C int that the low 32 bits of x stand for. */
  predicate IntOf(x: nat, g: int) {
    -0x8000_0000 <= g < 0x8000_0000 && (x - g) % 0x1_0000_0000 == 0
  }

  lemma IntIs(x: nat, g: int)
    ensures IntOf(x, g) <==> g == ToInt(x)
  {
    var w := x % 0x1_0000_0000;
    assert x == 0x1_0000_0000 * (x / 0x1_0000_0000) + w;
    if IntOf(x, g) {
      var q := (x - g) / 0x1_0000_0000 - x / 0x1_0000_0000;
      assert x - g == 0x1_0000_0000 * ((x - g) / 0x1_0000_0000);
      assert w - g == 0x1_0000_0000 * q;
    }
  }

  // ---- which entry a guest fd names ----

  predicate First(open: seq<GuestFile>, g: int, k: nat) {
    k < |open| && open[k].guestFd == g && forall j :: 0 <= j < k ==> open[j].guestFd != g
  }

  lemma FirstIs(open: seq<GuestFile>, g: int, k: nat)
    ensures First(open, g, k) <==> k < |open| && k == Find(open, g)
  {
    forall j: nat | j < |open| && open[j].guestFd == g ensures Find(open, g) <= j { FindIsFirst(open, g, j); }
  }

  /** h is the host fd for the guest fd in a register: a standard stream's own number, the host fd of the
      first entry with that guest fd, or -1. */
  ghost predicate Answered(open: seq<GuestFile>, fd: nat, h: int) {
    exists g :: IntOf(fd, g) && AnsweredInt(open, g, h)
  }

  ghost predicate AnsweredInt(open: seq<GuestFile>, g: int, h: int) {
    if 0 <= g <= 2 then h == g
    else
      || (exists k: nat :: First(open, g, k) && h == open[k].hostFd)
      || (h == -1 && forall j :: 0 <= j < |open| ==> open[j].guestFd != g)
  }

  lemma AnsweredIs(open: seq<GuestFile>, fd: nat, h: int)
    ensures Answered(open, fd, h) <==> h == HostFd(open, ToInt(fd))
  {
    IntIs(fd, ToInt(fd));
    forall g ensures IntOf(fd, g) <==> g == ToInt(fd) { IntIs(fd, g); }
    AnsweredIntIs(open, ToInt(fd), h);
    assert Answered(open, fd, h) <==> AnsweredInt(open, ToInt(fd), h);
  }

  lemma AnsweredIntIs(open: seq<GuestFile>, g: int, h: int)
    ensures AnsweredInt(open, g, h) <==> h == HostFd(open, g)
  {
    forall k: nat ensures First(open, g, k) <==> k < |open| && k == Find(open, g) { FirstIs(open, g, k); }
    forall j: nat | j < |open| && open[j].guestFd == g ensures Find(open, g) <= j { FindIsFirst(open, g, j); }
  }

  // ---- write ----

  /** A file's bytes before and after `data` has been written at a position: a gap before it is zero, and
      the bytes behind it are as they were. */
  predicate Spliced(was: seq<byte>, now: seq<byte>, pos: nat, data: seq<byte>) {
    && |now| == (if |was| > pos + |data| then |was| else pos + |data|)
    && forall k :: 0 <= k < |now| ==>
         now[k] == if pos <= k < pos + |data| then data[k - pos] else if k < |was| then was[k] else 0
  }

  /** The host after `data` has been written to a descriptor, at its position; all other files and descriptors
      are as they were. */
  predicate HostTook(h: Host, h': Host, fd: int, data: seq<byte>) {
    if fd !in h.fds || h.fds[fd].Stream? || data == [] then h' == h
    else
      var File(name, pos) := h.fds[fd];
      && h'.fds == h.fds[fd := File(name, pos + |data|)]
      && name in h'.files && h'.files == h.files[name := h'.files[name]]
      && Spliced(if name in h.files then h.files[name] else [], h'.files[name], pos, data)
  }

  lemma SpliceIsSpliced(was: seq<byte>, pos: nat, data: seq<byte>)
    ensures Spliced(was, Splice(was, pos, data), pos, data)
  {}

  lemma HostTakes(h: Host, fd: int, data: seq<byte>)
    ensures HostTook(h, HostWrite(h, fd, data), fd, data)
  {
    if fd in h.fds && h.fds[fd].File? && data != [] {
      var name := h.fds[fd].name;
      SpliceIsSpliced(ContentOf(h, name), h.fds[fd].pos, data);
      assert HostWrite(h, fd, data).files[name] == Splice(ContentOf(h, name), h.fds[fd].pos, data);
    }
  }

  /** The entry of a write that answered ret: start_addr is the address's low 32 bits when the offset was 0,
      and the offset grows by ret modulo 2^64, so that a failed write takes 1 off. */
  function Counted(e: GuestFile, addr: nat, ret: int): GuestFile {
    e.(startAddr := if e.offset == 0 then addr % 0x1_0000_0000 else e.startAddr,
       offset := (e.offset + ret) % 0x1_0000_0000_0000_0000)
  }

  lemma CountedIs(e: GuestFile, addr: nat, ret: int)
    requires -0x8000_0000_0000_0000 <= ret < 0x8000_0000_0000_0000
    ensures Advanced(e, addr, ret) == Counted(e, addr, ret)
  {
    if ret < 0 { assert e.offset + ToU64(ret) == e.offset + ret + 0x1_0000_0000_0000_0000; }
  }

  predicate WriteDone(vm: Vm, vm': Vm, h: int, addr: nat, ret: int, rax: nat) {
    if h < 0 then vm' == vm && rax == 0xFFFF_FFFF_FFFF_FFFF
    else
      && vm'.mem == vm.mem && vm'.restored == vm.restored && |vm'.open| == |vm.open|
      && rax == (if ret == -1 then 0xFFFF_FFFF_FFFF_FFFF else ret)
      && (forall k: nat :: k < |vm.open| ==>
            vm'.open[k] == if First(vm.open, h, k) then Counted(vm.open[k], addr, ret) else vm.open[k])
      && (if ret <= 0 || h !in vm.host.fds then vm'.host == vm.host
          else addr + ret <= |vm.mem| && HostTook(vm.host, vm'.host, h, vm.mem[addr .. addr + ret]))
  }

  /** A write on a number of no entry, or one the host refuses, puts 0xFFFF_FFFF_FFFF_FFFF in rax; any other
      the count. */
  lemma WriteInFull(vm: Vm, fd: nat, addr: nat, len: nat, ret: int, h: int)
    requires CanWrite(vm, fd, addr, len, ret) && Answered(vm.open, fd, h)
    ensures WriteDone(vm, SysWrite(vm, fd, addr, len, ret).0, h, addr, ret, SysWrite(vm, fd, addr, len, ret).1)
  {
    AnsweredIs(vm.open, fd, h);
    if h >= 0 {
      HostTakes(vm.host, h, Written(vm.mem, addr, ret));
      forall k: nat | k < |vm.open|
        ensures First(vm.open, h, k) <==> k == Find(vm.open, h)
        ensures Advanced(vm.open[k], addr, ret) == Counted(vm.open[k], addr, ret)
      {
        FirstIs(vm.open, h, k);
        CountedIs(vm.open[k], addr, ret);
      }
    }
  }

  lemma WriteAnyFd(vm: Vm, vm': Vm, fd: nat, addr: nat, len: nat, ret: int, rax: nat)
    requires CanWrite(vm, fd, addr, len, ret) && (vm', rax) == SysWrite(vm, fd, addr, len, ret)
    ensures forall h :: Answered(vm.open, fd, h) ==> WriteDone(vm, vm', h, addr, ret, rax)
  {
    forall h | Answered(vm.open, fd, h) ensures WriteDone(vm, vm', h, addr, ret, rax) {
      WriteInFull(vm, fd, addr, len, ret, h);
    }
  }

  /** A write that fails on an entry takes 1 off its offset, modulo 2^64. */
  lemma FailedWriteCounts(vm: Vm, fd: nat, addr: nat, len: nat, h: int, k: nat)
    requires CanWrite(vm, fd, addr, len, -1) && Answered(vm.open, fd, h) && h >= 0
    requires First(vm.open, h, k) && vm.open[k].offset < 0x1_0000_0000_0000_0000
    ensures var (vm', rax) := SysWrite(vm, fd, addr, len, -1);
            && rax == 0xFFFF_FFFF_FFFF_FFFF && vm'.host == vm.host && |vm'.open| == |vm.open|
            && vm'.open[k].offset ==
               if vm.open[k].offset > 0 then vm.open[k].offset - 1 else 0xFFFF_FFFF_FFFF_FFFF
  {
    AnsweredIs(vm.open, fd, h);
    FirstIs(vm.open, h, k);
    CountedIs(vm.open[k], addr, -1);
  }

  // ---- open ----

  /** name is the string at an address: the bytes up to a NUL, or to the end. */
  predicate CString(mem: seq<byte>, addr: nat, name: seq<byte>) {
    if addr > |mem| then name == []
    else
      && addr + |name| <= |mem| && mem[addr .. addr + |name|] == name
      && (forall a :: addr <= a < addr + |name| ==> mem[a] != 0)
      && (addr + |name| < |mem| ==> mem[addr + |name|] == 0)
  }

  lemma {:induction false} UpToNulEnds(s: seq<byte>)
    ensures var n := UpToNul(s); s[..|n|] == n && (|n| < |s| ==> s[|n|] == 0)
  {
    if s != [] && s[0] != 0 { UpToNulEnds(s[1..]); }
  }

  lemma PathIsCString(mem: seq<byte>, addr: nat)
    ensures CString(mem, addr, PathAt(mem, addr))
  {
    if addr <= |mem| {
      var s, n := mem[addr..], UpToNul(mem[addr..]);
      UpToNulEnds(s);
      assert mem[addr .. addr + |n|] == s[..|n|];
      forall a | addr <= a < addr + |n| ensures mem[a] != 0 {
        NoNulInside(s, a - addr);
        assert mem[a] == s[..|n|][a - addr];
      }
    }
  }

  /** There is one string at an address. */
  lemma CStringIs(mem: seq<byte>, addr: nat, name: seq<byte>)
    ensures CString(mem, addr, name) <==> name == PathAt(mem, addr)
  {
    PathIsCString(mem, addr);
    if CString(mem, addr, name) { assert |name| == |PathAt(mem, addr)|; }
  }

  /** The path field: the first 256 bytes of the name, zeros behind it. */
  predicate PathField(path: seq<byte>, name: seq<byte>) {
    |path| == 256 && forall k :: 0 <= k < 256 ==> path[k] == if k < |name| then name[k] else 0
  }

  /** The host after an open that answered fd: the file is emptied if the flags have bit 0x200. */
  predicate HostOpened(h: Host, h': Host, name: seq<byte>, flags: int, fd: int) {
    if fd == -1 then h' == h
    else
      && h'.fds == h.fds[fd := File(name, 0)]
      && h'.files == h.files[name := if name in h.files && flags / 0x200 % 2 == 0 then h.files[name] else []]
  }

  ghost predicate OpenDone(vm: Vm, vm': Vm, path: nat, flags: nat, mode: nat, fd: int, rax: nat) {
    if |vm.open| >= 64 then vm' == vm && rax == 0xFFFF_FFFF_FFFF_FFFF
    else
      && vm'.mem == vm.mem && vm'.restored == vm.restored
      && rax == (if fd == -1 then 0xFFFF_FFFF_FFFF_FFFF else fd)
      && |vm'.open| == |vm.open| + 1 && vm'.open[..|vm.open|] == vm.open
      && var e := vm'.open[|vm.open|];
         && e.guestFd == e.hostFd == fd && IntOf(flags, e.flags) && IntOf(mode, e.mode)
         && e.startAddr == e.offset == 0
         && forall name :: CString(vm.mem, path, name) ==>
              PathField(e.path, name) && HostOpened(vm.host, vm'.host, name, e.flags, fd)
  }

  /** An open at 64 entries, or one the host refuses, puts 0xFFFF_FFFF_FFFF_FFFF in rax; any other the new
      number. Below 64 entries there is a new one in either case. */
  lemma OpenInFull(vm: Vm, path: nat, flags: nat, mode: nat, fd: int)
    requires CanOpen(vm, path, flags, fd)
    ensures OpenDone(vm, SysOpen(vm, path, flags, mode, fd).0, path, flags, mode, fd,
                     SysOpen(vm, path, flags, mode, fd).1)
  {
    if |vm.open| < 64 {
      IntRoundTrip(fd);
      IntIs(flags, ToInt(flags));
      IntIs(mode, ToInt(mode));
      forall name ensures CString(vm.mem, path, name) <==> name == PathAt(vm.mem, path) {
        CStringIs(vm.mem, path, name);
      }
    }
  }

  /** A file that is not there opens only with the flag 0x40. */
  lemma MissingFileOpens(h: Host, name: seq<byte>, flags: int, fd: int)
    requires name !in h.files && 0 <= fd < 0x8000_0000 && fd !in h.fds
    ensures OpenAnswer(h, name, flags, fd) <==> flags / 0x40 % 2 == 1
  {}

  // ---- close ----

  /** Entry k is gone, and the last entry is in its place. */
  predicate Removed(open: seq<GuestFile>, open': seq<GuestFile>, k: nat)
    requires k < |open|
  {
    |open'| == |open| - 1 &&
    forall j :: 0 <= j < |open'| ==> open'[j] == if j == k then open[|open| - 1] else open[j]
  }

  ghost predicate CloseDone(vm: Vm, vm': Vm, h: int, rax: nat) {
    if h < 0 then vm' == vm && rax == 0xFFFF_FFFF_FFFF_FFFF
    else
      && vm'.mem == vm.mem && vm'.restored == vm.restored
      && vm'.host.files == vm.host.files && vm'.host.fds == vm.host.fds - {h}
      && rax == (if h in vm.host.fds then 0 else 0xFFFF_FFFF_FFFF_FFFF)
      && (forall k: nat :: First(vm.open, h, k) && h in vm.host.fds ==> Removed(vm.open, vm'.open, k))
      && ((forall k: nat :: !First(vm.open, h, k)) || h !in vm.host.fds ==> vm'.open == vm.open)
  }

  /** A close of a number of no entry, or one the host refuses, puts 0xFFFF_FFFF_FFFF_FFFF in rax; any other
      puts 0 there and takes the first entry whose guest fd is the host fd out of the table. */
  lemma CloseInFull(vm: Vm, fd: nat, h: int)
    requires Answered(vm.open, fd, h)
    ensures CloseDone(vm, SysClose(vm, fd).0, h, SysClose(vm, fd).1)
  {
    AnsweredIs(vm.open, fd, h);
    forall k: nat ensures First(vm.open, h, k) <==> k < |vm.open| && k == Find(vm.open, h) { FirstIs(vm.open, h, k); }
    if h >= 0 && Find(vm.open, h) < |vm.open| { assert First(vm.open, h, Find(vm.open, h)); }
  }

  lemma CloseAnyFd(vm: Vm, vm': Vm, fd: nat, rax: nat)
    requires (vm', rax) == SysClose(vm, fd)
    ensures forall h :: Answered(vm.open, fd, h) ==> CloseDone(vm, vm', h, rax)
  {
    forall h | Answered(vm.open, fd, h) ensures CloseDone(vm, vm', h, rax) { CloseInFull(vm, fd, h); }
  }

  /** A guest fd outside 0 to 2 that no entry has: write and close answer with -1 and change nothing. */
  lemma UnknownFd(vm: Vm, fd: nat, g: int, addr: nat, len: nat, ret: int)
    requires IntOf(fd, g) && !(0 <= g <= 2) && (forall k :: 0 <= k < |vm.open| ==> vm.open[k].guestFd != g)
    requires CanWrite(vm, fd, addr, len, ret)
    ensures SysWrite(vm, fd, addr, len, ret) == (vm, 0xFFFF_FFFF_FFFF_FFFF)
    ensures SysClose(vm, fd) == (vm, 0xFFFF_FFFF_FFFF_FFFF)
  {
    assert AnsweredInt(vm.open, g, -1);
    assert Answered(vm.open, fd, -1);
    WriteInFull(vm, fd, addr, len, ret, -1);
    CloseInFull(vm, fd, -1);
  }

  // ---- the reopening of one file ----

  /** The file of that name is opened with the entry's flags, emptied if they have bit 0x200, and ret bytes of
      guest memory from start_addr on are written at its start; the entry keeps all but its host fd. */
  predicate ReopenDone(h: Host, h': Host, mem: seq<byte>, e: GuestFile, e': GuestFile, a: Answer, name: seq<byte>) {
    && e' == e.(hostFd := a.fd)
    && if a.fd == -1 then -1 in h.fds || h' == h
       else
         var was := if name in h.files && e.flags / 0x200 % 2 == 0 then h.files[name] else [];
         && h'.fds == h.fds[a.fd := File(name, if a.ret > 0 then a.ret else 0)]
         && name in h'.files && h'.files == h.files[name := h'.files[name]]
         && if a.ret <= 0 then h'.files[name] == was
            else
              && e.startAddr + a.ret <= |mem|
              && Spliced(was, h'.files[name], 0, mem[e.startAddr .. e.startAddr + a.ret])
  }

  lemma ReopenInFull(h: Host, mem: seq<byte>, e: GuestFile, a: Answer, name: seq<byte>)
    requires CanReopen(h, mem, e, a) && CString(e.path, 0, name)
    ensures ReopenDone(h, Reopen(h, mem, e, a).0, mem, e, Reopen(h, mem, e, a).1, a, name)
  {
    CStringIs(e.path, 0, name);
    assert e.path[0..] == e.path;
    if a.fd != -1 {
      HostTakes(HostOpen(h, name, e.flags, a.fd), a.fd, Written(mem, e.startAddr, a.ret));
    }
  }

  /** Without the flag 0x200 a restore keeps what the host's file holds behind the replayed bytes; with it
      the file is those bytes alone. */
  lemma RestoreKeepsTail(h: Host, mem: seq<byte>, e: GuestFile, a: Answer, name: seq<byte>)
    requires CanReopen(h, mem, e, a) && a.fd != -1 && a.ret >= 0 && CString(e.path, 0, name) && name in h.files
    ensures var h' := Reopen(h, mem, e, a).0;
            && name in h'.files
            && (e.flags / 0x200 % 2 == 1 ==> |h'.files[name]| == a.ret)
            && (e.flags / 0x200 % 2 == 0 ==>
                && a.ret <= |h'.files[name]| && |h.files[name]| <= |h'.files[name]|
                && forall k :: a.ret <= k < |h'.files[name]| ==>
                     k < |h.files[name]| && h'.files[name][k] == h.files[name][k])
            && (a.ret > 0 ==>
                e.startAddr + a.ret <= |mem| && h'.files[name][..a.ret] == mem[e.startAddr .. e.startAddr + a.ret])
  {
    ReopenInFull(h, mem, e, a, name);
  }
}
