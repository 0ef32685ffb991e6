/** When start_addr and offset describe a file's bytes in guest memory, and what keeps it so. */
module Replay {
  import opened Words
  import opened HostFiles
  import opened FileTable
  import opened FdTable
  import opened TableInvariant

  /** The bytes of an entry's file up to its position. */
  function Shown(vm: Vm, e: GuestFile): seq<byte> {
    Prefix(ContentOf(vm.host, NameOf(e)), e.offset)
  }

  /** Guest memory at start_addr holds these bytes, as many as the offset says. */
  predicate Holds(mem: seq<byte>, e: GuestFile, bytes: seq<byte>) {
    e.offset > 0 ==> e.startAddr + e.offset <= |mem| && mem[e.startAddr .. e.startAddr + e.offset] == bytes
  }

  /** Guest memory at start_addr holds the file's bytes up to the offset. */
  predicate Replayable(vm: Vm, i: nat)
    requires i < |vm.open|
  {
    Holds(vm.mem, vm.open[i], Shown(vm, vm.open[i]))
  }

  ghost predicate ReplayInv(vm: Vm) {
    |vm.mem| <= U32 && forall i :: 0 <= i < |vm.open| ==> Replayable(vm, i)
  }

  /** The bytes written follow the entry's buffer in guest memory. */
  predicate Follows(mem: seq<byte>, e: GuestFile, data: seq<byte>) {
    e.offset > 0 && data != [] ==>
      && e.startAddr + e.offset + |data| <= |mem|
      && mem[e.startAddr + e.offset .. e.startAddr + e.offset + |data|] == data
  }

  predicate SameBuffer(mem: seq<byte>, mem': seq<byte>, e: GuestFile) {
    e.offset > 0 && e.startAddr + e.offset <= |mem| == |mem'| ==>
      mem'[e.startAddr .. e.startAddr + e.offset] == mem[e.startAddr .. e.startAddr + e.offset]
  }

  /** Writes to one file follow each other in guest memory, and what was written stays there. */
  predicate Steady(vm: Vm, e: Event) {
    match e
    case Write(fd, addr, len, ret) =>
      Find(vm.open, ToInt(fd)) < |vm.open| ==>
        Follows(vm.mem, vm.open[Find(vm.open, ToInt(fd))], Written(vm.mem, addr, ret))
    case Compute(mem) => forall i :: 0 <= i < |vm.open| ==> SameBuffer(vm.mem, mem, vm.open[i])
    case _ => true
  }

  /** A write from the address just after the buffer is such a write. */
  lemma ContiguousFollows(mem: seq<byte>, e: GuestFile, ret: nat)
    requires e.startAddr + e.offset + ret <= |mem|
    ensures Follows(mem, e, Written(mem, e.startAddr + e.offset, ret))
  {}

  lemma BufferGrows(mem: seq<byte>, shown: seq<byte>, data: seq<byte>, a: nat)
    requires a + |shown| + |data| <= |mem| && mem[a .. a + |shown|] == shown
    ensures mem[a .. a + |shown| + |data|] == shown + data <==> mem[a + |shown| .. a + |shown| + |data|] == data
  {
    var b, c := a + |shown|, a + |shown| + |data|;
    assert mem[a .. c] == mem[a .. b] + mem[b .. c];
    assert mem[a .. c][|shown|..] == mem[b .. c] && (shown + data)[|shown|..] == data;
  }

  lemma AdvanceOther(vm: Vm, vm': Vm, i: nat, addr: nat, data: seq<byte>, j: nat)
    requires TableInv(vm) && ReplayInv(vm) && i < |vm.open| && j < |vm.open| && j != i
    requires AdvancesEntry(vm, vm', i, addr, data)
    ensures Replayable(vm', j)
  {
    assert EntryOk(vm, i) && Replayable(vm, j);
    DifferentFds(vm.open, i, j);
  }

  lemma AdvanceShown(vm: Vm, vm': Vm, i: nat, addr: nat, data: seq<byte>)
    requires i < |vm.open| && EntryOk(vm, i) && AdvancesEntry(vm, vm', i, addr, data)
    ensures Shown(vm', vm'.open[i]) == Shown(vm, vm.open[i]) + data
  {
    SplicePrefix(ContentOf(vm.host, NameOf(vm.open[i])), vm.open[i].offset, data);
    if data == [] { assert Shown(vm, vm.open[i]) + data == Shown(vm, vm.open[i]); }
  }

  /** An entry advanced over data holds the longer contents exactly when the data follows its buffer. */
  lemma HoldsGrown(mem: seq<byte>, e: GuestFile, shown: seq<byte>, addr: nat, data: seq<byte>)
    requires |mem| <= U32 && |shown| == e.offset && Holds(mem, e, shown)
    requires data == [] || (addr + |data| <= |mem| && data == mem[addr .. addr + |data|])
    ensures var e' := e.(startAddr := if e.offset == 0 then addr % U32 else e.startAddr, offset := e.offset + |data|);
            Holds(mem, e', shown + data) <==> Follows(mem, e, data)
  {
    if data == [] {
      assert shown + data == shown;
    } else if e.offset == 0 {
      assert shown + data == data;
    } else if e.startAddr + e.offset + |data| <= |mem| {
      BufferGrows(mem, shown, data, e.startAddr);
    }
  }

  lemma AdvanceOwn(vm: Vm, vm': Vm, i: nat, addr: nat, data: seq<byte>)
    requires TableInv(vm) && ReplayInv(vm) && i < |vm.open| && AdvancesEntry(vm, vm', i, addr, data)
    requires data == [] || (addr + |data| <= |vm.mem| && data == vm.mem[addr .. addr + |data|])
    ensures Replayable(vm', i) <==> Follows(vm.mem, vm.open[i], data)
  {
    assert EntryOk(vm, i) && Replayable(vm, i);
    AdvanceShown(vm, vm', i, addr, data);
    HoldsGrown(vm.mem, vm.open[i], Shown(vm, vm.open[i]), addr, data);
  }

  lemma WriteReplayExactly(vm: Vm, fd: nat, addr: nat, len: nat, ret: int)
    requires TableInv(vm) && ReplayInv(vm) && CanWrite(vm, fd, addr, len, ret) && Fair(vm, Write(fd, addr, len, ret))
    ensures ReplayInv(SysWrite(vm, fd, addr, len, ret).0) <==> Steady(vm, Write(fd, addr, len, ret))
  {
    var i, vm' := Find(vm.open, ToInt(fd)), SysWrite(vm, fd, addr, len, ret).0;
    EntryOf(vm, ToInt(fd));
    if ret >= 0 { WriteEffect(vm, fd, addr, len, ret); }
    if i < |vm.open| {
      AdvanceOwn(vm, vm', i, addr, Written(vm.mem, addr, ret));
      forall j | 0 <= j < |vm.open| && j != i ensures Replayable(vm', j) {
        AdvanceOther(vm, vm', i, addr, Written(vm.mem, addr, ret), j);
      }
      assert Replayable(vm', i) <==> Follows(vm.mem, vm.open[i], Written(vm.mem, addr, ret));
    } else {
      assert vm' == vm;
    }
  }

  lemma OpenReplay(vm: Vm, path: nat, flags: nat, mode: nat, fd: int)
    requires TableInv(vm) && ReplayInv(vm) && CanOpen(vm, path, flags, fd) && Fair(vm, Open(path, flags, mode, fd))
    ensures ReplayInv(SysOpen(vm, path, flags, mode, fd).0)
  {
    if |vm.open| < MAX_OPEN_FILES {
      var vm' := SysOpen(vm, path, flags, mode, fd).0;
      OpenedEntry(vm, path, flags, mode, fd);
      forall j | 0 <= j < |vm'.open| ensures Replayable(vm', j) {
        if j < |vm.open| { assert Replayable(vm, j); }
      }
    }
  }

  lemma CloseReplay(vm: Vm, fd: nat)
    requires TableInv(vm) && ReplayInv(vm) && !(0 <= ToInt(fd) <= 2)
    ensures ReplayInv(SysClose(vm, fd).0)
  {
    CloseEffect(vm, fd);
    var i, vm' := Find(vm.open, ToInt(fd)), SysClose(vm, fd).0;
    if i < |vm.open| {
      forall j | 0 <= j < |vm'.open| ensures Replayable(vm', j) {
        var at := if j == i then |vm.open| - 1 else j;
        assert Replayable(vm, at) && vm'.open[j] == vm.open[at];
      }
    }
  }

  /** The guest's buffers describe its files after a fair step exactly when the step is steady. */
  lemma StepKeepsReplayExactly(vm: Vm, e: Event)
    requires TableInv(vm) && ReplayInv(vm) && Possible(vm, e) && Fair(vm, e)
    ensures ReplayInv(Step(vm, e).0) <==> Steady(vm, e)
  {
    match e
    case Write(fd, addr, len, ret) => WriteReplayExactly(vm, fd, addr, len, ret);
    case Open(path, flags, mode, fd) => OpenReplay(vm, path, flags, mode, fd);
    case Close(fd) => CloseReplay(vm, fd);
    case Compute(mem) =>
      forall i | 0 <= i < |vm.open| ensures Replayable(Step(vm, e).0, i) <==> SameBuffer(vm.mem, mem, vm.open[i]) {
        assert Replayable(vm, i);
      }
    case IgnoredSave =>
      forall i | 0 <= i < |vm.open| ensures Replayable(Step(vm, e).0, i) { assert Replayable(vm, i); }
  }

  ghost predicate SteadyRun(vm: Vm, es: seq<Event>)
    requires PossibleRun(vm, es)
    decreases |es|
  {
    es == [] || (Fair(vm, es[0]) && Steady(vm, es[0]) && SteadyRun(Step(vm, es[0]).0, es[1..]))
  }

  /** After any steady run every entry can be replayed from guest memory. */
  lemma {:induction false} RunKeepsReplay(vm: Vm, es: seq<Event>)
    requires TableInv(vm) && ReplayInv(vm) && PossibleRun(vm, es) && SteadyRun(vm, es)
    ensures TableInv(Run(vm, es)) && ReplayInv(Run(vm, es))
    decreases |es|
  {
    if es != [] {
      StepKeepsTableExactly(vm, es[0]);
      StepKeepsReplayExactly(vm, es[0]);
      RunKeepsReplay(Step(vm, es[0]).0, es[1..]);
    }
  }

  // ---- where an entry's bytes begin ----

  /** The addresses of the first nonempty writes, by guest fd: a history of the run so far. */
  ghost function Noted(vm: Vm, e: Event, starts: map<int, nat>): map<int, nat> {
    match e
    case Write(fd, addr, len, ret) =>
      if ret > 0 && Lookup(vm.open, ToInt(fd)).Some? && ToInt(fd) !in starts then starts[ToInt(fd) := addr] else starts
    case Open(_, _, _, fd) => if |vm.open| < MAX_OPEN_FILES then starts - {fd} else starts
    case Close(fd) => starts - {ToInt(fd)}
    case _ => starts
  }

  ghost function Notes(vm: Vm, es: seq<Event>, starts: map<int, nat>): map<int, nat>
    requires PossibleRun(vm, es)
    decreases |es|
  {
    if es == [] then starts else Notes(Step(vm, es[0]).0, es[1..], Noted(vm, es[0], starts))
  }

  /** An entry has a first write exactly when its offset is positive, and start_addr is its address. */
  predicate Begun(e: GuestFile, starts: map<int, nat>) {
    && (e.offset > 0 <==> e.guestFd in starts)
    && (e.offset > 0 ==> e.startAddr == starts[e.guestFd] % U32)
  }

  ghost predicate AllBegun(vm: Vm, starts: map<int, nat>) {
    forall g :: BegunAt(vm, starts, g)
  }

  predicate BegunAt(vm: Vm, starts: map<int, nat>, g: int) {
    Lookup(vm.open, g).Some? ==> Begun(Lookup(vm.open, g).value, starts)
  }

  lemma StepKeepsBegun(vm: Vm, e: Event, starts: map<int, nat>)
    requires TableInv(vm) && Possible(vm, e) && Fair(vm, e) && AllBegun(vm, starts)
    ensures AllBegun(Step(vm, e).0, Noted(vm, e, starts))
  {
    TableIsFds(vm);
    forall g ensures BegunAt(Step(vm, e).0, Noted(vm, e, starts), g) {
      assert BegunAt(vm, starts, g);
      StepOnMap(vm, e, g);
      if e.Write? && g == ToInt(e.fd) && Lookup(vm.open, g).Some? { AdvancedBegun(vm, e, starts); }
    }
  }

  lemma AdvancedBegun(vm: Vm, e: Event, starts: map<int, nat>)
    requires TableInv(vm) && Possible(vm, e) && Fair(vm, e) && AllBegun(vm, starts)
    requires e.Write? && Lookup(vm.open, ToInt(e.fd)).Some?
    ensures Begun(Advanced(Lookup(vm.open, ToInt(e.fd)).value, e.addr, e.ret), Noted(vm, e, starts))
  {
    EntryOf(vm, ToInt(e.fd));
    assert BegunAt(vm, starts, ToInt(e.fd));
    NoWrap(Lookup(vm.open, ToInt(e.fd)).value.offset, e.ret);
  }

  /** On every fair run, zero-length and short writes included: an entry's offset is positive exactly
      when a nonempty write has reached it since it was opened, and start_addr is the address of the
      first such write. */
  lemma {:induction false} StartsAreFirstWrites(vm: Vm, es: seq<Event>, starts: map<int, nat>)
    requires TableInv(vm) && AllBegun(vm, starts) && PossibleRun(vm, es) && FairRun(vm, es)
    ensures AllBegun(Run(vm, es), Notes(vm, es, starts))
    decreases |es|
  {
    if es != [] {
      StepKeepsTableExactly(vm, es[0]);
      StepKeepsBegun(vm, es[0], starts);
      StartsAreFirstWrites(Step(vm, es[0]).0, es[1..], Noted(vm, es[0], starts));
    }
  }

  // ---- the beginning ----

  lemma LaunchedIsFair(mem: seq<byte>, files: map<Name, seq<byte>>)
    requires |mem| <= U32
    ensures TableInv(Launched(mem, files)) && ReplayInv(Launched(mem, files)) && AllBegun(Launched(mem, files), map[])
  {
    assert forall fd :: Owned(Launched(mem, files), fd);
  }
}
