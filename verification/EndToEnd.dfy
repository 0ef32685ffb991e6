/** One whole cold migration: run, save, send in pieces, receive in pieces, restore, run on. */
module EndToEnd {
  import opened Words
  import opened HostFiles
  import opened FileTable
  import opened FdTable
  import opened TableInvariant
  import opened Replay
  import opened Restore
  import opened ColdMigration
  import opened VmImages
  import opened ImageBytes
  import opened PageTables
  import Transfer

  predicate CpuFits(cpu: Vcpu) {
    forall i :: i in WANTED_MSRS ==> i in cpu.msrs && cpu.msrs[i] < U64
  }

  /** The image of a VM whose table is in order has a byte encoding. */
  lemma SavedImageFits(vm: Vm, cpu: Vcpu, base: nat)
    requires TableInv(vm) && |vm.mem| <= MAX_MEMORY_SIZE && CpuFits(cpu) && base < U64
    ensures CanSave(cpu, vm.mem, vm.open) && ImageFits(SaveImage(cpu, vm.mem, base, vm.open))
  {
    var img := SaveImage(cpu, vm.mem, base, vm.open);
    forall i | 0 <= i < |img.openFiles| ensures FileFits(img.openFiles[i]) {
      if i < |vm.open| { assert EntryOk(vm, i); }
    }
    forall i | 0 <= i < |img.entries| ensures EntryFits(img.entries[i]) {
      if i < |WANTED_MSRS| { assert WANTED_MSRS[i] in WANTED_MSRS; }
    }
  }

  /** The image as the two programs move it over the network. */
  function Outgoing(img: VmImage): Transfer.Net
    requires ImageFits(img)
  {
    Transfer.Start(Raw(img), FieldSizes(|img.registers|, |img.sregisters|, |img.fpu|))
  }

  /** However the transfer is cut into pieces, a receiver that has read its nine fields has the image. */
  lemma ReceivedImage(img: VmImage, moves: seq<Transfer.Move>)
    requires ImageFits(img) && Transfer.CanMove(Outgoing(img), moves)
    requires Transfer.ReceiverDone(Transfer.MoveAll(Outgoing(img), moves))
    ensures FromFields(Transfer.MoveAll(Outgoing(img), moves).received) == Some(img)
  {
    SizesOfFields(img);
    Transfer.EveryInterleaving(Raw(img), FieldSizes(|img.registers|, |img.sregisters|, |img.fpu|), moves,
                               Transfer.MoveAll(Outgoing(img), moves));
    FieldsRoundTrip(img);
  }

  /** A restore from the received image, on a blank VM with whatever create_stack has put in its
      memory, has the saved memory, so every address translates as at the save; it has the saved
      registers, EFER, STAR and LSTAR; and it reopens the saved entries. The image brings the base and the
      size of the memory it was saved from. */
  lemma RestoredMachine(vm: Vm, cpu: Vcpu, base: nat, moves: seq<Transfer.Move>, blankCpu: Vcpu, blank: seq<byte>)
    requires TableInv(vm) && |vm.mem| <= MAX_MEMORY_SIZE && CpuFits(cpu) && base < U64 && |blank| == |vm.mem|
    requires CanSave(cpu, vm.mem, vm.open)
    requires var img := SaveImage(cpu, vm.mem, base, vm.open);
             && ImageFits(img) && Transfer.CanMove(Outgoing(img), moves)
             && Transfer.ReceiverDone(Transfer.MoveAll(Outgoing(img), moves))
    ensures var img := SaveImage(cpu, vm.mem, base, vm.open);
            var received := FromFields(Transfer.MoveAll(Outgoing(img), moves).received);
            && received.Some? && CanRestoreImage(received.value, blank)
            && received.value.base == base && received.value.memorySize == |vm.mem|
            && var (cpu', mem', es) := RestoreImage(received.value, blankCpu, blank);
               && mem' == vm.mem && es == vm.open
               && (forall va :: Walk(mem', va) == Walk(vm.mem, va))
               && cpu'.regs == cpu.regs && cpu'.sregs == cpu.sregs && cpu'.fpu == cpu.fpu
               && MsrsFrom(cpu'.msrs, cpu.msrs, blankCpu.msrs)
  {
    ReceivedImage(SaveImage(cpu, vm.mem, base, vm.open), moves);
    SaveThenRestore(cpu, vm.mem, base, vm.open, blankCpu, blank);
  }

  /** The whole migration. A VM is launched and runs steadily; it is saved; its image crosses the
      network in any pieces; it is restored on any host that reopens every file and takes every
      byte, on any descriptor numbers. From then on, through any matched run (writes always match),
      the guest gets the same answers and sees the same files as if it had stayed. */
  lemma WholeMigration(mem: seq<byte>, files: map<Name, seq<byte>>, before: seq<Event>, cpu: Vcpu, base: nat,
                       moves: seq<Transfer.Move>, blankCpu: Vcpu, blank: seq<byte>,
                       h: Host, answers: seq<Answer>, after: seq<Event>)
    requires |mem| <= MAX_MEMORY_SIZE && CpuFits(cpu) && base < U64
    requires PossibleRun(Launched(mem, files), before) && SteadyRun(Launched(mem, files), before)
    requires var vm := Run(Launched(mem, files), before);
             && CanSave(cpu, vm.mem, vm.open) && |blank| == |vm.mem|
             && var img := SaveImage(cpu, vm.mem, base, vm.open);
                && ImageFits(img) && Transfer.CanMove(Outgoing(img), moves)
                && Transfer.ReceiverDone(Transfer.MoveAll(Outgoing(img), moves))
    requires var vm := Run(Launched(mem, files), before);
             && GoodRestore(vm, h, answers)
             && var moved := Restored(h, vm.mem, vm.open, answers);
                PossibleRun(vm, after) && PossibleRun(moved, after) && MatchedRun(vm, moved, after)
    ensures var vm := Run(Launched(mem, files), before);
            var img := SaveImage(cpu, vm.mem, base, vm.open);
            var received := FromFields(Transfer.MoveAll(Outgoing(img), moves).received);
            && received.Some? && CanRestoreImage(received.value, blank)
            && var (cpu', mem', es) := RestoreImage(received.value, blankCpu, blank);
               && |answers| == |es|
               && var moved := Restored(h, mem', es, answers);
                  && SameToGuest(vm, moved)
                  && PossibleRun(moved, after)
                  && SameToGuest(Run(vm, after), Run(moved, after))
                  && Returns(vm, after) == Returns(moved, after)
  {
    LaunchedIsFair(mem, files);
    RunKeepsReplay(Launched(mem, files), before);
    var vm := Run(Launched(mem, files), before);
    MemorySizeKept(Launched(mem, files), before);
    RestoredMachine(vm, cpu, base, moves, blankCpu, blank);
    ColdMigrationSimulates(Launched(mem, files), before, h, answers, after);
  }

  lemma {:induction false} MemorySizeKept(vm: Vm, es: seq<Event>)
    requires PossibleRun(vm, es)
    ensures |Run(vm, es).mem| == |vm.mem|
    decreases |es|
  {
    if es != [] { MemorySizeKept(Step(vm, es[0]).0, es[1..]); }
  }
}
