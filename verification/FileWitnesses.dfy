/** Runs of a launched VM, with answers a host can give, on which a promise of the migration fails. */
module FileWitnesses {
  import opened Words
  import opened HostFiles
  import opened FileTable
  import opened FdTable
  import opened TableInvariant
  import opened Replay
  import opened Restore
  import opened Migration
  import opened ColdMigration
  import opened MigrationChain
  import opened RenumberedChains

  const STREAMS: map<int, Descriptor> := map[0 := Stream, 1 := Stream, 2 := Stream]

  function Entry(fd: int, letter: byte, startAddr: nat, offset: nat): GuestFile {
    GuestFile(fd, fd, O_CREAT, 0, startAddr, offset, StrNCpy([letter]))
  }

  /** A path of one letter, at an even address of a memory of letters and NULs. */
  lemma LetterAt(mem: seq<byte>, addr: nat, letter: byte)
    requires addr + 1 < |mem| && mem[addr] == letter != 0 && mem[addr + 1] == 0
    ensures PathAt(mem, addr) == [letter]
    ensures UpToNul(StrNCpy([letter])) == [letter]
  {
    var s := mem[addr..];
    assert s[0] == letter && s[1] == 0;
    UpToNulIs(s, 1);
    assert s[..1] == [letter];
    PathKeptExactly([letter]);
  }

  /** What an open of such a path does, when the host answers with an unused number. */
  lemma OpensLetter(vm: Vm, path: nat, letter: byte, fd: int)
    requires path + 1 < |vm.mem| && vm.mem[path] == letter != 0 && vm.mem[path + 1] == 0
    requires |vm.open| < MAX_OPEN_FILES && 0 <= fd < 0x8000_0000 && fd !in vm.host.fds && [letter] !in vm.host.files
    ensures Possible(vm, Open(path, O_CREAT, 0, fd))
    ensures Step(vm, Open(path, O_CREAT, 0, fd)).0 ==
            vm.(open := vm.open + [Entry(fd, letter, 0, 0)],
                host := Host(vm.host.files[[letter] := []], vm.host.fds[fd := File([letter], 0)]))
  {
    LetterAt(vm.mem, path, letter);
    assert ToInt(O_CREAT) == O_CREAT && ToInt(0) == 0;
    IntRoundTrip(fd);
  }

  // ---- a buffer written twice ----

  /** The path "a", and two letters. */
  const MEM: seq<byte> := [97, 0, 65, 66]

  /** After `count` writes of the byte at address 2. */
  function Rewritten(count: nat): Vm {
    Vm(MEM, [Entry(3, 97, if count == 0 then 0 else 2, count)], false,
       Host(map[[97] := seq(count, _ => 65)], STREAMS[3 := File([97], count)]))
  }

  lemma RewrittenOpen()
    ensures Possible(Launched(MEM, map[]), Open(0, O_CREAT, 0, 3))
    ensures Step(Launched(MEM, map[]), Open(0, O_CREAT, 0, 3)).0 == Rewritten(0)
  {
    OpensLetter(Launched(MEM, map[]), 0, 97, 3);
    assert Rewritten(0).host.files == map[[97] := []];
    assert [] + [Entry(3, 97, 0, 0)] == Rewritten(0).open;
  }

  lemma RewrittenWrite(count: nat)
    requires count <= 1
    ensures Possible(Rewritten(count), Write(3, 2, 1, 1))
    ensures Step(Rewritten(count), Write(3, 2, 1, 1)).0 == Rewritten(count + 1)
  {
    var vm := Rewritten(count);
    assert ToInt(3) == 3 && Find(vm.open, 3) == 0 && HostFd(vm.open, 3) == 3;
    assert Written(MEM, 2, 1) == [65];
    assert Splice(seq(count, _ => 65), count, [65]) == seq(count + 1, _ => 65);
    var vm' := Step(vm, Write(3, 2, 1, 1)).0;
    assert vm'.host.files == Rewritten(count + 1).host.files;
    assert vm'.host.fds == Rewritten(count + 1).host.fds;
    assert vm'.open == Rewritten(count + 1).open;
  }

  function TwoWrites(): seq<Event> {
    [Open(0, O_CREAT, 0, 3), Write(3, 2, 1, 1), Write(3, 2, 1, 1)]
  }

  lemma TwoWritesFair()
    ensures Fair(Launched(MEM, map[]), Open(0, O_CREAT, 0, 3))
    ensures Fair(Rewritten(0), Write(3, 2, 1, 1)) && Fair(Rewritten(1), Write(3, 2, 1, 1))
  {
    LetterAt(MEM, 0, 97);
  }

  lemma TwoWritesRun()
    ensures PossibleRun(Launched(MEM, map[]), TwoWrites()) && FairRun(Launched(MEM, map[]), TwoWrites())
    ensures Run(Launched(MEM, map[]), TwoWrites()) == Rewritten(2)
  {
    RewrittenOpen();
    RewrittenWrite(0);
    RewrittenWrite(1);
    TwoWritesFair();
    var w := Write(3, 2, 1, 1);
    FirstStep(Rewritten(1), w, [], [w]);
    FirstStep(Rewritten(0), w, [w], [w, w]);
    FirstStep(Launched(MEM, map[]), Open(0, O_CREAT, 0, 3), [w, w], TwoWrites());
  }

  /** A guest that writes one buffer twice: its file is "AA", guest memory from start_addr is "AB", and
      whatever host it is restored on, it does not see its file again. */
  lemma BufferWrittenTwice(h: Host, answers: seq<Answer>)
    requires GoodRestore(Rewritten(2), h, answers)
    ensures PossibleRun(Launched(MEM, map[]), TwoWrites()) && Run(Launched(MEM, map[]), TwoWrites()) == Rewritten(2)
    ensures TableInv(Rewritten(2)) && !ReplayInv(Rewritten(2))
    ensures !SameToGuest(Rewritten(2), Restored(h, MEM, Rewritten(2).open, answers))
  {
    var vm := Rewritten(2);
    TwoWritesRun();
    LaunchedIsFair(MEM, map[]);
    RunKeepsTable(Launched(MEM, map[]), TwoWrites());
    LetterAt(MEM, 0, 97);
    assert Shown(vm, vm.open[0])[1] == 65 && MEM[2 .. 4][1] == 66;
    assert !Replayable(vm, 0) && !Recoverable(vm, 0);
    TableIsNamed(vm);
    RestoreShowsExactly(vm, h, answers);
  }

  /** Such a restore: a new process, which opens the file on 3 again. */
  lemma BufferWrittenTwiceRestores()
    ensures GoodRestore(Rewritten(2), Host(map[], STREAMS), [Answer(3, 2)])
  {
    var vm, h, a := Rewritten(2), Host(map[], STREAMS), Answer(3, 2);
    assert HasFlag(O_CREAT, O_CREAT);
    LetterAt(MEM, 0, 97);
    assert CanReopen(h, MEM, vm.open[0], a);
    assert CanReopenAll(h, MEM, vm.open, [a], 0);
    assert CanReopenAll(h, MEM, vm.open, [a], 1);
  }

  // ---- crossing numbers ----

  /** The paths "a", "b" and "c". */
  const PATHS: seq<byte> := [97, 0, 98, 0, 99, 0]

  /** The host always takes the lowest number that is free. */
  function Crossing(): seq<Event> {
    [Open(0, O_CREAT, 0, 3), Open(2, O_CREAT, 0, 4), Close(3), Open(4, O_CREAT, 0, 3)]
  }

  function AfterA(): Vm {
    Vm(PATHS, [Entry(3, 97, 0, 0)], false, Host(map[[97] := []], STREAMS[3 := File([97], 0)]))
  }

  function AfterB(): Vm {
    Vm(PATHS, [Entry(3, 97, 0, 0), Entry(4, 98, 0, 0)], false,
       Host(map[[97] := [], [98] := []], STREAMS[3 := File([97], 0)][4 := File([98], 0)]))
  }

  function AfterClose(): Vm {
    Vm(PATHS, [Entry(4, 98, 0, 0)], false, Host(map[[97] := [], [98] := []], STREAMS[4 := File([98], 0)]))
  }

  function AfterC(): Vm {
    Vm(PATHS, [Entry(4, 98, 0, 0), Entry(3, 99, 0, 0)], false,
       Host(map[[97] := [], [98] := [], [99] := []], STREAMS[4 := File([98], 0)][3 := File([99], 0)]))
  }

  lemma OpensA()
    ensures Possible(Launched(PATHS, map[]), Open(0, O_CREAT, 0, 3))
    ensures Step(Launched(PATHS, map[]), Open(0, O_CREAT, 0, 3)).0 == AfterA()
  {
    OpensLetter(Launched(PATHS, map[]), 0, 97, 3);
    assert [] + [Entry(3, 97, 0, 0)] == AfterA().open;
  }

  lemma OpensB()
    ensures Possible(AfterA(), Open(2, O_CREAT, 0, 4)) && Step(AfterA(), Open(2, O_CREAT, 0, 4)).0 == AfterB()
  {
    OpensLetter(AfterA(), 2, 98, 4);
    assert AfterA().open + [Entry(4, 98, 0, 0)] == AfterB().open;
  }

  lemma OpensC()
    ensures Possible(AfterClose(), Open(4, O_CREAT, 0, 3)) && Step(AfterClose(), Open(4, O_CREAT, 0, 3)).0 == AfterC()
  {
    OpensLetter(AfterClose(), 4, 99, 3);
    assert AfterClose().open + [Entry(3, 99, 0, 0)] == AfterC().open;
  }

  lemma CrossingClose()
    ensures Step(AfterB(), Close(3)).0 == AfterClose()
  {
    var vm := AfterB();
    assert ToInt(3) == 3 && Find(vm.open, 3) == 0;
    assert SwapRemove(vm.open, 0) == AfterClose().open;
    assert vm.host.fds - {3} == AfterClose().host.fds;
  }

  lemma CrossingSteady()
    ensures Fair(Launched(PATHS, map[]), Open(0, O_CREAT, 0, 3)) && Fair(AfterA(), Open(2, O_CREAT, 0, 4))
    ensures Fair(AfterB(), Close(3)) && Fair(AfterClose(), Open(4, O_CREAT, 0, 3))
  {
    LetterAt(PATHS, 0, 97);
    LetterAt(PATHS, 2, 98);
    LetterAt(PATHS, 4, 99);
  }

  lemma OneStep(vm: Vm, es: seq<Event>, rest: seq<Event>)
    requires es != [] && es[1..] == rest && Possible(vm, es[0]) && Fair(vm, es[0]) && Steady(vm, es[0])
    requires PossibleRun(Step(vm, es[0]).0, rest) && SteadyRun(Step(vm, es[0]).0, rest)
    ensures PossibleRun(vm, es) && SteadyRun(vm, es) && Run(vm, es) == Run(Step(vm, es[0]).0, rest)
  {}

  lemma CrossingRun()
    ensures PossibleRun(Launched(PATHS, map[]), Crossing()) && SteadyRun(Launched(PATHS, map[]), Crossing())
    ensures Run(Launched(PATHS, map[]), Crossing()) == AfterC()
  {
    CrossingSteady();
    OpensC();
    OneStep(AfterClose(), [Open(4, O_CREAT, 0, 3)], []);
    CrossingClose();
    OneStep(AfterB(), [Close(3), Open(4, O_CREAT, 0, 3)], [Open(4, O_CREAT, 0, 3)]);
    OpensB();
    OneStep(AfterA(), [Open(2, O_CREAT, 0, 4), Close(3), Open(4, O_CREAT, 0, 3)], [Close(3), Open(4, O_CREAT, 0, 3)]);
    OpensA();
    OneStep(Launched(PATHS, map[]), Crossing(), [Open(2, O_CREAT, 0, 4), Close(3), Open(4, O_CREAT, 0, 3)]);
  }

  /** Restored in a new process, again with the lowest free numbers. */
  lemma CrossingRestores()
    ensures GoodRestore(AfterC(), Host(map[], STREAMS), [Answer(3, 0), Answer(4, 0)])
  {
    var vm, h, answers := AfterC(), Host(map[], STREAMS), [Answer(3, 0), Answer(4, 0)];
    assert CanReopenAll(h, PATHS, vm.open, answers, 0);
    EmptyReopens(h, PATHS, vm.open[0], 3);
    assert CanReopenAll(h, PATHS, vm.open, answers, 1);
    EmptyReopens(ReopenAll(h, PATHS, vm.open, answers, 1).0, PATHS, vm.open[1], 4);
    assert CanReopenAll(h, PATHS, vm.open, answers, 2);
  }

  /** A file nothing was written to reopens on any unused number. */
  lemma EmptyReopens(h: Host, mem: seq<byte>, e: GuestFile, fd: int)
    requires e.offset == 0 && e.flags == O_CREAT && 0 <= fd < 0x8000_0000 && fd !in h.fds
    ensures CanReopen(h, mem, e, Answer(fd, 0))
    ensures Reopen(h, mem, e, Answer(fd, 0)).0.fds == h.fds[fd := File(NameOf(e), 0)]
  {
    assert HasFlag(O_CREAT, O_CREAT);
  }

  /** A launched VM opens two files, closes the first, opens a third; it is saved, restored, and closes
      the second: the third is then gone for its guest, while a guest that stayed still has it. */
  lemma CrossedNumbers()
    ensures PossibleRun(Launched(PATHS, map[]), Crossing()) && Run(Launched(PATHS, map[]), Crossing()) == AfterC()
    ensures var h, answers := Host(map[], STREAMS), [Answer(3, 0), Answer(4, 0)];
            var moved := Restored(h, PATHS, AfterC().open, answers);
            && GoodRestore(AfterC(), h, answers) && !NoCrossing(AfterC().open, answers)
            && GuestView(SysClose(moved, 4).0, 3) == Closed
            && GuestView(SysClose(AfterC(), 4).0, 3).At?
  {
    CrossingRun();
    CrossingRestores();
    LaunchedIsFair(PATHS, map[]);
    RunKeepsReplay(Launched(PATHS, map[]), Crossing());
    assert ToInt(4) == 4;
    CrossingLosesAFile(AfterC(), Host(map[], STREAMS), [Answer(3, 0), Answer(4, 0)], 1, 0, 4);
  }

  // ---- reopened on another number ----

  /** A VM with the file "a" on 3, restored with the file on 4, after `count` writes of one byte there. */
  function MovedOn(mem: seq<byte>, count: nat, restored: bool): Vm {
    Vm(mem, [Entry(3, 97, 0, 0).(hostFd := 4)], restored,
       Host(map[[97] := seq(count, _ => 65)], STREAMS[4 := File([97], count)]))
  }

  lemma OneFileRestores(vm: Vm)
    requires vm.open == [Entry(3, 97, 0, 0)]
    ensures GoodRestore(vm, Host(map[], STREAMS), [Answer(4, 0)]) && NoCrossing(vm.open, [Answer(4, 0)])
    ensures Restored(Host(map[], STREAMS), vm.mem, vm.open, [Answer(4, 0)]) == MovedOn(vm.mem, 0, true)
  {
    var h, answers, moved := Host(map[], STREAMS), [Answer(4, 0)], MovedOn(vm.mem, 0, true);
    LetterAt(MEM, 0, 97);
    EmptyReopens(h, vm.mem, vm.open[0], 4);
    assert CanReopenAll(h, vm.mem, vm.open, answers, 0) && CanReopenAll(h, vm.mem, vm.open, answers, 1);
    assert ReopenAll(h, vm.mem, vm.open, answers, 0) == (h, []);
    var (after, e) := Reopen(h, vm.mem, vm.open[0], answers[0]);
    assert after.files == moved.host.files && e == moved.open[0];
    assert ReopenAll(h, vm.mem, vm.open, answers, 1).1 == moved.open;
  }

  function MovedA(): Vm { MovedOn(PATHS, 0, true) }

  /** Its guest closes the file: the entry stays in the table. */
  function MovedClosed(): Vm {
    MovedA().(host := Host(map[[97] := []], STREAMS))
  }

  lemma CloseLeavesEntry()
    ensures Step(MovedA(), Close(3)) == (MovedClosed(), 0) && Lookup(MovedClosed().open, 3).Some?
  {
    assert seq(0, _ => 65) == [];
    assert ToInt(3) == 3 && Find(MovedA().open, 3) == 0;
    assert Find(MovedA().open, 4) == 1;
    assert MovedA().host.fds - {4} == STREAMS;
  }

  /** Close the file, open "b", and get its number. */
  function NumberAgain(): seq<Event> {
    [Close(3), Open(2, O_CREAT, 0, 3)]
  }

  lemma NumberAgainStays()
    ensures PossibleRun(AfterA(), NumberAgain()) && GuestView(Run(AfterA(), NumberAgain()), 3) == At([98], 0, [])
  {
    var closed := Vm(PATHS, [], false, Host(map[[97] := []], STREAMS));
    assert ToInt(3) == 3 && Find(AfterA().open, 3) == 0;
    assert SwapRemove(AfterA().open, 0) == [];
    assert AfterA().host.fds - {3} == STREAMS;
    assert Step(AfterA(), Close(3)).0 == closed;
    OpensLetter(closed, 2, 98, 3);
    TwoSteps(AfterA(), Close(3), Open(2, O_CREAT, 0, 3));
    var after := Step(closed, Open(2, O_CREAT, 0, 3)).0;
    assert after.open[0].guestFd == 3 && Find(after.open, 3) == 0;
  }

  lemma NumberAgainMoved()
    ensures PossibleRun(MovedA(), NumberAgain()) && GuestView(Run(MovedA(), NumberAgain()), 3) == Closed
  {
    CloseLeavesEntry();
    OpensLetter(MovedClosed(), 2, 98, 3);
    TwoSteps(MovedA(), Close(3), Open(2, O_CREAT, 0, 3));
    var after := Step(MovedClosed(), Open(2, O_CREAT, 0, 3)).0;
    assert after.open[0] == MovedA().open[0] && Find(after.open, 3) == 0;
  }

  lemma TwoSteps(vm: Vm, e0: Event, e1: Event)
    requires Possible(vm, e0) && Possible(Step(vm, e0).0, e1)
    ensures PossibleRun(vm, [e0, e1]) && Run(vm, [e0, e1]) == Step(Step(vm, e0).0, e1).0
  {
    assert [e0, e1][1..] == [e1];
    OneEvent(Step(vm, e0).0, e1);
  }

  /** A file reopened on 4 instead of 3: after a close and an open that gets 3 again, a guest that stayed
      has the new file on 3, and the migrated guest has nothing, though the numbers do not cross. */
  lemma NumberUsedAgain()
    ensures var h, answers := Host(map[], STREAMS), [Answer(4, 0)];
            var moved := Restored(h, PATHS, AfterA().open, answers);
            && Possible(Launched(PATHS, map[]), Open(0, O_CREAT, 0, 3))
            && Step(Launched(PATHS, map[]), Open(0, O_CREAT, 0, 3)).0 == AfterA()
            && GoodRestore(AfterA(), h, answers) && NoCrossing(AfterA().open, answers)
            && PossibleRun(AfterA(), NumberAgain()) && PossibleRun(moved, NumberAgain())
            && GuestView(Run(AfterA(), NumberAgain()), 3) == At([98], 0, [])
            && GuestView(Run(moved, NumberAgain()), 3) == Closed
  {
    OpensA();
    OneFileRestores(AfterA());
    NumberAgainStays();
    NumberAgainMoved();
  }

  // ---- a second migration ----

  lemma MovedOnWrites()
    ensures Possible(MovedOn(MEM, 0, true), Write(3, 2, 1, 1))
    ensures Step(MovedOn(MEM, 0, true), Write(3, 2, 1, 1)).0 == MovedOn(MEM, 1, true)
  {
    var vm := MovedOn(MEM, 0, true);
    assert ToInt(3) == 3 && Find(vm.open, 3) == 0 && HostFd(vm.open, 3) == 4 && Find(vm.open, 4) == 1;
    assert Written(MEM, 2, 1) == [65];
    assert seq(0, _ => 65) == [] && seq(1, _ => 65) == [65] && Splice([], 0, [65]) == [65];
    var vm' := Step(vm, Write(3, 2, 1, 1)).0;
    assert vm'.host.files == MovedOn(MEM, 1, true).host.files;
    assert vm'.host.fds == MovedOn(MEM, 1, true).host.fds;
  }

  /** One byte written, and the SAVE that the restore makes the handler ignore. */
  function WriteOn(): seq<Event> {
    [Write(3, 2, 1, 1), IgnoredSave]
  }

  lemma WriteOnRuns()
    ensures PossibleRun(Rewritten(0), WriteOn()) && PossibleRun(MovedOn(MEM, 0, true), WriteOn())
    ensures MatchedRun(Rewritten(0), MovedOn(MEM, 0, true), WriteOn())
    ensures Run(MovedOn(MEM, 0, true), WriteOn()) == MovedOn(MEM, 1, false)
  {
    RewrittenWrite(0);
    MovedOnWrites();
    TwoSteps(Rewritten(0), Write(3, 2, 1, 1), IgnoredSave);
    TwoSteps(MovedOn(MEM, 0, true), Write(3, 2, 1, 1), IgnoredSave);
    WritesMatch(Rewritten(0), MovedOn(MEM, 0, true), WriteOn());
  }

  /** The entry still says offset 0, so nothing is replayed: any file can be reopened for it. */
  lemma MovedOnReopens()
    ensures GoodRestore(MovedOn(MEM, 1, false), Host(map[], STREAMS), [Answer(3, 0)])
    ensures !Recoverable(MovedOn(MEM, 1, false), 0)
  {
    var h, open, answers := Host(map[], STREAMS), MovedOn(MEM, 1, false).open, [Answer(3, 0)];
    LetterAt(MEM, 0, 97);
    EmptyReopens(h, MEM, open[0], 3);
    assert CanReopenAll(h, MEM, open, answers, 0) && CanReopenAll(h, MEM, open, answers, 1);
  }

  /** Open the file on 3 and migrate; it is reopened on 4; write a byte and migrate again. */
  function TwoMigrations(): seq<Leg> {
    [Leg([Open(0, O_CREAT, 0, 3)], Host(map[], STREAMS), [Answer(4, 0)]),
        Leg(WriteOn(), Host(map[], STREAMS), [Answer(3, 0)])]
  }

  lemma FirstLeg()
    ensures var vm, es := Launched(MEM, map[]), [Open(0, O_CREAT, 0, 3)];
            PossibleRun(vm, es) && Run(vm, es) == Rewritten(0) && MatchedRun(vm, vm, es) && Named(vm) &&
                SameToGuest(vm, vm)
  {
    var vm := Launched(MEM, map[]);
    RewrittenOpen();
    OneEvent(vm, Open(0, O_CREAT, 0, 3));
    LetterAt(MEM, 0, 97);
    LaunchedIsFair(MEM, map[]);
    TableIsNamed(vm);
    assert FreshOpen(vm, 0, 3);
    assert [Open(0, O_CREAT, 0, 3)][1..] == [];
  }

  lemma SecondLeg()
    ensures CanGo(Rewritten(0), MovedOn(MEM, 0, true), TwoMigrations()[1..])
    ensures !Recovers(Rewritten(0), MovedOn(MEM, 0, true), TwoMigrations()[1..])
  {
    WriteOnRuns();
    MovedOnReopens();
    assert TwoMigrations()[1..] == [TwoMigrations()[1]] && TwoMigrations()[1..][1..] == [];
  }

  lemma TwoMigrationsGo()
    ensures CanGo(Launched(MEM, map[]), Launched(MEM, map[]), TwoMigrations())
  {
    FirstLeg();
    OneFileRestores(Rewritten(0));
    SecondLeg();
  }

  lemma TwoMigrationsLose()
    ensures CanGo(Launched(MEM, map[]), Launched(MEM, map[]), TwoMigrations())
    ensures !Recovers(Launched(MEM, map[]), Launched(MEM, map[]), TwoMigrations())
  {
    TwoMigrationsGo();
    FirstLeg();
    OneFileRestores(Rewritten(0));
    SecondLeg();
  }

  /** A further migration loses the byte: the launched guest that travels does not look like the one that
      stays, as its file went from 3 to 4 and the write there did not move the entry. */
  lemma ByteLostOnSecondMigration()
    ensures var vm := Launched(MEM, map[]);
            CanGo(vm, vm, TwoMigrations()) && !AlikeThroughout(vm, vm, TwoMigrations())
  {
    var vm := Launched(MEM, map[]);
    FirstLeg();
    TwoMigrationsLose();
    ChainAgreesExactly(vm, vm, TwoMigrations());
  }

  // ---- a failed open ----

  /** An open that the host refuses adds an entry with guest fd -1 all the same. */
  lemma FailedOpenStays()
    ensures var vm, e := Launched(MEM, map[]), Open(0, O_CREAT, 0, -1);
            Possible(vm, e) && FdInv(vm) && !FdInv(Step(vm, e).0) && |Step(vm, e).0.open| == 1
  {
    OpenKeepsFdsExactly(Launched(MEM, map[]), 0, O_CREAT, 0, -1);
  }
}
