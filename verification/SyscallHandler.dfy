/** The syscall handler itself, with its table of open files, and the save and restore of the VM. */
module SyscallHandler {
  import opened Words
  import opened HostFiles
  import opened FileTable
  import opened TableInvariant
  import opened Restore
  import opened VmImages
  import opened RawCalls

  /** What the handler leaves the run loop with. */
  datatype Outcome =
    | Resume(rax: nat)
    | Exit(code: nat)
    | SavedAndExit(image: VmImage)

  class Handler {
    const mem: array<byte>
    const openFiles: array<GuestFile>
    var nOpenFiles: nat
    var restoredFromSnapshot: bool
    var cpu: Vcpu
    var host: Host

    ghost predicate Valid()
      reads this, openFiles
    {
      openFiles.Length == MAX_OPEN_FILES && nOpenFiles <= MAX_OPEN_FILES
    }

    ghost function State(): Vm
      requires Valid()
      reads this, openFiles, mem
    {
      Vm(mem[..], openFiles[..nOpenFiles], restoredFromSnapshot, host)
    }

    constructor (mem: array<byte>, openFiles: array<GuestFile>, cpu: Vcpu, host: Host)
      requires openFiles.Length == MAX_OPEN_FILES
      ensures Valid() && State() == Vm(mem[..], [], false, host)
      ensures this.mem == mem && this.openFiles == openFiles && this.cpu == cpu
    {
      this.mem, this.openFiles, this.cpu, this.host := mem, openFiles, cpu, host;
      nOpenFiles, restoredFromSnapshot := 0, false;
    }

    // ---- the table ----

    /** The scan for a guest fd that the handler makes in lookup, write and close. */
    method Scan(g: int) returns (i: nat)
      requires Valid()
      ensures i == Find(State().open, g)
    {
      i := 0;
      while i < nOpenFiles && openFiles[i].guestFd != g
        invariant i <= nOpenFiles
        invariant forall k :: 0 <= k < i ==> openFiles[k].guestFd != g
      {
        i := i + 1;
      }
      FindStops(openFiles[..nOpenFiles], g, i);
    }

    /** get_host_fd_from_guest_fd */
    method GetHostFd(g: int) returns (h: int)
      requires Valid()
      ensures h == HostFd(State().open, g)
    {
      if 0 <= g <= 2 { return g; }
      var i := Scan(g);
      return if i < nOpenFiles then openFiles[i].hostFd else -1;
    }

    // ---- the file syscalls ----

    /** case 1: write(fd, addr, len), which the host answers with ret. */
    method WriteCall(fd: nat, addr: nat, len: nat, ret: int) returns (rax: nat)
      requires Valid() && CanWrite(State(), fd, addr, len, ret)
      modifies this, openFiles
      ensures Valid() && (State(), rax) == SysWrite(old(State()), fd, addr, len, ret)
      ensures forall h :: Answered(old(State()).open, fd, h) ==> WriteDone(old(State()), State(), h, addr, ret, rax)
      ensures cpu == old(cpu)
    {
      ghost var was := State();
      var writeFd := GetHostFd(ToInt(fd));
      if writeFd < 0 {
        rax := ToU64(-1);
      } else {
        host := HostWrite(host, writeFd, Written(mem[..], addr, ret));
        rax := ToU64(ret);
        var i := Scan(writeFd);
        if i < nOpenFiles {
          if openFiles[i].offset == 0 {
            openFiles[i] := openFiles[i].(startAddr := addr % U32);
          }
          openFiles[i] := openFiles[i].(offset := (openFiles[i].offset + rax) % U64);
          assert openFiles[..nOpenFiles] == was.open[i := Advanced(was.open[i], addr, ret)];
        }
      }
      WriteAnyFd(was, State(), fd, addr, len, ret, rax);
    }

    /** case 2: open(path, flags, mode), which the host answers with fd. */
    method OpenCall(path: nat, flags: nat, mode: nat, fd: int) returns (rax: nat)
      requires Valid() && CanOpen(State(), path, flags, fd)
      modifies this, openFiles
      ensures Valid() && (State(), rax) == SysOpen(old(State()), path, flags, mode, fd)
      ensures OpenDone(old(State()), State(), path, flags, mode, fd, rax)
      ensures cpu == old(cpu)
    {
      OpenInFull(State(), path, flags, mode, fd);
      if nOpenFiles >= MAX_OPEN_FILES { return ToU64(-1); }
      ghost var was := State();
      var name := PathAt(mem[..], path);
      host := HostOpen(host, name, ToInt(flags), fd);
      rax := ToU64(fd);
      openFiles[nOpenFiles] := GuestFile(ToInt(rax), ToInt(rax), ToInt(flags), ToInt(mode), 0, 0, StrNCpy(name));
      nOpenFiles := nOpenFiles + 1;
      assert openFiles[..nOpenFiles] == was.open + [openFiles[nOpenFiles - 1]];
    }

    /** case 3: close(fd) */
    method CloseCall(fd: nat) returns (rax: nat)
      requires Valid()
      modifies this, openFiles
      ensures Valid() && (State(), rax) == SysClose(old(State()), fd)
      ensures forall h :: Answered(old(State()).open, fd, h) ==> CloseDone(old(State()), State(), h, rax)
      ensures cpu == old(cpu)
    {
      ghost var was := State();
      var closeFd := GetHostFd(ToInt(fd));
      if closeFd < 0 {
        rax := ToU64(-1);
      } else {
        rax := ToU64(CloseAnswer(host, closeFd));
        host := HostClose(host, closeFd);
        if rax == 0 {
          var i := Scan(closeFd);
          if i < nOpenFiles {
            openFiles[i] := openFiles[nOpenFiles - 1];
            nOpenFiles := nOpenFiles - 1;
            assert openFiles[..nOpenFiles] == SwapRemove(was.open, i);
          }
        }
      }
      CloseAnyFd(was, State(), fd, rax);
    }

    // ---- save ----

    /** dump_open_files into a zeroed table. */
    method DumpOpenFiles() returns (files: seq<GuestFile>)
      requires Valid()
      ensures files == State().open + seq(MAX_OPEN_FILES - nOpenFiles, _ => NoFile)
    {
      files := seq(MAX_OPEN_FILES, _ => NoFile);
      for i := 0 to nOpenFiles
        invariant |files| == MAX_OPEN_FILES
        invariant forall k :: 0 <= k < MAX_OPEN_FILES ==> files[k] == if k < i then openFiles[k] else NoFile
      {
        files := files[i := openFiles[i]];
      }
    }

    /** dump_msrs into zeroed entries: name the wanted MSRs, then read their values. */
    method DumpMsrEntries() returns (entries: seq<MsrEntry>)
      requires forall i :: i in WANTED_MSRS ==> i in cpu.msrs
      ensures entries == DumpMsrs(cpu)
      ensures |entries| == 32 && HoldsMsr(entries[0], cpu, 0xC000_0080) && HoldsMsr(entries[1], cpu, 0xC000_0081)
      ensures HoldsMsr(entries[2], cpu, 0xC000_0082)
      ensures forall i :: 3 <= i < 32 ==> entries[i] == MsrEntry(0, 0, 0)
    {
      entries := seq(MAX_MSR_ENTRIES, _ => NoEntry);
      for i := 0 to |WANTED_MSRS|
        invariant |entries| == MAX_MSR_ENTRIES
        invariant forall k :: 0 <= k < MAX_MSR_ENTRIES ==>
          entries[k] == if k < i then MsrEntry(WANTED_MSRS[k], 0, 0) else NoEntry
      {
        entries := entries[i := entries[i].(index := WANTED_MSRS[i])];
      }
      for i := 0 to |WANTED_MSRS|
        invariant |entries| == MAX_MSR_ENTRIES
        invariant forall k :: 0 <= k < MAX_MSR_ENTRIES ==>
          entries[k] ==
            if k < |WANTED_MSRS| then MsrEntry(WANTED_MSRS[k], 0, if k < i then cpu.msrs[WANTED_MSRS[k]] else 0)
            else NoEntry
      {
        entries := entries[i := entries[i].(data := cpu.msrs[entries[i].index])];
      }
    }

    /** save_vm_image, up to writing the image out. */
    method SaveVmImage(base: nat) returns (image: VmImage)
      requires Valid() && CanSave(cpu, mem[..], State().open)
      ensures image == SaveImage(cpu, mem[..], base, State().open)
      ensures ImageOf(image, cpu, mem[..], base, State().open)
    {
      SavedImage(cpu, mem[..], base, State().open);
      var entries := DumpMsrEntries();
      var files := DumpOpenFiles();
      var memory := mem[..] + seq(MAX_MEMORY_SIZE - mem.Length, _ => 0);
      image := VmImage(cpu.regs, cpu.sregs, |WANTED_MSRS|, entries, cpu.fpu,
                       mem.Length, base, memory, nOpenFiles, files);
    }

    /** The dispatch on rax. `answer` is what the host gives the system call made on the way. */
    method Handle(rax: nat, rdi: nat, rsi: nat, rdx: nat, answer: int, base: nat) returns (o: Outcome)
      requires Valid() && (rax == 400 ==> CanSave(cpu, mem[..], State().open))
      requires rax == 1 ==> CanWrite(State(), rdi, rsi, rdx, answer)
      requires rax == 2 ==> CanOpen(State(), rdi, rsi, answer)
      modifies this, openFiles
      ensures Valid() && cpu == old(cpu)
      ensures rax == 1 ==>
                var (vm', r) := SysWrite(old(State()), rdi, rsi, rdx, answer); State() == vm' && o == Resume(r)
      ensures rax == 2 ==>
                var (vm', r) := SysOpen(old(State()), rdi, rsi, rdx, answer); State() == vm' && o == Resume(r)
      ensures rax == 3 ==> (State(), o) == (SysClose(old(State()), rdi).0, Resume(SysClose(old(State()), rdi).1))
      ensures rax == 60 ==> State() == old(State()) && o == Exit(rdi)
      ensures rax == 400 && old(restoredFromSnapshot) ==>
                State() == Step(old(State()), IgnoredSave).0 == old(State()).(restored := false) && o == Resume(rax)
      ensures rax == 400 && !old(restoredFromSnapshot) ==>
                State() == old(State()) && o == SavedAndExit(SaveImage(cpu, mem[..], base, State().open))
      ensures rax !in {1, 2, 3, 60, 400} ==> State() == old(State()) && o == Resume(rax)
    {
      var ret := rax;
      if rax == 1 {
        ret := WriteCall(rdi, rsi, rdx, answer);
      } else if rax == 2 {
        ret := OpenCall(rdi, rsi, rdx, answer);
      } else if rax == 3 {
        ret := CloseCall(rdi);
      } else if rax == 60 {
        return Exit(rdi);
      } else if rax == 400 {
        if !restoredFromSnapshot {
          var image := SaveVmImage(base);
          return SavedAndExit(image);
        }
        restoredFromSnapshot := false;
      }
      return Resume(ret);
    }

    // ---- restore ----

    /** restore_from_image on a blank VM; the host answers each open and write in turn. */
    method RestoreFromImage(image: VmImage, answers: seq<Answer>)
      requires Valid() && CanRestoreImage(image, mem[..]) && image.nOpenFiles <= MAX_OPEN_FILES &&
               |answers| == image.nOpenFiles
      modifies this, openFiles, mem
      ensures Valid() && restoredFromSnapshot
      ensures var (cpu', mem', es) := old(RestoreImage(image, cpu, mem[..]));
              cpu == cpu' && State() == Restored(old(host), mem', es, answers)
    {
      ghost var target := RestoreImage(image, cpu, mem[..]);
      ghost var h := host;
      cpu := Vcpu(image.registers, image.sregisters, SetMsrs(cpu.msrs, image.entries, image.nmsrs), image.fpu);
      forall k | 0 <= k < image.memorySize { mem[k] := image.guestMemory[k]; }
      assert mem[..] == target.1;
      nOpenFiles := image.nOpenFiles;
      ReopenFiles(image.openFiles[..image.nOpenFiles], answers);
      restoredFromSnapshot := true;
    }

    /** The loop of restore_from_image. */
    method ReopenFiles(es: seq<GuestFile>, answers: seq<Answer>)
      requires Valid() && nOpenFiles == |es| == |answers|
      modifies this`host, openFiles
      ensures Valid()
      ensures (host, openFiles[..nOpenFiles]) == ReopenAll(old(host), mem[..], es, answers, |es|)
    {
      var i := 0;
      while i < nOpenFiles
        invariant 0 <= i <= nOpenFiles
        invariant Reopened(old(host), es, answers, i)
      {
        ReopenFile(i, es[i], answers[i], old(host), es, answers);
        i := i + 1;
      }
    }

    /** The first n entries have been reopened, beginning on host h. */
    ghost predicate Reopened(h: Host, es: seq<GuestFile>, answers: seq<Answer>, n: nat)
      requires n <= |es| == |answers| && n <= openFiles.Length
      reads this, openFiles, mem
    {
      (host, openFiles[..n]) == ReopenAll(h, mem[..], es, answers, n)
    }

    /** One round: reopen an entry's file and write its bytes back. */
    method ReopenFile(i: nat, e: GuestFile, a: Answer, ghost h: Host, ghost es: seq<GuestFile>,
                      ghost answers: seq<Answer>)
      requires Valid() && i < nOpenFiles && i < |es| == |answers| && e == es[i] && a == answers[i]
      requires Reopened(h, es, answers, i)
      modifies this`host, openFiles
      ensures Valid() && Reopened(h, es, answers, i + 1)
    {
      ghost var before, open := host, openFiles[..i];
      openFiles[i] := e;
      openFiles[i] := e.(hostFd := a.fd);
      host := HostOpen(host, NameOf(e), e.flags, a.fd);
      host := HostWrite(host, openFiles[i].hostFd, Written(mem[..], e.startAddr, a.ret));
      ReopenNext(h, mem[..], es, answers, i, before, open, host, openFiles[i]);
      assert openFiles[..i + 1] == open + [openFiles[i]];
    }
  }

  lemma ReopenNext(h: Host, mem: seq<byte>, es: seq<GuestFile>, answers: seq<Answer>, i: nat,
                   before: Host, open: seq<GuestFile>, after: Host, e: GuestFile)
    requires i < |es| == |answers| && ReopenAll(h, mem, es, answers, i) == (before, open)
    requires (after, e) == Reopen(before, mem, es[i], answers[i])
    ensures ReopenAll(h, mem, es, answers, i + 1) == (after, open + [e])
  {}

  lemma {:induction false} FindStops(open: seq<GuestFile>, g: int, i: nat)
    requires i <= |open| && (forall k :: 0 <= k < i ==> open[k].guestFd != g) && (i < |open| ==> open[i].guestFd == g)
    ensures Find(open, g) == i
  {
    if i > 0 {
      forall k | 0 <= k < i - 1 ensures open[1..][k].guestFd != g { assert open[1..][k] == open[k + 1]; }
      FindStops(open[1..], g, i - 1);
    }
  }
}
