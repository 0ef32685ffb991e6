/** restore_from_image: reopening the files and replaying their bytes from guest memory. */
module Restore {
  import opened Words
  import opened HostFiles
  import opened FileTable
  import opened TableInvariant
  import opened Replay

  /** What the host answers to the open and the write of one entry. */
  datatype Answer = Answer(fd: int, ret: int)

  predicate CanReopen(h: Host, mem: seq<byte>, e: GuestFile, a: Answer) {
    && OpenAnswer(h, NameOf(e), e.flags, a.fd)
    && WriteAnswer(HostOpen(h, NameOf(e), e.flags, a.fd), a.fd, e.offset, Available(mem, e.startAddr), a.ret)
  }

  /** One round of the loop over the saved entries. */
  function Reopen(h: Host, mem: seq<byte>, e: GuestFile, a: Answer): (Host, GuestFile) {
    (HostWrite(HostOpen(h, NameOf(e), e.flags, a.fd), a.fd, Written(mem, e.startAddr, a.ret)), e.(hostFd := a.fd))
  }

  predicate CanReopenAll(h: Host, mem: seq<byte>, es: seq<GuestFile>, answers: seq<Answer>, n: nat)
    requires n <= |es| == |answers|
  {
    n == 0 || (
      && CanReopenAll(h, mem, es, answers, n - 1)
      && CanReopen(ReopenAll(h, mem, es, answers, n - 1).0, mem, es[n - 1], answers[n - 1]))
  }

  /** The host and the table after the first n entries. */
  function ReopenAll(h: Host, mem: seq<byte>, es: seq<GuestFile>, answers: seq<Answer>, n: nat)
    : (r: (Host, seq<GuestFile>))
    requires n <= |es| == |answers|
    ensures |r.1| == n
  {
    if n == 0 then (h, []) else
      var (before, open) := ReopenAll(h, mem, es, answers, n - 1);
      var (after, e) := Reopen(before, mem, es[n - 1], answers[n - 1]);
      (after, open + [e])
  }

  /** Every file reopens and takes all its bytes back. */
  predicate AllReopen(es: seq<GuestFile>, answers: seq<Answer>) {
    |answers| == |es| && forall i :: 0 <= i < |es| ==> answers[i].fd != -1 && answers[i].ret == es[i].offset
  }

  predicate CanRestore(h: Host, mem: seq<byte>, es: seq<GuestFile>, answers: seq<Answer>) {
    |answers| == |es| && CanReopenAll(h, mem, es, answers, |es|)
  }

  /** The VM a restore makes on host h from saved memory and entries. */
  function Restored(h: Host, mem: seq<byte>, es: seq<GuestFile>, answers: seq<Answer>): Vm
    requires |answers| == |es|
  {
    var (host, open) := ReopenAll(h, mem, es, answers, |es|);
    Vm(mem, open, true, host)
  }

  // ---- what the reopened files show ----

  /** The bytes a restore writes back for an entry. */
  function Replayed(mem: seq<byte>, e: GuestFile): seq<byte> {
    Written(mem, e.startAddr, e.offset)
  }

  /** Entry i of the image has been reopened in host h' and table `open`. */
  ghost predicate ReopenedAs(h: Host, h': Host, mem: seq<byte>, open: seq<GuestFile>, es: seq<GuestFile>,
                             answers: seq<Answer>, i: nat)
    requires i < |es| == |answers| && i < |open|
  {
    && open[i] == es[i].(hostFd := answers[i].fd)
    && answers[i].fd in h'.fds && answers[i].fd !in h.fds && answers[i].fd >= 0
    && h'.fds[answers[i].fd] == File(NameOf(es[i]), es[i].offset)
    && ViewOf(h', answers[i].fd) == At(NameOf(es[i]), es[i].offset, Replayed(mem, es[i]))
    && (es[i].offset > 0 ==> es[i].startAddr + es[i].offset <= |mem|)
  }

  /** Descriptor fd is a stream or a file of another name. */
  predicate Elsewhere(h: Host, fd: int, name: Name) {
    fd in h.fds && (h.fds[fd].File? ==> h.fds[fd].name != name)
  }

  lemma ReopenOne(h: Host, mem: seq<byte>, e: GuestFile, a: Answer, other: int)
    requires CanReopen(h, mem, e, a) && a.fd != -1 && a.ret == e.offset
    ensures var h' := Reopen(h, mem, e, a).0;
            && a.fd !in h.fds && a.fd >= 0 && a.fd in h'.fds
            && h'.fds[a.fd] == File(NameOf(e), e.offset)
            && ViewOf(h', a.fd) == At(NameOf(e), e.offset, Replayed(mem, e))
            && (e.offset > 0 ==> e.startAddr + e.offset <= |mem|)
            && h'.fds == h.fds[a.fd := File(NameOf(e), e.offset)]
            && (Elsewhere(h, other, NameOf(e)) ==> ViewOf(h', other) == ViewOf(h, other))
  {
    var h1 := HostOpen(h, NameOf(e), e.flags, a.fd);
    OpenViews(h, NameOf(e), e.flags, a.fd, other);
    WriteViews(h1, a.fd, Written(mem, e.startAddr, a.ret), a.fd);
    WriteViews(h1, a.fd, Written(mem, e.startAddr, a.ret), other);
  }

  lemma ReopenStays(h: Host, mem: seq<byte>, es: seq<GuestFile>, answers: seq<Answer>, n: nat, i: nat)
    requires i < n < |es| == |answers| && AllDistinct(es) && AllReopen(es, answers) &&
             CanReopenAll(h, mem, es, answers, n + 1)
    requires ReopenedAs(h, ReopenAll(h, mem, es, answers, n).0, mem, ReopenAll(h, mem, es, answers, n).1, es,
             answers, i)
    ensures ReopenedAs(h, ReopenAll(h, mem, es, answers, n + 1).0, mem, ReopenAll(h, mem, es, answers, n + 1).1, es,
            answers, i)
  {
    DifferentFds(es, i, n);
    ReopenOne(ReopenAll(h, mem, es, answers, n).0, mem, es[n], answers[n], answers[i].fd);
  }

  /** After round n every file up to it shows the bytes replayed for it. */
  lemma {:induction false} ReopenedViews(h: Host, mem: seq<byte>, es: seq<GuestFile>, answers: seq<Answer>, n: nat,
                                         i: nat)
    requires i <= n < |es| == |answers| && AllDistinct(es) && AllReopen(es, answers) &&
             CanReopenAll(h, mem, es, answers, n + 1)
    ensures ReopenedAs(h, ReopenAll(h, mem, es, answers, n + 1).0, mem, ReopenAll(h, mem, es, answers, n + 1).1, es,
            answers, i)
    decreases n
  {
    assert CanReopenAll(h, mem, es, answers, n);
    if i < n {
      ReopenedViews(h, mem, es, answers, n - 1, i);
      ReopenStays(h, mem, es, answers, n, i);
    } else {
      ReopenedFds(h, mem, es, answers, n);
      ReopenLast(h, mem, es, answers, n);
    }
  }

  lemma {:induction false} CanReopenFewer(h: Host, mem: seq<byte>, es: seq<GuestFile>, answers: seq<Answer>, n: nat,
                                          k: nat)
    requires k <= n <= |es| == |answers| && CanReopenAll(h, mem, es, answers, n)
    ensures CanReopenAll(h, mem, es, answers, k)
    decreases n
  {
    if k < n { CanReopenFewer(h, mem, es, answers, n - 1, k); }
  }

  /** The reopened descriptors are different from each other. */
  lemma ReopenedDistinct(h: Host, mem: seq<byte>, es: seq<GuestFile>, answers: seq<Answer>, i: nat, j: nat)
    requires i < j < |es| == |answers| && AllDistinct(es) && AllReopen(es, answers) && CanRestore(h, mem, es, answers)
    ensures answers[i].fd != answers[j].fd
  {
    CanReopenFewer(h, mem, es, answers, |es|, j + 1);
    StillOpen(h, mem, es, answers, i, j);
    assert CanReopen(ReopenAll(h, mem, es, answers, j).0, mem, es[j], answers[j]);
  }

  lemma StillOpen(h: Host, mem: seq<byte>, es: seq<GuestFile>, answers: seq<Answer>, i: nat, n: nat)
    requires i < n <= |es| == |answers| && AllDistinct(es) && AllReopen(es, answers)
    requires CanReopenAll(h, mem, es, answers, n)
    ensures answers[i].fd in ReopenAll(h, mem, es, answers, n).0.fds
  {
    ReopenedViews(h, mem, es, answers, n - 1, i);
  }

  lemma ReopenLast(h: Host, mem: seq<byte>, es: seq<GuestFile>, answers: seq<Answer>, n: nat)
    requires n < |es| == |answers| && AllReopen(es, answers) && CanReopenAll(h, mem, es, answers, n + 1)
    requires KnownFd(h, ReopenAll(h, mem, es, answers, n).0, answers, n, answers[n].fd)
    ensures ReopenedAs(h, ReopenAll(h, mem, es, answers, n + 1).0, mem, ReopenAll(h, mem, es, answers, n + 1).1, es,
            answers, n)
  {
    ReopenOne(ReopenAll(h, mem, es, answers, n).0, mem, es[n], answers[n], 0);
  }

  /** Descriptor fd was open before, or is one of the first n reopened. */
  ghost predicate KnownFd(h: Host, h': Host, answers: seq<Answer>, n: nat, fd: int)
    requires n <= |answers|
  {
    && (fd in h.fds ==> fd in h'.fds && h'.fds[fd] == h.fds[fd])
    && (fd in h'.fds && fd !in h.fds ==> exists i :: 0 <= i < n && answers[i].fd == fd)
  }

  lemma {:induction false} ReopenedFds(h: Host, mem: seq<byte>, es: seq<GuestFile>, answers: seq<Answer>, n: nat)
    requires n <= |es| == |answers| && AllReopen(es, answers) && CanReopenAll(h, mem, es, answers, n)
    ensures forall fd :: KnownFd(h, ReopenAll(h, mem, es, answers, n).0, answers, n, fd)
    decreases n
  {
    if n > 0 {
      ReopenedFds(h, mem, es, answers, n - 1);
      var before, after := ReopenAll(h, mem, es, answers, n - 1).0, ReopenAll(h, mem, es, answers, n).0;
      ReopenOne(before, mem, es[n - 1], answers[n - 1], 0);
      forall fd ensures KnownFd(h, after, answers, n, fd) {
        assert KnownFd(h, before, answers, n - 1, fd);
        if fd == answers[n - 1].fd { assert answers[n - 1].fd == fd; }
      }
    }
  }

  /** Cold migration of one file, exactly: on any host, the reopened descriptor is at the saved
      position of the saved file, and it shows the bytes the saved VM's descriptor showed if and
      only if guest memory at start_addr still held them. */
  lemma MigratedFileExactly(vm: Vm, h: Host, answers: seq<Answer>, i: nat)
    requires TableInv(vm) && AllReopen(vm.open, answers) && CanRestore(h, vm.mem, vm.open, answers) && i < |vm.open|
    ensures var vm' := Restored(h, vm.mem, vm.open, answers);
            && vm'.open[i] == vm.open[i].(hostFd := answers[i].fd)
            && answers[i].fd in vm'.host.fds && vm.open[i].hostFd in vm.host.fds
            && vm'.host.fds[answers[i].fd] == vm.host.fds[vm.open[i].hostFd]
            && (ViewOf(vm'.host, answers[i].fd) == ViewOf(vm.host, vm.open[i].hostFd) <==> Replayable(vm, i))
  {
    ReopenedViews(h, vm.mem, vm.open, answers, |vm.open| - 1, i);
    assert EntryOk(vm, i);
  }
}
