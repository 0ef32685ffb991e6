/** The guest's open files and the file syscalls of syscall_handler. */
module FileTable {
  import opened Words
  import opened HostFiles

  const MAX_OPEN_FILES: nat := 64
  const MAX_PATH_LEN: nat := 256
  const U64: nat := 0x1_0000_0000_0000_0000
  const U32: nat := 0x1_0000_0000

  /** guest_file */
  datatype GuestFile = GuestFile(guestFd: int, hostFd: int, flags: int, mode: int, startAddr: nat, offset: nat,
                                 path: seq<byte>)

  /** The fields are within their C types. */
  predicate FileFits(f: GuestFile) {
    && -0x8000_0000 <= f.guestFd < 0x8000_0000 && -0x8000_0000 <= f.hostFd < 0x8000_0000
    && -0x8000_0000 <= f.flags < 0x8000_0000 && -0x8000_0000 <= f.mode < 0x8000_0000
    && f.startAddr < U32 && f.offset < U64 && |f.path| == MAX_PATH_LEN
  }

  /** Guest memory, the entries of open_files in use, the flag set by a restore, and the host. */
  datatype Vm = Vm(mem: seq<byte>, open: seq<GuestFile>, restored: bool, host: Host)

  // ---- C conversions ----

  /** A 64-bit register read as an int. */
  function ToInt(x: nat): (r: int)
    ensures -0x8000_0000 <= r < 0x8000_0000
  {
    var w := x % U32;
    if w < 0x8000_0000 then w else w - U32
  }

  /** An int or ssize_t stored in a 64-bit register. */
  function ToU64(r: int): (x: nat)
    requires -0x8000_0000_0000_0000 <= r < 0x8000_0000_0000_0000
    ensures x < U64
  {
    if r < 0 then r + U64 else r
  }

  lemma IntRoundTrip(r: int)
    requires -0x8000_0000 <= r < 0x8000_0000
    ensures ToInt(ToU64(r)) == r
  {
    if r < 0 { assert ToU64(r) == 0xFFFF_FFFF * U32 + (r + U32); }
  }

  // ---- strings ----

  /** The bytes up to the first NUL, or all of them. */
  function UpToNul(s: seq<byte>): (r: seq<byte>)
    ensures |r| <= |s|
  {
    if s == [] || s[0] == 0 then [] else [s[0]] + UpToNul(s[1..])
  }

  /** strncpy into the path field. */
  function StrNCpy(name: seq<byte>): (f: seq<byte>)
    ensures |f| == MAX_PATH_LEN
  {
    if |name| <= MAX_PATH_LEN then name + seq(MAX_PATH_LEN - |name|, _ => 0) else name[..MAX_PATH_LEN]
  }

  lemma {:induction false} UpToNulIs(s: seq<byte>, n: nat)
    requires n < |s| && s[n] == 0 && forall k :: 0 <= k < n ==> s[k] != 0
    ensures UpToNul(s) == s[..n]
  {
    if n > 0 {
      UpToNulIs(s[1..], n - 1);
      assert s[..n] == [s[0]] + s[1..][..n - 1];
    }
  }

  lemma {:induction false} NoNulInside(s: seq<byte>, k: nat)
    requires k < |UpToNul(s)|
    ensures UpToNul(s)[k] != 0
  {
    if k > 0 { NoNulInside(s[1..], k - 1); }
  }

  /** The path field holds the path as a C string exactly when the path is shorter than the field;
      from 256 bytes on it is cut, or has no terminator. */
  lemma PathKeptExactly(name: seq<byte>)
    requires forall k :: 0 <= k < |name| ==> name[k] != 0
    ensures 0 in StrNCpy(name) && UpToNul(StrNCpy(name)) == name <==> |name| < MAX_PATH_LEN
  {
    var f := StrNCpy(name);
    if |name| < MAX_PATH_LEN {
      assert f[|name|] == 0;
      UpToNulIs(f, |name|);
      assert f[..|name|] == name;
    } else if 0 in f {
      var k :| 0 <= k < |f| && f[k] == 0;
      assert name[k] != 0;
    }
  }

  // ---- the table ----

  /** The first entry with a guest fd, or the length of the table. */
  function Find(open: seq<GuestFile>, g: int): (i: nat)
    ensures i <= |open| && (i < |open| ==> open[i].guestFd == g)
  {
    if open == [] || open[0].guestFd == g then 0 else 1 + Find(open[1..], g)
  }

  lemma {:induction false} FindIsFirst(open: seq<GuestFile>, g: int, k: nat)
    requires k < |open| && open[k].guestFd == g
    ensures Find(open, g) <= k
  {
    if k > 0 && open[0].guestFd != g { FindIsFirst(open[1..], g, k - 1); }
  }

  /** get_host_fd_from_guest_fd */
  function HostFd(open: seq<GuestFile>, g: int): int {
    if 0 <= g <= 2 then g
    else if Find(open, g) < |open| then open[Find(open, g)].hostFd
    else -1
  }

  function Lookup(open: seq<GuestFile>, g: int): Option<GuestFile> {
    if Find(open, g) < |open| then Some(open[Find(open, g)]) else None
  }

  // ---- write ----

  /** What a write does to the entry it finds: start_addr on a first write, and the offset, both
      in the width of their fields. */
  function Advanced(e: GuestFile, addr: nat, ret: int): GuestFile
    requires -0x8000_0000_0000_0000 <= ret < 0x8000_0000_0000_0000
  {
    e.(startAddr := if e.offset == 0 then addr % U32 else e.startAddr, offset := (e.offset + ToU64(ret)) % U64)
  }

  function Available(mem: seq<byte>, addr: nat): nat {
    if addr <= |mem| then |mem| - addr else 0
  }

  /** The bytes a write that answered ret has taken; WriteAnswer keeps them inside guest memory. */
  function Written(mem: seq<byte>, addr: nat, ret: int): seq<byte> {
    if ret <= 0 || ret > Available(mem, addr) then [] else mem[addr .. addr + ret]
  }

  /** ret is a count or -1, and what the host may answer if the handler gets as far as asking it. */
  predicate CanWrite(vm: Vm, fd: nat, addr: nat, len: nat, ret: int) {
    && -1 <= ret < POSITION_LIMIT
    && (HostFd(vm.open, ToInt(fd)) >= 0 ==>
        WriteAnswer(vm.host, HostFd(vm.open, ToInt(fd)), len, Available(vm.mem, addr), ret))
  }

  /** case 1: the state afterwards and the value of rax. The entry is searched by the host fd. */
  function SysWrite(vm: Vm, fd: nat, addr: nat, len: nat, ret: int): (Vm, nat)
    requires CanWrite(vm, fd, addr, len, ret)
  {
    var w := HostFd(vm.open, ToInt(fd));
    if w < 0 then (vm, ToU64(-1)) else
      var i := Find(vm.open, w);
      var open := if i < |vm.open| then vm.open[i := Advanced(vm.open[i], addr, ret)] else vm.open;
      (vm.(open := open, host := HostWrite(vm.host, w, Written(vm.mem, addr, ret))), ToU64(ret))
  }

  // ---- open ----

  /** The path argument: the string at a guest address. */
  function PathAt(mem: seq<byte>, addr: nat): Name {
    if addr <= |mem| then UpToNul(mem[addr..]) else []
  }

  predicate CanOpen(vm: Vm, path: nat, flags: nat, fd: int) {
    |vm.open| < MAX_OPEN_FILES ==> OpenAnswer(vm.host, PathAt(vm.mem, path), ToInt(flags), fd)
  }

  /** case 2: rax is unsigned, so the entry is added even when open returned -1. */
  function SysOpen(vm: Vm, path: nat, flags: nat, mode: nat, fd: int): (Vm, nat)
    requires CanOpen(vm, path, flags, fd)
  {
    if |vm.open| >= MAX_OPEN_FILES then (vm, ToU64(-1)) else
      var name := PathAt(vm.mem, path);
      var rax := ToU64(fd);
      var e := GuestFile(ToInt(rax), ToInt(rax), ToInt(flags), ToInt(mode), 0, 0, StrNCpy(name));
      (vm.(open := vm.open + [e], host := HostOpen(vm.host, name, ToInt(flags), fd)), rax)
  }

  // ---- close ----

  /** Entry i replaced by the last one, and the table one shorter. */
  function SwapRemove(open: seq<GuestFile>, i: nat): (r: seq<GuestFile>)
    requires i < |open|
    ensures |r| == |open| - 1
  {
    open[i := open[|open| - 1]][..|open| - 1]
  }

  /** case 3: the entry is searched by the host fd, and only when close succeeded. */
  function SysClose(vm: Vm, fd: nat): (Vm, nat) {
    var c := HostFd(vm.open, ToInt(fd));
    if c < 0 then (vm, ToU64(-1)) else
      var answer := CloseAnswer(vm.host, c);
      var i := Find(vm.open, c);
      var open := if answer == 0 && i < |vm.open| then SwapRemove(vm.open, i) else vm.open;
      (vm.(open := open, host := HostClose(vm.host, c)), ToU64(answer))
  }

  // ---- runs ----

  /** What happens to a running VM: its file syscalls with the host's answers, the guest changing
      its own memory, and a SAVE ignored because the VM was just restored. */
  datatype Event =
    | Write(fd: nat, addr: nat, len: nat, ret: int)
    | Open(path: nat, flags: nat, mode: nat, hostFd: int)
    | Close(fd: nat)
    | Compute(mem: seq<byte>)
    | IgnoredSave

  predicate Possible(vm: Vm, e: Event) {
    match e
    case Write(fd, addr, len, ret) => CanWrite(vm, fd, addr, len, ret)
    case Open(path, flags, mode, fd) => CanOpen(vm, path, flags, fd)
    case Close(fd) => true
    case Compute(mem) => |mem| == |vm.mem|
    case IgnoredSave => true
  }

  /** The state after an event, and the value the guest sees in rax (0 when there is none). */
  function Step(vm: Vm, e: Event): (Vm, nat)
    requires Possible(vm, e)
  {
    match e
    case Write(fd, addr, len, ret) => SysWrite(vm, fd, addr, len, ret)
    case Open(path, flags, mode, fd) => SysOpen(vm, path, flags, mode, fd)
    case Close(fd) => SysClose(vm, fd)
    case Compute(mem) => (vm.(mem := mem), 0)
    case IgnoredSave => (vm.(restored := false), 0)
  }

  predicate PossibleRun(vm: Vm, es: seq<Event>)
    decreases |es|
  {
    es == [] || (Possible(vm, es[0]) && PossibleRun(Step(vm, es[0]).0, es[1..]))
  }

  function Run(vm: Vm, es: seq<Event>): Vm
    requires PossibleRun(vm, es)
    decreases |es|
  {
    if es == [] then vm else Run(Step(vm, es[0]).0, es[1..])
  }
}
