/** The host operating system as the VMM sees it: named files, and descriptors with a position.
    What the host may answer is a parameter of each call. */
module HostFiles {
  import opened Words

  type Name = seq<byte>

  /** A descriptor is a standard stream, or an open file with its position. */
  datatype Descriptor = Stream | File(name: Name, pos: nat)

  datatype Host = Host(files: map<Name, seq<byte>>, fds: map<int, Descriptor>)

  const O_CREAT: nat := 0x40
  const O_TRUNC: nat := 0x200
  const POSITION_LIMIT: nat := 0x8000_0000_0000_0000

  predicate HasFlag(flags: int, bit: nat)
    requires bit > 0
  {
    flags / bit % 2 == 1
  }

  /** What open may return: -1, or a descriptor number not in use; a missing file needs O_CREAT. */
  predicate OpenAnswer(h: Host, name: Name, flags: int, fd: int) {
    fd == -1 || (0 <= fd < 0x8000_0000 && fd !in h.fds && (name in h.files || HasFlag(flags, O_CREAT)))
  }

  function HostOpen(h: Host, name: Name, flags: int, fd: int): Host {
    if fd == -1 then h else
      var content := if name in h.files && !HasFlag(flags, O_TRUNC) then h.files[name] else [];
      Host(h.files[name := content], h.fds[fd := File(name, 0)])
  }

  /** What write of n bytes may return: -1, or a count of bytes actually written, all of them
      inside the available bytes; a number that is not open gets -1. */
  predicate WriteAnswer(h: Host, fd: int, n: nat, available: nat, ret: int) {
    && -1 <= ret <= n
    && (ret > 0 ==> ret <= available)
    && (fd !in h.fds ==> ret == -1)
    && (fd in h.fds && h.fds[fd].File? && ret > 0 ==> h.fds[fd].pos + ret < POSITION_LIMIT)
  }

  /** The first n bytes of a file, zero past its end. */
  function Prefix(content: seq<byte>, n: nat): (p: seq<byte>)
    ensures |p| == n
  {
    if n <= |content| then content[..n] else content + seq(n - |content|, _ => 0)
  }

  /** A file after data has been written at a position. */
  function Splice(content: seq<byte>, pos: nat, data: seq<byte>): seq<byte> {
    Prefix(content, pos) + data + if pos + |data| < |content| then content[pos + |data|..] else []
  }

  function ContentOf(h: Host, name: Name): seq<byte> {
    if name in h.files then h.files[name] else []
  }

  /** write, with data the bytes that were written. */
  function HostWrite(h: Host, fd: int, data: seq<byte>): Host {
    if fd !in h.fds || h.fds[fd].Stream? || data == [] then h else
      var File(name, pos) := h.fds[fd];
      Host(h.files[name := Splice(ContentOf(h, name), pos, data)], h.fds[fd := File(name, pos + |data|)])
  }

  function CloseAnswer(h: Host, fd: int): int {
    if fd in h.fds then 0 else -1
  }

  function HostClose(h: Host, fd: int): Host {
    h.(fds := h.fds - {fd})
  }

  // ---- what a descriptor shows ----

  /** Name, position, and the bytes up to the position. */
  datatype View = Closed | Std | At(name: Name, pos: nat, bytes: seq<byte>)

  function ViewOf(h: Host, fd: int): View {
    if fd !in h.fds then Closed
    else match h.fds[fd]
      case Stream => Std
      case File(name, pos) => At(name, pos, Prefix(ContentOf(h, name), pos))
  }

  function Extended(v: View, data: seq<byte>): View {
    match v
    case At(name, pos, bytes) => At(name, pos + |data|, bytes + data)
    case _ => v
  }

  lemma SplicePrefix(content: seq<byte>, pos: nat, data: seq<byte>)
    ensures Prefix(Splice(content, pos, data), pos + |data|) == Prefix(content, pos) + data
  {}

  /** A write extends what its own descriptor shows by the bytes written, and changes no descriptor
      of another file. */
  lemma WriteViews(h: Host, fd: int, data: seq<byte>, other: int)
    ensures ViewOf(HostWrite(h, fd, data), fd) == Extended(ViewOf(h, fd), data)
    ensures other != fd && (fd in h.fds && other in h.fds && h.fds[fd].File? && h.fds[other].File? ==>
            h.fds[fd].name != h.fds[other].name) ==>
            ViewOf(HostWrite(h, fd, data), other) == ViewOf(h, other)
  {
    if fd in h.fds && h.fds[fd].File? {
      SplicePrefix(ContentOf(h, h.fds[fd].name), h.fds[fd].pos, data);
      if data == [] {
        assert Prefix(ContentOf(h, h.fds[fd].name), h.fds[fd].pos) + data ==
               Prefix(ContentOf(h, h.fds[fd].name), h.fds[fd].pos);
      }
    }
  }

  lemma OpenViews(h: Host, name: Name, flags: int, fd: int, other: int)
    requires OpenAnswer(h, name, flags, fd) && fd != -1
    ensures ViewOf(HostOpen(h, name, flags, fd), fd) == At(name, 0, [])
    ensures other in h.fds && h.fds[other].File? ==> h.fds[other].name != name ==>
            ViewOf(HostOpen(h, name, flags, fd), other) == ViewOf(h, other)
    ensures other != fd && (other !in h.fds || h.fds[other].Stream?) ==>
            ViewOf(HostOpen(h, name, flags, fd), other) == ViewOf(h, other)
  {}

  lemma CloseViews(h: Host, fd: int, other: int)
    ensures ViewOf(HostClose(h, fd), other) == if other == fd then Closed else ViewOf(h, other)
  {}
}
