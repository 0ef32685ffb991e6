/** VM_image: saving a VM, restoring it, and the image's two byte encodings. */
module VmImages {
  import opened Words
  import opened Records
  import opened FileTable

  const MAX_MEMORY_SIZE: nat := 0xF0000
  const MAX_MSR_ENTRIES: nat := 32

  /** The MSRs the code saves: EFER, STAR, LSTAR. */
  const WANTED_MSRS: seq<nat> := [0xC000_0080, 0xC000_0081, 0xC000_0082]

  datatype MsrEntry = MsrEntry(index: nat, reserved: nat, data: nat)

  /** The vCPU: the kernel's register blocks as bytes, and the MSRs by index. */
  datatype Vcpu = Vcpu(regs: seq<byte>, sregs: seq<byte>, msrs: map<nat, nat>, fpu: seq<byte>)

  datatype VmImage = VmImage(
    registers: seq<byte>, sregisters: seq<byte>, nmsrs: nat, entries: seq<MsrEntry>, fpu: seq<byte>,
    memorySize: nat, base: nat, guestMemory: seq<byte>,
    nOpenFiles: nat, openFiles: seq<GuestFile>)

  const NoEntry: MsrEntry := MsrEntry(0, 0, 0)
  const NoFile: GuestFile := GuestFile(0, 0, 0, 0, 0, 0, Zeros(MAX_PATH_LEN))

  // ---- save and restore ----

  predicate CanSave(cpu: Vcpu, mem: seq<byte>, open: seq<GuestFile>) {
    |mem| <= MAX_MEMORY_SIZE && |open| <= MAX_OPEN_FILES && forall i :: i in WANTED_MSRS ==> i in cpu.msrs
  }

  function DumpMsrs(cpu: Vcpu): (es: seq<MsrEntry>)
    requires forall i :: i in WANTED_MSRS ==> i in cpu.msrs
    ensures |es| == MAX_MSR_ENTRIES
  {
    seq(MAX_MSR_ENTRIES, k requires 0 <= k < MAX_MSR_ENTRIES =>
      if k < |WANTED_MSRS| then MsrEntry(WANTED_MSRS[k], 0, cpu.msrs[WANTED_MSRS[k]]) else NoEntry)
  }

  /** dump_registers, dump_sregisters, dump_msrs, dump_fpu, dump_memory, dump_open_files. */
  function SaveImage(cpu: Vcpu, mem: seq<byte>, base: nat, open: seq<GuestFile>): VmImage
    requires CanSave(cpu, mem, open)
  {
    VmImage(cpu.regs, cpu.sregs, |WANTED_MSRS|, DumpMsrs(cpu), cpu.fpu,
            |mem|, base, mem + Zeros(MAX_MEMORY_SIZE - |mem|),
            |open|, open + seq(MAX_OPEN_FILES - |open|, _ => NoFile))
  }

  /** KVM_SET_MSRS for the first n entries. */
  function SetMsrs(msrs: map<nat, nat>, es: seq<MsrEntry>, n: nat): map<nat, nat>
    requires n <= |es|
  {
    if n == 0 then msrs else SetMsrs(msrs, es, n - 1)[es[n - 1].index := es[n - 1].data]
  }

  predicate CanRestoreImage(img: VmImage, mem: seq<byte>) {
    img.nmsrs <= |img.entries| && img.memorySize <= |img.guestMemory| && |mem| == img.memorySize &&
        img.nOpenFiles <= |img.openFiles|
  }

  /** The vCPU and memory after restore_from_image on a blank VM, and the entries it reopens. */
  function RestoreImage(img: VmImage, cpu: Vcpu, mem: seq<byte>): (Vcpu, seq<byte>, seq<GuestFile>)
    requires CanRestoreImage(img, mem)
  {
    (Vcpu(img.registers, img.sregisters, SetMsrs(cpu.msrs, img.entries, img.nmsrs), img.fpu),
     Overwrite(mem, 0, img.guestMemory[..img.memorySize]),
     img.openFiles[..img.nOpenFiles])
  }

  /** Entry e holds the value of the MSR with an index. */
  predicate HoldsMsr(e: MsrEntry, cpu: Vcpu, index: nat) {
    index in cpu.msrs && e == MsrEntry(index, 0, cpu.msrs[index])
  }

  /** What an image of a machine holds: its register blocks; EFER, STAR and LSTAR; its memory, with its size
      and base; its table of open files; and zeros behind each of them. */
  predicate ImageOf(img: VmImage, cpu: Vcpu, mem: seq<byte>, base: nat, open: seq<GuestFile>) {
    && img.registers == cpu.regs && img.sregisters == cpu.sregs && img.fpu == cpu.fpu
    && img.nmsrs == 3 && |img.entries| == 32
    && HoldsMsr(img.entries[0], cpu, 0xC000_0080) && HoldsMsr(img.entries[1], cpu, 0xC000_0081)
    && HoldsMsr(img.entries[2], cpu, 0xC000_0082)
    && (forall i :: 3 <= i < 32 ==> img.entries[i] == MsrEntry(0, 0, 0))
    && img.memorySize == |mem| <= |img.guestMemory| == 0xF_0000 && img.base == base
    && img.guestMemory[..|mem|] == mem && (forall a :: |mem| <= a < 0xF_0000 ==> img.guestMemory[a] == 0)
    && img.nOpenFiles == |open| <= |img.openFiles| == 64
    && img.openFiles[..|open|] == open
    && (forall i :: |open| <= i < 64 ==> img.openFiles[i] == GuestFile(0, 0, 0, 0, 0, 0, seq(256, _ => 0)))
  }

  lemma SavedImage(cpu: Vcpu, mem: seq<byte>, base: nat, open: seq<GuestFile>)
    requires CanSave(cpu, mem, open)
    ensures ImageOf(SaveImage(cpu, mem, base, open), cpu, mem, base, open)
  {
    var img := SaveImage(cpu, mem, base, open);
    assert WANTED_MSRS[0] in WANTED_MSRS && WANTED_MSRS[1] in WANTED_MSRS && WANTED_MSRS[2] in WANTED_MSRS;
    assert img.guestMemory[..|mem|] == mem;
    assert img.openFiles[..|open|] == open;
  }

  /** The MSR with index i after n entries have been set: the data of the last of them that names it. */
  ghost predicate MsrAfter(msrs: map<nat, nat>, es: seq<MsrEntry>, n: nat, i: nat, msrs': map<nat, nat>)
    requires n <= |es|
  {
    && (forall k: nat :: LastNaming(es, n, i, k) ==> i in msrs' && msrs'[i] == es[k].data)
    && ((forall k :: 0 <= k < n ==> es[k].index != i) ==>
        (i in msrs' <==> i in msrs) && (i in msrs ==> msrs'[i] == msrs[i]))
  }

  predicate LastNaming(es: seq<MsrEntry>, n: nat, i: nat, k: nat)
    requires n <= |es|
  {
    k < n && es[k].index == i && forall j :: k < j < n ==> es[j].index != i
  }

  lemma {:induction false} SetMsrsAfter(msrs: map<nat, nat>, es: seq<MsrEntry>, n: nat, i: nat)
    requires n <= |es|
    ensures MsrAfter(msrs, es, n, i, SetMsrs(msrs, es, n))
  {
    if n > 0 {
      SetMsrsAfter(msrs, es, n - 1, i);
      forall k: nat | LastNaming(es, n, i, k) && k < n - 1 ensures LastNaming(es, n - 1, i, k) {}
    }
  }

  /** What a restore makes of any image: the register blocks, the MSRs its first nmsrs entries name, the first
      memory_size bytes of memory, and the first n_open_files entries. */
  lemma RestoredImage(img: VmImage, cpu: Vcpu, mem: seq<byte>)
    requires CanRestoreImage(img, mem)
    ensures var (cpu', mem', open') := RestoreImage(img, cpu, mem);
            && cpu'.regs == img.registers && cpu'.sregs == img.sregisters && cpu'.fpu == img.fpu
            && (forall i: nat :: MsrAfter(cpu.msrs, img.entries, img.nmsrs, i, cpu'.msrs))
            && mem' == img.guestMemory[..img.memorySize] && open' == img.openFiles[..img.nOpenFiles]
  {
    forall i: nat ensures MsrAfter(cpu.msrs, img.entries, img.nmsrs, i, RestoreImage(img, cpu, mem).0.msrs) {
      SetMsrsAfter(cpu.msrs, img.entries, img.nmsrs, i);
    }
  }

  /** The MSRs of a vCPU after EFER, STAR and LSTAR of another have been set in it. */
  predicate MsrsFrom(msrs': map<nat, nat>, msrs: map<nat, nat>, blank: map<nat, nat>) {
    && 0xC000_0080 in msrs && 0xC000_0081 in msrs && 0xC000_0082 in msrs
    && msrs' == blank[0xC000_0080 := msrs[0xC000_0080]][0xC000_0081 := msrs[0xC000_0081]]
                     [0xC000_0082 := msrs[0xC000_0082]]
  }

  /** Save then restore, on a VM with anything in its memory and vCPU, reproduces the registers,
      special registers, FPU, EFER, STAR and LSTAR, every byte of memory and the table of open files,
      and leaves all other MSRs as they were. */
  lemma SaveThenRestore(cpu: Vcpu, mem: seq<byte>, base: nat, open: seq<GuestFile>, blankCpu: Vcpu, blank: seq<byte>)
    requires CanSave(cpu, mem, open) && |blank| == |mem|
    ensures ImageOf(SaveImage(cpu, mem, base, open), cpu, mem, base, open)
    ensures CanRestoreImage(SaveImage(cpu, mem, base, open), blank)
    ensures var (cpu', mem', open') := RestoreImage(SaveImage(cpu, mem, base, open), blankCpu, blank);
            && cpu'.regs == cpu.regs && cpu'.sregs == cpu.sregs && cpu'.fpu == cpu.fpu
            && mem' == mem && open' == open && MsrsFrom(cpu'.msrs, cpu.msrs, blankCpu.msrs)
  {
    SavedImage(cpu, mem, base, open);
    var img := SaveImage(cpu, mem, base, open);
    assert img.guestMemory[..|mem|] == mem;
    SetThree(cpu, blankCpu.msrs, img.entries);
  }

  lemma SetThree(cpu: Vcpu, blank: map<nat, nat>, es: seq<MsrEntry>)
    requires |es| >= 3 && HoldsMsr(es[0], cpu, 0xC000_0080) && HoldsMsr(es[1], cpu, 0xC000_0081)
    requires HoldsMsr(es[2], cpu, 0xC000_0082)
    ensures MsrsFrom(SetMsrs(blank, es, 3), cpu.msrs, blank)
  {
    assert SetMsrs(blank, es, 0) == blank;
    assert SetMsrs(blank, es, 1) == blank[es[0].index := es[0].data];
    assert SetMsrs(blank, es, 2) == SetMsrs(blank, es, 1)[es[1].index := es[1].data];
  }

  // ---- records as bytes ----

  function ToU32(r: int): (x: nat)
    requires -0x8000_0000 <= r < 0x8000_0000
    ensures x < U32
  {
    if r < 0 then r + U32 else r
  }

  function FileFields(f: GuestFile): seq<Field>
    requires FileFits(f)
  {
    [Field(ToLE(ToU32(f.guestFd), 4), 4), Field(ToLE(ToU32(f.hostFd), 4), 4), Field(ToLE(ToU32(f.flags), 4), 4),
     Field(ToLE(ToU32(f.mode), 4), 4), Field(ToLE(f.startAddr, 4), 4), Field(ToLE(f.offset, 8), 8), Field(f.path, 1)]
  }

  const FILE_SHAPE: seq<(nat, Align)> := [(4, 4), (4, 4), (4, 4), (4, 4), (4, 4), (8, 8), (256, 1)]
  const FILE_SIZE: nat := 288

  /** guest_file as the 288 bytes of the C struct. */
  function EncodeFile(f: GuestFile): seq<byte>
    requires FileFits(f)
  {
    Laid(FileFields(f), 0)
  }

  function DecodeFile(bytes: seq<byte>): GuestFile {
    match Unlaid(bytes, FILE_SHAPE, 0)
    case Some(r) =>
      if |r| != 7 then NoFile else
        GuestFile(ToInt(FromLE(r[0])), ToInt(FromLE(r[1])), ToInt(FromLE(r[2])), ToInt(FromLE(r[3])),
                  FromLE(r[4]), FromLE(r[5]), r[6])
    case None => NoFile
  }

  lemma IntField(r: int)
    requires -0x8000_0000 <= r < 0x8000_0000
    ensures ToInt(FromLE(ToLE(ToU32(r), 4))) == r
  {
    Pow256Values();
    LoadAfterStore(ToU32(r), 4);
  }

  lemma FileShape(f: GuestFile)
    requires FileFits(f)
    ensures ShapeOf(FileFields(f)) == FILE_SHAPE
  {}

  lemma EncodedFileSize(f: GuestFile)
    requires FileFits(f)
    ensures |EncodeFile(f)| == FILE_SIZE
  {
    LaidSize(FileFields(f), 0);
    FileShape(f);
    FileStructSize();
  }

  lemma ConsLength(field: (nat, Align), rest: seq<(nat, Align)>, offset: nat)
    ensures LaidLength([field] + rest, offset) ==
            Padding(offset, field.1) + field.0 + LaidLength(rest, offset + Padding(offset, field.1) + field.0)
  {
    assert ([field] + rest)[1..] == rest;
  }

  lemma IntFirst(rest: seq<(nat, Align)>, offset: nat)
    requires offset % 4 == 0
    ensures LaidLength([(4, 4)] + rest, offset) == 4 + LaidLength(rest, offset + 4)
  {
    ConsLength((4, 4), rest, offset);
  }

  lemma OffsetAndPath()
    ensures LaidLength([(8, 8), (256, 1)], 20) == 268
  {
    var path: seq<(nat, Align)> := [(256, 1)];
    ConsLength((256, 1), [], 32);
    assert path == [(256, 1)] + [];
    ConsLength((8, 8), path, 20);
    assert [(8, 8), (256, 1)] == [(8, 8)] + path;
  }

  /** Five ints, four bytes of padding, a 64-bit offset and the path. */
  lemma FileStructSize()
    ensures LaidLength(FILE_SHAPE, 0) == FILE_SIZE
  {
    OffsetAndPath();
    FiveInts([(8, 8), (256, 1)]);
    assert FILE_SHAPE == [(4, 4)] + ([(4, 4)] + ([(4, 4)] + ([(4, 4)] + ([(4, 4)] + [(8, 8), (256, 1)]))));
  }

  lemma FiveInts(rest: seq<(nat, Align)>)
    ensures LaidLength([(4, 4)] + ([(4, 4)] + ([(4, 4)] + ([(4, 4)] + ([(4, 4)] + rest)))), 0) ==
            20 + LaidLength(rest, 20)
  {
    var one := [(4, 4)] + rest;
    var two := [(4, 4)] + one;
    IntFirst(rest, 16);
    IntFirst(one, 12);
    IntFirst(two, 8);
    IntFirst([(4, 4)] + two, 4);
    IntFirst([(4, 4)] + ([(4, 4)] + two), 0);
  }

  /** Every entry of the table survives its struct encoding. */
  lemma FileRoundTrip(f: GuestFile)
    requires FileFits(f)
    ensures DecodeFile(EncodeFile(f)) == f
  {
    var fs := FileFields(f);
    LaidRoundTrip(fs, 0, []);
    FileShape(f);
    assert EncodeFile(f) + [] == EncodeFile(f);
    IntField(f.guestFd);
    IntField(f.hostFd);
    IntField(f.flags);
    IntField(f.mode);
    Pow256Values();
    LoadAfterStore(f.startAddr, 4);
    LoadAfterStore(f.offset, 8);
  }

  // ---- arrays of records ----

  /** Cuts bytes into n pieces of one size. */
  function Cut(bytes: seq<byte>, size: nat, n: nat): (r: seq<seq<byte>>)
    ensures |r| == n
    decreases n
  {
    if n == 0 then []
    else if size <= |bytes| then [bytes[..size]] + Cut(bytes[size..], size, n - 1)
    else [bytes] + Cut([], size, n - 1)
  }

  lemma {:induction false} CutFlat(ss: seq<seq<byte>>, size: nat)
    requires forall i :: 0 <= i < |ss| ==> |ss[i]| == size
    ensures Cut(Flat(ss), size, |ss|) == ss && |Flat(ss)| == size * |ss|
  {
    if ss != [] {
      CutFlat(ss[1..], size);
      FlatHead(ss);
      assert size * |ss| == size + size * (|ss| - 1);
    }
  }

  lemma FlatHead(ss: seq<seq<byte>>)
    requires ss != []
    ensures |ss[0]| <= |Flat(ss)| && Flat(ss)[..|ss[0]|] == ss[0] && Flat(ss)[|ss[0]|..] == Flat(ss[1..])
  {}

  function EncodeFiles(fs: seq<GuestFile>): (r: seq<seq<byte>>)
    requires forall i :: 0 <= i < |fs| ==> FileFits(fs[i])
    ensures |r| == |fs| && forall i :: 0 <= i < |fs| ==> r[i] == EncodeFile(fs[i])
  {
    if fs == [] then [] else [EncodeFile(fs[0])] + EncodeFiles(fs[1..])
  }

  function DecodeFiles(ss: seq<seq<byte>>): (r: seq<GuestFile>)
    ensures |r| == |ss| && forall i :: 0 <= i < |ss| ==> r[i] == DecodeFile(ss[i])
  {
    if ss == [] then [] else [DecodeFile(ss[0])] + DecodeFiles(ss[1..])
  }

  predicate EntryFits(e: MsrEntry) { e.index < U32 && e.reserved < U32 && e.data < U64 }

  function EncodeMsr(e: MsrEntry): (b: seq<byte>)
    ensures |b| == 16
  {
    ToLE(e.index, 4) + ToLE(e.reserved, 4) + ToLE(e.data, 8)
  }

  function DecodeMsr(b: seq<byte>): MsrEntry
    requires |b| == 16
  {
    MsrEntry(FromLE(b[..4]), FromLE(b[4..8]), FromLE(b[8..]))
  }

  lemma MsrRoundTrip(e: MsrEntry)
    requires EntryFits(e)
    ensures DecodeMsr(EncodeMsr(e)) == e
  {
    Pow256Values();
    LoadAfterStore(e.index, 4);
    LoadAfterStore(e.reserved, 4);
    LoadAfterStore(e.data, 8);
    var b := EncodeMsr(e);
    assert b[..4] == ToLE(e.index, 4) && b[4..8] == ToLE(e.reserved, 4) && b[8..] == ToLE(e.data, 8);
  }

  function EncodeMsrs(es: seq<MsrEntry>): (r: seq<seq<byte>>)
    ensures |r| == |es| && forall i :: 0 <= i < |es| ==> r[i] == EncodeMsr(es[i])
  {
    if es == [] then [] else [EncodeMsr(es[0])] + EncodeMsrs(es[1..])
  }

  function DecodeMsrs(ss: seq<seq<byte>>): (r: seq<MsrEntry>)
    ensures |r| == |ss| && forall i :: 0 <= i < |ss| && |ss[i]| == 16 ==> r[i] == DecodeMsr(ss[i])
  {
    if ss == [] then [] else [if |ss[0]| == 16 then DecodeMsr(ss[0]) else NoEntry] + DecodeMsrs(ss[1..])
  }
}
