/** The two encodings of VM_image: the whole struct in a file, and its nine fields in a stream. */
module ImageBytes {
  import opened Words
  import opened Records
  import opened FileTable
  import opened VmImages

  const MSRS_SIZE: nat := 520      // nmsrs, padding, 32 entries of 16 bytes
  const FILES_SIZE: nat := 18432   // 64 entries of 288 bytes

  predicate ImageFits(img: VmImage) {
    && img.nmsrs < U32 && |img.entries| == MAX_MSR_ENTRIES &&
        (forall i :: 0 <= i < |img.entries| ==> EntryFits(img.entries[i]))
    && img.memorySize < U64 && img.base < U64 && |img.guestMemory| == MAX_MEMORY_SIZE
    && img.nOpenFiles < 256 && |img.openFiles| == MAX_OPEN_FILES &&
        (forall i :: 0 <= i < |img.openFiles| ==> FileFits(img.openFiles[i]))
  }

  function MsrBytes(img: VmImage): seq<byte> {
    ToLE(img.nmsrs, 4) + Zeros(4) + Flat(EncodeMsrs(img.entries))
  }

  function FileBytes(img: VmImage): seq<byte>
    requires ImageFits(img)
  {
    Flat(EncodeFiles(img.openFiles))
  }

  /** The bytes of the fields of the struct, in order, and their alignments. */
  function Raw(img: VmImage): (raw: seq<seq<byte>>)
    requires ImageFits(img)
    ensures |raw| == 9
  {
    Nine(img.registers, img.sregisters, MsrBytes(img), img.fpu, ToLE(img.memorySize, 8), ToLE(img.base, 8),
         img.guestMemory, ToLE(img.nOpenFiles, 1), FileBytes(img))
  }

  function Nine<T>(a: T, b: T, c: T, d: T, e: T, f: T, g: T, h: T, i: T): (s: seq<T>)
    ensures |s| == 9
  {
    [a, b, c, d, e, f, g, h, i]
  }

  const ALIGNS: seq<Align> := [8, 8, 8, 8, 8, 8, 1, 1, 8]

  /** The image whose fields have the given bytes. */
  function FromParts(registers: seq<byte>, sregisters: seq<byte>, msrs: seq<byte>, fpu: seq<byte>,
                     size: seq<byte>, base: seq<byte>, memory: seq<byte>, count: seq<byte>, files: seq<byte>): VmImage
    requires |msrs| == MSRS_SIZE
  {
    VmImage(registers, sregisters, FromLE(msrs[..4]), DecodeMsrs(Cut(msrs[8..], 16, MAX_MSR_ENTRIES)), fpu,
            FromLE(size), FromLE(base), memory,
            FromLE(count), DecodeFiles(Cut(files, FILE_SIZE, MAX_OPEN_FILES)))
  }

  function FromFields(raw: seq<seq<byte>>): Option<VmImage> {
    if |raw| == 9 && |raw[2]| == MSRS_SIZE
    then Some(FromParts(raw[0], raw[1], raw[2], raw[3], raw[4], raw[5], raw[6], raw[7], raw[8]))
    else None
  }

  lemma MsrField(img: VmImage)
    requires ImageFits(img)
    ensures |MsrBytes(img)| == MSRS_SIZE
    ensures FromLE(MsrBytes(img)[..4]) == img.nmsrs
    ensures DecodeMsrs(Cut(MsrBytes(img)[8..], 16, MAX_MSR_ENTRIES)) == img.entries
  {
    var b, es := MsrBytes(img), EncodeMsrs(img.entries);
    Pow256Values();
    LoadAfterStore(img.nmsrs, 4);
    CutFlat(es, 16);
    assert b[..4] == ToLE(img.nmsrs, 4) && b[8..] == Flat(es);
    forall i | 0 <= i < |es| ensures DecodeMsr(es[i]) == img.entries[i] { MsrRoundTrip(img.entries[i]); }
  }

  lemma FilesField(img: VmImage)
    requires ImageFits(img)
    ensures |FileBytes(img)| == FILES_SIZE
    ensures DecodeFiles(Cut(FileBytes(img), FILE_SIZE, MAX_OPEN_FILES)) == img.openFiles
  {
    FilesRoundTrip(img.openFiles);
    CutFlat(EncodeFiles(img.openFiles), FILE_SIZE);
  }

  lemma FilesRoundTrip(fs: seq<GuestFile>)
    requires forall i :: 0 <= i < |fs| ==> FileFits(fs[i])
    ensures forall i :: 0 <= i < |fs| ==> |EncodeFiles(fs)[i]| == FILE_SIZE
    ensures DecodeFiles(EncodeFiles(fs)) == fs
  {
    forall i | 0 <= i < |fs| ensures |EncodeFile(fs[i])| == FILE_SIZE && DecodeFile(EncodeFile(fs[i])) == fs[i] {
      EncodedFileSize(fs[i]);
      FileRoundTrip(fs[i]);
    }
  }

  lemma NumberFields(img: VmImage)
    requires ImageFits(img)
    ensures FromLE(ToLE(img.memorySize, 8)) == img.memorySize
    ensures FromLE(ToLE(img.base, 8)) == img.base
    ensures FromLE(ToLE(img.nOpenFiles, 1)) == img.nOpenFiles
  {
    Pow256Values();
    LoadAfterStore(img.memorySize, 8);
    LoadAfterStore(img.base, 8);
    LoadAfterStore(img.nOpenFiles, 1);
  }

  /** The bytes of the nine fields determine the image. */
  lemma FieldsRoundTrip(img: VmImage)
    requires ImageFits(img)
    ensures FromFields(Raw(img)) == Some(img)
  {
    MsrField(img);
    FilesField(img);
    NumberFields(img);
    FromNine(img.registers, img.sregisters, MsrBytes(img), img.fpu, ToLE(img.memorySize, 8), ToLE(img.base, 8),
             img.guestMemory, ToLE(img.nOpenFiles, 1), FileBytes(img));
  }

  lemma FromNine(a: seq<byte>, b: seq<byte>, c: seq<byte>, d: seq<byte>, e: seq<byte>, f: seq<byte>, g: seq<byte>,
                 h: seq<byte>, i: seq<byte>)
    requires |c| == MSRS_SIZE
    ensures FromFields(Nine(a, b, c, d, e, f, g, h, i)) == Some(FromParts(a, b, c, d, e, f, g, h, i))
  {
    var raw := Nine(a, b, c, d, e, f, g, h, i);
    assert raw[0] == a && raw[1] == b && raw[2] == c && raw[3] == d && raw[4] == e && raw[5] == f && raw[6] == g &&
           raw[7] == h && raw[8] == i;
  }

  // ---- the file ----

  /** The struct's fields in memory, up to the last one. */
  function Body(img: VmImage): seq<byte>
    requires ImageFits(img)
  {
    Laid(Zip(Raw(img), ALIGNS), 0)
  }

  /** fwrite of the whole struct, with the padding before open_files and at the end. */
  function Dump(img: VmImage): seq<byte>
    requires ImageFits(img)
  {
    Body(img) + Zeros(Padding(|Body(img)|, 8))
  }

  /** The sizes of the fields; the kernel's register blocks have sizes of their own. */
  function FieldSizes(regs: nat, sregs: nat, fpu: nat): seq<nat> {
    Nine(regs, sregs, MSRS_SIZE, fpu, 8, 8, MAX_MEMORY_SIZE, 1, FILES_SIZE)
  }

  /** The layout of the struct. */
  function ShapeFor(sizes: seq<nat>, aligns: seq<Align>): (s: seq<(nat, Align)>)
    requires |sizes| == |aligns|
    ensures |s| == |sizes| && forall i :: 0 <= i < |sizes| ==> s[i] == (sizes[i], aligns[i])
  {
    if sizes == [] then [] else [(sizes[0], aligns[0])] + ShapeFor(sizes[1..], aligns[1..])
  }

  function LoadDump(bytes: seq<byte>, regs: nat, sregs: nat, fpu: nat): Option<VmImage> {
    match Unlaid(bytes, ShapeFor(FieldSizes(regs, sregs, fpu), ALIGNS), 0)
    case None => None
    case Some(raw) => FromFields(raw)
  }

  lemma NineSizes(a: seq<byte>, b: seq<byte>, c: seq<byte>, d: seq<byte>, e: seq<byte>, f: seq<byte>, g: seq<byte>,
                  h: seq<byte>, i: seq<byte>)
    ensures Sizes(Nine(a, b, c, d, e, f, g, h, i)) == Nine(|a|, |b|, |c|, |d|, |e|, |f|, |g|, |h|, |i|)
  {}

  /** Both sides agree on the sizes of the nine fields. */
  lemma SizesOfFields(img: VmImage)
    requires ImageFits(img)
    ensures Sizes(Raw(img)) == FieldSizes(|img.registers|, |img.sregisters|, |img.fpu|)
  {
    MsrField(img);
    FilesField(img);
    NineSizes(img.registers, img.sregisters, MsrBytes(img), img.fpu, ToLE(img.memorySize, 8), ToLE(img.base, 8),
              img.guestMemory, ToLE(img.nOpenFiles, 1), FileBytes(img));
  }

  lemma ShapeOfZip(raw: seq<seq<byte>>, aligns: seq<Align>)
    requires |raw| == |aligns|
    ensures ShapeOf(Zip(raw, aligns)) == ShapeFor(Sizes(raw), aligns)
  {}

  /** load_vm_image gives back what save_vm_image wrote. */
  lemma DumpRoundTrip(img: VmImage)
    requires ImageFits(img)
    ensures LoadDump(Dump(img), |img.registers|, |img.sregisters|, |img.fpu|) == Some(img)
  {
    SizesOfFields(img);
    ShapeOfZip(Raw(img), ALIGNS);
    ZipBytes(Raw(img), ALIGNS);
    LaidRoundTrip(Zip(Raw(img), ALIGNS), 0, Zeros(Padding(|Body(img)|, 8)));
    FieldsRoundTrip(img);
  }

  // ---- the stream ----

  /** The bytes send_vm_image writes. */
  function Stream(img: VmImage): seq<byte>
    requires ImageFits(img)
  {
    Flat(Raw(img))
  }

  /** The byte count of the stream is the sum of the nine field sizes. */
  lemma StreamSize(img: VmImage)
    requires ImageFits(img)
    ensures |Stream(img)| == |img.registers| + |img.sregisters| + |img.fpu| + 1002009
  {
    SizesOfFields(img);
    FlatSize(Raw(img));
    TotalOfNine(|img.registers|, |img.sregisters|, |img.fpu|);
  }

  lemma TotalOfNine(regs: nat, sregs: nat, fpu: nat)
    ensures Total(FieldSizes(regs, sregs, fpu)) == regs + sregs + fpu + 1002009
  {
    TotalCons(regs, [sregs, MSRS_SIZE, fpu, 8, 8, MAX_MEMORY_SIZE, 1, FILES_SIZE]);
    TotalCons(sregs, [MSRS_SIZE, fpu, 8, 8, MAX_MEMORY_SIZE, 1, FILES_SIZE]);
    TotalCons(MSRS_SIZE, [fpu, 8, 8, MAX_MEMORY_SIZE, 1, FILES_SIZE]);
    TotalCons(fpu, [8, 8, MAX_MEMORY_SIZE, 1, FILES_SIZE]);
    TotalCons(8, [8, MAX_MEMORY_SIZE, 1, FILES_SIZE]);
    TotalCons(8, [MAX_MEMORY_SIZE, 1, FILES_SIZE]);
    TotalCons(MAX_MEMORY_SIZE, [1, FILES_SIZE]);
    TotalCons(1, [FILES_SIZE]);
    TotalCons(FILES_SIZE, []);
    var s := FieldSizes(regs, sregs, fpu);
    assert s == [regs] + ([sregs] + ([MSRS_SIZE] + ([fpu] + ([8] + ([8] + (
                [MAX_MEMORY_SIZE] + ([1] + ([FILES_SIZE] + []))))))));
  }

  lemma TotalCons(n: nat, rest: seq<nat>)
    ensures Total([n] + rest) == n + Total(rest)
  {
    assert ([n] + rest)[1..] == rest;
  }

  /** Only one image has a given stream, among images with register blocks of the same sizes. */
  lemma StreamDeterminesImage(a: VmImage, b: VmImage)
    requires ImageFits(a) && ImageFits(b) && Stream(a) == Stream(b)
    requires |a.registers| == |b.registers| && |a.sregisters| == |b.sregisters| && |a.fpu| == |b.fpu|
    ensures a == b
  {
    SizesOfFields(a);
    SizesOfFields(b);
    FlatInjective(Raw(a), Raw(b));
    FieldsRoundTrip(a);
    FieldsRoundTrip(b);
  }
}
