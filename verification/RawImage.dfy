/** The bytes of an image, written out: the structs it is made of, the stream and the file. */
module RawImage {
  import opened Words
  import opened Records
  import opened FileTable
  import opened VmImages
  import opened ImageBytes

  /** A uint32_t, and the low 64 bits of a number, low byte first. */
  function Four(v: nat): (s: seq<byte>)
    ensures |s| == 4
  {
    [v % 0x100, v / 0x100 % 0x100, v / 0x1_0000 % 0x100, v / 0x100_0000 % 0x100]
  }

  function Eight(v: nat): (s: seq<byte>)
    ensures |s| == 8
  {
    Four(v) + Four(v / 0x1_0000_0000)
  }

  /** An int: two's complement. */
  function FourOfInt(r: int): seq<byte>
    requires -0x8000_0000 <= r < 0x8000_0000
  {
    Four(if r < 0 then 0x1_0000_0000 + r else r)
  }

  /** A guest_file: five 32-bit fields, a gap of four bytes, the offset and the path. */
  function FileStruct(f: GuestFile): seq<byte>
    requires FileFits(f)
  {
    FourOfInt(f.guestFd) + (FourOfInt(f.hostFd) + (FourOfInt(f.flags) + (FourOfInt(f.mode) + (Four(f.startAddr) +
      ([0, 0, 0, 0] + (Eight(f.offset) + f.path))))))
  }

  function MsrStruct(e: MsrEntry): seq<byte> { Four(e.index) + Four(e.reserved) + Eight(e.data) }

  lemma ToLEOnce(v: nat, n: nat)
    requires n > 0
    ensures ToLE(v, n) == [v % 0x100] + ToLE(v / 0x100, n - 1)
  {}

  lemma Shifted(v: nat)
    ensures v / 0x100 / 0x100 == v / 0x1_0000 && v / 0x1_0000 / 0x100 == v / 0x100_0000
    ensures v / 0x100_0000 / 0x100 == v / 0x1_0000_0000
  {}

  lemma FourBytesMore(v: nat, n: nat)
    requires n >= 4
    ensures ToLE(v, n) == Four(v) + ToLE(v / 0x1_0000_0000, n - 4)
  {
    Shifted(v);
    ToLEOnce(v, n);
    ToLEOnce(v / 0x100, n - 1);
    ToLEOnce(v / 0x1_0000, n - 2);
    ToLEOnce(v / 0x100_0000, n - 3);
  }

  lemma FourIs(v: nat)
    ensures ToLE(v, 4) == Four(v)
  {
    FourBytesMore(v, 4);
    assert ToLE(v / 0x1_0000_0000, 0) == [];
  }

  lemma EightIs(v: nat)
    ensures ToLE(v, 8) == Eight(v)
  {
    FourBytesMore(v, 8);
    FourIs(v / 0x1_0000_0000);
  }

  // ---- structs ----

  lemma LaidNext(field: Field, rest: seq<Field>, offset: nat)
    ensures Laid([field] + rest, offset) ==
            Zeros(Padding(offset, field.align)) + field.bytes +
            Laid(rest, offset + Padding(offset, field.align) + |field.bytes|)
  {
    assert ([field] + rest)[1..] == rest;
  }

  lemma NextAligned(field: Field, rest: seq<Field>, offset: nat)
    requires offset % field.align == 0
    ensures Laid([field] + rest, offset) == field.bytes + Laid(rest, offset + |field.bytes|)
  {
    LaidNext(field, rest, offset);
    assert Zeros(0) + field.bytes == field.bytes;
  }

  lemma EntryFields(f: GuestFile)
    requires FileFits(f)
    ensures FileFields(f) == [Field(FourOfInt(f.guestFd), 4), Field(FourOfInt(f.hostFd), 4),
                              Field(FourOfInt(f.flags), 4), Field(FourOfInt(f.mode), 4), Field(Four(f.startAddr), 4),
                              Field(Eight(f.offset), 8), Field(f.path, 1)]
  {
    FourIs(ToU32(f.guestFd));
    FourIs(ToU32(f.hostFd));
    FourIs(ToU32(f.flags));
    FourIs(ToU32(f.mode));
    FourIs(f.startAddr);
    EightIs(f.offset);
  }

  lemma FiveFirst(a: seq<byte>, b: seq<byte>, c: seq<byte>, d: seq<byte>, e: seq<byte>, rest: seq<Field>)
    requires |a| == |b| == |c| == |d| == |e| == 4
    ensures Laid([Field(a, 4)] + ([Field(b, 4)] + ([Field(c, 4)] + ([Field(d, 4)] + ([Field(e, 4)] + rest)))), 0) ==
            a + (b + (c + (d + (e + Laid(rest, 20)))))
  {
    var three := [Field(c, 4)] + ([Field(d, 4)] + ([Field(e, 4)] + rest));
    NextAligned(Field(e, 4), rest, 16);
    NextAligned(Field(d, 4), [Field(e, 4)] + rest, 12);
    NextAligned(Field(c, 4), [Field(d, 4)] + ([Field(e, 4)] + rest), 8);
    NextAligned(Field(b, 4), three, 4);
    NextAligned(Field(a, 4), [Field(b, 4)] + three, 0);
  }

  lemma OffsetThenPath(offset: seq<byte>, path: seq<byte>)
    requires |offset| == 8
    ensures Laid([Field(offset, 8), Field(path, 1)], 20) == [0, 0, 0, 0] + (offset + path)
  {
    LaidNext(Field(offset, 8), [Field(path, 1)], 20);
    NextAligned(Field(path, 1), [], 32);
    assert [Field(path, 1)] + [] == [Field(path, 1)];
    assert [Field(offset, 8)] + [Field(path, 1)] == [Field(offset, 8), Field(path, 1)];
    assert Zeros(4) == [0, 0, 0, 0];
  }

  /** The bytes of an entry of open_files. */
  lemma EntryLayout(f: GuestFile)
    requires FileFits(f)
    ensures EncodeFile(f) == FileStruct(f)
  {
    EntryFields(f);
    var a, b, c, d := FourOfInt(f.guestFd), FourOfInt(f.hostFd), FourOfInt(f.flags), FourOfInt(f.mode);
    var rest := [Field(Eight(f.offset), 8), Field(f.path, 1)];
    FiveFirst(a, b, c, d, Four(f.startAddr), rest);
    OffsetThenPath(Eight(f.offset), f.path);
    assert FileFields(f) ==
           [Field(a, 4)] + ([Field(b, 4)] + ([Field(c, 4)] + ([Field(d, 4)] + ([Field(Four(f.startAddr), 4)] + rest))));
  }

  lemma MsrLayout(e: MsrEntry)
    ensures EncodeMsr(e) == MsrStruct(e)
  {
    FourIs(e.index);
    FourIs(e.reserved);
    EightIs(e.data);
  }

  // ---- arrays of structs ----

  /** One of byte strings of one size in their concatenation. */
  lemma {:induction false} PieceOf(ss: seq<seq<byte>>, size: nat, i: nat)
    requires i < |ss| && forall k :: 0 <= k < |ss| ==> |ss[k]| == size
    ensures size * i + size <= |Flat(ss)| && Flat(ss)[size * i .. size * i + size] == ss[i]
  {
    if i > 0 {
      PieceOf(ss[1..], size, i - 1);
      assert size * i == size + size * (i - 1);
      assert Flat(ss)[size..] == Flat(ss[1..]);
    }
  }

  /** The msrs field: the count, a gap of four bytes, and the 32 entries of 16 bytes. */
  lemma MsrsLayout(img: VmImage, i: nat)
    requires ImageFits(img) && i < 32
    ensures |MsrBytes(img)| == 520 && MsrBytes(img)[..8] == Four(img.nmsrs) + [0, 0, 0, 0]
    ensures MsrBytes(img)[8 + 16 * i .. 24 + 16 * i] == MsrStruct(img.entries[i])
  {
    MsrField(img);
    FourIs(img.nmsrs);
    var es := EncodeMsrs(img.entries);
    PieceOf(es, 16, i);
    MsrLayout(img.entries[i]);
    assert Zeros(4) == [0, 0, 0, 0];
    assert MsrBytes(img)[8..] == Flat(es);
  }

  /** The open_files field: 64 entries of 288 bytes. */
  lemma FilesLayout(img: VmImage, i: nat)
    requires ImageFits(img) && i < 64
    ensures |FileBytes(img)| == 18432 && FileBytes(img)[288 * i .. 288 * i + 288] == FileStruct(img.openFiles[i])
  {
    FilesField(img);
    FilesRoundTrip(img.openFiles);
    PieceOf(EncodeFiles(img.openFiles), 288, i);
    EntryLayout(img.openFiles[i]);
  }

  // ---- the stream and the file ----

  lemma NumbersOf(img: VmImage)
    requires ImageFits(img)
    ensures ToLE(img.memorySize, 8) == Eight(img.memorySize) && ToLE(img.base, 8) == Eight(img.base)
    ensures ToLE(img.nOpenFiles, 1) == [img.nOpenFiles]
  {
    EightIs(img.memorySize);
    EightIs(img.base);
    ToLEOnce(img.nOpenFiles, 1);
    assert ToLE(img.nOpenFiles / 0x100, 0) == [];
  }

  /** send_vm_image writes the nine fields in this order, with nothing between them. */
  lemma StreamLayout(img: VmImage)
    requires ImageFits(img)
    ensures Stream(img) == Flat([img.registers, img.sregisters, MsrBytes(img), img.fpu, Eight(img.memorySize),
                                 Eight(img.base), img.guestMemory, [img.nOpenFiles], FileBytes(img)])
  {
    NumbersOf(img);
    assert Raw(img) == [img.registers, img.sregisters, MsrBytes(img), img.fpu, Eight(img.memorySize),
                        Eight(img.base), img.guestMemory, [img.nOpenFiles], FileBytes(img)];
  }

  lemma SevenMore(offset: nat)
    requires offset % 8 == 0
    ensures Padding(offset + 1, 8) == 7 && (offset + 8) % 8 == 0
  {}

  lemma CountThenFiles(count: seq<byte>, files: seq<byte>, offset: nat)
    requires |count| == 1 && offset % 8 == 0
    ensures Laid([Field(count, 1)] + [Field(files, 8)], offset) == count + ([0, 0, 0, 0, 0, 0, 0] + files)
  {
    SevenMore(offset);
    NextAligned(Field(count, 1), [Field(files, 8)], offset);
    LaidNext(Field(files, 8), [], offset + 1);
    assert [Field(files, 8)] + [] == [Field(files, 8)];
    assert Zeros(7) == [0, 0, 0, 0, 0, 0, 0];
  }

  /** Blocks of whole 64-bit words have no gap between them. */
  lemma WordsNext(a: seq<byte>, rest: seq<Field>, offset: nat)
    requires offset % 8 == 0 && |a| % 8 == 0
    ensures Laid([Field(a, 8)] + rest, offset) == a + Laid(rest, offset + |a|) && (offset + |a|) % 8 == 0
  {
    NextAligned(Field(a, 8), rest, offset);
    SumOfWords(offset, |a|);
  }

  lemma ThreeWords(a: seq<byte>, b: seq<byte>, c: seq<byte>, rest: seq<Field>, offset: nat)
    requires offset % 8 == 0 && |a| % 8 == 0 && |b| % 8 == 0 && |c| % 8 == 0
    ensures Laid([Field(a, 8)] + ([Field(b, 8)] + ([Field(c, 8)] + rest)), offset) ==
            a + (b + (c + Laid(rest, offset + |a| + |b| + |c|)))
    ensures (offset + |a| + |b| + |c|) % 8 == 0
  {
    WordsNext(a, [Field(b, 8)] + ([Field(c, 8)] + rest), offset);
    WordsNext(b, [Field(c, 8)] + rest, offset + |a|);
    WordsNext(c, rest, offset + |a| + |b|);
  }

  lemma ZipNine(a: seq<byte>, b: seq<byte>, c: seq<byte>, d: seq<byte>, e: seq<byte>, f: seq<byte>, g: seq<byte>,
                h: seq<byte>, i: seq<byte>)
    ensures Zip(Nine(a, b, c, d, e, f, g, h, i), ALIGNS) ==
            [Field(a, 8)] + ([Field(b, 8)] + ([Field(c, 8)] + ([Field(d, 8)] + ([Field(e, 8)] + ([Field(f, 8)] +
            ([Field(g, 1)] + ([Field(h, 1)] + [Field(i, 8)])))))))
  {}

  lemma LaidNine(a: seq<byte>, b: seq<byte>, c: seq<byte>, d: seq<byte>, e: seq<byte>, f: seq<byte>, g: seq<byte>,
                 h: seq<byte>, i: seq<byte>)
    requires |a| % 8 == 0 && |b| % 8 == 0 && |c| % 8 == 0 && |d| % 8 == 0 && |e| % 8 == 0 && |f| % 8 == 0
    requires |g| % 8 == 0 && |h| == 1
    ensures Laid(Zip(Nine(a, b, c, d, e, f, g, h, i), ALIGNS), 0) ==
            a + (b + (c + (d + (e + (f + (g + (h + ([0, 0, 0, 0, 0, 0, 0] + i))))))))
  {
    var two := [Field(h, 1)] + [Field(i, 8)];
    var three := [Field(g, 1)] + two;
    ZipNine(a, b, c, d, e, f, g, h, i);
    ThreeWords(a, b, c, [Field(d, 8)] + ([Field(e, 8)] + ([Field(f, 8)] + three)), 0);
    ThreeWords(d, e, f, three, |a| + |b| + |c|);
    var at := |a| + |b| + |c| + |d| + |e| + |f|;
    NextAligned(Field(g, 1), two, at);
    SumOfWords(at, |g|);
    CountThenFiles(h, i, at + |g|);
  }

  lemma SumOfWords(m: nat, n: nat)
    requires m % 8 == 0 && n % 8 == 0
    ensures (m + n) % 8 == 0
  {}

  lemma BodyLayout(img: VmImage)
    requires ImageFits(img) && |img.registers| % 8 == 0 && |img.sregisters| % 8 == 0 && |img.fpu| % 8 == 0
    ensures Body(img) ==
            img.registers + (img.sregisters + (MsrBytes(img) + (img.fpu + (Eight(img.memorySize) + (Eight(img.base) +
            (img.guestMemory + ([img.nOpenFiles] + ([0, 0, 0, 0, 0, 0, 0] + FileBytes(img)))))))))
  {
    NumbersOf(img);
    MsrField(img);
    LaidNine(img.registers, img.sregisters, MsrBytes(img), img.fpu, Eight(img.memorySize), Eight(img.base),
             img.guestMemory, [img.nOpenFiles], FileBytes(img));
  }

  lemma BodySize(a: seq<byte>, b: seq<byte>, c: seq<byte>, d: seq<byte>, e: seq<byte>, f: seq<byte>, g: seq<byte>,
                 h: seq<byte>, i: seq<byte>)
    requires |h| == 1
    ensures |a + (b + (c + (d + (e + (f + (g + (h + ([0, 0, 0, 0, 0, 0, 0] + i))))))))| ==
            |a| + |b| + |c| + |d| + |e| + |f| + |g| + 8 + |i|
  {}

  lemma NoEndGap(body: seq<byte>)
    requires |body| % 8 == 0
    ensures body + Zeros(Padding(|body|, 8)) == body
  {}

  /** save_vm_image writes the struct: the fields in this order, and seven bytes between n_open_files and
      open_files, when the kernel's register blocks are of whole 64-bit words. */
  lemma DumpLayout(img: VmImage)
    requires ImageFits(img) && |img.registers| % 8 == 0 && |img.sregisters| % 8 == 0 && |img.fpu| % 8 == 0
    ensures Dump(img) ==
            img.registers + (img.sregisters + (MsrBytes(img) + (img.fpu + (Eight(img.memorySize) + (Eight(img.base) +
            (img.guestMemory + ([img.nOpenFiles] + ([0, 0, 0, 0, 0, 0, 0] + FileBytes(img)))))))))
  {
    BodyLayout(img);
    BodySize(img.registers, img.sregisters, MsrBytes(img), img.fpu, Eight(img.memorySize), Eight(img.base),
             img.guestMemory, [img.nOpenFiles], FileBytes(img));
    MsrField(img);
    FilesField(img);
    WholeWords(|img.registers|, |img.sregisters|, |img.fpu|, |Body(img)|);
    NoEndGap(Body(img));
  }

  lemma WholeWords(regs: nat, sregs: nat, fpu: nat, size: nat)
    requires regs % 8 == 0 && sregs % 8 == 0 && fpu % 8 == 0
    requires size == regs + sregs + 520 + fpu + 8 + 8 + 0xF_0000 + 8 + 18432
    ensures size % 8 == 0
  {}
}
