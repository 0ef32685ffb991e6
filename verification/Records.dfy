/** C records as bytes: a struct in memory (fields at aligned offsets, with padding) and the same
    fields sent one after the other. */
module Records {
  import opened Words

  type Align = a: nat | a == 1 || a == 4 || a == 8 witness 1

  /** A field's bytes and its alignment. */
  datatype Field = Field(bytes: seq<byte>, align: Align)

  /** The gap before a field at an offset. */
  function Padding(offset: nat, align: Align): (p: nat)
    ensures p < align
  {
    if offset % align == 0 then 0 else align - offset % align
  }

  function Zeros(n: nat): (z: seq<byte>)
    ensures |z| == n
  {
    seq(n, _ => 0)
  }

  /** The struct's bytes from a given offset on; the padding is zero, as `= {0}` makes it. */
  function Laid(fs: seq<Field>, offset: nat): seq<byte>
    decreases |fs|
  {
    if fs == [] then [] else
      var p := Padding(offset, fs[0].align);
      Zeros(p) + fs[0].bytes + Laid(fs[1..], offset + p + |fs[0].bytes|)
  }

  /** Reads fields of the given sizes and alignments back; None when the bytes run out. */
  function Unlaid(bytes: seq<byte>, shape: seq<(nat, Align)>, offset: nat): Option<seq<seq<byte>>>
    decreases |shape|
  {
    if shape == [] then Some([]) else
      var p, n := Padding(offset, shape[0].1), shape[0].0;
      if p + n > |bytes| then None else
        match Unlaid(bytes[p + n..], shape[1..], offset + p + n)
        case None => None
        case Some(rest) => Some([bytes[p .. p + n]] + rest)
  }

  function ShapeOf(fs: seq<Field>): (s: seq<(nat, Align)>)
    ensures |s| == |fs| && forall i :: 0 <= i < |fs| ==> s[i] == (|fs[i].bytes|, fs[i].align)
  {
    if fs == [] then [] else [(|fs[0].bytes|, fs[0].align)] + ShapeOf(fs[1..])
  }

  function BytesOf(fs: seq<Field>): (s: seq<seq<byte>>)
    ensures |s| == |fs| && forall i :: 0 <= i < |fs| ==> s[i] == fs[i].bytes
  {
    if fs == [] then [] else [fs[0].bytes] + BytesOf(fs[1..])
  }

  /** The size of a struct of the given layout that starts at an offset. */
  function LaidLength(shape: seq<(nat, Align)>, offset: nat): nat
    decreases |shape|
  {
    if shape == [] then 0 else
      var p := Padding(offset, shape[0].1);
      p + shape[0].0 + LaidLength(shape[1..], offset + p + shape[0].0)
  }

  lemma {:induction false} LaidSize(fs: seq<Field>, offset: nat)
    ensures |Laid(fs, offset)| == LaidLength(ShapeOf(fs), offset)
    decreases |fs|
  {
    if fs != [] {
      LaidSize(fs[1..], offset + Padding(offset, fs[0].align) + |fs[0].bytes|);
      assert ShapeOf(fs)[1..] == ShapeOf(fs[1..]);
    }
  }

  lemma Pieces(gap: seq<byte>, field: seq<byte>, rest: seq<byte>)
    ensures (gap + field + rest)[|gap| .. |gap| + |field|] == field
    ensures (gap + field + rest)[|gap| + |field|..] == rest
  {}

  /** Reading a struct back by its layout gives its fields, whatever follows it. */
  lemma {:induction false} LaidRoundTrip(fs: seq<Field>, offset: nat, tail: seq<byte>)
    ensures Unlaid(Laid(fs, offset) + tail, ShapeOf(fs), offset) == Some(BytesOf(fs))
    decreases |fs|
  {
    if fs != [] {
      var p, n := Padding(offset, fs[0].align), |fs[0].bytes|;
      var rest := Laid(fs[1..], offset + p + n);
      LaidRoundTrip(fs[1..], offset + p + n, tail);
      assert Laid(fs, offset) + tail == Zeros(p) + fs[0].bytes + (rest + tail);
      Pieces(Zeros(p), fs[0].bytes, rest + tail);
      assert ShapeOf(fs)[1..] == ShapeOf(fs[1..]);
    }
  }

  /** Fields from their bytes and alignments. */
  function Zip(raw: seq<seq<byte>>, aligns: seq<Align>): (fs: seq<Field>)
    requires |raw| == |aligns|
    ensures |fs| == |raw| && forall i :: 0 <= i < |raw| ==> fs[i] == Field(raw[i], aligns[i])
  {
    if raw == [] then [] else [Field(raw[0], aligns[0])] + Zip(raw[1..], aligns[1..])
  }

  lemma ZipBytes(raw: seq<seq<byte>>, aligns: seq<Align>)
    requires |raw| == |aligns|
    ensures BytesOf(Zip(raw, aligns)) == raw
  {}

  /** Concatenation. */
  function Flat(ss: seq<seq<byte>>): seq<byte> {
    if ss == [] then [] else ss[0] + Flat(ss[1..])
  }

  function Total(sizes: seq<nat>): nat {
    if sizes == [] then 0 else sizes[0] + Total(sizes[1..])
  }

  function Sizes(ss: seq<seq<byte>>): (r: seq<nat>)
    ensures |r| == |ss| && forall i :: 0 <= i < |ss| ==> r[i] == |ss[i]|
  {
    if ss == [] then [] else [|ss[0]|] + Sizes(ss[1..])
  }

  lemma {:induction false} FlatSize(ss: seq<seq<byte>>)
    ensures |Flat(ss)| == Total(Sizes(ss))
  {
    if ss != [] {
      FlatSize(ss[1..]);
      assert Sizes(ss)[1..] == Sizes(ss[1..]);
    }
  }

  lemma {:induction false} FlatAppend(ss: seq<seq<byte>>, s: seq<byte>)
    ensures Flat(ss + [s]) == Flat(ss) + s
  {
    if ss == [] {
      assert ss + [s] == [s] && Flat([s][1..]) == [];
      assert Flat([s]) == s;
    } else {
      FlatAppend(ss[1..], s);
      assert (ss + [s])[1..] == ss[1..] + [s];
    }
  }

  lemma {:induction false} TotalAppend(sizes: seq<nat>, n: nat)
    ensures Total(sizes + [n]) == Total(sizes) + n
  {
    if sizes == [] {
      assert sizes + [n] == [n] && [n][1..] == [];
    } else {
      TotalAppend(sizes[1..], n);
      assert (sizes + [n])[1..] == sizes[1..] + [n];
    }
  }

  /** Byte strings of known sizes can be told apart in their concatenation. */
  lemma {:induction false} FlatInjective(xs: seq<seq<byte>>, ys: seq<seq<byte>>)
    requires Sizes(xs) == Sizes(ys) && Flat(xs) == Flat(ys)
    ensures xs == ys
  {
    if xs != [] {
      assert |ys| == |Sizes(ys)| == |xs|;
      assert |xs[0]| == Sizes(xs)[0] == Sizes(ys)[0] == |ys[0]|;
      assert Flat(xs)[..|xs[0]|] == xs[0] && Flat(ys)[..|xs[0]|] == ys[0];
      assert Flat(xs)[|xs[0]|..] == Flat(xs[1..]) && Flat(ys)[|xs[0]|..] == Flat(ys[1..]);
      assert Sizes(xs[1..]) == Sizes(xs)[1..] == Sizes(ys)[1..] == Sizes(ys[1..]);
      FlatInjective(xs[1..], ys[1..]);
    }
  }
}
