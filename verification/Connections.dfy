/** my_write, my_read, send_vm_image and receive_vm_image, over one connection. */
module Connections {
  import opened Words
  import opened Records
  import opened VmImages
  import opened ImageBytes
  import opened Transfer
  import opened ShortCalls

  class Connection {
    /** Bytes written and not yet read. */
    var stream: seq<byte>

    constructor ()
      ensures stream == []
    {
      stream := [];
    }

    /** my_write: the loop over short writes. `answers` is what the system call answers each time; at -1 or
        0 the program exits (ok is false), having written the bytes of the answers before. */
    method MyWrite(buf: seq<byte>, answers: seq<int>) returns (ok: bool, sent: nat, calls: nat)
      requires Possible([|buf|], answers)
      modifies this
      ensures Called(ok, answers, calls, sent, |buf|)
      ensures ok <==> exists n: nat :: Filled(answers, n, |buf|)
      ensures stream == old(stream) + buf[..sent]
    {
      var left: nat := |buf|;
      sent, calls := 0, 0;
      while left > 0
        invariant left + sent == |buf| && Filled(answers, calls, sent) && Possible([left], answers[calls..])
        invariant stream == old(stream) + buf[..sent]
      {
        PossibleOne(left, answers[calls..]);
        var answer := answers[calls];
        calls := calls + 1;
        if answer <= 0 {
          ThroughExactly(false, answers, calls, sent, |buf|);
          return false, sent, calls;
        }
        FilledNext(answers, calls - 1, sent);
        assert buf[..sent + answer] == buf[..sent] + buf[sent .. sent + answer];
        stream := stream + buf[sent .. sent + answer];
        left, sent := left - answer, sent + answer;
      }
      return true, sent, calls;
    }

    /** my_read: the loop over short reads; the answers give no more than is there. */
    method MyRead(length: nat, answers: seq<int>) returns (ok: bool, buf: seq<byte>, calls: nat)
      requires Possible([length], answers) && There(|stream|, answers)
      modifies this
      ensures Called(ok, answers, calls, |buf|, length)
      ensures ok <==> exists n: nat :: Filled(answers, n, length)
      ensures buf + stream == old(stream)
    {
      var left: nat := length;
      buf, calls := [], 0;
      while left > 0
        invariant left + |buf| == length && Filled(answers, calls, |buf|) && Possible([left], answers[calls..])
        invariant buf + stream == old(stream)
      {
        PossibleOne(left, answers[calls..]);
        var answer := answers[calls];
        if answer <= 0 {
          ThroughExactly(false, answers, calls + 1, |buf|, length);
          return false, buf, calls + 1;
        }
        AnswerThere(|old(stream)|, answers, calls, |buf|);
        FilledNext(answers, calls, |buf|);
        calls := calls + 1;
        Regroup(buf, stream, answer);
        buf, stream := buf + stream[..answer], stream[answer..];
        left := left - answer;
      }
      return true, buf, calls;
    }

    /** The first k fields of raw, `sent` bytes, are written behind base by the first `calls` answers. */
    ghost predicate Sending(raw: seq<seq<byte>>, k: nat, base: seq<byte>, answers: seq<int>, sent: nat, calls: nat)
      requires k <= |raw|
      reads this
    {
      stream == base + FlatTo(raw, k) && sent == |FlatTo(raw, k)| && Filled(answers, calls, sent)
    }

    /** One field of send_vm_image, the k-th of raw. */
    method SendField(field: seq<byte>, answers: seq<int>, before: nat, at: nat,
                     ghost raw: seq<seq<byte>>, ghost k: nat, ghost sizes: seq<nat>, ghost base: seq<byte>)
      returns (ok: bool, sent: nat, calls: nat, ghost next: nat)
      requires SizedBy(raw, sizes) && Possible(sizes, answers)
      requires k < |raw| && field == raw[k] && Sending(raw, k, base, answers, before, at)
      modifies this
      ensures next == k + 1 && (ok ==> Sending(raw, next, base, answers, sent, calls))
      ensures !ok ==> StoppedAt(answers, calls, sent, |Flat(raw)|) && stream == base + Flat(raw)[..sent]
    {
      FieldBounds(raw, k);
      FieldPossible(raw, k, sizes, answers, at);
      ok, sent, calls := MyWrite(field, answers[at..]);
      CalledJoin(ok, answers, at, before, calls, sent, |field|);
      sent, calls, next := before + sent, at + calls, k + 1;
      assert field[..|field|] == field;
      if !ok { StoppedInAll(answers, calls, sent, before + |field|, |Flat(raw)|); }
    }

    /** The nine my_write calls. */
    method SendNine(raw: seq<seq<byte>>, answers: seq<int>, ghost sizes: seq<nat>)
      returns (ok: bool, sent: nat, calls: nat)
      requires |raw| == 9 && SizedBy(raw, sizes) && Possible(sizes, answers)
      modifies this
      ensures ok ==> Sending(raw, 9, old(stream), answers, sent, calls)
      ensures !ok ==> StoppedAt(answers, calls, sent, |Flat(raw)|) && stream == old(stream) + Flat(raw)[..sent]
    {
      ghost var base := stream;
      ghost var k: nat := 0;
      sent, calls := 0, 0;
      assert Sending(raw, k, base, answers, 0, 0);
      ok, sent, calls, k := SendField(raw[0], answers, sent, calls, raw, k, sizes, base);
      if !ok { return; }
      ok, sent, calls, k := SendField(raw[1], answers, sent, calls, raw, k, sizes, base);
      if !ok { return; }
      ok, sent, calls, k := SendField(raw[2], answers, sent, calls, raw, k, sizes, base);
      if !ok { return; }
      ok, sent, calls, k := SendField(raw[3], answers, sent, calls, raw, k, sizes, base);
      if !ok { return; }
      ok, sent, calls, k := SendField(raw[4], answers, sent, calls, raw, k, sizes, base);
      if !ok { return; }
      ok, sent, calls, k := SendField(raw[5], answers, sent, calls, raw, k, sizes, base);
      if !ok { return; }
      ok, sent, calls, k := SendField(raw[6], answers, sent, calls, raw, k, sizes, base);
      if !ok { return; }
      ok, sent, calls, k := SendField(raw[7], answers, sent, calls, raw, k, sizes, base);
      if !ok { return; }
      ok, sent, calls, k := SendField(raw[8], answers, sent, calls, raw, k, sizes, base);
    }

    /** send_vm_image, once connected: false when the program exits on the way. It goes through exactly when
        the first answers, all positive, make the size of the image's stream. */
    method SendVmImage(image: VmImage, answers: seq<int>) returns (ok: bool, sent: nat, calls: nat)
      requires ImageFits(image)
      requires Possible(FieldSizes(|image.registers|, |image.sregisters|, |image.fpu|), answers)
      modifies this
      ensures Called(ok, answers, calls, sent, |Stream(image)|)
      ensures ok <==> exists n: nat :: Filled(answers, n, |Stream(image)|)
      ensures stream == old(stream) + Stream(image)[..sent]
    {
      SizesOfFields(image);
      FlatToIsFlat(Raw(image));
      ok, sent, calls := SendNine(Raw(image), answers, Sizes(Raw(image)));
    }

    /** The fields read so far, `received` bytes, the stream behind them, and the answers used. */
    ghost predicate Reading(got: seq<seq<byte>>, sizes: seq<nat>, base: seq<byte>, answers: seq<int>,
                            received: nat, calls: nat)
      reads this
    {
      && SizedBy(got, sizes) && FlatTo(got, |got|) + stream == base && received == |FlatTo(got, |got|)|
      && Filled(answers, calls, received)
    }

    /** One field of receive_vm_image, read after the fields `got` and filled into the image. */
    method ReceiveField(length: nat, answers: seq<int>, got: seq<seq<byte>>, before: nat, at: nat,
                        ghost sizes: seq<nat>, ghost base: seq<byte>)
      returns (ok: bool, now: seq<seq<byte>>, received: nat, calls: nat)
      requires Possible(sizes, answers) && There(|base|, answers)
      requires Reading(got, sizes, base, answers, before, at) && |got| < |sizes| && length == sizes[|got|]
      modifies this
      ensures |now| == |got| + 1
      ensures ok ==> Reading(now, sizes, base, answers, received, calls)
      ensures !ok ==> StoppedAt(answers, calls, received, Total(sizes))
      ensures !ok ==> received <= |base| && stream == base[received..]
    {
      NextAsked(got, sizes, answers, at);
      NextThere(FlatTo(got, |got|), stream, base, answers, at);
      StopsBelow(got, sizes, length);
      var field, more;
      ok, field, more := MyRead(length, answers[at..]);
      now, received, calls := got + [field], before + |field|, at + more;
      CalledJoin(ok, answers, at, before, more, |field|, length);
      ReadOn(got, field, stream, base);
      if !ok { StoppedInAll(answers, calls, received, before + length, Total(sizes)); }
    }

    /** The nine my_read calls. */
    method ReceiveNine(sizes: seq<nat>, answers: seq<int>)
      returns (ok: bool, raw: seq<seq<byte>>, received: nat, calls: nat)
      requires |sizes| == 9 && Possible(sizes, answers) && There(|stream|, answers)
      modifies this
      ensures ok ==> |raw| == 9 && Reading(raw, sizes, old(stream), answers, received, calls)
      ensures !ok ==> StoppedAt(answers, calls, received, Total(sizes))
      ensures !ok ==> received <= |old(stream)| && stream == old(stream)[received..]
    {
      ghost var base := stream;
      raw, received, calls := [], 0, 0;
      assert FlatTo(raw, 0) + stream == base;
      ok, raw, received, calls := ReceiveField(sizes[0], answers, raw, received, calls, sizes, base);
      if !ok { return; }
      ok, raw, received, calls := ReceiveField(sizes[1], answers, raw, received, calls, sizes, base);
      if !ok { return; }
      ok, raw, received, calls := ReceiveField(sizes[2], answers, raw, received, calls, sizes, base);
      if !ok { return; }
      ok, raw, received, calls := ReceiveField(sizes[3], answers, raw, received, calls, sizes, base);
      if !ok { return; }
      ok, raw, received, calls := ReceiveField(sizes[4], answers, raw, received, calls, sizes, base);
      if !ok { return; }
      ok, raw, received, calls := ReceiveField(sizes[5], answers, raw, received, calls, sizes, base);
      if !ok { return; }
      ok, raw, received, calls := ReceiveField(sizes[6], answers, raw, received, calls, sizes, base);
      if !ok { return; }
      ok, raw, received, calls := ReceiveField(sizes[7], answers, raw, received, calls, sizes, base);
      if !ok { return; }
      ok, raw, received, calls := ReceiveField(sizes[8], answers, raw, received, calls, sizes, base);
    }

    /** receive_vm_image: false when the program exits on the way. It goes through exactly when the first
        answers, all positive, make the size of the nine fields. What is read is the head of the stream; if
        that is the bytes of an image, that image is what is received. */
    method ReceiveVmImage(regs: nat, sregs: nat, fpu: nat, answers: seq<int>)
      returns (ok: bool, image: Option<VmImage>, received: nat, calls: nat)
      requires Possible(FieldSizes(regs, sregs, fpu), answers) && There(|stream|, answers)
      modifies this
      ensures Called(ok, answers, calls, received, Total(FieldSizes(regs, sregs, fpu)))
      ensures ok <==> exists n: nat :: Filled(answers, n, Total(FieldSizes(regs, sregs, fpu)))
      ensures received <= |old(stream)| && stream == old(stream)[received..]
      ensures ok ==> forall sent: VmImage, tail ::
                (SentWith(sent, regs, sregs, fpu) && old(stream) == Stream(sent) + tail ==>
                 image == Some(sent) && stream == tail)
    {
      ghost var base, sizes := stream, FieldSizes(regs, sregs, fpu);
      image := None;
      var raw;
      ok, raw, received, calls := ReceiveNine(FieldSizes(regs, sregs, fpu), answers);
      if !ok { return; }
      image := FromFields(raw);
      HeadSize(raw, sizes);
      forall sent: VmImage, tail | SentWith(sent, regs, sregs, fpu) && base == Stream(sent) + tail
        ensures image == Some(sent) && stream == tail
      {
        SameNine(raw, stream, sent, tail);
      }
    }
  }

  /** The answer after the first ones is 0 or less: no number of them is enough. */
  ghost predicate StoppedAt(answers: seq<int>, calls: nat, moved: nat, asked: nat) {
    Called(false, answers, calls, moved, asked) && !exists n: nat :: Filled(answers, n, asked)
  }

  lemma Regroup(read: seq<byte>, rest: seq<byte>, n: nat)
    requires n <= |rest|
    ensures read + rest[..n] + rest[n..] == read + rest
  {}

  lemma NextAsked(got: seq<seq<byte>>, sizes: seq<nat>, answers: seq<int>, at: nat)
    requires SizedBy(got, sizes) && |got| < |sizes| && Possible(sizes, answers)
    requires Filled(answers, at, |FlatTo(got, |got|)|)
    ensures Possible([sizes[|got|]], answers[at..])
  {
    FlatToSize(got, sizes, |got|);
    NextPossible(sizes, |got|, answers, at);
  }

  lemma NextThere(head: seq<byte>, rest: seq<byte>, base: seq<byte>, answers: seq<int>, at: nat)
    requires head + rest == base && There(|base|, answers) && Filled(answers, at, |head|)
    ensures There(|rest|, answers[at..])
  {
    ThereAfter(|base|, answers, at, |head|);
  }

  lemma ReadOn(got: seq<seq<byte>>, field: seq<byte>, rest: seq<byte>, base: seq<byte>)
    requires FlatTo(got, |got|) + (field + rest) == base
    ensures FlatTo(got + [field], |got| + 1) + rest == base
    ensures |FlatTo(got + [field], |got| + 1)| == |FlatTo(got, |got|)| + |field| <= |base|
    ensures base[|FlatTo(got, |got|)| + |field|..] == rest
  {
    FlatToAppended(got, field, |got|);
    FlatToNext(got + [field], |got|);
    assert FlatTo(got, |got|) + (field + rest) == FlatTo(got, |got|) + field + rest;
  }

  lemma StoppedInAll(answers: seq<int>, calls: nat, moved: nat, asked: nat, total: nat)
    requires Called(false, answers, calls, moved, asked) && asked <= total
    ensures StoppedAt(answers, calls, moved, total)
  {
    ThroughExactly(false, answers, calls, moved, total);
  }

  /** Field k among the fields one after the other. */
  lemma FieldBounds(raw: seq<seq<byte>>, k: nat)
    requires k < |raw|
    ensures FlatTo(raw, k + 1) == FlatTo(raw, k) + raw[k] && FlatTo(raw, k + 1) <= Flat(raw)
    ensures forall n: nat :: n <= |raw[k]| ==>
              |FlatTo(raw, k)| + n <= |Flat(raw)| &&
              FlatTo(raw, k) + raw[k][..n] == Flat(raw)[..|FlatTo(raw, k)| + n]
  {
    FlatToNext(raw, k);
    FlatToGrows(raw, k + 1, |raw|);
    FlatToIsFlat(raw);
  }

  lemma FieldPossible(raw: seq<seq<byte>>, k: nat, sizes: seq<nat>, answers: seq<int>, at: nat)
    requires k < |raw| && SizedBy(raw, sizes) && Possible(sizes, answers) && Filled(answers, at, |FlatTo(raw, k)|)
    ensures Possible([|raw[k]|], answers[at..])
  {
    FlatToSize(raw, sizes, k);
    NextPossible(sizes, k, answers, at);
  }

  lemma NextPossible(sizes: seq<nat>, k: nat, answers: seq<int>, at: nat)
    requires k < |sizes| && Possible(sizes, answers) && Filled(answers, at, Offset(sizes, k))
    ensures Possible([sizes[k]], answers[at..])
  {
    PossibleRest(sizes, k, answers, at);
    assert sizes[k..] == [sizes[k]] + sizes[k + 1..];
    PossibleFirst(sizes[k], sizes[k + 1..], answers[at..]);
  }

  /** The fields read so far and the next one are no more than all of them. */
  lemma StopsBelow(got: seq<seq<byte>>, sizes: seq<nat>, length: nat)
    requires SizedBy(got, sizes) && |got| < |sizes| && length == sizes[|got|]
    ensures |FlatTo(got, |got|)| + length <= Total(sizes)
  {
    FlatToSize(got, sizes, |got|);
    OffsetNext(sizes, |got|);
    OffsetGrows(sizes, |got| + 1, |sizes|);
    assert sizes[..|sizes|] == sizes;
  }

  /** The image has an encoding, with register blocks of the given sizes. */
  predicate SentWith(image: VmImage, regs: nat, sregs: nat, fpu: nat) {
    ImageFits(image) && |image.registers| == regs && |image.sregisters| == sregs && |image.fpu| == fpu
  }

  lemma HeadSize(got: seq<seq<byte>>, sizes: seq<nat>)
    requires SizedBy(got, sizes) && |got| == |sizes|
    ensures |FlatTo(got, |got|)| == Total(sizes)
  {
    FlatToIsFlat(got);
    FlatSize(got);
    assert Sizes(got) == sizes;
  }

  /** Nine byte strings of the field sizes at the head of an image's stream are its fields. */
  lemma SameNine(got: seq<seq<byte>>, rest: seq<byte>, sent: VmImage, tail: seq<byte>)
    requires ImageFits(sent) && |got| == 9
    requires SizedBy(got, FieldSizes(|sent.registers|, |sent.sregisters|, |sent.fpu|))
    requires FlatTo(got, 9) + rest == Stream(sent) + tail
    ensures FromFields(got) == Some(sent) && rest == tail
  {
    var sizes, raw := FieldSizes(|sent.registers|, |sent.sregisters|, |sent.fpu|), Raw(sent);
    SizesOfFields(sent);
    FlatToIsFlat(raw);
    FlatToSize(got, sizes, 9);
    FlatToSize(raw, sizes, 9);
    SameHead(FlatTo(got, 9), rest, FlatTo(raw, 9), tail);
    FlatToInjective(got, raw, sizes);
    FieldsRoundTrip(sent);
  }

  lemma SameHead(a: seq<byte>, b: seq<byte>, c: seq<byte>, d: seq<byte>)
    requires |a| == |c| && a + b == c + d
    ensures a == c && b == d
  {
    assert a == (a + b)[..|a|] && b == (a + b)[|a|..] && c == (c + d)[..|a|] && d == (c + d)[|a|..];
  }
}
