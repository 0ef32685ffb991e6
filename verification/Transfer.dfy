/** The image transfer: a sender and a receiver that move nine fields over a FIFO byte stream in
    pieces of whatever size the two ends happen to take. */
module Transfer {
  import opened Words
  import opened Records

  /** Sender: field f, of which `sent` bytes are written. Stream: bytes written and not yet read.
      Receiver: whole fields received, and the part of the next one read so far. */
  datatype Net = Net(fields: seq<seq<byte>>, f: nat, sent: nat, stream: seq<byte>, sizes: seq<nat>,
                     received: seq<seq<byte>>, part: seq<byte>)

  function Start(fields: seq<seq<byte>>, sizes: seq<nat>): Net {
    Net(fields, 0, 0, [], sizes, [], [])
  }

  /** One system call that moves n bytes, or the end of a my_write or my_read loop. */
  datatype Move = Write(n: nat) | NextOut | Read(n: nat) | NextIn

  predicate Enabled(s: Net, m: Move) {
    match m
    case Write(n) => s.f < |s.fields| && 1 <= n && s.sent + n <= |s.fields[s.f]|
    case NextOut => s.f < |s.fields| && s.sent == |s.fields[s.f]|
    case Read(n) => |s.received| < |s.sizes| && 1 <= n <= |s.stream| && |s.part| + n <= s.sizes[|s.received|]
    case NextIn => |s.received| < |s.sizes| && |s.part| == s.sizes[|s.received|]
  }

  function Moved(s: Net, m: Move): Net
    requires Enabled(s, m)
  {
    match m
    case Write(n) => s.(stream := s.stream + s.fields[s.f][s.sent .. s.sent + n], sent := s.sent + n)
    case NextOut => s.(f := s.f + 1, sent := 0)
    case Read(n) => s.(part := s.part + s.stream[..n], stream := s.stream[n..])
    case NextIn => s.(received := s.received + [s.part], part := [])
  }

  // ---- the serialized image ----

  /** The first n fields one after the other. */
  function FlatTo(ss: seq<seq<byte>>, n: nat): seq<byte>
    requires n <= |ss|
  {
    Flat(ss[..n])
  }

  /** Where field n begins. */
  function Offset(sizes: seq<nat>, n: nat): nat
    requires n <= |sizes|
  {
    Total(sizes[..n])
  }

  lemma FlatToNext(ss: seq<seq<byte>>, n: nat)
    requires n < |ss|
    ensures FlatTo(ss, n + 1) == FlatTo(ss, n) + ss[n]
  {
    assert ss[..n + 1] == ss[..n] + [ss[n]];
    FlatAppend(ss[..n], ss[n]);
  }

  lemma OffsetNext(sizes: seq<nat>, n: nat)
    requires n < |sizes|
    ensures Offset(sizes, n + 1) == Offset(sizes, n) + sizes[n]
  {
    assert sizes[..n + 1] == sizes[..n] + [sizes[n]];
    TotalAppend(sizes[..n], sizes[n]);
  }

  predicate SizedBy(ss: seq<seq<byte>>, sizes: seq<nat>) {
    |ss| <= |sizes| && forall i :: 0 <= i < |ss| ==> |ss[i]| == sizes[i]
  }

  lemma FlatToSize(ss: seq<seq<byte>>, sizes: seq<nat>, n: nat)
    requires SizedBy(ss, sizes) && n <= |ss|
    ensures |FlatTo(ss, n)| == Offset(sizes, n)
  {
    FlatSize(ss[..n]);
    assert Sizes(ss[..n]) == sizes[..n];
  }

  lemma {:induction false} FlatToGrows(ss: seq<seq<byte>>, n: nat, m: nat)
    requires n <= m <= |ss|
    ensures FlatTo(ss, n) <= FlatTo(ss, m)
    decreases m
  {
    if n < m {
      FlatToGrows(ss, n, m - 1);
      FlatToNext(ss, m - 1);
    }
  }

  lemma {:induction false} OffsetGrows(sizes: seq<nat>, n: nat, m: nat)
    requires n <= m <= |sizes|
    ensures Offset(sizes, n) <= Offset(sizes, m)
    decreases m
  {
    if n < m {
      OffsetGrows(sizes, n, m - 1);
      OffsetNext(sizes, m - 1);
    }
  }

  lemma FlatToAppended(ss: seq<seq<byte>>, s: seq<byte>, n: nat)
    requires n <= |ss|
    ensures FlatTo(ss + [s], n) == FlatTo(ss, n)
  {
    assert (ss + [s])[..n] == ss[..n];
  }

  lemma FlatToIsFlat(ss: seq<seq<byte>>)
    ensures FlatTo(ss, |ss|) == Flat(ss)
  {
    assert ss[..|ss|] == ss;
  }

  lemma SliceAfter(head: seq<byte>, piece: seq<byte>, whole: seq<byte>, a: nat, b: nat)
    requires head + piece <= whole && a <= b <= |piece|
    ensures |head| + b <= |whole| && whole[|head| + a .. |head| + b] == piece[a .. b]
  {
    assert whole[..|head| + |piece|] == head + piece;
  }

  /** Where a piece of a field is in the serialized image. */
  lemma FieldSlice(fields: seq<seq<byte>>, sizes: seq<nat>, f: nat, a: nat, b: nat)
    requires SizedBy(fields, sizes) && f < |fields| && a <= b <= |fields[f]|
    ensures Offset(sizes, f) + b <= |FlatTo(fields, |fields|)|
    ensures FlatTo(fields, |fields|)[Offset(sizes, f) + a .. Offset(sizes, f) + b] == fields[f][a .. b]
  {
    FlatToSize(fields, sizes, f);
    FlatToNext(fields, f);
    FlatToGrows(fields, f + 1, |fields|);
    SliceAfter(FlatTo(fields, f), fields[f], FlatTo(fields, |fields|), a, b);
  }

  // ---- the invariant ----

  function Whole(s: Net): seq<byte> { FlatTo(s.fields, |s.fields|) }

  /** Every position is within its field, and the whole fields received have the sizes asked for. */
  ghost predicate Bounded(s: Net) {
    && SizedBy(s.fields, s.sizes) && |s.fields| == |s.sizes|
    && s.f <= |s.fields| && (if s.f < |s.fields| then s.sent <= |s.fields[s.f]| else s.sent == 0)
    && SizedBy(s.received, s.sizes)
    && (if |s.received| < |s.sizes| then |s.part| <= s.sizes[|s.received|] else s.part == [])
  }

  /** How many bytes of the serialized image have been written, and how many read. */
  function CountOut(s: Net): nat
    requires s.f <= |s.sizes|
  {
    Offset(s.sizes, s.f) + s.sent
  }

  function CountIn(s: Net): nat
    requires |s.received| <= |s.sizes|
  {
    Offset(s.sizes, |s.received|) + |s.part|
  }

  function Delivered(s: Net): seq<byte> { FlatTo(s.received, |s.received|) + s.part }

  /** The image w is delivered up to r, and in the stream from r to c. */
  ghost predicate Queue(w: seq<byte>, r: nat, c: nat, delivered: seq<byte>, stream: seq<byte>) {
    r <= c <= |w| && stream == w[r .. c] && delivered == w[..r]
  }

  ghost predicate FifoInv(s: Net) {
    Bounded(s) && Queue(Whole(s), CountIn(s), CountOut(s), Delivered(s), s.stream)
  }

  lemma StartsRight(fields: seq<seq<byte>>, sizes: seq<nat>)
    requires SizedBy(fields, sizes) && |fields| == |sizes|
    ensures FifoInv(Start(fields, sizes))
  {}

  lemma QueueIn(w: seq<byte>, r: nat, c: nat, delivered: seq<byte>, stream: seq<byte>, n: nat)
    requires Queue(w, r, c, delivered, stream) && c + n <= |w|
    ensures Queue(w, r, c + n, delivered, stream + w[c .. c + n])
  {}

  lemma QueueOut(w: seq<byte>, r: nat, c: nat, delivered: seq<byte>, stream: seq<byte>, n: nat)
    requires Queue(w, r, c, delivered, stream) && n <= |stream|
    ensures Queue(w, r + n, c, delivered + stream[..n], stream[n..])
  {}

  lemma Assoc(a: seq<byte>, b: seq<byte>, c: seq<byte>)
    ensures a + b + c == a + (b + c)
  {}

  lemma WriteKeepsFifo(s: Net, n: nat)
    requires FifoInv(s) && Enabled(s, Write(n))
    ensures FifoInv(Moved(s, Write(n))) && CountOut(Moved(s, Write(n))) == CountOut(s) + n
  {
    FieldSlice(s.fields, s.sizes, s.f, s.sent, s.sent + n);
    QueueIn(Whole(s), CountIn(s), CountOut(s), Delivered(s), s.stream, n);
  }

  lemma NextOutKeepsFifo(s: Net)
    requires FifoInv(s) && Enabled(s, NextOut)
    ensures FifoInv(Moved(s, NextOut)) && CountOut(Moved(s, NextOut)) == CountOut(s)
  {
    OffsetNext(s.sizes, s.f);
  }

  lemma ReadKeepsFifo(s: Net, n: nat)
    requires FifoInv(s) && Enabled(s, Read(n))
    ensures FifoInv(Moved(s, Read(n))) && CountIn(Moved(s, Read(n))) == CountIn(s) + n
  {
    QueueOut(Whole(s), CountIn(s), CountOut(s), Delivered(s), s.stream, n);
    Assoc(FlatTo(s.received, |s.received|), s.part, s.stream[..n]);
  }

  lemma DeliveredNext(received: seq<seq<byte>>, part: seq<byte>)
    ensures FlatTo(received + [part], |received| + 1) + [] == FlatTo(received, |received|) + part
  {
    FlatToAppended(received, part, |received|);
    FlatToNext(received + [part], |received|);
  }

  lemma NextInKeepsFifo(s: Net)
    requires FifoInv(s) && Enabled(s, NextIn)
    ensures FifoInv(Moved(s, NextIn)) && CountIn(Moved(s, NextIn)) == CountIn(s)
  {
    DeliveredNext(s.received, s.part);
    OffsetNext(s.sizes, |s.received|);
  }

  // ---- conservation ----

  /** What is left to write. */
  ghost function Unsent(s: Net): seq<byte>
    requires FifoInv(s)
  {
    Whole(s)[CountOut(s)..]
  }

  /** Whatever the sizes of the pieces: delivered ++ in flight ++ unsent is the serialized image. */
  lemma NothingLost(s: Net)
    requires FifoInv(s)
    ensures Delivered(s) + s.stream + Unsent(s) == Flat(s.fields)
  {
    FlatToIsFlat(s.fields);
    QueueParts(Whole(s), CountIn(s), CountOut(s));
  }

  lemma QueueParts(w: seq<byte>, r: nat, c: nat)
    requires r <= c <= |w|
    ensures w[..r] + w[r .. c] + w[c..] == w
  {}

  // ---- progress ----

  /** Bytes still to write, bytes still to read, fields still to finish on either side. */
  ghost function Work(s: Net): nat
    requires FifoInv(s)
  {
    (|Whole(s)| - CountOut(s)) + (|Whole(s)| - CountIn(s)) + (|s.fields| - s.f) + (|s.sizes| - |s.received|)
  }

  /** Every move keeps the invariant and brings the transfer nearer its end. */
  lemma MoveDoesWork(s: Net, m: Move)
    requires FifoInv(s) && Enabled(s, m)
    ensures FifoInv(Moved(s, m)) && Work(Moved(s, m)) < Work(s)
  {
    match m
    case Write(n) => WriteKeepsFifo(s, n);
    case NextOut => NextOutKeepsFifo(s);
    case Read(n) => ReadKeepsFifo(s, n);
    case NextIn => NextInKeepsFifo(s);
  }

  predicate ReceiverDone(s: Net) { |s.received| == |s.sizes| }

  ghost predicate CanGoOn(s: Net) { exists m :: Enabled(s, m) }

  predicate Finished(s: Net) { s.f == |s.fields| && ReceiverDone(s) }

  /** As long as the transfer is not finished some end can move: a reader is never left waiting for
      bytes the writer will not send. */
  lemma NeverStuck(s: Net)
    requires FifoInv(s) && !Finished(s)
    ensures CanGoOn(s)
  {
    if s.f < |s.fields| {
      if s.sent < |s.fields[s.f]| { assert Enabled(s, Write(1)); } else { assert Enabled(s, NextOut); }
    } else if |s.part| == s.sizes[|s.received|] {
      assert Enabled(s, NextIn);
    } else {
      OffsetNext(s.sizes, |s.received|);
      OffsetGrows(s.sizes, |s.received| + 1, |s.sizes|);
      assert Enabled(s, Read(1));
    }
  }

  lemma FlatToInjective(xs: seq<seq<byte>>, ys: seq<seq<byte>>, sizes: seq<nat>)
    requires SizedBy(xs, sizes) && SizedBy(ys, sizes) && |xs| == |ys| && FlatTo(xs, |xs|) == FlatTo(ys, |ys|)
    ensures xs == ys
  {
    FlatToIsFlat(xs);
    FlatToIsFlat(ys);
    assert Sizes(xs) == Sizes(ys);
    FlatInjective(xs, ys);
  }

  /** When the receiver has all its fields, they are the sender's. */
  lemma ReceivedIsSent(s: Net)
    requires FifoInv(s) && ReceiverDone(s)
    ensures s.received == s.fields && s.stream == []
  {
    FlatToSize(s.fields, s.sizes, |s.fields|);
    assert Whole(s)[..CountIn(s)] == Whole(s);
    assert Delivered(s) == FlatTo(s.received, |s.received|);
    FlatToInjective(s.received, s.fields, s.sizes);
  }

  // ---- whole transfers ----

  predicate CanMove(s: Net, ms: seq<Move>)
    decreases |ms|
  {
    ms == [] || (Enabled(s, ms[0]) && CanMove(Moved(s, ms[0]), ms[1..]))
  }

  function MoveAll(s: Net, ms: seq<Move>): Net
    requires CanMove(s, ms)
    decreases |ms|
  {
    if ms == [] then s else MoveAll(Moved(s, ms[0]), ms[1..])
  }

  lemma {:induction false} MovesKeepFifo(s: Net, ms: seq<Move>)
    requires FifoInv(s) && CanMove(s, ms)
    ensures FifoInv(MoveAll(s, ms)) && MoveAll(s, ms).fields == s.fields
    ensures |ms| + Work(MoveAll(s, ms)) <= Work(s)
    decreases |ms|
  {
    if ms != [] {
      MoveDoesWork(s, ms[0]);
      MovesKeepFifo(Moved(s, ms[0]), ms[1..]);
    }
  }

  lemma StartWork(fields: seq<seq<byte>>, sizes: seq<nat>)
    requires SizedBy(fields, sizes) && |fields| == |sizes|
    ensures FifoInv(Start(fields, sizes)) && Work(Start(fields, sizes)) == 2 * |Flat(fields)| + 2 * |fields|
  {
    StartsRight(fields, sizes);
    FlatToIsFlat(fields);
    assert sizes[..0] == [] && Offset(sizes, 0) == 0;
  }

  lemma RunLength(fields: seq<seq<byte>>, sizes: seq<nat>, ms: seq<Move>)
    requires SizedBy(fields, sizes) && |fields| == |sizes| && CanMove(Start(fields, sizes), ms)
    ensures FifoInv(MoveAll(Start(fields, sizes), ms)) && MoveAll(Start(fields, sizes), ms).fields == fields
    ensures |ms| <= 2 * |Flat(fields)| + 2 * |fields|
  {
    StartWork(fields, sizes);
    MovesKeepFifo(Start(fields, sizes), ms);
  }

  /** For every interleaving of short writes and short reads: at any moment delivered ++ in flight
      ++ unsent is the serialized image; the run is no longer than the work to do; where it can go
      no further it is finished; and a receiver that has all its fields has exactly those sent. */
  lemma EveryInterleaving(fields: seq<seq<byte>>, sizes: seq<nat>, ms: seq<Move>, s: Net)
    requires SizedBy(fields, sizes) && |fields| == |sizes|
    requires CanMove(Start(fields, sizes), ms) && s == MoveAll(Start(fields, sizes), ms)
    ensures FifoInv(s) && Delivered(s) + s.stream + Unsent(s) == Flat(fields)
    ensures |ms| <= 2 * |Flat(fields)| + 2 * |fields|
    ensures CanGoOn(s) || Finished(s)
    ensures ReceiverDone(s) ==> s.received == fields
  {
    RunLength(fields, sizes, ms);
    NothingLost(s);
    if ReceiverDone(s) { ReceivedIsSent(s); }
    if !Finished(s) { NeverStuck(s); }
  }
}
