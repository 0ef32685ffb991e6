/** The loops of my_write and my_read as runs of the transfer: each positive answer of a system call is a
    Write or a Read, and the end of a loop is a NextOut or a NextIn. */
module TransferRuns {
  import opened Records
  import opened Transfer
  import opened ShortCalls

  /** The moves of one end, for buffers of these sizes and these answers. */
  function CallMoves(sends: bool, sizes: seq<nat>, answers: seq<int>): seq<Move>
    decreases |sizes| + |answers|
  {
    if sizes == [] then []
    else if sizes[0] == 0 then [if sends then NextOut else NextIn] + CallMoves(sends, sizes[1..], answers)
    else if answers == [] || !(0 < answers[0] <= sizes[0]) then []
    else [if sends then Write(answers[0]) else Read(answers[0])] +
         CallMoves(sends, [sizes[0] - answers[0]] + sizes[1..], answers[1..])
  }

  /** The answers are enough for all buffers. */
  ghost predicate Enough(sizes: seq<nat>, answers: seq<int>) {
    exists n: nat :: Filled(answers, n, Total(sizes))
  }

  lemma EnoughForNone(answers: seq<int>)
    ensures Enough([], answers)
  {
    assert answers[..0] == [];
    assert Filled(answers, 0, Total([]));
  }

  lemma EnoughWithout(sizes: seq<nat>, answers: seq<int>)
    requires sizes != [] && sizes[0] == 0
    ensures Enough(sizes, answers) <==> Enough(sizes[1..], answers)
  {
    assert Total(sizes) == Total(sizes[1..]);
  }

  /** Enough answers for more than no byte begin with a positive one, and the rest are enough for what
      that leaves. */
  lemma EnoughNext(sizes: seq<nat>, answers: seq<int>)
    requires sizes != [] && sizes[0] > 0 && answers != [] && answers[0] <= sizes[0]
    ensures answers[0] <= 0 ==> !Enough(sizes, answers)
    ensures answers[0] > 0 ==> (Enough(sizes, answers) <==> Enough([sizes[0] - answers[0]] + sizes[1..], answers[1..]))
  {
    assert answers[..0] == [];
    if answers[0] > 0 {
      var next := [sizes[0] - answers[0]] + sizes[1..];
      assert Total(next) == Total(sizes) - answers[0];
      forall n: nat ensures Filled(answers, n + 1, Total(sizes)) <==> Filled(answers[1..], n, Total(next)) {
        if n < |answers| {
          assert answers[..n + 1][1..] == answers[1..][..n];
          if Filled(answers[1..], n, Total(next)) {
            forall i | 0 <= i < n + 1 ensures answers[i] > 0 { if i > 0 { assert answers[i] == answers[1..][i - 1]; } }
          }
        }
      }
      if n: nat :| Filled(answers, n, Total(sizes)) { assert Filled(answers[1..], n - 1, Total(next)); }
      if n: nat :| Filled(answers[1..], n, Total(next)) { assert Filled(answers, n + 1, Total(sizes)); }
    }
  }

  // ---- the sender ----

  ghost predicate Sender(s: Net) {
    s.f <= |s.fields| && (s.f < |s.fields| ==> s.sent <= |s.fields[s.f]|)
  }

  /** What the sender's buffers have left. */
  function Unwritten(s: Net): seq<nat>
    requires Sender(s)
  {
    if s.f == |s.fields| then [] else [|s.fields[s.f]| - s.sent] + Sizes(s.fields[s.f + 1..])
  }

  /** The move the sender makes next, if it has an answer to go on with, and the answers after it. */
  lemma NextSent(s: Net, answers: seq<int>) returns (m: Move, next: Net, rest: seq<int>)
    requires Sender(s) && Possible(Unwritten(s), answers) && Unwritten(s) != []
    requires Unwritten(s)[0] > 0 ==> answers[0] > 0
    ensures Enabled(s, m) && next == Moved(s, m) && Sender(next) && Possible(Unwritten(next), rest)
    ensures next.fields == s.fields && s.f <= next.f && (s.f == next.f ==> |rest| < |answers|)
    ensures CallMoves(true, Unwritten(s), answers) == [m] + CallMoves(true, Unwritten(next), rest)
    ensures Enough(Unwritten(s), answers) <==> Enough(Unwritten(next), rest)
  {
    var left := Unwritten(s);
    if left[0] == 0 {
      m, rest := NextOut, answers;
      next := Moved(s, m);
      assert left[1..] == Unwritten(next);
      EnoughWithout(left, answers);
    } else {
      m, rest := Write(answers[0]), answers[1..];
      next := Moved(s, m);
      assert [left[0] - answers[0]] + left[1..] == Unwritten(next);
      EnoughNext(left, answers);
    }
  }

  /** The calls of send_vm_image are moves of the transfer, and it has sent every field exactly when the
      answers are enough. */
  lemma {:induction false} SenderRuns(s: Net, answers: seq<int>)
    requires Sender(s) && Possible(Unwritten(s), answers)
    ensures CanMove(s, CallMoves(true, Unwritten(s), answers))
    ensures MoveAll(s, CallMoves(true, Unwritten(s), answers)).f == |s.fields| <==> Enough(Unwritten(s), answers)
    decreases |s.fields| - s.f, |answers|
  {
    if Unwritten(s) == [] {
      EnoughForNone(answers);
    } else if Unwritten(s)[0] > 0 && answers[0] <= 0 {
      EnoughNext(Unwritten(s), answers);
    } else {
      var m, next, rest := NextSent(s, answers);
      SenderRuns(next, rest);
      FirstMove(s, m, CallMoves(true, Unwritten(next), rest));
    }
  }

  lemma FirstMove(s: Net, m: Move, ms: seq<Move>)
    requires Enabled(s, m) && CanMove(Moved(s, m), ms)
    ensures CanMove(s, [m] + ms) && MoveAll(s, [m] + ms) == MoveAll(Moved(s, m), ms)
  {
    assert ([m] + ms)[1..] == ms;
  }

  // ---- the receiver ----

  ghost predicate Receiver(s: Net) {
    |s.received| <= |s.sizes| && (|s.received| < |s.sizes| ==> |s.part| <= s.sizes[|s.received|])
  }

  /** What the receiver's buffers have left. */
  function Unread(s: Net): seq<nat>
    requires Receiver(s)
  {
    if |s.received| == |s.sizes| then [] else [s.sizes[|s.received|] - |s.part|] + s.sizes[|s.received| + 1..]
  }

  lemma FirstRead(n: nat, answers: seq<int>)
    requires There(n, answers) && answers != [] && answers[0] > 0
    ensures answers[0] <= n && There(n - answers[0], answers[1..])
  {
    assert answers[..0] == [];
    FilledNext(answers, 0, 0);
    ThereAfter(n, answers, 1, answers[0]);
  }

  lemma NextReceived(s: Net, answers: seq<int>) returns (m: Move, next: Net, rest: seq<int>)
    requires Receiver(s) && Possible(Unread(s), answers) && There(|s.stream|, answers) && Unread(s) != []
    requires Unread(s)[0] > 0 ==> answers[0] > 0
    ensures Enabled(s, m) && next == Moved(s, m) && Receiver(next) && Possible(Unread(next), rest)
    ensures There(|next.stream|, rest) && next.sizes == s.sizes
    ensures |s.received| <= |next.received| && (|s.received| == |next.received| ==> |rest| < |answers|)
    ensures CallMoves(false, Unread(s), answers) == [m] + CallMoves(false, Unread(next), rest)
    ensures Enough(Unread(s), answers) <==> Enough(Unread(next), rest)
  {
    var left := Unread(s);
    if left[0] == 0 {
      m, rest := NextIn, answers;
      next := Moved(s, m);
      assert left[1..] == Unread(next);
      EnoughWithout(left, answers);
    } else {
      m, rest := Read(answers[0]), answers[1..];
      FirstRead(|s.stream|, answers);
      next := Moved(s, m);
      assert [left[0] - answers[0]] + left[1..] == Unread(next);
      EnoughNext(left, answers);
    }
  }

  /** The calls of receive_vm_image are moves of the transfer, and it has received every field exactly when
      the answers are enough. */
  lemma {:induction false} ReceiverRuns(s: Net, answers: seq<int>)
    requires Receiver(s) && Possible(Unread(s), answers) && There(|s.stream|, answers)
    ensures CanMove(s, CallMoves(false, Unread(s), answers))
    ensures ReceiverDone(MoveAll(s, CallMoves(false, Unread(s), answers))) <==> Enough(Unread(s), answers)
    decreases |s.sizes| - |s.received|, |answers|
  {
    if Unread(s) == [] {
      EnoughForNone(answers);
    } else if Unread(s)[0] > 0 && answers[0] <= 0 {
      EnoughNext(Unread(s), answers);
    } else {
      var m, next, rest := NextReceived(s, answers);
      ReceiverRuns(next, rest);
      FirstMove(s, m, CallMoves(false, Unread(next), rest));
    }
  }
}
