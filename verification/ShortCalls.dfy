/** What the system calls of a loop over short reads or writes answer, in turn. */
module ShortCalls {
  import opened Records

  function Sum(s: seq<int>): int {
    if s == [] then 0 else s[0] + Sum(s[1..])
  }

  /** The first n answers are positive and make so many bytes in all. */
  predicate Filled(answers: seq<int>, n: nat, total: int) {
    n <= |answers| && (forall i :: 0 <= i < n ==> answers[i] > 0) && Sum(answers[..n]) == total
  }

  /** What `calls` calls have done about the bytes asked for: moved them all, or come to an answer of 0 or
      less while some were left. */
  predicate Called(ok: bool, answers: seq<int>, calls: nat, moved: nat, asked: nat) {
    if ok then moved == asked && Filled(answers, calls, asked)
    else
      && moved < asked && 0 < calls <= |answers|
      && Filled(answers, calls - 1, moved) && answers[calls - 1] <= 0
  }

  /** For buffers of these sizes, one after the other: a call answers with -1 or a count of at most what is
      left of its buffer, and as long as the answers are positive there is one for every call. */
  predicate Possible(sizes: seq<nat>, answers: seq<int>)
    decreases |sizes| + |answers|
  {
    if sizes == [] then true
    else if sizes[0] == 0 then Possible(sizes[1..], answers)
    else
      && answers != [] && -1 <= answers[0] <= sizes[0]
      && (answers[0] > 0 ==> Possible([sizes[0] - answers[0]] + sizes[1..], answers[1..]))
  }

  /** Reads give no more than the n bytes there are. */
  ghost predicate There(n: nat, answers: seq<int>) {
    forall k: nat, total: int :: Filled(answers, k, total) ==> total <= n
  }

  lemma {:induction false} SumAppend(s: seq<int>, x: int)
    ensures Sum(s + [x]) == Sum(s) + x
  {
    if s == [] {
      assert s + [x] == [x] && [x][1..] == [];
    } else {
      SumAppend(s[1..], x);
      assert (s + [x])[1..] == s[1..] + [x];
    }
  }

  lemma FilledNext(answers: seq<int>, n: nat, total: int)
    requires Filled(answers, n, total) && n < |answers| && answers[n] > 0
    ensures Filled(answers, n + 1, total + answers[n])
  {
    assert answers[..n + 1] == answers[..n] + [answers[n]];
    SumAppend(answers[..n], answers[n]);
  }

  /** More answers, more bytes. */
  lemma {:induction false} FilledGrows(answers: seq<int>, m: nat, n: nat, a: int, b: int)
    requires m < n && Filled(answers, m, a) && Filled(answers, n, b)
    ensures a < b
    decreases n
  {
    assert answers[..n] == answers[..n - 1] + [answers[n - 1]];
    SumAppend(answers[..n - 1], answers[n - 1]);
    if m < n - 1 { FilledGrows(answers, m, n - 1, a, b - answers[n - 1]); }
  }

  lemma {:induction false} FilledJoin(answers: seq<int>, m: nat, n: nat, a: int, b: int)
    requires Filled(answers, m, a) && Filled(answers[m..], n, b)
    ensures Filled(answers, m + n, a + b)
    decreases n
  {
    if n == 0 {
      assert answers[m..][..0] == [];
    } else {
      var s := answers[m..];
      assert s[..n] == s[..n - 1] + [s[n - 1]];
      SumAppend(s[..n - 1], s[n - 1]);
      FilledJoin(answers, m, n - 1, a, b - s[n - 1]);
      FilledNext(answers, m + n - 1, a + b - s[n - 1]);
    }
  }

  /** A loop goes through exactly when the first answers, all positive, make the bytes asked for. */
  lemma ThroughExactly(ok: bool, answers: seq<int>, calls: nat, moved: nat, asked: nat)
    requires Called(ok, answers, calls, moved, asked)
    ensures ok <==> exists n: nat :: Filled(answers, n, asked)
  {
    if !ok {
      forall n: nat ensures !Filled(answers, n, asked) {
        if Filled(answers, n, asked) && n < calls - 1 { FilledGrows(answers, n, calls - 1, asked, moved); }
      }
    }
  }

  /** The calls of one loop, after those of the loops before. */
  lemma CalledJoin(ok: bool, answers: seq<int>, m: nat, a: nat, calls: nat, moved: nat, asked: nat)
    requires Filled(answers, m, a) && Called(ok, answers[m..], calls, moved, asked)
    ensures Called(ok, answers, m + calls, a + moved, a + asked)
  {
    FilledJoin(answers, m, if ok then calls else calls - 1, a, moved);
  }

  // ---- possible answers, loop by loop ----

  lemma PossibleOne(left: nat, answers: seq<int>)
    requires left > 0 && Possible([left], answers)
    ensures answers != [] && -1 <= answers[0] <= left
    ensures answers[0] > 0 ==> Possible([left - answers[0]], answers[1..])
  {
    assert [left][1..] == [];
    if answers[0] > 0 { assert [left - answers[0]] + [] == [left - answers[0]]; }
  }

  lemma {:induction false} PossibleFirst(n: nat, others: seq<nat>, answers: seq<int>)
    requires Possible([n] + others, answers)
    ensures Possible([n], answers)
    decreases |answers|
  {
    var sizes, one: seq<nat> := [n] + others, [n];
    assert sizes[1..] == others && one[1..] == [];
    if n > 0 && answers[0] > 0 {
      PossibleFirst(n - answers[0], others, answers[1..]);
      assert [n - answers[0]] + [] == [n - answers[0]];
    }
  }

  /** After the answers that fill the first k buffers come possible answers for the others. */
  lemma {:induction false} PossibleRest(sizes: seq<nat>, k: nat, answers: seq<int>, calls: nat)
    requires k <= |sizes| && Possible(sizes, answers) && Filled(answers, calls, Total(sizes[..k]))
    ensures Possible(sizes[k..], answers[calls..])
    decreases |sizes| + |answers|
  {
    assert answers[..0] == [];
    if k == 0 {
      if calls > 0 { FilledGrows(answers, 0, calls, 0, 0); }
      assert sizes[0..] == sizes && answers[0..] == answers;
    } else if sizes[0] == 0 {
      assert sizes[..k][1..] == sizes[1..][..k - 1] && sizes[k..] == sizes[1..][k - 1..];
      PossibleRest(sizes[1..], k - 1, answers, calls);
    } else {
      var next := [sizes[0] - answers[0]] + sizes[1..];
      assert next[..k][1..] == sizes[..k][1..] && next[k..] == sizes[k..];
      assert answers[..calls][1..] == answers[1..][..calls - 1] && answers[1..][calls - 1..] == answers[calls..];
      PossibleRest(next, k, answers[1..], calls - 1);
    }
  }

  lemma ThereAfter(n: nat, answers: seq<int>, calls: nat, moved: int)
    requires There(n, answers) && Filled(answers, calls, moved)
    ensures moved <= n && There(n - moved, answers[calls..])
  {
    forall k: nat, total: int | Filled(answers[calls..], k, total) ensures total <= n - moved {
      FilledJoin(answers, calls, k, moved, total);
    }
  }

  /** The next read gives no more than is left. */
  lemma AnswerThere(n: nat, answers: seq<int>, calls: nat, moved: int)
    requires There(n, answers) && Filled(answers, calls, moved) && calls < |answers|
    ensures answers[calls] <= 0 || answers[calls] <= n - moved
  {
    if answers[calls] > 0 { FilledNext(answers, calls, moved); }
  }
}
