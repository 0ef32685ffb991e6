/** Sections that run on into frames nobody has reserved: when load_file leaves free frames zero. */
module SectionSpill {
  import opened Words
  import opened FrameAllocator
  import opened PageTables
  import opened Mapping
  import opened MappingLists
  import opened DataWrites
  import opened SpareFrames
  import opened BootState
  import opened Sections

  /** One of the first n sections begins in frame f, and its page is new to page_dico. */
  predicate Begins(s: Loader, secs: seq<Section>, n: nat, f: nat)
    requires n <= |secs|
  {
    n > 0 && (Begins(s, secs, n - 1, f) || BeginsIn(s, secs[n - 1], f))
  }

  predicate BeginsIn(s: Loader, sec: Section, f: nat) {
    Loaded(sec) && FrameOf(sec.addr) == f && (f < DICO_SIZE ==> !s.dico[f])
  }

  lemma {:induction false} MarksStep(s: Loader, file: seq<byte>, secs: seq<Section>, limit: nat, f: nat)
    requires secs != [] && SoundBelow(s.m, limit) && CanLoad(s, secs, limit) && CanCopy(s, secs[0])
    requires limit <= f < NB_PAGE
    ensures LoadSection(s, file, secs[0]).m.used[f] <==> s.m.used[f] || BeginsIn(s, secs[0], f)
    ensures f < DICO_SIZE ==>
              (LoadSection(s, file, secs[0]).dico[f] <==> s.dico[f] || BeginsIn(s, secs[0], f))
  {
    var rs := Requests(secs);
    RequestsAreIdentity(secs);
    if Loaded(secs[0]) && !s.dico[FrameOf(secs[0].addr)] {
      RequestsHead(secs);
      SectionMarks(s.m, secs[0].addr, rs, limit, f);
    }
  }

  /** The frames from the limit on that are marked after n sections: the old ones, and those new
      sections begin in. */
  lemma {:induction false} MarksUpTo(states: seq<Loader>, file: seq<byte>, secs: seq<Section>, limit: nat, n: nat,
                                     f: nat)
    requires IsLoad(states, file, secs, limit) && n <= |secs| && limit <= f < NB_PAGE
    ensures states[n].m.used[f] <==> states[0].m.used[f] || Begins(states[0], secs, n, f)
    ensures f < DICO_SIZE ==> (states[n].dico[f] <==> states[0].dico[f] || Begins(states[0], secs, n, f))
    decreases n
  {
    if n > 0 {
      MarksUpTo(states, file, secs, limit, n - 1, f);
      assert LoadTraceStep(states, file, secs, limit, n - 1);
      assert secs[n - 1..] != [] && secs[n - 1..][0] == secs[n - 1];
      assert Loaded(secs[n - 1]) ==> FrameOf(secs[n - 1].addr) < DICO_SIZE;
      MarksStep(states[n - 1], file, secs[n - 1..], limit, f);
    }
  }

  /** Frame f is never handed out after the call. */
  ghost predicate Kept(s: Loader, secs: seq<Section>, f: nat) {
    Held(s.m, f) || Begins(s, secs, |secs|, f)
  }

  /** Byte k of section i is not a nonzero byte in a frame left free. */
  ghost predicate StaysIn(s: Loader, file: seq<byte>, secs: seq<Section>, i: nat, k: nat)
    requires i < |secs| && k < secs[i].size
  {
    Loaded(secs[i]) && Content(file, secs[i])[k] != 0 ==> Kept(s, secs, FrameOf(secs[i].addr + k))
  }

  ghost predicate NothingSpills(s: Loader, file: seq<byte>, secs: seq<Section>) {
    forall i, k :: 0 <= i < |secs| && 0 <= k < secs[i].size ==> StaysIn(s, file, secs, i, k)
  }

  lemma {:induction false} KeptIsMarked(s: Loader, file: seq<byte>, secs: seq<Section>, limit: nat, f: nat)
    requires SoundBelow(s.m, limit) && CanLoad(s, secs, limit) && limit <= f
    ensures Kept(s, secs, f) <==> Held(LoadAll(s, file, secs).m, f)
  {
    if 2 <= f < NB_PAGE {
      var states := LoadTrace(s, file, secs, limit);
      MarksUpTo(states, file, secs, limit, |secs|, f);
    }
  }

  /** A frame below the limit that a section touches was held before the call. */
  lemma {:induction false} LowFramesHeld(s: Loader, secs: seq<Section>, limit: nat, i: nat, k: nat)
    requires CanLoad(s, secs, limit) && i < |secs| && Loaded(secs[i]) && k < secs[i].size
    requires FrameOf(secs[i].addr + k) < limit
    ensures Held(s.m, FrameOf(secs[i].addr + k))
  {
    var f := FrameOf(secs[i].addr + k);
    assert secs[i] in secs && Overlaps(f, secs[i].addr, secs[i].size);
    if f == FrameOf(secs[i].addr) {
      RequestedTarget(secs, i);
    } else {
      assert OutOfReach(s.m, limit, f);
    }
  }

  lemma {:induction false} RequestedTarget(secs: seq<Section>, i: nat)
    requires forall sec :: sec in secs && Loaded(sec) ==> FrameOf(sec.addr) < DICO_SIZE
    requires i < |secs| && Loaded(secs[i])
    ensures FrameOf(secs[i].addr) < DICO_SIZE && Raw(secs[i].addr, secs[i].addr) in Requests(secs)
    decreases i
  {
    assert secs[i] in secs;
    if i > 0 { RequestedTarget(secs[1..], i - 1); }
  }

  /** A free frame from the limit on holds no table. */
  lemma {:induction false} FreeIsOutOfReach(m: Machine, limit: nat, f: nat)
    requires Shape(m) && limit <= f && 2 <= f < NB_PAGE && !m.used[f]
    ensures OutOfReach(m, limit, f)
  {
    forall p, l ensures !Reaches(m.mem, p, l, f) { assert TableHeld(m, p, l); }
  }

  lemma {:induction false} LoadedByte(s: Loader, file: seq<byte>, secs: seq<Section>, limit: nat, i: nat, k: nat)
    requires SoundBelow(s.m, limit) && CanLoad(s, secs, limit) && i < |secs| && Loaded(secs[i]) && k < secs[i].size
    ensures secs[i].addr + k < |LoadAll(s, file, secs).m.mem|
    ensures LoadAll(s, file, secs).m.mem[secs[i].addr + k] == Content(file, secs[i])[k]
  {
    LoadedExactly(secs[i]);
    LoadContent(s, file, secs, limit, i);
    ContentInMemory(LoadAll(s, file, secs).m.mem, file, secs[i]);
    SliceAt(LoadAll(s, file, secs).m.mem, secs[i].addr, Content(file, secs[i]), k);
  }

  lemma {:induction false} SliceAt(mem: seq<byte>, a: nat, piece: seq<byte>, k: nat)
    requires a + |piece| <= |mem| && mem[a .. a + |piece|] == piece && k < |piece|
    ensures mem[a + k] == piece[k]
  {
    assert mem[a .. a + |piece|][k] == mem[a + k];
  }

  /** A byte no section covers, in a frame that was free and holds zeros. */
  lemma {:induction false} UntouchedByte(s: Loader, file: seq<byte>, secs: seq<Section>, limit: nat, k: nat)
    requires Sound(s.m) && SoundBelow(s.m, limit) && CanLoad(s, secs, limit) && k < |s.m.mem|
    requires limit <= FrameOf(k) && !Held(s.m, FrameOf(k)) && forall i :: 0 <= i < |secs| ==> !Inside(secs[i], k)
    ensures LoadAll(s, file, secs).m.mem[k] == 0
  {
    FreeIsOutOfReach(s.m, limit, FrameOf(k));
    LoadBytes(s, file, secs, limit, k);
    assert ZeroFrame(s.m.mem, FrameOf(k));
  }

  lemma {:induction false} ZeroWhereFree(s: Loader, file: seq<byte>, secs: seq<Section>, i: nat, n: nat)
    requires NothingSpills(s, file, secs) && i < |secs| && Loaded(secs[i]) && n < secs[i].size
    requires !Kept(s, secs, FrameOf(secs[i].addr + n))
    ensures Content(file, secs[i])[n] == 0
  {
    assert StaysIn(s, file, secs, i, n);
  }

  lemma {:induction false} CoveredByte(s: Loader, file: seq<byte>, secs: seq<Section>, limit: nat, i: nat, k: nat)
    requires SoundBelow(s.m, limit) && CanLoad(s, secs, limit) && i < |secs| && Inside(secs[i], k)
    requires NothingSpills(s, file, secs) && !Kept(s, secs, FrameOf(k))
    ensures k < |LoadAll(s, file, secs).m.mem| && LoadAll(s, file, secs).m.mem[k] == 0
  {
    var n: nat := k - secs[i].addr;
    assert secs[i].addr + n == k;
    ZeroWhereFree(s, file, secs, i, n);
    LoadedByte(s, file, secs, limit, i, n);
  }

  lemma {:induction false} FreeByteIsZero(s: Loader, file: seq<byte>, secs: seq<Section>, limit: nat, k: nat)
    requires Sound(s.m) && SoundBelow(s.m, limit) && CanLoad(s, secs, limit) && k < |s.m.mem|
    requires NothingSpills(s, file, secs)
    requires limit <= FrameOf(k) && !Kept(s, secs, FrameOf(k))
    ensures LoadAll(s, file, secs).m.mem[k] == 0
  {
    if i :| 0 <= i < |secs| && Inside(secs[i], k) {
      CoveredByte(s, file, secs, limit, i, k);
    } else {
      UntouchedByte(s, file, secs, limit, k);
    }
  }

  /** load_file keeps the whole invariant, free frames zero included, if and only if every nonzero
      byte it copies lands in a frame that was reserved before the call or that a section begins
      in. */
  lemma {:induction false} LoadKeepsInvExactly(s: Loader, file: seq<byte>, secs: seq<Section>, limit: nat)
    requires Sound(s.m) && CanLoad(s, secs, limit)
    ensures Inv(LoadAll(s, file, secs).m) <==> NothingSpills(s, file, secs)
  {
    var after := LoadAll(s, file, secs).m;
    SoundIsSoundBelow(s.m);
    LoadKeepsSound(s, file, secs, limit);
    if NothingSpills(s, file, secs) {
      forall f | 2 <= f < NB_PAGE && !after.used[f] ensures ZeroFrame(after.mem, f) {
        if f >= limit { FreeFrameIsZero(s, file, secs, limit, f); }
      }
      InvIsShape(after);
    }
    if Inv(after) {
      forall i, k | 0 <= i < |secs| && 0 <= k < secs[i].size ensures StaysIn(s, file, secs, i, k) {
        CopiedByteStays(s, file, secs, limit, i, k);
      }
    }
  }

  lemma {:induction false} FreeFrameIsZero(s: Loader, file: seq<byte>, secs: seq<Section>, limit: nat, f: nat)
    requires Sound(s.m) && SoundBelow(s.m, limit) && CanLoad(s, secs, limit)
    requires NothingSpills(s, file, secs)
    requires limit <= f && !Held(LoadAll(s, file, secs).m, f)
    ensures ZeroFrame(LoadAll(s, file, secs).m.mem, f)
  {
    var mem := LoadAll(s, file, secs).m.mem;
    KeptIsMarked(s, file, secs, limit, f);
    forall k | PAGE_SIZE * f <= k < PAGE_SIZE * f + PAGE_SIZE && k < |mem| ensures mem[k] == 0 {
      assert FrameOf(k) == f;
      FreeByteIsZero(s, file, secs, limit, k);
    }
  }

  lemma {:induction false} NonzeroIsHeld(m: Machine, a: nat)
    requires Inv(m) && a < |m.mem| && m.mem[a] != 0
    ensures Held(m, FrameOf(a))
  {
    var f := FrameOf(a);
    assert 2 <= f < NB_PAGE && !m.used[f] ==> ZeroFrame(m.mem, f);
  }

  lemma {:induction false} CopiedByteStays(s: Loader, file: seq<byte>, secs: seq<Section>, limit: nat, i: nat, k: nat)
    requires SoundBelow(s.m, limit) && CanLoad(s, secs, limit) && i < |secs| && k < secs[i].size
    requires Inv(LoadAll(s, file, secs).m)
    ensures StaysIn(s, file, secs, i, k)
  {
    if Loaded(secs[i]) && Content(file, secs[i])[k] != 0 {
      var a := secs[i].addr + k;
      LoadedByte(s, file, secs, limit, i, k);
      NonzeroIsHeld(LoadAll(s, file, secs).m, a);
      if FrameOf(a) < limit {
        LowFramesHeld(s, secs, limit, i, k);
      } else {
        KeptIsMarked(s, file, secs, limit, FrameOf(a));
      }
    }
  }
}
