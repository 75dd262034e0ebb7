/**
 * Rewinding over a run of several cycles.  `state_seek` restores, newest
 * first, the value each record replaced; this module proves that the place
 * a rewind to cycle n lands on does not move while the simulator goes on
 * logging writes, starting cycles and committing them, so a rewind to n
 * from any later state restores the cells as they were when cycle n had
 * been committed.
 */
module RewindTrace {
  import opened StateLog
  import opened StateSteps
  import opened CommitWalk

  /** A flags word marks an I/O access that rewinds may not cross. */
  predicate Barred(w: Word)
  {
    w & IO_BARRIER != 0
  }

  /** Rewinding s to cycle n succeeds and leaves cells m with the head on record h. */
  ghost predicate RewindsTo(s: EngineState, n: int, m: map<Cell, Word>, h: nat)
  {
    && Inv(s)
    && var p := SeekBackward(s.live, s.recs, s.flags, s.head, n);
       p.status == Done && p.live == m && p.head == h
  }

  /**
   * Record ids L hang backwards off anchor a: each one's `prev` is the one
   * before it (the anchor for the first), and ids increase.
   */
  ghost predicate BackLinked(recs: seq<Record>, a: nat, L: seq<nat>)
  {
    && a < |recs|
    && forall k :: 0 <= k < |L| ==> PrevOf(a, L, k) < L[k] < |recs| && recs[L[k]].prev == PrevOf(a, L, k)
  }

  /** The targets of the records L. */
  ghost function Targets(recs: seq<Record>, L: seq<nat>): (ts: set<Target>)
    requires forall k :: 0 <= k < |L| ==> L[k] < |recs|
    ensures forall k :: 0 <= k < |L| ==> recs[L[k]].target in ts
    decreases |L|
  {
    if L == [] then {}
    else Targets(recs, L[..|L| - 1]) + {recs[L[|L| - 1]].target}
  }

  /** Two maps of cells that differ at most on the cells of ts. */
  ghost predicate AgreeOff(x: map<Cell, Word>, y: map<Cell, Word>, ts: set<Target>)
  {
    x.Keys == y.Keys && forall c :: c in x && At(c) !in ts ==> x[c] == y[c]
  }

  /**
   * A step that leaves the cells and the head alone, keeps every record's
   * payload and back link, and sets or clears no barrier mark: a rewind
   * does not see it.
   */
  ghost predicate Quiet(s: EngineState, s': EngineState)
  {
    && s'.live == s.live && s'.head == s.head
    && |s.recs| <= |s'.recs| && |s.flags| <= |s'.flags|
    && (forall i :: 0 <= i < |s.recs| ==> Payload(s'.recs[i]) == Payload(s.recs[i]) && s'.recs[i].prev == s.recs[i].prev)
    && (forall i :: 0 <= i < |s.flags| ==> Barred(s'.flags[i]) == Barred(s.flags[i]))
  }

  /** One step of a run, as the rewind to cycle n sees it. */
  datatype Act =
    | Log(g: Stage, t: Target, v: Word)   // a logged write (`_state_write`)
    | Other                               // a quiet step
    | Latch(orig: int)                    // the first walk of `_state_tock`

  /**
   * s' follows s by act: a write logged in a cycle later than n under a
   * flags word without the barrier mark, a quiet step, or a commit of a
   * cycle later than n that unlinks no record.
   */
  ghost predicate StepBy(build: Build, n: int, s: EngineState, act: Act, s': EngineState)
  {
    match act
    case Log(g, t, v) =>
      Inv(s) && t.At? && t.cell in s.live && n < s.cycle && !Barred(s.flags[s.cur])
      && s' == LogWrite(build, s, g, t, v)
    case Other => Inv(s) && Inv(s') && Quiet(s, s')
    case Latch(orig) =>
      && Inv(s) && s.cycleHead != -1 && n < s.cycle && Applied(build, s, s', orig)
      && ChainKept(build, s) && Inv(s')
  }

  /** The commit of s keeps every record of its cycle listed. */
  ghost predicate ChainKept(build: Build, s: EngineState)
    requires Inv(s) && s.cycleHead != -1
  {
    ChainCommittable(s.recs, s.flags, s.live, s.cycleHead, s.pending);
    Kept(build.debug1, s.recs, s.flags, s.pending) == s.pending
  }

  // ---------------------------------------------------------------------
  // What a backward seek depends on

  /**
   * A backward seek reads only payloads, back links and barrier marks of
   * the records up to its start, so more records, new forward links or
   * other flag bits do not change where it lands.
   */
  lemma {:induction false} SeekBackwardFrame(live: map<Cell, Word>, recs: seq<Record>, flags: seq<Word>,
                                             recs': seq<Record>, flags': seq<Word>, h: nat, n: int)
    requires Arena(recs, flags, live) && Arena(recs', flags', live) && h < |recs| <= |recs'|
    requires forall i :: 0 <= i < |recs| ==> Payload(recs'[i]) == Payload(recs[i]) && recs'[i].prev == recs[i].prev
    requires |flags| <= |flags'| && forall i :: 0 <= i < |flags| ==> Barred(flags'[i]) == Barred(flags[i])
    ensures SeekBackward(live, recs', flags', h, n) == SeekBackward(live, recs, flags, h, n)
    decreases h
  {
    var r, r' := recs[h], recs'[h];
    assert Payload(r') == Payload(r) && r'.prev == r.prev;
    assert RecOk(recs, flags, live, h);
    assert Barred(flags'[r.flags]) == Barred(flags[r.flags]);
    if r.cycle > n && !Barred(flags[r.flags]) && r.prev != -1 {
      var live' := live[r.target.cell := r.prevVal];
      ArenaWider(recs, flags, live, flags, live');
      ArenaWider(recs', flags', live, flags', live');
      SeekBackwardFrame(live', recs, flags, recs', flags', r.prev, n);
    }
  }

  /** The anchor's chain hangs backwards off it. */
  lemma ChainBackLinked(recs: seq<Record>, a: nat, L: seq<nat>)
    requires Chain(recs, a, L)
    ensures BackLinked(recs, a, L)
  {
    forall k | 0 <= k < |L|
      ensures PrevOf(a, L, k) < L[k] < |recs| && recs[L[k]].prev == PrevOf(a, L, k)
    {
      assert ChainLink(recs, a, L, k);
    }
  }

  /** Dropping the last of a backward-linked list leaves one. */
  lemma BackLinkedPrefix(recs: seq<Record>, a: nat, L: seq<nat>)
    requires BackLinked(recs, a, L) && L != []
    ensures BackLinked(recs, a, L[..|L| - 1])
  {
    var L' := L[..|L| - 1];
    forall k | 0 <= k < |L'|
      ensures PrevOf(a, L', k) < L'[k] < |recs| && recs[L'[k]].prev == PrevOf(a, L', k)
    {
      assert L'[k] == L[k] && PrevOf(a, L', k) == PrevOf(a, L, k);
    }
  }

  /**
   * A rewind from the last of the records L, all later than cycle n,
   * passes through every one of them; one that succeeds from cells x lands
   * in the same place from any cells y that differ from x only on their
   * targets.
   */
  lemma {:induction false} SeekPastChain(x: map<Cell, Word>, y: map<Cell, Word>, recs: seq<Record>, flags: seq<Word>,
                                         a: nat, L: seq<nat>, n: int)
    requires Arena(recs, flags, x) && Arena(recs, flags, y) && BackLinked(recs, a, L)
    requires forall k :: 0 <= k < |L| ==> recs[L[k]].cycle > n
    requires AgreeOff(x, y, Targets(recs, L))
    requires SeekBackward(x, recs, flags, Last(a, L), n).status == Done
    ensures SeekBackward(y, recs, flags, Last(a, L), n) == SeekBackward(x, recs, flags, Last(a, L), n)
    decreases |L|
  {
    if L == [] {
      assert x == y;
    } else {
      var L' := L[..|L| - 1];
      var r := recs[L[|L| - 1]];
      UndoLast(x, recs, flags, a, L, n);
      UndoLast(y, recs, flags, a, L, n);
      var x', y' := x[r.target.cell := r.prevVal], y[r.target.cell := r.prevVal];
      assert Targets(recs, L) == Targets(recs, L') + {r.target};
      assert AgreeOff(x', y', Targets(recs, L'));
      BackLinkedPrefix(recs, a, L);
      assert forall k :: 0 <= k < |L'| ==> L'[k] == L[k];
      SeekPastChain(x', y', recs, flags, a, L', n);
    }
  }

  /** One backward step over the last of L, a record later than cycle n. */
  lemma UndoLast(x: map<Cell, Word>, recs: seq<Record>, flags: seq<Word>, a: nat, L: seq<nat>, n: int)
    requires Arena(recs, flags, x) && BackLinked(recs, a, L) && L != [] && recs[L[|L| - 1]].cycle > n
    ensures var r := recs[L[|L| - 1]];
      && r.flags < |flags| && r.target.At? && r.target.cell in x
      && Arena(recs, flags, x[r.target.cell := r.prevVal])
      && SeekBackward(x, recs, flags, L[|L| - 1], n) ==
         if Barred(flags[r.flags]) then Pos(x, L[|L| - 1], r.cycle, Tolerable)
         else SeekBackward(x[r.target.cell := r.prevVal], recs, flags, Last(a, L[..|L| - 1]), n)
  {
    var j := |L| - 1;
    var h := L[j];
    var r := recs[h];
    assert r.prev == PrevOf(a, L, j) == Last(a, L[..j]) && PrevOf(a, L, j) < h;
    assert RecOk(recs, flags, x, h);
    ArenaWider(recs, flags, x, flags, x[r.target.cell := r.prevVal]);
  }

  /** A commit changes no cell but the targets of the records it walks. */
  lemma {:induction false} CommitOnTargets(live: map<Cell, Word>, recs: seq<Record>, flags: seq<Word>, L: seq<nat>)
    requires Committable(recs, flags, live, L)
    ensures AgreeOff(live, Commit(live, recs, flags, L), Targets(recs, L))
    decreases |L|
  {
    if L != [] {
      var L' := L[..|L| - 1];
      assert Committable(recs, flags, live, L');
      CommitOnTargets(live, recs, flags, L');
      assert Targets(recs, L) == Targets(recs, L') + {recs[L[|L| - 1]].target};
    }
  }

  // ---------------------------------------------------------------------
  // Each kind of step keeps the landing place

  /** A rewind to n first undoes a write logged after n, back to the cells it found. */
  lemma UndoNewest(build: Build, s: EngineState, g: Stage, t: Target, v: Word, n: int)
    requires Inv(s) && t.At? && t.cell in s.live && n < s.cycle && !Barred(s.flags[s.cur])
    ensures Arena(LogWrite(build, s, g, t, v).recs, s.flags, s.live)
    ensures var s' := LogWrite(build, s, g, t, v);
      SeekBackward(s'.live, s'.recs, s'.flags, s'.head, n) == SeekBackward(s.live, s'.recs, s'.flags, s.head, n)
  {
    var s' := LogWrite(build, s, g, t, v);
    var r := s'.recs[s'.head];
    assert RecOk(s'.recs, s'.flags, s'.live, s'.head);
    assert s'.live[t.cell := r.prevVal] == s.live;
    ArenaWider(s'.recs, s'.flags, s'.live, s'.flags, s.live);
  }

  /**
   * Rewinding past a write logged after cycle n (under a flags word
   * without the barrier mark) lands where the rewind from before the
   * write did.
   */
  lemma LogKeepsRewind(build: Build, s: EngineState, g: Stage, t: Target, v: Word, n: int, m: map<Cell, Word>, h: nat)
    requires Inv(s) && t.At? && t.cell in s.live && n < s.cycle && !Barred(s.flags[s.cur])
    requires RewindsTo(s, n, m, h)
    ensures RewindsTo(LogWrite(build, s, g, t, v), n, m, h)
  {
    var s' := LogWrite(build, s, g, t, v);
    UndoNewest(build, s, g, t, v, n);
    LogWriteFrame(build, s, g, t, v);
    SeekBackwardFrame(s.live, s.recs, s.flags, s'.recs, s'.flags, s.head, n);
  }

  /** A quiet step does not move the landing place. */
  lemma QuietKeepsRewind(s: EngineState, s': EngineState, n: int, m: map<Cell, Word>, h: nat)
    requires Inv(s') && Quiet(s, s') && RewindsTo(s, n, m, h)
    ensures RewindsTo(s', n, m, h)
  {
    SeekBackwardFrame(s.live, s.recs, s.flags, s'.recs, s'.flags, s.head, n);
  }

  /**
   * A commit of a cycle later than n that keeps every payload and back
   * link: rewinding over the cycle's records discards whatever it wrote.
   */
  lemma CommitKeepsRewind(s: EngineState, s': EngineState, n: int, m: map<Cell, Word>, h: nat)
    requires Inv(s') && s.cycleHead != -1 && n < s.cycle && RewindsTo(s, n, m, h)
    requires Committable(s.recs, s.flags, s.live, s.pending)
    requires s'.live == Commit(s.live, s.recs, s.flags, s.pending) && s'.head == s.head && s'.flags == s.flags
    requires |s'.recs| == |s.recs|
    requires forall i :: 0 <= i < |s.recs| ==> Payload(s'.recs[i]) == Payload(s.recs[i]) && s'.recs[i].prev == s.recs[i].prev
    ensures RewindsTo(s', n, m, h)
  {
    var a: nat, P := s.cycleHead, s.pending;
    ArenaWider(s.recs, s.flags, s.live, s.flags, s'.live);
    SeekBackwardFrame(s'.live, s.recs, s.flags, s'.recs, s'.flags, s.head, n);
    ChainBackLinked(s.recs, a, P);
    assert forall k :: 0 <= k < |P| ==> s.recs[P[k]].cycle > n;
    CommitOnTargets(s.live, s.recs, s.flags, P);
    SeekPastChain(s.live, s'.live, s.recs, s.flags, a, P, n);
  }

  /** The first walk of `_state_tock` is such a commit when it unlinks nothing. */
  lemma LatchKeepsRewind(build: Build, s: EngineState, s': EngineState, orig: int, n: int, m: map<Cell, Word>, h: nat)
    requires StepBy(build, n, s, Latch(orig), s') && RewindsTo(s, n, m, h)
    ensures RewindsTo(s', n, m, h)
  {
    ChainCommittable(s.recs, s.flags, s.live, s.cycleHead, s.pending);
    LatchKeepsLinks(build, s, s', orig);
    CommitKeepsRewind(s, s', n, m, h);
  }

  // ---------------------------------------------------------------------
  // The engine's own steps that a rewind does not see

  /** Two flags words that differ only in bits other than the barrier mark agree on the mark. */
  lemma SameOutside(w: Word, w': Word, bits: Word)
    requires bits & IO_BARRIER == 0 && w' & !bits == w & !bits
    ensures Barred(w') == Barred(w)
  {
    assert w' & IO_BARRIER == (w' & !bits) & IO_BARRIER;
    assert w & IO_BARRIER == (w & !bits) & IO_BARRIER;
  }

  /** Setting flag bits other than the barrier mark is quiet. */
  lemma SetBitsQuiet(s: EngineState, bits: Word)
    requires Inv(s) && bits & IO_BARRIER == 0
    ensures Quiet(s, SetBits(s, bits))
  {
    SetBitsOutside(s, bits);
    SameOutside(s.flags[s.cur], SetBits(s, bits).flags[s.cur], bits);
  }

  /** Clearing bits other than the barrier mark leaves the mark alone. */
  lemma ClearKeepsBarrier(w: Word, bits: Word)
    requires bits & IO_BARRIER == 0
    ensures Barred(w & !bits) == Barred(w)
  {
  }

  /** What ClearBits leaves in the current flags word. */
  lemma ClearBitsWord(s: EngineState, bits: Word)
    requires Inv(s)
    ensures ClearBits(s, bits).flags[s.cur] == s.flags[s.cur] & !bits
  {
  }

  /** Clearing flag bits other than the barrier mark is quiet. */
  lemma ClearBitsQuiet(s: EngineState, bits: Word)
    requires Inv(s) && bits & IO_BARRIER == 0
    ensures Quiet(s, ClearBits(s, bits))
  {
    ClearBitsWord(s, bits);
    ClearKeepsBarrier(s.flags[s.cur], bits);
  }

  /** `state_start_tick` is quiet: it only cuts forward links and adds a flags word. */
  lemma RetickQuiet(s: EngineState)
    requires Inv(s)
    ensures Quiet(s, Retick(s))
  {
    RetickFacts(s);
    var s' := Retick(s);
    forall i | 0 <= i < |s.flags|
      ensures Barred(s'.flags[i]) == Barred(s.flags[i])
    {
      if i == s.cur {
        OrOutside(s.flags[i], BLOCKING_ASYNC);
        SameOutside(s.flags[i], s'.flags[i], BLOCKING_ASYNC);
      }
    }
  }

  /** `stall` is quiet: it only sets a stage bit, or changes nothing. */
  lemma StallQuiet(s: EngineState, g: Stage)
    requires Inv(s)
    ensures Quiet(s, StallStep(s, g).state)
  {
    if g in {PRE, IF, ID} {
      assert StageBit(g) & IO_BARRIER == 0;
      SetBitsQuiet(s, StageBit(g));
    }
  }

  /** `state_pipeline_flush` is quiet: it sets the flush bit and the new PC. */
  lemma FlushRequestQuiet(s: EngineState, newPc: Word)
    requires Inv(s)
    ensures Quiet(s, FlushRequest(s, newPc))
  {
    SetBitsQuiet(s, PIPELINE_FLUSH);
  }

  /** A write that is not direct is either dropped (quiet) or logged. */
  lemma WriteStepSeen(build: Build, s: EngineState, g: Stage, t: Target, v: Word)
    requires Inv(s) && (t.At? ==> t.cell in s.live) && KindOf(build, s.flags[s.cur], g, t) != Direct
    ensures var r := WriteStep(build, s, g, t, v);
      Quiet(s, r.state) || (t.At? && r.state == LogWrite(build, s, g, t, v))
  {
  }

  /** A commit that unlinks nothing keeps every payload and back link. */
  lemma LatchKeepsLinks(build: Build, s: EngineState, s': EngineState, orig: int)
    requires Inv(s) && s.cycleHead != -1 && Applied(build, s, s', orig) && ChainKept(build, s)
    ensures |s'.recs| == |s.recs|
    ensures forall i :: 0 <= i < |s.recs| ==> Payload(s'.recs[i]) == Payload(s.recs[i]) && s'.recs[i].prev == s.recs[i].prev
  {
    var a: nat, P := s.cycleHead, s.pending;
    ChainCommittable(s.recs, s.flags, s.live, a, P);
    assert Kept(build.debug1, s.recs, s.flags, P) == P;
    forall i | 0 <= i < |s.recs|
      ensures Payload(s'.recs[i]) == Payload(s.recs[i]) && s'.recs[i].prev == s.recs[i].prev
    {
      if !build.debug1 && i in P {
        var k :| 0 <= k < |P| && P[k] == i;
        assert ChainLink(s.recs, a, P, k);
        assert ChainLink(s'.recs, a, P, k);
      }
    }
  }

  /** Any one step of a run keeps the landing place of a rewind to n. */
  lemma StepKeepsRewind(build: Build, n: int, s: EngineState, act: Act, s': EngineState, m: map<Cell, Word>, h: nat)
    requires StepBy(build, n, s, act, s') && RewindsTo(s, n, m, h)
    ensures RewindsTo(s', n, m, h)
  {
    match act
    case Log(g, t, v) => LogKeepsRewind(build, s, g, t, v, n, m, h);
    case Other => QuietKeepsRewind(s, s', n, m, h);
    case Latch(orig) => LatchKeepsRewind(build, s, s', orig, n, m, h);
  }

  /** A run: states ss, each reached from the one before by acts. */
  ghost predicate Run(build: Build, n: int, ss: seq<EngineState>, acts: seq<Act>)
  {
    && |ss| == |acts| + 1
    && forall i :: 0 <= i < |acts| ==> StepBy(build, n, ss[i], acts[i], ss[i + 1])
  }

  /** A run without its first step is a run. */
  lemma RunTail(build: Build, n: int, ss: seq<EngineState>, acts: seq<Act>)
    requires Run(build, n, ss, acts) && acts != []
    ensures Run(build, n, ss[1..], acts[1..])
  {
    forall i | 0 <= i < |acts[1..]|
      ensures StepBy(build, n, ss[1..][i], acts[1..][i], ss[1..][i + 1])
    {
      assert StepBy(build, n, ss[i + 1], acts[i + 1], ss[i + 2]);
    }
  }

  /** However long the run, a rewind to n from its end lands where it did from its start. */
  lemma {:induction false} RunKeepsRewind(build: Build, n: int, ss: seq<EngineState>, acts: seq<Act>, m: map<Cell, Word>, h: nat)
    requires Run(build, n, ss, acts) && RewindsTo(ss[0], n, m, h)
    ensures RewindsTo(ss[|acts|], n, m, h)
    decreases |acts|
  {
    if acts != [] {
      StepKeepsRewind(build, n, ss[0], acts[0], ss[1], m, h);
      RunTail(build, n, ss, acts);
      RunKeepsRewind(build, n, ss[1..], acts[1..], m, h);
    }
  }

  /**
   * The simulator's promise for rewinds: start from a state whose newest
   * record belongs to cycle n or earlier (as the state is right after
   * cycle n's commit), then run any number of cycles of logged writes,
   * quiet steps and commits that unlink nothing, with no I/O barrier.  A
   * seek back to n from the end succeeds and restores every cell and the
   * head to what they were at the start.
   */
  lemma RewindRestoresRun(build: Build, n: int, ss: seq<EngineState>, acts: seq<Act>)
    requires Run(build, n, ss, acts) && Inv(ss[0]) && ss[0].recs[ss[0].head].cycle <= n
    ensures var s, e := ss[0], ss[|acts|];
      Inv(e) && SeekBackward(e.live, e.recs, e.flags, e.head, n) == Pos(s.live, s.head, s.recs[s.head].cycle, Done)
  {
    var s, e := ss[0], ss[|acts|];
    assert RecOk(s.recs, s.flags, s.live, s.head);
    RunKeepsRewind(build, n, ss, acts, s.live, s.head);
    RunKeepsRecord(build, n, ss, acts, s.head);
  }

  /** No step changes the payload of a record that exists. */
  lemma StepKeepsRecords(build: Build, n: int, s: EngineState, act: Act, s': EngineState)
    requires StepBy(build, n, s, act, s')
    ensures |s.recs| <= |s'.recs| && forall i :: 0 <= i < |s.recs| ==> Payload(s'.recs[i]) == Payload(s.recs[i])
  {
    match act
    case Log(g, t, v) => LogWriteFrame(build, s, g, t, v);
    case Other =>
    case Latch(orig) =>
  }

  /** The steps of a run never change the payload of a record that exists. */
  lemma {:induction false} RunKeepsRecord(build: Build, n: int, ss: seq<EngineState>, acts: seq<Act>, i: nat)
    requires Run(build, n, ss, acts) && i < |ss[0].recs|
    ensures i < |ss[|acts|].recs| && Payload(ss[|acts|].recs[i]) == Payload(ss[0].recs[i])
    decreases |acts|
  {
    if acts != [] {
      StepKeepsRecords(build, n, ss[0], acts[0], ss[1]);
      RunTail(build, n, ss, acts);
      RunKeepsRecord(build, n, ss[1..], acts[1..], i);
    }
  }
}
