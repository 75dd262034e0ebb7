/**
 * Replaying over several cycles.  A forward `state_seek` re-applies, in
 * list order, the new value of each record after the head, counting a
 * cycle whenever the next record starts a later cycle.  This module proves
 * what replay does over any chain of records, and that after a run of
 * whole cycles with no stalled record a rewind followed by a replay over
 * as many cycles as were committed returns to the cells and head the run
 * ended with.
 */
module ReplayTrace {
  import opened StateLog
  import opened StateSteps
  import opened CommitWalk
  import opened RewindTrace

  // ---------------------------------------------------------------------
  // Replaying over several cycles

  /** The cells after applying the new value of every record of L, in order. */
  ghost function Replayed(x: map<Cell, Word>, recs: seq<Record>, L: seq<nat>): (y: map<Cell, Word>)
    requires forall k :: 0 <= k < |L| ==> L[k] < |recs| && recs[L[k]].target.At? && recs[L[k]].target.cell in x
    ensures y.Keys == x.Keys
    decreases |L|
  {
    if L == [] then x
    else
      var r := recs[L[0]];
      Replayed(x[r.target.cell := r.val], recs, L[1..])
  }

  /** The number of cycles the records L span: one per record that the next one's cycle follows, and one for the last. */
  ghost function Blocks(recs: seq<Record>, L: seq<nat>): nat
    requires forall k :: 0 <= k < |L| ==> L[k] < |recs|
    decreases |L|
  {
    if L == [] then 0
    else (if |L| == 1 || recs[L[1]].cycle > recs[L[0]].cycle then 1 else 0) + Blocks(recs, L[1..])
  }

  /** A non-empty list of records spans at least one cycle. */
  lemma {:induction false} BlocksPositive(recs: seq<Record>, L: seq<nat>)
    requires forall k :: 0 <= k < |L| ==> L[k] < |recs|
    ensures L != [] ==> Blocks(recs, L) >= 1
    decreases |L|
  {
    if |L| > 1 {
      BlocksPositive(recs, L[1..]);
    }
  }

  /** What follows the first element of a chain hangs off it. */
  lemma ChainTail(recs: seq<Record>, a: nat, L: seq<nat>)
    requires Chain(recs, a, L) && L != []
    ensures Chain(recs, L[0], L[1..]) && Last(L[0], L[1..]) == Last(a, L)
  {
    assert ChainLink(recs, a, L, 0);
    forall k | 0 <= k < |L[1..]|
      ensures ChainLink(recs, L[0], L[1..], k)
    {
      assert ChainLink(recs, a, L, k + 1);
    }
  }

  /** One step of a forward seek that has a successor to replay and a cycle to go. */
  lemma SeekForwardStep(x: map<Cell, Word>, recs: seq<Record>, flags: seq<Word>, h: nat, cyc: int, target: int)
    requires Arena(recs, flags, x) && h < |recs| && cyc < target && recs[h].next != -1
    ensures var n := recs[h].next;
      && h < n < |recs| && recs[n].target.At? && recs[n].target.cell in x
      && (recs[n].next != -1 ==> n < recs[n].next < |recs|)
      && Arena(recs, flags, x[recs[n].target.cell := recs[n].val])
      && SeekForward(x, recs, flags, h, cyc, target) ==
         SeekForward(x[recs[n].target.cell := recs[n].val], recs, flags, n,
                     if recs[n].next == -1 || recs[recs[n].next].cycle > recs[n].cycle then cyc + 1 else cyc, target)
  {
    assert RecOk(recs, flags, x, h);
    var n := recs[h].next;
    assert RecOk(recs, flags, x, n);
    ArenaWider(recs, flags, x, flags, x[recs[n].target.cell := recs[n].val]);
  }

  /**
   * Forward seek over a chain of records: starting at its anchor at cycle
   * c, a replay to c plus the number of cycles the chain spans applies
   * every record's new value in list order, whatever its flags say, and
   * stops on the last record.
   */
  lemma {:induction false} ReplayChain(x: map<Cell, Word>, recs: seq<Record>, flags: seq<Word>, a: nat, L: seq<nat>, c: int)
    requires Arena(recs, flags, x) && Chain(recs, a, L)
    ensures forall k :: 0 <= k < |L| ==> L[k] < |recs| && recs[L[k]].target.At? && recs[L[k]].target.cell in x
    ensures SeekForward(x, recs, flags, a, c, c + Blocks(recs, L)) == Pos(Replayed(x, recs, L), Last(a, L), c + Blocks(recs, L), Done)
    decreases |L|
  {
    ChainCells(recs, flags, x, a, L);
    if L != [] {
      var r := recs[L[0]];
      assert ChainLink(recs, a, L, 0);
      assert |L| > 1 ==> ChainLink(recs, a, L, 1);
      var x' := x[r.target.cell := r.val];
      ArenaWider(recs, flags, x, flags, x');
      ChainTail(recs, a, L);
      var b := if |L| == 1 || recs[L[1]].cycle > r.cycle then 1 else 0;
      assert Blocks(recs, L) == b + Blocks(recs, L[1..]);
      BlocksPositive(recs, L);
      ReplayChain(x', recs, flags, L[0], L[1..], c + b);
      SeekForwardStep(x, recs, flags, a, c, c + Blocks(recs, L));
    }
  }

  // ---------------------------------------------------------------------
  // Replay, commit and the records they read

  /** Records L are indices of recs whose payloads recs' keeps. */
  ghost predicate SameOn(recs: seq<Record>, recs': seq<Record>, L: seq<nat>)
  {
    forall k :: 0 <= k < |L| ==> L[k] < |recs| && L[k] < |recs'| && Payload(recs'[L[k]]) == Payload(recs[L[k]])
  }

  /** Replay, targets and cycle count read only the payloads of the records listed. */
  lemma {:induction false} SameOnFrame(x: map<Cell, Word>, recs: seq<Record>, recs': seq<Record>, L: seq<nat>)
    requires SameOn(recs, recs', L)
    requires forall k :: 0 <= k < |L| ==> recs[L[k]].target.At? && recs[L[k]].target.cell in x
    ensures Targets(recs', L) == Targets(recs, L) && Blocks(recs', L) == Blocks(recs, L)
    ensures Replayed(x, recs', L) == Replayed(x, recs, L)
    decreases |L|
  {
    if L != [] {
      var r := recs[L[0]];
      assert SameOn(recs, recs', L[1..]) && SameOn(recs, recs', L[..|L| - 1]);
      SameOnFrame(x[r.target.cell := r.val], recs, recs', L[1..]);
      SameOnFrame(x, recs, recs', L[..|L| - 1]);
      assert |L| > 1 ==> recs'[L[1]].cycle == recs[L[1]].cycle;
    }
  }

  /** Applying one more record after L. */
  lemma {:induction false} ReplayedSnoc(x: map<Cell, Word>, recs: seq<Record>, L: seq<nat>, i: nat)
    requires forall k :: 0 <= k < |L| ==> L[k] < |recs| && recs[L[k]].target.At? && recs[L[k]].target.cell in x
    requires i < |recs| && recs[i].target.At? && recs[i].target.cell in x
    ensures Replayed(x, recs, L + [i]) == Replayed(x, recs, L)[recs[i].target.cell := recs[i].val]
    decreases |L|
  {
    if L != [] {
      var r := recs[L[0]];
      assert (L + [i])[1..] == L[1..] + [i];
      ReplayedSnoc(x[r.target.cell := r.val], recs, L[1..], i);
    }
  }

  /** Replaying A then B is replaying A + B. */
  lemma {:induction false} ReplayedConcat(x: map<Cell, Word>, recs: seq<Record>, A: seq<nat>, B: seq<nat>)
    requires forall k :: 0 <= k < |A| ==> A[k] < |recs| && recs[A[k]].target.At? && recs[A[k]].target.cell in x
    requires forall k :: 0 <= k < |B| ==> B[k] < |recs| && recs[B[k]].target.At? && recs[B[k]].target.cell in x
    ensures Replayed(x, recs, A + B) == Replayed(Replayed(x, recs, A), recs, B)
    decreases |A|
  {
    if A != [] {
      var r := recs[A[0]];
      assert (A + B)[0] == A[0] && (A + B)[1..] == A[1..] + B;
      ReplayedConcat(x[r.target.cell := r.val], recs, A[1..], B);
      assert Replayed(x, recs, A) == Replayed(x[r.target.cell := r.val], recs, A[1..]);
    } else {
      assert A + B == B;
    }
  }

  /** No record of L has its stage stalled in its flags word. */
  ghost predicate Unstalled(recs: seq<Record>, flags: seq<Word>, L: seq<nat>)
  {
    forall k :: 0 <= k < |L| ==> L[k] < |recs| && recs[L[k]].flags < |flags| && !Stalled(recs[L[k]], flags)
  }

  /** With nothing stalled, a commit is a replay. */
  lemma {:induction false} CommitIsReplay(x: map<Cell, Word>, recs: seq<Record>, flags: seq<Word>, L: seq<nat>)
    requires Committable(recs, flags, x, L) && Unstalled(recs, flags, L)
    ensures Commit(x, recs, flags, L) == Replayed(x, recs, L)
    decreases |L|
  {
    if L != [] {
      var j := |L| - 1;
      var L' := L[..j];
      assert Committable(recs, flags, x, L') && Unstalled(recs, flags, L');
      CommitIsReplay(x, recs, flags, L');
      ReplayedSnoc(x, recs, L', L[j]);
      assert L' + [L[j]] == L;
    }
  }

  /**
   * With nothing stalled, a commit overwrites every cell its records
   * target, so cells that differ only there commit to the same result.
   */
  lemma {:induction false} CommitForgets(y: map<Cell, Word>, z: map<Cell, Word>, recs: seq<Record>, flags: seq<Word>, L: seq<nat>, k: nat)
    requires Committable(recs, flags, y, L) && Committable(recs, flags, z, L) && Unstalled(recs, flags, L)
    requires AgreeOff(y, z, Targets(recs, L)) && k <= |L|
    ensures AgreeOff(Commit(y, recs, flags, L[..k]), Commit(z, recs, flags, L[..k]), Targets(recs, L) - Targets(recs, L[..k]))
    decreases k
  {
    if k > 0 {
      var L' := L[..k - 1];
      assert L[..k][..k - 1] == L';
      assert Committable(recs, flags, y, L[..k]) && Committable(recs, flags, z, L[..k]);
      assert Unstalled(recs, flags, L[..k]);
      CommitForgets(y, z, recs, flags, L, k - 1);
      var r := recs[L[k - 1]];
      assert !Stalled(r, flags) && r.target.At?;
      var T := Targets(recs, L) - Targets(recs, L');
      assert Targets(recs, L[..k]) == Targets(recs, L') + {r.target};
      assert Targets(recs, L) - Targets(recs, L[..k]) == T - {At(r.target.cell)};
      AgreeOffSet(Commit(y, recs, flags, L'), Commit(z, recs, flags, L'), T, r.target.cell, r.val);
      assert Commit(y, recs, flags, L[..k]) == Commit(y, recs, flags, L')[r.target.cell := r.val];
      assert Commit(z, recs, flags, L[..k]) == Commit(z, recs, flags, L')[r.target.cell := r.val];
    } else {
      assert L[..k] == [];
    }
  }

  /** Writing the same value into a cell of both maps makes them agree there too. */
  lemma AgreeOffSet(x: map<Cell, Word>, y: map<Cell, Word>, ts: set<Target>, c: Cell, v: Word)
    requires AgreeOff(x, y, ts) && c in x
    ensures AgreeOff(x[c := v], y[c := v], ts - {At(c)})
  {
  }

  /** The records of one commit that nothing stalled, for CommitForgets at full length. */
  lemma CommitForgetsAll(y: map<Cell, Word>, z: map<Cell, Word>, recs: seq<Record>, flags: seq<Word>, L: seq<nat>)
    requires Committable(recs, flags, y, L) && Committable(recs, flags, z, L) && Unstalled(recs, flags, L)
    requires AgreeOff(y, z, Targets(recs, L))
    ensures Commit(y, recs, flags, L) == Commit(z, recs, flags, L)
  {
    CommitForgets(y, z, recs, flags, L, |L|);
    assert L[..|L|] == L;
  }

  /** One cycle's records, all of a cycle later than those before them, add one to the count. */
  lemma {:induction false} BlocksAppend(recs: seq<Record>, A: seq<nat>, P: seq<nat>)
    requires forall k :: 0 <= k < |A| ==> A[k] < |recs|
    requires P != [] && P[0] < |recs| && forall k :: 0 <= k < |P| ==> P[k] < |recs| && recs[P[k]].cycle == recs[P[0]].cycle
    requires A != [] ==> recs[A[|A| - 1]].cycle < recs[P[0]].cycle
    ensures Blocks(recs, A + P) == Blocks(recs, A) + 1
    decreases |A|
  {
    if A == [] {
      assert A + P == P;
      OneCycle(recs, P);
    } else {
      assert (A + P)[1..] == A[1..] + P;
      BlocksAppend(recs, A[1..], P);
    }
  }

  /** Records of one cycle span one cycle. */
  lemma {:induction false} OneCycle(recs: seq<Record>, P: seq<nat>)
    requires P != [] && P[0] < |recs| && forall k :: 0 <= k < |P| ==> P[k] < |recs| && recs[P[k]].cycle == recs[P[0]].cycle
    ensures Blocks(recs, P) == 1
    decreases |P|
  {
    if |P| > 1 {
      assert recs[P[1]].cycle == recs[P[0]].cycle;
      OneCycle(recs, P[1..]);
    }
  }

  /** A commit with nothing stalled keeps every record of the cycle. */
  lemma UnstalledKept(debug1: bool, recs: seq<Record>, flags: seq<Word>, L: seq<nat>, k: nat)
    requires Unstalled(recs, flags, L) && k <= |L|
    ensures Indexed(recs, flags, L) && Kept(debug1, recs, flags, L[..k]) == L[..k]
    decreases k
  {
    assert Indexed(recs, flags, L);
    if k > 0 {
      UnstalledKept(debug1, recs, flags, L, k - 1);
      assert !Stalled(recs[L[k - 1]], flags);
      KeptSnoc(debug1, recs, flags, L, k - 1);
    }
  }

  /** An unstalled record joins a prefix that is kept whole. */
  lemma KeptSnoc(debug1: bool, recs: seq<Record>, flags: seq<Word>, L: seq<nat>, k: nat)
    requires Indexed(recs, flags, L) && k < |L| && !Stalled(recs[L[k]], flags)
    requires Kept(debug1, recs, flags, L[..k]) == L[..k]
    ensures Kept(debug1, recs, flags, L[..k + 1]) == L[..k + 1]
  {
    var A, B := L[..k], L[..k + 1];
    KeptStep(debug1, recs, flags, L, k);
    assert Kept(debug1, recs, flags, B) == A + [L[k]];
    assert B == A + [L[k]];
  }

  /** A commit that unlinks nothing leaves the records exactly as they were. */
  lemma LatchSameRecs(build: Build, s: EngineState, s': EngineState, orig: int)
    requires Inv(s) && s.cycleHead != -1 && Applied(build, s, s', orig) && ChainKept(build, s)
    ensures s'.recs == s.recs
  {
    var a: nat, P := s.cycleHead, s.pending;
    ChainCommittable(s.recs, s.flags, s.live, a, P);
    assert Kept(build.debug1, s.recs, s.flags, P) == P;
    if !build.debug1 {
      assert P + P[|P|..] == P;
      forall i | 0 <= i < |s.recs|
        ensures s'.recs[i] == s.recs[i]
      {
        if i in P {
          var k :| 0 <= k < |P| && P[k] == i;
          assert ChainLink(s.recs, a, P, k);
          assert ChainLink(s'.recs, a, P, k);
        }
      }
    }
  }

  // ---------------------------------------------------------------------
  // A run of whole cycles, as a replay sees it

  /**
   * A step that leaves the cells, the head, the records and the open
   * cycle's records alone (a new cycle number, `state_start_tick` after
   * a commit, flag bits).
   */
  ghost predicate Still(s: EngineState, s': EngineState)
  {
    && s'.live == s.live && s'.head == s.head && s'.recs == s.recs && s'.pending == s.pending
    && (s.pending != [] ==> s'.cycleHead == s.cycleHead)
  }

  /**
   * s' follows s by act in a run a replay can retrace: a write logged into
   * an open cycle (the first one of a cycle under a later cycle number than
   * the head's), a still step, or a commit of a non-empty cycle in which
   * no record is stalled.
   */
  ghost predicate Advances(build: Build, s: EngineState, act: Act, s': EngineState)
  {
    match act
    case Log(g, t, v) =>
      && Inv(s) && t.At? && t.cell in s.live && s.cycleHead != -1
      && (s.pending == [] ==> s.recs[s.head].cycle < s.cycle)
      && s' == LogWrite(build, s, g, t, v)
    case Other => Inv(s) && Inv(s') && Still(s, s')
    case Latch(orig) =>
      && Inv(s) && s.cycleHead != -1 && s.pending != [] && Unstalled(s.recs, s.flags, s.pending)
      && Applied(build, s, s', orig) && Inv(s')
  }

  /**
   * The forward invariant of a run that started at head h0 with cells x0:
   * the records L written since hang off h0 and end at the head, and the
   * open cycle's records are the end of L.
   */
  ghost predicate Retraces(h0: nat, x0: map<Cell, Word>, s: EngineState, L: seq<nat>, k: nat)
  {
    && x0.Keys == s.live.Keys
    && Chain(s.recs, h0, L) && s.head == Last(h0, L)
    && |s.pending| <= |L| && L[|L| - |s.pending|..] == s.pending
    && Settled(h0, x0, s.recs, s.live, s.cycle, L[..|L| - |s.pending|], s.pending, k)
  }

  /**
   * The committed records L1 are what the cells hold apart from the
   * targets of the open cycle's records P, and span k cycles, all before
   * the running one when P is not empty.
   */
  ghost predicate Settled(h0: nat, x0: map<Cell, Word>, recs: seq<Record>, live: map<Cell, Word>, cycle: int,
                          L1: seq<nat>, P: seq<nat>, k: nat)
  {
    && (forall j :: 0 <= j < |P| ==> P[j] < |recs|)
    && (forall j :: 0 <= j < |L1| ==> L1[j] < |recs| && recs[L1[j]].target.At? && recs[L1[j]].target.cell in x0)
    && AgreeOff(live, Replayed(x0, recs, L1), Targets(recs, P))
    && Blocks(recs, L1) == k
    && (P != [] && L1 != [] ==> recs[Last(h0, L1)].cycle < cycle)
  }

  lemma Assoc(A: seq<nat>, B: seq<nat>, C: seq<nat>)
    ensures A + (B + C) == (A + B) + C
  {
  }

  /** Retraces from its parts, with the committed records named. */
  lemma RetracesFrom(h0: nat, x0: map<Cell, Word>, s: EngineState, L: seq<nat>, k: nat, L1: seq<nat>)
    requires x0.Keys == s.live.Keys && Chain(s.recs, h0, L) && s.head == Last(h0, L)
    requires L == L1 + s.pending && Settled(h0, x0, s.recs, s.live, s.cycle, L1, s.pending, k)
    ensures Retraces(h0, x0, s, L, k)
  {
    assert L[..|L| - |s.pending|] == L1 && L[|L| - |s.pending|..] == s.pending;
  }

  /** Retraces, with the committed records named. */
  lemma RetracesParts(h0: nat, x0: map<Cell, Word>, s: EngineState, L: seq<nat>, k: nat)
    requires Retraces(h0, x0, s, L, k)
    ensures var L1 := L[..|L| - |s.pending|];
      L == L1 + s.pending && Settled(h0, x0, s.recs, s.live, s.cycle, L1, s.pending, k)
  {
    assert L == L[..|L| - |s.pending|] + L[|L| - |s.pending|..];
  }

  /** The targets of L and one more record. */
  lemma TargetsSnoc(recs: seq<Record>, L: seq<nat>, i: nat)
    requires (forall k :: 0 <= k < |L| ==> L[k] < |recs|) && i < |recs|
    ensures Targets(recs, L + [i]) == Targets(recs, L) + {recs[i].target}
  {
    assert (L + [i])[..|L|] == L;
  }

  /** A logged record joins the open cycle; what was committed reads the same. */
  lemma SettledLog(h0: nat, x0: map<Cell, Word>, recs: seq<Record>, recs': seq<Record>, live: map<Cell, Word>,
                   live': map<Cell, Word>, cycle: int, L1: seq<nat>, P: seq<nat>, k: nat, n: nat, c: Cell)
    requires Settled(h0, x0, recs, live, cycle, L1, P, k)
    requires SameOn(recs, recs', L1) && SameOn(recs, recs', P) && n < |recs'| && recs'[n].target == At(c)
    requires live'.Keys == live.Keys && forall d :: d in live && d != c ==> live'[d] == live[d]
    requires P == [] && L1 != [] ==> recs[Last(h0, L1)].cycle < cycle
    ensures Settled(h0, x0, recs', live', cycle, L1, P + [n], k)
  {
    SameOnFrame(x0, recs, recs', L1);
    assert forall j :: 0 <= j < |P| ==> recs'[P[j]].target == recs[P[j]].target;
    TargetsSameOn(recs, recs', P);
    TargetsSnoc(recs', P, n);
    if L1 != [] {
      assert recs'[Last(h0, L1)].cycle == recs[Last(h0, L1)].cycle;
    }
  }

  /** Targets read only payloads. */
  lemma {:induction false} TargetsSameOn(recs: seq<Record>, recs': seq<Record>, L: seq<nat>)
    requires SameOn(recs, recs', L)
    ensures Targets(recs', L) == Targets(recs, L)
    decreases |L|
  {
    if L != [] {
      assert SameOn(recs, recs', L[..|L| - 1]);
      TargetsSameOn(recs, recs', L[..|L| - 1]);
    }
  }

  /** Records that exist in recs keep their payloads in recs'. */
  lemma SameOnOld(recs: seq<Record>, recs': seq<Record>, L: seq<nat>)
    requires |recs| <= |recs'| && forall i :: 0 <= i < |recs| ==> Payload(recs'[i]) == Payload(recs[i])
    requires forall j :: 0 <= j < |L| ==> L[j] < |recs|
    ensures SameOn(recs, recs', L)
  {
  }

  /** New forward links of the head and an appended record keep old payloads. */
  lemma SetNextPayloads(recs: seq<Record>, h: nat, n: int, r: Record)
    requires h < |recs|
    ensures var recs' := recs[h := recs[h].(next := n)] + [r];
      |recs'| == |recs| + 1 && forall i :: 0 <= i < |recs| ==> Payload(recs'[i]) == Payload(recs[i])
  {
  }

  /** The last element of L + [n] is n. */
  lemma LastSnoc(a: nat, L: seq<nat>, n: nat)
    ensures Last(a, L + [n]) == n
  {
  }

  /** ChainAppend, for a list of records named recs'. */
  lemma ChainAppendTo(recs: seq<Record>, recs': seq<Record>, a: nat, L: seq<nat>, r: Record)
    requires Chain(recs, a, L) && Last(a, L) < |recs| && r.prev == Last(a, L) && r.next == -1
    requires recs' == recs[Last(a, L) := recs[Last(a, L)].(next := |recs|)] + [r]
    ensures Chain(recs', a, L + [|recs|])
  {
    ChainAppend(recs, a, L, r);
  }

  /** The committed part after a record joins the open cycle. */
  lemma SettledAppend(h0: nat, x0: map<Cell, Word>, recs: seq<Record>, recs': seq<Record>, live: map<Cell, Word>,
                      live': map<Cell, Word>, cycle: int, L1: seq<nat>, P: seq<nat>, k: nat, h: nat, r: Record, c: Cell)
    requires h < |recs| && recs' == recs[h := recs[h].(next := |recs|)] + [r] && r.target == At(c)
    requires Settled(h0, x0, recs, live, cycle, L1, P, k)
    requires live'.Keys == live.Keys && forall d :: d in live && d != c ==> live'[d] == live[d]
    requires P == [] && L1 != [] ==> recs[Last(h0, L1)].cycle < cycle
    ensures Settled(h0, x0, recs', live', cycle, L1, P + [|recs|], k)
  {
    SetNextPayloads(recs, h, |recs|, r);
    SameOnOld(recs, recs', L1);
    SameOnOld(recs, recs', P);
    SettledLog(h0, x0, recs, recs', live, live', cycle, L1, P, k, |recs|, c);
  }

  /** A record appended after the head joins the open cycle. */
  lemma RetracesAppend(h0: nat, x0: map<Cell, Word>, s: EngineState, s': EngineState, L: seq<nat>, L1: seq<nat>, k: nat, r: Record, c: Cell)
    requires x0.Keys == s.live.Keys && Chain(s.recs, h0, L) && s.head == Last(h0, L) && s.head < |s.recs|
    requires L == L1 + s.pending && Settled(h0, x0, s.recs, s.live, s.cycle, L1, s.pending, k)
    requires s.pending == [] && L1 != [] ==> s.recs[Last(h0, L1)].cycle < s.cycle
    requires s'.recs == s.recs[s.head := s.recs[s.head].(next := |s.recs|)] + [r] && s'.head == |s.recs|
    requires r.prev == s.head && r.next == -1 && r.target == At(c)
    requires s'.pending == s.pending + [s'.head] && s'.cycle == s.cycle
    requires s'.live.Keys == s.live.Keys && forall d :: d in s.live && d != c ==> s'.live[d] == s.live[d]
    ensures Retraces(h0, x0, s', L + [s'.head], k)
  {
    var n, P := |s.recs|, s.pending;
    ChainAppendTo(s.recs, s'.recs, h0, L, r);
    SettledAppend(h0, x0, s.recs, s'.recs, s.live, s'.live, s.cycle, L1, P, k, s.head, r, c);
    Assoc(L1, P, [n]);
    LastSnoc(h0, L, n);
    AppendRetraces(h0, x0, s', L, L1, P, n, k);
  }

  /** RetracesFrom, once the new record n is appended to L and to the open cycle P. */
  lemma AppendRetraces(h0: nat, x0: map<Cell, Word>, s': EngineState, L: seq<nat>, L1: seq<nat>, P: seq<nat>, n: nat, k: nat)
    requires x0.Keys == s'.live.Keys && Chain(s'.recs, h0, L + [n]) && s'.head == Last(h0, L + [n])
    requires L == L1 + P && s'.pending == P + [n] && L1 + (P + [n]) == (L1 + P) + [n]
    requires Settled(h0, x0, s'.recs, s'.live, s'.cycle, L1, P + [n], k)
    ensures Retraces(h0, x0, s', L + [n], k)
  {
    RetracesFrom(h0, x0, s', L + [n], k, L1);
  }

  /** What a logged write does, in the terms RetracesAppend takes. */
  lemma LogWriteShape(build: Build, s: EngineState, g: Stage, t: Target, v: Word)
    requires Inv(s) && t.At? && t.cell in s.live && s.cycleHead != -1
    ensures var s', r := LogWrite(build, s, g, t, v), LogWrite(build, s, g, t, v).recs[|s.recs|];
      && Inv(s') && s'.recs == s.recs[s.head := s.recs[s.head].(next := |s.recs|)] + [r] && s'.head == |s.recs|
      && r.prev == s.head && r.next == -1 && r.target == At(t.cell)
      && s'.pending == s.pending + [s'.head] && s'.cycle == s.cycle
      && s'.live.Keys == s.live.Keys && forall d :: d in s.live && d != t.cell ==> s'.live[d] == s.live[d]
  {
    LogWriteFrame(build, s, g, t, v);
  }

  /** A logged write extends the chain and the open cycle by its record. */
  lemma RetracesLog(build: Build, h0: nat, x0: map<Cell, Word>, s: EngineState, g: Stage, t: Target, v: Word, L: seq<nat>, k: nat)
    requires Inv(s) && t.At? && t.cell in s.live && s.cycleHead != -1
    requires s.pending == [] ==> s.recs[s.head].cycle < s.cycle
    requires Retraces(h0, x0, s, L, k)
    ensures var s' := LogWrite(build, s, g, t, v); Retraces(h0, x0, s', L + [s'.head], k)
  {
    var s' := LogWrite(build, s, g, t, v);
    LogWriteShape(build, s, g, t, v);
    RetracesParts(h0, x0, s, L, k);
    var L1 := L[..|L| - |s.pending|];
    if L1 != [] && s.pending == [] {
      assert Last(h0, L1) == s.head;
    }
    RetracesAppend(h0, x0, s, s', L, L1, k, s'.recs[|s.recs|], t.cell);
  }

  /** Neither the cells nor the records change, so neither does what they replay. */
  lemma RetracesStill(h0: nat, x0: map<Cell, Word>, s: EngineState, s': EngineState, L: seq<nat>, k: nat)
    requires Still(s, s') && (s.pending != [] ==> s'.cycle == s.cycle) && Retraces(h0, x0, s, L, k)
    ensures Retraces(h0, x0, s', L + [], k)
  {
    RetracesParts(h0, x0, s, L, k);
    assert L + [] == L;
    RetracesFrom(h0, x0, s', L + [], k, L[..|L| - |s.pending|]);
  }

  /** With nothing stalled, committing P continues the replay of L1 by P. */
  lemma CommitReplays(x0: map<Cell, Word>, live: map<Cell, Word>, recs: seq<Record>, flags: seq<Word>, L1: seq<nat>, P: seq<nat>)
    requires Committable(recs, flags, live, P) && Unstalled(recs, flags, P) && x0.Keys == live.Keys
    requires forall j :: 0 <= j < |L1| ==> L1[j] < |recs| && recs[L1[j]].target.At? && recs[L1[j]].target.cell in x0
    requires AgreeOff(live, Replayed(x0, recs, L1), Targets(recs, P))
    ensures Commit(live, recs, flags, P) == Replayed(x0, recs, L1 + P)
  {
    var z := Replayed(x0, recs, L1);
    assert Committable(recs, flags, z, P);
    CommitForgetsAll(live, z, recs, flags, P);
    CommitIsReplay(z, recs, flags, P);
    ReplayedConcat(x0, recs, L1, P);
  }

  /** After a commit of one cycle's records there is nothing open and one cycle more. */
  lemma SettledLatch(h0: nat, x0: map<Cell, Word>, recs: seq<Record>, flags: seq<Word>, live: map<Cell, Word>,
                     cycle: int, cycle': int, L1: seq<nat>, P: seq<nat>, k: nat)
    requires Settled(h0, x0, recs, live, cycle, L1, P, k) && x0.Keys == live.Keys
    requires Committable(recs, flags, live, P) && Unstalled(recs, flags, P)
    requires P != [] && forall j :: 0 <= j < |P| ==> recs[P[j]].cycle == cycle
    ensures Settled(h0, x0, recs, Commit(live, recs, flags, P), cycle', L1 + P, [], k + 1)
  {
    CommitReplays(x0, live, recs, flags, L1, P);
    if L1 != [] {
      assert Last(h0, L1) == L1[|L1| - 1];
    }
    BlocksAppend(recs, L1, P);
    var L := L1 + P;
    forall j | 0 <= j < |L|
      ensures L[j] < |recs| && recs[L[j]].target.At? && recs[L[j]].target.cell in x0
    {
      if j >= |L1| {
        assert L[j] == P[j - |L1|];
      }
    }
  }

  /** What a commit with nothing stalled does, in the terms RetracesLatch takes. */
  lemma LatchShape(build: Build, s: EngineState, s': EngineState, orig: int)
    requires Inv(s) && s.cycleHead != -1 && Unstalled(s.recs, s.flags, s.pending) && Applied(build, s, s', orig)
    ensures Committable(s.recs, s.flags, s.live, s.pending)
    ensures s'.recs == s.recs && s'.head == s.head && s'.pending == []
    ensures s'.live == Commit(s.live, s.recs, s.flags, s.pending)
  {
    ChainCommittable(s.recs, s.flags, s.live, s.cycleHead, s.pending);
    UnstalledKept(build.debug1, s.recs, s.flags, s.pending, |s.pending|);
    assert s.pending[..|s.pending|] == s.pending;
    LatchSameRecs(build, s, s', orig);
  }

  /** A commit with nothing stalled settles the open cycle's records. */
  lemma RetracesLatch(h0: nat, x0: map<Cell, Word>, s: EngineState, s': EngineState, L: seq<nat>, L1: seq<nat>, k: nat)
    requires x0.Keys == s.live.Keys && Chain(s.recs, h0, L) && s.head == Last(h0, L)
    requires L == L1 + s.pending && Settled(h0, x0, s.recs, s.live, s.cycle, L1, s.pending, k)
    requires s.pending != [] && forall j :: 0 <= j < |s.pending| ==> s.recs[s.pending[j]].cycle == s.cycle
    requires Committable(s.recs, s.flags, s.live, s.pending) && Unstalled(s.recs, s.flags, s.pending)
    requires s'.recs == s.recs && s'.head == s.head && s'.pending == []
    requires s'.live == Commit(s.live, s.recs, s.flags, s.pending)
    ensures Retraces(h0, x0, s', L + [], k + 1)
  {
    SettledLatch(h0, x0, s.recs, s.flags, s.live, s.cycle, s'.cycle, L1, s.pending, k);
    assert L + [] == L;
    RetracesFrom(h0, x0, s', L + [], k + 1, L);
  }

  /** RetracesLatch from a commit as Applied describes it. */
  lemma RetracesCommit(build: Build, h0: nat, x0: map<Cell, Word>, s: EngineState, s': EngineState, orig: int, L: seq<nat>, k: nat)
    requires Inv(s) && s.cycleHead != -1 && s.pending != [] && Unstalled(s.recs, s.flags, s.pending)
    requires Applied(build, s, s', orig) && Retraces(h0, x0, s, L, k)
    ensures Retraces(h0, x0, s', L + [], k + 1)
  {
    LatchShape(build, s, s', orig);
    RetracesParts(h0, x0, s, L, k);
    RetracesLatch(h0, x0, s, s', L, L[..|L| - |s.pending|], k);
  }

  /** The records a step appends to the chain. */
  function Added(act: Act, s': EngineState): seq<nat>
  {
    if act.Log? then [s'.head] else []
  }

  /** A logged write, as Advances names it, keeps the forward invariant. */
  lemma StepLog(build: Build, h0: nat, x0: map<Cell, Word>, s: EngineState, act: Act, s': EngineState, L: seq<nat>, k: nat)
    requires act.Log? && Advances(build, s, act, s') && Retraces(h0, x0, s, L, k)
    ensures Retraces(h0, x0, s', L + Added(act, s'), k + (if act.Latch? then 1 else 0))
  {
    RetracesLog(build, h0, x0, s, act.g, act.t, act.v, L, k);
  }

  /** A commit, as Advances names it, keeps the forward invariant. */
  lemma StepLatch(build: Build, h0: nat, x0: map<Cell, Word>, s: EngineState, act: Act, s': EngineState, L: seq<nat>, k: nat)
    requires act.Latch? && Advances(build, s, act, s') && Retraces(h0, x0, s, L, k)
    ensures Retraces(h0, x0, s', L + Added(act, s'), k + (if act.Latch? then 1 else 0))
  {
    RetracesCommit(build, h0, x0, s, s', act.orig, L, k);
  }

  /** A still step, as Advances names it, keeps the forward invariant. */
  lemma StepStill(build: Build, h0: nat, x0: map<Cell, Word>, s: EngineState, act: Act, s': EngineState, L: seq<nat>, k: nat)
    requires act.Other? && Advances(build, s, act, s') && Retraces(h0, x0, s, L, k)
    ensures Retraces(h0, x0, s', L + Added(act, s'), k + (if act.Latch? then 1 else 0))
  {
    if s.pending != [] {
      assert s.recs[s.pending[0]].cycle == s.cycle && s'.recs[s'.pending[0]].cycle == s'.cycle;
    }
    RetracesStill(h0, x0, s, s', L, k);
  }

  /** Every step a replay can retrace keeps the forward invariant. */
  lemma RetracesStep(build: Build, h0: nat, x0: map<Cell, Word>, s: EngineState, act: Act, s': EngineState, L: seq<nat>, k: nat)
    requires Advances(build, s, act, s') && Retraces(h0, x0, s, L, k)
    ensures Retraces(h0, x0, s', L + Added(act, s'), k + (if act.Latch? then 1 else 0))
  {
    if act.Log? {
      StepLog(build, h0, x0, s, act, s', L, k);
    } else if act.Other? {
      StepStill(build, h0, x0, s, act, s', L, k);
    } else {
      StepLatch(build, h0, x0, s, act, s', L, k);
    }
  }

  /** Step i of ss, by acts[i], is one a replay can retrace. */
  ghost predicate AdvancesAt(build: Build, ss: seq<EngineState>, acts: seq<Act>, i: nat)
    requires i < |acts| && |ss| == |acts| + 1
  {
    Advances(build, ss[i], acts[i], ss[i + 1])
  }

  /** A run whose every step a replay can retrace. */
  ghost predicate Forward(build: Build, ss: seq<EngineState>, acts: seq<Act>)
  {
    && |ss| == |acts| + 1
    && forall i :: 0 <= i < |acts| ==> AdvancesAt(build, ss, acts, i)
  }

  /** The number of commits in a run. */
  function Latches(acts: seq<Act>): nat
  {
    if acts == [] then 0 else Latches(acts[..|acts| - 1]) + (if acts[|acts| - 1].Latch? then 1 else 0)
  }

  /** The step into state i of a run keeps the forward invariant. */
  lemma RunStep(build: Build, ss: seq<EngineState>, acts: seq<Act>, i: nat, L: seq<nat>)
    requires |ss| == |acts| + 1 && 0 < i <= |acts| && AdvancesAt(build, ss, acts, i - 1)
    requires Retraces(ss[0].head, ss[0].live, ss[i - 1], L, Latches(acts[..i - 1]))
    ensures Retraces(ss[0].head, ss[0].live, ss[i], L + Added(acts[i - 1], ss[i]), Latches(acts[..i]))
  {
    LatchesSnoc(acts, i);
    RetracesStep(build, ss[0].head, ss[0].live, ss[i - 1], acts[i - 1], ss[i], L, Latches(acts[..i - 1]));
  }

  /** The commits among the first i steps: those among the first i - 1 and step i - 1's. */
  lemma LatchesSnoc(acts: seq<Act>, i: nat)
    requires 0 < i <= |acts|
    ensures Latches(acts[..i]) == Latches(acts[..i - 1]) + (if acts[i - 1].Latch? then 1 else 0)
  {
    assert acts[..i][..i - 1] == acts[..i - 1];
  }

  /**
   * However long the run, the forward invariant holds after each of its
   * steps, with the records the run appended so far as the chain and its
   * commits so far as the count.
   */
  lemma {:induction false} RetracesRun(build: Build, ss: seq<EngineState>, acts: seq<Act>, i: nat) returns (L: seq<nat>)
    requires Forward(build, ss, acts) && i <= |acts| && Retraces(ss[0].head, ss[0].live, ss[0], [], 0)
    ensures Retraces(ss[0].head, ss[0].live, ss[i], L, Latches(acts[..i]))
    decreases i, 1
  {
    if i == 0 {
      L := [];
      assert acts[..0] == [];
    } else {
      L := RetracesNext(build, ss, acts, i);
    }
  }

  /** RetracesRun for a run of at least one step: the run up to i - 1, then step i. */
  lemma {:induction false} RetracesNext(build: Build, ss: seq<EngineState>, acts: seq<Act>, i: nat) returns (L: seq<nat>)
    requires Forward(build, ss, acts) && 0 < i <= |acts| && Retraces(ss[0].head, ss[0].live, ss[0], [], 0)
    ensures Retraces(ss[0].head, ss[0].live, ss[i], L, Latches(acts[..i]))
    decreases i, 0
  {
    var L0 := RetracesRun(build, ss, acts, i - 1);
    assert AdvancesAt(build, ss, acts, i - 1);
    RunStep(build, ss, acts, i, L0);
    L := L0 + Added(acts[i - 1], ss[i]);
  }

  /** The forward invariant at the start of a run: nothing appended, nothing committed. */
  lemma RetracesStart(s: EngineState)
    requires Inv(s) && s.pending == [] && s.recs[s.head].next == -1
    ensures Retraces(s.head, s.live, s, [], 0)
  {
    assert Replayed(s.live, s.recs, []) == s.live;
  }

  /** Between cycles the cells are the replay of every record since the start. */
  lemma RetracesBetween(h0: nat, x0: map<Cell, Word>, s: EngineState, L: seq<nat>, k: nat)
    requires Retraces(h0, x0, s, L, k) && s.pending == []
    ensures forall j :: 0 <= j < |L| ==> L[j] < |s.recs| && s.recs[L[j]].target.At? && s.recs[L[j]].target.cell in x0
    ensures s.live == Replayed(x0, s.recs, L) && Blocks(s.recs, L) == k
  {
    RetracesParts(h0, x0, s, L, k);
    assert L[..|L| - |s.pending|] == L;
    SettledNone(h0, x0, s.recs, s.live, s.cycle, L, k);
  }

  /** With nothing open, the cells are exactly the replay. */
  lemma SettledNone(h0: nat, x0: map<Cell, Word>, recs: seq<Record>, live: map<Cell, Word>, cycle: int, L: seq<nat>, k: nat)
    requires Settled(h0, x0, recs, live, cycle, L, [], k)
    ensures live == Replayed(x0, recs, L)
  {
    assert Targets(recs, []) == {};
    var y := Replayed(x0, recs, L);
    assert forall c :: c in live ==> live[c] == y[c];
  }

  /** From the forward invariant between cycles, a replay of k cycles from h0 arrives at s. */
  lemma ReplayFrom(h0: nat, x0: map<Cell, Word>, s: EngineState, L: seq<nat>, k: nat, c: int)
    requires Arena(s.recs, s.flags, s.live) && Retraces(h0, x0, s, L, k) && s.pending == []
    ensures Arena(s.recs, s.flags, x0) && h0 < |s.recs|
    ensures SeekForward(x0, s.recs, s.flags, h0, c, c + k) == Pos(s.live, s.head, c + k, Done)
  {
    RetracesBetween(h0, x0, s, L, k);
    ReplayOver(h0, x0, s.recs, s.flags, s.live, s.head, L, k, c);
  }

  /** A replay along a chain from h0 whose records, applied to x0, give live. */
  lemma ReplayOver(h0: nat, x0: map<Cell, Word>, recs: seq<Record>, flags: seq<Word>, live: map<Cell, Word>,
                   head: nat, L: seq<nat>, k: nat, c: int)
    requires Arena(recs, flags, live) && x0.Keys == live.Keys && Chain(recs, h0, L) && head == Last(h0, L)
    requires forall j :: 0 <= j < |L| ==> L[j] < |recs| && recs[L[j]].target.At? && recs[L[j]].target.cell in x0
    requires live == Replayed(x0, recs, L) && Blocks(recs, L) == k
    ensures Arena(recs, flags, x0) && h0 < |recs|
    ensures SeekForward(x0, recs, flags, h0, c, c + k) == Pos(live, head, c + k, Done)
  {
    ArenaWider(recs, flags, live, flags, x0);
    ReplayChain(x0, recs, flags, h0, L, c);
  }

  /**
   * Replay over a whole run: from a start between cycles, after any run of
   * steps a replay can retrace that ends between cycles, a replay from the
   * start's head forward by as many cycles as the run committed arrives
   * at the cells and head of the end.
   */
  lemma ReplayRun(build: Build, ss: seq<EngineState>, acts: seq<Act>)
    requires Forward(build, ss, acts)
    requires Inv(ss[0]) && ss[0].pending == [] && ss[0].recs[ss[0].head].next == -1
    requires Inv(ss[|acts|]) && ss[|acts|].pending == []
    ensures var s, e := ss[0], ss[|acts|];
      && Arena(e.recs, e.flags, s.live) && s.head < |e.recs|
      && var c := s.recs[s.head].cycle;
         SeekForward(s.live, e.recs, e.flags, s.head, c, c + Latches(acts)) == Pos(e.live, e.head, c + Latches(acts), Done)
  {
    var s, e := ss[0], ss[|acts|];
    RetracesStart(s);
    var L := RetracesRun(build, ss, acts, |acts|);
    assert acts[..|acts|] == acts;
    ReplayToEnd(ss, acts, L);
  }

  /** ReplayFrom, from the start state's head and cells to the end state of a run. */
  lemma ReplayToEnd(ss: seq<EngineState>, acts: seq<Act>, L: seq<nat>)
    requires |ss| == |acts| + 1 && Inv(ss[0]) && Inv(ss[|acts|]) && ss[|acts|].pending == []
    requires Retraces(ss[0].head, ss[0].live, ss[|acts|], L, Latches(acts))
    ensures var s, e := ss[0], ss[|acts|];
      && Arena(e.recs, e.flags, s.live) && s.head < |e.recs|
      && var c := s.recs[s.head].cycle;
         SeekForward(s.live, e.recs, e.flags, s.head, c, c + Latches(acts)) == Pos(e.live, e.head, c + Latches(acts), Done)
  {
    var s, e := ss[0], ss[|acts|];
    ReplayFrom(s.head, s.live, e, L, Latches(acts), s.recs[s.head].cycle);
  }

  /**
   * The round trip of the simulator's time travel over a whole run: start
   * between cycles (no write of an open cycle pending) from a state whose
   * newest record belongs to cycle n or earlier, take any run of steps a
   * rewind and a replay can both retrace (logged writes after cycle n in
   * open cycles, steps that change no cell, record or barrier mark, and
   * commits in which no record is stalled), and end between cycles. A
   * rewind to cycle n returns to the cells and head of the start, and a
   * replay from there forward by as many cycles as the run committed
   * returns to the cells and head of the end.
   */
  lemma RewindReplayRun(build: Build, n: int, ss: seq<EngineState>, acts: seq<Act>)
    requires Run(build, n, ss, acts) && Forward(build, ss, acts)
    requires Inv(ss[0]) && ss[0].pending == [] && ss[0].recs[ss[0].head].next == -1 && ss[0].recs[ss[0].head].cycle <= n
    requires ss[|acts|].pending == []
    ensures var s, e := ss[0], ss[|acts|];
      && Inv(e) && Arena(e.recs, e.flags, s.live) && s.head < |e.recs|
      && SeekBackward(e.live, e.recs, e.flags, e.head, n) == Pos(s.live, s.head, s.recs[s.head].cycle, Done)
      && var c := s.recs[s.head].cycle;
         SeekForward(s.live, e.recs, e.flags, s.head, c, c + Latches(acts)) == Pos(e.live, e.head, c + Latches(acts), Done)
  {
    RewindRestoresRun(build, n, ss, acts);
    ReplayRun(build, ss, acts);
  }
}
