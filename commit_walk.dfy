/**
 * The commit walk of `_state_tock` (simulator.c, lines 402-461), one record
 * at a time: each lemma takes the walk's bookkeeping (`Walked`) from one
 * record to the next, as the loop in StateEngine does.
 */
module CommitWalk {
  import opened StateLog

  /** The records of P can be committed: each has a flags word and a cell. */
  lemma ChainCommittable(recs: seq<Record>, flags: seq<Word>, live: map<Cell, Word>, a: nat, P: seq<nat>)
    requires Arena(recs, flags, live) && Chain(recs, a, P)
    ensures Committable(recs, flags, live, P) && Indexed(recs, flags, P)
  {
    ChainDistinct(recs, a, P);
    forall k | 0 <= k < |P|
      ensures P[k] < |recs| && RecOk(recs, flags, live, P[k])
    {
      assert ChainLink(recs, a, P, k);
    }
  }

  /** Commit over one more record applies it unless it is stalled. */
  lemma CommitStep(live: map<Cell, Word>, recs: seq<Record>, flags: seq<Word>, P: seq<nat>, k: nat)
    requires Committable(recs, flags, live, P) && k < |P|
    ensures Commit(live, recs, flags, P[..k + 1]) ==
      (if Stalled(recs[P[k]], flags) then Commit(live, recs, flags, P[..k])
       else Commit(live, recs, flags, P[..k])[recs[P[k]].target.cell := recs[P[k]].val])
  {
    assert P[..k + 1][..k] == P[..k];
  }

  lemma ShiftOne(K: seq<nat>, P: seq<nat>, k: nat)
    requires k < |P|
    ensures K + P[k..] == (K + [P[k]]) + P[k + 1..]
  {
  }

  lemma WalkStart(debug1: bool, recs0: seq<Record>, flags: seq<Word>, live0: map<Cell, Word>, a: nat, P: seq<nat>)
    requires Arena(recs0, flags, live0) && Chain(recs0, a, P)
    ensures Committable(recs0, flags, live0, P) && Indexed(recs0, flags, P)
    ensures Walked(debug1, recs0, flags, live0, a, P, 0, [], recs0, live0, recs0[a].next)
  {
    ChainCommittable(recs0, flags, live0, a, P);
    assert P[..0] == [];
    assert [] + P[0..] == P;
    if !debug1 {
      UnlinkStart(recs0, a, P);
    }
  }

  /** What the walk reads at the k-th record: the record's payload, cell and links. */
  lemma WalkFacts(debug1: bool, recs0: seq<Record>, flags: seq<Word>, live0: map<Cell, Word>,
                  a: nat, P: seq<nat>, k: nat, K: seq<nat>, recs: seq<Record>, live: map<Cell, Word>, orig: int)
    requires Arena(recs0, flags, live0) && Chain(recs0, a, P)
    requires Committable(recs0, flags, live0, P) && Indexed(recs0, flags, P) && k < |P|
    requires Walked(debug1, recs0, flags, live0, a, P, k, K, recs, live, orig)
    ensures P[k] < |recs| == |recs0| && Payload(recs[P[k]]) == Payload(recs0[P[k]])
    ensures recs[P[k]].stage == recs0[P[k]].stage && recs[P[k]].flags == recs0[P[k]].flags
    ensures recs[P[k]].target == recs0[P[k]].target && recs[P[k]].val == recs0[P[k]].val
    ensures recs[P[k]].target.At? && recs[P[k]].target.cell in live && recs[P[k]].flags < |flags|
    ensures debug1 ==> recs[P[k]].next == NextOf(P, k)
    ensures !debug1 ==> 0 <= recs[P[k]].prev < |recs| && -1 <= recs[P[k]].next < |recs|
    ensures !debug1 ==> recs[P[k]].prev == Last(a, K) && recs[P[k]].next == NextOf(P, k)
  {
    assert P[..k + 1][k] == P[k];
    assert Committable(recs0, flags, live0, P[..k]);
    assert ChainLink(recs0, a, P, k);
    if !debug1 {
      UnlinkStep(recs0, recs, a, P, k, K);
    }
  }

  /** An unstalled record is applied and stays listed. */
  lemma WalkApply(debug1: bool, recs0: seq<Record>, flags: seq<Word>, live0: map<Cell, Word>,
                  a: nat, P: seq<nat>, k: nat, K: seq<nat>, recs: seq<Record>, live: map<Cell, Word>, orig: int)
    requires Committable(recs0, flags, live0, P) && Indexed(recs0, flags, P) && k < |P|
    requires Walked(debug1, recs0, flags, live0, a, P, k, K, recs, live, orig)
    requires !Stalled(recs0[P[k]], flags)
    ensures Walked(debug1, recs0, flags, live0, a, P, k + 1, K + [P[k]], recs,
                   live[recs0[P[k]].target.cell := recs0[P[k]].val], orig)
  {
    CommitStep(live0, recs0, flags, P, k);
    KeptStep(debug1, recs0, flags, P, k);
    ShiftOne(K, P, k);
    if !debug1 {
      KeepStep(recs0, recs, a, P, k, K);
    }
  }

  /** With DEBUG1 a stalled record is passed over and stays listed. */
  lemma WalkPass(recs0: seq<Record>, flags: seq<Word>, live0: map<Cell, Word>,
                 a: nat, P: seq<nat>, k: nat, K: seq<nat>, recs: seq<Record>, live: map<Cell, Word>, orig: int)
    requires Committable(recs0, flags, live0, P) && Indexed(recs0, flags, P) && k < |P|
    requires Walked(true, recs0, flags, live0, a, P, k, K, recs, live, orig)
    requires Stalled(recs0[P[k]], flags)
    ensures Walked(true, recs0, flags, live0, a, P, k + 1, K + [P[k]], recs, live, orig)
  {
    CommitStep(live0, recs0, flags, P, k);
    KeptStep(true, recs0, flags, P, k);
    ShiftOne(K, P, k);
  }

  /**
   * In the release build a stalled record is unlinked; when it was the
   * check anchor, the anchor moves to its successor.
   */
  lemma WalkUnlink(recs0: seq<Record>, flags: seq<Word>, live0: map<Cell, Word>,
                   a: nat, P: seq<nat>, k: nat, K: seq<nat>, recs: seq<Record>, live: map<Cell, Word>, orig: int)
    requires Chain(recs0, a, P)
    requires Committable(recs0, flags, live0, P) && Indexed(recs0, flags, P) && k < |P|
    requires Walked(false, recs0, flags, live0, a, P, k, K, recs, live, orig)
    requires Stalled(recs0[P[k]], flags)
    ensures P[k] < |recs| && 0 <= recs[P[k]].prev < |recs| && -1 <= recs[P[k]].next < |recs|
    ensures Walked(false, recs0, flags, live0, a, P, k + 1, K, Join(recs, recs[P[k]].prev, recs[P[k]].next), live,
                   if orig == P[k] then recs[P[k]].next else orig)
  {
    CommitStep(live0, recs0, flags, P, k);
    KeptStep(false, recs0, flags, P, k);
    UnlinkStep(recs0, recs, a, P, k, K);
    if K != [] {
      FirstBeforeKth(recs, a, K, P, k);
    }
    AnchorAfterUnlink(K, P, k, orig);
  }

  lemma FirstBeforeKth(recs: seq<Record>, a: nat, K: seq<nat>, P: seq<nat>, k: nat)
    requires k < |P| && Chain(recs, a, K + P[k..]) && K != []
    ensures K[0] < P[k]
  {
    ChainIncreasing(recs, a, K + P[k..], 0, |K|);
  }

  /** Unlinking the check anchor moves it to the unlinked record's successor. */
  lemma AnchorAfterUnlink(K: seq<nat>, P: seq<nat>, k: nat, orig: int)
    requires k < |P| && orig == NextOf(K + P[k..], -1) && (K != [] ==> K[0] != P[k])
    ensures (if orig == P[k] then NextOf(P, k) else orig) == NextOf(K + P[k + 1..], -1)
  {
  }

  /**
   * When the walk is over the list is still a well-linked arena, the check
   * anchor starts the chain of the listed records, and the newest record of
   * the cycle has no successor.
   */
  lemma WalkEnd(debug1: bool, recs0: seq<Record>, flags: seq<Word>, live0: map<Cell, Word>,
                a: nat, P: seq<nat>, K: seq<nat>, recs: seq<Record>, live: map<Cell, Word>, orig: int)
    requires Arena(recs0, flags, live0) && Chain(recs0, a, P)
    requires Committable(recs0, flags, live0, P) && Indexed(recs0, flags, P)
    requires Walked(debug1, recs0, flags, live0, a, P, |P|, K, recs, live, orig)
    ensures P[..|P|] == P
    ensures Arena(recs, flags, live) && Chain(recs, a, K) && orig == NextOf(K, -1)
    ensures Last(a, P) < |recs| && recs[Last(a, P)].next == -1
  {
    assert P[..|P|] == P;
    assert K + P[|P|..] == K;
    if debug1 {
      if P != [] {
        assert ChainLink(recs0, a, P, |P| - 1);
      }
    } else {
      UnlinkedArena(recs0, recs, flags, live0, a, P, K);
      UnlinkedHeadNext(recs0, recs, a, P, K);
    }
    ArenaWider(recs, flags, live0, flags, live);
  }

  /**
   * Where the first walk of `_state_tock` stands: the list, the cells, the
   * check anchor (`orig_cycle_head`), the record it visits next
   * (`cycle_head`), and the records it has left listed so far.
   */
  datatype Walker = Walker(recs: seq<Record>, live: map<Cell, Word>, orig: int, ch: int, kept: seq<nat>)

  /**
   * One turn of the walk at record w.ch: an unstalled record is applied; a
   * stalled one is passed over (DEBUG1) or unlinked, which moves the check
   * anchor on when it was the anchor.  A record out of shape leaves w as it
   * is (the arena rules that out).
   */
  function WalkStep(debug1: bool, flags: seq<Word>, w: Walker): Walker
  {
    if !(0 <= w.ch < |w.recs|) then w
    else
      var r := w.recs[w.ch];
      if !(r.flags < |flags| && r.target.At? && 0 <= r.prev < |w.recs| && -1 <= r.next < |w.recs|) then w
      else if StageBit(r.stage) & flags[r.flags] != 0 then
        if debug1 then w.(ch := r.next, kept := w.kept + [w.ch])
        else w.(recs := Join(w.recs, r.prev, r.next), orig := if w.ch == w.orig then r.next else w.orig, ch := r.next)
      else w.(live := w.live[r.target.cell := r.val], ch := r.next, kept := w.kept + [w.ch])
  }

  /** The walker after k turns from the anchor a. */
  ghost function WalkAt(debug1: bool, recs0: seq<Record>, flags: seq<Word>, live0: map<Cell, Word>, a: nat, k: nat): Walker
    decreases k
  {
    if k == 0 then
      var first := if a < |recs0| then recs0[a].next else -1;
      Walker(recs0, live0, first, first, [])
    else WalkStep(debug1, flags, WalkAt(debug1, recs0, flags, live0, a, k - 1))
  }

  /** A turn of the walk keeps its bookkeeping and moves on to the next pending record. */
  lemma WalkStepOk(debug1: bool, recs0: seq<Record>, flags: seq<Word>, live0: map<Cell, Word>,
                   a: nat, P: seq<nat>, k: nat, w: Walker)
    requires Arena(recs0, flags, live0) && Chain(recs0, a, P)
    requires Committable(recs0, flags, live0, P) && Indexed(recs0, flags, P) && k < |P|
    requires w.ch == NextOf(P, k - 1) && Walked(debug1, recs0, flags, live0, a, P, k, w.kept, w.recs, w.live, w.orig)
    ensures var w' := WalkStep(debug1, flags, w);
      && w'.ch == NextOf(P, k)
      && Walked(debug1, recs0, flags, live0, a, P, k + 1, w'.kept, w'.recs, w'.live, w'.orig)
  {
    assert w.ch == P[k];
    WalkFacts(debug1, recs0, flags, live0, a, P, k, w.kept, w.recs, w.live, w.orig);
    LinkShape(recs0, flags, live0, a, P, k, w);
    if !Stalled(recs0[P[k]], flags) {
      WalkStepApply(debug1, recs0, flags, live0, a, P, k, w);
    } else if debug1 {
      WalkStepPass(recs0, flags, live0, a, P, k, w);
    } else {
      WalkStepUnlink(recs0, flags, live0, a, P, k, w);
    }
  }

  /** The shape of the record a turn visits, as WalkFacts and LinkShape give it. */
  ghost predicate TurnReady(debug1: bool, recs0: seq<Record>, flags: seq<Word>, live0: map<Cell, Word>,
                            a: nat, P: seq<nat>, k: nat, w: Walker)
    requires Committable(recs0, flags, live0, P) && Indexed(recs0, flags, P) && k < |P|
  {
    && w.ch == P[k] && P[k] < |w.recs| == |recs0|
    && Walked(debug1, recs0, flags, live0, a, P, k, w.kept, w.recs, w.live, w.orig)
    && w.recs[P[k]].stage == recs0[P[k]].stage && w.recs[P[k]].flags == recs0[P[k]].flags
    && w.recs[P[k]].target == recs0[P[k]].target && w.recs[P[k]].val == recs0[P[k]].val
    && w.recs[P[k]].target.At? && w.recs[P[k]].target.cell in w.live
    && 0 <= w.recs[P[k]].prev < |w.recs| && -1 <= w.recs[P[k]].next < |w.recs|
    && w.recs[P[k]].next == NextOf(P, k)
  }

  lemma WalkStepApply(debug1: bool, recs0: seq<Record>, flags: seq<Word>, live0: map<Cell, Word>,
                      a: nat, P: seq<nat>, k: nat, w: Walker)
    requires Committable(recs0, flags, live0, P) && Indexed(recs0, flags, P) && k < |P|
    requires TurnReady(debug1, recs0, flags, live0, a, P, k, w) && !Stalled(recs0[P[k]], flags)
    ensures var w' := WalkStep(debug1, flags, w);
      && w'.ch == NextOf(P, k)
      && Walked(debug1, recs0, flags, live0, a, P, k + 1, w'.kept, w'.recs, w'.live, w'.orig)
  {
    var r := w.recs[P[k]];
    assert WalkStep(debug1, flags, w) ==
      w.(live := w.live[recs0[P[k]].target.cell := recs0[P[k]].val], ch := r.next, kept := w.kept + [P[k]]);
    WalkApply(debug1, recs0, flags, live0, a, P, k, w.kept, w.recs, w.live, w.orig);
  }

  lemma WalkStepPass(recs0: seq<Record>, flags: seq<Word>, live0: map<Cell, Word>,
                     a: nat, P: seq<nat>, k: nat, w: Walker)
    requires Committable(recs0, flags, live0, P) && Indexed(recs0, flags, P) && k < |P|
    requires TurnReady(true, recs0, flags, live0, a, P, k, w) && Stalled(recs0[P[k]], flags)
    ensures var w' := WalkStep(true, flags, w);
      && w'.ch == NextOf(P, k)
      && Walked(true, recs0, flags, live0, a, P, k + 1, w'.kept, w'.recs, w'.live, w'.orig)
  {
    var r := w.recs[P[k]];
    assert WalkStep(true, flags, w) == w.(ch := r.next, kept := w.kept + [P[k]]);
    WalkPass(recs0, flags, live0, a, P, k, w.kept, w.recs, w.live, w.orig);
  }

  lemma WalkStepUnlink(recs0: seq<Record>, flags: seq<Word>, live0: map<Cell, Word>,
                       a: nat, P: seq<nat>, k: nat, w: Walker)
    requires Chain(recs0, a, P)
    requires Committable(recs0, flags, live0, P) && Indexed(recs0, flags, P) && k < |P|
    requires TurnReady(false, recs0, flags, live0, a, P, k, w) && Stalled(recs0[P[k]], flags)
    ensures var w' := WalkStep(false, flags, w);
      && w'.ch == NextOf(P, k)
      && Walked(false, recs0, flags, live0, a, P, k + 1, w'.kept, w'.recs, w'.live, w'.orig)
  {
    var r := w.recs[P[k]];
    assert WalkStep(false, flags, w) ==
      w.(recs := Join(w.recs, r.prev, r.next), orig := if P[k] == w.orig then r.next else w.orig, ch := r.next);
    WalkUnlink(recs0, flags, live0, a, P, k, w.kept, w.recs, w.live, w.orig);
  }

  /** The record the walk visits is in shape: in range, with a flags word, a cell and links in range. */
  lemma LinkShape(recs0: seq<Record>, flags: seq<Word>, live0: map<Cell, Word>, a: nat, P: seq<nat>, k: nat, w: Walker)
    requires Arena(recs0, flags, live0) && Chain(recs0, a, P) && k < |P|
    requires |w.recs| == |recs0| && P[k] < |w.recs| && Payload(w.recs[P[k]]) == Payload(recs0[P[k]])
    requires w.recs[P[k]].prev == recs0[P[k]].prev || (0 <= w.recs[P[k]].prev < |w.recs|)
    requires w.recs[P[k]].next == recs0[P[k]].next || (-1 <= w.recs[P[k]].next < |w.recs|)
    ensures 0 <= w.recs[P[k]].prev < |w.recs| && -1 <= w.recs[P[k]].next < |w.recs|
  {
    assert ChainLink(recs0, a, P, k);
    assert RecOk(recs0, flags, live0, P[k]);
  }

  /** After k turns the walk has done what Walked says, and visits the k-th pending record next. */
  lemma {:induction false} WalkAtWalked(debug1: bool, recs0: seq<Record>, flags: seq<Word>, live0: map<Cell, Word>,
                                        a: nat, P: seq<nat>, k: nat)
    requires Arena(recs0, flags, live0) && Chain(recs0, a, P) && k <= |P|
    ensures Committable(recs0, flags, live0, P) && Indexed(recs0, flags, P)
    ensures var w := WalkAt(debug1, recs0, flags, live0, a, k);
      && w.ch == NextOf(P, k - 1)
      && Walked(debug1, recs0, flags, live0, a, P, k, w.kept, w.recs, w.live, w.orig)
    decreases k
  {
    if k == 0 {
      WalkStart(debug1, recs0, flags, live0, a, P);
    } else {
      var j := k - 1;
      assert j + 1 == k;
      WalkAtWalked(debug1, recs0, flags, live0, a, P, j);
      var w := WalkAt(debug1, recs0, flags, live0, a, j);
      assert WalkAt(debug1, recs0, flags, live0, a, k) == WalkStep(debug1, flags, w);
      WalkStepOk(debug1, recs0, flags, live0, a, P, j, w);
    }
  }

  /**
   * What the loop needs of the record the walk visits next, when the walk
   * stands at w after k turns: it is pending and in shape, and the next
   * turn is one more WalkStep.
   */
  lemma WalkAtShape(debug1: bool, recs0: seq<Record>, flags: seq<Word>, live0: map<Cell, Word>,
                    a: nat, P: seq<nat>, k: nat, w: Walker)
    requires Arena(recs0, flags, live0) && Chain(recs0, a, P) && k <= |P|
    requires w == WalkAt(debug1, recs0, flags, live0, a, k)
    ensures w.ch == -1 <==> k == |P|
    ensures w.ch != -1 ==>
      && 0 <= w.ch < |w.recs| && w.recs[w.ch].flags < |flags| && w.recs[w.ch].target.At?
      && 0 <= w.recs[w.ch].prev < |w.recs| && -1 <= w.recs[w.ch].next < |w.recs|
    ensures WalkAt(debug1, recs0, flags, live0, a, k + 1) == WalkStep(debug1, flags, w)
  {
    WalkAtWalked(debug1, recs0, flags, live0, a, P, k);
    if k < |P| {
      WalkFacts(debug1, recs0, flags, live0, a, P, k, w.kept, w.recs, w.live, w.orig);
      LinkShape(recs0, flags, live0, a, P, k, w);
    }
  }

  /**
   * The first walk of `_state_tock` on the list in recs0 hanging off
   * anchor a with pending records P: one turn per pending record, ending
   * where WalkAt ends (see WalkComplete for what that means).
   */
  method Walk(debug1: bool, recs0: seq<Record>, flags: seq<Word>, live0: map<Cell, Word>, a: nat, ghost P: seq<nat>)
    returns (recs: seq<Record>, live: map<Cell, Word>, orig: int, ghost K: seq<nat>)
    requires Arena(recs0, flags, live0) && Chain(recs0, a, P)
    ensures Walker(recs, live, orig, -1, K) == WalkAt(debug1, recs0, flags, live0, a, |P|)
  {
    recs, live := recs0, live0;
    var ch := recs[a].next;
    orig := ch;
    K := [];
    ghost var k: nat := 0;
    while ch != -1
      invariant k <= |P| && Walker(recs, live, orig, ch, K) == WalkAt(debug1, recs0, flags, live0, a, k)
      decreases |P| - k
    {
      WalkAtShape(debug1, recs0, flags, live0, a, P, k, Walker(recs, live, orig, ch, K));
      var r := recs[ch];
      if StageBit(r.stage) & flags[r.flags] != 0 {
        if debug1 {
          // passed over
          K := K + [ch];
        } else {
          recs := Join(recs, r.prev, r.next);
          if ch == orig {
            orig := r.next;
          }
          // back up so that moving on reaches the unlinked record's successor
          ch := r.prev;
        }
      } else {
        live := live[r.target.cell := r.val];
        K := K + [ch];
      }
      ch := recs[ch].next;
      k := k + 1;
    }
    WalkAtShape(debug1, recs0, flags, live0, a, P, k, Walker(recs, live, orig, ch, K));
  }

  /** The walk stops after one turn per pending record, with what Walk promises. */
  lemma WalkComplete(debug1: bool, recs0: seq<Record>, flags: seq<Word>, live0: map<Cell, Word>, a: nat, P: seq<nat>)
    requires Arena(recs0, flags, live0) && Chain(recs0, a, P)
    ensures Committable(recs0, flags, live0, P) && Indexed(recs0, flags, P)
    ensures var w := WalkAt(debug1, recs0, flags, live0, a, |P|);
      && w.live == Commit(live0, recs0, flags, P) && w.kept == Kept(debug1, recs0, flags, P)
      && (debug1 ==> w.recs == recs0)
      && (!debug1 ==> Unlinked(recs0, w.recs, a, P, |P|, w.kept))
      && Arena(w.recs, flags, w.live) && Chain(w.recs, a, w.kept) && w.orig == NextOf(w.kept, -1)
      && Last(a, P) < |w.recs| && w.recs[Last(a, P)].next == -1
  {
    WalkAtWalked(debug1, recs0, flags, live0, a, P, |P|);
    var w := WalkAt(debug1, recs0, flags, live0, a, |P|);
    WalkEnd(debug1, recs0, flags, live0, a, P, w.kept, w.recs, w.live, w.orig);
  }

  /**
   * What the first walk of `_state_tock` promises, from state s (anchored,
   * cycle records pending) to state s', leaving the check walk to start at
   * orig: the cells hold the in-order commit of the unstalled pending
   * records; the list is unchanged (DEBUG1) or has lost exactly the stalled
   * pending records (release); the anchor is cleared; and orig starts the
   * chain of the records still listed.
   */
  ghost predicate Applied(build: Build, s: EngineState, s': EngineState, orig: int)
    requires Inv(s) && s.cycleHead != -1
  {
    ChainCommittable(s.recs, s.flags, s.live, s.cycleHead, s.pending);
    var K := Kept(build.debug1, s.recs, s.flags, s.pending);
    && s'.flags == s.flags && s'.cur == s.cur && s'.head == s.head && s'.cycle == s.cycle && s'.flushPc == s.flushPc
    && s'.cycleHead == -1 && s'.pending == []
    && s'.live == Commit(s.live, s.recs, s.flags, s.pending)
    && (build.debug1 ==> s'.recs == s.recs)
    && (!build.debug1 ==> Unlinked(s.recs, s'.recs, s.cycleHead, s.pending, |s.pending|, K))
    && Chain(s'.recs, s.cycleHead, K) && orig == NextOf(K, -1)
  }

  /**
   * What one `_state_tock` pass promises, with outcome st: the first walk
   * as in Applied, and success exactly when every checked record still
   * listed sees its own value.
   */
  ghost predicate Committed(build: Build, pcCell: Cell, s: EngineState, s': EngineState, st: Status)
    requires Inv(s) && s.cycleHead != -1
  {
    ChainCommittable(s.recs, s.flags, s.live, s.cycleHead, s.pending);
    var K := Kept(build.debug1, s.recs, s.flags, s.pending);
    && Applied(build, s, s', NextOf(K, -1))
    && (st == Done <==> AliasFree(s'.live, s'.recs, K, build.noPipeline, pcCell))
    && (st == Done || st == Fatal(Unpredictable))
  }

  /** Every record of a chain is past the sentinel, so it writes a live cell. */
  lemma ChainCells(recs: seq<Record>, flags: seq<Word>, live: map<Cell, Word>, a: nat, K: seq<nat>)
    requires Arena(recs, flags, live) && Chain(recs, a, K)
    ensures forall k :: 0 <= k < |K| ==> K[k] < |recs| && recs[K[k]].target.At? && recs[K[k]].target.cell in live
  {
    forall k | 0 <= k < |K|
      ensures K[k] < |recs| && recs[K[k]].target.At? && recs[K[k]].target.cell in live
    {
      assert ChainLink(recs, a, K, k);
      assert RecOk(recs, flags, live, K[k]);
    }
  }

  /** The check walk extends the checked prefix by one record that still sees its value. */
  lemma AliasFreeStep(live: map<Cell, Word>, recs: seq<Record>, K: seq<nat>, j: nat, noPipeline: bool, pcCell: Cell)
    requires j < |K| && forall k :: 0 <= k < |K| ==> K[k] < |recs|
    requires AliasFree(live, recs, K[..j], noPipeline, pcCell)
    requires Checked(recs[K[j]], noPipeline, pcCell) ==>
      recs[K[j]].target.cell in live && live[recs[K[j]].target.cell] == recs[K[j]].val
    ensures AliasFree(live, recs, K[..j + 1], noPipeline, pcCell)
  {
    assert forall k :: 0 <= k <= j ==> K[..j + 1][k] == K[k];
    assert forall k :: 0 <= k < j ==> K[..j][k] == K[k];
  }

  /** One checked record that lost its value is enough to fail the check. */
  lemma AliasFreeFails(live: map<Cell, Word>, recs: seq<Record>, K: seq<nat>, j: nat, noPipeline: bool, pcCell: Cell)
    requires j < |K| && forall k :: 0 <= k < |K| ==> K[k] < |recs|
    requires Checked(recs[K[j]], noPipeline, pcCell)
    requires recs[K[j]].target.cell in live && live[recs[K[j]].target.cell] != recs[K[j]].val
    ensures !AliasFree(live, recs, K, noPipeline, pcCell)
  {
  }

  lemma AliasFreeAll(live: map<Cell, Word>, recs: seq<Record>, K: seq<nat>, noPipeline: bool, pcCell: Cell)
    requires forall k :: 0 <= k < |K| ==> K[k] < |recs|
    requires AliasFree(live, recs, K[..|K|], noPipeline, pcCell)
    ensures AliasFree(live, recs, K, noPipeline, pcCell)
  {
    assert K[..|K|] == K;
  }
}
