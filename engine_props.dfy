/**
 * What the state engine of simulator.c promises across several calls: a
 * rewind undoes a logged write and a replay redoes it, a new cycle cuts off
 * the future, a stall silences the stage in the release build, and the
 * release-build unlink can leave `state_head` on a record that is no longer
 * listed.
 */
module EngineProps {
  import opened StateLog
  import opened StateSteps
  import opened CommitWalk

  /** A backward seek from head h over this log ends at p. */
  ghost predicate Rewinds(live: map<Cell, Word>, recs: seq<Record>, flags: seq<Word>, h: nat, target: int, p: Pos)
  {
    Arena(recs, flags, live) && h < |recs| && SeekBackward(live, recs, flags, h, target) == p
  }

  /** A forward seek from head h at cycle c over this log ends at p. */
  ghost predicate Replays(live: map<Cell, Word>, recs: seq<Record>, flags: seq<Word>, h: nat, c: int, target: int, p: Pos)
  {
    Arena(recs, flags, live) && h < |recs| && SeekForward(live, recs, flags, h, c, target) == p
  }

  /**
   * Rewinding past a logged write (one cycle back, no I/O barrier) restores
   * the live cells to what they were before the write and the head to the
   * record before it.  RewindTrace.RewindRestoresRun is the same over a
   * run of many steps.
   */
  lemma RewindUndoesWrite(build: Build, s: EngineState, g: Stage, t: Target, v: Word, target: int)
    requires Inv(s) && t.At? && t.cell in s.live
    requires s.recs[s.head].cycle <= target < s.cycle
    requires s.flags[s.cur] & IO_BARRIER == 0
    ensures var s' := LogWrite(build, s, g, t, v);
      Rewinds(s'.live, s'.recs, s'.flags, s'.head, target, Pos(s.live, s.head, s.recs[s.head].cycle, Done))
  {
    var s' := LogWrite(build, s, g, t, v);
    LogWriteFrame(build, s, g, t, v);
    var r := s'.recs[s'.head];
    assert r.prev == s.head && r.cycle == s.cycle && r.flags == s.cur;
    var back := s'.live[t.cell := r.prevVal];
    assert back == s.live;
    ArenaWider(s'.recs, s'.flags, s'.live, s'.flags, back);
    assert s'.recs[s.head].cycle == s.recs[s.head].cycle;
    assert SeekBackward(back, s'.recs, s'.flags, s.head, target) == Pos(s.live, s.head, s.recs[s.head].cycle, Done);
  }

  /**
   * Replaying one cycle forward from the record before a logged write
   * applies the write's value and lands on its record, whatever the stage
   * bits of its flags word say: forward seek has no stall test, so in the
   * DEBUG1 build it re-applies a stalled record that the commit skipped.
   */
  lemma ReplayRedoesWrite(build: Build, s: EngineState, g: Stage, t: Target, v: Word, c: int)
    requires Inv(s) && t.At? && t.cell in s.live
    ensures var s' := LogWrite(build, s, g, t, v);
      Replays(s.live, s'.recs, s'.flags, s.head, c, c + 1, Pos(s.live[t.cell := v], s'.head, c + 1, Done))
  {
    var s' := LogWrite(build, s, g, t, v);
    ArenaWider(s'.recs, s'.flags, s'.live, s'.flags, s.live);
    var r := s'.recs[s'.head];
    assert s'.recs[s.head].next == s'.head && r.next == -1 && r.target == t && r.val == v;
    ArenaWider(s'.recs, s'.flags, s.live, s'.flags, s.live[t.cell := v]);
    assert SeekForward(s.live[t.cell := v], s'.recs, s'.flags, s'.head, c + 1, c + 1) == Pos(s.live[t.cell := v], s'.head, c + 1, Done);
  }

  /**
   * With writes applied at once, a rewind then a replay returns to the
   * state right after the write.  ReplayTrace.RewindReplayRun is the same
   * over a run of many cycles.
   */
  lemma RewindThenReplay(build: Build, s: EngineState, g: Stage, t: Target, v: Word, target: int)
    requires Inv(s) && t.At? && t.cell in s.live && Immediate(build, s.flags[s.cur])
    requires s.recs[s.head].cycle == target && target + 1 == s.cycle
    requires s.flags[s.cur] & IO_BARRIER == 0
    ensures var s' := LogWrite(build, s, g, t, v);
      && Rewinds(s'.live, s'.recs, s'.flags, s'.head, target, Pos(s.live, s.head, target, Done))
      && Replays(s.live, s'.recs, s'.flags, s.head, target, s.cycle, Pos(s'.live, s'.head, s.cycle, Done))
  {
    RewindUndoesWrite(build, s, g, t, v, target);
    ReplayRedoesWrite(build, s, g, t, v, target);
  }

  /**
   * After `state_start_tick` the head has no successor, so forward seek from
   * there finds no history and refuses (tolerably) without moving.
   */
  lemma RetickDiscardsFuture(s: EngineState, c: int, target: int)
    requires Inv(s) && c < target
    ensures var s' := Retick(s);
      Replays(s'.live, s'.recs, s'.flags, s'.head, c, target, Pos(s'.live, s'.head, c, Tolerable))
  {
    RetickFacts(s);
  }

  /**
   * In the release build, once a stage has stalled this cycle its further
   * writes are dropped: nothing is logged and nothing changes.
   */
  lemma StallDropsLaterWrites(build: Build, s: EngineState, g: Stage, t: Target, v: Word)
    requires Inv(s) && !build.debug1 && s.flags[s.cur] & DEBUGGING == 0 && g in {PRE, IF, ID}
    requires t.At? ==> t.cell in s.live
    ensures var r := StallStep(s, g);
      r.status == Done && WriteStep(build, r.state, g, t, v) == Step(r.state, Done)
  {
    var s1 := StallStep(s, g).state;
    var w := s1.flags[s1.cur];
    SetBitsOutside(s, StageBit(g));
    assert w & StageBit(g) == StageBit(g);
    assert w & !StageBit(g) == s.flags[s.cur] & !StageBit(g);
    assert StageBit(g) & DEBUGGING == 0 && StageBit(g) & STALL_MASK == StageBit(g) != 0;
    assert w & DEBUGGING == 0;
    assert Dropped(build, w, g);
  }

  /** The DEBUG1 build keeps logging a stalled stage's writes (the commit skips them instead). */
  lemma StallKeepsDebugWrites(build: Build, s: EngineState, g: Stage, t: Target)
    requires Inv(s) && build.debug1 && s.flags[s.cur] & DEBUGGING == 0 && g in {PRE, IF, ID} && t.At?
    ensures var r := StallStep(s, g);
      r.status == Done && KindOf(build, r.state.flags[r.state.cur], g, t) == Logged
  {
    var s1 := StallStep(s, g).state;
    var w := s1.flags[s1.cur];
    SetBitsOutside(s, StageBit(g));
    assert w & !StageBit(g) == s.flags[s.cur] & !StageBit(g);
    assert StageBit(g) & DEBUGGING == 0;
    assert w & DEBUGGING == 0;
  }

  /**
   * The release-build commit unlinks a stalled newest record but leaves
   * `state_head` on it: the head is then no longer one of the records listed
   * after the anchor.
   */
  lemma UnlinkLeavesHead(build: Build, s: EngineState, s': EngineState, orig: int)
    requires Inv(s) && s.cycleHead != -1 && !build.debug1 && Applied(build, s, s', orig)
    requires s.pending != [] && s.recs[s.head].flags < |s.flags| && Stalled(s.recs[s.head], s.flags)
    ensures Indexed(s.recs, s.flags, s.pending)
    ensures s'.head == s.head && s.head !in Kept(build.debug1, s.recs, s.flags, s.pending)
  {
    ChainCommittable(s.recs, s.flags, s.live, s.cycleHead, s.pending);
  }
}
