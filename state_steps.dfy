/**
 * The entry points of the state engine in simulator.c that work without a
 * loop, each as a function from one `EngineState` to the next.  The class
 * in StateEngine runs them on its fields.
 */
module StateSteps {
  import opened StateLog

  /** Writes are applied at once (not only at commit) in NO_PIPELINE or inside an async block. */
  predicate Immediate(build: Build, w: Word)
  {
    build.noPipeline || w & BLOCKING_ASYNC != 0
  }

  /** In the release build a write from a stage already stalled this cycle is not recorded. */
  predicate Dropped(build: Build, w: Word, g: Stage)
  {
    !build.debug1 && w & StageBit(g) & STALL_MASK != 0
  }

  /**
   * What `_state_write` does with a write under flags word w: write the cell
   * directly (debugger), drop it, crash on a missing cell, or log it.
   */
  datatype WriteKind = Direct | Skip | Missing | Logged

  function KindOf(build: Build, w: Word, g: Stage, t: Target): (k: WriteKind)
    ensures k == Direct <==> w & DEBUGGING != 0 && t.At?
    ensures k == Skip <==> w & DEBUGGING == 0 && Dropped(build, w, g)
    ensures k == Logged <==> t.At? && w & DEBUGGING == 0 && !Dropped(build, w, g)
  {
    if w & DEBUGGING != 0 then (if t.At? then Direct else Missing)
    else if Dropped(build, w, g) then Skip
    else if t.NoCell? then Missing
    else Logged
  }

  /** Setting bits leaves the others alone. */
  lemma OrOutside(w: Word, bits: Word)
    ensures (w | bits) & !bits == w & !bits
  {
  }

  /** The flags words with every bit of `bits` set in word k. */
  function Raised(flags: seq<Word>, k: nat, bits: Word): (f: seq<Word>)
    requires k < |flags|
    ensures |f| == |flags| && f[k] & bits == bits
    ensures forall i :: 0 <= i < |flags| && i != k ==> f[i] == flags[i]
  {
    flags[k := flags[k] | bits]
  }

  /** Every bit of `bits` set in the current flags word; nothing else changes. */
  function SetBits(s: EngineState, bits: Word): (s': EngineState)
    requires Inv(s)
    ensures Inv(s') && |s'.flags| == |s.flags|
    ensures s'.flags[s.cur] & bits == bits
    ensures forall i :: 0 <= i < |s.flags| && i != s.cur ==> s'.flags[i] == s.flags[i]
    ensures s' == s.(flags := s'.flags)
  {
    var f := Raised(s.flags, s.cur, bits);
    InvWider(s, f, s.live);
    s.(flags := f)
  }

  /** SetBits leaves the other bits of the current flags word alone. */
  lemma SetBitsOutside(s: EngineState, bits: Word)
    requires Inv(s)
    ensures SetBits(s, bits).flags[s.cur] & !bits == s.flags[s.cur] & !bits
  {
    OrOutside(s.flags[s.cur], bits);
  }

  /** Every bit of `bits` cleared in the current flags word; nothing else changes. */
  function ClearBits(s: EngineState, bits: Word): (s': EngineState)
    requires Inv(s)
    ensures Inv(s') && |s'.flags| == |s.flags|
    ensures s'.flags[s.cur] & bits == 0
    ensures forall i :: 0 <= i < |s.flags| && i != s.cur ==> s'.flags[i] == s.flags[i]
    ensures s'.flags[s.cur] & !bits == s.flags[s.cur] & !bits
    ensures s' == s.(flags := s'.flags)
  {
    var f := s.flags[s.cur := s.flags[s.cur] & !bits];
    InvWider(s, f, s.live);
    s.(flags := f)
  }

  /**
   * The middle of `state_start_tick`: anchor the new cycle at the head, cut
   * off any future left by a backward seek, and switch to a fresh all-zero
   * flags word.
   */
  function NewCycle(s: EngineState): (s': EngineState)
    requires Inv(s)
    ensures Inv(s') && s'.cycleHead == s'.head == s.head && s'.pending == []
  {
    var f := s.flags + [0];
    var rs := s.recs[s.head := s.recs[s.head].(next := -1)];
    ArenaSetNext(s.recs, s.flags, s.live, s.head, -1);
    ArenaWider(rs, s.flags, s.live, f, s.live);
    s.(recs := rs, flags := f, cur := |s.flags|, cycleHead := s.head, pending := [])
  }

  /**
   * `state_start_tick`: async writes are blocked on the old flags word,
   * the new cycle is set up, then unblocked on the new word, so the old word
   * keeps its async-block bit for good.
   */
  function Retick(s: EngineState): (s': EngineState)
    requires Inv(s)
    ensures Inv(s') && s'.cycleHead == s'.head == s.head && s'.pending == []
  {
    ClearBits(NewCycle(SetBits(s, BLOCKING_ASYNC)), BLOCKING_ASYNC)
  }

  /** A new cycle keeps every payload and back link, cuts the head's forward link, and adds one zero flags word. */
  lemma RetickFacts(s: EngineState)
    requires Inv(s)
    ensures var s' := Retick(s);
      && |s'.recs| == |s.recs| && s'.recs[s.head].next == -1
      && (forall i :: 0 <= i < |s.recs| ==> Payload(s'.recs[i]) == Payload(s.recs[i]) && s'.recs[i].prev == s.recs[i].prev)
      && (forall i :: 0 <= i < |s.recs| && i != s.head ==> s'.recs[i] == s.recs[i])
      && |s'.flags| == |s.flags| + 1 && s'.cur == |s.flags| && s'.flags[s'.cur] == 0
      && s'.flags[s.cur] == s.flags[s.cur] | BLOCKING_ASYNC
      && (forall i :: 0 <= i < |s.flags| && i != s.cur ==> s'.flags[i] == s.flags[i])
      && s'.live == s.live && s'.cycle == s.cycle && s'.flushPc == s.flushPc
  {
  }

  /**
   * The logging half of `_state_write`: a new record, linked after the
   * head, that holds the running cycle, the stage, the current flags word,
   * the cell, the new value and the value the cell held before; the cell
   * changes at once only when writes are immediate.
   */
  function LogWrite(build: Build, s: EngineState, g: Stage, t: Target, v: Word): (s': EngineState)
    requires Inv(s) && t.At? && t.cell in s.live
    ensures Inv(s')
    ensures |s'.recs| == |s.recs| + 1 && s'.head == |s.recs|
    ensures s'.recs[s'.head] == Record(s.cycle, g, s.cur, t, v, s.live[t.cell], s.head, -1)
    ensures s'.recs[s.head].next == s'.head
    ensures s'.live == if Immediate(build, s.flags[s.cur]) then s.live[t.cell := v] else s.live
  {
    var n := |s.recs|;
    var r := Record(s.cycle, g, s.cur, t, v, s.live[t.cell], s.head, -1);
    var rs := s.recs[s.head := s.recs[s.head].(next := n)] + [r];
    var l := if Immediate(build, s.flags[s.cur]) then s.live[t.cell := v] else s.live;
    var P: seq<nat> := if s.cycleHead == -1 then [] else s.pending + [n];
    AppendKeepsInv(s, r, l);
    s.(recs := rs, head := n, live := l, pending := P)
  }

  /** A logged write touches no other record's payload or back link and no other global. */
  lemma LogWriteFrame(build: Build, s: EngineState, g: Stage, t: Target, v: Word)
    requires Inv(s) && t.At? && t.cell in s.live
    ensures var s' := LogWrite(build, s, g, t, v);
      && (forall i :: 0 <= i < |s.recs| ==> Payload(s'.recs[i]) == Payload(s.recs[i]) && s'.recs[i].prev == s.recs[i].prev)
      && (forall i :: 0 <= i < |s.recs| && i != s.head ==> s'.recs[i] == s.recs[i])
      && s'.flags == s.flags && s'.cur == s.cur && s'.cycle == s.cycle
      && s'.cycleHead == s.cycleHead && s'.flushPc == s.flushPc
      && s'.pending == (if s.cycleHead == -1 then [] else s.pending + [s'.head])
  {
  }

  /** A write that is neither dropped nor deferred to the commit reaches its cell at once. */
  lemma WriteLands(build: Build, s: EngineState, g: Stage, c: Cell, v: Word)
    requires Inv(s) && c in s.live
    requires s.flags[s.cur] & DEBUGGING != 0 || (Immediate(build, s.flags[s.cur]) && !Dropped(build, s.flags[s.cur], g))
    ensures WriteStep(build, s, g, At(c), v).state.live == s.live[c := v]
  {
    if s.flags[s.cur] & DEBUGGING == 0 {
      LogWriteFrame(build, s, g, At(c), v);
    }
  }

  /**
   * `_state_write` (and `state_write`, `state_write_p`): a debugger write
   * goes straight to the cell, a release-build write of a stalled stage is
   * dropped, a write without a cell is a crash, any other write is logged.
   */
  function WriteStep(build: Build, s: EngineState, g: Stage, t: Target, v: Word): (r: Step)
    requires Inv(s) && (t.At? ==> t.cell in s.live)
    ensures Inv(r.state)
    ensures r.status == Done || r.status == Fatal(Abort)
    ensures r.status == Fatal(Abort) <==> t.NoCell? && KindOf(build, s.flags[s.cur], g, t) != Skip
    ensures r.status == Fatal(Abort) ==> r.state == s
    ensures r.state.live.Keys == s.live.Keys && r.state.cycleHead == s.cycleHead && r.state.cycle == s.cycle
  {
    match KindOf(build, s.flags[s.cur], g, t)
    case Direct =>
      InvWider(s, s.flags, s.live[t.cell := v]);
      Step(s.(live := s.live[t.cell := v]), Done)
    case Skip => Step(s, Done)
    case Missing => Step(s, Fatal(Abort))
    case Logged =>
      LogWriteFrame(build, s, g, t, v);
      Step(LogWrite(build, s, g, t, v), Done)
  }

  /** `stall`: only PRE, IF and ID may be stalled; the stage's bit is set in the current word. */
  function StallStep(s: EngineState, g: Stage): (r: Step)
    requires Inv(s)
    ensures Inv(r.state)
    ensures r.status == Done <==> g in {PRE, IF, ID}
    ensures r.status != Done ==> r.status == Fatal(Unpredictable) && r.state == s
    ensures r.status == Done ==> r.state == SetBits(s, StageBit(g))
  {
    if StageBit(g) & !STALLABLE != 0 then Step(s, Fatal(Unpredictable))
    else Step(SetBits(s, StageBit(g)), Done)
  }

  /** `state_pipeline_flush`: request a flush to newPc at the end of the cycle. */
  function FlushRequest(s: EngineState, newPc: Word): (s': EngineState)
    requires Inv(s)
    ensures Inv(s') && s'.flags[s'.cur] & PIPELINE_FLUSH != 0 && s'.flushPc == newPc
    ensures s' == SetBits(s, PIPELINE_FLUSH).(flushPc := newPc)
  {
    SetBits(s, PIPELINE_FLUSH).(flushPc := newPc)
  }

  /** The state a seek leaves: position and values from p, everything else from s. */
  function MoveTo(s: EngineState, p: Pos): (s': EngineState)
    requires Inv(s) && s.cycleHead == -1 && p.head < |s.recs| && p.live.Keys == s.live.Keys
    ensures Inv(s')
  {
    InvWider(s, s.flags, p.live);
    s.(live := p.live, head := p.head, cycle := p.cycle)
  }

  /**
   * `state_seek` between cycles: the head must belong to the running cycle;
   * a later target replays forwards, the running cycle itself is refused as
   * tolerable, an earlier target rewinds.
   */
  ghost function SeekStep(s: EngineState, target: int): (r: Step)
    requires Inv(s) && s.cycleHead == -1
    ensures Inv(r.state)
    ensures r.status == Fatal(Abort) ==> s.recs[s.head].cycle != s.cycle || target < s.cycle
    ensures target == s.cycle && s.recs[s.head].cycle == s.cycle ==> r == Step(s, Tolerable)
    ensures r.status == Done ==> r.state.cycle == target || (target < s.cycle && r.state.cycle <= target)
    ensures r.status.Fatal? ==> r.state == s || target < s.cycle
    ensures r.state.recs == s.recs && r.state.flags == s.flags && r.state.cur == s.cur
  {
    if s.recs[s.head].cycle != s.cycle then Step(s, Fatal(Abort))
    else if target > s.cycle then
      var p := SeekForward(s.live, s.recs, s.flags, s.head, s.cycle, target);
      Step(MoveTo(s, p), p.status)
    else if target == s.cycle then Step(s, Tolerable)
    else
      var p := SeekBackward(s.live, s.recs, s.flags, s.head, target);
      Step(MoveTo(s, p), p.status)
  }

  /** `state_tock` goes on with a pipeline flush: the pipelined build, and the flag raised by `state_pipeline_flush`. */
  predicate FlushDue(build: Build, s: EngineState)
    requires s.cur < |s.flags|
  {
    !build.noPipeline && s.flags[s.cur] & PIPELINE_FLUSH != 0
  }

  /**
   * The start of a pipeline flush in `state_tock`: the anchor moves back to
   * the head, whose flags word is marked as running a flush.
   */
  function FlushAnchor(s: EngineState): (s': EngineState)
    requires Inv(s) && s.cycleHead == -1 && s.recs[s.head].next == -1
    ensures Inv(s') && s'.cycleHead == s.head && s'.pending == []
  {
    assert RecOk(s.recs, s.flags, s.live, s.head);
    var i := s.recs[s.head].flags;
    var f := s.flags[i := s.flags[i] | PIPELINE_RUNNING];
    InvWider(s, f, s.live);
    s.(flags := f, cycleHead := s.head, pending := [])
  }

  /**
   * `state_led_write`: a write of an LED cell by the simulator itself,
   * marked in the flags word as an LED write while it runs and as "an LED
   * was written" for the rest of the cycle.
   */
  function LedStep(build: Build, s: EngineState, led: Cell, v: Word): (r: Step)
    requires Inv(s) && led in s.live
    ensures Inv(r.state)
  {
    var r1 := WriteStep(build, SetBits(s, LED_WRITING | LED_WRITTEN), SIM, At(led), v);
    Step(ClearBits(r1.state, LED_WRITING), r1.status)
  }

  /** A write leaves the flags words and the current one where they were. */
  lemma WriteStepFlags(build: Build, s: EngineState, g: Stage, t: Target, v: Word)
    requires Inv(s) && (t.At? ==> t.cell in s.live)
    ensures WriteStep(build, s, g, t, v).state.flags == s.flags
    ensures WriteStep(build, s, g, t, v).state.cur == s.cur
  {
    if KindOf(build, s.flags[s.cur], g, t) == Logged {
      LogWriteFrame(build, s, g, t, v);
    }
  }

  /** After an LED write the cycle is marked as having written an LED, and no longer as writing one. */
  lemma LedWriteMarks(build: Build, s: EngineState, led: Cell, v: Word)
    requires Inv(s) && led in s.live
    ensures var r := LedStep(build, s, led, v);
      r.state.flags[r.state.cur] & LED_WRITTEN != 0 && r.state.flags[r.state.cur] & LED_WRITING == 0
  {
    var s1 := SetBits(s, LED_WRITING | LED_WRITTEN);
    WriteStepFlags(build, s1, SIM, At(led), v);
    var w := s1.flags[s1.cur];
    assert w & (LED_WRITING | LED_WRITTEN) == LED_WRITING | LED_WRITTEN;
    assert w & LED_WRITTEN != 0;
    var r1 := WriteStep(build, s1, SIM, At(led), v);
    var w' := ClearBits(r1.state, LED_WRITING).flags[s.cur];
    assert w' & !LED_WRITING == w & !LED_WRITING;
  }

  /** The start-up state: the sentinel record alone, flags word 0 current, cycle -1. */
  function Initial(cells: map<Cell, Word>): (s: EngineState)
    ensures Inv(s) && s.head == 0 && s.recs[0].next == -1 && s.cycleHead == -1
  {
    var s := EngineState(cells, [Sentinel], [0], 0, 0, -1, -1, 0xffff_ffff, []);
    assert RecOk(s.recs, s.flags, s.live, 0);
    s
  }

  /**
   * `state_write_async`: a write inside an async block.  The block bit is
   * set around the write and cleared afterwards, so a logged write reaches
   * its cell at once.
   */
  function AsyncWrite(build: Build, s: EngineState, g: Stage, t: Target, v: Word): (r: Step)
    requires Inv(s) && (t.At? ==> t.cell in s.live)
    ensures Inv(r.state) && r.state.flags[r.state.cur] & BLOCKING_ASYNC == 0
  {
    var s1 := SetBits(s, BLOCKING_ASYNC);
    var r1 := WriteStep(build, s1, g, t, v);
    Step(ClearBits(r1.state, BLOCKING_ASYNC), r1.status)
  }

  /** An async write that is logged reaches its cell at once and records the value it replaced. */
  lemma AsyncWriteImmediate(build: Build, s: EngineState, g: Stage, t: Target, v: Word)
    requires Inv(s) && t.At? && t.cell in s.live
    requires KindOf(build, s.flags[s.cur] | BLOCKING_ASYNC, g, t) == Logged
    ensures var r := AsyncWrite(build, s, g, t, v);
      && r.status == Done && r.state.live == s.live[t.cell := v]
      && r.state.head == |s.recs| && r.state.recs[r.state.head].prevVal == s.live[t.cell]
  {
    var s1 := SetBits(s, BLOCKING_ASYNC);
    assert Immediate(build, s1.flags[s1.cur]);
    var s2 := LogWrite(build, s1, g, t, v);
    assert WriteStep(build, s1, g, t, v) == Step(s2, Done);
    assert s2.live == s.live[t.cell := v];
  }
}
