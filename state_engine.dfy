/**
 * The state engine of simulator.c as an object: the globals `state_head`,
 * `cycle_head`, `state_flags_cur`, `cycle`, `state_pipeline_new_pc`, the
 * change records and the cells they write become fields, and each engine
 * entry point a method.  Every method is tied to a step of StateSteps or to
 * the commit relation of CommitWalk, so the engine invariant and what each
 * step means are stated once, on values.
 */
module StateEngine {
  import opened StateLog
  import opened StateSteps
  import opened CommitWalk
  import opened StateSeek

  /** The first commit of `state_tock`, from the state with async writes blocked. */
  ghost predicate FirstCommit(build: Build, pcCell: Cell, s: EngineState, mid: EngineState, first: Status)
    requires Inv(s) && s.cycleHead != -1
  {
    Committed(build, pcCell, SetBits(s, BLOCKING_ASYNC), mid, first)
  }

  class Engine {
    const build: Build
    /** The cell of `pre_if_PC`, exempt from the aliasing check in NO_PIPELINE. */
    const pcCell: Cell
    var live: map<Cell, Word>
    var recs: seq<Record>
    /** The flags words; record i refers to `flags[recs[i].flags]`. */
    var flags: seq<Word>
    /** `state_flags_cur` */
    var cur: nat
    /** `state_head` */
    var head: nat
    /** `cycle_head`, -1 for NULL */
    var cycleHead: int
    var cycle: int
    /** `state_pipeline_new_pc` */
    var flushPc: Word
    /** The records written since `cycle_head` was anchored, in list order. */
    ghost var pending: seq<nat>

    ghost function State(): EngineState
      reads this
    {
      EngineState(live, recs, flags, cur, head, cycleHead, cycle, flushPc, pending)
    }

    ghost predicate Valid()
      reads this
    {
      Inv(State())
    }

    /** The start-up state: only the sentinel `state_start`, its flags word current, cycle -1. */
    constructor (build: Build, pcCell: Cell, cells: map<Cell, Word>)
      ensures State() == Initial(cells)
      ensures Valid()
      ensures this.build == build && this.pcCell == pcCell
    {
      this.build := build;
      this.pcCell := pcCell;
      live := cells;
      recs := [Sentinel];
      flags := [0];
      cur := 0;
      head := 0;
      cycleHead := -1;
      cycle := -1;
      flushPc := 0xffff_ffff;
      pending := [];
    }

    /** `state_start_tick` */
    method StartTick()
      requires Valid()
      modifies this
      ensures State() == Retick(old(State()))
      ensures Valid() && cycle == old(cycle) && live == old(live)
    {
      AsyncBlockStart();
      ghost var s1 := State();
      cycleHead := head;
      // the future beyond the head is discarded (its records become unreachable)
      recs := recs[head := recs[head].(next := -1)];
      cur := |flags|;
      flags := flags + [0];
      pending := [];
      assert State() == NewCycle(s1);
      AsyncBlockEnd();
    }

    /** `_state_write`, reached through `state_write` (numeric cell) or `state_write_p` (pointer cell). */
    method Write(g: Stage, t: Target, v: Word) returns (st: Status)
      requires Valid() && (t.At? ==> t.cell in live)
      modifies this
      ensures Step(State(), st) == WriteStep(build, old(State()), g, t, v)
      ensures Valid() && cycle == old(cycle) && live.Keys == old(live.Keys)
    {
      match KindOf(build, flags[cur], g, t)
      case Direct =>
        live := live[t.cell := v];
        st := Done;
      case Skip =>
        st := Done;
      case Missing =>
        st := Fatal(Abort);
      case Logged =>
        Append(g, t, v);
        st := Done;
    }

    /** The logging half of `_state_write`. */
    method Append(g: Stage, t: Target, v: Word)
      requires Valid() && t.At? && t.cell in live
      modifies this
      ensures State() == LogWrite(build, old(State()), g, t, v)
      ensures Valid()
    {
      var n := |recs|;
      var r := Record(cycle, g, cur, t, v, live[t.cell], head, -1);
      recs := recs[head := recs[head].(next := n)] + [r];
      if Immediate(build, flags[cur]) {
        live := live[t.cell := v];
      }
      if cycleHead != -1 {
        pending := pending + [n];
      }
      head := n;
    }

    /** `state_async_block_start`: writes from now on reach their cells at once. */
    method AsyncBlockStart()
      requires Valid()
      modifies this
      ensures State() == SetBits(old(State()), BLOCKING_ASYNC)
      ensures Valid()
    {
      flags := flags[cur := flags[cur] | BLOCKING_ASYNC];
    }

    /** `state_async_block_end` */
    method AsyncBlockEnd()
      requires Valid()
      modifies this
      ensures State() == ClearBits(old(State()), BLOCKING_ASYNC)
      ensures Valid()
    {
      ClearFlags(BLOCKING_ASYNC);
    }

    /** Clear bits of the current flags word. */
    method ClearFlags(bits: Word)
      requires Valid()
      modifies this
      ensures State() == ClearBits(old(State()), bits)
      ensures Valid()
    {
      flags := flags[cur := flags[cur] & !bits];
    }

    /** `state_write_async`: a write inside an async block. */
    method WriteAsync(g: Stage, t: Target, v: Word) returns (st: Status)
      requires Valid() && (t.At? ==> t.cell in live)
      modifies this
      ensures Step(State(), st) == AsyncWrite(build, old(State()), g, t, v)
      ensures Valid()
    {
      AsyncBlockStart();
      st := Write(g, t, v);
      AsyncBlockEnd();
    }

    /** `stall` */
    method Stall(g: Stage) returns (st: Status)
      requires Valid()
      modifies this
      ensures Step(State(), st) == StallStep(old(State()), g)
      ensures Valid()
    {
      if StageBit(g) & !STALLABLE != 0 {
        st := Fatal(Unpredictable);
      } else {
        flags := flags[cur := flags[cur] | StageBit(g)];
        st := Done;
      }
    }

    /** `state_pipeline_flush` (pipelined build only). */
    method PipelineFlush(newPc: Word)
      requires Valid() && !build.noPipeline
      modifies this
      ensures State() == FlushRequest(old(State()), newPc)
      ensures Valid()
    {
      flags := flags[cur := flags[cur] | PIPELINE_FLUSH];
      flushPc := newPc;
    }

    /** `state_led_write` (the simulator's own write of an LED cell). */
    method LedWrite(led: Cell, v: Word) returns (st: Status)
      requires Valid() && led in live
      modifies this
      ensures Step(State(), st) == LedStep(build, old(State()), led, v)
      ensures Valid()
    {
      SetFlags(LED_WRITING | LED_WRITTEN);
      st := Write(SIM, At(led), v);
      ClearFlags(LED_WRITING);
    }

    /** Set bits of the current flags word. */
    method SetFlags(bits: Word)
      requires Valid()
      modifies this
      ensures State() == SetBits(old(State()), bits)
      ensures Valid()
    {
      flags := Raised(flags, cur, bits);
    }

    /** `state_enter_debugging` */
    method EnterDebugging()
      requires Valid()
      modifies this
      ensures State() == SetBits(old(State()), DEBUGGING)
      ensures Valid()
    {
      flags := flags[cur := flags[cur] | DEBUGGING];
    }

    /** `state_exit_debugging` */
    method ExitDebugging()
      requires Valid()
      modifies this
      ensures State() == ClearBits(old(State()), DEBUGGING)
      ensures Valid()
    {
      flags := flags[cur := flags[cur] & !DEBUGGING];
    }

    /**
     * `state_tock`: with async writes blocked, commit the cycle's records
     * (a cycle without records is an assertion failure); when the pipelined
     * build asked for a flush, go on with FlushCycle.  first is the outcome
     * of the first commit and mid the state it leaves.
     */
    method Tock(flushWrites: seq<WriteReq>) returns (st: Status, first: Status, ghost mid: EngineState)
      requires Valid()
      requires forall w :: w in flushWrites && w.target.At? ==> w.target.cell in live
      modifies this
      ensures Valid()
      ensures old(cycleHead) == -1 || old(recs[cycleHead].next) == -1 ==> st == Fatal(Abort)
      ensures old(cycleHead) != -1 && old(recs[cycleHead].next) != -1 ==>
        && FirstCommit(build, pcCell, old(State()), mid, first) && Inv(mid)
        && (first != Done ==> st == first && State() == mid)
        && (first == Done && !FlushDue(build, mid) ==> st == Done && State() == ClearBits(mid, BLOCKING_ASYNC))
      ensures st == Done ==> cycleHead == -1 && flags[cur] & BLOCKING_ASYNC == 0
      ensures cycle == old(cycle) && live.Keys == old(live.Keys)
    {
      first, mid := Done, State();
      AsyncBlockStart();
      if cycleHead == -1 || recs[cycleHead].next == -1 {
        return Fatal(Abort), first, mid;
      }
      first := CommitPass();
      mid := State();
      if first != Done {
        return first, first, mid;
      }
      if !build.noPipeline && flags[cur] & PIPELINE_FLUSH != 0 {
        st := FlushCycle(flushWrites);
        if st != Done {
          return;
        }
      }
      AsyncBlockEnd();
      st := Done;
    }

    /**
     * The flush branch of `state_tock`: anchor at the head and mark its
     * flags word as flushing, let the pipeline issue its flush writes (given
     * here as flushWrites, each logged or applied as a plain write), commit
     * them, and clear the flushing mark of the current flags word.
     */
    method FlushCycle(flushWrites: seq<WriteReq>) returns (st: Status)
      requires Valid() && cycleHead == -1 && recs[head].next == -1
      requires forall w :: w in flushWrites && w.target.At? ==> w.target.cell in live
      modifies this
      ensures Valid()
      ensures st == Done ==> cycleHead == -1 && flags[cur] & PIPELINE_RUNNING == 0
      ensures cycle == old(cycle) && live.Keys == old(live.Keys)
    {
      AnchorFlush();
      var i := 0;
      while i < |flushWrites|
        invariant Valid() && cycleHead != -1 && i <= |flushWrites|
        invariant cycle == old(cycle) && live.Keys == old(live.Keys)
      {
        st := Write(flushWrites[i].stage, flushWrites[i].target, flushWrites[i].val);
        if st != Done {
          return;
        }
        i := i + 1;
      }
      st := CommitPass();
      if st != Done {
        return;
      }
      ClearFlags(PIPELINE_RUNNING);
    }

    /** The anchor moves to the head for the flush writes; the head's flags word is marked as flushing. */
    method AnchorFlush()
      requires Valid() && cycleHead == -1 && recs[head].next == -1
      modifies this
      ensures State() == FlushAnchor(old(State()))
      ensures Valid()
    {
      assert RecOk(recs, flags, live, head);
      var i := recs[head].flags;
      flags := flags[i := flags[i] | PIPELINE_RUNNING];
      cycleHead := head;
      pending := [];
    }

    /** `cycle++` in `sim_execute`, between the tock of one cycle and the tick of the next. */
    method NextCycle()
      requires Valid() && cycleHead == -1
      modifies this
      ensures State() == old(State()).(cycle := old(cycle) + 1)
      ensures Valid()
    {
      cycle := cycle + 1;
    }

    /**
     * `state_seek` between cycles: 0 (Done) on success, a tolerable refusal
     * (the running cycle, the end of the log, an I/O barrier), or a fault.
     */
    method Seek(target: int) returns (st: Status)
      requires Valid() && cycleHead == -1
      modifies this
      ensures Step(State(), st) == SeekStep(old(State()), target)
      ensures Valid()
    {
      if recs[head].cycle != cycle {
        return Fatal(Abort);
      }
      if target > cycle {
        var p := Forward(live, recs, flags, head, cycle, target);
        live, head, cycle := p.live, p.head, p.cycle;
        st := p.status;
      } else if target == cycle {
        st := Tolerable;
      } else {
        var p := Backward(live, recs, flags, head, target);
        live, head, cycle := p.live, p.head, p.cycle;
        st := p.status;
      }
    }

    /**
     * `_state_tock`: walk the records written since the anchor in list
     * order, applying each unstalled one; a stalled one is passed over
     * (DEBUG1) or unlinked (release).  Then walk the records still listed
     * from the first one and fault if a checked cell has lost its record's
     * value.
     */
    method CommitPass() returns (st: Status)
      requires Valid() && cycleHead != -1
      modifies this
      ensures Committed(build, pcCell, old(State()), State(), st)
      ensures Valid() && recs[head].next == -1 && cycle == old(cycle) && live.Keys == old(live.Keys)
    {
      ghost var a: nat := cycleHead;
      ChainCommittable(recs, flags, live, a, pending);
      ghost var K := Kept(build.debug1, recs, flags, pending);
      var orig := ApplyPass();
      st := CheckPass(orig, a, K);
    }

    /** The first walk of `_state_tock`. */
    method ApplyPass() returns (orig: int)
      requires Valid() && cycleHead != -1
      modifies this
      ensures Applied(build, old(State()), State(), orig)
      ensures Valid() && recs[head].next == -1 && cycle == old(cycle) && live.Keys == old(live.Keys)
    {
      ghost var a: nat := cycleHead;
      var rs, lv;
      ghost var K;
      rs, lv, orig, K := Walk(build.debug1, recs, flags, live, cycleHead, pending);
      WalkComplete(build.debug1, recs, flags, live, a, pending);
      recs, live := rs, lv;
      cycleHead := -1;
      pending := [];
    }

    /**
     * The check walk of `_state_tock`, from orig along the chain K hanging
     * off record a: it changes nothing and succeeds exactly when no checked
     * record has lost its value.
     */
    method CheckPass(orig: int, ghost a: nat, ghost K: seq<nat>) returns (st: Status)
      requires Valid() && Chain(recs, a, K) && orig == NextOf(K, -1)
      ensures st == Done <==> AliasFree(live, recs, K, build.noPipeline, pcCell)
      ensures st == Done || st == Fatal(Unpredictable)
    {
      ChainCells(recs, flags, live, a, K);
      st := Done;
      var o := orig;
      ghost var j: nat := 0;
      while o != -1 && st == Done
        invariant j <= |K| && (st == Done ==> o == NextOf(K, j - 1))
        invariant st == Done ==> AliasFree(live, recs, K[..j], build.noPipeline, pcCell)
        invariant st != Done ==> st == Fatal(Unpredictable) && !AliasFree(live, recs, K, build.noPipeline, pcCell)
        decreases |K| - j + (if st == Done then 1 else 0)
      {
        assert ChainLink(recs, a, K, j);
        var r := recs[o];
        if Checked(r, build.noPipeline, pcCell) && live[r.target.cell] != r.val {
          AliasFreeFails(live, recs, K, j, build.noPipeline, pcCell);
          st := Fatal(Unpredictable);
        } else {
          AliasFreeStep(live, recs, K, j, build.noPipeline, pcCell);
          o := r.next;
          j := j + 1;
        }
      }
      if st == Done {
        AliasFreeAll(live, recs, K, build.noPipeline, pcCell);
      }
    }
  }
}
