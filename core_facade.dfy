/**
 * The register interface the instruction implementations call
 * (simulator/core/simulator.c: `CORE_reg_read`, `CORE_reg_write`,
 * `CORE_cpsr_write`) and the per-cycle driver `sim_execute`, bound to the
 * state engine: `SR` is a read of the live cell and `SW` a write of stage
 * SIM through `_state_write`.
 *
 * The register variables become cells of the engine: r0-r12, the process
 * stack pointer that `SP` names, `lr`, the three pipeline PCs and the CPSR.
 */
module CoreFacade {
  import opened StateLog
  import opened StateSteps
  import opened StateEngine

  const SP_REG: int := 13
  const LR_REG: int := 14
  const PC_REG: int := 15

  const SP_CELL: Cell := Numeric(13)
  const LR_CELL: Cell := Numeric(14)
  const PRE_IF_PC: Cell := Numeric(15)
  const IF_ID_PC: Cell := Numeric(16)
  const ID_EX_PC: Cell := Numeric(17)
  const CPSR_CELL: Cell := Numeric(18)

  /** Bits [1:0] of SP and bit 0 of PC read as zero and are ignored on write (ARMv7-M, section B1.4.1). */
  const SP_MASK: Word := 0xffff_fffc
  const PC_MASK: Word := 0xffff_fffe

  /** Every register cell is among the engine's cells. */
  ghost predicate RegsLive(keys: set<Cell>)
  {
    forall n: nat :: n <= 18 ==> Numeric(n) in keys
  }

  /** w with the bits outside m cleared. */
  function Masked(w: Word, m: Word): Word
  {
    w & m
  }

  /** A register read: the value, or None for an index outside 0..15. */
  datatype OptWord = None | Some(value: Word)

  /**
   * `CORE_reg_read`: the low bits of SP and PC read as zero, the other
   * registers as stored; an index outside 0..15 fails the assertion (None).
   * In both builds the PC read is of `id_ex_PC`.
   */
  function RegRead(live: map<Cell, Word>, r: int): (v: OptWord)
    requires RegsLive(live.Keys)
    ensures v.None? <==> !(0 <= r < 16)
    ensures 0 <= r < 13 || r == LR_REG ==> v == Some(live[Numeric(r)])
  {
    if !(0 <= r < 16) then None
    else if r == SP_REG then Some(Masked(live[SP_CELL], SP_MASK))
    else if r == LR_REG then Some(live[LR_CELL])
    else if r == PC_REG then Some(Masked(live[ID_EX_PC], PC_MASK))
    else Some(live[Numeric(r)])
  }

  /** SP reads word aligned and PC halfword aligned, whatever the cells hold. */
  lemma ReadsAligned(live: map<Cell, Word>)
    requires RegsLive(live.Keys)
    ensures RegRead(live, SP_REG).value & 3 == 0
    ensures RegRead(live, PC_REG).value & 1 == 0
  {
    LowBitsCleared(live[SP_CELL], SP_MASK, 3);
    LowBitsCleared(live[ID_EX_PC], PC_MASK, 1);
  }

  lemma LowBitsCleared(w: Word, m: Word, low: Word)
    requires m & low == 0
    ensures Masked(w, m) & low == 0
  {
  }

  /** The pipeline already fetched from the address written to PC. */
  predicate Predicted(live: map<Cell, Word>, v: Word)
    requires IF_ID_PC in live
  {
    Masked(live[IF_ID_PC], PC_MASK) - 4 == Masked(v, PC_MASK)
  }

  /**
   * `CORE_reg_write`: SP keeps its low bits clear, PC goes to PcWriteStep,
   * every other register is written as given; an index outside 0..15 fails
   * the assertion.
   */
  function RegWriteStep(build: Build, s: EngineState, r: int, v: Word): (res: Step)
    requires Inv(s) && RegsLive(s.live.Keys)
    ensures Inv(res.state) && res.state.live.Keys == s.live.Keys && res.state.cycle == s.cycle
    ensures res.status == (if 0 <= r < 16 then Done else Fatal(Abort))
    ensures !(0 <= r < 16) ==> res.state == s
  {
    if !(0 <= r < 16) then Step(s, Fatal(Abort))
    else if r == SP_REG then WriteStep(build, s, SIM, At(SP_CELL), Masked(v, SP_MASK))
    else if r == LR_REG then WriteStep(build, s, SIM, At(LR_CELL), v)
    else if r == PC_REG then PcWriteStep(build, s, v)
    else WriteStep(build, s, SIM, At(Numeric(r)), v)
  }

  /**
   * The PC case of `CORE_reg_write`: NO_PIPELINE writes `pre_if_PC`; the
   * pipelined build writes no cell at all but requests a flush to the
   * address, unless the pipeline predicted it (never while debugging).
   */
  function PcWriteStep(build: Build, s: EngineState, v: Word): (res: Step)
    requires Inv(s) && RegsLive(s.live.Keys)
    ensures Inv(res.state) && res.state.live.Keys == s.live.Keys && res.state.cycle == s.cycle
    ensures res.status == Done
    ensures !build.noPipeline ==> res.state.live == s.live && res.state.recs == s.recs
    ensures !build.noPipeline && (s.flags[s.cur] & DEBUGGING != 0 || !Predicted(s.live, v)) ==>
      res.state == FlushRequest(s, Masked(v, PC_MASK))
    ensures !build.noPipeline && s.flags[s.cur] & DEBUGGING == 0 && Predicted(s.live, v) ==> res.state == s
  {
    if build.noPipeline then WriteStep(build, s, SIM, At(PRE_IF_PC), Masked(v, PC_MASK))
    else if s.flags[s.cur] & DEBUGGING != 0 || !Predicted(s.live, v) then Step(FlushRequest(s, Masked(v, PC_MASK)), Done)
    else Step(s, Done)
  }

  /** The cell a write of register r (other than PC) updates, and the value it stores. */
  function RegTarget(r: int): Cell
    requires 0 <= r < 15
  {
    if r == SP_REG then SP_CELL else Numeric(r)
  }

  function RegValue(r: int, v: Word): Word
  {
    if r == SP_REG then Masked(v, SP_MASK) else v
  }

  /**
   * A register write (other than PC) that reaches its cell at once, as a
   * debugger write or an immediate write that is not dropped, updates
   * exactly its register's cell, SP with its low bits cleared.
   */
  lemma RegWriteLands(build: Build, s: EngineState, r: int, v: Word)
    requires Inv(s) && RegsLive(s.live.Keys) && 0 <= r < 15
    requires s.flags[s.cur] & DEBUGGING != 0 || (Immediate(build, s.flags[s.cur]) && !Dropped(build, s.flags[s.cur], SIM))
    ensures RegWriteStep(build, s, r, v).state.live == s.live[RegTarget(r) := RegValue(r, v)]
  {
    assert RegWriteStep(build, s, r, v) == WriteStep(build, s, SIM, At(RegTarget(r)), RegValue(r, v));
    WriteLands(build, s, SIM, RegTarget(r), RegValue(r, v));
  }

  /**
   * Reading a register after its cell was updated as RegWriteLands
   * describes gives the value written, SP with bits [1:0] clear.
   */
  lemma ReadBack(live: map<Cell, Word>, r: int, v: Word)
    requires RegsLive(live.Keys) && 0 <= r < 15
    ensures RegsLive(live[RegTarget(r) := RegValue(r, v)].Keys)
    ensures RegRead(live[RegTarget(r) := RegValue(r, v)], r) == Some(RegValue(r, v))
  {
    var x := RegValue(r, v);
    var live' := live[RegTarget(r) := x];
    assert RegsLive(live'.Keys);
    if r == SP_REG {
      MaskTwice(v, SP_MASK);
      assert live'[SP_CELL] == x;
    } else {
      assert live'[Numeric(r)] == x;
    }
  }

  lemma MaskTwice(v: Word, m: Word)
    ensures Masked(Masked(v, m), m) == Masked(v, m)
  {
  }

  /** ... and every other register reads as before. */
  lemma ReadFrame(live: map<Cell, Word>, r: int, v: Word, q: int)
    requires RegsLive(live.Keys) && 0 <= r < 15 && q != r
    ensures RegsLive(live[RegTarget(r) := RegValue(r, v)].Keys)
    ensures RegRead(live[RegTarget(r) := RegValue(r, v)], q) == RegRead(live, q)
  {
    var live' := live[RegTarget(r) := RegValue(r, v)];
    assert RegsLive(live'.Keys);
    if q == PC_REG {
      assert live'[ID_EX_PC] == live[ID_EX_PC];
    } else if 0 <= q < 15 {
      assert live'[Numeric(q)] == live[Numeric(q)];
    }
  }

  /** In NO_PIPELINE a PC write that is not dropped lands, masked, in `pre_if_PC` and nowhere else. */
  lemma NoPipelinePcWrite(build: Build, s: EngineState, v: Word)
    requires Inv(s) && RegsLive(s.live.Keys) && build.noPipeline && !Dropped(build, s.flags[s.cur], SIM)
    ensures RegWriteStep(build, s, PC_REG, v).state.live == s.live[PRE_IF_PC := Masked(v, PC_MASK)]
  {
    assert RegWriteStep(build, s, PC_REG, v) == PcWriteStep(build, s, v) == WriteStep(build, s, SIM, At(PRE_IF_PC), Masked(v, PC_MASK));
    WriteLands(build, s, SIM, PRE_IF_PC, Masked(v, PC_MASK));
  }

  /**
   * The `PC` macro that `sim_execute` compares: `pre_if_PC` in NO_PIPELINE,
   * `id_ex_PC` otherwise. In the pipelined build it is the PC register read
   * before the read clears bit 0.
   */
  function ExecPc(build: Build, live: map<Cell, Word>): (pc: Word)
    requires RegsLive(live.Keys)
    ensures !build.noPipeline ==> RegRead(live, PC_REG) == Some(Masked(pc, PC_MASK))
  {
    if build.noPipeline then live[PRE_IF_PC] else live[ID_EX_PC]
  }

  /** In NO_PIPELINE a PC write that is not dropped is the PC the next `sim_execute` compares, bit 0 cleared. */
  lemma ExecPcSeesWrite(build: Build, s: EngineState, v: Word)
    requires Inv(s) && RegsLive(s.live.Keys) && build.noPipeline && !Dropped(build, s.flags[s.cur], SIM)
    ensures var live := RegWriteStep(build, s, PC_REG, v).state.live;
      RegsLive(live.Keys) && ExecPc(build, live) == Masked(v, PC_MASK)
  {
    NoPipelinePcWrite(build, s, v);
  }

  /** How a `sim_execute` call ends. */
  datatype Outcome =
    | Terminated                           // branch to self, no debugger: `sim_terminate`
    | Ran(broke: bool, status: Status)     // one cycle run (after a debugger break when broke)

  /** The simulated core: the engine, and the `prev_pc` that `sim_execute` keeps. */
  class Core {
    const eng: Engine
    /** STALL_PC (defined outside the file) and whether gdb is attached. */
    const stallPc: Word
    const gdbAttached: bool
    var prevPc: Word

    ghost predicate Valid()
      reads this, eng
    {
      eng.Valid() && RegsLive(eng.live.Keys) && eng.pcCell == PRE_IF_PC
    }

    constructor (eng: Engine, stallPc: Word, gdbAttached: bool)
      requires eng.Valid() && RegsLive(eng.live.Keys) && eng.pcCell == PRE_IF_PC
      ensures Valid() && this.eng == eng && this.stallPc == stallPc && this.gdbAttached == gdbAttached
      ensures prevPc == stallPc
    {
      this.eng, this.stallPc, this.gdbAttached := eng, stallPc, gdbAttached;
      prevPc := stallPc;
    }

    /** `CORE_reg_write` */
    method RegWrite(r: int, v: Word) returns (st: Status)
      requires Valid()
      modifies eng
      ensures Valid()
      ensures Step(eng.State(), st) == RegWriteStep(eng.build, old(eng.State()), r, v)
    {
      if !(0 <= r < 16) {
        return Fatal(Abort);
      }
      if r == PC_REG {
        st := PcWrite(v);
      } else {
        st := CellWrite(r, v);
      }
    }

    /** The cases of `CORE_reg_write` that write a register's cell: SP masked, LR and r0-r12 as given. */
    method CellWrite(r: int, v: Word) returns (st: Status)
      requires Valid() && 0 <= r < 15
      modifies eng
      ensures Valid()
      ensures Step(eng.State(), st) == WriteStep(eng.build, old(eng.State()), SIM, At(RegTarget(r)), RegValue(r, v))
    {
      if r == SP_REG {
        st := eng.Write(SIM, At(SP_CELL), Masked(v, SP_MASK));
      } else if r == LR_REG {
        st := eng.Write(SIM, At(LR_CELL), v);
      } else {
        st := eng.Write(SIM, At(Numeric(r)), v);
      }
    }

    /** The PC case of `CORE_reg_write`. */
    method PcWrite(v: Word) returns (st: Status)
      requires Valid()
      modifies eng
      ensures Valid()
      ensures Step(eng.State(), st) == PcWriteStep(eng.build, old(eng.State()), v)
    {
      if eng.build.noPipeline {
        st := eng.Write(SIM, At(PRE_IF_PC), Masked(v, PC_MASK));
      } else if eng.flags[eng.cur] & DEBUGGING != 0 || !Predicted(eng.live, v) {
        eng.PipelineFlush(Masked(v, PC_MASK));
        st := Done;
      } else {
        st := Done;
      }
    }

    /** `CORE_cpsr_write` (the IT-block and reserved-bit warnings are only printed). */
    method CpsrWrite(v: Word) returns (st: Status)
      requires Valid()
      modifies eng
      ensures Valid() && st == Done
      ensures Step(eng.State(), st) == WriteStep(eng.build, old(eng.State()), SIM, At(CPSR_CELL), v)
    {
      st := eng.Write(SIM, At(CPSR_CELL), v);
    }

    /**
     * `sim_execute` in the sequential order of NO_PIPELINE: stop (or break
     * to the debugger) on a branch to self, count the cycle, start it, run
     * the stages' writes (given as ticks), and tock it.
     */
    method Execute(ticks: seq<WriteReq>, flushWrites: seq<WriteReq>) returns (out: Outcome)
      requires Valid() && eng.cycleHead == -1
      requires forall w :: w in ticks && w.target.At? ==> w.target.cell in eng.live
      requires forall w :: w in flushWrites && w.target.At? ==> w.target.cell in eng.live
      modifies this, eng
      ensures Valid()
      ensures var pc := ExecPc(eng.build, old(eng.live));
        var selfBranch := old(prevPc) == pc && old(prevPc) != stallPc;
        && (out == Terminated <==> selfBranch && !gdbAttached)
        && (out == Terminated ==> eng.State() == old(eng.State()))
        && (out.Ran? ==> out.broke == selfBranch && eng.cycle == old(eng.cycle) + 1)
        && prevPc == (if selfBranch then old(prevPc) else pc)
      ensures out.Ran? && out.status == Done ==> eng.cycleHead == -1
    {
      var pc := ExecPc(eng.build, eng.live);
      var broke := false;
      if prevPc == pc && prevPc != stallPc {
        if gdbAttached {
          broke := true;   // the debugger's shell runs here
        } else {
          return Terminated;
        }
      } else {
        prevPc := pc;
      }
      var st := RunCycle(ticks, flushWrites);
      out := Ran(broke, st);
    }

    /** One clock cycle of the engine: `cycle++`, `state_start_tick`, the stages' writes, `state_tock`. */
    method RunCycle(ticks: seq<WriteReq>, flushWrites: seq<WriteReq>) returns (st: Status)
      requires Valid() && eng.cycleHead == -1
      requires forall w :: w in ticks && w.target.At? ==> w.target.cell in eng.live
      requires forall w :: w in flushWrites && w.target.At? ==> w.target.cell in eng.live
      modifies eng
      ensures Valid() && eng.cycle == old(eng.cycle) + 1
      ensures st == Done ==> eng.cycleHead == -1
    {
      eng.NextCycle();
      eng.StartTick();
      st := RunTicks(ticks);
      if st != Done {
        return;
      }
      var first;
      ghost var mid;
      st, first, mid := eng.Tock(flushWrites);
    }

    /** The stages' writes of one cycle, in order, until one faults. */
    method RunTicks(ticks: seq<WriteReq>) returns (st: Status)
      requires Valid()
      requires forall w :: w in ticks && w.target.At? ==> w.target.cell in eng.live
      modifies eng
      ensures Valid() && eng.cycle == old(eng.cycle) && eng.live.Keys == old(eng.live.Keys)
      ensures st == Done || st == Fatal(Abort)
    {
      var i := 0;
      st := Done;
      while i < |ticks|
        invariant Valid() && i <= |ticks| && st == Done
        invariant eng.cycle == old(eng.cycle) && eng.live.Keys == old(eng.live.Keys)
      {
        st := eng.Write(ticks[i].stage, ticks[i].target, ticks[i].val);
        if st != Done {
          return;
        }
        i := i + 1;
      }
    }
  }
}
