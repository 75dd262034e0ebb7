/**
 * The data logic of the RADv7 test firmware (RADv7_test_sleep.c): the
 * global variables, the sample sort of `process_data`, the one-shot
 * initialisation of `operation_init`, and the two-phase radio state machine of
 * `operation_radio`, which main runs once per wake-up. The mbus layer, the
 * timers and the memory-mapped registers are outside the model; what the
 * firmware sends to them is kept as a log.
 */
module Firmware {

  /** A `uint32_t` value. */
  type U32 = x: int | 0 <= x < 0x1_0000_0000

  const NUM_SAMPLES: nat := 3
  const NUM_SAMPLES_TX: nat := 1
  const RAD_ADDR: int := 0x4
  const PSTK_IDLE: int := 0x0
  /** The value of `enumerated` once the layers have been set up. */
  const ENUMERATED: U32 := 0xDEAD_BEEF

  /** The `radv7_r*` register fields the firmware sets. RADv7.h is not part of this model, nor the other fields. */
  datatype Radio = Radio(
    // r0
    currentLimiter: int, freq1: int, freq2: int, txTime: int,
    // r1
    scroFreqDiv: int, scroAmpILevelSel: int, scroILevelSelb: int,
    // r2
    scroReset: int, scroEnable: int,
    // r3, r4, r5
    data3: int, data4: int, data5: int,
    // r6
    hLen: int, dLen: int, cLen: int,
    // r7
    seed: int,
    // r8
    replyAddress: int, fsmSleep: int, fsmIsolate: int, fsmResetn: int, fsmEnable: int)

  /** A message on the bus: `enumerate`, `write_mbus_register` with the register file as it stood, or `read_mbus_register`. */
  datatype Mbus = Enumerate(addr: int) | WriteReg(addr: int, reg: int, regs: Radio) | ReadReg(addr: int, reg: int, replyTo: int)

  /** The last `set_wakeup_timer(timestamp, irq_en, reset)`. */
  datatype Timer = NoTimer | Timer(timestamp: int, irqEn: int, reset: int)

  // ------------------------------------------------------------ sorting

  /** Largest first. */
  ghost predicate NonIncreasing(s: seq<U32>)
  {
    forall p, q :: 0 <= p < q < |s| ==> s[p] >= s[q]
  }

  /** How many samples lie above x (greater) or below x (not greater). */
  function Count(s: seq<U32>, x: int, greater: bool): (n: nat)
    ensures n <= |s|
  {
    if s == [] then 0
    else Count(s[..|s| - 1], x, greater) + (if (if greater then s[|s| - 1] > x else s[|s| - 1] < x) then 1 else 0)
  }

  /** A median of the samples: one of them, with at most half of them above it and at most half below. */
  ghost predicate IsMedian(x: U32, s: seq<U32>)
  {
    x in s && Count(s, x, true) <= |s| / 2 && Count(s, x, false) <= |s| / 2
  }

  lemma {:induction false} CountAppend(a: seq<U32>, b: seq<U32>, x: int, greater: bool)
    ensures Count(a + b, x, greater) == Count(a, x, greater) + Count(b, x, greater)
  {
    if b != [] {
      var b' := b[..|b| - 1];
      assert (a + b)[..|a + b| - 1] == a + b';
      CountAppend(a, b', x, greater);
    } else {
      assert a + b == a;
    }
  }

  lemma CountOne(v: U32, x: int, greater: bool)
    ensures Count([v], x, greater) == if (if greater then v > x else v < x) then 1 else 0
  {
    assert [v][..0] == [];
  }

  /** Counting depends on the samples only, not on their order. */
  lemma {:induction false} CountPermutation(s: seq<U32>, t: seq<U32>, x: int, greater: bool)
    requires multiset(s) == multiset(t)
    ensures Count(s, x, greater) == Count(t, x, greater)
    decreases |s|
  {
    if s == [] {
      assert |t| == |multiset(t)| == 0;
    } else {
      var s', v := s[..|s| - 1], s[|s| - 1];
      assert s == s' + [v];
      assert v in multiset(t);
      var k :| 0 <= k < |t| && t[k] == v;
      var t' := t[..k] + t[k + 1..];
      RemoveOne(t, k);
      assert multiset(s) == multiset(s') + multiset{v};
      CountPermutation(s', t', x, greater);
      CountAppend(s', [v], x, greater);
      CountRemove(t, k, x, greater);
    }
  }

  /** Taking out the sample at k takes one copy of it out of the multiset. */
  lemma RemoveOne(t: seq<U32>, k: nat)
    requires k < |t|
    ensures multiset(t[..k] + t[k + 1..]) == multiset(t) - multiset{t[k]}
  {
    assert t == t[..k] + [t[k]] + t[k + 1..];
    assert multiset(t) == multiset(t[..k] + [t[k]]) + multiset(t[k + 1..]);
    assert multiset(t[..k] + [t[k]]) == multiset(t[..k]) + multiset{t[k]};
  }

  /** The count over t is the count without the sample at k plus that sample's own. */
  lemma CountRemove(t: seq<U32>, k: nat, x: int, greater: bool)
    requires k < |t|
    ensures Count(t, x, greater) == Count(t[..k] + t[k + 1..], x, greater) + Count([t[k]], x, greater)
  {
    assert t == t[..k] + [t[k]] + t[k + 1..];
    CountAppend(t[..k] + [t[k]], t[k + 1..], x, greater);
    CountAppend(t[..k], [t[k]], x, greater);
    CountAppend(t[..k], t[k + 1..], x, greater);
  }

  /** Count written out for three samples. */
  lemma Count3(s: seq<U32>, x: int, greater: bool)
    requires |s| == 3
    ensures Count(s, x, greater) == Count([s[0]], x, greater) + Count([s[1]], x, greater) + Count([s[2]], x, greater)
  {
    assert s == [s[0]] + [s[1]] + [s[2]];
    CountAppend([s[0]] + [s[1]], [s[2]], x, greater);
    CountAppend([s[0]], [s[1]], x, greater);
  }

  /**
   * The middle of a sorted arrangement of three samples is their median:
   * `cdc_data_tx[0] = cdc_data[1]` after the sort.
   */
  lemma SortedMiddleIsMedian(s: seq<U32>, t: seq<U32>)
    requires |s| == NUM_SAMPLES && NonIncreasing(s) && multiset(s) == multiset(t)
    ensures IsMedian(s[1], t)
  {
    assert |t| == 3 by { assert |multiset(t)| == |multiset(s)|; }
    assert s[1] in multiset(t);
    Count3(s, s[1], true);
    Count3(s, s[1], false);
    CountOne(s[0], s[1], true);
    CountOne(s[1], s[1], true);
    CountOne(s[2], s[1], true);
    CountOne(s[0], s[1], false);
    CountOne(s[1], s[1], false);
    CountOne(s[2], s[1], false);
    CountPermutation(s, t, s[1], true);
    CountPermutation(s, t, s[1], false);
  }

  // -------------------------------------------------------------- radio

  /** What one call of `operation_radio` does: the new `radio_ready`, the registers, the bus messages and the timer. */
  datatype Turn = Turn(ready: int, regs: Radio, sent: seq<Mbus>, timer: Timer)

  /** The FSM and SCRO fields as they stand between transmissions: asleep, isolated, held in reset, disabled. */
  predicate Quiet(r: Radio)
  {
    r.scroEnable == 0 && r.scroReset == 1 && r.fsmSleep == 1 && r.fsmIsolate == 1 && r.fsmResetn == 0 && r.fsmEnable == 0
  }

  /** The setup fields (r0, r1, r6, r7 and the reply address) are the same in both register files. */
  predicate SameSetup(r: Radio, r': Radio)
  {
    && r'.currentLimiter == r.currentLimiter && r'.freq1 == r.freq1 && r'.freq2 == r.freq2 && r'.txTime == r.txTime
    && r'.scroFreqDiv == r.scroFreqDiv && r'.scroAmpILevelSel == r.scroAmpILevelSel && r'.scroILevelSelb == r.scroILevelSelb
    && r'.hLen == r.hLen && r'.dLen == r.dLen && r'.cLen == r.cLen && r'.seed == r.seed && r'.replyAddress == r.replyAddress
  }

  /** The payload loaded into r3, r4 and r5 before a transmission. */
  predicate Loaded(r: Radio)
  {
    r.data3 == 0xFA_FAFA && r.data4 == 0xF0_F0F0 && r.data5 == 0xF0_F0F0
  }

  /**
   * `operation_radio` as a function of `radio_ready` and the registers. With
   * radio_ready clear it loads the payload, releases the FSM from sleep, sets
   * radio_ready and arms a 2-tick timer. Otherwise it starts the SCRO,
   * releases isolate and reset, fires the FSM, reads back register 8, then
   * turns everything off, clears radio_ready and arms a 1-tick timer. Both
   * end in `operation_sleep`.
   */
  function RadioTurn(ready: int, r: Radio): (t: Turn)
    ensures t.ready == if ready == 0 then 1 else 0
    ensures SameSetup(r, t.regs)
    ensures forall k :: 0 <= k < |t.sent| ==> t.sent[k].addr == RAD_ADDR
    ensures ready == 0 ==> Loaded(t.regs) && t.regs.fsmSleep == 0 && t.timer == Timer(2, 1, 0)
    ensures ready == 0 ==> t.regs.fsmIsolate == r.fsmIsolate && t.regs.fsmResetn == r.fsmResetn && t.regs.fsmEnable == r.fsmEnable
    ensures ready != 0 ==> Quiet(t.regs) && t.timer == Timer(1, 1, 0) && t.regs.data3 == r.data3
    ensures ready != 0 ==> exists k :: 0 <= k < |t.sent| && Firing(t.sent[k])
  {
    if ready == 0 then
      var r1 := r.(data3 := 0xFA_FAFA, data4 := 0xF0_F0F0, data5 := 0xF0_F0F0);
      var r2 := r1.(fsmSleep := 0);
      Turn(1, r2, [WriteReg(RAD_ADDR, 3, r1), WriteReg(RAD_ADDR, 4, r1), WriteReg(RAD_ADDR, 5, r1), WriteReg(RAD_ADDR, 8, r2)],
           Timer(2, 1, 0))
    else
      var a := r.(scroReset := 0);
      var b := a.(scroEnable := 1);
      var c := b.(fsmIsolate := 0);
      var d := c.(fsmResetn := 1);
      var e := d.(fsmEnable := 1);
      var f := e.(scroEnable := 0, scroReset := 1);
      var g := f.(fsmSleep := 1, fsmIsolate := 1, fsmResetn := 0, fsmEnable := 0);
      var sent := [WriteReg(RAD_ADDR, 2, a), WriteReg(RAD_ADDR, 2, b), WriteReg(RAD_ADDR, 8, c), WriteReg(RAD_ADDR, 8, d),
                   WriteReg(RAD_ADDR, 8, e), ReadReg(RAD_ADDR, 0x8, 0x77), WriteReg(RAD_ADDR, 2, f), WriteReg(RAD_ADDR, 8, g)];
      assert Firing(sent[4]);
      Turn(0, g, sent, Timer(1, 1, 0))
  }

  /** The write of r8 that fires the FSM: SCRO running, FSM out of isolate and reset, enabled. */
  predicate Firing(m: Mbus)
  {
    m.WriteReg? && m.reg == 8 && m.regs.scroEnable == 1 && m.regs.scroReset == 0
    && m.regs.fsmIsolate == 0 && m.regs.fsmResetn == 1 && m.regs.fsmEnable == 1
  }

  /**
   * Two wake-ups make one transmission: starting with radio_ready clear, the
   * first turn prepares, the second fires with the payload loaded and goes
   * quiet, and radio_ready is clear again; the setup is never touched.
   */
  lemma TwoTurnsTransmit(r: Radio)
    ensures var t1 := RadioTurn(0, r); var t2 := RadioTurn(t1.ready, t1.regs);
      && t1.ready == 1 && t2.ready == 0 && Quiet(t2.regs) && Loaded(t2.regs) && SameSetup(r, t2.regs)
  {
  }

  /** The radio after n wake-ups, starting from radio_ready and the registers r. */
  function Turns(n: nat, ready: int, r: Radio): Turn
  {
    if n == 0 then Turn(ready, r, [], NoTimer)
    else var t := Turns(n - 1, ready, r); var u := RadioTurn(t.ready, t.regs); Turn(u.ready, u.regs, t.sent + u.sent, u.timer)
  }

  /**
   * From radio_ready clear, every second wake-up has transmitted: radio_ready
   * is clear again and the radio quiet with the payload loaded; the setup
   * survives every wake-up.
   */
  lemma {:induction false} EverySecondWake(n: nat, r: Radio)
    ensures SameSetup(r, Turns(n, 0, r).regs)
    ensures Turns(n, 0, r).ready == n % 2
    ensures n > 0 && n % 2 == 0 ==> Quiet(Turns(n, 0, r).regs) && Loaded(Turns(n, 0, r).regs)
    ensures n % 2 == 1 ==> Loaded(Turns(n, 0, r).regs) && Turns(n, 0, r).regs.fsmSleep == 0
  {
    if n > 0 {
      EverySecondWake(n - 1, r);
      var t := Turns(n - 1, 0, r);
      assert Turns(n, 0, r).regs == RadioTurn(t.ready, t.regs).regs;
    }
  }

  // -------------------------------------------------------------- init

  /** The register fields `operation_init` sets: r0 tuning, the r8 reply address, r6 lengths, r1 SCRO, r7 seed. */
  function SetupRegs(r: Radio): (r': Radio)
    ensures r'.currentLimiter == 0x2F && r'.freq1 == 0 && r'.freq2 == 0 && r'.txTime == 0x7 && r'.replyAddress == 0x16
    ensures r'.hLen == 16 && r'.dLen == r'.hLen - 1 && r'.cLen == 10
    ensures r'.scroFreqDiv == 2 && r'.scroAmpILevelSel == 2 && r'.scroILevelSelb == 0x60 && r'.seed == 4
    ensures r'.scroReset == r.scroReset && r'.scroEnable == r.scroEnable
    ensures r'.data3 == r.data3 && r'.data4 == r.data4 && r'.data5 == r.data5
    ensures r'.fsmSleep == r.fsmSleep && r'.fsmIsolate == r.fsmIsolate && r'.fsmResetn == r.fsmResetn && r'.fsmEnable == r.fsmEnable
  {
    r.(currentLimiter := 0x2F, freq1 := 0x0, freq2 := 0x0, txTime := 0x7, replyAddress := 0x16,
       hLen := 16, dLen := 15, cLen := 10, scroFreqDiv := 2, scroAmpILevelSel := 2, scroILevelSelb := 0x60, seed := 4)
  }

  /** The setup does not depend on the registers it starts from, and leaves the FSM, SCRO and payload fields alone. */
  lemma SetupFixed(r: Radio, q: Radio)
    ensures SameSetup(SetupRegs(r), SetupRegs(q))
    ensures SetupRegs(r).(currentLimiter := 0, freq1 := 0, freq2 := 0, txTime := 0, replyAddress := 0, hLen := 0, dLen := 0,
      cLen := 0, scroFreqDiv := 0, scroAmpILevelSel := 0, scroILevelSelb := 0, seed := 0)
      == r.(currentLimiter := 0, freq1 := 0, freq2 := 0, txTime := 0, replyAddress := 0, hLen := 0, dLen := 0,
      cLen := 0, scroFreqDiv := 0, scroAmpILevelSel := 0, scroILevelSelb := 0, seed := 0)
  {
  }

  /** The globals of the firmware, set at power-on and kept across sleep. */
  class Mote {
    var enumerated: U32
    var pstackState: int
    var cdcDataIndex: int
    var execCount: int
    var execCountIrq: int
    var measCount: int
    var mbusMsgFlag: int
    var wakeupPeriodCont: int
    var wakeupPeriodContInit: int
    var cdcStorageCount: int
    var radioTxCount: int
    var radioTxOption: int
    /** `radio_ready`, a `uint8_t`. */
    var radioReady: int
    var regs: Radio
    /** The bus messages sent so far. */
    var bus: seq<Mbus>
    var timer: Timer
    const cdcData: array<U32>
    const cdcDataTx: array<U32>

    ghost predicate Valid()
      reads this
    {
      cdcData.Length == NUM_SAMPLES && cdcDataTx.Length == NUM_SAMPLES_TX && cdcData != cdcDataTx
    }

    /** Power-on: the zeroed globals and the RADv7 default registers. */
    constructor (defaults: Radio)
      ensures Valid() && fresh(cdcData) && fresh(cdcDataTx)
      ensures enumerated == 0 && radioReady == 0 && regs == defaults && bus == [] && timer == NoTimer
      ensures pstackState == 0 && cdcDataIndex == 0 && execCount == 0 && execCountIrq == 0 && measCount == 0 && mbusMsgFlag == 0
      ensures wakeupPeriodCont == 0 && wakeupPeriodContInit == 0 && cdcStorageCount == 0 && radioTxCount == 0 && radioTxOption == 0
      ensures cdcData[..] == [0, 0, 0] && cdcDataTx[..] == [0]
    {
      enumerated, pstackState, cdcDataIndex, execCount, execCountIrq, measCount := 0, 0, 0, 0, 0, 0;
      mbusMsgFlag, wakeupPeriodCont, wakeupPeriodContInit, cdcStorageCount := 0, 0, 0, 0;
      radioTxCount, radioTxOption, radioReady := 0, 0, 0;
      regs, bus, timer := defaults, [], NoTimer;
      cdcData := new U32[NUM_SAMPLES](_ => 0);
      cdcDataTx := new U32[NUM_SAMPLES_TX](_ => 0);
    }

    /**
     * `process_data`: the exchange sort of `cdc_data`, largest first, then
     * the middle sample into `cdc_data_tx[0]`.
     */
    method ProcessData()
      requires Valid()
      modifies cdcData, cdcDataTx
      ensures NonIncreasing(cdcData[..]) && multiset(cdcData[..]) == multiset(old(cdcData[..]))
      ensures cdcDataTx[0] == cdcData[1] && IsMedian(cdcDataTx[0], old(cdcData[..]))
    {
      SortSamples(cdcData);
      cdcDataTx[0] := cdcData[1];
      SortedMiddleIsMedian(cdcData[..], old(cdcData[..]));
    }

    /** `operation_init`: the one-time setup; the PMU, GOC and delay pokes are not part of this model. */
    method OperationInit()
      modifies this
      ensures enumerated == ENUMERATED && pstackState == PSTK_IDLE && radioReady == 0
      ensures cdcDataIndex == 0 && execCount == 0 && execCountIrq == 0 && mbusMsgFlag == 0
      ensures wakeupPeriodCont == 3 && wakeupPeriodContInit == 1
      ensures cdcStorageCount == 0 && radioTxCount == 0 && radioTxOption == 0
      ensures regs == SetupRegs(old(regs)) && bus == old(bus) + SetupMessages(old(regs))
      ensures measCount == old(measCount) && timer == old(timer)
    {
      ResetLayers();
      SetupRadio();
      ResetCounters();
    }

    /** The globals `operation_init` sets before the radio setup: the layer state and the counters of the exec loop. */
    method ResetLayers()
      modifies this
      ensures enumerated == ENUMERATED && pstackState == PSTK_IDLE
      ensures cdcDataIndex == 0 && execCount == 0 && execCountIrq == 0 && mbusMsgFlag == 0
      ensures regs == old(regs) && bus == old(bus) && measCount == old(measCount) && timer == old(timer)
    {
      pstackState, enumerated, cdcDataIndex := PSTK_IDLE, ENUMERATED, 0;
      execCount, execCountIrq, mbusMsgFlag := 0, 0, 0;
    }

    /** The globals `operation_init` sets after the radio setup: the wake-up period and the radio counters. */
    method ResetCounters()
      modifies this
      ensures wakeupPeriodCont == 3 && wakeupPeriodContInit == 1 && radioReady == 0
      ensures cdcStorageCount == 0 && radioTxCount == 0 && radioTxOption == 0
      ensures enumerated == old(enumerated) && pstackState == old(pstackState) && cdcDataIndex == old(cdcDataIndex)
      ensures execCount == old(execCount) && execCountIrq == old(execCountIrq) && mbusMsgFlag == old(mbusMsgFlag)
      ensures regs == old(regs) && bus == old(bus) && measCount == old(measCount) && timer == old(timer)
    {
      wakeupPeriodCont, wakeupPeriodContInit, cdcStorageCount := 3, 1, 0;
      radioTxCount, radioTxOption, radioReady := 0, 0, 0;
    }

    /** The enumeration and radio register writes of `operation_init`, each register written once its fields are set. */
    method SetupRadio()
      modifies this
      ensures regs == SetupRegs(old(regs)) && bus == old(bus) + SetupMessages(old(regs))
      ensures enumerated == old(enumerated) && pstackState == old(pstackState) && cdcDataIndex == old(cdcDataIndex)
      ensures execCount == old(execCount) && execCountIrq == old(execCountIrq) && mbusMsgFlag == old(mbusMsgFlag)
      ensures measCount == old(measCount) && timer == old(timer)
    {
      var r, sent := regs, [Enumerate(RAD_ADDR)];
      r := r.(currentLimiter := 0x2F, freq1 := 0x0, freq2 := 0x0, txTime := 0x7);
      sent := sent + [WriteReg(RAD_ADDR, 0, r)];
      r := r.(replyAddress := 0x16);
      sent := sent + [WriteReg(RAD_ADDR, 8, r)];
      r := r.(hLen := 16, dLen := 15, cLen := 10);
      sent := sent + [WriteReg(RAD_ADDR, 6, r)];
      r := r.(scroFreqDiv := 2, scroAmpILevelSel := 2, scroILevelSelb := 0x60);
      sent := sent + [WriteReg(RAD_ADDR, 1, r)];
      r := r.(seed := 4);
      sent := sent + [WriteReg(RAD_ADDR, 7, r)];
      regs, bus := r, bus + sent;
    }

    /** `operation_radio`, which always ends in `operation_sleep`. */
    method OperationRadio()
      modifies this
      ensures var t := RadioTurn(old(radioReady), old(regs));
        radioReady == t.ready && regs == t.regs && bus == old(bus) + t.sent && timer == t.timer
      ensures enumerated == old(enumerated) && execCount == old(execCount) && measCount == old(measCount)
      ensures pstackState == old(pstackState) && cdcDataIndex == old(cdcDataIndex)
      ensures execCountIrq == old(execCountIrq) && mbusMsgFlag == old(mbusMsgFlag)
      ensures wakeupPeriodCont == old(wakeupPeriodCont) && wakeupPeriodContInit == old(wakeupPeriodContInit)
      ensures cdcStorageCount == old(cdcStorageCount) && radioTxCount == old(radioTxCount) && radioTxOption == old(radioTxOption)
    {
      var r, sent := regs, [];
      if radioReady == 0 {
        r := r.(data3 := 0xFA_FAFA);
        r := r.(data4 := 0xF0_F0F0);
        r := r.(data5 := 0xF0_F0F0);
        sent := sent + [WriteReg(RAD_ADDR, 3, r)];
        sent := sent + [WriteReg(RAD_ADDR, 4, r)];
        sent := sent + [WriteReg(RAD_ADDR, 5, r)];
        r := r.(fsmSleep := 0);
        sent := sent + [WriteReg(RAD_ADDR, 8, r)];
        radioReady := 1;
        timer := Timer(2, 0x1, 0x0);
      } else {
        r := r.(scroReset := 0);
        sent := sent + [WriteReg(RAD_ADDR, 2, r)];
        r := r.(scroEnable := 1);
        sent := sent + [WriteReg(RAD_ADDR, 2, r)];
        r := r.(fsmIsolate := 0);
        sent := sent + [WriteReg(RAD_ADDR, 8, r)];
        r := r.(fsmResetn := 1);
        sent := sent + [WriteReg(RAD_ADDR, 8, r)];
        r := r.(fsmEnable := 1);
        sent := sent + [WriteReg(RAD_ADDR, 8, r)];
        sent := sent + [ReadReg(RAD_ADDR, 0x8, 0x77)];
        radioReady := 0;
        r := r.(scroEnable := 0);
        r := r.(scroReset := 1);
        sent := sent + [WriteReg(RAD_ADDR, 2, r)];
        r := r.(fsmSleep := 1);
        r := r.(fsmIsolate := 1);
        r := r.(fsmResetn := 0);
        r := r.(fsmEnable := 0);
        sent := sent + [WriteReg(RAD_ADDR, 8, r)];
        timer := Timer(1, 0x1, 0x0);
      }
      regs, bus := r, bus + sent;
    }

    /**
     * One pass of `main` after a reset or wake-up: the set-up runs only
     * while `enumerated` lacks its mark, then the radio takes one turn and the
     * mote sleeps (the `while (1)` never gets a second iteration).
     */
    method Wake()
      modifies this
      ensures enumerated == ENUMERATED
      ensures var boot := old(enumerated) != ENUMERATED;
        var t := RadioTurn(if boot then 0 else old(radioReady), if boot then SetupRegs(old(regs)) else old(regs));
        && radioReady == t.ready && regs == t.regs && timer == t.timer
        && bus == old(bus) + (if boot then SetupMessages(old(regs)) else []) + t.sent
        && (boot ==> execCount == 0 && measCount == 0)
        && (!boot ==> execCount == old(execCount) && measCount == old(measCount))
      ensures old(enumerated) != ENUMERATED ==>
        && pstackState == PSTK_IDLE && cdcDataIndex == 0 && execCountIrq == 0 && mbusMsgFlag == 0
        && wakeupPeriodCont == 3 && wakeupPeriodContInit == 1
        && cdcStorageCount == 0 && radioTxCount == 0 && radioTxOption == 0
      ensures old(enumerated) == ENUMERATED ==>
        && pstackState == old(pstackState) && cdcDataIndex == old(cdcDataIndex)
        && execCountIrq == old(execCountIrq) && mbusMsgFlag == old(mbusMsgFlag)
        && wakeupPeriodCont == old(wakeupPeriodCont) && wakeupPeriodContInit == old(wakeupPeriodContInit)
        && cdcStorageCount == old(cdcStorageCount) && radioTxCount == old(radioTxCount) && radioTxOption == old(radioTxOption)
    {
      if enumerated != ENUMERATED {
        execCount := 0;
        measCount := 0;
        OperationInit();
      }
      OperationRadio();
    }
  }

  /** The messages `operation_init` sends, starting from the registers r. */
  function SetupMessages(r: Radio): (ms: seq<Mbus>)
    ensures |ms| == 6 && ms[0] == Enumerate(RAD_ADDR) && ms[5] == WriteReg(RAD_ADDR, 7, SetupRegs(r))
    ensures forall k :: 1 <= k < 6 ==> ms[k].WriteReg? && ms[k].addr == RAD_ADDR
  {
    var r0 := r.(currentLimiter := 0x2F, freq1 := 0x0, freq2 := 0x0, txTime := 0x7);
    var r8 := r0.(replyAddress := 0x16);
    var r6 := r8.(hLen := 16, dLen := 15, cLen := 10);
    var r1 := r6.(scroFreqDiv := 2, scroAmpILevelSel := 2, scroILevelSelb := 0x60);
    [Enumerate(RAD_ADDR), WriteReg(RAD_ADDR, 0, r0), WriteReg(RAD_ADDR, 8, r8), WriteReg(RAD_ADDR, 6, r6),
     WriteReg(RAD_ADDR, 1, r1), WriteReg(RAD_ADDR, 7, r1.(seed := 4))]
  }

  /**
   * The nested loops of `process_data`: for each i, every later sample
   * larger than `cdc_data[i]` is swapped into place i.
   */
  method SortSamples(a: array<U32>)
    modifies a
    ensures NonIncreasing(a[..]) && multiset(a[..]) == multiset(old(a[..]))
  {
    var i := 0;
    while i < a.Length
      invariant 0 <= i <= a.Length
      invariant forall p, q :: 0 <= p < i && p < q < a.Length ==> a[p] >= a[q]
      invariant multiset(a[..]) == multiset(old(a[..]))
    {
      var j := i + 1;
      while j < a.Length
        invariant i + 1 <= j <= a.Length
        invariant forall p, q :: 0 <= p < i && p < q < a.Length ==> a[p] >= a[q]
        invariant forall q :: i < q < j ==> a[i] >= a[q]
        invariant multiset(a[..]) == multiset(old(a[..]))
      {
        if a[j] > a[i] {
          a[i], a[j] := a[j], a[i];
        }
        j := j + 1;
      }
      i := i + 1;
    }
  }
}
