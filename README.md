# M-ulator core, modelled in Dafny

M-ulator is a cycle-level simulator of ARM Cortex-M cores. This project models its core and proves properties of it:

- **the state-history engine** (`simulator.c`). Every write to architectural state is a change record that keeps the value it replaced. At the end of a cycle (the "tock") the records are committed: stalled stages' writes are voided, the others are applied in order, and a write that did not survive to the end of the cycle is an aliasing fault. Seeking replays records forwards or rewinds them backwards.
- **the polling UART's receive ring buffer** (`simulator.c`).
- **the register facade, the opcode-mask registry, the peripheral lists and the per-cycle driver `sim_execute`** (`simulator/core/simulator.c`), bound to the engine.
- **the GDB remote-stub codec and link** (`gdb.c`): checksums, escaping, framing, packet validation and command replies.
- **the RAM handler of the memory map** (`cpu/ram.c`).
- **the two in-memory-compute ("recryptor") decoders** and the constants they share (`simulator/WIP/recryptor.c`, `simulator/cpu/recryptor/recryptor.c`, `simulator/cpu/recryptor/recryptor.h`).
- **the data logic of the RADv7 sleep-test firmware**: the sample sort and median, and the wake-up state machine (`RADv7_test_sleep.c`).

## Layout

- **`state_log.dfy` (StateLog)**
  - records, cells, stages, flags constants and build variants (DEBUG1, NO_PIPELINE);
  - the record arena with prev/next links as indices;
  - the reference semantics of a commit (`Commit`, `Kept`, `AliasFree`) and of a seek (`SeekForward`, `SeekBackward`);
  - the unlink bookkeeping;
  - `EngineState` and its invariant `Inv`.
- **`state_steps.dfy` (StateSteps)**: each loop-free entry point of the engine as a function on `EngineState`.
- **`commit_walk.dfy` (CommitWalk)**: the first walk of `_state_tock` as a loop on values, proved against the commit reference.
- **`state_seek.dfy` (StateSeek)**: the two loops of `state_seek`, proved against `SeekForward` and `SeekBackward`.
- **`state_engine.dfy` (StateEngine)**: the class `Engine`, whose fields are the globals `state_head`, `cycle_head`, `cycle` and `state_flags_cur`, the flags words and the live cells. Each method is proved against its StateSteps function.
- **`engine_props.dfy` (EngineProps)**: rewind/replay round trips over one write and properties of the stall rules.
- **`rewind_trace.dfy` (RewindTrace)**: rewind over a run of many steps: what each kind of step leaves where a backward seek lands.
- **`replay_trace.dfy` (ReplayTrace)**: replay over a run of many cycles, and the rewind-then-replay round trip over a whole run.
- **`poll_uart.dfy` (PollUart)**: the ring buffer as a class over an array, proved against a queue of waiting bytes.
- **`core_facade.dfy` (CoreFacade)**: `CORE_reg_read`/`CORE_reg_write`/`CORE_cpsr_write` and `sim_execute`, over an `Engine`.
- **`core_registry.dfy` (CoreRegistry)**: the opcode registry and the peripheral printer/thread lists.
- **`gdb_codec.dfy` (GdbCodec)**: pure byte-level functions: checksum, hex, escaping, packets, the `g` and `m` replies, and command dispatch.
- **`gdb_link.dfy` (GdbLink)**: the class `Link`, where the socket is the sequence of bytes still to be read plus the sequence of bytes sent. The function `Received` states what `gdb_get_message` makes of the input bytes, given the size each `recv` delivers, and `Judged` states its checksum stage. A packet whose first byte is `#` follows the code: the scan starts at the second byte and stops at a `#` in the checksum field, so `##0` is accepted with length -1 and `#a#` is a bad checksum.
- **`ram.dfy` (RamMap)**: the RAM array and its registration in the memory map.
- **`recryptor_control.dfy` (RecryptorControl)**: the op enumeration, the operand addresses, the control-word decoding and encoding, the RELIC field constants, and the word memory behind `read_word`/`write_word`.
- **`recryptor_cpu.dfy` (RecryptorCpu)** and **`recryptor_wip.dfy` (RecryptorWip)**: the two decoders, each proved against a word-by-word specification.
- **`recryptor_agree.dfy` (RecryptorAgree)**: where the two decoders agree and where they differ.
- **`firmware.dfy` (Firmware)**: the class `Mote` holding the firmware's globals; `process_data`, `operation_init`, `operation_radio` and one pass of `main`.

## Build variants and conventions

- **Build variants are a parameter.** `Build(debug1, noPipeline)` is a constructor argument of `Engine`. Every contract that depends on the variant says so.
- **Enum values.** The stage values (PRE=1, IF=2, ID=4, EX=8, PIPE=0x10, SIM=0x20, UNK=0x40) come from a header that is not part of this model. The model takes them as written here.
- **Writes through `SW`.** In the facade they are writes of stage SIM.
- **Configuration values defined in headers outside the modelled files** are parameters of the constructors:
  - `POLL_UART_BUFSIZE` and the RX/TX status bit positions;
  - `STALL_PC` and whether a debugger is attached;
  - `RAMBOT`, `RAMTOP` and `RAMSIZE`;
  - the RADv7 register defaults.
- **Faults.** A call the source ends with `ERR(...)` or a failed `assert` returns a status: `Fatal(Unpredictable)`, `Fatal(UnknownError)`, `Fatal(Abort)`, `BadOpcode`, `AssertFailed`, or a GDB link fault.

## Model

| member | source | states |
|---|---|---|
| StateLog.StageBit | simulator.c:256-265 | each stage's stall bit is a single nonzero bit of the stall byte, and it lies in PRE\|IF\|ID exactly for PRE, IF and ID |
| StateLog.ChainIncreasing | simulator.c:597-615 | along a list hanging off an anchor, record indices increase strictly (records are appended after the head) |
| StateLog.Commit | simulator.c:413-461 | the reference commit of a cycle's records; its own contract keeps the cell set, and its values are stated by CommitFrame and CommitLastWins |
| StateLog.Kept | simulator.c:415-441 | the records the check walk sees: exactly the unstalled ones of the list in the release build, every one with DEBUG1 |
| StateLog.CommitFrame | simulator.c:413-461 | a cell written by no unstalled record of the cycle keeps its pre-commit value |
| StateLog.CommitLastWins | simulator.c:443-449 | the last unstalled record of the cycle that writes a cell decides that cell's committed value |
| StateLog.LastWriter | simulator.c:413-461 | among unstalled writers of a cell there is a last one, and any later writer is stalled |
| StateLog.DoubleWriteAliases | simulator.c:465-495 | two unstalled, checked writes of different values to one cell in the same cycle cannot both pass the post-commit check, whatever the build: the cycle ends in the aliasing fault |
| StateLog.StalledWriteVoid | simulator.c:415-441 | a cell written only by stalled stages keeps its pre-cycle value, and in the release build no kept record targets it |
| StateLog.DebugCheckSeesStalled | simulator.c:465-495 | with DEBUG1 a stalled record is still checked: if its value differs from the committed one, the check fails |
| StateLog.SeekForward | simulator.c:736-763 | forward replay stops either at the target cycle (Done) or at the end of the log below the target (Tolerable), never moving the head outside the arena |
| StateLog.SeekBackward | simulator.c:767-800 | backward rewind never moves the head forward and reports the head's cycle; Done only at a head whose cycle is at most the target, Tolerable only at an I/O barrier above the target, a fault only at the sentinel |
| StateLog.ChainAppend | simulator.c:597-615 | appending a record after the last element of a list extends the list by that record |
| StateLog.KeptStep | simulator.c:415-441 | the kept list grows by the next record exactly when it is not stalled or the build is DEBUG1 |
| StateLog.ChainDistinct | simulator.c:413-461 | the records of a list are distinct and all lie after the anchor |
| StateLog.Join | simulator.c:426-430 | joining p and n sets p's forward link and n's back link and changes no other link and no payload |
| StateLog.ChainRemove | simulator.c:420-440 | taking one record out of a list and joining its neighbours leaves a well-linked list of the others |
| StateLog.UnlinkStep | simulator.c:420-440 | the walk's next record links back to the last kept record (or the anchor) and forward to its successor, and joining those two drops it from the list |
| StateLog.UnlinkedHeadNext | simulator.c:427-430 | after the release walk the cycle's newest record has no successor, whether it was kept or unlinked |
| StateLog.UnlinkedArena | simulator.c:420-440 | after the release walk the arena is still well linked |
| StateLog.AppendKeepsInv | simulator.c:591-615 | appending a record of the running cycle after the head keeps the engine invariant |
| StateSteps.KindOf | simulator.c:570-584 | a write is direct exactly while debugging, dropped exactly in the release build for a stage already stalled this cycle, and logged otherwise |
| StateSteps.OrOutside | simulator.c:694 | OR-ing bits into a flags word leaves its other bits alone |
| StateSteps.SetBits | simulator.c:694 | every requested bit is set in the current flags word; other words and all other state unchanged |
| StateSteps.SetBitsOutside | simulator.c:694 | SetBits does not change any bit outside the requested ones |
| StateSteps.ClearBits | simulator.c:723 | every requested bit is cleared in the current flags word; its other bits, other words and all other state unchanged |
| StateSteps.NewCycle | simulator.c:374-395 | the new cycle is anchored at the head with no pending records, and the invariant holds |
| StateSteps.Retick | simulator.c:365-400 | `state_start_tick` leaves the anchor at the head and no pending records |
| StateSteps.RetickFacts | simulator.c:374-395 | starting a cycle cuts the head's forward link (the future is discarded), keeps every payload and back link, marks the old flags word as async-blocked, and installs a new all-zero flags word as current |
| StateSteps.LogWrite | simulator.c:588-629 | a logged write appends exactly one record after the head, holding the running cycle, the stage, the current flags word, the value and the cell's previous value; the cell changes at once only when writes are immediate (NO_PIPELINE or BLOCKING_ASYNC) |
| StateSteps.LogWriteFrame | simulator.c:597-615 | a logged write changes no other record's payload or back link and no other global; the record joins the pending list |
| StateSteps.WriteLands | simulator.c:570-629 | a write that is direct, or immediate and not dropped, reaches its cell at once |
| StateSteps.WriteStep | simulator.c:563-662 | `_state_write`: the invariant is kept; a write with neither `loc` nor `ploc` that is not dropped is an assertion failure that changes nothing; the cell set, anchor and cycle are unchanged |
| StateSteps.StallStep | simulator.c:686-696 | `stall` succeeds exactly for PRE, IF and ID, setting the stage bit; any other stage is E_UNPREDICTABLE with no change |
| StateSteps.FlushRequest | simulator.c:699-704 | a flush request sets PIPELINE_FLUSH and records the new PC |
| StateSteps.SeekStep | simulator.c:729-802 | `state_seek`: seeking to the running cycle is refused with no change; success lands on the target (forwards) or at or below it (backwards); a fault only when the head is not of the running cycle or when rewinding; records and flags are never changed |
| StateSteps.FlushAnchor | simulator.c:520-521 | for the flush pass the anchor moves to the head, with no pending records |
| StateSteps.WriteStepFlags | simulator.c:563-629 | a write never changes the flags words or which one is current |
| StateSteps.LedStep | simulator.c:707-716 | an LED write keeps the engine invariant |
| StateSteps.LedWriteMarks | simulator.c:707-716 | after an LED write the cycle is marked LED-written and no longer LED-writing |
| StateSteps.Initial | simulator.c:305-330 | the start-up state is the sentinel alone, with no successor and no anchor |
| StateSteps.AsyncWrite | simulator.c:664-668 | `state_write_async` leaves the async-block bit clear |
| StateSteps.AsyncWriteImmediate | simulator.c:617-668 | a logged async write reaches its cell at once and records the value it replaced |
| CommitWalk.ChainCommittable | simulator.c:413-461 | every record of the cycle's list has a flags word and a cell, so the commit is defined |
| CommitWalk.CommitStep | simulator.c:415-449 | committing one more record applies its value unless it is stalled |
| CommitWalk.WalkApply | simulator.c:443-449 | an unstalled record is applied and stays listed |
| CommitWalk.WalkPass | simulator.c:416-418 | with DEBUG1 a stalled record is passed over and stays listed |
| CommitWalk.WalkUnlink | simulator.c:420-440 | in the release build a stalled record is unlinked; when it was the check anchor, the anchor moves to its successor |
| CommitWalk.AnchorAfterUnlink | simulator.c:432-437 | unlinking the check anchor moves it to the unlinked record's successor |
| CommitWalk.WalkEnd | simulator.c:413-461 | when the walk is over, the arena is well linked, the check anchor starts the list of kept records, and the newest record has no successor |
| CommitWalk.Walk | simulator.c:411-461 | the apply loop of `_state_tock` ends where the reference walk ends after one turn per pending record |
| CommitWalk.WalkComplete | simulator.c:411-461 | the apply loop leaves exactly `Commit` in the cells and `Kept` in the list (unchanged links with DEBUG1, stalled records unlinked otherwise) |
| CommitWalk.ChainCells | simulator.c:443-459 | every record past the sentinel writes a live cell, so the `loc and ploc NULL` error never arises |
| CommitWalk.AliasFreeStep | simulator.c:465-495 | the check walk extends the checked prefix by one record that still sees its value, or that is exempt |
| CommitWalk.AliasFreeFails | simulator.c:474-489 | one checked record whose cell lost its value fails the whole check |
| StateSeek.Forward | simulator.c:736-763 | the forward loop computes `SeekForward` |
| StateSeek.Backward | simulator.c:767-800 | the backward loop computes `SeekBackward` |
| StateEngine.Engine.constructor | simulator.c:305-330 | the engine starts in `Initial` |
| StateEngine.Engine.StartTick | simulator.c:365-400 | the new state is `Retick` of the old one; cycle and cells unchanged |
| StateEngine.Engine.Write | simulator.c:563-662 | the new state and status are `WriteStep` of the old state |
| StateEngine.Engine.Append | simulator.c:588-629 | the new state is `LogWrite` of the old one |
| StateEngine.Engine.AsyncBlockStart | simulator.c:343-347 | BLOCKING_ASYNC is set in the current word |
| StateEngine.Engine.AsyncBlockEnd | simulator.c:349-353 | BLOCKING_ASYNC is cleared in the current word |
| StateEngine.Engine.WriteAsync | simulator.c:664-668 | the new state and status are `AsyncWrite` of the old state |
| StateEngine.Engine.Stall | simulator.c:686-696 | the new state and status are `StallStep` |
| StateEngine.Engine.PipelineFlush | simulator.c:699-704 | the new state is `FlushRequest` |
| StateEngine.Engine.LedWrite | simulator.c:707-716 | the new state and status are `LedStep` |
| StateEngine.Engine.SetFlags | simulator.c:694 | the new state is `SetBits` |
| StateEngine.Engine.ClearFlags | simulator.c:723 | the new state is `ClearBits` |
| StateEngine.Engine.EnterDebugging | simulator.c:718-720 | DEBUGGING is set in the current word and nothing else changes |
| StateEngine.Engine.ExitDebugging | simulator.c:722-724 | DEBUGGING is cleared in the current word and nothing else changes |
| StateEngine.Engine.Tock | simulator.c:500-540 | a cycle with nothing written is an assertion failure; otherwise the first commit is the reference commit, a failed commit ends the tock, and a successful tock leaves no anchor and async writes unblocked |
| StateEngine.Engine.FlushCycle | simulator.c:516-529 | after a successful flush pass no anchor remains and PIPELINE_RUNNING is clear |
| StateEngine.Engine.AnchorFlush | simulator.c:520-521 | the new state is `FlushAnchor` |
| StateEngine.Engine.NextCycle | simulator/core/simulator.c:765 | only `cycle` grows, by one |
| StateEngine.Engine.Seek | simulator.c:729-802 | the new state and status are `SeekStep` |
| StateEngine.Engine.CommitPass | simulator.c:402-496 | the cells become the reference commit, the list the kept records, and the status is Done exactly when the alias check passes (E_UNPREDICTABLE otherwise) |
| StateEngine.Engine.ApplyPass | simulator.c:411-461 | the first walk's result is the reference commit and unlink |
| StateEngine.Engine.CheckPass | simulator.c:465-495 | the check walk changes nothing and succeeds exactly when every checked record still sees its value in its cell |
| EngineProps.RewindUndoesWrite | simulator.c:767-800 | rewinding past a logged write restores the cells to what they were before the write and moves the head back to the record before it |
| EngineProps.ReplayRedoesWrite | simulator.c:597-615 | replaying one cycle forwards from the record before a logged write applies the write's value and lands on its record |
| EngineProps.RewindThenReplay | simulator.c:736-800 | with immediate writes, a rewind followed by a replay returns to the state right after the write |
| EngineProps.RetickDiscardsFuture | simulator.c:376-391 | after a cycle starts, forward seek finds no future history and refuses without moving |
| EngineProps.StallDropsLaterWrites | simulator.c:578-583 | in the release build and outside debugging, once a stage has stalled its later writes this cycle log nothing and change nothing |
| EngineProps.StallKeepsDebugWrites | simulator.c:578-584 | with DEBUG1 a stalled stage's later writes are still logged |
| EngineProps.UnlinkLeavesHead | simulator.c:420-440 | the release unlink of a stalled newest record leaves `state_head` on it although it is no longer listed |
| RewindTrace.SeekBackwardFrame | simulator.c:767-800 | a backward seek lands in the same place whatever records are added after its start, forward links are changed or flag bits other than the barrier mark are set |
| RewindTrace.SeekPastChain | simulator.c:767-800 | a rewind that succeeds over records all later than the target lands in the same place from any cells that differ only on those records' targets |
| RewindTrace.UndoLast | simulator.c:768-791 | one backward step over a record later than the target stops Tolerable when its flags word is barred, and otherwise restores its cell's old value and moves to its predecessor |
| RewindTrace.CommitOnTargets | simulator.c:443-449 | a commit changes no cell except the targets of the records it walks |
| RewindTrace.UndoNewest | simulator.c:597-615 | rewinding first undoes the newest logged write, back to the cells that write found |
| RewindTrace.LogKeepsRewind | simulator.c:588-629 | a write logged after the target cycle, under a flags word without the barrier mark, does not move where a rewind to the target lands |
| RewindTrace.QuietKeepsRewind | simulator.c:767-800 | a step that leaves the cells, the head, the payloads, the back links and the barrier marks alone does not move where a rewind lands |
| RewindTrace.CommitKeepsRewind | simulator.c:411-461 | a commit of a cycle later than the target, keeping every payload and back link, does not move where a rewind lands |
| RewindTrace.LatchKeepsRewind | simulator.c:411-461 | the first walk of `_state_tock` that unlinks nothing does not move where a rewind lands |
| RewindTrace.SetBitsQuiet | simulator.c:694 | setting flag bits other than the barrier mark is invisible to a rewind |
| RewindTrace.ClearBitsQuiet | simulator.c:723 | clearing flag bits other than the barrier mark is invisible to a rewind |
| RewindTrace.RetickQuiet | simulator.c:365-400 | `state_start_tick` is invisible to a rewind: it cuts a forward link, marks the old word async-blocked and adds a new word |
| RewindTrace.StallQuiet | simulator.c:686-696 | `stall` is invisible to a rewind |
| RewindTrace.FlushRequestQuiet | simulator.c:699-704 | `state_pipeline_flush` is invisible to a rewind |
| RewindTrace.WriteStepSeen | simulator.c:563-662 | a write that is not direct is either dropped, invisibly to a rewind, or logged |
| RewindTrace.LatchKeepsLinks | simulator.c:415-441 | a commit that keeps every record listed keeps every payload and back link |
| RewindTrace.StepKeepsRewind | simulator.c:563-800 | any one step of a run (logged write later than the target, quiet step, or commit unlinking nothing) keeps the landing place of a rewind |
| RewindTrace.RunKeepsRewind | simulator.c:767-800 | however long the run, a rewind from its end lands where the rewind from its start did |
| RewindTrace.RunKeepsRecord | simulator.c:588-629 | no step of a run changes the payload of a record that already exists |
| RewindTrace.RewindRestoresRun | simulator.c:767-800 | after any such run from a state whose head belongs to cycle n or earlier, a seek back to n succeeds with exactly the cells and head the run started from |
| ReplayTrace.BlocksPositive | simulator.c:754-758 | a non-empty list of records spans at least one cycle |
| ReplayTrace.SeekForwardStep | simulator.c:738-758 | one forward step moves to the successor, applies its new value and counts a cycle exactly when the record after the successor starts a later cycle or there is none |
| ReplayTrace.ReplayChain | simulator.c:736-760 | from the anchor of a chain at cycle c, a replay to c plus the cycles the chain spans applies every record's new value in list order, whatever its stall bits, and stops Done on the last record |
| ReplayTrace.SameOnFrame | simulator.c:748-758 | a replay, its targets and its cycle count read only the payloads of the records listed |
| ReplayTrace.ReplayedConcat | simulator.c:748-753 | replaying A then B is replaying A + B |
| ReplayTrace.CommitIsReplay | simulator.c:443-449 | with nothing stalled, a commit applies the records' new values exactly as a replay does |
| ReplayTrace.CommitForgetsAll | simulator.c:443-449 | with nothing stalled, cells that differ only on the records' targets commit to the same result |
| ReplayTrace.BlocksAppend | simulator.c:754-758 | one cycle's records, later than every record before them, add exactly one to the cycles counted |
| ReplayTrace.UnstalledKept | simulator.c:415-441 | a commit with nothing stalled keeps every record of the cycle, in both builds |
| ReplayTrace.LatchSameRecs | simulator.c:411-461 | the first walk of `_state_tock` that keeps every record listed leaves the records exactly as they were |
| ReplayTrace.RetracesLog | simulator.c:588-629 | a logged write extends the chain since the start and the open cycle by its record, and the cells still agree with the replay away from the open cycle's targets |
| ReplayTrace.RetracesStill | simulator.c:365-400 | a step that changes no cell, record or open-cycle record keeps the forward invariant |
| ReplayTrace.RetracesCommit | simulator.c:411-461 | a commit with nothing stalled settles the open cycle: the cells become the replay of every record so far, and one more cycle is counted |
| ReplayTrace.RetracesStep | simulator.c:563-629 | every step a replay can retrace keeps the forward invariant, appending a logged write's record and counting a commit |
| ReplayTrace.RetracesRun | simulator.c:411-629 | after each step of a run the records appended since the start hang off the start's head and end at the head, and the commits so far are counted |
| ReplayTrace.ReplayFrom | simulator.c:736-760 | between cycles, a replay from the start's head over as many cycles as were committed arrives at the current cells and head |
| ReplayTrace.ReplayRun | simulator.c:736-760 | after any run a replay can retrace from a start between cycles to an end between cycles, a forward seek from the start's head over the committed cycles lands Done on the end's cells and head |
| ReplayTrace.RewindReplayRun | simulator.c:729-802 | over such a run, a rewind to cycle n from the end returns to the start's cells and head, and a replay from there over the committed cycles returns to the end's cells and head |
| PollUart.LowByte | simulator.c:1853-1872 | the byte returned is the low byte of the buffer word |
| PollUart.Ring | simulator.c:79-90 | the waiting bytes, oldest first: none when head is NULL, all of the buffer when head equals tail |
| PollUart.Succ | simulator.c:1795-1797 | the index after i wraps to 0 exactly at the end of the buffer |
| PollUart.RingPush | simulator.c:1790-1798 | storing at tail (with head set to the old tail when empty) appends the byte, or, on a full buffer, overwrites so that only the new byte waits |
| PollUart.RingPop | simulator.c:1869-1885 | taking the head byte and advancing head (to NULL when it meets tail) drops exactly the oldest byte |
| PollUart.Uart.constructor | simulator.c:77-90 | the buffer starts empty with tail at its start and no client |
| PollUart.Uart.Connect | simulator.c:1745 | a client is connected; waiting bytes unchanged |
| PollUart.Uart.Disconnect | simulator.c:1759 | no client; waiting bytes unchanged |
| PollUart.Uart.Receive | simulator.c:1783-1798 | the byte joins the end of the queue, or on a full buffer becomes the only waiting byte |
| PollUart.Uart.StatusRead | simulator.c:1825-1839 | the RX bit is set exactly when bytes are waiting, the TX bit exactly when no client is connected, and no other bit |
| PollUart.Uart.StatusWrite | simulator.c:1841-1851 | every waiting byte is dropped and tail returns to the start |
| PollUart.Uart.RxRead | simulator.c:1853-1893 | the oldest waiting byte, which leaves the queue; on an empty buffer, the low byte of slot 3 and nothing moves |
| PollUart.BitsOfTwo | simulator.c:1830-1831 | each status bit lands at its own position and nowhere else |
| CoreFacade.RegRead | simulator/core/simulator.c:475-490 | an index outside 0..15 fails; r0-r12 and LR read as stored |
| CoreFacade.ReadsAligned | simulator/core/simulator.c:471-490 | SP reads word aligned and PC halfword aligned, whatever the cells hold |
| CoreFacade.LowBitsCleared | simulator/core/simulator.c:478-484 | masking clears the bits the mask excludes |
| CoreFacade.RegWriteStep | simulator/core/simulator.c:492-527 | `CORE_reg_write` keeps the invariant, the cells and the cycle; it succeeds exactly for an index in 0..15 and changes nothing otherwise |
| CoreFacade.PcWriteStep | simulator/core/simulator.c:499-521 | in the pipelined build a PC write writes no cell: it requests a flush to `val & ~1` while debugging or when the prediction `(if_id_PC & ~1) - 4` misses, and changes nothing when it hits |
| CoreFacade.RegWriteLands | simulator/core/simulator.c:492-525 | a write of r0-r14 that lands at once updates exactly that register's cell, SP masked |
| CoreFacade.ReadBack | simulator/core/simulator.c:475-498 | reading a register after its write gives the value written, SP with bits [1:0] clear |
| CoreFacade.MaskTwice | simulator/core/simulator.c:494 | masking is idempotent, so an SP value read back and written again is unchanged |
| CoreFacade.ReadFrame | simulator/core/simulator.c:475-498 | writing one register leaves every other register's read unchanged |
| CoreFacade.NoPipelinePcWrite | simulator/core/simulator.c:499-509 | in NO_PIPELINE a PC write lands, masked, in `pre_if_PC` and nowhere else |
| CoreFacade.ExecPc | simulator/core/simulator.c:89-94 | the `PC` that `sim_execute` compares (`pre_if_PC` in NO_PIPELINE, `id_ex_PC` otherwise); in the pipelined build the PC register reads it back with bit 0 cleared |
| CoreFacade.ExecPcSeesWrite | simulator/core/simulator.c:749-755 | in NO_PIPELINE a PC write that is not dropped is what the next branch-to-self comparison sees, bit 0 cleared |
| CoreFacade.Core.constructor | simulator/core/simulator.c:749 | `prev_pc` starts at STALL_PC |
| CoreFacade.Core.RegWrite | simulator/core/simulator.c:492-527 | the new engine state and status are `RegWriteStep` |
| CoreFacade.Core.CellWrite | simulator/core/simulator.c:493-525 | the SP, LR and r0-r12 cases are one SIM write of the register's cell, SP masked |
| CoreFacade.Core.PcWrite | simulator/core/simulator.c:499-521 | the new engine state is `PcWriteStep` |
| CoreFacade.Core.CpsrWrite | simulator/core/simulator.c:533-543 | a CPSR write is one SIM write of the CPSR cell; the warnings change nothing |
| CoreFacade.Core.Execute | simulator/core/simulator.c:746-775 | a branch to self (PC equal to the previous PC and not STALL_PC) terminates without changing the engine, or with a debugger attached breaks first; otherwise PC is recorded; a cycle that runs increases `cycle` by exactly one |
| CoreFacade.Core.RunCycle | simulator/core/simulator.c:761-775 | one NO_PIPELINE cycle grows `cycle` by one and, when it succeeds, leaves no anchor |
| CoreFacade.Core.RunTicks | simulator/core/simulator.c:767-774 | the stages' writes keep the cycle and the cell set, and end Done or in an assertion failure |
| CoreRegistry.Exceptions | simulator/core/simulator.c:632-650 | the exception pairs are the arguments before the first (0,0) pair, in order |
| CoreRegistry.CollectExceptions | simulator/core/simulator.c:628-650 | the collecting loop yields exactly `Exceptions`, with `ex_cnt` equal to their number |
| CoreRegistry.OpcodeRegistry.constructor | simulator/core/simulator.c:611 | the list starts empty with no registrations |
| CoreRegistry.OpcodeRegistry.FindDuplicate | simulator/core/simulator.c:675-686 | the first entry with the same (ones, zeros) masks, or -1 exactly when there is none |
| CoreRegistry.OpcodeRegistry.Prepend | simulator/core/simulator.c:613-661 | the new entry, with its exception pairs, goes to the head; the rest of the list is unchanged and the result is the running count |
| CoreRegistry.OpcodeRegistry.RegisterEx | simulator/core/simulator.c:663-697 | a 16-bit entry without the top half in its zeros mask fails the assertion; otherwise a duplicate mask pair is E_BAD_OPCODE exactly when one exists (exception pairs are not compared); a failure changes nothing |
| CoreRegistry.OpcodeRegistry.Register16Ex | simulator/core/simulator.c:699-712 | 16-bit masks are stored with `0xffff0000 \| zeros`, so the assertion always passes; a duplicate is refused, otherwise one entry is prepended |
| CoreRegistry.OpcodeRegistry.Register16 | simulator/core/simulator.c:714-718 | a 16-bit registration without exception pairs prepends exactly one entry, or is refused as a duplicate |
| CoreRegistry.OpcodeRegistry.Register32Ex | simulator/core/simulator.c:720-739 | a 32-bit zeros mask with nothing in the top half is E_BAD_OPCODE, as is a duplicate; otherwise one entry is prepended |
| CoreRegistry.OpcodeRegistry.Register32 | simulator/core/simulator.c:741-744 | a 32-bit registration without exception pairs prepends exactly one entry, or fails as above |
| CoreRegistry.TopHalfSet | simulator/core/simulator.c:706 | the widened zeros mask passes the 16-bit assertion |
| CoreRegistry.AtMostOneEntry | simulator/core/simulator.c:675-697 | since duplicates are refused, no two entries share a mask pair |
| CoreRegistry.PeriphList.constructor | simulator/core/simulator.c:204 | a zeroed static head and nothing after it |
| CoreRegistry.PeriphList.Register | simulator/core/simulator.c:933-947 | the registered threads, in registration order, gain the new one at the end |
| CoreRegistry.PeriphList.RegisterPrinter | simulator/core/simulator.c:206-218 | the registered printers, in registration order, gain the new one at the end |
| CoreRegistry.PeriphList.Visit | simulator/core/simulator.c:220-226 | the walk from the static head visits the entries in registration order (only the empty static head when none) |
| GdbCodec.FlipFlip | gdb.c:176 | XOR with 0x20 is its own inverse |
| GdbCodec.CStr | gdb.c:269-332 | the C string `strcmp` compares: the buffer's prefix before its first NUL |
| GdbCodec.SumAppend | gdb.c:190-193 | the checksum of a concatenation is the sum of the checksums modulo 256 |
| GdbCodec.HexDigit | gdb.c:196 | each lowercase digit reads back as its value |
| GdbCodec.DigitValue | gdb.c:122 | a hex digit's value in 0..15, -1 for any other byte |
| GdbCodec.Hex2 | gdb.c:196 | `%02x`: two digits whose values are the high and low nibble |
| GdbCodec.Hex8 | gdb.c:243-244 | `%08x` is eight digits |
| GdbCodec.SwappedHex | gdb.c:243-261 | `%08x` of `htonl(w)` on a little-endian host lists w's bytes least significant first |
| GdbCodec.Hex2Parses | gdb.c:122 | `strtol(.., 16)` reads back what `%02x` printed, whatever non-digit follows |
| GdbCodec.Escape | gdb.c:170-187 | the escaped payload is as long as the payload plus the number of escaped bytes |
| GdbCodec.EscapeSnoc | gdb.c:170-187 | escaping runs byte by byte from the front |
| GdbCodec.UnescapeEscape | gdb.c:170-187 | un-escaping recovers the payload |
| GdbCodec.EscapeIsClean | gdb.c:170-187 | the escaped payload holds no raw `$`, `#` or `*` |
| GdbCodec.Packet | gdb.c:198-202 | a packet is `$`, the escaped payload, a `#` that is the first one, and two checksum digits |
| GdbCodec.EscapedChecksumDiffers | gdb.c:189-202 | for the payload `#`, the checksum sent (over the unescaped payload) differs from the sum of the bytes between `$` and `#` on the wire |
| GdbCodec.RegHex | gdb.c:243-261 | each register is eight digits |
| GdbCodec.ConcatAt | gdb.c:243-261 | groups of eight digits, joined, put group i at offset 8i |
| GdbCodec.RegDigits | gdb.c:243-261 | one eight-digit group per register, in order |
| GdbCodec.RegsHex | gdb.c:238-265 | the `g` reply has eight digits per register |
| GdbCodec.RegsHexAt | gdb.c:243-261 | register i's digits are at offset 8i |
| GdbCodec.MemHex | gdb.c:302-310 | the `m` reply has 2·len digits |
| GdbCodec.MemHexAt | gdb.c:305-310 | digit pair k is `%02x` of the byte at address addr + k, modulo 2^32 |
| GdbCodec.SkipCommas | gdb.c:294-295 | `strtok` starts at the first non-comma |
| GdbCodec.TokenLength | gdb.c:294-295 | a token runs up to the first comma |
| GdbCodec.NextToken | gdb.c:294-295 | a token is nonempty and holds no comma |
| GdbCodec.ToInt32 | gdb.c:297-298 | the C `int` holding a `strtol` result: in the 32-bit range and congruent to it |
| GdbCodec.Command | gdb.c:223-370 | `?` replies `S05`; `g` replies 128 digits; `Hc-1` and `Hc0` reply `OK`, other `H` commands empty; `qC` and every unknown command reply empty; exactly a bare `s` steps; `k` kills; only `m` can be an undefined request |
| GdbCodec.MemReplyReadsBack | gdb.c:289-315 | each digit pair of an `m` reply reads back as the byte at its address |
| GdbCodec.Sum | gdb.c:117-120 | the `unsigned char` checksum loop: the byte sum modulo 256 |
| GdbCodec.TotalAppend | gdb.c:117-120 | the plain byte sum of a concatenation is the sum of the parts' sums |
| GdbCodec.Saturate | gdb.c:122 | `strtol`'s out-of-range result: values past `LONG_MAX` or `LONG_MIN` become that bound, others are kept |
| GdbCodec.Strtol16 | gdb.c:122 | `strtol(.., 16)` always yields a 64-bit `long` |
| GdbCodec.Strtol16Saturates | gdb.c:297 | sixteen `f` digits read as `LONG_MAX`, and with a leading `-` as `LONG_MIN` |
| GdbCodec.MemCommand | gdb.c:289-315 | the `m` command is answered exactly when it has an address and a length token and the length, cut to a C `int`, is above 0 and below 2^30 (so `len * 2 + 1` does not overflow); the reply has 2·len digits and each digit pair reads back as the byte at its address |
| GdbCodec.MemReplyAllReadBack | gdb.c:302-310 | every digit pair of the `m` reply reads back as the byte at addr + k, modulo 2^32 |
| GdbLink.Naks | gdb.c:204-211 | the number of leading `-` replies |
| GdbLink.AckOutcomeCases | gdb.c:204-211 | an exchange succeeds exactly when the first reply that is not `-` is `+`, and runs out of input exactly when every reply is `-` |
| GdbLink.Link.constructor | gdb.c:10 | nothing sent yet |
| GdbLink.Link.Recv | gdb.c:80 | `recv` delivers the next pending bytes, as many as requested, fit in the buffer and are there |
| GdbLink.Link.Put | gdb.c:163-167 | one byte is sent |
| GdbLink.Link.IsEscapeChar | gdb.c:172-181 | the scan finds the byte exactly when it is one of `}$#*` |
| GdbLink.Link.SendEscaped | gdb.c:170-187 | the bytes sent are exactly the escaped payload |
| GdbLink.Link.MessageSum | gdb.c:190-193 | the checksum loop computes the byte sum modulo 256 |
| GdbLink.Link.SendPacket | gdb.c:195-202 | the bytes sent are exactly the packet |
| GdbLink.Link.SendMessage | gdb.c:189-212 | the packet is sent once plus once per leading `-`, exactly one reply byte per transmission is consumed, and the outcome is `AckOutcome` |
| GdbLink.FirstHash | gdb.c:100-101 | `memchr` for `#`: the first index holding it, with none before it, or -1 exactly when there is none |
| GdbLink.Gathered | gdb.c:76-102 | the receive loop reads no fewer bytes than it holds, no more than arrive, and never more than the 128-byte buffer |
| GdbLink.GatheredFinds | gdb.c:76-102 | the receive loop succeeds only once a `#` has arrived |
| GdbLink.JudgedPacket | gdb.c:116-137 | on a packet whose first byte is not `#`, the scan stops at the packet's `#`: the packet is framed around the bytes in between, and accepted with them as payload and length k - 1 exactly when their sum equals the checksum field, a bad checksum otherwise |
| GdbLink.ReceivedWhole | gdb.c:104-137 | with the first `#` at k > 0, k + 3 within the buffer, the loop not past the packet and the k + 3 bytes there, the packet is accepted exactly when the payload's byte sum equals the checksum field read by `strtol`, with payload and length k - 1, and is otherwise a bad checksum |
| GdbLink.ReceivedLostSync | gdb.c:106-111 | lost sync is reported exactly when the loop succeeded within the buffer bound but read past the packet's checksum field |
| GdbLink.ReceivedHashFirst | gdb.c:116-137 | with `#` first, the scan runs off the buffer exactly when neither checksum byte is `#`; otherwise the packet is accepted exactly when the bytes before that `#` sum to the field, with both bytes as payload and length -1, and is otherwise a bad checksum |
| GdbLink.ReceivedFramed | gdb.c:116-139 | an accepted packet with a payload was read whole, exactly its k + 3 bytes are consumed, it is framed around the payload and its checksum field equals the payload's byte sum |
| GdbLink.ReceivedBadChecksum | gdb.c:116-125 | a bad checksum on a packet not starting with `#`: the bytes consumed are framed and their checksum field differs from the payload's sum |
| GdbLink.Link.FindHash | gdb.c:100-101 | the first index holding `#`, or -1 exactly when there is none |
| GdbLink.Link.Checksum | gdb.c:116-120 | the byte sum from after the first byte up to the next `#` |
| GdbLink.Link.RecvTurn | gdb.c:78-96 | one `recv` takes the next bytes the loop description Gathered takes, and an empty `recv` ends the loop as a failure |
| GdbLink.Link.RecvUntilHash | gdb.c:76-102 | the bytes received are the front of the input; their number and the fault are those of Gathering, and on success the first `#` among them is the input's first `#` |
| GdbLink.Link.CheckPacket | gdb.c:116-129 | the outcome is Judged on the bytes read, and `+` is sent exactly when the packet is accepted |
| GdbLink.Link.Complete | gdb.c:112-139 | a blocking `recv` completes the checksum field, or the assertion fails when fewer bytes arrive; then the outcome is Judged on the first k + 3 bytes |
| GdbLink.Link.GetMessage | gdb.c:69-140 | the outcome is Received on the input, the input consumed is Consumed, and `+` is sent exactly when the packet is accepted |
| GdbLink.Link.WaitForGdb | gdb.c:223-372 | an ending that hands control back to the simulator sets `dumpatcycle = cycle + 1`; any other ending leaves it alone |
| GdbLink.Link.StopAndWait | gdb.c:214-217 | reports SIGTRAP, then serves the debugger, with the same promise about `dumpatcycle` |
| RamMap.Index | cpu/ram.c:8 | the word index whose four bytes hold the address |
| RamMap.Store | cpu/ram.c:24-33 | the contents keep their length |
| RamMap.IndexInjective | cpu/ram.c:8-16 | distinct aligned in-range addresses use distinct words |
| RamMap.IndexBound | cpu/ram.c:8-16 | behind the guard the index stays below `RAMSIZE >> 2` when the range fits in RAMSIZE bytes |
| RamMap.LoadStore | cpu/ram.c:11-33 | a read after a write yields the written word at the same address and the old one elsewhere; a faulting write changes nothing |
| RamMap.Ram.constructor | cpu/ram.c:9 | `ram[RAMSIZE >> 2]`, all zero |
| RamMap.Ram.Read | cpu/ram.c:11-22 | the read succeeds exactly when the address is in `[RAMBOT, RAMTOP)` and word aligned, yielding the indexed word; otherwise the read fault with `is_write = false` |
| RamMap.Ram.Write | cpu/ram.c:24-33 | under the same guard exactly one word is replaced; otherwise the write fault with `is_write = true` and no change |
| RamMap.MemMap.constructor | cpu/ram.c:35-45 | no ranges registered yet |
| RamMap.MemMap.RegisterRam | cpu/ram.c:36-45 | registration adds exactly the RAM's ranges |
| RamMap.RamRegions | cpu/ram.c:37-44 | nothing when RAMBOT == RAMTOP; otherwise the half-open range for both reads and writes |
| RecryptorControl.Code | simulator/cpu/recryptor/recryptor.h:6-22 | every op's value fits the 4-bit op field |
| RecryptorControl.OpsConsecutive | simulator/cpu/recryptor/recryptor.h:6-22 | values 1..15 name exactly one op each and no other value names one |
| RecryptorControl.IdOf | simulator/cpu/recryptor/recryptor.h:54-59 | an IDR* id is a 7-bit value |
| RecryptorControl.AddressesRoundTrip | simulator/cpu/recryptor/recryptor.h:47-59 | each hardware operand address comes back from its id as the decoders rebuild it |
| RecryptorControl.Apart | simulator/WIP/recryptor.c:58-60 | words of different operands, or different offsets, never share an address |
| RecryptorControl.DigsIsCeiling | simulator/cpu/recryptor/recryptor.h:91 | `FB_DIGS` is the least number of digits holding the bits |
| RecryptorControl.FieldConstants | simulator/cpu/recryptor/recryptor.h:64-92 | `FB_DIGS` = 8 and `FB_MOD` = 9 for the 233-bit field on 32-bit digits |
| RecryptorControl.Decode | simulator/WIP/recryptor.c:58-63 | the decoded fields are three 7-bit ids, a 4-bit op and a 4-bit bank |
| RecryptorControl.DecodeEncode | simulator/cpu/recryptor/recryptor.c:11-21 | decoding the firmware's encoding gives back its ids, op and bank |
| RecryptorControl.Field7 | simulator/WIP/recryptor.c:58-60 | a 7-bit field reads back from its position |
| RecryptorControl.Bit23Ignored | simulator/WIP/recryptor.c:58-63 | bit 23 does not change the decoding |
| RecryptorControl.IdsBelowBit23 | simulator/WIP/recryptor.c:58-60 | bit 23 does not touch the three id fields |
| RecryptorControl.Encode | simulator/cpu/recryptor/recryptor.c:11-21 | the firmware's encoding always sets bit 23 |
| RecryptorControl.And | simulator/WIP/recryptor.c:87-88 | `dataA & dataB`: the result has no bit that either operand lacks |
| RecryptorControl.Or | simulator/WIP/recryptor.c:90-91 | `dataA \| dataB`: the result has every bit of both operands |
| RecryptorControl.Xor | simulator/WIP/recryptor.c:93-94 | `dataA ^ dataB`: XOR with the B word gives back the A word |
| RecryptorControl.Not | simulator/WIP/recryptor.c:99-100 | `~dataA`: the result and the A word have no common bit and together fill the word |
| RecryptorControl.FieldsAboveBit23 | simulator/WIP/recryptor.c:62-63 | a clear bit 23, once set, carries nothing into the op and bank fields |
| RecryptorControl.WordMemory.constructor | simulator/WIP/recryptor.c:82-83 | the memory holds the given words |
| RecryptorControl.WordMemory.ReadWord | simulator/WIP/recryptor.c:82-83 | a read yields the last word written there, or 0 |
| RecryptorControl.WordMemory.WriteWord | simulator/WIP/recryptor.c:114 | a write replaces exactly one word |
| RecryptorCpu.Block | simulator/cpu/recryptor/recryptor.c:23-30 | the block length never exceeds 16 words |
| RecryptorCpu.BlockCases | simulator/cpu/recryptor/recryptor.c:23-30 | only banks 1, 3 and 7 process words; no 4-bit bank reaches 16; bank 0xF gives 0 and BANK gives 8 |
| RecryptorCpu.Out | simulator/cpu/recryptor/recryptor.c:38-47 | the word written: XOR with the B word gives back the A word for XR; the A word for any other op |
| RecryptorCpu.Untouched | simulator/cpu/recryptor/recryptor.c:35-50 | the A and B words still to be read have not been overwritten by earlier iterations |
| RecryptorCpu.LoopStep | simulator/cpu/recryptor/recryptor.c:36-49 | one iteration turns the memory after i iterations into the memory after i + 1 |
| RecryptorCpu.WrittenWords | simulator/cpu/recryptor/recryptor.c:35-50 | every word the loop has written holds its output |
| RecryptorCpu.Frame | simulator/cpu/recryptor/recryptor.c:35-50 | every address outside `addrC .. addrC + 4*(n-1)` keeps its value |
| RecryptorCpu.ResultWords | simulator/cpu/recryptor/recryptor.c:35-50 | after the call, C[i] holds `A[i] ^ B[i]` for XR and `A[i]` for any other op for each i below the block length, and every other address is unchanged |
| RecryptorCpu.FullBankUnchanged | simulator/cpu/recryptor/recryptor.c:24-30 | bank 0xF writes nothing |
| RecryptorCpu.DecoderWr | simulator/cpu/recryptor/recryptor.c:7-63 | the memory becomes the decoder's result for the decoded control word |
| RecryptorCpu.Run | simulator/cpu/recryptor/recryptor.c:34-50 | the loop leaves the memory after `block` iterations |
| RecryptorWip.PrefixSums | simulator/WIP/recryptor.c:8-9 | `NUM_PREVTOT_SUBBANK` is the running total of `NUM_SUBBANK`, which adds up to 16 |
| RecryptorWip.Group | simulator/WIP/recryptor.c:77-79 | group b visits `NUM_SUBBANK[b]` consecutive offsets from `NUM_PREVTOT_SUBBANK[b]` |
| RecryptorWip.OrderedAppend | simulator/WIP/recryptor.c:71-79 | appending a later increasing run keeps the visit order increasing |
| RecryptorWip.OffsetsOrdered | simulator/WIP/recryptor.c:71-79 | the visited offsets increase strictly (none twice) and stay below 16 |
| RecryptorWip.GroupOf | simulator/WIP/recryptor.c:8-9 | every offset below 16 lies in exactly the group found for it |
| RecryptorWip.OffsetsExactly | simulator/WIP/recryptor.c:71-79 | an offset is visited exactly when it is below 16 and its group's bit is set in the bank |
| RecryptorWip.FullBank | simulator/WIP/recryptor.c:71-79 | bank 0xF visits each of the 16 words once, in address order |
| RecryptorWip.BankOne | simulator/WIP/recryptor.c:71-79 | BANK = 1 visits the first 8 words only |
| RecryptorWip.ShiftConcat1 | simulator/WIP/recryptor.c:102-105 | SF1 with a carried top bit is a 64-bit left shift by one of two adjacent words |
| RecryptorWip.ShiftConcat4 | simulator/WIP/recryptor.c:106-109 | SF4 with four carried bits is a 64-bit left shift by four |
| RecryptorWip.NoCarryOutsideShifts | simulator/WIP/recryptor.c:86-111 | only SF1 and SF4 carry anything to the next word |
| RecryptorWip.WordOpCases | simulator/WIP/recryptor.c:86-111 | AN, OR, XR, NOT, SF1 and SF4 each select their own word operation, and CP and every other code copy the A word |
| RecryptorWip.ShiftIn1 | simulator/WIP/recryptor.c:102-103 | `dataA << 1 \| sh1` with a one-bit carry: the A word moved up one bit over the carry |
| RecryptorWip.ShiftIn4 | simulator/WIP/recryptor.c:106-107 | `dataA << 4 \| sh4` with a four-bit carry: the A word moved up four bits over the carry |
| RecryptorWip.Start | simulator/WIP/recryptor.c:8-9 | a group's first offset; the groups tile 0..16 |
| RecryptorWip.LoopStep | simulator/WIP/recryptor.c:82-114 | one inner iteration writes the output of the A and B words just read, with the carry in, and passes the A word's carry on |
| RecryptorWip.SkipGroup | simulator/WIP/recryptor.c:73 | a group whose bit is clear changes neither the memory nor the carry |
| RecryptorWip.Skip | simulator/WIP/recryptor.c:71-79 | a run of unvisited offsets changes neither the memory nor the carry |
| RecryptorWip.Untouched | simulator/WIP/recryptor.c:82-114 | no A or B word still to be read has been written by earlier iterations |
| RecryptorWip.Written | simulator/WIP/recryptor.c:114 | every visited word ends up at its C address holding its output |
| RecryptorWip.Frame | simulator/WIP/recryptor.c:82-114 | only the C words of visited offsets change |
| RecryptorWip.ResultWords | simulator/WIP/recryptor.c:71-119 | after the call each visited offset's C word holds its output, every other address its old value |
| RecryptorWip.CarryBound | simulator/WIP/recryptor.c:68-108 | the carry is one bit under SF1 and four bits under SF4 |
| RecryptorWip.CarriedShift1 | simulator/WIP/recryptor.c:102-105 | across two consecutive visited offsets, SF1 moves the top bit of the lower A word into the bottom of the upper output: a multiword shift |
| RecryptorWip.CarriedShift4 | simulator/WIP/recryptor.c:106-109 | the same with four bits for SF4 |
| RecryptorWip.Wip.constructor | simulator/WIP/recryptor.c:12 | `recryptor_cnt` starts at 0 |
| RecryptorWip.Wip.DecoderWr | simulator/WIP/recryptor.c:50-125 | the memory becomes the decoder's result and `recryptor_cnt` grows by exactly one |
| RecryptorWip.Wip.Execute | simulator/WIP/recryptor.c:67-119 | the group loop leaves the decoder's result |
| RecryptorWip.Wip.ProcessGroup | simulator/WIP/recryptor.c:74-117 | the sub-bank loop of a selected group advances memory and carry to the group's end |
| RecryptorWip.Wip.Step | simulator/WIP/recryptor.c:79-114 | one sub-bank writes the op on A and B at its C address and returns the A word's carry |
| RecryptorAgree.SameOffsets | simulator/WIP/recryptor.c:71-79 | for banks 1, 3 and 7 the WIP decoder visits exactly offsets 0 .. block-1 of the CPU decoder, in order |
| RecryptorAgree.CountOn | simulator/WIP/recryptor.c:77-79 | a run continuing a count from 0 keeps counting |
| RecryptorAgree.ProcessedBelowBlock | simulator/WIP/recryptor.c:71-79 | on those banks an offset is visited by the WIP decoder exactly when it is below the CPU block length |
| RecryptorAgree.SameWord | simulator/WIP/recryptor.c:86-112 | on XR, CP and ops past NOT except SF1/SF4, the two decoders compute the same word whatever the carry |
| RecryptorAgree.SamePrefix | simulator/WIP/recryptor.c:71-117 | up to the block length both decoders leave the same memory |
| RecryptorAgree.DecodersAgree | simulator/WIP/recryptor.c:50-125 | on banks 1, 3 and 7 and a shared op, both decoders leave the same memory |
| RecryptorAgree.FullBankDiffers | simulator/WIP/recryptor.c:71-114 | on bank 0xF the WIP decoder writes all 16 C words with carries from the previous A word while the CPU decoder changes nothing |
| Firmware.Count | platforms/m3/prc_v9/software/RADv7_test_sleep/RADv7_test_sleep.c:138-139 | the number of samples above (or below) a value is at most the number of samples |
| Firmware.CountAppend | platforms/m3/prc_v9/software/RADv7_test_sleep/RADv7_test_sleep.c:138-139 | counts add over concatenation |
| Firmware.CountPermutation | platforms/m3/prc_v9/software/RADv7_test_sleep/RADv7_test_sleep.c:130-134 | counts depend only on the multiset of samples |
| Firmware.RemoveOne | platforms/m3/prc_v9/software/RADv7_test_sleep/RADv7_test_sleep.c:130-134 | removing one sample removes one copy from the multiset |
| Firmware.CountRemove | platforms/m3/prc_v9/software/RADv7_test_sleep/RADv7_test_sleep.c:130-134 | the count is the count without one sample plus that sample's own |
| Firmware.Count3 | platforms/m3/prc_v9/software/RADv7_test_sleep/RADv7_test_sleep.c:138-139 | the count over three samples, written out |
| Firmware.SortedMiddleIsMedian | platforms/m3/prc_v9/software/RADv7_test_sleep/RADv7_test_sleep.c:138-139 | the middle of a non-increasing arrangement of three samples is their median |
| Firmware.RadioTurn | platforms/m3/prc_v9/software/RADv7_test_sleep/RADv7_test_sleep.c:267-348 | with `radio_ready` clear: payload loaded, FSM sleep released, ready set, timer (2,1,0); otherwise the data is fired, then SCRO disabled and reset and r8 back to sleep, isolate, reset and disable, ready cleared, timer (1,1,0); setup fields untouched; every message goes to the radio |
| Firmware.TwoTurnsTransmit | platforms/m3/prc_v9/software/RADv7_test_sleep/RADv7_test_sleep.c:269-345 | two wake-ups from a cleared `radio_ready` make one transmission and return the radio to quiet with the payload loaded |
| Firmware.EverySecondWake | platforms/m3/prc_v9/software/RADv7_test_sleep/RADv7_test_sleep.c:267-348 | after n turns `radio_ready` is n mod 2; every second wake has transmitted and is quiet again; the setup fields are never changed |
| Firmware.SetupFixed | platforms/m3/prc_v9/software/RADv7_test_sleep/RADv7_test_sleep.c:212-252 | the setup's register fields do not depend on the registers it starts from, and it changes no other field |
| Firmware.SetupRegs | platforms/m3/prc_v9/software/RADv7_test_sleep/RADv7_test_sleep.c:212-250 | the setup values: current limiter 0x2F, both tuning frequencies 0, TX time 7, reply address 0x16, H/D/C lengths 16, 15 (H - 1) and 10, SCRO divider 2, amplitude level 2, level select 0x60, seed 4; the SCRO enable/reset, FSM and payload fields are kept |
| Firmware.Mote.constructor | platforms/m3/prc_v9/software/RADv7_test_sleep/RADv7_test_sleep.c:54-70 | every modelled global starts zero, both sample arrays hold zeros, no message is sent, no timer is set, and the radio registers are at their defaults |
| Firmware.Mote.ProcessData | platforms/m3/prc_v9/software/RADv7_test_sleep/RADv7_test_sleep.c:123-141 | the samples become a non-increasing permutation of themselves, and `cdc_data_tx[0]` is the middle one, the median of the original samples |
| Firmware.Mote.OperationInit | platforms/m3/prc_v9/software/RADv7_test_sleep/RADv7_test_sleep.c:183-265 | `enumerated` is 0xDEADBEEF, `radio_ready` 0 and the counters reset; the registers become the setup registers and the six setup messages are sent |
| Firmware.Mote.ResetLayers | platforms/m3/prc_v9/software/RADv7_test_sleep/RADv7_test_sleep.c:198-203 | the layer state and exec counters are reset and `enumerated` marked; radio state untouched |
| Firmware.Mote.ResetCounters | platforms/m3/prc_v9/software/RADv7_test_sleep/RADv7_test_sleep.c:255-260 | the wake-up periods and radio counters are set, `radio_ready` cleared, and nothing else changes |
| Firmware.Mote.SetupRadio | platforms/m3/prc_v9/software/RADv7_test_sleep/RADv7_test_sleep.c:205-252 | the radio registers become the setup registers and exactly the setup messages are sent |
| Firmware.Mote.OperationRadio | platforms/m3/prc_v9/software/RADv7_test_sleep/RADv7_test_sleep.c:267-348 | the new `radio_ready`, registers, messages and timer are `RadioTurn` of the old ones; every other field (layer state, counters, wake-up period, CDC and radio-TX counts) keeps its value |
| Firmware.Mote.Wake | platforms/m3/prc_v9/software/RADv7_test_sleep/RADv7_test_sleep.c:353-378 | the setup runs, after zeroing the exec and measurement counts, exactly when `enumerated` lacks its mark; then the radio takes one turn; afterwards `enumerated` is marked; after the setup the layer state is idle, the CDC index, IRQ count and message flag are 0, the wake-up period is 3 with init 1 and the CDC and radio-TX counts are 0, and without it all of these keep their values |
| Firmware.SetupMessages | platforms/m3/prc_v9/software/RADv7_test_sleep/RADv7_test_sleep.c:205-252 | the setup sends the enumeration, then five register writes to the radio, the last of register 7 |
| Firmware.SortSamples | platforms/m3/prc_v9/software/RADv7_test_sleep/RADv7_test_sleep.c:128-136 | the exchange sort leaves the array non-increasing and a permutation of its prior contents |

## Left out

- Threads and locks are not modelled: `state_mutex`, the async-block locking, the pipelined build's ticker threads and semaphores, and the UART socket thread. The model follows the sequential NO_PIPELINE order: start_tick, the stages' writes, tock.
- Sockets, the terminal, printing, DBG tracing, the interactive shell, core dumps, and the LED-line printing in `state_tock` are not modelled: they are I/O.
- The GDB link's socket setup and the console echo in `_gdb_send` are I/O. The link is two byte sequences, and each `recv` delivers a size given as input.
- `pipeline_flush`, `tick_if/id/ex`, `find_op`, `read_word`/`write_word`/`read_byte` and the register variables come from code that is not part of this model. They are inputs to the model:
  - the flush pass takes the flush callback's writes as a sequence of write requests;
  - a cycle's stage writes are a sequence;
  - `read_byte` is a function argument;
  - the word memory answers every address, with 0 where nothing was written.
- `state_write_op`, `o_hack` and the `id_ex_o` bookkeeping in `_state_tock` are not modelled: they concern the decoded-instruction pointer, not change records. The backward seek's final `find_op` is not modelled either.
- Freed records stay in the arena, unreachable; memory reuse after `free` is not modelled. `malloc` failure is not modelled.
- The backward seek's end state follows the code: a seek that meets an I/O barrier returns 1 with the engine partly rewound. It does not restore the pre-seek state. Nothing in the modelled code sets `STATE_IO_BARRIER`.
- `SP` is a single cell: the choice between MSP and PSP behind `*sp` is made by code that is not part of this model.
- EngineProps.RewindUndoesWrite: states the rewind over one logged write. RewindTrace.RewindRestoresRun states it over a run of any length, but only for runs whose writes are logged after the target cycle under flags words without the barrier mark, whose other steps change no cell, payload, back link or barrier mark, and whose commits unlink no record. A release-build commit that unlinks a stalled record, and a direct write while debugging, are not covered.
- EngineProps.RewindThenReplay: states the round trip over one write. ReplayTrace.RewindReplayRun states it over a run of many cycles, for runs that, in addition, start and end between cycles, log writes only into an open cycle, and commit only cycles with no stalled record. A run with a stalled record is not covered: with DEBUG1 the replay re-applies the stalled write that the commit skipped (ReplayRedoesWrite shows this for one write), and in the release build the replay walks a list from which the record was unlinked.
- CoreFacade.Core.Execute: the self-branch break runs the debugger's shell, which is not modelled; after the break the cycle runs as usual.
- StateEngine.Engine.FlushCycle: states only that a successful flush pass leaves no anchor and clears PIPELINE_RUNNING. Its writes and its commit are stated by the `Write` and `CommitPass` contracts it calls.
- StateEngine.Engine.Tock: the state after the flush branch is stated only through FlushCycle's contract.
- CoreFacade.Core.RunCycle: states the cycle count and the anchor only; each step is stated by the engine method it calls.
- CoreFacade.Core.RunTicks: states only that the cycle and the cell set are kept; each write is stated by `Engine.Write`.
- StateSteps.LedStep: its own contract states only the invariant; LedWriteMarks states the flags it leaves.
- StateSteps.AsyncWrite: its own contract states only the cleared block bit; AsyncWriteImmediate states the write.
- GdbLink.Link.WaitForGdb: states only the `dumpatcycle` outcome. Each reply is stated by GdbCodec.Command, and each exchange by GetMessage and SendMessage. The `k` case's fall-through after `sim_terminate` is not modelled, since `sim_terminate` does not return.
- GdbCodec.Command: an `m` command without a length, with a length below 1, or with a length of 2^30 or more is the `Undefined` action, and WaitForGdb ends with a bad-request fault. In the source a missing length fails the assertion at gdb.c:296, a length of 0 or below sends a buffer that was never written, and from 2^30 on `len * 2 + 1` overflows the C `int` and sizes the reply buffer wrongly. `strtol` results beyond the 64-bit `long` saturate (GdbCodec.Saturate) before the cut to `int`.
- RecryptorWip.Wip.DecoderWr: requires an op field of at least 1, because the trace line indexes `OpNames[op - 1]`, which reads before the table for op 0. The assertion that the written address is `RECRYPTOR_DECODER_ADDR` is not modelled: the address is defined in code that is not part of this model.
- RecryptorCpu.DecoderWr: the address and debugger arguments are not read by the source and are not parameters.
- RecryptorCpu.Block: the `case(0x15)` label is decimal 21, which a 4-bit bank never holds. The model keeps it as written, so bank 0xF writes nothing.
- The WIP decoder's action queue and ECC stubs do not compile as written and are not modelled. `simulator/WIP/recryptor.h` has no behaviour.
- The firmware's MMIO pokes, interrupt handlers, `delay`, `sleep`, the watchdog timer and the MBus transport are not modelled: they are hardware side effects. MBus messages are a sequence the mote appends to, and the RADv7 register defaults are a constructor argument.
- RamMap.Ram.Read: `SR`/`SW` on the RAM array are modelled as direct array access, not as engine writes. The DEBUG1-only range assertion is not modelled.
- `htonl` assumes a little-endian host, which makes it a byte swap.
- Firmware.Mote.constructor: `cdc_reset_timeout_count` and the zero-length `cdc_storage` array are not fields of the mote: no modelled function reads or writes them.
