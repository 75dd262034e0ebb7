/**
 * The state history log of the simulator core (simulator.c, lines 256-802).
 *
 * Every write to architectural state becomes a change record that keeps the
 * value it replaced.  Records of the running cycle are committed at the end
 * of the cycle ("tock"): writes of a stalled stage are voided, the others are
 * applied in order, and a write that did not survive to the end of the cycle
 * is an aliasing fault.  Seeking walks the log forwards (replaying new
 * values) or backwards (restoring replaced values).
 *
 * The C list of heap records becomes an arena: `recs[i]` is record number i,
 * record 0 is the static sentinel `state_start`, and the `prev`/`next` links
 * are arena indices with -1 for NULL.  Freed records stay in the arena
 * unreachable, so a dangling `state_head` still names a record.  Numeric
 * cells (`uint32_t *loc`) and pointer cells (`uint32_t **ploc`) are both
 * keys of the `live` map; pointer values are opaque 32-bit handles.
 */
module StateLog {

  type Word = bv32

  /** The pipeline stages; a stage's value is also its stall bit. */
  datatype Stage = PRE | IF | ID | EX | PIPE | SIM | UNK

  function StageBit(g: Stage): (b: Word)
    ensures b != 0 && b & STALL_MASK == b
    ensures (b & !STALLABLE == 0) <==> g in {PRE, IF, ID}
  {
    match g
    case PRE => 0x01
    case IF => 0x02
    case ID => 0x04
    case EX => 0x08
    case PIPE => 0x10
    case SIM => 0x20
    case UNK => 0x40
  }

  const STALL_MASK: Word := 0xff
  const IO_BARRIER: Word := 0x100
  const PIPELINE_FLUSH: Word := 0x1000
  const PIPELINE_RUNNING: Word := 0x8000
  const LED_WRITTEN: Word := 0x1_0000
  const LED_WRITING: Word := 0x8_0000
  const BLOCKING_ASYNC: Word := 0x80_0000
  const DEBUGGING: Word := 0x100_0000

  /** The bits `stall` accepts: PRE|IF|ID. */
  const STALLABLE: Word := 0x07

  /** A state cell: a numeric `uint32_t` location or a pointer location. */
  datatype Cell = Numeric(n: nat) | Pointer(p: nat)

  /** Where a record writes: `loc` or `ploc`, or neither (both NULL). */
  datatype Target = NoCell | At(cell: Cell)

  /**
   * One change record.  `flags` is the index of the cycle's flags word,
   * `prevVal` the value the target held when the record was made.
   */
  datatype Record = Record(cycle: int, stage: Stage, flags: nat, target: Target,
                           val: Word, prevVal: Word, prev: int, next: int)

  /** Compile-time configuration: DEBUG1 and NO_PIPELINE. */
  datatype Build = Build(debug1: bool, noPipeline: bool)

  /** The ways the engine stops the process. */
  datatype Fault =
    | Unpredictable   // ERR(E_UNPREDICTABLE, ...)
    | UnknownError    // ERR(E_UNKNOWN, ...)
    | Abort           // a failed assert or a NULL dereference

  /** 0, a tolerable error (>0), or a fault. */
  datatype Status = Done | Tolerable | Fatal(fault: Fault)

  /** A write issued by the flush callback. */
  datatype WriteReq = WriteReq(stage: Stage, target: Target, val: Word)

  const Sentinel: Record := Record(-1, UNK, 0, NoCell, 0, 0, -1, -1)

  // ---------------------------------------------------------------------
  // Shape of the arena

  /** Links only point forwards (`next`) and backwards (`prev`). */
  ghost predicate LinkOk(recs: seq<Record>, i: nat)
    requires i < |recs|
  {
    && (recs[i].next == -1 || i < recs[i].next < |recs|)
    && (if i == 0 then recs[i].prev == -1 else 0 <= recs[i].prev < i)
  }

  /** Record i is linked forwards and backwards, has a flags word, and (past the sentinel) a cell. */
  ghost predicate RecOk(recs: seq<Record>, flags: seq<Word>, live: map<Cell, Word>, i: nat)
    requires i < |recs|
  {
    && LinkOk(recs, i)
    && recs[i].flags < |flags|
    && (i > 0 ==> recs[i].target.At? && recs[i].target.cell in live)
  }

  ghost predicate Arena(recs: seq<Record>, flags: seq<Word>, live: map<Cell, Word>)
  {
    && |recs| > 0
    && recs[0].target == NoCell && recs[0].cycle == -1
    && forall i :: 0 <= i < |recs| ==> RecOk(recs, flags, live, i)
  }

  /** The successor of position k of L, with -1 for the anchor's. */
  function NextOf(L: seq<nat>, k: int): int
  {
    if 0 <= k + 1 < |L| then L[k + 1] else -1
  }

  /** The predecessor of position k of L: the anchor for the first. */
  function PrevOf(a: nat, L: seq<nat>, k: int): nat
    requires k < |L|
  {
    if k <= 0 then a else L[k - 1]
  }

  function Last(a: nat, L: seq<nat>): nat
  {
    if L == [] then a else L[|L| - 1]
  }

  /**
   * L is the doubly linked list that hangs off anchor a: a's next is L[0],
   * each element's next and prev are its neighbours in L, the last one's
   * next is NULL, and indices increase along the list.
   */
  ghost predicate Chain(recs: seq<Record>, a: nat, L: seq<nat>)
  {
    && a < |recs|
    && recs[a].next == NextOf(L, -1)
    && forall k :: 0 <= k < |L| ==> ChainLink(recs, a, L, k)
  }

  /** Position k of L follows its predecessor and is linked to both neighbours. */
  ghost predicate ChainLink(recs: seq<Record>, a: nat, L: seq<nat>, k: nat)
    requires k < |L|
  {
    && PrevOf(a, L, k) < L[k] < |recs|
    && recs[L[k]].next == NextOf(L, k)
    && recs[L[k]].prev == PrevOf(a, L, k)
  }

  lemma {:induction false} ChainIncreasing(recs: seq<Record>, a: nat, L: seq<nat>, i: int, j: int)
    requires Chain(recs, a, L)
    requires -1 <= i < j < |L|
    ensures (if i == -1 then a else L[i]) < L[j]
    decreases j - i
  {
    assert ChainLink(recs, a, L, j);
    if j > i + 1 {
      ChainIncreasing(recs, a, L, i, j - 1);
    }
  }

  // ---------------------------------------------------------------------
  // The meaning of a commit

  /** A record whose stage is stalled in its own cycle's flags word. */
  ghost predicate Stalled(r: Record, flags: seq<Word>)
    requires r.flags < |flags|
  {
    StageBit(r.stage) & flags[r.flags] != 0
  }

  ghost predicate Committable(recs: seq<Record>, flags: seq<Word>, live: map<Cell, Word>, L: seq<nat>)
  {
    forall k :: 0 <= k < |L| ==>
      L[k] < |recs| && recs[L[k]].flags < |flags|
      && recs[L[k]].target.At? && recs[L[k]].target.cell in live
  }

  /** The live state after applying, in order, every unstalled record of L. */
  ghost function Commit(live: map<Cell, Word>, recs: seq<Record>, flags: seq<Word>, L: seq<nat>): (m: map<Cell, Word>)
    requires Committable(recs, flags, live, L)
    ensures m.Keys == live.Keys
    decreases |L|
  {
    if L == [] then live
    else
      var r := recs[L[|L| - 1]];
      var m := Commit(live, recs, flags, L[..|L| - 1]);
      if Stalled(r, flags) then m else m[r.target.cell := r.val]
  }

  /** The records the post-commit check walks: all (DEBUG1) or the unstalled ones. */
  ghost function Kept(debug1: bool, recs: seq<Record>, flags: seq<Word>, L: seq<nat>): (K: seq<nat>)
    requires Indexed(recs, flags, L)
    ensures |K| <= |L|
    ensures forall k :: 0 <= k < |K| ==> K[k] < |recs| && recs[K[k]].flags < |flags|
    ensures forall x :: x in K ==> x in L
    ensures forall x :: x in K ==> debug1 || !Stalled(recs[x], flags)
    ensures forall x :: x in L && (debug1 || !Stalled(recs[x], flags)) ==> x in K
    decreases |L|
  {
    if debug1 then L
    else if L == [] then []
    else
      var K := Kept(debug1, recs, flags, L[..|L| - 1]);
      var x := L[|L| - 1];
      assert forall y :: y in L ==> y in L[..|L| - 1] || y == x;
      if Stalled(recs[x], flags) then K else K + [x]
  }

  /** A record the aliasing check compares: a numeric cell, but not pre_if_PC in NO_PIPELINE. */
  predicate Checked(r: Record, noPipeline: bool, pcCell: Cell)
  {
    r.target.At? && r.target.cell.Numeric? && !(noPipeline && r.target.cell == pcCell)
  }

  /** Every checked record of K still sees its own value in its cell. */
  ghost predicate AliasFree(live: map<Cell, Word>, recs: seq<Record>, K: seq<nat>, noPipeline: bool, pcCell: Cell)
  {
    forall k :: 0 <= k < |K| && K[k] < |recs| && Checked(recs[K[k]], noPipeline, pcCell) ==>
      recs[K[k]].target.cell in live && live[recs[K[k]].target.cell] == recs[K[k]].val
  }

  /** A cell that no unstalled record of L writes keeps its value. */
  lemma {:induction false} CommitFrame(live: map<Cell, Word>, recs: seq<Record>, flags: seq<Word>, L: seq<nat>, c: Cell)
    requires Committable(recs, flags, live, L) && c in live
    requires forall k :: 0 <= k < |L| && recs[L[k]].target == At(c) ==> Stalled(recs[L[k]], flags)
    ensures Commit(live, recs, flags, L)[c] == live[c]
    decreases |L|
  {
    if L != [] {
      var P := L[..|L| - 1];
      assert forall k :: 0 <= k < |P| ==> P[k] == L[k];
      CommitFrame(live, recs, flags, P, c);
    }
  }

  /** The last unstalled record of L that writes c decides c's value. */
  lemma {:induction false} CommitLastWins(live: map<Cell, Word>, recs: seq<Record>, flags: seq<Word>, L: seq<nat>, c: Cell, j: nat)
    requires Committable(recs, flags, live, L)
    requires j < |L| && recs[L[j]].target == At(c) && !Stalled(recs[L[j]], flags)
    requires forall k :: j < k < |L| && recs[L[k]].target == At(c) ==> Stalled(recs[L[k]], flags)
    ensures Commit(live, recs, flags, L)[c] == recs[L[j]].val
    decreases |L|
  {
    var P := L[..|L| - 1];
    assert forall k :: 0 <= k < |P| ==> P[k] == L[k];
    if j < |L| - 1 {
      CommitLastWins(live, recs, flags, P, c, j);
    }
  }

  /**
   * Two unstalled checked writes of different values to one cell in the same
   * cycle can never both pass the post-commit check: the cycle faults.
   */
  lemma DoubleWriteAliases(debug1: bool, live: map<Cell, Word>, recs: seq<Record>, flags: seq<Word>,
                           L: seq<nat>, noPipeline: bool, pcCell: Cell, i: nat, j: nat)
    requires Committable(recs, flags, live, L)
    requires i < j < |L| && recs[L[i]].target == recs[L[j]].target
    requires Checked(recs[L[i]], noPipeline, pcCell)
    requires !Stalled(recs[L[i]], flags) && !Stalled(recs[L[j]], flags)
    requires recs[L[i]].val != recs[L[j]].val
    ensures !AliasFree(Commit(live, recs, flags, L), recs, Kept(debug1, recs, flags, L), noPipeline, pcCell)
  {
    var c := recs[L[i]].target.cell;
    var m := Commit(live, recs, flags, L);
    var K := Kept(debug1, recs, flags, L);
    // the last unstalled write of c decides its value
    var last := LastWriter(recs, flags, L, c, j);
    CommitLastWins(live, recs, flags, L, c, last);
    assert L[i] in K && L[j] in K;
    var x := if m[c] == recs[L[i]].val then L[j] else L[i];
    assert x in K;
    var k :| 0 <= k < |K| && K[k] == x;
    assert Checked(recs[K[k]], noPipeline, pcCell);
  }

  /** The index of the last unstalled record of L at or after j that writes c. */
  lemma {:induction false} LastWriter(recs: seq<Record>, flags: seq<Word>, L: seq<nat>, c: Cell, j: nat) returns (last: nat)
    requires forall k :: 0 <= k < |L| ==> L[k] < |recs| && recs[L[k]].flags < |flags|
    requires j < |L| && recs[L[j]].target == At(c) && !Stalled(recs[L[j]], flags)
    ensures j <= last < |L| && recs[L[last]].target == At(c) && !Stalled(recs[L[last]], flags)
    ensures forall k :: last < k < |L| && recs[L[k]].target == At(c) ==> Stalled(recs[L[k]], flags)
    decreases |L| - j
  {
    if forall k :: j < k < |L| && recs[L[k]].target == At(c) ==> Stalled(recs[L[k]], flags) {
      last := j;
    } else {
      var k :| j < k < |L| && recs[L[k]].target == At(c) && !Stalled(recs[L[k]], flags);
      last := LastWriter(recs, flags, L, c, k);
    }
  }

  /**
   * A stalled stage's write does not take effect: when every record of L
   * that writes c belongs to a stalled stage, c keeps its pre-cycle value,
   * and in the release build the check does not look at those records.
   */
  lemma StalledWriteVoid(live: map<Cell, Word>, recs: seq<Record>, flags: seq<Word>, L: seq<nat>, c: Cell)
    requires Committable(recs, flags, live, L) && c in live
    requires forall k :: 0 <= k < |L| && recs[L[k]].target == At(c) ==> Stalled(recs[L[k]], flags)
    ensures Commit(live, recs, flags, L)[c] == live[c]
    ensures forall x :: x in Kept(false, recs, flags, L) ==> recs[x].target != At(c)
  {
    CommitFrame(live, recs, flags, L, c);
    forall x | x in Kept(false, recs, flags, L)
      ensures recs[x].target != At(c)
    {
      var k :| 0 <= k < |L| && L[k] == x;
    }
  }

  /**
   * With DEBUG1 a stalled record stays in the list and is still compared:
   * a stalled write of a value other than the cell's committed one makes
   * the check fail although no two live writes collided.
   */
  lemma DebugCheckSeesStalled(live: map<Cell, Word>, recs: seq<Record>, flags: seq<Word>,
                              L: seq<nat>, noPipeline: bool, pcCell: Cell, i: nat)
    requires Committable(recs, flags, live, L)
    requires i < |L| && Checked(recs[L[i]], noPipeline, pcCell) && Stalled(recs[L[i]], flags)
    requires Commit(live, recs, flags, L)[recs[L[i]].target.cell] != recs[L[i]].val
    ensures !AliasFree(Commit(live, recs, flags, L), recs, Kept(true, recs, flags, L), noPipeline, pcCell)
  {
  }

  // ---------------------------------------------------------------------
  // The meaning of a seek

  /** Engine position after a seek: live state, head, cycle and status. */
  datatype Pos = Pos(live: map<Cell, Word>, head: nat, cycle: int, status: Status)

  /**
   * Forward seek from head h at cycle cyc: replay successors' new values,
   * counting a cycle each time the next record starts a later cycle (or
   * there is none), until the target cycle; running out is tolerable.
   */
  ghost function SeekForward(live: map<Cell, Word>, recs: seq<Record>, flags: seq<Word>, h: nat, cyc: int, target: int): (p: Pos)
    requires Arena(recs, flags, live) && h < |recs|
    ensures p.head < |recs| && p.live.Keys == live.Keys
    ensures p.status == Done || p.status == Tolerable
    ensures p.status == Tolerable ==> p.cycle < target && recs[p.head].next == -1
    ensures cyc <= target && p.status == Done ==> p.cycle == target
    decreases |recs| - h
  {
    assert RecOk(recs, flags, live, h);
    if target <= cyc then Pos(live, h, cyc, Done)
    else if recs[h].next == -1 then Pos(live, h, cyc, Tolerable)
    else
      var n := recs[h].next;
      assert RecOk(recs, flags, live, n);
      var r := recs[n];
      assert r.next != -1 ==> RecOk(recs, flags, live, r.next);
      var cyc' := if r.next == -1 || recs[r.next].cycle > r.cycle then cyc + 1 else cyc;
      ArenaWider(recs, flags, live, flags, live[r.target.cell := r.val]);
      SeekForward(live[r.target.cell := r.val], recs, flags, n, cyc', target)
  }

  /**
   * Backward seek from head h: restore each head's replaced value and step
   * to its predecessor while the head's cycle is later than the target.  A
   * head whose cycle crossed an I/O barrier stops the walk where it is
   * (tolerable); running past the sentinel is an assertion failure.
   */
  ghost function SeekBackward(live: map<Cell, Word>, recs: seq<Record>, flags: seq<Word>, h: nat, target: int): (p: Pos)
    requires Arena(recs, flags, live) && h < |recs|
    ensures p.head <= h && p.live.Keys == live.Keys && RecOk(recs, flags, live, p.head)
    ensures p.cycle == recs[p.head].cycle
    ensures p.status == Done ==> recs[p.head].cycle <= target
    ensures p.status == Tolerable ==> flags[recs[p.head].flags] & IO_BARRIER != 0 && recs[p.head].cycle > target
    ensures p.status.Fatal? ==> p.head == 0 && p.status == Fatal(Abort)
    decreases h
  {
    var r := recs[h];
    assert RecOk(recs, flags, live, h);
    if r.cycle <= target then Pos(live, h, r.cycle, Done)
    else if flags[r.flags] & IO_BARRIER != 0 then Pos(live, h, r.cycle, Tolerable)
    else if r.prev == -1 then Pos(live, h, r.cycle, Fatal(Abort))
    else
      ArenaWider(recs, flags, live, flags, live[r.target.cell := r.prevVal]);
      SeekBackward(live[r.target.cell := r.prevVal], recs, flags, r.prev, target)
  }

  lemma ArenaSetNext(recs: seq<Record>, flags: seq<Word>, live: map<Cell, Word>, i: nat, n: int)
    requires Arena(recs, flags, live) && i < |recs| && (n == -1 || i < n < |recs|)
    ensures Arena(recs[i := recs[i].(next := n)], flags, live)
  {
    var recs' := recs[i := recs[i].(next := n)];
    forall j | 0 <= j < |recs'|
      ensures RecOk(recs', flags, live, j)
    {
      assert RecOk(recs, flags, live, j);
    }
  }

  lemma ArenaSetPrev(recs: seq<Record>, flags: seq<Word>, live: map<Cell, Word>, i: nat, p: int)
    requires Arena(recs, flags, live) && 0 < i < |recs| && 0 <= p < i
    ensures Arena(recs[i := recs[i].(prev := p)], flags, live)
  {
    var recs' := recs[i := recs[i].(prev := p)];
    forall j | 0 <= j < |recs'|
      ensures RecOk(recs', flags, live, j)
    {
      assert RecOk(recs, flags, live, j);
    }
  }

  lemma ArenaAppend(recs: seq<Record>, flags: seq<Word>, live: map<Cell, Word>, r: Record)
    requires Arena(recs, flags, live)
    requires r.next == -1 && 0 <= r.prev < |recs| && r.flags < |flags| && r.target.At? && r.target.cell in live
    ensures Arena(recs + [r], flags, live)
  {
    var recs' := recs + [r];
    forall j | 0 <= j < |recs'|
      ensures RecOk(recs', flags, live, j)
    {
      if j < |recs| {
        assert RecOk(recs, flags, live, j);
      }
    }
  }

  lemma ArenaWider(recs: seq<Record>, flags: seq<Word>, live: map<Cell, Word>, flags': seq<Word>, live': map<Cell, Word>)
    requires Arena(recs, flags, live) && |flags| <= |flags'| && live.Keys <= live'.Keys
    ensures Arena(recs, flags', live')
  {
    forall j | 0 <= j < |recs|
      ensures RecOk(recs, flags', live', j)
    {
      assert RecOk(recs, flags, live, j);
    }
  }

  /** Appending a record after the last element of a chain extends the chain. */
  lemma ChainAppend(recs: seq<Record>, a: nat, L: seq<nat>, r: Record)
    requires Chain(recs, a, L) && Last(a, L) < |recs| && r.prev == Last(a, L) && r.next == -1
    ensures Chain(recs[Last(a, L) := recs[Last(a, L)].(next := |recs|)] + [r], a, L + [|recs|])
  {
    var n := |recs|;
    var recs' := recs[Last(a, L) := recs[Last(a, L)].(next := n)] + [r];
    var L' := L + [n];
    if L != [] {
      ChainIncreasing(recs, a, L, -1, |L| - 1);
    }
    forall k | 0 <= k < |L'|
      ensures ChainLink(recs', a, L', k)
    {
      if k < |L| {
        assert ChainLink(recs, a, L, k);
        if k < |L| - 1 {
          ChainIncreasing(recs, a, L, k, |L| - 1);
        }
      }
    }
  }

  // ---------------------------------------------------------------------
  // Unlinking stalled records (release build)

  /** Every element of L names a record with a flags word. */
  ghost predicate Indexed(recs: seq<Record>, flags: seq<Word>, L: seq<nat>)
  {
    forall k :: 0 <= k < |L| ==> L[k] < |recs| && recs[L[k]].flags < |flags|
  }

  /** Kept grows by the next record exactly when that record is not stalled. */
  lemma KeptStep(debug1: bool, recs: seq<Record>, flags: seq<Word>, P: seq<nat>, k: nat)
    requires Indexed(recs, flags, P) && k < |P|
    ensures Kept(debug1, recs, flags, P[..k + 1]) ==
      Kept(debug1, recs, flags, P[..k]) + (if debug1 || !Stalled(recs[P[k]], flags) then [P[k]] else [])
  {
    assert P[..k + 1][..k] == P[..k];
  }

  /** A record without its links. */
  function Payload(r: Record): Record
  {
    r.(prev := -1, next := -1)
  }

  /**
   * The list after the commit walk has visited the first k records of P
   * (the records that hung off anchor a in recs0) and kept K of them: the
   * kept and the unvisited records form the anchor's chain, nothing but
   * links changed, records outside the cycle are untouched, and each
   * visited record that was not kept keeps its old successor and has as
   * predecessor the anchor or a kept record before it.
   */
  ghost predicate Unlinked(recs0: seq<Record>, recs: seq<Record>, a: nat, P: seq<nat>, k: nat, K: seq<nat>)
    requires k <= |P|
  {
    && |recs| == |recs0|
    && Chain(recs, a, K + P[k..])
    && |K| <= k && (forall y :: y in K ==> y in P)
    && (forall i :: 0 <= i < |recs| ==> Payload(recs[i]) == Payload(recs0[i]))
    && (forall i :: 0 <= i < |recs| && i != a && i !in P ==> recs[i] == recs0[i])
    && recs[a].prev == recs0[a].prev
    && (forall j :: 0 <= j < k && P[j] !in K ==> Removed(recs0, recs, a, K, P[j]))
  }

  /** Record x, taken out of the list, kept its successor and points back into it. */
  ghost predicate Removed(recs0: seq<Record>, recs: seq<Record>, a: nat, K: seq<nat>, x: nat)
  {
    && x < |recs| && x < |recs0|
    && recs[x].next == recs0[x].next
    && 0 <= recs[x].prev < x
    && (recs[x].prev == a || recs[x].prev in K)
  }

  /** The elements of a chain are distinct and all lie after the anchor. */
  lemma ChainDistinct(recs: seq<Record>, a: nat, L: seq<nat>)
    requires Chain(recs, a, L)
    ensures forall i, j :: 0 <= i < j < |L| ==> L[i] < L[j]
    ensures forall i :: 0 <= i < |L| ==> a < L[i]
  {
    forall i, j | 0 <= i < j < |L|
      ensures L[i] < L[j]
    {
      ChainIncreasing(recs, a, L, i, j);
    }
    forall i | 0 <= i < |L|
      ensures a < L[i]
    {
      ChainIncreasing(recs, a, L, -1, i);
    }
  }

  /** recs with p and n joined: p's successor becomes n and, when n is a record, n's predecessor p. */
  function Join(recs: seq<Record>, p: nat, n: int): (r: seq<Record>)
    requires p < |recs| && -1 <= n < |recs|
    ensures |r| == |recs| && r[p].next == n && (n != -1 && n != p ==> r[n].prev == p)
    ensures forall i :: 0 <= i < |r| && i != p && i != n ==> r[i] == recs[i]
    ensures forall i :: 0 <= i < |r| ==> Payload(r[i]) == Payload(recs[i])
  {
    var r1 := recs[p := recs[p].(next := n)];
    if n == -1 then r1 else r1[n := r1[n].(prev := p)]
  }

  /** Taking element pos out of a chain and joining its neighbours leaves a chain. */
  lemma ChainRemove(recs: seq<Record>, a: nat, L: seq<nat>, pos: nat)
    requires Chain(recs, a, L) && pos < |L|
    ensures PrevOf(a, L, pos) < |recs| && -1 <= NextOf(L, pos) < |recs|
    ensures Chain(Join(recs, PrevOf(a, L, pos), NextOf(L, pos)), a, L[..pos] + L[pos + 1..])
  {
    ChainDistinct(recs, a, L);
    assert ChainLink(recs, a, L, pos);
    var p := PrevOf(a, L, pos);
    var n := NextOf(L, pos);
    if n != -1 {
      assert ChainLink(recs, a, L, pos + 1);
    }
    var r2 := Join(recs, p, n);
    var L' := L[..pos] + L[pos + 1..];
    assert |L'| == |L| - 1;
    forall k | 0 <= k < |L'|
      ensures ChainLink(r2, a, L', k)
    {
      if k < pos {
        assert L'[k] == L[k];
        assert ChainLink(recs, a, L, k);
        assert PrevOf(a, L', k) == PrevOf(a, L, k);
        if k + 1 < pos {
          assert NextOf(L', k) == NextOf(L, k);
        } else {
          assert NextOf(L', k) == n;
        }
      } else {
        assert L'[k] == L[k + 1];
        assert ChainLink(recs, a, L, k + 1);
        assert NextOf(L', k) == NextOf(L, k + 1);
        if k == pos {
          assert PrevOf(a, L', k) == p;
        } else {
          assert PrevOf(a, L', k) == PrevOf(a, L, k + 1);
        }
      }
    }
    if pos == 0 {
      assert NextOf(L', -1) == n;
    } else {
      assert NextOf(L', -1) == NextOf(L, -1);
    }
  }

  /** Before the walk nothing is unlinked. */
  lemma UnlinkStart(recs0: seq<Record>, a: nat, P: seq<nat>)
    requires Chain(recs0, a, P)
    ensures Unlinked(recs0, recs0, a, P, 0, [])
  {
    assert [] + P[0..] == P;
  }

  /** Keeping the next record changes no link. */
  lemma KeepStep(recs0: seq<Record>, recs: seq<Record>, a: nat, P: seq<nat>, k: nat, K: seq<nat>)
    requires k < |P| && Unlinked(recs0, recs, a, P, k, K)
    ensures Unlinked(recs0, recs, a, P, k + 1, K + [P[k]])
  {
    assert K + P[k..] == (K + [P[k]]) + P[k + 1..];
    forall j | 0 <= j < k + 1 && P[j] !in K + [P[k]]
      ensures Removed(recs0, recs, a, K + [P[k]], P[j])
    {
      assert P[j] !in K;
      assert Removed(recs0, recs, a, K, P[j]);
    }
  }

  /** Dropping the next record unlinks it: its predecessor and successor are joined. */
  lemma UnlinkStep(recs0: seq<Record>, recs: seq<Record>, a: nat, P: seq<nat>, k: nat, K: seq<nat>)
    requires Chain(recs0, a, P) && k < |P| && Unlinked(recs0, recs, a, P, k, K)
    ensures P[k] < |recs| && 0 <= recs[P[k]].prev < |recs| && -1 <= recs[P[k]].next < |recs|
    ensures recs[P[k]].prev == Last(a, K) && recs[P[k]].next == NextOf(P, k)
    ensures Unlinked(recs0, Join(recs, recs[P[k]].prev, recs[P[k]].next), a, P, k + 1, K)
  {
    var L := K + P[k..];
    var pos := |K|;
    var x := P[k];
    assert L[pos] == x;
    assert ChainLink(recs, a, L, pos);
    ChainDistinct(recs0, a, P);
    ChainDistinct(recs, a, L);
    assert ChainLink(recs0, a, P, k);
    assert NextOf(L, pos) == NextOf(P, k);
    assert PrevOf(a, L, pos) == Last(a, K);
    ChainRemove(recs, a, L, pos);
    var p := PrevOf(a, L, pos);
    var n := NextOf(L, pos);
    var r2 := Join(recs, p, n);
    assert L[..pos] + L[pos + 1..] == K + P[k + 1..];
    assert p == a || p in K;
    assert forall y :: y in K ==> y < x;
    assert n == -1 || n == P[k + 1];
    UnlinkKeepsOthers(recs0, recs, a, P, k, K, p, n, r2);
  }

  lemma UnlinkKeepsOthers(recs0: seq<Record>, recs: seq<Record>, a: nat, P: seq<nat>, k: nat, K: seq<nat>,
                          p: nat, n: int, r2: seq<Record>)
    requires Chain(recs0, a, P) && k < |P| && Unlinked(recs0, recs, a, P, k, K)
    requires forall i, j :: 0 <= i < j < |P| ==> P[i] < P[j]
    requires forall i :: 0 <= i < |P| ==> a < P[i]
    requires forall y :: y in K ==> y < P[k]
    requires p < |recs| && -1 <= n < |recs| && r2 == Join(recs, p, n)
    requires p == a || p in K
    requires n == -1 || (k + 1 < |P| && n == P[k + 1])
    requires P[k] < |recs| && recs[P[k]].prev == p && recs[P[k]].next == NextOf(P, k)
    requires ChainLink(recs0, a, P, k)
    requires Chain(r2, a, K + P[k + 1..])
    ensures Unlinked(recs0, r2, a, P, k + 1, K)
  {
    var x := P[k];
    assert x != p && x != n;
    forall i | 0 <= i < |r2| && i != a && i !in P
      ensures r2[i] == recs0[i]
    {
      assert i != p;
    }
    forall j | 0 <= j < k + 1 && P[j] !in K
      ensures Removed(recs0, r2, a, K, P[j])
    {
      if j < k {
        assert Removed(recs0, recs, a, K, P[j]);
        assert P[j] != p && P[j] != n;
      } else {
        assert r2[x] == recs[x];
      }
    }
  }

  /** The last record of P is the last of the chain, or was unlinked with no successor. */
  lemma UnlinkedHeadNext(recs0: seq<Record>, recs: seq<Record>, a: nat, P: seq<nat>, K: seq<nat>)
    requires Chain(recs0, a, P) && Unlinked(recs0, recs, a, P, |P|, K)
    ensures Last(a, P) < |recs| && recs[Last(a, P)].next == -1
  {
    assert K + P[|P|..] == K;
    if P == [] {
      assert |K| <= 0;
    } else {
      var x := P[|P| - 1];
      assert ChainLink(recs0, a, P, |P| - 1);
      if x in K {
        ChainDistinct(recs, a, K);
        var m :| 0 <= m < |K| && K[m] == x;
        if m + 1 < |K| {
          assert K[m + 1] in P;
          ChainDistinct(recs0, a, P);
          assert false;
        }
        assert ChainLink(recs, a, K, m);
      } else {
        assert Removed(recs0, recs, a, K, P[|P| - 1]);
      }
    }
  }

  /** After the walk the arena is still well linked. */
  lemma UnlinkedArena(recs0: seq<Record>, recs: seq<Record>, flags: seq<Word>, live: map<Cell, Word>,
                      a: nat, P: seq<nat>, K: seq<nat>)
    requires Arena(recs0, flags, live) && Chain(recs0, a, P) && Unlinked(recs0, recs, a, P, |P|, K)
    ensures Arena(recs, flags, live)
  {
    assert K + P[|P|..] == K;
    forall i | 0 <= i < |recs|
      ensures RecOk(recs, flags, live, i)
    {
      assert RecOk(recs0, flags, live, i);
      assert Payload(recs[i]) == Payload(recs0[i]);
      if i == a {
        KeptLinkOk(recs, a, K, -1);
      } else if i in K {
        var m :| 0 <= m < |K| && K[m] == i;
        KeptLinkOk(recs, a, K, m);
      } else if i in P {
        var j :| 0 <= j < |P| && P[j] == i;
        assert Removed(recs0, recs, a, K, P[j]);
      }
    }
  }

  /** The anchor and every element of a chain satisfy the arena's link rule. */
  lemma KeptLinkOk(recs: seq<Record>, a: nat, K: seq<nat>, m: int)
    requires Chain(recs, a, K) && -1 <= m < |K|
    requires m == -1 ==> a == 0 ==> recs[a].prev == -1
    requires m == -1 ==> a > 0 ==> 0 <= recs[a].prev < a
    ensures m == -1 ==> LinkOk(recs, a)
    ensures m >= 0 ==> K[m] < |recs| && LinkOk(recs, K[m])
  {
    if m + 1 < |K| {
      assert ChainLink(recs, a, K, m + 1);
      ChainIncreasing(recs, a, K, m, m + 1);
    }
    if m >= 0 {
      assert ChainLink(recs, a, K, m);
      ChainIncreasing(recs, a, K, -1, m);
      if m > 0 {
        ChainIncreasing(recs, a, K, -1, m - 1);
      }
    }
  }

  // ---------------------------------------------------------------------
  // The engine's globals and their invariant

  /**
   * The engine's globals: the live cells, the record arena, the flags
   * words, `state_flags_cur`, `state_head`, `cycle_head` (-1 for NULL),
   * `cycle` and `state_pipeline_new_pc`, plus the ids of the records
   * written since `cycle_head` was anchored (`pending`).
   */
  datatype EngineState = EngineState(live: map<Cell, Word>, recs: seq<Record>, flags: seq<Word>,
                                     cur: nat, head: nat, cycleHead: int, cycle: int, flushPc: Word,
                                     pending: seq<nat>)

  /** A state after a step, and how the step ended. */
  datatype Step = Step(state: EngineState, status: Status)

  /** The records since the anchor a form a chain ending at the head, all of the running cycle. */
  ghost predicate PendingChain(recs: seq<Record>, a: nat, P: seq<nat>, head: nat, cycle: int)
  {
    && Chain(recs, a, P)
    && head == Last(a, P)
    && forall k :: 0 <= k < |P| ==> P[k] < |recs| && recs[P[k]].cycle == cycle
  }

  /** The engine invariant. */
  ghost predicate Inv(s: EngineState)
  {
    && Arena(s.recs, s.flags, s.live)
    && s.head < |s.recs| && s.cur < |s.flags|
    && -1 <= s.cycleHead < |s.recs|
    && (s.cycleHead == -1 ==> s.pending == [])
    && (s.cycleHead != -1 ==> PendingChain(s.recs, s.cycleHead, s.pending, s.head, s.cycle))
  }

  /** More flags words or more cells keep the invariant. */
  lemma InvWider(s: EngineState, flags: seq<Word>, live: map<Cell, Word>)
    requires Inv(s) && |s.flags| <= |flags| && s.live.Keys <= live.Keys
    ensures Inv(s.(flags := flags, live := live))
  {
    ArenaWider(s.recs, s.flags, s.live, flags, live);
  }

  /** Appending a record of the running cycle after the head keeps the invariant. */
  lemma AppendKeepsInv(s: EngineState, r: Record, live: map<Cell, Word>)
    requires Inv(s)
    requires r.prev == s.head && r.next == -1 && r.cycle == s.cycle && r.flags < |s.flags|
    requires r.target.At? && r.target.cell in s.live && live.Keys == s.live.Keys
    ensures Inv(s.(recs := s.recs[s.head := s.recs[s.head].(next := |s.recs|)] + [r], head := |s.recs|, live := live,
                   pending := if s.cycleHead == -1 then [] else s.pending + [|s.recs|]))
  {
    var n := |s.recs|;
    var rs := s.recs[s.head := s.recs[s.head].(next := n)] + [r];
    ArenaAppend(s.recs, s.flags, s.live, r);
    ArenaSetNext(s.recs + [r], s.flags, s.live, s.head, n);
    assert rs == (s.recs + [r])[s.head := s.recs[s.head].(next := n)];
    ArenaWider(rs, s.flags, s.live, s.flags, live);
    if s.cycleHead != -1 {
      ChainAppend(s.recs, s.cycleHead, s.pending, r);
      var P := s.pending + [n];
      forall k | 0 <= k < |P|
        ensures rs[P[k]].cycle == s.cycle
      {
        if k < |s.pending| {
          assert rs[P[k]].cycle == s.recs[s.pending[k]].cycle;
        }
      }
    }
  }

  // ---------------------------------------------------------------------
  // The commit walk of `_state_tock`, one record at a time

  /**
   * The walk has visited the first k records of P (hanging off anchor a in
   * recs0): the cells hold the commit of those records, K are the visited
   * records still listed, the list is unchanged (DEBUG1) or has lost the
   * stalled ones (release), and the check anchor `orig` is the first record
   * still listed after a.
   */
  ghost predicate Walked(debug1: bool, recs0: seq<Record>, flags: seq<Word>, live0: map<Cell, Word>,
                         a: nat, P: seq<nat>, k: nat, K: seq<nat>, recs: seq<Record>, live: map<Cell, Word>, orig: int)
    requires Committable(recs0, flags, live0, P) && Indexed(recs0, flags, P) && k <= |P|
  {
    && live == Commit(live0, recs0, flags, P[..k])
    && K == Kept(debug1, recs0, flags, P[..k])
    && (debug1 ==> recs == recs0)
    && (!debug1 ==> Unlinked(recs0, recs, a, P, k, K))
    && orig == NextOf(K + P[k..], -1)
  }
}
