/**
 * The registries the instruction modules and the peripherals fill at start
 * up (simulator/core/simulator.c): the opcode-mask list `ops`, to which
 * every instruction implementation adds its (ones, zeros) masks and the
 * exception pairs that rule out encodings belonging to another
 * instruction, and the peripheral printer and thread lists.
 *
 * A function pointer is modelled by a number that identifies it, 0 standing
 * for NULL.
 */
module CoreRegistry {
  import opened StateLog

  /** An (ones, zeros) mask pair; (0, 0) ends an exception list. */
  datatype MaskPair = MaskPair(ones: Word, zeros: Word)

  const END: MaskPair := MaskPair(0, 0)

  /** The top half of a 32-bit instruction word. */
  const TOP_HALF: Word := 0xffff_0000

  /** `struct op` without its links and name: the masks, the width, the handler and the exception masks. */
  datatype Op = Op(ones: Word, zeros: Word, is16: bool, fn: nat, exOnes: seq<Word>, exZeros: seq<Word>)

  /** What a registration call ends in: the running count, or one of the two fatal outcomes. */
  datatype Registration = Registered(count: int) | BadOpcode | AssertFailed

  /**
   * The exception pairs `_register_opcode_mask` takes from its variable
   * arguments: every pair before the first (0, 0).
   */
  function Exceptions(args: seq<MaskPair>): (ex: seq<MaskPair>)
    requires END in args
    ensures |ex| < |args| && ex == args[..|ex|] && args[|ex|] == END
    ensures END !in ex
  {
    if args[0] == END then [] else [args[0]] + Exceptions(args[1..])
  }

  /** The exception pairs ex stored as the two arrays `ex_ones` and `ex_zeros`. */
  ghost predicate Split(ex: seq<MaskPair>, ones: seq<Word>, zeros: seq<Word>)
  {
    |ones| == |ex| && |zeros| == |ex| && forall k :: 0 <= k < |ex| ==> ex[k] == MaskPair(ones[k], zeros[k])
  }

  /** The collecting loop of `_register_opcode_mask`: `ex_cnt` pairs, in argument order, up to the first (0, 0). */
  method CollectExceptions(args: seq<MaskPair>) returns (exOnes: seq<Word>, exZeros: seq<Word>)
    requires END in args
    ensures Split(Exceptions(args), exOnes, exZeros)
  {
    ghost var ex := Exceptions(args);
    forall k | 0 <= k < |ex|
      ensures args[k] != END
    {
      assert args[k] == ex[k];
    }
    exOnes, exZeros := [], [];
    var i := 0;
    while args[i] != END
      invariant i <= |ex| && |exOnes| == i && |exZeros| == i
      invariant forall k :: 0 <= k < i ==> ex[k] == MaskPair(exOnes[k], exZeros[k])
      decreases |ex| - i
    {
      exOnes := exOnes + [args[i].ones];
      exZeros := exZeros + [args[i].zeros];
      i := i + 1;
    }
  }

  /** An entry registered with exactly these masks (exception pairs are not compared). */
  predicate SameMasks(o: Op, ones: Word, zeros: Word)
  {
    o.ones == ones && o.zeros == zeros
  }

  /** The mask rule of each width: a 16-bit entry demands zeros in the whole top half, a 32-bit one somewhere in it. */
  predicate WellFormed(o: Op)
  {
    && (o.is16 ==> o.zeros & TOP_HALF == TOP_HALF)
    && (!o.is16 ==> o.zeros & TOP_HALF != 0)
    && |o.exOnes| == |o.exZeros|
  }

  /** No two entries carry the same (ones, zeros) pair. */
  ghost predicate Distinct(ops: seq<Op>)
  {
    forall i, j :: 0 <= i < j < |ops| ==> !SameMasks(ops[j], ops[i].ones, ops[i].zeros)
  }

  class OpcodeRegistry {
    /** The list `ops`, head first: the newest registration comes first. */
    var ops: seq<Op>
    /** `opcode_masks`, the number of registrations so far. */
    var count: int

    ghost predicate Valid()
      reads this
    {
      count == |ops| && Distinct(ops) && forall i :: 0 <= i < |ops| ==> WellFormed(ops[i])
    }

    /** The empty list before any instruction module registers. */
    constructor ()
      ensures Valid() && ops == [] && count == 0
    {
      ops, count := [], 0;
    }

    /**
     * The search of `register_opcode_mask_ex`: the first entry, from the
     * head, with the same masks, or -1 when there is none.
     */
    method FindDuplicate(ones: Word, zeros: Word) returns (idx: int)
      ensures -1 <= idx < |ops|
      ensures idx == -1 <==> forall i :: 0 <= i < |ops| ==> !SameMasks(ops[i], ones, zeros)
      ensures idx != -1 ==> SameMasks(ops[idx], ones, zeros)
      ensures forall i :: 0 <= i < idx ==> !SameMasks(ops[i], ones, zeros)
    {
      var i := 0;
      while i < |ops|
        invariant 0 <= i <= |ops|
        invariant forall k :: 0 <= k < i ==> !SameMasks(ops[k], ones, zeros)
      {
        if SameMasks(ops[i], ones, zeros) {
          return i;
        }
        i := i + 1;
      }
      idx := -1;
    }

    /**
     * `_register_opcode_mask`: a new entry with the collected exception
     * pairs goes to the head of the list, and the count it returns is the
     * new number of registrations.
     */
    method Prepend(ones: Word, zeros: Word, is16: bool, fn: nat, args: seq<MaskPair>) returns (n: int)
      requires Valid() && END in args
      requires WellFormed(Op(ones, zeros, is16, fn, [], []))
      requires forall i :: 0 <= i < |ops| ==> !SameMasks(ops[i], ones, zeros)
      modifies this
      ensures Valid()
      ensures |ops| == |old(ops)| + 1 && ops[1..] == old(ops)
      ensures ops[0].ones == ones && ops[0].zeros == zeros && ops[0].is16 == is16 && ops[0].fn == fn
      ensures Split(Exceptions(args), ops[0].exOnes, ops[0].exZeros)
      ensures n == count == old(count) + 1
    {
      var exOnes, exZeros := CollectExceptions(args);
      var o := Op(ones, zeros, is16, fn, exOnes, exZeros);
      ops := [o] + ops;
      count := count + 1;
      n := count;
    }

    /**
     * `register_opcode_mask_ex`: a 16-bit entry whose zeros mask leaves
     * part of the top half open fails the assertion; a pair already in the
     * list is the fatal E_BAD_OPCODE fault; anything else is prepended.
     * The requires is what its only caller for 32-bit entries has checked.
     */
    method RegisterEx(ones: Word, zeros: Word, is16: bool, fn: nat, args: seq<MaskPair>) returns (r: Registration)
      requires Valid() && END in args
      requires !is16 ==> zeros & TOP_HALF != 0
      modifies this
      ensures Valid()
      ensures is16 && zeros & TOP_HALF != TOP_HALF ==> r == AssertFailed
      ensures r == AssertFailed ==> is16 && zeros & TOP_HALF != TOP_HALF
      ensures !r.Registered? ==> ops == old(ops) && count == old(count)
      ensures r == BadOpcode <==>
        (!is16 || zeros & TOP_HALF == TOP_HALF) && exists i :: 0 <= i < |old(ops)| && SameMasks(old(ops)[i], ones, zeros)
      ensures r.Registered? ==>
        && r.count == count == old(count) + 1
        && ops[1..] == old(ops) && Split(Exceptions(args), ops[0].exOnes, ops[0].exZeros)
        && ops[0].ones == ones && ops[0].zeros == zeros && ops[0].is16 == is16 && ops[0].fn == fn
    {
      if is16 && zeros & TOP_HALF != TOP_HALF {
        return AssertFailed;
      }
      var idx := FindDuplicate(ones, zeros);
      if idx != -1 {
        return BadOpcode;
      }
      var n := Prepend(ones, zeros, is16, fn, args);
      r := Registered(n);
    }

    /**
     * `register_opcode_mask_16_ex_real`: the 16-bit masks widened, the top
     * half added to the zeros mask, so the assertion always holds.
     */
    method Register16Ex(ones: bv16, zeros: bv16, fn: nat, args: seq<MaskPair>) returns (r: Registration)
      requires Valid() && END in args
      modifies this
      ensures Valid() && r != AssertFailed
      ensures !r.Registered? ==> ops == old(ops) && count == old(count)
      ensures r == BadOpcode <==>
        exists i :: 0 <= i < |old(ops)| && SameMasks(old(ops)[i], ones as Word, TOP_HALF | zeros as Word)
      ensures r.Registered? ==>
        && r.count == count == old(count) + 1
        && ops[1..] == old(ops) && Split(Exceptions(args), ops[0].exOnes, ops[0].exZeros)
        && ops[0] == Op(ones as Word, TOP_HALF | zeros as Word, true, fn, ops[0].exOnes, ops[0].exZeros)
    {
      TopHalfSet(zeros as Word);
      r := RegisterEx(ones as Word, TOP_HALF | zeros as Word, true, fn, args);
    }

    /** `register_opcode_mask_16_real`: no exception pairs. */
    method Register16(ones: bv16, zeros: bv16, fn: nat) returns (r: Registration)
      requires Valid()
      modifies this
      ensures Valid() && r != AssertFailed
      ensures !r.Registered? ==> ops == old(ops) && count == old(count)
      ensures r == BadOpcode <==>
        exists i :: 0 <= i < |old(ops)| && SameMasks(old(ops)[i], ones as Word, TOP_HALF | zeros as Word)
      ensures r.Registered? ==>
        && r.count == count == old(count) + 1
        && ops == [Op(ones as Word, TOP_HALF | zeros as Word, true, fn, [], [])] + old(ops)
    {
      r := Register16Ex(ones, zeros, fn, [END]);
      if r.Registered? {
        assert ops == [ops[0]] + ops[1..];
      }
    }

    /**
     * `register_opcode_mask_32_ex_real`: a zeros mask that demands nothing
     * of the top half belongs to a 16-bit instruction and is the fatal
     * E_BAD_OPCODE fault; otherwise as `register_opcode_mask_ex`.
     */
    method Register32Ex(ones: Word, zeros: Word, fn: nat, args: seq<MaskPair>) returns (r: Registration)
      requires Valid() && END in args
      modifies this
      ensures Valid() && r != AssertFailed
      ensures !r.Registered? ==> ops == old(ops) && count == old(count)
      ensures r == BadOpcode <==>
        zeros & TOP_HALF == 0 || exists i :: 0 <= i < |old(ops)| && SameMasks(old(ops)[i], ones, zeros)
      ensures r.Registered? ==>
        && r.count == count == old(count) + 1
        && ops[1..] == old(ops) && Split(Exceptions(args), ops[0].exOnes, ops[0].exZeros)
        && ops[0] == Op(ones, zeros, false, fn, ops[0].exOnes, ops[0].exZeros)
    {
      if zeros & TOP_HALF == 0 {
        return BadOpcode;
      }
      r := RegisterEx(ones, zeros, false, fn, args);
    }

    /** `register_opcode_mask_32_real`: no exception pairs. */
    method Register32(ones: Word, zeros: Word, fn: nat) returns (r: Registration)
      requires Valid()
      modifies this
      ensures Valid() && r != AssertFailed
      ensures !r.Registered? ==> ops == old(ops) && count == old(count)
      ensures r == BadOpcode <==>
        zeros & TOP_HALF == 0 || exists i :: 0 <= i < |old(ops)| && SameMasks(old(ops)[i], ones, zeros)
      ensures r.Registered? ==>
        && r.count == count == old(count) + 1
        && ops == [Op(ones, zeros, false, fn, [], [])] + old(ops)
    {
      r := Register32Ex(ones, zeros, fn, [END]);
      if r.Registered? {
        assert ops == [ops[0]] + ops[1..];
      }
    }
  }

  /** The zeros mask `0xffff0000 | zeros` of a 16-bit registration passes the 16-bit assertion. */
  lemma TopHalfSet(zeros: Word)
    ensures (TOP_HALF | zeros) & TOP_HALF == TOP_HALF
  {
  }

  /** In a valid list no two entries carry a given pair, so the duplicate search has one answer. */
  lemma AtMostOneEntry(ops: seq<Op>, ones: Word, zeros: Word, i: int, j: int)
    requires Distinct(ops) && 0 <= i < |ops| && 0 <= j < |ops| && i != j
    ensures !(SameMasks(ops[i], ones, zeros) && SameMasks(ops[j], ones, zeros))
  {
    if i < j {
      assert !SameMasks(ops[j], ops[i].ones, ops[i].zeros);
    } else if j < i {
      assert !SameMasks(ops[i], ops[j].ones, ops[j].zeros);
    }
  }

  /** A peripheral list entry: the printer or thread function and, for a thread, its enable flag. */
  datatype Periph = Periph(fn: nat, en: nat)

  /**
   * `periph_printers` or `periph_threads`: a static head entry followed by
   * heap nodes. nodes[0] is the static entry and next[k] the index of the
   * node after nodes[k], -1 for NULL.
   */
  class PeriphList {
    var nodes: seq<Periph>
    var next: seq<int>

    /** The chain from the head visits the nodes in index order; the head is empty only while nothing is registered. */
    ghost predicate Valid()
      reads this
    {
      && 1 <= |nodes| && |next| == |nodes|
      && (forall k :: 0 <= k < |next| - 1 ==> next[k] == k + 1)
      && next[|next| - 1] == -1
      && (nodes[0].fn == 0 ==> |nodes| == 1)
      && (forall k :: 1 <= k < |nodes| ==> nodes[k].fn != 0)
    }

    /** The registered entries, in the order the list holds them. */
    ghost function Entries(): seq<Periph>
      reads this
      requires Valid()
    {
      if nodes[0].fn == 0 then [] else nodes
    }

    /** The zero-initialised static head and nothing after it. */
    constructor ()
      ensures Valid() && Entries() == []
    {
      nodes, next := [Periph(0, 0)], [-1];
    }

    /**
     * `register_periph_thread`: an empty static head takes the entry;
     * otherwise the walk to the last node and a new node after it.
     */
    method Register(fn: nat, en: nat)
      requires Valid() && fn != 0
      modifies this
      ensures Valid() && Entries() == old(Entries()) + [Periph(fn, en)]
    {
      if nodes[0].fn == 0 {
        nodes := nodes[0 := Periph(fn, en)];
        return;
      }
      var cur := 0;
      while next[cur] != -1
        invariant 0 <= cur < |nodes|
        decreases |nodes| - cur
      {
        cur := next[cur];
      }
      next := next[cur := |nodes|] + [-1];
      nodes := nodes + [Periph(fn, en)];
    }

    /** `register_periph_printer`: the same list shape, without an enable flag. */
    method RegisterPrinter(fn: nat)
      requires Valid() && fn != 0
      modifies this
      ensures Valid() && Entries() == old(Entries()) + [Periph(fn, 0)]
    {
      Register(fn, 0);
    }

    /**
     * The walk of `print_periphs` (and of the thread start and join loops):
     * every node from the static head on. With nothing registered it visits
     * the empty head itself.
     */
    method Visit() returns (order: seq<Periph>)
      requires Valid()
      ensures Entries() != [] ==> order == Entries()
      ensures Entries() == [] ==> order == [Periph(0, nodes[0].en)]
    {
      var cur := 0;
      order := [];
      while cur != -1
        invariant -1 <= cur < |nodes|
        invariant cur == -1 ==> order == nodes
        invariant cur != -1 ==> order == nodes[..cur]
        decreases if cur == -1 then 0 else |nodes| - cur
      {
        order := order + [nodes[cur]];
        cur := next[cur];
      }
    }
  }
}
