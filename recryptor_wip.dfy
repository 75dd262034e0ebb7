/**
 * The work-in-progress recryptor decoder (simulator/WIP/recryptor.c,
 * `recryptor_decoder_wr`): the 16 words of an operand are split into four
 * sub-bank groups of 8, 2, 4 and 2 words; each group whose bit is set in the
 * bank mask is processed word by word, A and B in, C out, with multiword
 * shifts carrying bits from one processed word to the next.
 */
module RecryptorWip {
  import opened StateLog
  import opened RecryptorControl

  const NUM_SUBBANK: seq<nat> := [8, 2, 4, 2]
  const NUM_PREVTOT_SUBBANK: seq<nat> := [0, 8, 10, 14]
  /** `1 << b` for the four groups. */
  const BIT: seq<nat> := [1, 2, 4, 8]

  /** The sum of the first n entries of s. */
  function SumTo(s: seq<nat>, n: nat): nat
    requires n <= |s|
  {
    if n == 0 then 0 else SumTo(s, n - 1) + s[n - 1]
  }

  /** NUM_PREVTOT_SUBBANK is the running total of NUM_SUBBANK, which adds up to 16 words. */
  lemma PrefixSums()
    ensures forall b :: 0 <= b < 4 ==> NUM_PREVTOT_SUBBANK[b] == SumTo(NUM_SUBBANK, b)
    ensures SumTo(NUM_SUBBANK, 4) == 16
  {
    assert SumTo(NUM_SUBBANK, 1) == 8 && SumTo(NUM_SUBBANK, 2) == 10 && SumTo(NUM_SUBBANK, 3) == 14;
  }

  /** `bank & (1 << b)`. */
  predicate Selected(bank: int, b: nat)
    requires 0 <= bank && b < 4
  {
    (bank / BIT[b]) % 2 == 1
  }

  /** The word offsets of sub-bank group b, in the order the inner loop visits them. */
  function Group(b: nat): (g: seq<nat>)
    requires b < 4
    ensures |g| == NUM_SUBBANK[b]
    ensures forall i :: 0 <= i < |g| ==> g[i] == NUM_PREVTOT_SUBBANK[b] + i
  {
    seq(NUM_SUBBANK[b], i => NUM_PREVTOT_SUBBANK[b] + i)
  }

  /** Appending a strictly increasing run between lo and hi keeps a sequence ordered below hi. */
  lemma OrderedAppend(s: seq<nat>, t: seq<nat>, lo: nat, hi: nat)
    requires Ordered(s, lo) && Ordered(t, hi) && lo <= hi
    requires forall i :: 0 <= i < |t| ==> lo <= t[i]
    ensures Ordered(s + t, hi)
  {
    var u := s + t;
    forall i, j | 0 <= i < j < |u| ensures u[i] < u[j] {
      if j < |s| {
      } else if i >= |s| {
        assert u[i] == t[i - |s|] && u[j] == t[j - |s|];
      } else {
        assert u[i] == s[i] && u[j] == t[j - |s|];
      }
    }
  }

  /** The word offsets processed by the first n iterations of the group loop, in order. */
  function Offsets(bank: int, n: nat): seq<nat>
    requires 0 <= bank && n <= 4
  {
    if n == 0 then [] else Offsets(bank, n - 1) + (if Selected(bank, n - 1) then Group(n - 1) else [])
  }

  /** Strictly increasing, every element below bound. */
  ghost predicate Ordered(offs: seq<nat>, bound: nat)
  {
    && (forall i, j :: 0 <= i < j < |offs| ==> offs[i] < offs[j])
    && (forall i :: 0 <= i < |offs| ==> offs[i] < bound)
  }

  /** The processed offsets increase strictly (so none is visited twice) and stay below 16. */
  lemma {:induction false} OffsetsOrdered(bank: int, n: nat)
    requires 0 <= bank && n <= 4
    ensures Ordered(Offsets(bank, n), if n < 4 then NUM_PREVTOT_SUBBANK[n] else 16)
  {
    if n > 0 {
      OffsetsOrdered(bank, n - 1);
      var hi := if n < 4 then NUM_PREVTOT_SUBBANK[n] else 16;
      var g := if Selected(bank, n - 1) then Group(n - 1) else [];
      assert Ordered(g, hi);
      OrderedAppend(Offsets(bank, n - 1), g, NUM_PREVTOT_SUBBANK[n - 1], hi);
    }
  }

  /** The group a word offset belongs to. */
  function GroupOf(o: nat): (b: nat)
    requires o < 16
    ensures b < 4 && NUM_PREVTOT_SUBBANK[b] <= o < NUM_PREVTOT_SUBBANK[b] + NUM_SUBBANK[b]
  {
    if o < 8 then 0 else if o < 10 then 1 else if o < 14 then 2 else 3
  }

  /** An offset is processed exactly when it is one of the 16 and its group's bit is set. */
  lemma OffsetsExactly(bank: int, o: nat)
    requires 0 <= bank
    ensures o in Offsets(bank, 4) <==> o < 16 && Selected(bank, GroupOf(o))
  {
    assert Offsets(bank, 4) == Offsets(bank, 3) + (if Selected(bank, 3) then Group(3) else []);
    assert Offsets(bank, 3) == Offsets(bank, 2) + (if Selected(bank, 2) then Group(2) else []);
    assert Offsets(bank, 2) == Offsets(bank, 1) + (if Selected(bank, 1) then Group(1) else []);
    assert Offsets(bank, 1) == [] + (if Selected(bank, 0) then Group(0) else []);
    if o < 16 && Selected(bank, GroupOf(o)) {
      var b := GroupOf(o);
      assert Group(b)[o - NUM_PREVTOT_SUBBANK[b]] == o;
    }
  }

  /** Bank 0xF visits each of the 16 words once, in address order. */
  lemma FullBank()
    ensures Offsets(0xF, 4) == seq(16, i => i)
  {
    assert Offsets(0xF, 4) == Group(0) + Group(1) + Group(2) + Group(3);
  }

  /** BANK = 1 visits group 0 only: the first 8 words. */
  lemma BankOne()
    ensures Offsets(BANK, 4) == seq(8, i => i)
  {
    assert Offsets(BANK, 4) == Group(0);
  }

  // ------------------------------------------------------------ word ops

  /** The value written for one word: the `switch (op)`, with carry the bits kept from the previous word. */
  function WordOp(op: int, a: Word, b: Word, carry: Word): Word
  {
    if op == Code(AN) then And(a, b)
    else if op == Code(OR) then Or(a, b)
    else if op == Code(XR) then Xor(a, b)
    else if op == Code(CP) then a
    else if op == Code(NOT) then Not(a)
    else if op == Code(SF1) then ShiftIn1(a, carry)
    else if op == Code(SF4) then ShiftIn4(a, carry)
    else a
  }

  /** Each opcode selects its own word operation; `CP` and every unknown code copy the A word. */
  lemma WordOpCases(op: int, a: Word, b: Word, carry: Word)
    ensures var c := WordOp(op, a, b, carry);
      && (op == Code(AN) ==> c == And(a, b))
      && (op == Code(OR) ==> c == Or(a, b))
      && (op == Code(XR) ==> c == Xor(a, b))
      && (op == Code(NOT) ==> c == Not(a))
      && (op == Code(SF1) ==> c == ShiftIn1(a, carry))
      && (op == Code(SF4) ==> c == ShiftIn4(a, carry))
      && (op !in {Code(AN), Code(OR), Code(XR), Code(NOT), Code(SF1), Code(SF4)} ==> c == a)
  {
  }

  /** `a << 1 | carry`: a moved up one bit, with a one-bit carry below it. */
  function ShiftIn1(a: Word, carry: Word): (c: Word)
    ensures carry <= 0x1 ==> c >> 1 == a & 0x7FFF_FFFF && c & 0x1 == carry
  {
    (a << 1) | carry
  }

  /** `a << 4 | carry`: a moved up four bits, with a four-bit carry below it. */
  function ShiftIn4(a: Word, carry: Word): (c: Word)
    ensures carry <= 0xF ==> c >> 4 == a & 0x0FFF_FFFF && c & 0xF == carry
  {
    (a << 4) | carry
  }

  /** The top bit and the top four bits of a, moved to the bottom. */
  function Top1(a: Word): Word { (a >> 31) & 0x1 }
  function Top4(a: Word): Word { (a >> 28) & 0xF }

  /** The bits a word passes to the next: sh1 for SF1, sh4 for SF4, nothing for the other ops. */
  function CarryOut(op: int, a: Word): (c: Word)
  {
    if op == Code(SF1) then Top1(a) else if op == Code(SF4) then Top4(a) else 0
  }

  /** Two words side by side, hi above lo. */
  function Concat(hi: Word, lo: Word): bv64
  {
    ((hi as bv64) << 32) | (lo as bv64)
  }

  /** Shifting two words left by one as one number moves the top bit of lo into hi. */
  lemma ShiftConcat1(hi: Word, lo: Word, t: Word)
    requires t <= 0x1
    ensures (Concat(hi, lo) << 1) | (t as bv64) == Concat((hi << 1) | (lo >> 31), (lo << 1) | t)
  {
  }

  /** Shifting two words left by four as one number moves the top four bits of lo into hi. */
  lemma ShiftConcat4(hi: Word, lo: Word, t: Word)
    requires t <= 0xF
    ensures (Concat(hi, lo) << 4) | (t as bv64) == Concat((hi << 4) | (lo >> 28), (lo << 4) | t)
  {
  }

  /** The other ops combine A and B bit by bit, so no carry reaches them. */
  lemma NoCarryOutsideShifts(op: int, a: Word)
    requires op != Code(SF1) && op != Code(SF4)
    ensures CarryOut(op, a) == 0
  {
  }

  // --------------------------------------------------------- whole call

  /** Whether the call processes word offset o: the bit of o's group is set in the bank mask. */
  predicate Processed(bank: int, o: nat)
    requires 0 <= bank && o < 16
  {
    Selected(bank, GroupOf(o))
  }

  /** The first offset of group b, and 16 past the last group. */
  function Start(b: nat): (o: nat)
    requires b <= 4
    ensures o <= 16 && (b < 4 ==> o == NUM_PREVTOT_SUBBANK[b] && o + NUM_SUBBANK[b] == if b == 3 then 16 else NUM_PREVTOT_SUBBANK[b + 1])
  {
    if b == 0 then 0 else if b == 1 then 8 else if b == 2 then 10 else if b == 3 then 14 else 16
  }

  /** The carry into offset o: the bits passed on by the last processed word below o, or 0 when there is none. */
  ghost function CarryIn(m: map<int, Word>, c: Control, o: nat): Word
    requires WellDecoded(c) && o <= 16
  {
    if o == 0 then 0
    else if Processed(c.bank, o - 1) then CarryOut(c.op, Rd(m, Base(c.idA) + 4 * (o - 1)))
    else CarryIn(m, c, o - 1)
  }

  /** The word written at offset o, with A and B read from m. */
  ghost function OutAt(m: map<int, Word>, c: Control, o: nat): Word
    requires WellDecoded(c) && o < 16
  {
    WordOp(c.op, Rd(m, Base(c.idA) + 4 * o), Rd(m, Base(c.idB) + 4 * o), CarryIn(m, c, o))
  }

  /** The memory once the offsets below n have been dealt with in increasing order, starting from m. */
  ghost function Partial(m: map<int, Word>, c: Control, n: nat): map<int, Word>
    requires WellDecoded(c) && n <= 16
  {
    if n == 0 then m
    else if Processed(c.bank, n - 1) then Partial(m, c, n - 1)[Base(c.idC) + 4 * (n - 1) := OutAt(m, c, n - 1)]
    else Partial(m, c, n - 1)
  }

  /** The memory after `recryptor_decoder_wr` with control word c on memory m. */
  ghost function Result(m: map<int, Word>, c: Control): map<int, Word>
    requires WellDecoded(c)
  {
    Partial(m, c, 16)
  }

  /**
   * One iteration of the inner loop: with A and B read from the memory
   * after the offsets below o, the word written and the carry passed on are
   * those of offset o.
   */
  lemma LoopStep(m: map<int, Word>, c: Control, o: nat, mem: map<int, Word>)
    requires WellDecoded(c) && o < 16 && Processed(c.bank, o) && mem == Partial(m, c, o)
    ensures mem[Base(c.idC) + 4 * o := WordOp(c.op, Rd(mem, Base(c.idA) + 4 * o), Rd(mem, Base(c.idB) + 4 * o), CarryIn(m, c, o))]
      == Partial(m, c, o + 1)
    ensures CarryOut(c.op, Rd(mem, Base(c.idA) + 4 * o)) == CarryIn(m, c, o + 1)
  {
    Untouched(m, c, o, o, c.idA);
    Untouched(m, c, o, o, c.idB);
  }

  /** A group whose bit is clear changes neither the memory nor the carry. */
  lemma SkipGroup(m: map<int, Word>, c: Control, b: nat)
    requires WellDecoded(c) && b < 4 && !Selected(c.bank, b)
    ensures Partial(m, c, Start(b + 1)) == Partial(m, c, Start(b))
    ensures CarryIn(m, c, Start(b + 1)) == CarryIn(m, c, Start(b))
  {
    Skip(m, c, Start(b), Start(b + 1));
  }

  /** Offsets lo .. n - 1 that are all unprocessed change neither the memory nor the carry. */
  lemma {:induction false} Skip(m: map<int, Word>, c: Control, lo: nat, n: nat)
    requires WellDecoded(c) && lo <= n <= 16 && forall o :: lo <= o < n ==> !Processed(c.bank, o)
    ensures Partial(m, c, n) == Partial(m, c, lo) && CarryIn(m, c, n) == CarryIn(m, c, lo)
  {
    if lo < n {
      Skip(m, c, lo, n - 1);
    }
  }

  /**
   * No word still to be read has been written: the A and B words at offset
   * o still hold their values from before the call once the offsets below
   * n <= o are done.
   */
  lemma {:induction false} Untouched(m: map<int, Word>, c: Control, n: nat, o: nat, id: int)
    requires WellDecoded(c) && n <= o < 16 && (id == c.idA || id == c.idB)
    ensures Rd(Partial(m, c, n), Base(id) + 4 * o) == Rd(m, Base(id) + 4 * o)
  {
    if n > 0 {
      Untouched(m, c, n - 1, o, id);
      Apart(id, c.idC, o, n - 1);
    }
  }

  /** Every processed word ends up at its C address holding its output. */
  lemma {:induction false} Written(m: map<int, Word>, c: Control, n: nat, o: nat)
    requires WellDecoded(c) && o < n <= 16 && Processed(c.bank, o)
    ensures Rd(Partial(m, c, n), Base(c.idC) + 4 * o) == OutAt(m, c, o)
  {
    if o < n - 1 {
      Written(m, c, n - 1, o);
      Apart(c.idC, c.idC, o, n - 1);
    }
  }

  /** Every address that is not the C address of a processed offset keeps its value. */
  lemma {:induction false} Frame(m: map<int, Word>, c: Control, n: nat, a: int)
    requires WellDecoded(c) && n <= 16
    requires forall o :: 0 <= o < n && Processed(c.bank, o) ==> a != Base(c.idC) + 4 * o
    ensures Rd(Partial(m, c, n), a) == Rd(m, a)
  {
    if n > 0 {
      Frame(m, c, n - 1, a);
    }
  }

  /**
   * The decoder's result, word by word: each processed offset's output at
   * its C address, the old value at every other address.
   */
  lemma ResultWords(m: map<int, Word>, c: Control, a: int)
    requires WellDecoded(c)
    ensures forall o :: 0 <= o < 16 && Processed(c.bank, o) ==> Rd(Result(m, c), Base(c.idC) + 4 * o) == OutAt(m, c, o)
    ensures (forall o :: 0 <= o < 16 && Processed(c.bank, o) ==> a != Base(c.idC) + 4 * o) ==> Rd(Result(m, c), a) == Rd(m, a)
  {
    forall o | 0 <= o < 16 && Processed(c.bank, o)
      ensures Rd(Result(m, c), Base(c.idC) + 4 * o) == OutAt(m, c, o)
    {
      Written(m, c, 16, o);
    }
    if forall o :: 0 <= o < 16 && Processed(c.bank, o) ==> a != Base(c.idC) + 4 * o {
      Frame(m, c, 16, a);
    }
  }

  /** The carry into any offset is a word's top bit under SF1 and its top four bits under SF4. */
  lemma {:induction false} CarryBound(m: map<int, Word>, c: Control, o: nat)
    requires WellDecoded(c) && o <= 16
    ensures c.op == Code(SF1) ==> CarryIn(m, c, o) <= 0x1
    ensures c.op == Code(SF4) ==> CarryIn(m, c, o) <= 0xF
  {
    if o > 0 && !Processed(c.bank, o - 1) {
      CarryBound(m, c, o - 1);
    }
  }

  /**
   * SF1 over the whole call: when offsets o - 1 and o are both processed,
   * the top bit of A's word at o - 1 enters the bottom of the output at o,
   * so the two outputs are A's two words shifted left by one as one number
   * (ShiftConcat1), filled from the carry into o - 1.
   */
  lemma CarriedShift1(m: map<int, Word>, c: Control, o: nat)
    requires WellDecoded(c) && 0 < o < 16 && Processed(c.bank, o - 1) && Processed(c.bank, o) && c.op == Code(SF1)
    ensures OutAt(m, c, o) == (Rd(m, Base(c.idA) + 4 * o) << 1) | (Rd(m, Base(c.idA) + 4 * (o - 1)) >> 31)
    ensures OutAt(m, c, o - 1) == (Rd(m, Base(c.idA) + 4 * (o - 1)) << 1) | CarryIn(m, c, o - 1)
    ensures CarryIn(m, c, o - 1) <= 0x1
  {
    CarryBound(m, c, o - 1);
    assert CarryIn(m, c, o) == Top1(Rd(m, Base(c.idA) + 4 * (o - 1)));
  }

  /** SF4 over the whole call, as CarriedShift1 with four bits. */
  lemma CarriedShift4(m: map<int, Word>, c: Control, o: nat)
    requires WellDecoded(c) && 0 < o < 16 && Processed(c.bank, o - 1) && Processed(c.bank, o) && c.op == Code(SF4)
    ensures OutAt(m, c, o) == (Rd(m, Base(c.idA) + 4 * o) << 4) | (Rd(m, Base(c.idA) + 4 * (o - 1)) >> 28)
    ensures OutAt(m, c, o - 1) == (Rd(m, Base(c.idA) + 4 * (o - 1)) << 4) | CarryIn(m, c, o - 1)
    ensures CarryIn(m, c, o - 1) <= 0xF
  {
    CarryBound(m, c, o - 1);
  }

  class Wip {
    const memory: WordMemory
    /** `recryptor_cnt`: the number of decoder calls. */
    var count: int

    constructor (memory: WordMemory)
      ensures this.memory == memory && count == 0
    {
      this.memory := memory;
      count := 0;
    }

    /**
     * `recryptor_decoder_wr`. The trace line indexes `OpNames[op - 1]`,
     * so an op field of 0 reads before the name table.
     */
    method DecoderWr(val: U32)
      requires Decode(val).op >= 1
      modifies this, memory
      ensures memory.mem == Result(old(memory.mem), Decode(val))
      ensures count == old(count) + 1
    {
      var c := Decode(val);
      Execute(c);
      count := count + 1;
    }

    /** The loops of `recryptor_decoder_wr` over the groups of a decoded control word. */
    method Execute(c: Control)
      requires WellDecoded(c)
      modifies memory
      ensures memory.mem == Result(old(memory.mem), c)
    {
      ghost var m := memory.mem;
      var carry: Word := 0;
      var b := 0;
      while b < 4
        invariant 0 <= b <= 4
        invariant memory.mem == Partial(m, c, Start(b)) && carry == CarryIn(m, c, Start(b))
      {
        if Selected(c.bank, b) {
          carry := ProcessGroup(c, b, carry, m);
        } else {
          SkipGroup(m, c, b);
        }
        b := b + 1;
      }
    }

    /** The inner loop over the sub-banks of a selected group b. */
    method ProcessGroup(c: Control, b: nat, carry: Word, ghost m: map<int, Word>) returns (carry': Word)
      requires WellDecoded(c) && b < 4 && Selected(c.bank, b)
      requires memory.mem == Partial(m, c, Start(b)) && carry == CarryIn(m, c, Start(b))
      modifies memory
      ensures memory.mem == Partial(m, c, Start(b + 1)) && carry' == CarryIn(m, c, Start(b + 1))
    {
      var lo := NUM_PREVTOT_SUBBANK[b];
      carry' := carry;
      var subb := 0;
      while subb < NUM_SUBBANK[b]
        invariant 0 <= subb <= NUM_SUBBANK[b]
        invariant memory.mem == Partial(m, c, lo + subb) && carry' == CarryIn(m, c, lo + subb)
      {
        var o := subb + lo;
        assert GroupOf(o) == b;
        LoopStep(m, c, o, memory.mem);
        carry' := Step(c, o, carry');
        subb := subb + 1;
      }
    }

    /** One sub-bank: A and B read, the op applied, C written; the A word's carry returned. */
    method Step(c: Control, o: nat, carry: Word) returns (carry': Word)
      requires WellDecoded(c) && o < 16
      modifies memory
      ensures memory.mem == old(memory.mem)[Base(c.idC) + 4 * o :=
        WordOp(c.op, Rd(old(memory.mem), Base(c.idA) + 4 * o), Rd(old(memory.mem), Base(c.idB) + 4 * o), carry)]
      ensures carry' == CarryOut(c.op, Rd(old(memory.mem), Base(c.idA) + 4 * o))
    {
      var dataA := memory.ReadWord(Base(c.idA) + 4 * o);
      var dataB := memory.ReadWord(Base(c.idB) + 4 * o);
      var dataC := WordOp(c.op, dataA, dataB, carry);
      memory.WriteWord(Base(c.idC) + 4 * o, dataC);
      carry' := CarryOut(c.op, dataA);
    }
  }
}
