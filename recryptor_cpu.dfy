/**
 * The recryptor decoder of the CPU tree (simulator/cpu/recryptor/recryptor.c,
 * `recryptor_decoder_wr`): the control word decodes as in the work-in-progress
 * decoder, the bank value picks a block length, and the first `block` words of
 * C become A xor B for XR and a copy of A for every other op.
 */
module RecryptorCpu {
  import opened StateLog
  import opened RecryptorControl

  /**
   * The `switch (bank)`: 8 words for bank 1, 10 for bank 3, 14 for bank 7.
   * The case label 0x15 is twenty-one, which a 4-bit field never holds, so
   * every other bank, 0xF included, gives 0.
   */
  function Block(bank: int): (n: nat)
    ensures n <= 16
  {
    if bank == 0x1 then 8 else if bank == 0x3 then 8 + 2
    else if bank == 0x7 then 8 + 2 + 4 else if bank == 0x15 then 16 else 0
  }

  /** Which bank values process words, and how many: all 16 is out of reach of a 4-bit bank. */
  lemma BlockCases(bank: int)
    requires 0 <= bank < 0x10
    ensures Block(bank) > 0 <==> bank == 1 || bank == 3 || bank == 7
    ensures Block(bank) < 16
    ensures Block(0xF) == 0 && Block(BANK) == 8
  {
  }

  /** The word written at offset i: `dataA ^ dataB` for XR, `dataA` for any other op. */
  ghost function Out(m: map<int, Word>, c: Control, i: nat): (w: Word)
    ensures var a, b := Rd(m, Base(c.idA) + 4 * i), Rd(m, Base(c.idB) + 4 * i);
      && (c.op == Code(XR) ==> w ^ b == a)
      && (c.op != Code(XR) ==> w == a)
  {
    var a := Rd(m, Base(c.idA) + 4 * i);
    if c.op == Code(XR) then Xor(a, Rd(m, Base(c.idB) + 4 * i)) else a
  }

  /** The memory after the first n iterations, starting from m. */
  ghost function Written(m: map<int, Word>, c: Control, n: nat): map<int, Word>
  {
    if n == 0 then m else Written(m, c, n - 1)[Base(c.idC) + 4 * (n - 1) := Out(m, c, n - 1)]
  }

  /** The memory after `recryptor_decoder_wr` with control word c on memory m. */
  ghost function Result(m: map<int, Word>, c: Control): map<int, Word>
  {
    Written(m, c, Block(c.bank))
  }

  /** The A and B words at offset n have not been overwritten by the iterations before n. */
  lemma {:induction false} Untouched(m: map<int, Word>, c: Control, n: nat, j: nat, id: int)
    requires j <= n < 16 && (id == c.idA || id == c.idB)
    ensures Rd(Written(m, c, j), Base(id) + 4 * n) == Rd(m, Base(id) + 4 * n)
  {
    if j > 0 {
      Untouched(m, c, n, j - 1, id);
      Apart(id, c.idC, n, j - 1);
    }
  }

  /** One iteration: with A and B read from the memory after i iterations, the write gives the memory after i + 1. */
  lemma LoopStep(m: map<int, Word>, c: Control, i: nat, mem: map<int, Word>, a: Word, b: Word)
    requires i < 16 && mem == Written(m, c, i)
    requires a == Rd(mem, Base(c.idA) + 4 * i) && b == Rd(mem, Base(c.idB) + 4 * i)
    ensures mem[Base(c.idC) + 4 * i := if c.op == Code(XR) then Xor(a, b) else a] == Written(m, c, i + 1)
  {
    Untouched(m, c, i, i, c.idA);
    Untouched(m, c, i, i, c.idB);
  }

  /** Every word the first n iterations write holds its output. */
  lemma {:induction false} WrittenWords(m: map<int, Word>, c: Control, n: nat, i: nat)
    requires i < n <= 16
    ensures Rd(Written(m, c, n), Base(c.idC) + 4 * i) == Out(m, c, i)
  {
    if i < n - 1 {
      WrittenWords(m, c, n - 1, i);
      Apart(c.idC, c.idC, i, n - 1);
    }
  }

  /** Every address outside C[0..n) keeps its value. */
  lemma {:induction false} Frame(m: map<int, Word>, c: Control, n: nat, a: int)
    requires forall i :: 0 <= i < n ==> a != Base(c.idC) + 4 * i
    ensures Rd(Written(m, c, n), a) == Rd(m, a)
  {
    if n > 0 {
      Frame(m, c, n - 1, a);
    }
  }

  /**
   * The decoder's result, word by word: C[i] for i below the block length
   * holds A[i] ^ B[i] (XR) or A[i] (any other op); every other address keeps its value.
   */
  lemma ResultWords(m: map<int, Word>, c: Control, a: int)
    ensures forall i :: 0 <= i < Block(c.bank) ==> Rd(Result(m, c), Base(c.idC) + 4 * i) == Out(m, c, i)
    ensures (forall i :: 0 <= i < Block(c.bank) ==> a != Base(c.idC) + 4 * i) ==> Rd(Result(m, c), a) == Rd(m, a)
  {
    forall i | 0 <= i < Block(c.bank) ensures Rd(Result(m, c), Base(c.idC) + 4 * i) == Out(m, c, i) {
      WrittenWords(m, c, Block(c.bank), i);
    }
    if forall i :: 0 <= i < Block(c.bank) ==> a != Base(c.idC) + 4 * i {
      Frame(m, c, Block(c.bank), a);
    }
  }

  /** With bank 0xF the decoder writes nothing. */
  lemma FullBankUnchanged(m: map<int, Word>, c: Control)
    requires c.bank == 0xF
    ensures Result(m, c) == m
  {
  }

  /** `recryptor_decoder_wr(addr, val, debugger)`: the address and the debugger flag are not read. */
  method DecoderWr(memory: WordMemory, val: U32)
    modifies memory
    ensures memory.mem == Result(old(memory.mem), Decode(val))
  {
    var c := Decode(val);
    var block := Block(c.bank);
    Run(memory, c, block);
  }

  /** The loop over the block. */
  method Run(memory: WordMemory, c: Control, block: nat)
    requires block <= 16
    modifies memory
    ensures memory.mem == Written(old(memory.mem), c, block)
  {
    ghost var m := memory.mem;
    var i := 0;
    while i < block
      invariant 0 <= i <= block
      invariant memory.mem == Written(m, c, i)
    {
      var dataA := memory.ReadWord(Base(c.idA) + i * 4);
      var dataB := memory.ReadWord(Base(c.idB) + i * 4);
      var dataC: Word;
      if c.op == Code(XR) {
        dataC := Xor(dataA, dataB);
      } else {
        dataC := dataA;
      }
      LoopStep(m, c, i, memory.mem, dataA, dataB);
      memory.WriteWord(Base(c.idC) + i * 4, dataC);
      i := i + 1;
    }
  }
}
