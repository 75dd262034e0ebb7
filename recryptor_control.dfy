/**
 * The in-memory-compute ("recryptor") interface of recryptor.h and the
 * control word both decoders read: the operation enumeration, the
 * hardware operand addresses and their 7-bit ids, the BANK and RELIC
 * field-size constants, the decoding of the control word, and the word
 * memory the decoders read and write through read_word/write_word.
 */
module RecryptorControl {
  import opened StateLog

  /** `recryptor_op`, numbered from AN = 1. */
  datatype Op = AN | OR | XR | CP | NOT | SF1 | SF4 | LS64 | RS64 | ROTL64 | XROTX | KEY | SS | MC | InvalidOp

  datatype OptOp = NoOp | SomeOp(op: Op)

  /** The enumerator's value. Every one fits the 4-bit op field of the control word. */
  function Code(o: Op): (n: int)
    ensures 1 <= n <= 15
  {
    match o
    case AN => 1 case OR => 2 case XR => 3 case CP => 4 case NOT => 5
    case SF1 => 6 case SF4 => 7 case LS64 => 8 case RS64 => 9 case ROTL64 => 10
    case XROTX => 11 case KEY => 12 case SS => 13 case MC => 14 case InvalidOp => 15
  }

  /** The enumerator with value n, if there is one. */
  function OpOf(n: int): OptOp
  {
    if n == 1 then SomeOp(AN) else if n == 2 then SomeOp(OR) else if n == 3 then SomeOp(XR)
    else if n == 4 then SomeOp(CP) else if n == 5 then SomeOp(NOT) else if n == 6 then SomeOp(SF1)
    else if n == 7 then SomeOp(SF4) else if n == 8 then SomeOp(LS64) else if n == 9 then SomeOp(RS64)
    else if n == 10 then SomeOp(ROTL64) else if n == 11 then SomeOp(XROTX) else if n == 12 then SomeOp(KEY)
    else if n == 13 then SomeOp(SS) else if n == 14 then SomeOp(MC) else if n == 15 then SomeOp(InvalidOp)
    else NoOp
  }

  /** The values are consecutive: every value from 1 to 15 names exactly one operation, and no other value does. */
  lemma OpsConsecutive(o: Op, n: int)
    ensures OpOf(Code(o)) == SomeOp(o)
    ensures OpOf(n).SomeOp? <==> 1 <= n <= 15
    ensures OpOf(n).SomeOp? ==> Code(OpOf(n).op) == n
  {
  }

  // ------------------------------------------------------------ addresses

  /** A 32-bit unsigned value, as a number. */
  type U32 = x: int | 0 <= x < 0x1_0000_0000

  const ADDR_A: U32 := 0x5500
  const ADDR_B: U32 := 0x5600
  const ADDR_C: U32 := 0x5700
  const ADDR_T: U32 := 0x5800
  const ADDR_IR: U32 := 0x6800
  const ADDR_IR_T: U32 := 0x6900

  /** The IDR* macros: `(addr >> 8) & 0x7F`. */
  function IdOf(addr: U32): (id: int)
    ensures 0 <= id < 128
  {
    (addr / 0x100) % 0x80
  }

  /** The base address of the operand with a given id, as the decoders rebuild it: `id << 8`. */
  function Base(id: int): int
  {
    id * 0x100
  }

  /** Every hardware operand address survives the trip through its id and back. */
  lemma AddressesRoundTrip()
    ensures Base(IdOf(ADDR_A)) == ADDR_A && Base(IdOf(ADDR_B)) == ADDR_B
    ensures Base(IdOf(ADDR_C)) == ADDR_C && Base(IdOf(ADDR_T)) == ADDR_T
    ensures Base(IdOf(ADDR_IR)) == ADDR_IR && Base(IdOf(ADDR_IR_T)) == ADDR_IR_T
  {
  }

  /** Words of two operands never meet unless operand and offset agree: an operand spans 64 of its 256 bytes. */
  lemma Apart(x: int, y: int, i: nat, j: nat)
    requires i < 16 && j < 16 && (x != y || i != j)
    ensures Base(x) + 4 * i != Base(y) + 4 * j
  {
    if x < y {
      assert Base(y) - Base(x) >= 0x100;
    } else if y < x {
      assert Base(x) - Base(y) >= 0x100;
    }
  }

  /** `BANK`: the bank mask the firmware uses. */
  const BANK: int := 1

  // ------------------------------------------------------ field constants

  const FB_POLYN: int := 233
  const DIGIT: int := 32

  /** FB_DIGS as the macro computes it: the quotient, plus one when there is a remainder. */
  function Digs(bits: nat, digit: nat): (d: nat)
    requires digit > 0
  {
    bits / digit + (if bits % digit > 0 then 1 else 0)
  }

  /** FB_DIGS is the least number of digits that holds the given number of bits. */
  lemma DigsIsCeiling(bits: nat, digit: nat)
    requires digit > 0 && bits > 0
    ensures digit * (Digs(bits, digit) - 1) < bits <= digit * Digs(bits, digit)
  {
    var q, r := bits / digit, bits % digit;
    assert bits == digit * q + r;
    if r > 0 {
      assert digit * (q + 1) == digit * q + digit;
    } else {
      assert q > 0;
      assert digit * (q - 1) == digit * q - digit;
    }
  }

  /** For the 233-bit field on 32-bit digits: 8 digits, 9 bits used in the last one. */
  lemma FieldConstants()
    ensures Digs(FB_POLYN, DIGIT) == 8 && FB_POLYN % DIGIT == 9
    ensures DIGIT * 7 < FB_POLYN <= DIGIT * 8
  {
    DigsIsCeiling(FB_POLYN, DIGIT);
  }

  // --------------------------------------------------------- control word

  /** The fields of a control word: three 7-bit operand ids, the op value and the bank mask. */
  datatype Control = Control(idA: int, idB: int, idC: int, op: int, bank: int)

  /** What every decoded control word satisfies. */
  predicate WellDecoded(c: Control)
  {
    && 0 <= c.idA < 0x80 && 0 <= c.idB < 0x80 && 0 <= c.idC < 0x80
    && 0 <= c.op < 0x10 && 0 <= c.bank < 0x10
  }

  /**
   * The decoders' reading of the written value: operand ids from bits 0-6,
   * 8-14 and 16-22 (each turned into the base address `id << 8`), op from
   * bits 24-27, bank from bits 28-31; bit 23 is not read.
   */
  function Decode(val: U32): (c: Control)
    ensures WellDecoded(c)
  {
    Control(val % 0x80, (val / 0x100) % 0x80, (val / 0x1_0000) % 0x80,
            (val / 0x100_0000) % 0x10, (val / 0x1000_0000) % 0x10)
  }

  /** The firmware's encoding: `Idra + (Idrb<<8) + (Idrc<<16) + (1<<23) + (op<<24) + (bank<<28)`. */
  function Encode(ida: int, idb: int, idc: int, op: int, bank: int): (val: U32)
    requires 0 <= ida < 0x80 && 0 <= idb < 0x80 && 0 <= idc < 0x80 && 0 <= op < 0x10 && 0 <= bank < 0x10
    ensures (val / 0x80_0000) % 2 == 1
  {
    var low := ida + idb * 0x100 + idc * 0x1_0000;
    assert low < 0x80_0000;
    assert (low + 0x80_0000 + (op + bank * 0x10) * 0x100_0000) / 0x80_0000 == 1 + 2 * (op + bank * 0x10);
    ida + idb * 0x100 + idc * 0x1_0000 + 0x80_0000 + op * 0x100_0000 + bank * 0x1000_0000
  }

  /** Decoding an encoded word gives back the ids, the op and the bank. */
  lemma DecodeEncode(ida: int, idb: int, idc: int, op: int, bank: int)
    requires 0 <= ida < 0x80 && 0 <= idb < 0x80 && 0 <= idc < 0x80 && 0 <= op < 0x10 && 0 <= bank < 0x10
    ensures Decode(Encode(ida, idb, idc, op, bank)) == Control(ida, idb, idc, op, bank)
  {
    var v := Encode(ida, idb, idc, op, bank);
    var t := bank * 0x10 + op;
    Field7(v, ida, idb * 2 + idc * 0x200 + 0x1_0000 + t * 0x2_0000);
    assert v / 0x100 == idb + idc * 0x100 + 0x8000 + t * 0x1_0000;
    Field7(v / 0x100, idb, idc * 2 + 0x100 + t * 0x200);
    assert v / 0x1_0000 == idc + 0x80 + t * 0x100;
    Field7(v / 0x1_0000, idc, 1 + t * 2);
    assert v / 0x100_0000 == t && v / 0x1000_0000 == bank;
  }

  /** A number built as lo + 0x80 * hi, with lo a 7-bit value, has lo in its low 7 bits. */
  lemma Field7(v: int, lo: int, hi: int)
    requires 0 <= lo < 0x80 && v == lo + 0x80 * hi
    ensures v % 0x80 == lo
  {
  }

  /** Setting or clearing bit 23 does not change the decoding. */
  lemma Bit23Ignored(val: U32)
    requires (val / 0x80_0000) % 2 == 0
    ensures Decode(val + 0x80_0000) == Decode(val)
  {
    IdsBelowBit23(val);
    FieldsAboveBit23(val);
  }

  /** Adding bit 23 leaves the three 7-bit id fields below it alone. */
  lemma IdsBelowBit23(val: nat)
    ensures (val + 0x80_0000) % 0x80 == val % 0x80
    ensures ((val + 0x80_0000) / 0x100) % 0x80 == (val / 0x100) % 0x80
    ensures ((val + 0x80_0000) / 0x1_0000) % 0x80 == (val / 0x1_0000) % 0x80
  {
    assert (val + 0x80_0000) / 0x100 == val / 0x100 + 0x8000;
    assert (val + 0x80_0000) / 0x1_0000 == val / 0x1_0000 + 0x80;
  }

  /** Adding bit 23 when it is clear carries nothing into the op and bank fields above it. */
  lemma FieldsAboveBit23(val: nat)
    requires (val / 0x80_0000) % 2 == 0
    ensures (val + 0x80_0000) / 0x100_0000 == val / 0x100_0000
    ensures (val + 0x80_0000) / 0x1000_0000 == val / 0x1000_0000
  {
    var p, r := val / 0x100_0000, val % 0x100_0000;
    assert val / 0x80_0000 == 2 * p + r / 0x80_0000;
    assert r < 0x80_0000;
    assert val + 0x80_0000 == p * 0x100_0000 + (r + 0x80_0000);
  }

  // ----------------------------------------------------------- word ops

  /** The bitwise operations of the decoders' `switch (op)`: AN keeps only bits set in both words. */
  function And(a: Word, b: Word): (c: Word)
    ensures c | a == a && c | b == b
  {
    a & b
  }

  /** OR keeps every bit set in either word. */
  function Or(a: Word, b: Word): (c: Word)
    ensures c & a == a && c & b == b
  {
    a | b
  }

  /** XR is undone by a second XR with the same word. */
  function Xor(a: Word, b: Word): (c: Word)
    ensures c ^ b == a
  {
    a ^ b
  }

  /** NOT flips every bit. */
  function Not(a: Word): (c: Word)
    ensures c ^ a == 0xFFFF_FFFF
  {
    !a
  }

  // -------------------------------------------------------------- memory

  /** The word m holds at a: the last word written there, or 0 for one never written. */
  function Rd(m: map<int, Word>, a: int): Word
  {
    if a in m then m[a] else 0
  }

  /** The memory behind read_word and write_word, with every address readable. */
  class WordMemory {
    var mem: map<int, Word>

    constructor (mem: map<int, Word>)
      ensures this.mem == mem
    {
      this.mem := mem;
    }

    method ReadWord(a: int) returns (w: Word)
      ensures w == Rd(mem, a)
    {
      w := Rd(mem, a);
    }

    method WriteWord(a: int, w: Word)
      modifies this
      ensures mem == old(mem)[a := w]
    {
      mem := mem[a := w];
    }
  }
}
