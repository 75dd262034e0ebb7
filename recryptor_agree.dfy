/**
 * How the two recryptor decoders relate: on the banks the CPU decoder knows
 * (1, 3 and 7) they visit the same words in the same order, and for the ops
 * both treat alike (XR, and copying A) they leave the same memory; on bank
 * 0xF the work-in-progress decoder processes all 16 words and the CPU decoder
 * none.
 */
module RecryptorAgree {
  import opened StateLog
  import opened RecryptorControl
  import RecryptorWip
  import RecryptorCpu

  /** The banks with a CPU block visit the offsets 0 .. block - 1 in the WIP decoder too. */
  lemma SameOffsets(bank: int)
    requires bank == 1 || bank == 3 || bank == 7
    ensures RecryptorWip.Offsets(bank, 4) == seq(RecryptorCpu.Block(bank), i => i)
  {
    var g0, g1, g2 := RecryptorWip.Group(0), RecryptorWip.Group(1), RecryptorWip.Group(2);
    CountOn([], g0);
    var s := [] + g0;
    if bank == 1 {
      assert RecryptorWip.Offsets(1, 4) == s;
    } else {
      CountOn(s, g1);
      s := s + g1;
      if bank == 3 {
        assert RecryptorWip.Offsets(3, 4) == s;
      } else {
        CountOn(s, g2);
        s := s + g2;
        assert RecryptorWip.Offsets(7, 4) == s;
      }
    }
    assert s == seq(RecryptorCpu.Block(bank), i => i);
  }

  /** s followed by the run that starts where s ends still counts up from 0, when s does. */
  lemma CountOn(s: seq<nat>, g: seq<nat>)
    requires forall i :: 0 <= i < |s| ==> s[i] == i
    requires forall i :: 0 <= i < |g| ==> g[i] == |s| + i
    ensures forall i :: 0 <= i < |s + g| ==> (s + g)[i] == i
  {
  }

  /** On those banks the WIP decoder processes exactly the offsets below the CPU block length. */
  lemma ProcessedBelowBlock(bank: int, o: nat)
    requires (bank == 1 || bank == 3 || bank == 7) && o < 16
    ensures RecryptorWip.Processed(bank, o) <==> o < RecryptorCpu.Block(bank)
  {
    var g := RecryptorWip.GroupOf(o);
    assert RecryptorWip.Processed(bank, o) == ((bank / RecryptorWip.BIT[g]) % 2 == 1);
  }

  /** The ops for which both decoders compute the same word: XR, and the ones that copy A in both. */
  predicate SharedOp(op: int)
  {
    op != Code(AN) && op != Code(OR) && op != Code(NOT) && op != Code(SF1) && op != Code(SF4)
  }

  /** Word by word the two decoders agree on a shared op, whatever the carry. */
  lemma SameWord(m: map<int, Word>, c: Control, o: nat)
    requires WellDecoded(c) && SharedOp(c.op) && o < 16
    ensures RecryptorWip.OutAt(m, c, o) == RecryptorCpu.Out(m, c, o)
  {
  }

  /** Up to the CPU block length, both decoders leave the same memory after the same offsets. */
  lemma {:induction false} SamePrefix(m: map<int, Word>, c: Control, n: nat)
    requires WellDecoded(c) && SharedOp(c.op) && (c.bank == 1 || c.bank == 3 || c.bank == 7)
    requires n <= RecryptorCpu.Block(c.bank)
    ensures RecryptorWip.Partial(m, c, n) == RecryptorCpu.Written(m, c, n)
  {
    if n > 0 {
      SamePrefix(m, c, n - 1);
      ProcessedBelowBlock(c.bank, n - 1);
      SameWord(m, c, n - 1);
    }
  }

  /** On banks 1, 3 and 7 and a shared op, both decoders leave the same memory. */
  lemma DecodersAgree(m: map<int, Word>, c: Control)
    requires WellDecoded(c) && SharedOp(c.op) && (c.bank == 1 || c.bank == 3 || c.bank == 7)
    ensures RecryptorWip.Result(m, c) == RecryptorCpu.Result(m, c)
  {
    var block := RecryptorCpu.Block(c.bank);
    SamePrefix(m, c, block);
    forall o | block <= o < 16 ensures !RecryptorWip.Processed(c.bank, o) {
      ProcessedBelowBlock(c.bank, o);
    }
    RecryptorWip.Skip(m, c, block, 16);
  }

  /**
   * On bank 0xF the WIP decoder writes all 16 words of C, each the op on A
   * and B with the carry from A's word below, while the CPU decoder writes none.
   */
  lemma FullBankDiffers(m: map<int, Word>, c: Control, i: nat)
    requires WellDecoded(c) && c.bank == 0xF && i < 16
    ensures Rd(RecryptorWip.Result(m, c), Base(c.idC) + 4 * i) == RecryptorWip.WordOp(c.op,
      Rd(m, Base(c.idA) + 4 * i), Rd(m, Base(c.idB) + 4 * i),
      if i == 0 then 0 else RecryptorWip.CarryOut(c.op, Rd(m, Base(c.idA) + 4 * (i - 1))))
    ensures RecryptorCpu.Result(m, c) == m
  {
    RecryptorWip.Written(m, c, 16, i);
    RecryptorCpu.FullBankUnchanged(m, c);
  }
}
