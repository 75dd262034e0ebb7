/**
 * The RAM handler of the memory map (cpu/ram.c): a word array covering the
 * half-open address range [bot, top), read and written one aligned word at a
 * time. RAMBOT, RAMTOP and RAMSIZE are build constants; here they are the
 * parameters of the constructor.
 */
module RamMap {
  import opened StateLog

  /** A 32-bit address, as a number. */
  type Addr = x: int | 0 <= x < 0x1_0000_0000

  /** The result of an access: CORE_ERR_invalid_addr ends the simulation with E_INVALID_ADDR. */
  datatype Access = Loaded(value: Word) | Stored | InvalidAddr(isWrite: bool, addr: Addr)

  /** The guard of ram_read and ram_write: in range and word aligned (`addr & 0x3 == 0`). */
  predicate InRange(bot: Addr, top: Addr, addr: Addr)
  {
    bot <= addr < top && addr % 4 == 0
  }

  /** ADDR_TO_IDX: `(addr - bot) >> 2`; the difference is never negative behind the guard. */
  function Index(bot: Addr, addr: Addr): (i: nat)
    requires bot <= addr
    ensures 4 * i <= addr - bot < 4 * i + 4
  {
    (addr - bot) / 4
  }

  /** The word a read at addr yields from the contents m, or the read fault. */
  function Load(m: seq<Word>, bot: Addr, top: Addr, addr: Addr): Access
    requires top - bot <= 4 * |m|
  {
    if InRange(bot, top, addr) then Loaded(m[Index(bot, addr)]) else InvalidAddr(false, addr)
  }

  /** The contents after a write at addr: one word replaced, or nothing when the address faults. */
  function Store(m: seq<Word>, bot: Addr, top: Addr, addr: Addr, val: Word): (m': seq<Word>)
    requires top - bot <= 4 * |m|
    ensures |m'| == |m|
  {
    if InRange(bot, top, addr) then m[Index(bot, addr) := val] else m
  }

  /** Distinct aligned addresses in range use distinct words. */
  lemma IndexInjective(bot: Addr, top: Addr, a: Addr, b: Addr)
    requires InRange(bot, top, a) && InRange(bot, top, b) && a != b
    ensures Index(bot, a) != Index(bot, b)
  {
    if a < b {
      assert b - a >= 4;
    } else {
      assert a - b >= 4;
    }
  }

  /** An index behind the guard stays below RAMSIZE >> 2 when the range fits in RAMSIZE bytes. */
  lemma IndexBound(bot: Addr, top: Addr, size: nat, addr: Addr)
    requires InRange(bot, top, addr) && top - bot <= size && size % 4 == 0
    ensures Index(bot, addr) < size / 4
  {
    var i := Index(bot, addr);
    assert 4 * i < size && size == 4 * (size / 4);
  }

  /** A read after a write yields the written word at the same address and the old one elsewhere. */
  lemma LoadStore(m: seq<Word>, bot: Addr, top: Addr, a: Addr, val: Word, b: Addr)
    requires top - bot <= 4 * |m|
    ensures Load(Store(m, bot, top, a, val), bot, top, b) ==
      if InRange(bot, top, a) && a == b then Loaded(val) else Load(m, bot, top, b)
  {
    if InRange(bot, top, a) && InRange(bot, top, b) && a != b {
      IndexInjective(bot, top, a, b);
    }
  }

  class Ram {
    const bot: Addr
    const top: Addr
    /** `ram[RAMSIZE >> 2]`, zero at start. */
    const ram: array<Word>

    ghost predicate Valid()
      reads this
    {
      bot <= top && top - bot <= 4 * ram.Length
    }

    constructor (bot: Addr, top: Addr, size: nat)
      requires bot <= top && top - bot <= size && size % 4 == 0
      ensures Valid() && this.bot == bot && this.top == top
      ensures ram.Length == size / 4 && forall i :: 0 <= i < ram.Length ==> ram[i] == 0
      ensures fresh(ram)
    {
      this.bot, this.top := bot, top;
      ram := new Word[size / 4](_ => 0);
      new;
      assert size == 4 * (size / 4);
    }

    /** ram_read: the word at `(addr - RAMBOT) >> 2`, or the read fault. */
    method Read(addr: Addr) returns (r: Access)
      requires Valid()
      ensures r == Load(ram[..], bot, top, addr)
      ensures r.Loaded? <==> InRange(bot, top, addr)
    {
      if bot <= addr && addr < top && addr % 4 == 0 {
        r := Loaded(ram[Index(bot, addr)]);
      } else {
        r := InvalidAddr(false, addr);
      }
    }

    /** ram_write: one word stored, or the write fault with no change. */
    method Write(addr: Addr, val: Word) returns (r: Access)
      requires Valid()
      modifies ram
      ensures ram[..] == Store(old(ram[..]), bot, top, addr, val)
      ensures r == if InRange(bot, top, addr) then Stored else InvalidAddr(true, addr)
    {
      if bot <= addr && addr < top && addr % 4 == 0 {
        ram[Index(bot, addr)] := val;
        r := Stored;
      } else {
        r := InvalidAddr(true, addr);
      }
    }
  }

  /** What a memory-map registration installs. */
  datatype Handler = ReadWord | WriteWord
  datatype Region = Region(handler: Handler, bot: Addr, top: Addr)

  /** The memory map's list of registered ranges (memmap.c is not part of this model). */
  class MemMap {
    var regions: seq<Region>

    constructor ()
      ensures regions == []
    {
      regions := [];
    }

    /**
     * register_memmap_ram: the same half-open range for reads and writes
     * when the RAM is not empty; nothing when RAMBOT == RAMTOP. The build
     * rejects RAMBOT > RAMTOP.
     */
    method RegisterRam(bot: Addr, top: Addr)
      requires bot <= top
      modifies this
      ensures regions == old(regions) + RamRegions(bot, top)
    {
      if bot < top {
        regions := regions + [Region(ReadWord, bot, top)];
        regions := regions + [Region(WriteWord, bot, top)];
      }
    }
  }

  /** The regions register_memmap_ram adds. */
  function RamRegions(bot: Addr, top: Addr): (rs: seq<Region>)
    requires bot <= top
    ensures rs == [] <==> bot == top
    ensures forall r :: r in rs ==> r.bot == bot && r.top == top
    ensures bot < top ==> Region(ReadWord, bot, top) in rs && Region(WriteWord, bot, top) in rs && |rs| == 2
  {
    if bot < top then [Region(ReadWord, bot, top), Region(WriteWord, bot, top)] else []
  }
}
