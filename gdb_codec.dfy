/**
 * The byte-level pieces of the GDB remote stub (gdb.c) as functions: the
 * one-byte checksum, the `}` escaping of outgoing payloads and its inverse,
 * the packet an outgoing message becomes, `strtol(_, NULL, 16)` for the
 * hex fields of incoming packets, and the reply each debugger command
 * gets (the GDB Remote Serial Protocol, appendix E of the GDB manual).
 */
module GdbCodec {
  import opened StateLog

  /** A byte of the serial stream. */
  type Byte = x: int | 0 <= x < 256

  const DOLLAR: Byte := 0x24
  const HASH: Byte := 0x23
  const BRACE: Byte := 0x7d
  const STAR: Byte := 0x2a
  const PLUS: Byte := 0x2b
  const MINUS: Byte := 0x2d
  const COMMA: Byte := 0x2c
  const NUL: Byte := 0

  /** `escape_chars`: the bytes the stub sends as `}` followed by the byte XOR 0x20. */
  const ESCAPE_CHARS: seq<Byte> := [BRACE, DOLLAR, HASH, STAR]

  /** c XOR 0x20: bit 5 toggled. */
  function Flip(c: Byte): Byte
  {
    if (c / 32) % 2 == 1 then c - 32 else (assert c / 32 <= 6; c + 32)
  }

  /** Toggling twice gives the byte back. */
  lemma FlipFlip(c: Byte)
    ensures Flip(Flip(c)) == c
  {
  }

  /** The C string a buffer holds: everything before the first NUL. */
  function CStr(s: seq<Byte>): (c: seq<Byte>)
    ensures |c| <= |s| && c == s[..|c|] && NUL !in c
    ensures |c| < |s| ==> s[|c|] == NUL
  {
    if s == [] || s[0] == NUL then [] else [s[0]] + CStr(s[1..])
  }

  // ---------------------------------------------------------------- checksum

  /** The plain sum of the bytes. */
  function Total(s: seq<Byte>): nat
  {
    if s == [] then 0 else Total(s[..|s| - 1]) + s[|s| - 1]
  }

  /** The `unsigned char` sum of the bytes, wrapping at each step, is their plain sum modulo 256. */
  function Sum(s: seq<Byte>): (c: Byte)
    ensures c == Total(s) % 256
  {
    if s == [] then 0
    else
      AddMod(0, Total(s[..|s| - 1]), s[|s| - 1]);
      (Sum(s[..|s| - 1]) + s[|s| - 1]) % 256
  }

  /** The plain sum of a concatenation is the sum of the plain sums. */
  lemma {:induction false} TotalAppend(a: seq<Byte>, b: seq<Byte>)
    ensures Total(a + b) == Total(a) + Total(b)
    decreases |b|
  {
    if b == [] {
      assert a + b == a;
    } else {
      assert (a + b)[..|a + b| - 1] == a + b[..|b| - 1];
      TotalAppend(a, b[..|b| - 1]);
    }
  }

  /** The checksum of a concatenation is the sum of the checksums. */
  lemma SumAppend(a: seq<Byte>, b: seq<Byte>)
    ensures Sum(a + b) == (Sum(a) + Sum(b)) % 256
  {
    TotalAppend(a, b);
    ModSum(Total(a), Total(b));
  }

  lemma ModSum(x: nat, y: nat)
    ensures (x + y) % 256 == (x % 256 + y % 256) % 256
  {
    var u, v := x % 256, y % 256;
    assert x == 256 * (x / 256) + u && y == 256 * (y / 256) + v;
    assert x + y == 256 * (x / 256 + y / 256) + (u + v);
  }

  lemma AddMod(x: int, y: int, z: int)
    ensures ((x + y) % 256 + z) % 256 == (x + (y + z) % 256) % 256
  {
    var u := (x + y) % 256;
    var v := (y + z) % 256;
    assert (x + y) - u == 256 * ((x + y) / 256);
    assert (y + z) - v == 256 * ((y + z) / 256);
    assert (u + z) - (x + v) == 256 * ((y + z) / 256 - (x + y) / 256);
  }

  // ------------------------------------------------------------ hex digits

  /** The lowercase hex digit of n, as `%x` prints it. */
  function HexDigit(n: int): (c: Byte)
    requires 0 <= n < 16
    ensures DigitValue(c) == n
  {
    if n < 10 then 0x30 + n else 0x57 + n
  }

  /** The value of a hex digit of either case, -1 for any other byte. */
  function DigitValue(c: Byte): (d: int)
    ensures -1 <= d < 16
  {
    if 0x30 <= c <= 0x39 then c - 0x30
    else if 0x61 <= c <= 0x66 then c - 0x57
    else if 0x41 <= c <= 0x46 then c - 0x37
    else -1
  }

  /** `%02x`: two lowercase hex digits, high first. */
  function Hex2(b: Byte): (h: seq<Byte>)
    ensures |h| == 2 && DigitValue(h[0]) == b / 16 && DigitValue(h[1]) == b % 16
  {
    [HexDigit(b / 16), HexDigit(b % 16)]
  }

  /** Byte k (0 = least significant) of a word. */
  function ByteOf(w: Word, k: nat): Byte
    requires k < 4
  {
    if k == 0 then (w & 0xff) as int
    else if k == 1 then ((w >> 8) & 0xff) as int
    else if k == 2 then ((w >> 16) & 0xff) as int
    else (w >> 24) as int
  }

  /** `%08x`: eight lowercase hex digits, most significant first. */
  function Hex8(w: Word): (h: seq<Byte>)
    ensures |h| == 8
  {
    Hex2(ByteOf(w, 3)) + Hex2(ByteOf(w, 2)) + Hex2(ByteOf(w, 1)) + Hex2(ByteOf(w, 0))
  }

  /** `htonl` on a little-endian host: the byte order reversed. */
  function ByteSwap(w: Word): Word
  {
    ((w & 0xff) << 24) | ((w & 0xff00) << 8) | ((w >> 8) & 0xff00) | (w >> 24)
  }

  /** So `%08x` of `htonl(w)` lists w's bytes in memory order, least significant first. */
  lemma SwappedHex(w: Word)
    ensures Hex8(ByteSwap(w)) == Hex2(ByteOf(w, 0)) + Hex2(ByteOf(w, 1)) + Hex2(ByteOf(w, 2)) + Hex2(ByteOf(w, 3))
  {
    var s := ByteSwap(w);
    assert ByteOf(s, 3) == ByteOf(w, 0);
    assert ByteOf(s, 2) == ByteOf(w, 1);
    assert ByteOf(s, 1) == ByteOf(w, 2);
    assert ByteOf(s, 0) == ByteOf(w, 3);
  }

  // ---------------------------------------------------------------- strtol

  /** `isspace` in the C locale. */
  predicate IsSpace(c: Byte)
  {
    c == 0x20 || 0x09 <= c <= 0x0d
  }

  /** The value of the leading hex digits of s, accumulated onto acc. */
  function HexPrefix(s: seq<Byte>, acc: int): int
  {
    if s == [] || DigitValue(s[0]) == -1 then acc else HexPrefix(s[1..], acc * 16 + DigitValue(s[0]))
  }

  /** What follows an optional `0x` or `0X` prefix that is itself followed by a digit. */
  function DropPrefix(s: seq<Byte>): seq<Byte>
  {
    if |s| >= 3 && s[0] == 0x30 && (s[1] == 0x78 || s[1] == 0x58) && DigitValue(s[2]) != -1 then s[2..] else s
  }

  /** `LONG_MAX` and `LONG_MIN` of the 64-bit `long` that `strtol` returns. */
  const LONG_MAX: int := 0x7fff_ffff_ffff_ffff
  const LONG_MIN: int := -0x8000_0000_0000_0000

  /** `strtol`'s answer to a value out of range: `LONG_MAX` above it, `LONG_MIN` below it. */
  function Saturate(v: int): (r: int)
    ensures LONG_MIN <= r <= LONG_MAX
    ensures LONG_MIN <= v <= LONG_MAX ==> r == v
    ensures v > LONG_MAX ==> r == LONG_MAX
    ensures v < LONG_MIN ==> r == LONG_MIN
  {
    if v > LONG_MAX then LONG_MAX else if v < LONG_MIN then LONG_MIN else v
  }

  /**
   * `strtol(s, NULL, 16)`: leading white space, an optional sign, an
   * optional `0x`, then as many hex digits as follow; 0 when there are none,
   * and `LONG_MAX` or `LONG_MIN` when the value is out of range.
   */
  function Strtol16(s: seq<Byte>): (v: int)
    ensures LONG_MIN <= v <= LONG_MAX
  {
    if s != [] && IsSpace(s[0]) then Strtol16(s[1..])
    else if s != [] && s[0] == MINUS then Saturate(-HexPrefix(DropPrefix(s[1..]), 0))
    else if s != [] && s[0] == PLUS then Saturate(HexPrefix(DropPrefix(s[1..]), 0))
    else Saturate(HexPrefix(DropPrefix(s), 0))
  }

  /** The receiving side reads back what `%02x` printed, whatever follows it. */
  lemma Hex2Parses(b: Byte, rest: seq<Byte>)
    requires rest == [] || DigitValue(rest[0]) == -1
    ensures Strtol16(Hex2(b) + rest) == b
  {
    var h := Hex2(b);
    var s := h + rest;
    assert s[0] == h[0] && s[1] == h[1] && s[1..][1..] == rest;
    assert DigitValue(s[0]) != -1 && DigitValue(s[1]) != -1;
    assert !IsSpace(s[0]) && s[0] != MINUS && s[0] != PLUS;
    assert DropPrefix(s) == s;
    assert HexPrefix(s, 0) == HexPrefix(s[1..], DigitValue(s[0]));
    assert s[1..][0] == s[1];
    assert HexPrefix(s[1..], DigitValue(s[0])) == HexPrefix(rest, DigitValue(s[0]) * 16 + DigitValue(s[1]));
    assert HexPrefix(rest, DigitValue(s[0]) * 16 + DigitValue(s[1])) == b;
  }

  /** Sixteen `f` digits are 2^64 - 1, which `strtol` clamps to `LONG_MAX`, and `-` before them to `LONG_MIN`. */
  lemma Strtol16Saturates()
    ensures Strtol16(seq(16, _ => 0x66)) == LONG_MAX
    ensures Strtol16([MINUS] + seq(16, _ => 0x66)) == LONG_MIN
  {
    var f := seq(16, _ => 0x66);
    HexPrefixFs(16, 0);
    Pow16Add(4, 4);
    Pow16Add(8, 8);
    assert Pow16(16) == 0x1_0000_0000_0000_0000;
    assert f[0] == 0x66 && DropPrefix(f) == f;
    var m := [MINUS] + f;
    assert m[0] == MINUS && m[1..] == f;
  }

  /** n `f` digits onto acc. */
  lemma {:induction false} HexPrefixFs(n: nat, acc: int)
    ensures HexPrefix(seq(n, _ => 0x66), acc) == (acc + 1) * Pow16(n) - 1
  {
    var f := seq(n, _ => 0x66);
    if n > 0 {
      assert f[1..] == seq(n - 1, _ => 0x66);
      HexPrefixFs(n - 1, acc * 16 + 15);
    }
  }

  /** 16^(a + b) is 16^a times 16^b. */
  lemma {:induction false} Pow16Add(a: nat, b: nat)
    ensures Pow16(a + b) == Pow16(a) * Pow16(b)
  {
    if a > 0 {
      Pow16Add(a - 1, b);
    }
  }

  /** 16^n. */
  function Pow16(n: nat): nat
  {
    if n == 0 then 1 else 16 * Pow16(n - 1)
  }

  // --------------------------------------------------------------- escaping

  /** One outgoing byte as `gdb_send` sends it. */
  function EscapeByte(c: Byte): seq<Byte>
  {
    if c in ESCAPE_CHARS then [BRACE, Flip(c)] else [c]
  }

  /** `gdb_send`: every byte of the payload in turn, escaped where it must be. */
  function Escape(s: seq<Byte>): (e: seq<Byte>)
    ensures |e| == |s| + Escaped(s)
  {
    if s == [] then [] else EscapeByte(s[0]) + Escape(s[1..])
  }

  /** The number of payload bytes that need escaping. */
  function Escaped(s: seq<Byte>): nat
  {
    if s == [] then 0 else (if s[0] in ESCAPE_CHARS then 1 else 0) + Escaped(s[1..])
  }

  /** The receiving side's un-escaping: `}` x stands for x XOR 0x20. */
  function Unescape(e: seq<Byte>): seq<Byte>
  {
    if e == [] then []
    else if e[0] == BRACE && |e| >= 2 then [Flip(e[1])] + Unescape(e[2..])
    else [e[0]] + Unescape(e[1..])
  }

  /** Escaping byte by byte from the front, as the sending loop does. */
  lemma {:induction false} EscapeSnoc(s: seq<Byte>, c: Byte)
    ensures Escape(s + [c]) == Escape(s) + EscapeByte(c)
  {
    if s == [] {
      assert [c][1..] == [];
    } else {
      assert (s + [c])[1..] == s[1..] + [c];
      EscapeSnoc(s[1..], c);
    }
  }

  /** Un-escaping recovers the payload. */
  lemma {:induction false} UnescapeEscape(s: seq<Byte>)
    ensures Unescape(Escape(s)) == s
  {
    if s != [] {
      var e := Escape(s);
      assert e == EscapeByte(s[0]) + Escape(s[1..]);
      if s[0] in ESCAPE_CHARS {
        FlipFlip(s[0]);
        assert e[0] == BRACE && Flip(e[1]) == s[0] && e[2..] == Escape(s[1..]);
      } else {
        assert e[0] != BRACE && e[1..] == Escape(s[1..]);
      }
      UnescapeEscape(s[1..]);
    }
  }

  /** The escaped payload holds no raw `$`, `#` or `*`, so it cannot end or open a packet. */
  lemma {:induction false} EscapeIsClean(s: seq<Byte>)
    ensures DOLLAR !in Escape(s) && HASH !in Escape(s) && STAR !in Escape(s)
  {
    if s != [] {
      EscapeIsClean(s[1..]);
      assert Escape(s) == EscapeByte(s[0]) + Escape(s[1..]);
    }
  }

  /**
   * `gdb_send_message`: `$`, the escaped payload, `#` and the checksum as
   * two lowercase hex digits. The checksum is taken over the payload as
   * given, before escaping.
   */
  function Packet(msg: seq<Byte>): (p: seq<Byte>)
    ensures |p| == |msg| + Escaped(msg) + 4
    ensures p[0] == DOLLAR && p[|p| - 3] == HASH && HASH !in p[..|p| - 3]
  {
    EscapeIsClean(msg);
    [DOLLAR] + Escape(msg) + [HASH] + Hex2(Sum(msg))
  }

  /**
   * A payload with a byte to escape: the checksum the stub sends is not the
   * sum of the bytes between `$` and `#` on the wire, which is what the
   * protocol asks for and what the stub's own receive path checks.
   */
  lemma EscapedChecksumDiffers()
    ensures Sum(Packet([HASH])[1..3]) != Sum([HASH])
  {
    assert Packet([HASH])[1..3] == [BRACE, Flip(HASH)];
    assert [BRACE, Flip(HASH)][..1] == [BRACE];
  }

  // ---------------------------------------------------------------- replies

  /** The stub's answer to one command: a reply packet, leave to single-step, or a kill. */
  datatype Action = Reply(msg: seq<Byte>) | StepOnce | Kill | Undefined

  /** `%08x` of `htonl(r)`: one register of the `g` reply. */
  function RegHex(r: Word): (h: seq<Byte>)
    ensures |h| == 8
  {
    Hex8(ByteSwap(r))
  }

  /** Digit groups, one after the other. */
  function Concat(hs: seq<seq<Byte>>): seq<Byte>
  {
    if hs == [] then [] else hs[0] + Concat(hs[1..])
  }

  /** A slice that lies in the second part of a concatenation. */
  lemma SliceAfter<T>(a: seq<T>, b: seq<T>, lo: int, hi: int)
    requires |a| <= lo <= hi <= |a| + |b|
    ensures (a + b)[lo..hi] == b[lo - |a|..hi - |a|]
  {
  }

  /** The first part of a concatenation. */
  lemma SliceBefore<T>(a: seq<T>, b: seq<T>)
    ensures (a + b)[0..|a|] == a
  {
  }

  /** Joining groups of eight digits puts group i at offset 8i. */
  lemma {:induction false} ConcatAt(hs: seq<seq<Byte>>, i: nat)
    requires forall k :: 0 <= k < |hs| ==> |hs[k]| == 8
    ensures |Concat(hs)| == 8 * |hs|
    ensures i < |hs| ==> Concat(hs)[8 * i..8 * i + 8] == hs[i]
  {
    if hs != [] {
      assert forall k :: 0 <= k < |hs| - 1 ==> hs[1..][k] == hs[k + 1];
      ConcatAt(hs[1..], if i > 0 then i - 1 else 0);
      if i == 0 {
        SliceBefore(hs[0], Concat(hs[1..]));
      } else if i < |hs| {
        SliceAfter(hs[0], Concat(hs[1..]), 8 * i, 8 * i + 8);
      }
    }
  }

  /** The digit groups of the `g` reply, one per register. */
  function RegDigits(regs: seq<Word>): (hs: seq<seq<Byte>>)
    ensures |hs| == |regs| && forall k :: 0 <= k < |regs| ==> hs[k] == RegHex(regs[k]) && |hs[k]| == 8
  {
    seq(|regs|, k requires 0 <= k < |regs| => RegHex(regs[k]))
  }

  /** The `g` reply: each register's digits, in order. */
  function RegsHex(regs: seq<Word>): (h: seq<Byte>)
    ensures |h| == 8 * |regs|
  {
    ConcatAt(RegDigits(regs), 0);
    Concat(RegDigits(regs))
  }

  /** Register i's eight digits are at offset 8i. */
  lemma RegsHexAt(regs: seq<Word>, i: nat)
    requires i < |regs|
    ensures RegsHex(regs)[8 * i..8 * i + 8] == RegHex(regs[i])
  {
    ConcatAt(RegDigits(regs), i);
  }

  /** The 2·len hex digits of the `m` reply: the bytes from address addr on, in the 32-bit address space. */
  function MemHex(mem: int -> Byte, addr: int, len: nat): (h: seq<Byte>)
    ensures |h| == 2 * len
    decreases len
  {
    if len == 0 then [] else Hex2(mem(addr % 0x1_0000_0000)) + MemHex(mem, addr + 1, len - 1)
  }

  /** Byte k of the reply is the one at address addr + k, modulo 2^32. */
  lemma {:induction false} MemHexAt(mem: int -> Byte, addr: int, len: nat, k: nat)
    requires k < len
    ensures MemHex(mem, addr, len)[2 * k..2 * k + 2] == Hex2(mem((addr + k) % 0x1_0000_0000))
    decreases k
  {
    var h := MemHex(mem, addr, len);
    assert h == Hex2(mem(addr % 0x1_0000_0000)) + MemHex(mem, addr + 1, len - 1);
    if k > 0 {
      MemHexAt(mem, addr + 1, len - 1, k - 1);
      SliceAfter(Hex2(mem(addr % 0x1_0000_0000)), MemHex(mem, addr + 1, len - 1), 2 * k, 2 * k + 2);
    } else {
      SliceBefore(Hex2(mem(addr % 0x1_0000_0000)), MemHex(mem, addr + 1, len - 1));
    }
  }

  /** s without its leading commas, which `strtok` skips. */
  function SkipCommas(s: seq<Byte>): (t: seq<Byte>)
    ensures |t| <= |s| && t == s[|s| - |t|..] && (t == [] || t[0] != COMMA)
  {
    if s != [] && s[0] == COMMA then SkipCommas(s[1..]) else s
  }

  /** The length of the token at the front of s: up to the first comma. */
  function TokenLength(s: seq<Byte>): (n: nat)
    ensures n <= |s| && COMMA !in s[..n] && (n < |s| ==> s[n] == COMMA)
  {
    if s == [] || s[0] == COMMA then 0 else 1 + TokenLength(s[1..])
  }

  /** `strtok(_, ",")`: the next non-empty token and what follows its delimiter, or None. */
  datatype Token = NoToken | Token(text: seq<Byte>, rest: seq<Byte>)

  function NextToken(s: seq<Byte>): (t: Token)
    ensures t.Token? ==> t.text != [] && COMMA !in t.text
  {
    var u := SkipCommas(s);
    if u == [] then NoToken
    else
      var n := TokenLength(u);
      Token(u[..n], if n < |u| then u[n + 1..] else [])
  }

  /** A C `int` holding the low 32 bits of v, two's complement. */
  function ToInt32(v: int): (r: int)
    ensures -0x8000_0000 <= r < 0x8000_0000 && (r - v) % 0x1_0000_0000 == 0
  {
    var m := v % 0x1_0000_0000;
    if m < 0x8000_0000 then m else m - 0x1_0000_0000
  }

  /** The digit pair of an `m` reply for the k-th byte. */
  function PairAt(h: seq<Byte>, k: nat): seq<Byte>
    requires 2 * k + 2 <= |h|
  {
    h[2 * k..2 * k + 2]
  }

  /** Each digit pair of h reads back, with `strtol`, as the byte at its address from addr on. */
  predicate ReadsBack(h: seq<Byte>, mem: int -> Byte, addr: int, len: nat)
    requires |h| == 2 * len
  {
    forall k :: 0 <= k < len ==> Strtol16(PairAt(h, k)) == mem((addr + k) % 0x1_0000_0000)
  }

  /** A `len * 2 + 1` that a 32-bit `int` holds: the length is below 2^30. */
  const MEM_LEN_LIMIT: int := 0x4000_0000

  /**
   * `m addr,length`: both fields in hex, the reply the bytes read from
   * `addr` on. A missing field fails the assertion; a negative or zero
   * length makes the C read an unwritten buffer, and a length of 2^30 or
   * more overflows the `int` `len * 2 + 1` that sizes the reply buffer.
   * These are the undefined requests.
   */
  function MemCommand(args: seq<Byte>, mem: int -> Byte): (a: Action)
    ensures a.Reply? || a == Undefined
    ensures a.Reply? <==>
      (NextToken(args).Token? && NextToken(NextToken(args).rest).Token?
       && 0 < ToInt32(Strtol16(NextToken(NextToken(args).rest).text)) < MEM_LEN_LIMIT)
    ensures a.Reply? ==>
      var addr, len := Strtol16(NextToken(args).text), ToInt32(Strtol16(NextToken(NextToken(args).rest).text));
      |a.msg| == 2 * len && ReadsBack(a.msg, mem, addr, len)
  {
    match NextToken(args)
    case NoToken => Undefined
    case Token(address, rest) =>
      match NextToken(rest)
      case NoToken => Undefined
      case Token(length, _) =>
        var len := ToInt32(Strtol16(length));
        if len <= 0 || len >= MEM_LEN_LIMIT then Undefined
        else
          var addr := Strtol16(address);
          MemReplyAllReadBack(mem, addr, len);
          Reply(MemHex(mem, addr, len))
  }

  // The command letters and the fixed reply texts, in ASCII.
  const CMD_HALT_REASON: Byte := 0x3f   // ?
  const CMD_REGS: Byte := 0x67          // g
  const CMD_THREAD: Byte := 0x48        // H
  const CMD_KILL: Byte := 0x6b          // k
  const CMD_MEM: Byte := 0x6d           // m
  const CMD_QUERY: Byte := 0x71         // q
  const CMD_STEP: Byte := 0x73          // s
  const HC_ALL: seq<Byte> := [0x48, 0x63, 0x2d, 0x31]   // Hc-1
  const HC_ANY: seq<Byte> := [0x48, 0x63, 0x30]         // Hc0
  const QC: seq<Byte> := [0x71, 0x43]                   // qC
  const SIGTRAP_REPLY: seq<Byte> := [0x53, 0x30, 0x35]  // S05
  const OK_REPLY: seq<Byte> := [0x4f, 0x4b]             // OK

  /**
   * `wait_for_gdb`'s dispatch on the command text (the payload up to its
   * first NUL): `?` is answered `S05`, `g` with the 16 registers, `Hc-1`
   * and `Hc0` with `OK`, `m` with memory, `qC` and everything unknown with
   * an empty reply; `k` kills and a bare `s` steps.
   */
  function Command(cmd: seq<Byte>, regs: seq<Word>, mem: int -> Byte): (a: Action)
    requires |regs| == 16
    ensures cmd == [] ==> a == Reply([])
    ensures cmd != [] && cmd[0] == CMD_HALT_REASON ==> a == Reply(SIGTRAP_REPLY)
    ensures cmd != [] && cmd[0] == CMD_REGS ==> a.Reply? && |a.msg| == 128
    ensures cmd == HC_ALL || cmd == HC_ANY ==> a == Reply(OK_REPLY)
    ensures cmd != [] && cmd[0] == CMD_THREAD && cmd != HC_ALL && cmd != HC_ANY ==> a == Reply([])
    ensures cmd == QC ==> a == Reply([])
    ensures a == StepOnce <==> cmd == [CMD_STEP]
    ensures a == Kill <==> cmd != [] && cmd[0] == CMD_KILL
    ensures a == Undefined ==> cmd != [] && cmd[0] == CMD_MEM
    ensures cmd != [] && cmd[0] !in {CMD_HALT_REASON, CMD_REGS, CMD_THREAD, CMD_KILL, CMD_MEM, CMD_STEP} ==> a == Reply([])
  {
    if cmd == [] then Reply([])
    else if cmd[0] == CMD_HALT_REASON then Reply(SIGTRAP_REPLY)
    else if cmd[0] == CMD_REGS then Reply(RegsHex(regs))
    else if cmd[0] == CMD_THREAD then
      (if cmd == HC_ALL || cmd == HC_ANY then Reply(OK_REPLY) else Reply([]))
    else if cmd[0] == CMD_KILL then Kill
    else if cmd[0] == CMD_MEM then MemCommand(cmd[1..], mem)
    else if cmd[0] == CMD_QUERY then
      (if cmd == QC then Reply([]) else Reply([]))
    else if cmd[0] == CMD_STEP then
      (if cmd == [CMD_STEP] then StepOnce else Reply([]))
    else Reply([])
  }

  /** Every pair of hex digits of an `m` reply reads back as the byte at its address. */
  lemma MemReplyAllReadBack(mem: int -> Byte, addr: int, len: nat)
    ensures ReadsBack(MemHex(mem, addr, len), mem, addr, len)
  {
    forall k | 0 <= k < len
      ensures Strtol16(PairAt(MemHex(mem, addr, len), k)) == mem((addr + k) % 0x1_0000_0000)
    {
      MemReplyReadsBack(mem, addr, len, k);
    }
  }

  /** Each pair of hex digits of an `m` reply reads back, with `strtol`, as the byte at its address. */
  lemma MemReplyReadsBack(mem: int -> Byte, addr: int, len: nat, k: nat)
    requires k < len
    ensures Strtol16(MemHex(mem, addr, len)[2 * k..2 * k + 2]) == mem((addr + k) % 0x1_0000_0000)
  {
    var b := mem((addr + k) % 0x1_0000_0000);
    MemHexAt(mem, addr, len, k);
    assert Hex2(b) + [] == Hex2(b);
    Hex2Parses(b, []);
  }
}
