/**
 * The stub's side of the debugger connection (gdb.c): receiving one packet
 * (`gdb_get_message`), sending one (`gdb_send_message`, `gdb_send`) and the
 * command loop (`wait_for_gdb`). The socket becomes two byte sequences:
 * what the debugger has sent and the stub has not yet read, and everything
 * the stub has sent.
 */
module GdbLink {
  import opened StateLog
  import opened GdbCodec

  /** GDB_MSG_MAX: the size of the receive buffer. */
  const MSG_MAX: nat := 128

  /** How an exchange ends when it does not succeed. */
  datatype LinkFault =
    | Closed        // recv returned 0: E_UNKNOWN "Connection closed unexpectedly"
    | LostSync      // more than one packet read: E_UNPREDICTABLE
    | BadChecksum   // E_UNPREDICTABLE
    | BadAck        // neither `+` nor `-` after a sent packet: E_UNKNOWN
    | AssertFailed  // a buffer bound or a short blocking read
    | Unframed      // `#` first and no `#` in the checksum field: the checksum scan runs off the buffer
    | BadRequest    // an `m` command without a length, or with a length below 1 or from 2^30 on

  datatype Got = Got(payload: seq<Byte>, len: int) | GetFailed(fault: LinkFault)

  datatype Sent = Acked | SendFailed(fault: LinkFault)

  datatype Ending = Resumed | Killed | Stopped(fault: LinkFault)

  /**
   * raw is one packet around payload p: a first byte (not checked to be
   * `$`), p, the first `#`, and two checksum bytes.
   */
  ghost predicate Framed(raw: seq<Byte>, p: seq<Byte>)
  {
    |raw| == |p| + 4 && raw[1..|p| + 1] == p && raw[|p| + 1] == HASH && HASH !in raw[..|p| + 1]
  }

  /** The checksum field, read as `strtol` reads it, equals the byte sum of the payload. */
  ghost predicate ChecksumOk(raw: seq<Byte>, p: seq<Byte>)
    requires |raw| == |p| + 4
  {
    Sum(p) == Strtol16(raw[|p| + 2..])
  }

  /** The number of leading `-` replies. */
  function Naks(s: seq<Byte>): (n: nat)
    ensures n <= |s| && (forall j :: 0 <= j < n ==> s[j] == MINUS) && (n < |s| ==> s[n] != MINUS)
  {
    if s != [] && s[0] == MINUS then 1 + Naks(s[1..]) else 0
  }

  /** How `gdb_send_message` ends on the reply bytes s. */
  function AckOutcome(s: seq<Byte>): Sent
  {
    var n := Naks(s);
    if n == |s| then SendFailed(AssertFailed) else if s[n] == PLUS then Acked else SendFailed(BadAck)
  }

  /** The exchange succeeds exactly when the first reply that is not `-` is `+`. */
  lemma AckOutcomeCases(s: seq<Byte>)
    ensures AckOutcome(s) == Acked <==> exists i :: 0 <= i < |s| && s[i] == PLUS && forall j :: 0 <= j < i ==> s[j] == MINUS
    ensures AckOutcome(s) == SendFailed(AssertFailed) <==> forall j :: 0 <= j < |s| ==> s[j] == MINUS
  {
    var n := Naks(s);
    if AckOutcome(s) == Acked {
      assert s[n] == PLUS;
    }
    if exists i :: 0 <= i < |s| && s[i] == PLUS && forall j :: 0 <= j < i ==> s[j] == MINUS {
      var i :| 0 <= i < |s| && s[i] == PLUS && forall j :: 0 <= j < i ==> s[j] == MINUS;
      assert i == n;
    }
    if forall j :: 0 <= j < |s| ==> s[j] == MINUS {
      assert n == |s|;
    }
  }

  ghost function Repeat(p: seq<Byte>, k: nat): seq<Byte>
  {
    if k == 0 then [] else Repeat(p, k - 1) + p
  }

  function Min(a: int, b: int): int
  {
    if a < b then a else b
  }

  /** The first index of s holding `#` (`memchr`), or -1 when there is none. */
  function FirstHash(s: seq<Byte>): (k: int)
    ensures -1 <= k < |s|
    ensures k == -1 <==> HASH !in s
    ensures k != -1 ==> s[k] == HASH && HASH !in s[..k]
  {
    if s == [] then -1
    else if s[0] == HASH then 0
    else
      var j := FirstHash(s[1..]);
      if j == -1 then -1 else (assert s[..j + 1] == [s[0]] + s[1..][..j]; j + 1)
  }

  /** An index holding `#` with none before it is the first one. */
  lemma FirstHashIs(s: seq<Byte>, k: nat)
    requires k < |s| && s[k] == HASH && HASH !in s[..k]
    ensures FirstHash(s) == k
  {
  }

  /** Bytes received move from the front of what is to come to the end of the buffer. */
  lemma Regroup(input: seq<Byte>, buf: seq<Byte>, got: seq<Byte>, rest: seq<Byte>)
    requires input == buf + (got + rest)
    ensures input == (buf + got) + rest
  {
  }

  /** The first j bytes after the first byte. */
  lemma AfterFirst(b: seq<Byte>, j: nat)
    requires j < |b|
    ensures b[1..j + 1] == b[1..][..j]
  {
  }

  /** The first `#` of a front part of the input is the input's first `#`. */
  lemma FirstHashFront(input: seq<Byte>, buf: seq<Byte>, rest: seq<Byte>, k: nat)
    requires input == buf + rest && k < |buf| && buf[k] == HASH && HASH !in buf[..k]
    ensures FirstHash(input) == k
  {
    assert input[..k] == buf[..k];
    FirstHashIs(input, k);
  }

  /** The size the i-th `recv` of the receive loop delivers: sizes[i], or all it may once sizes runs out. */
  function SizeAt(sizes: seq<nat>, i: nat): nat
  {
    if i < |sizes| then sizes[i] else MSG_MAX
  }

  /** How the receive loop ends: the number of bytes read, and whether a `#` is among them. */
  datatype Gather = Gather(read: nat, ok: bool)

  /**
   * The receive loop of `gdb_get_message` from call i, with buf in the
   * buffer and rest still to come: it stops as soon as a `#` is in the
   * buffer, fails the assertion on a full buffer without one, and fails
   * when `recv` returns 0.
   */
  ghost function Gathered(buf: seq<Byte>, rest: seq<Byte>, sizes: seq<nat>, i: nat): (g: Gather)
    requires |buf| <= MSG_MAX
    ensures |buf| <= g.read <= |buf| + |rest| && g.read <= MSG_MAX
    decreases MSG_MAX - |buf|
  {
    if HASH in buf then Gather(|buf|, true)
    else if |buf| >= MSG_MAX then Gather(|buf|, false)
    else
      var n := Min(Min(MSG_MAX - |buf|, SizeAt(sizes, i)), |rest|);
      if n == 0 then Gather(|buf|, false) else Gathered(buf + rest[..n], rest[n..], sizes, i + 1)
  }

  /** The receive loop on the whole input, from an empty buffer. */
  ghost function Gathering(input: seq<Byte>, sizes: seq<nat>): Gather
  {
    Gathered([], input, sizes, 0)
  }

  /** The receive loop stops at once when a `#` is already in the buffer. */
  lemma GatheredFound(buf: seq<Byte>, rest: seq<Byte>, sizes: seq<nat>, i: nat)
    requires |buf| <= MSG_MAX && HASH in buf
    ensures Gathered(buf, rest, sizes, i) == Gather(|buf|, true)
  {
  }

  /** Without a `#`, a full buffer fails the assertion and an empty `recv` the connection. */
  lemma GatheredStops(buf: seq<Byte>, rest: seq<Byte>, sizes: seq<nat>, i: nat)
    requires |buf| <= MSG_MAX && HASH !in buf
    requires |buf| >= MSG_MAX || Min(Min(MSG_MAX - |buf|, SizeAt(sizes, i)), |rest|) == 0
    ensures Gathered(buf, rest, sizes, i) == Gather(|buf|, false)
  {
  }

  /** Otherwise one more `recv` delivers its bytes, got, from the front of rest. */
  lemma GatheredMore(buf: seq<Byte>, rest: seq<Byte>, sizes: seq<nat>, i: nat, got: seq<Byte>, rest': seq<Byte>)
    requires |buf| < MSG_MAX && HASH !in buf && rest == got + rest'
    requires |got| == Min(Min(MSG_MAX - |buf|, SizeAt(sizes, i)), |rest|) && got != []
    ensures Gathered(buf, rest, sizes, i) == Gathered(buf + got, rest', sizes, i + 1)
  {
    assert rest[..|got|] == got && rest[|got|..] == rest';
  }

  /** The receive loop succeeds only once a `#` has arrived. */
  lemma {:induction false} GatheredFinds(buf: seq<Byte>, rest: seq<Byte>, sizes: seq<nat>, i: nat)
    requires |buf| <= MSG_MAX
    ensures Gathered(buf, rest, sizes, i).ok ==> HASH in buf + rest
    decreases MSG_MAX - |buf|
  {
    if HASH !in buf && |buf| < MSG_MAX {
      var n := Min(Min(MSG_MAX - |buf|, SizeAt(sizes, i)), |rest|);
      if n != 0 {
        GatheredFinds(buf + rest[..n], rest[n..], sizes, i + 1);
        assert buf + rest == (buf + rest[..n]) + rest[n..];
      }
    }
  }

  /** The same from an empty buffer. */
  lemma GatheringFinds(input: seq<Byte>, sizes: seq<nat>)
    ensures Gathering(input, sizes).ok ==> HASH in input
  {
    GatheredFinds([], input, sizes, 0);
    assert [] + input == input;
  }

  /**
   * The input holds one whole packet that the receive loop has not read
   * past: the loop found the first `#` at k, k + 3 fits the buffer, and
   * the k + 3 bytes up to the end of the checksum field are there.
   */
  ghost predicate Whole(input: seq<Byte>, sizes: seq<nat>)
  {
    var g, k := Gathering(input, sizes), FirstHash(input);
    g.ok && k + 3 < MSG_MAX && g.read <= k + 3 <= |input|
  }

  /**
   * What `gdb_get_message` makes of the input bytes when the i-th `recv`
   * of its loop delivers sizes[i].
   */
  ghost function Received(input: seq<Byte>, sizes: seq<nat>): Got
  {
    GatheringFinds(input, sizes);
    Settled(input, Gathering(input, sizes))
  }

  /**
   * What `gdb_get_message` makes of the input once its receive loop has
   * ended as g: the loop's faults, the buffer bound, lost sync when more
   * than the packet was read, a short blocking read, then the checksum
   * stage on the packet's bytes.
   */
  function Settled(input: seq<Byte>, g: Gather): Got
    requires g.ok ==> HASH in input
  {
    var k := FirstHash(input);
    if !g.ok then GetFailed(if g.read >= MSG_MAX then AssertFailed else Closed)
    else if k + 3 >= MSG_MAX then GetFailed(AssertFailed)
    else if g.read > k + 3 then GetFailed(LostSync)
    else if |input| < k + 3 then GetFailed(AssertFailed)
    else Judged(input[..k + 3], k)
  }

  /**
   * The checksum stage of `gdb_get_message` on the k + 3 bytes read, whose
   * first `#` is at k: the scan from the second byte to the next `#`, the
   * sum against the checksum field, and the payload and length reported.
   */
  function Judged(raw: seq<Byte>, k: nat): Got
    requires |raw| == k + 3
  {
    var f := raw[1..];
    var j := FirstHash(f);
    if j == -1 then GetFailed(Unframed)
    else if Sum(f[..j]) != Strtol16(raw[k + 1..]) then GetFailed(BadChecksum)
    else Got(if k == 0 then f else raw[1..k], k - 1)
  }

  /** How many input bytes `gdb_get_message` reads. */
  ghost function Consumed(input: seq<Byte>, sizes: seq<nat>): (n: nat)
    ensures n <= |input|
  {
    Taken(input, Gathering(input, sizes))
  }

  /** How many input bytes `gdb_get_message` reads once its receive loop has ended as g. */
  function Taken(input: seq<Byte>, g: Gather): nat
  {
    var k := FirstHash(input);
    if !g.ok || k + 3 >= MSG_MAX || g.read > k + 3 then g.read else Min(k + 3, |input|)
  }

  /**
   * On a packet whose first byte is not `#` the checksum scan stops at the
   * packet's `#`: the packet is framed around the bytes in between, and it
   * is accepted, with those bytes as payload, exactly when their sum equals
   * the checksum field.
   */
  lemma JudgedPacket(raw: seq<Byte>, k: nat)
    requires |raw| == k + 3 && 0 < k && raw[k] == HASH && HASH !in raw[..k]
    ensures var r := Judged(raw, k);
      && Framed(raw, raw[1..k]) && (r.Got? <==> ChecksumOk(raw, raw[1..k]))
      && (r.Got? ==> r == Got(raw[1..k], k - 1))
      && (!r.Got? ==> r == GetFailed(BadChecksum))
  {
    var f := raw[1..];
    assert f[..k - 1] == raw[1..k] == raw[..k][1..];
    FirstHashIs(f, k - 1);
  }

  /**
   * A whole packet whose first byte is not `#` is accepted exactly when the
   * byte sum of the payload, between the first byte and the `#`, equals
   * the checksum field; it is otherwise refused as a bad checksum.
   */
  lemma ReceivedWhole(input: seq<Byte>, sizes: seq<nat>)
    requires Whole(input, sizes) && 0 < FirstHash(input)
    ensures var k := FirstHash(input);
      && (Received(input, sizes).Got? <==> Sum(input[1..k]) == Strtol16(input[k + 1..k + 3]))
      && (Received(input, sizes).Got? ==> Received(input, sizes) == Got(input[1..k], k - 1))
      && (!Received(input, sizes).Got? ==> Received(input, sizes) == GetFailed(BadChecksum))
  {
    var k := FirstHash(input);
    var raw := input[..k + 3];
    assert raw[..k] == input[..k] && raw[1..k] == input[1..k] && raw[k + 1..] == input[k + 1..k + 3];
    JudgedPacket(raw, k);
  }

  /** Lost sync is reported exactly when the receive loop read past the end of the packet. */
  lemma ReceivedLostSync(input: seq<Byte>, sizes: seq<nat>)
    ensures var g, k := Gathering(input, sizes), FirstHash(input);
      Received(input, sizes) == GetFailed(LostSync) <==> g.ok && k + 3 < MSG_MAX && g.read > k + 3
  {
  }

  /**
   * With `#` as the first byte the scan runs over the checksum field: it
   * runs off the buffer when neither of its bytes is `#`, and otherwise the
   * packet is accepted exactly when the bytes before that `#` sum to the
   * field read from its first byte on; the payload is then both bytes and
   * the length -1.
   */
  lemma ReceivedHashFirst(input: seq<Byte>, sizes: seq<nat>)
    requires Whole(input, sizes) && FirstHash(input) == 0
    ensures var f, r := input[1..3], Received(input, sizes);
      && (r == GetFailed(Unframed) <==> HASH !in f)
      && (HASH in f ==> (r.Got? <==> Sum(f[..FirstHash(f)]) == Strtol16(f)))
      && (r.Got? ==> r == Got(f, -1))
      && (HASH in f && !r.Got? ==> r == GetFailed(BadChecksum))
  {
  }

  /**
   * An accepted packet with a payload is framed: a first byte, the
   * payload, the first `#` and two checksum bytes whose value is the
   * payload's byte sum, and it was read whole.
   */
  lemma ReceivedFramed(input: seq<Byte>, sizes: seq<nat>)
    requires Received(input, sizes).Got? && Received(input, sizes).len >= 0
    ensures var r := Received(input, sizes);
      && Whole(input, sizes) && Consumed(input, sizes) == |r.payload| + 4
      && Framed(input[..|r.payload| + 4], r.payload)
      && ChecksumOk(input[..|r.payload| + 4], r.payload)
      && r.len == |r.payload|
  {
    var k := FirstHash(input);
    var raw := input[..k + 3];
    assert raw[..k] == input[..k];
    JudgedPacket(raw, k);
  }

  /** A bad checksum on a packet whose first byte is not `#`: the packet read is framed and its field does not match. */
  lemma ReceivedBadChecksum(input: seq<Byte>, sizes: seq<nat>)
    requires Received(input, sizes) == GetFailed(BadChecksum) && input[0] != HASH
    ensures var raw := input[..Consumed(input, sizes)];
      |raw| >= 4 && Framed(raw, raw[1..|raw| - 3]) && !ChecksumOk(raw, raw[1..|raw| - 3])
  {
    var k := FirstHash(input);
    var raw := input[..k + 3];
    assert raw[..k] == input[..k];
    JudgedPacket(raw, k);
  }

  class Link {
    /** Bytes the debugger has sent that the stub has not read yet. */
    var inbox: seq<Byte>
    /** Every byte the stub has sent. */
    var sent: seq<Byte>
    /** `dumpatcycle`: the cycle at which the simulator stops again. */
    var dumpAt: int

    constructor (inbox: seq<Byte>)
      ensures this.inbox == inbox && sent == [] && dumpAt == 0
    {
      this.inbox, sent, dumpAt := inbox, [], 0;
    }

    /** `recv` of at most `want` bytes, of which the connection delivers `size` when it has them. */
    method Recv(want: nat, size: nat) returns (got: seq<Byte>)
      modifies this
      ensures |got| == Min(Min(want, size), |old(inbox)|)
      ensures old(inbox) == got + inbox && sent == old(sent) && dumpAt == old(dumpAt)
    {
      var n := Min(Min(want, size), |inbox|);
      got, inbox := inbox[..n], inbox[n..];
    }

    /** `_gdb_send`: one byte out. */
    method Put(c: Byte)
      modifies this
      ensures sent == old(sent) + [c] && inbox == old(inbox) && dumpAt == old(dumpAt)
    {
      sent := sent + [c];
    }

    /** The scan of `escape_chars` for one byte. */
    method IsEscapeChar(c: Byte) returns (special: bool)
      ensures special <==> c in ESCAPE_CHARS
    {
      var j := 0;
      while j < |ESCAPE_CHARS| && ESCAPE_CHARS[j] != c
        invariant 0 <= j <= |ESCAPE_CHARS| && c !in ESCAPE_CHARS[..j]
      {
        j := j + 1;
      }
      if j == |ESCAPE_CHARS| {
        assert ESCAPE_CHARS[..j] == ESCAPE_CHARS;
      }
      special := j < |ESCAPE_CHARS|;
    }

    /** `gdb_send`: each byte, preceded by `}` and toggled when it is one of `escape_chars`. */
    method SendEscaped(msg: seq<Byte>)
      modifies this
      ensures sent == old(sent) + Escape(msg) && inbox == old(inbox) && dumpAt == old(dumpAt)
    {
      var i := 0;
      while i < |msg|
        invariant 0 <= i <= |msg|
        invariant sent == old(sent) + Escape(msg[..i]) && inbox == old(inbox) && dumpAt == old(dumpAt)
      {
        var special := IsEscapeChar(msg[i]);
        EscapeSnoc(msg[..i], msg[i]);
        if special {
          Put(BRACE);
          Put(Flip(msg[i]));
        } else {
          Put(msg[i]);
        }
        assert msg[..i + 1] == msg[..i] + [msg[i]];
        i := i + 1;
      }
      assert msg[..i] == msg;
    }

    /** The checksum loop of `gdb_send_message`. */
    method MessageSum(msg: seq<Byte>) returns (csum: Byte)
      ensures csum == Sum(msg)
    {
      csum := 0;
      var i := 0;
      while i < |msg|
        invariant 0 <= i <= |msg| && csum == Sum(msg[..i])
      {
        assert msg[..i + 1][..i] == msg[..i];
        csum := (csum + msg[i]) % 256;
        i := i + 1;
      }
      assert msg[..i] == msg;
    }

    /** One transmission: `$`, the escaped payload, `#` and the checksum as two hex digits. */
    method SendPacket(msg: seq<Byte>, csum: Byte)
      requires csum == Sum(msg)
      modifies this
      ensures sent == old(sent) + Packet(msg) && inbox == old(inbox) && dumpAt == old(dumpAt)
    {
      Put(DOLLAR);
      SendEscaped(msg);
      Put(HASH);
      var digits := Hex2(csum);
      Put(digits[0]);
      Put(digits[1]);
      assert digits == [digits[0], digits[1]];
    }

    /**
     * `gdb_send_message`: the packet, then one reply byte; `-` sends the
     * same packet again, `+` ends the exchange, anything else is fatal.
     */
    method SendMessage(msg: seq<Byte>) returns (r: Sent)
      modifies this
      ensures sent == old(sent) + Repeat(Packet(msg), Naks(old(inbox)) + 1)
      ensures inbox == old(inbox)[Min(Naks(old(inbox)) + 1, |old(inbox)|)..]
      ensures r == AckOutcome(old(inbox)) && dumpAt == old(dumpAt)
    {
      var csum := MessageSum(msg);
      ghost var s := inbox;
      ghost var n := Naks(s);
      ghost var t: nat := 0;
      while true
        invariant t <= n && t <= |s|
        invariant sent == old(sent) + Repeat(Packet(msg), t) && inbox == s[t..]
        invariant dumpAt == old(dumpAt)
        decreases |inbox|
      {
        SendPacket(msg, csum);
        assert sent == old(sent) + Repeat(Packet(msg), t + 1);
        if inbox == [] {
          assert t == n;
          return SendFailed(AssertFailed);
        }
        var c := inbox[0];
        assert c == s[t];
        inbox := inbox[1..];
        if c != MINUS {
          assert t == n;
          t := t + 1;
          return if c == PLUS then Acked else SendFailed(BadAck);
        }
        t := t + 1;
      }
    }

    /** The `memchr` for `#`: the first index holding it, or -1. */
    method FindHash(buf: seq<Byte>) returns (k: int)
      ensures -1 <= k < |buf|
      ensures k == -1 <==> HASH !in buf
      ensures k != -1 ==> buf[k] == HASH && HASH !in buf[..k]
    {
      k := 0;
      while k < |buf|
        invariant 0 <= k <= |buf| && HASH !in buf[..k]
      {
        if buf[k] == HASH {
          return;
        }
        assert buf[..k + 1] == buf[..k] + [buf[k]];
        k := k + 1;
      }
      assert buf[..k] == buf;
      k := -1;
    }

    /**
     * The checksum loop of `gdb_get_message`: the byte sum from after the
     * first byte up to the next `#`, at k.
     */
    method Checksum(buf: seq<Byte>, k: nat) returns (csum: Byte)
      requires 1 <= k < |buf| && buf[k] == HASH && HASH !in buf[1..k]
      ensures csum == Sum(buf[1..k])
    {
      forall j | 1 <= j < k
        ensures buf[j] != HASH
      {
        assert buf[j] == buf[1..k][j - 1];
      }
      csum := 0;
      var cur := 1;
      while buf[cur] != HASH
        invariant 1 <= cur <= k && csum == Sum(buf[1..cur])
        decreases k - cur
      {
        assert buf[1..cur + 1][..cur - 1] == buf[1..cur];
        csum := (csum + buf[cur]) % 256;
        cur := cur + 1;
      }
    }

    /** One `recv` of the receive loop: the i-th size, into what is left of the buffer. */
    method RecvTurn(sizes: seq<nat>, i: nat, buf: seq<Byte>) returns (got: seq<Byte>)
      requires |buf| < MSG_MAX && HASH !in buf
      modifies this
      ensures old(inbox) == got + inbox && sent == old(sent) && dumpAt == old(dumpAt)
      ensures got == [] ==> Gathered(buf, old(inbox), sizes, i) == Gather(|buf|, false)
      ensures got != [] ==> |buf + got| <= MSG_MAX && Gathered(buf, old(inbox), sizes, i) == Gathered(buf + got, inbox, sizes, i + 1)
    {
      var size := if i < |sizes| then sizes[i] else MSG_MAX;
      got := Recv(MSG_MAX - |buf|, size);
      if got == [] {
        GatheredStops(buf, old(inbox), sizes, i);
      } else {
        GatheredMore(buf, old(inbox), sizes, i, got, inbox);
      }
    }

    /**
     * `recv` until a `#` is in the buffer; the i-th call delivers sizes[i]
     * bytes (all it may once sizes runs out).
     */
    method RecvUntilHash(sizes: seq<nat>) returns (buf: seq<Byte>, k: int, fault: bool)
      modifies this
      ensures old(inbox) == buf + inbox && sent == old(sent) && dumpAt == old(dumpAt)
      ensures var g := Gathering(old(inbox), sizes); |buf| == g.read && fault == !g.ok
      ensures !fault ==> 0 <= k < |buf| <= MSG_MAX && buf[k] == HASH && HASH !in buf[..k] && k == FirstHash(old(inbox))
    {
      ghost var input := inbox;
      ghost var g := Gathering(input, sizes);
      buf, k, fault := [], -1, false;
      var i := 0;
      while true
        invariant |buf| <= MSG_MAX && input == buf + inbox
        invariant sent == old(sent) && dumpAt == old(dumpAt)
        invariant HASH !in buf && Gathered(buf, inbox, sizes, i) == g
        decreases MSG_MAX - |buf|
      {
        if |buf| >= MSG_MAX {
          GatheredStops(buf, inbox, sizes, i);
          return buf, k, true;
        }
        var got := RecvTurn(sizes, i, buf);
        if got == [] {
          return buf, k, true;
        }
        Regroup(input, buf, got, inbox);
        buf := buf + got;
        i := i + 1;
        k := FindHash(buf);
        if k != -1 {
          GatheredFound(buf, inbox, sizes, i);
          FirstHashFront(input, buf, inbox, k);
          return buf, k, false;
        }
      }
    }

    /**
     * The checksum stage of `gdb_get_message` on the k + 3 bytes read, whose
     * first `#` is at k: the packet is acknowledged with `+` when the sum
     * matches the checksum field.
     */
    method CheckPacket(buf: seq<Byte>, k: nat) returns (r: Got)
      requires |buf| == k + 3
      modifies this
      ensures r == Judged(buf, k)
      ensures sent == old(sent) + (if r.Got? then [PLUS] else []) && inbox == old(inbox) && dumpAt == old(dumpAt)
    {
      var j := FindHash(buf[1..]);
      if j == -1 {
        return GetFailed(Unframed);
      }
      FirstHashIs(buf[1..], j);
      AfterFirst(buf, j);
      var csum := Checksum(buf, j + 1);
      if csum != Strtol16(buf[k + 1..]) {
        return GetFailed(BadChecksum);
      }
      Put(PLUS);
      r := Got(if k == 0 then buf[1..] else buf[1..k], k - 1);
    }

    /**
     * The end of `gdb_get_message` once the receive loop has read buf,
     * whose first `#` is at k: a blocking `recv` for the rest of the
     * checksum field, then the checksum stage.
     */
    method Complete(buf: seq<Byte>, k: nat) returns (r: Got)
      requires |buf| <= k + 3
      modifies this
      ensures var all := buf + old(inbox);
        r == (if |all| < k + 3 then GetFailed(AssertFailed) else Judged(all[..k + 3], k))
      ensures inbox == old(inbox)[Min(k + 3 - |buf|, |old(inbox)|)..] && dumpAt == old(dumpAt)
      ensures sent == old(sent) + (if r.Got? then [PLUS] else [])
    {
      var all := buf;
      if |buf| < k + 3 {
        var need := k + 3 - |buf|;
        var got := Recv(need, need);
        if |got| < need {
          return GetFailed(AssertFailed);
        }
        all := buf + got;
      }
      assert all == (buf + old(inbox))[..k + 3];
      r := CheckPacket(all, k);
    }

    /**
     * `gdb_get_message`: one packet from the debugger. The receive loop
     * reads until a `#` is in the buffer; more bytes than the packet is
     * lost sync, fewer are completed by one blocking `recv`. The checksum
     * scan runs from the second byte to the next `#`, and the packet is
     * accepted, and acknowledged with `+`, exactly when that sum equals the
     * checksum field read by `strtol`. The payload is the C string after
     * the first byte and the reported length is the `#`'s index minus one.
     * With `#` as the first byte the scan stops at a `#` in the checksum
     * field, or runs off the buffer.
     */
    method GetMessage(sizes: seq<nat>) returns (r: Got)
      modifies this
      ensures r == Received(old(inbox), sizes)
      ensures inbox == old(inbox)[Consumed(old(inbox), sizes)..] && dumpAt == old(dumpAt)
      ensures sent == old(sent) + (if r.Got? then [PLUS] else [])
    {
      ghost var input := inbox;
      var buf, k, fault := RecvUntilHash(sizes);
      ghost var g := Gathering(input, sizes);
      if fault {
        assert Settled(input, g) == GetFailed(if g.read >= MSG_MAX then AssertFailed else Closed);
        return GetFailed(if |buf| >= MSG_MAX then AssertFailed else Closed);
      }
      var len := k + 1;
      if len + 2 >= MSG_MAX {
        assert Settled(input, g) == GetFailed(AssertFailed);
        return GetFailed(AssertFailed);
      }
      if |buf| > len + 2 {
        assert Settled(input, g) == GetFailed(LostSync);
        return GetFailed(LostSync);
      }
      r := Complete(buf, k);
    }

    /**
     * `wait_for_gdb`: packets are answered until the debugger asks for a
     * single step (`dumpatcycle = cycle + 1`, back to the simulator), kills
     * the simulator, or the link fails. regs holds `CORE_reg_read(0..15)`
     * and mem is `read_byte`; the i-th `recv` of every packet delivers
     * sizes[i] bytes.
     */
    method WaitForGdb(sizes: seq<nat>, regs: seq<Word>, mem: int -> Byte, cycle: int) returns (e: Ending)
      requires |regs| == 16
      modifies this
      ensures e == Resumed ==> dumpAt == cycle + 1
      ensures e != Resumed ==> dumpAt == old(dumpAt)
    {
      while true
        invariant dumpAt == old(dumpAt)
        decreases |inbox|
      {
        var got := GetMessage(sizes);
        if got.GetFailed? {
          return Stopped(got.fault);
        }
        match Command(CStr(got.payload), regs, mem)
        case Reply(msg) =>
          ghost var before := |inbox|;
          var s := SendMessage(msg);
          if s.SendFailed? {
            return Stopped(s.fault);
          }
          assert |inbox| < before + 1;
        case StepOnce =>
          dumpAt := cycle + 1;
          return Resumed;
        case Kill =>
          return Killed;
        case Undefined =>
          return Stopped(BadRequest);
      }
    }

    /** `stop_and_wait_for_gdb`: report SIGTRAP, then serve the debugger. */
    method StopAndWait(sizes: seq<nat>, regs: seq<Word>, mem: int -> Byte, cycle: int) returns (e: Ending)
      requires |regs| == 16
      modifies this
      ensures e == Resumed ==> dumpAt == cycle + 1
      ensures e != Resumed ==> dumpAt == old(dumpAt)
    {
      var s := SendMessage(SIGTRAP_REPLY);
      if s.SendFailed? {
        return Stopped(s.fault);
      }
      e := WaitForGdb(sizes, regs, mem, cycle);
    }
  }
}
