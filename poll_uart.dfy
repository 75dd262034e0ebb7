/**
 * The receive ring buffer of the polling UART (simulator.c, lines 79-90 and
 * 1783-1893).  The socket thread stores each received byte at `tail`; the
 * simulated program reads the status register (is data waiting? is the
 * transmitter idle?) and the data register, which hands out the byte at
 * `head`.  `head == NULL` means empty and `head == tail` means full.
 *
 * The C pointers into `poll_uart_buffer` become indices, with -1 for NULL.
 */
module PollUart {
  import opened StateLog

  /** The low byte of a buffer word: the `uint8_t` the data register returns. */
  function LowByte(w: Word): (b: bv8)
    ensures b as Word == w & 0xff
  {
    (w & 0xff) as bv8
  }

  /**
   * The bytes waiting in buffer b, oldest first: from head up to (not
   * including) tail, wrapping at the end; all of b, starting at head, when
   * head == tail.
   */
  ghost function Ring(b: seq<Word>, head: int, tail: nat): (q: seq<Word>)
    requires -1 <= head < |b| && tail < |b|
    ensures |q| == if head == -1 then 0 else if head < tail then tail - head else |b| - head + tail
    ensures head != -1 ==> q != [] && q[0] == b[head]
  {
    if head == -1 then []
    else if head < tail then b[head..tail]
    else b[head..] + b[..tail]
  }

  /** The index after i, wrapping at the end of a buffer of n words. */
  function Succ(i: nat, n: nat): (j: nat)
    requires i < n
    ensures j < n && (j == 0 <==> i == n - 1)
  {
    if i + 1 == n then 0 else i + 1
  }

  /**
   * Storing c at tail (and making tail the head of an empty buffer) appends
   * c, unless the buffer was full: then every waiting byte but the new one
   * is lost, since the region from head to the new tail has one slot.
   */
  lemma RingPush(b: seq<Word>, head: int, tail: nat, c: Word)
    requires -1 <= head < |b| && tail < |b|
    ensures var h := if head == -1 then tail else head;
      Ring(b[tail := c], h, Succ(tail, |b|)) ==
        if |Ring(b, head, tail)| < |b| then Ring(b, head, tail) + [c] else [c]
  {
    var b' := b[tail := c];
    var h := if head == -1 then tail else head;
    var t' := Succ(tail, |b|);
    var q := Ring(b, head, tail);
    var q' := Ring(b', h, t');
    if head == -1 {
      assert q' == [c] by {
        if t' == 0 {
          assert b'[h..] == [c];
        } else {
          assert b'[h..t'] == [c];
        }
      }
    } else if head < tail {
      if t' == 0 {
        assert q' == b'[head..] + b'[..0];
        assert b'[head..] == b[head..tail] + [c];
      } else {
        assert b'[head..t'] == b[head..tail] + [c];
      }
    } else if head > tail {
      assert |q| < |b|;
      assert q' == b'[head..] + b'[..t'];
      assert b'[head..] == b[head..];
      assert b'[..t'] == b[..tail] + [c];
    } else {
      assert |q| == |b|;
      if t' == 0 {
        assert b'[h..] == [c];
      } else {
        assert b'[h..t'] == [c];
      }
    }
  }

  /**
   * Taking the byte at head and stepping head on (to NULL when it meets
   * tail) drops exactly the oldest byte.
   */
  lemma RingPop(b: seq<Word>, head: nat, tail: nat)
    requires head < |b| && tail < |b|
    ensures var n := Succ(head, |b|);
      Ring(b, if n == tail then -1 else n, tail) == Ring(b, head, tail)[1..]
  {
    var n := Succ(head, |b|);
    var q := Ring(b, head, tail);
    if head < tail {
      if n == tail {
        assert |q| == 1;
      } else {
        assert b[n..tail] == b[head..tail][1..];
      }
    } else if n == 0 {
      assert q == [b[head]] + b[..tail];
      if tail == 0 {
        assert |q| == 1;
      } else {
        assert b[0..tail] == b[..tail];
      }
    } else {
      assert b[head..] == [b[head]] + b[n..];
    }
  }

  class Uart {
    /** POLL_UART_BUFSIZE and the status bits (defined outside the file, so parameters). */
    const size: nat
    const rxBit: nat
    const txBit: nat

    var buf: array<Word>
    /** Index of the oldest waiting byte, -1 when the buffer is empty. */
    var head: int
    /** Index of the next free slot. */
    var tail: nat
    /** A UART client is connected (`poll_uart_client != INVALID_CLIENT`); set by the socket thread. */
    var client: bool

    ghost predicate Valid()
      reads this
    {
      buf.Length == size && 4 <= size && -1 <= head < size && tail < size
      && rxBit < 8 && txBit < 8 && rxBit != txBit
    }

    /** The bytes waiting to be read, oldest first. */
    ghost function Contents(): seq<Word>
      reads this, buf
      requires Valid()
    {
      Ring(buf[..], head, tail)
    }

    /** The static buffer: empty, tail at the start, no client yet. */
    constructor (size: nat, rxBit: nat, txBit: nat)
      requires 4 <= size && rxBit < 8 && txBit < 8 && rxBit != txBit
      ensures Valid() && Contents() == [] && tail == 0 && !client && fresh(buf)
      ensures this.size == size && this.rxBit == rxBit && this.txBit == txBit
    {
      this.size, this.rxBit, this.txBit := size, rxBit, txBit;
      buf := new Word[size](_ => 0);
      head, tail, client := -1, 0, false;
    }

    /** The socket thread accepts a client (`SW_A(&poll_uart_client, client)`). */
    method Connect()
      requires Valid()
      modifies this
      ensures Valid() && client && Contents() == old(Contents()) && tail == old(tail)
    {
      client := true;
    }

    /** The client is gone (`SW_A(&poll_uart_client, INVALID_CLIENT)`); waiting bytes stay. */
    method Disconnect()
      requires Valid()
      modifies this
      ensures Valid() && !client && Contents() == old(Contents()) && tail == old(tail)
    {
      client := false;
    }

    /** The socket thread receives byte c. */
    method Receive(c: bv8)
      requires Valid()
      modifies this, buf
      ensures Valid() && buf == old(buf) && client == old(client)
      ensures |old(Contents())| < size ==> Contents() == old(Contents()) + [c as Word]
      ensures |old(Contents())| == size ==> Contents() == [c as Word]
    {
      RingPush(buf[..], head, tail, c as Word);
      buf[tail] := c as Word;
      if head == -1 {
        head := tail;
      }
      tail := Succ(tail, size);
    }

    /** `poll_uart_status_read`: the RX bit says data is waiting, the TX bit that no client is connected. */
    method StatusRead() returns (r: bv8)
      requires Valid()
      ensures Bit(r, rxBit) <==> Contents() != []
      ensures Bit(r, txBit) <==> !client
      ensures forall i: nat :: i < 8 && i != rxBit && i != txBit ==> !Bit(r, i)
    {
      r := 0;
      if head != -1 {
        r := r | (1 << rxBit);
      }
      if !client {
        r := r | (1 << txBit);
      }
      BitsOfTwo(head != -1, !client, rxBit, txBit);
    }

    /** `poll_uart_status_write`: drop every waiting byte. */
    method StatusWrite()
      requires Valid()
      modifies this
      ensures Valid() && Contents() == [] && tail == 0
      ensures buf == old(buf) && client == old(client)
    {
      head, tail := -1, 0;
    }

    /**
     * `poll_uart_rxdata_read`: the oldest waiting byte, which leaves the
     * buffer; on an empty buffer, the low byte of slot 3 and nothing moves.
     */
    method RxRead() returns (r: bv8)
      requires Valid()
      modifies this
      ensures Valid() && buf == old(buf) && tail == old(tail) && client == old(client)
      ensures old(Contents()) == [] ==> r == LowByte(buf[3]) && head == old(head)
      ensures old(Contents()) != [] ==> r == LowByte(old(Contents())[0]) && Contents() == old(Contents())[1..]
    {
      if head == -1 {
        r := LowByte(buf[3]);
      } else {
        RingPop(buf[..], head, tail);
        r := LowByte(buf[head]);
        var h := Succ(head, size);
        head := if h == tail then -1 else h;
      }
    }
  }

  /** Bit k of a status byte. */
  predicate Bit(r: bv8, k: nat)
    requires k < 8
  {
    (r >> k) & 1 == 1
  }

  /** The two status bits land where they should and nowhere else. */
  lemma BitsOfTwo(a: bool, b: bool, i: nat, j: nat)
    requires i < 8 && j < 8 && i != j
    ensures var r: bv8 := (if a then 1 << i else 0) | (if b then 1 << j else 0);
      && (Bit(r, i) <==> a)
      && (Bit(r, j) <==> b)
      && forall k: nat :: k < 8 && k != i && k != j ==> !Bit(r, k)
  {
  }
}
