// The serial-over-USB shim an application links in (examples/import/unusb.hpp):
// an 8-slot transmit ring the application fills with `write` and the host
// drains one byte per IN request, and a one-value receive slot the host fills
// with an OUT request and the application empties with `read`.  The two
// globals `tx_buffer` and `rx_buffer` are the fields of one object here.

module UnUsb {
  import opened Common

  /** `RING_BUFFER_SIZE`. */
  const RING_SIZE: nat := 8
  /** The `bRequest` both directions answer to. */
  const UNUSB_REQUEST: byte := 137
  /** The empty receive slot. */
  const NO_BYTE: int := -1

  // ---------------------------------------------------------------------
  // The ring as a value

  /** A snapshot of `tx_buffer`. */
  datatype Ring = Ring(buffer: seq<byte>, head: nat, tail: nat)

  predicate WellFormed(r: Ring)
  {
    |r.buffer| == RING_SIZE && r.head < RING_SIZE && r.tail < RING_SIZE
  }

  /** The number of bytes waiting, from `tail` up to `head` around the ring. */
  function Count(r: Ring): nat
  {
    (r.head - r.tail) % RING_SIZE
  }

  /** The bytes waiting, oldest first. */
  function Items(r: Ring): seq<byte>
    requires WellFormed(r)
  {
    seq(Count(r), k requires 0 <= k < Count(r) => r.buffer[(r.tail + k) % RING_SIZE])
  }

  /** `write` gives up when the slot after `head` is `tail`. */
  predicate Full(r: Ring)
  {
    (r.head + 1) % RING_SIZE == r.tail
  }

  /** `write(c)` without blocking. */
  function Put(r: Ring, c: byte): Ring
    requires WellFormed(r)
  {
    if Full(r) then r else Ring(r.buffer[r.head := c], (r.head + 1) % RING_SIZE, r.tail)
  }

  /** The byte an IN request sends and the ring after it, on a ring that is not empty. */
  function Take(r: Ring): (byte, Ring)
    requires WellFormed(r) && r.head != r.tail
  {
    (r.buffer[r.tail], Ring(r.buffer, r.head, (r.tail + 1) % RING_SIZE))
  }

  /** `tx_buffer` as it starts. */
  function EmptyRing(): Ring
  {
    Ring(seq(RING_SIZE, _ => 0), 0, 0)
  }

  // ---------------------------------------------------------------------
  // Properties of the ring

  /** The ring is empty exactly when `head` and `tail` meet, and full exactly when seven bytes wait. */
  lemma EmptyAndFull(r: Ring)
    requires WellFormed(r)
    ensures |Items(r)| <= RING_SIZE - 1
    ensures |Items(r)| == 0 <==> r.head == r.tail
    ensures Full(r) <==> |Items(r)| == RING_SIZE - 1
  {
    CountValue(r);
  }

  lemma CountValue(r: Ring)
    requires WellFormed(r)
    ensures Count(r) == if r.head >= r.tail then r.head - r.tail else r.head - r.tail + RING_SIZE
  {
    if r.head >= r.tail {
      ModUnique(r.head - r.tail, RING_SIZE, 0, r.head - r.tail);
    } else {
      ModUnique(r.head - r.tail, RING_SIZE, -1, r.head - r.tail + RING_SIZE);
    }
  }

  /** One step past `t` and then `k` more is `k + 1` steps past `t`. */
  lemma StepAround(t: nat, k: nat)
    requires t < RING_SIZE
    ensures ((t + 1) % RING_SIZE + k) % RING_SIZE == (t + (k + 1)) % RING_SIZE
  {
    if t + 1 == RING_SIZE {
      assert (t + 1) % RING_SIZE == 0;
      ModUnique(t + k + 1, RING_SIZE, 1 + k / RING_SIZE, k % RING_SIZE);
    }
  }

  /** `write` on a full ring changes nothing; otherwise it appends the byte, and the ring stays well formed. */
  lemma PutAppends(r: Ring, c: byte)
    requires WellFormed(r)
    ensures WellFormed(Put(r, c))
    ensures Full(r) ==> Put(r, c) == r
    ensures !Full(r) ==> Items(Put(r, c)) == Items(r) + [c]
  {
    EmptyAndFull(r);
    if !Full(r) {
      var n := Put(r, c);
      assert Count(n) == Count(r) + 1 by { CountValue(r); }
      forall k | 0 <= k < Count(r)
        ensures Items(n)[k] == Items(r)[k]
      {
        EmptyAndFull(r);
        assert (r.tail + k) % RING_SIZE != r.head by { CountValue(r); }
      }
      assert (r.tail + Count(r)) % RING_SIZE == r.head by { CountValue(r); }
      assert Items(n)[Count(r)] == c;
    }
  }

  /** An IN request on a ring that is not empty sends its oldest byte and removes it. */
  lemma TakeFirst(r: Ring)
    requires WellFormed(r) && r.head != r.tail
    ensures WellFormed(Take(r).1)
    ensures |Items(r)| > 0 && Take(r).0 == Items(r)[0] && Items(Take(r).1) == Items(r)[1..]
  {
    var n := Take(r).1;
    assert Count(n) == Count(r) - 1 && Count(r) > 0 by {
      CountValue(r);
      CountValue(n);
    }
    var a, b := Items(n), Items(r)[1..];
    forall k | 0 <= k < |a|
      ensures a[k] == b[k]
    {
      TakeShift(r, k);
    }
  }

  /** The ring after an IN request holds at `k` what the ring before held at `k + 1`. */
  lemma TakeShift(r: Ring, k: nat)
    requires WellFormed(r) && r.head != r.tail && k + 1 < Count(r)
    ensures r.buffer[((r.tail + 1) % RING_SIZE + k) % RING_SIZE] == Items(r)[k + 1]
  {
    StepAround(r.tail, k);
  }

  /** `write` of each byte of `s` in turn. */
  function PutAll(r: Ring, s: seq<byte>): Ring
    requires WellFormed(r)
    decreases |s|
  {
    if |s| == 0 then r
    else
      PutAppends(r, s[0]);
      PutAll(Put(r, s[0]), s[1..])
  }

  /** Bytes written to a ring are kept in order until seven wait; the ones written after that are dropped. */
  lemma {:induction false} PutAllKeepsFirst(r: Ring, s: seq<byte>)
    requires WellFormed(r)
    ensures WellFormed(PutAll(r, s))
    ensures var all := Items(r) + s;
      Items(PutAll(r, s)) == all[..Min(|all|, RING_SIZE - 1)]
    decreases |s|
  {
    EmptyAndFull(r);
    var all := Items(r) + s;
    if |s| > 0 {
      PutAppends(r, s[0]);
      var n := Put(r, s[0]);
      PutAllKeepsFirst(n, s[1..]);
      if Full(r) {
        assert |Items(r)| == RING_SIZE - 1;
        assert all[..RING_SIZE - 1] == Items(r);
        PutAllFull(n, s[1..]);
      } else {
        assert Items(n) + s[1..] == all;
      }
    } else {
      assert all == Items(r);
    }
  }

  /** Once full, the ring ignores every later `write`. */
  lemma {:induction false} PutAllFull(r: Ring, s: seq<byte>)
    requires WellFormed(r) && Full(r)
    ensures PutAll(r, s) == r
    decreases |s|
  {
    if |s| > 0 {
      PutAllFull(Put(r, s[0]), s[1..]);
    }
  }

  /** The bytes `n` IN requests send. */
  function TakeAll(r: Ring, n: nat): seq<byte>
    requires WellFormed(r)
    decreases n
  {
    if n == 0 || r.head == r.tail then []
    else
      TakeFirst(r);
      [Take(r).0] + TakeAll(Take(r).1, n - 1)
  }

  /** IN requests send the waiting bytes oldest first, then nothing once the ring is empty. */
  lemma {:induction false} TakeAllInOrder(r: Ring, n: nat)
    requires WellFormed(r)
    ensures TakeAll(r, n) == Items(r)[..Min(n, |Items(r)|)]
    decreases n
  {
    EmptyAndFull(r);
    if n > 0 && r.head != r.tail {
      TakeFirst(r);
      TakeAllInOrder(Take(r).1, n - 1);
    }
  }

  /** The host reads back what the application wrote into the empty ring, in order, up to seven bytes. */
  lemma Fifo(s: seq<byte>, n: nat)
    ensures WellFormed(EmptyRing()) && WellFormed(PutAll(EmptyRing(), s))
    ensures var kept := s[..Min(|s|, RING_SIZE - 1)];
      TakeAll(PutAll(EmptyRing(), s), n) == kept[..Min(n, |kept|)]
  {
    var e := EmptyRing();
    assert Items(e) == [];
    PutAllKeepsFirst(e, s);
    assert Items(e) + s == s;
    TakeAllInOrder(PutAll(e, s), n);
  }

  // ---------------------------------------------------------------------
  // usbFunctionSetup as a value

  datatype Kind = Ignored | DeviceToHost | HostToDevice

  /**
   * The request's direction: `(bmRequestType & 0x60) == 1 << 5` (bits 6..5
   * are 01, a class request) and `bRequest` 137, then bit 7 for the direction.
   */
  function KindOf(requestType: byte, request: byte): Kind
  {
    if (requestType / 32) % 4 != 1 || request != UNUSB_REQUEST then Ignored
    else if requestType >= 128 then DeviceToHost
    else HostToDevice
  }

  /** The 16-bit `int` of the AVR, from the two bytes `memcpy` copies. */
  function Int16(lo: byte, hi: byte): (v: int)
    ensures -0x8000 <= v < 0x8000
    ensures v % 0x1_0000 == LE16(lo, hi)
  {
    var w := LE16(lo, hi);
    if w < 0x8000 then w else w - 0x1_0000
  }

  /** What `usbFunctionSetup` returns and leaves behind. */
  datatype Answer = Answer(len: nat, ring: Ring, rx: int, reply: Option<byte>)

  /** `usbFunctionSetup` on the 8 setup bytes: `reply` is the byte it stores at `data[10]`. */
  function Setup(r: Ring, rx: int, packet: seq<byte>): Answer
    requires WellFormed(r) && |packet| == 8
  {
    match KindOf(packet[0], packet[1])
    case Ignored => Answer(0, r, rx, None)
    case DeviceToHost =>
      if r.head == r.tail then Answer(0, r, rx, None)
      else Answer(1, Take(r).1, rx, Some(Take(r).0))
    case HostToDevice => Answer(0, r, Int16(packet[2], packet[3]), None)
  }

  /** A request that is not UnUsb's returns 0 and changes nothing. */
  lemma SetupIgnored(r: Ring, rx: int, packet: seq<byte>)
    requires WellFormed(r) && |packet| == 8
    requires (packet[0] / 32) % 4 != 1 || packet[1] != UNUSB_REQUEST
    ensures Setup(r, rx, packet) == Answer(0, r, rx, None)
  {
  }

  /** An IN request sends the oldest waiting byte, with length 1, or length 0 on an empty ring; the receive slot is untouched. */
  lemma SetupIn(r: Ring, rx: int, packet: seq<byte>)
    requires WellFormed(r) && |packet| == 8 && KindOf(packet[0], packet[1]) == DeviceToHost
    ensures var a := Setup(r, rx, packet);
      WellFormed(a.ring) && a.rx == rx &&
      (|Items(r)| == 0 ==> a == Answer(0, r, rx, None)) &&
      (|Items(r)| > 0 ==> a.len == 1 && a.reply == Some(Items(r)[0]) && Items(a.ring) == Items(r)[1..])
  {
    EmptyAndFull(r);
    if r.head != r.tail {
      TakeFirst(r);
    }
  }

  /**
   * An OUT request stores `wValue` into the receive slot as a signed 16-bit
   * number, so the slot reads as available unless `wValue` is 0xFFFF.
   */
  lemma SetupOut(r: Ring, rx: int, packet: seq<byte>)
    requires WellFormed(r) && |packet| == 8 && KindOf(packet[0], packet[1]) == HostToDevice
    ensures var a := Setup(r, rx, packet); var w := LE16(packet[2], packet[3]);
      a.len == 0 && a.ring == r && a.reply.None? &&
      (w < 0x8000 ==> a.rx == w) &&
      (a.rx == NO_BYTE <==> w == 0xFFFF)
  {
  }

  // ---------------------------------------------------------------------
  // Waiting for the host

  /**
   * One `unUsbPoll()` as the host drives it: the SETUP packet that
   * `usbPollLite` hands to `usbFunctionSetup`, or None for a poll without
   * one.  The driver behind `usbPollLite` lives in the bootloader and is not
   * part of this model.
   */
  type HostPoll = Option<seq<byte>>

  predicate PollsOk(polls: seq<HostPoll>)
  {
    forall i :: 0 <= i < |polls| ==> polls[i].Some? ==> |polls[i].value| == 8
  }

  /** Where a wait leaves the shim: the ring, the receive slot, the bytes sent to the host, and the next poll. */
  datatype Drained = Drained(ring: Ring, rx: int, sent: seq<byte>, next: nat)

  /**
   * `while (block && tx_buffer.head != tx_buffer.tail) { unUsbPoll(); }`
   * from poll i on; None when the polls run out first, that is, when the
   * wait has not ended.
   */
  function Drain(r: Ring, rx: int, polls: seq<HostPoll>, i: nat): (d: Option<Drained>)
    requires WellFormed(r) && PollsOk(polls) && i <= |polls|
    ensures d.Some? ==> WellFormed(d.value.ring) && d.value.ring.head == d.value.ring.tail && i <= d.value.next <= |polls|
    decreases |polls| - i
  {
    if r.head == r.tail then Some(Drained(r, rx, [], i))
    else if i == |polls| then None
    else if polls[i].None? then Drain(r, rx, polls, i + 1)
    else
      var a := Setup(r, rx, polls[i].value);
      var d := Drain(a.ring, a.rx, polls, i + 1);
      if d.None? then None
      else Some(d.value.(sent := (if a.reply.Some? then [a.reply.value] else []) + d.value.sent))
  }

  /**
   * `write(c)` with `block` set: wait for the ring to empty, store the byte,
   * and wait for it to be taken; None when the polls run out in either wait.
   */
  function WriteBlocking(r: Ring, rx: int, c: byte, polls: seq<HostPoll>): (w: Option<(nat, Drained)>)
    requires WellFormed(r) && PollsOk(polls)
  {
    var d1 := Drain(r, rx, polls, 0);
    if d1.None? then None
    else if Full(d1.value.ring) then Some((0, d1.value))
    else
      var d2 := Drain(Put(d1.value.ring, c), d1.value.rx, polls, d1.value.next);
      if d2.None? then None
      else Some((1, d2.value.(sent := d1.value.sent + d2.value.sent)))
  }

  /** A wait that ends has sent the host every waiting byte, oldest first. */
  lemma {:induction false} DrainSends(r: Ring, rx: int, polls: seq<HostPoll>, i: nat)
    requires WellFormed(r) && PollsOk(polls) && i <= |polls|
    ensures var d := Drain(r, rx, polls, i); d.Some? ==> d.value.sent == Items(r)
    decreases |polls| - i
  {
    EmptyAndFull(r);
    if r.head != r.tail && i < |polls| {
      if polls[i].None? {
        DrainSends(r, rx, polls, i + 1);
      } else {
        var p := polls[i].value;
        var a := Setup(r, rx, p);
        DrainSends(a.ring, a.rx, polls, i + 1);
        match KindOf(p[0], p[1])
        case Ignored =>
        case DeviceToHost =>
          SetupIn(r, rx, p);
          assert Items(r) == [Items(r)[0]] + Items(r)[1..];
        case HostToDevice =>
      }
    }
  }

  /**
   * A blocking write that returns has stored the byte, and the host has by
   * then read every byte that was waiting and the new one, in order; the
   * ring is empty again.
   */
  lemma BlockingWriteSends(r: Ring, rx: int, c: byte, polls: seq<HostPoll>)
    requires WellFormed(r) && PollsOk(polls)
    ensures var w := WriteBlocking(r, rx, c, polls);
      w.Some? ==> w.value.0 == 1 && w.value.1.sent == Items(r) + [c] && w.value.1.ring.head == w.value.1.ring.tail
  {
    var d1 := Drain(r, rx, polls, 0);
    DrainSends(r, rx, polls, 0);
    if d1.Some? {
      var e := d1.value.ring;
      EmptyAndFull(e);
      PutAppends(e, c);
      assert Items(Put(e, c)) == [c];
      DrainSends(Put(e, c), d1.value.rx, polls, d1.value.next);
    }
  }

  // ---------------------------------------------------------------------
  // The shim's state

  class UnUsb {
    /** `tx_buffer.buffer`. */
    const tx: array<byte>
    /** `tx_buffer.head`, where `write` stores next. */
    var head: nat
    /** `tx_buffer.tail`, what an IN request sends next. */
    var tail: nat
    /** `rx_buffer`: the last value the host sent, or -1. */
    var rx: int
    /** Whether `write` waits for the host to take the bytes. */
    var block: bool

    ghost predicate Valid()
      reads this
    {
      tx.Length == RING_SIZE && head < RING_SIZE && tail < RING_SIZE && -0x8000 <= rx < 0x8000
    }

    function State(): Ring
      reads this, tx
    {
      Ring(tx[..], head, tail)
    }

    /** The static initialisers: an empty ring of zeros, no byte received, no blocking. */
    constructor ()
      ensures Valid() && fresh(tx)
      ensures State() == EmptyRing() && rx == NO_BYTE && !block
    {
      tx := new byte[RING_SIZE](_ => 0);
      head, tail, rx := 0, 0, NO_BYTE;
      block := false;
    }

    /** `begin(_block)`. */
    method Begin(b: bool)
      modifies this
      ensures block == b && head == old(head) && tail == old(tail) && rx == old(rx)
    {
      block := b;
    }

    /**
     * `write(c)`: 1 when the byte was stored, 0 when the ring was full.
     * With `block` set it first waits for the host to empty the ring and
     * afterwards for it to take the byte, serving the host's `polls`;
     * `returned` is false when they run out while it is still waiting.
     * `sent` is what the host read meanwhile.
     */
    method Write(c: byte, polls: seq<HostPoll>) returns (n: nat, returned: bool, sent: seq<byte>)
      requires Valid() && PollsOk(polls)
      modifies this, tx
      ensures Valid() && block == old(block)
      ensures !block ==>
        returned && sent == [] && rx == old(rx) && State() == Put(old(State()), c) && n == (if Full(old(State())) then 0 else 1)
      ensures block ==> var w := WriteBlocking(old(State()), old(rx), c, polls);
        returned == w.Some? &&
        (returned ==> n == w.value.0 && State() == w.value.1.ring && rx == w.value.1.rx && sent == w.value.1.sent)
    {
      var next: nat;
      n := 0;
      returned, next, sent := Wait(polls, 0);
      if !returned {
        return;
      }
      ghost var r1, rx1 := State(), rx;
      var i := (head + 1) % RING_SIZE;
      if i == tail {
        return;
      }
      tx[head] := c;
      head := i;
      n := 1;
      assert State() == Put(r1, c);
      var more: seq<byte>;
      returned, next, more := Wait(polls, next);
      sent := sent + more;
    }

    /** The waiting loop of `write`, from poll i on. */
    method Wait(polls: seq<HostPoll>, i: nat) returns (ok: bool, next: nat, sent: seq<byte>)
      requires Valid() && PollsOk(polls) && i <= |polls|
      modifies this, tx
      ensures Valid() && block == old(block)
      ensures !block ==> ok && next == i && sent == [] && State() == old(State()) && rx == old(rx)
      ensures block ==> var d := Drain(old(State()), old(rx), polls, i);
        ok == d.Some? && (ok ==> State() == d.value.ring && rx == d.value.rx && sent == d.value.sent && next == d.value.next)
    {
      ok, next, sent := true, i, [];
      ghost var start := Drain(State(), rx, polls, i);
      if start.Some? {
        assert [] + start.value.sent == start.value.sent;
      }
      while block && head != tail
        invariant Valid() && block == old(block) && i <= next <= |polls|
        invariant !block ==> next == i && sent == [] && State() == old(State()) && rx == old(rx)
        invariant block ==> start == Drain(old(State()), old(rx), polls, i)
        invariant block ==> var d := Drain(State(), rx, polls, next);
          (start.None? <==> d.None?) && (d.Some? ==> start == Some(d.value.(sent := sent + d.value.sent)))
        decreases |polls| - next
      {
        if next == |polls| {
          return false, next, sent;
        }
        ghost var before := sent;
        if polls[next].Some? {
          var packet := polls[next].value;
          var data := new byte[11](k => if k < 8 then packet[k] else 0);
          assert data[..8] == packet;
          ghost var a := Setup(State(), rx, packet);
          var len := FunctionSetup(data);
          ghost var rs := if a.reply.Some? then [a.reply.value] else [];
          if len == 1 {
            sent := sent + [data[10]];
          }
          assert sent == before + rs;
          ghost var d' := Drain(State(), rx, polls, next + 1);
          if d'.Some? {
            AppendAssoc(before, rs, d'.value.sent);
          }
        }
        next := next + 1;
      }
    }

    /** `available()`. */
    method Available() returns (b: bool)
      requires Valid()
      ensures b <==> rx != NO_BYTE
    {
      return rx != NO_BYTE;
    }

    /** `peek()`. */
    method Peek() returns (r: int)
      requires Valid()
      ensures r == rx
    {
      return rx;
    }

    /** `read()`: the received value, and the slot is emptied. */
    method Read() returns (r: int)
      requires Valid()
      modifies this
      ensures Valid() && r == old(rx) && rx == NO_BYTE
      ensures head == old(head) && tail == old(tail)
    {
      r := rx;
      rx := NO_BYTE;
    }

    /**
     * `usbFunctionSetup(data)`: the first 8 bytes are the setup packet; an
     * IN request stores its byte at `data[10]`, past the packet, so `data`
     * must reach that far.
     */
    method FunctionSetup(data: array<byte>) returns (len: nat)
      requires Valid() && data.Length > 10 && data != tx
      modifies this, tx, data
      ensures Valid() && block == old(block)
      ensures var a := Setup(old(State()), old(rx), old(data[..8]));
        len == a.len && State() == a.ring && rx == a.rx &&
        (a.reply.Some? ==> data[..] == old(data[..])[10 := a.reply.value]) &&
        (a.reply.None? ==> data[..] == old(data[..]))
    {
      ghost var packet := data[..8];
      var requestType, request := data[0], data[1];
      if (requestType / 32) % 4 != 1 {
        return 0;
      }
      if request != UNUSB_REQUEST {
        return 0;
      }
      if requestType >= 128 {
        if head == tail {
          return 0;
        }
        data[10] := tx[tail];
        tail := (tail + 1) % RING_SIZE;
        return 1;
      } else {
        rx := Int16(data[2], data[3]);
        return 0;
      }
    }
  }
}
