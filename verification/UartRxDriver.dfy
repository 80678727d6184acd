/**
 The receive half of machine.UART as the driver executes it: the interrupt
 handler's drain loop and the read() loop with its two timeouts, on a ring
 buffer updated in place.  Each statement group is one step of UartRx.
 */
module UartRxDriver {
  import opened Prelude
  import opened ByteRing
  import opened UartRx

  /** The line status register, read once after the FIFO has been drained. */
  datatype Lsr = Lsr(isBreak: bool, isTimeout: bool)

  /** A set of IRQ_RX, IRQ_RXIDLE and IRQ_BREAK: the user's trigger mask, or the flags of one interrupt. */
  datatype Flags = Flags(rx: bool, rxIdle: bool, brk: bool)

  /** An interrupt: the bytes waiting in the hardware FIFO and the line status. */
  datatype Arrived = Arrived(batch: seq<byte>, lsr: Lsr)

  /** What happens while read() waits for a millisecond: interrupts, and the clock. */
  datatype Poll = Poll(elapsed: nat, arrivals: seq<Arrived>)

  datatype ReadResult =
    | Data(data: seq<byte>)
    | Eagain
    | StillWaiting(data: seq<byte>)  // the schedule ended while read() was waiting

  /** What a ring of capacity `cap` holding `ring` contains after `bytes` were put into it one by one. */
  function AfterPuts(ring: seq<byte>, cap: nat, bytes: seq<byte>): (r: seq<byte>)
    requires |ring| <= cap
    ensures |r| <= cap
  {
    ring + bytes[..Min(|bytes|, cap - |ring|)]
  }

  lemma OneMorePut(ring: seq<byte>, cap: nat, bytes: seq<byte>, b: byte)
    requires |ring| <= cap
    ensures AfterPuts(ring, cap, bytes + [b]) == Offer(AfterPuts(ring, cap, bytes), cap, b)
  {
  }

  lemma NoPut(ring: seq<byte>, cap: nat)
    requires |ring| <= cap
    ensures AfterPuts(ring, cap, []) == ring
  {
  }

  /** One interrupt is one put for each byte it offers. */
  lemma IrqPuts(rx: Rx, batch: seq<byte>, isBreak: bool)
    requires |rx.ring| <= rx.cap
    ensures Step(rx, Irq(batch, isBreak)).ring == AfterPuts(rx.ring, rx.cap, Offered(batch, isBreak))
  {
  }

  class RxPort {
    const readBuffer: RingBuf
    var hwFifo: seq<byte>
    var timeout: nat
    var timeoutChar: nat
    var trigger: Flags
    ghost const origin: Rx
    ghost var m: Rx
    ghost var history: seq<Event>

    ghost predicate Valid()
      reads this, readBuffer, readBuffer.buf
    {
      && readBuffer.Valid()
      && origin == Rx(readBuffer.Capacity(), [], [], [])
      && m == Run(origin, history)
      && m.cap == readBuffer.Capacity() && m.ring == readBuffer.Contents()
    }

    /** Clamping of the requested buffer size, and the ring with its spare slot. */
    constructor (rxbuf: nat, timeout: nat, timeoutChar: nat, trigger: Flags)
      ensures Valid() && fresh(readBuffer) && fresh(readBuffer.buf)
      ensures 32 <= m.cap <= 8192 && (32 <= rxbuf <= 8192 ==> m.cap == rxbuf)
      ensures readBuffer.buf.Length < 0x1_0000
      ensures m.ring == [] && m.taken == [] && m.log == []
    {
      var cap := if rxbuf < 32 then 32 else if 8192 < rxbuf then 8192 else rxbuf;
      readBuffer := new RingBuf(cap);
      hwFifo := [];
      this.timeout, this.timeoutChar, this.trigger := timeout, timeoutChar, trigger;
      origin := Rx(cap, [], [], []);
      m := Rx(cap, [], [], []);
      history := [];
    }

    ghost method Did(e: Event)
      requires |origin.ring| <= origin.cap && m == Run(origin, history)
      modifies `m, `history
      ensures m == Step(old(m), e) && m == Run(origin, history) && history == old(history) + [e]
    {
      assert (history + [e])[..|history|] == history;
      m, history := Step(m, e), history + [e];
    }

    /** Outside any statement, nothing that arrived is unaccounted for. */
    lemma AllAccounted()
      requires Valid()
      ensures m.taken + readBuffer.Contents() == KeptBytes(m.log)
      ensures Bytes(m.log) == Received(history)
    {
      ReceivedInOrder(origin, history);
    }

    /** The drain loop: all but the last byte pulled from the FIFO are offered to the ring. */
    method DrainFifo() returns (pending: Option<byte>, gotByte: bool, ghost offered: seq<byte>)
      requires readBuffer.Valid()
      modifies `hwFifo, readBuffer, readBuffer.buf
      ensures readBuffer.Valid() && hwFifo == []
      ensures old(hwFifo) == if pending.Some? then offered + [pending.value] else []
      ensures gotByte == (offered != []) && (pending.None? ==> offered == [])
      ensures readBuffer.Contents() == AfterPuts(old(readBuffer.Contents()), readBuffer.Capacity(), offered)
    {
      ghost var ring, cap := readBuffer.Contents(), readBuffer.Capacity();
      hide AfterPuts, RingBuf.Contents;
      NoPut(ring, cap);
      pending, gotByte, offered := None, false, [];
      while hwFifo != []
        invariant readBuffer.Valid() && (pending.None? ==> offered == [])
        invariant old(hwFifo) == (if pending.Some? then offered + [pending.value] else []) + hwFifo
        invariant gotByte == (offered != [])
        invariant readBuffer.Contents() == AfterPuts(ring, cap, offered)
        decreases |hwFifo|
      {
        var c := hwFifo[0];
        hwFifo := hwFifo[1..];
        if pending.Some? {
          OneMorePut(ring, cap, offered, pending.value);
          var _ := readBuffer.Put(pending.value);
          gotByte := true;
          offered := offered + [pending.value];
        }
        pending := Some(c);
      }
    }

    /** The RX branch of machine_uart_irq_handler. */
    method RxIrq(lsr: Lsr) returns (flags: Flags)
      requires Valid()
      modifies `hwFifo, `m, `history, readBuffer, readBuffer.buf
      ensures Valid() && hwFifo == []
      ensures m == Step(old(m), Irq(old(hwFifo), lsr.isBreak))
      ensures flags.rx == (trigger.rx && Offered(old(hwFifo), lsr.isBreak) != [])
      ensures flags.rxIdle == (trigger.rxIdle && lsr.isTimeout)
      ensures flags.brk == (trigger.brk && lsr.isBreak)
    {
      hide Run, Step, AfterPuts, RingBuf.Contents;
      ghost var batch := hwFifo;
      var pending, gotByte, offered := DrainFifo();
      if pending.Some? && !lsr.isBreak {
        OneMorePut(m.ring, m.cap, offered, pending.value);
        var _ := readBuffer.Put(pending.value);
        gotByte := true;
        offered := offered + [pending.value];
      }
      assert offered == Offered(batch, lsr.isBreak);
      IrqPuts(m, batch, lsr.isBreak);
      Did(Irq(batch, lsr.isBreak));
      flags := Flags(gotByte && trigger.rx, lsr.isTimeout && trigger.rxIdle, lsr.isBreak && trigger.brk);
    }

    /** Interrupts taken while the thread is elsewhere; they take nothing out of the ring. */
    method Interfere(arrivals: seq<Arrived>)
      requires Valid()
      modifies `hwFifo, `m, `history, readBuffer, readBuffer.buf
      ensures Valid() && m.taken == old(m.taken) && |old(m.ring)| <= |m.ring|
    {
      for k := 0 to |arrivals|
        invariant Valid() && m.taken == old(m.taken) && |old(m.ring)| <= |m.ring|
      {
        hwFifo := arrivals[k].batch;
        var _ := RxIrq(arrivals[k].lsr);
      }
    }

    method TakeByte() returns (c: byte)
      requires Valid() && m.ring != []
      modifies `m, `history, readBuffer
      ensures Valid() && m == Step(old(m), Take) && c == old(m.ring)[0]
    {
      var got := readBuffer.Get();
      c := got.value;
      Did(Take);
    }

    /** The wait for one byte: until there is one, or the deadline passes, or the schedule ends. */
    method WaitForByte(env: seq<Poll>, t: nat, deadline: nat) returns (t': nat, timedOut: bool)
      requires Valid()
      modifies `hwFifo, `m, `history, readBuffer, readBuffer.buf
      ensures Valid() && m.taken == old(m.taken)
      ensures timedOut ==> m.ring == [] && t <= t' < |env| && env[t'].elapsed > deadline
      ensures !timedOut && m.ring == [] ==> |env| <= t'
    {
      t', timedOut := t, false;
      var avail := readBuffer.Avail();
      while avail == 0 && t' < |env|
        invariant Valid() && m.taken == old(m.taken) && avail == |m.ring| && t <= t'
        decreases |env| - t'
      {
        if env[t'].elapsed > deadline {
          timedOut := true;
          return;
        }
        Interfere(env[t'].arrivals);
        t' := t' + 1;
        avail := readBuffer.Avail();
      }
    }

    /**
     mp_machine_uart_read.  Whatever interrupts come in between, the bytes
     returned are exactly the bytes removed from the ring, in order; a short
     count or EAGAIN is returned only when the timeout has passed at entry t of
     the schedule with the ring empty; otherwise read() goes on for all of it.
     */
    method Read(size: nat, env: seq<Poll>) returns (r: ReadResult, t: nat)
      requires Valid()
      modifies `hwFifo, `m, `history, readBuffer, readBuffer.buf
      ensures Valid()
      ensures size == 0 ==> r == Data([]) && m == old(m)
      ensures r.Eagain? ==> 0 < size && m.taken == old(m.taken)
      ensures r.Eagain? ==> t < |env| && env[t].elapsed > timeout
      ensures !r.Eagain? ==> m.taken == old(m.taken) + r.data
      ensures r.Data? ==> |r.data| <= size && (0 < size ==> r.data != [])
      ensures r.Data? && |r.data| < size ==> t < |env| && env[t].elapsed > timeoutChar
      ensures r.Eagain? || (r.Data? && |r.data| < size) ==> m.ring == []
      ensures r.StillWaiting? ==> |r.data| < size && m.ring == [] && |env| <= t
    {
      var dest: seq<byte> := [];
      var deadline := timeout;
      t := 0;
      while |dest| < size
        invariant Valid() && m.taken == old(m.taken) + dest && |dest| <= size
        invariant deadline == if dest == [] then timeout else timeoutChar
        invariant size == 0 ==> m == old(m)
        decreases size - |dest|
      {
        var timedOut;
        t, timedOut := WaitForByte(env, t, deadline);
        if timedOut {
          return if dest == [] then Eagain else Data(dest), t;
        }
        var avail := readBuffer.Avail();
        if avail == 0 {
          return StillWaiting(dest), t;
        }
        var c := TakeByte();
        dest := dest + [c];
        deadline := timeoutChar;
      }
      return Data(dest), t;
    }
  }
}
