/**
 The transmit half of machine.UART as the driver executes it: the ring buffer,
 the flag and the interrupt enable bit are updated in place, and between any
 two statements of the thread the environment may shift bytes out of the FIFO
 or take the TX interrupt.  Every state the driver passes through is a state
 of the machine in UartTx, so the theorems proved there hold of this code.
 */
module UartTxDriver {
  import opened Prelude
  import opened ByteRing
  import opened UartTx

  /** What can happen between two statements of the thread. */
  datatype Act = HwShift | Interrupt

  datatype WriteResult =
    | Written(count: nat)
    | Einval
    | StillWaiting  // the schedule ended while write() was waiting for room

  /** The thread has not moved, and nobody else adds to the ring. */
  predicate ThreadStill(u: Uart, v: Uart) {
    && v.writer == u.writer && v.src == u.src && v.i == u.i && v.written == u.written
    && |v.ring| <= |u.ring|
  }

  /** Control is at point f of uart_fill_tx_fifo, in the handler or in the thread. */
  predicate FillingAt(u: Uart, inIsr: bool, f: Fill) {
    if inIsr then u.isr == Refilling(f) && !WriterHolds(u)
    else u.isr.Quiet? && u.writer == Filling(f)
  }

  /**
   uart_fill_tx_fifo has taken v from u: it moved only its own caller's control
   point.  The handler leaves the flag alone and arms only a busy driver.
   */
  predicate FillMoved(u: Uart, v: Uart, inIsr: bool) {
    && (inIsr ==> v.writer == u.writer && v.busy == u.busy && (v.armed == u.armed || (v.busy && v.armed)))
    && v.src == u.src && v.i == u.i && v.written == u.written
    && |v.ring| <= |u.ring|
  }

  predicate FillReturned(u: Uart, inIsr: bool) {
    u.isr.Quiet? && (!inIsr ==> u.writer.FeedTest?)
  }

  class TxPort {
    const writeBuffer: RingBuf
    const fifoSize: nat
    var initialized: bool
    var txBusy: bool
    var wantTxIdle: bool  // IRQ_TXIDLE is in the user's trigger mask
    // The peripheral: TX FIFO, line, and the one-shot interrupt enable.
    var fifo: seq<byte>
    var wire: seq<byte>
    var etbei: bool
    // The machine state this object is in, and the events that led to it.
    ghost const origin: Uart
    ghost var m: Uart
    ghost var history: seq<Event>

    ghost predicate Valid()
      reads this, writeBuffer, writeBuffer.buf
    {
      && writeBuffer.Valid()
      && origin == Fresh(writeBuffer.Capacity(), fifoSize, true) && 0 < writeBuffer.Capacity() && 0 < fifoSize
      && m == Run(origin, history)
      && m.cap == writeBuffer.Capacity() && m.depth == fifoSize && m.pairAtomic
      && m.ring == writeBuffer.Contents()
      && m.fifo == fifo && m.wire == wire && m.busy == txBusy && m.armed == etbei
    }

    constructor (capacity: nat, fifoSize: nat, wantTxIdle: bool)
      requires 0 < capacity && 0 < fifoSize
      ensures Valid() && fresh(writeBuffer) && fresh(writeBuffer.buf)
      ensures m == Fresh(capacity, fifoSize, true) && initialized
      ensures origin == m && history == []
    {
      this.fifoSize := fifoSize;
      writeBuffer := new RingBuf(capacity);
      initialized, txBusy, etbei := true, false, false;
      this.wantTxIdle := wantTxIdle;
      fifo, wire := [], [];
      origin := Fresh(capacity, fifoSize, true);
      m := Fresh(capacity, fifoSize, true);
      history := [];
    }

    /** The machine takes the step that the last statement performed. */
    ghost method Did(e: Event)
      requires m == Run(origin, history)
      modifies `m, `history
      ensures m == Step(old(m), e) && m == Run(origin, history)
      ensures history == old(history) + [e]
      ensures m.cap == old(m.cap) && m.depth == old(m.depth) && m.pairAtomic == old(m.pairAtomic)
    {
      StepKeepsParameters(m, e);
      RunSnoc(origin, history, e);
      m, history := Step(m, e), history + [e];
    }

    method ShiftOut()
      requires Valid()
      modifies `fifo, `wire, `m, `history
      ensures Valid() && ThreadStill(old(m), m)
      ensures m.isr == old(m.isr) && m.busy == old(m.busy) && |m.fifo| <= |old(m.fifo)|
    {
      if fifo != [] {
        fifo, wire := fifo[1..], wire + [fifo[0]];
      }
      Did(Shift);
    }

    /**
     The TX branch of machine_uart_irq_handler, with the SDK's one-shot disable
     before it.  IRQ_TXIDLE is reported when ring and FIFO are both empty.
     */
    method TxIrq() returns (txIdle: bool)
      requires Valid() && FireEnabled(m)
      modifies this, writeBuffer
      ensures Valid() && ThreadStill(old(m), m) && m.isr.Quiet?
      ensures etbei == txBusy && txBusy == (old(txBusy) && old(m.ring) != [])
      ensures txIdle == (old(wantTxIdle) && old(m.ring) == [])
      ensures txIdle ==> fifo == [] && m.ring == []
      ensures initialized == old(initialized)
      decreases 1, 0
    {
      txIdle := false;
      etbei := false;
      var avail := writeBuffer.Avail();
      if avail > 0 {
        Did(Fire);
        var _ := FillTxFifo([], 0, true);
      } else {
        txBusy := false;
        txIdle := wantTxIdle;
        Did(Fire);
      }
    }

    /** Any number of hardware shifts and interrupts while the thread is still. */
    method Interfere(acts: seq<Act>)
      requires Valid() && m.isr.Quiet? && !WriterHolds(m)
      modifies this, writeBuffer
      ensures Valid() && m.isr.Quiet? && ThreadStill(old(m), m)
      ensures initialized == old(initialized)
      decreases 2, 0
    {
      for k := 0 to |acts|
        invariant Valid() && m.isr.Quiet? && ThreadStill(old(m), m)
        invariant initialized == old(initialized)
      {
        match acts[k]
        case HwShift => ShiftOut();
        case Interrupt =>
          if etbei && fifo == [] { var _ := TxIrq(); }
      }
    }

    /** Between ringbuf_get and serial_putc only the hardware is at work. */
    method InterfereInsidePair(acts: seq<Act>)
      requires Valid()
      modifies `fifo, `wire, `m, `history
      ensures Valid() && ThreadStill(old(m), m)
      ensures m.isr == old(m.isr) && m.busy == old(m.busy) && |m.fifo| <= |old(m.fifo)|
    {
      for k := 0 to |acts|
        invariant Valid() && ThreadStill(old(m), m)
        invariant m.isr == old(m.isr) && m.busy == old(m.busy) && |m.fifo| <= |old(m.fifo)|
      {
        if acts[k].HwShift? { ShiftOut(); }
      }
    }

    /** The next entry of the schedule, if there is one, happens here. */
    method Preempt(env: seq<seq<Act>>, t: nat) returns (t': nat)
      requires Valid() && (env == [] || (m.isr.Quiet? && !WriterHolds(m)))
      modifies this, writeBuffer
      ensures Valid() && m.isr == old(m.isr) && ThreadStill(old(m), m) && initialized == old(initialized)
      ensures t' == if t < |env| then t + 1 else t
      ensures env == [] ==> m == old(m)
      decreases if env == [] then 0 else 2, if env == [] then 0 else 1
    {
      t' := t;
      if t < |env| {
        Interfere(env[t]);
        t' := t + 1;
      }
    }

    /** The same between ringbuf_get and serial_putc. */
    method PreemptInsidePair(env: seq<seq<Act>>, t: nat) returns (t': nat)
      requires Valid()
      modifies `fifo, `wire, `m, `history
      ensures Valid() && m.isr == old(m.isr) && ThreadStill(old(m), m) && |m.fifo| <= |old(m.fifo)|
      ensures t' == if t < |env| then t + 1 else t
      ensures env == [] ==> m == old(m)
    {
      t' := t;
      if t < |env| {
        InterfereInsidePair(env[t]);
        t' := t + 1;
      }
    }

    /** ringbuf_get inside the refill loop. */
    method FetchByte(ghost inIsr: bool) returns (c: byte)
      requires Valid() && FillingAt(m, inIsr, Test) && |fifo| < fifoSize && m.ring != []
      modifies `m, `history, writeBuffer
      ensures Valid() && FillingAt(m, inIsr, Hold(c)) && FillMoved(old(m), m, inIsr)
      ensures |m.ring| < |old(m.ring)| && m.fifo == old(m.fifo)
    {
      hide Run;
      var got := writeBuffer.Get();
      c := got.value;
      assert FillStep(m, Test) == (m.(ring := m.ring[1..]), Some(Hold(c)));
      if inIsr { Did(IsrAdvance); } else { Did(Advance); }
    }

    /** serial_putc inside the refill loop. */
    method SendByte(ghost inIsr: bool, c: byte)
      requires Valid() && FillingAt(m, inIsr, Hold(c)) && |fifo| < fifoSize
      modifies `fifo, `m, `history
      ensures Valid() && FillingAt(m, inIsr, Test) && FillMoved(old(m), m, inIsr)
    {
      fifo := fifo + [c];
      if inIsr { Did(IsrAdvance); } else { Did(Advance); }
    }

    /** The body of the refill loop: serial_putc(ringbuf_get()). */
    method PassByte(env: seq<seq<Act>>, t: nat, ghost inIsr: bool) returns (t': nat)
      requires Valid() && FillingAt(m, inIsr, Test) && |fifo| < fifoSize && m.ring != [] && (inIsr ==> env == [])
      modifies this, writeBuffer
      ensures Valid() && FillingAt(m, inIsr, Test) && FillMoved(old(m), m, inIsr) && |m.ring| < |old(m.ring)|
      ensures initialized == old(initialized)
      decreases if inIsr then 0 else 3, 1
    {
      var c := FetchByte(inIsr);
      t' := PreemptInsidePair(env, t);
      SendByte(inIsr, c);
      t' := Preempt(env, t');
    }

    /** The refill loop ends. */
    ghost method LeaveLoop(inIsr: bool)
      requires Valid() && FillingAt(m, inIsr, Test) && (fifoSize <= |fifo| || m.ring == [])
      modifies `m, `history
      ensures Valid() && FillingAt(m, inIsr, ArmTest) && FillMoved(old(m), m, inIsr)
    {
      if inIsr { Did(IsrAdvance); } else { Did(Advance); }
    }

    method TestBusy(ghost inIsr: bool) returns (busy: bool)
      requires Valid() && FillingAt(m, inIsr, ArmTest)
      modifies `m, `history
      ensures Valid() && FillMoved(old(m), m, inIsr)
      ensures if busy then FillingAt(m, inIsr, ArmSet) else FillReturned(m, inIsr)
      ensures busy == txBusy
    {
      busy := txBusy;
      if inIsr { Did(IsrAdvance); } else { Did(Advance); }
    }

    /** serial_irq_set(TxIrq, 1). */
    method Arm(ghost inIsr: bool)
      requires Valid() && FillingAt(m, inIsr, ArmSet) && (inIsr ==> txBusy)
      modifies `etbei, `m, `history
      ensures Valid() && FillMoved(old(m), m, inIsr) && FillReturned(m, inIsr) && etbei
    {
      etbei := true;
      if inIsr { Did(IsrAdvance); } else { Did(Advance); }
    }

    method ArmIfBusy(env: seq<seq<Act>>, t: nat, ghost inIsr: bool) returns (t': nat)
      requires Valid() && FillingAt(m, inIsr, ArmTest) && (inIsr ==> env == [])
      modifies this, writeBuffer
      ensures Valid() && FillReturned(m, inIsr) && FillMoved(old(m), m, inIsr)
      ensures inIsr && txBusy ==> etbei
      ensures initialized == old(initialized)
      decreases if inIsr then 0 else 3, 1
    {
      t' := t;
      var busy := TestBusy(inIsr);
      if busy {
        t' := Preempt(env, t');
        Arm(inIsr);
      }
    }

    /**
     uart_fill_tx_fifo, called by the thread and by the handler.  `env[t..]`
     is what happens between its statements; the handler is not interrupted.
     */
    method FillTxFifo(env: seq<seq<Act>>, t: nat, ghost inIsr: bool) returns (t': nat)
      requires Valid() && FillingAt(m, inIsr, Test) && (inIsr ==> env == [])
      modifies this, writeBuffer
      ensures Valid() && FillReturned(m, inIsr) && FillMoved(old(m), m, inIsr)
      ensures inIsr && txBusy ==> etbei
      ensures initialized == old(initialized)
      decreases if inIsr then 0 else 3, 2
    {
      t' := t;
      var avail := writeBuffer.Avail();
      while |fifo| < fifoSize && avail > 0
        invariant Valid() && FillingAt(m, inIsr, Test) && FillMoved(old(m), m, inIsr)
        invariant avail == |m.ring| && initialized == old(initialized)
        decreases avail
      {
        t' := PassByte(env, t', inIsr);
        avail := writeBuffer.Avail();
      }
      LeaveLoop(inIsr);
      t' := Preempt(env, t');
      t' := ArmIfBusy(env, t', inIsr);
    }

    /** ringbuf_put of the next byte by either loop of write(); there is room for it. */
    method PutByte(b: byte, ghost fill: bool)
      requires Valid() && m.isr.Quiet? && m.writer == (if fill then FeedPut else QueuePut)
      requires m.i < |m.src| && b == m.src[m.i] && |m.ring| < m.cap
      modifies `m, `history, writeBuffer, writeBuffer.buf
      ensures Valid() && m.isr.Quiet? && m.writer == (if fill then Filling(Test) else QueueTest)
      ensures m.src == old(m.src) && m.i == old(m.i) + 1 && m.written == old(m.written)
    {
      hide Run;
      var ok := writeBuffer.Put(b);
      assert ok;
      Did(Advance);
    }

    /** The call is under way with `data`, `i` bytes of which are queued. */
    ghost predicate Calling(w: Writer, data: seq<byte>, i: nat, done: seq<byte>)
      reads this, writeBuffer, writeBuffer.buf
    {
      && Valid() && initialized && m.isr.Quiet? && m.writer == w
      && m.src == data && m.i == i <= |data| && m.written == done
    }

    /** One pass of the first loop of write(). */
    method QueueByte(data: seq<byte>, i: nat, env: seq<seq<Act>>, t: nat, ghost done: seq<byte>) returns (t': nat)
      requires Calling(QueueTest, data, i, done) && i < |data| && |m.ring| < m.cap
      modifies this, writeBuffer, writeBuffer.buf
      ensures Calling(QueueTest, data, i + 1, done)
    {
      Did(Advance);
      t' := Preempt(env, t);
      PutByte(data[i], false);
      t' := Preempt(env, t');
    }

    /** tx_busy = true, and the first refill. */
    method StartTransmission(data: seq<byte>, i: nat, env: seq<seq<Act>>, t: nat, ghost done: seq<byte>)
      returns (t': nat)
      requires Calling(MarkBusy, data, i, done)
      modifies this, writeBuffer
      ensures Calling(FeedTest, data, i, done)
    {
      txBusy := true;
      Did(Advance);
      t' := Preempt(env, t);
      t' := FillTxFifo(env, t', false);
      t' := Preempt(env, t');
    }

    /** One pass of the second loop of write(), once there is room. */
    method FeedByte(data: seq<byte>, i: nat, env: seq<seq<Act>>, t: nat, ghost done: seq<byte>) returns (t': nat)
      requires Calling(FeedTest, data, i, done) && i < |data| && |m.ring| < m.cap
      modifies this, writeBuffer, writeBuffer.buf
      ensures Calling(FeedTest, data, i + 1, done)
    {
      Did(Advance);
      t' := Preempt(env, t);
      PutByte(data[i], true);
      t' := Preempt(env, t');
      t' := FillTxFifo(env, t', false);
      t' := Preempt(env, t');
    }

    /** The first loop of write(): queue as many bytes as fit without blocking. */
    method QueueWhatFits(data: seq<byte>, env: seq<seq<Act>>, ghost done: seq<byte>) returns (i: nat, t: nat)
      requires Calling(QueueTest, data, 0, done)
      modifies this, writeBuffer, writeBuffer.buf
      ensures Calling(MarkBusy, data, i, done)
    {
      i, t := 0, 0;
      var free := writeBuffer.Free();
      while i < |data| && free > 0
        invariant Calling(QueueTest, data, i, done) && free == m.cap - |m.ring|
        decreases |data| - i
      {
        t := QueueByte(data, i, env, t, done);
        i := i + 1;
        free := writeBuffer.Free();
      }
      Did(Advance);
      t := Preempt(env, t);
    }

    /** The wait for room in the second loop of write(). */
    method WaitForRoom(data: seq<byte>, i: nat, env: seq<seq<Act>>, t: nat, ghost done: seq<byte>)
      returns (t': nat, room: bool)
      requires Calling(FeedTest, data, i, done) && i < |data|
      modifies this, writeBuffer
      ensures Calling(FeedTest, data, i, done)
      ensures room == (|m.ring| < m.cap)
      ensures !room ==> |env| <= t'
    {
      t' := t;
      var free := writeBuffer.Free();
      while free == 0 && t' < |env|
        invariant Calling(FeedTest, data, i, done) && free == m.cap - |m.ring|
        decreases |env| - t'
      {
        t' := Preempt(env, t');
        free := writeBuffer.Free();
      }
      room := free > 0;
    }

    /**
     mp_machine_uart_write.  A call that returns has queued every byte exactly
     once, and all that was ever written is, in order, on the wire, in the
     FIFO or in the ring.  It goes on for the whole schedule, t entries of which
     it has used.
     */
    method Write(data: seq<byte>, env: seq<seq<Act>>) returns (r: WriteResult, t: nat)
      requires Valid() && m.writer.Idle? && m.isr.Quiet?
      modifies this, writeBuffer, writeBuffer.buf
      ensures Valid() && m.isr.Quiet? && initialized == old(initialized)
      ensures !initialized ==> r == Einval && m == old(m)
      ensures initialized && data == [] ==> r == Written(0) && m == old(m)
      ensures initialized && data != [] ==> !r.Einval?
      ensures r.Written? ==> r.count == |data| && m.writer.Idle? && m.written == old(m.written) + data
      ensures r.Written? ==> wire + fifo + writeBuffer.Contents() == m.written
      ensures r.StillWaiting? ==> m.writer.FeedTest? && m.src == data && m.i < |data|
      ensures r.StillWaiting? ==> |m.ring| == m.cap && |env| <= t
    {
      hide Run, Step, RingBuf.Contents;
      t := 0;
      if !initialized {
        return Einval, 0;
      }
      if |data| == 0 {
        Settled();
        return Written(0), 0;
      }
      ghost var done := m.written;
      EnterCall(data);
      var i;
      i, t := QueueWhatFits(data, env, done);
      t := StartTransmission(data, i, env, t, done);
      while i < |data|
        invariant Calling(FeedTest, data, i, done)
        decreases |data| - i
      {
        var room;
        t, room := WaitForRoom(data, i, env, t, done);
        if !room {
          return StillWaiting, t;
        }
        t := FeedByte(data, i, env, t, done);
        i := i + 1;
      }
      ReturnFromCall(data, done);
      Settled();
      return Written(|data|), t;
    }

    ghost method EnterCall(data: seq<byte>)
      requires Valid() && m.writer.Idle? && m.isr.Quiet? && data != [] && initialized
      modifies `m, `history
      ensures Calling(QueueTest, data, 0, old(m.written))
    {
      hide Run;
      Did(Call(data));
    }

    ghost method ReturnFromCall(data: seq<byte>, done: seq<byte>)
      requires Calling(FeedTest, data, |data|, done)
      modifies `m, `history
      ensures Valid() && m.isr.Quiet? && m.writer.Idle? && m.written == done + data
    {
      hide Run;
      Did(Advance);
    }

    /** Outside write(), nothing that was written has been lost. */
    lemma Settled()
      requires Valid() && m.writer.Idle? && m.isr.Quiet?
      ensures wire + fifo + writeBuffer.Contents() == m.written
    {
      BytesConserved(origin, history);
      assert m.wire + m.fifo + Held(m) + m.ring == m.wire + m.fifo + m.ring;
      assert m.written + m.src[..m.i] == m.written;
    }

    /**
     What txdone() tells the caller, if every write() so far fitted the ring
     when it was called: true means that all of it is on the wire, false that
     the interrupt which will clear the flag is armed.
     */
    lemma TxDoneMeansSent()
      requires Valid() && CallsFit(origin, history) && m.writer.Idle? && m.isr.Quiet?
      ensures !txBusy ==> wire == m.written && fifo == [] && writeBuffer.Contents() == []
      ensures txBusy ==> etbei
    {
      FittingWritesTruthful(origin, history);
      Settled();
    }

    method TxDone() returns (done: bool)
      requires Valid()
      ensures done == (initialized && !m.busy)
    {
      if !initialized {
        return false;
      }
      return !txBusy;
    }
  }
}
