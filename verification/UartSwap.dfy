/**
 What the UART transmitter does when a refill interrupt can come between
 ringbuf_get and serial_putc of one pair: which bytes are exposed to being
 swapped on the wire, and the runs that swap them.
 */
module UartSwap {
  import opened Prelude
  import opened UartTx

  /** What has left the ring for good is a prefix of what write() was given. */
  ghost predicate InOrder(u: Uart) {
    u.i <= |u.src| && u.wire + u.fifo <= Queued(u)
  }

  /** Everything passed to write() so far, the call under way included. */
  function Whole(u: Uart): seq<byte> {
    u.written + u.src
  }

  /** The position in it of the oldest byte of the ring, when nobody holds a byte. */
  function At(u: Uart): nat {
    |u.wire| + |u.fifo|
  }

  /** Outside any call and handler, with nothing reordered so far; busy means that the interrupt is armed. */
  ghost predicate Resting(u: Uart) {
    Conserved(u) && !u.pairAtomic && u.writer.Idle? && u.isr.Quiet? && (u.busy ==> u.armed) && 2 <= u.cap
  }

  /**
   The two neighbours at p of the bytes still to be sent can be swapped by a
   write made now.  While busy these are any two different ones, except the
   last byte of a full ring when the FIFO can take all of it.  When not busy
   they depend on whether an interrupt is armed: if so, neighbours that can be
   in the first ring together, and those with enough bytes before them to fill
   the FIFO; if not, only the latter, and only in a write that does not fit.
   */
  predicate ExposedAt(u: Uart, data: seq<byte>, p: nat) {
    var s := u.ring + data;
    && p + 1 < |s| && s[p] != s[p + 1]
    && if u.busy then p + 1 != |u.ring| || |u.ring| < u.cap || u.depth < u.cap + |u.fifo|
       else if u.armed then p + 1 < u.cap || u.depth <= p + |u.fifo|
       else !Fits(u, data) && 1 <= p && u.depth <= p + |u.fifo|
  }

  ghost predicate Exposed(u: Uart, data: seq<byte>) {
    exists p: nat :: ExposedAt(u, data, p)
  }

  // ---------------------------------------------------------------------
  // Runs that swap two bytes
  // ---------------------------------------------------------------------

  ghost predicate CanSwap(u: Uart) {
    exists w :: Reaches(u, w) && !InOrder(w)
  }

  predicate SameCall(v: Uart, w: Uart) {
    && w.cap == v.cap && w.depth == v.depth && w.pairAtomic == v.pairAtomic
    && w.src == v.src && w.written == v.written
  }

  predicate Differ(s: seq<byte>, p: nat) {
    p + 1 < |s| && s[p] != s[p + 1]
  }

  /** Where the bytes are while nobody holds one. */
  lemma RingIs(v: Uart)
    requires Conserved(v) && Held(v) == []
    ensures At(v) + |v.ring| == |v.written| + v.i <= |Whole(v)|
    ensures v.wire + v.fifo == Whole(v)[..At(v)]
    ensures v.ring == Whole(v)[At(v)..At(v) + |v.ring|]
  {
    var moved := v.wire + v.fifo;
    assert moved + v.ring == Queued(v) == Whole(v)[..|v.written| + v.i];
    assert v.ring == (moved + v.ring)[|moved|..];
    assert moved == (moved + v.ring)[..|moved|];
  }

  lemma ShiftOne(u: Uart, v: Uart) returns (w: Uart)
    requires Reaches(u, v) && Conserved(v) && v.fifo != []
    ensures Reaches(u, w) && Conserved(w)
    ensures w == v.(fifo := v.fifo[1..], wire := v.wire + [v.fifo[0]])
  {
    ShiftConserves(v);
    w := Go(u, v, Shift);
  }

  lemma {:induction false} ShiftAll(u: Uart, v: Uart) returns (w: Uart)
    requires Reaches(u, v) && Conserved(v)
    ensures Reaches(u, w) && Conserved(w)
    ensures w == v.(fifo := [], wire := v.wire + v.fifo)
    decreases |v.fifo|
  {
    hide Run, Step, Conserved, Reaches;
    if v.fifo == [] {
      w := v;
      assert v.wire + v.fifo == v.wire;
    } else {
      var sent := ShiftOne(u, v);
      w := ShiftAll(u, sent);
      Assoc(v.wire, [v.fifo[0]], v.fifo[1..]);
    }
  }

  /** Undisturbed, the queueing loop takes what fits. */
  lemma {:induction false} QueueOn(u: Uart, v: Uart) returns (w: Uart)
    requires Reaches(u, v) && Conserved(v) && v.writer.QueueTest? && v.isr.Quiet?
    ensures Reaches(u, w) && Conserved(w) && SameCall(v, w) && w.writer.MarkBusy? && w.isr.Quiet?
    ensures w.wire == v.wire && w.fifo == v.fifo && w.busy == v.busy && w.armed == v.armed
    ensures w.i == Min(|v.src|, v.i + v.cap - |v.ring|) && |w.ring| == |v.ring| + w.i - v.i
    decreases |v.src| - v.i
  {
    hide Run, Reaches, Conserved;
    assert Sized(v) by { ConservedSized(v); }
    AdvanceConserves(v);
    w := Go(u, v, Advance);
    if v.i < |v.src| && |v.ring| < v.cap {
      AdvanceConserves(w);
      w := Go(u, w, Advance);
      w := QueueOn(u, w);
    }
  }

  lemma ConservedSized(v: Uart)
    requires Conserved(v)
    ensures Sized(v)
  {
  }

  /** tx_busy = true. */
  lemma Mark(u: Uart, v: Uart) returns (w: Uart)
    requires Reaches(u, v) && Conserved(v) && v.writer.MarkBusy? && v.isr.Quiet?
    ensures Reaches(u, w) && Conserved(w) && w == v.(busy := true, writer := Filling(Test))
  {
    AdvanceConserves(v);
    w := Go(u, v, Advance);
  }

  /** Undisturbed, the refill loop moves bytes until ring or FIFO stops it. */
  lemma {:induction false} FillUntilStuck(u: Uart, v: Uart) returns (w: Uart)
    requires Reaches(u, v) && Conserved(v) && v.writer == Filling(Test) && v.isr.Quiet?
    ensures Reaches(u, w) && Conserved(w) && (w.ring == [] || |w.fifo| == w.depth)
    ensures w == v.(ring := w.ring, fifo := w.fifo)
    ensures |w.ring| + |w.fifo| == |v.ring| + |v.fifo| && |v.fifo| <= |w.fifo|
    decreases |v.ring|
  {
    hide Run, Reaches, Conserved;
    ConservedSized(v);
    if v.ring == [] || |v.fifo| == v.depth {
      w := v;
    } else {
      var passed := PassOn(u, v);
      w := FillUntilStuck(u, passed);
    }
  }

  /** The refill loop of a busy driver ends and arms the interrupt. */
  lemma ExitFill(u: Uart, v: Uart) returns (w: Uart)
    requires Reaches(u, v) && Conserved(v) && v.writer == Filling(Test) && v.isr.Quiet? && v.busy
    requires v.ring == [] || |v.fifo| == v.depth
    ensures Reaches(u, w) && Conserved(w) && w == v.(writer := FeedTest, armed := true)
  {
    hide Run, Reaches, Conserved;
    AdvanceConserves(v);
    w := Go(u, v, Advance);
    AdvanceConserves(w);
    w := Go(u, w, Advance);
    AdvanceConserves(w);
    w := Go(u, w, Advance);
  }

  /** The thread has fetched a byte; the interrupt sends the next one first. */
  lemma RefillInsidePair(u: Uart, v: Uart) returns (w: Uart)
    requires Reaches(u, v) && !v.pairAtomic && v.writer == Filling(Test) && v.isr.Quiet? && v.armed
    requires v.fifo == [] && 2 <= |v.ring| && 0 < v.depth
    ensures Reaches(u, w) && w.wire == v.wire && w.fifo == [v.ring[1]]
    ensures w.written == v.written && w.src == v.src && w.i == v.i
  {
    hide Run, Reaches;
    w := Go(u, v, Advance);
    w := Go(u, w, Fire);
    w := Go(u, w, IsrAdvance);
    w := Go(u, w, IsrAdvance);
  }

  lemma SwappedNotInOrder(v: Uart, w: Uart)
    requires Conserved(v) && Held(v) == [] && v.fifo == [] && 2 <= |v.ring| && v.ring[0] != v.ring[1]
    requires w.wire == v.wire && w.fifo == [v.ring[1]] && w.written == v.written && w.src == v.src && w.i == v.i
    ensures !InOrder(w)
  {
    assert Queued(v) == v.wire + v.ring by {
      assert v.wire + v.fifo + Held(v) + v.ring == v.wire + v.ring;
    }
    assert Queued(w)[|v.wire|] == v.ring[0];
    assert (w.wire + w.fifo)[|v.wire|] == v.ring[1];
  }

  /** With two different neighbours in the ring, the refill can get to them and be interrupted there. */
  lemma {:induction false} SwapInRing(u: Uart, v: Uart, p: nat)
    requires Reaches(u, v) && Conserved(v) && v.writer == Filling(Test) && v.isr.Quiet? && v.armed && !v.pairAtomic
    requires At(v) <= p && p + 1 < At(v) + |v.ring| && Differ(Whole(v), p)
    ensures CanSwap(u)
    decreases p - At(v)
  {
    hide Run, Step, Reaches, Conserved, InOrder;
    var w := ShiftAll(u, v);
    ConservedSized(w);
    RingIs(w);
    if At(w) == p {
      var swapped := RefillInsidePair(u, w);
      SwappedNotInOrder(w, swapped);
    } else {
      w := PassOn(u, w);
      SwapInRing(u, w, p);
    }
  }

  /**
   From the final wait on, once as many bytes are to come before p as the FIFO
   holds: feeding behind a full FIFO brings both neighbours into the ring.
   */
  lemma {:induction false} SwapWhileFeeding(u: Uart, v: Uart, p: nat)
    requires Reaches(u, v) && Conserved(v) && v.writer.FeedTest? && v.isr.Quiet? && v.busy && v.armed && !v.pairAtomic
    requires v.ring == [] || |v.fifo| == v.depth
    requires |v.ring| < v.cap && 2 <= v.cap && v.i < |v.src|
    requires |v.wire| + v.depth <= p && Differ(Whole(v), p)
    ensures CanSwap(u)
    decreases |v.src| - v.i
  {
    hide Run, Step, Reaches, Conserved, CanSwap;
    ConservedSized(v);
    RingIs(v);
    var w := PutOne(u, v);
    RingIs(w);
    if |v.fifo| < v.depth {
      w := PassOn(u, w);
      w := ExitFill(u, w);
      SwapWhileFeeding(u, w, p);
    } else if p + 1 < At(w) + |w.ring| {
      SwapInRing(u, w, p);
    } else {
      if |w.ring| == w.cap {
        w := ShiftOne(u, w);
        w := PassOn(u, w);
      }
      w := ExitFill(u, w);
      SwapWhileFeeding(u, w, p);
    }
  }

  /** Both neighbours are in the ring when the queueing loop ends. */
  lemma QueuedPairCanSwap(u: Uart, v: Uart, p: nat)
    requires Reaches(u, v) && Conserved(v) && v.writer.QueueTest? && v.isr.Quiet? && v.armed && !v.pairAtomic
    requires At(v) <= p && p + 1 < At(v) + Min(v.cap, |v.ring| + |v.src| - v.i) && Differ(Whole(v), p)
    ensures CanSwap(u)
  {
    hide Run, Step, Reaches, Conserved, CanSwap;
    var w := QueueOn(u, v);
    w := Mark(u, w);
    SwapInRing(u, w, p);
  }

  /** The handler can empty the ring, however deep the FIFO. */
  lemma {:induction false} IsrEmpties(u: Uart, v: Uart) returns (w: Uart)
    requires Reaches(u, v) && Conserved(v) && v.writer.QueueTest? && v.isr == Refilling(Test) && v.busy
    ensures Reaches(u, w) && Conserved(w) && SameCall(v, w)
    ensures w.writer.QueueTest? && w.isr.Quiet? && w.busy && w.armed && w.ring == [] && w.i == v.i
    decreases |v.ring|
  {
    hide Run, Reaches, Conserved;
    ConservedSized(v);
    if v.ring == [] {
      StepConserves(v, IsrAdvance);
      w := Go(u, v, IsrAdvance);
      StepConserves(w, IsrAdvance);
      w := Go(u, w, IsrAdvance);
      StepConserves(w, IsrAdvance);
      w := Go(u, w, IsrAdvance);
    } else {
      var sent := ShiftAll(u, v);
      var passed := IsrPassOn(u, sent);
      w := IsrEmpties(u, passed);
    }
  }

  lemma FireConserves(u: Uart, v: Uart) returns (w: Uart)
    requires Reaches(u, v) && Conserved(v) && v.writer.QueueTest? && v.isr.Quiet? && v.busy && v.armed
    requires v.fifo == [] && v.ring != []
    ensures Reaches(u, w) && Conserved(w) && w == v.(armed := false, isr := Refilling(Test))
  {
    hide Run, Reaches, Conserved;
    StepConserves(v, Fire);
    w := Go(u, v, Fire);
  }

  lemma QueueByte(u: Uart, v: Uart) returns (w: Uart)
    requires Reaches(u, v) && Conserved(v) && v.writer.QueueTest? && v.isr.Quiet?
    requires v.i < |v.src| && |v.ring| < v.cap
    ensures Reaches(u, w) && Conserved(w) && w == v.(ring := v.ring + [v.src[v.i]], i := v.i + 1)
  {
    hide Run, Reaches, Conserved;
    AdvanceConserves(v);
    w := Go(u, v, Advance);
    AdvanceConserves(w);
    w := Go(u, w, Advance);
  }

  /** While busy, interrupts during the queueing loop can empty the ring up to p. */
  lemma {:induction false} SwapAfterDraining(u: Uart, v: Uart, p: nat)
    requires Reaches(u, v) && Conserved(v) && v.writer.QueueTest? && v.isr.Quiet? && v.busy && v.armed && !v.pairAtomic
    requires 2 <= v.cap && |v.written| + v.i <= p && Differ(Whole(v), p)
    ensures CanSwap(u)
    decreases p - |v.written| - v.i, |v.ring|
  {
    hide Run, Step, Reaches, Conserved, CanSwap;
    RingIs(v);
    if v.ring != [] {
      var w := ShiftAll(u, v);
      w := FireConserves(u, w);
      w := IsrEmpties(u, w);
      SwapAfterDraining(u, w, p);
    } else if At(v) == p {
      QueuedPairCanSwap(u, v, p);
    } else {
      var w := QueueByte(u, v);
      SwapAfterDraining(u, w, p);
    }
  }

  /** A write that does not fit gets to its final loop with the FIFO full or on its way there. */
  lemma LongWriteCanSwap(u: Uart, v: Uart, p: nat)
    requires Reaches(u, v) && Conserved(v) && v.writer.QueueTest? && v.isr.Quiet? && !v.pairAtomic
    requires v.cap < |v.ring| + |v.src| - v.i && 2 <= v.cap
    requires At(v) + 1 <= p && |v.wire| + v.depth <= p && Differ(Whole(v), p)
    ensures CanSwap(u)
  {
    hide Run, Step, Reaches, Conserved, CanSwap;
    ConservedSized(v);
    RingIs(v);
    var w := QueueOn(u, v);
    w := Mark(u, w);
    if |w.fifo| == w.depth {
      w := ShiftOne(u, w);
    }
    w := FillUntilStuck(u, w);
    w := ExitFill(u, w);
    SwapWhileFeeding(u, w, p);
  }

  /** What is still to be sent is the rest of the whole. */
  lemma PendingIs(v: Uart)
    requires Conserved(v) && Held(v) == []
    ensures At(v) <= |Whole(v)| && v.ring + v.src[v.i..] == Whole(v)[At(v)..]
  {
    RingIs(v);
    var n := |v.written| + v.i;
    assert Whole(v)[At(v)..] == Whole(v)[At(v)..n] + Whole(v)[n..];
    assert Whole(v)[n..] == v.src[v.i..];
  }

  /** Every exposed pair can be swapped. */
  lemma ExposedCanSwap(u: Uart, data: seq<byte>, p: nat)
    requires Resting(u) && data != [] && ExposedAt(u, data, p)
    ensures CanSwap(Step(u, Call(data)))
  {
    hide Run, Reaches, Conserved, CanSwap;
    var start := Step(u, Call(data));
    StepConserves(u, Call(data));
    ReachesSelf(start);
    ConservedSized(start);
    RingIs(start);
    var q := At(start) + p;
    assert Differ(Whole(start), q) by {
      PendingIs(start);
    }
    if u.armed && p + 1 < Min(u.cap, |u.ring| + |data|) {
      QueuedPairCanSwap(start, start, q);
    } else if u.busy && |u.ring| <= p {
      SwapAfterDraining(start, start, q);
    } else {
      LongWriteCanSwap(start, start, q);
    }
  }

  lemma SwapBreaksOrder(u: Uart, data: seq<byte>)
    requires CanSwap(Step(u, Call(data)))
    ensures !OrderKept(u, data)
  {
    var start := Step(u, Call(data));
    var w :| Reaches(start, w) && !InOrder(w);
    var events :| NoCalls(events) && Run(start, events) == w;
  }

  ghost predicate OrderKept(u: Uart, data: seq<byte>) {
    forall events | NoCalls(events) :: InOrder(Run(Step(u, Call(data)), events))
  }
}
