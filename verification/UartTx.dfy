/**
 The transmit side of the UART driver as a state machine: the Python thread
 inside write(), the one-shot TX interrupt, and the hardware that shifts bytes
 out of its FIFO, interleaved statement by statement.
 */
module UartTx {
  import opened Prelude

  /** Where control is inside uart_fill_tx_fifo; Hold is between ringbuf_get and serial_putc. */
  datatype Fill = Test | Hold(held: byte) | ArmTest | ArmSet

  /** Where the thread is inside write(); Idle is outside any call. */
  datatype Writer =
    | Idle
    | QueueTest
    | QueuePut
    | MarkBusy
    | Filling(fill: Fill)
    | FeedTest
    | FeedPut

  /** The TX interrupt handler runs to completion before the thread moves again. */
  datatype Isr = Quiet | Refilling(fill: Fill)

  /**
   `src[..i]` is the part of the current call already handed to the ring;
   `written` is everything passed to calls that have returned.  With
   `pairAtomic`, no interrupt is taken between ringbuf_get and serial_putc.
   */
  datatype Uart = Uart(
    cap: nat, depth: nat, pairAtomic: bool,
    ring: seq<byte>, fifo: seq<byte>, wire: seq<byte>,
    busy: bool, armed: bool,
    writer: Writer, src: seq<byte>, i: nat, isr: Isr,
    written: seq<byte>)

  datatype Event =
    | Call(data: seq<byte>)  // the thread enters write(data)
    | Advance                // the thread executes one statement of write()
    | Fire                   // the TX-FIFO-empty interrupt is taken
    | IsrAdvance             // the handler executes one statement
    | Shift                  // the hardware sends the oldest FIFO byte

  function Fresh(cap: nat, depth: nat, pairAtomic: bool): Uart {
    Uart(cap, depth, pairAtomic, [], [], [], false, false, Idle, [], 0, Quiet, [])
  }

  /** One statement of uart_fill_tx_fifo; None means that it returned. */
  function FillStep(u: Uart, f: Fill): (Uart, Option<Fill>) {
    match f
    case Test =>
      if |u.fifo| < u.depth && u.ring != [] then
        (u.(ring := u.ring[1..]), Some(Hold(u.ring[0])))
      else
        (u, Some(ArmTest))
    case Hold(b) =>
      if |u.fifo| < u.depth then (u.(fifo := u.fifo + [b]), Some(Test)) else (u, Some(f))
    case ArmTest =>
      (u, if u.busy then Some(ArmSet) else None)
    case ArmSet =>
      (u.(armed := true), None)
  }

  /** ringbuf_put of the next source byte: a full ring would drop it. */
  function PutNext(u: Uart): Uart {
    if u.i < |u.src| then
      u.(ring := if |u.ring| < u.cap then u.ring + [u.src[u.i]] else u.ring, i := u.i + 1)
    else
      u
  }

  function WriterStep(u: Uart): Uart {
    match u.writer
    case Idle => u
    case QueueTest =>
      u.(writer := if u.i < |u.src| && |u.ring| < u.cap then QueuePut else MarkBusy)
    case QueuePut => PutNext(u).(writer := QueueTest)
    case MarkBusy => u.(busy := true, writer := Filling(Test))
    case Filling(f) =>
      var (v, next) := FillStep(u, f);
      v.(writer := if next.Some? then Filling(next.value) else FeedTest)
    case FeedTest =>
      if u.i >= |u.src| then u.(writer := Idle, written := u.written + u.src, src := [], i := 0)
      else if |u.ring| < u.cap then u.(writer := FeedPut)
      else u
    case FeedPut => PutNext(u).(writer := Filling(Test))
  }

  /** The thread holds a byte that is in neither the ring nor the FIFO. */
  predicate WriterHolds(u: Uart) {
    u.writer.Filling? && u.writer.fill.Hold?
  }

  predicate FireEnabled(u: Uart) {
    u.armed && u.fifo == [] && u.isr.Quiet? && !(u.pairAtomic && WriterHolds(u))
  }

  /** An event that is not enabled leaves the state as it is. */
  function Step(u: Uart, e: Event): Uart {
    match e
    case Call(d) =>
      if u.writer.Idle? && u.isr.Quiet? && d != [] then u.(writer := QueueTest, src := d, i := 0) else u
    case Advance =>
      if u.isr.Quiet? then WriterStep(u) else u
    case Fire =>
      if !FireEnabled(u) then u
      else if u.ring != [] then u.(armed := false, isr := Refilling(Test))
      else u.(armed := false, busy := false)
    case IsrAdvance =>
      if u.isr.Quiet? then u
      else
        var (v, next) := FillStep(u, u.isr.fill);
        v.(isr := if next.Some? then Refilling(next.value) else Quiet)
    case Shift =>
      if u.fifo == [] then u else u.(fifo := u.fifo[1..], wire := u.wire + [u.fifo[0]])
  }

  function Run(u: Uart, events: seq<Event>): Uart
    decreases |events|
  {
    if events == [] then u else Step(Run(u, events[..|events| - 1]), events[|events| - 1])
  }

  lemma RunSnoc(u: Uart, events: seq<Event>, e: Event)
    ensures Run(u, events + [e]) == Step(Run(u, events), e)
  {
    assert (events + [e])[..|events|] == events;
  }

  // ---------------------------------------------------------------------
  // Byte conservation
  // ---------------------------------------------------------------------

  function Held(u: Uart): seq<byte> {
    if u.isr.Refilling? && u.isr.fill.Hold? then [u.isr.fill.held]
    else if WriterHolds(u) then [u.writer.fill.held]
    else []
  }

  /** Everything write() has taken responsibility for, in order. */
  function Queued(u: Uart): seq<byte>
    requires u.i <= |u.src|
  {
    u.written + u.src[..u.i]
  }

  /** The bounds of ring, FIFO and position; at most one party holds a byte. */
  predicate Sized(u: Uart) {
    && 0 < u.cap && 0 < u.depth
    && |u.ring| <= u.cap && |u.fifo| <= u.depth
    && u.i <= |u.src|
    && (u.writer.Idle? ==> u.src == [])
    && ((u.writer.QueuePut? || u.writer.FeedPut?) ==> u.i < |u.src| && |u.ring| < u.cap)
    && (u.isr.Refilling? ==> !WriterHolds(u))
  }

  predicate Conserved(u: Uart) {
    Sized(u) && u.wire + u.fifo + Held(u) + u.ring == Queued(u)
  }

  /** The interrupt cannot be taken while the thread is between ringbuf_get and serial_putc. */
  predicate PairSafe(u: Uart) {
    u.pairAtomic || (WriterHolds(u) ==> !u.armed)
  }

  lemma FillKeepsBytes(u: Uart, f: Fill, pre: seq<byte>)
    requires |u.fifo| <= u.depth
    ensures var (v, next) := FillStep(u, f);
      var before := if f.Hold? then [f.held] else [];
      var after := if next.Some? && next.value.Hold? then [next.value.held] else [];
      && pre + u.fifo + before + u.ring == pre + v.fifo + after + v.ring
      && |v.fifo| <= v.depth && |v.ring| <= |u.ring|
      && v == u.(ring := v.ring, fifo := v.fifo, armed := v.armed)
  {
    if f.Test? && |u.fifo| < u.depth && u.ring != [] {
      assert u.ring == [u.ring[0]] + u.ring[1..];
    }
  }

  lemma PutKeepsBytes(u: Uart, pre: seq<byte>)
    requires u.i < |u.src| && |u.ring| < u.cap
    requires pre + u.ring == Queued(u)
    ensures pre + PutNext(u).ring == Queued(PutNext(u))
  {
    assert u.src[..u.i + 1] == u.src[..u.i] + [u.src[u.i]];
    assert pre + (u.ring + [u.src[u.i]]) == (pre + u.ring) + [u.src[u.i]];
  }

  lemma FillingConserves(u: Uart)
    requires Conserved(u) && u.isr.Quiet? && u.writer.Filling?
    ensures Conserved(WriterStep(u))
  {
    FillKeepsBytes(u, u.writer.fill, u.wire);
  }

  lemma PutConserves(u: Uart)
    requires Conserved(u) && u.isr.Quiet? && (u.writer.QueuePut? || u.writer.FeedPut?)
    ensures Conserved(WriterStep(u))
  {
    var v := WriterStep(u);
    assert Held(u) == Held(v) == [];
    PutKeepsBytes(u, u.wire + u.fifo + Held(u));
    assert v.wire + v.fifo + Held(v) + v.ring == Queued(PutNext(u));
  }

  lemma ReturnConserves(u: Uart)
    requires Conserved(u) && u.writer.FeedTest?
    ensures Conserved(WriterStep(u))
  {
    var v := WriterStep(u);
    if u.i >= |u.src| {
      assert u.src[..u.i] == u.src;
      assert Queued(v) == u.written + u.src + [] == Queued(u);
    }
  }

  lemma AdvanceConserves(u: Uart)
    requires Conserved(u) && u.isr.Quiet?
    ensures Conserved(WriterStep(u))
  {
    match u.writer
    case Filling(f) => FillingConserves(u);
    case QueuePut => PutConserves(u);
    case FeedPut => PutConserves(u);
    case FeedTest => ReturnConserves(u);
    case Idle =>
    case QueueTest =>
    case MarkBusy =>
  }

  lemma ShiftConserves(u: Uart)
    requires Conserved(u) && u.fifo != []
    ensures Conserved(Step(u, Shift))
  {
    assert u.fifo == [u.fifo[0]] + u.fifo[1..];
    assert Step(u, Shift).wire + u.fifo[1..] == u.wire + u.fifo;
  }

  lemma StepConserves(u: Uart, e: Event)
    requires Conserved(u) && PairSafe(u)
    ensures Conserved(Step(u, e))
  {
    match e
    case Shift => if u.fifo != [] { ShiftConserves(u); }
    case Advance => if u.isr.Quiet? { AdvanceConserves(u); }
    case IsrAdvance => if u.isr.Refilling? { FillKeepsBytes(u, u.isr.fill, u.wire); }
    case Call(d) =>
    case Fire =>
  }

  lemma FillKeepsRest(u: Uart, f: Fill)
    ensures var v := FillStep(u, f).0; v == u.(ring := v.ring, fifo := v.fifo, armed := v.armed)
  {
  }

  lemma StepKeepsParameters(u: Uart, e: Event)
    ensures var v := Step(u, e);
      v.cap == u.cap && v.depth == u.depth && v.pairAtomic == u.pairAtomic
  {
    hide FillStep;
    if u.writer.Filling? { FillKeepsRest(u, u.writer.fill); }
    if u.isr.Refilling? { FillKeepsRest(u, u.isr.fill); }
  }

  /** The pairing assumption is a fixed parameter of a run. */
  lemma {:induction false} RunKeepsParameters(u: Uart, events: seq<Event>)
    ensures var v := Run(u, events);
      v.cap == u.cap && v.depth == u.depth && v.pairAtomic == u.pairAtomic
    decreases |events|
  {
    if events != [] {
      var prefix := events[..|events| - 1];
      RunKeepsParameters(u, prefix);
      StepKeepsParameters(Run(u, prefix), events[|events| - 1]);
    }
  }

  /**
   Main result: for every interleaving of calls of any length, TX interrupts
   and hardware shifting, no byte is lost, duplicated or reordered on its way
   from write() to the wire.
   */
  lemma {:induction false} BytesConserved(u: Uart, events: seq<Event>)
    requires Conserved(u) && u.pairAtomic
    ensures Conserved(Run(u, events))
    decreases |events|
  {
    if events != [] {
      var prefix := events[..|events| - 1];
      BytesConserved(u, prefix);
      RunKeepsParameters(u, prefix);
      StepConserves(Run(u, prefix), events[|events| - 1]);
    }
  }

  // ---------------------------------------------------------------------
  // txdone()
  // ---------------------------------------------------------------------

  predicate Fits(u: Uart, data: seq<byte>) {
    |data| + |u.ring| <= u.cap
  }

  /**
   What txdone() and flush() rely on outside write(): not busy means that
   everything has left the FIFO, busy means that the interrupt that will clear
   the flag is armed.
   */
  predicate Truthful(u: Uart) {
    u.writer.Idle? && u.isr.Quiet? ==>
      if u.busy then u.armed else u.ring == [] && u.fifo == []
  }

  /** Nothing is left in the driver, and no handler is at work. */
  predicate Drained(u: Uart) {
    u.ring == [] && u.fifo == [] && Held(u) == [] && u.isr.Quiet?
  }

  ghost predicate TruthInv(u: Uart) {
    && (u.writer.Idle? || u.writer.QueueTest? || u.writer.QueuePut? || u.writer.MarkBusy? || u.writer.FeedTest? ==>
          u.busy ==> u.armed || u.isr.Refilling?)
    && (u.writer.Idle? || u.writer.Filling? || u.writer.FeedTest? ==> !u.busy ==> Drained(u))
    && (u.writer.QueueTest? || u.writer.QueuePut? ==> |u.src| - u.i + |u.ring| <= u.cap)
    && (u.writer.MarkBusy? || u.writer.Filling? || u.writer.FeedTest? ==> u.i == |u.src|)
    && !u.writer.FeedPut?
    && (u.isr.Refilling? && u.isr.fill.ArmSet? ==> u.busy)
  }

  lemma AdvanceKeepsTruth(u: Uart)
    requires Sized(u) && TruthInv(u) && u.isr.Quiet?
    ensures TruthInv(WriterStep(u))
  {
    if u.writer.Filling? {
      match u.writer.fill case _ =>
    }
  }

  lemma IsrAdvanceKeepsTruth(u: Uart)
    requires Sized(u) && TruthInv(u) && u.isr.Refilling?
    ensures TruthInv(Step(u, IsrAdvance))
  {
    match u.isr.fill case _ =>
  }

  lemma StepKeepsTruth(u: Uart, e: Event)
    requires Sized(u) && TruthInv(u) && PairSafe(u)
    requires e.Call? && u.writer.Idle? ==> Fits(u, e.data)
    ensures TruthInv(Step(u, e))
  {
    match e
    case Advance => if u.isr.Quiet? { AdvanceKeepsTruth(u); }
    case IsrAdvance => if u.isr.Refilling? { IsrAdvanceKeepsTruth(u); }
    case Call(d) =>
    case Fire =>
    case Shift =>
  }

  /** Every call of the run is made when its data fits the free part of the ring. */
  predicate CallsFit(u: Uart, events: seq<Event>)
    decreases |events|
  {
    events == [] ||
    var prefix, e := events[..|events| - 1], events[|events| - 1];
    && CallsFit(u, prefix)
    && (e.Call? && Run(u, prefix).writer.Idle? ==> Fits(Run(u, prefix), e.data))
  }

  /** In a run of fitting writes, txdone() never lies and never gets stuck. */
  lemma {:induction false} FittingWritesTruthful(u: Uart, events: seq<Event>)
    requires Conserved(u) && TruthInv(u) && u.pairAtomic
    requires CallsFit(u, events)
    ensures Conserved(Run(u, events)) && TruthInv(Run(u, events)) && Truthful(Run(u, events))
    decreases |events|
  {
    BytesConserved(u, events);
    if events != [] {
      var prefix := events[..|events| - 1];
      FittingWritesTruthful(u, prefix);
      RunKeepsParameters(u, prefix);
      StepKeepsTruth(Run(u, prefix), events[|events| - 1]);
    }
  }

  // ---------------------------------------------------------------------
  // Busy means that the interrupt is armed
  // ---------------------------------------------------------------------

  /** Whoever could leave tx_busy set without the interrupt has yet to arm it. */
  predicate Alert(u: Uart) {
    u.busy ==> u.armed || u.isr.Refilling? || u.writer.Filling?
  }

  lemma StepAlert(u: Uart, e: Event)
    requires Alert(u)
    ensures Alert(Step(u, e))
  {
    match e
    case Advance => if u.writer.Filling? { match u.writer.fill case _ => }
    case IsrAdvance => if u.isr.Refilling? { match u.isr.fill case _ => }
    case _ =>
  }

  /** In every run, of calls of any length and with or without the pairing assumption. */
  lemma {:induction false} BusyIsArmed(u: Uart, events: seq<Event>)
    requires Alert(u)
    ensures Alert(Run(u, events))
    ensures Run(u, events).writer.Idle? && Run(u, events).isr.Quiet? && Run(u, events).busy ==> Run(u, events).armed
    decreases |events|
  {
    hide Step;
    if events != [] {
      BusyIsArmed(u, events[..|events| - 1]);
      StepAlert(Run(u, events[..|events| - 1]), events[|events| - 1]);
    }
  }

  /** The interrupt is one-shot: while the handler is at work it is off, and to be armed only for a busy driver. */
  predicate OneShot(u: Uart) {
    u.isr.Refilling? ==> !u.armed && (u.isr.fill.ArmSet? ==> u.busy)
  }

  lemma StepOneShot(u: Uart, e: Event)
    requires OneShot(u)
    ensures OneShot(Step(u, e))
    ensures u.isr.Refilling? && Step(u, e).isr.Quiet? ==> (Step(u, e).armed <==> Step(u, e).busy)
    ensures u.isr.Quiet? && e.Fire? && Step(u, e) != u && Step(u, e).isr.Quiet? ==>
      !Step(u, e).armed && !Step(u, e).busy
  {
    match e
    case Advance => if u.writer.Filling? { match u.writer.fill case _ => }
    case IsrAdvance => if u.isr.Refilling? { match u.isr.fill case _ => }
    case _ =>
  }

  /** In every run a handler that returns has re-armed the interrupt if and only if the driver is still busy. */
  lemma {:induction false} HandlerRearmsIffBusy(u: Uart, events: seq<Event>, e: Event)
    requires OneShot(u)
    ensures var v := Run(u, events); var w := Step(v, e);
      OneShot(v) && (v.isr.Refilling? && w.isr.Quiet? ==> (w.armed <==> w.busy))
    decreases |events|
  {
    hide Step;
    if events != [] {
      HandlerRearmsIffBusy(u, events[..|events| - 1], events[|events| - 1]);
      StepOneShot(Run(u, events[..|events| - 1]), events[|events| - 1]);
    }
    StepOneShot(Run(u, events), e);
  }

  // ---------------------------------------------------------------------
  // The pairing assumption, and runs that do not need it
  // ---------------------------------------------------------------------

  /** Nothing can interrupt a call: outside the final wait the interrupt is not armed. */
  ghost predicate CalmInv(u: Uart) {
    && TruthInv(u)
    && (!u.writer.Idle? && !u.writer.FeedTest? ==> !u.armed && u.isr.Quiet?)
    && (u.writer.Filling? ==> u.busy)
    && ((u.writer.Idle? || u.writer.FeedTest?) && !u.busy ==> !u.armed)
  }

  /** Every call of the run fits and is made after txdone() has returned true. */
  predicate CallsCalm(u: Uart, events: seq<Event>)
    decreases |events|
  {
    events == [] ||
    var prefix, e := events[..|events| - 1], events[|events| - 1];
    && CallsCalm(u, prefix)
    && (e.Call? && Run(u, prefix).writer.Idle? ==> Fits(Run(u, prefix), e.data) && !Run(u, prefix).busy)
  }

  lemma StepKeepsCalm(u: Uart, e: Event)
    requires Sized(u) && CalmInv(u)
    requires e.Call? && u.writer.Idle? ==> Fits(u, e.data) && !u.busy
    ensures CalmInv(Step(u, e))
  {
    StepKeepsTruth(u, e);
    match e
    case Advance => if u.writer.Filling? { match u.writer.fill case _ => }
    case IsrAdvance => if u.isr.Refilling? { match u.isr.fill case _ => }
    case _ =>
  }

  /**
   A caller that waits for txdone() before each write, and writes no more
   than fits, needs no assumption about interrupts inside the get/put pair.
   */
  lemma {:induction false} CalmWritesNeedNoPairing(u: Uart, events: seq<Event>)
    requires Conserved(u) && CalmInv(u)
    requires CallsCalm(u, events)
    ensures Conserved(Run(u, events)) && CalmInv(Run(u, events)) && Truthful(Run(u, events))
    decreases |events|
  {
    if events != [] {
      var prefix := events[..|events| - 1];
      CalmWritesNeedNoPairing(u, prefix);
      StepConserves(Run(u, prefix), events[|events| - 1]);
      StepKeepsCalm(Run(u, prefix), events[|events| - 1]);
    }
  }

  // ---------------------------------------------------------------------
  // Runs that exist
  // ---------------------------------------------------------------------

  predicate NoCalls(events: seq<Event>) {
    forall e | e in events :: !e.Call?
  }

  /** Some interleaving that enters no further call leads from u to v. */
  ghost predicate Reaches(u: Uart, v: Uart) {
    exists events :: NoCalls(events) && Run(u, events) == v
  }

  lemma ReachesSelf(u: Uart)
    ensures Reaches(u, u)
  {
    assert NoCalls([]) && Run(u, []) == u;
  }

  lemma Go(u: Uart, v: Uart, e: Event) returns (w: Uart)
    requires Reaches(u, v) && !e.Call?
    ensures w == Step(v, e) && Reaches(u, w)
  {
    var events :| NoCalls(events) && Run(u, events) == v;
    RunSnoc(u, events, e);
    w := Step(v, e);
    assert NoCalls(events + [e]) && Run(u, events + [e]) == w;
  }

  /** Undisturbed, the queueing loop fills the ring when the data does not fit. */
  lemma {:induction false} QueueUntilFull(u: Uart, v: Uart) returns (w: Uart)
    requires Reaches(u, v) && Conserved(v) && v.writer.QueueTest? && v.isr.Quiet?
    requires v.cap < |v.src| - v.i + |v.ring|
    ensures Reaches(u, w) && Conserved(w) && w.writer.MarkBusy? && w.isr.Quiet? && w.src == v.src && w.i < |w.src|
    ensures w.i - v.i == w.cap - |v.ring| && w.cap == v.cap && w.depth == v.depth
    decreases v.cap - |v.ring|
  {
    AdvanceConserves(v);
    w := Go(u, v, Advance);
    if w.writer.QueuePut? {
      AdvanceConserves(w);
      w := Go(u, w, Advance);
      w := QueueUntilFull(u, w);
    }
  }

  /** One pass of the refill loop in the thread. */
  lemma PassOn(u: Uart, v: Uart) returns (w: Uart)
    requires Reaches(u, v) && Conserved(v) && v.writer == Filling(Test) && v.isr.Quiet?
    requires v.ring != [] && |v.fifo| < v.depth
    ensures Reaches(u, w) && Conserved(w)
    ensures w == v.(ring := v.ring[1..], fifo := v.fifo + [v.ring[0]])
  {
    AdvanceConserves(v);
    w := Go(u, v, Advance);
    AdvanceConserves(w);
    w := Go(u, w, Advance);
  }

  /** Undisturbed, the refill of a busy driver ends with the interrupt armed. */
  lemma {:induction false} FillUntilArmed(u: Uart, v: Uart) returns (w: Uart)
    requires Reaches(u, v) && Conserved(v) && v.writer == Filling(Test) && v.isr.Quiet? && v.busy
    ensures Reaches(u, w) && Conserved(w) && w.writer.FeedTest? && w.isr.Quiet? && w.busy && w.armed
    ensures w.src == v.src && w.i == v.i && w.cap == v.cap && w.depth == v.depth
    decreases |v.ring|
  {
    if v.ring != [] && |v.fifo| < v.depth {
      w := PassOn(u, v);
      w := FillUntilArmed(u, w);
    } else {
      AdvanceConserves(v);
      w := Go(u, v, Advance);
      AdvanceConserves(w);
      w := Go(u, w, Advance);
      AdvanceConserves(w);
      w := Go(u, w, Advance);
    }
  }

  /** One pass of the refill loop in the handler. */
  lemma IsrPassOn(u: Uart, v: Uart) returns (w: Uart)
    requires Reaches(u, v) && Conserved(v) && PairSafe(v) && v.isr == Refilling(Test)
    requires v.ring != [] && |v.fifo| < v.depth
    ensures Reaches(u, w) && Conserved(w)
    ensures w == v.(ring := v.ring[1..], fifo := v.fifo + [v.ring[0]])
  {
    StepConserves(v, IsrAdvance);
    w := Go(u, v, IsrAdvance);
    StepConserves(w, IsrAdvance);
    w := Go(u, w, IsrAdvance);
  }

  /** Undisturbed, a handler of a busy driver moves bytes to the FIFO and re-arms. */
  lemma {:induction false} IsrUntilArmed(u: Uart, v: Uart) returns (w: Uart)
    requires Reaches(u, v) && Conserved(v) && PairSafe(v) && v.isr == Refilling(Test) && v.busy && v.writer.FeedTest?
    ensures Reaches(u, w) && Conserved(w) && w.isr.Quiet? && w.busy && w.armed
    ensures w.writer == v.writer && w.src == v.src && w.i == v.i && w.cap == v.cap && w.depth == v.depth
    ensures |w.ring| <= |v.ring|
    ensures v.ring != [] && v.fifo == [] ==> |w.ring| < |v.ring|
    decreases |v.ring|
  {
    if v.ring != [] && |v.fifo| < v.depth {
      w := IsrPassOn(u, v);
      w := IsrUntilArmed(u, w);
    } else {
      StepConserves(v, IsrAdvance);
      w := Go(u, v, IsrAdvance);
      StepConserves(w, IsrAdvance);
      w := Go(u, w, IsrAdvance);
      StepConserves(w, IsrAdvance);
      w := Go(u, w, IsrAdvance);
    }
  }

  /** The hardware can outrun a waiting write(): ring and FIFO empty and tx_busy is cleared. */
  lemma {:induction false} DrainWhileWaiting(u: Uart, v: Uart) returns (w: Uart)
    requires Reaches(u, v) && Conserved(v) && v.writer.FeedTest? && v.isr.Quiet? && v.busy && v.armed
    ensures Reaches(u, w) && Conserved(w) && w.writer.FeedTest? && Drained(w) && !w.busy && !w.armed
    ensures w.src == v.src && w.i == v.i && w.cap == v.cap && w.depth == v.depth
    decreases |v.ring|, |v.fifo|
  {
    if v.fifo != [] {
      ShiftConserves(v);
      w := Go(u, v, Shift);
      w := DrainWhileWaiting(u, w);
    } else {
      StepConserves(v, Fire);
      w := Go(u, v, Fire);
      if v.ring != [] {
        w := IsrUntilArmed(u, w);
        w := DrainWhileWaiting(u, w);
      }
    }
  }

  /** Undisturbed, the final loop of write() puts one byte into a ring with room. */
  lemma PutOne(u: Uart, v: Uart) returns (w: Uart)
    requires Reaches(u, v) && Conserved(v) && v.writer.FeedTest? && v.isr.Quiet?
    requires v.i < |v.src| && |v.ring| < v.cap
    ensures Reaches(u, w) && Conserved(w)
    ensures w == v.(writer := Filling(Test), ring := v.ring + [v.src[v.i]], i := v.i + 1)
  {
    AdvanceConserves(v);
    w := Go(u, v, Advance);
    AdvanceConserves(w);
    w := Go(u, w, Advance);
  }

  /** One byte more is fed while not busy: it goes behind whatever the FIFO holds. */
  lemma FeedBehindFifo(u: Uart, v: Uart) returns (w: Uart)
    requires Reaches(u, v) && Conserved(v) && v.writer.FeedTest? && v.isr.Quiet? && !v.busy && !v.armed
    requires v.i < |v.src| && |v.ring| < v.cap && (v.ring == [] || |v.fifo| == v.depth)
    ensures Reaches(u, w) && Conserved(w) && w.writer.FeedTest? && w.isr.Quiet? && !w.busy && !w.armed
    ensures w.src == v.src && w.i == v.i + 1 && (w.ring == [] || |w.fifo| == w.depth)
    ensures |w.ring| + |w.fifo| == |v.ring| + |v.fifo| + 1 && w.cap == v.cap && w.depth == v.depth
  {
    w := PutOne(u, v);
    if |v.fifo| < v.depth {
      w := PassOn(u, w);
    }
    AdvanceConserves(w);
    w := Go(u, w, Advance);
    AdvanceConserves(w);
    w := Go(u, w, Advance);
  }

  /** The rest of a long write can end with a byte in the FIFO and tx_busy clear. */
  lemma {:induction false} FinishUnarmed(u: Uart, v: Uart) returns (w: Uart)
    requires Reaches(u, v) && Conserved(v) && v.writer.FeedTest? && Drained(v) && !v.busy && !v.armed
    requires v.i < |v.src|
    ensures Reaches(u, w) && !Truthful(w)
    decreases |v.src| - v.i
  {
    w := FeedBehindFifo(u, v);
    if w.i == |w.src| {
      w := Go(u, w, Advance);
    } else {
      ShiftConserves(w);
      w := Go(u, w, Shift);
      w := FinishUnarmed(u, w);
    }
  }

  /** A write longer than the free part of the ring can leave txdone() lying. */
  lemma LongWriteCanLie(u: Uart, data: seq<byte>)
    requires Conserved(u) && u.pairAtomic && u.writer.Idle? && u.isr.Quiet? && data != []
    requires !Fits(u, data)
    ensures exists events :: NoCalls(events) && !Truthful(Run(Step(u, Call(data)), events))
  {
    var start := Step(u, Call(data));
    StepConserves(u, Call(data));
    ReachesSelf(start);
    var w := QueueUntilFull(start, start);
    AdvanceConserves(w);
    w := Go(start, w, Advance);
    w := FillUntilArmed(start, w);
    w := DrainWhileWaiting(start, w);
    w := FinishUnarmed(start, w);
    var events :| NoCalls(events) && Run(start, events) == w;
  }

  lemma {:induction false} NoCallsFit(u: Uart, events: seq<Event>)
    requires NoCalls(events)
    ensures CallsFit(u, events)
    decreases |events|
  {
    if events != [] {
      NoCallsFit(u, events[..|events| - 1]);
    }
  }

  /**
   The exact condition for txdone(): whatever interrupts and hardware do
   during and after one write(), the flag is truthful if and only if the data
   fits the free part of the ring when write() is called.  This holds even of
   a write that is made while the flag is lying.
   */
  lemma TxdoneTruthfulIffFits(u: Uart, data: seq<byte>)
    requires Conserved(u) && u.pairAtomic && u.writer.Idle? && u.isr.Quiet? && (u.busy ==> u.armed) && data != []
    ensures (forall events | NoCalls(events) :: Truthful(Run(Step(u, Call(data)), events))) <==> Fits(u, data)
  {
    if Fits(u, data) {
      var start := Step(u, Call(data));
      StepConserves(u, Call(data));
      assert TruthInv(start);
      hide Step, TruthInv, Conserved;
      forall events | NoCalls(events) ensures Truthful(Run(start, events)) {
        NoCallsFit(start, events);
        FittingWritesTruthful(start, events);
      }
    } else {
      LongWriteCanLie(u, data);
    }
  }

  // ---------------------------------------------------------------------
  // write() that never returns
  // ---------------------------------------------------------------------

  /** write() waits for room, and no interrupt is armed that could make any. */
  predicate Blocked(u: Uart) {
    u.writer.FeedTest? && u.i < |u.src| && |u.ring| >= u.cap && u.isr.Quiet? && !u.armed
  }

  lemma {:induction false} BlockedForever(u: Uart, events: seq<Event>)
    requires Blocked(u)
    ensures Blocked(Run(u, events))
    decreases |events|
  {
    if events != [] { BlockedForever(u, events[..|events| - 1]); }
  }

  /** How many bytes are inside the driver and its FIFO. */
  function Load(u: Uart): nat {
    |u.ring| + |u.fifo| + |Held(u)|
  }

  lemma IsrAdvanceKeepsLoad(u: Uart)
    requires Sized(u) && u.isr.Refilling?
    ensures Load(Step(u, IsrAdvance)) == Load(u)
  {
    match u.isr.fill case _ =>
  }

  lemma FillingKeepsLoad(u: Uart)
    requires Sized(u) && u.isr.Quiet? && u.writer.Filling?
    ensures Load(WriterStep(u)) == Load(u)
  {
    match u.writer.fill case _ =>
  }

  /**
   How far a call that started with `free` places in the ring must have come.
   Bytes accumulate in the ring of a driver that is not busy only behind a
   FIFO that was full.
   */
  ghost predicate ProgressInv(u: Uart, free: nat) {
    && (u.writer.QueueTest? || u.writer.QueuePut? ==> free + |u.ring| <= u.cap + u.i)
    && (u.writer.MarkBusy? || u.writer.Filling? || u.writer.FeedTest? || u.writer.FeedPut? ==>
          u.i == |u.src| || free <= u.i)
    && (u.writer.FeedTest? || u.writer.FeedPut? ==> u.busy ==> u.armed || u.isr.Refilling?)
    && (u.isr.Refilling? && u.isr.fill.ArmSet? ==> u.busy)
    && (u.writer.Filling? || u.writer.FeedTest? || u.writer.FeedPut? ==> !u.busy ==>
          && (u.i == |u.src| || Load(u) <= u.i - free)
          && (u.i == |u.src| || u.ring == [] || (u.writer.Filling? && (u.writer.fill.Test? || u.writer.fill.Hold?)) ||
              |u.ring| + u.depth <= u.i - free))
  }

  lemma FillingKeepsProgress(u: Uart, free: nat)
    requires Sized(u) && ProgressInv(u, free) && u.isr.Quiet? && u.writer.Filling?
    ensures ProgressInv(WriterStep(u), free)
  {
    FillingKeepsLoad(u);
  }

  lemma AdvanceKeepsProgress(u: Uart, free: nat)
    requires Sized(u) && ProgressInv(u, free) && u.isr.Quiet? && !u.writer.Idle?
    ensures ProgressInv(WriterStep(u), free)
  {
    if u.writer.Filling? {
      FillingKeepsProgress(u, free);
    }
  }

  lemma IsrAdvanceKeepsProgress(u: Uart, free: nat)
    requires Sized(u) && ProgressInv(u, free) && u.isr.Refilling?
    ensures ProgressInv(Step(u, IsrAdvance), free)
  {
    hide Load;
    IsrAdvanceKeepsLoad(u);
    match u.isr.fill case _ =>
  }

  lemma FireKeepsProgress(u: Uart, free: nat)
    requires Sized(u) && ProgressInv(u, free) && PairSafe(u)
    ensures ProgressInv(Step(u, Fire), free)
  {
  }

  lemma StepKeepsProgress(u: Uart, free: nat, e: Event)
    requires Sized(u) && ProgressInv(u, free) && PairSafe(u) && !e.Call?
    ensures ProgressInv(Step(u, e), free)
  {
    match e
    case Advance => if u.isr.Quiet? && !u.writer.Idle? { AdvanceKeepsProgress(u, free); }
    case IsrAdvance => if u.isr.Refilling? { IsrAdvanceKeepsProgress(u, free); }
    case Fire => FireKeepsProgress(u, free);
    case Shift =>
  }

  lemma {:induction false} RunKeepsProgress(u: Uart, free: nat, events: seq<Event>)
    requires Conserved(u) && ProgressInv(u, free) && u.pairAtomic && NoCalls(events)
    ensures Conserved(Run(u, events)) && ProgressInv(Run(u, events), free)
    decreases |events|
  {
    BytesConserved(u, events);
    if events != [] {
      var prefix := events[..|events| - 1];
      RunKeepsProgress(u, free, prefix);
      RunKeepsParameters(u, prefix);
      StepKeepsProgress(Run(u, prefix), free, events[|events| - 1]);
    }
  }

  lemma {:induction false} FeedUntilBlocked(u: Uart, v: Uart) returns (w: Uart)
    requires Reaches(u, v) && Conserved(v) && v.writer.FeedTest? && v.isr.Quiet? && !v.busy && !v.armed
    requires v.ring == [] || |v.fifo| == v.depth
    requires v.cap + v.depth - |v.ring| - |v.fifo| < |v.src| - v.i
    ensures Reaches(u, w) && Blocked(w)
    decreases v.cap + v.depth - |v.ring| - |v.fifo|
  {
    if |v.ring| == v.cap {
      w := v;
    } else {
      w := FeedBehindFifo(u, v);
      w := FeedUntilBlocked(u, w);
    }
  }

  lemma VeryLongWriteCanBlock(u: Uart, data: seq<byte>)
    requires Conserved(u) && u.pairAtomic && u.writer.Idle? && u.isr.Quiet?
    requires u.cap - |u.ring| + u.cap + u.depth < |data|
    ensures exists events :: NoCalls(events) && Blocked(Run(Step(u, Call(data)), events))
  {
    var start := Step(u, Call(data));
    StepConserves(u, Call(data));
    ReachesSelf(start);
    var w := QueueUntilFull(start, start);
    AdvanceConserves(w);
    w := Go(start, w, Advance);
    w := FillUntilArmed(start, w);
    w := DrainWhileWaiting(start, w);
    w := FeedUntilBlocked(start, w);
    var events :| NoCalls(events) && Run(start, events) == w;
  }

  /**
   The exact condition for write() to return: some interleaving leaves it
   waiting forever if and only if the data exceeds the free part of the ring
   by more than a whole ring and a whole FIFO.
   */
  lemma WriteCanBlockIffVeryLong(u: Uart, data: seq<byte>)
    requires Conserved(u) && u.pairAtomic && u.writer.Idle? && u.isr.Quiet? && data != []
    ensures (exists events :: NoCalls(events) && Blocked(Run(Step(u, Call(data)), events)))
      <==> u.cap - |u.ring| + u.cap + u.depth < |data|
  {
    var start := Step(u, Call(data));
    var free := u.cap - |u.ring|;
    StepConserves(u, Call(data));
    if free + u.cap + u.depth < |data| {
      VeryLongWriteCanBlock(u, data);
    }
    if events :| NoCalls(events) && Blocked(Run(start, events)) {
      var w := Run(start, events);
      RunKeepsProgress(start, free, events);
      RunKeepsParameters(start, events);
      CallUnchanged(start, events);
    }
  }

  lemma StepKeepsCall(u: Uart, e: Event)
    requires !e.Call?
    ensures Step(u, e).writer.Idle? || (!u.writer.Idle? && Step(u, e).src == u.src)
  {
    match e
    case Advance => if u.writer.Filling? { match u.writer.fill case _ => }
    case IsrAdvance => if u.isr.Refilling? { match u.isr.fill case _ => }
    case Fire =>
    case Shift =>
  }

  /** While a call has not returned, its data stays the data it was made with. */
  lemma {:induction false} CallUnchanged(u: Uart, events: seq<Event>)
    requires NoCalls(events)
    ensures Run(u, events).writer.Idle? || Run(u, events).src == u.src
    decreases |events|
  {
    if events != [] {
      var prefix := events[..|events| - 1];
      CallUnchanged(u, prefix);
      StepKeepsCall(Run(u, prefix), events[|events| - 1]);
    }
  }
}
