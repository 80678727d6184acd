/**
 Which writes keep their bytes in order although a refill interrupt can come
 between ringbuf_get and serial_putc of one pair: exactly those none of whose
 pending bytes is exposed.
 */
module UartOrder {
  import opened Prelude
  import opened UartTx
  import opened UartSwap

  lemma ConservedInOrder(u: Uart)
    requires Conserved(u)
    ensures InOrder(u)
  {
    assert Queued(u) == (u.wire + u.fifo) + (Held(u) + u.ring);
  }

  // ---------------------------------------------------------------------
  // Runs that swap only equal bytes
  // ---------------------------------------------------------------------

  /** From position k on, all bytes are b. */
  predicate AllFrom(s: seq<byte>, k: nat, b: byte) {
    forall j :: k <= j < |s| ==> s[j] == b
  }

  function Hands(u: Uart): nat {
    (if WriterHolds(u) then 1 else 0) + (if u.isr.Refilling? && u.isr.fill.Hold? then 1 else 0)
  }

  /** The first n bytes of what was queued have left the ring in order, and all others are b. */
  ghost predicate Alike(u: Uart, n: nat, b: byte) {
    && 0 < u.depth && |u.fifo| <= u.depth && u.i <= |u.src|
    && n <= At(u) && (u.wire + u.fifo)[..n] <= Queued(u)
    && AllFrom(u.wire + u.fifo, n, b) && AllFrom(Queued(u), n, b) && AllFrom(u.ring, 0, b)
    && (WriterHolds(u) ==> u.writer.fill.held == b)
    && (u.isr.Refilling? && u.isr.fill.Hold? ==> u.isr.fill.held == b)
    && At(u) + Hands(u) + |u.ring| == |Queued(u)|
    && (u.writer.QueuePut? || u.writer.FeedPut? ==> u.i < |u.src| && |u.ring| < u.cap)
  }

  /** What the call has not queued yet is b as well. */
  predicate RestAlike(u: Uart, b: byte) {
    AllFrom(u.src, u.i, b)
  }

  lemma AlikeInOrder(u: Uart, n: nat, b: byte)
    requires Alike(u, n, b)
    ensures InOrder(u)
  {
    var moved := u.wire + u.fifo;
    forall k | 0 <= k < |moved| ensures moved[k] == Queued(u)[k] {
      if k < n {
        assert moved[..n][k] == Queued(u)[k];
      }
    }
  }

  /** One statement of the refill, wherever it runs, keeps the bytes alike. */
  lemma FillAlike(u: Uart, f: Fill, b: byte)
    requires 0 < u.depth && |u.fifo| <= u.depth && AllFrom(u.ring, 0, b) && (f.Hold? ==> f.held == b)
    ensures var (v, next) := FillStep(u, f);
      && v == u.(ring := v.ring, fifo := v.fifo, armed := v.armed)
      && |v.fifo| <= v.depth && AllFrom(v.ring, 0, b)
      && u.fifo <= v.fifo && AllFrom(v.fifo, |u.fifo|, b)
      && (next.Some? && next.value.Hold? ==> next.value.held == b)
      && |v.ring| <= |u.ring|
      && |v.fifo| + |v.ring| + (if next.Some? && next.value.Hold? then 1 else 0) ==
         |u.fifo| + |u.ring| + (if f.Hold? then 1 else 0)
  {
  }

  /** Bytes equal to b may be added to the FIFO. */
  lemma MoreInFifo(u: Uart, v: Uart, n: nat, b: byte)
    requires u.i <= |u.src|
    requires n <= At(u) && (u.wire + u.fifo)[..n] <= Queued(u) && AllFrom(u.wire + u.fifo, n, b)
    requires v.wire == u.wire && u.fifo <= v.fifo && AllFrom(v.fifo, |u.fifo|, b)
    requires v.written == u.written && v.src == u.src && v.i == u.i
    ensures n <= At(v) && (v.wire + v.fifo)[..n] <= Queued(v) && AllFrom(v.wire + v.fifo, n, b)
  {
    var s, t := u.wire + u.fifo, v.wire + v.fifo;
    assert t[..|s|] == s;
    assert t[..n] == s[..n];
    forall j | n <= j < |t| ensures t[j] == b {
      if j < |s| {
        assert t[j] == s[j];
      } else {
        assert t[j] == v.fifo[j - |v.wire|];
      }
    }
  }

  lemma IsrStepAlike(u: Uart, n: nat, b: byte)
    requires Alike(u, n, b) && u.isr.Refilling?
    ensures Alike(Step(u, IsrAdvance), n, b)
  {
    var v := Step(u, IsrAdvance);
    FillAlike(u, u.isr.fill, b);
    MoreInFifo(u, v, n, b);
    hide AllFrom, FillStep;
  }

  lemma FillingAlike(u: Uart, n: nat, b: byte)
    requires Alike(u, n, b) && u.isr.Quiet? && u.writer.Filling?
    ensures Alike(WriterStep(u), n, b)
  {
    var v := WriterStep(u);
    FillAlike(u, u.writer.fill, b);
    MoreInFifo(u, v, n, b);
    hide AllFrom, FillStep;
  }

  lemma PutAlike(u: Uart, n: nat, b: byte)
    requires Alike(u, n, b) && u.isr.Quiet? && (u.writer.QueuePut? || u.writer.FeedPut?) && u.src[u.i] == b
    ensures Alike(WriterStep(u), n, b)
  {
    var v := WriterStep(u);
    assert Queued(v) == Queued(u) + [b];
    assert v.ring == u.ring + [b];
    assert AllFrom(Queued(v), n, b);
    assert AllFrom(v.ring, 0, b);
    assert (u.wire + u.fifo)[..n] <= Queued(u) <= Queued(v);
  }

  lemma ReturnAlike(u: Uart, n: nat, b: byte)
    requires Alike(u, n, b) && u.writer.FeedTest?
    ensures Alike(WriterStep(u), n, b)
  {
    var v := WriterStep(u);
    if u.i >= |u.src| {
      assert u.src[..u.i] == u.src && v.written + [] == v.written;
      assert Queued(v) == Queued(u);
    }
  }

  lemma ShiftAlike(u: Uart, n: nat, b: byte)
    requires Alike(u, n, b)
    ensures Alike(Step(u, Shift), n, b)
  {
    var v := Step(u, Shift);
    if u.fifo != [] {
      Assoc(u.wire, [u.fifo[0]], u.fifo[1..]);
      assert v.wire + v.fifo == u.wire + u.fifo;
    }
  }

  lemma StepAlike(u: Uart, e: Event, n: nat, b: byte)
    requires Alike(u, n, b) && RestAlike(u, b) && !e.Call?
    ensures Alike(Step(u, e), n, b) && RestAlike(Step(u, e), b)
  {
    match e
    case Shift => ShiftAlike(u, n, b);
    case IsrAdvance => if u.isr.Refilling? { IsrStepAlike(u, n, b); FillAlike(u, u.isr.fill, b); }
    case Fire =>
    case Advance =>
      if u.isr.Quiet? {
        WriterStepAlike(u, n, b);
      }
  }

  /** Statements that only move the control point, or set tx_busy. */
  lemma MoveAlike(u: Uart, n: nat, b: byte)
    requires Alike(u, n, b) && RestAlike(u, b) && (u.writer.Idle? || u.writer.QueueTest? || u.writer.MarkBusy?)
    ensures Alike(WriterStep(u), n, b) && RestAlike(WriterStep(u), b)
  {
  }

  lemma RestKept(u: Uart, b: byte)
    requires RestAlike(u, b) && u.i <= |u.src|
    ensures RestAlike(WriterStep(u), b)
  {
    hide FillStep;
    if u.writer.Filling? {
      FillKeepsRest(u, u.writer.fill);
    }
  }

  lemma IsrKeepsRest(u: Uart, b: byte)
    requires RestAlike(u, b)
    ensures RestAlike(Step(u, IsrAdvance), b)
  {
    if u.isr.Refilling? {
      match u.isr.fill case _ =>
    }
  }

  lemma WriterStepAlike(u: Uart, n: nat, b: byte)
    requires Alike(u, n, b) && RestAlike(u, b) && u.isr.Quiet?
    ensures Alike(WriterStep(u), n, b) && RestAlike(WriterStep(u), b)
  {
    hide WriterStep;
    RestKept(u, b);
    match u.writer
    case Filling(f) => FillingAlike(u, n, b);
    case QueuePut => PutAlike(u, n, b);
    case FeedPut => PutAlike(u, n, b);
    case FeedTest => ReturnAlike(u, n, b);
    case _ => MoveAlike(u, n, b);
  }

  lemma {:induction false} RunAlike(u: Uart, events: seq<Event>, n: nat, b: byte)
    requires Alike(u, n, b) && RestAlike(u, b) && NoCalls(events)
    ensures Alike(Run(u, events), n, b) && RestAlike(Run(u, events), b)
    decreases |events|
  {
    hide Alike, RestAlike, Step;
    if events != [] {
      RunAlike(u, events[..|events| - 1], n, b);
      StepAlike(Run(u, events[..|events| - 1]), events[|events| - 1], n, b);
    }
  }

  /** A conserved state, all of whose queued bytes beyond n are b. */
  lemma QueuedAlike(u: Uart, n: nat, b: byte)
    requires Conserved(u) && n <= At(u) && AllFrom(Queued(u), n, b)
    ensures Alike(u, n, b)
  {
    var q := Queued(u);
    var moved := u.wire + u.fifo;
    assert moved + Held(u) + u.ring == q;
    assert moved == q[..|moved|];
    assert moved[..n] == q[..n];
    forall j | 0 <= j < |u.ring| ensures u.ring[j] == b {
      assert u.ring[j] == q[|moved| + |Held(u)| + j];
    }
    if Held(u) != [] {
      assert Held(u)[0] == q[|moved|];
    }
  }

  lemma QueuedOfWhole(u: Uart)
    requires u.i <= |u.src|
    ensures Queued(u) == Whole(u)[..|u.written| + u.i]
  {
  }

  /** A conserved state, all of whose bytes beyond n are b. */
  lemma ConservedAlike(u: Uart, n: nat, b: byte)
    requires Conserved(u) && n <= At(u) && AllFrom(Whole(u), n, b)
    ensures Alike(u, n, b) && RestAlike(u, b)
  {
    QueuedOfWhole(u);
    QueuedAlike(u, n, b);
    hide Alike, Conserved;
    ConservedSized(u);
    AtBounds(u);
    forall j | u.i <= j < |u.src| ensures u.src[j] == b {
      assert u.src[j] == Whole(u)[|u.written| + j];
    }
  }

  lemma AtBounds(u: Uart)
    requires Conserved(u)
    ensures At(u) <= |u.written| + u.i
  {
    assert |Queued(u)| == At(u) + |Held(u)| + |u.ring|;
  }

  /** Neighbours that never differ are all the same. */
  lemma {:induction false} AllTheSame(s: seq<byte>, k: nat, m: nat)
    requires k < m <= |s| && forall p: nat :: k <= p && p + 1 < m ==> !Differ(s, p)
    ensures forall j :: k <= j < m ==> s[j] == s[k]
    decreases m
  {
    if k + 1 < m {
      AllTheSame(s, k, m - 1);
      assert !Differ(s, m - 2);
    }
  }

  // ---------------------------------------------------------------------
  // A full ring in front of a deep FIFO
  // ---------------------------------------------------------------------

  /**
   A call made with a full ring, none of whose data is queued yet.  `total` is
   the number of bytes written before the call; `sent` of them were on the wire
   when it was made, and the FIFO can take all others at once.
   */
  ghost predicate Behind(u: Uart, total: nat, sent: nat, n: nat, b: byte) {
    && Alike(u, n, b) && u.i == 0 < |u.src| && |u.written| == total && !u.writer.Idle?
    && sent <= |u.wire| && total <= sent + u.depth
    && (u.writer.QueueTest? && u.isr.Quiet? ==> u.ring == [] || |u.ring| == u.cap)
    && (u.writer.QueuePut? || u.writer.FeedPut? || u.writer.FeedTest? ==> u.ring == [] && u.isr.Quiet?)
    && (u.writer.Filling? && (u.writer.fill.ArmTest? || u.writer.fill.ArmSet?) ==> u.ring == [] && u.isr.Quiet?)
    && (u.isr.Refilling? && (u.isr.fill.ArmTest? || u.isr.fill.ArmSet?) ==> u.ring == [])
  }

  /** Once a byte of the data is queued, all before it have left the ring in order. */
  ghost predicate BehindOrAlike(u: Uart, total: nat, sent: nat, n: nat, b: byte, c: byte) {
    (Behind(u, total, sent, n, b) || Alike(u, total, c)) && RestAlike(u, c)
  }

  lemma FirstPut(u: Uart, total: nat, sent: nat, n: nat, b: byte, c: byte)
    requires Behind(u, total, sent, n, b) && RestAlike(u, c) && (u.writer.QueuePut? || u.writer.FeedPut?)
    ensures Alike(WriterStep(u), total, c)
  {
    AlikeInOrder(u, n, b);
    var moved := u.wire + u.fifo;
    assert Queued(u) == u.written;
    assert moved == u.written;
    var v := WriterStep(u);
    assert Queued(v) == u.written + [c];
    assert v.ring == [c];
    assert (v.wire + v.fifo)[..total] == u.written;
  }

  /** A full FIFO holds everything that was not on the wire. */
  lemma BehindBounds(u: Uart, total: nat, sent: nat, n: nat, b: byte)
    requires Behind(u, total, sent, n, b)
    ensures |u.fifo| <= u.depth
    ensures |u.fifo| == u.depth ==> u.ring == [] && Hands(u) == 0
  {
    assert Queued(u) == u.written;
  }

  lemma FillingBehind(u: Uart, total: nat, sent: nat, n: nat, b: byte)
    requires Behind(u, total, sent, n, b) && u.isr.Quiet? && u.writer.Filling?
    ensures Behind(WriterStep(u), total, sent, n, b)
  {
    hide Alike;
    BehindBounds(u, total, sent, n, b);
    FillingAlike(u, n, b);
    match u.writer.fill case _ =>
  }

  lemma WriterBehind(u: Uart, total: nat, sent: nat, n: nat, b: byte)
    requires Behind(u, total, sent, n, b) && u.isr.Quiet? && !u.writer.QueuePut? && !u.writer.FeedPut?
    ensures Behind(WriterStep(u), total, sent, n, b)
  {
    if u.writer.Filling? {
      hide WriterStep, Behind;
      FillingBehind(u, total, sent, n, b);
    }
  }

  lemma IsrBehind(u: Uart, total: nat, sent: nat, n: nat, b: byte)
    requires Behind(u, total, sent, n, b) && u.isr.Refilling?
    ensures Behind(Step(u, IsrAdvance), total, sent, n, b)
  {
    hide Alike;
    IsrStepAlike(u, n, b);
    BehindBounds(u, total, sent, n, b);
    match u.isr.fill case _ =>
  }

  lemma ShiftBehind(u: Uart, total: nat, sent: nat, n: nat, b: byte)
    requires Behind(u, total, sent, n, b)
    ensures Behind(Step(u, Shift), total, sent, n, b)
  {
    hide Alike;
    ShiftAlike(u, n, b);
  }

  lemma StepBehind(u: Uart, e: Event, total: nat, sent: nat, n: nat, b: byte, c: byte)
    requires BehindOrAlike(u, total, sent, n, b, c) && !e.Call?
    ensures BehindOrAlike(Step(u, e), total, sent, n, b, c)
  {
    if Alike(u, total, c) {
      StepAlike(u, e, total, c);
    } else {
      match e
      case Shift => ShiftBehind(u, total, sent, n, b);
      case IsrAdvance =>
        if u.isr.Refilling? {
          IsrBehind(u, total, sent, n, b);
          IsrKeepsRest(u, c);
        }
      case Fire =>
      case Advance =>
        if u.isr.Quiet? {
          RestKept(u, c);
          if u.writer.QueuePut? || u.writer.FeedPut? {
            FirstPut(u, total, sent, n, b, c);
          } else {
            WriterBehind(u, total, sent, n, b);
          }
        }
    }
  }

  lemma {:induction false} RunBehind(u: Uart, events: seq<Event>, total: nat, sent: nat, n: nat, b: byte, c: byte)
    requires BehindOrAlike(u, total, sent, n, b, c) && NoCalls(events)
    ensures BehindOrAlike(Run(u, events), total, sent, n, b, c)
    decreases |events|
  {
    hide BehindOrAlike, Step;
    if events != [] {
      RunBehind(u, events[..|events| - 1], total, sent, n, b, c);
      StepBehind(Run(u, events[..|events| - 1]), events[|events| - 1], total, sent, n, b, c);
    }
  }

  lemma BehindInOrder(u: Uart, total: nat, sent: nat, n: nat, b: byte, c: byte)
    requires BehindOrAlike(u, total, sent, n, b, c)
    ensures InOrder(u)
  {
    if Alike(u, total, c) {
      AlikeInOrder(u, total, c);
    } else {
      AlikeInOrder(u, n, b);
    }
  }

  // ---------------------------------------------------------------------
  // Before the FIFO can be full
  // ---------------------------------------------------------------------

  /**
   Before n bytes have left the ring, no interrupt finds a byte in the ring
   while the thread holds one.
   */
  ghost predicate Early(u: Uart, base: nat, n: nat) {
    && Conserved(u) && base <= |u.wire| && At(u) < n <= base + u.depth
    && (u.writer.QueueTest? || u.writer.QueuePut? || u.writer.MarkBusy? ==> !u.armed && u.isr.Quiet?)
    && (u.writer == Filling(Test) ==> (!u.armed && u.isr.Quiet?) || |u.ring| <= 1)
    && (WriterHolds(u) ==> u.isr.Quiet? && (!u.armed || u.ring == []))
    && (u.writer.Filling? && (u.writer.fill.ArmTest? || u.writer.fill.ArmSet?) ==> u.ring == [])
    && (u.writer.FeedTest? || u.writer.FeedPut? || u.writer.Idle? ==> u.ring == [])
  }

  ghost predicate EarlyOrAlike(u: Uart, base: nat, n: nat, b: byte) {
    (Early(u, base, n) && AllFrom(Whole(u), n, b)) || (Alike(u, n, b) && RestAlike(u, b))
  }

  lemma EarlyConserves(u: Uart, e: Event, base: nat, n: nat)
    requires Early(u, base, n) && !e.Call?
    ensures Conserved(Step(u, e))
  {
    hide FillStep;
    match e
    case Shift => if u.fifo != [] { ShiftConserves(u); }
    case Advance => if u.isr.Quiet? { AdvanceConserves(u); }
    case IsrAdvance => if u.isr.Refilling? { FillKeepsBytes(u, u.isr.fill, u.wire); }
    case Fire =>
  }

  lemma WriterEarly(u: Uart, base: nat, n: nat)
    requires Early(u, base, n) && u.isr.Quiet? && Conserved(WriterStep(u)) && At(WriterStep(u)) < n
    ensures Early(WriterStep(u), base, n)
  {
    hide Conserved;
    ConservedSized(u);
    if u.writer.Filling? {
      match u.writer.fill case _ =>
    }
  }

  lemma EarlyKept(u: Uart, e: Event, base: nat, n: nat)
    requires Early(u, base, n) && !e.Call? && Conserved(Step(u, e)) && At(Step(u, e)) < n
    ensures Early(Step(u, e), base, n)
  {
    hide Conserved, WriterStep;
    ConservedSized(u);
    match e
    case Shift =>
    case Fire =>
    case IsrAdvance => if u.isr.Refilling? { match u.isr.fill case _ => }
    case Advance => if u.isr.Quiet? { WriterEarly(u, base, n); }
  }

  lemma WholeKept(u: Uart, e: Event)
    requires !e.Call? && u.i <= |u.src|
    ensures Whole(Step(u, e)) == Whole(u)
  {
    hide FillStep;
    assert u.written + u.src + [] == u.written + u.src;
    if u.writer.Filling? { FillKeepsRest(u, u.writer.fill); }
    if u.isr.Refilling? { FillKeepsRest(u, u.isr.fill); }
  }

  lemma StepEarly(u: Uart, e: Event, base: nat, n: nat, b: byte)
    requires EarlyOrAlike(u, base, n, b) && !e.Call?
    ensures EarlyOrAlike(Step(u, e), base, n, b)
  {
    hide Step, Conserved, Alike, RestAlike;
    if Alike(u, n, b) && RestAlike(u, b) {
      StepAlike(u, e, n, b);
    } else {
      ConservedSized(u);
      EarlyConserves(u, e, base, n);
      WholeKept(u, e);
      if At(Step(u, e)) < n {
        EarlyKept(u, e, base, n);
      } else {
        ConservedAlike(Step(u, e), n, b);
      }
    }
  }

  lemma {:induction false} RunEarly(u: Uart, events: seq<Event>, base: nat, n: nat, b: byte)
    requires EarlyOrAlike(u, base, n, b) && NoCalls(events)
    ensures EarlyOrAlike(Run(u, events), base, n, b)
    decreases |events|
  {
    hide EarlyOrAlike, Step;
    if events != [] {
      RunEarly(u, events[..|events| - 1], base, n, b);
      StepEarly(Run(u, events[..|events| - 1]), events[|events| - 1], base, n, b);
    }
  }

  lemma EarlyInOrder(u: Uart, base: nat, n: nat, b: byte)
    requires EarlyOrAlike(u, base, n, b)
    ensures InOrder(u)
  {
    if Alike(u, n, b) {
      AlikeInOrder(u, n, b);
    } else {
      ConservedInOrder(u);
    }
  }

  // ---------------------------------------------------------------------
  // A fitting write made with the interrupt off
  // ---------------------------------------------------------------------

  predicate Queueing(w: Writer) {
    w.QueueTest? || w.QueuePut? || w.MarkBusy?
  }

  /** The interrupt stays off until the thread has handed over everything. */
  ghost predicate Fitting(u: Uart) {
    && Conserved(u) && !u.writer.FeedPut?
    && (Queueing(u.writer) || u.writer.Filling? ==> !u.armed && u.isr.Quiet?)
    && (u.writer.QueueTest? || u.writer.QueuePut? ==> |u.ring| + |u.src| - u.i <= u.cap)
    && (u.writer.MarkBusy? || u.writer.Filling? || u.writer.FeedTest? ==> u.i == |u.src|)
  }

  lemma WriterFitting(u: Uart)
    requires Fitting(u) && u.isr.Quiet? && Conserved(WriterStep(u))
    ensures Fitting(WriterStep(u))
  {
    hide Conserved;
    ConservedSized(u);
    if u.writer.Filling? {
      match u.writer.fill case _ =>
    }
  }

  lemma StepFitting(u: Uart, e: Event)
    requires Fitting(u) && !e.Call?
    ensures Fitting(Step(u, e))
  {
    hide Conserved, WriterStep;
    assert PairSafe(u);
    StepConserves(u, e);
    ConservedSized(u);
    match e
    case Advance => if u.isr.Quiet? { WriterFitting(u); }
    case IsrAdvance => if u.isr.Refilling? { match u.isr.fill case _ => }
    case _ =>
  }

  lemma {:induction false} RunFitting(u: Uart, events: seq<Event>)
    requires Fitting(u) && NoCalls(events)
    ensures Fitting(Run(u, events))
    decreases |events|
  {
    hide Fitting, Step;
    if events != [] {
      RunFitting(u, events[..|events| - 1]);
      StepFitting(Run(u, events[..|events| - 1]), events[|events| - 1]);
    }
  }

  // ---------------------------------------------------------------------
  // A long write made with the interrupt off and the FIFO full
  // ---------------------------------------------------------------------

  /**
   Not one byte has left the ring since the call.  If the thread does not take
   the first one while the interrupt is off, the handler does, at the wait for room.
   */
  ghost predicate Untouched(u: Uart, n: nat) {
    && Conserved(u) && At(u) + 1 == n && u.i < |u.src| && !u.writer.Idle? && !u.writer.FeedPut?
    && (Queueing(u.writer) || u.writer.Filling? ==> !u.armed && u.isr.Quiet?)
    && (u.writer.QueueTest? || u.writer.QueuePut? ==> u.cap < |u.ring| + |u.src| - u.i)
    && (u.writer.MarkBusy? || (u.writer.Filling? && !u.writer.fill.Hold?) ==> |u.ring| == u.cap)
    && (u.writer.FeedTest? && u.isr.Quiet? ==> |u.ring| == u.cap)
    && (u.isr.Refilling? ==> u.fifo == [] && ((u.isr.fill.Test? && u.ring != []) || u.isr.fill.Hold?))
  }

  ghost predicate UntouchedOrAlike(u: Uart, n: nat, b: byte) {
    (Untouched(u, n) && AllFrom(Whole(u), n, b)) || (Alike(u, n, b) && RestAlike(u, b))
  }

  lemma WriterUntouched(u: Uart, n: nat)
    requires Untouched(u, n) && u.isr.Quiet? && Conserved(WriterStep(u))
    ensures Untouched(WriterStep(u), n) || At(WriterStep(u)) == n
  {
    hide Conserved;
    ConservedSized(u);
    if u.writer.Filling? {
      match u.writer.fill case _ =>
    }
  }

  lemma UntouchedStep(u: Uart, e: Event, n: nat)
    requires Untouched(u, n) && !e.Call? && Conserved(Step(u, e))
    ensures Untouched(Step(u, e), n) || At(Step(u, e)) == n
  {
    hide Conserved, WriterStep;
    ConservedSized(u);
    match e
    case Advance => if u.isr.Quiet? { WriterUntouched(u, n); }
    case IsrAdvance => if u.isr.Refilling? { match u.isr.fill case _ => }
    case _ =>
  }

  lemma UntouchedPairSafe(u: Uart, n: nat)
    requires Untouched(u, n)
    ensures PairSafe(u) && Conserved(u) && Sized(u)
  {
  }

  lemma StepUntouched(u: Uart, e: Event, n: nat, b: byte)
    requires UntouchedOrAlike(u, n, b) && !e.Call?
    ensures UntouchedOrAlike(Step(u, e), n, b)
  {
    hide Step, Conserved, Alike, RestAlike, Untouched;
    if Alike(u, n, b) && RestAlike(u, b) {
      StepAlike(u, e, n, b);
    } else {
      UntouchedPairSafe(u, n);
      StepConserves(u, e);
      WholeKept(u, e);
      UntouchedStep(u, e, n);
      if !Untouched(Step(u, e), n) {
        ConservedAlike(Step(u, e), n, b);
      }
    }
  }

  lemma {:induction false} RunUntouched(u: Uart, events: seq<Event>, n: nat, b: byte)
    requires UntouchedOrAlike(u, n, b) && NoCalls(events)
    ensures UntouchedOrAlike(Run(u, events), n, b)
    decreases |events|
  {
    hide UntouchedOrAlike, Step;
    if events != [] {
      RunUntouched(u, events[..|events| - 1], n, b);
      StepUntouched(Run(u, events[..|events| - 1]), events[|events| - 1], n, b);
    }
  }

  lemma UntouchedInOrder(u: Uart, n: nat, b: byte)
    requires UntouchedOrAlike(u, n, b)
    ensures InOrder(u)
  {
    if Alike(u, n, b) {
      AlikeInOrder(u, n, b);
    } else {
      ConservedInOrder(u);
    }
  }

  // ---------------------------------------------------------------------
  // A write made while not busy with the interrupt armed
  // ---------------------------------------------------------------------

  /** The thread is queueing, and nothing has left the ring since the call. */
  ghost predicate Starting(u: Uart, at: nat, base: nat) {
    && Conserved(u) && Queueing(u.writer) && u.armed && !u.busy && u.isr.Quiet?
    && At(u) == at && base <= |u.wire| && at + u.cap <= base + u.depth
  }

  /** The handler has found bytes in the ring; not being busy, it will not arm the interrupt again. */
  ghost predicate Yielding(u: Uart, base: nat) {
    && Conserved(u) && Queueing(u.writer) && !u.armed && !u.busy
    && u.isr.Refilling? && !u.isr.fill.ArmSet?
    && base <= |u.wire| && At(u) < base + u.depth
  }

  /** The thread refills from the first ring, all of whose bytes are b and fit the FIFO. */
  ghost predicate FirstRing(u: Uart, at: nat, base: nat, b: byte) {
    && Alike(u, at, b) && u.writer.Filling? && (u.writer.fill.Test? || u.writer.fill.Hold?)
    && base <= |u.wire| && |Queued(u)| <= base + u.depth && 0 < u.cap && |u.ring| <= u.cap
    && (u.isr.Refilling? && (u.isr.fill.ArmTest? || u.isr.fill.ArmSet?) ==> u.ring == [])
  }

  /** The bytes of the first ring are b, those beyond a full FIFO are c. */
  predicate TwoStretches(whole: seq<byte>, at: nat, cap: nat, n: nat, b: byte, c: byte) {
    (forall j :: at <= j < at + cap && j < |whole| ==> whole[j] == b) && AllFrom(whole, n, c)
  }

  /** The stages of such a call, up to the one in which everything is in order or alike. */
  ghost predicate Armed(u: Uart, at: nat, base: nat, b: byte) {
    Starting(u, at, base) || Yielding(u, base) || FirstRing(u, at, base, b)
  }

  ghost predicate ArmedOrAlike(u: Uart, at: nat, base: nat, n: nat, b: byte, c: byte) {
    || (Armed(u, at, base, b) && n == base + u.depth && TwoStretches(Whole(u), at, u.cap, n, b, c))
    || EarlyOrAlike(u, base, n, c)
  }

  /** A conserved state in which the constraints of Early hold, or enough has left the ring. */
  lemma NowEarlyOrAlike(u: Uart, base: nat, n: nat, c: byte)
    requires Conserved(u) && AllFrom(Whole(u), n, c)
    requires At(u) < n ==> Early(u, base, n)
    ensures EarlyOrAlike(u, base, n, c)
  {
    if n <= At(u) {
      ConservedAlike(u, n, c);
    }
    hide Early, Alike, RestAlike, Conserved;
  }

  lemma FirstRingBegins(u: Uart, at: nat, base: nat, n: nat, b: byte, c: byte)
    requires Starting(u, at, base) && u.writer.MarkBusy? && TwoStretches(Whole(u), at, u.cap, n, b, c)
    ensures FirstRing(WriterStep(u), at, base, b)
  {
    AdvanceConserves(u);
    var v := WriterStep(u);
    RingIs(u);
    QueuedOfWhole(v);
    QueuedAlike(v, at, b);
    hide Alike;
  }

  lemma StepStarting(u: Uart, e: Event, at: nat, base: nat, n: nat, b: byte, c: byte)
    requires Starting(u, at, base) && n == base + u.depth && TwoStretches(Whole(u), at, u.cap, n, b, c) && !e.Call?
    ensures Armed(Step(u, e), at, base, b) || (Conserved(Step(u, e)) && Early(Step(u, e), base, n))
  {
    StepConserves(u, e);
    if e.Advance? && u.writer.MarkBusy? {
      FirstRingBegins(u, at, base, n, b, c);
    }
    hide Conserved, FirstRing;
    ConservedSized(u);
  }

  lemma StepYielding(u: Uart, e: Event, base: nat, n: nat)
    requires Yielding(u, base) && n == base + u.depth && !e.Call?
    ensures var v := Step(u, e); Conserved(v) && (Yielding(v, base) || n <= At(v) || Early(v, base, n))
  {
    StepConserves(u, e);
    hide Conserved;
    ConservedSized(u);
    if e.IsrAdvance? {
      match u.isr.fill case _ =>
    }
  }

  /** A full FIFO holds everything that was queued and is not on the wire. */
  lemma FirstRingBounds(u: Uart, at: nat, base: nat, b: byte)
    requires FirstRing(u, at, base, b)
    ensures |u.fifo| <= u.depth && u.i <= |u.src|
    ensures |u.fifo| == u.depth ==> u.ring == [] && Hands(u) == 0
  {
  }

  /** When nobody holds a byte and the ring is empty, everything queued has left in order. */
  lemma AllMovedConserved(u: Uart, at: nat, b: byte)
    requires Alike(u, at, b) && u.ring == [] && Hands(u) == 0 && 0 < u.cap && u.writer.Filling?
    ensures Conserved(u)
  {
    AlikeInOrder(u, at, b);
    assert u.wire + u.fifo == Queued(u);
  }

  lemma ThreadInFirstRing(u: Uart, at: nat, base: nat, n: nat, b: byte)
    requires FirstRing(u, at, base, b) && u.isr.Quiet? && n == base + u.depth
    ensures var v := WriterStep(u);
      FirstRing(v, at, base, b) || (Conserved(v) && (n <= At(v) || Early(v, base, n)))
  {
    hide Alike, Conserved;
    FirstRingBounds(u, at, base, b);
    FillingAlike(u, at, b);
    var v := WriterStep(u);
    if u.writer.fill.Test? && (|u.fifo| == u.depth || u.ring == []) {
      AllMovedConserved(v, at, b);
    }
  }

  lemma StepFirstRing(u: Uart, e: Event, at: nat, base: nat, n: nat, b: byte)
    requires FirstRing(u, at, base, b) && n == base + u.depth && !e.Call?
    ensures var v := Step(u, e);
      FirstRing(v, at, base, b) || (Conserved(v) && (n <= At(v) || Early(v, base, n)))
  {
    hide Alike, Conserved, Early, WriterStep;
    FirstRingBounds(u, at, base, b);
    match e
    case Shift => ShiftAlike(u, at, b);
    case Advance => if u.isr.Quiet? { ThreadInFirstRing(u, at, base, n, b); }
    case IsrAdvance => if u.isr.Refilling? { IsrStepAlike(u, at, b); match u.isr.fill case _ => }
    case Fire => FireAlike(u, at, b);
  }

  lemma FireAlike(u: Uart, n: nat, b: byte)
    requires Alike(u, n, b)
    ensures Alike(Step(u, Fire), n, b)
  {
  }

  lemma StepArmed(u: Uart, e: Event, at: nat, base: nat, n: nat, b: byte, c: byte)
    requires ArmedOrAlike(u, at, base, n, b, c) && !e.Call?
    ensures ArmedOrAlike(Step(u, e), at, base, n, b, c)
  {
    hide Step, Conserved, Alike, Early, EarlyOrAlike, TwoStretches, Starting, Yielding, FirstRing;
    if EarlyOrAlike(u, base, n, c) {
      StepEarly(u, e, base, n, c);
    } else {
      var v := Step(u, e);
      ArmedSized(u, at, base, b);
      WholeKept(u, e);
      StepKeepsParameters(u, e);
      if Starting(u, at, base) {
        StepStarting(u, e, at, base, n, b, c);
      } else if Yielding(u, base) {
        StepYielding(u, e, base, n);
      } else {
        StepFirstRing(u, e, at, base, n, b);
      }
      if !Armed(v, at, base, b) {
        Stretches(Whole(v), at, u.cap, n, b, c);
        NowEarlyOrAlike(v, base, n, c);
      }
    }
  }

  lemma Stretches(whole: seq<byte>, at: nat, cap: nat, n: nat, b: byte, c: byte)
    requires TwoStretches(whole, at, cap, n, b, c)
    ensures AllFrom(whole, n, c)
  {
  }

  lemma ArmedSized(u: Uart, at: nat, base: nat, b: byte)
    requires Armed(u, at, base, b)
    ensures u.i <= |u.src|
  {
  }

  lemma {:induction false} RunArmed(u: Uart, events: seq<Event>, at: nat, base: nat, n: nat, b: byte, c: byte)
    requires ArmedOrAlike(u, at, base, n, b, c) && NoCalls(events)
    ensures ArmedOrAlike(Run(u, events), at, base, n, b, c)
    decreases |events|
  {
    hide ArmedOrAlike, Step;
    if events != [] {
      RunArmed(u, events[..|events| - 1], at, base, n, b, c);
      StepArmed(Run(u, events[..|events| - 1]), events[|events| - 1], at, base, n, b, c);
    }
  }

  lemma ArmedInOrder(u: Uart, at: nat, base: nat, n: nat, b: byte, c: byte)
    requires ArmedOrAlike(u, at, base, n, b, c)
    ensures InOrder(u)
  {
    if EarlyOrAlike(u, base, n, c) {
      EarlyInOrder(u, base, n, c);
    } else if FirstRing(u, at, base, b) {
      AlikeInOrder(u, at, b);
    } else {
      ConservedInOrder(u);
    }
  }

  // ---------------------------------------------------------------------
  // The exact condition
  // ---------------------------------------------------------------------

  /** The bytes still to be sent, seen from the call's start. */
  lemma CallStarts(u: Uart, data: seq<byte>)
    requires Resting(u) && data != []
    ensures var start := Step(u, Call(data));
      && start == u.(writer := QueueTest, src := data, i := 0) && Conserved(start)
      && Whole(start) == u.written + data
      && At(u) + |u.ring| == |u.written|
      && forall j :: At(u) <= j < |Whole(start)| ==> Whole(start)[j] == (u.ring + data)[j - At(u)]
  {
    StepConserves(u, Call(data));
    var start := Step(u, Call(data));
    RingIs(start);
    PendingIs(start);
    assert data[0..] == data;
    forall j | At(u) <= j < |Whole(start)| ensures Whole(start)[j] == (u.ring + data)[j - At(u)] {
      assert Whole(start)[At(u)..][j - At(u)] == Whole(start)[j];
    }
  }

  /** From position k of the pending bytes on no pair is exposed for lying there. */
  lemma SameFrom(u: Uart, data: seq<byte>, k: nat) returns (c: byte)
    requires forall p: nat :: k <= p ==> !Differ(u.ring + data, p)
    ensures forall j :: k <= j < |u.ring + data| ==> (u.ring + data)[j] == c
  {
    var s := u.ring + data;
    c := if k < |s| then s[k] else 0;
    if k < |s| {
      AllTheSame(s, k, |s|);
    }
  }

  lemma SameBytesKeepOrder(u: Uart, data: seq<byte>)
    requires Resting(u) && data != [] && forall p: nat :: !Differ(u.ring + data, p)
    ensures OrderKept(u, data)
  {
    hide Conserved, Run, Alike, InOrder;
    CallStarts(u, data);
    var b := SameFrom(u, data, 0);
    var start := Step(u, Call(data));
    ConservedAlike(start, At(u), b);
    hide Step;
    forall events | NoCalls(events) ensures InOrder(Run(start, events)) {
      RunAlike(start, events, At(u), b);
      AlikeInOrder(Run(start, events), At(u), b);
    }
  }

  lemma FittingWriteKeepsOrder(u: Uart, data: seq<byte>)
    requires Resting(u) && data != [] && !u.busy && !u.armed && Fits(u, data)
    ensures OrderKept(u, data)
  {
    hide Conserved, Run, InOrder;
    CallStarts(u, data);
    var start := Step(u, Call(data));
    hide Step;
    assert Fitting(start);
    forall events | NoCalls(events) ensures InOrder(Run(start, events)) {
      RunFitting(start, events);
      ConservedInOrder(Run(start, events));
    }
  }

  lemma LongWriteKeepsOrder(u: Uart, data: seq<byte>)
    requires Resting(u) && data != [] && !u.busy && !u.armed && !Fits(u, data) && !Exposed(u, data)
    ensures OrderKept(u, data)
  {
    hide Conserved, Run, InOrder, Alike;
    CallStarts(u, data);
    ConservedSized(u);
    var k := if |u.fifo| < u.depth then u.depth - |u.fifo| else 1;
    forall p: nat | k <= p ensures !Differ(u.ring + data, p) {
      assert !ExposedAt(u, data, p);
    }
    var c := SameFrom(u, data, k);
    var start, n := Step(u, Call(data)), At(u) + k;
    hide Step;
    if |u.fifo| < u.depth {
      assert EarlyOrAlike(start, |u.wire|, n, c);
      forall events | NoCalls(events) ensures InOrder(Run(start, events)) {
        RunEarly(start, events, |u.wire|, n, c);
        EarlyInOrder(Run(start, events), |u.wire|, n, c);
      }
    } else {
      assert UntouchedOrAlike(start, n, c);
      forall events | NoCalls(events) ensures InOrder(Run(start, events)) {
        RunUntouched(start, events, n, c);
        UntouchedInOrder(Run(start, events), n, c);
      }
    }
  }

  lemma ArmedWriteKeepsOrder(u: Uart, data: seq<byte>)
    requires Resting(u) && data != [] && !u.busy && u.armed && !Exposed(u, data)
    requires u.cap + |u.fifo| <= u.depth
    ensures OrderKept(u, data)
  {
    hide Conserved, Run, InOrder, Alike, EarlyOrAlike;
    CallStarts(u, data);
    var s := u.ring + data;
    forall p: nat | p + 1 < u.cap || u.depth <= p + |u.fifo| ensures !Differ(s, p) {
      assert !ExposedAt(u, data, p);
    }
    var c := SameFrom(u, data, u.depth - |u.fifo|);
    var first := Min(u.cap, |s|);
    AllTheSame(s, 0, first);
    var start, n := Step(u, Call(data)), |u.wire| + u.depth;
    hide Step;
    assert TwoStretches(Whole(start), At(u), u.cap, n, s[0], c);
    assert Starting(start, At(u), |u.wire|);
    forall events | NoCalls(events) ensures InOrder(Run(start, events)) {
      RunArmed(start, events, At(u), |u.wire|, n, s[0], c);
      ArmedInOrder(Run(start, events), At(u), |u.wire|, n, s[0], c);
    }
  }

  lemma FullRingKeepsOrder(u: Uart, data: seq<byte>)
    requires Resting(u) && data != []
    requires u.busy && |u.ring| == u.cap && u.cap + |u.fifo| <= u.depth
    requires forall p: nat :: p + 1 != |u.ring| ==> !Differ(u.ring + data, p)
    ensures OrderKept(u, data)
  {
    var start := Step(u, Call(data));
    StepConserves(u, Call(data));
    RingIs(u);
    assert u.src == [];
    forall p: nat | p + 1 < |u.ring| ensures !Differ(u.ring, p) {
      assert !Differ(u.ring + data, p);
    }
    AllTheSame(u.ring, 0, |u.ring|);
    forall p: nat | p + 1 < |data| ensures !Differ(data, p) {
      assert !Differ(u.ring + data, |u.ring| + p);
    }
    AllTheSame(data, 0, |data|);
    var b, c, n := u.ring[0], data[0], At(u);
    forall j | n <= j < |Whole(u)| ensures Whole(u)[j] == b {
      assert Whole(u)[j] == u.ring[j - n];
    }
    ConservedAlike(u, n, b);
    assert Alike(start, n, b) by {
      assert Queued(start) == Queued(u);
    }
    assert Behind(start, |u.written|, |u.wire|, n, b);
    forall events | NoCalls(events) ensures InOrder(Run(start, events)) {
      RunBehind(start, events, |u.written|, |u.wire|, n, b, c);
      BehindInOrder(Run(start, events), |u.written|, |u.wire|, n, b, c);
    }
  }

  lemma NotExposedKeepsOrder(u: Uart, data: seq<byte>)
    requires Resting(u) && data != [] && !Exposed(u, data)
    ensures OrderKept(u, data)
  {
    hide OrderKept, Conserved;
    ConservedSized(u);
    if forall p: nat :: !Differ(u.ring + data, p) {
      SameBytesKeepOrder(u, data);
    } else {
      var p: nat :| Differ(u.ring + data, p);
      assert !ExposedAt(u, data, p);
      if u.busy {
        forall p: nat | p + 1 != |u.ring| ensures !Differ(u.ring + data, p) {
          assert !ExposedAt(u, data, p);
        }
        FullRingKeepsOrder(u, data);
      } else if u.armed {
        ArmedWriteKeepsOrder(u, data);
      } else if Fits(u, data) {
        FittingWriteKeepsOrder(u, data);
      } else {
        LongWriteKeepsOrder(u, data);
      }
    }
  }

  /**
   Main result: if an interrupt can be taken inside the get/put pair, a write
   of any length, made at any moment outside a call and a handler, keeps its
   bytes in order under every interleaving if and only if none of the bytes
   still to be sent is exposed.
   */
  lemma UnpairedOrderIff(u: Uart, data: seq<byte>)
    requires Resting(u) && data != []
    ensures OrderKept(u, data) <==> !Exposed(u, data)
  {
    hide OrderKept, CanSwap, Conserved;
    if Exposed(u, data) {
      var p: nat :| ExposedAt(u, data, p);
      ExposedCanSwap(u, data, p);
      SwapBreaksOrder(u, data);
    } else {
      NotExposedKeepsOrder(u, data);
    }
  }

  /**
   For bytes no two neighbours of which are equal, and a FIFO shorter than the
   ring: order is kept if and only if txdone() was true with the interrupt off
   and the data fits.
   */
  lemma DistinctBytesInOrderIff(u: Uart, data: seq<byte>)
    requires Resting(u) && data != [] && 2 <= |u.ring + data| && u.depth < u.cap
    requires forall p: nat :: p + 1 < |u.ring + data| ==> Differ(u.ring + data, p)
    ensures OrderKept(u, data) <==> !u.busy && !u.armed && Fits(u, data)
  {
    hide OrderKept, Conserved;
    ConservedSized(u);
    UnpairedOrderIff(u, data);
    if u.armed {
      assert Differ(u.ring + data, 0);
      assert ExposedAt(u, data, 0);
    } else if !Fits(u, data) {
      assert Differ(u.ring + data, u.depth);
      assert ExposedAt(u, data, u.depth);
    }
  }
}
