/**
 The receive side of the UART driver: the interrupt handler drains the
 hardware FIFO into a ring buffer that read() empties.  The handler lags one
 byte behind so that it can discard the byte a break condition injects.
 */
module UartRx {
  import opened Prelude

  /** What became of a byte that arrived. */
  datatype Fate = Kept | Lost | BreakByte

  datatype Arrival = Arrival(data: byte, fate: Fate)

  /** `log` is every byte that ever arrived, `taken` every byte read() ever returned. */
  datatype Rx = Rx(cap: nat, ring: seq<byte>, taken: seq<byte>, log: seq<Arrival>)

  datatype Event =
    | Irq(batch: seq<byte>, isBreak: bool)  // one interrupt that finds `batch` in the FIFO
    | Take                                  // read() takes one byte

  // ---------------------------------------------------------------------
  // One interrupt
  // ---------------------------------------------------------------------

  /** The bytes of a batch that are offered to the ring: all but the last when a break was seen. */
  function Offered(batch: seq<byte>, isBreak: bool): (r: seq<byte>)
    ensures r <= batch
  {
    if isBreak && batch != [] then batch[..|batch| - 1] else batch
  }

  /** How many of `n` bytes offered to the ring find room. */
  function Fitting(rx: Rx, n: nat): (k: nat)
    requires |rx.ring| <= rx.cap
    ensures k <= n && k + |rx.ring| <= rx.cap
  {
    Min(n, rx.cap - |rx.ring|)
  }

  function Mark(bytes: seq<byte>, fate: Fate): (r: seq<Arrival>)
    ensures |r| == |bytes|
  {
    seq(|bytes|, k requires 0 <= k < |bytes| => Arrival(bytes[k], fate))
  }

  function Step(rx: Rx, e: Event): (r: Rx)
    requires |rx.ring| <= rx.cap
    ensures |r.ring| <= r.cap == rx.cap
  {
    match e
    case Irq(batch, isBreak) =>
      var offered := Offered(batch, isBreak);
      var k := Fitting(rx, |offered|);
      rx.(ring := rx.ring + offered[..k],
          log := rx.log + Mark(offered[..k], Kept) + Mark(offered[k..], Lost) + Mark(batch[|offered|..], BreakByte))
    case Take =>
      if rx.ring == [] then rx else rx.(ring := rx.ring[1..], taken := rx.taken + [rx.ring[0]])
  }

  function Run(rx: Rx, events: seq<Event>): (r: Rx)
    requires |rx.ring| <= rx.cap
    ensures |r.ring| <= r.cap == rx.cap
    decreases |events|
  {
    if events == [] then rx else Step(Run(rx, events[..|events| - 1]), events[|events| - 1])
  }

  // ---------------------------------------------------------------------
  // Whole runs
  // ---------------------------------------------------------------------

  function Bytes(log: seq<Arrival>): seq<byte> {
    seq(|log|, k requires 0 <= k < |log| => log[k].data)
  }

  function KeptBytes(log: seq<Arrival>): seq<byte>
    decreases |log|
  {
    if log == [] then []
    else KeptBytes(log[..|log| - 1]) + (if log[|log| - 1].fate.Kept? then [log[|log| - 1].data] else [])
  }

  function CountFate(log: seq<Arrival>, fate: Fate): nat
    decreases |log|
  {
    if log == [] then 0
    else CountFate(log[..|log| - 1], fate) + (if log[|log| - 1].fate == fate then 1 else 0)
  }

  /** Every byte the line delivered, in order. */
  function Received(events: seq<Event>): seq<byte>
    decreases |events|
  {
    if events == [] then []
    else
      var e := events[|events| - 1];
      Received(events[..|events| - 1]) + (if e.Irq? then e.batch else [])
  }

  /** The interrupts that saw a break together with at least one byte. */
  function Breaks(events: seq<Event>): nat
    decreases |events|
  {
    if events == [] then 0
    else
      var e := events[|events| - 1];
      Breaks(events[..|events| - 1]) + (if e.Irq? && e.isBreak && e.batch != [] then 1 else 0)
  }

  lemma KeptOfSnoc(log: seq<Arrival>, a: Arrival)
    ensures KeptBytes(log + [a]) == KeptBytes(log) + (if a.fate.Kept? then [a.data] else [])
  {
    assert (log + [a])[..|log|] == log;
  }

  lemma MarkSnoc(bytes: seq<byte>, b: byte, fate: Fate)
    ensures Mark(bytes + [b], fate) == Mark(bytes, fate) + [Arrival(b, fate)]
  {
  }

  lemma {:induction false} KeptOfMark(log: seq<Arrival>, bytes: seq<byte>, fate: Fate)
    ensures KeptBytes(log + Mark(bytes, fate)) == KeptBytes(log) + (if fate.Kept? then bytes else [])
    decreases |bytes|
  {
    hide KeptBytes, Mark;
    if bytes == [] {
      assert log + Mark(bytes, fate) == log;
      assert KeptBytes(log) + [] == KeptBytes(log);
    } else {
      var front, b := bytes[..|bytes| - 1], bytes[|bytes| - 1];
      KeptOfMark(log, front, fate);
      assert front + [b] == bytes;
      MarkSnoc(front, b, fate);
      Assoc(log, Mark(front, fate), [Arrival(b, fate)]);
      KeptOfSnoc(log + Mark(front, fate), Arrival(b, fate));
      Assoc(KeptBytes(log), front, [b]);
    }
  }

  lemma {:induction false} CountOfMark(log: seq<Arrival>, bytes: seq<byte>, fate: Fate, f: Fate)
    ensures CountFate(log + Mark(bytes, fate), f) == CountFate(log, f) + (if fate == f then |bytes| else 0)
    decreases |bytes|
  {
    var marked := log + Mark(bytes, fate);
    if bytes == [] {
      assert marked == log;
    } else {
      var front := bytes[..|bytes| - 1];
      CountOfMark(log, front, fate, f);
      assert marked[..|marked| - 1] == log + Mark(front, fate);
    }
  }

  lemma IrqCounts(rx: Rx, e: Event, f: Fate)
    requires |rx.ring| <= rx.cap && e.Irq?
    ensures var offered := Offered(e.batch, e.isBreak);
      var k := Fitting(rx, |offered|);
      CountFate(Step(rx, e).log, f) == CountFate(rx.log, f) +
        match f case Kept => k case Lost => |offered| - k case BreakByte => |e.batch| - |offered|
  {
    var offered := Offered(e.batch, e.isBreak);
    var k := Fitting(rx, |offered|);
    var kept, lost := Mark(offered[..k], Kept), Mark(offered[k..], Lost);
    CountOfMark(rx.log, offered[..k], Kept, f);
    CountOfMark(rx.log + kept, offered[k..], Lost, f);
    CountOfMark(rx.log + kept + lost, e.batch[|offered|..], BreakByte, f);
  }

  lemma IrqKept(rx: Rx, e: Event)
    requires |rx.ring| <= rx.cap && e.Irq?
    ensures KeptBytes(Step(rx, e).log) == KeptBytes(rx.log) + Step(rx, e).ring[|rx.ring|..]
  {
    var offered := Offered(e.batch, e.isBreak);
    var k := Fitting(rx, |offered|);
    var kept, lost := Mark(offered[..k], Kept), Mark(offered[k..], Lost);
    KeptOfMark(rx.log, offered[..k], Kept);
    KeptOfMark(rx.log + kept, offered[k..], Lost);
    KeptOfMark(rx.log + kept + lost, e.batch[|offered|..], BreakByte);
  }

  lemma IrqLogs(rx: Rx, e: Event)
    requires |rx.ring| <= rx.cap && e.Irq?
    ensures Bytes(Step(rx, e).log) == Bytes(rx.log) + e.batch
  {
  }

  ghost predicate Accounted(rx: Rx) {
    |rx.ring| <= rx.cap && rx.taken + rx.ring == KeptBytes(rx.log)
  }

  lemma IrqRing(rx: Rx, e: Event)
    requires |rx.ring| <= rx.cap && e.Irq?
    ensures var v := Step(rx, e); v.taken == rx.taken && rx.ring + v.ring[|rx.ring|..] == v.ring
  {
  }

  lemma StepAccounted(rx: Rx, e: Event)
    requires Accounted(rx)
    ensures Accounted(Step(rx, e))
  {
    hide KeptBytes;
    var v := Step(rx, e);
    if e.Irq? {
      hide Step;
      IrqKept(rx, e);
      IrqRing(rx, e);
      Assoc(rx.taken, rx.ring, v.ring[|rx.ring|..]);
    } else if rx.ring != [] {
      Assoc(rx.taken, [rx.ring[0]], rx.ring[1..]);
      assert [rx.ring[0]] + rx.ring[1..] == rx.ring;
    }
  }

  /** What one step adds to the log. */
  lemma StepLogs(rx: Rx, e: Event)
    requires |rx.ring| <= rx.cap
    ensures Bytes(Step(rx, e).log) == Bytes(rx.log) + (if e.Irq? then e.batch else [])
    ensures CountFate(Step(rx, e).log, BreakByte) ==
      CountFate(rx.log, BreakByte) + (if e.Irq? && e.isBreak && e.batch != [] then 1 else 0)
  {
    if e.Irq? {
      IrqLogs(rx, e);
      IrqCounts(rx, e, BreakByte);
    }
  }

  /** The fate of byte k of a batch, by its position alone. */
  function FateOf(rx: Rx, batch: seq<byte>, isBreak: bool, k: nat): Fate {
    if isBreak && k + 1 == |batch| then BreakByte
    else if |rx.ring| + k < rx.cap then Kept
    else Lost
  }

  /**
   What the log gains from one event: each byte of the batch, in order, the
   last one discarded on a break, and of the others those lost that come after
   the ring has filled.
   */
  ghost predicate FatesRight(rx: Rx, e: Event)
    requires |rx.ring| <= rx.cap
  {
    var before, after := rx.log, Step(rx, e).log;
    if e.Irq? then
      && |after| == |before| + |e.batch| && after[..|before|] == before
      && forall k :: 0 <= k < |e.batch| ==>
           after[|before| + k] == Arrival(e.batch[k], FateOf(rx, e.batch, e.isBreak, k))
    else after == before
  }

  /** The three stretches of a batch, one after the other. */
  lemma StretchAt(log: seq<Arrival>, a: seq<byte>, b: seq<byte>, c: seq<byte>, k: nat)
    requires k < |a| + |b| + |c|
    ensures var all := log + Mark(a, Kept) + Mark(b, Lost) + Mark(c, BreakByte);
      && |all| == |log| + |a| + |b| + |c| && all[..|log|] == log
      && all[|log| + k] ==
         if k < |a| then Arrival(a[k], Kept)
         else if k < |a| + |b| then Arrival(b[k - |a|], Lost)
         else Arrival(c[k - |a| - |b|], BreakByte)
  {
  }

  lemma StepFates(rx: Rx, e: Event)
    requires |rx.ring| <= rx.cap
    ensures FatesRight(rx, e)
  {
    hide Mark;
    if e.Irq? {
      var offered := Offered(e.batch, e.isBreak);
      var k := Fitting(rx, |offered|);
      var a, b, c := offered[..k], offered[k..], e.batch[|offered|..];
      if e.batch == [] {
        assert rx.log + Mark(a, Kept) + Mark(b, Lost) + Mark(c, BreakByte) == rx.log;
      }
      forall j | 0 <= j < |e.batch|
        ensures |Step(rx, e).log| == |rx.log| + |e.batch| && Step(rx, e).log[..|rx.log|] == rx.log
        ensures Step(rx, e).log[|rx.log| + j] == Arrival(e.batch[j], FateOf(rx, e.batch, e.isBreak, j))
      {
        StretchAt(rx.log, a, b, c, j);
      }
    }
  }

  /**
   Main result: over any run of interrupts with any batch sizes, with or
   without breaks, and any reads, what read() returned followed by what the
   ring holds is exactly what arrived, in order, without the bytes marked
   lost or injected by a break.  Injected is the last byte of each batch with a
   break, and lost are the bytes that find the ring full.
   */
  lemma {:induction false} ReceivedInOrder(rx: Rx, events: seq<Event>)
    requires Accounted(rx)
    ensures var v := Run(rx, events);
      && Accounted(v)
      && Bytes(v.log) == Bytes(rx.log) + Received(events)
      && CountFate(v.log, BreakByte) == CountFate(rx.log, BreakByte) + Breaks(events)
    ensures forall k :: 0 <= k < |events| ==> FatesRight(Run(rx, events[..k]), events[k])
    decreases |events|
  {
    hide Step, Bytes, CountFate, KeptBytes, FatesRight;
    forall k | 0 <= k < |events| ensures FatesRight(Run(rx, events[..k]), events[k]) {
      StepFates(Run(rx, events[..k]), events[k]);
    }
    if events != [] {
      var prefix, e := events[..|events| - 1], events[|events| - 1];
      ReceivedInOrder(rx, prefix);
      StepAccounted(Run(rx, prefix), e);
      StepLogs(Run(rx, prefix), e);
    }
  }

  /** An interrupt loses bytes if and only if it offers more than the ring has room for. */
  lemma LossIffFull(rx: Rx, e: Event)
    requires |rx.ring| <= rx.cap && e.Irq?
    ensures CountFate(Step(rx, e).log, Lost) > CountFate(rx.log, Lost)
      <==> rx.cap - |rx.ring| < |Offered(e.batch, e.isBreak)|
  {
    IrqCounts(rx, e, Lost);
  }
}
