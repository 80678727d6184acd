/**
 I2S reception: the hardware fills two half-buffers in turn forever, and an
 interrupt handler moves the half that has just been filled into the ring.
 */
module I2sRx {
  import opened Prelude

  /** What became of a half the hardware filled. */
  datatype Filled = Filled(bytes: seq<byte>, kept: bool)

  /**
   `filling` is the half the hardware is writing, `dmaHalf` the driver's idea
   of it; `pending` says that a block completion has not been serviced.
   `log` is every serviced half and `taken` every byte the application read.
   */
  datatype Rx = Rx(
    half: nat, cap: nat,
    ring: seq<byte>, halves: seq<seq<byte>>,
    filling: nat, dmaHalf: nat, pending: bool,
    log: seq<Filled>, taken: seq<byte>)

  datatype Event =
    | BlockDone(data: seq<byte>)  // the hardware completes a half and moves to the other one
    | Service                     // the handler runs for a block completion
    | ErrorIrq                    // the handler runs for an error interrupt only
    | Take                        // the application takes a byte from the ring

  predicate Shaped(rx: Rx) {
    && 0 < rx.half <= rx.cap && |rx.ring| <= rx.cap
    && |rx.halves| == 2 && |rx.halves[0]| == |rx.halves[1]| == rx.half
    && rx.filling < 2 && rx.dmaHalf < 2
  }

  /** A drain: the whole half goes into the ring, or none of it. */
  function Drain(rx: Rx, which: nat): (r: Rx)
    requires Shaped(rx) && which < 2
    ensures Shaped(r)
  {
    var bytes := rx.halves[which];
    if rx.half <= rx.cap - |rx.ring| then
      rx.(ring := rx.ring + bytes, log := rx.log + [Filled(bytes, true)])
    else
      rx.(log := rx.log + [Filled(bytes, false)])
  }

  function Step(rx: Rx, e: Event): (r: Rx)
    requires Shaped(rx)
    ensures Shaped(r)
  {
    match e
    case BlockDone(data) =>
      if rx.pending || |data| != rx.half then rx
      else rx.(halves := rx.halves[rx.filling := data], filling := 1 - rx.filling, pending := true)
    case Service =>
      if !rx.pending then rx
      else Drain(rx.(pending := false, dmaHalf := 1 - rx.dmaHalf), rx.dmaHalf)
    case ErrorIrq => rx
    case Take =>
      if rx.ring == [] then rx else rx.(ring := rx.ring[1..], taken := rx.taken + [rx.ring[0]])
  }

  function Run(rx: Rx, events: seq<Event>): (r: Rx)
    requires Shaped(rx)
    ensures Shaped(r)
    decreases |events|
  {
    if events == [] then rx else Step(Run(rx, events[..|events| - 1]), events[|events| - 1])
  }

  /** The halves that were kept, end to end. */
  function KeptBytes(log: seq<Filled>): seq<byte>
    decreases |log|
  {
    if log == [] then []
    else KeptBytes(log[..|log| - 1]) + (if log[|log| - 1].kept then log[|log| - 1].bytes else [])
  }

  /** Every half the hardware completed, in order, among those serviced or waiting. */
  function Completed(rx: Rx): seq<seq<byte>>
    requires Shaped(rx)
  {
    seq(|rx.log|, k requires 0 <= k < |rx.log| => rx.log[k].bytes) +
    (if rx.pending then [rx.halves[1 - rx.filling]] else [])
  }

  ghost predicate InSync(rx: Rx) {
    && Shaped(rx)
    && rx.dmaHalf == (if rx.pending then 1 - rx.filling else rx.filling)
    && (forall f | f in rx.log :: |f.bytes| == rx.half)
    && rx.taken + rx.ring == KeptBytes(rx.log)
  }

  lemma KeptOfSnoc(log: seq<Filled>, f: Filled)
    ensures KeptBytes(log + [f]) == KeptBytes(log) + (if f.kept then f.bytes else [])
  {
    assert (log + [f])[..|log|] == log;
  }

  lemma ServiceInSync(rx: Rx)
    requires InSync(rx) && rx.pending
    ensures InSync(Step(rx, Service))
  {
    var v := Step(rx, Service);
    KeptOfSnoc(rx.log, v.log[|rx.log|]);
    Assoc(rx.taken, rx.ring, rx.halves[rx.dmaHalf]);
    hide KeptBytes;
  }

  lemma StepInSync(rx: Rx, e: Event)
    requires InSync(rx)
    ensures InSync(Step(rx, e))
  {
    match e
    case BlockDone(data) =>
    case Service => if rx.pending { ServiceInSync(rx); }
    case ErrorIrq =>
    case Take =>
      if rx.ring != [] {
        assert rx.ring == [rx.ring[0]] + rx.ring[1..];
        Assoc(rx.taken, [rx.ring[0]], rx.ring[1..]);
      }
  }

  /** The halves the hardware completes while it is not waiting for the handler. */
  function Captured(rx: Rx, events: seq<Event>): seq<seq<byte>>
    requires Shaped(rx)
    decreases |events|
  {
    if events == [] then []
    else
      var prefix, e := events[..|events| - 1], events[|events| - 1];
      var now := Run(rx, prefix);
      Captured(rx, prefix) + (if e.BlockDone? && !now.pending && |e.data| == now.half then [e.data] else [])
  }

  lemma StepCompletes(rx: Rx, e: Event)
    requires InSync(rx)
    ensures Completed(Step(rx, e)) ==
      Completed(rx) + (if e.BlockDone? && !rx.pending && |e.data| == rx.half then [e.data] else [])
  {
    hide KeptBytes;
    match e
    case BlockDone(data) =>
    case Service => if rx.pending { assert Step(rx, Service).log == rx.log + [Step(rx, Service).log[|rx.log|]]; }
    case ErrorIrq =>
    case Take =>
  }

  /**
   Main result: in every run the handler drains exactly the halves the
   hardware completed, each of them once and in order; each is appended whole
   or dropped whole; and what was read plus the ring is exactly the kept ones.
   */
  lemma {:induction false} CapturesWholeHalves(rx: Rx, events: seq<Event>)
    requires InSync(rx)
    ensures InSync(Run(rx, events))
    ensures Completed(Run(rx, events)) == Completed(rx) + Captured(rx, events)
    decreases |events|
  {
    hide Completed, Step, KeptBytes;
    if events == [] {
      assert Completed(rx) + [] == Completed(rx);
    } else {
      var prefix, e := events[..|events| - 1], events[|events| - 1];
      CapturesWholeHalves(rx, prefix);
      StepInSync(Run(rx, prefix), e);
      StepCompletes(Run(rx, prefix), e);
    }
  }

  lemma {:induction false} KeptLength(log: seq<Filled>, half: nat)
    requires half % 8 == 0 && forall f | f in log :: |f.bytes| == half
    ensures |KeptBytes(log)| % 8 == 0
    decreases |log|
  {
    if log != [] {
      KeptLength(log[..|log| - 1], half);
    }
  }

  /**
   An overrun never breaks frame alignment: whatever was dropped, the bytes
   read and the bytes waiting are together a whole number of 8-byte frames,
   so a reader that takes whole frames always starts at a frame boundary.
   */
  lemma FramesStayAligned(rx: Rx, events: seq<Event>)
    requires InSync(rx) && rx.half % 8 == 0
    ensures var v := Run(rx, events); (|v.taken| + |v.ring|) % 8 == 0
  {
    CapturesWholeHalves(rx, events);
    HalfFixed(rx, events);
    var v := Run(rx, events);
    KeptLength(v.log, v.half);
    assert |KeptBytes(v.log)| == |v.taken + v.ring|;
  }

  lemma {:induction false} HalfFixed(rx: Rx, events: seq<Event>)
    requires Shaped(rx)
    ensures Run(rx, events).half == rx.half && Run(rx, events).cap == rx.cap
    decreases |events|
  {
    if events != [] { HalfFixed(rx, events[..|events| - 1]); }
  }

  /** A half is dropped if and only if the ring has less room than a half when it is serviced. */
  lemma DroppedIffNoRoom(rx: Rx)
    requires InSync(rx) && rx.pending
    ensures var v := Step(rx, Service);
      && |v.log| == |rx.log| + 1
      && v.log[|rx.log|].bytes == rx.halves[1 - rx.filling]
      && (!v.log[|rx.log|].kept <==> rx.cap - |rx.ring| < rx.half)
      && v.taken + v.ring == rx.taken + rx.ring + (if v.log[|rx.log|].kept then rx.halves[1 - rx.filling] else [])
  {
    Assoc(rx.taken, rx.ring, rx.halves[rx.dmaHalf]);
  }
}
