/**
 The I2C target's interrupt handler: several coalesced interrupt bits become
 an ordered sequence of calls into the protocol layer, and the level-triggered
 RX_FULL interrupt is masked until somebody reads the FIFO.
 */
module I2cTarget {
  import opened Prelude

  datatype Mode = Idle | Writing | Reading

  /** The calls the handler makes into the protocol layer. */
  datatype Hook =
    | AddrMatch(read: bool)
    | ReadRequest
    | WriteRequest
    | Finalise(late: bool)  // restart_or_stop; late if the STOP had been left pending

  /**
   One entry of the handler: the pending interrupt bits, whether the address
   comparator matched, how many bytes each read_bytes call made by the write
   hook asks for, and what arrives in the FIFO before the handler's last test.
   */
  datatype Word = Word(
    rxDone: bool, stopDet: bool, rxFull: bool, rdReq: bool,
    addrMatched: bool, hookReads: seq<nat>, late: seq<byte>)

  /**
   `mode` is the handler's own state and `dataMode` the protocol layer's.
   The counters record STOP conditions seen, STOPs that arrived while another
   one was still pending, handler entries for RX_FULL, and read_bytes calls.
   */
  datatype Target = Target(
    mode: Mode, dataMode: Mode, stopPending: bool, rxMasked: bool, fifo: seq<byte>,
    trace: seq<Hook>, stops: nat, merged: nat, rxEntries: nat, readCalls: nat)

  datatype Event =
    | BusByte(b: byte)     // the master writes a byte
    | Interrupt(word: Word)
    | ReadBytes(len: nat)  // readinto() outside the handler

  const INITIAL := Target(Idle, Idle, false, false, [], [], 0, 0, 0, 0)

  // ---------------------------------------------------------------------
  // The protocol layer's hooks
  // ---------------------------------------------------------------------

  function Match(t: Target, read: bool): Target {
    t.(trace := t.trace + [AddrMatch(read)])
  }

  function End(t: Target, late: bool): Target {
    t.(trace := t.trace + [Finalise(late)], dataMode := Idle)
  }

  /** mp_machine_i2c_target_read_bytes: takes bytes and unmasks RX_FULL. */
  function Read(t: Target, len: nat): Target {
    t.(fifo := t.fifo[Min(len, |t.fifo|)..], rxMasked := false, readCalls := t.readCalls + 1)
  }

  function ReadAll(t: Target, lens: seq<nat>): Target
    decreases |lens|
  {
    if lens == [] then t else Read(ReadAll(t, lens[..|lens| - 1]), lens[|lens| - 1])
  }

  /** A read request in a session that starts here if the handler was not reading. */
  function RequestRead(t: Target): Target {
    var m := if t.mode.Reading? then t else Match(t, true);
    m.(mode := Reading, dataMode := Reading, trace := m.trace + [ReadRequest])
  }

  /** A write request, RX_FULL masked; the hook may read the FIFO. */
  function RequestWrite(t: Target, lens: seq<nat>): Target {
    var m := if t.mode.Writing? then t else Match(t, false);
    ReadAll(m.(mode := Writing, dataMode := Writing, trace := m.trace + [WriteRequest],
               rxMasked := true, rxEntries := t.rxEntries + 1), lens)
  }

  function SeeStop(t: Target, matched: bool): Target {
    var s := t.(stops := t.stops + 1);
    if s.fifo != [] then s.(stopPending := true, merged := if s.stopPending then s.merged + 1 else s.merged)
    else End(if s.dataMode.Idle? && matched then Match(s, false) else s, false).(mode := Idle)
  }

  function LateStop(t: Target): Target {
    if t.stopPending && t.fifo == [] then End(t, true).(stopPending := false, mode := Idle) else t
  }

  /** RX_FULL is reported only while it is enabled and the FIFO holds something. */
  predicate Possible(t: Target, w: Word) {
    w.rxFull ==> !t.rxMasked && t.fifo != []
  }

  function OnRxDone(t: Target, w: Word): Target {
    if w.rxDone then RequestRead(t) else t
  }

  function OnStop(t: Target, w: Word): Target {
    if w.stopDet then SeeStop(t, w.addrMatched) else t
  }

  function OnRxFull(t: Target, w: Word): Target {
    if w.rxFull then RequestWrite(t, w.hookReads) else t
  }

  function OnRdReq(t: Target, w: Word): Target {
    if w.rdReq then RequestRead(t) else t
  }

  function OnExit(t: Target, w: Word): Target {
    LateStop(t.(fifo := t.fifo + w.late))
  }

  /** i2c_target_irq_handler: the bits in the order in which it looks at them. */
  function Handle(t: Target, w: Word): Target {
    OnExit(OnRdReq(OnRxFull(OnStop(OnRxDone(t, w), w), w), w), w)
  }

  function Step(t: Target, e: Event): Target {
    match e
    case BusByte(b) => t.(fifo := t.fifo + [b])
    case Interrupt(w) => if Possible(t, w) then Handle(t, w) else t
    case ReadBytes(len) => Read(t, len)
  }

  function Run(t: Target, events: seq<Event>): Target
    decreases |events|
  {
    if events == [] then t else Step(Run(t, events[..|events| - 1]), events[|events| - 1])
  }

  // ---------------------------------------------------------------------
  // What the protocol layer may rely on
  // ---------------------------------------------------------------------

  /** The session the trace is in: the direction of its latest match, unless finalised since. */
  function Session(trace: seq<Hook>): Mode
    decreases |trace|
  {
    if trace == [] then Idle
    else
      match trace[|trace| - 1]
      case AddrMatch(read) => if read then Reading else Writing
      case Finalise(_) => Idle
      case _ => Session(trace[..|trace| - 1])
  }

  /** A call that fits the session it is made in. */
  predicate Fits(session: Mode, h: Hook) {
    match h
    case AddrMatch(read) => session != (if read then Reading else Writing)
    case ReadRequest => session.Reading?
    case WriteRequest => session.Writing?
    case Finalise(_) => true
  }

  predicate WellFormed(trace: seq<Hook>)
    decreases |trace|
  {
    trace == [] || (WellFormed(trace[..|trace| - 1]) && Fits(Session(trace[..|trace| - 1]), trace[|trace| - 1]))
  }

  function Finals(trace: seq<Hook>): nat
    decreases |trace|
  {
    if trace == [] then 0 else Finals(trace[..|trace| - 1]) + (if trace[|trace| - 1].Finalise? then 1 else 0)
  }

  lemma Snoc(trace: seq<Hook>, h: Hook)
    ensures WellFormed(trace + [h]) <==> WellFormed(trace) && Fits(Session(trace), h)
    ensures Finals(trace + [h]) == Finals(trace) + (if h.Finalise? then 1 else 0)
    ensures Session(trace + [h]) ==
      match h
      case AddrMatch(read) => (if read then Reading else Writing)
      case Finalise(_) => Idle
      case _ => Session(trace)
  {
    assert (trace + [h])[..|trace|] == trace;
  }

  function One(b: bool): nat {
    if b then 1 else 0
  }

  ghost predicate Sound(t: Target) {
    && WellFormed(t.trace)
    && t.mode == t.dataMode == Session(t.trace)
    && Finals(t.trace) + One(t.stopPending) + t.merged == t.stops
    && t.rxEntries + One(!t.rxMasked) <= t.readCalls + 1
  }

  lemma RequestReadSound(t: Target)
    requires Sound(t)
    ensures Sound(RequestRead(t))
  {
    var m := if t.mode.Reading? then t else Match(t, true);
    Snoc(t.trace, AddrMatch(true));
    Snoc(m.trace, ReadRequest);
    hide WellFormed, Session, Finals;
  }

  lemma {:induction false} ReadAllSound(t: Target, lens: seq<nat>)
    requires Sound(t)
    ensures Sound(ReadAll(t, lens))
    decreases |lens|
  {
    if lens != [] {
      ReadAllSound(t, lens[..|lens| - 1]);
    }
  }

  lemma RequestWriteSound(t: Target, lens: seq<nat>)
    requires Sound(t) && !t.rxMasked
    ensures Sound(RequestWrite(t, lens))
  {
    var m := if t.mode.Writing? then t else Match(t, false);
    Snoc(t.trace, AddrMatch(false));
    Snoc(m.trace, WriteRequest);
    var w := m.(mode := Writing, dataMode := Writing, trace := m.trace + [WriteRequest],
                rxMasked := true, rxEntries := t.rxEntries + 1);
    assert Sound(w) by { hide WellFormed, Session, Finals; }
    ReadAllSound(w, lens);
  }

  lemma SeeStopSound(t: Target, matched: bool)
    requires Sound(t)
    ensures Sound(SeeStop(t, matched)) && SeeStop(t, matched).rxMasked == t.rxMasked
    ensures SeeStop(t, matched).fifo == t.fifo
  {
    Snoc(t.trace, AddrMatch(false));
    Snoc(t.trace, Finalise(false));
    Snoc(t.trace + [AddrMatch(false)], Finalise(false));
    hide WellFormed, Session, Finals;
  }

  lemma LateStopSound(t: Target)
    requires Sound(t)
    ensures Sound(LateStop(t))
  {
    Snoc(t.trace, Finalise(true));
    hide WellFormed, Session, Finals;
  }

  lemma OnRxDoneSound(t: Target, w: Word)
    requires Sound(t)
    ensures Sound(OnRxDone(t, w)) && OnRxDone(t, w).rxMasked == t.rxMasked
  {
    RequestReadSound(t);
  }

  lemma OnStopSound(t: Target, w: Word)
    requires Sound(t)
    ensures Sound(OnStop(t, w)) && OnStop(t, w).rxMasked == t.rxMasked
  {
    SeeStopSound(t, w.addrMatched);
  }

  lemma OnRxFullSound(t: Target, w: Word)
    requires Sound(t) && (w.rxFull ==> !t.rxMasked)
    ensures Sound(OnRxFull(t, w))
  {
    if w.rxFull { RequestWriteSound(t, w.hookReads); }
  }

  lemma OnRdReqSound(t: Target, w: Word)
    requires Sound(t)
    ensures Sound(OnRdReq(t, w))
  {
    RequestReadSound(t);
  }

  lemma OnExitSound(t: Target, w: Word)
    requires Sound(t)
    ensures Sound(OnExit(t, w))
  {
    hide WellFormed, Session, Finals;
    LateStopSound(t.(fifo := t.fifo + w.late));
  }

  lemma HandleSound(t: Target, w: Word)
    requires Sound(t) && Possible(t, w)
    ensures Sound(Handle(t, w))
  {
    hide Sound, OnRxDone, OnStop, OnRxFull, OnRdReq, OnExit;
    var t1 := OnRxDone(t, w);
    OnRxDoneSound(t, w);
    var t2 := OnStop(t1, w);
    OnStopSound(t1, w);
    var t3 := OnRxFull(t2, w);
    OnRxFullSound(t2, w);
    var t4 := OnRdReq(t3, w);
    OnRdReqSound(t3, w);
    OnExitSound(t4, w);
  }

  lemma StepSound(t: Target, e: Event)
    requires Sound(t)
    ensures Sound(Step(t, e))
  {
    if e.Interrupt? && Possible(t, e.word) { HandleSound(t, e.word); }
    hide Handle, WellFormed, Session, Finals;
  }

  lemma {:induction false} RunSound(t: Target, events: seq<Event>)
    requires Sound(t)
    ensures Sound(Run(t, events))
    decreases |events|
  {
    if events != [] {
      RunSound(t, events[..|events| - 1]);
      StepSound(Run(t, events[..|events| - 1]), events[|events| - 1]);
    }
  }

  /** What a request at position k of the trace of any run means for the calls before it. */
  lemma {:induction false} RequestsInSession(trace: seq<Hook>, k: nat)
    requires WellFormed(trace) && k < |trace|
    ensures Fits(Session(trace[..k]), trace[k])
    decreases |trace|
  {
    if k < |trace| - 1 {
      RequestsInSession(trace[..|trace| - 1], k);
      assert trace[..|trace| - 1][..k] == trace[..k];
    }
  }

  // ---------------------------------------------------------------------
  // Every match is answered, every bit reported
  // ---------------------------------------------------------------------

  /**
   Match k is followed at once by a request of its direction; or it is a write
   match made while no session was open, for a probe, and is finalised at once.
   */
  predicate AnsweredAt(trace: seq<Hook>, k: nat)
    requires k < |trace|
  {
    trace[k].AddrMatch? ==>
      && k + 1 < |trace|
      && (trace[k + 1] == (if trace[k].read then ReadRequest else WriteRequest)
          || (!trace[k].read && trace[k + 1] == Finalise(false) && Session(trace[..k]).Idle?))
  }

  predicate Answered(trace: seq<Hook>) {
    forall k | 0 <= k < |trace| :: AnsweredAt(trace, k)
  }

  /** A call that is no match adds nothing to be answered. */
  lemma AnsweredOne(trace: seq<Hook>, h: Hook)
    requires Answered(trace) && !h.AddrMatch?
    ensures Answered(trace + [h])
  {
    hide Session;
    forall k | 0 <= k < |trace + [h]| ensures AnsweredAt(trace + [h], k) {
      if k < |trace| {
        assert AnsweredAt(trace, k);
        assert (trace + [h])[..k] == trace[..k];
      }
    }
  }

  lemma AnsweredTwo(trace: seq<Hook>, read: bool, h: Hook)
    requires Answered(trace)
    requires h == (if read then ReadRequest else WriteRequest)
          || (!read && h == Finalise(false) && Session(trace).Idle?)
    ensures Answered(trace + [AddrMatch(read)] + [h])
  {
    hide Session;
    var longer := trace + [AddrMatch(read)] + [h];
    forall k | 0 <= k < |longer| ensures AnsweredAt(longer, k) {
      if k < |trace| {
        assert AnsweredAt(trace, k);
        assert longer[..k] == trace[..k];
      } else {
        assert longer[..|trace|] == trace;
      }
    }
  }

  function Count(trace: seq<Hook>, h: Hook): nat
    decreases |trace|
  {
    if trace == [] then 0 else Count(trace[..|trace| - 1], h) + One(trace[|trace| - 1] == h)
  }

  lemma CountSnoc(trace: seq<Hook>, last: Hook)
    ensures forall h :: Count(trace + [last], h) == Count(trace, h) + One(last == h)
  {
    assert (trace + [last])[..|trace|] == trace;
  }

  /** What a branch adds to the trace: `readReqs` and `writeReqs` requests, each match answered. */
  predicate Reports(t: Target, v: Target, readReqs: nat, writeReqs: nat) {
    && (Answered(t.trace) ==> Answered(v.trace))
    && Count(v.trace, ReadRequest) == Count(t.trace, ReadRequest) + readReqs
    && Count(v.trace, WriteRequest) == Count(t.trace, WriteRequest) + writeReqs
  }

  lemma RequestReadReports(t: Target)
    ensures Reports(t, RequestRead(t), 1, 0)
  {
    hide Session, Answered, Count;
    var m := if t.mode.Reading? then t else Match(t, true);
    CountSnoc(t.trace, AddrMatch(true));
    CountSnoc(m.trace, ReadRequest);
    if Answered(t.trace) {
      AnsweredOne(t.trace, ReadRequest);
      AnsweredTwo(t.trace, true, ReadRequest);
    }
  }

  lemma RequestWriteReports(t: Target, lens: seq<nat>)
    ensures Reports(t, RequestWrite(t, lens), 0, 1)
  {
    hide Session, Answered, Count, ReadAll;
    var m := if t.mode.Writing? then t else Match(t, false);
    CountSnoc(t.trace, AddrMatch(false));
    CountSnoc(m.trace, WriteRequest);
    ReadAllKeeps(m.(mode := Writing, dataMode := Writing, trace := m.trace + [WriteRequest],
                    rxMasked := true, rxEntries := t.rxEntries + 1), lens);
    if Answered(t.trace) {
      AnsweredOne(t.trace, WriteRequest);
      AnsweredTwo(t.trace, false, WriteRequest);
    }
  }

  lemma SeeStopReports(t: Target, matched: bool)
    requires Sound(t)
    ensures Reports(t, SeeStop(t, matched), 0, 0)
  {
    hide Session, Answered, Count, WellFormed, Finals;
    var m := t.trace + [AddrMatch(false)];
    CountSnoc(t.trace, Finalise(false));
    CountSnoc(t.trace, AddrMatch(false));
    CountSnoc(m, Finalise(false));
    if Answered(t.trace) {
      AnsweredOne(t.trace, Finalise(false));
      if t.dataMode.Idle? { AnsweredTwo(t.trace, false, Finalise(false)); }
    }
  }

  lemma LateStopReports(t: Target)
    ensures Reports(t, LateStop(t), 0, 0)
  {
    hide Session, Answered, Count;
    CountSnoc(t.trace, Finalise(true));
    if Answered(t.trace) { AnsweredOne(t.trace, Finalise(true)); }
  }

  /** One word is reported bit by bit: a request for each of RX_DONE, RD_REQ and RX_FULL. */
  lemma HandleReports(t: Target, w: Word)
    requires Sound(t) && Possible(t, w)
    ensures Reports(t, Handle(t, w), One(w.rxDone) + One(w.rdReq), One(w.rxFull))
  {
    hide Sound, RequestRead, SeeStop, RequestWrite, LateStop, Answered, Count;
    var t1 := OnRxDone(t, w);
    OnRxDoneSound(t, w);
    RequestReadReports(t);
    var t2 := OnStop(t1, w);
    SeeStopReports(t1, w.addrMatched);
    var t3 := OnRxFull(t2, w);
    RequestWriteReports(t2, w.hookReads);
    var t4 := OnRdReq(t3, w);
    RequestReadReports(t3);
    LateStopReports(t4.(fifo := t4.fifo + w.late));
  }

  /** The RX_DONE and RD_REQ bits of a run. */
  function ReadBits(t: Target, events: seq<Event>): nat
    decreases |events|
  {
    if events == [] then 0
    else
      var front, e := events[..|events| - 1], events[|events| - 1];
      ReadBits(t, front) +
      (if e.Interrupt? && Possible(Run(t, front), e.word) then One(e.word.rxDone) + One(e.word.rdReq) else 0)
  }

  /** Its RX_FULL bits. */
  function WriteBits(t: Target, events: seq<Event>): nat
    decreases |events|
  {
    if events == [] then 0
    else
      var front, e := events[..|events| - 1], events[|events| - 1];
      WriteBits(t, front) + (if e.Interrupt? && Possible(Run(t, front), e.word) then One(e.word.rxFull) else 0)
  }

  /**
   In every run each RX_DONE and RD_REQ bit is one read request and each
   RX_FULL bit one write request; and every address match is followed at once
   by a request of its direction, except the match of a probe, which is made
   while no session is open and finalised at once.
   */
  lemma {:induction false} EveryBitReported(t: Target, events: seq<Event>)
    requires Sound(t)
    ensures Reports(t, Run(t, events), ReadBits(t, events), WriteBits(t, events))
    decreases |events|
  {
    hide Sound, Answered, Count, Handle;
    if events != [] {
      var front, e := events[..|events| - 1], events[|events| - 1];
      EveryBitReported(t, front);
      RunSound(t, front);
      if e.Interrupt? && Possible(Run(t, front), e.word) {
        HandleReports(Run(t, front), e.word);
      }
    }
  }

  /**
   The STOP of an open session whose FIFO is empty ends it and does nothing
   else, whatever the address comparator says.
   */
  lemma StopEndsSession(t: Target, matched: bool)
    requires Sound(t) && !t.mode.Idle? && t.fifo == []
    ensures var v := SeeStop(t, matched);
      v.trace == t.trace + [Finalise(false)] && v.mode.Idle? && v.stopPending == t.stopPending
  {
    hide WellFormed, Session, Finals;
  }

  // ---------------------------------------------------------------------
  // Which session a late finalisation closes
  // ---------------------------------------------------------------------

  /** A STOP is waiting when the handler makes its last test. */
  predicate Waiting(t: Target, w: Word) {
    t.stopPending || (w.stopDet && t.fifo != [])
  }

  function Sum(lens: seq<nat>): nat
    decreases |lens|
  {
    if lens == [] then 0 else Sum(lens[..|lens| - 1]) + lens[|lens| - 1]
  }

  /** What is in the FIFO at the handler's last test. */
  function Left(t: Target, w: Word): seq<byte> {
    t.fifo[(if w.rxFull then Min(Sum(w.hookReads), |t.fifo|) else 0)..] + w.late
  }

  /** The session the word's requests and its STOP leave, before the last test. */
  function LastSession(t: Target, w: Word): Mode {
    if w.rdReq then Reading
    else if w.rxFull then Writing
    else if w.stopDet && t.fifo == [] then Idle
    else if w.rxDone then Reading
    else t.mode
  }

  lemma {:induction false} ReadAllKeeps(t: Target, lens: seq<nat>)
    ensures var v := ReadAll(t, lens);
      v.stopPending == t.stopPending && v.mode == t.mode && v.dataMode == t.dataMode && v.trace == t.trace
    decreases |lens|
  {
    if lens != [] {
      ReadAllKeeps(t, lens[..|lens| - 1]);
    }
  }

  lemma DropDrop(s: seq<byte>, n: nat, m: nat)
    ensures var rest := s[Min(n, |s|)..]; rest[Min(m, |rest|)..] == s[Min(n + m, |s|)..]
  {
  }

  lemma {:induction false} ReadAllTakes(t: Target, lens: seq<nat>)
    ensures ReadAll(t, lens).fifo == t.fifo[Min(Sum(lens), |t.fifo|)..]
    decreases |lens|
  {
    if lens != [] {
      ReadAllTakes(t, lens[..|lens| - 1]);
      DropDrop(t.fifo, Sum(lens[..|lens| - 1]), lens[|lens| - 1]);
    }
  }

  function BeforeExit(t: Target, w: Word): Target {
    OnRdReq(OnRxFull(OnStop(OnRxDone(t, w), w), w), w)
  }

  lemma RequestWriteIs(t: Target, lens: seq<nat>)
    ensures var v := RequestWrite(t, lens);
      && v.mode.Writing? && v.stopPending == t.stopPending
      && v.fifo == t.fifo[Min(Sum(lens), |t.fifo|)..]
  {
    var m := if t.mode.Writing? then t else Match(t, false);
    var w := m.(mode := Writing, dataMode := Writing, trace := m.trace + [WriteRequest],
                rxMasked := true, rxEntries := t.rxEntries + 1);
    ReadAllTakes(w, lens);
    ReadAllKeeps(w, lens);
    hide ReadAll, Sum;
  }

  lemma BeforeRxFull(t: Target, w: Word)
    ensures var s := OnStop(OnRxDone(t, w), w);
      && s.fifo == t.fifo && s.stopPending == Waiting(t, w)
      && s.mode == if w.stopDet && t.fifo == [] then Idle else if w.rxDone then Reading else t.mode
  {
  }

  lemma BeforeExitIs(t: Target, w: Word)
    ensures var v := BeforeExit(t, w);
      v.mode == LastSession(t, w) && v.stopPending == Waiting(t, w) && v.fifo + w.late == Left(t, w)
  {
    hide RequestWrite, OnStop, OnRxDone, Waiting, Sum;
    BeforeRxFull(t, w);
    RequestWriteIs(OnStop(OnRxDone(t, w), w), w.hookReads);
  }

  /**
   For every word: the session that its requests and its STOP leave open is
   still open when the handler returns if and only if no STOP is waiting, or
   the FIFO is not empty at the end.
   */
  lemma SessionSurvivesIff(t: Target, w: Word)
    requires Sound(t) && Possible(t, w) && !LastSession(t, w).Idle?
    ensures Handle(t, w).mode == LastSession(t, w) <==> !(Waiting(t, w) && Left(t, w) == [])
    ensures Handle(t, w).mode != LastSession(t, w) ==> Handle(t, w).mode.Idle?
  {
    hide Sound, OnRdReq, OnRxFull, OnStop, OnRxDone, LastSession, Left;
    BeforeExitIs(t, w);
  }

  /** Every late finalisation closes a write, which is what a STOP is left pending for. */
  predicate Tidy(trace: seq<Hook>)
    decreases |trace|
  {
    trace == [] ||
    var front, last := trace[..|trace| - 1], trace[|trace| - 1];
    Tidy(front) && (last == Finalise(true) ==> Session(front).Writing?)
  }

  /** The late finalisation of this word closes a read, or nothing. */
  predicate Strays(t: Target, w: Word) {
    Waiting(t, w) && Left(t, w) == [] && !LastSession(t, w).Writing?
  }

  lemma TidySnoc(trace: seq<Hook>, h: Hook)
    ensures Tidy(trace + [h]) <==> Tidy(trace) && (h == Finalise(true) ==> Session(trace).Writing?)
  {
    assert (trace + [h])[..|trace|] == trace;
  }

  lemma RequestReadTidy(t: Target)
    ensures Tidy(RequestRead(t).trace) <==> Tidy(t.trace)
  {
    var m := if t.mode.Reading? then t else Match(t, true);
    TidySnoc(t.trace, AddrMatch(true));
    TidySnoc(m.trace, ReadRequest);
    hide Tidy;
  }

  lemma RequestWriteTidy(t: Target, lens: seq<nat>)
    ensures Tidy(RequestWrite(t, lens).trace) <==> Tidy(t.trace)
  {
    var m := if t.mode.Writing? then t else Match(t, false);
    TidySnoc(t.trace, AddrMatch(false));
    TidySnoc(m.trace, WriteRequest);
    ReadAllKeeps(m.(mode := Writing, dataMode := Writing, trace := m.trace + [WriteRequest],
                    rxMasked := true, rxEntries := t.rxEntries + 1), lens);
    hide Tidy, ReadAll;
  }

  lemma SeeStopTidy(t: Target, matched: bool)
    ensures Tidy(SeeStop(t, matched).trace) <==> Tidy(t.trace)
  {
    TidySnoc(t.trace, Finalise(false));
    TidySnoc(t.trace, AddrMatch(false));
    TidySnoc(t.trace + [AddrMatch(false)], Finalise(false));
    hide Tidy;
  }

  lemma BeforeExitTidy(t: Target, w: Word)
    ensures Tidy(BeforeExit(t, w).trace) <==> Tidy(t.trace)
  {
    hide Tidy, RequestRead, RequestWrite, SeeStop;
    RequestReadTidy(t);
    var t1 := OnRxDone(t, w);
    SeeStopTidy(t1, w.addrMatched);
    var t2 := OnStop(t1, w);
    RequestWriteTidy(t2, w.hookReads);
    var t3 := OnRxFull(t2, w);
    RequestReadTidy(t3);
  }

  lemma BeforeExitSound(t: Target, w: Word)
    requires Sound(t) && Possible(t, w)
    ensures Sound(BeforeExit(t, w))
  {
    hide Sound, OnRxDone, OnStop, OnRxFull, OnRdReq;
    var t1 := OnRxDone(t, w);
    OnRxDoneSound(t, w);
    var t2 := OnStop(t1, w);
    OnStopSound(t1, w);
    var t3 := OnRxFull(t2, w);
    OnRxFullSound(t2, w);
    OnRdReqSound(t3, w);
  }

  /** One word leaves the trace tidy if and only if it was tidy and the word does not stray. */
  lemma HandleTidyIff(t: Target, w: Word)
    requires Sound(t) && Possible(t, w)
    ensures Tidy(Handle(t, w).trace) <==> Tidy(t.trace) && !Strays(t, w)
  {
    hide Tidy, OnRdReq, OnRxFull, OnStop, OnRxDone, LastSession, Left, WellFormed, Session, Finals;
    var v := BeforeExit(t, w);
    BeforeExitIs(t, w);
    BeforeExitTidy(t, w);
    BeforeExitSound(t, w);
    TidySnoc(v.trace, Finalise(true));
  }

  /** No word of the run strays. */
  ghost predicate NoneStray(t: Target, events: seq<Event>)
    decreases |events|
  {
    events == [] ||
    var front, e := events[..|events| - 1], events[|events| - 1];
    NoneStray(t, front) && (e.Interrupt? && Possible(Run(t, front), e.word) ==> !Strays(Run(t, front), e.word))
  }

  /**
   Main result: for any sequence of coalesced interrupt words, bus bytes and
   reads, every request reaches the protocol layer inside a session whose
   latest address match has its direction, there is one match per change of
   direction, every STOP is finalised, pending or merged with a pending one,
   and RX_FULL enters the handler at most once more than the FIFO is read.
   Late finalisations all close a write if and only if no word of the run strays.
   */
  lemma {:induction false} HooksFollowProtocol(t: Target, events: seq<Event>)
    requires Sound(t)
    ensures Sound(Run(t, events))
    ensures Tidy(Run(t, events).trace) <==> Tidy(t.trace) && NoneStray(t, events)
    decreases |events|
  {
    hide Tidy, Strays, Sound, Handle;
    RunSound(t, events);
    if events != [] {
      var front, e := events[..|events| - 1], events[|events| - 1];
      HooksFollowProtocol(t, front);
      if e.Interrupt? && Possible(Run(t, front), e.word) {
        HandleTidyIff(Run(t, front), e.word);
      }
    }
  }

  // ---------------------------------------------------------------------
  // Whole transactions
  // ---------------------------------------------------------------------

  const NONE := Word(false, false, false, false, false, [], [])

  /** RX_DONE before STOP_DET: a one-byte read is one session with two requests. */
  lemma OneByteRead(t: Target, matched: bool)
    requires Sound(t) && t.mode.Idle? && t.fifo == [] && !t.stopPending
    ensures var v := Handle(Handle(t, NONE.(rdReq := true)),
                            NONE.(rxDone := true, stopDet := true, addrMatched := matched));
      && v.trace == t.trace + [AddrMatch(true), ReadRequest, ReadRequest, Finalise(false)]
      && v.mode.Idle?
  {
    var r := Handle(t, NONE.(rdReq := true));
    assert r.trace == t.trace + [AddrMatch(true), ReadRequest];
    assert t.trace + [AddrMatch(true), ReadRequest] + [ReadRequest] + [Finalise(false)]
        == t.trace + [AddrMatch(true), ReadRequest, ReadRequest, Finalise(false)];
  }

  /** An address-only probe is reported if and only if the address was ours. */
  lemma ProbeReportedIffMatched(t: Target, matched: bool)
    requires Sound(t) && t.mode.Idle? && t.fifo == [] && !t.stopPending
    ensures var v := Handle(t, NONE.(stopDet := true, addrMatched := matched));
      v.trace == t.trace + (if matched then [AddrMatch(false), Finalise(false)] else [Finalise(false)])
  {
    assert t.trace + [AddrMatch(false)] + [Finalise(false)] == t.trace + [AddrMatch(false), Finalise(false)];
  }

  /** The STOP of one transfer and the request that starts the next arrive in one word. */
  lemma StopBeforeNextRead(t: Target, matched: bool)
    requires Sound(t) && t.mode.Writing? && t.fifo == [] && !t.stopPending
    ensures var v := Handle(t, NONE.(stopDet := true, rdReq := true, addrMatched := matched));
      v.trace == t.trace + [Finalise(false), AddrMatch(true), ReadRequest] && v.mode.Reading?
  {
    assert t.trace + [Finalise(false)] + [AddrMatch(true)] + [ReadRequest]
        == t.trace + [Finalise(false), AddrMatch(true), ReadRequest];
  }

  /**
   A consequence of deferring the read: when the FIFO is emptied outside the
   handler, the pending STOP of the write is finalised only at the next
   interrupt, and then closes the read that this interrupt has just opened.
   */
  lemma PendingStopClosesNextSession(t: Target)
    requires Sound(t) && t.mode.Writing? && t.stopPending && t.fifo == []
    ensures var v := Handle(t, NONE.(rdReq := true));
      v.trace == t.trace + [AddrMatch(true), ReadRequest, Finalise(true)] && v.mode.Idle? && !v.stopPending
  {
    assert t.trace + [AddrMatch(true)] + [ReadRequest] + [Finalise(true)]
        == t.trace + [AddrMatch(true), ReadRequest, Finalise(true)];
  }

  function Written(n: nat): seq<Hook> {
    seq(n, _ => WriteRequest)
  }

  /** The bus events and interrupts of a write whose hook reads each byte as it comes. */
  function WriteOf(t: Target, data: seq<byte>): Target
    decreases |data|
  {
    if data == [] then t
    else
      var before := WriteOf(t, data[..|data| - 1]);
      Step(Step(before, BusByte(data[|data| - 1])), Interrupt(NONE.(rxFull := true, hookReads := [1])))
  }

  lemma OneByteWritten(t: Target, b: byte)
    requires t.fifo == [] && !t.rxMasked && !t.stopPending
    ensures var v := Step(Step(t, BusByte(b)), Interrupt(NONE.(rxFull := true, hookReads := [1])));
      && v.fifo == [] && !v.rxMasked && !v.stopPending && v.mode.Writing? && v.dataMode.Writing?
      && v.trace == t.trace + (if t.mode.Writing? then [] else [AddrMatch(false)]) + [WriteRequest]
  {
    var w := NONE.(rxFull := true, hookReads := [1]);
    var full := Step(t, BusByte(b));
    assert [1][..0] == [];
    assert full.fifo == [b] && full.fifo[1..] == [];
    assert Possible(full, w);
  }

  /** A write of n bytes is one match, n requests and, at the STOP, one finalisation. */
  lemma {:induction false} WriteTransaction(t: Target, data: seq<byte>)
    requires t.mode.Idle? && t.fifo == [] && !t.rxMasked && !t.stopPending && data != []
    ensures var v := WriteOf(t, data);
      && v.fifo == [] && !v.rxMasked && !v.stopPending && v.mode.Writing? && v.dataMode.Writing?
      && v.trace == t.trace + [AddrMatch(false)] + Written(|data|)
      && forall matched ::
           Handle(v, NONE.(stopDet := true, addrMatched := matched)).trace == v.trace + [Finalise(false)]
    decreases |data|
  {
    var prefix := data[..|data| - 1];
    if prefix == [] {
      OneByteWritten(t, data[0]);
      assert Written(1) == [WriteRequest];
    } else {
      WriteTransaction(t, prefix);
      OneByteWritten(WriteOf(t, prefix), data[|data| - 1]);
      assert Written(|prefix|) + [WriteRequest] == Written(|data|);
      Assoc(t.trace + [AddrMatch(false)], Written(|prefix|), [WriteRequest]);
    }
  }
}
