/**
 The USB serial transmit handshake: several callers share one mutex and one
 binary completion semaphore, and the hardware completes transfers on its own
 time, possibly long after the caller that started one has given up on it.
 */
module UsbTransmit {
  import opened Prelude

  /** What usbd_cdc_acm_transmit returned. */
  datatype Hal = HalOk | HalBusy | HalError

  /**
   Where a caller is inside usbserial_transmit_blocking.  `older` is the
   transfer that was in flight when the drain loop, or the wait after
   HAL_BUSY, ended; `stale` says that the semaphore was already given when
   transfer `id` was accepted.
   */
  datatype Pc =
    | Out
    | Locking
    | Draining
    | Issuing(older: Option<nat>)
    | BusyWaiting(older: Option<nat>)
    | Reissuing(older: Option<nat>)
    | Awaiting(id: nat, stale: bool)
    | Unlocking(ok: bool, own: Option<nat>, stale: bool)

  /** `completed` holds the transfers the hardware has finished; ids count up from 0. */
  datatype Usb = Usb(
    owner: Option<nat>, sema: bool, inFlight: Option<nat>,
    next: nat, completed: set<nat>, pcs: seq<Pc>)

  datatype Event =
    | Enter(c: nat)
    | Lock(c: nat)                // rtos_mutex_take succeeds
    | LockTimeout(c: nat)
    | DrainTake(c: nat)           // one non-blocking take of the drain loop
    | Transmit(c: nat, ret: Hal)  // either call of usbd_cdc_acm_transmit
    | WaitTake(c: nat)            // the blocking take at hand obtains the token
    | WaitTimeout(c: nat)
    | Unlock(c: nat)
    | Complete                    // the hardware finishes the transfer in flight

  function Idle(callers: nat): Usb {
    Usb(None, false, None, 0, {}, seq(callers, _ => Out))
  }

  /** The hardware accepts a transfer. */
  function Accept(u: Usb, c: nat): Usb
    requires c < |u.pcs|
  {
    u.(inFlight := Some(u.next), next := u.next + 1, pcs := u.pcs[c := Awaiting(u.next, u.sema)])
  }

  /** An event whose caller is somewhere else, or that cannot happen now, changes nothing. */
  function Step(u: Usb, e: Event): Usb {
    match e
    case Complete =>
      if u.inFlight.None? then u
      else u.(inFlight := None, completed := u.completed + {u.inFlight.value}, sema := true)
    case _ =>
      if |u.pcs| <= e.c then u else CallerStep(u, e, u.pcs[e.c])
  }

  function CallerStep(u: Usb, e: Event, pc: Pc): Usb
    requires !e.Complete? && e.c < |u.pcs| && u.pcs[e.c] == pc
  {
    match e
    case Enter(c) =>
      if pc.Out? then u.(pcs := u.pcs[c := Locking]) else u
    case Lock(c) =>
      if pc.Locking? && u.owner.None? then u.(owner := Some(c), pcs := u.pcs[c := Draining]) else u
    case LockTimeout(c) =>
      if pc.Locking? then u.(pcs := u.pcs[c := Out]) else u
    case DrainTake(c) =>
      if !pc.Draining? then u
      else if u.sema then u.(sema := false)
      else u.(pcs := u.pcs[c := Issuing(u.inFlight)])
    case Transmit(c, ret) =>
      if !pc.Issuing? && !pc.Reissuing? then u
      else if ret.HalOk? then (if u.inFlight.None? then Accept(u, c) else u)
      else if pc.Issuing? && ret.HalBusy? then u.(pcs := u.pcs[c := BusyWaiting(pc.older)])
      else u.(pcs := u.pcs[c := Unlocking(false, None, false)])
    case WaitTake(c) =>
      if !u.sema then u
      else if pc.BusyWaiting? then u.(sema := false, pcs := u.pcs[c := Reissuing(u.inFlight)])
      else if pc.Awaiting? then u.(sema := false, pcs := u.pcs[c := Unlocking(true, Some(pc.id), pc.stale)])
      else u
    case WaitTimeout(c) =>
      if u.sema then u
      else if pc.BusyWaiting? then u.(pcs := u.pcs[c := Reissuing(u.inFlight)])
      else if pc.Awaiting? then u.(pcs := u.pcs[c := Unlocking(false, Some(pc.id), pc.stale)])
      else u
    case Unlock(c) =>
      if pc.Unlocking? then u.(owner := None, pcs := u.pcs[c := Out]) else u
  }

  function Run(u: Usb, events: seq<Event>): Usb
    decreases |events|
  {
    if events == [] then u else Step(Run(u, events[..|events| - 1]), events[|events| - 1])
  }

  lemma RunSnoc(u: Usb, events: seq<Event>, e: Event)
    ensures Run(u, events + [e]) == Step(Run(u, events), e)
  {
    assert (events + [e])[..|events|] == events;
  }

  // ---------------------------------------------------------------------
  // Invariants
  // ---------------------------------------------------------------------

  /** Holding the mutex. */
  predicate Inside(pc: Pc) {
    !pc.Out? && !pc.Locking?
  }

  /**
   The older transfer is still in flight and has left no token, or it has
   completed since and its token is on the semaphore.
   */
  predicate TokenMatches(u: Usb, older: Option<nat>) {
    if older.None? then u.inFlight.None? && !u.sema
    else if u.sema then u.inFlight.None? && older.value in u.completed
    else u.inFlight == older
  }

  predicate PcOk(u: Usb, pc: Pc) {
    match pc
    case Issuing(older) => TokenMatches(u, older)
    case BusyWaiting(older) => TokenMatches(u, older)
    case Reissuing(older) => TokenMatches(u, older)
    case Awaiting(id, stale) =>
      && (u.inFlight == Some(id) || (u.inFlight.None? && id in u.completed))
      && (!stale ==> (u.sema <==> id in u.completed))
    case Unlocking(ok, own, stale) => ok ==> own.Some? && (!stale ==> own.value in u.completed)
    case _ => true
  }

  ghost predicate Safe(u: Usb) {
    && (u.owner.Some? ==> u.owner.value < |u.pcs| && Inside(u.pcs[u.owner.value]) && PcOk(u, u.pcs[u.owner.value]))
    && (forall c | 0 <= c < |u.pcs| && Inside(u.pcs[c]) :: u.owner == Some(c))
    && (u.inFlight.Some? ==> u.inFlight.value < u.next && u.inFlight.value !in u.completed)
    && (forall id | id in u.completed :: id < u.next)
  }

  lemma StepSafe(u: Usb, e: Event)
    requires Safe(u)
    ensures Safe(Step(u, e))
  {
    if !e.Complete? && e.c < |u.pcs| {
      CallerStepSafe(u, e);
    }
  }

  /** A caller's statement moves that caller only, and completes no transfer. */
  lemma CallerStepFrame(u: Usb, e: Event)
    requires !e.Complete? && e.c < |u.pcs|
    ensures var v := CallerStep(u, e, u.pcs[e.c]);
      && |v.pcs| == |u.pcs| && v.completed == u.completed
      && forall c | 0 <= c < |u.pcs| && c != e.c :: v.pcs[c] == u.pcs[c]
  {
  }

  /** What a caller's statement does to the mutex and to what may be relied on. */
  lemma CallerStepCore(u: Usb, e: Event)
    requires Safe(u) && !e.Complete? && e.c < |u.pcs|
    ensures var v := CallerStep(u, e, u.pcs[e.c]);
      && |v.pcs| == |u.pcs|
      && (v.owner == u.owner || v.owner == Some(e.c) || (v.owner.None? && u.owner == Some(e.c)))
      && (Inside(v.pcs[e.c]) <==> v.owner == Some(e.c))
      && (Inside(v.pcs[e.c]) ==> PcOk(v, v.pcs[e.c]))
      && (u.owner != Some(e.c) ==> v.sema == u.sema && v.inFlight == u.inFlight)
      && (v.inFlight == u.inFlight || (v.inFlight == Some(u.next) && v.next == u.next + 1))
      && u.next <= v.next
  {
  }

  lemma CallerStepSafe(u: Usb, e: Event)
    requires Safe(u) && !e.Complete? && e.c < |u.pcs|
    ensures Safe(CallerStep(u, e, u.pcs[e.c]))
  {
    CallerStepFrame(u, e);
    CallerStepCore(u, e);
    hide CallerStep;
  }

  /**
   Main result, first half: over all interleavings of any callers, timeouts
   and late completions, at most one caller is past the mutex, and a caller
   that is about to return true had its own transfer completed, unless the
   semaphore was already given when that transfer was accepted.  (That the
   endpoint works on one transfer at a time is how it is modelled.)
   */
  lemma {:induction false} HandshakeSafe(u: Usb, events: seq<Event>)
    requires Safe(u)
    ensures var v := Run(u, events);
      && Safe(v)
      && (forall c, d | 0 <= c < d < |v.pcs| :: !Inside(v.pcs[c]) || !Inside(v.pcs[d]))
      && forall c | 0 <= c < |v.pcs| && v.pcs[c].Unlocking? && v.pcs[c].ok && !v.pcs[c].stale ::
           v.pcs[c].own.Some? && v.pcs[c].own.value in v.completed
    decreases |events|
  {
    if events != [] {
      HandshakeSafe(u, events[..|events| - 1]);
      StepSafe(Run(u, events[..|events| - 1]), events[|events| - 1]);
    }
  }

  /**
   The semaphore is already given when a transfer is accepted if and only if
   an older transfer was in flight when the drain loop, or the timed-out wait
   after HAL_BUSY, ended; and then that transfer has completed in between.
   */
  lemma StaleIffOlderCompleted(u: Usb, c: nat)
    requires Safe(u) && c < |u.pcs| && (u.pcs[c].Issuing? || u.pcs[c].Reissuing?) && u.inFlight.None?
    ensures var older, v := u.pcs[c].older, Step(u, Transmit(c, HalOk));
      && v.pcs[c].Awaiting?
      && (v.pcs[c].stale <==> older.Some?)
      && (older.Some? ==> older.value in u.completed)
  {
  }

  /**
   The end of the wait: the token ends it with true and the timeout with
   false, and while no stale token is about, the token is there if and only if
   the caller's own transfer has completed.  So a call neither succeeds for
   somebody else's transfer nor fails although its own has completed.
   */
  lemma OwnTokenDecides(u: Usb, c: nat)
    requires Safe(u) && c < |u.pcs| && u.pcs[c].Awaiting? && !u.pcs[c].stale
    ensures var id, taken, timedOut := u.pcs[c].id, Step(u, WaitTake(c)), Step(u, WaitTimeout(c));
      if id in u.completed then taken.pcs[c] == Unlocking(true, Some(id), false) && timedOut == u
      else timedOut.pcs[c] == Unlocking(false, Some(id), false) && taken == u
  {
  }

  /** A first HAL_BUSY is waited out, with a token or without, and the retry decides. */
  lemma BusyIsRetried(u: Usb, c: nat, retry: Hal)
    requires c < |u.pcs| && u.pcs[c].Issuing?
    ensures var waited := Step(u, Transmit(c, HalBusy));
      var v := Step(waited, if u.sema then WaitTake(c) else WaitTimeout(c));
      var w := Step(v, Transmit(c, retry));
      && v.pcs[c] == Reissuing(u.inFlight) && !v.sema
      && (retry.HalOk? && u.inFlight.None? ==> w.pcs[c] == Awaiting(u.next, false) && w.inFlight == Some(u.next))
      && (!retry.HalOk? ==> w.pcs[c] == Unlocking(false, None, false))
  {
  }

  /** In every run, a call that gives up on its own transfer does so before that has completed. */
  lemma {:induction false} GivesUpOnlyUnfinished(u: Usb, events: seq<Event>, e: Event, c: nat)
    requires Safe(u) && c < |u.pcs|
    ensures var v := Run(u, events); var w := Step(v, e);
      && |v.pcs| == |w.pcs| == |u.pcs|
      && (v.pcs[c].Awaiting? && !v.pcs[c].stale && w.pcs[c] != v.pcs[c] ==>
            w.pcs[c] == Unlocking(v.pcs[c].id in w.completed, Some(v.pcs[c].id), false))
  {
    HandshakeSafe(u, events);
    RunKeepsCallers(u, events);
    var v := Run(u, events);
    hide Run;
    if e.Complete? || e.c != c {
      OtherKeepsPc(v, c, e);
    } else if v.pcs[c].Awaiting? && !v.pcs[c].stale {
      OwnTokenDecides(v, c);
    } else {
      CallerStepFrame(v, e);
    }
  }

  lemma OtherKeepsPc(u: Usb, c: nat, e: Event)
    requires c < |u.pcs| && (e.Complete? || e.c != c)
    ensures |Step(u, e).pcs| == |u.pcs| && Step(u, e).pcs[c] == u.pcs[c]
  {
    if !e.Complete? && e.c < |u.pcs| {
      CallerStepFrame(u, e);
      hide CallerStep;
    }
  }

  lemma {:induction false} RunKeepsCallers(u: Usb, events: seq<Event>)
    ensures |Run(u, events).pcs| == |u.pcs|
    decreases |events|
  {
    if events != [] {
      RunKeepsCallers(u, events[..|events| - 1]);
      var v, e := Run(u, events[..|events| - 1]), events[|events| - 1];
      if !e.Complete? && e.c < |v.pcs| { CallerStepFrame(v, e); }
    }
  }

  // ---------------------------------------------------------------------
  // When a true return can be believed
  // ---------------------------------------------------------------------

  /** If the caller is about to return true, its own transfer has completed. */
  predicate Honest(u: Usb, c: nat) {
    c < |u.pcs| && u.pcs[c].Unlocking? && u.pcs[c].ok ==> u.pcs[c].own.Some? && u.pcs[c].own.value in u.completed
  }

  predicate NoEntry(events: seq<Event>, c: nat) {
    Enter(c) !in events
  }

  /** Nothing but the caller's own transfer can give it a token. */
  ghost predicate Clean(u: Usb, c: nat) {
    && Safe(u) && c < |u.pcs|
    && match u.pcs[c] {
         case Out => true
         case Locking => false
         case Draining => u.inFlight.None?
         case Issuing(older) => older.None?
         case BusyWaiting(older) => older.None?
         case Reissuing(older) => older.None?
         case Awaiting(_, stale) => !stale
         case Unlocking(ok, _, stale) => ok ==> !stale
       }
  }

  lemma StepClean(u: Usb, c: nat, e: Event)
    requires Clean(u, c) && e != Enter(c)
    ensures Clean(Step(u, e), c)
  {
    StepSafe(u, e);
    hide Safe;
    if !e.Complete? && e.c < |u.pcs| && e.c != c {
      OtherStepClean(u, c, e);
    }
  }

  /** The statements of another caller. */
  lemma OtherStepClean(u: Usb, c: nat, e: Event)
    requires Clean(u, c) && !e.Complete? && e.c < |u.pcs| && e.c != c && Safe(Step(u, e))
    ensures Clean(Step(u, e), c)
  {
    CallerStepFrame(u, e);
    CallerStepCore(u, e);
    hide CallerStep;
    if u.owner == Some(c) {
      assert !Inside(u.pcs[e.c]);
    }
  }

  lemma {:induction false} CleanStaysHonest(u: Usb, c: nat, events: seq<Event>)
    requires Clean(u, c) && NoEntry(events, c)
    ensures Clean(Run(u, events), c) && Honest(Run(u, events), c)
    decreases |events|
  {
    if events != [] {
      var prefix := events[..|events| - 1];
      CleanStaysHonest(u, c, prefix);
      StepClean(Run(u, prefix), c, events[|events| - 1]);
    }
  }

  /** Undisturbed, the drain loop ends within two takes. */
  lemma DrainEnds(u: Usb, c: nat)
    requires c < |u.pcs| && u.pcs[c].Draining?
    ensures var v := Step(Step(u, DrainTake(c)), DrainTake(c));
      v == u.(sema := false, pcs := u.pcs[c := Issuing(u.inFlight)])
  {
    var v := Step(Step(u, DrainTake(c)), DrainTake(c));
    assert v.pcs == u.pcs[c := Issuing(u.inFlight)];
  }

  /** The older transfer completes just before the new one is accepted. */
  lemma StaleTokenTaken(u: Usb, c: nat)
    requires c < |u.pcs| && u.pcs[c].Issuing? && u.next !in u.completed
    requires u.inFlight.Some? && u.inFlight.value != u.next
    ensures var w := Step(Step(Step(u, Complete), Transmit(c, HalOk)), WaitTake(c));
      w.pcs[c] == Unlocking(true, Some(u.next), true) && u.next !in w.completed && |w.pcs| == |u.pcs|
  {
    var accepted := Step(Step(u, Complete), Transmit(c, HalOk));
    assert accepted.pcs[c] == Awaiting(u.next, true) && accepted.sema;
  }

  /**
   A caller that obtains the mutex while an older, timed-out transfer is still
   in flight can be handed that transfer's token: the completion arrives
   between the drain loop and the accepted transmit.
   */
  lemma LateCompletionDeceives(u: Usb, c: nat)
    requires Safe(u) && c < |u.pcs| && u.pcs[c].Draining? && u.inFlight.Some?
    ensures exists events :: NoEntry(events, c) && !Honest(Run(u, events), c)
  {
    DrainEnds(u, c);
    StaleTokenTaken(Step(Step(u, DrainTake(c)), DrainTake(c)), c);
    hide Step, Run;
    CanReachSelf(u, c);
    var v := GoOn(u, u, c, DrainTake(c));
    v := GoOn(u, v, c, DrainTake(c));
    v := GoOn(u, v, c, Complete);
    v := GoOn(u, v, c, Transmit(c, HalOk));
    v := GoOn(u, v, c, WaitTake(c));
    var events :| NoEntry(events, c) && Run(u, events) == v;
  }

  /** Some interleaving in which c does not start another call leads from u to v. */
  ghost predicate CanReach(u: Usb, v: Usb, c: nat) {
    exists events :: NoEntry(events, c) && Run(u, events) == v
  }

  lemma CanReachSelf(u: Usb, c: nat)
    ensures CanReach(u, u, c)
  {
    assert NoEntry([], c) && Run(u, []) == u;
  }

  lemma GoOn(u: Usb, v: Usb, c: nat, e: Event) returns (w: Usb)
    requires CanReach(u, v, c) && e != Enter(c)
    ensures w == Step(v, e) && CanReach(u, w, c)
  {
    var events :| NoEntry(events, c) && Run(u, events) == v;
    RunSnoc(u, events, e);
    w := Step(v, e);
    assert NoEntry(events + [e], c) && Run(u, events + [e]) == w;
  }

  /**
   Main result, second half: the exact condition under which "a caller's own
   take can only be satisfied by its own transfer's completion".  Whatever
   happens during the rest of the call, a true return is truthful if and only
   if no transfer is in flight when the caller has obtained the mutex.
   */
  lemma HonestIffNothingInFlight(u: Usb, c: nat)
    requires Safe(u) && c < |u.pcs| && u.pcs[c].Draining?
    ensures (forall events | NoEntry(events, c) :: Honest(Run(u, events), c))
      <==> u.inFlight.None?
  {
    if u.inFlight.None? {
      forall events | NoEntry(events, c) ensures Honest(Run(u, events), c) {
        CleanStaysHonest(u, c, events);
      }
    } else {
      LateCompletionDeceives(u, c);
    }
  }
}
