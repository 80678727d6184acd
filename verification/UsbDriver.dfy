/**
 machine.USBSerial's usbserial_transmit_blocking as the driver executes it,
 with the other callers and the hardware at work between its statements.
 */
module UsbDriver {
  import opened Prelude
  import opened UsbTransmit

  /** Events of the hardware and of callers other than c. */
  predicate NotBy(e: Event, c: nat) {
    e.Complete? || e.c != c
  }

  /** An idle endpoint that gives these answers takes the transfer, at the first call or at the retry. */
  predicate Taken(wants: (Hal, Hal)) {
    wants.0.HalOk? || (wants.0.HalBusy? && wants.1.HalOk?)
  }

  /** What the rest of the system cannot do to a caller that holds the mutex. */
  predicate HeldStill(u: Usb, v: Usb, c: nat)
    requires c < |u.pcs|
  {
    && |v.pcs| == |u.pcs| && v.pcs[c] == u.pcs[c] && v.owner == Some(c) && v.next == u.next
    && (v.inFlight == u.inFlight || v.inFlight.None?)
    && (v.sema == u.sema || v.inFlight != u.inFlight)
    && u.completed <= v.completed
  }

  lemma OthersStep(u: Usb, c: nat, e: Event)
    requires Safe(u) && c < |u.pcs| && u.owner == Some(c) && NotBy(e, c)
    ensures HeldStill(u, Step(u, e), c) && Safe(Step(u, e))
  {
    StepSafe(u, e);
    if !e.Complete? && e.c < |u.pcs| {
      assert !Inside(u.pcs[e.c]);
    }
  }

  class Shared {
    var owner: Option<nat>     // usbserial_tx_mutex
    var doneSema: bool         // usbserial_tx_done_sema
    var inFlight: Option<nat>  // the transfer the endpoint is working on
    var next: nat
    var pcs: seq<Pc>
    var completed: set<nat>

    function Model(): Usb
      reads this
    {
      Usb(owner, doneSema, inFlight, next, completed, pcs)
    }

    ghost predicate Valid()
      reads this
    {
      Safe(Model())
    }

    constructor (callers: nat)
      ensures Valid() && Model() == Idle(callers)
    {
      owner, doneSema, inFlight, next, completed := None, false, None, 0, {};
      pcs := seq(callers, _ => Out);
    }

    /** The `transmitted` callback. */
    method TransferDone()
      requires Valid()
      modifies this
      ensures Valid() && Model() == Step(old(Model()), Complete)
    {
      StepSafe(Model(), Complete);
      if inFlight.Some? {
        completed := completed + {inFlight.value};
        inFlight, doneSema := None, true;
      }
    }

    /** The caller's last statement was `e`; control moves on. */
    method MoveTo(c: nat, pc: Pc)
      requires c < |pcs|
      modifies `pcs
      ensures pcs == old(pcs)[c := pc]
    {
      pcs := pcs[c := pc];
    }

    /** Completions, and other callers that find the mutex taken, while c holds it. */
    method OthersRun(c: nat, acts: seq<Event>)
      requires Valid() && c < |pcs| && owner == Some(c)
      modifies this
      ensures Valid() && HeldStill(old(Model()), Model(), c)
    {
      for k := 0 to |acts|
        invariant Valid() && HeldStill(old(Model()), Model(), c)
      {
        var e := acts[k];
        if e.Complete? {
          OthersStep(Model(), c, e);
          hide Step, Safe;
          TransferDone();
        } else if e.c != c && e.c < |pcs| {
          OthersStep(Model(), c, e);
          hide Safe;
          assert !Inside(pcs[e.c]) by { assert Safe(Model()); }
          match e
          case Enter(d) => if pcs[d].Out? { MoveTo(d, Locking); }
          case LockTimeout(d) => if pcs[d].Locking? { MoveTo(d, Out); }
          case _ =>
        }
      }
    }

    /** The next entry of the schedule, if there is one, happens here. */
    method Preempt(c: nat, env: seq<seq<Event>>, t: nat) returns (t': nat)
      requires Valid() && c < |pcs| && owner == Some(c)
      modifies this
      ensures Valid() && HeldStill(old(Model()), Model(), c)
      ensures t' == if t < |env| then t + 1 else t
    {
      t' := t;
      if t < |env| {
        OthersRun(c, env[t]);
        t' := t + 1;
      }
    }

    method Become(u: Usb)
      modifies this
      ensures Model() == u
    {
      owner, doneSema, inFlight, next, completed, pcs := u.owner, u.sema, u.inFlight, u.next, u.completed, u.pcs;
    }

    /** While c waits for the mutex, the other callers and the hardware may do anything. */
    method OthersProceed(c: nat, acts: seq<Event>)
      requires Valid() && c < |pcs| && pcs[c].Locking?
      modifies this
      ensures Valid() && |pcs| == old(|pcs|) && pcs[c].Locking?
    {
      for k := 0 to |acts|
        invariant Valid() && |pcs| == old(|pcs|) && pcs[c].Locking?
      {
        if NotBy(acts[k], c) {
          StepSafe(Model(), acts[k]);
          OtherKeepsPc(Model(), c, acts[k]);
          hide Step, Safe;
          Become(Step(Model(), acts[k]));
        }
      }
    }

    /** rtos_mutex_take, waiting for at most `patience` entries of the schedule. */
    method TakeMutex(c: nat, env: seq<seq<Event>>, patience: nat) returns (taken: bool, t: nat)
      requires Valid() && c < |pcs| && pcs[c].Out?
      modifies this
      ensures Valid() && |pcs| == old(|pcs|)
      ensures if taken then owner == Some(c) && pcs[c].Draining? else owner.Some? && pcs[c].Out?
      ensures old(owner).None? ==> taken && inFlight == old(inFlight) && next == old(next)
      ensures !taken ==> t == Min(patience, |env|)
    {
      hide Safe;
      StepSafe(Model(), Enter(c));
      MoveTo(c, Locking);
      t := 0;
      while owner.Some? && t < patience && t < |env|
        invariant Valid() && |pcs| == old(|pcs|) && pcs[c].Locking?
        invariant old(owner).None? ==> owner.None? && inFlight == old(inFlight) && next == old(next)
        invariant t <= patience && t <= |env|
      {
        OthersProceed(c, env[t]);
        t := t + 1;
      }
      taken := owner.None?;
      if taken {
        StepSafe(Model(), Lock(c));
        owner := Some(c);
        MoveTo(c, Draining);
      } else {
        StepSafe(Model(), LockTimeout(c));
        MoveTo(c, Out);
      }
    }

    /** The drain loop: it ends, because one transfer at most can still give a token. */
    method DrainTokens(c: nat, env: seq<seq<Event>>, t: nat) returns (t': nat)
      requires Valid() && c < |pcs| && owner == Some(c) && pcs[c].Draining?
      modifies this
      ensures Valid() && |pcs| == old(|pcs|) && owner == Some(c) && next == old(next)
      ensures pcs[c] == Issuing(inFlight) && !doneSema
      ensures old(inFlight).None? ==> inFlight.None?
    {
      t' := t;
      while doneSema
        invariant Valid() && |pcs| == old(|pcs|) && owner == Some(c) && pcs[c].Draining? && next == old(next)
        invariant old(inFlight).None? ==> inFlight.None?
        decreases if inFlight.Some? then 1 else 0, doneSema
      {
        StepSafe(Model(), DrainTake(c));
        doneSema := false;
        t' := Preempt(c, env, t');
      }
      StepSafe(Model(), DrainTake(c));
      MoveTo(c, Issuing(inFlight));
    }

    /** usbd_cdc_acm_transmit: the endpoint takes one transfer at a time. */
    method CallTransmit(c: nat, want: Hal) returns (ret: Hal)
      requires Valid() && c < |pcs| && owner == Some(c) && (pcs[c].Issuing? || pcs[c].Reissuing?)
      modifies this
      ensures Valid() && |pcs| == old(|pcs|) && owner == Some(c)
      ensures ret == if want.HalOk? && old(inFlight).Some? then HalBusy else want
      ensures next == old(next) + (if ret.HalOk? then 1 else 0)
      ensures ret.HalOk? ==>
        && pcs[c] == Awaiting(old(next), old(doneSema)) && old(next) !in completed
        && (pcs[c].stale <==> old(pcs)[c].older.Some?)
      ensures !ret.HalOk? ==> inFlight == old(inFlight) && doneSema == old(doneSema)
      ensures ret.HalBusy? && old(pcs)[c].Issuing? ==> pcs[c] == BusyWaiting(old(pcs)[c].older)
      ensures !ret.HalOk? && (ret.HalError? || old(pcs)[c].Reissuing?) ==> pcs[c] == Unlocking(false, None, false)
    {
      ret := if want.HalOk? && inFlight.Some? then HalBusy else want;
      StepSafe(Model(), Transmit(c, ret));
      if ret.HalOk? {
        inFlight, next := Some(next), next + 1;
        MoveTo(c, Awaiting(next - 1, doneSema));
      } else if ret.HalBusy? && pcs[c].Issuing? {
        MoveTo(c, BusyWaiting(pcs[c].older));
      } else {
        MoveTo(c, Unlocking(false, None, false));
      }
    }

    /** The wait inside rtos_sema_take. */
    method AwaitToken(c: nat, env: seq<seq<Event>>, t: nat, patience: nat) returns (t': nat)
      requires Valid() && c < |pcs| && owner == Some(c)
      modifies this
      ensures Valid() && |pcs| == old(|pcs|) && owner == Some(c) && pcs[c] == old(pcs)[c] && next == old(next)
      ensures old(doneSema) ==> doneSema
      ensures !doneSema ==> Min(t + patience, |env|) <= t'
    {
      hide Safe;
      t' := t;
      var waited := 0;
      while !doneSema && waited < patience
        invariant Valid() && |pcs| == old(|pcs|) && owner == Some(c) && pcs[c] == old(pcs)[c] && next == old(next)
        invariant old(doneSema) ==> doneSema
        invariant waited <= patience && Min(t + waited, |env|) <= t'
      {
        t' := Preempt(c, env, t');
        waited := waited + 1;
      }
    }

    /**
     rtos_sema_take with a timeout of `patience` entries of the schedule.  For
     an accepted transfer, and with no stale token about, it succeeds if and
     only if that transfer has completed.
     */
    method TakeToken(c: nat, env: seq<seq<Event>>, t: nat, patience: nat) returns (t': nat, got: bool)
      requires Valid() && c < |pcs| && owner == Some(c) && (pcs[c].BusyWaiting? || pcs[c].Awaiting?)
      modifies this
      ensures Valid() && |pcs| == old(|pcs|) && owner == Some(c) && !doneSema && next == old(next)
      ensures old(pcs)[c].BusyWaiting? ==> pcs[c] == Reissuing(inFlight) && (old(pcs)[c].older.None? ==> inFlight.None?)
      ensures old(pcs)[c].Awaiting? ==> pcs[c] == Unlocking(got, Some(old(pcs)[c].id), old(pcs)[c].stale)
      ensures old(pcs)[c].Awaiting? && !old(pcs)[c].stale ==> (got <==> old(pcs)[c].id in completed)
      ensures old(doneSema) ==> got
      ensures !got ==> Min(t + patience, |env|) <= t'
    {
      t' := AwaitToken(c, env, t, patience);
      got := doneSema;
      StepSafe(Model(), if got then WaitTake(c) else WaitTimeout(c));
      doneSema := false;
      if pcs[c].BusyWaiting? {
        MoveTo(c, Reissuing(inFlight));
      } else {
        MoveTo(c, Unlocking(got, Some(pcs[c].id), pcs[c].stale));
      }
    }

    method GiveMutex(c: nat)
      requires Valid() && c < |pcs| && owner == Some(c) && pcs[c].Unlocking?
      modifies this
      ensures Valid() && |pcs| == old(|pcs|) && pcs[c].Out? && owner.None?
      ensures completed == old(completed) && next == old(next)
    {
      StepSafe(Model(), Event.Unlock(c));
      owner := None;
      MoveTo(c, Out);
    }

    /**
     usbserial_transmit_blocking.  A true result means that the caller's own
     transfer has completed, unless the semaphore was already given when the
     hardware accepted it, which cannot be if nothing was in flight when the
     caller got the mutex; a false one that its transfer was not accepted, or
     has not completed, or that the mutex was not to be had for the time given,
     which `waited` then is.
     */
    method TransmitBlocking(c: nat, wants: (Hal, Hal), patience: nat, env: seq<seq<Event>>)
      returns (ok: bool, ghost own: Option<nat>, ghost stale: bool, ghost clear: bool, ghost waited: Option<nat>)
      requires Valid() && c < |pcs| && pcs[c].Out?
      modifies this
      ensures Valid() && |pcs| == old(|pcs|) && pcs[c].Out?
      ensures ok ==> own.Some?
      ensures own.Some? && !stale ==> (ok <==> own.value in completed)
      ensures own.Some? ==> own.value + 1 == next
      ensures clear ==> !stale
      ensures old(owner).None? ==> own == (if next == old(next) then None else Some(old(next)))
      ensures old(owner).None? && old(inFlight).None? ==> clear && (own.Some? <==> Taken(wants))
      ensures waited.Some? ==> !ok && own.None? && owner.Some? && waited.value == Min(patience, |env|)
      ensures old(owner).None? ==> waited.None?
    {
      own, stale, clear, waited := None, false, true, None;
      var taken, t := TakeMutex(c, env, patience);
      if !taken {
        return false, own, stale, clear, Some(t);
      }
      hide Step, Safe;
      clear := inFlight.None?;
      t := Preempt(c, env, t);
      t := DrainTokens(c, env, t);
      ok, own, stale := Negotiate(c, wants, patience, env, t);
      GiveMutex(c);
    }

    /** Everything between the drain loop and the release of the mutex. */
    method Negotiate(c: nat, wants: (Hal, Hal), patience: nat, env: seq<seq<Event>>, t: nat)
      returns (ok: bool, ghost own: Option<nat>, ghost stale: bool)
      requires Valid() && c < |pcs| && owner == Some(c) && pcs[c] == Issuing(inFlight) && !doneSema
      modifies this
      ensures Valid() && |pcs| == old(|pcs|) && owner == Some(c)
      ensures pcs[c] == Unlocking(ok, own, stale)
      ensures next == old(next) + (if own.Some? then 1 else 0) && (own.Some? ==> own.value == old(next))
      ensures ok ==> own.Some?
      ensures own.Some? && !stale ==> (ok <==> own.value in completed)
      ensures old(inFlight).None? ==> !stale && (own.Some? <==> Taken(wants))
      ensures own.None? && !wants.0.HalError? && wants.1.HalOk? ==> inFlight.Some?
    {
      hide Step;
      var t' := Preempt(c, env, t);
      var ret := CallTransmit(c, wants.0);
      if ret.HalBusy? {
        t', ok := TakeToken(c, env, t', patience);
        t' := Preempt(c, env, t');
        ret := CallTransmit(c, wants.1);
      }
      if !ret.HalOk? {
        ok, own, stale := false, None, false;
      } else {
        own, stale := Some(pcs[c].id), pcs[c].stale;
        t', ok := TakeToken(c, env, t', patience);
      }
    }
  }
}
