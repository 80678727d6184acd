/**
 The RTC alarm: API calls, the alarm interrupt with the vendor trampoline that
 disarms whatever the handler armed, and the scheduler pump that re-arms a
 repeating alarm later.
 */
module RtcAlarm {
  import opened Prelude

  /** C's integer division, which truncates towards zero. */
  function TruncDiv(a: int, b: int): int
    requires 0 < b
  {
    if 0 <= a then a / b else -(-a / b)
  }

  /**
   `target`, `repeat` and `interval` are the fields of the RTC object,
   `hardware` what the alarm registers are armed for, `queued` whether the
   scheduler holds the re-arm node.  `first` and `fires` are the target given
   to the last accepted alarm() and the number of fires since.
   */
  datatype Rtc = Rtc(
    target: int, repeat: bool, interval: int,
    hardware: Option<int>, queued: bool,
    first: int, fires: nat)

  datatype Event =
    | AlarmIn(now: int, offset: int, repeat: bool)  // alarm(0, ms, repeat=...)
    | AlarmAt(time: int)                            // alarm(0, datetimetuple)
    | Cancel
    | Fire                                          // the alarm interrupt, trampoline included
    | Pump                                          // the scheduler runs the node
    | SoftReset

  const INITIAL := Rtc(0, false, 0, None, false, 0, 0)

  /** Repeating every less than a second is refused: the hardware counts whole seconds. */
  predicate Refused(e: Event) {
    e.AlarmIn? && e.repeat && e.offset < 1000
  }

  function Step(r: Rtc, e: Event): Rtc {
    match e
    case AlarmIn(now, offset, repeat) =>
      if Refused(e) then r
      else
        var target := now + TruncDiv(offset, 1000);
        r.(target := target, repeat := repeat, interval := offset,
           hardware := Some(target), first := target, fires := 0)
    case AlarmAt(time) =>
      r.(target := time, repeat := false, interval := 0, hardware := Some(time), first := time, fires := 0)
    case Cancel =>
      r.(target := 0, repeat := false, interval := 0, hardware := None)
    case Fire =>
      if r.hardware.None? then r
      else if r.repeat then
        r.(target := r.target + TruncDiv(r.interval, 1000), queued := true, hardware := None, fires := r.fires + 1)
      else
        r.(target := 0, hardware := None, fires := r.fires + 1)
    case Pump =>
      if !r.queued then r
      else r.(queued := false, hardware := if r.repeat then Some(r.target) else r.hardware)
    case SoftReset =>
      r.(target := 0, repeat := false, interval := 0, hardware := None, queued := false)
  }

  function Run(r: Rtc, events: seq<Event>): Rtc
    decreases |events|
  {
    if events == [] then r else Step(Run(r, events[..|events| - 1]), events[|events| - 1])
  }

  /**
   A live repeating alarm is armed for its target unless the re-arm is queued,
   and without any alarm there is no target.
   */
  ghost predicate Consistent(r: Rtc) {
    && (r.hardware.Some? ==> r.hardware == Some(r.target))
    && (r.repeat ==> 1000 <= r.interval)
    && (r.repeat && !r.queued ==> r.hardware.Some?)
    && (r.repeat ==> r.target == r.first + r.fires * (r.interval / 1000))
    && (!r.repeat && r.hardware.Some? ==> r.target == r.first && r.fires == 0)
    && (!r.repeat && r.hardware.None? ==> r.target == 0)
  }

  lemma StepConsistent(r: Rtc, e: Event)
    requires Consistent(r)
    ensures Consistent(Step(r, e))
  {
    if e.Fire? && r.hardware.Some? && r.repeat {
      var step := r.interval / 1000;
      assert (r.fires + 1) * step == r.fires * step + step;
    }
  }

  /**
   Main result, first half: in every run of calls, fires, pumps and resets, a
   repeating alarm with no re-arm queued is armed in hardware at exactly its
   target, and after k fires the target is the first one plus k intervals.
   */
  lemma {:induction false} AlwaysConsistent(r: Rtc, events: seq<Event>)
    requires Consistent(r)
    ensures Consistent(Run(r, events))
    decreases |events|
  {
    if events != [] {
      AlwaysConsistent(r, events[..|events| - 1]);
      StepConsistent(Run(r, events[..|events| - 1]), events[|events| - 1]);
    }
  }

  predicate NoAlarms(events: seq<Event>) {
    forall e | e in events :: !e.AlarmIn? && !e.AlarmAt?
  }

  /**
   Main result, second half: after alarm_cancel(), and after a soft reset, the
   hardware is not armed again until a new alarm(), whatever was queued at the
   time; nothing is left of the alarm, and after a reset no node is queued.
   */
  lemma {:induction false} CancelledStaysDisarmed(r: Rtc, e: Event, events: seq<Event>)
    requires e.Cancel? || e.SoftReset?
    requires NoAlarms(events)
    ensures var v := Run(Step(r, e), events);
      && v.hardware.None? && !v.repeat && v.target == 0 && v.fires == r.fires
      && (e.SoftReset? ==> !v.queued)
    decreases |events|
  {
    if events != [] {
      CancelledStaysDisarmed(r, e, events[..|events| - 1]);
    }
  }

  /** A one-shot alarm fires at most once, even if an old re-arm node is still queued. */
  lemma {:induction false} OneShotFiresOnce(r: Rtc, e: Event, events: seq<Event>)
    requires e.AlarmAt? || (e.AlarmIn? && !e.repeat)
    requires NoAlarms(events)
    ensures var v := Run(Step(r, e), events);
      && v.fires <= 1 && !v.repeat
      && (v.hardware.Some? ==> v.fires == 0)
    decreases |events|
  {
    if events != [] {
      OneShotFiresOnce(r, e, events[..|events| - 1]);
    }
  }

  /** Whole seconds that stand for an offset in milliseconds, cut towards zero. */
  predicate WholeSeconds(seconds: int, ms: int) {
    if 0 <= ms then seconds * 1000 <= ms < (seconds + 1) * 1000
    else (seconds - 1) * 1000 < ms <= seconds * 1000
  }

  /** The time an accepted alarm() asks for. */
  predicate AsksFor(e: Event, time: int) {
    (e.AlarmIn? ==> WholeSeconds(time - e.now, e.offset)) && (e.AlarmAt? ==> time == e.time)
  }

  predicate OnlyFiresAndPumps(events: seq<Event>) {
    forall e | e in events :: e.Fire? || e.Pump?
  }

  /**
   A one-shot alarm that nobody cancels is armed for the time that was asked
   for until it fires, even if an old re-arm node is still queued and then
   runs; and once it has fired nothing is left of it.
   */
  lemma {:induction false} OneShotArmedUntilFired(r: Rtc, e: Event, events: seq<Event>)
    requires e.AlarmAt? || (e.AlarmIn? && !e.repeat)
    requires OnlyFiresAndPumps(events)
    ensures var v := Run(Step(r, e), events);
      && (Fire !in events <==> v.fires == 0)
      && (Fire !in events ==> v.hardware == Some(v.target) && AsksFor(e, v.target))
      && (Fire in events ==> v.hardware.None? && v.target == 0)
      && !v.repeat
    decreases |events|
  {
    if events == [] {
      SecondsCut(e);
    } else {
      var front, last := events[..|events| - 1], events[|events| - 1];
      OneShotArmedUntilFired(r, e, front);
      assert events == front + [last] && last in events;
      assert Fire in events <==> Fire in front || last.Fire?;
    }
  }

  /** The division of alarm() cuts towards zero. */
  lemma SecondsCut(e: Event)
    requires e.AlarmAt? || e.AlarmIn?
    ensures e.AlarmIn? ==> WholeSeconds(TruncDiv(e.offset, 1000), e.offset)
  {
  }

  function Cycles(k: nat): seq<Event> {
    if k == 0 then [] else Cycles(k - 1) + [Fire, Pump]
  }

  lemma RunSnoc(r: Rtc, events: seq<Event>, e: Event)
    ensures Run(r, events + [e]) == Step(Run(r, events), e)
  {
    assert (events + [e])[..|events|] == events;
  }

  /**
   Left alone, a repeating alarm goes on for ever: after k fires and pumps it
   is armed for the k-th later second count, and every target is later than
   the one before.
   */
  lemma {:induction false} RepeatsForever(r: Rtc, now: int, offset: int, k: nat)
    requires Consistent(r) && 1000 <= offset
    ensures var v := Run(Step(r, AlarmIn(now, offset, true)), Cycles(k));
      && v.repeat && (0 < k ==> !v.queued)
      && v.hardware == Some(v.target) && v.interval == offset && v.fires == k
      && v.target == now + (k + 1) * (offset / 1000)
      && 1 <= offset / 1000
  {
    var start := Step(r, AlarmIn(now, offset, true));
    var step := offset / 1000;
    if k == 0 {
      assert (k + 1) * step == step;
    } else {
      RepeatsForever(r, now, offset, k - 1);
      var v := Run(start, Cycles(k - 1));
      RunSnoc(start, Cycles(k - 1), Fire);
      RunSnoc(start, Cycles(k - 1) + [Fire], Pump);
      assert Cycles(k) == Cycles(k - 1) + [Fire] + [Pump];
      assert (k + 1) * step == (k - 1 + 1) * step + step;
    }
  }

  /** The guard of alarm() is exact: a repeat advances the target if and only if it lasts a second. */
  lemma AdvancesIffOneSecond(offset: int)
    ensures 0 < TruncDiv(offset, 1000) <==> 1000 <= offset
  {
  }

  /** rtc_alarm_ms_left, in 32-bit arithmetic. */
  function MsLeft(now: int, target: int): nat {
    if target <= now then 0 else U32(U32(target - now) * 1000)
  }

  /** With nothing armed and no re-arm queued, alarm_left() is 0. */
  lemma NothingLeftWithoutAlarm(r: Rtc, now: int)
    requires Consistent(r) && 0 <= now && r.hardware.None? && !r.queued
    ensures MsLeft(now, r.target) == 0
  {
  }

  /** alarm_left() is right if and only if the alarm is less than about 49.7 days ahead. */
  lemma MsLeftExactIff(now: int, target: int)
    requires now < target
    ensures MsLeft(now, target) == (target - now) * 1000 <==> target - now <= 4294967
  {
  }
}
