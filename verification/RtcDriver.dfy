/**
 machine.RTC as the driver executes it: the fields of the one RTC object, the
 scheduler node and the vendor's alarm state are updated in place.
 */
module RtcDriver {
  import opened Prelude
  import opened RtcAlarm

  /** The `time` argument of alarm(): milliseconds from now, or a date and time. */
  datatype AlarmTime = Offset(ms: int) | DateTime(seconds: int)

  datatype AlarmResult = Armed | InvalidId | RepeatTooShort

  class RtcObject {
    var alarmTarget: int
    var alarmRepeat: bool
    var alarmIntervalMs: int
    var nodeQueued: bool
    var hardware: Option<int>
    ghost var first: int
    ghost var fires: nat

    ghost function Model(): Rtc
      reads this
    {
      Rtc(alarmTarget, alarmRepeat, alarmIntervalMs, hardware, nodeQueued, first, fires)
    }

    ghost predicate Valid()
      reads this
    {
      Consistent(Model())
    }

    constructor ()
      ensures Valid() && Model() == INITIAL
    {
      alarmTarget, alarmRepeat, alarmIntervalMs, nodeQueued, hardware := 0, false, 0, false, None;
      first, fires := 0, 0;
    }

    /** rtc_alarm_arm. */
    method Arm()
      modifies `hardware
      ensures hardware == Some(alarmTarget)
    {
      hardware := Some(alarmTarget);
    }

    /** rtc_disable_alarm. */
    method Disable()
      modifies `hardware
      ensures hardware == None
    {
      hardware := None;
    }

    /** machine_rtc_alarm; `now` is what rtc_read() returns. */
    method Alarm(id: int, time: AlarmTime, repeat: bool, now: int) returns (r: AlarmResult)
      requires Valid()
      modifies this
      ensures Valid()
      ensures r.InvalidId? <==> id != 0
      ensures r.RepeatTooShort? <==> id == 0 && time.Offset? && repeat && time.ms < 1000
      ensures !r.Armed? ==> Model() == old(Model())
      ensures r.Armed? ==>
        Model() == Step(old(Model()), if time.Offset? then AlarmIn(now, time.ms, repeat) else AlarmAt(time.seconds))
      ensures r.Armed? ==> hardware == Some(alarmTarget) && nodeQueued == old(nodeQueued)
      ensures r.Armed? && time.Offset? ==> WholeSeconds(alarmTarget - now, time.ms)
      ensures r.Armed? && time.DateTime? ==> alarmTarget == time.seconds
    {
      if id != 0 {
        return InvalidId;
      }
      match time {
        case Offset(ms) =>
          if repeat && ms < 1000 {
            return RepeatTooShort;
          }
          StepConsistent(Model(), AlarmIn(now, ms, repeat));
          SecondsCut(AlarmIn(now, ms, repeat));
          alarmTarget := now + TruncDiv(ms, 1000);
          alarmRepeat := repeat;
          alarmIntervalMs := ms;
        case DateTime(seconds) =>
          StepConsistent(Model(), AlarmAt(seconds));
          alarmTarget := seconds;
          alarmRepeat := false;
          alarmIntervalMs := 0;
      }
      first, fires := alarmTarget, 0;
      Arm();
      return Armed;
    }

    /** machine_rtc_alarm_cancel. */
    method AlarmCancel(id: int) returns (ok: bool)
      requires Valid()
      modifies this
      ensures Valid() && (ok <==> id == 0) && nodeQueued == old(nodeQueued)
      ensures !ok ==> Model() == old(Model())
      ensures ok ==> Model() == Step(old(Model()), Cancel)
      ensures ok ==> forall events | NoAlarms(events) :: Run(Model(), events).hardware.None?
    {
      if id != 0 {
        return false;
      }
      ghost var before := Model();
      Disable();
      alarmTarget, alarmRepeat, alarmIntervalMs := 0, false, 0;
      forall events | NoAlarms(events) ensures Run(Model(), events).hardware.None? {
        CancelledStaysDisarmed(before, Cancel, events);
      }
      ok := true;
    }

    /** machine_rtc_alarm_irq_handler, called by the vendor's trampoline. */
    method IrqHandler()
      modifies `alarmTarget, `nodeQueued
      ensures alarmTarget == if alarmRepeat then old(alarmTarget) + TruncDiv(alarmIntervalMs, 1000) else 0
      ensures nodeQueued == (old(nodeQueued) || alarmRepeat)
    {
      if alarmRepeat {
        alarmTarget := alarmTarget + TruncDiv(alarmIntervalMs, 1000);
        nodeQueued := true;
      } else {
        alarmTarget := 0;
      }
    }

    /** The vendor's ISR: whatever the handler armed is disarmed when it returns. */
    method VendorIsr()
      requires Valid() && hardware.Some?
      modifies this
      ensures Valid() && Model() == Step(old(Model()), Fire)
    {
      StepConsistent(Model(), Fire);
      fires := fires + 1;
      IrqHandler();
      Disable();
    }

    /** machine_rtc_alarm_rearm_scheduled, run by the scheduler. */
    method RearmScheduled()
      requires Valid() && nodeQueued
      modifies this
      ensures Valid() && Model() == Step(old(Model()), Pump)
      ensures hardware == if alarmRepeat then Some(alarmTarget) else old(hardware)
    {
      StepConsistent(Model(), Pump);
      nodeQueued := false;
      if alarmRepeat {
        Arm();
      }
    }

    /** machine_rtc_deinit_all. */
    method DeinitAll()
      requires Valid()
      modifies this
      ensures Valid() && Model() == Step(old(Model()), SoftReset) && !nodeQueued
      ensures forall events | NoAlarms(events) :: Run(Model(), events).hardware.None?
    {
      ghost var before := Model();
      Disable();
      alarmTarget, alarmRepeat, alarmIntervalMs := 0, false, 0;
      nodeQueued := false;
      forall events | NoAlarms(events) ensures Run(Model(), events).hardware.None? {
        CancelledStaysDisarmed(before, SoftReset, events);
      }
    }

    /** machine_rtc_alarm_left. */
    method AlarmLeft(id: int, now: int) returns (left: Option<nat>)
      requires Valid() && 0 <= now
      ensures left.None? <==> id != 0
      ensures id == 0 && hardware.None? && !nodeQueued ==> left == Some(0)
      ensures id == 0 && now < alarmTarget <= now + 4294967 ==> left == Some((alarmTarget - now) * 1000)
    {
      if id != 0 {
        return None;
      }
      left := Some(if alarmTarget <= now then 0 else U32(U32(alarmTarget - now) * 1000));
    }
  }
}
