/**
 machine.PWM as the driver executes it: the channel table, the SDK's prescaler
 global and the timer's registers are updated in place.
 */
module PwmDriver {
  import opened Prelude
  import opened Pwm

  datatype PwmError = BadPin | AllChannelsInUse | FreqNotPositive

  class Timer8 {
    const channels: array<Channel>
    var prescaler: nat
    var hardware: nat
    var reload: real
    ghost var bumps: nat

    ghost function Model(): State
      reads this, channels
    {
      State(channels[..], prescaler, hardware, reload, bumps)
    }

    ghost predicate Valid()
      reads this, channels
    {
      Safe(Model())
    }

    constructor ()
      ensures Valid() && fresh(channels) && Model() == INITIAL
    {
      channels := new Channel[CHANNELS](_ => Channel(false, 0, 0, Some(0.0), Some(0.0)));
      prescaler, hardware, reload, bumps := 0, 0, 0.0, 0;
      new;
      assert channels[..] == INITIAL.channels;
      InitialSafe();
    }

    /** machine_pwm_alloc_channel; the channel count stands for the source's -1. */
    method AllocChannel() returns (i: nat)
      ensures i == FirstFree(channels[..], 0)
    {
      i := 0;
      while i < channels.Length && channels[i].active
        invariant i <= channels.Length
        invariant FirstFree(channels[..], 0) == FirstFree(channels[..], i)
      {
        i := i + 1;
      }
    }

    method FindPin(pin: int) returns (i: nat)
      ensures i == FindByPin(channels[..], pin, 0)
    {
      i := 0;
      while i < channels.Length && !(channels[i].active && channels[i].pin == pin)
        invariant i <= channels.Length
        invariant FindByPin(channels[..], pin, 0) == FindByPin(channels[..], pin, i)
      {
        i := i + 1;
      }
    }

    /** pwmout_write of the SDK. */
    method PwmoutWrite(i: nat, duty: Option<real>)
      requires i < channels.Length
      modifies channels
      ensures channels[..] == old(channels[..])[i := Written(old(channels[i]), duty, prescaler)]
    {
      var pulse := ShareOf(duty, channels[i].period);
      channels[i] := channels[i].(pulse := pulse, compare := TicksOf(pulse, prescaler));
    }

    /** pwmout_period_us of the SDK, whose overflow branch changes only its own global. */
    method PwmoutPeriodUs(i: nat, period: nat)
      requires i < channels.Length
      modifies channels, `prescaler, `reload, `bumps
      ensures Model() == PeriodUs(old(Model()), i, period)
    {
      var duty := channels[i].Duty();
      if Ticks(period as real, prescaler) > TOP as real {
        prescaler := period * CLOCK_MHZ / TOP % 256;
        bumps := bumps + 1;
      }
      reload := Ticks(period as real, prescaler);
      channels[i] := channels[i].(period := period);
      PwmoutWrite(i, duty);
    }

    /** mp_machine_pwm_freq_set. */
    method FreqSet(i: nat, freq: int) returns (r: Option<PwmError>)
      requires Valid() && i < CHANNELS
      modifies channels, `prescaler, `hardware, `reload, `bumps
      ensures Valid() && Model() == SetFreq(old(Model()), i, freq) == Step(old(Model()), Freq(i, freq))
      ensures r == if freq <= 0 then Some(FreqNotPositive) else None
      ensures r.Some? ==> Model() == old(Model())
    {
      hide Ticks, Written, Channel.Duty, SetFreq, Safe, Choose;
      ghost var before := Model();
      SafeChannels(before);
      FreqSafe(before, i, freq);
      if freq <= 0 {
        NoFreq(before, i, freq);
        return Some(FreqNotPositive);
      }
      var period := MICROS / freq;
      var ticks := U32(period * CLOCK_MHZ);
      var wanted := if ticks > TOP then ticks / TOP else 0;
      if wanted > 0xFF {
        wanted := 0xFF;
        period := LONGEST;
      }
      SettingIs(freq, period, wanted);
      if wanted != prescaler {
        prescaler := wanted;
        hardware := wanted;
      }
      var duties := SaveDuties(i);
      PwmoutPeriodUs(i, period);
      RestoreDuties(i, period, duties, before.channels);
      SetFreqParts(before, i, freq);
      return None;
    }

    /** The first loop of freq(): the duty of every other active channel. */
    method SaveDuties(i: nat) returns (duties: array<Option<real>>)
      requires channels.Length == CHANNELS
      ensures fresh(duties) && duties.Length == CHANNELS
      ensures forall j :: 0 <= j < CHANNELS && j != i && channels[j].active ==> duties[j] == channels[j].Duty()
    {
      hide Channel.Duty;
      duties := new Option<real>[CHANNELS](_ => None);
      for k := 0 to CHANNELS
        invariant forall j :: 0 <= j < k && j != i && channels[j].active ==> duties[j] == channels[j].Duty()
      {
        if k != i && channels[k].active {
          duties[k] := channels[k].Duty();
        }
      }
    }

    /** The second loop of freq(): every other active channel goes to the new period. */
    method RestoreDuties(i: nat, period: int, duties: array<Option<real>>, ghost before: seq<Channel>)
      requires |before| == CHANNELS == channels.Length == duties.Length
      requires forall j :: 0 <= j < CHANNELS && j != i && channels[j].active ==> duties[j] == before[j].Duty()
      modifies channels
      ensures channels[..] == Retimed(old(channels[..]), before, i, period, prescaler)
    {
      hide Channel.Duty, Written;
      ghost var start := channels[..];
      ghost var target := Retimed(start, before, i, period, prescaler);
      for k := 0 to CHANNELS
        invariant forall j :: 0 <= j < k ==> channels[j] == target[j]
        invariant forall j :: k <= j < CHANNELS ==> channels[j] == start[j]
      {
        if k != i && channels[k].active {
          channels[k] := channels[k].(period := period);
          PwmoutWrite(k, duties[k]);
        }
      }
    }

    /** mp_machine_pwm_freq_get. */
    method FreqGet(i: nat) returns (freq: int)
      requires i < channels.Length
      ensures freq == Reported(channels[i].period)
    {
      freq := if channels[i].period > 0 then MICROS / channels[i].period else 0;
    }

    /** mp_machine_pwm_duty_set_u16. */
    method DutySetU16(i: nat, duty: int)
      requires Valid() && i < CHANNELS
      modifies channels
      ensures Valid() && Model() == SetU16(old(Model()), i, duty)
      ensures channels[i].Duty() == if 0 < channels[i].period then Some(Fraction(duty)) else None
      ensures channels[i].period == old(channels[i].period)
      ensures forall j :: 0 <= j < CHANNELS && j != i ==> channels[j] == old(channels[j])
    {
      hide Safe, Written, Channel.Duty, Fraction;
      SafeChannels(Model());
      DutyU16Is(Model(), i, duty);
      SetU16Period(Model(), i, duty);
      U16Safe(Model(), i, duty);
      var clamped := duty;
      if clamped < 0 {
        clamped := 0;
      } else if clamped > 65535 {
        clamped := 65535;
      }
      PwmoutWrite(i, Some(clamped as real / 65535.0));
    }

    /** mp_machine_pwm_duty_get_u16; None stands for the conversion of a NaN. */
    method DutyGetU16(i: nat) returns (duty: Option<int>)
      requires i < channels.Length
      ensures duty == ReportedU16(channels[i])
    {
      var read := channels[i].Duty();
      duty := if read.None? then None else Some((read.value * 65535.0).Floor);
    }

    /** mp_machine_pwm_duty_set_ns. */
    method DutySetNs(i: nat, ns: int)
      requires Valid() && i < CHANNELS && ns < 0x8000_0000
      modifies channels
      ensures Valid() && Model() == SetNs(old(Model()), i, ns) == Step(old(Model()), DutyNs(i, ns))
      ensures channels[i].pulse == Some((if ns < 0 then 0 else Min(ns / 1000, channels[i].period)) as real)
    {
      hide Safe, Ticks;
      NsSafe(Model(), i, ns);
      ChannelSound(Model(), i);
      PulseUsIsCut(channels[i].period, ns);
      var wanted := if ns < 0 then 0 else ns;
      var most := U32(channels[i].period * 1000);
      if U32(wanted) > most {
        wanted := most;
      }
      var pulse := Some((wanted / 1000) as real);
      channels[i] := channels[i].(pulse := pulse, compare := TicksOf(pulse, prescaler));
    }

    /** mp_machine_pwm_init_helper; negative stands for an argument that was not given. */
    method InitArgs(i: nat, freq: int, u16: int, ns: int)
      requires Valid() && i < CHANNELS && ns < 0x8000_0000
      modifies channels, `prescaler, `hardware, `reload, `bumps
      ensures Valid() && Model() == InitHelper(old(Model()), i, freq, u16, ns)
      ensures AsAsked(old(channels[i]), channels[i], freq, u16, ns)
    {
      hide SetFreq, SetU16, SetNs, Safe, AsAsked;
      SafeChannels(Model());
      ArgumentsApplied(Model(), i, freq, u16, ns);
      InitHelperSafe(Model(), i, freq, u16, ns);
      if freq > 0 {
        var _ := FreqSet(i, freq);
      }
      if u16 >= 0 {
        DutySetU16(i, u16);
      } else if ns >= 0 {
        DutySetNs(i, ns);
      }
    }

    /** mp_machine_pwm_make_new; `start` is what pwmout_init leaves if a new channel is taken. */
    method MakeNew(pin: int, start: Start, freq: int, u16: int, ns: int) returns (r: Option<PwmError>, i: nat)
      requires Valid() && Possible(Model(), Make(pin, start, freq, u16, ns))
      modifies channels, `prescaler, `hardware, `reload, `bumps
      ensures Valid() && Model() == Step(old(Model()), Make(pin, start, freq, u16, ns))
      ensures r.Some? <==> Refused(old(channels[..]), pin)
      ensures r.Some? ==> r.value == if pin < FIRST_PIN then BadPin else AllChannelsInUse
      ensures r.Some? ==> Model() == old(Model())
      ensures r.None? ==> i < CHANNELS && channels[i].active && channels[i].pin == pin
      ensures r.None? ==>
        var before := if old(channels[i].active) then old(channels[i]) else NewChannel(pin, start);
        AsAsked(before, channels[i], freq, u16, ns)
    {
      hide InitHelper, Safe, AsAsked;
      ghost var before := Model();
      SafeChannels(before);
      StepSafe(before, Make(pin, start, freq, u16, ns));
      BindSafe(before, pin, start);
      i := 0;
      if pin < FIRST_PIN {
        return Some(BadPin), 0;
      }
      i := FindPin(pin);
      if i == channels.Length {
        i := AllocChannel();
        if i == channels.Length {
          return Some(AllChannelsInUse), 0;
        }
        channels[i] := Channel(true, pin, start.period, Some(start.pulse), Some(start.compare));
        reload := start.reload;
      }
      assert Model() == Bind(before, pin, start);
      ghost var bound := Model();
      InitArgs(i, freq, u16, ns);
      InitKeepsPin(bound, i, freq, u16, ns);
      r := None;
    }

    /** mp_machine_pwm_deinit. */
    method Deinit(i: nat)
      requires Valid() && i < CHANNELS
      modifies channels
      ensures Valid() && Model() == Step(old(Model()), Event.Deinit(i)) && !channels[i].active
      ensures forall j :: 0 <= j < CHANNELS && j != i ==> channels[j] == old(channels[j])
    {
      hide Safe;
      SafeChannels(Model());
      StepSafe(Model(), Event.Deinit(i));
      if channels[i].active {
        channels[i] := channels[i].(active := false);
      }
    }

    /** machine_pwm_deinit_all, on soft reset. */
    method DeinitAll()
      requires Valid()
      modifies channels
      ensures Valid() && Model() == Step(old(Model()), SoftReset)
      ensures forall j :: 0 <= j < CHANNELS ==> !channels[j].active
    {
      StepSafe(Model(), SoftReset);
      assert channels.Length == CHANNELS;
      hide Safe, Sound, Timed;
      ghost var before := channels[..];
      for k := 0 to channels.Length
        invariant forall j :: 0 <= j < k ==> channels[j] == before[j].(active := false)
        invariant forall j :: k <= j < CHANNELS ==> channels[j] == before[j]
      {
        if channels[k].active {
          channels[k] := channels[k].(active := false);
        }
      }
      assert channels[..] == Released(before);
    }
  }

  lemma NoFreq(s: State, i: nat, freq: int)
    requires i < |s.channels| && freq <= 0
    ensures SetFreq(s, i, freq) == s
  {
  }

  lemma SettingIs(freq: int, period: int, prescaler: nat)
    requires 0 < freq
    requires var ticks := U32(MICROS / freq * CLOCK_MHZ);
      var wanted := if ticks > TOP then ticks / TOP else 0;
      if wanted > 0xFF then prescaler == 0xFF && period == LONGEST
      else prescaler == wanted && period == MICROS / freq
    ensures Choose(freq) == Setting(period, prescaler)
  {
  }

  lemma SetFreqParts(s: State, i: nat, freq: int)
    requires i < |s.channels| && 0 < freq
    ensures var q := Choose(freq);
      var own := PeriodUs(Locked(s, q.prescaler), i, q.period);
      SetFreq(s, i, freq) == own.(channels := Retimed(own.channels, s.channels, i, q.period, own.prescaler))
  {
    hide Choose, PeriodUs, Retimed;
  }
}
