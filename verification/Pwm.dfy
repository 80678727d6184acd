/**
 machine.PWM on the single-timer SoC: eight channels share one 40 MHz timer,
 its 16-bit reload and its 8-bit prescaler, of which the SDK keeps a software
 copy of its own.  Times are in microseconds; duty fractions and register
 values are reals, so rounding is left aside, and None is the NaN that a
 float division of zero by zero yields.
 */
module Pwm {
  import opened Prelude

  const CHANNELS := 8
  const CLOCK_MHZ := 40
  const FIRST_PIN := 6 // PA_6
  const TOP := 0x10000
  const LONGEST := (TOP * 256) / CLOCK_MHZ
  const MICROS := 1000000

  /** One entry of machine_pwm_obj[]; `compare` is the channel's raw compare register. */
  datatype Channel = Channel(active: bool, pin: int, period: int, pulse: Option<real>, compare: Option<real>) {
    /** pwmout_read. */
    function Duty(): Option<real> {
      if pulse.None? || period <= 0 then None else Some(pulse.value / period as real)
    }
  }

  /**
   `prescaler` is the SDK's global and `hardware` the timer's PSC register;
   `bumps` counts how often the SDK changed its global behind the driver's back.
   */
  datatype State = State(channels: seq<Channel>, prescaler: nat, hardware: nat, reload: real, bumps: nat)

  /** The timer ticks `micros` takes under a prescaler. */
  function Ticks(micros: real, prescaler: nat): real {
    micros * CLOCK_MHZ as real / (prescaler + 1) as real
  }

  function TicksOf(pulse: Option<real>, prescaler: nat): Option<real> {
    if pulse.None? then None else Some(Ticks(pulse.value, prescaler))
  }

  /** How long the hardware takes for that many ticks. */
  function Micros(ticks: real, prescaler: nat): real {
    ticks * (prescaler + 1) as real / CLOCK_MHZ as real
  }

  datatype Setting = Setting(period: nat, prescaler: nat)

  /** The prescaler for a period, whose tick count is a 32-bit unsigned product; too long a period is cut. */
  function Quantize(period: nat): Setting {
    var ticks := U32(period * CLOCK_MHZ);
    var prescaler := if ticks > TOP then ticks / TOP else 0;
    if prescaler > 0xFF then Setting(LONGEST, 0xFF) else Setting(period, prescaler)
  }

  /** The period and prescaler freq() chooses. */
  function Choose(freq: int): Setting
    requires 0 < freq
  {
    Quantize(MICROS / freq)
  }

  /** What freq() with no argument reports for a period. */
  function Reported(period: int): int {
    if 0 < period then MICROS / period else 0
  }

  /** The part of a period that a duty fraction stands for. */
  function Share(duty: real, period: int): real {
    duty * period as real
  }

  function ShareOf(duty: Option<real>, period: int): Option<real> {
    if duty.None? then None else Some(Share(duty.value, period))
  }

  /** pwmout_write: the duty fraction becomes a pulse and a compare value. */
  function Written(c: Channel, duty: Option<real>, prescaler: nat): Channel {
    var pulse := ShareOf(duty, c.period);
    c.(pulse := pulse, compare := TicksOf(pulse, prescaler))
  }

  /**
   pwmout_period_us: program the reload for the new period and re-apply the
   calling channel's duty.  A period that overflows the reload makes the SDK
   change its prescaler global, an eight-bit value, without telling the hardware.
   */
  function PeriodUs(s: State, i: nat, period: nat): State
    requires i < |s.channels|
  {
    var overflows := Ticks(period as real, s.prescaler) > TOP as real;
    var prescaler := if overflows then period * CLOCK_MHZ / TOP % 256 else s.prescaler;
    s.(
    channels := s.channels[i := Written(s.channels[i].(period := period), s.channels[i].Duty(), prescaler)],
    prescaler := prescaler,
    reload := Ticks(period as real, prescaler),
    bumps := s.bumps + if overflows then 1 else 0)
  }

  /** The prescaler is pushed to the hardware when it is not the SDK's already. */
  function Locked(s: State, prescaler: nat): State {
    if prescaler != s.prescaler then s.(prescaler := prescaler, hardware := prescaler) else s
  }

  /** Every other active channel goes to the new period with the duty it had before. */
  function Retimed(channels: seq<Channel>, before: seq<Channel>, i: nat, period: int, prescaler: nat): (r: seq<Channel>)
    requires |channels| == |before|
    ensures |r| == |channels|
  {
    seq(|channels|, j requires 0 <= j < |channels| =>
      if j != i && channels[j].active then Written(channels[j].(period := period), before[j].Duty(), prescaler)
      else channels[j])
  }

  /** freq(); a frequency that is not positive raises ValueError. */
  function SetFreq(s: State, i: nat, freq: int): (r: State)
    requires i < |s.channels|
    ensures |r.channels| == |s.channels|
  {
    if freq <= 0 then s
    else
      var q := Choose(freq);
      var own := PeriodUs(Locked(s, q.prescaler), i, q.period);
      own.(channels := Retimed(own.channels, s.channels, i, q.period, own.prescaler))
  }

  predicate Timed(c: Channel) {
    0 <= c.period <= LONGEST && (c.pulse.Some? ==> 0.0 <= c.pulse.value <= c.period as real)
  }

  predicate DistinctPins(channels: seq<Channel>) {
    forall i, j :: 0 <= i < j < |channels| && channels[i].active && channels[j].active ==>
                     channels[i].pin != channels[j].pin
  }

  /** A channel is timed, and while active it has a pin that supports PWM. */
  predicate Sound(c: Channel) {
    Timed(c) && (c.active ==> FIRST_PIN <= c.pin)
  }

  ghost predicate Safe(s: State) {
    && |s.channels| == CHANNELS
    && s.prescaler == s.hardware <= 0xFF
    && s.bumps == 0
    && DistinctPins(s.channels)
    && forall i :: 0 <= i < CHANNELS ==> Sound(s.channels[i])
  }

  lemma SafeChannels(s: State)
    requires Safe(s)
    ensures |s.channels| == CHANNELS
  {
  }

  // ---- arithmetic of the shared period -----------------------------------

  lemma MulMonotone(a: int, b: int, c: int)
    requires a <= b && 0 <= c
    ensures a * c <= b * c
  {
  }

  lemma RealMulMonotone(a: real, b: real, c: real)
    requires a < b && 0.0 < c
    ensures a * c < b * c
  {
  }

  lemma RealCancel(a: real, b: real, c: real)
    requires a * c <= b * c && 0.0 < c
    ensures a <= b
  {
    if b < a {
      RealMulMonotone(b, a, c);
    }
  }

  lemma DivMonotone(n: nat, a: int, b: int)
    requires 0 < a <= b
    ensures 0 <= n / b <= n / a
  {
    MulMonotone(a, b, n / b);
    if n / a < n / b {
      MulMonotone(n / a + 1, n / b, a);
    }
  }

  /** Both dividing steps of freq() leave a period the reload register can hold. */
  lemma TicksBound(period: nat, prescaler: nat)
    requires period * CLOCK_MHZ <= TOP * (prescaler + 1)
    ensures Ticks(period as real, prescaler) <= TOP as real
  {
    var p := (prescaler + 1) as real;
    assert (period * CLOCK_MHZ) as real <= (TOP * (prescaler + 1)) as real;
    assert (TOP * (prescaler + 1)) as real == TOP as real * p;
    assert (period * CLOCK_MHZ) as real == period as real * CLOCK_MHZ as real;
    var t := Ticks(period as real, prescaler);
    assert t * p <= TOP as real * p;
    RealCancel(t, TOP as real, p);
  }

  lemma QuantizeFits(period: nat)
    requires 0 <= period <= MICROS
    ensures var q := Quantize(period);
      && q.prescaler <= 0xFF && q.period * CLOCK_MHZ <= TOP * (q.prescaler + 1)
      && (0 < q.prescaler ==> TOP * q.prescaler <= q.period * CLOCK_MHZ)
      && q.period == if LONGEST < period then LONGEST else period
  {
    var ticks := period * CLOCK_MHZ;
    assert 0 <= ticks < TWO_32;
    assert TOP * (ticks / TOP) <= ticks < TOP * (ticks / TOP + 1);
  }

  lemma PeriodBounds(freq: int)
    requires 0 < freq <= MICROS
    ensures 1 <= MICROS / freq <= MICROS
  {
    DivMonotone(MICROS, 1, freq);
    DivMonotone(MICROS, freq, MICROS);
  }

  /**
   For every frequency the prescaler fits the eight-bit register, the period
   never needs more than the 0x10000 ticks the reload holds, and no smaller
   prescaler would leave room to spare.
   */
  lemma SettingFits(freq: int)
    requires 0 < freq
    ensures var q := Choose(freq);
      && 0 <= q.period <= LONGEST && q.prescaler <= 0xFF && Ticks(q.period as real, q.prescaler) <= TOP as real
      && (0 < q.prescaler ==> TOP as real <= Ticks(q.period as real, q.prescaler - 1))
  {
    hide Quantize, Ticks;
    if freq <= MICROS {
      PeriodBounds(freq);
    }
    QuantizeFits(MICROS / freq);
    TicksBound(Choose(freq).period, Choose(freq).prescaler);
    if 0 < Choose(freq).prescaler {
      TicksFill(Choose(freq).period, Choose(freq).prescaler - 1);
    }
  }

  /** A prescaler under which the period fills the reload. */
  lemma TicksFill(period: nat, prescaler: nat)
    requires TOP * (prescaler + 1) <= period * CLOCK_MHZ
    ensures TOP as real <= Ticks(period as real, prescaler)
  {
    var p := (prescaler + 1) as real;
    assert (TOP * (prescaler + 1)) as real == TOP as real * p;
    assert (period * CLOCK_MHZ) as real == period as real * CLOCK_MHZ as real;
    var t := Ticks(period as real, prescaler);
    assert TOP as real * p <= t * p;
    RealCancel(TOP as real, t, p);
  }

  /** Above 1 MHz, which freq() does not refuse, the period becomes zero; exactly then. */
  lemma PeriodPositiveIff(freq: int)
    requires 0 < freq
    ensures 0 < Choose(freq).period <==> freq <= MICROS
    ensures 0 <= Choose(freq).period
  {
    hide Quantize;
    if freq <= MICROS {
      PeriodBounds(freq);
    }
    QuantizeFits(MICROS / freq);
  }

  /** Only 1 Hz and 2 Hz are below the slowest rate the hardware can make. */
  lemma ClampedIff(freq: int)
    requires 0 < freq <= MICROS
    ensures Choose(freq).period == (if freq <= 2 then LONGEST else MICROS / freq)
    ensures LONGEST < MICROS / freq <==> freq <= 2
  {
    hide Quantize;
    PeriodBounds(freq);
    QuantizeFits(MICROS / freq);
    if 3 <= freq {
      DivMonotone(MICROS, 3, freq);
    } else {
      DivMonotone(MICROS, freq, 2);
    }
  }

  lemma DivDivDiv(n: int, f: int)
    requires 0 < f <= n
    ensures 0 < n / f && f <= n / (n / f) && n / (n / (n / f)) == n / f
  {
    var p := n / f;
    assert 1 <= p by { DivMonotone(n, f, n); assert n / n == 1; }
    assert p * f <= n;
    var g := n / p;
    if g < f {
      MulMonotone(g + 1, f, p);
    }
    DivMonotone(n, f, g);
    assert g * p <= n;
    if n / g < p {
      MulMonotone(n / g + 1, p, g);
    }
  }

  /** The floor of the range is reported as 2 Hz, which chooses it again. */
  lemma FloorIsFixed(freq: int)
    requires 1 <= freq <= 2
    ensures Reported(LONGEST) == 2 && Choose(freq) == Choose(2) && Choose(2).period == LONGEST
  {
    if freq == 1 {
      assert MICROS / 1 == 1000000 && MICROS / 2 == 500000;
      assert Quantize(1000000) == Quantize(500000);
    }
  }

  /**
   Round trip: writing back the frequency that freq() reports changes neither
   the period nor the prescaler, although both conversions truncate.
   */
  lemma WriteBackChangesNothing(freq: int)
    requires 0 < freq <= MICROS
    ensures var f := Reported(Choose(freq).period);
      0 < f <= MICROS && Choose(f) == Choose(freq)
  {
    ClampedIff(freq);
    hide Quantize;
    if freq <= 2 {
      FloorIsFixed(freq);
    } else {
      PeriodBounds(freq);
      DivDivDiv(MICROS, freq);
      PeriodBounds(MICROS / freq);
    }
  }

  /** The hardware makes the period the SDK computed ticks for if and only if the two prescalers agree. */
  lemma WirePeriodTrueIffLockStep(period: real, prescaler: nat, hardware: nat)
    requires 0.0 < period
    ensures Micros(Ticks(period, prescaler), hardware) == period <==> prescaler == hardware
  {
    var a, b := (prescaler + 1) as real, (hardware + 1) as real;
    var t := Ticks(period, prescaler);
    assert t * a == period * CLOCK_MHZ as real;
    RealCancel(0.0, t, a);
    if prescaler < hardware {
      RealMulMonotone(a, b, t);
    } else if hardware < prescaler {
      RealMulMonotone(b, a, t);
    }
  }

  /**
   Why the driver owns the prescaler: left to the SDK, one long period bumps
   the global for good, and every later short period on the wire is wrong.
   */
  lemma SdkAloneGoesStale(s: State, i: nat, long: int, period: int)
    requires i < |s.channels|
    requires s.prescaler == s.hardware == 0
    requires TOP < long * CLOCK_MHZ < TOP * 256 && 0 < period <= 1000
    ensures var v := PeriodUs(PeriodUs(s, i, long), i, period);
      0 < v.prescaler != v.hardware && Micros(v.reload, v.hardware) != period as real
  {
    hide Written, Channel.Duty;
    assert Ticks(long as real, 0) == (long * CLOCK_MHZ) as real;
    var v := PeriodUs(s, i, long);
    assert 0 < v.prescaler == long * CLOCK_MHZ / TOP < 256;
    assert period * CLOCK_MHZ <= TOP * (v.prescaler + 1);
    TicksBound(period, v.prescaler);
    WirePeriodTrueIffLockStep(period as real, v.prescaler, 0);
  }

  // ---- what one freq() does to every channel ------------------------------

  /** The channel's high time on the pin is its pulse. */
  predicate OnPin(c: Channel, hardware: nat) {
    && (c.compare.Some? <==> c.pulse.Some?)
    && (c.pulse.Some? ==> Micros(c.compare.value, hardware) == c.pulse.value)
  }

  lemma ScaleBack(duty: real, period: int)
    requires 0 < period
    ensures Share(duty, period) / period as real == duty
  {
  }

  lemma QuotientBounds(x: real, p: real)
    requires 0.0 <= x <= p && 0.0 < p
    ensures 0.0 <= x / p <= 1.0
  {
    var d := x / p;
    RealCancel(0.0, d, p);
    if 1.0 < d {
      RealMulMonotone(1.0, d, p);
    }
  }

  lemma DutyBounds(c: Channel)
    requires Timed(c) && c.Duty().Some?
    ensures 0.0 <= c.Duty().value <= 1.0
  {
    QuotientBounds(c.pulse.value, c.period as real);
  }

  lemma PulseBounds(duty: real, period: int)
    requires 0 <= period && 0.0 <= duty <= 1.0
    ensures 0.0 <= Share(duty, period) <= period as real
  {
    if 0 < period && duty < 1.0 {
      RealMulMonotone(duty, 1.0, period as real);
    }
  }

  lemma MicrosOfTicks(micros: real, prescaler: nat)
    ensures Micros(Ticks(micros, prescaler), prescaler) == micros
  {
  }

  /**
   A channel whose duty is rewritten under a period stays timed and shows its
   pulse on the pin; it reads back that duty if the period is not zero, and
   nothing if it is.
   */
  lemma WrittenTimed(c: Channel, period: int, duty: Option<real>, prescaler: nat)
    requires 0 <= period <= LONGEST && (duty.Some? ==> 0.0 <= duty.value <= 1.0)
    ensures var w := Written(c.(period := period), duty, prescaler);
      && Timed(w) && OnPin(w, prescaler) && w.period == period
      && w.Duty() == (if 0 < period then duty else None)
      && w.active == c.active && w.pin == c.pin
  {
    hide Ticks, Micros, Share;
    if duty.Some? {
      PulseBounds(duty.value, period);
      MicrosOfTicks(Share(duty.value, period), prescaler);
      if 0 < period {
        ScaleBack(duty.value, period);
      }
    }
  }

  function RetimedChannel(c: Channel, affected: bool, q: Setting): Channel {
    if affected then Written(c.(period := q.period), c.Duty(), q.prescaler) else c
  }

  /** The SDK's overflow branch is not taken: freq() in one piece. */
  lemma SetFreqIs(s: State, i: nat, freq: int)
    requires i < |s.channels| && 0 < freq && s.prescaler == s.hardware
    ensures var v := SetFreq(s, i, freq); var q := Choose(freq);
      && v.prescaler == v.hardware == q.prescaler && v.bumps == s.bumps
      && v.reload == Ticks(q.period as real, q.prescaler) && |v.channels| == |s.channels|
      && forall j :: 0 <= j < |s.channels| ==>
                  v.channels[j] == RetimedChannel(s.channels[j], j == i || s.channels[j].active, q)
  {
    hide Choose, Ticks, Written, Channel.Duty;
    SettingFits(freq);
  }

  /**
   Main result: after freq(), whichever channel it was called on, every active
   channel is on the new period, bookkeeping and pins alike; the two prescalers
   agree, the SDK changed nothing by itself, and up to 1 MHz every active
   channel has the duty it had before.
   */
  lemma FreqKeepsDuties(s: State, i: nat, freq: int)
    requires Safe(s) && i < CHANNELS && 0 < freq
    ensures var v := SetFreq(s, i, freq); var q := Choose(freq);
      && Safe(v) && Micros(v.reload, v.hardware) == q.period as real
      && forall j :: 0 <= j < CHANNELS && (j == i || s.channels[j].active) ==>
                  && v.channels[j].period == q.period && OnPin(v.channels[j], v.hardware)
                  && v.channels[j].Duty() == (if freq <= MICROS then s.channels[j].Duty() else None)
    ensures forall j :: 0 <= j < CHANNELS && j != i && !s.channels[j].active ==>
                          SetFreq(s, i, freq).channels[j] == s.channels[j]
    ensures forall j :: 0 <= j < CHANNELS ==>
                          && SetFreq(s, i, freq).channels[j].active == s.channels[j].active
                          && SetFreq(s, i, freq).channels[j].pin == s.channels[j].pin
  {
    hide Choose, Written, Ticks, Micros, Share, Channel.Duty, SetFreq;
    SettingFits(freq);
    PeriodPositiveIff(freq);
    SetFreqIs(s, i, freq);
    var q := Choose(freq);
    var v := SetFreq(s, i, freq);
    MicrosOfTicks(q.period as real, q.prescaler);
    forall j | 0 <= j < CHANNELS && (j == i || s.channels[j].active)
      ensures
        && Timed(v.channels[j]) && v.channels[j].period == q.period && OnPin(v.channels[j], q.prescaler)
        && v.channels[j].Duty() == (if freq <= MICROS then s.channels[j].Duty() else None)
        && v.channels[j].active == s.channels[j].active && v.channels[j].pin == s.channels[j].pin
    {
      assert Sound(s.channels[j]);
      if s.channels[j].Duty().Some? {
        DutyBounds(s.channels[j]);
      }
      WrittenTimed(s.channels[j], q.period, s.channels[j].Duty(), q.prescaler);
    }
  }

  /** freq() keeps the duty of an active channel if and only if it asks for at most 1 MHz, or there is none to lose. */
  lemma DutyKeptIff(s: State, i: nat, freq: int, j: nat)
    requires Safe(s) && i < CHANNELS && j < CHANNELS && 0 < freq && (j == i || s.channels[j].active)
    ensures SetFreq(s, i, freq).channels[j].Duty() == s.channels[j].Duty()
      <==> freq <= MICROS || s.channels[j].Duty().None?
  {
    hide SetFreq, Channel.Duty;
    FreqKeepsDuties(s, i, freq);
  }

  /** What one frequency above 1 MHz has lost, no later frequency brings back. */
  lemma LostDutyStaysLost(s: State, i: nat, freq: int, j: nat)
    requires Safe(s) && i < CHANNELS && j < CHANNELS && s.channels[j].Duty().None?
    ensures SetFreq(s, i, freq).channels[j].Duty().None?
  {
    if 0 < freq {
      hide SetFreq, Channel.Duty;
      FreqKeepsDuties(s, i, freq);
    }
  }

  // ---- channels, duty cycles and whole runs -------------------------------

  /** machine_pwm_find_by_pin from entry `from` on; CHANNELS when no active channel has the pin. */
  function FindByPin(channels: seq<Channel>, pin: int, from: nat): (i: nat)
    requires from <= |channels|
    ensures from <= i <= |channels|
    ensures i < |channels| ==> channels[i].active && channels[i].pin == pin
    ensures forall j :: from <= j < i ==> !(channels[j].active && channels[j].pin == pin)
    decreases |channels| - from
  {
    if from == |channels| || (channels[from].active && channels[from].pin == pin) then from
    else FindByPin(channels, pin, from + 1)
  }

  /** machine_pwm_alloc_channel from entry `from` on. */
  function FirstFree(channels: seq<Channel>, from: nat): (i: nat)
    requires from <= |channels|
    ensures from <= i <= |channels|
    ensures i < |channels| ==> !channels[i].active
    ensures forall j :: from <= j < i ==> channels[j].active
    decreases |channels| - from
  {
    if from == |channels| || !channels[from].active then from else FirstFree(channels, from + 1)
  }

  /** What pwmout_init leaves in a new channel and in the shared reload; it touches neither prescaler. */
  datatype Start = Start(period: int, pulse: real, compare: real, reload: real)

  /** The entry PWM(pin) works on: the pin's own, else the first free one, else none. */
  function Chosen(channels: seq<Channel>, pin: int): (i: nat)
    ensures i <= |channels|
  {
    var held := FindByPin(channels, pin, 0);
    if held < |channels| then held else FirstFree(channels, 0)
  }

  predicate Refused(channels: seq<Channel>, pin: int) {
    pin < FIRST_PIN || Chosen(channels, pin) == |channels|
  }

  function NewChannel(pin: int, start: Start): Channel {
    Channel(true, pin, start.period, Some(start.pulse), Some(start.compare))
  }

  /** The constructor before its keyword arguments: a held pin is reused as it is. */
  function Bind(s: State, pin: int, start: Start): (r: State)
    ensures |r.channels| == |s.channels|
  {
    if Refused(s.channels, pin) then s
    else
      var i := Chosen(s.channels, pin);
      if s.channels[i].active then s
      else s.(channels := s.channels[i := NewChannel(pin, start)], reload := start.reload)
  }

  /** PWM(pin) fails exactly for pins that cannot do PWM and when all channels drive other pins. */
  lemma RefusedIff(channels: seq<Channel>, pin: int)
    ensures Refused(channels, pin) <==>
            || pin < FIRST_PIN
            || forall j :: 0 <= j < |channels| ==> channels[j].active && channels[j].pin != pin
  {
  }

  /** A second PWM(pin) finds the channel that drives the pin and takes no other. */
  lemma SecondMakeReuses(s: State, j: nat, start: Start)
    requires Safe(s) && j < CHANNELS && s.channels[j].active
    ensures var pin := s.channels[j].pin;
      !Refused(s.channels, pin) && Chosen(s.channels, pin) == j && Bind(s, pin, start) == s
  {
    assert Sound(s.channels[j]);
  }

  /** pwmout_write under a 16-bit duty clamped to 0..65535. */
  function SetU16(s: State, i: nat, duty: int): (r: State)
    requires i < |s.channels|
    ensures |r.channels| == |s.channels|
  {
    var clamped := if duty < 0 then 0 else if duty > 65535 then 65535 else duty;
    s.(channels := s.channels[i := Written(s.channels[i], Some(clamped as real / 65535.0), s.prescaler)])
  }

  /** The whole microseconds duty_ns() hands to pwmout_pulsewidth_us, in 32-bit arithmetic. */
  function PulseUs(period: int, ns: int): int {
    var wanted := if ns < 0 then 0 else ns;
    var most := U32(period * 1000);
    (if U32(wanted) > most then most else wanted) / 1000
  }

  function SetNs(s: State, i: nat, ns: int): (r: State)
    requires i < |s.channels|
    ensures |r.channels| == |s.channels|
  {
    var pulse := Some(PulseUs(s.channels[i].period, ns) as real);
    s.(channels := s.channels[i := s.channels[i].(pulse := pulse, compare := TicksOf(pulse, s.prescaler))])
  }

  /** duty_ns() cuts at the period, whatever 32-bit value it is given. */
  lemma PulseUsIsCut(period: int, ns: int)
    requires 0 <= period <= LONGEST && ns < 0x8000_0000
    ensures PulseUs(period, ns) == if ns < 0 then 0 else Min(ns / 1000, period)
  {
  }

  datatype Event =
    | Make(pin: int, start: Start, freq: int, u16: int, ns: int) // PWM(pin, freq=, duty_u16=, duty_ns=)
    | Init(i: nat, freq: int, u16: int, ns: int)
    | Freq(i: nat, freq: int)
    | DutyU16(i: nat, duty: int)
    | DutyNs(i: nat, ns: int)
    | Deinit(i: nat)
    | SoftReset

  /** The keyword arguments; negative stands for one that was not given. */
  function InitHelper(s: State, i: nat, freq: int, u16: int, ns: int): (r: State)
    requires i < |s.channels|
    ensures |r.channels| == |s.channels|
  {
    var t := if 0 < freq then SetFreq(s, i, freq) else s;
    if 0 <= u16 then SetU16(t, i, u16) else if 0 <= ns then SetNs(t, i, ns) else t
  }

  function Released(channels: seq<Channel>): (r: seq<Channel>)
    ensures |r| == |channels|
  {
    seq(|channels|, j requires 0 <= j < |channels| => channels[j].(active := false))
  }

  /** Objects are entries of the table, integers have 32 bits, and a new channel starts within the timer's range. */
  predicate Possible(s: State, e: Event) {
    && |s.channels| == CHANNELS
    && match e
       case Make(pin, start, freq, u16, ns) => ns < 0x8000_0000 && Timed(NewChannel(pin, start))
       case Init(i, freq, u16, ns) => i < CHANNELS && ns < 0x8000_0000
       case Freq(i, freq) => i < CHANNELS
       case DutyU16(i, duty) => i < CHANNELS
       case DutyNs(i, ns) => i < CHANNELS && ns < 0x8000_0000
       case Deinit(i) => i < CHANNELS
       case SoftReset => true
  }

  function Step(s: State, e: Event): State {
    if !Possible(s, e) then s
    else
      match e
      case Make(pin, start, freq, u16, ns) =>
        if Refused(s.channels, pin) then s
        else InitHelper(Bind(s, pin, start), Chosen(s.channels, pin), freq, u16, ns)
      case Init(i, freq, u16, ns) => InitHelper(s, i, freq, u16, ns)
      case Freq(i, freq) => SetFreq(s, i, freq)
      case DutyU16(i, duty) => SetU16(s, i, duty)
      case DutyNs(i, ns) => SetNs(s, i, ns)
      case Deinit(i) => s.(channels := s.channels[i := s.channels[i].(active := false)])
      case SoftReset => s.(channels := Released(s.channels))
  }

  function Run(s: State, events: seq<Event>): State
    decreases |events|
  {
    if events == [] then s else Step(Run(s, events[..|events| - 1]), events[|events| - 1])
  }

  /** All active channels are on one period, and pins show what the bookkeeping says. */
  ghost predicate SharedPeriod(s: State, period: int) {
    && Micros(s.reload, s.hardware) == period as real
    && forall j :: 0 <= j < |s.channels| && s.channels[j].active ==>
         s.channels[j].period == period && OnPin(s.channels[j], s.hardware)
  }

  ghost predicate Agree(s: State) {
    exists period :: SharedPeriod(s, period)
  }

  lemma FreqSafe(s: State, i: nat, freq: int)
    requires Safe(s) && i < CHANNELS
    ensures Safe(SetFreq(s, i, freq))
    ensures 0 < freq || Agree(s) ==> Agree(SetFreq(s, i, freq))
  {
    if 0 < freq {
      hide Choose, Micros, OnPin, SetFreq;
      FreqKeepsDuties(s, i, freq);
      assert SharedPeriod(SetFreq(s, i, freq), Choose(freq).period);
    }
  }

  /** Rewriting one channel's pulse, consistently, keeps everything. */
  lemma DutySafe(s: State, i: nat, c: Channel)
    requires Safe(s) && i < CHANNELS && Timed(c) && OnPin(c, s.prescaler)
    requires c.active == s.channels[i].active && c.pin == s.channels[i].pin && c.period == s.channels[i].period
    ensures var v := s.(channels := s.channels[i := c]); Safe(v) && (Agree(s) ==> Agree(v))
  {
    hide OnPin, Timed, Micros;
    var v := s.(channels := s.channels[i := c]);
    forall j | 0 <= j < CHANNELS ensures Sound(v.channels[j]) {
      assert Sound(s.channels[j]);
    }
    if Agree(s) {
      var period :| SharedPeriod(s, period);
      assert SharedPeriod(v, period);
    }
  }

  function Fraction(duty: int): real {
    (if duty < 0 then 0 else if duty > 65535 then 65535 else duty) as real / 65535.0
  }

  lemma U16Channel(c: Channel, duty: int, prescaler: nat)
    requires Timed(c)
    ensures var w := Written(c, Some(Fraction(duty)), prescaler);
      && Timed(w) && OnPin(w, prescaler) && w.active == c.active && w.pin == c.pin && w.period == c.period
      && w.Duty() == (if 0 < c.period then Some(Fraction(duty)) else None)
  {
    QuotientBounds((if duty < 0 then 0 else if duty > 65535 then 65535 else duty) as real, 65535.0);
    WrittenTimed(c, c.period, Some(Fraction(duty)), prescaler);
    hide Fraction, Written, OnPin, Timed, Channel.Duty;
    assert c.(period := c.period) == c;
  }

  /** What duty_u16() reports; None stands for the conversion of a NaN. */
  function ReportedU16(c: Channel): Option<int> {
    if c.Duty().None? then None else Some((c.Duty().value * 65535.0).Floor)
  }

  lemma FractionBack(duty: int)
    ensures (Fraction(duty) * 65535.0).Floor == if duty < 0 then 0 else if duty > 65535 then 65535 else duty
  {
    var clamped := if duty < 0 then 0 else if duty > 65535 then 65535 else duty;
    assert Fraction(duty) * 65535.0 == clamped as real;
  }

  /**
   duty_u16(d) sets the duty of this channel to d / 65535, d cut to 0..65535,
   and of no other; duty_u16() reports the cut value.  Only a channel whose
   period is zero takes no duty.
   */
  lemma DutyU16Is(s: State, i: nat, duty: int)
    requires Safe(s) && i < CHANNELS
    ensures var v := SetU16(s, i, duty); var c := s.channels[i];
      && v.channels[i].Duty() == (if 0 < c.period then Some(Fraction(duty)) else None)
      && (0 < c.period ==>
            ReportedU16(v.channels[i]) == Some(if duty < 0 then 0 else if duty > 65535 then 65535 else duty))
      && v == s.(channels := v.channels) == Step(s, DutyU16(i, duty))
      && (forall j :: 0 <= j < CHANNELS && j != i ==> v.channels[j] == s.channels[j])
  {
    ChannelSound(s, i);
    U16Channel(s.channels[i], duty, s.prescaler);
    FractionBack(duty);
    hide Safe, Written, Channel.Duty;
  }

  lemma U16Safe(s: State, i: nat, duty: int)
    requires Safe(s) && i < CHANNELS
    ensures var v := SetU16(s, i, duty); Safe(v) && (Agree(s) ==> Agree(v))
  {
    hide Safe, Agree, OnPin, Written;
    assert Sound(s.channels[i]) by { ChannelSound(s, i); }
    U16Channel(s.channels[i], duty, s.prescaler);
    DutySafe(s, i, Written(s.channels[i], Some(Fraction(duty)), s.prescaler));
  }

  lemma ChannelSound(s: State, i: nat)
    requires Safe(s) && i < CHANNELS
    ensures |s.channels| == CHANNELS && Sound(s.channels[i])
  {
  }

  lemma NsSafe(s: State, i: nat, ns: int)
    requires Safe(s) && i < CHANNELS && ns < 0x8000_0000
    ensures var v := SetNs(s, i, ns); Safe(v) && (Agree(s) ==> Agree(v))
  {
    hide Safe, Agree, PulseUs, Ticks, Micros;
    ChannelSound(s, i);
    var c := s.channels[i];
    PulseUsIsCut(c.period, ns);
    var pulse := PulseUs(c.period, ns) as real;
    MicrosOfTicks(pulse, s.prescaler);
    DutySafe(s, i, c.(pulse := Some(pulse), compare := TicksOf(Some(pulse), s.prescaler)));
  }

  lemma InitHelperSafe(s: State, i: nat, freq: int, u16: int, ns: int)
    requires Safe(s) && i < CHANNELS && ns < 0x8000_0000
    ensures var v := InitHelper(s, i, freq, u16, ns);
      Safe(v) && (0 < freq || Agree(s) ==> Agree(v))
  {
    hide SetFreq, SetU16, SetNs, Agree, Safe;
    SafeChannels(s);
    FreqSafe(s, i, freq);
    var t := if 0 < freq then SetFreq(s, i, freq) else s;
    if 0 <= u16 {
      U16Safe(t, i, u16);
    } else if 0 <= ns {
      NsSafe(t, i, ns);
    }
  }

  lemma BindSafe(s: State, pin: int, start: Start)
    requires Safe(s) && Timed(NewChannel(pin, start))
    ensures Safe(Bind(s, pin, start))
    ensures !Refused(s.channels, pin) ==>
              var i := Chosen(s.channels, pin);
              var v := Bind(s, pin, start);
              v.channels[i].active && v.channels[i].pin == pin
  {
    if !Refused(s.channels, pin) {
      var v := Bind(s, pin, start);
      forall j | 0 <= j < CHANNELS ensures Sound(v.channels[j]) {
        assert Sound(s.channels[j]);
      }
    }
  }

  /** Channel `before` after the keyword arguments; those that were not given are negative. */
  predicate AsAsked(before: Channel, after: Channel, freq: int, u16: int, ns: int) {
    && after.period == (if 0 < freq then Choose(freq).period else before.period)
    && (0 <= u16 && 0 < after.period ==> after.Duty() == Some(Fraction(u16)))
    && (u16 < 0 <= ns ==> after.pulse == Some(Min(ns / 1000, after.period) as real))
    && (u16 < 0 && ns < 0 && freq <= MICROS ==> after.Duty() == before.Duty())
  }

  /**
   The keyword arguments take effect in the order frequency, then duty, and
   duty_u16 goes before duty_ns; other channels see the frequency alone.
   */
  lemma ArgumentsApplied(s: State, i: nat, freq: int, u16: int, ns: int)
    requires Safe(s) && i < CHANNELS && ns < 0x8000_0000
    ensures var v := InitHelper(s, i, freq, u16, ns);
      && v == Step(s, Init(i, freq, u16, ns))
      && AsAsked(s.channels[i], v.channels[i], freq, u16, ns)
      && forall j :: 0 <= j < CHANNELS && j != i ==>
           v.channels[j] == if 0 < freq then SetFreq(s, i, freq).channels[j] else s.channels[j]
  {
    hide Safe, SetFreq, SetU16, Choose, Channel.Duty, Fraction, PulseUs;
    SafeChannels(s);
    if 0 < freq { FreqKeepsDuties(s, i, freq); }
    FreqSafe(s, i, freq);
    var t := if 0 < freq then SetFreq(s, i, freq) else s;
    ChannelSound(t, i);
    DutyU16Is(t, i, u16);
    U16Channel(t.channels[i], u16, t.prescaler);
    SetU16Period(t, i, u16);
    PulseUsIsCut(t.channels[i].period, ns);
  }

  lemma SetU16Period(s: State, i: nat, duty: int)
    requires i < |s.channels|
    ensures SetU16(s, i, duty).channels[i].period == s.channels[i].period
  {
  }

  predicate OnlySlowFreqs(events: seq<Event>) {
    forall e | e in events :: e.Freq? && e.freq <= MICROS
  }

  /** A duty once set is kept over any number of frequency changes up to 1 MHz, made on whichever channels. */
  lemma {:induction false} DutyOutlivesFreqs(s: State, events: seq<Event>, j: nat)
    requires Safe(s) && j < CHANNELS && OnlySlowFreqs(events)
    ensures Safe(Run(s, events)) && Run(s, events).channels[j].Duty() == s.channels[j].Duty()
    decreases |events|
  {
    hide Safe, SetFreq, Channel.Duty, Choose;
    SafeChannels(s);
    AlwaysSafe(s, events);
    SafeChannels(Run(s, events));
    if events != [] {
      var front, e := events[..|events| - 1], events[|events| - 1];
      assert e in events;
      DutyOutlivesFreqs(s, front, j);
      var v := Run(s, front);
      SafeChannels(v);
      if Possible(v, e) && 0 < e.freq {
        FreqKeepsDuties(v, e.i, e.freq);
      } else {
        NoFreqNoChange(v, e);
      }
    }
  }

  lemma NoFreqNoChange(s: State, e: Event)
    requires e.Freq? && (e.freq <= 0 || !Possible(s, e))
    ensures Step(s, e) == s
  {
  }

  /**
   deinit() of an active channel switches off that one alone and frees its
   pin: no active channel drives the pin, and there is a channel for it.
   */
  lemma DeinitFreesPin(s: State, i: nat)
    requires Safe(s) && i < CHANNELS && s.channels[i].active
    ensures var v := Step(s, Deinit(i)); var pin := s.channels[i].pin;
      && !v.channels[i].active
      && (forall j :: 0 <= j < CHANNELS && j != i ==> v.channels[j] == s.channels[j])
      && FindByPin(v.channels, pin, 0) == CHANNELS && FirstFree(v.channels, 0) <= i && !Refused(v.channels, pin)
      && v == s.(channels := v.channels)
  {
    assert Sound(s.channels[i]);
  }

  /** A soft reset switches off every channel and keeps the timer as it is. */
  lemma ResetFreesAll(s: State, pin: int)
    requires |s.channels| == CHANNELS
    ensures var v := Step(s, SoftReset);
      && (forall j :: 0 <= j < CHANNELS ==> v.channels[j] == s.channels[j].(active := false))
      && (Refused(v.channels, pin) <==> pin < FIRST_PIN)
      && v == s.(channels := v.channels)
  {
    var v := Step(s, SoftReset);
    assert !v.channels[0].active;
  }

  /** Keyword arguments change no channel's pin and switch none on or off. */
  lemma InitKeepsPin(s: State, i: nat, freq: int, u16: int, ns: int)
    requires i < |s.channels|
    ensures var v := InitHelper(s, i, freq, u16, ns);
      forall j :: 0 <= j < |s.channels| ==>
        v.channels[j].active == s.channels[j].active && v.channels[j].pin == s.channels[j].pin
  {
    hide Choose, Ticks, Share;
  }

  /** Switching channels off, and nothing else, keeps everything. */
  lemma ReleaseSafe(s: State, channels: seq<Channel>)
    requires Safe(s) && |channels| == CHANNELS
    requires forall j :: 0 <= j < CHANNELS ==>
                           channels[j] == s.channels[j] || channels[j] == s.channels[j].(active := false)
    ensures var v := s.(channels := channels); Safe(v) && (Agree(s) ==> Agree(v))
  {
    hide OnPin, Micros;
    var v := s.(channels := channels);
    forall j | 0 <= j < CHANNELS ensures Sound(v.channels[j]) {
      assert Sound(s.channels[j]);
    }
    if Agree(s) {
      var period :| SharedPeriod(s, period);
      assert SharedPeriod(v, period);
    }
  }

  lemma StepSafe(s: State, e: Event)
    requires Safe(s)
    ensures Safe(Step(s, e))
    ensures Agree(s) && !TakesChannelUntimed(s, e) ==> Agree(Step(s, e))
  {
    hide Safe, Agree, InitHelper, SetFreq, SetU16, SetNs;
    SafeChannels(s);
    if Possible(s, e) {
      match e {
        case Make(pin, start, freq, u16, ns) =>
          BindSafe(s, pin, start);
          if !Refused(s.channels, pin) {
            InitHelperSafe(Bind(s, pin, start), Chosen(s.channels, pin), freq, u16, ns);
          }
        case Init(i, freq, u16, ns) => InitHelperSafe(s, i, freq, u16, ns);
        case Freq(i, freq) => FreqSafe(s, i, freq);
        case DutyU16(i, duty) => U16Safe(s, i, duty);
        case DutyNs(i, ns) => NsSafe(s, i, ns);
        case Deinit(i) => ReleaseSafe(s, s.channels[i := s.channels[i].(active := false)]);
        case SoftReset => ReleaseSafe(s, Released(s.channels));
      }
    }
  }

  /**
   Main result: in every run of constructions, freq(), duty and deinit calls,
   at any frequencies, the SDK's prescaler is the hardware's, fits eight bits
   and was never changed by the SDK itself; active channels have distinct pins
   that support PWM, and no pulse is longer than its period.
   */
  lemma {:induction false} AlwaysSafe(s: State, events: seq<Event>)
    requires Safe(s)
    ensures Safe(Run(s, events))
    decreases |events|
  {
    hide Step, Safe;
    if events != [] {
      AlwaysSafe(s, events[..|events| - 1]);
      StepSafe(Run(s, events[..|events| - 1]), events[|events| - 1]);
    }
  }

  // ---- when the channels agree --------------------------------------------

  /** A new channel is taken and given no frequency: it keeps the period the SDK started it with. */
  predicate TakesChannelUntimed(s: State, e: Event) {
    && e.Make? && e.freq <= 0 && Possible(s, e)
    && !Refused(s.channels, e.pin) && !s.channels[Chosen(s.channels, e.pin)].active
  }

  /** The SDK's start shows on the timer, and on the pin unless a duty argument rewrites it. */
  predicate StartShows(s: State, e: Event)
    requires e.Make?
  {
    && Micros(e.start.reload, s.hardware) == e.start.period as real
    && (0 <= e.u16 || 0 <= e.ns || Micros(e.start.compare, s.hardware) == e.start.pulse)
  }

  /** Every channel that was active is on the new channel's period. */
  predicate SamePeriod(s: State, e: Event)
    requires e.Make?
  {
    forall j :: 0 <= j < |s.channels| && s.channels[j].active ==> s.channels[j].period == e.start.period
  }

  predicate PinsShow(s: State) {
    forall j :: 0 <= j < |s.channels| && s.channels[j].active ==> OnPin(s.channels[j], s.hardware)
  }

  /** The channel an untimed construction leaves behind. */
  lemma UntimedMakeIs(s: State, e: Event)
    requires Safe(s) && TakesChannelUntimed(s, e)
    ensures var i := Chosen(s.channels, e.pin); var v := Step(s, e);
      && i < CHANNELS == |v.channels| && v.hardware == s.hardware && v.reload == e.start.reload
      && (forall j :: 0 <= j < CHANNELS && j != i ==> v.channels[j] == s.channels[j])
      && v.channels[i].active && v.channels[i].period == e.start.period
      && (OnPin(v.channels[i], s.hardware) <==>
          0 <= e.u16 || 0 <= e.ns || Micros(e.start.compare, s.hardware) == e.start.pulse)
  {
    var i := Chosen(s.channels, e.pin);
    var b := Bind(s, e.pin, e.start);
    var c := NewChannel(e.pin, e.start);
    assert b.channels[i] == c;
    U16Channel(c, e.u16, s.prescaler);
    var pulse := PulseUs(c.period, e.ns) as real;
    MicrosOfTicks(pulse, s.prescaler);
    hide Ticks, Micros, PulseUs, Written, Timed;
  }

  /**
   The exact condition for a new channel without a frequency: the channels
   agree afterwards if and only if the SDK's starting period is that of all
   active ones and shows on the timer, and every pin shows its pulse.
   */
  lemma UntimedMakeAgreesIff(s: State, e: Event)
    requires Safe(s) && TakesChannelUntimed(s, e)
    ensures Agree(Step(s, e)) <==> StartShows(s, e) && SamePeriod(s, e) && PinsShow(s)
  {
    hide Step, Safe, OnPin, Micros, Possible, Refused;
    SafeChannels(s);
    UntimedMakeIs(s, e);
    var i := Chosen(s.channels, e.pin);
    var v := Step(s, e);
    if Agree(v) {
      var period :| SharedPeriod(v, period);
      assert v.channels[i].period == period;
      forall j | 0 <= j < |s.channels| && s.channels[j].active
        ensures s.channels[j].period == e.start.period && OnPin(s.channels[j], s.hardware)
      {
        assert v.channels[j] == s.channels[j];
      }
    }
    if StartShows(s, e) && SamePeriod(s, e) && PinsShow(s) {
      assert SharedPeriod(v, e.start.period);
    }
  }

  /** An event that ends the agreement. */
  predicate Spoils(s: State, e: Event) {
    TakesChannelUntimed(s, e) && !(StartShows(s, e) && SamePeriod(s, e))
  }

  lemma StepAgreesIff(s: State, e: Event)
    requires Safe(s) && Agree(s)
    ensures Agree(Step(s, e)) <==> !Spoils(s, e)
  {
    hide Step, Safe, TakesChannelUntimed, StartShows, SamePeriod;
    if TakesChannelUntimed(s, e) {
      AgreePinsShow(s);
      UntimedMakeAgreesIff(s, e);
    } else {
      StepSafe(s, e);
    }
  }

  lemma AgreePinsShow(s: State)
    requires Agree(s)
    ensures PinsShow(s)
  {
    hide OnPin, Micros;
  }

  ghost predicate AgreeThroughout(s: State, events: seq<Event>)
    decreases |events|
  {
    Agree(Run(s, events)) && (events == [] || AgreeThroughout(s, events[..|events| - 1]))
  }

  predicate NoneSpoils(s: State, events: seq<Event>)
    decreases |events|
  {
    events == [] ||
    var front, e := events[..|events| - 1], events[|events| - 1];
    NoneSpoils(s, front) && !Spoils(Run(s, front), e)
  }

  /**
   From any reachable state, one freq() makes all active channels agree on the
   period, bookkeeping and pins alike, and they agree at every later moment if
   and only if no event takes a new channel whose start does not fit in.
   */
  lemma {:induction false} ChannelsAgreeAfterFreq(s: State, i: nat, freq: int, events: seq<Event>)
    requires Safe(s) && i < CHANNELS && 0 < freq
    ensures AgreeThroughout(Step(s, Freq(i, freq)), events) <==> NoneSpoils(Step(s, Freq(i, freq)), events)
    decreases |events|
  {
    hide Agree, Spoils, SetFreq, Safe;
    SafeChannels(s);
    var t := Step(s, Freq(i, freq));
    FreqSafe(s, i, freq);
    if events != [] {
      var front := events[..|events| - 1];
      ChannelsAgreeAfterFreq(s, i, freq, front);
      hide Step;
      AlwaysSafe(t, front);
      if AgreeThroughout(t, front) {
        StepAgreesIff(Run(t, front), events[|events| - 1]);
      }
    }
  }

  const INITIAL := State(seq(CHANNELS, _ => Channel(false, 0, 0, Some(0.0), Some(0.0))), 0, 0, 0.0, 0)

  lemma InitialSafe()
    ensures Safe(INITIAL)
  {
  }
}
