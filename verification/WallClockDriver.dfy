/** The wall-clock system calls as the port executes them on their two statics. */
module WallClockDriver {
  import opened Prelude
  import opened WallClock

  class Clocks {
    var baseMs: nat
    var baseTickMs: nat
    ghost var seen: Clock

    ghost predicate Valid()
      reads this
    {
      && baseMs == seen.base
      && baseTickMs == seen.tick
      && Accounted(seen)
    }

    constructor ()
      ensures Valid() && seen == BOOT
    {
      baseMs, baseTickMs := 0, 0;
      seen := BOOT;
    }

    /** wall_clock_now_ms; `first` and `second` are the moments of its two counter reads. */
    method NowMs(first: nat, second: nat) returns (now: nat)
      requires Valid() && Possible(seen, Read(first, second))
      modifies this
      ensures Valid() && seen == Step(old(seen), Read(first, second))
      ensures now == Now(old(seen), first)
      ensures old(baseMs) <= now <= seen.given + (first - seen.setAt)
    {
      StepAccounted(seen, Read(first, second));
      ReadDoesNotGoBack(seen, first, second);
      assert Run(seen, []) == seen;
      NeverAhead(seen, [], first, second);
      var elapsed := U32(U32(first) - baseTickMs);
      now := U64(baseMs + elapsed);
      baseMs := now;
      baseTickMs := U32(second);
      seen := Step(seen, Read(first, second));
    }

    /** _gettimeofday. */
    method GetTimeOfDay(first: nat, second: nat) returns (tv: TimeVal)
      requires Valid() && Possible(seen, Read(first, second))
      modifies this
      ensures Valid() && seen == Step(old(seen), Read(first, second))
      ensures Join(tv) == Now(old(seen), first) && tv.usec < 1000000 && tv.usec % 1000 == 0
    {
      var now := NowMs(first, second);
      SplitLosesNothing(now);
      tv := TimeVal(now / 1000, now % 1000 * 1000);
    }

    /** _settimeofday; `at` is the moment of its counter read. */
    method SetTimeOfDay(tv: TimeVal, at: nat)
      requires Valid() && Possible(seen, Write(tv, at))
      modifies this
      ensures Valid() && seen == Step(old(seen), Write(tv, at))
    {
      baseMs := U64(tv.sec * 1000 + tv.usec / 1000);
      baseTickMs := U32(at);
      seen := Step(seen, Write(tv, at));
    }
  }
}
