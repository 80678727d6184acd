/**
 The wall clock: a 64-bit millisecond count re-based, on every access, on a
 32-bit tick counter that wraps about every 49.7 days.  An access reads the
 counter twice, at two moments that need not be the same.
 */
module WallClock {
  import opened Prelude

  const TWO_64 := 0x1_0000_0000_0000_0000

  function U64(x: int): (r: nat)
    ensures r < TWO_64
  {
    x % TWO_64
  }

  /**
   `base` and `tick` are the two statics.  The rest only observes: `time` is
   the true moment `tick` was read, `given` and `setAt` the value and moment of
   the last settimeofday(), `gaps` the time that passed between the two counter
   reads of each access since, `wraps` the whole counter periods between accesses.
   */
  datatype Clock = Clock(base: nat, tick: nat, time: nat, given: nat, setAt: nat, gaps: nat, wraps: nat)

  const BOOT := Clock(0, 0, 0, 0, 0, 0, 0)

  /** wall_clock_now_ms, its first counter read happening at `at`. */
  function Now(c: Clock, at: nat): nat {
    U64(c.base + U32(U32(at) - c.tick))
  }

  datatype TimeVal = TimeVal(sec: nat, usec: nat)

  function Split(ms: nat): TimeVal {
    TimeVal(ms / 1000, ms % 1000 * 1000)
  }

  function Join(tv: TimeVal): nat {
    U64(tv.sec * 1000 + tv.usec / 1000)
  }

  datatype Event =
    | Read(first: nat, second: nat)  // the moments of the two counter reads
    | Write(tv: TimeVal, at: nat)

  /** Moments follow one another, and the 64-bit count itself is not exhausted. */
  predicate Possible(c: Clock, e: Event) {
    match e
    case Read(first, second) => c.time <= first <= second && c.given + first < TWO_64
    case Write(tv, at) => c.time <= at
  }

  function Step(c: Clock, e: Event): Clock {
    if !Possible(c, e) then c
    else
      match e
      case Read(first, second) =>
        c.(base := Now(c, first), tick := U32(second), time := second,
        gaps := c.gaps + (second - first), wraps := c.wraps + (first - c.time) / TWO_32)
      case Write(tv, at) => Clock(Join(tv), U32(at), at, Join(tv), at, 0, 0)
  }

  function Run(c: Clock, events: seq<Event>): Clock
    decreases |events|
  {
    if events == [] then c else Step(Run(c, events[..|events| - 1]), events[|events| - 1])
  }

  /** The count is the value set plus the time since, less the gaps and whole counter periods. */
  predicate Accounted(c: Clock) {
    && c.tick == U32(c.time) && c.setAt <= c.time
    && c.base == c.given + (c.time - c.setAt) - c.gaps - TWO_32 * c.wraps
  }

  /** One access, across any number of counter wraps. */
  lemma NowAdvances(c: Clock, at: nat)
    requires c.tick == U32(c.time) && c.time <= at
    ensures Now(c, at) == U64(c.base + (at - c.time) % TWO_32)
  {
    var a, b := at, c.time;
    assert (a % TWO_32 - b % TWO_32) % TWO_32 == (a - b) % TWO_32 by {
      assert a == TWO_32 * (a / TWO_32) + a % TWO_32;
      assert b == TWO_32 * (b / TWO_32) + b % TWO_32;
      ModShift(a % TWO_32 - b % TWO_32, a / TWO_32 - b / TWO_32);
    }
  }

  lemma ModShift(x: int, k: int)
    ensures (x + TWO_32 * k) % TWO_32 == x % TWO_32
  {
  }

  lemma StepAccounted(c: Clock, e: Event)
    requires Accounted(c)
    ensures Accounted(Step(c, e))
  {
    if Possible(c, e) && e.Read? {
      NowAdvances(c, e.first);
      var g := e.first - c.time;
      assert g == TWO_32 * (g / TWO_32) + g % TWO_32;
    }
  }

  /**
   Main result: over any sequence of reads and sets, across counter wraps, the
   clock is behind true time by exactly the gaps inside the accesses since the
   last set, plus 2^32 ms for every whole counter period between two accesses.
   */
  lemma {:induction false} AlwaysAccounted(c: Clock, events: seq<Event>)
    requires Accounted(c)
    ensures Accounted(Run(c, events))
    decreases |events|
  {
    if events != [] {
      AlwaysAccounted(c, events[..|events| - 1]);
      StepAccounted(Run(c, events[..|events| - 1]), events[|events| - 1]);
    }
  }

  /** The time a read reports is never ahead of the time that truly passed since the set. */
  lemma NeverAhead(c: Clock, events: seq<Event>, first: nat, second: nat)
    requires Accounted(c) && Possible(Run(c, events), Read(first, second))
    ensures var v := Run(c, events); Now(v, first) <= v.given + (first - v.setAt)
  {
    hide Now;
    var v := Run(c, events);
    AlwaysAccounted(c, events);
    hide Run;
    NowAdvances(v, first);
    var g := first - v.time;
    assert g % TWO_32 <= g;
  }

  predicate ReadsOnly(events: seq<Event>) {
    forall e | e in events :: e.Read?
  }

  lemma {:induction false} BaseMonotone(c: Clock, events: seq<Event>)
    requires Accounted(c) && ReadsOnly(events)
    ensures c.base <= Run(c, events).base
    ensures Run(c, events).given == c.given && Run(c, events).setAt == c.setAt
    decreases |events|
  {
    if events != [] {
      var before := events[..|events| - 1];
      var last := events[|events| - 1];
      BaseMonotone(c, before);
      AlwaysAccounted(c, before);
      var v := Run(c, before);
      if Possible(v, last) {
        assert last.Read?;
        ReadDoesNotGoBack(v, last.first, last.second);
      }
    }
  }

  lemma ReadDoesNotGoBack(c: Clock, first: nat, second: nat)
    requires Accounted(c) && Possible(c, Read(first, second))
    ensures c.base <= Now(c, first)
  {
    hide Now;
    NowAdvances(c, first);
    var g := first - c.time;
    assert 0 <= g % TWO_32 <= g;
  }

  /** Between two settings of the clock, no read reports less than a read before it. */
  lemma ReadsAreMonotone(c: Clock, earlier: Event, events: seq<Event>, later: Event)
    requires Accounted(c) && earlier.Read? && later.Read? && ReadsOnly(events)
    requires Possible(c, earlier) && Possible(Run(Step(c, earlier), events), later)
    ensures Now(c, earlier.first) <= Now(Run(Step(c, earlier), events), later.first)
  {
    var v := Step(c, earlier);
    StepAccounted(c, earlier);
    BaseMonotone(v, events);
    AlwaysAccounted(v, events);
    ReadDoesNotGoBack(Run(v, events), later.first, later.second);
  }

  ghost predicate AllPossible(c: Clock, events: seq<Event>)
    decreases |events|
  {
    events == [] ||
    var before, last := events[..|events| - 1], events[|events| - 1];
    AllPossible(c, before) && last.Read? && Possible(Run(c, before), last)
  }

  /** Every read of the run comes less than a counter period after the access before it. */
  ghost predicate Prompt(c: Clock, events: seq<Event>)
    decreases |events|
  {
    events == [] ||
    var before, last := events[..|events| - 1], events[|events| - 1];
    Prompt(c, before) && last.Read? && last.first - Run(c, before).time < TWO_32
  }

  lemma {:induction false} NoWrapsIffPrompt(c: Clock, events: seq<Event>)
    requires AllPossible(c, events)
    ensures c.wraps <= Run(c, events).wraps
    ensures Run(c, events).wraps == c.wraps <==> Prompt(c, events)
    decreases |events|
  {
    if events != [] {
      NoWrapsIffPrompt(c, events[..|events| - 1]);
      var v := Run(c, events[..|events| - 1]);
      var g := events[|events| - 1].first - v.time;
      assert 0 <= g && (g / TWO_32 == 0 <==> g < TWO_32);
    }
  }

  lemma {:induction false} PossibleReads(c: Clock, events: seq<Event>)
    requires AllPossible(c, events)
    ensures ReadsOnly(events)
    decreases |events|
  {
    if events != [] {
      PossibleReads(c, events[..|events| - 1]);
      assert events == events[..|events| - 1] + [events[|events| - 1]];
    }
  }

  /**
   The exact condition: reads after a set are behind by the gaps alone if and
   only if every access came within a counter period of the one before it.
   Re-basing on every access does not help a clock nobody looks at for 49.7 days.
   */
  lemma BehindByGapsIffPrompt(c: Clock, tv: TimeVal, at: nat, events: seq<Event>)
    requires Possible(c, Write(tv, at)) && AllPossible(Step(c, Write(tv, at)), events)
    ensures var w := Step(c, Write(tv, at)); var v := Run(w, events);
      && v.given == Join(tv) && v.setAt == at
      && (v.base == Join(tv) + (v.time - at) - v.gaps <==> Prompt(w, events))
  {
    var w := Step(c, Write(tv, at));
    assert Accounted(w);
    PossibleReads(w, events);
    BaseMonotone(w, events);
    AlwaysAccounted(w, events);
    NoWrapsIffPrompt(w, events);
  }

  lemma RunSnoc(c: Clock, events: seq<Event>, e: Event)
    ensures Run(c, events + [e]) == Step(Run(c, events), e)
  {
    assert (events + [e])[..|events|] == events;
  }

  /** n reads, each one millisecond after the last and one millisecond long. */
  function Polls(from: nat, n: nat): seq<Event> {
    if n == 0 then [] else Polls(from, n - 1) + [Read(from + n - 1, from + n)]
  }

  /** A read that straddles a tick: the time between its two counter reads is lost. */
  lemma PollLosesGap(c: Clock, at: nat)
    requires c.base == 0 && c.given == 0 && c.time == at && c.tick == U32(at) && at < TWO_64
    ensures var v := Step(c, Read(at, at + 1));
      v.base == 0 && v.given == 0 && v.time == at + 1 && v.tick == U32(at + 1)
  {
    hide U32;
    assert U32(at) - c.tick == 0;
    ZeroWraps();
  }

  lemma ZeroWraps()
    ensures U32(0) == 0 && U64(0) == 0
  {
  }

  /** Why reading twice matters: n reads that straddle a tick each leave the clock n ms behind. */
  lemma {:induction false} PollingLosesTime(at: nat, n: nat)
    requires at + n < TWO_64
    ensures var v := Run(Step(BOOT, Write(TimeVal(0, 0), at)), Polls(at, n));
      v.time == at + n && v.base == 0 && v.given == 0 && v.tick == U32(at + n)
  {
    hide Run, U32, U64, Polls;
    var c := Step(BOOT, Write(TimeVal(0, 0), at));
    PollsIs(at, n);
    if n == 0 {
      ZeroWraps();
      NoEvents(c);
    } else {
      hide Step;
      PollingLosesTime(at, n - 1);
      RunSnoc(c, Polls(at, n - 1), Read(at + n - 1, at + n));
      PollLosesGap(Run(c, Polls(at, n - 1)), at + n - 1);
    }
  }

  lemma NoEvents(c: Clock)
    ensures Run(c, []) == c
  {
  }

  lemma PollsIs(from: nat, n: nat)
    ensures Polls(from, n) == if n == 0 then [] else Polls(from, n - 1) + [Read(from + n - 1, from + n)]
  {
  }

  /** Nothing is lost between seconds and microseconds: what was read can be set back. */
  lemma SplitLosesNothing(ms: nat)
    requires ms < TWO_64
    ensures Join(Split(ms)) == ms && Split(ms).usec < 1000000
  {
  }

  /** A value that is set and read at the same tick comes back cut to whole milliseconds. */
  lemma SetThenGet(c: Clock, tv: TimeVal, at: nat)
    requires c.time <= at && tv.usec < 1000000 && tv.sec < TWO_64 / 1000
    ensures Split(Now(Step(c, Write(tv, at)), at)) == TimeVal(tv.sec, tv.usec - tv.usec % 1000)
  {
    var v := Step(c, Write(tv, at));
    NowAdvances(v, at);
    assert Now(v, at) == tv.sec * 1000 + tv.usec / 1000;
  }
}
