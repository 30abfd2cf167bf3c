/**
 * The timer-0 interrupt handler as a pure step on the state it owns: the
 * private sub-millisecond overflow counter, the 32-bit millisecond clock and
 * the two coalescing maintenance flags it sets.
 */
module Clock {
  import opened Types
  import opened Timing

  /**
   * `counter` is the handler's `static uint8_t timer0_overflow_counter`;
   * `feedWatchdog` and `printTime` are `g_is_need_to_feed_the_watchdog` and
   * `g_is_need_to_print_time`, which only ever hold 0 or 1.
   */
  datatype ClockState = ClockState(counter: uint8, elapsedMs: uint32, feedWatchdog: bool, printTime: bool)

  /** The state the program starts in: every global and the static counter are zero. */
  const Boot: ClockState := ClockState(0, 0, false, false)

  /** The boundary test of lines 103 and 106: an exact multiple of the interval. */
  predicate OnBoundary(ms: uint32, intervalMs: nat)
    requires intervalMs > 0
  {
    ms % intervalMs == 0
  }

  /** One interrupt (lines 94-107). */
  function Tick(s: ClockState): (r: ClockState)
    // the counter, whatever its value, is below one millisecond's worth of ticks afterwards
    ensures r.counter < TicksPerMs
    // the clock advances by at most one millisecond, wrapping at 2^32
    ensures r.elapsedMs == s.elapsedMs || r.elapsedMs == (s.elapsedMs + 1) % Uint32Modulus
    // the handler never clears a flag
    ensures s.feedWatchdog ==> r.feedWatchdog
    ensures s.printTime ==> r.printTime
    // a flag is raised only by a new millisecond value on its boundary
    ensures r.feedWatchdog && !s.feedWatchdog ==> r.elapsedMs != s.elapsedMs && OnBoundary(r.elapsedMs, FeedDogIntervalInMs)
    ensures r.printTime && !s.printTime ==> r.elapsedMs != s.elapsedMs && OnBoundary(r.elapsedMs, PrintTimeIntervalInMs)
  {
    var counter := (s.counter + 1) % 0x100;
    if TicksPerMs <= counter then
      var ms := (s.elapsedMs + 1) % Uint32Modulus;
      ClockState(0, ms,
                 s.feedWatchdog || OnBoundary(ms, FeedDogIntervalInMs),
                 s.printTime || OnBoundary(ms, PrintTimeIntervalInMs))
    else
      s.(counter := counter)
  }

  /** `n` interrupts in a row, with no dispatcher pass in between. */
  function Ticks(s: ClockState, n: nat): ClockState
    decreases n
  {
    if n == 0 then s else Tick(Ticks(s, n - 1))
  }

  /** The step law: a tick that completes a millisecond resets the counter and
      sets exactly the flags whose boundary the new value is on; any other tick
      only increments the counter. */
  lemma TickStep(s: ClockState)
    requires s.counter < TicksPerMs
    ensures var r := Tick(s);
      if s.counter + 1 == TicksPerMs then
        r.counter == 0 && r.elapsedMs == (s.elapsedMs + 1) % Uint32Modulus &&
        (r.feedWatchdog <==> s.feedWatchdog || r.elapsedMs % FeedDogIntervalInMs == 0) &&
        (r.printTime <==> s.printTime || r.elapsedMs % PrintTimeIntervalInMs == 0)
      else
        r == s.(counter := s.counter + 1)
  {
  }

  /** Any tick that raises the print flag raises (or finds) the feed flag, since 1000 is a multiple of 500. */
  lemma PrintImpliesFeed(s: ClockState)
    ensures Tick(s).printTime && !s.printTime ==> Tick(s).feedWatchdog
  {
    var r := Tick(s);
    if r.printTime && !s.printTime {
      SecondIsTwoHalves(r.elapsedMs);
    }
  }

  lemma SecondIsTwoHalves(ms: nat)
    requires ms % 1000 == 0
    ensures ms % 500 == 0
  {
    var q := ms / 1000;
    assert ms == (2 * q) * 500;
  }

  /** The 2^32 wrap lands on 0, a multiple of both intervals, so it raises both flags. */
  lemma WrapSetsBothFlags(s: ClockState)
    requires s.elapsedMs == Uint32Modulus - 1 && s.counter == TicksPerMs - 1
    ensures Tick(s).elapsedMs == 0 && Tick(s).feedWatchdog && Tick(s).printTime
  {
  }

  /** Whether one of the millisecond values e+1, ..., e+m (each taken mod 2^32) is on a boundary. */
  predicate Crossed(e: uint32, m: nat, intervalMs: nat)
    requires intervalMs > 0
    decreases m
  {
    m > 0 && (Crossed(e, m - 1, intervalMs) || OnBoundary((e + m) % Uint32Modulus, intervalMs))
  }

  lemma ModSucc(x: nat)
    ensures (x % Uint32Modulus + 1) % Uint32Modulus == (x + 1) % Uint32Modulus
  {
  }

  /** How one more tick moves the tick total's quotient and remainder by ten. */
  lemma TickTotalSucc(x: nat)
    ensures x % 10 == 9 ==> (x + 1) / 10 == x / 10 + 1 && (x + 1) % 10 == 0
    ensures x % 10 != 9 ==> (x + 1) / 10 == x / 10 && (x + 1) % 10 == x % 10 + 1
  {
  }

  /** Closed form of the counter and the clock after `n` ticks. */
  lemma {:induction false} TicksCounterAndClock(s: ClockState, n: nat)
    requires s.counter < TicksPerMs
    ensures Ticks(s, n).counter == (s.counter + n) % TicksPerMs
    ensures Ticks(s, n).elapsedMs == (s.elapsedMs + (s.counter + n) / TicksPerMs) % Uint32Modulus
    decreases n
  {
    if n > 0 {
      TicksCounterAndClock(s, n - 1);
      var t := Ticks(s, n - 1);
      var total := s.counter + n - 1;
      var ms := s.elapsedMs + total / 10;
      assert t.counter == total % 10 && t.elapsedMs == ms % Uint32Modulus;
      TickTotalSucc(total);
      TickStep(t);
      if t.counter + 1 == 10 {
        ModSucc(ms);
        assert (total + 1) / 10 == total / 10 + 1;
      } else {
        assert (total + 1) / 10 == total / 10;
      }
    }
  }

  /**
   * Closed form of `n` ticks from a state whose counter is in range: the
   * counter is the tick count mod 10, the clock has advanced by the number of
   * completed milliseconds (mod 2^32), and each flag is set exactly when it was
   * already set or one of the new millisecond values was on its boundary.
   */
  lemma TicksClosedForm(s: ClockState, n: nat)
    requires s.counter < TicksPerMs
    ensures var r := Ticks(s, n); var done := (s.counter + n) / TicksPerMs;
      r.counter == (s.counter + n) % TicksPerMs &&
      r.elapsedMs == (s.elapsedMs + done) % Uint32Modulus &&
      r.feedWatchdog == (s.feedWatchdog || Crossed(s.elapsedMs, done, FeedDogIntervalInMs)) &&
      r.printTime == (s.printTime || Crossed(s.elapsedMs, done, PrintTimeIntervalInMs))
  {
    TicksCounterAndClock(s, n);
    TicksFlags(s, n);
  }

  /** How one tick moves the flags, in terms of the milliseconds completed so far. */
  lemma TickFlags(s: ClockState, n: nat)
    requires s.counter < TicksPerMs && n > 0
    requires Ticks(s, n - 1).feedWatchdog == (s.feedWatchdog || Crossed(s.elapsedMs, (s.counter + n - 1) / TicksPerMs, FeedDogIntervalInMs))
    requires Ticks(s, n - 1).printTime == (s.printTime || Crossed(s.elapsedMs, (s.counter + n - 1) / TicksPerMs, PrintTimeIntervalInMs))
    ensures Ticks(s, n).feedWatchdog == (s.feedWatchdog || Crossed(s.elapsedMs, (s.counter + n) / TicksPerMs, FeedDogIntervalInMs))
    ensures Ticks(s, n).printTime == (s.printTime || Crossed(s.elapsedMs, (s.counter + n) / TicksPerMs, PrintTimeIntervalInMs))
  {
    TicksCounterAndClock(s, n - 1);
    var t := Ticks(s, n - 1);
    var total := s.counter + n - 1;
    var before := total / 10;
    TickTotalSucc(total);
    TickStep(t);
    var done := (total + 1) / 10;
    if t.counter + 1 == 10 {
      assert done == before + 1;
      ModSucc(s.elapsedMs + before);
      var ms := (s.elapsedMs + done) % Uint32Modulus;
      assert Tick(t).elapsedMs == ms;
      CrossedSucc(s.elapsedMs, done, FeedDogIntervalInMs);
      CrossedSucc(s.elapsedMs, done, PrintTimeIntervalInMs);
    } else {
      assert done == before;
    }
  }

  lemma CrossedSucc(e: uint32, m: nat, intervalMs: nat)
    requires intervalMs > 0 && m > 0
    ensures Crossed(e, m, intervalMs) == (Crossed(e, m - 1, intervalMs) || OnBoundary((e + m) % Uint32Modulus, intervalMs))
  {
  }

  lemma {:induction false} TicksFlags(s: ClockState, n: nat)
    requires s.counter < TicksPerMs
    ensures Ticks(s, n).feedWatchdog == (s.feedWatchdog || Crossed(s.elapsedMs, (s.counter + n) / TicksPerMs, FeedDogIntervalInMs))
    ensures Ticks(s, n).printTime == (s.printTime || Crossed(s.elapsedMs, (s.counter + n) / TicksPerMs, PrintTimeIntervalInMs))
    decreases n
  {
    if n == 0 {
      assert (s.counter + n) / TicksPerMs == 0;
    } else {
      TicksFlags(s, n - 1);
      TickFlags(s, n);
    }
  }

  /** From boot, after `n` ticks the counter is n mod 10 and the clock reads (n / 10) mod 2^32. */
  lemma TicksFromBoot(n: nat)
    ensures Ticks(Boot, n).counter == n % TicksPerMs
    ensures Ticks(Boot, n).elapsedMs == (n / TicksPerMs) % Uint32Modulus
  {
    TicksCounterAndClock(Boot, n);
  }

  /** A flag once set stays set across any number of ticks: repeated boundaries coalesce. */
  lemma TicksNeverClear(s: ClockState, n: nat)
    requires s.counter < TicksPerMs
    ensures s.feedWatchdog ==> Ticks(s, n).feedWatchdog
    ensures s.printTime ==> Ticks(s, n).printTime
  {
    TicksClosedForm(s, n);
  }

  /** Until the 2^32 wrap, the clock never runs backwards. */
  lemma TicksMonotone(s: ClockState, n: nat)
    requires s.counter < TicksPerMs
    requires s.elapsedMs + (s.counter + n) / TicksPerMs < Uint32Modulus
    ensures Ticks(s, n).elapsedMs == s.elapsedMs + (s.counter + n) / TicksPerMs
    ensures Ticks(s, n).elapsedMs >= s.elapsedMs
  {
    TicksCounterAndClock(s, n);
    SmallMod(s.elapsedMs + (s.counter + n) / TicksPerMs);
  }

  lemma SmallMod(x: nat)
    requires x < Uint32Modulus
    ensures x % Uint32Modulus == x
  {
  }

  lemma {:induction false} CrossedMonotone(e: uint32, m: nat, k: nat, intervalMs: nat)
    requires intervalMs > 0 && m <= k
    requires Crossed(e, m, intervalMs)
    ensures Crossed(e, k, intervalMs)
    decreases k - m
  {
    if m < k {
      CrossedMonotone(e, m, k - 1, intervalMs);
    }
  }

  /**
   * Every run of `intervalMs` consecutive millisecond values contains a
   * boundary, the 2^32 wrap included (the wrap lands on 0, which is one).
   */
  lemma CrossedWithinInterval(e: uint32, intervalMs: nat)
    requires intervalMs == FeedDogIntervalInMs || intervalMs == PrintTimeIntervalInMs
    ensures Crossed(e, intervalMs, intervalMs)
  {
    var j := intervalMs - e % intervalMs;
    if e + j < Uint32Modulus {
      assert (e + j) % Uint32Modulus == e + j;
      assert OnBoundary((e + j) % Uint32Modulus, intervalMs);
      CrossedMonotone(e, j, intervalMs, intervalMs);
    } else {
      var w: nat := Uint32Modulus - e;
      assert 0 < w <= j;
      assert (e + w) % Uint32Modulus == 0;
      assert OnBoundary((e + w) % Uint32Modulus, intervalMs);
      CrossedMonotone(e, w, intervalMs, intervalMs);
    }
  }

  /**
   * Whatever state the handler starts from, 5000 ticks (498.75 ms, which the
   * clock counts as 500 ms) later the feed flag is set, and 10000 ticks
   * (997.5 ms) later the print flag is set: no boundary can be skipped, the
   * wrap included.
   */
  lemma FlagsWithinInterval(s: ClockState)
    requires s.counter < TicksPerMs
    ensures Ticks(s, FeedDogIntervalInMs * TicksPerMs).feedWatchdog
    ensures Ticks(s, PrintTimeIntervalInMs * TicksPerMs).printTime
  {
    FlagWithinInterval(s, FeedDogIntervalInMs);
    FlagWithinInterval(s, PrintTimeIntervalInMs);
  }

  lemma FlagWithinInterval(s: ClockState, intervalMs: nat)
    requires s.counter < TicksPerMs
    requires intervalMs == FeedDogIntervalInMs || intervalMs == PrintTimeIntervalInMs
    ensures intervalMs == FeedDogIntervalInMs ==> Ticks(s, intervalMs * TicksPerMs).feedWatchdog
    ensures intervalMs == PrintTimeIntervalInMs ==> Ticks(s, intervalMs * TicksPerMs).printTime
  {
    var n := intervalMs * 10;
    var done := (s.counter + n) / 10;
    assert done == intervalMs;
    TicksClosedForm(s, n);
    CrossedWithinInterval(s.elapsedMs, intervalMs);
  }

  /**
   * The feed obligation arrives well inside the watchdog window: the 5000
   * ticks after which the feed flag is certainly set take 5000 * 133 machine
   * cycles of 12 oscillator clocks, less than the 1000 ms timeout configured
   * at start-up, measured in 16 MHz clocks.
   */
  lemma FeedDeadlineInsideWatchdogTimeout(s: ClockState)
    requires s.counter < TicksPerMs
    ensures Ticks(s, FeedDogIntervalInMs * TicksPerMs).feedWatchdog
    ensures var timeoutMs := WatchdogTimeoutInMs(WatchdogInitArgument(WatchdogTimeoutInSec(FeedDogIntervalInMs)));
      FeedDogIntervalInMs * TicksPerMs * MachineCyclesPerTick() * ClockNumberPerMachineCycle * 1000
        < timeoutMs * McuCrystalFrequencyInHz
  {
    FlagsWithinInterval(s);
    ConfiguredWatchdog();
  }
}
