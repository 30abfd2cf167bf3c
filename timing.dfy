/**
 * The compile-time timing arithmetic of the receiver: the timer-0 reload value
 * that makes one tick last about 100 microseconds (99.75 exactly), and the watchdog timeout
 * derived from the feed interval.  Every quantity is evaluated by the C
 * preprocessor and compiler in (long) integer arithmetic, so each division
 * truncates; the functions below keep that truncation.
 */
module Timing {
  import opened Types

  const McuCrystalFrequencyInHz: nat := 16 * 1000 * 1000
  const ClockNumberPerMachineCycle: nat := 12

  const FeedDogIntervalInMs: nat := 500
  const PrintTimeIntervalInMs: nat := 1000

  const OneMilliSecInUs: nat := 1000
  const MiniTimeScaleInUs: nat := 100

  /**
   * Number of timer interrupts that make up one millisecond, the quotient
   * `ONE_MILLI_SEC_IN_US / MINI_TIME_SCALE_IN_US` (see `TicksPerMsIsQuotient`);
   * written as its value so that the clock proofs divide by a literal.
   */
  const TicksPerMs: nat := 10

  lemma TicksPerMsIsQuotient()
    ensures TicksPerMs == OneMilliSecInUs / MiniTimeScaleInUs
    ensures TicksPerMs * MiniTimeScaleInUs == OneMilliSecInUs
  {
  }

  /** Frequency of the low-frequency clock that drives the watchdog. */
  const WatchdogClockHz: nat := 32768
  /** The watchdog counts its init argument in units of this many 32 kHz cycles. */
  const WatchdogPrescaler: nat := 256

  /**
   * Machine cycles that fit in `scaleUs` microseconds, computed the way the
   * reload expression does: divide by the cycle divisor, scale to cycles per
   * millisecond, multiply by the tick length and divide by 1000, truncating at
   * every division.  Truncation can only make the tick shorter than asked.
   */
  function CyclesPerTick(freqHz: nat, clocksPerCycle: nat, scaleUs: nat): (r: nat)
    requires clocksPerCycle > 0
    ensures r * clocksPerCycle * 1_000_000 <= freqHz * scaleUs
  {
    var perSecond := freqHz / clocksPerCycle;
    var perMs := perSecond / 1000;
    var r := perMs * scaleUs / 1000;
    CyclesPerTickBound(freqHz, clocksPerCycle, scaleUs, perSecond, perMs, r);
    r
  }

  lemma CyclesPerTickBound(freqHz: nat, clocksPerCycle: nat, scaleUs: nat, perSecond: nat, perMs: nat, r: nat)
    requires clocksPerCycle > 0
    requires perSecond == freqHz / clocksPerCycle
    requires perMs == perSecond / 1000
    requires r == perMs * scaleUs / 1000
    ensures r * clocksPerCycle * 1_000_000 <= freqHz * scaleUs
  {
    assert r * 1000 <= perMs * scaleUs;
    assert perMs * 1000 <= perSecond;
    assert perSecond * clocksPerCycle <= freqHz;
    calc {
      r * clocksPerCycle * 1_000_000;
    ==
      (r * 1000) * (clocksPerCycle * 1000);
    <= { MulLeq(r * 1000, perMs * scaleUs, clocksPerCycle * 1000); }
      (perMs * 1000) * (scaleUs * clocksPerCycle);
    <= { MulLeq(perMs * 1000, perSecond, scaleUs * clocksPerCycle); }
      (perSecond * clocksPerCycle) * scaleUs;
    <= { MulLeq(perSecond * clocksPerCycle, freqHz, scaleUs); }
      freqHz * scaleUs;
    }
  }

  lemma MulLeq(a: nat, b: nat, c: nat)
    requires a <= b
    ensures a * c <= b * c
  {
  }

  /** The value the source stores in `timer0_overflow_counter` inside `timer0_init`. */
  function MachineCyclesPerTick(): (r: uint8)
    ensures r == 133
    ensures r * ClockNumberPerMachineCycle * 1_000_000 <= McuCrystalFrequencyInHz * MiniTimeScaleInUs
  {
    CyclesPerTick(McuCrystalFrequencyInHz, ClockNumberPerMachineCycle, MiniTimeScaleInUs)
  }

  /**
   * The 8-bit reload register value `0x100 - cycles`.  In auto-reload mode the
   * timer counts up from the reload value and overflows at 0x100, so a
   * non-zero cycle count is exactly the number of cycles between interrupts.
   */
  function TimerReload(cycles: uint8): (r: uint8)
    ensures cycles > 0 ==> 0x100 - r == cycles
    ensures cycles == 0 ==> r == 0
  {
    (0x100 - cycles) % 0x100
  }

  /**
   * Truncated tick count still spans at least 99% of the requested 100
   * microseconds; it lasts exactly 99.75 microseconds, so the millisecond clock,
   * which counts ten ticks, runs 0.25% fast.
   */
  lemma TickPeriodWithinOnePercent()
    ensures var clocks := MachineCyclesPerTick() * ClockNumberPerMachineCycle;
      clocks * 1_000_000 <= McuCrystalFrequencyInHz * MiniTimeScaleInUs &&
      clocks * 1_000_000 * 100 >= McuCrystalFrequencyInHz * MiniTimeScaleInUs * 99 &&
      clocks * 100_000_000 == McuCrystalFrequencyInHz * 9975
    ensures TimerReload(MachineCyclesPerTick()) == 123
  {
  }

  /** `WDOG_TIMEOUT_IN_SEC`: three feed intervals, truncated to whole seconds. */
  function WatchdogTimeoutInSec(feedIntervalMs: nat): (r: nat)
    ensures r * 1000 <= 3 * feedIntervalMs < (r + 1) * 1000
  {
    3 * feedIntervalMs / 1000
  }

  /** The argument of `hal_wdog_init` for a timeout of `seconds`. */
  function WatchdogInitArgument(seconds: nat): (r: nat)
    ensures r == seconds * (WatchdogClockHz / WatchdogPrescaler)
  {
    seconds * WatchdogClockHz / WatchdogPrescaler
  }

  /** The timeout, in milliseconds, the watchdog applies for init argument `arg` (arg * 256 / 32768 s). */
  function WatchdogTimeoutInMs(arg: nat): nat
  {
    arg * WatchdogPrescaler * 1000 / WatchdogClockHz
  }

  /** Initialising the watchdog with the argument computed for `seconds` gives exactly that timeout. */
  lemma WatchdogArgumentRoundTrip(seconds: nat)
    ensures WatchdogTimeoutInMs(WatchdogInitArgument(seconds)) == seconds * 1000
  {
    var arg := WatchdogInitArgument(seconds);
    assert arg * WatchdogPrescaler * 1000 == (seconds * 1000) * WatchdogClockHz;
  }

  /**
   * The configured watchdog: 3 * 500 / 1000 truncates to 1 second, so the
   * init argument is 128; the resulting 1000 ms timeout still exceeds the
   * 500 ms feed interval, and 128 fits the 16-bit parameter.
   */
  lemma ConfiguredWatchdog()
    ensures WatchdogTimeoutInSec(FeedDogIntervalInMs) == 1
    ensures WatchdogInitArgument(WatchdogTimeoutInSec(FeedDogIntervalInMs)) == 128
    ensures WatchdogInitArgument(WatchdogTimeoutInSec(FeedDogIntervalInMs)) < 0x1_0000
    ensures WatchdogTimeoutInMs(WatchdogInitArgument(WatchdogTimeoutInSec(FeedDogIntervalInMs))) == 1000
    ensures WatchdogTimeoutInMs(WatchdogInitArgument(WatchdogTimeoutInSec(FeedDogIntervalInMs))) > FeedDogIntervalInMs
  {
    WatchdogArgumentRoundTrip(1);
  }
}
