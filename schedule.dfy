/**
 * The receiver as a whole: timer interrupts interleaved with dispatcher
 * passes, each interrupt taken as one atomic step between passes.
 */
module Schedule {
  import opened Types
  import opened Timing
  import opened Clock
  import opened Format
  import opened Dispatcher

  /** One step of the program: the timer interrupt fires, or `run_event_loop` runs once. */
  datatype Activity = Interrupt | Dispatch(rx: Option<Packet>)

  predicate ValidActivity(a: Activity)
  {
    a.Dispatch? ==> ValidAnswer(a.rx)
  }

  predicate ValidSchedule(acts: seq<Activity>)
  {
    forall i :: 0 <= i < |acts| ==> ValidActivity(acts[i])
  }

  function Step(r: PassResult, a: Activity): (r': PassResult)
    requires ValidActivity(a)
    // calls are only added, and an interrupt makes none
    ensures |r'.events| >= |r.events|
    ensures a.Interrupt? ==> r'.events == r.events
    // the counter and the clock change only on an interrupt
    ensures a.Dispatch? ==> r'.clock.counter == r.clock.counter && r'.clock.elapsedMs == r.clock.elapsedMs
  {
    match a
    case Interrupt => PassResult(Tick(r.clock), r.events)
    case Dispatch(rx) =>
      var p := Pass(r.clock, rx);
      PassResult(p.clock, r.events + p.events)
  }

  /** The shared state and the collaborator calls after running `acts` from `s`. */
  function Run(s: ClockState, acts: seq<Activity>): (r: PassResult)
    requires ValidSchedule(acts)
    // the counter stays below a millisecond's worth
    ensures s.counter < TicksPerMs ==> r.clock.counter < TicksPerMs
  {
    if acts == [] then PassResult(s, [])
    else Step(Run(s, acts[..|acts| - 1]), acts[|acts| - 1])
  }

  /** Number of interrupts in a schedule. */
  function Interrupts(acts: seq<Activity>): nat
  {
    if acts == [] then 0
    else Interrupts(acts[..|acts| - 1]) + (if acts[|acts| - 1].Interrupt? then 1 else 0)
  }

  /** Number of passes in which the radio had a packet. */
  function PacketsOffered(acts: seq<Activity>): nat
  {
    if acts == [] then 0
    else PacketsOffered(acts[..|acts| - 1]) + (if acts[|acts| - 1].Dispatch? && acts[|acts| - 1].rx.Some? then 1 else 0)
  }

  lemma FrontSchedule(acts: seq<Activity>)
    requires ValidSchedule(acts) && acts != []
    ensures ValidSchedule(acts[..|acts| - 1]) && ValidActivity(acts[|acts| - 1])
  {
    var front := acts[..|acts| - 1];
    forall i | 0 <= i < |front| ensures ValidActivity(front[i]) { assert front[i] == acts[i]; }
  }

  /**
   * The dispatcher never writes the clock: whatever passes are interleaved,
   * the counter and the millisecond clock are those of the interrupts alone.
   */
  lemma {:induction false} RunClock(s: ClockState, acts: seq<Activity>)
    requires ValidSchedule(acts) && s.counter < TicksPerMs
    ensures Run(s, acts).clock.counter == Ticks(s, Interrupts(acts)).counter
    ensures Run(s, acts).clock.elapsedMs == Ticks(s, Interrupts(acts)).elapsedMs
    decreases |acts|
  {
    if acts != [] {
      var front := acts[..|acts| - 1];
      assert ValidSchedule(front) by {
        forall i | 0 <= i < |front| ensures ValidActivity(front[i]) { assert front[i] == acts[i]; }
      }
      RunClock(s, front);
      var before := Run(s, front);
      var n := Interrupts(front);
      match acts[|acts| - 1]
      case Interrupt =>
        assert Interrupts(acts) == n + 1;
        TickIgnoresFlags(before.clock, Ticks(s, n));
      case Dispatch(rx) =>
        assert Interrupts(acts) == n;
    }
  }

  /** What a tick does to the counter and clock does not depend on the flags. */
  lemma TickIgnoresFlags(a: ClockState, b: ClockState)
    requires a.counter == b.counter && a.elapsedMs == b.elapsedMs
    ensures Tick(a).counter == Tick(b).counter && Tick(a).elapsedMs == Tick(b).elapsedMs
  {
  }

  /** From boot, after any schedule with `n` interrupts the clock reads (n / 10) mod 2^32. */
  lemma RunFromBoot(acts: seq<Activity>)
    requires ValidSchedule(acts)
    ensures Run(Boot, acts).clock.counter < TicksPerMs
    ensures Run(Boot, acts).clock.elapsedMs == (Interrupts(acts) / TicksPerMs) % Uint32Modulus
  {
    RunClock(Boot, acts);
    TicksFromBoot(Interrupts(acts));
  }

  /**
   * Over any run, every packet offered by the radio is fetched once and
   * released once: fetches, releases and offered packets are equal in
   * number, and each fetch follows a "ready" poll and precedes its release.
   */
  lemma RunFetchRelease(s: ClockState, acts: seq<Activity>)
    requires ValidSchedule(acts)
    ensures Occurrences(Run(s, acts).events, IsFetch) == PacketsOffered(acts)
    ensures Occurrences(Run(s, acts).events, IsRelease) == PacketsOffered(acts)
    ensures FetchesPaired(Run(s, acts).events)
    ensures Occurrences(Run(s, acts).events, IsHeader) == PacketsOffered(acts)
    ensures Render(Run(s, acts).events, TraceText) == TraceLines(OfferedPackets(acts))
  {
    RunFetchAccount(s, acts);
    RunTraceLines(s, acts);
  }

  /** The packets the radio offered over a schedule, in order. */
  function OfferedPackets(acts: seq<Activity>): (ps: seq<Packet>)
    requires ValidSchedule(acts)
    ensures |ps| == PacketsOffered(acts)
    ensures forall i :: 0 <= i < |ps| ==> FitsBuffer(ps[i])
  {
    if acts == [] then []
    else
      var front, a := acts[..|acts| - 1], acts[|acts| - 1];
      FrontSchedule(acts);
      assert ValidActivity(a);
      OfferedPackets(front) + (if a.Dispatch? && a.rx.Some? then [a.rx.value] else [])
  }

  /**
   * Over any run, one trace header is printed per offered packet, and with
   * the heartbeats left out the text sent is the trace lines of the offered
   * packets, one after the other in the order they came, each listing its
   * bytes in order.
   */
  lemma {:induction false} RunTraceLines(s: ClockState, acts: seq<Activity>)
    requires ValidSchedule(acts)
    ensures Occurrences(Run(s, acts).events, IsHeader) == PacketsOffered(acts)
    ensures Render(Run(s, acts).events, TraceText) == TraceLines(OfferedPackets(acts))
    decreases |acts|
  {
    if acts != [] {
      var front := acts[..|acts| - 1];
      FrontSchedule(acts);
      RunTraceLines(s, front);
      var before := Run(s, front);
      match acts[|acts| - 1]
      case Interrupt =>
        assert PacketsOffered(acts) == PacketsOffered(front);
        assert OfferedPackets(acts) == OfferedPackets(front);
      case Dispatch(rx) =>
        assert PacketsOffered(acts) == PacketsOffered(front) + (if rx.Some? then 1 else 0);
        PassHeaders(before.events, before.clock, rx);
        var more := Pass(before.clock, rx).events;
        PassTraceOutput(before.clock, rx);
        if rx.Some? {
          AppendTraceLine(before.events, more, OfferedPackets(front), rx.value);
          assert OfferedPackets(acts) == OfferedPackets(front) + [rx.value];
        } else {
          RenderAppend(before.events, more, TraceText);
          assert OfferedPackets(front) + [] == OfferedPackets(front);
        }
    }
  }

  /** A pass adds one header if the radio had a packet, and none otherwise. */
  lemma PassHeaders(events: seq<Event>, c: ClockState, rx: Option<Packet>)
    requires ValidAnswer(rx)
    ensures Occurrences(events + Pass(c, rx).events, IsHeader) ==
      Occurrences(events, IsHeader) + (if rx.Some? then 1 else 0)
  {
    OccurrencesAppend(events, Pass(c, rx).events, IsHeader);
    PassHeaderCount(c, rx);
  }

  /** Calls that print the trace line of `q` extend the lines printed so far by that of `q`. */
  lemma AppendTraceLine(events: seq<Event>, more: seq<Event>, ps: seq<Packet>, q: Packet)
    requires forall i :: 0 <= i < |ps| ==> FitsBuffer(ps[i])
    requires FitsBuffer(q)
    requires Render(events, TraceText) == TraceLines(ps)
    requires Render(more, TraceText) == PacketTrace(q.pipe, q.payload)
    ensures Render(events + more, TraceText) == TraceLines(ps + [q])
  {
    RenderAppend(events, more, TraceText);
    TraceLinesAppend(ps, q);
  }

  /**
   * The whole text sent grows pass by pass: a further interrupt prints
   * nothing, and a further pass appends the heartbeat (if due) and the
   * trace line of its packet (if any), read off the state the run left.
   */
  lemma RunOutputStep(s: ClockState, acts: seq<Activity>, a: Activity)
    requires ValidSchedule(acts) && ValidActivity(a)
    ensures ValidSchedule(acts + [a])
    ensures var c := Run(s, acts).clock;
      Output(Run(s, acts + [a]).events) == Output(Run(s, acts).events) +
        match a
        case Interrupt => ""
        case Dispatch(rx) =>
          (if c.printTime then Heartbeat(c.elapsedMs / 1000) else "") +
          (if rx.Some? then PacketTrace(rx.value.pipe, rx.value.payload) else "")
  {
    var acts' := acts + [a];
    assert forall i :: 0 <= i < |acts'| ==> ValidActivity(acts'[i]);
    assert acts'[..|acts'| - 1] == acts;
    var before := Run(s, acts);
    match a
    case Interrupt =>
    case Dispatch(rx) =>
      RenderAppend(before.events, Pass(before.clock, rx).events, Text);
      PassOutput(before.clock, rx);
  }

  /** Fetches and releases both number `offered`, and every fetch is paired. */
  predicate FetchAccount(events: seq<Event>, offered: nat)
  {
    Occurrences(events, IsFetch) == offered && Occurrences(events, IsRelease) == offered && FetchesPaired(events)
  }

  lemma {:induction false} RunFetchAccount(s: ClockState, acts: seq<Activity>)
    requires ValidSchedule(acts)
    ensures FetchAccount(Run(s, acts).events, PacketsOffered(acts))
    decreases |acts|
  {
    if acts != [] {
      var front := acts[..|acts| - 1];
      FrontSchedule(acts);
      RunFetchAccount(s, front);
      var before := Run(s, front);
      match acts[|acts| - 1]
      case Interrupt =>
        assert PacketsOffered(acts) == PacketsOffered(front);
      case Dispatch(rx) =>
        assert PacketsOffered(acts) == PacketsOffered(front) + (if rx.Some? then 1 else 0);
        PassFetchRelease(before.events, before.clock, rx);
    }
  }

  /** A pass adds one fetch and one release when the radio has a packet, and keeps fetches paired. */
  lemma PassFetchRelease(events: seq<Event>, c: ClockState, rx: Option<Packet>)
    requires ValidAnswer(rx) && FetchesPaired(events)
    ensures var after := events + Pass(c, rx).events;
      Occurrences(after, IsFetch) == Occurrences(events, IsFetch) + (if rx.Some? then 1 else 0) &&
      Occurrences(after, IsRelease) == Occurrences(events, IsRelease) + (if rx.Some? then 1 else 0) &&
      FetchesPaired(after)
  {
    var p := Pass(c, rx);
    OccurrencesAppend(events, p.events, IsFetch);
    OccurrencesAppend(events, p.events, IsRelease);
    PassCounts(c, rx);
    PassFetchesPaired(c, rx);
    FetchesPairedAppend(events, p.events);
  }

  /** Nominal operation: the dispatcher gets to run once after every interrupt. */
  function Nominal(rxs: seq<Option<Packet>>): (acts: seq<Activity>)
    ensures |acts| == 2 * |rxs|
  {
    if rxs == [] then [] else Nominal(rxs[..|rxs| - 1]) + [Interrupt, Dispatch(rxs[|rxs| - 1])]
  }

  predicate ValidAnswers(rxs: seq<Option<Packet>>)
  {
    forall i :: 0 <= i < |rxs| ==> ValidAnswer(rxs[i])
  }

  lemma FrontValid(rxs: seq<Option<Packet>>)
    requires ValidAnswers(rxs) && rxs != []
    ensures ValidAnswers(rxs[..|rxs| - 1]) && ValidAnswer(rxs[|rxs| - 1])
  {
    var front := rxs[..|rxs| - 1];
    forall i | 0 <= i < |front| ensures ValidAnswer(front[i]) { assert front[i] == rxs[i]; }
  }

  lemma {:induction false} NominalShape(rxs: seq<Option<Packet>>)
    requires ValidAnswers(rxs)
    ensures ValidSchedule(Nominal(rxs))
    ensures Interrupts(Nominal(rxs)) == |rxs|
    decreases |rxs|
  {
    if rxs != [] {
      var front := rxs[..|rxs| - 1];
      FrontValid(rxs);
      NominalShape(front);
      var acts := Nominal(rxs);
      assert acts[..|acts| - 1] == Nominal(front) + [Interrupt];
      assert (Nominal(front) + [Interrupt])[..|acts| - 2] == Nominal(front);
    }
  }

  /** A serviced clock state: both flags cleared, as every pass leaves them. */
  function Serviced(c: ClockState): ClockState
  {
    c.(feedWatchdog := false, printTime := false)
  }

  /** The shared state after `n` nominal rounds; it does not depend on the radio. */
  function NominalClock(s: ClockState, n: nat): ClockState
  {
    if n == 0 then s else Serviced(Tick(NominalClock(s, n - 1)))
  }

  /** How many of `n` nominal rounds move the dispatcher to restart the watchdog. */
  function NominalRestarts(s: ClockState, n: nat): nat
  {
    if n == 0 then 0
    else NominalRestarts(s, n - 1) + (if Tick(NominalClock(s, n - 1)).feedWatchdog then 1 else 0)
  }

  /** The last round of a nominal run: one interrupt, then one pass. */
  lemma NominalLastRound(s: ClockState, rxs: seq<Option<Packet>>)
    requires ValidAnswers(rxs) && rxs != []
    ensures ValidAnswers(rxs[..|rxs| - 1]) && ValidAnswer(rxs[|rxs| - 1])
    ensures ValidSchedule(Nominal(rxs)) && ValidSchedule(Nominal(rxs[..|rxs| - 1]))
    ensures var before := Run(s, Nominal(rxs[..|rxs| - 1]));
      var p := Pass(Tick(before.clock), rxs[|rxs| - 1]);
      Run(s, Nominal(rxs)) == PassResult(p.clock, before.events + p.events)
  {
    var front := rxs[..|rxs| - 1];
    FrontValid(rxs);
    NominalShape(rxs);
    NominalShape(front);
    var acts := Nominal(rxs);
    assert acts[..|acts| - 1] == Nominal(front) + [Interrupt];
    assert (Nominal(front) + [Interrupt])[..|acts| - 2] == Nominal(front);
  }

  /** A nominal run's state and its watchdog restarts are those of the radio-free account above. */
  lemma {:induction false} NominalRunAccount(s: ClockState, rxs: seq<Option<Packet>>)
    requires ValidAnswers(rxs)
    ensures ValidSchedule(Nominal(rxs))
    ensures Run(s, Nominal(rxs)).clock == NominalClock(s, |rxs|)
    ensures Occurrences(Run(s, Nominal(rxs)).events, IsRestart) == NominalRestarts(s, |rxs|)
    decreases |rxs|
  {
    NominalShape(rxs);
    if rxs != [] {
      var front := rxs[..|rxs| - 1];
      NominalRunAccount(s, front);
      NominalRoundAccount(s, rxs);
    }
  }

  /** One more nominal round adds one interrupt and the restart its pass makes, if any. */
  lemma NominalRoundAccount(s: ClockState, rxs: seq<Option<Packet>>)
    requires ValidAnswers(rxs) && rxs != []
    ensures ValidAnswers(rxs[..|rxs| - 1])
    ensures ValidSchedule(Nominal(rxs)) && ValidSchedule(Nominal(rxs[..|rxs| - 1]))
    ensures var before := Run(s, Nominal(rxs[..|rxs| - 1]));
      Run(s, Nominal(rxs)).clock == Serviced(Tick(before.clock)) &&
      Occurrences(Run(s, Nominal(rxs)).events, IsRestart) ==
        Occurrences(before.events, IsRestart) + (if Tick(before.clock).feedWatchdog then 1 else 0)
  {
    NominalLastRound(s, rxs);
    var before := Run(s, Nominal(rxs[..|rxs| - 1]));
    var t := Tick(before.clock);
    var p := Pass(t, rxs[|rxs| - 1]);
    OccurrencesAppend(before.events, p.events, IsRestart);
    PassCounts(t, rxs[|rxs| - 1]);
  }

  /** In nominal rounds the counter and clock are those of the ticks alone. */
  lemma {:induction false} NominalClockTicks(s: ClockState, n: nat)
    requires s.counter < TicksPerMs
    ensures NominalClock(s, n).counter == Ticks(s, n).counter
    ensures NominalClock(s, n).elapsedMs == Ticks(s, n).elapsedMs
    decreases n
  {
    if n > 0 {
      NominalClockTicks(s, n - 1);
      TickIgnoresFlags(NominalClock(s, n - 1), Ticks(s, n - 1));
    }
  }

  /** The interrupt whose completed millisecond is the first boundary since `s` raises the feed flag. */
  lemma CompletingTickRaisesFeed(s: ClockState, m: nat, c: ClockState)
    requires s.counter < TicksPerMs
    requires c.counter == Ticks(s, m).counter && c.elapsedMs == Ticks(s, m).elapsedMs
    requires !Crossed(s.elapsedMs, (s.counter + m) / TicksPerMs, FeedDogIntervalInMs)
    requires Crossed(s.elapsedMs, (s.counter + m + 1) / TicksPerMs, FeedDogIntervalInMs)
    ensures Tick(c).feedWatchdog
  {
    var total := s.counter + m;
    TicksCounterAndClock(s, m);
    FirstBoundaryCompletesMillisecond(s.elapsedMs, total, FeedDogIntervalInMs);
    TickOntoFeedBoundary(c, s.elapsedMs + total / 10);
  }

  /** The first boundary crossed is the millisecond completed by the tick that makes the total a multiple of ten. */
  lemma FirstBoundaryCompletesMillisecond(e: uint32, total: nat, intervalMs: nat)
    requires intervalMs > 0
    requires !Crossed(e, total / 10, intervalMs) && Crossed(e, (total + 1) / 10, intervalMs)
    ensures total % 10 == 9 && OnBoundary((e + total / 10 + 1) % Uint32Modulus, intervalMs)
  {
    TickTotalSucc(total);
    CrossedSucc(e, (total + 1) / 10, intervalMs);
  }

  /** A tick from counter 9 whose new millisecond value is a feed boundary raises the feed flag. */
  lemma TickOntoFeedBoundary(c: ClockState, ms: nat)
    requires c.counter == 9 && c.elapsedMs == ms % Uint32Modulus
    requires OnBoundary((ms + 1) % Uint32Modulus, FeedDogIntervalInMs)
    ensures Tick(c).feedWatchdog
  {
    ModSucc(ms);
    TickStep(c);
  }

  /**
   * In nominal operation the watchdog is restarted no later than the pass
   * right after the interrupt that reaches a feed boundary: if the feed flag
   * was pending or a boundary is among the milliseconds the `n` ticks
   * complete, one of the `n` passes restarts the watchdog.
   */
  lemma {:induction false} NominalRestartsOnBoundary(s: ClockState, n: nat)
    requires s.counter < TicksPerMs && n > 0
    requires s.feedWatchdog || Crossed(s.elapsedMs, (s.counter + n) / TicksPerMs, FeedDogIntervalInMs)
    ensures NominalRestarts(s, n) >= 1
    decreases n
  {
    if n > 1 && (s.feedWatchdog || Crossed(s.elapsedMs, (s.counter + n - 1) / TicksPerMs, FeedDogIntervalInMs)) {
      NominalRestartsOnBoundary(s, n - 1);
    } else if s.feedWatchdog {
      assert n == 1 && NominalClock(s, 0) == s;
    } else {
      assert !Crossed(s.elapsedMs, (s.counter + n - 1) / TicksPerMs, FeedDogIntervalInMs) by {
        if n == 1 { assert (s.counter + n - 1) / TicksPerMs == 0; }
      }
      NominalClockTicks(s, n - 1);
      CompletingTickRaisesFeed(s, n - 1, NominalClock(s, n - 1));
    }
  }

  /**
   * No missed watchdog service in nominal operation: any 5000 consecutive
   * rounds of interrupt-then-pass (5000 ticks, 498.75 ms), from any state the
   * interrupt can leave behind and whatever the radio delivers, contain a
   * call of `hal_wdog_restart`; and 5000 ticks last less than the 1000 ms
   * watchdog timeout.
   */
  lemma NominalFeedsWatchdog(s: ClockState, rxs: seq<Option<Packet>>)
    requires s.counter < TicksPerMs && ValidAnswers(rxs)
    requires |rxs| >= FeedDogIntervalInMs * TicksPerMs
    ensures ValidSchedule(Nominal(rxs))
    ensures Occurrences(Run(s, Nominal(rxs)).events, IsRestart) >= 1
    ensures FeedDogIntervalInMs * TicksPerMs * MachineCyclesPerTick() * ClockNumberPerMachineCycle * 1000
      < WatchdogTimeoutInMs(WatchdogInitArgument(WatchdogTimeoutInSec(FeedDogIntervalInMs))) * McuCrystalFrequencyInHz
  {
    NominalRunAccount(s, rxs);
    NominalRestartsWithinInterval(s, |rxs|);
    ConfiguredWatchdog();
  }

  lemma NominalRestartsWithinInterval(s: ClockState, n: nat)
    requires s.counter < TicksPerMs && n >= FeedDogIntervalInMs * TicksPerMs
    ensures NominalRestarts(s, n) >= 1
  {
    var done := (s.counter + n) / 10;
    assert done >= FeedDogIntervalInMs;
    CrossedWithinInterval(s.elapsedMs, FeedDogIntervalInMs);
    CrossedMonotone(s.elapsedMs, FeedDogIntervalInMs, done, FeedDogIntervalInMs);
    NominalRestartsOnBoundary(s, n);
  }

  /** Interrupts since the last pass (all of them when there was none). */
  function TrailingInterrupts(acts: seq<Activity>): (k: nat)
    ensures k <= Interrupts(acts)
  {
    if acts == [] || acts[|acts| - 1].Dispatch? then 0
    else TrailingInterrupts(acts[..|acts| - 1]) + 1
  }

  /**
   * At no point of the schedule have more than `k` interrupts come in a row:
   * however long `printf` keeps a pass busy, the next pass starts within
   * `k` ticks of the previous one.
   */
  predicate PassesWithin(acts: seq<Activity>, k: nat)
  {
    forall n :: 0 <= n <= |acts| ==> TrailingInterrupts(acts[..n]) <= k
  }


  /**
   * A run is armed when the watchdog has been restarted, or the feed flag is
   * pending, or no feed boundary has been reached in the `n` ticks since `s`
   * (and none was pending in `s`).
   */
  predicate Armed(s: ClockState, n: nat, r: PassResult)
  {
    Occurrences(r.events, IsRestart) >= 1 || r.clock.feedWatchdog ||
    (!s.feedWatchdog && !Crossed(s.elapsedMs, (s.counter + n) / TicksPerMs, FeedDogIntervalInMs))
  }

  /** An interrupt keeps a run armed: the tick that reaches the first boundary raises the flag. */
  lemma ArmedTick(s: ClockState, n: nat, r: PassResult)
    requires s.counter < TicksPerMs
    requires r.clock.counter == Ticks(s, n).counter && r.clock.elapsedMs == Ticks(s, n).elapsedMs
    requires Armed(s, n, r)
    ensures Armed(s, n + 1, PassResult(Tick(r.clock), r.events))
  {
    if Occurrences(r.events, IsRestart) == 0 && !r.clock.feedWatchdog
      && Crossed(s.elapsedMs, (s.counter + n + 1) / TicksPerMs, FeedDogIntervalInMs) {
      CompletingTickRaisesFeed(s, n, r.clock);
    }
  }

  /** A pass keeps a run armed: it restarts the watchdog when the flag is pending. */
  lemma ArmedPass(s: ClockState, n: nat, r: PassResult, rx: Option<Packet>)
    requires ValidAnswer(rx) && Armed(s, n, r)
    ensures Armed(s, n, PassResult(Pass(r.clock, rx).clock, r.events + Pass(r.clock, rx).events))
  {
    var p := Pass(r.clock, rx);
    OccurrencesAppend(r.events, p.events, IsRestart);
    PassCounts(r.clock, rx);
  }

  /** Every run from `s` is armed. */
  lemma {:induction false} RunArmed(s: ClockState, acts: seq<Activity>)
    requires ValidSchedule(acts) && s.counter < TicksPerMs
    ensures Armed(s, Interrupts(acts), Run(s, acts))
    decreases |acts|
  {
    if acts != [] {
      var front := acts[..|acts| - 1];
      FrontSchedule(acts);
      RunArmed(s, front);
      var before := Run(s, front);
      var n := Interrupts(front);
      match acts[|acts| - 1]
      case Interrupt =>
        assert Interrupts(acts) == n + 1;
        RunClock(s, front);
        ArmedTick(s, n, before);
      case Dispatch(rx) =>
        assert Interrupts(acts) == n;
        ArmedPass(s, n, before, rx);
    }
  }

  /** A pass that starts after at least 5000 interrupts from `s` finds the watchdog restarted or restarts it. */
  lemma PassAfterFeedInterval(s: ClockState, acts: seq<Activity>)
    requires ValidSchedule(acts) && s.counter < TicksPerMs
    requires acts != [] && acts[|acts| - 1].Dispatch?
    requires Interrupts(acts) >= FeedDogIntervalInMs * TicksPerMs
    ensures Occurrences(Run(s, acts).events, IsRestart) >= 1
  {
    var front := acts[..|acts| - 1];
    FrontSchedule(acts);
    var n := Interrupts(front);
    assert n == Interrupts(acts);
    BoundaryReached(s, n);
    RunArmed(s, front);
    PassOfArmedRun(s, n, Run(s, front), acts[|acts| - 1].rx);
  }

  /** A pass of an armed run after a feed boundary has been reached restarts the watchdog, unless that was done already. */
  lemma PassOfArmedRun(s: ClockState, n: nat, r: PassResult, rx: Option<Packet>)
    requires ValidAnswer(rx) && Armed(s, n, r)
    requires Crossed(s.elapsedMs, (s.counter + n) / TicksPerMs, FeedDogIntervalInMs)
    ensures Occurrences(r.events + Pass(r.clock, rx).events, IsRestart) >= 1
  {
    OccurrencesAppend(r.events, Pass(r.clock, rx).events, IsRestart);
    PassCounts(r.clock, rx);
  }

  lemma BoundaryReached(s: ClockState, n: nat)
    requires s.counter < TicksPerMs && n >= FeedDogIntervalInMs * TicksPerMs
    ensures Crossed(s.elapsedMs, (s.counter + n) / TicksPerMs, FeedDogIntervalInMs)
  {
    var done := (s.counter + n) / TicksPerMs;
    assert done >= FeedDogIntervalInMs;
    CrossedWithinInterval(s.elapsedMs, FeedDogIntervalInMs);
    CrossedMonotone(s.elapsedMs, FeedDogIntervalInMs, done, FeedDogIntervalInMs);
  }

  /** A schedule whose last pass comes after 5000 of its interrupts restarts the watchdog. */
  lemma {:induction false} LastPassRestarts(s: ClockState, acts: seq<Activity>)
    requires ValidSchedule(acts) && s.counter < TicksPerMs
    requires Interrupts(acts) >= FeedDogIntervalInMs * TicksPerMs + TrailingInterrupts(acts)
    ensures Occurrences(Run(s, acts).events, IsRestart) >= 1
    decreases |acts|
  {
    var front := acts[..|acts| - 1];
    FrontSchedule(acts);
    if acts[|acts| - 1].Dispatch? {
      PassAfterFeedInterval(s, acts);
    } else {
      assert Interrupts(acts) == Interrupts(front) + 1;
      LastPassRestarts(s, front);
    }
  }

  /**
   * No missed watchdog service, whatever time `printf` takes: when passes
   * start at most `k` interrupts apart, any stretch of 5000 + k interrupts,
   * from any state the interrupt can leave behind and whatever the radio
   * delivers, contains a call of `hal_wdog_restart`.  At the nominal 16 MHz
   * crystal and 32.768 kHz watchdog clock, for `k` up to 5025 those
   * 5000 + k ticks last less than the 1000 ms watchdog timeout, and for `k`
   * up to 400 (a pass printing a heartbeat and a full 32-byte trace line at
   * 38400 baud) less than six tenths of it.
   */
  lemma RunFeedsWatchdog(s: ClockState, acts: seq<Activity>, k: nat)
    requires ValidSchedule(acts) && s.counter < TicksPerMs
    requires PassesWithin(acts, k)
    requires Interrupts(acts) >= FeedDogIntervalInMs * TicksPerMs + k
    ensures Occurrences(Run(s, acts).events, IsRestart) >= 1
    ensures k <= 5025 ==>
      (FeedDogIntervalInMs * TicksPerMs + k) * MachineCyclesPerTick() * ClockNumberPerMachineCycle * 1000
        < WatchdogTimeoutInMs(WatchdogInitArgument(WatchdogTimeoutInSec(FeedDogIntervalInMs))) * McuCrystalFrequencyInHz
    ensures k <= 400 ==>
      (FeedDogIntervalInMs * TicksPerMs + k) * MachineCyclesPerTick() * ClockNumberPerMachineCycle * 1000 * 10
        < 6 * WatchdogTimeoutInMs(WatchdogInitArgument(WatchdogTimeoutInSec(FeedDogIntervalInMs))) * McuCrystalFrequencyInHz
  {
    assert acts[..|acts|] == acts;
    LastPassRestarts(s, acts);
    FeedStretchTiming(k);
  }

  /** The length of 5000 + k ticks against the watchdog timeout, at the nominal clock frequencies. */
  lemma FeedStretchTiming(k: nat)
    ensures var ticks, timeout := FeedDogIntervalInMs * TicksPerMs + k,
      WatchdogTimeoutInMs(WatchdogInitArgument(WatchdogTimeoutInSec(FeedDogIntervalInMs)));
      (k <= 5025 ==> ticks * MachineCyclesPerTick() * ClockNumberPerMachineCycle * 1000 < timeout * McuCrystalFrequencyInHz) &&
      (k <= 400 ==> ticks * MachineCyclesPerTick() * ClockNumberPerMachineCycle * 1000 * 10 < 6 * timeout * McuCrystalFrequencyInHz)
  {
    ConfiguredWatchdog();
  }
}
