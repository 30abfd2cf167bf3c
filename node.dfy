/**
 * The receiver's firmware state as the C globals hold it: the timer
 * interrupt's private overflow counter, the millisecond clock, the two
 * request flags, and the calls made so far on the collaborators (the UART
 * behind `printf`, the radio driver and the watchdog).
 */
module Node {
  import opened Types
  import opened Timing
  import opened Clock
  import opened Dispatcher

  lemma AppendAssociates(a: seq<Event>, b: seq<Event>, c: seq<Event>, d: seq<Event>)
    ensures a + b + c + d == a + (b + c + d)
  {
  }

  lemma FetchAssociates(t: seq<Event>, poll: Event, fetch: Event, header: Event,
                        bytes: seq<Event>, lineEnd: Event, release: Event)
    ensures t + [poll] + [fetch] + [header] + bytes + [lineEnd] + [release] ==
            t + ([poll, fetch] + ([header] + bytes + [lineEnd]) + [release])
  {
  }

  class Receiver {
    /** `timer0_overflow_counter`, the static local of `timer0_irq`. */
    var overflowCounter: uint8
    /** `g_elaspsed_time_in_ms`. */
    var elapsedMs: uint32
    /** `g_is_need_to_feed_the_watchdog`. */
    var feedWatchdog: bool
    /** `g_is_need_to_print_time`. */
    var printTime: bool
    /** Every collaborator call made so far, oldest first. */
    var trace: seq<Event>

    function State(): ClockState
      reads this
    {
      ClockState(overflowCounter, elapsedMs, feedWatchdog, printTime)
    }

    /** Between interrupts the overflow counter is below the ticks in a millisecond. */
    predicate Valid()
      reads this
    {
      overflowCounter < TicksPerMs
    }

    /** The zero-initialised globals at reset, before anything was printed. */
    constructor()
      ensures State() == Boot && trace == []
      ensures Valid()
    {
      overflowCounter, elapsedMs := 0, 0;
      feedWatchdog, printTime := false, false;
      trace := [];
    }

    /**
     * `timer0_irq`: one timer 0 overflow, every 133 machine cycles (99.75
     * microseconds).  Nine interrupts in ten only count; the tenth completes
     * a millisecond, advances the clock and raises the flags it is due.
     */
    method TimerIrq()
      requires Valid()
      modifies this
      ensures State() == Tick(old(State()))
      ensures trace == old(trace)
      ensures Valid()
      ensures old(overflowCounter) + 1 < TicksPerMs ==>
        State() == old(State()).(counter := old(overflowCounter) + 1)
      ensures old(overflowCounter) + 1 == TicksPerMs ==>
        overflowCounter == 0 && elapsedMs == (old(elapsedMs) + 1) % Uint32Modulus &&
        (feedWatchdog <==> old(feedWatchdog) || elapsedMs % FeedDogIntervalInMs == 0) &&
        (printTime <==> old(printTime) || elapsedMs % PrintTimeIntervalInMs == 0)
    {
      overflowCounter := (overflowCounter + 1) % 0x100;
      if TicksPerMs <= overflowCounter {
        overflowCounter := 0;
        elapsedMs := (elapsedMs + 1) % Uint32Modulus;
        if elapsedMs % FeedDogIntervalInMs == 0 {
          feedWatchdog := true;
        }
        if elapsedMs % PrintTimeIntervalInMs == 0 {
          printTime := true;
        }
      }
    }

    /** `get_elasped_time_in_ms`: milliseconds since the timer was started, modulo 2^32. */
    method ElapsedMs() returns (ms: uint32)
      ensures ms == elapsedMs
    {
      ms := elapsedMs;
    }

    /**
     * `run_event_loop`, with `rx` the radio's answer to `is_esb_received_data`
     * and, when data is ready, what `esb_fetch_received_data` hands back.
     * Its three blocks are the three methods below, called in order.
     */
    method RunEventLoop(rx: Option<Packet>)
      requires ValidAnswer(rx) && Valid()
      modifies this
      ensures State() == Pass(old(State()), rx).clock
      ensures trace == old(trace) + Pass(old(State()), rx).events
      ensures Valid()
    {
      ghost var s0, t0 := State(), trace;
      ShowTime();
      ServiceRadio(rx);
      FeedWatchdog();
      AppendAssociates(t0, HeartbeatStep(s0), PacketStep(rx), WatchdogStep(s0));
    }

    /** Lines 165-169: print the seconds since boot when the interrupt asked for it. */
    method ShowTime()
      modifies this
      ensures State() == old(State()).(printTime := false)
      ensures trace == old(trace) + HeartbeatStep(old(State()))
    {
      if printTime {
        var ms := ElapsedMs();
        trace := trace + [PrintTime(ms / 1000)];
        printTime := false;
      }
    }

    /** Lines 172-192: poll the radio; on data, fetch it, print it and release it. */
    method ServiceRadio(rx: Option<Packet>)
      requires ValidAnswer(rx)
      modifies this
      ensures State() == old(State())
      ensures trace == old(trace) + PacketStep(rx)
    {
      ghost var t0 := trace;
      match rx {
        case None =>
          trace := trace + [PollRadio(false)];
        case Some(p) =>
          trace := trace + [PollRadio(true)];
          var buffer := new uint8[MaxPayloadLen](i => if 0 <= i < |p.payload| then p.payload[i] else 0);
          var pipe, len: uint8 := p.pipe, |p.payload|;
          trace := trace + [FetchPacket(pipe, len)];
          trace := trace + [PrintPacketHeader(pipe, len)];
          PrintPayload(buffer, len);
          assert buffer[..len] == p.payload;
          trace := trace + [PrintLineEnd];
          trace := trace + [ReleasePacket];
          FetchAssociates(t0, PollRadio(true), FetchPacket(pipe, len), PrintPacketHeader(pipe, len),
                          ByteEvents(p.payload), PrintLineEnd, ReleasePacket);
      }
    }

    /** Lines 182-183: one `" %02bx"` per received byte, in buffer order. */
    method PrintPayload(buffer: array<uint8>, len: uint8)
      requires len as int <= buffer.Length
      modifies this
      ensures State() == old(State())
      ensures trace == old(trace) + ByteEvents(buffer[..len])
    {
      for i := 0 to len
        invariant State() == old(State())
        invariant trace == old(trace) + ByteEvents(buffer[..i])
      {
        assert buffer[..i + 1] == buffer[..i] + [buffer[i]];
        trace := trace + [PrintByte(buffer[i])];
      }
    }

    /** Lines 195-199: restart the watchdog when the interrupt asked for it. */
    method FeedWatchdog()
      modifies this
      ensures State() == old(State()).(feedWatchdog := false)
      ensures trace == old(trace) + WatchdogStep(old(State()))
    {
      if feedWatchdog {
        trace := trace + [RestartWatchdog];
        feedWatchdog := false;
      }
    }
  }
}
