# nRF24LE1 receiver node: timing and dispatch core

This project models the timing and dispatch core of the receiver (PRX) firmware
in `PRX/main.c`, and proves properties of that model.

- **The timer 0 handler `timer0_irq`.** It fires every 133 machine cycles of 12 clocks at 16 MHz, that is every 99.75 µs (nominally 100 µs), so the millisecond clock, which counts ten interrupts, runs 0.25% fast. An 8-bit overflow counter counts ten interrupts per millisecond, and each completed millisecond advances the 32-bit millisecond clock `g_elaspsed_time_in_ms`. On each new millisecond value the handler may raise two request flags: feed-the-watchdog on multiples of 500 and print-the-time on multiples of 1000.
- **One pass of `run_event_loop`.** The pass runs three blocks in a fixed order:
  1. It prints the heartbeat line when the print flag is set.
  2. It polls the radio. When data is ready, it fetches the packet, prints its trace line byte by byte and releases the receive event.
  3. It restarts the watchdog when the feed flag is set.

  Each flag is cleared by its own block.
- **`get_elasped_time_in_ms`**, a plain read of the clock.
- **The compile-time timing arithmetic.** This covers the timer reload value (`timer0_init`) and the watchdog timeout and `hal_wdog_init` argument (`main`).

The model has seven modules:

- `Types`: the fixed-width integer types `uint8` and `uint32`, and `Option`.
- `Timing`: the preprocessor constants and integer expressions, with their truncating divisions kept.
- `Format`: the `printf` conversions in use (`%lu`, `%bu`, `%02bx`), each with a reading-back function and a round-trip lemma, and the two line formats, each with a lemma that reads the line back into its fields.
- `Clock`: the handler's step on the shared state, `ClockState`, as the function `Tick`. It also has `Ticks`, the closed form of `n` steps, and the flag-scheduling lemmas.
- `Dispatcher`: one pass, `Pass`, as a function of the shared state and of the radio's answer, plus its calls on the collaborators. The collaborators are the radio driver, `printf` and the watchdog. Their calls are recorded in order as `Event`s, and `Output` renders the characters those calls print.
- `Schedule`: interrupts interleaved with passes, each interrupt one atomic step between passes. This gives whole-run properties. Every offered packet is fetched and released exactly once, with its trace line printed between the fetch and the release. Leaving the heartbeats aside, the text a run prints is the trace lines of the offered packets, one per packet, in the order they came, each listing its bytes in order. When passes start at most `k` interrupts apart, however long their `printf` calls keep them busy, any stretch of 5000 + `k` interrupts contains a watchdog restart. At the nominal 16 MHz crystal and 32.768 kHz watchdog clock, that stretch is shorter than the 1 s watchdog timeout for `k` up to 5025. For `k` up to 400 it is shorter than 0.6 s. A pass that prints a heartbeat and a full 32-byte trace line at 38400 baud is estimated to stay within 400 ticks.
- `Node`: the firmware's globals as the fields of `class Receiver`. Its methods are imperative:
  - `TimerIrq` is the handler.
  - `ElapsedMs` is the clock read.
  - `RunEventLoop` is one pass. It calls one method per block of the C function: `ShowTime`, `ServiceRadio` (which copies the packet into a 32-byte `buffer` array) and `FeedWatchdog`. `PrintPayload` is the byte loop.

  Each method is proved against the `Clock` and `Dispatcher` functions.

The radio is a parameter. `rx: Option<Packet>` is what `is_esb_received_data` answers (`None` for 0) and what `esb_fetch_received_data` hands back.

Where the code and its description differ, the model follows the code:

- The heartbeat format is `" %lu sec\r\n"`, with a leading space.
- Bytes are printed with `%02bx`: two lower-case hexadecimal digits each.
- `WDOG_TIMEOUT_IN_SEC` is `3*500/1000`, which truncates to 1 second rather than 1.5, so the watchdog argument is `1*32768/256 = 128`.

## Model

| member | source | states |
|---|---|---|
| Timing.CyclesPerTick | PRX/main.c:117-118 | the truncating cycles-per-tick expression never yields more machine cycles than fit in the requested tick length |
| Timing.MachineCyclesPerTick | PRX/main.c:75-76 | the configured tick is 133 machine cycles, and 133 cycles of 12 clocks at 16 MHz do not exceed 100 µs |
| Timing.TimerReload | PRX/main.c:124 | the 8-bit reload value leaves exactly `cycles` counts before the overflow at 0x100 |
| Timing.TickPeriodWithinOnePercent | PRX/main.c:75-76 | the truncated tick lasts between 99% and 100% of 100 µs, exactly 99.75 µs, and the reload value is 123 |
| Timing.TicksPerMsIsQuotient | PRX/main.c:89-90 | ten ticks make a millisecond: 1000 µs / 100 µs, exactly |
| Timing.WatchdogTimeoutInSec | PRX/main.c:216 | the timeout is three feed intervals rounded down to whole seconds |
| Timing.WatchdogInitArgument | PRX/main.c:224 | the init argument is the seconds times 128 prescaled watchdog ticks per second |
| Timing.WatchdogArgumentRoundTrip | PRX/main.c:223-224 | the watchdog, given the argument computed for `s` seconds, times out after exactly `s` seconds |
| Timing.ConfiguredWatchdog | PRX/main.c:216-224 | the configured timeout is 1 s (not 1.5 s), the argument is 128 and fits 16 bits, and 1000 ms exceeds the 500 ms feed interval |
| Format.DigitChar | PRX/main.c:167 | a digit character whose offset from '0' is the digit |
| Format.DigitValue | PRX/main.c:167 | the inverse of `DigitChar` on digit characters |
| Format.Decimal | PRX/main.c:167 | `%lu` text is non-empty and has no leading zero unless the number is 0 |
| Format.DecimalDigits | PRX/main.c:167 | `%lu` text consists of decimal digits only |
| Format.ParseDecimalOfDecimal | PRX/main.c:167 | reading the `%lu` text back gives the number |
| Format.DecimalInjective | PRX/main.c:179-180 | distinct numbers print differently |
| Format.HexDigitChar | PRX/main.c:183 | a lower-case hexadecimal digit |
| Format.HexDigitValue | PRX/main.c:183 | the inverse of `HexDigitChar` |
| Format.Hex2 | PRX/main.c:183 | `%02bx` prints exactly two lower-case hexadecimal digits |
| Format.ParseHex2OfHex2 | PRX/main.c:183 | reading the two digits back gives the byte |
| Format.HexDigitCharInjective | PRX/main.c:183 | distinct digit values print as distinct characters |
| Format.HexToken | PRX/main.c:183 | one loop iteration prints a space followed by the two-digit byte |
| Format.HexTokensAt | PRX/main.c:182-183 | the byte loop prints 3 characters per byte, and byte `i`'s token is at characters 3i to 3i+2 |
| Format.HexTokensLength | PRX/main.c:182-183 | the byte loop prints 3 characters per byte |
| Format.ParseHexTokensOfHexTokens | PRX/main.c:182-183 | the payload can be read back from the byte loop's output, in order |
| Format.HexTokensSplit | PRX/main.c:182-183 | the last byte's token ends the byte loop's output and follows the earlier bytes' output |
| Format.HeartbeatReadsBack | PRX/main.c:167 | the heartbeat line is a leading space, digits that read back as the seconds, and " sec\r\n" |
| Format.Heartbeat | PRX/main.c:167 | the heartbeat line: a space, the seconds in decimal, " sec\r\n" (read back by `HeartbeatReadsBack`) |
| Format.PacketHeader | PRX/main.c:179-180 | the header: "rf rcv in pipe = ", the pipe, ", len = ", the length, "::" (read back by `PacketHeaderReadsBack`) |
| Format.PacketTrace | PRX/main.c:179-184 | the packet line: the header, the byte loop's tokens, "\r\n" (read back by `PacketTraceReadsBack`) |
| Format.HexTokens | PRX/main.c:182-183 | the byte loop's output, one token per byte in buffer order (length, position and read-back proved by `HexTokensAt`, `HexTokensLength` and `ParseHexTokensOfHexTokens`) |
| Format.PacketHeaderReadsBack | PRX/main.c:179-180 | the header starts with "rf rcv in pipe = "; the pipe and the length fields are all digits, parse back to the pipe and the length, and each is followed by a non-digit; after ", len = " and the length comes "::" |
| Format.PacketTraceReadsBack | PRX/main.c:179-184 | the packet line is the header for the pipe and the true length, then tokens that parse back to the payload, then "\r\n", 3 characters per byte |
| Format.PiecesOfHeader | PRX/main.c:179-180 | the pieces of the header are at the offsets given by the lengths of the pieces before them |
| Clock.OnBoundary | PRX/main.c:103-106 | a millisecond value is on a flag's boundary iff it is a multiple of that flag's interval; used by `Tick`, whose contract and `TickStep` state the flag rule |
| Clock.Ticks | PRX/main.c:94-107 | `n` interrupts in a row; their effect is stated by `TicksCounterAndClock`, `TicksClosedForm` and `TicksFromBoot` |
| Clock.Tick | PRX/main.c:94-107 | after an interrupt the counter is below 10, the clock moves by at most 1 mod 2^32, no flag is cleared, and a flag is raised only by a new clock value on its boundary |
| Clock.TickStep | PRX/main.c:96-107 | the tenth tick resets the counter, advances the clock mod 2^32 and raises exactly the flags whose boundary the new value is on; any other tick only increments the counter |
| Clock.PrintImpliesFeed | PRX/main.c:103-107 | a tick that raises the print flag also raises the feed flag (1000 is a multiple of 500) |
| Clock.WrapSetsBothFlags | PRX/main.c:101-107 | the 2^32 wrap of the clock lands on 0 and raises both flags |
| Clock.TicksCounterAndClock | PRX/main.c:94-101 | after `n` ticks the counter is (c+n) mod 10 and the clock has advanced by (c+n)/10 milliseconds mod 2^32 |
| Clock.TicksClosedForm | PRX/main.c:94-107 | after `n` ticks each flag is set iff it was set or a boundary is among the milliseconds completed |
| Clock.TickFlags | PRX/main.c:101-107 | one more tick moves each flag by the boundary of the millisecond it completes, if any |
| Clock.TicksFlags | PRX/main.c:101-107 | each flag after `n` ticks is its old value or whether a boundary was crossed |
| Clock.TicksFromBoot | PRX/main.c:87-101 | from the zeroed globals, after `n` ticks the counter is n mod 10 and the clock reads (n/10) mod 2^32 |
| Clock.TicksNeverClear | PRX/main.c:103-107 | ticks never clear a flag, so repeated boundaries coalesce into one request |
| Clock.TicksMonotone | PRX/main.c:101 | before the 2^32 wrap the clock never runs backwards |
| Clock.CrossedMonotone | PRX/main.c:103-107 | once a boundary has been crossed it stays crossed as more milliseconds complete |
| Clock.CrossedWithinInterval | PRX/main.c:103-107 | any 500 (resp. 1000) consecutive millisecond values, the 2^32 wrap included, contain a feed (resp. print) boundary |
| Clock.FlagsWithinInterval | PRX/main.c:103-107 | from any state the handler can leave, the feed flag is set 5000 ticks later and the print flag 10000 ticks later |
| Clock.FeedDeadlineInsideWatchdogTimeout | PRX/main.c:75-224 | the 5000 ticks after which the feed flag is surely set (tick length from lines 75-124) last less than the 1000 ms watchdog timeout (configured at lines 216-224), at the nominal clock frequencies |
| Dispatcher.Text | PRX/main.c:167-197 | only `printf` calls print characters |
| Dispatcher.ByteEvents | PRX/main.c:182-183 | the byte loop makes one print call per byte, the `i`-th printing byte `i` |
| Dispatcher.HeartbeatStep | PRX/main.c:165-169 | one print call exactly when the print flag is set, giving the whole seconds elapsed: `seconds * 1000 <= ms < (seconds + 1) * 1000` |
| Dispatcher.PacketStep | PRX/main.c:172-192 | the first call is the poll with the radio's answer; without data that is all; with data there are `len + 5` calls, the fetch second and the release last |
| Dispatcher.TraceEvents | PRX/main.c:179-184 | the trace is `len + 2` print calls: the header with the pipe and the true length first, the line end last |
| Dispatcher.WatchdogStep | PRX/main.c:195-199 | one restart call exactly when the feed flag is set, and no other call |
| Dispatcher.HeartbeatStepOutput | PRX/main.c:165-169 | the heartbeat block prints the heartbeat line for ms/1000 when due, and nothing otherwise |
| Dispatcher.WatchdogStepOutput | PRX/main.c:195-199 | the watchdog block prints nothing |
| Dispatcher.Pass | PRX/main.c:159-201 | after a pass both flags are clear, and the counter and the clock are untouched |
| Dispatcher.PassOrder | PRX/main.c:165-199 | a due heartbeat is the first call; then comes exactly one radio poll; fetch and release only come after it; and the watchdog restart, made iff the feed flag was set, is the last call |
| Dispatcher.PacketStepShape | PRX/main.c:172-192 | the radio block starts with its only poll and contains no restart; after "ready" it fetches, traces and releases, in that order |
| Dispatcher.PassCounts | PRX/main.c:172-199 | a pass fetches once and releases once when data was ready and never otherwise, and restarts the watchdog once iff the feed flag was set |
| Dispatcher.PacketStepCounts | PRX/main.c:172-192 | the radio block fetches and releases once each when data was ready and neither otherwise |
| Dispatcher.FetchedPacketCounts | PRX/main.c:177-191 | the fetch branch contains one fetch call and one release call; its prints count as neither |
| Dispatcher.FlagStepCounts | PRX/main.c:165-169 | the heartbeat block makes no radio or watchdog call; the watchdog block restarts once iff the feed flag was set |
| Dispatcher.PassFetchThenRelease | PRX/main.c:172-191 | the fetch is the call right after the "ready" poll, then the packet's trace calls, then the release |
| Dispatcher.PassFetchPosition | PRX/main.c:172-177 | the only possible fetch of a pass is the call right after the poll, and only when data was ready |
| Dispatcher.PassFetchesPaired | PRX/main.c:172-191 | every fetch of a pass follows a "ready" poll, and is followed by its trace line (header with its pipe and `len`, `len` byte tokens, line end) and then by its release |
| Dispatcher.TraceEventsShape | PRX/main.c:179-184 | the trace calls are the header with the pipe and the true length, one byte call per byte, and the line end |
| Dispatcher.PairedInFront | PRX/main.c:234-237 | a paired fetch stays paired when later calls follow |
| Dispatcher.PairedBehind | PRX/main.c:234-237 | a paired fetch stays paired when earlier calls come before it |
| Dispatcher.FetchesPairedAppend | PRX/main.c:234-237 | pairing of fetches with their trace lines and releases survives joining runs of passes |
| Dispatcher.TraceText | PRX/main.c:165-184 | the text of a call with heartbeats left out, used by `PacketStepTraceOutput`, `PassTraceOutput` and `Schedule.RunFetchRelease` |
| Dispatcher.TraceLinesAppend | PRX/main.c:179-184 | the trace lines of some packets followed by one more are those lines followed by its line |
| Dispatcher.PacketStepNoHeartbeat | PRX/main.c:172-192 | the radio block makes no heartbeat call |
| Dispatcher.PacketStepTraceOutput | PRX/main.c:172-192 | with heartbeats left out, the radio block prints the packet's trace line if data was ready, and nothing otherwise |
| Dispatcher.PassTraceOutput | PRX/main.c:165-199 | with heartbeats left out, a pass prints the trace line of the packet it fetched, or nothing |
| Dispatcher.PassHeaderCount | PRX/main.c:165-199 | a pass prints one trace header when data was ready and none otherwise |
| Dispatcher.PacketStepHeaderCount | PRX/main.c:172-192 | the radio block prints one trace header when data was ready and none otherwise |
| Dispatcher.TraceEventsOutput | PRX/main.c:179-184 | the trace calls print exactly "rf rcv in pipe = " dec(pipe) ", len = " dec(len) "::", one " xx" per byte in order, then "\r\n" |
| Dispatcher.ByteEventsOutput | PRX/main.c:182-183 | the byte loop's calls print the hex tokens of the payload in order |
| Dispatcher.TraceEventsPrint | PRX/main.c:179-184 | the trace part of a fetch consists of print calls only |
| Dispatcher.PassOutput | PRX/main.c:165-199 | a pass prints the heartbeat " s sec\r\n" (s = ms/1000) if due, then the packet's trace line if data was ready, and nothing else |
| Dispatcher.PacketStepOutput | PRX/main.c:172-192 | the radio block prints the trace line of the fetched packet, or nothing when no data was ready |
| Dispatcher.RenderAppend | PRX/main.c:159-201 | the output of consecutive calls is the concatenation of their outputs |
| Dispatcher.OccurrencesAppend | PRX/main.c:159-201 | call counts add up over consecutive runs of calls |
| Dispatcher.HeartbeatAtOneSecond | PRX/main.c:165-169 | at clock 1000 with the print flag set, a pass with no data prints exactly " 1 sec\r\n" |
| Dispatcher.TraceOfTwoBytes | PRX/main.c:172-192 | bytes 0xab 0xcd on pipe 2 print exactly "rf rcv in pipe = 2, len = 2:: ab cd\r\n" |
| Dispatcher.LineOfTwoBytes | PRX/main.c:179-184 | the packet line for bytes 0xab 0xcd on pipe 2 is "rf rcv in pipe = 2, len = 2:: ab cd\r\n" |
| Dispatcher.HeaderOfPipeTwo | PRX/main.c:179-180 | the header for pipe 2 and length 2 is "rf rcv in pipe = 2, len = 2::" |
| Dispatcher.TokensOfTwoBytes | PRX/main.c:182-183 | bytes 0xab 0xcd print as " ab cd" |
| Schedule.Step | PRX/main.c:234-237 | the trace never shrinks; an interrupt makes no collaborator call; a pass leaves the counter and the clock as they were |
| Schedule.Run | PRX/main.c:234-237 | along a run from a state between interrupts, the counter stays below 10 |
| Schedule.RunClock | PRX/main.c:92-201 | whatever passes are interleaved, the counter and the clock are those of the interrupts alone |
| Schedule.RunFromBoot | PRX/main.c:87-201 | from boot, after any schedule with `n` interrupts the clock reads (n/10) mod 2^32 |
| Schedule.RunFetchRelease | PRX/main.c:172-191 | over any run, fetches, releases, trace headers and packets offered by the radio are equal in number; every fetch is followed by its trace line and its release; and, heartbeats aside, the text printed is the offered packets' trace lines in order |
| Schedule.OfferedPackets | PRX/main.c:172-177 | the packets the radio handed over during a run, in order: as many as the passes that found data, each fitting the buffer |
| Schedule.RunTraceLines | PRX/main.c:165-199 | by induction over the run: one trace header per offered packet, and, heartbeats aside, the text is the offered packets' trace lines one after the other, each listing its bytes in order |
| Schedule.PassHeaders | PRX/main.c:172-191 | a pass adds one trace header when the radio has a packet and none otherwise |
| Schedule.AppendTraceLine | PRX/main.c:179-184 | calls printing a packet's trace line extend the lines printed so far by that line |
| Schedule.RunOutputStep | PRX/main.c:165-199 | the whole text grows step by step: an interrupt prints nothing, and a pass appends the heartbeat if the run left the print flag set, then the trace line of its packet if any |
| Schedule.Nominal | PRX/main.c:234-237 | a nominal schedule has one interrupt and one pass per round |
| Schedule.NominalShape | PRX/main.c:234-237 | a nominal schedule of `n` rounds is valid and contains `n` interrupts |
| Schedule.NominalRunAccount | PRX/main.c:159-201 | a nominal run's state and its watchdog restarts do not depend on the radio's answers |
| Schedule.NominalClockTicks | PRX/main.c:94-101 | in nominal rounds the counter and the clock are those of the ticks alone |
| Schedule.CompletingTickRaisesFeed | PRX/main.c:101-104 | the interrupt that completes the first feed boundary raises the feed flag |
| Schedule.FirstBoundaryCompletesMillisecond | PRX/main.c:98-104 | the first boundary reached is the millisecond completed by the tenth tick |
| Schedule.TickOntoFeedBoundary | PRX/main.c:98-104 | a tenth tick onto a multiple of 500 raises the feed flag |
| Schedule.NominalRestartsOnBoundary | PRX/main.c:195-199 | a pending feed flag or a boundary among the completed milliseconds leads to a watchdog restart within the rounds |
| Schedule.NominalFeedsWatchdog | PRX/main.c:195-224 | in the special case of one interrupt per pass: any 5000 rounds (5000 ticks, 498.75 ms), from any state between interrupts and whatever the radio delivers, restart the watchdog at least once, and 5000 ticks last less than the 1 s timeout |
| Schedule.TrailingInterrupts | PRX/main.c:234-237 | the interrupts since the last pass are at most all the schedule's interrupts |
| Schedule.RunArmed | PRX/main.c:101-199 | after any schedule from `s`, the watchdog has been restarted, or the feed flag is pending, or no feed boundary has been reached since `s` and none was pending |
| Schedule.ArmedTick | PRX/main.c:101-104 | an interrupt keeps a run armed: the tick that reaches the first boundary raises the feed flag |
| Schedule.ArmedPass | PRX/main.c:195-199 | a pass keeps a run armed: a pending feed flag makes it restart the watchdog |
| Schedule.PassOfArmedRun | PRX/main.c:195-199 | a pass of an armed run after a feed boundary has been reached leaves at least one restart in the trace |
| Schedule.BoundaryReached | PRX/main.c:101-104 | 5000 ticks from a state between interrupts complete a feed boundary |
| Schedule.PassAfterFeedInterval | PRX/main.c:195-199 | a pass that starts after 5000 or more interrupts from `s` finds the watchdog already restarted or restarts it |
| Schedule.LastPassRestarts | PRX/main.c:195-199 | a schedule whose last pass comes after 5000 of its interrupts contains a restart |
| Schedule.RunFeedsWatchdog | PRX/main.c:101-224 | when passes start at most `k` interrupts apart, any 5000 + `k` interrupts from a state between interrupts, whatever the radio delivers and however the interrupts fall between passes, contain a `hal_wdog_restart`; at the nominal 16 MHz and 32.768 kHz, those ticks last less than the 1 s timeout for `k` <= 5025, and less than 0.6 s for `k` <= 400 |
| Schedule.FeedStretchTiming | PRX/main.c:75-224 | at the nominal clock frequencies, 5000 + `k` ticks last less than the watchdog timeout for `k` <= 5025, and less than six tenths of it for `k` <= 400 |
| Schedule.PassFetchRelease | PRX/main.c:172-191 | a pass adds one fetch and one release when the radio has a packet, none otherwise, and keeps fetches paired |
| Schedule.RunFetchAccount | PRX/main.c:172-191 | by induction over the run: fetches and releases both number the packets offered, and fetches are paired |
| Node.Receiver.constructor | PRX/main.c:80-94 | the globals start zeroed and nothing has been called yet |
| Node.Receiver.TimerIrq | PRX/main.c:92-110 | the handler's new state is `Tick` of its old state and keeps the counter below 10; nine interrupts in ten only count, and the tenth resets the counter, advances the 32-bit clock and raises each flag whose interval the new value completes; no collaborator is called |
| Node.Receiver.ElapsedMs | PRX/main.c:133-136 | returns the millisecond clock |
| Node.Receiver.RunEventLoop | PRX/main.c:159-201 | the new state and the calls appended to the trace are those of `Pass`, and the counter stays below 10 |
| Node.Receiver.ShowTime | PRX/main.c:165-169 | prints the heartbeat if due and clears the print flag |
| Node.Receiver.ServiceRadio | PRX/main.c:172-192 | appends the radio block's calls for the radio's answer and leaves the state untouched |
| Node.Receiver.PrintPayload | PRX/main.c:182-183 | appends one print call per buffered byte, in order |
| Node.Receiver.FeedWatchdog | PRX/main.c:195-199 | restarts the watchdog if due and clears the feed flag |

## Left out

- Special-function-register writes (`TMOD`, `TH0`, `TL0`, `ET0`, `TR0`, `P0DIR`, `EA`) are hardware plumbing and are not modelled. This includes `TL0 = TH1` at PRX/main.c:125, which reads `TH1` where `TH0` was evidently meant. Only the reload value computed for `TH0` is modelled (`Timing.TimerReload`).
- The HAL and ESB calls `hal_clk_*`, `hal_uart_init`, `hal_wdog_init`, `esb_prx_init` and the ESB engine are foreign code. The radio and watchdog calls made by the dispatcher appear only as `Event`s, and the radio's answers are the parameter `rx`.
- The busy-wait loops at PRX/main.c:71 and 226 wait for hardware readiness. They only affect liveness and are not modelled.
- The UART and `putchar` are output. `printf` is recorded as a call with its arguments, and `Output` gives its characters. Format-string parsing is not modelled; only the conversions in use are.
- The LED and buzzer code under `_ENABLE_LED_AND_BEEP` (PRX/main.c:42-46, 142-153, 185-190) is disabled by default, as is `delay_ms`, and it only affects timing.
- The `_ENABLE_POWER_SAVING` branch (PRX/main.c:217-222) needs `POWER_SAVING_TIME_IN_SEC`, which is not defined in this file.
- The boot order in `main` (PRX/main.c:204-237) is not modelled: initialisation calls followed by the endless loop. The loop is covered by the `Schedule` module's interleavings.
- `initialized_notification` (PRX/main.c:139-155) prints a fixed welcome line once at boot. It is not part of this model.
- Interrupts inside a pass are not modelled: each interrupt is an atomic step between passes. This leaves out two things:
  - `get_elasped_time_in_ms` reads the 32-bit clock in several 8-bit accesses, so an interrupt in the middle can tear the read.
  - A flag is cleared after the call it guards, so an interrupt raising the flag in between would be lost.
- `ESB_MAX_PAYLOAD_LEN` is defined in a header that is not part of this model. It is taken as 32, the nRF24 payload limit (`Dispatcher.MaxPayloadLen`). The radio driver is assumed never to report more bytes than that (`Dispatcher.ValidAnswer`).
- The flags are `uint8_t` in the source but only ever hold 0 or 1, so they are modelled as `bool`. The pipe (`hal_nrf_address_t`, printed with `%bu`) is modelled as a byte.
- Timing.TicksPerMs is written as its value 10. `Timing.TicksPerMsIsQuotient` proves that it equals the source's quotient `ONE_MILLI_SEC_IN_US/MINI_TIME_SCALE_IN_US`.
- Schedule.RunFeedsWatchdog: the bound `k` on interrupts between the starts of passes is a hypothesis. The model does not derive it from the UART's speed and the length of the printed lines, because the duration of `printf` is not modelled.
- Schedule.RunFeedsWatchdog: the timing clauses hold at the nominal 16 MHz crystal and 32.768 kHz watchdog clock. The tolerance of the 32 kHz RC oscillator (`HAL_CLKLF_RCOSC32K`, PRX/main.c:68-69) is not modelled; for `k` up to 5025 the margin is about 6 ppm, and for `k` up to 400 it is at least 40%.
- Schedule.RunFeedsWatchdog: the bound of 400 ticks for a pass that prints a heartbeat and a full trace line is an estimate from the line lengths at 38400 baud (about 37 ms for the 142 characters of the two lines), not a proved fact.
- Schedule.RunFeedsWatchdog: the stretch is stated as a whole run from an arbitrary state between interrupts rather than as a window inside a longer run. `Schedule.Run` keeps the counter below 10, so every such window starts in a state the lemma covers, but a lemma that splits a run into two is not part of this model.
- Clock.CrossedWithinInterval is proved for the two intervals the firmware uses (500 and 1000 ms), not for an arbitrary interval.
