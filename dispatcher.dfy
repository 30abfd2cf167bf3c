/**
 * One pass of `run_event_loop` as a function of the flags and clock it reads
 * and of the radio's answer, together with the calls it makes on its
 * collaborators, recorded as events in call order.  A `printf` call is
 * recorded with the arguments of its format; `Output` renders the text.
 */
module Dispatcher {
  import opened Types
  import opened Format
  import opened Clock

  /** `ESB_MAX_PAYLOAD_LEN`, the size of the receive buffer (the nRF24 payload limit). */
  const MaxPayloadLen: nat := 32

  /** What `esb_fetch_received_data` hands back: the pipe and the payload bytes (their count is `len`). */
  datatype Packet = Packet(pipe: uint8, payload: seq<uint8>)

  /** The radio collaborator never reports more bytes than the buffer holds. */
  predicate FitsBuffer(p: Packet)
  {
    |p.payload| <= MaxPayloadLen
  }

  /** The radio's answer for one pass: None when `is_esb_received_data()` returns 0. */
  predicate ValidAnswer(rx: Option<Packet>)
  {
    rx.Some? ==> FitsBuffer(rx.value)
  }

  /** A call the dispatcher makes on a collaborator. */
  datatype Event =
    | PrintTime(seconds: nat)                    // printf(" %lu sec\r\n", seconds)
    | PrintPacketHeader(pipe: uint8, len: uint8) // printf("rf rcv in pipe = %bu, len = %bu::", pipe, len)
    | PrintByte(b: uint8)                        // printf(" %02bx", b)
    | PrintLineEnd                               // printf("\r\n")
    | PollRadio(ready: bool)                     // is_esb_received_data(), with the answer
    | FetchPacket(pipe: uint8, len: uint8)       // esb_fetch_received_data(&pipe, buffer, &len)
    | ReleasePacket                              // esb_receiving_event_has_been_done()
    | RestartWatchdog                            // hal_wdog_restart()

  predicate IsPrint(e: Event)
  {
    e.PrintTime? || e.PrintPacketHeader? || e.PrintByte? || e.PrintLineEnd?
  }

  /** The characters one call sends to the diagnostic channel. */
  function Text(e: Event): (t: string)
    ensures !IsPrint(e) ==> t == ""
  {
    match e
    case PrintTime(seconds) => Heartbeat(seconds)
    case PrintPacketHeader(pipe, len) => PacketHeader(pipe, len)
    case PrintByte(b) => HexToken(b)
    case PrintLineEnd => LineEnd
    case _ => ""
  }

  /** The characters sent by a run of events, each event rendered by `text`. */
  function Render(events: seq<Event>, text: Event -> string): string
  {
    if events == [] then "" else Render(events[..|events| - 1], text) + text(events[|events| - 1])
  }

  lemma {:induction false} RenderAppend(a: seq<Event>, b: seq<Event>, text: Event -> string)
    ensures Render(a + b, text) == Render(a, text) + Render(b, text)
    decreases |b|
  {
    if b == [] {
      assert a + b == a;
    } else {
      var front := b[..|b| - 1];
      assert (a + b)[..|a + b| - 1] == a + front;
      RenderAppend(a, front, text);
    }
  }

  lemma RenderAppend3(a: seq<Event>, b: seq<Event>, c: seq<Event>, text: Event -> string)
    ensures Render(a + b + c, text) == Render(a, text) + Render(b, text) + Render(c, text)
  {
    RenderAppend(a + b, c, text);
    RenderAppend(a, b, text);
  }

  lemma RenderSingle(e: Event, text: Event -> string)
    ensures Render([e], text) == text(e)
  {
    assert [e][..0] == [];
  }

  /** The characters sent to the diagnostic channel by a run of events. */
  function Output(events: seq<Event>): string
  {
    Render(events, Text)
  }

  /** Number of events of a given kind. */
  function Occurrences(events: seq<Event>, kind: Event -> bool): nat
  {
    if events == [] then 0
    else Occurrences(events[..|events| - 1], kind) + (if kind(events[|events| - 1]) then 1 else 0)
  }

  lemma {:induction false} OccurrencesAppend(a: seq<Event>, b: seq<Event>, kind: Event -> bool)
    ensures Occurrences(a + b, kind) == Occurrences(a, kind) + Occurrences(b, kind)
    decreases |b|
  {
    if b == [] {
      assert a + b == a;
    } else {
      var front := b[..|b| - 1];
      assert (a + b)[..|a + b| - 1] == a + front;
      OccurrencesAppend(a, front, kind);
    }
  }

  lemma OccurrencesAppend3(a: seq<Event>, b: seq<Event>, c: seq<Event>, kind: Event -> bool)
    ensures Occurrences(a + b + c, kind) == Occurrences(a, kind) + Occurrences(b, kind) + Occurrences(c, kind)
  {
    OccurrencesAppend(a + b, c, kind);
    OccurrencesAppend(a, b, kind);
  }

  lemma OneOccurrence(e: Event, kind: Event -> bool)
    ensures Occurrences([e], kind) == if kind(e) then 1 else 0
  {
    assert [e][..0] == [];
  }

  lemma NoOccurrences(events: seq<Event>, kind: Event -> bool)
    requires forall i :: 0 <= i < |events| ==> !kind(events[i])
    ensures Occurrences(events, kind) == 0
  {
    if events != [] {
      NoOccurrences(events[..|events| - 1], kind);
    }
  }

  predicate IsFetch(e: Event) { e.FetchPacket? }
  predicate IsRelease(e: Event) { e == ReleasePacket }
  predicate IsRestart(e: Event) { e == RestartWatchdog }
  predicate IsPoll(e: Event) { e.PollRadio? }

  /** The byte loop of lines 182-183: one printf per byte, in order. */
  function ByteEvents(bytes: seq<uint8>): (r: seq<Event>)
    ensures |r| == |bytes|
    ensures forall i :: 0 <= i < |bytes| ==> r[i] == PrintByte(bytes[i])
  {
    if bytes == [] then [] else ByteEvents(bytes[..|bytes| - 1]) + [PrintByte(bytes[|bytes| - 1])]
  }

  lemma {:induction false} ByteEventsOutput(bytes: seq<uint8>)
    ensures Output(ByteEvents(bytes)) == HexTokens(bytes)
    decreases |bytes|
  {
    if bytes != [] {
      var front := bytes[..|bytes| - 1];
      ByteEventsOutput(front);
      RenderAppend(ByteEvents(front), [PrintByte(bytes[|bytes| - 1])], Text);
      RenderSingle(PrintByte(bytes[|bytes| - 1]), Text);
    }
  }

  /** Lines 165-169. */
  function HeartbeatStep(s: ClockState): (r: seq<Event>)
    // one line exactly when the print flag is set, giving the whole seconds elapsed
    ensures |r| <= 1 && (r != [] <==> s.printTime)
    ensures r != [] ==> r[0].PrintTime? && r[0].seconds * 1000 <= s.elapsedMs < (r[0].seconds + 1) * 1000
  {
    if s.printTime then [PrintTime(s.elapsedMs / 1000)] else []
  }

  /** The printed part of a fetch (lines 179-184): header, one token per byte, line end. */
  function TraceEvents(p: Packet): (r: seq<Event>)
    requires FitsBuffer(p)
    // the header gives the pipe and the true length, one event per byte follows, and the line is ended
    ensures |r| == |p.payload| + 2
    ensures r[0] == PrintPacketHeader(p.pipe, |p.payload|) && r[|r| - 1] == PrintLineEnd
  {
    [PrintPacketHeader(p.pipe, |p.payload|)] + ByteEvents(p.payload) + [PrintLineEnd]
  }

  /** Lines 172-192: poll, and on data fetch, trace and release. */
  function PacketStep(rx: Option<Packet>): (r: seq<Event>)
    requires ValidAnswer(rx)
    // one poll first, with the radio's answer; on data, the fetch follows and the release ends the step
    ensures |r| == (if rx.Some? then |rx.value.payload| + 5 else 1)
    ensures r[0] == PollRadio(rx.Some?)
    ensures rx.Some? ==>
      r[1] == FetchPacket(rx.value.pipe, |rx.value.payload|) && r[|r| - 1] == ReleasePacket
  {
    match rx
    case None => [PollRadio(false)]
    case Some(p) => [PollRadio(true), FetchPacket(p.pipe, |p.payload|)] + TraceEvents(p) + [ReleasePacket]
  }

  /** Lines 195-199. */
  function WatchdogStep(s: ClockState): (r: seq<Event>)
    // one restart exactly when the feed flag is set
    ensures |r| <= 1 && (r != [] <==> s.feedWatchdog)
    ensures r != [] ==> r[0] == RestartWatchdog
  {
    if s.feedWatchdog then [RestartWatchdog] else []
  }

  datatype PassResult = PassResult(clock: ClockState, events: seq<Event>)

  /** One call of `run_event_loop`, with no interrupt taken during it. */
  function Pass(s: ClockState, rx: Option<Packet>): (r: PassResult)
    requires ValidAnswer(rx)
    // a serviced flag is cleared, an idle flag stays clear, and nothing else in the clock changes
    ensures !r.clock.printTime && !r.clock.feedWatchdog
    ensures r.clock.counter == s.counter && r.clock.elapsedMs == s.elapsedMs
  {
    PassResult(s.(printTime := false, feedWatchdog := false),
               HeartbeatStep(s) + PacketStep(rx) + WatchdogStep(s))
  }

  /**
   * Order within one pass: the heartbeat (if the print flag was set) comes
   * first, then exactly one radio poll, then any fetch and release, and the
   * watchdog restart (if the feed flag was set) is the very last call.
   */
  lemma PassOrder(s: ClockState, rx: Option<Packet>)
    requires ValidAnswer(rx)
    ensures var ev := Pass(s, rx).events; var k := if s.printTime then 1 else 0;
      k < |ev| &&
      (s.printTime ==> ev[0] == PrintTime(s.elapsedMs / 1000)) &&
      ev[k] == PollRadio(rx.Some?) &&
      (forall i :: 0 <= i < |ev| && IsPoll(ev[i]) ==> i == k) &&
      (forall i :: 0 <= i < |ev| && (IsFetch(ev[i]) || IsRelease(ev[i])) ==> k < i) &&
      (forall i :: 0 <= i < |ev| && IsRestart(ev[i]) ==> s.feedWatchdog && i == |ev| - 1) &&
      (s.feedWatchdog ==> ev[|ev| - 1] == RestartWatchdog)
  {
    var h, r, w := HeartbeatStep(s), PacketStep(rx), WatchdogStep(s);
    var ev := Pass(s, rx).events;
    var k := |h|;
    assert ev == h + r + w;
    PacketStepShape(rx);
    forall i | 0 <= i < |ev|
      ensures IsPoll(ev[i]) ==> i == k
      ensures IsFetch(ev[i]) || IsRelease(ev[i]) ==> k < i
      ensures IsRestart(ev[i]) ==> s.feedWatchdog && i == |ev| - 1
    {
      if i < k {
        assert ev[i] == h[i];
      } else if i < k + |r| {
        assert ev[i] == r[i - k];
      } else {
        assert ev[i] == w[i - k - |r|];
      }
    }
  }

  lemma TraceEventsPrint(p: Packet)
    requires FitsBuffer(p)
    ensures forall i :: 0 <= i < |TraceEvents(p)| ==> IsPrint(TraceEvents(p)[i])
  {
    var t := TraceEvents(p);
    var b := ByteEvents(p.payload);
    forall i | 0 <= i < |t|
      ensures IsPrint(t[i])
    {
      if 0 < i < |t| - 1 {
        assert t[i] == b[i - 1];
      }
    }
  }

  /**
   * The radio part of a pass starts with the poll and has no other poll and
   * no restart; after a "ready" answer come the fetch, the trace and the release.
   */
  lemma PacketStepShape(rx: Option<Packet>)
    requires ValidAnswer(rx)
    ensures var r := PacketStep(rx);
      |r| >= 1 && r[0] == PollRadio(rx.Some?) &&
      (forall i :: 0 < i < |r| ==> !IsPoll(r[i]) && !IsRestart(r[i]))
    ensures rx.None? ==> |PacketStep(rx)| == 1
    ensures rx.Some? ==> var r, n := PacketStep(rx), |rx.value.payload|;
      |r| == n + 5 && r[1] == FetchPacket(rx.value.pipe, n) &&
      r[2..n + 4] == TraceEvents(rx.value) && r[n + 4] == ReleasePacket
  {
    if rx.Some? {
      var p := rx.value;
      var r, t := PacketStep(rx), TraceEvents(p);
      var head := [PollRadio(true), FetchPacket(p.pipe, |p.payload|)];
      assert r == head + t + [ReleasePacket];
      assert r[2..|p.payload| + 4] == t;
      TraceEventsPrint(p);
      forall i | 0 < i < |r|
        ensures !IsPoll(r[i]) && !IsRestart(r[i])
      {
        if 2 <= i < |r| - 1 {
          assert r[i] == t[i - 2];
        }
      }
    }
  }

  lemma TraceEventsOutput(p: Packet)
    requires FitsBuffer(p)
    ensures Output(TraceEvents(p)) == PacketTrace(p.pipe, p.payload)
  {
    RenderAppend3([PrintPacketHeader(p.pipe, |p.payload|)], ByteEvents(p.payload), [PrintLineEnd], Text);
    ByteEventsOutput(p.payload);
    RenderSingle(PrintPacketHeader(p.pipe, |p.payload|), Text);
    RenderSingle(PrintLineEnd, Text);
  }

  lemma TraceEventsSilent(p: Packet, kind: Event -> bool)
    requires FitsBuffer(p)
    requires forall e :: IsPrint(e) ==> !kind(e)
    ensures Occurrences(TraceEvents(p), kind) == 0
  {
    NoOccurrences(TraceEvents(p), kind);
  }

  /** Radio part alone: one fetch and one release when data was ready, none otherwise; never a restart. */
  lemma PacketStepCounts(rx: Option<Packet>)
    requires ValidAnswer(rx)
    ensures Occurrences(PacketStep(rx), IsFetch) == (if rx.Some? then 1 else 0)
    ensures Occurrences(PacketStep(rx), IsRelease) == (if rx.Some? then 1 else 0)
    ensures Occurrences(PacketStep(rx), IsRestart) == 0
  {
    match rx
    case None =>
      OneOccurrence(PollRadio(false), IsFetch);
      OneOccurrence(PollRadio(false), IsRelease);
      OneOccurrence(PollRadio(false), IsRestart);
    case Some(p) =>
      FetchedPacketCounts(p, IsFetch);
      FetchedPacketCounts(p, IsRelease);
      FetchedPacketCounts(p, IsRestart);
  }

  lemma FetchedPacketCounts(p: Packet, kind: Event -> bool)
    requires FitsBuffer(p)
    requires !kind(PollRadio(true))
    requires forall e :: IsPrint(e) ==> !kind(e)
    ensures Occurrences(PacketStep(Some(p)), kind) ==
      (if kind(FetchPacket(p.pipe, |p.payload|)) then 1 else 0) + (if kind(ReleasePacket) then 1 else 0)
  {
    var head := [PollRadio(true), FetchPacket(p.pipe, |p.payload|)];
    assert head == [PollRadio(true)] + [FetchPacket(p.pipe, |p.payload|)];
    OccurrencesAppend3(head, TraceEvents(p), [ReleasePacket], kind);
    OccurrencesAppend([PollRadio(true)], [FetchPacket(p.pipe, |p.payload|)], kind);
    OneOccurrence(PollRadio(true), kind);
    OneOccurrence(FetchPacket(p.pipe, |p.payload|), kind);
    OneOccurrence(ReleasePacket, kind);
    TraceEventsSilent(p, kind);
  }

  lemma FlagStepCounts(s: ClockState, kind: Event -> bool)
    requires forall e :: IsPrint(e) ==> !kind(e)
    ensures Occurrences(HeartbeatStep(s), kind) == 0
    ensures Occurrences(WatchdogStep(s), kind) == if s.feedWatchdog && kind(RestartWatchdog) then 1 else 0
  {
    if s.printTime { OneOccurrence(HeartbeatStep(s)[0], kind); }
    if s.feedWatchdog { OneOccurrence(RestartWatchdog, kind); }
  }

  /**
   * Calls per pass: the pass fetches and releases once when the poll said
   * "ready" and never otherwise, and restarts the watchdog once exactly when
   * the feed flag was set.
   */
  lemma PassCounts(s: ClockState, rx: Option<Packet>)
    requires ValidAnswer(rx)
    ensures Occurrences(Pass(s, rx).events, IsFetch) == (if rx.Some? then 1 else 0)
    ensures Occurrences(Pass(s, rx).events, IsRelease) == (if rx.Some? then 1 else 0)
    ensures Occurrences(Pass(s, rx).events, IsRestart) == (if s.feedWatchdog then 1 else 0)
  {
    var h, r, w := HeartbeatStep(s), PacketStep(rx), WatchdogStep(s);
    OccurrencesAppend3(h, r, w, IsFetch);
    OccurrencesAppend3(h, r, w, IsRelease);
    OccurrencesAppend3(h, r, w, IsRestart);
    PacketStepCounts(rx);
    FlagStepCounts(s, IsFetch);
    FlagStepCounts(s, IsRelease);
    FlagStepCounts(s, IsRestart);
  }

  /**
   * Where the fetched packet goes: right after the "ready" poll comes the
   * fetch, then the printed trace line of that packet, then the release.
   */
  lemma PassFetchThenRelease(s: ClockState, p: Packet)
    requires FitsBuffer(p)
    ensures var ev := Pass(s, Some(p)).events; var k := if s.printTime then 1 else 0;
      var release := k + |p.payload| + 4;
      release < |ev| &&
      ev[k] == PollRadio(true) && ev[k + 1] == FetchPacket(p.pipe, |p.payload|) &&
      ev[k + 2..release] == TraceEvents(p) &&
      ev[release] == ReleasePacket
  {
    var h, r, w := HeartbeatStep(s), PacketStep(Some(p)), WatchdogStep(s);
    var ev := Pass(s, Some(p)).events;
    var k, n := |h|, |p.payload|;
    assert ev == h + r + w;
    PacketStepShape(Some(p));
    MiddleOfConcat(h, r, w, 2, n + 4);
    assert ev[k] == r[0] && ev[k + 1] == r[1] && ev[k + n + 4] == r[n + 4];
  }

  lemma MiddleOfConcat(h: seq<Event>, r: seq<Event>, w: seq<Event>, i: nat, j: nat)
    requires i <= j <= |r|
    ensures (h + r + w)[|h| + i..|h| + j] == r[i..j]
  {
  }

  /** The text one pass prints: the heartbeat line if due, then the packet's trace line if one was fetched. */
  lemma PassOutput(s: ClockState, rx: Option<Packet>)
    requires ValidAnswer(rx)
    ensures Output(Pass(s, rx).events) ==
      (if s.printTime then Heartbeat(s.elapsedMs / 1000) else "") +
      (if rx.Some? then PacketTrace(rx.value.pipe, rx.value.payload) else "")
  {
    var h, r, w := HeartbeatStep(s), PacketStep(rx), WatchdogStep(s);
    assert Pass(s, rx).events == h + r + w;
    RenderAppend3(h, r, w, Text);
    HeartbeatStepOutput(s);
    WatchdogStepOutput(s);
    PacketStepOutput(rx);
  }

  lemma HeartbeatStepOutput(s: ClockState)
    ensures Output(HeartbeatStep(s)) == if s.printTime then Heartbeat(s.elapsedMs / 1000) else ""
  {
    if s.printTime { RenderSingle(PrintTime(s.elapsedMs / 1000), Text); }
  }

  lemma WatchdogStepOutput(s: ClockState)
    ensures Output(WatchdogStep(s)) == ""
  {
    if s.feedWatchdog { RenderSingle(RestartWatchdog, Text); }
  }

  lemma PacketStepOutput(rx: Option<Packet>)
    requires ValidAnswer(rx)
    ensures Output(PacketStep(rx)) == if rx.Some? then PacketTrace(rx.value.pipe, rx.value.payload) else ""
  {
    match rx
    case None =>
      RenderSingle(PollRadio(false), Text);
    case Some(p) =>
      var head := [PollRadio(true), FetchPacket(p.pipe, |p.payload|)];
      assert head == [PollRadio(true)] + [FetchPacket(p.pipe, |p.payload|)];
      RenderAppend3(head, TraceEvents(p), [ReleasePacket], Text);
      RenderAppend([PollRadio(true)], [FetchPacket(p.pipe, |p.payload|)], Text);
      RenderSingle(PollRadio(true), Text);
      RenderSingle(FetchPacket(p.pipe, |p.payload|), Text);
      RenderSingle(ReleasePacket, Text);
      TraceEventsOutput(p);
  }

  /** The only fetch of a pass is the call right after the poll. */
  lemma PassFetchPosition(s: ClockState, rx: Option<Packet>)
    requires ValidAnswer(rx)
    ensures var ev := Pass(s, rx).events; var k := if s.printTime then 1 else 0;
      forall i :: 0 <= i < |ev| && IsFetch(ev[i]) ==> rx.Some? && i == k + 1
  {
    var h, r, w := HeartbeatStep(s), PacketStep(rx), WatchdogStep(s);
    var ev := Pass(s, rx).events;
    assert ev == h + r + w;
    forall i | 0 <= i < |ev| && IsFetch(ev[i])
      ensures rx.Some? && i == |h| + 1
    {
      assert |h| <= i < |h| + |r| && r[i - |h|] == ev[i];
    }
  }

  /** A trace line of `len` bytes as calls: the header for `pipe` and `len`, `len` byte tokens, the line end. */
  predicate TraceShape(t: seq<Event>, pipe: uint8, len: uint8)
  {
    |t| == len as int + 2 && t[0] == PrintPacketHeader(pipe, len) &&
    (forall j :: 1 <= j <= len as int ==> t[j].PrintByte?) &&
    t[len as int + 1] == PrintLineEnd
  }

  lemma TraceEventsShape(p: Packet)
    requires FitsBuffer(p)
    ensures TraceShape(TraceEvents(p), p.pipe, |p.payload|)
  {
    var t, b := TraceEvents(p), ByteEvents(p.payload);
    forall j | 1 <= j <= |p.payload|
      ensures t[j].PrintByte?
    {
      assert t[j] == b[j - 1];
    }
  }

  /**
   * Every fetch in a run of events directly follows a poll that answered
   * "ready"; the trace line of the fetched pipe and length comes next, its
   * header, `len` byte tokens and line end; and the release comes right
   * after it, `len + 3` calls after the fetch.
   */
  predicate FetchesPaired(ev: seq<Event>)
  {
    forall i :: 0 <= i < |ev| && ev[i].FetchPacket? ==> PairedAt(ev, i)
  }

  /** The fetch at `i` is preceded by a "ready" poll and followed by its trace line and its release. */
  predicate PairedAt(ev: seq<Event>, i: nat)
    requires i < |ev| && ev[i].FetchPacket?
  {
    0 < i && ev[i - 1] == PollRadio(true) &&
    i + ev[i].len + 3 < |ev| &&
    TraceShape(ev[i + 1..i + ev[i].len + 3], ev[i].pipe, ev[i].len) &&
    ev[i + ev[i].len + 3] == ReleasePacket
  }

  lemma PassFetchesPaired(s: ClockState, rx: Option<Packet>)
    requires ValidAnswer(rx)
    ensures FetchesPaired(Pass(s, rx).events)
  {
    PassFetchPosition(s, rx);
    if rx.Some? {
      PassFetchThenRelease(s, rx.value);
      TraceEventsShape(rx.value);
    }
  }

  lemma FetchesPairedAppend(a: seq<Event>, b: seq<Event>)
    requires FetchesPaired(a) && FetchesPaired(b)
    ensures FetchesPaired(a + b)
  {
    forall i | 0 <= i < |a + b| && (a + b)[i].FetchPacket?
      ensures PairedAt(a + b, i)
    {
      if i < |a| {
        PairedInFront(a, b, i);
      } else {
        PairedBehind(a, b, i - |a|);
      }
    }
  }

  lemma PairedInFront(a: seq<Event>, b: seq<Event>, i: nat)
    requires i < |a| && a[i].FetchPacket? && PairedAt(a, i)
    ensures PairedAt(a + b, i)
  {
    var ev := a + b;
    assert ev[i] == a[i] && ev[i - 1] == a[i - 1];
    assert ev[i + 1..i + ev[i].len + 3] == a[i + 1..i + a[i].len + 3];
    assert ev[i + ev[i].len + 3] == a[i + a[i].len + 3];
  }

  lemma PairedBehind(a: seq<Event>, b: seq<Event>, j: nat)
    requires j < |b| && b[j].FetchPacket? && PairedAt(b, j)
    ensures PairedAt(a + b, |a| + j)
  {
    var ev, i := a + b, |a| + j;
    assert ev[i] == b[j] && ev[i - 1] == b[j - 1];
    assert ev[i + 1..i + ev[i].len + 3] == b[j + 1..j + b[j].len + 3];
    assert ev[i + ev[i].len + 3] == b[j + b[j].len + 3];
  }

  /** The text of a call when only the packet trace lines are kept: heartbeats print nothing. */
  function TraceText(e: Event): string
  {
    if e.PrintTime? then "" else Text(e)
  }

  /** Trace lines of some packets, one after the other, in order. */
  function TraceLines(ps: seq<Packet>): string
    requires forall i :: 0 <= i < |ps| ==> FitsBuffer(ps[i])
  {
    if ps == [] then ""
    else
      var last := ps[|ps| - 1];
      assert FitsBuffer(last);
      TraceLines(ps[..|ps| - 1]) + PacketTrace(last.pipe, last.payload)
  }

  lemma TraceLinesAppend(ps: seq<Packet>, p: Packet)
    requires forall i :: 0 <= i < |ps| ==> FitsBuffer(ps[i])
    requires FitsBuffer(p)
    ensures TraceLines(ps + [p]) == TraceLines(ps) + PacketTrace(p.pipe, p.payload)
  {
    assert (ps + [p])[..|ps|] == ps;
  }

  lemma {:induction false} RenderAgree(events: seq<Event>, f: Event -> string, g: Event -> string)
    requires forall i :: 0 <= i < |events| ==> f(events[i]) == g(events[i])
    ensures Render(events, f) == Render(events, g)
    decreases |events|
  {
    if events != [] {
      RenderAgree(events[..|events| - 1], f, g);
    }
  }

  /** The radio part of a pass never prints a heartbeat. */
  lemma PacketStepNoHeartbeat(rx: Option<Packet>)
    requires ValidAnswer(rx)
    ensures forall i :: 0 <= i < |PacketStep(rx)| ==> !PacketStep(rx)[i].PrintTime?
  {
    if rx.Some? {
      var p := rx.value;
      var r, t := PacketStep(rx), TraceEvents(p);
      assert r == [PollRadio(true), FetchPacket(p.pipe, |p.payload|)] + t + [ReleasePacket];
      TraceEventsShape(p);
      forall i | 0 <= i < |r|
        ensures !r[i].PrintTime?
      {
        if 2 <= i < |r| - 1 {
          assert r[i] == t[i - 2];
        }
      }
    }
  }

  /** With heartbeats left out, a pass prints the trace line of the packet it fetched, or nothing. */
  lemma PassTraceOutput(s: ClockState, rx: Option<Packet>)
    requires ValidAnswer(rx)
    ensures Render(Pass(s, rx).events, TraceText) ==
      if rx.Some? then PacketTrace(rx.value.pipe, rx.value.payload) else ""
  {
    var h, r, w := HeartbeatStep(s), PacketStep(rx), WatchdogStep(s);
    assert Pass(s, rx).events == h + r + w;
    RenderAppend3(h, r, w, TraceText);
    if s.printTime { RenderSingle(h[0], TraceText); }
    if s.feedWatchdog { RenderSingle(RestartWatchdog, TraceText); }
    PacketStepTraceOutput(rx);
  }

  lemma PacketStepTraceOutput(rx: Option<Packet>)
    requires ValidAnswer(rx)
    ensures Render(PacketStep(rx), TraceText) == if rx.Some? then PacketTrace(rx.value.pipe, rx.value.payload) else ""
  {
    PacketStepNoHeartbeat(rx);
    RenderAgree(PacketStep(rx), TraceText, Text);
    PacketStepOutput(rx);
  }

  predicate IsHeader(e: Event) { e.PrintPacketHeader? }

  /** A pass prints one trace header when the radio had a packet and none otherwise. */
  lemma PassHeaderCount(s: ClockState, rx: Option<Packet>)
    requires ValidAnswer(rx)
    ensures Occurrences(Pass(s, rx).events, IsHeader) == if rx.Some? then 1 else 0
  {
    var h, r, w := HeartbeatStep(s), PacketStep(rx), WatchdogStep(s);
    OccurrencesAppend3(h, r, w, IsHeader);
    if s.printTime { OneOccurrence(h[0], IsHeader); }
    if s.feedWatchdog { OneOccurrence(RestartWatchdog, IsHeader); }
    PacketStepHeaderCount(rx);
  }

  lemma PacketStepHeaderCount(rx: Option<Packet>)
    requires ValidAnswer(rx)
    ensures Occurrences(PacketStep(rx), IsHeader) == if rx.Some? then 1 else 0
  {
    match rx
    case None =>
      OneOccurrence(PollRadio(false), IsHeader);
    case Some(p) =>
      var head := [PollRadio(true), FetchPacket(p.pipe, |p.payload|)];
      var header, bytes := PrintPacketHeader(p.pipe, |p.payload|), ByteEvents(p.payload);
      assert head == [PollRadio(true)] + [FetchPacket(p.pipe, |p.payload|)];
      OccurrencesAppend3(head, TraceEvents(p), [ReleasePacket], IsHeader);
      OccurrencesAppend([PollRadio(true)], [FetchPacket(p.pipe, |p.payload|)], IsHeader);
      OneOccurrence(PollRadio(true), IsHeader);
      OneOccurrence(FetchPacket(p.pipe, |p.payload|), IsHeader);
      OneOccurrence(ReleasePacket, IsHeader);
      OccurrencesAppend3([header], bytes, [PrintLineEnd], IsHeader);
      OneOccurrence(header, IsHeader);
      OneOccurrence(PrintLineEnd, IsHeader);
      NoOccurrences(bytes, IsHeader);
  }

  /** A pass taken when the clock has just reached one second prints exactly " 1 sec\r\n". */
  lemma HeartbeatAtOneSecond()
    ensures Output(Pass(ClockState(0, 1000, true, true), None).events) == " 1 sec\r\n"
  {
    PassOutput(ClockState(0, 1000, true, true), None);
    assert Decimal(1) == "1";
  }

  /** Two bytes 0xab 0xcd on pipe 2: the trace line names the pipe and the length, then the bytes in lower-case hex. */
  lemma TraceOfTwoBytes()
    ensures Output(Pass(ClockState(3, 5, false, false), Some(Packet(2, [0xab, 0xcd]))).events) ==
      "rf rcv in pipe = 2, len = 2:: ab cd\r\n"
  {
    PassOutput(ClockState(3, 5, false, false), Some(Packet(2, [0xab, 0xcd])));
    LineOfTwoBytes();
  }

  lemma LineOfTwoBytes()
    ensures PacketTrace(2, [0xab, 0xcd]) == "rf rcv in pipe = 2, len = 2:: ab cd\r\n"
  {
    HeaderOfPipeTwo();
    TokensOfTwoBytes();
  }

  lemma HeaderOfPipeTwo()
    ensures PacketHeader(2, 2) == "rf rcv in pipe = 2, len = 2::"
  {
    assert Decimal(2) == "2";
  }

  lemma TokensOfTwoBytes()
    ensures HexTokens([0xab, 0xcd]) == " ab cd"
  {
    assert Hex2(0xab) == "ab" && Hex2(0xcd) == "cd";
    assert [0xab, 0xcd][..1] == [0xab];
    assert [0xab][..0] == [];
  }
}
