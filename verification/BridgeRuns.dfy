/**
  Theorems about whole runs of the bridge: every interleaving of the locked
  steps of its tasks with the bytes of both streams.
*/
module BridgeRuns {
  import opened Wire
  import opened Protocol
  import opened Commands
  import opened Framing
  import opened Bridge

  datatype What =
    | PanelByte(b: Byte) | PanelIdle | PublishPanel
    | MainByte(m: Byte) | MainIdle | PublishMain
    | Queue(ready: bool, request: Request)
    | ArmTakeover | FinishTakeover(ok: bool)
    | Watchdog
    | SetReady(on: bool)

  /** One step of some task at a time on the shared microsecond clock. */
  datatype Event = At(now: int, what: What)

  function Step(p: Profile, s: State, e: Event): State {
    match e.what
    case PanelByte(b) => PanelByteStep(p, s, e.now, b)
    case PanelIdle => s.(panelIn := Flushed(s.panelIn))
    case PublishPanel => PublishPanelStep(s, e.now)
    case MainByte(b) => MainByteStep(p, s, b)
    case MainIdle => s.(mainIn := Flushed(s.mainIn))
    case PublishMain => PublishMainStep(s, e.now)
    case Queue(ready, r) => QueueStep(p, s, e.now, ready, r)
    case ArmTakeover => ArmTakeoverStep(s, e.now)
    case FinishTakeover(ok) => FinishTakeoverStep(s, ok)
    case Watchdog => WatchdogStep(s, e.now)
    case SetReady(on) => SetReadyStep(p, s, on)
  }

  function Run(p: Profile, events: seq<Event>): State {
    if events == [] then BOOT else Step(p, Run(p, events[..|events| - 1]), events[|events| - 1])
  }

  /** A stream task publishes the frame it completed before it reads on. */
  predicate Enabled(s: State, what: What) {
    && (what.PanelByte? || what.PanelIdle? ==> s.panelUpdate.None?)
    && (what.MainByte? || what.MainIdle? ==> s.mainUpdate.None?)
  }

  /** Every step is one its task can make, and the clock never runs backwards. */
  predicate Legal(p: Profile, events: seq<Event>) {
    events != [] ==>
      var n := |events| - 1;
      && Legal(p, events[..n])
      && Enabled(Run(p, events[..n]), events[n].what)
      && (if n == 0 then events[0].now > 0 else events[n - 1].now <= events[n].now)
  }

  function Now(events: seq<Event>): int {
    if events == [] then 0 else events[|events| - 1].now
  }

  // ----- what every step keeps -----

  /** All places that say whether a command is pending say the same. */
  predicate Agreed(s: State) {
    && s.overlay.active == s.overlay.confirmationPending
    && s.overlay.active == s.report.commandPending
    && s.overlay.active == s.report.overrideActive
    && s.overlay.active == (s.report.status == Pending)
    && (!s.overlay.active ==> !s.overlay.takeoverPending && !s.overlay.takeoverReady)
    && s.report.commandSequence == s.overlay.sequence
  }

  predicate RoutesFit(p: Profile, s: State) {
    && (s.overlay.takeoverPending ==> p.hwForward && !p.loopControl)
    && (s.takeoverArmed ==> p.hwForward && !p.loopControl)
    && (p.loopControl ==> !s.overlay.takeoverReady)
    && (!p.controlVerified ==> !s.overlay.active)
  }

  predicate FramesKept(s: State) {
    && Wellformed(s.panelIn) && Wellformed(s.mainIn)
    && |s.report.panelRaw| == PANEL_SIZE
    && (s.report.panelValid ==> PanelFrame(s.report.panelRaw))
    && (s.panelUpdate.Some? ==> PanelFrame(s.panelUpdate.value.frame))
    && (s.mainUpdate.Some? ==> MainFrame(s.mainUpdate.value))
    && (s.prepared.Some? ==> PanelFrame(s.prepared.value))
    && (forall i :: 0 <= i < |s.toPanel| ==> MainFrame(s.toPanel[i]))
  }

  predicate SameCommand(a: Report, b: Report) {
    && a.overrideActive == b.overrideActive && a.commandPending == b.commandPending
    && a.commandSequence == b.commandSequence && a.status == b.status
  }

  /** Nothing about commands changes, except that the event marker may be spent while a command is pending. */
  predicate Carries(p: Profile, s: State, t: State) {
    && SameCommand(s.report, t.report)
    && t.overlay == s.overlay.(eventPending := t.overlay.eventPending)
    && (t.overlay.eventPending ==> s.overlay.eventPending)
    && (t.overlay.eventPending == s.overlay.eventPending || (s.overlay.active && !p.loopControl))
  }

  /** The pending command ends, and with it every flag that could still act for it. */
  predicate Ends(s: State, t: State) {
    && s.overlay.active && !t.overlay.active && !t.overlay.confirmationPending
    && !t.overlay.takeoverPending && !t.overlay.takeoverReady
    && t.overlay.sequence == s.overlay.sequence
    && t.report.status in {Confirmed, TimedOut, Cancelled}
    && !t.report.overrideActive && !t.report.commandPending
    && t.report.commandSequence == s.report.commandSequence
  }

  /** A pending takeover becomes ready. */
  predicate TakesOver(s: State, t: State) {
    && s.takeoverArmed && s.overlay.active && s.overlay.takeoverPending
    && t.overlay == s.overlay.(takeoverPending := false, takeoverReady := true)
    && SameCommand(s.report, t.report)
  }

  predicate Accepted(p: Profile, s: State, e: Event) {
    e.what.Queue? && Accepts(p, s, e.now, e.what.ready, e.what.request)
  }

  /** Panel frame completed by a byte, if any. */
  function CompletedPanel(s: Stream, b: Byte): Option<seq<Byte>> {
    var r := Consume(s, b);
    if r.frame.Some? && ChecksumValid(r.frame.value) && |r.frame.value| == PANEL_SIZE then r.frame else None
  }

  function CompletedMain(s: Stream, b: Byte): Option<seq<Byte>> {
    var r := Consume(s, b);
    if r.frame.Some? && ChecksumValid(r.frame.value) && |r.frame.value| == MAIN_SIZE then r.frame else None
  }

  /** Forwarding a byte touches the outgoing side only. */
  function Forwarded(p: Profile, s: State, now: int, b: Byte): (t: State)
    ensures t == s.(panelIn := Consume(s.panelIn, b).next, lastPanelByte := now,
                    prepared := t.prepared, burst := t.burst, toMain := t.toMain)
  {
    var r := Consume(s.panelIn, b);
    var t := s.(panelIn := r.next, lastPanelByte := now);
    match r.index
    case Some(i) => ForwardPanelByte(p, t, i, b)
    case None => t.(toMain := t.toMain + [[b]])
  }

  lemma PanelByteSplits(p: Profile, s: State, now: int, b: Byte)
    ensures PanelByteStep(p, s, now, b) ==
      match CompletedPanel(s.panelIn, b)
      case Some(f) => JudgePanelFrame(p, Forwarded(p, s, now, b), f)
      case None => Forwarded(p, s, now, b)
  {
  }

  lemma JudgeMoves(p: Profile, s: State, f: seq<Byte>)
    requires Agreed(s) && |f| == PANEL_SIZE
    ensures var t := JudgePanelFrame(p, s, f); Carries(p, s, t) || Ends(s, t)
  {
    var u := OverruleStep(p, s, f);
    assert u == s || Ends(s, u);
  }

  predicate Moves(p: Profile, s: State, t: State) {
    Carries(p, s, t) || TakesOver(s, t) || Ends(s, t)
  }

  lemma PanelByteMoves(p: Profile, s: State, now: int, b: Byte)
    requires Agreed(s)
    ensures Moves(p, s, PanelByteStep(p, s, now, b))
  {
    PanelByteSplits(p, s, now, b);
    var u := Forwarded(p, s, now, b);
    if CompletedPanel(s.panelIn, b).Some? {
      var f := CompletedPanel(s.panelIn, b).value;
      JudgeMoves(p, u, f);
      var t := JudgePanelFrame(p, u, f);
      assert Carries(p, u, t) || Ends(u, t);
    }
  }

  lemma PublishPanelMoves(p: Profile, s: State, now: int)
    ensures var t := PublishPanelStep(s, now); t.overlay == s.overlay && SameCommand(s.report, t.report)
  {
  }

  /** Moves looks at overlay, report and the armed takeover only. */
  lemma SameMoves(p: Profile, s: State, u: State, t: State)
    requires u.overlay == s.overlay && SameCommand(u.report, s.report) && u.takeoverArmed == s.takeoverArmed
    requires Moves(p, u, t)
    ensures Moves(p, s, t)
  {
  }

  lemma SettleMoves(p: Profile, s: State, parsed: MainState)
    requires Agreed(s)
    ensures Moves(p, s, Settle(s, parsed))
  {
  }

  lemma AdoptMainMoves(p: Profile, s: State, now: int, f: seq<Byte>, parsed: MainState)
    requires Agreed(s)
    ensures Moves(p, s, AdoptMain(s, now, f, parsed))
  {
    var u := s.(mainTime := now, report := Reported(s.report, f, parsed));
    SettleMoves(p, u, parsed);
    SameMoves(p, s, u, Settle(u, parsed));
  }

  lemma PublishMainMoves(p: Profile, s: State, now: int)
    requires Agreed(s)
    ensures Moves(p, s, PublishMainStep(s, now))
  {
    if s.mainUpdate.Some? && ParseMain(s.mainUpdate.value).Some? {
      var u, f := s.(mainUpdate := None), s.mainUpdate.value;
      AdoptMainMoves(p, u, now, f, ParseMain(f).value);
      SameMoves(p, s, u, AdoptMain(u, now, f, ParseMain(f).value));
    }
  }

  lemma OtherMoves(p: Profile, s: State, now: int, ok: bool)
    requires Agreed(s)
    ensures Moves(p, s, FinishTakeoverStep(s, ok))
    ensures Moves(p, s, WatchdogStep(s, now))
    ensures Moves(p, s, SetReadyStep(p, s, ok))
  {
  }

  lemma MainByteMoves(p: Profile, s: State, b: Byte)
    ensures var t := MainByteStep(p, s, b);
      t == s.(mainIn := t.mainIn, toPanel := t.toPanel, mainUpdate := t.mainUpdate)
  {
  }

  lemma StreamMoves(p: Profile, s: State, e: Event)
    requires Agreed(s)
    requires e.what.PanelByte? || e.what.PanelIdle? || e.what.PublishPanel?
             || e.what.MainByte? || e.what.MainIdle? || e.what.PublishMain?
    ensures Moves(p, s, Step(p, s, e))
  {
    match e.what {
      case PanelByte(b) => PanelByteMoves(p, s, e.now, b);
      case PublishPanel => PublishPanelMoves(p, s, e.now);
      case MainByte(b) => MainByteMoves(p, s, b);
      case PublishMain => PublishMainMoves(p, s, e.now);
      case _ =>
    }
  }

  lemma ControlMoves(p: Profile, s: State, e: Event)
    requires Agreed(s)
    requires e.what.ArmTakeover? || e.what.FinishTakeover? || e.what.Watchdog? || e.what.SetReady?
    ensures Moves(p, s, Step(p, s, e))
  {
    match e.what {
      case FinishTakeover(ok) => OtherMoves(p, s, e.now, ok);
      case Watchdog => OtherMoves(p, s, e.now, true);
      case SetReady(on) => OtherMoves(p, s, e.now, on);
      case ArmTakeover =>
    }
  }

  lemma QueueMoves(p: Profile, s: State, e: Event)
    requires e.what.Queue?
    ensures if Accepted(p, s, e) then Step(p, s, e) == Enqueued(p, s, e.now, e.what.request)
            else Step(p, s, e) == s
  {
  }

  /** Whatever happens, the command is carried along, taken over, ended, or (on an accepted request) replaced. */
  lemma StepMoves(p: Profile, s: State, e: Event)
    requires Agreed(s)
    ensures if Accepted(p, s, e) then Step(p, s, e) == Enqueued(p, s, e.now, e.what.request)
            else Moves(p, s, Step(p, s, e))
  {
    if e.what.Queue? {
      QueueMoves(p, s, e);
    } else if e.what.ArmTakeover? || e.what.FinishTakeover? || e.what.Watchdog? || e.what.SetReady? {
      ControlMoves(p, s, e);
    } else {
      StreamMoves(p, s, e);
    }
  }

  lemma StepKeepsAgreed(p: Profile, s: State, e: Event)
    requires Agreed(s)
    ensures Agreed(Step(p, s, e))
  {
    StepMoves(p, s, e);
  }

  lemma ArmedOnlyByPending(p: Profile, s: State, e: Event)
    ensures Step(p, s, e).takeoverArmed ==>
              s.takeoverArmed || (s.overlay.active && s.overlay.takeoverPending)
  {
    if e.what.PanelByte? {
      PanelByteSplits(p, s, e.now, e.what.b);
    }
  }

  lemma StepKeepsRoutes(p: Profile, s: State, e: Event)
    requires Agreed(s) && RoutesFit(p, s)
    ensures RoutesFit(p, Step(p, s, e))
  {
    StepMoves(p, s, e);
    ArmedOnlyByPending(p, s, e);
  }

  // ----- overlay lifecycle -----

  function AcceptedCount(p: Profile, events: seq<Event>): nat {
    if events == [] then 0
    else
      var n := |events| - 1;
      AcceptedCount(p, events[..n]) + (if Accepted(p, Run(p, events[..n]), events[n]) then 1 else 0)
  }

  lemma SequenceStep(p: Profile, s: State, e: Event)
    requires Agreed(s)
    ensures Step(p, s, e).overlay.sequence
            == if Accepted(p, s, e) then NextSequence(s.overlay.sequence) else s.overlay.sequence
  {
    StepMoves(p, s, e);
  }

  /** In every reachable state the command flags agree and the routes fit the profile. */
  lemma {:induction false} AlwaysAgreed(p: Profile, events: seq<Event>)
    ensures Agreed(Run(p, events)) && RoutesFit(p, Run(p, events))
  {
    if events != [] {
      var n := |events| - 1;
      AlwaysAgreed(p, events[..n]);
      StepKeepsAgreed(p, Run(p, events[..n]), events[n]);
      StepKeepsRoutes(p, Run(p, events[..n]), events[n]);
    }
  }

  /** The command sequence grows by one per accepted command and with nothing else, until it wraps. */
  lemma {:induction false} SequenceCounts(p: Profile, events: seq<Event>)
    requires AcceptedCount(p, events) < SEQUENCE_MODULUS
    ensures Run(p, events).overlay.sequence == AcceptedCount(p, events)
  {
    if events != [] {
      var n := |events| - 1;
      AlwaysAgreed(p, events[..n]);
      SequenceCounts(p, events[..n]);
      SequenceStep(p, Run(p, events[..n]), events[n]);
    }
  }

  /** And past that it is the count of accepted commands modulo 2^32. */
  lemma {:induction false} SequenceWraps(p: Profile, events: seq<Event>) returns (laps: nat)
    ensures Run(p, events).overlay.sequence < 0x1_0000_0000
    ensures AcceptedCount(p, events) == laps * 0x1_0000_0000 + Run(p, events).overlay.sequence
  {
    laps := 0;
    if events != [] {
      var n := |events| - 1;
      var s, e := Run(p, events[..n]), events[n];
      AlwaysAgreed(p, events[..n]);
      laps := SequenceWraps(p, events[..n]);
      SequenceStep(p, s, e);
      if Accepted(p, s, e) && s.overlay.sequence == 0xFFFF_FFFF {
        laps := laps + 1;
      }
    }
  }

  // ----- the request in force -----

  /** Requests accepted since the overlay was last inactive. */
  function SinceInactive(p: Profile, events: seq<Event>): seq<Request> {
    if events == [] || !Run(p, events).overlay.active then []
    else
      var n := |events| - 1;
      SinceInactive(p, events[..n])
        + (if Accepted(p, Run(p, events[..n]), events[n]) then [events[n].what.request] else [])
  }

  lemma EnqueuedActive(p: Profile, s: State, e: Event)
    requires Accepted(p, s, e)
    ensures Step(p, s, e).overlay.active
    ensures Step(p, s, e).overlay.request
            == Merge(if s.overlay.active then s.overlay.request else EMPTY_REQUEST, e.what.request)
  {
  }

  lemma CarriedRequest(p: Profile, s: State, e: Event)
    requires Agreed(s) && !Accepted(p, s, e)
    ensures Step(p, s, e).overlay.active ==> s.overlay.active && Step(p, s, e).overlay.request == s.overlay.request
  {
    StepMoves(p, s, e);
  }

  lemma FoldedSnoc(h: seq<Request>, r: Request)
    ensures Folded(h + [r]) == Merge(Folded(h), r)
  {
    assert (h + [r])[..|h|] == h;
  }

  predicate RequestFits(s: State, h: seq<Request>) {
    && (forall i :: 0 <= i < |h| ==> Admissible(h[i]))
    && (s.overlay.active <==> h != [])
    && (s.overlay.active ==> s.overlay.request == Folded(h))
  }

  lemma RequestStep(p: Profile, s: State, e: Event, h: seq<Request>)
    requires Agreed(s) && RequestFits(s, h)
    ensures var t := Step(p, s, e);
      RequestFits(t, if !t.overlay.active then [] else if Accepted(p, s, e) then h + [e.what.request] else h)
  {
    if Accepted(p, s, e) {
      EnqueuedActive(p, s, e);
      FoldedSnoc(h, e.what.request);
      assert Admissible(e.what.request);
    } else {
      CarriedRequest(p, s, e);
    }
  }

  lemma {:induction false} RequestFitsHistory(p: Profile, events: seq<Event>)
    ensures RequestFits(Run(p, events), SinceInactive(p, events))
  {
    if events != [] {
      var n := |events| - 1;
      AlwaysAgreed(p, events[..n]);
      RequestFitsHistory(p, events[..n]);
      var s, e, h := Run(p, events[..n]), events[n], SinceInactive(p, events[..n]);
      RequestStep(p, s, e, h);
      var t := Run(p, events);
      assert SinceInactive(p, events)
          == if !t.overlay.active then [] else if Accepted(p, s, e) then h + [e.what.request] else h;
    }
  }

  /**
    In every reachable state with a command pending, the request in force is
    the last-writer-wins reading of exactly the requests accepted since the
    overlay was last inactive; it is in range and never asks for the timer.
  */
  lemma RequestInForce(p: Profile, events: seq<Event>)
    requires Run(p, events).overlay.active
    ensures var h, r := SinceInactive(p, events), Run(p, events).overlay.request;
      && h != [] && (forall i :: 0 <= i < |h| ==> Admissible(h[i]))
      && LastWriterWins(r, h)
      && Admissible(r)
  {
    var h := SinceInactive(p, events);
    RequestFitsHistory(p, events);
    FoldIsLastWriterWins(h);
    FoldedIsAdmissible(h);
  }

  // ----- the watchdog -----

  /** Time of the last watchdog step, 0 before the first. */
  function LastTick(events: seq<Event>): int {
    if events == [] then 0
    else if events[|events| - 1].what.Watchdog? then events[|events| - 1].now
    else LastTick(events[..|events| - 1])
  }

  /** Time of the last accepted command. */
  function LastAccepted(p: Profile, events: seq<Event>): int {
    if events == [] then 0
    else
      var n := |events| - 1;
      if Accepted(p, Run(p, events[..n]), events[n]) then events[n].now else LastAccepted(p, events[..n])
  }

  /** No step comes later than period after the watchdog step before it. */
  predicate Attended(events: seq<Event>, period: int) {
    events != [] ==>
      var n := |events| - 1;
      Attended(events[..n], period) && events[n].now - LastTick(events[..n]) <= period
  }

  lemma QueuedAtStep(p: Profile, s: State, e: Event)
    requires Agreed(s)
    ensures var t := Step(p, s, e); t.overlay.active ==>
              if Accepted(p, s, e) then t.overlay.queuedAt == e.now
              else s.overlay.active && t.overlay.queuedAt == s.overlay.queuedAt
                   && (e.what.Watchdog? && s.overlay.queuedAt > 0 ==> e.now - s.overlay.queuedAt < 5_000_000)
  {
    StepMoves(p, s, e);
  }

  /** A pending command was queued at the stated time, and less than 5 s before the last watchdog step. */
  predicate InTime(s: State, now: int, tick: int, accepted: int) {
    tick <= now && 0 <= now
    && (s.overlay.active ==> 0 < s.overlay.queuedAt == accepted <= now && tick - s.overlay.queuedAt < 5_000_000)
  }

  lemma InTimeStep(p: Profile, s: State, e: Event, now: int, tick: int, accepted: int)
    requires Agreed(s) && InTime(s, now, tick, accepted) && now <= e.now && 0 < e.now
    ensures InTime(Step(p, s, e), e.now, if e.what.Watchdog? then e.now else tick,
                   if Accepted(p, s, e) then e.now else accepted)
  {
    QueuedAtStep(p, s, e);
  }

  lemma {:induction false} TickedInTime(p: Profile, events: seq<Event>)
    requires Legal(p, events)
    ensures InTime(Run(p, events), Now(events), LastTick(events), LastAccepted(p, events))
    ensures events != [] ==> 0 < Now(events)
  {
    if events != [] {
      var n := |events| - 1;
      var before := events[..n];
      TickedInTime(p, before);
      AlwaysAgreed(p, before);
      InTimeStep(p, Run(p, before), events[n], Now(before), LastTick(before), LastAccepted(p, before));
    }
  }

  /**
    If no step comes later than period after the last watchdog step, then no
    command stays pending for 5 s plus that period after it was last queued.
  */
  lemma NoCommandOutlivesTheWatchdog(p: Profile, events: seq<Event>, period: nat)
    requires Legal(p, events) && Attended(events, period)
    ensures Run(p, events).overlay.active ==> Now(events) - LastAccepted(p, events) < 5_000_000 + period
  {
    TickedInTime(p, events);
    if events != [] {
      var n := |events| - 1;
      TickedInTime(p, events[..n]);
    }
  }

  lemma PanelByteStatus(p: Profile, s: State, now: int, b: Byte)
    ensures PanelByteStep(p, s, now, b).report.status in {s.report.status, Cancelled}
  {
    PanelByteSplits(p, s, now, b);
  }

  lemma PublishMainStatus(s: State, now: int)
    ensures PublishMainStep(s, now).report.status in {s.report.status, Confirmed}
  {
    if s.mainUpdate.Some? && ParseMain(s.mainUpdate.value).Some? {
      AdoptMainStatus(s.(mainUpdate := None), now, s.mainUpdate.value, ParseMain(s.mainUpdate.value).value);
    }
  }

  lemma AdoptMainStatus(s: State, now: int, f: seq<Byte>, parsed: MainState)
    ensures AdoptMain(s, now, f, parsed).report.status in {s.report.status, Confirmed}
  {
  }

  lemma FinishTakeoverStatus(s: State, ok: bool)
    ensures FinishTakeoverStep(s, ok).report.status in {s.report.status, Cancelled}
  {
  }

  lemma SetReadyStatus(p: Profile, s: State, on: bool)
    ensures SetReadyStep(p, s, on).report.status in {s.report.status, Cancelled}
  {
  }

  lemma QueueStatus(p: Profile, s: State, now: int, ready: bool, r: Request)
    ensures QueueStep(p, s, now, ready, r).report.status in {s.report.status, Pending}
  {
    if Accepts(p, s, now, ready, r) {
      EnqueuedStatus(p, s, now, r);
    }
  }

  lemma EnqueuedStatus(p: Profile, s: State, now: int, r: Request)
    ensures Enqueued(p, s, now, r).report.status == Pending
  {
  }

  lemma TimeoutStep(p: Profile, s: State, e: Event)
    requires s.report.status != TimedOut && Step(p, s, e).report.status == TimedOut
    ensures e.what.Watchdog? && Overdue(s.overlay, e.now)
  {
    match e.what {
      case PanelByte(b) => PanelByteStatus(p, s, e.now, b);
      case MainByte(b) => MainByteMoves(p, s, b);
      case PublishPanel => PublishPanelMoves(p, s, e.now);
      case PublishMain => PublishMainStatus(s, e.now);
      case FinishTakeover(ok) => FinishTakeoverStatus(s, ok);
      case SetReady(on) => SetReadyStatus(p, s, on);
      case Queue(ready, r) => QueueStatus(p, s, e.now, ready, r);
      case _ =>
    }
  }

  /** Conversely, a command is only timed out by a watchdog step that finds it 5 s old or older. */
  lemma TimedOutOnlyWhenLate(p: Profile, events: seq<Event>, e: Event)
    requires Legal(p, events)
    requires Run(p, events).report.status != TimedOut && Step(p, Run(p, events), e).report.status == TimedOut
    ensures e.what.Watchdog? && Run(p, events).overlay.active
    ensures e.now - LastAccepted(p, events) >= 5_000_000
  {
    TimeoutStep(p, Run(p, events), e);
    TickedInTime(p, events);
    AlwaysAgreed(p, events);
  }
}
