/**
  The state the bridge reports, told from the bytes of the frames it published:
  both boards' last frames, the setpoint, and the counters.
*/
module StateReport {
  import opened Wire
  import opened Protocol
  import opened Bridge
  import opened BridgeRuns
  import opened BridgeForwarding
  import opened BridgeReport

  // ----- what only publishing a panel frame changes -----

  datatype PanelPart = PanelPart(valid: bool, raw: seq<Byte>, forwarded: seq<Byte>, event: bool, injected: nat)

  function PanelPartOf(s: State): PanelPart {
    PanelPart(s.report.panelValid, s.report.panelRaw, s.report.forwardedRaw, s.report.panelEvent,
              s.report.injectedFrames)
  }

  /** Panel part, setpoint and number of timeouts. */
  predicate SameReport(s: State, t: State) {
    PanelPartOf(t) == PanelPartOf(s) && t.report.setpoint == s.report.setpoint
    && t.report.timeouts == s.report.timeouts
  }

  lemma JudgeKeepsReport(p: Profile, s: State, f: seq<Byte>)
    requires |f| == PANEL_SIZE
    ensures SameReport(s, JudgePanelFrame(p, s, f))
  {
  }

  lemma PanelByteKeepsReport(p: Profile, s: State, now: int, b: Byte)
    ensures SameReport(s, PanelByteStep(p, s, now, b))
  {
    PanelByteSplits(p, s, now, b);
    if CompletedPanel(s.panelIn, b).Some? {
      JudgeKeepsReport(p, Forwarded(p, s, now, b), CompletedPanel(s.panelIn, b).value);
    }
  }

  lemma SettleKeepsReport(s: State, parsed: MainState)
    ensures SameReport(s, Settle(s, parsed))
  {
  }

  /** Publishing a main frame sets the setpoint in Cool and nothing else of these. */
  lemma PublishMainReport(s: State, now: int)
    requires FramesKept(s)
    ensures var t := PublishMainStep(s, now);
      && PanelPartOf(t) == PanelPartOf(s) && t.report.timeouts == s.report.timeouts
      && t.report.setpoint == (if s.mainUpdate.Some? && s.mainUpdate.value[4] & 0xF0 == 0x30
                               then s.mainUpdate.value[6] else s.report.setpoint)
  {
    if s.mainUpdate.Some? {
      var f := s.mainUpdate.value;
      var parsed := ParseMain(f).value;
      CoolBits(f[4]);
      SettleKeepsReport(s.(mainUpdate := None, mainTime := now, report := Reported(s.report, f, parsed)), parsed);
    }
  }

  lemma CoolBits(code: Byte)
    ensures DecodeMode(code) == Cool <==> code & 0xF0 == 0x30
  {
  }

  lemma QueueKeepsReport(p: Profile, s: State, now: int, ready: bool, r: Request)
    ensures SameReport(s, QueueStep(p, s, now, ready, r))
  {
    EnqueueKeepsReport(p, s, now, r);
  }

  lemma EnqueueKeepsReport(p: Profile, s: State, now: int, r: Request)
    ensures SameReport(s, Enqueued(p, s, now, r))
  {
  }

  lemma RouteKeepsReport(p: Profile, s: State, now: int, ok: bool)
    ensures SameReport(s, ArmTakeoverStep(s, now))
    ensures SameReport(s, FinishTakeoverStep(s, ok))
    ensures SameReport(s, SetReadyStep(p, s, ok))
  {
  }

  lemma WatchdogReport(s: State, now: int)
    ensures var t := WatchdogStep(s, now);
      && PanelPartOf(t) == PanelPartOf(s) && t.report.setpoint == s.report.setpoint
      && t.report.timeouts == s.report.timeouts + (if Overdue(s.overlay, now) then 1 else 0)
  {
  }

  lemma OtherKeepsReport(p: Profile, s: State, e: Event)
    requires !e.what.PublishPanel? && !e.what.PublishMain? && !e.what.Watchdog?
    ensures SameReport(s, Step(p, s, e))
  {
    match e.what {
      case PanelByte(b) => PanelByteKeepsReport(p, s, e.now, b);
      case MainByte(b) => MainByteMoves(p, s, b);
      case Queue(ready, r) => QueueKeepsReport(p, s, e.now, ready, r);
      case ArmTakeover => RouteKeepsReport(p, s, e.now, true);
      case FinishTakeover(ok) => RouteKeepsReport(p, s, e.now, ok);
      case SetReady(on) => RouteKeepsReport(p, s, e.now, on);
      case _ =>
    }
  }

  lemma PublishPanelReport(s: State, now: int)
    requires FramesKept(s)
    ensures PublishPanelStep(s, now).report.timeouts == s.report.timeouts
    ensures var t := PublishPanelStep(s, now);
      match s.panelUpdate
         case None => SameReport(s, t)
         case Some(u) =>
           && PanelPartOf(t) == PanelPart(true, u.frame, u.forwarded, u.frame[3] == 0x12,
                                          s.report.injectedFrames + (if u.injected then 1 else 0))
           && t.report.setpoint == u.frame[6]
  {
  }

  // ----- the panel frames -----

  /** Valid panel frames completed on the panel stream, in order. */
  function PanelFrames(p: Profile, events: seq<Event>): seq<seq<Byte>> {
    if events == [] then []
    else
      var n := |events| - 1;
      match events[n].what
      case PanelByte(b) =>
        (match CompletedPanel(Run(p, events[..n]).panelIn, b)
         case Some(f) => PanelFrames(p, events[..n]) + [f]
         case None => PanelFrames(p, events[..n]))
      case _ => PanelFrames(p, events[..n])
  }

  /** The last panel frame waits to be published, or is what is reported. */
  predicate PanelFits(update: Option<PanelUpdate>, part: PanelPart, received: seq<seq<Byte>>) {
    if received == [] then update.None? && !part.valid
    else
      var f := received[|received| - 1];
      && PanelFrame(f)
      && (update.Some? ==> update.value.frame == f)
      && (update.None? ==> part.valid && part.raw == f && part.event == (f[3] == 0x12))
  }

  /** What a step does to the waiting panel frame. */
  lemma StepPanelUpdate(p: Profile, s: State, e: Event)
    ensures var t := Step(p, s, e).panelUpdate;
      match e.what
      case PanelByte(b) =>
        if CompletedPanel(s.panelIn, b).Some?
        then t.Some? && t.value.frame == CompletedPanel(s.panelIn, b).value else t == s.panelUpdate
      case PublishPanel => t.None?
      case _ => t == s.panelUpdate
  {
    match e.what {
      case PanelByte(b) =>
        PanelByteSplits(p, s, e.now, b);
        if CompletedPanel(s.panelIn, b).Some? {
          JudgeEffect(p, Forwarded(p, s, e.now, b), CompletedPanel(s.panelIn, b).value);
        }
      case MainByte(b) => MainByteMoves(p, s, b);
      case PublishPanel => PublishPanelEffect(s, e.now);
      case PublishMain => PublishMainEffect(s, e.now);
      case PanelIdle =>
      case MainIdle =>
      case _ => ControlKeepsStreams(p, s, e);
    }
  }

  lemma StepPanelPart(p: Profile, s: State, e: Event)
    requires FramesKept(s)
    ensures PanelPartOf(Step(p, s, e)) ==
      match e.what
      case PublishPanel =>
        (match s.panelUpdate
         case None => PanelPartOf(s)
         case Some(u) => PanelPart(true, u.frame, u.forwarded, u.frame[3] == 0x12,
                                   s.report.injectedFrames + (if u.injected then 1 else 0)))
      case _ => PanelPartOf(s)
  {
    match e.what {
      case PublishPanel => PublishPanelReport(s, e.now);
      case PublishMain => PublishMainReport(s, e.now);
      case Watchdog => WatchdogReport(s, e.now);
      case _ => OtherKeepsReport(p, s, e);
    }
  }

  lemma PanelFitsStep(p: Profile, s: State, e: Event, received: seq<seq<Byte>>)
    requires FramesKept(s) && Enabled(s, e.what) && PanelFits(s.panelUpdate, PanelPartOf(s), received)
    ensures var t := Step(p, s, e);
      PanelFits(t.panelUpdate, PanelPartOf(t),
                if e.what.PanelByte? && CompletedPanel(s.panelIn, e.what.b).Some?
                then received + [CompletedPanel(s.panelIn, e.what.b).value] else received)
  {
    StepPanelUpdate(p, s, e);
    StepPanelPart(p, s, e);
    if e.what.PanelByte? {
      CompletedIsFrame(s.panelIn, e.what.b);
    }
  }

  lemma {:induction false} PanelFitsRun(p: Profile, events: seq<Event>)
    requires Legal(p, events)
    ensures PanelFits(Run(p, events).panelUpdate, PanelPartOf(Run(p, events)), PanelFrames(p, events))
  {
    if events != [] {
      var n := |events| - 1;
      PanelFitsRun(p, events[..n]);
      AlwaysFrames(p, events[..n]);
      PanelFitsStep(p, Run(p, events[..n]), events[n], PanelFrames(p, events[..n]));
    }
  }

  /**
    Once published, the panel part of the report is the last valid panel frame
    received and its event mark, and before the first there is none.
  */
  lemma ReportIsLastPanelFrame(p: Profile, events: seq<Event>)
    requires Legal(p, events) && Run(p, events).panelUpdate.None?
    ensures var received, r := PanelFrames(p, events), Run(p, events).report;
      if received == [] then !r.panelValid
      else
        var f := received[|received| - 1];
        |f| == PANEL_SIZE && r.panelValid && r.panelRaw == f && r.panelEvent == (f[3] == 0x12)
  {
    PanelFitsRun(p, events);
  }

  /** The last update of the panel state that was published. */
  function PublishedUpdate(p: Profile, events: seq<Event>): Option<PanelUpdate> {
    if events == [] then None
    else
      var before, update := PublishedUpdate(p, events[..|events| - 1]), Run(p, events[..|events| - 1]).panelUpdate;
      if events[|events| - 1].what.PublishPanel? && update.Some? then update else before
  }

  /** Number of published panel frames that had been rewritten. */
  function InjectedCount(p: Profile, events: seq<Event>): nat {
    if events == [] then 0
    else
      var before, update := InjectedCount(p, events[..|events| - 1]), Run(p, events[..|events| - 1]).panelUpdate;
      if events[|events| - 1].what.PublishPanel? && update.Some? && update.value.injected then before + 1 else before
  }

  /** The forwarded frame in the report is the one of the last publication; rewritten ones are counted. */
  lemma {:induction false} ForwardedIsReported(p: Profile, events: seq<Event>)
    ensures var r := Run(p, events).report;
      && r.injectedFrames == InjectedCount(p, events)
      && match PublishedUpdate(p, events)
         case Some(u) => r.panelValid && r.panelRaw == u.frame && r.forwardedRaw == u.forwarded
         case None => !r.panelValid && r.injectedFrames == 0
  {
    if events != [] {
      var n := |events| - 1;
      ForwardedIsReported(p, events[..n]);
      AlwaysFrames(p, events[..n]);
      StepPanelPart(p, Run(p, events[..n]), events[n]);
    }
  }

  // ----- the setpoint -----

  /** Temperature of the last published frame that shows one: any panel frame, or a main frame in Cool. */
  function ShownSetpoint(p: Profile, events: seq<Event>): Byte {
    if events == [] then 0
    else
      var before, s := ShownSetpoint(p, events[..|events| - 1]), Run(p, events[..|events| - 1]);
      match events[|events| - 1].what
      case PublishPanel =>
        if s.panelUpdate.Some? && |s.panelUpdate.value.frame| == PANEL_SIZE then s.panelUpdate.value.frame[6]
        else before
      case PublishMain =>
        if s.mainUpdate.Some? && |s.mainUpdate.value| == MAIN_SIZE && s.mainUpdate.value[4] & 0xF0 == 0x30
        then s.mainUpdate.value[6] else before
      case _ => before
  }

  /** The setpoint reported is the one shown last, by the panel or by the main board in Cool. */
  lemma {:induction false} SetpointIsLastShown(p: Profile, events: seq<Event>)
    ensures Run(p, events).report.setpoint == ShownSetpoint(p, events)
  {
    if events != [] {
      var n := |events| - 1;
      var s, e := Run(p, events[..n]), events[n];
      SetpointIsLastShown(p, events[..n]);
      AlwaysFrames(p, events[..n]);
      match e.what {
        case PublishPanel => PublishPanelReport(s, e.now);
        case PublishMain => PublishMainReport(s, e.now);
        case Watchdog => WatchdogReport(s, e.now);
        case _ => OtherKeepsReport(p, s, e);
      }
    }
  }

  // ----- timeouts -----

  /** Number of steps that ended a pending command as timed out. */
  function TimeoutCount(p: Profile, events: seq<Event>): nat {
    if events == [] then 0
    else
      var n := |events| - 1;
      TimeoutCount(p, events[..n])
      + (if Run(p, events[..n]).overlay.active && Run(p, events).report.status == TimedOut then 1 else 0)
  }

  lemma TimeoutCounted(p: Profile, s: State, e: Event)
    requires Agreed(s) && FramesKept(s)
    ensures var t := Step(p, s, e);
      t.report.timeouts == s.report.timeouts + if s.overlay.active && t.report.status == TimedOut then 1 else 0
  {
    match e.what {
      case PublishPanel => PublishPanelReport(s, e.now);
      case PublishMain => PublishMainReport(s, e.now);
      case Watchdog => WatchdogReport(s, e.now);
      case _ => OtherKeepsReport(p, s, e);
    }
    if s.overlay.active && !e.what.Watchdog? && Step(p, s, e).report.status == TimedOut {
      TimeoutStep(p, s, e);
    }
  }

  /** The reported number of timeouts is the number of commands that timed out. */
  lemma {:induction false} TimeoutsAreCounted(p: Profile, events: seq<Event>)
    ensures Run(p, events).report.timeouts == TimeoutCount(p, events)
  {
    if events != [] {
      var n := |events| - 1;
      TimeoutsAreCounted(p, events[..n]);
      AlwaysAgreed(p, events[..n]);
      AlwaysFrames(p, events[..n]);
      TimeoutCounted(p, Run(p, events[..n]), events[n]);
    }
  }

  // ----- the main board -----

  /** Every reported field of the main board is a byte of its last frame, or a bit or half of one. */
  lemma MainReportInBytes(p: Profile, events: seq<Event>)
    requires Legal(p, events) && Run(p, events).mainUpdate.None? && MainFrames(p, events) != []
    ensures var f, m := MainFrames(p, events)[|MainFrames(p, events)| - 1], Run(p, events).report.main;
      && |f| == MAIN_SIZE && m.valid && m.raw == f
      && m.state.event == (f[3] == 0x12) && m.state.power == (f[5] & 0x80 == 0x80) && m.state.features == f[5] & 0x7F
      && m.state.code == f[4] && m.state.temperature == f[6] && m.state.encoded == f[14]
      && m.state.operation == f[8] && m.state.sensor1 == f[11] && m.state.sensor2 == f[12]
  {
    ReportFitsRun(p, events);
    PowerBitSet(MainFrames(p, events)[|MainFrames(p, events)| - 1][5]);
  }

  lemma PowerBitSet(flags: Byte)
    ensures (flags & BIT_POWER != 0) == (flags & 0x80 == 0x80)
  {
  }
}
