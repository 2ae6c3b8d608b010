/**
  What ends a pending command, over whole runs, told from the bytes of the
  frames received and the history of requests: the main board that shows
  everything asked for, and the panel that contradicts it.
*/
module CommandFate {
  import opened Wire
  import opened Protocol
  import opened ControlAlgebra
  import opened Commands
  import opened Bridge
  import opened BridgeRuns
  import opened BridgeForwarding
  import opened BridgeReport
  import opened Shown
  import opened StateReport

  // ----- confirmation -----

  /** Nothing about the pending command has changed. */
  predicate CommandStays(s: State, t: State) {
    t.overlay == s.overlay && SameCommand(s.report, t.report)
  }

  lemma ConfirmOrStay(s: State, now: int)
    requires Agreed(s) && FramesKept(s)
    ensures var t := PublishMainStep(s, now);
      if s.overlay.active && s.mainUpdate.Some? && Confirms(ParseMain(s.mainUpdate.value).value, s.overlay.request)
      then t.report.status == Confirmed && !t.overlay.active && !t.report.commandPending
      else CommandStays(s, t)
  {
    if s.mainUpdate.Some? {
      var f := s.mainUpdate.value;
      var parsed := ParseMain(f).value;
      SettleDecides(s.(mainUpdate := None, mainTime := now, report := Reported(s.report, f, parsed)), parsed);
    }
  }

  lemma SettleDecides(s: State, parsed: MainState)
    requires s.overlay.active == s.overlay.confirmationPending
    ensures var t := Settle(s, parsed);
      if s.overlay.active && Confirms(parsed, s.overlay.request)
      then t.report.status == Confirmed && !t.overlay.active && !t.report.commandPending
      else t == s
  {
  }

  /** The last main frame received shows everything the history asks for. */
  ghost predicate LastShows(received: seq<seq<Byte>>, h: seq<Request>) {
    received != [] && |received[|received| - 1]| == MAIN_SIZE && MainShows(received[|received| - 1], h)
  }

  lemma StatusDecides(p: Profile, s: State, e: Event)
    requires Agreed(s) && FramesKept(s)
    ensures Step(p, s, e).report.status == Confirmed && s.report.status != Confirmed <==>
              e.what.PublishMain? && s.overlay.active && s.mainUpdate.Some?
              && Confirms(ParseMain(s.mainUpdate.value).value, s.overlay.request)
  {
    if e.what.PublishMain? {
      PublishConfirms(s, e.now);
    } else {
      OnlyMainConfirms(p, s, e);
    }
  }

  /**
    Over runs: a step turns the status to Confirmed exactly when it publishes the
    last main frame received while a command is pending, and the bytes of that
    frame show what the last writer of every field in force asked for. Any other
    publication leaves the command as it is.
  */
  lemma ConfirmedExactlyInBytes(p: Profile, events: seq<Event>, e: Event)
    requires Legal(p, events)
    ensures var s, t, h := Run(p, events), Step(p, Run(p, events), e), SinceInactive(p, events);
      var shown := h != [] && s.mainUpdate.Some? && LastShows(MainFrames(p, events), h);
      && (t.report.status == Confirmed && s.report.status != Confirmed <==> e.what.PublishMain? && shown)
      && (e.what.PublishMain? ==> if shown then !t.overlay.active && !t.report.commandPending else CommandStays(s, t))
  {
    var s := Run(p, events);
    WaitingShows(p, events);
    AlwaysAgreed(p, events);
    AlwaysFrames(p, events);
    FateOfCommand(p, s, e, SinceInactive(p, events) != [] && s.mainUpdate.Some?
                           && LastShows(MainFrames(p, events), SinceInactive(p, events)));
  }

  lemma FateOfCommand(p: Profile, s: State, e: Event, shown: bool)
    requires Agreed(s) && FramesKept(s)
    requires s.overlay.active && s.mainUpdate.Some? && ParseMain(s.mainUpdate.value).Some?
             && Confirms(ParseMain(s.mainUpdate.value).value, s.overlay.request)
             <==> shown
    ensures var t := Step(p, s, e);
      && (t.report.status == Confirmed && s.report.status != Confirmed <==> e.what.PublishMain? && shown)
      && (e.what.PublishMain? ==> if shown then !t.overlay.active && !t.report.commandPending else CommandStays(s, t))
  {
    StatusDecides(p, s, e);
    if e.what.PublishMain? {
      ConfirmOrStay(s, e.now);
    }
  }

  lemma WaitingShows(p: Profile, events: seq<Event>)
    requires Legal(p, events)
    ensures var s, h := Run(p, events), SinceInactive(p, events);
      s.overlay.active && s.mainUpdate.Some? && ParseMain(s.mainUpdate.value).Some?
      && Confirms(ParseMain(s.mainUpdate.value).value, s.overlay.request)
      <==> h != [] && s.mainUpdate.Some? && LastShows(MainFrames(p, events), h)
  {
    var s, h := Run(p, events), SinceInactive(p, events);
    ReportFitsRun(p, events);
    AlwaysFrames(p, events);
    RequestFitsHistory(p, events);
    if h != [] {
      FoldedIsAdmissible(h);
    }
    if s.mainUpdate.Some? {
      ConfirmsHistory(s, h);
    }
  }

  lemma ConfirmsHistory(s: State, h: seq<Request>)
    requires FramesKept(s) && s.mainUpdate.Some? && RequestFits(s, h) && (h != [] ==> InRange(Folded(h)))
    ensures |s.mainUpdate.value| == MAIN_SIZE
    ensures ParseMain(s.mainUpdate.value).Some?
    ensures s.overlay.active && Confirms(ParseMain(s.mainUpdate.value).value, s.overlay.request) <==>
              h != [] && MainShows(s.mainUpdate.value, h)
  {
    if h != [] {
      ConfirmsExactly(s.mainUpdate.value, h);
    }
  }

  // ----- the panel -----

  /** The frame is an event, and its payload differs from that of the panel frame before it. */
  predicate UserAction(f: seq<Byte>, received: seq<seq<Byte>>)
    requires |f| == PANEL_SIZE
  {
    f[3] == 0x12 && received != [] && |received[|received| - 1]| == PANEL_SIZE
    && f[4..14] != received[|received| - 1][4..14]
  }

  lemma OverrulesHistory(p: Profile, s: State, f: seq<Byte>, h: seq<Request>, received: seq<seq<Byte>>)
    requires FramesKept(s) && RequestFits(s, h) && (h != [] ==> InRange(Folded(h))) && PanelFrame(f)
    requires PanelFits(None, PanelPartOf(s), received)
    ensures Overrules(p, s, f) <==>
              h != [] && UserAction(f, received) && !(p.loopControl && PanelShows(f, h))
  {
    if h != [] {
      EchoesExactly(f, h);
    }
  }

  /** How a completed panel frame is passed on for publication. */
  function PassedOnAs(s: State, f: seq<Byte>): PanelUpdate
    requires |f| == PANEL_SIZE
  {
    if s.overlay.active && s.overlay.takeoverReady && InRange(s.overlay.request)
    then PanelUpdate(f, PanelRewrite(f, s.overlay.request, s.overlay.eventPending), true)
    else PanelUpdate(f, f, false)
  }

  lemma JudgeDecides(p: Profile, s: State, f: seq<Byte>)
    requires Agreed(s) && PanelFrame(f)
    ensures var t := JudgePanelFrame(p, s, f);
      if Overrules(p, s, f)
      then t.report.status == Cancelled && !t.overlay.active && !t.report.commandPending && t.mirror
           && t.panelUpdate == Some(PanelUpdate(f, f, false))
      else SameCommand(s.report, t.report) && t.mirror == s.mirror
           && t.overlay == s.overlay.(eventPending := s.overlay.eventPending && !(s.overlay.active && !p.loopControl))
           && t.panelUpdate == Some(PassedOnAs(s, f))
  {
  }

  /**
    Over legal runs: when a byte completes a valid panel frame f, the pending
    command is cancelled exactly when f is a user action and, under control
    through the panel loop, contradicts something the command asks for. If it is
    not, the command stays, its marker is spent outside loop control, and f is
    passed on for publication, rewritten if the command owns the line.
  */
  lemma OverruledExactlyInBytes(p: Profile, events: seq<Event>, e: Event, f: seq<Byte>)
    requires Legal(p, events) && e.what.PanelByte? && Run(p, events).panelUpdate.None?
    requires CompletedPanel(Run(p, events).panelIn, e.what.b) == Some(f)
    ensures PanelFrame(f)
    ensures var s, h, received := Run(p, events), SinceInactive(p, events), PanelFrames(p, events);
      var t := Step(p, s, e);
      if h != [] && UserAction(f, received) && !(p.loopControl && PanelShows(f, h))
      then t.report.status == Cancelled && !t.overlay.active && !t.report.commandPending && t.mirror
           && t.panelUpdate == Some(PanelUpdate(f, f, false))
      else SameCommand(s.report, t.report) && t.mirror == s.mirror
           && t.overlay == s.overlay.(eventPending := s.overlay.eventPending && !(h != [] && !p.loopControl))
           && t.panelUpdate == Some(if h != [] && s.overlay.takeoverReady
                                    then PanelUpdate(f, PanelRewrite(f, Folded(h), s.overlay.eventPending), true)
                                    else PanelUpdate(f, f, false))
  {
    var s, h := Run(p, events), SinceInactive(p, events);
    AlwaysAgreed(p, events);
    AlwaysFrames(p, events);
    RequestFitsHistory(p, events);
    if h != [] {
      FoldedIsAdmissible(h);
    }
    CompletedIsFrame(s.panelIn, e.what.b);
    PanelFitsRun(p, events);
    OverrulesHistory(p, s, f, h, PanelFrames(p, events));
    ForwardedJudgement(p, s, e, f);
  }

  lemma ForwardedJudgement(p: Profile, s: State, e: Event, f: seq<Byte>)
    requires Agreed(s) && e.what.PanelByte? && CompletedPanel(s.panelIn, e.what.b) == Some(f) && PanelFrame(f)
    ensures var t := Step(p, s, e);
      if Overrules(p, s, f)
      then t.report.status == Cancelled && !t.overlay.active && !t.report.commandPending && t.mirror
           && t.panelUpdate == Some(PanelUpdate(f, f, false))
      else SameCommand(s.report, t.report) && t.mirror == s.mirror
           && t.overlay == s.overlay.(eventPending := s.overlay.eventPending && !(s.overlay.active && !p.loopControl))
           && t.panelUpdate == Some(PassedOnAs(s, f))
  {
    PanelByteSplits(p, s, e.now, e.what.b);
    var u := Forwarded(p, s, e.now, e.what.b);
    assert Overrules(p, u, f) == Overrules(p, s, f) && PassedOnAs(u, f) == PassedOnAs(s, f);
    JudgeDecides(p, u, f);
  }
}
