/**
  Legal runs, built step by step, in which the bridge does not do what one would
  expect: a stale confirmation, a lost event marker, a mixed frame and commands
  that nothing can confirm.
*/
module LegalRuns {
  import opened Wire
  import opened Protocol
  import opened ControlAlgebra
  import opened Commands
  import opened Framing
  import opened Bridge
  import opened BridgeRuns
  import opened BridgeForwarding
  import opened Replacement
  import opened BridgeReport

  /** A legal run so far, all of it in the first microsecond. */
  predicate Begun(p: Profile, events: seq<Event>) {
    Legal(p, events) && events != [] && Now(events) == 1
  }

  lemma Continue(p: Profile, events: seq<Event>, what: What) returns (more: seq<Event>)
    requires Begun(p, events) && Enabled(Run(p, events), what)
    ensures more == events + [At(1, what)]
    ensures Begun(p, more) && Run(p, more) == Step(p, Run(p, events), At(1, what))
    ensures PanelInput(more) == PanelInput(events) + if what.PanelByte? then [what.b] else []
  {
    more := events + [At(1, what)];
    RunSnoc(p, events, At(1, what));
    assert more[..|more| - 1] == events;
  }

  /** No command is pending and both receivers are between frames. */
  predicate AtRest(s: State) {
    && !s.overlay.active && !s.takeoverArmed && s.report.status != Confirmed
    && s.panelIn == Flushed(s.panelIn) && s.panelUpdate.None?
    && s.mainIn == Flushed(s.mainIn) && s.mainUpdate.None?
  }

  lemma BytesOfMainFrame(p: Profile, s: State, f: seq<Byte>, k: nat)
    requires MainFrame(f) && k < MAIN_SIZE && s.mainIn == Partial(f, k, s.mainIn.synchronized)
    ensures var t := Step(p, s, At(1, MainByte(f[k])));
      && t == s.(mainIn := t.mainIn, mainUpdate := t.mainUpdate, toPanel := t.toPanel)
      && (if k + 1 < MAIN_SIZE
          then t.mainIn == Partial(f, k + 1, t.mainIn.synchronized) && t.mainUpdate == s.mainUpdate
          else t.mainIn == Flushed(t.mainIn) && t.mainUpdate == Some(f))
  {
    MainByteEffect(p, s, f[k]);
    FrameStep(f, k, s.mainIn.synchronized);
  }

  /** The main board sends a whole frame, which then waits to be published. */
  lemma ReceiveMain(p: Profile, events: seq<Event>, f: seq<Byte>) returns (more: seq<Event>)
    requires Begun(p, events) && AtRest(Run(p, events)) && MainFrame(f)
    ensures events <= more && Begun(p, more) && PanelInput(more) == PanelInput(events)
    ensures var s, t := Run(p, events), Run(p, more);
      && t == s.(mainIn := t.mainIn, mainUpdate := Some(f), toPanel := t.toPanel) && t.mainIn == Flushed(t.mainIn)
  {
    more := events;
    ghost var s := Run(p, events);
    for k := 0 to MAIN_SIZE
      invariant events <= more && Begun(p, more) && PanelInput(more) == PanelInput(events)
      invariant var t := Run(p, more);
        && t == s.(mainIn := t.mainIn, mainUpdate := t.mainUpdate, toPanel := t.toPanel)
        && (if k < MAIN_SIZE then t.mainIn == Partial(f, k, t.mainIn.synchronized) && t.mainUpdate.None?
            else t.mainIn == Flushed(t.mainIn) && t.mainUpdate == Some(f))
    {
      BytesOfMainFrame(p, Run(p, more), f, k);
      more := Continue(p, more, MainByte(f[k]));
    }
  }

  lemma IdleJudgement(p: Profile, s: State, f: seq<Byte>)
    requires |f| == PANEL_SIZE && !s.overlay.active
    ensures JudgePanelFrame(p, s, f) == s.(panelUpdate := Some(PanelUpdate(f, f, false)))
  {
  }

  /** With no command pending a byte of a frame is sent by itself, or left to the hardware. */
  predicate SentPlainly(p: Profile, s: State, t: State, b: Byte) {
    t.prepared.None? && !t.burst && (t.toMain == s.toMain + [[b]] || (p.hwForward && t.toMain == s.toMain))
  }

  lemma IdleByteSent(p: Profile, s: State, f: seq<Byte>, k: nat)
    requires PanelFrame(f) && k < PANEL_SIZE && s.panelIn == Partial(f, k, s.panelIn.synchronized)
    requires if k == 0 then !s.overlay.active else s.prepared.None? && !s.burst
    ensures SentPlainly(p, s, PanelByteStep(p, s, 1, f[k]), f[k])
  {
    FrameStep(f, k, s.panelIn.synchronized);
    JudgedOutgoing(p, s, 1, f[k]);
  }

  lemma BytesOfPanelFrame(p: Profile, s: State, f: seq<Byte>, k: nat)
    requires PanelFrame(f) && k < PANEL_SIZE && s.panelIn == Partial(f, k, s.panelIn.synchronized)
    requires !s.overlay.active
    ensures var t := Step(p, s, At(1, PanelByte(f[k])));
      && t == s.(panelIn := t.panelIn, lastPanelByte := 1, prepared := t.prepared, burst := t.burst,
                 toMain := t.toMain, panelUpdate := t.panelUpdate)
      && (if k + 1 < PANEL_SIZE
          then t.panelIn == Partial(f, k + 1, t.panelIn.synchronized) && t.panelUpdate == s.panelUpdate
          else t.panelIn == Flushed(t.panelIn) && t.panelUpdate == Some(PanelUpdate(f, f, false)))
  {
    PanelByteSplits(p, s, 1, f[k]);
    FrameStep(f, k, s.panelIn.synchronized);
    if k + 1 == PANEL_SIZE {
      IdleJudgement(p, Forwarded(p, s, 1, f[k]), f);
    }
  }

  /** What sending some bytes plainly has added: no marked frame, and on the regenerated route just these bytes. */
  predicate PlainSince(p: Profile, s: State, t: State, bytes: seq<Byte>) {
    && EventBursts(t.toMain) == EventBursts(s.toMain)
    && (!p.hwForward ==> Flatten(t.toMain) == Flatten(s.toMain) + bytes)
  }

  lemma PlainNext(p: Profile, s: State, t: State, u: State, f: seq<Byte>, k: nat)
    requires k < |f| && PlainSince(p, s, t, f[..k]) && SentPlainly(p, t, u, f[k])
    ensures PlainSince(p, s, u, f[..k + 1])
  {
    EventBurstsSnoc(t.toMain, [f[k]]);
    FlattenSnoc(t.toMain, [f[k]]);
    OneMore(Flatten(s.toMain), f, k);
  }

  /** The panel sends a whole frame, which then waits to be published. */
  lemma ReceivePanel(p: Profile, events: seq<Event>, f: seq<Byte>) returns (more: seq<Event>)
    requires Begun(p, events) && AtRest(Run(p, events)) && PanelFrame(f)
    ensures events <= more && Begun(p, more) && PanelInput(more) == PanelInput(events) + f
    ensures PlainSince(p, Run(p, events), Run(p, more), f)
    ensures var s, t := Run(p, events), Run(p, more);
      && t == s.(panelIn := t.panelIn, lastPanelByte := t.lastPanelByte, prepared := None, burst := false,
                 toMain := t.toMain, panelUpdate := Some(PanelUpdate(f, f, false)))
      && t.panelIn == Flushed(t.panelIn)
  {
    more := events;
    ghost var s := Run(p, events);
    for k := 0 to PANEL_SIZE
      invariant events <= more && Begun(p, more) && PanelInput(more) == PanelInput(events) + f[..k]
      invariant PlainSince(p, s, Run(p, more), f[..k])
      invariant k > 0 ==> Run(p, more).prepared.None? && !Run(p, more).burst
      invariant var t := Run(p, more);
        && t == s.(panelIn := t.panelIn, lastPanelByte := t.lastPanelByte, prepared := t.prepared, burst := t.burst,
                   toMain := t.toMain, panelUpdate := t.panelUpdate)
        && (if k < PANEL_SIZE then t.panelIn == Partial(f, k, t.panelIn.synchronized) && t.panelUpdate.None?
            else t.panelIn == Flushed(t.panelIn) && t.panelUpdate == Some(PanelUpdate(f, f, false)))
    {
      ghost var t := Run(p, more);
      BytesOfPanelFrame(p, t, f, k);
      IdleByteSent(p, t, f, k);
      OneMore(PanelInput(events), f, k);
      more := Continue(p, more, PanelByte(f[k]));
      PlainNext(p, s, t, Run(p, more), f, k);
    }
    assert f[..PANEL_SIZE] == f;
  }

  /** The panel has sent exactly this frame and it has been passed on. */
  predicate PanelHeard(p: Profile, events: seq<Event>, f: seq<Byte>) {
    var t := Run(p, events);
    && t.ready && t.report.panelValid && t.report.panelRaw == f && t.panelTime == 1
    && t.prepared.None? && !t.burst
    && PanelInput(events) == f && EventBursts(t.toMain) == 0 && (!p.hwForward ==> Flatten(t.toMain) == f)
  }

  lemma Release(p: Profile) returns (more: seq<Event>)
    ensures Begun(p, more) && AtRest(Run(p, more)) && PanelInput(more) == []
    ensures var t := Run(p, more); t.ready && t.toMain == []
  {
    more := [At(1, SetReady(true))];
    assert more[..0] == [];
    assert Run(p, more) == Step(p, BOOT, more[0]);
  }

  /** The interlock is released and the panel has been heard. */
  lemma HearPanel(p: Profile, f: seq<Byte>) returns (more: seq<Event>)
    requires PanelFrame(f)
    ensures Begun(p, more) && AtRest(Run(p, more)) && PanelHeard(p, more, f)
  {
    var received := ReceiveFirst(p, f);
    PublishesPanel(Run(p, received), f);
    more := Continue(p, received, PublishPanel);
  }

  lemma ReceiveFirst(p: Profile, f: seq<Byte>) returns (more: seq<Event>)
    requires PanelFrame(f)
    ensures Begun(p, more) && PanelInput(more) == f
    ensures var t := Run(p, more);
      && t.ready && t.prepared.None? && !t.burst && t.panelUpdate == Some(PanelUpdate(f, f, false))
      && AtRest(t.(panelUpdate := None))
      && EventBursts(t.toMain) == 0 && (!p.hwForward ==> Flatten(t.toMain) == f)
  {
    var released := Release(p);
    more := ReceivePanel(p, released, f);
    PlainFromStart(p, Run(p, released), Run(p, more), f);
    AfterNothing(PanelInput(released), f);
  }

  lemma PlainFromStart(p: Profile, s: State, t: State, f: seq<Byte>)
    requires s.toMain == [] && PlainSince(p, s, t, f)
    ensures EventBursts(t.toMain) == 0 && (!p.hwForward ==> Flatten(t.toMain) == f)
  {
    AfterNothing(Flatten(s.toMain), f);
  }

  lemma PublishesPanel(s: State, f: seq<Byte>)
    requires PanelFrame(f) && s.panelUpdate == Some(PanelUpdate(f, f, false))
    ensures var t := PublishPanelStep(s, 1);
      t == s.(panelUpdate := None, report := t.report, panelTime := 1)
      && t.report.panelValid && t.report.panelRaw == f && t.report.status == s.report.status
  {
  }

  lemma PublishesMain(s: State, f: seq<Byte>)
    requires MainFrame(f) && s.mainUpdate == Some(f) && !s.overlay.active && !s.overlay.confirmationPending
    ensures var t := PublishMainStep(s, 1);
      t == s.(mainUpdate := None, report := t.report, mainTime := 1)
      && t.report.panelValid == s.report.panelValid && t.report.panelRaw == s.report.panelRaw
      && t.report.status == s.report.status
      && t.report.main.valid && t.report.main.state == ParseMain(f).value
  {
  }

  /** Both sides have been heard and a command may be queued. */
  predicate BothHeard(p: Profile, events: seq<Event>, panel: seq<Byte>, f: seq<Byte>)
    requires MainFrame(f)
  {
    var t := Run(p, events);
    && PanelHeard(p, events, panel)
    && t.report.main.valid && t.report.main.state == ParseMain(f).value && t.mainTime == 1
  }

  lemma HearBoth(p: Profile, panel: seq<Byte>, f: seq<Byte>) returns (more: seq<Event>)
    requires PanelFrame(panel) && MainFrame(f)
    ensures Begun(p, more) && AtRest(Run(p, more)) && BothHeard(p, more, panel, f)
  {
    more := HearPanel(p, panel);
    more := ReceiveMain(p, more, f);
    AlwaysAgreed(p, more);
    PublishesMain(Run(p, more), f);
    more := Continue(p, more, PublishMain);
  }

  /** What may be asked for while the main board shows f. */
  predicate MayAsk(f: seq<Byte>, r: Request)
    requires MainFrame(f)
  {
    Admissible(r) && (r.mask.setpoint ==> (if r.mask.mode then r.mode else ParseMain(f).value.mode) == Cool)
  }

  lemma AcceptsRequest(p: Profile, s: State, f: seq<Byte>, r: Request)
    requires p.controlVerified && MainFrame(f) && MayAsk(f, r)
    requires s.report.panelValid && s.panelTime == 1
    requires s.report.main.valid && s.report.main.state == ParseMain(f).value && s.mainTime == 1
    ensures Accepted(p, s, At(1, Queue(true, r)))
  {
  }

  // ----- a stale confirmation -----

  /**
    For every profile that can control, and every main frame f that shows the
    power on, there is a legal run in which f is received, then a power-on
    command is accepted, and then that very frame confirms it.
  */
  lemma StaleFrameConfirms(p: Profile, panel: seq<Byte>, f: seq<Byte>) returns (events: seq<Event>, i: nat)
    requires p.controlVerified && PanelFrame(panel) && MainFrame(f) && ParseMain(f).value.power
    ensures Legal(p, events) && i < |events| && Accepted(p, Run(p, events[..i]), events[i])
    ensures CompletedAt(p, events, Origin(p, events), f) && Origin(p, events) < i
    ensures Run(p, events).report.status == Pending
    ensures Step(p, Run(p, events), At(1, PublishMain)).report.status == Confirmed
  {
    events := HearBoth(p, panel, f);
    events := ReceiveMain(p, events, f);
    i := |events|;
    var waiting := events;
    AcceptsRequest(p, Run(p, events), f, POWER_ON);
    events := Continue(p, events, Queue(true, POWER_ON));
    assert events[..i] == waiting;
    QueuedOverWaiting(p, waiting, events, f);
  }

  lemma QueuedOverWaiting(p: Profile, waiting: seq<Event>, events: seq<Event>, f: seq<Byte>)
    requires MainFrame(f) && ParseMain(f).value.power && Run(p, waiting).mainUpdate == Some(f)
    requires Begun(p, events) && events == waiting + [At(1, Queue(true, POWER_ON))]
    requires !Run(p, waiting).overlay.active && Accepted(p, Run(p, waiting), At(1, Queue(true, POWER_ON)))
    requires Run(p, events) == Step(p, Run(p, waiting), At(1, Queue(true, POWER_ON)))
    ensures CompletedAt(p, events, Origin(p, events), f) && Origin(p, events) < |waiting|
    ensures Run(p, events).report.status == Pending
    ensures Step(p, Run(p, events), At(1, PublishMain)).report.status == Confirmed
  {
    OriginCompleted(p, events);
    EnqueuedPower(p, Run(p, waiting));
    AlwaysAgreed(p, events);
    AlwaysFrames(p, events);
    PendingDecides(p, Run(p, events), f, Merge(EMPTY_REQUEST, POWER_ON), At(1, PublishMain));
  }

  lemma EnqueuedPower(p: Profile, s: State)
    requires !s.overlay.active && Accepted(p, s, At(1, Queue(true, POWER_ON)))
    ensures var t := Step(p, s, At(1, Queue(true, POWER_ON)));
      t.mainUpdate == s.mainUpdate && t.overlay.active && t.overlay.request == Merge(EMPTY_REQUEST, POWER_ON)
  {
  }

  // ----- commands that nothing can confirm -----

  lemma QueuedRequest(p: Profile, s: State, r: Request)
    requires Accepted(p, s, At(1, Queue(true, r)))
    ensures var t := Step(p, s, At(1, Queue(true, r)));
      && t == s.(overlay := t.overlay, report := s.report.(overrideActive := true, commandPending := true,
                                                           status := Pending, commandSequence := t.overlay.sequence))
      && t.overlay.active && t.overlay.eventPending && t.overlay.takeoverReady == (!p.hwForward && !p.loopControl)
      && t.overlay.request == Merge(if s.overlay.active then s.overlay.request else EMPTY_REQUEST, r)
  {
  }

  /** Two requests are accepted one after the other. */
  lemma QueueTwo(p: Profile, panel: seq<Byte>, f: seq<Byte>, first: Request, second: Request)
    returns (events: seq<Event>)
    requires p.controlVerified && PanelFrame(panel) && MainFrame(f) && MayAsk(f, first) && MayAsk(f, second)
    ensures Legal(p, events) && Run(p, events).overlay.active && SinceInactive(p, events) == [first, second]
  {
    var none := HearBoth(p, panel, f);
    AcceptsRequest(p, Run(p, none), f, first);
    QueuedRequest(p, Run(p, none), first);
    var one := Continue(p, none, Queue(true, first));
    SinceQueued(p, none, one, first);
    AcceptsRequest(p, Run(p, one), f, second);
    QueuedRequest(p, Run(p, one), second);
    events := Continue(p, one, Queue(true, second));
    SinceQueued(p, one, events, second);
    assert [first] + [second] == [first, second];
  }

  lemma SinceQueued(p: Profile, before: seq<Event>, events: seq<Event>, r: Request)
    requires events == before + [At(1, Queue(true, r))] && Accepted(p, Run(p, before), At(1, Queue(true, r)))
    ensures SinceInactive(p, events) == SinceInactive(p, before) + [r]
  {
    assert events[..|events| - 1] == before;
    EnqueuedActive(p, Run(p, before), At(1, Queue(true, r)));
  }

  /**
    While the main board shows Cool, Dry is accepted and then a setpoint, because
    only the reported mode is looked at; no main frame at all confirms the two.
  */
  lemma DryThenSetpointIsStranded(p: Profile, panel: seq<Byte>, f: seq<Byte>, c: Byte) returns (events: seq<Event>)
    requires p.controlVerified && PanelFrame(panel) && MainFrame(f) && ParseMain(f).value.mode == Cool
    requires ValidSetpoint(c)
    ensures Legal(p, events) && SinceInactive(p, events) == [MODE_DRY, ToSetpoint(c)]
    ensures Run(p, events).overlay.active && !SomeFrameConfirms(Run(p, events).overlay.request)
  {
    events := QueueTwo(p, panel, f, MODE_DRY, ToSetpoint(c));
    DryThenSetpointUnconfirmable(c);
    InForceConfirmableExactly(p, events);
  }

  /** So is a setpoint over which a raw code for Dry is queued. */
  lemma SetpointThenRawIsStranded(p: Profile, panel: seq<Byte>, f: seq<Byte>, c: Byte) returns (events: seq<Event>)
    requires p.controlVerified && PanelFrame(panel) && MainFrame(f) && ParseMain(f).value.mode == Cool
    requires ValidSetpoint(c)
    ensures Legal(p, events) && SinceInactive(p, events) == [ToSetpoint(c), RAW_DRY]
    ensures Run(p, events).overlay.active && !SomeFrameConfirms(Run(p, events).overlay.request)
  {
    events := QueueTwo(p, panel, f, ToSetpoint(c), RAW_DRY);
    SetpointThenRawUnconfirmable(c);
    InForceConfirmableExactly(p, events);
  }

  // ----- a mixed frame -----

  const TURN_ON: Request := Merge(EMPTY_REQUEST, POWER_ON)

  /** The power-on command is pending over this panel frame, with its marker or without. */
  predicate TurningOn(s: State, panel: seq<Byte>, event: bool) {
    && s.report.panelValid && s.report.panelRaw == panel
    && s.overlay.active && s.overlay.takeoverReady && s.overlay.request == TURN_ON && s.overlay.eventPending == event
  }

  lemma QueueOn(p: Profile, events: seq<Event>, panel: seq<Byte>, f: seq<Byte>) returns (more: seq<Event>)
    requires Regenerates(p) && p.controlVerified && Begun(p, events) && MainFrame(f)
    requires var s := Run(p, events);
      && !s.overlay.active && s.report.panelValid && s.report.panelRaw == panel && s.panelTime == 1
      && s.report.main.valid && s.report.main.state == ParseMain(f).value && s.mainTime == 1
    ensures more == events + [At(1, Queue(true, POWER_ON))] && Begun(p, more) && PanelInput(more) == PanelInput(events)
    ensures Accepted(p, Run(p, events), At(1, Queue(true, POWER_ON)))
    ensures var s, t := Run(p, events), Run(p, more);
      t == s.(overlay := t.overlay, report := t.report) && TurningOn(t, panel, true)
  {
    AcceptsRequest(p, Run(p, events), f, POWER_ON);
    QueuedRequest(p, Run(p, events), POWER_ON);
    more := Continue(p, events, Queue(true, POWER_ON));
  }

  /** At the first byte of a panel frame, with the power-on command pending. */
  lemma OverlayFrameSent(p: Profile, s: State, panel: seq<Byte>, event: bool)
    requires Regenerates(p) && PanelFrame(panel) && s.panelIn == Flushed(s.panelIn)
    requires TurningOn(s, panel, event)
    ensures var t := Step(p, s, At(1, PanelByte(panel[0])));
      && t.toMain == s.toMain + [PanelRewrite(panel, TURN_ON, event)] && t.burst && t.prepared.None?
      && t.overlay == s.overlay && t.panelIn == Partial(panel, 1, t.panelIn.synchronized)
      && t.panelUpdate == s.panelUpdate
  {
    FrameStep(panel, 0, s.panelIn.synchronized);
    PanelByteSplits(p, s, 1, panel[0]);
    ByteForwarded(p, s, 1, panel[0]);
  }

  lemma FlushedByteSent(p: Profile, s: State, panel: seq<Byte>)
    requires Regenerates(p) && PanelFrame(panel) && s.burst
    ensures var u := Step(p, s, At(1, PanelIdle)); var t := Step(p, u, At(1, PanelByte(panel[1])));
      && t.toMain == s.toMain + [[panel[1]]] && !Uncut(u, 1, panel[1])
  {
    var u := Step(p, s, At(1, PanelIdle));
    assert Consume(u.panelIn, panel[1]).index.None?;
    ByteForwarded(p, u, 1, panel[1]);
    JudgedOutgoing(p, u, 1, panel[1]);
  }

  /**
    A legal run in which the main board is sent a mixed frame: the overlay frame
    goes out at the first byte of a panel frame, the panel pauses, the stream is
    flushed, and the second byte of the panel frame goes out behind it.
  */
  lemma FlushMixesFrames(p: Profile, panel: seq<Byte>, f: seq<Byte>) returns (events: seq<Event>)
    requires Regenerates(p) && p.controlVerified && PanelFrame(panel) && MainFrame(f)
    ensures Legal(p, events) && PanelInput(events) == panel + panel[..2]
    ensures Flatten(Run(p, events).toMain) == panel + PanelRewrite(panel, TURN_ON, true) + [panel[1]]
    ensures !AllUncut(p, events) && !AlwaysWhole(p, events)
  {
    var sent := ReplaceFrame(p, panel, f);
    var flushed: seq<Event>;
    flushed, events := FlushAndGoOn(p, sent, panel);
    MixedInput(p, flushed, events, panel);
  }

  /** The power-on command is queued between two frames and its overlay frame goes out for the second. */
  lemma ReplaceFrame(p: Profile, panel: seq<Byte>, f: seq<Byte>) returns (events: seq<Event>)
    requires Regenerates(p) && p.controlVerified && PanelFrame(panel) && MainFrame(f)
    ensures Begun(p, events) && PanelInput(events) == panel + [panel[0]]
    ensures var s := Run(p, events);
      s.burst && s.panelUpdate.None? && Flatten(s.toMain) == panel + PanelRewrite(panel, TURN_ON, true)
  {
    var heard := HearBoth(p, panel, f);
    var queued := QueueOn(p, heard, panel, f);
    events := SendOverlay(p, queued, panel, true);
  }

  lemma SendOverlay(p: Profile, events: seq<Event>, panel: seq<Byte>, event: bool) returns (more: seq<Event>)
    requires Regenerates(p) && Begun(p, events) && PanelFrame(panel) && TurningOn(Run(p, events), panel, event)
    requires var s := Run(p, events); s.panelIn == Flushed(s.panelIn) && s.panelUpdate.None?
    ensures more == events + [At(1, PanelByte(panel[0]))] && Begun(p, more)
    ensures PanelInput(more) == PanelInput(events) + [panel[0]]
    ensures var s, t, g := Run(p, events), Run(p, more), PanelRewrite(panel, TURN_ON, event);
      && t.burst && t.panelUpdate.None? && t.overlay == s.overlay && LastWrite(t) == g
      && Flatten(t.toMain) == Flatten(s.toMain) + g
      && EventBursts(t.toMain) == EventBursts(s.toMain) + if event then 1 else 0
  {
    OverlayFrameSent(p, Run(p, events), panel, event);
    OverlayFrameAdds(Run(p, events).toMain, panel, event);
    more := Continue(p, events, PanelByte(panel[0]));
  }

  lemma OverlayFrameAdds(writes: seq<seq<Byte>>, panel: seq<Byte>, event: bool)
    requires PanelFrame(panel)
    ensures var g := PanelRewrite(panel, TURN_ON, event);
      && Flatten(writes + [g]) == Flatten(writes) + g
      && EventBursts(writes + [g]) == EventBursts(writes) + if event then 1 else 0
  {
    var g := PanelRewrite(panel, TURN_ON, event);
    PanelRewriteShape(panel, TURN_ON, event);
    FlattenSnoc(writes, g);
    EventBurstsSnoc(writes, g);
  }

  lemma FlushAndGoOn(p: Profile, events: seq<Event>, panel: seq<Byte>) returns (flushed: seq<Event>, more: seq<Event>)
    requires Regenerates(p) && Begun(p, events) && PanelFrame(panel)
    requires Run(p, events).burst && Run(p, events).panelUpdate.None?
    ensures more == flushed + [At(1, PanelByte(panel[1]))] && Begun(p, more)
    ensures PanelInput(flushed) == PanelInput(events) && !Uncut(Run(p, flushed), 1, panel[1])
    ensures Flatten(Run(p, more).toMain) == Flatten(Run(p, events).toMain) + [panel[1]]
  {
    FlushedByteSent(p, Run(p, events), panel);
    FlattenSnoc(Run(p, events).toMain, [panel[1]]);
    flushed := Continue(p, events, PanelIdle);
    more := Continue(p, flushed, PanelByte(panel[1]));
  }

  lemma MixedInput(p: Profile, flushed: seq<Event>, events: seq<Event>, panel: seq<Byte>)
    requires Regenerates(p) && PanelFrame(panel)
    requires events == flushed + [At(1, PanelByte(panel[1]))] && PanelInput(flushed) == panel + [panel[0]]
    requires !Uncut(Run(p, flushed), 1, panel[1])
    ensures PanelInput(events) == panel + panel[..2]
    ensures !AllUncut(p, events) && !AlwaysWhole(p, events)
  {
    assert events[..|events| - 1] == flushed;
    OneMore(panel, panel, 1);
    FirstOfPanel(panel);
    FlattenOne(panel);
    WholeExactlyWhenUncut(p, events, [panel], panel, 2);
  }

  lemma FirstOfPanel(panel: seq<Byte>)
    requires |panel| == PANEL_SIZE
    ensures panel[..1] == [panel[0]] && |panel + [panel[0]]| % PANEL_SIZE == 1
  {
  }

  // ----- a lost marker -----

  /** The rest of a frame the panel has already sent once, with a command queued inside it. */
  lemma BytesOfRepeatedFrame(p: Profile, s: State, f: seq<Byte>, k: nat)
    requires Regenerates(p) && PanelFrame(f) && 0 < k < PANEL_SIZE
    requires s.panelIn == Partial(f, k, s.panelIn.synchronized) && s.report.panelRaw == f
    requires s.overlay.active && s.prepared.None? && !s.burst
    ensures var t := Step(p, s, At(1, PanelByte(f[k])));
      && t == s.(panelIn := t.panelIn, lastPanelByte := 1, toMain := s.toMain + [[f[k]]],
                 overlay := t.overlay, panelUpdate := t.panelUpdate)
      && (if k + 1 < PANEL_SIZE
          then t.panelIn == Partial(f, k + 1, t.panelIn.synchronized) && t.overlay == s.overlay
               && t.panelUpdate == s.panelUpdate
          else t.panelIn == Flushed(t.panelIn) && t.overlay == s.overlay.(eventPending := false)
               && t.panelUpdate.Some? && t.panelUpdate.value.frame == f)
  {
    FrameStep(f, k, s.panelIn.synchronized);
    ByteForwarded(p, s, 1, f[k]);
    PanelByteSplits(p, s, 1, f[k]);
    if k + 1 == PANEL_SIZE {
      RepeatedJudgement(p, Forwarded(p, s, 1, f[k]), f);
    }
  }

  lemma RepeatedJudgement(p: Profile, s: State, f: seq<Byte>)
    requires !p.loopControl && |f| == PANEL_SIZE && s.report.panelRaw == f && s.overlay.active
    ensures var t := JudgePanelFrame(p, s, f);
      && t == s.(overlay := s.overlay.(eventPending := false), panelUpdate := t.panelUpdate)
      && t.panelUpdate.Some? && t.panelUpdate.value.frame == f
  {
  }

  lemma PublishesSame(s: State, f: seq<Byte>)
    requires PanelFrame(f) && s.panelUpdate.Some? && s.panelUpdate.value.frame == f
    ensures var t := PublishPanelStep(s, 1);
      && t == s.(panelUpdate := None, report := t.report, panelTime := 1)
      && t.report.panelValid && t.report.panelRaw == f
  {
  }

  /** The panel sends the rest of that frame. */
  lemma FinishRepeated(p: Profile, events: seq<Event>, f: seq<Byte>) returns (more: seq<Event>)
    requires Begun(p, events) && Regenerates(p) && PanelFrame(f)
    requires var s := Run(p, events);
      && s.panelIn == Partial(f, 1, s.panelIn.synchronized) && s.report.panelRaw == f && s.panelUpdate.None?
      && s.overlay.active && s.prepared.None? && !s.burst
    ensures events <= more && Begun(p, more)
    ensures var s, t := Run(p, events), Run(p, more);
      && EventBursts(t.toMain) == EventBursts(s.toMain)
      && t.panelIn == Flushed(t.panelIn) && t.overlay == s.overlay.(eventPending := false)
      && t.report.panelValid && t.report.panelRaw == f && t.panelUpdate.None?
  {
    more := events;
    ghost var s := Run(p, events);
    for k := 1 to PANEL_SIZE
      invariant events <= more && Begun(p, more)
      invariant EventBursts(Run(p, more).toMain) == EventBursts(s.toMain)
      invariant var t := Run(p, more);
        && t == s.(panelIn := t.panelIn, lastPanelByte := t.lastPanelByte, toMain := t.toMain,
                   overlay := t.overlay, panelUpdate := t.panelUpdate)
        && (if k < PANEL_SIZE
            then t.panelIn == Partial(f, k, t.panelIn.synchronized) && t.overlay == s.overlay && t.panelUpdate.None?
            else t.panelIn == Flushed(t.panelIn) && t.overlay == s.overlay.(eventPending := false)
                 && t.panelUpdate.Some? && t.panelUpdate.value.frame == f)
    {
      BytesOfRepeatedFrame(p, Run(p, more), f, k);
      EventBurstsSnoc(Run(p, more).toMain, [f[k]]);
      more := Continue(p, more, PanelByte(f[k]));
    }
    PublishesSame(Run(p, more), f);
    more := Continue(p, more, PublishPanel);
  }

  /**
    A legal run in which a command loses its event marker: it is queued at step
    i, inside a panel frame, and is still pending as its overlay frame goes out in
    place of the next one, without the marker; no marked frame was ever sent.
  */
  lemma MarkerIsLost(p: Profile, panel: seq<Byte>, f: seq<Byte>) returns (events: seq<Event>, i: nat)
    requires Regenerates(p) && p.controlVerified && PanelFrame(panel) && MainFrame(f)
    ensures Legal(p, events) && i < |events| && Accepted(p, Run(p, events[..i]), events[i])
    ensures Run(p, events).overlay.active && LastWrite(Run(p, events)) == PanelRewrite(panel, TURN_ON, false)
    ensures EventBursts(Run(p, events).toMain) == 0
  {
    var queued: seq<Event>;
    queued, i := QueueInside(p, panel, f);
    var finished := FinishRepeated(p, queued, panel);
    events := SendOverlay(p, finished, panel, false);
    PrefixKept(queued, events, i);
  }

  /** The command is queued after the first byte of a frame the panel repeats. */
  lemma QueueInside(p: Profile, panel: seq<Byte>, f: seq<Byte>) returns (events: seq<Event>, i: nat)
    requires Regenerates(p) && p.controlVerified && PanelFrame(panel) && MainFrame(f)
    ensures Begun(p, events) && i < |events| && Accepted(p, Run(p, events[..i]), events[i])
    ensures var s := Run(p, events);
      && s.panelIn == Partial(panel, 1, s.panelIn.synchronized) && s.panelUpdate.None?
      && s.prepared.None? && !s.burst && TurningOn(s, panel, true) && EventBursts(s.toMain) == 0
  {
    var before := HearBoth(p, panel, f);
    BytesOfPanelFrame(p, Run(p, before), panel, 0);
    IdleByteSent(p, Run(p, before), panel, 0);
    EventBurstsSnoc(Run(p, before).toMain, [panel[0]]);
    before := Continue(p, before, PanelByte(panel[0]));
    i := |before|;
    events := QueueOn(p, before, panel, f);
    assert events[..i] == before;
  }
}
