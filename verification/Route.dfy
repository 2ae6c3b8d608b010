/**
  Who owns the line to the main board, over whole runs: what each panel byte
  writes, when an overlay frame is due, and when a command takes over a line
  that the hardware forwards.
*/
module Route {
  import opened Wire
  import opened Protocol
  import opened Commands
  import opened Framing
  import opened Bridge
  import opened BridgeRuns
  import opened BridgeForwarding
  import opened Replacement

  /** The hardware forwards the panel line itself, and frame bytes are not the processor's to send. */
  predicate Gated(p: Profile, s: State) { p.hwForward && s.mirror }

  // ----- nothing is held back -----

  /** A command that owns a hardware line has switched the hardware off, and no overlay frame waits. */
  predicate Settled(p: Profile, s: State) {
    && s.prepared.None?
    && (s.overlay.active && s.overlay.takeoverReady ==> !Gated(p, s))
  }

  lemma JudgedMirror(p: Profile, s: State, f: seq<Byte>)
    requires |f| == PANEL_SIZE
    ensures var t := JudgePanelFrame(p, s, f); t.mirror == (s.mirror || (s.overlay.active && !t.overlay.active))
  {
  }

  lemma PublishedMirror(s: State, now: int)
    requires Agreed(s)
    ensures var t := PublishMainStep(s, now); t.mirror == (s.mirror || (s.overlay.active && !t.overlay.active))
  {
  }

  lemma MirrorStep(p: Profile, s: State, e: Event)
    requires Agreed(s) && !e.what.FinishTakeover? && !e.what.SetReady?
    ensures var t := Step(p, s, e); t.mirror == (s.mirror || (s.overlay.active && !t.overlay.active))
  {
    match e.what {
      case PanelByte(b) =>
        PanelByteSplits(p, s, e.now, b);
        if CompletedPanel(s.panelIn, b).Some? {
          JudgedMirror(p, Forwarded(p, s, e.now, b), CompletedPanel(s.panelIn, b).value);
        }
      case MainByte(b) => MainByteMoves(p, s, b);
      case PublishPanel => PublishPanelEffect(s, e.now);
      case PublishMain => PublishedMirror(s, e.now);
      case _ =>
    }
  }

  lemma NotTaken(p: Profile, s: State, e: Event)
    requires !e.what.FinishTakeover? && !Accepted(p, s, e)
    ensures Step(p, s, e).overlay.takeoverReady ==> s.overlay.takeoverReady
  {
    match e.what {
      case PanelByte(b) => PanelByteTakes(p, s, e.now, b);
      case MainByte(b) => MainByteMoves(p, s, b);
      case PublishPanel => PublishPanelMoves(p, s, e.now);
      case PublishMain => PublishMainTakes(s, e.now);
      case Queue(_, _) => QueueMoves(p, s, e);
      case _ =>
    }
  }

  lemma PublishMainTakes(s: State, now: int)
    ensures PublishMainStep(s, now).overlay.takeoverReady ==> s.overlay.takeoverReady
  {
  }

  lemma PanelByteTakes(p: Profile, s: State, now: int, b: Byte)
    ensures PanelByteStep(p, s, now, b).overlay.takeoverReady ==> s.overlay.takeoverReady
  {
    PanelByteSplits(p, s, now, b);
  }

  lemma StepMirror(p: Profile, s: State, e: Event)
    requires Agreed(s) && !Accepted(p, s, e) && !e.what.FinishTakeover?
    ensures var t := Step(p, s, e); t.overlay.active && t.overlay.takeoverReady ==>
              s.overlay.active && s.overlay.takeoverReady && t.mirror == s.mirror
  {
    CarriedRequest(p, s, e);
    NotTaken(p, s, e);
    if !e.what.SetReady? {
      MirrorStep(p, s, e);
    }
  }

  lemma HeldBack(p: Profile, s: State, e: Event)
    requires Settled(p, s)
    ensures Step(p, s, e).prepared.None?
  {
    if e.what.PanelByte? {
      JudgedOutgoing(p, s, e.now, e.what.b);
      ForwardedSettled(p, s, e.now, e.what.b);
    } else {
      StepKeepsToMain(p, s, e);
    }
  }

  /** What one panel byte writes. */
  function Written(p: Profile, s: State, b: Byte): seq<seq<Byte>> {
    var index := Consume(s.panelIn, b).index;
    if index.None? then [[b]]
    else if Gated(p, s) then []
    else if index == Some(0) then [Instead(DueFrame(s, b), [b])]
    else if s.burst then []
    else [[b]]
  }

  lemma ForwardedGated(p: Profile, s: State, now: int, b: Byte)
    requires Settled(p, s) && Gated(p, s)
    ensures var t := Forwarded(p, s, now, b);
      && t.prepared.None? && t.toMain == s.toMain + Written(p, s, b)
      && t.burst == (if Consume(s.panelIn, b).index == Some(0) then DueFrame(s, b).Some? else s.burst)
  {
    var u := s.(panelIn := Consume(s.panelIn, b).next, lastPanelByte := now);
    assert Prepared(u) == Prepared(s);
  }

  lemma ForwardedOpen(p: Profile, s: State, now: int, b: Byte)
    requires Settled(p, s) && !Gated(p, s)
    ensures var t := Forwarded(p, s, now, b);
      && t.prepared.None? && t.toMain == s.toMain + Written(p, s, b)
      && t.burst == (if Consume(s.panelIn, b).index == Some(0) then DueFrame(s, b).Some? else s.burst)
  {
    var u := s.(panelIn := Consume(s.panelIn, b).next, lastPanelByte := now);
    assert Prepared(u) == Prepared(s);
  }

  lemma ForwardedSettled(p: Profile, s: State, now: int, b: Byte)
    requires Settled(p, s)
    ensures var t := Forwarded(p, s, now, b);
      && t.prepared.None? && t.toMain == s.toMain + Written(p, s, b)
      && t.burst == (if Consume(s.panelIn, b).index == Some(0) then DueFrame(s, b).Some? else s.burst)
  {
    if Gated(p, s) {
      ForwardedGated(p, s, now, b);
    } else {
      ForwardedOpen(p, s, now, b);
    }
  }

  lemma StepSettled(p: Profile, s: State, e: Event)
    requires Agreed(s) && RoutesFit(p, s) && Settled(p, s)
    ensures Settled(p, Step(p, s, e))
  {
    HeldBack(p, s, e);
    if !Accepted(p, s, e) && !e.what.FinishTakeover? {
      StepMirror(p, s, e);
    }
  }

  lemma {:induction false} AlwaysSettled(p: Profile, events: seq<Event>)
    ensures Settled(p, Run(p, events))
  {
    if events != [] {
      var n := |events| - 1;
      AlwaysSettled(p, events[..n]);
      AlwaysAgreed(p, events[..n]);
      StepSettled(p, Run(p, events[..n]), events[n]);
    }
  }

  // ----- what is written -----

  /** The frame in progress, or the last one begun, had an overlay frame due as it began. */
  function Replacing(p: Profile, events: seq<Event>): bool {
    if events == [] then false
    else
      var n := |events| - 1;
      var s, what := Run(p, events[..n]), events[n].what;
      if what.PanelByte? && Consume(s.panelIn, what.b).index == Some(0) then DueFrame(s, what.b).Some?
      else Replacing(p, events[..n])
  }

  lemma {:induction false} BurstIsReplacing(p: Profile, events: seq<Event>)
    ensures Run(p, events).burst == Replacing(p, events)
  {
    if events != [] {
      var n := |events| - 1;
      var s, e := Run(p, events[..n]), events[n];
      BurstIsReplacing(p, events[..n]);
      AlwaysSettled(p, events[..n]);
      if e.what.PanelByte? {
        JudgedOutgoing(p, s, e.now, e.what.b);
        ForwardedSettled(p, s, e.now, e.what.b);
      } else {
        StepKeepsToMain(p, s, e);
      }
    }
  }

  /**
    Over runs and for every profile, what a step writes to the main board: only a
    panel byte makes it write; a byte outside frames goes out as it is; inside
    frames nothing does while the hardware forwards; otherwise the first byte
    brings the overlay frame due or itself, and the bytes after it follow
    exactly if there was none due.
  */
  lemma WrittenExactly(p: Profile, events: seq<Event>, e: Event)
    ensures var s, t := Run(p, events), Step(p, Run(p, events), e);
      if !e.what.PanelByte? then t.toMain == s.toMain
      else
        var b, index := e.what.b, Consume(s.panelIn, e.what.b).index;
        t.toMain == s.toMain
          + (if index.None? then [[b]]
             else if p.hwForward && s.mirror then []
             else if index == Some(0) then [Instead(DueFrame(s, b), [b])]
             else if Replacing(p, events) then [] else [[b]])
  {
    var s := Run(p, events);
    AlwaysSettled(p, events);
    BurstIsReplacing(p, events);
    if e.what.PanelByte? {
      JudgedOutgoing(p, s, e.now, e.what.b);
      ForwardedSettled(p, s, e.now, e.what.b);
    } else {
      StepKeepsToMain(p, s, e);
    }
  }

  /**
    When an overlay frame is due: with a command pending that owns the line and a
    panel frame published, and then it is that frame rewritten by the fold of the
    commands accepted since the overlay was last inactive.
  */
  lemma DueExactly(p: Profile, events: seq<Event>, b: Byte)
    ensures var s, h := Run(p, events), SinceInactive(p, events);
      && |s.report.panelRaw| == PANEL_SIZE
      && DueFrame(s, b) ==
         if Consume(s.panelIn, b).index == Some(0) && s.report.panelValid && h != [] && s.overlay.takeoverReady
         then Some(PanelRewrite(s.report.panelRaw, Folded(h), s.overlay.eventPending)) else None
  {
    AlwaysFrames(p, events);
    RequestFitsHistory(p, events);
    if SinceInactive(p, events) != [] {
      FoldedIsAdmissible(SinceInactive(p, events));
    }
  }

  // ----- who owns the line -----

  lemma OwnsStep(p: Profile, s: State, e: Event)
    requires Regenerates(p) && Agreed(s) && RoutesFit(p, s) && s.overlay.active == s.overlay.takeoverReady
    ensures Step(p, s, e).overlay.active == Step(p, s, e).overlay.takeoverReady
  {
    StepMoves(p, s, e);
  }

  /** On the regenerated route every pending command owns the line, from the moment it is accepted. */
  lemma {:induction false} PendingOwnsLine(p: Profile, events: seq<Event>)
    requires Regenerates(p)
    ensures Run(p, events).overlay.active == Run(p, events).overlay.takeoverReady
  {
    if events != [] {
      var n := |events| - 1;
      PendingOwnsLine(p, events[..n]);
      AlwaysAgreed(p, events[..n]);
      OwnsStep(p, Run(p, events[..n]), events[n]);
    }
  }

  // ----- taking over a hardware line -----

  predicate TakesLine(p: Profile) { p.hwForward && !p.loopControl }

  /** Time of the last byte from the panel, 0 before the first. */
  function LastPanelByteAt(events: seq<Event>): int {
    if events == [] then 0
    else if events[|events| - 1].what.PanelByte? then events[|events| - 1].now
    else LastPanelByteAt(events[..|events| - 1])
  }

  /** The panel has been silent for 30 ms, or, if it never sent anything, the last command is that old. */
  predicate LineSilent(p: Profile, events: seq<Event>, now: int) {
    var since := if LastPanelByteAt(events) != 0 then LastPanelByteAt(events) else LastAccepted(p, events);
    since != 0 && now - since >= 30_000
  }

  /** A takeover has begun: a command waited for the line as it was silent, and the switch is under way. */
  function Armed(p: Profile, events: seq<Event>): bool {
    if events == [] then false
    else
      var before, e := events[..|events| - 1], events[|events| - 1];
      match e.what
      case ArmTakeover =>
        Run(p, before).overlay.active && !Run(p, before).overlay.takeoverReady && LineSilent(p, before, e.now)
      case FinishTakeover(_) => false
      case _ => Armed(p, before)
  }

  predicate WaitsOrOwns(s: State) { s.overlay.takeoverPending == (s.overlay.active && !s.overlay.takeoverReady) }

  lemma WaitsStep(p: Profile, s: State, e: Event)
    requires TakesLine(p) && Agreed(s) && WaitsOrOwns(s)
    ensures WaitsOrOwns(Step(p, s, e))
  {
    StepMoves(p, s, e);
  }

  lemma {:induction false} AlwaysWaitsOrOwns(p: Profile, events: seq<Event>)
    requires TakesLine(p)
    ensures WaitsOrOwns(Run(p, events))
  {
    if events != [] {
      var n := |events| - 1;
      AlwaysWaitsOrOwns(p, events[..n]);
      AlwaysAgreed(p, events[..n]);
      WaitsStep(p, Run(p, events[..n]), events[n]);
    }
  }

  lemma ClockStep(p: Profile, s: State, e: Event)
    ensures var t := Step(p, s, e);
      && t.lastPanelByte == (if e.what.PanelByte? then e.now else s.lastPanelByte)
      && (!e.what.ArmTakeover? && !e.what.FinishTakeover? ==> t.takeoverArmed == s.takeoverArmed)
  {
    match e.what {
      case PanelByte(b) =>
        PanelByteSplits(p, s, e.now, b);
        if CompletedPanel(s.panelIn, b).Some? {
          JudgeEffect(p, Forwarded(p, s, e.now, b), CompletedPanel(s.panelIn, b).value);
        }
      case MainByte(b) => MainByteMoves(p, s, b);
      case PublishPanel => PublishPanelEffect(s, e.now);
      case PublishMain => PublishMainEffect(s, e.now);
      case Queue(ready, r) => QueueMoves(p, s, e);
      case _ =>
    }
  }

  lemma {:induction false} QueuedWhen(p: Profile, events: seq<Event>)
    ensures Run(p, events).overlay.active ==> Run(p, events).overlay.queuedAt == LastAccepted(p, events)
  {
    if events != [] {
      var n := |events| - 1;
      QueuedWhen(p, events[..n]);
      AlwaysAgreed(p, events[..n]);
      QueuedAtStep(p, Run(p, events[..n]), events[n]);
    }
  }

  lemma {:induction false} ClockRun(p: Profile, events: seq<Event>)
    ensures Run(p, events).lastPanelByte == LastPanelByteAt(events)
  {
    if events != [] {
      ClockRun(p, events[..|events| - 1]);
      ClockStep(p, Run(p, events[..|events| - 1]), events[|events| - 1]);
    }
  }

  lemma ArmedStep(p: Profile, s: State, now: int, since: int)
    requires WaitsOrOwns(s)
    requires s.overlay.active ==> since == if s.lastPanelByte != 0 then s.lastPanelByte else s.overlay.queuedAt
    ensures ArmTakeoverStep(s, now).takeoverArmed ==
              (s.overlay.active && !s.overlay.takeoverReady && since != 0 && now - since >= 30_000)
  {
  }

  lemma {:induction false} ArmedExactly(p: Profile, events: seq<Event>)
    requires TakesLine(p)
    ensures Run(p, events).takeoverArmed == Armed(p, events)
  {
    if events != [] {
      var before, e := events[..|events| - 1], events[|events| - 1];
      var s := Run(p, before);
      ArmedExactly(p, before);
      if e.what.ArmTakeover? {
        AlwaysWaitsOrOwns(p, before);
        ClockRun(p, before);
        QueuedWhen(p, before);
        var since := if LastPanelByteAt(before) != 0 then LastPanelByteAt(before) else LastAccepted(p, before);
        ArmedStep(p, s, e.now, since);
      } else if !e.what.FinishTakeover? {
        ClockStep(p, s, e);
      }
    }
  }

  lemma FinishDecides(s: State, ok: bool)
    requires WaitsOrOwns(s)
    ensures var t := FinishTakeoverStep(s, ok);
      if !s.takeoverArmed then t == s
      else if ok then
        t == s.(takeoverArmed := false, mirror := false,
                overlay := s.overlay.(takeoverPending := false,
                                      takeoverReady := s.overlay.takeoverReady || s.overlay.active))
      else
        t.mirror == s.mirror && !t.overlay.active
        && (if s.overlay.active then t.report.status == Cancelled && !t.report.commandPending
            else t.report == s.report)
  {
  }

  /**
    Over runs, on a line that the hardware forwards: a command comes to own the
    line exactly at a switch that succeeds after one was begun for it in silence;
    a switch that fails cancels it; and without one begun nothing happens.
  */
  lemma TakeoverExactly(p: Profile, events: seq<Event>, e: Event)
    requires TakesLine(p)
    ensures var s, t := Run(p, events), Step(p, Run(p, events), e);
      && (t.overlay.takeoverReady && !s.overlay.takeoverReady <==>
            e.what == FinishTakeover(true) && Armed(p, events) && s.overlay.active && !s.overlay.takeoverReady)
      && (e.what == FinishTakeover(true) && Armed(p, events) ==> !t.mirror && t.overlay.active == s.overlay.active)
      && (e.what == FinishTakeover(false) && Armed(p, events) ==>
            !t.overlay.active && t.mirror == s.mirror
            && t.report.status == (if s.overlay.active then Cancelled else s.report.status))
      && (e.what.FinishTakeover? && !Armed(p, events) ==> t == s)
  {
    var s := Run(p, events);
    ArmedExactly(p, events);
    AlwaysWaitsOrOwns(p, events);
    AlwaysAgreed(p, events);
    if e.what.FinishTakeover? {
      FinishDecides(s, e.what.ok);
    } else if !Accepted(p, s, e) {
      NotTaken(p, s, e);
    }
  }

  // ----- the hardware route -----

  /** Does the hardware forward the panel line? It is switched off by a takeover and on again as a command ends. */
  function HardwareForwards(p: Profile, events: seq<Event>): bool {
    if events == [] then true
    else
      var before, e := events[..|events| - 1], events[|events| - 1];
      match e.what
      case FinishTakeover(ok) => HardwareForwards(p, before) && !(ok && Armed(p, before))
      case SetReady(on) => HardwareForwards(p, before) || !on
      case _ => HardwareForwards(p, before) || (Run(p, before).overlay.active && !Run(p, events).overlay.active)
  }

  /** The route is off exactly from a successful takeover to the next end of a command. */
  lemma {:induction false} MirrorExactly(p: Profile, events: seq<Event>)
    requires TakesLine(p)
    ensures Run(p, events).mirror == HardwareForwards(p, events)
  {
    if events != [] {
      var before, e := events[..|events| - 1], events[|events| - 1];
      MirrorExactly(p, before);
      AlwaysAgreed(p, before);
      if e.what.FinishTakeover? {
        ArmedExactly(p, before);
        AlwaysWaitsOrOwns(p, before);
        FinishDecides(Run(p, before), e.what.ok);
      } else if !e.what.SetReady? {
        MirrorStep(p, Run(p, before), e);
      }
    }
  }
}
