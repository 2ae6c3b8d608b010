/**
  What the bridge puts on the two wires, over whole runs.
*/
module BridgeForwarding {
  import opened Wire
  import opened Protocol
  import opened ControlAlgebra
  import opened Commands
  import opened Framing
  import opened Bridge
  import opened BridgeRuns

  /** Bytes received from the panel, in order. */
  function PanelInput(events: seq<Event>): seq<Byte> {
    if events == [] then []
    else
      var n := |events| - 1;
      match events[n].what
      case PanelByte(b) => PanelInput(events[..n]) + [b]
      case _ => PanelInput(events[..n])
  }

  // ----- frames stay frames -----

  lemma CompletedIsFrame(s: Stream, b: Byte)
    requires Wellformed(s)
    ensures CompletedPanel(s, b).Some? ==> PanelFrame(CompletedPanel(s, b).value)
    ensures CompletedMain(s, b).Some? ==> MainFrame(CompletedMain(s, b).value)
  {
    if Consume(s, b).frame.Some? {
      var f := Consume(s, b).frame.value;
      assert f == s.buffer + [b] && ExpectedSize(f) == ExpectedSize(s.buffer);
    }
  }

  lemma PreparedIsFrame(s: State)
    requires FramesKept(s)
    ensures Prepared(s).Some? ==> PanelFrame(Prepared(s).value)
    ensures Prepared(s).Some? ==>
              s.overlay.active && Prepared(s).value[3] == Marker(s.overlay.eventPending)
  {
    if Prepared(s).Some? {
      PanelRewriteShape(s.report.panelRaw, s.overlay.request, s.overlay.eventPending);
    }
  }

  /**
    The panel is shown a valid main frame; it is the received one unless a
    command is looped through the panel, and even then it may differ only in
    marker, code, flags, temperature, its Fahrenheit companion and check byte.
  */
  lemma ShownFrame(p: Profile, s: State, f: seq<Byte>)
    requires MainFrame(f)
    ensures var g := ShownToPanel(p, s, f);
      && MainFrame(g)
      && (!(p.loopControl && s.overlay.active) ==> g == f)
      && (forall k :: 0 <= k < MAIN_SIZE && k !in {3, 4, 5, 6, 14, 21} ==> g[k] == f[k])
  {
    MainRewriteShape(f, s.overlay.request, s.overlay.eventPending);
  }

  /** Enough to keep every stored frame a frame: each one is an old one or new and valid. */
  lemma FramesStill(s: State, t: State)
    requires FramesKept(s) && Wellformed(t.panelIn) && Wellformed(t.mainIn)
    requires || (t.report.panelRaw == s.report.panelRaw && t.report.panelValid == s.report.panelValid)
             || PanelFrame(t.report.panelRaw)
    requires t.panelUpdate.None? || t.panelUpdate == s.panelUpdate || PanelFrame(t.panelUpdate.value.frame)
    requires t.mainUpdate.None? || t.mainUpdate == s.mainUpdate || MainFrame(t.mainUpdate.value)
    requires t.prepared.None? || t.prepared == s.prepared || PanelFrame(t.prepared.value)
    requires t.toPanel == s.toPanel || (exists g :: MainFrame(g) && t.toPanel == s.toPanel + [g])
    ensures FramesKept(t)
  {
  }

  lemma ForwardedPrepared(p: Profile, s: State, now: int, b: Byte)
    ensures var t := Forwarded(p, s, now, b);
      t.prepared.None? || t.prepared == s.prepared || t.prepared == Prepared(s)
  {
    var u := s.(panelIn := Consume(s.panelIn, b).next, lastPanelByte := now);
    assert Prepared(u) == Prepared(s);
  }

  lemma ForwardKeepsFrames(p: Profile, s: State, now: int, b: Byte)
    requires FramesKept(s)
    ensures FramesKept(Forwarded(p, s, now, b))
  {
    ConsumeKeepsWellformed(s.panelIn, b);
    ForwardedPrepared(p, s, now, b);
    PreparedIsFrame(s);
    FramesStill(s, Forwarded(p, s, now, b));
  }

  lemma JudgeEffect(p: Profile, s: State, f: seq<Byte>)
    requires |f| == PANEL_SIZE
    ensures var t := JudgePanelFrame(p, s, f);
      && t == s.(overlay := t.overlay, report := t.report, mirror := t.mirror, panelUpdate := t.panelUpdate)
      && t.report.main == s.report.main
      && t.report.panelRaw == s.report.panelRaw && t.report.panelValid == s.report.panelValid
      && t.panelUpdate.Some? && t.panelUpdate.value.frame == f
  {
  }

  lemma PanelByteKeepsFrames(p: Profile, s: State, now: int, b: Byte)
    requires FramesKept(s)
    ensures FramesKept(PanelByteStep(p, s, now, b))
  {
    PanelByteSplits(p, s, now, b);
    ForwardKeepsFrames(p, s, now, b);
    CompletedIsFrame(s.panelIn, b);
    if CompletedPanel(s.panelIn, b).Some? {
      var u, f := Forwarded(p, s, now, b), CompletedPanel(s.panelIn, b).value;
      JudgeEffect(p, u, f);
      FramesStill(u, JudgePanelFrame(p, u, f));
    }
  }

  lemma MainByteEffect(p: Profile, s: State, b: Byte)
    ensures MainByteStep(p, s, b) ==
      match CompletedMain(s.mainIn, b)
      case Some(f) => s.(mainIn := Consume(s.mainIn, b).next, mainUpdate := Some(f),
                         toPanel := s.toPanel + [ShownToPanel(p, s, f)])
      case None => s.(mainIn := Consume(s.mainIn, b).next)
  {
    if CompletedMain(s.mainIn, b).Some? {
      var u, f := s.(mainIn := Consume(s.mainIn, b).next), CompletedMain(s.mainIn, b).value;
      assert ShownToPanel(p, u, f) == ShownToPanel(p, s, f);
    }
  }

  lemma MainByteKeepsFrames(p: Profile, s: State, b: Byte)
    requires FramesKept(s)
    ensures FramesKept(MainByteStep(p, s, b))
  {
    ConsumeKeepsWellformed(s.mainIn, b);
    CompletedIsFrame(s.mainIn, b);
    MainByteEffect(p, s, b);
    var stream := Consume(s.mainIn, b).next;
    match CompletedMain(s.mainIn, b) {
      case None => MainStreamStill(s, stream);
      case Some(f) =>
        ShownFrame(p, s, f);
        AddedFrame(s, stream, f, ShownToPanel(p, s, f));
    }
  }

  lemma MainStreamStill(s: State, mainIn: Stream)
    requires FramesKept(s) && Wellformed(mainIn)
    ensures FramesKept(s.(mainIn := mainIn))
  {
  }

  lemma StreamsStill(s: State, panelIn: Stream, mainIn: Stream)
    requires FramesKept(s) && Wellformed(panelIn) && Wellformed(mainIn)
    ensures FramesKept(s.(panelIn := panelIn, mainIn := mainIn))
  {
  }

  lemma AddedFrame(s: State, mainIn: Stream, f: seq<Byte>, g: seq<Byte>)
    requires FramesKept(s) && MainFrame(f) && MainFrame(g) && Wellformed(mainIn)
    ensures FramesKept(s.(mainIn := mainIn, mainUpdate := Some(f), toPanel := s.toPanel + [g]))
  {
  }

  lemma PublishPanelEffect(s: State, now: int)
    ensures var t := PublishPanelStep(s, now);
      && t == s.(report := t.report, panelTime := t.panelTime, panelUpdate := None)
      && t.report.main == s.report.main
      && ((t.report.panelRaw == s.report.panelRaw && t.report.panelValid == s.report.panelValid)
          || PanelFrame(t.report.panelRaw))
  {
    if s.panelUpdate.Some? && ParsePanel(s.panelUpdate.value.frame).Some? {
      AdoptPanelEffect(s.(panelUpdate := None), now, s.panelUpdate.value, ParsePanel(s.panelUpdate.value.frame).value);
    }
  }

  lemma AdoptPanelEffect(s: State, now: int, u: PanelUpdate, parsed: PanelState)
    ensures var t := AdoptPanel(s, now, u, parsed);
      && t == s.(report := t.report, panelTime := t.panelTime)
      && t.report.main == s.report.main && t.report.panelRaw == u.frame
  {
  }

  lemma PublishMainEffect(s: State, now: int)
    ensures var t := PublishMainStep(s, now);
      && t == s.(report := t.report, overlay := t.overlay, mirror := t.mirror, mainTime := t.mainTime,
                 mainUpdate := None)
      && t.report.panelRaw == s.report.panelRaw && t.report.panelValid == s.report.panelValid
      && t.report.main == (if s.mainUpdate.Some? && ParseMain(s.mainUpdate.value).Some?
                           then MainReport(true, s.mainUpdate.value, ParseMain(s.mainUpdate.value).value)
                           else s.report.main)
  {
    if s.mainUpdate.Some? && ParseMain(s.mainUpdate.value).Some? {
      AdoptMainEffect(s.(mainUpdate := None), now, s.mainUpdate.value, ParseMain(s.mainUpdate.value).value);
    }
  }

  lemma AdoptMainEffect(s: State, now: int, f: seq<Byte>, parsed: MainState)
    ensures var t := AdoptMain(s, now, f, parsed);
      && t == s.(report := t.report, overlay := t.overlay, mirror := t.mirror, mainTime := t.mainTime)
      && t.report.panelRaw == s.report.panelRaw && t.report.panelValid == s.report.panelValid
      && t.report.main == MainReport(true, f, parsed)
  {
  }

  lemma PublishKeepsFrames(s: State, now: int)
    requires FramesKept(s)
    ensures FramesKept(PublishPanelStep(s, now))
    ensures FramesKept(PublishMainStep(s, now))
  {
    PublishPanelEffect(s, now);
    FramesStill(s, PublishPanelStep(s, now));
    PublishMainEffect(s, now);
    FramesStill(s, PublishMainStep(s, now));
  }

  /** Commands, takeovers, the watchdog and the interlock touch neither stream nor any frame kept from one. */
  predicate SameStreams(s: State, t: State) {
    && t.panelIn == s.panelIn && t.mainIn == s.mainIn && t.prepared == s.prepared && t.burst == s.burst
    && t.panelUpdate == s.panelUpdate && t.mainUpdate == s.mainUpdate
    && t.toMain == s.toMain && t.toPanel == s.toPanel && t.report.main == s.report.main
    && t.report.panelValid == s.report.panelValid && t.report.panelRaw == s.report.panelRaw
  }

  predicate ControlStep(what: What) {
    what.Queue? || what.ArmTakeover? || what.FinishTakeover? || what.Watchdog? || what.SetReady?
  }

  lemma TimedKeepsStreams(s: State, now: int, ok: bool)
    ensures SameStreams(s, ArmTakeoverStep(s, now))
    ensures SameStreams(s, FinishTakeoverStep(s, ok))
    ensures SameStreams(s, WatchdogStep(s, now))
  {
  }

  lemma QueueKeepsStreams(p: Profile, s: State, now: int, ready: bool, r: Request)
    ensures SameStreams(s, QueueStep(p, s, now, ready, r))
  {
    EnqueueKeepsStreams(p, s, now, r);
  }

  lemma EnqueueKeepsStreams(p: Profile, s: State, now: int, r: Request)
    ensures SameStreams(s, Enqueued(p, s, now, r))
  {
  }

  lemma SetReadyKeepsStreams(p: Profile, s: State, ready: bool)
    ensures SameStreams(s, SetReadyStep(p, s, ready))
  {
  }

  lemma ControlKeepsStreams(p: Profile, s: State, e: Event)
    requires ControlStep(e.what)
    ensures SameStreams(s, Step(p, s, e))
  {
    match e.what {
      case Queue(ready, r) => QueueKeepsStreams(p, s, e.now, ready, r);
      case SetReady(on) => SetReadyKeepsStreams(p, s, on);
      case FinishTakeover(ok) => TimedKeepsStreams(s, e.now, ok);
      case _ => TimedKeepsStreams(s, e.now, false);
    }
  }

  lemma IdleKeepsFrames(s: State)
    requires FramesKept(s)
    ensures FramesKept(s.(panelIn := Flushed(s.panelIn)))
    ensures FramesKept(s.(mainIn := Flushed(s.mainIn)))
  {
    StreamsStill(s, Flushed(s.panelIn), s.mainIn);
    StreamsStill(s, s.panelIn, Flushed(s.mainIn));
  }

  lemma StreamKeepsFrames(p: Profile, s: State, e: Event)
    requires FramesKept(s) && !ControlStep(e.what)
    ensures FramesKept(Step(p, s, e))
  {
    match e.what {
      case PanelByte(b) => PanelByteKeepsFrames(p, s, e.now, b);
      case MainByte(b) => MainByteKeepsFrames(p, s, b);
      case PublishPanel => PublishKeepsFrames(s, e.now);
      case PublishMain => PublishKeepsFrames(s, e.now);
      case _ => IdleKeepsFrames(s);
    }
  }

  lemma StepKeepsFrames(p: Profile, s: State, e: Event)
    requires FramesKept(s)
    ensures FramesKept(Step(p, s, e))
  {
    if ControlStep(e.what) {
      ControlKeepsStreams(p, s, e);
      FramesStill(s, Step(p, s, e));
    } else {
      StreamKeepsFrames(p, s, e);
    }
  }

  lemma {:induction false} AlwaysFrames(p: Profile, events: seq<Event>)
    ensures FramesKept(Run(p, events))
  {
    if events != [] {
      var n := |events| - 1;
      AlwaysFrames(p, events[..n]);
      StepKeepsFrames(p, Run(p, events[..n]), events[n]);
    }
  }

  // ----- the panel side -----

  /** Valid main frames completed on the main stream, in order. */
  function MainFrames(p: Profile, events: seq<Event>): seq<seq<Byte>> {
    if events == [] then []
    else
      var n := |events| - 1;
      match events[n].what
      case MainByte(b) =>
        (match CompletedMain(Run(p, events[..n]).mainIn, b)
         case Some(f) => MainFrames(p, events[..n]) + [f]
         case None => MainFrames(p, events[..n]))
      case _ => MainFrames(p, events[..n])
  }

  predicate ShownFor(p: Profile, received: seq<Byte>, shown: seq<Byte>) {
    && MainFrame(received) && MainFrame(shown)
    && (!(p.loopControl && p.controlVerified) ==> shown == received)
    && (forall k :: 0 <= k < MAIN_SIZE && k !in {3, 4, 5, 6, 14, 21} ==> shown[k] == received[k])
  }

  lemma StepKeepsToPanel(p: Profile, s: State, e: Event)
    requires !e.what.MainByte?
    ensures Step(p, s, e).toPanel == s.toPanel
  {
    if ControlStep(e.what) {
      ControlKeepsStreams(p, s, e);
    } else if e.what.PanelByte? {
      PanelByteSplits(p, s, e.now, e.what.b);
      if CompletedPanel(s.panelIn, e.what.b).Some? {
        JudgeEffect(p, Forwarded(p, s, e.now, e.what.b), CompletedPanel(s.panelIn, e.what.b).value);
      }
    } else if e.what.PublishPanel? {
      PublishPanelEffect(s, e.now);
    } else if e.what.PublishMain? {
      PublishMainEffect(s, e.now);
    }
  }

  predicate AllShown(p: Profile, received: seq<seq<Byte>>, shown: seq<seq<Byte>>) {
    && |shown| == |received|
    && (forall i :: 0 <= i < |shown| ==> ShownFor(p, received[i], shown[i]))
  }

  lemma ShownStep(p: Profile, s: State, b: Byte, received: seq<seq<Byte>>)
    requires FramesKept(s) && RoutesFit(p, s) && AllShown(p, received, s.toPanel)
    ensures var completed := CompletedMain(s.mainIn, b);
      AllShown(p, if completed.Some? then received + [completed.value] else received, MainByteStep(p, s, b).toPanel)
  {
    MainByteEffect(p, s, b);
    CompletedIsFrame(s.mainIn, b);
    if CompletedMain(s.mainIn, b).Some? {
      ShownFrame(p, s, CompletedMain(s.mainIn, b).value);
    }
  }

  /**
    Over any run, the panel is written one valid main frame per valid main
    frame received, in order. Without verified loop control each is the
    received frame itself; with it, the two may differ only in bytes 3 to 6,
    14 and the check byte.
  */
  lemma {:induction false} PanelSeesMainFrames(p: Profile, events: seq<Event>)
    ensures AllShown(p, MainFrames(p, events), Run(p, events).toPanel)
  {
    if events != [] {
      var n := |events| - 1;
      var s, e := Run(p, events[..n]), events[n];
      PanelSeesMainFrames(p, events[..n]);
      if e.what.MainByte? {
        AlwaysFrames(p, events[..n]);
        AlwaysAgreed(p, events[..n]);
        ShownStep(p, s, e.what.m, MainFrames(p, events[..n]));
      } else {
        StepKeepsToPanel(p, s, e);
      }
    }
  }

  /**
    And it says which frame that is: with k the step that completed the i-th main
    frame, the i-th frame written to the panel is that frame, unless the profile
    controls through the panel loop and a command was pending at step k; then it
    is that frame rewritten by the fold of the commands accepted since the
    overlay was last inactive.
  */
  lemma {:induction false} ShownIsTheCommand(p: Profile, events: seq<Event>, i: nat) returns (k: nat)
    requires i < |Run(p, events).toPanel|
    ensures i < |MainFrames(p, events)| && k < |events| && events[k].what.MainByte?
    ensures |MainFrames(p, events[..k])| == i
    ensures var s, h, f := Run(p, events[..k]), SinceInactive(p, events[..k]), MainFrames(p, events)[i];
      && CompletedMain(s.mainIn, events[k].what.m) == Some(f)
      && MainFrame(f) && (s.overlay.active ==> InRange(Folded(h)))
      && Run(p, events).toPanel[i] ==
         if p.loopControl && s.overlay.active then MainRewrite(f, Folded(h), s.overlay.eventPending) else f
  {
    var n := |events| - 1;
    PanelSeesMainFrames(p, events);
    PanelSeesMainFrames(p, events[..n]);
    if i < |Run(p, events[..n]).toPanel| {
      k := ShownIsTheCommand(p, events[..n], i);
      ShownEarlier(p, events, i);
      assert events[..n][..k] == events[..k];
    } else {
      k := n;
      ShownLast(p, events, i);
    }
  }

  lemma ShownEarlier(p: Profile, events: seq<Event>, i: nat)
    requires events != []
    requires i < |Run(p, events[..|events| - 1]).toPanel| && i < |MainFrames(p, events[..|events| - 1])|
    ensures i < |Run(p, events).toPanel| && i < |MainFrames(p, events)|
    ensures Run(p, events).toPanel[i] == Run(p, events[..|events| - 1]).toPanel[i]
    ensures MainFrames(p, events)[i] == MainFrames(p, events[..|events| - 1])[i]
  {
    var s, e := Run(p, events[..|events| - 1]), events[|events| - 1];
    if e.what.MainByte? {
      MainByteEffect(p, s, e.what.m);
    } else {
      StepKeepsToPanel(p, s, e);
    }
  }

  lemma ShownLast(p: Profile, events: seq<Event>, i: nat)
    requires events != [] && |Run(p, events[..|events| - 1]).toPanel| <= i < |Run(p, events).toPanel|
    requires |MainFrames(p, events[..|events| - 1])| == |Run(p, events[..|events| - 1]).toPanel|
    requires |MainFrames(p, events)| == |Run(p, events).toPanel|
    ensures var before, e, f := events[..|events| - 1], events[|events| - 1], MainFrames(p, events)[i];
      var s, h := Run(p, before), SinceInactive(p, before);
      && e.what.MainByte? && CompletedMain(s.mainIn, e.what.m) == Some(f)
      && MainFrame(f) && (s.overlay.active ==> InRange(Folded(h)))
      && Run(p, events).toPanel[i] ==
         if p.loopControl && s.overlay.active then MainRewrite(f, Folded(h), s.overlay.eventPending) else f
  {
    var before, e := events[..|events| - 1], events[|events| - 1];
    var s := Run(p, before);
    AlwaysFrames(p, before);
    RequestFitsHistory(p, before);
    if s.overlay.active {
      FoldedIsAdmissible(SinceInactive(p, before));
    }
    if e.what.MainByte? {
      MainByteEffect(p, s, e.what.m);
      CompletedIsFrame(s.mainIn, e.what.m);
    } else {
      StepKeepsToPanel(p, s, e);
    }
  }

  // ----- transparent forwarding to the main board -----

  lemma StepKeepsToMain(p: Profile, s: State, e: Event)
    requires !e.what.PanelByte?
    ensures var t := Step(p, s, e); t.toMain == s.toMain && t.burst == s.burst && t.prepared == s.prepared
    ensures e.what != PanelIdle ==> Step(p, s, e).panelIn == s.panelIn
  {
    if ControlStep(e.what) {
      ControlKeepsStreams(p, s, e);
    } else if e.what.MainByte? {
      MainByteEffect(p, s, e.what.m);
    } else if e.what.PublishPanel? {
      PublishPanelEffect(s, e.now);
    } else if e.what.PublishMain? {
      PublishMainEffect(s, e.now);
    }
  }

  /** What one panel byte adds to the outgoing side, told by the index the receiver gives it. */
  lemma ByteForwarded(p: Profile, s: State, now: int, b: Byte)
    requires !p.hwForward
    ensures var t, index := Forwarded(p, s, now, b), Consume(s.panelIn, b).index;
      && (index.None? ==> t.toMain == s.toMain + [[b]] && t.burst == s.burst && t.prepared == s.prepared)
      && (index == Some(0) ==>
            && t.toMain == s.toMain + [if Prepared(s).Some? then Prepared(s).value else [b]]
            && t.burst == Prepared(s).Some? && t.prepared.None?)
      && (index.Some? && index.value > 0 && s.prepared.None? ==>
            && t.toMain == (if s.burst then s.toMain else s.toMain + [[b]])
            && t.burst == s.burst && t.prepared.None?)
  {
    var u := s.(panelIn := Consume(s.panelIn, b).next, lastPanelByte := now);
    assert Prepared(u) == Prepared(s);
  }

  lemma JudgedOutgoing(p: Profile, s: State, now: int, b: Byte)
    ensures var u, t := Forwarded(p, s, now, b), PanelByteStep(p, s, now, b);
      t.panelIn == u.panelIn && t.burst == u.burst && t.prepared == u.prepared && t.toMain == u.toMain
  {
    PanelByteSplits(p, s, now, b);
    if CompletedPanel(s.panelIn, b).Some? {
      JudgeEffect(p, Forwarded(p, s, now, b), CompletedPanel(s.panelIn, b).value);
    }
  }

  lemma TransparentByte(p: Profile, s: State, now: int, b: Byte)
    requires !p.hwForward && !s.overlay.active && s.prepared.None? && !s.burst
    ensures var t := PanelByteStep(p, s, now, b);
      t.toMain == s.toMain + [[b]] && t.prepared.None? && !t.burst
  {
    ByteForwarded(p, s, now, b);
    JudgedOutgoing(p, s, now, b);
  }

  /** A transparent bridge hands the main board exactly the panel's bytes, whatever bytes and whatever else happens. */
  lemma {:induction false} BridgeIsTransparent(p: Profile, events: seq<Event>)
    requires !p.hwForward && !p.controlVerified
    ensures var s := Run(p, events);
      Flatten(s.toMain) == PanelInput(events) && s.prepared.None? && !s.burst
  {
    if events != [] {
      var n := |events| - 1;
      var s, e := Run(p, events[..n]), events[n];
      BridgeIsTransparent(p, events[..n]);
      AlwaysAgreed(p, events[..n]);
      match e.what {
        case PanelByte(b) =>
          TransparentByte(p, s, e.now, b);
          FlattenSnoc(s.toMain, [b]);
        case _ => StepKeepsToMain(p, s, e);
      }
    }
  }

  // ----- hardware forwarding with control through the panel loop -----

  /** Panel bytes that arrive outside any frame and do not start one. */
  function OutOfFrame(p: Profile, events: seq<Event>): seq<Byte> {
    if events == [] then []
    else
      var n := |events| - 1;
      match events[n].what
      case PanelByte(b) =>
        if Consume(Run(p, events[..n]).panelIn, b).index.None? then OutOfFrame(p, events[..n]) + [b]
        else OutOfFrame(p, events[..n])
      case _ => OutOfFrame(p, events[..n])
  }

  /** These are the bytes that can neither begin nor continue a header. */
  lemma OutOfFrameBytes(s: Stream, b: Byte)
    ensures Consume(s, b).index.None? <==>
              b != HEADER_0 && (s.buffer == [] || (|s.buffer| == 1 && b != HEADER_1))
  {
  }

  lemma MirrorStays(p: Profile, s: State, e: Event)
    requires s.mirror && !s.takeoverArmed
    ensures Step(p, s, e).mirror
  {
    match e.what {
      case PanelByte(b) => PanelByteMirror(p, s, e.now, b);
      case MainByte(b) => MainByteMoves(p, s, b);
      case PublishPanel => PublishPanelEffect(s, e.now);
      case PublishMain => PublishMainMirror(s, e.now);
      case _ =>
    }
  }

  lemma PublishMainMirror(s: State, now: int)
    requires s.mirror
    ensures PublishMainStep(s, now).mirror
  {
  }

  lemma PanelByteMirror(p: Profile, s: State, now: int, b: Byte)
    requires s.mirror
    ensures PanelByteStep(p, s, now, b).mirror
  {
    PanelByteSplits(p, s, now, b);
    if CompletedPanel(s.panelIn, b).Some? {
      JudgedMirror(p, Forwarded(p, s, now, b), CompletedPanel(s.panelIn, b).value);
    }
  }

  lemma JudgedMirror(p: Profile, s: State, f: seq<Byte>)
    requires s.mirror && |f| == PANEL_SIZE
    ensures JudgePanelFrame(p, s, f).mirror
  {
  }

  /**
    Where frames are forwarded in hardware and commands go through the panel
    loop, the hardware route never opens: the processor itself writes nothing to
    the main board but bytes outside frames.
  */
  lemma {:induction false} LoopControlLeavesMainBoardAlone(p: Profile, events: seq<Event>)
    requires p.hwForward && p.loopControl
    ensures Run(p, events).mirror && Flatten(Run(p, events).toMain) == OutOfFrame(p, events)
  {
    if events != [] {
      var before, e := events[..|events| - 1], events[|events| - 1];
      var s := Run(p, before);
      LoopControlLeavesMainBoardAlone(p, before);
      AlwaysAgreed(p, before);
      MirrorStays(p, s, e);
      if e.what.PanelByte? {
        MirroredByte(p, s, e.now, e.what.b);
      } else {
        StepKeepsToMain(p, s, e);
      }
    }
  }

  lemma MirroredByte(p: Profile, s: State, now: int, b: Byte)
    requires p.hwForward && s.mirror
    ensures Flatten(PanelByteStep(p, s, now, b).toMain)
            == Flatten(s.toMain) + if Consume(s.panelIn, b).index.None? then [b] else []
  {
    JudgedOutgoing(p, s, now, b);
    FlattenSnoc(s.toMain, [b]);
  }

  // ----- the profiles that are built -----

  /** The transparent image: both sides get exactly what the other side sent. */
  lemma TransparentImage(events: seq<Event>)
    ensures Flatten(Run(BRIDGE, events).toMain) == PanelInput(events)
    ensures Run(BRIDGE, events).toPanel == MainFrames(BRIDGE, events)
  {
    BridgeIsTransparent(BRIDGE, events);
    PanelSeesMainFrames(BRIDGE, events);
  }

  /** The control image: the main board is left to the hardware route, the panel sees frames that may be rewritten. */
  lemma ControlImage(events: seq<Event>)
    ensures Flatten(Run(MITM_NTS, events).toMain) == OutOfFrame(MITM_NTS, events)
    ensures AllShown(MITM_NTS, MainFrames(MITM_NTS, events), Run(MITM_NTS, events).toPanel)
  {
    LoopControlLeavesMainBoardAlone(MITM_NTS, events);
    PanelSeesMainFrames(MITM_NTS, events);
  }
}
