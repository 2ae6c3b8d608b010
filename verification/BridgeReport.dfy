/**
  What the bridge reports, over whole runs: the main-board fields never depend
  on commands, and a command counts as confirmed exactly when the main board
  shows every requested field.
*/
module BridgeReport {
  import opened Wire
  import opened Protocol
  import opened ControlAlgebra
  import opened Commands
  import opened Framing
  import opened Bridge
  import opened BridgeRuns
  import opened BridgeForwarding
  import opened Replacement

  // ----- non-optimism -----

  /** The part of the state that main-board bytes feed. */
  datatype MainView = MainView(stream: Stream, update: Option<seq<Byte>>, report: MainReport)

  function ViewOf(s: State): MainView { MainView(s.mainIn, s.mainUpdate, s.report.main) }

  predicate FromMainBoard(what: What) { what.MainByte? || what.MainIdle? || what.PublishMain? }

  function OnlyMain(events: seq<Event>): seq<Event> {
    if events == [] then []
    else
      var n := |events| - 1;
      if FromMainBoard(events[n].what) then OnlyMain(events[..n]) + [events[n]] else OnlyMain(events[..n])
  }

  function ViewStep(v: MainView, what: What): MainView {
    match what
    case MainByte(b) =>
      var completed := CompletedMain(v.stream, b);
      v.(stream := Consume(v.stream, b).next, update := if completed.Some? then completed else v.update)
    case MainIdle => v.(stream := Flushed(v.stream))
    case PublishMain =>
      v.(update := None,
         report := if v.update.Some? && ParseMain(v.update.value).Some?
                   then MainReport(true, v.update.value, ParseMain(v.update.value).value)
                   else v.report)
    case _ => v
  }

  lemma StreamViewStep(p: Profile, s: State, e: Event)
    requires !ControlStep(e.what)
    ensures ViewOf(Step(p, s, e)) == ViewStep(ViewOf(s), e.what)
  {
    match e.what {
      case PanelByte(b) =>
        PanelByteSplits(p, s, e.now, b);
        if CompletedPanel(s.panelIn, b).Some? {
          JudgeEffect(p, Forwarded(p, s, e.now, b), CompletedPanel(s.panelIn, b).value);
        }
      case PublishPanel => PublishPanelEffect(s, e.now);
      case MainByte(b) => MainByteEffect(p, s, b);
      case PublishMain => PublishMainEffect(s, e.now);
      case _ =>
    }
  }

  lemma StepView(p: Profile, s: State, e: Event)
    ensures ViewOf(Step(p, s, e)) == ViewStep(ViewOf(s), e.what)
  {
    if ControlStep(e.what) {
      ControlKeepsStreams(p, s, e);
    } else {
      StreamViewStep(p, s, e);
    }
  }

  lemma RunSnoc(p: Profile, events: seq<Event>, e: Event)
    ensures Run(p, events + [e]) == Step(p, Run(p, events), e)
  {
    assert (events + [e])[..|events|] == events;
  }

  /**
    Everything reported about the main board is decided by the main board's
    own bytes: removing every command, panel byte, takeover, watchdog and
    interlock step from a run, and even changing the profile, leaves it as it is.
  */
  lemma {:induction false} ReportIgnoresCommands(p: Profile, q: Profile, events: seq<Event>)
    ensures ViewOf(Run(p, events)) == ViewOf(Run(q, OnlyMain(events)))
  {
    if events != [] {
      var n := |events| - 1;
      var e, kept := events[n], OnlyMain(events[..n]);
      ReportIgnoresCommands(p, q, events[..n]);
      StepView(p, Run(p, events[..n]), e);
      if FromMainBoard(e.what) {
        RunSnoc(q, kept, e);
        StepView(q, Run(q, kept), e);
      }
    }
  }

  predicate ReportFits(v: MainView, received: seq<seq<Byte>>) {
    if received == [] then v.update.None? && !v.report.valid
    else
      var f := received[|received| - 1];
      && MainFrame(f)
      && (v.update.Some? ==> v.update == Some(f))
      && (v.update.None? ==> v.report == MainReport(true, f, ParseMain(f).value))
  }

  lemma ReportStep(v: MainView, what: What, received: seq<seq<Byte>>)
    requires ReportFits(v, received) && Wellformed(v.stream)
    requires what.MainByte? || what.MainIdle? ==> v.update.None?
    ensures ReportFits(ViewStep(v, what),
                       if what.MainByte? && CompletedMain(v.stream, what.m).Some?
                       then received + [CompletedMain(v.stream, what.m).value] else received)
  {
    if what.MainByte? {
      CompletedIsFrame(v.stream, what.m);
    }
  }

  lemma {:induction false} ReportFitsRun(p: Profile, events: seq<Event>)
    requires Legal(p, events)
    ensures ReportFits(ViewOf(Run(p, events)), MainFrames(p, events))
  {
    if events != [] {
      var n := |events| - 1;
      ReportFitsRun(p, events[..n]);
      AlwaysFrames(p, events[..n]);
      ReportStep(ViewOf(Run(p, events[..n])), events[n].what, MainFrames(p, events[..n]));
      StepView(p, Run(p, events[..n]), events[n]);
    }
  }

  /**
    Once published, the report is the parse of the last valid frame received from
    the main board, and before the first there is none.
  */
  lemma ReportIsLastMainFrame(p: Profile, events: seq<Event>)
    requires Legal(p, events) && Run(p, events).mainUpdate.None?
    ensures var received, main := MainFrames(p, events), Run(p, events).report.main;
      if received == [] then !main.valid
      else main.valid && main.raw == received[|received| - 1] && ParseMain(main.raw) == Some(main.state)
  {
    ReportFitsRun(p, events);
  }

  // ----- confirmation -----

  lemma PublishConfirms(s: State, now: int)
    requires Agreed(s) && FramesKept(s)
    ensures PublishMainStep(s, now).report.status == Confirmed && s.report.status != Confirmed <==>
              s.overlay.active && s.mainUpdate.Some?
              && Confirms(ParseMain(s.mainUpdate.value).value, s.overlay.request)
  {
    if s.mainUpdate.Some? {
      AdoptConfirms(s.(mainUpdate := None), now, s.mainUpdate.value, ParseMain(s.mainUpdate.value).value);
    }
  }

  lemma AdoptConfirms(s: State, now: int, f: seq<Byte>, parsed: MainState)
    requires Agreed(s)
    ensures AdoptMain(s, now, f, parsed).report.status == Confirmed && s.report.status != Confirmed <==>
              s.overlay.active && Confirms(parsed, s.overlay.request)
  {
  }

  lemma OnlyMainConfirms(p: Profile, s: State, e: Event)
    requires !e.what.PublishMain?
    ensures Step(p, s, e).report.status == Confirmed ==> s.report.status == Confirmed
  {
    match e.what {
      case PanelByte(b) => PanelByteStatus(p, s, e.now, b);
      case MainByte(b) => MainByteMoves(p, s, b);
      case PublishPanel => PublishPanelMoves(p, s, e.now);
      case FinishTakeover(ok) => FinishTakeoverStatus(s, ok);
      case SetReady(on) => SetReadyStatus(p, s, on);
      case Queue(ready, r) => QueueStatus(p, s, e.now, ready, r);
      case _ =>
    }
  }

  /**
    A step turns the status to confirmed exactly when it publishes a valid
    main frame while a command is pending, and that frame satisfies every
    field of the last-writer-wins reading of the accepted commands.
  */
  lemma ConfirmedExactlyWhenShown(p: Profile, events: seq<Event>, e: Event)
    ensures var s, h := Run(p, events), SinceInactive(p, events);
      Step(p, s, e).report.status == Confirmed && s.report.status != Confirmed <==>
        e.what.PublishMain? && h != [] && s.mainUpdate.Some?
        && MainFrame(s.mainUpdate.value) && Confirms(ParseMain(s.mainUpdate.value).value, Folded(h))
  {
    var s := Run(p, events);
    AlwaysAgreed(p, events);
    AlwaysFrames(p, events);
    RequestFitsHistory(p, events);
    if e.what.PublishMain? {
      PublishConfirms(s, e.now);
    } else {
      OnlyMainConfirms(p, s, e);
    }
  }

  // ----- is the confirming frame newer than the command? -----

  /** The step that completed the main frame now waiting to be published, -1 when none is waiting. */
  function Origin(p: Profile, events: seq<Event>): (j: int)
    ensures -1 <= j < |events|
  {
    if events == [] then -1
    else
      var n := |events| - 1;
      match events[n].what
      case MainByte(b) =>
        if CompletedMain(Run(p, events[..n]).mainIn, b).Some? then n else Origin(p, events[..n])
      case PublishMain => -1
      case _ => Origin(p, events[..n])
  }

  /** Step j completed frame f on the main stream. */
  predicate CompletedAt(p: Profile, events: seq<Event>, j: int, f: seq<Byte>) {
    0 <= j < |events| && events[j].what.MainByte?
    && CompletedMain(Run(p, events[..j]).mainIn, events[j].what.m) == Some(f)
  }

  lemma {:induction false} OriginCompleted(p: Profile, events: seq<Event>)
    ensures var waiting := Run(p, events).mainUpdate;
      && (waiting.Some? <==> Origin(p, events) >= 0)
      && (waiting.Some? ==> CompletedAt(p, events, Origin(p, events), waiting.value))
  {
    if events != [] {
      var n := |events| - 1;
      OriginCompleted(p, events[..n]);
      StepView(p, Run(p, events[..n]), events[n]);
      var j := Origin(p, events[..n]);
      if j >= 0 {
        assert events[..n][..j] == events[..j];
      }
    }
  }

  predicate NonePublished(events: seq<Event>, i: nat) {
    forall n :: i <= n < |events| ==> !events[n].what.PublishMain?
  }

  /** One more step keeps the waiting frame, publishes it, or completes one where none was waiting. */
  lemma OriginStep(p: Profile, events: seq<Event>)
    requires events != [] && Enabled(Run(p, events[..|events| - 1]), events[|events| - 1].what)
    ensures var n, before := |events| - 1, events[..|events| - 1];
      if events[n].what.PublishMain? then Origin(p, events) == -1
      else Origin(p, events) == Origin(p, before) || (Origin(p, events) == n && Origin(p, before) == -1)
  {
    OriginCompleted(p, events[..|events| - 1]);
  }

  lemma NonePublishedLast(events: seq<Event>, i: nat)
    requires i < |events|
    ensures NonePublished(events, i) <==>
              NonePublished(events[..|events| - 1], i) && !events[|events| - 1].what.PublishMain?
  {
  }

  lemma OlderStep(now: int, earlier: int, before: int, n: nat, i: nat, published: bool, none: bool, noneBefore: bool)
    requires i <= n && earlier < i && before < n && none == (noneBefore && !published)
    requires 0 <= before < i <==> earlier >= 0 && noneBefore
    requires if published then now == -1 else now == before || (now == n && before == -1)
    ensures 0 <= now < i <==> earlier >= 0 && none
  {
  }

  /** A waiting frame is older than step i exactly when one was waiting there and none has been published since. */
  lemma {:induction false} OriginOlder(p: Profile, events: seq<Event>, i: nat)
    requires Legal(p, events) && i <= |events|
    ensures 0 <= Origin(p, events) < i <==> Origin(p, events[..i]) >= 0 && NonePublished(events, i)
  {
    if i == |events| {
      assert events[..i] == events;
    } else {
      var n, before := |events| - 1, events[..|events| - 1];
      assert before[..i] == events[..i];
      OriginOlder(p, before, i);
      OriginStep(p, events);
      NonePublishedLast(events, i);
      OlderStep(Origin(p, events), Origin(p, events[..i]), Origin(p, before), n, i,
                events[n].what.PublishMain?, NonePublished(events, i), NonePublished(before, i));
    }
  }

  /**
    When a step turns the status to Confirmed, the frame that does it was
    completed on the main stream by an earlier step of the run; it is newer than
    a command queued at step i exactly unless a frame completed before was still
    waiting to be published as the command was queued, and is the one published now.
  */
  lemma ConfirmedFreshExactly(p: Profile, events: seq<Event>, i: nat, e: Event)
    requires Legal(p, events) && i < |events| && events[i].what.Queue?
    requires Run(p, events).report.status != Confirmed && Step(p, Run(p, events), e).report.status == Confirmed
    ensures e.what.PublishMain? && Run(p, events).mainUpdate.Some?
    ensures var j, f := Origin(p, events), Run(p, events).mainUpdate.value;
      && CompletedAt(p, events, j, f) && Confirms(ParseMain(f).value, Folded(SinceInactive(p, events)))
      && (j > i <==> !(Run(p, events[..i]).mainUpdate.Some? && NonePublished(events, i)))
  {
    ConfirmedExactlyWhenShown(p, events, e);
    OriginCompleted(p, events);
    OriginCompleted(p, events[..i]);
    OriginOlder(p, events, i);
  }

  /**
    Over runs, a frame f waiting at step i, as a command is queued, say, is
    published by the first publication after it, and confirms a pending command
    then exactly when it already shows what the pending commands ask for.
  */
  lemma StaleFrameDecides(p: Profile, events: seq<Event>, i: nat, f: seq<Byte>, e: Event)
    requires Legal(p, events) && i <= |events| && NonePublished(events, i)
    requires Waits(p, events[..i], f) && e.what.PublishMain? && Run(p, events).overlay.active
    ensures Waits(p, events, f) && 0 <= Origin(p, events) < i
    ensures Step(p, Run(p, events), e).report.status == Confirmed <==>
              Confirms(ParseMain(f).value, Folded(SinceInactive(p, events)))
  {
    OriginCompleted(p, events[..i]);
    OriginOlder(p, events, i);
    WaitingStays(p, events, i, f);
    WaitingDecides(p, events, f, e);
  }

  /** Valid main frame f has been completed and not yet published. */
  predicate Waits(p: Profile, events: seq<Event>, f: seq<Byte>) {
    MainFrame(f) && Run(p, events).mainUpdate == Some(f)
  }

  lemma PendingDecides(p: Profile, s: State, f: seq<Byte>, r: Request, e: Event)
    requires Agreed(s) && FramesKept(s) && s.overlay.active && s.overlay.request == r
    requires s.mainUpdate == Some(f) && e.what.PublishMain? && MainFrame(f)
    ensures Step(p, s, e).report.status == Confirmed <==> Confirms(ParseMain(f).value, r)
  {
    PublishConfirmsPending(s, e.now);
  }

  lemma WaitingDecides(p: Profile, events: seq<Event>, f: seq<Byte>, e: Event)
    requires Waits(p, events, f) && e.what.PublishMain? && Run(p, events).overlay.active
    ensures Step(p, Run(p, events), e).report.status == Confirmed <==>
              Confirms(ParseMain(f).value, Folded(SinceInactive(p, events)))
  {
    AlwaysAgreed(p, events);
    AlwaysFrames(p, events);
    RequestFitsHistory(p, events);
    PendingDecides(p, Run(p, events), f, Folded(SinceInactive(p, events)), e);
  }

  lemma LastKeepsWaiting(p: Profile, events: seq<Event>, f: seq<Byte>)
    requires events != [] && Enabled(Run(p, events[..|events| - 1]), events[|events| - 1].what)
    requires !events[|events| - 1].what.PublishMain? && Waits(p, events[..|events| - 1], f)
    ensures Waits(p, events, f)
  {
    StepView(p, Run(p, events[..|events| - 1]), events[|events| - 1]);
  }

  lemma {:induction false} WaitingStays(p: Profile, events: seq<Event>, i: nat, f: seq<Byte>)
    requires Legal(p, events) && i <= |events| && Waits(p, events[..i], f) && NonePublished(events, i)
    ensures Waits(p, events, f)
  {
    if i == |events| {
      assert events[..i] == events;
    } else {
      var before := events[..|events| - 1];
      assert before[..i] == events[..i];
      assert NonePublished(before, i);
      WaitingStays(p, before, i, f);
      LastKeepsWaiting(p, events, f);
    }
  }

  // ----- whether a command can still be confirmed -----

  /** Some valid main frame satisfies every field of the request. */
  ghost predicate SomeFrameConfirms(r: Request) {
    exists m :: MainFrame(m) && Confirms(ParseMain(m).value, r)
  }

  /** Over runs: a pending command can still be confirmed exactly when the fold of its requests is consistent. */
  lemma InForceConfirmableExactly(p: Profile, events: seq<Event>)
    requires Run(p, events).overlay.active
    ensures SomeFrameConfirms(Run(p, events).overlay.request) <==> Confirmable(Folded(SinceInactive(p, events)))
  {
    RequestFitsHistory(p, events);
    FoldedIsAdmissible(SinceInactive(p, events));
    ConfirmableExactly(Run(p, events).overlay.request);
  }

  /**
    Over runs: an accepted request, queued over a pending command that can be
    confirmed or over none, leaves a command that can be confirmed exactly when
    the stated condition on the two holds.
  */
  lemma AcceptedConfirmableExactly(p: Profile, events: seq<Event>, e: Event)
    requires Accepted(p, Run(p, events), e) && Confirmable(Folded(SinceInactive(p, events)))
    ensures SomeFrameConfirms(Step(p, Run(p, events), e).overlay.request) <==>
              StaysConfirmable(Folded(SinceInactive(p, events)), e.what.request)
  {
    var s, h := Run(p, events), SinceInactive(p, events);
    RequestFitsHistory(p, events);
    EnqueuedActive(p, s, e);
    MergedInRange(h, e.what.request);
    ConfirmableExactly(Merge(Folded(h), e.what.request));
    MergeConfirmableExactly(Folded(h), e.what.request);
  }

  lemma MergedInRange(h: seq<Request>, r: Request)
    requires Admissible(r) && forall i :: 0 <= i < |h| ==> Admissible(h[i])
    ensures InRange(Merge(Folded(h), r))
  {
    FoldedIsAdmissible(h + [r]);
    FoldedSnoc(h, r);
  }

  /** The command pending now is the one pending n steps in, if none was accepted since. */
  lemma {:induction false} StillPending(p: Profile, events: seq<Event>, n: nat)
    requires n <= |events|
    ensures AcceptedCount(p, events[..n]) <= AcceptedCount(p, events)
    ensures Run(p, events).overlay.active && AcceptedCount(p, events[..n]) == AcceptedCount(p, events) ==>
              SinceInactive(p, events[..n]) == SinceInactive(p, events)
  {
    if n == |events| {
      assert events[..n] == events;
    } else {
      var before := events[..|events| - 1];
      StillPending(p, before, n);
      assert before[..n] == events[..n];
      AlwaysAgreed(p, before);
      if !Accepted(p, Run(p, before), events[|events| - 1]) {
        CarriedRequest(p, Run(p, before), events[|events| - 1]);
      }
    }
  }

  /**
    Over runs: when the main board acknowledges the overlay frame that was
    written at step k, with no command accepted since, then publishing this
    acknowledgement confirms the command exactly when its raw code is consistent
    and a setpoint goes into Cool in the panel state the frame was made from.
  */
  lemma AcknowledgedReplacementConfirms(p: Profile, events: seq<Event>, k: nat, j: nat, m: seq<Byte>, e: Event)
    requires Writes(p, events, k, j) && j < |Run(p, events).toMain| && |Run(p, events).toMain[j]| == PANEL_SIZE
    requires Run(p, events).overlay.active && AcceptedCount(p, events) == AcceptedCount(p, events[..k])
    requires MainShaped(m) && Run(p, events).mainUpdate == Some(Ack(m, Run(p, events).toMain[j]))
    requires e.what.PublishMain?
    ensures var raw, r := Run(p, events[..k]).report.panelRaw, Folded(SinceInactive(p, events[..k]));
      && |raw| == PANEL_SIZE
      && (Step(p, Run(p, events), e).report.status == Confirmed <==>
          RawConsistent(r) && (r.mask.setpoint ==> TargetMode(raw, r) == Cool))
  {
    var f := Run(p, events).mainUpdate.value;
    var before := Run(p, events[..k]);
    var r := Folded(SinceInactive(p, events[..k]));
    ReplacementIsTheCommand(p, events, k, j);
    StillPending(p, events, k);
    RewriteOutcome(m, before.report.panelRaw, r, before.overlay.eventPending);
    WaitingDecides(p, events, f, e);
  }

  lemma PublishConfirmsPending(s: State, now: int)
    requires Agreed(s) && FramesKept(s) && s.overlay.active && s.mainUpdate.Some?
    ensures PublishMainStep(s, now).report.status == Confirmed <==>
              Confirms(ParseMain(s.mainUpdate.value).value, s.overlay.request)
  {
    PublishConfirms(s, now);
  }

  // ----- the panel's echo -----

  /**
    A panel that shows the pending command back, as an event and with a changed
    payload, overrules it exactly when the profile does not control through the
    panel loop or the command's raw code is inconsistent; otherwise it never does.
  */
  lemma EchoOverrulesExactly(p: Profile, s: State, f: seq<Byte>, event: bool)
    requires PanelFrame(f) && InRange(s.overlay.request)
    ensures var r := s.overlay.request; var echo := PanelRewrite(f, r, event);
      && PanelFrame(echo)
      && (Overrules(p, s, echo) <==>
            && s.overlay.active && event
            && s.report.panelValid && |s.report.panelRaw| == PANEL_SIZE && echo[4..14] != s.report.panelRaw[4..14]
            && !(p.loopControl && RawConsistent(r)))
  {
    PanelRewriteShape(f, s.overlay.request, event);
    RewriteOutcome(BENCH_REPLY, f, s.overlay.request, event);
  }
}
