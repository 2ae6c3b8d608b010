/**
  Which requests the command queue accepts, over whole runs, told from the
  request, the interlock and the times and bytes of the frames published.
*/
module Acceptance {
  import opened Wire
  import opened Protocol
  import opened Commands
  import opened Bridge
  import opened BridgeRuns
  import opened BridgeForwarding
  import opened BridgeReport
  import opened StateReport

  // ----- the request -----

  /** Values the appliance knows: 18 to 32 degrees, three modes, two fan speeds. */
  predicate Meaningful(r: Request) {
    && (r.mask.setpoint ==> 18 <= r.setpoint <= 32)
    && (r.mask.mode ==> r.mode == Cool || r.mode == FanOnly || r.mode == Dry)
    && (r.mask.fan ==> r.fan == Low || r.fan == High)
  }

  predicate Asks(r: Request) {
    r.mask.power || r.mask.setpoint || r.mask.mode || r.mask.fan || r.mask.raw || r.mask.quiet || r.mask.units
    || r.mask.timer
  }

  // ----- the clock -----

  lemma {:induction false} LegalPrefix(p: Profile, events: seq<Event>, n: nat)
    requires Legal(p, events) && n <= |events|
    ensures Legal(p, events[..n])
  {
    if n == |events| {
      assert events[..n] == events;
    } else {
      LegalPrefix(p, events[..|events| - 1], n);
      assert events[..|events| - 1][..n] == events[..n];
    }
  }

  /** Time of every step. */
  function Times(events: seq<Event>): (times: seq<int>)
    ensures |times| == |events| && forall i :: 0 <= i < |events| ==> times[i] == events[i].now
  {
    seq(|events|, i requires 0 <= i < |events| => events[i].now)
  }

  predicate ClockRises(times: seq<int>) {
    (times != [] ==> times[0] > 0) && forall k :: 0 < k < |times| ==> times[k - 1] <= times[k]
  }

  lemma ClockAtLast(p: Profile, events: seq<Event>)
    requires Legal(p, events) && events != []
    ensures var n := |events| - 1; if n == 0 then events[0].now > 0 else events[n - 1].now <= events[n].now
  {
  }

  lemma TicksRise(p: Profile, events: seq<Event>)
    requires Legal(p, events)
    ensures ClockRises(Times(events))
  {
    forall k: nat | k < |events|
      ensures if k == 0 then events[0].now > 0 else events[k - 1].now <= events[k].now
    {
      LegalPrefix(p, events, k + 1);
      ClockAtLast(p, events[..k + 1]);
    }
  }

  lemma {:induction false} RisesBetween(times: seq<int>, i: nat, j: nat)
    requires ClockRises(times) && i <= j < |times|
    ensures 0 < times[i] <= times[j]
    decreases j
  {
    if i < j {
      RisesBetween(times, i, j - 1);
    } else if j > 0 {
      RisesBetween(times, j - 1, j - 1);
    }
  }

  lemma TimesGrow(p: Profile, events: seq<Event>, i: nat, j: nat)
    requires Legal(p, events) && i <= j < |events|
    ensures 0 < events[i].now <= events[j].now
  {
    TicksRise(p, events);
    RisesBetween(Times(events), i, j);
  }

  // ----- fresh links -----

  /** Step j publishes a main frame. */
  predicate PublishesMain(p: Profile, events: seq<Event>, j: nat) {
    j < |events| && events[j].what.PublishMain? && Run(p, events[..j]).mainUpdate.Some?
  }

  predicate PublishesPanel(p: Profile, events: seq<Event>, j: nat) {
    j < |events| && events[j].what.PublishPanel? && Run(p, events[..j]).panelUpdate.Some?
  }

  /** A valid main frame was published not more than 1000 ms ago, in whole milliseconds. */
  ghost predicate MainHeard(p: Profile, events: seq<Event>, now: int) {
    exists j: nat :: PublishesMain(p, events, j) && now - events[j].now < 1_001_000
  }

  ghost predicate PanelHeard(p: Profile, events: seq<Event>, now: int) {
    exists j: nat :: PublishesPanel(p, events, j) && now - events[j].now < 1_001_000
  }

  /** Step of the last publication of a main frame, -1 before the first. */
  function LastMain(p: Profile, events: seq<Event>): (j: int)
    ensures -1 <= j < |events|
  {
    if events == [] then -1
    else if PublishesMain(p, events, |events| - 1) then |events| - 1
    else LastMain(p, events[..|events| - 1])
  }

  function LastPanel(p: Profile, events: seq<Event>): (j: int)
    ensures -1 <= j < |events|
  {
    if events == [] then -1
    else if PublishesPanel(p, events, |events| - 1) then |events| - 1
    else LastPanel(p, events[..|events| - 1])
  }

  lemma {:induction false} LastMainIsLast(p: Profile, events: seq<Event>, j: nat)
    ensures PublishesMain(p, events, j) ==> j <= LastMain(p, events)
    ensures LastMain(p, events) >= 0 ==> PublishesMain(p, events, LastMain(p, events))
  {
    if events != [] {
      var before := events[..|events| - 1];
      LastMainIsLast(p, before, j);
      if j < |before| {
        assert before[..j] == events[..j];
      }
      if LastMain(p, before) >= 0 {
        assert before[..LastMain(p, before)] == events[..LastMain(p, before)];
      }
    }
  }

  lemma {:induction false} LastPanelIsLast(p: Profile, events: seq<Event>, j: nat)
    ensures PublishesPanel(p, events, j) ==> j <= LastPanel(p, events)
    ensures LastPanel(p, events) >= 0 ==> PublishesPanel(p, events, LastPanel(p, events))
  {
    if events != [] {
      var before := events[..|events| - 1];
      LastPanelIsLast(p, before, j);
      if j < |before| {
        assert before[..j] == events[..j];
      }
      if LastPanel(p, before) >= 0 {
        assert before[..LastPanel(p, before)] == events[..LastPanel(p, before)];
      }
    }
  }

  predicate SameTimes(s: State, t: State) { t.mainTime == s.mainTime && t.panelTime == s.panelTime }

  lemma ByteTimes(p: Profile, s: State, e: Event)
    requires e.what.PanelByte? || e.what.PanelIdle? || e.what.MainByte? || e.what.MainIdle?
    ensures SameTimes(s, Step(p, s, e))
  {
    if e.what.PanelByte? {
      PanelByteTimes(p, s, e.now, e.what.b);
    } else if e.what.MainByte? {
      MainByteMoves(p, s, e.what.m);
    }
  }

  lemma PanelByteTimes(p: Profile, s: State, now: int, b: Byte)
    ensures SameTimes(s, PanelByteStep(p, s, now, b))
  {
    PanelByteSplits(p, s, now, b);
    if CompletedPanel(s.panelIn, b).Some? {
      JudgeEffect(p, Forwarded(p, s, now, b), CompletedPanel(s.panelIn, b).value);
    }
  }

  lemma PublishPanelTime(s: State, now: int)
    requires FramesKept(s)
    ensures var t := PublishPanelStep(s, now);
      t.mainTime == s.mainTime && t.panelTime == if s.panelUpdate.Some? then now else s.panelTime
  {
  }

  lemma PublishMainTime(s: State, now: int)
    requires FramesKept(s)
    ensures var t := PublishMainStep(s, now);
      t.panelTime == s.panelTime && t.mainTime == if s.mainUpdate.Some? then now else s.mainTime
  {
    if s.mainUpdate.Some? {
      AdoptMainTime(s.(mainUpdate := None), now, s.mainUpdate.value, ParseMain(s.mainUpdate.value).value);
    }
  }

  lemma AdoptMainTime(s: State, now: int, f: seq<Byte>, parsed: MainState)
    ensures var t := AdoptMain(s, now, f, parsed); t.panelTime == s.panelTime && t.mainTime == now
  {
  }

  lemma ControlTimes(p: Profile, s: State, e: Event)
    requires ControlStep(e.what)
    ensures SameTimes(s, Step(p, s, e))
  {
    if e.what.Queue? {
      QueueMoves(p, s, e);
    }
  }

  lemma StepTimes(p: Profile, s: State, e: Event)
    requires FramesKept(s)
    ensures var t := Step(p, s, e);
      && t.mainTime == (if e.what.PublishMain? && s.mainUpdate.Some? then e.now else s.mainTime)
      && t.panelTime == (if e.what.PublishPanel? && s.panelUpdate.Some? then e.now else s.panelTime)
  {
    if ControlStep(e.what) {
      ControlTimes(p, s, e);
    } else if e.what.PublishPanel? {
      PublishPanelTime(s, e.now);
    } else if e.what.PublishMain? {
      PublishMainTime(s, e.now);
    } else {
      ByteTimes(p, s, e);
    }
  }

  lemma {:induction false} TimesRun(p: Profile, events: seq<Event>)
    ensures var s := Run(p, events);
      && s.mainTime == (if LastMain(p, events) >= 0 then events[LastMain(p, events)].now else 0)
      && s.panelTime == (if LastPanel(p, events) >= 0 then events[LastPanel(p, events)].now else 0)
      && (s.report.main.valid <==> LastMain(p, events) >= 0)
      && (s.report.panelValid <==> LastPanel(p, events) >= 0)
  {
    if events != [] {
      var before, e := events[..|events| - 1], events[|events| - 1];
      TimesRun(p, before);
      AlwaysFrames(p, before);
      StepTimes(p, Run(p, before), e);
      StepView(p, Run(p, before), e);
      StepPanelPart(p, Run(p, before), e);
    }
  }

  lemma Milliseconds(d: int)
    ensures d / 1000 <= LINK_FRESH_MS <==> d < 1_001_000
  {
  }

  lemma MainFreshExactly(p: Profile, events: seq<Event>, now: int)
    requires Legal(p, events)
    ensures var s := Run(p, events);
      s.report.main.valid && Fresh(s.mainTime, now) <==> MainHeard(p, events, now)
  {
    TimesRun(p, events);
    var last := LastMain(p, events);
    LastMainIsLast(p, events, 0);
    if last >= 0 {
      TimesGrow(p, events, last, last);
      Milliseconds(now - events[last].now);
    }
    if MainHeard(p, events, now) {
      var j: nat :| PublishesMain(p, events, j) && now - events[j].now < 1_001_000;
      LastMainIsLast(p, events, j);
      TimesGrow(p, events, j, last);
    }
  }

  lemma PanelFreshExactly(p: Profile, events: seq<Event>, now: int)
    requires Legal(p, events)
    ensures var s := Run(p, events);
      s.report.panelValid && Fresh(s.panelTime, now) <==> PanelHeard(p, events, now)
  {
    TimesRun(p, events);
    var last := LastPanel(p, events);
    LastPanelIsLast(p, events, 0);
    if last >= 0 {
      TimesGrow(p, events, last, last);
      Milliseconds(now - events[last].now);
    }
    if PanelHeard(p, events, now) {
      var j: nat :| PublishesPanel(p, events, j) && now - events[j].now < 1_001_000;
      LastPanelIsLast(p, events, j);
      TimesGrow(p, events, j, last);
    }
  }

  // ----- the reported mode -----

  /** The last main frame published. */
  function PublishedMain(p: Profile, events: seq<Event>): Option<seq<Byte>> {
    if events == [] then None
    else if PublishesMain(p, events, |events| - 1) then Run(p, events[..|events| - 1]).mainUpdate
    else PublishedMain(p, events[..|events| - 1])
  }

  /** The main board last showed Cool. */
  predicate CoolShown(p: Profile, events: seq<Event>) {
    var m := PublishedMain(p, events);
    m.Some? && |m.value| == MAIN_SIZE && m.value[4] & 0xF0 == 0x30
  }

  lemma {:induction false} ReportedMode(p: Profile, events: seq<Event>)
    ensures Run(p, events).report.main.state.mode == Cool <==> CoolShown(p, events)
  {
    if events != [] {
      var before, e := events[..|events| - 1], events[|events| - 1];
      var s := Run(p, before);
      ReportedMode(p, before);
      AlwaysFrames(p, before);
      StepView(p, s, e);
      if PublishesMain(p, events, |events| - 1) {
        CoolBits(s.mainUpdate.value[4]);
      }
    }
  }

  // ----- the queue -----

  lemma AsksExactly(r: Request)
    ensures r.mask == NO_BITS <==> !Asks(r)
    ensures InRange(r) <==> Meaningful(r)
  {
  }

  /** What the queue looks at beside the request itself. */
  ghost predicate MayControl(p: Profile, events: seq<Event>, now: int, r: Request) {
    && MainHeard(p, events, now) && PanelHeard(p, events, now)
    && (r.mask.setpoint ==> if r.mask.mode then r.mode == Cool else CoolShown(p, events))
  }

  lemma MayControlExactly(p: Profile, events: seq<Event>, now: int, r: Request)
    requires Legal(p, events)
    ensures LinksFresh(Run(p, events), now) && SetpointAllowed(Run(p, events), r) <==> MayControl(p, events, now, r)
  {
    MainFreshExactly(p, events, now);
    PanelFreshExactly(p, events, now);
    ReportedMode(p, events);
  }

  /**
    Over legal runs, which answer a request gets: accepted exactly if the profile
    can control and the interlock was read as released, something is asked for,
    with values the appliance knows and without the timer, both boards were heard
    within the last 1000 ms, and a setpoint is asked for with Cool or while the
    main board shows it. Each refusal has its own reason.
  */
  lemma AnsweredExactly(p: Profile, events: seq<Event>, now: int, ready: bool, r: Request)
    requires Legal(p, events)
    ensures var answer, able := QueueAnswer(p, Run(p, events), now, ready, r), p.controlVerified && ready;
      && (answer == InvalidArgument <==> !Asks(r) || (able && !Meaningful(r)))
      && (answer == NotSupported <==> Asks(r) && (!able || (Meaningful(r) && r.mask.timer)))
      && (answer == InvalidState <==>
            able && Asks(r) && Meaningful(r) && !r.mask.timer && !MayControl(p, events, now, r))
      && (answer.Queued? <==>
            able && Asks(r) && Meaningful(r) && !r.mask.timer && MayControl(p, events, now, r))
      && (answer.Queued? <==> Accepted(p, Run(p, events), At(now, Queue(ready, r))))
  {
    AsksExactly(r);
    MayControlExactly(p, events, now, r);
  }

  /**
    An accepted request is numbered with the count of accepted commands, becomes
    pending and joins the history in force; a refused one changes nothing.
  */
  lemma AnswerTakesEffect(p: Profile, events: seq<Event>, e: Event)
    requires e.what.Queue? && AcceptedCount(p, events) + 1 < SEQUENCE_MODULUS
    ensures var s, t := Run(p, events), Step(p, Run(p, events), e);
      var answer := QueueAnswer(p, s, e.now, e.what.ready, e.what.request);
      if answer.Queued? then
        && answer.sequence == AcceptedCount(p, events) + 1 && t.report.commandSequence == answer.sequence
        && t.overlay.active && t.overlay.eventPending && t.overlay.queuedAt == e.now && t.report.status == Pending
        && t.overlay.request == Folded(SinceInactive(p, events) + [e.what.request])
      else t == s
  {
    var s := Run(p, events);
    SequenceCounts(p, events);
    RequestFitsHistory(p, events);
    FoldedSnoc(SinceInactive(p, events), e.what.request);
    if Accepted(p, s, e) {
      EnqueuedFields(p, s, e.now, e.what.request);
    }
  }

  lemma EnqueuedFields(p: Profile, s: State, now: int, r: Request)
    ensures var t := Enqueued(p, s, now, r);
      && t.overlay.sequence == t.report.commandSequence == NextSequence(s.overlay.sequence)
      && t.overlay.active && t.overlay.eventPending && t.overlay.queuedAt == now && t.report.status == Pending
      && t.overlay.request == Merge(if s.overlay.active then s.overlay.request else EMPTY_REQUEST, r)
  {
  }
}
