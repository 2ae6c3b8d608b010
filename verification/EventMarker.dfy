/**
  The event marker of an accepted command on the UART-regenerated route: when a
  replacement frame carries it to the main board, and when it is lost.
*/
module EventMarker {
  import opened Wire
  import opened Protocol
  import opened Commands
  import opened Framing
  import opened Bridge
  import opened BridgeRuns
  import opened BridgeForwarding
  import opened Replacement

  /** The receiver takes this byte for the first of a frame. */
  predicate Starts(s: State, e: Event) { e.what.PanelByte? && Consume(s.panelIn, e.what.b).index == Some(0) }

  /** The receiver completes a valid panel frame with this byte. */
  predicate Completes(s: State, e: Event) { e.what.PanelByte? && CompletedPanel(s.panelIn, e.what.b).Some? }

  // ----- one step -----

  /** A pending command has all it takes to replace the next frame. */
  predicate ReadyWhenActive(s: State) {
    s.overlay.active ==> s.overlay.takeoverReady && s.report.panelValid && InRange(s.overlay.request)
  }

  lemma PanelByteStaysValid(p: Profile, s: State, now: int, b: Byte)
    ensures PanelByteStep(p, s, now, b).report.panelValid == s.report.panelValid
  {
    PanelByteSplits(p, s, now, b);
    if CompletedPanel(s.panelIn, b).Some? {
      JudgeEffect(p, Forwarded(p, s, now, b), CompletedPanel(s.panelIn, b).value);
    }
  }

  lemma PublishStaysValid(s: State, now: int)
    requires s.report.panelValid
    ensures PublishPanelStep(s, now).report.panelValid && PublishMainStep(s, now).report.panelValid
  {
    PublishMainEffect(s, now);
  }

  lemma ControlStaysValid(s: State, now: int, ok: bool)
    requires s.report.panelValid
    ensures FinishTakeoverStep(s, ok).report.panelValid && WatchdogStep(s, now).report.panelValid
  {
  }

  lemma SetReadyStaysValid(p: Profile, s: State, on: bool)
    requires s.report.panelValid
    ensures SetReadyStep(p, s, on).report.panelValid
  {
  }

  lemma QueueStaysValid(p: Profile, s: State, now: int, ready: bool, r: Request)
    requires s.report.panelValid
    ensures QueueStep(p, s, now, ready, r).report.panelValid
  {
  }

  lemma PanelStaysValid(p: Profile, s: State, e: Event)
    requires s.report.panelValid
    ensures Step(p, s, e).report.panelValid
  {
    match e.what {
      case PanelByte(b) => PanelByteStaysValid(p, s, e.now, b);
      case PublishPanel => PublishStaysValid(s, e.now);
      case MainByte(b) => MainByteMoves(p, s, b);
      case PublishMain => PublishStaysValid(s, e.now);
      case Queue(ready, r) => QueueStaysValid(p, s, e.now, ready, r);
      case FinishTakeover(ok) => ControlStaysValid(s, e.now, ok);
      case Watchdog => ControlStaysValid(s, e.now, false);
      case SetReady(on) => SetReadyStaysValid(p, s, on);
      case _ =>
    }
  }

  lemma {:induction false} AlwaysReady(p: Profile, events: seq<Event>)
    requires Regenerates(p)
    ensures ReadyWhenActive(Run(p, events))
  {
    if events != [] {
      var before, e := events[..|events| - 1], events[|events| - 1];
      AlwaysReady(p, before);
      AlwaysAgreed(p, before);
      TakeoverStaysReady(p, Run(p, before), e);
      RequestFitsHistory(p, events);
      if Run(p, events).overlay.active {
        FoldedIsAdmissible(SinceInactive(p, events));
      }
    }
  }

  lemma TakeoverStaysReady(p: Profile, s: State, e: Event)
    requires Regenerates(p) && Agreed(s) && ReadyWhenActive(s)
    ensures var t := Step(p, s, e); t.overlay.active ==> t.overlay.takeoverReady && t.report.panelValid
  {
    StepMoves(p, s, e);
    if s.report.panelValid {
      PanelStaysValid(p, s, e);
    }
  }

  /** Only a frame start adds a replacement, and its marker says whether the event is still pending. */
  lemma MarkerWritten(p: Profile, s: State, e: Event)
    requires Regenerates(p) && FramesKept(s) && ReadyWhenActive(s)
    ensures EventBursts(Step(p, s, e).toMain)
            == EventBursts(s.toMain) + if Starts(s, e) && s.overlay.active && s.overlay.eventPending then 1 else 0
  {
    if e.what.PanelByte? {
      JudgedOutgoing(p, s, e.now, e.what.b);
      ByteMarker(p, s, e.now, e.what.b);
    } else if e.what != PanelIdle {
      StepKeepsToMain(p, s, e);
    }
  }

  lemma ByteMarker(p: Profile, s: State, now: int, b: Byte)
    requires Regenerates(p) && FramesKept(s) && ReadyWhenActive(s)
    ensures EventBursts(Forwarded(p, s, now, b).toMain)
            == EventBursts(s.toMain)
               + if Consume(s.panelIn, b).index == Some(0) && s.overlay.active && s.overlay.eventPending then 1 else 0
  {
    PreparedIsFrame(s);
    ByteForwarded(p, s, now, b);
    EventBurstsSnoc(s.toMain, [b]);
    if Prepared(s).Some? {
      EventBurstsSnoc(s.toMain, Prepared(s).value);
    }
    LaterWrite(p, s, now, b);
  }

  /** Past its first byte a frame adds single bytes only. */
  lemma LaterWrite(p: Profile, s: State, now: int, b: Byte)
    ensures var t, index := Forwarded(p, s, now, b), Consume(s.panelIn, b).index;
      index.Some? && index.value > 0 ==> EventBursts(t.toMain) == EventBursts(s.toMain)
  {
    EventBurstsSnoc(s.toMain, [b]);
    var index := Consume(s.panelIn, b).index;
    if index.Some? && s.prepared.Some? && index.value < |s.prepared.value| {
      EventBurstsSnoc(s.toMain, [s.prepared.value[index.value]]);
    }
  }

  lemma PublishKeepsMarker(p: Profile, s: State, now: int)
    ensures var t := PublishMainStep(s, now); t.overlay.active ==> t.overlay == s.overlay
  {
  }

  lemma TimedKeepsMarker(p: Profile, s: State, now: int, ok: bool)
    ensures var t := FinishTakeoverStep(s, ok);
      t.overlay.active ==> s.overlay.active && t.overlay.eventPending == s.overlay.eventPending
    ensures WatchdogStep(s, now).overlay.active ==> WatchdogStep(s, now).overlay == s.overlay
    ensures SetReadyStep(p, s, ok).overlay.active ==> SetReadyStep(p, s, ok).overlay == s.overlay
  {
  }

  /** While a command stays pending, only the completion of a panel frame spends its marker. */
  lemma MarkerKept(p: Profile, s: State, e: Event)
    requires !p.loopControl && !Accepted(p, s, e)
    ensures var t := Step(p, s, e);
      t.overlay.active ==>
        s.overlay.active && (t.overlay.eventPending <==> s.overlay.eventPending && !Completes(s, e))
  {
    match e.what {
      case PanelByte(b) => CompletionSpends(p, s, e.now, b);
      case MainByte(b) => MainByteMoves(p, s, b);
      case PublishPanel => PublishPanelMoves(p, s, e.now);
      case PublishMain => PublishKeepsMarker(p, s, e.now);
      case FinishTakeover(ok) => TimedKeepsMarker(p, s, e.now, ok);
      case Watchdog => TimedKeepsMarker(p, s, e.now, false);
      case SetReady(on) => TimedKeepsMarker(p, s, e.now, on);
      case _ =>
    }
  }

  lemma CompletionSpends(p: Profile, s: State, now: int, b: Byte)
    requires !p.loopControl
    ensures var t := PanelByteStep(p, s, now, b);
      t.overlay.active ==>
        s.overlay.active
        && (t.overlay.eventPending <==> s.overlay.eventPending && CompletedPanel(s.panelIn, b).None?)
  {
    PanelByteSplits(p, s, now, b);
    if CompletedPanel(s.panelIn, b).Some? {
      var u, f := Forwarded(p, s, now, b), CompletedPanel(s.panelIn, b).value;
      JudgedMarker(p, u, f);
      JudgedActive(p, u, f);
    }
  }

  lemma JudgedActive(p: Profile, s: State, f: seq<Byte>)
    requires |f| == PANEL_SIZE
    ensures JudgePanelFrame(p, s, f).overlay.active ==> s.overlay.active
  {
  }

  // ----- runs -----

  function Before(p: Profile, events: seq<Event>, n: nat): State
    requires n <= |events|
  {
    Run(p, events[..n])
  }

  lemma RunNext(p: Profile, events: seq<Event>, n: nat)
    requires n < |events|
    ensures Before(p, events, n + 1) == Step(p, Before(p, events, n), events[n])
  {
    assert events[..n + 1][..n] == events[..n];
  }

  /** Command i is accepted and no other one is before step m. */
  predicate LastAcceptedAt(p: Profile, events: seq<Event>, i: nat, m: nat) {
    && i < m <= |events|
    && Accepted(p, Before(p, events, i), events[i])
    && forall n :: i < n < m ==> !Accepted(p, Before(p, events, n), events[n])
  }

  /** For every step, whether it completes a valid panel frame. */
  function Completions(p: Profile, events: seq<Event>): (completed: seq<bool>)
    ensures |completed| == |events|
    ensures forall n :: 0 <= n < |events| ==> completed[n] == Completes(Before(p, events, n), events[n])
  {
    seq(|events|, n requires 0 <= n < |events| => Completes(Before(p, events, n), events[n]))
  }

  /** No panel frame is completed after step i and before step m. */
  predicate NoneCompleted(p: Profile, events: seq<Event>, i: nat, m: nat)
    requires i < m <= |events|
  {
    true !in Completions(p, events)[i + 1..m]
  }

  /** What one step makes of a pending command and its marker. */
  datatype Due = Due(active: bool, pending: bool)

  predicate Keeps(a: Due, completed: bool, b: Due) {
    b.active ==> a.active && (b.pending <==> a.pending && !completed)
  }

  lemma {:induction false} DueLasts(dues: seq<Due>, completed: seq<bool>, i: nat, m: nat)
    requires i < m <= |completed| && |dues| == |completed| + 1 && dues[i + 1] == Due(true, true)
    requires forall n :: i < n < m ==> Keeps(dues[n], completed[n], dues[n + 1])
    ensures dues[m].active ==> (dues[m].pending <==> true !in completed[i + 1..m])
    decreases m
  {
    if m > i + 1 {
      DueLasts(dues, completed, i, m - 1);
      assert Keeps(dues[m - 1], completed[m - 1], dues[m]);
      assert completed[i + 1..m] == completed[i + 1..m - 1] + [completed[m - 1]];
    }
  }

  function DueIn(s: State): Due { Due(s.overlay.active, s.overlay.eventPending) }

  lemma StepKeepsDue(p: Profile, events: seq<Event>, n: nat)
    requires !p.loopControl && n < |events| && !Accepted(p, Before(p, events, n), events[n])
    ensures Keeps(DueIn(Before(p, events, n)), Completes(Before(p, events, n), events[n]),
                  DueIn(Before(p, events, n + 1)))
  {
    RunNext(p, events, n);
    MarkerKept(p, Before(p, events, n), events[n]);
  }

  lemma AcceptedIsDue(p: Profile, events: seq<Event>, i: nat)
    requires i < |events| && Accepted(p, Before(p, events, i), events[i])
    ensures DueIn(Before(p, events, i + 1)) == Due(true, true)
  {
    RunNext(p, events, i);
    AcceptedIsPending(p, Before(p, events, i), events[i]);
  }

  function Dues(p: Profile, events: seq<Event>): (dues: seq<Due>)
    ensures |dues| == |events| + 1
    ensures forall n :: 0 <= n <= |events| ==> dues[n] == DueIn(Before(p, events, n))
  {
    seq(|events| + 1, n requires 0 <= n <= |events| => DueIn(Before(p, events, n)))
  }

  lemma DuesKeep(p: Profile, events: seq<Event>, i: nat, m: nat)
    requires !p.loopControl && LastAcceptedAt(p, events, i, m)
    ensures Dues(p, events)[i + 1] == Due(true, true)
    ensures forall n :: i < n < m ==>
      Keeps(Dues(p, events)[n], Completions(p, events)[n], Dues(p, events)[n + 1])
  {
    AcceptedIsDue(p, events, i);
    forall n: nat | i < n < m
      ensures Keeps(Dues(p, events)[n], Completions(p, events)[n], Dues(p, events)[n + 1])
    {
      StepKeepsDue(p, events, n);
    }
  }

  /** The marker of a command still pending is due exactly as long as no panel frame has been completed. */
  lemma MarkerDue(p: Profile, events: seq<Event>, i: nat, m: nat)
    requires !p.loopControl && LastAcceptedAt(p, events, i, m)
    ensures var s := Before(p, events, m);
      s.overlay.active ==> (s.overlay.eventPending <==> NoneCompleted(p, events, i, m))
  {
    DuesKeep(p, events, i, m);
    DueLasts(Dues(p, events), Completions(p, events), i, m);
    assert Dues(p, events)[m] == DueIn(Before(p, events, m));
  }

  lemma AcceptedIsPending(p: Profile, s: State, e: Event)
    requires Accepted(p, s, e)
    ensures Step(p, s, e).overlay.active && Step(p, s, e).overlay.eventPending
  {
  }

  /**
    A frame start after an accepted command writes a replacement that carries
    the event marker exactly when the command is still pending and no panel
    frame was completed since it was accepted; otherwise it writes none.
  */
  lemma MarkerSentExactly(p: Profile, events: seq<Event>, i: nat, m: nat)
    requires Regenerates(p) && LastAcceptedAt(p, events, i, m) && m < |events|
    requires Starts(Before(p, events, m), events[m])
    ensures var s := Before(p, events, m);
      EventBursts(Before(p, events, m + 1).toMain)
      == EventBursts(s.toMain) + if s.overlay.active && NoneCompleted(p, events, i, m) then 1 else 0
  {
    AlwaysFrames(p, events[..m]);
    AlwaysReady(p, events[..m]);
    RunNext(p, events, m);
    MarkerDue(p, events, i, m);
    MarkerWritten(p, Before(p, events, m), events[m]);
  }

  // ----- on a stream of whole frames -----

  ghost predicate FrameStream(input: seq<Byte>) { exists fs, cur, k :: Input(input, fs, cur, k) }

  lemma StreamBefore(events: seq<Event>)
    requires events != [] && FrameStream(PanelInput(events))
    ensures FrameStream(PanelInput(events[..|events| - 1]))
  {
    var before, what := events[..|events| - 1], events[|events| - 1].what;
    if what.PanelByte? {
      var fs, cur, k: nat :| Input(PanelInput(events), fs, cur, k);
      InputBefore(PanelInput(before), what.b, fs, cur, k);
    }
  }

  lemma {:induction false} StreamOfPrefix(events: seq<Event>, n: nat)
    requires n <= |events| && FrameStream(PanelInput(events)) && FlushesBetween(events)
    ensures FrameStream(PanelInput(events[..n])) && FlushesBetween(events[..n])
    decreases |events|
  {
    if n == |events| {
      assert events[..n] == events;
    } else {
      StreamBefore(events);
      StreamOfPrefix(events[..|events| - 1], n);
      assert events[..|events| - 1][..n] == events[..n];
    }
  }

  lemma FrameByte(s: State, e: Event, f: seq<Byte>, j: nat)
    requires PanelFrame(f) && j < PANEL_SIZE && e.what.PanelByte? && e.what.b == f[j]
    requires s.panelIn == Partial(f, j, s.panelIn.synchronized)
    ensures (Starts(s, e) <==> j == 0) && (Completes(s, e) <==> j == PANEL_SIZE - 1)
  {
    FrameStep(f, j, s.panelIn.synchronized);
  }

  /** The frame the last byte of a stream belongs to, and its place in it. */
  lemma LastFrame(events: seq<Event>) returns (hs: seq<seq<Byte>>, f: seq<Byte>, j: nat)
    requires events != [] && events[|events| - 1].what.PanelByte? && FrameStream(PanelInput(events))
    ensures Input(PanelInput(events[..|events| - 1]), hs, f, j) && events[|events| - 1].what.b == f[j]
    ensures Position(events[..|events| - 1]) == j && Position(events) == if j == PANEL_SIZE - 1 then 0 else j + 1
  {
    var before, what := events[..|events| - 1], events[|events| - 1].what;
    var fs, cur, k: nat :| Input(PanelInput(events), fs, cur, k);
    InputPosition(PanelInput(events), fs, cur, k);
    InputBefore(PanelInput(before), what.b, fs, cur, k);
    if k > 0 {
      hs, f, j := fs, cur, k - 1;
    } else {
      hs, f, j := fs[..|fs| - 1], fs[|fs| - 1], PANEL_SIZE - 1;
    }
    InputPosition(PanelInput(before), hs, f, j);
  }

  /** A byte of the stream starts or completes a frame where the stream says so. */
  lemma LastByteInStream(p: Profile, events: seq<Event>, s: State, e: Event, k: nat)
    requires events != [] && e == events[|events| - 1] && e.what.PanelByte?
    requires s == Run(p, events[..|events| - 1]) && k == Position(events[..|events| - 1])
    requires FlushesBetween(events) && FrameStream(PanelInput(events))
    ensures (Starts(s, e) <==> k == 0) && (Completes(s, e) <==> k == PANEL_SIZE - 1)
    ensures Position(events) == if k == PANEL_SIZE - 1 then 0 else k + 1
  {
    var hs, f, j := LastFrame(events);
    AlignedRun(p, events[..|events| - 1], hs, f, j);
    FrameByte(s, e, f, j);
  }

  function Positions(events: seq<Event>): (positions: seq<nat>)
    ensures |positions| == |events| + 1
    ensures forall n :: 0 <= n <= |events| ==> positions[n] == Position(events[..n]) < PANEL_SIZE
  {
    seq(|events| + 1, n requires 0 <= n <= |events| => Position(events[..n]))
  }

  /** No byte arrives, or one inside a frame does and completes it if it is the last. */
  predicate Advances(a: nat, completed: bool, b: nat) {
    (b == a && !completed) || (a != 0 && completed == (a == PANEL_SIZE - 1) && b == if completed then 0 else a + 1)
  }

  lemma ByteMovesPosition(p: Profile, events: seq<Event>, n: nat, s: State, k: nat)
    requires n < |events| && FlushesBetween(events) && FrameStream(PanelInput(events))
    requires s == Before(p, events, n) && k == Position(events[..n]) && events[n].what.PanelByte?
    ensures (Starts(s, events[n]) <==> k == 0) && (Completes(s, events[n]) <==> k == PANEL_SIZE - 1)
    ensures Position(events[..n + 1]) == if k == PANEL_SIZE - 1 then 0 else k + 1
  {
    StreamOfPrefix(events, n + 1);
    PrefixOfPrefix(events, n);
    LastByteInStream(p, events[..n + 1], s, events[n], k);
  }

  lemma OtherKeepsPosition(events: seq<Event>, n: nat)
    requires n < |events| && !events[n].what.PanelByte?
    ensures Position(events[..n + 1]) == Position(events[..n])
  {
    PrefixOfPrefix(events, n);
  }

  lemma StepMovesPosition(p: Profile, events: seq<Event>, n: nat)
    requires n < |events| && FlushesBetween(events) && FrameStream(PanelInput(events))
    requires events[n].what.PanelByte? ==> Position(events[..n]) != 0
    ensures Advances(Position(events[..n]), Completes(Before(p, events, n), events[n]), Position(events[..n + 1]))
  {
    if events[n].what.PanelByte? {
      ByteMovesPosition(p, events, n, Before(p, events, n), Position(events[..n]));
    } else {
      OtherKeepsPosition(events, n);
    }
  }

  lemma {:induction false} BoundaryStays(positions: seq<nat>, completed: seq<bool>, i: nat, m: nat)
    requires i < m <= |completed| && |positions| == |completed| + 1 && positions[i + 1] == 0
    requires forall n :: i < n < m ==> Advances(positions[n], completed[n], positions[n + 1])
    ensures positions[m] == 0 && true !in completed[i + 1..m]
    decreases m
  {
    if m > i + 1 {
      BoundaryStays(positions, completed, i, m - 1);
      assert Advances(positions[m - 1], completed[m - 1], positions[m]);
      assert completed[i + 1..m] == completed[i + 1..m - 1] + [completed[m - 1]];
    }
  }

  lemma {:induction false} PositionClimbs(positions: seq<nat>, completed: seq<bool>, i: nat, m: nat)
    requires i < m <= |completed| && |positions| == |completed| + 1 && true !in completed[i + 1..m]
    requires forall n :: i < n < m ==> Advances(positions[n], completed[n], positions[n + 1])
    ensures positions[m] >= positions[i + 1]
    decreases m
  {
    if m > i + 1 {
      assert completed[i + 1..m] == completed[i + 1..m - 1] + [completed[m - 1]];
      PositionClimbs(positions, completed, i, m - 1);
      assert Advances(positions[m - 1], completed[m - 1], positions[m]);
    }
  }

  lemma NoneCompletedExactly(positions: seq<nat>, completed: seq<bool>, i: nat, m: nat)
    requires i < m <= |completed| && |positions| == |completed| + 1
    requires forall n :: i < n < m ==> Advances(positions[n], completed[n], positions[n + 1])
    requires positions[m] == 0
    ensures true !in completed[i + 1..m] <==> positions[i + 1] == 0
  {
    if positions[i + 1] == 0 {
      BoundaryStays(positions, completed, i, m);
    } else if true !in completed[i + 1..m] {
      PositionClimbs(positions, completed, i, m);
    }
  }

  /** Step m is the first after step i that brings the first byte of a panel frame. */
  predicate NextFrameAt(events: seq<Event>, i: nat, m: nat) {
    && i < m < |events| && events[m].what.PanelByte? && Position(events[..m]) == 0
    && forall n :: i < n < m && events[n].what.PanelByte? ==> Position(events[..n]) != 0
  }

  /**
    On a stream of valid panel frames the next frame after an accepted command
    carries its event marker to the main board exactly when the command was
    queued between two frames and is still pending as the next one begins. A
    command queued inside a frame loses its marker to that frame, replaced or not.
  */
  lemma MarkerSentFromBetweenFrames(p: Profile, events: seq<Event>, i: nat, m: nat)
    requires Regenerates(p) && FlushesBetween(events) && FrameStream(PanelInput(events))
    requires LastAcceptedAt(p, events, i, m) && NextFrameAt(events, i, m)
    ensures var s := Before(p, events, m);
      EventBursts(Before(p, events, m + 1).toMain)
      == EventBursts(s.toMain) + if s.overlay.active && Position(events[..i]) == 0 then 1 else 0
  {
    NextFrameStarts(p, events, i, m);
    CompletedSince(p, events, i, m);
    MarkerSentExactly(p, events, i, m);
  }

  lemma NextFrameStarts(p: Profile, events: seq<Event>, i: nat, m: nat)
    requires FlushesBetween(events) && FrameStream(PanelInput(events)) && NextFrameAt(events, i, m)
    ensures Starts(Before(p, events, m), events[m])
  {
    ByteMovesPosition(p, events, m, Before(p, events, m), 0);
  }

  lemma CompletedSince(p: Profile, events: seq<Event>, i: nat, m: nat)
    requires FlushesBetween(events) && FrameStream(PanelInput(events))
    requires LastAcceptedAt(p, events, i, m) && NextFrameAt(events, i, m)
    ensures NoneCompleted(p, events, i, m) <==> Position(events[..i]) == 0
  {
    var positions, completed := Positions(events), Completions(p, events);
    forall n: nat | i < n < m
      ensures Advances(positions[n], completed[n], positions[n + 1])
    {
      StepMovesPosition(p, events, n);
    }
    OtherKeepsPosition(events, i);
    NoneCompletedExactly(positions, completed, i, m);
  }
}
