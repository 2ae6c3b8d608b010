/**
  The hardware interlock, and what follows the end of a command, over whole
  runs: nothing of an ended command reaches either wire any more.
*/
module Interlock {
  import opened Wire
  import opened Protocol
  import opened Bridge
  import opened BridgeRuns
  import opened BridgeForwarding
  import opened Replacement
  import opened Route

  // ----- after the end of a command -----

  /** No command is accepted from step n on. */
  predicate NoneAccepted(p: Profile, events: seq<Event>, n: nat) {
    forall i :: n <= i < |events| ==> !Accepted(p, Run(p, events[..i]), events[i])
  }

  lemma {:induction false} InactiveStays(p: Profile, events: seq<Event>, n: nat, k: nat)
    requires n <= k <= |events| && NoneAccepted(p, events, n) && !Run(p, events[..n]).overlay.active
    ensures !Run(p, events[..k]).overlay.active
  {
    if n < k {
      InactiveStays(p, events, n, k - 1);
      assert events[..k][..k - 1] == events[..k - 1];
      AlwaysAgreed(p, events[..k - 1]);
      CarriedRequest(p, Run(p, events[..k - 1]), events[k - 1]);
    }
  }

  ghost predicate NonePending(p: Profile, events: seq<Event>, n: nat) {
    forall k :: n <= k <= |events| ==> !Run(p, events[..k]).overlay.active
  }

  /** The j-th write, made by step k, is the panel byte of that step. */
  predicate WritesByte(p: Profile, events: seq<Event>, k: nat, j: nat)
    requires k < |events|
  {
    j < |Run(p, events).toMain| && events[k].what.PanelByte? && Run(p, events).toMain[j] == [events[k].what.b]
  }

  /** From step n on the main board is written nothing but the panel bytes as they arrive. */
  ghost predicate WritesPlainly(p: Profile, events: seq<Event>, n: nat) {
    forall k: nat, j: nat :: n <= k < |events| && Writes(p, events, k, j) ==> WritesByte(p, events, k, j)
  }

  predicate ShownAsReceived(p: Profile, events: seq<Event>, i: nat) {
    i < |MainFrames(p, events)| && i < |Run(p, events).toPanel| && Run(p, events).toPanel[i] == MainFrames(p, events)[i]
  }

  /** From step n on the panel is shown the main frames as they are. */
  ghost predicate ShowsPlainly(p: Profile, events: seq<Event>, n: nat)
    requires n <= |events|
  {
    forall i: nat :: |MainFrames(p, events[..n])| <= i < |Run(p, events).toPanel| ==> ShownAsReceived(p, events, i)
  }

  /** With no command pending every write is the byte just received. */
  lemma PlainWrite(p: Profile, events: seq<Event>, k: nat, j: nat)
    requires Writes(p, events, k, j) && !Run(p, events[..k]).overlay.active
    ensures WritesByte(p, events, k, j)
  {
    var before, upTo := events[..k], events[..k + 1];
    assert upTo[..k] == before;
    WritesStay(p, events, k + 1);
    WrittenExactly(p, before, events[k]);
    RequestFitsHistory(p, before);
    if events[k].what.PanelByte? {
      DueExactly(p, before, events[k].what.b);
    }
  }

  lemma {:induction false} MainFramesStay(p: Profile, events: seq<Event>, n: nat)
    requires n <= |events|
    ensures MainFrames(p, events[..n]) <= MainFrames(p, events)
  {
    if n == |events| {
      assert events[..n] == events;
    } else {
      var before := events[..|events| - 1];
      MainFramesStay(p, before, n);
      assert before[..n] == events[..n];
    }
  }

  /** With no command pending as it is completed, a main frame is shown as it is. */
  lemma PlainFrame(p: Profile, events: seq<Event>, n: nat, i: nat)
    requires n <= |events| && |MainFrames(p, events[..n])| <= i < |Run(p, events).toPanel|
    requires NonePending(p, events, n)
    ensures ShownAsReceived(p, events, i)
  {
    var k := ShownIsTheCommand(p, events, i);
    if k < n {
      assert events[..n][..k + 1] == events[..k + 1];
      MainFramesStay(p, events[..n], k + 1);
      assert events[..k + 1][..k] == events[..k];
    }
  }

  /**
    From the end of a command to the next one accepted, none is pending, the main
    board is written nothing but panel bytes as they arrive, and the panel is
    shown the main frames as they are.
  */
  lemma UntilNextCommand(p: Profile, events: seq<Event>, n: nat)
    requires n <= |events| && NoneAccepted(p, events, n) && !Run(p, events[..n]).overlay.active
    ensures NonePending(p, events, n) && WritesPlainly(p, events, n) && ShowsPlainly(p, events, n)
  {
    AllInactive(p, events, n);
    forall k: nat, j: nat | n <= k < |events| && Writes(p, events, k, j)
      ensures WritesByte(p, events, k, j)
    {
      PlainWrite(p, events, k, j);
    }
    forall i: nat | |MainFrames(p, events[..n])| <= i < |Run(p, events).toPanel|
      ensures ShownAsReceived(p, events, i)
    {
      PlainFrame(p, events, n, i);
    }
  }

  lemma AllInactive(p: Profile, events: seq<Event>, n: nat)
    requires n <= |events| && NoneAccepted(p, events, n) && !Run(p, events[..n]).overlay.active
    ensures NonePending(p, events, n)
  {
    forall k: nat | n <= k <= |events|
      ensures !Run(p, events[..k]).overlay.active
    {
      InactiveStays(p, events, n, k);
    }
  }

  // ----- the interlock -----

  lemma ReadyStep(p: Profile, s: State, on: bool)
    ensures var t := SetReadyStep(p, s, on);
      && t.ready == on && t.report.mitmActive == (p.controlVerified && on)
      && (if on then t.overlay == s.overlay && t.mirror == s.mirror && SameCommand(s.report, t.report)
          else
            !t.overlay.active && t.mirror
            && t.report.status == (if s.overlay.active then Cancelled else s.report.status)
            && (s.overlay.active ==> !t.report.commandPending && !t.report.overrideActive))
  {
  }

  /**
    Losing the interlock at step n ends the command that is pending, as cancelled,
    and gives the line back to the hardware; from then to the next accepted
    command nothing of it reaches either wire.
  */
  lemma InterlockEndsCommand(p: Profile, events: seq<Event>, n: nat)
    requires n < |events| && events[n].what == SetReady(false) && NoneAccepted(p, events, n + 1)
    ensures var s, t := Run(p, events[..n]), Run(p, events[..n + 1]);
      && t.mirror && !t.report.mitmActive && !t.report.commandPending
      && t.report.status == (if s.overlay.active then Cancelled else s.report.status)
    ensures NonePending(p, events, n + 1) && WritesPlainly(p, events, n + 1) && ShowsPlainly(p, events, n + 1)
  {
    InterlockStep(p, events, n);
    UntilNextCommand(p, events, n + 1);
  }

  lemma InterlockStep(p: Profile, events: seq<Event>, n: nat)
    requires n < |events| && events[n].what == SetReady(false)
    ensures var s, t := Run(p, events[..n]), Run(p, events[..n + 1]);
      && t.mirror && !t.report.mitmActive && !t.report.commandPending && !t.overlay.active
      && t.report.status == (if s.overlay.active then Cancelled else s.report.status)
  {
    assert events[..n + 1][..n] == events[..n];
    AlwaysAgreed(p, events[..n]);
    ReadyStep(p, Run(p, events[..n]), false);
  }

  /** The interlock as it was last set. */
  function LastReady(events: seq<Event>): bool {
    if events == [] then false
    else
      match events[|events| - 1].what
      case SetReady(on) => on
      case _ => LastReady(events[..|events| - 1])
  }

  predicate SameReady(s: State, t: State) { t.ready == s.ready && t.report.mitmActive == s.report.mitmActive }

  lemma StreamKeepsReady(p: Profile, s: State, e: Event)
    requires !ControlStep(e.what)
    ensures SameReady(s, Step(p, s, e))
  {
    match e.what {
      case PanelByte(b) =>
        PanelByteSplits(p, s, e.now, b);
        if CompletedPanel(s.panelIn, b).Some? {
          JudgeKeepsReady(p, Forwarded(p, s, e.now, b), CompletedPanel(s.panelIn, b).value);
        }
      case MainByte(b) => MainByteMoves(p, s, b);
      case PublishPanel => PublishKeepsReady(s, e.now);
      case PublishMain => PublishKeepsReady(s, e.now);
      case _ =>
    }
  }

  lemma JudgeKeepsReady(p: Profile, s: State, f: seq<Byte>)
    requires |f| == PANEL_SIZE
    ensures SameReady(s, JudgePanelFrame(p, s, f))
  {
  }

  lemma PublishKeepsReady(s: State, now: int)
    ensures SameReady(s, PublishPanelStep(s, now))
    ensures SameReady(s, PublishMainStep(s, now))
  {
    if s.mainUpdate.Some? && ParseMain(s.mainUpdate.value).Some? {
      AdoptKeepsReady(s.(mainUpdate := None), now, s.mainUpdate.value, ParseMain(s.mainUpdate.value).value);
    }
  }

  lemma AdoptKeepsReady(s: State, now: int, f: seq<Byte>, parsed: MainState)
    ensures SameReady(s, AdoptMain(s, now, f, parsed))
  {
  }

  lemma ControlKeepsReady(p: Profile, s: State, e: Event)
    requires ControlStep(e.what) && !e.what.SetReady?
    ensures SameReady(s, Step(p, s, e))
  {
    if e.what.Queue? {
      QueueMoves(p, s, e);
    }
  }

  /** The report says that control is possible exactly while the interlock is released and the profile can control. */
  lemma {:induction false} ReadyIsReported(p: Profile, events: seq<Event>)
    ensures Run(p, events).ready == LastReady(events)
    ensures Run(p, events).report.mitmActive == (p.controlVerified && LastReady(events))
  {
    if events != [] {
      var s, e := Run(p, events[..|events| - 1]), events[|events| - 1];
      ReadyIsReported(p, events[..|events| - 1]);
      if e.what.SetReady? {
        ReadyStep(p, s, e.what.on);
      } else if ControlStep(e.what) {
        ControlKeepsReady(p, s, e);
      } else {
        StreamKeepsReady(p, s, e);
      }
    }
  }
}
