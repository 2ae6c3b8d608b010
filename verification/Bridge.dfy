/**
  The bridge between panel and main board: forwarding, the command overlay and
  the state report. Five tasks share this state under one lock; every method
  of BridgeService is one of their locked steps (or one received byte), and is
  proved to be the step function of the same name on the abstract state.
*/
module Bridge {
  import opened Wire
  import opened Protocol
  import opened ControlAlgebra
  import opened Commands
  import opened Framing

  const LINK_FRESH_MS := 1000
  const CONFIRM_TIMEOUT_MS := 5000
  const STREAM_TIMEOUT_US := 30000
  const SEQUENCE_MODULUS := 0x1_0000_0000

  /** Build-time switches of a bridge image. */
  datatype Profile = Profile(hwForward: bool, loopControl: bool, controlVerified: bool)

  const BRIDGE := Profile(false, false, false)
  const MITM_NTS := Profile(true, true, true)
  const REGENERATED := Profile(false, false, true)

  datatype Status = NoCommand | Pending | Confirmed | TimedOut | Cancelled

  datatype Overlay = Overlay(active: bool, eventPending: bool, confirmationPending: bool,
                             takeoverPending: bool, takeoverReady: bool,
                             sequence: nat, queuedAt: int, request: Request)

  /** What the main board last reported. */
  datatype MainReport = MainReport(valid: bool, raw: seq<Byte>, state: MainState)

  datatype Report = Report(main: MainReport, panelValid: bool, panelRaw: seq<Byte>, forwardedRaw: seq<Byte>,
                           panelEvent: bool, setpoint: Byte, injectedFrames: nat,
                           overrideActive: bool, commandPending: bool, commandSequence: nat,
                           status: Status, timeouts: nat, mitmActive: bool)

  /** A panel frame between the locked step that judged it and the one that publishes it. */
  datatype PanelUpdate = PanelUpdate(frame: seq<Byte>, forwarded: seq<Byte>, injected: bool)

  datatype State = State(
    report: Report, overlay: Overlay,
    mainTime: int, panelTime: int, lastPanelByte: int,
    ready: bool, mirror: bool, takeoverArmed: bool,
    panelIn: Stream, mainIn: Stream,
    prepared: Option<seq<Byte>>, burst: bool,
    panelUpdate: Option<PanelUpdate>, mainUpdate: Option<seq<Byte>>,
    toMain: seq<seq<Byte>>, toPanel: seq<seq<Byte>>)

  const NO_OVERLAY := Overlay(false, false, false, false, false, 0, 0, EMPTY_REQUEST)
  const NO_MAIN := MainReport(false, [], MainState(false, false, 0, 0, UnknownMode, UnknownFan, 0, 0, 0, 0, 0))
  const NO_FRAME: seq<Byte> := [0, 0, 0, 0, 0, 0, 0, 0, 0, 0, 0, 0, 0, 0, 0]
  const NO_REPORT := Report(NO_MAIN, false, NO_FRAME, NO_FRAME, false, 0, 0, false, false, 0, NoCommand, 0, false)

  const BOOT := State(NO_REPORT, NO_OVERLAY, 0, 0, 0, false, true, false, IDLE, IDLE,
                      None, false, None, None, [], [])

  // ----- ends of a command -----

  /** No command is pending any more; how it ended goes into the status. */
  function Ended(r: Report, status: Status): Report {
    r.(overrideActive := false, commandPending := false, status := status)
  }

  /** Overlay after a confirmation or a timeout: nothing of the request is left to leak into the next one. */
  function Cleared(o: Overlay): Overlay {
    o.(active := false, eventPending := false, confirmationPending := false,
       takeoverPending := false, takeoverReady := false, queuedAt := 0, request := EMPTY_REQUEST)
  }

  /** Overlay after a physical panel action: the event marker and the request stay behind. */
  function Overruled(o: Overlay): Overlay {
    o.(active := false, confirmationPending := false, takeoverPending := false, takeoverReady := false)
  }

  // ----- panel stream -----

  /** At the first byte of a panel frame: the overlay frame to send instead, if one is due. */
  function Prepared(s: State): Option<seq<Byte>> {
    if s.report.panelValid && s.overlay.active && s.overlay.takeoverReady
    then ApplyPanel(s.report.panelRaw, s.overlay.request, s.overlay.eventPending)
    else None
  }

  function ForwardPanelByte(p: Profile, s: State, index: nat, b: Byte): State {
    var t := if index == 0 then s.(prepared := Prepared(s), burst := false) else s;
    if (p.hwForward && t.mirror) || t.burst then t
    else if index == 0 && t.prepared.Some? then
      t.(toMain := t.toMain + [t.prepared.value], burst := true, prepared := None)
    else if t.prepared.Some? && index < |t.prepared.value| && index < PANEL_SIZE then
      t.(toMain := t.toMain + [[t.prepared.value[index]]])
    else
      t.(toMain := t.toMain + [[b]])
  }

  /** Does this complete panel frame show a user action that overrules the pending command? */
  predicate Overrules(p: Profile, s: State, f: seq<Byte>)
    requires |f| == PANEL_SIZE
  {
    var parsed := ParsePanel(f);
    && s.overlay.active
    && parsed.Some? && parsed.value.event
    && s.report.panelValid && |s.report.panelRaw| == PANEL_SIZE && f[4..14] != s.report.panelRaw[4..14]
    && !(p.loopControl && EchoMatches(parsed.value, s.overlay.request))
  }

  function OverruleStep(p: Profile, s: State, f: seq<Byte>): State
    requires |f| == PANEL_SIZE
  {
    if !Overrules(p, s, f) then s
    else s.(overlay := Overruled(s.overlay), report := Ended(s.report, Cancelled), mirror := true)
  }

  /** The frame is passed on for publication, rewritten when a command owns it; the event marker is spent. */
  function SpendMarkerStep(p: Profile, s: State, f: seq<Byte>): State {
    var o := s.overlay;
    var rewritten := if o.active && o.takeoverReady then ApplyPanel(f, o.request, o.eventPending) else None;
    s.(overlay := o.(eventPending := o.eventPending && !(o.active && !p.loopControl)),
       panelUpdate := Some(match rewritten
                           case Some(g) => PanelUpdate(f, g, true)
                           case None => PanelUpdate(f, f, false)))
  }

  function JudgePanelFrame(p: Profile, s: State, f: seq<Byte>): State
    requires |f| == PANEL_SIZE
  {
    SpendMarkerStep(p, OverruleStep(p, s, f), f)
  }

  function PanelArrival(p: Profile, s: State, frame: Option<seq<Byte>>): State {
    if frame.Some? && ChecksumValid(frame.value) && |frame.value| == PANEL_SIZE then JudgePanelFrame(p, s, frame.value)
    else s
  }

  function PanelByteStep(p: Profile, s: State, now: int, b: Byte): State {
    var r := Consume(s.panelIn, b);
    var t := s.(panelIn := r.next, lastPanelByte := now);
    var u := match r.index
             case Some(i) => ForwardPanelByte(p, t, i, b)
             case None => t.(toMain := t.toMain + [[b]]);
    PanelArrival(p, u, r.frame)
  }

  function AdoptPanel(s: State, now: int, u: PanelUpdate, parsed: PanelState): State {
    s.(report := s.report.(panelRaw := u.frame, forwardedRaw := u.forwarded, panelValid := true,
                           panelEvent := parsed.event, setpoint := parsed.setpoint,
                           injectedFrames := s.report.injectedFrames + (if u.injected then 1 else 0)),
       panelTime := now)
  }

  function PublishPanelStep(s: State, now: int): State {
    if s.panelUpdate.None? then s else
    match ParsePanel(s.panelUpdate.value.frame)
    case None => s.(panelUpdate := None)
    case Some(parsed) => AdoptPanel(s.(panelUpdate := None), now, s.panelUpdate.value, parsed)
  }

  // ----- main stream -----

  /** What the panel is shown instead of a main frame. */
  function ShownToPanel(p: Profile, s: State, f: seq<Byte>): seq<Byte> {
    if p.loopControl && s.overlay.active then
      match ApplyMain(f, s.overlay.request, s.overlay.eventPending)
      case Some(g) => g
      case None => f
    else f
  }

  function MainFrameStep(p: Profile, s: State, f: seq<Byte>): State {
    s.(toPanel := s.toPanel + [ShownToPanel(p, s, f)], mainUpdate := Some(f))
  }

  function MainArrival(p: Profile, s: State, frame: Option<seq<Byte>>): State {
    if frame.Some? && ChecksumValid(frame.value) && |frame.value| == MAIN_SIZE then MainFrameStep(p, s, frame.value)
    else s
  }

  function MainByteStep(p: Profile, s: State, b: Byte): State {
    var r := Consume(s.mainIn, b);
    MainArrival(p, s.(mainIn := r.next), r.frame)
  }

  function Reported(r: Report, f: seq<Byte>, parsed: MainState): Report {
    r.(main := MainReport(true, f, parsed), setpoint := if parsed.mode == Cool then parsed.temperature else r.setpoint)
  }

  /** The pending command, held against what the main board now shows. */
  function Settle(s: State, parsed: MainState): State {
    if s.overlay.confirmationPending && Confirms(parsed, s.overlay.request)
    then s.(report := Ended(s.report, Confirmed), overlay := Cleared(s.overlay), mirror := true)
    else s
  }

  function AdoptMain(s: State, now: int, f: seq<Byte>, parsed: MainState): State {
    Settle(s.(mainTime := now, report := Reported(s.report, f, parsed)), parsed)
  }

  function PublishMainStep(s: State, now: int): State {
    if s.mainUpdate.None? then s else
    match ParseMain(s.mainUpdate.value)
    case None => s.(mainUpdate := None)
    case Some(parsed) => AdoptMain(s.(mainUpdate := None), now, s.mainUpdate.value, parsed)
  }

  // ----- commands -----

  datatype QueueResult = Queued(sequence: nat) | InvalidArgument | NotSupported | InvalidState

  /** Checks made before the lock is taken; ready is the interlock as read at that moment. */
  function Screen(p: Profile, ready: bool, r: Request): Option<QueueResult> {
    if r.mask == NO_BITS then Some(InvalidArgument)
    else if !(p.controlVerified && ready) then Some(NotSupported)
    else if !InRange(r) then Some(InvalidArgument)
    else if r.mask.timer then Some(NotSupported)
    else None
  }

  predicate Fresh(since: int, now: int) {
    since > 0 && (now - since) / 1000 <= LINK_FRESH_MS
  }

  predicate LinksFresh(s: State, now: int) {
    s.report.main.valid && s.report.panelValid && Fresh(s.mainTime, now) && Fresh(s.panelTime, now)
  }

  /** A setpoint only makes sense in Cool: the requested mode, or else the reported one. */
  predicate SetpointAllowed(s: State, r: Request) {
    r.mask.setpoint ==> (if r.mask.mode then r.mode else s.report.main.state.mode) == Cool
  }

  predicate Accepts(p: Profile, s: State, now: int, ready: bool, r: Request) {
    Screen(p, ready, r).None? && LinksFresh(s, now) && SetpointAllowed(s, r)
  }

  /** The 32-bit command counter. */
  function NextSequence(n: nat): nat { if n + 1 == SEQUENCE_MODULUS then 0 else n + 1 }

  function Enqueued(p: Profile, s: State, now: int, r: Request): State {
    var sequence := NextSequence(s.overlay.sequence);
    s.(overlay := Overlay(true, true, true,
                          p.hwForward && !p.loopControl, !p.hwForward && !p.loopControl,
                          sequence, now,
                          Merge(if s.overlay.active then s.overlay.request else EMPTY_REQUEST, r)),
       report := s.report.(overrideActive := true, commandPending := true,
                           status := Pending, commandSequence := sequence))
  }

  function QueueStep(p: Profile, s: State, now: int, ready: bool, r: Request): State {
    if Accepts(p, s, now, ready, r) then Enqueued(p, s, now, r) else s
  }

  function QueueAnswer(p: Profile, s: State, now: int, ready: bool, r: Request): QueueResult {
    if Screen(p, ready, r).Some? then Screen(p, ready, r).value
    else if Accepts(p, s, now, ready, r) then Queued(NextSequence(s.overlay.sequence))
    else InvalidState
  }

  /** First half of a takeover: a pending one is armed once the panel line has been idle long enough. */
  function ArmTakeoverStep(s: State, now: int): State {
    var reference := if s.lastPanelByte != 0 then s.lastPanelByte else s.overlay.queuedAt;
    s.(takeoverArmed := s.overlay.active && s.overlay.takeoverPending
                        && reference != 0 && now - reference >= STREAM_TIMEOUT_US)
  }

  /** Second half, after the route switch: ok tells whether the switch succeeded. */
  function FinishTakeoverStep(s: State, ok: bool): State {
    if !s.takeoverArmed then s else
    var t := s.(takeoverArmed := false, mirror := s.mirror && !ok);
    if ok && s.overlay.active && s.overlay.takeoverPending then
      t.(overlay := s.overlay.(takeoverPending := false, takeoverReady := true))
    else if !ok && s.overlay.active then
      t.(overlay := Cleared(s.overlay).(queuedAt := s.overlay.queuedAt, request := s.overlay.request),
         report := Ended(s.report, Cancelled))
    else t
  }

  predicate Overdue(o: Overlay, now: int) {
    o.confirmationPending && o.queuedAt > 0 && (now - o.queuedAt) / 1000 >= CONFIRM_TIMEOUT_MS
  }

  function WatchdogStep(s: State, now: int): State {
    if !Overdue(s.overlay, now) then s
    else s.(overlay := Cleared(s.overlay), mirror := true,
            report := Ended(s.report, TimedOut).(timeouts := s.report.timeouts + 1))
  }

  function SetReadyStep(p: Profile, s: State, ready: bool): State {
    var t := s.(ready := ready, report := s.report.(mitmActive := p.controlVerified && ready),
                mirror := s.mirror || !ready);
    if ready || !s.overlay.active then t
    else t.(overlay := Cleared(s.overlay).(request := s.overlay.request), report := Ended(t.report, Cancelled))
  }

  // ----- the imperative service -----

  class BridgeService {
    const profile: Profile
    var report: Report
    var overlay: Overlay
    var mainTime: int
    var panelTime: int
    var lastPanelByte: int
    var ready: bool
    var mirror: bool
    var takeoverArmed: bool
    const panelStream: FrameStream
    const mainStream: FrameStream
    var prepared: Option<seq<Byte>>
    var burst: bool
    var panelUpdate: Option<PanelUpdate>
    var mainUpdate: Option<seq<Byte>>
    var toMain: seq<seq<Byte>>
    var toPanel: seq<seq<Byte>>

    ghost predicate Valid()
      reads panelStream, panelStream.bytes, mainStream, mainStream.bytes
    {
      && panelStream != mainStream && panelStream.bytes != mainStream.bytes
      && panelStream.Valid() && mainStream.Valid()
    }

    ghost function View(): State
      reads this, panelStream, panelStream.bytes, mainStream, mainStream.bytes
      requires Valid()
    {
      State(report, overlay, mainTime, panelTime, lastPanelByte, ready, mirror, takeoverArmed,
            panelStream.View(), mainStream.View(), prepared, burst, panelUpdate, mainUpdate, toMain, toPanel)
    }

    constructor (profile: Profile)
      ensures Valid() && this.profile == profile && View() == BOOT
      ensures fresh(panelStream) && fresh(panelStream.bytes) && fresh(mainStream) && fresh(mainStream.bytes)
    {
      this.profile := profile;
      report, overlay := NO_REPORT, NO_OVERLAY;
      mainTime, panelTime, lastPanelByte := 0, 0, 0;
      ready, mirror, takeoverArmed := false, true, false;
      prepared, burst := None, false;
      panelUpdate, mainUpdate := None, None;
      toMain, toPanel := [], [];
      panelStream := new FrameStream();
      mainStream := new FrameStream();
    }

    method ForwardToMain(chunk: seq<Byte>)
      modifies this`toMain
      ensures toMain == old(toMain) + [chunk]
    {
      toMain := toMain + [chunk];
    }

    /** Snapshot under the lock, then rewrite a private copy of the last panel frame. */
    method PreparePanelFrame()
      requires Valid()
      modifies this`prepared, this`burst
      ensures Valid() && View() == old(View()).(prepared := Prepared(old(View())), burst := false)
    {
      var snapshot, raw := overlay, report.panelRaw;
      prepared := None;
      if report.panelValid && snapshot.active && snapshot.takeoverReady {
        var copy := Copy(raw);
        var ok := ApplyControl(copy, snapshot.request, snapshot.eventPending);
        if ok {
          prepared := Some(copy[..]);
        }
      }
      burst := false;
    }

    method HandlePanelIndex(index: nat, b: Byte)
      requires Valid()
      modifies this`prepared, this`burst, this`toMain
      ensures Valid() && View() == ForwardPanelByte(profile, old(View()), index, b)
    {
      if index == 0 {
        PreparePanelFrame();
      }
      var outgoing := if prepared.Some? && index < PANEL_SIZE && index < |prepared.value|
                      then prepared.value[index] else b;
      if profile.hwForward && mirror {
        return;
      }
      if burst {
        return;
      }
      if index == 0 && prepared.Some? {
        ForwardToMain(prepared.value);
        burst, prepared := true, None;
        return;
      }
      ForwardToMain([outgoing]);
    }

    method EndReport(status: Status)
      modifies this`report
      ensures report == Ended(old(report), status)
    {
      report := report.(overrideActive := false, commandPending := false, status := status);
    }

    method ClearOverlay()
      modifies this`overlay
      ensures overlay == Cleared(old(overlay))
    {
      overlay := Overlay(false, false, false, false, false, overlay.sequence, 0, EMPTY_REQUEST);
    }

    method EndCommand(status: Status)
      modifies this`overlay, this`report, this`mirror
      ensures overlay == Cleared(old(overlay)) && report == Ended(old(report), status) && mirror
    {
      ClearOverlay();
      EndReport(status);
      mirror := true;
    }

    /** The flags go, the request stays. */
    method CancelCommand(queuedAt: int)
      modifies this`overlay, this`report
      ensures overlay == Cleared(old(overlay)).(queuedAt := queuedAt, request := old(overlay.request))
      ensures report == Ended(old(report), Cancelled)
    {
      overlay := Overlay(false, false, false, false, false, overlay.sequence, queuedAt, overlay.request);
      EndReport(Cancelled);
    }

    method DropOverlay()
      modifies this`overlay
      ensures overlay == Overruled(old(overlay))
    {
      overlay := overlay.(active := false, confirmationPending := false,
                          takeoverPending := false, takeoverReady := false);
    }

    method ShowsUserAction(f: seq<Byte>) returns (overrules: bool)
      requires Valid() && |f| == PANEL_SIZE
      ensures overrules == Overrules(profile, View(), f)
    {
      var parsed := ParsePanel(f);
      var changed := report.panelValid && |report.panelRaw| == PANEL_SIZE && f[4..14] != report.panelRaw[4..14];
      var expected := profile.loopControl && parsed.Some? && overlay.active
                      && EchoMatches(parsed.value, overlay.request);
      overrules := parsed.Some? && parsed.value.event && changed && overlay.active && !expected;
    }

    method Overrule(f: seq<Byte>)
      requires Valid() && |f| == PANEL_SIZE
      modifies this`overlay, this`report, this`mirror
      ensures Valid() && View() == OverruleStep(profile, old(View()), f)
    {
      var overrules := ShowsUserAction(f);
      if overrules {
        DropOverlay();
        EndReport(Cancelled);
        mirror := true;
      }
    }

    method SpendMarker(f: seq<Byte>)
      requires Valid()
      modifies this`overlay, this`panelUpdate
      ensures Valid() && View() == SpendMarkerStep(profile, old(View()), f)
    {
      var snapshot := overlay;
      if snapshot.active && snapshot.eventPending && !profile.loopControl {
        overlay := overlay.(eventPending := false);
      }
      var forwarded, injected := f, false;
      if snapshot.active && snapshot.takeoverReady {
        var copy := Copy(f);
        injected := ApplyControl(copy, snapshot.request, snapshot.eventPending);
        forwarded := copy[..];
      }
      panelUpdate := Some(PanelUpdate(f, forwarded, injected));
    }

    /** The locked part of completing a panel frame; publishing it is a later locked step. */
    method HandlePanelFrame(f: seq<Byte>)
      requires Valid() && |f| == PANEL_SIZE
      modifies this`overlay, this`report, this`mirror, this`panelUpdate
      ensures Valid() && View() == JudgePanelFrame(profile, old(View()), f)
    {
      Overrule(f);
      SpendMarker(f);
    }

    method ReceivePanel(frame: Option<seq<Byte>>)
      requires Valid()
      modifies this`overlay, this`report, this`mirror, this`panelUpdate
      ensures Valid() && View() == PanelArrival(profile, old(View()), frame)
    {
      if frame.Some? && ChecksumValid(frame.value) && |frame.value| == PANEL_SIZE {
        HandlePanelFrame(frame.value);
      }
    }

    method PanelByte(now: int, b: Byte)
      requires Valid()
      modifies this, panelStream, panelStream.bytes
      ensures Valid() && View() == PanelByteStep(profile, old(View()), now, b)
    {
      lastPanelByte := now;
      var index, frame := panelStream.ConsumeByte(b);
      match index {
        case Some(i) => HandlePanelIndex(i, b);
        case None => ForwardToMain([b]);
      }
      ReceivePanel(frame);
    }

    method AdoptPanelFrame(now: int, u: PanelUpdate, parsed: PanelState)
      requires Valid()
      modifies this`report, this`panelTime
      ensures Valid() && View() == AdoptPanel(old(View()), now, u, parsed)
    {
      var injected := if u.injected then report.injectedFrames + 1 else report.injectedFrames;
      report := report.(panelRaw := u.frame, forwardedRaw := u.forwarded, panelValid := true,
                        panelEvent := parsed.event, setpoint := parsed.setpoint, injectedFrames := injected);
      panelTime := now;
    }

    method PublishPanel(now: int)
      requires Valid()
      modifies this`report, this`panelUpdate, this`panelTime
      ensures Valid() && View() == PublishPanelStep(old(View()), now)
    {
      if panelUpdate.None? {
        return;
      }
      var u := panelUpdate.value;
      panelUpdate := None;
      var parsed := ParsePanel(u.frame);
      if parsed.Some? {
        AdoptPanelFrame(now, u, parsed.value);
      }
    }

    method HandleMainFrame(f: seq<Byte>)
      requires Valid()
      modifies this`toPanel, this`mainUpdate
      ensures Valid() && View() == MainFrameStep(profile, old(View()), f)
    {
      var status := Copy(f);
      var commanded := false;
      if profile.loopControl && overlay.active {
        commanded := ApplyControlMain(status, overlay.request, overlay.eventPending);
      }
      toPanel := toPanel + [if commanded then status[..] else f];
      mainUpdate := Some(f);
    }

    method ReceiveMain(frame: Option<seq<Byte>>)
      requires Valid()
      modifies this`toPanel, this`mainUpdate
      ensures Valid() && View() == MainArrival(profile, old(View()), frame)
    {
      if frame.Some? && ChecksumValid(frame.value) && |frame.value| == MAIN_SIZE {
        HandleMainFrame(frame.value);
      }
    }

    method MainByte(b: Byte)
      requires Valid()
      modifies this`toPanel, this`mainUpdate, mainStream, mainStream.bytes
      ensures Valid() && View() == MainByteStep(profile, old(View()), b)
    {
      var index, frame := mainStream.ConsumeByte(b);
      ReceiveMain(frame);
    }

    method AdoptMainFrame(now: int, f: seq<Byte>, parsed: MainState)
      requires Valid()
      modifies this`report, this`overlay, this`mirror, this`mainTime
      ensures Valid() && View() == AdoptMain(old(View()), now, f, parsed)
    {
      ReportMain(f, parsed);
      mainTime := now;
      SettleCommand(parsed);
    }

    method SettleCommand(parsed: MainState)
      requires Valid()
      modifies this`report, this`overlay, this`mirror
      ensures Valid() && View() == Settle(old(View()), parsed)
    {
      if overlay.confirmationPending {
        if Confirms(parsed, overlay.request) {
          EndCommand(Confirmed);
        }
      }
    }

    method ReportMain(f: seq<Byte>, parsed: MainState)
      modifies this`report
      ensures report == Reported(old(report), f, parsed)
    {
      var setpoint := if parsed.mode == Cool then parsed.temperature else report.setpoint;
      report := report.(main := MainReport(true, f, parsed), setpoint := setpoint);
    }

    method PublishMain(now: int)
      requires Valid()
      modifies this`report, this`overlay, this`mirror, this`mainUpdate, this`mainTime
      ensures Valid() && View() == PublishMainStep(old(View()), now)
    {
      if mainUpdate.None? {
        return;
      }
      var f := mainUpdate.value;
      mainUpdate := None;
      var parsed := ParseMain(f);
      if parsed.Some? {
        AdoptMainFrame(now, f, parsed.value);
      }
    }

    method Enqueue(now: int, r: Request)
      requires Valid()
      modifies this`report, this`overlay
      ensures Valid() && View() == Enqueued(profile, old(View()), now, r)
    {
      var q := MergeInto(if overlay.active then overlay.request else EMPTY_REQUEST, r);
      var sequence := NextSequence(overlay.sequence);
      overlay := Overlay(true, true, true, profile.hwForward && !profile.loopControl,
                         !profile.hwForward && !profile.loopControl, sequence, now, q);
      report := report.(overrideActive := true, commandPending := true,
                        status := Pending, commandSequence := sequence);
    }

    method QueueControl(now: int, r: Request) returns (answer: QueueResult)
      requires Valid()
      modifies this`report, this`overlay
      ensures Valid() && View() == QueueStep(profile, old(View()), now, old(ready), r)
      ensures answer == QueueAnswer(profile, old(View()), now, old(ready), r)
    {
      if r.mask == NO_BITS {
        return InvalidArgument;
      }
      if !profile.controlVerified || !ready {
        return NotSupported;
      }
      var inRange := CheckRange(r);
      if !inRange {
        return InvalidArgument;
      }
      if r.mask.timer {
        return NotSupported;
      }
      var linksFresh := report.main.valid && report.panelValid && mainTime > 0 && panelTime > 0
                        && (now - mainTime) / 1000 <= LINK_FRESH_MS && (now - panelTime) / 1000 <= LINK_FRESH_MS;
      if !linksFresh {
        return InvalidState;
      }
      if r.mask.setpoint {
        var requestedMode := if r.mask.mode then r.mode else report.main.state.mode;
        if requestedMode != Cool {
          return InvalidState;
        }
      }
      Enqueue(now, r);
      return Queued(overlay.sequence);
    }

    method ArmTakeover(now: int)
      requires Valid()
      modifies this`takeoverArmed
      ensures Valid() && View() == ArmTakeoverStep(old(View()), now)
    {
      var reference := if lastPanelByte != 0 then lastPanelByte else overlay.queuedAt;
      takeoverArmed := overlay.active && overlay.takeoverPending;
      if reference == 0 || now - reference < STREAM_TIMEOUT_US {
        takeoverArmed := false;
      }
    }

    method FinishTakeover(ok: bool)
      requires Valid()
      modifies this`takeoverArmed, this`mirror, this`overlay, this`report
      ensures Valid() && View() == FinishTakeoverStep(old(View()), ok)
    {
      if !takeoverArmed {
        return;
      }
      takeoverArmed := false;
      if ok {
        mirror := false;
      }
      if ok && overlay.active && overlay.takeoverPending {
        overlay := overlay.(takeoverPending := false, takeoverReady := true);
      } else if !ok && overlay.active {
        CancelCommand(overlay.queuedAt);
      }
    }

    method Watchdog(now: int)
      requires Valid()
      modifies this`overlay, this`report, this`mirror
      ensures Valid() && View() == WatchdogStep(old(View()), now)
    {
      if overlay.confirmationPending && overlay.queuedAt > 0
         && (now - overlay.queuedAt) / 1000 >= CONFIRM_TIMEOUT_MS {
        EndCommand(TimedOut);
        report := report.(timeouts := report.timeouts + 1);
      }
    }

    method SetHardwareReady(on: bool)
      requires Valid()
      modifies this`ready, this`report, this`overlay, this`mirror
      ensures Valid() && View() == SetReadyStep(profile, old(View()), on)
    {
      ready := on;
      report := report.(mitmActive := profile.controlVerified && on);
      if !on && overlay.active {
        CancelCommand(0);
      }
      if !on {
        mirror := true;
      }
    }

    /** A stream that stays idle in the middle of a frame is flushed. */
    method FlushPanel()
      requires Valid()
      modifies panelStream
      ensures Valid() && View() == old(View()).(panelIn := Flushed(old(View()).panelIn))
    {
      panelStream.Flush();
    }

    method FlushMain()
      requires Valid()
      modifies mainStream
      ensures Valid() && View() == old(View()).(mainIn := Flushed(old(View()).mainIn))
    {
      mainStream.Flush();
    }
  }

  method Copy(s: seq<Byte>) returns (a: array<Byte>)
    ensures fresh(a) && a[..] == s
  {
    a := new Byte[|s|](i requires 0 <= i < |s| => s[i]);
  }

  /** Field-by-field merge of a new request over the pending one; the mask bits are joined last. */
  method MergeInto(pending: Request, r: Request) returns (q: Request)
    ensures q == Merge(pending, r)
  {
    var mode, fan, raw := pending.mask.mode, pending.mask.fan, pending.mask.raw;
    if r.mask.mode {
      raw := false;
    }
    if r.mask.fan {
      raw := false;
    }
    if r.mask.raw {
      mode, fan := false, false;
    }
    var mask := Mask(pending.mask.power || r.mask.power, pending.mask.setpoint || r.mask.setpoint,
                     mode || r.mask.mode, fan || r.mask.fan, raw || r.mask.raw,
                     pending.mask.quiet || r.mask.quiet, pending.mask.units || r.mask.units,
                     pending.mask.timer || r.mask.timer);
    q := Request(mask,
                 if r.mask.power then r.power else pending.power,
                 if r.mask.setpoint then r.setpoint else pending.setpoint,
                 if r.mask.mode then r.mode else pending.mode,
                 if r.mask.fan then r.fan else pending.fan,
                 if r.mask.raw then r.raw else pending.raw,
                 if r.mask.quiet then r.quiet else pending.quiet,
                 if r.mask.units then r.units else pending.units,
                 if r.mask.timer then r.timer else pending.timer);
  }
}
