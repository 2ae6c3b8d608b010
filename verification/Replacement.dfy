/**
  Command frames on the UART-regenerated route: when a source frame is replaced,
  that it is replaced as a whole, what the replacement says, and when the
  receiver's idle timeout spoils this.
*/
module Replacement {
  import opened Wire
  import opened Protocol
  import opened ControlAlgebra
  import opened Commands
  import opened Framing
  import opened Bridge
  import opened BridgeRuns
  import opened BridgeForwarding

  predicate Regenerates(p: Profile) { !p.hwForward && !p.loopControl }

  predicate AllPanelFrames(fs: seq<seq<Byte>>) { forall i :: 0 <= i < |fs| ==> PanelFrame(fs[i]) }

  /** k bytes into frame cur, after the whole frames fs. */
  predicate Input(input: seq<Byte>, fs: seq<seq<Byte>>, cur: seq<Byte>, k: nat) {
    AllPanelFrames(fs) && PanelFrame(cur) && k < PANEL_SIZE && input == Flatten(fs) + cur[..k]
  }

  // ----- what has been sent -----

  /** Writes to the main board that replace a whole panel frame by a command marked as an event. */
  function EventBursts(writes: seq<seq<Byte>>): nat {
    if writes == [] then 0
    else
      var c := writes[|writes| - 1];
      EventBursts(writes[..|writes| - 1]) + (if |c| == PANEL_SIZE && c[3] == EVENT_MARKER then 1 else 0)
  }

  lemma EventBurstsSnoc(writes: seq<seq<Byte>>, c: seq<Byte>)
    ensures EventBursts(writes + [c])
            == EventBursts(writes) + (if |c| == PANEL_SIZE && c[3] == EVENT_MARKER then 1 else 0)
  {
    assert (writes + [c])[..|writes|] == writes;
  }

  function LastWrite(s: State): seq<Byte> {
    if s.toMain == [] then [] else s.toMain[|s.toMain| - 1]
  }

  /** What has been sent in place of the first k bytes of the frame in progress. */
  function Sent(s: State, cur: seq<Byte>, k: nat): seq<Byte>
    requires k <= |cur|
  {
    if k == 0 then [] else if s.burst then LastWrite(s) else cur[..k]
  }

  /** The receiver is k bytes into cur, or has lost the frame while its bytes are passed on one by one. */
  predicate Tracking(s: State, cur: seq<Byte>, k: nat)
    requires |cur| == PANEL_SIZE && k < PANEL_SIZE
  {
    || s.panelIn == Partial(cur, k, s.panelIn.synchronized)
    || (k > 0 && s.panelIn == Flushed(s.panelIn))
    || (!s.burst && s.prepared.None?)
  }

  /** Between two bytes, k bytes into panel frame cur, with whole frames gs sent before it. */
  predicate InFrame(s: State, gs: seq<seq<Byte>>, cur: seq<Byte>, k: nat) {
    && PanelFrame(cur) && k < PANEL_SIZE
    && Tracking(s, cur, k)
    && (k > 0 ==> s.prepared.None?)
    && (k > 0 && s.burst ==> PanelFrame(LastWrite(s)))
    && Flatten(s.toMain) == Flatten(gs) + Sent(s, cur, k)
  }

  /** No more event-marked replacements than accepted commands, with one in reserve while a marker is still due. */
  predicate MarkersCovered(s: State, accepted: nat, k: nat) {
    var spent := k > 0 && s.burst && |LastWrite(s)| == PANEL_SIZE && LastWrite(s)[3] == EVENT_MARKER;
    EventBursts(s.toMain) + (if s.overlay.active && s.overlay.eventPending && !spent then 1 else 0) <= accepted
  }

  // ----- one byte inside a frame -----

  /**
    The byte after k bytes of a panel frame continues it: the frame has not been
    flushed once its replacement was written, and the byte is not taken for the
    start of a new frame while a replacement is due.
  */
  predicate Uncut(s: State, k: nat, b: Byte) {
    k > 0 ==>
      && (s.burst ==> s.panelIn.buffer != [])
      && (Consume(s.panelIn, b).index == Some(0) ==> Prepared(s).None?)
  }

  /** A byte that is index 0 leaves the receiver one byte into a frame, whatever it held before. */
  lemma StartsOver(s: Stream, b: Byte)
    requires Wellformed(s)
    ensures Consume(s, b).index == Some(0) ==> b == HEADER_0 && Consume(s, b).next == Stream([b], 0, s.synchronized)
  {
  }

  /** Where the receiver is after one more byte of the frame. */
  lemma TrackingNext(s: State, cur: seq<Byte>, k: nat)
    requires PanelFrame(cur) && k < PANEL_SIZE && Wellformed(s.panelIn)
    requires Tracking(s, cur, k) && Uncut(s, k, cur[k])
    ensures var r := Consume(s.panelIn, cur[k]);
      || (r.index == Some(k) && s.panelIn == Partial(cur, k, s.panelIn.synchronized)
          && (if k + 1 < PANEL_SIZE then r.next == Partial(cur, k + 1, r.next.synchronized) && r.frame.None?
              else r.next == Flushed(r.next) && r.frame == Some(cur)))
      || (k == 0 && r.index == Some(0) && r.next == Partial(cur, 1, r.next.synchronized))
      || (!s.burst && (k == 0 ==> s.prepared.None?) && (r.index == Some(0) ==> k > 0 && Prepared(s).None?))
  {
    if s.panelIn == Partial(cur, k, s.panelIn.synchronized) {
      FrameStep(cur, k, s.panelIn.synchronized);
    } else {
      StartsOver(s.panelIn, cur[k]);
    }
  }

  /** What holds of the outgoing side once k bytes of cur, k > 0, have been passed on. */
  predicate PassedOn(t: State, gs: seq<seq<Byte>>, cur: seq<Byte>, k: nat)
    requires |cur| == PANEL_SIZE && 0 < k <= PANEL_SIZE
  {
    && t.prepared.None? && (t.burst ==> PanelFrame(LastWrite(t)))
    && Flatten(t.toMain) == Flatten(gs) + Sent(t, cur, k)
  }

  lemma FirstByteSent(p: Profile, s: State, now: int, gs: seq<seq<Byte>>, cur: seq<Byte>)
    requires !p.hwForward && FramesKept(s) && InFrame(s, gs, cur, 0)
    requires Consume(s.panelIn, cur[0]).index == Some(0)
    ensures PassedOn(Forwarded(p, s, now, cur[0]), gs, cur, 1)
  {
    PreparedIsFrame(s);
    ByteForwarded(p, s, now, cur[0]);
    SnocSent(s, gs, if Prepared(s).Some? then Prepared(s).value else [cur[0]]);
    assert cur[..1] == [cur[0]];
  }

  lemma SnocSent(s: State, gs: seq<seq<Byte>>, c: seq<Byte>)
    requires Flatten(s.toMain) == Flatten(gs)
    ensures Flatten(s.toMain + [c]) == Flatten(gs) + c
  {
    FlattenSnoc(s.toMain, c);
  }

  /** A byte that is passed on by itself. */
  lemma PlainByteSent(p: Profile, s: State, now: int, gs: seq<seq<Byte>>, cur: seq<Byte>, k: nat)
    requires !p.hwForward && InFrame(s, gs, cur, k) && !s.burst && s.prepared.None?
    requires Consume(s.panelIn, cur[k]).index == Some(0) ==> Prepared(s).None?
    ensures PassedOn(Forwarded(p, s, now, cur[k]), gs, cur, k + 1) && !Forwarded(p, s, now, cur[k]).burst
  {
    ByteForwarded(p, s, now, cur[k]);
    FlattenSnoc(s.toMain, [cur[k]]);
    PrefixGrows(cur, k);
    assert cur[..0] == [];
  }

  lemma LaterByteSent(p: Profile, s: State, now: int, gs: seq<seq<Byte>>, cur: seq<Byte>, k: nat)
    requires !p.hwForward && k > 0 && InFrame(s, gs, cur, k) && Consume(s.panelIn, cur[k]).index == Some(k)
    ensures PassedOn(Forwarded(p, s, now, cur[k]), gs, cur, k + 1)
  {
    ByteForwarded(p, s, now, cur[k]);
    if !s.burst {
      FlattenSnoc(s.toMain, [cur[k]]);
      PrefixGrows(cur, k);
    }
  }

  /** One byte of a valid panel frame reaches the main side in the frame's place. */
  lemma ByteSent(p: Profile, s: State, now: int, gs: seq<seq<Byte>>, cur: seq<Byte>, k: nat)
    requires !p.hwForward && FramesKept(s) && InFrame(s, gs, cur, k) && Uncut(s, k, cur[k])
    ensures var t := Forwarded(p, s, now, cur[k]);
      && PassedOn(t, gs, cur, k + 1)
      && (if k + 1 < PANEL_SIZE then Tracking(t, cur, k + 1)
          else t.panelIn == Flushed(t.panelIn) || (!t.burst && t.prepared.None?))
  {
    TrackingNext(s, cur, k);
    var index := Consume(s.panelIn, cur[k]).index;
    if index == Some(k) && k > 0 && s.panelIn == Partial(cur, k, s.panelIn.synchronized) {
      LaterByteSent(p, s, now, gs, cur, k);
    } else if k == 0 && index == Some(0) {
      FirstByteSent(p, s, now, gs, cur);
    } else {
      PlainByteSent(p, s, now, gs, cur, k);
    }
  }

  lemma ByteMarkers(p: Profile, s: State, now: int, gs: seq<seq<Byte>>, cur: seq<Byte>, k: nat, accepted: nat)
    requires !p.hwForward && FramesKept(s) && InFrame(s, gs, cur, k) && Uncut(s, k, cur[k])
    requires MarkersCovered(s, accepted, k)
    ensures MarkersCovered(Forwarded(p, s, now, cur[k]), accepted, k + 1)
  {
    PreparedIsFrame(s);
    TrackingNext(s, cur, k);
    ByteForwarded(p, s, now, cur[k]);
    EventBurstsSnoc(s.toMain, [cur[k]]);
    if Prepared(s).Some? {
      EventBurstsSnoc(s.toMain, Prepared(s).value);
    }
  }

  lemma JudgedMarker(p: Profile, s: State, f: seq<Byte>)
    requires !p.loopControl && |f| == PANEL_SIZE
    ensures var t := JudgePanelFrame(p, s, f); !(t.overlay.active && t.overlay.eventPending)
  {
  }

  /** The outgoing side is the same and no marker has become due. */
  predicate SameOutgoing(u: State, t: State) {
    && t.panelIn == u.panelIn && t.burst == u.burst && t.prepared == u.prepared && t.toMain == u.toMain
    && (t.overlay.active && t.overlay.eventPending ==> u.overlay.active && u.overlay.eventPending)
  }

  /** Completing a frame, the one in progress or one the receiver made up, leaves the outgoing side alone. */
  lemma ArrivalKeeps(p: Profile, s: State, now: int, b: Byte)
    requires !p.loopControl
    ensures var t := PanelByteStep(p, s, now, b);
      && SameOutgoing(Forwarded(p, s, now, b), t)
      && (CompletedPanel(s.panelIn, b).Some? ==> !(t.overlay.active && t.overlay.eventPending))
  {
    PanelByteSplits(p, s, now, b);
    JudgedOutgoing(p, s, now, b);
    if CompletedPanel(s.panelIn, b).Some? {
      JudgedMarker(p, Forwarded(p, s, now, b), CompletedPanel(s.panelIn, b).value);
    }
  }

  lemma InnerKeeps(u: State, t: State, gs: seq<seq<Byte>>, cur: seq<Byte>, k: nat, accepted: nat)
    requires SameOutgoing(u, t) && PanelFrame(cur) && 0 < k < PANEL_SIZE
    requires PassedOn(u, gs, cur, k) && Tracking(u, cur, k) && MarkersCovered(u, accepted, k)
    ensures InFrame(t, gs, cur, k) && MarkersCovered(t, accepted, k)
  {
  }

  lemma InnerByte(p: Profile, s: State, now: int, gs: seq<seq<Byte>>, cur: seq<Byte>, k: nat, accepted: nat)
    requires Regenerates(p) && FramesKept(s) && k + 1 < PANEL_SIZE
    requires InFrame(s, gs, cur, k) && Uncut(s, k, cur[k]) && MarkersCovered(s, accepted, k)
    ensures var t := PanelByteStep(p, s, now, cur[k]);
      InFrame(t, gs, cur, k + 1) && MarkersCovered(t, accepted, k + 1)
  {
    ByteSent(p, s, now, gs, cur, k);
    ByteMarkers(p, s, now, gs, cur, k, accepted);
    ArrivalKeeps(p, s, now, cur[k]);
    InnerKeeps(Forwarded(p, s, now, cur[k]), PanelByteStep(p, s, now, cur[k]), gs, cur, k + 1, accepted);
  }

  lemma LastKeeps(u: State, t: State, gs: seq<seq<Byte>>, cur: seq<Byte>, next: seq<Byte>, accepted: nat)
    returns (g: seq<Byte>)
    requires SameOutgoing(u, t) && PanelFrame(cur) && PanelFrame(next)
    requires PassedOn(u, gs, cur, PANEL_SIZE) && MarkersCovered(u, accepted, PANEL_SIZE)
    requires u.panelIn == Flushed(u.panelIn) || (!u.burst && u.prepared.None?)
    requires t.burst ==> !(t.overlay.active && t.overlay.eventPending)
    ensures InFrame(t, gs + [g], next, 0) && MarkersCovered(t, accepted, 0)
    ensures PanelFrame(g) && g == if t.burst then LastWrite(t) else cur
  {
    g := Sent(u, cur, PANEL_SIZE);
    FlattenSnoc(gs, g);
    assert cur[..PANEL_SIZE] == cur && next[..0] == [];
  }

  /** With all of cur received, the next frame may begin; g went out in its place. */
  lemma LastByte(p: Profile, s: State, now: int, gs: seq<seq<Byte>>, cur: seq<Byte>, next: seq<Byte>, accepted: nat)
    returns (g: seq<Byte>)
    requires Regenerates(p) && FramesKept(s) && PanelFrame(next)
    requires InFrame(s, gs, cur, PANEL_SIZE - 1) && Uncut(s, PANEL_SIZE - 1, cur[PANEL_SIZE - 1])
    requires MarkersCovered(s, accepted, PANEL_SIZE - 1)
    ensures var t := PanelByteStep(p, s, now, cur[PANEL_SIZE - 1]);
      && InFrame(t, gs + [g], next, 0) && MarkersCovered(t, accepted, 0)
      && PanelFrame(g) && g == if t.burst then LastWrite(t) else cur
  {
    var k := PANEL_SIZE - 1;
    ByteSent(p, s, now, gs, cur, k);
    ByteMarkers(p, s, now, gs, cur, k, accepted);
    ArrivalKeeps(p, s, now, cur[k]);
    LastByteMarker(p, s, now, cur);
    g := LastKeeps(Forwarded(p, s, now, cur[k]), PanelByteStep(p, s, now, cur[k]), gs, cur, next, accepted);
  }

  /** A replacement whose marker went out is judged when the frame it replaced completes. */
  lemma LastByteMarker(p: Profile, s: State, now: int, cur: seq<Byte>)
    requires Regenerates(p) && PanelFrame(cur) && Wellformed(s.panelIn)
    requires Tracking(s, cur, PANEL_SIZE - 1) && Uncut(s, PANEL_SIZE - 1, cur[PANEL_SIZE - 1])
    ensures var t := PanelByteStep(p, s, now, cur[PANEL_SIZE - 1]);
      t.burst ==> !(t.overlay.active && t.overlay.eventPending)
  {
    TrackingNext(s, cur, PANEL_SIZE - 1);
    ArrivalKeeps(p, s, now, cur[PANEL_SIZE - 1]);
    ByteForwarded(p, s, now, cur[PANEL_SIZE - 1]);
  }

  lemma OtherStep(p: Profile, s: State, e: Event, gs: seq<seq<Byte>>, cur: seq<Byte>, k: nat, accepted: nat)
    requires !e.what.PanelByte? && Agreed(s)
    requires InFrame(s, gs, cur, k) && MarkersCovered(s, accepted, k)
    ensures InFrame(Step(p, s, e), gs, cur, k)
    ensures MarkersCovered(Step(p, s, e), accepted + (if Accepted(p, s, e) then 1 else 0), k)
  {
    if e.what == PanelIdle {
      assert Step(p, s, e) == s.(panelIn := Flushed(s.panelIn));
    } else {
      StepKeepsToMain(p, s, e);
      StepMoves(p, s, e);
    }
  }

  // ----- whole runs -----

  /** How far into a frame the source stream is. */
  function Position(events: seq<Event>): nat { |PanelInput(events)| % PANEL_SIZE }

  /** Every byte that reaches the receiver inside a frame continues it. */
  predicate AllUncut(p: Profile, events: seq<Event>) {
    events != [] ==>
      var n := |events| - 1;
      && AllUncut(p, events[..n])
      && (events[n].what.PanelByte? ==> Uncut(Run(p, events[..n]), Position(events[..n]), events[n].what.b))
  }

  lemma {:induction false} FlattenLength(fs: seq<seq<Byte>>)
    requires forall i :: 0 <= i < |fs| ==> |fs[i]| == PANEL_SIZE
    ensures |Flatten(fs)| == PANEL_SIZE * |fs|
  {
    if fs != [] {
      FlattenLength(fs[..|fs| - 1]);
    }
  }

  lemma InputPosition(input: seq<Byte>, fs: seq<seq<Byte>>, cur: seq<Byte>, k: nat)
    requires Input(input, fs, cur, k)
    ensures |input| == PANEL_SIZE * |fs| + k && |input| % PANEL_SIZE == k
  {
    FlattenLength(fs);
  }

  /** A stream of frames with its last byte taken off. */
  lemma InputBefore(input: seq<Byte>, b: Byte, fs: seq<seq<Byte>>, cur: seq<Byte>, k: nat)
    requires Input(input + [b], fs, cur, k)
    ensures k > 0 ==> b == cur[k - 1] && Input(input, fs, cur, k - 1)
    ensures k == 0 ==> fs != []
    ensures k == 0 ==> var m := |fs| - 1;
      b == fs[m][PANEL_SIZE - 1] && Input(input, fs[..m], fs[m], PANEL_SIZE - 1)
  {
    if k > 0 {
      InnerInputByte(input, b, Flatten(fs), cur, k);
    } else {
      NonemptyInput(input, b, fs, cur);
      var f := fs[|fs| - 1];
      assert f[..PANEL_SIZE] == f;
      InnerInputByte(input, b, Flatten(fs[..|fs| - 1]), f, PANEL_SIZE);
    }
  }

  lemma InnerInputByte(input: seq<Byte>, b: Byte, prior: seq<Byte>, cur: seq<Byte>, k: nat)
    requires 0 < k <= |cur| && input + [b] == prior + cur[..k]
    ensures b == cur[k - 1] && input == prior + cur[..k - 1]
  {
    var all := input + [b];
    assert input == all[..|all| - 1] && b == all[|all| - 1];
    assert (prior + cur[..k])[..|all| - 1] == prior + cur[..k - 1];
  }

  lemma NonemptyInput(input: seq<Byte>, b: Byte, fs: seq<seq<Byte>>, cur: seq<Byte>)
    requires input + [b] == Flatten(fs) + cur[..0]
    ensures fs != [] && input + [b] == Flatten(fs[..|fs| - 1]) + fs[|fs| - 1]
  {
    assert |input + [b]| > 0;
    assert Flatten(fs) + cur[..0] == Flatten(fs);
  }

  lemma EmptyInput(fs: seq<seq<Byte>>, cur: seq<Byte>, k: nat)
    requires Input([], fs, cur, k)
    ensures fs == [] && k == 0
  {
    InputPosition([], fs, cur, k);
  }

  /** The overlay frame to send for a source frame that begins with byte b in this state, if there is one. */
  function DueFrame(s: State, b: Byte): Option<seq<Byte>> {
    if Consume(s.panelIn, b).index == Some(0) then Prepared(s) else None
  }

  /** For each source frame that has begun, the overlay frame due as it began. */
  function DueFrames(p: Profile, events: seq<Event>): seq<Option<seq<Byte>>> {
    if events == [] then []
    else
      var before, what := events[..|events| - 1], events[|events| - 1].what;
      if what.PanelByte? && Position(before) == 0
      then DueFrames(p, before) + [DueFrame(Run(p, before), what.b)]
      else DueFrames(p, before)
  }

  function Instead(due: Option<seq<Byte>>, f: seq<Byte>): seq<Byte> { if due.Some? then due.value else f }

  /** The frames sent: each is the overlay frame due in its place, or else the source frame. */
  predicate Replaces(due: seq<Option<seq<Byte>>>, fs: seq<seq<Byte>>, gs: seq<seq<Byte>>) {
    && |gs| == |fs| <= |due|
    && (forall i :: 0 <= i < |gs| ==> PanelFrame(gs[i]) && gs[i] == Instead(due[i], fs[i]))
  }

  /** What was due as the frame in progress began is what has been sent for it. */
  predicate Sending(s: State, due: seq<Option<seq<Byte>>>, n: nat, k: nat) {
    && |due| == n + (if k > 0 then 1 else 0)
    && (k > 0 ==> s.burst == due[n].Some? && (s.burst ==> LastWrite(s) == due[n].value))
  }

  lemma FirstByteDue(p: Profile, s: State, now: int, gs: seq<seq<Byte>>, cur: seq<Byte>)
    requires Regenerates(p) && FramesKept(s) && InFrame(s, gs, cur, 0)
    ensures var t, due := PanelByteStep(p, s, now, cur[0]), DueFrame(s, cur[0]);
      t.burst == due.Some? && (t.burst ==> LastWrite(t) == due.value)
  {
    TrackingNext(s, cur, 0);
    ByteForwarded(p, s, now, cur[0]);
    JudgedOutgoing(p, s, now, cur[0]);
  }

  lemma LaterByteDue(p: Profile, s: State, now: int, gs: seq<seq<Byte>>, cur: seq<Byte>, k: nat)
    requires Regenerates(p) && FramesKept(s) && k > 0 && InFrame(s, gs, cur, k) && Uncut(s, k, cur[k])
    ensures var t := PanelByteStep(p, s, now, cur[k]); t.burst == s.burst && (t.burst ==> t.toMain == s.toMain)
  {
    TrackingNext(s, cur, k);
    ByteForwarded(p, s, now, cur[k]);
    JudgedOutgoing(p, s, now, cur[k]);
  }

  lemma ReplacesSnoc(due: seq<Option<seq<Byte>>>, fs: seq<seq<Byte>>, gs: seq<seq<Byte>>, f: seq<Byte>, g: seq<Byte>)
    requires Replaces(due, fs, gs) && |fs| < |due| && PanelFrame(g) && g == Instead(due[|fs|], f)
    ensures Replaces(due, fs + [f], gs + [g])
  {
  }

  /** Where a run stands, k bytes into frame cur of a source stream of frames fs. */
  predicate Progress(s: State, due: seq<Option<seq<Byte>>>, fs: seq<seq<Byte>>, gs: seq<seq<Byte>>,
                     cur: seq<Byte>, k: nat, accepted: nat)
  {
    Replaces(due, fs, gs) && Sending(s, due, |fs|, k) && InFrame(s, gs, cur, k) && MarkersCovered(s, accepted, k)
  }

  /** The state and the accepted commands just before the last event of a run. */
  lemma BeforeLast(p: Profile, events: seq<Event>) returns (s: State, e: Event, accepted: nat)
    requires events != []
    ensures s == Run(p, events[..|events| - 1]) && e == events[|events| - 1]
    ensures accepted == AcceptedCount(p, events[..|events| - 1])
    ensures FramesKept(s) && Agreed(s)
    ensures Run(p, events) == Step(p, s, e)
    ensures AcceptedCount(p, events) == accepted + (if Accepted(p, s, e) then 1 else 0)
  {
    s, e := Run(p, events[..|events| - 1]), events[|events| - 1];
    accepted := AcceptedCount(p, events[..|events| - 1]);
    AlwaysFrames(p, events[..|events| - 1]);
    AlwaysAgreed(p, events[..|events| - 1]);
  }

  lemma OtherRun(p: Profile, events: seq<Event>, fs: seq<seq<Byte>>, gs: seq<seq<Byte>>, cur: seq<Byte>, k: nat)
    requires events != [] && !events[|events| - 1].what.PanelByte?
    requires Progressed(p, events[..|events| - 1], fs, gs, cur, k)
    ensures Progressed(p, events, fs, gs, cur, k)
  {
    var s, e, accepted := BeforeLast(p, events);
    OtherStep(p, s, e, gs, cur, k, accepted);
    StepKeepsToMain(p, s, e);
  }

  predicate Progressed(p: Profile, events: seq<Event>, fs: seq<seq<Byte>>, gs: seq<seq<Byte>>,
                       cur: seq<Byte>, k: nat)
  {
    Progress(Run(p, events), DueFrames(p, events), fs, gs, cur, k, AcceptedCount(p, events))
  }

  /** The byte after k bytes of cur, and what it means for what is due. */
  lemma SendingNext(p: Profile, events: seq<Event>, fs: seq<seq<Byte>>, gs: seq<seq<Byte>>, cur: seq<Byte>, k: nat)
    requires Regenerates(p) && events != [] && k < |cur| && events[|events| - 1].what == PanelByte(cur[k])
    requires var before := events[..|events| - 1];
      Progressed(p, before, fs, gs, cur, k) && Uncut(Run(p, before), k, cur[k]) && Position(before) == k
    ensures Sending(Run(p, events), DueFrames(p, events), |fs|, k + 1)
    ensures DueFrames(p, events[..|events| - 1]) <= DueFrames(p, events)
  {
    var s, e, accepted := BeforeLast(p, events);
    if k == 0 {
      FirstByteDue(p, s, e.now, gs, cur);
    } else {
      LaterByteDue(p, s, e.now, gs, cur, k);
    }
  }

  lemma InnerRun(p: Profile, events: seq<Event>, fs: seq<seq<Byte>>, gs: seq<seq<Byte>>, cur: seq<Byte>, k: nat)
    requires Regenerates(p) && k + 1 < PANEL_SIZE == |cur|
    requires events != [] && events[|events| - 1].what == PanelByte(cur[k])
    requires var before := events[..|events| - 1];
      Progressed(p, before, fs, gs, cur, k) && Uncut(Run(p, before), k, cur[k]) && Position(before) == k
    ensures Progressed(p, events, fs, gs, cur, k + 1)
  {
    var s, e, accepted := BeforeLast(p, events);
    InnerByte(p, s, e.now, gs, cur, k, accepted);
    SendingNext(p, events, fs, gs, cur, k);
  }

  lemma LastRun(p: Profile, events: seq<Event>, fs: seq<seq<Byte>>, hs: seq<seq<Byte>>, f: seq<Byte>, next: seq<Byte>)
    returns (g: seq<Byte>)
    requires Regenerates(p) && PanelFrame(next) && |f| == PANEL_SIZE
    requires events != [] && events[|events| - 1].what == PanelByte(f[PANEL_SIZE - 1])
    requires var before, k := events[..|events| - 1], PANEL_SIZE - 1;
      Progressed(p, before, fs, hs, f, k) && Uncut(Run(p, before), k, f[k]) && Position(before) == k
    ensures Progressed(p, events, fs + [f], hs + [g], next, 0)
  {
    var s, e, accepted := BeforeLast(p, events);
    g := LastByte(p, s, e.now, hs, f, next, accepted);
    SendingNext(p, events, fs, hs, f, PANEL_SIZE - 1);
    ReplacesSnoc(DueFrames(p, events), fs, hs, f, g);
  }

  lemma StartProgress(p: Profile, cur: seq<Byte>)
    requires PanelFrame(cur)
    ensures Progressed(p, [], [], [], cur, 0)
  {
  }

  lemma {:induction false} ReplacementRun(
      p: Profile, events: seq<Event>, fs: seq<seq<Byte>>, cur: seq<Byte>, k: nat) returns (gs: seq<seq<Byte>>)
    requires Regenerates(p) && AllUncut(p, events) && Input(PanelInput(events), fs, cur, k)
    ensures Progressed(p, events, fs, gs, cur, k)
  {
    if events == [] {
      EmptyInput(fs, cur, k);
      StartProgress(p, cur);
      gs := [];
    } else {
      var before, what := events[..|events| - 1], events[|events| - 1].what;
      if !what.PanelByte? {
        gs := ReplacementRun(p, before, fs, cur, k);
        OtherRun(p, events, fs, gs, cur, k);
      } else {
        InputBefore(PanelInput(before), what.b, fs, cur, k);
        if k > 0 {
          InputPosition(PanelInput(before), fs, cur, k - 1);
          gs := ReplacementRun(p, before, fs, cur, k - 1);
          InnerRun(p, events, fs, gs, cur, k - 1);
        } else {
          var m := |fs| - 1;
          InputPosition(PanelInput(before), fs[..m], fs[m], PANEL_SIZE - 1);
          var hs := ReplacementRun(p, before, fs[..m], fs[m], PANEL_SIZE - 1);
          var g := LastRun(p, events, fs[..m], hs, fs[m], cur);
          gs := hs + [g];
          LastApart(fs);
        }
      }
    }
  }

  lemma SomeFrame() returns (f: seq<Byte>)
    ensures PanelFrame(f)
  {
    f := Finalized(COOL_PANEL);
    FinalizedIsValid(COOL_PANEL);
    assert f[0] == f[..14][0] && f[1] == f[..14][1] && f[2] == f[..14][2];
  }

  /** Step j brings the first byte of the i-th source frame. */
  predicate BeginsFrame(events: seq<Event>, i: nat, j: nat) {
    j < |events| && events[j].what.PanelByte? && |PanelInput(events[..j])| == PANEL_SIZE * i
  }

  /** g is what this state sends for frame f, which begins at step j. */
  predicate SentAt(p: Profile, events: seq<Event>, j: nat, f: seq<Byte>, g: seq<Byte>)
    requires j < |events| && events[j].what.PanelByte?
  {
    g == Instead(DueFrame(Run(p, events[..j]), events[j].what.b), f)
  }

  ghost predicate InPlace(p: Profile, events: seq<Event>, i: nat, f: seq<Byte>, g: seq<Byte>) {
    exists j :: BeginsFrame(events, i, j) && SentAt(p, events, j, f, g)
  }

  lemma NextFrameCount(n: nat, count: nat)
    requires n <= PANEL_SIZE * count < n + PANEL_SIZE
    ensures n % PANEL_SIZE == 0 <==> n == PANEL_SIZE * count
  {
  }

  /** One entry for each frame begun. */
  lemma {:induction false} DueCount(p: Profile, events: seq<Event>)
    ensures |PanelInput(events)| <= PANEL_SIZE * |DueFrames(p, events)| < |PanelInput(events)| + PANEL_SIZE
  {
    if events != [] {
      var before := events[..|events| - 1];
      DueCount(p, before);
      NextFrameCount(|PanelInput(before)|, |DueFrames(p, before)|);
    }
  }

  /** The i-th entry of DueFrames was drawn up at the step that began the i-th frame. */
  lemma {:induction false} DueWhenBegun(p: Profile, events: seq<Event>, i: nat) returns (j: nat)
    requires i < |DueFrames(p, events)|
    ensures BeginsFrame(events, i, j)
    ensures DueFrames(p, events)[i] == DueFrame(Run(p, events[..j]), events[j].what.b)
  {
    var before := events[..|events| - 1];
    if i < |DueFrames(p, before)| {
      j := DueWhenBegun(p, before, i);
      assert before[..j] == events[..j];
    } else {
      j := |events| - 1;
      DueCount(p, before);
      NextFrameCount(|PanelInput(before)|, |DueFrames(p, before)|);
    }
  }

  /**
    Atomic replacement on the UART-regenerated route: when the panel sends
    whole valid frames, then under every interleaving of commands,
    confirmations, cancellations, timeouts, takeovers and idle flushes in which
    no frame is cut, the main board is sent exactly as many whole valid frames.
    The i-th of them is decided at the step that brings the first byte of the
    i-th source frame: it is the overlay frame then due, or else the source
    frame. Event-marked replacements never outnumber the accepted commands.
  */
  lemma AtomicReplacement(p: Profile, events: seq<Event>, fs: seq<seq<Byte>>) returns (gs: seq<seq<Byte>>)
    requires Regenerates(p) && AllPanelFrames(fs) && PanelInput(events) == Flatten(fs)
    requires AllUncut(p, events)
    ensures Flatten(Run(p, events).toMain) == Flatten(gs)
    ensures |gs| == |fs| && AllPanelFrames(gs)
    ensures forall i :: 0 <= i < |fs| ==> InPlace(p, events, i, fs[i], gs[i])
    ensures EventBursts(Run(p, events).toMain) <= AcceptedCount(p, events)
  {
    var cur := SomeFrame();
    gs := ReplacementRun(p, events, fs, cur, 0);
    FlattenLength(fs);
    forall i: nat | i < |fs|
      ensures InPlace(p, events, i, fs[i], gs[i])
    {
      var j := DueWhenBegun(p, events, i);
      assert SentAt(p, events, j, fs[i], gs[i]);
    }
  }

  // ----- and only then -----

  /**
    gs stand for the whole frames received, and of the frame in progress there
    has been sent what was received of it or one complete frame in its place.
  */
  predicate Stands(input: seq<Byte>, sent: seq<Byte>, fs: seq<seq<Byte>>, cur: seq<Byte>, k: nat,
                   gs: seq<seq<Byte>>, tail: seq<Byte>)
  {
    && Input(input, fs, cur, k)
    && |gs| == |fs| && AllPanelFrames(gs)
    && sent == Flatten(gs) + tail
    && (if k == 0 then tail == [] else tail == cur[..k] || PanelFrame(tail))
  }

  /** What has been sent is whole frames, one for each frame received, at every point inside a frame too. */
  ghost predicate WholeFrames(input: seq<Byte>, sent: seq<Byte>) {
    exists fs, cur, k, gs, tail :: Stands(input, sent, fs, cur, k, gs, tail)
  }

  ghost predicate AlwaysWhole(p: Profile, events: seq<Event>) {
    && (events != [] ==> AlwaysWhole(p, events[..|events| - 1]))
    && WholeFrames(PanelInput(events), Flatten(Run(p, events).toMain))
  }

  lemma WholeLengths(input: seq<Byte>, sent: seq<Byte>)
    requires WholeFrames(input, sent)
    ensures var k := |input| % PANEL_SIZE;
      |sent| == |input| || (k > 0 && |sent| == |input| - k + PANEL_SIZE)
  {
    var fs, cur, k, gs, tail :| Stands(input, sent, fs, cur, k, gs, tail);
    InputPosition(input, fs, cur, k);
    FlattenLength(gs);
  }

  lemma ProgressIsWhole(s: State, input: seq<Byte>, fs: seq<seq<Byte>>, gs: seq<seq<Byte>>, cur: seq<Byte>, k: nat)
    requires Input(input, fs, cur, k) && |gs| == |fs| && AllPanelFrames(gs) && InFrame(s, gs, cur, k)
    ensures WholeFrames(input, Flatten(s.toMain))
  {
    assert Stands(input, Flatten(s.toMain), fs, cur, k, gs, Sent(s, cur, k));
  }

  lemma AddedLength(p: Profile, s: State, now: int, b: Byte)
    requires !p.hwForward && FramesKept(s)
    requires Consume(s.panelIn, b).index.None? || Consume(s.panelIn, b).index == Some(0)
    ensures |Flatten(PanelByteStep(p, s, now, b).toMain)|
            == |Flatten(s.toMain)|
               + if Consume(s.panelIn, b).index == Some(0) && Prepared(s).Some? then PANEL_SIZE else 1
  {
    JudgedOutgoing(p, s, now, b);
    ByteForwarded(p, s, now, b);
    PreparedIsFrame(s);
    FlattenSnoc(s.toMain, [b]);
    if Prepared(s).Some? {
      FlattenSnoc(s.toMain, Prepared(s).value);
    }
  }

  lemma SentLength(s: State, gs: seq<seq<Byte>>, cur: seq<Byte>, k: nat)
    requires InFrame(s, gs, cur, k) && k > 0 && forall i :: 0 <= i < |gs| ==> |gs[i]| == PANEL_SIZE
    ensures |Flatten(s.toMain)| == PANEL_SIZE * |gs| + if s.burst then PANEL_SIZE else k
  {
    FlattenLength(gs);
  }

  /** A cut frame has more sent for it than any whole frames come to. */
  lemma CutBreaks(p: Profile, s: State, now: int, input: seq<Byte>,
                  fs: seq<seq<Byte>>, gs: seq<seq<Byte>>, cur: seq<Byte>, k: nat)
    requires !p.hwForward && FramesKept(s) && Input(input, fs, cur, k)
    requires |gs| == |fs| && AllPanelFrames(gs) && InFrame(s, gs, cur, k) && !Uncut(s, k, cur[k])
    ensures !WholeFrames(input + [cur[k]], Flatten(PanelByteStep(p, s, now, cur[k]).toMain))
  {
    var sent := Flatten(PanelByteStep(p, s, now, cur[k]).toMain);
    InputPosition(input, fs, cur, k);
    CutIndex(s, cur, k);
    SentLength(s, gs, cur, k);
    AddedLength(p, s, now, cur[k]);
    TooLong(input + [cur[k]], sent, |fs|, k);
  }

  lemma TooLong(input: seq<Byte>, sent: seq<Byte>, n: nat, k: nat)
    requires 0 < k < PANEL_SIZE && |input| == PANEL_SIZE * n + k + 1
    requires |sent| - PANEL_SIZE * n in {PANEL_SIZE + 1, 2 * PANEL_SIZE, k + PANEL_SIZE}
    ensures !WholeFrames(input, sent)
  {
    assert |input| % PANEL_SIZE == if k + 1 < PANEL_SIZE then k + 1 else 0;
    if WholeFrames(input, sent) {
      WholeLengths(input, sent);
    }
  }

  lemma CutIndex(s: State, cur: seq<Byte>, k: nat)
    requires PanelFrame(cur) && k < PANEL_SIZE && Wellformed(s.panelIn) && Tracking(s, cur, k) && !Uncut(s, k, cur[k])
    ensures var index := Consume(s.panelIn, cur[k]).index;
      k > 0 && (if s.burst then index.None? || index == Some(0) else index == Some(0) && Prepared(s).Some?)
  {
    if s.panelIn == Partial(cur, k, s.panelIn.synchronized) {
      FrameStep(cur, k, s.panelIn.synchronized);
    }
  }

  /**
    The condition of atomic replacement is exact: on a stream of valid panel
    frames, everything sent is whole frames at every moment of a run if and
    only if no byte of the run cuts a frame.
  */
  lemma {:induction false} WholeExactlyWhenUncut(
      p: Profile, events: seq<Event>, fs: seq<seq<Byte>>, cur: seq<Byte>, k: nat)
    requires Regenerates(p) && Input(PanelInput(events), fs, cur, k)
    ensures AlwaysWhole(p, events) <==> AllUncut(p, events)
  {
    if AllUncut(p, events) {
      var gs := ReplacementRun(p, events, fs, cur, k);
      ProgressIsWhole(Run(p, events), PanelInput(events), fs, gs, cur, k);
    }
    if events != [] {
      var before, what := events[..|events| - 1], events[|events| - 1].what;
      if !what.PanelByte? {
        WholeExactlyWhenUncut(p, before, fs, cur, k);
      } else {
        InputBefore(PanelInput(before), what.b, fs, cur, k);
        var hs, f, j := if k > 0 then fs else fs[..|fs| - 1], if k > 0 then cur else fs[|fs| - 1],
          if k > 0 then k - 1 else PANEL_SIZE - 1;
        WholeExactlyWhenUncut(p, before, hs, f, j);
        LastByteExactly(p, events, hs, f, j);
      }
    }
  }

  lemma LastByteExactly(p: Profile, events: seq<Event>, fs: seq<seq<Byte>>, cur: seq<Byte>, k: nat)
    requires Regenerates(p) && events != [] && k < PANEL_SIZE == |cur|
    requires var before := events[..|events| - 1];
      AllUncut(p, before) ==> Input(PanelInput(before), fs, cur, k)
    requires events[|events| - 1].what == PanelByte(cur[k])
    ensures AllUncut(p, events[..|events| - 1]) && !AllUncut(p, events) ==>
              !WholeFrames(PanelInput(events), Flatten(Run(p, events).toMain))
  {
    var before := events[..|events| - 1];
    if AllUncut(p, before) && !AllUncut(p, events) {
      InputPosition(PanelInput(before), fs, cur, k);
      var s, e, _ := BeforeLast(p, events);
      var gs := ReplacementRun(p, before, fs, cur, k);
      CutBreaks(p, s, e.now, PanelInput(before), fs, gs, cur, k);
    }
  }

  /** Idle flushes of the panel stream come only between frames. */
  predicate FlushesBetween(events: seq<Event>) {
    events != [] ==>
      var n := |events| - 1;
      FlushesBetween(events[..n]) && (events[n].what == PanelIdle ==> Position(events[..n]) == 0)
  }

  lemma AlignedStep(p: Profile, s: State, e: Event, cur: seq<Byte>, k: nat)
    requires PanelFrame(cur) && k < PANEL_SIZE && s.panelIn == Partial(cur, k, s.panelIn.synchronized)
    requires e.what.PanelByte? ==> e.what.b == cur[k]
    requires e.what == PanelIdle ==> k == 0
    ensures var t := Step(p, s, e);
      if !e.what.PanelByte? then t.panelIn == s.panelIn
      else if k + 1 < PANEL_SIZE then t.panelIn == Partial(cur, k + 1, t.panelIn.synchronized)
      else t.panelIn == Flushed(t.panelIn)
  {
    if e.what.PanelByte? {
      FrameStep(cur, k, s.panelIn.synchronized);
      JudgedOutgoing(p, s, e.now, e.what.b);
    } else {
      StepKeepsToMain(p, s, e);
    }
  }

  /** With flushes only between frames the receiver follows the source stream byte by byte. */
  lemma {:induction false} AlignedRun(p: Profile, events: seq<Event>, fs: seq<seq<Byte>>, cur: seq<Byte>, k: nat)
    requires FlushesBetween(events) && Input(PanelInput(events), fs, cur, k)
    ensures Run(p, events).panelIn == Partial(cur, k, Run(p, events).panelIn.synchronized)
  {
    if events == [] {
      EmptyInput(fs, cur, k);
    } else {
      var before, e := events[..|events| - 1], events[|events| - 1];
      if !e.what.PanelByte? {
        AlignedRun(p, before, fs, cur, k);
        InputPosition(PanelInput(before), fs, cur, k);
        AlignedStep(p, Run(p, before), e, cur, k);
      } else {
        InputBefore(PanelInput(before), e.what.b, fs, cur, k);
        if k > 0 {
          AlignedRun(p, before, fs, cur, k - 1);
          AlignedStep(p, Run(p, before), e, cur, k - 1);
        } else {
          var m := |fs| - 1;
          AlignedRun(p, before, fs[..m], fs[m], PANEL_SIZE - 1);
          AlignedStep(p, Run(p, before), e, fs[m], PANEL_SIZE - 1);
        }
      }
    }
  }

  /** Flushes between frames never cut one, so atomic replacement holds for all runs that have no others. */
  lemma {:induction false} FlushesBetweenFramesAreUncut(
      p: Profile, events: seq<Event>, fs: seq<seq<Byte>>, cur: seq<Byte>, k: nat)
    requires FlushesBetween(events) && Input(PanelInput(events), fs, cur, k)
    ensures AllUncut(p, events)
  {
    if events != [] {
      var before, e := events[..|events| - 1], events[|events| - 1];
      if !e.what.PanelByte? {
        FlushesBetweenFramesAreUncut(p, before, fs, cur, k);
      } else {
        InputBefore(PanelInput(before), e.what.b, fs, cur, k);
        var hs, f, j := if k > 0 then fs else fs[..|fs| - 1], if k > 0 then cur else fs[|fs| - 1],
          if k > 0 then k - 1 else PANEL_SIZE - 1;
        FlushesBetweenFramesAreUncut(p, before, hs, f, j);
        InputPosition(PanelInput(before), hs, f, j);
        AlignedRun(p, before, hs, f, j);
        FrameStep(f, j, Run(p, before).panelIn.synchronized);
      }
    }
  }

  /** The regenerating control image: whole frames for whole frames, if the stream is flushed only between frames. */
  lemma RegeneratedImage(events: seq<Event>, fs: seq<seq<Byte>>) returns (gs: seq<seq<Byte>>)
    requires AllPanelFrames(fs) && PanelInput(events) == Flatten(fs) && FlushesBetween(events)
    ensures Flatten(Run(REGENERATED, events).toMain) == Flatten(gs) && |gs| == |fs| && AllPanelFrames(gs)
    ensures forall i :: 0 <= i < |fs| ==> InPlace(REGENERATED, events, i, fs[i], gs[i])
    ensures AlwaysWhole(REGENERATED, events)
  {
    var cur := SomeFrame();
    FlushesBetweenFramesAreUncut(REGENERATED, events, fs, cur, 0);
    gs := AtomicReplacement(REGENERATED, events, fs);
    WholeExactlyWhenUncut(REGENERATED, events, fs, cur, 0);
  }

  /**
    What a flush does to a frame whose replacement has been written: the rest of
    the source frame follows the overlay frame.
  */
  lemma FlushAfterReplacementMixes(p: Profile, s: State, idle: Event, next: Event,
                                   gs: seq<seq<Byte>>, cur: seq<Byte>, k: nat)
    requires !p.hwForward && InFrame(s, gs, cur, k) && k > 0 && s.burst && cur[k] != HEADER_0
    requires idle.what == PanelIdle && next.what == PanelByte(cur[k])
    ensures var u := Step(p, s, idle);
      && !Uncut(u, k, cur[k])
      && Flatten(Step(p, u, next).toMain) == Flatten(gs) + LastWrite(s) + [cur[k]]
  {
    var u := Step(p, s, idle);
    assert u.panelIn.buffer == [] && Consume(u.panelIn, cur[k]).index.None?;
    ByteForwarded(p, u, next.now, cur[k]);
    JudgedOutgoing(p, u, next.now, cur[k]);
    FlattenSnoc(u.toMain, [cur[k]]);
  }

  // ----- what a replacement says -----

  /** Step k makes the j-th write to the main board. */
  predicate Writes(p: Profile, events: seq<Event>, k: nat, j: nat) {
    k < |events| && |Run(p, events[..k]).toMain| == j < |Run(p, events[..k + 1]).toMain|
  }

  lemma NewWrite(p: Profile, s: State, e: Event, j: nat)
    requires FramesKept(s) && |s.toMain| <= j < |Step(p, s, e).toMain| && |Step(p, s, e).toMain[j]| == PANEL_SIZE
    ensures e.what.PanelByte? && Consume(s.panelIn, e.what.b).index == Some(0) && j == |s.toMain|
    ensures Prepared(s) == Some(Step(p, s, e).toMain[j])
  {
    if e.what.PanelByte? {
      JudgedOutgoing(p, s, e.now, e.what.b);
      ForwardedWrites(p, s, e.now, e.what.b);
    } else {
      StepKeepsToMain(p, s, e);
    }
  }

  lemma ForwardedWrites(p: Profile, s: State, now: int, b: Byte)
    ensures var t, n := Forwarded(p, s, now, b).toMain, |s.toMain|;
      t == s.toMain
      || (|t| > n && t == s.toMain + [t[n]]
          && (|t[n]| == 1 || (Consume(s.panelIn, b).index == Some(0) && Prepared(s) == Some(t[n]))))
  {
    var u := s.(panelIn := Consume(s.panelIn, b).next, lastPanelByte := now);
    assert Prepared(u) == Prepared(s);
  }

  lemma StepExtendsToMain(p: Profile, s: State, e: Event)
    ensures s.toMain <= Step(p, s, e).toMain
  {
    if e.what.PanelByte? {
      JudgedOutgoing(p, s, e.now, e.what.b);
      ForwardedWrites(p, s, e.now, e.what.b);
    } else {
      StepKeepsToMain(p, s, e);
    }
  }

  lemma {:induction false} WritesStay(p: Profile, events: seq<Event>, n: nat)
    requires n <= |events|
    ensures Run(p, events[..n]).toMain <= Run(p, events).toMain
  {
    if n == |events| {
      assert events[..n] == events;
    } else {
      var before := events[..|events| - 1];
      WritesStay(p, before, n);
      assert before[..n] == events[..n];
      StepExtendsToMain(p, Run(p, before), events[|events| - 1]);
    }
  }

  lemma {:induction false} StepOfWrite(p: Profile, events: seq<Event>, j: nat) returns (k: nat)
    requires j < |Run(p, events).toMain|
    ensures Writes(p, events, k, j)
  {
    var n := |events| - 1;
    assert events[..n + 1] == events;
    if j < |Run(p, events[..n]).toMain| {
      k := StepOfWrite(p, events[..n], j);
      assert events[..n][..k] == events[..k] && events[..n][..k + 1] == events[..k + 1];
    } else {
      k := n;
      OneWrite(p, Run(p, events[..n]), events[n]);
    }
  }

  lemma OneWrite(p: Profile, s: State, e: Event)
    ensures |Step(p, s, e).toMain| <= |s.toMain| + 1
  {
    if e.what.PanelByte? {
      JudgedOutgoing(p, s, e.now, e.what.b);
      ForwardedWrites(p, s, e.now, e.what.b);
    } else {
      StepKeepsToMain(p, s, e);
    }
  }

  /**
    Every whole frame the bridge itself writes to the main board is written at
    the first byte of a source frame with a command pending, and is the last
    valid panel state of that moment rewritten by the request in force, that is
    by the last-writer-wins reading of the commands accepted since the overlay
    was last inactive.
  */
  lemma ReplacementIsTheCommand(p: Profile, events: seq<Event>, k: nat, j: nat)
    requires Writes(p, events, k, j)
    ensures j < |Run(p, events).toMain|
    ensures |Run(p, events).toMain[j]| == PANEL_SIZE ==>
              var s, h, what := Run(p, events[..k]), SinceInactive(p, events[..k]), events[k].what;
              && what.PanelByte? && Consume(s.panelIn, what.b).index == Some(0)
              && s.overlay.active && h != [] && PanelFrame(s.report.panelRaw) && InRange(Folded(h))
              && Run(p, events).toMain[j] == PanelRewrite(s.report.panelRaw, Folded(h), s.overlay.eventPending)
  {
    var upTo, s := events[..k + 1], Run(p, events[..k]);
    WritesStay(p, events, k + 1);
    assert upTo[..k] == events[..k];
    if |Run(p, events).toMain[j]| == PANEL_SIZE {
      AlwaysFrames(p, events[..k]);
      NewWrite(p, s, events[k], j);
      DueIsCommand(p, events[..k]);
    }
  }

  lemma DueIsCommand(p: Profile, events: seq<Event>)
    requires Prepared(Run(p, events)).Some?
    ensures var s, h := Run(p, events), SinceInactive(p, events);
      && s.overlay.active && h != [] && PanelFrame(s.report.panelRaw) && InRange(Folded(h))
      && Prepared(s) == Some(PanelRewrite(s.report.panelRaw, Folded(h), s.overlay.eventPending))
  {
    AlwaysFrames(p, events);
    RequestFitsHistory(p, events);
    FoldedIsAdmissible(SinceInactive(p, events));
  }
}
