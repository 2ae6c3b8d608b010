/**
  How queued commands accumulate in the pending overlay: each new request is
  merged field by field over the pending one.
*/
module Commands {
  import opened Wire
  import opened Protocol
  import opened ControlAlgebra

  /** The pending request after one more request has been queued over it. */
  function Merge(pending: Request, r: Request): Request {
    Request(
      Mask(pending.mask.power || r.mask.power,
           pending.mask.setpoint || r.mask.setpoint,
           r.mask.mode || (pending.mask.mode && !r.mask.raw),
           r.mask.fan || (pending.mask.fan && !r.mask.raw),
           r.mask.raw || (pending.mask.raw && !r.mask.mode && !r.mask.fan),
           pending.mask.quiet || r.mask.quiet,
           pending.mask.units || r.mask.units,
           pending.mask.timer || r.mask.timer),
      if r.mask.power then r.power else pending.power,
      if r.mask.setpoint then r.setpoint else pending.setpoint,
      if r.mask.mode then r.mode else pending.mode,
      if r.mask.fan then r.fan else pending.fan,
      if r.mask.raw then r.raw else pending.raw,
      if r.mask.quiet then r.quiet else pending.quiet,
      if r.mask.units then r.units else pending.units,
      if r.mask.timer then r.timer else pending.timer)
  }

  /** Requests queued one after the other over an initially empty overlay. */
  function Folded(history: seq<Request>): Request {
    if history == [] then EMPTY_REQUEST
    else Merge(Folded(history[..|history| - 1]), history[|history| - 1])
  }

  datatype Field = OfPower | OfSetpoint | OfMode | OfFan | OfRaw | OfQuiet | OfUnits | OfTimer

  predicate Sets(r: Request, field: Field) {
    match field
    case OfPower => r.mask.power
    case OfSetpoint => r.mask.setpoint
    case OfMode => r.mask.mode
    case OfFan => r.mask.fan
    case OfRaw => r.mask.raw
    case OfQuiet => r.mask.quiet
    case OfUnits => r.mask.units
    case OfTimer => r.mask.timer
  }

  predicate SameValue(a: Request, b: Request, field: Field) {
    match field
    case OfPower => a.power == b.power
    case OfSetpoint => a.setpoint == b.setpoint
    case OfMode => a.mode == b.mode
    case OfFan => a.fan == b.fan
    case OfRaw => a.raw == b.raw
    case OfQuiet => a.quiet == b.quiet
    case OfUnits => a.units == b.units
    case OfTimer => a.timer == b.timer
  }

  /** Index of the last request that sets a field, -1 when none does. */
  function Last(h: seq<Request>, field: Field): (i: int)
    ensures -1 <= i < |h|
    ensures i >= 0 ==> Sets(h[i], field)
    ensures forall j :: i < j < |h| ==> !Sets(h[j], field)
  {
    if h == [] then -1
    else if Sets(h[|h| - 1], field) then |h| - 1
    else Last(h[..|h| - 1], field)
  }

  /** Is the last request that set the field still in force, or has a later one retired it? */
  predicate InForce(h: seq<Request>, field: Field) {
    && Last(h, field) >= 0
    && match field
       case OfMode => Last(h, OfMode) >= Last(h, OfRaw)
       case OfFan => Last(h, OfFan) >= Last(h, OfRaw)
       case OfRaw => Last(h, OfRaw) >= Last(h, OfMode) && Last(h, OfRaw) >= Last(h, OfFan)
       case _ => true
  }

  /**
    e is the last-writer-wins reading of the history: a field is set exactly
    when its last writer is in force, and then holds that writer's value. A
    raw code retires earlier modes and fans; a mode or a fan retires earlier
    raw codes.
  */
  ghost predicate LastWriterWins(e: Request, h: seq<Request>) {
    && (forall field :: Sets(e, field) <==> InForce(h, field))
    && (forall field :: Last(h, field) >= 0 ==> SameValue(e, h[Last(h, field)], field))
  }

  lemma MergeField(pending: Request, r: Request, field: Field)
    ensures SameValue(Merge(pending, r), if Sets(r, field) then r else pending, field)
    ensures Sets(Merge(pending, r), field) <==>
              (Sets(r, field)
               || (Sets(pending, field)
                   && match field
                      case OfMode => !r.mask.raw
                      case OfFan => !r.mask.raw
                      case OfRaw => !r.mask.mode && !r.mask.fan
                      case _ => true))
  {
  }

  /** Merging request after request computes the last-writer-wins reading of all of them. */
  lemma {:induction false} FoldIsLastWriterWins(h: seq<Request>)
    ensures LastWriterWins(Folded(h), h)
  {
    if h != [] {
      var init, r := h[..|h| - 1], h[|h| - 1];
      FoldIsLastWriterWins(init);
      forall field
        ensures Sets(Folded(h), field) <==> InForce(h, field)
        ensures Last(h, field) >= 0 ==> SameValue(Folded(h), h[Last(h, field)], field)
      {
        MergeField(Folded(init), r, field);
        assert Sets(Folded(init), field) <==> InForce(init, field);
        assert Last(h, OfRaw) == if Sets(r, OfRaw) then |h| - 1 else Last(init, OfRaw);
        assert Last(h, OfMode) == if Sets(r, OfMode) then |h| - 1 else Last(init, OfMode);
        assert Last(h, OfFan) == if Sets(r, OfFan) then |h| - 1 else Last(init, OfFan);
      }
    }
  }

  /** What the queue admits: in range and without the read-only timer bit. */
  predicate Admissible(r: Request) {
    r.mask != NO_BITS && InRange(r) && !r.mask.timer
  }

  /**
    A pending request built from admissible requests is in range, never asks
    for the timer, asks for something, and mixes a raw code with a mode or a
    fan only when a single one of the requests already did.
  */
  lemma FoldedIsAdmissible(h: seq<Request>)
    requires h != [] && forall i :: 0 <= i < |h| ==> Admissible(h[i])
    ensures Admissible(Folded(h))
    ensures Folded(h).mask.raw && Folded(h).mask.mode ==>
              exists i :: 0 <= i < |h| && h[i].mask.raw && h[i].mask.mode
    ensures Folded(h).mask.raw && Folded(h).mask.fan ==>
              exists i :: 0 <= i < |h| && h[i].mask.raw && h[i].mask.fan
  {
    FoldIsLastWriterWins(h);
    var e, n := Folded(h), |h| - 1;
    assert Sets(e, OfSetpoint) <==> InForce(h, OfSetpoint);
    assert Sets(e, OfMode) <==> InForce(h, OfMode);
    assert Sets(e, OfFan) <==> InForce(h, OfFan);
    assert Sets(e, OfRaw) <==> InForce(h, OfRaw);
    assert Sets(e, OfTimer) <==> InForce(h, OfTimer);
    LastRequestCounts(Folded(h[..n]), h[n]);
  }

  lemma LastRequestCounts(pending: Request, r: Request)
    requires r.mask != NO_BITS
    ensures Merge(pending, r).mask != NO_BITS
  {
  }

  /** A pending setpoint over which another mode than Cool is queued can no longer be confirmed by any frame. */
  lemma SetpointThenOtherModeNeverConfirms(h: seq<Request>, r: Request, m: seq<Byte>)
    requires Last(h, OfSetpoint) >= 0 && r.mask.mode && r.mode != Cool && MainFrame(m)
    ensures !Confirms(ParseMain(m).value, Folded(h + [r]))
  {
    assert (h + [r])[..|h|] == h;
    FoldIsLastWriterWins(h);
    assert Sets(Folded(h), OfSetpoint) <==> InForce(h, OfSetpoint);
  }

  /**
    What a request queued over a confirmable one must be for the merge to be
    confirmable: consistent in itself, Cool in every mode it gives if a setpoint
    is asked for before or now, and not a setpoint over a pending other mode
    that it leaves in force.
  */
  predicate StaysConfirmable(pending: Request, r: Request) {
    && RawConsistent(r)
    && (pending.mask.setpoint || r.mask.setpoint ==>
          (r.mask.mode ==> r.mode == Cool) && (r.mask.raw ==> DecodeMode(r.raw) == Cool))
    && (r.mask.setpoint && !r.mask.mode && !r.mask.raw ==>
          && (pending.mask.mode ==> pending.mode == Cool)
          && (!r.mask.fan && pending.mask.raw ==> DecodeMode(pending.raw) == Cool))
  }

  /** Over a confirmable pending request the merge is confirmable exactly then. */
  lemma MergeConfirmableExactly(pending: Request, r: Request)
    requires Confirmable(pending)
    ensures Confirmable(Merge(pending, r)) <==> StaysConfirmable(pending, r)
  {
  }

  const MODE_DRY := EMPTY_REQUEST.(mask := NO_BITS.(mode := true), mode := Dry)
  const RAW_DRY := EMPTY_REQUEST.(mask := NO_BITS.(raw := true), raw := 0x43)

  function ToSetpoint(c: Byte): Request { EMPTY_REQUEST.(mask := NO_BITS.(setpoint := true), setpoint := c) }

  /** Dry is pending, then a setpoint is asked for. */
  lemma DryThenSetpointUnconfirmable(c: Byte)
    ensures Confirmable(Folded([MODE_DRY])) && Confirmable(ToSetpoint(c))
    ensures !Confirmable(Folded([MODE_DRY, ToSetpoint(c)]))
  {
    FoldedPair(MODE_DRY, ToSetpoint(c));
  }

  /** A setpoint is pending, then a raw code that spells Dry is sent. */
  lemma SetpointThenRawUnconfirmable(c: Byte)
    ensures Confirmable(Folded([ToSetpoint(c)])) && Confirmable(RAW_DRY)
    ensures !Confirmable(Folded([ToSetpoint(c), RAW_DRY]))
  {
    FoldedPair(ToSetpoint(c), RAW_DRY);
  }

  lemma FoldedPair(first: Request, second: Request)
    ensures Folded([first]) == Merge(EMPTY_REQUEST, first)
    ensures Folded([first, second]) == Merge(Merge(EMPTY_REQUEST, first), second)
  {
    assert [first, second][..1] == [first] && [first][..0] == [];
  }

  // ----- merging is not sequencing -----

  const COLD_START: Byte := 0x31

  /** Fan the Cool code keeps: anything but High counts as Low. */
  function CoolFan(fan: Fan): Fan { if fan == High then High else Low }

  predicate TurnsOn(r: Request) { r.mask.power && r.power }

  predicate TurnsOff(r: Request) { r.mask.power && !r.power }

  /** Mode a panel is left in that showed the given code when the request was applied. */
  function ModeLeft(code: Byte, r: Request): Mode {
    if r.mask.raw then DecodeMode(r.raw) else if r.mask.mode then r.mode else DecodeMode(code)
  }

  /** Fan it is left with, as Cool would read it. */
  function FanLeft(code: Byte, r: Request): Fan {
    if r.mask.raw then CoolFan(DecodeFan(r.raw))
    else if !r.mask.mode && !r.mask.fan then CoolFan(DecodeFan(code))
    else
      match ModeLeft(code, r)
      case Dry => High
      case FanOnly => Low
      case Cool => CoolFan(if r.mask.fan then r.fan else DecodeFan(code))
      case UnknownMode => CoolFan(DecodeFan(code))
  }

  /**
    Two requests applied in turn from code a leave the same code as their merge
    applied to code b. Told by what the second request names: a raw code settles
    everything, a mode other than Cool or a mode with a fan too; Cool without a
    fan depends on the fan the first left, a fan alone on the mode it left, and
    a second request that names none of them leaves it to the first.
  */
  predicate SameCode(a: Byte, b: Byte, first: Request, second: Request) {
    if second.mask.raw then true
    else if second.mask.mode then
      second.mode == Cool && !second.mask.fan ==>
        FanLeft(a, first) == CoolFan(if first.mask.fan then first.fan else DecodeFan(b))
    else if second.mask.fan then
      && ModeLeft(a, first) == (if first.mask.mode then first.mode else DecodeMode(b))
      && (ModeLeft(a, first) == UnknownMode ==> (if first.mask.raw then first.raw else a) == b)
    else if first.mask.raw then true
    else if !first.mask.mode && !first.mask.fan then a == b
    else
      && ModeLeft(a, first) == ModeLeft(b, first)
      && (ModeLeft(a, first) == Cool && !first.mask.fan ==> CoolFan(DecodeFan(a)) == CoolFan(DecodeFan(b)))
      && (ModeLeft(a, first) == UnknownMode ==> a == b)
  }

  /** The second request starts the panel afresh, so what the first asked for must not show in the merge. */
  predicate NothingOutlivesStart(first: Request, second: Request) {
    if second.mask.raw then true
    else if second.mask.mode then second.mode == Cool && !second.mask.fan && first.mask.fan ==> first.fan != High
    else if second.mask.fan then first.mask.mode ==> first.mode == Cool
    else if first.mask.raw then first.raw == COLD_START
    else (first.mask.mode ==> first.mode == Cool) && (first.mask.fan ==> first.fan != High)
  }

  /**
    When the merge of two requests does what sending them in turn does, on a
    panel showing this code and temperature. A panel without a remembered
    setpoint adds the question which of the two, and the merge, cold-starts it.
  */
  predicate MergeIsSequence(code: Byte, temperature: Byte, first: Request, second: Request) {
    if ValidSetpoint(temperature) || (!TurnsOn(first) && !TurnsOn(second)) then SameCode(code, code, first, second)
    else if TurnsOn(first) && TurnsOff(second) then
      (first.mask.setpoint || second.mask.setpoint) && SameCode(COLD_START, code, first, second)
    else if TurnsOn(first) then SameCode(COLD_START, COLD_START, first, second)
    else if first.mask.setpoint then SameCode(code, COLD_START, first, second)
    else NothingOutlivesStart(first, second)
  }

  /**
    On every valid panel frame, sending the merge of two requests gives the
    frame that sending them one after the other gives exactly when the stated
    condition on code, remembered temperature and the two requests holds.
  */
  lemma MergeEqualsSequenceExactly(f: seq<Byte>, first: Request, second: Request, event: bool)
    requires PanelFrame(f) && InRange(first) && InRange(second)
    ensures PanelFrame(PanelRewrite(f, first, event)) && InRange(Merge(first, second))
    ensures PanelRewrite(PanelRewrite(f, first, event), second, event)
            == PanelRewrite(f, Merge(first, second), event)
            <==> MergeIsSequence(f[4], f[6], first, second)
  {
    var g := PanelRewrite(f, first, event);
    PanelRewriteShape(f, first, event);
    EditsAreEdited(f, first, event);
    EditsAreEdited(g, second, event);
    EditsAreEdited(f, Merge(first, second), event);
    var steps, merged := PanelEdits(g, second, event), PanelEdits(f, Merge(first, second), event);
    EditsAgree(f, g, steps, merged, first, second, event);
    SameFrameExactly(steps, merged);
  }

  /** e is frame f with the request's values written in, but for the check byte. */
  predicate Edited(e: seq<Byte>, f: seq<Byte>, r: Request, event: bool) {
    && |e| == |f| == PANEL_SIZE
    && e[3] == Marker(event)
    && e[4] == NewPanelCode(f[4], f[6], r)
    && e[5] == NewFlags(f[5], r)
    && e[6] == NewTemperature(f[6], r)
    && e[9] == NewEncoded(f[9], f[6], r)
    && forall k :: 0 <= k < PANEL_SIZE - 1 && k !in {3, 4, 5, 6, 9} ==> e[k] == f[k]
  }

  lemma EditsAreEdited(f: seq<Byte>, r: Request, event: bool)
    requires |f| == PANEL_SIZE
    ensures Edited(PanelEdits(f, r, event), f, r, event)
  {
  }

  /** Byte by byte, what the second step and the merge write. */
  lemma EditsAgree(f: seq<Byte>, g: seq<Byte>, steps: seq<Byte>, merged: seq<Byte>,
                   first: Request, second: Request, event: bool)
    requires PanelFrame(f) && InRange(first) && InRange(second) && Edited(g, f, first, event)
    requires Edited(steps, g, second, event) && Edited(merged, f, Merge(first, second), event)
    ensures KnownSize(steps) && KnownSize(merged)
    ensures forall k :: 0 <= k < PANEL_SIZE - 1 && k !in {4, 6, 9} ==> steps[k] == merged[k]
    ensures steps[4] == merged[4] && steps[6] == merged[6] && steps[9] == merged[9] <==>
              MergeIsSequence(f[4], f[6], first, second)
  {
    MergedFlags(f[5], first, second);
    MergedTemperature(f[9], f[6], first, second);
    if !StartLost(f[6], first, second) {
      MergedCode(f[4], f[6], first, second);
    }
  }

  lemma SameFrameExactly(a: seq<Byte>, b: seq<Byte>)
    requires |a| == |b| == PANEL_SIZE && KnownSize(a) && KnownSize(b)
    requires forall k :: 0 <= k < PANEL_SIZE - 1 && k !in {4, 6, 9} ==> a[k] == b[k]
    ensures Finalized(a) == Finalized(b) <==> a[4] == b[4] && a[6] == b[6] && a[9] == b[9]
  {
    FinalizedIsValid(a);
    FinalizedIsValid(b);
    assert forall k :: 0 <= k < PANEL_SIZE - 1 ==> Finalized(a)[..PANEL_SIZE - 1][k] == a[k];
    assert forall k :: 0 <= k < PANEL_SIZE - 1 ==> Finalized(b)[..PANEL_SIZE - 1][k] == b[k];
    if a[4] == b[4] && a[6] == b[6] && a[9] == b[9] {
      assert a[..PANEL_SIZE - 1] == b[..PANEL_SIZE - 1];
      SameBodySameFrame(a, b);
    }
  }

  lemma SameBodySameFrame(a: seq<Byte>, b: seq<Byte>)
    requires |a| == |b| && |a| > 3 && a[..|a| - 1] == b[..|b| - 1]
    requires KnownSize(a)
    ensures Finalized(a) == Finalized(b)
  {
    assert a[2] == a[..|a| - 1][2] == b[2];
    FinalizedIsValid(a);
    FinalizedIsValid(b);
    assert Finalized(a)[|a| - 1] == Finalized(b)[|a| - 1];
    assert Finalized(a) == Finalized(a)[..|a| - 1] + [Finalized(a)[|a| - 1]];
    assert Finalized(b) == Finalized(b)[..|a| - 1] + [Finalized(b)[|a| - 1]];
  }

  lemma MergedFlags(flags: Byte, first: Request, second: Request)
    ensures NewFlags(NewFlags(flags, first), second) == NewFlags(flags, Merge(first, second))
  {
    var a := NewFlags(flags, first);
    FlagsPreserveUnasked(flags, first);
    FlagsPreserveUnasked(a, second);
    FlagsPreserveUnasked(flags, Merge(first, second));
    FlagsCompose(flags, a, NewFlags(a, second), NewFlags(flags, Merge(first, second)), first, second);
  }

  lemma FlagsCompose(flags: Byte, a: Byte, b: Byte, c: Byte, first: Request, second: Request)
    requires FlagsAre(a, flags, first) && FlagsAre(b, a, second)
    requires FlagsAre(c, flags, Merge(first, second))
    ensures b == c
  {
    BitsDetermine(b, c);
  }

  lemma BitsDetermine(b: Byte, c: Byte)
    requires b & 0x47 == c & 0x47 && b & BIT_POWER == c & BIT_POWER && b & BIT_QUIET == c & BIT_QUIET
    requires b & BIT_UNITS == c & BIT_UNITS && b & BIT_TIMER == c & BIT_TIMER
    ensures b == c
  {
  }

  /** Temperature and companion byte agree unless the first request cold-starts the panel and the merge does not. */
  lemma MergedTemperature(encoded: Byte, temperature: Byte, first: Request, second: Request)
    requires InRange(first) && InRange(second)
    ensures var both := Merge(first, second);
      var t := NewTemperature(temperature, first);
      && (NewTemperature(t, second) == NewTemperature(temperature, both) <==> !StartLost(temperature, first, second))
      && (NewTemperature(t, second) == NewTemperature(temperature, both) ==>
          NewEncoded(NewEncoded(encoded, temperature, first), t, second) == NewEncoded(encoded, temperature, both))
  {
  }

  /** What a request makes of a code once a cold start has been allowed for. */
  function Settled(code: Byte, r: Request): Byte {
    if TouchesCode(r) then RequestedCode(code, DecodeMode(code), DecodeFan(code), r) else code
  }

  lemma LeftBehind(code: Byte, r: Request)
    requires InRange(r)
    ensures DecodeMode(Settled(code, r)) == ModeLeft(code, r)
    ensures CoolFan(DecodeFan(Settled(code, r))) == FanLeft(code, r)
    ensures ModeLeft(code, r) == UnknownMode ==> Settled(code, r) == if r.mask.raw then r.raw else code
  {
  }

  /** Two settled codes are the same exactly when mode, fan where Cool, and code where unknown are. */
  lemma SettledExactly(x: Byte, r: Request, y: Byte, q: Request)
    requires InRange(r) && InRange(q) && TouchesCode(r) && TouchesCode(q) && !r.mask.raw && !q.mask.raw
    ensures Settled(x, r) == Settled(y, q) <==>
              && ModeLeft(x, r) == ModeLeft(y, q)
              && (ModeLeft(x, r) == Cool ==>
                    CoolFan(if r.mask.fan then r.fan else DecodeFan(x))
                    == CoolFan(if q.mask.fan then q.fan else DecodeFan(y)))
              && (ModeLeft(x, r) == UnknownMode ==> x == y)
  {
    LeftBehind(x, r);
    LeftBehind(y, q);
  }

  lemma SameCodeExactly(a: Byte, b: Byte, first: Request, second: Request)
    requires InRange(first) && InRange(second)
    ensures Settled(Settled(a, first), second) == Settled(b, Merge(first, second)) <==> SameCode(a, b, first, second)
  {
    var both := Merge(first, second);
    LeftBehind(a, first);
    if !second.mask.raw && TouchesCode(second) {
      SettledExactly(Settled(a, first), second, b, both);
    } else if !second.mask.raw && !first.mask.raw && TouchesCode(first) {
      SettledExactly(a, first, b, both);
    }
  }

  lemma StartExactly(first: Request, second: Request)
    requires InRange(first) && InRange(second)
    ensures Settled(COLD_START, second) == Settled(COLD_START, Merge(first, second)) <==>
              NothingOutlivesStart(first, second)
  {
    var both := Merge(first, second);
    if !second.mask.raw && TouchesCode(second) {
      SettledExactly(COLD_START, second, COLD_START, both);
    } else {
      LeftBehind(COLD_START, both);
    }
  }

  /** The one case in which the temperature already tells merge and sequence apart. */
  predicate StartLost(temperature: Byte, first: Request, second: Request) {
    !ValidSetpoint(temperature) && TurnsOn(first) && TurnsOff(second)
    && !first.mask.setpoint && !second.mask.setpoint
  }

  lemma CodeSettles(code: Byte, temperature: Byte, r: Request)
    ensures NewPanelCode(code, temperature, r) == Settled(BaseCode(code, temperature, r), r)
  {
  }

  /** The codes the two steps and the merge start from. */
  lemma Starts(code: Byte, temperature: Byte, first: Request, second: Request)
    requires InRange(first)
    ensures var t := NewTemperature(temperature, first);
      && (BaseCode(code, temperature, first) ==
          if !ValidSetpoint(temperature) && TurnsOn(first) then COLD_START else code)
      && (BaseCode(code, temperature, Merge(first, second)) ==
          if !ValidSetpoint(temperature) && (TurnsOn(second) || (TurnsOn(first) && !TurnsOff(second)))
          then COLD_START else code)
      && forall c :: BaseCode(c, t, second) ==
          if !ValidSetpoint(temperature) && TurnsOn(second) && !TurnsOn(first) && !first.mask.setpoint
          then COLD_START else c
  {
  }

  lemma MergedCode(code: Byte, temperature: Byte, first: Request, second: Request)
    requires InRange(first) && InRange(second) && !StartLost(temperature, first, second)
    ensures NewPanelCode(NewPanelCode(code, temperature, first), NewTemperature(temperature, first), second)
            == NewPanelCode(code, temperature, Merge(first, second))
            <==> MergeIsSequence(code, temperature, first, second)
  {
    var t, c := NewTemperature(temperature, first), NewPanelCode(code, temperature, first);
    Starts(code, temperature, first, second);
    CodeSettles(code, temperature, first);
    CodeSettles(c, t, second);
    CodeSettles(code, temperature, Merge(first, second));
    if ValidSetpoint(temperature) || (!TurnsOn(first) && !TurnsOn(second)) {
      SameCodeExactly(code, code, first, second);
    } else if TurnsOn(first) && TurnsOff(second) {
      SameCodeExactly(COLD_START, code, first, second);
    } else if TurnsOn(first) {
      SameCodeExactly(COLD_START, COLD_START, first, second);
    } else if first.mask.setpoint {
      SameCodeExactly(code, COLD_START, first, second);
    } else {
      StartExactly(first, second);
    }
  }

  // ----- where merging goes wrong -----

  const POWER_ON := EMPTY_REQUEST.(mask := NO_BITS.(power := true), power := true)
  const POWER_OFF := EMPTY_REQUEST.(mask := NO_BITS.(power := true), power := false)
  const FAN_LOW := EMPTY_REQUEST.(mask := NO_BITS.(fan := true), fan := Low)
  const MODE_COOL := EMPTY_REQUEST.(mask := NO_BITS.(mode := true), mode := Cool)
  const RAW_HIGH := EMPTY_REQUEST.(mask := NO_BITS.(raw := true), raw := 0x33)

  function InTurn(f: seq<Byte>, first: Request, second: Request, event: bool): seq<Byte>
    requires |f| == PANEL_SIZE && |PanelRewrite(f, first, event)| == PANEL_SIZE
  {
    PanelRewrite(PanelRewrite(f, first, event), second, event)
  }

  /** A cold panel turned on and off again is left cold-started by the sequence, untouched by the merge. */
  lemma OnThenOffDiffers(f: seq<Byte>, event: bool)
    requires PanelFrame(f) && !ValidSetpoint(f[6])
    ensures InRange(POWER_ON) && InRange(POWER_OFF) && PanelFrame(PanelRewrite(f, POWER_ON, event))
    ensures InTurn(f, POWER_ON, POWER_OFF, event) != PanelRewrite(f, Merge(POWER_ON, POWER_OFF), event)
  {
    MergeEqualsSequenceExactly(f, POWER_ON, POWER_OFF, event);
  }

  /** A setpoint makes a cold panel warm, so turning it on afterwards keeps its code; the merge restarts it. */
  lemma SetpointThenOnDiffers(f: seq<Byte>, c: Byte, event: bool)
    requires PanelFrame(f) && !ValidSetpoint(f[6]) && ValidSetpoint(c)
    ensures InRange(ToSetpoint(c)) && PanelFrame(PanelRewrite(f, ToSetpoint(c), event))
    ensures InTurn(f, ToSetpoint(c), POWER_ON, event) == PanelRewrite(f, Merge(ToSetpoint(c), POWER_ON), event)
            <==> f[4] == COLD_START
  {
    MergeEqualsSequenceExactly(f, ToSetpoint(c), POWER_ON, event);
  }

  /** A fan queued over a raw code drops the raw code from the merge, not from the sequence. */
  lemma RawThenFanDiffers(f: seq<Byte>, event: bool)
    requires PanelFrame(f) && ValidSetpoint(f[6]) && DecodeMode(f[4]) == Dry
    ensures InRange(RAW_HIGH) && InRange(FAN_LOW) && PanelFrame(PanelRewrite(f, RAW_HIGH, event))
    ensures InTurn(f, RAW_HIGH, FAN_LOW, event) != PanelRewrite(f, Merge(RAW_HIGH, FAN_LOW), event)
  {
    MergeEqualsSequenceExactly(f, RAW_HIGH, FAN_LOW, event);
  }

  /** A fan set in Dry is forgotten by the panel, but not by the merge that then asks for Cool. */
  lemma FanThenCoolDiffers(f: seq<Byte>, event: bool)
    requires PanelFrame(f) && ValidSetpoint(f[6]) && DecodeMode(f[4]) == Dry
    ensures InRange(FAN_LOW) && InRange(MODE_COOL) && PanelFrame(PanelRewrite(f, FAN_LOW, event))
    ensures InTurn(f, FAN_LOW, MODE_COOL, event) != PanelRewrite(f, Merge(FAN_LOW, MODE_COOL), event)
  {
    MergeEqualsSequenceExactly(f, FAN_LOW, MODE_COOL, event);
  }
}
