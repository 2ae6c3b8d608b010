/**
  What a frame shows of the commands accepted so far, told from its bytes and
  the history of requests alone, and that the two tests of the bridge, the
  confirmation by the main board and the echo of the panel, decide just this.
*/
module Shown {
  import opened Wire
  import opened Protocol
  import opened ControlAlgebra
  import opened Commands

  /** High half of a code byte. */
  function ModeBits(mode: Mode): Byte {
    match mode
    case FanOnly => 0x20
    case Cool => 0x30
    case Dry => 0x40
    case UnknownMode => 0x00
  }

  /** Low half of a code byte. */
  function FanBits(fan: Fan): Byte {
    match fan
    case Low => 0x01
    case ModeDefault => 0x02
    case High => 0x03
    case UnknownFan => 0x00
  }

  predicate BitIs(flags: Byte, bit: Byte, on: bool) { (flags & bit == bit) == on }

  /** The last request that set a field. */
  function Writer(h: seq<Request>, field: Field): Request
    requires Last(h, field) >= 0
  {
    h[Last(h, field)]
  }

  /** Code and flags show every field in force that both kinds of frame encode alike. */
  ghost predicate StateShows(code: Byte, flags: Byte, h: seq<Request>) {
    && (InForce(h, OfPower) ==> BitIs(flags, 0x80, Writer(h, OfPower).power))
    && (InForce(h, OfMode) ==> code & 0xF0 == ModeBits(Writer(h, OfMode).mode))
    && (InForce(h, OfFan) && code & 0xF0 == 0x30 ==> code & 0x0F == FanBits(Writer(h, OfFan).fan))
    && (InForce(h, OfQuiet) ==> BitIs(flags, 0x10, Writer(h, OfQuiet).quiet))
    && (InForce(h, OfUnits) ==> BitIs(flags, 0x08, Writer(h, OfUnits).units))
    && (InForce(h, OfTimer) ==> BitIs(flags, 0x20, Writer(h, OfTimer).timer))
  }

  /** A main frame shows a setpoint only in Cool, and the FAN code of the panel as its own. */
  ghost predicate MainShows(m: seq<Byte>, h: seq<Request>)
    requires |m| == MAIN_SIZE
  {
    && StateShows(m[4], m[5], h)
    && (InForce(h, OfSetpoint) ==> m[4] & 0xF0 == 0x30 && m[6] == Writer(h, OfSetpoint).setpoint)
    && (InForce(h, OfRaw) ==> m[4] == if Writer(h, OfRaw).raw == 0x22 then 0x21 else Writer(h, OfRaw).raw)
  }

  ghost predicate PanelShows(f: seq<Byte>, h: seq<Request>)
    requires |f| == PANEL_SIZE
  {
    && StateShows(f[4], f[5], h)
    && (InForce(h, OfSetpoint) ==> f[6] == Writer(h, OfSetpoint).setpoint)
    && (InForce(h, OfRaw) ==> f[4] == Writer(h, OfRaw).raw)
  }

  // ----- the same of one request -----

  predicate FieldsShown(code: Byte, flags: Byte, r: Request) {
    && (r.mask.power ==> BitIs(flags, 0x80, r.power))
    && (r.mask.mode ==> code & 0xF0 == ModeBits(r.mode))
    && (r.mask.fan && code & 0xF0 == 0x30 ==> code & 0x0F == FanBits(r.fan))
    && (r.mask.quiet ==> BitIs(flags, 0x10, r.quiet))
    && (r.mask.units ==> BitIs(flags, 0x08, r.units))
    && (r.mask.timer ==> BitIs(flags, 0x20, r.timer))
  }

  lemma CodeHalves(code: Byte, mode: Mode, fan: Fan)
    ensures mode != UnknownMode ==> (DecodeMode(code) == mode <==> code & 0xF0 == ModeBits(mode))
    ensures fan != UnknownFan ==> (DecodeFan(code) == fan <==> code & 0x0F == FanBits(fan))
  {
  }

  lemma FlagBits(flags: Byte)
    ensures (flags & BIT_POWER != 0) == (flags & 0x80 == 0x80)
    ensures ((flags & 0x7F) & BIT_QUIET != 0) == (flags & 0x10 == 0x10)
    ensures ((flags & 0x7F) & BIT_UNITS != 0) == (flags & 0x08 == 0x08)
    ensures ((flags & 0x7F) & BIT_TIMER != 0) == (flags & 0x20 == 0x20)
  {
  }

  predicate MainFieldsShown(m: seq<Byte>, r: Request)
    requires |m| == MAIN_SIZE
  {
    && FieldsShown(m[4], m[5], r)
    && (r.mask.setpoint ==> m[4] & 0xF0 == 0x30 && m[6] == r.setpoint)
    && (r.mask.raw ==> m[4] == if r.raw == 0x22 then 0x21 else r.raw)
  }

  predicate PanelFieldsShown(f: seq<Byte>, r: Request)
    requires |f| == PANEL_SIZE
  {
    && FieldsShown(f[4], f[5], r)
    && (r.mask.setpoint ==> f[6] == r.setpoint)
    && (r.mask.raw ==> f[4] == r.raw)
  }

  lemma ConfirmsMeans(m: seq<Byte>, r: Request)
    requires MainFrame(m) && InRange(r) && Confirms(ParseMain(m).value, r)
    ensures MainFieldsShown(m, r)
  {
    CodeHalves(m[4], r.mode, r.fan);
    CodeHalves(m[4], Cool, r.fan);
    FlagBits(m[5]);
  }

  lemma ConfirmsWhen(m: seq<Byte>, r: Request)
    requires MainFrame(m) && InRange(r) && MainFieldsShown(m, r)
    ensures Confirms(ParseMain(m).value, r)
  {
    CodeHalves(m[4], r.mode, r.fan);
    CodeHalves(m[4], Cool, r.fan);
    FlagBits(m[5]);
  }

  lemma ConfirmsFields(m: seq<Byte>, r: Request)
    requires MainFrame(m) && InRange(r)
    ensures Confirms(ParseMain(m).value, r) <==> MainFieldsShown(m, r)
  {
    if Confirms(ParseMain(m).value, r) {
      ConfirmsMeans(m, r);
    }
    if MainFieldsShown(m, r) {
      ConfirmsWhen(m, r);
    }
  }

  lemma EchoMeans(f: seq<Byte>, r: Request)
    requires PanelFrame(f) && InRange(r) && EchoMatches(ParsePanel(f).value, r)
    ensures PanelFieldsShown(f, r)
  {
    CodeHalves(f[4], r.mode, r.fan);
    CodeHalves(f[4], Cool, r.fan);
    FlagBits(f[5]);
  }

  lemma EchoWhen(f: seq<Byte>, r: Request)
    requires PanelFrame(f) && InRange(r) && PanelFieldsShown(f, r)
    ensures EchoMatches(ParsePanel(f).value, r)
  {
    CodeHalves(f[4], r.mode, r.fan);
    CodeHalves(f[4], Cool, r.fan);
    FlagBits(f[5]);
  }

  lemma EchoFields(f: seq<Byte>, r: Request)
    requires PanelFrame(f) && InRange(r)
    ensures EchoMatches(ParsePanel(f).value, r) <==> PanelFieldsShown(f, r)
  {
    if EchoMatches(ParsePanel(f).value, r) {
      EchoMeans(f, r);
    }
    if PanelFieldsShown(f, r) {
      EchoWhen(f, r);
    }
  }

  // ----- of a whole history -----

  lemma FoldedField(h: seq<Request>, field: Field)
    ensures Sets(Folded(h), field) <==> InForce(h, field)
    ensures InForce(h, field) ==> SameValue(Folded(h), Writer(h, field), field)
  {
    FoldIsLastWriterWins(h);
  }

  lemma FieldsOfHistory(code: Byte, flags: Byte, h: seq<Request>)
    ensures FieldsShown(code, flags, Folded(h)) <==> StateShows(code, flags, h)
  {
    FoldedField(h, OfPower);
    FoldedField(h, OfMode);
    FoldedField(h, OfFan);
    FoldedField(h, OfQuiet);
    FoldedField(h, OfUnits);
    FoldedField(h, OfTimer);
  }

  /** A main frame confirms the fold of a history exactly when it shows everything in force. */
  lemma ConfirmsExactly(m: seq<Byte>, h: seq<Request>)
    requires MainFrame(m) && InRange(Folded(h))
    ensures Confirms(ParseMain(m).value, Folded(h)) <==> MainShows(m, h)
  {
    ConfirmsFields(m, Folded(h));
    FieldsOfHistory(m[4], m[5], h);
    FoldedField(h, OfSetpoint);
    FoldedField(h, OfRaw);
  }

  /** A panel frame is an echo of it exactly when it contradicts nothing in force. */
  lemma EchoesExactly(f: seq<Byte>, h: seq<Request>)
    requires PanelFrame(f) && InRange(Folded(h))
    ensures EchoMatches(ParsePanel(f).value, Folded(h)) <==> PanelShows(f, h)
  {
    EchoFields(f, Folded(h));
    FieldsOfHistory(f[4], f[5], h);
    FoldedField(h, OfSetpoint);
    FoldedField(h, OfRaw);
  }
}
