/**
  Laws of the two command rewriters, the bench acknowledgement and the two
  tests (panel echo, main-board confirmation) that decide a command's fate.
*/
module ControlAlgebra {
  import opened Wire
  import opened Protocol

  /** Does a parsed main-board frame satisfy every requested field? */
  function Confirms(m: MainState, r: Request): bool {
    && (r.mask.power ==> m.power == r.power)
    && (r.mask.setpoint ==> m.mode == Cool && m.temperature == r.setpoint)
    && (r.mask.mode ==> m.mode == r.mode)
    && (r.mask.fan && m.mode == Cool ==> m.fan == r.fan)
    && (r.mask.raw ==> m.code == PanelToMainCode(r.raw))
    && (r.mask.quiet ==> (m.features & BIT_QUIET != 0) == r.quiet)
    && (r.mask.units ==> (m.features & BIT_UNITS != 0) == r.units)
    && (r.mask.timer ==> (m.features & BIT_TIMER != 0) == r.timer)
  }

  /** Does a parsed panel frame show what was requested (so that it is an echo, not a user action)? */
  function EchoMatches(p: PanelState, r: Request): bool {
    && (r.mask.power ==> p.power == r.power)
    && (r.mask.setpoint ==> p.setpoint == r.setpoint)
    && (r.mask.mode ==> p.mode == r.mode)
    && (r.mask.fan && p.mode == Cool ==> p.fan == r.fan)
    && (r.mask.raw ==> p.code == r.raw)
    && (r.mask.quiet ==> (p.features & BIT_QUIET != 0) == r.quiet)
    && (r.mask.units ==> (p.features & BIT_UNITS != 0) == r.units)
    && (r.mask.timer ==> (p.features & BIT_TIMER != 0) == r.timer)
  }

  // ----- bench acknowledgement -----

  predicate MainShaped(m: seq<Byte>) {
    |m| == MAIN_SIZE && m[0] == HEADER_0 && m[1] == HEADER_1 && m[2] == MAIN_BODY
  }

  function Operation(flags: Byte): Byte { if flags & BIT_POWER != 0 then 0x02 else 0x00 }

  function AckEdits(m: seq<Byte>, p: seq<Byte>): seq<Byte>
    requires |m| == MAIN_SIZE && |p| == PANEL_SIZE
  {
    m[3 := p[3]][4 := PanelToMainCode(p[4])][5 := p[5]][6 := p[6]][8 := Operation(p[5])][14 := p[9]]
  }

  function Ack(m: seq<Byte>, p: seq<Byte>): seq<Byte>
    requires |m| == MAIN_SIZE && |p| == PANEL_SIZE
  {
    Finalized(AckEdits(m, p))
  }

  /** The next reply: it follows the last panel frame, if that is valid. */
  function Replied(m: seq<Byte>, panelValid: bool, panel: seq<Byte>): seq<Byte>
    requires |m| == MAIN_SIZE && |panel| == PANEL_SIZE
  {
    if panelValid && ChecksumValid(panel) then Ack(m, panel) else m
  }

  /** The reply buffer of the bench emulator, updated in place from the last panel frame. */
  method Acknowledge(reply: array<Byte>, panelValid: bool, panel: seq<Byte>)
    requires reply.Length == MAIN_SIZE && |panel| == PANEL_SIZE
    modifies reply
    ensures reply[..] == Replied(old(reply[..]), panelValid, panel)
  {
    if panelValid && ChecksumValid(panel) {
      reply[3] := panel[3];
      reply[4] := PanelToMainCode(panel[4]);
      reply[5] := panel[5];
      reply[6] := panel[6];
      reply[8] := if panel[5] & 0x80 != 0 then 0x02 else 0x00;
      reply[14] := panel[9];
      assert reply[..] == AckEdits(old(reply[..]), panel);
      Finalize(reply);
    }
  }

  lemma AckIsMainFrame(m: seq<Byte>, p: seq<Byte>)
    requires MainShaped(m) && |p| == PANEL_SIZE
    ensures MainFrame(Ack(m, p))
    ensures forall k :: 0 <= k < MAIN_SIZE - 1 ==> Ack(m, p)[k] == AckEdits(m, p)[k]
  {
    var e := AckEdits(m, p);
    FinalizedIsValid(e);
    assert forall k :: 0 <= k < MAIN_SIZE - 1 ==> Ack(m, p)[k] == Ack(m, p)[..MAIN_SIZE - 1][k];
  }

  /**
    The reply tells the main board's side of the panel's state: marker, flags and
    both temperature bytes as sent, the FAN code as the main board's, operation 2
    with the power on and 0 with it off, and everything else as before. Only a
    panel frame that was heard and whose bytes cancel to 0x10 is followed.
  */
  lemma ReplyFollowsPanel(m: seq<Byte>, panelValid: bool, p: seq<Byte>)
    requires MainShaped(m) && |p| == PANEL_SIZE && p[2] == PANEL_BODY
    ensures var reply := Replied(m, panelValid, p);
      if !panelValid || Xor(p) != 0x10 then reply == m
      else
        && MainFrame(reply)
        && reply[3] == p[3] && reply[4] == (if p[4] == 0x22 then 0x21 else p[4]) && reply[5] == p[5]
        && reply[6] == p[6] && reply[14] == p[9]
        && reply[8] == (if p[5] & 0x80 == 0x80 then 0x02 else 0x00)
        && (forall k :: 0 <= k < MAIN_SIZE - 1 && k !in {3, 4, 5, 6, 8, 14} ==> reply[k] == m[k])
  {
    AckIsMainFrame(m, p);
    PowerTest(p[5]);
  }

  lemma PowerTest(flags: Byte)
    ensures (flags & BIT_POWER != 0) == (flags & 0x80 == 0x80)
  {
  }

  // ----- rewriters: shape, frame condition, idempotence -----

  /** A rewritten panel frame is a valid panel frame; only bytes 3, 4, 5, 6, 9 and the check byte may differ. */
  lemma PanelRewriteShape(f: seq<Byte>, r: Request, event: bool)
    requires PanelFrame(f)
    ensures var g := PanelRewrite(f, r, event);
      && PanelFrame(g)
      && (forall k :: 0 <= k < PANEL_SIZE - 1 ==> g[k] == PanelEdits(f, r, event)[k])
      && (forall k :: 0 <= k < PANEL_SIZE - 1 && k !in {3, 4, 5, 6, 9} ==> g[k] == f[k])
  {
    var e := PanelEdits(f, r, event);
    FinalizedIsValid(e);
    var g := PanelRewrite(f, r, event);
    assert forall k :: 0 <= k < PANEL_SIZE - 1 ==> g[k] == g[..PANEL_SIZE - 1][k] == e[k];
  }

  /** A rewritten main frame is a valid main frame; only bytes 3 to 6, 14 and the check byte may differ. */
  lemma MainRewriteShape(f: seq<Byte>, r: Request, event: bool)
    requires MainFrame(f)
    ensures var g := MainRewrite(f, r, event);
      && MainFrame(g)
      && (forall k :: 0 <= k < MAIN_SIZE - 1 ==> g[k] == MainEdits(f, r, event)[k])
      && (forall k :: 0 <= k < MAIN_SIZE - 1 && k !in {3, 4, 5, 6, 14} ==> g[k] == f[k])
  {
    var e := MainEdits(f, r, event);
    FinalizedIsValid(e);
    var g := MainRewrite(f, r, event);
    assert forall k :: 0 <= k < MAIN_SIZE - 1 ==> g[k] == g[..MAIN_SIZE - 1][k] == e[k];
  }

  /** The value the request leaves under one flag bit. */
  function Wanted(flags: Byte, bit: Byte, touched: bool, on: bool): Byte {
    if touched then (if on then bit else 0) else flags & bit
  }

  /** Every requested flag gets the requested value and every other bit of the byte is preserved. */
  predicate FlagsAre(n: Byte, flags: Byte, r: Request) {
    && n & 0x47 == flags & 0x47
    && n & BIT_POWER == Wanted(flags, BIT_POWER, r.mask.power, r.power)
    && n & BIT_QUIET == Wanted(flags, BIT_QUIET, r.mask.quiet, r.quiet)
    && n & BIT_UNITS == Wanted(flags, BIT_UNITS, r.mask.units, r.units)
    && n & BIT_TIMER == Wanted(flags, BIT_TIMER, r.mask.timer, r.timer)
  }

  lemma PowerBit(flags: Byte, r: Request)
    ensures NewFlags(flags, r) & BIT_POWER == Wanted(flags, BIT_POWER, r.mask.power, r.power)
  {
  }

  lemma QuietBit(flags: Byte, r: Request)
    ensures NewFlags(flags, r) & BIT_QUIET == Wanted(flags, BIT_QUIET, r.mask.quiet, r.quiet)
  {
  }

  lemma UnitsBit(flags: Byte, r: Request)
    ensures NewFlags(flags, r) & BIT_UNITS == Wanted(flags, BIT_UNITS, r.mask.units, r.units)
  {
  }

  lemma TimerBit(flags: Byte, r: Request)
    ensures NewFlags(flags, r) & BIT_TIMER == Wanted(flags, BIT_TIMER, r.mask.timer, r.timer)
  {
  }

  lemma OtherBits(flags: Byte, r: Request)
    ensures NewFlags(flags, r) & 0x47 == flags & 0x47
  {
  }

  lemma FlagsPreserveUnasked(flags: Byte, r: Request)
    ensures FlagsAre(NewFlags(flags, r), flags, r)
  {
    var n := NewFlags(flags, r);
    assert n & BIT_POWER == Wanted(flags, BIT_POWER, r.mask.power, r.power) by { PowerBit(flags, r); }
    assert n & BIT_QUIET == Wanted(flags, BIT_QUIET, r.mask.quiet, r.quiet) by { QuietBit(flags, r); }
    assert n & BIT_UNITS == Wanted(flags, BIT_UNITS, r.mask.units, r.units) by { UnitsBit(flags, r); }
    assert n & BIT_TIMER == Wanted(flags, BIT_TIMER, r.mask.timer, r.timer) by { TimerBit(flags, r); }
    OtherBits(flags, r);
  }

  lemma FlagsFixed(n: Byte, flags: Byte, r: Request)
    requires FlagsAre(n, flags, r)
    ensures NewFlags(n, r) == n
  {
  }

  /** Rewriting a rewritten panel frame with the same request changes nothing. */
  lemma PanelRewriteIdempotent(f: seq<Byte>, r: Request, event: bool)
    requires PanelFrame(f) && InRange(r)
    ensures var g := PanelRewrite(f, r, event); ApplyPanel(g, r, event) == Some(g)
  {
    PanelRewriteShape(f, r, event);
    var g := PanelRewrite(f, r, event);
    FlagsPreserveUnasked(f[5], r);
    FlagsFixed(g[5], f[5], r);
    CodeIdempotent(f[4], f[6], r);
    assert PanelEdits(g, r, event) == g;
    ValidIsFinalized(g);
  }

  /** The same for main frames. */
  lemma MainRewriteIdempotent(f: seq<Byte>, r: Request, event: bool)
    requires MainFrame(f) && InRange(r)
    ensures var g := MainRewrite(f, r, event); ApplyMain(g, r, event) == Some(g)
  {
    MainRewriteShape(f, r, event);
    var g := MainRewrite(f, r, event);
    FlagsPreserveUnasked(f[5], r);
    FlagsFixed(g[5], f[5], r);
    MainCodeIdempotent(f[4], f[6], r);
    assert MainEdits(g, r, event) == g;
    ValidIsFinalized(g);
  }

  lemma MainCodeIdempotent(code: Byte, temperature: Byte, r: Request)
    requires InRange(r)
    ensures NewMainCode(NewMainCode(code, temperature, r), NewTemperature(temperature, r), r)
            == NewMainCode(code, temperature, r)
  {
  }

  lemma CodeIdempotent(code: Byte, temperature: Byte, r: Request)
    requires InRange(r)
    ensures NewPanelCode(NewPanelCode(code, temperature, r), NewTemperature(temperature, r), r)
            == NewPanelCode(code, temperature, r)
  {
  }

  /** A setpoint is sent with its Fahrenheit value rounded to the nearest degree. */
  lemma EncodedSetpointIsNearest(c: Byte)
    requires ValidSetpoint(c)
    ensures var f := EncodeSetpoint(c) as int;
      -5 < 2 * (5 * f - (9 * (c as int) + 160)) < 5
  {
    assert c == 18 || c == 19 || c == 20 || c == 21 || c == 22 || c == 23 || c == 24 || c == 25
      || c == 26 || c == 27 || c == 28 || c == 29 || c == 30 || c == 31 || c == 32;
  }

  // ----- the commuting square -----

  /** The FAN normalization 0x22/0x21 commutes with every code rewrite. */
  lemma CodeCommutes(code: Byte, temperature: Byte, r: Request)
    ensures NewMainCode(PanelToMainCode(code), temperature, r)
            == PanelToMainCode(NewPanelCode(code, temperature, r))
  {
  }

  /**
    And back: normalizing, rewriting on the main board's side and translating back
    gives the panel-side rewrite, exactly unless that leaves the main board's FAN code.
  */
  lemma CodeReturns(code: Byte, temperature: Byte, r: Request)
    ensures var c := NewPanelCode(code, temperature, r);
      c == MainToPanelCode(NewMainCode(PanelToMainCode(code), temperature, r)) <==> c != 0x21
  {
    CodeCommutes(code, temperature, r);
  }

  /** Mode a code-touching request without a raw code leaves the panel in. */
  function ModeAfter(code: Byte, temperature: Byte, r: Request): Mode {
    if r.mask.mode then r.mode
    else if r.mask.power && r.power && !(18 <= temperature <= 32) then Cool
    else DecodeMode(code)
  }

  function FanAfter(code: Byte, temperature: Byte, r: Request): Fan {
    if r.mask.fan then r.fan
    else if r.mask.power && r.power && !(18 <= temperature <= 32) then Low
    else DecodeFan(code)
  }

  /**
    A request that touches the code leaves one of the four codes captured from the
    panel, and that code spells the mode and, in Cool, the fan that were asked for.
  */
  lemma CodesAreCaptured(code: Byte, temperature: Byte, r: Request)
    requires (r.mask.mode || r.mask.fan) && !r.mask.raw && ModeAfter(code, temperature, r) != UnknownMode
    ensures var c := NewPanelCode(code, temperature, r);
      && c in {0x22, 0x31, 0x33, 0x43}
      && DecodeMode(c) == ModeAfter(code, temperature, r)
      && (DecodeMode(c) == Cool ==> (c == 0x33 <==> FanAfter(code, temperature, r) == High))
      && MainToPanelCode(NewMainCode(PanelToMainCode(code), temperature, r)) == c
  {
    CodeReturns(code, temperature, r);
  }

  /** Any other request leaves its raw code, the captured cold-start code, or the code that was there. */
  lemma OtherCodes(code: Byte, temperature: Byte, r: Request)
    requires r.mask.raw || !(r.mask.mode || r.mask.fan) || ModeAfter(code, temperature, r) == UnknownMode
    ensures NewPanelCode(code, temperature, r) ==
            if r.mask.raw then r.raw
            else if r.mask.power && r.power && !(18 <= temperature <= 32) then 0x31
            else code
  {
  }

  /** Marker, temperature and Fahrenheit byte of a rewritten frame, alike on both sides. */
  predicate WritesValues(marker: Byte, temperature: Byte, encoded: Byte, temperature0: Byte, encoded0: Byte,
                         r: Request, event: bool)
  {
    && marker == (if event then 0x12 else 0x11)
    && (r.mask.setpoint ==> temperature == r.setpoint)
    && (!r.mask.setpoint && r.mask.power && r.power && !(18 <= temperature0 <= 32) ==> temperature == 18)
    && (!r.mask.setpoint && !(r.mask.power && r.power && !(18 <= temperature0 <= 32)) ==>
          temperature == temperature0 && encoded == encoded0)
    && (r.mask.setpoint || (r.mask.power && r.power && !(18 <= temperature0 <= 32)) ==>
          -5 < 2 * (5 * (encoded as int) - (9 * (temperature as int) + 160)) < 5)
  }

  lemma PanelRewriteValues(f: seq<Byte>, r: Request, event: bool)
    requires PanelFrame(f) && InRange(r)
    ensures var g := PanelRewrite(f, r, event);
      |g| == PANEL_SIZE && WritesValues(g[3], g[6], g[9], f[6], f[9], r, event)
  {
    PanelRewriteShape(f, r, event);
    if ValidSetpoint(NewTemperature(f[6], r)) {
      EncodedSetpointIsNearest(NewTemperature(f[6], r));
    }
  }

  lemma MainRewriteValues(f: seq<Byte>, r: Request, event: bool)
    requires MainFrame(f) && InRange(r)
    ensures var g := MainRewrite(f, r, event);
      |g| == MAIN_SIZE && WritesValues(g[3], g[6], g[14], f[6], f[14], r, event)
  {
    MainRewriteShape(f, r, event);
    if ValidSetpoint(NewTemperature(f[6], r)) {
      EncodedSetpointIsNearest(NewTemperature(f[6], r));
    }
  }

  /**
    Rewriting a panel frame and acknowledging it gives the same main frame as
    acknowledging it first and rewriting the acknowledgement: both succeed or
    both refuse, they agree on every byte except the operation byte and the
    check byte, and on those two exactly when the request leaves the power bit alone.
  */
  lemma RewriteCommutesWithAck(m: seq<Byte>, p: seq<Byte>, r: Request, event: bool)
    requires MainShaped(m) && PanelFrame(p)
    ensures ApplyPanel(p, r, event).Some? <==> ApplyMain(Ack(m, p), r, event).Some?
    ensures InRange(r) ==>
      var viaPanel := Ack(m, ApplyPanel(p, r, event).value);
      var viaMain := ApplyMain(Ack(m, p), r, event).value;
      && |viaPanel| == |viaMain| == MAIN_SIZE
      && (forall k :: 0 <= k < MAIN_SIZE && k != 8 && k != 21 ==> viaPanel[k] == viaMain[k])
      && (viaPanel == viaMain <==> (r.mask.power ==> r.power == (p[5] & BIT_POWER != 0)))
  {
    AckIsMainFrame(m, p);
    if InRange(r) {
      PanelRewriteShape(p, r, event);
      var q := PanelRewrite(p, r, event);
      AckIsMainFrame(m, q);
      MainRewriteShape(Ack(m, p), r, event);
      CodeCommutes(p[4], p[6], r);
      FlagsPreserveUnasked(p[5], r);
      var viaPanel, viaMain := Ack(m, q), MainRewrite(Ack(m, p), r, event);
      AgreeOnBody(viaPanel, viaMain);
      assert viaPanel[8] == Operation(NewFlags(p[5], r)) && viaMain[8] == Operation(p[5]);
    }
  }

  lemma AgreeOnBody(a: seq<Byte>, b: seq<Byte>)
    requires MainFrame(a) && MainFrame(b)
    requires forall k :: 0 <= k < MAIN_SIZE - 1 && k != 8 ==> a[k] == b[k]
    ensures a == b <==> a[8] == b[8]
  {
    if a[8] == b[8] {
      assert a[..MAIN_SIZE - 1] == b[..MAIN_SIZE - 1];
      ValidIsFinalized(a);
      ValidIsFinalized(b);
    }
  }

  // ----- when can a command be confirmed? -----

  /** Mode the panel frame is in once the request is applied to it. */
  function TargetMode(p: seq<Byte>, r: Request): Mode
    requires |p| == PANEL_SIZE
  {
    if r.mask.raw then DecodeMode(r.raw)
    else if r.mask.mode then r.mode
    else if Bootstraps(p[6], r) then Cool
    else DecodeMode(p[4])
  }

  /** A raw code sent along with a mode or a fan must spell the same mode and, in Cool, the same fan. */
  predicate RawConsistent(r: Request) {
    && (r.mask.raw && r.mask.mode ==> DecodeMode(r.raw) == r.mode)
    && (r.mask.raw && r.mask.fan && DecodeMode(r.raw) == Cool ==> DecodeFan(r.raw) == r.fan)
  }

  /**
    An accepted rewrite is echoed back by the panel exactly when its raw code
    is consistent, and its acknowledgement confirms the command exactly when,
    in addition, a setpoint is only sent into Cool.
  */
  lemma RewriteOutcome(m: seq<Byte>, p: seq<Byte>, r: Request, event: bool)
    requires MainShaped(m) && PanelFrame(p) && InRange(r)
    ensures var q := PanelRewrite(p, r, event);
      && ParsePanel(q).Some? && ParseMain(Ack(m, q)).Some?
      && (EchoMatches(ParsePanel(q).value, r) <==> RawConsistent(r))
      && (Confirms(ParseMain(Ack(m, q)).value, r) <==>
          RawConsistent(r) && (r.mask.setpoint ==> TargetMode(p, r) == Cool))
  {
    PanelRewriteShape(p, r, event);
    var q := PanelRewrite(p, r, event);
    AckIsMainFrame(m, q);
    FlagsPreserveUnasked(p[5], r);
    FeatureBits(q[5]);
    CodeOutcome(p[4], p[6], r);
  }

  lemma FeatureBits(flags: Byte)
    ensures (flags & 0x7F) & BIT_QUIET == flags & BIT_QUIET
    ensures (flags & 0x7F) & BIT_UNITS == flags & BIT_UNITS
    ensures (flags & 0x7F) & BIT_TIMER == flags & BIT_TIMER
  {
  }

  lemma CodeOutcome(code: Byte, temperature: Byte, r: Request)
    requires InRange(r)
    ensures var c := NewPanelCode(code, temperature, r);
      && DecodeMode(PanelToMainCode(c)) == DecodeMode(c)
      && (DecodeMode(c) == Cool ==> PanelToMainCode(c) == c)
      && (r.mask.raw ==> c == r.raw)
      && (!r.mask.raw && r.mask.mode ==> DecodeMode(c) == r.mode)
      && (!r.mask.raw && r.mask.fan && DecodeMode(c) == Cool ==> DecodeFan(c) == r.fan)
      && (!r.mask.raw && !r.mask.mode ==> DecodeMode(c) == DecodeMode(BaseCode(code, temperature, r)))
  {
  }

  /** Can any main-board frame at all confirm this request? */
  predicate Confirmable(r: Request) {
    && RawConsistent(r)
    && (r.mask.setpoint && r.mask.mode ==> r.mode == Cool)
    && (r.mask.setpoint && r.mask.raw ==> DecodeMode(r.raw) == Cool)
  }

  const COOL_PANEL: seq<Byte> :=
    [0x54, 0x44, 0x0B, 0x11, 0x31, 0x80, 18, 0, 0, 64, 0, 0, 0, 0, 0]

  const BENCH_REPLY: seq<Byte> :=
    [0x54, 0x44, 0x12, 0x11, 0x31, 0, 0x12, 0, 0, 0, 0, 0x2C, 0x2C, 0, 0x40, 0x0A, 0, 0, 0, 0, 0, 0]

  /** A confirmable request is confirmed by the acknowledgement of its rewrite of a Cool frame. */
  lemma ConfirmableIsConfirmed(r: Request) returns (m: seq<Byte>)
    requires InRange(r) && Confirmable(r)
    ensures MainFrame(m) && Confirms(ParseMain(m).value, r)
  {
    var p := Finalized(COOL_PANEL);
    FinalizedIsValid(COOL_PANEL);
    assert forall k :: 0 <= k < PANEL_SIZE - 1 ==> p[k] == p[..PANEL_SIZE - 1][k] == COOL_PANEL[k];
    RewriteOutcome(BENCH_REPLY, p, r, false);
    m := Ack(BENCH_REPLY, PanelRewrite(p, r, false));
  }

  /** A request can be confirmed by some valid main-board frame exactly when it is Confirmable. */
  lemma ConfirmableExactly(r: Request)
    requires InRange(r)
    ensures (exists m :: MainFrame(m) && Confirms(ParseMain(m).value, r)) <==> Confirmable(r)
  {
    if Confirmable(r) {
      var m := ConfirmableIsConfirmed(r);
    }
    forall m | MainFrame(m) && Confirms(ParseMain(m).value, r)
      ensures Confirmable(r)
    {
      NormalizedCodes(r.raw);
    }
  }

  lemma NormalizedCodes(code: Byte)
    ensures DecodeMode(PanelToMainCode(code)) == DecodeMode(code)
    ensures DecodeMode(code) == Cool ==> PanelToMainCode(code) == code
  {
  }
}
