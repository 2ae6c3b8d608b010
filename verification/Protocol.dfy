/**
  The TD display protocol: check byte, frame recognition, parsers, and the two
  command rewriters (one for panel frames, one for main-board frames).

  The specification functions give a rewritten frame byte by byte; the methods
  rewrite an array in place in the order the firmware does and are proved
  against those functions.
*/
module Protocol {
  import opened Wire

  const HEADER_0: Byte := 0x54
  const HEADER_1: Byte := 0x44
  const XOR_TARGET: Byte := 0x10
  const PANEL_BODY: Byte := 0x0B
  const MAIN_BODY: Byte := 0x12
  const PANEL_SIZE: nat := 15
  const MAIN_SIZE: nat := 22
  const MAX_FRAME_SIZE: nat := 64

  const EVENT_MARKER: Byte := 0x12
  const STEADY_MARKER: Byte := 0x11
  const BIT_POWER: Byte := 0x80
  const BIT_UNITS: Byte := 0x08
  const BIT_QUIET: Byte := 0x10
  const BIT_TIMER: Byte := 0x20

  datatype Mode = UnknownMode | FanOnly | Cool | Dry
  datatype Fan = UnknownFan | Low | ModeDefault | High

  /** The eight defined bits of a request mask. */
  datatype Mask = Mask(power: bool, setpoint: bool, mode: bool, fan: bool,
                       raw: bool, quiet: bool, units: bool, timer: bool)

  const NO_BITS := Mask(false, false, false, false, false, false, false, false)

  datatype Request = Request(mask: Mask, power: bool, setpoint: Byte, mode: Mode, fan: Fan,
                             raw: Byte, quiet: bool, units: bool, timer: bool)

  const EMPTY_REQUEST := Request(NO_BITS, false, 0, UnknownMode, UnknownFan, 0, false, false, false)

  datatype PanelState = PanelState(event: bool, power: bool, features: Byte, code: Byte,
                                   mode: Mode, fan: Fan, setpoint: Byte, encoded: Byte)

  datatype MainState = MainState(event: bool, power: bool, features: Byte, code: Byte,
                                 mode: Mode, fan: Fan, temperature: Byte, operation: Byte,
                                 sensor1: Byte, sensor2: Byte, encoded: Byte)

  // ----- check byte -----

  predicate KnownSize(s: seq<Byte>) {
    && 3 <= |s|
    && ((s[2] == PANEL_BODY && |s| == PANEL_SIZE) || (s[2] == MAIN_BODY && |s| == MAIN_SIZE))
  }

  predicate ChecksumValid(s: seq<Byte>) {
    KnownSize(s) && Xor(s) == XOR_TARGET
  }

  /** Size announced by the first three bytes, 0 when they announce no frame of this appliance. */
  function ExpectedSize(s: seq<Byte>): nat {
    if |s| < 3 || s[0] != HEADER_0 || s[1] != HEADER_1 then 0
    else if s[2] == PANEL_BODY then PANEL_SIZE
    else if s[2] == MAIN_BODY then MAIN_SIZE
    else 0
  }

  function Finalized(s: seq<Byte>): seq<Byte> {
    if KnownSize(s) then s[|s| - 1 := Xor(s[..|s| - 1]) ^ XOR_TARGET] else s
  }

  /** Finalizing makes any frame of a known size valid and touches nothing but its last byte. */
  lemma FinalizedIsValid(s: seq<Byte>)
    requires KnownSize(s)
    ensures ChecksumValid(Finalized(s))
    ensures |Finalized(s)| == |s| && Finalized(s)[..|s| - 1] == s[..|s| - 1]
  {
    var f := Finalized(s);
    assert f[..|f| - 1] == s[..|s| - 1];
    XorCancels(Xor(s[..|s| - 1]));
  }

  lemma XorCancels(x: Byte)
    ensures x ^ (x ^ XOR_TARGET) == XOR_TARGET
  {
  }

  /** The check byte is the only one that makes a frame valid: finalizing a valid frame changes nothing. */
  lemma ValidIsFinalized(s: seq<Byte>)
    requires ChecksumValid(s)
    ensures Finalized(s) == s
  {
    var x := Xor(s[..|s| - 1]);
    XorSolves(x, s[|s| - 1]);
  }

  lemma XorSolves(x: Byte, b: Byte)
    requires x ^ b == XOR_TARGET
    ensures b == x ^ XOR_TARGET
  {
  }

  method ComputeXor(data: array<Byte>, length: nat) returns (value: Byte)
    requires length <= data.Length
    ensures value == Xor(data[..length])
  {
    value := 0;
    for i := 0 to length
      invariant value == Xor(data[..i])
    {
      assert data[..i + 1] == data[..i] + [data[i]];
      XorSnoc(data[..i], data[i]);
      value := value ^ data[i];
    }
  }

  method Finalize(data: array<Byte>)
    modifies data
    ensures data[..] == Finalized(old(data[..]))
  {
    if data.Length < 3 {
      return;
    }
    if (data[2] == PANEL_BODY && data.Length == PANEL_SIZE)
       || (data[2] == MAIN_BODY && data.Length == MAIN_SIZE) {
      var x := ComputeXor(data, data.Length - 1);
      assert data[..][..data.Length - 1] == data[..data.Length - 1];
      data[data.Length - 1] := x ^ XOR_TARGET;
    }
  }

  // ----- mode and fan codes -----

  function PanelToMainCode(code: Byte): Byte { if code == 0x22 then 0x21 else code }

  function MainToPanelCode(code: Byte): Byte { if code == 0x21 then 0x22 else code }

  function DecodeMode(code: Byte): Mode {
    match (code >> 4) & 0x0F
    case 2 => FanOnly
    case 3 => Cool
    case 4 => Dry
    case _ => UnknownMode
  }

  function DecodeFan(code: Byte): Fan {
    match code & 0x0F
    case 1 => Low
    case 2 => ModeDefault
    case 3 => High
    case _ => UnknownFan
  }

  // ----- parsers -----

  predicate PanelFrame(f: seq<Byte>) {
    |f| == PANEL_SIZE && ExpectedSize(f) == PANEL_SIZE && ChecksumValid(f)
  }

  predicate MainFrame(f: seq<Byte>) {
    |f| == MAIN_SIZE && ExpectedSize(f) == MAIN_SIZE && ChecksumValid(f)
  }

  function ParsePanel(f: seq<Byte>): Option<PanelState> {
    if !PanelFrame(f) then None
    else Some(PanelState(f[3] == EVENT_MARKER, f[5] & BIT_POWER != 0, f[5] & 0x7F, f[4],
                         DecodeMode(f[4]), DecodeFan(f[4]), f[6], f[9]))
  }

  function ParseMain(f: seq<Byte>): Option<MainState> {
    if !MainFrame(f) then None
    else Some(MainState(f[3] == EVENT_MARKER, f[5] & BIT_POWER != 0, f[5] & 0x7F, f[4],
                        DecodeMode(f[4]), DecodeFan(f[4]), f[6], f[8], f[11], f[12], f[14]))
  }

  // ----- requests -----

  predicate ValidSetpoint(c: Byte) { 18 <= c <= 32 }

  /** Fahrenheit companion of a Celsius setpoint, truncated to one byte. */
  function EncodeSetpoint(c: Byte): Byte {
    ((((c as bv16) * 9 + 2) / 5 + 32) & 0xFF) as Byte
  }

  /** Range checks shared by both rewriters and by the command queue. */
  predicate InRange(r: Request) {
    && (r.mask.setpoint ==> ValidSetpoint(r.setpoint))
    && (r.mask.mode ==> r.mode != UnknownMode)
    && (r.mask.fan ==> r.fan == Low || r.fan == High)
  }

  predicate TouchesCode(r: Request) { r.mask.mode || r.mask.fan || r.mask.raw }

  function CoolCode(fan: Fan): Byte { if fan == High then 0x33 else 0x31 }

  /** Panel-side code for a request applied to the state (code, mode, fan). */
  function RequestedCode(code: Byte, mode: Mode, fan: Fan, r: Request): Byte {
    if r.mask.raw then r.raw else
    match (if r.mask.mode then r.mode else mode)
    case Dry => 0x43
    case FanOnly => 0x22
    case Cool => CoolCode(if r.mask.fan then r.fan else fan)
    case UnknownMode => code
  }

  /** A power-on request against a frame with no usable temperature starts from Cool/Low at 18 C. */
  predicate Bootstraps(temperature: Byte, r: Request) {
    r.mask.power && r.power && !ValidSetpoint(temperature)
  }

  function BaseCode(code: Byte, temperature: Byte, r: Request): Byte {
    if Bootstraps(temperature, r) then 0x31 else code
  }

  function NewPanelCode(code: Byte, temperature: Byte, r: Request): Byte {
    var base := BaseCode(code, temperature, r);
    if TouchesCode(r) then RequestedCode(base, DecodeMode(base), DecodeFan(base), r) else base
  }

  function NewMainCode(code: Byte, temperature: Byte, r: Request): Byte {
    var base := BaseCode(code, temperature, r);
    if TouchesCode(r)
    then PanelToMainCode(RequestedCode(MainToPanelCode(base), DecodeMode(base), DecodeFan(base), r))
    else base
  }

  function SetBit(flags: Byte, bit: Byte, touched: bool, on: bool): Byte {
    if !touched then flags else if on then flags | bit else flags & !bit
  }

  function NewFlags(flags: Byte, r: Request): Byte {
    SetBit(
      SetBit(
        SetBit(
          SetBit(flags, BIT_POWER, r.mask.power, r.power),
          BIT_QUIET, r.mask.quiet, r.quiet),
        BIT_UNITS, r.mask.units, r.units),
      BIT_TIMER, r.mask.timer, r.timer)
  }

  function NewTemperature(temperature: Byte, r: Request): Byte {
    if r.mask.setpoint then r.setpoint
    else if Bootstraps(temperature, r) then 18
    else temperature
  }

  function NewEncoded(encoded: Byte, temperature: Byte, r: Request): Byte {
    if r.mask.setpoint || Bootstraps(temperature, r)
    then EncodeSetpoint(NewTemperature(temperature, r))
    else encoded
  }

  function Marker(event: bool): Byte { if event then EVENT_MARKER else STEADY_MARKER }

  /** The frame before its check byte is recomputed. */
  function PanelEdits(f: seq<Byte>, r: Request, event: bool): (g: seq<Byte>)
    requires |f| == PANEL_SIZE
    ensures |g| == |f|
  {
    f[3 := Marker(event)]
     [4 := NewPanelCode(f[4], f[6], r)]
     [5 := NewFlags(f[5], r)]
     [6 := NewTemperature(f[6], r)]
     [9 := NewEncoded(f[9], f[6], r)]
  }

  function PanelRewrite(f: seq<Byte>, r: Request, event: bool): seq<Byte>
    requires |f| == PANEL_SIZE
  {
    Finalized(PanelEdits(f, r, event))
  }

  /** The frame before its check byte is recomputed. */
  function MainEdits(f: seq<Byte>, r: Request, event: bool): (g: seq<Byte>)
    requires |f| == MAIN_SIZE
    ensures |g| == |f|
  {
    f[3 := Marker(event)]
     [4 := NewMainCode(f[4], f[6], r)]
     [5 := NewFlags(f[5], r)]
     [6 := NewTemperature(f[6], r)]
     [14 := NewEncoded(f[14], f[6], r)]
  }

  function MainRewrite(f: seq<Byte>, r: Request, event: bool): seq<Byte>
    requires |f| == MAIN_SIZE
  {
    Finalized(MainEdits(f, r, event))
  }

  /** All-or-nothing panel rewrite: None exactly when the firmware refuses. */
  function ApplyPanel(f: seq<Byte>, r: Request, event: bool): Option<seq<Byte>> {
    if PanelFrame(f) && InRange(r) then Some(PanelRewrite(f, r, event)) else None
  }

  function ApplyMain(f: seq<Byte>, r: Request, event: bool): Option<seq<Byte>> {
    if MainFrame(f) && InRange(r) then Some(MainRewrite(f, r, event)) else None
  }

  /** Range checks as both rewriters make them, one field after the other. */
  method CheckRange(r: Request) returns (ok: bool)
    ensures ok <==> InRange(r)
  {
    if r.mask.setpoint && !ValidSetpoint(r.setpoint) {
      return false;
    }
    if r.mask.mode && r.mode != Cool && r.mode != FanOnly && r.mode != Dry {
      return false;
    }
    if r.mask.fan && r.fan != Low && r.fan != High {
      return false;
    }
    return true;
  }

  /** Marker and cold-start values; encodedAt is the index of the Fahrenheit companion byte. */
  method WriteStart(frame: array<Byte>, encodedAt: nat, r: Request, event: bool)
    requires 6 < encodedAt < frame.Length
    modifies frame
    ensures frame[..] ==
            if Bootstraps(old(frame[6]), r)
            then old(frame[..])[3 := Marker(event)][4 := 0x31][6 := 18][encodedAt := EncodeSetpoint(18)]
            else old(frame[..])[3 := Marker(event)]
  {
    var temperature := frame[6];
    frame[3] := if event then 0x12 else 0x11;
    if r.mask.power && r.power && !ValidSetpoint(temperature) {
      frame[4] := 0x31;
      frame[6] := 18;
      frame[encodedAt] := EncodeSetpoint(18);
    }
  }

  /** Power, setpoint, quiet, units and timer, in the order the firmware writes them. */
  method WriteFields(frame: array<Byte>, encodedAt: nat, r: Request)
    requires 6 < encodedAt < frame.Length
    modifies frame
    ensures frame[..] ==
            if r.mask.setpoint
            then old(frame[..])[5 := NewFlags(old(frame[5]), r)][6 := r.setpoint]
                               [encodedAt := EncodeSetpoint(r.setpoint)]
            else old(frame[..])[5 := NewFlags(old(frame[5]), r)]
  {
    var flags := SetBit(frame[5], BIT_POWER, r.mask.power, r.power);
    if r.mask.setpoint {
      frame[6] := r.setpoint;
      frame[encodedAt] := EncodeSetpoint(r.setpoint);
    }
    flags := SetBit(flags, BIT_QUIET, r.mask.quiet, r.quiet);
    flags := SetBit(flags, BIT_UNITS, r.mask.units, r.units);
    flags := SetBit(flags, BIT_TIMER, r.mask.timer, r.timer);
    frame[5] := flags;
  }

  method ApplyControl(frame: array<Byte>, r: Request, event: bool) returns (ok: bool)
    modifies frame
    ensures ok <==> ApplyPanel(old(frame[..]), r, event).Some?
    ensures frame[..] == if ok then ApplyPanel(old(frame[..]), r, event).value else old(frame[..])
  {
    var parsed := ParsePanel(frame[..]);
    var inRange := CheckRange(r);
    if parsed.None? || !inRange {
      return false;
    }
    ghost var f := frame[..];
    WriteStart(frame, 9, r, event);
    var code := frame[4];
    if r.mask.mode || r.mask.fan || r.mask.raw {
      frame[4] := RequestedCode(code, DecodeMode(code), DecodeFan(code), r);
    }
    WriteFields(frame, 9, r);
    assert frame[..] == PanelEdits(f, r, event);
    Finalize(frame);
    return true;
  }

  method ApplyControlMain(frame: array<Byte>, r: Request, event: bool) returns (ok: bool)
    modifies frame
    ensures ok <==> ApplyMain(old(frame[..]), r, event).Some?
    ensures frame[..] == if ok then ApplyMain(old(frame[..]), r, event).value else old(frame[..])
  {
    var parsed := ParseMain(frame[..]);
    var inRange := CheckRange(r);
    if parsed.None? || !inRange {
      return false;
    }
    ghost var f := frame[..];
    WriteStart(frame, 14, r, event);
    var code := frame[4];
    if r.mask.mode || r.mask.fan || r.mask.raw {
      frame[4] := PanelToMainCode(
        RequestedCode(MainToPanelCode(code), DecodeMode(code), DecodeFan(code), r));
    }
    WriteFields(frame, 14, r);
    assert frame[..] == MainEdits(f, r, event);
    Finalize(frame);
    return true;
  }
}
