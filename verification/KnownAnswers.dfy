/**
  Known answers: the check value that CRC-32 is known by, frames captured from
  the two boards, and the rewrites of them that the host tests list.
*/
module KnownAnswers {
  import opened Wire
  import opened Protocol
  import opened Crc

  // ----- the check value -----

  const DIGITS: seq<Byte> := [0x31, 0x32, 0x33, 0x34, 0x35, 0x36, 0x37, 0x38, 0x39]

  lemma EightBits(r: bv32)
    ensures Shift8(r) == BitStep(BitStep(BitStep(BitStep(BitStep(BitStep(BitStep(BitStep(r))))))))
  {
  }

  lemma NextRegister(data: seq<Byte>, k: nat, r: bv32, b: Byte, next: bv32)
    requires k < |data| && data[k] == b && Register(0xFFFFFFFF, data[..k]) == r
    requires BitStep(BitStep(BitStep(BitStep(BitStep(BitStep(BitStep(BitStep(r ^ (b as bv32))))))))) == next
    ensures Register(0xFFFFFFFF, data[..k + 1]) == next
  {
    RegisterSnoc(0xFFFFFFFF, data[..k], b);
    EightBits(r ^ (b as bv32));
    PrefixGrows(data, k);
  }

  lemma FirstDigits(data: seq<Byte>)
    requires data == DIGITS
    ensures Register(0xFFFFFFFF, data[..5]) == 0x340AC5E3
  {
    assert data[..0] == [];
    NextRegister(data, 0, 0xFFFFFFFF, 0x31, 0x7C231048);
    NextRegister(data, 1, 0x7C231048, 0x32, 0xB0ACBB32);
    NextRegister(data, 2, 0xB0ACBB32, 0x33, 0x77B79C2D);
    NextRegister(data, 3, 0x77B79C2D, 0x34, 0x641C1F5C);
    NextRegister(data, 4, 0x641C1F5C, 0x35, 0x340AC5E3);
  }

  /** The check value of the digits one to nine, by which CRC-32 implementations are told apart. */
  lemma CheckValue(data: seq<Byte>)
    requires data == DIGITS
    ensures Crc32(data) == 0xCBF43926
  {
    FirstDigits(data);
    NextRegister(data, 5, 0x340AC5E3, 0x36, 0xF68D2C9E);
    NextRegister(data, 6, 0xF68D2C9E, 0x37, 0xAFFC9660);
    NextRegister(data, 7, 0xAFFC9660, 0x38, 0x651F2550);
    NextRegister(data, 8, 0x651F2550, 0x39, 0x340BC6D9);
    assert data[..9] == data;
  }

  // ----- captured frames -----

  /** A panel frame by the bytes that vary in the captures. */
  function Panel(marker: Byte, code: Byte, flags: Byte, temperature: Byte, encoded: Byte, last: Byte, check: Byte)
    : (f: seq<Byte>)
    ensures |f| == 15
  {
    [0x54, 0x44, 0x0B, marker, code, flags, temperature, 0, 0, encoded, 0, 0, 0, last, check]
  }

  function Main(marker: Byte, code: Byte, flags: Byte, temperature: Byte, operation: Byte, sensor1: Byte, sensor2: Byte,
                encoded: Byte, other: Byte, check: Byte): (f: seq<Byte>)
    ensures |f| == 22
  {
    [0x54, 0x44, 0x12, marker, code, flags, temperature, 0, operation, 0, 0, sensor1, sensor2, 0, encoded, 0x0A, 0,
     other, 0, 0, 0, check]
  }

  lemma XorNext(f: seq<Byte>, k: nat, x: Byte) returns (y: Byte)
    requires k < |f| && Xor(f[..k]) == x
    ensures Xor(f[..k + 1]) == y == x ^ f[k]
  {
    PrefixGrows(f, k);
    XorSnoc(f[..k], f[k]);
    y := x ^ f[k];
  }

  lemma XorFive(f: seq<Byte>, k: nat, x: Byte) returns (y: Byte)
    requires k + 5 <= |f| && Xor(f[..k]) == x
    ensures Xor(f[..k + 5]) == y == x ^ f[k] ^ f[k + 1] ^ f[k + 2] ^ f[k + 3] ^ f[k + 4]
  {
    y := XorNext(f, k, x);
    y := XorNext(f, k + 1, y);
    y := XorNext(f, k + 2, y);
    y := XorNext(f, k + 3, y);
    y := XorNext(f, k + 4, y);
  }

  lemma XorTen(f: seq<Byte>) returns (y: Byte)
    requires 10 <= |f|
    ensures Xor(f[..10]) == y
    ensures y == f[0] ^ f[1] ^ f[2] ^ f[3] ^ f[4] ^ f[5] ^ f[6] ^ f[7] ^ f[8] ^ f[9]
  {
    assert f[..0] == [];
    y := XorFive(f, 0, 0);
    y := XorFive(f, 5, y);
  }

  /** The bytes of a valid frame cancel to 0x10, those that vary in panel frames to 0x0B. */
  lemma PanelIsFrame(marker: Byte, code: Byte, flags: Byte, temperature: Byte, encoded: Byte, last: Byte, check: Byte)
    requires marker ^ code ^ flags ^ temperature ^ encoded ^ last ^ check == 0x0B
    ensures PanelFrame(Panel(marker, code, flags, temperature, encoded, last, check))
  {
    var f := Panel(marker, code, flags, temperature, encoded, last, check);
    var x := XorTen(f);
    var y := XorFive(f, 10, x);
    assert f[..15] == f;
  }

  lemma MainIsFrame(marker: Byte, code: Byte, flags: Byte, temperature: Byte, operation: Byte, sensor1: Byte,
                    sensor2: Byte, encoded: Byte, other: Byte, check: Byte)
    requires 0x54 ^ 0x44 ^ 0x12 ^ marker ^ code ^ flags ^ temperature ^ 0 ^ operation ^ 0
             ^ sensor1 ^ sensor2 ^ encoded ^ 0x0A ^ other ^ check == 0x10
    ensures MainFrame(Main(marker, code, flags, temperature, operation, sensor1, sensor2, encoded, other, check))
  {
    var f := Main(marker, code, flags, temperature, operation, sensor1, sensor2, encoded, other, check);
    var x := XorTen(f);
    var y := MainTail(f, x, sensor1, sensor2, encoded, other, check);
    assert f[..22] == f;
  }

  lemma MainTail(f: seq<Byte>, x: Byte, sensor1: Byte, sensor2: Byte, encoded: Byte, other: Byte, check: Byte)
    returns (y: Byte)
    requires |f| == 22 && Xor(f[..10]) == x
    requires f[10..] == [0, sensor1, sensor2, 0, encoded, 0x0A, 0, other, 0, 0, 0, check]
    ensures Xor(f[..22]) == y == x ^ sensor1 ^ sensor2 ^ encoded ^ 0x0A ^ other ^ check
  {
    var tail := [0, sensor1, sensor2, 0, encoded, 0x0A, 0, other, 0, 0, 0, check];
    assert forall k :: 10 <= k < 22 ==> f[k] == tail[k - 10];
    y := XorFive(f, 10, x);
    y := XorFive(f, 15, y);
    y := XorNext(f, 20, y);
    y := XorNext(f, 21, y);
  }

  /** Every frame captured from the panel is a valid panel frame. */
  lemma PanelCaptures()
    ensures PanelFrame(Panel(0x11, 0x31, 0x00, 0x12, 0x40, 0x00, 0x79))
    ensures PanelFrame(Panel(0x11, 0x31, 0x80, 0x12, 0x40, 0x00, 0xF9))
    ensures PanelFrame(Panel(0x11, 0x31, 0x80, 0x13, 0x42, 0x00, 0xFA))
    ensures PanelFrame(Panel(0x11, 0x22, 0x80, 0x12, 0x40, 0x00, 0xEA))
    ensures PanelFrame(Panel(0x11, 0x33, 0x80, 0x12, 0x40, 0x00, 0xFB))
    ensures PanelFrame(Panel(0x11, 0x31, 0x00, 0x12, 0x40, 0x20, 0x59))
    ensures PanelFrame(Panel(0x11, 0x43, 0x80, 0x12, 0x40, 0x00, 0x8B))
    ensures PanelFrame(Panel(0x12, 0x31, 0x80, 0x12, 0x40, 0x00, 0xFA))
    ensures PanelFrame(Panel(0x12, 0x22, 0x80, 0x12, 0x40, 0x00, 0xE9))
    ensures PanelFrame(Panel(0x12, 0x31, 0x80, 0x13, 0x42, 0x00, 0xF9))
    ensures PanelFrame(Panel(0x12, 0x43, 0x80, 0x12, 0x40, 0x00, 0x88))
    ensures PanelFrame(Panel(0x12, 0x33, 0x80, 0x12, 0x40, 0x00, 0xF8))
    ensures PanelFrame(Panel(0x12, 0x31, 0x00, 0x12, 0x40, 0x20, 0x5A))
    ensures PanelFrame(Panel(0x12, 0x31, 0x90, 0x12, 0x40, 0x00, 0xEA))
    ensures PanelFrame(Panel(0x12, 0x31, 0xA0, 0x12, 0x40, 0x00, 0xDA))
    ensures PanelFrame(Panel(0x12, 0x31, 0x00, 0x12, 0x40, 0x00, 0x7A))
    ensures PanelFrame(Panel(0x11, 0x41, 0x00, 0x00, 0x00, 0x00, 0x5B))
  {
    PanelIsFrame(0x11, 0x31, 0x00, 0x12, 0x40, 0x00, 0x79);
    PanelIsFrame(0x11, 0x31, 0x80, 0x12, 0x40, 0x00, 0xF9);
    PanelIsFrame(0x11, 0x31, 0x80, 0x13, 0x42, 0x00, 0xFA);
    PanelIsFrame(0x11, 0x22, 0x80, 0x12, 0x40, 0x00, 0xEA);
    PanelIsFrame(0x11, 0x33, 0x80, 0x12, 0x40, 0x00, 0xFB);
    PanelIsFrame(0x11, 0x31, 0x00, 0x12, 0x40, 0x20, 0x59);
    PanelIsFrame(0x11, 0x43, 0x80, 0x12, 0x40, 0x00, 0x8B);
    PanelIsFrame(0x12, 0x31, 0x80, 0x12, 0x40, 0x00, 0xFA);
    PanelIsFrame(0x12, 0x22, 0x80, 0x12, 0x40, 0x00, 0xE9);
    PanelIsFrame(0x12, 0x31, 0x80, 0x13, 0x42, 0x00, 0xF9);
    PanelIsFrame(0x12, 0x43, 0x80, 0x12, 0x40, 0x00, 0x88);
    PanelIsFrame(0x12, 0x33, 0x80, 0x12, 0x40, 0x00, 0xF8);
    PanelIsFrame(0x12, 0x31, 0x00, 0x12, 0x40, 0x20, 0x5A);
    PanelIsFrame(0x12, 0x31, 0x90, 0x12, 0x40, 0x00, 0xEA);
    PanelIsFrame(0x12, 0x31, 0xA0, 0x12, 0x40, 0x00, 0xDA);
    PanelIsFrame(0x12, 0x31, 0x00, 0x12, 0x40, 0x00, 0x7A);
    PanelIsFrame(0x11, 0x41, 0x00, 0x00, 0x00, 0x00, 0x5B);
  }

  /** Every frame captured from the main board is a valid main frame. */
  lemma MainCaptures()
    ensures MainFrame(Main(0x11, 0x31, 0x80, 0x12, 0x02, 0x2C, 0x29, 0x40, 0x00, 0xED))
    ensures MainFrame(Main(0x11, 0x33, 0x80, 0x12, 0x02, 0x2C, 0x29, 0x40, 0x00, 0xEF))
    ensures MainFrame(Main(0x11, 0x21, 0x80, 0x16, 0x02, 0x2C, 0x29, 0x48, 0x00, 0xF1))
    ensures MainFrame(Main(0x11, 0x21, 0x80, 0x00, 0x02, 0x2C, 0x29, 0x20, 0x00, 0x8F))
    ensures MainFrame(Main(0x11, 0x43, 0x80, 0x16, 0x02, 0x2C, 0x29, 0x48, 0x00, 0x93))
    ensures MainFrame(Main(0x12, 0x31, 0x80, 0x12, 0x02, 0x2C, 0x29, 0x40, 0x00, 0xEE))
    ensures MainFrame(Main(0x12, 0x21, 0x80, 0x00, 0x02, 0x2C, 0x29, 0x20, 0x00, 0x8C))
    ensures MainFrame(Main(0x12, 0x21, 0x80, 0x16, 0x02, 0x2C, 0x29, 0x48, 0x00, 0xF2))
    ensures MainFrame(Main(0x12, 0x43, 0x80, 0x16, 0x02, 0x2C, 0x29, 0x48, 0x00, 0x90))
    ensures MainFrame(Main(0x12, 0x33, 0x80, 0x12, 0x02, 0x2C, 0x29, 0x40, 0x00, 0xEC))
    ensures MainFrame(Main(0x12, 0x31, 0x90, 0x12, 0x00, 0x2E, 0x2C, 0x40, 0x80, 0x7B))
    ensures MainFrame(Main(0x12, 0x31, 0xA0, 0x12, 0x00, 0x2E, 0x2D, 0x40, 0x80, 0x4A))
    ensures MainFrame(Main(0x12, 0x31, 0x00, 0x12, 0x00, 0x2E, 0x2D, 0x40, 0x80, 0xEA))
    ensures MainFrame(Main(0x11, 0x31, 0x00, 0x12, 0x00, 0x2C, 0x2C, 0x40, 0x00, 0x6A))
    ensures MainFrame(Main(0x12, 0x21, 0x80, 0x18, 0x02, 0x2E, 0x2D, 0x4B, 0x00, 0xF9))
  {
    MainIsFrame(0x11, 0x31, 0x80, 0x12, 0x02, 0x2C, 0x29, 0x40, 0x00, 0xED);
    MainIsFrame(0x11, 0x33, 0x80, 0x12, 0x02, 0x2C, 0x29, 0x40, 0x00, 0xEF);
    MainIsFrame(0x11, 0x21, 0x80, 0x16, 0x02, 0x2C, 0x29, 0x48, 0x00, 0xF1);
    MainIsFrame(0x11, 0x21, 0x80, 0x00, 0x02, 0x2C, 0x29, 0x20, 0x00, 0x8F);
    MainIsFrame(0x11, 0x43, 0x80, 0x16, 0x02, 0x2C, 0x29, 0x48, 0x00, 0x93);
    MainIsFrame(0x12, 0x31, 0x80, 0x12, 0x02, 0x2C, 0x29, 0x40, 0x00, 0xEE);
    MainIsFrame(0x12, 0x21, 0x80, 0x00, 0x02, 0x2C, 0x29, 0x20, 0x00, 0x8C);
    MainIsFrame(0x12, 0x21, 0x80, 0x16, 0x02, 0x2C, 0x29, 0x48, 0x00, 0xF2);
    MainIsFrame(0x12, 0x43, 0x80, 0x16, 0x02, 0x2C, 0x29, 0x48, 0x00, 0x90);
    MainIsFrame(0x12, 0x33, 0x80, 0x12, 0x02, 0x2C, 0x29, 0x40, 0x00, 0xEC);
    MainIsFrame(0x12, 0x31, 0x90, 0x12, 0x00, 0x2E, 0x2C, 0x40, 0x80, 0x7B);
    MainIsFrame(0x12, 0x31, 0xA0, 0x12, 0x00, 0x2E, 0x2D, 0x40, 0x80, 0x4A);
    MainIsFrame(0x12, 0x31, 0x00, 0x12, 0x00, 0x2E, 0x2D, 0x40, 0x80, 0xEA);
    MainIsFrame(0x11, 0x31, 0x00, 0x12, 0x00, 0x2C, 0x2C, 0x40, 0x00, 0x6A);
    MainIsFrame(0x12, 0x21, 0x80, 0x18, 0x02, 0x2E, 0x2D, 0x4B, 0x00, 0xF9);
  }

  // ----- rewritten captures -----

  lemma FinalizedBy(e: seq<Byte>, g: seq<Byte>)
    requires KnownSize(e) && |e| == |g| && e[..|e| - 1] == g[..|g| - 1] && ChecksumValid(g)
    ensures Finalized(e) == g
  {
    ValidIsFinalized(g);
    assert e[2] == e[..|e| - 1][2] && g[2] == g[..|g| - 1][2];
  }

  lemma Rewritten(f: seq<Byte>, r: Request, event: bool, g: seq<Byte>)
    requires PanelFrame(f) && InRange(r) && PanelFrame(g) && PanelEdits(f, r, event)[..14] == g[..14]
    ensures ApplyPanel(f, r, event) == Some(g)
  {
    var e := PanelEdits(f, r, event);
    assert e[2] == f[2];
    FinalizedBy(e, g);
  }

  const WARM_ON := EMPTY_REQUEST.(mask := NO_BITS.(power := true, setpoint := true), power := true, setpoint := 32)
  const GO_DRY := EMPTY_REQUEST.(mask := NO_BITS.(mode := true), mode := Dry)
  const GO_FAN := EMPTY_REQUEST.(mask := NO_BITS.(mode := true), mode := FanOnly)
  const GO_COOL_HIGH := EMPTY_REQUEST.(mask := NO_BITS.(mode := true, fan := true), mode := Cool, fan := High)
  const GO_OFF := EMPTY_REQUEST.(mask := NO_BITS.(power := true), power := false)
  const ALL_FEATURES :=
    EMPTY_REQUEST.(mask := NO_BITS.(quiet := true, units := true, timer := true),
                   quiet := true, units := true, timer := true)
  const GO_ON := EMPTY_REQUEST.(mask := NO_BITS.(power := true), power := true)

  /** The rewrites that the host tests list, each of the result of the one before. */
  lemma TurnedOnAt32()
    ensures ApplyPanel(Panel(0x11, 0x31, 0x00, 0x12, 0x40, 0x00, 0x79), WARM_ON, true)
            == Some(Panel(0x12, 0x31, 0x80, 0x20, 0x5A, 0x00, 0xD2))
  {
    PanelIsFrame(0x11, 0x31, 0x00, 0x12, 0x40, 0x00, 0x79);
    PanelIsFrame(0x12, 0x31, 0x80, 0x20, 0x5A, 0x00, 0xD2);
    var f, g := Panel(0x11, 0x31, 0x00, 0x12, 0x40, 0x00, 0x79),
      Panel(0x12, 0x31, 0x80, 0x20, 0x5A, 0x00, 0xD2);
    Rewritten(f, WARM_ON, true, g);
  }

  lemma SwitchedToDry()
    ensures ApplyPanel(Panel(0x12, 0x31, 0x80, 0x20, 0x5A, 0x00, 0xD2), GO_DRY, false)
            == Some(Panel(0x11, 0x43, 0x80, 0x20, 0x5A, 0x00, 0xA3))
  {
    PanelIsFrame(0x12, 0x31, 0x80, 0x20, 0x5A, 0x00, 0xD2);
    PanelIsFrame(0x11, 0x43, 0x80, 0x20, 0x5A, 0x00, 0xA3);
    var f, g := Panel(0x12, 0x31, 0x80, 0x20, 0x5A, 0x00, 0xD2),
      Panel(0x11, 0x43, 0x80, 0x20, 0x5A, 0x00, 0xA3);
    Rewritten(f, GO_DRY, false, g);
  }

  lemma SwitchedToFan()
    ensures ApplyPanel(Panel(0x11, 0x43, 0x80, 0x20, 0x5A, 0x00, 0xA3), GO_FAN, true)
            == Some(Panel(0x12, 0x22, 0x80, 0x20, 0x5A, 0x00, 0xC1))
  {
    PanelIsFrame(0x11, 0x43, 0x80, 0x20, 0x5A, 0x00, 0xA3);
    PanelIsFrame(0x12, 0x22, 0x80, 0x20, 0x5A, 0x00, 0xC1);
    var f, g := Panel(0x11, 0x43, 0x80, 0x20, 0x5A, 0x00, 0xA3),
      Panel(0x12, 0x22, 0x80, 0x20, 0x5A, 0x00, 0xC1);
    Rewritten(f, GO_FAN, true, g);
  }

  lemma SwitchedToCoolHigh()
    ensures ApplyPanel(Panel(0x12, 0x22, 0x80, 0x20, 0x5A, 0x00, 0xC1), GO_COOL_HIGH, true)
            == Some(Panel(0x12, 0x33, 0x80, 0x20, 0x5A, 0x00, 0xD0))
  {
    PanelIsFrame(0x12, 0x22, 0x80, 0x20, 0x5A, 0x00, 0xC1);
    PanelIsFrame(0x12, 0x33, 0x80, 0x20, 0x5A, 0x00, 0xD0);
    var f, g := Panel(0x12, 0x22, 0x80, 0x20, 0x5A, 0x00, 0xC1),
      Panel(0x12, 0x33, 0x80, 0x20, 0x5A, 0x00, 0xD0);
    Rewritten(f, GO_COOL_HIGH, true, g);
  }

  lemma TurnedOff()
    ensures ApplyPanel(Panel(0x12, 0x33, 0x80, 0x20, 0x5A, 0x00, 0xD0), GO_OFF, true)
            == Some(Panel(0x12, 0x33, 0x00, 0x20, 0x5A, 0x00, 0x50))
  {
    PanelIsFrame(0x12, 0x33, 0x80, 0x20, 0x5A, 0x00, 0xD0);
    PanelIsFrame(0x12, 0x33, 0x00, 0x20, 0x5A, 0x00, 0x50);
    var f, g := Panel(0x12, 0x33, 0x80, 0x20, 0x5A, 0x00, 0xD0),
      Panel(0x12, 0x33, 0x00, 0x20, 0x5A, 0x00, 0x50);
    Rewritten(f, GO_OFF, true, g);
  }

  lemma FeaturesSet()
    ensures ApplyPanel(Panel(0x12, 0x33, 0x00, 0x20, 0x5A, 0x00, 0x50), ALL_FEATURES, true)
            == Some(Panel(0x12, 0x33, 0x38, 0x20, 0x5A, 0x00, 0x68))
  {
    PanelIsFrame(0x12, 0x33, 0x00, 0x20, 0x5A, 0x00, 0x50);
    PanelIsFrame(0x12, 0x33, 0x38, 0x20, 0x5A, 0x00, 0x68);
    var f, g := Panel(0x12, 0x33, 0x00, 0x20, 0x5A, 0x00, 0x50),
      Panel(0x12, 0x33, 0x38, 0x20, 0x5A, 0x00, 0x68);
    Rewritten(f, ALL_FEATURES, true, g);
  }

  /** A cold panel turned on gives the very frame captured as the panel itself was turned on. */
  lemma ColdPanelTurnedOn()
    ensures ApplyPanel(Panel(0x11, 0x41, 0x00, 0x00, 0x00, 0x00, 0x5B), GO_ON, true)
            == Some(Panel(0x12, 0x31, 0x80, 0x12, 0x40, 0x00, 0xFA))
  {
    PanelIsFrame(0x11, 0x41, 0x00, 0x00, 0x00, 0x00, 0x5B);
    PanelIsFrame(0x12, 0x31, 0x80, 0x12, 0x40, 0x00, 0xFA);
    var f, g := Panel(0x11, 0x41, 0x00, 0x00, 0x00, 0x00, 0x5B),
      Panel(0x12, 0x31, 0x80, 0x12, 0x40, 0x00, 0xFA);
    Rewritten(f, GO_ON, true, g);
  }
}
