/**
  The 128-byte flash record of the capture store: little-endian fields, zero
  padding and a check value, and how the boot scan and the writer classify the
  bytes they find in a slot.
*/
module RecordCodec {
  import opened Wire
  import opened Crc

  const RECORD_SIZE: nat := 128
  const CHECKED_SIZE: nat := 124
  const DATA_MAX: nat := 104
  const DATA_START: nat := 20
  const SEQUENCE_LIMIT: nat := 0x1_0000_0000
  const FIRST_TYPE: Byte := 1
  const LAST_TYPE: Byte := 4

  /** What a capture request carries; the 64-bit time stamp as its low and high words. */
  datatype Request = Request(
    timeLow: bv32, timeHigh: bv32, recordType: Byte, direction: Byte, kind: Byte, data: seq<Byte>)

  predicate Storable(q: Request) { FIRST_TYPE <= q.recordType <= LAST_TYPE && |q.data| <= DATA_MAX }

  /** What a slot holds, as far as the store can tell. */
  datatype Slot = Blank | Garbage | Stored(sequence: nat, request: Request)

  function Magic(): seq<Byte> { [0x4B, 0x43, 0x50, 0x31] }

  // ----- numbers as bytes -----

  function ValueOf(b: Byte): (n: nat)
    ensures n < 256
  {
    b as nat
  }

  lemma ByteValue(n: nat)
    requires n < 256
    ensures ValueOf(n as Byte) == n
  {
  }

  function ByteOf(n: nat): (b: Byte)
    requires n < 256
    ensures ValueOf(b) == n
  {
    ByteValue(n);
    n as Byte
  }

  /** 32-bit number as four little-endian bytes. */
  function Digits(n: nat): (d: seq<Byte>)
    requires n < SEQUENCE_LIMIT
    ensures |d| == 4
  {
    var n1 := n / 256;
    var n2 := n1 / 256;
    [ByteOf(n % 256), ByteOf(n1 % 256), ByteOf(n2 % 256), ByteOf(n2 / 256)]
  }

  function Number(d: seq<Byte>): nat
    requires |d| == 4
  {
    ValueOf(d[0]) + 256 * (ValueOf(d[1]) + 256 * (ValueOf(d[2]) + 256 * ValueOf(d[3])))
  }

  lemma DigitsRoundTrip(n: nat)
    requires n < SEQUENCE_LIMIT
    ensures Number(Digits(n)) == n
  {
    var n1 := n / 256;
    var n2 := n1 / 256;
    assert n == n % 256 + 256 * n1 && n1 == n1 % 256 + 256 * n2 && n2 == n2 % 256 + 256 * (n2 / 256);
  }

  // ----- layout -----

  function Zeros(n: nat): (z: seq<Byte>)
    ensures |z| == n
  {
    if n == 0 then [] else Zeros(n - 1) + [0]
  }

  function Header(sequence: nat, q: Request): (h: seq<Byte>)
    requires Storable(q) && sequence < SEQUENCE_LIMIT
    ensures |h| == DATA_START
  {
    Magic() + Digits(sequence) + WordBytes(q.timeLow) + WordBytes(q.timeHigh)
    + [q.recordType, q.direction, q.kind, ByteOf(|q.data|)]
  }

  /** The part of a record that its check value covers. */
  function Payload(sequence: nat, q: Request): (p: seq<Byte>)
    requires Storable(q) && sequence < SEQUENCE_LIMIT
    ensures |p| == CHECKED_SIZE
  {
    Header(sequence, q) + q.data + Zeros(DATA_MAX - |q.data|)
  }

  /** The bytes the writer programs. */
  function Encode(sequence: nat, q: Request): (bytes: seq<Byte>)
    requires Storable(q) && sequence < SEQUENCE_LIMIT
    ensures |bytes| == RECORD_SIZE
  {
    Payload(sequence, q) + WordBytes(Crc32(Payload(sequence, q)))
  }

  predicate RecordValid(bytes: seq<Byte>) {
    |bytes| == RECORD_SIZE
    && bytes[..4] == Magic()
    && Number(bytes[4..8]) != 0
    && ValueOf(bytes[19]) <= DATA_MAX
    && FIRST_TYPE <= bytes[16] <= LAST_TYPE
    && Sealed(bytes)
  }

  predicate RecordErased(bytes: seq<Byte>) { forall i :: 0 <= i < |bytes| ==> bytes[i] == 0xFF }

  function StoredRequest(bytes: seq<Byte>): Request
    requires RecordValid(bytes)
  {
    Request(Word(bytes[8..12]), Word(bytes[12..16]), bytes[16], bytes[17], bytes[18],
            bytes[DATA_START..DATA_START + ValueOf(bytes[19])])
  }

  function Classify(bytes: seq<Byte>): Slot {
    if RecordValid(bytes) then Stored(Number(bytes[4..8]), StoredRequest(bytes))
    else if |bytes| == RECORD_SIZE && RecordErased(bytes) then Blank
    else Garbage
  }

  // ----- properties -----

  lemma PayloadFields(sequence: nat, q: Request)
    requires Storable(q) && sequence < SEQUENCE_LIMIT
    ensures var p := Payload(sequence, q);
      && p[..4] == Magic()
      && p[4..8] == Digits(sequence)
      && p[8..12] == WordBytes(q.timeLow)
      && p[12..16] == WordBytes(q.timeHigh)
  {
  }

  lemma PayloadBytes(sequence: nat, q: Request)
    requires Storable(q) && sequence < SEQUENCE_LIMIT
    ensures var p := Payload(sequence, q);
      && p[16] == q.recordType
      && p[17] == q.direction
      && p[18] == q.kind
      && p[19] == ByteOf(|q.data|)
      && p[DATA_START..DATA_START + |q.data|] == q.data
  {
  }

  lemma EncodeIsSealed(sequence: nat, q: Request)
    requires Storable(q) && sequence < SEQUENCE_LIMIT
    ensures Sealed(Encode(sequence, q))
    ensures Encode(sequence, q)[..CHECKED_SIZE] == Payload(sequence, q)
  {
    var p := Payload(sequence, q);
    var bytes := Encode(sequence, q);
    assert bytes[CHECKED_SIZE..] == WordBytes(Crc32(p));
    assert bytes[..CHECKED_SIZE] == p;
    WordRoundTrip(Crc32(p));
  }

  lemma PrefixSlice(bytes: seq<Byte>, n: nat, i: nat, j: nat)
    requires i <= j <= n <= |bytes|
    ensures bytes[i..j] == bytes[..n][i..j]
  {
  }

  lemma EncodedFields(sequence: nat, q: Request)
    requires Storable(q) && sequence < SEQUENCE_LIMIT
    ensures var bytes := Encode(sequence, q);
      && bytes[..4] == Magic()
      && bytes[4..8] == Digits(sequence)
      && bytes[8..12] == WordBytes(q.timeLow)
      && bytes[12..16] == WordBytes(q.timeHigh)
      && bytes[16] == q.recordType
      && bytes[17] == q.direction
      && bytes[18] == q.kind
      && bytes[19] == ByteOf(|q.data|)
      && bytes[DATA_START..DATA_START + |q.data|] == q.data
  {
    var bytes := Encode(sequence, q);
    EncodeIsSealed(sequence, q);
    PayloadFields(sequence, q);
    PayloadBytes(sequence, q);
    PrefixSlice(bytes, CHECKED_SIZE, 0, 4);
    PrefixSlice(bytes, CHECKED_SIZE, 4, 8);
    PrefixSlice(bytes, CHECKED_SIZE, 8, 12);
    PrefixSlice(bytes, CHECKED_SIZE, 12, 16);
    PrefixSlice(bytes, CHECKED_SIZE, DATA_START, DATA_START + |q.data|);
  }

  /** Whatever is written reads back as the same sequence number and the same request. */
  lemma EncodeRoundTrip(sequence: nat, q: Request)
    requires Storable(q) && 0 < sequence < SEQUENCE_LIMIT
    ensures Classify(Encode(sequence, q)) == Stored(sequence, q)
  {
    EncodeIsSealed(sequence, q);
    EncodedFields(sequence, q);
    DigitsRoundTrip(sequence);
    WordRoundTrip(q.timeLow);
    WordRoundTrip(q.timeHigh);
  }

  /** Erased flash is never taken for a record. */
  lemma ErasedIsBlank(bytes: seq<Byte>)
    requires |bytes| == RECORD_SIZE
    ensures Classify(bytes) == Blank <==> RecordErased(bytes)
    ensures RecordErased(bytes) <==> forall i :: 0 <= i < 128 ==> bytes[i] == 0xFF
  {
    if RecordValid(bytes) {
      assert bytes[0] == bytes[..4][0] == 0x4B;
    }
  }

  /** Damage within any four consecutive bytes of a record never reads back as a record. */
  lemma BurstIsNoRecord(bytes: seq<Byte>, damaged: seq<Byte>, k: nat)
    requires RecordValid(bytes) && DifferWithin(bytes, damaged, k) && damaged != bytes
    ensures !Classify(damaged).Stored?
  {
    BurstUnseals(bytes, damaged, k);
  }

  /**
    What is taken for a record, in bytes: 128 of them, beginning with the letters
    KCP1, a number that is not zero, a type from 1 to 4, at most 104 bytes of data,
    and a check value that makes the register end in the residue.
  */
  lemma StoredExactly(bytes: seq<Byte>)
    ensures Classify(bytes).Stored? <==>
              && |bytes| == 128
              && bytes[0] == 0x4B && bytes[1] == 0x43 && bytes[2] == 0x50 && bytes[3] == 0x31
              && !(bytes[4] == 0 && bytes[5] == 0 && bytes[6] == 0 && bytes[7] == 0)
              && (bytes[16] == 1 || bytes[16] == 2 || bytes[16] == 3 || bytes[16] == 4)
              && bytes[19] as int <= 104
              && Register(0xFFFFFFFF, bytes) == RESIDUE
  {
    if |bytes| == 128 {
      SealedLeavesResidue(bytes);
      MagicBytes(bytes);
      NumberIsZero(bytes[4..8]);
      TypeRange(bytes[16]);
    }
  }

  lemma MagicBytes(bytes: seq<Byte>)
    requires |bytes| >= 4
    ensures bytes[..4] == Magic() <==> bytes[0] == 0x4B && bytes[1] == 0x43 && bytes[2] == 0x50 && bytes[3] == 0x31
  {
    assert bytes[..4] == [bytes[0], bytes[1], bytes[2], bytes[3]];
  }

  lemma ZeroByte(b: Byte)
    ensures ValueOf(b) == 0 <==> b == 0
  {
  }

  lemma NumberIsZero(d: seq<Byte>)
    requires |d| == 4
    ensures Number(d) == 0 <==> d[0] == 0 && d[1] == 0 && d[2] == 0 && d[3] == 0
  {
    ZeroByte(d[0]);
    ZeroByte(d[1]);
    ZeroByte(d[2]);
    ZeroByte(d[3]);
  }

  lemma TypeRange(t: Byte)
    ensures FIRST_TYPE <= t <= LAST_TYPE <==> t == 1 || t == 2 || t == 3 || t == 4
  {
  }

  /** And what it says: number and data length in the stated bytes, the data behind them. */
  lemma StoredSays(bytes: seq<Byte>)
    requires Classify(bytes).Stored?
    ensures var slot, q := Classify(bytes), Classify(bytes).request;
      && |bytes| == 128 && |q.data| == bytes[19] as int <= 104
      && slot.sequence == bytes[4] as int + 256 * (bytes[5] as int + 256 * (bytes[6] as int + 256 * bytes[7] as int))
      && q.recordType == bytes[16] && q.direction == bytes[17] && q.kind == bytes[18]
      && q.data == bytes[20..20 + |q.data|]
      && WordBytes(q.timeLow) == bytes[8..12] && WordBytes(q.timeHigh) == bytes[12..16]
  {
    FourBytes(bytes[8..12]);
    FourBytes(bytes[12..16]);
  }

  lemma FourBytes(d: seq<Byte>)
    requires |d| == 4
    ensures WordBytes(Word(d)) == d
  {
    WordParts(d[0], d[1], d[2], d[3]);
    assert d == [d[0], d[1], d[2], d[3]];
  }

  // ----- the loops -----

  method CheckErased(bytes: seq<Byte>) returns (erased: bool)
    ensures erased == RecordErased(bytes)
  {
    for i := 0 to |bytes|
      invariant forall j :: 0 <= j < i ==> bytes[j] == 0xFF
    {
      if bytes[i] != 0xFF {
        return false;
      }
    }
    erased := true;
  }

  method CheckRecord(bytes: seq<Byte>) returns (valid: bool)
    requires |bytes| == RECORD_SIZE
    ensures valid == RecordValid(bytes)
  {
    var value := ComputeCrc32(bytes[..CHECKED_SIZE]);
    valid := bytes[..4] == Magic()
      && Number(bytes[4..8]) != 0
      && ValueOf(bytes[19]) <= DATA_MAX
      && FIRST_TYPE <= bytes[16] <= LAST_TYPE
      && Word(bytes[CHECKED_SIZE..]) == value;
  }

  method BuildRecord(sequence: nat, q: Request) returns (bytes: seq<Byte>)
    requires Storable(q) && sequence < SEQUENCE_LIMIT
    ensures bytes == Encode(sequence, q)
  {
    var payload := Header(sequence, q) + q.data + Zeros(DATA_MAX - |q.data|);
    var value := ComputeCrc32(payload);
    bytes := payload + WordBytes(value);
  }
}
