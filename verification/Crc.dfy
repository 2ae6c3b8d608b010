/**
  The record check value of the capture store: the reflected CRC-32 of
  section 8 of RFC 1952, computed one bit at a time.
*/
module Crc {
  import opened Wire
  import opened ShiftRegister

  const POLYNOMIAL: bv32 := 0xEDB88320
  const INITIAL: bv32 := 0xFFFFFFFF
  const BITS_PER_BYTE: nat := 8

  function Plus(x: bv32, y: bv32): (sum: bv32)
    ensures sum == x ^ y
  {
    x ^ y
  }

  function BitStep(r: bv32): bv32 {
    if r & 1 != 0 then (r >> 1) ^ POLYNOMIAL else r >> 1
  }

  function Shift8(r: bv32): bv32 { Iterate(BitStep, r, BITS_PER_BYTE) }

  function Widen(data: seq<Byte>): (w: seq<bv32>)
    ensures |w| == |data|
  {
    if data == [] then [] else Widen(data[..|data| - 1]) + [data[|data| - 1] as bv32]
  }

  /** The shift register after a run of bytes. */
  function Register(r: bv32, data: seq<Byte>): bv32 { Absorb(Shift8, Plus, r, Widen(data)) }

  function Flip(r: bv32): bv32 { !r }

  function Crc32(data: seq<Byte>): bv32 { Flip(Register(INITIAL, data)) }

  lemma RegisterSnoc(r: bv32, data: seq<Byte>, b: Byte)
    ensures Register(r, data + [b]) == Shift8(Plus(Register(r, data), b as bv32))
  {
    assert (data + [b])[..|data|] == data;
    AbsorbSnoc(Shift8, Plus, r, Widen(data), b as bv32);
  }

  lemma MaskedOdd(crc: bv32)
    requires crc & 1 != 0
    ensures (crc >> 1) ^ (POLYNOMIAL & 0xFFFFFFFF) == BitStep(crc)
  {
  }

  lemma MaskedEven(crc: bv32)
    requires crc & 1 == 0
    ensures (crc >> 1) ^ (POLYNOMIAL & 0) == BitStep(crc)
  {
  }

  /** One bit, with the polynomial masked by the bit that leaves the register. */
  method ShiftBit(crc: bv32) returns (next: bv32)
    ensures next == BitStep(crc)
  {
    if crc & 1 != 0 {
      var mask: bv32 := 0xFFFFFFFF;
      MaskedOdd(crc);
      next := (crc >> 1) ^ (POLYNOMIAL & mask);
    } else {
      var mask: bv32 := 0;
      MaskedEven(crc);
      next := (crc >> 1) ^ (POLYNOMIAL & mask);
    }
  }

  method ShiftByte(start: bv32) returns (crc: bv32)
    ensures crc == Shift8(start)
  {
    crc := start;
    for bit := 0 to BITS_PER_BYTE
      invariant crc == Iterate(BitStep, start, bit)
    {
      crc := ShiftBit(crc);
    }
  }

  method AbsorbByte(crc: bv32, b: Byte) returns (next: bv32)
    ensures next == Shift8(Plus(crc, b as bv32))
  {
    next := ShiftByte(crc ^ (b as bv32));
  }

  method ComputeCrc32(data: seq<Byte>) returns (value: bv32)
    ensures value == Crc32(data)
  {
    var crc := INITIAL;
    for i := 0 to |data|
      invariant crc == Register(INITIAL, data[..i])
    {
      RegisterSnoc(INITIAL, data[..i], data[i]);
      assert data[..i] + [data[i]] == data[..i + 1];
      crc := AbsorbByte(crc, data[i]);
    }
    assert data[..|data|] == data;
    value := Flip(crc);
  }

  // ----- the bit step is linear and a bijection -----

  lemma LinearEvenEven(x: bv32, y: bv32)
    requires x & 1 == 0 && y & 1 == 0
    ensures BitStep(x ^ y) == BitStep(x) ^ BitStep(y)
  {
  }

  lemma LinearOddEven(x: bv32, y: bv32)
    requires x & 1 != 0 && y & 1 == 0
    ensures BitStep(x ^ y) == BitStep(x) ^ BitStep(y)
  {
  }

  lemma LinearEvenOdd(x: bv32, y: bv32)
    requires x & 1 == 0 && y & 1 != 0
    ensures BitStep(x ^ y) == BitStep(x) ^ BitStep(y)
  {
  }

  lemma LinearOddOdd(x: bv32, y: bv32)
    requires x & 1 != 0 && y & 1 != 0
    ensures BitStep(x ^ y) == BitStep(x) ^ BitStep(y)
  {
  }

  lemma BitStepLinear(x: bv32, y: bv32)
    ensures BitStep(x ^ y) == BitStep(x) ^ BitStep(y)
  {
    if x & 1 == 0 {
      if y & 1 == 0 { LinearEvenEven(x, y); } else { LinearEvenOdd(x, y); }
    } else {
      if y & 1 == 0 { LinearOddEven(x, y); } else { LinearOddOdd(x, y); }
    }
  }

  function Unstep(r: bv32): bv32 {
    if r & 0x80000000 != 0 then ((r ^ POLYNOMIAL) << 1) | 1 else r << 1
  }

  lemma UnstepOfEven(r: bv32)
    requires r & 1 == 0
    ensures Unstep(BitStep(r)) == r
  {
  }

  lemma UnstepOfOdd(r: bv32)
    requires r & 1 != 0
    ensures Unstep(BitStep(r)) == r
  {
  }

  lemma StepOfLow(r: bv32)
    requires r & 0x80000000 == 0
    ensures BitStep(Unstep(r)) == r
  {
  }

  lemma StepOfHigh(r: bv32)
    requires r & 0x80000000 != 0
    ensures BitStep(Unstep(r)) == r
  {
  }

  /** The bit step is a bijection on the 32-bit register. */
  lemma UnstepInverts(r: bv32)
    ensures Unstep(BitStep(r)) == r
    ensures BitStep(Unstep(r)) == r
  {
    if r & 1 == 0 { UnstepOfEven(r); } else { UnstepOfOdd(r); }
    if r & 0x80000000 == 0 { StepOfLow(r); } else { StepOfHigh(r); }
  }

  lemma BitStepIsLinear()
    ensures Linear(BitStep, Plus)
  {
    forall x, y
      ensures LinearAt(BitStep, Plus, x, y)
    {
      BitStepLinear(x, y);
    }
  }

  lemma BitStepIsInjective()
    ensures Injective(BitStep)
  {
    forall x, y
      ensures InjectiveAt(BitStep, x, y)
    {
      UnstepInverts(x);
      UnstepInverts(y);
    }
  }

  lemma Shift8IsLinear()
    ensures Linear(Shift8, Plus)
  {
    BitStepIsLinear();
    forall x, y
      ensures LinearAt(Shift8, Plus, x, y)
    {
      IterateLinear(BitStep, Plus, x, y, BITS_PER_BYTE);
    }
  }

  lemma Shift8IsInjective()
    ensures Injective(Shift8)
  {
    BitStepIsInjective();
    forall x, y
      ensures InjectiveAt(Shift8, x, y)
    {
      if Shift8(x) == Shift8(y) {
        IterateInjective(BitStep, x, y, BITS_PER_BYTE);
      }
    }
  }

  function Unshift8(r: bv32): bv32 { Iterate(Unstep, r, BITS_PER_BYTE) }

  lemma StepsUndone()
    ensures forall x :: UndoesAt(Unstep, BitStep, x)
    ensures forall x :: UndoesAt(BitStep, Unstep, x)
  {
    forall x
      ensures UndoesAt(Unstep, BitStep, x) && UndoesAt(BitStep, Unstep, x)
    {
      UnstepInverts(x);
    }
  }

  /** The byte step is a bijection: eight inverse bit steps undo it on either side. */
  lemma Shift8IsBijection(r: bv32)
    ensures Unshift8(Shift8(r)) == r
    ensures Shift8(Unshift8(r)) == r
  {
    StepsUndone();
    IterateUndone(Unstep, BitStep, r, BITS_PER_BYTE);
    IterateUndone(BitStep, Unstep, r, BITS_PER_BYTE);
  }

  lemma PlusCancels()
    ensures Cancels(Plus)
  {
    forall x, y, b
      ensures CancelsAt(Plus, x, y, b)
    {
    }
  }

  lemma XorAssociates(x: bv32, y: bv32, z: bv32)
    ensures Plus(x, Plus(y, z)) == Plus(Plus(x, y), z)
  {
  }

  lemma XorCommutes(x: bv32, y: bv32)
    ensures Plus(x, y) == Plus(y, x)
  {
  }

  lemma PlusAssociates()
    ensures Associates(Plus)
  {
    forall x, y, z
      ensures AssociatesAt(Plus, x, y, z)
    {
      XorAssociates(x, y, z);
    }
  }

  lemma PlusRegroups()
    ensures Regroups(Plus)
  {
    PlusAssociates();
    forall x, y, z
      ensures SwapsAt(Plus, x, y, z)
    {
      assert AssociatesAt(Plus, x, y, z) && AssociatesAt(Plus, x, z, y);
      XorCommutes(y, z);
    }
    SwapsRegroup(Plus);
  }

  function PlusByte(x: Byte, y: Byte): Byte { x ^ y }

  /** Bytewise XOR of two equally long byte strings. */
  function XorBytes(a: seq<Byte>, b: seq<Byte>): (c: seq<Byte>)
    requires |a| == |b|
    ensures |c| == |a|
  {
    if a == [] then [] else XorBytes(a[..|a| - 1], b[..|b| - 1]) + [PlusByte(a[|a| - 1], b[|b| - 1])]
  }

  lemma WidenedXor(x: Byte, y: Byte)
    ensures PlusByte(x, y) as bv32 == Plus(x as bv32, y as bv32)
  {
  }

  lemma WidenXorSnoc(a: seq<Byte>, b: seq<Byte>, x: Byte, y: Byte)
    requires |a| == |b| && Widen(XorBytes(a, b)) == AddAll(Plus, Widen(a), Widen(b))
    ensures Widen(XorBytes(a, b) + [PlusByte(x, y)]) == AddAll(Plus, Widen(a + [x]), Widen(b + [y]))
  {
    WidenSnoc(XorBytes(a, b), PlusByte(x, y));
    WidenSnoc(a, x);
    WidenSnoc(b, y);
    WidenedXor(x, y);
    AddAllSnoc(Plus, Widen(a), Widen(b), x as bv32, y as bv32);
  }

  lemma {:induction false} WidenXor(a: seq<Byte>, b: seq<Byte>)
    requires |a| == |b|
    ensures Widen(XorBytes(a, b)) == AddAll(Plus, Widen(a), Widen(b))
  {
    if a != [] {
      var n := |a| - 1;
      WidenXor(a[..n], b[..n]);
      WidenXorSnoc(a[..n], b[..n], a[n], b[n]);
      assert a == a[..n] + [a[n]] && b == b[..n] + [b[n]];
    }
  }

  lemma WidenSnoc(data: seq<Byte>, b: Byte)
    ensures Widen(data + [b]) == Widen(data) + [b as bv32]
  {
    assert (data + [b])[..|data|] == data;
  }

  /** The register is XOR-linear in start value and data together. */
  lemma RegisterLinear(r: bv32, q: bv32, a: seq<Byte>, b: seq<Byte>)
    requires |a| == |b|
    ensures Register(Plus(r, q), XorBytes(a, b)) == Plus(Register(r, a), Register(q, b))
  {
    Shift8IsLinear();
    PlusRegroups();
    WidenXor(a, b);
    AbsorbLinear(Shift8, Plus, r, q, Widen(a), Widen(b));
  }

  lemma RegisterInjective(x: bv32, y: bv32, data: seq<Byte>)
    requires Register(x, data) == Register(y, data)
    ensures x == y
  {
    Shift8IsInjective();
    PlusCancels();
    AbsorbInjective(Shift8, Plus, x, y, Widen(data));
  }

  lemma {:induction false} WidenAppend(a: seq<Byte>, b: seq<Byte>)
    ensures Widen(a + b) == Widen(a) + Widen(b)
  {
    if b == [] {
      assert a + b == a;
    } else {
      var n := |b| - 1;
      WidenAppend(a, b[..n]);
      assert (a + b)[..|a + b| - 1] == a + b[..n];
    }
  }

  lemma RegisterAppend(r: bv32, a: seq<Byte>, b: seq<Byte>)
    ensures Register(r, a + b) == Register(Register(r, a), b)
  {
    WidenAppend(a, b);
    AbsorbAppend(Shift8, Plus, r, Widen(a), Widen(b));
  }

  // ----- the table-driven reference -----

  /** Entry n of the table that RFC 1952 builds: eight bit steps of n. */
  function TableEntry(n: bv32): bv32 { Shift8(n) }

  function TableStep(c: bv32, b: bv32): bv32 { Plus(TableEntry((c ^ b) & 0xFF), Down8(c)) }

  function TableCrc32(data: seq<Byte>): bv32 { Flip(Drive(TableStep, INITIAL, Widen(data))) }

  function Half(r: bv32): bv32 { r >> 1 }

  function Down8(r: bv32): bv32 { r >> 8 }

  predicate ClearLow(r: bv32) { r & 0xFF == 0 }

  lemma EvenStep(r: bv32)
    requires r & 1 == 0
    ensures BitStep(r) == Half(r)
  {
  }

  lemma LowZeros(y: bv32)
    requires ClearLow(y)
    ensures y & 1 == 0 && Half(y) & 1 == 0 && Half(Half(y)) & 1 == 0 && Half(Half(Half(y))) & 1 == 0
  {
  }

  lemma HighZeros(y: bv32)
    requires ClearLow(y)
    ensures var z := Half(Half(Half(Half(y))));
      z & 1 == 0 && Half(z) & 1 == 0 && Half(Half(z)) & 1 == 0 && Half(Half(Half(z))) & 1 == 0
  {
  }

  lemma EightHalves(y: bv32)
    ensures Half(Half(Half(Half(Half(Half(Half(Half(y)))))))) == Down8(y)
  {
  }

  lemma FourEvenSteps(y: bv32)
    requires y & 1 == 0 && Half(y) & 1 == 0 && Half(Half(y)) & 1 == 0 && Half(Half(Half(y))) & 1 == 0
    ensures Iterate(BitStep, y, 4) == Half(Half(Half(Half(y))))
  {
    EvenStep(y);
    EvenStep(Half(y));
    EvenStep(Half(Half(y)));
    EvenStep(Half(Half(Half(y))));
    IterateFour(BitStep, y);
  }

  /** Eight zero bits pass through the register unchanged. */
  lemma PassThrough(y: bv32)
    requires ClearLow(y)
    ensures Shift8(y) == Down8(y)
  {
    var z := Half(Half(Half(Half(y))));
    LowZeros(y);
    FourEvenSteps(y);
    HighZeros(y);
    FourEvenSteps(z);
    IterateSum(BitStep, y, 4, 4);
    EightHalves(y);
  }

  /** Bits above the low byte only move down during a byte step. */
  lemma Peel(x: bv32, z: bv32)
    requires ClearLow(z)
    ensures Shift8(Plus(x, z)) == Plus(Shift8(x), Down8(z))
  {
    Shift8IsLinear();
    assert LinearAt(Shift8, Plus, x, z);
    PassThrough(z);
  }

  lemma SplitLowByte(c: bv32, b: bv32)
    requires b & 0xFFFFFF00 == 0
    ensures Plus(c, b) == Plus((c ^ b) & 0xFF, c & 0xFFFFFF00)
    ensures ClearLow(c & 0xFFFFFF00) && Down8(c & 0xFFFFFF00) == Down8(c)
  {
  }

  lemma ShiftIsTableStep(c: bv32, b: bv32)
    requires b & 0xFFFFFF00 == 0
    ensures SameStepAt(Shift8, Plus, TableStep, c, b)
  {
    SplitLowByte(c, b);
    Peel((c ^ b) & 0xFF, c & 0xFFFFFF00);
  }

  lemma {:induction false} WidenedAreBytes(data: seq<Byte>)
    ensures forall b :: b in Widen(data) ==> b & 0xFFFFFF00 == 0
  {
    if data != [] {
      WidenedAreBytes(data[..|data| - 1]);
    }
  }

  /** The bit-serial loop computes the table-driven CRC of RFC 1952. */
  lemma LoopIsTableDriven(data: seq<Byte>)
    ensures Crc32(data) == TableCrc32(data)
  {
    var symbols := set b | b in Widen(data);
    WidenedAreBytes(data);
    forall x, b | b in symbols
      ensures SameStepAt(Shift8, Plus, TableStep, x, b)
    {
      ShiftIsTableStep(x, b);
    }
    AbsorbIsDrive(Shift8, Plus, TableStep, INITIAL, Widen(data), symbols);
  }

  // ----- four bytes at a time -----

  /** Little-endian 32-bit word. */
  function Word(w: seq<Byte>): bv32
    requires |w| == 4
  {
    (w[0] as bv32) | ((w[1] as bv32) << 8) | ((w[2] as bv32) << 16) | ((w[3] as bv32) << 24)
  }

  function WordBytes(x: bv32): seq<Byte> {
    [(x & 0xFF) as Byte, ((x >> 8) & 0xFF) as Byte, ((x >> 16) & 0xFF) as Byte, ((x >> 24) & 0xFF) as Byte]
  }

  lemma WordRoundTrip(x: bv32)
    ensures Word(WordBytes(x)) == x
  {
  }

  lemma WordParts(a: Byte, b: Byte, c: Byte, d: Byte)
    ensures WordBytes(Word([a, b, c, d])) == [a, b, c, d]
  {
  }

  lemma BytesOfWord(w: seq<Byte>)
    requires |w| == 4
    ensures WordBytes(Word(w)) == w
  {
    WordParts(w[0], w[1], w[2], w[3]);
    assert w == [w[0], w[1], w[2], w[3]];
  }

  function Shift32(r: bv32): bv32 { Shift8(Shift8(Shift8(Shift8(r)))) }

  lemma Shift32Injective(x: bv32, y: bv32)
    requires Shift32(x) == Shift32(y)
    ensures x == y
  {
    Shift8IsInjective();
    assert InjectiveAt(Shift8, Shift8(Shift8(Shift8(x))), Shift8(Shift8(Shift8(y))));
    assert InjectiveAt(Shift8, Shift8(Shift8(x)), Shift8(Shift8(y)));
    assert InjectiveAt(Shift8, Shift8(x), Shift8(y));
    assert InjectiveAt(Shift8, x, y);
  }

  lemma BitsAboveMoveDown()
    ensures MovesDown(Shift8, Plus, Down8, ClearLow)
  {
    forall x, z | ClearLow(z)
      ensures MovesDownAt(Shift8, Plus, Down8, x, z)
    {
      Peel(x, z);
    }
  }

  // What is left of a word once its lowest one, two or three bytes are taken off.
  function AboveFirst(x: bv32): bv32 { x & 0xFFFFFF00 }

  function AboveSecond(x: bv32): bv32 { (x >> 8) & 0xFFFF00 }

  function AboveThird(x: bv32): bv32 { (x >> 16) & 0xFF00 }

  lemma PeelFirst(w: seq<Byte>)
    requires |w| == 4
    ensures Word(w) == Plus(w[0] as bv32, AboveFirst(Word(w))) && ClearLow(AboveFirst(Word(w)))
  {
  }

  lemma PeelSecond(w: seq<Byte>)
    requires |w| == 4
    ensures Down8(AboveFirst(Word(w))) == Plus(w[1] as bv32, AboveSecond(Word(w))) && ClearLow(AboveSecond(Word(w)))
  {
  }

  lemma PeelThird(w: seq<Byte>)
    requires |w| == 4
    ensures Down8(AboveSecond(Word(w))) == Plus(w[2] as bv32, AboveThird(Word(w))) && ClearLow(AboveThird(Word(w)))
  {
  }

  lemma PeelFourth(w: seq<Byte>)
    requires |w| == 4
    ensures Down8(AboveThird(Word(w))) == w[3] as bv32
  {
  }

  lemma WidenTwo(a: Byte, b: Byte)
    ensures Widen([a, b]) == [a as bv32, b as bv32]
  {
    assert [a, b][..1] == [a] && [a][..0] == [];
  }

  lemma WidenFour(a: Byte, b: Byte, c: Byte, d: Byte)
    ensures Widen([a, b, c, d]) == [a as bv32, b as bv32, c as bv32, d as bv32]
  {
    WidenTwo(a, b);
    WidenTwo(c, d);
    WidenAppend([a, b], [c, d]);
    assert [a, b] + [c, d] == [a, b, c, d];
  }

  lemma AbsorbWord(r: bv32, w: seq<Byte>)
    requires |w| == 4
    ensures Absorb(Shift8, Plus, r, [w[0] as bv32, w[1] as bv32, w[2] as bv32, w[3] as bv32])
            == Shift32(Plus(r, Word(w)))
  {
    var x := Word(w);
    PeelFirst(w);
    PeelSecond(w);
    PeelThird(w);
    PeelFourth(w);
    BitsAboveMoveDown();
    PlusAssociates();
    AbsorbFour(Shift8, Plus, Down8, ClearLow, r, x, w[0] as bv32, w[1] as bv32, w[2] as bv32, w[3] as bv32,
               AboveFirst(x), AboveSecond(x), AboveThird(x));
  }

  /** Absorbing a whole word at once: four byte steps of the register with the word added in. */
  lemma RegisterOfWord(r: bv32, w: seq<Byte>)
    requires |w| == 4
    ensures Register(r, w) == Shift32(Plus(r, Word(w)))
  {
    AbsorbWord(r, w);
    assert w == [w[0], w[1], w[2], w[3]];
    WidenFour(w[0], w[1], w[2], w[3]);
  }

  lemma WordInjective(x: seq<Byte>, y: seq<Byte>)
    requires |x| == |y| == 4 && Word(x) == Word(y)
    ensures x == y
  {
    BytesOfWord(x);
    BytesOfWord(y);
  }

  /** Different words drive one register value to different values. */
  lemma WordsSeparate(r: bv32, x: seq<Byte>, y: seq<Byte>)
    requires |x| == |y| == 4 && Register(r, x) == Register(r, y)
    ensures x == y
  {
    RegisterOfWord(r, x);
    RegisterOfWord(r, y);
    Shift32Injective(Plus(r, Word(x)), Plus(r, Word(y)));
    PlusSeparates(r, Word(x), Word(y));
    WordInjective(x, y);
  }

  lemma PlusSeparates(r: bv32, x: bv32, y: bv32)
    requires Plus(r, x) == Plus(r, y)
    ensures x == y
  {
  }

  /** Equal-length strings that differ only in four consecutive bytes from k on. */
  ghost predicate DifferWithin(a: seq<Byte>, b: seq<Byte>, k: nat) {
    |a| == |b| && k + 4 <= |a| && a[..k] == b[..k] && a[k + 4..] == b[k + 4..]
  }

  /** Strings that differ only inside four consecutive bytes never share a register. */
  lemma BurstMovesRegister(r: bv32, a: seq<Byte>, b: seq<Byte>, k: nat)
    requires DifferWithin(a, b, k) && Register(r, a) == Register(r, b)
    ensures a == b
  {
    var head, tail := a[..k], a[k + 4..];
    var x, y := a[k..k + 4], b[k..k + 4];
    assert a == head + x + tail && b == head + y + tail;
    RegisterAppend(r, head + x, tail);
    RegisterAppend(r, head + y, tail);
    RegisterInjective(Register(r, head + x), Register(r, head + y), tail);
    RegisterAppend(r, head, x);
    RegisterAppend(r, head, y);
    WordsSeparate(Register(r, head), x, y);
  }

  lemma FlipInjective(x: bv32, y: bv32)
    requires Flip(x) == Flip(y)
    ensures x == y
  {
  }

  /** The check value tells any two such strings apart. */
  lemma BurstChangesCrc(a: seq<Byte>, b: seq<Byte>, k: nat)
    requires DifferWithin(a, b, k) && a != b
    ensures Crc32(a) != Crc32(b)
  {
    if Crc32(a) == Crc32(b) {
      FlipInjective(Register(INITIAL, a), Register(INITIAL, b));
      BurstMovesRegister(INITIAL, a, b, k);
    }
  }

  /** A byte string whose last four bytes are the check value of the rest. */
  predicate Sealed(record: seq<Byte>) {
    |record| >= 4 && Word(record[|record| - 4..]) == Crc32(record[..|record| - 4])
  }

  const RESIDUE: bv32 := Shift32(0xFFFFFFFF)

  lemma SumWithComplement(r: bv32)
    ensures Plus(r, Flip(r)) == 0xFFFFFFFF
  {
  }

  /** A string is sealed exactly when running the register over all of it leaves one fixed value. */
  lemma SealedLeavesResidue(record: seq<Byte>)
    requires |record| >= 4
    ensures Sealed(record) <==> Register(INITIAL, record) == RESIDUE
  {
    var n := |record| - 4;
    var r, w := Register(INITIAL, record[..n]), record[n..];
    assert record == record[..n] + w;
    RegisterAppend(INITIAL, record[..n], w);
    RegisterOfWord(r, w);
    SumWithComplement(r);
    if Register(INITIAL, record) == RESIDUE {
      Shift32Injective(Plus(r, Word(w)), 0xFFFFFFFF);
      PlusSeparates(r, Word(w), Flip(r));
    }
  }

  /** Damage confined to four consecutive bytes, the check value itself included, always unseals. */
  lemma BurstUnseals(a: seq<Byte>, b: seq<Byte>, k: nat)
    requires DifferWithin(a, b, k) && a != b && Sealed(a)
    ensures !Sealed(b)
  {
    SealedLeavesResidue(a);
    SealedLeavesResidue(b);
    if Sealed(b) {
      BurstMovesRegister(INITIAL, a, b, k);
    }
  }
}
