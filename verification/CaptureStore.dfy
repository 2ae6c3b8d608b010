/**
  The flash capture ring: an append-only log of fixed-size records on flash that
  is erased a sector at a time, with a RAM index of the stored sequence numbers.

  Positions are slot numbers, that is byte offsets divided by the record size.
  The pure functions say what one operation does to the state; the class below
  does it in place, on the bytes of the partition.
*/
module CaptureStore {
  import opened Wire
  import opened RecordCodec

  const SECTOR_SLOTS: nat := 32
  const UINT32_MAX: nat := 0xFFFF_FFFF

  datatype Info = Info(count: nat, oldest: nat, latest: nat)

  /** Flash as the store reads it, the RAM index, the write position and the counters. */
  datatype State = State(
    flash: seq<Slot>, index: seq<nat>, next: nat, nextSequence: nat, info: Info, errors: nat)

  /** How the flash operations of one write turn out. */
  datatype Outcome = Done | ReadFails | EraseFails | ProgramFails(left: Slot)

  predicate Geometry(slots: nat) { slots >= SECTOR_SLOTS && slots % SECTOR_SLOTS == 0 }

  predicate Fits(s: State) {
    |s.flash| == |s.index| && Geometry(|s.flash|) && s.next < |s.flash| && s.nextSequence <= UINT32_MAX
  }

  /** First slot of the sector after the one slot i is in. */
  function SectorEnd(i: nat): nat { (i / SECTOR_SLOTS + 1) * SECTOR_SLOTS }

  function Wrap(i: nat, slots: nat): nat { if i >= slots then 0 else i }

  function SequenceOf(slot: Slot): nat { if slot.Stored? then slot.sequence else 0 }

  function Sequences(flash: seq<Slot>): (index: seq<nat>)
    ensures |index| == |flash|
    ensures forall i :: 0 <= i < |flash| ==> index[i] == SequenceOf(flash[i])
  {
    seq(|flash|, i requires 0 <= i < |flash| => SequenceOf(flash[i]))
  }

  /** Number, least and greatest of the nonzero entries. */
  function Summary(index: seq<nat>): Info {
    if index == [] then Info(0, 0, 0)
    else
      var rest, x := Summary(index[..|index| - 1]), index[|index| - 1];
      if x == 0 then rest
      else Info(rest.count + 1,
                if rest.oldest == 0 || x < rest.oldest then x else rest.oldest,
                if x > rest.latest then x else rest.latest)
  }

  /** Replaces the sector that starts at slot first. */
  function Fill<T>(slots: seq<T>, first: nat, x: T): (filled: seq<T>)
    ensures |filled| == |slots|
    ensures forall i :: 0 <= i < |slots| ==>
      filled[i] == if first <= i < first + SECTOR_SLOTS then x else slots[i]
  {
    seq(|slots|, i requires 0 <= i < |slots| => if first <= i < first + SECTOR_SLOTS then x else slots[i])
  }

  // ----- one write -----

  /** Where the next write goes: past the sector whose next slot turns out not to be erased. */
  function Target(s: State): (t: nat)
    requires Fits(s)
    ensures t < |s.flash|
  {
    if s.next % SECTOR_SLOTS != 0 && s.flash[s.next] != Blank then Wrap(SectorEnd(s.next), |s.flash|) else s.next
  }

  function Moved(s: State): State
    requires Fits(s)
  {
    s.(next := Target(s))
  }

  predicate StartsSector(i: nat) { i % SECTOR_SLOTS == 0 }

  /** The state once the target slot is ready to be programmed. */
  function Ready(s: State): State
    requires Fits(s)
  {
    var t := Target(s);
    if StartsSector(t) then s.(next := t, flash := Fill(s.flash, t, Blank), index := Fill(s.index, t, 0))
    else s.(next := t)
  }

  /** What a slot reads as after a complete program operation; zero is never a valid number. */
  function Programmed(sequence: nat, q: Request): Slot {
    if sequence == 0 then Garbage else Stored(sequence, q)
  }

  function Bumped(sequence: nat): nat { if sequence == UINT32_MAX then 0 else sequence + 1 }

  function Failed(s: State): State { s.(errors := s.errors + 1) }

  function Appended(s: State, q: Request): State
    requires Fits(s)
  {
    var n, t := s.nextSequence, s.next;
    var index := s.index[t := n];
    State(s.flash[t := Programmed(n, q)], index, Wrap(t + 1, |s.flash|), Bumped(n), Summary(index), s.errors)
  }

  function Spoiled(s: State, left: Slot): State
    requires Fits(s)
  {
    s.(flash := s.flash[s.next := left], nextSequence := Bumped(s.nextSequence))
  }

  function Write(s: State, q: Request, o: Outcome): State
    requires Fits(s)
  {
    if o.ReadFails? then Failed(s)
    else if StartsSector(Target(s)) && o.EraseFails? then Failed(Moved(s))
    else if o.ProgramFails? then Failed(Spoiled(Ready(s), o.left))
    else Appended(Ready(s), q)
  }

  // ----- boot -----

  datatype Scan = Scan(sequence: nat, slot: nat)

  /** Greatest sequence number in the first k slots and where it was first met. */
  function Scanned(flash: seq<Slot>, k: nat): (r: Scan)
    requires k <= |flash|
    ensures r.sequence != 0 ==> r.slot < k
  {
    if k == 0 then Scan(0, 0)
    else
      var rest, n := Scanned(flash, k - 1), SequenceOf(flash[k - 1]);
      if n > rest.sequence then Scan(n, k - 1) else rest
  }

  function ResumeSlot(found: Scan, slots: nat): nat {
    if found.sequence == 0 then 0 else Wrap(found.slot + 1, slots)
  }

  function ResumeSequence(found: Scan): nat {
    if found.sequence == UINT32_MAX then 1 else found.sequence + 1
  }

  function Booted(flash: seq<Slot>): State
    requires Geometry(|flash|)
  {
    var found := Scanned(flash, |flash|);
    var index := Sequences(flash);
    State(flash, index, ResumeSlot(found, |flash|), ResumeSequence(found), Summary(index), 0)
  }

  /** What a scan sees that can read only some of the slots. */
  function Seen(flash: seq<Slot>, readable: nat -> bool): (seen: seq<Slot>)
    ensures |seen| == |flash|
    ensures forall i :: 0 <= i < |flash| ==> seen[i] == if readable(i) then flash[i] else Garbage
  {
    seq(|flash|, i requires 0 <= i < |flash| => if readable(i) then flash[i] else Garbage)
  }

  /** Booting while the flash driver fails to read some slots: those are passed over. */
  function BootedReading(flash: seq<Slot>, readable: nat -> bool): State
    requires Geometry(|flash|)
  {
    Booted(Seen(flash, readable)).(flash := flash)
  }

  // ----- reading back -----

  /** Best is the least indexed number above the cursor among the first k slots, if there is one. */
  function Wanted(index: seq<nat>, after: nat, k: nat): (r: Scan)
    requires k <= |index|
    ensures r.sequence != 0 ==> r.slot < k && index[r.slot] == r.sequence > after
    ensures forall i :: 0 <= i < k && index[i] > after ==> 0 < r.sequence <= index[i]
  {
    if k == 0 then Scan(0, 0)
    else
      var rest, n := Wanted(index, after, k - 1), index[k - 1];
      if n > after && (rest.sequence == 0 || n < rest.sequence) then Scan(n, k - 1) else rest
  }

  /** The record a reader with this cursor gets. */
  function Following(s: State, after: nat): Option<Slot>
    requires Fits(s)
  {
    var r := Wanted(s.index, after, |s.index|);
    if r.sequence != 0 && s.flash[r.slot].Stored? then Some(s.flash[r.slot]) else None
  }

  // ----- in place -----

  function Classified(flash: seq<seq<Byte>>): (slots: seq<Slot>)
    ensures |slots| == |flash|
    ensures forall i :: 0 <= i < |flash| ==> slots[i] == Classify(flash[i])
  {
    seq(|flash|, i requires 0 <= i < |flash| => Classify(flash[i]))
  }

  lemma ClassifiedUpdate(flash: seq<seq<Byte>>, i: nat, bytes: seq<Byte>)
    requires i < |flash|
    ensures Classified(flash[i := bytes]) == Classified(flash)[i := Classify(bytes)]
  {
  }

  function ErasedBytes(n: nat): (bytes: seq<Byte>)
    ensures |bytes| == n && RecordErased(bytes)
  {
    if n == 0 then [] else ErasedBytes(n - 1) + [0xFF]
  }

  lemma ErasedSlot()
    ensures Classify(ErasedBytes(RECORD_SIZE)) == Blank
  {
    ErasedIsBlank(ErasedBytes(RECORD_SIZE));
  }

  /** The bytes of a complete program operation read back as the model says. */
  lemma ProgrammedBytes(sequence: nat, q: Request)
    requires Storable(q) && sequence <= UINT32_MAX
    ensures Classify(Encode(sequence, q)) == Programmed(sequence, q)
  {
    if sequence > 0 {
      EncodeRoundTrip(sequence, q);
    } else {
      EncodedFields(0, q);
      DigitsRoundTrip(0);
      assert Encode(0, q)[0] == Encode(0, q)[..4][0] == 0x4B;
    }
  }

  /** What the hardware does to the bytes in one write. */
  datatype Fault = NoFault | ReadFault | EraseFault | ProgramFault(left: seq<Byte>)

  function OutcomeOf(f: Fault): Outcome {
    match f
    case NoFault => Done
    case ReadFault => ReadFails
    case EraseFault => EraseFails
    case ProgramFault(left) => ProgramFails(Classify(left))
  }

  /** Sequence number of the record in a slot, zero if it holds none. */
  method ReadSequence(bytes: seq<Byte>) returns (sequence: nat)
    requires |bytes| == RECORD_SIZE
    ensures sequence == SequenceOf(Classify(bytes)) <= UINT32_MAX
  {
    var valid := CheckRecord(bytes);
    NumberBound(bytes[4..8]);
    sequence := if valid then Number(bytes[4..8]) else 0;
  }

  class Store {
    const flash: array<seq<Byte>>
    const index: array<nat>
    var next: nat
    var nextSequence: nat
    var info: Info
    var errors: nat

    ghost predicate Valid()
      reads this, flash, index
    {
      && flash.Length == index.Length && Geometry(flash.Length)
      && next < flash.Length && nextSequence <= UINT32_MAX
      && forall i :: 0 <= i < flash.Length ==> |flash[i]| == RECORD_SIZE
    }

    ghost function View(): State
      reads this, flash, index
    {
      State(Classified(flash[..]), index[..], next, nextSequence, info, errors)
    }

    /** The recovery scan over a partition whose contents survived, whichever of its slots can be read. */
    constructor (partition: array<seq<Byte>>, readable: nat -> bool)
      requires Geometry(partition.Length)
      requires forall i :: 0 <= i < partition.Length ==> |partition[i]| == RECORD_SIZE
      ensures flash == partition && fresh(index)
      ensures Valid()
      ensures View() == BootedReading(Classified(partition[..]), readable)
    {
      flash := partition;
      index := new nat[partition.Length](_ => 0);
      next, nextSequence, info, errors := 0, 1, Info(0, 0, 0), 0;
      new;
      Recover(readable);
    }

    /** One step of the scan: the record in a readable slot is indexed and compared with the latest so far. */
    method ScanSlot(slot: nat, readable: bool, found: Scan) returns (r: Scan)
      requires slot < flash.Length == index.Length && |flash[slot]| == RECORD_SIZE
      requires index[slot] == 0 && found.sequence <= UINT32_MAX
      modifies index
      ensures forall i :: 0 <= i < index.Length ==>
        index[i] == if i == slot && readable then SequenceOf(Classify(flash[slot])) else old(index[i])
      ensures r == (if index[slot] > found.sequence then Scan(index[slot], slot) else found)
      ensures r.sequence <= UINT32_MAX
    {
      r := found;
      if readable {
        var sequence := ReadSequence(flash[slot]);
        if sequence != 0 {
          index[slot] := sequence;
          if sequence > found.sequence {
            r := Scan(sequence, slot);
          }
        }
      }
    }

    lemma IndexComplete(slots: seq<Slot>)
      requires |slots| == index.Length
      requires forall i :: 0 <= i < index.Length ==> index[i] == SequenceOf(slots[i])
      ensures index[..] == Sequences(slots)
    {
    }

    method ScanFlash(readable: nat -> bool) returns (found: Scan)
      requires Valid()
      requires forall i :: 0 <= i < index.Length ==> index[i] == 0
      modifies index
      ensures found == Scanned(Seen(Classified(flash[..]), readable), flash.Length) && found.sequence <= UINT32_MAX
      ensures index[..] == Sequences(Seen(Classified(flash[..]), readable))
    {
      ghost var slots := Seen(Classified(flash[..]), readable);
      found := Scan(0, 0);
      for slot := 0 to flash.Length
        invariant found.sequence <= UINT32_MAX && Scanned(slots, slot) == found
        invariant forall i :: 0 <= i < index.Length ==> index[i] == if i < slot then SequenceOf(slots[i]) else 0
      {
        assert slots[slot] == if readable(slot) then Classify(flash[slot]) else Garbage;
        found := ScanSlot(slot, readable(slot), found);
      }
      IndexComplete(slots);
    }

    method Resume(found: Scan)
      modifies this`next, this`nextSequence
      ensures next == ResumeSlot(found, flash.Length) && nextSequence == ResumeSequence(found)
    {
      nextSequence := if found.sequence == UINT32_MAX then 1 else found.sequence + 1;
      next := if found.sequence == 0 then 0 else found.slot + 1;
      if next >= flash.Length {
        next := 0;
      }
    }

    method Recover(readable: nat -> bool)
      requires Valid() && errors == 0
      requires forall i :: 0 <= i < index.Length ==> index[i] == 0
      modifies this`next, this`nextSequence, this`info, index
      ensures Valid()
      ensures View() == BootedReading(Classified(flash[..]), readable)
    {
      var found := ScanFlash(readable);
      Resume(found);
      RefreshInfo();
    }

    method RefreshInfo()
      modifies this`info
      ensures info == Summary(index[..])
    {
      var oldest, latest, count := 0, 0, 0;
      for slot := 0 to index.Length
        invariant Info(count, oldest, latest) == Summary(index[..slot])
      {
        assert index[..slot + 1][..slot] == index[..slot];
        var sequence := index[slot];
        if sequence == 0 {
          continue;
        }
        count := count + 1;
        if oldest == 0 || sequence < oldest {
          oldest := sequence;
        }
        if sequence > latest {
          latest := sequence;
        }
      }
      assert index[..index.Length] == index[..];
      info := Info(count, oldest, latest);
    }

    method ForgetSector(first: nat)
      modifies index
      ensures index[..] == Fill(old(index[..]), first, 0)
    {
      var i := 0;
      while i < SECTOR_SLOTS && first + i < index.Length
        invariant i <= SECTOR_SLOTS
        invariant forall k :: 0 <= k < index.Length ==>
          index[k] == if first <= k < first + i then 0 else old(index[k])
      {
        index[first + i] := 0;
        i := i + 1;
      }
    }

    /** The partition driver's erase of one sector. */
    method EraseSector(first: nat)
      modifies flash
      ensures Classified(flash[..]) == Fill(Classified(old(flash[..])), first, Blank)
      ensures forall i :: 0 <= i < flash.Length ==> |flash[i]| == RECORD_SIZE || flash[i] == old(flash[i])
    {
      forall i | first <= i < first + SECTOR_SLOTS && i < flash.Length {
        flash[i] := ErasedBytes(RECORD_SIZE);
      }
      ErasedSlot();
    }

    /** Leaves the sector when the next slot in it turns out not to be erased. */
    method SkipUsedSector()
      requires Valid()
      modifies this`next
      ensures next == Target(old(View()))
    {
      var erased := CheckErased(flash[next]);
      ErasedIsBlank(flash[next]);
      if next % SECTOR_SLOTS != 0 && !erased {
        next := (next / SECTOR_SLOTS + 1) * SECTOR_SLOTS;
        if next >= flash.Length {
          next := 0;
        }
      }
    }

    method PrepareNextSlot(fault: Fault) returns (ok: bool)
      requires Valid()
      modifies this`next, flash, index
      ensures Valid()
      ensures ok == !(fault.ReadFault? || (fault.EraseFault? && StartsSector(Target(old(View())))))
      ensures View() == if ok then Ready(old(View())) else if fault.ReadFault? then old(View()) else Moved(old(View()))
    {
      if fault.ReadFault? {
        return false;
      }
      SkipUsedSector();
      if next % SECTOR_SLOTS == 0 {
        if fault.EraseFault? {
          return false;
        }
        EraseSector(next);
        ForgetSector(next);
      }
      ok := true;
    }

    /** Builds the record and programs it at the write position. */
    method Program(sequence: nat, q: Request, fault: Fault) returns (ok: bool)
      requires Valid() && Storable(q) && sequence <= UINT32_MAX
      requires fault.ProgramFault? ==> |fault.left| == RECORD_SIZE
      modifies flash
      ensures Valid()
      ensures ok == !fault.ProgramFault?
      ensures Classified(flash[..])
              == Classified(old(flash[..]))[next := if ok then Programmed(sequence, q) else Classify(fault.left)]
    {
      var record := BuildRecord(sequence, q);
      ProgrammedBytes(sequence, q);
      ok := !fault.ProgramFault?;
      var bytes := if ok then record else fault.left;
      ClassifiedUpdate(flash[..], next, bytes);
      flash[next] := bytes;
      assert flash[..] == old(flash[..])[next := bytes];
    }

    method Advance(sequence: nat)
      requires Valid()
      modifies this`next, this`info, index
      ensures Valid()
      ensures index[..] == old(index[..])[old(next) := sequence]
      ensures next == Wrap(old(next) + 1, flash.Length)
      ensures info == Summary(index[..])
    {
      index[next] := sequence;
      next := next + 1;
      if next >= flash.Length {
        next := 0;
      }
      RefreshInfo();
    }

    /** The second half of a write, with the target slot ready. */
    method Append(q: Request, fault: Fault) returns (ok: bool)
      requires Valid() && Storable(q)
      requires fault.ProgramFault? ==> |fault.left| == RECORD_SIZE
      modifies this`next, this`nextSequence, this`info, flash, index
      ensures Valid()
      ensures ok == !fault.ProgramFault?
      ensures View() == if ok then Appended(old(View()), q) else Spoiled(old(View()), Classify(fault.left))
    {
      var sequence := nextSequence;
      nextSequence := Bumped(nextSequence);
      ok := Program(sequence, q, fault);
      if ok {
        Advance(sequence);
      }
    }

    method WriteRequest(q: Request, fault: Fault)
      requires Valid() && Storable(q)
      requires fault.ProgramFault? ==> |fault.left| == RECORD_SIZE
      modifies this, flash, index
      ensures Valid()
      ensures View() == Write(old(View()), q, OutcomeOf(fault))
    {
      var ok := PrepareNextSlot(fault);
      if ok {
        ok := Append(q, fault);
      }
      if !ok {
        errors := errors + 1;
      }
    }

    /** The export cursor: the oldest record numbered above `after`, if its flash can be read. */
    method GetAfter(after: nat, readable: bool) returns (r: Option<Slot>)
      requires Valid()
      ensures r == if readable then Following(View(), after) else None
    {
      var wanted: nat, wantedSlot: nat := 0, 0;
      for slot := 0 to index.Length
        invariant Wanted(index[..], after, slot) == Scan(wanted, wantedSlot)
      {
        var sequence := index[slot];
        if sequence > after && (wanted == 0 || sequence < wanted) {
          wanted, wantedSlot := sequence, slot;
        }
      }
      r := None;
      if wanted != 0 && readable {
        var valid := CheckRecord(flash[wantedSlot]);
        if valid {
          r := Some(Classify(flash[wantedSlot]));
        }
      }
    }
  }

  lemma NumberBound(d: seq<Byte>)
    requires |d| == 4
    ensures Number(d) <= UINT32_MAX
  {
  }
}
