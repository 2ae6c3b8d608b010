/**
  Runs of the capture ring with flash errors and power cuts: what always holds,
  what recovery restores and which records an erase gives up.
*/
module CaptureRuns {
  import opened RecordCodec
  import opened CaptureStore

  // ----- what always holds of the flash -----

  ghost predicate Clear(flash: seq<Slot>, lo: nat, hi: nat) {
    forall i :: lo <= i < hi && i < |flash| ==> !flash[i].Stored?
  }

  /** Walking the ring from slot start on, i is met before j. */
  predicate Before(start: nat, i: nat, j: nat) {
    (i < j && (j < start || start <= i)) || j < start <= i
  }

  ghost predicate OrderedAt(flash: seq<Slot>, start: nat, i: nat, j: nat)
    requires i < |flash| && j < |flash|
  {
    Before(start, i, j) && flash[i].Stored? && flash[j].Stored? ==> flash[i].sequence < flash[j].sequence
  }

  /** Sequence numbers grow along the ring from slot start on. */
  ghost predicate Ordered(flash: seq<Slot>, start: nat) {
    forall i, j :: 0 <= i < |flash| && 0 <= j < |flash| ==> OrderedAt(flash, start, i, j)
  }

  ghost predicate Latest(flash: seq<Slot>, last: nat) {
    last < |flash| && flash[last].Stored?
    && forall j :: 0 <= j < |flash| && j != last && flash[j].Stored? ==> flash[j].sequence < flash[last].sequence
  }

  /** The next write continues right after the latest record, or past a spoiled slot in the next sector. */
  predicate Follows(flash: seq<Slot>, next: nat, last: nat)
    requires last < |flash|
  {
    next == Wrap(last + 1, |flash|)
    || (next == Wrap(SectorEnd(last), |flash|) && last + 1 < SectorEnd(last) && last + 1 < |flash|
        && flash[last + 1] == Garbage)
  }

  ghost predicate Frontier(flash: seq<Slot>, next: nat, last: nat) {
    Latest(flash, last) && Ordered(flash, last + 1) && Clear(flash, last + 1, SectorEnd(last))
    && Follows(flash, next, last)
  }

  ghost predicate Placed(flash: seq<Slot>, next: nat) {
    (Clear(flash, 0, |flash|) && next == 0) || exists last :: Frontier(flash, next, last)
  }

  ghost predicate Numbered(flash: seq<Slot>, bound: nat) {
    bound > 0 && forall i :: 0 <= i < |flash| && flash[i].Stored? ==> 0 < flash[i].sequence < bound
  }

  /** At least two sectors; the real partition table provides 28. */
  predicate TwoSectors(slots: nat) { Geometry(slots) && slots >= 2 * SECTOR_SLOTS }

  ghost predicate Sound(s: State) {
    && Fits(s) && TwoSectors(|s.flash|)
    && s.index == Sequences(s.flash)
    && Numbered(s.flash, s.nextSequence)
    && Placed(s.flash, s.next)
  }

  // ----- events -----

  /** Where in a write the power fails. */
  datatype CutPoint = Idle | Erasing(partial: seq<Slot>) | Programming(left: Slot)

  datatype Event = Put(q: Request, outcome: Outcome) | Cut(q: Request, at: CutPoint)

  /** An interrupted erase leaves each slot of the sector as it was, erased, or unreadable. */
  ghost predicate PartlyErased(flash: seq<Slot>, partial: seq<Slot>, first: nat) {
    |partial| == |flash|
    && forall i :: 0 <= i < |flash| ==>
      partial[i] == flash[i] || (first <= i < first + SECTOR_SLOTS && !partial[i].Stored?)
  }

  ghost predicate Possible(s: State, e: Event)
    requires Fits(s)
  {
    match e
    case Put(q, o) => Storable(q) && (o.ProgramFails? ==> !o.left.Stored?)
    case Cut(q, Idle) => Storable(q)
    case Cut(q, Erasing(partial)) =>
      Storable(q) && StartsSector(Target(s)) && PartlyErased(s.flash, partial, Target(s))
    case Cut(q, Programming(left)) =>
      Storable(q) && (left.Stored? ==> left == Programmed(s.nextSequence, q))
  }

  function CutFlash(s: State, at: CutPoint): (flash: seq<Slot>)
    requires Fits(s)
  {
    match at
    case Idle => s.flash
    case Erasing(partial) => partial
    case Programming(left) => Ready(s).flash[Target(s) := left]
  }

  /** The run that was not interrupted, at the moment its flash looks like that. */
  function Uninterrupted(s: State, q: Request, at: CutPoint): State
    requires Fits(s)
  {
    match at
    case Idle => s
    case Erasing(partial) => Moved(s).(flash := partial)
    case Programming(left) => if left.Stored? then Appended(Ready(s), q) else Spoiled(Ready(s), left)
  }

  function Step(s: State, e: Event): State
    requires Fits(s) && Possible(s, e)
  {
    match e
    case Put(q, o) => Write(s, q, o)
    case Cut(q, at) => Booted(CutFlash(s, at))
  }

  // ----- the target slot -----

  lemma SectorEndBounds(i: nat)
    ensures i < SectorEnd(i) <= i + SECTOR_SLOTS
    ensures SectorEnd(i) % SECTOR_SLOTS == 0
    ensures forall k :: i <= k < SectorEnd(i) ==> SectorEnd(k) == SectorEnd(i)
    ensures (i + 1) % SECTOR_SLOTS == 0 <==> i + 1 == SectorEnd(i)
  {
  }

  lemma SectorEndFits(i: nat, slots: nat)
    requires Geometry(slots) && i < slots
    ensures SectorEnd(i) <= slots
  {
  }

  /** Preparing a write never loses the place after the latest record. */
  lemma TargetFollows(s: State, last: nat)
    requires Fits(s) && Frontier(s.flash, s.next, last)
    ensures Frontier(s.flash, Target(s), last)
    ensures StartsSector(Target(s)) <==> Target(s) == Wrap(SectorEnd(last), |s.flash|)
    ensures !StartsSector(Target(s)) ==> Target(s) == last + 1 && s.flash[last + 1] == Blank
  {
    SectorEndBounds(last);
    SectorEndFits(last, |s.flash|);
  }

  // ----- thinning and appending -----

  /** Some slots lose their records, nothing else changes. */
  ghost predicate Thinned(flash: seq<Slot>, fewer: seq<Slot>) {
    |fewer| == |flash| && forall i :: 0 <= i < |flash| ==> fewer[i] == flash[i] || !fewer[i].Stored?
  }

  lemma OrderedThins(flash: seq<Slot>, fewer: seq<Slot>, start: nat)
    requires Thinned(flash, fewer) && Ordered(flash, start)
    ensures Ordered(fewer, start)
  {
    forall i, j | 0 <= i < |flash| && 0 <= j < |flash|
      ensures OrderedAt(fewer, start, i, j)
    {
      assert OrderedAt(flash, start, i, j);
    }
  }

  /** Slots after the latest record in its sector may be passed over when placing the next one. */
  lemma BeforeMoves(slots: nat, last: nat, next: nat, i: nat, j: nat)
    requires Geometry(slots) && last < slots && i < slots && j < slots
    requires next == Wrap(last + 1, slots) || next == Wrap(SectorEnd(last), slots)
    requires !(last < i < SectorEnd(last)) && !(last < j < SectorEnd(last)) && i != next && j != next
    ensures Before(next + 1, i, j) ==> Before(last + 1, i, j)
  {
    SectorEndBounds(last);
    SectorEndFits(last, slots);
  }

  /** A greatest number appended after the latest record keeps the ring ordered. */
  lemma OrderedAppends(flash: seq<Slot>, last: nat, next: nat, n: nat, q: Request)
    requires Geometry(|flash|) && last < |flash| && next < |flash|
    requires Ordered(flash, last + 1) && Clear(flash, last + 1, SectorEnd(last))
    requires next == Wrap(last + 1, |flash|) || next == Wrap(SectorEnd(last), |flash|)
    requires forall i :: 0 <= i < |flash| && flash[i].Stored? ==> flash[i].sequence < n
    ensures Ordered(flash[next := Stored(n, q)], next + 1)
  {
    var longer, start := flash[next := Stored(n, q)], next + 1;
    forall i, j | 0 <= i < |flash| && 0 <= j < |flash|
      ensures OrderedAt(longer, start, i, j)
    {
      assert OrderedAt(flash, last + 1, i, j);
      if i != next && j != next && flash[i].Stored? && flash[j].Stored? {
        BeforeMoves(|flash|, last, next, i, j);
      }
    }
  }

  /** An erase keeps the latest record and the place after it. */
  lemma FrontierThins(flash: seq<Slot>, fewer: seq<Slot>, next: nat, last: nat)
    requires TwoSectors(|flash|) && Frontier(flash, next, last) && StartsSector(next)
    requires PartlyErased(flash, fewer, next)
    ensures Frontier(fewer, next, last)
  {
    SectorEndBounds(last);
    SectorEndFits(last, |flash|);
    assert !(next <= last < next + SECTOR_SLOTS);
    OrderedThins(flash, fewer, last + 1);
  }

  /** A spoiled or untouched target slot keeps the latest record and the place after it. */
  lemma FrontierSpoils(flash: seq<Slot>, next: nat, last: nat, left: Slot)
    requires Frontier(flash, next, last) && next < |flash| && next != last && !left.Stored?
    ensures Frontier(flash[next := left], next, last)
  {
    OrderedThins(flash, flash[next := left], last + 1);
  }

  /** The record just written is the new latest one. */
  lemma FrontierAppends(flash: seq<Slot>, next: nat, last: nat, n: nat, q: Request)
    requires Geometry(|flash|) && Frontier(flash, next, last) && next < |flash|
    requires Clear(flash, next, SectorEnd(next))
    requires forall i :: 0 <= i < |flash| && flash[i].Stored? ==> flash[i].sequence < n
    ensures Frontier(flash[next := Stored(n, q)], Wrap(next + 1, |flash|), next)
  {
    OrderedAppends(flash, last, next, n, q);
  }

  lemma FrontierStarts(flash: seq<Slot>, n: nat, q: Request)
    requires Geometry(|flash|) && Clear(flash, 0, |flash|)
    ensures Frontier(flash[0 := Stored(n, q)], Wrap(1, |flash|), 0)
  {
  }

  // ----- one write keeps the flash sound -----

  lemma EmptyTarget(s: State)
    requires Fits(s) && s.next == 0
    ensures Target(s) == 0 && StartsSector(Target(s))
  {
  }

  /** Moving to the target slot. */
  lemma MovedIsSound(s: State)
    requires Sound(s)
    ensures Sound(Moved(s)) && Target(Moved(s)) == Target(s)
  {
    if last: nat :| Frontier(s.flash, s.next, last) {
      TargetFollows(s, last);
    } else {
      EmptyTarget(s);
    }
  }

  lemma PlacedThins(flash: seq<Slot>, fewer: seq<Slot>, next: nat)
    requires TwoSectors(|flash|) && Placed(flash, next) && StartsSector(next) && PartlyErased(flash, fewer, next)
    ensures Placed(fewer, next)
  {
    if last: nat :| Frontier(flash, next, last) {
      FrontierThins(flash, fewer, next, last);
    }
  }

  lemma FillIsPartlyErased(flash: seq<Slot>, first: nat)
    ensures PartlyErased(flash, Fill(flash, first, Blank), first)
  {
  }

  /** A target slot is ready: erased, and nothing stored after it in its sector. */
  ghost predicate Writable(flash: seq<Slot>, next: nat) {
    next < |flash| && flash[next] == Blank && Clear(flash, next, SectorEnd(next))
  }

  /** Every program operation hits an erased slot. */
  lemma ReadyIsWritable(s: State)
    requires Sound(s)
    ensures Sound(Ready(s)) && Writable(Ready(s).flash, Ready(s).next) && Ready(s).next == Target(s)
    ensures Ready(s).nextSequence == s.nextSequence
  {
    MovedIsSound(s);
    var t := Target(s);
    SectorEndBounds(t);
    if StartsSector(t) {
      FillIsPartlyErased(s.flash, t);
      PlacedThins(s.flash, Fill(s.flash, t, Blank), t);
      assert Ready(s).index == Sequences(Ready(s).flash);
    } else if last: nat :| Frontier(s.flash, s.next, last) {
      TargetFollows(s, last);
      SectorEndBounds(last);
    } else {
      EmptyTarget(s);
    }
  }

  lemma SpoiledIsSound(s: State, left: Slot)
    requires Sound(s) && Writable(s.flash, s.next) && !left.Stored? && s.nextSequence < UINT32_MAX
    ensures Sound(Spoiled(s, left))
    ensures Spoiled(s, left).nextSequence == s.nextSequence + 1
  {
    if last: nat :| Frontier(s.flash, s.next, last) {
      FrontierSpoils(s.flash, s.next, last, left);
    }
    assert Sequences(s.flash[s.next := left]) == s.index;
  }

  lemma AppendedIsSound(s: State, q: Request)
    requires Sound(s) && Writable(s.flash, s.next) && s.nextSequence < UINT32_MAX
    ensures Sound(Appended(s, q))
    ensures Latest(Appended(s, q).flash, s.next)
    ensures Appended(s, q).nextSequence == s.nextSequence + 1
  {
    var n := s.nextSequence;
    var longer := s.flash[s.next := Stored(n, q)];
    if last: nat :| Frontier(s.flash, s.next, last) {
      FrontierAppends(s.flash, s.next, last, n, q);
    } else {
      FrontierStarts(s.flash, n, q);
    }
    assert Frontier(longer, Wrap(s.next + 1, |s.flash|), s.next);
    assert Sequences(longer) == s.index[s.next := n];
  }

  // ----- recovery -----

  /** The scan finds the greatest number, and nothing only if nothing is stored. */
  lemma {:induction false} ScanFindsGreatest(flash: seq<Slot>, k: nat)
    requires k <= |flash|
    ensures forall i :: 0 <= i < k ==> SequenceOf(flash[i]) <= Scanned(flash, k).sequence
    ensures var r := Scanned(flash, k); r.sequence != 0 ==>
      SequenceOf(flash[r.slot]) == r.sequence && forall i :: 0 <= i < r.slot ==> SequenceOf(flash[i]) < r.sequence
  {
    if k > 0 {
      ScanFindsGreatest(flash, k - 1);
    }
  }

  /** On any flash whatever, the rebuilt index agrees with it and the next number is above every stored one. */
  lemma RecoveryIndexes(flash: seq<Slot>)
    requires Geometry(|flash|) && forall i :: 0 <= i < |flash| ==> SequenceOf(flash[i]) < UINT32_MAX
    ensures Fits(Booted(flash)) && Booted(flash).index == Sequences(flash)
    ensures forall i :: 0 <= i < |flash| ==> SequenceOf(flash[i]) < Booted(flash).nextSequence
  {
    ScanFindsGreatest(flash, |flash|);
  }

  lemma ScanFindsLatest(flash: seq<Slot>, last: nat)
    requires Latest(flash, last) && flash[last].sequence > 0
    ensures Scanned(flash, |flash|) == Scan(flash[last].sequence, last)
  {
    ScanFindsGreatest(flash, |flash|);
    assert SequenceOf(flash[last]) <= Scanned(flash, |flash|).sequence;
  }

  lemma ScanFindsNothing(flash: seq<Slot>)
    requires Clear(flash, 0, |flash|)
    ensures Scanned(flash, |flash|).sequence == 0
  {
    ScanFindsGreatest(flash, |flash|);
  }

  /** Booting on the flash of a sound state loses nothing that matters: the next write goes to the same slot. */
  lemma BootIsSound(s: State)
    requires Sound(s)
    ensures Sound(Booted(s.flash)) && Target(Booted(s.flash)) == Target(s)
    ensures Booted(s.flash).index == s.index && Booted(s.flash).nextSequence <= s.nextSequence
  {
    var b := Booted(s.flash);
    if last: nat :| Frontier(s.flash, s.next, last) {
      ScanFindsLatest(s.flash, last);
      assert Frontier(s.flash, b.next, last);
      TargetFollows(b, last);
      TargetFollows(s, last);
      SectorEndBounds(last);
    } else {
      ScanFindsNothing(s.flash);
    }
  }

  // ----- a boot scan with read errors -----

  ghost predicate LatestReadable(flash: seq<Slot>, readable: nat -> bool) {
    forall last: nat :: Latest(flash, last) ==> readable(last)
  }

  lemma SeenHasLatest(flash: seq<Slot>, readable: nat -> bool, last: nat)
    requires Latest(flash, last) && flash[last].sequence > 0
    ensures readable(last) ==> Scanned(Seen(flash, readable), |flash|) == Scanned(flash, |flash|)
    ensures !readable(last) ==> Scanned(Seen(flash, readable), |flash|).sequence < flash[last].sequence
  {
    var seen := Seen(flash, readable);
    ScanFindsLatest(flash, last);
    if readable(last) {
      assert Latest(seen, last);
      ScanFindsLatest(seen, last);
    } else {
      ScanFindsGreatest(seen, |flash|);
    }
  }

  /**
    A boot scan that fails to read some slots leaves exactly their records out of
    the index, and restores write position and next number as a scan without
    errors does if and only if it read the latest record. Otherwise the next
    number is one that is already on the flash or below one.
  */
  lemma ReadErrorsMatterExactly(s: State, readable: nat -> bool)
    requires Sound(s) && s.nextSequence < UINT32_MAX
    ensures var b, whole := BootedReading(s.flash, readable), Booted(s.flash);
      && Fits(b) && b.flash == s.flash
      && (forall i :: 0 <= i < |s.flash| ==> b.index[i] == if readable(i) then s.index[i] else 0)
      && (LatestReadable(s.flash, readable) <==> b == whole.(index := b.index, info := b.info))
      && (LatestReadable(s.flash, readable)
          <==> forall i :: 0 <= i < |s.flash| ==> SequenceOf(s.flash[i]) < b.nextSequence)
  {
    ScanFindsGreatest(Seen(s.flash, readable), |s.flash|);
    RecoveryIndexes(s.flash);
    if last: nat :| Latest(s.flash, last) {
      SeenHasLatest(s.flash, readable, last);
      assert readable(last) <==> LatestReadable(s.flash, readable);
    } else {
      ScanFindsNothing(s.flash);
      ScanFindsNothing(Seen(s.flash, readable));
    }
  }

  /** The uninterrupted run is sound at every point where the power may fail. */
  lemma UninterruptedIsSound(s: State, q: Request, at: CutPoint)
    requires Sound(s) && s.nextSequence < UINT32_MAX && Possible(s, Cut(q, at))
    ensures var u := Uninterrupted(s, q, at);
      Sound(u.(index := Sequences(u.flash))) && u.flash == CutFlash(s, at) && |u.flash| == |s.flash|
      && u.nextSequence <= s.nextSequence + 1
  {
    match at
    case Idle =>
    case Erasing(partial) =>
      MovedIsSound(s);
      PlacedThins(s.flash, partial, Target(s));
    case Programming(left) =>
      ReadyIsWritable(s);
      if left.Stored? {
        AppendedIsSound(Ready(s), q);
      } else {
        SpoiledIsSound(Ready(s), left);
      }
  }

  /** Records outside the sector about to be erased are still on the flash after the cut. */
  predicate Keeps(s: State, flash: seq<Slot>, i: nat)
    requires Fits(s) && |flash| == |s.flash| && i < |flash|
  {
    s.flash[i].Stored? ==>
      flash[i] == s.flash[i] || (StartsSector(Target(s)) && Target(s) <= i < Target(s) + SECTOR_SLOTS)
  }

  lemma CutKeeps(s: State, q: Request, at: CutPoint)
    requires Sound(s) && Possible(s, Cut(q, at))
    ensures forall i :: 0 <= i < |s.flash| ==> Keeps(s, CutFlash(s, at), i)
  {
    if at.Programming? {
      ReadyIsWritable(s);
    }
  }

  /**
    Crash recovery: wherever in a write the power fails, the boot scan leaves a
    sound store whose index agrees with the flash and whose next number is above
    every stored one; the next write goes where the uninterrupted run would have
    put it; and no record outside the sector being erased is lost.
  */
  lemma Recovery(s: State, q: Request, at: CutPoint)
    requires Sound(s) && s.nextSequence < UINT32_MAX && Possible(s, Cut(q, at))
    ensures var flash, booted := CutFlash(s, at), Step(s, Cut(q, at));
      && Sound(booted) && booted.flash == flash
      && booted.index == Sequences(flash)
      && (forall i :: 0 <= i < |flash| ==> SequenceOf(flash[i]) < booted.nextSequence)
      && Fits(Uninterrupted(s, q, at)) && Target(booted) == Target(Uninterrupted(s, q, at))
      && (forall i :: 0 <= i < |flash| ==> Keeps(s, flash, i))
      && booted.nextSequence <= s.nextSequence + 1
  {
    var u := Uninterrupted(s, q, at);
    UninterruptedIsSound(s, q, at);
    BootIsSound(u.(index := Sequences(u.flash)));
    CutKeeps(s, q, at);
  }

  // ----- runs -----

  lemma WriteIsSound(s: State, q: Request, o: Outcome)
    requires Sound(s) && s.nextSequence < UINT32_MAX && Possible(s, Put(q, o))
    ensures Sound(Write(s, q, o)) && Write(s, q, o).nextSequence <= s.nextSequence + 1
  {
    MovedIsSound(s);
    ReadyIsWritable(s);
    if o.ProgramFails? {
      SpoiledIsSound(Ready(s), o.left);
    } else {
      AppendedIsSound(Ready(s), q);
    }
  }

  lemma StepIsSound(s: State, e: Event)
    requires Sound(s) && s.nextSequence < UINT32_MAX && Possible(s, e)
    ensures Sound(Step(s, e)) && Step(s, e).nextSequence <= s.nextSequence + 1
  {
    match e
    case Put(q, o) => WriteIsSound(s, q, o);
    case Cut(q, at) => Recovery(s, q, at);
  }

  /** A run is a list of states, one more than events, each a possible step after the one before. */
  ghost predicate Run(trace: seq<State>, events: seq<Event>) {
    |trace| == |events| + 1
    && forall i :: 0 <= i < |events| ==>
      Fits(trace[i]) && Possible(trace[i], events[i]) && trace[i + 1] == Step(trace[i], events[i])
  }

  /**
    Over every run with flash errors and power cuts, until the numbers run out,
    the store stays sound: the index agrees with the flash, every stored number is
    below the next one, and the ring is in order.
  */
  lemma {:induction false} AlwaysSound(trace: seq<State>, events: seq<Event>, k: nat)
    requires Run(trace, events) && Sound(trace[0]) && k < |trace|
    requires trace[0].nextSequence + |events| <= UINT32_MAX
    ensures Sound(trace[k]) && trace[k].nextSequence <= trace[0].nextSequence + k
  {
    if k > 0 {
      AlwaysSound(trace, events, k - 1);
      StepIsSound(trace[k - 1], events[k - 1]);
    }
  }

  /** Everything of a state but its index and the counts drawn from it. */
  function Durable(s: State): State { s.(index := [], info := Info(0, 0, 0)) }

  lemma StepIgnoresIndex(s: State, t: State, e: Event)
    requires Fits(s) && Fits(t) && Durable(s) == Durable(t) && Possible(s, e)
    ensures Possible(t, e) && Durable(Step(s, e)) == Durable(Step(t, e))
  {
    assert s == t.(index := s.index, info := s.info);
    assert Target(s) == Target(t) && CutFlash(s, Idle) == CutFlash(t, Idle);
  }

  /**
    What a run does to the flash does not depend on the index it started with, so
    after a boot scan with read errors that read the latest record every run
    writes, erases and numbers as after a scan without errors.
  */
  lemma {:induction false} RunsIgnoreIndex(trace: seq<State>, other: seq<State>, events: seq<Event>, k: nat)
    requires Run(trace, events) && Run(other, events) && k <= |events|
    requires Durable(trace[0]) == Durable(other[0])
    ensures Durable(trace[k]) == Durable(other[k])
  {
    if k > 0 {
      RunsIgnoreIndex(trace, other, events, k - 1);
      StepIgnoresIndex(trace[k - 1], other[k - 1], events[k - 1]);
    }
  }

  /** Such a run stays sound but for the index. */
  lemma SoundAfterReadErrors(s: State, readable: nat -> bool, trace: seq<State>, other: seq<State>,
                             events: seq<Event>, k: nat)
    requires Sound(s) && s.nextSequence + |events| < UINT32_MAX && LatestReadable(s.flash, readable)
    requires Run(trace, events) && Run(other, events) && k <= |events|
    requires trace[0] == BootedReading(s.flash, readable) && other[0] == Booted(s.flash)
    ensures Sound(other[k]) && trace[k] == other[k].(index := trace[k].index, info := trace[k].info)
  {
    ReadErrorsMatterExactly(s, readable);
    BootIsSound(s);
    RunsIgnoreIndex(trace, other, events, k);
    AlwaysSound(other, events, k);
    assert Durable(trace[k]) == Durable(other[k]);
  }

  /** An erased partition boots into a sound store that writes number one into slot zero. */
  lemma ErasedPartitionIsSound(flash: seq<Slot>)
    requires TwoSectors(|flash|) && forall i :: 0 <= i < |flash| ==> flash[i] == Blank
    ensures Sound(Booted(flash)) && Target(Booted(flash)) == 0 && Booted(flash).nextSequence == 1
  {
    ScanFindsNothing(flash);
  }

  /** Walking the slots circularly from the write position meets strictly increasing numbers. */
  lemma WalkIncreases(s: State)
    requires Sound(s)
    ensures Ordered(s.flash, s.next)
  {
    forall i, j | 0 <= i < |s.flash| && 0 <= j < |s.flash|
      ensures OrderedAt(s.flash, s.next, i, j)
    {
      if last: nat :| Frontier(s.flash, s.next, last) {
        assert OrderedAt(s.flash, last + 1, i, j);
        SectorEndBounds(last);
        SectorEndFits(last, |s.flash|);
      }
    }
  }

  /** A sector erase gives up only records older than every record it keeps. */
  lemma ErasesOldest(s: State, i: nat, j: nat)
    requires Sound(s) && StartsSector(Target(s)) && i < |s.flash| && j < |s.flash|
    requires Target(s) <= i < Target(s) + SECTOR_SLOTS && !(Target(s) <= j < Target(s) + SECTOR_SLOTS)
    requires s.flash[i].Stored? && s.flash[j].Stored?
    ensures s.flash[i].sequence < s.flash[j].sequence
  {
    MovedIsSound(s);
    WalkIncreases(Moved(s));
    assert OrderedAt(s.flash, Target(s), i, j);
  }

  // ----- numbers -----

  function High(flash: seq<Slot>): nat { Scanned(flash, |flash|).sequence }

  /** The number a step makes durable, if it does. */
  function Recorded(s: State, e: Event): seq<nat>
    requires Fits(s)
  {
    match e
    case Put(q, o) =>
      if o.ReadFails? || (StartsSector(Target(s)) && o.EraseFails?) || o.ProgramFails? then [] else [s.nextSequence]
    case Cut(q, at) => if at.Programming? && at.left.Stored? then [s.nextSequence] else []
  }

  lemma SameLatest(flash: seq<Slot>, other: seq<Slot>, last: nat)
    requires Latest(flash, last) && Latest(other, last) && flash[last] == other[last] && flash[last].sequence > 0
    ensures High(flash) == High(other)
  {
    ScanFindsLatest(flash, last);
    ScanFindsLatest(other, last);
  }

  lemma HighBelowNext(s: State)
    requires Sound(s)
    ensures High(s.flash) < s.nextSequence
  {
    ScanFindsGreatest(s.flash, |s.flash|);
  }

  /** Erasing towards the target never loses the greatest number. */
  lemma ErasingKeepsHigh(s: State, partial: seq<Slot>)
    requires Sound(s) && StartsSector(Target(s)) && PartlyErased(s.flash, partial, Target(s))
    ensures High(partial) == High(s.flash)
  {
    if last: nat :| Frontier(s.flash, s.next, last) {
      TargetFollows(s, last);
      FrontierThins(s.flash, partial, Target(s), last);
      SectorEndBounds(last);
      SectorEndFits(last, |s.flash|);
      SameLatest(s.flash, partial, last);
    } else {
      ScanFindsNothing(s.flash);
      ScanFindsNothing(partial);
    }
  }

  lemma ReadyKeepsHigh(s: State)
    requires Sound(s)
    ensures High(Ready(s).flash) == High(s.flash)
  {
    if StartsSector(Target(s)) {
      FillIsPartlyErased(s.flash, Target(s));
      ErasingKeepsHigh(s, Fill(s.flash, Target(s), Blank));
    }
  }

  lemma SpoilingKeepsHigh(s: State, left: Slot)
    requires Sound(s) && Writable(s.flash, s.next) && !left.Stored?
    ensures High(s.flash[s.next := left]) == High(s.flash)
  {
    if last: nat :| Frontier(s.flash, s.next, last) {
      FrontierSpoils(s.flash, s.next, last, left);
      SameLatest(s.flash, s.flash[s.next := left], last);
    } else {
      ScanFindsNothing(s.flash);
      ScanFindsNothing(s.flash[s.next := left]);
    }
  }

  lemma AppendingRaisesHigh(s: State, q: Request)
    requires Sound(s) && Writable(s.flash, s.next) && s.nextSequence < UINT32_MAX
    ensures High(s.flash[s.next := Stored(s.nextSequence, q)]) == s.nextSequence
  {
    AppendedIsSound(s, q);
    ScanFindsLatest(Appended(s, q).flash, s.next);
  }

  /** A step raises the greatest number to the one it records, and otherwise leaves it. */
  lemma StepMovesHigh(s: State, e: Event)
    requires Sound(s) && s.nextSequence < UINT32_MAX && Possible(s, e)
    ensures High(Step(s, e).flash) == if Recorded(s, e) == [] then High(s.flash) else s.nextSequence
    ensures High(s.flash) < s.nextSequence
  {
    HighBelowNext(s);
    ReadyIsWritable(s);
    ReadyKeepsHigh(s);
    AppendingRaisesHigh(Ready(s), e.q);
    match e
    case Put(q, o) =>
      if o.ProgramFails? {
        SpoilingKeepsHigh(Ready(s), o.left);
      }
    case Cut(q, Idle) =>
    case Cut(q, Erasing(partial)) => ErasingKeepsHigh(s, partial);
    case Cut(q, Programming(left)) =>
      if !left.Stored? {
        SpoilingKeepsHigh(Ready(s), left);
      }
  }

  predicate Increasing(s: seq<nat>) { forall i, j :: 0 <= i < j < |s| ==> s[i] < s[j] }

  lemma IncreasingSnoc(s: seq<nat>, x: nat)
    requires s != [] && Increasing(s) && s[|s| - 1] < x
    ensures Increasing(s + [x])
  {
  }

  /** Numbers made durable by each step of a run. */
  ghost function AllRecorded(trace: seq<State>, events: seq<Event>): (all: seq<seq<nat>>)
    requires Run(trace, events)
    ensures |all| == |events| && forall i :: 0 <= i < |events| ==> all[i] == Recorded(trace[i], events[i])
  {
    seq(|events|, i requires 0 <= i < |events| => Recorded(trace[i], events[i]))
  }

  function Highs(trace: seq<State>): (highs: seq<nat>)
    ensures |highs| == |trace| && forall i :: 0 <= i < |trace| ==> highs[i] == High(trace[i].flash)
  {
    seq(|trace|, i requires 0 <= i < |trace| => High(trace[i].flash))
  }

  /** The greatest number there at the start, then everything recorded. */
  function Log(first: nat, recorded: seq<seq<nat>>): seq<nat> {
    if recorded == [] then [first] else Log(first, recorded[..|recorded| - 1]) + recorded[|recorded| - 1]
  }

  /** A step records nothing, or the one number that becomes the greatest. */
  predicate Raises(from: nat, recorded: seq<nat>, to: nat) {
    (recorded == [] && to == from) || (recorded == [to] && from < to)
  }

  lemma {:induction false} LogRises(highs: seq<nat>, recorded: seq<seq<nat>>)
    requires |highs| == |recorded| + 1
    requires forall i :: 0 <= i < |recorded| ==> Raises(highs[i], recorded[i], highs[i + 1])
    ensures var log := Log(highs[0], recorded);
      log != [] && Increasing(log) && log[|log| - 1] == highs[|recorded|]
  {
    if recorded != [] {
      var n := |recorded| - 1;
      LogRises(highs[..n + 1], recorded[..n]);
      if recorded[n] != [] {
        IncreasingSnoc(Log(highs[0], recorded[..n]), highs[n + 1]);
      }
    }
  }

  lemma RunRaises(trace: seq<State>, events: seq<Event>, k: nat)
    requires Run(trace, events) && Sound(trace[0]) && k < |events|
    requires trace[0].nextSequence + |events| <= UINT32_MAX
    ensures Raises(High(trace[k].flash), Recorded(trace[k], events[k]), High(trace[k + 1].flash))
  {
    AlwaysSound(trace, events, k);
    StepMovesHigh(trace[k], events[k]);
  }

  /**
    Sequence numbers are never reused: over every run, reboots included, the
    numbers made durable grow strictly from the greatest one there at the start,
    and the last of them is the greatest one on the flash.
  */
  lemma NumbersNeverReused(trace: seq<State>, events: seq<Event>)
    requires Run(trace, events) && Sound(trace[0])
    requires trace[0].nextSequence + |events| <= UINT32_MAX
    ensures var log := Log(High(trace[0].flash), AllRecorded(trace, events));
      log != [] && Increasing(log) && log[|log| - 1] == High(trace[|events|].flash)
  {
    forall k: nat | k < |events|
      ensures Raises(Highs(trace)[k], AllRecorded(trace, events)[k], Highs(trace)[k + 1])
    {
      RunRaises(trace, events, k);
    }
    LogRises(Highs(trace), AllRecorded(trace, events));
  }

  // ----- the end of the numbers -----

  /**
    The write after record 2^32 - 1 gets number zero, which is none: it is
    programmed but never read back, and the one after it is number one again.
  */
  lemma NumbersWrap(s: State, q: Request, r: Request)
    requires Fits(s) && s.nextSequence == 0xFFFF_FFFF
    ensures var last, lost := Write(s, q, Done), Write(Write(s, q, Done), r, Done);
      && last.flash[Target(s)] == Stored(0xFFFF_FFFF, q) && last.nextSequence == 0
      && lost.flash[Target(last)] == Garbage && lost.index[Target(last)] == 0 && lost.nextSequence == 1
  {
  }

  /** A boot that finds record 2^32 - 1 starts over with number one. */
  lemma BootWraps(flash: seq<Slot>, i: nat)
    requires Geometry(|flash|) && i < |flash| && SequenceOf(flash[i]) == 0xFFFF_FFFF
    requires forall j :: 0 <= j < |flash| ==> SequenceOf(flash[j]) <= 0xFFFF_FFFF
    ensures Booted(flash).nextSequence == 1
  {
    ScanFindsGreatest(flash, |flash|);
  }

  // ----- the error count -----

  /** How a step ends, as far as the error count is concerned. */
  datatype Ending = Rebooted | MadeDurable | NotDurable

  function EndingOf(s: State, e: Event): Ending
    requires Fits(s)
  {
    if e.Cut? then Rebooted else if Recorded(s, e) == [] then NotDurable else MadeDurable
  }

  ghost function Endings(trace: seq<State>, events: seq<Event>): (endings: seq<Ending>)
    requires Run(trace, events)
    ensures |endings| == |events| && forall i :: 0 <= i < |events| ==> endings[i] == EndingOf(trace[i], events[i])
  {
    seq(|events|, i requires 0 <= i < |events| => EndingOf(trace[i], events[i]))
  }

  /** Writes since the last boot that made no record durable. */
  function FailedWrites(first: nat, endings: seq<Ending>): nat {
    if endings == [] then first
    else
      var before := FailedWrites(first, endings[..|endings| - 1]);
      match endings[|endings| - 1]
      case Rebooted => 0
      case MadeDurable => before
      case NotDurable => before + 1
  }

  lemma ErrorStep(s: State, e: Event)
    requires Fits(s) && Possible(s, e)
    ensures Step(s, e).errors ==
      match EndingOf(s, e)
      case Rebooted => 0
      case MadeDurable => s.errors
      case NotDurable => s.errors + 1
  {
  }

  /** Over every run the error count is the number of writes since the boot that made no record durable. */
  lemma {:induction false} ErrorsAreCounted(trace: seq<State>, events: seq<Event>, k: nat)
    requires Run(trace, events) && k <= |events|
    ensures trace[k].errors == FailedWrites(trace[0].errors, Endings(trace, events)[..k])
  {
    if k > 0 {
      var endings := Endings(trace, events);
      ErrorsAreCounted(trace, events, k - 1);
      ErrorStep(trace[k - 1], events[k - 1]);
      assert endings[..k][..k - 1] == endings[..k - 1];
    }
  }

  // ----- the reported counts -----

  lemma {:induction false} SummaryDrops(index: seq<nat>, fewer: seq<nat>)
    requires |fewer| == |index| && forall i :: 0 <= i < |index| ==> fewer[i] == index[i] || fewer[i] == 0
    ensures Summary(fewer).count <= Summary(index).count
    ensures Summary(fewer).count == Summary(index).count ==> fewer == index
  {
    if index != [] {
      var n := |index| - 1;
      SummaryDrops(index[..n], fewer[..n]);
      assert index == index[..n] + [index[n]] && fewer == fewer[..n] + [fewer[n]];
    }
  }

  predicate ForgetsRecords(s: State)
    requires Fits(s)
  {
    StartsSector(Target(s)) && Fill(s.index, Target(s), 0) != s.index
  }

  /** A program operation fails right after an erase that took records out of the index. */
  predicate Miscounts(s: State, e: Event)
    requires Fits(s)
  {
    e.Put? && e.outcome.ProgramFails? && ForgetsRecords(s)
  }

  /** A record is appended, or the store boots. */
  predicate Recounts(s: State, e: Event)
    requires Fits(s)
  {
    e.Cut? || Recorded(s, e) != []
  }

  /** The counts are those of the index, or they still count records it has lost. */
  predicate Counts(s: State, stale: bool) {
    if stale then s.info.count > Summary(s.index).count else s.info == Summary(s.index)
  }

  lemma CountsStep(s: State, e: Event, stale: bool)
    requires Fits(s) && Possible(s, e) && Counts(s, stale)
    ensures Counts(Step(s, e), if Recounts(s, e) then false else stale || Miscounts(s, e))
  {
    if StartsSector(Target(s)) {
      SummaryDrops(s.index, Fill(s.index, Target(s), 0));
    }
  }

  /** Among the first k steps, one has spoilt the counts and none has put them right since. */
  ghost predicate SpoiltBefore(trace: seq<State>, events: seq<Event>, k: nat)
    requires Run(trace, events) && k <= |events|
  {
    exists j :: 0 <= j < k && Miscounts(trace[j], events[j]) && NoneRecount(trace, events, j + 1, k)
  }

  ghost predicate NoneRecount(trace: seq<State>, events: seq<Event>, from: nat, k: nat)
    requires Run(trace, events) && k <= |events|
  {
    forall i :: from <= i < k ==> !Recounts(trace[i], events[i])
  }

  lemma SpoiltNext(trace: seq<State>, events: seq<Event>, k: nat)
    requires Run(trace, events) && 0 < k <= |events|
    ensures SpoiltBefore(trace, events, k) <==>
              !Recounts(trace[k - 1], events[k - 1])
              && (SpoiltBefore(trace, events, k - 1) || Miscounts(trace[k - 1], events[k - 1]))
  {
    var s, e := trace[k - 1], events[k - 1];
    assert !(Miscounts(s, e) && Recounts(s, e));
    if Miscounts(s, e) {
      assert NoneRecount(trace, events, k, k);
    }
  }

  lemma {:induction false} RunCounts(trace: seq<State>, events: seq<Event>, k: nat)
    requires Run(trace, events) && trace[0].info == Summary(trace[0].index) && k <= |events|
    ensures Counts(trace[k], SpoiltBefore(trace, events, k))
  {
    if k > 0 {
      RunCounts(trace, events, k - 1);
      CountsStep(trace[k - 1], events[k - 1], SpoiltBefore(trace, events, k - 1));
      SpoiltNext(trace, events, k);
    }
  }

  /**
    When the reported counts are wrong: over every run from a state in which they
    are right, exactly when a program operation failed right after an erase that
    forgot records, and no record was appended and the store not booted since.
  */
  lemma InfoCurrentExactly(trace: seq<State>, events: seq<Event>, k: nat)
    requires Run(trace, events) && trace[0].info == Summary(trace[0].index) && k <= |events|
    ensures trace[k].info != Summary(trace[k].index) <==> SpoiltBefore(trace, events, k)
  {
    RunCounts(trace, events, k);
  }
}
