/** What the capture ring still holds after a number of writes without faults. */
module Retention {
  import opened Wire
  import opened RecordCodec
  import opened CaptureStore
  import CaptureRuns

  function Blanks(slots: nat): (flash: seq<Slot>)
    ensures |flash| == slots && forall i :: 0 <= i < slots ==> flash[i] == Blank
  {
    seq(slots, _ => Blank)
  }

  /** The store after writing these requests to an erased partition. */
  function AfterWrites(slots: nat, qs: seq<Request>): (s: State)
    requires Geometry(slots)
    ensures Fits(s) && |s.flash| == slots
  {
    if qs == [] then
      BootFits(Blanks(slots));
      Booted(Blanks(slots))
    else
      Write(AfterWrites(slots, qs[..|qs| - 1]), qs[|qs| - 1], Done)
  }

  lemma BootFits(flash: seq<Slot>)
    requires Geometry(|flash|) && forall i :: 0 <= i < |flash| ==> flash[i] == Blank
    ensures Scanned(flash, |flash|).sequence == 0
    ensures Fits(Booted(flash))
  {
    BlankScan(flash, |flash|);
  }

  lemma {:induction false} BlankScan(flash: seq<Slot>, k: nat)
    requires k <= |flash| && forall i :: 0 <= i < |flash| ==> flash[i] == Blank
    ensures Scanned(flash, k).sequence == 0
  {
    if k > 0 {
      BlankScan(flash, k - 1);
    }
  }

  /** How many of the last n records are still there. */
  function Retained(slots: nat, n: nat): nat
    requires Geometry(slots)
  {
    if n <= slots then n else slots - SECTOR_SLOTS + (n - 1) % SECTOR_SLOTS + 1
  }

  // ----- the layout of the ring -----

  function RoundUp(i: nat): nat { (i + SECTOR_SLOTS - 1) / SECTOR_SLOTS * SECTOR_SLOTS }

  /** Number held by slot i when `base` records filled whole laps and `m` more followed; zero for none. */
  function Holder(slots: nat, base: nat, m: nat, i: nat): nat
    requires i < slots && (base == 0 || base >= slots)
  {
    if i < m then base + i + 1
    else if base == 0 || i < RoundUp(m) then 0
    else base - slots + i + 1
  }

  function Expected(h: nat, qs: seq<Request>): Slot {
    if 0 < h <= |qs| then Stored(h, qs[h - 1]) else Blank
  }

  ghost predicate Laps(slots: nat, base: nat, m: nat) {
    Geometry(slots) && m < slots && (base == 0 || base >= slots)
    && base % SECTOR_SLOTS == 0
  }

  ghost predicate Layout(s: State, qs: seq<Request>, base: nat) {
    && Fits(s) && Laps(|s.flash|, base, s.next)
    && |qs| == base + s.next && s.nextSequence == |qs| + 1
    && s.index == Sequences(s.flash) && s.info == Summary(s.index)
    && forall i :: 0 <= i < |s.flash| ==> s.flash[i] == Expected(Holder(|s.flash|, base, s.next, i), qs)
  }

  lemma TargetIsNext(s: State, qs: seq<Request>, base: nat)
    requires Layout(s, qs, base)
    ensures Target(s) == s.next
  {
  }

  lemma ReadyLayout(s: State, qs: seq<Request>, base: nat)
    requires Layout(s, qs, base)
    ensures Ready(s).next == s.next && Ready(s).index == Sequences(Ready(s).flash)
    ensures forall i :: 0 <= i < |s.flash| ==>
      Ready(s).flash[i] == if s.next <= i < RoundUp(s.next + 1) then Blank else s.flash[i]
  {
    TargetIsNext(s, qs, base);
    RoundUpAfter(s.next);
  }

  lemma RoundUpAfter(m: nat)
    ensures RoundUp(m + 1) == if StartsSector(m) then m + SECTOR_SLOTS else RoundUp(m)
  {
  }

  lemma HolderAdvances(slots: nat, base: nat, m: nat, i: nat)
    requires Laps(slots, base, m) && i < slots && m + 1 < slots
    ensures Holder(slots, base, m + 1, i)
            == if i == m then base + m + 1 else if m < i < RoundUp(m + 1) then 0 else Holder(slots, base, m, i)
  {
  }

  lemma HolderLaps(slots: nat, base: nat, m: nat, i: nat)
    requires Laps(slots, base, m) && i < slots && m + 1 == slots
    ensures Holder(slots, base + slots, 0, i) == if i == m then base + slots else Holder(slots, base, m, i)
  {
  }

  lemma HolderBound(slots: nat, base: nat, m: nat, i: nat)
    requires Laps(slots, base, m) && i < slots
    ensures Holder(slots, base, m, i) <= base + m
  {
  }

  function NextBase(slots: nat, base: nat, m: nat): nat { if m + 1 == slots then base + slots else base }

  lemma ExpectedAdvances(slots: nat, base: nat, m: nat, qs: seq<Request>, q: Request, i: nat)
    requires Laps(slots, base, m) && i < slots && |qs| == base + m
    ensures Laps(slots, NextBase(slots, base, m), Wrap(m + 1, slots))
    ensures Expected(Holder(slots, NextBase(slots, base, m), Wrap(m + 1, slots), i), qs + [q])
            == if i == m then Stored(base + m + 1, q)
               else if m < i < RoundUp(m + 1) then Blank
               else Expected(Holder(slots, base, m, i), qs)
  {
    HolderBound(slots, base, m, i);
    if m + 1 == slots {
      HolderLaps(slots, base, m, i);
    } else {
      HolderAdvances(slots, base, m, i);
    }
  }

  lemma RingAdvances(slots: nat, base: nat, m: nat)
    requires Laps(slots, base, m)
    ensures Laps(slots, NextBase(slots, base, m), Wrap(m + 1, slots))
    ensures NextBase(slots, base, m) + Wrap(m + 1, slots) == base + m + 1
  {
  }

  lemma WrittenFlash(s: State, qs: seq<Request>, base: nat, q: Request)
    requires Layout(s, qs, base) && s.nextSequence < UINT32_MAX
    ensures var w := Write(s, q, Done); var slots := |s.flash|;
      && w.index == Sequences(w.flash) && w.info == Summary(w.index)
      && w.nextSequence == s.nextSequence + 1 && w.next == Wrap(s.next + 1, slots) && |w.flash| == slots
      && forall i :: 0 <= i < slots ==>
        w.flash[i] == if i == s.next then Stored(|qs| + 1, q)
                      else if s.next < i < RoundUp(s.next + 1) then Blank
                      else s.flash[i]
  {
    ReadyLayout(s, qs, base);
    assert Write(s, q, Done) == Appended(Ready(s), q);
  }

  /** One more write moves the layout on. */
  lemma WriteLayout(s: State, qs: seq<Request>, base: nat, q: Request)
    requires Layout(s, qs, base) && s.nextSequence < UINT32_MAX
    ensures Layout(Write(s, q, Done), qs + [q], NextBase(|s.flash|, base, s.next))
  {
    WrittenFlash(s, qs, base, q);
    RingAdvances(|s.flash|, base, s.next);
    forall i: nat | i < |s.flash| {
      ExpectedAdvances(|s.flash|, base, s.next, qs, q, i);
    }
  }

  lemma BlankLayout(slots: nat)
    requires Geometry(slots)
    ensures Layout(AfterWrites(slots, []), [], 0)
  {
    BootFits(Blanks(slots));
  }

  ghost predicate Laid(slots: nat, qs: seq<Request>)
    requires Geometry(slots)
  {
    exists base: nat :: Layout(AfterWrites(slots, qs), qs, base)
  }

  lemma AfterWritesSnoc(slots: nat, qs: seq<Request>)
    requires Geometry(slots) && qs != []
    ensures AfterWrites(slots, qs) == Write(AfterWrites(slots, qs[..|qs| - 1]), qs[|qs| - 1], Done)
  {
  }

  lemma OneMoreWrite(slots: nat, qs: seq<Request>)
    requires Geometry(slots) && qs != [] && |qs| < UINT32_MAX && Laid(slots, qs[..|qs| - 1])
    ensures Laid(slots, qs)
  {
    var n := |qs| - 1;
    var s := AfterWrites(slots, qs[..n]);
    var base: nat :| Layout(s, qs[..n], base);
    WriteLayout(s, qs[..n], base, qs[n]);
    LastApart(qs);
    AfterWritesSnoc(slots, qs);
    Witness(slots, qs, NextBase(slots, base, s.next));
  }

  lemma Witness(slots: nat, qs: seq<Request>, base: nat)
    requires Geometry(slots) && Layout(AfterWrites(slots, qs), qs, base)
    ensures Laid(slots, qs)
  {
  }

  /** The layout after any number of writes. */
  lemma {:induction false} AfterWritesLayout(slots: nat, qs: seq<Request>)
    requires Geometry(slots) && |qs| < UINT32_MAX
    ensures Laid(slots, qs)
  {
    if qs == [] {
      BlankLayout(slots);
    } else {
      AfterWritesLayout(slots, qs[..|qs| - 1]);
      OneMoreWrite(slots, qs);
    }
  }

  // ----- counting -----

  /** What the reported counts come to over the first k slots. */
  function Counted(slots: nat, base: nat, m: nat, k: nat): Info
    requires k <= slots && (base == 0 || base >= slots)
  {
    if k <= m then (if k == 0 then Info(0, 0, 0) else Info(k, base + 1, base + k))
    else if base == 0 || k <= RoundUp(m) then (if m == 0 then Info(0, 0, 0) else Info(m, base + 1, base + m))
    else Info(m + k - RoundUp(m), base - slots + RoundUp(m) + 1, if m == 0 then base - slots + k else base + m)
  }

  function Counting(rest: Info, x: nat): Info {
    if x == 0 then rest
    else Info(rest.count + 1,
              if rest.oldest == 0 || x < rest.oldest then x else rest.oldest,
              if x > rest.latest then x else rest.latest)
  }

  lemma CountedNext(slots: nat, base: nat, m: nat, k: nat)
    requires Laps(slots, base, m) && k < slots
    ensures Counted(slots, base, m, k + 1) == Counting(Counted(slots, base, m, k), Holder(slots, base, m, k))
  {
  }

  lemma SummarySnoc(index: seq<nat>, k: nat)
    requires k < |index|
    ensures Summary(index[..k + 1]) == Counting(Summary(index[..k]), index[k])
  {
    assert index[..k + 1][..k] == index[..k];
  }

  lemma LayoutIndex(s: State, qs: seq<Request>, base: nat, i: nat)
    requires Layout(s, qs, base) && i < |s.flash|
    ensures s.index[i] == Holder(|s.flash|, base, s.next, i)
  {
    HolderBound(|s.flash|, base, s.next, i);
  }

  lemma {:induction false} SummaryCounts(s: State, qs: seq<Request>, base: nat, k: nat)
    requires Layout(s, qs, base) && k <= |s.flash|
    ensures Summary(s.index[..k]) == Counted(|s.flash|, base, s.next, k)
  {
    if k > 0 {
      SummaryCounts(s, qs, base, k - 1);
      SummarySnoc(s.index, k - 1);
      LayoutIndex(s, qs, base, k - 1);
      CountedNext(|s.flash|, base, s.next, k - 1);
    }
  }

  // ----- what is retained -----

  lemma RoundUpIs(m: nat)
    ensures m == 0 ==> RoundUp(m) == 0
    ensures m > 0 ==> RoundUp(m) == m - 1 - (m - 1) % SECTOR_SLOTS + SECTOR_SLOTS
  {
  }

  lemma RoundUpFits(slots: nat, m: nat)
    requires Geometry(slots) && m <= slots
    ensures RoundUp(m) <= slots
  {
  }

  lemma WholeSectors(base: nat, m: nat)
    requires base % SECTOR_SLOTS == 0 && base + m > 0
    ensures (base + m - 1) % SECTOR_SLOTS == if m == 0 then SECTOR_SLOTS - 1 else (m - 1) % SECTOR_SLOTS
  {
  }

  lemma RetainedInLaps(slots: nat, base: nat, m: nat)
    requires Laps(slots, base, m)
    ensures Retained(slots, base + m) == if base == 0 then m else m + slots - RoundUp(m)
    ensures RoundUp(m) <= slots
  {
    RoundUpIs(m);
    RoundUpFits(slots, m);
    if base + m > 0 {
      WholeSectors(base, m);
    }
  }

  /** The slot of record k. */
  function Position(slots: nat, base: nat, k: nat): int { if k > base then k - base - 1 else k - base + slots - 1 }

  lemma HolderOfPosition(slots: nat, base: nat, m: nat, k: nat)
    requires Laps(slots, base, m) && base + m - Retained(slots, base + m) < k <= base + m
    ensures 0 <= Position(slots, base, k) < slots && Holder(slots, base, m, Position(slots, base, k)) == k
  {
    RetainedInLaps(slots, base, m);
  }

  lemma HolderIsRetained(slots: nat, base: nat, m: nat, i: nat)
    requires Laps(slots, base, m) && i < slots && Holder(slots, base, m, i) != 0
    ensures base + m - Retained(slots, base + m) < Holder(slots, base, m, i) <= base + m
  {
    RetainedInLaps(slots, base, m);
  }

  lemma CountedAll(slots: nat, base: nat, m: nat)
    requires Laps(slots, base, m)
    ensures var n, r := base + m, Retained(slots, base + m);
      r <= n && Counted(slots, base, m, slots) == Info(r, if n == 0 then 0 else n - r + 1, n)
  {
    RetainedInLaps(slots, base, m);
  }

  /** Record k of these requests is on the flash, unaltered. */
  ghost predicate Kept(flash: seq<Slot>, qs: seq<Request>, k: nat)
    requires 0 < k <= |qs|
  {
    exists i: nat :: i < |flash| && flash[i] == Stored(k, qs[k - 1])
  }

  /** The slot holds nothing or one of the last r records, unaltered. */
  predicate HoldsRecent(slot: Slot, qs: seq<Request>, r: nat)
    requires r <= |qs|
  {
    slot.Stored? ==> |qs| - r < slot.sequence <= |qs| && slot == Stored(slot.sequence, qs[slot.sequence - 1])
  }

  lemma RecordIsKept(s: State, qs: seq<Request>, base: nat, k: nat)
    requires Layout(s, qs, base) && |qs| - Retained(|s.flash|, |qs|) < k <= |qs| && k > 0
    ensures Kept(s.flash, qs, k)
  {
    HolderOfPosition(|s.flash|, base, s.next, k);
    assert s.flash[Position(|s.flash|, base, k)] == Stored(k, qs[k - 1]);
  }

  lemma SlotIsRecent(s: State, qs: seq<Request>, base: nat, i: nat)
    requires Layout(s, qs, base) && i < |s.flash| && Retained(|s.flash|, |qs|) <= |qs|
    ensures HoldsRecent(s.flash[i], qs, Retained(|s.flash|, |qs|))
  {
    if s.flash[i].Stored? {
      HolderIsRetained(|s.flash|, base, s.next, i);
    }
  }

  lemma InfoReports(s: State, qs: seq<Request>, base: nat)
    requires Layout(s, qs, base)
    ensures var n, r := |qs|, Retained(|s.flash|, |qs|);
      r <= n && s.info == Info(r, if n == 0 then 0 else n - r + 1, n)
  {
    CountedAll(|s.flash|, base, s.next);
    InfoIsCounted(s, qs, base);
  }

  lemma InfoIsCounted(s: State, qs: seq<Request>, base: nat)
    requires Layout(s, qs, base)
    ensures s.info == Counted(|s.flash|, base, s.next, |s.flash|)
  {
    SummaryCounts(s, qs, base, |s.flash|);
    assert s.index[..|s.flash|] == s.index;
  }

  /**
    Retention: after n writes without faults to an erased partition the flash
    holds exactly the last Retained(slots, n) records, each unaltered, and the
    reported count, oldest and latest number describe precisely that set.
  */
  lemma RetainsLatest(slots: nat, qs: seq<Request>)
    requires Geometry(slots) && |qs| < UINT32_MAX
    ensures var s, n, r := AfterWrites(slots, qs), |qs|, Retained(slots, |qs|);
      && r <= n
      && (forall i :: 0 <= i < slots ==> HoldsRecent(s.flash[i], qs, r))
      && (forall k :: n - r < k <= n ==> Kept(s.flash, qs, k))
      && s.info == Info(r, if n == 0 then 0 else n - r + 1, n)
  {
    AfterWritesLayout(slots, qs);
    var s := AfterWrites(slots, qs);
    var base: nat :| Layout(s, qs, base);
    InfoReports(s, qs, base);
    forall i: nat | i < slots {
      SlotIsRecent(s, qs, base, i);
    }
    forall k: nat | 0 < k <= |qs| && |qs| - Retained(slots, |qs|) < k {
      RecordIsKept(s, qs, base, k);
    }
  }

  /**
    Why a second sector is needed: once a partition of one sector, which the boot
    code accepts, has been filled any number of times, it holds the last 32
    records, and a cut right after the next erase restarts the numbers at one.
  */
  lemma OneSectorRestarts(slots: nat, qs: seq<Request>, q: Request)
    requires slots == SECTOR_SLOTS && 0 < |qs| < UINT32_MAX && |qs| % SECTOR_SLOTS == 0 && Storable(q)
    ensures var s := AfterWrites(slots, qs);
      var cut := CaptureRuns.Cut(q, CaptureRuns.Erasing(Fill(s.flash, 0, Blank)));
      && s.nextSequence == |qs| + 1
      && (forall k :: |qs| - slots < k <= |qs| ==> Kept(s.flash, qs, k))
      && CaptureRuns.Possible(s, cut) && CaptureRuns.Step(s, cut).nextSequence == 1
  {
    AllKept(slots, qs);
    BackAtStart(slots, qs);
    ErasedRestarts(AfterWrites(slots, qs), q);
  }

  lemma AllKept(slots: nat, qs: seq<Request>)
    requires slots == SECTOR_SLOTS && 0 < |qs| < UINT32_MAX && |qs| % SECTOR_SLOTS == 0
    ensures forall k :: |qs| - slots < k <= |qs| ==> k > 0 && Kept(AfterWrites(slots, qs).flash, qs, k)
  {
    RetainsLatest(slots, qs);
    WholeSectorRetained(slots, |qs|);
  }

  lemma WholeSectorRetained(slots: nat, n: nat)
    requires slots == SECTOR_SLOTS && n > 0 && n % SECTOR_SLOTS == 0
    ensures Retained(slots, n) == slots <= n
  {
  }

  lemma BackAtStart(slots: nat, qs: seq<Request>)
    requires slots == SECTOR_SLOTS && |qs| < UINT32_MAX && |qs| % SECTOR_SLOTS == 0
    ensures var s := AfterWrites(slots, qs); s.next == 0 && s.nextSequence == |qs| + 1
  {
    AfterWritesLayout(slots, qs);
    var base: nat :| Layout(AfterWrites(slots, qs), qs, base);
    NextInLap(AfterWrites(slots, qs), qs, base);
    WithinSector(base, AfterWrites(slots, qs).next);
  }

  lemma NextInLap(s: State, qs: seq<Request>, base: nat)
    requires Layout(s, qs, base)
    ensures s.next < |s.flash| && base % SECTOR_SLOTS == 0
    ensures |qs| == base + s.next && s.nextSequence == |qs| + 1
  {
  }

  lemma WithinSector(base: nat, m: nat)
    requires base % SECTOR_SLOTS == 0 && m < SECTOR_SLOTS
    ensures (base + m) % SECTOR_SLOTS == m
  {
  }

  lemma ErasedRestarts(s: State, q: Request)
    requires Fits(s) && |s.flash| == SECTOR_SLOTS && s.next == 0 && Storable(q)
    ensures var cut := CaptureRuns.Cut(q, CaptureRuns.Erasing(Fill(s.flash, 0, Blank)));
      CaptureRuns.Possible(s, cut) && CaptureRuns.Step(s, cut).nextSequence == 1
  {
    CaptureRuns.FillIsPartlyErased(s.flash, 0);
    CaptureRuns.ScanFindsNothing(Fill(s.flash, 0, Blank));
  }
}
