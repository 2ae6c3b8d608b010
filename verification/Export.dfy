/**
  Reading the capture ring with a cursor, while it is idle and while it is being
  written, and the ordering check of the program that downloads it.
*/
module Export {
  import opened Wire
  import opened RecordCodec
  import opened CaptureStore
  import opened CaptureRuns

  ghost predicate Holds(flash: seq<Slot>, record: Slot) {
    record.Stored? && exists i: nat :: i < |flash| && flash[i] == record
  }

  lemma SoundNumbersUnique(s: State, i: nat, j: nat)
    requires Sound(s) && i < |s.flash| && j < |s.flash|
    requires s.flash[i].Stored? && s.flash[j].Stored? && s.flash[i].sequence == s.flash[j].sequence
    ensures i == j
  {
    WalkIncreases(s);
    assert OrderedAt(s.flash, s.next, i, j) && OrderedAt(s.flash, s.next, j, i);
  }

  /** A cursor read returns the retained record with the least number above the cursor, or nothing if there is none. */
  lemma CursorFindsNext(s: State, after: nat)
    requires Sound(s)
    ensures var r := Following(s, after);
      && (r.Some? ==> Holds(s.flash, r.value) && after < r.value.sequence < s.nextSequence)
      && (forall i :: 0 <= i < |s.flash| && s.flash[i].Stored? && s.flash[i].sequence > after ==>
        r.Some? && r.value.sequence <= s.flash[i].sequence)
  {
    var r := Wanted(s.index, after, |s.index|);
    forall i | 0 <= i < |s.flash| && s.flash[i].Stored?
      ensures s.index[i] == s.flash[i].sequence
    {
    }
    if r.sequence != 0 {
      assert s.index[r.slot] == SequenceOf(s.flash[r.slot]);
    }
  }

  /**
    And on any store at all, whether the index agrees with the flash or not: what
    is returned is a record the flash holds now, at the slot with the least
    indexed number above the cursor, and nothing is if that slot holds none.
  */
  lemma CursorRevalidates(s: State, after: nat, i: nat)
    requires Fits(s) && i < |s.flash| && s.index[i] > after
    requires forall j :: 0 <= j < |s.flash| && j != i && s.index[j] > after ==> s.index[i] < s.index[j]
    ensures Following(s, after) == if s.flash[i].Stored? then Some(s.flash[i]) else None
  {
    var r := Wanted(s.index, after, |s.index|);
    assert r.sequence == s.index[i] && r.slot == i;
  }

  // ----- an idle store -----

  /** Repeated cursor reads until one returns nothing. */
  ghost function ExportAll(s: State, after: nat): seq<Slot>
    requires Sound(s)
    decreases s.nextSequence - after
  {
    CursorFindsNext(s, after);
    var r := Following(s, after);
    if r.None? then [] else [r.value] + ExportAll(s, r.value.sequence)
  }

  ghost predicate Rising(records: seq<Slot>, after: nat) {
    (forall i :: 0 <= i < |records| ==> records[i].Stored? && records[i].sequence > after)
    && forall i, j :: 0 <= i < j < |records| ==> records[i].sequence < records[j].sequence
  }

  /** An export returns retained records above the cursor in strictly increasing order, so none of them twice. */
  lemma {:induction false} ExportRises(s: State, after: nat)
    requires Sound(s)
    ensures Rising(ExportAll(s, after), after)
    ensures forall i :: 0 <= i < |ExportAll(s, after)| ==> Holds(s.flash, ExportAll(s, after)[i])
    decreases s.nextSequence - after
  {
    CursorFindsNext(s, after);
    if Following(s, after).Some? {
      ExportRises(s, Following(s, after).value.sequence);
    }
  }

  /** An export returns every retained record above the cursor. */
  lemma {:induction false} ExportIsComplete(s: State, after: nat, r: Slot)
    requires Sound(s) && Holds(s.flash, r) && r.sequence > after
    ensures r in ExportAll(s, after)
    decreases s.nextSequence - after
  {
    CursorFindsNext(s, after);
    var first := Following(s, after).value;
    if first.sequence == r.sequence {
      OnlyOneAt(s, first, r);
    } else {
      ExportIsComplete(s, first.sequence, r);
    }
  }

  lemma OnlyOneAt(s: State, a: Slot, b: Slot)
    requires Sound(s) && Holds(s.flash, a) && Holds(s.flash, b) && a.sequence == b.sequence
    ensures a == b
  {
    var i: nat :| i < |s.flash| && s.flash[i] == a;
    var j: nat :| j < |s.flash| && s.flash[j] == b;
    SoundNumbersUnique(s, i, j);
  }

  // ----- a store that is written meanwhile -----

  /** The cursor after k reads that returned these records. */
  function Cursor(after: nat, records: seq<Slot>, k: nat): nat
    requires k <= |records|
  {
    if k == 0 then after else SequenceOf(records[k - 1])
  }

  /** Read k of a session is made on states[k], whatever happened to the store since the read before. */
  ghost predicate Session(states: seq<State>, after: nat, records: seq<Slot>) {
    |records| <= |states|
    && (forall i :: 0 <= i < |states| ==> Sound(states[i]))
    && forall i :: 0 <= i < |records| ==> Following(states[i], Cursor(after, records, i)) == Some(records[i])
  }

  ghost predicate Finished(states: seq<State>, after: nat, records: seq<Slot>) {
    Session(states, after, records) && |states| == |records| + 1
    && Following(states[|records|], Cursor(after, records, |records|)) == None
  }

  lemma ReadAdvances(s: State, after: nat, read: Slot)
    requires Sound(s) && Following(s, after) == Some(read)
    ensures read.Stored? && after < read.sequence
  {
    CursorFindsNext(s, after);
  }

  /** Every record is numbered above the cursor that asked for it. */
  predicate Stepwise(after: nat, records: seq<Slot>) {
    forall k :: 0 <= k < |records| ==> records[k].Stored? && Cursor(after, records, k) < records[k].sequence
  }

  lemma SessionSteps(states: seq<State>, after: nat, records: seq<Slot>)
    requires Session(states, after, records)
    ensures Stepwise(after, records)
  {
    forall k | 0 <= k < |records|
      ensures records[k].Stored? && Cursor(after, records, k) < records[k].sequence
    {
      ReadAdvances(states[k], Cursor(after, records, k), records[k]);
    }
  }

  lemma {:induction false} StepwiseRises(after: nat, records: seq<Slot>, i: nat, j: nat)
    requires Stepwise(after, records) && i <= j < |records|
    ensures after < records[i].sequence
    ensures i < j ==> records[i].sequence < records[j].sequence
    decreases i + j
  {
    if i < j {
      StepwiseRises(after, records, i, j - 1);
    } else if i > 0 {
      StepwiseRises(after, records, i - 1, i - 1);
    }
  }

  /** With writes, erases and reboots between the reads, the numbers returned still grow strictly. */
  lemma ExportStaysOrdered(states: seq<State>, after: nat, records: seq<Slot>)
    requires Session(states, after, records)
    ensures Rising(records, after)
  {
    SessionSteps(states, after, records);
    RisingFromSteps(after, records);
  }

  lemma RisingFromSteps(after: nat, records: seq<Slot>)
    requires Stepwise(after, records)
    ensures Rising(records, after)
  {
    forall i: nat, j: nat | i <= j < |records|
      ensures after < records[i].sequence && (i < j ==> records[i].sequence < records[j].sequence)
    {
      StepwiseRises(after, records, i, j);
    }
    assert forall i :: 0 <= i < |records| ==> i <= i && records[i].sequence > after;
  }

  ghost predicate AlwaysHeld(states: seq<State>, r: Slot) {
    r.Stored? && forall i :: 0 <= i < |states| ==> Holds(states[i].flash, r)
  }

  lemma ReadStaysBelow(s: State, after: nat, r: Slot, read: Slot)
    requires Sound(s) && Holds(s.flash, r) && after < r.sequence && Following(s, after) == Some(read) && read != r
    ensures read.Stored? && read.sequence < r.sequence
  {
    CursorFindsNext(s, after);
    if read.sequence == r.sequence {
      OnlyOneAt(s, read, r);
    }
  }

  /** No read takes the cursor from below this number to it or past it. */
  predicate NeverPasses(after: nat, records: seq<Slot>, number: nat) {
    forall k :: 0 <= k < |records| && Cursor(after, records, k) < number ==> SequenceOf(records[k]) < number
  }

  lemma SessionNeverPasses(states: seq<State>, after: nat, records: seq<Slot>, r: Slot)
    requires Session(states, after, records) && AlwaysHeld(states, r) && r !in records
    ensures NeverPasses(after, records, r.sequence)
  {
    forall k | 0 <= k < |records| && Cursor(after, records, k) < r.sequence
      ensures SequenceOf(records[k]) < r.sequence
    {
      ReadStaysBelow(states[k], Cursor(after, records, k), r, records[k]);
    }
  }

  lemma {:induction false} CursorStaysBelow(after: nat, records: seq<Slot>, number: nat, k: nat)
    requires NeverPasses(after, records, number) && after < number && k <= |records|
    ensures Cursor(after, records, k) < number
  {
    if k > 0 {
      CursorStaysBelow(after, records, number, k - 1);
    }
  }

  /** No record that survives a whole session is skipped by it. */
  lemma SurvivorsAreExported(states: seq<State>, after: nat, records: seq<Slot>, r: Slot)
    requires Finished(states, after, records)
    requires AlwaysHeld(states, r) && r.sequence > after
    ensures r in records
  {
    if r !in records {
      SessionNeverPasses(states, after, records, r);
      CursorStaysBelow(after, records, r.sequence, |records|);
      LastReadFinds(states[|records|], Cursor(after, records, |records|), r);
    }
  }

  lemma LastReadFinds(s: State, after: nat, r: Slot)
    requires Sound(s) && Holds(s.flash, r) && r.sequence > after
    ensures Following(s, after).Some?
  {
    CursorFindsNext(s, after);
  }

  /** The reads of an export made at these points of a run of the store. */
  ghost predicate ReadsDuring(trace: seq<State>, at: seq<nat>, after: nat, records: seq<Slot>) {
    |records| <= |at|
    && (forall i :: 0 <= i < |at| ==> at[i] < |trace|)
    && (forall i :: 0 <= i < |at| ==> Fits(trace[at[i]]))
    && forall i :: 0 <= i < |records| ==> Following(trace[at[i]], Cursor(after, records, i)) == Some(records[i])
  }

  function Visited(trace: seq<State>, at: seq<nat>): (states: seq<State>)
    requires forall i :: 0 <= i < |at| ==> at[i] < |trace|
    ensures |states| == |at| && forall i :: 0 <= i < |at| ==> states[i] == trace[at[i]]
  {
    seq(|at|, i requires 0 <= i < |at| => trace[at[i]])
  }

  lemma RunGivesSession(trace: seq<State>, events: seq<Event>, at: seq<nat>, after: nat, records: seq<Slot>)
    requires Run(trace, events) && Sound(trace[0]) && trace[0].nextSequence + |events| <= UINT32_MAX
    requires ReadsDuring(trace, at, after, records)
    ensures Session(Visited(trace, at), after, records)
  {
    forall i | 0 <= i < |at|
      ensures Sound(Visited(trace, at)[i])
    {
      AlwaysSound(trace, events, at[i]);
    }
  }

  /** So over every run with flash errors and power cuts, reads made at any points of it return growing numbers. */
  lemma ExportDuringRun(trace: seq<State>, events: seq<Event>, at: seq<nat>, after: nat, records: seq<Slot>)
    requires Run(trace, events) && Sound(trace[0]) && trace[0].nextSequence + |events| <= UINT32_MAX
    requires ReadsDuring(trace, at, after, records)
    ensures Rising(records, after)
  {
    RunGivesSession(trace, events, at, after, records);
    ExportStaysOrdered(Visited(trace, at), after, records);
  }

  // ----- the downloading side -----

  /** One line of the export; a field that is missing or of the wrong type is None. */
  datatype Line = Line(sequence: Option<int>, time: Option<int>, text: Option<string>)

  datatype Reason = NonMonotonicSequence | InvalidTime | InvalidText

  datatype Verdict = Accepted | Rejected(index: nat, reason: Reason)

  /** First objection to a line, given the number before it. */
  function Complaint(line: Line, previous: int): Option<Reason> {
    if line.sequence.None? || line.sequence.value <= previous then Some(NonMonotonicSequence)
    else if line.time.None? || line.time.value < 0 then Some(InvalidTime)
    else if line.text.None? || line.text.value == "" then Some(InvalidText)
    else None
  }

  function Previous(lines: seq<Line>, after: int, i: nat): int
    requires i <= |lines|
  {
    if i > 0 && lines[i - 1].sequence.Some? then lines[i - 1].sequence.value else after
  }

  method ValidateRecords(lines: seq<Line>, after: int) returns (v: Verdict)
    ensures v.Accepted? <==> forall i :: 0 <= i < |lines| ==> Complaint(lines[i], Previous(lines, after, i)) == None
    ensures v.Rejected? ==> 0 < v.index <= |lines|
    ensures v.Rejected? ==> Complaint(lines[v.index - 1], Previous(lines, after, v.index - 1)) == Some(v.reason)
    ensures v.Rejected? ==> forall i :: 0 <= i < v.index - 1 ==> Complaint(lines[i], Previous(lines, after, i)) == None
  {
    var previous := after;
    for index := 0 to |lines|
      invariant previous == Previous(lines, after, index)
      invariant forall i :: 0 <= i < index ==> Complaint(lines[i], Previous(lines, after, i)) == None
    {
      var line := lines[index];
      if line.sequence.None? || line.sequence.value <= previous {
        return Rejected(index + 1, NonMonotonicSequence);
      }
      if line.time.None? || line.time.value < 0 {
        return Rejected(index + 1, InvalidTime);
      }
      if line.text.None? || line.text.value == "" {
        return Rejected(index + 1, InvalidText);
      }
      previous := line.sequence.value;
    }
    v := Accepted;
  }

  ghost predicate Renders(lines: seq<Line>, records: seq<Slot>) {
    |lines| == |records|
    && forall i :: 0 <= i < |lines| ==> lines[i].sequence == Some(SequenceOf(records[i]))
  }

  /** The ordering check never objects to what a session returned. */
  lemma OrderingIsNeverRejected(states: seq<State>, after: nat, records: seq<Slot>, lines: seq<Line>)
    requires Session(states, after, records) && Renders(lines, records)
    ensures forall i :: 0 <= i < |lines| ==>
      Complaint(lines[i], Previous(lines, after, i)) != Some(NonMonotonicSequence)
  {
    ExportStaysOrdered(states, after, records);
  }

  /** Nor could it accept anything that is not strictly increasing. */
  lemma {:induction false} AcceptedIsOrdered(lines: seq<Line>, after: int, i: nat, j: nat)
    requires forall k :: 0 <= k < |lines| ==> Complaint(lines[k], Previous(lines, after, k)) == None
    requires i < j < |lines|
    ensures lines[i].sequence.Some? && lines[j].sequence.Some?
    ensures after < lines[i].sequence.value < lines[j].sequence.value
    decreases j
  {
    if i + 1 < j {
      AcceptedIsOrdered(lines, after, i, j - 1);
    } else if i > 0 {
      AcceptedIsOrdered(lines, after, i - 1, i);
    }
    assert Complaint(lines[j], Previous(lines, after, j)) == None;
    assert Complaint(lines[i], Previous(lines, after, i)) == None;
  }

  /** A line with all its fields: a number, a time that is not negative, and a text that is not empty. */
  predicate Complete(line: Line) {
    && line.sequence.Some?
    && line.time.Some? && line.time.value >= 0
    && line.text.Some? && |line.text.value| > 0
  }

  /** The number of line i is above that of the line before it, the first above the start. */
  predicate Rises(lines: seq<Line>, after: int, i: nat)
    requires i < |lines|
  {
    lines[i].sequence.Some?
    && lines[i].sequence.value > (if i == 0 then after
                                  else if lines[i - 1].sequence.Some? then lines[i - 1].sequence.value
                                  else after)
  }

  /** What the download is checked for: exactly the lists of complete lines with strictly rising numbers pass. */
  lemma AcceptedExactly(lines: seq<Line>, after: int)
    ensures (forall i :: 0 <= i < |lines| ==> Complaint(lines[i], Previous(lines, after, i)) == None)
            <==> forall i :: 0 <= i < |lines| ==> Complete(lines[i]) && Rises(lines, after, i)
  {
    forall i | 0 <= i < |lines|
      ensures Complaint(lines[i], Previous(lines, after, i)) == None <==> Complete(lines[i]) && Rises(lines, after, i)
    {
      ComplaintExactly(lines[i], Previous(lines, after, i));
    }
  }

  /** The objection made is about the first of number, time and text that is wrong. */
  lemma ComplaintExactly(line: Line, previous: int)
    ensures var ordered := line.sequence.Some? && line.sequence.value > previous;
      var timed := line.time.Some? && line.time.value >= 0;
      && (Complaint(line, previous) == Some(NonMonotonicSequence) <==> !ordered)
      && (Complaint(line, previous) == Some(InvalidTime) <==> ordered && !timed)
      && (Complaint(line, previous) == Some(InvalidText) <==>
            ordered && timed && !(line.text.Some? && |line.text.value| > 0))
  {
  }
}
