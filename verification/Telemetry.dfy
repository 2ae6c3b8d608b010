/** The telemetry ring: a fixed array that refines an unbounded log. */
module Telemetry {
  import opened Wire

  const RING_ENTRIES: nat := 96
  const UINT64_MAX: nat := 0xFFFF_FFFF_FFFF_FFFF

  datatype Entry = Entry(sequence: nat, text: string)

  /** Number of the oldest entry the ring still holds after `latest` publications; zero if there is none. */
  function Oldest(latest: nat): nat {
    if latest > RING_ENTRIES then latest - RING_ENTRIES + 1 else if latest > 0 then 1 else 0
  }

  /** Entry number k of the log. */
  function Numbered(log: seq<string>, k: nat): Entry
    requires 0 < k <= |log|
  {
    Entry(k, log[k - 1])
  }

  /** What a reader of the log gets: the entry after its cursor, or the oldest retained one if that is gone. */
  function LogAfter(log: seq<string>, after: nat): Option<Entry> {
    if after >= |log| then None
    else if after + 1 < Oldest(|log|) then Some(Numbered(log, Oldest(|log|)))
    else Some(Numbered(log, after + 1))
  }

  lemma PlacesDiffer(j: nat, k: nat)
    requires 0 < j < k < j + RING_ENTRIES
    ensures (j - 1) % RING_ENTRIES != (k - 1) % RING_ENTRIES
  {
  }

  class Ring {
    const entries: array<Entry>
    var latest: nat
    /** Every text ever published, in order. */
    ghost var log: seq<string>

    ghost predicate Valid()
      reads this, entries
    {
      && entries.Length == RING_ENTRIES && latest == |log| <= UINT64_MAX
      && forall k :: 0 < k <= latest && Oldest(latest) <= k ==> entries[(k - 1) % RING_ENTRIES] == Numbered(log, k)
    }

    constructor ()
      ensures Valid() && log == [] && fresh(entries)
    {
      entries := new Entry[RING_ENTRIES](_ => Entry(0, ""));
      latest, log := 0, [];
    }

    method Publish(text: string)
      requires Valid() && latest < UINT64_MAX
      modifies this, entries
      ensures Valid() && log == old(log) + [text]
    {
      latest := latest + 1;
      entries[(latest - 1) % RING_ENTRIES] := Entry(latest, text);
      log := log + [text];
      forall k | 0 < k <= latest && Oldest(latest) <= k
        ensures entries[(k - 1) % RING_ENTRIES] == Numbered(log, k)
      {
        if k < latest {
          PlacesDiffer(k, latest);
          assert Oldest(latest - 1) <= k && Numbered(log, k) == Numbered(old(log), k);
        }
      }
    }

    /**
      The cursor. The successor of the greatest cursor wraps to zero, so that
      cursor reads from the beginning again.
    */
    method GetAfter(after: nat) returns (r: Option<Entry>)
      requires Valid() && after <= UINT64_MAX
      ensures r == if after < UINT64_MAX then LogAfter(log, after) else LogAfter(log, 0)
    {
      var oldest := if latest > RING_ENTRIES then latest - RING_ENTRIES + 1 else if latest != 0 then 1 else 0;
      var wanted := if after == UINT64_MAX then 0 else after + 1;
      if wanted < oldest {
        wanted := oldest;
      }
      if wanted != 0 && wanted <= latest {
        r := Some(entries[(wanted - 1) % RING_ENTRIES]);
      } else {
        r := None;
      }
    }
  }

  /** Repeated cursor reads of an idle ring until one returns nothing. */
  function ReadAll(log: seq<string>, after: nat): seq<Entry>
    decreases |log| - after
  {
    var r := LogAfter(log, after);
    if r.None? then [] else [r.value] + ReadAll(log, r.value.sequence)
  }

  /** First entry a reader with this cursor can still get. */
  function FirstAvailable(log: seq<string>, after: nat): nat {
    if after + 1 < Oldest(|log|) then Oldest(|log|) else after + 1
  }

  /** A reader gets every retained entry above its cursor, in order, once, and then nothing. */
  lemma {:induction false} ReadAllIsSuffix(log: seq<string>, after: nat)
    ensures var first := FirstAvailable(log, after); var entries := ReadAll(log, after);
      && |entries| == (if after >= |log| then 0 else |log| + 1 - first)
      && forall i :: 0 <= i < |entries| ==> entries[i] == Numbered(log, first + i)
    decreases |log| - after
  {
    if after < |log| {
      ReadAllIsSuffix(log, FirstAvailable(log, after));
    }
  }

  // ----- a reader that polls -----

  /** A reader's cursor and everything it got so far. */
  datatype Reader = Reader(cursor: nat, got: seq<Entry>)

  /** Everything published, in order. */
  function Published(batches: seq<seq<string>>): seq<string> {
    if batches == [] then [] else Published(batches[..|batches| - 1]) + batches[|batches| - 1]
  }

  /** One poll: reads from the cursor until there is nothing more. */
  function Polled(log: seq<string>, reader: Reader): Reader {
    var entries := ReadAll(log, reader.cursor);
    Reader(if entries == [] then reader.cursor else entries[|entries| - 1].sequence, reader.got + entries)
  }

  /** A new reader that polls once after every batch of publications. */
  function Followed(batches: seq<seq<string>>): Reader {
    if batches == [] then Reader(0, []) else Polled(Published(batches), Followed(batches[..|batches| - 1]))
  }

  function Entries(log: seq<string>): (entries: seq<Entry>)
    ensures |entries| == |log| && forall i :: 0 <= i < |log| ==> entries[i] == Numbered(log, i + 1)
  {
    seq(|log|, i requires 0 <= i < |log| => Numbered(log, i + 1))
  }

  predicate Fitting(batches: seq<seq<string>>) { forall i :: 0 <= i < |batches| ==> |batches[i]| <= 96 }

  /** One poll of a reader that is up to date with everything before the last batch. */
  lemma PolledBatch(log: seq<string>, batch: seq<string>, reader: Reader)
    requires reader.cursor == |log|
    ensures var after := Polled(log + batch, reader);
      && after.cursor == |log| + |batch|
      && |after.got| == |reader.got| + (if |batch| <= RING_ENTRIES then |batch| else RING_ENTRIES)
      && (reader.got == Entries(log) && |batch| <= RING_ENTRIES ==> after.got == Entries(log + batch))
  {
    ReadAllIsSuffix(log + batch, |log|);
  }

  /**
    A polling reader gets every entry ever published, once and in order, if and
    only if no batch between two polls is longer than the ring.
  */
  lemma {:induction false} NothingLostExactly(batches: seq<seq<string>>)
    ensures Followed(batches).got == Entries(Published(batches)) <==> Fitting(batches)
    ensures Followed(batches).cursor == |Published(batches)|
    ensures |Followed(batches).got| <= |Published(batches)|
    ensures |Followed(batches).got| == |Published(batches)| ==> Fitting(batches)
  {
    if batches != [] {
      var n := |batches| - 1;
      NothingLostExactly(batches[..n]);
      PolledBatch(Published(batches[..n]), batches[n], Followed(batches[..n]));
      assert Fitting(batches) <==> Fitting(batches[..n]) && |batches[n]| <= RING_ENTRIES;
    }
  }
}
