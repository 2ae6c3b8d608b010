/**
  Byte-at-a-time frame recognition on a UART stream, and the offline extractor
  that reads frames out of a complete capture.
*/
module Framing {
  import opened Wire
  import opened Protocol

  /** Receive state of one stream: bytes of the frame in progress and the size it announced (0: not yet known). */
  datatype Stream = Stream(buffer: seq<Byte>, expected: nat, synchronized: bool)

  const IDLE := Stream([], 0, false)

  /** index: position the byte took in the frame in progress, None for noise. frame: completed by this byte. */
  datatype Reaction = Reaction(next: Stream, index: Option<nat>, frame: Option<seq<Byte>>)

  function Flushed(s: Stream): Stream { s.(buffer := [], expected := 0) }

  function Start(s: Stream, b: Byte): Reaction {
    if b == HEADER_0 then Reaction(s.(buffer := [b]), Some(0), None)
    else Reaction(s, None, None)
  }

  function Append(s: Stream, b: Byte): Reaction {
    var grown := s.buffer + [b];
    var expected := if |grown| == 3 then ExpectedSize(grown) else s.expected;
    if |grown| == 3 && expected == 0 then
      Reaction(Flushed(s), Some(2), None)
    else if expected > 0 && |grown| == expected then
      var valid := ChecksumValid(grown);
      Reaction(Stream([], 0, s.synchronized || valid), Some(|s.buffer|),
               if s.synchronized || valid then Some(grown) else None)
    else
      Reaction(s.(buffer := grown, expected := expected), Some(|s.buffer|), None)
  }

  function Consume(s: Stream, b: Byte): Reaction {
    if s.buffer == [] then Start(s, b)
    else if |s.buffer| == 1 && b != HEADER_1 then Start(Flushed(s), b)
    else Append(s, b)
  }

  /** What a receive state can be between two bytes: strictly less than one whole frame, with a good header so far. */
  predicate Wellformed(s: Stream) {
    if s.expected == 0 then
      && |s.buffer| <= 2
      && (|s.buffer| >= 1 ==> s.buffer[0] == HEADER_0)
      && (|s.buffer| >= 2 ==> s.buffer[1] == HEADER_1)
    else
      3 <= |s.buffer| < s.expected && ExpectedSize(s.buffer) == s.expected
  }

  lemma ConsumeKeepsWellformed(s: Stream, b: Byte)
    requires Wellformed(s)
    ensures Wellformed(Consume(s, b).next)
  {
  }

  class FrameStream {
    var bytes: array<Byte>
    var length: nat
    var expected: nat
    var synchronized: bool

    ghost predicate Valid()
      reads this, bytes
    {
      bytes.Length == MAX_FRAME_SIZE && length <= bytes.Length && Wellformed(View())
    }

    ghost function View(): Stream
      reads this, bytes
      requires length <= bytes.Length
    {
      Stream(bytes[..length], expected, synchronized)
    }

    constructor ()
      ensures Valid() && fresh(bytes) && View() == IDLE
    {
      bytes := new Byte[MAX_FRAME_SIZE](_ => 0);
      length, expected, synchronized := 0, 0, false;
    }

    method Flush()
      requires Valid()
      modifies this
      ensures Valid() && bytes == old(bytes) && View() == Flushed(old(View()))
    {
      if length == 0 {
        assert expected == 0;
        return;
      }
      length, expected := 0, 0;
    }

    /** A byte of the frame in progress, past its first one. */
    method AppendByte(b: Byte) returns (index: Option<nat>, frame: Option<seq<Byte>>)
      requires Valid() && length > 0 && (length == 1 ==> b == HEADER_1)
      modifies this, bytes
      ensures Valid() && bytes == old(bytes)
      ensures Reaction(View(), index, frame) == Append(old(View()), b)
    {
      index, frame := Some(length), None;
      if length >= bytes.Length {
        assert false;
      }
      bytes[length] := b;
      length := length + 1;
      assert bytes[..length] == old(View()).buffer + [b];
      if length == 3 {
        expected := ExpectedSize(bytes[..length]);
        if expected == 0 {
          length, expected := 0, 0;
        }
      }
      if expected > 0 && length == expected {
        var valid := ChecksumValid(bytes[..length]);
        if synchronized || valid {
          frame := Some(bytes[..length]);
        }
        if valid {
          synchronized := true;
        }
        length, expected := 0, 0;
      }
    }

    /** One received byte. A byte that breaks the header is tried once more as the start of a new frame. */
    method ConsumeByte(b: Byte) returns (index: Option<nat>, frame: Option<seq<Byte>>)
      requires Valid()
      modifies this, bytes
      ensures Valid() && bytes == old(bytes)
      ensures Reaction(View(), index, frame) == Consume(old(View()), b)
    {
      index, frame := None, None;
      var retry := true;
      while retry
        invariant Valid() && bytes == old(bytes)
        invariant retry ==> View() == old(View()) || (length == 0 && View() == Flushed(old(View())))
        invariant retry ==> index == None && frame == None
        invariant retry && length == 0 && old(length) != 0 ==> old(length) == 1 && b != HEADER_1
        invariant !retry ==> Reaction(View(), index, frame) == Consume(old(View()), b)
        decreases if retry then 1 + length else 0
      {
        retry := false;
        if length == 0 {
          if b == HEADER_0 {
            bytes[length] := b;
            length := length + 1;
            index := Some(0);
          }
          continue;
        }
        if length == 1 && b != HEADER_1 {
          Flush();
          retry := true;
          continue;
        }
        index, frame := AppendByte(b);
      }
    }
  }

  // ----- whole streams -----

  /** Frames handed on while consuming a stream, each with the stream position just behind it. */
  datatype Outcome = Outcome(last: Stream, frames: seq<seq<Byte>>, ends: seq<nat>)

  function Noted(o: Outcome, r: Reaction, position: nat): Outcome {
    match r.frame
    case None => Outcome(r.next, o.frames, o.ends)
    case Some(f) => Outcome(r.next, o.frames + [f], o.ends + [position + 1])
  }

  /** One more byte, at the given stream position, after an outcome. */
  function After(o: Outcome, b: Byte, position: nat): Outcome { Noted(o, Consume(o.last, b), position) }

  function ConsumeAll(s: Stream, input: seq<Byte>): Outcome {
    if input == [] then Outcome(s, [], [])
    else After(ConsumeAll(s, input[..|input| - 1]), input[|input| - 1], |input| - 1)
  }

  lemma ConsumeOneMore(s: Stream, input: seq<Byte>, b: Byte)
    ensures ConsumeAll(s, input + [b]) == After(ConsumeAll(s, input), b, |input|)
  {
    assert (input + [b])[..|input|] == input;
  }

  /** The frames are disjoint slices of the input in stream order, followed by the buffered tail. */
  predicate Sliced(o: Outcome, input: seq<Byte>) {
    && Wellformed(o.last)
    && |o.frames| == |o.ends|
    && |o.last.buffer| <= |input|
    && o.last.buffer == input[|input| - |o.last.buffer|..]
    && (forall i :: 0 <= i < |o.ends| ==>
          && |o.frames[i]| <= o.ends[i] <= |input| - |o.last.buffer|
          && o.frames[i] == input[o.ends[i] - |o.frames[i]|..o.ends[i]]
          && (i > 0 ==> o.ends[i - 1] <= o.ends[i] - |o.frames[i]|))
  }

  lemma BufferTracksInput(s: Stream, input: seq<Byte>, b: Byte)
    requires Wellformed(s) && |s.buffer| <= |input| && s.buffer == input[|input| - |s.buffer|..]
    ensures var r := Consume(s, b);
      && |r.next.buffer| <= |s.buffer| + 1
      && r.next.buffer == (input + [b])[|input| + 1 - |r.next.buffer|..]
      && (r.frame.Some? ==> r.next.buffer == [] && r.frame.value == s.buffer + [b])
      && s.buffer + [b] == (input + [b])[|input| - |s.buffer|..]
  {
    assert s.buffer + [b] == (input + [b])[|input| - |s.buffer|..];
    assert [b] == (input + [b])[|input|..];
  }

  lemma SlicesSurvive(o: Outcome, input: seq<Byte>, b: Byte)
    requires Sliced(o, input)
    ensures forall i :: 0 <= i < |o.ends| ==>
              o.frames[i] == (input + [b])[o.ends[i] - |o.frames[i]|..o.ends[i]]
  {
    forall i | 0 <= i < |o.ends|
      ensures input[o.ends[i] - |o.frames[i]|..o.ends[i]]
              == (input + [b])[o.ends[i] - |o.frames[i]|..o.ends[i]]
    {
    }
  }

  lemma SlicedSame(o: Outcome, next: Outcome, input: seq<Byte>, more: seq<Byte>)
    requires Sliced(o, input) && |more| == |input| + 1
    requires Wellformed(next.last) && |next.last.buffer| <= |o.last.buffer| + 1
    requires next.last.buffer == more[|more| - |next.last.buffer|..]
    requires forall i :: 0 <= i < |o.ends| ==> o.frames[i] == more[o.ends[i] - |o.frames[i]|..o.ends[i]]
    requires next.frames == o.frames && next.ends == o.ends
    ensures Sliced(next, more)
  {
  }

  lemma SlicedMore(o: Outcome, next: Outcome, input: seq<Byte>, more: seq<Byte>)
    requires Sliced(o, input) && |more| == |input| + 1
    requires Wellformed(next.last) && next.last.buffer == []
    requires forall i :: 0 <= i < |o.ends| ==> o.frames[i] == more[o.ends[i] - |o.frames[i]|..o.ends[i]]
    requires next.frames == o.frames + [more[|input| - |o.last.buffer|..]] && next.ends == o.ends + [|more|]
    ensures Sliced(next, more)
  {
  }

  /** A reaction that keeps the buffer the tail of the input keeps the outcome sliced. */
  lemma NotedIsSliced(o: Outcome, r: Reaction, input: seq<Byte>, more: seq<Byte>)
    requires Sliced(o, input) && |more| == |input| + 1
    requires forall i :: 0 <= i < |o.ends| ==> o.frames[i] == more[o.ends[i] - |o.frames[i]|..o.ends[i]]
    requires Wellformed(r.next) && |r.next.buffer| <= |o.last.buffer| + 1
    requires r.next.buffer == more[|more| - |r.next.buffer|..]
    requires r.frame.Some? ==> r.next.buffer == [] && r.frame.value == more[|input| - |o.last.buffer|..]
    ensures Sliced(Noted(o, r, |input|), more)
  {
    if r.frame.Some? {
      SlicedMore(o, Noted(o, r, |input|), input, more);
    } else {
      SlicedSame(o, Noted(o, r, |input|), input, more);
    }
  }

  lemma SlicedStep(o: Outcome, input: seq<Byte>, b: Byte)
    requires Sliced(o, input)
    ensures Sliced(After(o, b, |input|), input + [b])
  {
    ConsumeKeepsWellformed(o.last, b);
    BufferTracksInput(o.last, input, b);
    SlicesSurvive(o, input, b);
    NotedIsSliced(o, Consume(o.last, b), input, input + [b]);
  }

  /**
    On any input whatever the receiver stays well formed (so its buffer never
    holds a whole frame), and the frames it hands on are disjoint slices of
    the input in stream order.
  */
  lemma {:induction false} FramesAreDisjointSlices(synchronized: bool, input: seq<Byte>)
    ensures Sliced(ConsumeAll(IDLE.(synchronized := synchronized), input), input)
  {
    if input != [] {
      var n := |input| - 1;
      FramesAreDisjointSlices(synchronized, input[..n]);
      SlicedStep(ConsumeAll(IDLE.(synchronized := synchronized), input[..n]), input[..n], input[n]);
      assert input[..n] + [input[n]] == input;
    }
  }

  /** Some frame handed on is valid. */
  predicate AnyValid(frames: seq<seq<Byte>>) { exists i :: 0 <= i < |frames| && ChecksumValid(frames[i]) }

  lemma SynchronizesStep(o: Outcome, b: Byte, position: nat)
    requires o.last.synchronized == AnyValid(o.frames) && (o.frames != [] ==> ChecksumValid(o.frames[0]))
    ensures var next := After(o, b, position);
      next.last.synchronized == AnyValid(next.frames) && (next.frames != [] ==> ChecksumValid(next.frames[0]))
  {
    var r := Consume(o.last, b);
    if r.frame.Some? {
      var more := o.frames + [r.frame.value];
      assert more[|o.frames|] == r.frame.value;
      forall i | 0 <= i < |o.frames|
        ensures more[i] == o.frames[i]
      {
      }
    }
  }

  /**
    Synchronisation: the first frame a new receiver hands on is a valid one, and
    it counts as synchronized exactly from then on.
  */
  lemma {:induction false} SynchronizedExactly(input: seq<Byte>)
    ensures var o := ConsumeAll(IDLE, input);
      o.last.synchronized == AnyValid(o.frames) && (o.frames != [] ==> ChecksumValid(o.frames[0]))
  {
    if input != [] {
      var n := |input| - 1;
      SynchronizedExactly(input[..n]);
      SynchronizesStep(ConsumeAll(IDLE, input[..n]), input[n], n);
    }
  }

  /** Bytes of an announced size are handed on at their last one if they are valid, or damaged after synchronisation. */
  lemma WholeIsHandedOn(f: seq<Byte>, synchronized: bool)
    requires |f| >= 3 && |f| == ExpectedSize(f)
    ensures Consume(Partial(f, |f| - 1, synchronized), f[|f| - 1]).frame
            == if synchronized || ChecksumValid(f) then Some(f) else None
  {
    var k := |f| - 1;
    assert f[..k] + [f[k]] == f;
    assert f[..k][0] == f[0] && f[..k][1] == f[1];
    assert Consume(Partial(f, k, synchronized), f[k]) == Append(Partial(f, k, synchronized), f[k]);
  }

  datatype Item = Frame(bytes: seq<Byte>) | Noise(bytes: seq<Byte>)

  /** A valid frame of either direction, or noise that cannot start one. */
  predicate Proper(item: Item) {
    match item
    case Frame(f) => AnyFrame(f)
    case Noise(n) => HEADER_0 !in n
  }

  function Bytes(items: seq<Item>): seq<Byte> {
    if items == [] then [] else Bytes(items[..|items| - 1]) + items[|items| - 1].bytes
  }

  function FramesIn(items: seq<Item>): seq<seq<Byte>> {
    if items == [] then []
    else
      var before := FramesIn(items[..|items| - 1]);
      match items[|items| - 1]
      case Frame(f) => before + [f]
      case Noise(_) => before
  }

  predicate AnyFrame(f: seq<Byte>) { PanelFrame(f) || MainFrame(f) }

  /** Receive state after the first k bytes of a frame. */
  function Partial(f: seq<Byte>, k: nat, synchronized: bool): Stream
    requires k <= |f|
  {
    Stream(f[..k], if k < 3 then 0 else |f|, synchronized)
  }

  /** Inside a valid frame every byte is stored at its own index, and the last one completes exactly that frame. */
  lemma FrameStep(f: seq<Byte>, k: nat, synchronized: bool)
    requires AnyFrame(f) && k < |f|
    ensures Consume(Partial(f, k, synchronized), f[k])
            == if k + 1 < |f| then Reaction(Partial(f, k + 1, synchronized), Some(k), None)
               else Reaction(IDLE.(synchronized := true), Some(k), Some(f))
  {
    assert f[..k] + [f[k]] == f[..k + 1];
    assert f[..|f|] == f;
    if k > 0 {
      assert Consume(Partial(f, k, synchronized), f[k]) == Append(Partial(f, k, synchronized), f[k]);
    }
  }

  lemma OneMoreOfFrame(o: Outcome, f: seq<Byte>, k: nat, position: nat, synchronized: bool)
    requires AnyFrame(f) && k + 1 < |f| && o.last == Partial(f, k, synchronized)
    ensures After(o, f[k], position) == o.(last := Partial(f, k + 1, synchronized))
  {
    FrameStep(f, k, synchronized);
  }

  lemma {:induction false} ConsumePrefixOfFrame(s: Stream, prior: seq<Byte>, f: seq<Byte>, k: nat)
    requires AnyFrame(f) && k < |f|
    requires var o := ConsumeAll(s, prior); o.last.buffer == [] && o.last.expected == 0
    ensures var o := ConsumeAll(s, prior);
      ConsumeAll(s, prior + f[..k]) == o.(last := Partial(f, k, o.last.synchronized))
  {
    if k == 0 {
      assert prior + f[..0] == prior;
    } else {
      ConsumePrefixOfFrame(s, prior, f, k - 1);
      OneMore(prior, f, k - 1);
      ConsumeOneMore(s, prior + f[..k - 1], f[k - 1]);
      OneMoreOfFrame(ConsumeAll(s, prior + f[..k - 1]), f, k - 1, |prior + f[..k - 1]|,
                     ConsumeAll(s, prior).last.synchronized);
    }
  }

  lemma ConsumeFrame(s: Stream, prior: seq<Byte>, f: seq<Byte>)
    requires AnyFrame(f)
    requires var o := ConsumeAll(s, prior); o.last.buffer == [] && o.last.expected == 0
    ensures var o := ConsumeAll(s, prior);
      ConsumeAll(s, prior + f)
      == Outcome(IDLE.(synchronized := true), o.frames + [f], o.ends + [|prior| + |f|])
  {
    var k := |f| - 1;
    ConsumePrefixOfFrame(s, prior, f, k);
    OneMore(prior, f, k);
    assert f[..k + 1] == f;
    ConsumeOneMore(s, prior + f[..k], f[k]);
    FrameStep(f, k, ConsumeAll(s, prior).last.synchronized);
  }

  lemma {:induction false} ConsumeNoise(s: Stream, prior: seq<Byte>, noise: seq<Byte>)
    requires HEADER_0 !in noise && ConsumeAll(s, prior).last.buffer == []
    ensures ConsumeAll(s, prior + noise) == ConsumeAll(s, prior)
  {
    if noise == [] {
      assert prior + noise == prior;
    } else {
      var k := |noise| - 1;
      ConsumeNoise(s, prior, noise[..k]);
      OneMore(prior, noise, k);
      assert noise[..k + 1] == noise;
      ConsumeOneMore(s, prior + noise[..k], noise[k]);
    }
  }

  /** From an idle receiver, any mix of valid frames and noise yields exactly its frames, in order, and idles again. */
  lemma {:induction false} StreamYieldsItsFrames(synchronized: bool, items: seq<Item>)
    requires forall i :: 0 <= i < |items| ==> Proper(items[i])
    ensures var o := ConsumeAll(IDLE.(synchronized := synchronized), Bytes(items));
      o.frames == FramesIn(items) && o.last.buffer == [] && o.last.expected == 0
  {
    if items != [] {
      var n, s := |items| - 1, IDLE.(synchronized := synchronized);
      StreamYieldsItsFrames(synchronized, items[..n]);
      var prior := Bytes(items[..n]);
      match items[n] {
        case Noise(noise) => ConsumeNoise(s, prior, noise);
        case Frame(f) => ConsumeFrame(s, prior, f);
      }
    }
  }

  // ----- the offline extractor -----

  /** Next position, from offset on, of the two header bytes; -1 when there is none. */
  function FindHeader(payload: seq<Byte>, offset: nat): (p: int)
    ensures p == -1 || offset <= p <= |payload| - 2
    ensures p >= 0 ==> payload[p] == HEADER_0 && payload[p + 1] == HEADER_1
    ensures forall i :: offset <= i < (if p < 0 then |payload| - 1 else p) ==>
              payload[i] != HEADER_0 || payload[i + 1] != HEADER_1
    decreases |payload| - offset
  {
    if offset + 2 > |payload| then -1
    else if payload[offset] == HEADER_0 && payload[offset + 1] == HEADER_1 then offset
    else FindHeader(payload, offset + 1)
  }

  /** Frame size announced by a length byte. */
  function Announced(b: Byte): (size: nat)
    ensures 4 <= size
  {
    b as nat + 4
  }

  lemma AnnouncedSizes()
    ensures Announced(0x0B) == PANEL_SIZE && Announced(0x12) == MAIN_SIZE
  {
  }

  /** Next header from an offset on: there is none, its frame is cut off by the end, or its frame is whole. */
  datatype Sighting = Absent | CutOff(start: nat) | Whole(start: nat, size: nat)

  function SightAt(payload: seq<Byte>, start: int): (s: Sighting)
    requires -1 <= start < |payload|
    ensures s.CutOff? ==> s.start == start
    ensures s.Whole? ==> s.start == start && 4 <= s.size && start + s.size <= |payload|
    ensures start < 0 || start + 3 > |payload| ==> s == Absent
  {
    if start < 0 || start + 3 > |payload| then Absent
    else if start + Announced(payload[start + 2]) > |payload| then CutOff(start)
    else Whole(start, Announced(payload[start + 2]))
  }

  function Sight(payload: seq<Byte>, offset: nat): (s: Sighting)
    ensures s.CutOff? ==> offset <= s.start < |payload|
    ensures s.Whole? ==> offset <= s.start && 4 <= s.size && s.start + s.size <= |payload|
  {
    if offset + 3 > |payload| then Absent else SightAt(payload, FindHeader(payload, offset))
  }

  /** Frames read so far and from offset on: a header whose announced frame does not fit is skipped by one byte. */
  function Extracted(payload: seq<Byte>, offset: nat, done: seq<seq<Byte>>): seq<seq<Byte>>
    requires offset <= |payload|
    decreases |payload| - offset, 1
  {
    ExtractedBy(payload, Sight(payload, offset), done)
  }

  function ExtractedBy(payload: seq<Byte>, s: Sighting, done: seq<seq<Byte>>): seq<seq<Byte>>
    requires s.CutOff? ==> s.start < |payload|
    requires s.Whole? ==> 4 <= s.size && s.start + s.size <= |payload|
    decreases if s.Absent? then 0 else |payload| - s.start, 0
  {
    if s.Absent? then done
    else if s.CutOff? then Extracted(payload, s.start + 1, done)
    else Extracted(payload, s.start + s.size, done + [payload[s.start..s.start + s.size]])
  }

  /** Every frame of a capture. */
  function Extract(payload: seq<Byte>): seq<seq<Byte>> { Extracted(payload, 0, []) }

  /** The frame at the next header, if both are there. */
  method NextSighting(payload: seq<Byte>, offset: nat) returns (s: Sighting)
    requires offset + 3 <= |payload|
    ensures s == Sight(payload, offset)
  {
    var start := FindHeader(payload, offset);
    if start < 0 || start + 3 > |payload| {
      return Absent;
    }
    var expected := Announced(payload[start + 2]);
    if expected < 4 || start + expected > |payload| {
      return CutOff(start);
    }
    s := Whole(start, expected);
  }

  method CompleteFrames(payload: seq<Byte>) returns (frames: seq<seq<Byte>>)
    ensures frames == Extract(payload)
  {
    frames := [];
    var offset := 0;
    while offset + 3 <= |payload|
      invariant offset <= |payload|
      invariant Extracted(payload, offset, frames) == Extract(payload)
      decreases |payload| - offset
    {
      var sighting := NextSighting(payload, offset);
      if sighting == Absent {
        break;
      }
      if sighting.CutOff? {
        offset := sighting.start + 1;
        continue;
      }
      var start, expected := sighting.start, sighting.size;
      frames := frames + [payload[start..start + expected]];
      offset := start + expected;
    }
  }

  lemma {:induction false} BytesCons(item: Item, rest: seq<Item>)
    ensures Bytes([item] + rest) == item.bytes + Bytes(rest)
  {
    var all := [item] + rest;
    if rest == [] {
      assert all[..0] == [];
    } else {
      assert all[..|all| - 1] == [item] + rest[..|rest| - 1];
      BytesCons(item, rest[..|rest| - 1]);
    }
  }

  lemma {:induction false} FramesCons(item: Item, rest: seq<Item>)
    ensures FramesIn([item] + rest) == if item.Frame? then [item.bytes] + FramesIn(rest) else FramesIn(rest)
  {
    var all := [item] + rest;
    if rest == [] {
      assert all[..0] == [];
    } else {
      assert all[..|all| - 1] == [item] + rest[..|rest| - 1];
      FramesCons(item, rest[..|rest| - 1]);
    }
  }

  lemma SightsFrame(payload: seq<Byte>, offset: nat, f: seq<Byte>)
    requires AnyFrame(f) && offset + |f| <= |payload| && payload[offset..offset + |f|] == f
    ensures Sight(payload, offset) == Whole(offset, |f|)
  {
    assert payload[offset] == f[0] && payload[offset + 1] == f[1] && payload[offset + 2] == f[2];
    AnnouncedSizes();
  }

  lemma Split(payload: seq<Byte>, offset: nat, first: seq<Byte>, rest: seq<Byte>)
    requires offset <= |payload| && payload[offset..] == first + rest
    ensures offset + |first| <= |payload|
    ensures payload[offset..offset + |first|] == first && payload[offset + |first|..] == rest
  {
    assert payload[offset..][..|first|] == first && payload[offset..][|first|..] == rest;
  }

  lemma TakeFrame(payload: seq<Byte>, offset: nat, f: seq<Byte>, done: seq<seq<Byte>>)
    requires AnyFrame(f) && offset + |f| <= |payload| && payload[offset..offset + |f|] == f
    ensures Extracted(payload, offset, done) == Extracted(payload, offset + |f|, done + [f])
  {
    SightsFrame(payload, offset, f);
  }

  lemma FrameFirst(payload: seq<Byte>, offset: nat, f: seq<Byte>, done: seq<seq<Byte>>, rest: seq<seq<Byte>>)
    requires AnyFrame(f) && offset + |f| <= |payload| && payload[offset..offset + |f|] == f
    requires Extracted(payload, offset + |f|, done + [f]) == (done + [f]) + rest
    ensures Extracted(payload, offset, done) == done + ([f] + rest)
  {
    TakeFrame(payload, offset, f, done);
    Regrouped(done, f, rest);
  }

  lemma NothingLeft(payload: seq<Byte>, done: seq<seq<Byte>>)
    ensures Extracted(payload, |payload|, done) == done + []
  {
  }

  /** From an offset where a mix of frames and noise begins, exactly its frames are added. */
  lemma {:induction false} ExtractFrom(payload: seq<Byte>, offset: nat, items: seq<Item>, done: seq<seq<Byte>>)
    requires forall i :: 0 <= i < |items| ==> Proper(items[i])
    requires offset <= |payload| && payload[offset..] == Bytes(items)
    ensures Extracted(payload, offset, done) == done + FramesIn(items)
    decreases |items|
  {
    if items == [] {
      NothingLeft(payload, done);
    } else {
      var item, rest := items[0], items[1..];
      FirstApart(items);
      BytesCons(item, rest);
      FramesCons(item, rest);
      Split(payload, offset, item.bytes, Bytes(rest));
      var next := offset + |item.bytes|;
      if item.Frame? {
        ExtractFrom(payload, next, rest, done + [item.bytes]);
        FrameFirst(payload, offset, item.bytes, done, FramesIn(rest));
      } else {
        SkipNoise(payload, offset, next, done);
        ExtractFrom(payload, next, rest, done);
      }
    }
  }

  lemma {:induction false} SkipNoise(payload: seq<Byte>, offset: nat, next: nat, done: seq<seq<Byte>>)
    requires offset <= next <= |payload| && HEADER_0 !in payload[offset..next]
    ensures Extracted(payload, offset, done) == Extracted(payload, next, done)
    decreases next - offset
  {
    if offset < next {
      assert payload[offset] == payload[offset..next][0];
      assert payload[offset + 1..next] == payload[offset..next][1..];
      SkipNoise(payload, offset + 1, next, done);
      SkipOne(payload, offset, done);
    }
  }

  lemma SightSkips(payload: seq<Byte>, offset: nat)
    requires offset < |payload| && payload[offset] != HEADER_0
    ensures Sight(payload, offset) == Sight(payload, offset + 1)
  {
    if offset + 3 <= |payload| {
      assert FindHeader(payload, offset) == FindHeader(payload, offset + 1);
    }
  }

  lemma SkipOne(payload: seq<Byte>, offset: nat, done: seq<seq<Byte>>)
    requires offset < |payload| && payload[offset] != HEADER_0
    ensures Extracted(payload, offset, done) == Extracted(payload, offset + 1, done)
  {
    SightSkips(payload, offset);
  }

  /** The device's receiver and the offline extractor read the same frames out of any mix of frames and noise. */
  lemma ExtractorAgreesWithReceiver(synchronized: bool, items: seq<Item>)
    requires forall i :: 0 <= i < |items| ==> Proper(items[i])
    ensures Extract(Bytes(items)) == FramesIn(items)
            == ConsumeAll(IDLE.(synchronized := synchronized), Bytes(items)).frames
  {
    assert Bytes(items)[0..] == Bytes(items);
    ExtractFrom(Bytes(items), 0, items, []);
    StreamYieldsItsFrames(synchronized, items);
  }

  // ----- when the receiver recovers a frame -----

  /** The last byte of f completes exactly f. */
  predicate Completes(s: Stream, f: seq<Byte>) {
    f != [] && Consume(ConsumeAll(s, f[..|f| - 1]).last, f[|f| - 1]).frame == Some(f)
  }

  lemma ConsumeSizes(s: Stream, b: Byte)
    ensures var r := Consume(s, b);
      && |r.next.buffer| <= |s.buffer| + 1
      && (|s.buffer| >= 2 ==> |r.next.buffer| == 0 || |r.next.buffer| == |s.buffer| + 1)
      && (r.frame.Some? ==> |r.frame.value| == |s.buffer| + 1)
  {
  }

  /** A header in progress either keeps its head start over the input or was dropped inside it. */
  lemma {:induction false} HeadStart(s: Stream, input: seq<Byte>)
    requires |s.buffer| >= 2
    ensures var n := |ConsumeAll(s, input).last.buffer|;
      n == |s.buffer| + |input| || n < |input|
  {
    if input != [] {
      var n := |input| - 1;
      HeadStart(s, input[..n]);
      ConsumeSizes(ConsumeAll(s, input[..n]).last, input[n]);
      ConsumeOneMore(s, input[..n], input[n]);
      assert input[..n] + [input[n]] == input;
    }
  }

  lemma {:induction false} SameAfterFirst(s: Stream, t: Stream, input: seq<Byte>)
    requires input != [] && Consume(s, input[0]) == Consume(t, input[0])
    ensures ConsumeAll(s, input) == ConsumeAll(t, input)
  {
    if |input| == 1 {
      assert input == [] + [input[0]];
      ConsumeOneMore(s, [], input[0]);
      ConsumeOneMore(t, [], input[0]);
    } else {
      SameAfterFirst(s, t, input[..|input| - 1]);
    }
  }

  lemma IdleCompletes(s: Stream, f: seq<Byte>)
    requires AnyFrame(f) && s.buffer == [] && s.expected == 0
    ensures Completes(s, f)
  {
    var k := |f| - 1;
    assert [] + f[..k] == f[..k];
    ConsumePrefixOfFrame(s, [], f, k);
    FrameStep(f, k, s.synchronized);
  }

  /**
    A valid frame is completed at its own end exactly when the receiver holds
    at most one byte as the frame begins: one stray first header byte is
    forgiven, a header of two bytes or more swallows it.
  */
  lemma CompletesExactly(s: Stream, f: seq<Byte>)
    requires Wellformed(s) && AnyFrame(f)
    ensures Completes(s, f) <==> |s.buffer| <= 1
  {
    var k := |f| - 1;
    if |s.buffer| <= 1 {
      IdleCompletes(Flushed(s), f);
      assert f[..k][0] == f[0] == HEADER_0;
      SameAfterFirst(s, Flushed(s), f[..k]);
    } else {
      HeadStart(s, f[..k]);
      ConsumeSizes(ConsumeAll(s, f[..k]).last, f[k]);
    }
  }

  /**
    Where the two readers part: a frame right behind a stray header. The
    receiver drops the third byte without trying it as a new start, so it never
    completes the frame, and completes nothing at all if the frame holds no
    other first header byte; the extractor finds it.
  */
  lemma StrayHeaderLosesFrame(f: seq<Byte>)
    requires AnyFrame(f)
    ensures var input := [HEADER_0, HEADER_1] + f;
      && !Completes(ConsumeAll(IDLE, [HEADER_0, HEADER_1]).last, f)
      && (HEADER_0 !in f[1..] ==> ConsumeAll(IDLE, input).frames == [])
      && Extract(input) == [f]
  {
    ConsumeOneMore(IDLE, [], HEADER_0);
    ConsumeOneMore(IDLE, [HEADER_0], HEADER_1);
    assert [] + [HEADER_0] == [HEADER_0] && [HEADER_0] + [HEADER_1] == [HEADER_0, HEADER_1];
    CompletesExactly(ConsumeAll(IDLE, [HEADER_0, HEADER_1]).last, f);
    if HEADER_0 !in f[1..] {
      ReceiverLosesFrame(f);
    }
    ExtractorFindsFrame(f);
  }

  lemma ReceiverLosesFrame(f: seq<Byte>)
    requires AnyFrame(f) && HEADER_0 !in f[1..]
    ensures ConsumeAll(IDLE, [HEADER_0, HEADER_1] + f).frames == []
  {
    var stray := [HEADER_0, HEADER_1, HEADER_0];
    ConsumeOneMore(IDLE, [], HEADER_0);
    ConsumeOneMore(IDLE, [HEADER_0], HEADER_1);
    ConsumeOneMore(IDLE, [HEADER_0, HEADER_1], HEADER_0);
    assert [] + [HEADER_0] == [HEADER_0] && [HEADER_0] + [HEADER_1] + [HEADER_0] == stray;
    ConsumeNoise(IDLE, stray, f[1..]);
    assert stray + f[1..] == [HEADER_0, HEADER_1] + f;
  }

  /** The announced size of the stray header runs past the end, so the extractor moves on by one byte. */
  lemma ExtractorFindsFrame(f: seq<Byte>)
    requires AnyFrame(f)
    ensures Extract([HEADER_0, HEADER_1] + f) == [f]
  {
    var input := [HEADER_0, HEADER_1] + f;
    HeaderAnnounces();
    assert Sight(input, 0) == CutOff(0);
    SkipOne(input, 1, []);
    Split(input, 2, f, []);
    TakeFrame(input, 2, f, []);
    NothingLeft(input, [f]);
    assert ExtractedBy(input, CutOff(0), []) == Extracted(input, 1, []) == [f];
  }

  lemma HeaderAnnounces()
    ensures Announced(HEADER_0) == 88
  {
  }
}
