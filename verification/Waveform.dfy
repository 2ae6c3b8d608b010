/**
  The generated UART waveform and its two independent readers: the offline
  decoder of captured level runs and the software sampler on the device.
*/
module Waveform {
  import opened Wire

  const RESOLUTION_HZ: nat := 10_000_000
  const BAUD_RATE: nat := 9600
  const BITS_PER_FRAME_BYTE: nat := 10
  /** Default bit length of the offline decoder, from the clock of the capturing peripheral. */
  const CAPTURE_TICKS_PER_BIT: real := 1038.0

  /** A level held for a number of ticks. */
  datatype Run = Run(level: bool, duration: nat)

  datatype Symbol = Symbol(first: Run, second: Run)

  // ----- the encoder -----

  /** Tick at which bit i begins. */
  function Edge(i: nat): nat { (i * RESOLUTION_HZ + BAUD_RATE / 2) / BAUD_RATE }

  function BitDuration(i: nat): nat
    requires Edge(i) <= Edge(i + 1)
  {
    Edge(i + 1) - Edge(i)
  }

  function DataBit(b: Byte, k: nat): bool
    requires k < 8
  {
    (b >> k) & 1 != 0
  }

  /** Level of the i-th bit of the transmission: start bit, eight data bits, stop bit. */
  function LevelOf(bytes: seq<Byte>, i: nat): bool
    requires i < BITS_PER_FRAME_BYTE * |bytes|
  {
    var k := i % BITS_PER_FRAME_BYTE;
    if k == 0 then false else if k == 9 then true else DataBit(bytes[i / BITS_PER_FRAME_BYTE], k - 1)
  }

  function Levels(bytes: seq<Byte>): (bits: seq<bool>)
    ensures |bits| == BITS_PER_FRAME_BYTE * |bytes|
    ensures forall i :: 0 <= i < |bits| ==> bits[i] == LevelOf(bytes, i)
  {
    seq(BITS_PER_FRAME_BYTE * |bytes|, i requires 0 <= i < BITS_PER_FRAME_BYTE * |bytes| => LevelOf(bytes, i))
  }

  lemma EdgesRise(i: nat)
    ensures Edge(i + 1) == Edge(i) + 1041 || Edge(i + 1) == Edge(i) + 1042
  {
  }

  /** One run per bit, before equal levels merge on the wire. */
  function Wave(bits: seq<bool>): (runs: seq<Run>)
    ensures |runs| == |bits|
  {
    if bits == [] then []
    else
      var n := |bits| - 1;
      EdgesRise(n);
      Wave(bits[..n]) + [Run(bits[n], BitDuration(n))]
  }

  function Flat(symbols: seq<Symbol>): (runs: seq<Run>)
    ensures |runs| == 2 * |symbols|
  {
    if symbols == [] then []
    else
      var n := |symbols| - 1;
      Flat(symbols[..n]) + [symbols[n].first, symbols[n].second]
  }

  method ComputeBitDuration(i: nat) returns (duration: nat)
    ensures duration == Edge(i + 1) - Edge(i)
  {
    EdgesRise(i);
    var before := (i * RESOLUTION_HZ + BAUD_RATE / 2) / BAUD_RATE;
    var after := ((i + 1) * RESOLUTION_HZ + BAUD_RATE / 2) / BAUD_RATE;
    duration := after - before;
  }

  method FillLevels(frame: seq<Byte>) returns (levels: array<bool>)
    ensures fresh(levels) && levels[..] == Levels(frame)
  {
    levels := new bool[BITS_PER_FRAME_BYTE * |frame|];
    var bit := 0;
    for index := 0 to |frame|
      invariant bit == BITS_PER_FRAME_BYTE * index
      invariant forall i :: 0 <= i < bit ==> levels[i] == LevelOf(frame, i)
    {
      levels[bit] := false;
      bit := bit + 1;
      for k := 0 to 8
        invariant bit == BITS_PER_FRAME_BYTE * index + 1 + k
        invariant forall i :: 0 <= i < bit ==> levels[i] == LevelOf(frame, i)
      {
        levels[bit] := DataBit(frame[index], k);
        bit := bit + 1;
      }
      levels[bit] := true;
      bit := bit + 1;
    }
  }

  lemma TwoBits(bits: seq<bool>, symbols: seq<Symbol>, n: nat, s: Symbol)
    requires n + 1 < |bits| && Flat(symbols) == Wave(bits[..n])
    requires s.first == Run(bits[n], Edge(n + 1) - Edge(n)) && s.second == Run(bits[n + 1], Edge(n + 2) - Edge(n + 1))
    ensures Flat(symbols + [s]) == Wave(bits[..n + 2])
  {
    FlatSnoc(symbols, s);
    WaveSnoc(bits, n);
    WaveSnoc(bits, n + 1);
  }

  method EncodeFrame(frame: seq<Byte>) returns (symbols: seq<Symbol>)
    ensures Flat(symbols) == Wave(Levels(frame))
  {
    var levels := FillLevels(frame);
    ghost var bits := Levels(frame);
    symbols := [];
    for s := 0 to BITS_PER_FRAME_BYTE * |frame| / 2
      invariant levels[..] == bits
      invariant Flat(symbols) == Wave(bits[..2 * s])
    {
      var firstBit := 2 * s;
      var d0 := ComputeBitDuration(firstBit);
      var d1 := ComputeBitDuration(firstBit + 1);
      var symbol := Symbol(Run(levels[firstBit], d0), Run(levels[firstBit + 1], d1));
      TwoBits(bits, symbols, firstBit, symbol);
      symbols := symbols + [symbol];
    }
    WholeWave(symbols, bits, 2 * (|bits| / 2));
  }

  lemma WholeWave(symbols: seq<Symbol>, bits: seq<bool>, n: nat)
    requires n == |bits| && Flat(symbols) == Wave(bits[..n])
    ensures Flat(symbols) == Wave(bits)
  {
    assert bits[..n] == bits;
  }

  lemma FlatSnoc(symbols: seq<Symbol>, s: Symbol)
    ensures Flat(symbols + [s]) == Flat(symbols) + [s.first, s.second]
  {
    assert (symbols + [s])[..|symbols|] == symbols;
  }

  lemma WaveSnoc(bits: seq<bool>, n: nat)
    requires n < |bits|
    ensures Edge(n) <= Edge(n + 1)
    ensures Wave(bits[..n + 1]) == Wave(bits[..n]) + [Run(bits[n], BitDuration(n))]
  {
    EdgesRise(n);
    assert bits[..n + 1][..n] == bits[..n];
  }

  // ----- drift -----

  function Total(runs: seq<Run>): nat {
    if runs == [] then 0 else Total(runs[..|runs| - 1]) + runs[|runs| - 1].duration
  }

  /** The durations telescope: the waveform of any number of bits ends on the edge after the last. */
  lemma {:induction false} DurationsTelescope(bits: seq<bool>)
    ensures Total(Wave(bits)) == Edge(|bits|)
  {
    if bits != [] {
      DurationsTelescope(bits[..|bits| - 1]);
      EdgesRise(|bits| - 1);
    }
  }

  /** Every edge is within half a tick of its ideal instant, however long the transmission. */
  lemma EdgeDrift(i: nat)
    ensures -(BAUD_RATE as int) <= 2 * (Edge(i) * BAUD_RATE - i * RESOLUTION_HZ) <= BAUD_RATE
  {
  }

  // ----- what a capturing peripheral sees -----

  function Joined(runs: seq<Run>, r: Run): seq<Run> {
    if runs != [] && runs[|runs| - 1].level == r.level
    then runs[..|runs| - 1] + [Run(r.level, runs[|runs| - 1].duration + r.duration)]
    else runs + [r]
  }

  /** Neighbouring runs of one level are one run on the wire. */
  function Merged(runs: seq<Run>): seq<Run> {
    if runs == [] then [] else Joined(Merged(runs[..|runs| - 1]), runs[|runs| - 1])
  }

  // ----- the offline decoder -----

  /** Nearest integer, ties to the even one. */
  function Rounded(x: real): int {
    var q := x.Floor;
    var r := x - q as real;
    if r < 0.5 then q else if r > 0.5 then q + 1 else if q % 2 == 0 then q else q + 1
  }

  /** Bits a run of d ticks is taken for; fl rounds the result of each floating-point operation. */
  function BitCount(d: nat, t: real, fl: real -> real): nat
    requires t > 0.0
  {
    var count := Rounded(fl(fl(d as real) / t));
    if count < 1 then 1 else count
  }

  /** Further than a quarter of a bit from the bits it is taken for. */
  predicate Mistimed(d: nat, t: real, fl: real -> real)
    requires t > 0.0
  {
    Apart(d, Length(BitCount(d, t, fl), t, fl), t, fl)
  }

  /** The computed length of some bits. */
  function Length(count: nat, t: real, fl: real -> real): real { fl(fl(count as real) * t) }

  /** The computed distance exceeds the computed bound. */
  predicate Apart(d: nat, length: real, t: real, fl: real -> real) { !Within(fl(fl(d as real) - length), fl(t * 0.25)) }

  predicate Within(x: real, bound: real) { -bound <= x <= bound }

  function Repeat(level: bool, n: nat): (bits: seq<bool>)
    ensures |bits| == n && forall i :: 0 <= i < n ==> bits[i] == level
  {
    seq(n, _ => level)
  }

  function Expanded(runs: seq<Run>, t: real, fl: real -> real): seq<bool>
    requires t > 0.0
  {
    if runs == [] then []
    else
      var r := runs[|runs| - 1];
      Expanded(runs[..|runs| - 1], t, fl) + if r.duration == 0 then [] else Repeat(r.level, BitCount(r.duration, t, fl))
  }

  function Mistakes(runs: seq<Run>, t: real, fl: real -> real): nat
    requires t > 0.0
  {
    if runs == [] then 0
    else
      var r := runs[|runs| - 1];
      Mistakes(runs[..|runs| - 1], t, fl) + if r.duration != 0 && Mistimed(r.duration, t, fl) then 1 else 0
  }

  function Weighted(bit: bool, weight: Byte): Byte { if bit then weight else 0 }

  /** Byte from eight levels, least significant first. */
  function Assembled(bits: seq<bool>): Byte
    requires |bits| == 8
  {
    Weighted(bits[0], 1) | Weighted(bits[1], 2) | Weighted(bits[2], 4) | Weighted(bits[3], 8)
    | Weighted(bits[4], 16) | Weighted(bits[5], 32) | Weighted(bits[6], 64) | Weighted(bits[7], 128)
  }

  /** Data bits framed by a start and a stop bit, scanning on by one bit where there is no frame. */
  function Groups(bits: seq<bool>, index: nat): (groups: seq<seq<bool>>)
    ensures forall g :: g in groups ==> |g| == 8
    decreases |bits| - index
  {
    if index + 9 >= |bits| then []
    else if bits[index] || !bits[index + 9] then Groups(bits, index + 1)
    else [bits[index + 1..index + 9]] + Groups(bits, index + 10)
  }

  function Bytes(groups: seq<seq<bool>>): (bytes: seq<Byte>)
    requires forall g :: g in groups ==> |g| == 8
    ensures |bytes| == |groups|
    ensures forall i :: 0 <= i < |groups| ==> bytes[i] == Assembled(groups[i])
  {
    seq(|groups|, i requires 0 <= i < |groups| => Assembled(groups[i]))
  }

  function Decoded(bits: seq<bool>): seq<Byte> { Bytes(Groups(bits, 0)) }

  lemma ExpandedNext(runs: seq<Run>, t: real, fl: real -> real, k: nat)
    requires t > 0.0 && k < |runs|
    ensures Expanded(runs[..k + 1], t, fl)
            == Expanded(runs[..k], t, fl)
               + if runs[k].duration == 0 then [] else Repeat(runs[k].level, BitCount(runs[k].duration, t, fl))
    ensures Mistakes(runs[..k + 1], t, fl)
            == Mistakes(runs[..k], t, fl) + if runs[k].duration != 0 && Mistimed(runs[k].duration, t, fl) then 1 else 0
  {
    assert runs[..k + 1][..k] == runs[..k];
  }

  method ExpandRuns(runs: seq<Run>, t: real, fl: real -> real) returns (bits: seq<bool>, errors: nat)
    requires t > 0.0
    ensures bits == Expanded(runs, t, fl) && errors == Mistakes(runs, t, fl)
  {
    bits, errors := [], 0;
    for k := 0 to |runs|
      invariant bits == Expanded(runs[..k], t, fl) && errors == Mistakes(runs[..k], t, fl)
    {
      ExpandedNext(runs, t, fl, k);
      var level, duration := runs[k].level, runs[k].duration;
      if duration == 0 {
        continue;
      }
      var count := BitCount(duration, t, fl);
      if Mistimed(duration, t, fl) {
        errors := errors + 1;
      }
      bits := bits + Repeat(level, count);
    }
    assert runs[..|runs|] == runs;
  }

  lemma BytesSnoc(groups: seq<seq<bool>>, g: seq<bool>)
    requires (forall k :: k in groups ==> |k| == 8) && |g| == 8
    ensures forall k :: k in groups + [g] ==> |k| == 8
    ensures Bytes(groups + [g]) == Bytes(groups) + [Assembled(g)]
  {
  }

  method CollectBytes(bits: seq<bool>) returns (result: seq<Byte>)
    ensures result == Decoded(bits)
  {
    result := [];
    var index := 0;
    ghost var groups: seq<seq<bool>> := [];
    while index + 9 < |bits|
      invariant 0 <= index
      invariant forall g :: g in groups ==> |g| == 8
      invariant groups + Groups(bits, index) == Groups(bits, 0) && result == Bytes(groups)
      decreases |bits| - index
    {
      if bits[index] {
        index := index + 1;
        continue;
      }
      if !bits[index + 9] {
        index := index + 1;
        continue;
      }
      var data := bits[index + 1..index + 9];
      BytesSnoc(groups, data);
      Regrouped(groups, data, Groups(bits, index + 10));
      groups := groups + [data];
      result := result + [Assembled(data)];
      index := index + 10;
    }
    assert groups == Groups(bits, 0);
  }

  method DecodeRuns(runs: seq<Run>, t: real, fl: real -> real) returns (result: seq<Byte>, errors: nat)
    requires t > 0.0
    ensures result == Decoded(Expanded(runs, t, fl)) && errors == Mistakes(runs, t, fl)
  {
    var bits: seq<bool>;
    bits, errors := ExpandRuns(runs, t, fl);
    result := CollectBytes(bits);
  }

  // ----- the round trip -----

  /** Length of the run of equal levels the bits end with. */
  function Trailing(bits: seq<bool>): (c: nat)
    requires bits != []
    ensures 0 < c <= |bits|
    ensures forall i :: |bits| - c <= i < |bits| ==> bits[i] == bits[|bits| - 1]
    ensures c < |bits| ==> bits[|bits| - c - 1] != bits[|bits| - 1]
  {
    var n := |bits| - 1;
    if n > 0 && bits[n - 1] == bits[n] then Trailing(bits[..n]) + 1 else 1
  }

  lemma FramingBits(bytes: seq<Byte>, j: nat)
    requires j < |bytes|
    ensures !Levels(bytes)[10 * j] && Levels(bytes)[10 * j + 9]
  {
    assert 10 * j % 10 == 0 && (10 * j + 9) % 10 == 9;
  }

  /** Among any ten neighbouring bits there are a start and a stop bit. */
  lemma BothLevels(bytes: seq<Byte>, n: nat) returns (start: nat, stop: nat)
    requires 10 <= n <= |Levels(bytes)|
    ensures n - 10 <= start < n && n - 10 <= stop < n
    ensures !Levels(bytes)[start] && Levels(bytes)[stop]
  {
    var j := (n - 1) / 10;
    start := 10 * j;
    FramingBits(bytes, j);
    if n == 10 * j + 10 {
      stop := 10 * j + 9;
    } else {
      stop := 10 * (j - 1) + 9;
      FramingBits(bytes, j - 1);
    }
  }

  lemma TrailingBound(bits: seq<bool>, i: nat, j: nat)
    requires |bits| - 10 <= i < |bits| && |bits| - 10 <= j < |bits| && bits[i] != bits[j]
    ensures Trailing(bits) <= 9
  {
  }

  /** So no run of equal levels is longer than nine bits. */
  lemma RunsAreShort(bytes: seq<Byte>, n: nat)
    requires 0 < n <= |Levels(bytes)|
    ensures Trailing(Levels(bytes)[..n]) <= 9
  {
    if n >= 10 {
      var start, stop := BothLevels(bytes, n);
      TrailingBound(Levels(bytes)[..n], start, stop);
    }
  }

  /** Bit lengths, in ticks, for which a run of up to nine bits is within a quarter of a bit. */
  predicate Tolerated(t: real) { 1014.0 <= t <= 1071.0 }

  /** A whole number within half a unit is the one rounded to. */
  lemma RoundsTo(x: real, c: nat)
    requires -0.5 < x - c as real < 0.5
    ensures x.Floor == c || x.Floor == c - 1
    ensures x.Floor == c ==> x - c as real < 0.5
    ensures x.Floor == c - 1 ==> x - (c - 1) as real > 0.5
  {
  }

  lemma Signs(x: real, t: real)
    requires t > 0.0
    ensures x > 0.0 ==> x * t > 0.0
  {
  }

  lemma QuotientNear(d: real, t: real, c: real)
    requires t > 0.0 && Within(d - c * t, t * 0.25)
    ensures Within(d / t - c, 0.25)
  {
    var e := d / t - c;
    assert e * t == d / t * t - c * t == d - c * t;
    Signs(e - 0.25, t);
    Signs(-0.25 - e, t);
    assert (e - 0.25) * t == e * t - 0.25 * t && (-0.25 - e) * t == -0.25 * t - e * t;
  }

  /**
    Rounding that errs by at most a ten-thousandth on numbers up to twenty
    thousand; IEEE 754 double precision errs by less than a billionth there.
  */
  ghost predicate Accurate(fl: real -> real) {
    forall x :: -20000.0 <= x <= 20000.0 ==> Within(fl(x) - x, 0.0001)
  }

  lemma NotNegative(x: real, y: real)
    requires x >= 0.0 && y >= 0.0
    ensures x * y >= 0.0
  {
  }

  /** A product of up to nine between its extremes. */
  lemma Scaled(x: real, t: real)
    requires 1.0 <= x <= 9.0 && Tolerated(t)
    ensures 1014.0 * x + t - 1014.0 <= x * t <= 1071.0 * x + t - 1071.0
  {
    NotNegative(x - 1.0, t - 1014.0);
    NotNegative(x - 1.0, 1071.0 - t);
    assert (x - 1.0) * (t - 1014.0) == x * t - 1014.0 * x - t + 1014.0;
    assert (x - 1.0) * (1071.0 - t) == 1071.0 * x - x * t - 1071.0 + t;
  }

  /** A run of up to nine bits is half a tick less than a quarter of a bit away from as many bits, or closer. */
  lemma BitsDrift(d: nat, t: real, c: nat)
    requires 0 < c <= 9 && Tolerated(t)
    requires c * RESOLUTION_HZ - BAUD_RATE <= d * BAUD_RATE <= c * RESOLUTION_HZ + BAUD_RATE
    ensures Within(d as real - c as real * t, t * 0.25 - 0.5) && d <= 9400 && 1014.0 <= c as real * t <= 9639.0
  {
    Scaled(c as real, t);
    assert 1041.6 * c as real - 1.0 <= d as real <= 1042.0 * c as real + 1.0;
  }

  /** The rounded quotient is still closest to the same count. */
  lemma QuotientRounds(d: real, t: real, c: nat, fl: real -> real)
    requires Tolerated(t) && Accurate(fl) && 0 < c <= 9 && 0.0 <= d <= 9400.0
    requires Within(d - c as real * t, t * 0.25 - 0.5)
    ensures Rounded(fl(fl(d) / t)) == c
  {
    var x := fl(d) / t;
    assert Within(fl(d) - d, 0.0001);
    QuotientNear(fl(d), t, c as real);
    assert Within(fl(x) - x, 0.0001);
    RoundsTo(fl(x), c);
  }

  lemma LengthNear(t: real, c: nat, fl: real -> real)
    requires Tolerated(t) && Accurate(fl) && 0 < c <= 9 && 1014.0 <= c as real * t <= 9639.0
    ensures Within(Length(c, t, fl) - c as real * t, 0.1072)
  {
    var m := fl(c as real);
    assert Within(m - c as real, 0.0001);
    ProductNear(m, c as real, t);
    assert Within(fl(m * t) - m * t, 0.0001);
  }

  /** The rounded distance is still within the rounded quarter of a bit. */
  lemma DistanceRounds(d: nat, length: real, exact: real, t: real, fl: real -> real)
    requires Tolerated(t) && Accurate(fl) && d <= 9400 && 0.0 <= exact <= 9639.0
    requires Within(length - exact, 0.1072) && Within(d as real - exact, t * 0.25 - 0.5)
    ensures !Apart(d, length, t, fl)
  {
    var x := fl(d as real) - length;
    assert Within(fl(d as real) - d as real, 0.0001);
    assert Within(fl(x) - x, 0.0001);
    assert Within(fl(t * 0.25) - t * 0.25, 0.0001);
  }

  lemma ProductNear(m: real, c: real, t: real)
    requires Within(m - c, 0.0001) && Tolerated(t)
    ensures Within(m * t - c * t, 0.1071)
  {
    SmallTimes(m - c, t);
    assert (m - c) * t == m * t - c * t;
  }

  lemma SmallTimes(e: real, t: real)
    requires Within(e, 0.0001) && Tolerated(t)
    ensures Within(e * t, 0.1071)
  {
    NotNegative(0.0001 - e, t);
    NotNegative(0.0001 + e, t);
    assert (0.0001 - e) * t == 0.0001 * t - e * t;
    assert (0.0001 + e) * t == 0.0001 * t + e * t;
  }

  lemma NearMeansCounted(d: nat, t: real, c: nat, fl: real -> real)
    requires Tolerated(t) && Accurate(fl) && 0 < c <= 9 && d <= 9400
    requires 1014.0 <= c as real * t <= 9639.0 && Within(d as real - c as real * t, t * 0.25 - 0.5)
    ensures BitCount(d, t, fl) == c && !Mistimed(d, t, fl)
  {
    QuotientRounds(d as real, t, c, fl);
    LengthNear(t, c, fl);
    DistanceRounds(d, Length(c, t, fl), c as real * t, t, fl);
  }

  lemma DurationDrift(n: nat, c: nat)
    requires 0 < c <= n
    ensures var d := Edge(n) - Edge(n - c);
      d > 0 && c * RESOLUTION_HZ - BAUD_RATE <= d * BAUD_RATE <= c * RESOLUTION_HZ + BAUD_RATE
  {
    EdgeDrift(n);
    EdgeDrift(n - c);
  }

  /** Up to nine transmitted bits always round to as many captured ones, without a timing error. */
  lemma DurationRounds(n: nat, c: nat, t: real, fl: real -> real)
    requires 0 < c <= 9 && c <= n && Tolerated(t) && Accurate(fl)
    ensures var d := Edge(n) - Edge(n - c); d > 0 && BitCount(d, t, fl) == c && !Mistimed(d, t, fl)
  {
    DurationDrift(n, c);
    var d := Edge(n) - Edge(n - c);
    BitsDrift(d, t, c);
    NearMeansCounted(d, t, c, fl);
  }

  /** The captured runs of the first n bits, and what the decoder makes of them. */
  ghost predicate Tracks(bits: seq<bool>, n: nat, t: real, fl: real -> real)
    requires n <= |bits| && t > 0.0
  {
    var runs := Merged(Wave(bits[..n]));
    && Expanded(runs, t, fl) == bits[..n]
    && Mistakes(runs, t, fl) == 0
    && (n > 0 ==> runs != [] && runs[|runs| - 1] == LastRun(bits, n))
  }

  function LastRun(bits: seq<bool>, n: nat): Run
    requires 0 < n <= |bits|
  {
    var c := Trailing(bits[..n]);
    EdgesOrdered(n - c, n);
    Run(bits[n - 1], Edge(n) - Edge(n - c))
  }

  lemma {:induction false} EdgesOrdered(i: nat, j: nat)
    requires i <= j
    ensures Edge(i) <= Edge(j)
    decreases j
  {
    if i < j {
      EdgesRise(j - 1);
      EdgesOrdered(i, j - 1);
    }
  }

  lemma RepeatSnoc(level: bool, n: nat)
    ensures Repeat(level, n + 1) == Repeat(level, n) + [level]
  {
  }

  lemma ExpandedSnoc(runs: seq<Run>, r: Run, t: real, fl: real -> real)
    requires t > 0.0 && r.duration > 0
    ensures Expanded(runs + [r], t, fl) == Expanded(runs, t, fl) + Repeat(r.level, BitCount(r.duration, t, fl))
    ensures Mistakes(runs + [r], t, fl) == Mistakes(runs, t, fl) + if Mistimed(r.duration, t, fl) then 1 else 0
  {
    assert (runs + [r])[..|runs|] == runs;
  }

  lemma MergedSnoc(runs: seq<Run>, r: Run)
    ensures Merged(runs + [r]) == Joined(Merged(runs), r)
  {
    assert (runs + [r])[..|runs|] == runs;
  }

  lemma TrailingSnoc(bits: seq<bool>, n: nat)
    requires n < |bits|
    ensures Trailing(bits[..n + 1]) == if n > 0 && bits[n - 1] == bits[n] then Trailing(bits[..n]) + 1 else 1
  {
    assert bits[..n + 1][..n] == bits[..n];
  }

  lemma LastRunGrows(bits: seq<bool>, n: nat)
    requires 0 < n < |bits| && bits[n - 1] == bits[n]
    ensures Edge(n) <= Edge(n + 1)
    ensures LastRun(bits, n + 1) == Run(bits[n], LastRun(bits, n).duration + BitDuration(n))
  {
    TrailingSnoc(bits, n);
    EdgesRise(n);
    EdgesOrdered(n - Trailing(bits[..n]), n);
  }

  lemma MergedSameLevel(bits: seq<bool>, n: nat, runs: seq<Run>)
    requires 0 < n < |bits| && bits[n - 1] == bits[n]
    requires runs == Merged(Wave(bits[..n])) && runs != [] && runs[|runs| - 1] == LastRun(bits, n)
    ensures Merged(Wave(bits[..n + 1])) == runs[..|runs| - 1] + [LastRun(bits, n + 1)]
  {
    LastRunGrows(bits, n);
    WaveSnoc(bits, n);
    MergedSnoc(Wave(bits[..n]), Run(bits[n], BitDuration(n)));
  }

  /** Lengthening the last run by one bit appends that bit. */
  lemma ExpandedLonger(rest: seq<Run>, last: Run, longer: Run, t: real, fl: real -> real)
    requires t > 0.0 && last.duration > 0 && longer.duration > 0 && last.level == longer.level
    requires BitCount(longer.duration, t, fl) == BitCount(last.duration, t, fl) + 1
    requires !Mistimed(last.duration, t, fl) && !Mistimed(longer.duration, t, fl)
    ensures Expanded(rest + [longer], t, fl) == Expanded(rest + [last], t, fl) + [last.level]
    ensures Mistakes(rest + [longer], t, fl) == Mistakes(rest + [last], t, fl)
  {
    ExpandedSnoc(rest, last, t, fl);
    ExpandedSnoc(rest, longer, t, fl);
    RepeatSnoc(last.level, BitCount(last.duration, t, fl));
  }

  /** The next bit extends the last run. */
  lemma TracksSameLevel(bits: seq<bool>, n: nat, t: real, fl: real -> real)
    requires 0 < n < |bits| && bits[n - 1] == bits[n] && Tolerated(t) && Accurate(fl) && Tracks(bits, n, t, fl)
    requires Trailing(bits[..n + 1]) <= 9
    ensures Tracks(bits, n + 1, t, fl)
  {
    var runs := Merged(Wave(bits[..n]));
    MergedSameLevel(bits, n, runs);
    LastRunRounds(bits, n, t, fl);
    LastApart(runs);
    ExpandedLonger(runs[..|runs| - 1], LastRun(bits, n), LastRun(bits, n + 1), t, fl);
    PrefixGrows(bits, n);
  }

  lemma LastRunRounds(bits: seq<bool>, n: nat, t: real, fl: real -> real)
    requires 0 < n < |bits| && bits[n - 1] == bits[n] && Trailing(bits[..n + 1]) <= 9 && Tolerated(t) && Accurate(fl)
    ensures var last, longer := LastRun(bits, n), LastRun(bits, n + 1);
      && last.duration > 0 && longer.duration > 0 && last.level == longer.level
      && BitCount(longer.duration, t, fl) == BitCount(last.duration, t, fl) + 1
      && !Mistimed(last.duration, t, fl) && !Mistimed(longer.duration, t, fl)
  {
    var c := Trailing(bits[..n]);
    TrailingSnoc(bits, n);
    DurationRounds(n, c, t, fl);
    DurationRounds(n + 1, c + 1, t, fl);
  }

  lemma MergedNewLevel(bits: seq<bool>, n: nat, runs: seq<Run>)
    requires n < |bits| && (n > 0 ==> bits[n - 1] != bits[n])
    requires runs == Merged(Wave(bits[..n])) && (n > 0 ==> runs != [] && runs[|runs| - 1] == LastRun(bits, n))
    ensures Merged(Wave(bits[..n + 1])) == runs + [LastRun(bits, n + 1)]
  {
    TrailingSnoc(bits, n);
    WaveSnoc(bits, n);
    MergedSnoc(Wave(bits[..n]), Run(bits[n], BitDuration(n)));
  }

  /** A new run of one bit appends that bit. */
  lemma ExpandedNew(runs: seq<Run>, r: Run, t: real, fl: real -> real)
    requires t > 0.0 && r.duration > 0 && BitCount(r.duration, t, fl) == 1 && !Mistimed(r.duration, t, fl)
    ensures Expanded(runs + [r], t, fl) == Expanded(runs, t, fl) + [r.level]
    ensures Mistakes(runs + [r], t, fl) == Mistakes(runs, t, fl)
  {
    ExpandedSnoc(runs, r, t, fl);
    assert Repeat(r.level, 1) == [r.level];
  }

  lemma FirstRunRounds(bits: seq<bool>, n: nat, t: real, fl: real -> real)
    requires n < |bits| && (n > 0 ==> bits[n - 1] != bits[n]) && Tolerated(t) && Accurate(fl)
    ensures var r := LastRun(bits, n + 1);
      r.level == bits[n] && r.duration > 0 && BitCount(r.duration, t, fl) == 1 && !Mistimed(r.duration, t, fl)
  {
    TrailingSnoc(bits, n);
    DurationRounds(n + 1, 1, t, fl);
  }

  /** The next bit starts a run. */
  lemma TracksNewLevel(bits: seq<bool>, n: nat, t: real, fl: real -> real)
    requires n < |bits| && (n > 0 ==> bits[n - 1] != bits[n]) && Tolerated(t) && Accurate(fl) && Tracks(bits, n, t, fl)
    ensures Tracks(bits, n + 1, t, fl)
  {
    var runs := Merged(Wave(bits[..n]));
    MergedNewLevel(bits, n, runs);
    FirstRunRounds(bits, n, t, fl);
    ExpandedNew(runs, LastRun(bits, n + 1), t, fl);
    PrefixGrows(bits, n);
  }

  lemma {:induction false} TracksAll(bytes: seq<Byte>, n: nat, t: real, fl: real -> real)
    requires n <= |Levels(bytes)| && Tolerated(t) && Accurate(fl)
    ensures Tracks(Levels(bytes), n, t, fl)
  {
    var bits := Levels(bytes);
    if n > 0 {
      TracksAll(bytes, n - 1, t, fl);
      RunsAreShort(bytes, n);
      if n > 1 && bits[n - 2] == bits[n - 1] {
        TracksSameLevel(bits, n - 1, t, fl);
      } else {
        TracksNewLevel(bits, n - 1, t, fl);
      }
    }
  }

  lemma AssembledIsByte(b: Byte)
    ensures Assembled([DataBit(b, 0), DataBit(b, 1), DataBit(b, 2), DataBit(b, 3),
                       DataBit(b, 4), DataBit(b, 5), DataBit(b, 6), DataBit(b, 7)]) == b
  {
  }

  lemma DataLevel(bytes: seq<Byte>, j: nat, k: nat)
    requires j < |bytes| && k < 8
    ensures Levels(bytes)[10 * j + 1 + k] == DataBit(bytes[j], k)
  {
    assert (10 * j + 1 + k) % 10 == 1 + k && (10 * j + 1 + k) / 10 == j;
  }

  function DataBits(b: Byte): (bits: seq<bool>)
    ensures |bits| == 8 && forall k :: 0 <= k < 8 ==> bits[k] == DataBit(b, k)
  {
    seq(8, k requires 0 <= k < 8 => DataBit(b, k))
  }

  lemma GroupOfByte(bytes: seq<Byte>, j: nat)
    requires j < |bytes|
    ensures Levels(bytes)[10 * j + 1..10 * j + 9] == DataBits(bytes[j])
  {
    forall k: nat | k < 8
      ensures Levels(bytes)[10 * j + 1 + k] == DataBits(bytes[j])[k]
    {
      DataLevel(bytes, j, k);
    }
  }

  function AllDataBits(bytes: seq<Byte>): (groups: seq<seq<bool>>)
    ensures |groups| == |bytes| && forall i :: 0 <= i < |bytes| ==> groups[i] == DataBits(bytes[i])
  {
    seq(|bytes|, i requires 0 <= i < |bytes| => DataBits(bytes[i]))
  }

  predicate FramedAt(bits: seq<bool>, group: seq<bool>, index: nat) {
    index + 10 <= |bits| && !bits[index] && bits[index + 9] && bits[index + 1..index + 9] == group && |group| == 8
  }

  lemma FirstGroup(bits: seq<bool>, group: seq<bool>, index: nat)
    requires FramedAt(bits, group, index)
    ensures Groups(bits, index) == [group] + Groups(bits, index + 10)
  {
  }

  lemma {:induction false} FramedGroups(bits: seq<bool>, groups: seq<seq<bool>>, j: nat, index: nat)
    requires |bits| == 10 * |groups| && j <= |groups| && index == 10 * j
    requires forall i :: 0 <= i < |groups| ==> FramedAt(bits, groups[i], 10 * i)
    ensures Groups(bits, index) == groups[j..]
    decreases |groups| - j
  {
    if j < |groups| {
      assert FramedAt(bits, groups[j], 10 * j);
      FirstGroup(bits, groups[j], index);
      FramedGroups(bits, groups, j + 1, index + 10);
      assert groups[j..] == [groups[j]] + groups[j + 1..];
    }
  }

  lemma GroupsOfBytes(bytes: seq<Byte>)
    ensures Groups(Levels(bytes), 0) == AllDataBits(bytes)
  {
    forall i | 0 <= i < |bytes|
      ensures FramedAt(Levels(bytes), AllDataBits(bytes)[i], 10 * i)
    {
      FramingBits(bytes, i);
      GroupOfByte(bytes, i);
    }
    FramedGroups(Levels(bytes), AllDataBits(bytes), 0, 0);
    assert AllDataBits(bytes)[0..] == AllDataBits(bytes);
  }

  lemma DataBitsAssembled(b: Byte)
    ensures Assembled(DataBits(b)) == b
  {
    AssembledIsByte(b);
    assert DataBits(b) == [DataBit(b, 0), DataBit(b, 1), DataBit(b, 2), DataBit(b, 3),
                           DataBit(b, 4), DataBit(b, 5), DataBit(b, 6), DataBit(b, 7)];
  }

  lemma LevelsDecode(bytes: seq<Byte>)
    ensures Decoded(Levels(bytes)) == bytes
  {
    GroupsOfBytes(bytes);
    forall i | 0 <= i < |bytes|
      ensures Assembled(AllDataBits(bytes)[i]) == bytes[i]
    {
      DataBitsAssembled(bytes[i]);
    }
  }

  /**
    Round trip: capturing what the encoder sends, for any byte string of any
    length, and decoding the captured runs gives back exactly these bytes, with
    no timing error, for every bit length within 2.6 percent of the nominal one
    and whatever the floating-point operations round to within their accuracy.
  */
  lemma WaveformRoundTrip(bytes: seq<Byte>, t: real, fl: real -> real)
    requires Tolerated(t) && Accurate(fl)
    ensures var runs := Merged(Wave(Levels(bytes)));
      Decoded(Expanded(runs, t, fl)) == bytes && Mistakes(runs, t, fl) == 0
  {
    var bits := Levels(bytes);
    TracksAll(bytes, |bits|, t, fl);
    assert bits[..|bits|] == bits;
    LevelsDecode(bytes);
  }

  /** The default bit length of the decoder is one of these. */
  lemma DefaultIsTolerated()
    ensures Tolerated(CAPTURE_TICKS_PER_BIT)
  {
  }

  // ----- the software sampler -----

  const TICKS_PER_US: nat := 10

  /** Microseconds after the start edge at which bit `slot` of a byte is read; slot 8 is the stop bit. */
  function SampleTime(index: nat, slot: nat): nat { (index * 12500 + (3 + 2 * slot) * 625 + 6) / 12 }

  /** Level of the waveform at a tick; idle after its end. */
  function LevelAt(runs: seq<Run>, tick: nat): bool {
    if runs == [] then true
    else if tick >= Total(runs[..|runs| - 1]) && tick < Total(runs) then runs[|runs| - 1].level
    else if tick >= Total(runs) then true
    else LevelAt(runs[..|runs| - 1], tick)
  }

  lemma {:induction false} LevelWithin(bits: seq<bool>, i: nat, tick: nat)
    requires i < |bits| && Edge(i) <= tick < Edge(i + 1)
    ensures LevelAt(Wave(bits), tick) == bits[i]
    decreases |bits|
  {
    var n := |bits| - 1;
    DurationsTelescope(bits);
    DurationsTelescope(bits[..n]);
    EdgesOrdered(i + 1, n + 1);
    if i < n {
      EdgesOrdered(i + 1, n);
      LevelWithin(bits[..n], i, tick);
    }
  }

  /** Every sampling instant lies in its bit with at least 51 microseconds to either edge. */
  lemma SampleMargin(index: nat, slot: nat)
    requires slot <= 8
    ensures var i := 10 * index + 1 + slot; var tick := TICKS_PER_US * SampleTime(index, slot);
      Edge(i) + 51 * TICKS_PER_US <= tick && tick + 51 * TICKS_PER_US <= Edge(i + 1)
  {
    var i := 10 * index + 1 + slot;
    EdgeDrift(i);
    EdgeDrift(i + 1);
    SampleCentre(index, slot);
  }

  /** The instants are the bit centres, rounded to whole microseconds. */
  lemma SampleCentre(index: nat, slot: nat)
    ensures var i := 10 * index + 1 + slot;
      -6 <= 12 * SampleTime(index, slot) - (2 * i + 1) * 625 <= 6
  {
  }

  /** The eight data levels read for one byte. */
  function ReadLevels(level: (nat, nat) -> bool, index: nat): (bits: seq<bool>)
    ensures |bits| == 8 && forall k :: 0 <= k < 8 ==> bits[k] == level(index, k)
  {
    seq(8, k requires 0 <= k < 8 => level(index, k))
  }

  function ShiftedIn(bits: seq<bool>, k: nat): Byte
    requires |bits| == 8 && k <= 8
  {
    if k == 0 then 0 else ShiftedIn(bits, k - 1) | ((if bits[k - 1] then 1 else 0) << (k - 1))
  }

  lemma FourShiftedIn(bits: seq<bool>)
    requires |bits| == 8
    ensures ShiftedIn(bits, 4)
            == Weighted(bits[0], 1) | Weighted(bits[1], 2) | Weighted(bits[2], 4) | Weighted(bits[3], 8)
  {
    assert ShiftedIn(bits, 1) == Weighted(bits[0], 1);
    assert ShiftedIn(bits, 2) == Weighted(bits[0], 1) | Weighted(bits[1], 2);
  }

  lemma EightShiftedIn(bits: seq<bool>)
    requires |bits| == 8
    ensures ShiftedIn(bits, 8) == Assembled(bits)
  {
    FourShiftedIn(bits);
    assert ShiftedIn(bits, 6) == ShiftedIn(bits, 4) | Weighted(bits[4], 16) | Weighted(bits[5], 32);
  }

  method ReadByte(level: (nat, nat) -> bool, index: nat) returns (b: Byte)
    ensures b == Assembled(ReadLevels(level, index))
  {
    ghost var bits := ReadLevels(level, index);
    b := 0;
    for k := 0 to 8
      invariant b == ShiftedIn(bits, k)
    {
      b := b | ((if level(index, k) then 1 else 0) << k);
    }
    EightShiftedIn(bits);
  }

  /** Samples `count` bytes; level(index, slot) is the line level at the instant of that sample. */
  method SampleFrame(level: (nat, nat) -> bool, count: nat) returns (frame: seq<Byte>, stopBitsValid: bool)
    ensures |frame| == count && forall j :: 0 <= j < count ==> frame[j] == Assembled(ReadLevels(level, j))
    ensures stopBitsValid <==> forall j :: 0 <= j < count ==> level(j, 8)
  {
    frame, stopBitsValid := [], true;
    for index := 0 to count
      invariant |frame| == index && forall j :: 0 <= j < index ==> frame[j] == Assembled(ReadLevels(level, j))
      invariant stopBitsValid <==> forall j :: 0 <= j < index ==> level(j, 8)
    {
      var b := ReadByte(level, index);
      frame := frame + [b];
      if !level(index, 8) {
        stopBitsValid := false;
      }
    }
  }

  /** Reading the line up to 51 microseconds after the sampling instant. */
  predicate Sampled(bytes: seq<Byte>, index: nat, slot: nat, late: nat, level: bool) {
    late < 51 * TICKS_PER_US
    && level == LevelAt(Wave(Levels(bytes)), TICKS_PER_US * SampleTime(index, slot) + late)
  }

  lemma SampleReadsBit(bytes: seq<Byte>, index: nat, slot: nat, late: nat, level: bool)
    requires index < |bytes| && slot <= 8 && Sampled(bytes, index, slot, late, level)
    ensures level == Levels(bytes)[10 * index + 1 + slot]
  {
    SampleMargin(index, slot);
    LevelWithin(Levels(bytes), 10 * index + 1 + slot, TICKS_PER_US * SampleTime(index, slot) + late);
  }

  /**
    The second reader: sampling the encoded waveform of any byte string, each
    sample up to 51 microseconds late, gives back every byte with a high stop bit.
  */
  lemma SamplerReadsFrame(
      bytes: seq<Byte>, level: (nat, nat) -> bool, late: (nat, nat) -> nat, index: nat)
    requires index < |bytes|
    requires forall slot :: 0 <= slot <= 8 ==> Sampled(bytes, index, slot, late(index, slot), level(index, slot))
    ensures Assembled(ReadLevels(level, index)) == bytes[index]
    ensures level(index, 8)
  {
    forall k: nat | k < 8
      ensures level(index, k) == DataBit(bytes[index], k)
    {
      SampleReadsBit(bytes, index, k, late(index, k), level(index, k));
      DataLevel(bytes, index, k);
    }
    assert ReadLevels(level, index) == DataBits(bytes[index]);
    DataBitsAssembled(bytes[index]);
    SampleReadsBit(bytes, index, 8, late(index, 8), level(index, 8));
    FramingBits(bytes, index);
  }
}
