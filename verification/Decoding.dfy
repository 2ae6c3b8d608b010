/**
  What the offline decoder makes of any captured waveform at all: which runs it
  counts as mistimed, and which bits it takes for bytes.
*/
module Decoding {
  import opened Waveform

  // ----- what is counted as a timing error -----

  /** Arithmetic without rounding. */
  function Exactly(x: real): real { x }

  function Distance(x: real, y: real): real { if x < y then y - x else x - y }

  /** How far a run of d ticks is from n bits. */
  function BitsAway(d: nat, n: nat, t: real): real { Distance(d as real, n as real * t) }

  /** A run of d ticks lies further than a quarter of a bit, give or take a slack, from any whole number of bits. */
  ghost predicate FarFromBits(d: nat, t: real, slack: real) {
    forall n: nat :: n > 0 ==> BitsAway(d, n, t) > t * 0.25 + slack
  }

  lemma RoundedClose(x: real)
    ensures Distance(x, Rounded(x) as real) <= 0.5
    ensures Distance(x, Rounded(x) as real) == 0.5 ==> Rounded(x) % 2 == 0
    ensures Rounded(x) < 1 ==> x <= 0.5
  {
    var q := x.Floor;
    assert q as real <= x < q as real + 1.0;
    assert (q + 1) as real == q as real + 1.0;
  }

  lemma OthersFarther(x: real, c: int, n: int)
    requires Distance(x, c as real) <= 0.5 || (c == 1 && x <= 0.5 && n > 0)
    ensures Distance(x, c as real) <= Distance(x, n as real)
  {
    if n < c {
      assert n as real <= c as real - 1.0;
    } else if n > c {
      assert n as real >= c as real + 1.0;
    }
  }

  lemma DistanceTimes(x: real, y: real, t: real)
    requires t > 0.0
    ensures Distance(x * t, y * t) == Distance(x, y) * t
  {
    assert (x - y) * t == x * t - y * t;
    assert (y - x) * t == y * t - x * t;
    Signs(y - x, t);
    Signs(x - y, t);
  }

  lemma CloserTimes(a: real, b: real, t: real)
    requires a <= b && t > 0.0
    ensures a * t <= b * t
  {
    NotNegative(b - a, t);
    assert (b - a) * t == b * t - a * t;
  }

  lemma QuotientTimes(d: real, t: real)
    requires t > 0.0
    ensures d / t * t == d
  {
  }

  lemma AwayIsDistance(d: nat, n: nat, t: real) returns (away: real)
    requires t > 0.0
    ensures away == Distance(d as real / t, n as real) && BitsAway(d, n, t) == away * t
  {
    away := Distance(d as real / t, n as real);
    QuotientTimes(d as real, t);
    DistanceTimes(d as real / t, n as real, t);
  }

  /** The count for a quotient, and that no other positive number is closer. */
  function AtLeastOne(n: int): nat { if n < 1 then 1 else n }

  lemma NearestCount(x: real, n: nat)
    requires n > 0
    ensures Distance(x, AtLeastOne(Rounded(x)) as real) <= Distance(x, n as real)
    ensures AtLeastOne(Rounded(x)) > 1 && Distance(x, AtLeastOne(Rounded(x)) as real) == 0.5 ==>
              AtLeastOne(Rounded(x)) % 2 == 0
  {
    RoundedClose(x);
    OthersFarther(x, AtLeastOne(Rounded(x)), n);
  }

  lemma CountOfQuotient(d: nat, t: real)
    requires t > 0.0
    ensures BitCount(d, t, Exactly) == AtLeastOne(Rounded(d as real / t))
  {
  }

  /** Without rounding errors a run is taken for the number of bits that is nearest, ties going to the even one. */
  lemma CountIsNearest(d: nat, t: real, n: nat)
    requires t > 0.0 && n > 0
    ensures var c := BitCount(d, t, Exactly);
      && c > 0 && BitsAway(d, c, t) <= BitsAway(d, n, t)
      && (c > 1 && 2.0 * BitsAway(d, c, t) == t ==> c % 2 == 0)
  {
    CountOfQuotient(d, t);
    NearestScaled(d, t, BitCount(d, t, Exactly), n);
  }

  lemma NearestScaled(d: nat, t: real, c: nat, n: nat)
    requires t > 0.0 && n > 0 && c == AtLeastOne(Rounded(d as real / t))
    ensures c > 0 && BitsAway(d, c, t) <= BitsAway(d, n, t)
    ensures c > 1 && 2.0 * BitsAway(d, c, t) == t ==> c % 2 == 0
  {
    var x := d as real / t;
    NearestCount(x, n);
    var near := AwayIsDistance(d, c, t);
    var far := AwayIsDistance(d, n, t);
    ScaledDistances(BitsAway(d, c, t), BitsAway(d, n, t), near, far, t);
  }

  lemma ScaledDistances(near: real, far: real, a: real, b: real, t: real)
    requires t > 0.0 && near == a * t && far == b * t && a <= b
    ensures near <= far && (2.0 * near == t ==> a == 0.5)
  {
    CloserTimes(a, b, t);
    if 2.0 * near == t {
      HalfOf(a, t);
    }
  }

  lemma HalfOf(a: real, t: real)
    requires t > 0.0 && 2.0 * (a * t) == t
    ensures a == 0.5
  {
    Signs(a - 0.5, t);
    Signs(0.5 - a, t);
    assert (a - 0.5) * t == a * t - 0.5 * t && (0.5 - a) * t == 0.5 * t - a * t;
  }

  /** And it is mistimed exactly if it is far from every whole number of bits. */
  lemma MistimedExactly(d: nat, t: real)
    requires t > 0.0
    ensures Mistimed(d, t, Exactly) <==> FarFromBits(d, t, 0.0)
  {
    var c := BitCount(d, t, Exactly);
    forall n: nat | n > 0
      ensures BitsAway(d, c, t) <= BitsAway(d, n, t)
    {
      CountIsNearest(d, t, n);
    }
    MistimedAway(d, t, c);
  }

  lemma MistimedAway(d: nat, t: real, c: nat)
    requires t > 0.0 && c == BitCount(d, t, Exactly)
    ensures Mistimed(d, t, Exactly) <==> BitsAway(d, c, t) > t * 0.25
    ensures c > 0
  {
    assert Length(c, t, Exactly) == c as real * t;
  }

  /** Number of runs that are not empty and far from every whole number of bits. */
  ghost function FarRuns(runs: seq<Run>, t: real): nat {
    if runs == [] then 0
    else
      var d := runs[|runs| - 1].duration;
      FarRuns(runs[..|runs| - 1], t) + if d != 0 && FarFromBits(d, t, 0.0) then 1 else 0
  }

  /** Without rounding errors the decoder counts exactly these. */
  lemma {:induction false} MistakesAreFarRuns(runs: seq<Run>, t: real)
    requires t > 0.0
    ensures Mistakes(runs, t, Exactly) == FarRuns(runs, t)
  {
    if runs != [] {
      MistakesAreFarRuns(runs[..|runs| - 1], t);
      MistimedExactly(runs[|runs| - 1].duration, t);
    }
  }

  /** With floating-point rounding, a run half a tick further than that from every number of bits is counted. */
  lemma FarIsMistimed(d: nat, t: real, fl: real -> real)
    requires Tolerated(t) && Accurate(fl) && d <= 9400 && FarFromBits(d, t, 0.5)
    ensures Mistimed(d, t, fl)
  {
    var c := BitCount(d, t, fl);
    CountBound(d, t, fl);
    assert BitsAway(d, c, t) > t * 0.25 + 0.5;
    LengthBound(c, t);
    LengthNear(t, c, fl);
    DistanceKept(d, Length(c, t, fl), c as real * t, t, fl);
  }

  lemma LengthBound(c: nat, t: real)
    requires 0 < c <= 9 && Tolerated(t)
    ensures 1014.0 <= c as real * t <= 9639.0
  {
    Scaled(c as real, t);
  }

  lemma CountBound(d: nat, t: real, fl: real -> real)
    requires Tolerated(t) && Accurate(fl) && d <= 9400
    ensures 0 < BitCount(d, t, fl) <= 9
  {
    var x := fl(d as real) / t;
    assert Within(fl(d as real) - d as real, 0.0001);
    QuotientBound(fl(d as real), t);
    assert Within(fl(x) - x, 0.0001);
  }

  lemma QuotientBound(d: real, t: real)
    requires Tolerated(t) && -0.0001 <= d <= 9400.0001
    ensures -0.001 <= d / t <= 9.28
  {
    QuotientTimes(d, t);
    FactorBound(d / t, t);
  }

  lemma FactorBound(x: real, t: real)
    requires Tolerated(t) && -0.0001 <= x * t <= 9400.0001
    ensures -0.001 <= x <= 9.28
  {
    if x > 9.28 {
      CloserTimes(9.28, x, t);
    }
    BelowZero(x, t);
  }

  lemma BelowZero(x: real, t: real)
    requires Tolerated(t)
    ensures x < -0.001 ==> x * t < -1.0
  {
    if x < -0.001 {
      CloserTimes(0.001, -x, t);
      assert -x * t == -(x * t) && 0.001 * t > 1.0;
    }
  }

  lemma DistanceKept(d: nat, length: real, exact: real, t: real, fl: real -> real)
    requires Tolerated(t) && Accurate(fl) && d <= 9400 && 0.0 <= exact <= 9639.0
    requires Within(length - exact, 0.1072) && Distance(d as real, exact) > t * 0.25 + 0.5
    ensures Apart(d, length, t, fl)
  {
    var x := fl(d as real) - length;
    assert Within(fl(d as real) - d as real, 0.0001);
    assert Within(fl(x) - x, 0.0001);
    assert Within(fl(t * 0.25) - t * 0.25, 0.0001);
  }

  /** And one half a tick closer to some number of bits than a quarter bit is not. */
  lemma NearIsNotMistimed(d: nat, t: real, c: nat, fl: real -> real)
    requires Tolerated(t) && Accurate(fl) && 0 < c <= 9 && d <= 9400
    requires BitsAway(d, c, t) <= t * 0.25 - 0.5
    ensures BitCount(d, t, fl) == c && !Mistimed(d, t, fl)
  {
    LengthBound(c, t);
    NearMeansCounted(d, t, c, fl);
  }

  // ----- which bits become bytes -----

  /** The scan takes bytes from these positions, each behind the one before. */
  predicate Spaced(at: seq<nat>, index: nat) {
    (forall g :: 0 <= g < |at| ==> index <= at[g]) && (forall g, h :: 0 <= g < h < |at| ==> at[g] + 10 <= at[h])
  }

  predicate Claimed(at: seq<nat>, i: nat) { exists g :: 0 <= g < |at| && at[g] <= i < at[g] + 10 }

  /** A start bit at i has its stop bit nine bits on. */
  predicate Looks8N1(bits: seq<bool>, i: nat) { i + 9 < |bits| && !bits[i] && bits[i + 9] }

  /**
    Which bytes the decoder finds in any bits at all: they come from positions
    that do not overlap, each between a start and a stop bit, and every other
    position that looks like a frame lies inside one of those taken.
  */
  lemma {:induction false} GroupsExactly(bits: seq<bool>, index: nat) returns (at: seq<nat>)
    ensures |at| == |Groups(bits, index)| && Spaced(at, index)
    ensures forall g :: 0 <= g < |at| ==> FramedAt(bits, Groups(bits, index)[g], at[g])
    ensures forall i: nat :: index <= i && Looks8N1(bits, i) ==> Claimed(at, i)
    decreases |bits| - index
  {
    if index + 9 >= |bits| {
      at := [];
    } else if bits[index] || !bits[index + 9] {
      at := GroupsExactly(bits, index + 1);
    } else {
      var rest := GroupsExactly(bits, index + 10);
      at := [index] + rest;
      SpacedCons(index, rest);
      FirstTaken(bits, index, rest);
      forall i: nat | index <= i && Looks8N1(bits, i)
        ensures Claimed(at, i)
      {
        ClaimedLater(index, rest, i);
      }
    }
  }

  lemma SpacedCons(index: nat, rest: seq<nat>)
    requires Spaced(rest, index + 10)
    ensures Spaced([index] + rest, index)
  {
  }

  lemma FirstTaken(bits: seq<bool>, index: nat, rest: seq<nat>)
    requires index + 9 < |bits| && !bits[index] && bits[index + 9]
    requires |rest| == |Groups(bits, index + 10)|
    requires forall g :: 0 <= g < |rest| ==> FramedAt(bits, Groups(bits, index + 10)[g], rest[g])
    ensures var at := [index] + rest;
      && |at| == |Groups(bits, index)|
      && forall g :: 0 <= g < |at| ==> FramedAt(bits, Groups(bits, index)[g], at[g])
  {
    FirstGroup(bits, bits[index + 1..index + 9], index);
    FramedCons(bits, bits[index + 1..index + 9], Groups(bits, index + 10), index, rest);
  }

  lemma FramedCons(bits: seq<bool>, group: seq<bool>, groups: seq<seq<bool>>, index: nat, rest: seq<nat>)
    requires |rest| == |groups| && FramedAt(bits, group, index)
    requires forall g :: 0 <= g < |rest| ==> FramedAt(bits, groups[g], rest[g])
    ensures forall g :: 0 <= g < |rest| + 1 ==> FramedAt(bits, ([group] + groups)[g], ([index] + rest)[g])
  {
  }

  lemma ClaimedLater(index: nat, rest: seq<nat>, i: nat)
    requires index <= i && (i < index + 10 || Claimed(rest, i))
    ensures Claimed([index] + rest, i)
  {
    var at := [index] + rest;
    if i < index + 10 {
      assert at[0] == index;
    } else {
      var g :| 0 <= g < |rest| && rest[g] <= i < rest[g] + 10;
      assert at[g + 1] == rest[g];
    }
  }
}
