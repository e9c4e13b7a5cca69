/** Log-linear duration histograms: the buckets of `src/metrics.rs` and `DurationHistogram` of
    `src/insights.rs`. A reported percentile is at most a sixteenth above the true one and below it only for the
    largest duration there is. */
module Histogram {
  import opened Common

  const SUB_COUNT: nat := 16
  const BUCKET_COUNT: nat := 1024

  function Pow2(n: nat): (p: nat)
    ensures p > 0
  {
    if n == 0 then 1 else 2 * Pow2(n - 1)
  }

  /** The place of the highest bit: `63 - leading_zeros`. */
  function Octave(value: nat): nat
    requires value > 0
  {
    if value == 1 then 0 else 1 + Octave(value / 2)
  }

  lemma {:induction false} OctaveHolds(value: nat)
    requires value > 0
    ensures Pow2(Octave(value)) <= value < 2 * Pow2(Octave(value))
  {
    if value > 1 {
      OctaveHolds(value / 2);
    }
  }

  lemma {:induction false} Pow2Sum(a: nat, b: nat)
    ensures Pow2(a + b) == Pow2(a) * Pow2(b)
  {
    if b > 0 {
      Pow2Sum(a, b - 1);
      assert Pow2(a + b) == 2 * Pow2(a + b - 1) && Pow2(b) == 2 * Pow2(b - 1);
      hide Pow2;
      DoubledProduct(Pow2(a), Pow2(b - 1), Pow2(b));
    }
  }

  lemma DoubledProduct(p: nat, q: nat, twice: nat)
    requires twice == 2 * q
    ensures p * twice == 2 * (p * q)
  {
  }

  lemma {:induction false} Pow2Monotone(a: nat, b: nat)
    requires a <= b
    ensures Pow2(a) <= Pow2(b)
  {
    if a < b {
      Pow2Monotone(a, b - 1);
    }
  }

  lemma Pow2At64()
    ensures Pow2(4) == 16 && Pow2(5) == 32 && Pow2(64) == U64_MAX + 1
  {
    assert Pow2(2) == 4 && Pow2(4) == 16;
    hide Pow2;
    Pow2Sum(4, 1);
    Pow2Sum(4, 4);
    Pow2Sum(8, 8);
    Pow2Sum(16, 16);
    Pow2Sum(32, 32);
    assert Pow2(8) == 0x100 && Pow2(16) == 0x1_0000 && Pow2(32) == 0x1_0000_0000;
  }

  // ---------------------------------------------------------------- buckets

  /** The bucket a duration falls in: exact below 32, then sixteen steps an octave. */
  function BucketIndex(value: U64): nat {
    if value < SUB_COUNT * 2 then value
    else
      OctaveAtLeast(value);
      var octave := Octave(value);
      var sub := value / Pow2(octave - 4) % SUB_COUNT;
      (octave - 4) * SUB_COUNT + SUB_COUNT + sub
  }

  /** The largest duration that lands in a bucket. */
  function UpperBound(index: nat): nat {
    if index < SUB_COUNT * 2 then index else BoundIn((index - SUB_COUNT) / SUB_COUNT, (index - SUB_COUNT) % SUB_COUNT)
  }

  function BoundIn(row: nat, sub: nat): nat {
    var octave := row + 4;
    if octave >= 64 then U64_MAX
    else SaturatingSub(Saturated(Pow2(octave) + Saturated((sub + 1) * Pow2(octave - 4))), 1)
  }

  function Saturated(value: nat): nat { Min(value, U64_MAX) }

  lemma OctaveAtLeast(value: nat)
    requires value >= 32
    ensures Octave(value) >= 5
  {
    OctaveHolds(value);
    Pow2At64();
    if Octave(value) < 5 {
      Pow2Monotone(Octave(value) + 1, 5);
    }
  }

  /** A bucket is a step count within a scale: values are `step * 2^scale` up to the next step. */
  ghost predicate InStep(value: nat, scale: nat, step: nat) {
    step * Pow2(scale) <= value < (step + 1) * Pow2(scale) && step < 32 && (scale > 0 ==> step >= 16)
  }

  /** The bucket of a value, as the step and scale it lies in. */
  lemma IndexIsStep(value: U64) returns (scale: nat, step: nat)
    ensures InStep(value, scale, step) && BucketIndex(value) == 16 * scale + step && scale <= 59
  {
    if value < 32 {
      return 0, value;
    }
    OctaveAtLeast(value);
    OctaveHolds(value);
    Pow2At64();
    var octave := Octave(value);
    if octave >= 64 {
      Pow2Monotone(64, octave);
    }
    scale := octave - 4;
    Pow2Sum(scale, 4);
    hide Octave, Pow2;
    step := StepAt(value, Pow2(scale));
    assert step % SUB_COUNT == step - 16;
  }

  lemma StepAt(value: nat, unit: nat) returns (step: nat)
    requires unit > 0 && unit * 16 <= value < 2 * (unit * 16)
    ensures step == value / unit && step * unit <= value < (step + 1) * unit && 16 <= step < 32
  {
    step := value / unit;
    DivisionBounds(value, unit);
    StepRange(value, unit, step);
  }

  lemma DivisionBounds(value: nat, unit: nat)
    requires unit > 0
    ensures value / unit * unit <= value < (value / unit + 1) * unit
  {
    assert value == value / unit * unit + value % unit;
    assert (value / unit + 1) * unit == value / unit * unit + unit;
  }

  lemma StepRange(value: nat, unit: nat, step: nat)
    requires unit > 0 && unit * 16 <= value < 2 * (unit * 16) && step * unit <= value < (step + 1) * unit
    ensures 16 <= step < 32
  {
    if step < 16 {
      MultiplyMonotone(step + 1, 16, unit);
    } else if step >= 32 {
      MultiplyMonotone(32, step, unit);
    }
  }

  lemma RowOf(scale: nat, step: nat)
    requires scale > 0 && 16 <= step < 32
    ensures UpperBound(16 * scale + step) == BoundIn(scale, step - 16)
  {
    hide BoundIn;
    var past := 16 * scale + step - 16;
    QuotientIs(past, scale, 16);
  }

  /** What the shifts and masks of the bound come to: one less than where the next step starts. */
  lemma BoundOfStep(scale: nat, step: nat, next: nat)
    requires scale <= 59 && step < 32 && (scale > 0 ==> step >= 16) && next == (step + 1) * Pow2(scale)
    ensures UpperBound(16 * scale + step) == SaturatingSub(Saturated(next), 1)
  {
    if scale == 0 {
      assert Pow2(0) == 1;
      assert next == step + 1;
    } else {
      hide UpperBound, BoundIn, Pow2, Saturated;
      RowOf(scale, step);
      BoundInIs(scale, step, Pow2(scale), next);
    }
  }

  lemma BoundInIs(scale: nat, step: nat, unit: nat, next: nat)
    requires scale <= 59 && 16 <= step < 32 && unit == Pow2(scale) && next == (step + 1) * unit
    ensures BoundIn(scale, step - 16) == SaturatingSub(Saturated(next), 1)
  {
    hide Pow2;
    assert Pow2(scale + 4) == 16 * unit && 32 * unit <= U64_MAX + 1 by { UnitFits(scale, unit); }
    var part := (step - 16 + 1) * unit;
    PartFits(step, unit, part, next);
  }

  lemma UnitFits(scale: nat, unit: nat)
    requires scale <= 59 && unit == Pow2(scale)
    ensures Pow2(scale + 4) == 16 * unit && 32 * unit <= U64_MAX + 1
  {
    hide Pow2;
    Pow2Sum(scale, 4);
    Pow2Sum(scale, 5);
    Pow2At64();
    Pow2Monotone(scale + 5, 64);
  }

  lemma PartFits(step: nat, unit: nat, part: nat, next: nat)
    requires 16 <= step < 32 && part == (step - 16 + 1) * unit && next == (step + 1) * unit && unit > 0
    ensures part + 16 * unit == next && part <= 16 * unit
  {
    MultiplyMonotone(step - 16 + 1, 16, unit);
  }

  /** Larger durations never land in earlier buckets. */
  lemma IndexMonotone(a: U64, b: U64)
    requires a <= b
    ensures BucketIndex(a) <= BucketIndex(b) < BUCKET_COUNT
  {
    var scaleA, stepA := IndexIsStep(a);
    var scaleB, stepB := IndexIsStep(b);
    hide BucketIndex;
    if scaleA == scaleB {
      StepsOrdered(a, b, scaleA, stepA, stepB);
    } else if scaleA > scaleB {
      Pow2Monotone(scaleB + 1, scaleA);
      ScaleApart(a, b, Pow2(scaleB), Pow2(scaleA), stepB, stepA);
    }
  }

  lemma StepsOrdered(a: nat, b: nat, scale: nat, stepA: nat, stepB: nat)
    requires a <= b && InStep(a, scale, stepA) && InStep(b, scale, stepB)
    ensures stepA <= stepB
  {
    if stepB < stepA {
      MultiplyMonotone(stepB + 1, stepA, Pow2(scale));
    }
  }

  lemma ScaleApart(a: nat, b: nat, small: nat, large: nat, stepB: nat, stepA: nat)
    requires 0 < small && 2 * small <= large && b < (stepB + 1) * small && stepB < 32
    requires stepA * large <= a && stepA >= 16
    ensures b < a
  {
    MultiplyMonotone(stepB + 1, 32, small);
    MultiplyMonotone(16, stepA, large);
  }

  /** A bucket's bound is at most a sixteenth above any duration in it, and below only the largest duration there is. */
  lemma BoundBrackets(value: U64)
    ensures value < U64_MAX ==> value <= UpperBound(BucketIndex(value)) <= value + value / 16
    ensures UpperBound(BucketIndex(U64_MAX)) == U64_MAX - 1
  {
    hide BucketIndex, UpperBound;
    var scale, step := IndexIsStep(value);
    BoundOfStep(scale, step, (step + 1) * Pow2(scale));
    BoundNear(value, step, Pow2(scale), scale);
    TopBound();
  }

  lemma TopBound()
    ensures UpperBound(BucketIndex(U64_MAX)) == U64_MAX - 1
  {
    hide BucketIndex, UpperBound;
    var scale, step := IndexIsStep(U64_MAX);
    BoundOfStep(scale, step, (step + 1) * Pow2(scale));
  }

  lemma BoundNear(value: nat, step: nat, unit: nat, scale: nat)
    requires unit == Pow2(scale) && InStep(value, scale, step)
    ensures (step + 1) * unit - 1 <= value + value / 16
  {
    if scale == 0 {
      assert Pow2(0) == 1;
      assert value == step;
    } else {
      MultiplyMonotone(16, step, unit);
      assert (step + 1) * unit == step * unit + unit;
      SixteenthAtLeast(value, unit);
    }
  }

  lemma SixteenthAtLeast(value: nat, unit: nat)
    requires 16 * unit <= value
    ensures unit <= value / 16
  {
  }

  // ---------------------------------------------------------------- order statistics

  function CountBelow(values: seq<U64>, bound: nat): nat {
    if values == [] then 0
    else CountBelow(values[..|values| - 1], bound) + if values[|values| - 1] < bound then 1 else 0
  }

  /** The `rank`-th smallest of the values, counting from one. */
  predicate IsRanked(values: seq<U64>, rank: nat, value: U64) {
    CountBelow(values, value) < rank <= CountBelow(values, value + 1)
  }

  /** How many of the values lie in the first buckets. */
  function CountIndexed(values: seq<U64>, buckets: nat): nat {
    if values == [] then 0
    else CountIndexed(values[..|values| - 1], buckets) + if BucketIndex(values[|values| - 1]) < buckets then 1 else 0
  }

  lemma {:induction false} CountsOrdered(values: seq<U64>, value: U64)
    ensures CountBelow(values, value + 1) <= CountIndexed(values, BucketIndex(value) + 1)
    ensures CountIndexed(values, BucketIndex(value)) <= CountBelow(values, value)
  {
    if values != [] {
      var n := |values| - 1;
      CountsOrdered(values[..n], value);
      if values[n] <= value {
        IndexMonotone(values[n], value);
      } else {
        IndexMonotone(value, values[n]);
      }
    }
  }

  lemma {:induction false} CountIndexedGrows(values: seq<U64>, a: nat, b: nat)
    requires a <= b
    ensures CountIndexed(values, a) <= CountIndexed(values, b) <= |values|
  {
    if values != [] {
      CountIndexedGrows(values[..|values| - 1], a, b);
    }
  }

  lemma {:induction false} AllIndexed(values: seq<U64>)
    ensures CountIndexed(values, BUCKET_COUNT) == |values|
  {
    if values != [] {
      AllIndexed(values[..|values| - 1]);
      IndexMonotone(values[|values| - 1], values[|values| - 1]);
    }
  }

  /** The ranked value is among the values, and so no larger than the largest. */
  lemma {:induction false} RankedAmong(values: seq<U64>, rank: nat, value: U64)
    requires IsRanked(values, rank, value)
    ensures value in values
  {
    if value !in values {
      SameBelow(values, value);
    }
  }

  lemma {:induction false} SameBelow(values: seq<U64>, value: U64)
    requires value !in values
    ensures CountBelow(values, value + 1) == CountBelow(values, value)
  {
    if values != [] {
      var n := |values| - 1;
      assert values[n] in values;
      assert forall x :: x in values[..n] ==> x in values;
      SameBelow(values[..n], value);
    }
  }

  // ---------------------------------------------------------------- the histogram

  /** Where the walk over the buckets stops: the first whose running count reaches the rank. */
  ghost predicate StopsAt(values: seq<U64>, rank: nat, index: nat) {
    CountIndexed(values, index) < rank <= CountIndexed(values, index + 1)
  }

  /** It stops in the bucket of the true percentile. */
  lemma StopsInItsBucket(values: seq<U64>, rank: nat, value: U64, index: nat)
    requires IsRanked(values, rank, value) && StopsAt(values, rank, index)
    ensures index == BucketIndex(value)
  {
    CountsOrdered(values, value);
    if index < BucketIndex(value) {
      CountIndexedGrows(values, index + 1, BucketIndex(value));
    } else if index > BucketIndex(value) {
      CountIndexedGrows(values, BucketIndex(value) + 1, index);
    }
  }

  /** What is reported for a walk that stops in a bucket. */
  ghost function Reported(values: seq<U64>, largest: U64, index: nat): nat { Min(UpperBound(index), largest) }

  /** A reported percentile is at most a sixteenth high, and never low, unless the true one is the largest duration
      there is, which is reported as one less. */
  lemma PercentileBrackets(values: seq<U64>, rank: nat, value: U64, index: nat, largest: U64)
    requires IsRanked(values, rank, value) && StopsAt(values, rank, index)
    requires forall x :: x in values ==> x <= largest
    ensures var p := Reported(values, largest, index);
            && (value <= p <= value + value / 16 <==> value < U64_MAX)
            && (value == U64_MAX ==> p == U64_MAX - 1)
  {
    hide BucketIndex, UpperBound, CountBelow, CountIndexed;
    StopsInItsBucket(values, rank, value, index);
    RankedAmong(values, rank, value);
    BoundBrackets(value);
  }

  /** The rank a percentile asks for among `count` observations: rounded up, and at least the first. */
  function Rank(percent: real, count: nat): nat {
    Max(1, Ceiling(Share(percent, count)))
  }

  function Share(percent: real, count: nat): real { percent / 100.0 * count as real }

  function Ceiling(x: real): int { if x.Floor as real == x then x.Floor else x.Floor + 1 }

  lemma RankWithin(percent: real, count: nat)
    requires 0.0 <= percent <= 100.0 && count > 0
    ensures 1 <= Rank(percent, count) <= count
  {
    var exact := percent / 100.0 * count as real;
    assert exact <= count as real;
  }

  // ---------------------------------------------------------------- what a percentile is

  /** The observations at or below a value, by where they stand. */
  ghost function UpTo(values: seq<U64>, value: nat): set<nat> {
    set i: nat | i < |values| && values[i] <= value
  }

  /** The least observation with at least so many percent of the observations at or below it. */
  ghost predicate NearestRank(values: seq<U64>, percent: real, value: nat) {
    && value in values && 100.0 * |UpTo(values, value)| as real >= percent * |values| as real
    && forall lower :: lower in values && lower < value ==>
         100.0 * |UpTo(values, lower)| as real < percent * |values| as real
  }

  /** The least rank of at least one that covers so many percent of a count. */
  predicate LeastCovering(percent: real, count: nat, rank: nat) {
    && rank >= 1 && Covers(percent, count, rank)
    && forall lower: nat :: 1 <= lower < rank ==> !Covers(percent, count, lower)
  }

  predicate Covers(percent: real, count: nat, rank: nat) {
    100.0 * rank as real >= percent * count as real
  }

  lemma ShareScales(percent: real, count: nat)
    ensures 100.0 * Share(percent, count) == percent * count as real
  {
    var part, n := percent / 100.0, count as real;
    assert 100.0 * part == percent;
    assert 100.0 * (part * n) == (100.0 * part) * n;
  }

  lemma RankCovers(percent: real, count: nat)
    ensures LeastCovering(percent, count, Rank(percent, count))
  {
    ShareScales(percent, count);
    hide Share;
    var share := Share(percent, count);
    var rank := Rank(percent, count);
    assert rank as real >= share;
    forall lower: nat | 1 <= lower < rank
      ensures !Covers(percent, count, lower)
    {
      assert lower as real < share;
    }
  }

  lemma {:induction false} UpToIsCounted(values: seq<U64>, value: nat)
    ensures |UpTo(values, value)| == CountBelow(values, value + 1)
  {
    if values == [] {
      assert UpTo(values, value) == {};
    } else {
      var n := |values| - 1;
      UpToIsCounted(values[..n], value);
      var before := UpTo(values[..n], value);
      assert UpTo(values, value) == before + if values[n] <= value then {n} else {};
      assert n !in before;
    }
  }

  lemma {:induction false} CountBelowGrows(values: seq<U64>, low: nat, high: nat)
    requires low <= high
    ensures CountBelow(values, low) <= CountBelow(values, high)
  {
    if values != [] {
      CountBelowGrows(values[..|values| - 1], low, high);
    }
  }

  /** The value of the rank a percentile asks for is the percentile. */
  lemma RankedIsNearest(values: seq<U64>, percent: real, value: U64)
    requires IsRanked(values, Rank(percent, |values|), value)
    ensures NearestRank(values, percent, value)
  {
    var rank := Rank(percent, |values|);
    RankCovers(percent, |values|);
    RankedAmong(values, rank, value);
    UpToIsCounted(values, value);
    hide Rank, UpTo;
    forall lower | lower in values && lower < value
      ensures 100.0 * |UpTo(values, lower)| as real < percent * |values| as real
    {
      UpToIsCounted(values, lower);
      CountBelowGrows(values, lower + 1, value);
      UpToItself(values, lower);
      var many := |UpTo(values, lower)|;
      assert 1 <= many < rank && !Covers(percent, |values|, many);
    }
  }

  lemma UpToItself(values: seq<U64>, value: U64)
    requires value in values
    ensures |UpTo(values, value)| >= 1
  {
    var i :| 0 <= i < |values| && values[i] == value;
    assert i in UpTo(values, value);
  }

  function LargestOf(values: seq<U64>): U64 {
    if values == [] then 0 else Max(LargestOf(values[..|values| - 1]), values[|values| - 1])
  }

  /** The first bucket from `index` on whose running count reaches the rank. */
  function StopFrom(values: seq<U64>, rank: nat, index: nat): (r: Option<nat>)
    requires index <= BUCKET_COUNT
    ensures r.Some? ==> index <= r.value < BUCKET_COUNT && CountIndexed(values, r.value + 1) >= rank
    ensures r.Some? && r.value > index ==> CountIndexed(values, r.value) < rank
    ensures r.None? && index < BUCKET_COUNT ==> CountIndexed(values, BUCKET_COUNT) < rank
    decreases BUCKET_COUNT - index
  {
    if index == BUCKET_COUNT then None
    else if CountIndexed(values, index + 1) >= rank then Some(index)
    else StopFrom(values, rank, index + 1)
  }

  /** What the walk over the buckets reports for a rank; one that no bucket reaches falls through to the
      largest value. */
  function ReportedAt(values: seq<U64>, rank: nat): nat {
    match StopFrom(values, rank, 0)
    case Some(index) => Min(UpperBound(index), LargestOf(values))
    case None => LargestOf(values)
  }

  lemma {:induction false} LargestIsLargest(values: seq<U64>)
    ensures (forall x :: x in values ==> x <= LargestOf(values)) && (values != [] ==> LargestOf(values) in values)
  {
    if values != [] {
      var n := |values| - 1;
      var front, last := values[..n], values[n];
      LargestIsLargest(front);
      assert LargestOf(values) == Max(LargestOf(front), last);
      hide LargestOf;
      assert values == front + [last];
      assert front == [] || LargestOf(front) in front;
    }
  }

  /** The walk's answer at a rank that exists. */
  lemma ReportBrackets(values: seq<U64>, rank: nat, value: U64)
    requires IsRanked(values, rank, value) && rank >= 1
    ensures var p := ReportedAt(values, rank);
            && (value <= p <= value + value / 16 <==> value < U64_MAX)
            && (value == U64_MAX ==> p == U64_MAX - 1)
  {
    hide BucketIndex, UpperBound, IsRanked, LargestOf, CountIndexed, CountBelow;
    if rank > |values| {
      NoneRanked(values, rank);
    }
    AllIndexed(values);
    NothingIndexed(values);
    LargestIsLargest(values);
    var index := StopFrom(values, rank, 0).value;
    PercentileBrackets(values, rank, value, index, LargestOf(values));
  }

  /** A rank past the last reports the largest value. */
  lemma PastTheLast(values: seq<U64>, rank: nat)
    requires rank > |values|
    ensures ReportedAt(values, rank) == LargestOf(values)
  {
    var stop := StopFrom(values, rank, 0);
    if stop.Some? {
      CountIndexedGrows(values, stop.value + 1, stop.value + 1);
    }
  }

  /** The reported value brackets the percentile, whatever rank was asked for. */
  ghost predicate Reports(values: seq<U64>, percent: real, value: U64, p: nat) {
    && NearestRank(values, percent, value)
    && (value <= p <= value + value / 16 <==> value < U64_MAX) && (value == U64_MAX ==> p == U64_MAX - 1)
  }

  class DurationHistogram {
    const buckets: array<nat>
    var count: nat
    var sum: U64
    var least: U64
    var largest: U64
    ghost var values: seq<U64>

    ghost predicate Valid()
      reads this, buckets
    {
      && count == |values| && Holding(buckets[..], values)
      && sum == SumOf(values) && (forall x :: x in values ==> least <= x <= largest)
      && (values != [] ==> least in values && largest in values)
      && (values == [] ==> least == U64_MAX && largest == 0)
    }

    constructor ()
      ensures Valid() && values == [] && fresh(buckets)
    {
      buckets := new nat[BUCKET_COUNT](_ => 0);
      count, sum, least, largest, values := 0, 0, U64_MAX, 0, [];
    }

    /** Adds one observation. */
    method Record(value: U64)
      requires Valid()
      modifies this, buckets
      ensures Valid() && values == old(values) + [value]
    {
      IndexMonotone(value, value);
      var index := Min(BucketIndex(value), BUCKET_COUNT - 1);
      buckets[index] := buckets[index] + 1;
      count := count + 1;
      sum := SaturatingAdd(sum, value);
      least := Min(least, value);
      largest := Max(largest, value);
      values := values + [value];
      RecordedCounts(old(values), value);
    }

    /** The percentile at a rank: the bound of the bucket it falls in, but no more than the largest observation. */
    method AtRank(rank: nat) returns (p: nat)
      requires Valid() && rank >= 1
      ensures p == if count == 0 then 0 else ReportedAt(values, rank)
      ensures forall value: U64 :: IsRanked(values, rank, value) ==>
                (value <= p <= value + value / 16 <==> value < U64_MAX) && (value == U64_MAX ==> p == U64_MAX - 1)
    {
      hide BucketIndex, UpperBound;
      if count == 0 {
        NoneRanked(values, rank);
        return 0;
      }
      LargestIsLargest(values);
      forall value: U64 | IsRanked(values, rank, value)
        ensures var q := ReportedAt(values, rank);
                && (value <= q <= value + value / 16 <==> value < U64_MAX) && (value == U64_MAX ==> q == U64_MAX - 1)
      {
        ReportBrackets(values, rank, value);
      }
      p := WalkBuckets(buckets, largest, values, rank);
    }

    method Percentile(percent: real) returns (p: nat)
      requires Valid()
      ensures p == if count == 0 then 0 else ReportedAt(values, Rank(percent, count))
      ensures forall value: U64 :: IsRanked(values, Rank(percent, count), value) ==>
                (value <= p <= value + value / 16 <==> value < U64_MAX) && (value == U64_MAX ==> p == U64_MAX - 1)
      ensures 0.0 <= percent <= 100.0 && values != [] ==> exists value :: Reports(values, percent, value, p)
    {
      p := AtRank(Rank(percent, count));
      if 0.0 <= percent <= 100.0 && values != [] {
        RankWithin(percent, |values|);
        ghost var value := RankedExists(values, Rank(percent, |values|));
        RankedIsNearest(values, percent, value);
        assert Reports(values, percent, value, p);
      }
    }
  }

  /** The walk both histograms take: bucket by bucket until the running count reaches the rank. */
  method WalkBuckets(buckets: array<nat>, largest: U64, ghost values: seq<U64>, rank: nat) returns (p: nat)
    requires rank >= 1 && largest == LargestOf(values) && Holding(buckets[..], values)
    ensures p == ReportedAt(values, rank)
  {
    hide BucketIndex, UpperBound, CountIndexed, LargestOf;
    var seen := 0;
    NothingIndexed(values);
    for index := 0 to BUCKET_COUNT
      invariant seen == CountIndexed(values, index) && seen < rank
      invariant StopFrom(values, rank, 0) == StopFrom(values, rank, index)
    {
      assert buckets[..][index] == buckets[index];
      seen := seen + buckets[index];
      if seen >= rank {
        return Min(UpperBound(index), largest);
      }
    }
    p := largest;
  }

  /** The buckets count these values. */
  predicate Holding(buckets: seq<nat>, values: seq<U64>) {
    && |buckets| == BUCKET_COUNT
    && forall i :: 0 <= i < BUCKET_COUNT ==> buckets[i] == CountIndexed(values, i + 1) - CountIndexed(values, i)
  }

  function SumOf(values: seq<U64>): U64 {
    if values == [] then 0 else SaturatingAdd(SumOf(values[..|values| - 1]), values[|values| - 1])
  }

  lemma {:induction false} NothingIndexed(values: seq<U64>)
    ensures CountIndexed(values, 0) == 0
  {
    if values != [] {
      NothingIndexed(values[..|values| - 1]);
    }
  }

  lemma {:induction false} BelowCounted(values: seq<U64>, bound: nat)
    ensures CountBelow(values, bound) <= |values|
  {
    if values != [] {
      BelowCounted(values[..|values| - 1], bound);
    }
  }

  /** No value has a rank past the last. */
  lemma NoneRanked(values: seq<U64>, rank: nat)
    requires rank > |values|
    ensures forall value: U64 :: !IsRanked(values, rank, value)
  {
    forall value: U64
      ensures !IsRanked(values, rank, value)
    {
      BelowCounted(values, value + 1);
    }
  }

  lemma RecordedCounts(values: seq<U64>, value: U64)
    ensures var more := values + [value];
            && SumOf(more) == SaturatingAdd(SumOf(values), value)
            && forall i: nat ::
                 CountIndexed(more, i) == CountIndexed(values, i) + if BucketIndex(value) < i then 1 else 0
  {
    assert (values + [value])[..|values|] == values;
  }

  /** Every rank up to the count has its value. */
  lemma RankedExists(values: seq<U64>, rank: nat) returns (value: U64)
    requires 1 <= rank <= |values|
    ensures IsRanked(values, rank, value)
  {
    AllBelow(values);
    value := RankedUnder(values, rank, U64_MAX + 1);
  }

  lemma {:induction false} AllBelow(values: seq<U64>)
    ensures CountBelow(values, U64_MAX + 1) == |values| && CountBelow(values, 0) == 0
  {
    if values != [] {
      AllBelow(values[..|values| - 1]);
    }
  }

  lemma {:induction false} RankedUnder(values: seq<U64>, rank: nat, bound: nat) returns (value: U64)
    requires 1 <= rank <= CountBelow(values, bound) && bound <= U64_MAX + 1
    ensures IsRanked(values, rank, value)
    decreases bound
  {
    AllBelow(values);
    if CountBelow(values, bound - 1) < rank {
      value := bound - 1;
    } else {
      value := RankedUnder(values, rank, bound - 1);
    }
  }

  // ---------------------------------------------------------------- events that are counted and not timed

  /** `Latency`: durations, and a count that events without a duration raise too. */
  class Latency {
    const buckets: array<nat>
    var count: nat
    var total: nat
    var largest: U64
    ghost var values: seq<U64>
    ghost var untimed: nat

    ghost predicate Valid()
      reads this, buckets
    {
      && count == |values| + untimed && Holding(buckets[..], values) && largest == LargestOf(values)
      && total == WrappedSum(values)
    }

    constructor ()
      ensures Valid() && values == [] && untimed == 0 && fresh(buckets)
    {
      buckets := new nat[BUCKET_COUNT](_ => 0);
      count, total, largest, values, untimed := 0, 0, 0, [], 0;
    }

    /** Adds one duration; the total wraps around. */
    method Record(value: U64)
      requires Valid()
      modifies this, buckets
      ensures Valid() && values == old(values) + [value] && untimed == old(untimed)
    {
      IndexMonotone(value, value);
      var index := Min(BucketIndex(value), BUCKET_COUNT - 1);
      count := count + 1;
      total := (total + value) % (U64_MAX + 1);
      buckets[index] := buckets[index] + 1;
      if value > largest {
        largest := value;
      }
      values := values + [value];
      RecordedCounts(old(values), value);
      assert values[..|old(values)|] == old(values);
    }

    method CountOnly()
      requires Valid()
      modifies this`count, this`untimed
      ensures Valid() && untimed == old(untimed) + 1
    {
      count := count + 1;
      untimed := untimed + 1;
    }

    /** Ranks against everything counted, over the buckets of what was timed. */
    method Percentile(percent: real) returns (p: nat)
      requires Valid()
      ensures p == if count == 0 then 0 else ReportedAt(values, Rank(percent, count))
      ensures count > 0 ==> exists rank :: LeastCovering(percent, count, rank) && p == ReportedAt(values, rank)
    {
      RankCovers(percent, count);
      if count == 0 {
        return 0;
      }
      p := WalkBuckets(buckets, largest, values, Rank(percent, count));
    }
  }

  function WrappedSum(values: seq<U64>): nat {
    if values == [] then 0 else (WrappedSum(values[..|values| - 1]) + values[|values| - 1]) % (U64_MAX + 1)
  }

  /** What is reported with so many events only counted describes the durations alone: it brackets the percentile that
      they have by themselves. */
  ghost predicate DescribesTheTimed(values: seq<U64>, percent: real, untimed: nat) {
    forall value: U64 :: IsRanked(values, Rank(percent, |values|), value) && value < U64_MAX ==>
      value <= ReportedAt(values, Rank(percent, |values| + untimed)) <= value + value / 16
  }

  /** Both counts ask for the same duration, if the last stands for every rank past it. */
  predicate SameRank(percent: real, timed: nat, untimed: nat) {
    Min(Rank(percent, timed + untimed), timed) == Rank(percent, timed)
  }

  lemma SameRankDescribes(values: seq<U64>, percent: real, untimed: nat)
    requires 0.0 <= percent <= 100.0 && values != [] && SameRank(percent, |values|, untimed)
    ensures DescribesTheTimed(values, percent, untimed)
  {
    hide IsRanked, ReportedAt;
    var asked, own := Rank(percent, |values| + untimed), Rank(percent, |values|);
    forall value: U64 | IsRanked(values, own, value) && value < U64_MAX
      ensures value <= ReportedAt(values, asked) <= value + value / 16
    {
      if asked <= |values| {
        ReportBrackets(values, asked, value);
      } else {
        PastTheLast(values, asked);
        LastIsLargest(values, value);
      }
    }
  }

  lemma LastIsLargest(values: seq<U64>, value: U64)
    requires IsRanked(values, |values|, value)
    ensures value == LargestOf(values)
  {
    hide LargestOf;
    LargestIsLargest(values);
    RankedAmong(values, |values|, value);
    if value < LargestOf(values) {
      NotAllBelow(values, value + 1, LargestOf(values));
    }
  }

  lemma {:induction false} NotAllBelow(values: seq<U64>, bound: nat, value: U64)
    requires value in values && value >= bound
    ensures CountBelow(values, bound) < |values|
  {
    var n := |values| - 1;
    if values[n] >= bound {
      BelowCounted(values[..n], bound);
    } else {
      NotAllBelow(values[..n], bound, value);
    }
  }

  function ZerosThenOnes(zeros: nat, ones: nat): (r: seq<U64>)
    ensures |r| == zeros + ones
  {
    if ones > 0 then ZerosThenOnes(zeros, ones - 1) + [1]
    else if zeros > 0 then ZerosThenOnes(zeros - 1, 0) + [0]
    else []
  }

  lemma {:induction false} CountsOfZerosThenOnes(zeros: nat, ones: nat)
    ensures var values := ZerosThenOnes(zeros, ones);
            && CountBelow(values, 0) == 0 && CountBelow(values, 1) == zeros && CountBelow(values, 2) == zeros + ones
            && LargestOf(values) == if ones > 0 then 1 else 0
    decreases ones, zeros
  {
    var values := ZerosThenOnes(zeros, ones);
    if ones > 0 {
      assert values[..|values| - 1] == ZerosThenOnes(zeros, ones - 1);
      CountsOfZerosThenOnes(zeros, ones - 1);
    } else if zeros > 0 {
      assert values[..|values| - 1] == ZerosThenOnes(zeros - 1, 0);
      CountsOfZerosThenOnes(zeros - 1, 0);
    }
  }

  /** With more than the rank's number of zeros the report is off: a rank that moved reports a one for a zero. */
  lemma MovedRankMisdescribes(percent: real, timed: nat, untimed: nat)
    requires 0.0 <= percent <= 100.0 && timed > 0 && !SameRank(percent, timed, untimed)
    ensures var own := Rank(percent, timed);
            own < timed && !DescribesTheTimed(ZerosThenOnes(own, timed - own), percent, untimed)
  {
    RankWithin(percent, timed);
    RankGrows(percent, timed, timed + untimed);
    hide Rank, ReportedAt, CountBelow, ZerosThenOnes, LargestOf;
    var own, asked := Rank(percent, timed), Rank(percent, timed + untimed);
    var values := ZerosThenOnes(own, timed - own);
    CountsOfZerosThenOnes(own, timed - own);
    assert IsRanked(values, own, 0);
    if asked <= timed {
      assert IsRanked(values, asked, 1);
      ReportBrackets(values, asked, 1);
    } else {
      PastTheLast(values, asked);
    }
  }

  lemma RankGrows(percent: real, fewer: nat, more: nat)
    requires 0.0 <= percent && fewer <= more
    ensures Rank(percent, fewer) <= Rank(percent, more)
  {
    hide Ceiling, Share;
    ShareGrows(percent, fewer, more);
    CeilingGrows(Share(percent, fewer), Share(percent, more));
  }

  lemma ShareGrows(percent: real, fewer: nat, more: nat)
    requires 0.0 <= percent && fewer <= more
    ensures Share(percent, fewer) <= Share(percent, more)
  {
    ProductGrows(percent / 100.0, fewer as real, more as real);
  }

  lemma ProductGrows(part: real, fewer: real, more: real)
    requires part >= 0.0 && fewer <= more
    ensures part * fewer <= part * more
  {
  }

  lemma CeilingGrows(x: real, y: real)
    requires x <= y
    ensures Ceiling(x) <= Ceiling(y)
  {
    assert x.Floor as real <= x < x.Floor as real + 1.0 && y.Floor as real <= y < y.Floor as real + 1.0;
  }

  /** Counting events leaves the percentile of so many durations, whatever they are, exactly when both counts ask for
      the same duration. */
  lemma CountOnlyKeepsThePercentile(percent: real, timed: nat, untimed: nat)
    requires 0.0 <= percent <= 100.0 && timed > 0
    ensures (forall values: seq<U64> :: |values| == timed ==> DescribesTheTimed(values, percent, untimed))
            <==> SameRank(percent, timed, untimed)
  {
    hide DescribesTheTimed, SameRank, ZerosThenOnes, Rank;
    if SameRank(percent, timed, untimed) {
      forall values: seq<U64> | |values| == timed
        ensures DescribesTheTimed(values, percent, untimed)
      {
        SameRankDescribes(values, percent, untimed);
      }
    } else {
      MovedRankMisdescribes(percent, timed, untimed);
    }
  }

  /** With 1 ns and 100 ns timed and two events only counted, the median reported is 100 ns; that of the two
      durations is 1 ns. */
  lemma CountOnlyMovesTheMedian()
    ensures var timed: seq<U64> := [1, 100];
            && IsRanked(timed, Rank(50.0, 2), 1) && IsRanked(timed, Rank(50.0, 2 + 2), 100)
            && ReportedAt(timed, Rank(50.0, 2 + 2)) == 100 && !DescribesTheTimed(timed, 50.0, 2)
  {
    var timed: seq<U64> := [1, 100];
    assert timed[..1] == [1] && timed[..1][..0] == [];
    assert Rank(50.0, 2) == 1 && Rank(50.0, 4) == 2;
    assert CountBelow(timed[..1], 1) == 0 && CountBelow(timed[..1], 2) == 1;
    assert CountBelow(timed[..1], 100) == 1 && CountBelow(timed[..1], 101) == 1;
    assert LargestOf(timed[..1]) == 1 && LargestOf(timed) == 100;
    assert IsRanked(timed, 1, 1) && IsRanked(timed, 2, 100);
    hide IsRanked, LargestOf, BucketIndex, UpperBound;
    ReportBrackets(timed, 2, 100);
    assert ReportedAt(timed, 2) <= LargestOf(timed);
    assert 100 <= ReportedAt(timed, 2);
    assert IsRanked(timed, Rank(50.0, |timed|), 1) && ReportedAt(timed, Rank(50.0, |timed| + 2)) == 100;
  }
}
