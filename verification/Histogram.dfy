/** The streaming latency histogram of `common/persistence.c`.

    Each accepted payload yields one sample: four differences to the previous
    accepted payload's timestamps, and one latency.  The agent keeps only a
    table of counters, running minima and maxima and the previous payload; here
    it is checked against plain counts over the list of samples. */
module Histogram {
  import opened Numbers
  import opened Payload

  const NUM_BUCKETS: nat := 20000
  const OFFSET: nat := 1000000
  const ROWS: nat := 20002          // one below, NUM_BUCKETS inside, one above
  const COLUMNS: nat := 5           // rel_latency[0..3], abs_latency
  const ABS: nat := 4

  /** The two's complement reading of a 64-bit word, as the int64_t parameters make it. */
  function AsInt64(x: nat): (r: int)
    ensures r == x || r == x - TWO_TO_64
    ensures x < TWO_TO_64 ==> 0 <= r + TWO_TO_63 && r < TWO_TO_63
  {
    if x < TWO_TO_63 then x else x - TWO_TO_64
  }

  // -------------------------------------------------------------- buckets

  /** The bounds of a range, as the int64_t parameters of `bucket_idx`. */
  datatype Range = Range(min: int, max: int)

  /** `bucket_idx` does not divide by zero: it has no value to divide, or buckets of some size. */
  predicate Sound(r: Range) {
    r.max < r.min || (r.max - r.min) / NUM_BUCKETS > 0
  }

  function BucketSize(r: Range): (n: int)
    requires Sound(r) && r.min <= r.max
    ensures n > 0
  {
    (r.max - r.min) / NUM_BUCKETS
  }

  function BucketIdx(val: int, r: Range): nat
    requires Sound(r)
  {
    if val < r.min then 0
    else if val > r.max then NUM_BUCKETS + 1
    else (val - r.min) / BucketSize(r) + 1
  }

  // The bounds that `bucket_ranges` computes, in wrapping 64-bit arithmetic.

  function RelMin(interval: nat): nat { if interval < OFFSET then 0 else interval - OFFSET }

  function RelMax(interval: nat): nat { if interval < OFFSET then 2 * OFFSET else (interval + OFFSET) % TWO_TO_64 }

  function AbsMax(interval: nat): nat { (interval + OFFSET) % TWO_TO_64 }

  /** The intervals for which the absolute range wraps around to less than one unit a bucket. */
  predicate DividesByZero(interval: nat) {
    TWO_TO_64 - OFFSET <= interval < TWO_TO_64 - OFFSET + NUM_BUCKETS
  }

  /** A 64-bit send interval that `bucket_idx` can work with. */
  type Interval = n: nat | n < TWO_TO_64 && !DividesByZero(n)

  lemma SoundExactlyWhen(interval: nat)
    requires interval < TWO_TO_64
    ensures Sound(Range(0, AsInt64(AbsMax(interval)))) <==> !DividesByZero(interval)
    ensures Sound(Range(AsInt64(RelMin(interval)), AsInt64(RelMax(interval))))
  {
    if interval + OFFSET >= TWO_TO_64 {
      assert AbsMax(interval) == interval + OFFSET - TWO_TO_64;
    } else {
      assert AbsMax(interval) == interval + OFFSET;
    }
  }

  function RelRange(interval: Interval): (r: Range)
    ensures Sound(r)
  {
    SoundExactlyWhen(interval);
    Range(AsInt64(RelMin(interval)), AsInt64(RelMax(interval)))
  }

  function AbsRange(interval: Interval): (r: Range)
    ensures Sound(r)
  {
    SoundExactlyWhen(interval);
    Range(0, AsInt64(AbsMax(interval)))
  }

  /** Where the ranges lie, in plain numbers: OFFSET to both sides of the interval, or from 0 for
      a shorter one, and from 0 to the interval plus OFFSET; bounds from 2^63 on are negative
      as int64_t. */
  lemma RangesLieAroundTheInterval(interval: Interval)
    ensures interval < OFFSET ==> RelRange(interval) == Range(0, 2000000)
    ensures OFFSET <= interval < TWO_TO_63 - OFFSET ==> RelRange(interval) == Range(interval - OFFSET, interval + OFFSET)
    ensures TWO_TO_63 - OFFSET <= interval < TWO_TO_63 + OFFSET ==>
      RelRange(interval) == Range(interval - OFFSET, interval + OFFSET - TWO_TO_64)
    ensures TWO_TO_63 + OFFSET <= interval ==>
      RelRange(interval) == Range(interval - OFFSET - TWO_TO_64, interval + OFFSET - TWO_TO_64)
    ensures AbsRange(interval) ==
      Range(0, if interval < TWO_TO_63 - OFFSET then interval + OFFSET else interval + OFFSET - TWO_TO_64)
  {
    var n: int := interval;
    if n + OFFSET >= TWO_TO_64 {
      assert RelMax(interval) == AbsMax(interval) == n + OFFSET - TWO_TO_64;
    } else {
      assert AbsMax(interval) == n + OFFSET;
    }
  }

  /** Around 2^63 the upper bound is negative when read as int64_t, and the lower one is not. */
  predicate Ordered(interval: nat) {
    interval < TWO_TO_63 - OFFSET || interval >= TWO_TO_63 + OFFSET
  }

  lemma DivMonotone(a: int, b: int, d: int)
    requires a <= b && d > 0
    ensures a / d <= b / d
  {
    DivAtMost(b, d, b / d);
    DivAtMost(a, d, b / d);
  }

  lemma MulMonotone(d: int, x: int, y: int)
    requires d > 0 && x <= y
    ensures d * x <= d * y
  {
    assert d * (y - x) >= 0;
  }

  lemma DivAtMost(a: int, d: int, q: int)
    requires d > 0
    ensures a / d <= q <==> a < d * q + d
  {
    var k := a / d;
    assert d * k <= a < d * k + d;
    if k <= q {
      MulMonotone(d, k, q);
    } else {
      MulMonotone(d, q + 1, k);
      assert d * (q + 1) == d * q + d;
    }
  }

  /** A larger value never falls into a smaller bucket below the top one. */
  lemma BucketIdxIsMonotone(v: int, w: int, r: Range)
    requires Sound(r) && v <= w <= r.max
    ensures BucketIdx(v, r) <= BucketIdx(w, r)
  {
    if r.min <= v {
      DivMonotone(v - r.min, w - r.min, BucketSize(r));
    }
  }

  /** Where the relative range begins. */
  function Low(interval: Interval): int {
    if interval < 1000000 then 0
    else if interval < TWO_TO_63 + 1000000 then interval - 1000000
    else interval - 1000000 - TWO_TO_64
  }

  /** In the relative range bucket b holds exactly the 100 values from Low + 100 (b - 1): the
      inner buckets tile the range evenly and the two outer ones take the rest.  For intervals
      around 2^63 the inner buckets stay empty. */
  lemma RelativeBucketsTile(val: int, interval: Interval, b: nat)
    ensures BucketIdx(val, RelRange(interval)) <= NUM_BUCKETS + 1
    ensures BucketIdx(val, RelRange(interval)) == b <==>
      if b == 0 then val < Low(interval)
      else if b <= 20000 then Ordered(interval) && Low(interval) + 100 * (b - 1) <= val < Low(interval) + 100 * b
      else b == 20001 && val >= Low(interval) + if Ordered(interval) then 2000000 else 0
  {
    RangesLieAroundTheInterval(interval);
    var r := RelRange(interval);
    if Ordered(interval) {
      assert r.max == r.min + 2000000;
      assert BucketSize(r) == 100;
    }
  }

  lemma RelativeIdxIsMonotone(v: int, w: int, interval: Interval)
    requires v <= w
    ensures BucketIdx(v, RelRange(interval)) <= BucketIdx(w, RelRange(interval)) <= NUM_BUCKETS + 1
  {
    RelativeBucketsTile(v, interval, 0);
    RelativeBucketsTile(w, interval, 0);
    if w <= RelRange(interval).max {
      BucketIdxIsMonotone(v, w, RelRange(interval));
    }
  }

  /** The upper bound is negative as int64_t, or the last bucket is long enough for the rest. */
  predicate AbsoluteFits(interval: nat) {
    var max := AbsMax(interval);
    max >= TWO_TO_63 || max % NUM_BUCKETS < max / NUM_BUCKETS
  }

  /** The absolute index of every latency stays inside the table exactly for these intervals. */
  lemma AbsoluteIdxInTableExactlyWhen(interval: Interval)
    ensures (forall val: int :: 0 <= val < TWO_TO_63 ==> BucketIdx(val, AbsRange(interval)) < ROWS)
       <==> AbsoluteFits(interval)
  {
    var r := AbsRange(interval);
    if AbsMax(interval) < TWO_TO_63 {
      TopIdxInTableExactlyWhen(interval);
    }
    if AbsoluteFits(interval) {
      forall val: int | 0 <= val < TWO_TO_63
        ensures BucketIdx(val, r) < ROWS
      {
        if val <= r.max {
          BucketIdxIsMonotone(val, r.max, r);
        }
      }
    } else {
      assert BucketIdx(r.max, r) >= ROWS;
    }
  }

  lemma TopIdxInTableExactlyWhen(interval: Interval)
    requires AbsMax(interval) < TWO_TO_63
    ensures BucketIdx(AbsMax(interval), AbsRange(interval)) < ROWS <==> AbsoluteFits(interval)
  {
    var max := AbsMax(interval);
    var size, rest := max / NUM_BUCKETS, max % NUM_BUCKETS;
    assert BucketSize(AbsRange(interval)) == size;
    assert max == size * NUM_BUCKETS + rest;
    TopIdx(size, rest);
  }

  lemma TopIdx(size: int, rest: int)
    requires size > 0 && rest >= 0
    ensures (size * NUM_BUCKETS + rest) / size <= NUM_BUCKETS <==> rest < size
  {
    DivAtMost(size * NUM_BUCKETS + rest, size, NUM_BUCKETS);
  }

  /** With a 50 ns send interval, a latency of exactly the maximum lies beyond the table. */
  lemma AbsoluteIdxCanLeaveTheTable()
    ensures !AbsoluteFits(50) && BucketIdx(1000050, AbsRange(50)) == ROWS
  {
  }

  // -------------------------------------------------- samples, from the history

  datatype Sample = Sample(diffs: seq<nat>, latency: nat)

  predicate WellFormed(x: Sample) {
    |x.diffs| == 4 && x.latency < TWO_TO_63 && forall i :: 0 <= i < 4 ==> x.diffs[i] <= UINT64_MAX
  }

  function Value(x: Sample, c: nat): nat
    requires WellFormed(x) && c < COLUMNS
  {
    if c == ABS then x.latency else x.diffs[c]
  }

  function RangeOf(interval: Interval, c: nat): (r: Range)
    ensures Sound(r)
  {
    if c == ABS then AbsRange(interval) else RelRange(interval)
  }

  // Which values belong into which bucket, in plain numbers.

  /** Inner bucket b takes the 100 differences from Low + 100 (b - 1) on; bucket 0 those below
      and the last one those above.  Differences from 2^63 on are taken for negative ones. */
  predicate InRelative(interval: Interval, diff: nat, b: nat) {
    var v := if diff < TWO_TO_63 then diff else diff - TWO_TO_64;
    if b == 0 then v < Low(interval)
    else if b <= 20000 then Ordered(interval) && Low(interval) + 100 * (b - 1) <= v < Low(interval) + 100 * b
    else b == 20001 && v >= Low(interval) + if Ordered(interval) then 2000000 else 0
  }

  /** Where the absolute range ends. */
  function Top(interval: Interval): int {
    if interval + 1000000 < TWO_TO_64 then interval + 1000000 else interval + 1000000 - TWO_TO_64
  }

  /** Latencies up to Top are split into buckets of Top / 20000, of which there may be more than
      20000; those above belong into bucket 20001, and so do all if Top is negative as int64_t. */
  predicate InAbsolute(interval: Interval, latency: nat, b: nat) {
    var top := Top(interval);
    var size := top / 20000;
    if top >= TWO_TO_63 || latency > top then b == 20001
    else b >= 1 && size * (b - 1) <= latency < size * b
  }

  /** Sample x belongs into bucket b of column c. */
  predicate Belongs(interval: Interval, x: Sample, c: nat, b: nat)
    requires WellFormed(x) && c < COLUMNS
  {
    if c < 4 then InRelative(interval, x.diffs[c], b) else InAbsolute(interval, x.latency, b)
  }

  lemma RelativeCellExactlyWhen(interval: Interval, x: Sample, c: nat, b: nat)
    requires WellFormed(x) && c < 4
    ensures Cell(interval, x, c) == b <==> InRelative(interval, x.diffs[c], b)
  {
    RelativeBucketsTile(AsInt64(x.diffs[c]), interval, b);
  }

  lemma DivExactlyWhen(a: int, d: int, q: int)
    requires d > 0
    ensures a / d == q <==> d * q <= a < d * (q + 1)
  {
    DivAtMost(a, d, q);
    DivAtMost(a, d, q - 1);
    assert d * (q + 1) == d * q + d;
    assert d * (q - 1) + d == d * q;
  }

  lemma AbsoluteCellExactlyWhen(interval: Interval, x: Sample, b: nat)
    requires WellFormed(x)
    ensures Cell(interval, x, ABS) == b <==> InAbsolute(interval, x.latency, b)
  {
    RangesLieAroundTheInterval(interval);
    var r := AbsRange(interval);
    if x.latency <= r.max {
      assert r.max == Top(interval) < TWO_TO_63;
      IdxFromZeroExactlyWhen(x.latency, r, b);
    } else {
      assert Cell(interval, x, ABS) == 20001;
    }
  }

  lemma IdxFromZeroExactlyWhen(val: int, r: Range, b: nat)
    requires Sound(r) && r.min == 0 <= val <= r.max
    ensures BucketIdx(val, r) == b <==> b >= 1 && r.max / 20000 * (b - 1) <= val < r.max / 20000 * b
  {
    DivExactlyWhen(val, BucketSize(r), b - 1);
  }

  /** The bucket of a sample, in plain numbers: it belongs there and nowhere else. */
  lemma CellExactlyWhen(interval: Interval, x: Sample, c: nat, b: nat)
    requires WellFormed(x) && c < COLUMNS
    ensures Cell(interval, x, c) == b <==> Belongs(interval, x, c, b)
  {
    if c < 4 {
      RelativeCellExactlyWhen(interval, x, c, b);
    } else {
      AbsoluteCellExactlyWhen(interval, x, b);
    }
  }

  /** The bucket that sample x falls into in column c. */
  function Cell(interval: Interval, x: Sample, c: nat): nat
    requires WellFormed(x) && c < COLUMNS
  {
    BucketIdx(AsInt64(Value(x, c)), RangeOf(interval, c))
  }

  /** No timestamp goes back. */
  predicate NotBefore(prev: Payload, p: Payload)
    requires Fits(prev) && Fits(p)
  {
    forall i :: 0 <= i < 4 ==> prev.ts[i] <= p.ts[i]
  }

  function SampleOf(prev: Payload, p: Payload): (x: Sample)
    requires Fits(prev) && Fits(p) && NotBefore(prev, p)
    ensures WellFormed(x)
  {
    Sample([p.ts[0] - prev.ts[0], p.ts[1] - prev.ts[1], p.ts[2] - prev.ts[2], p.ts[3] - prev.ts[3]],
           ComputeLatency(p))
  }

  /** What the step from prev to p adds to bucket b of column c: one where its difference or its
      latency belongs. */
  function Increment(interval: Interval, prev: Payload, p: Payload, b: nat, c: nat): nat
    requires Fits(prev) && Fits(p) && NotBefore(prev, p) && c < COLUMNS
  {
    if (if c < 4 then InRelative(interval, p.ts[c] - prev.ts[c], b) else InAbsolute(interval, ComputeLatency(p), b))
    then 1 else 0
  }

  lemma StepBelongs(interval: Interval, prev: Payload, p: Payload, b: nat, c: nat)
    requires Fits(prev) && Fits(p) && NotBefore(prev, p) && c < COLUMNS
    ensures Increment(interval, prev, p, b, c) == if Belongs(interval, SampleOf(prev, p), c, b) then 1 else 0
  {
    if c < 4 {
      assert SampleOf(prev, p).diffs[c] == p.ts[c] - prev.ts[c];
    }
  }

  datatype Verdict = First | Rejected | Accepted

  /** What becomes of p after prev: kept as a first reference, refused, or counted. */
  function Judge(prev: Payload, p: Payload): Verdict
    requires Fits(prev) && Fits(p)
  {
    if !ValidPayload(prev) then First
    else if NotBefore(prev, p) then Accepted
    else Rejected
  }

  predicate AllFit(ps: seq<Payload>) {
    forall k :: 0 <= k < |ps| ==> Fits(ps[k])
  }

  /** prev_payload after ps: all zero at first. */
  function Prev(ps: seq<Payload>): (p: Payload)
    requires AllFit(ps)
    ensures Fits(p)
  {
    if ps == [] then Payload(0, [0, 0, 0, 0], 0)
    else
      var prev, p := Prev(ps[..|ps| - 1]), ps[|ps| - 1];
      if Judge(prev, p).Rejected? then prev else p
  }

  /** The samples of the accepted payloads of ps, in order. */
  function Samples(ps: seq<Payload>): (xs: seq<Sample>)
    requires AllFit(ps)
    ensures forall k :: 0 <= k < |xs| ==> WellFormed(xs[k])
  {
    if ps == [] then []
    else
      var prev, p := Prev(ps[..|ps| - 1]), ps[|ps| - 1];
      Samples(ps[..|ps| - 1]) + if Judge(prev, p).Accepted? then [SampleOf(prev, p)] else []
  }

  /** What one more payload adds. */
  lemma OneMore(ps: seq<Payload>, p: Payload)
    requires AllFit(ps) && Fits(p)
    ensures AllFit(ps + [p])
    ensures Prev(ps + [p]) == if Judge(Prev(ps), p).Rejected? then Prev(ps) else p
    ensures Samples(ps + [p]) == if Judge(Prev(ps), p).Accepted? then Samples(ps) + [SampleOf(Prev(ps), p)] else Samples(ps)
  {
    assert (ps + [p])[..|ps|] == ps;
  }

  /** How many payloads of ps met a given verdict. */
  function Verdicts(ps: seq<Payload>, v: Verdict): nat
    requires AllFit(ps)
  {
    if ps == [] then 0
    else Verdicts(ps[..|ps| - 1], v) + if Judge(Prev(ps[..|ps| - 1]), ps[|ps| - 1]) == v then 1 else 0
  }

  predicate AllWellFormed(xs: seq<Sample>) {
    forall k :: 0 <= k < |xs| ==> WellFormed(xs[k])
  }

  /** How many samples fall into bucket b of column c: a plain count. */
  function CountIn(interval: Interval, xs: seq<Sample>, b: nat, c: nat): nat
    requires AllWellFormed(xs) && c < COLUMNS
  {
    if xs == [] then 0
    else CountIn(interval, xs[..|xs| - 1], b, c) + if Belongs(interval, xs[|xs| - 1], c, b) then 1 else 0
  }

  function MinOf(xs: seq<Sample>, c: nat): (m: nat)
    requires AllWellFormed(xs) && c < COLUMNS
    ensures forall k :: 0 <= k < |xs| ==> m <= Value(xs[k], c)
    ensures if xs == [] then m == UINT64_MAX else exists k :: 0 <= k < |xs| && m == Value(xs[k], c)
  {
    if xs == [] then UINT64_MAX
    else
      var m, v := MinOf(xs[..|xs| - 1], c), Value(xs[|xs| - 1], c);
      if v < m then v else m
  }

  function MaxOf(xs: seq<Sample>, c: nat): (m: nat)
    requires AllWellFormed(xs) && c < COLUMNS
    ensures forall k :: 0 <= k < |xs| ==> Value(xs[k], c) <= m
    ensures if xs == [] then m == 0 else exists k :: 0 <= k < |xs| && m == Value(xs[k], c)
  {
    if xs == [] then 0
    else
      var m, v := MaxOf(xs[..|xs| - 1], c), Value(xs[|xs| - 1], c);
      if v > m then v else m
  }

  // ---------------------------------------------------------- what it adds up to

  /** The sum of the first n cells of column c. */
  function ColumnSum(interval: Interval, xs: seq<Sample>, c: nat, n: nat): nat
    requires AllWellFormed(xs) && c < COLUMNS
  {
    if n == 0 then 0 else ColumnSum(interval, xs, c, n - 1) + CountIn(interval, xs, n - 1, c)
  }

  lemma {:induction false} ColumnSumOfNone(interval: Interval, c: nat, n: nat)
    requires c < COLUMNS
    ensures ColumnSum(interval, [], c, n) == 0
  {
    if n > 0 {
      ColumnSumOfNone(interval, c, n - 1);
    }
  }

  /** One more sample adds one to the column, once its own cell has been reached. */
  lemma {:induction false} ColumnSumGrows(interval: Interval, xs: seq<Sample>, c: nat, n: nat)
    requires AllWellFormed(xs) && c < COLUMNS && xs != []
    ensures ColumnSum(interval, xs, c, n)
         == ColumnSum(interval, xs[..|xs| - 1], c, n) + if Cell(interval, xs[|xs| - 1], c) < n then 1 else 0
  {
    if n > 0 {
      ColumnSumGrows(interval, xs, c, n - 1);
      CellExactlyWhen(interval, xs[|xs| - 1], c, n - 1);
    }
  }

  /** Every column of the table adds up to the number of samples. */
  lemma {:induction false} ColumnAddsUpToSamples(interval: Interval, xs: seq<Sample>, c: nat)
    requires AllWellFormed(xs) && c < COLUMNS
    requires forall k :: 0 <= k < |xs| ==> Cell(interval, xs[k], c) < ROWS
    ensures ColumnSum(interval, xs, c, ROWS) == |xs|
  {
    if xs == [] {
      ColumnSumOfNone(interval, c, ROWS);
    } else {
      ColumnAddsUpToSamples(interval, xs[..|xs| - 1], c);
      ColumnSumGrows(interval, xs, c, ROWS);
    }
  }

  /** Every payload is a first one, a refused one or a counted one. */
  lemma {:induction false} VerdictsAddUp(ps: seq<Payload>)
    requires AllFit(ps)
    ensures |ps| == Verdicts(ps, First) + Verdicts(ps, Rejected) + Verdicts(ps, Accepted)
    ensures |Samples(ps)| == Verdicts(ps, Accepted)
  {
    if ps != [] {
      VerdictsAddUp(ps[..|ps| - 1]);
    }
  }

  predicate AllValid(ps: seq<Payload>) {
    forall k :: 0 <= k < |ps| ==> ValidPayload(ps[k])
  }

  /** In a run of valid payloads exactly the first one is taken as a reference. */
  lemma {:induction false} OneFirst(ps: seq<Payload>)
    requires AllFit(ps) && AllValid(ps) && ps != []
    ensures Verdicts(ps, First) == 1
    ensures ValidPayload(Prev(ps))
  {
    var rest := ps[..|ps| - 1];
    if rest != [] {
      OneFirst(rest);
    } else {
      assert Verdicts(rest, First) == 0;
    }
  }

  /** The payloads that became prev_payload: the first one and the accepted ones. */
  function Taken(ps: seq<Payload>): (ts: seq<Payload>)
    requires AllFit(ps)
    ensures AllFit(ts)
  {
    if ps == [] then []
    else
      var prev, p := Prev(ps[..|ps| - 1]), ps[|ps| - 1];
      Taken(ps[..|ps| - 1]) + if Judge(prev, p).Rejected? then [] else [p]
  }

  /** x holds the four differences from prev to p, none negative, and the latency of p. */
  predicate IsStep(x: Sample, prev: Payload, p: Payload)
    requires Fits(prev) && Fits(p)
  {
    && |x.diffs| == 4
    && (forall i :: 0 <= i < 4 ==> prev.ts[i] + x.diffs[i] == p.ts[i])
    && x.latency == ComputeLatency(p)
  }

  /** Sample k is the step from payload k to payload k + 1. */
  predicate Steps(ts: seq<Payload>, xs: seq<Sample>)
    requires AllFit(ts)
  {
    |ts| == |xs| + 1 && forall k :: 0 <= k < |xs| ==> IsStep(xs[k], ts[k], ts[k + 1])
  }

  lemma StepsExtend(ts: seq<Payload>, xs: seq<Sample>, p: Payload)
    requires AllFit(ts) && Steps(ts, xs) && Fits(p) && NotBefore(ts[|xs|], p)
    ensures AllFit(ts + [p]) && Steps(ts + [p], xs + [SampleOf(ts[|xs|], p)])
  {
    var ts', xs' := ts + [p], xs + [SampleOf(ts[|xs|], p)];
    forall k | 0 <= k < |xs'|
      ensures IsStep(xs'[k], ts'[k], ts'[k + 1])
    {
      if k < |xs| {
        assert IsStep(xs[k], ts[k], ts[k + 1]);
      }
    }
  }

  /** In a run of valid payloads the samples are the steps between consecutive taken
      payloads, so every timestamp of the taken payloads goes up along the run. */
  lemma {:induction false} SamplesAreSteps(ps: seq<Payload>)
    requires AllFit(ps) && AllValid(ps) && ps != []
    ensures Steps(Taken(ps), Samples(ps))
    ensures Taken(ps)[0] == ps[0] && Taken(ps)[|Samples(ps)|] == Prev(ps)
  {
    var rest, p := ps[..|ps| - 1], ps[|ps| - 1];
    if rest == [] {
      assert Taken(rest) == [] && Samples(rest) == [];
    } else {
      SamplesAreSteps(rest);
      OneFirst(rest);
      var ts, xs := Taken(rest), Samples(rest);
      if NotBefore(Prev(rest), p) {
        StepsExtend(ts, xs, p);
        assert Taken(ps) == ts + [p] && Samples(ps) == xs + [SampleOf(ts[|xs|], p)];
      } else {
        assert Taken(ps) == ts && Samples(ps) == xs;
      }
    }
  }

  function DiffSum(xs: seq<Sample>, i: nat): nat
    requires AllWellFormed(xs) && i < 4
  {
    if xs == [] then 0 else DiffSum(xs[..|xs| - 1], i) + xs[|xs| - 1].diffs[i]
  }

  lemma {:induction false} StepsTelescope(ts: seq<Payload>, xs: seq<Sample>, i: nat)
    requires AllFit(ts) && AllWellFormed(xs) && i < 4
    requires Steps(ts, xs)
    ensures ts[0].ts[i] + DiffSum(xs, i) == ts[|xs|].ts[i]
  {
    if xs != [] {
      StepsTelescope(ts[..|xs|], xs[..|xs| - 1], i);
    }
  }

  /** The differences telescope: from the first payload they add up to the last accepted one. */
  lemma DifferencesTelescope(ps: seq<Payload>, i: nat)
    requires AllFit(ps) && AllValid(ps) && ps != [] && i < 4
    ensures ps[0].ts[i] + DiffSum(Samples(ps), i) == Prev(ps).ts[i]
  {
    SamplesAreSteps(ps);
    StepsTelescope(Taken(ps), Samples(ps), i);
  }

  /** A whole run of valid payloads: the packets are the first one, the refused ones and the
      samples, and each of the five columns of the table adds up to the samples. */
  lemma RunAddsUp(interval: Interval, ps: seq<Payload>)
    requires AllFit(ps) && AllValid(ps) && ps != []
    requires forall k :: 0 <= k < |Samples(ps)| ==> Cell(interval, Samples(ps)[k], ABS) < ROWS
    ensures |ps| == 1 + Verdicts(ps, Rejected) + |Samples(ps)|
    ensures forall c :: 0 <= c < COLUMNS ==> ColumnSum(interval, Samples(ps), c, ROWS) == |Samples(ps)|
  {
    VerdictsAddUp(ps);
    OneFirst(ps);
    forall c | 0 <= c < COLUMNS
      ensures ColumnSum(interval, Samples(ps), c, ROWS) == |Samples(ps)|
    {
      forall k | 0 <= k < |Samples(ps)|
        ensures Cell(interval, Samples(ps)[k], c) < ROWS
      {
        if c != ABS {
          RelativeBucketsTile(AsInt64(Value(Samples(ps)[k], c)), interval, 0);
        }
      }
      ColumnAddsUpToSamples(interval, Samples(ps), c);
    }
  }

  // ------------------------------------------------------- the code, in place

  /** `struct bucket_data`. */
  class BucketData {
    var totPackets: nat
    const sendInterval: Interval
    const minValues: array<nat>
    const maxValues: array<nat>
    const buckets: array2<nat>
    var prevPayload: Payload
    ghost var history: seq<Payload>    // every payload written so far

    ghost predicate Shape() {
      && minValues.Length == maxValues.Length == COLUMNS && minValues != maxValues
      && buckets.Length0 == ROWS && buckets.Length1 == COLUMNS
    }

    /** Column c holds the minimum, the maximum and the counts of the samples xs. */
    ghost predicate Holds(xs: seq<Sample>, c: nat)
      requires Shape() && AllWellFormed(xs) && c < COLUMNS
      reads minValues, maxValues, buckets
    {
      && minValues[c] == MinOf(xs, c)
      && maxValues[c] == MaxOf(xs, c)
      && forall b :: 0 <= b < ROWS ==> buckets[b, c] == CountIn(sendInterval, xs, b, c)
    }

    ghost predicate Valid()
      reads this, minValues, maxValues, buckets
    {
      && Shape()
      && AllFit(history)
      && totPackets == |history|
      && prevPayload == Prev(history)
      && forall c :: 0 <= c < COLUMNS ==> Holds(Samples(history), c)
    }

    /** `persistence_init_buckets` */
    constructor (interval: Interval)
      ensures Valid() && history == [] && sendInterval == interval
      ensures fresh(minValues) && fresh(maxValues) && fresh(buckets)
    {
      totPackets, sendInterval := 0, interval;
      minValues := new nat[COLUMNS](_ => UINT64_MAX);
      maxValues := new nat[COLUMNS](_ => 0);
      buckets := new nat[ROWS, COLUMNS]((_, _) => 0);
      prevPayload := Payload(0, [0, 0, 0, 0], 0);
      history := [];
    }

    /** Minimum, maximum and counter of one column, for one more sample. */
    method Tally(c: nat, v: nat, ghost xs: seq<Sample>, ghost x: Sample)
      requires Shape() && c < COLUMNS && AllWellFormed(xs) && WellFormed(x)
      requires v == Value(x, c) && Cell(sendInterval, x, c) < ROWS
      requires Holds(xs, c)
      modifies minValues, maxValues, buckets
      ensures Holds(xs + [x], c)
      ensures forall d :: 0 <= d < COLUMNS && d != c ==>
        minValues[d] == old(minValues[d]) && maxValues[d] == old(maxValues[d])
      ensures forall b, d :: 0 <= b < ROWS && 0 <= d < COLUMNS && d != c ==> buckets[b, d] == old(buckets[b, d])
    {
      assert (xs + [x])[..|xs|] == xs;
      if v < minValues[c] {
        minValues[c] := v;
      }
      if v > maxValues[c] {
        maxValues[c] := v;
      }
      var idx := BucketIdx(AsInt64(v), RangeOf(sendInterval, c));
      forall b | 0 <= b < ROWS
        ensures Belongs(sendInterval, x, c, b) <==> b == idx
      {
        CellExactlyWhen(sendInterval, x, c, b);
      }
      buckets[idx, c] := buckets[idx, c] + 1;
    }

    /** The same, for the column whose turn it is: those before it are done, those after it are not. */
    method TallyNext(c: nat, v: nat, ghost xs: seq<Sample>, ghost x: Sample)
      requires Shape() && c < COLUMNS && AllWellFormed(xs) && WellFormed(x)
      requires v == Value(x, c) && Cell(sendInterval, x, c) < ROWS
      requires forall d :: 0 <= d < c ==> Holds(xs + [x], d)
      requires forall d :: c <= d < COLUMNS ==> Holds(xs, d)
      modifies minValues, maxValues, buckets
      ensures forall d :: 0 <= d <= c ==> Holds(xs + [x], d)
      ensures forall d :: c < d < COLUMNS ==> Holds(xs, d)
    {
      Tally(c, v, xs, x);
      forall d | 0 <= d < c
        ensures Holds(xs + [x], d)
      {
        assert old(Holds(xs + [x], d));
        forall b | 0 <= b < ROWS
          ensures buckets[b, d] == CountIn(sendInterval, xs + [x], b, d)
        {
          assert buckets[b, d] == old(buckets[b, d]);
        }
      }
      forall d | c < d < COLUMNS
        ensures Holds(xs, d)
      {
        assert old(Holds(xs, d));
        forall b | 0 <= b < ROWS
          ensures buckets[b, d] == CountIn(sendInterval, xs, b, d)
        {
          assert buckets[b, d] == old(buckets[b, d]);
        }
      }
    }

    /** The loop over the timestamps: their differences, unless one goes back. */
    method Differences(p: Payload) returns (ok: bool, diffs: seq<nat>)
      requires Fits(prevPayload) && Fits(p)
      ensures ok <==> NotBefore(prevPayload, p)
      ensures ok ==> diffs == SampleOf(prevPayload, p).diffs
    {
      diffs := [];
      for i := 0 to 4
        invariant |diffs| == i
        invariant forall k :: 0 <= k < i ==> prevPayload.ts[k] <= p.ts[k] && diffs[k] == p.ts[k] - prevPayload.ts[k]
      {
        if p.ts[i] < prevPayload.ts[i] {
          return false, diffs;
        }
        diffs := diffs + [p.ts[i] - prevPayload.ts[i]];
      }
      return true, diffs;
    }

    /** The extremes after the step from prev to p has been counted. */
    ghost predicate Counted(prev: Payload, p: Payload, mins: seq<nat>, maxs: seq<nat>)
      requires Shape() && Fits(prev) && Fits(p) && NotBefore(prev, p) && |mins| == |maxs| == COLUMNS
      reads minValues, maxValues
    {
      && (forall c :: 0 <= c < 4 ==>
            && minValues[c] == Min(mins[c], p.ts[c] - prev.ts[c])
            && maxValues[c] == Max(maxs[c], p.ts[c] - prev.ts[c]))
      && minValues[ABS] == Min(mins[ABS], ComputeLatency(p))
      && maxValues[ABS] == Max(maxs[ABS], ComputeLatency(p))
    }

    /** `persistence_write_buckets`.  The C code indexes the table without a check: the
        latency of an accepted payload must fall inside it. */
    method WriteBuckets(p: Payload) returns (status: int)
      requires Valid() && Fits(p)
      requires Judge(prevPayload, p).Accepted? ==> Cell(sendInterval, SampleOf(prevPayload, p), ABS) < ROWS
      modifies this, minValues, maxValues, buckets
      ensures Valid() && history == old(history) + [p] && totPackets == old(totPackets) + 1
      ensures status == if Judge(old(prevPayload), p).Accepted? then 0 else -1
      ensures status == 0 <==>
        ValidPayload(old(prevPayload)) && forall c :: 0 <= c < 4 ==> p.ts[c] >= old(prevPayload).ts[c]
      ensures prevPayload == if status == 0 || !ValidPayload(old(prevPayload)) then p else old(prevPayload)
      ensures status == -1 ==> unchanged(minValues, maxValues, buckets)
      ensures status == 0 ==> Counted(old(prevPayload), p, old(minValues[..]), old(maxValues[..]))
      ensures status == 0 ==> forall b, c :: 0 <= b < ROWS && 0 <= c < COLUMNS ==>
        buckets[b, c] == old(buckets[b, c]) + Increment(sendInterval, old(prevPayload), p, b, c)
    {
      if !ValidPayload(prevPayload) {
        Pass(p, p);
        return -1;
      }
      var ok, diffs := Differences(p);
      if !ok {
        Pass(p, prevPayload);
        return -1;
      }
      Accept(p, diffs);
      return 0;
    }

    /** A payload that is not counted, but may become the reference. */
    method Pass(p: Payload, prev: Payload)
      requires Valid() && Fits(p) && !Judge(prevPayload, p).Accepted?
      requires prev == if Judge(prevPayload, p).First? then p else prevPayload
      modifies this
      ensures Valid() && history == old(history) + [p]
      ensures totPackets == old(totPackets) + 1 && prevPayload == prev
    {
      totPackets := totPackets + 1;
      OneMore(history, p);
      history := history + [p];
      prevPayload := prev;
    }

    method Accept(p: Payload, diffs: seq<nat>)
      requires Valid() && Fits(p) && Judge(prevPayload, p).Accepted? && diffs == SampleOf(prevPayload, p).diffs
      requires Cell(sendInterval, SampleOf(prevPayload, p), ABS) < ROWS
      modifies this, minValues, maxValues, buckets
      ensures Valid() && history == old(history) + [p]
      ensures totPackets == old(totPackets) + 1 && prevPayload == p
      ensures Counted(old(prevPayload), p, old(minValues[..]), old(maxValues[..]))
      ensures forall b, c :: 0 <= b < ROWS && 0 <= c < COLUMNS ==>
        buckets[b, c] == old(buckets[b, c]) + Increment(sendInterval, old(prevPayload), p, b, c)
    {
      totPackets := totPackets + 1;
      OneMore(history, p);
      CountStep(p, diffs, Samples(history));
      history := history + [p];
      prevPayload := p;
    }

    /** The four differences and the latency of an accepted payload are counted. */
    method CountStep(p: Payload, diffs: seq<nat>, ghost xs: seq<Sample>)
      requires Shape() && Fits(prevPayload) && Fits(p) && NotBefore(prevPayload, p)
      requires diffs == SampleOf(prevPayload, p).diffs
      requires Cell(sendInterval, SampleOf(prevPayload, p), ABS) < ROWS
      requires AllWellFormed(xs) && forall c :: 0 <= c < COLUMNS ==> Holds(xs, c)
      modifies minValues, maxValues, buckets
      ensures forall c :: 0 <= c < COLUMNS ==> Holds(xs + [SampleOf(prevPayload, p)], c)
      ensures Counted(prevPayload, p, old(minValues[..]), old(maxValues[..]))
      ensures forall b, c :: 0 <= b < ROWS && 0 <= c < COLUMNS ==>
        buckets[b, c] == old(buckets[b, c]) + Increment(sendInterval, prevPayload, p, b, c)
    {
      ghost var x := SampleOf(prevPayload, p);
      TallyAll(diffs, ComputeLatency(p), xs, x);
      forall b, c | 0 <= b < ROWS && 0 <= c < COLUMNS
        ensures buckets[b, c] == old(buckets[b, c]) + Increment(sendInterval, prevPayload, p, b, c)
      {
        StepBelongs(sendInterval, prevPayload, p, b, c);
      }
    }

    method TallyAll(diffs: seq<nat>, latency: nat, ghost xs: seq<Sample>, ghost x: Sample)
      requires Shape() && AllWellFormed(xs) && WellFormed(x)
      requires x == Sample(diffs, latency) && Cell(sendInterval, x, ABS) < ROWS
      requires forall c :: 0 <= c < COLUMNS ==> Holds(xs, c)
      modifies minValues, maxValues, buckets
      ensures forall c :: 0 <= c < COLUMNS ==> Holds(xs + [x], c)
      ensures forall b, c :: 0 <= b < ROWS && 0 <= c < COLUMNS ==>
        buckets[b, c] == old(buckets[b, c]) + if Belongs(sendInterval, x, c, b) then 1 else 0
      ensures forall c :: 0 <= c < COLUMNS ==>
        minValues[c] == Min(old(minValues[c]), Value(x, c)) && maxValues[c] == Max(old(maxValues[c]), Value(x, c))
    {
      for i := 0 to 4
        invariant forall c :: 0 <= c < i ==> Holds(xs + [x], c)
        invariant forall c :: i <= c < COLUMNS ==> Holds(xs, c)
      {
        RelativeBucketsTile(AsInt64(diffs[i]), sendInterval, 0);
        TallyNext(i, diffs[i], xs, x);
      }
      TallyNext(ABS, latency, xs, x);
      assert (xs + [x])[..|xs|] == xs;
      forall c | 0 <= c < COLUMNS
        ensures minValues[c] == Min(old(minValues[c]), Value(x, c)) && maxValues[c] == Max(old(maxValues[c]), Value(x, c))
      {
        assert old(Holds(xs, c)) && Holds(xs + [x], c);
      }
      forall b, c | 0 <= b < ROWS && 0 <= c < COLUMNS
        ensures buckets[b, c] == old(buckets[b, c]) + if Belongs(sendInterval, x, c, b) then 1 else 0
      {
        assert old(Holds(xs, c)) && Holds(xs + [x], c);
        assert old(buckets[b, c]) == CountIn(sendInterval, xs, b, c);
      }
    }
  }

  /** `struct min_max_latency_data`: the rounds with the smallest and the largest latency. */
  class MinMaxData {
    var min: nat
    var max: nat
    var minPayload: Payload
    var maxPayload: Payload
    ghost var history: seq<Payload>

    /** min belongs to the first payload that attains it, and so does max unless every
        latency is zero, in which case max_payload has never been set. */
    ghost predicate Valid()
      reads this
    {
      && AllFit(history)
      && (forall k :: 0 <= k < |history| ==> min <= ComputeLatency(history[k]) <= max)
      && (if history == [] then min == UINT64_MAX && max == 0
          else exists k :: 0 <= k < |history| && FirstWith(history, k, min) && minPayload == history[k])
      && (max > 0 ==> exists k :: 0 <= k < |history| && FirstWith(history, k, max) && maxPayload == history[k])
    }

    /** Payload k has this latency and none before it has. */
    static ghost predicate FirstWith(ps: seq<Payload>, k: nat, latency: nat)
      requires AllFit(ps) && k < |ps|
    {
      ComputeLatency(ps[k]) == latency && forall j :: 0 <= j < k ==> ComputeLatency(ps[j]) != latency
    }

    constructor ()
      ensures Valid() && history == []
    {
      min, max := UINT64_MAX, 0;
      minPayload, maxPayload := NewPayload(0), NewPayload(0);
      history := [];
    }

    /** `persistence_write_min_max_latency` */
    method WriteMinMaxLatency(p: Payload) returns (status: int)
      requires Valid() && Fits(p)
      modifies this
      ensures Valid() && history == old(history) + [p]
      ensures status == 0
    {
      var latency := ComputeLatency(p);
      ghost var n, ps := |history|, history + [p];
      forall k, v | 0 <= k < n && FirstWith(history, k, v)
        ensures FirstWith(ps, k, v)
      {
      }
      history := ps;
      if latency < min {
        min, minPayload := latency, p;
        assert FirstWith(ps, n, min);
      }
      if latency > max {
        max, maxPayload := latency, p;
        assert FirstWith(ps, n, max);
      }
      return 0;
    }
  }
}
