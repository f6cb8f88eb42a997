/** The latency histogram (LatencyMonitor.hpp): 10000 buckets of 100 ns
    each, the last one also collecting every longer sample, plus a running
    sample count, minimum and maximum. The report scans the cumulative bucket
    counts for the 50th, 99th and 99.9th percentiles and draws one bar for
    each of the first twenty microseconds. The ghost sequence `samples`
    records every latency passed to Record, in order. Measuring time with
    the clock (start/stop) and printing are not modelled. */
module Latency {
  import opened Arith
  import opened Wrappers

  const BUCKET_SIZE_NS: nat := 100
  const NUM_BUCKETS: nat := 10000
  const UINT64_MAX: nat := 0xFFFF_FFFF_FFFF_FFFF
  /** The report shows this many groups of ten buckets (one microsecond each). */
  const GROUPS: nat := 20
  /** The width of a bar for a group holding every sample. */
  const BAR_WIDTH: nat := 50

  /** The bucket a latency falls in: 100 ns per bucket, the last bucket
      collecting the overflow. */
  function BucketOf(ns: nat): (b: nat)
    ensures b < NUM_BUCKETS
  {
    var idx := ns / BUCKET_SIZE_NS;
    if idx >= NUM_BUCKETS then NUM_BUCKETS - 1 else idx
  }

  /** A sample below one millisecond lands in the bucket whose 100 ns range
      holds it; any longer sample lands in the last bucket. */
  lemma BucketRange(ns: nat)
    ensures ns < NUM_BUCKETS * BUCKET_SIZE_NS ==>
      BucketOf(ns) * BUCKET_SIZE_NS <= ns < (BucketOf(ns) + 1) * BUCKET_SIZE_NS
    ensures ns >= NUM_BUCKETS * BUCKET_SIZE_NS ==> BucketOf(ns) == NUM_BUCKETS - 1
  {
    var q := ns / BUCKET_SIZE_NS;
    assert ns == BUCKET_SIZE_NS * q + ns % BUCKET_SIZE_NS;
    if ns < NUM_BUCKETS * BUCKET_SIZE_NS {
      DivUpperBound(ns, BUCKET_SIZE_NS, NUM_BUCKETS);
    } else {
      DivLowerBound(ns, BUCKET_SIZE_NS, NUM_BUCKETS);
    }
  }

  function Sum(s: seq<nat>): nat {
    if s == [] then 0 else Sum(s[..|s| - 1]) + s[|s| - 1]
  }

  lemma SumSnoc(s: seq<nat>, x: nat)
    ensures Sum(s + [x]) == Sum(s) + x
  {
    assert (s + [x])[..|s|] == s;
  }

  lemma {:induction false} SumConcat(s: seq<nat>, t: seq<nat>)
    ensures Sum(s + t) == Sum(s) + Sum(t)
    decreases |t|
  {
    if t == [] {
      assert s + t == s;
    } else {
      var u, x := t[..|t| - 1], t[|t| - 1];
      assert s + t == (s + u) + [x];
      SumSnoc(s + u, x);
      SumConcat(s, u);
    }
  }

  /** Incrementing one entry increments the total by one. */
  lemma SumIncrement(s: seq<nat>, i: nat)
    requires i < |s|
    ensures Sum(s[i := s[i] + 1]) == Sum(s) + 1
  {
    var t := s[i := s[i] + 1];
    assert s == s[..i] + [s[i]] + s[i + 1..];
    assert t == s[..i] + [s[i] + 1] + s[i + 1..];
    SumConcat(s[..i] + [s[i]], s[i + 1..]);
    SumConcat(s[..i] + [s[i] + 1], s[i + 1..]);
    SumSnoc(s[..i], s[i]);
    SumSnoc(s[..i], s[i] + 1);
  }

  /** A contiguous part of the buckets holds no more than all of them. */
  lemma SumSliceBound(s: seq<nat>, lo: nat, hi: nat)
    requires lo <= hi <= |s|
    ensures Sum(s[lo..hi]) <= Sum(s)
  {
    assert s == s[..lo] + s[lo..hi] + s[hi..];
    SumConcat(s[..lo] + s[lo..hi], s[hi..]);
    SumConcat(s[..lo], s[lo..hi]);
  }

  /** How many of the samples fall in bucket b. */
  function CountIn(samples: seq<nat>, b: nat): nat {
    if samples == [] then 0
    else CountIn(samples[..|samples| - 1], b) + (if BucketOf(samples[|samples| - 1]) == b then 1 else 0)
  }

  lemma CountInSnoc(samples: seq<nat>, ns: nat, b: nat)
    ensures CountIn(samples + [ns], b) == CountIn(samples, b) + (if BucketOf(ns) == b then 1 else 0)
  {
    assert (samples + [ns])[..|samples|] == samples;
  }

  /** The running minimum the source keeps, starting from UINT64_MAX; once
      a sample that fits a uint64 was seen, it is the smallest sample. */
  function MinFrom(samples: seq<nat>): (m: nat)
    ensures forall i :: 0 <= i < |samples| ==> m <= samples[i]
    ensures m == UINT64_MAX || exists i :: 0 <= i < |samples| && m == samples[i]
    ensures samples != [] && (forall i :: 0 <= i < |samples| ==> samples[i] <= UINT64_MAX) ==>
      exists i :: 0 <= i < |samples| && m == samples[i]
  {
    if samples == [] then UINT64_MAX
    else
      var m := MinFrom(samples[..|samples| - 1]);
      var x := samples[|samples| - 1];
      if x < m then x else m
  }

  /** The running maximum the source keeps, starting from 0. */
  function MaxFrom(samples: seq<nat>): (m: nat)
    ensures forall i :: 0 <= i < |samples| ==> samples[i] <= m
    ensures m == 0 || exists i :: 0 <= i < |samples| && m == samples[i]
  {
    if samples == [] then 0
    else
      var m := MaxFrom(samples[..|samples| - 1]);
      var x := samples[|samples| - 1];
      if x > m then x else m
  }

  /** The cumulative count of buckets 0 to j. */
  function Cum(b: seq<nat>, j: nat): nat
    requires j < |b|
  {
    Sum(b[..j + 1])
  }

  /** The index of the first bucket at or after `from` whose cumulative count
      reaches `target`, or |b| when there is none. */
  function FirstReaching(b: seq<nat>, target: nat, from: nat): (k: nat)
    requires from <= |b|
    ensures from <= k <= |b|
    ensures k < |b| ==> Cum(b, k) >= target
    ensures forall j :: from <= j < k ==> Cum(b, j) < target
    decreases |b| - from
  {
    if from == |b| then |b|
    else if Cum(b, from) >= target then from
    else FirstReaching(b, target, from + 1)
  }

  /** The percentile the report prints for a target count: the end of the
      first bucket whose cumulative count reaches the target, in ns, or 0
      when no bucket does. */
  function PercentileFor(b: seq<nat>, target: nat): (p: nat)
    ensures p == 0 || (p % BUCKET_SIZE_NS == 0 && BUCKET_SIZE_NS <= p <= |b| * BUCKET_SIZE_NS)
  {
    var k := FirstReaching(b, target, 0);
    if k < |b| then (k + 1) * BUCKET_SIZE_NS else 0
  }

  lemma PrefixSumSnoc(b: seq<nat>, i: nat)
    requires i < |b|
    ensures Cum(b, i) == Sum(b[..i]) + b[i]
  {
    assert b[..i + 1] == b[..i] + [b[i]];
    SumSnoc(b[..i], b[i]);
  }

  /** A higher target is reached no earlier, so when the total reaches both
      targets the percentiles are ordered like the targets. */
  lemma PercentileMonotone(b: seq<nat>, t1: nat, t2: nat)
    requires t1 <= t2 <= Sum(b) && |b| > 0
    ensures 0 < PercentileFor(b, t1) <= PercentileFor(b, t2)
  {
    assert b[..|b| - 1 + 1] == b;
    assert Cum(b, |b| - 1) == Sum(b);
    var k1, k2 := FirstReaching(b, t1, 0), FirstReaching(b, t2, 0);
    assert k2 < |b|;
    assert k1 <= k2;
  }

  /** A percentile target as the source computes it: count times the
      fraction perMille / 1000, truncated to an integer. */
  function FloorTarget(count: nat, perMille: nat): (t: nat)
    ensures 1000 * t <= count * perMille < 1000 * (t + 1)
  {
    count * perMille / 1000
  }

  /** The corrected target: the truncated one, but never less than one
      sample. */
  function ClampedTarget(count: nat, perMille: nat): (t: nat)
    ensures t >= 1
    ensures FloorTarget(count, perMille) >= 1 ==> t == FloorTarget(count, perMille)
    ensures FloorTarget(count, perMille) == 0 ==> t == 1
  {
    var t := count * perMille / 1000;
    if t == 0 then 1 else t
  }

  /** For a nonempty monitor the corrected targets are at least one sample,
      at most all of them, and ordered like their fractions. */
  lemma ClampedTargetBounds(count: nat, p1: nat, p2: nat)
    requires 1 <= count && p1 <= p2 <= 1000
    ensures 1 <= ClampedTarget(count, p1) <= ClampedTarget(count, p2) <= count
  {
    assert count * p2 == count * p1 + count * (p2 - p1);
    MulGap(count, p2 - p1);
    DivMonotone(count * p1, count * p2, 1000);
    assert count * 1000 == count * p2 + count * (1000 - p2);
    MulGap(count, 1000 - p2);
    DivUpperBound(count * p2, 1000, count);
  }

  /** The source's truncated targets are at most all samples and ordered
      like their fractions. */
  lemma FloorTargetBounds(count: nat, p1: nat, p2: nat)
    requires p1 <= p2 <= 1000
    ensures FloorTarget(count, p1) <= FloorTarget(count, p2) <= count
  {
    if count > 0 {
      assert count * p2 == count * p1 + count * (p2 - p1);
      MulGap(count, p2 - p1);
      DivMonotone(count * p1, count * p2, 1000);
      assert count * 1000 == count * p2 + count * (1000 - p2);
      MulGap(count, 1000 - p2);
      DivUpperBound(count * p2, 1000, count);
    }
  }

  /** The correction changes nothing once the monitor holds two samples or
      more: from then on the median target is already one sample at least. */
  lemma ClampOnlyAffectsSingleSample(count: nat, perMille: nat)
    requires count >= 2 && 500 <= perMille
    ensures ClampedTarget(count, perMille) == FloorTarget(count, perMille)
  {
    assert count * perMille == count * 500 + count * (perMille - 500);
    MulGap(count, perMille - 500);
    assert count * 500 == 1000 + 500 * (count - 2);
    DivLowerBound(count * perMille, 1000, 1);
  }

  /** The bucket a percentile ends, when that bucket holds a sample. */
  ghost predicate EndsOccupiedBucket(b: seq<nat>, p: nat) {
    exists k :: 0 <= k < |b| && p == (k + 1) * BUCKET_SIZE_NS && b[k] > 0
  }

  /** A target of at least one sample is reached in a bucket that holds a
      sample: before it the running total was still short of the target. */
  lemma PositiveTargetEndsOccupiedBucket(b: seq<nat>, t: nat)
    requires 1 <= t <= Sum(b) && |b| > 0
    ensures EndsOccupiedBucket(b, PercentileFor(b, t))
  {
    PercentileMonotone(b, t, t);
    var k := FirstReaching(b, t, 0);
    PrefixSumSnoc(b, k);
    if k == 0 {
      assert b[..0] == [];
    } else {
      assert b[..k] == b[..k - 1 + 1];
      assert Cum(b, k - 1) < t;
    }
    assert b[k] > 0;
  }

  /** As written, a monitor holding a single sample reports 100 ns for every
      percentile: all three truncated targets are 0, which the first bucket
      reaches whatever it holds. For a sample of 100 ns or more that bucket
      is empty. */
  lemma FloorTargetMisreportsSingleSample(b: seq<nat>, ns: nat)
    requires Summarises(b, 1, ns, ns, [ns])
    ensures FloorTarget(1, 500) == 0 && FloorTarget(1, 990) == 0 && FloorTarget(1, 999) == 0
    ensures PercentileFor(b, FloorTarget(1, 500)) == BUCKET_SIZE_NS
    ensures PercentileFor(b, FloorTarget(1, 990)) == BUCKET_SIZE_NS
    ensures PercentileFor(b, FloorTarget(1, 999)) == BUCKET_SIZE_NS
    ensures ns >= BUCKET_SIZE_NS ==> b[0] == 0 && !EndsOccupiedBucket(b, PercentileFor(b, 0))
  {
    assert [ns][..0] == [];
    if ns >= BUCKET_SIZE_NS {
      DivLowerBound(ns, BUCKET_SIZE_NS, 1);
      assert b[0] == CountIn([ns], 0) == 0;
    }
  }

  /** The bar drawn for a group: its share of all samples in fifty columns,
      at least one column for a nonempty group; 0 stands for a group the
      report leaves out because it is empty. */
  function BarFor(groupCount: nat, count: nat): (bars: nat)
    requires count > 0
    ensures bars == 0 <==> groupCount == 0
  {
    if groupCount == 0 then 0
    else
      var scaled := groupCount * BAR_WIDTH / count;
      if scaled == 0 then 1 else scaled
  }

  lemma BarBounds(groupCount: nat, count: nat)
    requires 0 < count && groupCount <= count
    ensures BarFor(groupCount, count) <= BAR_WIDTH
    ensures BarFor(groupCount, count) >= 1 <==> groupCount > 0
    ensures groupCount == count ==> BarFor(groupCount, count) == BAR_WIDTH
  {
    DivUpperBound(groupCount * BAR_WIDTH, count, BAR_WIDTH);
    if groupCount == count {
      ModOfSplit(count * BAR_WIDTH, count, BAR_WIDTH, 0);
    }
  }

  /** The state the monitor keeps is a summary of the samples seen: their
      number, their extremes, and per bucket how many fall in it. */
  ghost predicate Summarises(b: seq<nat>, count: nat, minNs: nat, maxNs: nat, samples: seq<nat>) {
    && |b| == NUM_BUCKETS
    && count == |samples|
    && (forall i :: 0 <= i < |samples| ==> samples[i] <= UINT64_MAX)
    && minNs == MinFrom(samples)
    && maxNs == MaxFrom(samples)
    && (forall i :: 0 <= i < NUM_BUCKETS ==> b[i] == CountIn(samples, i))
    && Sum(b) == count
  }

  /** A monitor holding a sample reports as its minimum and maximum two of
      the samples it recorded. */
  lemma ExtremesAreSamples(b: seq<nat>, count: nat, minNs: nat, maxNs: nat, samples: seq<nat>)
    requires Summarises(b, count, minNs, maxNs, samples) && count > 0
    ensures exists i :: 0 <= i < |samples| && minNs == samples[i]
    ensures exists i :: 0 <= i < |samples| && maxNs == samples[i]
    ensures minNs <= maxNs
  {
    var j :| 0 <= j < |samples| && minNs == samples[j];
    assert samples[j] <= maxNs;
  }

  /** One more sample: the folds take it into account and exactly its
      bucket's count grows by one. */
  lemma RecordSnoc(b: seq<nat>, count: nat, minNs: nat, maxNs: nat, samples: seq<nat>, ns: nat,
                   b': seq<nat>, count': nat, minNs': nat, maxNs': nat, samples': seq<nat>)
    requires Summarises(b, count, minNs, maxNs, samples)
    requires b' == b[BucketOf(ns) := b[BucketOf(ns)] + 1] && count' == count + 1
    requires minNs' == (if ns < minNs then ns else minNs) && maxNs' == (if ns > maxNs then ns else maxNs)
    requires samples' == samples + [ns] && ns <= UINT64_MAX
    ensures Summarises(b', count', minNs', maxNs', samples')
  {
    assert samples'[..|samples|] == samples;
    forall i | 0 <= i < NUM_BUCKETS
      ensures b'[i] == CountIn(samples', i)
    {
      CountInSnoc(samples, ns, i);
    }
    SumIncrement(b, BucketOf(ns));
  }

  /** What `report` prints after the sample count and extremes: the three
      percentiles, and for each of the first twenty microseconds its sample
      count and its bar. */
  datatype Report = Report(p50: nat, p99: nat, p999: nat, groupCounts: seq<nat>, bars: seq<nat>)

  /** The distribution part of a report: for each of the first twenty
      microseconds, the samples in its ten buckets and its bar, which is
      nonempty exactly for a group holding a sample. */
  ghost predicate Charts(b: seq<nat>, count: nat, r: Report)
    requires count > 0 && |b| == NUM_BUCKETS
  {
    && |r.groupCounts| == GROUPS && |r.bars| == GROUPS
    && forall i :: 0 <= i < GROUPS ==>
      && r.groupCounts[i] == Sum(b[10 * i..10 * i + 10])
      && r.bars[i] == BarFor(r.groupCounts[i], count)
      && r.bars[i] <= BAR_WIDTH
      && (r.bars[i] >= 1 <==> r.groupCounts[i] > 0)
  }

  class LatencyMonitor {
    const name: string
    const buckets: array<nat>
    var count: nat
    var minNs: nat
    var maxNs: nat
    ghost var samples: seq<nat>

    ghost predicate Valid()
      reads this, buckets
    {
      && buckets.Length == NUM_BUCKETS
      && Summarises(buckets[..], count, minNs, maxNs, samples)
    }

    constructor (name: string)
      ensures Valid() && fresh(buckets)
      ensures this.name == name && samples == []
      ensures count == 0 && minNs == UINT64_MAX && maxNs == 0
      ensures forall i :: 0 <= i < NUM_BUCKETS ==> buckets[i] == 0
    {
      this.name := name;
      buckets := new nat[NUM_BUCKETS];
      new;
      for i := 0 to NUM_BUCKETS
        invariant forall j :: 0 <= j < i ==> buckets[j] == 0
      {
        buckets[i] := 0;
      }
      count, minNs, maxNs := 0, UINT64_MAX, 0;
      samples := [];
      ZeroSum(buckets[..]);
    }

    static lemma {:induction false} ZeroSum(s: seq<nat>)
      requires forall j :: 0 <= j < |s| ==> s[j] == 0
      ensures Sum(s) == 0
      decreases |s|
    {
      if s != [] {
        ZeroSum(s[..|s| - 1]);
      }
    }

    /** Records one latency: the count grows by one, the extremes widen to
        include it, and exactly its bucket grows by one. */
    method Record(ns: nat)
      requires Valid()
      requires ns <= UINT64_MAX
      modifies this, buckets
      ensures Valid()
      ensures samples == old(samples) + [ns]
      ensures count == old(count) + 1
      ensures minNs <= ns <= maxNs
      ensures minNs == (if ns < old(minNs) then ns else old(minNs))
      ensures maxNs == (if ns > old(maxNs) then ns else old(maxNs))
      ensures buckets[..] == old(buckets[..])[BucketOf(ns) := old(buckets[BucketOf(ns)]) + 1]
    {
      ghost var before, count0, min0, max0, samples0 := buckets[..], count, minNs, maxNs, samples;
      CountInBucket(ns);
      ghost var bumped := buckets[..];
      count := count + 1;
      if ns < minNs {
        minNs := ns;
      }
      if ns > maxNs {
        maxNs := ns;
      }
      samples := samples + [ns];
      assert buckets[..] == bumped;
      RecordSnoc(before, count0, min0, max0, samples0, ns, bumped, count, minNs, maxNs, samples);
    }

    /** Counts a sample in its bucket. */
    method CountInBucket(ns: nat)
      requires buckets.Length == NUM_BUCKETS
      modifies buckets
      ensures buckets[..] == old(buckets[..])[BucketOf(ns) := old(buckets[BucketOf(ns)]) + 1]
    {
      var bucketIdx := ns / BUCKET_SIZE_NS;
      if bucketIdx >= NUM_BUCKETS {
        bucketIdx := NUM_BUCKETS - 1;
      }
      buckets[bucketIdx] := buckets[bucketIdx] + 1;
    }

    /** The percentiles and bars of the report, as the source computes them;
        None when no sample was recorded (the source then prints only count,
        minimum and maximum). The targets are the truncated ones, so from two
        samples on each percentile ends a bucket holding a sample, while a
        single sample reports 100 ns for all three. */
    method ComputeReport() returns (r: Option<Report>)
      requires Valid()
      ensures r.None? <==> count == 0
      ensures r.Some? ==>
        && r.value.p50 == PercentileFor(buckets[..], FloorTarget(count, 500))
        && r.value.p99 == PercentileFor(buckets[..], FloorTarget(count, 990))
        && r.value.p999 == PercentileFor(buckets[..], FloorTarget(count, 999))
        && 0 < r.value.p50 <= r.value.p99 <= r.value.p999
        && Charts(buckets[..], count, r.value)
      ensures r.Some? && count >= 2 ==>
        && EndsOccupiedBucket(buckets[..], r.value.p50)
        && EndsOccupiedBucket(buckets[..], r.value.p99)
        && EndsOccupiedBucket(buckets[..], r.value.p999)
      ensures r.Some? && count == 1 ==>
        r.value.p50 == BUCKET_SIZE_NS && r.value.p99 == BUCKET_SIZE_NS && r.value.p999 == BUCKET_SIZE_NS
    {
      if count == 0 {
        return None;
      }
      var t50, t99, t999 := FloorTarget(count, 500), FloorTarget(count, 990), FloorTarget(count, 999);
      FloorTargetBounds(count, 500, 990);
      FloorTargetBounds(count, 990, 999);
      var report := ReportFor(t50, t99, t999);
      if count >= 2 {
        ClampOnlyAffectsSingleSample(count, 500);
        ClampOnlyAffectsSingleSample(count, 990);
        ClampOnlyAffectsSingleSample(count, 999);
        PositiveTargetEndsOccupiedBucket(buckets[..], t50);
        PositiveTargetEndsOccupiedBucket(buckets[..], t99);
        PositiveTargetEndsOccupiedBucket(buckets[..], t999);
      }
      r := Some(report);
    }

    /** The report with the corrected targets of at least one sample: every
        percentile ends a bucket holding a sample, and from two samples on
        it is the report the source computes. */
    method CorrectedReport() returns (r: Option<Report>)
      requires Valid()
      ensures r.None? <==> count == 0
      ensures r.Some? ==>
        && r.value.p50 == PercentileFor(buckets[..], ClampedTarget(count, 500))
        && r.value.p99 == PercentileFor(buckets[..], ClampedTarget(count, 990))
        && r.value.p999 == PercentileFor(buckets[..], ClampedTarget(count, 999))
        && 0 < r.value.p50 <= r.value.p99 <= r.value.p999
        && EndsOccupiedBucket(buckets[..], r.value.p50)
        && EndsOccupiedBucket(buckets[..], r.value.p99)
        && EndsOccupiedBucket(buckets[..], r.value.p999)
        && Charts(buckets[..], count, r.value)
      ensures r.Some? && count >= 2 ==>
        && r.value.p50 == PercentileFor(buckets[..], FloorTarget(count, 500))
        && r.value.p99 == PercentileFor(buckets[..], FloorTarget(count, 990))
        && r.value.p999 == PercentileFor(buckets[..], FloorTarget(count, 999))
    {
      if count == 0 {
        return None;
      }
      var t50, t99, t999 := ClampedTarget(count, 500), ClampedTarget(count, 990), ClampedTarget(count, 999);
      ClampedTargetBounds(count, 500, 990);
      ClampedTargetBounds(count, 990, 999);
      var report := ReportFor(t50, t99, t999);
      PositiveTargetEndsOccupiedBucket(buckets[..], t50);
      PositiveTargetEndsOccupiedBucket(buckets[..], t99);
      PositiveTargetEndsOccupiedBucket(buckets[..], t999);
      if count >= 2 {
        ClampOnlyAffectsSingleSample(count, 500);
        ClampOnlyAffectsSingleSample(count, 990);
        ClampOnlyAffectsSingleSample(count, 999);
      }
      r := Some(report);
    }

    /** The report for the given percentile targets. */
    method ReportFor(t50: nat, t99: nat, t999: nat) returns (r: Report)
      requires Valid() && count > 0
      requires t50 <= t99 <= t999 <= count
      ensures r.p50 == PercentileFor(buckets[..], t50)
      ensures r.p99 == PercentileFor(buckets[..], t99)
      ensures r.p999 == PercentileFor(buckets[..], t999)
      ensures 0 < r.p50 <= r.p99 <= r.p999
      ensures Charts(buckets[..], count, r)
    {
      var p50, p99, p999 := Percentiles(t50, t99, t999);
      var groupCounts, bars := Distribution();
      r := Report(p50, p99, p999, groupCounts, bars);
    }

    /** The percentile scan of the report: one pass over the buckets,
        accumulating counts and fixing each percentile at the first bucket
        where the running total reaches its target. */
    method Percentiles(targetP50: nat, targetP99: nat, targetP999: nat) returns (p50: nat, p99: nat, p999: nat)
      requires buckets.Length == NUM_BUCKETS && Sum(buckets[..]) == count > 0
      requires targetP50 <= targetP99 <= targetP999 <= count
      ensures p50 == PercentileFor(buckets[..], targetP50)
      ensures p99 == PercentileFor(buckets[..], targetP99)
      ensures p999 == PercentileFor(buckets[..], targetP999)
      ensures 0 < p50 <= p99 <= p999
    {
      ghost var b := buckets[..];
      var accumulated := 0;
      p50, p99, p999 := 0, 0, 0;
      var p50Found, p99Found, p999Found := false, false, false;
      ghost var k50, k99, k999 := FirstReaching(b, targetP50, 0), FirstReaching(b, targetP99, 0), FirstReaching(b, targetP999, 0);
      for i := 0 to NUM_BUCKETS
        invariant accumulated == Sum(b[..i])
        invariant p50Found <==> k50 < i
        invariant p50 == if p50Found then (k50 + 1) * BUCKET_SIZE_NS else 0
        invariant p99Found <==> k99 < i
        invariant p99 == if p99Found then (k99 + 1) * BUCKET_SIZE_NS else 0
        invariant p999Found <==> k999 < i
        invariant p999 == if p999Found then (k999 + 1) * BUCKET_SIZE_NS else 0
      {
        PrefixSumSnoc(b, i);
        accumulated := accumulated + buckets[i];
        var bucketEndNs := (i + 1) * BUCKET_SIZE_NS;
        if !p50Found && accumulated >= targetP50 {
          p50 := bucketEndNs;
          p50Found := true;
        }
        if !p99Found && accumulated >= targetP99 {
          p99 := bucketEndNs;
          p99Found := true;
        }
        if !p999Found && accumulated >= targetP999 {
          p999 := bucketEndNs;
          p999Found := true;
        }
      }
      PercentileMonotone(b, targetP50, targetP99);
      PercentileMonotone(b, targetP99, targetP999);
    }

    /** The distribution part of the report: for each of the first twenty
        microseconds, the samples in its ten buckets and its bar. */
    method Distribution() returns (groupCounts: seq<nat>, bars: seq<nat>)
      requires buckets.Length == NUM_BUCKETS && Sum(buckets[..]) == count > 0
      ensures |groupCounts| == GROUPS && |bars| == GROUPS
      ensures forall i :: 0 <= i < GROUPS ==>
        && groupCounts[i] == Sum(buckets[10 * i..10 * i + 10])
        && bars[i] == BarFor(groupCounts[i], count)
        && bars[i] <= BAR_WIDTH
        && (bars[i] >= 1 <==> groupCounts[i] > 0)
    {
      groupCounts, bars := [], [];
      for i := 0 to GROUPS
        invariant |groupCounts| == i && |bars| == i
        invariant forall g :: 0 <= g < i ==>
          && groupCounts[g] == Sum(buckets[10 * g..10 * g + 10])
          && bars[g] == BarFor(groupCounts[g], count)
          && bars[g] <= BAR_WIDTH
          && (bars[g] >= 1 <==> groupCounts[g] > 0)
      {
        var groupCount := GroupCount(i);
        var bar := 0;
        if groupCount > 0 {
          bar := groupCount * BAR_WIDTH / count;
          if bar == 0 {
            bar := 1;
          }
        }
        SumSliceBound(buckets[..], 10 * i, 10 * i + 10);
        assert buckets[..][10 * i..10 * i + 10] == buckets[10 * i..10 * i + 10];
        BarBounds(groupCount, count);
        groupCounts := groupCounts + [groupCount];
        bars := bars + [bar];
      }
    }

    /** The samples in the ten buckets of group g. */
    method GroupCount(g: nat) returns (groupCount: nat)
      requires buckets.Length == NUM_BUCKETS && g < GROUPS
      ensures groupCount == Sum(buckets[10 * g..10 * g + 10])
    {
      groupCount := 0;
      for j := 0 to 10
        invariant groupCount == Sum(buckets[10 * g..10 * g + j])
      {
        assert buckets[10 * g..10 * g + j + 1] == buckets[10 * g..10 * g + j] + [buckets[10 * g + j]];
        SumSnoc(buckets[10 * g..10 * g + j], buckets[10 * g + j]);
        groupCount := groupCount + buckets[g * 10 + j];
      }
    }
  }
}
