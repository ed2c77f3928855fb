/** The waveform overview of a sample buffer: up to 128 buckets of frames, each with
    the extremes of its finite samples. */
module Waveform {
  import opened Wrappers

  /** A stored sample; `None` is one that is not a finite number. */
  type Sample = Option<real>

  datatype Overview = Overview(minValue: real, maxValue: real, minimums: seq<real>, maximums: seq<real>)

  const MAX_COLUMNS := 128

  function Columns(frames: nat): (columns: nat)
    ensures columns <= frames && (frames > 0 ==> columns > 0)
  {
    if frames < MAX_COLUMNS then frames else MAX_COLUMNS
  }

  /** The first frame of a bucket; bucket `Columns(frames)` starts past the last frame. */
  function FirstFrame(frames: nat, column: nat): nat
    requires frames > 0
  {
    column * frames / Columns(frames)
  }

  /** The sample range of a bucket, cut at the end of the data. */
  function From(frames: nat, channels: nat, column: nat): nat
    requires frames > 0
  {
    FirstFrame(frames, column) * channels
  }

  function Bucket(data: seq<Sample>, frames: nat, channels: nat, column: nat): seq<Sample>
    requires frames > 0
  {
    Slice(data, From(frames, channels, column), From(frames, channels, column + 1))
  }

  function Slice(data: seq<Sample>, from: nat, to: nat): seq<Sample> {
    var end := if to < |data| then to else |data|;
    if from < end then data[from..end] else []
  }

  predicate HasFinite(samples: seq<Sample>) {
    exists s <- samples :: s.Some?
  }

  /** `low` and `high` are the extremes of the finite samples, or zero without any. */
  predicate Extremes(samples: seq<Sample>, low: real, high: real) {
    if HasFinite(samples) then
      && Some(low) in samples && Some(high) in samples
      && forall s <- samples :: s.Some? ==> low <= s.value <= high
    else
      low == 0.0 && high == 0.0
  }

  /** What an overview says about a buffer. */
  predicate Describes(w: Overview, data: seq<Sample>, frames: nat, channels: nat) {
    && |w.minimums| == |w.maximums| == Columns(frames)
    && (frames > 0 ==> Described(data, frames, channels, w.minimums, w.maximums))
    && Least(w.minimums, w.minValue)
    && Greatest(w.maximums, w.maxValue)
  }

  predicate Least(values: seq<real>, x: real) {
    if values == [] then x == 0.0 else x in values && forall v <- values :: x <= v
  }

  predicate Greatest(values: seq<real>, x: real) {
    if values == [] then x == 0.0 else x in values && forall v <- values :: v <= x
  }

  /** The running extremes of a scan, absent before the first finite sample. */
  predicate Running(samples: seq<Sample>, minimum: Option<real>, maximum: Option<real>) {
    && (minimum.Some? <==> maximum.Some?)
    && (minimum.Some? <==> HasFinite(samples))
    && (minimum.Some? ==> Extremes(samples, minimum.value, maximum.value))
  }

  function Lower(a: Option<real>, b: real): real { if a.Some? && a.value < b then a.value else b }
  function Higher(a: Option<real>, b: real): real { if a.Some? && a.value > b then a.value else b }

  lemma RunningStep(samples: seq<Sample>, next: Sample, minimum: Option<real>, maximum: Option<real>)
    requires Running(samples, minimum, maximum)
    ensures next.None? ==> Running(samples + [next], minimum, maximum)
    ensures next.Some? ==>
      Running(samples + [next], Some(Lower(minimum, next.value)), Some(Higher(maximum, next.value)))
  {
    var longer := samples + [next];
    assert next in longer;
    assert forall s <- samples :: s in longer;
    assert forall s <- longer :: s in samples || s == next;
  }

  lemma SliceStep(data: seq<Sample>, from: nat, to: nat)
    requires from <= to < |data|
    ensures Slice(data, from, to + 1) == Slice(data, from, to) + [data[to]]
  {
  }

  lemma SliceEdges(data: seq<Sample>, from: nat, to: nat)
    ensures from >= to ==> Slice(data, from, to) == []
    ensures Slice(data, from, if to < |data| then to else |data|) == Slice(data, from, to)
  {
  }

  lemma NothingFinite(samples: seq<Sample>)
    ensures !HasFinite(samples) ==> Extremes(samples, 0.0, 0.0)
    ensures !HasFinite([])
  {
  }

  lemma NoValues()
    ensures Least([], 0.0) && Greatest([], 0.0)
  {
  }

  /** The inner loop: the extremes of one bucket, sample by sample. */
  method ScanBucket(data: seq<Sample>, start: nat, end: nat) returns (minimum: real, maximum: real)
    requires end <= |data|
    ensures Extremes(Slice(data, start, end), minimum, maximum)
  {
    hide Extremes, Slice, HasFinite;
    var low: Option<real>, high: Option<real> := None, None;
    var index := start;
    SliceEdges(data, start, start);
    NothingFinite([]);
    while index < end
      invariant start <= index && (if start < end then index <= end else index == start)
      invariant Running(Slice(data, start, index), low, high)
    {
      RunningStep(Slice(data, start, index), data[index], low, high);
      SliceStep(data, start, index);
      if data[index].Some? {
        low, high := Some(Lower(low, data[index].value)), Some(Higher(high, data[index].value));
      }
      index := index + 1;
    }
    SliceEdges(data, start, end);
    NothingFinite(Slice(data, start, end));
    if low.None? {
      return 0.0, 0.0;
    }
    return low.value, high.value;
  }

  predicate LeastSoFar(values: seq<real>, x: Option<real>) {
    if x.None? then values == [] else values != [] && Least(values, x.value)
  }

  predicate GreatestSoFar(values: seq<real>, x: Option<real>) {
    if x.None? then values == [] else values != [] && Greatest(values, x.value)
  }

  lemma ExtremaStep(values: seq<real>, x: Option<real>, v: real)
    ensures LeastSoFar(values, x) ==> LeastSoFar(values + [v], Some(Lower(x, v)))
    ensures GreatestSoFar(values, x) ==> GreatestSoFar(values + [v], Some(Higher(x, v)))
  {
    var longer := values + [v];
    assert v in longer;
    assert forall u <- values :: u in longer;
    assert forall u <- longer :: u in values || u == v;
  }

  predicate Described(data: seq<Sample>, frames: nat, channels: nat, minimums: seq<real>, maximums: seq<real>)
    requires frames > 0 && |minimums| == |maximums|
  {
    forall k :: 0 <= k < |minimums| ==> Extremes(Bucket(data, frames, channels, k), minimums[k], maximums[k])
  }

  method BufferWaveform(data: seq<Sample>, frames: nat, channels: nat) returns (w: Overview)
    ensures Describes(w, data, frames, channels)
  {
    hide Extremes, Slice, Least, Greatest, Lower, Higher;
    var columns := Columns(frames);
    var minimums, maximums: seq<real> := [], [];
    var minValue: Option<real>, maxValue: Option<real> := None, None;
    var column := 0;
    while column < columns
      invariant column <= columns && |minimums| == |maximums| == column
      invariant frames > 0 ==> Described(data, frames, channels, minimums, maximums)
      invariant LeastSoFar(minimums, minValue) && GreatestSoFar(maximums, maxValue)
    {
      var start := column * frames / columns * channels;
      var to := (column + 1) * frames / columns * channels;
      var end := if to < |data| then to else |data|;
      assert start == From(frames, channels, column) && to == From(frames, channels, column + 1);
      var minimum, maximum := ScanBucket(data, start, end);
      SliceEdges(data, start, to);
      ExtremaStep(minimums, minValue, minimum);
      ExtremaStep(maximums, maxValue, maximum);
      minimums, maximums := minimums + [minimum], maximums + [maximum];
      minValue, maxValue := Some(Lower(minValue, minimum)), Some(Higher(maxValue, maximum));
      column := column + 1;
    }
    NoValues();
    w := Overview(
      if minValue.Some? then minValue.value else 0.0,
      if maxValue.Some? then maxValue.value else 0.0, minimums, maximums);
  }

  // ------------------------------------------------------------ the buckets

  lemma FloorStep(a: nat, b: nat, columns: nat)
    requires columns > 0 && a + columns <= b
    ensures a / columns < b / columns
  {
    var p, q := a / columns, b / columns;
    assert a == p * columns + a % columns && b == q * columns + b % columns;
    Scale(if q <= p then q else p, p, columns);
  }

  lemma FloorOfMultiple(a: nat, columns: nat)
    requires columns > 0
    ensures columns * a / columns == a && 0 / columns == 0
  {
    var q, r := columns * a / columns, columns * a % columns;
    assert columns * a == q * columns + r;
    assert (a - q) * columns == r;
    if a > q {
      Scale(1, a - q, columns);
    } else if a < q {
      Scale(1, q - a, columns);
    }
  }

  /** Buckets start at frame zero, are never empty, follow one another and end at the
      last frame. */
  lemma BucketsFollow(frames: nat, column: nat)
    requires frames > 0 && column < Columns(frames)
    ensures FirstFrame(frames, 0) == 0 && FirstFrame(frames, Columns(frames)) == frames
    ensures FirstFrame(frames, column) < FirstFrame(frames, column + 1)
  {
    var columns := Columns(frames);
    assert (column + 1) * frames == column * frames + frames;
    FloorStep(column * frames, (column + 1) * frames, columns);
    FloorOfMultiple(frames, columns);
  }

  lemma {:induction false} FirstFrameMonotone(frames: nat, a: nat, b: nat)
    requires frames > 0 && a <= b <= Columns(frames)
    ensures FirstFrame(frames, a) <= FirstFrame(frames, b)
    decreases b - a
  {
    hide FirstFrame;
    if a < b {
      BucketsFollow(frames, a);
      FirstFrameMonotone(frames, a + 1, b);
    }
  }

  /** Every frame lies in exactly one bucket. */
  lemma FramesPartitioned(frames: nat, frame: nat)
    requires frame < frames
    ensures exists k: nat :: InBucket(frames, k, frame)
    ensures forall j: nat, k: nat :: InBucket(frames, j, frame) && InBucket(frames, k, frame) ==> j == k
  {
    hide FirstFrame;
    BucketsFollow(frames, 0);
    var k := BucketOf(frames, frame, 0);
    forall i: nat, j: nat | InBucket(frames, i, frame) && InBucket(frames, j, frame)
      ensures i == j
    {
      if i < j {
        FirstFrameMonotone(frames, i + 1, j);
      } else if j < i {
        FirstFrameMonotone(frames, j + 1, i);
      }
    }
  }

  predicate InBucket(frames: nat, column: nat, frame: nat)
    requires frames > 0
  {
    column < Columns(frames) && FirstFrame(frames, column) <= frame < FirstFrame(frames, column + 1)
  }

  ghost function BucketOf(frames: nat, frame: nat, from: nat): (k: nat)
    requires frame < frames && from < Columns(frames) && FirstFrame(frames, from) <= frame
    ensures InBucket(frames, k, frame)
    decreases Columns(frames) - from
  {
    BucketsFollow(frames, from);
    if frame < FirstFrame(frames, from + 1) then from else BucketOf(frames, frame, from + 1)
  }

  /** The samples an overview speaks about: the declared frames, as far as there is data. */
  function Covered(data: seq<Sample>, frames: nat, channels: nat): seq<Sample> {
    Slice(data, 0, frames * channels)
  }

  lemma FrameOfSample(i: nat, channels: nat, frames: nat)
    requires i < frames * channels
    ensures channels > 0 && i / channels < frames
    ensures i / channels * channels <= i < (i / channels + 1) * channels
  {
    assert channels > 0;
    var f := i / channels;
    assert i == f * channels + i % channels;
    assert (f + 1) * channels == f * channels + channels;
    if f >= frames {
      Scale(frames, f, channels);
    }
  }

  lemma Scale(a: int, b: int, channels: int)
    requires a <= b && 0 <= channels
    ensures a * channels <= b * channels
  {
    assert b * channels - a * channels == (b - a) * channels;
  }

  /** A sample is covered exactly when some bucket holds it. */
  lemma BucketsCover(data: seq<Sample>, frames: nat, channels: nat, s: Sample)
    requires frames > 0
    ensures s in Covered(data, frames, channels) <==>
      exists k :: 0 <= k < Columns(frames) && s in Bucket(data, frames, channels, k)
  {
    hide FirstFrame;
    if s in Covered(data, frames, channels) {
      var i :| 0 <= i < |Covered(data, frames, channels)| && Covered(data, frames, channels)[i] == s;
      assert data[i] == s;
      var k := SampleHasBucket(data, frames, channels, i);
    }
    forall k | 0 <= k < Columns(frames) && s in Bucket(data, frames, channels, k)
      ensures s in Covered(data, frames, channels)
    {
      BucketInside(data, frames, channels, k, s);
    }
  }

  lemma SampleHasBucket(data: seq<Sample>, frames: nat, channels: nat, i: nat) returns (k: nat)
    requires i < |data| && i < frames * channels
    ensures frames > 0 && k < Columns(frames) && data[i] in Bucket(data, frames, channels, k)
  {
    hide FirstFrame, Slice, From, Columns;
    FrameOfSample(i, channels, frames);
    FirstFrameOfAll(frames);
    k := BucketOf(frames, i / channels, 0);
    SampleInRange(frames, channels, k, i / channels, i);
    InSlice(data, From(frames, channels, k), From(frames, channels, k + 1), i);
  }

  lemma FirstFrameOfAll(frames: nat)
    requires frames > 0
    ensures FirstFrame(frames, 0) == 0
  {
    BucketsFollow(frames, 0);
  }

  lemma SampleInRange(frames: nat, channels: nat, k: nat, frame: nat, i: nat)
    requires frames > 0 && InBucket(frames, k, frame)
    requires frame * channels <= i < (frame + 1) * channels
    ensures From(frames, channels, k) <= i < From(frames, channels, k + 1)
  {
    hide FirstFrame;
    Scale(FirstFrame(frames, k), frame, channels);
    Scale(frame + 1, FirstFrame(frames, k + 1), channels);
  }

  lemma InSlice(data: seq<Sample>, from: nat, to: nat, i: nat)
    requires from <= i < to && i < |data|
    ensures data[i] in Slice(data, from, to)
  {
    assert Slice(data, from, to)[i - from] == data[i];
  }

  lemma BucketInside(data: seq<Sample>, frames: nat, channels: nat, k: nat, s: Sample)
    requires frames > 0 && k < Columns(frames) && s in Bucket(data, frames, channels, k)
    ensures s in Covered(data, frames, channels)
  {
    hide FirstFrame;
    BucketsFollow(frames, k);
    FirstFrameMonotone(frames, k + 1, Columns(frames));
    Scale(FirstFrame(frames, k + 1), frames, channels);
    var bucket := Bucket(data, frames, channels, k);
    var i :| 0 <= i < |bucket| && bucket[i] == s;
    InSlice(data, 0, frames * channels, From(frames, channels, k) + i);
  }

  // ------------------------------------------------------------ the extremes

  /** Every bucket holds a finite sample. */
  predicate Dense(data: seq<Sample>, frames: nat, channels: nat)
    requires frames > 0
  {
    forall k :: 0 <= k < Columns(frames) ==> HasFinite(Bucket(data, frames, channels, k))
  }

  /** Every covered finite sample lies between the reported extremes. */
  lemma FiniteSamplesWithin(w: Overview, data: seq<Sample>, frames: nat, channels: nat, x: real)
    requires Describes(w, data, frames, channels) && Some(x) in Covered(data, frames, channels)
    ensures w.minValue <= x <= w.maxValue
  {
    hide Covered, Bucket;
    CoveredNeedsFrames(data, frames, channels);
    BucketsCover(data, frames, channels, Some(x));
    var k :| 0 <= k < Columns(frames) && Some(x) in Bucket(data, frames, channels, k);
    assert w.minimums[k] in w.minimums && w.maximums[k] in w.maximums;
  }

  /** The least and the greatest finite sample. */
  predicate IsLeast(samples: seq<Sample>, x: real) {
    Some(x) in samples && forall s <- samples :: s.Some? ==> x <= s.value
  }

  predicate IsGreatest(samples: seq<Sample>, x: real) {
    Some(x) in samples && forall s <- samples :: s.Some? ==> s.value <= x
  }

  predicate HasAtMost(samples: seq<Sample>, bound: real) {
    exists s <- samples :: s.Some? && s.value <= bound
  }

  predicate HasAtLeast(samples: seq<Sample>, bound: real) {
    exists s <- samples :: s.Some? && s.value >= bound
  }

  lemma WithinForAll(w: Overview, data: seq<Sample>, frames: nat, channels: nat)
    requires Describes(w, data, frames, channels)
    ensures forall s <- Covered(data, frames, channels) :: s.Some? ==> w.minValue <= s.value <= w.maxValue
  {
    hide Covered, Describes;
    forall s | s in Covered(data, frames, channels) && s.Some?
      ensures w.minValue <= s.value <= w.maxValue
    {
      FiniteSamplesWithin(w, data, frames, channels, s.value);
    }
  }

  lemma CoveredNeedsFrames(data: seq<Sample>, frames: nat, channels: nat)
    requires Covered(data, frames, channels) != []
    ensures frames > 0
  {
  }

  /** A reported extreme is a covered sample or zero; zero only for want of a finite
      sample in some bucket, which also keeps the extreme on zero's side. */
  lemma MinimumSource(w: Overview, data: seq<Sample>, frames: nat, channels: nat)
    requires Describes(w, data, frames, channels) && frames > 0
    ensures Some(w.minValue) in Covered(data, frames, channels) || (w.minValue == 0.0 && !Dense(data, frames, channels))
    ensures !Dense(data, frames, channels) ==> w.minValue <= 0.0
  {
    hide Covered, Bucket, Columns, HasFinite;
    var j :| 0 <= j < |w.minimums| && w.minimums[j] == w.minValue;
    assert Extremes(Bucket(data, frames, channels, j), w.minimums[j], w.maximums[j]);
    if HasFinite(Bucket(data, frames, channels, j)) {
      BucketInside(data, frames, channels, j, Some(w.minValue));
    }
    if !Dense(data, frames, channels) {
      var k :| 0 <= k < Columns(frames) && !HasFinite(Bucket(data, frames, channels, k));
      assert Extremes(Bucket(data, frames, channels, k), w.minimums[k], w.maximums[k]);
      assert w.minimums[k] in w.minimums;
    }
  }

  /** A reported extreme is a covered sample or zero; zero only for want of a finite
      sample in some bucket, which also keeps the extreme on zero's side. */
  lemma MaximumSource(w: Overview, data: seq<Sample>, frames: nat, channels: nat)
    requires Describes(w, data, frames, channels) && frames > 0
    ensures Some(w.maxValue) in Covered(data, frames, channels) || (w.maxValue == 0.0 && !Dense(data, frames, channels))
    ensures !Dense(data, frames, channels) ==> w.maxValue >= 0.0
  {
    hide Covered, Bucket, Columns, HasFinite;
    var j :| 0 <= j < |w.maximums| && w.maximums[j] == w.maxValue;
    assert Extremes(Bucket(data, frames, channels, j), w.minimums[j], w.maximums[j]);
    if HasFinite(Bucket(data, frames, channels, j)) {
      BucketInside(data, frames, channels, j, Some(w.maxValue));
    }
    if !Dense(data, frames, channels) {
      var k :| 0 <= k < Columns(frames) && !HasFinite(Bucket(data, frames, channels, k));
      assert Extremes(Bucket(data, frames, channels, k), w.minimums[k], w.maximums[k]);
      assert w.maximums[k] in w.maximums;
    }
  }

  /** A bucket without a finite sample reports zero, so the reported minimum is the
      least finite sample exactly when no bucket is without one or some sample is not
      above zero. */
  lemma MinimumExactIff(w: Overview, data: seq<Sample>, frames: nat, channels: nat)
    requires Describes(w, data, frames, channels) && HasFinite(Covered(data, frames, channels))
    ensures frames > 0
    ensures IsLeast(Covered(data, frames, channels), w.minValue) <==>
              Dense(data, frames, channels) || HasAtMost(Covered(data, frames, channels), 0.0)
  {
    CoveredNeedsFrames(data, frames, channels);
    hide Covered, Describes, Dense;
    WithinForAll(w, data, frames, channels);
    MinimumSource(w, data, frames, channels);
    var covered := Covered(data, frames, channels);
    if HasAtMost(covered, 0.0) && w.minValue == 0.0 {
      var s :| s in covered && s.Some? && s.value <= 0.0;
      assert s == Some(w.minValue);
    }
    if Some(w.minValue) in covered && !Dense(data, frames, channels) {
      assert HasAtMost(covered, 0.0);
    }
  }

  /** And the reported maximum is the greatest exactly when no bucket is without a
      finite sample or some sample is not below zero. */
  lemma MaximumExactIff(w: Overview, data: seq<Sample>, frames: nat, channels: nat)
    requires Describes(w, data, frames, channels) && HasFinite(Covered(data, frames, channels))
    ensures frames > 0
    ensures IsGreatest(Covered(data, frames, channels), w.maxValue) <==>
              Dense(data, frames, channels) || HasAtLeast(Covered(data, frames, channels), 0.0)
  {
    CoveredNeedsFrames(data, frames, channels);
    hide Covered, Describes, Dense;
    WithinForAll(w, data, frames, channels);
    MaximumSource(w, data, frames, channels);
    var covered := Covered(data, frames, channels);
    if HasAtLeast(covered, 0.0) && w.maxValue == 0.0 {
      var s :| s in covered && s.Some? && s.value >= 0.0;
      assert s == Some(w.maxValue);
    }
    if Some(w.maxValue) in covered && !Dense(data, frames, channels) {
      assert HasAtLeast(covered, 0.0);
    }
  }

  /** When every sample is finite and the data holds all declared frames, the overview
      reports the extremes of the whole buffer. */
  lemma WholeBufferExtremes(w: Overview, data: seq<Sample>, frames: nat, channels: nat)
    requires Describes(w, data, frames, channels)
    requires frames > 0 && channels > 0 && |data| == frames * channels
    requires forall s <- data :: s.Some?
    ensures IsLeast(data, w.minValue) && IsGreatest(data, w.maxValue)
  {
    FullDataIsDense(data, frames, channels);
    hide Dense, Describes;
    MinimumExactIff(w, data, frames, channels);
    MaximumExactIff(w, data, frames, channels);
  }

  lemma FullDataIsDense(data: seq<Sample>, frames: nat, channels: nat)
    requires frames > 0 && channels > 0 && |data| == frames * channels
    requires forall s <- data :: s.Some?
    ensures Dense(data, frames, channels)
    ensures Covered(data, frames, channels) == data && HasFinite(data)
  {
    hide FirstFrame;
    Scale(1, frames, channels);
    assert data[0] in data;
    forall k | 0 <= k < Columns(frames)
      ensures HasFinite(Bucket(data, frames, channels, k))
    {
      BucketsFollow(frames, k);
      FirstFrameMonotone(frames, k + 1, Columns(frames));
      Scale(FirstFrame(frames, k) + 1, FirstFrame(frames, k + 1), channels);
      Scale(FirstFrame(frames, k + 1), frames, channels);
      var i := From(frames, channels, k);
      InSlice(data, i, From(frames, channels, k + 1), i);
      assert data[i] in data;
    }
  }

  lemma ExampleBuckets(data: seq<Sample>)
    requires data == [Some(1.0), None]
    ensures Bucket(data, 2, 1, 0) == [Some(1.0)] && Bucket(data, 2, 1, 1) == [None]
  {
  }

  /** A buffer whose least sample is missed: the second frame is not a number, so its
      bucket reports zero, and zero becomes the minimum although the only finite
      sample is one. */
  lemma EmptyBucketReportsZero(w: Overview)
    requires Describes(w, [Some(1.0), None], 2, 1)
    ensures w.minValue == 0.0 && !IsLeast([Some(1.0), None], w.minValue)
  {
    hide Bucket;
    var data: seq<Sample> := [Some(1.0), None];
    ExampleBuckets(data);
    assert Some(1.0) in [Some(1.0)];
    assert w.minimums[0] == 1.0 && w.minimums[1] == 0.0;
    assert w.minimums[1] in w.minimums;
    var i :| 0 <= i < 2 && w.minimums[i] == w.minValue;
  }

  /** Up to 128 frames have a bucket each; more are dealt out over 128 buckets whose sizes
      differ by at most one. */
  lemma BucketSizes(frames: nat, j: nat, k: nat)
    requires frames > 0 && j < Columns(frames) && k < Columns(frames)
    ensures Columns(frames) == if frames <= 128 then frames else 128
    ensures frames <= 128 ==> FirstFrame(frames, j) == j && FirstFrame(frames, j + 1) == j + 1
    ensures FirstFrame(frames, j + 1) - FirstFrame(frames, j) <= FirstFrame(frames, k + 1) - FirstFrame(frames, k) + 1
  {
    if frames <= 128 {
      OneFrameEach(frames, j);
      OneFrameEach(frames, j + 1);
    }
    BucketSize(frames, j);
    BucketSize(frames, k);
    hide FirstFrame;
  }

  lemma OneFrameEach(frames: nat, k: nat)
    requires 0 < frames <= 128
    ensures FirstFrame(frames, k) == k
  {
    FloorOfMultiple(k, frames);
    assert k * frames == frames * k;
  }

  /** A bucket gets its share of the frames, rounded down or up. */
  lemma BucketSize(frames: nat, k: nat)
    requires frames > 0 && k < Columns(frames)
    ensures var share := frames / Columns(frames);
      share <= FirstFrame(frames, k + 1) - FirstFrame(frames, k) <= share + 1
  {
    assert (k + 1) * frames == k * frames + frames;
    QuotientOfSum(k * frames, frames, Columns(frames));
  }

  lemma QuotientOfSum(a: nat, b: nat, columns: nat)
    requires columns > 0
    ensures a / columns + b / columns <= (a + b) / columns <= a / columns + b / columns + 1
  {
    var p, q, n := a / columns, b / columns, (a + b) / columns;
    var r, s, t := a % columns, b % columns, (a + b) % columns;
    assert a == p * columns + r && b == q * columns + s && a + b == n * columns + t;
    Multiples(n - p - q, columns, r + s - t);
    assert (n - p - q) * columns == n * columns - p * columns - q * columns;
  }

  /** A multiple between minus one and two times the factor is zero or the factor. */
  lemma Multiples(d: int, columns: nat, gap: int)
    requires columns > 0 && -(columns as int) < gap < 2 * columns
    ensures d * columns == gap ==> d == 0 || d == 1
  {
    if d >= 2 {
      assert d * columns >= 2 * columns by { Larger(2, d, columns); }
    } else if d <= -1 {
      assert d * columns <= -1 * columns by { Larger(d, -1, columns); }
    }
  }

  lemma Larger(a: int, b: int, columns: nat)
    requires a <= b
    ensures a * columns <= b * columns
  {
    assert (b - a) * columns >= 0;
    assert (b - a) * columns == b * columns - a * columns;
  }
}
