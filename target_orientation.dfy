/** The statistics and the angle search of TargetOrientation.cpp: the
    histogram median, the percentile selector and the selection rule of the
    brute-force rotation search. The rotation, row-sum and peak that score a
    candidate angle are library calls and enter as a function `score`. */
module TargetOrientation {
  import opened PixelStats
  import opened Image
  import Sorting

  // ---------------------------------------------------------------------------
  // Histogram median (getMedian)
  // ---------------------------------------------------------------------------

  /** The 256-bin intensity histogram of an image, with exact integer counts. */
  function CalcHist(image: Mat): (hist: seq<nat>)
    requires image.Valid()
    ensures |hist| == 256
    ensures forall v :: 0 <= v < 256 ==>
      hist[v] == CountBelow(Pixels(image), v + 1) - CountBelow(Pixels(image), v)
  {
    var s := Pixels(image);
    HistogramCountsEqual(s);
    seq(256, v requires 0 <= v < 256 => Histogram(s, v))
  }

  /** The first bin at which the running histogram total exceeds
      (rows * cols) / 2, or -1 when no bin does. `scanned` counts the bins the
      loop visits and `assignments` the times `med` is set. */
  method GetMedian(image: Mat) returns (med: int, ghost scanned: nat, ghost assignments: nat)
    requires image.Valid()
    ensures var s := Pixels(image);
      med != -1 ==>
        && 0 <= med < 256
        && CumHist(s, med + 1) > |s| / 2
        && forall j :: 0 < j <= med ==> CumHist(s, j) <= |s| / 2
    ensures med == -1 <==> image.rows == 0 || image.cols == 0
    ensures med != -1 ==> IsOrderStatistic(Pixels(image), |Pixels(image)| / 2, med)
    ensures scanned == if med == -1 then 256 else med + 1
    ensures assignments <= 1
  {
    var m := image.rows * image.cols / 2;
    var bin := 0;
    med := -1;
    var hist := CalcHist(image);
    ghost var s := Pixels(image);
    PixelCount(image);
    scanned, assignments := 0, 0;
    var i := 0;
    while i < 256 && med < 0
      invariant 0 <= i <= 256 && scanned == i
      invariant bin == CumHist(s, i)
      invariant med < 0 ==> med == -1 && assignments == 0 && bin <= m
      invariant med < 0 ==> forall j :: 0 < j <= i ==> CumHist(s, j) <= m
      invariant med >= 0 ==> med == i - 1 && assignments == 1 && bin > m
      invariant med >= 0 ==> forall j :: 0 < j <= med ==> CumHist(s, j) <= m
    {
      bin := bin + hist[i];
      if bin > m && med < 0 {
        med := i;
        assignments := assignments + 1;
      }
      i := i + 1;
      scanned := scanned + 1;
    }
    MedianBin(s, m, med);
  }

  /** What the scan's exit state says about the bin it found, or about its failure to find one. */
  lemma MedianBin(s: seq<Pixel>, m: int, med: int)
    requires m == |s| / 2
    requires med < 0 ==> med == -1 && CumHist(s, 256) <= m
    requires med >= 0 ==> med < 256 && CumHist(s, med + 1) > m
    requires med >= 0 ==> forall j :: 0 < j <= med ==> CumHist(s, j) <= m
    ensures med == -1 <==> |s| == 0
    ensures med != -1 ==> IsOrderStatistic(s, m, med)
  {
  }

  // ---------------------------------------------------------------------------
  // Percentile selector (getXPercentile)
  // ---------------------------------------------------------------------------

  /** The index `n * percentile`, truncated as the conversion to `int` does. */
  function PercentileIndex(n: nat, percentile: real): (k: int)
    requires 0.0 <= percentile < 1.0
    ensures 0 <= k
    ensures n > 0 ==> k < n
  {
    PercentileBelowCount(n, percentile);
    (n as real * percentile).Floor
  }

  lemma PercentileBelowCount(n: nat, percentile: real)
    requires 0.0 <= percentile < 1.0
    ensures 0.0 <= n as real * percentile
    ensures n > 0 ==> n as real * percentile < n as real
  {
    if n > 0 {
      assert n as real * percentile < n as real * 1.0;
    }
  }

  /** The sample at index floor(n * percentile) of the ascending sort of all
      `n` samples, read either as one block or row by row. */
  method GetXPercentile(input: Mat, percentile: real) returns (v: Pixel)
    requires input.Valid()
    requires input.rows > 0 && input.cols > 0
    requires 0.0 <= percentile < 1.0
    ensures IsOrderStatistic(Pixels(input), PercentileIndex(|Pixels(input)|, percentile), v)
    ensures v in Pixels(input)
  {
    var vec: seq<Pixel>;
    if input.IsContinuous() {
      vec := input.Span();
      ContinuousSpanIsRowMajor(input);
    } else {
      vec := [];
      for i := 0 to input.rows
        invariant vec == Flatten(input.Grid()[..i])
      {
        assert input.Grid()[..i + 1][..i] == input.Grid()[..i];
        vec := vec + input.Row(i);
      }
      assert input.Grid()[..input.rows] == input.Grid();
    }
    assert vec == Pixels(input);
    PixelCount(input);

    var a := new Pixel[|vec|](k requires 0 <= k < |vec| => vec[k]);
    assert a[..] == vec;
    Sorting.Sort(a, PixelLe);

    var index := PercentileIndex(a.Length, percentile);
    v := a[index];
    SortedSelects(a[..], vec, index);
  }

  /** The element at index `k` of a sorted permutation of `s` is the `k`-th order statistic of `s`. */
  lemma SortedSelects(sorted: seq<Pixel>, s: seq<Pixel>, k: nat)
    requires Sorting.SortedBy(sorted, PixelLe)
    requires multiset(sorted) == multiset(s)
    requires k < |sorted|
    ensures IsOrderStatistic(s, k, sorted[k])
    ensures sorted[k] in s
  {
    var v: int := sorted[k];
    SortedOrderStatistic(sorted, k);
    CountBelowPermutation(sorted, s, v);
    CountBelowPermutation(sorted, s, v + 1);
    OrderStatisticIsSample(s, k, sorted[k]);
  }

  lemma PercentileIndexMonotone(n: nat, p1: real, p2: real)
    requires 0.0 <= p1 <= p2 < 1.0
    ensures PercentileIndex(n, p1) <= PercentileIndex(n, p2)
  {
    assert n as real * (p2 - p1) >= 0.0;
    assert n as real * p1 <= n as real * p2;
  }

  /** Percentile 0 selects the darkest sample. */
  lemma PercentileZeroIsMinimum(s: seq<Pixel>, v: int)
    requires IsOrderStatistic(s, PercentileIndex(|s|, 0.0), v)
    ensures v in s
    ensures forall i :: 0 <= i < |s| ==> v <= s[i]
  {
    assert PercentileIndex(|s|, 0.0) == 0;
    OrderStatisticZeroIsMinimum(s, v);
  }

  /** A larger percentile never selects a darker sample. */
  lemma PercentileMonotone(s: seq<Pixel>, p1: real, v1: int, p2: real, v2: int)
    requires 0.0 <= p1 <= p2 < 1.0
    requires IsOrderStatistic(s, PercentileIndex(|s|, p1), v1)
    requires IsOrderStatistic(s, PercentileIndex(|s|, p2), v2)
    ensures v1 <= v2
  {
    PercentileIndexMonotone(|s|, p1, p2);
    OrderStatisticMonotone(s, PercentileIndex(|s|, p1), v1, PercentileIndex(|s|, p2), v2);
  }

  /** Half of `n` samples, truncated, is the midpoint getMedian compares against. */
  lemma HalfPercentileIndex(n: nat)
    ensures PercentileIndex(n, 0.5) == n / 2
  {
    var q, r := n / 2, n % 2;
    assert n as real * 0.5 == q as real + r as real * 0.5;
  }

  /** The histogram median is the 50th percentile. */
  lemma MedianIsHalfPercentile(s: seq<Pixel>, med: int, v: int)
    requires IsOrderStatistic(s, |s| / 2, med)
    requires IsOrderStatistic(s, PercentileIndex(|s|, 0.5), v)
    ensures med == v
  {
    HalfPercentileIndex(|s|);
    OrderStatisticUnique(s, |s| / 2, med, v);
  }

  // ---------------------------------------------------------------------------
  // Angle search (max_thetha)
  // ---------------------------------------------------------------------------

  const AngleStep := 5
  const MaxAngle := 180
  /** 0, 5, ..., 180 */
  const CandidateCount := 37

  predicate IsCandidate(theta: int) {
    0 <= theta <= MaxAngle && theta % AngleStep == 0
  }

  /** The candidates are exactly the 37 angles 5 * i for i in 0 .. 36. */
  lemma CandidateEnumeration(theta: int)
    ensures IsCandidate(theta) <==>
      exists i :: 0 <= i < CandidateCount && theta == AngleStep * i
  {
    if IsCandidate(theta) {
      assert theta == AngleStep * (theta / AngleStep);
    }
  }

  /** `operator<` of `std::pair<double, int>`: the first components decide,
      and the second ones only when neither first component is smaller. */
  predicate PairLt(x: (real, int), y: (real, int)) {
    x.0 < y.0 || (!(y.0 < x.0) && x.1 < y.1)
  }

  /** Ascending order of (score, angle) pairs: by score, then by angle. A
      sequence `std::sort` leaves has no pair `<` an earlier one, so consecutive
      pairs are ordered by this relation. */
  predicate PairLe(x: (real, int), y: (real, int)): (b: bool)
    ensures b <==> !PairLt(y, x)
  {
    x.0 < y.0 || (x.0 == y.0 && x.1 <= y.1)
  }

  /** The loop over theta = 0, 5, ..., 180 pushing (score, theta) pairs. */
  method CollectScores(score: int -> real) returns (pairs: seq<(real, int)>)
    ensures |pairs| == CandidateCount
    ensures forall i :: 0 <= i < |pairs| ==> pairs[i] == (score(AngleStep * i), AngleStep * i)
  {
    pairs := [];
    var theta := 0;
    while theta <= MaxAngle
      invariant 0 <= theta <= MaxAngle + AngleStep && theta % AngleStep == 0
      invariant |pairs| == theta / AngleStep
      invariant forall i :: 0 <= i < |pairs| ==> pairs[i] == (score(AngleStep * i), AngleStep * i)
    {
      pairs := pairs + [(score(theta), theta)];
      theta := theta + AngleStep;
    }
  }

  /** Sorts the pairs ascending and takes the last one. */
  method SelectAngle(pairs: seq<(real, int)>) returns (best: (real, int))
    requires |pairs| > 0
    ensures best in pairs
    ensures forall i :: 0 <= i < |pairs| ==> PairLe(pairs[i], best)
  {
    var a := new (real, int)[|pairs|](i requires 0 <= i < |pairs| => pairs[i]);
    assert a[..] == pairs;
    Sorting.Sort(a, PairLe);
    best := a[a.Length - 1];
    assert best in multiset(a[..]);
    forall i | 0 <= i < |pairs|
      ensures PairLe(pairs[i], best)
    {
      assert pairs[i] in multiset(a[..]);
      var j :| 0 <= j < a.Length && a[j] == pairs[i];
      if j < a.Length - 1 {
        assert a[..][j] == a[j] && a[..][a.Length - 1] == best;
      }
    }
  }

  /** The candidate angle whose score is largest, the larger angle winning ties. */
  method MaxTheta(score: int -> real) returns (angle: int)
    ensures IsCandidate(angle)
    ensures forall theta :: IsCandidate(theta) ==> score(theta) <= score(angle)
    ensures forall theta :: IsCandidate(theta) && score(theta) == score(angle) ==> theta <= angle
  {
    var pairs := CollectScores(score);
    var best := SelectAngle(pairs);
    angle := best.1;
    var k :| 0 <= k < |pairs| && pairs[k] == best;
    assert angle == AngleStep * k && best.0 == score(angle);
    forall theta | IsCandidate(theta)
      ensures score(theta) <= score(angle)
      ensures score(theta) == score(angle) ==> theta <= angle
    {
      var j := theta / AngleStep;
      assert pairs[j] == (score(theta), theta);
    }
  }

  /** Reference selection: a single pass over the first `k + 1` candidates
      that keeps the later angle whenever its score is at least the best so far. */
  function RunningBest(score: int -> real, k: nat): int
    requires k < CandidateCount
  {
    if k == 0 then 0
    else
      var best := RunningBest(score, k - 1);
      if score(AngleStep * k) >= score(best) then AngleStep * k else best
  }

  /** `theta` is the best of the candidates up to `limit`: maximal score, largest angle among ties. */
  ghost predicate IsBestUpTo(score: int -> real, limit: int, theta: int) {
    && IsCandidate(theta) && theta <= limit
    && (forall t :: IsCandidate(t) && t <= limit ==> score(t) <= score(theta))
    && (forall t :: IsCandidate(t) && t <= limit && score(t) == score(theta) ==> t <= theta)
  }

  lemma {:induction false} RunningBestIsBest(score: int -> real, k: nat)
    requires k < CandidateCount
    ensures IsBestUpTo(score, AngleStep * k, RunningBest(score, k))
  {
    if k > 0 {
      RunningBestIsBest(score, k - 1);
      forall t | IsCandidate(t) && t <= AngleStep * k && t != AngleStep * k
        ensures t <= AngleStep * (k - 1)
      {
      }
    }
  }

  lemma BestUnique(score: int -> real, limit: int, a: int, b: int)
    requires IsBestUpTo(score, limit, a) && IsBestUpTo(score, limit, b)
    ensures a == b
  {
  }

  /** The sort-then-take-last rule agrees with a single running-maximum pass. */
  lemma MaxThetaIsRunningBest(score: int -> real, angle: int)
    requires IsCandidate(angle)
    requires forall theta :: IsCandidate(theta) ==> score(theta) <= score(angle)
    requires forall theta :: IsCandidate(theta) && score(theta) == score(angle) ==> theta <= angle
    ensures angle == RunningBest(score, CandidateCount - 1)
  {
    RunningBestIsBest(score, CandidateCount - 1);
    BestUnique(score, MaxAngle, angle, RunningBest(score, CandidateCount - 1));
  }
}
