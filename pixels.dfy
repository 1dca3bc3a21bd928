/** Pixel values of an 8-bit grayscale image and the counting statistics the
    percentile selector and the median estimator are specified by. */
module PixelStats {

  /** One 8-bit grayscale sample. */
  type Pixel = x: int | 0 <= x < 256

  /** The ascending order on samples that `std::sort` uses. */
  predicate PixelLe(x: Pixel, y: Pixel) {
    x <= y
  }

  /** Number of samples of `s` strictly below `x`. */
  function CountBelow(s: seq<Pixel>, x: int): (r: nat)
    ensures r <= |s|
    ensures x <= 0 ==> r == 0
    ensures x >= 256 ==> r == |s|
  {
    if s == [] then 0 else (if s[0] < x then 1 else 0) + CountBelow(s[1..], x)
  }

  /** Bin `v` of the 256-bin intensity histogram: how many samples equal `v`.
      A bin is never larger than the image and is non-empty exactly when `v`
      occurs. */
  function Histogram(s: seq<Pixel>, v: Pixel): (n: nat)
    ensures n <= |s|
    ensures n > 0 <==> v in s
  {
    multiset(s)[v]
  }

  /** Running total of the histogram over bins 0 .. i-1: the number of
      samples below `i`. */
  function CumHist(s: seq<Pixel>, i: nat): (n: nat)
    requires i <= 256
    ensures n == CountBelow(s, i)
  {
    if i == 0 then 0
    else
      CountBelowStep(s, i - 1);
      CumHist(s, i - 1) + Histogram(s, i - 1)
  }

  /** `v` is the value at index `k` of the ascending sort of `s`: at most `k`
      samples lie below `v` and more than `k` lie at or below it. */
  ghost predicate IsOrderStatistic(s: seq<Pixel>, k: int, v: int) {
    0 <= v < 256 && CountBelow(s, v) <= k < CountBelow(s, v + 1)
  }

  lemma {:induction false} CountBelowAppend(a: seq<Pixel>, b: seq<Pixel>, x: int)
    ensures CountBelow(a + b, x) == CountBelow(a, x) + CountBelow(b, x)
  {
    if a == [] {
      assert a + b == b;
    } else {
      assert (a + b)[1..] == a[1..] + b;
      CountBelowAppend(a[1..], b, x);
    }
  }

  lemma {:induction false} CountBelowMonotone(s: seq<Pixel>, x: int, y: int)
    requires x <= y
    ensures CountBelow(s, x) <= CountBelow(s, y)
  {
    if s != [] {
      CountBelowMonotone(s[1..], x, y);
    }
  }

  /** Raising the threshold by one adds exactly the samples equal to it. */
  lemma {:induction false} CountBelowStep(s: seq<Pixel>, v: Pixel)
    ensures CountBelow(s, v + 1) == CountBelow(s, v) + Histogram(s, v)
  {
    if s != [] {
      assert s == [s[0]] + s[1..];
      assert multiset(s) == multiset{s[0]} + multiset(s[1..]);
      CountBelowStep(s[1..], v);
    }
  }

  /** Every histogram bin counts the samples at or below it that are not below it. */
  lemma HistogramCountsEqual(s: seq<Pixel>)
    ensures forall v: Pixel :: Histogram(s, v) == CountBelow(s, v + 1) - CountBelow(s, v)
  {
    forall v: Pixel
      ensures Histogram(s, v) == CountBelow(s, v + 1) - CountBelow(s, v)
    {
      CountBelowStep(s, v);
    }
  }

  lemma {:induction false} CountBelowNone(s: seq<Pixel>, x: int)
    requires forall i :: 0 <= i < |s| ==> x <= s[i]
    ensures CountBelow(s, x) == 0
  {
    if s != [] {
      CountBelowNone(s[1..], x);
    }
  }

  lemma {:induction false} CountBelowAll(s: seq<Pixel>, x: int)
    requires forall i :: 0 <= i < |s| ==> s[i] < x
    ensures CountBelow(s, x) == |s|
  {
    if s != [] {
      CountBelowAll(s[1..], x);
    }
  }

  /** Counting below a threshold only depends on the multiset of samples. */
  lemma CountBelowPermutation(a: seq<Pixel>, b: seq<Pixel>, x: int)
    requires multiset(a) == multiset(b)
    ensures CountBelow(a, x) == CountBelow(b, x)
  {
    if x <= 0 {
    } else if x >= 256 {
      assert |a| == |multiset(a)| == |multiset(b)| == |b|;
    } else {
      CumHistPermutation(a, b, x);
    }
  }

  lemma {:induction false} CumHistPermutation(a: seq<Pixel>, b: seq<Pixel>, i: nat)
    requires i <= 256 && multiset(a) == multiset(b)
    ensures CumHist(a, i) == CumHist(b, i)
  {
    if i > 0 {
      CumHistPermutation(a, b, i - 1);
    }
  }

  /** In an ascending sequence the element at index `k` is the `k`-th order statistic. */
  lemma SortedOrderStatistic(t: seq<Pixel>, k: nat)
    requires forall i, j :: 0 <= i < j < |t| ==> t[i] <= t[j]
    requires k < |t|
    ensures IsOrderStatistic(t, k, t[k])
  {
    var v: int := t[k];
    assert t == t[..k] + t[k..];
    CountBelowAppend(t[..k], t[k..], v);
    CountBelowNone(t[k..], v);
    assert t == t[..k + 1] + t[k + 1..];
    CountBelowAppend(t[..k + 1], t[k + 1..], v + 1);
    CountBelowAll(t[..k + 1], v + 1);
  }

  /** Index `k` determines its order statistic uniquely. */
  lemma OrderStatisticUnique(s: seq<Pixel>, k: int, v: int, w: int)
    requires IsOrderStatistic(s, k, v) && IsOrderStatistic(s, k, w)
    ensures v == w
  {
    if v < w {
      CountBelowMonotone(s, v + 1, w);
    } else if w < v {
      CountBelowMonotone(s, w + 1, v);
    }
  }

  /** Order statistics grow with their index. */
  lemma OrderStatisticMonotone(s: seq<Pixel>, k1: int, v1: int, k2: int, v2: int)
    requires IsOrderStatistic(s, k1, v1) && IsOrderStatistic(s, k2, v2)
    requires k1 <= k2
    ensures v1 <= v2
  {
    if v2 < v1 {
      CountBelowMonotone(s, v2 + 1, v1);
    }
  }

  /** An order statistic is one of the samples, never an interpolated value. */
  lemma OrderStatisticIsSample(s: seq<Pixel>, k: int, v: int)
    requires IsOrderStatistic(s, k, v)
    ensures v in s
  {
    CountBelowStep(s, v);
    assert multiset(s)[v] > 0;
  }

  /** The order statistic at index 0 is the smallest sample. */
  lemma OrderStatisticZeroIsMinimum(s: seq<Pixel>, v: int)
    requires IsOrderStatistic(s, 0, v)
    ensures v in s
    ensures forall i :: 0 <= i < |s| ==> v <= s[i]
  {
    OrderStatisticIsSample(s, 0, v);
    forall i | 0 <= i < |s|
      ensures v <= s[i]
    {
      if s[i] < v {
        assert s == s[..i] + s[i..];
        CountBelowAppend(s[..i], s[i..], v);
      }
    }
  }
}
