/** The duration histogram of lib/observe/metric.go, samples recorded one after another. Durations
    are integers (nanoseconds); the quantile's float64 product is taken over the reals. */
module Histograms {
  /** 1us, 10us, 100us, 1ms, 10ms, 100ms, 1s and 10s. */
  const DEFAULT_DURATION_BOUNDS: seq<int> :=
    [1_000, 10_000, 100_000, 1_000_000, 10_000_000, 100_000_000, 1_000_000_000, 10_000_000_000]

  /** The default buckets are the eight decades from a microsecond to ten seconds. */
  lemma DefaultBoundsAreDecades()
    ensures |DEFAULT_DURATION_BOUNDS| == 8 && DEFAULT_DURATION_BOUNDS[0] == 1_000
    ensures forall i :: 0 <= i < 7 ==> DEFAULT_DURATION_BOUNDS[i + 1] == 10 * DEFAULT_DURATION_BOUNDS[i]
    ensures Increasing(DEFAULT_DURATION_BOUNDS)
  {
  }

  /** The bucket of a sample: the first bound it does not exceed, else the overflow bucket. */
  function Bucket(bounds: seq<int>, d: int): (i: nat)
    ensures i <= |bounds|
    ensures i < |bounds| ==> d <= bounds[i]
    ensures forall j :: 0 <= j < i ==> bounds[j] < d
  {
    if bounds == [] then 0
    else if d <= bounds[0] then 0
    else 1 + Bucket(bounds[1..], d)
  }

  /** How many samples fell into bucket i, and how many into buckets up to i. */
  function CountIn(bounds: seq<int>, samples: seq<int>, i: int): nat {
    if samples == [] then 0
    else
      CountIn(bounds, samples[..|samples| - 1], i)
      + (if Bucket(bounds, samples[|samples| - 1]) == i then 1 else 0)
  }

  function CountUpTo(bounds: seq<int>, samples: seq<int>, i: int): nat {
    if samples == [] then 0
    else
      CountUpTo(bounds, samples[..|samples| - 1], i)
      + (if Bucket(bounds, samples[|samples| - 1]) <= i then 1 else 0)
  }

  /** How many samples are at most x. */
  function AtMost(samples: seq<int>, x: int): nat {
    if samples == [] then 0
    else AtMost(samples[..|samples| - 1], x) + (if samples[|samples| - 1] <= x then 1 else 0)
  }

  function Sum(samples: seq<int>): int {
    if samples == [] then 0 else Sum(samples[..|samples| - 1]) + samples[|samples| - 1]
  }

  /** Go's integer division. */
  function TruncDiv(a: int, b: int): int
    requires b > 0
  {
    if a >= 0 then a / b else -((-a) / b)
  }

  predicate Increasing(bounds: seq<int>) {
    forall i, j :: 0 <= i < j < |bounds| ==> bounds[i] < bounds[j]
  }

  lemma {:induction false} UpToGrows(bounds: seq<int>, samples: seq<int>, i: int)
    ensures CountUpTo(bounds, samples, i) == CountUpTo(bounds, samples, i - 1) + CountIn(bounds, samples, i)
    ensures CountUpTo(bounds, samples, -1) == 0
  {
    if samples != [] {
      UpToGrows(bounds, samples[..|samples| - 1], i);
    }
  }

  /** The buckets together hold every sample. */
  lemma {:induction false} AllCounted(bounds: seq<int>, samples: seq<int>)
    ensures CountUpTo(bounds, samples, |bounds|) == |samples|
  {
    if samples != [] {
      AllCounted(bounds, samples[..|samples| - 1]);
    }
  }

  lemma {:induction false} CountsAddUp(bounds: seq<int>, samples: seq<int>, counts: seq<int>, k: nat)
    requires k <= |counts| && forall i :: 0 <= i < |counts| ==> counts[i] == CountIn(bounds, samples, i)
    ensures Sum(counts[..k]) == CountUpTo(bounds, samples, k - 1)
  {
    UpToGrows(bounds, samples, k - 1);
    if k > 0 {
      CountsAddUp(bounds, samples, counts, k - 1);
      assert counts[..k][..k - 1] == counts[..k - 1];
    }
  }

  /** No sample is lost or counted twice: the counts of all buckets add up to the number of samples. */
  lemma BucketsSumToSamples(bounds: seq<int>, samples: seq<int>, counts: seq<int>)
    requires |counts| == |bounds| + 1
    requires forall i :: 0 <= i < |counts| ==> counts[i] == CountIn(bounds, samples, i)
    ensures Sum(counts) == |samples|
  {
    CountsAddUp(bounds, samples, counts, |counts|);
    AllCounted(bounds, samples);
    assert counts[..|counts|] == counts;
  }

  /** With increasing bounds, the buckets up to i hold exactly the samples not above bound i. */
  lemma {:induction false} UpToIsAtMost(bounds: seq<int>, samples: seq<int>, i: nat)
    requires Increasing(bounds) && i < |bounds|
    ensures CountUpTo(bounds, samples, i) == AtMost(samples, bounds[i])
  {
    if samples != [] {
      UpToIsAtMost(bounds, samples[..|samples| - 1], i);
      var d := samples[|samples| - 1];
      assert Bucket(bounds, d) <= i <==> d <= bounds[i];
    }
  }

  /** Bucket k is the first at which the running count reaches the target. */
  ghost predicate StopsAt(bounds: seq<int>, samples: seq<int>, target: int, k: nat) {
    && k <= |bounds| && CountUpTo(bounds, samples, k) >= target
    && forall j :: 0 <= j < k ==> CountUpTo(bounds, samples, j) < target
  }

  /** bounds[k] is the least bound with at least target samples not above it. */
  ghost predicate LeastBound(bounds: seq<int>, samples: seq<int>, target: int, k: nat) {
    && k < |bounds| && AtMost(samples, bounds[k]) >= target
    && forall j :: 0 <= j < k ==> AtMost(samples, bounds[j]) < target
  }

  class Histogram {
    const bounds: seq<int>
    const counts: array<int>
    var sum: int
    var n: int
    ghost var samples: seq<int>

    ghost predicate Valid()
      reads this, counts
    {
      && |bounds| > 0 && counts.Length == |bounds| + 1
      && n == |samples| && sum == Sum(samples)
      && forall i :: 0 <= i < counts.Length ==> counts[i] == CountIn(bounds, samples, i)
    }

    constructor (bounds: seq<int>)
      ensures Valid() && samples == [] && fresh(counts)
      ensures this.bounds == if bounds == [] then DEFAULT_DURATION_BOUNDS else bounds
    {
      var chosen := if bounds == [] then DEFAULT_DURATION_BOUNDS else bounds;
      this.bounds := chosen;
      counts := new int[|chosen| + 1](_ => 0);
      sum, n, samples := 0, 0, [];
    }

    method Observe(d: int)
      requires Valid()
      modifies this, counts
      ensures Valid() && samples == old(samples) + [d]
    {
      n := n + 1;
      sum := sum + d;
      samples := samples + [d];
      assert samples[..|samples| - 1] == old(samples);
      for i := 0 to |bounds|
        invariant forall j :: 0 <= j < i ==> bounds[j] < d
        invariant forall j :: 0 <= j < counts.Length ==> counts[j] == old(counts[j])
        invariant n == |samples| && sum == Sum(samples) && samples == old(samples) + [d]
      {
        if d <= bounds[i] {
          assert Bucket(bounds, d) == i;
          counts[i] := counts[i] + 1;
          return;
        }
      }
      assert Bucket(bounds, d) == |bounds|;
      counts[counts.Length - 1] := counts[counts.Length - 1] + 1;
    }

    /** For q in (0, 1) and at least one sample, the rank t is floor(n * q) and the scan always stops, in
        some bucket k, whatever the bounds. With increasing bounds a finite bucket means the least bound
        that at least t samples do not exceed; the overflow bucket is used only when no bound has that
        many, and answers the overall mean. */
    method Quantile(q: real) returns (d: int, ghost t: int, ghost k: nat)
      requires Valid()
      ensures !(0.0 < q < 1.0) || n == 0 ==> d == 0
      ensures 0.0 < q < 1.0 && n > 0 ==>
                t as real <= n as real * q < t as real + 1.0 && ScanAnswers(bounds, samples, t, k, sum, d)
      ensures 0.0 < q < 1.0 && n > 0 && Increasing(bounds) ==> Answers(bounds, samples, t, k, sum, d)
    {
      t, k := 0, 0;
      if q <= 0.0 || q >= 1.0 {
        return 0, t, k;
      }
      var snap := counts[..];
      if n == 0 {
        return 0, t, k;
      }
      d, t, k := EstimateAt(bounds, samples, snap, q, sum, n);
    }
  }

  /** The rank a quantile asks for: int64(float64(n) * q). */
  method Rank(n: int, q: real) returns (t: int)
    requires n > 0 && 0.0 < q < 1.0
    ensures t as real <= n as real * q < t as real + 1.0 && t <= n
  {
    t := (n as real * q).Floor;
    assert n as real * q <= n as real * 1.0;
  }

  /** The scan of Quantile: the first bucket at which the running count reaches the target. It
      always finds one, so the fall-through answer 0 is never given. */
  method Scan(bounds: seq<int>, ghost samples: seq<int>, snap: seq<int>, target: int) returns (k: nat)
    requires |snap| == |bounds| + 1 && target <= |samples|
    requires forall i :: 0 <= i < |snap| ==> snap[i] == CountIn(bounds, samples, i)
    ensures StopsAt(bounds, samples, target, k)
  {
    var cum := 0;
    UpToGrows(bounds, samples, 0);
    AllCounted(bounds, samples);
    for i := 0 to |snap|
      invariant cum == CountUpTo(bounds, samples, i - 1)
      invariant forall j :: 0 <= j < i ==> CountUpTo(bounds, samples, j) < target
    {
      UpToGrows(bounds, samples, i);
      cum := cum + snap[i];
      if cum >= target {
        return i;
      }
    }
    assert false;
  }

  /** d is sum / n, rounded towards zero. */
  ghost predicate IsMean(d: int, sum: int, n: int) {
    if sum >= 0 then 0 <= d * n <= sum < d * n + n else d * n - n < sum <= d * n <= 0
  }

  lemma QuotientBounds(a: nat, n: nat)
    requires n > 0
    ensures 0 <= a / n * n <= a < a / n * n + n
  {
    assert a == a / n * n + a % n;
  }

  lemma TruncDivIsMean(sum: int, n: int)
    requires n > 0
    ensures IsMean(TruncDiv(sum, n), sum, n)
  {
    if sum >= 0 {
      QuotientBounds(sum, n);
    } else {
      QuotientBounds(-sum, n);
      NegatedProduct((-sum) / n, n);
    }
  }

  lemma NegatedProduct(a: int, n: int)
    ensures (-a) * n == -(a * n)
  {
  }

  /** What an answer says about the buckets: the bound of the bucket the scan stopped in, or the mean. */
  ghost predicate ScanAnswers(bounds: seq<int>, samples: seq<int>, target: int, k: nat, sum: int, d: int) {
    && StopsAt(bounds, samples, target, k)
    && (k < |bounds| ==> d == bounds[k])
    && (k == |bounds| ==> IsMean(d, sum, |samples|))
  }

  /** The scan and the answer its bucket gives. */
  method Estimate(bounds: seq<int>, ghost samples: seq<int>, snap: seq<int>, target: int, sum: int, n: int)
    returns (ghost k: nat, d: int)
    requires |bounds| > 0 && |snap| == |bounds| + 1 && n == |samples| > 0 && target <= n
    requires forall i :: 0 <= i < |snap| ==> snap[i] == CountIn(bounds, samples, i)
    ensures ScanAnswers(bounds, samples, target, k, sum, d)
  {
    var stop := Scan(bounds, samples, snap, target);
    k := stop;
    if stop < |bounds| {
      return k, bounds[stop];
    }
    UpToGrows(bounds, samples, stop);
    TruncDivIsMean(sum, n);
    var last := bounds[|bounds| - 1];
    d := if snap[stop] > 0 then TruncDiv(sum, n) else last;
  }

  /** What an answer says about the samples. */
  ghost predicate Answers(bounds: seq<int>, samples: seq<int>, target: int, k: nat, sum: int, d: int)
    requires |bounds| > 0 && |samples| > 0
  {
    if AtMost(samples, bounds[|bounds| - 1]) >= target
    then LeastBound(bounds, samples, target, k) && d == bounds[k]
    else IsMean(d, sum, |samples|)
  }

  /** Quantile once the counters are copied. */
  method EstimateAt(bounds: seq<int>, ghost samples: seq<int>, snap: seq<int>, q: real, sum: int, n: int)
    returns (d: int, ghost t: int, ghost k: nat)
    requires |bounds| > 0 && |snap| == |bounds| + 1 && n == |samples| > 0 && 0.0 < q < 1.0
    requires forall i :: 0 <= i < |snap| ==> snap[i] == CountIn(bounds, samples, i)
    ensures t as real <= n as real * q < t as real + 1.0 && ScanAnswers(bounds, samples, t, k, sum, d)
    ensures Increasing(bounds) ==> Answers(bounds, samples, t, k, sum, d)
  {
    var target := Rank(n, q);
    t := target;
    k, d := Estimate(bounds, samples, snap, target, sum, n);
    BucketAnswers(bounds, samples, t, k, sum, d);
  }

  /** The scan stops in bucket k: what that says about the samples themselves. */
  lemma BucketAnswers(bounds: seq<int>, samples: seq<int>, target: int, k: nat, sum: int, d: int)
    requires |bounds| > 0 && |samples| > 0 && ScanAnswers(bounds, samples, target, k, sum, d)
    ensures Increasing(bounds) ==> Answers(bounds, samples, target, k, sum, d)
  {
    if Increasing(bounds) {
      forall j: nat | j < |bounds|
        ensures CountUpTo(bounds, samples, j) == AtMost(samples, bounds[j])
      {
        UpToIsAtMost(bounds, samples, j);
      }
      if k < |bounds| {
        AtMostGrows(samples, bounds[k], bounds[|bounds| - 1]);
        assert LeastBound(bounds, samples, target, k);
      }
    }
  }

  lemma {:induction false} AtMostGrows(samples: seq<int>, x: int, y: int)
    requires x <= y
    ensures AtMost(samples, x) <= AtMost(samples, y)
  {
    if samples != [] { AtMostGrows(samples[..|samples| - 1], x, y); }
  }
}
