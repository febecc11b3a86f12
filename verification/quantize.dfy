/** The `quantize(arr, levels)` helper of precision_difference.py:10-15: every
    value snaps to one of `levels` evenly spaced bins between the array's
    minimum and maximum, using numpy's `linspace`, `digitize(right=True)` and
    `clip`. The array is flattened to a sequence; a numpy error is `None`. */
module Quantize {
  import opened Wrappers

  /** `arr.min()`. */
  function Min(xs: seq<real>): (m: real)
    requires |xs| > 0
    ensures forall i :: 0 <= i < |xs| ==> m <= xs[i]
    ensures exists i :: 0 <= i < |xs| && m == xs[i]
  {
    if |xs| == 1 then xs[0]
    else
      var rest := Min(xs[1..]);
      assert forall i :: 1 <= i < |xs| ==> xs[i] == xs[1..][i - 1];
      if xs[0] <= rest then xs[0] else rest
  }

  /** `arr.max()`. */
  function Max(xs: seq<real>): (m: real)
    requires |xs| > 0
    ensures forall i :: 0 <= i < |xs| ==> xs[i] <= m
    ensures exists i :: 0 <= i < |xs| && m == xs[i]
  {
    if |xs| == 1 then xs[0]
    else
      var rest := Max(xs[1..]);
      assert forall i :: 1 <= i < |xs| ==> xs[i] == xs[1..][i - 1];
      if xs[0] >= rest then xs[0] else rest
  }

  /** `np.linspace(lo, hi, n)`: `lo + k * step` with `step = (hi - lo) / (n - 1)`,
      the last sample set to `hi` itself; a single sample is `lo`. */
  function Linspace(lo: real, hi: real, n: nat): (b: seq<real>)
    ensures |b| == n
  {
    if n == 0 then []
    else if n == 1 then [lo]
    else
      var step := (hi - lo) / (n - 1) as real;
      seq(n, k requires 0 <= k < n => if k == n - 1 then hi else lo + k as real * step)
  }

  /** Sample `k` of an evenly spaced grid of `n >= 2` samples. */
  function GridPoint(lo: real, hi: real, n: nat, k: nat): real
    requires n >= 2
  {
    lo + k as real * ((hi - lo) / (n - 1) as real)
  }

  predicate NonDecreasing(b: seq<real>)
  {
    forall i, j :: 0 <= i <= j < |b| ==> b[i] <= b[j]
  }

  /** Every sample is on the evenly spaced grid (the last one included), so
      the first is `lo` and the last is `hi`. */
  lemma LinspaceIsEvenlySpaced(lo: real, hi: real, n: nat)
    requires n >= 2
    ensures forall k :: 0 <= k < n ==> Linspace(lo, hi, n)[k] == GridPoint(lo, hi, n, k)
    ensures Linspace(lo, hi, n)[0] == lo && Linspace(lo, hi, n)[n - 1] == hi
  {
    var step := (hi - lo) / (n - 1) as real;
    assert (n - 1) as real * step == hi - lo;
  }

  /** For `lo <= hi` the samples are non-decreasing and stay in `[lo, hi]`;
      when `lo < hi`, every sample but the last is strictly below `hi`. */
  lemma LinspaceOrdered(lo: real, hi: real, n: nat)
    requires lo <= hi
    ensures NonDecreasing(Linspace(lo, hi, n))
    ensures forall k :: 0 <= k < n ==> lo <= Linspace(lo, hi, n)[k] <= hi
    ensures n >= 1 ==> Linspace(lo, hi, n)[0] == lo
    ensures lo < hi ==> forall k :: 0 <= k < n - 1 ==> Linspace(lo, hi, n)[k] < hi
  {
    var b := Linspace(lo, hi, n);
    if n >= 2 {
      LinspaceIsEvenlySpaced(lo, hi, n);
      var step := (hi - lo) / (n - 1) as real;
      assert step >= 0.0;
      forall k | 0 <= k < n
        ensures lo <= b[k] <= hi
        ensures lo < hi && k < n - 1 ==> b[k] < hi
      {
        StepBelowTop(lo, hi, n, k);
      }
      forall i, j | 0 <= i <= j < n ensures b[i] <= b[j] {
        StepMonotone(step, i, j);
      }
    }
  }

  lemma StepMonotone(step: real, i: nat, j: nat)
    requires step >= 0.0 && i <= j
    ensures i as real * step <= j as real * step
  {
    assert j as real * step - i as real * step == (j - i) as real * step;
  }

  lemma StepBelowTop(lo: real, hi: real, n: nat, k: nat)
    requires lo <= hi && n >= 2 && k < n
    ensures lo <= GridPoint(lo, hi, n, k) <= hi
    ensures lo < hi && k < n - 1 ==> GridPoint(lo, hi, n, k) < hi
  {
    var step := (hi - lo) / (n - 1) as real;
    assert (n - 1) as real * step == hi - lo;
    StepMonotone(step, 0, k);
    StepMonotone(step, k, n - 1);
    if lo < hi && k < n - 1 {
      assert step > 0.0;
      assert (n - 1) as real * step - k as real * step == (n - 1 - k) as real * step;
      assert (n - 1 - k) as real * step >= step;
    }
  }

  /** `np.digitize(x, bins, right=True)` for non-decreasing bins: the number
      of bins strictly below `x`. */
  function Digitize(b: seq<real>, x: real): (c: nat)
    ensures c <= |b|
  {
    if |b| == 0 then 0
    else (if b[0] < x then 1 else 0) + Digitize(b[1..], x)
  }

  /** On non-decreasing bins, the bins strictly below `x` are exactly the
      first `Digitize(b, x)`. */
  lemma {:induction false} DigitizeSplits(b: seq<real>, x: real)
    requires NonDecreasing(b)
    ensures forall k :: 0 <= k < Digitize(b, x) ==> b[k] < x
    ensures forall k :: Digitize(b, x) <= k < |b| ==> x <= b[k]
  {
    if |b| > 0 {
      var t := b[1..];
      assert NonDecreasing(t);
      DigitizeSplits(t, x);
      assert forall k :: 1 <= k < |b| ==> b[k] == t[k - 1];
      if b[0] >= x {
        assert forall k :: 0 <= k < |t| ==> x <= t[k];
        ZeroBelow(t, x);
      }
    }
  }

  lemma {:induction false} ZeroBelow(b: seq<real>, x: real)
    requires forall k :: 0 <= k < |b| ==> x <= b[k]
    ensures Digitize(b, x) == 0
  {
    if |b| > 0 {
      assert forall k :: 0 <= k < |b[1..]| ==> b[1..][k] == b[k + 1];
      ZeroBelow(b[1..], x);
    }
  }

  /** `np.clip(i, lo, hi)`, which is `min(max(i, lo), hi)`. */
  function Clip(i: int, lo: int, hi: int): (r: int)
    ensures lo <= hi ==> lo <= r <= hi
    ensures lo <= i <= hi ==> r == i
  {
    if i < lo then (if lo <= hi then lo else hi) else if i > hi then hi else i
  }

  /** `bins[clip(digitize(x, bins, right=True) - 1, 0, levels - 1)]`. */
  function Snap(b: seq<real>, x: real): real
    requires |b| >= 1
  {
    b[Clip(Digitize(b, x) - 1, 0, |b| - 1)]
  }

  /** The bins of an array: `levels` samples from its minimum to its maximum. */
  function Bins(arr: seq<real>, levels: nat): seq<real>
    requires |arr| > 0
  {
    Linspace(Min(arr), Max(arr), levels)
  }

  /** `quantize(arr, levels)`: `None` where numpy raises, for an empty array
      (`arr.min()`) or `levels < 1` (`linspace` of a negative count, or
      indexing an empty bin array). */
  function Quantize(arr: seq<real>, levels: int): (r: Option<seq<real>>)
    ensures r.Some? <==> |arr| > 0 && levels >= 1
    ensures r.Some? ==> |r.value| == |arr|
  {
    if |arr| == 0 || levels < 1 then None
    else
      var bins := Bins(arr, levels);
      Some(seq(|arr|, i requires 0 <= i < |arr| => Snap(bins, arr[i])))
  }

  /** Snapping `x` in `[lo, hi]` to the bins of `Linspace(lo, hi, n)` picks a
      bin; it is `lo` when `x` is, and otherwise the largest bin strictly
      below `x`. The top bin is never picked when `lo < hi`. */
  lemma {:induction false} SnapFacts(lo: real, hi: real, n: nat, x: real)
    requires n >= 1 && lo <= x <= hi
    ensures var b := Linspace(lo, hi, n);
            && (exists k :: 0 <= k < n && Snap(b, x) == b[k])
            && lo <= Snap(b, x) <= x
            && (x == lo ==> Snap(b, x) == lo)
            && (x > lo ==> Snap(b, x) < x && forall k :: 0 <= k < n && b[k] < x ==> b[k] <= Snap(b, x))
            && (lo < hi ==> Snap(b, x) < hi)
  {
    var b := Linspace(lo, hi, n);
    LinspaceOrdered(lo, hi, n);
    DigitizeSplits(b, x);
    var c := Digitize(b, x);
    var idx := Clip(c - 1, 0, n - 1);
    assert Snap(b, x) == b[idx];
    if c == 0 {
      assert idx == 0;
      assert x <= b[0];
    } else {
      assert idx == c - 1;
      if lo < hi {
        if n >= 2 {
          LinspaceIsEvenlySpaced(lo, hi, n);
          assert c <= n - 1;
        }
      }
    }
  }

  /** Every output of `quantize` is one of the bins, lies between the array's
      minimum and its input, keeps the minimum fixed, is the largest bin
      strictly below its input otherwise, and is below the maximum whenever
      the array is not constant. */
  lemma {:induction false} QuantizeFacts(arr: seq<real>, levels: int, i: int)
    requires |arr| > 0 && levels >= 1 && 0 <= i < |arr|
    ensures var q := Quantize(arr, levels).value;
            var b := Bins(arr, levels);
            && (exists k :: 0 <= k < levels && q[i] == b[k])
            && Min(arr) <= q[i] <= arr[i]
            && (arr[i] == Min(arr) ==> q[i] == Min(arr))
            && (arr[i] > Min(arr) ==> forall k :: 0 <= k < levels && b[k] < arr[i] ==> b[k] <= q[i])
            && (Max(arr) > Min(arr) ==> q[i] < Max(arr))
  {
    assert Quantize(arr, levels).value[i] == Snap(Bins(arr, levels), arr[i]);
    SnapFacts(Min(arr), Max(arr), levels, arr[i]);
  }

  /** The array's minimum is always an output, and its maximum never is when
      the array is not constant. */
  lemma QuantizeKeepsMinimum(arr: seq<real>, levels: int)
    requires |arr| > 0 && levels >= 1
    ensures Min(arr) in Quantize(arr, levels).value
    ensures Max(arr) > Min(arr) ==> Max(arr) !in Quantize(arr, levels).value
  {
    var q := Quantize(arr, levels).value;
    var j :| 0 <= j < |arr| && Min(arr) == arr[j];
    QuantizeFacts(arr, levels, j);
    assert q[j] == Min(arr);
    if Max(arr) > Min(arr) {
      forall i | 0 <= i < |arr| ensures q[i] != Max(arr) {
        QuantizeFacts(arr, levels, i);
      }
    }
  }
}
