/** The distance between two face descriptors and the threshold test built on
    it. Both route handlers carry an identical copy of
    `calculateEuclideanDistance` and of `SIMILARITY_THRESHOLD`; they are
    modelled once here.

    Descriptors are sequences of reals. `Math.sqrt` is not modelled: the
    routes only compare `sqrt(sum) < 0.6`, which for a non-negative `sum`
    holds exactly when `sum < 0.36` (lemma SquareRootThreshold), so the
    model computes and compares the squared distance. */
module Distance {
  import opened Outcomes

  /** `SIMILARITY_THRESHOLD`, and its square, which the model compares against. */
  const THRESHOLD: real := 0.6
  const THRESHOLD_SQUARED: real := THRESHOLD * THRESHOLD

  /** The sum of squared component differences over the first `n` components:
      the value of the accumulator `sum` after `n` iterations of the loop. */
  function PartialSum(a: seq<real>, b: seq<real>, n: nat): (r: real)
    requires n <= |a| && n <= |b|
    ensures r >= 0.0
  {
    if n == 0 then 0.0
    else PartialSum(a, b, n - 1) + (a[n - 1] - b[n - 1]) * (a[n - 1] - b[n - 1])
  }

  /** The squared Euclidean distance of two descriptors of equal length. */
  function SquaredDistance(a: seq<real>, b: seq<real>): real
    requires |a| == |b|
  {
    PartialSum(a, b, |a|)
  }

  /** `d` is the Euclidean distance of `a` and `b`, the non-negative square
      root of their squared distance (what `Math.sqrt(sum)` returns). */
  ghost predicate IsEuclideanDistance(d: real, a: seq<real>, b: seq<real>)
  {
    |a| == |b| && d >= 0.0 && d * d == SquaredDistance(a, b)
  }

  /** `calculateEuclideanDistance` without the final square root: throws
      exactly when the lengths differ, and otherwise accumulates the squared
      differences in a loop. */
  method SquaredEuclideanDistance(d1: seq<real>, d2: seq<real>) returns (r: Try<real>)
    ensures r.Threw? <==> |d1| != |d2|
    ensures r.Returned? ==> |d1| == |d2| && r.value == SquaredDistance(d1, d2)
  {
    if |d1| != |d2| {
      return Threw;
    }
    var sum := 0.0;
    for i := 0 to |d1|
      invariant sum == PartialSum(d1, d2, i)
    {
      var diff := d1[i] - d2[i];
      sum := sum + diff * diff;
    }
    return Returned(sum);
  }

  lemma {:induction false} PartialSumSymmetric(a: seq<real>, b: seq<real>, n: nat)
    requires n <= |a| && n <= |b|
    ensures PartialSum(a, b, n) == PartialSum(b, a, n)
  {
    if n > 0 {
      PartialSumSymmetric(a, b, n - 1);
      assert (a[n - 1] - b[n - 1]) * (a[n - 1] - b[n - 1]) == (b[n - 1] - a[n - 1]) * (b[n - 1] - a[n - 1]);
    }
  }

  lemma {:induction false} PartialSumZero(a: seq<real>, b: seq<real>, n: nat)
    requires n <= |a| && n <= |b|
    ensures PartialSum(a, b, n) == 0.0 <==> a[..n] == b[..n]
  {
    if n > 0 {
      PartialSumZero(a, b, n - 1);
      var x := a[n - 1] - b[n - 1];
      SquareZero(x);
      assert a[..n] == a[..n - 1] + [a[n - 1]];
      assert b[..n] == b[..n - 1] + [b[n - 1]];
      if a[..n] == b[..n] {
        assert a[..n - 1] == a[..n][..n - 1] && b[..n - 1] == b[..n][..n - 1];
        assert a[..n][n - 1] == b[..n][n - 1];
      }
    }
  }

  lemma SquareZero(x: real)
    ensures x * x >= 0.0
    ensures x * x == 0.0 <==> x == 0.0
  {
    if x < 0.0 {
      SquareStrictlyMonotone(0.0, -x);
      assert x * x == (-x) * (-x);
    } else if x > 0.0 {
      SquareStrictlyMonotone(0.0, x);
    }
  }

  lemma SquareStrictlyMonotone(x: real, y: real)
    requires 0.0 <= x < y
    ensures x * x < y * y
  {
    var h := y - x;
    assert h > 0.0;
    assert y * y == (x + h) * (x + h) == x * x + 2.0 * x * h + h * h;
    assert x * h >= 0.0;
    assert h * h > 0.0;
  }

  /** The squared distance is symmetric in its arguments. */
  lemma SquaredDistanceSymmetric(a: seq<real>, b: seq<real>)
    requires |a| == |b|
    ensures SquaredDistance(a, b) == SquaredDistance(b, a)
  {
    PartialSumSymmetric(a, b, |a|);
  }

  /** The squared distance is zero exactly when the descriptors are equal. */
  lemma SquaredDistanceZero(a: seq<real>, b: seq<real>)
    requires |a| == |b|
    ensures SquaredDistance(a, b) == 0.0 <==> a == b
  {
    PartialSumZero(a, b, |a|);
    assert a[..|a|] == a && b[..|b|] == b;
  }

  /** Comparing the square root against 0.6 is the same as comparing the
      squared distance against 0.36; in particular a distance of exactly 0.6
      is not below the threshold. */
  lemma SquareRootThreshold(d: real, sum: real)
    requires d >= 0.0 && d * d == sum
    ensures d < THRESHOLD <==> sum < THRESHOLD_SQUARED
  {
    if d < THRESHOLD {
      assert d * d <= d * THRESHOLD;
      assert d * THRESHOLD < THRESHOLD * THRESHOLD;
    } else {
      assert d * d >= d * THRESHOLD;
      assert d * THRESHOLD >= THRESHOLD * THRESHOLD;
    }
  }

  /** The Euclidean distance is determined by the descriptors and symmetric. */
  lemma EuclideanDistanceProperties(d: real, a: seq<real>, b: seq<real>)
    requires IsEuclideanDistance(d, a, b)
    ensures IsEuclideanDistance(d, b, a)
    ensures d == 0.0 <==> a == b
    ensures forall e :: IsEuclideanDistance(e, a, b) ==> e == d
  {
    SquaredDistanceSymmetric(a, b);
    SquaredDistanceZero(a, b);
    SquareZero(d);
    forall e | IsEuclideanDistance(e, a, b) ensures e == d {
      if e < d {
        SquareStrictlyMonotone(e, d);
      } else if e > d {
        SquareStrictlyMonotone(d, e);
      }
    }
  }

  /** The callback both routes pass to their scan over the stored users:
      a stored descriptor that is `null` is skipped; otherwise the distance
      is computed, which throws when the probe is `null` (its `length` cannot
      be read) or the lengths differ; otherwise the user matches when the
      distance is strictly below the threshold. */
  function Within(probe: Option<seq<real>>, stored: Option<seq<real>>): (r: Try<bool>)
    // a null stored descriptor never matches
    ensures stored.None? ==> r == Returned(false)
    // the callback throws exactly on a null probe or a length mismatch with a non-null row
    ensures r == Threw <==> stored.Some? && (probe.None? || |probe.value| != |stored.value|)
    // a descriptor always matches itself
    ensures probe.Some? && probe == stored ==> r == Returned(true)
  {
    if stored.None? then Returned(false)
    else if probe.None? || |probe.value| != |stored.value| then Threw
    else
      SquaredDistanceZero(probe.value, stored.value);
      Returned(SquaredDistance(probe.value, stored.value) < THRESHOLD_SQUARED)
  }

  /** The callback, with the distance computed by the loop. */
  method WithinThreshold(probe: Option<seq<real>>, stored: Option<seq<real>>) returns (t: Try<bool>)
    ensures t == Within(probe, stored)
  {
    if stored.None? {
      return Returned(false);
    }
    if probe.None? {
      return Threw;
    }
    var d := SquaredEuclideanDistance(probe.value, stored.value);
    match d
    case Threw => t := Threw;
    case Returned(sum) => t := Returned(sum < THRESHOLD_SQUARED);
  }

  /** Within agrees with the source's test `Math.sqrt(sum) < 0.6` on the
      Euclidean distance; a stored `null` never matches. */
  lemma WithinMeansCloserThanThreshold(probe: seq<real>, stored: Option<seq<real>>, d: real)
    requires stored.Some? ==> IsEuclideanDistance(d, probe, stored.value)
    ensures stored.None? ==> Within(Some(probe), stored) == Returned(false)
    ensures stored.Some? ==> Within(Some(probe), stored) == Returned(d < THRESHOLD)
  {
    if stored.Some? {
      SquareRootThreshold(d, SquaredDistance(probe, stored.value));
    }
  }
}
