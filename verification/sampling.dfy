/** Util.discreteRandom and Util.exponentialRandom.

    The pseudo-random generator is not modelled: each draw of
    `prng.nextDouble()` is a parameter `u`, a real in [0, 1), and the
    logarithm `Math.log(1 - u)` is a parameter `logDraw`, a real no greater
    than zero. Doubles are modelled as exact reals.
 */
module Sampling {

  /** The sum of the first `k` entries of `p`. */
  function PrefixSum(p: seq<real>, k: nat): real
    requires k <= |p|
  {
    if k == 0 then 0.0 else PrefixSum(p, k - 1) + p[k - 1]
  }

  /** What discreteRandom returns, stated without its loop: index 0 when the
      draw is not positive or there is at most one entry; otherwise the first
      index whose cumulative sum reaches the draw, the last index standing
      for every draw beyond the second-to-last cumulative sum. */
  predicate IsInversionIndex(u: real, p: seq<real>, i: nat) {
    if u <= 0.0 || |p| <= 1 then i == 0
    else
      && i < |p|
      && (forall k | 1 <= k <= i :: PrefixSum(p, k) < u)
      && (i < |p| - 1 ==> u <= PrefixSum(p, i + 1))
  }

  /** The index is determined by the draw: at most one index qualifies. */
  lemma InversionIndexUnique(u: real, p: seq<real>, i: nat, j: nat)
    requires IsInversionIndex(u, p, i) && IsInversionIndex(u, p, j)
    ensures i == j
  {
  }

  function Scan(u: real, p: seq<real>, i: nat): (r: nat)
    requires 0.0 < u && 1 < |p| && i < |p|
    requires forall k | 1 <= k <= i :: PrefixSum(p, k) < u
    ensures IsInversionIndex(u, p, r)
    decreases |p| - i
  {
    if i == |p| - 1 || u <= PrefixSum(p, i + 1) then i
    else Scan(u, p, i + 1)
  }

  /** Util.discreteRandom as a function of the draw: the index of `p`
      chosen by inverting the cumulative sums at `u`. */
  function DiscreteRandom(u: real, p: seq<real>): (i: nat)
    ensures IsInversionIndex(u, p, i)
    ensures |p| > 0 ==> i < |p|
  {
    if u <= 0.0 || |p| <= 1 then 0 else Scan(u, p, 0)
  }

  /** Util.discreteRandom with its loop: the running sum `s` is compared to
      the draw after each addition. */
  method DiscreteRandomLoop(u: real, p: seq<real>) returns (i: nat)
    ensures IsInversionIndex(u, p, i)
    ensures i == DiscreteRandom(u, p)
  {
    i := 0;
    var s := 0.0;
    while s < u && i < |p| - 1
      invariant |p| > 0 ==> i <= |p| - 1
      invariant |p| == 0 ==> i == 0
      invariant s == PrefixSum(p, i)
      invariant forall k | 1 <= k <= i :: PrefixSum(p, k) < u
      invariant 0 < i ==> 0.0 < u
      decreases |p| - i
    {
      s := s + p[i];
      assert s == PrefixSum(p, i + 1);
      if s >= u {
        break;
      }
      i := i + 1;
    }
    InversionIndexUnique(u, p, i, DiscreteRandom(u, p));
  }

  /** The chosen index is the bucket of the draw: the cumulative sum before
      it is below the draw, and the one after it reaches the draw unless it
      is the last index. */
  lemma DrawFallsInBucket(u: real, p: seq<real>)
    requires 0.0 < u && |p| > 1
    ensures PrefixSum(p, DiscreteRandom(u, p)) < u
    ensures DiscreteRandom(u, p) < |p| - 1 ==> u <= PrefixSum(p, DiscreteRandom(u, p) + 1)
  {
    var i := DiscreteRandom(u, p);
    assert IsInversionIndex(u, p, i);
    if i > 0 {
      assert PrefixSum(p, i) < u;
    }
  }

  predicate Stochastic(p: seq<real>) {
    && (forall k | 0 <= k < |p| :: 0.0 <= p[k])
    && |p| > 0 && PrefixSum(p, |p|) == 1.0
  }

  /** For a probability vector and a positive draw below one, the chosen
      entry has positive probability: an index of weight zero is never
      chosen. A draw of exactly 0.0 returns index 0 whatever its weight. */
  lemma ChosenHasPositiveProbability(u: real, p: seq<real>)
    requires Stochastic(p) && 0.0 < u < 1.0
    ensures 0.0 < p[DiscreteRandom(u, p)]
  {
    var i := DiscreteRandom(u, p);
    if |p| > 1 {
      DrawFallsInBucket(u, p);
      if i == |p| - 1 {
        assert PrefixSum(p, |p|) == PrefixSum(p, i) + p[i];
      }
    } else {
      assert PrefixSum(p, 1) == p[0];
    }
  }

  /** A vector whose first entry is 1.0 always chooses index 0. */
  lemma CertainFirstState(u: real, p: seq<real>)
    requires |p| > 0 && p[0] == 1.0 && u < 1.0
    ensures DiscreteRandom(u, p) == 0
  {
    if 0.0 < u && |p| > 1 {
      assert PrefixSum(p, 1) == 1.0;
    }
  }

  /** Util.exponentialRandom: intensity * log(1 - u), with the logarithm as
      the parameter `logDraw`. A negative intensity, which is how the chain
      stores its mean sojourn times, gives a sample that is not negative. */
  function ExponentialRandom(intensity: real, logDraw: real): (sample: real)
    requires logDraw <= 0.0
    ensures intensity <= 0.0 ==> 0.0 <= sample
    ensures intensity >= 0.0 ==> sample <= 0.0
    ensures logDraw == 0.0 ==> sample == 0.0
  {
    intensity * logDraw
  }
}
