/** Pure calculations behind the overlay crossfades of the animation injector:
    the round-robin choice of the next overlay slot, the one-hot target weights,
    the linear interpolation of weights and the clamp of fade lengths to a clip. */
module Crossfade {

  /** Number of overlay slots above the permanent base slot 0. */
  const Overlays: int := 3

  /** The weights of overlay slots 1, 2 and 3, as the x, y and z of a vector. */
  datatype Vec3 = Vec3(x: real, y: real, z: real) {
    /** The weight held for overlay slot i. */
    function Get(i: int): real
      requires 1 <= i <= Overlays
    {
      if i == 1 then x else if i == 2 then y else z
    }
  }

  const Zero: Vec3 := Vec3(0.0, 0.0, 0.0)

  function Sum(v: Vec3): real
  {
    v.x + v.y + v.z
  }

  function Min(a: real, b: real): real { if a <= b then a else b }

  function Max(a: real, b: real): real { if a <= b then b else a }

  /** Every component lies in [0, 1]. */
  predicate InUnit(v: Vec3)
  {
    0.0 <= v.x <= 1.0 && 0.0 <= v.y <= 1.0 && 0.0 <= v.z <= 1.0
  }

  // ---------------------------------------------------------------------------
  // Slot allocation

  /** The overlay slot a new request claims when slot `current` is active:
      the slot after it, wrapping from 3 back to 1. */
  function NextIndex(current: int): (r: int)
    requires 0 <= current <= Overlays
    ensures 1 <= r <= Overlays && r != current
    ensures r == current % Overlays + 1
  {
    if current == 3 then 1 else current + 1
  }

  /** The active slot after n requests, starting with no overlay active. */
  function Allocations(n: nat): (r: int)
    ensures 0 <= r <= Overlays
    ensures n > 0 ==> r != 0
  {
    if n == 0 then 0 else NextIndex(Allocations(n - 1))
  }

  /** Successive requests cycle through the overlay slots 1, 2, 3, 1, ... */
  lemma {:induction false} AllocationsCycle(n: nat)
    requires n >= 1
    ensures Allocations(n) == (n - 1) % Overlays + 1
  {
    if n > 1 {
      AllocationsCycle(n - 1);
      var prev := Allocations(n - 1);
      assert prev == (n - 2) % 3 + 1;
      assert Allocations(n) == prev % 3 + 1;
      if (n - 2) % 3 == 2 {
        assert prev == 3;
        assert (n - 1) % 3 == 0;
      } else {
        assert prev % 3 == (n - 2) % 3 + 1;
        assert (n - 1) % 3 == (n - 2) % 3 + 1;
      }
    }
  }

  /** Two consecutive requests never claim the same slot, and three apart always do. */
  lemma {:induction false} AllocationsPeriod(n: nat)
    requires n >= 1
    ensures Allocations(n + 1) != Allocations(n)
    ensures Allocations(n + 3) == Allocations(n)
  {
    AllocationsCycle(n);
    AllocationsCycle(n + 3);
  }

  // ---------------------------------------------------------------------------
  // Target weights and interpolation

  /** The overlay weights a transition into slot `transitIndex` aims for:
      one at that slot and zero elsewhere; all zero for the base slot 0
      (or any index that names no overlay). */
  function TargetWeights(transitIndex: int): (r: Vec3)
    ensures forall i :: 1 <= i <= Overlays ==> r.Get(i) == (if i == transitIndex then 1.0 else 0.0)
    ensures Sum(r) == if 1 <= transitIndex <= Overlays then 1.0 else 0.0
    ensures InUnit(r)
  {
    match transitIndex
    case 1 => Vec3(1.0, 0.0, 0.0)
    case 2 => Vec3(0.0, 1.0, 0.0)
    case 3 => Vec3(0.0, 0.0, 1.0)
    case _ => Zero
  }

  /** Linear interpolation from a (fraction 0) to b (fraction 1). */
  function Lerp(a: real, b: real, f: real): (r: real)
    requires 0.0 <= f <= 1.0
    ensures Min(a, b) <= r <= Max(a, b)
    ensures f == 0.0 ==> r == a
    ensures f == 1.0 ==> r == b
  {
    LerpBetween(a, b, f);
    a + (b - a) * f
  }

  lemma LerpBetween(a: real, b: real, f: real)
    requires 0.0 <= f <= 1.0
    ensures Min(a, b) <= a + (b - a) * f <= Max(a, b)
  {
    if a <= b {
      MulNonNegative(b - a, f);
      MulNonNegative(b - a, 1.0 - f);
      assert (b - a) * (1.0 - f) == (b - a) - (b - a) * f;
    } else {
      MulNonNegative(a - b, f);
      MulNonNegative(a - b, 1.0 - f);
      assert (a - b) * (1.0 - f) == (a - b) - (a - b) * f;
      assert (b - a) * f == -((a - b) * f);
    }
  }

  lemma MulNonNegative(x: real, y: real)
    requires x >= 0.0 && y >= 0.0
    ensures x * y >= 0.0
  {
  }

  lemma ComplementShare(a: real, t: real)
    requires t > 0.0
    ensures (t - a) / t == 1.0 - a / t
  {
    assert (t - a) / t == t / t + (-a) / t;
    assert t / t == 1.0;
    assert (-a) / t == -(a / t);
  }

  /** Component-wise linear interpolation of the three overlay weights. */
  function LerpVec(a: Vec3, b: Vec3, f: real): (r: Vec3)
    requires 0.0 <= f <= 1.0
    ensures forall i :: 1 <= i <= Overlays ==> r.Get(i) == Lerp(a.Get(i), b.Get(i), f)
    ensures InUnit(a) && InUnit(b) ==> InUnit(r)
  {
    Vec3(Lerp(a.x, b.x, f), Lerp(a.y, b.y, f), Lerp(a.z, b.z, f))
  }

  /** The fraction of a transition of length `time` that still remains when
      `remaining` of it is left; while time remains this lies in (0, 1]. */
  function Remaining(remaining: real, time: real): (f: real)
    requires 0.0 < remaining <= time
    ensures 0.0 < f <= 1.0
  {
    remaining / time
  }

  /** The interpolation is linear in elapsed time: a fade from `initial` to
      `target` that has run `elapsed` of its `time` has covered exactly the
      fraction elapsed / time of the distance between them. */
  lemma LerpLinearInTime(target: real, initial: real, elapsed: real, time: real)
    requires 0.0 <= elapsed < time
    ensures Lerp(target, initial, Remaining(time - elapsed, time))
         == initial + (target - initial) * (elapsed / time)
  {
    ComplementShare(elapsed, time);
  }

  /** Half way through, a weight is the mean of where it started and where it goes. */
  lemma LerpHalfway(target: real, initial: real, time: real)
    requires time > 0.0
    ensures 0.0 < time / 2.0 <= time
    ensures Lerp(target, initial, Remaining(time / 2.0, time)) == (target + initial) / 2.0
  {
    assert (time / 2.0) / time == 0.5;
  }

  // ---------------------------------------------------------------------------
  // Fade lengths of a play request

  datatype Fades = Fades(fadeIn: real, fadeOut: real)

  /** The fade-in and fade-out lengths a play request uses for a clip of the
      given length: unchanged when they fit, otherwise both shortened by
      their share of the surplus. */
  function ClampFades(fadeIn: real, fadeOut: real, length: real): (r: Fades)
    requires length >= 0.0
    ensures fadeIn + fadeOut <= length ==> r == Fades(fadeIn, fadeOut)
    ensures fadeIn + fadeOut > length ==> r.fadeIn + r.fadeOut == length
    ensures length - r.fadeIn - r.fadeOut >= 0.0
  {
    if fadeIn + fadeOut > length then
      var total := fadeIn + fadeOut;
      var surplus := total - length;
      var inRate := fadeIn / total;
      var outRate := fadeOut / total;
      ClampSum(surplus, inRate, outRate, fadeIn, fadeOut, total);
      Fades(fadeIn - surplus * inRate, fadeOut - surplus * outRate)
    else
      Fades(fadeIn, fadeOut)
  }

  lemma ClampSum(surplus: real, inRate: real, outRate: real, fadeIn: real, fadeOut: real, total: real)
    requires total == fadeIn + fadeOut && total > 0.0
    requires inRate == fadeIn / total && outRate == fadeOut / total
    ensures inRate + outRate == 1.0
    ensures (fadeIn - surplus * inRate) + (fadeOut - surplus * outRate) == total - surplus
  {
    assert inRate + outRate == (fadeIn + fadeOut) / total;
    assert surplus * inRate + surplus * outRate == surplus * (inRate + outRate);
  }

  /** A clamped pair is the requested pair scaled by one common factor,
      length / (fadeIn + fadeOut), so the ratio of the two fades is kept. */
  lemma {:induction false} ClampKeepsRatio(fadeIn: real, fadeOut: real, length: real)
    requires length >= 0.0 && fadeIn + fadeOut > length
    ensures ClampFades(fadeIn, fadeOut, length).fadeIn == fadeIn * (length / (fadeIn + fadeOut))
    ensures ClampFades(fadeIn, fadeOut, length).fadeOut == fadeOut * (length / (fadeIn + fadeOut))
    ensures ClampFades(fadeIn, fadeOut, length).fadeIn * fadeOut
         == ClampFades(fadeIn, fadeOut, length).fadeOut * fadeIn
  {
    var total := fadeIn + fadeOut;
    var k := length / total;
    var surplus := total - length;
    ComplementShare(length, total);
    ScaleByShare(fadeIn, surplus, total, k);
    ScaleByShare(fadeOut, surplus, total, k);
    assert fadeIn * k * fadeOut == fadeOut * k * fadeIn;
  }

  lemma ScaleByShare(fade: real, surplus: real, total: real, k: real)
    requires total > 0.0 && surplus / total == 1.0 - k
    ensures fade - surplus * (fade / total) == fade * k
  {
    assert surplus * (fade / total) == fade * (surplus / total);
  }

  /** Non-negative fades stay non-negative and never grow. */
  lemma {:induction false} ClampNonNegative(fadeIn: real, fadeOut: real, length: real)
    requires length >= 0.0 && fadeIn >= 0.0 && fadeOut >= 0.0
    ensures 0.0 <= ClampFades(fadeIn, fadeOut, length).fadeIn <= fadeIn
    ensures 0.0 <= ClampFades(fadeIn, fadeOut, length).fadeOut <= fadeOut
  {
    if fadeIn + fadeOut > length {
      ClampKeepsRatio(fadeIn, fadeOut, length);
      var k := length / (fadeIn + fadeOut);
      QuotientInUnit(length, fadeIn + fadeOut);
      ScaleDown(fadeIn, k);
      ScaleDown(fadeOut, k);
    }
  }

  lemma QuotientInUnit(n: real, d: real)
    requires 0.0 <= n <= d && d > 0.0
    ensures 0.0 <= n / d <= 1.0
  {
    assert n / d * d == n;
  }

  lemma ScaleDown(x: real, k: real)
    requires x >= 0.0 && 0.0 <= k <= 1.0
    ensures 0.0 <= x * k <= x
  {
    MulNonNegative(x, k);
    MulNonNegative(x, 1.0 - k);
    assert x * (1.0 - k) == x - x * k;
  }

  /** Fades of 3 and 3 on a clip of length 4 become 2 and 2, leaving no hold. */
  lemma ClampExample()
    ensures ClampFades(3.0, 3.0, 4.0) == Fades(2.0, 2.0)
    ensures 4.0 - ClampFades(3.0, 3.0, 4.0).fadeIn - ClampFades(3.0, 3.0, 4.0).fadeOut == 0.0
  {
    ClampKeepsRatio(3.0, 3.0, 4.0);
  }
}
