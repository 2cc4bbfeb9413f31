/** `computePoint`: the escape-time loop and its colouring.

    The floating-point arithmetic on `Complex` is left abstract: `bounded(k)`
    says whether the `k`-th iterate of `z := z * z + c`, started at `z = 0`,
    still has `|z| <= 2`. What is modelled is the control of the loop, its
    bounds and the choice between black and a hue. */
module Escape {

  /** Iteration cap of the escape loop. */
  const MAX_ITER: nat := 100

  /** `Color.BLACK.getRGB()`: opaque black, `0xFF000000` read as a Java `int`. */
  const BLACK: int := -16777216

  /** The escape loop: `n` is the index of the first iterate outside the
      radius-2 disc, or `MAX_ITER` when the first `MAX_ITER` iterates all stay
      inside. */
  method EscapeIterations(bounded: nat -> bool) returns (n: nat)
    ensures n <= MAX_ITER
    ensures forall k :: 0 <= k < n ==> bounded(k)
    ensures n < MAX_ITER ==> !bounded(n)
  {
    n := 0;
    while bounded(n) && n < MAX_ITER
      invariant n <= MAX_ITER
      invariant forall k :: 0 <= k < n ==> bounded(k)
    {
      n := n + 1;
    }
  }

  /** Hue of a point that escaped after `n` iterations: `0.7 + n / MAX_ITER`
      (a Java `float`, modelled exactly). */
  function Hue(n: nat): (hue: real)
    requires n < MAX_ITER
    ensures 0.7 <= hue < 1.7
  {
    0.7 + (n as real) / (MAX_ITER as real)
  }

  /** Colour of a point: black when it never left the disc within
      `MAX_ITER` iterations, otherwise the packed colour `hsbToRgb` gives for
      the hue of its escape count (`Color.HSBtoRGB` at full saturation and
      brightness, left abstract). */
  method ComputePoint(bounded: nat -> bool, hsbToRgb: real -> int) returns (rgb: int)
    ensures (forall k :: 0 <= k < MAX_ITER ==> bounded(k)) ==> rgb == BLACK
    ensures forall n :: 0 <= n < MAX_ITER && !bounded(n) && (forall k :: 0 <= k < n ==> bounded(k)) ==>
      rgb == hsbToRgb(Hue(n))
  {
    var n := EscapeIterations(bounded);
    if n == MAX_ITER {
      rgb := BLACK;
    } else {
      rgb := hsbToRgb(Hue(n));
    }
  }
}
