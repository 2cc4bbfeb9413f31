/** Row-major pixel buffers.

    The colour of a pixel is whatever the escape-time evaluation of its complex
    point yields; for one render that is a fixed, total, deterministic function
    of the pixel coordinates, `Shade`. The image of a render, and the part of it
    that one rank produces, are given here as sequences built row by row. */
module Pixels {

  /** Packed RGB colour of pixel `(x, y)` for the frame being rendered. */
  type Shade = (int, int) -> int

  /** Row `y` of the image, pixels `x = 0 .. w-1`. */
  function Row(w: nat, y: int, shade: Shade): (r: seq<int>)
    ensures |r| == w
    ensures forall x :: 0 <= x < w ==> r[x] == shade(x, y)
  {
    seq(w, x => shade(x, y))
  }

  /** Rows `a .. b-1`, one after another. */
  function Rows(w: nat, a: nat, b: nat, shade: Shade): seq<int>
    requires a <= b
    decreases b - a
  {
    if a == b then [] else Rows(w, a, b - 1, shade) + Row(w, b - 1, shade)
  }

  /** `b - a` rows of `w` pixels each. */
  lemma {:induction false} RowsLength(w: nat, a: nat, b: nat, shade: Shade)
    requires a <= b
    ensures |Rows(w, a, b, shade)| == (b - a) * w
    decreases b - a
  {
    if a < b {
      RowsLength(w, a, b - 1, shade);
      assert (b - a) * w == (b - 1 - a) * w + w;
    }
  }

  /** The whole `w` by `h` image, as a single-process render would produce it. */
  function FullRender(w: nat, h: nat, shade: Shade): seq<int>
  {
    Rows(w, 0, h, shade)
  }

  /** Pixel `(x, y)` sits at index `(y - a) * w + x` of the rows from `a` on. */
  lemma {:induction false} RowsAt(w: nat, a: nat, b: nat, shade: Shade, x: nat, y: nat)
    requires a <= y < b
    requires x < w
    ensures (y - a) * w + x < |Rows(w, a, b, shade)|
    ensures Rows(w, a, b, shade)[(y - a) * w + x] == shade(x, y)
    decreases b - a
  {
    var prefix := Rows(w, a, b - 1, shade);
    assert Rows(w, a, b, shade) == prefix + Row(w, b - 1, shade);
    if y < b - 1 {
      RowsAt(w, a, b - 1, shade, x, y);
    } else {
      RowsLength(w, a, b - 1, shade);
      assert |prefix| == (y - a) * w;
    }
  }

  /** Consecutive blocks of rows concatenate to the block that spans both. */
  lemma {:induction false} RowsSplit(w: nat, a: nat, m: nat, b: nat, shade: Shade)
    requires a <= m <= b
    ensures Rows(w, a, m, shade) + Rows(w, m, b, shade) == Rows(w, a, b, shade)
    decreases b - m
  {
    if m < b {
      RowsSplit(w, a, m, b - 1, shade);
      assert Rows(w, m, b, shade) == Rows(w, m, b - 1, shade) + Row(w, b - 1, shade);
      assert Rows(w, a, b, shade) == Rows(w, a, b - 1, shade) + Row(w, b - 1, shade);
    }
  }

  /** Row `y` of the block `a .. b-1` follows the rows before it: its pixel
      `x` sits at `x` past their length. */
  lemma NextRow(w: nat, a: nat, y: nat, b: nat, shade: Shade)
    requires a <= y < b
    ensures |Rows(w, a, y + 1, shade)| == |Rows(w, a, y, shade)| + w
    ensures |Rows(w, a, y + 1, shade)| <= |Rows(w, a, b, shade)|
    ensures forall x :: 0 <= x < w ==> Rows(w, a, b, shade)[|Rows(w, a, y, shade)| + x] == shade(x, y)
  {
    RowsSplit(w, a, y + 1, b, shade);
    assert Rows(w, a, y + 1, shade) == Rows(w, a, y, shade) + Row(w, y, shade);
  }

  /** The full image holds the colour of `(x, y)` at index `y * w + x`. */
  lemma FullRenderAt(w: nat, h: nat, shade: Shade, x: nat, y: nat)
    requires y < h && x < w
    ensures y * w + x < |FullRender(w, h, shade)|
    ensures FullRender(w, h, shade)[y * w + x] == shade(x, y)
  {
    RowsAt(w, 0, h, shade, x, y);
  }
}
