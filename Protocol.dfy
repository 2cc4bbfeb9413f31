/** The six-field record rank 0 broadcasts before every render, and the
    shutdown sentinel.

    On the wire the record is `double[6]` in the order width, height, xMin,
    xMax, yMin, yMax. The doubles are modelled as reals: widths and heights are
    integers well below 2^53 and the bounds are copied unchanged, so no
    rounding takes place on the way. */
module Protocol {

  /** The complex-plane rectangle being viewed. */
  datatype Viewport = Viewport(xMin: real, xMax: real, yMin: real, yMax: real)

  /** The viewport every process starts with. */
  const DefaultViewport: Viewport := Viewport(-2.0, 1.0, -1.2, 1.2)

  /** The broadcast record. */
  datatype Params = Params(width: real, height: real, xMin: real, xMax: real, yMin: real, yMax: real)

  /** What a worker renders for one broadcast: the frame size after the
      `(int)` casts, and the viewport. */
  datatype Job = Job(width: int, height: int, vp: Viewport)

  /** A negative first field is the shutdown signal; the other fields are then
      ignored. */
  predicate IsShutdown(p: Params)
  {
    p.width < 0.0
  }

  /** The record rank 0 sends to stop the workers: `{-1.0, 0, 0, 0, 0, 0}`. */
  const ShutdownSignal: Params := Params(-1.0, 0.0, 0.0, 0.0, 0.0, 0.0)

  /** The record rank 0 broadcasts to start a render of `w` by `h` pixels. */
  function Encode(w: nat, h: nat, vp: Viewport): (p: Params)
    ensures !IsShutdown(p)
  {
    Params(w as real, h as real, vp.xMin, vp.xMax, vp.yMin, vp.yMax)
  }

  /** Java's `(int)` cast of a double: rounds toward zero. */
  function TruncToInt(r: real): (n: int)
    ensures 0.0 <= r ==> n as real <= r < n as real + 1.0
    ensures r < 0.0 ==> n as real - 1.0 < r <= n as real
  {
    if r >= 0.0 then r.Floor else -((-r).Floor)
  }

  /** How a worker reads a non-sentinel record. */
  function Decode(p: Params): (j: Job)
    ensures !IsShutdown(p) ==> j.width >= 0
  {
    Job(TruncToInt(p.width), TruncToInt(p.height), Viewport(p.xMin, p.xMax, p.yMin, p.yMax))
  }

  /** Every worker reads back exactly the frame rank 0 sent, so all ranks
      render the same frame. */
  lemma DecodeEncode(w: nat, h: nat, vp: Viewport)
    ensures Decode(Encode(w, h, vp)) == Job(w, h, vp)
  {
    var p := Encode(w, h, vp);
    assert TruncToInt(p.width) == w;
    assert TruncToInt(p.height) == h;
  }
}
