/** `computeAndGather`: every rank fills its local buffer with its own rows,
    rank 0 builds the table of sizes and displacements for all ranks, and
    `Gatherv` places every local buffer at its displacement in the `W * H`
    buffer on rank 0.

    MPI's `Gatherv` is modelled as a pure function that copies each rank's
    buffer into the receive buffer at that rank's displacement. MPI demands
    that each rank sends exactly as many elements as the root expects from it;
    that demand is the precondition of `Gatherv` below, and `ComputeAndGather`
    proves the program meets it although no size ever travels between ranks. */
module Gather {
  import opened Partition
  import opened Pixels

  /** Largest Java `int`. */
  const INT_MAX: int := 0x7fff_ffff

  /** The local buffer of rank `rank`: its rows, row-major. */
  function LocalSpec(w: nat, h: nat, size: nat, rank: nat, shade: Shade): seq<int>
    requires size > 0
  {
    Rows(w, YStart(h, size, rank), YEnd(h, size, rank), shade)
  }

  /** The pixel loop of one rank. It allocates `localPixels` for its
      `(yEnd - yStart) * w` pixels and fills it row by row, so that it ends up
      holding exactly its rows, pixel `(x, y)` at `(y - yStart) * w + x`. */
  method FillLocal(w: nat, h: nat, size: nat, rank: nat, shade: Shade) returns (localPixels: array<int>)
    requires size > 0
    ensures fresh(localPixels)
    ensures localPixels.Length == RowCount(h, size, rank) * w
    ensures localPixels[..] == LocalSpec(w, h, size, rank, shade)
  {
    var yStart := YStart(h, size, rank);
    var yEnd := YEnd(h, size, rank);
    localPixels := new int[(yEnd - yStart) * w];
    RowsLength(w, yStart, yEnd, shade);
    FillRows(localPixels, w, yStart, yEnd, shade);
  }

  /** The two nested pixel loops over rows `yStart .. yEnd-1`, writing through
      the running index `idx`, which ends at the buffer's length, so every
      slot is written once. */
  method FillRows(localPixels: array<int>, w: nat, yStart: nat, yEnd: nat, shade: Shade)
    requires yStart <= yEnd
    requires localPixels.Length == |Rows(w, yStart, yEnd, shade)|
    modifies localPixels
    ensures localPixels[..] == Rows(w, yStart, yEnd, shade)
  {
    ghost var spec := Rows(w, yStart, yEnd, shade);
    // `idx <= |spec|` holds throughout by `NextRow`; keeping it inside the
    // quantifier's range keeps the proof small.
    var idx := 0;
    var y := yStart;
    while y < yEnd
      invariant yStart <= y <= yEnd
      invariant idx == |Rows(w, yStart, y, shade)|
      invariant forall i :: 0 <= i < idx <= |spec| ==> localPixels[i] == spec[i]
    {
      NextRow(w, yStart, y, yEnd, shade);
      var x := 0;
      while x < w
        invariant 0 <= x <= w
        invariant idx == |Rows(w, yStart, y, shade)| + x
        invariant forall i :: 0 <= i < idx <= |spec| ==> localPixels[i] == spec[i]
      {
        localPixels[idx] := shade(x, y);
        idx := idx + 1;
        x := x + 1;
      }
      y := y + 1;
    }
    assert localPixels[..] == spec;
  }

  /** Where the pixel loop of rank `rank` writes pixel `(x, y)`:
      `(y - yStart) * w + x`. */
  function LocalIndex(w: nat, h: nat, size: nat, rank: nat, x: nat, y: nat): nat
    requires size > 0
    requires Owns(h, size, rank, y)
  {
    var d: nat := y - YStart(h, size, rank);
    d * w + x
  }

  /** Pixel `(x, y)` of rank `rank`'s rows sits at `(y - yStart) * w + x` of
      its local buffer. */
  lemma LocalAt(w: nat, h: nat, size: nat, rank: nat, shade: Shade, x: nat, y: nat)
    requires size > 0
    requires Owns(h, size, rank, y) && x < w
    ensures LocalIndex(w, h, size, rank, x, y) < |LocalSpec(w, h, size, rank, shade)|
    ensures LocalSpec(w, h, size, rank, shade)[LocalIndex(w, h, size, rank, x, y)] == shade(x, y)
  {
    var a, b := YStart(h, size, rank), YEnd(h, size, rank);
    RowsAt(w, a, b, shade, x, y);
    assert LocalSpec(w, h, size, rank, shade) == Rows(w, a, b, shade);
  }

  /** Rank 0's table loop: `recvCounts[i]` is rank `i`'s pixel count and
      `displs[i]` the running `offset` before it, which ends at `w * h`. */
  method GatherTable(w: nat, h: nat, size: nat) returns (recvCounts: array<int>, displs: array<int>, offset: int)
    requires size > 0
    ensures fresh(recvCounts) && fresh(displs)
    ensures recvCounts.Length == size && displs.Length == size
    ensures forall i :: 0 <= i < size ==> recvCounts[i] == RowCount(h, size, i) * w
    ensures forall i :: 0 <= i < size ==> displs[i] == YStart(h, size, i) * w
    ensures displs[0] == 0
    ensures forall i :: 0 <= i < size - 1 ==> displs[i + 1] == displs[i] + recvCounts[i]
    ensures offset == w * h
  {
    recvCounts := new int[size];
    displs := new int[size];
    offset := 0;
    for i := 0 to size
      invariant offset == YStart(h, size, i) * w
      invariant forall k :: 0 <= k < i ==> recvCounts[k] == RowCount(h, size, k) * w
      invariant forall k :: 0 <= k < i ==> displs[k] == YStart(h, size, k) * w
    {
      var startRow := YStart(h, size, i);
      var endRow := YEnd(h, size, i);
      recvCounts[i] := (endRow - startRow) * w;
      displs[i] := offset;
      offset := offset + recvCounts[i];
      ScaledStep(w, h, size, i);
    }
    ScaledTable(w, h, size);
  }

  /** The pixel offsets of the blocks start at 0, end at `w * h`, and each
      block starts where the one before it ends. */
  lemma ScaledTable(w: nat, h: nat, size: nat)
    requires size > 0
    ensures YStart(h, size, 0) * w == 0
    ensures YStart(h, size, size) * w == w * h
    ensures forall i :: 0 <= i < size - 1 ==> YStart(h, size, i + 1) * w == YStart(h, size, i) * w + RowCount(h, size, i) * w
  {
    Ends(h, size);
    forall i | 0 <= i < size - 1
      ensures YStart(h, size, i + 1) * w == YStart(h, size, i) * w + RowCount(h, size, i) * w
    {
      ScaledStep(w, h, size, i);
    }
  }

  /** In pixels, too, each block ends where the next one starts. */
  lemma ScaledStep(w: nat, h: nat, size: nat, i: nat)
    requires size > 0
    ensures YStart(h, size, i) * w + RowCount(h, size, i) * w == YStart(h, size, i + 1) * w
  {
    Contiguous(h, size, i);
    var s, c := YStart(h, size, i), RowCount(h, size, i);
    assert (s + c) * w == s * w + c * w;
  }

  /** Products with a common non-negative factor keep the order. */
  lemma MulMono(a: nat, b: nat, w: nat)
    requires a <= b
    ensures a * w <= b * w
  {
  }

  /** Every block, in pixels, lies inside the `w * h` buffer. */
  lemma ScaledInside(w: nat, h: nat, size: nat, i: nat)
    requires size > 0 && i <= size
    ensures YStart(h, size, i) <= h
    ensures YStart(h, size, i) * w <= w * h
    ensures i < size ==> YStart(h, size, i) * w + RowCount(h, size, i) * w <= w * h
  {
    Ends(h, size);
    if i < size {
      Ordered(h, size, i, size);
      Contiguous(h, size, i);
      ScaledStep(w, h, size, i);
    }
    MulMono(YStart(h, size, i), h, w);
    if i < size {
      MulMono(YStart(h, size, i + 1), h, w);
    }
  }

  /** Copy `block` into `recv` starting at index `d`. */
  function Splice(recv: seq<int>, d: nat, block: seq<int>): (r: seq<int>)
    requires d + |block| <= |recv|
    ensures |r| == |recv|
    ensures r[..d] == recv[..d]
    ensures r[d..d + |block|] == block
    ensures r[d + |block|..] == recv[d + |block|..]
  {
    recv[..d] + block + recv[d + |block|..]
  }

  /** What MPI demands of a `Gatherv` call: one buffer, count and
      displacement per rank, every rank sending exactly its count, and every
      block inside the receive buffer. */
  predicate GathervArgs(sendBufs: seq<seq<int>>, recvCounts: seq<int>, displs: seq<int>, recvLen: nat)
  {
    && |sendBufs| == |recvCounts| == |displs|
    && forall i :: 0 <= i < |sendBufs| ==>
         |sendBufs[i]| == recvCounts[i] && 0 <= displs[i] && displs[i] + recvCounts[i] <= recvLen
  }

  /** `Gatherv` to rank 0: rank `i`'s buffer lands at `displs[i]`. */
  function Gatherv(sendBufs: seq<seq<int>>, recvCounts: seq<int>, displs: seq<int>, recv: seq<int>): (r: seq<int>)
    requires GathervArgs(sendBufs, recvCounts, displs, |recv|)
    ensures |r| == |recv|
    decreases |sendBufs|
  {
    if sendBufs == [] then recv
    else
      var n := |sendBufs| - 1;
      Splice(Gatherv(sendBufs[..n], recvCounts[..n], displs[..n], recv), displs[n], sendBufs[n])
  }

  /** The local buffers of all ranks, each as that rank computes it. */
  function Contributions(w: nat, h: nat, size: nat, shade: Shade): (c: seq<seq<int>>)
    requires size > 0
    ensures |c| == size
  {
    seq(size, i requires 0 <= i < size => LocalSpec(w, h, size, i, shade))
  }

  function CountsTable(w: nat, h: nat, size: nat): (c: seq<int>)
    requires size > 0
    ensures |c| == size
  {
    seq(size, i requires 0 <= i < size => RowCount(h, size, i) * w)
  }

  function DisplsTable(w: nat, h: nat, size: nat): (d: seq<int>)
    requires size > 0
    ensures |d| == size
  {
    seq(size, i requires 0 <= i < size => YStart(h, size, i) * w)
  }

  /** A fresh `int` array of length `n`. */
  function Zeros(n: nat): (z: seq<int>)
    ensures |z| == n
  {
    seq(n, _ => 0)
  }

  /** `allPixels` once the buffers of ranks `0 .. n-1` are in place;
      `allPixels` starts as `new int[w * h]`. */
  function GatheredUpTo(w: nat, h: nat, size: nat, shade: Shade, n: nat): seq<int>
    requires size > 0 && n <= size
  {
    TablesAgree(w, h, size, shade, n);
    Gatherv(Contributions(w, h, size, shade)[..n], CountsTable(w, h, size)[..n], DisplsTable(w, h, size)[..n], Zeros(w * h))
  }

  /** The buffer rank 0 receives. */
  function Gathered(w: nat, h: nat, size: nat, shade: Shade): seq<int>
    requires size > 0
  {
    GatheredUpTo(w, h, size, shade, size)
  }

  /** No size is sent between processes, yet every rank's own buffer length
      equals the count rank 0 computed for it, and every block lies inside
      `allPixels`: the first `n` ranks' arguments are valid `Gatherv`
      arguments. */
  lemma TablesAgree(w: nat, h: nat, size: nat, shade: Shade, n: nat)
    requires size > 0 && n <= size
    ensures GathervArgs(Contributions(w, h, size, shade)[..n], CountsTable(w, h, size)[..n], DisplsTable(w, h, size)[..n], w * h)
  {
    var bufs, counts, displs := Contributions(w, h, size, shade)[..n], CountsTable(w, h, size)[..n], DisplsTable(w, h, size)[..n];
    forall i | 0 <= i < n
      ensures |bufs[i]| == counts[i] && 0 <= displs[i] && displs[i] + counts[i] <= w * h
    {
      RankFits(w, h, size, shade, i);
    }
  }

  /** Rank `i`'s buffer has the length rank 0 expects, and its block lies
      inside the `w * h` buffer. */
  lemma RankFits(w: nat, h: nat, size: nat, shade: Shade, i: nat)
    requires size > 0 && i < size
    ensures |LocalSpec(w, h, size, i, shade)| == RowCount(h, size, i) * w
    ensures YStart(h, size, i) * w + RowCount(h, size, i) * w <= w * h
  {
    RowsLength(w, YStart(h, size, i), YEnd(h, size, i), shade);
    ScaledInside(w, h, size, i);
  }

  /** Placing rank `n - 1`'s buffer is one more splice at its displacement. */
  lemma GatheredStep(w: nat, h: nat, size: nat, shade: Shade, n: nat)
    requires size > 0 && 0 < n <= size
    ensures 0 <= YStart(h, size, n - 1) * w
    ensures YStart(h, size, n - 1) * w + |LocalSpec(w, h, size, n - 1, shade)| <= w * h
    ensures |GatheredUpTo(w, h, size, shade, n - 1)| == w * h
    ensures GatheredUpTo(w, h, size, shade, n)
      == Splice(GatheredUpTo(w, h, size, shade, n - 1), YStart(h, size, n - 1) * w, LocalSpec(w, h, size, n - 1, shade))
  {
    var m := n - 1;
    ScaledInside(w, h, size, m);
    RowsLength(w, YStart(h, size, m), YEnd(h, size, m), shade);
    TablesAgree(w, h, size, shade, n);
    TablesAgree(w, h, size, shade, m);
    var bufs := Contributions(w, h, size, shade)[..n];
    var counts := CountsTable(w, h, size)[..n];
    var displs := DisplsTable(w, h, size)[..n];
    assert bufs[..m] == Contributions(w, h, size, shade)[..m];
    assert counts[..m] == CountsTable(w, h, size)[..m];
    assert displs[..m] == DisplsTable(w, h, size)[..m];
  }

  /** Splicing a block right after a prefix of the buffer extends the prefix
      and leaves the rest of the buffer as it was. */
  lemma SpliceAfterPrefix(prefix: seq<int>, block: seq<int>, buf: seq<int>)
    requires |prefix| + |block| <= |buf|
    ensures |prefix + buf[|prefix|..]| == |buf|
    ensures Splice(prefix + buf[|prefix|..], |prefix|, block) == prefix + block + buf[|prefix| + |block|..]
  {
    var before := prefix + buf[|prefix|..];
    var d := |prefix|;
    assert before[..d] == prefix;
    assert before[d + |block|..] == buf[d + |block|..];
  }

  /** Splicing rows `a .. b-1` right after rows `0 .. a-1` at the front of
      `buf` extends them to rows `0 .. b-1`. */
  lemma SpliceRows(w: nat, a: nat, b: nat, shade: Shade, buf: seq<int>)
    requires a <= b && |Rows(w, 0, b, shade)| <= |buf|
    ensures |Rows(w, 0, a, shade)| + |Rows(w, a, b, shade)| == |Rows(w, 0, b, shade)|
    ensures Splice(Rows(w, 0, a, shade) + buf[|Rows(w, 0, a, shade)|..], |Rows(w, 0, a, shade)|, Rows(w, a, b, shade))
      == Rows(w, 0, b, shade) + buf[|Rows(w, 0, b, shade)|..]
  {
    RowsSplit(w, 0, a, b, shade);
    SpliceAfterPrefix(Rows(w, 0, a, shade), Rows(w, a, b, shade), buf);
  }

  /** After the first `n` ranks' buffers are placed, `allPixels` holds the
      image rows `0 .. yStart(n)-1` followed by untouched zeros. */
  lemma {:induction false} GatherPrefix(w: nat, h: nat, size: nat, shade: Shade, n: nat)
    requires size > 0 && n <= size
    ensures YStart(h, size, n) <= h
    ensures YStart(h, size, n) * w <= w * h
    ensures GatheredUpTo(w, h, size, shade, n) == Rows(w, 0, YStart(h, size, n), shade) + Zeros(w * h)[YStart(h, size, n) * w..]
  {
    ScaledInside(w, h, size, n);
    if n > 0 {
      GatherPrefix(w, h, size, shade, n - 1);
      GatheredStep(w, h, size, shade, n);
      var a, b := YStart(h, size, n - 1), YStart(h, size, n);
      Contiguous(h, size, n - 1);
      RowsLength(w, 0, a, shade);
      RowsLength(w, 0, b, shade);
      SpliceRows(w, a, b, shade, Zeros(w * h));
    }
  }

  /** The gathered buffer is exactly the image a single process would render. */
  lemma GatheredIsFullRender(w: nat, h: nat, size: nat, shade: Shade)
    requires size > 0
    ensures Gathered(w, h, size, shade) == FullRender(w, h, shade)
  {
    GatherPrefix(w, h, size, shade, size);
    Ends(h, size);
  }

  /** Partitioning does not change the picture: any number of processes
      assembles the same buffer as one process does. */
  lemma SizeIndependent(w: nat, h: nat, size1: nat, size2: nat, shade: Shade)
    requires size1 > 0 && size2 > 0
    ensures Gathered(w, h, size1, shade) == Gathered(w, h, size2, shade)
    ensures Gathered(w, h, size1, shade) == Gathered(w, h, 1, shade)
  {
    GatheredIsFullRender(w, h, size1, shade);
    GatheredIsFullRender(w, h, size2, shade);
    GatheredIsFullRender(w, h, 1, shade);
  }

  /** All ranks run `computeAndGather` on the same broadcast frame; they share
      nothing but the collective call, so running their parts one after the
      other gives what rank 0 receives: the full image, whatever the number
      of processes (`FullRenderAt` locates each pixel in it). */
  method ComputeAndGather(w: nat, h: nat, size: nat, shade: Shade) returns (allPixels: seq<int>)
    requires size > 0
    ensures allPixels == FullRender(w, h, shade)
    ensures |allPixels| == w * h
  {
    var locals: seq<seq<int>> := [];
    for rank := 0 to size
      invariant locals == Contributions(w, h, size, shade)[..rank]
    {
      var localPixels := FillLocal(w, h, size, rank, shade);
      locals := locals + [localPixels[..]];
    }
    var recvCounts, displs, offset := GatherTable(w, h, size);
    AssembleFromTables(w, h, size, shade, locals, recvCounts[..], displs[..], offset);
    allPixels := Gatherv(locals, recvCounts[..], displs[..], Zeros(offset));
  }

  /** The buffers and tables the ranks compute are valid `Gatherv` arguments,
      and the call assembles the full image. */
  lemma AssembleFromTables(w: nat, h: nat, size: nat, shade: Shade,
                           locals: seq<seq<int>>, recvCounts: seq<int>, displs: seq<int>, offset: int)
    requires size > 0
    requires locals == Contributions(w, h, size, shade)[..size]
    requires |recvCounts| == size && forall i :: 0 <= i < size ==> recvCounts[i] == RowCount(h, size, i) * w
    requires |displs| == size && forall i :: 0 <= i < size ==> displs[i] == YStart(h, size, i) * w
    requires offset == w * h
    ensures GathervArgs(locals, recvCounts, displs, offset)
    ensures Gatherv(locals, recvCounts, displs, Zeros(offset)) == FullRender(w, h, shade)
  {
    assert recvCounts == CountsTable(w, h, size)[..size];
    assert displs == DisplsTable(w, h, size)[..size];
    TablesAgree(w, h, size, shade, size);
    GatheredIsFullRender(w, h, size, shade);
  }

  /** When `w * h` fits in a Java `int`, so does every intermediate of the
      partition and the table (`rank * rowsPerProc`, the counts, the
      displacements and the running offset), so the unbounded integers of
      this model compute what the 32-bit arithmetic of the program does. */
  lemma NoIntOverflow(w: nat, h: nat, size: nat, i: nat)
    requires size > 0 && i <= size
    requires h <= INT_MAX && w * h <= INT_MAX
    ensures i * RowsPerProc(h, size) <= INT_MAX
    ensures YStart(h, size, i) <= h
    ensures YStart(h, size, i) * w <= INT_MAX
    ensures RowCount(h, size, i) * w <= INT_MAX
  {
    var b := RowsPerProc(h, size);
    MulMono(i, size, b);
    assert size * b <= h;
    Ends(h, size);
    if i < size {
      Ordered(h, size, i, size);
      Contiguous(h, size, i);
    }
    MulMono(YStart(h, size, i), h, w);
    MulMono(RowCount(h, size, i), h, w);
  }
}
