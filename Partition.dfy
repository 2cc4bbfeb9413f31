/** The row partitioner of the distributed render.

    Every rank derives its own contiguous range of image rows from the render
    height and the number of processes alone; rank 0 derives every rank's range
    with the same expressions when it builds the gather table. Nothing about the
    ranges is ever sent between processes.

    Heights and process counts are non-negative, so Java's truncating `/` and `%`
    agree with Dafny's Euclidean ones here. */
module Partition {

  function Min(a: int, b: int): int { if a < b then a else b }

  /** `rowsPerProc`: the rows every rank gets at least. */
  function RowsPerProc(h: nat, size: nat): nat
    requires size > 0
  {
    h / size
  }

  /** `extraRows`: how many ranks (the lowest ones) get one row more. */
  function ExtraRows(h: nat, size: nat): (e: nat)
    requires size > 0
    ensures e < size
  {
    h % size
  }

  /** First row of rank `i`: `i * rowsPerProc + min(i, extraRows)`. */
  function YStart(h: nat, size: nat, i: nat): nat
    requires size > 0
  {
    i * RowsPerProc(h, size) + Min(i, ExtraRows(h, size))
  }

  /** One past the last row of rank `i`. */
  function YEnd(h: nat, size: nat, i: nat): nat
    requires size > 0
  {
    YStart(h, size, i) + RowsPerProc(h, size) + (if i < ExtraRows(h, size) then 1 else 0)
  }

  /** Number of rows rank `i` renders. */
  function RowCount(h: nat, size: nat, i: nat): nat
    requires size > 0
  {
    YEnd(h, size, i) - YStart(h, size, i)
  }

  /** Row `y` belongs to rank `i`. */
  predicate Owns(h: nat, size: nat, i: nat, y: int)
    requires size > 0
  {
    YStart(h, size, i) <= y < YEnd(h, size, i)
  }

  /** Rank 0 starts at row 0 and the range past the last rank starts at `h`,
      which is where the last rank ends. */
  lemma Ends(h: nat, size: nat)
    requires size > 0
    ensures YStart(h, size, 0) == 0
    ensures YStart(h, size, size) == h
    ensures YEnd(h, size, size - 1) == h
  {
    Contiguous(h, size, size - 1);
  }

  /** Each range ends exactly where the next one starts: no gap, no overlap
      between neighbours. */
  lemma Contiguous(h: nat, size: nat, i: nat)
    requires size > 0
    ensures YEnd(h, size, i) == YStart(h, size, i + 1)
  {
    var b, e := RowsPerProc(h, size), ExtraRows(h, size);
    assert (i + 1) * b == i * b + b;
  }

  /** Ranges never move backwards: every earlier rank ends before every later
      rank starts. */
  lemma {:induction false} Ordered(h: nat, size: nat, i: nat, j: nat)
    requires size > 0
    requires i < j
    ensures YEnd(h, size, i) <= YStart(h, size, j)
    decreases j - i
  {
    Contiguous(h, size, i);
    if i + 1 < j {
      Ordered(h, size, i + 1, j);
    }
  }

  /** Every rank gets `rowsPerProc` or `rowsPerProc + 1` rows, and it gets the
      extra row exactly when its index is below `extraRows`. */
  lemma Balanced(h: nat, size: nat, i: nat)
    requires size > 0
    ensures RowCount(h, size, i) == RowsPerProc(h, size) || RowCount(h, size, i) == RowsPerProc(h, size) + 1
    ensures RowCount(h, size, i) == RowsPerProc(h, size) + 1 <==> i < ExtraRows(h, size)
  {
  }

  /** Any two ranks' row counts differ by at most one. */
  lemma AtMostOneApart(h: nat, size: nat, i: nat, j: nat)
    requires size > 0
    ensures RowCount(h, size, i) <= RowCount(h, size, j) + 1
  {
    Balanced(h, size, i);
    Balanced(h, size, j);
  }

  /** With more processes than rows, every rank from `h` on gets an empty
      range sitting at the bottom of the image. */
  lemma EmptyWhenOversubscribed(h: nat, size: nat, i: nat)
    requires size > h
    requires h <= i
    ensures YStart(h, size, i) == YEnd(h, size, i) == h
  {
    assert RowsPerProc(h, size) == 0;
    assert ExtraRows(h, size) == h;
  }

  /** The rank that owns row `y`, found by walking the ranks upwards from `i`. */
  function OwnerFrom(h: nat, size: nat, y: nat, i: nat): (r: nat)
    requires size > 0
    requires y < h
    requires i < size && YStart(h, size, i) <= y
    ensures i <= r < size && Owns(h, size, r, y)
    decreases size - i
  {
    if y < YEnd(h, size, i) then i
    else
      Contiguous(h, size, i);
      if i + 1 < size then OwnerFrom(h, size, y, i + 1)
      else Ends(h, size); assert false; i
  }

  /** Exact cover: every row of the image belongs to exactly one rank. */
  lemma ExactCover(h: nat, size: nat, y: nat)
    requires size > 0
    requires y < h
    ensures exists i :: 0 <= i < size && Owns(h, size, i, y)
    ensures forall i, j :: 0 <= i < size && 0 <= j < size && Owns(h, size, i, y) && Owns(h, size, j, y) ==> i == j
  {
    Ends(h, size);
    var r := OwnerFrom(h, size, y, 0);
    forall i, j | 0 <= i < size && 0 <= j < size && Owns(h, size, i, y) && Owns(h, size, j, y)
      ensures i == j
    {
      if i < j {
        Ordered(h, size, i, j);
      } else if j < i {
        Ordered(h, size, j, i);
      }
    }
  }

  /** Rows of ranks `0 .. i-1` together. */
  function RowsBefore(h: nat, size: nat, i: nat): nat
    requires size > 0
  {
    if i == 0 then 0 else RowsBefore(h, size, i - 1) + RowCount(h, size, i - 1)
  }

  /** The closed-form start of a range is the running sum of the sizes of all
      ranges before it, which is what lets each rank compute its own offset
      without hearing from the others. */
  lemma {:induction false} StartIsPrefixSum(h: nat, size: nat, i: nat)
    requires size > 0
    ensures YStart(h, size, i) == RowsBefore(h, size, i)
  {
    if i > 0 {
      StartIsPrefixSum(h, size, i - 1);
      Contiguous(h, size, i - 1);
    }
  }
}
