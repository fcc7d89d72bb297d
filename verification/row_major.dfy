/** Row-major slot arithmetic shared by both revisions of the grid.
    A coordinate (x, y) lives in slot `x + y * stride`; a slot `ix` splits back
    into column `ix % stride` and row `ix / stride`. Both revisions pass the
    rectangle's HEIGHT as the stride. */
module RowMajor {

  /** Storage slot of (x, y) when every row is `stride` cells long. */
  function Index(x: nat, y: nat, stride: nat): nat {
    x + y * stride
  }

  /** Column part of slot `ix`. */
  function Column(ix: nat, stride: nat): nat
    requires stride > 0
  {
    ix % stride
  }

  /** Row part of slot `ix`. */
  function Row(ix: nat, stride: nat): nat
    requires stride > 0
  {
    ix / stride
  }

  /** Splitting a slot and re-indexing gives the slot back. */
  lemma SplitThenIndex(ix: nat, stride: nat)
    requires stride > 0
    ensures Column(ix, stride) < stride
    ensures Index(Column(ix, stride), Row(ix, stride), stride) == ix
  {
  }

  /** Indexing a coordinate whose column fits in the stride and splitting the
      slot again gives the coordinate back. */
  lemma IndexThenSplit(x: nat, y: nat, stride: nat)
    requires x < stride
    ensures Column(Index(x, y, stride), stride) == x
    ensures Row(Index(x, y, stride), stride) == y
  {
    var ix := Index(x, y, stride);
    var q, r := ix / stride, ix % stride;
    assert ix == q * stride + r && 0 <= r < stride;
    assert (q - y) * stride == x - r;
    if q > y {
      MulAtLeast(q - y, stride);
      assert false;
    } else if q < y {
      MulAtLeast(y - q, stride);
      assert false;
    }
  }

  /** A positive multiple of `stride` is at least `stride`. */
  lemma MulAtLeast(k: int, stride: nat)
    requires k >= 1
    ensures k * stride >= stride
  {
    assert k * stride == (k - 1) * stride + stride;
  }

  /** Multiplying by a natural preserves order. */
  lemma MulMonotone(a: nat, b: nat, stride: nat)
    requires a <= b
    ensures a * stride <= b * stride
  {
    assert b * stride == a * stride + (b - a) * stride;
  }

  /** Cells with column below `stride` and row below `rows` occupy exactly the
      slots below `stride * rows`. */
  lemma IndexBelowArea(x: nat, y: nat, stride: nat, rows: nat)
    requires x < stride && y < rows
    ensures Index(x, y, stride) < stride * rows
  {
    assert (rows - 1 - y) * stride >= 0;
    assert stride * rows == y * stride + stride + (rows - 1 - y) * stride;
  }

  /** Every slot below `stride * rows` splits into a row below `rows`. */
  lemma RowBelow(ix: nat, stride: nat, rows: nat)
    requires stride > 0 && ix < stride * rows
    ensures Row(ix, stride) < rows
  {
    SplitThenIndex(ix, stride);
    var q := Row(ix, stride);
    if q >= rows {
      MulMonotone(rows, q, stride);
      assert false;
    }
  }
}
