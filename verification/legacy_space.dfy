/** The earlier revision of the grid (`space.rs`, `mod math`). Its rectangle
    has no origin, and its membership test compares x against the HEIGHT and
    y against the WIDTH, both inclusively. Storage uses the same row-major
    layout with `height` as the stride. */
module LegacySpace {
  import opened Utils
  import opened RowMajor
  import Coords

  /** The revision's own coordinate struct has the same two unsigned fields. */
  type Coord2 = Coords.Coord2

  datatype Rect = Rect(height: nat, width: nat)

  /** `Rect::contains`: `Some(())` exactly when `x <= height` and `y <= width`. */
  function Contains(r: Rect, c: Coord2): (res: Option<()>)
    ensures res.Some? <==> c.x <= r.height && c.y <= r.width
  {
    if c.x <= r.height && c.y <= r.width then Some(()) else None
  }

  /** `Rect::area`. */
  function Area(r: Rect): (a: nat)
    ensures a == r.height * r.width
  {
    r.height * r.width
  }

  /** The earlier test is the current one with the axes exchanged: it accepts
      (x, y) exactly when the current rectangle of the same size, anchored at
      the origin, accepts (y, x). */
  lemma ContainsIsTransposed(r: Rect, c: Coord2)
    ensures Contains(r, c).Some? <==>
      Coords.Contains(Coords.Rect(r.height, r.width, Coords.Coord2(0, 0)),
                      Coords.Coord2(c.y, c.x))
  {
  }

  /** On a rectangle that is not square the two revisions disagree: the cell
      one past the shorter side along the longer side's axis is accepted by one
      and rejected by the other. */
  lemma RevisionsDisagree(r: Rect)
    requires r.height != r.width
    ensures var current := Coords.Rect(r.height, r.width, Coords.Coord2(0, 0));
      var c := if r.height > r.width then Coords.Coord2(r.height, 0) else Coords.Coord2(0, r.width);
      Contains(r, c).Some? && !Coords.Contains(current, c)
  {
  }

  datatype Matrix2<T> = Matrix2(dimensions: Rect, items: seq<T>)

  /** `Matrix2::from_size`: capacity `area()`, no element. */
  function FromSize<T>(dimensions: Rect): (m: Matrix2<T>)
    ensures m.dimensions == dimensions
    ensures |m.items| == 0
  {
    Matrix2(dimensions, [])
  }

  /** Slot the store uses for `c`. */
  function Slot<T>(m: Matrix2<T>, c: Coord2): nat {
    Index(c.x, c.y, m.dimensions.height)
  }

  /** `get_ix`: the slot `x + y * height` of a contained coordinate. */
  function GetIx<T>(m: Matrix2<T>, c: Coord2): (r: Option<nat>)
    ensures r.Some? <==> Contains(m.dimensions, c).Some?
    ensures r.Some? ==> r.value == Slot(m, c)
  {
    match Contains(m.dimensions, c)
    case Some(_) => Some(Slot(m, c))
    case None => None
  }

  /** `get_coords`: the coordinate (`ix % height`, `ix / height`) when it is
      contained. */
  function GetCoords<T>(m: Matrix2<T>, ix: nat): (r: Option<Coord2>)
    requires m.dimensions.height > 0
    ensures var c := Coords.Coord2(Column(ix, m.dimensions.height), Row(ix, m.dimensions.height));
      (r.Some? <==> Contains(m.dimensions, c).Some?) && (r.Some? ==> r.value == c)
  {
    var h := m.dimensions.height;
    var c := Coords.Coord2(Column(ix, h), Row(ix, h));
    match Contains(m.dimensions, c)
    case Some(_) => Some(c)
    case None => None
  }

  /** A contained coordinate whose column is below the stride survives the
      trip through its slot. */
  lemma IxThenCoords<T>(m: Matrix2<T>, c: Coord2)
    requires Contains(m.dimensions, c).Some? && c.x < m.dimensions.height
    ensures GetIx(m, c).Some?
    ensures GetCoords(m, GetIx(m, c).value) == Some(c)
  {
    IndexThenSplit(c.x, c.y, m.dimensions.height);
  }

  /** Every slot `get_coords` accepts is the slot of the coordinate it returns. */
  lemma CoordsThenIx<T>(m: Matrix2<T>, ix: nat)
    requires m.dimensions.height > 0 && GetCoords(m, ix).Some?
    ensures GetIx(m, GetCoords(m, ix).value) == Some(ix)
  {
    SplitThenIndex(ix, m.dimensions.height);
  }

  /** `get`: the stored value of a contained coordinate whose slot is inside
      the store. */
  function Get<T>(m: Matrix2<T>, c: Coord2): (r: Option<T>)
    ensures r.Some? <==> Contains(m.dimensions, c).Some? && Slot(m, c) < |m.items|
    ensures r.Some? ==> r.value == m.items[Slot(m, c)]
  {
    match GetIx(m, c)
    case Some(ix) => if ix < |m.items| then Some(m.items[ix]) else None
    case None => None
  }

  /** `get_mut`: the slot the returned mutable reference designates, under
      the same conditions as `get`: the slot `get_ix` computes for `c`. */
  function GetMut<T>(m: Matrix2<T>, c: Coord2): (r: Option<nat>)
    ensures r.Some? <==> Get(m, c).Some?
    ensures r.Some? ==> r.value == Slot(m, c)
    ensures r.Some? ==> r.value < |m.items| && Get(m, c) == Some(m.items[r.value])
  {
    match GetIx(m, c)
    case Some(ix) => if ix < |m.items| then Some(ix) else None
    case None => None
  }

  /** A matrix fresh from `from_size` answers every read with `None`. */
  lemma FreshGetIsNone<T>(dimensions: Rect, c: Coord2)
    ensures Get(FromSize<T>(dimensions), c).None?
    ensures GetMut(FromSize<T>(dimensions), c).None?
  {
  }

  /** `Matrix2Iter`: a cursor over the store in slot order. */
  datatype Matrix2Iter<T> = Matrix2Iter(matrix: Matrix2<T>, ix: nat)

  /** `iter`: a cursor at slot 0. */
  function IterOf<T>(m: Matrix2<T>): (it: Matrix2Iter<T>)
    ensures it.matrix == m && it.ix == 0
  {
    Matrix2Iter(m, 0)
  }

  /** True when a cursor at slot `j` yields a value. */
  predicate Yields<T>(m: Matrix2<T>, j: nat)
    requires m.dimensions.height > 0
  {
    GetCoords(m, j).Some? && j < |m.items|
  }

  /** What a cursor at slot `j` yields. */
  function ItemAt<T>(m: Matrix2<T>, j: nat): (Coord2, T)
    requires m.dimensions.height > 0 && Yields(m, j)
  {
    (GetCoords(m, j).value, m.items[j])
  }

  /** `Matrix2Iter::next`: yields the coordinate of the current slot with the
      value stored there and advances, or yields nothing and stays put. */
  function Next<T>(it: Matrix2Iter<T>): (r: (Matrix2Iter<T>, Option<(Coord2, T)>))
    requires it.matrix.dimensions.height > 0
    ensures r.1.Some? <==> Yields(it.matrix, it.ix)
    ensures r.1.Some? ==>
      r.1.value == ItemAt(it.matrix, it.ix) && r.0 == Matrix2Iter(it.matrix, it.ix + 1)
    ensures r.1.None? ==> r.0 == it
  {
    match GetCoords(it.matrix, it.ix)
    case None => (it, None)
    case Some(c) =>
      CoordsThenIx(it.matrix, it.ix);
      match Get(it.matrix, c)
      case None => (it, None)
      case Some(v) => (Matrix2Iter(it.matrix, it.ix + 1), Some((c, v)))
  }

  /** Everything a cursor yields before its first empty step. It ends just
      before the first slot that `next` rejects. */
  function Collect<T>(it: Matrix2Iter<T>): (r: seq<(Coord2, T)>)
    requires it.matrix.dimensions.height > 0
    ensures !Yields(it.matrix, it.ix + |r|)
    decreases |it.matrix.items| - it.ix
  {
    var step := Next(it);
    if step.1.None? then []
    else [step.1.value] + Collect(step.0)
  }

  /** Item `k` of the collection is the value in slot `ix + k` with that
      slot's coordinate. */
  lemma {:induction false} CollectInSlotOrder<T>(it: Matrix2Iter<T>, k: nat)
    requires it.matrix.dimensions.height > 0
    requires k < |Collect(it)|
    ensures Yields(it.matrix, it.ix + k)
    ensures Collect(it)[k] == ItemAt(it.matrix, it.ix + k)
    decreases k
  {
    var step := Next(it);
    assert step.1.Some?;
    if k == 0 {
      assert Collect(it)[0] == step.1.value;
    } else {
      assert Collect(it)[k] == Collect(step.0)[k - 1];
      CollectInSlotOrder(step.0, k - 1);
    }
  }

  /** The exchanged axes fit the stride: for ANY rectangle with a positive
      height, a store of at most `area()` values is yielded in full. */
  lemma {:induction false} CollectYieldsAll<T>(it: Matrix2Iter<T>)
    requires it.matrix.dimensions.height > 0
    requires |it.matrix.items| <= Area(it.matrix.dimensions)
    requires it.ix <= |it.matrix.items|
    ensures |Collect(it)| == |it.matrix.items| - it.ix
    decreases |it.matrix.items| - it.ix
  {
    var m := it.matrix;
    if it.ix < |m.items| {
      var h := m.dimensions.height;
      SplitThenIndex(it.ix, h);
      RowBelow(it.ix, h, m.dimensions.width);
      assert GetCoords(m, it.ix).Some?;
      CollectYieldsAll(Matrix2Iter(m, it.ix + 1));
    }
  }
}
