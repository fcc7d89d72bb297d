/** The current grid container, `Matrix2<T>`: a rectangle plus a row-major
    backing store. The store starts empty and is only ever read or overwritten
    in place, never grown. Rows are `dimensions.height` cells long. */
module Matrix {
  import opened Utils
  import opened Coords
  import opened RowMajor

  datatype Matrix2<T> = Matrix2(dimensions: Rect, items: seq<T>)

  /** `Matrix2::from_dimensions`: the store is allocated with capacity
      `area()` but holds no element. */
  function FromDimensions<T>(dimensions: Rect): (m: Matrix2<T>)
    ensures m.dimensions == dimensions
    ensures |m.items| == 0
  {
    Matrix2(dimensions, [])
  }

  /** Slot the store uses for `c`, whether or not `c` is contained. */
  function Slot<T>(m: Matrix2<T>, c: Coord2): nat {
    Index(c.x, c.y, m.dimensions.height)
  }

  /** `index_of`: the slot of a contained coordinate, with `height` as the row
      stride. */
  function IndexOf<T>(m: Matrix2<T>, c: Coord2): (r: Option<nat>)
    ensures r.Some? <==> Contains(m.dimensions, c)
    ensures r.Some? ==> r.value == c.x + c.y * m.dimensions.height
  {
    AsSome(Contains(m.dimensions, c), Slot(m, c))
  }

  /** `coords_of`: splits a slot into column `ix % height` and row
      `ix / height` and keeps the result only when it is contained. */
  function CoordsOf<T>(m: Matrix2<T>, ix: nat): (r: Option<Coord2>)
    requires m.dimensions.height > 0
    ensures var c := Coord2(Column(ix, m.dimensions.height), Row(ix, m.dimensions.height));
      (r.Some? <==> Contains(m.dimensions, c)) && (r.Some? ==> r.value == c)
  {
    var h := m.dimensions.height;
    var c := Coord2(Column(ix, h), Row(ix, h));
    AsSome(Contains(m.dimensions, c), c)
  }

  /** A contained coordinate whose column is below the stride survives the
      trip through its slot. */
  lemma IndexThenCoords<T>(m: Matrix2<T>, c: Coord2)
    requires Contains(m.dimensions, c) && c.x < m.dimensions.height
    ensures IndexOf(m, c).Some?
    ensures CoordsOf(m, IndexOf(m, c).value) == Some(c)
  {
    IndexThenSplit(c.x, c.y, m.dimensions.height);
  }

  /** Every slot that `coords_of` accepts is the slot of the coordinate it
      returns. */
  lemma CoordsThenIndex<T>(m: Matrix2<T>, ix: nat)
    requires m.dimensions.height > 0 && CoordsOf(m, ix).Some?
    ensures IndexOf(m, CoordsOf(m, ix).value) == Some(ix)
  {
    SplitThenIndex(ix, m.dimensions.height);
  }

  /** Because the row stride is `height` while containment admits columns up
      to `width`, a grid anchored at the origin, with a positive height and at
      least as wide as tall, maps two different contained cells to one slot:
      (height, 0) and (0, 1) share a slot. */
  lemma StrideCollision<T>(m: Matrix2<T>)
    requires m.dimensions.origin == Coord2(0, 0)
    requires 1 <= m.dimensions.height <= m.dimensions.width
    ensures Coord2(m.dimensions.height, 0) != Coord2(0, 1)
    ensures IndexOf(m, Coord2(m.dimensions.height, 0)).Some?
    ensures IndexOf(m, Coord2(m.dimensions.height, 0)) == IndexOf(m, Coord2(0, 1))
  {
  }

  /** Because containment is inclusive, the far corner of a grid anchored at
      the origin, no wider than tall, is contained yet its slot lies at or past `area()`: a store
      of `area()` elements cannot hold it. */
  lemma FarCornerBeyondArea<T>(m: Matrix2<T>)
    requires m.dimensions.origin == Coord2(0, 0)
    requires m.dimensions.width <= m.dimensions.height
    ensures Contains(m.dimensions, Coord2(m.dimensions.width, m.dimensions.height))
    ensures Slot(m, Coord2(m.dimensions.width, m.dimensions.height)) >= Area(m.dimensions)
  {
    var h, w := m.dimensions.height, m.dimensions.width;
    MulMonotone(w, h, h);
  }

  /** `area()` counts exactly the slots the stride layout gives to columns
      below `height` and rows below `width`. */
  lemma AreaIsStrideBlock<T>(m: Matrix2<T>, x: nat, y: nat, ix: nat)
    requires m.dimensions.height > 0
    ensures x < m.dimensions.height && y < m.dimensions.width ==> Slot(m, Coord2(x, y)) < Area(m.dimensions)
    ensures ix < Area(m.dimensions) ==> ix / m.dimensions.height < m.dimensions.width
  {
    var h, w := m.dimensions.height, m.dimensions.width;
    if x < h && y < w {
      IndexBelowArea(x, y, h, w);
    }
    if ix < Area(m.dimensions) {
      RowBelow(ix, h, w);
    }
  }

  /** `get`: the coordinate with its stored value, when the coordinate is
      contained and its slot is inside the store. */
  function Get<T>(m: Matrix2<T>, c: Coord2): (r: Option<(Coord2, T)>)
    ensures r.Some? <==> Contains(m.dimensions, c) && Slot(m, c) < |m.items|
    ensures r.Some? ==> r.value == (c, m.items[Slot(m, c)])
  {
    match IndexOf(m, c)
    case Some(ix) => if ix < |m.items| then Some((c, m.items[ix])) else None
    case None => None
  }

  /** A freshly built matrix holds nothing, so every read comes back empty. */
  lemma FreshGetIsNone<T>(dimensions: Rect, c: Coord2)
    ensures Get(FromDimensions<T>(dimensions), c).None?
  {
  }

  /** Precondition of `set`: writing a contained coordinate indexes the store
      directly, which panics when the slot is past its end. */
  predicate CanSet<T>(m: Matrix2<T>, c: Coord2) {
    Contains(m.dimensions, c) ==> Slot(m, c) < |m.items|
  }

  /** `set`: on a contained coordinate, overwrites exactly its slot and
      returns the value that was there; otherwise changes nothing and
      returns `None`. */
  function Set<T>(m: Matrix2<T>, c: Coord2, v: T): (r: (Matrix2<T>, Option<T>))
    requires CanSet(m, c)
    ensures r.0.dimensions == m.dimensions
    ensures |r.0.items| == |m.items|
    ensures !Contains(m.dimensions, c) ==> r.0 == m && r.1 == None
    ensures Contains(m.dimensions, c) ==>
      && r.1 == Some(m.items[Slot(m, c)])
      && r.0.items[Slot(m, c)] == v
      && forall j :: 0 <= j < |m.items| && j != Slot(m, c) ==> r.0.items[j] == m.items[j]
  {
    match IndexOf(m, c)
    case Some(ix) => (m.(items := m.items[ix := v]), Some(m.items[ix]))
    case None => (m, None)
  }

  /** Reading a coordinate right after writing it gives the written value. */
  lemma GetAfterSet<T>(m: Matrix2<T>, c: Coord2, v: T)
    requires CanSet(m, c) && Contains(m.dimensions, c)
    ensures Get(Set(m, c, v).0, c) == Some((c, v))
  {
  }

  /** A write leaves every coordinate stored in another slot unaffected. */
  lemma GetAfterSetElsewhere<T>(m: Matrix2<T>, c: Coord2, d: Coord2, v: T)
    requires CanSet(m, c) && Slot(m, d) != Slot(m, c)
    ensures Get(Set(m, c, v).0, d) == Get(m, d)
  {
  }

  /** Writing back the value `set` returned restores the original matrix. */
  lemma SetRestores<T>(m: Matrix2<T>, c: Coord2, v: T)
    requires CanSet(m, c) && Contains(m.dimensions, c)
    ensures CanSet(Set(m, c, v).0, c)
    ensures Set(Set(m, c, v).0, c, Set(m, c, v).1.value).0 == m
  {
    var m1 := Set(m, c, v).0;
    var m2 := Set(m1, c, Set(m, c, v).1.value).0;
    assert m2.items == m.items;
  }

  /** Cells one step apart along exactly one axis. */
  predicate Adjacent(a: Coord2, b: Coord2) {
    || (a.y == b.y && (a.x + 1 == b.x || b.x + 1 == a.x))
    || (a.x == b.x && (a.y + 1 == b.y || b.y + 1 == a.y))
  }

  /** Cells one step apart along both axes. */
  predicate Diagonal(a: Coord2, b: Coord2) {
    && (a.x + 1 == b.x || b.x + 1 == a.x)
    && (a.y + 1 == b.y || b.y + 1 == a.y)
  }

  /** `get_adjacent_neighbors`: reads left, right, up and down of `c`, in that
      order. Both components must be positive because `x - 1` and `y - 1` are
      unsigned subtractions. Every present entry is an adjacent cell read
      through `get`, and every readable adjacent cell is present. */
  function GetAdjacentNeighbors<T>(m: Matrix2<T>, c: Coord2): (r: seq<Option<(Coord2, T)>>)
    requires c.x >= 1 && c.y >= 1
    ensures |r| == 4
    ensures r[0].Some? ==> r[0].value.0.x < c.x
    ensures r[1].Some? ==> r[1].value.0.x > c.x
    ensures r[2].Some? ==> r[2].value.0.y < c.y
    ensures r[3].Some? ==> r[3].value.0.y > c.y
    ensures forall i :: 0 <= i < 4 && r[i].Some? ==>
      Adjacent(r[i].value.0, c) && Get(m, r[i].value.0) == r[i]
    ensures forall d :: Adjacent(d, c) && Get(m, d).Some? ==> Get(m, d) in r
  {
    [ Get(m, Coord2(c.x - 1, c.y)),
      Get(m, Coord2(c.x + 1, c.y)),
      Get(m, Coord2(c.x, c.y - 1)),
      Get(m, Coord2(c.x, c.y + 1)) ]
  }

  /** Adjacency is symmetric: if `d` is a readable neighbour of readable `c`,
      then `c` is among the neighbours of `d`. */
  lemma NeighborSymmetry<T>(m: Matrix2<T>, c: Coord2, d: Coord2)
    requires c.x >= 1 && c.y >= 1 && d.x >= 1 && d.y >= 1
    requires Get(m, c).Some? && Get(m, d) in GetAdjacentNeighbors(m, c) && Get(m, d).Some?
    ensures Get(m, c) in GetAdjacentNeighbors(m, d)
  {
    var r := GetAdjacentNeighbors(m, c);
    var i :| 0 <= i < 4 && r[i] == Get(m, d);
    assert Adjacent(d, c);
  }

  /** `get_diagonal_neighbors`: reads the four diagonal cells of `c`, in the
      order (x-1, y-1), (x-1, y+1), (x+1, y-1), (x+1, y+1). Every present
      entry is a diagonal cell read through `get`, and every readable diagonal
      cell is present. */
  function GetDiagonalNeighbors<T>(m: Matrix2<T>, c: Coord2): (r: seq<Option<(Coord2, T)>>)
    requires c.x >= 1 && c.y >= 1
    ensures |r| == 4
    ensures r[0].Some? ==> r[0].value.0.x < c.x && r[0].value.0.y < c.y
    ensures r[1].Some? ==> r[1].value.0.x < c.x && r[1].value.0.y > c.y
    ensures r[2].Some? ==> r[2].value.0.x > c.x && r[2].value.0.y < c.y
    ensures r[3].Some? ==> r[3].value.0.x > c.x && r[3].value.0.y > c.y
    ensures forall i :: 0 <= i < 4 && r[i].Some? ==>
      Diagonal(r[i].value.0, c) && Get(m, r[i].value.0) == r[i]
    ensures forall d :: Diagonal(d, c) && Get(m, d).Some? ==> Get(m, d) in r
  {
    [ Get(m, Coord2(c.x - 1, c.y - 1)),
      Get(m, Coord2(c.x - 1, c.y + 1)),
      Get(m, Coord2(c.x + 1, c.y - 1)),
      Get(m, Coord2(c.x + 1, c.y + 1)) ]
  }

  /** `get_edge`: classifies `c` as Left (x = 0), else Right (x = width - 1),
      along x, and Top (y = 0), else Bottom (y = height - 1), along y. Both
      `width - 1` and `height - 1` are unsigned subtractions. */
  function GetEdge<T>(m: Matrix2<T>, c: Coord2): (r: EdgeInfo)
    requires m.dimensions.width >= 1 && m.dimensions.height >= 1
    ensures r.xEdge == Some(Left) <==> c.x == 0
    ensures r.xEdge == Some(Right) <==> c.x != 0 && c.x == m.dimensions.width - 1
    ensures r.xEdge == None <==> c.x != 0 && c.x != m.dimensions.width - 1
    ensures r.yEdge == Some(Top) <==> c.y == 0
    ensures r.yEdge == Some(Bottom) <==> c.y != 0 && c.y == m.dimensions.height - 1
    ensures r.yEdge == None <==> c.y != 0 && c.y != m.dimensions.height - 1
  {
    var maxX := m.dimensions.width - 1;
    var maxY := m.dimensions.height - 1;
    var xEdge := if c.x == 0 then Some(Left) else if c.x == maxX then Some(Right) else None;
    var yEdge := if c.y == 0 then Some(Top) else if c.y == maxY then Some(Bottom) else None;
    EdgeInfo(xEdge, yEdge)
  }

  /** Precondition of `coords_of_corner`: `width - 1` is computed only for a
      corner without `Left`, `height - 1` only for one without `Top`. */
  predicate CornerDefined<T>(m: Matrix2<T>, k: Corner) {
    && (HasEdge(k, Left) || m.dimensions.width >= 1)
    && (HasEdge(k, Top) || m.dimensions.height >= 1)
  }

  /** `coords_of_corner`: x is 0 for a corner naming `Left` and `width - 1`
      otherwise; y is 0 for a corner naming `Top` and `height - 1` otherwise. */
  function CoordsOfCorner<T>(m: Matrix2<T>, k: Corner): (c: Coord2)
    requires CornerDefined(m, k)
    ensures HasEdge(k, Left) ==> c.x == 0
    ensures !HasEdge(k, Left) ==> c.x == m.dimensions.width - 1
    ensures HasEdge(k, Top) ==> c.y == 0
    ensures !HasEdge(k, Top) ==> c.y == m.dimensions.height - 1
  {
    var x := match k
      case Corner(Left, _) => 0
      case Corner(_, Left) => 0
      case _ => m.dimensions.width - 1;
    var y := match k
      case Corner(Top, _) => 0
      case Corner(_, Top) => 0
      case _ => m.dimensions.height - 1;
    FromPair((x, y))
  }

  /** A corner named by one x side and one y side. */
  predicate ProperCorner(k: Corner) {
    && (HasEdge(k, Left) || HasEdge(k, Right))
    && (HasEdge(k, Top) || HasEdge(k, Bottom))
  }

  /** On a grid at least 2 by 2, the cell of a proper corner is classified
      with exactly the corner's two sides. */
  lemma EdgeOfCorner<T>(m: Matrix2<T>, k: Corner)
    requires m.dimensions.width >= 2 && m.dimensions.height >= 2 && ProperCorner(k)
    ensures GetEdge(m, CoordsOfCorner(m, k)) ==
      EdgeInfo(Some(if HasEdge(k, Left) then Left else Right),
               Some(if HasEdge(k, Top) then Top else Bottom))
  {
  }

  /** A cell classified on both axes is the cell of the corner its two
      classifications name. */
  lemma CornerOfEdge<T>(m: Matrix2<T>, c: Coord2)
    requires m.dimensions.width >= 1 && m.dimensions.height >= 1
    requires GetEdge(m, c).xEdge.Some? && GetEdge(m, c).yEdge.Some?
    ensures CoordsOfCorner(m, Corner(GetEdge(m, c).xEdge.value, GetEdge(m, c).yEdge.value)) == c
  {
  }

  /** On a grid anchored at the origin every corner cell is contained. */
  lemma CornerContained<T>(m: Matrix2<T>, k: Corner)
    requires m.dimensions.origin == Coord2(0, 0) && CornerDefined(m, k)
    ensures Contains(m.dimensions, CoordsOfCorner(m, k))
  {
  }

  /** `get_corner`: reads the corner cell; the read must succeed (it is
      unwrapped). */
  function GetCorner<T>(m: Matrix2<T>, k: Corner): (r: (Coord2, T))
    requires CornerDefined(m, k) && Get(m, CoordsOfCorner(m, k)).Some?
    ensures r.0 == CoordsOfCorner(m, k)
    ensures r.1 == m.items[Slot(m, r.0)]
  {
    Get(m, CoordsOfCorner(m, k)).value
  }

  /** Precondition of `set_corner`: the write must hit a contained cell (its
      result is unwrapped) whose slot is inside the store. */
  predicate CanSetCorner<T>(m: Matrix2<T>, k: Corner) {
    && CornerDefined(m, k)
    && Contains(m.dimensions, CoordsOfCorner(m, k))
    && Slot(m, CoordsOfCorner(m, k)) < |m.items|
  }

  /** `set_corner`: overwrites the corner cell's slot and nothing else. */
  function SetCorner<T>(m: Matrix2<T>, k: Corner, v: T): (r: Matrix2<T>)
    requires CanSetCorner(m, k)
    ensures r.dimensions == m.dimensions && |r.items| == |m.items|
    ensures GetCorner(r, k) == (CoordsOfCorner(m, k), v)
    ensures forall j :: 0 <= j < |m.items| && j != Slot(m, CoordsOfCorner(m, k)) ==>
      r.items[j] == m.items[j]
  {
    Set(m, CoordsOfCorner(m, k), v).0
  }

  /** A row (`X`, value = x) or column (`Y`, value = y) of the grid. */
  datatype Scanline = Scanline(axis: Axis, val: nat)

  /** Precondition of `get_edges`: `width - 1` and `height - 1` are unsigned. */
  predicate HasCells<T>(m: Matrix2<T>) {
    m.dimensions.width >= 1 && m.dimensions.height >= 1
  }

  /** All x values `0..=max_x` as `X` scanlines, then all y values `0..=max_y`
      as `Y` scanlines. */
  function Scanlines<T>(m: Matrix2<T>): (ls: seq<Scanline>)
    requires HasCells(m)
    ensures |ls| == m.dimensions.width + m.dimensions.height
    ensures forall i :: 0 <= i < |ls| ==>
      ls[i] == if i < m.dimensions.width then Scanline(X, i)
               else Scanline(Y, i - m.dimensions.width)
  {
    seq(m.dimensions.width, x requires 0 <= x => Scanline(X, x))
      + seq(m.dimensions.height, y requires 0 <= y => Scanline(Y, y))
  }

  /** The two boundary points of one scanline, each paired with its
      classification: (x, 0) and (x, max_y) for an x value, (0, y) and
      (max_x, y) for a y value. */
  function ScanlineEnds<T>(m: Matrix2<T>, s: Scanline): seq<(EdgeInfo, Coord2)>
    requires HasCells(m)
  {
    var maxX := m.dimensions.width - 1;
    var maxY := m.dimensions.height - 1;
    var ends := match s.axis
      case X => [FromPair((s.val, 0)), FromPair((s.val, maxY))]
      case Y => [FromPair((0, s.val)), FromPair((maxX, s.val))];
    [(GetEdge(m, ends[0]), ends[0]), (GetEdge(m, ends[1]), ends[1])]
  }

  /** Flattening of the per-scanline pairs: item `i` is end `i % 2` of
      scanline `i / 2`. */
  function FlattenEnds<T>(m: Matrix2<T>, ls: seq<Scanline>): (r: seq<(EdgeInfo, Coord2)>)
    requires HasCells(m)
    ensures |r| == 2 * |ls|
    ensures forall i :: 0 <= i < |r| ==> r[i] == ScanlineEnds(m, ls[i / 2])[i % 2]
  {
    if ls == [] then []
    else ScanlineEnds(m, ls[0]) + FlattenEnds(m, ls[1..])
  }

  /** A cell of the `width` by `height` box starting at (0, 0) that lies on
      its first or last column or row. */
  predicate OnBoundary<T>(m: Matrix2<T>, c: Coord2)
    requires HasCells(m)
  {
    var maxX := m.dimensions.width - 1;
    var maxY := m.dimensions.height - 1;
    && c.x <= maxX && c.y <= maxY
    && (c.x == 0 || c.x == maxX || c.y == 0 || c.y == maxY)
  }

  /** `get_edges`: `2 * width + 2 * height` boundary points, each paired with
      its own classification. First (x, 0), (x, max_y) for every x, then
      (0, y), (max_x, y) for every y. */
  function GetEdges<T>(m: Matrix2<T>): (r: seq<(EdgeInfo, Coord2)>)
    requires HasCells(m)
    ensures |r| == 2 * m.dimensions.width + 2 * m.dimensions.height
    ensures forall i :: 0 <= i < |r| && i < 2 * m.dimensions.width ==>
      r[i].1 == Coord2(i / 2, if i % 2 == 0 then 0 else m.dimensions.height - 1)
    ensures forall i :: 2 * m.dimensions.width <= i < |r| ==>
      r[i].1 == Coord2(if i % 2 == 0 then 0 else m.dimensions.width - 1,
                       (i - 2 * m.dimensions.width) / 2)
    ensures forall i :: 0 <= i < |r| ==> r[i].0 == GetEdge(m, r[i].1)
    ensures forall i :: 0 <= i < |r| ==> OnBoundary(m, r[i].1)
  {
    FlattenEnds(m, Scanlines(m))
  }

  /** Every boundary cell of the box is emitted by `get_edges`. */
  lemma GetEdgesComplete<T>(m: Matrix2<T>, c: Coord2)
    requires HasCells(m) && OnBoundary(m, c)
    ensures exists i :: 0 <= i < |GetEdges(m)| && GetEdges(m)[i].1 == c
  {
    var r := GetEdges(m);
    var w, h := m.dimensions.width, m.dimensions.height;
    if c.y == 0 {
      assert r[2 * c.x].1 == c;
    } else if c.y == h - 1 {
      assert r[2 * c.x + 1].1 == c;
    } else if c.x == 0 {
      assert r[2 * w + 2 * c.y].1 == c;
    } else {
      assert r[2 * w + 2 * c.y + 1].1 == c;
    }
  }

  /** Although the scan is meant to skip corners, each corner of a grid at
      least 2 by 2 is emitted twice: once by its row scan and once by its
      column scan. */
  lemma CornersEmittedTwice<T>(m: Matrix2<T>)
    requires m.dimensions.width >= 2 && m.dimensions.height >= 2
    ensures var r, w, h := GetEdges(m), m.dimensions.width, m.dimensions.height;
      && r[0].1 == r[2 * w].1 == Coord2(0, 0)
      && r[1].1 == r[2 * w + 2 * (h - 1)].1 == Coord2(0, h - 1)
      && r[2 * (w - 1)].1 == r[2 * w + 1].1 == Coord2(w - 1, 0)
      && r[2 * (w - 1) + 1].1 == r[2 * w + 2 * (h - 1) + 1].1 == Coord2(w - 1, h - 1)
  {
  }

  /** `Iter`: a cursor over the store in slot order. */
  datatype Iter<T> = Iter(matrix: Matrix2<T>, ix: nat)

  /** `iter`: a cursor at slot 0. */
  function IterOf<T>(m: Matrix2<T>): (it: Iter<T>)
    ensures it.matrix == m && it.ix == 0
  {
    Iter(m, 0)
  }

  /** True when a cursor at slot `j` yields a value. */
  predicate Yields<T>(m: Matrix2<T>, j: nat)
    requires m.dimensions.height > 0
  {
    CoordsOf(m, j).Some? && j < |m.items|
  }

  /** What a cursor at slot `j` yields. */
  function ItemAt<T>(m: Matrix2<T>, j: nat): (Coord2, T)
    requires m.dimensions.height > 0 && Yields(m, j)
  {
    (CoordsOf(m, j).value, m.items[j])
  }

  /** `Iter::next`: yields the coordinate of the current slot with the value
      stored there and advances, or yields nothing and stays put when the
      slot's coordinate is uncontained or past the store. */
  function Next<T>(it: Iter<T>): (r: (Iter<T>, Option<(Coord2, T)>))
    requires it.matrix.dimensions.height > 0
    ensures r.1.Some? <==> Yields(it.matrix, it.ix)
    ensures r.1.Some? ==>
      r.1.value == ItemAt(it.matrix, it.ix) && r.0 == Iter(it.matrix, it.ix + 1)
    ensures r.1.None? ==> r.0 == it
  {
    match CoordsOf(it.matrix, it.ix)
    case None => (it, None)
    case Some(c) =>
      CoordsThenIndex(it.matrix, it.ix);
      match Get(it.matrix, c)
      case None => (it, None)
      case Some(item) => (Iter(it.matrix, it.ix + 1), Some(item))
  }

  /** Everything a cursor yields before its first empty step (what
      `iter().collect()` gathers). It ends just before the first slot that
      `next` rejects; `CollectInSlotOrder` states what precedes it. */
  function Collect<T>(it: Iter<T>): (r: seq<(Coord2, T)>)
    requires it.matrix.dimensions.height > 0
    ensures !Yields(it.matrix, it.ix + |r|)
    decreases |it.matrix.items| - it.ix
  {
    var step := Next(it);
    if step.1.None? then []
    else [step.1.value] + Collect(step.0)
  }

  /** Item `k` of the collection is the value in slot `ix + k` paired with
      that slot's coordinate: the cursor walks the store in slot order and
      yields at every slot before it stops. */
  lemma {:induction false} CollectInSlotOrder<T>(it: Iter<T>, k: nat)
    requires it.matrix.dimensions.height > 0
    requires k < |Collect(it)|
    ensures Yields(it.matrix, it.ix + k)
    ensures Collect(it)[k] == ItemAt(it.matrix, it.ix + k)
    decreases k
  {
    var step := Next(it);
    assert step.1.Some?;
    if k == 0 {
      assert Collect(it)[0] == step.1.value;
    } else {
      assert Collect(it)[k] == Collect(step.0)[k - 1];
      CollectInSlotOrder(step.0, k - 1);
    }
  }

  /** On the square grid anchored at the origin that the solver builds, a
      store of at most `area()` values is yielded in full. */
  lemma {:induction false} CollectYieldsAll<T>(it: Iter<T>)
    requires it.matrix.dimensions.origin == Coord2(0, 0)
    requires it.matrix.dimensions.width == it.matrix.dimensions.height > 0
    requires |it.matrix.items| <= Area(it.matrix.dimensions)
    requires it.ix <= |it.matrix.items|
    ensures |Collect(it)| == |it.matrix.items| - it.ix
    decreases |it.matrix.items| - it.ix
  {
    var m := it.matrix;
    if it.ix < |m.items| {
      var h := m.dimensions.height;
      SplitThenIndex(it.ix, h);
      RowBelow(it.ix, h, m.dimensions.width);
      assert CoordsOf(m, it.ix).Some?;
      CollectYieldsAll(Iter(m, it.ix + 1));
    }
  }

  /** A fresh matrix yields nothing. */
  lemma FreshIterEmpty<T>(dimensions: Rect)
    requires dimensions.height > 0
    ensures Collect(IterOf(FromDimensions<T>(dimensions))) == []
  {
  }
}
