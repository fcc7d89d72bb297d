/** Grid coordinates, the rectangle that bounds a grid, and the edge and
    corner tags used to classify boundary cells. */
module Coords {
  import opened Utils

  /** A cell position; both components are unsigned (`usize`). */
  datatype Coord2 = Coord2(x: nat, y: nat)

  /** `Coord2::from((x, y))`. */
  function FromPair(p: (nat, nat)): (c: Coord2)
    ensures c.x == p.0 && c.y == p.1
  {
    Coord2(p.0, p.1)
  }

  /** A rectangle anchored at `origin`, `width` cells along x and `height` along y. */
  datatype Rect = Rect(height: nat, width: nat, origin: Coord2)

  /** `Rect::new(origin, width, height)`. */
  function NewRect(origin: Coord2, width: nat, height: nat): (r: Rect)
    ensures r.origin == origin && r.width == width && r.height == height
  {
    Rect(height, width, origin)
  }

  /** Membership test of the rectangle. Both upper bounds are INCLUSIVE, so a
      rectangle of width `w` admits `w + 1` columns. */
  function Contains(r: Rect, c: Coord2): (b: bool)
    ensures b <==> r.origin.x <= c.x <= r.origin.x + r.width && r.origin.y <= c.y <= r.origin.y + r.height
  {
    var xGood := r.origin.x <= c.x && c.x <= r.origin.x + r.width;
    var yGood := r.origin.y <= c.y && c.y <= r.origin.y + r.height;
    xGood && yGood
  }

  /** Number of cells the rectangle is sized for. */
  function Area(r: Rect): (a: nat)
    ensures a == r.height * r.width
  {
    r.height * r.width
  }

  /** The origin and the far corner `origin + (width, height)` are both
      contained; one step beyond either end of either axis is not. */
  lemma ContainsInclusive(r: Rect)
    ensures Contains(r, r.origin)
    ensures Contains(r, Coord2(r.origin.x + r.width, r.origin.y + r.height))
    ensures !Contains(r, Coord2(r.origin.x + r.width + 1, r.origin.y))
    ensures !Contains(r, Coord2(r.origin.x, r.origin.y + r.height + 1))
    ensures r.origin.x > 0 ==> !Contains(r, Coord2(r.origin.x - 1, r.origin.y))
    ensures r.origin.y > 0 ==> !Contains(r, Coord2(r.origin.x, r.origin.y - 1))
  {
  }

  /** Containment is decided axis by axis: it holds exactly when the x value
      lies in the closed range `[origin.x, origin.x + width]` and the y value
      in `[origin.y, origin.y + height]`. */
  lemma ContainsByAxis(r: Rect, c: Coord2)
    ensures Contains(r, c) <==>
      Contains(r, Coord2(c.x, r.origin.y)) && Contains(r, Coord2(r.origin.x, c.y))
    ensures Contains(r, Coord2(c.x, r.origin.y)) <==> r.origin.x <= c.x <= r.origin.x + r.width
    ensures Contains(r, Coord2(r.origin.x, c.y)) <==> r.origin.y <= c.y <= r.origin.y + r.height
  {
  }

  /** The four sides of a grid. */
  datatype Edge = Top | Bottom | Left | Right

  /** A corner named by the two sides that meet there, in either order. */
  datatype Corner = Corner(a: Edge, b: Edge)

  /** The two grid axes. */
  datatype Axis = X | Y

  /** Boundary classification of a cell: the side it touches along x
      (`Left`/`Right`) and along y (`Top`/`Bottom`), if any. */
  datatype EdgeInfo = EdgeInfo(xEdge: Option<Edge>, yEdge: Option<Edge>)

  /** True when `e` is one of the two sides naming corner `k`. */
  predicate HasEdge(k: Corner, e: Edge) {
    k.a == e || k.b == e
  }
}
