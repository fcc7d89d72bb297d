# Integer grid layer of `wasm_swirl`

A Dafny model of the grid that the `wasm_swirl` fluid solver is built on: the
coordinates and bounding rectangle (`space/coords.rs`), the generic grid
container `Matrix2<T>` (`space/matrix.rs`), the earlier revision of the same
grid kept in `space.rs` (`mod math`), and three order-only helpers: `clam`,
the wrapping clamp `wramp` of the `flow_field` crate, and the `bool` to
`Option` adapter `as_some`.

Modules:

- `Utils` (`utils.dfy`): `Option` and `AsSome`.
- `Clamp` (`math.dfy`): `Clam`, with a min/max reference definition.
- `WrappingClamp` (`wrapping_clamp.dfy`): `Wramp`.
- `RowMajor` (`row_major.dfy`): the slot arithmetic `x + y * stride` and its
  inverse (`ix % stride`, `ix / stride`). Both grid revisions share it.
- `Coords` (`coords.dfy`): `Coord2`, `Rect`, and the `Edge`, `Corner`, `Axis`
  and `EdgeInfo` tags.
- `Matrix` (`matrix.dfy`): the current `Matrix2<T>` and its cursor `Iter`.
- `LegacySpace` (`legacy_space.dfy`): the earlier `Rect`, `Matrix2<T>` and
  `Matrix2Iter`.

`usize` is modelled as `nat`. The store of the current `Matrix2<T>`, a
`RefCell<Vec<T>>` reached through `unsafe` `as_ptr` borrows, and the plain
`Vec<T>` of the earlier one each become a `seq<T>` field that is updated functionally. An operation
that would panic in a debug build becomes a `requires`:

- unsigned underflow in `width - 1`, `height - 1`, `x - 1` and `y - 1`;
- a division by a zero height;
- `items[ix]` past the end of the store;
- an `unwrap` of `None`.

Behaviour of the code as written that the model keeps, with the lemma that
exhibits it:

- `contains` is inclusive at the upper end on both axes. A rectangle of width
  `w` admits `w + 1` columns (`Coords.ContainsInclusive`). On a grid anchored
  at the origin that is no wider than tall, the far corner is contained but its
  slot is at or past `area()` (`Matrix.FarCornerBeyondArea`).
- The row stride is `height`, while columns are admitted up to `width`. On a
  grid anchored at the origin, with a positive height, at least as wide as it
  is tall, the two contained cells (height, 0) and
  (0, 1) share a slot (`Matrix.StrideCollision`). For that reason the index
  round trip needs `x < height`.
- `get_edges` is commented as excluding corners, but on a grid at least 2 by
  2 it emits each corner twice (`Matrix.CornersEmittedTwice`); on a grid one
  cell wide or tall, corner cells come out more often still. It yields `2 * width + 2 * height`
  items in all.
- `from_dimensions` and `from_size` only reserve capacity, so the store starts
  empty. Every read of a fresh grid is `None` and its cursor yields nothing
  (`Matrix.FreshGetIsNone`, `Matrix.FreshIterEmpty`).
- The earlier `Rect::contains` compares `x` with the height and `y` with the
  width. It is the current test with the axes exchanged
  (`LegacySpace.ContainsIsTransposed`). That exchange happens to match the
  height stride, so a store of at most `area()` values is always yielded in
  full (`LegacySpace.CollectYieldsAll`).
- `get_adjacent_neighbors` does not wrap around at the border: a neighbour
  outside the rectangle or past the store reads as `None`. The caller in
  `fluid.rs` drops those entries and leaves wrapped neighbours as a TODO
  (fluid.rs:101-105). The `x - 1` and `y - 1` in `get_adjacent_neighbors`
  (matrix.rs:69-76) are unguarded unsigned subtractions, so the model requires
  both components to be positive.

## Model

| member | source | states |
|---|---|---|
| `Utils.AsSome` | src/wasm_swirl/src/utils.rs:5-12 | the result is `Some` exactly when the flag holds, and its payload is the argument, untransformed |
| `Utils.AsSomeRecoversOption` | src/wasm_swirl/src/utils.rs:5-12 | every option equals the adapter applied to its own presence flag and payload, so the adapter loses nothing |
| `Clamp.Clam` | src/wasm_swirl/src/math.rs:5-13 | below `min` gives `min`; at least `min` and above `max` gives `max`; within `[min, max]` gives the value |
| `Clamp.ClamWithin` | src/wasm_swirl/src/math.rs:5-13 | with `min <= max` the result lies in `[min, max]` and equals the independent `max(min, min(v, max))` |
| `Clamp.ClamIdempotent` | src/wasm_swirl/src/math.rs:5-13 | with `min <= max`, clamping twice equals clamping once |
| `Clamp.ClamMonotone` | src/wasm_swirl/src/math.rs:5-13 | with `min <= max`, clamping preserves the order of two inputs |
| `Clamp.ClamFixedPoints` | src/wasm_swirl/src/math.rs:5-13 | with `min <= max`, a value is left unchanged exactly when it lies in `[min, max]` |
| `WrappingClamp.Wramp` | src/flow_field/src/lib.rs:86-94 | below 0 gives `max`; non-negative and above `max` gives 0 (the default); within `[0, max]` gives the value |
| `WrappingClamp.WrampWithin` | src/flow_field/src/lib.rs:86-94 | with `max >= 0` the result lies in `[0, max]` |
| `WrappingClamp.WrampIdempotent` | src/flow_field/src/lib.rs:86-94 | with `max >= 0`, wrapping twice equals wrapping once |
| `WrappingClamp.WrampFixedPoints` | src/flow_field/src/lib.rs:86-94 | with `max >= 0`, a value is left unchanged exactly when it lies in `[0, max]` |
| `RowMajor.IndexThenSplit` | src/wasm_swirl/src/space/matrix.rs:113-126 | for a column below the stride, splitting the slot `x + y * stride` gives back column `x` and row `y` |
| `RowMajor.RowBelow` | src/wasm_swirl/src/space.rs:57-63 | a slot below `stride * rows` splits into a row below `rows` |
| `Coords.FromPair` | src/wasm_swirl/src/space/coords.rs:12-16 | the coordinate built from `(x, y)` stores `x` and `y` unchanged |
| `Coords.NewRect` | src/wasm_swirl/src/space/coords.rs:26-32 | the new rectangle stores the given origin, width and height |
| `Coords.Contains` | src/wasm_swirl/src/space/coords.rs:34-44 | holds exactly when `origin.x <= x <= origin.x + width` and `origin.y <= y <= origin.y + height`, both upper bounds inclusive |
| `Coords.Area` | src/wasm_swirl/src/space/coords.rs:46-48 | the area is `height * width` |
| `Coords.ContainsInclusive` | src/wasm_swirl/src/space/coords.rs:34-44 | the origin and the far corner `origin + (width, height)` are contained; one step past either end of either axis is not |
| `Coords.ContainsByAxis` | src/wasm_swirl/src/space/coords.rs:34-44 | containment holds exactly when x is in `[origin.x, origin.x + width]` and y is in `[origin.y, origin.y + height]`, decided per axis |
| `Matrix.FromDimensions` | src/wasm_swirl/src/space/matrix.rs:12-18 | the new grid keeps the given rectangle and has an empty store |
| `Matrix.FreshGetIsNone` | src/wasm_swirl/src/space/matrix.rs:12-18 | every `get` on a freshly built grid is `None` |
| `Matrix.IndexOf` | src/wasm_swirl/src/space/matrix.rs:113-118 | `Some(x + y * height)` exactly when the rectangle contains the coordinate, otherwise `None` |
| `Matrix.CoordsOf` | src/wasm_swirl/src/space/matrix.rs:120-126 | `Some((ix % height, ix / height))` exactly when that coordinate is contained, otherwise `None` |
| `Matrix.IndexThenCoords` | src/wasm_swirl/src/space/matrix.rs:113-126 | a contained coordinate with `x < height` comes back unchanged from `coords_of(index_of(c))` |
| `Matrix.CoordsThenIndex` | src/wasm_swirl/src/space/matrix.rs:113-126 | every slot accepted by `coords_of` is the `index_of` of the coordinate it returns |
| `Matrix.StrideCollision` | src/wasm_swirl/src/space/matrix.rs:113-118 | on a grid anchored at the origin, with a positive height, at least as wide as tall, the distinct contained cells (height, 0) and (0, 1) get the same index |
| `Matrix.FarCornerBeyondArea` | src/wasm_swirl/src/space/coords.rs:34-48 | on a grid anchored at the origin that is no wider than tall, the far corner is contained but its slot is at least `area()` |
| `Matrix.AreaIsStrideBlock` | src/wasm_swirl/src/space/coords.rs:46-48 | `area()` is exactly the number of slots given to columns below `height` and rows below `width` |
| `Matrix.Get` | src/wasm_swirl/src/space/matrix.rs:95-103 | `Some((c, items[x + y * height]))` exactly when `c` is contained and its slot is inside the store |
| `Matrix.Set` | src/wasm_swirl/src/space/matrix.rs:105-111 | on a contained coordinate, returns the old value and replaces that one slot only; otherwise returns `None` and changes nothing |
| `Matrix.GetAfterSet` | src/wasm_swirl/src/space/matrix.rs:95-111 | reading a contained coordinate right after writing it gives the written value |
| `Matrix.GetAfterSetElsewhere` | src/wasm_swirl/src/space/matrix.rs:95-111 | a write leaves the reading of every coordinate stored in a different slot unchanged |
| `Matrix.SetRestores` | src/wasm_swirl/src/space/matrix.rs:105-111 | writing back the value that `set` returned restores the original grid |
| `Matrix.GetAdjacentNeighbors` | src/wasm_swirl/src/space/matrix.rs:69-76 | four entries (left, right, up, down), each present entry an adjacent cell as `get` reads it, and every readable adjacent cell present |
| `Matrix.NeighborSymmetry` | src/wasm_swirl/src/space/matrix.rs:69-76 | if `d` is a readable neighbour of a readable `c`, then `c` is among the neighbours of `d` |
| `Matrix.GetDiagonalNeighbors` | src/wasm_swirl/src/space/matrix.rs:78-85 | four entries in the order (x-1, y-1), (x-1, y+1), (x+1, y-1), (x+1, y+1), each present entry a diagonal cell as `get` reads it, and every readable diagonal cell present |
| `Matrix.GetEdge` | src/wasm_swirl/src/space/matrix.rs:20-40 | x side is `Left` iff `x = 0`, else `Right` iff `x = width - 1`, else none; y side is `Top` iff `y = 0`, else `Bottom` iff `y = height - 1`, else none |
| `Matrix.CoordsOfCorner` | src/wasm_swirl/src/space/matrix.rs:128-142 | x is 0 when the corner names `Left`, else `width - 1`; y is 0 when it names `Top`, else `height - 1` |
| `Matrix.EdgeOfCorner` | src/wasm_swirl/src/space/matrix.rs:20-40 | on a grid at least 2 by 2, the cell of a corner named by one x side and one y side is classified with exactly those two sides |
| `Matrix.CornerOfEdge` | src/wasm_swirl/src/space/matrix.rs:128-142 | a cell classified on both axes is the cell of the corner its classification names |
| `Matrix.CornerContained` | src/wasm_swirl/src/space/matrix.rs:128-142 | on a grid anchored at the origin every corner cell is contained, so `set_corner` does not fail on containment |
| `Matrix.GetCorner` | src/wasm_swirl/src/space/matrix.rs:87-89 | the corner's coordinate with the value stored in its slot |
| `Matrix.SetCorner` | src/wasm_swirl/src/space/matrix.rs:91-93 | afterwards `get_corner` reads the new value, and every other slot is unchanged |
| `Matrix.FlattenEnds` | src/wasm_swirl/src/space/matrix.rs:51-66 | item `i` of the flattened sequence is end `i % 2` of line `i / 2`, two items per line |
| `Matrix.GetEdges` | src/wasm_swirl/src/space/matrix.rs:42-67 | `2 * width + 2 * height` items: `(x, 0), (x, max_y)` for each x, then `(0, y), (max_x, y)` for each y (the `xs.chain(ys)` scanlines of `Scanlines` and the per-scanline pair of `ScanlineEnds`, matrix.rs:46-62); each paired with its own `get_edge`; each on the boundary |
| `Matrix.GetEdgesComplete` | src/wasm_swirl/src/space/matrix.rs:42-67 | every boundary cell of the `width` by `height` box is emitted |
| `Matrix.CornersEmittedTwice` | src/wasm_swirl/src/space/matrix.rs:58-65 | on a grid at least 2 by 2, each of the four corners appears at two distinct positions of the `get_edges` output |
| `Matrix.IterOf` | src/wasm_swirl/src/space/matrix.rs:144-149 | the new cursor walks the given grid and starts at slot 0 |
| `Matrix.Next` | src/wasm_swirl/src/space/matrix.rs:157-169 | yields `(coords_of(ix), items[ix])` and advances exactly when `coords_of(ix)` is `Some` and `ix` is inside the store; otherwise yields `None` and stays put |
| `Matrix.Collect` | src/wasm_swirl/src/space/matrix.rs:144-169 | the collected items end just before the first slot the cursor rejects |
| `Matrix.CollectInSlotOrder` | src/wasm_swirl/src/space/matrix.rs:144-169 | item `k` is the value in slot `ix + k` paired with its coordinate, so items come in slot order |
| `Matrix.CollectYieldsAll` | src/wasm_swirl/src/space/matrix.rs:144-169 | on a square grid anchored at the origin, a store of at most `area()` values is yielded in full |
| `Matrix.FreshIterEmpty` | src/wasm_swirl/src/space/matrix.rs:12-18 | a freshly built grid's cursor yields nothing |
| `LegacySpace.Contains` | src/wasm_swirl/src/space.rs:14-20 | `Some(())` exactly when `x <= height` and `y <= width` |
| `LegacySpace.ContainsIsTransposed` | src/wasm_swirl/src/space.rs:14-20 | the earlier test accepts `(x, y)` exactly when the current test, on the same size anchored at the origin, accepts `(y, x)` |
| `LegacySpace.RevisionsDisagree` | src/wasm_swirl/src/space.rs:14-20 | on a rectangle that is not square, a named cell is accepted by the earlier test and rejected by the current one |
| `LegacySpace.Area` | src/wasm_swirl/src/space.rs:26-28 | the area is `height * width` |
| `LegacySpace.FromSize` | src/wasm_swirl/src/space.rs:35-40 | the new grid keeps the given rectangle and has an empty store |
| `LegacySpace.GetIx` | src/wasm_swirl/src/space.rs:50-55 | `Some(x + y * height)` exactly when the coordinate is contained |
| `LegacySpace.GetCoords` | src/wasm_swirl/src/space.rs:57-63 | `Some((ix % height, ix / height))` exactly when that coordinate is contained |
| `LegacySpace.IxThenCoords` | src/wasm_swirl/src/space.rs:50-63 | a contained coordinate with `x < height` comes back unchanged from `get_coords(get_ix(c))` |
| `LegacySpace.CoordsThenIx` | src/wasm_swirl/src/space.rs:50-63 | every slot accepted by `get_coords` is the `get_ix` of the coordinate it returns |
| `LegacySpace.Get` | src/wasm_swirl/src/space.rs:42-44 | the stored value exactly when the coordinate is contained and its slot is inside the store |
| `LegacySpace.GetMut` | src/wasm_swirl/src/space.rs:46-48 | designates slot `x + y * height` exactly when `get` succeeds, and that slot holds the value `get` returns |
| `LegacySpace.FreshGetIsNone` | src/wasm_swirl/src/space.rs:35-48 | on a grid fresh from `from_size`, `get` and `get_mut` both return `None` |
| `LegacySpace.IterOf` | src/wasm_swirl/src/space.rs:65-70 | the new cursor walks the given grid and starts at slot 0 |
| `LegacySpace.Next` | src/wasm_swirl/src/space.rs:78-90 | yields the current slot's coordinate and value and advances exactly when the coordinate is contained and the slot is inside the store; otherwise stays put |
| `LegacySpace.Collect` | src/wasm_swirl/src/space.rs:65-90 | the collected items end just before the first slot the cursor rejects |
| `LegacySpace.CollectInSlotOrder` | src/wasm_swirl/src/space.rs:65-90 | item `k` is the value in slot `ix + k` paired with its coordinate |
| `LegacySpace.CollectYieldsAll` | src/wasm_swirl/src/space.rs:65-90 | for every rectangle with a positive height, a store of at most `area()` values is yielded in full |

## Left out

- Fixed-width `usize` overflow: `x + y * height`, `origin.x + width`, `x + 1` and `height * width` are unbounded in the model. Wrap-around or an overflow panic at the top of the `usize` range is not modelled.
- `Clamp.Clam`: modelled over `int`. The source is generic over any `PartialOrd`, and incomparable values (a NaN, for instance) fall through to returning the value itself; that case is not modelled.
- `WrappingClamp.Wramp`: modelled over `real`. NaN, infinities and signed zero of `f64` are not modelled.
- `Matrix.Set` and `Matrix.SetCorner`: a write that would index past the end of the store panics in the source; the model makes that a precondition instead of an error result.
- `Matrix.GetCorner`: the `unwrap` of a failed read panics in the source; the model makes a successful read a precondition.
- `Matrix.GetAdjacentNeighbors` and `Matrix.GetDiagonalNeighbors`: in a release build, `x - 1` at `x = 0` wraps to the largest `usize`. The model requires positive components, as a debug build would otherwise panic.
- Aliasing through `RefCell::as_ptr` and the mutable borrows of the iterators: the model is sequential, so the store is a value. The `&mut T` returned by the earlier `get_mut` is modelled as the slot it designates.
- The earlier `get_ix` and `get_coords` take `&mut self` although `get` and the iterator call them through shared references. The model treats them as pure reads.
- `NeighborStrategy` in `coords.rs` is declared but never used.
- The `Grid<T>` wrapper and `Vector2` in `space.rs`, the vector modules, and the fluid solver are left out. The solver is the `f64` relaxation in `diffuse`/`lin_solve`. `Grid<T>` forwards to `Matrix2<T>` after `of_universe_dimensions` fixes an `N` by `N` size.
- The `flow_field` crate apart from `wramp` is left out. Its `setup` and `tick` are JavaScript bindings over global state, `rand_max` calls `Math.random`, and the particles follow a Perlin-noise library.
