# Frame: a toroidal cellular-automaton grid

This project models `src/frame.rs` of the `simulation` crate. The file is the
data core of a small cellular-automaton engine and has four parts:

- `Frame<T>` is a dense buffer of `width * height` cells. Cell `(x, y)` lives
  at buffer offset `y * height + x`.
- `Square<T>` is a read-only view of a frame anchored at one point. `get(i, j)`
  reads the cell at a signed offset from the anchor. Each axis wraps around
  through `add_modulo`, so on a square frame the grid is a torus.
- `FrameIterator<T>` walks the frame in row-major order and yields
  `(x, y, &cell)`.
- `next_frame(step)` clones the buffer. Then, for every coordinate the iterator
  yields, it overwrites that slot with `step` applied to a `Square` over the
  unchanged original frame. The update is synchronous: no cell sees another
  cell's new value.

The model is split into five modules:

- `Toroidal` (toroidal.dfy) holds `add_modulo` and the Euclidean-division facts
  it rests on.
- `Layout` (layout.dfy) holds the offset formula and the iterator's cursor
  arithmetic.
- `Neighbourhood` (neighbourhood.dfy) holds the order of the offsets that
  `within_ortholinear` visits.
- `Simulation` (frame.dfy) holds:
  - the `Frame` and `FrameIterator` classes, the frame over an `array`;
  - `Square` as a value over a `Snapshot` of the frame, which captures the
    immutable borrow;
  - the specification function `Advance`, against which `NextFrame` is proved.
- `Scenarios` (scenarios.dfy) holds the three unit tests at the end of
  frame.rs, plus the synchronous-update property on a rule that reads a
  neighbour.

**The stride is modelled as the code writes it.** `get` and `get_mut` store
cell `(x, y)` at `y * height + x` (src/frame.rs:33, 38), and `next_frame`
writes at `height * y + x` (src/frame.rs:106): the row stride is the height.
The iterator, however, bounds both `x` and `y` by the width (src/frame.rs:131,
134). A layout with stride `width`, `y * width + x`, would be the consistent
alternative; the model keeps the code's stride. Lemmas state exactly what that
gives:

- `Layout.SquareLayoutInRange`, `Layout.SquareLayoutInjective` and
  `Layout.SquareLayoutOnto`: on a square frame the layout is a bijection onto
  the buffer.
- `Layout.WideFrameAliases`: on a frame with `1 < height < width`, two
  distinct in-frame coordinates share one slot.
- `Simulation.Frame.NextFrame` requires `width <= height`. That is exactly the
  condition under which the source does not index past the buffer.
- `Simulation.AdvanceUnvisited`: on a frame higher than it is wide, cells with
  `x >= width` are never stepped.
- `Simulation.TallFrameTopWrapEscapes`: on a frame higher than it is wide, rows
  `y >= width` have no slot. So a vertical offset that wraps across the top
  edge, `get(i, -1)` at `y = 0`, indexes past the buffer.

**Panics are preconditions.** Apart from machine-integer overflow (see
"Left out"), the source checks nothing except buffer indexing and the assertion
in `add_modulo`. Each panic becomes the `requires` that
avoids it. `get(x, y)` demands only that `y * height + x` lies inside the
buffer; it does not demand `x < width` and `y < height`.

## Model

| member | source | states |
|---|---|---|
| Toroidal.AddModulo | src/frame.rs:51-57 | Under the asserted `abs(y) < m`, the result lies on the axis (`< m`) and equals the Euclidean remainder `(x + y) mod m` |
| Toroidal.AddModuloZero | src/frame.rs:51-57 | A zero offset leaves an on-axis coordinate unchanged |
| Toroidal.AddModuloWrapsBack | src/frame.rs:51-57 | One step back from coordinate 0 lands on `m - 1` when `m > 1` |
| Toroidal.AddModuloCancel | src/frame.rs:51-57 | Moving by `y` and then by `-y` returns to the starting coordinate |
| Simulation.Frame.constructor | src/frame.rs:13-16 | `new(x, y)`: the buffer is fresh, has `x * y` cells and holds the default value in each; width is `x`, height is `y` |
| Simulation.Frame.Width | src/frame.rs:22-24 | Returns the frame's width |
| Simulation.Frame.Height | src/frame.rs:27-29 | Returns the frame's height |
| Simulation.Frame.Get | src/frame.rs:32-34 | Defined exactly when slot `y * height + x` lies inside the buffer (the source's only panic); the array read agrees with the read of the frame's contents as a value, which is what a Square sees |
| Layout.OffsetInRange | src/frame.rs:32-34 | `y * height + x` lies inside a `width * height` buffer when `x < height` and `y < width` |
| Layout.OffsetPastRows | src/frame.rs:32-34 | `y * height + x` lies at or past the end of a `width * height` buffer whenever `y >= width`, whatever `x` is |
| Layout.OffsetDecode | src/frame.rs:32-34 | The offset gives back `x` and `y` by remainder and quotient by the height |
| Layout.OffsetInjective | src/frame.rs:32-34 | Two coordinates with `x` below the height share a slot only if they are equal |
| Layout.OffsetOnto | src/frame.rs:32-34 | Every slot of a `width * height` buffer is the offset of one coordinate with `x < height` and `y < width` |
| Layout.SquareLayoutInRange | src/frame.rs:32-34 | On an `n x n` frame every coordinate has a slot inside the buffer |
| Layout.SquareLayoutInjective | src/frame.rs:32-34 | On an `n x n` frame distinct coordinates have distinct slots |
| Layout.SquareLayoutOnto | src/frame.rs:32-34 | On an `n x n` frame every slot belongs to some coordinate |
| Layout.WideFrameAliases | src/frame.rs:32-34 | If `1 < height < width`, the in-frame coordinates `(height, 0)` and `(0, 1)` share one slot inside the buffer |
| Simulation.Frame.GetMut | src/frame.rs:37-39 | Writing through `get_mut(x, y)` is read back by `get(x, y)`; no other buffer slot changes; when the written `x` is below the height, no other coordinate with `x` below the height reads differently |
| Simulation.Square.CanGet | src/frame.rs:62-68 | The read is allowed only if `abs(i) < width` and `abs(j) < height` (the assertion at src/frame.rs:53, on each axis) and the wrapped slot is inside the buffer; on a square frame the two axis bounds alone decide it, in both directions |
| Simulation.Square.Get | src/frame.rs:62-68 | `get(i, j)` reads the frame at `((px + i) mod width, (py + j) mod height)`, Euclidean remainders of the anchor `(px, py)` plus the offset, and that slot is inside the buffer |
| Simulation.SquareGetAnchor | src/frame.rs:62-68 | On every Square that `next_frame` builds (anchor below the width, `width <= height`), `get(0, 0)` may be read and is the anchor's own cell |
| Simulation.TallFrameTopWrapEscapes | src/frame.rs:62-68 | On a frame with `width < height`, for every anchor on row 0 and every horizontal offset `i` with `abs(i) < width`, `get(i, -1)` has no slot: the wrapped row `height - 1` lies past the buffer, so the call panics |
| Simulation.SquareWraps | src/frame.rs:62-68 | On a square frame of side > 1, one step left from `x = 0` reads the last column, and one step up from `y = 0` reads the last row |
| Simulation.Square.Coordinate | src/frame.rs:71-73 | Returns the anchor of the view |
| Simulation.AdvanceSeesCoordinate | src/frame.rs:71-73 | A rule that reads only `coordinate()` sees, at each cell, that cell's own coordinate |
| Simulation.Square.WithinOrtholinear | src/frame.rs:80-90 | Returns exactly the values `get(i, j)` for the offsets in `NeighbourOffsets(r)`, in that order; for `r >= 0` there are `(2r+1)^2 - 1` of them; for `r <= 0` the result is empty |
| Neighbourhood.NeighbourOffsets | src/frame.rs:82-84 | Every offset visited lies in the box of radius `r` around the anchor and is not the anchor |
| Neighbourhood.NeighbourOffsetsExact | src/frame.rs:82-84 | An offset is visited if and only if it lies in the box of radius `r` and is not `(0, 0)` |
| Neighbourhood.NeighbourOffsetsOrdered | src/frame.rs:82-84 | The offsets are visited in strict row-major order (`i` outer, `j` inner), so none is read twice |
| Neighbourhood.NeighbourCount | src/frame.rs:82-84 | Radius `r >= 0` visits `(2r+1)^2 - 1` offsets; a radius `r <= 0` visits none |
| Neighbourhood.MooreOrder | src/frame.rs:82-84 | Radius 1 visits the eight Moore neighbours in the order `(-1,-1), (-1,0), (-1,1), (0,-1), (0,1), (1,-1), (1,0), (1,1)` |
| Simulation.Frame.NextFrame | src/frame.rs:98-114 | For `width <= height` (otherwise the source indexes past the buffer): returns a fresh frame of the same dimensions whose contents are `Advance` of this frame's contents; this frame is unchanged |
| Simulation.AdvanceKeepsShape | src/frame.rs:98-114 | The advanced frame keeps the dimensions and a buffer of `width * height` cells |
| Simulation.AdvanceVisited | src/frame.rs:101-106 | Each cell the iterator visits holds `step` of the Square anchored there over the pre-step frame |
| Simulation.AdvanceUnvisited | src/frame.rs:101-106 | With `x` in `[width, height)` a cell is not visited and keeps its old value |
| Simulation.AdvanceSquareFrame | src/frame.rs:101-106 | On a square frame every cell is `step` of its Square over the pre-step frame: no cell sees a new value |
| Simulation.AdvancedBeforeStep | src/frame.rs:101-106 | Writing the stepped value at the cursor extends the set of cells already stepped by that cell, in the iterator's order |
| Simulation.AdvancedBeforeDone | src/frame.rs:101-106 | Once the cursor's `y` reaches the width, the buffer is the whole advanced frame |
| Simulation.FrameIterator.Next | src/frame.rs:129-140 | While `y < width`, yields `(x, y, get(x, y))` and moves along the row or to the start of the next row; afterwards yields nothing and stays put; the k-th call yields an item exactly when `k < width * width` |
| Layout.CursorRowMajor | src/frame.rs:129-140 | After `k` items the iterator stands at `(k mod width, k div width)` |
| Layout.CursorYields | src/frame.rs:129-140 | The iterator still has an item after `k` items if and only if `k < width * width` |
| Layout.CursorDistinct | src/frame.rs:129-140 | Distinct items are at distinct coordinates: the iterator never repeats a cell |
| Layout.Successor | src/frame.rs:133-135 | The iterator's move strictly advances in row-major order and keeps `x` below the width |
| Layout.SuccessorExtendsBefore | src/frame.rs:133-135 | The cells before the successor of cursor `c` are those before `c`, plus `c` itself |
| Simulation.Frame.EnumerateSquares | src/frame.rs:173-178 | The iterator starts fresh at `(0, 0)` over this frame, with nothing yielded yet |
| Simulation.FrameIterator.constructor | src/frame.rs:174-177 | The iterator literal: over the given frame, at `(0, 0)`, nothing yielded yet |
| Simulation.Frame.FromBuffer | src/frame.rs:109-113 | The frame literal at the end of `next_frame`: takes a buffer of `w * h` cells and the dimensions, and is a valid frame over exactly that buffer |
| Scenarios.Increment | src/frame.rs:208 | The `frame_next` rule: wherever `get(0, 0)` does not panic, the result is `get(0, 0) + 1`; on every Square that `next_frame` builds the read succeeds, and the result is the anchor's cell plus one |
| Scenarios.FrameInit | src/frame.rs:186-195 | The `frame_init` test: a new 10x10 frame has width and height 10, and every cell with `x, y` in `0..9` reads the default 0 |
| Scenarios.FrameMut | src/frame.rs:198-202 | The `frame_mut` test: after writing 1 through `get_mut(1, 1)` on a new 2x2 frame, `get(1, 1)` reads 1 |
| Scenarios.FrameNext | src/frame.rs:205-217 | The `frame_next` test: stepping a new 2x2 frame with `get(0, 0) + 1`, then writing 1 into all four cells of the original, leaves the two frames equal |
| Scenarios.IncrementAllDefault | src/frame.rs:205-217 | The `frame_next` test: stepping a 2x2 frame of zeros with `get(0, 0) + 1` gives a frame of ones |
| Scenarios.IncrementCell | src/frame.rs:208 | At every cell the stepping pass visits (`x, y < width <= height`), the rule `get(0, 0) + 1` makes the cell one more than its old value |
| Scenarios.LeftPlusOneReadsSnapshot | src/frame.rs:98-107 | A rule that reads the left neighbour sees old values: `[a, b, c, d]` becomes `[b+1, a+1, d+1, c+1]`, not the in-place left-to-right result |
| Scenarios.LeftNeighbour | src/frame.rs:62-68 | On a 2x2 frame, the left neighbour of `(x, y)` is `(1 - x, y)` after wrapping |

## Left out

- Machine-integer width is not modelled. Integers are unbounded, so these corners of the source do not appear:
  - `isize::MIN.abs()` overflowing in `add_modulo`;
  - `x * y` overflowing in `new`;
  - `r + 1` overflowing in `within_ortholinear`;
  - `y * self.height + x` overflowing in `get` and `get_mut`;
  - `(x % m) + m` and `base + delta` overflowing, and the `m as isize` cast wrapping, in
    `add_modulo`;
  - the test rule's `+ 1` overflowing on `i32`.
- Simulation.Frame.GetMut: models `*get_mut(x, y) = v`, a write of one value. It does not model the returned mutable reference itself or the borrow it holds.
- `T::default()` becomes the constructor parameter `default`. The `Default` and `Clone` bounds are not modelled; cloning a cell is copying a value.
- The step rule is a total function from `Square<T>` to `T`. A rule that panics, which aborts `next_frame` as a whole, is not modelled. The unit test's rule `get(0, 0) + 1` becomes `Scenarios.Increment`, which agrees with `get(0, 0) + 1` wherever that rule does not panic and returns 0 elsewhere.
- The lifetimes `'a`, the `Debug` derive and the `Clone` derive on the iterator are not modelled.
- The derived `PartialEq` on `Frame` is the equality of `View()` (buffer contents and dimensions).
- `FrameIteratorMut` (src/frame.rs:143-168) is commented out in the source and is not part of this model.
- src/tests.rs (the Game of Life tests) is not part of this model. It depends on a `set` method and a rules module that frame.rs does not define.
- `FrameIterator` is modelled only through `Next`. The `Iterator` adaptors that `for` and other callers use are not modelled beyond the loop in `NextFrame`.
