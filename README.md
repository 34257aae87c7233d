# gpca core in Dafny

A model of two coupled parts of the gpca cellular-automaton library (Rust).
Each part comes with proofs about it.

- **Discrete spaces** (`src/space.rs`). There are three fixed-shape cell stores:
  - a line `[u32; X]`;
  - a grid `[[u32; X]; Y]`;
  - a volume `[[[u32; X]; Y]; Z]`.

  Each one gives its whole content out as one flat row-major sequence and takes one back. Cell (x, y) sits at `y * X + x`, and cell (x, y, z) at `z * X * Y + y * X + x`. `update_state` reads the flat state, applies a caller's transformation and writes the result back.
- **Life-like rule engine** (`src/dynamics/life.rs`). `update` computes one synchronous generation on an X by Y torus. It sums the eight Moore neighbours, with both coordinates wrapped. A sum in the birth list makes the cell 1. Otherwise, a sum in the survival list keeps the cell's value. Otherwise the cell becomes 0.

Files:

- `grid.dfy` (module `Grid`): flat-index arithmetic, flattening of grids and volumes, and the fallible conversions that `write_state` performs. `chunks` is a total function `Chunks` whose `chunks(0)` panic is `requires n > 0`. The conversions `try_into` and `collect` are `Option`-valued functions (`TryIntoArray`, `CollectArrays`, built up into `Reshape`, `ReshapeEach` and `ReshapeVolume`), where `None` stands for a panicking `unwrap`.
- `space.dfy` (module `Space`): one class per shape. Its extents are `const` fields and its nested cell store is a mutable `space` field. `read_state` and `size` are functions of that field. `write_state` and `update_state` are methods that replace it.
- `life.dfy` (module `Life`): covers the following.
  - The pure per-cell specification: `Wrap`, `NeighbourIndex`, `NeighbourCount`, `NextCell` and `Step`.
  - The imperative `update`, written as the source's nested loops over an array copy of the input. The loops are `for x`, `for y`, `for i` and `for j`, with `continue` at the centre. The method is proved equal to `Step`.
  - Lemmas about the rule.

Where the source panics, the model has a `requires`:

- `size` of a grid or volume with an empty outer array (`first().unwrap()`);
- `chunks(0)` when X (or X * Y) is 0;
- a `write_state` of the wrong length;
- `update` on an input shorter than X * Y (indexing past the end).

That a wrong-length write fails is proved separately about the conversion functions: `ReshapeSucceedsIff` and `ReshapeVolumeSucceedsIff` show they succeed exactly when the length is the product of the extents. No partial write can happen because the conversions are pure functions and `WriteState` assigns `space` only from their result; no lemma states this separately.

`size` follows the code: `[Y, X]` for a grid, `[Z, Y, X]` for a volume, outer length first (`src/space.rs:95-96`, `src/space.rs:160-165`).

## Model

| member | source | states |
|---|---|---|
| Grid.FlatIndexBelow | src/dynamics/life.rs:49-51 | a row-major index of a cell inside a width by height grid is below width * height |
| Grid.FlatIndexInjective | src/space.rs:99-105 | distinct cells of a grid whose rows hold `width` cells have distinct flat indices |
| Grid.FlatIndexOnto | src/space.rs:99-105 | every flat index below width * height is the index of exactly the cell (k % width, k / width) of the grid |
| Grid.FlatIndexDivMod | src/dynamics/life.rs:58 | the cell's x and y are recovered from its flat index `y * X + x` by remainder and quotient |
| Grid.FlatIndexBelowAll | src/dynamics/life.rs:58-65 | every cell (x, y) of the grid has a flat index inside the first X * Y entries |
| Grid.FlatIndex3Nested | src/space.rs:128-139 | the volume index `z * X * Y + y * X + x` is the plane's offset z * (X * Y) plus the index of (x, y) within the plane |
| Grid.FlattenLength | src/space.rs:99-105 | concatenating rows of `width` cells gives |rows| * width cells |
| Grid.FlattenAt | src/space.rs:99-105 | in the concatenation of rows, entry y * width + x is cell x of row y |
| Grid.FlattenIndexed | src/space.rs:99-105 | a Y by X grid flattens to X * Y cells, with `flat[y * X + x] == space[y][x]` for every cell |
| Grid.FlattenVolumeIndexed | src/space.rs:128-139 | a Z by Y by X volume flattens to X * Y * Z cells, with `flat[z * X * Y + y * X + x] == space[z][y][x]` |
| Grid.ChunksFlatten | src/space.rs:111 | concatenating the chunks of `s` gives back `s`, whatever its length |
| Grid.ChunksOfMultiple | src/space.rs:111-113 | when |s| is m * n, `chunks(n)` gives exactly m chunks, all of length n |
| Grid.ChunksOfFlatten | src/space.rs:111 | chunking the flattening of rows of length n gives back those rows |
| Grid.ReshapeSucceedsIff | src/space.rs:107-118 | the grid conversion succeeds exactly when |s| == X * Y; its result is then a Y by X grid that flattens back to `s` |
| Grid.ReshapeOfFlatten | src/space.rs:99-118 | converting a grid's flattening gives back that grid (read, then write, changes nothing) |
| Grid.ReshapeVolumeSucceedsIff | src/space.rs:141-158 | the volume conversion succeeds exactly when |s| == X * Y * Z; its result is then a Z by Y by X volume that flattens back to `s` |
| Grid.ReshapeVolumeOfFlatten | src/space.rs:128-158 | converting a volume's flattening gives back that volume |
| Space.OneDimensional.constructor | src/space.rs:27-29 | `new` stores X cells, all zero |
| Space.OneDimensional.WithState | src/space.rs:31-33 | `new_with_state` stores the given X cells verbatim |
| Space.OneDimensional.Size | src/space.rs:77-79 | `size` is `[X]`, one extent, whose product is the length of the flat state |
| Space.OneDimensional.ReadState | src/space.rs:81-83 | `read_state` is the stored array unchanged, X cells |
| Space.OneDimensional.WriteState | src/space.rs:85-87 | with exactly X cells, the store becomes `state` and a following `read_state` returns it |
| Space.OneDimensional.UpdateState | src/space.rs:7-11 | the new flat state is the updater applied to the old flat state |
| Space.TwoDimensional.constructor | src/space.rs:48-52 | `new` stores a Y by X grid of zeros |
| Space.TwoDimensional.WithState | src/space.rs:54-58 | `new_with_state` stores the given Y by X grid verbatim |
| Space.TwoDimensional.Size | src/space.rs:95-97 | `size` is `[Y, X]` (outer length first) and needs a first row; its product is the length of the flat state |
| Space.TwoDimensional.ReadState | src/space.rs:99-105 | the flat state has X * Y cells, and entry y * X + x is `space[y][x]` |
| Space.TwoDimensional.WriteState | src/space.rs:107-118 | with X > 0 and X * Y cells, a following `read_state` returns `state`, and each `space[y][x]` is `state[y * X + x]` |
| Space.TwoDimensional.UpdateState | src/space.rs:7-11 | the new flat state is the updater applied to the old flat state |
| Space.ThreeDimensional.WithState | src/space.rs:67-70 | the struct holds the given Z by Y by X volume verbatim |
| Space.ThreeDimensional.Size | src/space.rs:160-166 | `size` is `[Z, Y, X]` and needs a first plane with a first row; its product is the length of the flat state |
| Space.ThreeDimensional.ReadState | src/space.rs:128-139 | the flat state has X * Y * Z cells, and entry z * X * Y + y * X + x is `space[z][y][x]` |
| Space.ThreeDimensional.WriteState | src/space.rs:141-158 | with X, Y > 0 and X * Y * Z cells, a following `read_state` returns `state`, and each `space[z][y][x]` is `state[z * X * Y + y * X + x]` |
| Space.ThreeDimensional.UpdateState | src/space.rs:7-11 | the new flat state is the updater applied to the old flat state |
| Life.Wrap | src/dynamics/life.rs:46-47 | the wrapped coordinate `(c + offset + n) % n` lies on the axis |
| Life.WrapCases | src/dynamics/life.rs:46-47 | wrapping moves by the offset, except that -1 at 0 lands on n - 1 and +1 at n - 1 lands on 0 |
| Life.NeighbourIndex | src/dynamics/life.rs:46-51 | every neighbour index read lies in [0, X * Y) |
| Life.PartialCountComplete | src/dynamics/life.rs:40-53 | running i and j over -1, 0, 1 and skipping the centre adds up exactly the eight neighbours |
| Life.CountNeighbours | src/dynamics/life.rs:37-56 | the loop's accumulator ends equal to the eight-neighbour sum |
| Life.LifeLike.States | src/dynamics/life.rs:28-30 | `states` is always 2 |
| Life.LifeLike.Step | src/dynamics/life.rs:33 | the next generation has the input's length, and the entries past X * Y are the input's |
| Life.LifeLike.StepAt | src/dynamics/life.rs:58-65 | cell (x, y) of the next generation is the next value of (x, y), computed from the input only |
| Life.LifeLike.UpdateCell | src/dynamics/life.rs:37-67 | the cell (x, y) of the output gets its next value, and no other entry of the output changes |
| Life.LifeLike.UpdateColumn | src/dynamics/life.rs:36-68 | one run of the `for y` loop gives every cell of column x its next value and leaves every other entry of the output as it was |
| Life.LifeLike.Update | src/dynamics/life.rs:32-72 | `update` returns exactly the next generation `Step(input)` |
| Life.TorusCorners | src/dynamics/life.rs:46-49 | the torus closes at the corners: the neighbour past (X - 1, Y - 1) is (0, 0), and the one before (0, 0) is (X - 1, Y - 1) |
| Life.NarrowGridCount | src/dynamics/life.rs:40-53 | on a grid one cell wide, a repeated position counts once per offset: 3 times the cell above, 2 times the cell itself, 3 times the cell below |
| Life.NeighbourNotSelf | src/dynamics/life.rs:42-49 | on axes of at least two cells, no neighbour of a cell is the cell itself |
| Life.NextCellLocal | src/dynamics/life.rs:51-63 | a cell's next value depends only on its 3 by 3 neighbourhood in the input snapshot |
| Life.StepRule | src/dynamics/life.rs:60-65 | in the next generation: birth gives 1 whatever the input cell; otherwise survival keeps the input cell; otherwise the cell is 0 |
| Life.SurvivalNeverCreates | src/dynamics/life.rs:62-63 | a dead cell that is live in the next generation was born, since survival keeps a dead cell dead |
| Life.StepKeepsBinary | src/dynamics/life.rs:60-65 | a grid of 0s and 1s stays a grid of 0s and 1s |
| Life.EmptyGridStaysEmpty | src/dynamics/life.rs:60-65 | when 0 is not a birth count, the all-dead grid is its own next generation |
| Life.IsolatedCellDies | src/dynamics/life.rs:60-65 | under Conway's rule, on a torus of at least 2 by 2 cells, a live cell with no other live cell dies |

`new` of the rule engine (`src/dynamics/life.rs:16-22`) is the datatype constructor `Life.LifeLike`. It takes the birth and survival lists. The extents X and Y, which are const generics in the source, are fields of the same datatype. `Life.Conway` builds the rule with birth on 3 and survival on 2 or 3; it is the fixture of `IsolatedCellDies`. `Grid.FlattenEach` is the helper that flattens every plane for `FlattenVolume`. `dim` (`src/space.rs:73-75`, `91-93`, `124-126`) is each class's `Dim` function, which returns `One`, `Two` or `Three`.

## Left out

- Machine integers: cells are `nat`. Nothing models the `u32` range of cell values, overflow of the accumulator `n` at `src/dynamics/life.rs:38` and `:51`, the `X as i32` casts, or the `i32` products `y * X as i32` at `src/dynamics/life.rs:49` and `:58`. X * Y is assumed to fit in `i32`. Once the values are non-negative, the source's truncating `%` agrees with Dafny's.
- The `Dynamic` trait that `update` and `states` implement is not part of this model. They are members of `Life.LifeLike`.
- Const generics, `Box`, `PhantomData`, the derives and the `Default` impls. The extents are immutable fields, and the compile-time array lengths are the classes' `Valid` predicates.
- Panics are preconditions, not aborts:
  - X = 0 for a grid `write_state`;
  - X * Y = 0 for a volume `write_state`;
  - an empty outer array for `size`;
  - a wrong-length write;
  - an input shorter than X * Y for `update`.
- Space.OneDimensional.UpdateState, Space.TwoDimensional.UpdateState, Space.ThreeDimensional.UpdateState: the `FnMut` closure that mutates the vector is a total function `seq<nat> -> seq<nat>`. The precondition asks that it keep the length, where the source would panic in the following `write_state`. The lack of atomicity under sharing is not modelled.
- Space.OneDimensional.WriteState: wrong-length failure is only the `None` of `Grid.TryIntoArray`, which the method's precondition excludes. Unlike the grid and the volume, the 1-D case gets no separate lemma.
- Fixed patterns such as the 2 by 2 block on a 4 by 4 torus or the blinker: no lemma states them. `NeighbourCount` at literal extents does not verify in reasonable time, even for one cell. `StepRule` gives each cell's next value from its count, and the counts of these patterns are not worked out.
- The update loop's order (x outer, y inner) is modelled as written. The result does not depend on it, because neighbours are read from the input only.
- No driver loop, printing or visualisation appears in the modelled files.
