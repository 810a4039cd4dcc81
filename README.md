# simple_mapping: block splitting of a structured model grid

This project models `simple_mapping`, a function from a MODFLOW domain-decomposition
exercise. It takes a structured grid of `nrow x ncol` cells and a number of row blocks
and column blocks. It returns an integer mask of the grid's shape. Each cell of the mask
holds the zero-based number of the sub-model (block) that owns the cell.

The model lives in one module, `SimpleSplit` (`simple_split.dfy`):

- `Grid` is a record of the three attributes the function reads: the grid-type tag,
  `nrow` and `ncol`. A grid whose tag is not `"structured"` yields
  `Err(NotStructured(tag))`, the model's form of the `ValueError` the function raises.
- `BuildCutpoints` is the cutpoint loop, run once per axis. It starts at 0 and adds the
  truncated increment `n / blocks` `blocks` times. If the last cutpoint falls short of
  `n`, it is raised to `n`. The loop is proved equal to the closed form `Cutpoints`.
- `FillMask` is the nested block loop over an `array2<int>`. It visits blocks row by row,
  fills each block's half-open rectangle with the running counter `ival`, and records the
  block's top-left corner in the offset table. `FillBlock` is the slice assignment of one
  rectangle.
- The offset table is stored under the key `ival - 1`, exactly as `simple_mapping` writes it.
  So its keys run from -1 to `nrb * ncb - 2`, one less than the ids in the mask. The
  function never returns this table, so the model returns it only as a ghost
  out-parameter.
- `SimpleMapping` ties the pieces together. Cell `(r, c)` of the mask ends up holding
  `CellId`: the block row of `r` times the number of column blocks, plus the block column
  of `c`. The block row and block column come from `BlockIndex`, the unique cutpoint
  interval that holds the index.

The function's documentation says it returns the mask only, and so does its last line.
The model follows the code: only the mask is returned.

## Model

| member | source | states |
|---|---|---|
| `SimpleSplit.SimpleMapping` | notebooks/exercise-1/simple_split.py:27-66 | Fails with `NotStructured(tag)` exactly when the grid type is not "structured". Otherwise it returns a fresh `nrow x ncol` mask in which every cell holds its block's id, and its (unreturned) offset table holds every block's corner under the key id - 1 |
| `SimpleSplit.BuildCutpoints` | notebooks/exercise-1/simple_split.py:32-50 | The loop yields `blocks + 1` cutpoints: entry 0 is 0, entry `k < blocks` is `k * (n / blocks)`, and the last entry is `n` |
| `SimpleSplit.Cutpoints` | notebooks/exercise-1/simple_split.py:32-41 | Closed form of the cutpoints of one axis: `blocks + 1` entries, starting at 0 and ending at `n` |
| `SimpleSplit.CutpointsValid` | notebooks/exercise-1/simple_split.py:35-50 | The cutpoints are non-decreasing and run from 0 to `n` |
| `SimpleSplit.CutpointsStrictlyIncreasing` | notebooks/exercise-1/simple_split.py:35-50 | With `1 <= blocks <= n` the cutpoints strictly increase, so every block row (column) is non-empty |
| `SimpleSplit.LastBlockAbsorbsRemainder` | notebooks/exercise-1/simple_split.py:32-41 | Every block except the last is exactly `n / blocks` wide. The last block is `n / blocks + n % blocks` wide, and the remainder is less than `blocks` |
| `SimpleSplit.TenRowsInThreeBlocks` | notebooks/exercise-1/simple_split.py:32-41 | Ten rows in three blocks give the cutpoints `[0, 3, 6, 10]` |
| `SimpleSplit.BlockIndex` | notebooks/exercise-1/simple_split.py:56-61 | For an index inside the cut range, returns an interval number `k` with `cuts[k] <= x < cuts[k + 1]` |
| `SimpleSplit.BlockIndexUnique` | notebooks/exercise-1/simple_split.py:56-61 | With ordered cutpoints, the half-open interval holding an index is unique |
| `SimpleSplit.ZeroIncrementLastBlock` | notebooks/exercise-1/simple_split.py:32-41 | With more blocks than cells, the increment is 0 and every cell falls in the last block |
| `SimpleSplit.BlockIndexClosedForm` | notebooks/exercise-1/simple_split.py:32-61 | The block of index `x` is `x / (n / blocks)` capped at `blocks - 1`, or `blocks - 1` when the increment is 0 |
| `SimpleSplit.BlockIdInjective` | notebooks/exercise-1/simple_split.py:54-64 | The counter `ival = i * ncb + j` gives different blocks different ids |
| `SimpleSplit.BlockIdInRange` | notebooks/exercise-1/simple_split.py:54-64 | Every block id lies in `[0, nrb * ncb)` |
| `SimpleSplit.BlocksDisjoint` | notebooks/exercise-1/simple_split.py:56-61 | With ordered cutpoints, a cell that lies in blocks `(i, j)` and `(i', j')` forces `i == i'` and `j == j'`: no cell is in two blocks |
| `SimpleSplit.OffsetsStep` | notebooks/exercise-1/simple_split.py:62-64 | Storing block `(idx, jdx)` under the key `ival - 1` turns the table built from the first `ival` blocks into the table built from the first `ival + 1` |
| `SimpleSplit.BlocksTileGrid` | notebooks/exercise-1/simple_split.py:56-61 | Every cell of the grid lies in block `(BlockIndex(row), BlockIndex(col))` and in no other block: the blocks tile the grid |
| `SimpleSplit.CellIdInBlock` | notebooks/exercise-1/simple_split.py:56-64 | A cell inside block `(i, j)` is within the grid and has id `i * ncb + j` |
| `SimpleSplit.CellIdInRange` | notebooks/exercise-1/simple_split.py:56-64 | Every cell's id lies in `[0, nrb * ncb)` |
| `SimpleSplit.BlockIdSplit` | notebooks/exercise-1/simple_split.py:54-64 | Every id in `[0, nrb * ncb)` is the counter value of block `(id / ncb, id % ncb)`, which lies in range |
| `SimpleSplit.EveryIdAppears` | notebooks/exercise-1/simple_split.py:35-64 | When `nrb <= nrow` and `ncb <= ncol`, every id in `[0, nrb * ncb)` is the id of some cell |
| `SimpleSplit.TooManyRowBlocksLeaveIdsUnused` | notebooks/exercise-1/simple_split.py:32-64 | When `nrow < nrb`, every cell's id is at least `(nrb - 1) * ncb`, so the ids of the other block rows never appear |
| `SimpleSplit.TooManyColBlocksLeaveIdsUnused` | notebooks/exercise-1/simple_split.py:32-64 | When `ncol < ncb`, every cell falls in the last block column, so every id is `ncb - 1` modulo `ncb` and the ids of the other block columns never appear |
| `SimpleSplit.TenByTenInTwoByTwo` | notebooks/exercise-1/simple_split.py:32-61 | On a 10 x 10 grid in 2 x 2 blocks, cell `(r, c)` holds model `2 * (r / 5) + c / 5`: the four 5 x 5 quarters hold models 0, 1, 2 and 3 in row-major order |
| `SimpleSplit.SingleBlockIsAllZero` | notebooks/exercise-1/simple_split.py:53-64 | With one block per axis, every cell holds id 0 |
| `SimpleSplit.SingleBlockOffsets` | notebooks/exercise-1/simple_split.py:55-62 | With one block per axis, the offset table is exactly `{-1: (0, 0)}` |
| `SimpleSplit.FillBlock` | notebooks/exercise-1/simple_split.py:58-61 | Sets the rectangle `[r0, r1) x [c0, c1)` of the mask to `v` and leaves every other cell unchanged |
| `SimpleSplit.FillMask` | notebooks/exercise-1/simple_split.py:53-64 | After the nested loop, every cell holds `CellId`. The offset table has keys -1 .. `nrb * ncb - 2`, and block `(i, j)` is stored under `i * ncb + j - 1` with its top-left corner |

## Left out

- The grid object of the flopy library is reduced to a record of its type tag and its row and column counts, because nothing else of it is read.
- The increment `int(nrow / nrow_blocks)` is computed in floating point and then truncated. The model uses integer division instead, which agrees for positive integers of ordinary size; floating-point rounding of very large counts is not modelled.
- Block counts of zero or less are excluded by precondition (`nrowBlocks >= 1 && ncolBlocks >= 1`). `simple_mapping` does not check them. A count of zero divides by zero and raises an error. A negative count makes its `range` loop empty, so the cutpoint list `[0]` is raised to `[nrow]` (or `[ncol]`), no block is visited, and an all-zero mask is returned without error. The model does not cover that degenerate path.
- The mask's numpy dtype (a fixed-width integer, 64-bit on most platforms) is modelled as unbounded `int`. Ids never exceed `nrb * ncb`, so no wrap-around is modelled.
- `SimpleSplit.FillBlock`: requires `r0 <= r1` and `c0 <= c1`. numpy accepts a reversed slice and treats it as empty, but the cutpoints are ordered, so the splitter never passes one.
- The offset table is returned only as a ghost value, because `simple_mapping` builds it and then discards it. Its `ival - 1` key is reproduced unchanged.
