/** A model of `simple_mapping`: the block-based splitter that cuts a
    structured `nrow x ncol` model grid into an `nrowBlocks x ncolBlocks`
    array of rectangular blocks and labels every cell with the zero-based
    number of the model (block) that owns it. */
module SimpleSplit {

  // ---------------------------------------------------------------------
  // Data model
  // ---------------------------------------------------------------------

  /** The three attributes of the model grid that the splitter reads. */
  datatype Grid = Grid(gridType: string, nrow: nat, ncol: nat)

  /** The one error the splitter raises: the grid is not a structured grid. */
  datatype Error = NotStructured(gridType: string)

  datatype Result<T> = Ok(value: T) | Err(error: Error)

  predicate IsStructured(grid: Grid) {
    grid.gridType == "structured"
  }

  /** Every pair of entries of `s` is in order. */
  predicate NonDecreasing(s: seq<int>) {
    forall i, j :: 0 <= i <= j < |s| ==> s[i] <= s[j]
  }

  predicate StrictlyIncreasing(s: seq<int>) {
    forall i, j :: 0 <= i < j < |s| ==> s[i] < s[j]
  }

  /** Cutpoints that split the range [0, n) into |cuts| - 1 consecutive
      half-open intervals, some of which may be empty. */
  predicate ValidCuts(cuts: seq<int>, n: nat) {
    |cuts| >= 2 && cuts[0] == 0 && cuts[|cuts| - 1] == n && NonDecreasing(cuts)
  }

  function Min(a: int, b: int): int {
    if a <= b then a else b
  }

  // ---------------------------------------------------------------------
  // Cutpoints on one axis
  // ---------------------------------------------------------------------

  /** Reference definition of the cutpoints of one axis of length n split into
      `blocks` blocks: entry k is k times the truncated increment n / blocks,
      except the last entry, which is n itself. */
  function Cutpoints(n: nat, blocks: nat): (cuts: seq<int>)
    requires blocks >= 1
    ensures |cuts| == blocks + 1 && cuts[0] == 0 && cuts[blocks] == n
  {
    seq(blocks + 1, k requires 0 <= k <= blocks => if k < blocks then k * (n / blocks) else n)
  }

  /** The cutpoint loop: start at 0, add the increment `blocks` times, then
      raise the last cutpoint to n if it falls short. */
  method BuildCutpoints(n: nat, blocks: nat) returns (cuts: seq<int>)
    requires blocks >= 1
    ensures |cuts| == blocks + 1
    ensures cuts[0] == 0
    ensures forall k :: 0 <= k < blocks ==> cuts[k] == k * (n / blocks)
    ensures cuts[blocks] == n
    ensures cuts == Cutpoints(n, blocks)
  {
    var inc := n / blocks;
    var icnt := 0;
    cuts := [icnt];
    for i := 0 to blocks
      invariant |cuts| == i + 1
      invariant icnt == i * inc
      invariant forall k :: 0 <= k <= i ==> cuts[k] == k * inc
    {
      icnt := icnt + inc;
      cuts := cuts + [icnt];
    }
    assert icnt + n % blocks == n;
    if cuts[|cuts| - 1] < n {
      cuts := cuts[|cuts| - 1 := n];
    }
  }

  lemma MulMonotone(a: nat, b: nat, c: nat)
    requires a <= b
    ensures a * c <= b * c
  {
    assert b * c == a * c + (b - a) * c;
  }

  lemma MulStrictMonotone(a: nat, b: nat, c: nat)
    requires a < b && c >= 1
    ensures a * c < b * c
  {
    assert b * c == a * c + (b - a) * c;
    MulMonotone(1, b - a, c);
  }

  /** The cutpoints are ordered and run from 0 to n. */
  lemma CutpointsValid(n: nat, blocks: nat)
    requires blocks >= 1
    ensures ValidCuts(Cutpoints(n, blocks), n)
  {
    var cuts, inc := Cutpoints(n, blocks), n / blocks;
    assert blocks * inc + n % blocks == n;
    forall i, j | 0 <= i <= j < |cuts|
      ensures cuts[i] <= cuts[j]
    {
      if j < blocks {
        MulMonotone(i, j, inc);
      } else if i < blocks {
        MulMonotone(i, blocks, inc);
      }
    }
  }

  /** With no more blocks than cells on the axis, the increment is at least
      one and every block is non-empty. */
  lemma CutpointsStrictlyIncreasing(n: nat, blocks: nat)
    requires 1 <= blocks <= n
    ensures StrictlyIncreasing(Cutpoints(n, blocks))
  {
    var cuts, inc := Cutpoints(n, blocks), n / blocks;
    assert blocks * inc + n % blocks == n;
    assert inc >= 1;
    forall i, j | 0 <= i < j < |cuts|
      ensures cuts[i] < cuts[j]
    {
      if j < blocks {
        MulStrictMonotone(i, j, inc);
      } else {
        MulStrictMonotone(i, blocks, inc);
      }
    }
  }

  /** Every block but the last spans exactly the increment; the last one
      spans the increment plus the remainder n % blocks, which is less than
      the number of blocks. */
  lemma LastBlockAbsorbsRemainder(n: nat, blocks: nat)
    requires blocks >= 1
    ensures forall k :: 0 <= k < blocks - 1 ==>
      Cutpoints(n, blocks)[k + 1] - Cutpoints(n, blocks)[k] == n / blocks
    ensures Cutpoints(n, blocks)[blocks] - Cutpoints(n, blocks)[blocks - 1] == n / blocks + n % blocks
    ensures 0 <= n % blocks < blocks
  {
    var cuts, inc := Cutpoints(n, blocks), n / blocks;
    assert blocks * inc + n % blocks == n;
    forall k | 0 <= k < blocks - 1
      ensures cuts[k + 1] - cuts[k] == inc
    {
      assert (k + 1) * inc == k * inc + inc;
    }
    assert (blocks - 1) * inc == blocks * inc - inc;
  }

  /** Ten rows in three blocks: the last block holds four rows. */
  lemma TenRowsInThreeBlocks()
    ensures Cutpoints(10, 3) == [0, 3, 6, 10]
  {
  }

  // ---------------------------------------------------------------------
  // Which block a row or column falls in
  // ---------------------------------------------------------------------

  /** The index of the interval [cuts[k], cuts[k + 1]) that holds x. */
  function BlockIndex(cuts: seq<int>, x: int): (k: nat)
    requires |cuts| >= 2 && cuts[0] <= x < cuts[|cuts| - 1]
    ensures k < |cuts| - 1 && cuts[k] <= x < cuts[k + 1]
    decreases |cuts|
  {
    if x < cuts[1] then 0 else 1 + BlockIndex(cuts[1..], x)
  }

  /** With ordered cutpoints the interval that holds x is unique. */
  lemma BlockIndexUnique(cuts: seq<int>, x: int, j: nat)
    requires NonDecreasing(cuts) && |cuts| >= 2 && cuts[0] <= x < cuts[|cuts| - 1]
    requires j < |cuts| - 1 && cuts[j] <= x < cuts[j + 1]
    ensures j == BlockIndex(cuts, x)
  {
  }

  lemma DivBounds(x: nat, d: nat)
    requires d >= 1
    ensures (x / d) * d <= x < (x / d + 1) * d
  {
    assert (x / d) * d + x % d == x;
    assert (x / d + 1) * d == (x / d) * d + d;
  }

  /** When the increment is zero, every cell lies in the last block. */
  lemma ZeroIncrementLastBlock(n: nat, blocks: nat, x: nat)
    requires n < blocks && x < n
    ensures BlockIndex(Cutpoints(n, blocks), x) == blocks - 1
  {
    CutpointsValid(n, blocks);
    BlockIndexUnique(Cutpoints(n, blocks), x, blocks - 1);
  }

  /** Closed form of the block of x for the splitter's own cutpoints: x divided
      by the increment, capped at the last block; when the increment is zero
      every cell lies in the last block. */
  lemma BlockIndexClosedForm(n: nat, blocks: nat, x: nat)
    requires blocks >= 1 && x < n
    ensures BlockIndex(Cutpoints(n, blocks), x) ==
      if n / blocks == 0 then blocks - 1 else Min(x / (n / blocks), blocks - 1)
  {
    var cuts, inc := Cutpoints(n, blocks), n / blocks;
    CutpointsValid(n, blocks);
    if inc == 0 {
      ZeroIncrementLastBlock(n, blocks, x);
    } else {
      var q := Min(x / inc, blocks - 1);
      DivBounds(x, inc);
      MulMonotone(q, x / inc, inc);
      assert cuts[q] == q * inc;
      if q < blocks - 1 {
        assert cuts[q + 1] == (q + 1) * inc;
      }
      BlockIndexUnique(cuts, x, q);
    }
  }

  // ---------------------------------------------------------------------
  // Model ids
  // ---------------------------------------------------------------------

  /** Cell (r, c) lies in block (i, j). */
  predicate InBlock(rowCuts: seq<int>, colCuts: seq<int>, i: int, j: int, r: int, c: int) {
    0 <= i < |rowCuts| - 1 && 0 <= j < |colCuts| - 1 &&
    rowCuts[i] <= r < rowCuts[i + 1] && colCuts[j] <= c < colCuts[j + 1]
  }

  /** The model id of cell (r, c): the blocks are numbered row by row. */
  function CellId(rowCuts: seq<int>, colCuts: seq<int>, r: int, c: int): int
    requires |rowCuts| >= 2 && rowCuts[0] <= r < rowCuts[|rowCuts| - 1]
    requires |colCuts| >= 2 && colCuts[0] <= c < colCuts[|colCuts| - 1]
  {
    BlockId(BlockIndex(rowCuts, r), BlockIndex(colCuts, c), |colCuts| - 1)
  }

  /** The model id of block (i, j) when there are ncb block columns: the
      blocks are numbered row by row, as the running counter `ival` does. */
  function BlockId(i: int, j: int, ncb: int): int {
    i * ncb + j
  }

  /** The key under which `simple_mapping` records the top-left corner of block
      (i, j) in its offset table: one less than the block's model id. */
  function OffsetKey(i: int, j: int, ncb: int): int {
    BlockId(i, j, ncb) - 1
  }

  /** Dividing the id of block (i, j) by ncb recovers (i, j). */
  lemma BlockIdDivMod(i: nat, j: nat, ncb: nat)
    requires j < ncb
    ensures BlockId(i, j, ncb) / ncb == i && BlockId(i, j, ncb) % ncb == j
  {
    var x := i * ncb + j;
    var q, m := x / ncb, x % ncb;
    assert q * ncb + m == x;
    assert (q - i) * ncb == j - m;
    if q > i {
      MulMonotone(1, q - i, ncb);
      assert false;
    } else if q < i {
      MulMonotone(1, i - q, ncb);
      assert false;
    }
  }

  /** Different blocks get different ids. */
  lemma BlockIdInjective(i: nat, j: nat, i': nat, j': nat, ncb: nat)
    requires j < ncb && j' < ncb
    requires BlockId(i, j, ncb) == BlockId(i', j', ncb)
    ensures i == i' && j == j'
  {
    BlockIdDivMod(i, j, ncb);
    BlockIdDivMod(i', j', ncb);
  }

  /** A block id lies in [0, nrb * ncb). */
  lemma BlockIdInRange(i: nat, j: nat, nrb: nat, ncb: nat)
    requires i < nrb && j < ncb
    ensures 0 <= BlockId(i, j, ncb) < nrb * ncb
  {
    MulMonotone(i + 1, nrb, ncb);
  }

  /** The counter runs on from the end of one block row to the start of the
      next. */
  lemma BlockIdNextRow(i: int, ncb: int)
    ensures BlockId(i, ncb, ncb) == BlockId(i + 1, 0, ncb)
  {
  }

  /** No cell lies in two blocks. */
  lemma BlocksDisjoint(rowCuts: seq<int>, colCuts: seq<int>, i: int, j: int, i': int, j': int, r: int, c: int)
    requires NonDecreasing(rowCuts) && NonDecreasing(colCuts)
    requires InBlock(rowCuts, colCuts, i, j, r, c) && InBlock(rowCuts, colCuts, i', j', r, c)
    ensures i == i' && j == j'
  {
  }

  /** Block (i, j) holds cell (r, c) exactly when (i, j) is the block its
      row and column fall in: together the blocks cover every cell once. */
  lemma BlocksTileGrid(rowCuts: seq<int>, colCuts: seq<int>, nrow: nat, ncol: nat, r: int, c: int)
    requires ValidCuts(rowCuts, nrow) && ValidCuts(colCuts, ncol)
    requires 0 <= r < nrow && 0 <= c < ncol
    ensures InBlock(rowCuts, colCuts, BlockIndex(rowCuts, r), BlockIndex(colCuts, c), r, c)
    ensures forall i, j :: InBlock(rowCuts, colCuts, i, j, r, c) <==>
      i == BlockIndex(rowCuts, r) && j == BlockIndex(colCuts, c)
  {
    forall i, j | InBlock(rowCuts, colCuts, i, j, r, c)
      ensures i == BlockIndex(rowCuts, r) && j == BlockIndex(colCuts, c)
    {
      BlockIndexUnique(rowCuts, r, i);
      BlockIndexUnique(colCuts, c, j);
    }
  }

  /** The id of a cell in block (i, j) is i * ncb + j. */
  lemma CellIdInBlock(rowCuts: seq<int>, colCuts: seq<int>, nrow: nat, ncol: nat, i: nat, j: nat, r: int, c: int)
    requires ValidCuts(rowCuts, nrow) && ValidCuts(colCuts, ncol)
    requires InBlock(rowCuts, colCuts, i, j, r, c)
    ensures 0 <= r < nrow && 0 <= c < ncol
    ensures CellId(rowCuts, colCuts, r, c) == BlockId(i, j, |colCuts| - 1)
  {
    assert rowCuts[0] <= rowCuts[i] && rowCuts[i + 1] <= rowCuts[|rowCuts| - 1];
    assert colCuts[0] <= colCuts[j] && colCuts[j + 1] <= colCuts[|colCuts| - 1];
    BlockIndexUnique(rowCuts, r, i);
    BlockIndexUnique(colCuts, c, j);
  }

  /** Every cell gets an id in [0, nrb * ncb). */
  lemma CellIdInRange(rowCuts: seq<int>, colCuts: seq<int>, r: int, c: int)
    requires |rowCuts| >= 2 && rowCuts[0] <= r < rowCuts[|rowCuts| - 1]
    requires |colCuts| >= 2 && colCuts[0] <= c < colCuts[|colCuts| - 1]
    ensures 0 <= CellId(rowCuts, colCuts, r, c) < (|rowCuts| - 1) * (|colCuts| - 1)
  {
    BlockIdInRange(BlockIndex(rowCuts, r), BlockIndex(colCuts, c), |rowCuts| - 1, |colCuts| - 1);
  }

  /** An id in [0, nrb * ncb) is the id of block (id / ncb, id % ncb). */
  lemma BlockIdSplit(id: int, nrb: nat, ncb: nat)
    requires 1 <= ncb && 0 <= id < nrb * ncb
    ensures 0 <= id / ncb < nrb && 0 <= id % ncb < ncb
    ensures BlockId(id / ncb, id % ncb, ncb) == id
  {
    var i := id / ncb;
    if i >= nrb {
      MulMonotone(nrb, i, ncb);
    }
  }

  /** When no axis has more blocks than cells, every id in [0, nrb * ncb)
      is the id of some cell of the grid. */
  lemma EveryIdAppears(nrow: nat, ncol: nat, nrb: nat, ncb: nat, id: int)
    requires 1 <= nrb <= nrow && 1 <= ncb <= ncol
    requires 0 <= id < nrb * ncb
    ensures exists r, c :: 0 <= r < nrow && 0 <= c < ncol &&
              CellId(Cutpoints(nrow, nrb), Cutpoints(ncol, ncb), r, c) == id
  {
    var rowCuts, colCuts := Cutpoints(nrow, nrb), Cutpoints(ncol, ncb);
    CutpointsValid(nrow, nrb);
    CutpointsValid(ncol, ncb);
    CutpointsStrictlyIncreasing(nrow, nrb);
    CutpointsStrictlyIncreasing(ncol, ncb);
    var i, j := id / ncb, id % ncb;
    BlockIdSplit(id, nrb, ncb);
    var r, c := rowCuts[i], colCuts[j];
    assert InBlock(rowCuts, colCuts, i, j, r, c);
    CellIdInBlock(rowCuts, colCuts, nrow, ncol, i, j, r, c);
  }

  /** With more row blocks than rows the increment is zero, so every row
      falls in the last block row and the ids of the other block rows never
      appear. */
  lemma TooManyRowBlocksLeaveIdsUnused(nrow: nat, ncol: nat, nrb: nat, ncb: nat, r: int, c: int)
    requires 1 <= ncb && nrow < nrb
    requires 0 <= r < nrow && 0 <= c < ncol
    ensures CellId(Cutpoints(nrow, nrb), Cutpoints(ncol, ncb), r, c) >= (nrb - 1) * ncb
  {
    var rowCuts, colCuts := Cutpoints(nrow, nrb), Cutpoints(ncol, ncb);
    ZeroIncrementLastBlock(nrow, nrb, r);
    assert CellId(rowCuts, colCuts, r, c) == BlockId(nrb - 1, BlockIndex(colCuts, c), ncb);
  }

  /** The column counterpart: with more column blocks than columns, every
      cell falls in the last block column, so every id is `ncb - 1` modulo
      `ncb` and the ids of the other block columns never appear. */
  lemma TooManyColBlocksLeaveIdsUnused(nrow: nat, ncol: nat, nrb: nat, ncb: nat, r: int, c: int)
    requires 1 <= nrb && ncol < ncb
    requires 0 <= r < nrow && 0 <= c < ncol
    ensures CellId(Cutpoints(nrow, nrb), Cutpoints(ncol, ncb), r, c) % ncb == ncb - 1
  {
    var rowCuts, colCuts := Cutpoints(nrow, nrb), Cutpoints(ncol, ncb);
    ZeroIncrementLastBlock(ncol, ncb, c);
    assert CellId(rowCuts, colCuts, r, c) == BlockId(BlockIndex(rowCuts, r), ncb - 1, ncb);
    BlockIdDivMod(BlockIndex(rowCuts, r), ncb - 1, ncb);
  }

  /** The grid of ten by ten cells in two by two blocks: rows 0..4 and
      5..9 form the two block rows, columns 0..4 and 5..9 the two block
      columns, and the four quarters hold models 0, 1, 2 and 3. */
  lemma TenByTenInTwoByTwo(r: int, c: int)
    requires 0 <= r < 10 && 0 <= c < 10
    ensures CellId(Cutpoints(10, 2), Cutpoints(10, 2), r, c) == 2 * (r / 5) + c / 5
  {
    BlockIndexClosedForm(10, 2, r);
    BlockIndexClosedForm(10, 2, c);
  }

  /** A single block labels every cell with id 0. */
  lemma SingleBlockIsAllZero(nrow: nat, ncol: nat, r: int, c: int)
    requires 0 <= r < nrow && 0 <= c < ncol
    ensures CellId(Cutpoints(nrow, 1), Cutpoints(ncol, 1), r, c) == 0
  {
  }

  // ---------------------------------------------------------------------
  // The mask
  // ---------------------------------------------------------------------

  /** Assigning `v` to the rectangle [r0, r1) x [c0, c1) of the mask. */
  method FillBlock(mask: array2<int>, r0: int, r1: int, c0: int, c1: int, v: int)
    requires 0 <= r0 <= r1 <= mask.Length0 && 0 <= c0 <= c1 <= mask.Length1
    modifies mask
    ensures forall r, c :: 0 <= r < mask.Length0 && 0 <= c < mask.Length1 ==>
      mask[r, c] == if r0 <= r < r1 && c0 <= c < c1 then v else old(mask[r, c])
  {
    for r := r0 to r1
      invariant forall r', c :: 0 <= r' < mask.Length0 && 0 <= c < mask.Length1 ==>
        mask[r', c] == if r0 <= r' < r && c0 <= c < c1 then v else old(mask[r', c])
    {
      for c := c0 to c1
        invariant forall r', c' :: 0 <= r' < mask.Length0 && 0 <= c' < mask.Length1 ==>
          mask[r', c'] == if (r0 <= r' < r && c0 <= c' < c1) || (r' == r && c0 <= c' < c) then v else old(mask[r', c'])
      {
        mask[r, c] := v;
      }
    }
  }

  /** Every cell of the mask holds its model id. */
  ghost predicate MaskLabelled(mask: array2<int>, rowCuts: seq<int>, colCuts: seq<int>)
    reads mask
    requires ValidCuts(rowCuts, mask.Length0) && ValidCuts(colCuts, mask.Length1)
  {
    forall r, c :: 0 <= r < mask.Length0 && 0 <= c < mask.Length1 ==>
      mask[r, c] == CellId(rowCuts, colCuts, r, c)
  }

  /** The offset table has the keys -1 .. nrb * ncb - 2, and under the key of
      block (i, j) it holds the block's top-left corner. */
  ghost predicate OffsetsRecorded(offsets: map<int, (int, int)>, rowCuts: seq<int>, colCuts: seq<int>)
    requires |rowCuts| >= 1 && |colCuts| >= 1
  {
    (forall k :: k in offsets <==> -1 <= k < (|rowCuts| - 1) * (|colCuts| - 1) - 1) &&
    forall i, j :: 0 <= i < |rowCuts| - 1 && 0 <= j < |colCuts| - 1 ==>
      OffsetKey(i, j, |colCuts| - 1) in offsets &&
      offsets[OffsetKey(i, j, |colCuts| - 1)] == (rowCuts[i], colCuts[j])
  }

  /** With a single block the offset table has one entry, under the key -1. */
  lemma SingleBlockOffsets(offsets: map<int, (int, int)>, nrow: nat, ncol: nat)
    requires OffsetsRecorded(offsets, Cutpoints(nrow, 1), Cutpoints(ncol, 1))
    ensures offsets == map[-1 := (0, 0)]
  {
    var rowCuts, colCuts := Cutpoints(nrow, 1), Cutpoints(ncol, 1);
    assert |rowCuts| - 1 == 1 && |colCuts| - 1 == 1;
    assert OffsetKey(0, 0, 1) == -1;
    assert offsets[-1] == (rowCuts[0], colCuts[0]) == (0, 0);
    assert (|rowCuts| - 1) * (|colCuts| - 1) - 1 == 0;
    forall k
      ensures k in offsets <==> k == -1
    {
    }
    assert offsets.Keys == {-1};
  }

  /** The offset table after `count` blocks: keys -1 .. count - 2, and each
      block whose id is below `count` stored under its key. */
  ghost predicate OffsetsBefore(offsets: map<int, (int, int)>, rowCuts: seq<int>, colCuts: seq<int>, count: int)
  {
    (forall k :: k in offsets <==> -1 <= k < count - 1) &&
    forall i, j :: 0 <= i < |rowCuts| - 1 && 0 <= j < |colCuts| - 1 && BlockId(i, j, |colCuts| - 1) < count ==>
      OffsetKey(i, j, |colCuts| - 1) in offsets &&
      offsets[OffsetKey(i, j, |colCuts| - 1)] == (rowCuts[i], colCuts[j])
  }

  /** Before any block the offset table is empty. */
  lemma OffsetsInitially(rowCuts: seq<int>, colCuts: seq<int>)
    ensures OffsetsBefore(map[], rowCuts, colCuts, 0)
  {
    var ncb := |colCuts| - 1;
    forall i, j | 0 <= i < |rowCuts| - 1 && 0 <= j < ncb
      ensures BlockId(i, j, ncb) >= 0
    {
      MulMonotone(0, i, ncb);
    }
  }

  /** Recording block (idx, jdx) under the key `ival - 1` extends the table
      by one block. */
  lemma OffsetsStep(offsets: map<int, (int, int)>, rowCuts: seq<int>, colCuts: seq<int>, idx: nat, jdx: nat)
    requires idx < |rowCuts| - 1 && jdx < |colCuts| - 1
    requires OffsetsBefore(offsets, rowCuts, colCuts, BlockId(idx, jdx, |colCuts| - 1))
    ensures OffsetsBefore(offsets[OffsetKey(idx, jdx, |colCuts| - 1) := (rowCuts[idx], colCuts[jdx])],
                          rowCuts, colCuts, BlockId(idx, jdx, |colCuts| - 1) + 1)
  {
    var ncb := |colCuts| - 1;
    var ival := BlockId(idx, jdx, ncb);
    var next := offsets[ival - 1 := (rowCuts[idx], colCuts[jdx])];
    forall i, j | 0 <= i < |rowCuts| - 1 && 0 <= j < ncb && BlockId(i, j, ncb) < ival + 1
      ensures OffsetKey(i, j, ncb) in next && next[OffsetKey(i, j, ncb)] == (rowCuts[i], colCuts[j])
    {
      if BlockId(i, j, ncb) == ival {
        BlockIdInjective(i, j, idx, jdx, ncb);
      }
    }
  }

  lemma OffsetsComplete(offsets: map<int, (int, int)>, rowCuts: seq<int>, colCuts: seq<int>)
    requires |rowCuts| >= 1 && |colCuts| >= 1
    requires OffsetsBefore(offsets, rowCuts, colCuts, (|rowCuts| - 1) * (|colCuts| - 1))
    ensures OffsetsRecorded(offsets, rowCuts, colCuts)
  {
    var nrb, ncb := |rowCuts| - 1, |colCuts| - 1;
    forall i, j | 0 <= i < nrb && 0 <= j < ncb
      ensures OffsetKey(i, j, ncb) in offsets && offsets[OffsetKey(i, j, ncb)] == (rowCuts[i], colCuts[j])
    {
      BlockIdInRange(i, j, nrb, ncb);
    }
  }

  /** The nested block loop: visits the blocks row by row, fills each block
      of the mask with the running model number `ival`, and records the
      block's top-left corner in the offset table under the key `ival - 1`.
      The offset table is never handed back to the caller, so it is ghost. */
  method FillMask(mask: array2<int>, rowCuts: seq<int>, colCuts: seq<int>)
    returns (ghost offsets: map<int, (int, int)>)
    requires ValidCuts(rowCuts, mask.Length0) && ValidCuts(colCuts, mask.Length1)
    modifies mask
    ensures MaskLabelled(mask, rowCuts, colCuts)
    ensures OffsetsRecorded(offsets, rowCuts, colCuts)
  {
    var nrb, ncb := |rowCuts| - 1, |colCuts| - 1;
    var ival := 0;
    offsets := map[];
    OffsetsInitially(rowCuts, colCuts);
    for idx := 0 to nrb
      invariant ival == BlockId(idx, 0, ncb)
      invariant forall i, j, r, c :: 0 <= r < mask.Length0 && 0 <= c < mask.Length1 &&
                                     InBlock(rowCuts, colCuts, i, j, r, c) && i < idx ==>
        mask[r, c] == BlockId(i, j, ncb)
      invariant OffsetsBefore(offsets, rowCuts, colCuts, ival)
    {
      for jdx := 0 to ncb
        invariant ival == BlockId(idx, jdx, ncb)
        invariant forall i, j, r, c :: 0 <= r < mask.Length0 && 0 <= c < mask.Length1 &&
                                       InBlock(rowCuts, colCuts, i, j, r, c) && (i < idx || (i == idx && j < jdx)) ==>
          mask[r, c] == BlockId(i, j, ncb)
        invariant OffsetsBefore(offsets, rowCuts, colCuts, ival)
      {
        assert 0 <= rowCuts[idx] <= rowCuts[idx + 1] <= mask.Length0;
        assert 0 <= colCuts[jdx] <= colCuts[jdx + 1] <= mask.Length1;
        label BeforeBlock:
        FillBlock(mask, rowCuts[idx], rowCuts[idx + 1], colCuts[jdx], colCuts[jdx + 1], ival);
        forall i, j, r, c | 0 <= r < mask.Length0 && 0 <= c < mask.Length1 &&
                            InBlock(rowCuts, colCuts, i, j, r, c) && (i < idx || (i == idx && j <= jdx))
          ensures mask[r, c] == BlockId(i, j, ncb)
        {
          if InBlock(rowCuts, colCuts, idx, jdx, r, c) {
            BlocksDisjoint(rowCuts, colCuts, i, j, idx, jdx, r, c);
          } else {
            assert mask[r, c] == old@BeforeBlock(mask[r, c]);
          }
        }
        OffsetsStep(offsets, rowCuts, colCuts, idx, jdx);
        offsets := offsets[ival - 1 := (rowCuts[idx], colCuts[jdx])];
        ival := ival + 1;
      }
      BlockIdNextRow(idx, ncb);
    }
    forall r, c | 0 <= r < mask.Length0 && 0 <= c < mask.Length1
      ensures mask[r, c] == CellId(rowCuts, colCuts, r, c)
    {
      assert InBlock(rowCuts, colCuts, BlockIndex(rowCuts, r), BlockIndex(colCuts, c), r, c);
    }
    OffsetsComplete(offsets, rowCuts, colCuts);
  }

  /** `simple_mapping`: reject a grid that is not structured; otherwise build
      the row and column cutpoints and return the mask of model ids. The
      offset table `simple_mapping` builds alongside is returned as a ghost value
      only, because `simple_mapping` discards it. */
  method SimpleMapping(nrowBlocks: nat, ncolBlocks: nat, grid: Grid)
    returns (result: Result<array2<int>>, ghost offsets: map<int, (int, int)>)
    requires nrowBlocks >= 1 && ncolBlocks >= 1
    ensures result.Err? <==> !IsStructured(grid)
    ensures result.Err? ==> result.error == NotStructured(grid.gridType) && offsets == map[]
    ensures result.Ok? ==> fresh(result.value)
    ensures result.Ok? ==> result.value.Length0 == grid.nrow && result.value.Length1 == grid.ncol
    ensures result.Ok? ==>
              (CutpointsValid(grid.nrow, nrowBlocks);
               CutpointsValid(grid.ncol, ncolBlocks);
               MaskLabelled(result.value, Cutpoints(grid.nrow, nrowBlocks), Cutpoints(grid.ncol, ncolBlocks)))
    ensures result.Ok? ==> OffsetsRecorded(offsets, Cutpoints(grid.nrow, nrowBlocks), Cutpoints(grid.ncol, ncolBlocks))
  {
    if !IsStructured(grid) {
      return Err(NotStructured(grid.gridType)), map[];
    }
    var rowCuts := BuildCutpoints(grid.nrow, nrowBlocks);
    var colCuts := BuildCutpoints(grid.ncol, ncolBlocks);
    CutpointsValid(grid.nrow, nrowBlocks);
    CutpointsValid(grid.ncol, ncolBlocks);
    var mask := new int[grid.nrow, grid.ncol]((_, _) => 0);
    offsets := FillMask(mask, rowCuts, colCuts);
    result := Ok(mask);
  }
}
