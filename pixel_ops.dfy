/** The per-pixel operations of the forest-mask stage (`forest_mask_op`) and of the
    polygon-mask stage (`apply_mask`), each lifted cell by cell over an in-memory grid.
    The block-wise raster I/O that applies them to a file is not part of this model. */
module PixelOps {

  /** A single-band raster held in memory: rows of integer cell values. */
  type Grid = seq<seq<int>>

  /** The forest classes of the land-cover classification form the closed range [50, 90]. */
  const ForestMin: int := 50
  const ForestMax: int := 90

  predicate IsForestClass(v: int) {
    ForestMin <= v <= ForestMax
  }

  /** `forest_mask_op` on one cell: 1 for a forest class, 0 for anything else. */
  function ForestMaskOp(v: int): (r: int)
    ensures r == 0 || r == 1
    ensures r == 1 <==> IsForestClass(v)
  {
    if IsForestClass(v) then 1 else 0
  }

  /** Two grids have the same shape: the same number of rows, row by row the same length. */
  predicate SameShape(a: Grid, b: Grid) {
    |a| == |b| && forall i :: 0 <= i < |a| ==> |a[i]| == |b[i]|
  }

  function ForestMaskRow(row: seq<int>): seq<int> {
    seq(|row|, j requires 0 <= j < |row| => ForestMaskOp(row[j]))
  }

  /** `forest_mask_op` applied to every cell of a land-cover grid. */
  function ForestMask(g: Grid): (r: Grid)
    ensures SameShape(r, g)
    ensures forall i, j :: 0 <= i < |g| && 0 <= j < |g[i]| ==>
      (r[i][j] == 0 || r[i][j] == 1) && (r[i][j] == 1 <==> IsForestClass(g[i][j]))
  {
    seq(|g|, i requires 0 <= i < |g| => ForestMaskRow(g[i]))
  }

  /** `apply_mask` on one cell: the raster value where the polygon mask is 1, nodata elsewhere. */
  function ApplyMaskOp(m: int, v: int, nodata: int): (r: int)
    ensures m == 1 ==> r == v
    ensures m != 1 ==> r == nodata
  {
    if m == 1 then v else nodata
  }

  function ApplyMaskRow(mask: seq<int>, row: seq<int>, nodata: int): seq<int>
    requires |mask| == |row|
  {
    seq(|row|, j requires 0 <= j < |row| => ApplyMaskOp(mask[j], row[j], nodata))
  }

  /** `apply_mask` over a grid. The mask is rasterised onto the raster's own grid, so the two
      grids are aligned cell for cell. */
  function ApplyMask(mask: Grid, raster: Grid, nodata: int): (r: Grid)
    requires SameShape(mask, raster)
    ensures SameShape(r, raster)
    ensures forall i, j :: 0 <= i < |raster| && 0 <= j < |raster[i]| ==>
      r[i][j] == (if mask[i][j] == 1 then raster[i][j] else nodata)
  {
    seq(|raster|, i requires 0 <= i < |raster| => ApplyMaskRow(mask[i], raster[i], nodata))
  }

  // Sums and counts, to state what the 0/1 encoding of the forest mask is for: a zonal sum of
  // the forest mask counts forest pixels.

  function RowSum(row: seq<int>): int {
    if row == [] then 0 else row[0] + RowSum(row[1..])
  }

  function GridSum(g: Grid): int {
    if g == [] then 0 else RowSum(g[0]) + GridSum(g[1..])
  }

  function RowForestCount(row: seq<int>): nat {
    if row == [] then 0 else (if IsForestClass(row[0]) then 1 else 0) + RowForestCount(row[1..])
  }

  /** The number of cells of a land-cover grid that hold a forest class. */
  function ForestCount(g: Grid): nat {
    if g == [] then 0 else RowForestCount(g[0]) + ForestCount(g[1..])
  }

  lemma {:induction false} ForestMaskRowSum(row: seq<int>)
    ensures RowSum(ForestMaskRow(row)) == RowForestCount(row)
  {
    if row != [] {
      assert ForestMaskRow(row)[1..] == ForestMaskRow(row[1..]);
      ForestMaskRowSum(row[1..]);
    }
  }

  /** Summing the forest mask over any set of whole rows gives the number of forest pixels:
      the mask holds 1, not the class code, so that a zonal sum counts pixels. */
  lemma {:induction false} ForestMaskSumCountsForest(g: Grid)
    ensures GridSum(ForestMask(g)) == ForestCount(g)
  {
    if g != [] {
      assert ForestMask(g)[1..] == ForestMask(g[1..]);
      ForestMaskRowSum(g[0]);
      ForestMaskSumCountsForest(g[1..]);
    }
  }

  /** Masking a grid with an all-ones mask changes nothing. */
  lemma {:induction false} ApplyFullMaskIsIdentity(mask: Grid, raster: Grid, nodata: int)
    requires SameShape(mask, raster)
    requires forall i, j :: 0 <= i < |mask| && 0 <= j < |mask[i]| ==> mask[i][j] == 1
    ensures ApplyMask(mask, raster, nodata) == raster
  {
    var r := ApplyMask(mask, raster, nodata);
    forall i | 0 <= i < |raster|
      ensures r[i] == raster[i]
    {
      assert |r[i]| == |raster[i]|;
    }
  }

  /** The worked example: a 4 x 4 land-cover grid with a 2 x 2 block of class 60 in a
      non-forest surround yields four forest pixels. */
  lemma WorkedExampleForestPixels()
    ensures GridSum(ForestMask([[10, 10, 10, 10], [10, 60, 60, 10], [10, 60, 60, 10], [10, 10, 10, 10]])) == 4
  {
    var g := [[10, 10, 10, 10], [10, 60, 60, 10], [10, 60, 60, 10], [10, 10, 10, 10]];
    ForestMaskSumCountsForest(g);
    assert RowForestCount([10, 10, 10, 10]) == 0;
    assert RowForestCount([10, 60, 60, 10]) == 2;
    assert g[1..][1..][1..] == [[10, 10, 10, 10]];
  }
}
