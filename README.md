# Non-timber forest product valuation: a Dafny model

The pipeline values non-timber forest products (NTFP) per country in these steps:

1. It classifies a land-cover raster into forest and non-forest.
2. It reprojects the forest raster, the road, river and country layers.
3. It buffers roads and rivers and takes the union of the buffers.
4. It masks the forest raster to that union.
5. It sums the forest pixels per country, converts them to hectares, joins a per-hectare price for 2019 and multiplies.

A separate script prepares the price table. It attaches the GEP country identifiers (id, label, name) to each price row and puts them first.

This project models the parts of that logic that belong to the repository itself:

- `PixelOps` (pixel_ops.dfy):
  - the per-cell forest classification and the per-cell polygon masking, lifted over a grid of integers;
  - the fact that the sum of a forest mask counts the forest cells.
- `TempPaths` (temp_paths.dfy):
  - the temporary mask path, modelled as Python's `str.replace`, which replaces every occurrence from left to right;
  - a corrected variant that never coincides with the output.
- `Tables` (tables.dfy):
  - tables as column lists plus rows of cells (a missing cell is pandas NaN);
  - column selection with its KeyError;
  - the number parsing of `to_numeric(errors='coerce')`;
  - the errors the pipeline raises.
- `Labels` (labels.dfy): the string order by which the group-by sorts its keys.
- `CountryValuation` (country_valuation.dfy): the table logic of `area_by_country` once the zonal statistics are known, as functions. It covers:
  - label-column validation;
  - group-by-sum per label;
  - hectares;
  - price cleaning;
  - the inner join;
  - `ntfp = area × rate`;
  - dropping rows without a value (zeros are kept);
  - the fixed output columns.

  Its lemmas state:
  - exactly which rows the output holds;
  - the worked example of one country with 4 pixels of 300 m × 300 m at 1000 per hectare, which gives 36 ha and 36000.
- `PricePreprocess` (price_preprocess.dfy): the price script as functions over column lists and row sequences, plus a row-by-row reference definition of its output and the lemmas that connect the two. The script's steps are:
  - the GEP column selection;
  - the left merge on the ISO3 code;
  - drop, rename, drop;
  - the identifier-first reorder.
- `Stages` (stages.dfy): the stage functions as methods of a `Workspace` class whose `files` map stands for the file system. In every stage:
  - an existing output path means nothing changes;
  - a missing or wrong-kind input is an error;
  - the new map is stated exactly.

  `UnionBuffers` reads its inputs in a loop. `AreaByCountry` computes step by step and is proved to agree with `CountryTable`.

The geospatial work the stages hand to libraries enters the methods as parameters:

- the warped grid;
- the rasterised polygon;
- the zonal statistics per polygon.

## Model

| member | source | states |
|---|---|---|
| `PixelOps.ForestMaskOp` | ntfp_functions.py:29-34 | the cell result is 0 or 1, and 1 exactly when 50 ≤ v ≤ 90 |
| `PixelOps.ForestMask` | ntfp_functions.py:29-34 | the mask grid has the land-cover grid's shape; each cell is 0 or 1, and 1 iff that land-cover cell is a forest class |
| `PixelOps.ForestMaskSumCountsForest` | ntfp_functions.py:31-32 | the sum of the mask grid is the number of forest cells, which is why the mask holds 1 and not the class code |
| `PixelOps.WorkedExampleForestPixels` | ntfp_functions.py:29-34 | a 4×4 grid with a 2×2 block of class 60 in other classes has mask sum 4 |
| `PixelOps.ApplyMaskOp` | ntfp_functions.py:189-194 | a cell keeps the raster value where the mask is 1 and takes nodata for any other mask value |
| `PixelOps.ApplyMask` | ntfp_functions.py:189-194 | for masks of the raster's shape, the result has that shape, and each cell is the raster cell where the mask is 1 and nodata elsewhere |
| `PixelOps.ApplyFullMaskIsIdentity` | ntfp_functions.py:189-194 | a mask of all ones leaves the raster unchanged |
| `TempPaths.TempMaskPathUnchangedIff` | ntfp_functions.py:179 | the temporary path equals the output path if and only if the output path contains no ".tif" |
| `TempPaths.TempMaskPathOfTif` | ntfp_functions.py:179 | a path that is a stem without ".tif" followed by ".tif" gets the stem followed by "_temp_mask.tif" |
| `TempPaths.ReplaceAllSplit` | ntfp_functions.py:179 | the replace scans left to right: for any text in which no occurrence starts before a given one, that text is kept, the occurrence is replaced, and the rest is replaced in turn |
| `TempPaths.TempMaskPathEveryOccurrence` | ntfp_functions.py:179 | every ".tif" of the path is replaced, not only the last: whatever precedes the first ".tif" (full stops included) is kept |
| `TempPaths.ReplaceAllAbsent` | ntfp_functions.py:179 | a string without the pattern is returned unchanged |
| `TempPaths.ReplaceAllLength` | ntfp_functions.py:179 | replacing by a longer string never shortens, and strictly lengthens a string that holds the pattern |
| `TempPaths.TempMaskPathExample` | ntfp_functions.py:179 | the pipeline's "forest_10km_masked.tif" gets "forest_10km_masked_temp_mask.tif" |
| `TempPaths.TempMaskPathExampleNoTif` | ntfp_functions.py:179 | "masked_gpkg" is its own temporary path |
| `TempPaths.SafeTempMaskPath` | ntfp_functions.py:179 | the corrected temporary path is never the output path, and is the source's path whenever that holds ".tif" |
| `Tables.SelectColumns` | price_preprocess.py:9 | `df[cols]`, here and for the final reorder at l.35: selecting columns fails, listing the absent ones in order, iff one is absent; otherwise the rows keep their count and carry exactly the selected cells |
| `Tables.ParseNumericOfDecimal` | ntfp_functions.py:305-307 | the text of a whole number, with or without a minus sign, parses to that number |
| `Tables.ParseNumericRejectsWords` | ntfp_functions.py:305-307 | text ending in a lower-case letter parses to missing, as for the words of a price column; `inf` and `infinity` differ from pandas, see Left out |
| `Labels.LessTotal` | ntfp_functions.py:273-280 | any two distinct labels are ordered one way or the other |
| `Labels.LessTransitive` | ntfp_functions.py:273-280 | the label order is transitive |
| `Labels.LessIrreflexive` | ntfp_functions.py:273-280 | no label precedes itself |
| `CountryValuation.CountryTable` | ntfp_functions.py:241-305 | a vector without the label column fails with its columns; only then is the CSV checked; a layer without polygons then fails at the aggregation with a KeyError naming `count` and `sum`; a missing 2019 column fails the price cleaning; the result is a table iff the layer has polygons and all needed columns are present |
| `CountryValuation.GroupBySumCorrect` | ntfp_functions.py:273-283 | the aggregate is sorted by label and has one row per distinct (non-missing) label, and each row's sum and count are the totals over that label's polygons |
| `CountryValuation.GroupBySumLookup` | ntfp_functions.py:273-280 | looking a label up in the aggregate gives the totals over its polygons when some polygon has it and nothing otherwise |
| `CountryValuation.GroupBySumExample` | ntfp_functions.py:273-280 | two polygons of one label with sums 100 and 150 give one row with sum 250 |
| `CountryValuation.MissingSumIsZeroArea` | ntfp_functions.py:291-292 | a label whose only polygon has a missing sum gets 0 pixels and 0 hectares |
| `CountryValuation.PixelAreaHa` | ntfp_functions.py:288-289 | a pixel's area in hectares is non-negative whatever the signs of the pixel sizes |
| `CountryValuation.AreaHa` | ntfp_functions.py:288-292 | the area is non-negative and zero for zero pixels |
| `CountryValuation.AreaMonotone` | ntfp_functions.py:288-292 | more pixels never give less area |
| `CountryValuation.AreaAdditive` | ntfp_functions.py:291-292 | the area of a sum of pixel counts is the sum of the areas |
| `CountryValuation.AreaExample` | ntfp_functions.py:288-292 | 4 pixels of 300 × -300 m are 36 ha |
| `CountryValuation.AreaTable` | ntfp_functions.py:291-292 | one area row per aggregated label, with the pixel sum as count and its area in hectares |
| `CountryValuation.CleanRows` | ntfp_functions.py:301-307 | a cleaned price row comes from a price row with a label, and every such row yields one; its rate is the parsed 2019 cell |
| `CountryValuation.CleanPrices` | ntfp_functions.py:301-310 | a missing 2019 column fails; the cleaning succeeds iff the 2019, id, label and name columns are present, and then yields the cleaned rows |
| `CountryValuation.MatchRows` | ntfp_functions.py:315-320 | the joined rows of one area row are exactly its pairs with the price rows of the same label |
| `CountryValuation.InnerJoin` | ntfp_functions.py:315-320 | a joined row exists iff an area row and a price row share its label |
| `CountryValuation.Ntfp` | ntfp_functions.py:325-327 | the value is present iff the rate is, and is area × rate |
| `CountryValuation.ProjectValue` | ntfp_functions.py:325-344 | an output row's ntfp is its area times its rate |
| `CountryValuation.KeepValued` | ntfp_functions.py:331-344 | the output rows are exactly the projections of joined rows whose value is present |
| `CountryValuation.CountryTableSound` | ntfp_functions.py:273-344 | every output row is a polygon label, with the hectares of its summed pixels and a matching priced row, valued at area × rate |
| `CountryValuation.CountryTableComplete` | ntfp_functions.py:273-344 | every such valued country is in the output |
| `CountryValuation.CountryTableRows` | ntfp_functions.py:241-344 | a successful table holds a row iff it is a valued country |
| `CountryValuation.ZeroValueKept` | ntfp_functions.py:331-334 | a country priced at 0 is kept, with ntfp 0 |
| `CountryValuation.UnpricedCountryDropped` | ntfp_functions.py:315-320 | a label with no price row has no output row |
| `CountryValuation.WorkedExample` | ntfp_functions.py:288-344 | one country with 4 pixels of 300 × -300 m at 1000 per hectare gives 36 ha and 36000 |
| `PricePreprocess.WithoutMembers` | price_preprocess.py:34 | the kept columns are exactly the columns that are not dropped |
| `PricePreprocess.MatchesOf` | price_preprocess.py:8-13 | the matches of a key are exactly the rows carrying it, each as many times as the right table holds it, so a key on k rows gives k matches |
| `PricePreprocess.Drop` | price_preprocess.py:16 | dropping an absent column is a KeyError naming it; otherwise the column leaves the list and every row |
| `PricePreprocess.Rename` | price_preprocess.py:19 | the renamed column keeps its place and its cells; a name that is not a column is ignored |
| `PricePreprocess.OtherColumns` | price_preprocess.py:19-35 | after the rename and the name drop, the non-identifier columns are the price columns without the code and the name, in order |
| `PricePreprocess.SelectedColumnsOrder` | price_preprocess.py:33-35 | the final selection is the three identifiers followed by the kept price columns |
| `PricePreprocess.SelectedColumnsPresent` | price_preprocess.py:33-35 | every column the final selection asks for exists, so it cannot fail |
| `PricePreprocess.FinalRowShape` | price_preprocess.py:15-35 | a merged row, after drop, rename, drop and selection, has the price row's code as label, the GEP id and name, and the price row's other cells |
| `PricePreprocess.PreprocessNoName` | price_preprocess.py:22 | a price table without a country name fails at the second drop |
| `PricePreprocess.PreprocessResult` | price_preprocess.py:8-35 | the script fails iff a GEP identifier, the code or the name column is absent, with the first failing step's error; otherwise the output has the identifiers first and then the kept price columns, and its rows are, per price row in order, one shaped row per GEP match, or one with missing id and name when there is none |
| `PricePreprocess.ExpectedRowsCount` | price_preprocess.py:8-13 | each price row yields as many rows as it has GEP matches, and at least one |
| `PricePreprocess.MatchedRowGetsIds` | price_preprocess.py:8-13 | a price row matching a GEP row gets that row's id and name |
| `PricePreprocess.EveryPriceRowKept` | price_preprocess.py:24-30 | every price row reaches the output with its code as label and its other cells unchanged, so rows whose year columns are all zero are kept |
| `PricePreprocess.OutputColumnsDistinct` | price_preprocess.py:33-35 | the output columns are distinct, so exactly one label column remains |
| `PricePreprocess.PreprocessWellFormed` | price_preprocess.py:15-35 | the output is well formed and starts with id, label, name; it has no country-name or code column; it has at least as many rows as the price table |
| `Stages.FirstNonVector` | ntfp_functions.py:153-157 | the first input of the list that is not a readable layer, or none when all are |
| `Stages.MaskedRaster` | ntfp_functions.py:189-204 | the masked raster keeps the input's shape and nodata, and holds the input's cells inside the mask and nodata outside |
| `Stages.Workspace.CreateForestMask` | ntfp_functions.py:17-50 | an existing output means nothing changes; a missing input raster fails; otherwise exactly the output path gets the forest mask with nodata 0 |
| `Stages.Workspace.ReprojectRaster` | ntfp_functions.py:53-102 | guard; the output gets the warped grid at the target pixel size and, when the nodata fix succeeds, the input's nodata value; for an input without one, the warp's value stays, because `int(None)` fails inside the `try` |
| `Stages.Workspace.ReprojectVector` | ntfp_functions.py:105-119 | guard; the output layer has the input's columns |
| `Stages.Workspace.BufferVector` | ntfp_functions.py:122-138 | guard; the output is one dissolved geometry-only layer |
| `Stages.Workspace.UnionBuffers` | ntfp_functions.py:141-164 | guard; the first unreadable input fails the stage with nothing written; otherwise the union layer is written |
| `Stages.Workspace.MaskRasterByPolygon` | ntfp_functions.py:167-209 | guard; read errors in order; the files are those of writing the temporary mask, writing the masked raster and removing the temporary file, with the masked raster kept |
| `Stages.Workspace.AreaByCountry` | ntfp_functions.py:212-346 | guard; the country layer, the CSV and the raster are read in that order; the stage fails with the table's error or writes exactly the country table to the output; a layer without polygons fails and writes nothing |
| `Stages.OutputLostWithoutTif` | ntfp_functions.py:179-207 | as written, an output path without ".tif" is its own temporary path, and the clean-up removes the masked raster |
| `Stages.OutputKeptWithTif` | ntfp_functions.py:179-207 | as written, an output path with ".tif" keeps its masked raster and the temporary file is removed |
| `Stages.SafeMaskKeepsOutput` | ntfp_functions.py:179-207 | with the corrected temporary path the masked raster is kept, the temporary file is gone and no other path changes |
| `Stages.PipelineMaskKeepsOutput` | ntfp_functions.py:179 | the pipeline's "forest_10km_masked.tif" keeps its masked raster |
| `Stages.RerunCreateForestMask` | ntfp_functions.py:23-25 | a second run of the forest-mask stage after one that did not fail is skipped and changes nothing |
| `Stages.RerunAreaByCountry` | ntfp_functions.py:220-222 | a second run of the valuation stage after one that did not fail is skipped and changes nothing, whatever statistics it is given |

## Left out

- Block-wise raster I/O, GDAL data types and the `uint8` cast: grids are in-memory `seq<seq<int>>`, and mask cells are 0 or 1 in any type.
- Warping, vector reprojection, buffering, `unary_union`, polygon rasterisation and `zonal_stats`. They are computational geometry done by libraries. Their results enter as parameters:
  - the warped grid of `ReprojectRaster`;
  - the `polygonMask` of `MaskRasterByPolygon`, required to have the input raster's shape, as the rasteriser aligns it;
  - the per-polygon statistics of `AreaByCountry`.
- Logging, the CSV and GPKG formats and CRS metadata. Files are values in a map keyed by path.
- ntfp_tasks.py and run_ntfp.py (paths, constants and task wiring) are not part of this model. Only the masked-raster file name is used, in a worked example.
- Floating-point rounding: areas and values are exact reals.
- Stages.Workspace.ReprojectRaster: the `gdal_edit.py` subprocess and its two exception branches are one boolean, `nodataFixed`. A raster is one band, so the fallback 0 for an empty per-band nodata list (a raster without bands) is not modelled. `int()` truncation of a fractional nodata value is not modelled, because nodata values are integers here.
- Stages.Workspace.MaskRasterByPolygon: when the input raster has no nodata value, the stage is an error (`NoNodataValue`), with the temporary mask left behind. numpy would build an object array there, which the raster writer cannot store. The input is read before the temporary mask is written, so a temporary path equal to the input path is not modelled.
- Stages.Workspace.MaskRasterByPolygon: uses the corrected temporary path. The path as written is `TempPaths.TempMaskPath`, and its effect is stated by `Stages.OutputLostWithoutTif` and `Stages.OutputKeptWithTif`.
- Tables.ParseNumeric: accepts only plain decimals with an optional sign (`12`, `-3.5`, `.5`, `7.`). pandas also reads exponents, `inf`, `infinity` and surrounding spaces; those texts become missing here.
- Tables.ParseNumericRejectsWords: pandas reads `inf` and `infinity`, in any case and with an optional sign, as plus or minus infinity. The lemma states they parse to missing, as the decimal-only parser makes them.
- CountryValuation.CountryTableRows: states which rows the output holds, not their order or multiplicity. In the source the order is by label, as the group-by sorts it. A label priced in k rows of the price table appears k times.
- The `count` statistic is summed per label as the source does. The output does not use it.
- PricePreprocess.Preprocess: requires the price table to have no column named like a GEP identifier. pandas would otherwise suffix the clashing names (`_x`, `_y`), and the source never meets that case.
- PricePreprocess.PreprocessResult: requires a well-formed price table (distinct columns, every row having exactly those columns), as the frames the script reads are: `pd.read_csv` (price_preprocess.py:4-5) makes duplicate header names distinct ("X", "X.1") and gives every row every column.
- The disabled all-zero filter (price_preprocess.py:27-30) is modelled as the absence of any filter. `PricePreprocess.EveryPriceRowKept` states it. The year-column list it would have used is not modelled.
- The docstring of `area_by_country` says that countries with zero value are filtered out. The code keeps them, because the `ntfp > 0` test is commented out. The model follows the code (`CountryValuation.ZeroValueKept`).

## Findings

| source | as written | input that shows it | evidently intended | confidence | as-written member | corrected member |
|---|---|---|---|---|---|---|
| ntfp_functions.py:179 | the temporary mask path is the output path with ".tif" replaced, and l.206-207 delete the temporary file after masking | an output path without ".tif", e.g. "masked_gpkg": the temporary path is the output path itself, so the mask is rasterised onto it and the clean-up deletes the masked raster | a temporary path that differs from the output, e.g. the output path with "_temp_mask.tif" appended | not executed; the pipeline's own output path ends in ".tif" and is not affected. This assumes the raster calculator accepts a target that is also one of its inputs. If it refuses, the stage fails after the polygon mask was rasterised onto the output path, and a rerun skips the stage because that path exists, so the polygon mask stays in place of the masked raster. Either way the masked raster is lost | `Stages.OutputLostWithoutTif` | `TempPaths.SafeTempMaskPath` |
