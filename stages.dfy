/** The pipeline stages of ntfp_functions.py as methods over a workspace: a map from path to
    what the file at that path holds. Every stage first returns when its output path already
    exists, so a rerun of the pipeline recomputes nothing. The geospatial work the stages
    delegate (warping, reprojection, buffering, rasterising a polygon, zonal statistics) is
    passed in as the result of that work; the stages model which files are read, written
    and removed, and the pixel and table logic in between. */
module Stages {
  import opened Wrappers
  import opened Tables
  import opened PixelOps
  import opened TempPaths
  import opened CountryValuation

  /** What a file of the workspace holds. */
  datatype Artifact =
    | Raster(grid: Grid, nodata: Option<int>, pixelWidth: real, pixelHeight: real)
    | Vector(columns: seq<string>)
    | Csv(table: Table)
    | ValueCsv(rows: seq<CountryValue>)

  /** How a stage ended: skipped because its output exists, written, or failed. */
  datatype Outcome = Skipped | Written | Failed(error: Error)

  /** The nodata value of the forest mask raster. */
  const ForestMaskNodata: int := 0

  /** The only column of a buffered or unioned layer. */
  const GeometryColumn: string := "geometry"

  predicate IsRaster(files: map<string, Artifact>, path: string) {
    path in files && files[path].Raster?
  }

  predicate IsVector(files: map<string, Artifact>, path: string) {
    path in files && files[path].Vector?
  }

  predicate IsCsv(files: map<string, Artifact>, path: string) {
    path in files && files[path].Csv?
  }

  /** The first of `paths` that is not a vector layer, if any. */
  function FirstNonVector(files: map<string, Artifact>, paths: seq<string>): (k: Option<nat>)
    ensures k.None? <==> forall j :: 0 <= j < |paths| ==> IsVector(files, paths[j])
    ensures k.Some? ==> k.value < |paths| && !IsVector(files, paths[k.value])
                        && forall j :: 0 <= j < k.value ==> IsVector(files, paths[j])
  {
    if paths == [] then None
    else if !IsVector(files, paths[0]) then Some(0)
    else match FirstNonVector(files, paths[1..])
      case None => None
      case Some(k) => Some(k + 1)
  }

  /** The masked raster: the input's cells inside the polygon mask, its nodata elsewhere. */
  function MaskedRaster(input: Artifact, polygonMask: Grid): (a: Artifact)
    requires input.Raster? && input.nodata.Some? && SameShape(polygonMask, input.grid)
    ensures a.Raster? && SameShape(a.grid, input.grid) && a.nodata == input.nodata
    ensures forall i, j :: 0 <= i < |a.grid| && 0 <= j < |a.grid[i]| ==>
      a.grid[i][j] == if polygonMask[i][j] == 1 then input.grid[i][j] else input.nodata.value
  {
    Raster(ApplyMask(polygonMask, input.grid, input.nodata.value), input.nodata,
           input.pixelWidth, input.pixelHeight)
  }

  /** The files after the masking stage with temporary mask path `temp`: the rasterised
      polygon is written to `temp`, the masked raster to `output`, and `temp` is removed. */
  function MaskFiles(files: map<string, Artifact>, input: string, polygonMask: Grid,
                     output: string, temp: string): map<string, Artifact>
    requires IsRaster(files, input) && files[input].nodata.Some?
    requires SameShape(polygonMask, files[input].grid)
  {
    var src := files[input];
    var withTemp := files[temp := Raster(polygonMask, None, src.pixelWidth, src.pixelHeight)];
    var withOutput := withTemp[output := MaskedRaster(src, polygonMask)];
    withOutput - {temp}
  }

  class Workspace {
    var files: map<string, Artifact>

    constructor(initial: map<string, Artifact>)
      ensures files == initial
    {
      files := initial;
    }

    /** create_forest_mask: the land-cover raster classified into forest (1) and other (0). */
    method CreateForestMask(input: string, output: string) returns (r: Outcome)
      modifies this
      ensures output in old(files) ==> r == Skipped && files == old(files)
      ensures output !in old(files) && !IsRaster(old(files), input) ==>
        r == Failed(ReadFailed(input)) && files == old(files)
      ensures output !in old(files) && IsRaster(old(files), input) ==>
        var src := old(files)[input];
        r == Written
        && files == old(files)[output := Raster(ForestMask(src.grid), Some(ForestMaskNodata),
                                                src.pixelWidth, src.pixelHeight)]
    {
      if output in files {
        return Skipped;
      }
      if !IsRaster(files, input) {
        return Failed(ReadFailed(input));
      }
      var src := files[input];
      files := files[output := Raster(ForestMask(src.grid), Some(ForestMaskNodata),
                                      src.pixelWidth, src.pixelHeight)];
      r := Written;
    }

    /** reproject_raster: `warped` is what the warp produces on the target grid. The nodata
        value is read per band, so a band without one yields `None` (a one-element list is
        truthy, and the fallback 0 is never taken); `int(None)` then fails inside the `try`,
        whose handler leaves the warp's value. So the output carries the input's nodata value
        when it has one and the fix succeeds, and otherwise what the warp wrote (`warpNodata`). */
    method ReprojectRaster(input: string, output: string, warped: Grid,
                           pixelWidth: real, pixelHeight: real,
                           nodataFixed: bool, warpNodata: Option<int>) returns (r: Outcome)
      modifies this
      ensures output in old(files) ==> r == Skipped && files == old(files)
      ensures output !in old(files) && !IsRaster(old(files), input) ==>
        r == Failed(ReadFailed(input)) && files == old(files)
      ensures output !in old(files) && IsRaster(old(files), input) ==>
        var n := old(files)[input].nodata;
        r == Written
        && files == old(files)[output := Raster(warped,
                                                if nodataFixed && n.Some? then n else warpNodata,
                                                pixelWidth, pixelHeight)]
    {
      if output in files {
        return Skipped;
      }
      if !IsRaster(files, input) {
        return Failed(ReadFailed(input));
      }
      var inputNodata := files[input].nodata;
      files := files[output := Raster(warped, warpNodata, pixelWidth, pixelHeight)];
      // `int(None)` raises inside the try, and the handler keeps the warp's nodata
      if nodataFixed && inputNodata.Some? {
        files := files[output := Raster(warped, inputNodata, pixelWidth, pixelHeight)];
      }
      r := Written;
    }

    /** reproject_vector: the layer in the target projection, with the same columns. */
    method ReprojectVector(input: string, output: string) returns (r: Outcome)
      modifies this
      ensures output in old(files) ==> r == Skipped && files == old(files)
      ensures output !in old(files) && !IsVector(old(files), input) ==>
        r == Failed(ReadFailed(input)) && files == old(files)
      ensures output !in old(files) && IsVector(old(files), input) ==>
        r == Written && files == old(files)[output := old(files)[input]]
    {
      if output in files {
        return Skipped;
      }
      if !IsVector(files, input) {
        return Failed(ReadFailed(input));
      }
      files := files[output := Vector(files[input].columns)];
      r := Written;
    }

    /** buffer_vector: one dissolved polygon, so only the geometry column is left. */
    method BufferVector(input: string, output: string, distance: real) returns (r: Outcome)
      modifies this
      ensures output in old(files) ==> r == Skipped && files == old(files)
      ensures output !in old(files) && !IsVector(old(files), input) ==>
        r == Failed(ReadFailed(input)) && files == old(files)
      ensures output !in old(files) && IsVector(old(files), input) ==>
        r == Written && files == old(files)[output := Vector([GeometryColumn])]
    {
      if output in files {
        return Skipped;
      }
      if !IsVector(files, input) {
        return Failed(ReadFailed(input));
      }
      files := files[output := Vector([GeometryColumn])];
      r := Written;
    }

    /** union_buffers: every layer is read in order, and the first one that cannot be read
        stops the stage; the union is one polygon in a geometry-only layer. */
    method UnionBuffers(paths: seq<string>, output: string) returns (r: Outcome)
      modifies this
      ensures output in old(files) ==> r == Skipped && files == old(files)
      ensures output !in old(files) && FirstNonVector(old(files), paths).Some? ==>
        r == Failed(ReadFailed(paths[FirstNonVector(old(files), paths).value])) && files == old(files)
      ensures output !in old(files) && FirstNonVector(old(files), paths).None? ==>
        r == Written && files == old(files)[output := Vector([GeometryColumn])]
    {
      if output in files {
        return Skipped;
      }
      var i := 0;
      while i < |paths|
        invariant 0 <= i <= |paths|
        invariant files == old(files)
        invariant forall j :: 0 <= j < i ==> IsVector(files, paths[j])
      {
        if !IsVector(files, paths[i]) {
          return Failed(ReadFailed(paths[i]));
        }
        i := i + 1;
      }
      files := files[output := Vector([GeometryColumn])];
      r := Written;
    }

    /** mask_raster_by_polygon, with a temporary mask path that never equals the output.
        `polygonMask` is the rasterised polygon, aligned with the input raster. */
    method MaskRasterByPolygon(input: string, polygon: string, output: string, polygonMask: Grid)
      returns (r: Outcome)
      requires IsRaster(files, input) ==> SameShape(polygonMask, files[input].grid)
      modifies this
      ensures output in old(files) ==> r == Skipped && files == old(files)
      ensures output !in old(files) && !IsRaster(old(files), input) ==>
        r == Failed(ReadFailed(input)) && files == old(files)
      ensures output !in old(files) && IsRaster(old(files), input) && !IsVector(old(files), polygon) ==>
        r == Failed(ReadFailed(polygon)) && files == old(files)
      ensures output !in old(files) && IsRaster(old(files), input) && IsVector(old(files), polygon)
              && old(files)[input].nodata.None? ==>
        var src := old(files)[input];
        && r == Failed(NoNodataValue(input))
        && files == old(files)[SafeTempMaskPath(output) := Raster(polygonMask, None, src.pixelWidth, src.pixelHeight)]
      ensures output !in old(files) && IsRaster(old(files), input) && IsVector(old(files), polygon)
              && old(files)[input].nodata.Some? ==>
        && r == Written
        && files == MaskFiles(old(files), input, polygonMask, output, SafeTempMaskPath(output))
        && output in files && files[output] == MaskedRaster(old(files)[input], polygonMask)
    {
      if output in files {
        return Skipped;
      }
      if !IsRaster(files, input) {
        return Failed(ReadFailed(input));
      }
      var src := files[input];
      var temp := SafeTempMaskPath(output);
      if !IsVector(files, polygon) {
        return Failed(ReadFailed(polygon));
      }
      files := files[temp := Raster(polygonMask, None, src.pixelWidth, src.pixelHeight)];
      if src.nodata.None? {
        return Failed(NoNodataValue(input));
      }
      files := files[output := MaskedRaster(src, polygonMask)];
      if temp in files {
        files := files - {temp};
      }
      r := Written;
    }

    /** area_by_country: read the country layer, the price table and the raster, check the
        label columns, aggregate the zonal statistics `stats` per label (a layer without
        polygons fails there), convert to hectares, clean and join the prices, value the
        forest and write the table. */
    method AreaByCountry(raster: string, countries: string, prices: string, output: string,
                         stats: seq<PolygonStat>) returns (r: Outcome)
      modifies this
      ensures output in old(files) ==> r == Skipped && files == old(files)
      ensures output !in old(files) && !IsVector(old(files), countries) ==>
        r == Failed(ReadFailed(countries)) && files == old(files)
      ensures output !in old(files) && IsVector(old(files), countries) && !IsCsv(old(files), prices) ==>
        r == Failed(ReadFailed(prices)) && files == old(files)
      ensures output !in old(files) && IsVector(old(files), countries) && IsCsv(old(files), prices)
              && !IsRaster(old(files), raster) ==>
        r == Failed(ReadFailed(raster)) && files == old(files)
      ensures output !in old(files) && IsVector(old(files), countries) && IsCsv(old(files), prices)
              && IsRaster(old(files), raster) ==>
        var t := CountryTable(old(files)[countries].columns, stats, old(files)[prices].table,
                              old(files)[raster].pixelWidth, old(files)[raster].pixelHeight);
        && (t.Err? ==> r == Failed(t.error) && files == old(files))
        && (t.Ok? ==> r == Written && files == old(files)[output := ValueCsv(t.value)])
    {
      if output in files {
        return Skipped;
      }
      if !IsVector(files, countries) {
        return Failed(ReadFailed(countries));
      }
      if !IsCsv(files, prices) {
        return Failed(ReadFailed(prices));
      }
      if !IsRaster(files, raster) {
        return Failed(ReadFailed(raster));
      }
      var columns := files[countries].columns;
      var table := files[prices].table;
      var info := files[raster];
      if LabelColumn !in columns {
        return Failed(MissingLabelColumn(VectorLayer, columns));
      }
      if LabelColumn !in table.columns {
        return Failed(MissingLabelColumn(PriceCsv, table.columns));
      }
      if stats == [] {
        return Failed(ColumnsNotFound(StatColumns));
      }
      var perCountry := GroupBySum(stats);
      var areas := AreaTable(perCountry, info.pixelWidth, info.pixelHeight);
      var clean := CleanPrices(table);
      if clean.Err? {
        return Failed(clean.error);
      }
      var joined := InnerJoin(areas, clean.value);
      var valued := KeepValued(joined);
      files := files[output := ValueCsv(valued)];
      r := Written;
    }
  }

  // ---------------------------------------------------------------------------------------
  // The temporary mask path, as written and corrected

  /** As written, the temporary mask path is the output path with ".tif" replaced; when the
      output path has no ".tif" the two coincide and the clean-up removes the output. */
  lemma OutputLostWithoutTif(files: map<string, Artifact>, input: string, polygonMask: Grid, output: string)
    requires IsRaster(files, input) && files[input].nodata.Some?
    requires SameShape(polygonMask, files[input].grid)
    requires !Contains(output, Tif)
    ensures output !in MaskFiles(files, input, polygonMask, output, TempMaskPath(output))
  {
    TempMaskPathUnchangedIff(output);
  }

  /** An output path that does contain ".tif" keeps its masked raster, as written. */
  lemma OutputKeptWithTif(files: map<string, Artifact>, input: string, polygonMask: Grid, output: string)
    requires IsRaster(files, input) && files[input].nodata.Some?
    requires SameShape(polygonMask, files[input].grid)
    requires Contains(output, Tif)
    ensures var after := MaskFiles(files, input, polygonMask, output, TempMaskPath(output));
      output in after && after[output] == MaskedRaster(files[input], polygonMask)
      && TempMaskPath(output) !in after
  {
    TempMaskPathUnchangedIff(output);
  }

  /** With the corrected temporary path the masked raster is always kept, the temporary
      file is gone, and every other path is as before. */
  lemma SafeMaskKeepsOutput(files: map<string, Artifact>, input: string, polygonMask: Grid, output: string)
    requires IsRaster(files, input) && files[input].nodata.Some?
    requires SameShape(polygonMask, files[input].grid)
    ensures var temp := SafeTempMaskPath(output);
      var after := MaskFiles(files, input, polygonMask, output, temp);
      && output in after && after[output] == MaskedRaster(files[input], polygonMask)
      && temp !in after
      && forall p :: p != output && p != temp ==> (p in after <==> p in files)
                                                  && (p in files ==> after[p] == files[p])
  {
  }

  /** The example path of the pipeline: the temporary mask sits beside the masked raster. */
  lemma PipelineMaskKeepsOutput(files: map<string, Artifact>, input: string, polygonMask: Grid)
    requires IsRaster(files, input) && files[input].nodata.Some?
    requires SameShape(polygonMask, files[input].grid)
    ensures var after := MaskFiles(files, input, polygonMask, "forest_10km_masked.tif",
                                   TempMaskPath("forest_10km_masked.tif"));
      "forest_10km_masked.tif" in after && "forest_10km_masked_temp_mask.tif" !in after
  {
    TempMaskPathExample();
  }

  // ---------------------------------------------------------------------------------------
  // Reruns

  /** Running the forest-mask stage twice on a fresh workspace: the second run is skipped
      and changes nothing, and the first one wrote the mask when the input was a raster. */
  method RerunCreateForestMask(initial: map<string, Artifact>, input: string, output: string)
    returns (first: Outcome, second: Outcome, afterFirst: map<string, Artifact>, afterSecond: map<string, Artifact>)
    ensures first != Skipped <==> output !in initial
    ensures first.Failed? <==> output !in initial && !IsRaster(initial, input)
    ensures !first.Failed? ==> second == Skipped && afterSecond == afterFirst
    ensures first == Written ==>
              && output in afterFirst && afterFirst[output].Raster?
              && afterFirst[output].grid == ForestMask(initial[input].grid)
  {
    var w := new Workspace(initial);
    first := w.CreateForestMask(input, output);
    afterFirst := w.files;
    second := w.CreateForestMask(input, output);
    afterSecond := w.files;
  }

  /** The same for the country valuation stage: once its table is written, a rerun is
      skipped whatever the inputs now hold. */
  method RerunAreaByCountry(initial: map<string, Artifact>, raster: string, countries: string,
                            prices: string, output: string, stats: seq<PolygonStat>, laterStats: seq<PolygonStat>)
    returns (first: Outcome, second: Outcome, afterFirst: map<string, Artifact>, afterSecond: map<string, Artifact>)
    ensures output in initial ==> first == Skipped && afterFirst == initial
    ensures !first.Failed? ==> second == Skipped && afterSecond == afterFirst
    ensures first == Written ==> output in afterFirst && afterFirst[output].ValueCsv?
  {
    var w := new Workspace(initial);
    first := w.AreaByCountry(raster, countries, prices, output, stats);
    afterFirst := w.files;
    second := w.AreaByCountry(raster, countries, prices, output, laterStats);
    afterSecond := w.files;
  }
}
