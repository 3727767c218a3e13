/** The country valuation table of `area_by_country` (ntfp_functions.py:241-344), from the
    point where the zonal statistics are known: one (label, sum, count) record per country
    polygon. The steps are those of the source: validate the label columns, aggregate per
    label, convert pixels to hectares, clean the price table, inner-join on the label,
    value the forest, drop rows without a value and project onto the output columns. */
module CountryValuation {
  import opened Wrappers
  import opened Tables
  import opened Labels

  const YearColumn: string := "2019"
  const SquareMetresPerHectare: real := 10000.0

  /** What the zonal statistics report for one country polygon: its label, the sum of the
      masked forest raster over it (absent when it covers no valid pixel) and its pixel count. */
  datatype PolygonStat = PolygonStat(iso3: Option<string>, sum: Option<nat>, count: nat)

  /** One row of the per-label aggregate. */
  datatype CountryStat = CountryStat(iso3: string, sum: nat, count: nat)

  datatype AreaRow = AreaRow(iso3: string, forestPixelCount: nat, forestAreaHa: real)

  /** A cleaned price row: id, label and name as read, and the 2019 value per hectare. */
  datatype PriceRow = PriceRow(id: Cell, iso3: Cell, name: Cell, valuePerHectare: Option<real>)

  /** A row of the inner join of the area table with the price table. */
  datatype JoinedRow = JoinedRow(iso3: string, forestAreaHa: real, id: Cell, name: Cell, valuePerHectare: Option<real>)

  /** A row of the output table, in its column order. */
  datatype CountryValue = CountryValue(id: Cell, iso3: string, name: Cell, forestAreaHa: real, valuePerHectare: real, ntfp: real)

  // ---------------------------------------------------------------------------------------
  // Group-by-sum per label (pandas: missing labels dropped, keys sorted, missing sums skipped)

  /** The contribution of one polygon to its label's sum: pandas' `sum` skips a missing value. */
  function PixelSum(p: PolygonStat): nat {
    if p.sum.Some? then p.sum.value else 0
  }

  predicate HasLabel(ps: seq<PolygonStat>, l: string) {
    exists i :: 0 <= i < |ps| && ps[i].iso3 == Some(l)
  }

  /** Reference definition: the sum over all polygons labelled `l`. */
  function PixelSumFor(ps: seq<PolygonStat>, l: string): nat {
    if ps == [] then 0
    else (if ps[0].iso3 == Some(l) then PixelSum(ps[0]) else 0) + PixelSumFor(ps[1..], l)
  }

  /** Reference definition: the total pixel count over all polygons labelled `l`. */
  function CountFor(ps: seq<PolygonStat>, l: string): nat {
    if ps == [] then 0
    else (if ps[0].iso3 == Some(l) then ps[0].count else 0) + CountFor(ps[1..], l)
  }

  predicate StrictlySorted(gs: seq<CountryStat>) {
    forall i, j :: 0 <= i < j < |gs| ==> Less(gs[i].iso3, gs[j].iso3)
  }

  /** The first row carrying a label. */
  function Lookup(gs: seq<CountryStat>, l: string): Option<CountryStat> {
    if gs == [] then None
    else if gs[0].iso3 == l then Some(gs[0])
    else Lookup(gs[1..], l)
  }

  function AddTo(g: Option<CountryStat>, l: string, s: nat, c: nat): CountryStat {
    match g
    case None => CountryStat(l, s, c)
    case Some(x) => CountryStat(l, x.sum + s, x.count + c)
  }

  /** Add one polygon's figures to a label-sorted aggregate. */
  function Insert(gs: seq<CountryStat>, l: string, s: nat, c: nat): seq<CountryStat> {
    if gs == [] then [CountryStat(l, s, c)]
    else if gs[0].iso3 == l then [CountryStat(l, gs[0].sum + s, gs[0].count + c)] + gs[1..]
    else if Less(l, gs[0].iso3) then [CountryStat(l, s, c)] + gs
    else [gs[0]] + Insert(gs[1..], l, s, c)
  }

  /** `groupby('iso3_r250_label', as_index=False).agg({'sum': 'sum', 'count': 'sum'})`. */
  function GroupBySum(ps: seq<PolygonStat>): seq<CountryStat> {
    if ps == [] then []
    else
      var rest := GroupBySum(ps[1..]);
      match ps[0].iso3
      case None => rest
      case Some(l) => Insert(rest, l, PixelSum(ps[0]), ps[0].count)
  }

  lemma {:induction false} LookupAbsentBelow(gs: seq<CountryStat>, l: string)
    requires StrictlySorted(gs) && gs != [] && Less(l, gs[0].iso3)
    ensures Lookup(gs, l) == None
    decreases |gs|
  {
    LessAsymmetric(l, gs[0].iso3);
    if |gs| > 1 {
      LessTransitive(l, gs[0].iso3, gs[1].iso3);
      LookupAbsentBelow(gs[1..], l);
    }
  }

  lemma {:induction false} InsertLookup(gs: seq<CountryStat>, l: string, s: nat, c: nat, k: string)
    requires StrictlySorted(gs)
    ensures Lookup(Insert(gs, l, s, c), k) == if k == l then Some(AddTo(Lookup(gs, l), l, s, c)) else Lookup(gs, k)
    decreases |gs|
  {
    if gs != [] && gs[0].iso3 != l {
      if Less(l, gs[0].iso3) {
        LookupAbsentBelow(gs, l);
      } else {
        InsertLookup(gs[1..], l, s, c, k);
      }
    }
  }

  lemma {:induction false} InsertAbove(gs: seq<CountryStat>, l: string, s: nat, c: nat, b: string)
    requires forall i :: 0 <= i < |gs| ==> Less(b, gs[i].iso3)
    requires Less(b, l)
    ensures forall i :: 0 <= i < |Insert(gs, l, s, c)| ==> Less(b, Insert(gs, l, s, c)[i].iso3)
    decreases |gs|
  {
    if gs != [] && gs[0].iso3 != l && !Less(l, gs[0].iso3) {
      InsertAbove(gs[1..], l, s, c, b);
    }
  }

  lemma {:induction false} InsertSorted(gs: seq<CountryStat>, l: string, s: nat, c: nat)
    requires StrictlySorted(gs)
    ensures StrictlySorted(Insert(gs, l, s, c))
    decreases |gs|
  {
    var r := Insert(gs, l, s, c);
    if gs == [] {
    } else if gs[0].iso3 == l {
      assert forall i :: 0 <= i < |r| ==> r[i].iso3 == gs[i].iso3;
    } else if Less(l, gs[0].iso3) {
      forall j | 0 < j < |r| ensures Less(r[0].iso3, r[j].iso3) {
        if j > 1 {
          LessTransitive(l, gs[0].iso3, gs[j - 1].iso3);
        }
      }
    } else {
      LessTotal(l, gs[0].iso3);
      InsertSorted(gs[1..], l, s, c);
      InsertAbove(gs[1..], l, s, c, gs[0].iso3);
    }
  }

  lemma {:induction false} AbsentLabelTotals(ps: seq<PolygonStat>, l: string)
    requires !HasLabel(ps, l)
    ensures PixelSumFor(ps, l) == 0 && CountFor(ps, l) == 0
  {
    if ps != [] {
      HasLabelCons(ps, l);
      AbsentLabelTotals(ps[1..], l);
    }
  }

  lemma HasLabelCons(ps: seq<PolygonStat>, k: string)
    requires ps != []
    ensures HasLabel(ps, k) <==> ps[0].iso3 == Some(k) || HasLabel(ps[1..], k)
  {
    if HasLabel(ps[1..], k) {
      var i :| 0 <= i < |ps[1..]| && ps[1..][i].iso3 == Some(k);
      assert ps[i + 1].iso3 == Some(k);
    }
    if HasLabel(ps, k) && ps[0].iso3 != Some(k) {
      var i :| 0 <= i < |ps| && ps[i].iso3 == Some(k);
      assert ps[1..][i - 1].iso3 == Some(k);
    }
  }

  /** What the aggregate holds for a label, as a function of the polygons. */
  function Expected(ps: seq<PolygonStat>, k: string): Option<CountryStat> {
    if HasLabel(ps, k) then Some(CountryStat(k, PixelSumFor(ps, k), CountFor(ps, k))) else None
  }

  lemma {:induction false} GroupBySumLookup(ps: seq<PolygonStat>)
    ensures StrictlySorted(GroupBySum(ps))
    ensures forall k :: Lookup(GroupBySum(ps), k) == Expected(ps, k)
  {
    if ps != [] {
      var rest := GroupBySum(ps[1..]);
      GroupBySumLookup(ps[1..]);
      match ps[0].iso3
      case None =>
        forall k ensures Lookup(GroupBySum(ps), k) == Expected(ps, k) {
          HasLabelCons(ps, k);
        }
      case Some(l) =>
        var s, c := PixelSum(ps[0]), ps[0].count;
        InsertSorted(rest, l, s, c);
        forall k ensures Lookup(GroupBySum(ps), k) == Expected(ps, k) {
          HasLabelCons(ps, k);
          InsertLookup(rest, l, s, c, k);
          if k == l && !HasLabel(ps[1..], l) {
            AbsentLabelTotals(ps[1..], l);
          }
        }
    }
  }

  lemma {:induction false} LookupIsMember(gs: seq<CountryStat>, l: string)
    requires StrictlySorted(gs)
    ensures Lookup(gs, l).Some? ==> Lookup(gs, l).value in gs && Lookup(gs, l).value.iso3 == l
    ensures forall i :: 0 <= i < |gs| && gs[i].iso3 == l ==> Lookup(gs, l) == Some(gs[i])
    decreases |gs|
  {
    if gs != [] {
      LookupIsMember(gs[1..], l);
      if gs[0].iso3 == l {
        forall i | 0 < i < |gs| ensures gs[i].iso3 != l {
          LessIrreflexive(l);
        }
      }
    }
  }

  /** The aggregate has exactly one row per distinct polygon label (missing labels form no
      group), its rows are in label order, and each row's sum and count are the totals over
      the polygons carrying that label. */
  lemma GroupBySumCorrect(ps: seq<PolygonStat>)
    ensures StrictlySorted(GroupBySum(ps))
    ensures forall i, j :: 0 <= i < j < |GroupBySum(ps)| ==> GroupBySum(ps)[i].iso3 != GroupBySum(ps)[j].iso3
    ensures forall l :: HasLabel(ps, l) <==> exists i :: 0 <= i < |GroupBySum(ps)| && GroupBySum(ps)[i].iso3 == l
    ensures forall g :: g in GroupBySum(ps) ==> g.sum == PixelSumFor(ps, g.iso3) && g.count == CountFor(ps, g.iso3)
  {
    var gs := GroupBySum(ps);
    GroupBySumLookup(ps);
    forall i, j | 0 <= i < j < |gs| ensures gs[i].iso3 != gs[j].iso3 {
      if gs[i].iso3 == gs[j].iso3 {
        LessIrreflexive(gs[i].iso3);
      }
    }
    forall l ensures HasLabel(ps, l) <==> exists i :: 0 <= i < |gs| && gs[i].iso3 == l {
      LookupIsMember(gs, l);
    }
    forall g | g in gs ensures g.sum == PixelSumFor(ps, g.iso3) && g.count == CountFor(ps, g.iso3) {
      LookupIsMember(gs, g.iso3);
    }
  }

  /** Two polygons of one country with sums 100 and 150 aggregate to a single row of 250. */
  lemma GroupBySumExample()
    ensures GroupBySum([PolygonStat(Some("IDN"), Some(100), 120), PolygonStat(Some("IDN"), Some(150), 160)])
         == [CountryStat("IDN", 250, 280)]
  {
  }

  // ---------------------------------------------------------------------------------------
  // Pixel count to hectares

  function Abs(x: real): real {
    if x < 0.0 then -x else x
  }

  /** `abs(pixel_size[0] * pixel_size[1]) / 10000`: the area of one pixel in hectares. */
  function PixelAreaHa(pixelWidth: real, pixelHeight: real): (a: real)
    ensures a >= 0.0
  {
    Abs(pixelWidth * pixelHeight) / SquareMetresPerHectare
  }

  /** The forest area of `count` pixels; never negative, whatever the sign of the pixel height. */
  function AreaHa(count: nat, pixelWidth: real, pixelHeight: real): (a: real)
    ensures a >= 0.0
    ensures count == 0 ==> a == 0.0
  {
    count as real * PixelAreaHa(pixelWidth, pixelHeight)
  }

  /** A polygon whose zonal sum is missing (it covers no valid pixel) counts as 0 pixels
      and 0 hectares, though its label still gets a row. */
  lemma MissingSumIsZeroArea(l: string, count: nat, pixelWidth: real, pixelHeight: real)
    ensures AreaTable(GroupBySum([PolygonStat(Some(l), None, count)]), pixelWidth, pixelHeight)
         == [AreaRow(l, 0, 0.0)]
  {
    assert GroupBySum([PolygonStat(Some(l), None, count)]) == [CountryStat(l, 0, count)];
  }

  /** Area is monotone in the pixel count. */
  lemma AreaMonotone(c1: nat, c2: nat, pixelWidth: real, pixelHeight: real)
    requires c1 <= c2
    ensures AreaHa(c1, pixelWidth, pixelHeight) <= AreaHa(c2, pixelWidth, pixelHeight)
  {
    var p := PixelAreaHa(pixelWidth, pixelHeight);
    assert (c2 as real - c1 as real) * p >= 0.0;
  }

  /** Area is additive over pixel counts, so the area of an aggregated country is the sum of
      its polygons' areas. */
  lemma AreaAdditive(c1: nat, c2: nat, pixelWidth: real, pixelHeight: real)
    ensures AreaHa(c1 + c2, pixelWidth, pixelHeight)
         == AreaHa(c1, pixelWidth, pixelHeight) + AreaHa(c2, pixelWidth, pixelHeight)
  {
  }

  /** The worked example: four pixels of 300 m x 300 m (height negative, north-up) are 36 ha. */
  lemma AreaExample()
    ensures AreaHa(4, 300.0, -300.0) == 36.0
  {
  }

  /** Adds `forest_pixel_count` and `forest_area_ha` to the aggregate (l.291-292). */
  function AreaTable(gs: seq<CountryStat>, pixelWidth: real, pixelHeight: real): (r: seq<AreaRow>)
    ensures |r| == |gs|
    ensures forall i :: 0 <= i < |gs| ==>
      r[i] == AreaRow(gs[i].iso3, gs[i].sum, AreaHa(gs[i].sum, pixelWidth, pixelHeight))
  {
    seq(|gs|, i requires 0 <= i < |gs| => AreaRow(gs[i].iso3, gs[i].sum, AreaHa(gs[i].sum, pixelWidth, pixelHeight)))
  }

  // ---------------------------------------------------------------------------------------
  // Price table cleaning

  function PriceRowOf(r: Row): PriceRow {
    PriceRow(Get(r, IdColumn), Get(r, LabelColumn), Get(r, NameColumn), ParseNumeric(Get(r, YearColumn)))
  }

  /** Drop rows whose label is missing, and parse the 2019 column (l.301-307). */
  function CleanRows(rows: seq<Row>): (r: seq<PriceRow>)
    ensures forall p :: p in r <==> exists row :: row in rows && Get(row, LabelColumn) != Missing && p == PriceRowOf(row)
    ensures forall p :: p in r ==> p.iso3 != Missing
  {
    if rows == [] then []
    else
      var rest := CleanRows(rows[1..]);
      assert forall row :: row in rows <==> row == rows[0] || row in rows[1..];
      if Get(rows[0], LabelColumn) != Missing then [PriceRowOf(rows[0])] + rest else rest
  }

  /** The price-table steps: the `2019` column must exist (l.305), then id, label and name
      must exist for the column selection (l.310, 317). */
  function CleanPrices(t: Table): (r: Result<seq<PriceRow>, Error>)
    ensures YearColumn !in t.columns ==> r == Err(ColumnsNotFound([YearColumn]))
    ensures r.Ok? <==> YearColumn in t.columns && IdColumn in t.columns && LabelColumn in t.columns && NameColumn in t.columns
    ensures r.Ok? ==> r.value == CleanRows(t.rows)
  {
    if YearColumn !in t.columns then Err(ColumnsNotFound([YearColumn]))
    else
      var missing := MissingColumns(t.columns, [IdColumn, LabelColumn, NameColumn]);
      if missing != [] then
        assert missing[0] in missing;
        Err(ColumnsNotFound(missing))
      else
        assert IdColumn !in missing && LabelColumn !in missing && NameColumn !in missing;
        Ok(CleanRows(t.rows))
  }

  // ---------------------------------------------------------------------------------------
  // Inner join on the label, valuation, filtering and projection

  function Joined(a: AreaRow, p: PriceRow): JoinedRow {
    JoinedRow(a.iso3, a.forestAreaHa, p.id, p.name, p.valuePerHectare)
  }

  function MatchRows(a: AreaRow, ps: seq<PriceRow>): (r: seq<JoinedRow>)
    ensures forall j :: j in r <==> exists p :: p in ps && p.iso3 == Text(a.iso3) && j == Joined(a, p)
  {
    if ps == [] then []
    else
      assert forall p :: p in ps <==> p == ps[0] || p in ps[1..];
      (if ps[0].iso3 == Text(a.iso3) then [Joined(a, ps[0])] else []) + MatchRows(a, ps[1..])
  }

  /** `pd.merge(areas, prices, on='iso3_r250_label', how='inner')`: left rows in order, each
      followed by its matches in price-table order. */
  function InnerJoin(areas: seq<AreaRow>, ps: seq<PriceRow>): (r: seq<JoinedRow>)
    ensures forall j :: j in r <==>
      exists a, p :: a in areas && p in ps && p.iso3 == Text(a.iso3) && j == Joined(a, p)
  {
    if areas == [] then []
    else
      assert forall a :: a in areas <==> a == areas[0] || a in areas[1..];
      MatchRows(areas[0], ps) + InnerJoin(areas[1..], ps)
  }

  /** The NTFP value of a forest area at a rate per hectare. */
  function Value(areaHa: real, rate: real): real {
    areaHa * rate
  }

  /** `ntfp = forest_area_ha * value_per_hectare` (l.325-327): missing when the rate is. */
  function Ntfp(j: JoinedRow): (v: Option<real>)
    ensures v.Some? <==> j.valuePerHectare.Some?
    ensures v.Some? ==> v.value == Value(j.forestAreaHa, j.valuePerHectare.value)
  {
    match j.valuePerHectare
    case None => None
    case Some(rate) => Some(Value(j.forestAreaHa, rate))
  }

  function Project(j: JoinedRow): CountryValue
    requires j.valuePerHectare.Some?
  {
    CountryValue(j.id, j.iso3, j.name, j.forestAreaHa, j.valuePerHectare.value, Ntfp(j).value)
  }

  lemma ProjectValue(j: JoinedRow)
    requires j.valuePerHectare.Some?
    ensures Project(j).ntfp == Value(Project(j).forestAreaHa, Project(j).valuePerHectare)
  {
  }

  /** Keep the rows whose `ntfp` is not missing (a zero is kept) and select the output
      columns in their fixed order (l.331-344). */
  function KeepValued(js: seq<JoinedRow>): (r: seq<CountryValue>)
    ensures |r| <= |js|
    ensures forall v :: v in r <==> exists j :: j in js && Ntfp(j).Some? && v == Project(j)
  {
    if js == [] then []
    else
      var rest := KeepValued(js[1..]);
      assert forall j :: j in js <==> j == js[0] || j in js[1..];
      if Ntfp(js[0]).Some? then [Project(js[0])] + rest else rest
  }

  /** The columns of the zonal statistics the group-by sums. A layer without polygons gives
      no statistics, hence a frame without these columns, and the aggregation fails with a
      KeyError naming both. */
  const StatColumns: seq<string> := ["count", "sum"]

  /** The whole table logic of `area_by_country` after the zonal statistics. */
  function CountryTable(vectorColumns: seq<string>, polygons: seq<PolygonStat>, prices: Table,
                        pixelWidth: real, pixelHeight: real): (r: Result<seq<CountryValue>, Error>)
    ensures LabelColumn !in vectorColumns ==> r == Err(MissingLabelColumn(VectorLayer, vectorColumns))
    ensures LabelColumn in vectorColumns && LabelColumn !in prices.columns ==>
      r == Err(MissingLabelColumn(PriceCsv, prices.columns))
    ensures LabelColumn in vectorColumns && LabelColumn in prices.columns && polygons == [] ==>
      r == Err(ColumnsNotFound(StatColumns))
    ensures LabelColumn in vectorColumns && LabelColumn in prices.columns && polygons != []
            && YearColumn !in prices.columns ==>
      r == Err(ColumnsNotFound([YearColumn]))
    ensures r.Ok? <==> LabelColumn in vectorColumns && LabelColumn in prices.columns && polygons != []
                       && YearColumn in prices.columns && IdColumn in prices.columns && NameColumn in prices.columns
  {
    if LabelColumn !in vectorColumns then Err(MissingLabelColumn(VectorLayer, vectorColumns))
    else if LabelColumn !in prices.columns then Err(MissingLabelColumn(PriceCsv, prices.columns))
    else if polygons == [] then Err(ColumnsNotFound(StatColumns))
    else
      var areas := AreaTable(GroupBySum(polygons), pixelWidth, pixelHeight);
      match CleanPrices(prices)
      case Err(e) => Err(e)
      case Ok(clean) => Ok(KeepValued(InnerJoin(areas, clean)))
  }

  /** Some price row carries the output row's label, id and name, and a 2019 value that
      parses to its rate. */
  predicate PricedBy(prices: Table, v: CountryValue) {
    exists row :: row in prices.rows && Get(row, LabelColumn) == Text(v.iso3)
      && v.id == Get(row, IdColumn) && v.name == Get(row, NameColumn)
      && ParseNumeric(Get(row, YearColumn)) == Some(v.valuePerHectare)
  }

  /** What an output row must be: the label of some polygon, the hectares of that label's
      summed pixels, a matching priced row, and value = area x rate. */
  predicate ValuedCountry(polygons: seq<PolygonStat>, prices: Table, pixelWidth: real, pixelHeight: real, v: CountryValue) {
    && HasLabel(polygons, v.iso3)
    && v.forestAreaHa == AreaHa(PixelSumFor(polygons, v.iso3), pixelWidth, pixelHeight)
    && v.ntfp == Value(v.forestAreaHa, v.valuePerHectare)
    && PricedBy(prices, v)
  }

  lemma GroupRow(ps: seq<PolygonStat>, i: nat)
    requires i < |GroupBySum(ps)|
    ensures HasLabel(ps, GroupBySum(ps)[i].iso3)
    ensures GroupBySum(ps)[i].sum == PixelSumFor(ps, GroupBySum(ps)[i].iso3)
  {
    var gs := GroupBySum(ps);
    GroupBySumLookup(ps);
    LookupIsMember(gs, gs[i].iso3);
  }

  lemma GroupRowOf(ps: seq<PolygonStat>, l: string) returns (i: nat)
    requires HasLabel(ps, l)
    ensures i < |GroupBySum(ps)| && GroupBySum(ps)[i].iso3 == l
    ensures GroupBySum(ps)[i].sum == PixelSumFor(ps, l)
  {
    var gs := GroupBySum(ps);
    GroupBySumLookup(ps);
    assert Lookup(gs, l) == Expected(ps, l);
    LookupIsMember(gs, l);
    var g := Lookup(gs, l).value;
    i :| 0 <= i < |gs| && gs[i] == g;
  }

  lemma KeepValuedSource(js: seq<JoinedRow>, v: CountryValue) returns (j: JoinedRow)
    requires v in KeepValued(js)
    ensures j in js && j.valuePerHectare.Some? && v == Project(j)
  {
    j :| j in js && Ntfp(j).Some? && v == Project(j);
  }

  lemma InnerJoinSource(areas: seq<AreaRow>, ps: seq<PriceRow>, j: JoinedRow) returns (i: nat, p: PriceRow)
    requires j in InnerJoin(areas, ps)
    ensures i < |areas| && p in ps && p.iso3 == Text(areas[i].iso3) && j == Joined(areas[i], p)
  {
    var a, q :| a in areas && q in ps && q.iso3 == Text(a.iso3) && j == Joined(a, q);
    i :| 0 <= i < |areas| && areas[i] == a;
    p := q;
  }

  lemma CleanRowsSource(rows: seq<Row>, p: PriceRow) returns (row: Row)
    requires p in CleanRows(rows)
    ensures row in rows && p == PriceRowOf(row)
  {
    row :| row in rows && Get(row, LabelColumn) != Missing && p == PriceRowOf(row);
  }

  lemma CountryTableSound(polygons: seq<PolygonStat>, prices: Table, pixelWidth: real, pixelHeight: real, v: CountryValue)
    requires v in KeepValued(InnerJoin(AreaTable(GroupBySum(polygons), pixelWidth, pixelHeight), CleanRows(prices.rows)))
    ensures ValuedCountry(polygons, prices, pixelWidth, pixelHeight, v)
  {
    var gs := GroupBySum(polygons);
    var areas := AreaTable(gs, pixelWidth, pixelHeight);
    var clean := CleanRows(prices.rows);
    var j := KeepValuedSource(InnerJoin(areas, clean), v);
    var i, p := InnerJoinSource(areas, clean, j);
    GroupRow(polygons, i);
    var row := CleanRowsSource(prices.rows, p);
    assert v.iso3 == gs[i].iso3;
    assert HasLabel(polygons, v.iso3);
    assert v.forestAreaHa == AreaHa(PixelSumFor(polygons, v.iso3), pixelWidth, pixelHeight);
    ProjectValue(j);
    assert PricedBy(prices, v);
  }

  lemma CountryTableComplete(polygons: seq<PolygonStat>, prices: Table, pixelWidth: real, pixelHeight: real, v: CountryValue)
    requires ValuedCountry(polygons, prices, pixelWidth, pixelHeight, v)
    ensures v in KeepValued(InnerJoin(AreaTable(GroupBySum(polygons), pixelWidth, pixelHeight), CleanRows(prices.rows)))
  {
    var gs := GroupBySum(polygons);
    var areas := AreaTable(gs, pixelWidth, pixelHeight);
    var clean := CleanRows(prices.rows);
    var joined := InnerJoin(areas, clean);
    var row :| row in prices.rows && Get(row, LabelColumn) == Text(v.iso3)
      && v.id == Get(row, IdColumn) && v.name == Get(row, NameColumn)
      && ParseNumeric(Get(row, YearColumn)) == Some(v.valuePerHectare);
    var p := PriceRowOf(row);
    assert p in clean;
    var i := GroupRowOf(polygons, v.iso3);
    var a := areas[i];
    assert a in areas;
    var j := Joined(a, p);
    assert j in joined;
    assert v == Project(j);
  }

  /** Output rows are exactly the pairs of a labelled polygon group and a price row with the
      same label and a numeric 2019 value: the area is the hectares of the group's summed
      pixels, the value is area times rate. A label in only one input gives no row; a rate of
      zero gives a row with value zero. */
  lemma CountryTableRows(vectorColumns: seq<string>, polygons: seq<PolygonStat>, prices: Table,
                         pixelWidth: real, pixelHeight: real, rows: seq<CountryValue>)
    requires CountryTable(vectorColumns, polygons, prices, pixelWidth, pixelHeight) == Ok(rows)
    ensures forall v :: v in rows <==> ValuedCountry(polygons, prices, pixelWidth, pixelHeight, v)
  {
    assert rows == KeepValued(InnerJoin(AreaTable(GroupBySum(polygons), pixelWidth, pixelHeight), CleanRows(prices.rows)));
    forall v ensures v in rows <==> ValuedCountry(polygons, prices, pixelWidth, pixelHeight, v) {
      if v in rows {
        CountryTableSound(polygons, prices, pixelWidth, pixelHeight, v);
      }
      if ValuedCountry(polygons, prices, pixelWidth, pixelHeight, v) {
        CountryTableComplete(polygons, prices, pixelWidth, pixelHeight, v);
      }
    }
  }

  /** A country whose rate is zero stays in the output with value zero; the zero filter of the
      original design is disabled in the source. */
  lemma ZeroValueKept(vectorColumns: seq<string>, polygons: seq<PolygonStat>, prices: Table,
                      pixelWidth: real, pixelHeight: real, rows: seq<CountryValue>, row: Row, l: string)
    requires CountryTable(vectorColumns, polygons, prices, pixelWidth, pixelHeight) == Ok(rows)
    requires HasLabel(polygons, l)
    requires row in prices.rows && Get(row, LabelColumn) == Text(l) && ParseNumeric(Get(row, YearColumn)) == Some(0.0)
    ensures exists v :: v in rows && v.iso3 == l && v.ntfp == 0.0
  {
    CountryTableRows(vectorColumns, polygons, prices, pixelWidth, pixelHeight, rows);
    var area := AreaHa(PixelSumFor(polygons, l), pixelWidth, pixelHeight);
    var v := CountryValue(Get(row, IdColumn), l, Get(row, NameColumn), area, 0.0, 0.0);
    assert v in rows;
  }

  /** A label that no price row carries produces no output row. */
  lemma UnpricedCountryDropped(vectorColumns: seq<string>, polygons: seq<PolygonStat>, prices: Table,
                               pixelWidth: real, pixelHeight: real, rows: seq<CountryValue>, l: string)
    requires CountryTable(vectorColumns, polygons, prices, pixelWidth, pixelHeight) == Ok(rows)
    requires forall row :: row in prices.rows ==> Get(row, LabelColumn) != Text(l)
    ensures forall v :: v in rows ==> v.iso3 != l
  {
    CountryTableRows(vectorColumns, polygons, prices, pixelWidth, pixelHeight, rows);
  }

  /** The end-to-end worked example: one country with 4 forest pixels of 300 m x 300 m and a
      rate of 1000 per hectare gives 36 ha and a value of 36000. */
  lemma WorkedExample()
    ensures CountryTable(
              ["geometry", LabelColumn],
              [PolygonStat(Some("ABC"), Some(4), 4)],
              Table([IdColumn, LabelColumn, NameColumn, YearColumn],
                    [map[IdColumn := Num(1.0), LabelColumn := Text("ABC"), NameColumn := Text("Abc"), YearColumn := Num(1000.0)]]),
              300.0, -300.0)
         == Ok([CountryValue(Num(1.0), "ABC", Text("Abc"), 36.0, 1000.0, 36000.0)])
  {
    var row := map[IdColumn := Num(1.0), LabelColumn := Text("ABC"), NameColumn := Text("Abc"), YearColumn := Num(1000.0)];
    assert Get(row, LabelColumn) == Text("ABC");
    assert PriceRowOf(row) == PriceRow(Num(1.0), Text("ABC"), Text("Abc"), Some(1000.0));
    assert CleanRows([row]) == [PriceRowOf(row)];
    var a := AreaRow("ABC", 4, 36.0);
    assert AreaTable(GroupBySum([PolygonStat(Some("ABC"), Some(4), 4)]), 300.0, -300.0) == [a];
    var p := PriceRowOf(row);
    assert MatchRows(a, [p]) == [Joined(a, p)];
    assert InnerJoin([a], [p]) == [Joined(a, p)];
    var prices := Table([IdColumn, LabelColumn, NameColumn, YearColumn], [row]);
    assert CleanPrices(prices) == Ok([p]);
    assert Project(Joined(a, p)) == CountryValue(Num(1.0), "ABC", Text("Abc"), 36.0, 1000.0, 36000.0);
    assert KeepValued([Joined(a, p)]) == [Project(Joined(a, p))];
  }
}
