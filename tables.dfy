/** Tables as the pipeline's pandas code sees them: an ordered list of column names and a
    sequence of rows, each row a map from column name to cell. A missing cell (pandas NaN)
    is `Missing`. Also the errors the table code raises, and the number parsing of
    `pandas.to_numeric(..., errors='coerce')`. */
module Tables {
  import opened Wrappers

  /** The identifier columns of the GEP country classification, shared by both price tables
      and the country polygons. */
  const LabelColumn: string := "iso3_r250_label"
  const IdColumn: string := "iso3_r250_id"
  const NameColumn: string := "iso3_r250_name"

  datatype Cell = Missing | Num(x: real) | Text(s: string)

  type Row = map<string, Cell>

  datatype Table = Table(columns: seq<string>, rows: seq<Row>)

  /** Which input a missing-column error is about. */
  datatype TableSource = VectorLayer | PriceCsv

  datatype Error =
    | ReadFailed(path: string)                                   // input file missing or not of the expected kind
    | MissingLabelColumn(source: TableSource, available: seq<string>)  // the explicit ValueError checks
    | ColumnsNotFound(columns: seq<string>)                      // a pandas KeyError on column selection
    | NoNodataValue(path: string)                                // a raster without the nodata value a step needs

  predicate Distinct(cols: seq<string>) {
    forall i, j :: 0 <= i < j < |cols| ==> cols[i] != cols[j]
  }

  /** Column names are unique and every row has exactly the table's columns. */
  predicate WellFormed(t: Table) {
    Distinct(t.columns) && forall r :: r in t.rows ==> r.Keys == set c | c in t.columns
  }

  /** The cell of a row in a column; absent reads as missing. */
  function Get(r: Row, c: string): Cell {
    if c in r then r[c] else Missing
  }

  /** The columns of `wanted` that the table lacks, in the order of `wanted`. */
  function MissingColumns(columns: seq<string>, wanted: seq<string>): (r: seq<string>)
    ensures forall c :: c in r <==> c in wanted && c !in columns
    ensures |r| <= |wanted|
  {
    if wanted == [] then []
    else (if wanted[0] in columns then [] else [wanted[0]]) + MissingColumns(columns, wanted[1..])
  }

  /** `df[cols]`: the named columns in the given order, or a KeyError listing the absent ones. */
  function SelectColumns(t: Table, cols: seq<string>): (r: Result<Table, Error>)
    ensures r.Err? <==> exists c :: c in cols && c !in t.columns
    ensures r.Err? ==> r.error == ColumnsNotFound(MissingColumns(t.columns, cols))
    ensures r.Ok? ==> r.value.columns == cols && |r.value.rows| == |t.rows|
    ensures r.Ok? ==> forall i, c :: 0 <= i < |t.rows| && c in cols ==>
      c in r.value.rows[i] && r.value.rows[i][c] == Get(t.rows[i], c)
    ensures r.Ok? ==> forall i :: 0 <= i < |t.rows| ==> r.value.rows[i].Keys == set c | c in cols
  {
    var missing := MissingColumns(t.columns, cols);
    if missing != [] then
      assert missing[0] in missing;
      Err(ColumnsNotFound(missing))
    else
      Ok(Table(cols, seq(|t.rows|, i requires 0 <= i < |t.rows| => Restrict(t.rows[i], cols))))
  }

  function Restrict(r: Row, cols: seq<string>): (s: Row)
    ensures s.Keys == set c | c in cols
  {
    map c | c in cols :: Get(r, c)
  }

  // ---- pandas.to_numeric(errors='coerce') on one cell ----

  predicate IsDigit(ch: char) {
    '0' <= ch <= '9'
  }

  predicate AllDigits(s: string) {
    forall i :: 0 <= i < |s| ==> IsDigit(s[i])
  }

  function DigitValue(ch: char): nat
    requires IsDigit(ch)
  {
    ch as int - '0' as int
  }

  /** The value of a string of decimal digits, most significant first. */
  function DigitsValue(s: string): nat
    requires AllDigits(s)
  {
    if s == [] then 0 else DigitsValue(s[..|s| - 1]) * 10 + DigitValue(s[|s| - 1])
  }

  function Pow10(k: nat): (r: nat)
    ensures r >= 1
  {
    if k == 0 then 1 else 10 * Pow10(k - 1)
  }

  /** The canonical decimal rendering of a natural number. */
  function Decimal(n: nat): (s: string)
    ensures |s| > 0 && AllDigits(s)
  {
    var d := ['0' + (n % 10) as char];
    if n < 10 then d else Decimal(n / 10) + d
  }

  lemma {:induction false} DecimalRoundTrip(n: nat)
    ensures DigitsValue(Decimal(n)) == n
  {
    var s := Decimal(n);
    if n >= 10 {
      DecimalRoundTrip(n / 10);
      assert s[..|s| - 1] == Decimal(n / 10);
    }
  }

  function IndexOf(s: string, ch: char): (r: Option<nat>)
    ensures r.Some? ==> r.value < |s| && s[r.value] == ch && ch !in s[..r.value]
    ensures r.None? ==> ch !in s
  {
    if s == [] then None
    else if s[0] == ch then Some(0)
    else match IndexOf(s[1..], ch)
      case None => None
      case Some(k) => assert s[..k + 1] == [s[0]] + s[1..][..k]; Some(k + 1)
  }

  /** An unsigned decimal: digits, optionally a point and more digits, at least one digit. */
  function ParseUnsigned(s: string): Option<real> {
    match IndexOf(s, '.')
    case None =>
      if s != [] && AllDigits(s) then Some(DigitsValue(s) as real) else None
    case Some(k) =>
      var whole, frac := s[..k], s[k + 1..];
      if (whole != [] || frac != []) && AllDigits(whole) && AllDigits(frac)
      then Some(DigitsValue(whole) as real + DigitsValue(frac) as real / Pow10(|frac|) as real)
      else None
  }

  /** A decimal with an optional leading sign. */
  function ParseDecimal(s: string): Option<real> {
    if s != [] && s[0] == '-' then
      match ParseUnsigned(s[1..])
      case None => None
      case Some(v) => Some(-v)
    else if s != [] && s[0] == '+' then ParseUnsigned(s[1..])
    else ParseUnsigned(s)
  }

  /** `to_numeric(errors='coerce')` on one cell: numbers stay, text that is not a number and
      missing cells become missing. */
  function ParseNumeric(c: Cell): Option<real> {
    match c
    case Missing => None
    case Num(x) => Some(x)
    case Text(s) => ParseDecimal(s)
  }

  lemma DigitsHaveNoPoint(s: string)
    requires AllDigits(s)
    ensures IndexOf(s, '.') == None
  {
  }

  /** A number written as text parses back to itself, with or without a minus sign. */
  lemma ParseNumericOfDecimal(n: nat)
    ensures ParseNumeric(Text(Decimal(n))) == Some(n as real)
    ensures ParseNumeric(Text("-" + Decimal(n))) == Some(-(n as real))
  {
    var s := Decimal(n);
    DecimalRoundTrip(n);
    DigitsHaveNoPoint(s);
    assert ParseUnsigned(s) == Some(n as real);
    assert s[0] != '-' && s[0] != '+' by { assert IsDigit(s[0]); }
    var t := "-" + s;
    assert t[0] == '-' && t[1..] == s;
  }

  /** Text that ends in a letter never parses as a number. */
  lemma {:induction false} ParseNumericRejectsWords(s: string)
    requires s != [] && 'a' <= s[|s| - 1] <= 'z'
    ensures ParseNumeric(Text(s)) == None
  {
    var u := if s[0] == '-' || s[0] == '+' then s[1..] else s;
    assert u == [] || u[|u| - 1] == s[|s| - 1];
    match IndexOf(u, '.')
    case None =>
      assert u != [] ==> !IsDigit(u[|u| - 1]);
    case Some(k) =>
      assert k < |u| - 1;
      var frac := u[k + 1..];
      assert frac[|frac| - 1] == u[|u| - 1];
      assert !IsDigit(frac[|frac| - 1]);
  }
}
