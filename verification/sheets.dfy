/** The spreadsheet decoder: turns the value grid of one sheet (first row =
    column headers) into drug, service and distribution records. The grid is
    an input here; reading it from the spreadsheet service is not modelled. */
module Sheets {
  import opened Types
  import opened JsString
  import opened DateSort
  import opened Sequences

  /** One sheet row; it may be shorter than the header row. */
  type Row = seq<Cell>

  /** The value grid of a sheet range, row by row. */
  type Grid = seq<Row>

  /** A row keyed by column header, as `mapRowToHeaders` builds it. */
  type RowObject = map<string, Cell>

  // ---------------------------------------------------------------------
  // mapRowToHeaders
  // ---------------------------------------------------------------------

  /** The property name a header cell becomes: its text, or the string
      "undefined" that JavaScript makes of a missing key. */
  function HeaderKey(h: Cell): string
  {
    match h
    case Some(s) => s
    case None => "undefined"
  }

  /** `row[i]`: the cell, or `undefined` past the end of the row. */
  function CellAt(row: Row, i: nat): Cell
  {
    if i < |row| then row[i] else None
  }

  /** No later header has the same key as header `i`. */
  ghost predicate LastWithKey(headers: Row, i: int)
    requires 0 <= i < |headers|
  {
    forall j :: i < j < |headers| ==> HeaderKey(headers[j]) != HeaderKey(headers[i])
  }

  /** The property names the headers produce. */
  function HeaderKeys(headers: Row): (keys: set<string>)
    ensures forall i :: 0 <= i < |headers| ==> HeaderKey(headers[i]) in keys
    ensures forall k :: k in keys ==> exists i :: 0 <= i < |headers| && HeaderKey(headers[i]) == k
  {
    if |headers| == 0 then {}
    else
      var n := |headers| - 1;
      assert forall i :: 0 <= i < n ==> headers[..n][i] == headers[i];
      HeaderKeys(headers[..n]) + {HeaderKey(headers[n])}
  }

  /** `mapRowToHeaders(row, headers)`: the headers are assigned left to
      right, each to the cell in its column. */
  function MapRowToHeaders(row: Row, headers: Row): RowObject
  {
    if |headers| == 0 then map[]
    else
      var n := |headers| - 1;
      MapRowToHeaders(row, headers[..n])[HeaderKey(headers[n]) := CellAt(row, n)]
  }

  /** The object's keys are the headers, and each header holds the cell of
      the last column with that header: a repeated header takes the later
      column's value, and a column past the end of a short row gives a
      missing cell. */
  lemma {:induction false} MapRowToHeadersSpec(row: Row, headers: Row)
    ensures MapRowToHeaders(row, headers).Keys == HeaderKeys(headers)
    ensures forall i :: 0 <= i < |headers| && LastWithKey(headers, i) ==>
      MapRowToHeaders(row, headers)[HeaderKey(headers[i])] == CellAt(row, i)
  {
    if |headers| > 0 {
      var n := |headers| - 1;
      MapRowToHeadersSpec(row, headers[..n]);
      var prev := MapRowToHeaders(row, headers[..n]);
      var obj := MapRowToHeaders(row, headers);
      assert obj == prev[HeaderKey(headers[n]) := CellAt(row, n)];
      assert HeaderKeys(headers) == HeaderKeys(headers[..n]) + {HeaderKey(headers[n])};
      assert obj.Keys == HeaderKeys(headers);
      forall i | 0 <= i < |headers| && LastWithKey(headers, i)
        ensures obj[HeaderKey(headers[i])] == CellAt(row, i)
      {
        assert HeaderKey(headers[i]) in HeaderKeys(headers);
        if i < n {
          var k := HeaderKey(headers[i]);
          assert headers[..n][i] == headers[i];
          assert k != HeaderKey(headers[n]);
          assert LastWithKey(headers[..n], i) by {
            forall j | i < j < n ensures HeaderKey(headers[..n][j]) != k {
              assert headers[..n][j] == headers[j];
            }
          }
          assert prev[k] == CellAt(row, i);
          assert obj[k] == prev[k];
        } else {
          assert i == n;
        }
      }
    }
  }

  /** Every header name has a last column. */
  lemma {:induction false} LastColumnOf(headers: Row, k: string) returns (i: nat)
    requires k in HeaderKeys(headers)
    ensures i < |headers| && HeaderKey(headers[i]) == k && LastWithKey(headers, i)
  {
    var n := |headers| - 1;
    if HeaderKey(headers[n]) == k {
      i := n;
    } else {
      assert k in HeaderKeys(headers[..n]);
      i := LastColumnOf(headers[..n], k);
      assert headers[..n][i] == headers[i];
      forall j | i < j < |headers| ensures HeaderKey(headers[j]) != k {
        if j < n { assert headers[..n][j] == headers[j]; }
      }
    }
  }

  /** Every property of the object comes from some header, and its value is
      the cell under the last header with that name. */
  lemma KeyHasLastColumn(row: Row, headers: Row, k: string) returns (i: nat)
    requires k in MapRowToHeaders(row, headers)
    ensures i < |headers| && HeaderKey(headers[i]) == k && LastWithKey(headers, i)
    ensures MapRowToHeaders(row, headers)[k] == CellAt(row, i)
  {
    MapRowToHeadersSpec(row, headers);
    i := LastColumnOf(headers, k);
  }

  /** Cells past the last header are ignored: extending a row that already
      covers every header changes nothing. */
  lemma {:induction false} ExtraCellsIgnored(row: Row, extra: Row, headers: Row)
    requires |headers| <= |row|
    ensures MapRowToHeaders(row + extra, headers) == MapRowToHeaders(row, headers)
  {
    if |headers| > 0 {
      var n := |headers| - 1;
      ExtraCellsIgnored(row, extra, headers[..n]);
      assert CellAt(row + extra, n) == CellAt(row, n);
    }
  }

  // ---------------------------------------------------------------------
  // Field defaults
  // ---------------------------------------------------------------------

  /** `obj.name`: the cell under that header, or `undefined`. */
  function Field(obj: RowObject, name: string): Cell
  {
    if name in obj then obj[name] else None
  }

  /** A text field: the text, or the empty string for a missing cell (an
      empty text is falsy and is replaced by the same empty string). */
  function TextOr(c: Cell): string
  {
    match c
    case Some(s) => s
    case None => ""
  }

  /** A numeric field: the leading decimal integer of the cell, or
      0 when the cell is missing or does not start with one (NaN is falsy).
      Negative values are kept. */
  function IntOr(c: Cell): int
  {
    match c
    case None => 0
    case Some(s) =>
      match ParseInt(s)
      case None => 0
      case Some(n) => n
  }

  /** A numeric field is the signed value of the cell's leading integer
      prefix, or 0 when the cell is missing or has none. */
  lemma IntOrSpec(c: Cell)
    ensures c.None? ==> IntOr(c) == 0
    ensures c.Some? && (exists k, l, m :: IntegerPrefixAt(c.value, k, l, m)) ==>
      exists k, l, m :: IntegerPrefixAt(c.value, k, l, m) && IntOr(c) == SignedValue(c.value, k, l, m)
    ensures c.Some? && (forall k, l, m :: !IntegerPrefixAt(c.value, k, l, m)) ==> IntOr(c) == 0
  {
    if c.Some? {
      ParseIntSound(c.value);
      ParseIntRejects(c.value);
    }
  }

  // ---------------------------------------------------------------------
  // Row decoding, shared by the three sheets
  // ---------------------------------------------------------------------

  /** Each data row, keyed by the headers and built into a record. */
  function BuildAll<T>(headers: Row, rows: seq<Row>, build: RowObject -> T): (r: seq<T>)
    ensures |r| == |rows|
    ensures forall i :: 0 <= i < |rows| ==> r[i] == build(MapRowToHeaders(rows[i], headers))
  {
    seq(|rows|, i requires 0 <= i < |rows| => build(MapRowToHeaders(rows[i], headers)))
  }

  /** Each row keyed by the headers and built into a record; the records
      `keep` rejects are dropped. */
  function DecodeRows<T(!new)>(headers: Row, rows: seq<Row>, build: RowObject -> T, keep: T -> bool): (r: seq<T>)
    ensures |r| <= |rows|
    ensures forall j :: 0 <= j < |r| ==> (keep(r[j]) &&
      exists i :: 0 <= i < |rows| && r[j] == build(MapRowToHeaders(rows[i], headers)))
    ensures forall i :: 0 <= i < |rows| && keep(build(MapRowToHeaders(rows[i], headers))) ==>
      build(MapRowToHeaders(rows[i], headers)) in r
    ensures forall y :: multiset(r)[y] == if keep(y) then multiset(BuildAll(headers, rows, build))[y] else 0
  {
    var all := BuildAll(headers, rows, build);
    var r := Filter(all, keep);
    assert forall j :: 0 <= j < |r| ==> r[j] in all;
    r
  }

  /** The decoded records keep the order of their rows. */
  lemma DecodeRowsInOrder<T(!new)>(headers: Row, rows: seq<Row>, build: RowObject -> T, keep: T -> bool)
    ensures IsSubsequence(DecodeRows(headers, rows, build, keep), BuildAll(headers, rows, build))
  {
    FilterInOrder(BuildAll(headers, rows, build), keep);
  }

  // ---------------------------------------------------------------------
  // Records
  // ---------------------------------------------------------------------

  /** The data row `row` under `headers`, looked up by field name. */
  function Column(headers: Row, row: Row, name: string): Cell
  {
    Field(MapRowToHeaders(row, headers), name)
  }

  /** A field is read from the last column carrying its name, and is
      missing when no column carries it. */
  lemma ColumnIsLastWithName(headers: Row, row: Row, name: string)
    ensures forall c :: 0 <= c < |headers| && HeaderKey(headers[c]) == name && LastWithKey(headers, c) ==>
      Column(headers, row, name) == CellAt(row, c)
    ensures name !in HeaderKeys(headers) ==> Column(headers, row, name) == None
    ensures name in HeaderKeys(headers) ==>
      exists c :: 0 <= c < |headers| && HeaderKey(headers[c]) == name && LastWithKey(headers, c) &&
        Column(headers, row, name) == CellAt(row, c)
  {
    MapRowToHeadersSpec(row, headers);
    if name in HeaderKeys(headers) {
      var c := KeyHasLastColumn(row, headers, name);
    }
  }

  /** One row of the drug sheet, as `getDrugs` builds it. */
  function DrugOfRow(obj: RowObject): Drug
  {
    Drug(
      id := None,
      barcode := TextOr(Field(obj, "barcode")),
      designation := TextOr(Field(obj, "designation")),
      currentStock := IntOr(Field(obj, "currentStock")),
      expiryDate := TextOr(Field(obj, "expiryDate")),
      lowStockThreshold := IntOr(Field(obj, "lowStockThreshold")),
      lotNumber := None)
  }

  /** A drug is kept only with a barcode; an empty barcode is falsy. */
  predicate HasBarcode(d: Drug)
  {
    d.barcode != ""
  }

  /** `getDrugs` after the fetch: nothing for a grid without data rows;
      otherwise one drug per data row that has a barcode. The header row is
      never decoded as a drug. */
  function DecodeDrugs(grid: Grid): (r: seq<Drug>)
    ensures |grid| < 2 ==> r == []
    ensures |r| <= if |grid| < 2 then 0 else |grid| - 1
    ensures forall j :: 0 <= j < |r| ==> (r[j].barcode != "" &&
      exists i :: 1 <= i < |grid| && r[j] == DrugOfRow(MapRowToHeaders(grid[i], grid[0])))
    ensures forall i :: 1 <= i < |grid| && DrugOfRow(MapRowToHeaders(grid[i], grid[0])).barcode != "" ==>
      DrugOfRow(MapRowToHeaders(grid[i], grid[0])) in r
  {
    if |grid| < 2 then []
    else
      assert forall i :: 1 <= i < |grid| ==> grid[1..][i - 1] == grid[i];
      DecodeRows(grid[0], grid[1..], DrugOfRow, HasBarcode)
  }

  /** Each data row with a barcode yields its own drug: a drug appears as
      many times as there are data rows decoding to it. */
  lemma DrugCounts(grid: Grid)
    requires |grid| >= 2
    ensures forall d ::
      multiset(DecodeDrugs(grid))[d] ==
        if d.barcode != "" then multiset(BuildAll(grid[0], grid[1..], DrugOfRow))[d] else 0
  {
    var r := DecodeRows(grid[0], grid[1..], DrugOfRow, HasBarcode);
    assert DecodeDrugs(grid) == r;
  }

  /** The drugs appear in the order of their rows. */
  lemma DecodeDrugsInOrder(grid: Grid)
    requires |grid| >= 2
    ensures IsSubsequence(DecodeDrugs(grid), BuildAll(grid[0], grid[1..], DrugOfRow))
  {
    DecodeRowsInOrder(grid[0], grid[1..], DrugOfRow, HasBarcode);
  }

  /** A repeated data row is decoded once per occurrence: two identical
      rows with a barcode give two identical drugs. */
  lemma RepeatedRowsKept(headers: Row, row: Row)
    requires DrugOfRow(MapRowToHeaders(row, headers)).barcode != ""
    ensures var d := DrugOfRow(MapRowToHeaders(row, headers));
      DecodeDrugs([headers, row, row]) == [d, d]
  {
    var grid := [headers, row, row];
    var d := DrugOfRow(MapRowToHeaders(row, headers));
    assert grid[0] == headers && grid[1..] == [row, row];
    var all := BuildAll(headers, [row, row], DrugOfRow);
    assert all == [d, d];
    assert DecodeDrugs(grid) == Filter(all, HasBarcode);
    KeepBoth(d, HasBarcode);
  }

  /** Each field of a decoded drug comes from the column of that name:
      text fields default to "" and numeric fields to 0 when the column or
      the cell is missing. */
  lemma DrugFields(headers: Row, row: Row)
    ensures var d := DrugOfRow(MapRowToHeaders(row, headers));
      && d.id == None && d.lotNumber == None
      && d.barcode == TextOr(Column(headers, row, "barcode"))
      && d.designation == TextOr(Column(headers, row, "designation"))
      && d.currentStock == IntOr(Column(headers, row, "currentStock"))
      && d.expiryDate == TextOr(Column(headers, row, "expiryDate"))
      && d.lowStockThreshold == IntOr(Column(headers, row, "lowStockThreshold"))
    ensures "designation" !in HeaderKeys(headers) ==> DrugOfRow(MapRowToHeaders(row, headers)).designation == ""
    ensures "currentStock" !in HeaderKeys(headers) ==> DrugOfRow(MapRowToHeaders(row, headers)).currentStock == 0
    ensures "expiryDate" !in HeaderKeys(headers) ==> DrugOfRow(MapRowToHeaders(row, headers)).expiryDate == ""
    ensures "lowStockThreshold" !in HeaderKeys(headers) ==> DrugOfRow(MapRowToHeaders(row, headers)).lowStockThreshold == 0
  {
  }

  /** One row of the service sheet, as `getServices` builds it. */
  function ServiceOfRow(obj: RowObject): Service
  {
    Service(id := TextOr(Field(obj, "id")), name := TextOr(Field(obj, "name")))
  }

  /** Each field of a decoded service comes from the column of that name,
      and a missing column gives "". */
  lemma ServiceFields(headers: Row, row: Row)
    ensures var v := ServiceOfRow(MapRowToHeaders(row, headers));
      && v.id == TextOr(Column(headers, row, "id"))
      && v.name == TextOr(Column(headers, row, "name"))
    ensures "id" !in HeaderKeys(headers) ==> ServiceOfRow(MapRowToHeaders(row, headers)).id == ""
    ensures "name" !in HeaderKeys(headers) ==> ServiceOfRow(MapRowToHeaders(row, headers)).name == ""
  {
  }

  predicate ServiceHasId(s: Service)
  {
    s.id != ""
  }

  /** `getServices` after the fetch: one service per data row with an id. */
  function DecodeServices(grid: Grid): (r: seq<Service>)
    ensures |grid| < 2 ==> r == []
    ensures |r| <= if |grid| < 2 then 0 else |grid| - 1
    ensures forall j :: 0 <= j < |r| ==> (r[j].id != "" &&
      exists i :: 1 <= i < |grid| && r[j] == ServiceOfRow(MapRowToHeaders(grid[i], grid[0])))
    ensures forall i :: 1 <= i < |grid| && ServiceOfRow(MapRowToHeaders(grid[i], grid[0])).id != "" ==>
      ServiceOfRow(MapRowToHeaders(grid[i], grid[0])) in r
  {
    if |grid| < 2 then []
    else
      assert forall i :: 1 <= i < |grid| ==> grid[1..][i - 1] == grid[i];
      DecodeRows(grid[0], grid[1..], ServiceOfRow, ServiceHasId)
  }

  /** Each data row with an id yields its own service: a service appears as
      many times as there are data rows decoding to it. */
  lemma ServiceCounts(grid: Grid)
    requires |grid| >= 2
    ensures forall v ::
      multiset(DecodeServices(grid))[v] ==
        if v.id != "" then multiset(BuildAll(grid[0], grid[1..], ServiceOfRow))[v] else 0
  {
    var r := DecodeRows(grid[0], grid[1..], ServiceOfRow, ServiceHasId);
    assert DecodeServices(grid) == r;
  }

  lemma DecodeServicesInOrder(grid: Grid)
    requires |grid| >= 2
    ensures IsSubsequence(DecodeServices(grid), BuildAll(grid[0], grid[1..], ServiceOfRow))
  {
    DecodeRowsInOrder(grid[0], grid[1..], ServiceOfRow, ServiceHasId);
  }

  /** One row of the distribution sheet, as `getDistributions` builds it. */
  function DistributionOfRow(obj: RowObject): Distribution
  {
    Distribution(
      id := TextOr(Field(obj, "id")),
      barcode := TextOr(Field(obj, "barcode")),
      itemName := TextOr(Field(obj, "itemName")),
      quantityDistributed := IntOr(Field(obj, "quantityDistributed")),
      service := TextOr(Field(obj, "service")),
      date := TextOr(Field(obj, "date")))
  }

  /** Each field of a decoded distribution comes from the column of that
      name: text fields default to "" and the quantity to 0 when the column
      or the cell is missing. */
  lemma DistributionFields(headers: Row, row: Row)
    ensures var d := DistributionOfRow(MapRowToHeaders(row, headers));
      && d.id == TextOr(Column(headers, row, "id"))
      && d.barcode == TextOr(Column(headers, row, "barcode"))
      && d.itemName == TextOr(Column(headers, row, "itemName"))
      && d.quantityDistributed == IntOr(Column(headers, row, "quantityDistributed"))
      && d.service == TextOr(Column(headers, row, "service"))
      && d.date == TextOr(Column(headers, row, "date"))
    ensures "id" !in HeaderKeys(headers) ==> DistributionOfRow(MapRowToHeaders(row, headers)).id == ""
    ensures "barcode" !in HeaderKeys(headers) ==> DistributionOfRow(MapRowToHeaders(row, headers)).barcode == ""
    ensures "itemName" !in HeaderKeys(headers) ==> DistributionOfRow(MapRowToHeaders(row, headers)).itemName == ""
    ensures "quantityDistributed" !in HeaderKeys(headers) ==>
      DistributionOfRow(MapRowToHeaders(row, headers)).quantityDistributed == 0
    ensures "service" !in HeaderKeys(headers) ==> DistributionOfRow(MapRowToHeaders(row, headers)).service == ""
    ensures "date" !in HeaderKeys(headers) ==> DistributionOfRow(MapRowToHeaders(row, headers)).date == ""
  {
  }

  predicate DistributionHasId(d: Distribution)
  {
    d.id != ""
  }

  /** The distributions with an id, in row order, before sorting. */
  function KeptDistributions(grid: Grid): (r: seq<Distribution>)
    requires |grid| >= 2
    ensures forall j :: 0 <= j < |r| ==> (r[j].id != "" &&
      exists i :: 1 <= i < |grid| && r[j] == DistributionOfRow(MapRowToHeaders(grid[i], grid[0])))
    ensures forall i :: 1 <= i < |grid| && DistributionOfRow(MapRowToHeaders(grid[i], grid[0])).id != "" ==>
      DistributionOfRow(MapRowToHeaders(grid[i], grid[0])) in r
    ensures forall d ::
      multiset(r)[d] ==
        if d.id != "" then multiset(BuildAll(grid[0], grid[1..], DistributionOfRow))[d] else 0
  {
    assert forall i :: 1 <= i < |grid| ==> grid[1..][i - 1] == grid[i];
    DecodeRows(grid[0], grid[1..], DistributionOfRow, DistributionHasId)
  }

  /** `getDistributions` after the fetch: the distributions with an id,
      most recent first. The order is only meaningful when every date
      parses. */
  function DecodeDistributions(grid: Grid, timeOf: TimeOf): (r: seq<Distribution>)
    ensures |grid| < 2 ==> r == []
    ensures |grid| >= 2 ==> multiset(r) == multiset(KeptDistributions(grid))
    ensures |grid| >= 2 && AllDated(KeptDistributions(grid), timeOf) ==>
      AllDated(r, timeOf) && NewestFirst(r, timeOf)
  {
    if |grid| < 2 then [] else SortNewestFirst(KeptDistributions(grid), timeOf)
  }

  /** Every decoded distribution has an id and comes from a data row; the
      result is most recent first whenever all its dates parse. */
  lemma DistributionsFromRows(grid: Grid, timeOf: TimeOf)
    ensures var r := DecodeDistributions(grid, timeOf);
      forall j :: 0 <= j < |r| ==> (r[j].id != "" &&
        exists i :: 1 <= i < |grid| && r[j] == DistributionOfRow(MapRowToHeaders(grid[i], grid[0])))
    ensures AllDated(DecodeDistributions(grid, timeOf), timeOf) ==>
      NewestFirst(DecodeDistributions(grid, timeOf), timeOf)
  {
    if |grid| >= 2 {
      var kept := KeptDistributions(grid);
      var r := DecodeDistributions(grid, timeOf);
      forall j | 0 <= j < |r|
        ensures r[j].id != "" &&
          exists i :: 1 <= i < |grid| && r[j] == DistributionOfRow(MapRowToHeaders(grid[i], grid[0]))
      {
        assert r[j] in multiset(kept);
        var k :| 0 <= k < |kept| && kept[k] == r[j];
      }
      if AllDated(r, timeOf) {
        forall k | 0 <= k < |kept| ensures timeOf(kept[k].date).Some? {
          assert kept[k] in multiset(r);
        }
      }
    }
  }

  /** Distributions dated at the same instant keep their row order. */
  lemma DecodeDistributionsStable(grid: Grid, timeOf: TimeOf, t: int)
    requires |grid| >= 2
    ensures WithTime(DecodeDistributions(grid, timeOf), timeOf, t) == WithTime(KeptDistributions(grid), timeOf, t)
  {
    SortIsStable(KeptDistributions(grid), timeOf, t);
  }
}
