/**
  The tables of the analysis artifact, scripts/release/analysis-artifact.ts: the product join, the
  roll-up to markets and to products, and the reconciliation against the source. Amounts are whole
  thousandths; each SQL statement is a fold over rows.
*/
module AnalysisTables {
  import opened Common
  import opened GroupTotals
  import CoverageGate

  datatype TradeRow = TradeRow(year: int, exporter: int, importer: int, productCode: string, value: nat,
                               quantity: Option<nat>)

  datatype BilateralRow = BilateralRow(year: int, productId: nat, exporter: int, importer: int, value: nat,
                                       quantity: Option<nat>)

  datatype MarketKey = MarketKey(year: int, productId: nat, importer: int)

  datatype MarketCell = MarketCell(
    key: MarketKey, worldValue: nat, supplierCount: nat, squareSum: nat, quantityPresent: nat, quantitySum: Option<nat>)

  datatype ProductYear = ProductYear(year: int, productId: nat)

  // ---------- The product join ----------

  /** The rows of the join for one trade row: one for each product with its code. Ids count from 1. */
  function JoinRow(row: TradeRow, codes: seq<string>): seq<BilateralRow> {
    if codes == [] then []
    else
      JoinRow(row, codes[..|codes| - 1])
        + if codes[|codes| - 1] == row.productCode
          then [BilateralRow(row.year, |codes|, row.exporter, row.importer, row.value, row.quantity)] else []
  }

  function Join(trade: seq<TradeRow>, codes: seq<string>): seq<BilateralRow> {
    if trade == [] then [] else Join(trade[..|trade| - 1], codes) + JoinRow(trade[|trade| - 1], codes)
  }

  ghost function Occurrences(codes: seq<string>, code: string): nat {
    multiset(codes)[code]
  }

  /** A bilateral row is its trade row, with the number of its product instead of the code. */
  ghost predicate JoinedFrom(b: BilateralRow, row: TradeRow, codes: seq<string>) {
    && b.year == row.year && b.exporter == row.exporter && b.importer == row.importer
    && b.value == row.value && b.quantity == row.quantity
    && 1 <= b.productId <= |codes| && codes[b.productId - 1] == row.productCode
  }

  /** A trade row has as many joined rows as there are products with its code. */
  lemma {:induction false} JoinRowCount(row: TradeRow, codes: seq<string>)
    ensures |JoinRow(row, codes)| == Occurrences(codes, row.productCode)
    ensures forall b :: b in JoinRow(row, codes) ==> JoinedFrom(b, row, codes)
  {
    if codes != [] {
      JoinRowCount(row, codes[..|codes| - 1]);
      assert codes == codes[..|codes| - 1] + [codes[|codes| - 1]];
    }
  }

  /** What staging checks: product codes are unique, and every traded code is known. */
  ghost predicate CompleteProducts(trade: seq<TradeRow>, codes: seq<string>) {
    forall row :: row in trade ==> Occurrences(codes, row.productCode) == 1
  }

  lemma UniqueAndKnown(trade: seq<TradeRow>, codes: seq<string>)
    requires forall i, j :: 0 <= i < j < |codes| ==> codes[i] != codes[j]
    requires forall row :: row in trade ==> row.productCode in codes
    ensures CompleteProducts(trade, codes)
  {
    forall row | row in trade
      ensures Occurrences(codes, row.productCode) == 1
    {
      OccursOnce(codes, row.productCode);
    }
  }

  lemma {:induction false} OccursOnce(codes: seq<string>, code: string)
    requires forall i, j :: 0 <= i < j < |codes| ==> codes[i] != codes[j]
    ensures Occurrences(codes, code) == if code in codes then 1 else 0
  {
    if codes != [] {
      var init, last := codes[..|codes| - 1], codes[|codes| - 1];
      assert codes == init + [last];
      OccursOnce(init, code);
    }
  }

  /** The join gives every trade row exactly one row exactly when each traded code belongs to one product. */
  lemma {:induction false} JoinIsTotalAndUniqueIff(trade: seq<TradeRow>, codes: seq<string>)
    ensures (forall row :: row in trade ==> |JoinRow(row, codes)| == 1) <==> CompleteProducts(trade, codes)
  {
    forall row | row in trade
      ensures |JoinRow(row, codes)| == Occurrences(codes, row.productCode)
    {
      JoinRowCount(row, codes);
    }
  }

  /** Then it neither drops nor duplicates rows: the joined rows are the trade rows, one for one. */
  lemma {:induction false} JoinIsOneToOne(trade: seq<TradeRow>, codes: seq<string>)
    requires CompleteProducts(trade, codes)
    ensures |Join(trade, codes)| == |trade|
    ensures forall k :: 0 <= k < |trade| ==> JoinedFrom(Join(trade, codes)[k], trade[k], codes)
  {
    if trade != [] {
      var init, last := trade[..|trade| - 1], trade[|trade| - 1];
      CompleteParts(trade, codes);
      JoinIsOneToOne(init, codes);
      var joined := SingleJoined(codes, last);
      var all, before := Join(trade, codes), Join(init, codes);
      assert all == before + [joined];
      forall k | 0 <= k < |trade|
        ensures JoinedFrom(all[k], trade[k], codes)
      {
        if k < |init| {
          assert all[k] == before[k] && trade[k] == init[k];
        }
      }
    }
  }

  lemma CompleteParts(trade: seq<TradeRow>, codes: seq<string>)
    requires CompleteProducts(trade, codes) && trade != []
    ensures CompleteProducts(trade[..|trade| - 1], codes)
    ensures Occurrences(codes, trade[|trade| - 1].productCode) == 1
  {
  }

  lemma SingleJoined(codes: seq<string>, row: TradeRow) returns (b: BilateralRow)
    requires Occurrences(codes, row.productCode) == 1
    ensures JoinRow(row, codes) == [b] && JoinedFrom(b, row, codes)
  {
    JoinRowCount(row, codes);
    b := JoinRow(row, codes)[0];
    assert b in JoinRow(row, codes);
  }

  predicate SameTradeKey(a: TradeRow, b: TradeRow) {
    a.year == b.year && a.exporter == b.exporter && a.importer == b.importer && a.productCode == b.productCode
  }

  predicate SameBilateralKey(a: BilateralRow, b: BilateralRow) {
    a.year == b.year && a.exporter == b.exporter && a.importer == b.importer && a.productId == b.productId
  }

  /** What staging checks year by year: no two rows of one exporter, importer and product. */
  ghost predicate UniqueTrade(trade: seq<TradeRow>) {
    forall i, j :: 0 <= i < j < |trade| ==> !SameTradeKey(trade[i], trade[j])
  }

  ghost predicate UniqueBilateral(rows: seq<BilateralRow>) {
    forall i, j :: 0 <= i < j < |rows| ==> !SameBilateralKey(rows[i], rows[j])
  }

  lemma JoinedKeys(b: BilateralRow, c: BilateralRow, row: TradeRow, other: TradeRow, codes: seq<string>)
    requires JoinedFrom(b, row, codes) && JoinedFrom(c, other, codes) && SameBilateralKey(b, c)
    ensures SameTradeKey(row, other)
  {
  }

  /** The join keeps the keys unique, although it replaces the code by the number of its product. */
  lemma {:induction false} JoinKeepsKeysUnique(trade: seq<TradeRow>, codes: seq<string>)
    requires CompleteProducts(trade, codes) && UniqueTrade(trade)
    ensures UniqueBilateral(Join(trade, codes))
  {
    JoinIsOneToOne(trade, codes);
    var rows := Join(trade, codes);
    forall i, j | 0 <= i < j < |rows|
      ensures !SameBilateralKey(rows[i], rows[j])
    {
      if SameBilateralKey(rows[i], rows[j]) {
        JoinedKeys(rows[i], rows[j], trade[i], trade[j], codes);
      }
    }
  }

  // ---------- The roll-up to markets ----------

  function KeyOf(b: BilateralRow): MarketKey {
    MarketKey(b.year, b.productId, b.importer)
  }

  /** `SUM` over a column with nulls: null until there is a value. */
  function AddQuantity(sum: Option<nat>, quantity: Option<nat>): Option<nat> {
    if quantity.None? then sum else if sum.None? then quantity else Some(sum.value + quantity.value)
  }

  function NewCell(b: BilateralRow): MarketCell {
    MarketCell(KeyOf(b), b.value, 1, b.value * b.value, if b.quantity.Some? then 1 else 0, b.quantity)
  }

  function AddToCell(cell: MarketCell, b: BilateralRow): MarketCell {
    MarketCell(cell.key, cell.worldValue + b.value, cell.supplierCount + 1, cell.squareSum + b.value * b.value,
               cell.quantityPresent + (if b.quantity.Some? then 1 else 0), AddQuantity(cell.quantitySum, b.quantity))
  }

  function AddRow(cells: seq<MarketCell>, b: BilateralRow): seq<MarketCell> {
    if cells == [] then [NewCell(b)]
    else if cells[0].key == KeyOf(b) then [AddToCell(cells[0], b)] + cells[1..]
    else [cells[0]] + AddRow(cells[1..], b)
  }

  function MarketYears(rows: seq<BilateralRow>): seq<MarketCell> {
    if rows == [] then [] else AddRow(MarketYears(rows[..|rows| - 1]), rows[|rows| - 1])
  }

  /** The columns of a market cell that are sums over its rows. */
  datatype Measure = WorldValue | SupplierCount | SquareSum | QuantityPresent | QuantitySum

  function OrZero(quantity: Option<nat>): nat {
    if quantity.Some? then quantity.value else 0
  }

  function CellAmount(cell: MarketCell, m: Measure): nat {
    match m
    case WorldValue => cell.worldValue
    case SupplierCount => cell.supplierCount
    case SquareSum => cell.squareSum
    case QuantityPresent => cell.quantityPresent
    case QuantitySum => OrZero(cell.quantitySum)
  }

  function RowAmount(b: BilateralRow, m: Measure): nat {
    CellAmount(NewCell(b), m)
  }

  function CellEntries(cells: seq<MarketCell>, m: Measure): seq<Entry<MarketKey>> {
    seq(|cells|, k requires 0 <= k < |cells| => Entry(cells[k].key, CellAmount(cells[k], m)))
  }

  function RowEntries(rows: seq<BilateralRow>, m: Measure): seq<Entry<MarketKey>> {
    seq(|rows|, k requires 0 <= k < |rows| => Entry(KeyOf(rows[k]), RowAmount(rows[k], m)))
  }

  lemma {:induction false} AddRowIsUpsert(cells: seq<MarketCell>, b: BilateralRow, m: Measure)
    ensures CellEntries(AddRow(cells, b), m) == Upsert(CellEntries(cells, m), KeyOf(b), RowAmount(b, m))
  {
    if cells != [] {
      EntriesSplit(cells[0], cells[1..], m);
      assert cells == [cells[0]] + cells[1..];
      if cells[0].key != KeyOf(b) {
        AddRowIsUpsert(cells[1..], b, m);
        EntriesSplit(cells[0], AddRow(cells[1..], b), m);
      } else {
        AddedAmount(cells[0], b, m);
        EntriesSplit(AddToCell(cells[0], b), cells[1..], m);
      }
    }
  }

  lemma EntriesSplit(cell: MarketCell, cells: seq<MarketCell>, m: Measure)
    ensures CellEntries([cell] + cells, m) == [Entry(cell.key, CellAmount(cell, m))] + CellEntries(cells, m)
    ensures CellEntries([cell] + cells, m)[1..] == CellEntries(cells, m)
  {
  }

  lemma AddedAmount(cell: MarketCell, b: BilateralRow, m: Measure)
    ensures CellAmount(AddToCell(cell, b), m) == CellAmount(cell, m) + RowAmount(b, m)
  {
  }

  /** Every column of the market table is a `GROUP BY` of the bilateral rows. */
  lemma {:induction false} MarketColumnIsGroupBy(rows: seq<BilateralRow>, m: Measure)
    ensures CellEntries(MarketYears(rows), m) == GroupBy(RowEntries(rows, m))
  {
    if rows != [] {
      var init := rows[..|rows| - 1];
      MarketColumnIsGroupBy(init, m);
      AddRowIsUpsert(MarketYears(init), rows[|rows| - 1], m);
      assert RowEntries(rows, m)[..|rows| - 1] == RowEntries(init, m);
    }
  }

  // ---------- Concentration ----------

  /** One more amount keeps the inequality between the sum, the sum of squares, and the count. */
  lemma OneMoreAmount(sum: nat, squares: nat, count: nat, v: nat)
    requires squares <= sum * sum <= count * squares
    ensures squares + v * v <= (sum + v) * (sum + v) <= (count + 1) * (squares + v * v)
  {
    assert (sum + v) * (sum + v) == sum * sum + 2 * (sum * v) + v * v;
    assert (count + 1) * (squares + v * v) == count * squares + count * (v * v) + squares + v * v;
    TwiceProduct(sum, squares, count, v);
  }

  lemma TwiceProduct(sum: nat, squares: nat, count: nat, v: nat)
    requires squares <= sum * sum <= count * squares
    ensures 0 <= 2 * (sum * v) <= count * (v * v) + squares
  {
    if count == 0 {
      ZeroSquare(sum);
    } else {
      var p, q := sum * v, v * v;
      TwiceBelowSquares(count * v, sum);
      Rearrange(count, v);
      Reorder(count, v, sum);
      Distribute(count, count * q, squares);
      Distribute(count, p, p);
      CancelFactor(count, p + p, count * q + squares);
    }
  }

  lemma ZeroSquare(x: nat)
    requires x * x == 0
    ensures x == 0
  {
  }

  lemma SquareIsNonNegative(d: int)
    ensures d * d >= 0
  {
  }

  lemma TwiceBelowSquares(a: int, s: int)
    ensures 2 * (a * s) <= a * a + s * s
  {
    SquareIsNonNegative(a - s);
    assert (a - s) * (a - s) == a * a - 2 * (a * s) + s * s;
  }

  lemma Distribute(c: int, x: int, y: int)
    ensures c * (x + y) == c * x + c * y
  {
  }

  lemma Rearrange(c: int, v: int)
    ensures (c * v) * (c * v) == c * (c * (v * v))
  {
    assert (c * v) * (c * v) == c * (v * (c * v));
    assert v * (c * v) == c * (v * v);
  }

  lemma Reorder(c: int, v: int, s: int)
    ensures (c * v) * s == c * (s * v)
  {
    assert (c * v) * s == c * (v * s);
  }

  lemma CancelFactor(c: nat, x: int, y: int)
    requires c > 0 && c * x <= c * y
    ensures x <= y
  {
    if x > y {
      MultiplyGreater(c, x, y);
    }
  }

  lemma MultiplyGreater(c: nat, x: int, y: int)
    requires c > 0 && x > y
    ensures c * x > c * y
  {
    assert c * x == c * (x - y) + c * y;
    assert c * (x - y) >= 1;
  }

  lemma {:induction false} KeySumsBounded(rows: seq<BilateralRow>, where: MarketKey -> bool)
    ensures var sum := SumIf(RowEntries(rows, WorldValue), where);
            var squares := SumIf(RowEntries(rows, SquareSum), where);
            var count := SumIf(RowEntries(rows, SupplierCount), where);
            sum >= 0 && squares >= 0 && count >= 0 && squares <= sum * sum <= count * squares
  {
    if rows != [] {
      var init, last := rows[..|rows| - 1], rows[|rows| - 1];
      KeySumsBounded(init, where);
      assert RowEntries(rows, WorldValue)[..|rows| - 1] == RowEntries(init, WorldValue);
      assert RowEntries(rows, SquareSum)[..|rows| - 1] == RowEntries(init, SquareSum);
      assert RowEntries(rows, SupplierCount)[..|rows| - 1] == RowEntries(init, SupplierCount);
      if where(KeyOf(last)) {
        OneMoreAmount(SumIf(RowEntries(init, WorldValue), where), SumIf(RowEntries(init, SquareSum), where),
                      SumIf(RowEntries(init, SupplierCount), where), last.value);
      }
    }
  }

  /** In every market cell: the sum of squares is at most the squared total, and that at most the supplier count times it. */
  lemma {:induction false} CellIsBounded(rows: seq<BilateralRow>, at: nat)
    requires at < |MarketYears(rows)|
    ensures var cell := MarketYears(rows)[at];
            cell.squareSum <= cell.worldValue * cell.worldValue <= cell.supplierCount * cell.squareSum
  {
    var cell := MarketYears(rows)[at];
    CellColumn(rows, at, WorldValue);
    CellColumn(rows, at, SquareSum);
    CellColumn(rows, at, SupplierCount);
    KeySumsBounded(rows, Only(cell.key));
  }

  /** A cell's column is the sum over the bilateral rows of its key. */
  lemma {:induction false} CellColumn(rows: seq<BilateralRow>, at: nat, m: Measure)
    requires at < |MarketYears(rows)|
    ensures var cell := MarketYears(rows)[at];
            CellAmount(cell, m) == SumIf(RowEntries(rows, m), Only(cell.key))
  {
    MarketColumnIsGroupBy(rows, m);
    assert CellEntries(MarketYears(rows), m)[at].key == MarketYears(rows)[at].key;
    GroupAmount(RowEntries(rows, m), at);
  }

  /** The exporters of a market in a year. */
  ghost function Exporters(rows: seq<BilateralRow>, key: MarketKey): set<int> {
    set b | b in rows && KeyOf(b) == key :: b.exporter
  }

  lemma ExportersNext(rows: seq<BilateralRow>, key: MarketKey)
    requires rows != [] && UniqueBilateral(rows)
    ensures var init, last := rows[..|rows| - 1], rows[|rows| - 1];
            && UniqueBilateral(init)
            && if KeyOf(last) == key then
                 last.exporter !in Exporters(init, key) && Exporters(rows, key) == Exporters(init, key) + {last.exporter}
               else Exporters(rows, key) == Exporters(init, key)
  {
    var init, last := rows[..|rows| - 1], rows[|rows| - 1];
    assert forall b :: b in rows <==> b in init || b == last;
    forall b | b in init && KeyOf(b) == key && KeyOf(last) == key
      ensures b.exporter != last.exporter
    {
      var i :| 0 <= i < |init| && init[i] == b;
      assert rows[i] == b;
    }
  }

  lemma {:induction false} CountsExporters(rows: seq<BilateralRow>, key: MarketKey)
    requires UniqueBilateral(rows)
    ensures SumIf(RowEntries(rows, SupplierCount), Only(key)) == |Exporters(rows, key)|
  {
    if rows != [] {
      var init := rows[..|rows| - 1];
      ExportersNext(rows, key);
      CountsExporters(init, key);
      assert RowEntries(rows, SupplierCount)[..|rows| - 1] == RowEntries(init, SupplierCount);
    }
  }

  /** With unique keys a cell's supplier count is the number of different exporters that supply its market. */
  lemma {:induction false} SupplierCountIsExporters(rows: seq<BilateralRow>, at: nat)
    requires UniqueBilateral(rows) && at < |MarketYears(rows)|
    ensures var cell := MarketYears(rows)[at];
            cell.supplierCount == |Exporters(rows, cell.key)|
  {
    CellColumn(rows, at, SupplierCount);
    CountsExporters(rows, MarketYears(rows)[at].key);
  }

  ghost predicate NullIffNonePresent(cells: seq<MarketCell>) {
    forall k :: 0 <= k < |cells| ==> (cells[k].quantitySum.None? <==> cells[k].quantityPresent == 0)
  }

  lemma {:induction false} AddRowKeepsNulls(cells: seq<MarketCell>, b: BilateralRow)
    requires NullIffNonePresent(cells)
    ensures NullIffNonePresent(AddRow(cells, b))
  {
    if cells != [] && cells[0].key != KeyOf(b) {
      AddRowKeepsNulls(cells[1..], b);
    }
  }

  /** A cell's sum of quantities is null exactly when none of its rows has a quantity; a sum of 0 is not null. */
  lemma {:induction false} QuantityIsNullIff(rows: seq<BilateralRow>)
    ensures NullIffNonePresent(MarketYears(rows))
  {
    if rows != [] {
      QuantityIsNullIff(rows[..|rows| - 1]);
      AddRowKeepsNulls(MarketYears(rows[..|rows| - 1]), rows[|rows| - 1]);
    }
  }

  // ---------- The roll-up to products ----------

  function ProductEntries(cells: seq<MarketCell>): seq<Entry<ProductYear>> {
    seq(|cells|, k requires 0 <= k < |cells| =>
                   Entry(ProductYear(cells[k].key.year, cells[k].key.productId), cells[k].worldValue))
  }

  function ProductYears(cells: seq<MarketCell>): seq<Entry<ProductYear>> {
    GroupBy(ProductEntries(cells))
  }

  ghost function MarketYearIs(y: int): MarketKey -> bool {
    (key: MarketKey) => key.year == y
  }

  ghost function ProductYearIs(y: int): ProductYear -> bool {
    (key: ProductYear) => key.year == y
  }

  lemma {:induction false} ProductEntriesSum(cells: seq<MarketCell>, y: int)
    ensures SumIf(ProductEntries(cells), ProductYearIs(y)) == SumIf(CellEntries(cells, WorldValue), MarketYearIs(y))
  {
    if cells != [] {
      var init := cells[..|cells| - 1];
      ProductEntriesSum(init, y);
      assert ProductEntries(cells)[..|cells| - 1] == ProductEntries(init);
      assert CellEntries(cells, WorldValue)[..|cells| - 1] == CellEntries(init, WorldValue);
    }
  }

  /** Per year, the bilateral, market and product totals are equal; and so are the other market columns. */
  lemma {:induction false} AnnualTotalsAgree(rows: seq<BilateralRow>, y: int, m: Measure)
    ensures SumIf(CellEntries(MarketYears(rows), m), MarketYearIs(y)) == SumIf(RowEntries(rows, m), MarketYearIs(y))
    ensures SumIf(ProductYears(MarketYears(rows)), ProductYearIs(y)) == SumIf(RowEntries(rows, WorldValue), MarketYearIs(y))
  {
    MarketColumnIsGroupBy(rows, m);
    GroupByIsExact(RowEntries(rows, m));
    MarketColumnIsGroupBy(rows, WorldValue);
    GroupByIsExact(RowEntries(rows, WorldValue));
    GroupByIsExact(ProductEntries(MarketYears(rows)));
    ProductEntriesSum(MarketYears(rows), y);
  }

  // ---------- Reconciliation ----------

  /** The totals of one year, as the source's annual checks and the three tables give them. */
  datatype AnnualSource = AnnualSource(year: int, rowCount: int, value: int, quantityPresent: int, quantityTotal: int)

  datatype BilateralAnnual = BilateralAnnual(year: int, rowCount: int, value: int)

  datatype MarketAnnual = MarketAnnual(year: int, value: int, quantityPresent: int, quantityTotal: int)

  datatype ProductAnnual = ProductAnnual(year: int, value: int)

  /** The years of some rows, ascending, each once. */
  function SortedYears(years: seq<int>): (r: seq<int>)
    ensures CoverageGate.Ascending(r) && forall y :: y in r <==> y in years
  {
    if years == [] then []
    else
      assert forall y :: y in years <==> y in years[..|years| - 1] || y == years[|years| - 1];
      CoverageGate.InsertYear(SortedYears(years[..|years| - 1]), years[|years| - 1])
  }

  function YearsOfKeys<K>(entries: seq<Entry<K>>, yearOf: K -> int): seq<int> {
    seq(|entries|, k requires 0 <= k < |entries| => yearOf(entries[k].key))
  }

  function MarketYearOf(key: MarketKey): int { key.year }

  function ProductYearOf(key: ProductYear): int { key.year }

  ghost function BilateralTotals(rows: seq<BilateralRow>): seq<BilateralAnnual> {
    var years := SortedYears(YearsOfKeys(RowEntries(rows, WorldValue), MarketYearOf));
    seq(|years|, k requires 0 <= k < |years| =>
      BilateralAnnual(years[k], SumIf(RowEntries(rows, SupplierCount), MarketYearIs(years[k])),
                      SumIf(RowEntries(rows, WorldValue), MarketYearIs(years[k]))))
  }

  ghost function MarketTotals(cells: seq<MarketCell>): seq<MarketAnnual> {
    var years := SortedYears(YearsOfKeys(CellEntries(cells, WorldValue), MarketYearOf));
    seq(|years|, k requires 0 <= k < |years| =>
      MarketAnnual(years[k], SumIf(CellEntries(cells, WorldValue), MarketYearIs(years[k])),
                   SumIf(CellEntries(cells, QuantityPresent), MarketYearIs(years[k])),
                   SumIf(CellEntries(cells, QuantitySum), MarketYearIs(years[k]))))
  }

  ghost function ProductTotals(products: seq<Entry<ProductYear>>): seq<ProductAnnual> {
    var years := SortedYears(YearsOfKeys(products, ProductYearOf));
    seq(|years|, k requires 0 <= k < |years| => ProductAnnual(years[k], SumIf(products, ProductYearIs(years[k]))))
  }

  /** What a truthful source report says of the rows: each year with its exact totals, ascending. */
  ghost function TrueReport(rows: seq<BilateralRow>): seq<AnnualSource> {
    var years := SortedYears(YearsOfKeys(RowEntries(rows, WorldValue), MarketYearOf));
    seq(|years|, k requires 0 <= k < |years| =>
      AnnualSource(years[k], SumIf(RowEntries(rows, SupplierCount), MarketYearIs(years[k])),
                   SumIf(RowEntries(rows, WorldValue), MarketYearIs(years[k])),
                   SumIf(RowEntries(rows, QuantityPresent), MarketYearIs(years[k])),
                   SumIf(RowEntries(rows, QuantitySum), MarketYearIs(years[k]))))
  }

  predicate YearReconciles(source: AnnualSource, b: BilateralAnnual, m: MarketAnnual, p: ProductAnnual) {
    && b.year == source.year && m.year == source.year && p.year == source.year
    && b.rowCount == source.rowCount
    && b.value == source.value && m.value == source.value && p.value == source.value
    && m.quantityPresent == source.quantityPresent && m.quantityTotal == source.quantityTotal
  }

  /** The loop of the reconciliation, and the comparison of the lengths after it. */
  method ReconcileArtifact(report: seq<AnnualSource>, bilateral: seq<BilateralAnnual>, market: seq<MarketAnnual>,
                           product: seq<ProductAnnual>)
    returns (accepted: bool)
    ensures accepted <==>
              && |bilateral| == |market| == |product| == |report|
              && forall k :: 0 <= k < |report| ==> YearReconciles(report[k], bilateral[k], market[k], product[k])
  {
    for index := 0 to |report|
      invariant index <= |bilateral| && index <= |market| && index <= |product|
      invariant forall k :: 0 <= k < index ==> YearReconciles(report[k], bilateral[k], market[k], product[k])
    {
      if index >= |bilateral| || index >= |market| || index >= |product| {
        return false;
      }
      if !YearReconciles(report[index], bilateral[index], market[index], product[index]) {
        return false;
      }
    }
    return |bilateral| == |report| && |market| == |report| && |product| == |report|;
  }

  /** Two lists with the same years have the same sorted years. */
  lemma {:induction false} SameSortedYears(a: seq<int>, b: seq<int>)
    requires forall y :: y in a <==> y in b
    ensures SortedYears(a) == SortedYears(b)
  {
    CoverageGate.AscendingIsUnique(SortedYears(a), SortedYears(b));
  }

  lemma YearsOfProducts(cells: seq<MarketCell>)
    ensures YearsOfKeys(ProductEntries(cells), ProductYearOf) == YearsOfKeys(CellEntries(cells, WorldValue), MarketYearOf)
  {
    var a, b := YearsOfKeys(ProductEntries(cells), ProductYearOf), YearsOfKeys(CellEntries(cells, WorldValue), MarketYearOf);
    assert |a| == |b|;
    forall k | 0 <= k < |cells|
      ensures a[k] == b[k]
    {
    }
  }

  lemma {:induction false} SameYears(rows: seq<BilateralRow>)
    ensures SortedYears(YearsOfKeys(CellEntries(MarketYears(rows), WorldValue), MarketYearOf))
            == SortedYears(YearsOfKeys(RowEntries(rows, WorldValue), MarketYearOf))
    ensures SortedYears(YearsOfKeys(ProductYears(MarketYears(rows)), ProductYearOf))
            == SortedYears(YearsOfKeys(RowEntries(rows, WorldValue), MarketYearOf))
  {
    var entries, cells := RowEntries(rows, WorldValue), MarketYears(rows);
    MarketColumnIsGroupBy(rows, WorldValue);
    GroupKeepsYears(entries, MarketYearOf);
    SameSortedYears(YearsOfKeys(GroupBy(entries), MarketYearOf), YearsOfKeys(entries, MarketYearOf));
    GroupKeepsYears(ProductEntries(cells), ProductYearOf);
    YearsOfProducts(cells);
    SameSortedYears(YearsOfKeys(ProductYears(cells), ProductYearOf), YearsOfKeys(entries, MarketYearOf));
  }

  /** Grouping keeps the years that occur. */
  lemma {:induction false} GroupKeepsYears<K(!new)>(entries: seq<Entry<K>>, yearOf: K -> int)
    ensures forall y :: y in YearsOfKeys(GroupBy(entries), yearOf) <==> y in YearsOfKeys(entries, yearOf)
  {
    var groups := GroupBy(entries);
    GroupByIsExact(entries);
    forall y | y in YearsOfKeys(groups, yearOf)
      ensures y in YearsOfKeys(entries, yearOf)
    {
      var k :| 0 <= k < |groups| && yearOf(groups[k].key) == y;
      assert HasKey(groups, groups[k].key);
      var l :| 0 <= l < |entries| && entries[l].key == groups[k].key;
      assert YearsOfKeys(entries, yearOf)[l] == y;
    }
    forall y | y in YearsOfKeys(entries, yearOf)
      ensures y in YearsOfKeys(groups, yearOf)
    {
      var l :| 0 <= l < |entries| && yearOf(entries[l].key) == y;
      assert HasKey(entries, entries[l].key);
      var k :| 0 <= k < |groups| && groups[k].key == entries[l].key;
      assert YearsOfKeys(groups, yearOf)[k] == y;
    }
  }

  /**
    For tables rolled up from the bilateral rows, the reconciliation accepts exactly one source report:
    the true one, year by year in ascending order.
  */
  lemma {:induction false} ReconcilesIffTrue(rows: seq<BilateralRow>, report: seq<AnnualSource>)
    ensures var b, m := BilateralTotals(rows), MarketTotals(MarketYears(rows));
            var p := ProductTotals(ProductYears(MarketYears(rows)));
            && |b| == |m| == |p|
            && ((|b| == |report| && forall k :: 0 <= k < |report| ==> YearReconciles(report[k], b[k], m[k], p[k]))
                <==> report == TrueReport(rows))
  {
    SameYears(rows);
    var b, m, p := BilateralTotals(rows), MarketTotals(MarketYears(rows)), ProductTotals(ProductYears(MarketYears(rows)));
    var truth := TrueReport(rows);
    forall k | 0 <= k < |truth|
      ensures YearReconciles(truth[k], b[k], m[k], p[k])
    {
      AnnualTotalsAgree(rows, truth[k].year, WorldValue);
      AnnualTotalsAgree(rows, truth[k].year, QuantityPresent);
      AnnualTotalsAgree(rows, truth[k].year, QuantitySum);
    }
    if |b| == |report| && forall k :: 0 <= k < |report| ==> YearReconciles(report[k], b[k], m[k], p[k]) {
      forall k | 0 <= k < |report|
        ensures report[k] == truth[k]
      {
        assert YearReconciles(report[k], b[k], m[k], p[k]) && YearReconciles(truth[k], b[k], m[k], p[k]);
      }
    }
  }

  // ---------- The report that staging writes ----------

  /** What one trade row adds to a total. */
  function TradeAmount(row: TradeRow, m: Measure): int {
    match m
    case WorldValue => row.value
    case SupplierCount => 1
    case SquareSum => row.value * row.value
    case QuantityPresent => if row.quantity.Some? then 1 else 0
    case QuantitySum => OrZero(row.quantity)
  }

  /** A total of the trade rows of one year. */
  ghost function TradeSum(trade: seq<TradeRow>, y: int, m: Measure): int {
    if trade == [] then 0
    else
      var last := trade[|trade| - 1];
      TradeSum(trade[..|trade| - 1], y, m) + if last.year == y then TradeAmount(last, m) else 0
  }

  function TradeYears(trade: seq<TradeRow>): seq<int> {
    seq(|trade|, k requires 0 <= k < |trade| => trade[k].year)
  }

  /** The annual checks of staging: for each year of the trade its rows, value and quantities, ascending. */
  ghost function SourceReport(trade: seq<TradeRow>): seq<AnnualSource> {
    var years := SortedYears(TradeYears(trade));
    seq(|years|, k requires 0 <= k < |years| =>
      AnnualSource(years[k], TradeSum(trade, years[k], SupplierCount), TradeSum(trade, years[k], WorldValue),
                   TradeSum(trade, years[k], QuantityPresent), TradeSum(trade, years[k], QuantitySum)))
  }

  ghost predicate AllJoinedFrom(rows: seq<BilateralRow>, trade: seq<TradeRow>, codes: seq<string>) {
    |rows| == |trade| && forall k :: 0 <= k < |trade| ==> JoinedFrom(rows[k], trade[k], codes)
  }

  lemma JoinedAmount(b: BilateralRow, row: TradeRow, codes: seq<string>, m: Measure)
    requires JoinedFrom(b, row, codes)
    ensures RowAmount(b, m) == TradeAmount(row, m) && KeyOf(b).year == row.year
  {
  }

  /** Rows that were joined one for one have the totals of the trade rows. */
  lemma {:induction false} JoinedSum(rows: seq<BilateralRow>, trade: seq<TradeRow>, codes: seq<string>, y: int, m: Measure)
    requires AllJoinedFrom(rows, trade, codes)
    ensures SumIf(RowEntries(rows, m), MarketYearIs(y)) == TradeSum(trade, y, m)
    decreases |trade|
  {
    if trade != [] {
      var n := |trade| - 1;
      JoinedSum(rows[..n], trade[..n], codes, y, m);
      JoinedAmount(rows[n], trade[n], codes, m);
      assert RowEntries(rows, m)[..n] == RowEntries(rows[..n], m);
    }
  }

  lemma JoinedYears(rows: seq<BilateralRow>, trade: seq<TradeRow>, codes: seq<string>)
    requires AllJoinedFrom(rows, trade, codes)
    ensures YearsOfKeys(RowEntries(rows, WorldValue), MarketYearOf) == TradeYears(trade)
  {
    var years := YearsOfKeys(RowEntries(rows, WorldValue), MarketYearOf);
    forall k | 0 <= k < |trade|
      ensures years[k] == TradeYears(trade)[k]
    {
      assert JoinedFrom(rows[k], trade[k], codes);
    }
  }

  /** Read off the trade rows or off the joined table, the report is the same. */
  lemma {:induction false} SourceReportIsTrue(trade: seq<TradeRow>, codes: seq<string>)
    requires CompleteProducts(trade, codes)
    ensures SourceReport(trade) == TrueReport(Join(trade, codes))
  {
    var rows := Join(trade, codes);
    JoinIsOneToOne(trade, codes);
    JoinedYears(rows, trade, codes);
    forall y, m
      ensures SumIf(RowEntries(rows, m), MarketYearIs(y)) == TradeSum(trade, y, m)
    {
      JoinedSum(rows, trade, codes, y, m);
    }
  }

  /**
    Accepted staging reconciles, and nothing else does: of the tables that are built from the trade, the
    reconciliation accepts exactly the report that staging wrote of the trade itself.
  */
  lemma {:induction false} OnlyStagingReconciles(trade: seq<TradeRow>, codes: seq<string>, report: seq<AnnualSource>)
    requires CompleteProducts(trade, codes)
    ensures var rows := Join(trade, codes);
            var b, m := BilateralTotals(rows), MarketTotals(MarketYears(rows));
            var p := ProductTotals(ProductYears(MarketYears(rows)));
            (&& |b| == |m| == |p| == |report|
             && forall k :: 0 <= k < |report| ==> YearReconciles(report[k], b[k], m[k], p[k]))
            <==> report == SourceReport(trade)
  {
    SourceReportIsTrue(trade, codes);
    ReconcilesIffTrue(Join(trade, codes), report);
  }

  // ---------- What the tables hold, row by row ----------

  ghost function SumRows(rows: seq<BilateralRow>, where: BilateralRow -> bool, amount: BilateralRow -> int): int {
    if rows == [] then 0
    else
      var last := rows[|rows| - 1];
      SumRows(rows[..|rows| - 1], where, amount) + if where(last) then amount(last) else 0
  }

  ghost function OfProduct(year: int, productId: nat): BilateralRow -> bool {
    (b: BilateralRow) => b.year == year && b.productId == productId
  }

  ghost function OfMarket(year: int, productId: nat, importer: int): BilateralRow -> bool {
    (b: BilateralRow) => b.year == year && b.productId == productId && b.importer == importer
  }

  ghost predicate Occurs(rows: seq<BilateralRow>, where: BilateralRow -> bool) {
    exists k :: 0 <= k < |rows| && where(rows[k])
  }

  ghost predicate OccursWithQuantity(rows: seq<BilateralRow>, where: BilateralRow -> bool) {
    exists k :: 0 <= k < |rows| && where(rows[k]) && rows[k].quantity.Some?
  }

  /** One row for each year and product that is traded, with the value of exactly the rows of both. */
  ghost predicate ProductTableSays(table: seq<Entry<ProductYear>>, rows: seq<BilateralRow>) {
    && DistinctKeys(table)
    && (forall y, p :: HasKey(table, ProductYear(y, p)) <==> Occurs(rows, OfProduct(y, p)))
    && forall k :: 0 <= k < |table| ==>
         table[k].amount == SumRows(rows, OfProduct(table[k].key.year, table[k].key.productId), (b: BilateralRow) => b.value)
  }

  /** One cell for each year, product and importer that is traded, each column read off exactly the rows of all three. */
  ghost predicate MarketTableSays(cells: seq<MarketCell>, rows: seq<BilateralRow>) {
    && (forall i, j :: 0 <= i < j < |cells| ==> cells[i].key != cells[j].key)
    && (forall y, p, j :: HasCell(cells, MarketKey(y, p, j)) <==> Occurs(rows, OfMarket(y, p, j)))
    && forall k :: 0 <= k < |cells| ==> CellSays(cells[k], rows)
  }

  ghost predicate HasCell(cells: seq<MarketCell>, key: MarketKey) {
    exists k :: 0 <= k < |cells| && cells[k].key == key
  }

  ghost predicate CellSays(cell: MarketCell, rows: seq<BilateralRow>) {
    var here := OfMarket(cell.key.year, cell.key.productId, cell.key.importer);
    && cell.worldValue == SumRows(rows, here, (b: BilateralRow) => b.value)
    && cell.supplierCount == SumRows(rows, here, (b: BilateralRow) => 1)
    && cell.squareSum == SumRows(rows, here, (b: BilateralRow) => b.value * b.value)
    && cell.quantityPresent == SumRows(rows, here, (b: BilateralRow) => if b.quantity.Some? then 1 else 0)
    && (cell.quantitySum.Some? <==> OccursWithQuantity(rows, here))
    && (cell.quantitySum.Some? ==>
          cell.quantitySum.value
          == SumRows(rows, here, (b: BilateralRow) => if b.quantity.Some? then b.quantity.value else 0))
  }

  /** A sum over keyed rows is the sum over the rows themselves. */
  lemma {:induction false} SumIfIsSumRows(rows: seq<BilateralRow>, m: Measure, keys: MarketKey -> bool,
                                          where: BilateralRow -> bool, amount: BilateralRow -> int)
    requires forall b :: keys(KeyOf(b)) == where(b)
    requires forall b :: RowAmount(b, m) == amount(b)
    ensures SumIf(RowEntries(rows, m), keys) == SumRows(rows, where, amount)
  {
    if rows != [] {
      var init := rows[..|rows| - 1];
      SumIfIsSumRows(init, m, keys, where, amount);
      assert RowEntries(rows, m)[..|rows| - 1] == RowEntries(init, m);
    }
  }

  lemma {:induction false} ProductKeys(rows: seq<BilateralRow>, y: int, p: nat)
    ensures HasKey(ProductYears(MarketYears(rows)), ProductYear(y, p)) <==> Occurs(rows, OfProduct(y, p))
  {
    var cells := MarketYears(rows);
    var entries := RowEntries(rows, WorldValue);
    GroupByIsExact(ProductEntries(cells));
    MarketColumnIsGroupBy(rows, WorldValue);
    GroupByIsExact(entries);
    if HasKey(ProductEntries(cells), ProductYear(y, p)) {
      var k :| 0 <= k < |cells| && ProductEntries(cells)[k].key == ProductYear(y, p);
      assert CellEntries(cells, WorldValue)[k].key == cells[k].key;
      assert HasKey(entries, cells[k].key);
      var l :| 0 <= l < |entries| && entries[l].key == cells[k].key;
      assert OfProduct(y, p)(rows[l]);
    }
    if l :| 0 <= l < |rows| && OfProduct(y, p)(rows[l]) {
      assert entries[l].key == KeyOf(rows[l]);
      assert HasKey(CellEntries(cells, WorldValue), KeyOf(rows[l]));
      var k :| 0 <= k < |cells| && CellEntries(cells, WorldValue)[k].key == KeyOf(rows[l]);
      assert ProductEntries(cells)[k].key == ProductYear(y, p);
    }
  }

  ghost function InProduct(y: int, p: nat): MarketKey -> bool {
    (key: MarketKey) => key.year == y && key.productId == p
  }

  lemma {:induction false} ProductEntriesOf(cells: seq<MarketCell>, y: int, p: nat)
    ensures SumIf(ProductEntries(cells), Only(ProductYear(y, p))) == SumIf(CellEntries(cells, WorldValue), InProduct(y, p))
  {
    if cells != [] {
      var init := cells[..|cells| - 1];
      ProductEntriesOf(init, y, p);
      assert ProductEntries(cells)[..|cells| - 1] == ProductEntries(init);
      assert CellEntries(cells, WorldValue)[..|cells| - 1] == CellEntries(init, WorldValue);
    }
  }

  /** The product table, straight from the bilateral rows. */
  lemma {:induction false} ProductTableMeans(rows: seq<BilateralRow>)
    ensures ProductTableSays(ProductYears(MarketYears(rows)), rows)
  {
    var cells, table := MarketYears(rows), ProductYears(MarketYears(rows));
    GroupByIsExact(ProductEntries(cells));
    forall y, p
      ensures HasKey(table, ProductYear(y, p)) <==> Occurs(rows, OfProduct(y, p))
    {
      ProductKeys(rows, y, p);
    }
    forall k | 0 <= k < |table|
      ensures table[k].amount
              == SumRows(rows, OfProduct(table[k].key.year, table[k].key.productId), (b: BilateralRow) => b.value)
    {
      var y, p := table[k].key.year, table[k].key.productId;
      GroupAmount(ProductEntries(cells), k);
      ProductEntriesOf(cells, y, p);
      MarketColumnIsGroupBy(rows, WorldValue);
      GroupByIsExact(RowEntries(rows, WorldValue));
      SumIfIsSumRows(rows, WorldValue, InProduct(y, p), OfProduct(y, p), (b: BilateralRow) => b.value);
    }
  }

  lemma {:induction false} CellKeys(rows: seq<BilateralRow>, key: MarketKey)
    ensures HasCell(MarketYears(rows), key) <==> Occurs(rows, OfMarket(key.year, key.productId, key.importer))
  {
    var cells, entries := MarketYears(rows), RowEntries(rows, WorldValue);
    var columns := CellEntries(cells, WorldValue);
    MarketColumnIsGroupBy(rows, WorldValue);
    GroupByIsExact(entries);
    if k :| 0 <= k < |cells| && cells[k].key == key {
      assert columns[k].key == key;
      assert HasKey(entries, key);
      var l :| 0 <= l < |entries| && entries[l].key == key;
      assert OfMarket(key.year, key.productId, key.importer)(rows[l]);
    }
    if l :| 0 <= l < |rows| && OfMarket(key.year, key.productId, key.importer)(rows[l]) {
      assert entries[l].key == key;
      assert HasKey(columns, key);
      var k :| 0 <= k < |columns| && columns[k].key == key;
      assert cells[k].key == key;
    }
  }

  lemma {:induction false} ColumnIsRowSum(rows: seq<BilateralRow>, at: nat, m: Measure, amount: BilateralRow -> int)
    requires at < |MarketYears(rows)|
    requires forall b :: RowAmount(b, m) == amount(b)
    ensures var cell := MarketYears(rows)[at];
            CellAmount(cell, m) == SumRows(rows, OfMarket(cell.key.year, cell.key.productId, cell.key.importer), amount)
  {
    var key := MarketYears(rows)[at].key;
    CellColumn(rows, at, m);
    SumIfIsSumRows(rows, m, Only(key), OfMarket(key.year, key.productId, key.importer), amount);
  }

  lemma {:induction false} PresentIff(rows: seq<BilateralRow>, where: BilateralRow -> bool)
    ensures var n := SumRows(rows, where, (b: BilateralRow) => if b.quantity.Some? then 1 else 0);
            n >= 0 && (n == 0 <==> !OccursWithQuantity(rows, where))
  {
    if rows != [] {
      var init := rows[..|rows| - 1];
      PresentIff(init, where);
      assert forall k :: 0 <= k < |init| ==> init[k] == rows[k];
    }
  }

  lemma {:induction false} CellMeans(rows: seq<BilateralRow>, at: nat)
    requires at < |MarketYears(rows)|
    ensures CellSays(MarketYears(rows)[at], rows)
  {
    var cell := MarketYears(rows)[at];
    ColumnIsRowSum(rows, at, WorldValue, (b: BilateralRow) => b.value);
    ColumnIsRowSum(rows, at, SupplierCount, (b: BilateralRow) => 1);
    ColumnIsRowSum(rows, at, SquareSum, (b: BilateralRow) => b.value * b.value);
    ColumnIsRowSum(rows, at, QuantityPresent, (b: BilateralRow) => if b.quantity.Some? then 1 else 0);
    ColumnIsRowSum(rows, at, QuantitySum, (b: BilateralRow) => if b.quantity.Some? then b.quantity.value else 0);
    QuantityIsNullIff(rows);
    PresentIff(rows, OfMarket(cell.key.year, cell.key.productId, cell.key.importer));
  }

  /** The market table, straight from the bilateral rows. */
  lemma {:induction false} MarketTableMeans(rows: seq<BilateralRow>)
    ensures MarketTableSays(MarketYears(rows), rows)
  {
    var cells := MarketYears(rows);
    MarketColumnIsGroupBy(rows, WorldValue);
    GroupByIsExact(RowEntries(rows, WorldValue));
    assert forall k :: 0 <= k < |cells| ==> CellEntries(cells, WorldValue)[k].key == cells[k].key;
    forall y, p, j
      ensures HasCell(cells, MarketKey(y, p, j)) <==> Occurs(rows, OfMarket(y, p, j))
    {
      CellKeys(rows, MarketKey(y, p, j));
    }
    forall k | 0 <= k < |cells|
      ensures CellSays(cells[k], rows)
    {
      CellMeans(rows, k);
    }
  }

  // ---------- Filling the tables ----------

  datatype Economy = Economy(code: int, hasTradeEvidence: bool)

  /** The tables, filled statement by statement. */
  class ArtifactTables {
    var bilateralYear: seq<BilateralRow>
    var marketYear: seq<MarketCell>
    var productYear: seq<Entry<ProductYear>>
    var economy: seq<Economy>

    constructor (economyCodes: seq<int>)
      ensures bilateralYear == [] && marketYear == [] && productYear == []
      ensures |economy| == |economyCodes|
      ensures forall k :: 0 <= k < |economy| ==> economy[k] == Economy(economyCodes[k], false)
    {
      bilateralYear, marketYear, productYear := [], [], [];
      economy := seq(|economyCodes|, k requires 0 <= k < |economyCodes| => Economy(economyCodes[k], false));
    }

    /** The two inserts that read the trade files. */
    method InsertTrade(trade: seq<TradeRow>, codes: seq<string>)
      requires bilateralYear == [] && marketYear == []
      modifies this`bilateralYear, this`marketYear
      ensures bilateralYear == Join(trade, codes) && marketYear == MarketYears(bilateralYear)
    {
      for n := 0 to |trade|
        invariant bilateralYear == Join(trade[..n], codes) && marketYear == []
      {
        TakeNext(trade, n);
        bilateralYear := bilateralYear + JoinRow(trade[n], codes);
      }
      TakeAll(trade);
      var rows := bilateralYear;
      for n := 0 to |rows|
        invariant bilateralYear == rows && marketYear == MarketYears(rows[..n])
      {
        TakeNext(rows, n);
        marketYear := AddRow(marketYear, rows[n]);
      }
      TakeAll(rows);
    }

    /** The statements in their order; the update of the economies comes last. */
    method PopulateArtifactTables(trade: seq<TradeRow>, codes: seq<string>)
      requires bilateralYear == [] && marketYear == []
      modifies this
      ensures bilateralYear == Join(trade, codes)
      ensures marketYear == MarketYears(bilateralYear) && productYear == ProductYears(marketYear)
      ensures MarketTableSays(marketYear, bilateralYear) && ProductTableSays(productYear, bilateralYear)
      ensures |economy| == |old(economy)|
      ensures forall k :: 0 <= k < |economy| ==>
                && economy[k].code == old(economy)[k].code
                && (economy[k].hasTradeEvidence <==>
                      || old(economy)[k].hasTradeEvidence
                      || exists b :: b in bilateralYear && economy[k].code in {b.exporter, b.importer})
    {
      InsertTrade(trade, codes);
      productYear := ProductYears(marketYear);
      MarketTableMeans(bilateralYear);
      ProductTableMeans(bilateralYear);
      var traded := (set b | b in bilateralYear :: b.exporter) + (set b | b in bilateralYear :: b.importer);
      economy := seq(|economy|, k requires 0 <= k < |economy| reads this =>
        if economy[k].code in traded then Economy(economy[k].code, true) else economy[k]);
    }
  }
}
