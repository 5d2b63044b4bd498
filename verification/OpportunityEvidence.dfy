/**
  What the evidence of one exporter is: a fresh load of the market universe, overlaid with that
  exporter's rows only. This is the value that the incremental build of
  scripts/release/opportunity-index.ts has to reproduce for every exporter.
*/
module OpportunityEvidence {
  import opened Common
  import opened GroupTotals

  datatype ProductIdentity = ProductIdentity(code: string, descriptionEn: string)

  datatype EconomyIdentity = EconomyIdentity(code: int, name: string)

  datatype MarketKey = MarketKey(productId: int, importer: int)

  /** A year with an amount in thousandths of a kilo-dollar. */
  datatype YearValue = YearValue(year: int, value: int)

  datatype ProductYearRow = ProductYearRow(productId: int, year: int, world: int)

  datatype MarketYearRow = MarketYearRow(key: MarketKey, year: int, world: int)

  datatype BilateralRow = BilateralRow(exporter: int, key: MarketKey, year: int, value: int)

  /** The identities of products and economies, by the numbers the tables use. */
  datatype Names = Names(productById: map<int, ProductIdentity>, economyByCode: map<int, EconomyIdentity>)

  /** The tables of the analysis artifact, as the queries of the build stream them. */
  datatype Tables = Tables(
    names: Names,
    productYear: seq<ProductYearRow>,
    marketYear: seq<MarketYearRow>,
    bilateralYear: seq<BilateralRow>)

  datatype Window = Window(start: int, end: int)

  // ---------- What the cohort computation is given ----------

  datatype MarketYearEvidence = MarketYearEvidence(year: int, worldValue: int, bilateralValue: Option<int>)

  datatype MarketEvidence =
    MarketEvidence(product: ProductIdentity, market: EconomyIdentity, marketYears: seq<MarketYearEvidence>)

  datatype ProductEvidence =
    ProductEvidence(product: ProductIdentity, worldYearTotals: seq<YearValue>, exporterExportTotals: seq<YearValue>)

  datatype Evidence = Evidence(products: seq<ProductEvidence>, markets: seq<MarketEvidence>)

  // ---------- The queries ----------

  function ProductYears(tables: Tables, w: Window): seq<ProductYearRow> {
    WithinProductYears(tables.productYear, w)
  }

  function WithinProductYears(rows: seq<ProductYearRow>, w: Window): seq<ProductYearRow> {
    if rows == [] then []
    else
      var last := rows[|rows| - 1];
      WithinProductYears(rows[..|rows| - 1], w) + if w.start <= last.year <= w.end then [last] else []
  }

  function WithinMarketYears(rows: seq<MarketYearRow>, w: Window): seq<MarketYearRow> {
    if rows == [] then []
    else
      var last := rows[|rows| - 1];
      WithinMarketYears(rows[..|rows| - 1], w) + if w.start <= last.year <= w.end then [last] else []
  }

  function FlowsOf(rows: seq<BilateralRow>, exporter: int, w: Window): seq<BilateralRow> {
    if rows == [] then []
    else
      var last := rows[|rows| - 1];
      FlowsOf(rows[..|rows| - 1], exporter, w)
        + if last.exporter == exporter && w.start <= last.year <= w.end then [last] else []
  }

  /** A year of one product. */
  datatype ProductYear = ProductYear(productId: int, year: int)

  function ByProductYear(flows: seq<BilateralRow>): seq<Entry<ProductYear>> {
    seq(|flows|, k requires 0 <= k < |flows| => Entry(ProductYear(flows[k].key.productId, flows[k].year), flows[k].value))
  }

  /** The exporter's product totals: the flows summed by product and year. */
  function TotalsQuery(flows: seq<BilateralRow>): seq<Entry<ProductYear>> {
    GroupBy(ByProductYear(flows))
  }

  // ---------- Year lists by product ----------

  datatype ProductYearList = ProductYearList(productId: int, years: seq<YearValue>)

  /** Appends a year to the list of its product, or opens the list at the end. */
  function AddYear(lists: seq<ProductYearList>, productId: int, year: YearValue): seq<ProductYearList> {
    if lists == [] then [ProductYearList(productId, [year])]
    else if lists[0].productId == productId then [ProductYearList(productId, lists[0].years + [year])] + lists[1..]
    else [lists[0]] + AddYear(lists[1..], productId, year)
  }

  function YearLists(rows: seq<Entry<ProductYear>>): seq<ProductYearList> {
    if rows == [] then []
    else
      var last := rows[|rows| - 1];
      AddYear(YearLists(rows[..|rows| - 1]), last.key.productId, YearValue(last.key.year, last.amount))
  }

  /** The list of one product; empty when it has none. */
  function YearsOf(lists: seq<ProductYearList>, productId: int): seq<YearValue> {
    if lists == [] then []
    else if lists[0].productId == productId then lists[0].years
    else YearsOf(lists[1..], productId)
  }

  ghost predicate DistinctProducts(lists: seq<ProductYearList>) {
    forall i, j :: 0 <= i < j < |lists| ==> lists[i].productId != lists[j].productId
  }

  /** Adding a year keeps the products of the lists, in order, or adds a product that had no list at the end. */
  ghost predicate SameProductsOrOneMore(lists: seq<ProductYearList>, grown: seq<ProductYearList>, productId: int) {
    && |lists| <= |grown| <= |lists| + 1
    && (forall k :: 0 <= k < |lists| ==> grown[k].productId == lists[k].productId)
    && (|grown| == |lists| + 1 ==>
          grown[|lists|].productId == productId && forall k :: 0 <= k < |lists| ==> lists[k].productId != productId)
  }

  lemma {:induction false} AddYearIds(lists: seq<ProductYearList>, productId: int, year: YearValue)
    ensures SameProductsOrOneMore(lists, AddYear(lists, productId, year), productId)
  {
    if lists != [] && lists[0].productId != productId {
      AddYearIds(lists[1..], productId, year);
      OneListMore(lists[0], lists[1..], AddYear(lists[1..], productId, year), productId);
      assert [lists[0]] + lists[1..] == lists;
    }
  }

  lemma OneListMore(head: ProductYearList, lists: seq<ProductYearList>, grown: seq<ProductYearList>, productId: int)
    requires SameProductsOrOneMore(lists, grown, productId) && head.productId != productId
    ensures SameProductsOrOneMore([head] + lists, [head] + grown, productId)
  {
  }

  lemma {:induction false} AddYearDistinct(lists: seq<ProductYearList>, productId: int, year: YearValue)
    requires DistinctProducts(lists)
    ensures DistinctProducts(AddYear(lists, productId, year))
  {
    AddYearIds(lists, productId, year);
  }

  lemma {:induction false} YearListsDistinct(rows: seq<Entry<ProductYear>>)
    ensures DistinctProducts(YearLists(rows))
  {
    if rows != [] {
      var last := rows[|rows| - 1];
      YearListsDistinct(rows[..|rows| - 1]);
      AddYearDistinct(YearLists(rows[..|rows| - 1]), last.key.productId, YearValue(last.key.year, last.amount));
    }
  }

  // ---------- A fresh load ----------

  datatype ProductBase = ProductBase(productId: int, product: ProductIdentity, totals: seq<YearValue>)

  datatype MarketBase = MarketBase(key: MarketKey, product: ProductIdentity, market: EconomyIdentity, years: seq<YearValue>)

  function WorldRows(rows: seq<ProductYearRow>): seq<Entry<ProductYear>> {
    seq(|rows|, k requires 0 <= k < |rows| => Entry(ProductYear(rows[k].productId, rows[k].year), rows[k].world))
  }

  /** The products with a known identity, in the order of their first row. */
  function KnownProducts(lists: seq<ProductYearList>, productById: map<int, ProductIdentity>): seq<ProductBase> {
    if lists == [] then []
    else
      var last := lists[|lists| - 1];
      KnownProducts(lists[..|lists| - 1], productById)
        + if last.productId in productById then [ProductBase(last.productId, productById[last.productId], last.years)]
          else []
  }

  function FindMarket(markets: seq<MarketBase>, key: MarketKey): (at: int)
    ensures -1 <= at < |markets|
    ensures at >= 0 ==> markets[at].key == key
    ensures at == -1 ==> forall k :: 0 <= k < |markets| ==> markets[k].key != key
  {
    if markets == [] then -1
    else if markets[|markets| - 1].key == key then |markets| - 1
    else FindMarket(markets[..|markets| - 1], key)
  }

  /** One row of the market universe: a year of a market, which is opened at its first row. */
  function AddMarketYear(names: Names, markets: seq<MarketBase>, row: MarketYearRow): seq<MarketBase> {
    var at := FindMarket(markets, row.key);
    var year := YearValue(row.year, row.world);
    if at >= 0 then markets[at := markets[at].(years := markets[at].years + [year])]
    else if row.key.productId in names.productById && row.key.importer in names.economyByCode then
      markets + [MarketBase(row.key, names.productById[row.key.productId], names.economyByCode[row.key.importer], [year])]
    else markets
  }

  function MarketUniverse(names: Names, rows: seq<MarketYearRow>): seq<MarketBase> {
    if rows == [] then []
    else AddMarketYear(names, MarketUniverse(names, rows[..|rows| - 1]), rows[|rows| - 1])
  }

  function FreshProducts(tables: Tables, w: Window): seq<ProductBase> {
    KnownProducts(YearLists(WorldRows(ProductYears(tables, w))), tables.names.productById)
  }

  function FreshMarkets(tables: Tables, w: Window): seq<MarketBase> {
    MarketUniverse(tables.names, WithinMarketYears(tables.marketYear, w))
  }

  ghost predicate DistinctMarkets(markets: seq<MarketBase>) {
    forall i, j :: 0 <= i < j < |markets| ==> markets[i].key != markets[j].key
  }

  lemma {:induction false} MarketUniverseDistinct(names: Names, rows: seq<MarketYearRow>)
    ensures DistinctMarkets(MarketUniverse(names, rows))
  {
    if rows != [] {
      MarketUniverseDistinct(names, rows[..|rows| - 1]);
    }
  }

  ghost predicate DistinctBases(products: seq<ProductBase>) {
    forall i, j :: 0 <= i < j < |products| ==> products[i].productId != products[j].productId
  }

  lemma {:induction false} KnownProductsDistinct(lists: seq<ProductYearList>, productById: map<int, ProductIdentity>)
    requires DistinctProducts(lists)
    ensures DistinctBases(KnownProducts(lists, productById))
    ensures forall p :: p in KnownProducts(lists, productById) ==> exists l :: l in lists && l.productId == p.productId
  {
    if lists != [] {
      var init, last := lists[..|lists| - 1], lists[|lists| - 1];
      KnownProductsDistinct(init, productById);
      var known := KnownProducts(init, productById);
      forall p | p in known
        ensures p.productId != last.productId
        ensures exists l :: l in lists && l.productId == p.productId
      {
        var l :| l in init && l.productId == p.productId;
        assert l in lists;
      }
      assert last in lists;
    }
  }

  // ---------- The overlay of one exporter ----------

  /** The value of the last flow to a market in a year, if there is any. */
  function LastValue(flows: seq<BilateralRow>, key: MarketKey, year: int): Option<int> {
    if flows == [] then None
    else
      var last := flows[|flows| - 1];
      if last.key == key && last.year == year then Some(last.value)
      else LastValue(flows[..|flows| - 1], key, year)
  }

  /** No earlier entry of the list has the same year. */
  predicate FirstOfYear(years: seq<YearValue>, k: nat)
    requires k < |years|
  {
    forall i :: 0 <= i < k ==> years[i].year != years[k].year
  }

  function OverlaidMarket(base: MarketBase, flows: seq<BilateralRow>): MarketEvidence {
    MarketEvidence(base.product, base.market,
                   seq(|base.years|, k requires 0 <= k < |base.years| =>
                     MarketYearEvidence(base.years[k].year, base.years[k].value,
                                        if FirstOfYear(base.years, k) then LastValue(flows, base.key, base.years[k].year)
                                        else None)))
  }

  function OverlaidProduct(base: ProductBase, lists: seq<ProductYearList>): ProductEvidence {
    ProductEvidence(base.product, base.totals, YearsOf(lists, base.productId))
  }

  /** The evidence of one exporter: a fresh load, overlaid with the rows of that exporter alone. */
  function EvidenceFor(tables: Tables, w: Window, exporter: int): Evidence {
    var flows := FlowsOf(tables.bilateralYear, exporter, w);
    var lists := YearLists(TotalsQuery(flows));
    var products, markets := FreshProducts(tables, w), FreshMarkets(tables, w);
    Evidence(seq(|products|, k requires 0 <= k < |products| => OverlaidProduct(products[k], lists)),
             seq(|markets|, k requires 0 <= k < |markets| => OverlaidMarket(markets[k], flows)))
  }

  /** A row of this exporter, in the window, for this market and year. */
  predicate IsFlow(w: Window, exporter: int, key: MarketKey, year: int, r: BilateralRow) {
    r.exporter == exporter && r.key == key && r.year == year && w.start <= year <= w.end
  }

  lemma LastValueNext(w: Window, exporter: int, rows: seq<BilateralRow>, key: MarketKey, year: int)
    requires rows != []
    ensures var init, last := rows[..|rows| - 1], rows[|rows| - 1];
            LastValue(FlowsOf(rows, exporter, w), key, year)
            == if IsFlow(w, exporter, key, year, last) then Some(last.value)
              else LastValue(FlowsOf(init, exporter, w), key, year)
  {
    var flows, last := FlowsOf(rows[..|rows| - 1], exporter, w), rows[|rows| - 1];
    assert (flows + [last])[..|flows|] == flows && flows + [] == flows;
  }

  /** A cell has a value exactly when this exporter has a flow there, and then it is one of its values. */
  lemma {:induction false} LastValueIff(w: Window, exporter: int, rows: seq<BilateralRow>, key: MarketKey, year: int)
    ensures var value := LastValue(FlowsOf(rows, exporter, w), key, year);
            && (value.Some? <==> exists r :: r in rows && IsFlow(w, exporter, key, year, r))
            && (value.Some? ==> exists r :: r in rows && IsFlow(w, exporter, key, year, r) && r.value == value.value)
  {
    if rows != [] {
      var init, last := rows[..|rows| - 1], rows[|rows| - 1];
      LastValueIff(w, exporter, init, key, year);
      LastValueNext(w, exporter, rows, key, year);
      assert forall r :: r in rows <==> r in init || r == last;
    }
  }

  lemma {:induction false} FlowsOfConcat(left: seq<BilateralRow>, right: seq<BilateralRow>, exporter: int, w: Window)
    ensures FlowsOf(left + right, exporter, w) == FlowsOf(left, exporter, w) + FlowsOf(right, exporter, w)
  {
    if right == [] {
      assert left + right == left;
    } else {
      var init := right[..|right| - 1];
      assert (left + right)[..|left + right| - 1] == left + init;
      FlowsOfConcat(left, init, exporter, w);
    }
  }

  /** No leak: a flow of another exporter, wherever it stands in the table, changes nothing. */
  lemma OtherExportersDoNotMatter(tables: Tables, w: Window, exporter: int,
                                  before: seq<BilateralRow>, row: BilateralRow, after: seq<BilateralRow>)
    requires tables.bilateralYear == before + after && row.exporter != exporter
    ensures EvidenceFor(tables.(bilateralYear := before + [row] + after), w, exporter) == EvidenceFor(tables, w, exporter)
  {
    FlowsOfConcat(before, after, exporter, w);
    FlowsOfConcat(before + [row], after, exporter, w);
    FlowsOfConcat(before, [row], exporter, w);
    assert [row][..0] == [] && FlowsOf([row], exporter, w) == [];
    var other := tables.(bilateralYear := before + [row] + after);
    assert FlowsOf(other.bilateralYear, exporter, w) == FlowsOf(tables.bilateralYear, exporter, w);
    assert FreshProducts(other, w) == FreshProducts(tables, w) && FreshMarkets(other, w) == FreshMarkets(tables, w);
  }

  /** An exporter's product totals: each product and year with flows has one, and it is their exact sum. */
  lemma TotalsAreSums(flows: seq<BilateralRow>)
    ensures DistinctKeys(TotalsQuery(flows))
    ensures forall key ::
              HasKey(TotalsQuery(flows), key) <==> exists r :: r in flows && ProductYear(r.key.productId, r.year) == key
    ensures forall at :: 0 <= at < |TotalsQuery(flows)| ==>
              TotalsQuery(flows)[at].amount == SumIf(ByProductYear(flows), Only(TotalsQuery(flows)[at].key))
  {
    GroupByIsExact(ByProductYear(flows));
    forall at | 0 <= at < |TotalsQuery(flows)|
      ensures TotalsQuery(flows)[at].amount == SumIf(ByProductYear(flows), Only(TotalsQuery(flows)[at].key))
    {
      GroupAmount(ByProductYear(flows), at);
    }
    forall key
      ensures HasKey(ByProductYear(flows), key) <==> exists r :: r in flows && ProductYear(r.key.productId, r.year) == key
    {
      KeyOfSomeFlow(flows, key);
    }
  }

  lemma KeyOfSomeFlow(flows: seq<BilateralRow>, key: ProductYear)
    ensures HasKey(ByProductYear(flows), key) <==> exists r :: r in flows && ProductYear(r.key.productId, r.year) == key
  {
    if k :| 0 <= k < |flows| && ByProductYear(flows)[k].key == key {
      assert flows[k] in flows;
    }
    if r :| r in flows && ProductYear(r.key.productId, r.year) == key {
      var k :| 0 <= k < |flows| && flows[k] == r;
      assert ByProductYear(flows)[k].key == key;
    }
  }
}
