/**
  What the evidence of one exporter says, read off the tables row by row: scripts/release/opportunity-index.ts.
  Nothing here refers to how the lists are put together.
*/
module EvidenceMeaning {
  import opened Common
  import opened GroupTotals
  import opened OpportunityEvidence

  // ---------- What the tables hold ----------

  predicate InWindow(w: Window, year: int) {
    w.start <= year <= w.end
  }

  /** The product_year rows of one product in the window, in order. */
  ghost function WorldYears(rows: seq<ProductYearRow>, w: Window, id: int): seq<YearValue> {
    if rows == [] then []
    else
      var last := rows[|rows| - 1];
      WorldYears(rows[..|rows| - 1], w, id)
        + if last.productId == id && InWindow(w, last.year) then [YearValue(last.year, last.world)] else []
  }

  /** The market_year rows of one market in the window, in order. */
  ghost function UniverseYears(rows: seq<MarketYearRow>, w: Window, key: MarketKey): seq<YearValue> {
    if rows == [] then []
    else
      var last := rows[|rows| - 1];
      UniverseYears(rows[..|rows| - 1], w, key)
        + if last.key == key && InWindow(w, last.year) then [YearValue(last.year, last.world)] else []
  }

  /** The known products with a row in the window, in the order of their first one. */
  ghost function OpenedProducts(names: Names, rows: seq<ProductYearRow>, w: Window): seq<int> {
    if rows == [] then []
    else
      var before, last := OpenedProducts(names, rows[..|rows| - 1], w), rows[|rows| - 1];
      before + if InWindow(w, last.year) && last.productId in names.productById && last.productId !in before
               then [last.productId] else []
  }

  ghost predicate Named(names: Names, key: MarketKey) {
    key.productId in names.productById && key.importer in names.economyByCode
  }

  /** The markets of known products and importers with a row in the window, in the order of their first one. */
  ghost function OpenedMarkets(names: Names, rows: seq<MarketYearRow>, w: Window): seq<MarketKey> {
    if rows == [] then []
    else
      var before, last := OpenedMarkets(names, rows[..|rows| - 1], w), rows[|rows| - 1];
      before + if InWindow(w, last.year) && Named(names, last.key) && last.key !in before then [last.key] else []
  }

  /** A flow of this exporter, of this product, in this year of the window. */
  predicate IsExport(w: Window, exporter: int, id: int, year: int, r: BilateralRow) {
    r.exporter == exporter && r.key.productId == id && r.year == year && InWindow(w, year)
  }

  ghost function ExportSum(rows: seq<BilateralRow>, w: Window, exporter: int, id: int, year: int): int {
    if rows == [] then 0
    else
      var last := rows[|rows| - 1];
      ExportSum(rows[..|rows| - 1], w, exporter, id, year) + if IsExport(w, exporter, id, year, last) then last.value else 0
  }

  // ---------- What the evidence says ----------

  ghost predicate HasYear(years: seq<YearValue>, year: int) {
    exists k :: 0 <= k < |years| && years[k].year == year
  }

  /** One total for each year of the window in which the exporter has a flow of the product: their sum. */
  ghost predicate TotalsSay(rows: seq<BilateralRow>, w: Window, exporter: int, id: int, years: seq<YearValue>) {
    && (forall i, j :: 0 <= i < j < |years| ==> years[i].year != years[j].year)
    && (forall year :: HasYear(years, year) <==> exists r :: r in rows && IsExport(w, exporter, id, year, r))
    && (forall k :: 0 <= k < |years| ==> years[k].value == ExportSum(rows, w, exporter, id, years[k].year))
  }

  ghost predicate ProductSays(tables: Tables, w: Window, exporter: int, id: int, e: ProductEvidence) {
    && id in tables.names.productById && e.product == tables.names.productById[id]
    && e.worldYearTotals == WorldYears(tables.productYear, w, id)
    && TotalsSay(tables.bilateralYear, w, exporter, id, e.exporterExportTotals)
  }

  /** The value of the last flow of the exporter to the market in the year; none without a flow. */
  ghost predicate FlowSays(rows: seq<BilateralRow>, w: Window, exporter: int, key: MarketKey, year: int,
                           value: Option<int>) {
    && (value.None? ==> forall r :: r in rows ==> !IsFlow(w, exporter, key, year, r))
    && (value.Some? ==> exists at :: LastFlowAt(rows, w, exporter, key, year, at) && rows[at].value == value.value)
  }

  ghost predicate LastFlowAt(rows: seq<BilateralRow>, w: Window, exporter: int, key: MarketKey, year: int, at: int) {
    && 0 <= at < |rows| && IsFlow(w, exporter, key, year, rows[at])
    && forall later :: at < later < |rows| ==> !IsFlow(w, exporter, key, year, rows[later])
  }

  ghost predicate MarketSays(tables: Tables, w: Window, exporter: int, key: MarketKey, m: MarketEvidence) {
    var years := UniverseYears(tables.marketYear, w, key);
    && Named(tables.names, key)
    && m.product == tables.names.productById[key.productId] && m.market == tables.names.economyByCode[key.importer]
    && |m.marketYears| == |years|
    && forall k :: 0 <= k < |years| ==>
         && m.marketYears[k].year == years[k].year && m.marketYears[k].worldValue == years[k].value
         && if exists i :: 0 <= i < k && years[i].year == years[k].year then m.marketYears[k].bilateralValue == None
            else FlowSays(tables.bilateralYear, w, exporter, key, years[k].year, m.marketYears[k].bilateralValue)
  }

  /** The known products of the window's product_year rows, each once, with what the tables say of them. */
  ghost predicate ProductsSay(tables: Tables, w: Window, exporter: int, products: seq<ProductEvidence>, ids: seq<int>) {
    && |ids| == |products| && Distinct(ids) && ids == OpenedProducts(tables.names, tables.productYear, w)
    && (forall id :: id in ids
                     <==> id in tables.names.productById && WorldYears(tables.productYear, w, id) != [])
    && forall k :: 0 <= k < |ids| ==> ProductSays(tables, w, exporter, ids[k], products[k])
  }

  ghost predicate MarketsSay(tables: Tables, w: Window, exporter: int, markets: seq<MarketEvidence>, keys: seq<MarketKey>) {
    && |keys| == |markets| && Distinct(keys) && keys == OpenedMarkets(tables.names, tables.marketYear, w)
    && (forall key :: key in keys
                      <==> Named(tables.names, key) && UniverseYears(tables.marketYear, w, key) != [])
    && forall k :: 0 <= k < |keys| ==> MarketSays(tables, w, exporter, keys[k], markets[k])
  }

  ghost predicate EvidenceSays(tables: Tables, w: Window, exporter: int, e: Evidence) {
    && (exists ids :: ProductsSay(tables, w, exporter, e.products, ids))
    && (exists keys :: MarketsSay(tables, w, exporter, e.markets, keys))
  }

  // ---------- Year lists ----------

  /** The entries of one product, in order. */
  ghost function EntriesOf(rows: seq<Entry<ProductYear>>, id: int): seq<YearValue> {
    if rows == [] then []
    else
      var last := rows[|rows| - 1];
      EntriesOf(rows[..|rows| - 1], id) + if last.key.productId == id then [YearValue(last.key.year, last.amount)] else []
  }

  lemma {:induction false} YearsOfAdd(lists: seq<ProductYearList>, productId: int, year: YearValue, other: int)
    ensures YearsOf(AddYear(lists, productId, year), other)
            == YearsOf(lists, other) + if other == productId then [year] else []
  {
    if lists != [] && lists[0].productId != productId {
      YearsOfAdd(lists[1..], productId, year, other);
      assert AddYear(lists, productId, year)[1..] == AddYear(lists[1..], productId, year);
    } else if lists != [] {
      assert AddYear(lists, productId, year)[1..] == lists[1..];
    }
  }

  /** The list of a product holds exactly its rows, in order, one entry for each. */
  lemma {:induction false} ListHoldsItsRows(rows: seq<Entry<ProductYear>>, id: int)
    ensures YearsOf(YearLists(rows), id) == EntriesOf(rows, id)
  {
    if rows != [] {
      var init, last := rows[..|rows| - 1], rows[|rows| - 1];
      ListHoldsItsRows(init, id);
      YearsOfAdd(YearLists(init), last.key.productId, YearValue(last.key.year, last.amount), id);
    }
  }

  lemma {:induction false} NoListIsEmpty(rows: seq<Entry<ProductYear>>)
    ensures forall l :: l in YearLists(rows) ==> l.years != []
  {
    if rows != [] {
      var init, last := rows[..|rows| - 1], rows[|rows| - 1];
      NoListIsEmpty(init);
      AddKeepsNonEmpty(YearLists(init), last.key.productId, YearValue(last.key.year, last.amount));
    }
  }

  lemma {:induction false} AddKeepsNonEmpty(lists: seq<ProductYearList>, productId: int, year: YearValue)
    requires forall l :: l in lists ==> l.years != []
    ensures forall l :: l in AddYear(lists, productId, year) ==> l.years != []
  {
    if lists != [] && lists[0].productId != productId {
      AddKeepsNonEmpty(lists[1..], productId, year);
    }
  }

  lemma {:induction false} YearsOfMember(lists: seq<ProductYearList>, l: ProductYearList)
    requires DistinctProducts(lists) && l in lists
    ensures YearsOf(lists, l.productId) == l.years
  {
    if lists[0] != l {
      assert lists == [lists[0]] + lists[1..];
      YearsOfMember(lists[1..], l);
    }
  }

  lemma {:induction false} YearsOfNoMember(lists: seq<ProductYearList>, id: int)
    ensures YearsOf(lists, id) != [] ==> exists l :: l in lists && l.productId == id
  {
    if lists != [] && lists[0].productId != id {
      YearsOfNoMember(lists[1..], id);
    }
  }

  // ---------- Products ----------

  lemma {:induction false} KnownProductsAre(lists: seq<ProductYearList>, productById: map<int, ProductIdentity>)
    ensures forall p :: p in KnownProducts(lists, productById) ==>
              && p.productId in productById && p.product == productById[p.productId]
              && ProductYearList(p.productId, p.totals) in lists
    ensures forall l :: l in lists && l.productId in productById ==>
              ProductBase(l.productId, productById[l.productId], l.years) in KnownProducts(lists, productById)
  {
    if lists != [] {
      var init, last := lists[..|lists| - 1], lists[|lists| - 1];
      assert lists == init + [last];
      KnownProductsAre(init, productById);
    }
  }

  lemma {:induction false} WorldEntries(rows: seq<ProductYearRow>, w: Window, id: int)
    ensures EntriesOf(WorldRows(WithinProductYears(rows, w)), id) == WorldYears(rows, w, id)
  {
    if rows != [] {
      var init, last := rows[..|rows| - 1], rows[|rows| - 1];
      WorldEntries(init, w, id);
      var within := WithinProductYears(init, w);
      if InWindow(w, last.year) {
        assert WorldRows(within + [last])[..|within|] == WorldRows(within);
      } else {
        assert within + [] == within;
      }
    }
  }

  function Ids(products: seq<ProductBase>): seq<int> {
    seq(|products|, k requires 0 <= k < |products| => products[k].productId)
  }

  /** The products are the known ones with years, each with its years, if the lists say what `years` says. */
  ghost predicate ProductsAre(products: seq<ProductBase>, names: map<int, ProductIdentity>, years: int -> seq<YearValue>) {
    && Distinct(Ids(products))
    && (forall id :: id in Ids(products) <==> id in names && years(id) != [])
    && forall k :: 0 <= k < |products| ==>
         && products[k].productId in names && products[k].product == names[products[k].productId]
         && products[k].totals == years(products[k].productId)
  }

  lemma {:induction false} KnownHasItsYears(lists: seq<ProductYearList>, names: map<int, ProductIdentity>, p: ProductBase)
    requires DistinctProducts(lists) && p in KnownProducts(lists, names)
    ensures p.productId in names && p.product == names[p.productId] && p.totals == YearsOf(lists, p.productId)
    ensures ProductYearList(p.productId, p.totals) in lists
  {
    KnownProductsAre(lists, names);
    YearsOfMember(lists, ProductYearList(p.productId, p.totals));
  }

  lemma {:induction false} KnownIffYears(lists: seq<ProductYearList>, names: map<int, ProductIdentity>, id: int)
    requires DistinctProducts(lists) && forall l :: l in lists ==> l.years != []
    ensures id in Ids(KnownProducts(lists, names)) <==> id in names && YearsOf(lists, id) != []
  {
    var products := KnownProducts(lists, names);
    if id in Ids(products) {
      var k :| 0 <= k < |products| && products[k].productId == id;
      KnownHasItsYears(lists, names, products[k]);
    }
    if id in names && YearsOf(lists, id) != [] {
      YearsOfNoMember(lists, id);
      var l :| l in lists && l.productId == id;
      KnownProductsAre(lists, names);
      var k :| 0 <= k < |products| && products[k] == ProductBase(id, names[id], l.years);
      assert Ids(products)[k] == id;
    }
  }

  lemma {:induction false} KnownProductsSay(lists: seq<ProductYearList>, names: map<int, ProductIdentity>,
                                            years: int -> seq<YearValue>)
    requires DistinctProducts(lists) && forall l :: l in lists ==> l.years != []
    requires forall id :: YearsOf(lists, id) == years(id)
    ensures ProductsAre(KnownProducts(lists, names), names, years)
  {
    var products := KnownProducts(lists, names);
    KnownProductsDistinct(lists, names);
    forall id
      ensures id in Ids(products) <==> id in names && years(id) != []
    {
      KnownIffYears(lists, names, id);
    }
    forall k | 0 <= k < |products|
      ensures products[k].productId in names && products[k].product == names[products[k].productId]
      ensures products[k].totals == years(products[k].productId)
    {
      KnownHasItsYears(lists, names, products[k]);
    }
  }

  ghost function WorldYearsBy(rows: seq<ProductYearRow>, w: Window): int -> seq<YearValue> {
    id => WorldYears(rows, w, id)
  }

  /** The products of a fresh load: the known ones with rows in the window, each with those rows. */
  lemma {:induction false} FreshProductsAre(tables: Tables, w: Window)
    ensures ProductsAre(FreshProducts(tables, w), tables.names.productById, WorldYearsBy(tables.productYear, w))
  {
    var entries := WorldRows(ProductYears(tables, w));
    YearListsDistinct(entries);
    NoListIsEmpty(entries);
    forall id
      ensures YearsOf(YearLists(entries), id) == WorldYears(tables.productYear, w, id)
    {
      ListHoldsItsRows(entries, id);
      WorldEntries(tables.productYear, w, id);
    }
    KnownProductsSay(YearLists(entries), tables.names.productById, WorldYearsBy(tables.productYear, w));
  }

  // ---------- The order of products and markets ----------

  function ListIds(lists: seq<ProductYearList>): seq<int> {
    seq(|lists|, k requires 0 <= k < |lists| => lists[k].productId)
  }

  lemma {:induction false} IdsNext(lists: seq<ProductYearList>, productId: int, year: YearValue)
    ensures ListIds(AddYear(lists, productId, year))
            == ListIds(lists) + if productId in ListIds(lists) then [] else [productId]
  {
    AddYearOpensIff(lists, productId, year);
    AddYearIds(lists, productId, year);
  }

  lemma {:induction false} AddYearOpensIff(lists: seq<ProductYearList>, productId: int, year: YearValue)
    ensures |AddYear(lists, productId, year)| == |lists| + if productId in ListIds(lists) then 0 else 1
  {
    if lists != [] {
      assert ListIds(lists) == [lists[0].productId] + ListIds(lists[1..]);
      if lists[0].productId != productId {
        AddYearOpensIff(lists[1..], productId, year);
      }
    }
  }

  function KnownIds(ids: seq<int>, names: map<int, ProductIdentity>): seq<int> {
    if ids == [] then []
    else KnownIds(ids[..|ids| - 1], names) + if ids[|ids| - 1] in names then [ids[|ids| - 1]] else []
  }

  lemma {:induction false} KnownProductIds(lists: seq<ProductYearList>, names: map<int, ProductIdentity>)
    ensures Ids(KnownProducts(lists, names)) == KnownIds(ListIds(lists), names)
  {
    if lists != [] {
      var init := lists[..|lists| - 1];
      KnownProductIds(init, names);
      assert ListIds(lists)[..|lists| - 1] == ListIds(init);
    }
  }

  lemma {:induction false} KnownIdsNext(ids: seq<int>, id: int, names: map<int, ProductIdentity>)
    ensures KnownIds(ids + [id], names) == KnownIds(ids, names) + if id in names then [id] else []
  {
    assert (ids + [id])[..|ids|] == ids;
  }

  lemma {:induction false} KnownIdsHas(ids: seq<int>, names: map<int, ProductIdentity>)
    ensures forall id :: id in KnownIds(ids, names) <==> id in ids && id in names
  {
    if ids != [] {
      assert ids == ids[..|ids| - 1] + [ids[|ids| - 1]];
      KnownIdsHas(ids[..|ids| - 1], names);
    }
  }

  lemma {:induction false} ProductsNext(lists: seq<ProductYearList>, id: int, year: YearValue,
                                        names: map<int, ProductIdentity>)
    ensures var before := KnownIds(ListIds(lists), names);
            KnownIds(ListIds(AddYear(lists, id, year)), names)
            == before + if id in names && id !in before then [id] else []
  {
    var ids := ListIds(lists);
    IdsNext(lists, id, year);
    KnownIdsHas(ids, names);
    KnownIdsNext(ids, id, names);
    assert ids + [] == ids;
  }

  lemma WorldRowsNext(rows: seq<ProductYearRow>, last: ProductYearRow)
    ensures YearLists(WorldRows(rows + [last]))
            == AddYear(YearLists(WorldRows(rows)), last.productId, YearValue(last.year, last.world))
  {
    assert WorldRows(rows + [last])[..|rows|] == WorldRows(rows);
  }

  lemma {:induction false} ProductsInOrder(names: Names, rows: seq<ProductYearRow>, w: Window)
    ensures KnownIds(ListIds(YearLists(WorldRows(WithinProductYears(rows, w)))), names.productById)
            == OpenedProducts(names, rows, w)
  {
    if rows != [] {
      var init, last := rows[..|rows| - 1], rows[|rows| - 1];
      ProductsInOrder(names, init, w);
      var within := WithinProductYears(init, w);
      assert within + [] == within;
      if InWindow(w, last.year) {
        WorldRowsNext(within, last);
        ProductsNext(YearLists(WorldRows(within)), last.productId, YearValue(last.year, last.world), names.productById);
      }
    }
  }

  // ---------- The exporter's totals ----------

  lemma {:induction false} EntriesOfDistinct(entries: seq<Entry<ProductYear>>, id: int)
    requires DistinctKeys(entries)
    ensures var years := EntriesOf(entries, id);
            && (forall i, j :: 0 <= i < j < |years| ==> years[i].year != years[j].year)
            && (forall y :: y in years
                            <==> exists at :: 0 <= at < |entries| && entries[at] == Entry(ProductYear(id, y.year), y.value))
  {
    if entries != [] {
      var init, last := entries[..|entries| - 1], entries[|entries| - 1];
      EntriesOfDistinct(init, id);
      var before, years := EntriesOf(init, id), EntriesOf(entries, id);
      forall y
        ensures y in years <==> exists at :: 0 <= at < |entries| && entries[at] == Entry(ProductYear(id, y.year), y.value)
      {
        assert y in years <==> y in before || (last.key.productId == id && y == YearValue(last.key.year, last.amount));
        if y in before {
          var at :| 0 <= at < |init| && init[at] == Entry(ProductYear(id, y.year), y.value);
          assert entries[at] == init[at];
        }
      }
      forall i, j | 0 <= i < j < |years|
        ensures years[i].year != years[j].year
      {
        if j == |before| {
          assert years[i] in before;
          var at :| 0 <= at < |init| && init[at] == Entry(ProductYear(id, years[i].year), years[i].value);
          assert entries[at].key != entries[|init|].key;
        }
      }
    }
  }

  lemma {:induction false} FlowSum(rows: seq<BilateralRow>, exporter: int, w: Window, id: int, year: int)
    ensures SumIf(ByProductYear(FlowsOf(rows, exporter, w)), Only(ProductYear(id, year)))
            == ExportSum(rows, w, exporter, id, year)
  {
    if rows != [] {
      var init, last := rows[..|rows| - 1], rows[|rows| - 1];
      FlowSum(init, exporter, w, id, year);
      var flows := FlowsOf(init, exporter, w);
      if last.exporter == exporter && InWindow(w, last.year) {
        assert ByProductYear(flows + [last])[..|flows|] == ByProductYear(flows);
      } else {
        assert flows + [] == flows;
      }
    }
  }

  /** The flows of an exporter are its rows of the table in the window. */
  lemma {:induction false} FlowsAre(rows: seq<BilateralRow>, exporter: int, w: Window)
    ensures forall r :: r in FlowsOf(rows, exporter, w) <==> r in rows && r.exporter == exporter && InWindow(w, r.year)
  {
    if rows != [] {
      assert rows == rows[..|rows| - 1] + [rows[|rows| - 1]];
      FlowsAre(rows[..|rows| - 1], exporter, w);
    }
  }

  lemma {:induction false} ExporterTotalsAre(rows: seq<BilateralRow>, w: Window, exporter: int, id: int)
    ensures TotalsSay(rows, w, exporter, id, YearsOf(YearLists(TotalsQuery(FlowsOf(rows, exporter, w))), id))
  {
    var flows := FlowsOf(rows, exporter, w);
    var totals := TotalsQuery(flows);
    var years := EntriesOf(totals, id);
    TotalsAreSums(flows);
    ListHoldsItsRows(totals, id);
    EntriesOfDistinct(totals, id);
    forall k | 0 <= k < |years|
      ensures years[k].value == ExportSum(rows, w, exporter, id, years[k].year)
    {
      assert years[k] in years;
      var at :| 0 <= at < |totals| && totals[at] == Entry(ProductYear(id, years[k].year), years[k].value);
      FlowSum(rows, exporter, w, id, years[k].year);
    }
    forall year
      ensures HasYear(years, year) <==> exists r :: r in rows && IsExport(w, exporter, id, year, r)
    {
      FlowsAre(rows, exporter, w);
      YearOccursIff(totals, id, year);
      assert (exists r :: r in flows && ProductYear(r.key.productId, r.year) == ProductYear(id, year))
        <==> exists r :: r in rows && IsExport(w, exporter, id, year, r);
    }
  }

  lemma {:induction false} YearOccursIff(entries: seq<Entry<ProductYear>>, id: int, year: int)
    requires DistinctKeys(entries)
    ensures HasYear(EntriesOf(entries, id), year) <==> HasKey(entries, ProductYear(id, year))
  {
    var years := EntriesOf(entries, id);
    EntriesOfDistinct(entries, id);
    if k :| 0 <= k < |years| && years[k].year == year {
      assert years[k] in years;
    }
    if at :| 0 <= at < |entries| && entries[at].key == ProductYear(id, year) {
      var y := YearValue(year, entries[at].amount);
      assert entries[at] == Entry(ProductYear(id, y.year), y.value);
      assert y in years;
    }
  }

  // ---------- Markets ----------

  /** The market of a key is there exactly when its names are known and it has years, and holds them. */
  ghost predicate MarketIs(names: Names, markets: seq<MarketBase>, key: MarketKey, years: seq<YearValue>) {
    var at := FindMarket(markets, key);
    && (at >= 0 <==> Named(names, key) && years != [])
    && (at >= 0 ==>
          markets[at] == MarketBase(key, names.productById[key.productId], names.economyByCode[key.importer], years))
  }

  lemma {:induction false} OwnMarketNext(names: Names, markets: seq<MarketBase>, row: MarketYearRow, years: seq<YearValue>)
    requires DistinctMarkets(markets) && MarketIs(names, markets, row.key, years)
    ensures MarketIs(names, AddMarketYear(names, markets, row), row.key, years + [YearValue(row.year, row.world)])
  {
    var next, at := AddMarketYear(names, markets, row), FindMarket(markets, row.key);
    if at >= 0 {
      assert next[at].key == row.key;
      FoundAtOwnPlace(next, at);
    } else if Named(names, row.key) {
      assert next[|markets|].key == row.key;
    }
  }

  lemma {:induction false} OtherMarketNext(names: Names, markets: seq<MarketBase>, row: MarketYearRow, key: MarketKey,
                                           years: seq<YearValue>)
    requires DistinctMarkets(markets) && MarketIs(names, markets, key, years) && row.key != key
    ensures MarketIs(names, AddMarketYear(names, markets, row), key, years)
  {
    var next, at, of := AddMarketYear(names, markets, row), FindMarket(markets, key), FindMarket(markets, row.key);
    assert at >= 0 ==> next[at] == markets[at];
    OtherFound(markets, next, of, key);
  }

  /** Where two lists agree except in a market of another key, a key is found at the same place. */
  lemma {:induction false} OtherFound(markets: seq<MarketBase>, next: seq<MarketBase>, of: int, key: MarketKey)
    requires DistinctMarkets(markets) && |markets| <= |next| <= |markets| + 1
    requires forall k :: 0 <= k < |markets| && k != of ==> next[k] == markets[k]
    requires 0 <= of < |markets| ==> markets[of].key == next[of].key != key
    requires |next| > |markets| ==> next[|markets|].key != key
    ensures FindMarket(next, key) == FindMarket(markets, key)
  {
    var at, found := FindMarket(markets, key), FindMarket(next, key);
    if found >= 0 {
      assert found < |markets| && markets[found].key == key;
    }
    if at >= 0 {
      assert next[at].key == key;
    }
  }

  lemma {:induction false} MarketHoldsItsRows(names: Names, rows: seq<MarketYearRow>, w: Window, key: MarketKey)
    ensures MarketIs(names, MarketUniverse(names, WithinMarketYears(rows, w)), key, UniverseYears(rows, w, key))
  {
    if rows != [] {
      var init, last := rows[..|rows| - 1], rows[|rows| - 1];
      MarketHoldsItsRows(names, init, w, key);
      var within := WithinMarketYears(init, w);
      var markets, years := MarketUniverse(names, within), UniverseYears(init, w, key);
      assert years + [] == years && within + [] == within;
      if InWindow(w, last.year) {
        assert (within + [last])[..|within|] == within;
        MarketUniverseDistinct(names, within);
        if last.key == key {
          OwnMarketNext(names, markets, last, years);
        } else {
          OtherMarketNext(names, markets, last, key, years);
        }
      }
    }
  }

  function Keys(markets: seq<MarketBase>): seq<MarketKey> {
    seq(|markets|, k requires 0 <= k < |markets| => markets[k].key)
  }

  lemma {:induction false} FoundAtOwnPlace(markets: seq<MarketBase>, k: nat)
    requires DistinctMarkets(markets) && k < |markets|
    ensures FindMarket(markets, markets[k].key) == k
  {
    var at := FindMarket(markets, markets[k].key);
    assert markets[at].key == markets[k].key;
  }

  /** The markets of a fresh load: those with known names and rows in the window, each with those rows. */
  ghost predicate MarketsAre(tables: Tables, w: Window, markets: seq<MarketBase>) {
    && Distinct(Keys(markets))
    && (forall key :: key in Keys(markets) <==> Named(tables.names, key) && UniverseYears(tables.marketYear, w, key) != [])
    && forall k :: 0 <= k < |markets| ==>
         var key := markets[k].key;
         && Named(tables.names, key)
         && markets[k] == MarketBase(key, tables.names.productById[key.productId], tables.names.economyByCode[key.importer],
                                     UniverseYears(tables.marketYear, w, key))
  }

  lemma {:induction false} FreshMarketsAre(tables: Tables, w: Window)
    ensures MarketsAre(tables, w, FreshMarkets(tables, w))
  {
    var markets := FreshMarkets(tables, w);
    MarketUniverseDistinct(tables.names, WithinMarketYears(tables.marketYear, w));
    forall key
      ensures key in Keys(markets) <==> Named(tables.names, key) && UniverseYears(tables.marketYear, w, key) != []
    {
      MarketHoldsItsRows(tables.names, tables.marketYear, w, key);
      if k :| 0 <= k < |markets| && Keys(markets)[k] == key {
        FoundAtOwnPlace(markets, k);
      }
      if FindMarket(markets, key) >= 0 {
        assert Keys(markets)[FindMarket(markets, key)] == key;
      }
    }
    forall k | 0 <= k < |markets|
      ensures MarketIs(tables.names, markets, markets[k].key, UniverseYears(tables.marketYear, w, markets[k].key))
      ensures FindMarket(markets, markets[k].key) == k
    {
      MarketHoldsItsRows(tables.names, tables.marketYear, w, markets[k].key);
      FoundAtOwnPlace(markets, k);
    }
  }

  lemma {:induction false} MarketsInOrder(names: Names, rows: seq<MarketYearRow>, w: Window)
    ensures Keys(MarketUniverse(names, WithinMarketYears(rows, w))) == OpenedMarkets(names, rows, w)
  {
    if rows != [] {
      var init, last := rows[..|rows| - 1], rows[|rows| - 1];
      MarketsInOrder(names, init, w);
      var within := WithinMarketYears(init, w);
      var markets := MarketUniverse(names, within);
      if InWindow(w, last.year) {
        assert (within + [last])[..|within|] == within;
        KeysNext(names, markets, last);
      } else {
        assert within + [] == within;
      }
    }
  }

  lemma {:induction false} KeysNext(names: Names, markets: seq<MarketBase>, row: MarketYearRow)
    ensures Keys(AddMarketYear(names, markets, row))
            == Keys(markets) + if Named(names, row.key) && row.key !in Keys(markets) then [row.key] else []
  {
    InKeysIff(markets, row.key);
  }

  lemma {:induction false} InKeysIff(markets: seq<MarketBase>, key: MarketKey)
    ensures key in Keys(markets) <==> FindMarket(markets, key) >= 0
  {
    var at := FindMarket(markets, key);
    assert at >= 0 ==> Keys(markets)[at] == key;
    assert at < 0 ==> forall k :: 0 <= k < |markets| ==> Keys(markets)[k] != key;
  }

  // ---------- The cells ----------

  lemma {:induction false} LastValueIsLast(rows: seq<BilateralRow>, w: Window, exporter: int, key: MarketKey, year: int)
    ensures FlowSays(rows, w, exporter, key, year, LastValue(FlowsOf(rows, exporter, w), key, year))
  {
    if rows != [] {
      var init, last := rows[..|rows| - 1], rows[|rows| - 1];
      LastValueIsLast(init, w, exporter, key, year);
      LastValueNext(w, exporter, rows, key, year);
      var before := LastValue(FlowsOf(init, exporter, w), key, year);
      assert rows == init + [last];
      if IsFlow(w, exporter, key, year, last) {
        assert LastFlowAt(rows, w, exporter, key, year, |init|);
      } else if before.Some? {
        var at :| LastFlowAt(init, w, exporter, key, year, at) && init[at].value == before.value;
        assert LastFlowAt(rows, w, exporter, key, year, at) && rows[at].value == before.value;
      }
    }
  }

  lemma {:induction false} OverlaidMarketSays(tables: Tables, w: Window, exporter: int, base: MarketBase)
    requires Named(tables.names, base.key)
    requires base == MarketBase(base.key, tables.names.productById[base.key.productId],
                                tables.names.economyByCode[base.key.importer], UniverseYears(tables.marketYear, w, base.key))
    ensures MarketSays(tables, w, exporter, base.key, OverlaidMarket(base, FlowsOf(tables.bilateralYear, exporter, w)))
  {
    forall k | 0 <= k < |base.years|
      ensures FlowSays(tables.bilateralYear, w, exporter, base.key, base.years[k].year,
                       LastValue(FlowsOf(tables.bilateralYear, exporter, w), base.key, base.years[k].year))
    {
      LastValueIsLast(tables.bilateralYear, w, exporter, base.key, base.years[k].year);
    }
  }

  /** The evidence of an exporter says what the tables say: products, markets, totals and cells. */
  lemma {:induction false} EvidenceMeans(tables: Tables, w: Window, exporter: int)
    ensures EvidenceSays(tables, w, exporter, EvidenceFor(tables, w, exporter))
  {
    ProductsMean(tables, w, exporter);
    MarketsMean(tables, w, exporter);
  }

  lemma {:induction false} ProductsMean(tables: Tables, w: Window, exporter: int)
    ensures ProductsSay(tables, w, exporter, EvidenceFor(tables, w, exporter).products, Ids(FreshProducts(tables, w)))
  {
    var products := FreshProducts(tables, w);
    FreshProductsAre(tables, w);
    ProductsInOrder(tables.names, tables.productYear, w);
    KnownProductIds(YearLists(WorldRows(ProductYears(tables, w))), tables.names.productById);
    forall id
      ensures WorldYearsBy(tables.productYear, w)(id) == WorldYears(tables.productYear, w, id)
    {
    }
    forall k | 0 <= k < |products|
      ensures ProductSays(tables, w, exporter, products[k].productId, EvidenceFor(tables, w, exporter).products[k])
    {
      ExporterTotalsAre(tables.bilateralYear, w, exporter, products[k].productId);
    }
  }

  lemma {:induction false} MarketsMean(tables: Tables, w: Window, exporter: int)
    ensures MarketsSay(tables, w, exporter, EvidenceFor(tables, w, exporter).markets, Keys(FreshMarkets(tables, w)))
  {
    var markets := FreshMarkets(tables, w);
    FreshMarketsAre(tables, w);
    MarketsInOrder(tables.names, tables.marketYear, w);
    forall k | 0 <= k < |markets|
      ensures MarketSays(tables, w, exporter, markets[k].key, EvidenceFor(tables, w, exporter).markets[k])
    {
      OverlaidMarketSays(tables, w, exporter, markets[k]);
    }
  }
}
