/**
  The incremental build of scripts/release/opportunity-index.ts.

  One graph of shared objects is loaded once. For each exporter the previous exporter's values are
  taken out again, cell by cell from a remembered list, and the exporter's own values are written
  into the same objects. The claim is that every exporter is given what a fresh load would give.
*/
module OpportunityIndex {
  import opened Common
  import opened GroupTotals
  import opened OpportunityEvidence
  import opened EvidenceMeaning

  /** One year of one market: the cell that each exporter's overlay writes and the next one clears. */
  class MarketYear {
    const year: int
    const worldValue: int
    var bilateralValue: Option<int>
    ghost const key: MarketKey
    ghost const first: bool

    constructor (year: int, worldValue: int, ghost key: MarketKey, ghost first: bool)
      ensures this.year == year && this.worldValue == worldValue && bilateralValue == None
      ensures this.key == key && this.first == first
    {
      this.year, this.worldValue, bilateralValue := year, worldValue, None;
      this.key, this.first := key, first;
    }
  }

  class Market {
    const product: ProductIdentity
    const market: EconomyIdentity
    var marketYears: seq<MarketYear>
    ghost const key: MarketKey

    constructor (product: ProductIdentity, market: EconomyIdentity, ghost key: MarketKey)
      ensures this.product == product && this.market == market && marketYears == [] && this.key == key
    {
      this.product, this.market, marketYears, this.key := product, market, [], key;
    }
  }

  class ProductRecord {
    const product: ProductIdentity
    const worldYearTotals: seq<YearValue>
    var exporterExportTotals: seq<YearValue>
    ghost const productId: int

    constructor (product: ProductIdentity, worldYearTotals: seq<YearValue>, ghost productId: int)
      ensures this.product == product && this.worldYearTotals == worldYearTotals
      ensures exporterExportTotals == [] && this.productId == productId
    {
      this.product, this.worldYearTotals, exporterExportTotals := product, worldYearTotals, [];
      this.productId := productId;
    }
  }

  /** The cells of a market are the years of its base, in order. */
  ghost predicate CellsMatch(marketYears: seq<MarketYear>, base: MarketBase) {
    && |marketYears| == |base.years|
    && forall k :: 0 <= k < |marketYears| ==>
         && marketYears[k].year == base.years[k].year && marketYears[k].worldValue == base.years[k].value
         && marketYears[k].key == base.key && marketYears[k].first == FirstOfYear(base.years, k)
  }

  /** The value an exporter's flows give a cell: only the first cell of a year is ever written. */
  ghost function CellValue(c: MarketYear, flows: seq<BilateralRow>): Option<int> {
    if c.first then LastValue(flows, c.key, c.year) else None
  }

  /** A further year of one market. */
  function WithYear(bases: seq<MarketBase>, at: nat, year: YearValue): seq<MarketBase>
    requires at < |bases|
  {
    bases[at := bases[at].(years := bases[at].years + [year])]
  }

  /** The cell of a further year of `base`. */
  ghost predicate CellOf(cell: MarketYear, base: MarketBase, year: YearValue) {
    && cell.year == year.year && cell.worldValue == year.value && cell.key == base.key
    && cell.first == FirstOfYear(base.years + [year], |base.years|)
  }

  /** What is added to the graph: a further year of a market, or a market with its first year. */
  datatype CellAddition = CellAddition(at: nat, year: YearValue, cell: MarketYear)

  datatype MarketAddition = MarketAddition(base: MarketBase, market: Market, cell: MarketYear)

  /** The bases after one more row. */
  lemma {:induction false} NextBases(names: Names, bases: seq<MarketBase>, row: MarketYearRow)
    ensures var at, year := FindMarket(bases, row.key), YearValue(row.year, row.world);
            var next := OpportunityEvidence.AddMarketYear(names, bases, row);
            if at >= 0 then next == WithYear(bases, at, year)
            else if row.key.productId in names.productById && row.key.importer in names.economyByCode then
              next == bases + [MarketBase(row.key, names.productById[row.key.productId],
                                          names.economyByCode[row.key.importer], [year])]
            else next == bases
  {
  }

  class SharedInputs {
    var products: seq<ProductRecord>
    var productEvidenceById: map<int, ProductRecord>
    var markets: seq<Market>
    var marketByPair: map<MarketKey, Market>
    /** Every cell of every market. */
    ghost var cells: set<MarketYear>

    /** `markets` and `marketByPair` hold the same market objects, one for each base. */
    ghost predicate MarketsLinked(bases: seq<MarketBase>)
      reads this, markets
    {
      && |markets| == |bases| && DistinctMarkets(bases)
      && (forall i :: 0 <= i < |bases| ==>
            && markets[i].key == bases[i].key
            && markets[i].product == bases[i].product && markets[i].market == bases[i].market
            && CellsMatch(markets[i].marketYears, bases[i])
            && bases[i].key in marketByPair && marketByPair[bases[i].key] == markets[i])
      && (forall key :: key in marketByPair ==> marketByPair[key] in markets && marketByPair[key].key == key)
    }

    /** `cells` are the cells of the markets, each in the market of its key. */
    ghost predicate CellsPlaced()
      reads this, markets, marketByPair.Values
    {
      && (forall m :: m in markets ==> forall c :: c in m.marketYears ==> c in cells)
      && (forall c :: c in cells ==> c.key in marketByPair && c in marketByPair[c.key].marketYears)
    }

    ghost predicate MarketsLoaded(bases: seq<MarketBase>)
      reads this, markets, marketByPair.Values
    {
      MarketsLinked(bases) && CellsPlaced()
    }

    /** Writing cells leaves the markets and their places alone. */
    twostate lemma StructureKept(bases: seq<MarketBase>)
      requires old(MarketsLoaded(bases)) && unchanged(this) && unchanged(markets) && unchanged(marketByPair.Values)
      ensures MarketsLoaded(bases)
    {
    }

    ghost predicate ProductsLoaded(bases: seq<ProductBase>)
      reads this
    {
      && |products| == |bases| && DistinctBases(bases)
      && (forall i :: 0 <= i < |bases| ==>
            && products[i].productId == bases[i].productId
            && products[i].product == bases[i].product && products[i].worldYearTotals == bases[i].totals
            && bases[i].productId in productEvidenceById && productEvidenceById[bases[i].productId] == products[i])
      && (forall id :: id in productEvidenceById ==>
            productEvidenceById[id] in products && productEvidenceById[id].productId == id)
    }

    /** Every cell shows what `flows` write into a fresh load. */
    ghost predicate CellsShow(flows: seq<BilateralRow>)
      reads this, cells
    {
      forall c :: c in cells ==> c.bilateralValue == CellValue(c, flows)
    }

    /** Every product shows its entry of `lists`. */
    ghost predicate ProductsShow(lists: seq<ProductYearList>)
      reads this, products
    {
      forall p :: p in products ==> p.exporterExportTotals == YearsOf(lists, p.productId)
    }

    // ---------- What the cohort computation is given ----------

    function MarketSnapshot(m: Market): MarketEvidence
      reads m, m.marketYears
    {
      MarketEvidence(m.product, m.market,
                     seq(|m.marketYears|, k requires 0 <= k < |m.marketYears| reads m, m.marketYears =>
                       MarketYearEvidence(m.marketYears[k].year, m.marketYears[k].worldValue,
                                          m.marketYears[k].bilateralValue)))
    }

    function ProductSnapshot(p: ProductRecord): ProductEvidence
      reads p
    {
      ProductEvidence(p.product, p.worldYearTotals, p.exporterExportTotals)
    }

    ghost predicate CellsLinked()
      reads this, markets
    {
      forall m :: m in markets ==> forall c :: c in m.marketYears ==> c in cells
    }

    /** The graph as the cohort computation reads it. */
    function Snapshot(): Evidence
      requires CellsLinked()
      reads this, products, markets, cells
    {
      Evidence(seq(|products|, k requires 0 <= k < |products| reads this, products => ProductSnapshot(products[k])),
               seq(|markets|, k requires 0 <= k < |markets| && CellsLinked() reads this, markets, cells
                     => MarketSnapshot(markets[k])))
    }

    /** A graph that shows an exporter's flows and totals is, read as a value, the overlaid fresh load. */
    lemma SnapshotIsOverlay(products': seq<ProductBase>, markets': seq<MarketBase>,
                            flows: seq<BilateralRow>, lists: seq<ProductYearList>)
      requires ProductsLoaded(products') && MarketsLoaded(markets')
      requires CellsShow(flows) && ProductsShow(lists)
      ensures CellsLinked()
      ensures Snapshot() ==
              Evidence(seq(|products'|, k requires 0 <= k < |products'| => OverlaidProduct(products'[k], lists)),
                       seq(|markets'|, k requires 0 <= k < |markets'| => OverlaidMarket(markets'[k], flows)))
    {
      forall k | 0 <= k < |markets|
        ensures MarketSnapshot(markets[k]) == OverlaidMarket(markets'[k], flows)
      {
        assert markets[k] in markets && CellsMatch(markets[k].marketYears, markets'[k]);
        forall j | 0 <= j < |markets[k].marketYears|
          ensures markets[k].marketYears[j].bilateralValue
                  == if FirstOfYear(markets'[k].years, j) then LastValue(flows, markets'[k].key, markets'[k].years[j].year)
                     else None
        {
          assert markets[k].marketYears[j] in markets[k].marketYears;
        }
      }
      forall k | 0 <= k < |products|
        ensures ProductSnapshot(products[k]) == OverlaidProduct(products'[k], lists)
      {
        assert products[k] in products;
      }
    }

    // ---------- Loading ----------

    /** A key has a market object exactly when it has a base, and the object is at the base's place. */
    lemma {:induction false} MarketAtBase(bases: seq<MarketBase>, key: MarketKey)
      requires MarketsLoaded(bases)
      ensures var at := FindMarket(bases, key);
              && (key in marketByPair <==> at >= 0)
              && (at >= 0 ==> marketByPair[key] == markets[at])
    {
      var at := FindMarket(bases, key);
      if key in marketByPair {
        var i :| 0 <= i < |markets| && markets[i] == marketByPair[key];
        assert bases[i].key == key;
      }
      if at >= 0 {
        assert markets[at].key == key;
      }
    }

    /** The links after a market has got one cell more. */
    twostate lemma LinkedWithCell(bases: seq<MarketBase>, new a: CellAddition)
      requires old(MarketsLinked(bases)) && a.at < |bases|
      requires markets == old(markets) && marketByPair == old(marketByPair)
      requires var m := markets[a.at]; m.marketYears == old(m.marketYears) + [a.cell]
      requires forall m :: m in markets && m != markets[a.at] ==> m.marketYears == old(m.marketYears)
      requires CellOf(a.cell, bases[a.at], a.year)
      ensures MarketsLinked(WithYear(bases, a.at, a.year))
    {
      var grown, market := WithYear(bases, a.at, a.year), markets[a.at];
      CellsGrow(old(market.marketYears), bases[a.at], a.year, a.cell);
      forall i | 0 <= i < |bases|
        ensures CellsMatch(markets[i].marketYears, grown[i])
      {
        if i != a.at {
          assert markets[i].key == bases[i].key && market.key == bases[a.at].key;
        }
      }
    }

    twostate lemma PlacedWithCell(new a: CellAddition)
      requires old(CellsPlaced()) && a.at < |markets|
      requires markets == old(markets) && marketByPair == old(marketByPair) && cells == old(cells) + {a.cell}
      requires a.cell.key in marketByPair && marketByPair[a.cell.key] == markets[a.at]
      requires var m := markets[a.at]; m.marketYears == old(m.marketYears) + [a.cell]
      requires forall m :: m in markets && m != markets[a.at] ==> m.marketYears == old(m.marketYears)
      requires forall key :: key in marketByPair ==> marketByPair[key] in markets
      ensures CellsPlaced()
    {
    }

    /** A further year of a market that is already there. */
    method AddCell(ghost bases: seq<MarketBase>, ghost at: nat, key: MarketKey, year: YearValue)
      returns (ghost added: set<MarketYear>)
      requires MarketsLoaded(bases) && at < |bases| && bases[at].key == key
      modifies this`cells, markets
      ensures MarketsLoaded(WithYear(bases, at, year))
      ensures cells == old(cells) + added && fresh(added) && forall c :: c in added ==> c.bilateralValue == None
    {
      var market := marketByPair[key];
      var cell := new MarketYear(year.year, year.value, key, FirstOfYear(bases[at].years + [year], |bases[at].years|));
      market.marketYears := market.marketYears + [cell];
      cells := cells + {cell};
      added := {cell};
      ghost var addition := CellAddition(at, year, cell);
      LinkedWithCell(bases, addition);
      PlacedWithCell(addition);
    }

    /** The links after a market has been opened. */
    twostate lemma LinkedWithMarket(bases: seq<MarketBase>, new a: MarketAddition)
      requires old(MarketsLinked(bases)) && a.base.key !in old(marketByPair)
      requires markets == old(markets) + [a.market] && marketByPair == old(marketByPair)[a.base.key := a.market]
      requires forall m :: m in old(markets) ==> m.marketYears == old(m.marketYears)
      requires a.market.key == a.base.key && a.market.product == a.base.product && a.market.market == a.base.market
      requires CellsMatch(a.market.marketYears, a.base)
      ensures MarketsLinked(bases + [a.base])
    {
      var grown := bases + [a.base];
      forall i | 0 <= i < |bases|
        ensures grown[i] == bases[i] && bases[i].key != a.base.key && markets[i] == old(markets)[i]
                && markets[i] in old(markets)
      {
        assert bases[i].key in old(marketByPair);
      }
    }

    twostate lemma PlacedWithMarket(new a: MarketAddition)
      requires old(CellsPlaced()) && a.market.key !in old(marketByPair) && a.cell.key == a.market.key
      requires markets == old(markets) + [a.market] && marketByPair == old(marketByPair)[a.market.key := a.market]
      requires cells == old(cells) + {a.cell} && a.market.marketYears == [a.cell]
      requires forall m :: m in old(markets) ==> m.marketYears == old(m.marketYears)
      requires forall k :: k in old(marketByPair) ==> old(marketByPair[k]) in old(markets)
      ensures CellsPlaced()
    {
    }

    /** The first year of a market opens it. */
    method OpenMarket(ghost bases: seq<MarketBase>, key: MarketKey, product: ProductIdentity, economy: EconomyIdentity,
                      year: YearValue) returns (cell: MarketYear)
      requires MarketsLoaded(bases) && key !in marketByPair
      modifies this`markets, this`marketByPair, this`cells
      ensures MarketsLoaded(bases + [MarketBase(key, product, economy, [year])])
      ensures fresh(cell) && cells == old(cells) + {cell} && cell.bilateralValue == None
      ensures forall m :: m in markets ==> m in old(markets) || fresh(m)
    {
      var market := new Market(product, economy, key);
      cell := new MarketYear(year.year, year.value, key, true);
      market.marketYears := [cell];
      marketByPair := marketByPair[key := market];
      markets := markets + [market];
      cells := cells + {cell};
      ghost var added := MarketAddition(MarketBase(key, product, economy, [year]), market, cell);
      LinkedWithMarket(bases, added);
      PlacedWithMarket(added);
    }

    /** One row of the market universe, for a market that is there. */
    method AddToMarket(ghost names: Names, ghost bases: seq<MarketBase>, row: MarketYearRow)
      returns (ghost added: set<MarketYear>)
      requires MarketsLoaded(bases) && row.key in marketByPair
      modifies this`cells, markets
      ensures MarketsLoaded(OpportunityEvidence.AddMarketYear(names, bases, row))
      ensures cells == old(cells) + added && fresh(added) && forall c :: c in added ==> c.bilateralValue == None
    {
      MarketAtBase(bases, row.key);
      NextBases(names, bases, row);
      ghost var at := FindMarket(bases, row.key);
      added := AddCell(bases, at, row.key, YearValue(row.year, row.world));
    }

    /** One row of the market universe, for a market that is not. */
    method AddFirstYear(names: Names, ghost bases: seq<MarketBase>, row: MarketYearRow)
      returns (ghost added: set<MarketYear>)
      requires MarketsLoaded(bases) && row.key !in marketByPair
      modifies this`markets, this`marketByPair, this`cells
      ensures MarketsLoaded(OpportunityEvidence.AddMarketYear(names, bases, row))
      ensures cells == old(cells) + added && fresh(added) && forall c :: c in added ==> c.bilateralValue == None
      ensures forall m :: m in markets ==> m in old(markets) || fresh(m)
    {
      MarketAtBase(bases, row.key);
      NextBases(names, bases, row);
      if row.key.productId !in names.productById || row.key.importer !in names.economyByCode {
        return {};
      }
      var cell := OpenMarket(bases, row.key, names.productById[row.key.productId], names.economyByCode[row.key.importer],
                             YearValue(row.year, row.world));
      added := {cell};
    }

    /** One row of the market universe. */
    method AddMarketYear(names: Names, ghost bases: seq<MarketBase>, row: MarketYearRow)
      returns (ghost added: set<MarketYear>)
      requires MarketsLoaded(bases)
      modifies this`markets, this`marketByPair, this`cells, markets
      ensures MarketsLoaded(OpportunityEvidence.AddMarketYear(names, bases, row))
      ensures cells == old(cells) + added && fresh(added) && forall c :: c in added ==> c.bilateralValue == None
      ensures forall m :: m in markets ==> m in old(markets) || fresh(m)
    {
      if row.key in marketByPair {
        added := AddToMarket(names, bases, row);
      } else {
        added := AddFirstYear(names, bases, row);
      }
    }

    /** One product: recorded when its identity is known. */
    method AddProduct(names: Names, ghost bases: seq<ProductBase>, list: ProductYearList)
      requires ProductsLoaded(bases) && ProductsShow([])
      requires forall b :: b in bases ==> b.productId != list.productId
      modifies this`products, this`productEvidenceById
      ensures ProductsShow([])
      ensures ProductsLoaded(bases + if list.productId in names.productById
                                     then [ProductBase(list.productId, names.productById[list.productId], list.years)]
                                     else [])
      ensures forall p :: p in products ==> p in old(products) || fresh(p)
    {
      if list.productId in names.productById {
        var record := new ProductRecord(names.productById[list.productId], list.years, list.productId);
        assert forall i :: 0 <= i < |bases| ==> bases[i] in bases;
        products := products + [record];
        productEvidenceById := productEvidenceById[list.productId := record];
      } else {
        assert bases + [] == bases;
      }
    }

    method LoadProducts(tables: Tables, w: Window)
      requires products == [] && productEvidenceById == map[]
      modifies this`products, this`productEvidenceById
      ensures ProductsLoaded(FreshProducts(tables, w)) && ProductsShow([])
      ensures forall p :: p in products ==> fresh(p)
    {
      var lists := BuildYearLists(WorldRows(ProductYears(tables, w)));
      for n := 0 to |lists|
        invariant ProductsLoaded(KnownProducts(lists[..n], tables.names.productById)) && ProductsShow([])
        invariant forall p :: p in products ==> fresh(p)
      {
        TakeNext(lists, n);
        NextProductIsNew(lists, n, tables.names.productById);
        AddProduct(tables.names, KnownProducts(lists[..n], tables.names.productById), lists[n]);
      }
      TakeAll(lists);
    }

    method LoadMarkets(tables: Tables, w: Window)
      requires markets == [] && marketByPair == map[] && cells == {}
      modifies this`markets, this`marketByPair, this`cells
      ensures MarketsLoaded(FreshMarkets(tables, w)) && CellsShow([])
      ensures fresh(cells)
    {
      var rows := WithinMarketYears(tables.marketYear, w);
      ghost var bases: seq<MarketBase> := [];
      for n := 0 to |rows|
        invariant bases == MarketUniverse(tables.names, rows[..n])
        invariant MarketsLoaded(bases)
        invariant forall c :: c in cells ==> fresh(c) && c.bilateralValue == None
        invariant forall m :: m in markets ==> fresh(m)
      {
        TakeNext(rows, n);
        ghost var added := AddMarketYear(tables.names, bases, rows[n]);
        bases := OpportunityEvidence.AddMarketYear(tables.names, bases, rows[n]);
      }
      TakeAll(rows);
    }

    /** The graph holds what a fresh load of the tables holds; what the overlay writes is left open. */
    ghost predicate Loaded(tables: Tables, w: Window)
      reads this, markets, marketByPair.Values
    {
      ProductsLoaded(FreshProducts(tables, w)) && MarketsLoaded(FreshMarkets(tables, w))
    }

    /** Every cell that is written at the moment is on the remembered list. */
    ghost predicate CellsRemembered(touchedMarketYears: seq<MarketYear>)
      reads this, cells
    {
      && (forall c :: c in touchedMarketYears ==> c in cells)
      && (forall c :: c in cells && c.bilateralValue != None ==> c in touchedMarketYears)
    }

    ghost predicate TotalsRemembered(touchedProductIds: seq<int>)
      reads this, products
    {
      forall p :: p in products && p.exporterExportTotals != [] ==> p.productId in touchedProductIds
    }

    /** Whatever is overlaid at the moment is on the remembered lists. */
    ghost predicate Remembered(touchedMarketYears: seq<MarketYear>, touchedProductIds: seq<int>)
      reads this, cells, products
    {
      CellsRemembered(touchedMarketYears) && TotalsRemembered(touchedProductIds)
    }

    /** What leaves the graph alone leaves it loaded, and what was written remembered. */
    twostate lemma StillRemembered(new tables: Tables, new w: Window, touchedMarketYears: seq<MarketYear>,
                                   new touchedProductIds: seq<int>)
      requires old(Loaded(tables, w)) && old(Remembered(touchedMarketYears, touchedProductIds))
      requires unchanged(this) && unchanged(markets) && unchanged(marketByPair.Values)
      requires unchanged(cells) && unchanged(products)
      ensures Loaded(tables, w) && Remembered(touchedMarketYears, touchedProductIds)
    {
    }

    /** The load: products with their world totals, then the market universe row by row. */
    constructor (tables: Tables, w: Window)
      ensures Loaded(tables, w) && Remembered([], [])
      ensures fresh(cells) && forall p :: p in products ==> fresh(p)
    {
      products, productEvidenceById, markets, marketByPair, cells := [], map[], [], map[], {};
      new;
      LoadProducts(tables, w);
      LoadMarkets(tables, w);
    }

    // ---------- One exporter's overlay ----------

    /** The first cell of a year is the only one that a flow can be written to. */
    lemma FirstIsUnique(bases: seq<MarketBase>, c: MarketYear, d: MarketYear)
      requires MarketsLoaded(bases) && c in cells && d in cells
      requires c.first && d.first && c.key == d.key && c.year == d.year
      ensures c == d
    {
      var i :| 0 <= i < |markets| && markets[i] == marketByPair[c.key];
      assert CellsMatch(markets[i].marketYears, bases[i]);
      var k :| 0 <= k < |markets[i].marketYears| && markets[i].marketYears[k] == c;
      var l :| 0 <= l < |markets[i].marketYears| && markets[i].marketYears[l] == d;
      EarlierIsNotFirst(bases[i].years, k, l);
    }

    /** The inner loop: the first cell of the market with the year of the row. */
    method FindMarketYear(ghost bases: seq<MarketBase>, key: MarketKey, year: int) returns (found: Option<MarketYear>)
      requires MarketsLoaded(bases)
      ensures found.Some? ==>
                found.value in cells && found.value.first && found.value.key == key && found.value.year == year
      ensures found.None? ==> forall c :: c in cells && c.key == key ==> c.year != year
    {
      if key !in marketByPair {
        return None;
      }
      ghost var at :| 0 <= at < |markets| && markets[at] == marketByPair[key];
      found := FirstOfYearIn(marketByPair[key].marketYears, bases[at], year);
    }

    /** One more flow: the cell it is written to, if there is one, is the only cell it concerns. */
    lemma FlowConcernsOneCell(bases: seq<MarketBase>, flows: seq<BilateralRow>, row: BilateralRow,
                              found: Option<MarketYear>, c: MarketYear)
      requires MarketsLoaded(bases) && c in cells
      requires found.Some? ==>
                 found.value in cells && found.value.first && found.value.key == row.key && found.value.year == row.year
      requires found.None? ==> forall d :: d in cells && d.key == row.key ==> d.year != row.year
      ensures CellValue(c, flows + [row]) == if found == Some(c) then Some(row.value) else CellValue(c, flows)
    {
      assert (flows + [row])[..|flows|] == flows;
      if c.first && c.key == row.key && c.year == row.year {
        if found.Some? {
          FirstIsUnique(bases, c, found.value);
        }
      }
    }

    /** Writes one flow into its cell, if there is one. */
    method WriteFlow(ghost bases: seq<MarketBase>, ghost flows: seq<BilateralRow>, row: BilateralRow)
      returns (found: Option<MarketYear>)
      requires MarketsLoaded(bases) && CellsShow(flows)
      modifies cells
      ensures CellsShow(flows + [row])
      ensures found.Some? ==> found.value in cells
      ensures forall c :: c in cells && c.bilateralValue != None ==> old(c.bilateralValue) != None || found == Some(c)
    {
      found := FindMarketYear(bases, row.key, row.year);
      forall c | c in cells
        ensures CellValue(c, flows + [row]) == if found == Some(c) then Some(row.value) else CellValue(c, flows)
      {
        FlowConcernsOneCell(bases, flows, row, found, c);
      }
      if found.Some? {
        found.value.bilateralValue := Some(row.value);
      }
    }

    /** Writes one more flow, and remembers the cell it was written to. */
    method WriteAndRemember(ghost bases: seq<MarketBase>, flows: seq<BilateralRow>, n: nat, touched: seq<MarketYear>)
      returns (grown: seq<MarketYear>)
      requires n < |flows| && MarketsLoaded(bases) && CellsShow(flows[..n]) && CellsRemembered(touched)
      modifies cells
      ensures MarketsLoaded(bases) && CellsShow(flows[..n + 1]) && CellsRemembered(grown)
    {
      TakeNext(flows, n);
      var found := WriteFlow(bases, flows[..n], flows[n]);
      grown := if found.Some? then touched + [found.value] else touched;
    }

    /** Writes the exporter's flows into the cells, and remembers which cells were written. */
    method ApplyFlows(ghost bases: seq<MarketBase>, flows: seq<BilateralRow>) returns (touched: seq<MarketYear>)
      requires MarketsLoaded(bases) && CellsShow([])
      modifies cells
      ensures CellsShow(flows) && CellsRemembered(touched)
    {
      touched := [];
      for n := 0 to |flows|
        invariant MarketsLoaded(bases) && CellsShow(flows[..n]) && CellsRemembered(touched)
      {
        touched := WriteAndRemember(bases, flows, n, touched);
      }
      TakeAll(flows);
    }

    /** One list of years more: it concerns the product with its id. */
    lemma YearsNext(lists: seq<ProductYearList>, n: nat)
      requires n < |lists| && DistinctProducts(lists)
      ensures forall id :: YearsOf(lists[..n + 1], id)
                           == if id == lists[n].productId then lists[n].years else YearsOf(lists[..n], id)
    {
      TakeNext(lists, n);
      var before, list := lists[..n], lists[n];
      assert DistinctProducts(before + [list]);
      forall id
        ensures YearsOf(before + [list], id) == if id == list.productId then list.years else YearsOf(before, id)
      {
        YearsOfLast(before, list, id);
      }
    }

    /** Sets one product's totals, if the product is known. */
    method SetTotals(ghost bases: seq<ProductBase>, ghost lists: seq<ProductYearList>, ghost n: nat, list: ProductYearList)
      returns (known: bool)
      requires n < |lists| && DistinctProducts(lists) && list == lists[n]
      requires ProductsLoaded(bases) && ProductsShow(lists[..n])
      modifies products
      ensures ProductsLoaded(bases) && ProductsShow(lists[..n + 1])
      ensures forall p :: p in products && p.exporterExportTotals != [] ==>
                old(p.exporterExportTotals) != [] || (known && p.productId == list.productId)
    {
      YearsNext(lists, n);
      known := list.productId in productEvidenceById;
      if known {
        productEvidenceById[list.productId].exporterExportTotals := list.years;
      }
    }

    /** Sets the exporter's totals of the products it exports, and remembers which were set. */
    method ApplyTotals(ghost bases: seq<ProductBase>, lists: seq<ProductYearList>) returns (touched: seq<int>)
      requires ProductsLoaded(bases) && ProductsShow([]) && DistinctProducts(lists)
      modifies products
      ensures ProductsShow(lists) && TotalsRemembered(touched)
    {
      touched := [];
      for n := 0 to |lists|
        invariant ProductsLoaded(bases) && ProductsShow(lists[..n])
        invariant TotalsRemembered(touched)
      {
        var known := SetTotals(bases, lists, n, lists[n]);
        if known {
          touched := touched + [lists[n].productId];
        }
      }
      TakeAll(lists);
    }

    /** Takes the previous exporter's values out again, from the remembered lists. */
    method ResetOverlay(ghost bases: seq<ProductBase>, touchedMarketYears: seq<MarketYear>, touchedProductIds: seq<int>)
      requires ProductsLoaded(bases) && Remembered(touchedMarketYears, touchedProductIds)
      modifies cells, products
      ensures CellsShow([]) && ProductsShow([])
    {
      for n := 0 to |touchedMarketYears|
        invariant forall c :: c in cells && c.bilateralValue != None ==> c in touchedMarketYears[n..]
        invariant forall p :: p in products && p.exporterExportTotals != [] ==> p.productId in touchedProductIds
      {
        touchedMarketYears[n].bilateralValue := None;
      }
      for n := 0 to |touchedProductIds|
        invariant forall c :: c in cells ==> c.bilateralValue == None
        invariant forall p :: p in products && p.exporterExportTotals != [] ==> p.productId in touchedProductIds[n..]
        invariant ProductsLoaded(bases)
      {
        var id := touchedProductIds[n];
        if id in productEvidenceById {
          productEvidenceById[id].exporterExportTotals := [];
        }
      }
    }

    /** The exporter's totals, summed from its flows. */
    method ApplyTotalsOf(ghost bases: seq<ProductBase>, flows: seq<BilateralRow>) returns (touched: seq<int>)
      requires ProductsLoaded(bases) && ProductsShow([])
      modifies products
      ensures ProductsShow(YearLists(TotalsQuery(flows))) && TotalsRemembered(touched)
    {
      var lists := BuildYearLists(TotalsQuery(flows));
      touched := ApplyTotals(bases, lists);
    }

    /** The exporter's flows and totals, on a graph that shows none. */
    method ApplyExporterOverlay(tables: Tables, w: Window, exporter: int)
      returns (touchedMarketYears: seq<MarketYear>, touchedProductIds: seq<int>)
      requires Loaded(tables, w) && CellsShow([]) && ProductsShow([])
      modifies cells, products
      ensures Remembered(touchedMarketYears, touchedProductIds)
      ensures var flows := FlowsOf(tables.bilateralYear, exporter, w);
              CellsShow(flows) && ProductsShow(YearLists(TotalsQuery(flows)))
    {
      var flows := FlowsOf(tables.bilateralYear, exporter, w);
      touchedMarketYears := ApplyFlows(FreshMarkets(tables, w), flows);
      touchedProductIds := ApplyTotalsOf(FreshProducts(tables, w), flows);
    }

    /** Reset, then overlay: the graph shows this exporter's flows and totals, and nothing else. */
    method OverlayExporter(tables: Tables, w: Window, exporter: int,
                           touchedMarketYears: seq<MarketYear>, touchedProductIds: seq<int>)
      returns (newMarketYears: seq<MarketYear>, newProductIds: seq<int>)
      requires Loaded(tables, w) && Remembered(touchedMarketYears, touchedProductIds)
      modifies cells, products
      ensures Remembered(newMarketYears, newProductIds)
      ensures var flows := FlowsOf(tables.bilateralYear, exporter, w);
              CellsShow(flows) && ProductsShow(YearLists(TotalsQuery(flows)))
    {
      ResetOverlay(FreshProducts(tables, w), touchedMarketYears, touchedProductIds);
      StructureKept(FreshMarkets(tables, w));
      newMarketYears, newProductIds := ApplyExporterOverlay(tables, w, exporter);
    }

    /**
      What the build does for one exporter: reset, overlay, and hand the graph to the cohort
      computation. Whatever the previous exporter left behind, the evidence is that of a fresh load.
    */
    method HandOver(tables: Tables, w: Window, exporter: int, touchedMarketYears: seq<MarketYear>,
                    touchedProductIds: seq<int>)
      returns (newMarketYears: seq<MarketYear>, newProductIds: seq<int>, evidence: Evidence)
      requires Loaded(tables, w) && Remembered(touchedMarketYears, touchedProductIds)
      modifies cells, products
      ensures Loaded(tables, w) && Remembered(newMarketYears, newProductIds)
      ensures evidence == EvidenceFor(tables, w, exporter)
      ensures EvidenceSays(tables, w, exporter, evidence)
    {
      newMarketYears, newProductIds := OverlayExporter(tables, w, exporter, touchedMarketYears, touchedProductIds);
      StructureKept(FreshMarkets(tables, w));
      ghost var flows := FlowsOf(tables.bilateralYear, exporter, w);
      SnapshotIsOverlay(FreshProducts(tables, w), FreshMarkets(tables, w), flows, YearLists(TotalsQuery(flows)));
      evidence := Snapshot();
      EvidenceMeans(tables, w, exporter);
    }
  }

  /** The lists of years by product, as rows arrive. */
  method BuildYearLists(rows: seq<Entry<ProductYear>>) returns (lists: seq<ProductYearList>)
    ensures lists == YearLists(rows) && DistinctProducts(lists)
  {
    lists := [];
    for n := 0 to |rows|
      invariant lists == YearLists(rows[..n])
    {
      TakeNext(rows, n);
      lists := AddYear(lists, rows[n].key.productId, YearValue(rows[n].key.year, rows[n].amount));
    }
    TakeAll(rows);
    YearListsDistinct(rows);
  }

  lemma {:induction false} NextProductIsNew(lists: seq<ProductYearList>, n: nat, productById: map<int, ProductIdentity>)
    requires DistinctProducts(lists) && n < |lists|
    ensures forall b :: b in KnownProducts(lists[..n], productById) ==> b.productId != lists[n].productId
    ensures KnownProducts(lists[..n + 1], productById)
            == KnownProducts(lists[..n], productById)
               + if lists[n].productId in productById
                 then [ProductBase(lists[n].productId, productById[lists[n].productId], lists[n].years)] else []
  {
    KnownProductsDistinct(lists[..n], productById);
    TakeNext(lists, n);
    forall b | b in KnownProducts(lists[..n], productById)
      ensures b.productId != lists[n].productId
    {
      var l :| l in lists[..n] && l.productId == b.productId;
      var i :| 0 <= i < n && lists[i] == l;
    }
  }

  /** One more year at the end leaves the earlier years first, or not first, as they were. */
  lemma CellsGrow(marketYears: seq<MarketYear>, base: MarketBase, year: YearValue, cell: MarketYear)
    requires CellsMatch(marketYears, base)
    requires cell.year == year.year && cell.worldValue == year.value && cell.key == base.key
    requires cell.first == FirstOfYear(base.years + [year], |base.years|)
    ensures CellsMatch(marketYears + [cell], base.(years := base.years + [year]))
  {
    var years := base.years + [year];
    forall k | 0 <= k < |base.years|
      ensures FirstOfYear(years, k) == FirstOfYear(base.years, k)
    {
      assert forall i :: 0 <= i <= k ==> years[i] == base.years[i];
    }
  }

  lemma EarlierIsNotFirst(years: seq<YearValue>, k: nat, l: nat)
    requires k < |years| && l < |years|
    ensures FirstOfYear(years, k) && FirstOfYear(years, l) && years[k].year == years[l].year ==> k == l
  {
  }

  /** The loop that breaks at the first cell with the year. */
  method FirstOfYearIn(marketYears: seq<MarketYear>, ghost base: MarketBase, year: int) returns (found: Option<MarketYear>)
    requires CellsMatch(marketYears, base)
    ensures found.Some? ==>
              found.value in marketYears && found.value.first && found.value.year == year
    ensures found.None? ==> forall c :: c in marketYears ==> c.year != year
  {
    for k := 0 to |marketYears|
      invariant forall i :: 0 <= i < k ==> marketYears[i].year != year
    {
      if marketYears[k].year == year {
        return Some(marketYears[k]);
      }
    }
    return None;
  }

  lemma {:induction false} YearsOfLast(lists: seq<ProductYearList>, last: ProductYearList, id: int)
    requires DistinctProducts(lists + [last])
    ensures YearsOf(lists + [last], id) == if id == last.productId then last.years else YearsOf(lists, id)
  {
    var all := lists + [last];
    if lists == [] {
      assert all[1..] == [];
    } else {
      assert all[1..] == lists[1..] + [last];
      assert all[0].productId != all[|lists|].productId;
      assert forall i, j :: 0 <= i < j < |all[1..]| ==>
        all[1..][i].productId == all[i + 1].productId && all[1..][j].productId == all[j + 1].productId;
      YearsOfLast(lists[1..], last, id);
    }
  }

  // ---------- The index ----------

  datatype OpportunityType = UnvalidatedMarketGap | ExpansionEvidence | General

  datatype Candidate = Candidate(key: MarketKey, opportunityType: OpportunityType, priorityDisplay: nat)

  datatype IndexRow = IndexRow(exporter: int, candidate: Candidate)

  /** How many candidate rows are appended before the appender is flushed. */
  const APPENDER_FLUSH_ROWS := 250_000

  function RowsOf(exporter: int, candidates: seq<Candidate>): seq<IndexRow> {
    seq(|candidates|, k requires 0 <= k < |candidates| => IndexRow(exporter, candidates[k]))
  }

  /** The cohort an exporter has when it is computed from a fresh load. */
  function CohortOf(tables: Tables, w: Window, cohort: (int, Evidence) -> seq<Candidate>, exporter: int): seq<Candidate> {
    cohort(exporter, EvidenceFor(tables, w, exporter))
  }

  /** The rows of a build: each exporter's cohort from a fresh load, one after the other. */
  ghost function IndexOf(tables: Tables, w: Window, cohort: (int, Evidence) -> seq<Candidate>,
                         exporters: seq<int>): seq<IndexRow>
  {
    if exporters == [] then []
    else
      var last := exporters[|exporters| - 1];
      IndexOf(tables, w, cohort, exporters[..|exporters| - 1]) + RowsOf(last, CohortOf(tables, w, cohort, last))
  }

  /** The appender of the index: rows wait until they are flushed to the file. */
  class Appender {
    var persisted: seq<IndexRow>
    var pending: seq<IndexRow>

    constructor ()
      ensures persisted == [] && pending == []
    {
      persisted, pending := [], [];
    }

    /** All rows of the index, flushed or not. */
    ghost function Rows(): seq<IndexRow>
      reads this
    {
      persisted + pending
    }

    method Append(row: IndexRow)
      modifies this`pending
      ensures pending == old(pending) + [row]
    {
      pending := pending + [row];
    }

    method Flush()
      modifies this
      ensures persisted == old(persisted + pending) && pending == []
    {
      persisted, pending := persisted + pending, [];
    }
  }

  /** The counters kept while one cohort is appended. */
  datatype Tally = Tally(
    gapRows: nat, expansionRows: nat, generalRows: nat,
    priorityTieGroups: nat, maxPriorityDisplay: nat, minPriorityDisplay: nat, previousPriority: int)

  const NOTHING_COUNTED := Tally(0, 0, 0, 0, 0, 100, -1)

  function Count(tally: Tally, c: Candidate): Tally {
    Tally(tally.gapRows + if c.opportunityType.UnvalidatedMarketGap? then 1 else 0,
          tally.expansionRows + if c.opportunityType.ExpansionEvidence? then 1 else 0,
          tally.generalRows + if c.opportunityType.General? then 1 else 0,
          tally.priorityTieGroups + if c.priorityDisplay != tally.previousPriority then 1 else 0,
          if c.priorityDisplay > tally.maxPriorityDisplay then c.priorityDisplay else tally.maxPriorityDisplay,
          if c.priorityDisplay < tally.minPriorityDisplay then c.priorityDisplay else tally.minPriorityDisplay,
          c.priorityDisplay)
  }

  function TallyOf(candidates: seq<Candidate>): Tally {
    if candidates == [] then NOTHING_COUNTED
    else Count(TallyOf(candidates[..|candidates| - 1]), candidates[|candidates| - 1])
  }

  /** The priority at `k` differs from the one before it: a tie group starts here. */
  ghost predicate StartsTieGroup(candidates: seq<Candidate>, k: nat)
    requires k < |candidates|
  {
    k == 0 || candidates[k].priorityDisplay != candidates[k - 1].priorityDisplay
  }

  ghost function TieGroupStarts(candidates: seq<Candidate>, n: nat): set<nat>
    requires n <= |candidates|
  {
    set k: nat | k < n && StartsTieGroup(candidates, k)
  }

  /** The places of the rows of one type. */
  ghost function OfType(candidates: seq<Candidate>, opportunityType: OpportunityType, n: nat): set<nat>
    requires n <= |candidates|
  {
    set k: nat | k < n && candidates[k].opportunityType == opportunityType
  }

  lemma OfTypeNext(candidates: seq<Candidate>, opportunityType: OpportunityType, n: nat)
    requires n < |candidates|
    ensures |OfType(candidates, opportunityType, n + 1)|
            == |OfType(candidates, opportunityType, n)| + if candidates[n].opportunityType == opportunityType then 1 else 0
  {
    assert OfType(candidates, opportunityType, n + 1)
        == OfType(candidates, opportunityType, n) + (if candidates[n].opportunityType == opportunityType then {n} else {});
  }

  /** The rows of each type are counted, and no others. */
  lemma {:induction false} TallyTypes(candidates: seq<Candidate>, n: nat)
    requires n <= |candidates|
    ensures var t := TallyOf(candidates[..n]);
            && t.gapRows == |OfType(candidates, UnvalidatedMarketGap, n)|
            && t.expansionRows == |OfType(candidates, ExpansionEvidence, n)|
            && t.generalRows == |OfType(candidates, General, n)|
  {
    if n > 0 {
      TallyTypes(candidates, n - 1);
      TakeNext(candidates, n - 1);
      OfTypeNext(candidates, UnvalidatedMarketGap, n - 1);
      OfTypeNext(candidates, ExpansionEvidence, n - 1);
      OfTypeNext(candidates, General, n - 1);
    }
  }

  /** Every row is of exactly one type, and there are as many tie groups as runs of equal priority. */
  lemma {:induction false} TallyCounts(candidates: seq<Candidate>, n: nat)
    requires n <= |candidates|
    ensures var t := TallyOf(candidates[..n]);
            && t.gapRows + t.expansionRows + t.generalRows == n
            && t.priorityTieGroups == |TieGroupStarts(candidates, n)|
            && t.previousPriority == if n == 0 then -1 else candidates[n - 1].priorityDisplay
  {
    if n > 0 {
      TallyCounts(candidates, n - 1);
      TakeNext(candidates, n - 1);
      assert TieGroupStarts(candidates, n)
          == TieGroupStarts(candidates, n - 1) + (if StartsTieGroup(candidates, n - 1) then {n - 1} else {});
    }
  }

  /** The extremes bound every priority and, unless they are the initial bounds, occur. */
  lemma {:induction false} TallyExtremes(candidates: seq<Candidate>)
    ensures var t := TallyOf(candidates);
            && (forall c :: c in candidates ==> t.minPriorityDisplay <= c.priorityDisplay <= t.maxPriorityDisplay)
            && (t.maxPriorityDisplay == 0 || exists c :: c in candidates && c.priorityDisplay == t.maxPriorityDisplay)
            && (t.minPriorityDisplay == 100 || exists c :: c in candidates && c.priorityDisplay == t.minPriorityDisplay)
  {
    if candidates != [] {
      TallyExtremes(candidates[..|candidates| - 1]);
    }
  }

  /** What is kept of one cohort's counters; an empty cohort has no priorities, and shows 0 for both bounds. */
  datatype ExporterStats = ExporterStats(
    exporter: int, cohortRows: nat, priorityTieGroups: nat, maxPriorityDisplay: nat, minPriorityDisplay: nat,
    gapRows: nat, expansionRows: nat, generalRows: nat)

  function StatsFrom(exporter: int, cohortRows: nat, tally: Tally): ExporterStats {
    ExporterStats(exporter, cohortRows, tally.priorityTieGroups,
                  if cohortRows == 0 then 0 else tally.maxPriorityDisplay,
                  if cohortRows == 0 then 0 else tally.minPriorityDisplay,
                  tally.gapRows, tally.expansionRows, tally.generalRows)
  }

  function StatsOf(exporter: int, candidates: seq<Candidate>): ExporterStats {
    StatsFrom(exporter, |candidates|, TallyOf(candidates))
  }

  /**
    The statistics of a cohort: its rows, those of each type, its tie groups, and bounds of its priorities. For
    priorities of at most 100 the bounds of a cohort with rows occur in it; without rows both are 0.
  */
  lemma StatsMean(exporter: int, candidates: seq<Candidate>)
    requires forall c :: c in candidates ==> c.priorityDisplay <= 100
    ensures var s := StatsOf(exporter, candidates);
            && s.exporter == exporter && s.cohortRows == |candidates|
            && s.gapRows + s.expansionRows + s.generalRows == s.cohortRows
            && s.gapRows == |OfType(candidates, UnvalidatedMarketGap, |candidates|)|
            && s.expansionRows == |OfType(candidates, ExpansionEvidence, |candidates|)|
            && s.generalRows == |OfType(candidates, General, |candidates|)|
            && s.priorityTieGroups == |TieGroupStarts(candidates, |candidates|)|
            && (forall c :: c in candidates ==> s.minPriorityDisplay <= c.priorityDisplay <= s.maxPriorityDisplay)
            && (candidates != [] ==> (exists c :: c in candidates && c.priorityDisplay == s.maxPriorityDisplay)
                                     && (exists c :: c in candidates && c.priorityDisplay == s.minPriorityDisplay))
            && (candidates == [] ==> s.minPriorityDisplay == s.maxPriorityDisplay == 0)
  {
    TallyCounts(candidates, |candidates|);
    TallyTypes(candidates, |candidates|);
    TallyExtremes(candidates);
    TakeAll(candidates);
    assert candidates != [] ==> candidates[0] in candidates;
  }

  /** Appends one row and flushes when enough rows wait; either way the row is in the index. */
  method AppendRow(appender: Appender, rowsSinceFlush: nat, row: IndexRow) returns (waiting: nat)
    requires rowsSinceFlush == |appender.pending| && rowsSinceFlush < APPENDER_FLUSH_ROWS
    modifies appender
    ensures appender.Rows() == old(appender.Rows()) + [row]
    ensures waiting == |appender.pending| && waiting < APPENDER_FLUSH_ROWS
  {
    assert appender.persisted + (appender.pending + [row]) == appender.Rows() + [row];
    appender.Append(row);
    waiting := rowsSinceFlush + 1;
    if waiting >= APPENDER_FLUSH_ROWS {
      appender.Flush();
      waiting := 0;
    }
  }

  lemma RowsOfNext(exporter: int, candidates: seq<Candidate>, n: nat)
    requires n < |candidates|
    ensures RowsOf(exporter, candidates[..n + 1]) == RowsOf(exporter, candidates[..n]) + [IndexRow(exporter, candidates[n])]
  {
  }

  /** Appends one cohort, flushing whenever enough rows wait, and counts what it appends. */
  method AppendCohort(appender: Appender, rowsSinceFlush: nat, exporter: int, candidates: seq<Candidate>)
    returns (waiting: nat, tally: Tally)
    requires rowsSinceFlush == |appender.pending| && rowsSinceFlush < APPENDER_FLUSH_ROWS
    modifies appender
    ensures appender.Rows() == old(appender.Rows()) + RowsOf(exporter, candidates)
    ensures waiting == |appender.pending| && waiting < APPENDER_FLUSH_ROWS
    ensures tally == TallyOf(candidates)
  {
    waiting, tally := rowsSinceFlush, NOTHING_COUNTED;
    for n := 0 to |candidates|
      invariant appender.Rows() == old(appender.Rows()) + RowsOf(exporter, candidates[..n])
      invariant waiting == |appender.pending| && waiting < APPENDER_FLUSH_ROWS
      invariant tally == TallyOf(candidates[..n])
    {
      TakeNext(candidates, n);
      RowsOfNext(exporter, candidates, n);
      waiting := AppendRow(appender, waiting, IndexRow(exporter, candidates[n]));
      tally := Count(tally, candidates[n]);
    }
    TakeAll(candidates);
  }

  /** The reported counts: for each exporter, the size of its cohort from a fresh load. */
  ghost predicate CountsCohorts(tables: Tables, w: Window, cohort: (int, Evidence) -> seq<Candidate>,
                                exporters: seq<int>, counts: map<int, nat>) {
    && (forall e :: e in counts <==> e in exporters)
    && (forall e :: e in exporters ==> counts[e] == |CohortOf(tables, w, cohort, e)|)
  }

  /** The evidence handed over, exporter by exporter, is that of fresh loads. */
  ghost predicate FreshEach(tables: Tables, w: Window, exporters: seq<int>, handedOver: seq<Evidence>) {
    && |handedOver| == |exporters|
    && forall n :: 0 <= n < |exporters| ==> handedOver[n] == EvidenceFor(tables, w, exporters[n])
  }

  /** The statistics, exporter by exporter, are those of the cohorts computed from fresh loads. */
  ghost predicate StatsEach(tables: Tables, w: Window, cohort: (int, Evidence) -> seq<Candidate>, exporters: seq<int>,
                            stats: seq<ExporterStats>) {
    && |stats| == |exporters|
    && forall n :: 0 <= n < |exporters| ==> stats[n] == StatsOf(exporters[n], CohortOf(tables, w, cohort, exporters[n]))
  }

  lemma StatsGrow(tables: Tables, w: Window, cohort: (int, Evidence) -> seq<Candidate>, exporters: seq<int>,
                  exporter: int, stats: seq<ExporterStats>)
    requires StatsEach(tables, w, cohort, exporters, stats)
    ensures StatsEach(tables, w, cohort, exporters + [exporter],
                      stats + [StatsOf(exporter, CohortOf(tables, w, cohort, exporter))])
  {
  }

  /** What the build has produced for a list of exporters: evidence, rows and counts, all of fresh loads. */
  ghost predicate Produced(tables: Tables, w: Window, cohort: (int, Evidence) -> seq<Candidate>, exporters: seq<int>,
                           handedOver: seq<Evidence>, rows: seq<IndexRow>, counts: map<int, nat>, total: nat) {
    && FreshEach(tables, w, exporters, handedOver)
    && rows == IndexOf(tables, w, cohort, exporters)
    && total == |rows|
    && CountsCohorts(tables, w, cohort, exporters, counts)
  }

  lemma OneMoreExporter(tables: Tables, w: Window, cohort: (int, Evidence) -> seq<Candidate>, exporters: seq<int>,
                        exporter: int, handedOver: seq<Evidence>, rows: seq<IndexRow>, counts: map<int, nat>, total: nat)
    requires Produced(tables, w, cohort, exporters, handedOver, rows, counts, total)
    ensures var evidence := EvidenceFor(tables, w, exporter);
            var candidates := cohort(exporter, evidence);
            Produced(tables, w, cohort, exporters + [exporter], handedOver + [evidence],
                     rows + RowsOf(exporter, candidates), counts[exporter := |candidates|], total + |candidates|)
  {
    assert (exporters + [exporter])[..|exporters|] == exporters;
    FreshEachGrows(tables, w, exporters, exporter, handedOver);
    CountsGrow(tables, w, cohort, exporters, exporter, counts);
  }

  lemma FreshEachGrows(tables: Tables, w: Window, exporters: seq<int>, exporter: int, handedOver: seq<Evidence>)
    requires FreshEach(tables, w, exporters, handedOver)
    ensures FreshEach(tables, w, exporters + [exporter], handedOver + [EvidenceFor(tables, w, exporter)])
  {
  }

  lemma CountsGrow(tables: Tables, w: Window, cohort: (int, Evidence) -> seq<Candidate>, exporters: seq<int>,
                   exporter: int, counts: map<int, nat>)
    requires CountsCohorts(tables, w, cohort, exporters, counts)
    ensures CountsCohorts(tables, w, cohort, exporters + [exporter],
                          counts[exporter := |CohortOf(tables, w, cohort, exporter)|])
  {
  }

  /** Appends one cohort, and keeps its statistics. */
  method AppendAndCount(appender: Appender, rowsSinceFlush: nat, exporter: int, candidates: seq<Candidate>)
    returns (waiting: nat, stats: ExporterStats)
    requires rowsSinceFlush == |appender.pending| && rowsSinceFlush < APPENDER_FLUSH_ROWS
    modifies appender
    ensures appender.Rows() == old(appender.Rows()) + RowsOf(exporter, candidates)
    ensures waiting == |appender.pending| && waiting < APPENDER_FLUSH_ROWS
    ensures stats == StatsOf(exporter, candidates)
  {
    var tally;
    waiting, tally := AppendCohort(appender, rowsSinceFlush, exporter, candidates);
    stats := StatsFrom(exporter, |candidates|, tally);
  }

  /** One turn of the build: hand over, compute the cohort, append its rows. */
  method BuildExporter(tables: Tables, w: Window, cohort: (int, Evidence) -> seq<Candidate>, exporter: int,
                       shared: SharedInputs, touchedMarketYears: seq<MarketYear>, touchedProductIds: seq<int>,
                       appender: Appender, rowsSinceFlush: nat)
    returns (newMarketYears: seq<MarketYear>, newProductIds: seq<int>, waiting: nat, stats: ExporterStats,
             ghost evidence: Evidence)
    requires shared.Loaded(tables, w) && shared.Remembered(touchedMarketYears, touchedProductIds)
    requires rowsSinceFlush == |appender.pending| && rowsSinceFlush < APPENDER_FLUSH_ROWS
    modifies shared.cells, shared.products, appender
    ensures shared.Loaded(tables, w) && shared.Remembered(newMarketYears, newProductIds)
    ensures evidence == EvidenceFor(tables, w, exporter)
    ensures appender.Rows() == old(appender.Rows()) + RowsOf(exporter, CohortOf(tables, w, cohort, exporter))
    ensures waiting == |appender.pending| && waiting < APPENDER_FLUSH_ROWS
    ensures stats == StatsOf(exporter, CohortOf(tables, w, cohort, exporter))
  {
    var handed;
    newMarketYears, newProductIds, handed := shared.HandOver(tables, w, exporter, touchedMarketYears, touchedProductIds);
    evidence := handed;
    var candidates := cohort(exporter, handed);
    label Handed:
    waiting, stats := AppendAndCount(appender, rowsSinceFlush, exporter, candidates);
    shared.StillRemembered@Handed(tables, w, newMarketYears, newProductIds);
  }

  /** The loop over the exporters, on a graph that has just been loaded. */
  method BuildExporters(tables: Tables, w: Window, exporters: seq<int>, cohort: (int, Evidence) -> seq<Candidate>,
                        shared: SharedInputs, appender: Appender)
    returns (perExporterRowCount: map<int, nat>, perExporterStats: seq<ExporterStats>, totalRowCount: nat,
             ghost handedOver: seq<Evidence>)
    requires shared.Loaded(tables, w) && shared.Remembered([], []) && appender.persisted == appender.pending == []
    modifies shared.cells, shared.products, appender
    ensures Produced(tables, w, cohort, exporters, handedOver, appender.Rows(), perExporterRowCount, totalRowCount)
    ensures StatsEach(tables, w, cohort, exporters, perExporterStats)
  {
    var rowsSinceFlush := 0;
    var previousTouchedMarketYears: seq<MarketYear> := [];
    var previousTouchedProductIds: seq<int> := [];
    perExporterRowCount, perExporterStats, totalRowCount, handedOver := map[], [], 0, [];
    for n := 0 to |exporters|
      invariant shared.Loaded(tables, w)
      invariant shared.Remembered(previousTouchedMarketYears, previousTouchedProductIds)
      invariant rowsSinceFlush == |appender.pending| && rowsSinceFlush < APPENDER_FLUSH_ROWS
      invariant Produced(tables, w, cohort, exporters[..n], handedOver, appender.Rows(), perExporterRowCount, totalRowCount)
      invariant StatsEach(tables, w, cohort, exporters[..n], perExporterStats)
    {
      var exporter := exporters[n];
      TakeNext(exporters, n);
      OneMoreExporter(tables, w, cohort, exporters[..n], exporter, handedOver, appender.Rows(),
                      perExporterRowCount, totalRowCount);
      StatsGrow(tables, w, cohort, exporters[..n], exporter, perExporterStats);
      var stats;
      ghost var evidence;
      previousTouchedMarketYears, previousTouchedProductIds, rowsSinceFlush, stats, evidence :=
        BuildExporter(tables, w, cohort, exporter, shared, previousTouchedMarketYears, previousTouchedProductIds,
                      appender, rowsSinceFlush);
      handedOver := handedOver + [evidence];
      perExporterRowCount := perExporterRowCount[exporter := stats.cohortRows];
      perExporterStats := perExporterStats + [stats];
      totalRowCount := totalRowCount + stats.cohortRows;
    }
    TakeAll(exporters);
  }

  // ---------- What the build produces, read off the tables ----------

  /** How many rows come before those of the exporter at `n`. */
  ghost function RowsBefore(cohort: (int, Evidence) -> seq<Candidate>, exporters: seq<int>, handedOver: seq<Evidence>,
                            n: nat): nat
    requires n <= |exporters| == |handedOver|
  {
    if n == 0 then 0
    else RowsBefore(cohort, exporters, handedOver, n - 1) + |cohort(exporters[n - 1], handedOver[n - 1])|
  }

  /** The rows of the exporter at `n` stand behind those of the exporters before it, in the order of its cohort. */
  ghost predicate HoldsRowsOf(index: seq<IndexRow>, start: nat, exporter: int, candidates: seq<Candidate>) {
    && start + |candidates| <= |index|
    && forall k :: 0 <= k < |candidates| ==> index[start + k] == IndexRow(exporter, candidates[k])
  }

  /**
    Each exporter's evidence says what the tables say of this exporter, its cohort is computed from that
    evidence, and the index is these cohorts, row by row, with nothing before, between or after them.
  */
  ghost predicate IndexSays(tables: Tables, w: Window, cohort: (int, Evidence) -> seq<Candidate>, exporters: seq<int>,
                            handedOver: seq<Evidence>, index: seq<IndexRow>) {
    && |handedOver| == |exporters|
    && (forall n :: 0 <= n < |exporters| ==> EvidenceSays(tables, w, exporters[n], handedOver[n]))
    && HoldsCohorts(index, cohort, exporters, handedOver)
  }

  ghost predicate HoldsCohorts(index: seq<IndexRow>, cohort: (int, Evidence) -> seq<Candidate>, exporters: seq<int>,
                               handedOver: seq<Evidence>)
    requires |handedOver| == |exporters|
  {
    && |index| == RowsBefore(cohort, exporters, handedOver, |exporters|)
    && forall n :: 0 <= n < |exporters| ==>
         HoldsRowsOf(index, RowsBefore(cohort, exporters, handedOver, n), exporters[n], cohort(exporters[n], handedOver[n]))
  }

  lemma {:induction false} RowsBeforeTake(cohort: (int, Evidence) -> seq<Candidate>, exporters: seq<int>,
                                          handedOver: seq<Evidence>, m: nat, n: nat)
    requires n <= m <= |exporters| == |handedOver|
    ensures RowsBefore(cohort, exporters[..m], handedOver[..m], n) == RowsBefore(cohort, exporters, handedOver, n)
  {
    if n > 0 {
      RowsBeforeTake(cohort, exporters, handedOver, m, n - 1);
    }
  }

  lemma HoldsRowsAfter(index: seq<IndexRow>, more: seq<IndexRow>, start: nat, exporter: int, candidates: seq<Candidate>)
    requires HoldsRowsOf(index, start, exporter, candidates)
    ensures HoldsRowsOf(index + more, start, exporter, candidates)
  {
  }

  lemma {:induction false} EarlierCohortKept(index: seq<IndexRow>, more: seq<IndexRow>,
                                             cohort: (int, Evidence) -> seq<Candidate>,
                          exporters: seq<int>, handedOver: seq<Evidence>, m: nat, n: nat)
    requires |handedOver| == |exporters| && n < m < |exporters|
    requires HoldsCohorts(index, cohort, exporters[..m], handedOver[..m])
    ensures HoldsRowsOf(index + more, RowsBefore(cohort, exporters, handedOver, n), exporters[n],
                        cohort(exporters[n], handedOver[n]))
  {
    RowsBeforeTake(cohort, exporters, handedOver, m, n);
    assert exporters[..m][n] == exporters[n] && handedOver[..m][n] == handedOver[n];
    HoldsRowsAfter(index, more, RowsBefore(cohort, exporters, handedOver, n), exporters[n],
                   cohort(exporters[n], handedOver[n]));
  }

  lemma NewCohortHeld(index: seq<IndexRow>, exporter: int, candidates: seq<Candidate>)
    ensures HoldsRowsOf(index + RowsOf(exporter, candidates), |index|, exporter, candidates)
    ensures |RowsOf(exporter, candidates)| == |candidates|
  {
  }

  lemma {:induction false} OneCohortMore(index: seq<IndexRow>, cohort: (int, Evidence) -> seq<Candidate>,
                                         exporters: seq<int>,
                                         handedOver: seq<Evidence>, m: nat)
    requires |handedOver| == |exporters| == m + 1
    requires HoldsCohorts(index, cohort, exporters[..m], handedOver[..m])
    ensures HoldsCohorts(index + RowsOf(exporters[m], cohort(exporters[m], handedOver[m])), cohort, exporters, handedOver)
  {
    var rows := RowsOf(exporters[m], cohort(exporters[m], handedOver[m]));
    RowsBeforeTake(cohort, exporters, handedOver, m, m);
    forall n | 0 <= n < |exporters|
      ensures HoldsRowsOf(index + rows, RowsBefore(cohort, exporters, handedOver, n), exporters[n],
                          cohort(exporters[n], handedOver[n]))
    {
      if n < m {
        EarlierCohortKept(index, rows, cohort, exporters, handedOver, m, n);
      } else {
        assert n == m && RowsBefore(cohort, exporters, handedOver, n) == |index|;
        NewCohortHeld(index, exporters[m], cohort(exporters[m], handedOver[m]));
      }
    }
    NewCohortHeld(index, exporters[m], cohort(exporters[m], handedOver[m]));
  }

  lemma {:induction false} IndexHoldsCohorts(tables: Tables, w: Window, cohort: (int, Evidence) -> seq<Candidate>,
                                             exporters: seq<int>, handedOver: seq<Evidence>)
    requires FreshEach(tables, w, exporters, handedOver)
    ensures HoldsCohorts(IndexOf(tables, w, cohort, exporters), cohort, exporters, handedOver)
  {
    if exporters != [] {
      var m := |exporters| - 1;
      IndexHoldsCohorts(tables, w, cohort, exporters[..m], handedOver[..m]);
      OneCohortMore(IndexOf(tables, w, cohort, exporters[..m]), cohort, exporters, handedOver, m);
    }
  }

  /** The evidence and the rows of an index of fresh loads, place by place. */
  lemma {:induction false} IndexMeans(tables: Tables, w: Window, cohort: (int, Evidence) -> seq<Candidate>,
                                      exporters: seq<int>, handedOver: seq<Evidence>)
    requires FreshEach(tables, w, exporters, handedOver)
    ensures IndexSays(tables, w, cohort, exporters, handedOver, IndexOf(tables, w, cohort, exporters))
  {
    IndexHoldsCohorts(tables, w, cohort, exporters, handedOver);
    forall n | 0 <= n < |exporters|
      ensures EvidenceSays(tables, w, exporters[n], handedOver[n])
    {
      EvidenceMeans(tables, w, exporters[n]);
    }
  }

  /**
    The build. Whatever the list and order of exporters, the evidence handed over for each of them is
    that of a fresh load, and the index holds exactly the cohorts computed from fresh loads.
  */
  method PopulateIndex(tables: Tables, w: Window, exporters: seq<int>, cohort: (int, Evidence) -> seq<Candidate>)
    returns (index: seq<IndexRow>, perExporterRowCount: map<int, nat>, perExporterStats: seq<ExporterStats>,
             totalRowCount: nat, ghost handedOver: seq<Evidence>)
    ensures Produced(tables, w, cohort, exporters, handedOver, index, perExporterRowCount, totalRowCount)
    ensures StatsEach(tables, w, cohort, exporters, perExporterStats)
    ensures IndexSays(tables, w, cohort, exporters, handedOver, index)
  {
    var shared := new SharedInputs(tables, w);
    var appender := new Appender();
    perExporterRowCount, perExporterStats, totalRowCount, handedOver :=
      BuildExporters(tables, w, exporters, cohort, shared, appender);
    appender.Flush();
    index := appender.persisted;
    IndexMeans(tables, w, cohort, exporters, handedOver);
  }
}
