/**
  The keys of the market months, scripts/release/recent-trade-momentum-package.ts: which places a grid
  has, and when no two of them share a key.
*/
module GridKeys {
  import opened Common
  import opened Momentum
  import opened MarketMonths

  ghost predicate NoBars(codes: seq<string>) {
    forall k :: 0 <= k < |codes| ==> NoBar(codes[k])
  }

  ghost predicate NoBarsInGrid(grid: Grid) {
    NoBars(grid.reporters) && NoBars(grid.products)
  }

  ghost predicate Plain(places: seq<Place>) {
    forall k :: 0 <= k < |places| ==> PlainPlace(places[k])
  }

  function PlaceKeys(places: seq<Place>): seq<string> {
    seq(|places|, k requires 0 <= k < |places| => PlaceKey(places[k]))
  }

  function Keys(marketMonths: seq<MarketMonth>): seq<string> {
    seq(|marketMonths|, k requires 0 <= k < |marketMonths| => PlaceKey(marketMonths[k].place))
  }

  /** The source's check, by the size of the set of keys. */
  predicate AreUnique(marketMonths: seq<MarketMonth>) {
    |Elements(Keys(marketMonths))| == |Keys(marketMonths)|
  }

  // ---------- Keys and places ----------

  lemma SameKeySamePlace(p: Place, q: Place)
    requires PlainPlace(p) && PlainPlace(q) && PlaceKey(p) == PlaceKey(q)
    ensures p == q
  {
    MarketKeyIsInjective(p.referenceMonth, p.reporterIso2, p.hs12Code, q.referenceMonth, q.reporterIso2, q.hs12Code);
  }

  /** Keys are as good as places. */
  lemma KeyInIff(places: seq<Place>, p: Place)
    requires Plain(places) && PlainPlace(p)
    ensures PlaceKey(p) in PlaceKeys(places) <==> p in places
  {
    var keys := PlaceKeys(places);
    if PlaceKey(p) in keys {
      var k :| 0 <= k < |keys| && keys[k] == PlaceKey(p);
      SameKeySamePlace(places[k], p);
    }
    if p in places {
      var k :| 0 <= k < |places| && places[k] == p;
      assert keys[k] == PlaceKey(p);
    }
  }

  lemma KeysDistinctIff(places: seq<Place>)
    requires Plain(places)
    ensures Distinct(PlaceKeys(places)) <==> Distinct(places)
  {
    var keys := PlaceKeys(places);
    forall i, j | 0 <= i < |places| && 0 <= j < |places|
      ensures keys[i] == keys[j] <==> places[i] == places[j]
    {
      if keys[i] == keys[j] {
        SameKeySamePlace(places[i], places[j]);
      }
    }
    if Distinct(keys) {
      forall i, j | 0 <= i < j < |places|
        ensures places[i] != places[j]
      {
        assert keys[i] != keys[j];
      }
    }
  }

  // ---------- The places of a grid ----------

  lemma InConcat<T>(a: seq<T>, b: seq<T>, x: T)
    ensures x in a + b <==> x in a || x in b
  {
  }

  lemma InSnoc<T>(xs: seq<T>, x: T)
    requires xs != []
    ensures x in xs <==> x in xs[..|xs| - 1] || x == xs[|xs| - 1]
  {
  }

  lemma InMonthPlaces(reporter: string, product: string, months: seq<string>, p: Place)
    ensures p in MonthPlaces(reporter, product, months)
            <==> p.reporterIso2 == reporter && p.hs12Code == product && p.referenceMonth in months
  {
    var places := MonthPlaces(reporter, product, months);
    if p.reporterIso2 == reporter && p.hs12Code == product && p.referenceMonth in months {
      var k :| 0 <= k < |months| && months[k] == p.referenceMonth;
      assert places[k] == p;
    }
  }

  lemma {:induction false} InProductPlaces(reporter: string, products: seq<string>, months: seq<string>, p: Place)
    ensures p in ProductPlaces(reporter, products, months)
            <==> p.reporterIso2 == reporter && p.hs12Code in products && p.referenceMonth in months
  {
    if products != [] {
      var init, last := products[..|products| - 1], products[|products| - 1];
      InProductPlaces(reporter, init, months, p);
      InMonthPlaces(reporter, last, months, p);
      InConcat(ProductPlaces(reporter, init, months), MonthPlaces(reporter, last, months), p);
      InSnoc(products, p.hs12Code);
    }
  }

  /** The grid has a place for each of its reporters, products and months, and no other. */
  lemma {:induction false} InGridPlaces(reporters: seq<string>, products: seq<string>, months: seq<string>, p: Place)
    ensures p in GridPlaces(reporters, products, months)
            <==> p.reporterIso2 in reporters && p.hs12Code in products && p.referenceMonth in months
  {
    if reporters != [] {
      var init, last := reporters[..|reporters| - 1], reporters[|reporters| - 1];
      InGridPlaces(init, products, months, p);
      InProductPlaces(last, products, months, p);
      InConcat(GridPlaces(init, products, months), ProductPlaces(last, products, months), p);
      InSnoc(reporters, p.reporterIso2);
    }
  }

  lemma GridIsPlain(grid: Grid)
    requires NoBarsInGrid(grid)
    ensures Plain(PlacesOf(grid))
  {
    var places := PlacesOf(grid);
    forall k | 0 <= k < |places|
      ensures PlainPlace(places[k])
    {
      assert places[k] in places;
      InGridPlaces(grid.reporters, grid.products, grid.months, places[k]);
    }
  }

  // ---------- When the places are distinct ----------

  lemma MonthPlacesDistinctIff(reporter: string, product: string, months: seq<string>)
    ensures Distinct(MonthPlaces(reporter, product, months)) <==> Distinct(months)
  {
    var places := MonthPlaces(reporter, product, months);
    if Distinct(places) {
      forall i, j | 0 <= i < j < |months|
        ensures months[i] != months[j]
      {
        assert places[i] != places[j];
      }
    }
  }

  lemma {:induction false} ProductPlacesDistinctIff(reporter: string, products: seq<string>, months: seq<string>)
    requires months != []
    ensures Distinct(ProductPlaces(reporter, products, months))
            <==> Distinct(products) && (products == [] || Distinct(months))
  {
    if products != [] {
      var init, last := products[..|products| - 1], products[|products| - 1];
      ProductPlacesDistinctIff(reporter, init, months);
      MonthPlacesDistinctIff(reporter, last, months);
      DistinctConcat(ProductPlaces(reporter, init, months), MonthPlaces(reporter, last, months));
      ProductBlockApartIff(reporter, init, last, months);
      assert products == init + [last];
      DistinctSnoc(init, last);
    }
  }

  /** A product's block of places is apart from the blocks before it exactly when the product is new. */
  lemma {:induction false} ProductBlockApartIff(reporter: string, init: seq<string>, last: string, months: seq<string>)
    requires months != []
    ensures var before := ProductPlaces(reporter, init, months);
            (forall k :: 0 <= k < |before| ==> before[k] !in MonthPlaces(reporter, last, months)) <==> last !in init
  {
    var before := ProductPlaces(reporter, init, months);
    forall k | 0 <= k < |before|
      ensures before[k] in MonthPlaces(reporter, last, months) ==> last in init
    {
      assert before[k] in before;
      InProductPlaces(reporter, init, months, before[k]);
      InMonthPlaces(reporter, last, months, before[k]);
    }
    var p := Place(months[0], reporter, last);
    InProductPlaces(reporter, init, months, p);
    InMonthPlaces(reporter, last, months, p);
  }

  lemma {:induction false} GridPlacesDistinctIff(reporters: seq<string>, products: seq<string>, months: seq<string>)
    requires products != [] && months != []
    ensures Distinct(GridPlaces(reporters, products, months))
            <==> Distinct(reporters) && (reporters == [] || (Distinct(products) && Distinct(months)))
  {
    if reporters != [] {
      var init, last := reporters[..|reporters| - 1], reporters[|reporters| - 1];
      GridPlacesDistinctIff(init, products, months);
      ProductPlacesDistinctIff(last, products, months);
      DistinctConcat(GridPlaces(init, products, months), ProductPlaces(last, products, months));
      ReporterBlockApartIff(init, last, products, months);
      assert reporters == init + [last];
      DistinctSnoc(init, last);
    }
  }

  /** A reporter's block of places is apart from the blocks before it exactly when the reporter is new. */
  lemma {:induction false} ReporterBlockApartIff(init: seq<string>, last: string, products: seq<string>, months: seq<string>)
    requires products != [] && months != []
    ensures var before := GridPlaces(init, products, months);
            (forall k :: 0 <= k < |before| ==> before[k] !in ProductPlaces(last, products, months)) <==> last !in init
  {
    var before := GridPlaces(init, products, months);
    forall k | 0 <= k < |before|
      ensures before[k] in ProductPlaces(last, products, months) ==> last in init
    {
      assert before[k] in before;
      InGridPlaces(init, products, months, before[k]);
      InProductPlaces(last, products, months, before[k]);
    }
    var p := Place(months[0], last, products[0]);
    InGridPlaces(init, products, months, p);
    InProductPlaces(last, products, months, p);
  }

  lemma NoPlaces(grid: Grid)
    requires grid.products == [] || grid.months == []
    ensures PlacesOf(grid) == []
  {
    var places := PlacesOf(grid);
    if places != [] {
      assert places[0] in places;
      InGridPlaces(grid.reporters, grid.products, grid.months, places[0]);
    }
  }

  lemma KeysOfGrid(ref: Reference, grid: Grid, buckets: map<string, Bucket>)
    ensures Keys(MarketMonthsOf(ref, grid, buckets)) == PlaceKeys(PlacesOf(grid))
  {
  }

  /**
    The uniqueness check passes exactly when the grid is empty or no reporter, product or month is listed
    twice: the joined keys hide nothing, as long as no reporter or product code contains a bar.
  */
  lemma UniqueIffListsAreDistinct(ref: Reference, grid: Grid, rows: seq<StagedRow>)
    requires NoBarsInGrid(grid)
    ensures AreUnique(OutcomeOf(ref, grid, rows).marketMonths)
            <==> grid.reporters == [] || grid.products == [] || grid.months == []
                 || (Distinct(grid.reporters) && Distinct(grid.products) && Distinct(grid.months))
  {
    KeysOfGrid(ref, grid, AggregateRows(ref, rows));
    SetSizeIff(PlaceKeys(PlacesOf(grid)));
    GridIsPlain(grid);
    KeysDistinctIff(PlacesOf(grid));
    if grid.products == [] || grid.months == [] {
      NoPlaces(grid);
    } else {
      GridPlacesDistinctIff(grid.reporters, grid.products, grid.months);
    }
  }
}
