/**
  Momentum rows, scripts/release/recent-trade-momentum-package.ts: for each reporter and product the
  market months are looked up again by their keys and handed to the momentum computation.
*/
module MomentumRows {
  import opened Common
  import opened Momentum
  import opened MarketMonths
  import opened GridKeys

  /** What the momentum computation sees of a market month. */
  datatype Observation = Observation(
    referenceMonth: string, observationState: ObservationState, valueEur: Option<int>, updateState: UpdateState,
    mappingChain: Chain)

  datatype MomentumRow<T> = MomentumRow(reporterIso2: string, hs12Code: string, outcome: T)

  datatype Result<T> = Ok(rows: seq<MomentumRow<T>>) | NoEligibleMonths | Incomplete

  function Observe(m: MarketMonth): Observation {
    Observation(m.place.referenceMonth, m.observationState, m.valueEur, m.updateState, m.mappingChain)
  }

  function ByPlaceKey(marketMonths: seq<MarketMonth>): (byKey: map<string, MarketMonth>)
    ensures forall m :: m in marketMonths ==> PlaceKey(m.place) in byKey
    ensures forall key :: key in byKey ==> byKey[key] in marketMonths && PlaceKey(byKey[key].place) == key
  {
    if marketMonths == [] then map[]
    else
      var last := marketMonths[|marketMonths| - 1];
      ByPlaceKey(marketMonths[..|marketMonths| - 1])[PlaceKey(last.place) := last]
  }

  function Mapped<A, B>(xs: seq<A>, f: A -> B): seq<B> {
    seq(|xs|, k requires 0 <= k < |xs| => f(xs[k]))
  }

  lemma MappedNext<A, B>(xs: seq<A>, f: A -> B, n: nat)
    requires n < |xs|
    ensures Mapped(xs[..n + 1], f) == Mapped(xs[..n], f) + [f(xs[n])]
  {
  }

  /** A month of one reporter and product, read off the buckets. */
  ghost function InMonth(ref: Reference, grid: Grid, buckets: map<string, Bucket>, reporter: string, product: string)
    : string -> Observation
  {
    month => Observe(ProjectBucket(buckets, Supported(ref, product, grid.editions), Place(month, reporter, product)))
  }

  ghost function History(ref: Reference, grid: Grid, buckets: map<string, Bucket>, reporter: string, product: string)
    : seq<Observation>
  {
    Mapped(grid.months, InMonth(ref, grid, buckets, reporter, product))
  }

  /** The market month found under a key is at one of the places, and has that key. */
  lemma FoundIsAtPlace(ref: Reference, editions: seq<nat>, buckets: map<string, Bucket>, places: seq<Place>, place: Place)
    requires place in places
    ensures var byKey := ByPlaceKey(RowsAt(ref, buckets, editions, places));
            && PlaceKey(place) in byKey
            && exists k :: 0 <= k < |places| && PlaceKey(places[k]) == PlaceKey(place)
                           && byKey[PlaceKey(place)]
                              == ProjectBucket(buckets, Supported(ref, places[k].hs12Code, editions), places[k])
  {
    var marketMonths := RowsAt(ref, buckets, editions, places);
    var at :| 0 <= at < |places| && places[at] == place;
    assert marketMonths[at] in marketMonths;
    var found := ByPlaceKey(marketMonths)[PlaceKey(place)];
    var k :| 0 <= k < |marketMonths| && marketMonths[k] == found;
    assert PlaceKey(places[k]) == PlaceKey(place);
  }

  /** Under the key of the place the market month of the place is found. */
  ghost predicate FindsPlace(ref: Reference, grid: Grid, buckets: map<string, Bucket>, byKey: map<string, MarketMonth>,
                             place: Place)
  {
    && PlaceKey(place) in byKey
    && byKey[PlaceKey(place)] == ProjectBucket(buckets, Supported(ref, place.hs12Code, grid.editions), place)
  }

  /** Every place of the grid is found under its key, as the market month of that very place. */
  lemma LookUpFindsPlace(ref: Reference, grid: Grid, buckets: map<string, Bucket>, place: Place)
    requires NoBarsInGrid(grid) && place in PlacesOf(grid)
    ensures FindsPlace(ref, grid, buckets, ByPlaceKey(MarketMonthsOf(ref, grid, buckets)), place)
  {
    var places := PlacesOf(grid);
    FoundIsAtPlace(ref, grid.editions, buckets, places, place);
    var k :| 0 <= k < |places| && PlaceKey(places[k]) == PlaceKey(place)
             && ByPlaceKey(MarketMonthsOf(ref, grid, buckets))[PlaceKey(place)]
                == ProjectBucket(buckets, Supported(ref, places[k].hs12Code, grid.editions), places[k]);
    GridIsPlain(grid);
    KeyAtPlace(places, k, place);
  }

  lemma KeyAtPlace(places: seq<Place>, k: nat, place: Place)
    requires Plain(places) && place in places && k < |places| && PlaceKey(places[k]) == PlaceKey(place)
    ensures places[k] == place
  {
    var at :| 0 <= at < |places| && places[at] == place;
    SameKeySamePlace(places[k], places[at]);
  }

  /** The row of one product. */
  ghost function OfProduct<T>(ref: Reference, grid: Grid, buckets: map<string, Bucket>,
                              compute: (string, string, seq<Observation>) -> T,
                              reporter: string): string -> MomentumRow<T> {
    product => MomentumRow(reporter, product, compute(reporter, product, History(ref, grid, buckets, reporter, product)))
  }

  /** One row for each reporter and product, computed from its history. */
  ghost function RowsOf<T>(ref: Reference, grid: Grid, buckets: map<string, Bucket>,
                           compute: (string, string, seq<Observation>) -> T,
                           reporters: seq<string>): seq<MomentumRow<T>> {
    if reporters == [] then []
    else
      RowsOf(ref, grid, buckets, compute, reporters[..|reporters| - 1])
      + Mapped(grid.products, OfProduct(ref, grid, buckets, compute, reporters[|reporters| - 1]))
  }

  /** Under the keys of these months the market months are found that `inMonth` says. */
  ghost predicate Finds(byKey: map<string, MarketMonth>, reporter: string, product: string, months: seq<string>,
                        inMonth: string -> Observation) {
    forall month :: month in months ==>
      MarketKey(month, reporter, product) in byKey && Observe(byKey[MarketKey(month, reporter, product)]) == inMonth(month)
  }

  ghost predicate FindsAll(ref: Reference, grid: Grid, buckets: map<string, Bucket>, byKey: map<string, MarketMonth>) {
    forall reporter, product :: reporter in grid.reporters && product in grid.products ==>
      Finds(byKey, reporter, product, grid.months, InMonth(ref, grid, buckets, reporter, product))
  }

  lemma MonthsAreFound(ref: Reference, grid: Grid, buckets: map<string, Bucket>, byKey: map<string, MarketMonth>,
                       reporter: string, product: string)
    requires forall place :: place in PlacesOf(grid) ==> FindsPlace(ref, grid, buckets, byKey, place)
    requires reporter in grid.reporters && product in grid.products
    ensures Finds(byKey, reporter, product, grid.months, InMonth(ref, grid, buckets, reporter, product))
  {
    forall month | month in grid.months
      ensures var key := MarketKey(month, reporter, product);
              key in byKey && Observe(byKey[key]) == InMonth(ref, grid, buckets, reporter, product)(month)
    {
      var place := Place(month, reporter, product);
      InGridPlaces(grid.reporters, grid.products, grid.months, place);
      assert FindsPlace(ref, grid, buckets, byKey, place);
    }
  }

  lemma AllMonthsAreFound(ref: Reference, grid: Grid, buckets: map<string, Bucket>, byKey: map<string, MarketMonth>)
    requires forall place :: place in PlacesOf(grid) ==> FindsPlace(ref, grid, buckets, byKey, place)
    ensures FindsAll(ref, grid, buckets, byKey)
  {
    forall reporter, product | reporter in grid.reporters && product in grid.products
      ensures Finds(byKey, reporter, product, grid.months, InMonth(ref, grid, buckets, reporter, product))
    {
      MonthsAreFound(ref, grid, buckets, byKey, reporter, product);
    }
  }

  /** The market months of the aggregation are complete. */
  lemma AggregationIsComplete(ref: Reference, grid: Grid, buckets: map<string, Bucket>)
    requires NoBarsInGrid(grid)
    ensures FindsAll(ref, grid, buckets, ByPlaceKey(MarketMonthsOf(ref, grid, buckets)))
  {
    forall place | place in PlacesOf(grid)
      ensures FindsPlace(ref, grid, buckets, ByPlaceKey(MarketMonthsOf(ref, grid, buckets)), place)
    {
      LookUpFindsPlace(ref, grid, buckets, place);
    }
    AllMonthsAreFound(ref, grid, buckets, ByPlaceKey(MarketMonthsOf(ref, grid, buckets)));
  }

  /** The months of one reporter and product, each looked up by its key. */
  method LookUpMonths(byKey: map<string, MarketMonth>, reporter: string, product: string, months: seq<string>,
                      ghost inMonth: string -> Observation)
    returns (observations: Option<seq<Observation>>)
    requires Finds(byKey, reporter, product, months, inMonth)
    ensures observations == Some(Mapped(months, inMonth))
  {
    var found: seq<Observation> := [];
    for k := 0 to |months|
      invariant found == Mapped(months[..k], inMonth)
    {
      MappedNext(months, inMonth, k);
      var key := MarketKey(months[k], reporter, product);
      if key !in byKey {
        return None;
      }
      found := found + [Observe(byKey[key])];
    }
    TakeAll(months);
    return Some(found);
  }

  method BuildReporterRows<T>(ref: Reference, grid: Grid, ghost buckets: map<string, Bucket>,
                              byKey: map<string, MarketMonth>,
                              compute: (string, string, seq<Observation>) -> T, reporter: string)
    returns (momentumRows: Option<seq<MomentumRow<T>>>)
    requires reporter in grid.reporters && FindsAll(ref, grid, buckets, byKey)
    ensures momentumRows == Some(Mapped(grid.products, OfProduct(ref, grid, buckets, compute, reporter)))
  {
    var built: seq<MomentumRow<T>> := [];
    ghost var ofProduct := OfProduct(ref, grid, buckets, compute, reporter);
    for j := 0 to |grid.products|
      invariant built == Mapped(grid.products[..j], ofProduct)
    {
      MappedNext(grid.products, ofProduct, j);
      var product := grid.products[j];
      var observations := LookUpMonths(byKey, reporter, product, grid.months,
                                       InMonth(ref, grid, buckets, reporter, product));
      if observations.None? {
        return None;
      }
      assert observations.value == History(ref, grid, buckets, reporter, product);
      assert ofProduct(product) == MomentumRow(reporter, product, compute(reporter, product, observations.value));
      built := built + [MomentumRow(reporter, product, compute(reporter, product, observations.value))];
    }
    TakeAll(grid.products);
    return Some(built);
  }

  /**
    Given the market months of the aggregation the error "incomplete" is never raised: there is one row for
    each reporter and product, computed from the months of that reporter and product, in order.
  */
  method BuildMomentumRows<T>(ref: Reference, grid: Grid, ghost buckets: map<string, Bucket>, marketMonths: seq<MarketMonth>,
                              compute: (string, string, seq<Observation>) -> T)
    returns (result: Result<T>)
    requires NoBarsInGrid(grid) && marketMonths == MarketMonthsOf(ref, grid, buckets)
    ensures result == if grid.months == [] then NoEligibleMonths else Ok(RowsOf(ref, grid, buckets, compute, grid.reporters))
  {
    if grid.months == [] {
      return NoEligibleMonths;
    }
    AggregationIsComplete(ref, grid, buckets);
    result := BuildAllRows(ref, grid, buckets, ByPlaceKey(marketMonths), compute);
  }

  method BuildAllRows<T>(ref: Reference, grid: Grid, ghost buckets: map<string, Bucket>, byKey: map<string, MarketMonth>,
                         compute: (string, string, seq<Observation>) -> T)
    returns (result: Result<T>)
    requires FindsAll(ref, grid, buckets, byKey)
    ensures result == Ok(RowsOf(ref, grid, buckets, compute, grid.reporters))
  {
    var built: seq<MomentumRow<T>> := [];
    for i := 0 to |grid.reporters|
      invariant built == RowsOf(ref, grid, buckets, compute, grid.reporters[..i])
    {
      TakeNext(grid.reporters, i);
      var more := BuildReporterRows(ref, grid, buckets, byKey, compute, grid.reporters[i]);
      if more.None? {
        return Incomplete;
      }
      built := built + more.value;
    }
    TakeAll(grid.reporters);
    return Ok(built);
  }
}
