/**
  Market months, scripts/release/recent-trade-momentum-package.ts: the buckets laid out on a grid of
  reporters, products and months, the totals beside them, and when those totals reconcile.
*/
module MarketMonths {
  import opened Common
  import opened Momentum

  datatype ObservationState = UnsupportedProductMapping | NotObserved | RecordedPositive | RecordedZero

  datatype Place = Place(referenceMonth: string, reporterIso2: string, hs12Code: string)

  datatype MarketMonth = MarketMonth(
    place: Place, valueEur: Option<int>, contributingPartnerCount: nat, contributingCn8Count: nat,
    observationState: ObservationState, updateState: UpdateState, mappingChain: Chain)

  datatype Totals = Totals(sourceIdentified: int, excludedSpecial: int, worldTotalExcluded: int)

  datatype Outcome = Outcome(marketMonths: seq<MarketMonth>, totals: Totals, aggregateIdentified: int)

  /** What the rows are laid out on. `editions` are the nomenclature editions the months fall into. */
  datatype Grid = Grid(reporters: seq<string>, products: seq<string>, months: seq<string>, editions: seq<nat>)

  // ---------- The rows, once ----------

  function AggregateRows(ref: Reference, rows: seq<StagedRow>): map<string, Bucket> {
    if rows == [] then map[] else AddRow(ref, AggregateRows(ref, rows[..|rows| - 1]), rows[|rows| - 1])
  }

  lemma {:induction false} AggregateRowsAreBuckets(ref: Reference, rows: seq<StagedRow>)
    ensures BucketsAre(ref, rows, AggregateRows(ref, rows))
  {
    if rows != [] {
      var init, last := rows[..|rows| - 1], rows[|rows| - 1];
      AggregateRowsAreBuckets(ref, init);
      BucketsGrow(ref, init, AggregateRows(ref, init), last);
      assert rows == init + [last];
    }
  }

  /** Rows that are neither aggregated nor special: unmapped, or with an unknown reporter or partner. */
  predicate Dropped(r: StagedRow) {
    !Aggregated(r) && r.row.sourceSpecialCode == None_ && r.partnerKind != Some(ConfidentialPartner)
  }

  predicate IsWorldTotal(r: StagedRow) {
    !Aggregated(r) && r.row.sourceSpecialCode == WorldTotal
  }

  predicate IsExcludedSpecial(r: StagedRow) {
    !Aggregated(r) && r.row.sourceSpecialCode != WorldTotal
    && (r.row.sourceSpecialCode != None_ || r.partnerKind == Some(ConfidentialPartner))
  }

  ghost function TotalsOf(rows: seq<StagedRow>): Totals {
    Totals(SumWhere(rows, Aggregated), SumWhere(rows, IsExcludedSpecial), SumWhere(rows, IsWorldTotal))
  }

  lemma {:induction false} SumWhereGrows(rows: seq<StagedRow>, r: StagedRow, where: StagedRow -> bool)
    ensures SumWhere(rows + [r], where) == SumWhere(rows, where) + if where(r) then r.row.valueEur else 0
  {
    assert (rows + [r])[..|rows|] == rows;
  }

  /** Every row is in exactly one of four places: aggregated, a world total, excluded as special, or dropped. */
  lemma {:induction false} EveryRowIsAccountedFor(rows: seq<StagedRow>)
    ensures var totals := TotalsOf(rows);
            SumWhere(rows, All)
            == totals.sourceIdentified + totals.worldTotalExcluded + totals.excludedSpecial + SumWhere(rows, Dropped)
  {
    if rows != [] {
      EveryRowIsAccountedFor(rows[..|rows| - 1]);
    }
  }

  // ---------- The grid ----------

  predicate Supported(ref: Reference, hs12Code: string, editions: seq<nat>) {
    forall year | year in editions :: Find(ref.productExactReviewed, (year, hs12Code)) == Some(true)
  }

  method EvaluateAcrossEditions(ref: Reference, hs12Code: string, editions: seq<nat>) returns (supported: bool)
    ensures supported == Supported(ref, hs12Code, editions)
  {
    supported := true;
    for n := 0 to |editions|
      invariant supported == Supported(ref, hs12Code, editions[..n])
    {
      TakeNext(editions, n);
      if Find(ref.productExactReviewed, (editions[n], hs12Code)) != Some(true) {
        supported := false;
      }
    }
    TakeAll(editions);
  }

  function PlaceKey(place: Place): string {
    MarketKey(place.referenceMonth, place.reporterIso2, place.hs12Code)
  }

  function ProjectBucket(buckets: map<string, Bucket>, supported: bool, place: Place): MarketMonth {
    var bucket := Find(buckets, PlaceKey(place));
    MarketMonth(
      place,
      if bucket.Some? then Some(bucket.value.value) else None,
      if bucket.Some? then |bucket.value.partners| else 0,
      if bucket.Some? then |bucket.value.cn8Codes| else 0,
      if !supported then UnsupportedProductMapping
      else if bucket.None? then NotObserved
      else if bucket.value.value > 0 then RecordedPositive
      else RecordedZero,
      if bucket.Some? && Preliminary in bucket.value.updateStates then Preliminary else FinalBySourceSchedule,
      if bucket.Some? && MultiStepExact in bucket.value.chains then MultiStepExact else DirectExact)
  }

  function MonthPlaces(reporter: string, product: string, months: seq<string>): seq<Place> {
    seq(|months|, k requires 0 <= k < |months| => Place(months[k], reporter, product))
  }

  function ProductPlaces(reporter: string, products: seq<string>, months: seq<string>): seq<Place> {
    if products == [] then []
    else
      ProductPlaces(reporter, products[..|products| - 1], months)
      + MonthPlaces(reporter, products[|products| - 1], months)
  }

  function GridPlaces(reporters: seq<string>, products: seq<string>, months: seq<string>): seq<Place> {
    if reporters == [] then []
    else
      GridPlaces(reporters[..|reporters| - 1], products, months)
      + ProductPlaces(reporters[|reporters| - 1], products, months)
  }

  function RowsAt(ref: Reference, buckets: map<string, Bucket>, editions: seq<nat>, places: seq<Place>): seq<MarketMonth> {
    seq(|places|, k requires 0 <= k < |places| =>
      ProjectBucket(buckets, Supported(ref, places[k].hs12Code, editions), places[k]))
  }

  lemma RowsAtConcat(ref: Reference, buckets: map<string, Bucket>, editions: seq<nat>, a: seq<Place>, b: seq<Place>)
    ensures RowsAt(ref, buckets, editions, a + b) == RowsAt(ref, buckets, editions, a) + RowsAt(ref, buckets, editions, b)
  {
  }

  function SumMonths(marketMonths: seq<MarketMonth>): int {
    if marketMonths == [] then 0
    else
      var last := marketMonths[|marketMonths| - 1];
      SumMonths(marketMonths[..|marketMonths| - 1]) + if last.valueEur.Some? then last.valueEur.value else 0
  }

  function PlacesOf(grid: Grid): seq<Place> {
    GridPlaces(grid.reporters, grid.products, grid.months)
  }

  /** The buckets, projected onto the places of the grid. */
  function MarketMonthsOf(ref: Reference, grid: Grid, buckets: map<string, Bucket>): seq<MarketMonth> {
    RowsAt(ref, buckets, grid.editions, PlacesOf(grid))
  }

  /** The outcome, without a loop. */
  ghost function OutcomeOf(ref: Reference, grid: Grid, rows: seq<StagedRow>): Outcome {
    var marketMonths := MarketMonthsOf(ref, grid, AggregateRows(ref, rows));
    Outcome(marketMonths, TotalsOf(rows), SumMonths(marketMonths))
  }

  method FoldRows(ref: Reference, rows: seq<StagedRow>) returns (buckets: map<string, Bucket>, totals: Totals)
    ensures buckets == AggregateRows(ref, rows) && totals == TotalsOf(rows)
  {
    buckets := map[];
    var sourceIdentified, excludedSpecial, worldTotalExcluded := 0, 0, 0;
    for n := 0 to |rows|
      invariant buckets == AggregateRows(ref, rows[..n])
      invariant Totals(sourceIdentified, excludedSpecial, worldTotalExcluded) == TotalsOf(rows[..n])
    {
      TakeNext(rows, n);
      var row := rows[n];
      SumWhereGrows(rows[..n], row, Aggregated);
      SumWhereGrows(rows[..n], row, IsExcludedSpecial);
      SumWhereGrows(rows[..n], row, IsWorldTotal);
      if row.eligible && row.reporterIso2.Some? && row.hs12Code.Some? {
        var key := MarketKey(row.row.referenceMonth, row.reporterIso2.value, row.hs12Code.value);
        buckets := buckets[key := AddToBucket(ref, BucketOf(buckets, key), row)];
        sourceIdentified := sourceIdentified + row.row.valueEur;
      } else if row.row.sourceSpecialCode == WorldTotal {
        worldTotalExcluded := worldTotalExcluded + row.row.valueEur;
      } else if row.row.sourceSpecialCode != None_ || row.partnerKind == Some(ConfidentialPartner) {
        excludedSpecial := excludedSpecial + row.row.valueEur;
      }
    }
    TakeAll(rows);
    totals := Totals(sourceIdentified, excludedSpecial, worldTotalExcluded);
  }

  method PushMonths(buckets: map<string, Bucket>, supported: bool, reporter: string, product: string,
                    months: seq<string>, before: seq<MarketMonth>)
    returns (marketMonths: seq<MarketMonth>)
    ensures marketMonths
            == before + seq(|months|, k requires 0 <= k < |months| =>
                              ProjectBucket(buckets, supported, Place(months[k], reporter, product)))
  {
    marketMonths := before;
    for k := 0 to |months|
      invariant marketMonths
                == before + seq(k, j requires 0 <= j < k =>
                                  ProjectBucket(buckets, supported, Place(months[j], reporter, product)))
    {
      marketMonths := marketMonths + [ProjectBucket(buckets, supported, Place(months[k], reporter, product))];
    }
  }

  method PushProduct(ref: Reference, buckets: map<string, Bucket>, grid: Grid, reporter: string, product: string,
                     before: seq<MarketMonth>)
    returns (marketMonths: seq<MarketMonth>)
    ensures marketMonths == before + RowsAt(ref, buckets, grid.editions, MonthPlaces(reporter, product, grid.months))
  {
    var supported := EvaluateAcrossEditions(ref, product, grid.editions);
    marketMonths := PushMonths(buckets, supported, reporter, product, grid.months, before);
    assert RowsAt(ref, buckets, grid.editions, MonthPlaces(reporter, product, grid.months))
        == seq(|grid.months|, k requires 0 <= k < |grid.months| =>
                 ProjectBucket(buckets, supported, Place(grid.months[k], reporter, product)));
  }

  method PushProducts(ref: Reference, buckets: map<string, Bucket>, grid: Grid, reporter: string, before: seq<MarketMonth>)
    returns (marketMonths: seq<MarketMonth>)
    ensures marketMonths
            == before + RowsAt(ref, buckets, grid.editions, ProductPlaces(reporter, grid.products, grid.months))
  {
    marketMonths := before;
    for j := 0 to |grid.products|
      invariant marketMonths
                == before + RowsAt(ref, buckets, grid.editions, ProductPlaces(reporter, grid.products[..j], grid.months))
    {
      var product := grid.products[j];
      marketMonths := PushProduct(ref, buckets, grid, reporter, product, marketMonths);
      TakeNext(grid.products, j);
      RowsAtConcat(ref, buckets, grid.editions,
                   ProductPlaces(reporter, grid.products[..j], grid.months), MonthPlaces(reporter, product, grid.months));
    }
    TakeAll(grid.products);
  }

  /** The source's aggregation: one pass over the rows, then the three nested loops over the grid. */
  method AggregateMarketMonths(ref: Reference, grid: Grid, rows: seq<StagedRow>) returns (outcome: Outcome)
    ensures outcome == OutcomeOf(ref, grid, rows)
  {
    var buckets, totals := FoldRows(ref, rows);
    var marketMonths: seq<MarketMonth> := [];
    for i := 0 to |grid.reporters|
      invariant marketMonths
                == RowsAt(ref, buckets, grid.editions, GridPlaces(grid.reporters[..i], grid.products, grid.months))
    {
      marketMonths := PushProducts(ref, buckets, grid, grid.reporters[i], marketMonths);
      TakeNext(grid.reporters, i);
      RowsAtConcat(ref, buckets, grid.editions, GridPlaces(grid.reporters[..i], grid.products, grid.months),
                   ProductPlaces(grid.reporters[i], grid.products, grid.months));
    }
    TakeAll(grid.reporters);
    outcome := Outcome(marketMonths, totals, SumMonths(marketMonths));
  }

  // ---------- What a market month says ----------

  /** An aggregated row of this place. */
  ghost predicate FallsOn(r: StagedRow, place: Place) {
    Aggregated(r) && KeyOf(r) == PlaceKey(place)
  }

  /** Some aggregated row of the place satisfies `flag`. */
  ghost predicate SomeRow(rows: seq<StagedRow>, place: Place, flag: StagedRow -> bool) {
    exists r :: r in rows && FallsOn(r, place) && flag(r)
  }

  predicate IsPreliminary(r: StagedRow) { r.row.updateState == Preliminary }

  ghost function IsMultiStep(ref: Reference): StagedRow -> bool {
    (r: StagedRow) => ChainOf(ref, r) == MultiStepExact
  }

  lemma SomeRowIff<T>(rows: seq<StagedRow>, place: Place, f: StagedRow -> T, value: T, flag: StagedRow -> bool)
    requires forall r :: flag(r) <==> f(r) == value
    ensures value in Image(rows, InBucket(PlaceKey(place)), f) <==> SomeRow(rows, place, flag)
  {
  }

  lemma {:induction false} RecordedIff(ref: Reference, rows: seq<StagedRow>, place: Place)
    ensures PlaceKey(place) in AggregateRows(ref, rows) <==> SomeRow(rows, place, All)
  {
    var key := PlaceKey(place);
    AggregateRowsAreBuckets(ref, rows);
    if key in AggregateRows(ref, rows) {
      var partner :| partner in Image(rows, InBucket(key), PartnerOf);
    }
    if r :| r in rows && FallsOn(r, place) {
      assert PartnerOf(r) in Image(rows, InBucket(key), PartnerOf);
    }
  }

  /** The bucket of a place, or an empty one, holds what the rows of the place say. */
  lemma {:induction false} BucketOfPlace(ref: Reference, rows: seq<StagedRow>, place: Place)
    ensures BucketOf(AggregateRows(ref, rows), PlaceKey(place)) == BucketFor(ref, rows, InBucket(PlaceKey(place)))
  {
    AggregateRowsAreBuckets(ref, rows);
    BucketOfIs(ref, rows, AggregateRows(ref, rows), PlaceKey(place));
  }

  /**
    A market month read off the source rows: it has a value exactly when an aggregated row falls on it,
    then their sum; it is preliminary, or mapped in several steps, exactly when one of those rows is.
  */
  lemma {:induction false} MonthSaysWhatRowsSay(ref: Reference, rows: seq<StagedRow>, supported: bool, place: Place)
    ensures var m := ProjectBucket(AggregateRows(ref, rows), supported, place);
            && (m.valueEur.Some? <==> SomeRow(rows, place, All))
            && (m.valueEur.Some? ==> m.valueEur.value == SumWhere(rows, InBucket(PlaceKey(place))))
            && (m.updateState == Preliminary <==> SomeRow(rows, place, IsPreliminary))
            && (m.mappingChain == MultiStepExact <==> SomeRow(rows, place, IsMultiStep(ref)))
  {
    BucketOfPlace(ref, rows, place);
    RecordedIff(ref, rows, place);
    SomeRowIff(rows, place, UpdateStateOf, Preliminary, IsPreliminary);
    SomeRowIff(rows, place, ChainBy(ref), MultiStepExact, IsMultiStep(ref));
  }

  /** The rows of a place. */
  ghost function On(rows: seq<StagedRow>, place: Place): set<StagedRow> {
    set r | r in rows && FallsOn(r, place)
  }

  /**
    The rest of a market month: its counts are those of the different partners and the different CN codes
    of the rows that fall on it, and its state says whether the product is supported, whether there is
    such a row, and whether they add up to more than 0.
  */
  lemma {:induction false} MonthCountsAndState(ref: Reference, rows: seq<StagedRow>, supported: bool, place: Place)
    ensures var m := ProjectBucket(AggregateRows(ref, rows), supported, place);
            var sum := SumWhere(rows, InBucket(PlaceKey(place)));
            && m.contributingPartnerCount == |PartnersOn(rows, place)| && m.contributingCn8Count == |CodesOn(rows, place)|
            && (m.observationState == UnsupportedProductMapping <==> !supported)
            && (m.observationState == NotObserved <==> supported && !SomeRow(rows, place, All))
            && (m.observationState == RecordedPositive <==> supported && SomeRow(rows, place, All) && sum > 0)
            && (m.observationState == RecordedZero <==> supported && SomeRow(rows, place, All) && sum <= 0)
  {
    BucketOfPlace(ref, rows, place);
    RecordedIff(ref, rows, place);
    ImagesOfPlace(rows, place);
  }

  ghost function PartnersOn(rows: seq<StagedRow>, place: Place): set<string> {
    set r | r in On(rows, place) :: PartnerOf(r)
  }

  ghost function CodesOn(rows: seq<StagedRow>, place: Place): set<string> {
    set r | r in On(rows, place) :: Cn8Of(r)
  }

  lemma ImagesOfPlace(rows: seq<StagedRow>, place: Place)
    ensures Image(rows, InBucket(PlaceKey(place)), PartnerOf) == PartnersOn(rows, place)
    ensures Image(rows, InBucket(PlaceKey(place)), Cn8Of) == CodesOn(rows, place)
  {
  }

  // ---------- The same, by coordinates ----------

  ghost predicate PlainPlace(place: Place) {
    NoBar(place.reporterIso2) && NoBar(place.hs12Code)
  }

  /** Where an aggregated row falls. */
  function PlaceOfRow(r: StagedRow): Place
    requires Aggregated(r)
  {
    Place(r.row.referenceMonth, r.reporterIso2.value, r.hs12Code.value)
  }

  /** No aggregated row has a reporter or product whose code holds a bar. */
  ghost predicate PlainRows(rows: seq<StagedRow>) {
    forall k :: 0 <= k < |rows| && Aggregated(rows[k]) ==> PlainPlace(PlaceOfRow(rows[k]))
  }

  /** The aggregated rows of exactly this month, reporter and product. */
  ghost function AtPlace(place: Place): StagedRow -> bool {
    (r: StagedRow) => Aggregated(r) && PlaceOfRow(r) == place
  }

  /** A place is met by its coordinates, when no code holds a bar. */
  lemma FallsOnIff(r: StagedRow, place: Place)
    requires PlainPlace(place) && (Aggregated(r) ==> PlainPlace(PlaceOfRow(r)))
    ensures FallsOn(r, place) <==> AtPlace(place)(r)
  {
    if FallsOn(r, place) {
      MarketKeyIsInjective(r.row.referenceMonth, r.reporterIso2.value, r.hs12Code.value,
                           place.referenceMonth, place.reporterIso2, place.hs12Code);
    }
  }

  lemma {:induction false} SumWhereSame(rows: seq<StagedRow>, f: StagedRow -> bool, g: StagedRow -> bool)
    requires forall k :: 0 <= k < |rows| ==> f(rows[k]) == g(rows[k])
    ensures SumWhere(rows, f) == SumWhere(rows, g)
  {
    if rows != [] {
      var init := rows[..|rows| - 1];
      assert forall k :: 0 <= k < |init| ==> init[k] == rows[k];
      SumWhereSame(init, f, g);
    }
  }

  /** What a market month says of the rows that `here` selects. */
  ghost predicate Tells(m: MarketMonth, ref: Reference, rows: seq<StagedRow>, supported: bool, here: StagedRow -> bool) {
    var sum := SumWhere(rows, here);
    var recorded := exists r :: r in rows && here(r);
    && m.valueEur == (if recorded then Some(sum) else None)
    && (m.updateState == Preliminary <==> exists r :: r in rows && here(r) && IsPreliminary(r))
    && (m.mappingChain == MultiStepExact <==> exists r :: r in rows && here(r) && IsMultiStep(ref)(r))
    && m.contributingPartnerCount == |set r | r in rows && here(r) :: PartnerOf(r)|
    && m.contributingCn8Count == |set r | r in rows && here(r) :: Cn8Of(r)|
    && m.observationState
       == if !supported then UnsupportedProductMapping
          else if !recorded then NotObserved
          else if sum > 0 then RecordedPositive
          else RecordedZero
  }

  lemma {:induction false} MonthTellsByKey(ref: Reference, rows: seq<StagedRow>, supported: bool, place: Place)
    ensures Tells(ProjectBucket(AggregateRows(ref, rows), supported, place), ref, rows, supported, InBucket(PlaceKey(place)))
  {
    MonthSaysWhatRowsSay(ref, rows, supported, place);
    MonthCountsAndState(ref, rows, supported, place);
    var here := InBucket(PlaceKey(place));
    assert forall r :: here(r) <==> FallsOn(r, place);
    assert (exists r :: r in rows && here(r)) <==> SomeRow(rows, place, All);
    assert (set r | r in rows && here(r) :: PartnerOf(r)) == PartnersOn(rows, place);
    assert (set r | r in rows && here(r) :: Cn8Of(r)) == CodesOn(rows, place);
  }

  lemma TellsTheSame(m: MarketMonth, ref: Reference, rows: seq<StagedRow>, supported: bool, f: StagedRow -> bool,
                     g: StagedRow -> bool)
    requires forall k :: 0 <= k < |rows| ==> f(rows[k]) == g(rows[k])
    requires Tells(m, ref, rows, supported, f)
    ensures Tells(m, ref, rows, supported, g)
  {
    SumWhereSame(rows, f, g);
    assert forall r :: r in rows ==> f(r) == g(r);
    assert (set r | r in rows && f(r) :: PartnerOf(r)) == (set r | r in rows && g(r) :: PartnerOf(r));
    assert (set r | r in rows && f(r) :: Cn8Of(r)) == (set r | r in rows && g(r) :: Cn8Of(r));
  }

  /**
    All of a market month, by coordinates: its value, its flags, its counts and its state are those of the
    aggregated rows with exactly its month, its reporter and its product. No other row has a part in it.
  */
  lemma {:induction false} MonthByCoordinates(ref: Reference, rows: seq<StagedRow>, supported: bool, place: Place)
    requires PlainPlace(place) && PlainRows(rows)
    ensures Tells(ProjectBucket(AggregateRows(ref, rows), supported, place), ref, rows, supported, AtPlace(place))
  {
    var here, at := InBucket(PlaceKey(place)), AtPlace(place);
    forall k | 0 <= k < |rows|
      ensures here(rows[k]) == at(rows[k])
    {
      FallsOnIff(rows[k], place);
    }
    MonthTellsByKey(ref, rows, supported, place);
    TellsTheSame(ProjectBucket(AggregateRows(ref, rows), supported, place), ref, rows, supported, here, at);
  }

  /** Rows in any other order give the same outcome: every market month, every total. */
  lemma OutcomeIgnoresOrder(ref: Reference, grid: Grid, a: seq<StagedRow>, b: seq<StagedRow>)
    requires multiset(a) == multiset(b)
    ensures OutcomeOf(ref, grid, a) == OutcomeOf(ref, grid, b)
  {
    AggregateRowsAreBuckets(ref, a);
    AggregateRowsAreBuckets(ref, b);
    BucketsIgnoreOrder(ref, a, b, AggregateRows(ref, a), AggregateRows(ref, b));
    SumWherePermuted(a, b, Aggregated);
    SumWherePermuted(a, b, IsExcludedSpecial);
    SumWherePermuted(a, b, IsWorldTotal);
  }

  /** And so do the vintage's own rows, staged in any order. */
  lemma StagingIgnoresOrder(ref: Reference, grid: Grid, a: seq<SourceRow>, b: seq<SourceRow>)
    requires multiset(a) == multiset(b)
    ensures OutcomeOf(ref, grid, StageAll(ref, a)) == OutcomeOf(ref, grid, StageAll(ref, b))
  {
    StagePermuted(ref, a, b);
    OutcomeIgnoresOrder(ref, grid, StageAll(ref, a), StageAll(ref, b));
  }

  // ---------- The totals, by what the source says of its rows ----------

  ghost function SumSource(rows: seq<SourceRow>, where: SourceRow -> bool): int {
    if rows == [] then 0
    else
      var last := rows[|rows| - 1];
      SumSource(rows[..|rows| - 1], where) + if where(last) then last.valueEur else 0
  }

  ghost function CodedWorldTotal(): SourceRow -> bool {
    (row: SourceRow) => row.sourceSpecialCode == WorldTotal
  }

  /** Coded as confidential or special, or without a code but from a confidential partner. */
  ghost function CodedSpecial(ref: Reference): SourceRow -> bool {
    (row: SourceRow) =>
      row.sourceSpecialCode in {Confidential, Special}
      || (row.sourceSpecialCode == None_ && Find(ref.partnerKind, row.partnerSourceCode) == Some(ConfidentialPartner))
  }

  /**
    On staged rows the excluded totals are those of the source's own codes: every row coded as a world
    total, and every coded or confidential row, is left out of the buckets and counted where it belongs.
  */
  lemma {:induction false} ExcludedAsCoded(ref: Reference, rows: seq<SourceRow>)
    ensures var totals := TotalsOf(StageAll(ref, rows));
            && totals.worldTotalExcluded == SumSource(rows, CodedWorldTotal())
            && totals.excludedSpecial == SumSource(rows, CodedSpecial(ref))
  {
    if rows != [] {
      var init, last := rows[..|rows| - 1], rows[|rows| - 1];
      ExcludedAsCoded(ref, init);
      StageNext(ref, rows);
      SumWhereGrows(StageAll(ref, init), Stage(ref, last), IsWorldTotal);
      SumWhereGrows(StageAll(ref, init), Stage(ref, last), IsExcludedSpecial);
      StagedBelongs(ref, last);
    }
  }

  lemma StagedBelongs(ref: Reference, row: SourceRow)
    ensures IsWorldTotal(Stage(ref, row)) <==> CodedWorldTotal()(row)
    ensures IsExcludedSpecial(Stage(ref, row)) <==> CodedSpecial(ref)(row)
  {
    StagedIsConsistent(ref, row);
  }
}
