/**
  Market months read off the source's own rows, scripts/release/recent-trade-momentum-package.ts: which rows
  may be aggregated, what one more row changes, and what stands at each place of the grid. Nothing here refers
  to how rows are staged.
*/
module SourceMonths {
  import opened Common
  import opened Momentum
  import opened MarketMonths
  import opened GridKeys

  // ---------- Which rows may be aggregated ----------

  /** The row's code is mapped, exactly, reviewed and without rejection, to one product that is reviewed too. */
  ghost predicate ExactlyMapped(ref: Reference, row: SourceRow) {
    var code := (row.cnEditionYear, row.cn8Code);
    && code in ref.rowMapping
    && ref.rowMapping[code].exactReviewed && ref.rowMapping[code].rejectionReasons == []
    && |ref.rowMapping[code].targets| == 1
    && (row.cnEditionYear, ref.rowMapping[code].targets[0]) in ref.productExactReviewed
    && ref.productExactReviewed[(row.cnEditionYear, ref.rowMapping[code].targets[0])]
  }

  /** From a known reporter, with an individual partner, not specially coded, and exactly mapped. */
  ghost predicate Admissible(ref: Reference, row: SourceRow) {
    && row.reporterSourceCode in ref.reporterIso2
    && row.partnerSourceCode in ref.partnerKind && ref.partnerKind[row.partnerSourceCode].Individual?
    && row.sourceSpecialCode.None_?
    && ExactlyMapped(ref, row)
  }

  /** The month of the row, the country of its reporter, the product of its code. */
  ghost function PlaceOfSource(ref: Reference, row: SourceRow): Place
    requires Admissible(ref, row)
  {
    Place(row.referenceMonth, ref.reporterIso2[row.reporterSourceCode],
          ref.rowMapping[(row.cnEditionYear, row.cn8Code)].targets[0])
  }

  ghost predicate AtSource(ref: Reference, place: Place, row: SourceRow) {
    Admissible(ref, row) && PlaceOfSource(ref, row) == place
  }

  ghost predicate MultiStep(ref: Reference, row: SourceRow) {
    && (row.cnEditionYear, row.cn8Code) in ref.rowMapping
    && ref.rowMapping[(row.cnEditionYear, row.cn8Code)].chain.MultiStepExact?
  }

  /** Staging adds to a row what is known of it, and calls exactly the admissible rows eligible. */
  lemma StageIs(ref: Reference, row: SourceRow)
    ensures Stage(ref, row).row == row
    ensures Aggregated(Stage(ref, row)) <==> Admissible(ref, row)
    ensures Admissible(ref, row) ==> PlaceOfRow(Stage(ref, row)) == PlaceOfSource(ref, row)
    ensures Admissible(ref, row) ==> (ChainOf(ref, Stage(ref, row)) == MultiStepExact <==> MultiStep(ref, row))
  {
  }

  // ---------- Totals ----------

  ghost function Admitted(ref: Reference): SourceRow -> bool {
    row => Admissible(ref, row)
  }

  ghost function At(ref: Reference, place: Place): SourceRow -> bool {
    row => AtSource(ref, place, row)
  }

  lemma {:induction false} StagedSum(ref: Reference, rows: seq<SourceRow>, f: StagedRow -> bool, g: SourceRow -> bool)
    requires forall k :: 0 <= k < |rows| ==> f(Stage(ref, rows[k])) == g(rows[k])
    ensures SumWhere(StageAll(ref, rows), f) == SumSource(rows, g)
  {
    if rows != [] {
      var init, last := rows[..|rows| - 1], rows[|rows| - 1];
      assert forall k :: 0 <= k < |init| ==> init[k] == rows[k];
      StagedSum(ref, init, f, g);
      StageNext(ref, rows);
      SumWhereGrows(StageAll(ref, init), Stage(ref, last), f);
      StageIs(ref, last);
    }
  }

  /** The identified total is the value of the admissible rows. */
  lemma {:induction false} IdentifiedIsAdmissible(ref: Reference, rows: seq<SourceRow>)
    ensures TotalsOf(StageAll(ref, rows)).sourceIdentified == SumSource(rows, Admitted(ref))
  {
    forall k | 0 <= k < |rows|
      ensures Aggregated(Stage(ref, rows[k])) == Admitted(ref)(rows[k])
    {
      StageIs(ref, rows[k]);
    }
    StagedSum(ref, rows, Aggregated, Admitted(ref));
  }

  // ---------- One market month ----------

  /** No country and no product that can be looked up has a bar in its code. */
  ghost predicate PlainReference(ref: Reference) {
    && (forall code :: code in ref.reporterIso2 ==> NoBar(ref.reporterIso2[code]))
    && (forall code :: code in ref.rowMapping ==>
          forall k :: 0 <= k < |ref.rowMapping[code].targets| ==> NoBar(ref.rowMapping[code].targets[k]))
  }

  ghost predicate ReviewedThroughout(ref: Reference, hs12Code: string, editions: seq<nat>) {
    forall k :: 0 <= k < |editions| ==>
      (editions[k], hs12Code) in ref.productExactReviewed && ref.productExactReviewed[(editions[k], hs12Code)]
  }

  /** Some row at this place. */
  ghost predicate SomeAt(ref: Reference, rows: seq<SourceRow>, place: Place) {
    exists k :: 0 <= k < |rows| && AtSource(ref, place, rows[k])
  }

  ghost predicate SomePreliminaryAt(ref: Reference, rows: seq<SourceRow>, place: Place) {
    exists k :: 0 <= k < |rows| && AtSource(ref, place, rows[k]) && rows[k].updateState.Preliminary?
  }

  ghost predicate SomeMultiStepAt(ref: Reference, rows: seq<SourceRow>, place: Place) {
    exists k :: 0 <= k < |rows| && AtSource(ref, place, rows[k]) && MultiStep(ref, rows[k])
  }

  ghost function PartnersAt(ref: Reference, rows: seq<SourceRow>, place: Place): set<string> {
    set row | row in rows && AtSource(ref, place, row) :: row.partnerSourceCode
  }

  ghost function CodesAt(ref: Reference, rows: seq<SourceRow>, place: Place): set<string> {
    set row | row in rows && AtSource(ref, place, row) :: row.cn8Code
  }

  /** All that a market month says, of the source rows of exactly its month, its reporter and its product. */
  ghost predicate MonthSays(ref: Reference, rows: seq<SourceRow>, editions: seq<nat>, place: Place, m: MarketMonth) {
    var sum, recorded := SumSource(rows, At(ref, place)), SomeAt(ref, rows, place);
    && m.place == place
    && m.valueEur == (if recorded then Some(sum) else None)
    && m.contributingPartnerCount == |PartnersAt(ref, rows, place)|
    && m.contributingCn8Count == |CodesAt(ref, rows, place)|
    && (m.updateState == if SomePreliminaryAt(ref, rows, place) then Preliminary else FinalBySourceSchedule)
    && (m.mappingChain == if SomeMultiStepAt(ref, rows, place) then MultiStepExact else DirectExact)
    && m.observationState
       == if !ReviewedThroughout(ref, place.hs12Code, editions) then UnsupportedProductMapping
          else if !recorded then NotObserved
          else if sum > 0 then RecordedPositive
          else RecordedZero
  }

  lemma StagedPlain(ref: Reference, rows: seq<SourceRow>)
    requires PlainReference(ref)
    ensures PlainRows(StageAll(ref, rows))
  {
    forall k | 0 <= k < |rows| && Aggregated(Stage(ref, rows[k]))
      ensures PlainPlace(PlaceOfRow(Stage(ref, rows[k])))
    {
      StageIs(ref, rows[k]);
    }
  }

  /** A staged row is at a place exactly when its source row is. */
  lemma AtPlaceIff(ref: Reference, place: Place, row: SourceRow)
    ensures AtPlace(place)(Stage(ref, row)) <==> AtSource(ref, place, row)
  {
    StageIs(ref, row);
  }

  lemma StagedExists(ref: Reference, rows: seq<SourceRow>, f: StagedRow -> bool, g: SourceRow -> bool)
    requires forall k :: 0 <= k < |rows| ==> f(Stage(ref, rows[k])) == g(rows[k])
    ensures (exists r :: r in StageAll(ref, rows) && f(r)) <==> exists k :: 0 <= k < |rows| && g(rows[k])
  {
    if k :| 0 <= k < |rows| && g(rows[k]) {
      assert StageAll(ref, rows)[k] == Stage(ref, rows[k]);
    }
  }

  lemma StagedImage<T>(ref: Reference, rows: seq<SourceRow>, place: Place, f: StagedRow -> T, g: SourceRow -> T)
    requires forall row :: f(Stage(ref, row)) == g(row)
    ensures (set r | r in StageAll(ref, rows) && AtPlace(place)(r) :: f(r))
            == set row | row in rows && AtSource(ref, place, row) :: g(row)
  {
    var staged := StageAll(ref, rows);
    forall r | r in staged && AtPlace(place)(r)
      ensures exists row :: row in rows && AtSource(ref, place, row) && g(row) == f(r)
    {
      var k :| 0 <= k < |staged| && staged[k] == r;
      AtPlaceIff(ref, place, rows[k]);
    }
    forall row | row in rows && AtSource(ref, place, row)
      ensures exists r :: r in staged && AtPlace(place)(r) && f(r) == g(row)
    {
      var k :| 0 <= k < |rows| && rows[k] == row;
      AtPlaceIff(ref, place, row);
      assert staged[k] == Stage(ref, row);
    }
  }

  lemma StagedPartners(ref: Reference, rows: seq<SourceRow>, place: Place)
    ensures (set r | r in StageAll(ref, rows) && AtPlace(place)(r) :: PartnerOf(r)) == PartnersAt(ref, rows, place)
    ensures (set r | r in StageAll(ref, rows) && AtPlace(place)(r) :: Cn8Of(r)) == CodesAt(ref, rows, place)
  {
    var partner: SourceRow -> string := (row: SourceRow) => row.partnerSourceCode;
    var code: SourceRow -> string := (row: SourceRow) => row.cn8Code;
    StagedImage(ref, rows, place, PartnerOf, partner);
    StagedImage(ref, rows, place, Cn8Of, code);
    assert PartnersAt(ref, rows, place) == set row | row in rows && AtSource(ref, place, row) :: partner(row);
    assert CodesAt(ref, rows, place) == set row | row in rows && AtSource(ref, place, row) :: code(row);
  }

  lemma StagedFlags(ref: Reference, rows: seq<SourceRow>, place: Place)
    ensures (exists r :: r in StageAll(ref, rows) && AtPlace(place)(r)) <==> SomeAt(ref, rows, place)
    ensures (exists r :: r in StageAll(ref, rows) && AtPlace(place)(r) && IsPreliminary(r))
            <==> SomePreliminaryAt(ref, rows, place)
    ensures (exists r :: r in StageAll(ref, rows) && AtPlace(place)(r) && IsMultiStep(ref)(r))
            <==> SomeMultiStepAt(ref, rows, place)
  {
    forall k | 0 <= k < |rows|
      ensures AtPlace(place)(Stage(ref, rows[k])) == AtSource(ref, place, rows[k])
      ensures AtSource(ref, place, rows[k]) ==> IsMultiStep(ref)(Stage(ref, rows[k])) == MultiStep(ref, rows[k])
    {
      AtPlaceIff(ref, place, rows[k]);
      StageIs(ref, rows[k]);
    }
    var at := AtPlace(place);
    StagedExists(ref, rows, at, row => AtSource(ref, place, row));
    StagedExists(ref, rows, r => at(r) && IsPreliminary(r),
                 row => AtSource(ref, place, row) && row.updateState.Preliminary?);
    StagedExists(ref, rows, r => at(r) && IsMultiStep(ref)(r), row => AtSource(ref, place, row) && MultiStep(ref, row));
  }

  /** What stands at a place of the grid is what the source rows of that place say. */
  lemma {:induction false} MonthOfSource(ref: Reference, rows: seq<SourceRow>, editions: seq<nat>, place: Place)
    requires PlainReference(ref) && PlainPlace(place)
    ensures MonthSays(ref, rows, editions, place,
                      ProjectBucket(AggregateRows(ref, StageAll(ref, rows)),
                                    Supported(ref, place.hs12Code, editions), place))
  {
    var staged := StageAll(ref, rows);
    StagedPlain(ref, rows);
    MonthByCoordinates(ref, staged, Supported(ref, place.hs12Code, editions), place);
    StagedPartners(ref, rows, place);
    StagedFlags(ref, rows, place);
    forall k | 0 <= k < |rows|
      ensures AtPlace(place)(Stage(ref, rows[k])) == At(ref, place)(rows[k])
    {
      AtPlaceIff(ref, place, rows[k]);
    }
    StagedSum(ref, rows, AtPlace(place), At(ref, place));
    SupportedIff(ref, place.hs12Code, editions);
  }

  lemma SupportedIff(ref: Reference, hs12Code: string, editions: seq<nat>)
    ensures Supported(ref, hs12Code, editions) <==> ReviewedThroughout(ref, hs12Code, editions)
  {
    forall k | 0 <= k < |editions|
      ensures editions[k] in editions
    {
    }
  }

  // ---------- All of the outcome ----------

  /** Where the month stands that is the `l`-th of the `j`-th product of the `i`-th reporter. */
  function Position(grid: Grid, i: nat, j: nat, l: nat): nat {
    (i * |grid.products| + j) * |grid.months| + l
  }

  lemma BlockBound(j: nat, l: nat, products: nat, months: nat)
    requires j < products && l < months
    ensures j * months + l < products * months
  {
    assert (j + 1) * months <= products * months;
  }

  lemma {:induction false} ProductPlaceAt(reporter: string, products: seq<string>, months: seq<string>, j: nat, l: nat)
    requires j < |products| && l < |months|
    ensures |ProductPlaces(reporter, products, months)| == |products| * |months|
    ensures j * |months| + l < |products| * |months|
    ensures ProductPlaces(reporter, products, months)[j * |months| + l] == Place(months[l], reporter, products[j])
  {
    var init := products[..|products| - 1];
    BlockBound(j, l, |products|, |months|);
    ProductPlacesSize(reporter, products, months);
    ProductPlacesSize(reporter, init, months);
    if j < |init| {
      BlockBound(j, l, |init|, |months|);
      ProductPlaceAt(reporter, init, months, j, l);
    }
  }

  lemma {:induction false} ProductPlacesSize(reporter: string, products: seq<string>, months: seq<string>)
    ensures |ProductPlaces(reporter, products, months)| == |products| * |months|
  {
    if products != [] {
      ProductPlacesSize(reporter, products[..|products| - 1], months);
      assert |products| * |months| == (|products| - 1) * |months| + |months|;
    }
  }

  lemma {:induction false} GridPlacesSize(reporters: seq<string>, products: seq<string>, months: seq<string>, block: nat)
    requires block == |products| * |months|
    ensures |GridPlaces(reporters, products, months)| == |reporters| * block
  {
    if reporters != [] {
      GridPlacesSize(reporters[..|reporters| - 1], products, months, block);
      ProductPlacesSize(reporters[|reporters| - 1], products, months);
      assert |reporters| * block == (|reporters| - 1) * block + block;
    }
  }

  /** The places of a reporter stand behind those of the reporters before it. */
  lemma {:induction false} GridBlockAt(reporters: seq<string>, products: seq<string>, months: seq<string>, i: nat, at: nat,
                                       block: nat)
    requires i < |reporters| && at < block && block == |products| * |months|
    ensures |ProductPlaces(reporters[i], products, months)| == block
    ensures i * block + at < |GridPlaces(reporters, products, months)|
    ensures GridPlaces(reporters, products, months)[i * block + at] == ProductPlaces(reporters[i], products, months)[at]
  {
    var init := reporters[..|reporters| - 1];
    ProductPlacesSize(reporters[i], products, months);
    GridPlacesSize(reporters, products, months, block);
    GridPlacesSize(init, products, months, block);
    BlockBound(i, at, |reporters|, block);
    if i < |init| {
      BlockBound(i, at, |init|, block);
      GridBlockAt(init, products, months, i, at, block);
    }
  }

  lemma {:induction false} GridPlaceAt(reporters: seq<string>, products: seq<string>, months: seq<string>, i: nat,
                                       j: nat, l: nat, at: nat,
                    block: nat)
    requires i < |reporters| && j < |products| && l < |months|
    requires at == j * |months| + l && block == |products| * |months|
    ensures i * block + at < |GridPlaces(reporters, products, months)|
    ensures GridPlaces(reporters, products, months)[i * block + at] == Place(months[l], reporters[i], products[j])
  {
    ProductPlaceAt(reporters[i], products, months, j, l);
    GridBlockAt(reporters, products, months, i, at, block);
  }

  lemma PositionIs(grid: Grid, i: nat, j: nat, l: nat, at: nat, block: nat)
    requires at == j * |grid.months| + l && block == |grid.products| * |grid.months|
    ensures Position(grid, i, j, l) == i * block + at
  {
    var products, months := |grid.products|, |grid.months|;
    assert (i * products + j) * months == i * products * months + j * months == i * (products * months) + j * months;
  }

  /** The place of the grid at these coordinates. */
  function GridPlace(grid: Grid, i: nat, j: nat, l: nat): Place
    requires i < |grid.reporters| && j < |grid.products| && l < |grid.months|
  {
    Place(grid.months[l], grid.reporters[i], grid.products[j])
  }

  ghost predicate MonthAtSays(ref: Reference, grid: Grid, rows: seq<SourceRow>, marketMonths: seq<MarketMonth>,
                              i: nat, j: nat, l: nat)
    requires i < |grid.reporters| && j < |grid.products| && l < |grid.months|
  {
    && Position(grid, i, j, l) < |marketMonths|
    && MonthSays(ref, rows, grid.editions, GridPlace(grid, i, j, l), marketMonths[Position(grid, i, j, l)])
  }

  /**
    The whole outcome, of source rows: a market month for each reporter, product and month of the grid, in this
    order, with what the rows of that place say; and each total with the rows the source's own fields give it.
  */
  ghost predicate OutcomeSays(ref: Reference, grid: Grid, rows: seq<SourceRow>, outcome: Outcome) {
    && (var block := |grid.products| * |grid.months|; |outcome.marketMonths| == |grid.reporters| * block)
    && (forall i: nat, j: nat, l: nat :: i < |grid.reporters| && j < |grid.products| && l < |grid.months| ==>
          MonthAtSays(ref, grid, rows, outcome.marketMonths, i, j, l))
    && outcome.totals.sourceIdentified == SumSource(rows, Admitted(ref))
    && outcome.totals.worldTotalExcluded == SumSource(rows, CodedWorldTotal())
    && outcome.totals.excludedSpecial == SumSource(rows, CodedSpecial(ref))
  }

  lemma {:induction false} OutcomeOfSource(ref: Reference, grid: Grid, rows: seq<SourceRow>)
    requires PlainReference(ref) && NoBarsInGrid(grid)
    ensures OutcomeSays(ref, grid, rows, OutcomeOf(ref, grid, StageAll(ref, rows)))
  {
    var marketMonths := OutcomeOf(ref, grid, StageAll(ref, rows)).marketMonths;
    var block := |grid.products| * |grid.months|;
    GridPlacesSize(grid.reporters, grid.products, grid.months, block);
    IdentifiedIsAdmissible(ref, rows);
    ExcludedAsCoded(ref, rows);
    forall i: nat, j: nat, l: nat | i < |grid.reporters| && j < |grid.products| && l < |grid.months|
      ensures MonthAtSays(ref, grid, rows, marketMonths, i, j, l)
    {
      var at := j * |grid.months| + l;
      PositionIs(grid, i, j, l, at, block);
      GridPlaceAt(grid.reporters, grid.products, grid.months, i, j, l, at, block);
      MonthOfSource(ref, rows, grid.editions, GridPlace(grid, i, j, l));
    }
  }

  /** A vintage, staged and aggregated. */
  method AggregateVintage(ref: Reference, grid: Grid, rows: seq<SourceRow>) returns (outcome: Outcome)
    requires PlainReference(ref) && NoBarsInGrid(grid)
    ensures OutcomeSays(ref, grid, rows, outcome)
  {
    outcome := AggregateMarketMonths(ref, grid, StageAll(ref, rows));
    OutcomeOfSource(ref, grid, rows);
  }

  // ---------- One more row ----------

  lemma {:induction false} SumSourceNext(rows: seq<SourceRow>, row: SourceRow, where: SourceRow -> bool)
    ensures SumSource(rows + [row], where) == SumSource(rows, where) + if where(row) then row.valueEur else 0
  {
    assert (rows + [row])[..|rows|] == rows;
  }

  lemma {:induction false} SumOfNone(rows: seq<SourceRow>, where: SourceRow -> bool)
    requires forall k :: 0 <= k < |rows| ==> !where(rows[k])
    ensures SumSource(rows, where) == 0
  {
    if rows != [] {
      var init := rows[..|rows| - 1];
      assert forall k :: 0 <= k < |init| ==> init[k] == rows[k];
      SumOfNone(init, where);
    }
  }

  lemma SomeAtNext(ref: Reference, rows: seq<SourceRow>, row: SourceRow, place: Place)
    ensures SomeAt(ref, rows + [row], place) <==> SomeAt(ref, rows, place) || AtSource(ref, place, row)
    ensures SomePreliminaryAt(ref, rows + [row], place)
            <==> SomePreliminaryAt(ref, rows, place) || (AtSource(ref, place, row) && row.updateState.Preliminary?)
    ensures SomeMultiStepAt(ref, rows + [row], place)
            <==> SomeMultiStepAt(ref, rows, place) || (AtSource(ref, place, row) && MultiStep(ref, row))
  {
    var more := rows + [row];
    assert more[|rows|] == row && forall k :: 0 <= k < |rows| ==> more[k] == rows[k];
  }

  lemma ImagesNext(ref: Reference, rows: seq<SourceRow>, row: SourceRow, place: Place)
    requires !AtSource(ref, place, row)
    ensures PartnersAt(ref, rows + [row], place) == PartnersAt(ref, rows, place)
    ensures CodesAt(ref, rows + [row], place) == CodesAt(ref, rows, place)
  {
    assert forall r :: r in rows + [row] <==> r in rows || r == row;
  }

  /** A row changes no month but that of its own place, and there it adds its value. */
  lemma MonthNext(ref: Reference, rows: seq<SourceRow>, row: SourceRow, editions: seq<nat>, place: Place,
                  before: MarketMonth, after: MarketMonth)
    requires MonthSays(ref, rows, editions, place, before) && MonthSays(ref, rows + [row], editions, place, after)
    ensures !AtSource(ref, place, row) ==> after == before
    ensures AtSource(ref, place, row) ==>
              after.valueEur == Some(row.valueEur + if before.valueEur.Some? then before.valueEur.value else 0)
  {
    SumSourceNext(rows, row, At(ref, place));
    SomeAtNext(ref, rows, row, place);
    if !AtSource(ref, place, row) {
      ImagesNext(ref, rows, row, place);
    }
    if !SomeAt(ref, rows, place) {
      SumOfNone(rows, At(ref, place));
    }
  }

  /** How an outcome differs from that without one row, at one place of the grid and in the identified total. */
  ghost predicate RowAdds(ref: Reference, grid: Grid, row: SourceRow, before: Outcome, after: Outcome, i: nat, j: nat,
                          l: nat)
    requires i < |grid.reporters| && j < |grid.products| && l < |grid.months|
  {
    var at := Position(grid, i, j, l);
    var here := Admissible(ref, row) && PlaceOfSource(ref, row) == GridPlace(grid, i, j, l);
    && at < |before.marketMonths| == |after.marketMonths|
    && after.totals.sourceIdentified
       == before.totals.sourceIdentified + (if Admissible(ref, row) then row.valueEur else 0)
    && (!here ==> after.marketMonths[at] == before.marketMonths[at])
    && (here ==> after.marketMonths[at].valueEur
                 == Some(row.valueEur + var was := before.marketMonths[at].valueEur; if was.Some? then was.value else 0))
  }

  lemma {:induction false} SaysMore(ref: Reference, grid: Grid, rows: seq<SourceRow>, row: SourceRow, before: Outcome,
                                    after: Outcome,
                                    i: nat, j: nat, l: nat)
    requires OutcomeSays(ref, grid, rows, before) && OutcomeSays(ref, grid, rows + [row], after)
    requires i < |grid.reporters| && j < |grid.products| && l < |grid.months|
    ensures RowAdds(ref, grid, row, before, after, i, j, l)
  {
    var at := Position(grid, i, j, l);
    assert MonthAtSays(ref, grid, rows, before.marketMonths, i, j, l);
    assert MonthAtSays(ref, grid, rows + [row], after.marketMonths, i, j, l);
    MonthNext(ref, rows, row, grid.editions, GridPlace(grid, i, j, l), before.marketMonths[at], after.marketMonths[at]);
    SumSourceNext(rows, row, Admitted(ref));
  }

  /**
    One more source row. If its reporter is unknown, its partner is no individual one, it is specially coded, or
    it is not exactly mapped, it leaves every market month and the identified total as they are. Otherwise it
    adds its value to the identified total and to the month of its own place, and changes no other.
  */
  lemma {:induction false} OneRowMore(ref: Reference, grid: Grid, rows: seq<SourceRow>, row: SourceRow, i: nat, j: nat,
                                      l: nat)
    requires PlainReference(ref) && NoBarsInGrid(grid)
    requires i < |grid.reporters| && j < |grid.products| && l < |grid.months|
    ensures RowAdds(ref, grid, row, OutcomeOf(ref, grid, StageAll(ref, rows)),
                    OutcomeOf(ref, grid, StageAll(ref, rows + [row])), i, j, l)
  {
    OutcomeOfSource(ref, grid, rows);
    OutcomeOfSource(ref, grid, rows + [row]);
    SaysMore(ref, grid, rows, row, OutcomeOf(ref, grid, StageAll(ref, rows)),
             OutcomeOf(ref, grid, StageAll(ref, rows + [row])), i, j, l);
  }
}
