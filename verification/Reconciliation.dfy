/**
  The reconciliation of monthly values, scripts/release/recent-trade-momentum-package.ts: what the sources
  identify, what the grid holds, and what falls outside it.
*/
module Reconciliation {
  import opened Common
  import opened Momentum
  import opened MarketMonths
  import opened GridKeys

  // ---------- Conservation ----------

  ghost function OnKeys(keys: set<string>): StagedRow -> bool {
    (r: StagedRow) => Aggregated(r) && KeyOf(r) in keys
  }

  ghost function OffKeys(keys: set<string>): StagedRow -> bool {
    (r: StagedRow) => Aggregated(r) && KeyOf(r) !in keys
  }

  lemma {:induction false} OneKeyMore(rows: seq<StagedRow>, keys: set<string>, key: string)
    requires key !in keys
    ensures SumWhere(rows, OnKeys(keys + {key})) == SumWhere(rows, OnKeys(keys)) + SumWhere(rows, InBucket(key))
  {
    if rows != [] {
      OneKeyMore(rows[..|rows| - 1], keys, key);
    }
  }

  lemma {:induction false} OnAndOff(rows: seq<StagedRow>, keys: set<string>)
    ensures SumWhere(rows, Aggregated) == SumWhere(rows, OnKeys(keys)) + SumWhere(rows, OffKeys(keys))
  {
    if rows != [] {
      OnAndOff(rows[..|rows| - 1], keys);
    }
  }

  /** Each market month carries the value of its bucket. */
  ghost predicate CarriesBuckets(buckets: map<string, Bucket>, marketMonths: seq<MarketMonth>) {
    forall k :: 0 <= k < |marketMonths| ==>
      marketMonths[k].valueEur
      == var bucket := Find(buckets, PlaceKey(marketMonths[k].place));
         if bucket.Some? then Some(bucket.value.value) else None
  }

  lemma KeysNext(marketMonths: seq<MarketMonth>)
    requires marketMonths != []
    ensures var init, key := marketMonths[..|marketMonths| - 1], PlaceKey(marketMonths[|marketMonths| - 1].place);
            Keys(marketMonths) == Keys(init) + [key] && Elements(Keys(marketMonths)) == Elements(Keys(init)) + {key}
  {
    var init, key := marketMonths[..|marketMonths| - 1], PlaceKey(marketMonths[|marketMonths| - 1].place);
    assert Keys(marketMonths) == Keys(init) + [key];
  }

  lemma {:induction false} SumOnGrid(ref: Reference, rows: seq<StagedRow>, marketMonths: seq<MarketMonth>)
    requires CarriesBuckets(AggregateRows(ref, rows), marketMonths) && Distinct(Keys(marketMonths))
    ensures SumMonths(marketMonths) == SumWhere(rows, OnKeys(Elements(Keys(marketMonths))))
  {
    if marketMonths == [] {
      NoKeyNoSum(rows);
      assert Elements(Keys(marketMonths)) == {};
    } else {
      var init, last := marketMonths[..|marketMonths| - 1], marketMonths[|marketMonths| - 1];
      var key := PlaceKey(last.place);
      KeysNext(marketMonths);
      DistinctSnoc(Keys(init), key);
      SumOnGrid(ref, rows, init);
      OneKeyMore(rows, Elements(Keys(init)), key);
      AggregateRowsAreBuckets(ref, rows);
      BucketOfIs(ref, rows, AggregateRows(ref, rows), key);
    }
  }

  lemma {:induction false} NoKeyNoSum(rows: seq<StagedRow>)
    ensures SumWhere(rows, OnKeys({})) == 0
  {
    if rows != [] {
      NoKeyNoSum(rows[..|rows| - 1]);
    }
  }

  /** The aggregated rows that fall outside the grid. */
  ghost function Outside(ref: Reference, grid: Grid, rows: seq<StagedRow>): StagedRow -> bool {
    OffKeys(Elements(Keys(OutcomeOf(ref, grid, rows).marketMonths)))
  }

  /** The release gate, on the two printed totals. */
  predicate ValueReconciled(outcome: Outcome) {
    outcome.totals.sourceIdentified == outcome.aggregateIdentified
  }

  /**
    Conservation: once the market months are unique, what the sources identify is what the grid holds and
    what falls outside it; so the totals reconcile exactly when the rows outside the grid add up to 0.
  */
  lemma {:induction false} SourceIsGridAndOutside(ref: Reference, grid: Grid, rows: seq<StagedRow>)
    requires AreUnique(OutcomeOf(ref, grid, rows).marketMonths)
    ensures var outcome := OutcomeOf(ref, grid, rows);
            && outcome.totals.sourceIdentified == outcome.aggregateIdentified + SumWhere(rows, Outside(ref, grid, rows))
            && (ValueReconciled(outcome) <==> SumWhere(rows, Outside(ref, grid, rows)) == 0)
  {
    var outcome := OutcomeOf(ref, grid, rows);
    SetSizeIff(Keys(outcome.marketMonths));
    SumOnGrid(ref, rows, outcome.marketMonths);
    OnAndOff(rows, Elements(Keys(outcome.marketMonths)));
  }

  ghost predicate NonNegative(rows: seq<StagedRow>) {
    forall k :: 0 <= k < |rows| ==> rows[k].row.valueEur >= 0
  }

  lemma {:induction false} ZeroSumIff(rows: seq<StagedRow>, where: StagedRow -> bool)
    requires NonNegative(rows)
    ensures SumWhere(rows, where) >= 0
    ensures SumWhere(rows, where) == 0 <==> forall k :: 0 <= k < |rows| && where(rows[k]) ==> rows[k].row.valueEur == 0
  {
    if rows != [] {
      var init := rows[..|rows| - 1];
      ZeroSumIff(init, where);
      assert forall k :: 0 <= k < |init| ==> init[k] == rows[k];
    }
  }

  /** The row is of one of the grid's reporters, one of its products and one of its months. */
  ghost predicate OnGrid(grid: Grid, r: StagedRow) {
    && Aggregated(r)
    && r.reporterIso2.value in grid.reporters && r.hs12Code.value in grid.products && r.row.referenceMonth in grid.months
  }

  lemma OutsideIff(ref: Reference, grid: Grid, rows: seq<StagedRow>, r: StagedRow)
    requires NoBarsInGrid(grid) && Aggregated(r) && PlainPlace(PlaceOfRow(r))
    ensures Outside(ref, grid, rows)(r) <==> !OnGrid(grid, r)
  {
    GridIsPlain(grid);
    KeysOfGrid(ref, grid, AggregateRows(ref, rows));
    KeyInIff(PlacesOf(grid), PlaceOfRow(r));
    InGridPlaces(grid.reporters, grid.products, grid.months, PlaceOfRow(r));
  }

  /**
    On values that are not negative the totals reconcile exactly when every row of value falls on the
    grid: on one of its reporters, one of its products and one of its months.
  */
  lemma ReconciledIffOnGrid(ref: Reference, grid: Grid, rows: seq<StagedRow>)
    requires AreUnique(OutcomeOf(ref, grid, rows).marketMonths) && NonNegative(rows)
    requires NoBarsInGrid(grid) && PlainRows(rows)
    ensures ValueReconciled(OutcomeOf(ref, grid, rows))
            <==> forall k :: 0 <= k < |rows| && Aggregated(rows[k]) && rows[k].row.valueEur != 0 ==> OnGrid(grid, rows[k])
  {
    SourceIsGridAndOutside(ref, grid, rows);
    ZeroSumIff(rows, Outside(ref, grid, rows));
    forall k | 0 <= k < |rows|
      ensures Outside(ref, grid, rows)(rows[k]) <==> Aggregated(rows[k]) && !OnGrid(grid, rows[k])
    {
      if Aggregated(rows[k]) {
        OutsideIff(ref, grid, rows, rows[k]);
      }
    }
  }

  /** One row of value in a month off the grid, and the totals do not reconcile. */
  lemma OffGridRowIsNotReconciled(ref: Reference, grid: Grid, row: StagedRow)
    requires AreUnique(OutcomeOf(ref, grid, [row]).marketMonths) && NoBarsInGrid(grid)
    requires Aggregated(row) && PlainPlace(PlaceOfRow(row)) && row.row.valueEur > 0 && row.row.referenceMonth !in grid.months
    ensures !ValueReconciled(OutcomeOf(ref, grid, [row]))
  {
    ReconciledIffOnGrid(ref, grid, [row]);
    assert !OnGrid(grid, [row][0]);
  }

  const JULY := SourceRow("2025-07", "004", "400", 2025, "01012100", 5, None_, FinalBySourceSchedule)

  const ONE_OF_EACH := Reference(
    map["004" := "DE"], map["400" := Individual],
    map[(2025, "01012100") := RowMapping(true, ["010121"], [], DirectExact)], map[(2025, "010121") := true])

  const JUNE_ONLY := Grid(["DE"], ["010121"], ["2025-06"], [2025])

  /** Such a source exists: a row of July, staged for a grid that ends in June. */
  lemma JulyIsNotReconciled()
    ensures var rows := StageAll(ONE_OF_EACH, [JULY]);
            && AreUnique(OutcomeOf(ONE_OF_EACH, JUNE_ONLY, rows).marketMonths)
            && !ValueReconciled(OutcomeOf(ONE_OF_EACH, JUNE_ONLY, rows))
  {
    var row := Stage(ONE_OF_EACH, JULY);
    assert StageAll(ONE_OF_EACH, [JULY]) == [row];
    JulyIsAggregated();
    UniqueIffListsAreDistinct(ONE_OF_EACH, JUNE_ONLY, [row]);
    assert JULY.referenceMonth[6] != JUNE_ONLY.months[0][6];
    OffGridRowIsNotReconciled(ONE_OF_EACH, JUNE_ONLY, row);
  }

  lemma JulyIsAggregated()
    ensures var row := Stage(ONE_OF_EACH, JULY);
            && Aggregated(row) && row.reporterIso2 == Some("DE") && row.hs12Code == Some("010121")
            && NoBar("DE") && NoBar("010121")
  {
  }
}
