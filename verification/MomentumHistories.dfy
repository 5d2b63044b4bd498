/**
  The histories behind momentum rows, read off the source's own rows: scripts/release/recent-trade-momentum-package.ts.
*/
module MomentumHistories {
  import opened Common
  import opened Momentum
  import opened MarketMonths
  import opened GridKeys
  import opened MomentumRows
  import opened SourceMonths

  /** An observation says of its month what the market month of the place says. */
  ghost predicate ObservationSays(ref: Reference, rows: seq<SourceRow>, editions: seq<nat>, place: Place, o: Observation) {
    exists m :: MonthSays(ref, rows, editions, place, m) && SameAsMonth(o, m)
  }

  ghost predicate SameAsMonth(o: Observation, m: MarketMonth) {
    && o.referenceMonth == m.place.referenceMonth && o.valueEur == m.valueEur && o.observationState == m.observationState
    && o.updateState == m.updateState && o.mappingChain == m.mappingChain
  }

  /** One observation for each month of the grid, in order, with what the source rows of that month say. */
  ghost predicate HistorySays(ref: Reference, grid: Grid, rows: seq<SourceRow>, reporter: string, product: string,
                              history: seq<Observation>) {
    && |history| == |grid.months|
    && forall l :: 0 <= l < |grid.months| ==>
         ObservationSays(ref, rows, grid.editions, Place(grid.months[l], reporter, product), history[l])
  }

  ghost function BucketsOf(ref: Reference, rows: seq<SourceRow>): map<string, Bucket> {
    AggregateRows(ref, StageAll(ref, rows))
  }

  lemma {:induction false} HistoryMeans(ref: Reference, grid: Grid, rows: seq<SourceRow>, reporter: string, product: string)
    requires PlainReference(ref) && NoBar(reporter) && NoBar(product)
    ensures HistorySays(ref, grid, rows, reporter, product, History(ref, grid, BucketsOf(ref, rows), reporter, product))
  {
    var history := History(ref, grid, BucketsOf(ref, rows), reporter, product);
    forall l | 0 <= l < |grid.months|
      ensures ObservationSays(ref, rows, grid.editions, Place(grid.months[l], reporter, product), history[l])
    {
      var place := Place(grid.months[l], reporter, product);
      MonthOfSource(ref, rows, grid.editions, place);
      var m := ProjectBucket(BucketsOf(ref, rows), Supported(ref, product, grid.editions), place);
      assert MonthSays(ref, rows, grid.editions, place, m) && SameAsMonth(history[l], m);
    }
  }

  /** The row of a reporter and a product: computed from their own history. */
  ghost predicate RowSays<T(!new)>(ref: Reference, grid: Grid, rows: seq<SourceRow>,
                                   compute: (string, string, seq<Observation>) -> T,
                                   reporter: string, product: string, row: MomentumRow<T>) {
    && row.reporterIso2 == reporter && row.hs12Code == product
    && exists history :: HistorySays(ref, grid, rows, reporter, product, history)
                         && row.outcome == compute(reporter, product, history)
  }

  ghost predicate RowAtSays<T(!new)>(ref: Reference, grid: Grid, rows: seq<SourceRow>,
                                     compute: (string, string, seq<Observation>) -> T, built: seq<MomentumRow<T>>,
                                     i: nat, j: nat)
    requires i < |grid.reporters| && j < |grid.products|
  {
    && i * |grid.products| + j < |built|
    && RowSays(ref, grid, rows, compute, grid.reporters[i], grid.products[j], built[i * |grid.products| + j])
  }

  lemma {:induction false} RowsSize<T(!new)>(ref: Reference, grid: Grid, buckets: map<string, Bucket>,
                                             compute: (string, string, seq<Observation>) -> T, reporters: seq<string>)
    ensures |RowsOf(ref, grid, buckets, compute, reporters)| == |reporters| * |grid.products|
  {
    if reporters != [] {
      RowsSize(ref, grid, buckets, compute, reporters[..|reporters| - 1]);
      assert |reporters| * |grid.products| == (|reporters| - 1) * |grid.products| + |grid.products|;
    }
  }

  lemma {:induction false} RowsPlace<T(!new)>(ref: Reference, grid: Grid, buckets: map<string, Bucket>,
                                              compute: (string, string, seq<Observation>) -> T, reporters: seq<string>,
                                              i: nat, j: nat)
    requires i < |reporters| && j < |grid.products|
    ensures i * |grid.products| + j < |RowsOf(ref, grid, buckets, compute, reporters)|
    ensures RowsOf(ref, grid, buckets, compute, reporters)[i * |grid.products| + j]
            == OfProduct(ref, grid, buckets, compute, reporters[i])(grid.products[j])
  {
    var init := reporters[..|reporters| - 1];
    RowsSize(ref, grid, buckets, compute, reporters);
    RowsSize(ref, grid, buckets, compute, init);
    BlockBound(i, j, |reporters|, |grid.products|);
    if i < |init| {
      BlockBound(i, j, |init|, |grid.products|);
      RowsPlace(ref, grid, buckets, compute, init, i, j);
    }
  }

  /** A row for each reporter and each product of the grid, in order, and no other. */
  lemma {:induction false} MomentumRowsMean<T(!new)>(ref: Reference, grid: Grid, rows: seq<SourceRow>,
                                                     compute: (string, string, seq<Observation>) -> T, i: nat, j: nat)
    requires PlainReference(ref) && NoBarsInGrid(grid) && i < |grid.reporters| && j < |grid.products|
    ensures var built := RowsOf(ref, grid, BucketsOf(ref, rows), compute, grid.reporters);
            |built| == |grid.reporters| * |grid.products| && RowAtSays(ref, grid, rows, compute, built, i, j)
  {
    var buckets := BucketsOf(ref, rows);
    RowsSize(ref, grid, buckets, compute, grid.reporters);
    RowsPlace(ref, grid, buckets, compute, grid.reporters, i, j);
    HistoryMeans(ref, grid, rows, grid.reporters[i], grid.products[j]);
  }
}
