/**
  The check of a finished index, scripts/release/opportunity-index.ts: keys occur once, and for each
  exporter the persisted, the reported and the independently counted rows agree.
*/
module OpportunityReconcile {
  import opened Common
  import opened OpportunityEvidence
  import opened EvidenceMeaning
  import opened OpportunityIndex

  datatype ReconcileError = RowUniquenessViolated | CohortIncomplete(exporter: int)

  ghost predicate SameKey(a: IndexRow, b: IndexRow) {
    a.exporter == b.exporter && a.candidate.key == b.candidate.key
  }

  ghost predicate UniqueKeys(index: seq<IndexRow>) {
    forall i, j :: 0 <= i < j < |index| ==> !SameKey(index[i], index[j])
  }

  function CountExporter(index: seq<IndexRow>, exporter: int): nat {
    if index == [] then 0
    else
      CountExporter(index[..|index| - 1], exporter) + if index[|index| - 1].exporter == exporter then 1 else 0
  }

  /** The pairs of product and importer with a market row in the score window, without self-imports. */
  function EligiblePairs(tables: Tables, scoreWindow: Window, exporter: int): set<MarketKey> {
    set r | r in tables.marketYear && scoreWindow.start <= r.year <= scoreWindow.end && r.key.importer != exporter :: r.key
  }

  function Reported(counts: map<int, nat>, exporter: int): nat {
    if exporter in counts then counts[exporter] else 0
  }

  ghost predicate Agrees(tables: Tables, scoreWindow: Window, index: seq<IndexRow>, counts: map<int, nat>, exporter: int) {
    |EligiblePairs(tables, scoreWindow, exporter)| == CountExporter(index, exporter) == Reported(counts, exporter)
  }

  /** `GROUP BY exporter_code`, `COUNT(*)`. */
  method CountByExporter(index: seq<IndexRow>) returns (persisted: map<int, nat>)
    ensures forall e :: Reported(persisted, e) == CountExporter(index, e)
  {
    persisted := map[];
    for n := 0 to |index|
      invariant forall e :: Reported(persisted, e) == CountExporter(index[..n], e)
    {
      TakeNext(index, n);
      persisted := persisted[index[n].exporter := Reported(persisted, index[n].exporter) + 1];
    }
    TakeAll(index);
  }

  method HasDuplicateKeys(index: seq<IndexRow>) returns (duplicate: bool)
    ensures duplicate <==> !UniqueKeys(index)
  {
    var seen: set<(int, MarketKey)> := {};
    for n := 0 to |index|
      invariant UniqueKeys(index[..n])
      invariant forall e, k ::
                  (e, k) in seen <==> exists i :: 0 <= i < n && index[i].exporter == e && index[i].candidate.key == k
    {
      var row := index[n];
      if (row.exporter, row.candidate.key) in seen {
        var i :| 0 <= i < n && index[i].exporter == row.exporter && index[i].candidate.key == row.candidate.key;
        assert SameKey(index[i], index[n]);
        return true;
      }
      seen := seen + {(row.exporter, row.candidate.key)};
    }
    TakeAll(index);
    return false;
  }

  /** The check accepts exactly when keys are unique and all three counts agree for every exporter. */
  method ReconcileIndex(tables: Tables, scoreWindow: Window, index: seq<IndexRow>, exporters: seq<int>,
                        counts: map<int, nat>)
    returns (error: Option<ReconcileError>)
    ensures error.None?
            <==> UniqueKeys(index) && forall e :: e in exporters ==> Agrees(tables, scoreWindow, index, counts, e)
    ensures error == Some(RowUniquenessViolated) <==> !UniqueKeys(index)
    ensures error.Some? && error.value.CohortIncomplete? ==>
              error.value.exporter in exporters && !Agrees(tables, scoreWindow, index, counts, error.value.exporter)
  {
    var duplicate := HasDuplicateKeys(index);
    if duplicate {
      return Some(RowUniquenessViolated);
    }
    var persistedByExporter := CountByExporter(index);
    for n := 0 to |exporters|
      invariant forall k :: 0 <= k < n ==> Agrees(tables, scoreWindow, index, counts, exporters[k])
    {
      var eligibleCount := |EligiblePairs(tables, scoreWindow, exporters[n])|;
      var persisted := Reported(persistedByExporter, exporters[n]);
      if eligibleCount != persisted || persisted != Reported(counts, exporters[n]) {
        assert exporters[n] in exporters && !Agrees(tables, scoreWindow, index, counts, exporters[n]);
        return Some(CohortIncomplete(exporters[n]));
      }
    }
    return None;
  }

  // ---------- What the check means for an index that was built ----------

  ghost predicate DistinctCandidates(candidates: seq<Candidate>) {
    forall i, j :: 0 <= i < j < |candidates| ==> candidates[i].key != candidates[j].key
  }

  lemma {:induction false} CountConcat(left: seq<IndexRow>, right: seq<IndexRow>, exporter: int)
    ensures CountExporter(left + right, exporter) == CountExporter(left, exporter) + CountExporter(right, exporter)
  {
    if right == [] {
      assert left + right == left;
    } else {
      assert (left + right)[..|left + right| - 1] == left + right[..|right| - 1];
      CountConcat(left, right[..|right| - 1], exporter);
    }
  }

  lemma {:induction false} CountRowsOf(of: int, candidates: seq<Candidate>, exporter: int)
    ensures CountExporter(RowsOf(of, candidates), exporter) == if of == exporter then |candidates| else 0
  {
    if candidates != [] {
      var init := candidates[..|candidates| - 1];
      CountRowsOf(of, init, exporter);
      assert RowsOf(of, candidates)[..|candidates| - 1] == RowsOf(of, init);
    }
  }

  lemma {:induction false} IndexCounts(tables: Tables, w: Window, cohort: (int, Evidence) -> seq<Candidate>,
                                       exporters: seq<int>, exporter: int)
    requires Distinct(exporters)
    ensures CountExporter(IndexOf(tables, w, cohort, exporters), exporter)
            == if exporter in exporters then |CohortOf(tables, w, cohort, exporter)| else 0
  {
    if exporters != [] {
      var init, last := exporters[..|exporters| - 1], exporters[|exporters| - 1];
      IndexCounts(tables, w, cohort, init, exporter);
      CountConcat(IndexOf(tables, w, cohort, init), RowsOf(last, CohortOf(tables, w, cohort, last)), exporter);
      CountRowsOf(last, CohortOf(tables, w, cohort, last), exporter);
      assert exporters == init + [last];
      assert last !in init;
    }
  }

  lemma {:induction false} IndexExporters(tables: Tables, w: Window, cohort: (int, Evidence) -> seq<Candidate>,
                                          exporters: seq<int>)
    ensures forall r :: r in IndexOf(tables, w, cohort, exporters) ==> r.exporter in exporters
  {
    if exporters != [] {
      IndexExporters(tables, w, cohort, exporters[..|exporters| - 1]);
    }
  }

  lemma UniqueConcat(left: seq<IndexRow>, right: seq<IndexRow>)
    requires forall l, r :: l in left && r in right ==> l.exporter != r.exporter
    ensures UniqueKeys(left + right) <==> UniqueKeys(left) && UniqueKeys(right)
  {
    var all := left + right;
    assert forall i :: 0 <= i < |left| ==> all[i] == left[i];
    assert forall j :: 0 <= j < |right| ==> all[|left| + j] == right[j];
    if UniqueKeys(all) {
      forall i, j | 0 <= i < j < |right|
        ensures !SameKey(right[i], right[j])
      {
        assert !SameKey(all[|left| + i], all[|left| + j]);
      }
    }
    if UniqueKeys(left) && UniqueKeys(right) {
      forall i, j | 0 <= i < j < |all|
        ensures !SameKey(all[i], all[j])
      {
        if i >= |left| {
          assert all[i] == right[i - |left|] && all[j] == right[j - |left|];
        } else if j >= |left| {
          assert all[i] in left && all[j] == right[j - |left|] && all[j] in right;
        }
      }
    }
  }

  lemma {:induction false} IndexUnique(tables: Tables, w: Window, cohort: (int, Evidence) -> seq<Candidate>,
                                       exporters: seq<int>)
    requires Distinct(exporters)
    ensures UniqueKeys(IndexOf(tables, w, cohort, exporters))
            <==> forall e :: e in exporters ==> DistinctCandidates(CohortOf(tables, w, cohort, e))
  {
    if exporters != [] {
      var init, last := exporters[..|exporters| - 1], exporters[|exporters| - 1];
      var rows := RowsOf(last, CohortOf(tables, w, cohort, last));
      IndexUnique(tables, w, cohort, init);
      IndexExporters(tables, w, cohort, init);
      assert last !in init;
      UniqueConcat(IndexOf(tables, w, cohort, init), rows);
      assert forall e :: e in exporters <==> e in init || e == last;
      UniqueRows(last, CohortOf(tables, w, cohort, last));
    }
  }

  lemma UniqueRows(exporter: int, candidates: seq<Candidate>)
    ensures UniqueKeys(RowsOf(exporter, candidates)) <==> DistinctCandidates(candidates)
  {
    var rows := RowsOf(exporter, candidates);
    if UniqueKeys(rows) {
      forall i, j | 0 <= i < j < |candidates|
        ensures candidates[i].key != candidates[j].key
      {
        assert !SameKey(rows[i], rows[j]);
      }
    }
  }

  /**
    For a list of distinct exporters, a built index passes the check exactly when each cohort, computed
    from a fresh load, has distinct keys and as many rows as there are eligible pairs. The persisted and
    the reported counts cannot disagree.
  */
  lemma {:induction false} BuiltIndexPassesIff(tables: Tables, w: Window, scoreWindow: Window,
                                               cohort: (int, Evidence) -> seq<Candidate>,
                            exporters: seq<int>, handedOver: seq<Evidence>, index: seq<IndexRow>, counts: map<int, nat>,
                            total: nat)
    requires Produced(tables, w, cohort, exporters, handedOver, index, counts, total) && Distinct(exporters)
    ensures (UniqueKeys(index) && forall e :: e in exporters ==> Agrees(tables, scoreWindow, index, counts, e))
            <==> forall e :: e in exporters ==>
                   && DistinctCandidates(CohortOf(tables, w, cohort, e))
                   && |CohortOf(tables, w, cohort, e)| == |EligiblePairs(tables, scoreWindow, e)|
    ensures forall e :: e in exporters ==> CountExporter(index, e) == Reported(counts, e)
  {
    IndexUnique(tables, w, cohort, exporters);
    forall e | e in exporters
      ensures CountExporter(index, e) == |CohortOf(tables, w, cohort, e)| == Reported(counts, e)
    {
      IndexCounts(tables, w, cohort, exporters, e);
    }
  }

  /**
    The independent count is that of the evidence: with a score window inside the window of the evidence, a
    market of known names is eligible exactly when it is not the exporter's own and the evidence has a year of
    it in the score window.
  */
  lemma {:induction false} EligibleIffInEvidence(rows: seq<MarketYearRow>, tables: Tables, w: Window, scoreWindow: Window,
                                                 exporter: int, key: MarketKey)
    requires rows == tables.marketYear && w.start <= scoreWindow.start && scoreWindow.end <= w.end
    ensures key in EligiblePairs(tables, scoreWindow, exporter)
            <==> key.importer != exporter && exists y :: y in UniverseYears(rows, w, key) && InWindow(scoreWindow, y.year)
  {
    YearsAreRows(rows, w, key);
    if key in EligiblePairs(tables, scoreWindow, exporter) {
      var r :| r in rows && scoreWindow.start <= r.year <= scoreWindow.end && r.key == key;
      assert YearValue(r.year, r.world) in UniverseYears(rows, w, key);
    }
  }

  lemma {:induction false} YearsAreRows(rows: seq<MarketYearRow>, w: Window, key: MarketKey)
    ensures forall r :: r in rows && r.key == key && InWindow(w, r.year) ==>
              YearValue(r.year, r.world) in UniverseYears(rows, w, key)
    ensures forall y :: y in UniverseYears(rows, w, key) ==>
              exists r :: r in rows && r.key == key && r.year == y.year && r.world == y.value
  {
    if rows != [] {
      var init, last := rows[..|rows| - 1], rows[|rows| - 1];
      assert rows == init + [last];
      YearsAreRows(init, w, key);
    }
  }
}
