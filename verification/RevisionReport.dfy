/**
  The loops of the revision report, scripts/release/recent-trade-momentum-package.ts: over the current
  rows, over the previous rows, and over the momentum rows.
*/
module RevisionReport {
  import opened Common
  import opened Momentum
  import opened MomentumRows
  import opened Revision
  import opened VintageDiff

  // ---------- What is recorded ----------

  /** The months, reporters and products of the rows that differ. */
  datatype Affected = Affected(periods: set<string>, reporters: set<string>, products: set<string>)

  const NOTHING_AFFECTED := Affected({}, {}, {})

  function Record(affected: Affected, row: StagedRow): Affected {
    Affected(affected.periods + {row.row.referenceMonth},
             affected.reporters + (if row.reporterIso2.Some? then {row.reporterIso2.value} else {}),
             affected.products + (if row.hs12Code.Some? then {row.hs12Code.value} else {}))
  }

  /** What some rows affect. */
  ghost function AffectedBy(rows: set<StagedRow>): Affected {
    Affected(set r | r in rows :: r.row.referenceMonth,
             set r | r in rows && r.reporterIso2.Some? :: r.reporterIso2.value,
             set r | r in rows && r.hs12Code.Some? :: r.hs12Code.value)
  }

  lemma RecordsOneMore(rows: set<StagedRow>, more: set<StagedRow>, row: StagedRow)
    requires forall r :: r in more <==> r in rows || r == row
    ensures AffectedBy(more) == Record(AffectedBy(rows), row)
  {
    assert AffectedBy(more).periods == Record(AffectedBy(rows), row).periods;
    assert AffectedBy(more).reporters == Record(AffectedBy(rows), row).reporters;
    assert AffectedBy(more).products == Record(AffectedBy(rows), row).products;
  }

  lemma RecordTwice(affected: Affected, row: StagedRow)
    ensures Record(Record(affected, row), row) == Record(affected, row)
  {
  }

  // ---------- One current row ----------

  /** What the loops keep: the counts, the delta, and what is affected. */
  datatype Progress = Progress(counts: Counts, delta: int, affected: Affected)

  const NO_PROGRESS := Progress(Counts(0, 0, 0, 0, 0), 0, NOTHING_AFFECTED)

  predicate Differs(previous: Option<StagedRow>, current: StagedRow) {
    previous.None? || current.row.valueEur != previous.value.row.valueEur
    || current.row.updateState != previous.value.row.updateState
  }

  function CountRow(previous: Option<StagedRow>, current: StagedRow, counts: Counts): Counts {
    if previous.None? then counts.(inserted := counts.inserted + 1)
    else
      var value := current.row.valueEur != previous.value.row.valueEur;
      var state := current.row.updateState != previous.value.row.updateState;
      counts.(valueChanged := counts.valueChanged + if value then 1 else 0,
              stateChanged := counts.stateChanged + if state then 1 else 0,
              untouched := counts.untouched + if value || state then 0 else 1)
  }

  function DeltaOfRow(previous: Option<StagedRow>, current: StagedRow): int {
    if previous.None? then current.row.valueEur else Abs(current.row.valueEur - previous.value.row.valueEur)
  }

  /** A turn of the first loop. A row under the same key has the same special code, so that part of the test is idle. */
  method CompareCurrentRow(previous: Option<StagedRow>, current: StagedRow, progress: Progress) returns (next: Progress)
    requires previous.Some? ==> previous.value.row.sourceSpecialCode == current.row.sourceSpecialCode
    ensures next.counts == CountRow(previous, current, progress.counts)
    ensures next.delta == progress.delta + DeltaOfRow(previous, current)
    ensures next.affected == if Differs(previous, current) then Record(progress.affected, current) else progress.affected
  {
    var counts, delta, affected := progress.counts, progress.delta, progress.affected;
    if previous.None? {
      return Progress(counts.(inserted := counts.inserted + 1), delta + current.row.valueEur, Record(affected, current));
    }
    var changed := false;
    if current.row.valueEur != previous.value.row.valueEur {
      counts := counts.(valueChanged := counts.valueChanged + 1);
      changed := true;
      affected := Record(affected, current);
      delta := delta + Abs(current.row.valueEur - previous.value.row.valueEur);
    }
    if current.row.updateState != previous.value.row.updateState
       || current.row.sourceSpecialCode != previous.value.row.sourceSpecialCode {
      counts := counts.(stateChanged := counts.stateChanged + 1);
      changed := true;
      RecordTwice(progress.affected, current);
      affected := Record(affected, current);
    }
    if !changed {
      counts := counts.(untouched := counts.untouched + 1);
    }
    return Progress(counts, delta, affected);
  }

  // ---------- The rows that differ ----------

  /** The current rows, of some keys, that are new or differ from the previous ones. */
  ghost function NewOrDifferent(previous: Rows, current: Rows, now: set<string>): set<StagedRow> {
    set key | key in now && key in current && Differs(Find(previous, key), current[key]) :: current[key]
  }

  /** The previous rows, of some keys, that are gone. */
  ghost function Gone(previous: Rows, current: Rows, before: set<string>): set<StagedRow> {
    set key | key in before && key in previous && key !in current :: previous[key]
  }

  ghost function Tallied(previous: Rows, current: Rows, now: set<string>, before: set<string>): Progress {
    Progress(CountsOf(Compared(previous), Compared(current), now, before),
             DeltaSoFar(Compared(previous), Compared(current), now, before),
             AffectedBy(NewOrDifferent(previous, current, now) + Gone(previous, current, before)))
  }

  lemma NothingTallied(previous: Rows, current: Rows)
    ensures Tallied(previous, current, {}, {}) == NO_PROGRESS
  {
    var rows := NewOrDifferent(previous, current, {}) + Gone(previous, current, {});
    assert rows == {};
    assert AffectedBy(rows).periods == {} && AffectedBy(rows).reporters == {} && AffectedBy(rows).products == {};
  }

  /** What is compared, key by key. */
  lemma ComparedAt(byKey: Rows, key: string)
    ensures key in Compared(byKey) <==> key in byKey
    ensures key in byKey ==> Compared(byKey)[key] == EntryOf(byKey[key])
  {
  }

  lemma CurrentCounts(previous: Rows, current: Rows, now: set<string>, key: string)
    requires key in current && key !in now
    ensures CountsOf(Compared(previous), Compared(current), now + {key}, {})
            == CountRow(Find(previous, key), current[key], CountsOf(Compared(previous), Compared(current), now, {}))
  {
    ComparedAt(previous, key);
    ComparedAt(current, key);
    var p, c := Compared(previous), Compared(current);
    CountsNext(p, c, now, key);
  }

  /** The same on what is compared. */
  lemma CountsNext(previous: Vintage<string, UpdateState>, current: Vintage<string, UpdateState>, now: set<string>,
                   key: string)
    requires key in current && key !in now
    ensures CountsOf(previous, current, now + {key}, {})
            == var was := CountsOf(previous, current, now, {});
               if key !in previous then was.(inserted := was.inserted + 1)
               else
                 var value := current[key].value != previous[key].value;
                 var state := current[key].state != previous[key].state;
                 was.(valueChanged := was.valueChanged + if value then 1 else 0,
                      stateChanged := was.stateChanged + if state then 1 else 0,
                      untouched := was.untouched + if value || state then 0 else 1)
  {
    CurrentKeyCounts(previous, current, now, key);
  }

  lemma CurrentDelta(previous: Rows, current: Rows, now: set<string>, key: string)
    requires key in current && key !in now
    ensures DeltaSoFar(Compared(previous), Compared(current), now + {key}, {})
            == DeltaSoFar(Compared(previous), Compared(current), now, {}) + DeltaOfRow(Find(previous, key), current[key])
  {
    ComparedAt(previous, key);
    ComparedAt(current, key);
    CurrentKeyDelta(Compared(previous), Compared(current), now, key);
  }

  lemma CurrentAffected(previous: Rows, current: Rows, now: set<string>, key: string)
    requires key in current && key !in now
    ensures var was := AffectedBy(NewOrDifferent(previous, current, now) + Gone(previous, current, {}));
            AffectedBy(NewOrDifferent(previous, current, now + {key}) + Gone(previous, current, {}))
            == if Differs(Find(previous, key), current[key]) then Record(was, current[key]) else was
  {
    var rows := NewOrDifferent(previous, current, now) + Gone(previous, current, {});
    var more := NewOrDifferent(previous, current, now + {key}) + Gone(previous, current, {});
    if Differs(Find(previous, key), current[key]) {
      RecordsOneMore(rows, more, current[key]);
    } else {
      assert more == rows;
    }
  }

  lemma PreviousAffected(previous: Rows, current: Rows, now: set<string>, before: set<string>, key: string)
    requires key in previous && key !in before
    ensures var was := AffectedBy(NewOrDifferent(previous, current, now) + Gone(previous, current, before));
            AffectedBy(NewOrDifferent(previous, current, now) + Gone(previous, current, before + {key}))
            == if key !in current then Record(was, previous[key]) else was
  {
    var rows := NewOrDifferent(previous, current, now) + Gone(previous, current, before);
    var more := NewOrDifferent(previous, current, now) + Gone(previous, current, before + {key});
    if key !in current {
      RecordsOneMore(rows, more, previous[key]);
    } else {
      assert more == rows;
    }
  }

  // ---------- The loops ----------

  lemma ElementsNext(keys: seq<string>, key: string)
    ensures Elements(keys + [key]) == Elements(keys) + {key}
    ensures Distinct(keys) && key !in Elements(keys) ==> Distinct(keys + [key])
  {
  }

  method IndexByKey(rows: seq<StagedRow>) returns (keys: seq<string>, byKey: Rows)
    ensures byKey == ByKey(rows) && Distinct(keys) && Elements(keys) == byKey.Keys
  {
    keys, byKey := [], map[];
    for n := 0 to |rows|
      invariant byKey == ByKey(rows[..n]) && Distinct(keys) && Elements(keys) == byKey.Keys
    {
      TakeNext(rows, n);
      var key := RevisionKey(rows[n].row);
      if key !in byKey {
        ElementsNext(keys, key);
        keys := keys + [key];
      }
      byKey := byKey[key := rows[n]];
    }
    TakeAll(rows);
  }

  /** The keys looked at so far, and the next one. */
  lemma NextKey(keys: seq<string>, n: nat)
    requires n < |keys| && Distinct(keys)
    ensures Elements(keys[..n + 1]) == Elements(keys[..n]) + {keys[n]} && keys[n] !in Elements(keys[..n])
    ensures keys[n] in Elements(keys)
  {
    TakeNext(keys, n);
  }

  lemma NoKeys(keys: seq<string>)
    ensures Elements(keys[..0]) == {}
  {
  }

  lemma CurrentRowTallied(previous: Rows, current: Rows, now: set<string>, key: string, was: Progress, next: Progress)
    requires key in current && key !in now && was == Tallied(previous, current, now, {})
    requires next.counts == CountRow(Find(previous, key), current[key], was.counts)
    requires next.delta == was.delta + DeltaOfRow(Find(previous, key), current[key])
    requires next.affected
             == if Differs(Find(previous, key), current[key]) then Record(was.affected, current[key]) else was.affected
    ensures next == Tallied(previous, current, now + {key}, {})
  {
    CurrentCounts(previous, current, now, key);
    CurrentDelta(previous, current, now, key);
    CurrentAffected(previous, current, now, key);
  }

  method CompareCurrentRows(keys: seq<string>, previousByKey: Rows, currentByKey: Rows) returns (progress: Progress)
    requires Distinct(keys) && Elements(keys) == currentByKey.Keys
    requires WellKeyed(previousByKey) && WellKeyed(currentByKey)
    ensures progress == Tallied(previousByKey, currentByKey, currentByKey.Keys, {})
  {
    progress := NO_PROGRESS;
    NothingTallied(previousByKey, currentByKey);
    for n := 0 to |keys|
      invariant progress == Tallied(previousByKey, currentByKey, Elements(keys[..n]), {})
    {
      NextKey(keys, n);
      var key := keys[n];
      var previous := Find(previousByKey, key);
      if previous.Some? {
        SpecialNeverChanges(previousByKey, currentByKey, key);
      }
      var next := CompareCurrentRow(previous, currentByKey[key], progress);
      CurrentRowTallied(previousByKey, currentByKey, Elements(keys[..n]), key, progress, next);
      progress := next;
    }
    TakeAll(keys);
  }

  lemma PreviousRowTallied(previous: Rows, current: Rows, before: set<string>, key: string, was: Progress, next: Progress)
    requires key in previous && key !in before && was == Tallied(previous, current, current.Keys, before)
    requires next.counts == was.counts.(deleted := was.counts.deleted + if key !in current then 1 else 0)
    requires next.delta == was.delta + if key !in current then previous[key].row.valueEur else 0
    requires next.affected == if key !in current then Record(was.affected, previous[key]) else was.affected
    ensures next == Tallied(previous, current, current.Keys, before + {key})
  {
    ComparedAt(previous, key);
    ComparedAt(current, key);
    PreviousKeyCounts(Compared(previous), Compared(current), current.Keys, before, key);
    PreviousKeyDelta(Compared(previous), Compared(current), current.Keys, before, key);
    PreviousAffected(previous, current, current.Keys, before, key);
  }

  /** A turn of the second loop. */
  method ComparePreviousRow(previousByKey: Rows, currentByKey: Rows, key: string, ghost before: set<string>,
                            progress: Progress)
    returns (next: Progress)
    requires key in previousByKey && key !in before
    requires progress == Tallied(previousByKey, currentByKey, currentByKey.Keys, before)
    ensures next == Tallied(previousByKey, currentByKey, currentByKey.Keys, before + {key})
  {
    next := progress;
    if key !in currentByKey {
      var counts, previous := progress.counts, previousByKey[key];
      next := Progress(counts.(deleted := counts.deleted + 1), progress.delta + previous.row.valueEur,
                       Record(progress.affected, previous));
    }
    PreviousRowTallied(previousByKey, currentByKey, before, key, progress, next);
  }

  method ComparePreviousRows(keys: seq<string>, previousByKey: Rows, currentByKey: Rows, soFar: Progress)
    returns (progress: Progress)
    requires Distinct(keys) && Elements(keys) == previousByKey.Keys
    requires soFar == Tallied(previousByKey, currentByKey, currentByKey.Keys, {})
    ensures progress == Tallied(previousByKey, currentByKey, currentByKey.Keys, previousByKey.Keys)
  {
    progress := soFar;
    NoKeys(keys);
    for n := 0 to |keys|
      invariant progress == Tallied(previousByKey, currentByKey, currentByKey.Keys, Elements(keys[..n]))
    {
      NextKey(keys, n);
      progress := ComparePreviousRow(previousByKey, currentByKey, keys[n], Elements(keys[..n]), progress);
    }
    TakeAll(keys);
  }

  // ---------- Momentum rows ----------

  /** What is compared of a momentum outcome. */
  datatype Signal = Signal(
    recentValueEur: Option<string>, baselineValueEur: Option<string>, growthRateDecimal: Option<string>,
    coverageState: string, signalState: string)

  datatype MomentumCounts = MomentumCounts(valueChanged: nat, stateChanged: nat)

  function MomentumKey(r: MomentumRow<Signal>): string {
    r.reporterIso2 + "|" + r.hs12Code
  }

  function MomentumKeys(rows: seq<MomentumRow<Signal>>): seq<string> {
    seq(|rows|, k requires 0 <= k < |rows| => MomentumKey(rows[k]))
  }

  /** Momentum rows have the same key exactly when they are of the same reporter and product. */
  lemma MomentumKeyIff(a: MomentumRow<Signal>, b: MomentumRow<Signal>)
    requires NoBar(a.hs12Code) && NoBar(b.hs12Code)
    ensures MomentumKey(a) == MomentumKey(b) <==> a.reporterIso2 == b.reporterIso2 && a.hs12Code == b.hs12Code
  {
    if MomentumKey(a) == MomentumKey(b) {
      LastFieldIsUnique(a.reporterIso2, a.hs12Code, b.reporterIso2, b.hs12Code);
    }
  }

  type Signals = map<string, Signal>

  function SignalsOf(rows: seq<MomentumRow<Signal>>): Signals {
    if rows == [] then map[]
    else SignalsOf(rows[..|rows| - 1])[MomentumKey(rows[|rows| - 1]) := rows[|rows| - 1].outcome]
  }

  predicate OtherValue(previous: Signals, key: string, signal: Signal) {
    && key in previous
    && (|| signal.recentValueEur != previous[key].recentValueEur
        || signal.baselineValueEur != previous[key].baselineValueEur
        || signal.growthRateDecimal != previous[key].growthRateDecimal)
  }

  predicate OtherState(previous: Signals, key: string, signal: Signal) {
    && key in previous
    && (signal.coverageState != previous[key].coverageState || signal.signalState != previous[key].signalState)
  }

  /** The current rows that have a previous one and differ from it. */
  ghost function CountMomentum(previous: Signals, rows: seq<MomentumRow<Signal>>): MomentumCounts {
    if rows == [] then MomentumCounts(0, 0)
    else
      var before, last := CountMomentum(previous, rows[..|rows| - 1]), rows[|rows| - 1];
      MomentumCounts(before.valueChanged + (if OtherValue(previous, MomentumKey(last), last.outcome) then 1 else 0),
                     before.stateChanged + (if OtherState(previous, MomentumKey(last), last.outcome) then 1 else 0))
  }

  method CompareMomentumRows(previousRows: seq<MomentumRow<Signal>>, rows: seq<MomentumRow<Signal>>)
    returns (counts: MomentumCounts)
    ensures counts == CountMomentum(SignalsOf(previousRows), rows)
  {
    var previous := SignalsOf(previousRows);
    var valueChanged, stateChanged := 0, 0;
    for n := 0 to |rows|
      invariant MomentumCounts(valueChanged, stateChanged) == CountMomentum(previous, rows[..n])
    {
      TakeNext(rows, n);
      var key, signal := MomentumKey(rows[n]), rows[n].outcome;
      if key in previous {
        if OtherValue(previous, key, signal) {
          valueChanged := valueChanged + 1;
        }
        if OtherState(previous, key, signal) {
          stateChanged := stateChanged + 1;
        }
      }
    }
    TakeAll(rows);
    counts := MomentumCounts(valueChanged, stateChanged);
  }

  /** The keys under which both have a signal, with another value, or in another state. */
  ghost function ValueKeys(previous: Signals, current: Signals): set<string> {
    set key | key in current && OtherValue(previous, key, current[key])
  }

  ghost function StateKeys(previous: Signals, current: Signals): set<string> {
    set key | key in current && OtherState(previous, key, current[key])
  }

  lemma {:induction false} SignalKeys(rows: seq<MomentumRow<Signal>>)
    ensures SignalsOf(rows).Keys == Elements(MomentumKeys(rows))
  {
    if rows != [] {
      var init, last := rows[..|rows| - 1], rows[|rows| - 1];
      SignalKeys(init);
      assert MomentumKeys(rows) == MomentumKeys(init) + [MomentumKey(last)];
    }
  }

  lemma LastKeyIsNew(rows: seq<MomentumRow<Signal>>)
    requires rows != [] && Distinct(MomentumKeys(rows))
    ensures Distinct(MomentumKeys(rows[..|rows| - 1]))
    ensures MomentumKey(rows[|rows| - 1]) !in SignalsOf(rows[..|rows| - 1])
  {
    var init, keys := rows[..|rows| - 1], MomentumKeys(rows);
    assert forall k :: 0 <= k < |init| ==> MomentumKeys(init)[k] == keys[k];
    SignalKeys(init);
    assert keys[|init|] == MomentumKey(rows[|init|]);
  }

  /** With one row for each reporter and product the loop counts keys. */
  lemma {:induction false} CountsKeys(previous: Signals, rows: seq<MomentumRow<Signal>>)
    requires Distinct(MomentumKeys(rows))
    ensures CountMomentum(previous, rows)
            == MomentumCounts(|ValueKeys(previous, SignalsOf(rows))|, |StateKeys(previous, SignalsOf(rows))|)
  {
    if rows != [] {
      var init, last := rows[..|rows| - 1], rows[|rows| - 1];
      LastKeyIsNew(rows);
      CountsKeys(previous, init);
      SizeGrows(ValueKeys(previous, SignalsOf(init)), ValueKeys(previous, SignalsOf(rows)), MomentumKey(last),
                OtherValue(previous, MomentumKey(last), last.outcome));
      SizeGrows(StateKeys(previous, SignalsOf(init)), StateKeys(previous, SignalsOf(rows)), MomentumKey(last),
                OtherState(previous, MomentumKey(last), last.outcome));
    }
  }

  /** Reading the momentum rows the other way round gives the same counts. */
  lemma {:induction false} SwappedMomentum(a: seq<MomentumRow<Signal>>, b: seq<MomentumRow<Signal>>)
    requires Distinct(MomentumKeys(a)) && Distinct(MomentumKeys(b))
    ensures CountMomentum(SignalsOf(a), b) == CountMomentum(SignalsOf(b), a)
  {
    CountsKeys(SignalsOf(a), b);
    CountsKeys(SignalsOf(b), a);
    assert ValueKeys(SignalsOf(a), SignalsOf(b)) == ValueKeys(SignalsOf(b), SignalsOf(a));
    assert StateKeys(SignalsOf(a), SignalsOf(b)) == StateKeys(SignalsOf(b), SignalsOf(a));
  }

  /** Of a signal that was there before: each of the three values counts as a value, each of the two states as a state. */
  lemma FieldsCount(previous: Signals, key: string, value: Option<string>, state: string)
    requires key in previous
    ensures var was := previous[key];
            && (OtherValue(previous, key, was.(recentValueEur := value)) <==> value != was.recentValueEur)
            && (OtherValue(previous, key, was.(baselineValueEur := value)) <==> value != was.baselineValueEur)
            && (OtherValue(previous, key, was.(growthRateDecimal := value)) <==> value != was.growthRateDecimal)
            && !OtherValue(previous, key, was.(coverageState := state))
            && !OtherValue(previous, key, was.(signalState := state))
            && (OtherState(previous, key, was.(coverageState := state)) <==> state != was.coverageState)
            && (OtherState(previous, key, was.(signalState := state)) <==> state != was.signalState)
            && !OtherState(previous, key, was.(recentValueEur := value))
            && !OtherState(previous, key, was.(baselineValueEur := value))
            && !OtherState(previous, key, was.(growthRateDecimal := value))
  {
  }

  // ---------- The report ----------

  datatype FullReport = FullReport(sourceGrain: Report, momentum: MomentumCounts, affected: Affected)

  /** What a package holds of its rows. */
  datatype Package = Package(rows: seq<StagedRow>, momentumRows: seq<MomentumRow<Signal>>)

  /** The rows of either vintage that the other one lacks or contradicts; of a changed row, its current form. */
  ghost function AffectedRows(previous: Rows, current: Rows): set<StagedRow> {
    NewOrDifferent(previous, current, current.Keys) + Gone(previous, current, previous.Keys)
  }

  /** The report of a build: against the previous package, or a first one. */
  method BuildRevisionReport(previousPackage: Option<Package>, package: Package) returns (report: FullReport)
    ensures report == match previousPackage
                      case None =>
                        FullReport(Report(Counts(0, 0, 0, 0, |package.rows|), [], 0), MomentumCounts(0, 0), NOTHING_AFFECTED)
                      case Some(before) =>
                        FullReport(ReportOf(VintageOf(before.rows), VintageOf(package.rows)),
                                   CountMomentum(SignalsOf(before.momentumRows), package.momentumRows),
                                   AffectedBy(AffectedRows(ByKey(before.rows), ByKey(package.rows))))
  {
    if previousPackage.None? {
      return FullReport(Report(Counts(0, 0, 0, 0, |package.rows|), [], 0), MomentumCounts(0, 0), NOTHING_AFFECTED);
    }
    var before := previousPackage.value;
    var progress := CompareRows(before.rows, package.rows);
    Finished(ByKey(before.rows), ByKey(package.rows), progress);
    var momentum := CompareMomentumRows(before.momentumRows, package.momentumRows);
    report := FullReport(Report(progress.counts, EventsOf(progress.counts), progress.delta), momentum, progress.affected);
  }

  method CompareRows(before: seq<StagedRow>, rows: seq<StagedRow>) returns (progress: Progress)
    ensures progress == Tallied(ByKey(before), ByKey(rows), ByKey(rows).Keys, ByKey(before).Keys)
  {
    var previousKeys, previousByKey := IndexByKey(before);
    var currentKeys, currentByKey := IndexByKey(rows);
    ByKeyIsWellKeyed(before);
    ByKeyIsWellKeyed(rows);
    progress := CompareCurrentRows(currentKeys, previousByKey, currentByKey);
    progress := ComparePreviousRows(previousKeys, previousByKey, currentByKey, progress);
  }

  lemma Finished(previous: Rows, current: Rows, progress: Progress)
    requires progress == Tallied(previous, current, current.Keys, previous.Keys)
    ensures Report(progress.counts, EventsOf(progress.counts), progress.delta)
            == ReportOf(Compared(previous), Compared(current))
    ensures progress.affected == AffectedBy(AffectedRows(previous, current))
  {
    assert Compared(previous).Keys == previous.Keys && Compared(current).Keys == current.Keys;
    DeltaInTwoParts(Compared(previous), Compared(current));
  }

  /** No month is affected exactly when nothing is reported: both vintages agree. */
  lemma NothingAffectedIff(previous: Rows, current: Rows)
    ensures AffectedBy(AffectedRows(previous, current)).periods == {} <==> Agree(Compared(previous), Compared(current))
  {
    var rows := AffectedRows(previous, current);
    assert rows == {} <==> AffectedBy(rows).periods == {} by {
      if r :| r in rows {
        assert r.row.referenceMonth in AffectedBy(rows).periods;
      }
    }
    if rows == {} {
      NoRowNoDifference(previous, current);
    } else {
      DifferenceShows(previous, current);
    }
  }

  lemma NoRowNoDifference(previous: Rows, current: Rows)
    requires AffectedRows(previous, current) == {}
    ensures Agree(Compared(previous), Compared(current))
  {
    forall key
      ensures key in previous <==> key in current
      ensures !ValueChanged(Compared(previous), Compared(current), key)
      ensures !StateChanged(Compared(previous), Compared(current), key)
    {
      RowAtKey(previous, current, key);
    }
  }

  lemma RowAtKey(previous: Rows, current: Rows, key: string)
    ensures key in current && Differs(Find(previous, key), current[key]) ==> AffectedRows(previous, current) != {}
    ensures key in previous && key !in current ==> AffectedRows(previous, current) != {}
  {
    if key in current && Differs(Find(previous, key), current[key]) {
      assert current[key] in NewOrDifferent(previous, current, current.Keys);
    }
    if key in previous && key !in current {
      assert previous[key] in Gone(previous, current, previous.Keys);
    }
  }

  lemma DifferenceShows(previous: Rows, current: Rows)
    requires AffectedRows(previous, current) != {}
    ensures !Agree(Compared(previous), Compared(current))
  {
    var r :| r in AffectedRows(previous, current);
    if r in NewOrDifferent(previous, current, current.Keys) {
      var key :| key in current && Differs(Find(previous, key), current[key]) && current[key] == r;
      assert key in Compared(current);
      assert key !in Compared(previous) || ValueChanged(Compared(previous), Compared(current), key)
             || StateChanged(Compared(previous), Compared(current), key);
    } else {
      var key :| key in previous && key !in current && previous[key] == r;
      assert key in Compared(previous) && key !in Compared(current);
    }
  }
}
