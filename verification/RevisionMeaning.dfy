/**
  The revision report read off the rows of two vintages, scripts/release/recent-trade-momentum-package.ts:
  which rows are counted as what, what the delta adds up, and what is affected. Nothing here refers to keys.
*/
module RevisionMeaning {
  import opened Common
  import opened Momentum
  import opened VintageDiff
  import opened Revision
  import opened RevisionReport

  // ---------- Rows of the same kind ----------

  /** The same month, reporter, partner, nomenclature edition, code and special code. */
  ghost predicate SameRow(a: SourceRow, b: SourceRow) {
    && a.referenceMonth == b.referenceMonth && a.reporterSourceCode == b.reporterSourceCode
    && a.partnerSourceCode == b.partnerSourceCode && a.cnEditionYear == b.cnEditionYear && a.cn8Code == b.cn8Code
    && a.sourceSpecialCode == b.sourceSpecialCode
  }

  ghost predicate PlainSource(row: SourceRow) {
    NoBar(row.reporterSourceCode) && NoBar(row.partnerSourceCode) && NoBar(row.cn8Code)
  }

  ghost predicate PlainVintage(rows: seq<StagedRow>) {
    forall k :: 0 <= k < |rows| ==> PlainSource(rows[k].row)
  }

  /** Rows have the same key exactly when they are of the same kind. */
  lemma KeyIff(a: SourceRow, b: SourceRow)
    requires PlainSource(a) && PlainSource(b)
    ensures RevisionKey(a) == RevisionKey(b) <==> SameRow(a, b)
  {
    if RevisionKey(a) == RevisionKey(b) {
      RevisionKeyIsInjective(a, b);
    }
  }

  lemma {:induction false} RowAt(rows: seq<StagedRow>, k: nat)
    requires AreUniqueSourceRows(rows) && k < |rows|
    ensures RevisionKey(rows[k].row) in ByKey(rows) && ByKey(rows)[RevisionKey(rows[k].row)] == rows[k]
  {
    var init, last := rows[..|rows| - 1], rows[|rows| - 1];
    assert rows == init + [last];
    LastIsNew(init, last);
    if k < |init| {
      RowAt(init, k);
    }
  }

  lemma {:induction false} KeyOfSome(rows: seq<StagedRow>, key: string)
    requires key in ByKey(rows)
    ensures exists k :: 0 <= k < |rows| && RevisionKey(rows[k].row) == key
  {
    ByKeyIsWellKeyed(rows);
    var k :| 0 <= k < |RevisionKeys(rows)| && RevisionKeys(rows)[k] == key;
    assert RevisionKey(rows[k].row) == key;
  }

  /** A row of the vintage is of the same kind. */
  ghost predicate Has(rows: seq<StagedRow>, row: SourceRow) {
    exists k :: 0 <= k < |rows| && SameRow(row, rows[k].row)
  }

  lemma {:induction false} HasIff(rows: seq<StagedRow>, row: SourceRow)
    requires PlainVintage(rows) && PlainSource(row)
    ensures Has(rows, row) <==> RevisionKey(row) in ByKey(rows)
  {
    ByKeyIsWellKeyed(rows);
    if k :| 0 <= k < |rows| && SameRow(row, rows[k].row) {
      KeyIff(row, rows[k].row);
      assert RevisionKeys(rows)[k] == RevisionKey(row);
    }
    if RevisionKey(row) in ByKey(rows) {
      KeyOfSome(rows, RevisionKey(row));
      var k :| 0 <= k < |rows| && RevisionKey(rows[k].row) == RevisionKey(row);
      KeyIff(row, rows[k].row);
    }
  }

  /** The row of a vintage that is of the same kind. */
  ghost function Counterpart(rows: seq<StagedRow>, row: SourceRow): StagedRow
    requires Has(rows, row)
  {
    var k :| 0 <= k < |rows| && SameRow(row, rows[k].row);
    rows[k]
  }

  lemma {:induction false} CounterpartIs(rows: seq<StagedRow>, row: SourceRow)
    requires PlainVintage(rows) && PlainSource(row) && AreUniqueSourceRows(rows) && Has(rows, row)
    ensures RevisionKey(row) in ByKey(rows) && ByKey(rows)[RevisionKey(row)] == Counterpart(rows, row)
  {
    var k :| 0 <= k < |rows| && SameRow(row, rows[k].row) && rows[k] == Counterpart(rows, row);
    KeyIff(row, rows[k].row);
    RowAt(rows, k);
  }

  // ---------- What happened to a row ----------

  ghost predicate IsNew(before: seq<StagedRow>, row: SourceRow) {
    !Has(before, row)
  }

  ghost predicate ValueMoved(before: seq<StagedRow>, row: SourceRow) {
    Has(before, row) && Counterpart(before, row).row.valueEur != row.valueEur
  }

  ghost predicate StateMoved(before: seq<StagedRow>, row: SourceRow) {
    Has(before, row) && Counterpart(before, row).row.updateState != row.updateState
  }

  ghost predicate Stayed(before: seq<StagedRow>, row: SourceRow) {
    && Has(before, row) && Counterpart(before, row).row.valueEur == row.valueEur
    && Counterpart(before, row).row.updateState == row.updateState
  }

  ghost function Places(rows: seq<StagedRow>, other: seq<StagedRow>, what: (seq<StagedRow>, SourceRow) -> bool): set<int> {
    set k | 0 <= k < |rows| && what(other, rows[k].row)
  }

  /** Each row of both vintages is counted by what happened to it, once. */
  ghost predicate CountsSay(before: seq<StagedRow>, after: seq<StagedRow>, counts: Counts) {
    && counts.inserted == |Places(after, before, IsNew)|
    && counts.deleted == |Places(before, after, IsNew)|
    && counts.valueChanged == |Places(after, before, ValueMoved)|
    && counts.stateChanged == |Places(after, before, StateMoved)|
    && counts.untouched == |Places(after, before, Stayed)|
  }

  ghost function PlacesOfKeys(all: seq<string>, keys: set<string>, n: nat): set<int>
    requires n <= |all|
  {
    set k | 0 <= k < n && all[k] in keys
  }

  ghost function Within(all: seq<string>, keys: set<string>): set<string> {
    set key | key in Elements(all) && key in keys
  }

  lemma PlacesNext(all: seq<string>, keys: set<string>, n: nat)
    requires n < |all|
    ensures |PlacesOfKeys(all, keys, n + 1)| == |PlacesOfKeys(all, keys, n)| + if all[n] in keys then 1 else 0
  {
    assert PlacesOfKeys(all, keys, n + 1) == PlacesOfKeys(all, keys, n) + if all[n] in keys then {n} else {};
  }

  lemma WithinNext(before: seq<string>, key: string, keys: set<string>)
    requires key !in before
    ensures |Within(before + [key], keys)| == |Within(before, keys)| + if key in keys then 1 else 0
  {
    SizeGrows(Within(before, keys), Within(before + [key], keys), key, key in keys);
  }

  /** Of different keys as many are in a set as there are places of such keys. */
  lemma {:induction false} CountPlaces(all: seq<string>, keys: set<string>, n: nat)
    requires Distinct(all) && n <= |all|
    ensures |PlacesOfKeys(all, keys, n)| == |Within(all[..n], keys)|
  {
    if n > 0 {
      CountPlaces(all, keys, n - 1);
      TakeNext(all, n - 1);
      PlacesNext(all, keys, n - 1);
      assert forall k :: 0 <= k < n - 1 ==> all[k] != all[n - 1];
      WithinNext(all[..n - 1], all[n - 1], keys);
    } else {
      assert Within(all[..0], keys) == {} && PlacesOfKeys(all, keys, 0) == {};
    }
  }

  /** Keys of a vintage are counted by the places of their rows. */
  lemma KeysAtPlaces(rows: seq<StagedRow>, other: seq<StagedRow>, keys: set<string>,
                     what: (seq<StagedRow>, SourceRow) -> bool)
    requires AreUniqueSourceRows(rows) && forall key :: key in keys ==> key in VintageOf(rows)
    requires forall k :: 0 <= k < |rows| ==> (RevisionKey(rows[k].row) in keys <==> what(other, rows[k].row))
    ensures |keys| == |Places(rows, other, what)|
  {
    var all := RevisionKeys(rows);
    SetSizeIff(all);
    AllWithin(rows, keys);
    CountPlaces(all, keys, |rows|);
    TakeAll(all);
    assert PlacesOfKeys(all, keys, |rows|) == Places(rows, other, what);
  }

  lemma AllWithin(rows: seq<StagedRow>, keys: set<string>)
    requires forall key :: key in keys ==> key in VintageOf(rows)
    ensures Within(RevisionKeys(rows), keys) == keys
  {
    ByKeyIsWellKeyed(rows);
    assert VintageOf(rows).Keys == Elements(RevisionKeys(rows));
  }

  /** What is compared under the key of a row that has a counterpart. */
  lemma ComparedIs(rows: seq<StagedRow>, row: SourceRow)
    requires PlainVintage(rows) && PlainSource(row) && AreUniqueSourceRows(rows)
    ensures RevisionKey(row) in VintageOf(rows) <==> Has(rows, row)
    ensures Has(rows, row) ==>
              VintageOf(rows)[RevisionKey(row)]
              == Entry(Counterpart(rows, row).row.valueEur, Counterpart(rows, row).row.updateState)
  {
    HasIff(rows, row);
    ComparedAt(ByKey(rows), RevisionKey(row));
    if Has(rows, row) {
      CounterpartIs(rows, row);
    }
  }

  lemma OwnEntry(rows: seq<StagedRow>, k: nat)
    requires AreUniqueSourceRows(rows) && k < |rows|
    ensures RevisionKey(rows[k].row) in VintageOf(rows)
    ensures VintageOf(rows)[RevisionKey(rows[k].row)] == Entry(rows[k].row.valueEur, rows[k].row.updateState)
  {
    RowAt(rows, k);
    ComparedAt(ByKey(rows), RevisionKey(rows[k].row));
  }

  ghost predicate Comparable(before: seq<StagedRow>, after: seq<StagedRow>) {
    AreUniqueSourceRows(before) && AreUniqueSourceRows(after) && PlainVintage(before) && PlainVintage(after)
  }

  lemma PlaceIff(before: seq<StagedRow>, after: seq<StagedRow>, k: nat)
    requires Comparable(before, after) && k < |after|
    ensures var key, p, c := RevisionKey(after[k].row), VintageOf(before), VintageOf(after);
            && (key in Without(c.Keys, p) <==> IsNew(before, after[k].row))
            && (key in ValueChanges(p, c, c.Keys) <==> ValueMoved(before, after[k].row))
            && (key in StateChanges(p, c, c.Keys) <==> StateMoved(before, after[k].row))
            && (key in Unchanged(p, c, c.Keys) <==> Stayed(before, after[k].row))
  {
    OwnEntry(after, k);
    ComparedIs(before, after[k].row);
  }

  lemma InsertedMeans(before: seq<StagedRow>, after: seq<StagedRow>)
    requires Comparable(before, after)
    ensures var p, c := VintageOf(before), VintageOf(after);
            |Without(c.Keys, p)| == |Places(after, before, IsNew)|
  {
    var p, c := VintageOf(before), VintageOf(after);
    forall k | 0 <= k < |after|
      ensures RevisionKey(after[k].row) in Without(c.Keys, p) <==> IsNew(before, after[k].row)
    {
      PlaceIff(before, after, k);
    }
    KeysAtPlaces(after, before, Without(c.Keys, p), IsNew);
  }

  lemma DeletedMeans(before: seq<StagedRow>, after: seq<StagedRow>)
    requires Comparable(before, after)
    ensures var p, c := VintageOf(before), VintageOf(after);
            |Without(p.Keys, c)| == |Places(before, after, IsNew)|
  {
    var p, c := VintageOf(before), VintageOf(after);
    forall k | 0 <= k < |before|
      ensures RevisionKey(before[k].row) in Without(p.Keys, c) <==> IsNew(after, before[k].row)
    {
      PlaceIff(after, before, k);
    }
    KeysAtPlaces(before, after, Without(p.Keys, c), IsNew);
  }

  lemma ValuesMean(before: seq<StagedRow>, after: seq<StagedRow>)
    requires Comparable(before, after)
    ensures var p, c := VintageOf(before), VintageOf(after);
            |ValueChanges(p, c, c.Keys)| == |Places(after, before, ValueMoved)|
  {
    var p, c := VintageOf(before), VintageOf(after);
    forall k | 0 <= k < |after|
      ensures RevisionKey(after[k].row) in ValueChanges(p, c, c.Keys) <==> ValueMoved(before, after[k].row)
    {
      PlaceIff(before, after, k);
    }
    KeysAtPlaces(after, before, ValueChanges(p, c, c.Keys), ValueMoved);
  }

  lemma StatesMean(before: seq<StagedRow>, after: seq<StagedRow>)
    requires Comparable(before, after)
    ensures var p, c := VintageOf(before), VintageOf(after);
            |StateChanges(p, c, c.Keys)| == |Places(after, before, StateMoved)|
  {
    var p, c := VintageOf(before), VintageOf(after);
    forall k | 0 <= k < |after|
      ensures RevisionKey(after[k].row) in StateChanges(p, c, c.Keys) <==> StateMoved(before, after[k].row)
    {
      PlaceIff(before, after, k);
    }
    KeysAtPlaces(after, before, StateChanges(p, c, c.Keys), StateMoved);
  }

  lemma UntouchedMeans(before: seq<StagedRow>, after: seq<StagedRow>)
    requires Comparable(before, after)
    ensures var p, c := VintageOf(before), VintageOf(after);
            |Unchanged(p, c, c.Keys)| == |Places(after, before, Stayed)|
  {
    var p, c := VintageOf(before), VintageOf(after);
    forall k | 0 <= k < |after|
      ensures RevisionKey(after[k].row) in Unchanged(p, c, c.Keys) <==> Stayed(before, after[k].row)
    {
      PlaceIff(before, after, k);
    }
    KeysAtPlaces(after, before, Unchanged(p, c, c.Keys), Stayed);
  }

  lemma CountsMean(before: seq<StagedRow>, after: seq<StagedRow>)
    requires Comparable(before, after)
    ensures CountsSay(before, after, ReportOf(VintageOf(before), VintageOf(after)).counts)
  {
    InsertedMeans(before, after);
    DeletedMeans(before, after);
    ValuesMean(before, after);
    StatesMean(before, after);
    UntouchedMeans(before, after);
  }

  // ---------- The delta ----------

  /** What one current row adds: its value when it is new, and otherwise by how much it moved. */
  ghost function Moved(before: seq<StagedRow>, row: SourceRow): int {
    if !Has(before, row) then row.valueEur
    else if row.valueEur >= Counterpart(before, row).row.valueEur then row.valueEur - Counterpart(before, row).row.valueEur
    else Counterpart(before, row).row.valueEur - row.valueEur
  }

  ghost function SumMoved(before: seq<StagedRow>, after: seq<StagedRow>): int {
    if after == [] then 0
    else SumMoved(before, after[..|after| - 1]) + Moved(before, after[|after| - 1].row)
  }

  /** The values of the previous rows that are gone. */
  ghost function SumGone(before: seq<StagedRow>, after: seq<StagedRow>): int {
    if before == [] then 0
    else
      var last := before[|before| - 1].row;
      SumGone(before[..|before| - 1], after) + if Has(after, last) then 0 else last.valueEur
  }

  lemma {:induction false} SumOverSome(rows: seq<StagedRow>, n: nat, f: string -> int)
    requires AreUniqueSourceRows(rows) && n <= |rows|
    ensures SumOver(Elements(RevisionKeys(rows)[..n]), f) == SumKeys(RevisionKeys(rows)[..n], f)
  {
    var keys := RevisionKeys(rows);
    SetSizeIff(keys);
    if n > 0 {
      SumOverSome(rows, n - 1, f);
      TakeNext(keys, n - 1);
      assert forall k :: 0 <= k < n - 1 ==> keys[k] != keys[n - 1];
      SumOverAdd(Elements(keys[..n - 1]), Elements(keys[..n]), f, keys[n - 1]);
    } else {
      assert Elements(keys[..0]) == {};
    }
  }

  ghost function SumKeys(keys: seq<string>, f: string -> int): int {
    if keys == [] then 0 else SumKeys(keys[..|keys| - 1], f) + f(keys[|keys| - 1])
  }

  lemma ChangeOfEntries(p: Vintage<string, UpdateState>, c: Vintage<string, UpdateState>, key: string)
    requires key in c
    ensures Change(p, c)(key) == if key in p then Abs(c[key].value - p[key].value) else c[key].value
  {
  }

  lemma MovedAt(before: seq<StagedRow>, after: seq<StagedRow>, k: nat)
    requires Comparable(before, after) && k < |after|
    ensures Change(VintageOf(before), VintageOf(after))(RevisionKey(after[k].row)) == Moved(before, after[k].row)
  {
    OwnEntry(after, k);
    ComparedIs(before, after[k].row);
    ChangeOfEntries(VintageOf(before), VintageOf(after), RevisionKey(after[k].row));
  }

  lemma {:induction false} MovedIsChange(before: seq<StagedRow>, after: seq<StagedRow>, n: nat, f: string -> int)
    requires Comparable(before, after) && n <= |after|
    requires forall k :: 0 <= k < |after| ==> f(RevisionKey(after[k].row)) == Moved(before, after[k].row)
    ensures SumKeys(RevisionKeys(after)[..n], f) == SumMoved(before, after[..n])
  {
    if n > 0 {
      MovedIsChange(before, after, n - 1, f);
      TakeNext(RevisionKeys(after), n - 1);
      TakeNext(after, n - 1);
    }
  }

  /** What the key of a previous row adds when the row is gone. */
  ghost function GoneValue(previous: Vintage<string, UpdateState>, current: Vintage<string, UpdateState>): string -> int {
    key => if key in current then 0 else ValueAt(previous, key)
  }

  lemma GoneAt(before: seq<StagedRow>, after: seq<StagedRow>, k: nat)
    requires Comparable(before, after) && k < |before|
    ensures GoneValue(VintageOf(before), VintageOf(after))(RevisionKey(before[k].row))
            == if Has(after, before[k].row) then 0 else before[k].row.valueEur
  {
    OwnEntry(before, k);
    ComparedIs(after, before[k].row);
  }

  lemma {:induction false} GoneIsChange(before: seq<StagedRow>, after: seq<StagedRow>, n: nat, f: string -> int)
    requires n <= |before|
    requires forall k :: 0 <= k < |before| ==>
               f(RevisionKey(before[k].row)) == if Has(after, before[k].row) then 0 else before[k].row.valueEur
    ensures SumKeys(RevisionKeys(before)[..n], f) == SumGone(before[..n], after)
  {
    if n > 0 {
      GoneIsChange(before, after, n - 1, f);
      TakeNext(RevisionKeys(before), n - 1);
      TakeNext(before, n - 1);
    }
  }

  lemma {:induction false} SumOfAll(rows: seq<StagedRow>, f: string -> int)
    requires AreUniqueSourceRows(rows)
    ensures SumOver(VintageOf(rows).Keys, f) == SumKeys(RevisionKeys(rows), f)
  {
    SumOverSome(rows, |rows|, f);
    TakeAll(RevisionKeys(rows));
    ByKeyIsWellKeyed(rows);
    assert VintageOf(rows).Keys == Elements(RevisionKeys(rows));
  }

  lemma {:induction false} MovedMeans(before: seq<StagedRow>, after: seq<StagedRow>)
    requires Comparable(before, after)
    ensures SumOver(VintageOf(after).Keys, Change(VintageOf(before), VintageOf(after))) == SumMoved(before, after)
  {
    var change := Change(VintageOf(before), VintageOf(after));
    forall k | 0 <= k < |after|
      ensures change(RevisionKey(after[k].row)) == Moved(before, after[k].row)
    {
      MovedAt(before, after, k);
    }
    SumOfAll(after, change);
    MovedIsChange(before, after, |after|, change);
    TakeAll(RevisionKeys(after));
    TakeAll(after);
  }

  lemma {:induction false} GoneMeans(before: seq<StagedRow>, after: seq<StagedRow>)
    requires Comparable(before, after)
    ensures SumOver(VintageOf(before).Keys, GoneValue(VintageOf(before), VintageOf(after))) == SumGone(before, after)
  {
    var gone := GoneValue(VintageOf(before), VintageOf(after));
    forall k | 0 <= k < |before|
      ensures gone(RevisionKey(before[k].row)) == if Has(after, before[k].row) then 0 else before[k].row.valueEur
    {
      GoneAt(before, after, k);
    }
    SumOfAll(before, gone);
    GoneIsChange(before, after, |before|, gone);
    TakeAll(RevisionKeys(before));
    TakeAll(before);
  }

  /** Of the previous keys only those that are gone add to the delta. */
  lemma {:induction false} GonePart(p: Vintage<string, UpdateState>, c: Vintage<string, UpdateState>)
    ensures SumOver(Without(p.Keys, c), Change(p, c)) == SumOver(p.Keys, GoneValue(p, c))
  {
    SumOverSame(Without(p.Keys, c), Without(p.Keys, c), Change(p, c), GoneValue(p, c));
    SumOverExtend(Without(p.Keys, c), p.Keys, GoneValue(p, c));
  }

  /** The delta adds up what each current row moved and the values of the rows that are gone. */
  lemma {:induction false} DeltaMeans(before: seq<StagedRow>, after: seq<StagedRow>)
    requires Comparable(before, after)
    ensures ReportOf(VintageOf(before), VintageOf(after)).absoluteValueDelta
            == SumMoved(before, after) + SumGone(before, after)
  {
    DeltaInTwoParts(VintageOf(before), VintageOf(after));
    MovedMeans(before, after);
    GoneMeans(before, after);
    GonePart(VintageOf(before), VintageOf(after));
  }

  // ---------- What is affected ----------

  /** A current row that is new or moved, or a previous one that is gone. */
  ghost predicate Reported(before: seq<StagedRow>, after: seq<StagedRow>, r: StagedRow) {
    || (exists k :: 0 <= k < |after| && after[k] == r && !Stayed(before, r.row))
    || (exists k :: 0 <= k < |before| && before[k] == r && !Has(after, r.row))
  }

  lemma {:induction false} ReportedIff(before: seq<StagedRow>, after: seq<StagedRow>, r: StagedRow)
    requires Comparable(before, after)
    ensures r in AffectedRows(ByKey(before), ByKey(after)) <==> Reported(before, after, r)
  {
    var p, c := ByKey(before), ByKey(after);
    if k :| 0 <= k < |after| && after[k] == r && !Stayed(before, r.row) {
      RowAt(after, k);
      DiffersIff(before, r);
      assert r in NewOrDifferent(p, c, c.Keys);
    }
    if k :| 0 <= k < |before| && before[k] == r && !Has(after, r.row) {
      RowAt(before, k);
      HasIff(after, r.row);
      assert r in Gone(p, c, p.Keys);
    }
    if r in NewOrDifferent(p, c, c.Keys) {
      var key :| key in c && Differs(Find(p, key), c[key]) && c[key] == r;
      KeyOfSome(after, key);
      var k :| 0 <= k < |after| && RevisionKey(after[k].row) == key;
      RowAt(after, k);
      DiffersIff(before, r);
    }
    if r in Gone(p, c, p.Keys) {
      var key :| key in p && key !in c && p[key] == r;
      KeyOfSome(before, key);
      var k :| 0 <= k < |before| && RevisionKey(before[k].row) == key;
      RowAt(before, k);
      HasIff(after, r.row);
    }
  }

  lemma {:induction false} DiffersIff(before: seq<StagedRow>, r: StagedRow)
    requires AreUniqueSourceRows(before) && PlainVintage(before) && PlainSource(r.row)
    ensures Differs(Find(ByKey(before), RevisionKey(r.row)), r) <==> !Stayed(before, r.row)
  {
    HasIff(before, r.row);
    if Has(before, r.row) {
      CounterpartIs(before, r.row);
    }
  }

  /** Affected are the months, the known reporters and the known products of exactly the rows that are reported. */
  lemma {:induction false} AffectedIff(before: seq<StagedRow>, after: seq<StagedRow>, name: string)
    requires Comparable(before, after)
    ensures var affected := AffectedBy(AffectedRows(ByKey(before), ByKey(after)));
            && (name in affected.periods <==> exists r :: Reported(before, after, r) && r.row.referenceMonth == name)
            && (name in affected.reporters <==> exists r :: Reported(before, after, r) && r.reporterIso2 == Some(name))
            && (name in affected.products <==> exists r :: Reported(before, after, r) && r.hs12Code == Some(name))
  {
    forall r
      ensures r in AffectedRows(ByKey(before), ByKey(after)) <==> Reported(before, after, r)
    {
      ReportedIff(before, after, r);
    }
  }

  /** The report, of rows: its counts, its events, its delta. */
  lemma {:induction false} ReportMeans(before: seq<StagedRow>, after: seq<StagedRow>)
    requires Comparable(before, after)
    ensures var report := ReportOf(VintageOf(before), VintageOf(after));
            && CountsSay(before, after, report.counts)
            && report.absoluteValueDelta == SumMoved(before, after) + SumGone(before, after)
            && (RevisionUpdate in report.events <==> Places(after, before, ValueMoved) != {})
            && (RevisionRetraction in report.events <==> Places(before, after, IsNew) != {})
            && (RevisionReinstatement in report.events <==> Places(after, before, IsNew) != {})
  {
    CountsMean(before, after);
    DeltaMeans(before, after);
    EventsIff(ReportOf(VintageOf(before), VintageOf(after)).counts);
  }
}
