/**
  The revision report, scripts/release/recent-trade-momentum-package.ts: what changed between two
  vintages of source rows, and by how much.
*/
module Revision {
  import opened Common
  import opened Momentum
  import opened VintageDiff
  import FixedPoint

  // ---------- Keys ----------

  function SpecialText(code: SpecialCode): string {
    match code
    case None_ => "NONE"
    case WorldTotal => "WORLD_TOTAL"
    case Confidential => "CONFIDENTIAL"
    case Special => "SPECIAL"
  }

  /** Every source row is an import. */
  const FLOW := "IMPORT"

  /** What a row is joined from, in front of its special code. */
  function RowIdentity(row: SourceRow): string {
    row.referenceMonth + "|" + row.reporterSourceCode + "|" + row.partnerSourceCode + "|" + FLOW + "|"
    + FixedPoint.PrintNat(row.cnEditionYear) + "|" + row.cn8Code
  }

  function RevisionKey(row: SourceRow): string {
    RowIdentity(row) + "|" + SpecialText(row.sourceSpecialCode)
  }

  lemma SpecialTextIsInjective(a: SpecialCode, b: SpecialCode)
    requires SpecialText(a) == SpecialText(b)
    ensures a == b
  {
    assert |"NONE"| == 4 && |"WORLD_TOTAL"| == 11 && |"CONFIDENTIAL"| == 12 && |"SPECIAL"| == 7;
  }

  /** Rows have the same key exactly when they agree on the identity and, whatever that contains, on the special code. */
  lemma SpecialIsPartOfKey(a: SourceRow, b: SourceRow)
    ensures RevisionKey(a) == RevisionKey(b)
            <==> RowIdentity(a) == RowIdentity(b) && a.sourceSpecialCode == b.sourceSpecialCode
  {
    if RevisionKey(a) == RevisionKey(b) {
      LastFieldIsUnique(RowIdentity(a), SpecialText(a.sourceSpecialCode), RowIdentity(b), SpecialText(b.sourceSpecialCode));
      SpecialTextIsInjective(a.sourceSpecialCode, b.sourceSpecialCode);
    }
  }

  /** Keys of components without a bar are as good as the components. */
  lemma RevisionKeyIsInjective(a: SourceRow, b: SourceRow)
    requires NoBar(a.reporterSourceCode) && NoBar(a.partnerSourceCode) && NoBar(a.cn8Code)
    requires NoBar(b.reporterSourceCode) && NoBar(b.partnerSourceCode) && NoBar(b.cn8Code)
    requires RevisionKey(a) == RevisionKey(b)
    ensures a.(valueEur := 0, updateState := Preliminary) == b.(valueEur := 0, updateState := Preliminary)
  {
    var yearA, yearB := FixedPoint.PrintNat(a.cnEditionYear), FixedPoint.PrintNat(b.cnEditionYear);
    var monthA, monthB := a.referenceMonth, b.referenceMonth;
    var reporterA, reporterB := monthA + "|" + a.reporterSourceCode, monthB + "|" + b.reporterSourceCode;
    var partnerA, partnerB := reporterA + "|" + a.partnerSourceCode, reporterB + "|" + b.partnerSourceCode;
    SpecialIsPartOfKey(a, b);
    LastFieldIsUnique(partnerA + "|" + FLOW + "|" + yearA, a.cn8Code, partnerB + "|" + FLOW + "|" + yearB, b.cn8Code);
    LastFieldIsUnique(partnerA + "|" + FLOW, yearA, partnerB + "|" + FLOW, yearB);
    LastFieldIsUnique(partnerA, FLOW, partnerB, FLOW);
    LastFieldIsUnique(reporterA, a.partnerSourceCode, reporterB, b.partnerSourceCode);
    LastFieldIsUnique(monthA, a.reporterSourceCode, monthB, b.reporterSourceCode);
    FixedPoint.ParsePrinted(a.cnEditionYear);
    FixedPoint.ParsePrinted(b.cnEditionYear);
  }

  function RevisionKeys(rows: seq<StagedRow>): seq<string> {
    seq(|rows|, k requires 0 <= k < |rows| => RevisionKey(rows[k].row))
  }

  /** The source's check, by the size of the set of keys. */
  predicate AreUniqueSourceRows(rows: seq<StagedRow>) {
    |Elements(RevisionKeys(rows))| == |RevisionKeys(rows)|
  }

  // ---------- Rows by key ----------

  type Rows = map<string, StagedRow>

  /** The rows by key; of several rows with one key the last. */
  function ByKey(rows: seq<StagedRow>): Rows {
    if rows == [] then map[]
    else
      var last := rows[|rows| - 1];
      ByKey(rows[..|rows| - 1])[RevisionKey(last.row) := last]
  }

  /** Each row stands under its own key. */
  ghost predicate WellKeyed(byKey: Rows) {
    forall key :: key in byKey ==> RevisionKey(byKey[key].row) == key
  }

  lemma {:induction false} ByKeyIsWellKeyed(rows: seq<StagedRow>)
    ensures WellKeyed(ByKey(rows)) && ByKey(rows).Keys == Elements(RevisionKeys(rows))
  {
    if rows != [] {
      var init, last := rows[..|rows| - 1], rows[|rows| - 1];
      ByKeyIsWellKeyed(init);
      KeysNext(rows);
      WellKeyedNext(ByKey(init), last);
    }
  }

  lemma KeysNext(rows: seq<StagedRow>)
    requires rows != []
    ensures Elements(RevisionKeys(rows)) == Elements(RevisionKeys(rows[..|rows| - 1])) + {RevisionKey(rows[|rows| - 1].row)}
  {
    assert RevisionKeys(rows) == RevisionKeys(rows[..|rows| - 1]) + [RevisionKey(rows[|rows| - 1].row)];
  }

  lemma WellKeyedNext(byKey: Rows, row: StagedRow)
    requires WellKeyed(byKey)
    ensures WellKeyed(byKey[RevisionKey(row.row) := row])
    ensures byKey[RevisionKey(row.row) := row].Keys == byKey.Keys + {RevisionKey(row.row)}
  {
  }

  /** A key has one row in each vintage, and tells its special code; so that code never changes under a key. */
  lemma SpecialNeverChanges(previous: Rows, current: Rows, key: string)
    requires WellKeyed(previous) && WellKeyed(current) && key in previous && key in current
    ensures previous[key].row.sourceSpecialCode == current[key].row.sourceSpecialCode
  {
    SpecialIsPartOfKey(previous[key].row, current[key].row);
  }

  /** What is compared of the rows. */
  ghost function Compared(byKey: Rows): Vintage<string, UpdateState> {
    map key | key in byKey :: Entry(byKey[key].row.valueEur, byKey[key].row.updateState)
  }

  ghost function VintageOf(rows: seq<StagedRow>): Vintage<string, UpdateState> {
    Compared(ByKey(rows))
  }

  // ---------- What the report says of the rows ----------

  function EntryOf(r: StagedRow): Entry<UpdateState> {
    Entry(r.row.valueEur, r.row.updateState)
  }

  lemma VintageGrows(rows: seq<StagedRow>, last: StagedRow)
    ensures VintageOf(rows + [last]) == VintageOf(rows)[RevisionKey(last.row) := EntryOf(last)]
  {
    assert (rows + [last])[..|rows|] == rows;
  }

  lemma DistinctPrefix(keys: seq<string>, key: string)
    requires Distinct(keys + [key])
    ensures Distinct(keys) && key !in keys
  {
    var more := keys + [key];
    assert forall k :: 0 <= k < |keys| ==> more[k] == keys[k];
    assert more[|keys|] == key;
  }

  /** Of unique rows the last has a key of its own, and the others are unique too. */
  lemma LastIsNew(rows: seq<StagedRow>, last: StagedRow)
    requires AreUniqueSourceRows(rows + [last])
    ensures AreUniqueSourceRows(rows) && RevisionKey(last.row) !in VintageOf(rows)
  {
    var keys, key := RevisionKeys(rows), RevisionKey(last.row);
    assert RevisionKeys(rows + [last]) == keys + [key];
    SetSizeIff(keys + [key]);
    DistinctPrefix(keys, key);
    SetSizeIff(keys);
    ByKeyIsWellKeyed(rows);
  }

  /** With unique rows nothing is lost under the keys: a vintage's total is the sum over its rows. */
  lemma {:induction false} TotalIsRowSum(rows: seq<StagedRow>)
    requires AreUniqueSourceRows(rows)
    ensures Total(VintageOf(rows)) == SumWhere(rows, All)
  {
    if rows != [] {
      var init, last := rows[..|rows| - 1], rows[|rows| - 1];
      assert rows == init + [last];
      LastIsNew(init, last);
      TotalIsRowSum(init);
      VintageGrows(init, last);
      TotalOfOneMore(VintageOf(init), VintageOf(rows), RevisionKey(last.row));
    }
  }

  lemma VintageSize(rows: seq<StagedRow>)
    requires AreUniqueSourceRows(rows)
    ensures |VintageOf(rows)| == |rows|
  {
    ByKeyIsWellKeyed(rows);
    assert VintageOf(rows).Keys == Elements(RevisionKeys(rows));
  }

  /** The keys of a vintage are the identities and special codes of its rows. */
  lemma KeyInVintage(rows: seq<StagedRow>, row: SourceRow)
    ensures RevisionKey(row) in VintageOf(rows)
            <==> exists r ::
                   r in rows && RowIdentity(r.row) == RowIdentity(row) && r.row.sourceSpecialCode == row.sourceSpecialCode
  {
    ByKeyIsWellKeyed(rows);
    var keys := RevisionKeys(rows);
    assert RevisionKey(row) in VintageOf(rows) <==> RevisionKey(row) in Elements(keys);
    if RevisionKey(row) in Elements(keys) {
      var k :| 0 <= k < |keys| && keys[k] == RevisionKey(row);
      SpecialIsPartOfKey(rows[k].row, row);
      assert rows[k] in rows;
    }
    if r :| r in rows && RowIdentity(r.row) == RowIdentity(row) && r.row.sourceSpecialCode == row.sourceSpecialCode {
      SpecialIsPartOfKey(r.row, row);
      var k :| 0 <= k < |rows| && rows[k] == r;
      assert keys[k] == RevisionKey(row);
    }
  }

  /** No row has this identity with this special code. */
  ghost predicate NotAmong(rows: seq<StagedRow>, row: SourceRow) {
    forall r :: r in rows ==> !(RowIdentity(r.row) == RowIdentity(row) && r.row.sourceSpecialCode == row.sourceSpecialCode)
  }

  /** A row is deleted, or inserted, exactly when the other vintage has no row of its identity with its special code. */
  lemma DeletedIff(before: seq<StagedRow>, after: seq<StagedRow>, was: StagedRow)
    requires was in before
    ensures var previous, current := VintageOf(before), VintageOf(after);
            && (RevisionKey(was.row) in Without(previous.Keys, current) <==> NotAmong(after, was.row))
            && (RevisionKey(was.row) in Without(previous.Keys, current) ==>
                  NotAmongChanges(previous, current, RevisionKey(was.row)))
  {
    KeyInVintage(before, was.row);
    KeyInVintage(after, was.row);
  }

  /** A key counts neither as changed in value nor in state, nor as untouched. */
  ghost predicate NotAmongChanges(previous: Vintage<string, UpdateState>, current: Vintage<string, UpdateState>,
                                  key: string)
  {
    && key !in ValueChanges(previous, current, current.Keys)
    && key !in StateChanges(previous, current, current.Keys)
    && key !in Unchanged(previous, current, current.Keys)
  }

  lemma InsertedIff(before: seq<StagedRow>, after: seq<StagedRow>, now: StagedRow)
    requires now in after
    ensures var previous, current := VintageOf(before), VintageOf(after);
            && (RevisionKey(now.row) in Without(current.Keys, previous) <==> NotAmong(before, now.row))
            && (RevisionKey(now.row) in Without(current.Keys, previous) ==>
                  NotAmongChanges(previous, current, RevisionKey(now.row)))
  {
    KeyInVintage(before, now.row);
    KeyInVintage(after, now.row);
  }

  /**
    A changed special code is always a delete plus an insert, whatever else differs between the vintages:
    the old row is among the deleted ones, the new row among the inserted ones, and neither is among the
    changed or the untouched ones; and both events are reported.
  */
  lemma SpecialChangeIsDeleteAndInsert(before: seq<StagedRow>, after: seq<StagedRow>, was: StagedRow, now: StagedRow)
    requires was in before && now in after
    requires RowIdentity(was.row) == RowIdentity(now.row) && was.row.sourceSpecialCode != now.row.sourceSpecialCode
    requires NotAmong(after, was.row) && NotAmong(before, now.row)
    ensures var previous, current := VintageOf(before), VintageOf(after);
            && RevisionKey(was.row) != RevisionKey(now.row)
            && RevisionKey(was.row) in Without(previous.Keys, current)
            && NotAmongChanges(previous, current, RevisionKey(was.row))
            && RevisionKey(now.row) in Without(current.Keys, previous)
            && NotAmongChanges(previous, current, RevisionKey(now.row))
    ensures var events := ReportOf(VintageOf(before), VintageOf(after)).events;
            RevisionRetraction in events && RevisionReinstatement in events
  {
    SpecialIsPartOfKey(was.row, now.row);
    DeletedIff(before, after, was);
    InsertedIff(before, after, now);
    SomeDeletedSomeInserted(VintageOf(before), VintageOf(after), RevisionKey(was.row), RevisionKey(now.row));
  }

  /** When nothing else changes, exactly one row is counted as deleted and one as inserted, and no state as changed. */
  lemma OnlySpecialChanges(rows: seq<StagedRow>, was: StagedRow, now: StagedRow)
    requires AreUniqueSourceRows(rows + [was]) && AreUniqueSourceRows(rows + [now])
    requires RowIdentity(was.row) == RowIdentity(now.row) && was.row.sourceSpecialCode != now.row.sourceSpecialCode
    ensures var report := ReportOf(VintageOf(rows + [was]), VintageOf(rows + [now]));
            && report.counts == Counts(1, 1, 0, 0, |rows|)
            && report.events == [RevisionRetraction, RevisionReinstatement]
            && report.absoluteValueDelta == was.row.valueEur + now.row.valueEur
  {
    SpecialIsPartOfKey(was.row, now.row);
    LastIsNew(rows, was);
    LastIsNew(rows, now);
    VintageGrows(rows, was);
    VintageGrows(rows, now);
    VintageSize(rows);
    ReplacedUnderAnotherKey(VintageOf(rows), RevisionKey(was.row), EntryOf(was), RevisionKey(now.row), EntryOf(now));
  }

  /** A report that shows the sign: one row of negative value, and it is deleted. */
  lemma NegativeRowFoolsReport(row: StagedRow)
    requires row.row.valueEur < 0
    ensures ReportOf(VintageOf([row]), VintageOf([])).absoluteValueDelta < 0 < L1(VintageOf([row]), VintageOf([]))
  {
    VintageGrows([], row);
    assert [] + [row] == [row];
    NegativeRowFoolsDelta(RevisionKey(row.row), EntryOf(row));
    assert VintageOf([row]) == map[RevisionKey(row.row) := EntryOf(row)];
  }
}
