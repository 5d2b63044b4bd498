/**
  The per-year coverage gate of scripts/release/baci-source-staging.ts, and the row sums that
  scripts/release/analysis-artifact.ts checks again.
*/
module CoverageGate {
  import opened Common

  datatype AnnualCheck = AnnualCheck(
    year: int, rowCount: int, exporterCount: int, importerCount: int, observedProductCount: int,
    quantityPresentCount: int, quantityNullCount: int, valueTotalKusd: string, quantityTotalTons: string)

  /** The fields of a check, in the order in which they are compared. */
  datatype Field =
    | Year | RowCount | ExporterCount | ImporterCount | ObservedProductCount
    | QuantityPresentCount | QuantityNullCount | ValueTotalKusd | QuantityTotalTons

  const FIELDS := [Year, RowCount, ExporterCount, ImporterCount, ObservedProductCount,
                   QuantityPresentCount, QuantityNullCount, ValueTotalKusd, QuantityTotalTons]

  datatype FieldValue = Number(n: int) | Text(t: string)

  function ValueOf(check: AnnualCheck, field: Field): FieldValue {
    match field
    case Year => Number(check.year)
    case RowCount => Number(check.rowCount)
    case ExporterCount => Number(check.exporterCount)
    case ImporterCount => Number(check.importerCount)
    case ObservedProductCount => Number(check.observedProductCount)
    case QuantityPresentCount => Number(check.quantityPresentCount)
    case QuantityNullCount => Number(check.quantityNullCount)
    case ValueTotalKusd => Text(check.valueTotalKusd)
    case QuantityTotalTons => Text(check.quantityTotalTons)
  }

  /** A difference: a whole year missing on one side, or one field with two values. */
  datatype Difference = Difference(year: int, field: Option<Field>, approved: Option<FieldValue>, actual: Option<FieldValue>)

  /** Checks keyed by year; of two checks for one year the later counts. */
  function ByYear(checks: seq<AnnualCheck>): (m: map<int, AnnualCheck>)
    ensures forall y :: y in m ==> m[y].year == y && m[y] in checks
    ensures forall c :: c in checks ==> c.year in m
  {
    if checks == [] then map[]
    else
      var last := checks[|checks| - 1];
      assert forall c :: c in checks ==> c in checks[..|checks| - 1] || c == last;
      ByYear(checks[..|checks| - 1])[last.year := last]
  }

  ghost predicate Ascending(years: seq<int>) {
    forall i, j :: 0 <= i < j < |years| ==> years[i] < years[j]
  }

  /** Inserts a year into an ascending list, once. */
  function InsertYear(years: seq<int>, year: int): (r: seq<int>)
    requires Ascending(years)
    ensures Ascending(r) && forall y :: y in r <==> y in years || y == year
  {
    if years == [] then [year]
    else if year < years[0] then [year] + years
    else if year == years[0] then years
    else
      var rest := InsertYear(years[1..], year);
      assert years == [years[0]] + years[1..];
      assert forall k :: 0 <= k < |rest| ==> rest[k] in rest && years[0] < rest[k];
      [years[0]] + rest
  }

  /** The years of both sides, ascending, each once. */
  function YearsOf(checks: seq<AnnualCheck>): (r: seq<int>)
    ensures Ascending(r) && forall y :: y in r <==> exists c :: c in checks && c.year == y
  {
    if checks == [] then []
    else
      var init, last := checks[..|checks| - 1], checks[|checks| - 1];
      assert forall c :: c in checks <==> c in init || c == last;
      InsertYear(YearsOf(init), last.year)
  }

  lemma {:induction false} AscendingIsUnique(a: seq<int>, b: seq<int>)
    requires Ascending(a) && Ascending(b) && forall y :: y in a <==> y in b
    ensures a == b
  {
    assert a != [] ==> a[0] in a && a[0] in b;
    assert b != [] ==> b[0] in b && b[0] in a;
    if a != [] {
      assert a == [a[0]] + a[1..] && b == [b[0]] + b[1..];
      assert a[0] == b[0];
      forall y
        ensures y in a[1..] <==> y in b[1..]
      {
        assert y in a[1..] <==> y in a && y != a[0];
        assert y in b[1..] <==> y in b && y != b[0];
      }
      AscendingIsUnique(a[1..], b[1..]);
    }
  }

  // ---------- Comparing coverage ----------

  function FieldDifferences(expected: AnnualCheck, observed: AnnualCheck, fields: seq<Field>): seq<Difference> {
    if fields == [] then []
    else
      var field := fields[|fields| - 1];
      FieldDifferences(expected, observed, fields[..|fields| - 1])
        + if ValueOf(expected, field) != ValueOf(observed, field)
          then [Difference(expected.year, Some(field), Some(ValueOf(expected, field)), Some(ValueOf(observed, field)))]
          else []
  }

  function YearDifferences(approved: map<int, AnnualCheck>, actual: map<int, AnnualCheck>, year: int): seq<Difference> {
    if year !in approved || year !in actual then
      [Difference(year, None, if year in approved then Some(Number(year)) else None,
                  if year in actual then Some(Number(year)) else None)]
    else FieldDifferences(approved[year], actual[year], FIELDS)
  }

  function AllDifferences(approved: map<int, AnnualCheck>, actual: map<int, AnnualCheck>, years: seq<int>): seq<Difference> {
    if years == [] then []
    else
      AllDifferences(approved, actual, years[..|years| - 1]) + YearDifferences(approved, actual, years[|years| - 1])
  }

  function Differences(approved: seq<AnnualCheck>, actual: seq<AnnualCheck>): seq<Difference> {
    AllDifferences(ByYear(approved), ByYear(actual), YearsOf(approved + actual))
  }

  /** The inner loop of the comparison, over the fields of one year. */
  method CompareFields(expected: AnnualCheck, observed: AnnualCheck) returns (differences: seq<Difference>)
    ensures differences == FieldDifferences(expected, observed, FIELDS)
  {
    differences := [];
    for f := 0 to |FIELDS|
      invariant differences == FieldDifferences(expected, observed, FIELDS[..f])
    {
      TakeNext(FIELDS, f);
      if ValueOf(expected, FIELDS[f]) != ValueOf(observed, FIELDS[f]) {
        differences := differences +
          [Difference(expected.year, Some(FIELDS[f]), Some(ValueOf(expected, FIELDS[f])),
                      Some(ValueOf(observed, FIELDS[f])))];
      }
    }
    TakeAll(FIELDS);
  }

  /** The outer loop of the comparison, over the years of both sides. */
  method CompareCoverage(approved: seq<AnnualCheck>, actual: seq<AnnualCheck>) returns (differences: seq<Difference>)
    ensures differences == Differences(approved, actual)
  {
    var approvedByYear, actualByYear := ByYear(approved), ByYear(actual);
    var years := YearsOf(approved + actual);
    differences := [];
    for n := 0 to |years|
      invariant differences == AllDifferences(approvedByYear, actualByYear, years[..n])
    {
      var year := years[n];
      TakeNext(years, n);
      if year !in approvedByYear || year !in actualByYear {
        differences := differences +
          [Difference(year, None, if year in approvedByYear then Some(Number(year)) else None,
                      if year in actualByYear then Some(Number(year)) else None)];
      } else {
        var fields := CompareFields(approvedByYear[year], actualByYear[year]);
        differences := differences + fields;
      }
    }
    TakeAll(years);
  }

  lemma {:induction false} NoFieldDifferencesIff(a: AnnualCheck, b: AnnualCheck, fields: seq<Field>)
    ensures FieldDifferences(a, b, fields) == [] <==> forall f :: f in fields ==> ValueOf(a, f) == ValueOf(b, f)
  {
    if fields != [] {
      var init, last := fields[..|fields| - 1], fields[|fields| - 1];
      NoFieldDifferencesIff(a, b, init);
      assert forall f :: f in fields <==> f in init || f == last;
    }
  }

  /** Checks that agree in every field are the same check: the comparison overlooks nothing. */
  lemma {:induction false} SameFieldsSameCheck(a: AnnualCheck, b: AnnualCheck)
    ensures FieldDifferences(a, b, FIELDS) == [] <==> a == b
  {
    NoFieldDifferencesIff(a, b, FIELDS);
    if FieldDifferences(a, b, FIELDS) == [] {
      assert forall f: Field :: ValueOf(a, f) == ValueOf(b, f) by {
        EveryFieldIsCompared();
      }
      assert ValueOf(a, Year) == ValueOf(b, Year) && ValueOf(a, RowCount) == ValueOf(b, RowCount);
      assert ValueOf(a, ExporterCount) == ValueOf(b, ExporterCount)
        && ValueOf(a, ImporterCount) == ValueOf(b, ImporterCount);
      assert ValueOf(a, ObservedProductCount) == ValueOf(b, ObservedProductCount);
      assert ValueOf(a, QuantityPresentCount) == ValueOf(b, QuantityPresentCount);
      assert ValueOf(a, QuantityNullCount) == ValueOf(b, QuantityNullCount);
      assert ValueOf(a, ValueTotalKusd) == ValueOf(b, ValueTotalKusd);
      assert ValueOf(a, QuantityTotalTons) == ValueOf(b, QuantityTotalTons);
    }
  }

  lemma EveryFieldIsCompared()
    ensures forall f: Field :: f in FIELDS
  {
    forall f: Field
      ensures f in FIELDS
    {
      match f
      case Year => assert FIELDS[0] == f;
      case RowCount => assert FIELDS[1] == f;
      case ExporterCount => assert FIELDS[2] == f;
      case ImporterCount => assert FIELDS[3] == f;
      case ObservedProductCount => assert FIELDS[4] == f;
      case QuantityPresentCount => assert FIELDS[5] == f;
      case QuantityNullCount => assert FIELDS[6] == f;
      case ValueTotalKusd => assert FIELDS[7] == f;
      case QuantityTotalTons => assert FIELDS[8] == f;
    }
  }

  lemma {:induction false} NoDifferencesIff(approved: map<int, AnnualCheck>, actual: map<int, AnnualCheck>, years: seq<int>)
    ensures AllDifferences(approved, actual, years) == []
            <==> forall y :: y in years ==> y in approved && y in actual && approved[y] == actual[y]
  {
    if years != [] {
      var init, last := years[..|years| - 1], years[|years| - 1];
      NoDifferencesIff(approved, actual, init);
      assert forall y :: y in years <==> y in init || y == last;
      if last in approved && last in actual {
        SameFieldsSameCheck(approved[last], actual[last]);
      }
    }
  }

  /** The comparison is empty exactly when both sides agree as maps keyed by year, in every field. */
  lemma {:induction false} CoverageAgreesIff(approved: seq<AnnualCheck>, actual: seq<AnnualCheck>)
    ensures Differences(approved, actual) == [] <==> ByYear(approved) == ByYear(actual)
  {
    var years := YearsOf(approved + actual);
    var a, b := ByYear(approved), ByYear(actual);
    NoDifferencesIff(a, b, years);
    forall y
      ensures y in years <==> y in a || y in b
    {
      YearInYears(approved, actual, y);
    }
    if Differences(approved, actual) == [] {
      assert forall y :: y in a <==> y in b;
    }
  }

  lemma {:induction false} YearInYears(approved: seq<AnnualCheck>, actual: seq<AnnualCheck>, y: int)
    ensures y in YearsOf(approved + actual) <==> y in ByYear(approved) || y in ByYear(actual)
  {
    if y in ByYear(approved) {
      assert ByYear(approved)[y] in approved + actual;
    }
    if y in ByYear(actual) {
      assert ByYear(actual)[y] in approved + actual;
    }
  }

  // ---------- What the differences are ----------

  /** `check` is what a side says of a year: its last check for it. */
  ghost predicate Says(checks: seq<AnnualCheck>, year: int, check: AnnualCheck) {
    exists k :: 0 <= k < |checks| && SaysAt(checks, year, check, k)
  }

  ghost predicate SaysAt(checks: seq<AnnualCheck>, year: int, check: AnnualCheck, k: nat)
    requires k < |checks|
  {
    checks[k] == check && check.year == year && forall later :: k < later < |checks| ==> checks[later].year != year
  }

  ghost predicate Silent(checks: seq<AnnualCheck>, year: int) {
    forall k :: 0 <= k < |checks| ==> checks[k].year != year
  }

  lemma SaysNext(checks: seq<AnnualCheck>, last: AnnualCheck, year: int, c: AnnualCheck)
    ensures Says(checks + [last], year, c) <==> if last.year == year then c == last else Says(checks, year, c)
    ensures Silent(checks + [last], year) <==> last.year != year && Silent(checks, year)
  {
    var all := checks + [last];
    assert all[|checks|] == last && forall k :: 0 <= k < |checks| ==> all[k] == checks[k];
    if last.year == year {
      assert SaysAt(all, year, last, |checks|);
    } else {
      assert forall k :: 0 <= k < |checks| ==> (SaysAt(all, year, c, k) <==> SaysAt(checks, year, c, k));
    }
  }

  lemma {:induction false} ByYearSays(checks: seq<AnnualCheck>, year: int)
    ensures year !in ByYear(checks) <==> Silent(checks, year)
    ensures forall c :: Says(checks, year, c) <==> year in ByYear(checks) && ByYear(checks)[year] == c
  {
    if checks != [] {
      var init, last := checks[..|checks| - 1], checks[|checks| - 1];
      assert checks == init + [last];
      ByYearSays(init, year);
      forall c
        ensures Says(checks, year, c) <==> year in ByYear(checks) && ByYear(checks)[year] == c
      {
        SaysNext(init, last, year, c);
      }
      SaysNext(init, last, year, last);
    }
  }

  /** A year of which only one side says something. */
  ghost predicate OneSided(approved: seq<AnnualCheck>, actual: seq<AnnualCheck>, d: Difference) {
    && d.field == None
    && (|| (!Silent(approved, d.year) && Silent(actual, d.year) && d.approved == Some(Number(d.year)) && d.actual == None)
        || (Silent(approved, d.year) && !Silent(actual, d.year) && d.approved == None && d.actual == Some(Number(d.year))))
  }

  /** A field of which the sides say different things: what the approved side says, and what the actual one says. */
  ghost predicate TwoValued(approved: seq<AnnualCheck>, actual: seq<AnnualCheck>, d: Difference) {
    exists a, b :: Says(approved, d.year, a) && Says(actual, d.year, b) && FieldDiffers(a, b, d)
  }

  ghost predicate FieldDiffers(a: AnnualCheck, b: AnnualCheck, d: Difference) {
    && d.field.Some? && d.approved == Some(ValueOf(a, d.field.value)) && d.actual == Some(ValueOf(b, d.field.value))
    && d.approved != d.actual
  }

  /** Each value is that of its own field: changing one field changes that value and no other. */
  lemma ValuesAreTheirs(c: AnnualCheck, n: int, t: string, f: Field)
    ensures ValueOf(c.(year := n), f) == if f == Year then Number(n) else ValueOf(c, f)
    ensures ValueOf(c.(rowCount := n), f) == if f == RowCount then Number(n) else ValueOf(c, f)
    ensures ValueOf(c.(exporterCount := n), f) == if f == ExporterCount then Number(n) else ValueOf(c, f)
    ensures ValueOf(c.(importerCount := n), f) == if f == ImporterCount then Number(n) else ValueOf(c, f)
    ensures ValueOf(c.(observedProductCount := n), f) == if f == ObservedProductCount then Number(n) else ValueOf(c, f)
    ensures ValueOf(c.(quantityPresentCount := n), f) == if f == QuantityPresentCount then Number(n) else ValueOf(c, f)
    ensures ValueOf(c.(quantityNullCount := n), f) == if f == QuantityNullCount then Number(n) else ValueOf(c, f)
    ensures ValueOf(c.(valueTotalKusd := t), f) == if f == ValueTotalKusd then Text(t) else ValueOf(c, f)
    ensures ValueOf(c.(quantityTotalTons := t), f) == if f == QuantityTotalTons then Text(t) else ValueOf(c, f)
  {
  }

  lemma {:induction false} FieldDifferenceIff(a: AnnualCheck, b: AnnualCheck, fields: seq<Field>, d: Difference)
    ensures d in FieldDifferences(a, b, fields)
            <==> d.year == a.year && FieldDiffers(a, b, d) && d.field.value in fields
  {
    if fields != [] {
      var init, last := fields[..|fields| - 1], fields[|fields| - 1];
      FieldDifferenceIff(a, b, init, d);
      assert forall f :: f in fields <==> f in init || f == last;
    }
  }

  lemma {:induction false} DifferenceOfYear(approved: map<int, AnnualCheck>, actual: map<int, AnnualCheck>, years: seq<int>,
                                            d: Difference)
    requires forall y :: y in approved ==> approved[y].year == y
    ensures d in AllDifferences(approved, actual, years)
            <==> d.year in years && d in YearDifferences(approved, actual, d.year)
  {
    if years != [] {
      var init, last := years[..|years| - 1], years[|years| - 1];
      DifferenceOfYear(approved, actual, init, d);
      assert forall y :: y in years <==> y in init || y == last;
      YearOfDifference(approved, actual, last, d);
    }
  }

  lemma {:induction false} YearOfDifference(approved: map<int, AnnualCheck>, actual: map<int, AnnualCheck>, year: int,
                                            d: Difference)
    requires forall y :: y in approved ==> approved[y].year == y
    ensures d in YearDifferences(approved, actual, year) ==> d.year == year
  {
    if year in approved && year in actual {
      FieldDifferenceIff(approved[year], actual[year], FIELDS, d);
    }
  }

  /** A difference is reported exactly when the sides differ there, and in its own column each side's own value. */
  lemma {:induction false} DifferenceIff(approved: seq<AnnualCheck>, actual: seq<AnnualCheck>, d: Difference)
    ensures d in Differences(approved, actual) <==> OneSided(approved, actual, d) || TwoValued(approved, actual, d)
  {
    var a, b := ByYear(approved), ByYear(actual);
    DifferenceOfYear(a, b, YearsOf(approved + actual), d);
    YearInYears(approved, actual, d.year);
    ByYearSays(approved, d.year);
    ByYearSays(actual, d.year);
    if d.year in a && d.year in b {
      FieldDifferenceIff(a[d.year], b[d.year], FIELDS, d);
      EveryFieldIsCompared();
    }
  }

  /** By ascending year, and in a year in the order of the fields. */
  ghost predicate Before(x: Difference, y: Difference) {
    x.year < y.year || (x.year == y.year && x.field.Some? && y.field.Some? && FieldBefore(x.field.value, y.field.value))
  }

  ghost predicate FieldBefore(f: Field, g: Field) {
    exists i, j :: 0 <= i < j < |FIELDS| && FIELDS[i] == f && FIELDS[j] == g
  }

  ghost predicate InReportOrder(ds: seq<Difference>) {
    forall i, j :: 0 <= i < j < |ds| ==> Before(ds[i], ds[j])
  }

  lemma {:induction false} FieldsInOrder(a: AnnualCheck, b: AnnualCheck, n: nat)
    requires n <= |FIELDS|
    ensures InReportOrder(FieldDifferences(a, b, FIELDS[..n]))
    ensures forall d :: d in FieldDifferences(a, b, FIELDS[..n]) ==>
              d.year == a.year && d.field.Some? && exists i :: 0 <= i < n && FIELDS[i] == d.field.value
  {
    if n > 0 {
      FieldsInOrder(a, b, n - 1);
      TakeNext(FIELDS, n - 1);
      var before, all := FieldDifferences(a, b, FIELDS[..n - 1]), FieldDifferences(a, b, FIELDS[..n]);
      forall i, j | 0 <= i < j < |all|
        ensures Before(all[i], all[j])
      {
        if j == |before| {
          assert all[i] == before[i] && before[i] in before;
          var k :| 0 <= k < n - 1 && FIELDS[k] == all[i].field.value;
          assert FIELDS[n - 1] == all[j].field.value;
        }
      }
    }
  }

  lemma {:induction false} YearsInOrder(approved: map<int, AnnualCheck>, actual: map<int, AnnualCheck>, years: seq<int>)
    requires Ascending(years) && forall y :: y in approved ==> approved[y].year == y
    ensures InReportOrder(AllDifferences(approved, actual, years))
  {
    if years != [] {
      var init, last := years[..|years| - 1], years[|years| - 1];
      YearsInOrder(approved, actual, init);
      var before, here := AllDifferences(approved, actual, init), YearDifferences(approved, actual, last);
      if last in approved && last in actual {
        FieldsInOrder(approved[last], actual[last], |FIELDS|);
        TakeAll(FIELDS);
      }
      forall d | d in before
        ensures d.year < last
      {
        DifferenceOfYear(approved, actual, init, d);
      }
      forall d | d in here
        ensures d.year == last
      {
        YearOfDifference(approved, actual, last, d);
      }
      OrderedConcat(before, here, last);
    }
  }

  lemma OrderedConcat(before: seq<Difference>, here: seq<Difference>, year: int)
    requires InReportOrder(before) && InReportOrder(here)
    requires (forall d :: d in before ==> d.year < year) && (forall d :: d in here ==> d.year == year)
    ensures InReportOrder(before + here)
  {
    var all := before + here;
    forall i, j | 0 <= i < j < |all|
      ensures Before(all[i], all[j])
    {
      if i < |before| <= j {
        assert all[i] in before && all[j] in here;
      }
    }
  }

  lemma {:induction false} DifferencesInOrder(approved: seq<AnnualCheck>, actual: seq<AnnualCheck>)
    ensures InReportOrder(Differences(approved, actual))
  {
    YearsInOrder(ByYear(approved), ByYear(actual), YearsOf(approved + actual));
  }

  // ---------- Swapping the sides ----------

  function Swapped(d: Difference): Difference {
    Difference(d.year, d.field, d.actual, d.approved)
  }

  function AllSwapped(ds: seq<Difference>): seq<Difference> {
    seq(|ds|, k requires 0 <= k < |ds| => Swapped(ds[k]))
  }

  lemma AllSwappedConcat(a: seq<Difference>, b: seq<Difference>)
    ensures AllSwapped(a + b) == AllSwapped(a) + AllSwapped(b)
  {
  }

  lemma {:induction false} SwapFields(a: AnnualCheck, b: AnnualCheck, fields: seq<Field>)
    requires a.year == b.year
    ensures FieldDifferences(b, a, fields) == AllSwapped(FieldDifferences(a, b, fields))
  {
    if fields != [] {
      var init, f := fields[..|fields| - 1], fields[|fields| - 1];
      SwapFields(a, b, init);
      var added := if ValueOf(a, f) != ValueOf(b, f)
                   then [Difference(a.year, Some(f), Some(ValueOf(a, f)), Some(ValueOf(b, f)))] else [];
      AllSwappedConcat(FieldDifferences(a, b, init), added);
    }
  }

  lemma {:induction false} SwapYears(a: map<int, AnnualCheck>, b: map<int, AnnualCheck>, years: seq<int>)
    requires forall y :: y in a ==> a[y].year == y
    requires forall y :: y in b ==> b[y].year == y
    ensures AllDifferences(b, a, years) == AllSwapped(AllDifferences(a, b, years))
  {
    if years != [] {
      var init, y := years[..|years| - 1], years[|years| - 1];
      SwapYears(a, b, init);
      AllSwappedConcat(AllDifferences(a, b, init), YearDifferences(a, b, y));
      if y in a && y in b {
        SwapFields(a[y], b[y], FIELDS);
      }
    }
  }

  /** Swapping the arguments only swaps the two value columns: same differences, same order. */
  lemma SwapSwapsColumns(approved: seq<AnnualCheck>, actual: seq<AnnualCheck>)
    ensures Differences(actual, approved) == AllSwapped(Differences(approved, actual))
  {
    forall y
      ensures y in YearsOf(approved + actual) <==> y in YearsOf(actual + approved)
    {
      YearInYears(approved, actual, y);
      YearInYears(actual, approved, y);
    }
    AscendingIsUnique(YearsOf(approved + actual), YearsOf(actual + approved));
    SwapYears(ByYear(approved), ByYear(actual), YearsOf(approved + actual));
  }

  // ---------- The year loop ----------

  datatype Partition = Partition(year: int, rowCount: int, bytes: nat)

  function SumRows(checks: seq<AnnualCheck>): int {
    if checks == [] then 0 else SumRows(checks[..|checks| - 1]) + checks[|checks| - 1].rowCount
  }

  function SumPartitions(partitions: seq<Partition>): int {
    if partitions == [] then 0 else SumPartitions(partitions[..|partitions| - 1]) + partitions[|partitions| - 1].rowCount
  }

  /** What the trade member of each year holds, as its annual check reads it. */
  ghost predicate ChecksOf(members: seq<int>, annualChecks: seq<AnnualCheck>) {
    |annualChecks| == |members| && forall k :: 0 <= k < |members| ==> annualChecks[k].year == members[k]
  }

  /** The years that get a partition: those with an approved check that agrees. */
  ghost predicate Staged(approved: map<int, AnnualCheck>, check: AnnualCheck) {
    check.year in approved && approved[check.year] == check
  }

  ghost function StagedOf(approved: map<int, AnnualCheck>, checks: seq<AnnualCheck>): seq<AnnualCheck> {
    if checks == [] then []
    else
      var last := checks[|checks| - 1];
      StagedOf(approved, checks[..|checks| - 1]) + if Staged(approved, last) then [last] else []
  }

  ghost predicate PartitionsOf(partitions: seq<Partition>, checks: seq<AnnualCheck>) {
    && |partitions| == |checks|
    && forall k :: 0 <= k < |checks| ==> partitions[k].year == checks[k].year && partitions[k].rowCount == checks[k].rowCount
  }

  /** Whether the year's approved check is there and agrees. */
  method Agrees(approvedByYear: map<int, AnnualCheck>, check: AnnualCheck) returns (agrees: bool)
    ensures agrees <==> Staged(approvedByYear, check)
  {
    if check.year !in approvedByYear {
      return false;
    }
    var different := CompareCoverage([approvedByYear[check.year]], [check]);
    SingleAgreesIff(approvedByYear[check.year], check);
    return different == [];
  }

  /**
    The loop over the ingested years: each is checked, and staged only when its approved check agrees.
    Afterwards the whole coverage is compared.
  */
  method ValidateAndStage(approvedChecks: seq<AnnualCheck>, members: seq<int>, read: int -> AnnualCheck, size: int -> nat)
    returns (annualChecks: seq<AnnualCheck>, partitions: seq<Partition>, differences: seq<Difference>)
    requires forall y :: read(y).year == y
    ensures |annualChecks| == |members| && forall k :: 0 <= k < |members| ==> annualChecks[k] == read(members[k])
    ensures PartitionsOf(partitions, StagedOf(ByYear(approvedChecks), annualChecks))
    ensures forall p :: p in partitions ==> p.bytes == size(p.year)
    ensures differences == Differences(approvedChecks, annualChecks)
  {
    var approvedByYear := ByYear(approvedChecks);
    annualChecks, partitions := [], [];
    for n := 0 to |members|
      invariant |annualChecks| == n && forall k :: 0 <= k < n ==> annualChecks[k] == read(members[k])
      invariant PartitionsOf(partitions, StagedOf(approvedByYear, annualChecks))
      invariant forall p :: p in partitions ==> p.bytes == size(p.year)
    {
      var check := read(members[n]);
      StagedOfNext(approvedByYear, annualChecks, check);
      annualChecks := annualChecks + [check];
      var agrees := Agrees(approvedByYear, check);
      if agrees {
        partitions := partitions + [Partition(check.year, check.rowCount, size(check.year))];
      }
    }
    differences := CompareCoverage(approvedChecks, annualChecks);
  }

  lemma {:induction false} StagedOfNext(approved: map<int, AnnualCheck>, checks: seq<AnnualCheck>, check: AnnualCheck)
    ensures StagedOf(approved, checks + [check])
            == StagedOf(approved, checks) + if Staged(approved, check) then [check] else []
  {
    assert (checks + [check])[..|checks|] == checks;
  }

  /** Comparing one check with one other. */
  lemma SingleAgreesIff(a: AnnualCheck, b: AnnualCheck)
    ensures Differences([a], [b]) == [] <==> a == b
  {
    CoverageAgreesIff([a], [b]);
    assert [a][..0] == [] && [b][..0] == [];
    assert ByYear([a]) == map[a.year := a] && ByYear([b]) == map[b.year := b];
    if ByYear([a]) == ByYear([b]) {
      assert a.year in map[b.year := b];
      assert map[a.year := a][a.year] == map[b.year := b][a.year];
    }
  }

  lemma {:induction false} AllStaged(approved: map<int, AnnualCheck>, checks: seq<AnnualCheck>)
    requires forall k :: 0 <= k < |checks| ==> Staged(approved, checks[k])
    ensures StagedOf(approved, checks) == checks
  {
    if checks != [] {
      var init, last := checks[..|checks| - 1], checks[|checks| - 1];
      AllStaged(approved, init);
      StagedOfNext(approved, init, last);
      assert checks == init + [last];
    }
  }

  lemma {:induction false} SameSums(partitions: seq<Partition>, checks: seq<AnnualCheck>)
    requires PartitionsOf(partitions, checks)
    ensures SumPartitions(partitions) == SumRows(checks)
  {
    if checks != [] {
      SameSums(partitions[..|partitions| - 1], checks[..|checks| - 1]);
    }
  }

  lemma {:induction false} DistinctByYear(checks: seq<AnnualCheck>)
    requires forall i, j :: 0 <= i < j < |checks| ==> checks[i].year != checks[j].year
    ensures forall c :: c in checks ==> ByYear(checks)[c.year] == c
  {
    if checks != [] {
      DistinctByYear(checks[..|checks| - 1]);
    }
  }

  /**
    A run without differences has one partition for each ingested year, in ascending order, with the
    year's row count; so the sums that the next stage checks again agree.
  */
  lemma {:induction false} NoDifferencesStagesEveryYear(approved: seq<AnnualCheck>, members: seq<int>,
                                                        annualChecks: seq<AnnualCheck>,
                                     partitions: seq<Partition>)
    requires Ascending(members) && ChecksOf(members, annualChecks)
    requires PartitionsOf(partitions, StagedOf(ByYear(approved), annualChecks))
    requires Differences(approved, annualChecks) == []
    ensures |partitions| == |members|
    ensures forall k :: 0 <= k < |members| ==>
              partitions[k].year == members[k] && partitions[k].rowCount == annualChecks[k].rowCount
    ensures SumPartitions(partitions) == SumRows(annualChecks)
  {
    CoverageAgreesIff(approved, annualChecks);
    DistinctByYear(annualChecks);
    AllStaged(ByYear(approved), annualChecks);
    SameSums(partitions, annualChecks);
  }

  /** The next stage's re-check of the row sums. */
  predicate RowSumsConsistent(partitions: seq<Partition>, annualChecks: seq<AnnualCheck>, manifestRows: int) {
    SumPartitions(partitions) == manifestRows && SumRows(annualChecks) == manifestRows
  }

  /** A manifest written by a run without differences passes the re-check. */
  lemma {:induction false} ManifestPassesRecheck(approved: seq<AnnualCheck>, members: seq<int>,
                                                 annualChecks: seq<AnnualCheck>,
                              partitions: seq<Partition>)
    requires Ascending(members) && ChecksOf(members, annualChecks)
    requires PartitionsOf(partitions, StagedOf(ByYear(approved), annualChecks))
    requires Differences(approved, annualChecks) == []
    ensures RowSumsConsistent(partitions, annualChecks, SumRows(annualChecks))
  {
    NoDifferencesStagesEveryYear(approved, members, annualChecks, partitions);
  }

  /** A year is staged exactly when it was ingested and what was approved last for it is what was read. */
  lemma {:induction false} StagedIff(approved: seq<AnnualCheck>, checks: seq<AnnualCheck>, partitions: seq<Partition>,
                                     year: int, rows: int)
    requires PartitionsOf(partitions, StagedOf(ByYear(approved), checks))
    ensures (exists p :: p in partitions && p.year == year && p.rowCount == rows)
            <==> exists c :: c in checks && c.year == year && c.rowCount == rows && Says(approved, year, c)
  {
    var staged := StagedOf(ByYear(approved), checks);
    ByYearSays(approved, year);
    StagedAre(ByYear(approved), checks);
    if p :| p in partitions && p.year == year && p.rowCount == rows {
      var k :| 0 <= k < |partitions| && partitions[k] == p;
      assert staged[k] in staged;
    }
    if c :| c in checks && c.year == year && c.rowCount == rows && Says(approved, year, c) {
      assert c in staged;
      var k :| 0 <= k < |staged| && staged[k] == c;
      assert partitions[k] in partitions;
    }
  }

  lemma {:induction false} StagedAre(approved: map<int, AnnualCheck>, checks: seq<AnnualCheck>)
    ensures forall c :: c in StagedOf(approved, checks) <==> c in checks && Staged(approved, c)
  {
    if checks != [] {
      var init, last := checks[..|checks| - 1], checks[|checks| - 1];
      StagedAre(approved, init);
      assert forall c :: c in checks <==> c in init || c == last;
    }
  }

  lemma {:induction false} SumChanges(partitions: seq<Partition>, n: nat, rowCount: int)
    requires n < |partitions|
    ensures SumPartitions(partitions[n := partitions[n].(rowCount := rowCount)])
            == SumPartitions(partitions) - partitions[n].rowCount + rowCount
  {
    var last := |partitions| - 1;
    var changed := partitions[n := partitions[n].(rowCount := rowCount)];
    if n < last {
      SumChanges(partitions[..last], n, rowCount);
      assert changed[..last] == partitions[..last][n := partitions[..last][n].(rowCount := rowCount)];
    } else {
      assert changed[..last] == partitions[..last];
    }
  }

  /** The re-check notices a changed row count of any one partition, and a changed total. */
  lemma {:induction false} RecheckNotices(partitions: seq<Partition>, annualChecks: seq<AnnualCheck>, manifestRows: int,
                                          n: nat, rowCount: int, rows: int)
    requires RowSumsConsistent(partitions, annualChecks, manifestRows) && n < |partitions|
    ensures RowSumsConsistent(partitions[n := partitions[n].(rowCount := rowCount)], annualChecks, manifestRows)
            <==> rowCount == partitions[n].rowCount
    ensures RowSumsConsistent(partitions, annualChecks, rows) <==> rows == manifestRows
  {
    SumChanges(partitions, n, rowCount);
  }
}
