/**
  Staging and aggregation of monthly trade, scripts/release/recent-trade-momentum-package.ts: rows are
  folded into keyed buckets, the buckets are laid out on a grid of reporters, products and months, and
  the totals are reconciled.
*/
module Momentum {
  import opened Common

  datatype SpecialCode = None_ | WorldTotal | Confidential | Special

  datatype UpdateState = Preliminary | FinalBySourceSchedule

  datatype Chain = DirectExact | MultiStepExact | NonExact

  datatype PartnerKind = Individual | Aggregate | ConfidentialPartner | Unknown

  datatype SourceRow = SourceRow(
    referenceMonth: string, reporterSourceCode: string, partnerSourceCode: string, cnEditionYear: nat, cn8Code: string,
    valueEur: int, sourceSpecialCode: SpecialCode, updateState: UpdateState)

  datatype RowMapping = RowMapping(exactReviewed: bool, targets: seq<string>, rejectionReasons: seq<string>, chain: Chain)

  /** What rows are looked up in: reporters, partners, and the mapping of CN codes to HS12 products. */
  datatype Reference = Reference(
    reporterIso2: map<string, string>, partnerKind: map<string, PartnerKind>,
    rowMapping: map<(nat, string), RowMapping>, productExactReviewed: map<(nat, string), bool>)

  datatype StagedRow = StagedRow(
    row: SourceRow, reporterIso2: Option<string>, partnerKind: Option<PartnerKind>, hs12Code: Option<string>, eligible: bool)

  function Find<K(==), V>(m: map<K, V>, key: K): Option<V> {
    if key in m then Some(m[key]) else None
  }

  /** One staged row: its look-ups, and whether it may be aggregated. */
  function Stage(ref: Reference, row: SourceRow): StagedRow {
    var reporter := Find(ref.reporterIso2, row.reporterSourceCode);
    var partner := Find(ref.partnerKind, row.partnerSourceCode);
    var mapping := Find(ref.rowMapping, (row.cnEditionYear, row.cn8Code));
    var hs12Code := if mapping.Some? && |mapping.value.targets| == 1 then Some(mapping.value.targets[0]) else None;
    var product := if hs12Code.None? then None else Find(ref.productExactReviewed, (row.cnEditionYear, hs12Code.value));
    StagedRow(row, reporter, partner, hs12Code,
              && reporter.Some? && partner == Some(Individual) && row.sourceSpecialCode == None_
              && mapping.Some? && mapping.value.exactReviewed && mapping.value.rejectionReasons == []
              && product == Some(true))
  }

  function StageAll(ref: Reference, rows: seq<SourceRow>): seq<StagedRow> {
    seq(|rows|, k requires 0 <= k < |rows| => Stage(ref, rows[k]))
  }

  /** An eligible row has a reporter and a product; so the aggregation's further tests never fail. */
  ghost predicate Consistent(r: StagedRow) {
    r.eligible ==> r.reporterIso2.Some? && r.hs12Code.Some?
  }

  lemma StagedIsConsistent(ref: Reference, row: SourceRow)
    ensures Consistent(Stage(ref, row))
    ensures Stage(ref, row).eligible ==> row.sourceSpecialCode == None_
  {
  }

  lemma StageNext(ref: Reference, rows: seq<SourceRow>)
    requires rows != []
    ensures StageAll(ref, rows) == StageAll(ref, rows[..|rows| - 1]) + [Stage(ref, rows[|rows| - 1])]
  {
  }

  lemma {:induction false} StagePermuted(ref: Reference, a: seq<SourceRow>, b: seq<SourceRow>)
    requires multiset(a) == multiset(b)
    ensures multiset(StageAll(ref, a)) == multiset(StageAll(ref, b))
    decreases |a|
  {
    assert |a| == |multiset(a)| == |multiset(b)| == |b|;
    if a != [] {
      var at := LastOfOther(a, b);
      StagePermuted(ref, a[..|a| - 1], b[..at] + b[at + 1..]);
      StageNext(ref, a);
      StageTakeOut(ref, b, at);
    }
  }

  lemma StageTakeOut(ref: Reference, rows: seq<SourceRow>, at: nat)
    requires at < |rows|
    ensures multiset(StageAll(ref, rows)) == multiset(StageAll(ref, rows[..at] + rows[at + 1..]))
            + multiset{Stage(ref, rows[at])}
  {
    var staged := StageAll(ref, rows);
    assert StageAll(ref, rows[..at] + rows[at + 1..]) == staged[..at] + staged[at + 1..];
    TakeOut(staged, at);
  }

  // ---------- Keys ----------

  function MarketKey(referenceMonth: string, reporterIso2: string, hs12Code: string): string {
    referenceMonth + "|" + reporterIso2 + "|" + hs12Code
  }

  ghost predicate NoBar(text: string) {
    '|' !in text
  }

  /** No bar stands behind the one in front of a text without bars. */
  lemma LastBar(a: string, x: string, n: nat)
    requires NoBar(x)
    ensures n < |a + "|" + x| && (a + "|" + x)[n] == '|' ==> n <= |a|
  {
    assert forall k :: |a| < k < |a + "|" + x| ==> (a + "|" + x)[k] == x[k - |a| - 1];
  }

  /** What stands after the last bar is determined by the whole, and so is what stands before it. */
  lemma LastFieldIsUnique(a: string, x: string, b: string, y: string)
    requires a + "|" + x == b + "|" + y && NoBar(x) && NoBar(y)
    ensures a == b && x == y
  {
    var whole := a + "|" + x;
    assert whole[|a|] == '|' && whole[|b|] == '|';
    LastBar(a, x, |b|);
    LastBar(b, y, |a|);
    assert a == whole[..|a|] == b;
    assert x == whole[|a| + 1..] == y;
  }

  /** Keys of components without a bar are as good as the components. */
  lemma MarketKeyIsInjective(m1: string, r1: string, p1: string, m2: string, r2: string, p2: string)
    requires NoBar(r1) && NoBar(p1) && NoBar(r2) && NoBar(p2)
    requires MarketKey(m1, r1, p1) == MarketKey(m2, r2, p2)
    ensures m1 == m2 && r1 == r2 && p1 == p2
  {
    LastFieldIsUnique(m1 + "|" + r1, p1, m2 + "|" + r2, p2);
    LastFieldIsUnique(m1, r1, m2, r2);
  }

  predicate Aggregated(r: StagedRow) {
    r.eligible && r.reporterIso2.Some? && r.hs12Code.Some?
  }

  function KeyOf(r: StagedRow): string {
    if r.reporterIso2.Some? && r.hs12Code.Some? then MarketKey(r.row.referenceMonth, r.reporterIso2.value, r.hs12Code.value)
    else ""
  }

  // ---------- Buckets ----------

  datatype Bucket = Bucket(
    value: int, partners: set<string>, cn8Codes: set<string>, updateStates: set<UpdateState>, chains: set<Chain>)

  const EMPTY_BUCKET := Bucket(0, {}, {}, {}, {})

  function ChainOf(ref: Reference, r: StagedRow): Chain {
    var mapping := Find(ref.rowMapping, (r.row.cnEditionYear, r.row.cn8Code));
    if mapping.Some? && mapping.value.chain == MultiStepExact then MultiStepExact else DirectExact
  }

  function AddToBucket(ref: Reference, bucket: Bucket, r: StagedRow): Bucket {
    Bucket(bucket.value + r.row.valueEur, bucket.partners + {r.row.partnerSourceCode}, bucket.cn8Codes + {r.row.cn8Code},
           bucket.updateStates + {r.row.updateState}, bucket.chains + {ChainOf(ref, r)})
  }

  /** The sum of the values of some of the rows. */
  ghost function SumWhere(rows: seq<StagedRow>, where: StagedRow -> bool): int {
    if rows == [] then 0
    else
      var last := rows[|rows| - 1];
      SumWhere(rows[..|rows| - 1], where) + if where(last) then last.row.valueEur else 0
  }

  predicate All(r: StagedRow) { true }

  ghost function InBucket(key: string): StagedRow -> bool {
    (r: StagedRow) => Aggregated(r) && KeyOf(r) == key
  }

  /** What some of the rows have, as a set. */
  ghost function Image<T>(rows: seq<StagedRow>, where: StagedRow -> bool, f: StagedRow -> T): set<T> {
    set r | r in rows && where(r) :: f(r)
  }

  function PartnerOf(r: StagedRow): string { r.row.partnerSourceCode }

  function Cn8Of(r: StagedRow): string { r.row.cn8Code }

  function UpdateStateOf(r: StagedRow): UpdateState { r.row.updateState }

  function ChainBy(ref: Reference): StagedRow -> Chain {
    (r: StagedRow) => ChainOf(ref, r)
  }

  /** A bucket, without a fold: the sum and the sets of the rows that satisfy `where`. */
  ghost function BucketFor(ref: Reference, rows: seq<StagedRow>, where: StagedRow -> bool): Bucket {
    Bucket(SumWhere(rows, where), Image(rows, where, PartnerOf), Image(rows, where, Cn8Of),
           Image(rows, where, UpdateStateOf), Image(rows, where, ChainBy(ref)))
  }

  /** The buckets of some rows: one for each key that an aggregated row has. */
  ghost predicate BucketsAre(ref: Reference, rows: seq<StagedRow>, buckets: map<string, Bucket>) {
    && (forall key :: key in buckets <==> Image(rows, InBucket(key), PartnerOf) != {})
    && (forall key :: key in buckets ==> buckets[key] == BucketFor(ref, rows, InBucket(key)))
  }

  lemma ImageGrows<T>(rows: seq<StagedRow>, r: StagedRow, where: StagedRow -> bool, f: StagedRow -> T)
    ensures Image(rows + [r], where, f) == Image(rows, where, f) + if where(r) then {f(r)} else {}
  {
    assert forall x :: x in rows + [r] <==> x in rows || x == r;
  }

  lemma BucketGrows(ref: Reference, rows: seq<StagedRow>, where: StagedRow -> bool, r: StagedRow)
    ensures BucketFor(ref, rows + [r], where)
            == if where(r) then AddToBucket(ref, BucketFor(ref, rows, where), r) else BucketFor(ref, rows, where)
  {
    assert (rows + [r])[..|rows|] == rows;
    ImageGrows(rows, r, where, PartnerOf);
    ImageGrows(rows, r, where, Cn8Of);
    ImageGrows(rows, r, where, UpdateStateOf);
    ImageGrows(rows, r, where, ChainBy(ref));
  }

  lemma {:induction false} EmptyBucket(ref: Reference, rows: seq<StagedRow>, where: StagedRow -> bool)
    requires Image(rows, where, PartnerOf) == {}
    ensures BucketFor(ref, rows, where) == EMPTY_BUCKET
  {
    if rows != [] {
      var init, last := rows[..|rows| - 1], rows[|rows| - 1];
      assert rows == init + [last];
      ImageGrows(init, last, where, PartnerOf);
      EmptyBucket(ref, init, where);
      BucketGrows(ref, init, where, last);
    }
  }

  /** The bucket a row is added to, whether it is there already or new. */
  function BucketOf(buckets: map<string, Bucket>, key: string): Bucket {
    if key in buckets then buckets[key] else EMPTY_BUCKET
  }

  lemma BucketOfIs(ref: Reference, rows: seq<StagedRow>, buckets: map<string, Bucket>, key: string)
    requires BucketsAre(ref, rows, buckets)
    ensures BucketOf(buckets, key) == BucketFor(ref, rows, InBucket(key))
  {
    if key !in buckets {
      EmptyBucket(ref, rows, InBucket(key));
    }
  }

  function AddRow(ref: Reference, buckets: map<string, Bucket>, r: StagedRow): map<string, Bucket> {
    if Aggregated(r) then buckets[KeyOf(r) := AddToBucket(ref, BucketOf(buckets, KeyOf(r)), r)] else buckets
  }

  lemma BucketsGrow(ref: Reference, rows: seq<StagedRow>, buckets: map<string, Bucket>, r: StagedRow)
    requires BucketsAre(ref, rows, buckets)
    ensures BucketsAre(ref, rows + [r], AddRow(ref, buckets, r))
  {
    var grown := AddRow(ref, buckets, r);
    forall key
      ensures key in grown <==> Image(rows + [r], InBucket(key), PartnerOf) != {}
      ensures key in grown ==> grown[key] == BucketFor(ref, rows + [r], InBucket(key))
    {
      BucketOfIs(ref, rows, buckets, key);
      BucketGrows(ref, rows, InBucket(key), r);
      ImageGrows(rows, r, InBucket(key), PartnerOf);
    }
  }

  // ---------- Order does not matter ----------

  lemma {:induction false} SumWhereConcat(a: seq<StagedRow>, b: seq<StagedRow>, where: StagedRow -> bool)
    ensures SumWhere(a + b, where) == SumWhere(a, where) + SumWhere(b, where)
  {
    if b == [] {
      assert a + b == a;
    } else {
      assert (a + b)[..|a + b| - 1] == a + b[..|b| - 1];
      SumWhereConcat(a, b[..|b| - 1], where);
    }
  }

  lemma {:induction false} SumWherePermuted(a: seq<StagedRow>, b: seq<StagedRow>, where: StagedRow -> bool)
    requires multiset(a) == multiset(b)
    ensures SumWhere(a, where) == SumWhere(b, where)
    decreases |a|
  {
    assert |a| == |multiset(a)| == |multiset(b)| == |b|;
    if a != [] {
      var at := LastOfOther(a, b);
      SumWherePermuted(a[..|a| - 1], b[..at] + b[at + 1..], where);
      SumWhereConcat(b[..at], b[at + 1..], where);
      TakeNext(b, at);
      assert b == b[..at + 1] + b[at + 1..];
      SumWhereConcat(b[..at + 1], b[at + 1..], where);
    }
  }

  lemma ImagePermuted<T>(a: seq<StagedRow>, b: seq<StagedRow>, where: StagedRow -> bool, f: StagedRow -> T)
    requires multiset(a) == multiset(b)
    ensures Image(a, where, f) == Image(b, where, f)
  {
    assert forall r :: r in a <==> r in multiset(a);
    assert forall r :: r in b <==> r in multiset(b);
  }

  lemma BucketPermuted(ref: Reference, a: seq<StagedRow>, b: seq<StagedRow>, where: StagedRow -> bool)
    requires multiset(a) == multiset(b)
    ensures BucketFor(ref, a, where) == BucketFor(ref, b, where)
  {
    SumWherePermuted(a, b, where);
    ImagePermuted(a, b, where, PartnerOf);
    ImagePermuted(a, b, where, Cn8Of);
    ImagePermuted(a, b, where, UpdateStateOf);
    ImagePermuted(a, b, where, ChainBy(ref));
  }

  lemma BucketIgnoresOrder(ref: Reference, a: seq<StagedRow>, b: seq<StagedRow>,
                           x: map<string, Bucket>, y: map<string, Bucket>,
                           key: string)
    requires multiset(a) == multiset(b) && BucketsAre(ref, a, x) && BucketsAre(ref, b, y)
    ensures key in x <==> key in y
    ensures BucketOf(x, key) == BucketOf(y, key)
  {
    BucketOfIs(ref, a, x, key);
    BucketOfIs(ref, b, y, key);
    BucketPermuted(ref, a, b, InBucket(key));
    ImagePermuted(a, b, InBucket(key), PartnerOf);
  }

  /**
    Rows in any other order give the same buckets: the same keys, sums, partners and codes, and the same
    update states and mapping chains.
  */
  lemma BucketsIgnoreOrder(ref: Reference, a: seq<StagedRow>, b: seq<StagedRow>,
                           x: map<string, Bucket>, y: map<string, Bucket>)
    requires multiset(a) == multiset(b) && BucketsAre(ref, a, x) && BucketsAre(ref, b, y)
    ensures x == y
  {
    forall key
      ensures (key in x <==> key in y) && BucketOf(x, key) == BucketOf(y, key)
    {
      BucketIgnoresOrder(ref, a, b, x, y, key);
    }
    SameBuckets(x, y);
  }

  lemma SameBuckets(x: map<string, Bucket>, y: map<string, Bucket>)
    requires forall key :: (key in x <==> key in y) && BucketOf(x, key) == BucketOf(y, key)
    ensures x == y
  {
    assert forall key :: key in x ==> x[key] == BucketOf(x, key);
    assert forall key :: key in y ==> y[key] == BucketOf(y, key);
  }
}
