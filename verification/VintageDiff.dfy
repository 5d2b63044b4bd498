/**
  Two vintages of keyed values compared: what was inserted, deleted and changed, and how far the vintages
  are apart. The revision report of scripts/release/recent-trade-momentum-package.ts is stated in it.
*/
module VintageDiff {

  /** What is compared of a row. */
  datatype Entry<S> = Entry(value: int, state: S)

  type Vintage<K, S> = map<K, Entry<S>>

  // ---------- Sums over keys ----------

  ghost function SumOver<K(!new)>(keys: set<K>, f: K -> int): int {
    if keys == {} then 0
    else
      var key :| key in keys;
      f(key) + SumOver(keys - {key}, f)
  }

  lemma {:induction false} SumOverPick<K(!new)>(keys: set<K>, f: K -> int, key: K)
    requires key in keys
    ensures SumOver(keys, f) == f(key) + SumOver(keys - {key}, f)
    decreases keys
  {
    var first :| first in keys && SumOver(keys, f) == f(first) + SumOver(keys - {first}, f);
    if first != key {
      SumOverPick(keys - {first}, f, key);
      SumOverPick(keys - {key}, f, first);
      assert keys - {first} - {key} == keys - {key} - {first};
    }
  }

  lemma {:induction false} SumOverAdd<K(!new)>(keys: set<K>, more: set<K>, f: K -> int, key: K)
    requires key !in keys && forall x :: x in more <==> x in keys || x == key
    ensures SumOver(more, f) == SumOver(keys, f) + f(key)
  {
    SumOverPick(more, f, key);
    assert more - {key} == keys;
  }

  lemma {:induction false} SumOverUnion<K(!new)>(a: set<K>, b: set<K>, whole: set<K>, f: K -> int)
    requires forall x :: x in whole <==> x in a || x in b
    requires forall x :: x in a ==> x !in b
    ensures SumOver(whole, f) == SumOver(a, f) + SumOver(b, f)
    decreases b
  {
    if b == {} {
      assert whole == a;
    } else {
      var key :| key in b;
      SumOverPick(b, f, key);
      SumOverPick(whole, f, key);
      SumOverUnion(a, b - {key}, whole - {key}, f);
    }
  }

  /** Keys that contribute nothing may be left out. */
  lemma {:induction false} SumOverZeros<K(!new)>(keys: set<K>, f: K -> int)
    requires forall key :: key in keys ==> f(key) == 0
    ensures SumOver(keys, f) == 0
    decreases keys
  {
    if keys != {} {
      var key :| key in keys;
      SumOverPick(keys, f, key);
      SumOverZeros(keys - {key}, f);
    }
  }

  lemma {:induction false} SumOverExtend<K(!new)>(keys: set<K>, more: set<K>, f: K -> int)
    requires keys <= more && forall key :: key in more - keys ==> f(key) == 0
    ensures SumOver(more, f) == SumOver(keys, f)
  {
    SumOverZeros(more - keys, f);
    SumOverUnion(keys, more - keys, more, f);
  }

  lemma {:induction false} SumOverAtMost<K(!new)>(keys: set<K>, f: K -> int, g: K -> int, h: K -> int)
    requires forall key :: key in keys ==> f(key) <= g(key) + h(key)
    ensures SumOver(keys, f) <= SumOver(keys, g) + SumOver(keys, h)
    decreases keys
  {
    if keys != {} {
      var key :| key in keys;
      SumOverPick(keys, f, key);
      SumOverPick(keys, g, key);
      SumOverPick(keys, h, key);
      SumOverAtMost(keys - {key}, f, g, h);
    }
  }

  lemma {:induction false} SumOverSame<K(!new)>(a: set<K>, b: set<K>, f: K -> int, g: K -> int)
    requires forall key :: key in a <==> key in b
    requires forall key :: key in a ==> f(key) == g(key)
    ensures SumOver(a, f) == SumOver(b, g)
    decreases a
  {
    if a == {} {
      assert b == {};
    } else {
      var key :| key in a;
      SumOverPick(a, f, key);
      SumOverPick(b, g, key);
      SumOverSame(a - {key}, b - {key}, f, g);
    }
  }

  // ---------- The report ----------

  function Abs(value: int): nat {
    if value < 0 then -value else value
  }

  /** The value under a key; a missing row counts as 0. */
  function ValueAt<K(!new), S>(v: Vintage<K, S>, key: K): int {
    if key in v then v[key].value else 0
  }

  ghost function Distance<K(!new), S>(a: Vintage<K, S>, b: Vintage<K, S>): K -> int {
    key => Abs(ValueAt(b, key) - ValueAt(a, key))
  }

  /** What the report adds up: signed values of inserted and deleted rows, and absolute changes of the others. */
  ghost function Change<K(!new), S>(previous: Vintage<K, S>, current: Vintage<K, S>): K -> int {
    key => if key in previous && key in current then Abs(ValueAt(current, key) - ValueAt(previous, key))
           else ValueAt(current, key) + ValueAt(previous, key)
  }

  ghost predicate ValueChanged<K(!new), S>(previous: Vintage<K, S>, current: Vintage<K, S>, key: K) {
    key in previous && key in current && current[key].value != previous[key].value
  }

  ghost predicate StateChanged<K(!new), S>(previous: Vintage<K, S>, current: Vintage<K, S>, key: K) {
    key in previous && key in current && current[key].state != previous[key].state
  }

  datatype Counts = Counts(inserted: nat, deleted: nat, valueChanged: nat, stateChanged: nat, untouched: nat)

  datatype Event = RevisionUpdate | RevisionRetraction | RevisionReinstatement

  datatype Report = Report(counts: Counts, events: seq<Event>, absoluteValueDelta: int)

  /** Those of the keys that a vintage does not have. */
  ghost function Without<K(!new), S>(among: set<K>, v: Vintage<K, S>): set<K> {
    set key | key in among && key !in v
  }

  ghost function ValueChanges<K(!new), S>(previous: Vintage<K, S>, current: Vintage<K, S>, among: set<K>): set<K> {
    set key | key in among && ValueChanged(previous, current, key)
  }

  ghost function StateChanges<K(!new), S>(previous: Vintage<K, S>, current: Vintage<K, S>, among: set<K>): set<K> {
    set key | key in among && StateChanged(previous, current, key)
  }

  /** Kept rows in which nothing that is compared differs. */
  ghost function Unchanged<K(!new), S>(previous: Vintage<K, S>, current: Vintage<K, S>, among: set<K>): set<K> {
    set key | key in among && key in previous && key in current
              && !ValueChanged(previous, current, key) && !StateChanged(previous, current, key)
  }

  /** The counts of the keys looked at: some of the current ones, and some of the previous ones. */
  ghost function CountsOf<K(!new), S>(previous: Vintage<K, S>, current: Vintage<K, S>, now: set<K>, before: set<K>): Counts {
    Counts(|Without(now, previous)|, |Without(before, current)|, |ValueChanges(previous, current, now)|,
           |StateChanges(previous, current, now)|, |Unchanged(previous, current, now)|)
  }

  function EventsOf(counts: Counts): seq<Event> {
    (if counts.valueChanged > 0 then [RevisionUpdate] else [])
    + (if counts.deleted > 0 then [RevisionRetraction] else [])
    + (if counts.inserted > 0 then [RevisionReinstatement] else [])
  }

  ghost function Either<K(!new), S>(a: Vintage<K, S>, b: Vintage<K, S>): set<K> {
    a.Keys + b.Keys
  }

  ghost function Delta<K(!new), S>(previous: Vintage<K, S>, current: Vintage<K, S>): int {
    SumOver(Either(previous, current), Change(previous, current))
  }

  /** The report between two vintages, without a loop. */
  ghost function ReportOf<K(!new), S>(previous: Vintage<K, S>, current: Vintage<K, S>): Report {
    var counts := CountsOf(previous, current, current.Keys, previous.Keys);
    Report(counts, EventsOf(counts), Delta(previous, current))
  }

  /** The delta of the keys looked at so far. */
  ghost function DeltaSoFar<K(!new), S>(previous: Vintage<K, S>, current: Vintage<K, S>, now: set<K>, before: set<K>): int {
    SumOver(now, Change(previous, current)) + SumOver(Without(before, current), Change(previous, current))
  }

  /** Looking at the current keys, then at the previous ones that are gone, is looking at either once. */
  lemma DeltaInTwoParts<K(!new), S>(previous: Vintage<K, S>, current: Vintage<K, S>)
    ensures DeltaSoFar(previous, current, current.Keys, previous.Keys) == Delta(previous, current)
  {
    SumOverUnion(current.Keys, Without(previous.Keys, current), Either(previous, current), Change(previous, current));
  }

  lemma SizeGrows<K(!new)>(small: set<K>, large: set<K>, key: K, more: bool)
    requires key !in small && forall x :: x in large <==> x in small || (more && x == key)
    ensures |large| == |small| + if more then 1 else 0
  {
    assert large == if more then small + {key} else small;
  }

  /** What looking at one more current key adds. */
  lemma CurrentKeyCounts<K(!new), S>(previous: Vintage<K, S>, current: Vintage<K, S>, now: set<K>, key: K)
    requires key !in now && key in current
    ensures var was, seen := CountsOf(previous, current, now, {}), CountsOf(previous, current, now + {key}, {});
            && seen.deleted == was.deleted
            && seen.inserted == was.inserted + (if key !in previous then 1 else 0)
            && seen.valueChanged == was.valueChanged + (if ValueChanged(previous, current, key) then 1 else 0)
            && seen.stateChanged == was.stateChanged + (if StateChanged(previous, current, key) then 1 else 0)
            && seen.untouched == was.untouched
               + if key in previous && !ValueChanged(previous, current, key) && !StateChanged(previous, current, key)
                 then 1 else 0
  {
    var more := now + {key};
    SizeGrows(Without(now, previous), Without(more, previous), key, key !in previous);
    SizeGrows(ValueChanges(previous, current, now), ValueChanges(previous, current, more), key,
              ValueChanged(previous, current, key));
    SizeGrows(StateChanges(previous, current, now), StateChanges(previous, current, more), key,
              StateChanged(previous, current, key));
    SizeGrows(Unchanged(previous, current, now), Unchanged(previous, current, more), key,
              key in previous && !ValueChanged(previous, current, key) && !StateChanged(previous, current, key));
  }

  lemma CurrentKeyDelta<K(!new), S>(previous: Vintage<K, S>, current: Vintage<K, S>, now: set<K>, key: K)
    requires key !in now && key in current
    ensures DeltaSoFar(previous, current, now + {key}, {})
            == DeltaSoFar(previous, current, now, {})
               + if key in previous then Abs(current[key].value - previous[key].value) else current[key].value
  {
    SumOverAdd(now, now + {key}, Change(previous, current), key);
  }

  /** What looking at one more previous key adds. */
  lemma PreviousKeyCounts<K(!new), S>(previous: Vintage<K, S>, current: Vintage<K, S>, now: set<K>, before: set<K>, key: K)
    requires key !in before
    ensures CountsOf(previous, current, now, before + {key})
            == var was := CountsOf(previous, current, now, before);
               if key in current then was else was.(deleted := was.deleted + 1)
  {
    SizeGrows(Without(before, current), Without(before + {key}, current), key, key !in current);
  }

  lemma PreviousKeyDelta<K(!new), S>(previous: Vintage<K, S>, current: Vintage<K, S>, now: set<K>, before: set<K>, key: K)
    requires key !in before && key in previous
    ensures DeltaSoFar(previous, current, now, before + {key})
            == DeltaSoFar(previous, current, now, before) + if key in current then 0 else previous[key].value
  {
    if key in current {
      assert Without(before + {key}, current) == Without(before, current);
    } else {
      SumOverAdd(Without(before, current), Without(before + {key}, current), Change(previous, current), key);
    }
  }

  // ---------- The distance of two vintages ----------

  ghost function L1<K(!new), S>(a: Vintage<K, S>, b: Vintage<K, S>): int {
    SumOver(Either(a, b), Distance(a, b))
  }

  lemma {:induction false} L1OnMore<K(!new), S>(a: Vintage<K, S>, b: Vintage<K, S>, keys: set<K>)
    requires forall key :: key in Either(a, b) ==> key in keys
    ensures SumOver(keys, Distance(a, b)) == L1(a, b)
  {
    SumOverExtend(Either(a, b), keys, Distance(a, b));
  }

  lemma L1IsSymmetric<K(!new), S>(a: Vintage<K, S>, b: Vintage<K, S>)
    ensures L1(a, b) == L1(b, a)
  {
    SumOverSame(Either(a, b), Either(b, a), Distance(a, b), Distance(b, a));
  }

  lemma {:induction false} TriangleOn<K(!new), S>(keys: set<K>, a: Vintage<K, S>, b: Vintage<K, S>, c: Vintage<K, S>)
    ensures SumOver(keys, Distance(a, c)) <= SumOver(keys, Distance(a, b)) + SumOver(keys, Distance(b, c))
  {
    SumOverAtMost(keys, Distance(a, c), Distance(a, b), Distance(b, c));
  }

  lemma TriangleWithin<K(!new), S>(keys: set<K>, a: Vintage<K, S>, b: Vintage<K, S>, c: Vintage<K, S>)
    requires forall key :: key in a || key in b || key in c ==> key in keys
    ensures L1(a, c) <= L1(a, b) + L1(b, c)
  {
    TriangleOn(keys, a, b, c);
    L1OnMore(a, b, keys);
    L1OnMore(b, c, keys);
    L1OnMore(a, c, keys);
  }

  /** No vintage in between makes the way shorter. */
  lemma L1Triangle<K(!new), S>(a: Vintage<K, S>, b: Vintage<K, S>, c: Vintage<K, S>)
    ensures L1(a, c) <= L1(a, b) + L1(b, c)
  {
    TriangleWithin(a.Keys + b.Keys + c.Keys, a, b, c);
  }

  /** The distance is 0 exactly when both vintages say the same under every key, a missing row saying 0. */
  lemma L1IsZeroIff<K(!new), S>(a: Vintage<K, S>, b: Vintage<K, S>)
    ensures L1(a, b) >= 0
    ensures L1(a, b) == 0 <==> forall key :: key in Either(a, b) ==> ValueAt(a, key) == ValueAt(b, key)
  {
    SumIsZeroIff(Either(a, b), Distance(a, b));
    assert forall key :: Distance(a, b)(key) == 0 <==> ValueAt(a, key) == ValueAt(b, key);
  }

  lemma {:induction false} SumIsZeroIff<K(!new)>(keys: set<K>, f: K -> int)
    requires forall key :: key in keys ==> f(key) >= 0
    ensures SumOver(keys, f) >= 0
    ensures SumOver(keys, f) == 0 <==> forall key :: key in keys ==> f(key) == 0
    decreases keys
  {
    if keys != {} {
      var key :| key in keys;
      SumOverPick(keys, f, key);
      SumIsZeroIff(keys - {key}, f);
    }
  }

  ghost function Signed<K(!new), S>(v: Vintage<K, S>): K -> int {
    key => ValueAt(v, key)
  }

  ghost function Total<K(!new), S>(v: Vintage<K, S>): int {
    SumOver(v.Keys, Signed(v))
  }

  /** One total exceeds the other by no more than the distance. */
  lemma TotalGrowsAtMost<K(!new), S>(a: Vintage<K, S>, b: Vintage<K, S>)
    ensures Total(b) <= Total(a) + L1(a, b)
  {
    var keys := Either(a, b);
    SumOverExtend(a.Keys, keys, Signed(a));
    SumOverExtend(b.Keys, keys, Signed(b));
    SumOverAtMost(keys, Signed(b), Signed(a), Distance(a, b));
  }

  /** One entry more under a new key. */
  lemma TotalOfOneMore<K(!new), S>(v: Vintage<K, S>, more: Vintage<K, S>, key: K)
    requires key !in v && key in more && more == v[key := more[key]]
    ensures Total(more) == Total(v) + more[key].value
  {
    SumOverAdd(v.Keys, more.Keys, Signed(more), key);
    SumOverSame(v.Keys, v.Keys, Signed(more), Signed(v));
  }

  lemma L1BoundsTotalChange<K(!new), S>(a: Vintage<K, S>, b: Vintage<K, S>)
    ensures Abs(Total(b) - Total(a)) <= L1(a, b)
  {
    TotalGrowsAtMost(a, b);
    TotalGrowsAtMost(b, a);
    L1IsSymmetric(a, b);
  }

  // ---------- What the report says ----------

  /** Only one of the vintages has a row under the key, and its value is negative. */
  ghost predicate NegativeOneSided<K(!new), S>(previous: Vintage<K, S>, current: Vintage<K, S>, key: K) {
    && (key in previous <==> key !in current)
    && (ValueAt(previous, key) < 0 || ValueAt(current, key) < 0)
  }

  ghost function Shortfall<K(!new), S>(previous: Vintage<K, S>, current: Vintage<K, S>): K -> int {
    key => Distance(previous, current)(key) - Change(previous, current)(key)
  }

  lemma {:induction false} SumOfDifference<K(!new), S>(keys: set<K>, previous: Vintage<K, S>, current: Vintage<K, S>)
    ensures SumOver(keys, Shortfall(previous, current))
            == SumOver(keys, Distance(previous, current)) - SumOver(keys, Change(previous, current))
    decreases keys
  {
    if keys != {} {
      var key :| key in keys;
      SumOverPick(keys, Shortfall(previous, current), key);
      SumOverPick(keys, Distance(previous, current), key);
      SumOverPick(keys, Change(previous, current), key);
      SumOfDifference(keys - {key}, previous, current);
    }
  }

  /**
    The reported delta is the distance of the two vintages exactly when no inserted and no deleted row has
    a negative value: those rows are added with their sign. It is never more than the distance.
  */
  lemma DeltaIsDistanceIff<K(!new), S>(previous: Vintage<K, S>, current: Vintage<K, S>)
    ensures Delta(previous, current) <= L1(previous, current)
    ensures Delta(previous, current) == L1(previous, current)
            <==> forall key :: key in Either(previous, current) ==> !NegativeOneSided(previous, current, key)
  {
    var keys := Either(previous, current);
    SumOfDifference(keys, previous, current);
    forall key | key in keys
      ensures Shortfall(previous, current)(key) >= 0
      ensures Shortfall(previous, current)(key) == 0 <==> !NegativeOneSided(previous, current, key)
    {
      ShortfallIsZeroIff(previous, current, key);
    }
    SumIsZeroIff(keys, Shortfall(previous, current));
  }

  lemma ShortfallIsZeroIff<K(!new), S>(previous: Vintage<K, S>, current: Vintage<K, S>, key: K)
    requires key in Either(previous, current)
    ensures Shortfall(previous, current)(key) >= 0
    ensures Shortfall(previous, current)(key) == 0 <==> !NegativeOneSided(previous, current, key)
  {
    var before, now := ValueAt(previous, key), ValueAt(current, key);
    assert Distance(previous, current)(key) == Abs(now - before);
    assert Change(previous, current)(key) == if key in previous && key in current then Abs(now - before) else now + before;
  }

  /** A deleted row of negative value: the delta is negative, the distance is not. */
  lemma NegativeRowFoolsDelta<K(!new), S>(key: K, entry: Entry<S>)
    requires entry.value < 0
    ensures var previous: Vintage<K, S> := map[key := entry];
            Delta(previous, map[]) < 0 < L1(previous, map[])
  {
    var previous: Vintage<K, S>, none: Vintage<K, S> := map[key := entry], map[];
    SumOverPick(Either(previous, none), Change(previous, none), key);
    SumOverPick(Either(previous, none), Distance(previous, none), key);
    assert Either(previous, none) - {key} == {};
  }

  lemma SwappedCounts<K(!new), S>(previous: Vintage<K, S>, current: Vintage<K, S>)
    ensures CountsOf(current, previous, previous.Keys, current.Keys)
            == var there := CountsOf(previous, current, current.Keys, previous.Keys);
               there.(inserted := there.deleted, deleted := there.inserted)
  {
    assert ValueChanges(previous, current, current.Keys) == ValueChanges(current, previous, previous.Keys);
    assert StateChanges(previous, current, current.Keys) == StateChanges(current, previous, previous.Keys);
    assert Unchanged(previous, current, current.Keys) == Unchanged(current, previous, previous.Keys);
  }

  lemma SwappedDelta<K(!new), S>(previous: Vintage<K, S>, current: Vintage<K, S>)
    ensures Delta(current, previous) == Delta(previous, current)
  {
    SumOverSame(Either(previous, current), Either(current, previous), Change(previous, current), Change(current, previous));
  }

  lemma EventsIff(counts: Counts)
    ensures RevisionUpdate in EventsOf(counts) <==> counts.valueChanged > 0
    ensures RevisionRetraction in EventsOf(counts) <==> counts.deleted > 0
    ensures RevisionReinstatement in EventsOf(counts) <==> counts.inserted > 0
  {
  }

  /** Reading the vintages the other way round exchanges inserted and deleted, and keeps all the rest. */
  lemma SwappedReport<K(!new), S>(previous: Vintage<K, S>, current: Vintage<K, S>)
    ensures var there, back := ReportOf(previous, current), ReportOf(current, previous);
            && back.counts == there.counts.(inserted := there.counts.deleted, deleted := there.counts.inserted)
            && back.absoluteValueDelta == there.absoluteValueDelta
            && (RevisionUpdate in back.events <==> RevisionUpdate in there.events)
            && (RevisionRetraction in back.events <==> RevisionReinstatement in there.events)
            && (RevisionReinstatement in back.events <==> RevisionRetraction in there.events)
  {
    SwappedCounts(previous, current);
    SwappedDelta(previous, current);
    EventsIff(CountsOf(current, previous, previous.Keys, current.Keys));
    EventsIff(CountsOf(previous, current, current.Keys, previous.Keys));
  }

  /** The keys of both vintages. */
  ghost function Kept<K(!new), S>(previous: Vintage<K, S>, current: Vintage<K, S>): set<K> {
    set key | key in current && key in previous
  }

  ghost function ChangedTwice<K(!new), S>(previous: Vintage<K, S>, current: Vintage<K, S>): set<K> {
    set key | key in current && ValueChanged(previous, current, key) && StateChanged(previous, current, key)
  }

  lemma SizeOfParts<K(!new)>(whole: set<K>, a: set<K>, b: set<K>)
    requires forall x :: x in whole <==> x in a || x in b
    requires forall x :: x in a ==> x !in b
    ensures |whole| == |a| + |b|
  {
    assert whole == a + b;
  }

  lemma SizeOfUnion<K(!new)>(whole: set<K>, a: set<K>, b: set<K>, both: set<K>)
    requires forall x :: x in whole <==> x in a || x in b
    requires forall x :: x in both <==> x in a && x in b
    ensures |whole| == |a| + |b| - |both|
  {
    assert whole == a + b && both == a * b;
  }

  /** The counts account for every row of both vintages; a kept row may have changed in both ways. */
  lemma CountsAddUp<K(!new), S>(previous: Vintage<K, S>, current: Vintage<K, S>)
    ensures var counts := ReportOf(previous, current).counts;
            && |current.Keys| == |Kept(previous, current)| + counts.inserted
            && |previous.Keys| == |Kept(previous, current)| + counts.deleted
            && |Kept(previous, current)|
               == counts.valueChanged + counts.stateChanged - |ChangedTwice(previous, current)| + counts.untouched
  {
    var kept, keys := Kept(previous, current), current.Keys;
    SizeOfParts(keys, kept, Without(keys, previous));
    SizeOfParts(previous.Keys, kept, Without(previous.Keys, current));
    var changed := set key | key in keys && (ValueChanged(previous, current, key) || StateChanged(previous, current, key));
    SizeOfUnion(changed, ValueChanges(previous, current, keys), StateChanges(previous, current, keys),
                ChangedTwice(previous, current));
    SizeOfParts(kept, changed, Unchanged(previous, current, keys));
  }

  /** Both vintages have the same keys, with the same values and states. */
  ghost predicate Agree<K(!new), S>(previous: Vintage<K, S>, current: Vintage<K, S>) {
    && (forall key :: key in previous <==> key in current)
    && (forall key :: !ValueChanged(previous, current, key))
    && (forall key :: !StateChanged(previous, current, key))
  }

  /** Nothing is reported exactly when both vintages agree. */
  lemma NothingReportedIff<K(!new), S>(previous: Vintage<K, S>, current: Vintage<K, S>)
    ensures var counts := CountsOf(previous, current, current.Keys, previous.Keys);
            EventsOf(counts) == [] && counts.stateChanged == 0 <==> Agree(previous, current)
  {
    var inserted, deleted := Without(current.Keys, previous), Without(previous.Keys, current);
    var values, states := ValueChanges(previous, current, current.Keys), StateChanges(previous, current, current.Keys);
    EmptyIff(inserted);
    EmptyIff(deleted);
    EmptyIff(values);
    EmptyIff(states);
    assert forall key :: key in inserted <==> key in current && key !in previous;
    assert forall key :: key in deleted <==> key in previous && key !in current;
    assert forall key :: key in values <==> ValueChanged(previous, current, key);
    assert forall key :: key in states <==> StateChanged(previous, current, key);
  }

  lemma EmptyIff<K(!new)>(keys: set<K>)
    ensures |keys| == 0 <==> forall key :: key !in keys
  {
    assert keys == {} <==> forall key :: key !in keys;
  }

  lemma SomeDeletedSomeInserted<K(!new), S>(previous: Vintage<K, S>, current: Vintage<K, S>, gone: K, added: K)
    requires gone in Without(previous.Keys, current) && added in Without(current.Keys, previous)
    ensures RevisionRetraction in ReportOf(previous, current).events
    ensures RevisionReinstatement in ReportOf(previous, current).events
  {
    EmptyIff(Without(previous.Keys, current));
    EmptyIff(Without(current.Keys, previous));
    EventsIff(CountsOf(previous, current, current.Keys, previous.Keys));
  }

  /** One entry replaced by one under another key: a deletion and an insertion, and nothing else. */
  lemma ReplacedUnderAnotherKey<K(!new), S>(rest: Vintage<K, S>, gone: K, was: Entry<S>, added: K, now: Entry<S>)
    requires gone !in rest && added !in rest && gone != added
    ensures ReportOf(rest[gone := was], rest[added := now])
            == Report(Counts(1, 1, 0, 0, |rest|), [RevisionRetraction, RevisionReinstatement], was.value + now.value)
  {
    ReplacedCounts(rest, gone, was, added, now);
    ReplacedDelta(rest, gone, was, added, now);
  }

  lemma ReplacedCounts<K(!new), S>(rest: Vintage<K, S>, gone: K, was: Entry<S>, added: K, now: Entry<S>)
    requires gone !in rest && added !in rest && gone != added
    ensures var previous, current := rest[gone := was], rest[added := now];
            CountsOf(previous, current, current.Keys, previous.Keys) == Counts(1, 1, 0, 0, |rest|)
  {
    var previous, current := rest[gone := was], rest[added := now];
    OnlyOne(Without(current.Keys, previous), added);
    OnlyOne(Without(previous.Keys, current), gone);
    EmptyIff(ValueChanges(previous, current, current.Keys));
    EmptyIff(StateChanges(previous, current, current.Keys));
    assert Unchanged(previous, current, current.Keys) == rest.Keys;
  }

  lemma ReplacedDelta<K(!new), S>(rest: Vintage<K, S>, gone: K, was: Entry<S>, added: K, now: Entry<S>)
    requires gone !in rest && added !in rest && gone != added
    ensures Delta(rest[gone := was], rest[added := now]) == was.value + now.value
  {
    var previous, current := rest[gone := was], rest[added := now];
    SumOverZeros(rest.Keys, Change(previous, current));
    SumOverAdd(rest.Keys, current.Keys, Change(previous, current), added);
    SumOverAdd(current.Keys, Either(previous, current), Change(previous, current), gone);
  }

  lemma OnlyOne<K(!new)>(keys: set<K>, key: K)
    requires key in keys && forall x :: x in keys ==> x == key
    ensures |keys| == 1
  {
    assert keys == {key};
  }
}
