/**
  The report tree of scripts/promotion/measure-market-analysis-launch.ts apart from the walk over it:
  each spec has one place, and the order of what the report lists does not matter.
*/
module ReportTrees {
  import opened Common
  import opened LaunchEvidence

  // ---------- The order of specs ----------

  /** What each spec of a list contributes. */
  function Outcomes(specs: seq<Json>, idsOf: string -> seq<string>): seq<Result<seq<Event>>> {
    seq(|specs|, k requires 0 <= k < |specs| => SpecEvents(specs[k], idsOf))
  }

  lemma OutcomesWithout(specs: seq<Json>, at: nat, idsOf: string -> seq<string>)
    requires at < |specs|
    ensures Outcomes(specs[..at] + specs[at + 1..], idsOf) == Outcomes(specs, idsOf)[..at] + Outcomes(specs, idsOf)[at + 1..]
    ensures Outcomes(specs[..at], idsOf) == Outcomes(specs, idsOf)[..at]
  {
  }

  /** The events of a list are those of the list without one spec, and those of the spec. */
  lemma {:induction false} EventsTakeOut(specs: seq<Json>, at: nat, idsOf: string -> seq<string>)
    requires at < |specs|
    ensures var rest := EventsOf(specs[..at] + specs[at + 1..], idsOf);
            var one := SpecEvents(specs[at], idsOf);
            && (EventsOf(specs, idsOf).Ok? <==> rest.Ok? && one.Ok?)
            && (EventsOf(specs, idsOf).Ok? ==>
                multiset(EventsOf(specs, idsOf).value) == multiset(rest.value) + multiset(one.value))
  {
    var before, after := specs[..at], specs[at + 1..];
    TakeNext(specs, at);
    assert specs == specs[..at + 1] + after;
    EventsConcat(specs[..at + 1], after, idsOf);
    EventsConcat(before, after, idsOf);
  }

  /** Specs that contribute the same, in another order, give the same events in another order. */
  lemma {:induction false} EventsPermuted(a: seq<Json>, b: seq<Json>, idsOf: string -> seq<string>)
    requires multiset(Outcomes(a, idsOf)) == multiset(Outcomes(b, idsOf)) && EventsOf(a, idsOf).Ok?
    ensures EventsOf(b, idsOf).Ok?
    ensures multiset(EventsOf(a, idsOf).value) == multiset(EventsOf(b, idsOf).value)
    decreases |a|
  {
    assert |a| == |multiset(Outcomes(a, idsOf))| == |multiset(Outcomes(b, idsOf))| == |b|;
    if a != [] {
      var at := LastOfOther(Outcomes(a, idsOf), Outcomes(b, idsOf));
      var init := a[..|a| - 1];
      OutcomesWithout(a, |a| - 1, idsOf);
      OutcomesWithout(b, at, idsOf);
      EventsTakeOut(a, |a| - 1, idsOf);
      EventsTakeOut(b, at, idsOf);
      assert init + a[|a| - 1 + 1..] == init;
      EventsPermuted(init, b[..at] + b[at + 1..], idsOf);
    }
  }

  lemma {:induction false} OccurrencesAreMultiplicities(events: seq<Event>, id: string)
    ensures Occurrences(events, id) == multiset(events)[Event(id, true)] + multiset(events)[Event(id, false)]
  {
    if events != [] {
      OccurrencesAreMultiplicities(events[..|events| - 1], id);
      assert events == events[..|events| - 1] + [events[|events| - 1]];
    }
  }

  /** Specs that contribute the same, in any order, are judged the same: as well-formed or not, and for every id. */
  lemma {:induction false} VerdictIgnoresOrder(a: seq<Json>, b: seq<Json>, idsOf: string -> seq<string>, id: string)
    requires multiset(Outcomes(a, idsOf)) == multiset(Outcomes(b, idsOf))
    ensures EventsOf(a, idsOf).Ok? <==> EventsOf(b, idsOf).Ok?
    ensures TaggedOncePassed(a, idsOf, id) <==> TaggedOncePassed(b, idsOf, id)
  {
    if EventsOf(a, idsOf).Ok? {
      EventsPermuted(a, b, idsOf);
    } else if EventsOf(b, idsOf).Ok? {
      EventsPermuted(b, a, idsOf);
    }
    if EventsOf(a, idsOf).Ok? && EventsOf(b, idsOf).Ok? {
      SameEventsSameJudgement(EventsOf(a, idsOf).value, EventsOf(b, idsOf).value, id);
    }
  }

  lemma SameEventsSameJudgement(x: seq<Event>, y: seq<Event>, id: string)
    requires multiset(x) == multiset(y)
    ensures OncePassed(x, id) <==> OncePassed(y, id)
  {
    OccurrencesAreMultiplicities(x, id);
    OccurrencesAreMultiplicities(y, id);
    assert Event(id, true) in x <==> Event(id, true) in multiset(x);
    assert Event(id, true) in y <==> Event(id, true) in multiset(y);
  }

  lemma {:induction false} SpecsInItemsPermuted(a: seq<Json>, b: seq<Json>)
    requires multiset(a) == multiset(b)
    ensures multiset(SpecsInItems(a)) == multiset(SpecsInItems(b))
    decreases |a|
  {
    assert |a| == |multiset(a)| == |multiset(b)| == |b|;
    if a != [] {
      var at := LastOfOther(a, b);
      SpecsInItemsPermuted(a[..|a| - 1], b[..at] + b[at + 1..]);
      SpecsInItemsWithout(b, at);
    }
  }

  lemma {:induction false} SpecsInItemsConcat(a: seq<Json>, b: seq<Json>)
    ensures SpecsInItems(a + b) == SpecsInItems(a) + SpecsInItems(b)
    decreases |b|
  {
    if b == [] {
      assert a + b == a;
    } else {
      assert (a + b)[..|a + b| - 1] == a + b[..|b| - 1];
      SpecsInItemsConcat(a, b[..|b| - 1]);
    }
  }

  lemma {:induction false} SpecsInItemsWithout(b: seq<Json>, at: nat)
    requires at < |b|
    ensures multiset(SpecsInItems(b)) == multiset(SpecsInItems(b[..at] + b[at + 1..])) + multiset(AllSpecs(b[at]))
  {
    var before, after := b[..at], b[at + 1..];
    SpecsInItemsConcat(before, after);
    SpecsInItemsAround(b, at);
    SameBag(SpecsInItems(before), AllSpecs(b[at]), SpecsInItems(after));
  }

  lemma {:induction false} SpecsInItemsAround(b: seq<Json>, at: nat)
    requires at < |b|
    ensures SpecsInItems(b) == SpecsInItems(b[..at]) + AllSpecs(b[at]) + SpecsInItems(b[at + 1..])
  {
    TakeNext(b, at);
    assert b == b[..at + 1] + b[at + 1..];
    SpecsInItemsConcat(b[..at + 1], b[at + 1..]);
  }

  lemma SameBag(x: seq<Json>, y: seq<Json>, z: seq<Json>)
    ensures multiset(x + y + z) == multiset(x + z) + multiset(y)
  {
  }

  // ---------- Reordered reports ----------

  /**
    The same tree with the entries of arrays, at any depth, in another order. The tests of a spec keep
    theirs, with all they contain: a spec is judged by its tests up to the first that fails, and a test by
    its last result.
  */
  ghost predicate Reordered(x: Json, y: Json)
    decreases x
  {
    match x
    case Array(items) =>
      y.Array? && exists listed: seq<Json> :: multiset(listed) == multiset(y.items) && ItemsReordered(items, listed)
    case Record(fields) => y.Record? && FieldsReordered(fields, y.fields)
    case _ => x == y
  }

  ghost predicate ItemsReordered(a: seq<Json>, b: seq<Json>)
    decreases a
  {
    |a| == |b| && forall k :: 0 <= k < |a| ==> Reordered(a[k], b[k])
  }

  ghost predicate FieldsReordered(a: seq<Field>, b: seq<Field>)
    decreases a
  {
    && |a| == |b|
    && forall k :: 0 <= k < |a| ==>
         && a[k].name == b[k].name
         && if a[k].name == "tests" then a[k].value == b[k].value else Reordered(a[k].value, b[k].value)
  }

  lemma {:induction false} LookupReordered(a: seq<Field>, b: seq<Field>, name: string)
    requires FieldsReordered(a, b)
    ensures if name == "tests" then Lookup(a, name) == Lookup(b, name) else Reordered(Lookup(a, name), Lookup(b, name))
    decreases |a|
  {
    if a != [] {
      LookupReordered(a[..|a| - 1], b[..|b| - 1], name);
    }
  }

  /** A spec in another order contributes the same. */
  lemma {:induction false} SpecEventsReordered(x: Json, y: Json, idsOf: string -> seq<string>)
    requires Reordered(x, y)
    ensures SpecEvents(x, idsOf) == SpecEvents(y, idsOf)
  {
    if x.Record? {
      LookupReordered(x.fields, y.fields, "title");
      LookupReordered(x.fields, y.fields, "tests");
      LookupReordered(x.fields, y.fields, "ok");
    }
  }

  lemma {:induction false} OutcomesReordered(a: seq<Json>, b: seq<Json>, idsOf: string -> seq<string>)
    requires ItemsReordered(a, b)
    ensures Outcomes(a, idsOf) == Outcomes(b, idsOf)
  {
    forall k | 0 <= k < |a|
      ensures SpecEvents(a[k], idsOf) == SpecEvents(b[k], idsOf)
    {
      SpecEventsReordered(a[k], b[k], idsOf);
    }
  }

  lemma {:induction false} OutcomesPermuted(a: seq<Json>, b: seq<Json>, idsOf: string -> seq<string>)
    requires multiset(a) == multiset(b)
    ensures multiset(Outcomes(a, idsOf)) == multiset(Outcomes(b, idsOf))
    decreases |a|
  {
    assert |a| == |multiset(a)| == |multiset(b)| == |b|;
    if a != [] {
      var at := LastOfOther(a, b);
      OutcomesPermuted(a[..|a| - 1], b[..at] + b[at + 1..], idsOf);
      OutcomesTakeOut(b, at, idsOf);
      OutcomesTakeOut(a, |a| - 1, idsOf);
      assert a[..|a| - 1] + a[|a| - 1 + 1..] == a[..|a| - 1];
    }
  }

  lemma OutcomesTakeOut(specs: seq<Json>, at: nat, idsOf: string -> seq<string>)
    requires at < |specs|
    ensures multiset(Outcomes(specs, idsOf))
            == multiset(Outcomes(specs[..at] + specs[at + 1..], idsOf)) + multiset{SpecEvents(specs[at], idsOf)}
  {
    OutcomesWithout(specs, at, idsOf);
    TakeOut(Outcomes(specs, idsOf), at);
  }

  /** What two lists of specs contribute, taken together. */
  lemma OutcomesConcat(a: seq<Json>, b: seq<Json>, idsOf: string -> seq<string>)
    ensures Outcomes(a + b, idsOf) == Outcomes(a, idsOf) + Outcomes(b, idsOf)
  {
  }

  lemma {:induction false} SpecsOfReordered(x: Json, y: Json, idsOf: string -> seq<string>)
    requires x.Record? && Reordered(x, y)
    ensures multiset(Outcomes(SpecsOf(x), idsOf)) == multiset(Outcomes(SpecsOf(y), idsOf))
  {
    LookupReordered(x.fields, y.fields, "specs");
    var a, b := Get(x, "specs"), Get(y, "specs");
    if a.Array? {
      var listed: seq<Json> :| multiset(listed) == multiset(b.items) && ItemsReordered(a.items, listed);
      OutcomesReordered(a.items, listed, idsOf);
      OutcomesPermuted(listed, b.items, idsOf);
    }
  }

  /** The specs of a reordered tree contribute the same, each as often. */
  lemma {:induction false} SpecsReordered(x: Json, y: Json, idsOf: string -> seq<string>)
    requires Reordered(x, y)
    ensures multiset(Outcomes(AllSpecs(x), idsOf)) == multiset(Outcomes(AllSpecs(y), idsOf))
    decreases x, 1
  {
    match x
    case Array(items) =>
      var listed: seq<Json> :| multiset(listed) == multiset(y.items) && ItemsReordered(items, listed);
      ItemSpecsReordered(items, listed, idsOf);
      SpecsInItemsPermuted(listed, y.items);
      OutcomesPermuted(SpecsInItems(listed), SpecsInItems(y.items), idsOf);
    case Record(fields) =>
      SpecsOfReordered(x, y, idsOf);
      FieldSpecsReordered(fields, y.fields, idsOf);
      OutcomesConcat(SpecsOf(x), SpecsInFields(fields), idsOf);
      OutcomesConcat(SpecsOf(y), SpecsInFields(y.fields), idsOf);
    case _ =>
  }

  lemma {:induction false} ItemSpecsReordered(a: seq<Json>, b: seq<Json>, idsOf: string -> seq<string>)
    requires ItemsReordered(a, b)
    ensures multiset(Outcomes(SpecsInItems(a), idsOf)) == multiset(Outcomes(SpecsInItems(b), idsOf))
    decreases a, 0
  {
    if a != [] {
      var m, n := a[..|a| - 1], b[..|b| - 1];
      ItemSpecsReordered(m, n, idsOf);
      SpecsReordered(a[|a| - 1], b[|b| - 1], idsOf);
      OutcomesConcat(SpecsInItems(m), AllSpecs(a[|a| - 1]), idsOf);
      OutcomesConcat(SpecsInItems(n), AllSpecs(b[|b| - 1]), idsOf);
    }
  }

  lemma {:induction false} FieldSpecsReordered(a: seq<Field>, b: seq<Field>, idsOf: string -> seq<string>)
    requires FieldsReordered(a, b)
    ensures multiset(Outcomes(SpecsInFields(a), idsOf)) == multiset(Outcomes(SpecsInFields(b), idsOf))
    decreases a, 0
  {
    if a != [] {
      var m, n := a[..|a| - 1], b[..|b| - 1];
      var v, w := a[|a| - 1].value, b[|b| - 1].value;
      FieldSpecsReordered(m, n, idsOf);
      if a[|a| - 1].name != "tests" {
        SpecsReordered(v, w, idsOf);
      }
      OutcomesConcat(SpecsInFields(m), AllSpecs(v), idsOf);
      OutcomesConcat(SpecsInFields(n), AllSpecs(w), idsOf);
    }
  }

  /**
    The verdict on a report is the same however its arrays, at any depth, are ordered: both reports are
    malformed or neither is, and the same ids are tagged once by a spec that passed.
  */
  lemma {:induction false} ReportOrderDoesNotMatter(x: Json, y: Json, idsOf: string -> seq<string>)
    requires Reordered(x, y)
    ensures EventsOf(AllSpecs(x), idsOf).Ok? <==> EventsOf(AllSpecs(y), idsOf).Ok?
    ensures forall id :: TaggedOncePassed(AllSpecs(x), idsOf, id) <==> TaggedOncePassed(AllSpecs(y), idsOf, id)
  {
    SpecsReordered(x, y, idsOf);
    VerdictIgnoresOrder(AllSpecs(x), AllSpecs(y), idsOf, "");
    forall id
      ensures TaggedOncePassed(AllSpecs(x), idsOf, id) <==> TaggedOncePassed(AllSpecs(y), idsOf, id)
    {
      VerdictIgnoresOrder(AllSpecs(x), AllSpecs(y), idsOf, id);
    }
  }

  // ---------- The places of specs ----------

  /** Where a spec stands: the path to a record, child by child, and the index in the record's `specs` list. */
  datatype Place = Place(path: seq<nat>, index: nat)

  /** The number of children the walk goes on to. */
  function Children(value: Json): nat {
    match value
    case Array(items) => |items|
    case Record(fields) => |fields|
    case _ => 0
  }

  function Child(value: Json, k: nat): (child: Json)
    requires k < Children(value)
    ensures child < value
  {
    match value
    case Array(items) => items[k]
    case Record(fields) => fields[k].value
  }

  function NodeAt(value: Json, path: seq<nat>): Option<Json> {
    if path == [] then Some(value)
    else if path[0] >= Children(value) then None
    else NodeAt(Child(value, path[0]), path[1..])
  }

  /** The `specs` list of the node at the end of a path, if there is one. */
  function SpecsAt(value: Json, path: seq<nat>): seq<Json> {
    var node := NodeAt(value, path);
    if node.Some? && node.value.Record? then SpecsOf(node.value) else []
  }

  ghost predicate IsPlace(value: Json, p: Place) {
    p.index < |SpecsAt(value, p.path)|
  }

  /** The places below child `k`. */
  function Below(k: nat, places: seq<Place>): seq<Place> {
    seq(|places|, i requires 0 <= i < |places| => Place([k] + places[i].path, places[i].index))
  }

  /** The specs of the first `n` children. */
  function SpecsOfChildren(value: Json, n: nat): seq<Json>
    requires n <= Children(value)
  {
    if n == 0 then [] else SpecsOfChildren(value, n - 1) + AllSpecs(Child(value, n - 1))
  }

  function OwnSpecs(value: Json): seq<Json> {
    if value.Record? then SpecsOf(value) else []
  }

  lemma {:induction false} SpecsOfFirstItems(items: seq<Json>, n: nat)
    requires n <= |items|
    ensures SpecsOfChildren(Array(items), n) == SpecsInItems(items[..n])
  {
    if n > 0 {
      SpecsOfFirstItems(items, n - 1);
      TakeNext(items, n - 1);
    }
  }

  lemma {:induction false} SpecsOfFirstFields(fields: seq<Field>, n: nat)
    requires n <= |fields|
    ensures SpecsOfChildren(Record(fields), n) == SpecsInFields(fields[..n])
  {
    if n > 0 {
      SpecsOfFirstFields(fields, n - 1);
      TakeNext(fields, n - 1);
    }
  }

  lemma {:induction false} AllSpecsAreOwnAndChildren(value: Json)
    ensures AllSpecs(value) == OwnSpecs(value) + SpecsOfChildren(value, Children(value))
  {
    match value
    case Array(items) =>
      SpecsOfFirstItems(items, |items|);
      TakeAll(items);
    case Record(fields) =>
      SpecsOfFirstFields(fields, |fields|);
      TakeAll(fields);
    case _ =>
  }

  /** Each of the places satisfies `among`, and the spec beside it stands there. */
  ghost predicate StandAt(value: Json, among: Place -> bool, places: seq<Place>, specs: seq<Json>) {
    && |places| == |specs|
    && forall k :: 0 <= k < |places| ==>
         IsPlace(value, places[k]) && among(places[k]) && SpecsAt(value, places[k].path)[places[k].index] == specs[k]
  }

  ghost predicate NoRepeats(places: seq<Place>) {
    forall i, j :: 0 <= i < j < |places| ==> places[i] != places[j]
  }

  ghost predicate NoneMissing(value: Json, among: Place -> bool, places: seq<Place>) {
    forall p :: IsPlace(value, p) && among(p) ==> p in places
  }

  /** `places` lists the places that satisfy `among`, each once, and `specs` what stands there. */
  ghost predicate Lists(value: Json, among: Place -> bool, places: seq<Place>, specs: seq<Json>) {
    StandAt(value, among, places, specs) && NoRepeats(places) && NoneMissing(value, among, places)
  }

  lemma StandConcat(value: Json, first: Place -> bool, second: Place -> bool, both: Place -> bool,
                    a: seq<Place>, b: seq<Place>, s: seq<Json>, t: seq<Json>)
    requires StandAt(value, first, a, s) && StandAt(value, second, b, t)
    requires forall p :: both(p) <==> first(p) || second(p)
    ensures StandAt(value, both, a + b, s + t)
  {
    forall k | 0 <= k < |a + b|
      ensures var p := (a + b)[k];
              IsPlace(value, p) && both(p) && SpecsAt(value, p.path)[p.index] == (s + t)[k]
    {
      if k < |a| {
        assert IsPlace(value, a[k]) && first(a[k]);
      } else {
        assert IsPlace(value, b[k - |a|]) && second(b[k - |a|]);
      }
    }
  }

  lemma NoRepeatsConcat(first: Place -> bool, second: Place -> bool, a: seq<Place>, b: seq<Place>)
    requires NoRepeats(a) && NoRepeats(b)
    requires forall k :: 0 <= k < |a| ==> first(a[k])
    requires forall k :: 0 <= k < |b| ==> second(b[k])
    requires forall p :: !(first(p) && second(p))
    ensures NoRepeats(a + b)
  {
    forall i, j | 0 <= i < j < |a + b|
      ensures (a + b)[i] != (a + b)[j]
    {
      if i < |a| <= j {
        assert first(a[i]) && second(b[j - |a|]);
      }
    }
  }

  /** Two lists of different places make one. */
  lemma ListsConcat(value: Json, first: Place -> bool, second: Place -> bool, both: Place -> bool,
                    a: seq<Place>, b: seq<Place>, s: seq<Json>, t: seq<Json>)
    requires Lists(value, first, a, s) && Lists(value, second, b, t)
    requires forall p :: both(p) <==> first(p) || second(p)
    requires forall p :: !(first(p) && second(p))
    ensures Lists(value, both, a + b, s + t)
  {
    StandConcat(value, first, second, both, a, b, s, t);
    NoRepeatsConcat(first, second, a, b);
    forall p | IsPlace(value, p) && both(p)
      ensures p in a + b
    {
      assert p in a || p in b;
    }
  }

  ghost function Everywhere(): Place -> bool {
    p => true
  }

  ghost function AtTop(): Place -> bool {
    (p: Place) => p.path == []
  }

  ghost function InFirstChildren(n: nat): Place -> bool {
    (p: Place) => p.path != [] && p.path[0] < n
  }

  function OwnPlaces(n: nat): seq<Place> {
    seq(n, k requires 0 <= k < n => Place([], k))
  }

  lemma ListsOwn(value: Json)
    ensures Lists(value, AtTop(), OwnPlaces(|OwnSpecs(value)|), OwnSpecs(value))
  {
    var places := OwnPlaces(|OwnSpecs(value)|);
    forall p | IsPlace(value, p) && AtTop()(p)
      ensures p in places
    {
      assert p == Place([], p.index);
      assert places[p.index] == p;
    }
  }

  /** A place below a child, seen from the child and from its parent. */
  lemma PlaceBelow(value: Json, k: nat, p: Place)
    requires k < Children(value)
    ensures SpecsAt(value, [k] + p.path) == SpecsAt(Child(value, k), p.path)
  {
    assert ([k] + p.path)[1..] == p.path;
  }

  ghost function InChild(n: nat): Place -> bool {
    (p: Place) => p.path != [] && p.path[0] == n
  }

  lemma BelowStand(value: Json, n: nat, inner: seq<Place>)
    requires n < Children(value) && StandAt(Child(value, n), Everywhere(), inner, AllSpecs(Child(value, n)))
    ensures StandAt(value, InChild(n), Below(n, inner), AllSpecs(Child(value, n)))
  {
    var below := Below(n, inner);
    forall k | 0 <= k < |below|
      ensures IsPlace(value, below[k]) && SpecsAt(value, below[k].path)[below[k].index] == AllSpecs(Child(value, n))[k]
    {
      PlaceBelow(value, n, inner[k]);
    }
  }

  lemma BelowNoRepeats(n: nat, inner: seq<Place>)
    requires NoRepeats(inner)
    ensures NoRepeats(Below(n, inner))
  {
    var below := Below(n, inner);
    forall i, j | 0 <= i < j < |below|
      ensures below[i] != below[j]
    {
      assert below[i].path[1..] == inner[i].path && below[j].path[1..] == inner[j].path;
    }
  }

  lemma BelowNoneMissing(value: Json, n: nat, inner: seq<Place>)
    requires n < Children(value) && NoneMissing(Child(value, n), Everywhere(), inner)
    ensures NoneMissing(value, InChild(n), Below(n, inner))
  {
    forall p | IsPlace(value, p) && InChild(n)(p)
      ensures p in Below(n, inner)
    {
      var q := Place(p.path[1..], p.index);
      assert p.path == [n] + q.path;
      PlaceBelow(value, n, q);
      assert IsPlace(Child(value, n), q) && Everywhere()(q);
      var k :| 0 <= k < |inner| && inner[k] == q;
      assert Below(n, inner)[k] == p;
    }
  }

  /** The places of one more child. */
  lemma ListsNextChild(value: Json, n: nat, places: seq<Place>, inner: seq<Place>)
    requires n < Children(value)
    requires Lists(value, InFirstChildren(n), places, SpecsOfChildren(value, n))
    requires Lists(Child(value, n), Everywhere(), inner, AllSpecs(Child(value, n)))
    ensures Lists(value, InFirstChildren(n + 1), places + Below(n, inner), SpecsOfChildren(value, n + 1))
  {
    BelowStand(value, n, inner);
    BelowNoRepeats(n, inner);
    BelowNoneMissing(value, n, inner);
    ListsConcat(value, InFirstChildren(n), InChild(n), InFirstChildren(n + 1), places, Below(n, inner),
                SpecsOfChildren(value, n), AllSpecs(Child(value, n)));
  }

  lemma {:induction false} ListsChildren(value: Json, n: nat) returns (places: seq<Place>)
    requires n <= Children(value)
    ensures Lists(value, InFirstChildren(n), places, SpecsOfChildren(value, n))
    decreases value, n
  {
    if n == 0 {
      places := [];
    } else {
      var before := ListsChildren(value, n - 1);
      var inner := EverySpecOnce(Child(value, n - 1));
      ListsNextChild(value, n - 1, before, inner);
      places := before + Below(n - 1, inner);
    }
  }

  /**
    The specs the walk visits, in its order, are the specs at all the places of the tree, each place once:
    whatever the nesting, no spec is passed over and none is visited twice.
  */
  lemma {:induction false} EverySpecOnce(value: Json) returns (places: seq<Place>)
    ensures Lists(value, Everywhere(), places, AllSpecs(value))
    decreases value, Children(value) + 1
  {
    var own := OwnPlaces(|OwnSpecs(value)|);
    var below := ListsChildren(value, Children(value));
    ListsOwn(value);
    AllSpecsAreOwnAndChildren(value);
    places := own + below;
    ListsBoth(value, own, below);
  }

  lemma {:induction false} ListsBoth(value: Json, own: seq<Place>, below: seq<Place>)
    requires Lists(value, AtTop(), own, OwnSpecs(value))
    requires Lists(value, InFirstChildren(Children(value)), below, SpecsOfChildren(value, Children(value)))
    ensures Lists(value, Everywhere(), own + below, OwnSpecs(value) + SpecsOfChildren(value, Children(value)))
  {
    var specs := OwnSpecs(value) + SpecsOfChildren(value, Children(value));
    ListsConcat(value, AtTop(), InFirstChildren(Children(value)), AtTopOrInChildren(Children(value)), own, below,
                OwnSpecs(value), SpecsOfChildren(value, Children(value)));
    forall p | IsPlace(value, p)
      ensures p in own + below
    {
      PlaceIsInChildren(value, p);
    }
  }

  ghost function AtTopOrInChildren(n: nat): Place -> bool {
    (p: Place) => p.path == [] || p.path[0] < n
  }

  lemma PlaceIsInChildren(value: Json, p: Place)
    requires IsPlace(value, p)
    ensures AtTopOrInChildren(Children(value))(p)
  {
  }
}
