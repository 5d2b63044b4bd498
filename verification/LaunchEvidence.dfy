/**
  The exactly-once launch evidence of scripts/promotion/measure-market-analysis-launch.ts: a walk over
  a browser report of any nesting, folded into a map of outcomes.
*/
module LaunchEvidence {
  import opened Common

  datatype Json =
    | Null
    | Bool(b: bool)
    | Number(n: int)
    | Text(s: string)
    | Array(items: seq<Json>)
    | Record(fields: seq<Field>)

  datatype Field = Field(name: string, value: Json)

  /** A value, or the error that a malformed report raises. */
  datatype Result<+T> = Ok(value: T) | Invalid

  /** The value of a field; `Null` stands for a field that is not there. */
  function Get(record: Json, name: string): Json
    requires record.Record?
  {
    Lookup(record.fields, name)
  }

  function Lookup(fields: seq<Field>, name: string): Json {
    if fields == [] then Null
    else if fields[|fields| - 1].name == name then fields[|fields| - 1].value
    else Lookup(fields[..|fields| - 1], name)
  }

  // ---------- One spec ----------

  /** The outcome of one test: expected, with a final result that passed. */
  function TestPassed(rawTest: Json): Result<bool> {
    if !rawTest.Record? then Invalid
    else
      var results := Get(rawTest, "results");
      if !results.Array? then Invalid
      else if Get(rawTest, "status") != Text("expected") || results.items == [] then Ok(false)
      else
        var final := results.items[|results.items| - 1];
        if !final.Record? then Invalid else Ok(Get(final, "status") == Text("passed"))
  }

  /** `every`: stops at the first test that did not pass. */
  function EveryTestPassed(tests: seq<Json>): Result<bool> {
    if tests == [] then Ok(true)
    else
      var first := TestPassed(tests[0]);
      if first == Ok(true) then EveryTestPassed(tests[1..]) else first
  }

  /** One tag of a title with the outcome of its spec. */
  datatype Event = Event(id: string, passed: bool)

  function Tagged(ids: seq<string>, passed: bool): seq<Event> {
    seq(|ids|, k requires 0 <= k < |ids| => Event(ids[k], passed))
  }

  /** What one entry of a `specs` list contributes; `idsOf` finds the evidence tags of a title. */
  function SpecEvents(rawSpec: Json, idsOf: string -> seq<string>): Result<seq<Event>> {
    if !rawSpec.Record? then Invalid
    else if !Get(rawSpec, "title").Text? then Ok([])
    else if !Get(rawSpec, "tests").Array? then Invalid
    else
      var ids := idsOf(Get(rawSpec, "title").s);
      var tests := Get(rawSpec, "tests").items;
      if Get(rawSpec, "ok") != Bool(true) || tests == [] then Ok(Tagged(ids, false))
      else
        var passed := EveryTestPassed(tests);
        if passed.Invalid? then Invalid else Ok(Tagged(ids, passed.value))
  }

  function SpecsOf(record: Json): seq<Json>
    requires record.Record?
  {
    if Get(record, "specs").Array? then Get(record, "specs").items else []
  }

  // ---------- The fold ----------

  /** `recordLaunchEvidenceOutcome`: true only for an id that is new and passed. */
  function Observe(observed: map<string, bool>, e: Event): map<string, bool> {
    observed[e.id := e.id !in observed && e.passed]
  }

  function ObserveAll(observed: map<string, bool>, events: seq<Event>): map<string, bool> {
    if events == [] then observed
    else Observe(ObserveAll(observed, events[..|events| - 1]), events[|events| - 1])
  }

  function Occurrences(events: seq<Event>, id: string): nat {
    if events == [] then 0
    else Occurrences(events[..|events| - 1], id) + if events[|events| - 1].id == id then 1 else 0
  }

  /** An id is accepted exactly when it occurs once, with an outcome that passed. */
  lemma {:induction false} ObservedIff(events: seq<Event>, id: string)
    ensures var observed := ObserveAll(map[], events);
            && (id in observed <==> Occurrences(events, id) > 0)
            && (id in observed && observed[id] <==> Occurrences(events, id) == 1 && Event(id, true) in events)
  {
    if events != [] {
      var init, last := events[..|events| - 1], events[|events| - 1];
      ObservedIff(init, id);
      NoOccurrence(init, id);
      assert forall e :: e in events <==> e in init || e == last;
    }
  }

  lemma {:induction false} NoOccurrence(events: seq<Event>, id: string)
    ensures Occurrences(events, id) == 0 <==> forall e :: e in events ==> e.id != id
  {
    if events != [] {
      var init, last := events[..|events| - 1], events[|events| - 1];
      NoOccurrence(init, id);
      assert forall e :: e in events <==> e in init || e == last;
    }
  }

  lemma {:induction false} ObserveConcat(observed: map<string, bool>, a: seq<Event>, b: seq<Event>)
    ensures ObserveAll(observed, a + b) == ObserveAll(ObserveAll(observed, a), b)
  {
    if b == [] {
      assert a + b == a;
    } else {
      assert (a + b)[..|a + b| - 1] == a + b[..|b| - 1];
      ObserveConcat(observed, a, b[..|b| - 1]);
    }
  }

  // ---------- The walk ----------

  /** Every entry of every `specs` list of the tree, whatever it is nested in. */
  function AllSpecs(value: Json): seq<Json>
    decreases value
  {
    match value
    case Array(items) => SpecsInItems(items)
    case Record(fields) => SpecsOf(value) + SpecsInFields(fields)
    case _ => []
  }

  function SpecsInItems(items: seq<Json>): seq<Json>
    decreases items
  {
    if items == [] then [] else SpecsInItems(items[..|items| - 1]) + AllSpecs(items[|items| - 1])
  }

  function SpecsInFields(fields: seq<Field>): seq<Json>
    decreases fields
  {
    if fields == [] then [] else SpecsInFields(fields[..|fields| - 1]) + AllSpecs(fields[|fields| - 1].value)
  }

  /** What a list of specs contributes, or the error of one that is malformed. */
  function EventsOf(specs: seq<Json>, idsOf: string -> seq<string>): Result<seq<Event>> {
    if specs == [] then Ok([])
    else
      Then(EventsOf(specs[..|specs| - 1], idsOf), SpecEvents(specs[|specs| - 1], idsOf))
  }

  /** The events of two lists, one after the other. */
  function Then(a: Result<seq<Event>>, b: Result<seq<Event>>): Result<seq<Event>> {
    if a.Invalid? || b.Invalid? then Invalid else Ok(a.value + b.value)
  }

  lemma ThenRegroups(a: Result<seq<Event>>, b: Result<seq<Event>>, c: Result<seq<Event>>)
    ensures Then(Then(a, b), c) == Then(a, Then(b, c))
  {
    if a.Ok? && b.Ok? && c.Ok? {
      Regroup(a.value, b.value, c.value);
    }
  }

  lemma Regroup(a: seq<Event>, b: seq<Event>, c: seq<Event>)
    ensures a + b + c == a + (b + c)
  {
  }

  lemma {:induction false} EventsConcat(a: seq<Json>, b: seq<Json>, idsOf: string -> seq<string>)
    ensures EventsOf(a + b, idsOf) == Then(EventsOf(a, idsOf), EventsOf(b, idsOf))
  {
    if b == [] {
      assert a + b == a;
      ThenNothing(EventsOf(a, idsOf));
    } else {
      var init, last := b[..|b| - 1], SpecEvents(b[|b| - 1], idsOf);
      LastOfConcat(a, b);
      EventsConcat(a, init, idsOf);
      ThenRegroups(EventsOf(a, idsOf), EventsOf(init, idsOf), last);
    }
  }

  lemma ThenNothing(a: Result<seq<Event>>)
    ensures Then(a, Ok([])) == a
  {
    if a.Ok? {
      assert a.value + [] == a.value;
    }
  }

  lemma LastOfConcat(a: seq<Json>, b: seq<Json>)
    requires b != []
    ensures (a + b)[..|a + b| - 1] == a + b[..|b| - 1] && (a + b)[|a + b| - 1] == b[|b| - 1]
  {
  }

  /** The map after some more specs, or the error. */
  ghost function After(observed: map<string, bool>, specs: seq<Json>, idsOf: string -> seq<string>)
    : Result<map<string, bool>>
  {
    var events := EventsOf(specs, idsOf);
    if events.Invalid? then Invalid else Ok(ObserveAll(observed, events.value))
  }

  lemma AfterConcat(observed: map<string, bool>, a: seq<Json>, b: seq<Json>, idsOf: string -> seq<string>)
    ensures After(observed, a + b, idsOf)
            == if After(observed, a, idsOf).Invalid? then Invalid
               else After(After(observed, a, idsOf).value, b, idsOf)
  {
    EventsConcat(a, b, idsOf);
    if EventsOf(a, idsOf).Ok? && EventsOf(b, idsOf).Ok? {
      ObserveConcat(observed, EventsOf(a, idsOf).value, EventsOf(b, idsOf).value);
    }
  }

  lemma {:induction false} AfterOne(observed: map<string, bool>, spec: Json, idsOf: string -> seq<string>)
    ensures After(observed, [spec], idsOf)
            == if SpecEvents(spec, idsOf).Invalid? then Invalid
               else Ok(ObserveAll(observed, SpecEvents(spec, idsOf).value))
  {
    assert [spec][..0] == [] && EventsOf([], idsOf) == Ok([]);
    assert SpecEvents(spec, idsOf).Ok? ==> [] + SpecEvents(spec, idsOf).value == SpecEvents(spec, idsOf).value;
  }

  method ObserveEach(observed: map<string, bool>, events: seq<Event>) returns (after: map<string, bool>)
    ensures after == ObserveAll(observed, events)
  {
    after := observed;
    for n := 0 to |events|
      invariant after == ObserveAll(observed, events[..n])
    {
      TakeNext(events, n);
      after := Observe(after, events[n]);
    }
    TakeAll(events);
  }

  /** The loop over one `specs` list. */
  method CollectSpecs(specs: seq<Json>, observed: map<string, bool>, idsOf: string -> seq<string>)
    returns (result: Result<map<string, bool>>)
    ensures result == After(observed, specs, idsOf)
  {
    var current := observed;
    for n := 0 to |specs|
      invariant After(observed, specs[..n], idsOf) == Ok(current)
    {
      TakeNext(specs, n);
      AfterConcat(observed, specs[..n], [specs[n]], idsOf);
      AfterOne(current, specs[n], idsOf);
      var events := SpecEvents(specs[n], idsOf);
      if events.Invalid? {
        InvalidStays(observed, specs, n + 1, idsOf);
        return Invalid;
      }
      current := ObserveEach(current, events.value);
    }
    TakeAll(specs);
    return Ok(current);
  }

  lemma InvalidStays(observed: map<string, bool>, specs: seq<Json>, n: nat, idsOf: string -> seq<string>)
    requires n <= |specs| && After(observed, specs[..n], idsOf).Invalid?
    ensures After(observed, specs, idsOf).Invalid?
  {
    assert specs == specs[..n] + specs[n..];
    AfterConcat(observed, specs[..n], specs[n..], idsOf);
  }

  /**
    The walk over the report. Whatever the nesting, every spec of the tree is visited exactly once: the
    map afterwards is the fold over all specs.
  */
  method CollectPlaywrightSpecs(value: Json, observed: map<string, bool>, idsOf: string -> seq<string>)
    returns (result: Result<map<string, bool>>)
    ensures result == After(observed, AllSpecs(value), idsOf)
    decreases value, 1
  {
    match value {
      case Array(items) =>
        result := CollectItems(items, observed, idsOf);
      case Record(fields) =>
        AfterConcat(observed, SpecsOf(value), SpecsInFields(fields), idsOf);
        var own := CollectSpecs(SpecsOf(value), observed, idsOf);
        if own.Invalid? {
          return Invalid;
        }
        result := CollectFields(fields, own.value, idsOf);
      case _ =>
        return Ok(observed);
    }
  }

  method CollectItems(items: seq<Json>, observed: map<string, bool>, idsOf: string -> seq<string>)
    returns (result: Result<map<string, bool>>)
    ensures result == After(observed, SpecsInItems(items), idsOf)
    decreases items, 0
  {
    var current := observed;
    for n := 0 to |items|
      invariant After(observed, SpecsInItems(items[..n]), idsOf) == Ok(current)
    {
      TakeNext(items, n);
      AfterConcat(observed, SpecsInItems(items[..n]), AllSpecs(items[n]), idsOf);
      var next := CollectPlaywrightSpecs(items[n], current, idsOf);
      if next.Invalid? {
        InvalidItems(observed, items, n + 1, idsOf);
        return Invalid;
      }
      current := next.value;
    }
    TakeAll(items);
    return Ok(current);
  }

  method CollectFields(fields: seq<Field>, observed: map<string, bool>, idsOf: string -> seq<string>)
    returns (result: Result<map<string, bool>>)
    ensures result == After(observed, SpecsInFields(fields), idsOf)
    decreases fields, 0
  {
    var current := observed;
    for n := 0 to |fields|
      invariant After(observed, SpecsInFields(fields[..n]), idsOf) == Ok(current)
    {
      TakeNext(fields, n);
      AfterConcat(observed, SpecsInFields(fields[..n]), AllSpecs(fields[n].value), idsOf);
      var next := CollectPlaywrightSpecs(fields[n].value, current, idsOf);
      if next.Invalid? {
        InvalidFields(observed, fields, n + 1, idsOf);
        return Invalid;
      }
      current := next.value;
    }
    TakeAll(fields);
    return Ok(current);
  }

  lemma {:induction false} InvalidItems(observed: map<string, bool>, items: seq<Json>, n: nat, idsOf: string -> seq<string>)
    requires n <= |items| && After(observed, SpecsInItems(items[..n]), idsOf).Invalid?
    ensures After(observed, SpecsInItems(items), idsOf).Invalid?
    decreases |items| - n
  {
    if n == |items| {
      TakeAll(items);
    } else {
      TakeNext(items, n);
      AfterConcat(observed, SpecsInItems(items[..n]), AllSpecs(items[n]), idsOf);
      InvalidItems(observed, items, n + 1, idsOf);
    }
  }

  lemma {:induction false} InvalidFields(observed: map<string, bool>, fields: seq<Field>, n: nat,
                                         idsOf: string -> seq<string>)
    requires n <= |fields| && After(observed, SpecsInFields(fields[..n]), idsOf).Invalid?
    ensures After(observed, SpecsInFields(fields), idsOf).Invalid?
    decreases |fields| - n
  {
    if n == |fields| {
      TakeAll(fields);
    } else {
      TakeNext(fields, n);
      AfterConcat(observed, SpecsInFields(fields[..n]), AllSpecs(fields[n].value), idsOf);
      InvalidFields(observed, fields, n + 1, idsOf);
    }
  }

  // ---------- The verdict ----------

  /** The evidence for one required id: tagged once in the whole tree, by a spec that passed. */
  ghost predicate TaggedOncePassed(specs: seq<Json>, idsOf: string -> seq<string>, id: string) {
    EventsOf(specs, idsOf).Ok? && OncePassed(EventsOf(specs, idsOf).value, id)
  }

  ghost predicate OncePassed(events: seq<Event>, id: string) {
    Occurrences(events, id) == 1 && Event(id, true) in events
  }

  // ---------- What a spec is, and what counts as evidence ----------

  ghost predicate FieldIs(record: Json, name: string, value: Json) {
    record.Record? && Get(record, name) == value
  }

  /** A test that was expected to end as it did, and whose last result passed. */
  ghost predicate GoodTest(test: Json) {
    && test.Record? && Get(test, "results").Array? && FieldIs(test, "status", Text("expected"))
    && var results := Get(test, "results").items;
       results != [] && FieldIs(results[|results| - 1], "status", Text("passed"))
  }

  /** A test the walk can judge: it has a list of results, and a last result where that is looked at. */
  ghost predicate JudgedTest(test: Json) {
    && test.Record? && Get(test, "results").Array?
    && var results := Get(test, "results").items;
       FieldIs(test, "status", Text("expected")) && results != [] ==> results[|results| - 1].Record?
  }

  /** Marked as ok, with at least one test, and every test good. */
  ghost predicate GoodSpec(spec: Json) {
    && FieldIs(spec, "ok", Bool(true)) && Get(spec, "tests").Array? && Get(spec, "tests").items != []
    && forall k :: 0 <= k < |Get(spec, "tests").items| ==> GoodTest(Get(spec, "tests").items[k])
  }

  /** Titled specs have a list of tests; of an ok one every test up to the first that is not good can be judged. */
  ghost predicate JudgedSpec(spec: Json) {
    && spec.Record?
    && (Get(spec, "title").Text? ==>
          && Get(spec, "tests").Array?
          && (FieldIs(spec, "ok", Bool(true)) ==> JudgedTests(Get(spec, "tests").items)))
  }

  ghost predicate JudgedTests(tests: seq<Json>) {
    forall k :: 0 <= k < |tests| && (forall i :: 0 <= i < k ==> GoodTest(tests[i])) ==> JudgedTest(tests[k])
  }

  /** The evidence tags of a spec. */
  ghost function TagsOf(spec: Json, idsOf: string -> seq<string>): seq<string> {
    if spec.Record? && Get(spec, "title").Text? then idsOf(Get(spec, "title").s) else []
  }

  lemma TestPassedMeans(test: Json)
    ensures TestPassed(test).Invalid? <==> !JudgedTest(test)
    ensures TestPassed(test) == Ok(true) <==> GoodTest(test)
  {
  }

  lemma {:induction false} EveryTestMeans(tests: seq<Json>)
    ensures EveryTestPassed(tests).Invalid? <==> !JudgedTests(tests)
    ensures EveryTestPassed(tests) == Ok(true) <==> forall k :: 0 <= k < |tests| ==> GoodTest(tests[k])
  {
    if tests != [] {
      TestPassedMeans(tests[0]);
      if GoodTest(tests[0]) {
        EveryTestMeans(tests[1..]);
        JudgedRest(tests);
        assert forall k :: 0 < k < |tests| ==> tests[k] == tests[1..][k - 1];
      } else {
        assert JudgedTests(tests) <==> JudgedTest(tests[0]);
      }
    }
  }

  lemma JudgedRest(tests: seq<Json>)
    requires tests != [] && GoodTest(tests[0])
    ensures JudgedTests(tests) <==> JudgedTests(tests[1..])
  {
    var rest := tests[1..];
    TestPassedMeans(tests[0]);
    if JudgedTests(tests) {
      forall k | 0 <= k < |rest| && (forall i :: 0 <= i < k ==> GoodTest(rest[i]))
        ensures JudgedTest(rest[k])
      {
        assert forall i :: 0 < i < k + 1 ==> tests[i] == rest[i - 1];
        assert rest[k] == tests[k + 1];
      }
    }
    if JudgedTests(rest) {
      forall k | 0 <= k < |tests| && (forall i :: 0 <= i < k ==> GoodTest(tests[i]))
        ensures JudgedTest(tests[k])
      {
        if k > 0 {
          assert forall i :: 0 <= i < k - 1 ==> rest[i] == tests[i + 1];
          assert tests[k] == rest[k - 1];
        }
      }
    }
  }

  /** A spec contributes each of its tags, passed exactly when the spec is good; it is malformed when it cannot be judged. */
  lemma SpecEventsMean(spec: Json, idsOf: string -> seq<string>)
    ensures SpecEvents(spec, idsOf).Invalid? <==> !JudgedSpec(spec)
    ensures SpecEvents(spec, idsOf).Ok? ==> SpecEvents(spec, idsOf).value == Tagged(TagsOf(spec, idsOf), GoodSpec(spec))
  {
    if spec.Record? && Get(spec, "title").Text? && Get(spec, "tests").Array? {
      EveryTestMeans(Get(spec, "tests").items);
    }
  }

  /** The `t`-th tag of the `s`-th source is `id`. */
  ghost predicate TagIs(tags: seq<seq<string>>, s: int, t: int, id: string) {
    0 <= s < |tags| && 0 <= t < |tags[s]| && tags[s][t] == id
  }

  /** The id is tagged at one place and no other, and what is tagged there is good. */
  ghost predicate OneGoodTag(tags: seq<seq<string>>, good: seq<bool>, id: string)
    requires |good| == |tags|
  {
    exists s, t ::
      && TagIs(tags, s, t, id) && good[s]
      && forall other, u :: TagIs(tags, other, u, id) ==> other == s && u == t
  }

  ghost function AllTagged(tags: seq<seq<string>>, good: seq<bool>): seq<Event>
    requires |good| == |tags|
  {
    if tags == [] then []
    else
      AllTagged(tags[..|tags| - 1], good[..|good| - 1]) + Tagged(tags[|tags| - 1], good[|good| - 1])
  }

  /** An event stands for a tag of one place. */
  lemma {:induction false} EventsAreTags(tags: seq<seq<string>>, good: seq<bool>, id: string)
    requires |good| == |tags|
    ensures Occurrences(AllTagged(tags, good), id) == |TagPlaces(tags, id)|
    ensures forall passed :: Event(id, passed) in AllTagged(tags, good) <==> HasTag(tags, good, id, passed)
  {
    if tags != [] {
      var n := |tags| - 1;
      EventsAreTags(tags[..n], good[..n], id);
      var before, last := AllTagged(tags[..n], good[..n]), Tagged(tags[n], good[n]);
      OccurrencesConcat(before, last, id);
      TaggedOccurrences(tags[n], good[n], id);
      PlacesNext(tags, id);
      assert tags == tags[..n] + [tags[n]] && good == good[..n] + [good[n]];
      forall passed
        ensures Event(id, passed) in AllTagged(tags, good) <==> HasTag(tags, good, id, passed)
      {
        HasTagNext(tags[..n], good[..n], tags[n], good[n], id, passed);
        InTagged(tags[n], good[n], id, passed);
      }
    }
  }

  /** The places at which an id is tagged. */
  ghost function TagPlaces(tags: seq<seq<string>>, id: string): set<(int, int)> {
    set s, t | 0 <= s < |tags| && 0 <= t < |tags[s]| && tags[s][t] == id :: (s, t)
  }

  ghost function PlacesIn(ids: seq<string>, s: int, id: string): set<(int, int)> {
    set t | 0 <= t < |ids| && ids[t] == id :: (s, t)
  }

  lemma {:induction false} TaggedOccurrences(ids: seq<string>, passed: bool, id: string)
    ensures forall s :: Occurrences(Tagged(ids, passed), id) == |PlacesIn(ids, s, id)|
  {
    if ids != [] {
      var init, n := ids[..|ids| - 1], |ids| - 1;
      TaggedOccurrences(init, passed, id);
      assert Tagged(ids, passed)[..n] == Tagged(init, passed);
      forall s
        ensures |PlacesIn(ids, s, id)| == |PlacesIn(init, s, id)| + if ids[n] == id then 1 else 0
      {
        PlacesInNext(init, ids[n], s, id);
        assert ids == init + [ids[n]];
      }
    }
  }

  lemma PlacesInNext(init: seq<string>, last: string, s: int, id: string)
    ensures |PlacesIn(init + [last], s, id)| == |PlacesIn(init, s, id)| + if last == id then 1 else 0
  {
    assert PlacesIn(init + [last], s, id) == PlacesIn(init, s, id) + if last == id then {(s, |init|)} else {};
  }

  lemma PlacesNext(tags: seq<seq<string>>, id: string)
    requires tags != []
    ensures var n := |tags| - 1;
            |TagPlaces(tags, id)| == |TagPlaces(tags[..n], id)| + |PlacesIn(tags[n], n, id)|
  {
    var n := |tags| - 1;
    assert TagPlaces(tags, id) == TagPlaces(tags[..n], id) + PlacesIn(tags[n], n, id);
    assert TagPlaces(tags[..n], id) !! PlacesIn(tags[n], n, id);
  }

  lemma {:induction false} OccurrencesConcat(a: seq<Event>, b: seq<Event>, id: string)
    ensures Occurrences(a + b, id) == Occurrences(a, id) + Occurrences(b, id)
  {
    if b == [] {
      assert a + b == a;
    } else {
      assert (a + b)[..|a + b| - 1] == a + b[..|b| - 1];
      OccurrencesConcat(a, b[..|b| - 1], id);
    }
  }

  /** The id is tagged somewhere, with this outcome. */
  ghost predicate HasTag(tags: seq<seq<string>>, good: seq<bool>, id: string, passed: bool)
    requires |good| == |tags|
  {
    exists s, t :: TagIs(tags, s, t, id) && good[s] == passed
  }

  lemma HasTagNext(tags: seq<seq<string>>, good: seq<bool>, last: seq<string>, passes: bool, id: string, passed: bool)
    requires |good| == |tags|
    ensures HasTag(tags + [last], good + [passes], id, passed)
            <==> HasTag(tags, good, id, passed) || (passes == passed && id in last)
  {
    var more, all, n := tags + [last], good + [passes], |tags|;
    assert more[n] == last && all[n] == passes;
    if s, t :| TagIs(tags, s, t, id) && good[s] == passed {
      assert TagIs(more, s, t, id) && all[s] == passed;
    }
    if passes == passed && id in last {
      var t :| 0 <= t < |last| && last[t] == id;
      assert TagIs(more, n, t, id) && all[n] == passed;
    }
    if s, t :| TagIs(more, s, t, id) && all[s] == passed {
      if s < n {
        assert TagIs(tags, s, t, id) && good[s] == passed;
      }
    }
  }

  lemma InTagged(ids: seq<string>, passes: bool, id: string, passed: bool)
    ensures Event(id, passed) in Tagged(ids, passes) <==> passes == passed && id in ids
  {
    if passes == passed && id in ids {
      var t :| 0 <= t < |ids| && ids[t] == id;
      assert Tagged(ids, passes)[t] == Event(id, passed);
    }
  }

  /** Once and passed, as it is counted, is tagged at one place, which is good. */
  lemma {:induction false} OnceIsOneGoodTag(tags: seq<seq<string>>, good: seq<bool>, id: string)
    requires |good| == |tags|
    ensures OncePassed(AllTagged(tags, good), id) <==> OneGoodTag(tags, good, id)
  {
    var places := TagPlaces(tags, id);
    EventsAreTags(tags, good, id);
    assert forall s, t :: (s, t) in places <==> TagIs(tags, s, t, id);
    if |places| == 1 && Event(id, true) in AllTagged(tags, good) {
      assert HasTag(tags, good, id, true);
      var s, t :| TagIs(tags, s, t, id) && good[s] == true;
      OnlyMember(places, (s, t));
      assert forall other, u :: TagIs(tags, other, u, id) ==> (other, u) in places;
    }
    if s, t :| TagIs(tags, s, t, id) && good[s] && forall other, u :: TagIs(tags, other, u, id) ==> other == s && u == t {
      assert places == {(s, t)};
      assert HasTag(tags, good, id, true);
    }
  }

  lemma OnlyMember<T>(xs: set<T>, x: T)
    requires |xs| == 1 && x in xs
    ensures xs == {x}
  {
    assert |xs - {x}| == 0;
    assert xs == {x} + (xs - {x});
  }

  // ---------- The specs of the whole report ----------

  ghost function TagsOfAll(specs: seq<Json>, idsOf: string -> seq<string>): seq<seq<string>> {
    seq(|specs|, k requires 0 <= k < |specs| => TagsOf(specs[k], idsOf))
  }

  ghost function GoodOfAll(specs: seq<Json>): seq<bool> {
    seq(|specs|, k requires 0 <= k < |specs| => GoodSpec(specs[k]))
  }

  ghost predicate AllJudged(specs: seq<Json>) {
    forall k :: 0 <= k < |specs| ==> JudgedSpec(specs[k])
  }

  /** The events of some specs, in the terms of what they are. */
  ghost function EventsSaid(specs: seq<Json>, idsOf: string -> seq<string>): seq<Event> {
    AllTagged(TagsOfAll(specs, idsOf), GoodOfAll(specs))
  }

  lemma EventsSaidNext(init: seq<Json>, last: Json, idsOf: string -> seq<string>)
    ensures EventsSaid(init + [last], idsOf) == EventsSaid(init, idsOf) + Tagged(TagsOf(last, idsOf), GoodSpec(last))
  {
    assert TagsOfAll(init + [last], idsOf) == TagsOfAll(init, idsOf) + [TagsOf(last, idsOf)];
    assert GoodOfAll(init + [last]) == GoodOfAll(init) + [GoodSpec(last)];
    AllTaggedNext(TagsOfAll(init, idsOf), GoodOfAll(init), TagsOf(last, idsOf), GoodSpec(last));
  }

  lemma {:induction false} AllTaggedNext(tags: seq<seq<string>>, good: seq<bool>, last: seq<string>, passes: bool)
    requires |good| == |tags|
    ensures AllTagged(tags + [last], good + [passes]) == AllTagged(tags, good) + Tagged(last, passes)
  {
    assert (tags + [last])[..|tags|] == tags && (good + [passes])[..|good|] == good;
  }

  lemma JudgedNext(init: seq<Json>, last: Json)
    ensures AllJudged(init + [last]) <==> AllJudged(init) && JudgedSpec(last)
  {
    var all := init + [last];
    assert all[|init|] == last && forall k :: 0 <= k < |init| ==> all[k] == init[k];
  }

  lemma {:induction false} EventsOfNext(init: seq<Json>, last: Json, idsOf: string -> seq<string>)
    ensures EventsOf(init + [last], idsOf) == Then(EventsOf(init, idsOf), SpecEvents(last, idsOf))
  {
    var all := init + [last];
    assert all[..|all| - 1] == init && all[|all| - 1] == last;
  }

  lemma {:induction false} EventsOfMeans(specs: seq<Json>, idsOf: string -> seq<string>)
    ensures EventsOf(specs, idsOf).Ok? <==> AllJudged(specs)
    ensures EventsOf(specs, idsOf).Ok? ==> EventsOf(specs, idsOf).value == EventsSaid(specs, idsOf)
  {
    if specs != [] {
      var init, last := specs[..|specs| - 1], specs[|specs| - 1];
      assert specs == init + [last];
      EventsOfMeans(init, idsOf);
      EventsOfNext(init, last, idsOf);
      SpecEventsMean(last, idsOf);
      EventsSaidNext(init, last, idsOf);
      JudgedNext(init, last);
    }
  }

  /** The evidence for an id: of all specs of the report one is tagged with it, once, and that one is good. */
  ghost predicate ShownByOneSpec(specs: seq<Json>, idsOf: string -> seq<string>, id: string) {
    OneGoodTag(TagsOfAll(specs, idsOf), GoodOfAll(specs), id)
  }

  lemma TaggedOnceMeans(specs: seq<Json>, idsOf: string -> seq<string>, id: string)
    ensures TaggedOncePassed(specs, idsOf, id) <==> AllJudged(specs) && ShownByOneSpec(specs, idsOf, id)
  {
    EventsOfMeans(specs, idsOf);
    OnceIsOneGoodTag(TagsOfAll(specs, idsOf), GoodOfAll(specs), id);
  }

  datatype Verdict = Accepted | Malformed | NotExactlyOnce(id: string)

  /** The loop that maps the required tests to their evidence. */
  method RequireEach(observed: map<string, bool>, ghost events: seq<Event>, required: seq<string>) returns (verdict: Verdict)
    requires observed == ObserveAll(map[], events)
    ensures verdict == Accepted <==> forall id :: id in required ==> OncePassed(events, id)
    ensures verdict.NotExactlyOnce? ==> verdict.id in required && !OncePassed(events, verdict.id)
    ensures verdict != Malformed
  {
    for n := 0 to |required|
      invariant forall k :: 0 <= k < n ==> OncePassed(events, required[k])
    {
      ObservedIff(events, required[n]);
      if required[n] !in observed || !observed[required[n]] {
        assert required[n] in required && !OncePassed(events, required[n]);
        return NotExactlyOnce(required[n]);
      }
    }
    return Accepted;
  }

  /** The browser report is accepted exactly when every required id is tagged once, by a spec that passed. */
  method VerifyPlaywrightReport(report: Json, required: seq<string>, idsOf: string -> seq<string>) returns (verdict: Verdict)
    ensures verdict == Accepted <==>
              EventsOf(AllSpecs(report), idsOf).Ok? &&
              forall id :: id in required ==> TaggedOncePassed(AllSpecs(report), idsOf, id)
    ensures verdict == Malformed <==> EventsOf(AllSpecs(report), idsOf).Invalid?
    ensures verdict.NotExactlyOnce? ==> verdict.id in required && !TaggedOncePassed(AllSpecs(report), idsOf, verdict.id)
    ensures verdict == Malformed <==> !AllJudged(AllSpecs(report))
    ensures verdict == Accepted <==>
              AllJudged(AllSpecs(report)) && forall id :: id in required ==> ShownByOneSpec(AllSpecs(report), idsOf, id)
  {
    EventsOfMeans(AllSpecs(report), idsOf);
    forall id
      ensures TaggedOncePassed(AllSpecs(report), idsOf, id)
              <==> AllJudged(AllSpecs(report)) && ShownByOneSpec(AllSpecs(report), idsOf, id)
    {
      TaggedOnceMeans(AllSpecs(report), idsOf, id);
    }
    var observed := CollectPlaywrightSpecs(report, map[], idsOf);
    if observed.Invalid? {
      return Malformed;
    }
    verdict := RequireEach(observed.value, EventsOf(AllSpecs(report), idsOf).value, required);
  }

  // ---------- The contract-test report ----------

  function TestTitle(test: Json): string
    requires test.Record?
  {
    if Get(test, "fullName").Text? then Get(test, "fullName").s
    else if Get(test, "title").Text? then Get(test, "title").s
    else ""
  }

  predicate AssertionPassed(test: Json)
    requires test.Record?
  {
    Get(test, "status") in {Text("passed"), Text("pass")}
  }

  /** What one assertion contributes. */
  function AssertionEvents(assertion: Json, idsOf: string -> seq<string>): Result<seq<Event>> {
    if !assertion.Record? then Invalid else Ok(Tagged(idsOf(TestTitle(assertion)), AssertionPassed(assertion)))
  }

  function AssertionsEvents(assertions: seq<Json>, idsOf: string -> seq<string>): Result<seq<Event>> {
    if assertions == [] then Ok([])
    else
      Then(AssertionsEvents(assertions[..|assertions| - 1], idsOf), AssertionEvents(assertions[|assertions| - 1], idsOf))
  }

  function FileEvents(file: Json, idsOf: string -> seq<string>): Result<seq<Event>> {
    if !file.Record? || !Get(file, "assertionResults").Array? then Invalid
    else AssertionsEvents(Get(file, "assertionResults").items, idsOf)
  }

  function FilesEvents(files: seq<Json>, idsOf: string -> seq<string>): Result<seq<Event>> {
    if files == [] then Ok([]) else Then(FilesEvents(files[..|files| - 1], idsOf), FileEvents(files[|files| - 1], idsOf))
  }

  function VitestEvents(report: Json, idsOf: string -> seq<string>): Result<seq<Event>> {
    if !report.Record? || !Get(report, "testResults").Array? then Invalid
    else FilesEvents(Get(report, "testResults").items, idsOf)
  }

  lemma {:induction false} InvalidAssertions(assertions: seq<Json>, n: nat, idsOf: string -> seq<string>)
    requires n <= |assertions| && AssertionsEvents(assertions[..n], idsOf).Invalid?
    ensures AssertionsEvents(assertions, idsOf).Invalid?
    decreases |assertions| - n
  {
    if n < |assertions| {
      TakeNext(assertions, n);
      InvalidAssertions(assertions, n + 1, idsOf);
    } else {
      TakeAll(assertions);
    }
  }

  lemma {:induction false} InvalidFiles(files: seq<Json>, n: nat, idsOf: string -> seq<string>)
    requires n <= |files| && FilesEvents(files[..n], idsOf).Invalid?
    ensures FilesEvents(files, idsOf).Invalid?
    decreases |files| - n
  {
    if n < |files| {
      TakeNext(files, n);
      InvalidFiles(files, n + 1, idsOf);
    } else {
      TakeAll(files);
    }
  }

  lemma {:induction false} ObservedBehind(before: seq<Event>, soFar: seq<Event>, more: seq<Event>)
    ensures ObserveAll(ObserveAll(map[], before + soFar), more) == ObserveAll(map[], before + (soFar + more))
  {
    Regroup(before, soFar, more);
    ObserveConcat(map[], before + soFar, more);
  }

  /** The inner loop: the assertions of one test file. */
  method ObserveAssertions(assertions: seq<Json>, observed: map<string, bool>, ghost before: seq<Event>,
                           idsOf: string -> seq<string>)
    returns (result: Result<map<string, bool>>)
    requires observed == ObserveAll(map[], before)
    ensures result == var events := AssertionsEvents(assertions, idsOf);
                      if events.Invalid? then Invalid else Ok(ObserveAll(map[], before + events.value))
  {
    var after := observed;
    assert before + [] == before;
    for n := 0 to |assertions|
      invariant AssertionsEvents(assertions[..n], idsOf).Ok?
      invariant after == ObserveAll(map[], before + AssertionsEvents(assertions[..n], idsOf).value)
    {
      TakeNext(assertions, n);
      var assertion := assertions[n];
      if !assertion.Record? {
        InvalidAssertions(assertions, n + 1, idsOf);
        return Invalid;
      }
      ghost var soFar := AssertionsEvents(assertions[..n], idsOf).value;
      var more := Tagged(idsOf(TestTitle(assertion)), AssertionPassed(assertion));
      ObservedBehind(before, soFar, more);
      after := ObserveEach(after, more);
    }
    TakeAll(assertions);
    return Ok(after);
  }

  // ---------- The assertions of the whole report ----------

  ghost predicate ReadableFile(file: Json) {
    && file.Record? && Get(file, "assertionResults").Array?
    && forall k :: 0 <= k < |Get(file, "assertionResults").items| ==> Get(file, "assertionResults").items[k].Record?
  }

  ghost predicate ReadableReport(report: Json) {
    && report.Record? && Get(report, "testResults").Array?
    && forall k :: 0 <= k < |Get(report, "testResults").items| ==> ReadableFile(Get(report, "testResults").items[k])
  }

  /** The assertions of all files, file by file. */
  ghost function AllAssertions(files: seq<Json>): seq<Json>
    requires forall k :: 0 <= k < |files| ==> ReadableFile(files[k])
  {
    if files == [] then []
    else
      assert ReadableFile(files[|files| - 1]);
      AllAssertions(files[..|files| - 1]) + Get(files[|files| - 1], "assertionResults").items
  }

  /** The tags of the full name, or of the title where there is no full name. */
  ghost function TagsOfAssertion(assertion: Json, idsOf: string -> seq<string>): seq<string> {
    if !assertion.Record? then []
    else
      match Get(assertion, "fullName")
      case Text(name) => idsOf(name)
      case _ => if Get(assertion, "title").Text? then idsOf(Get(assertion, "title").s) else idsOf("")
  }

  ghost predicate GoodAssertion(assertion: Json) {
    FieldIs(assertion, "status", Text("passed")) || FieldIs(assertion, "status", Text("pass"))
  }

  ghost function TagsOfAssertions(assertions: seq<Json>, idsOf: string -> seq<string>): seq<seq<string>> {
    seq(|assertions|, k requires 0 <= k < |assertions| => TagsOfAssertion(assertions[k], idsOf))
  }

  ghost function GoodOfAssertions(assertions: seq<Json>): seq<bool> {
    seq(|assertions|, k requires 0 <= k < |assertions| => GoodAssertion(assertions[k]))
  }

  lemma {:induction false} AllTaggedConcat(a: seq<seq<string>>, x: seq<bool>, b: seq<seq<string>>, y: seq<bool>)
    requires |a| == |x| && |b| == |y|
    ensures AllTagged(a + b, x + y) == AllTagged(a, x) + AllTagged(b, y)
  {
    if b == [] {
      assert a + b == a && x + y == x;
    } else {
      var n := |b| - 1;
      AllTaggedConcat(a, x, b[..n], y[..n]);
      AllTaggedConcatNext(a, x, b[..n], y[..n], b[n], y[n]);
      assert b == b[..n] + [b[n]] && y == y[..n] + [y[n]];
    }
  }

  lemma {:induction false} AllTaggedConcatNext(
    a: seq<seq<string>>, x: seq<bool>, b: seq<seq<string>>, y: seq<bool>, last: seq<string>, passes: bool)
    requires |a| == |x| && |b| == |y|
    requires AllTagged(a + b, x + y) == AllTagged(a, x) + AllTagged(b, y)
    ensures AllTagged(a + (b + [last]), x + (y + [passes])) == AllTagged(a, x) + AllTagged(b + [last], y + [passes])
  {
    AllTaggedNext(b, y, last, passes);
    AllTaggedNext(a + b, x + y, last, passes);
    AddedLast(a, b, last);
    AddedLast(x, y, passes);
    Regroup(AllTagged(a, x), AllTagged(b, y), Tagged(last, passes));
  }

  lemma AddedLast<T>(a: seq<T>, b: seq<T>, last: T)
    ensures a + (b + [last]) == (a + b) + [last]
  {
  }

  lemma AssertionMeans(assertion: Json, idsOf: string -> seq<string>)
    ensures AssertionEvents(assertion, idsOf).Ok? <==> assertion.Record?
    ensures assertion.Record? ==>
              AssertionEvents(assertion, idsOf).value == Tagged(TagsOfAssertion(assertion, idsOf), GoodAssertion(assertion))
  {
  }

  /** The events of some assertions, in the terms of what they are. */
  ghost function EventsOfAssertions(assertions: seq<Json>, idsOf: string -> seq<string>): seq<Event> {
    AllTagged(TagsOfAssertions(assertions, idsOf), GoodOfAssertions(assertions))
  }

  lemma EventsOfAssertionsNext(init: seq<Json>, last: Json, idsOf: string -> seq<string>)
    ensures EventsOfAssertions(init + [last], idsOf)
            == EventsOfAssertions(init, idsOf) + Tagged(TagsOfAssertion(last, idsOf), GoodAssertion(last))
  {
    assert TagsOfAssertions(init + [last], idsOf) == TagsOfAssertions(init, idsOf) + [TagsOfAssertion(last, idsOf)];
    assert GoodOfAssertions(init + [last]) == GoodOfAssertions(init) + [GoodAssertion(last)];
    AllTaggedNext(TagsOfAssertions(init, idsOf), GoodOfAssertions(init), TagsOfAssertion(last, idsOf), GoodAssertion(last));
  }

  ghost predicate AllRecords(assertions: seq<Json>) {
    forall k :: 0 <= k < |assertions| ==> assertions[k].Record?
  }

  lemma RecordsNext(init: seq<Json>, last: Json)
    ensures AllRecords(init + [last]) <==> AllRecords(init) && last.Record?
  {
    var all := init + [last];
    assert all[|init|] == last && forall k :: 0 <= k < |init| ==> all[k] == init[k];
  }

  lemma {:induction false} AssertionsMean(assertions: seq<Json>, idsOf: string -> seq<string>)
    ensures AssertionsEvents(assertions, idsOf).Ok? <==> AllRecords(assertions)
    ensures AllRecords(assertions) ==> AssertionsEvents(assertions, idsOf).value == EventsOfAssertions(assertions, idsOf)
  {
    if assertions != [] {
      var init, last := assertions[..|assertions| - 1], assertions[|assertions| - 1];
      assert assertions == init + [last];
      AssertionsMean(init, idsOf);
      AssertionMeans(last, idsOf);
      RecordsNext(init, last);
      EventsOfAssertionsNext(init, last, idsOf);
    }
  }

  ghost predicate ReadableFiles(files: seq<Json>) {
    forall k :: 0 <= k < |files| ==> ReadableFile(files[k])
  }

  lemma FileMeans(file: Json, idsOf: string -> seq<string>)
    ensures FileEvents(file, idsOf).Ok? <==> ReadableFile(file)
    ensures ReadableFile(file) ==>
            FileEvents(file, idsOf).value == EventsOfAssertions(Get(file, "assertionResults").items, idsOf)
  {
    if file.Record? && Get(file, "assertionResults").Array? {
      AssertionsMean(Get(file, "assertionResults").items, idsOf);
    }
  }

  lemma ReadableNext(files: seq<Json>, last: Json)
    ensures ReadableFiles(files + [last]) <==> ReadableFiles(files) && ReadableFile(last)
  {
    var more := files + [last];
    assert more[|files|] == last && forall k :: 0 <= k < |files| ==> more[k] == files[k];
  }

  lemma {:induction false} FilesMean(files: seq<Json>, idsOf: string -> seq<string>)
    ensures FilesEvents(files, idsOf).Ok? <==> ReadableFiles(files)
    ensures ReadableFiles(files) ==> FilesEvents(files, idsOf).value == EventsOfAssertions(AllAssertions(files), idsOf)
  {
    if files != [] {
      var init, last := files[..|files| - 1], files[|files| - 1];
      assert files == init + [last];
      FilesMean(init, idsOf);
      FileMeans(last, idsOf);
      ReadableNext(init, last);
      if ReadableFiles(files) {
        JoinedAssertions(AllAssertions(init), Get(last, "assertionResults").items, idsOf);
      }
    }
  }

  lemma JoinedAssertions(a: seq<Json>, b: seq<Json>, idsOf: string -> seq<string>)
    ensures AllTagged(TagsOfAssertions(a + b, idsOf), GoodOfAssertions(a + b))
            == AllTagged(TagsOfAssertions(a, idsOf), GoodOfAssertions(a))
              + AllTagged(TagsOfAssertions(b, idsOf), GoodOfAssertions(b))
  {
    assert TagsOfAssertions(a + b, idsOf) == TagsOfAssertions(a, idsOf) + TagsOfAssertions(b, idsOf);
    assert GoodOfAssertions(a + b) == GoodOfAssertions(a) + GoodOfAssertions(b);
    AllTaggedConcat(TagsOfAssertions(a, idsOf), GoodOfAssertions(a), TagsOfAssertions(b, idsOf), GoodOfAssertions(b));
  }

  /** The evidence for an id: of all assertions of the report one is tagged with it, once, and that one passed. */
  ghost predicate ShownByOneAssertion(report: Json, idsOf: string -> seq<string>, id: string)
    requires ReadableReport(report)
  {
    var all := AllAssertions(Get(report, "testResults").items);
    OneGoodTag(TagsOfAssertions(all, idsOf), GoodOfAssertions(all), id)
  }

  lemma VitestMeans(report: Json, idsOf: string -> seq<string>)
    ensures VitestEvents(report, idsOf).Ok? <==> ReadableReport(report)
    ensures ReadableReport(report) ==>
              forall id :: OncePassed(VitestEvents(report, idsOf).value, id) <==> ShownByOneAssertion(report, idsOf, id)
  {
    if report.Record? && Get(report, "testResults").Array? {
      var files := Get(report, "testResults").items;
      FilesMean(files, idsOf);
      if ReadableReport(report) {
        var all := AllAssertions(files);
        forall id
          ensures OncePassed(VitestEvents(report, idsOf).value, id) <==> ShownByOneAssertion(report, idsOf, id)
        {
          OnceIsOneGoodTag(TagsOfAssertions(all, idsOf), GoodOfAssertions(all), id);
        }
      }
    }
  }

  /** The outer loop: the test files. */
  method ObserveFiles(files: seq<Json>, idsOf: string -> seq<string>) returns (result: Result<map<string, bool>>)
    ensures result == var events := FilesEvents(files, idsOf);
                      if events.Invalid? then Invalid else Ok(ObserveAll(map[], events.value))
  {
    var observed: map<string, bool> := map[];
    for n := 0 to |files|
      invariant FilesEvents(files[..n], idsOf).Ok?
      invariant observed == ObserveAll(map[], FilesEvents(files[..n], idsOf).value)
    {
      TakeNext(files, n);
      if !files[n].Record? || !Get(files[n], "assertionResults").Array? {
        InvalidFiles(files, n + 1, idsOf);
        return Invalid;
      }
      var after := ObserveAssertions(Get(files[n], "assertionResults").items, observed,
                                     FilesEvents(files[..n], idsOf).value, idsOf);
      if after.Invalid? {
        InvalidFiles(files, n + 1, idsOf);
        return Invalid;
      }
      observed := after.value;
    }
    TakeAll(files);
    return Ok(observed);
  }

  /** The contract-test report is accepted exactly when every required id is tagged once, by an assertion that passed. */
  method VerifyVitestReport(report: Json, required: seq<string>, idsOf: string -> seq<string>) returns (verdict: Verdict)
    ensures verdict == Malformed <==> VitestEvents(report, idsOf).Invalid?
    ensures verdict == Accepted <==>
              VitestEvents(report, idsOf).Ok?
              && forall id :: id in required ==> OncePassed(VitestEvents(report, idsOf).value, id)
    ensures verdict.NotExactlyOnce? ==>
              VitestEvents(report, idsOf).Ok? && verdict.id in required
              && !OncePassed(VitestEvents(report, idsOf).value, verdict.id)
    ensures verdict == Malformed <==> !ReadableReport(report)
    ensures verdict == Accepted <==>
              ReadableReport(report) && forall id :: id in required ==> ShownByOneAssertion(report, idsOf, id)
  {
    VitestMeans(report, idsOf);
    if !report.Record? || !Get(report, "testResults").Array? {
      return Malformed;
    }
    var files := Get(report, "testResults").items;
    var observed := ObserveFiles(files, idsOf);
    if observed.Invalid? {
      return Malformed;
    }
    verdict := RequireEach(observed.value, FilesEvents(files, idsOf).value, required);
  }
}
