/**
  Preserving the technical terms of a source description in its translation:
  scripts/catalog/product-translation-structure.ts, with the whitespace step of
  scripts/catalog/product-translation-catalog.ts.

  The terms found by the patterns are taken as arbitrary located substrings of the source.
*/
module SourceTerms {
  import opened Common
  import opened Parentheses

  datatype Kind = Chemical | Latin

  datatype Term = Term(kind: Kind, located: LocatedTerm)

  /** `t` is found in the source where it says it is. */
  ghost predicate FoundAt(source: string, t: LocatedTerm) {
    t.index <= |source| && t.value <= source[t.index..]
  }

  /** What the patterns guarantee of every term they find. */
  ghost predicate LocatedIn(source: string, terms: seq<Term>) {
    forall t :: t in terms ==> FoundAt(source, t.located)
  }

  /** `value` occurs in `text`. */
  predicate Includes(text: string, value: string) {
    exists at | 0 <= at <= |text| :: value <= text[at..]
  }

  // ---------- Collecting matches ----------

  /** One match of a pattern: where it starts, all of it, and its group if the group took part. */
  datatype Match = Match(index: nat, whole: string, group: Option<string>)

  /** A match lies in the text, and its group lies in the match. */
  ghost predicate MatchIn(text: string, m: Match) {
    && FoundAt(text, LocatedTerm(m.whole, m.index))
    && (m.group.Some? ==> Includes(m.whole, m.group.value))
  }

  /** Where `value` first occurs in `text`, counted from `from`. */
  function FirstIndex(text: string, value: string, from: nat): (at: nat)
    requires exists k :: from <= k <= |text| && value <= text[k..]
    ensures from <= at <= |text| && value <= text[at..]
    ensures forall k :: from <= k < at ==> !(value <= text[k..])
    decreases |text| - from
  {
    if value <= text[from..] then from else FirstIndex(text, value, from + 1)
  }

  /** A place in a segment is a place in the text the segment was taken from. */
  lemma FoundThrough(source: string, segment: LocatedTerm, inner: LocatedTerm)
    requires FoundAt(source, segment) && FoundAt(segment.value, inner)
    ensures FoundAt(source, LocatedTerm(inner.value, segment.index + inner.index))
  {
    var tail := source[segment.index..];
    assert segment.value[inner.index..] <= tail[inner.index..];
    assert source[segment.index + inner.index..] == tail[inner.index..];
  }

  /** A segment between parentheses is found in the source, one past the opening bracket. */
  lemma SegmentFound(source: string, p: Pair)
    requires p.open < p.close <= |source|
    ensures FoundAt(source, Segment(source, p))
  {
    assert source[p.open + 1..p.close] <= source[p.open + 1..];
  }

  /** The groups of the matches that have one, where the source has them. */
  ghost function Collected(segment: LocatedTerm, matches: seq<Match>): seq<LocatedTerm>
    requires forall m :: m in matches ==> MatchIn(segment.value, m)
  {
    if matches == [] then []
    else
      var last := matches[|matches| - 1];
      var before := Collected(segment, matches[..|matches| - 1]);
      if last.group.None? then before
      else
        assert MatchIn(segment.value, last);
        before + [LocatedTerm(last.group.value,
                              segment.index + last.index + FirstIndex(last.whole, last.group.value, 0))]
  }

  /** The group of a match in a segment is found in the source. */
  lemma GroupFound(source: string, segment: LocatedTerm, m: Match)
    requires FoundAt(source, segment) && MatchIn(segment.value, m) && m.group.Some?
    ensures FoundAt(source, LocatedTerm(m.group.value, segment.index + m.index + FirstIndex(m.whole, m.group.value, 0)))
  {
    var at := FirstIndex(m.whole, m.group.value, 0);
    FoundThrough(segment.value, LocatedTerm(m.whole, m.index), LocatedTerm(m.group.value, at));
    FoundThrough(source, segment, LocatedTerm(m.group.value, m.index + at));
  }

  /** Every group collected from a segment of the source is found in the source itself. */
  lemma {:induction false} CollectedFound(source: string, segment: LocatedTerm, matches: seq<Match>)
    requires FoundAt(source, segment)
    requires forall m :: m in matches ==> MatchIn(segment.value, m)
    ensures forall t :: t in Collected(segment, matches) ==> FoundAt(source, t)
  {
    if matches != [] {
      var last := matches[|matches| - 1];
      CollectedFound(source, segment, matches[..|matches| - 1]);
      assert last in matches;
      if last.group.Some? {
        GroupFound(source, segment, last);
      }
    }
  }

  method CollectMatches(segment: LocatedTerm, matches: seq<Match>, target: seq<LocatedTerm>)
    returns (collected: seq<LocatedTerm>)
    requires forall m :: m in matches ==> MatchIn(segment.value, m)
    ensures collected == target + Collected(segment, matches)
  {
    collected := target;
    for n := 0 to |matches|
      invariant collected == target + Collected(segment, matches[..n])
    {
      var m := matches[n];
      assert matches[..n + 1][..n] == matches[..n];
      if m.group.Some? {
        assert MatchIn(segment.value, m);
        var at := FirstIndex(m.whole, m.group.value, 0);
        collected := collected + [LocatedTerm(m.group.value, segment.index + m.index + at)];
      }
    }
    assert matches[..|matches|] == matches;
  }

  // ---------- Sorting: by position, the longer term first ----------

  predicate NotAfter(left: Term, right: Term) {
    || left.located.index < right.located.index
    || (left.located.index == right.located.index && |left.located.value| >= |right.located.value|)
  }

  predicate Sorted(terms: seq<Term>) {
    forall i, j :: 0 <= i < j < |terms| ==> NotAfter(terms[i], terms[j])
  }

  /** Stable insertion: `term` goes after every term that is not after it. */
  function Insert(terms: seq<Term>, term: Term): (r: seq<Term>)
    requires Sorted(terms)
    ensures Sorted(r) && multiset(r) == multiset(terms) + multiset{term}
  {
    if terms == [] then [term]
    else
      var last := |terms| - 1;
      assert terms == terms[..last] + [terms[last]];
      if NotAfter(terms[last], term) then terms + [term]
      else
        var rest := Insert(terms[..last], term);
        InsertedBefore(terms, term, rest);
        rest + [terms[last]]
  }

  lemma InsertedBefore(terms: seq<Term>, term: Term, rest: seq<Term>)
    requires Sorted(terms) && terms != [] && !NotAfter(terms[|terms| - 1], term)
    requires multiset(rest) == multiset(terms[..|terms| - 1]) + multiset{term}
    ensures forall k :: 0 <= k < |rest| ==> NotAfter(rest[k], terms[|terms| - 1])
  {
    forall k | 0 <= k < |rest|
      ensures NotAfter(rest[k], terms[|terms| - 1])
    {
      assert rest[k] in multiset(rest);
    }
  }

  function Sort(terms: seq<Term>): (r: seq<Term>)
    ensures Sorted(r) && multiset(r) == multiset(terms)
  {
    if terms == [] then []
    else
      assert terms == terms[..|terms| - 1] + [terms[|terms| - 1]];
      Insert(Sort(terms[..|terms| - 1]), terms[|terms| - 1])
  }

  // ---------- The seen/retained filter ----------

  /** The filter drops a term seen before, or a prefix of a term retained at the same position. */
  predicate Dropped(retained: seq<Term>, term: Term) {
    exists k | 0 <= k < |retained| ::
      || retained[k].located.value == term.located.value
      || (retained[k].located.index == term.located.index && term.located.value <= retained[k].located.value)
  }

  function Retain(terms: seq<Term>): seq<Term> {
    if terms == [] then []
    else
      var before := Retain(terms[..|terms| - 1]);
      if Dropped(before, terms[|terms| - 1]) then before else before + [terms[|terms| - 1]]
  }

  /** The loop over the sorted terms, with the set of values seen and the list retained. */
  method RetainTerms(terms: seq<Term>) returns (retained: seq<Term>)
    ensures retained == Retain(terms)
  {
    var seen: set<string> := {};
    retained := [];
    for n := 0 to |terms|
      invariant retained == Retain(terms[..n])
      invariant forall value :: value in seen <==> exists k :: 0 <= k < |retained| && retained[k].located.value == value
    {
      var term := terms[n];
      assert terms[..n + 1][..n] == terms[..n];
      var samePlace := exists k | 0 <= k < |retained| ::
        retained[k].located.index == term.located.index && term.located.value <= retained[k].located.value;
      if term.located.value !in seen && !samePlace {
        seen := seen + {term.located.value};
        ghost var before := retained;
        retained := retained + [term];
        assert forall k :: 0 <= k < |before| ==> retained[k] == before[k];
        assert retained[|before|] == term;
      }
    }
    assert terms[..|terms|] == terms;
  }

  /** What the filter keeps: distinct values at strictly increasing positions of the source. */
  ghost predicate InOrder(kept: seq<Term>) {
    && (forall i, j :: 0 <= i < j < |kept| ==> kept[i].located.value != kept[j].located.value)
    && (forall i, j :: 0 <= i < j < |kept| ==> kept[i].located.index < kept[j].located.index)
  }

  /** `term` is a prefix of one of the kept terms. */
  ghost predicate Covered(kept: seq<Term>, term: Term) {
    exists k :: 0 <= k < |kept| && term.located.value <= kept[k].located.value
  }

  lemma CoveredByMore(kept: seq<Term>, added: Term, term: Term)
    ensures Covered(kept, term) ==> Covered(kept + [added], term)
    ensures Covered(kept + [added], added)
  {
    if Covered(kept, term) {
      var k :| 0 <= k < |kept| && term.located.value <= kept[k].located.value;
      assert (kept + [added])[k] == kept[k];
    }
    assert (kept + [added])[|kept|] == added;
  }

  /** Nothing is lost: every term the filter sees is a prefix of a kept one. */
  lemma {:induction false} RetainCovers(terms: seq<Term>)
    ensures forall t :: t in terms ==> Covered(Retain(terms), t)
    ensures forall t :: t in Retain(terms) ==> t in terms
  {
    if terms != [] {
      var init, last := terms[..|terms| - 1], terms[|terms| - 1];
      RetainCovers(init);
      forall t | t in terms
        ensures Covered(Retain(terms), t)
      {
        assert terms == init + [last];
        assert t in init || t == last;
        CoveredByMore(Retain(init), last, t);
      }
    }
  }

  /** Of two terms found at one place, the shorter is a prefix of the longer. */
  lemma SamePlaceIsPrefix(source: string, long: LocatedTerm, short: LocatedTerm)
    requires FoundAt(source, long) && FoundAt(source, short)
    ensures long.index == short.index && |long.value| >= |short.value| ==> short.value <= long.value
  {
    if long.index == short.index && |long.value| >= |short.value| {
      var tail := source[long.index..];
      assert short.value == tail[..|short.value|] == tail[..|long.value|][..|short.value|];
    }
  }

  lemma {:induction false} RetainDistinct(source: string, terms: seq<Term>)
    requires LocatedIn(source, terms) && Sorted(terms)
    ensures InOrder(Retain(terms))
  {
    if terms != [] {
      var init, last := terms[..|terms| - 1], terms[|terms| - 1];
      RetainDistinct(source, init);
      RetainCovers(init);
      var before := Retain(init);
      if !Dropped(before, last) {
        forall i | 0 <= i < |before|
          ensures before[i].located.index < last.located.index
          ensures before[i].located.value != last.located.value
        {
          EarlierIsBefore(source, terms, before, i);
        }
      }
    }
  }

  lemma EarlierIsBefore(source: string, terms: seq<Term>, before: seq<Term>, i: nat)
    requires LocatedIn(source, terms) && Sorted(terms) && terms != []
    requires i < |before| && before[i] in terms[..|terms| - 1]
    requires !Dropped(before, terms[|terms| - 1])
    ensures before[i].located.index < terms[|terms| - 1].located.index
    ensures before[i].located.value != terms[|terms| - 1].located.value
  {
    var last := |terms| - 1;
    var at :| 0 <= at < last && terms[..last][at] == before[i];
    assert terms[at] == before[i] && NotAfter(terms[at], terms[last]);
    SamePlaceIsPrefix(source, before[i].located, terms[last].located);
  }

  // ---------- The kept terms ----------

  /** The terms a source description asks its translation to preserve. */
  function SourceTechnicalTerms(extracted: seq<Term>): seq<Term> {
    Retain(Sort(extracted))
  }

  ghost predicate IncludesAll(text: string, terms: seq<Term>) {
    forall t :: t in terms ==> Includes(text, t.located.value)
  }

  lemma SameElements(terms: seq<Term>, sorted: seq<Term>)
    requires multiset(terms) == multiset(sorted)
    ensures forall t :: t in terms <==> t in sorted
  {
    forall t
      ensures t in terms <==> t in sorted
    {
      assert t in terms <==> t in multiset(terms);
      assert t in sorted <==> t in multiset(sorted);
    }
  }

  /**
    The kept terms are pairwise distinct, at strictly increasing positions, and among the extracted
    ones; every extracted term is a prefix of a kept one.
  */
  lemma KeptTerms(source: string, extracted: seq<Term>)
    requires LocatedIn(source, extracted)
    ensures InOrder(SourceTechnicalTerms(extracted))
    ensures forall t :: t in SourceTechnicalTerms(extracted) ==> t in extracted
    ensures forall t :: t in extracted ==> Covered(SourceTechnicalTerms(extracted), t)
  {
    SameElements(extracted, Sort(extracted));
    RetainDistinct(source, Sort(extracted));
    RetainCovers(Sort(extracted));
  }

  lemma PrefixIncluded(text: string, value: string, prefix: string)
    requires Includes(text, value) && prefix <= value
    ensures Includes(text, prefix)
  {
    var at :| 0 <= at <= |text| && value <= text[at..];
    assert prefix <= text[at..];
  }

  /** A text that includes every kept term includes every extracted one, and the other way round. */
  lemma KeptTermsSuffice(extracted: seq<Term>, text: string)
    ensures IncludesAll(text, SourceTechnicalTerms(extracted)) <==> IncludesAll(text, extracted)
  {
    var kept := SourceTechnicalTerms(extracted);
    SameElements(extracted, Sort(extracted));
    RetainCovers(Sort(extracted));
    if IncludesAll(text, kept) {
      forall t | t in extracted
        ensures Includes(text, t.located.value)
      {
        var k :| 0 <= k < |kept| && t.located.value <= kept[k].located.value;
        assert kept[k] in kept;
        PrefixIncluded(text, kept[k].located.value, t.located.value);
      }
    }
  }

  // ---------- Missing and preserved terms ----------

  datatype Missing = Missing(chemicalFormulas: seq<string>, latinNames: seq<string>)

  /** The values of the kept terms of one kind that the translation does not include. */
  function MissingOfKind(kept: seq<Term>, kind: Kind, translation: string): (r: seq<string>)
    ensures forall v :: v in r <==>
              exists t :: t in kept && t.kind == kind && t.located.value == v && !Includes(translation, v)
  {
    if kept == [] then []
    else
      var rest := MissingOfKind(kept[1..], kind, translation);
      var head := kept[0];
      assert forall t :: t in kept <==> t == head || t in kept[1..];
      if head.kind == kind && !Includes(translation, head.located.value) then [head.located.value] + rest else rest
  }

  function MissingSourceTechnicalTerms(extracted: seq<Term>, translation: string): Missing {
    var kept := SourceTechnicalTerms(extracted);
    Missing(MissingOfKind(kept, Chemical, translation), MissingOfKind(kept, Latin, translation))
  }

  function ValuesAmong(kept: seq<Term>, missing: Missing): (r: seq<string>)
    ensures forall v :: v in r <==>
              (v in missing.chemicalFormulas || v in missing.latinNames) && exists t :: t in kept && t.located.value == v
    ensures missing == Missing([], []) ==> r == []
  {
    if kept == [] then []
    else
      var value := kept[0].located.value;
      var rest := ValuesAmong(kept[1..], missing);
      assert forall t :: t in kept <==> t == kept[0] || t in kept[1..];
      if value in missing.chemicalFormulas || value in missing.latinNames then [value] + rest else rest
  }

  function Join(values: seq<string>, separator: string): string {
    if values == [] then ""
    else if |values| == 1 then values[0]
    else values[0] + separator + Join(values[1..], separator)
  }

  /** The repair step: what is missing is appended in parentheses. */
  function PreserveSourceTechnicalTerms(extracted: seq<Term>, translation: string): string {
    var missing := MissingSourceTechnicalTerms(extracted, translation);
    var terms := ValuesAmong(SourceTechnicalTerms(extracted), missing);
    if terms == [] then translation else translation + " (" + Join(terms, "; ") + ")"
  }

  lemma IncludedAt(before: string, value: string, after: string)
    ensures Includes(before + value + after, value)
  {
    assert (before + value + after)[|before|..] == value + after;
  }

  /** Writing more around a text loses none of what it includes. */
  lemma IncludedInside(before: string, text: string, after: string, value: string)
    requires Includes(text, value)
    ensures Includes(before + text + after, value)
  {
    var at :| 0 <= at <= |text| && value <= text[at..];
    assert (before + text + after)[|before| + at..] == text[at..] + after;
  }

  lemma {:induction false} JoinIncludes(values: seq<string>, separator: string, value: string)
    requires value in values
    ensures Includes(Join(values, separator), value)
  {
    if |values| == 1 {
      IncludedAt("", value, "");
      assert "" + value + "" == value;
    } else if value == values[0] {
      IncludedAt("", value, separator + Join(values[1..], separator));
      assert "" + value + (separator + Join(values[1..], separator)) == Join(values, separator);
    } else {
      JoinIncludes(values[1..], separator, value);
      var tail := Join(values[1..], separator);
      IncludedInside(values[0] + separator, tail, "", value);
      assert values[0] + separator + tail + "" == Join(values, separator);
    }
  }

  /** The checker reports nothing exactly when the text includes every kept term. */
  lemma NothingMissingIff(extracted: seq<Term>, text: string)
    ensures MissingSourceTechnicalTerms(extracted, text) == Missing([], [])
            <==> IncludesAll(text, SourceTechnicalTerms(extracted))
  {
    var kept := SourceTechnicalTerms(extracted);
    var missing := MissingSourceTechnicalTerms(extracted, text);
    if missing == Missing([], []) {
      forall t | t in kept
        ensures Includes(text, t.located.value)
      {
        assert t.located.value !in (if t.kind == Chemical then missing.chemicalFormulas else missing.latinNames);
      }
    } else {
      var v := if missing.chemicalFormulas != [] then missing.chemicalFormulas[0] else missing.latinNames[0];
      assert v in missing.chemicalFormulas || v in missing.latinNames;
    }
  }

  lemma LongerIncludes(text: string, longer: string, value: string)
    requires text <= longer && Includes(text, value)
    ensures Includes(longer, value)
  {
    IncludedInside("", text, longer[|text|..], value);
    assert "" + text + longer[|text|..] == longer;
  }

  lemma RepairKeeps(extracted: seq<Term>, translation: string, value: string)
    requires Includes(translation, value)
    ensures Includes(PreserveSourceTechnicalTerms(extracted, translation), value)
  {
    LongerIncludes(translation, PreserveSourceTechnicalTerms(extracted, translation), value);
  }

  lemma MissingIsListed(extracted: seq<Term>, translation: string, t: Term)
    requires t in SourceTechnicalTerms(extracted) && !Includes(translation, t.located.value)
    ensures t.located.value
            in ValuesAmong(SourceTechnicalTerms(extracted), MissingSourceTechnicalTerms(extracted, translation))
  {
    var missing := MissingSourceTechnicalTerms(extracted, translation);
    assert t.located.value in (if t.kind == Chemical then missing.chemicalFormulas else missing.latinNames);
  }

  /** The repaired text includes a term because the translation did, or because it was appended. */
  lemma RepairIncludes(extracted: seq<Term>, translation: string, t: Term)
    requires t in SourceTechnicalTerms(extracted)
    ensures Includes(PreserveSourceTechnicalTerms(extracted, translation), t.located.value)
  {
    var value := t.located.value;
    if Includes(translation, value) {
      RepairKeeps(extracted, translation, value);
    } else {
      var terms := ValuesAmong(SourceTechnicalTerms(extracted), MissingSourceTechnicalTerms(extracted, translation));
      MissingIsListed(extracted, translation, t);
      JoinIncludes(terms, "; ", value);
      IncludedInside(translation + " (", Join(terms, "; "), ")", value);
    }
  }

  /** After the repair no source term is missing, and a second repair changes nothing. */
  lemma PreserveRepairs(extracted: seq<Term>, translation: string)
    ensures var repaired := PreserveSourceTechnicalTerms(extracted, translation);
            && IncludesAll(repaired, SourceTechnicalTerms(extracted))
            && MissingSourceTechnicalTerms(extracted, repaired) == Missing([], [])
            && PreserveSourceTechnicalTerms(extracted, repaired) == repaired
            && translation <= repaired
  {
    var repaired := PreserveSourceTechnicalTerms(extracted, translation);
    forall t | t in SourceTechnicalTerms(extracted)
      ensures Includes(repaired, t.located.value)
    {
      RepairIncludes(extracted, translation, t);
    }
    NothingMissingIff(extracted, repaired);
  }

  // ---------- Which terms are kept ----------

  ghost predicate IsKept(kept: seq<Term>, l: LocatedTerm) {
    exists k :: 0 <= k < |kept| && kept[k].located == l
  }

  /** The value is kept at an earlier place. */
  ghost predicate KeptEarlier(kept: seq<Term>, l: LocatedTerm) {
    exists k :: 0 <= k < |kept| && kept[k].located.value == l.value && kept[k].located.index < l.index
  }

  /** At the same place a longer term is kept. */
  ghost predicate LongerKept(kept: seq<Term>, l: LocatedTerm) {
    exists k :: 0 <= k < |kept| && kept[k].located.index == l.index && |kept[k].located.value| > |l.value|
  }

  lemma KeptNext(kept: seq<Term>, last: Term, l: LocatedTerm)
    ensures IsKept(kept + [last], l) <==> IsKept(kept, l) || last.located == l
    ensures KeptEarlier(kept + [last], l)
            <==> KeptEarlier(kept, l) || (last.located.value == l.value && last.located.index < l.index)
    ensures LongerKept(kept + [last], l)
            <==> LongerKept(kept, l) || (last.located.index == l.index && |last.located.value| > |l.value|)
  {
    var more := kept + [last];
    assert more[|kept|] == last && forall k :: 0 <= k < |kept| ==> more[k] == kept[k];
  }

  /** Kept terms are found in the source, and do not come after a term that is yet to be filtered. */
  ghost predicate KeptBefore(source: string, kept: seq<Term>, term: Term) {
    forall k :: 0 <= k < |kept| ==> FoundAt(source, kept[k].located) && NotAfter(kept[k], term)
  }

  /** A term is dropped when it, or its value earlier on, is kept already, or a longer one at its place. */
  lemma DroppedIff(source: string, kept: seq<Term>, term: Term)
    requires KeptBefore(source, kept, term) && FoundAt(source, term.located)
    ensures Dropped(kept, term)
            <==> IsKept(kept, term.located) || KeptEarlier(kept, term.located) || LongerKept(kept, term.located)
  {
    forall k | 0 <= k < |kept|
      ensures kept[k].located.index == term.located.index ==> term.located.value <= kept[k].located.value
    {
      SamePlaceIsPrefix(source, kept[k].located, term.located);
    }
    if k :| 0 <= k < |kept| && kept[k].located.value == term.located.value {
      assert NotAfter(kept[k], term);
    }
  }

  ghost predicate KeptRight(kept: seq<Term>, l: LocatedTerm) {
    IsKept(kept, l) <==> !KeptEarlier(kept, l) && !LongerKept(kept, l)
  }

  function Filtered(kept: seq<Term>, term: Term): seq<Term> {
    if Dropped(kept, term) then kept else kept + [term]
  }

  /** The next term changes nothing for one that does not come after it. */
  lemma OldTermStays(source: string, kept: seq<Term>, last: Term, t: Term)
    requires KeptBefore(source, kept, last) && FoundAt(source, last.located)
    requires NotAfter(t, last) && KeptRight(kept, t.located)
    ensures KeptRight(Filtered(kept, last), t.located)
  {
    DroppedIff(source, kept, last);
    KeptNext(kept, last, t.located);
  }

  lemma NewTermIsRight(source: string, kept: seq<Term>, last: Term)
    requires KeptBefore(source, kept, last) && FoundAt(source, last.located) && InOrder(kept)
    ensures KeptRight(Filtered(kept, last), last.located)
  {
    DroppedIff(source, kept, last);
    KeptNext(kept, last, last.located);
    KeptExcludes(kept, last.located);
  }

  lemma {:induction false} RetainedBefore(source: string, init: seq<Term>, last: Term)
    requires LocatedIn(source, init + [last]) && Sorted(init + [last])
    ensures KeptBefore(source, Retain(init), last)
  {
    var before, terms := Retain(init), init + [last];
    RetainCovers(init);
    forall k | 0 <= k < |before|
      ensures FoundAt(source, before[k].located) && NotAfter(before[k], last)
    {
      assert before[k] in init;
      var at :| 0 <= at < |init| && init[at] == before[k];
      assert terms[at] == before[k] && terms[|init|] == last && terms[at] in terms;
    }
  }

  lemma SortedPrefix(source: string, init: seq<Term>, last: Term)
    requires LocatedIn(source, init + [last]) && Sorted(init + [last])
    ensures LocatedIn(source, init) && Sorted(init) && FoundAt(source, last.located)
    ensures forall t :: t in init ==> NotAfter(t, last)
  {
    var terms := init + [last];
    assert terms[|init|] == last && last in terms;
    assert forall k :: 0 <= k < |init| ==> terms[k] == init[k];
  }

  lemma {:induction false} RetainIff(source: string, terms: seq<Term>, t: Term)
    requires LocatedIn(source, terms) && Sorted(terms) && t in terms
    ensures KeptRight(Retain(terms), t.located)
  {
    var init, last := terms[..|terms| - 1], terms[|terms| - 1];
    assert terms == init + [last];
    SortedPrefix(source, init, last);
    RetainedBefore(source, init, last);
    RetainDistinct(source, init);
    assert Retain(terms) == Filtered(Retain(init), last);
    if t in init {
      RetainIff(source, init, t);
      OldTermStays(source, Retain(init), last, t);
    } else {
      NewTermIsRight(source, Retain(init), last);
    }
  }

  /** Kept terms are in order, so a kept one has no kept one of its value before it and none at its place beside it. */
  lemma KeptExcludes(kept: seq<Term>, l: LocatedTerm)
    requires InOrder(kept)
    ensures IsKept(kept, l) ==> !KeptEarlier(kept, l) && !LongerKept(kept, l)
  {
  }

  /**
    Which terms are kept: exactly those whose value is not kept at an earlier place, unless a longer term is kept
    at the same place.
  */
  lemma KeptIff(source: string, extracted: seq<Term>, t: Term)
    requires LocatedIn(source, extracted) && t in extracted
    ensures var kept := SourceTechnicalTerms(extracted);
            IsKept(kept, t.located) <==> !KeptEarlier(kept, t.located) && !LongerKept(kept, t.located)
  {
    SameElements(extracted, Sort(extracted));
    RetainIff(source, Sort(extracted), t);
  }

  // ---------- What the repair appends ----------

  /** The values of the kept terms that a text does not include, in order. */
  ghost function NotIncluded(kept: seq<Term>, text: string): seq<string> {
    if kept == [] then []
    else
      var value := kept[0].located.value;
      (if Includes(text, value) then [] else [value]) + NotIncluded(kept[1..], text)
  }

  lemma {:induction false} AmongIsNotIncluded(all: seq<Term>, kept: seq<Term>, translation: string)
    requires forall t :: t in kept ==> t in all
    ensures ValuesAmong(kept, Missing(MissingOfKind(all, Chemical, translation), MissingOfKind(all, Latin, translation)))
            == NotIncluded(kept, translation)
  {
    if kept != [] {
      var head := kept[0];
      assert kept == [head] + kept[1..];
      AmongIsNotIncluded(all, kept[1..], translation);
      assert head in all;
      if !Includes(translation, head.located.value) {
        assert head.located.value in MissingOfKind(all, head.kind, translation);
      }
    }
  }

  /** The repair appends exactly what is not included, in order and behind the translation. */
  lemma {:induction false} RepairIs(extracted: seq<Term>, translation: string)
    ensures var values := NotIncluded(SourceTechnicalTerms(extracted), translation);
            PreserveSourceTechnicalTerms(extracted, translation)
            == if values == [] then translation else translation + " (" + Join(values, "; ") + ")"
  {
    var kept := SourceTechnicalTerms(extracted);
    AmongIsNotIncluded(kept, kept, translation);
  }
}
