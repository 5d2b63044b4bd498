/**
  How the technical terms of a source description are collected, from the whole text and from its
  parenthesised segments: scripts/catalog/product-translation-structure.ts. The patterns are parameters;
  what they find is a substring of what they search.
*/
module TermExtraction {
  import opened Common
  import opened Parentheses
  import opened ChemicalFormula
  import opened SourceTerms

  type Pattern = string -> seq<Match>

  /** The pattern of words, those searched for in the whole text, and those searched for in each segment. */
  datatype Patterns = Patterns(words: Pattern, inText: seq<Pattern>, inSegments: seq<Pattern>)

  ghost predicate Finds(pattern: Pattern) {
    forall text, m :: m in pattern(text) ==> MatchIn(text, m)
  }

  ghost predicate AllFind(patterns: seq<Pattern>) {
    forall k :: 0 <= k < |patterns| ==> Finds(patterns[k])
  }

  ghost predicate Behave(p: Patterns) {
    Finds(p.words) && AllFind(p.inText) && AllFind(p.inSegments)
  }

  // ---------- What is collected ----------

  /** What the patterns find in one segment, pattern by pattern. */
  ghost function CollectedBy(segment: LocatedTerm, patterns: seq<Pattern>): seq<LocatedTerm>
    requires AllFind(patterns)
  {
    if patterns == [] then []
    else
      assert Finds(patterns[|patterns| - 1]);
      CollectedBy(segment, patterns[..|patterns| - 1]) + Collected(segment, patterns[|patterns| - 1](segment.value))
  }

  ghost function CollectedFrom(segments: seq<LocatedTerm>, patterns: seq<Pattern>): seq<LocatedTerm>
    requires AllFind(patterns)
  {
    if segments == [] then []
    else CollectedFrom(segments[..|segments| - 1], patterns) + CollectedBy(segments[|segments| - 1], patterns)
  }

  /** The words that are chemical formulas. */
  ghost function Formulas(matches: seq<Match>): seq<Term> {
    if matches == [] then []
    else
      var before, last := Formulas(matches[..|matches| - 1]), matches[|matches| - 1];
      if IsFormula(ELEMENT_SYMBOLS, last.whole) then before + [Term(Chemical, LocatedTerm(last.whole, last.index))]
      else before
  }

  function Latins(located: seq<LocatedTerm>): seq<Term> {
    seq(|located|, k requires 0 <= k < |located| => Term(Latin, located[k]))
  }

  function Whole(source: string): LocatedTerm {
    LocatedTerm(source, 0)
  }

  /** Everything that is extracted from a source with the given segments. */
  ghost function Extracted(source: string, segments: seq<LocatedTerm>, p: Patterns): seq<Term>
    requires Behave(p)
  {
    Formulas(p.words(source)) + Latins(CollectedBy(Whole(source), p.inText) + CollectedFrom(segments, p.inSegments))
  }

  // ---------- What a pattern finds is extracted ----------

  lemma {:induction false} CollectedHas(segment: LocatedTerm, matches: seq<Match>, m: Match)
    requires forall other :: other in matches ==> MatchIn(segment.value, other)
    requires m in matches && m.group.Some?
    ensures exists t :: t in Collected(segment, matches) && t.value == m.group.value
  {
    var init, last := matches[..|matches| - 1], matches[|matches| - 1];
    assert matches == init + [last];
    if m == last {
      var all := Collected(segment, matches);
      assert all[|all| - 1].value == m.group.value;
    } else {
      CollectedHas(segment, init, m);
    }
  }

  lemma {:induction false} CollectedByHas(segment: LocatedTerm, patterns: seq<Pattern>, k: nat, m: Match)
    requires AllFind(patterns) && k < |patterns|
    requires m in patterns[k](segment.value) && m.group.Some?
    ensures exists t :: t in CollectedBy(segment, patterns) && t.value == m.group.value
  {
    var init, last := patterns[..|patterns| - 1], patterns[|patterns| - 1];
    assert Finds(last);
    if k == |patterns| - 1 {
      CollectedHas(segment, last(segment.value), m);
    } else {
      CollectedByHas(segment, init, k, m);
    }
  }

  /** A name that one of the patterns of the text finds is extracted, whatever else is. */
  lemma FoundIsExtracted(source: string, segments: seq<LocatedTerm>, p: Patterns, k: nat, m: Match)
    requires Behave(p) && k < |p.inText| && m in p.inText[k](source) && m.group.Some?
    ensures exists t :: t in Extracted(source, segments, p) && t.located.value == m.group.value
  {
    CollectedByHas(Whole(source), p.inText, k, m);
    var located := CollectedBy(Whole(source), p.inText) + CollectedFrom(segments, p.inSegments);
    var t :| t in CollectedBy(Whole(source), p.inText) && t.value == m.group.value;
    assert t in located;
    var at :| 0 <= at < |located| && located[at] == t;
    assert Latins(located)[at] == Term(Latin, t);
    assert Term(Latin, t) in Extracted(source, segments, p);
  }

  // ---------- Exactly what is extracted ----------

  /** `at` is the first place of `value` in `text`. */
  ghost predicate FirstIn(text: string, value: string, at: nat) {
    at <= |text| && value <= text[at..] && forall k :: 0 <= k < at ==> !(value <= text[k..])
  }

  /** The match has this group, whose first place in the match, counted from where the segment starts, is recorded. */
  ghost predicate Locates(segment: LocatedTerm, m: Match, l: LocatedTerm) {
    m.group == Some(l.value) && exists at :: FirstIn(m.whole, l.value, at) && l.index == segment.index + m.index + at
  }

  ghost predicate FoundBy(segment: LocatedTerm, patterns: seq<Pattern>, l: LocatedTerm) {
    exists k, m :: 0 <= k < |patterns| && m in patterns[k](segment.value) && Locates(segment, m, l)
  }

  ghost predicate FoundInSome(segments: seq<LocatedTerm>, patterns: seq<Pattern>, l: LocatedTerm) {
    exists k :: 0 <= k < |segments| && FoundBy(segments[k], patterns, l)
  }

  lemma LocatesIff(segment: LocatedTerm, m: Match, l: LocatedTerm)
    requires MatchIn(segment.value, m) && m.group.Some?
    ensures Locates(segment, m, l)
            <==> l == LocatedTerm(m.group.value, segment.index + m.index + FirstIndex(m.whole, m.group.value, 0))
  {
    assert FirstIn(m.whole, m.group.value, FirstIndex(m.whole, m.group.value, 0));
  }

  lemma {:induction false} CollectedIff(segment: LocatedTerm, matches: seq<Match>, l: LocatedTerm)
    requires forall m :: m in matches ==> MatchIn(segment.value, m)
    ensures l in Collected(segment, matches) <==> exists m :: m in matches && Locates(segment, m, l)
  {
    if matches != [] {
      var init, last := matches[..|matches| - 1], matches[|matches| - 1];
      assert matches == init + [last];
      CollectedIff(segment, init, l);
      if last.group.Some? {
        LocatesIff(segment, last, l);
      }
    }
  }

  lemma {:induction false} CollectedByIff(segment: LocatedTerm, patterns: seq<Pattern>, l: LocatedTerm)
    requires AllFind(patterns)
    ensures l in CollectedBy(segment, patterns) <==> FoundBy(segment, patterns, l)
  {
    if patterns != [] {
      var n := |patterns| - 1;
      var init, last := patterns[..n], patterns[n];
      assert Finds(last);
      CollectedByIff(segment, init, l);
      CollectedIff(segment, last(segment.value), l);
      FoundByNext(segment, init, last, l);
      assert patterns == init + [last];
    }
  }

  lemma FoundByNext(segment: LocatedTerm, patterns: seq<Pattern>, last: Pattern, l: LocatedTerm)
    ensures FoundBy(segment, patterns + [last], l)
            <==> FoundBy(segment, patterns, l) || exists m :: m in last(segment.value) && Locates(segment, m, l)
  {
    var more := patterns + [last];
    assert more[|patterns|] == last && forall k :: 0 <= k < |patterns| ==> more[k] == patterns[k];
    if k, m :| 0 <= k < |patterns| && m in patterns[k](segment.value) && Locates(segment, m, l) {
      assert m in more[k](segment.value);
    }
    if m :| m in last(segment.value) && Locates(segment, m, l) {
      assert m in more[|patterns|](segment.value);
    }
  }

  lemma {:induction false} CollectedFromIff(segments: seq<LocatedTerm>, patterns: seq<Pattern>, l: LocatedTerm)
    requires AllFind(patterns)
    ensures l in CollectedFrom(segments, patterns) <==> FoundInSome(segments, patterns, l)
  {
    if segments != [] {
      var init, last := segments[..|segments| - 1], segments[|segments| - 1];
      assert segments == init + [last];
      CollectedFromIff(init, patterns, l);
      CollectedByIff(last, patterns, l);
      FoundInNext(init, last, patterns, l);
      CollectedFromNext(init, last, patterns, l);
    }
  }

  lemma {:induction false} CollectedFromNext(segments: seq<LocatedTerm>, last: LocatedTerm, patterns: seq<Pattern>,
                                             l: LocatedTerm)
    requires AllFind(patterns)
    ensures l in CollectedFrom(segments + [last], patterns)
            <==> l in CollectedFrom(segments, patterns) || l in CollectedBy(last, patterns)
  {
    assert (segments + [last])[..|segments|] == segments;
  }

  lemma FoundInNext(segments: seq<LocatedTerm>, last: LocatedTerm, patterns: seq<Pattern>, l: LocatedTerm)
    ensures FoundInSome(segments + [last], patterns, l) <==> FoundInSome(segments, patterns, l) || FoundBy(last, patterns, l)
  {
    var more := segments + [last];
    assert more[|segments|] == last && forall k :: 0 <= k < |segments| ==> more[k] == segments[k];
  }

  lemma {:induction false} FormulasIff(matches: seq<Match>, t: Term)
    ensures t in Formulas(matches)
            <==> exists m :: && m in matches && IsFormula(ELEMENT_SYMBOLS, m.whole)
                             && t == Term(Chemical, LocatedTerm(m.whole, m.index))
  {
    if matches != [] {
      var init, last := matches[..|matches| - 1], matches[|matches| - 1];
      assert matches == init + [last];
      FormulasIff(init, t);
    }
  }

  /**
    Extracted are exactly: the words that are formulas, where they stand; and the names that a pattern of the text
    finds in the text, or a pattern of segments in one of the segments, where they first stand in their match.
  */
  lemma ExtractedIff(source: string, segments: seq<LocatedTerm>, p: Patterns, t: Term)
    requires Behave(p)
    ensures t in Extracted(source, segments, p)
            <==> || (exists m :: && m in p.words(source) && IsFormula(ELEMENT_SYMBOLS, m.whole)
                                 && t == Term(Chemical, LocatedTerm(m.whole, m.index)))
                 || (t.kind == Latin
                     && (FoundBy(LocatedTerm(source, 0), p.inText, t.located)
                         || FoundInSome(segments, p.inSegments, t.located)))
  {
    FormulasIff(p.words(source), t);
    CollectedByIff(Whole(source), p.inText, t.located);
    CollectedFromIff(segments, p.inSegments, t.located);
    LatinsIff(CollectedBy(Whole(source), p.inText) + CollectedFrom(segments, p.inSegments), t);
  }

  lemma LatinsIff(located: seq<LocatedTerm>, t: Term)
    ensures t in Latins(located) <==> t.kind == Latin && t.located in located
  {
    if t.kind == Latin && t.located in located {
      var k :| 0 <= k < |located| && located[k] == t.located;
      assert Latins(located)[k] == t;
    }
  }

  // ---------- It is found in the source ----------

  ghost predicate AllFoundAt(source: string, located: seq<LocatedTerm>) {
    forall t :: t in located ==> FoundAt(source, t)
  }

  lemma {:induction false} CollectedByFound(source: string, segment: LocatedTerm, patterns: seq<Pattern>)
    requires AllFind(patterns) && FoundAt(source, segment)
    ensures AllFoundAt(source, CollectedBy(segment, patterns))
  {
    if patterns != [] {
      CollectedByFound(source, segment, patterns[..|patterns| - 1]);
      assert Finds(patterns[|patterns| - 1]);
      CollectedFound(source, segment, patterns[|patterns| - 1](segment.value));
    }
  }

  lemma {:induction false} CollectedFromFound(source: string, segments: seq<LocatedTerm>, patterns: seq<Pattern>)
    requires AllFind(patterns) && AllFoundAt(source, segments)
    ensures AllFoundAt(source, CollectedFrom(segments, patterns))
  {
    if segments != [] {
      var init, last := segments[..|segments| - 1], segments[|segments| - 1];
      assert last in segments;
      CollectedFromFound(source, init, patterns);
      CollectedByFound(source, last, patterns);
    }
  }

  /** The matcher's segments are found in the source. */
  lemma SegmentsFound(source: string, segments: seq<LocatedTerm>)
    requires Reported(source, segments)
    ensures AllFoundAt(source, segments)
  {
    var pairs :| MatchesUpTo(source, pairs, |source|) && SegmentsOf(source, segments, pairs);
    forall k | 0 <= k < |segments|
      ensures FoundAt(source, segments[k])
    {
      SegmentFound(source, pairs[k]);
    }
  }

  lemma {:induction false} FormulasFound(source: string, matches: seq<Match>)
    requires forall m :: m in matches ==> MatchIn(source, m)
    ensures LocatedIn(source, Formulas(matches))
  {
    if matches != [] {
      FormulasFound(source, matches[..|matches| - 1]);
      assert matches[|matches| - 1] in matches;
    }
  }

  /** Whatever the patterns find, the extracted terms stand in the source where they are recorded. */
  lemma ExtractedFound(source: string, segments: seq<LocatedTerm>, p: Patterns)
    requires Behave(p) && Reported(source, segments)
    ensures LocatedIn(source, Extracted(source, segments, p))
  {
    SegmentsFound(source, segments);
    FormulasFound(source, p.words(source));
    assert FoundAt(source, Whole(source));
    CollectedByFound(source, Whole(source), p.inText);
    CollectedFromFound(source, segments, p.inSegments);
    LatinsFound(source, CollectedBy(Whole(source), p.inText) + CollectedFrom(segments, p.inSegments));
  }

  lemma LatinsFound(source: string, located: seq<LocatedTerm>)
    requires AllFoundAt(source, located)
    ensures LocatedIn(source, Latins(located))
  {
  }

  // ---------- The loops ----------

  method CollectPatterns(segment: LocatedTerm, patterns: seq<Pattern>, target: seq<LocatedTerm>)
    returns (collected: seq<LocatedTerm>)
    requires AllFind(patterns)
    ensures collected == target + CollectedBy(segment, patterns)
  {
    collected := target;
    for n := 0 to |patterns|
      invariant collected == target + CollectedBy(segment, patterns[..n])
    {
      TakeNext(patterns, n);
      assert Finds(patterns[n]);
      collected := CollectMatches(segment, patterns[n](segment.value), collected);
    }
    TakeAll(patterns);
  }

  method CollectSegments(segments: seq<LocatedTerm>, patterns: seq<Pattern>, target: seq<LocatedTerm>)
    returns (collected: seq<LocatedTerm>)
    requires AllFind(patterns)
    ensures collected == target + CollectedFrom(segments, patterns)
  {
    collected := target;
    for n := 0 to |segments|
      invariant collected == target + CollectedFrom(segments[..n], patterns)
    {
      TakeNext(segments, n);
      collected := CollectPatterns(segments[n], patterns, collected);
    }
    TakeAll(segments);
  }

  lemma NothingBefore(located: seq<LocatedTerm>)
    ensures [] + located == located
  {
  }

  method LatinNameTerms(source: string, p: Patterns) returns (terms: seq<LocatedTerm>, ghost segments: seq<LocatedTerm>)
    requires Behave(p)
    ensures Reported(source, segments)
    ensures terms == CollectedBy(Whole(source), p.inText) + CollectedFrom(segments, p.inSegments)
  {
    terms := CollectPatterns(Whole(source), p.inText, []);
    NothingBefore(CollectedBy(Whole(source), p.inText));
    var parentheticals := ParentheticalSegments(source);
    segments := parentheticals;
    terms := CollectSegments(parentheticals, p.inSegments, terms);
  }

  method FormulaTerms(matches: seq<Match>) returns (terms: seq<Term>)
    ensures terms == Formulas(matches)
  {
    terms := [];
    for n := 0 to |matches|
      invariant terms == Formulas(matches[..n])
    {
      TakeNext(matches, n);
      var formula := IsChemicalFormula(matches[n].whole);
      if formula {
        terms := terms + [Term(Chemical, LocatedTerm(matches[n].whole, matches[n].index))];
      }
    }
    TakeAll(matches);
  }

  /**
    The terms of a source description, from text to kept list: distinct values, at strictly increasing
    places, each standing in the source at its place; and every term that was extracted, a formula of the
    text or a name of it or of one of its balanced segments, is a prefix of a kept one.
  */
  method FindSourceTechnicalTerms(source: string, p: Patterns) returns (kept: seq<Term>)
    requires Behave(p)
    ensures InOrder(kept) && LocatedIn(source, kept)
    ensures exists segments :: Reported(source, segments) && kept == SourceTechnicalTerms(Extracted(source, segments, p))
    ensures forall segments :: Reported(source, segments) ==>
              forall t :: t in Extracted(source, segments, p) ==> Covered(kept, t)
  {
    var formulas := FormulaTerms(p.words(source));
    ghost var segments;
    var latins;
    latins, segments := LatinNameTerms(source, p);
    var extracted := formulas + Latins(latins);
    assert extracted == Extracted(source, segments, p);
    kept := RetainTerms(Sort(extracted));
    ExtractedFound(source, segments, p);
    KeptTerms(source, extracted);
    forall other | Reported(source, other)
      ensures other == segments
    {
      ReportedIsUnique(source, other, segments);
    }
  }
}
