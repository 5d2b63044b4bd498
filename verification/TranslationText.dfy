/**
  The last steps of a translation, scripts/catalog/product-translation-catalog.ts: the repair of
  technical terms, the scope qualifier, and the whitespace collapse. The result is then checked by
  scripts/catalog/product-catalog-artifact.ts.
*/
module TranslationText {
  import opened Common
  import Parentheses
  import opened SourceTerms
  import opened TermExtraction

  /** The characters that `\s` matches and `trim` removes. */
  predicate IsSpace(c: char) {
    || c in {' ', '\t', '\n', '\r', '\U{000B}', '\U{000C}', '\U{00A0}', '\U{1680}', '\U{2028}', '\U{2029}',
             '\U{202F}', '\U{205F}', '\U{3000}', '\U{FEFF}'}
    || '\U{2000}' <= c <= '\U{200A}'
  }

  /** Each run of white space becomes one blank; `inRun` says that a run has already been written. */
  function CollapseRuns(text: string, inRun: bool): string {
    if text == "" then ""
    else if IsSpace(text[0]) then
      if inRun then CollapseRuns(text[1..], true) else " " + CollapseRuns(text[1..], true)
    else [text[0]] + CollapseRuns(text[1..], false)
  }

  function TrimStart(text: string): string {
    if text != "" && IsSpace(text[0]) then TrimStart(text[1..]) else text
  }

  function TrimEnd(text: string): string {
    if text != "" && IsSpace(text[|text| - 1]) then TrimEnd(text[..|text| - 1]) else text
  }

  /** The whitespace step of `validateTranslation`. */
  function Normalized(text: string): string {
    TrimEnd(TrimStart(CollapseRuns(text, false)))
  }

  /** No white space but single blanks. */
  ghost predicate SingleSpaced(text: string) {
    forall k :: 0 <= k < |text| && IsSpace(text[k]) ==>
      text[k] == ' ' && (k + 1 < |text| ==> !IsSpace(text[k + 1]))
  }

  /** What the patterns guarantee of a term: it begins and ends with a visible character. */
  ghost predicate VisibleEnds(value: string) {
    value != "" && !IsSpace(value[0]) && !IsSpace(value[|value| - 1])
  }

  predicate EndsInRun(text: string, inRun: bool) {
    if text == "" then inRun else IsSpace(text[|text| - 1])
  }

  lemma {:induction false} CollapseConcat(left: string, right: string, inRun: bool)
    ensures CollapseRuns(left + right, inRun) == CollapseRuns(left, inRun) + CollapseRuns(right, EndsInRun(left, inRun))
  {
    if left == "" {
      assert left + right == right;
    } else {
      assert (left + right)[1..] == left[1..] + right;
      CollapseConcat(left[1..], right, IsSpace(left[0]));
      assert left[1..] != "" ==> left[1..][|left| - 2] == left[|left| - 1];
    }
  }

  lemma {:induction false} SingleSpacedIsFixed(text: string, inRun: bool)
    requires SingleSpaced(text) && (inRun && text != "" ==> !IsSpace(text[0]))
    ensures CollapseRuns(text, inRun) == text
  {
    if text != "" {
      assert forall k :: 0 <= k < |text[1..]| ==> text[1..][k] == text[k + 1];
      SingleSpacedIsFixed(text[1..], IsSpace(text[0]));
    }
  }

  /** After the collapse only single blanks are left, the first of them not right after a run. */
  lemma {:induction false} CollapseIsSingleSpaced(text: string, inRun: bool)
    ensures SingleSpaced(CollapseRuns(text, inRun))
    ensures inRun && CollapseRuns(text, inRun) != "" ==> !IsSpace(CollapseRuns(text, inRun)[0])
  {
    if text != "" {
      CollapseIsSingleSpaced(text[1..], IsSpace(text[0]));
      var rest := CollapseRuns(text[1..], IsSpace(text[0]));
      var head := if IsSpace(text[0]) then ' ' else text[0];
      SingleSpacedAfter(head, rest);
    }
  }

  lemma SingleSpacedAfter(head: char, rest: string)
    requires SingleSpaced(rest) && (IsSpace(head) ==> head == ' ' && (rest != "" ==> !IsSpace(rest[0])))
    ensures SingleSpaced([head] + rest)
  {
    var text := [head] + rest;
    forall k | 0 <= k < |text| && IsSpace(text[k])
      ensures text[k] == ' ' && (k + 1 < |text| ==> !IsSpace(text[k + 1]))
    {
      if k > 0 {
        assert text[k] == rest[k - 1];
        assert k + 1 < |text| ==> text[k + 1] == rest[k];
      }
    }
  }

  lemma {:induction false} TrimStartKeeps(before: string, value: string, after: string)
    requires VisibleEnds(value)
    ensures Includes(TrimStart(before + value + after), value)
    ensures exists b :: TrimStart(before + value + after) == b + value + after
  {
    var text := before + value + after;
    if before != "" && IsSpace(before[0]) {
      assert text[1..] == before[1..] + value + after;
      TrimStartKeeps(before[1..], value, after);
    } else {
      assert text[0] == if before == "" then value[0] else before[0];
      assert TrimStart(text) == before + value + after;
      IncludedAt(before, value, after);
    }
  }

  lemma {:induction false} TrimEndKeeps(before: string, value: string, after: string)
    requires VisibleEnds(value)
    ensures Includes(TrimEnd(before + value + after), value)
  {
    var text := before + value + after;
    if after != "" && IsSpace(after[|after| - 1]) {
      assert text[..|text| - 1] == before + value + after[..|after| - 1];
      TrimEndKeeps(before, value, after[..|after| - 1]);
    } else {
      assert text[|text| - 1] == if after == "" then value[|value| - 1] else after[|after| - 1];
      IncludedAt(before, value, after);
    }
  }

  /** A single-spaced term survives the whitespace step. */
  lemma SingleSpacedSurvives(text: string, value: string)
    requires Includes(text, value) && VisibleEnds(value) && SingleSpaced(value)
    ensures Includes(Normalized(text), value)
  {
    var at :| 0 <= at <= |text| && value <= text[at..];
    var before, after := text[..at], text[at + |value|..];
    assert text == before + (value + after);
    CollapseConcat(before, value + after, false);
    CollapseConcat(value, after, EndsInRun(before, false));
    SingleSpacedIsFixed(value, EndsInRun(before, false));
    var b := CollapseRuns(before, false);
    var a := CollapseRuns(after, false);
    assert CollapseRuns(text, false) == b + value + a;
    TrimStartKeeps(b, value, a);
    var c :| TrimStart(b + value + a) == c + value + a;
    TrimEndKeeps(c, value, a);
  }

  lemma SliceIsSingleSpaced(text: string, from: nat, to: nat)
    requires SingleSpaced(text) && from <= to <= |text|
    ensures SingleSpaced(text[from..to])
  {
    var slice := text[from..to];
    forall k | 0 <= k < |slice| && IsSpace(slice[k])
      ensures slice[k] == ' ' && (k + 1 < |slice| ==> !IsSpace(slice[k + 1]))
    {
      assert slice[k] == text[from + k];
      assert k + 1 < |slice| ==> slice[k + 1] == text[from + k + 1];
    }
  }

  lemma {:induction false} TrimStartSingleSpaced(text: string)
    requires SingleSpaced(text)
    ensures SingleSpaced(TrimStart(text))
  {
    if text != "" && IsSpace(text[0]) {
      SliceIsSingleSpaced(text, 1, |text|);
      TrimStartSingleSpaced(text[1..]);
    }
  }

  lemma {:induction false} TrimEndSingleSpaced(text: string)
    requires SingleSpaced(text)
    ensures SingleSpaced(TrimEnd(text))
  {
    if text != "" && IsSpace(text[|text| - 1]) {
      SliceIsSingleSpaced(text, 0, |text| - 1);
      TrimEndSingleSpaced(text[..|text| - 1]);
    }
  }

  lemma {:induction false} TrimStartBegins(text: string)
    ensures TrimStart(text) == "" || !IsSpace(TrimStart(text)[0])
  {
    if text != "" && IsSpace(text[0]) {
      TrimStartBegins(text[1..]);
    }
  }

  lemma {:induction false} TrimEndEnds(text: string)
    requires text == "" || !IsSpace(text[0])
    ensures TrimEnd(text) == "" || VisibleEnds(TrimEnd(text))
  {
    if text != "" && IsSpace(text[|text| - 1]) {
      TrimEndEnds(text[..|text| - 1]);
    }
  }

  /** Normalised text is single spaced, and begins and ends with a visible character unless nothing is left. */
  lemma NormalizedIsSingleSpaced(text: string)
    ensures SingleSpaced(Normalized(text))
    ensures Normalized(text) == "" || VisibleEnds(Normalized(text))
  {
    var collapsed := CollapseRuns(text, false);
    CollapseIsSingleSpaced(text, false);
    TrimStartSingleSpaced(collapsed);
    TrimEndSingleSpaced(TrimStart(collapsed));
    TrimStartBegins(collapsed);
    TrimEndEnds(TrimStart(collapsed));
  }

  lemma IncludedIsSingleSpaced(text: string, value: string)
    requires SingleSpaced(text) && Includes(text, value)
    ensures SingleSpaced(value)
  {
    var at :| 0 <= at <= |text| && value <= text[at..];
    assert text[at..at + |value|] == value;
    SliceIsSingleSpaced(text, at, at + |value|);
  }

  /** Of the terms a text includes, the whitespace step keeps exactly the single-spaced ones. */
  lemma SurvivesIffSingleSpaced(text: string, value: string)
    requires Includes(text, value) && VisibleEnds(value)
    ensures Includes(Normalized(text), value) <==> SingleSpaced(value)
  {
    if SingleSpaced(value) {
      SingleSpacedSurvives(text, value);
    }
    if Includes(Normalized(text), value) {
      NormalizedIsSingleSpaced(text);
      IncludedIsSingleSpaced(Normalized(text), value);
    }
  }

  // ---------- The builder and the checker ----------

  const QUALIFIER := "（非针织或钩编）"

  /** The scope qualifier: appended when the source asks for it and the translation lacks it. */
  function PreserveSourceScopeQualifiers(needsQualifier: bool, translation: string): string {
    if needsQualifier then translation + QUALIFIER else translation
  }

  /** The description the translation builder writes. */
  function BuiltDescription(extracted: seq<Term>, needsQualifier: bool, translation: string): string {
    Normalized(PreserveSourceScopeQualifiers(needsQualifier, PreserveSourceTechnicalTerms(extracted, translation)))
  }

  /**
    The builder's output passes the catalogue's check for formulas and Latin names exactly when
    every extracted term is single spaced, and so exactly when every kept one is: the builder collapses
    white space that the check compares.
  */
  lemma BuilderPassesCheckIff(extracted: seq<Term>, needsQualifier: bool, translation: string)
    requires forall t :: t in extracted ==> VisibleEnds(t.located.value)
    ensures MissingSourceTechnicalTerms(extracted, BuiltDescription(extracted, needsQualifier, translation))
            == Missing([], [])
            <==> forall t :: t in extracted ==> SingleSpaced(t.located.value)
    ensures MissingSourceTechnicalTerms(extracted, BuiltDescription(extracted, needsQualifier, translation))
            == Missing([], [])
            <==> forall t :: t in SourceTechnicalTerms(extracted) ==> SingleSpaced(t.located.value)
  {
    KeptPassIff(extracted, needsQualifier, translation);
    SameElements(extracted, Sort(extracted));
    RetainCovers(Sort(extracted));
    forall t | t in extracted && !SingleSpaced(t.located.value)
      ensures MissingSourceTechnicalTerms(extracted, BuiltDescription(extracted, needsQualifier, translation))
              != Missing([], [])
    {
      SpacedTermFailsCheck(extracted, t, needsQualifier, translation);
    }
  }

  lemma KeptPassIff(extracted: seq<Term>, needsQualifier: bool, translation: string)
    requires forall t :: t in extracted ==> VisibleEnds(t.located.value)
    ensures MissingSourceTechnicalTerms(extracted, BuiltDescription(extracted, needsQualifier, translation))
            == Missing([], [])
            <==> forall t :: t in SourceTechnicalTerms(extracted) ==> SingleSpaced(t.located.value)
  {
    var kept := SourceTechnicalTerms(extracted);
    var built := BuiltDescription(extracted, needsQualifier, translation);
    NothingMissingIff(extracted, built);
    SameElements(extracted, Sort(extracted));
    RetainCovers(Sort(extracted));
    forall t | t in kept
      ensures Includes(built, t.located.value) <==> SingleSpaced(t.located.value)
    {
      QualifiedIncludes(extracted, needsQualifier, translation, t);
      SurvivesIffSingleSpaced(
        PreserveSourceScopeQualifiers(needsQualifier, PreserveSourceTechnicalTerms(extracted, translation)),
        t.located.value);
    }
  }

  /** The scope qualifier comes after the repaired text and loses none of its terms. */
  lemma QualifiedIncludes(extracted: seq<Term>, needsQualifier: bool, translation: string, t: Term)
    requires t in SourceTechnicalTerms(extracted)
    ensures Includes(PreserveSourceScopeQualifiers(needsQualifier, PreserveSourceTechnicalTerms(extracted, translation)),
                     t.located.value)
  {
    var repaired := PreserveSourceTechnicalTerms(extracted, translation);
    PreserveRepairs(extracted, translation);
    IncludedInside("", repaired, QUALIFIER, t.located.value);
    assert "" + repaired + QUALIFIER == repaired + QUALIFIER;
  }

  /**
    Whatever else is extracted, and whatever the translation: one term with other white space fails the
    check. The built text is single spaced, so it does not include the term, nor the kept one it begins.
  */
  lemma SpacedTermFailsCheck(extracted: seq<Term>, term: Term, needsQualifier: bool, translation: string)
    requires term in extracted && !SingleSpaced(term.located.value)
    ensures MissingSourceTechnicalTerms(extracted, BuiltDescription(extracted, needsQualifier, translation))
            != Missing([], [])
  {
    var built := BuiltDescription(extracted, needsQualifier, translation);
    NothingMissingIff(extracted, built);
    KeptTermsSuffice(extracted, built);
    if Includes(built, term.located.value) {
      NormalizedIsSingleSpaced(
        PreserveSourceScopeQualifiers(needsQualifier, PreserveSourceTechnicalTerms(extracted, translation)));
      IncludedIsSingleSpaced(built, term.located.value);
    }
  }

  // ---------- From the source to the failing description ----------

  /** No translation of the source passes when a pattern of the text finds a name with other white space. */
  lemma SpacedMatchFails(source: string, segments: seq<Parentheses.LocatedTerm>, p: Patterns, k: nat, m: Match,
                         needsQualifier: bool, translation: string)
    requires Behave(p) && k < |p.inText| && m in p.inText[k](source)
    requires m.group.Some? && !SingleSpaced(m.group.value)
    ensures var extracted := Extracted(source, segments, p);
            MissingSourceTechnicalTerms(extracted, BuiltDescription(extracted, needsQualifier, translation))
            != Missing([], [])
  {
    var extracted := Extracted(source, segments, p);
    FoundIsExtracted(source, segments, p, k, m);
    var term :| term in extracted && term.located.value == m.group.value;
    SpacedTermFailsCheck(extracted, term, needsQualifier, translation);
  }

  const DOUBLE_BLANK := "Aa  bb"

  lemma DoubleBlankIsSpaced()
    ensures VisibleEnds(DOUBLE_BLANK) && !SingleSpaced(DOUBLE_BLANK)
  {
    var value := DOUBLE_BLANK;
    assert value[2] == ' ' && value[3] == ' ' && IsSpace(value[2]) && IsSpace(value[3]);
  }

  /** The species name of the whole source. */
  const SPECIES := Match(0, "species " + DOUBLE_BLANK, Some(DOUBLE_BLANK))

  /**
    Such a source exists: a species name with two blanks between its words. The match stands in it, and with
    any patterns that find it no translation passes, whatever else they find.
  */
  lemma DoubleBlankFails(segments: seq<Parentheses.LocatedTerm>, p: Patterns, k: nat, needsQualifier: bool,
                         translation: string)
    requires Behave(p) && k < |p.inText| && SPECIES in p.inText[k](SPECIES.whole)
    ensures MatchIn(SPECIES.whole, SPECIES)
    ensures var extracted := Extracted(SPECIES.whole, segments, p);
            MissingSourceTechnicalTerms(extracted, BuiltDescription(extracted, needsQualifier, translation))
            != Missing([], [])
  {
    assert Finds(p.inText[k]);
    DoubleBlankIsSpaced();
    SpacedMatchFails(SPECIES.whole, segments, p, k, SPECIES, needsQualifier, translation);
  }

  /** There are such patterns: one that finds this name in this text, and nothing else anywhere. */
  lemma PatternsFindIt() returns (p: Patterns)
    ensures Behave(p) && |p.inText| == 1 && SPECIES in p.inText[0](SPECIES.whole)
  {
    var nothing: Pattern := (text: string) => [];
    var species: Pattern := (text: string) => if text == SPECIES.whole then [SPECIES] else [];
    p := Patterns(nothing, [species], []);
    assert SPECIES.whole[8..] == DOUBLE_BLANK;
  }

  // ---------- The scope qualifier ----------

  lemma QualifierIsSingleSpaced()
    ensures VisibleEnds(QUALIFIER) && SingleSpaced(QUALIFIER)
  {
    var text := QUALIFIER;
    assert forall k :: 0 <= k < |text| ==> !IsSpace(text[k]);
  }

  /** A description whose source asks for the qualifier has it; another is the repaired text and no more. */
  lemma QualifierIsThere(extracted: seq<Term>, translation: string)
    ensures Includes(BuiltDescription(extracted, true, translation), QUALIFIER)
    ensures BuiltDescription(extracted, false, translation)
            == Normalized(PreserveSourceTechnicalTerms(extracted, translation))
  {
    var repaired := PreserveSourceTechnicalTerms(extracted, translation);
    QualifierIsSingleSpaced();
    IncludedAt(repaired, QUALIFIER, "");
    assert repaired + QUALIFIER + "" == repaired + QUALIFIER;
    SurvivesIffSingleSpaced(repaired + QUALIFIER, QUALIFIER);
  }

  /** No white space but the blank is left: no tabulator, no line end, no other space. */
  lemma OnlyBlanksRemain(text: string, c: char)
    requires c in ['\t', '\n', '\r', '\U{000B}', '\U{000C}', '\U{00A0}', '\U{1680}', '\U{2000}', '\U{2001}', '\U{2002}',
                   '\U{2003}', '\U{2004}', '\U{2005}', '\U{2006}', '\U{2007}', '\U{2008}', '\U{2009}', '\U{200A}',
                   '\U{2028}', '\U{2029}', '\U{202F}', '\U{205F}', '\U{3000}', '\U{FEFF}']
    ensures c !in Normalized(text)
  {
    NormalizedIsSingleSpaced(text);
    assert IsSpace(c) && c != ' ';
  }
}
