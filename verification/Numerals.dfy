/**
  How a number is written, and the normal form in which two of them are compared:
  scripts/catalog/product-catalog-artifact.ts.
*/
module Numerals {
  import opened Common

  /** The separators that may stand between two runs of digits. */
  predicate IsSeparator(c: char) { c == '.' || c == ',' || c == '‧' }

  // ---------- The normal form ----------

  predicate Fraction(text: string) {
    |text| >= 2 && text[0] == '.' && AllDigits(text[1..])
  }

  /** One or more groups of a comma and three digits, then perhaps a fraction. */
  predicate GroupsThenFraction(text: string) {
    && |text| >= 4 && text[0] == ',' && AllDigits(text[1..4])
    && (text[4..] == "" || Fraction(text[4..]) || GroupsThenFraction(text[4..]))
  }

  predicate HasThousandsGroups(value: string) {
    exists n | 1 <= n <= 3 :: n <= |value| && AllDigits(value[..n]) && GroupsThenFraction(value[n..])
  }

  function ReplaceAll(text: string, target: char, replacement: string): string {
    if text == "" then ""
    else (if text[0] == target then replacement else [text[0]]) + ReplaceAll(text[1..], target, replacement)
  }

  function ReplaceFirst(text: string, target: char, replacement: string): string {
    if text == "" then ""
    else if text[0] == target then replacement + text[1..]
    else [text[0]] + ReplaceFirst(text[1..], target, replacement)
  }

  function NormalizeNumericToken(value: string): string {
    if HasThousandsGroups(value) then ReplaceAll(value, ',', "")
    else ReplaceFirst(ReplaceAll(value, '‧', "."), ',', ".")
  }

  // ---------- What a numeral says ----------

  /** The digits before the decimal mark, and those after it. */
  datatype Reading = Reading(whole: string, fraction: string)

  ghost predicate IsReading(r: Reading) {
    r.whole != "" && AllDigits(r.whole) && AllDigits(r.fraction)
  }

  /** Digits, or digits on both sides of one mark: any of the three. */
  ghost predicate PlainNumeral(text: string, r: Reading) {
    && IsReading(r)
    && if r.fraction == "" then text == r.whole
       else && |text| == |r.whole| + 1 + |r.fraction|
            && text[..|r.whole|] == r.whole && IsSeparator(text[|r.whole|]) && text[|r.whole| + 1..] == r.fraction
  }

  ghost function CommaBeforeEach(groups: seq<string>): string {
    if groups == [] then "" else "," + groups[0] + CommaBeforeEach(groups[1..])
  }

  ghost function Together(groups: seq<string>): string {
    if groups == [] then "" else groups[0] + Together(groups[1..])
  }

  ghost predicate ThreeDigitsEach(groups: seq<string>) {
    forall k :: 0 <= k < |groups| ==> |groups[k]| == 3 && AllDigits(groups[k])
  }

  ghost function PointAndFraction(fraction: string): string {
    if fraction == "" then "" else "." + fraction
  }

  ghost predicate GroupedAs(text: string, r: Reading, head: string, groups: seq<string>) {
    && IsReading(r) && 1 <= |head| <= 3 && AllDigits(head)
    && groups != [] && ThreeDigitsEach(groups)
    && r.whole == head + Together(groups)
    && text == head + (CommaBeforeEach(groups) + PointAndFraction(r.fraction))
  }

  /** One to three digits, then groups of three behind commas, then perhaps a point and a fraction. */
  ghost predicate GroupedNumeral(text: string, r: Reading) {
    exists head, groups :: GroupedAs(text, r, head, groups)
  }

  ghost predicate Grouped(text: string) {
    exists r :: GroupedNumeral(text, r)
  }

  /** What a numeral says. A comma before exactly three digits groups them, where it can. */
  ghost predicate Reads(text: string, r: Reading) {
    GroupedNumeral(text, r) || (!Grouped(text) && PlainNumeral(text, r))
  }

  /** The numeral of a reading: no groups, and a point as its mark. */
  ghost function Written(r: Reading): string {
    r.whole + PointAndFraction(r.fraction)
  }

  // ---------- Replacing ----------

  lemma {:induction false} ReplaceAllConcat(a: string, b: string, target: char, replacement: string)
    ensures ReplaceAll(a + b, target, replacement) == ReplaceAll(a, target, replacement) + ReplaceAll(b, target, replacement)
  {
    if a == "" {
      assert a + b == b;
    } else {
      assert (a + b)[1..] == a[1..] + b;
      ReplaceAllConcat(a[1..], b, target, replacement);
    }
  }

  lemma {:induction false} ReplaceAllNone(text: string, target: char, replacement: string)
    requires target !in text
    ensures ReplaceAll(text, target, replacement) == text
  {
    if text != "" {
      ReplaceAllNone(text[1..], target, replacement);
    }
  }

  lemma {:induction false} ReplaceFirstAfter(before: string, rest: string, target: char, replacement: string)
    requires target !in before
    ensures ReplaceFirst(before + rest, target, replacement) == before + ReplaceFirst(rest, target, replacement)
  {
    if before == "" {
      assert before + rest == rest;
    } else {
      assert (before + rest)[1..] == before[1..] + rest;
      ReplaceFirstAfter(before[1..], rest, target, replacement);
    }
  }

  lemma {:induction false} ReplaceFirstNone(text: string, target: char, replacement: string)
    requires target !in text
    ensures ReplaceFirst(text, target, replacement) == text
  {
    if text != "" {
      ReplaceFirstNone(text[1..], target, replacement);
    }
  }

  lemma DigitsHaveNoSeparator(text: string, c: char)
    requires AllDigits(text) && IsSeparator(c)
    ensures c !in text
  {
  }

  // ---------- Grouped numerals ----------

  /** The groups of a text that the pattern matches, and its fraction. */
  lemma {:induction false} MatchedGroups(text: string) returns (groups: seq<string>, fraction: string)
    requires GroupsThenFraction(text)
    ensures groups != [] && ThreeDigitsEach(groups) && AllDigits(fraction)
    ensures text == CommaBeforeEach(groups) + PointAndFraction(fraction)
  {
    var group, rest := text[1..4], text[4..];
    assert text == "," + group + rest;
    if GroupsThenFraction(rest) {
      var more;
      more, fraction := MatchedGroups(rest);
      groups := [group] + more;
      GroupInFront(group, more, PointAndFraction(fraction));
    } else {
      groups := [group];
      fraction := if rest == "" then "" else rest[1..];
      GroupInFront(group, [], PointAndFraction(fraction));
      assert [group] + [] == groups && rest == PointAndFraction(fraction);
    }
  }

  lemma {:induction false} GroupInFront(group: string, more: seq<string>, end: string)
    ensures CommaBeforeEach([group] + more) + end == "," + group + (CommaBeforeEach(more) + end)
  {
    assert ([group] + more)[1..] == more;
  }

  lemma {:induction false} OneGroup(group: string, rest: string)
    requires |group| == 3 && AllDigits(group) && (rest == "" || Fraction(rest) || GroupsThenFraction(rest))
    ensures GroupsThenFraction("," + group + rest)
  {
    var text := "," + group + rest;
    assert text[1..4] == group && text[4..] == rest;
  }

  lemma FractionMatches(fraction: string)
    requires AllDigits(fraction)
    ensures PointAndFraction(fraction) == "" || Fraction(PointAndFraction(fraction))
  {
    assert fraction != "" ==> ("." + fraction)[1..] == fraction;
  }

  lemma {:induction false} GroupsMatch(groups: seq<string>, fraction: string)
    requires groups != [] && ThreeDigitsEach(groups) && AllDigits(fraction)
    ensures GroupsThenFraction(CommaBeforeEach(groups) + PointAndFraction(fraction))
  {
    var rest := CommaBeforeEach(groups[1..]) + PointAndFraction(fraction);
    if |groups| > 1 {
      assert ThreeDigitsEach(groups[1..]);
      GroupsMatch(groups[1..], fraction);
    } else {
      FractionMatches(fraction);
      assert rest == PointAndFraction(fraction);
    }
    OneGroup(groups[0], rest);
    assert groups == [groups[0]] + groups[1..];
    GroupInFront(groups[0], groups[1..], PointAndFraction(fraction));
  }

  lemma {:induction false} TogetherIsDigits(groups: seq<string>)
    requires ThreeDigitsEach(groups)
    ensures AllDigits(Together(groups))
  {
    if groups != [] {
      assert ThreeDigitsEach(groups[1..]);
      TogetherIsDigits(groups[1..]);
    }
  }

  lemma MatchIsGrouped(text: string, n: nat)
    requires 1 <= n <= 3 && n <= |text| && AllDigits(text[..n]) && GroupsThenFraction(text[n..])
    ensures Grouped(text)
  {
    var head, rest := text[..n], text[n..];
    var groups, fraction := MatchedGroups(rest);
    TogetherIsDigits(groups);
    var r := Reading(head + Together(groups), fraction);
    assert text == head + rest;
    assert GroupedAs(text, r, head, groups);
    assert GroupedNumeral(text, r);
  }

  lemma GroupedIsMatch(text: string, r: Reading, head: string, groups: seq<string>)
    requires GroupedAs(text, r, head, groups)
    ensures HasThousandsGroups(text)
  {
    var rest := CommaBeforeEach(groups) + PointAndFraction(r.fraction);
    GroupsMatch(groups, r.fraction);
    assert text == head + rest;
    assert text[..|head|] == head && text[|head|..] == rest;
  }

  /** The pattern matches exactly the grouped numerals. */
  lemma GroupedIff(text: string)
    ensures HasThousandsGroups(text) <==> Grouped(text)
  {
    if HasThousandsGroups(text) {
      var n :| 1 <= n <= 3 && n <= |text| && AllDigits(text[..n]) && GroupsThenFraction(text[n..]);
      MatchIsGrouped(text, n);
    }
    if r, head, groups :| GroupedAs(text, r, head, groups) {
      GroupedIsMatch(text, r, head, groups);
    }
  }

  lemma {:induction false} CommasDropped(groups: seq<string>)
    requires ThreeDigitsEach(groups)
    ensures ReplaceAll(CommaBeforeEach(groups), ',', "") == Together(groups)
  {
    if groups != [] {
      assert ThreeDigitsEach(groups[1..]);
      CommasDropped(groups[1..]);
      DigitsHaveNoSeparator(groups[0], ',');
      ReplaceAllNone(groups[0], ',', "");
      ReplaceAllConcat("," + groups[0], CommaBeforeEach(groups[1..]), ',', "");
      assert ("," + groups[0])[1..] == groups[0];
    }
  }

  lemma {:induction false} DroppedBetween(head: string, middle: string, end: string)
    requires ',' !in head && ',' !in end
    ensures ReplaceAll(head + (middle + end), ',', "") == head + ReplaceAll(middle, ',', "") + end
  {
    ReplaceAllConcat(head, middle + end, ',', "");
    ReplaceAllConcat(middle, end, ',', "");
    ReplaceAllNone(head, ',', "");
    ReplaceAllNone(end, ',', "");
  }

  lemma {:induction false} GroupedNormalForm(text: string, r: Reading)
    requires GroupedNumeral(text, r)
    ensures ReplaceAll(text, ',', "") == Written(r)
  {
    var head, groups :| GroupedAs(text, r, head, groups);
    CommasDropped(groups);
    DigitsHaveNoSeparator(head, ',');
    DigitsHaveNoSeparator(r.fraction, ',');
    DroppedBetween(head, CommaBeforeEach(groups), PointAndFraction(r.fraction));
  }

  // ---------- Plain numerals ----------

  lemma {:induction false} PlainNormalForm(text: string, r: Reading)
    requires PlainNumeral(text, r)
    ensures ReplaceFirst(ReplaceAll(text, '‧', "."), ',', ".") == Written(r)
  {
    DigitsHaveNoSeparator(r.whole, '‧');
    DigitsHaveNoSeparator(r.whole, ',');
    DigitsHaveNoSeparator(r.fraction, '‧');
    ReplaceAllNone(r.whole, '‧', ".");
    if r.fraction == "" {
      ReplaceFirstNone(r.whole, ',', ".");
      assert Written(r) == r.whole;
    } else {
      var mark := [text[|r.whole|]];
      assert text == r.whole + (mark + r.fraction);
      ReplaceAllConcat(r.whole, mark + r.fraction, '‧', ".");
      assert (mark + r.fraction)[1..] == r.fraction;
      ReplaceAllNone(r.fraction, '‧', ".");
      var once := if mark == "‧" then "." else mark;
      assert ReplaceAll(text, '‧', ".") == r.whole + (once + r.fraction);
      ReplaceFirstAfter(r.whole, once + r.fraction, ',', ".");
      assert (once + r.fraction)[1..] == r.fraction;
      if once == "." {
        DigitsHaveNoSeparator(r.fraction, ',');
        ReplaceFirstNone(r.fraction, ',', ".");
      }
    }
  }

  // ---------- Normal forms and readings ----------

  /** The normal form of a numeral is its reading, written with a point and without groups. */
  lemma NormalFormIsReading(text: string, r: Reading)
    requires Reads(text, r)
    ensures NormalizeNumericToken(text) == Written(r) && IsReading(r)
  {
    GroupedIff(text);
    if GroupedNumeral(text, r) {
      GroupedNormalForm(text, r);
    } else {
      PlainNormalForm(text, r);
    }
  }

  lemma NoShorterWhole(r: Reading, s: Reading)
    requires IsReading(r) && IsReading(s) && Written(r) == Written(s)
    ensures |r.whole| >= |s.whole|
  {
    var text := Written(r);
    DigitsHaveNoSeparator(s.whole, '.');
    assert text[|r.whole|..] == PointAndFraction(r.fraction);
    assert forall k :: 0 <= k < |s.whole| ==> text[k] == s.whole[k];
    assert |r.whole| < |text| ==> text[|r.whole|] == '.';
  }

  lemma WrittenIsInjective(r: Reading, s: Reading)
    requires IsReading(r) && IsReading(s) && Written(r) == Written(s)
    ensures r == s
  {
    NoShorterWhole(r, s);
    NoShorterWhole(s, r);
    var n := |r.whole|;
    assert r.whole == Written(r)[..n] == Written(s)[..n] == s.whole;
    assert PointAndFraction(r.fraction) == Written(r)[n..] == Written(s)[n..] == PointAndFraction(s.fraction);
    SameFraction(r.fraction, s.fraction);
  }

  lemma SameFraction(a: string, b: string)
    requires PointAndFraction(a) == PointAndFraction(b)
    ensures a == b
  {
    assert a != "" ==> ("." + a)[1..] == a;
    assert b != "" ==> ("." + b)[1..] == b;
  }

  /** Two numerals have the same normal form exactly when they say the same. */
  lemma SameNormalFormIff(a: string, b: string, r: Reading, s: Reading)
    requires Reads(a, r) && Reads(b, s)
    ensures NormalizeNumericToken(a) == NormalizeNumericToken(b) <==> r == s
  {
    NormalFormIsReading(a, r);
    NormalFormIsReading(b, s);
    if Written(r) == Written(s) {
      WrittenIsInjective(r, s);
    }
  }

  /** A numeral says one thing. */
  lemma ReadingIsUnique(text: string, r: Reading, s: Reading)
    requires Reads(text, r) && Reads(text, s)
    ensures r == s
  {
    SameNormalFormIff(text, text, r, s);
  }

  /** Without a comma there are no groups. */
  lemma NoCommaNoGroups(text: string)
    requires ',' !in text
    ensures !Grouped(text)
  {
    GroupedIff(text);
  }

  lemma WrittenIsPlain(r: Reading)
    requires IsReading(r)
    ensures PlainNumeral(Written(r), r)
  {
  }

  lemma WrittenReads(r: Reading)
    requires IsReading(r)
    ensures Reads(Written(r), r)
  {
    DigitsHaveNoSeparator(r.whole, ',');
    DigitsHaveNoSeparator(r.fraction, ',');
    NoCommaNoGroups(Written(r));
    WrittenIsPlain(r);
  }

  /** A numeral's normal form says what the numeral says, and is its own normal form. */
  lemma NormalFormKeepsReading(text: string, r: Reading)
    requires Reads(text, r)
    ensures Reads(NormalizeNumericToken(text), r)
    ensures NormalizeNumericToken(NormalizeNumericToken(text)) == NormalizeNumericToken(text)
  {
    NormalFormIsReading(text, r);
    WrittenReads(r);
    NormalFormIsReading(Written(r), r);
  }

  lemma MarkedIsPlain(r: Reading, mark: char)
    requires IsReading(r) && r.fraction != "" && IsSeparator(mark)
    ensures PlainNumeral(r.whole + [mark] + r.fraction, r)
  {
  }

  /**
    A grouped numeral has the normal form of the one without groups; and where nothing is grouped it does not
    matter which of the three marks stands before the fraction.
  */
  lemma FormsAgree(r: Reading, grouped: string, mark: char, other: char)
    requires IsReading(r)
    ensures GroupedNumeral(grouped, r) ==> NormalizeNumericToken(grouped) == NormalizeNumericToken(Written(r))
    ensures r.fraction != "" && IsSeparator(mark) && IsSeparator(other)
            && !Grouped(r.whole + [mark] + r.fraction) && !Grouped(r.whole + [other] + r.fraction) ==>
              NormalizeNumericToken(r.whole + [mark] + r.fraction) == NormalizeNumericToken(r.whole + [other] + r.fraction)
  {
    WrittenReads(r);
    if GroupedNumeral(grouped, r) {
      SameNormalFormIff(grouped, Written(r), r, r);
    }
    var a, b := r.whole + [mark] + r.fraction, r.whole + [other] + r.fraction;
    if r.fraction != "" && IsSeparator(mark) && IsSeparator(other) && !Grouped(a) && !Grouped(b) {
      MarkedIsPlain(r, mark);
      MarkedIsPlain(r, other);
      SameNormalFormIff(a, b, r, r);
    }
  }

  // ---------- Numbers without a reading ----------

  /** The first comma of a text. */
  ghost predicate FirstComma(text: string, k: nat) {
    k < |text| && text[k] == ',' && forall i :: 0 <= i < k ==> text[i] != ','
  }

  lemma {:induction false} ReplaceAllAt(text: string, target: char, replacement: char, k: nat)
    requires k < |text|
    ensures |ReplaceAll(text, target, [replacement])| == |text|
    ensures ReplaceAll(text, target, [replacement])[k] == if text[k] == target then replacement else text[k]
  {
    if k > 0 {
      ReplaceAllAt(text[1..], target, replacement, k - 1);
    } else if |text| > 1 {
      ReplaceAllAt(text[1..], target, replacement, 0);
    } else {
      assert text[1..] == "";
    }
  }

  lemma {:induction false} ReplaceFirstAt(text: string, target: char, replacement: char, k: nat)
    requires k < |text|
    ensures |ReplaceFirst(text, target, [replacement])| == |text|
    ensures ReplaceFirst(text, target, [replacement])[k]
            == if text[k] == target && (forall i :: 0 <= i < k ==> text[i] != target) then replacement else text[k]
  {
    if text[0] != target {
      if k > 0 {
        ReplaceFirstAt(text[1..], target, replacement, k - 1);
        assert forall i :: 0 < i < k ==> text[i] == text[1..][i - 1];
        assert forall i :: 0 <= i < k - 1 ==> text[1..][i] == text[i + 1];
      } else if |text| > 1 {
        ReplaceFirstAt(text[1..], target, replacement, 0);
      } else {
        assert text[1..] == "";
      }
    }
  }

  /** Character by character: without groups, every `‧` and the first comma become a point, and nothing else changes. */
  lemma NormalFormAt(text: string, k: nat)
    requires !Grouped(text) && k < |text|
    ensures |NormalizeNumericToken(text)| == |text|
    ensures NormalizeNumericToken(text)[k] == if text[k] == '‧' || FirstComma(text, k) then '.' else text[k]
  {
    GroupedIff(text);
    var once := ReplaceAll(text, '‧', ".");
    ReplaceAllAt(text, '‧', '.', k);
    forall i | 0 <= i < |text|
      ensures |once| == |text| && once[i] == if text[i] == '‧' then '.' else text[i]
    {
      ReplaceAllAt(text, '‧', '.', i);
    }
    ReplaceFirstAt(once, ',', '.', k);
  }

  ghost predicate TwoCommas(text: string) {
    exists i, j :: 0 <= i < j < |text| && text[i] == ',' && text[j] == ','
  }

  lemma {:induction false} FindFirstComma(text: string) returns (k: nat)
    requires ',' in text
    ensures FirstComma(text, k)
  {
    if text[0] == ',' {
      k := 0;
    } else {
      assert text == [text[0]] + text[1..];
      var rest := FindFirstComma(text[1..]);
      k := rest + 1;
      assert forall i :: 0 < i < k ==> text[i] == text[1..][i - 1];
    }
  }

  lemma {:induction false} NoPointBetweenGroups(groups: seq<string>)
    requires ThreeDigitsEach(groups)
    ensures '.' !in CommaBeforeEach(groups)
  {
    if groups != [] {
      assert ThreeDigitsEach(groups[1..]);
      NoPointBetweenGroups(groups[1..]);
      DigitsHaveNoSeparator(groups[0], '.');
    }
  }

  /** In a grouped numeral no comma stands behind a point. */
  lemma PointsAfterCommas(text: string, r: Reading, head: string, groups: seq<string>)
    requires GroupedAs(text, r, head, groups)
    ensures forall i, j :: 0 <= i < j < |text| && text[i] == '.' ==> text[j] != ','
  {
    var front := head + CommaBeforeEach(groups);
    var end := PointAndFraction(r.fraction);
    NoPointBetweenGroups(groups);
    DigitsHaveNoSeparator(head, '.');
    DigitsHaveNoSeparator(r.fraction, ',');
    assert text == front + end;
    assert forall k :: 0 <= k < |front| ==> text[k] == front[k] != '.';
    assert forall k :: |front| <= k < |text| ==> text[k] == end[k - |front|] != ',';
  }

  lemma PointBeforeComma(text: string, i: nat, j: nat)
    requires i < j < |text| && text[i] == '.' && text[j] == ','
    ensures !Grouped(text)
  {
    if r, head, groups :| GroupedAs(text, r, head, groups) {
      PointsAfterCommas(text, r, head, groups);
    }
  }

  /**
    Normalising twice is normalising once exactly for grouped numerals and for texts without a second comma:
    only the first comma is taken for a decimal mark.
  */
  lemma NormalizesOnceIff(text: string)
    ensures NormalizeNumericToken(NormalizeNumericToken(text)) == NormalizeNumericToken(text)
            <==> Grouped(text) || !TwoCommas(text)
  {
    if Grouped(text) {
      var r :| GroupedNumeral(text, r);
      NormalFormKeepsReading(text, r);
    } else if TwoCommas(text) {
      SecondCommaRemains(text);
    } else {
      NoSecondComma(text);
    }
  }

  lemma NoSecondComma(text: string)
    requires !Grouped(text) && !TwoCommas(text)
    ensures NormalizeNumericToken(NormalizeNumericToken(text)) == NormalizeNumericToken(text)
  {
    var normal := NormalizeNumericToken(text);
    NormalLength(text);
    forall k | 0 <= k < |normal|
      ensures normal[k] != ',' && normal[k] != '‧'
    {
      NormalFormAt(text, k);
    }
    NoCommaNoGroups(normal);
    NormalLength(normal);
    forall k | 0 <= k < |normal|
      ensures NormalizeNumericToken(normal)[k] == normal[k]
    {
      NormalFormAt(normal, k);
    }
  }

  lemma NormalLength(text: string)
    requires !Grouped(text)
    ensures |NormalizeNumericToken(text)| == |text|
  {
    GroupedIff(text);
    if text != "" {
      NormalFormAt(text, 0);
    }
  }

  lemma SecondCommaRemains(text: string)
    requires !Grouped(text) && TwoCommas(text)
    ensures NormalizeNumericToken(NormalizeNumericToken(text)) != NormalizeNumericToken(text)
  {
    var normal := NormalizeNumericToken(text);
    var first := FindFirstComma(text);
    var i, j :| 0 <= i < j < |text| && text[i] == ',' && text[j] == ',';
    assert first < j;
    NormalFormAt(text, first);
    NormalFormAt(text, j);
    PointBeforeComma(normal, first, j);
    var next := FindFirstComma(normal);
    NormalFormAt(normal, next);
  }

  lemma FirstGroup(text: string, r: Reading, head: string, groups: seq<string>)
    requires GroupedAs(text, r, head, groups)
    ensures |head| + 4 <= |text| && text[|head|] == ',' && IsDigit(text[|head| + 2])
  {
    var rest := CommaBeforeEach(groups) + PointAndFraction(r.fraction);
    assert text == head + rest && rest[0] == ',' && rest[2] == groups[0][1];
  }

  /** So it is not idempotent: of two commas that group nothing the second one becomes a point the second time. */
  lemma TwiceIsNotOnce()
    ensures NormalizeNumericToken(NormalizeNumericToken("1,2,3")) != NormalizeNumericToken("1,2,3")
  {
    var text := "1,2,3";
    assert text[1] == ',' && text[3] == ',';
    if r, head, groups :| GroupedAs(text, r, head, groups) {
      FirstGroup(text, r, head, groups);
    }
    NormalizesOnceIff(text);
  }
}
