/**
  Totals with exactly three decimals, scripts/release/analysis-artifact.ts: parsed into whole
  thousandths, added exactly, and printed again.
*/
module FixedPoint {
  import opened Common


  function DigitValue(c: char): nat
    requires IsDigit(c)
  {
    c as int - '0' as int
  }

  function DigitChar(n: nat): (c: char)
    requires n < 10
    ensures IsDigit(c) && DigitValue(c) == n
  {
    '0' + n as char
  }

  function ParseNat(text: string): nat
    requires AllDigits(text)
  {
    if text == "" then 0
    else
      var init := text[..|text| - 1];
      ParseNat(init) * 10 + DigitValue(text[|text| - 1])
  }

  function PrintNat(n: nat): (text: string)
    ensures AllDigits(text) && text != "" && (text[0] == '0' ==> n == 0 && text == "0")
  {
    if n < 10 then [DigitChar(n)]
    else
      var init := PrintNat(n / 10);
      assert DigitValue('0') == 0;
      init + [DigitChar(n % 10)]
  }

  /** Printing then parsing is the identity. */
  lemma {:induction false} ParsePrinted(n: nat)
    ensures ParseNat(PrintNat(n)) == n
  {
    if n < 10 {
      assert PrintNat(n)[..0] == "";
    } else {
      ParsePrinted(n / 10);
      assert PrintNat(n)[..|PrintNat(n)| - 1] == PrintNat(n / 10);
    }
  }

  /** A numeral without redundant leading zeros. */
  predicate NoLeadingZero(text: string) {
    |text| == 1 || (|text| > 1 && text[0] != '0')
  }

  lemma {:induction false} PositiveWithoutLeadingZero(text: string)
    requires AllDigits(text) && text != "" && text[0] != '0'
    ensures ParseNat(text) > 0
  {
    var init := text[..|text| - 1];
    if init == "" {
      assert DigitValue(text[0]) > 0;
    } else {
      PositiveWithoutLeadingZero(init);
    }
  }

  /** Parsing then printing is the identity exactly on numerals without redundant leading zeros. */
  lemma {:induction false} PrintParsedIff(text: string)
    requires AllDigits(text) && text != ""
    ensures PrintNat(ParseNat(text)) == text <==> NoLeadingZero(text)
  {
    if NoLeadingZero(text) {
      PrintParsed(text);
    }
  }

  lemma {:induction false} PrintParsed(text: string)
    requires AllDigits(text) && NoLeadingZero(text)
    ensures PrintNat(ParseNat(text)) == text
  {
    var init, last := text[..|text| - 1], text[|text| - 1];
    assert text == init + [last];
    if init == "" {
      assert ParseNat(text) == DigitValue(last) < 10;
      SameDigit(last);
    } else {
      assert init[0] == text[0];
      PositiveWithoutLeadingZero(init);
      PrintParsed(init);
      var n := ParseNat(text);
      assert n == ParseNat(init) * 10 + DigitValue(last);
      assert n / 10 == ParseNat(init) && n % 10 == DigitValue(last);
      SameDigit(last);
    }
  }

  lemma SameDigit(c: char)
    requires IsDigit(c)
    ensures DigitValue(c) < 10 && DigitChar(DigitValue(c)) == c
  {
  }

  // ---------- Three decimals ----------

  /** Digits, a point, and exactly three digits. */
  ghost predicate IsFixed3(text: string) {
    && |text| >= 5 && text[|text| - 4] == '.'
    && AllDigits(text[..|text| - 4]) && AllDigits(text[|text| - 3..])
  }

  /** `text.split(".")`: what stands before the first point, and what stands after it. */
  function PointIndex(text: string): (at: nat)
    ensures at <= |text| && (at < |text| ==> text[at] == '.')
    ensures forall k :: 0 <= k < at ==> text[k] != '.'
  {
    if text == "" || text[0] == '.' then 0
    else
      var rest := PointIndex(text[1..]);
      assert forall k :: 1 <= k < 1 + rest ==> text[k] == text[1..][k - 1];
      1 + rest
  }

  function Whole(text: string): string
  {
    text[..PointIndex(text)]
  }

  function Fraction(text: string): string
    requires PointIndex(text) < |text|
  {
    text[PointIndex(text) + 1..]
  }

  lemma {:induction false} SplitFixed3(text: string)
    requires IsFixed3(text)
    ensures PointIndex(text) == |text| - 4
    ensures AllDigits(Whole(text)) && AllDigits(Fraction(text)) && |Fraction(text)| == 3 && Whole(text) != ""
  {
    var at := PointIndex(text);
    assert forall k :: 0 <= k < |text| - 4 ==> text[k] == text[..|text| - 4][k] && text[k] != '.';
  }

  /** The value of a text with three decimals, in thousandths. */
  function Mills(text: string): nat
    requires IsFixed3(text)
  {
    SplitFixed3(text);
    ParseNat(Whole(text)) * 1000 + ParseNat(Fraction(text))
  }

  function PadStart(text: string, width: nat): string
    decreases width - |text|
  {
    if |text| < width then PadStart("0" + text, width) else text
  }

  function PrintFixed3(total: nat): string {
    PrintNat(total / 1000) + "." + PadStart(PrintNat(total % 1000), 3)
  }

  lemma {:induction false} ZeroInFront(text: string)
    requires AllDigits(text)
    ensures AllDigits("0" + text) && ParseNat("0" + text) == ParseNat(text)
  {
    assert AllDigits("0" + text);
    ZeroInFrontValue(text);
  }

  lemma {:induction false} ZeroInFrontValue(text: string)
    requires AllDigits(text) && AllDigits("0" + text)
    ensures ParseNat("0" + text) == ParseNat(text)
  {
    var padded := "0" + text;
    if text == "" {
      assert padded[..0] == "";
    } else {
      var init := text[..|text| - 1];
      assert padded[..|padded| - 1] == "0" + init;
      ZeroInFrontValue(init);
    }
  }

  lemma {:induction false} PadKeepsValue(text: string, width: nat)
    requires AllDigits(text) && |text| <= width
    ensures AllDigits(PadStart(text, width)) && |PadStart(text, width)| == width
    ensures ParseNat(PadStart(text, width)) == ParseNat(text)
    decreases width - |text|
  {
    if |text| < width {
      ZeroInFront(text);
      PadKeepsValue("0" + text, width);
    }
  }

  lemma {:induction false} SmallNumeralIsShort(n: nat)
    requires n < 1000
    ensures |PrintNat(n)| <= 3
  {
    if n >= 10 {
      assert |PrintNat(n / 10)| <= 2;
    }
  }

  /** A printed total has exactly three decimals, and parses to the total. */
  lemma PrintedFixed3(total: nat)
    ensures IsFixed3(PrintFixed3(total)) && Mills(PrintFixed3(total)) == total
  {
    var whole, fraction := PrintNat(total / 1000), PadStart(PrintNat(total % 1000), 3);
    SmallNumeralIsShort(total % 1000);
    PadKeepsValue(PrintNat(total % 1000), 3);
    var text := PrintFixed3(total);
    assert text[..|text| - 4] == whole && text[|text| - 3..] == fraction;
    SplitFixed3(text);
    ParsePrinted(total / 1000);
    ParsePrinted(total % 1000);
  }

  // ---------- Parsing, then printing ----------

  /** Three digits are determined by their value. */
  lemma {:induction false} ThreeDigits(a: string, b: string)
    requires AllDigits(a) && AllDigits(b) && |a| == |b| == 3 && ParseNat(a) == ParseNat(b)
    ensures a == b
  {
    SameLengthSameValue(a, b);
  }

  lemma {:induction false} SameLengthSameValue(a: string, b: string)
    requires AllDigits(a) && AllDigits(b) && |a| == |b| && ParseNat(a) == ParseNat(b)
    ensures a == b
  {
    if a != "" {
      var n := |a| - 1;
      SameDigit(a[n]);
      SameDigit(b[n]);
      SameDivision(ParseNat(a[..n]), DigitValue(a[n]), ParseNat(b[..n]), DigitValue(b[n]));
      SameLengthSameValue(a[..n], b[..n]);
      assert a == a[..n] + [a[n]] && b == b[..n] + [b[n]];
    }
  }

  lemma SameDivision(x: nat, d: nat, y: nat, e: nat)
    requires d < 10 && e < 10 && x * 10 + d == y * 10 + e
    ensures x == y && d == e
  {
  }

  lemma {:induction false} SmallValue(text: string)
    requires AllDigits(text) && |text| <= 3
    ensures ParseNat(text) < (if |text| == 3 then 1000 else if |text| == 2 then 100 else if |text| == 1 then 10 else 1)
  {
    if text != "" {
      SmallValue(text[..|text| - 1]);
    }
  }

  lemma SameFront(a: string, b: string, end: string)
    ensures a + end == b + end <==> a == b
  {
    if a + end == b + end {
      assert |a| == |b| && (a + end)[..|a|] == a && (b + end)[..|b|] == b;
    }
  }

  /** The fraction is printed as it was read. */
  lemma FractionPrinted(text: string)
    requires IsFixed3(text)
    ensures Mills(text) / 1000 == ParseNat(Whole(text))
    ensures PadStart(PrintNat(Mills(text) % 1000), 3) == Fraction(text)
  {
    SplitFixed3(text);
    var total := Mills(text);
    SmallValue(Fraction(text));
    assert total % 1000 == ParseNat(Fraction(text));
    SmallNumeralIsShort(total % 1000);
    PadKeepsValue(PrintNat(total % 1000), 3);
    ParsePrinted(total % 1000);
    ThreeDigits(PadStart(PrintNat(total % 1000), 3), Fraction(text));
  }

  /** Parsing then printing is the identity exactly when the whole part has no redundant leading zero. */
  lemma PrintMillsIff(text: string)
    requires IsFixed3(text)
    ensures PrintFixed3(Mills(text)) == text <==> NoLeadingZero(Whole(text))
  {
    SplitFixed3(text);
    var whole, fraction := Whole(text), Fraction(text);
    var front := PrintNat(Mills(text) / 1000);
    FractionPrinted(text);
    PrintParsedIff(whole);
    assert text == whole + ("." + fraction);
    assert PrintFixed3(Mills(text)) == front + ("." + fraction);
    SameFront(front, whole, "." + fraction);
  }

  // ---------- Sums ----------

  ghost predicate AllFixed3(values: seq<string>) {
    forall v :: v in values ==> IsFixed3(v)
  }

  function SumMills(values: seq<string>): nat
    requires AllFixed3(values)
  {
    if values == [] then 0 else SumMills(values[..|values| - 1]) + Mills(values[|values| - 1])
  }

  function SumFixed3(values: seq<string>): string
    requires AllFixed3(values)
  {
    PrintFixed3(SumMills(values))
  }

  /** The printed sum has exactly three decimals and is the sum of the parsed inputs. */
  lemma {:induction false} SumFixed3IsExact(values: seq<string>)
    requires AllFixed3(values)
    ensures IsFixed3(SumFixed3(values)) && Mills(SumFixed3(values)) == SumMills(values)
    ensures NoLeadingZero(Whole(SumFixed3(values)))
  {
    PrintedFixed3(SumMills(values));
    PrintMillsIff(SumFixed3(values));
  }

  lemma {:induction false} SumMillsConcat(a: seq<string>, b: seq<string>)
    requires AllFixed3(a) && AllFixed3(b)
    ensures AllFixed3(a + b) && SumMills(a + b) == SumMills(a) + SumMills(b)
  {
    if b == [] {
      assert a + b == a;
    } else {
      var init := b[..|b| - 1];
      assert (a + b)[..|a + b| - 1] == a + init;
      SumMillsConcat(a, init);
    }
  }

  // ---------- Regrouping ----------

  function Flatten(groups: seq<seq<string>>): seq<string> {
    if groups == [] then [] else Flatten(groups[..|groups| - 1]) + groups[|groups| - 1]
  }

  ghost predicate AllGroupsFixed3(groups: seq<seq<string>>) {
    forall k :: 0 <= k < |groups| ==> AllFixed3(groups[k])
  }

  /** The printed sums of the groups. */
  function PartialSums(groups: seq<seq<string>>): seq<string>
    requires AllGroupsFixed3(groups)
  {
    if groups == [] then [] else PartialSums(groups[..|groups| - 1]) + [SumFixed3(groups[|groups| - 1])]
  }

  lemma {:induction false} SumMillsNext(values: seq<string>, last: string)
    requires AllFixed3(values) && IsFixed3(last)
    ensures AllFixed3(values + [last]) && SumMills(values + [last]) == SumMills(values) + Mills(last)
  {
    assert (values + [last])[..|values|] == values;
  }

  lemma {:induction false} PartialSumsAddUp(groups: seq<seq<string>>)
    requires AllGroupsFixed3(groups)
    ensures AllFixed3(PartialSums(groups)) && AllFixed3(Flatten(groups))
    ensures SumMills(PartialSums(groups)) == SumMills(Flatten(groups))
  {
    if groups != [] {
      var init, last := groups[..|groups| - 1], groups[|groups| - 1];
      PartialSumsAddUp(init);
      SumFixed3IsExact(last);
      SumMillsNext(PartialSums(init), SumFixed3(last));
      SumMillsConcat(Flatten(init), last);
    }
  }

  /** Regrouping: however the values are grouped, adding the groups' sums gives the sum of all. */
  lemma {:induction false} SumOfSums(groups: seq<seq<string>>)
    requires AllGroupsFixed3(groups)
    ensures AllFixed3(PartialSums(groups)) && AllFixed3(Flatten(groups))
    ensures SumFixed3(PartialSums(groups)) == SumFixed3(Flatten(groups))
  {
    PartialSumsAddUp(groups);
  }

  /** Order does not matter. */
  lemma {:induction false} SumMillsPermuted(a: seq<string>, b: seq<string>)
    requires AllFixed3(a) && AllFixed3(b) && multiset(a) == multiset(b)
    ensures SumMills(a) == SumMills(b)
    decreases |a|
  {
    assert |a| == |multiset(a)| == |multiset(b)| == |b|;
    if a != [] {
      var at := LastOfOther(a, b);
      var init, before, after := a[..|a| - 1], b[..at], b[at + 1..];
      assert forall v :: v in init ==> v in a;
      assert forall v :: v in before + after ==> v in b;
      SumMillsPermuted(init, before + after);
      SumMillsConcat(before, after);
      SumMillsWithout(b, at);
    }
  }

  lemma {:induction false} SumMillsWithout(b: seq<string>, at: nat)
    requires AllFixed3(b) && at < |b|
    ensures AllFixed3(b[..at]) && AllFixed3(b[at + 1..])
    ensures SumMills(b) == SumMills(b[..at]) + Mills(b[at]) + SumMills(b[at + 1..])
  {
    TakeNext(b, at);
    assert b == b[..at + 1] + b[at + 1..];
    SumMillsConcat(b[..at + 1], b[at + 1..]);
  }

  lemma SumFixed3Permuted(a: seq<string>, b: seq<string>)
    requires AllFixed3(a) && AllFixed3(b) && multiset(a) == multiset(b)
    ensures SumFixed3(a) == SumFixed3(b)
  {
    SumMillsPermuted(a, b);
  }

  /** Every digit counts in its place: one more makes the others worth ten times as much, and adds its own value. */
  lemma {:induction false} OneMoreDigit(text: string, c: char)
    requires AllDigits(text) && IsDigit(c)
    ensures ParseNat("") == 0 && ParseNat(text + [c]) == ParseNat(text) * 10 + (c as int - '0' as int)
  {
    assert (text + [c])[..|text|] == text;
  }

  /** The three digits behind the point are thousandths of the whole. */
  lemma {:induction false} ThousandthsCount(whole: string, fraction: string)
    requires whole != "" && AllDigits(whole) && |fraction| == 3 && AllDigits(fraction)
    ensures IsFixed3(whole + "." + fraction)
    ensures Mills(whole + "." + fraction) == ParseNat(whole) * 1000 + ParseNat(fraction)
  {
    var text := whole + "." + fraction;
    assert text[..|text| - 4] == whole && text[|text| - 3..] == fraction && text[|text| - 4] == '.';
    SplitFixed3(text);
  }
}
