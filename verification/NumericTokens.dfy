/**
  Material numbers of a source description in its translation:
  scripts/catalog/product-catalog-artifact.ts.
*/
module NumericTokens {
  import opened Common
  import opened Numerals

  /** A place in a text: the characters from `from` up to `to`. */
  datatype Span = Span(from: nat, to: nat)

  /** A number: runs of digits with single separators between them. */
  ghost predicate Numeric(text: string, s: Span) {
    && s.from < s.to <= |text|
    && IsDigit(text[s.from]) && IsDigit(text[s.to - 1])
    && (forall k :: s.from <= k < s.to ==> IsDigit(text[k]) || IsSeparator(text[k]))
    && (forall k :: s.from <= k < s.to - 1 && !IsDigit(text[k]) ==> IsDigit(text[k + 1]))
  }

  /** A number that is not part of a longer one. */
  ghost predicate Maximal(text: string, s: Span) {
    && Numeric(text, s)
    && forall t: Span :: Numeric(text, t) && t.from <= s.from && s.to <= t.to ==> t == s
  }

  /** No number reaches across position `n`. */
  ghost predicate Boundary(text: string, n: nat) {
    forall t: Span :: Numeric(text, t) && t.from < n ==> t.to <= n
  }

  /** `spans` are the maximal numbers that start before `n`, in ascending order. */
  ghost predicate TokensUpTo(text: string, spans: seq<Span>, n: nat) {
    && (forall s :: s in spans <==> Maximal(text, s) && s.from < n)
    && (forall i, j :: 0 <= i < j < |spans| ==> spans[i].to <= spans[j].from)
  }

  /** The greedy match that starts at a digit: digits, and separators that a digit follows. */
  method MatchEnd(text: string, from: nat) returns (end: nat)
    requires from < |text| && IsDigit(text[from])
    ensures Numeric(text, Span(from, end))
    ensures end < |text| ==> !IsDigit(text[end])
    ensures end + 1 < |text| && IsSeparator(text[end]) ==> !IsDigit(text[end + 1])
  {
    end := from + 1;
    while end < |text| && (IsDigit(text[end]) || (IsSeparator(text[end]) && end + 1 < |text| && IsDigit(text[end + 1])))
      invariant Numeric(text, Span(from, end))
      decreases |text| - end
    {
      end := if IsDigit(text[end]) then end + 1 else end + 2;
    }
  }

  /** A greedy match ends at a boundary: nothing that starts inside it goes on behind it. */
  lemma MatchEndsAtBoundary(text: string, n: nat, from: nat, end: nat)
    requires Boundary(text, n) && n <= from && Numeric(text, Span(from, end))
    requires forall k :: n <= k < from ==> !IsDigit(text[k])
    requires end < |text| ==> !IsDigit(text[end])
    requires end + 1 < |text| && IsSeparator(text[end]) ==> !IsDigit(text[end + 1])
    ensures Boundary(text, end)
    ensures forall t: Span :: Numeric(text, t) && t.from < end ==> t.to <= n || from <= t.from
  {
    forall t: Span | Numeric(text, t) && t.from < end
      ensures t.to <= end
      ensures t.to <= n || from <= t.from
    {
    }
  }

  /** The match just found is the one maximal number between the two boundaries. */
  lemma MatchIsMaximal(text: string, spans: seq<Span>, n: nat, from: nat, end: nat)
    requires Boundary(text, n) && n <= from && Numeric(text, Span(from, end)) && TokensUpTo(text, spans, n)
    requires Boundary(text, end)
    requires forall t: Span :: Numeric(text, t) && t.from < end ==> t.to <= n || from <= t.from
    ensures TokensUpTo(text, spans + [Span(from, end)], end)
  {
    var token := Span(from, end);
    var grown := spans + [token];
    forall t: Span | Numeric(text, t) && t.from <= from && end <= t.to
      ensures t == token
    {
    }
    assert Maximal(text, token);
    forall s
      ensures s in grown <==> Maximal(text, s) && s.from < end
    {
      assert s in grown <==> s in spans || s == token;
      if Maximal(text, s) && s.from < end && s != token {
        assert s.to <= n || from <= s.from;
      }
    }
    forall i, j | 0 <= i < j < |grown|
      ensures grown[i].to <= grown[j].from
    {
      assert grown[i] in spans;
      assert Maximal(text, grown[i]);
    }
  }

  /** The end of the text ends every number; skipped characters start none. */
  lemma SkipKeepsTokens(text: string, spans: seq<Span>, n: nat)
    requires n < |text| && !IsDigit(text[n]) && Boundary(text, n) && TokensUpTo(text, spans, n)
    ensures Boundary(text, n + 1) && TokensUpTo(text, spans, n + 1)
  {
    forall s
      ensures s in spans <==> Maximal(text, s) && s.from < n + 1
    {
    }
  }

  /** The maximal numbers of the text, each once, in ascending and non-overlapping order. */
  ghost predicate AllTokens(text: string, tokens: seq<Span>) {
    && (forall s :: s in tokens <==> Maximal(text, s))
    && Within(text, tokens)
    && (forall i, j :: 0 <= i < j < |tokens| ==> tokens[i].to <= tokens[j].from)
  }

  /**
    The tokenizer returns exactly the maximal numbers of the text, each once, in ascending and
    non-overlapping order.
  */
  method NumericTokensWithOffsets(text: string) returns (tokens: seq<Span>)
    ensures AllTokens(text, tokens)
  {
    tokens := [];
    var index := 0;
    while index < |text|
      invariant 0 <= index <= |text|
      invariant Boundary(text, index) && TokensUpTo(text, tokens, index)
    {
      if IsDigit(text[index]) {
        var end := MatchEnd(text, index);
        MatchEndsAtBoundary(text, index, index, end);
        MatchIsMaximal(text, tokens, index, index, end);
        tokens := tokens + [Span(index, end)];
        index := end;
      } else {
        SkipKeepsTokens(text, tokens, index);
        index := index + 1;
      }
    }
  }

  /** Every number lies in a maximal one; so every digit lies in a token. */
  lemma {:induction false} NumberLiesInMaximal(text: string, s: Span)
    requires Numeric(text, s)
    ensures exists t :: Maximal(text, t) && t.from <= s.from && s.to <= t.to
    decreases |text| - (s.to - s.from)
  {
    if t: Span :| Numeric(text, t) && t.from <= s.from && s.to <= t.to && t != s {
      NumberLiesInMaximal(text, t);
    } else {
      assert Maximal(text, s);
    }
  }

  lemma EveryDigitIsCovered(text: string, k: nat)
    requires k < |text| && IsDigit(text[k])
    ensures exists t :: Maximal(text, t) && t.from <= k < t.to
  {
    NumberLiesInMaximal(text, Span(k, k + 1));
  }

  // ---------- Missing numbers ----------

  function Normalized(tokens: seq<string>): (r: seq<string>)
    ensures |r| == |tokens|
  {
    seq(|tokens|, k requires 0 <= k < |tokens| => NormalizeNumericToken(tokens[k]))
  }

  /** The required tokens left over when each takes one equal number of `available`, in order. */
  ghost function Surplus(required: seq<string>, available: multiset<string>): seq<string> {
    if required == [] then []
    else
      var number := NormalizeNumericToken(required[0]);
      if number in available then Surplus(required[1..], available - multiset{number})
      else [required[0]] + Surplus(required[1..], available)
  }

  lemma NormalizedSplits(tokens: seq<string>)
    requires tokens != []
    ensures Normalized(tokens) == [NormalizeNumericToken(tokens[0])] + Normalized(tokens[1..])
  {
  }

  /**
    What is left over is the multiset difference: of each number, as many tokens as are required
    beyond those available.
  */
  lemma {:induction false} SurplusIsDifference(required: seq<string>, available: multiset<string>)
    ensures multiset(Normalized(Surplus(required, available))) == multiset(Normalized(required)) - available
  {
    if required != [] {
      var number := NormalizeNumericToken(required[0]);
      NormalizedSplits(required);
      if number in available {
        SurplusIsDifference(required[1..], available - multiset{number});
      } else {
        var rest := Surplus(required[1..], available);
        SurplusIsDifference(required[1..], available);
        NormalizedSplits([required[0]] + rest);
        assert ([required[0]] + rest)[1..] == rest;
      }
    }
  }

  /** Which tokens are left over: the ones whose number has already been required as often as it is available. */
  ghost function BeyondAvailable(required: seq<string>, available: multiset<string>): seq<string> {
    if required == [] then []
    else
      var last := required[|required| - 1];
      var before := required[..|required| - 1];
      var number := NormalizeNumericToken(last);
      BeyondAvailable(before, available)
        + if multiset(Normalized(before))[number] >= available[number] then [last] else []
  }

  lemma {:induction false} SurplusOfFirst(first: string, rest: seq<string>, available: multiset<string>)
    ensures var number := NormalizeNumericToken(first);
            Surplus([first] + rest, available)
            == if number in available then Surplus(rest, available - multiset{number})
               else [first] + Surplus(rest, available)
  {
    assert ([first] + rest)[1..] == rest;
  }

  lemma CountOfFirst(first: string, rest: seq<string>, number: string)
    ensures multiset(Normalized([first] + rest))[number]
            == multiset(Normalized(rest))[number] + if NormalizeNumericToken(first) == number then 1 else 0
  {
    NormalizedSplits([first] + rest);
    assert ([first] + rest)[1..] == rest;
  }

  lemma {:induction false} SurplusOfLast(required: seq<string>, last: string, available: multiset<string>)
    ensures var number := NormalizeNumericToken(last);
            Surplus(required + [last], available)
            == Surplus(required, available)
               + if multiset(Normalized(required))[number] >= available[number] then [last] else []
  {
    if required == [] {
      assert required + [last] == [last] + [];
      SurplusOfFirst(last, [], available);
    } else {
      var first, rest := required[0], required[1..];
      assert required == [first] + rest;
      assert required + [last] == [first] + (rest + [last]);
      SurplusOfFirst(first, rest, available);
      SurplusOfFirst(first, rest + [last], available);
      CountOfFirst(first, rest, NormalizeNumericToken(last));
      var number := NormalizeNumericToken(first);
      SurplusOfLast(rest, last, if number in available then available - multiset{number} else available);
    }
  }

  lemma {:induction false} BeyondAvailableNext(before: seq<string>, last: string, available: multiset<string>)
    ensures BeyondAvailable(before + [last], available)
            == BeyondAvailable(before, available)
               + if multiset(Normalized(before))[NormalizeNumericToken(last)] >= available[NormalizeNumericToken(last)]
                 then [last] else []
  {
    assert (before + [last])[..|before|] == before;
  }

  lemma {:induction false} SurplusIsBeyondAvailable(required: seq<string>, available: multiset<string>)
    ensures Surplus(required, available) == BeyondAvailable(required, available)
  {
    if required != [] {
      var before, last := required[..|required| - 1], required[|required| - 1];
      assert required == before + [last];
      SurplusIsBeyondAvailable(before, available);
      SurplusOfLast(before, last, available);
      BeyondAvailableNext(before, last, available);
    }
  }

  /** Nothing is missing exactly when the translation has every required number often enough. */
  lemma {:induction false} NothingMissingIff(required: seq<string>, available: multiset<string>)
    ensures Surplus(required, available) == [] <==> multiset(Normalized(required)) <= available
  {
    SurplusIsDifference(required, available);
    var left := Surplus(required, available);
    DifferenceIsEmptyIff(multiset(Normalized(required)), available);
    EmptyIff(Normalized(left));
  }

  lemma DifferenceIsEmptyIff(required: multiset<string>, available: multiset<string>)
    ensures required - available == multiset{} <==> required <= available
  {
    if required - available == multiset{} {
      forall x
        ensures required[x] <= available[x]
      {
        assert (required - available)[x] == 0;
      }
    }
  }

  lemma EmptyIff(values: seq<string>)
    ensures values == [] <==> multiset(values) == multiset{}
  {
    assert |multiset(values)| == |values|;
  }

  function IndexOf(values: seq<string>, value: string): (at: int)
    ensures -1 <= at < |values|
    ensures at >= 0 ==> values[at] == value
    ensures at == -1 <==> value !in values
  {
    if values == [] then -1
    else if values[0] == value then 0
    else
      var at := IndexOf(values[1..], value);
      if at == -1 then -1 else at + 1
  }

  ghost predicate Within(text: string, tokens: seq<Span>) {
    forall s :: s in tokens ==> s.from <= s.to <= |text|
  }

  /** The tokens of the source that no filter sets aside, in source order. */
  ghost function Material(source: string, tokens: seq<Span>, setAside: (nat, string) -> bool): seq<string>
    requires Within(source, tokens)
  {
    if tokens == [] then []
    else
      var last := tokens[|tokens| - 1];
      var value := source[last.from..last.to];
      Material(source, tokens[..|tokens| - 1], setAside) + if setAside(last.from, value) then [] else [value]
  }

  /** Takes the first equal number out of the list, if there is one. */
  method TakeFirst(available: seq<string>, number: string) returns (found: bool, rest: seq<string>)
    ensures found <==> number in multiset(available)
    ensures multiset(rest) == multiset(available) - multiset{number}
  {
    var matchIndex := IndexOf(available, number);
    if matchIndex == -1 {
      return false, available;
    }
    assert available == available[..matchIndex] + [number] + available[matchIndex + 1..];
    return true, available[..matchIndex] + available[matchIndex + 1..];
  }

  /**
    The loop over the source's numbers, each taking the first equal number out of the list of those
    available. `setAside` stands for the tariff, structural and restatement filters.
  */
  method LeftOverNumbers(source: string, tokens: seq<Span>, setAside: (nat, string) -> bool,
                         translationTokens: seq<string>)
    returns (missing: seq<string>)
    requires Within(source, tokens)
    ensures var required := Material(source, tokens, setAside);
            var available := multiset(Normalized(translationTokens));
            && missing == BeyondAvailable(required, available)
            && multiset(Normalized(missing)) == multiset(Normalized(required)) - available
            && (missing == [] <==> multiset(Normalized(required)) <= available)
  {
    var available := Normalized(translationTokens);
    missing := [];
    ghost var initial := multiset(available);
    ghost var required: seq<string> := [];
    for n := 0 to |tokens|
      invariant required == Material(source, tokens[..n], setAside)
      invariant missing == Surplus(required, initial)
      invariant multiset(available) == initial - multiset(Normalized(required))
    {
      var token := tokens[n];
      var value := source[token.from..token.to];
      assert tokens[..n + 1][..n] == tokens[..n];
      if !setAside(token.from, value) {
        TakesOne(required, value, initial);
        var found;
        found, available := TakeFirst(available, NormalizeNumericToken(value));
        if !found {
          missing := missing + [value];
        }
        required := required + [value];
      }
    }
    assert tokens[..|tokens|] == tokens;
    SurplusIsBeyondAvailable(required, initial);
    SurplusIsDifference(required, initial);
    NothingMissingIff(required, initial);
  }

  /** One required number takes one of those still available, or is left over when none is. */
  lemma {:induction false} TakesOne(required: seq<string>, value: string, initial: multiset<string>)
    ensures var number := NormalizeNumericToken(value);
            var before := initial - multiset(Normalized(required));
            && Surplus(required + [value], initial)
               == Surplus(required, initial) + (if number in before then [] else [value])
            && initial - multiset(Normalized(required + [value])) == before - multiset{number}
  {
    SurplusOfLast(required, value, initial);
    assert Normalized(required + [value]) == Normalized(required) + [NormalizeNumericToken(value)];
  }

  function Values(text: string, tokens: seq<Span>): seq<string>
    requires Within(text, tokens)
  {
    seq(|tokens|, k requires 0 <= k < |tokens| => assert tokens[k] in tokens; text[tokens[k].from..tokens[k].to])
  }

  // ---------- The same, by what the numbers say ----------

  /** The readings of tokens that are numerals. */
  ghost predicate AllRead(tokens: seq<string>, readings: seq<Reading>) {
    |readings| == |tokens| && forall k :: 0 <= k < |tokens| ==> Reads(tokens[k], readings[k])
  }

  ghost function Forms(readings: seq<Reading>): seq<string> {
    seq(|readings|, k requires 0 <= k < |readings| => Written(readings[k]))
  }

  lemma NormalFormsAre(tokens: seq<string>, readings: seq<Reading>)
    requires AllRead(tokens, readings)
    ensures Normalized(tokens) == Forms(readings)
    ensures forall k :: 0 <= k < |readings| ==> IsReading(readings[k])
  {
    forall k | 0 <= k < |tokens|
      ensures Normalized(tokens)[k] == Forms(readings)[k] && IsReading(readings[k])
    {
      NormalFormIsReading(tokens[k], readings[k]);
    }
  }

  lemma CountSnoc<T>(xs: seq<T>, x: T, y: T)
    ensures multiset(xs + [x])[y] == multiset(xs)[y] + if x == y then 1 else 0
  {
  }

  lemma WrittenIff(r: Reading, s: Reading)
    requires IsReading(r) && IsReading(s)
    ensures Written(r) == Written(s) <==> r == s
  {
    if Written(r) == Written(s) {
      WrittenIsInjective(r, s);
    }
  }

  lemma FormsNext(readings: seq<Reading>, last: Reading)
    ensures Forms(readings + [last]) == Forms(readings) + [Written(last)]
  {
  }

  lemma {:induction false} FormsCount(readings: seq<Reading>, r: Reading)
    requires IsReading(r) && forall k :: 0 <= k < |readings| ==> IsReading(readings[k])
    ensures multiset(Forms(readings))[Written(r)] == multiset(readings)[r]
  {
    if readings != [] {
      var init, last := readings[..|readings| - 1], readings[|readings| - 1];
      assert readings == init + [last];
      FormsCount(init, r);
      FormsNext(init, last);
      CountSnoc(init, last, r);
      CountSnoc(Forms(init), Written(last), Written(r));
      WrittenIff(last, r);
    }
  }

  /** As many tokens have a normal form as say what it says. */
  lemma NormalFormsCountReadings(tokens: seq<string>, readings: seq<Reading>, r: Reading)
    requires AllRead(tokens, readings) && IsReading(r)
    ensures multiset(Normalized(tokens))[Written(r)] == multiset(readings)[r]
  {
    NormalFormsAre(tokens, readings);
    FormsCount(readings, r);
  }

  lemma {:induction false} NormalFormsAreWritten(tokens: seq<string>, readings: seq<Reading>, text: string)
    requires AllRead(tokens, readings) && multiset(Normalized(tokens))[text] > 0
    ensures exists k :: 0 <= k < |readings| && Written(readings[k]) == text && IsReading(readings[k])
  {
    assert text in Normalized(tokens);
    var k :| 0 <= k < |tokens| && Normalized(tokens)[k] == text;
    NormalFormIsReading(tokens[k], readings[k]);
  }

  lemma ReadingsAreReadings(tokens: seq<string>, readings: seq<Reading>, r: Reading)
    requires AllRead(tokens, readings) && r in readings
    ensures IsReading(r)
  {
    var k :| 0 <= k < |readings| && readings[k] == r;
    NormalFormIsReading(tokens[k], readings[k]);
  }

  /** For numerals, normal forms are included exactly when what they say is. */
  lemma IncludedIffReadings(required: seq<string>, rs: seq<Reading>, available: seq<string>, ss: seq<Reading>)
    requires AllRead(required, rs) && AllRead(available, ss)
    ensures multiset(Normalized(required)) <= multiset(Normalized(available)) <==> multiset(rs) <= multiset(ss)
  {
    if multiset(Normalized(required)) <= multiset(Normalized(available)) {
      forall r | r in rs
        ensures multiset(rs)[r] <= multiset(ss)[r]
      {
        ReadingsAreReadings(required, rs, r);
        NormalFormsCountReadings(required, rs, r);
        NormalFormsCountReadings(available, ss, r);
      }
    }
    if multiset(rs) <= multiset(ss) {
      forall text | multiset(Normalized(required))[text] > 0
        ensures multiset(Normalized(required))[text] <= multiset(Normalized(available))[text]
      {
        NormalFormsAreWritten(required, rs, text);
        var k :| 0 <= k < |rs| && Written(rs[k]) == text && IsReading(rs[k]);
        NormalFormsCountReadings(required, rs, rs[k]);
        NormalFormsCountReadings(available, ss, rs[k]);
      }
    }
  }

  /** Of numerals, what is left over says what the required ones say beyond the available ones. */
  lemma LeftOverReadings(required: seq<string>, rs: seq<Reading>, available: seq<string>, ss: seq<Reading>,
                         missing: seq<string>, ms: seq<Reading>)
    requires AllRead(required, rs) && AllRead(available, ss) && AllRead(missing, ms)
    requires multiset(Normalized(missing)) == multiset(Normalized(required)) - multiset(Normalized(available))
    ensures multiset(ms) == multiset(rs) - multiset(ss)
  {
    forall r
      ensures multiset(ms)[r] == (multiset(rs) - multiset(ss))[r]
    {
      if IsReading(r) {
        NormalFormsCountReadings(required, rs, r);
        NormalFormsCountReadings(available, ss, r);
        NormalFormsCountReadings(missing, ms, r);
      } else {
        assert r in rs ==> IsReading(r) by { if r in rs { ReadingsAreReadings(required, rs, r); } }
        assert r in ms ==> IsReading(r) by { if r in ms { ReadingsAreReadings(missing, ms, r); } }
      }
    }
  }

  /** A number without a second mark is a numeral: grouped, or plain. */
  lemma OneMarkIsRead(text: string, mark: nat)
    requires text != "" && mark <= |text| && Numeric(text, Span(0, |text|))
    requires forall k :: 0 <= k < |text| && k != mark ==> IsDigit(text[k])
    ensures exists r :: Reads(text, r)
  {
    if !Grouped(text) {
      var r := if mark < |text| && !IsDigit(text[mark]) then Reading(text[..mark], text[mark + 1..]) else Reading(text, "");
      assert PlainNumeral(text, r);
      assert Reads(text, r);
    } else {
      var r :| GroupedNumeral(text, r);
      assert Reads(text, r);
    }
  }

  /**
    The whole check. `required` are the material numbers among all maximal numbers of the source,
    `available` all maximal numbers of the translation; the answer is what the first has more of.
  */
  method MissingMaterialNumericTokens(source: string, translation: string, setAside: (nat, string) -> bool)
    returns (missing: seq<string>)
    ensures exists ofSource, ofTranslation ::
              && AllTokens(source, ofSource) && AllTokens(translation, ofTranslation)
              && var required := Material(source, ofSource, setAside);
                 var available := multiset(Normalized(Values(translation, ofTranslation)));
                 && missing == BeyondAvailable(required, available)
                 && multiset(Normalized(missing)) == multiset(Normalized(required)) - available
                 && (missing == [] <==> multiset(Normalized(required)) <= available)
                 && NothingMissingByReading(missing, required, Values(translation, ofTranslation))
  {
    var ofTranslation := NumericTokensWithOffsets(translation);
    var ofSource := NumericTokensWithOffsets(source);
    missing := LeftOverNumbers(source, ofSource, setAside, Values(translation, ofTranslation));
    ReadingsDecide(missing, Material(source, ofSource, setAside), Values(translation, ofTranslation));
  }

  /** Of numerals, nothing is missing exactly when the translation says every required number often enough. */
  ghost predicate NothingMissingByReading(missing: seq<string>, required: seq<string>, available: seq<string>) {
    forall rs, ss :: AllRead(required, rs) && AllRead(available, ss) ==>
      (missing == [] <==> multiset(rs) <= multiset(ss))
  }

  lemma ReadingsDecide(missing: seq<string>, required: seq<string>, available: seq<string>)
    requires missing == [] <==> multiset(Normalized(required)) <= multiset(Normalized(available))
    ensures NothingMissingByReading(missing, required, available)
  {
    forall rs, ss | AllRead(required, rs) && AllRead(available, ss)
      ensures missing == [] <==> multiset(rs) <= multiset(ss)
    {
      IncludedIffReadings(required, rs, available, ss);
    }
  }

  ghost predicate Ordered(tokens: seq<Span>) {
    && (forall k :: 0 <= k < |tokens| ==> tokens[k].from < tokens[k].to)
    && (forall i, j :: 0 <= i < j < |tokens| ==> tokens[i].to <= tokens[j].from)
  }

  /** There is only one such list of tokens, so the answer is determined by the two texts. */
  lemma TokensAreUnique(text: string, a: seq<Span>, b: seq<Span>)
    requires AllTokens(text, a) && AllTokens(text, b)
    ensures a == b
  {
    assert forall k :: 0 <= k < |a| ==> a[k] in a && Maximal(text, a[k]);
    assert forall k :: 0 <= k < |b| ==> b[k] in b && Maximal(text, b[k]);
    SamePrefix(a, b, |a|);
    SamePrefix(b, a, |b|);
  }

  lemma {:induction false} SamePrefix(a: seq<Span>, b: seq<Span>, n: nat)
    requires Ordered(a) && Ordered(b) && n <= |a| && forall s :: s in a <==> s in b
    ensures n <= |b| && a[..n] == b[..n]
  {
    if n > 0 {
      SamePrefix(a, b, n - 1);
      assert forall k :: 0 <= k < n - 1 ==> a[k] == a[..n - 1][k] == b[k];
      NextIsSame(a, b, n - 1);
    }
  }

  lemma NextIsSame(a: seq<Span>, b: seq<Span>, n: nat)
    requires Ordered(a) && Ordered(b) && n < |a| && n <= |b| && forall s :: s in a <==> s in b
    requires forall k :: 0 <= k < n ==> a[k] == b[k]
    ensures n < |b| && a[n] == b[n]
  {
    assert a[n] in a;
    var j :| 0 <= j < |b| && b[j] == a[n];
    assert j >= n;
    assert b[n] in b;
    var l :| 0 <= l < |a| && a[l] == b[n];
    assert l >= n;
  }

  // ---------- The required numbers ----------

  lemma {:induction false} MaterialConcat(source: string, a: seq<Span>, b: seq<Span>, setAside: (nat, string) -> bool)
    requires Within(source, a + b) && Within(source, a) && Within(source, b)
    ensures Material(source, a + b, setAside) == Material(source, a, setAside) + Material(source, b, setAside)
  {
    if b == [] {
      assert a + b == a;
    } else {
      var init := b[..|b| - 1];
      assert (a + b)[..|a + b| - 1] == a + init;
      assert forall s :: s in init ==> s in b;
      assert forall s :: s in a + init ==> s in a + b;
      MaterialConcat(source, a, init, setAside);
    }
  }

  /** Required is a number exactly when no filter sets it aside, wherever it stands in the source. */
  lemma {:induction false} MaterialAt(source: string, before: seq<Span>, token: Span, after: seq<Span>,
                                      setAside: (nat, string) -> bool)
    requires Within(source, before) && Within(source, [token]) && Within(source, after)
    ensures Within(source, before + [token] + after) && token.from <= token.to <= |source|
    ensures Material(source, before + [token] + after, setAside)
            == Material(source, before, setAside)
               + (if setAside(token.from, source[token.from..token.to]) then [] else [source[token.from..token.to]])
               + Material(source, after, setAside)
  {
    assert token in [token];
    assert Within(source, before + [token]);
    MaterialConcat(source, before + [token], after, setAside);
    MaterialConcat(source, before, [token], setAside);
    assert [token][..0] == [] && Material(source, [], setAside) == [];
  }

  /** The tokens' values are the numbers themselves, cut out of the text where they stand. */
  lemma ValuesStand(text: string, tokens: seq<Span>, k: nat)
    requires AllTokens(text, tokens) && k < |tokens|
    ensures tokens[k] in tokens && tokens[k].from < tokens[k].to <= |text|
    ensures |Values(text, tokens)| == |tokens|
    ensures text[..tokens[k].from] + Values(text, tokens)[k] + text[tokens[k].to..] == text
  {
    assert tokens[k] in tokens && Maximal(text, tokens[k]);
  }

  /** Each of the three marks between two digits joins them to one number. */
  lemma MarksJoin(a: char, mark: char, b: char)
    requires IsDigit(a) && IsDigit(b) && (mark == '.' || mark == ',' || mark == '‧')
    ensures Maximal([a, mark, b], Span(0, 3))
  {
    var text := [a, mark, b];
    assert text[0] == a && text[1] == mark && text[2] == b;
  }
}
