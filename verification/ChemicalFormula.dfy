/**
  The greedy chemical-formula parser of scripts/catalog/product-translation-structure.ts.

  The grammar is stated without a parser: a formula is a row of units, each an element symbol
  followed by digits. The parser accepts exactly the derivable texts, and the derivation it finds
  is the only one there is.
*/
module ChemicalFormula {
  import opened Common

  predicate IsUpper(c: char) { 'A' <= c <= 'Z' }
  predicate IsLower(c: char) { 'a' <= c <= 'z' }

  function ToUpper(c: char): char
    requires IsLower(c)
  {
    c - 'a' + 'A'
  }

  /** The symbols of the elements, in the order of their atomic numbers. */
  const ELEMENT_SYMBOLS: set<string> := {
    "H", "He", "Li", "Be", "B", "C", "N", "O", "F", "Ne", "Na", "Mg", "Al", "Si", "P", "S", "Cl", "Ar",
    "K", "Ca", "Sc", "Ti", "V", "Cr", "Mn", "Fe", "Co", "Ni", "Cu", "Zn", "Ga", "Ge", "As", "Se", "Br",
    "Kr", "Rb", "Sr", "Y", "Zr", "Nb", "Mo", "Tc", "Ru", "Rh", "Pd", "Ag", "Cd", "In", "Sn", "Sb", "Te",
    "I", "Xe", "Cs", "Ba", "La", "Ce", "Pr", "Nd", "Pm", "Sm", "Eu", "Gd", "Tb", "Dy", "Ho", "Er", "Tm",
    "Yb", "Lu", "Hf", "Ta", "W", "Re", "Os", "Ir", "Pt", "Au", "Hg", "Tl", "Pb", "Bi", "Po", "At", "Rn",
    "Fr", "Ra", "Ac", "Th", "Pa", "U", "Np", "Pu", "Am", "Cm", "Bk", "Cf", "Es", "Fm", "Md", "No", "Lr",
    "Rf", "Db", "Sg", "Bh", "Hs", "Mt", "Ds", "Rg", "Cn", "Nh", "Fl", "Mc", "Lv", "Ts", "Og"
  }

  /** One unit of a formula: the letters as written, and the digits that follow them. */
  datatype Unit = Unit(letters: string, digits: string)

  /** The element symbol a unit stands for: a lower-case letter after a digit is read in upper case. */
  function Symbol(unit: Unit): string {
    if |unit.letters| == 1 && IsLower(unit.letters[0]) then [ToUpper(unit.letters[0])] else unit.letters
  }

  function Symbols(units: seq<Unit>): seq<string> {
    seq(|units|, k requires 0 <= k < |units| => Symbol(units[k]))
  }

  /** The letters of a unit: `X` or `Xx` from the table, or `x` right after a digit. */
  ghost predicate Letters(table: set<string>, letters: string, afterDigit: bool) {
    || (|letters| == 1 && IsUpper(letters[0]) && letters in table)
    || (|letters| == 2 && IsUpper(letters[0]) && IsLower(letters[1]) && letters in table)
    || (|letters| == 1 && IsLower(letters[0]) && afterDigit && [ToUpper(letters[0])] in table)
  }

  /**
    The grammar: `units` is a derivation of `text`, which stands right after a digit or not.
    A text is a row of units, each some letters followed by any number of digits.
  */
  ghost predicate Derives(table: set<string>, units: seq<Unit>, text: string, afterDigit: bool) {
    if units == [] then text == ""
    else
      var unit := units[0];
      && Letters(table, unit.letters, afterDigit) && AllDigits(unit.digits)
      && unit.letters + unit.digits <= text
      && Derives(table, units[1..], text[|unit.letters| + |unit.digits|..], unit.digits != "")
  }

  /** The length of the longest run of digits at the start of `text`. */
  ghost function DigitRun(text: string): (n: nat)
    ensures n <= |text| && AllDigits(text[..n])
    ensures n < |text| ==> !IsDigit(text[n])
  {
    if text != "" && IsDigit(text[0]) then
      var n := DigitRun(text[1..]);
      assert text[..1 + n] == [text[0]] + text[1..][..n];
      1 + n
    else 0
  }

  /** The letters the parser consumes at the start of `text`, if it consumes any. */
  ghost function ChosenLetters(table: set<string>, text: string, afterDigit: bool): (letters: Option<string>)
    requires text != ""
    ensures letters.Some? ==> Letters(table, letters.value, afterDigit) && letters.value <= text
  {
    if IsUpper(text[0]) then
      if |text| >= 2 && IsLower(text[1]) && text[..2] in table then Some(text[..2])
      else if [text[0]] in table then Some([text[0]]) else None
    else if IsLower(text[0]) && afterDigit && [ToUpper(text[0])] in table then Some([text[0]])
    else None
  }

  /** What the greedy parser reads: the chosen letters, all the digits after them, and so on. */
  ghost function Parse(table: set<string>, text: string, afterDigit: bool): Option<seq<Unit>> {
    if text == "" then Some([])
    else
      var letters := ChosenLetters(table, text, afterDigit);
      if letters.None? then None
      else
        var tail := text[|letters.value|..];
        var digits := tail[..DigitRun(tail)];
        Prepend(Unit(letters.value, digits), Parse(table, tail[|digits|..], digits != ""))
  }

  ghost function Prepend(unit: Unit, units: Option<seq<Unit>>): Option<seq<Unit>> {
    if units.None? then None else Some([unit] + units.value)
  }

  /** A derivation can only begin with a letter, so what follows a run of digits is no digit. */
  lemma {:induction false} DerivesStartsWithLetter(table: set<string>, units: seq<Unit>, text: string, afterDigit: bool)
    requires Derives(table, units, text, afterDigit) && text != ""
    ensures units != [] && text[0] == units[0].letters[0]
    ensures !IsDigit(text[0]) && (!afterDigit ==> !IsLower(text[0]))
  {
    assert text[0] == (units[0].letters + units[0].digits)[0];
  }

  lemma {:induction false} RunIsUnique(digits: string, rest: string)
    requires AllDigits(digits) && (rest != "" ==> !IsDigit(rest[0]))
    ensures DigitRun(digits + rest) == |digits|
  {
    if digits != "" {
      assert IsDigit(digits[0]);
      assert (digits + rest)[1..] == digits[1..] + rest;
      RunIsUnique(digits[1..], rest);
    } else {
      assert digits + rest == rest;
    }
  }

  /** What follows the letters of the first unit: its digits, and then no digit. */
  lemma {:induction false} FirstUnitTail(table: set<string>, units: seq<Unit>, text: string, afterDigit: bool)
    requires Derives(table, units, text, afterDigit) && units != []
    ensures var tail := text[|units[0].letters|..];
            && units[0].digits == tail[..DigitRun(tail)]
            && (tail != "" ==> IsDigit(tail[0]) || !IsLower(tail[0]))
  {
    var unit := units[0];
    var rest := text[|unit.letters| + |unit.digits|..];
    if rest != "" {
      DerivesStartsWithLetter(table, units[1..], rest, unit.digits != "");
    }
    AfterPrefixes(unit.letters, unit.digits, text);
    RunAndRest(unit.digits, rest);
  }

  /** Digits, and then no digit. */
  lemma RunAndRest(digits: string, rest: string)
    requires AllDigits(digits) && (rest != "" ==> !IsDigit(rest[0])) && (digits == "" && rest != "" ==> !IsLower(rest[0]))
    ensures var tail := digits + rest;
            && digits == tail[..DigitRun(tail)]
            && (tail != "" ==> IsDigit(tail[0]) || !IsLower(tail[0]))
  {
    RunIsUnique(digits, rest);
    if digits != "" {
      assert IsDigit(digits[0]);
    }
  }

  /** The first unit of any derivation is the one the greedy parser takes. */
  lemma {:induction false} FirstUnitIsForced(table: set<string>, units: seq<Unit>, text: string, afterDigit: bool)
    requires Derives(table, units, text, afterDigit) && text != ""
    ensures units != []
    ensures ChosenLetters(table, text, afterDigit) == Some(units[0].letters)
    ensures var tail := text[|units[0].letters|..];
            units[0].digits == tail[..DigitRun(tail)]
  {
    DerivesStartsWithLetter(table, units, text, afterDigit);
    FirstUnitTail(table, units, text, afterDigit);
    var letters := units[0].letters;
    assert letters == text[..|letters|];
    if |letters| == 1 {
      assert letters == [text[0]];
      assert |text| >= 2 ==> text[1] == text[1..][0];
    } else {
      assert letters == text[..2];
    }
  }

  lemma {:induction false} ParseStep(table: set<string>, text: string, letters: string, digits: string, rest: string,
                                     afterDigit: bool)
    requires text != "" && text == letters + digits + rest
    requires ChosenLetters(table, text, afterDigit) == Some(letters)
    requires AllDigits(digits) && (rest != "" ==> !IsDigit(rest[0]))
    ensures Parse(table, text, afterDigit) == Prepend(Unit(letters, digits), Parse(table, rest, digits != ""))
  {
    AfterPrefixes(letters, digits, text);
    assert text[|letters| + |digits|..] == rest;
    RunIsUnique(digits, rest);
    assert (digits + rest)[..|digits|] == digits && (digits + rest)[|digits|..] == rest;
  }

  lemma DerivesStep(table: set<string>, units: seq<Unit>, text: string, rest: string, afterDigit: bool)
    requires units != [] && text == units[0].letters + units[0].digits + rest
    ensures Derives(table, units, text, afterDigit)
            <==> (&& Letters(table, units[0].letters, afterDigit) && AllDigits(units[0].digits)
                  && Derives(table, units[1..], rest, units[0].digits != ""))
  {
    assert text[|units[0].letters| + |units[0].digits|..] == rest;
    assert units[0].letters + units[0].digits <= text;
  }

  /**
    The parser finds a derivation exactly when there is one, and it is the only one.
  */
  lemma {:induction false} ParseIffDerives(table: set<string>, units: seq<Unit>, text: string, afterDigit: bool)
    ensures Derives(table, units, text, afterDigit) <==> Parse(table, text, afterDigit) == Some(units)
    decreases |text|
  {
    if text == "" {
      // A unit has at least one letter, so only the empty derivation reads the empty text.
    } else {
      if Derives(table, units, text, afterDigit) {
        FirstUnitIsForced(table, units, text, afterDigit);
        FirstUnitThenRest(table, units, text, afterDigit);
      }
      if Parse(table, text, afterDigit) == Some(units) {
        FirstUnitThenRest(table, units, text, afterDigit);
      }
    }
  }

  lemma {:induction false} FirstUnitThenRest(table: set<string>, units: seq<Unit>, text: string, afterDigit: bool)
    requires text != "" && units != []
    requires ChosenLetters(table, text, afterDigit) == Some(units[0].letters)
    requires var tail := text[|units[0].letters|..]; units[0].digits == tail[..DigitRun(tail)]
    ensures Derives(table, units, text, afterDigit) <==> Parse(table, text, afterDigit) == Some(units)
    decreases |text|, 0
  {
    var unit := units[0];
    var tail := text[|unit.letters|..];
    var rest := tail[|unit.digits|..];
    assert text == unit.letters + unit.digits + rest;
    DerivesStep(table, units, text, rest, afterDigit);
    ParseStep(table, text, unit.letters, unit.digits, rest, afterDigit);
    ParseIffDerives(table, units[1..], rest, unit.digits != "");
    PrependIff(units, Parse(table, rest, unit.digits != ""));
  }

  lemma PrependIff(units: seq<Unit>, rest: Option<seq<Unit>>)
    requires units != []
    ensures Prepend(units[0], rest) == Some(units) <==> rest == Some(units[1..])
  {
    assert units == [units[0]] + units[1..];
    if rest.Some? {
      assert ([units[0]] + rest.value)[1..] == rest.value;
    }
  }

  /** A text is read right after a digit when the character before it is one. */
  ghost predicate AfterDigit(value: string, index: nat)
    requires index <= |value|
  {
    index > 0 && IsDigit(value[index - 1])
  }

  /** From `start` on there are digits up to `end`, and none there. */
  ghost predicate DigitsUpTo(value: string, start: nat, end: nat) {
    && start <= end <= |value| && AllDigits(value[start..end])
    && (end < |value| ==> !IsDigit(value[end]))
  }

  /** The units already read, followed by what the parser makes of the rest. */
  ghost function Resume(table: set<string>, units: seq<Unit>, value: string, index: nat): Option<seq<Unit>>
    requires index <= |value|
  {
    Continue(units, Parse(table, value[index..], AfterDigit(value, index)))
  }

  ghost function Continue(units: seq<Unit>, rest: Option<seq<Unit>>): Option<seq<Unit>> {
    if rest.None? then None else Some(units + rest.value)
  }

  lemma AfterUnit(value: string, index: nat, start: nat, end: nat)
    requires index < start <= end <= |value| && AllDigits(value[start..end])
    requires !IsDigit(value[start - 1])
    ensures AfterDigit(value, end) == (value[start..end] != "")
  {
    if start < end {
      assert IsDigit(value[start..end][end - 1 - start]);
    }
  }

  lemma ContinueExtends(units: seq<Unit>, unit: Unit, rest: Option<seq<Unit>>, tail: Option<seq<Unit>>)
    requires rest == Prepend(unit, tail)
    ensures Continue(units, rest) == Continue(units + [unit], tail)
  {
    if tail.Some? {
      assert units + ([unit] + tail.value) == units + [unit] + tail.value;
    }
  }

  /** One turn of the parser's outer loop: the chosen letters and the digits after them. */
  lemma {:induction false} StepParses(table: set<string>, value: string, index: nat, unit: Unit, end: nat)
    requires index < |value|
    requires ChosenLetters(table, value[index..], AfterDigit(value, index)) == Some(unit.letters)
    requires DigitsUpTo(value, index + |unit.letters|, end) && unit.digits == value[index + |unit.letters|..end]
    ensures Parse(table, value[index..], AfterDigit(value, index))
            == Prepend(unit, Parse(table, value[end..], AfterDigit(value, end)))
  {
    var start := index + |unit.letters|;
    LastLetterIsNoDigit(table, value, index, unit.letters);
    AfterUnit(value, index, start, end);
    UnitInText(value, index, unit.letters, end);
    ParseStep(table, value[index..], unit.letters, unit.digits, value[end..], AfterDigit(value, index));
  }

  lemma UnitInText(value: string, index: nat, letters: string, end: nat)
    requires index + |letters| <= end <= |value| && letters <= value[index..]
    ensures value[index..] == letters + value[index + |letters|..end] + value[end..]
  {
    CutSuffix(value, index, index + |letters|, end);
    assert value[index..index + |letters|] == value[index..][..|letters|];
  }

  lemma LastLetterIsNoDigit(table: set<string>, value: string, index: nat, letters: string)
    requires index < |value| && ChosenLetters(table, value[index..], AfterDigit(value, index)) == Some(letters)
    ensures 0 < |letters| <= |value| - index && !IsDigit(value[index + |letters| - 1])
  {
    assert value[index + |letters| - 1] == value[index..][|letters| - 1] == letters[|letters| - 1];
  }

  /** The parser's result, read as a statement about the grammar. */
  lemma {:induction false} ParseMeans(table: set<string>, value: string)
    ensures Parse(table, value, false).Some? <==> exists units :: Derives(table, units, value, false)
    ensures Parse(table, value, false).Some? ==>
              forall units :: Derives(table, units, value, false) <==> units == Parse(table, value, false).value
  {
    var parsed := Parse(table, value, false);
    if units :| Derives(table, units, value, false) {
      ParseIffDerives(table, units, value, false);
    }
    if parsed.Some? {
      ParseIffDerives(table, parsed.value, value, false);
      forall units
        ensures Derives(table, units, value, false) <==> units == parsed.value
      {
        ParseIffDerives(table, units, value, false);
      }
    }
  }

  lemma {:induction false} ResumeAtStart(table: set<string>, value: string)
    ensures Resume(table, [], value, 0) == Parse(table, value, false)
  {
    assert value[0..] == value;
    var all := Parse(table, value, false);
    if all.Some? {
      assert [] + all.value == all.value;
    }
  }

  lemma ResumeAtEnd(table: set<string>, units: seq<Unit>, value: string)
    ensures Resume(table, units, value, |value|) == Some(units)
  {
    assert value[|value|..] == "";
    assert Parse(table, "", AfterDigit(value, |value|)) == Some([]);
    assert units + [] == units;
  }

  /** The inner loop: the digits from `start` on are skipped, all of them. */
  method SkipDigits(value: string, start: nat) returns (index: nat)
    requires start <= |value|
    ensures DigitsUpTo(value, start, index)
  {
    index := start;
    while index < |value| && IsDigit(value[index])
      invariant start <= index <= |value|
      invariant forall k :: start <= k < index ==> IsDigit(value[k])
    {
      index := index + 1;
    }
  }

  /** The symbol read at `index`, upper case or pair or lower case after a digit, if the table has it. */
  method ReadSymbol(table: set<string>, value: string, index: nat) returns (symbol: Option<string>)
    requires index < |value|
    ensures var letters := ChosenLetters(table, value[index..], AfterDigit(value, index));
            && (symbol.Some? <==> letters.Some?)
            && (symbol.Some? ==> symbol.value == Symbol(Unit(letters.value, "")) && |symbol.value| == |letters.value|)
  {
    ghost var text := value[index..];
    assert text[0] == value[index];
    var candidate: string;
    if IsUpper(value[index]) {
      var pair := value[index..if index + 2 <= |value| then index + 2 else |value|];
      assert |text| >= 2 ==> pair == text[..2];
      candidate := if |pair| == 2 && IsLower(pair[1]) && pair in table then pair else [value[index]];
    } else if IsLower(value[index]) && index > 0 && IsDigit(value[index - 1]) {
      candidate := [ToUpper(value[index])];
    } else {
      return None;
    }
    return if candidate in table then Some(candidate) else None;
  }

  lemma {:induction false} ResumeExtends(table: set<string>, units: seq<Unit>, unit: Unit, value: string,
                                         index: nat, end: nat)
    requires index <= |value| && end <= |value|
    requires Parse(table, value[index..], AfterDigit(value, index))
             == Prepend(unit, Parse(table, value[end..], AfterDigit(value, end)))
    ensures Resume(table, units, value, index) == Resume(table, units + [unit], value, end)
  {
    ContinueExtends(units, unit, Parse(table, value[index..], AfterDigit(value, index)),
                    Parse(table, value[end..], AfterDigit(value, end)));
  }

  /** The same turn, on what the loop has read: a symbol and the digits after it. */
  lemma {:induction false} NextUnit(table: set<string>, units: seq<Unit>, value: string, index: nat, symbol: string,
                                    end: nat)
    returns (unit: Unit)
    requires index < |value|
    requires var letters := ChosenLetters(table, value[index..], AfterDigit(value, index));
             letters.Some? && symbol == Symbol(Unit(letters.value, "")) && |symbol| == |letters.value|
    requires DigitsUpTo(value, index + |symbol|, end)
    ensures Resume(table, units, value, index) == Resume(table, units + [unit], value, end)
    ensures Symbols(units + [unit]) == Symbols(units) + [symbol]
  {
    unit := Unit(ChosenLetters(table, value[index..], AfterDigit(value, index)).value, value[index + |symbol|..end]);
    StepParses(table, value, index, unit, end);
    ResumeExtends(table, units, unit, value, index, end);
    SymbolsNext(units, unit);
  }

  /** One turn of the outer loop: a symbol and its digits, or the text has no derivation. */
  method ReadUnit(table: set<string>, value: string, index: nat, ghost units: seq<Unit>)
    returns (symbol: Option<string>, end: nat, ghost unit: Unit)
    requires index < |value|
    ensures symbol.None? ==> Resume(table, units, value, index) == None
    ensures symbol.Some? ==>
              && index < end <= |value|
              && Resume(table, units, value, index) == Resume(table, units + [unit], value, end)
              && Symbols(units + [unit]) == Symbols(units) + [symbol.value]
  {
    end, unit := index, Unit("", "");
    symbol := ReadSymbol(table, value, index);
    if symbol.Some? {
      end := SkipDigits(value, index + |symbol.value|);
      unit := NextUnit(table, units, value, index, symbol.value, end);
    }
  }

  /**
    The parser returns a list exactly when the text has a derivation, and then the list holds the
    symbols of the one derivation there is.
  */
  method ParseChemicalFormulaSymbols(table: set<string>, value: string)
    returns (result: Option<seq<string>>, ghost derivation: seq<Unit>)
    ensures result.Some? <==> exists units :: Derives(table, units, value, false)
    ensures result.Some? ==>
              && Derives(table, derivation, value, false) && result.value == Symbols(derivation)
              && forall units :: Derives(table, units, value, false) ==> units == derivation
  {
    var symbols: seq<string> := [];
    derivation := [];
    var index := 0;
    ParseMeans(table, value);
    ResumeAtStart(table, value);
    ghost var parsed := Parse(table, value, false);
    while index < |value|
      invariant 0 <= index <= |value|
      invariant parsed == Resume(table, derivation, value, index)
      invariant symbols == Symbols(derivation)
    {
      var symbol, end;
      ghost var unit;
      symbol, end, unit := ReadUnit(table, value, index, derivation);
      if symbol.None? {
        return None, derivation;
      }
      symbols := symbols + [symbol.value];
      derivation := derivation + [unit];
      index := end;
    }
    ResumeAtEnd(table, derivation, value);
    return Some(symbols), derivation;
  }

  /** A unit's digits have no part in its symbol. */
  lemma SymbolsNext(units: seq<Unit>, unit: Unit)
    ensures Symbols(units + [unit]) == Symbols(units) + [Symbol(Unit(unit.letters, ""))]
  {
  }

  /**
    A word counts as a chemical formula when it has a derivation of at least two units and either
    holds a digit, or holds a lower-case letter without ending like a plural.
  */
  ghost predicate IsFormula(table: set<string>, value: string) {
    (exists units :: Derives(table, units, value, false) && |units| >= 2) && LooksLikeFormula(value)
  }

  predicate LooksLikeFormula(value: string) {
    || (exists c | c in value :: IsDigit(c))
    || ((exists c | c in value :: IsLower(c)) && !EndsLikePlural(value))
  }

  predicate EndsLikePlural(value: string) {
    value != "" && value[|value| - 1] == 's'
  }

  method IsFormulaOver(table: set<string>, value: string) returns (formula: bool)
    ensures formula <==> IsFormula(table, value)
  {
    var symbols, units := ParseChemicalFormulaSymbols(table, value);
    if symbols.None? {
      assert forall other :: !Derives(table, other, value, false);
      return false;
    }
    assert forall other :: Derives(table, other, value, false) <==> other == units;
    if |symbols.value| < 2 {
      return false;
    }
    assert |units| >= 2;
    return LooksLikeFormula(value);
  }

  method IsChemicalFormula(value: string) returns (formula: bool)
    ensures formula <==> IsFormula(ELEMENT_SYMBOLS, value)
  {
    formula := IsFormulaOver(ELEMENT_SYMBOLS, value);
  }

  // ---------- Formulas, by their units ----------

  ghost function TextOf(units: seq<Unit>): string {
    if units == [] then "" else units[0].letters + units[0].digits + TextOf(units[1..])
  }

  lemma {:induction false} DerivedText(table: set<string>, units: seq<Unit>, text: string, afterDigit: bool)
    requires Derives(table, units, text, afterDigit)
    ensures text == TextOf(units)
    ensures forall k :: 0 <= k < |units| ==> WellWritten(units[k])
    decreases |units|
  {
    if units != [] {
      var unit := units[0];
      var rest := text[|unit.letters| + |unit.digits|..];
      DerivedText(table, units[1..], rest, unit.digits != "");
      assert text == unit.letters + unit.digits + rest;
      assert forall k :: 0 < k < |units| ==> units[k] == units[1..][k - 1];
    }
  }

  /** One letter, or a capital and a lower-case letter; then digits. */
  ghost predicate WellWritten(unit: Unit) {
    && AllDigits(unit.digits)
    && (|| (|unit.letters| == 1 && (IsUpper(unit.letters[0]) || IsLower(unit.letters[0])))
        || (|unit.letters| == 2 && IsUpper(unit.letters[0]) && IsLower(unit.letters[1])))
  }

  ghost predicate SomeDigits(units: seq<Unit>) {
    exists k :: 0 <= k < |units| && units[k].digits != ""
  }

  ghost predicate SomeLowerCase(units: seq<Unit>) {
    exists k :: 0 <= k < |units| && (|units[k].letters| == 2 || (units[k].letters != "" && IsLower(units[k].letters[0])))
  }

  /** The last unit ends in an s and has no digits after it. */
  ghost predicate EndsInS(units: seq<Unit>) {
    units != [] && var last := units[|units| - 1];
                   last.digits == "" && last.letters != "" && last.letters[|last.letters| - 1] == 's'
  }

  lemma {:induction false} DigitsInText(units: seq<Unit>)
    requires forall k :: 0 <= k < |units| ==> WellWritten(units[k])
    ensures (exists c :: c in TextOf(units) && IsDigit(c)) <==> SomeDigits(units)
    ensures (exists c :: c in TextOf(units) && IsLower(c)) <==> SomeLowerCase(units)
  {
    if units != [] {
      var unit, rest := units[0], units[1..];
      assert forall k :: 0 < k < |units| ==> units[k] == rest[k - 1];
      assert forall k :: 0 <= k < |rest| ==> rest[k] == units[k + 1];
      DigitsInText(rest);
      CharactersOfUnit(unit);
      assert forall c :: c in TextOf(units) <==> c in unit.letters || c in unit.digits || c in TextOf(rest);
    }
  }

  lemma CharactersOfUnit(unit: Unit)
    requires WellWritten(unit)
    ensures (exists c :: (c in unit.letters || c in unit.digits) && IsDigit(c)) <==> unit.digits != ""
    ensures (exists c :: (c in unit.letters || c in unit.digits) && IsLower(c))
            <==> |unit.letters| == 2 || IsLower(unit.letters[0])
  {
    if unit.digits != "" {
      assert unit.digits[0] in unit.digits;
    }
    assert unit.letters[0] in unit.letters;
    if |unit.letters| == 2 {
      assert unit.letters[1] in unit.letters;
    }
  }

  lemma {:induction false} TextEndsWithUnit(units: seq<Unit>) returns (front: string)
    requires units != []
    ensures var last := units[|units| - 1];
            TextOf(units) == front + (last.letters + last.digits)
  {
    var unit := units[0].letters + units[0].digits;
    if |units| == 1 {
      front := "";
      assert TextOf(units) == unit + TextOf([]) == unit == front + unit;
    } else {
      var before := TextEndsWithUnit(units[1..]);
      front := unit + before;
      var last := units[|units| - 1];
      assert front + (last.letters + last.digits) == unit + (before + (last.letters + last.digits));
    }
  }

  lemma {:induction false} EndOfText(units: seq<Unit>)
    requires units != [] && forall k :: 0 <= k < |units| ==> WellWritten(units[k])
    ensures TextOf(units) != ""
    ensures TextOf(units)[|TextOf(units)| - 1] == 's' <==> EndsInS(units)
  {
    var last := units[|units| - 1];
    var front := TextEndsWithUnit(units);
    EndOfUnit(last);
    LastOfTwo(front, last.letters + last.digits);
  }

  lemma LastOfTwo(front: string, end: string)
    requires end != ""
    ensures front + end != "" && (front + end)[|front + end| - 1] == end[|end| - 1]
  {
  }

  lemma EndOfUnit(unit: Unit)
    requires WellWritten(unit)
    ensures var text := unit.letters + unit.digits;
            text != "" && (text[|text| - 1] == 's' <==> EndsInS([unit]))
  {
    if unit.digits != "" {
      LastOfTwo(unit.letters, unit.digits);
      assert IsDigit(unit.digits[|unit.digits| - 1]);
    }
  }

  /**
    A word is a formula exactly when it is made of two units or more, and one of them has digits, or one is
    written with a lower-case letter and the last does not end like a plural.
  */
  lemma {:induction false} FormulaIff(table: set<string>, value: string)
    ensures IsFormula(table, value)
            <==> exists units :: && Derives(table, units, value, false) && |units| >= 2
                                 && (SomeDigits(units) || (SomeLowerCase(units) && !EndsInS(units)))
  {
    forall units | Derives(table, units, value, false) && |units| >= 2
      ensures LooksLikeFormula(value) <==> SomeDigits(units) || (SomeLowerCase(units) && !EndsInS(units))
    {
      DerivedText(table, units, value, false);
      DigitsInText(units);
      EndOfText(units);
    }
  }

  /** A word of capitals alone is no formula, whatever the symbols are. */
  lemma {:induction false} CapitalsAreNoFormula(table: set<string>, value: string)
    requires forall k :: 0 <= k < |value| ==> IsUpper(value[k])
    ensures !IsFormula(table, value)
  {
    FormulaIff(table, value);
    forall units | Derives(table, units, value, false)
      ensures !SomeDigits(units) && !SomeLowerCase(units)
    {
      DerivedText(table, units, value, false);
      DigitsInText(units);
    }
  }

  /** The symbols of a word that has a derivation are in the table. */
  lemma {:induction false} SymbolsAreInTable(table: set<string>, units: seq<Unit>, text: string, afterDigit: bool)
    requires Derives(table, units, text, afterDigit)
    ensures forall symbol :: symbol in Symbols(units) ==> symbol in table
    decreases |units|
  {
    if units != [] {
      var unit := units[0];
      SymbolsAreInTable(table, units[1..], text[|unit.letters| + |unit.digits|..], unit.digits != "");
      assert Symbols(units) == [Symbol(unit)] + Symbols(units[1..]);
    }
  }

  /** A lower-case letter stands for a symbol of its own only right after a digit. */
  lemma {:induction false} LoneLowerCase(table: set<string>, units: seq<Unit>, text: string, afterDigit: bool, k: nat)
    requires Derives(table, units, text, afterDigit) && k < |units|
    requires |units[k].letters| == 1 && IsLower(units[k].letters[0])
    ensures if k == 0 then afterDigit else units[k - 1].digits != ""
    decreases k
  {
    if k > 0 {
      var unit := units[0];
      LoneLowerCase(table, units[1..], text[|unit.letters| + |unit.digits|..], unit.digits != "", k - 1);
    }
  }

  ghost predicate SymbolShape(symbol: string) {
    || (|symbol| == 1 && 'A' <= symbol[0] <= 'Z')
    || (|symbol| == 2 && 'A' <= symbol[0] <= 'Z' && 'a' <= symbol[1] <= 'z')
  }

  /** Any capital, alone or with any lower-case letter, is read as a symbol if the table has it. */
  lemma {:induction false} ShapedIsRead(table: set<string>, symbol: string)
    requires symbol in table && SymbolShape(symbol)
    ensures Derives(table, [Unit(symbol, "")], symbol, false) && Symbols([Unit(symbol, "")]) == [symbol]
  {
    var units := [Unit(symbol, "")];
    assert symbol + "" == symbol && symbol[|symbol|..] == "" && units[1..] == [];
    assert Derives(table, [], "", false);
  }
}
