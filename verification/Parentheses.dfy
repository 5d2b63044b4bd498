/**
  The stack-based parenthesis matcher of scripts/catalog/product-translation-structure.ts.

  The matcher is a loop over a mutable stack; what it returns is characterised without a
  stack, by the height of the text: a reported segment is exactly a pair of brackets with
  a parenthesis-balanced text between them.
*/
module Parentheses {

  /** A segment reported by the matcher: `text[open]` is "(" and `text[close]` is ")". */
  datatype Pair = Pair(open: nat, close: nat)

  /** A substring together with the place where it starts. */
  datatype LocatedTerm = LocatedTerm(value: string, index: nat)

  /** Opening minus closing parentheses in the first `n` characters. */
  ghost function Height(text: string, n: nat): int
    requires n <= |text|
  {
    if n == 0 then 0
    else Height(text, n - 1) + (if text[n - 1] == '(' then 1 else if text[n - 1] == ')' then -1 else 0)
  }

  /** `text[from..to]` is balanced: it never closes more than it opened, and ends level. */
  ghost predicate Balanced(text: string, from: nat, to: nat)
    requires from <= to <= |text|
  {
    && Height(text, to) == Height(text, from)
    && forall m :: from <= m <= to ==> Height(text, m) >= Height(text, from)
  }

  /** What a reported pair is: matching brackets around a balanced text. */
  ghost predicate IsMatch(text: string, p: Pair) {
    && p.open < p.close < |text|
    && text[p.open] == '(' && text[p.close] == ')'
    && Balanced(text, p.open + 1, p.close)
  }

  /** The bracket at `open` is still unclosed after the first `n` characters. */
  ghost predicate StillOpen(text: string, open: nat, n: nat)
    requires n <= |text|
  {
    && open < n && text[open] == '('
    && forall m :: open < m <= n ==> Height(text, m) > Height(text, open)
  }

  /** The stack holds exactly the brackets that are still open, oldest first, one level apart. */
  ghost predicate StackOf(text: string, starts: seq<nat>, n: nat)
    requires n <= |text|
  {
    && (forall k :: 0 <= k < |starts| ==> StillOpen(text, starts[k], n))
    && (forall open: nat :: StillOpen(text, open, n) ==> open in starts)
    && (forall k :: 0 <= k < |starts| - 1 ==>
          starts[k] < starts[k + 1] && Height(text, starts[k + 1]) == Height(text, starts[k]) + 1)
    && (|starts| > 0 ==> Height(text, n) == Height(text, starts[|starts| - 1]) + 1)
  }

  /** The pairs of the segments in `text[..n]`, each once, by increasing closing position. */
  ghost predicate MatchesUpTo(text: string, pairs: seq<Pair>, n: nat) {
    && (forall k :: 0 <= k < |pairs| ==> IsMatch(text, pairs[k]) && pairs[k].close < n)
    && (forall p :: IsMatch(text, p) && p.close < n ==> p in pairs)
    && (forall i, j :: 0 <= i < j < |pairs| ==> pairs[i].close < pairs[j].close)
  }

  lemma {:induction false} StackHeights(text: string, starts: seq<nat>, n: nat, i: nat, j: nat)
    requires n <= |text| && StackOf(text, starts, n)
    requires i <= j < |starts|
    ensures Height(text, starts[j]) == Height(text, starts[i]) + (j - i)
    ensures starts[i] <= starts[j]
    decreases j - i
  {
    if i < j {
      StackHeights(text, starts, n, i, j - 1);
      assert starts[j - 1] < starts[j - 1 + 1];
    }
  }

  /** After a "(" the open brackets are the ones before it, and the new one. */
  lemma OpenAfterPush(text: string, n: nat, open: nat)
    requires n < |text| && text[n] == '('
    ensures StillOpen(text, open, n + 1) <==> StillOpen(text, open, n) || open == n
  {
    assert Height(text, n + 1) == Height(text, n) + 1;
    if StillOpen(text, open, n) {
      assert Height(text, n) > Height(text, open);
    }
  }

  lemma PushKeepsStack(text: string, starts: seq<nat>, n: nat)
    requires n < |text| && text[n] == '(' && StackOf(text, starts, n)
    ensures StackOf(text, starts + [n], n + 1)
  {
    var grown := starts + [n];
    forall open: nat
      ensures StillOpen(text, open, n + 1) <==> open in grown
    {
      OpenAfterPush(text, n, open);
      assert open in grown <==> open in starts || open == n;
    }
    if |starts| > 0 {
      assert StillOpen(text, starts[|starts| - 1], n);
    }
  }

  /** What is still open after a closing bracket was open before it, below the top of the stack. */
  lemma PoppedIsRest(text: string, starts: seq<nat>, n: nat, open: nat)
    requires n < |text| && text[n] == ')' && StackOf(text, starts, n) && |starts| > 0
    requires StillOpen(text, open, n + 1)
    ensures open in starts[..|starts| - 1]
  {
    var last := |starts| - 1;
    assert StillOpen(text, starts[last], n);
    assert Height(text, n + 1) == Height(text, starts[last]);
    assert open != n;
    assert StillOpen(text, open, n);
    var k :| 0 <= k < |starts| && starts[k] == open;
    assert k != last;
    assert starts[..last][k] == open;
  }

  lemma PopKeepsStack(text: string, starts: seq<nat>, n: nat)
    requires n < |text| && text[n] == ')' && StackOf(text, starts, n) && |starts| > 0
    ensures StackOf(text, starts[..|starts| - 1], n + 1)
    ensures IsMatch(text, Pair(starts[|starts| - 1], n))
  {
    var last := |starts| - 1;
    var rest := starts[..last];
    var top := starts[last];
    assert StillOpen(text, top, n);
    forall k | 0 <= k < |rest|
      ensures StillOpen(text, rest[k], n + 1)
    {
      assert StillOpen(text, starts[k], n);
      StackHeights(text, starts, n, k, last);
    }
    forall open: nat | StillOpen(text, open, n + 1)
      ensures open in rest
    {
      PoppedIsRest(text, starts, n, open);
    }
    if |rest| > 0 {
      assert Height(text, starts[last - 1 + 1]) == Height(text, starts[last - 1]) + 1;
    }
    assert Height(text, top + 1) == Height(text, top) + 1;
  }

  /** Characters that close nothing keep the stack: other characters, and an unmatched ")". */
  lemma SkipKeepsStack(text: string, starts: seq<nat>, n: nat)
    requires n < |text| && StackOf(text, starts, n)
    requires text[n] != '(' && (text[n] == ')' ==> starts == [])
    ensures StackOf(text, starts, n + 1)
  {
    forall k | 0 <= k < |starts|
      ensures StillOpen(text, starts[k], n + 1)
    {
      assert StillOpen(text, starts[k], n);
    }
    forall open: nat | StillOpen(text, open, n + 1)
      ensures open in starts
    {
      assert open != n;
      assert StillOpen(text, open, n);
    }
  }

  /** A match that closes at `n` closes the bracket on top of the stack. */
  lemma MatchClosesTop(text: string, starts: seq<nat>, n: nat, p: Pair)
    requires n < |text| && StackOf(text, starts, n)
    requires IsMatch(text, p) && p.close == n
    ensures |starts| > 0 && p.open == starts[|starts| - 1]
  {
    assert Height(text, p.open + 1) == Height(text, p.open) + 1;
    assert StillOpen(text, p.open, n);
    var k :| 0 <= k < |starts| && starts[k] == p.open;
    StackHeights(text, starts, n, k, |starts| - 1);
  }

  /** Closing the bracket on top of the stack adds the one match that ends here. */
  lemma CloseAddsMatch(text: string, starts: seq<nat>, pairs: seq<Pair>, n: nat)
    requires n < |text| && text[n] == ')' && StackOf(text, starts, n) && |starts| > 0
    requires MatchesUpTo(text, pairs, n)
    ensures MatchesUpTo(text, pairs + [Pair(starts[|starts| - 1], n)], n + 1)
  {
    var added := Pair(starts[|starts| - 1], n);
    var grown := pairs + [added];
    PopKeepsStack(text, starts, n);
    forall p | IsMatch(text, p) && p.close < n + 1
      ensures p in grown
    {
      if p.close == n {
        MatchClosesTop(text, starts, n, p);
        assert grown[|pairs|] == p;
      } else {
        assert p in pairs;
      }
    }
  }

  /** Where no bracket is closed, no match ends. */
  lemma SkipAddsNoMatch(text: string, starts: seq<nat>, pairs: seq<Pair>, n: nat)
    requires n < |text| && StackOf(text, starts, n)
    requires text[n] == ')' ==> starts == []
    requires MatchesUpTo(text, pairs, n)
    ensures MatchesUpTo(text, pairs, n + 1)
  {
    forall p | IsMatch(text, p) && p.close < n + 1
      ensures p in pairs
    {
      if p.close == n {
        MatchClosesTop(text, starts, n, p);
      }
    }
  }

  /** The text strictly between the brackets of `p`, located after the opening bracket. */
  function Segment(text: string, p: Pair): LocatedTerm
    requires p.open < p.close <= |text|
  {
    LocatedTerm(text[p.open + 1..p.close], p.open + 1)
  }

  /** `segments` are the texts of `pairs`, in the same order. */
  ghost predicate SegmentsOf(text: string, segments: seq<LocatedTerm>, pairs: seq<Pair>) {
    && |segments| == |pairs|
    && forall k :: 0 <= k < |pairs| ==>
         pairs[k].open < pairs[k].close <= |text| && segments[k] == Segment(text, pairs[k])
  }

  lemma SegmentsGrow(text: string, segments: seq<LocatedTerm>, pairs: seq<Pair>, p: Pair)
    requires SegmentsOf(text, segments, pairs) && p.open < p.close <= |text|
    ensures SegmentsOf(text, segments + [Segment(text, p)], pairs + [p])
  {
  }

  /** The segments of all matching pairs of the text, by increasing closing position. */
  ghost predicate Reported(text: string, segments: seq<LocatedTerm>) {
    exists pairs :: MatchesUpTo(text, pairs, |text|) && SegmentsOf(text, segments, pairs)
  }

  lemma PairsAreReported(text: string, segments: seq<LocatedTerm>, pairs: seq<Pair>)
    requires MatchesUpTo(text, pairs, |text|) && SegmentsOf(text, segments, pairs)
    ensures Reported(text, segments)
  {
  }

  /** A "(" goes onto the stack. */
  method OpenSegment(text: string, starts: seq<nat>, ghost pairs: seq<Pair>, index: nat) returns (pushed: seq<nat>)
    requires index < |text| && text[index] == '('
    requires StackOf(text, starts, index) && MatchesUpTo(text, pairs, index)
    ensures StackOf(text, pushed, index + 1) && MatchesUpTo(text, pairs, index + 1)
  {
    PushKeepsStack(text, starts, index);
    SkipAddsNoMatch(text, starts, pairs, index);
    pushed := starts + [index];
  }

  /** A ")" that closes a segment: the top of the stack goes, and the segment comes. */
  method CloseSegment(text: string, starts: seq<nat>, segments: seq<LocatedTerm>, ghost pairs: seq<Pair>, index: nat)
    returns (rest: seq<nat>, grown: seq<LocatedTerm>, ghost more: seq<Pair>)
    requires index < |text| && text[index] == ')' && |starts| > 0
    requires StackOf(text, starts, index) && MatchesUpTo(text, pairs, index) && SegmentsOf(text, segments, pairs)
    ensures StackOf(text, rest, index + 1) && MatchesUpTo(text, more, index + 1) && SegmentsOf(text, grown, more)
  {
    var start := starts[|starts| - 1];
    PopKeepsStack(text, starts, index);
    CloseAddsMatch(text, starts, pairs, index);
    SegmentsGrow(text, segments, pairs, Pair(start, index));
    rest := starts[..|starts| - 1];
    grown := segments + [LocatedTerm(text[start + 1..index], start + 1)];
    more := pairs + [Pair(start, index)];
  }

  /**
    The matcher returns exactly the matching pairs, each once, in increasing order of the
    closing bracket, as the text strictly between the brackets and where it starts.
  */
  method ParentheticalSegments(text: string) returns (segments: seq<LocatedTerm>)
    ensures Reported(text, segments)
  {
    segments := [];
    ghost var pairs: seq<Pair> := [];
    var starts: seq<nat> := [];
    for index := 0 to |text|
      invariant StackOf(text, starts, index)
      invariant MatchesUpTo(text, pairs, index)
      invariant SegmentsOf(text, segments, pairs)
    {
      if text[index] == '(' {
        starts := OpenSegment(text, starts, pairs, index);
      } else if text[index] == ')' && |starts| > 0 {
        starts, segments, pairs := CloseSegment(text, starts, segments, pairs, index);
      } else {
        SkipAddsNoMatch(text, starts, pairs, index);
        SkipKeepsStack(text, starts, index);
      }
    }
    PairsAreReported(text, segments, pairs);
  }

  /** Two lists of the same pairs, both by increasing closing position, are the same list. */
  lemma {:induction false} SamePairs(a: seq<Pair>, b: seq<Pair>, n: nat)
    requires n <= |a| && forall p :: p in a <==> p in b
    requires forall i, j :: 0 <= i < j < |a| ==> a[i].close < a[j].close
    requires forall i, j :: 0 <= i < j < |b| ==> b[i].close < b[j].close
    ensures n <= |b| && a[..n] == b[..n]
  {
    if n > 0 {
      SamePairs(a, b, n - 1);
      assert forall k :: 0 <= k < n - 1 ==> a[k] == a[..n - 1][k] == b[k];
      assert a[n - 1] in a;
      var j :| 0 <= j < |b| && b[j] == a[n - 1];
      assert j >= n - 1;
      assert b[n - 1] in b;
      var l :| 0 <= l < |a| && a[l] == b[n - 1];
      assert l >= n - 1;
      assert a[n - 1] == b[n - 1];
    }
  }

  lemma MatchedPairsAreUnique(text: string, a: seq<Pair>, b: seq<Pair>)
    requires MatchesUpTo(text, a, |text|) && MatchesUpTo(text, b, |text|)
    ensures a == b
  {
    forall p
      ensures p in a <==> p in b
    {
      if p in a {
        var k :| 0 <= k < |a| && a[k] == p;
      }
      if p in b {
        var k :| 0 <= k < |b| && b[k] == p;
      }
    }
    SamePairs(a, b, |a|);
    SamePairs(b, a, |b|);
  }

  /** A text has only one such list of segments. */
  lemma ReportedIsUnique(text: string, a: seq<LocatedTerm>, b: seq<LocatedTerm>)
    requires Reported(text, a) && Reported(text, b)
    ensures a == b
  {
    var p :| MatchesUpTo(text, p, |text|) && SegmentsOf(text, a, p);
    var q :| MatchesUpTo(text, q, |text|) && SegmentsOf(text, b, q);
    MatchedPairsAreUnique(text, p, q);
  }

  /** Inside a matching pair the text stays above the height at which the pair opened. */
  lemma {:induction false} HeightInside(text: string, p: Pair, m: nat)
    requires IsMatch(text, p) && m <= |text|
    ensures p.open < m <= p.close ==> Height(text, m) > Height(text, p.open)
    ensures Height(text, p.close + 1) == Height(text, p.open)
  {
    assert Height(text, p.open + 1) == Height(text, p.open) + 1;
    assert Height(text, p.close + 1) == Height(text, p.close) - 1;
  }

  /** Any two reported segments are nested or disjoint. */
  lemma NestedOrDisjoint(text: string, p: Pair, q: Pair)
    requires IsMatch(text, p) && IsMatch(text, q) && p.close < q.close
    ensures p.close < q.open || q.open < p.open
  {
    HeightInside(text, p, q.open);
    HeightInside(text, q, p.close + 1);
  }

  /** Which bracket another one is paired with is a matter of the text alone. */
  lemma MatchIsUnique(text: string, p: Pair, q: Pair)
    requires IsMatch(text, p) && IsMatch(text, q)
    requires p.open == q.open || p.close == q.close
    ensures p == q
  {
    HeightInside(text, p, q.open);
    HeightInside(text, p, q.close + 1);
    HeightInside(text, q, p.open);
    HeightInside(text, q, p.close + 1);
  }

  /**
    A ")" closes a segment exactly when the text was, at some earlier point, no higher than it is
    right after the bracket; so an unmatched ")" yields nothing, and no other one is passed over.
  */
  lemma {:induction false} ClosesSegmentIff(text: string, at: nat)
    requires at < |text| && text[at] == ')'
    ensures (exists p :: IsMatch(text, p) && p.close == at)
            <==> (exists m :: 0 <= m <= at && Height(text, m) <= Height(text, at + 1))
  {
    if p :| IsMatch(text, p) && p.close == at {
      HeightInside(text, p, at);
      assert Height(text, p.open) <= Height(text, at + 1);
    }
    if m :| 0 <= m <= at && Height(text, m) <= Height(text, at + 1) {
      OpenerOf(text, at, m);
    }
  }

  lemma {:induction false} OpenerOf(text: string, at: nat, m: nat)
    requires m <= at < |text| && text[at] == ')' && Height(text, m) <= Height(text, at + 1)
    ensures exists p :: IsMatch(text, p) && p.close == at
    decreases at - m
  {
    if later :| m < later <= at && Height(text, later) <= Height(text, at + 1) {
      OpenerOf(text, at, later);
    } else {
      assert Height(text, at + 1) == Height(text, at) - 1;
      assert Height(text, m + 1) > Height(text, at + 1);
      assert IsMatch(text, Pair(m, at));
    }
  }

  /** A "(" opens a segment exactly when the text later comes back down to where it was before it. */
  lemma {:induction false} OpensSegmentIff(text: string, at: nat)
    requires at < |text| && text[at] == '('
    ensures (exists p :: IsMatch(text, p) && p.open == at)
            <==> (exists m :: at < m <= |text| && Height(text, m) <= Height(text, at))
  {
    if p :| IsMatch(text, p) && p.open == at {
      HeightInside(text, p, at);
      assert Height(text, p.close + 1) <= Height(text, at);
    }
    if m :| at < m <= |text| && Height(text, m) <= Height(text, at) {
      CloserOf(text, at, m);
    }
  }

  lemma {:induction false} CloserOf(text: string, at: nat, m: nat)
    requires at < m <= |text| && text[at] == '(' && Height(text, m) <= Height(text, at)
    ensures exists p :: IsMatch(text, p) && p.open == at
    decreases m
  {
    if earlier :| at < earlier < m && Height(text, earlier) <= Height(text, at) {
      CloserOf(text, at, earlier);
    } else {
      assert Height(text, at + 1) == Height(text, at) + 1;
      assert Height(text, m - 1) > Height(text, at);
      assert IsMatch(text, Pair(at, m - 1));
    }
  }

  // ---------- Segments, by their text ----------

  /** Opening minus closing parentheses of a text. */
  ghost function Surplus(text: string): int {
    if text == "" then 0
    else Surplus(text[..|text| - 1]) + Step(text[|text| - 1])
  }

  ghost function Step(c: char): int {
    if c == '(' then 1 else if c == ')' then -1 else 0
  }

  /** As many brackets are closed as opened, and never more so far. */
  ghost predicate BalancedText(text: string) {
    Surplus(text) == 0 && forall m :: 0 <= m <= |text| ==> Surplus(text[..m]) >= 0
  }

  /** A balanced text with a bracket right before it and one right behind it. */
  ghost predicate StandsBetweenBrackets(text: string, t: LocatedTerm) {
    && 0 < t.index && t.index + |t.value| < |text|
    && text[t.index - 1] == '(' && text[t.index + |t.value|] == ')'
    && t.value == text[t.index..t.index + |t.value|] && BalancedText(t.value)
  }

  lemma {:induction false} HeightOfPart(text: string, from: nat, to: nat)
    requires from <= to <= |text|
    ensures Height(text, to) == Height(text, from) + Surplus(text[from..to])
  {
    if from < to {
      HeightOfPart(text, from, to - 1);
      assert text[from..to][..to - from - 1] == text[from..to - 1];
    }
  }

  lemma {:induction false} BalancedIff(text: string, from: nat, to: nat)
    requires from <= to <= |text|
    ensures Balanced(text, from, to) <==> BalancedText(text[from..to])
  {
    var part := text[from..to];
    HeightOfPart(text, from, to);
    forall m | from <= m <= to
      ensures Height(text, m) == Height(text, from) + Surplus(part[..m - from])
    {
      HeightOfPart(text, from, m);
      assert part[..m - from] == text[from..m];
    }
    forall m | 0 <= m <= |part|
      ensures Height(text, from + m) == Height(text, from) + Surplus(part[..m])
    {
      assert part[..from + m - from] == part[..m];
    }
  }

  lemma MatchIff(text: string, t: LocatedTerm)
    ensures StandsBetweenBrackets(text, t)
            <==> 0 < t.index && IsMatch(text, Pair(t.index - 1, t.index + |t.value|))
                 && t == Segment(text, Pair(t.index - 1, t.index + |t.value|))
  {
    if 0 < t.index && t.index + |t.value| < |text| {
      BalancedIff(text, t.index, t.index + |t.value|);
    }
  }

  lemma ReportedStands(text: string, segments: seq<LocatedTerm>, pairs: seq<Pair>, k: nat)
    requires MatchesUpTo(text, pairs, |text|) && SegmentsOf(text, segments, pairs) && k < |segments|
    ensures StandsBetweenBrackets(text, segments[k])
  {
    var t := segments[k];
    assert IsMatch(text, pairs[k]) && t == Segment(text, pairs[k]);
    assert pairs[k] == Pair(t.index - 1, t.index + |t.value|);
    MatchIff(text, t);
  }

  lemma StandingIsReported(text: string, segments: seq<LocatedTerm>, pairs: seq<Pair>, t: LocatedTerm)
    requires MatchesUpTo(text, pairs, |text|) && SegmentsOf(text, segments, pairs) && StandsBetweenBrackets(text, t)
    ensures t in segments
  {
    var p := Pair(t.index - 1, t.index + |t.value|);
    MatchIff(text, t);
    assert p in pairs;
    var k :| 0 <= k < |pairs| && pairs[k] == p;
    assert segments[k] == t;
  }

  /** What is reported are exactly the balanced texts between two brackets, at their places. */
  lemma SegmentIff(text: string, segments: seq<LocatedTerm>, t: LocatedTerm)
    requires Reported(text, segments)
    ensures t in segments <==> StandsBetweenBrackets(text, t)
  {
    var pairs :| MatchesUpTo(text, pairs, |text|) && SegmentsOf(text, segments, pairs);
    if t in segments {
      var k :| 0 <= k < |segments| && segments[k] == t;
      ReportedStands(text, segments, pairs, k);
    }
    if StandsBetweenBrackets(text, t) {
      StandingIsReported(text, segments, pairs, t);
    }
  }
}
