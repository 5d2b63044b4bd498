/** Small shared vocabulary: an optional value, and prefixes of sequences. */
module Common {
  datatype Option<+T> = None | Some(value: T)

  predicate IsDigit(c: char) { '0' <= c <= '9' }

  predicate AllDigits(text: string) {
    forall k :: 0 <= k < |text| ==> IsDigit(text[k])
  }

  /** A prefix, one element longer. */
  lemma TakeNext<T>(xs: seq<T>, n: nat)
    requires n < |xs|
    ensures xs[..n + 1] == xs[..n] + [xs[n]]
    ensures xs[..n + 1][..n] == xs[..n]
  {
  }

  lemma TakeAll<T>(xs: seq<T>)
    ensures xs[..|xs|] == xs
  {
  }

  /** What follows two prefixes. */
  lemma AfterPrefixes<T>(a: seq<T>, b: seq<T>, xs: seq<T>)
    requires a + b <= xs
    ensures xs[|a|..] == b + xs[|a| + |b|..] && xs == a + b + xs[|a| + |b|..]
  {
    assert xs[..|a| + |b|] == a + b;
  }

  /** A suffix, cut at two places. */
  lemma CutSuffix<T>(xs: seq<T>, from: nat, mid: nat, to: nat)
    requires from <= mid <= to <= |xs|
    ensures xs[from..] == xs[from..mid] + xs[mid..to] + xs[to..]
  {
  }

  /** A sequence without one of its elements. */
  lemma TakeOut<T>(xs: seq<T>, at: nat)
    requires at < |xs|
    ensures multiset(xs[..at] + xs[at + 1..]) == multiset(xs) - multiset{xs[at]}
  {
    assert xs == xs[..at] + [xs[at]] + xs[at + 1..];
  }

  /** Of two orders of the same elements: where the last of the first stands in the second, and the rest. */
  lemma LastOfOther<T>(a: seq<T>, b: seq<T>) returns (at: nat)
    requires a != [] && multiset(a) == multiset(b)
    ensures at < |b| && b[at] == a[|a| - 1]
    ensures multiset(a[..|a| - 1]) == multiset(b[..at] + b[at + 1..])
  {
    at := PlaceIn(a[|a| - 1], a, b);
    TakeOut(b, at);
    TakeOut(a, |a| - 1);
    assert a[..|a| - 1] + a[|a| - 1 + 1..] == a[..|a| - 1];
  }

  lemma PlaceIn<T>(x: T, a: seq<T>, b: seq<T>) returns (at: nat)
    requires x in a && multiset(a) == multiset(b)
    ensures at < |b| && b[at] == x
  {
    assert x in multiset(a) && x in multiset(b);
    at :| 0 <= at < |b| && b[at] == x;
  }

  /** No element occurs twice. */
  ghost predicate Distinct<T>(xs: seq<T>) {
    forall i, j :: 0 <= i < j < |xs| ==> xs[i] != xs[j]
  }

  lemma DistinctConcat<T>(a: seq<T>, b: seq<T>)
    ensures Distinct(a + b) <==> Distinct(a) && Distinct(b) && forall k :: 0 <= k < |a| ==> a[k] !in b
  {
    var ab := a + b;
    if Distinct(ab) {
      forall i, j | 0 <= i < j < |a|
        ensures a[i] != a[j]
      {
        assert ab[i] == a[i] && ab[j] == a[j];
      }
      forall i, j | 0 <= i < j < |b|
        ensures b[i] != b[j]
      {
        assert ab[|a| + i] == b[i] && ab[|a| + j] == b[j];
      }
      forall i, j | 0 <= i < |a| && 0 <= j < |b|
        ensures a[i] != b[j]
      {
        assert ab[i] == a[i] && ab[|a| + j] == b[j];
      }
    }
    if Distinct(a) && Distinct(b) && forall k :: 0 <= k < |a| ==> a[k] !in b {
      forall i, j | 0 <= i < j < |ab|
        ensures ab[i] != ab[j]
      {
        if i < |a| <= j {
          assert a[i] !in b && b[j - |a|] in b;
        }
      }
    }
  }

  lemma DistinctSnoc<T>(init: seq<T>, last: T)
    ensures Distinct(init + [last]) <==> Distinct(init) && last !in init
  {
    DistinctConcat(init, [last]);
    assert last in [last];
    assert forall k :: 0 <= k < |init| ==> (init[k] in [last] <==> init[k] == last);
  }

  function Elements(codes: seq<string>): set<string> {
    set c | c in codes
  }

  /** Distinctness, as it is checked: the set of the codes is as large as the list. */
  lemma {:induction false} SetSizeIff(codes: seq<string>)
    ensures |Elements(codes)| <= |codes|
    ensures |Elements(codes)| == |codes| <==> Distinct(codes)
  {
    if codes != [] {
      var init, last := codes[..|codes| - 1], codes[|codes| - 1];
      SetSizeIff(init);
      assert Elements(codes) == Elements(init) + {last};
      assert Distinct(codes) <==> Distinct(init) && last !in init;
    }
  }

  lemma DistinctPlaces(codes: seq<string>, k: nat, l: nat)
    requires Distinct(codes) && k < |codes| && l < |codes|
    ensures codes[k] == codes[l] ==> k == l
  {
  }
}
