/**
  `GROUP BY` with `SUM`, as a fold: the first row of a group opens it, later rows add to it.
*/
module GroupTotals {

  /** A keyed amount: a row to be grouped, or a group with its total. */
  datatype Entry<K> = Entry(key: K, amount: int)

  /** The sum of the amounts whose key satisfies `where`. */
  ghost function SumIf<K(!new)>(rows: seq<Entry<K>>, where: K -> bool): int {
    if rows == [] then 0
    else
      var last := rows[|rows| - 1];
      SumIf(rows[..|rows| - 1], where) + if where(last.key) then last.amount else 0
  }

  /** The selection of a single key. */
  ghost function Only<K(!new)>(key: K): K -> bool {
    k => k == key
  }

  predicate HasKey<K(==)>(rows: seq<Entry<K>>, key: K) {
    exists k | 0 <= k < |rows| :: rows[k].key == key
  }

  /** Adds an amount to the group of `key`, or opens the group at the end. */
  function Upsert<K(==)>(groups: seq<Entry<K>>, key: K, amount: int): seq<Entry<K>> {
    if groups == [] then [Entry(key, amount)]
    else if groups[0].key == key then [Entry(key, groups[0].amount + amount)] + groups[1..]
    else [groups[0]] + Upsert(groups[1..], key, amount)
  }

  function GroupBy<K(==)>(rows: seq<Entry<K>>): seq<Entry<K>> {
    if rows == [] then []
    else
      var last := rows[|rows| - 1];
      Upsert(GroupBy(rows[..|rows| - 1]), last.key, last.amount)
  }

  ghost predicate DistinctKeys<K>(groups: seq<Entry<K>>) {
    forall i, j :: 0 <= i < j < |groups| ==> groups[i].key != groups[j].key
  }

  lemma {:induction false} SumIfConcat<K(!new)>(left: seq<Entry<K>>, right: seq<Entry<K>>, where: K -> bool)
    ensures SumIf(left + right, where) == SumIf(left, where) + SumIf(right, where)
  {
    if right == [] {
      assert left + right == left;
    } else {
      var init := right[..|right| - 1];
      assert (left + right)[..|left + right| - 1] == left + init;
      SumIfConcat(left, init, where);
    }
  }

  lemma {:induction false} UpsertSums<K(!new)>(groups: seq<Entry<K>>, key: K, amount: int, where: K -> bool)
    ensures SumIf(Upsert(groups, key, amount), where) == SumIf(groups, where) + if where(key) then amount else 0
  {
    if groups != [] {
      var head, tail := groups[0], groups[1..];
      assert groups == [head] + tail;
      SumIfConcat([head], tail, where);
      assert [head][..0] == [];
      if head.key == key {
        var grown := Entry(key, head.amount + amount);
        SumIfConcat([grown], tail, where);
        assert [grown][..0] == [];
      } else {
        UpsertSums(tail, key, amount, where);
        SumIfConcat([head], Upsert(tail, key, amount), where);
      }
    } else {
      assert [Entry(key, amount)][..0] == [];
    }
  }

  lemma {:induction false} UpsertKeys<K(!new)>(groups: seq<Entry<K>>, key: K, amount: int)
    requires DistinctKeys(groups)
    ensures DistinctKeys(Upsert(groups, key, amount))
    ensures forall k :: HasKey(Upsert(groups, key, amount), k) <==> HasKey(groups, k) || k == key
  {
    var grown := Upsert(groups, key, amount);
    if groups == [] {
      assert grown[0].key == key;
    } else if groups[0].key == key {
      assert forall i :: 0 <= i < |groups| ==> grown[i].key == groups[i].key;
    } else {
      var tail := groups[1..];
      UpsertKeys(tail, key, amount);
      var grownTail := Upsert(tail, key, amount);
      HeadAndTailKeys(groups);
      HeadAndTailKeys(grown);
      assert grown[1..] == grownTail;
      assert !HasKey(tail, groups[0].key);
      assert forall j :: 0 < j < |grown| ==> grown[j] == grownTail[j - 1] && HasKey(grownTail, grown[j].key);
    }
  }

  lemma HeadAndTailKeys<K(!new)>(groups: seq<Entry<K>>)
    requires groups != []
    ensures forall k :: HasKey(groups, k) <==> groups[0].key == k || HasKey(groups[1..], k)
    ensures DistinctKeys(groups) ==> DistinctKeys(groups[1..]) && !HasKey(groups[1..], groups[0].key)
  {
    forall k
      ensures HasKey(groups, k) <==> groups[0].key == k || HasKey(groups[1..], k)
    {
      if i :| 0 < i < |groups| && groups[i].key == k {
        assert groups[1..][i - 1].key == k;
      }
      if i :| 0 <= i < |groups[1..]| && groups[1..][i].key == k {
        assert groups[i + 1].key == k;
      }
    }
  }

  /**
    Grouping gives each key that occurs one group, and loses nothing: over any selection of keys the
    groups add up to what the rows add up to.
  */
  lemma {:induction false} GroupByIsExact<K(!new)>(rows: seq<Entry<K>>)
    ensures DistinctKeys(GroupBy(rows))
    ensures forall k :: HasKey(GroupBy(rows), k) <==> HasKey(rows, k)
    ensures forall where: K -> bool :: SumIf(GroupBy(rows), where) == SumIf(rows, where)
  {
    if rows != [] {
      var init, last := rows[..|rows| - 1], rows[|rows| - 1];
      GroupByIsExact(init);
      UpsertKeys(GroupBy(init), last.key, last.amount);
      forall k
        ensures HasKey(rows, k) <==> HasKey(init, k) || k == last.key
      {
        if i :| 0 <= i < |init| && init[i].key == k {
          assert rows[i].key == k;
        }
        assert rows[|rows| - 1].key == last.key;
      }
      forall where: K -> bool
        ensures SumIf(GroupBy(rows), where) == SumIf(rows, where)
      {
        UpsertSums(GroupBy(init), last.key, last.amount, where);
      }
    }
  }

  /** Each group's amount is the sum over the rows of its key. */
  lemma {:induction false} GroupAmount<K(!new)>(rows: seq<Entry<K>>, at: nat)
    requires at < |GroupBy(rows)|
    ensures var group := GroupBy(rows)[at];
            group.amount == SumIf(rows, Only(group.key))
  {
    var groups := GroupBy(rows);
    var where := Only(groups[at].key);
    GroupByIsExact(rows);
    assert SumIf(groups, where) == SumIf(rows, where);
    OnlyOneKey(groups, at, |groups|);
    assert groups[..|groups|] == groups;
  }

  lemma {:induction false} OnlyOneKey<K(!new)>(groups: seq<Entry<K>>, at: nat, n: nat)
    requires DistinctKeys(groups) && at < |groups| && n <= |groups|
    ensures SumIf(groups[..n], Only(groups[at].key)) == if at < n then groups[at].amount else 0
  {
    if n > 0 {
      OnlyOneKey(groups, at, n - 1);
      assert groups[..n][..n - 1] == groups[..n - 1];
    }
  }
}
