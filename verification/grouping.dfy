/** pandas' `groupby(key)[column].sum()`: one total per distinct key. */
module Grouping {
  import opened Tables
  import opened Sorting

  /** Adds `t.count` to the total of every group keyed `t.key`. */
  function Bump<K(==)>(groups: seq<Tally<K>>, t: Tally<K>): (r: seq<Tally<K>>)
    ensures |r| == |groups|
  {
    if |groups| == 0 then []
    else
      var g := groups[0];
      [if g.key == t.key then Tally(g.key, g.count + t.count) else g] + Bump(groups[1..], t)
  }

  /** Folds one row into the groups: bumps its group, or opens a new one. */
  function AddTo<K(==)>(groups: seq<Tally<K>>, t: Tally<K>): seq<Tally<K>>
  {
    if t.key in Keys(groups) then Bump(groups, t) else [t] + groups
  }

  /** One group per distinct key of `rows`, in order of last occurrence,
      each holding the sum of that key's counts. */
  function GroupSum<K(==)>(rows: seq<Tally<K>>): (groups: seq<Tally<K>>)
    ensures DistinctKeys(groups)
    ensures Keys(groups) == Keys(rows)
    ensures forall i :: 0 <= i < |groups| ==> groups[i].count == SumFor(rows, groups[i].key)
  {
    if |rows| == 0 then []
    else
      var rest := GroupSum(rows[1..]);
      AddToKeepsGroups(rest, rows);
      AddTo(rest, rows[0])
  }

  lemma {:induction false} BumpKeys<K>(groups: seq<Tally<K>>, t: Tally<K>)
    ensures Keys(Bump(groups, t)) == Keys(groups)
  {
    if |groups| > 0 {
      BumpKeys(groups[1..], t);
      KeysCons(groups);
      KeysCons(Bump(groups, t));
    }
  }

  /** Folding `rows[0]` into the groups of `rows[1..]` gives the groups of `rows`. */
  lemma {:induction false} AddToKeepsGroups<K>(groups: seq<Tally<K>>, rows: seq<Tally<K>>)
    requires |rows| > 0
    requires DistinctKeys(groups)
    requires Keys(groups) == Keys(rows[1..])
    requires forall i :: 0 <= i < |groups| ==> groups[i].count == SumFor(rows[1..], groups[i].key)
    ensures DistinctKeys(AddTo(groups, rows[0]))
    ensures Keys(AddTo(groups, rows[0])) == Keys(rows)
    ensures forall i :: 0 <= i < |AddTo(groups, rows[0])| ==>
      AddTo(groups, rows[0])[i].count == SumFor(rows, AddTo(groups, rows[0])[i].key)
  {
    var t := rows[0];
    var r := AddTo(groups, t);
    KeysCons(rows);
    if t.key in Keys(groups) {
      BumpKeys(groups, t);
      forall i | 0 <= i < |r| ensures r[i].key == groups[i].key && r[i].count == SumFor(rows, r[i].key) {
        BumpAt(groups, t, i);
      }
    } else {
      KeysMember(groups, t.key);
      KeysCons(r);
      assert r[1..] == groups;
      SumForAbsent(rows[1..], t.key);
      forall i | 0 <= i < |r| ensures r[i].count == SumFor(rows, r[i].key) {
        if i > 0 {
          assert r[i] == groups[i - 1];
        }
      }
    }
  }

  lemma {:induction false} BumpAt<K>(groups: seq<Tally<K>>, t: Tally<K>, i: int)
    requires 0 <= i < |groups|
    ensures Bump(groups, t)[i] ==
      if groups[i].key == t.key then Tally(t.key, groups[i].count + t.count) else groups[i]
  {
    if i > 0 {
      BumpAt(groups[1..], t, i - 1);
    }
  }

  /** Bumping a key no group has changes nothing. */
  lemma {:induction false} BumpAbsent<K>(groups: seq<Tally<K>>, t: Tally<K>)
    requires t.key !in Keys(groups)
    ensures Bump(groups, t) == groups
  {
    if |groups| > 0 {
      BumpAbsent(groups[1..], t);
    }
  }

  /** There is one group per distinct key. */
  lemma {:induction false} GroupSumSize<K>(rows: seq<Tally<K>>)
    ensures |GroupSum(rows)| == |Keys(rows)|
  {
    DistinctKeysCard(GroupSum(rows));
  }

  /** Grouping loses and invents no cases: the group totals add up to the
      sum of all rows. */
  lemma {:induction false} GroupSumTotal<K>(rows: seq<Tally<K>>)
    ensures Total(GroupSum(rows)) == Total(rows)
  {
    if |rows| > 0 {
      GroupSumTotal(rows[1..]);
      var rest := GroupSum(rows[1..]);
      if rows[0].key in Keys(rest) {
        BumpTotal(rest, rows[0]);
      }
    }
  }

  lemma {:induction false} BumpTotal<K>(groups: seq<Tally<K>>, t: Tally<K>)
    requires DistinctKeys(groups)
    requires t.key in Keys(groups)
    ensures Total(Bump(groups, t)) == Total(groups) + t.count
  {
    DistinctKeysTail(groups);
    if groups[0].key == t.key {
      BumpAbsent(groups[1..], t);
    } else {
      BumpTotal(groups[1..], t);
    }
  }

  /** Sorting groups keeps their keys, their distinctness and their total. */
  lemma {:induction false} InsertKeepsGroups<K>(x: Tally<K>, s: seq<Tally<K>>, before: (Tally<K>, Tally<K>) -> bool)
    ensures Keys(Insert(x, s, before)) == {x.key} + Keys(s)
    ensures Total(Insert(x, s, before)) == x.count + Total(s)
    ensures DistinctKeys(s) && x.key !in Keys(s) ==> DistinctKeys(Insert(x, s, before))
  {
    var r := Insert(x, s, before);
    KeysCons(r);
    if |s| == 0 || !before(s[0], x) {
      assert r[1..] == s;
      if DistinctKeys(s) && x.key !in Keys(s) {
        forall a, b | 0 <= a < b < |r| ensures r[a].key != r[b].key {
          assert r[b] == s[b - 1];
          if a == 0 {
            KeysMember(s, x.key);
          } else {
            assert r[a] == s[a - 1];
          }
        }
      }
    } else {
      var tail := Insert(x, s[1..], before);
      InsertKeepsGroups(x, s[1..], before);
      KeysCons(s);
      assert r[1..] == tail;
      if DistinctKeys(s) && x.key !in Keys(s) {
        DistinctKeysTail(s);
        forall a, b | 0 <= a < b < |r| ensures r[a].key != r[b].key {
          assert r[b] == tail[b - 1];
          if a == 0 {
            KeysMember(tail, s[0].key);
          } else {
            assert r[a] == tail[a - 1];
          }
        }
      }
    }
  }

  lemma {:induction false} SortKeepsGroups<K>(s: seq<Tally<K>>, before: (Tally<K>, Tally<K>) -> bool)
    ensures Keys(Sort(s, before)) == Keys(s)
    ensures Total(Sort(s, before)) == Total(s)
    ensures DistinctKeys(s) ==> DistinctKeys(Sort(s, before))
  {
    if |s| > 0 {
      SortKeepsGroups(s[1..], before);
      InsertKeepsGroups(s[0], Sort(s[1..], before), before);
      KeysCons(s);
      if DistinctKeys(s) {
        DistinctKeysTail(s);
        KeysMember(s[1..], s[0].key);
      }
    }
  }
}
