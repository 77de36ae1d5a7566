/** pandas' `merge(earlier, later, on=key, how='outer')` followed by
    `fillna(0)` on both count columns, and the lookup of one key in the
    result. The same join serves the week-over-week comparison (keyed by
    location and disease) and the year-over-year one (keyed by state). */
module Join {
  import opened Options
  import opened Tables

  /** One joined row: the key, the earlier period's count and the later
      period's count, 0 where that period has no row for the key. */
  datatype Joined<K> = Joined(key: K, before: int, after: int)

  function JoinedKeys<K>(j: seq<Joined<K>>): set<K>
  {
    if |j| == 0 then {} else {j[0].key} + JoinedKeys(j[1..])
  }

  predicate DistinctJoinedKeys<K(==)>(j: seq<Joined<K>>)
  {
    forall a, b :: 0 <= a < b < |j| ==> j[a].key != j[b].key
  }

  /** The rows of `rows` keyed `k`, in order. */
  function Matching<K(==)>(rows: seq<Tally<K>>, k: K): (m: seq<Tally<K>>)
    ensures forall i :: 0 <= i < |m| ==> m[i].key == k
    ensures |m| == 0 <==> k !in Keys(rows)
    ensures |m| > 0 ==> FirstCount(rows, k) == Some(m[0].count)
  {
    if |rows| == 0 then []
    else (if rows[0].key == k then [rows[0]] else []) + Matching(rows[1..], k)
  }

  /** `l` paired with each of its matches on the later side. */
  function PairUp<K>(l: Tally<K>, matches: seq<Tally<K>>): (r: seq<Joined<K>>)
    ensures |r| == |matches|
    ensures forall i :: 0 <= i < |r| ==> r[i] == Joined(l.key, l.count, matches[i].count)
  {
    if |matches| == 0 then []
    else [Joined(l.key, l.count, matches[0].count)] + PairUp(l, matches[1..])
  }

  /** The joined rows an earlier-period row contributes: one per matching
      later row, or a single row whose later count is filled with 0. */
  function JoinRow<K(==)>(l: Tally<K>, later: seq<Tally<K>>): seq<Joined<K>>
  {
    var m := Matching(later, l.key);
    if |m| == 0 then [Joined(l.key, l.count, 0)] else PairUp(l, m)
  }

  /** The rows of the join that have an earlier-period side. */
  function LeftPart<K(==)>(earlier: seq<Tally<K>>, later: seq<Tally<K>>): seq<Joined<K>>
  {
    if |earlier| == 0 then []
    else JoinRow(earlier[0], later) + LeftPart(earlier[1..], later)
  }

  /** The later-period rows whose key the earlier period lacks, with the
      earlier count filled with 0. */
  function RightPart<K(==)>(earlier: seq<Tally<K>>, later: seq<Tally<K>>): seq<Joined<K>>
  {
    if |later| == 0 then []
    else
      (if later[0].key in Keys(earlier) then [] else [Joined(later[0].key, 0, later[0].count)])
      + RightPart(earlier, later[1..])
  }

  /** The full outer join with zero fill. Its keys are exactly the keys of
      either period. */
  function OuterJoin<K(==)>(earlier: seq<Tally<K>>, later: seq<Tally<K>>): (j: seq<Joined<K>>)
    ensures JoinedKeys(j) == Keys(earlier) + Keys(later)
  {
    LeftPartKeys(earlier, later);
    RightPartKeys(earlier, later);
    JoinedKeysAppend(LeftPart(earlier, later), RightPart(earlier, later));
    LeftPart(earlier, later) + RightPart(earlier, later)
  }

  /** The first joined row keyed `k`: filtering the joined table to the
      selection and taking `.values[0]`, which has no value when nothing
      matches. */
  function Select<K(==)>(j: seq<Joined<K>>, k: K): (r: Option<Joined<K>>)
    ensures r.None? <==> k !in JoinedKeys(j)
    ensures r.Some? ==> r.value in j && r.value.key == k
    ensures r.Some? ==> exists i :: 0 <= i < |j| && j[i] == r.value && forall p :: 0 <= p < i ==> j[p].key != k
  {
    if |j| == 0 then None
    else if j[0].key == k then Some(j[0])
    else
      var rest := Select(j[1..], k);
      if rest.Some? then
        var i :| 0 <= i < |j[1..]| && j[1..][i] == rest.value && forall p :: 0 <= p < i ==> j[1..][p].key != k;
        assert j[i + 1] == rest.value;
        assert forall p :: 0 <= p < i + 1 ==> j[p].key != k by {
          forall p | 0 <= p < i + 1 ensures j[p].key != k {
            if p > 0 { assert j[p] == j[1..][p - 1]; }
          }
        }
        rest
      else rest
  }

  lemma {:induction false} JoinedKeysAppend<K>(a: seq<Joined<K>>, b: seq<Joined<K>>)
    ensures JoinedKeys(a + b) == JoinedKeys(a) + JoinedKeys(b)
  {
    if |a| > 0 {
      assert (a + b)[1..] == a[1..] + b;
      JoinedKeysAppend(a[1..], b);
    } else {
      assert a + b == b;
    }
  }

  lemma {:induction false} PairUpKeys<K>(l: Tally<K>, matches: seq<Tally<K>>)
    ensures JoinedKeys(PairUp(l, matches)) == if |matches| == 0 then {} else {l.key}
  {
    if |matches| > 0 {
      PairUpKeys(l, matches[1..]);
    }
  }

  lemma {:induction false} LeftPartKeys<K>(earlier: seq<Tally<K>>, later: seq<Tally<K>>)
    ensures JoinedKeys(LeftPart(earlier, later)) == Keys(earlier)
  {
    if |earlier| > 0 {
      LeftPartKeys(earlier[1..], later);
      PairUpKeys(earlier[0], Matching(later, earlier[0].key));
      JoinedKeysAppend(JoinRow(earlier[0], later), LeftPart(earlier[1..], later));
    }
  }

  lemma {:induction false} RightPartKeys<K>(earlier: seq<Tally<K>>, later: seq<Tally<K>>)
    ensures JoinedKeys(RightPart(earlier, later)) == Keys(later) - Keys(earlier)
  {
    if |later| > 0 {
      RightPartKeys(earlier, later[1..]);
      var head := if later[0].key in Keys(earlier) then [] else [Joined(later[0].key, 0, later[0].count)];
      JoinedKeysAppend(head, RightPart(earlier, later[1..]));
    }
  }

  lemma {:induction false} SelectAppend<K>(a: seq<Joined<K>>, b: seq<Joined<K>>, k: K)
    ensures Select(a + b, k) == if k in JoinedKeys(a) then Select(a, k) else Select(b, k)
  {
    if |a| > 0 {
      assert (a + b)[1..] == a[1..] + b;
      SelectAppend(a[1..], b, k);
    } else {
      assert a + b == b;
    }
  }

  /** Looking a key up in the earlier-side rows gives the first earlier
      count and the first later count, or 0 for a later side that is missing. */
  lemma {:induction false} SelectLeftPart<K>(earlier: seq<Tally<K>>, later: seq<Tally<K>>, k: K)
    requires k in Keys(earlier)
    ensures Select(LeftPart(earlier, later), k)
         == Some(Joined(k, FirstCount(earlier, k).value, FirstCount(later, k).GetOr(0)))
  {
    var l := earlier[0];
    var m := Matching(later, l.key);
    PairUpKeys(l, m);
    SelectAppend(JoinRow(l, later), LeftPart(earlier[1..], later), k);
    if l.key != k {
      SelectLeftPart(earlier[1..], later, k);
    }
  }

  /** Looking up a key the earlier period lacks finds the later count with
      the earlier side filled with 0, or nothing. */
  lemma {:induction false} SelectRightPart<K>(earlier: seq<Tally<K>>, later: seq<Tally<K>>, k: K)
    requires k !in Keys(earlier)
    ensures Select(RightPart(earlier, later), k)
         == if k in Keys(later) then Some(Joined(k, 0, FirstCount(later, k).value)) else None
  {
    if |later| > 0 {
      var head := if later[0].key in Keys(earlier) then [] else [Joined(later[0].key, 0, later[0].count)];
      SelectAppend(head, RightPart(earlier, later[1..]), k);
      SelectRightPart(earlier, later[1..], k);
    }
  }

  /** Joining two periods and selecting a key gives back the two periods'
      own counts for that key, 0 for a period without it, and nothing when
      neither period has the key. No uniqueness of keys is needed: the
      first row of each period is the one that shows. */
  lemma {:induction false} SelectOuterJoin<K>(earlier: seq<Tally<K>>, later: seq<Tally<K>>, k: K)
    ensures Select(OuterJoin(earlier, later), k)
         == if k in Keys(earlier) || k in Keys(later)
            then Some(Joined(k, FirstCount(earlier, k).GetOr(0), FirstCount(later, k).GetOr(0)))
            else None
  {
    LeftPartKeys(earlier, later);
    SelectAppend(LeftPart(earlier, later), RightPart(earlier, later), k);
    if k in Keys(earlier) {
      SelectLeftPart(earlier, later, k);
    } else {
      SelectRightPart(earlier, later, k);
    }
  }

  /** With unique keys on each side, the join has exactly one row per key of
      either side, each carrying that side's count or 0. */
  lemma {:induction false} OuterJoinUnique<K>(earlier: seq<Tally<K>>, later: seq<Tally<K>>)
    requires DistinctKeys(earlier)
    requires DistinctKeys(later)
    ensures DistinctJoinedKeys(OuterJoin(earlier, later))
    ensures |OuterJoin(earlier, later)| == |Keys(earlier) + Keys(later)|
    ensures forall i :: 0 <= i < |OuterJoin(earlier, later)| ==>
      var row := OuterJoin(earlier, later)[i];
      && row.before == FirstCount(earlier, row.key).GetOr(0)
      && row.after == FirstCount(later, row.key).GetOr(0)
  {
    var left := LeftPart(earlier, later);
    var right := RightPart(earlier, later);
    var j := OuterJoin(earlier, later);
    LeftPartUnique(earlier, later);
    RightPartDistinct(earlier, later);
    LeftPartKeys(earlier, later);
    RightPartKeys(earlier, later);
    forall a, b | 0 <= a < b < |j| ensures j[a].key != j[b].key {
      if b < |left| {
      } else if a >= |left| {
        assert j[a] == right[a - |left|] && j[b] == right[b - |left|];
      } else {
        assert j[b] == right[b - |left|];
        JoinedKeysMember(right, b - |left|);
        JoinedKeysMember(left, a);
      }
    }
    DistinctJoinedKeysCard(j);
    forall i | 0 <= i < |j|
      ensures j[i].before == FirstCount(earlier, j[i].key).GetOr(0)
      ensures j[i].after == FirstCount(later, j[i].key).GetOr(0)
    {
      SelectDistinct(j, i);
      SelectOuterJoin(earlier, later, j[i].key);
    }
  }

  lemma {:induction false} JoinedKeysMember<K>(j: seq<Joined<K>>, i: int)
    requires 0 <= i < |j|
    ensures j[i].key in JoinedKeys(j)
  {
    if i > 0 {
      JoinedKeysMember(j[1..], i - 1);
    }
  }

  /** With unique keys on both sides, the earlier-side rows line up one to
      one with the earlier period's rows. */
  lemma {:induction false} LeftPartUnique<K>(earlier: seq<Tally<K>>, later: seq<Tally<K>>)
    requires DistinctKeys(earlier)
    requires DistinctKeys(later)
    ensures |LeftPart(earlier, later)| == |earlier|
    ensures forall i :: 0 <= i < |earlier| ==> LeftPart(earlier, later)[i].key == earlier[i].key
  {
    if |earlier| > 0 {
      DistinctKeysTail(earlier);
      LeftPartUnique(earlier[1..], later);
      MatchingUnique(later, earlier[0].key);
    }
  }

  /** With unique keys there is at most one match. */
  lemma {:induction false} MatchingUnique<K>(rows: seq<Tally<K>>, k: K)
    requires DistinctKeys(rows)
    ensures |Matching(rows, k)| <= 1
  {
    if |rows| > 0 {
      DistinctKeysTail(rows);
      MatchingUnique(rows[1..], k);
    }
  }

  lemma {:induction false} RightPartDistinct<K>(earlier: seq<Tally<K>>, later: seq<Tally<K>>)
    requires DistinctKeys(later)
    ensures DistinctJoinedKeys(RightPart(earlier, later))
  {
    if |later| > 0 {
      DistinctKeysTail(later);
      RightPartDistinct(earlier, later[1..]);
      RightPartKeys(earlier, later[1..]);
      var rest := RightPart(earlier, later[1..]);
      if later[0].key !in Keys(earlier) {
        var r := RightPart(earlier, later);
        forall a, b | 0 <= a < b < |r| ensures r[a].key != r[b].key {
          assert r[b] == rest[b - 1];
          JoinedKeysMember(rest, b - 1);
          if a > 0 {
            assert r[a] == rest[a - 1];
          }
        }
      }
    }
  }

  lemma {:induction false} SelectDistinct<K>(j: seq<Joined<K>>, i: int)
    requires DistinctJoinedKeys(j)
    requires 0 <= i < |j|
    ensures Select(j, j[i].key) == Some(j[i])
  {
    if i > 0 {
      assert DistinctJoinedKeys(j[1..]) by {
        forall a, b | 0 <= a < b < |j[1..]| ensures j[1..][a].key != j[1..][b].key {
          assert j[1..][a] == j[a + 1] && j[1..][b] == j[b + 1];
        }
      }
      SelectDistinct(j[1..], i - 1);
    }
  }

  lemma {:induction false} DistinctJoinedKeysCard<K>(j: seq<Joined<K>>)
    requires DistinctJoinedKeys(j)
    ensures |JoinedKeys(j)| == |j|
  {
    if |j| > 0 {
      assert DistinctJoinedKeys(j[1..]) by {
        forall a, b | 0 <= a < b < |j[1..]| ensures j[1..][a].key != j[1..][b].key {
          assert j[1..][a] == j[a + 1] && j[1..][b] == j[b + 1];
        }
      }
      DistinctJoinedKeysCard(j[1..]);
      JoinedKeysIndex(j[1..], j[0].key);
    }
  }

  lemma {:induction false} JoinedKeysIndex<K>(j: seq<Joined<K>>, k: K)
    ensures k in JoinedKeys(j) <==> exists b :: 0 <= b < |j| && j[b].key == k
  {
    if |j| > 0 {
      JoinedKeysIndex(j[1..], k);
      if k in JoinedKeys(j[1..]) {
        var b :| 0 <= b < |j[1..]| && j[1..][b].key == k;
        assert j[b + 1].key == k;
      }
      if exists b :: 0 <= b < |j| && j[b].key == k {
        var b :| 0 <= b < |j| && j[b].key == k;
        if b > 0 {
          assert j[1..][b - 1].key == k;
        }
      }
    }
  }
}
