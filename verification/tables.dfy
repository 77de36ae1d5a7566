/** The two input tables of the dashboard and the keyed rows that every
    projection, group-by and join of the model works on. */
module Tables {
  import opened Options

  /** One row of the weekly surveillance table. */
  datatype WeeklyRecord = WeeklyRecord(
    year: int,           // Current MMWR Year
    week: int,           // MMWR WEEK
    location: string,    // LOCATION1
    diseaseLabel: string,  // Label: the disease
    currentWeek: int,    // Current week: cases reported in this week
    cumulativeYtd: int)  // Cumulative YTD Current MMWR Year

  /** One row of the annual table. `caseCount` is `None` where the cell was
      not numeric and the loader coerced it to a missing value. */
  datatype AnnualRecord = AnnualRecord(
    year: int,           // Year
    state: string,       // States
    stateAbbr: string,   // state_abbr
    disease: string,     // Disease
    caseCount: Option<int>)  // Case Count

  /** A key with a count: a projected table row, or a group total. */
  datatype Tally<K> = Tally(key: K, count: int)

  /** The keys occurring in `rows`. */
  function Keys<K>(rows: seq<Tally<K>>): set<K>
  {
    set t | t in rows :: t.key
  }

  /** No key occurs twice. */
  predicate DistinctKeys<K(==)>(rows: seq<Tally<K>>)
  {
    forall i, j :: 0 <= i < j < |rows| ==> rows[i].key != rows[j].key
  }

  /** The sum of the counts of the rows whose key is `k`. */
  function SumFor<K(==)>(rows: seq<Tally<K>>, k: K): int
  {
    if |rows| == 0 then 0
    else (if rows[0].key == k then rows[0].count else 0) + SumFor(rows[1..], k)
  }

  /** The sum of all counts. */
  function Total<K>(rows: seq<Tally<K>>): int
  {
    if |rows| == 0 then 0 else rows[0].count + Total(rows[1..])
  }

  /** The count of the first row whose key is `k`: pandas' `.values[0]` on
      the rows filtered to `k`, which has no value when no row matches. */
  function FirstCount<K(==)>(rows: seq<Tally<K>>, k: K): (r: Option<int>)
    ensures r.None? <==> k !in Keys(rows)
  {
    if |rows| == 0 then None
    else if rows[0].key == k then Some(rows[0].count)
    else FirstCount(rows[1..], k)
  }

  lemma {:induction false} KeysMember<K>(rows: seq<Tally<K>>, k: K)
    ensures k in Keys(rows) <==> exists i :: 0 <= i < |rows| && rows[i].key == k
  {
  }

  /** The keys of a non-empty table: the head's key and the tail's keys. */
  lemma {:induction false} KeysCons<K>(rows: seq<Tally<K>>)
    requires |rows| > 0
    ensures Keys(rows) == {rows[0].key} + Keys(rows[1..])
  {
  }

  lemma {:induction false} KeysAppend<K>(a: seq<Tally<K>>, b: seq<Tally<K>>)
    ensures Keys(a + b) == Keys(a) + Keys(b)
  {
  }

  /** A key absent from the rows sums to nothing. */
  lemma {:induction false} SumForAbsent<K>(rows: seq<Tally<K>>, k: K)
    requires k !in Keys(rows)
    ensures SumFor(rows, k) == 0
  {
    if |rows| > 0 {
      SumForAbsent(rows[1..], k);
    }
  }

  /** With distinct keys there are as many keys as rows. */
  lemma {:induction false} DistinctKeysCard<K>(rows: seq<Tally<K>>)
    requires DistinctKeys(rows)
    ensures |Keys(rows)| == |rows|
  {
    if |rows| > 0 {
      assert DistinctKeys(rows[1..]) by {
        forall a, b | 0 <= a < b < |rows[1..]|
          ensures rows[1..][a].key != rows[1..][b].key
        {
          assert rows[1..][a] == rows[a + 1] && rows[1..][b] == rows[b + 1];
        }
      }
      DistinctKeysCard(rows[1..]);
      KeysMember(rows[1..], rows[0].key);
      KeysCons(rows);
    }
  }

  /** Dropping the head keeps keys distinct. */
  lemma {:induction false} DistinctKeysTail<K>(rows: seq<Tally<K>>)
    requires DistinctKeys(rows) && |rows| > 0
    ensures DistinctKeys(rows[1..])
    ensures rows[0].key !in Keys(rows[1..])
  {
    forall a, b | 0 <= a < b < |rows[1..]|
      ensures rows[1..][a].key != rows[1..][b].key
    {
      assert rows[1..][a] == rows[a + 1] && rows[1..][b] == rows[b + 1];
    }
    KeysMember(rows[1..], rows[0].key);
  }

  lemma {:induction false} FirstCountAppend<K>(a: seq<Tally<K>>, b: seq<Tally<K>>, k: K)
    ensures FirstCount(a + b, k) == if k in Keys(a) then FirstCount(a, k) else FirstCount(b, k)
  {
    if |a| > 0 {
      assert (a + b)[1..] == a[1..] + b;
      FirstCountAppend(a[1..], b, k);
    } else {
      assert a + b == b;
    }
  }

  lemma {:induction false} SumForAppend<K>(a: seq<Tally<K>>, b: seq<Tally<K>>, k: K)
    ensures SumFor(a + b, k) == SumFor(a, k) + SumFor(b, k)
  {
    if |a| > 0 {
      assert (a + b)[1..] == a[1..] + b;
      SumForAppend(a[1..], b, k);
    } else {
      assert a + b == b;
    }
  }

  lemma {:induction false} TotalAppend<K>(a: seq<Tally<K>>, b: seq<Tally<K>>)
    ensures Total(a + b) == Total(a) + Total(b)
  {
    if |a| > 0 {
      assert (a + b)[1..] == a[1..] + b;
      TotalAppend(a[1..], b);
    } else {
      assert a + b == b;
    }
  }

  lemma {:induction false} KeyAt<K>(rows: seq<Tally<K>>, i: int)
    requires 0 <= i < |rows|
    ensures rows[i].key in Keys(rows)
  {
    if i > 0 {
      KeyAt(rows[1..], i - 1);
    }
  }

  lemma {:induction false} KeyIndex<K>(rows: seq<Tally<K>>, k: K) returns (i: int)
    requires k in Keys(rows)
    ensures 0 <= i < |rows| && rows[i].key == k
  {
    if rows[0].key == k {
      i := 0;
    } else {
      var j := KeyIndex(rows[1..], k);
      i := j + 1;
    }
  }
}
