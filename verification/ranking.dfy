/** The "Top 10 Diseases" charts: rows filtered to a week (or a year),
    counts summed per disease label, the ten largest totals kept and the
    order reversed so that the largest comes last. */
module Ranking {
  import opened Tables
  import opened Sorting
  import opened Grouping

  /** How many diseases a chart shows. */
  const TopCount := 10
  /** The week the weekly chart ranks: week 11 of 2024. */
  const WeekRankingYear := 2024
  const WeekRankingWeek := 11
  /** The year the year-to-date chart ranks. */
  const YearRankingYear := 2023

  function Min(a: int, b: int): int
  {
    if a <= b then a else b
  }

  // ------------------------------------------------------ order of labels

  /** Lexicographic order of labels by character code. */
  predicate LabelLess(a: string, b: string)
  {
    if |a| == 0 then |b| > 0
    else |b| > 0 && (a[0] < b[0] || (a[0] == b[0] && LabelLess(a[1..], b[1..])))
  }

  lemma {:induction false} LabelLessIrreflexive(a: string)
    ensures !LabelLess(a, a)
  {
    if |a| > 0 {
      LabelLessIrreflexive(a[1..]);
    }
  }

  lemma {:induction false} LabelLessTransitive(a: string, b: string, c: string)
    ensures LabelLess(a, b) && LabelLess(b, c) ==> LabelLess(a, c)
  {
    if |a| > 0 && |b| > 0 && |c| > 0 {
      LabelLessTransitive(a[1..], b[1..], c[1..]);
    }
  }

  lemma {:induction false} LabelLessTotal(a: string, b: string)
    ensures a != b ==> LabelLess(a, b) || LabelLess(b, a)
    ensures LabelLess(a, b) ==> !LabelLess(b, a)
  {
    if |a| > 0 && |b| > 0 {
      LabelLessTotal(a[1..], b[1..]);
      if a[0] == b[0] && a != b {
        assert a == [a[0]] + a[1..] && b == [b[0]] + b[1..];
      }
    }
  }

  /** The order of the ranking before it is reversed: the larger total
      first and, between equal totals, the smaller label first. */
  predicate RanksAhead(a: Tally<string>, b: Tally<string>)
  {
    a.count > b.count || (a.count == b.count && LabelLess(a.key, b.key))
  }

  lemma {:induction false} RanksAheadOrder()
    ensures StrictWeakOrder(RanksAhead)
  {
    forall a: Tally<string>, b: Tally<string> ensures RanksAhead(a, b) ==> !RanksAhead(b, a) {
      LabelLessTotal(a.key, b.key);
    }
    forall a: Tally<string>, b: Tally<string>, c: Tally<string>
      ensures !RanksAhead(a, b) && !RanksAhead(b, c) ==> !RanksAhead(a, c)
    {
      LabelLessTotal(a.key, b.key);
      LabelLessTotal(b.key, c.key);
      LabelLessTransitive(b.key, a.key, c.key);
      LabelLessIrreflexive(a.key);
    }
  }

  // ------------------------------------------------------------ selection

  function Reverse<T>(s: seq<T>): (r: seq<T>)
    ensures |r| == |s|
    ensures forall i :: 0 <= i < |r| ==> r[i] == s[|s| - 1 - i]
  {
    if |s| == 0 then [] else Reverse(s[1..]) + [s[0]]
  }

  /** `nlargest(n)` followed by `[::-1]`: the `n` groups that rank ahead,
      in ascending order. Nothing is left out that ranks ahead of a group
      kept, and nothing is changed or invented. */
  function TopN(groups: seq<Tally<string>>, n: nat): (r: seq<Tally<string>>)
    ensures |r| == Min(n, |groups|)
    ensures multiset(r) <= multiset(groups)
    ensures forall i, j :: 0 <= i < j < |r| ==> !RanksAhead(r[i], r[j])
    ensures forall x, i :: x in groups && x !in r && 0 <= i < |r| ==> !RanksAhead(x, r[i])
  {
    var s := Sort(groups, RanksAhead);
    var k := Min(n, |s|);
    SortedByRank(groups);
    assert |s| == |groups| by {
      assert |multiset(s)| == |multiset(groups)|;
    }
    assert forall x :: x in groups ==> x in s by {
      forall x | x in groups ensures x in s {
        assert x in multiset(groups);
      }
    }
    KeptPrefix(s, k);
    LeftOutRanksBehind(s, k);
    Reverse(s[..k])
  }

  lemma {:induction false} PrefixMember(s: seq<Tally<string>>, k: nat, p: int)
    ensures 0 <= p < k <= |s| ==> s[p] in Reverse(s[..k])
  {
    if 0 <= p < k <= |s| {
      assert Reverse(s[..k])[k - 1 - p] == s[p];
    }
  }

  lemma {:induction false} SortedByRank(groups: seq<Tally<string>>)
    ensures SortedBy(Sort(groups, RanksAhead), RanksAhead)
  {
    RanksAheadOrder();
    SortSorted(groups, RanksAhead);
  }

  /** Reversing a sorted prefix gives an ascending run that is a part of the whole. */
  lemma {:induction false} KeptPrefix(s: seq<Tally<string>>, k: nat)
    requires SortedBy(s, RanksAhead)
    requires k <= |s|
    ensures multiset(Reverse(s[..k])) <= multiset(s)
    ensures forall i, j :: 0 <= i < j < |Reverse(s[..k])| ==> !RanksAhead(Reverse(s[..k])[i], Reverse(s[..k])[j])
  {
    var r := Reverse(s[..k]);
    ReverseMultiset(s[..k]);
    assert s == s[..k] + s[k..];
    forall i, j | 0 <= i < j < |r| ensures !RanksAhead(r[i], r[j]) {
      assert r[i] == s[k - 1 - i] && r[j] == s[k - 1 - j];
    }
  }

  /** A group that a sorted prefix leaves out ranks behind or level with
      every group it keeps. */
  lemma {:induction false} LeftOutRanksBehind(s: seq<Tally<string>>, k: nat)
    requires SortedBy(s, RanksAhead)
    requires k <= |s|
    ensures forall x, i :: x in s && x !in Reverse(s[..k]) && 0 <= i < k ==> !RanksAhead(x, Reverse(s[..k])[i])
  {
    var r := Reverse(s[..k]);
    forall x, i | x in s && x !in r && 0 <= i < k ensures !RanksAhead(x, r[i]) {
      var p :| 0 <= p < |s| && s[p] == x;
      PrefixMember(s, k, p);
      assert r[i] == s[k - 1 - i];
    }
  }

  lemma {:induction false} ReverseMultiset<T>(s: seq<T>)
    ensures multiset(Reverse(s)) == multiset(s)
  {
    if |s| > 0 {
      ReverseMultiset(s[1..]);
      assert s == [s[0]] + s[1..];
    }
  }

  /** Group-by, then top `n`. */
  function Rank(rows: seq<Tally<string>>, n: nat): seq<Tally<string>>
  {
    TopN(GroupSum(rows), n)
  }

  /** The ranking of `rows`: min(n, number of labels) distinct labels that
      occur in the rows, each with its summed count, in non-decreasing
      order of total (between equal totals the larger label first); every
      label kept totals at least as much as every label left out, and more,
      or the same with a smaller label. */
  lemma {:induction false} RankSpec(rows: seq<Tally<string>>, n: nat)
    ensures var r := Rank(rows, n);
      && |r| == Min(n, |Keys(rows)|)
      && DistinctKeys(r)
      && Keys(r) <= Keys(rows)
      && (forall i :: 0 <= i < |r| ==> r[i].count == SumFor(rows, r[i].key))
      && (forall i, j :: 0 <= i < j < |r| ==>
            r[i].count < r[j].count || (r[i].count == r[j].count && LabelLess(r[j].key, r[i].key)))
      && (forall i, l :: 0 <= i < |r| && l in Keys(rows) && l !in Keys(r) ==>
            r[i].count > SumFor(rows, l) || (r[i].count == SumFor(rows, l) && LabelLess(r[i].key, l)))
      && multiset(r) <= multiset(GroupSum(rows))
  {
    RankEntries(rows, n);
    RankAscending(rows, n);
    RankLeftOut(rows, n);
  }

  /** The ranking's entries: distinct labels of the rows with their sums. */
  lemma {:induction false} RankEntries(rows: seq<Tally<string>>, n: nat)
    ensures var r := Rank(rows, n);
      && |r| == Min(n, |Keys(rows)|)
      && DistinctKeys(r)
      && Keys(r) <= Keys(rows)
      && (forall i :: 0 <= i < |r| ==> r[i].count == SumFor(rows, r[i].key))
  {
    var g := GroupSum(rows);
    var r := Rank(rows, n);
    var s := Sort(g, RanksAhead);
    GroupSumSize(rows);
    SortKeepsGroups(g, RanksAhead);
    assert |s| == |g| by {
      assert |multiset(s)| == |multiset(g)|;
    }
    PrefixKeys(s, Min(n, |s|));
    forall i | 0 <= i < |r| ensures r[i].count == SumFor(rows, r[i].key) {
      assert r[i] in multiset(r);
      assert r[i] in multiset(g);
    }
  }

  /** A reversed prefix of rows with distinct keys keeps them distinct. */
  lemma {:induction false} PrefixKeys<K>(s: seq<Tally<K>>, k: nat)
    requires DistinctKeys(s)
    requires k <= |s|
    ensures DistinctKeys(Reverse(s[..k]))
    ensures Keys(Reverse(s[..k])) <= Keys(s)
  {
    PrefixDistinct(s, k);
    forall x | x in Keys(Reverse(s[..k])) ensures x in Keys(s) {
      ReversedKeyIn(s, k, x);
    }
  }

  lemma {:induction false} PrefixDistinct<K>(s: seq<Tally<K>>, k: nat)
    requires DistinctKeys(s)
    requires k <= |s|
    ensures DistinctKeys(Reverse(s[..k]))
  {
    var r := Reverse(s[..k]);
    forall a, b | 0 <= a < b < |r| ensures r[a].key != r[b].key {
      assert r[a] == s[k - 1 - a] && r[b] == s[k - 1 - b];
    }
  }

  lemma {:induction false} ReversedKeyIn<K>(s: seq<Tally<K>>, k: nat, x: K)
    requires k <= |s|
    requires x in Keys(Reverse(s[..k]))
    ensures x in Keys(s)
  {
    var r := Reverse(s[..k]);
    var i := KeyIndex(r, x);
    assert r[i] == s[k - 1 - i];
    KeyAt(s, k - 1 - i);
  }

  lemma {:induction false} RankAscending(rows: seq<Tally<string>>, n: nat)
    ensures var r := Rank(rows, n);
      forall i, j :: 0 <= i < j < |r| ==>
        r[i].count < r[j].count || (r[i].count == r[j].count && LabelLess(r[j].key, r[i].key))
  {
    var r := Rank(rows, n);
    RankEntries(rows, n);
    forall i, j | 0 <= i < j < |r|
      ensures r[i].count < r[j].count || (r[i].count == r[j].count && LabelLess(r[j].key, r[i].key))
    {
      assert !RanksAhead(r[i], r[j]);
      LabelLessTotal(r[i].key, r[j].key);
    }
  }

  lemma {:induction false} RankLeftOut(rows: seq<Tally<string>>, n: nat)
    ensures var r := Rank(rows, n);
      forall i, l :: 0 <= i < |r| && l in Keys(rows) && l !in Keys(r) ==>
        r[i].count > SumFor(rows, l) || (r[i].count == SumFor(rows, l) && LabelLess(r[i].key, l))
  {
    var g := GroupSum(rows);
    var r := Rank(rows, n);
    forall i, l | 0 <= i < |r| && l in Keys(rows) && l !in Keys(r)
      ensures r[i].count > SumFor(rows, l) || (r[i].count == SumFor(rows, l) && LabelLess(r[i].key, l))
    {
      KeysMember(g, l);
      var p :| 0 <= p < |g| && g[p].key == l;
      KeysMember(r, l);
      assert g[p] !in r;
      assert !RanksAhead(g[p], r[i]);
      LabelLessTotal(r[i].key, l);
    }
  }

  // ---------------------------------------------------------- weekly chart

  predicate InRankedWeek(r: WeeklyRecord, year: int, week: int)
  {
    r.year == year && r.week == week
  }

  /** The rows of week `week` of `year`, projected to label and Current week. */
  function WeekLabelRows(t: seq<WeeklyRecord>, year: int, week: int): seq<Tally<string>>
  {
    if |t| == 0 then []
    else
      (if InRankedWeek(t[0], year, week) then [Tally(t[0].diseaseLabel, t[0].currentWeek)] else [])
      + WeekLabelRows(t[1..], year, week)
  }

  /** The labels reported in the week. */
  function WeekLabels(t: seq<WeeklyRecord>, year: int, week: int): set<string>
  {
    set r | r in t && InRankedWeek(r, year, week) :: r.diseaseLabel
  }

  /** The Current week count of disease `lbl` in the week, summed straight off the table. */
  function WeekLabelSum(t: seq<WeeklyRecord>, year: int, week: int, lbl: string): int
  {
    if |t| == 0 then 0
    else (if InRankedWeek(t[0], year, week) && t[0].diseaseLabel == lbl then t[0].currentWeek else 0)
         + WeekLabelSum(t[1..], year, week, lbl)
  }

  /** The weekly chart: the top `n` labels of the week by summed Current week. */
  function WeeklyRanking(t: seq<WeeklyRecord>, year: int, week: int, n: nat): seq<Tally<string>>
  {
    Rank(WeekLabelRows(t, year, week), n)
  }

  lemma {:induction false} WeekLabelRowsAppend(a: seq<WeeklyRecord>, b: seq<WeeklyRecord>, year: int, week: int)
    ensures WeekLabelRows(a + b, year, week) == WeekLabelRows(a, year, week) + WeekLabelRows(b, year, week)
  {
    if |a| > 0 {
      assert (a + b)[1..] == a[1..] + b;
      WeekLabelRowsAppend(a[1..], b, year, week);
    } else {
      assert a + b == b;
    }
  }

  lemma {:induction false} WeekLabelRowsMeaning(t: seq<WeeklyRecord>, year: int, week: int, lbl: string)
    ensures Keys(WeekLabelRows(t, year, week)) == WeekLabels(t, year, week)
    ensures SumFor(WeekLabelRows(t, year, week), lbl) == WeekLabelSum(t, year, week, lbl)
  {
    if |t| > 0 {
      WeekLabelRowsMeaning(t[1..], year, week, lbl);
      var head := if InRankedWeek(t[0], year, week) then [Tally(t[0].diseaseLabel, t[0].currentWeek)] else [];
      KeysAppend(head, WeekLabelRows(t[1..], year, week));
      SumForAppend(head, WeekLabelRows(t[1..], year, week), lbl);
      assert t == [t[0]] + t[1..];
      assert WeekLabels(t, year, week) == Keys(head) + WeekLabels(t[1..], year, week);
    }
  }

  /** The weekly chart holds min(n, labels of the week) distinct labels of
      that week, each with its Current week summed over the week's rows, in
      non-decreasing order of total; every label left out totals no more
      than any label kept. */
  lemma {:induction false} WeeklyRankingSpec(t: seq<WeeklyRecord>, year: int, week: int, n: nat)
    ensures var r := WeeklyRanking(t, year, week, n);
      && |r| == Min(n, |WeekLabels(t, year, week)|)
      && DistinctKeys(r)
      && Keys(r) <= WeekLabels(t, year, week)
      && (forall i :: 0 <= i < |r| ==> r[i].count == WeekLabelSum(t, year, week, r[i].key))
      && (forall i, j :: 0 <= i < j < |r| ==> r[i].count <= r[j].count)
      && (forall i, l :: 0 <= i < |r| && l in WeekLabels(t, year, week) && l !in Keys(r) ==>
            r[i].count >= WeekLabelSum(t, year, week, l))
  {
    var rows := WeekLabelRows(t, year, week);
    var r := WeeklyRanking(t, year, week, n);
    RankSpec(rows, n);
    WeekLabelRowsMeaning(t, year, week, "");
    forall l ensures SumFor(rows, l) == WeekLabelSum(t, year, week, l) {
      WeekLabelRowsMeaning(t, year, week, l);
    }
  }

  /** Rows of other weeks do not move the weekly chart, wherever they sit. */
  lemma {:induction false} WeeklyRankingIgnoresOtherWeeks(a: seq<WeeklyRecord>, other: seq<WeeklyRecord>, b: seq<WeeklyRecord>,
                                       year: int, week: int, n: nat)
    requires forall r :: r in other ==> !InRankedWeek(r, year, week)
    ensures WeeklyRanking(a + other + b, year, week, n) == WeeklyRanking(a + b, year, week, n)
  {
    assert WeekLabelRows(a + other + b, year, week) == WeekLabelRows(a + b, year, week) by {
      WeekLabelRowsAppend(a + other, b, year, week);
      WeekLabelRowsAppend(a, other, year, week);
      WeekLabelRowsAppend(a, b, year, week);
      NoWeekLabelRows(other, year, week);
      assert WeekLabelRows(a, year, week) + [] == WeekLabelRows(a, year, week);
    }
  }

  lemma {:induction false} NoWeekLabelRows(t: seq<WeeklyRecord>, year: int, week: int)
    requires forall r :: r in t ==> !InRankedWeek(r, year, week)
    ensures WeekLabelRows(t, year, week) == []
  {
    if |t| > 0 {
      assert t[0] in t;
      NoWeekLabelRows(t[1..], year, week);
    }
  }

  /** The dashboard's weekly chart, week 11 of 2024: ten entries, or every
      label of that week when it has no more than ten. */
  lemma {:induction false} DashboardWeeklyRanking(t: seq<WeeklyRecord>)
    ensures var r := WeeklyRanking(t, WeekRankingYear, WeekRankingWeek, TopCount);
      && |r| == Min(10, |WeekLabels(t, 2024, 11)|)
      && (|WeekLabels(t, 2024, 11)| <= 10 ==> Keys(r) == WeekLabels(t, 2024, 11))
  {
    var r := WeeklyRanking(t, WeekRankingYear, WeekRankingWeek, TopCount);
    WeeklyRankingSpec(t, 2024, 11, 10);
    if |WeekLabels(t, 2024, 11)| <= 10 {
      DistinctKeysCard(r);
      SubsetSameSize(Keys(r), WeekLabels(t, 2024, 11));
    }
  }

  lemma {:induction false} SubsetSameSize<T>(a: set<T>, b: set<T>)
    requires a <= b && |a| == |b|
    ensures a == b
  {
    assert b == a + (b - a);
    assert a * (b - a) == {};
    assert |b - a| == 0;
    assert b - a == {};
  }

  // ---------------------------------------------------- year-to-date chart

  /** The rows of `year`, projected to label and Cumulative YTD. */
  function YearLabelRows(t: seq<WeeklyRecord>, year: int): seq<Tally<string>>
  {
    if |t| == 0 then []
    else
      (if t[0].year == year then [Tally(t[0].diseaseLabel, t[0].cumulativeYtd)] else [])
      + YearLabelRows(t[1..], year)
  }

  /** The labels reported in the year. */
  function YearLabels(t: seq<WeeklyRecord>, year: int): set<string>
  {
    set r | r in t && r.year == year :: r.diseaseLabel
  }

  /** The Cumulative YTD count of disease `lbl` over the year's rows, summed straight off the table. */
  function YearLabelSum(t: seq<WeeklyRecord>, year: int, lbl: string): int
  {
    if |t| == 0 then 0
    else (if t[0].year == year && t[0].diseaseLabel == lbl then t[0].cumulativeYtd else 0)
         + YearLabelSum(t[1..], year, lbl)
  }

  /** The year-to-date chart: the top `n` labels of the year by summed
      Cumulative YTD. */
  function YearlyRanking(t: seq<WeeklyRecord>, year: int, n: nat): seq<Tally<string>>
  {
    Rank(YearLabelRows(t, year), n)
  }

  lemma {:induction false} YearLabelRowsMeaning(t: seq<WeeklyRecord>, year: int, lbl: string)
    ensures Keys(YearLabelRows(t, year)) == YearLabels(t, year)
    ensures SumFor(YearLabelRows(t, year), lbl) == YearLabelSum(t, year, lbl)
  {
    if |t| > 0 {
      YearLabelRowsMeaning(t[1..], year, lbl);
      var head := if t[0].year == year then [Tally(t[0].diseaseLabel, t[0].cumulativeYtd)] else [];
      KeysAppend(head, YearLabelRows(t[1..], year));
      SumForAppend(head, YearLabelRows(t[1..], year), lbl);
      assert t == [t[0]] + t[1..];
      assert YearLabels(t, year) == Keys(head) + YearLabels(t[1..], year);
    }
  }

  /** The year-to-date chart holds min(n, labels of the year) distinct
      labels of that year, each with its Cumulative YTD summed over the
      year's rows, in non-decreasing order of total; every label left out
      totals no more than any label kept. */
  lemma {:induction false} YearlyRankingSpec(t: seq<WeeklyRecord>, year: int, n: nat)
    ensures var r := YearlyRanking(t, year, n);
      && |r| == Min(n, |YearLabels(t, year)|)
      && DistinctKeys(r)
      && Keys(r) <= YearLabels(t, year)
      && (forall i :: 0 <= i < |r| ==> r[i].count == YearLabelSum(t, year, r[i].key))
      && (forall i, j :: 0 <= i < j < |r| ==> r[i].count <= r[j].count)
      && (forall i, l :: 0 <= i < |r| && l in YearLabels(t, year) && l !in Keys(r) ==>
            r[i].count >= YearLabelSum(t, year, l))
  {
    var rows := YearLabelRows(t, year);
    RankSpec(rows, n);
    YearLabelRowsMeaning(t, year, "");
    forall l ensures SumFor(rows, l) == YearLabelSum(t, year, l) {
      YearLabelRowsMeaning(t, year, l);
    }
  }

  lemma {:induction false} YearLabelRowsAppend(a: seq<WeeklyRecord>, b: seq<WeeklyRecord>, year: int)
    ensures YearLabelRows(a + b, year) == YearLabelRows(a, year) + YearLabelRows(b, year)
  {
    if |a| > 0 {
      assert (a + b)[1..] == a[1..] + b;
      YearLabelRowsAppend(a[1..], b, year);
    } else {
      assert a + b == b;
    }
  }

  lemma {:induction false} NoYearLabelRows(t: seq<WeeklyRecord>, year: int)
    requires forall r :: r in t ==> r.year != year
    ensures YearLabelRows(t, year) == []
  {
    if |t| > 0 {
      assert t[0] in t;
      NoYearLabelRows(t[1..], year);
    }
  }

  /** Rows of other years do not move the year-to-date chart, wherever they sit. */
  lemma {:induction false} YearlyRankingIgnoresOtherYears(a: seq<WeeklyRecord>, other: seq<WeeklyRecord>, b: seq<WeeklyRecord>,
                                       year: int, n: nat)
    requires forall r :: r in other ==> r.year != year
    ensures YearlyRanking(a + other + b, year, n) == YearlyRanking(a + b, year, n)
  {
    assert YearLabelRows(a + other + b, year) == YearLabelRows(a + b, year) by {
      YearLabelRowsAppend(a + other, b, year);
      YearLabelRowsAppend(a, other, year);
      YearLabelRowsAppend(a, b, year);
      NoYearLabelRows(other, year);
      assert YearLabelRows(a, year) + [] == YearLabelRows(a, year);
    }
  }

  /** The dashboard's year-to-date chart, 2023: ten entries, or every label
      of that year when it has no more than ten. */
  lemma {:induction false} DashboardYearlyRanking(t: seq<WeeklyRecord>)
    ensures var r := YearlyRanking(t, YearRankingYear, TopCount);
      && |r| == Min(10, |YearLabels(t, 2023)|)
      && (|YearLabels(t, 2023)| <= 10 ==> Keys(r) == YearLabels(t, 2023))
  {
    var r := YearlyRanking(t, YearRankingYear, TopCount);
    YearlyRankingSpec(t, 2023, 10);
    if |YearLabels(t, 2023)| <= 10 {
      DistinctKeysCard(r);
      SubsetSameSize(Keys(r), YearLabels(t, 2023));
    }
  }
}
