/** The "Case Trends" comparisons: this week against the previous week for
    one location and disease, and this year against the previous year for
    one disease and state. */
module Comparator {
  import opened Options
  import opened Tables
  import opened Join
  import opened Change

  /** The year the dashboard compares against its predecessor. */
  const ComparisonYear := 2023

  /** An MMWR week of a year. */
  datatype YearWeek = YearWeek(year: int, week: int)

  /** The key of the weekly comparison: a location and a disease label. */
  datatype SiteDisease = SiteDisease(location: string, disease: string)

  /** The week before `w`: week 1 rolls back to week 52, and the year steps
      back exactly when the result is week 52. */
  function PreviousWeek(w: YearWeek): (p: YearWeek)
    ensures w.week > 1 ==> p.week == w.week - 1
    ensures w.week <= 1 ==> p.week == 52
    ensures p.year == (if p.week == 52 then w.year - 1 else w.year)
  {
    var lastWeek := if w.week > 1 then w.week - 1 else 52;
    YearWeek(if lastWeek != 52 then w.year else w.year - 1, lastWeek)
  }

  /** The position of a week on a calendar of 52-week years. */
  function Ordinal(w: YearWeek): int
  {
    w.year * 52 + (w.week - 1)
  }

  /** On weeks 1 to 52 the rollover is the immediate predecessor on a
      calendar of 52-week years, and stays within weeks 1 to 52. */
  lemma {:induction false} PreviousWeekIsPredecessor(w: YearWeek)
    requires 1 <= w.week <= 52
    ensures 1 <= PreviousWeek(w).week <= 52
    ensures Ordinal(PreviousWeek(w)) == Ordinal(w) - 1
  {
  }

  /** Week 53 rolls back to week 52 of the year before, not of its own
      year: the rollover assumes 52-week years. */
  lemma {:induction false} PreviousWeekOfWeek53(year: int)
    ensures PreviousWeek(YearWeek(year, 53)) == YearWeek(year - 1, 52)
    ensures Ordinal(PreviousWeek(YearWeek(year, 53))) == Ordinal(YearWeek(year, 53)) - 53
  {
  }

  /** Compares the counts two periods hold for key `k`: joins them, fills a
      missing side with 0, selects `k` and derives the change. Nothing comes
      back when neither period has `k`, where the dashboard would fault. */
  function ComparePeriods<K(==)>(earlier: seq<Tally<K>>, later: seq<Tally<K>>, k: K): (c: Option<Comparison>)
    ensures c.None? <==> k !in Keys(earlier) && k !in Keys(later)
    ensures c.Some? ==> c.value.before == FirstCount(earlier, k).GetOr(0)
    ensures c.Some? ==> c.value.after == FirstCount(later, k).GetOr(0)
    ensures c.Some? ==> c.value == Compare(c.value.before, c.value.after)
  {
    SelectOuterJoin(earlier, later, k);
    match Select(OuterJoin(earlier, later), k)
    case None => None
    case Some(row) => Some(Compare(row.before, row.after))
  }

  // ---------------------------------------------------------------- weekly

  predicate InWeek(r: WeeklyRecord, w: YearWeek)
  {
    r.year == w.year && r.week == w.week
  }

  /** The rows of week `w`, projected to (location, label) and the week's count. */
  function WeekRows(t: seq<WeeklyRecord>, w: YearWeek): seq<Tally<SiteDisease>>
  {
    if |t| == 0 then []
    else
      (if InWeek(t[0], w) then [Tally(SiteDisease(t[0].location, t[0].diseaseLabel), t[0].currentWeek)] else [])
      + WeekRows(t[1..], w)
  }

  /** The count of the first record of week `w` for the pair `k`, read
      straight off the table. */
  function WeeklyCases(t: seq<WeeklyRecord>, w: YearWeek, k: SiteDisease): Option<int>
  {
    if |t| == 0 then None
    else if InWeek(t[0], w) && t[0].location == k.location && t[0].diseaseLabel == k.disease
    then Some(t[0].currentWeek)
    else WeeklyCases(t[1..], w, k)
  }

  /** The table holds at most one record per week, location and label. */
  predicate UniqueWeekly(t: seq<WeeklyRecord>)
  {
    forall i, j :: 0 <= i < j < |t| && InWeek(t[i], YearWeek(t[j].year, t[j].week)) ==>
      t[i].location != t[j].location || t[i].diseaseLabel != t[j].diseaseLabel
  }

  lemma {:induction false} WeekRowsFirst(t: seq<WeeklyRecord>, w: YearWeek, k: SiteDisease)
    ensures FirstCount(WeekRows(t, w), k) == WeeklyCases(t, w, k)
  {
    if |t| > 0 {
      WeekRowsFirst(t[1..], w, k);
      var head := if InWeek(t[0], w) then [Tally(SiteDisease(t[0].location, t[0].diseaseLabel), t[0].currentWeek)] else [];
      FirstCountAppend(head, WeekRows(t[1..], w), k);
    }
  }

  lemma {:induction false} WeekRowsKeys(t: seq<WeeklyRecord>, w: YearWeek, k: SiteDisease)
    ensures k in Keys(WeekRows(t, w)) <==>
      exists i :: 0 <= i < |t| && InWeek(t[i], w) && SiteDisease(t[i].location, t[i].diseaseLabel) == k
  {
    if |t| > 0 {
      WeekRowsKeys(t[1..], w, k);
      var head := if InWeek(t[0], w) then [Tally(SiteDisease(t[0].location, t[0].diseaseLabel), t[0].currentWeek)] else [];
      KeysAppend(head, WeekRows(t[1..], w));
      if exists i :: 0 <= i < |t[1..]| && InWeek(t[1..][i], w) && SiteDisease(t[1..][i].location, t[1..][i].diseaseLabel) == k {
        var i :| 0 <= i < |t[1..]| && InWeek(t[1..][i], w) && SiteDisease(t[1..][i].location, t[1..][i].diseaseLabel) == k;
        assert t[i + 1] == t[1..][i];
      }
      if exists i :: 0 <= i < |t| && InWeek(t[i], w) && SiteDisease(t[i].location, t[i].diseaseLabel) == k {
        var i :| 0 <= i < |t| && InWeek(t[i], w) && SiteDisease(t[i].location, t[i].diseaseLabel) == k;
        if i > 0 {
          assert t[1..][i - 1] == t[i];
        }
      }
    }
  }

  lemma {:induction false} WeekRowsDistinct(t: seq<WeeklyRecord>, w: YearWeek)
    requires UniqueWeekly(t)
    ensures DistinctKeys(WeekRows(t, w))
  {
    if |t| > 0 {
      assert UniqueWeekly(t[1..]) by {
        forall i, j | 0 <= i < j < |t[1..]| && InWeek(t[1..][i], YearWeek(t[1..][j].year, t[1..][j].week))
          ensures t[1..][i].location != t[1..][j].location || t[1..][i].diseaseLabel != t[1..][j].diseaseLabel
        {
          assert t[1..][i] == t[i + 1] && t[1..][j] == t[j + 1];
        }
      }
      WeekRowsDistinct(t[1..], w);
      var rest := WeekRows(t[1..], w);
      if InWeek(t[0], w) {
        var k := SiteDisease(t[0].location, t[0].diseaseLabel);
        WeekRowsKeys(t[1..], w, k);
        forall i | 0 <= i < |t[1..]| && InWeek(t[1..][i], w)
          ensures SiteDisease(t[1..][i].location, t[1..][i].diseaseLabel) != k
        {
          assert t[1..][i] == t[i + 1];
          assert InWeek(t[0], YearWeek(t[i + 1].year, t[i + 1].week));
        }
        var r := WeekRows(t, w);
        assert r == [Tally(k, t[0].currentWeek)] + rest;
        forall a, b | 0 <= a < b < |r| ensures r[a].key != r[b].key {
          assert r[b] == rest[b - 1];
          if a == 0 {
            KeysMember(rest, r[b].key);
          } else {
            assert r[a] == rest[a - 1];
          }
        }
      }
    }
  }

  /** Week over week for location and label `k`: week `w` against the week
      before it, each period's first record for `k` or 0 where it has none;
      nothing when neither week has a record for `k`. */
  function WeeklyChange(t: seq<WeeklyRecord>, w: YearWeek, k: SiteDisease): (c: Option<Comparison>)
    ensures c.None? <==> WeeklyCases(t, PreviousWeek(w), k).None? && WeeklyCases(t, w, k).None?
    ensures c.Some? ==> c.value == Compare(WeeklyCases(t, PreviousWeek(w), k).GetOr(0), WeeklyCases(t, w, k).GetOr(0))
  {
    WeekRowsFirst(t, PreviousWeek(w), k);
    WeekRowsFirst(t, w, k);
    ComparePeriods(WeekRows(t, PreviousWeek(w)), WeekRows(t, w), k)
  }

  /** With one record per week, location and label, the weekly join holds
      one row per pair that either week reports, with each week's count for
      it or 0 where that week has none. */
  lemma {:induction false} WeeklyJoinUnique(t: seq<WeeklyRecord>, w: YearWeek)
    requires UniqueWeekly(t)
    ensures var j := OuterJoin(WeekRows(t, PreviousWeek(w)), WeekRows(t, w));
      && DistinctJoinedKeys(j)
      && JoinedKeys(j) == Keys(WeekRows(t, PreviousWeek(w))) + Keys(WeekRows(t, w))
      && forall i :: 0 <= i < |j| ==>
           && j[i].before == WeeklyCases(t, PreviousWeek(w), j[i].key).GetOr(0)
           && j[i].after == WeeklyCases(t, w, j[i].key).GetOr(0)
  {
    var earlier := WeekRows(t, PreviousWeek(w));
    var later := WeekRows(t, w);
    WeekRowsDistinct(t, PreviousWeek(w));
    WeekRowsDistinct(t, w);
    OuterJoinUnique(earlier, later);
    var j := OuterJoin(earlier, later);
    forall i | 0 <= i < |j|
      ensures j[i].before == WeeklyCases(t, PreviousWeek(w), j[i].key).GetOr(0)
      ensures j[i].after == WeeklyCases(t, w, j[i].key).GetOr(0)
    {
      WeekRowsFirst(t, PreviousWeek(w), j[i].key);
      WeekRowsFirst(t, w, j[i].key);
    }
  }

  // ---------------------------------------------------------------- yearly

  predicate InYearOf(r: AnnualRecord, year: int, disease: string)
  {
    r.year == year && r.disease == disease
  }

  /** The rows of `disease` in `year`, projected to state and Case Count, a
      missing Case Count read as 0. */
  function YearRows(t: seq<AnnualRecord>, year: int, disease: string): seq<Tally<string>>
  {
    if |t| == 0 then []
    else
      (if InYearOf(t[0], year, disease) then [Tally(t[0].state, t[0].caseCount.GetOr(0))] else [])
      + YearRows(t[1..], year, disease)
  }

  /** The Case Count of the first record of `disease` in `year` for `state`,
      a missing Case Count read as 0, straight off the table. */
  function AnnualCases(t: seq<AnnualRecord>, year: int, disease: string, state: string): Option<int>
  {
    if |t| == 0 then None
    else if InYearOf(t[0], year, disease) && t[0].state == state then Some(t[0].caseCount.GetOr(0))
    else AnnualCases(t[1..], year, disease, state)
  }

  lemma {:induction false} YearRowsFirst(t: seq<AnnualRecord>, year: int, disease: string, state: string)
    ensures FirstCount(YearRows(t, year, disease), state) == AnnualCases(t, year, disease, state)
  {
    if |t| > 0 {
      YearRowsFirst(t[1..], year, disease, state);
      var head := if InYearOf(t[0], year, disease) then [Tally(t[0].state, t[0].caseCount.GetOr(0))] else [];
      FirstCountAppend(head, YearRows(t[1..], year, disease), state);
    }
  }

  /** Year over year for `disease` in `state`: `year` against `year - 1`,
      each year's first record or 0 where it has none; nothing when neither
      year has a record for the state. */
  function YearlyChange(t: seq<AnnualRecord>, year: int, disease: string, state: string): (c: Option<Comparison>)
    ensures c.None? <==> AnnualCases(t, year - 1, disease, state).None? && AnnualCases(t, year, disease, state).None?
    ensures c.Some? ==> c.value == Compare(AnnualCases(t, year - 1, disease, state).GetOr(0),
                                           AnnualCases(t, year, disease, state).GetOr(0))
  {
    YearRowsFirst(t, year - 1, disease, state);
    YearRowsFirst(t, year, disease, state);
    ComparePeriods(YearRows(t, year - 1, disease), YearRows(t, year, disease), state)
  }

  /** The dashboard's yearly comparison sets 2023 against 2022. */
  lemma {:induction false} DashboardYearlyChange(t: seq<AnnualRecord>, disease: string, state: string)
    ensures var c := YearlyChange(t, ComparisonYear, disease, state);
      && (c.None? <==> AnnualCases(t, 2022, disease, state).None? && AnnualCases(t, 2023, disease, state).None?)
      && (c.Some? ==> (c.value.before == AnnualCases(t, 2022, disease, state).GetOr(0)
                    && c.value.after == AnnualCases(t, 2023, disease, state).GetOr(0)))
  {
  }

  // -------------------------------------------------------------- examples

  /** 10 cases of Measles in California in week 10 of 2024 and 5 in week 11:
      down 50 percent. */
  lemma {:induction false} WeeklyMeaslesHalved()
    ensures var t := [WeeklyRecord(2024, 11, "California", "Measles", 5, 0),
                      WeeklyRecord(2024, 10, "California", "Measles", 10, 0)];
      WeeklyChange(t, YearWeek(2024, 11), SiteDisease("California", "Measles"))
        == Some(Comparison(10, 5, -50.0, Decreased))
  {
    var t := [WeeklyRecord(2024, 11, "California", "Measles", 5, 0),
              WeeklyRecord(2024, 10, "California", "Measles", 10, 0)];
    var k := SiteDisease("California", "Measles");
    assert WeeklyCases(t, YearWeek(2024, 10), k) == Some(10);
    assert WeeklyCases(t, YearWeek(2024, 11), k) == Some(5);
  }

  /** 100 cases of Measles in California in 2022 and 150 in 2023: up 50 percent. */
  lemma {:induction false} YearlyMeaslesUp()
    ensures var t := [AnnualRecord(2022, "California", "CA", "Measles", Some(100)),
                      AnnualRecord(2023, "California", "CA", "Measles", Some(150))];
      YearlyChange(t, 2023, "Measles", "California") == Some(Comparison(100, 150, 50.0, Increased))
  {
    var t := [AnnualRecord(2022, "California", "CA", "Measles", Some(100)),
              AnnualRecord(2023, "California", "CA", "Measles", Some(150))];
    assert AnnualCases(t, 2022, "Measles", "California") == Some(100);
    assert AnnualCases(t, 2023, "Measles", "California") == Some(150);
  }

  /** A pair absent from both weeks yields no comparison. */
  lemma {:induction false} WeeklyAbsentPair()
    ensures var t := [WeeklyRecord(2024, 11, "California", "Measles", 5, 0)];
      WeeklyChange(t, YearWeek(2024, 11), SiteDisease("Texas", "Measles")) == None
  {
    var t := [WeeklyRecord(2024, 11, "California", "Measles", 5, 0)];
    assert WeeklyCases(t, YearWeek(2024, 10), SiteDisease("Texas", "Measles")) == None;
    assert WeeklyCases(t, YearWeek(2024, 11), SiteDisease("Texas", "Measles")) == None;
  }
}
