/** The "Total Cases by Year" line: for the selected disease, the Case
    Count summed per year, years in ascending order. */
module Trend {
  import opened Options
  import opened Tables
  import opened Sorting
  import opened Grouping

  /** The disease's rows projected to Year and Case Count; a missing Case
      Count adds nothing to a sum. */
  function CaseRows(t: seq<AnnualRecord>, disease: string): seq<Tally<int>>
  {
    if |t| == 0 then []
    else
      (if t[0].disease == disease then [Tally(t[0].year, t[0].caseCount.GetOr(0))] else [])
      + CaseRows(t[1..], disease)
  }

  /** The years in which the disease has a row. */
  function DiseaseYears(t: seq<AnnualRecord>, disease: string): set<int>
  {
    set r | r in t && r.disease == disease :: r.year
  }

  /** The Case Count of `disease` in `year`, summed straight off the table;
      missing counts add nothing. */
  function CaseSum(t: seq<AnnualRecord>, disease: string, year: int): int
  {
    if |t| == 0 then 0
    else (if t[0].disease == disease && t[0].year == year then t[0].caseCount.GetOr(0) else 0)
         + CaseSum(t[1..], disease, year)
  }

  /** The Case Count of `disease` over all years. */
  function DiseaseCases(t: seq<AnnualRecord>, disease: string): int
  {
    if |t| == 0 then 0
    else (if t[0].disease == disease then t[0].caseCount.GetOr(0) else 0) + DiseaseCases(t[1..], disease)
  }

  predicate EarlierYear(a: Tally<int>, b: Tally<int>)
  {
    a.key < b.key
  }

  /** `groupby('Year')['Case Count'].sum()` over the disease's rows: one
      entry per year the disease has a row in, in ascending order of year,
      each the year's summed Case Count. */
  function YearTotals(t: seq<AnnualRecord>, disease: string): (r: seq<Tally<int>>)
    ensures forall i, j :: 0 <= i < j < |r| ==> r[i].key < r[j].key
    ensures Keys(r) == DiseaseYears(t, disease)
    ensures forall i :: 0 <= i < |r| ==> r[i].count == CaseSum(t, disease, r[i].key)
  {
    var rows := CaseRows(t, disease);
    var groups := GroupSum(rows);
    var r := Sort(groups, EarlierYear);
    EarlierYearOrder();
    SortSorted(groups, EarlierYear);
    SortKeepsGroups(groups, EarlierYear);
    CaseRowsYears(t, disease);
    assert forall i :: 0 <= i < |r| ==> r[i].count == CaseSum(t, disease, r[i].key) by {
      forall i | 0 <= i < |r| ensures r[i].count == CaseSum(t, disease, r[i].key) {
        assert r[i] in multiset(groups);
        CaseRowsSum(t, disease, r[i].key);
      }
    }
    r
  }

  lemma {:induction false} EarlierYearOrder()
    ensures StrictWeakOrder(EarlierYear)
  {
  }

  lemma {:induction false} CaseRowsYears(t: seq<AnnualRecord>, disease: string)
    ensures Keys(CaseRows(t, disease)) == DiseaseYears(t, disease)
  {
    if |t| > 0 {
      CaseRowsYears(t[1..], disease);
      var head := if t[0].disease == disease then [Tally(t[0].year, t[0].caseCount.GetOr(0))] else [];
      KeysAppend(head, CaseRows(t[1..], disease));
      assert t == [t[0]] + t[1..];
      assert DiseaseYears(t, disease) == Keys(head) + DiseaseYears(t[1..], disease);
    }
  }

  lemma {:induction false} CaseRowsSum(t: seq<AnnualRecord>, disease: string, year: int)
    ensures SumFor(CaseRows(t, disease), year) == CaseSum(t, disease, year)
  {
    if |t| > 0 {
      CaseRowsSum(t[1..], disease, year);
      var head := if t[0].disease == disease then [Tally(t[0].year, t[0].caseCount.GetOr(0))] else [];
      SumForAppend(head, CaseRows(t[1..], disease), year);
    }
  }

  lemma {:induction false} CaseRowsTotal(t: seq<AnnualRecord>, disease: string)
    ensures Total(CaseRows(t, disease)) == DiseaseCases(t, disease)
  {
    if |t| > 0 {
      CaseRowsTotal(t[1..], disease);
      var head := if t[0].disease == disease then [Tally(t[0].year, t[0].caseCount.GetOr(0))] else [];
      TotalAppend(head, CaseRows(t[1..], disease));
    }
  }

  /** The yearly totals add up to the disease's Case Count over all years:
      grouping by year neither loses nor invents cases. */
  lemma {:induction false} TrendTotal(t: seq<AnnualRecord>, disease: string)
    ensures Total(YearTotals(t, disease)) == DiseaseCases(t, disease)
  {
    var groups := GroupSum(CaseRows(t, disease));
    SortKeepsGroups(groups, EarlierYear);
    GroupSumTotal(CaseRows(t, disease));
    CaseRowsTotal(t, disease);
  }

  lemma {:induction false} CaseRowsAppend(a: seq<AnnualRecord>, b: seq<AnnualRecord>, disease: string)
    ensures CaseRows(a + b, disease) == CaseRows(a, disease) + CaseRows(b, disease)
  {
    if |a| > 0 {
      assert (a + b)[1..] == a[1..] + b;
      CaseRowsAppend(a[1..], b, disease);
    } else {
      assert a + b == b;
    }
  }

  /** A Case Count that did not parse counts as 0: the trend is the same as
      with a 0 in its place, and its year still appears. */
  lemma {:induction false} MissingCountAddsNothing(a: seq<AnnualRecord>, r: AnnualRecord, b: seq<AnnualRecord>, disease: string)
    requires r.caseCount.None?
    ensures YearTotals(a + [r] + b, disease) == YearTotals(a + [r.(caseCount := Some(0))] + b, disease)
  {
    var z := r.(caseCount := Some(0));
    assert CaseRows(a + [r] + b, disease) == CaseRows(a + [z] + b, disease) by {
      CaseRowsAppend(a + [r], b, disease);
      CaseRowsAppend(a, [r], disease);
      CaseRowsAppend(a + [z], b, disease);
      CaseRowsAppend(a, [z], disease);
      assert CaseRows([r], disease) == CaseRows([z], disease);
    }
  }
}
