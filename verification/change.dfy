/** Percent change between two periods and its three-way classification,
    shared by the weekly and the yearly comparison. */
module Change {

  /** The trend shown beside a comparison: "increased", "decreased" or
      "remained steady". */
  datatype Direction = Increased | Decreased | Steady

  /** The annotation colour of the weekly comparison. */
  datatype Colour = Red | Green | Gray

  /** The change from `before` to `after` in percent of `before`; 0 when
      `before` is 0, instead of dividing by zero. */
  function PercentChange(before: int, after: int): (r: real)
    ensures before == 0 ==> r == 0.0
    ensures before != 0 ==> r * before as real == (after - before) as real * 100.0
  {
    if before != 0 then (after - before) as real / before as real * 100.0 else 0.0
  }

  /** The direction of a change, by its sign. */
  function DirectionOf(change: real): (d: Direction)
    ensures d == Increased <==> change > 0.0
    ensures d == Decreased <==> change < 0.0
    ensures d == Steady <==> change == 0.0
  {
    if change > 0.0 then Increased else if change < 0.0 then Decreased else Steady
  }

  /** The colour of a change: red for a rise in cases, green for a fall,
      gray for none. */
  function ColourOf(change: real): (c: Colour)
    ensures c == Red <==> DirectionOf(change) == Increased
    ensures c == Green <==> DirectionOf(change) == Decreased
    ensures c == Gray <==> DirectionOf(change) == Steady
  {
    if change > 0.0 then Red else if change < 0.0 then Green else Gray
  }

  /** With a positive earlier count the change has the sign of the
      difference of the counts, with a negative one the opposite sign; with
      an earlier count of 0 it is 0 whatever the later count. */
  lemma {:induction false} ChangeSign(before: int, after: int)
    ensures before > 0 ==> (PercentChange(before, after) > 0.0 <==> after > before)
    ensures before > 0 ==> (PercentChange(before, after) < 0.0 <==> after < before)
    ensures before > 0 ==> (PercentChange(before, after) == 0.0 <==> after == before)
    ensures before < 0 ==> (PercentChange(before, after) > 0.0 <==> after < before)
    ensures before < 0 ==> (PercentChange(before, after) < 0.0 <==> after > before)
    ensures before < 0 ==> (PercentChange(before, after) == 0.0 <==> after == before)
    ensures before == 0 ==> PercentChange(before, after) == 0.0
  {
    if before != 0 {
      var r := PercentChange(before, after);
      var d := (after - before) as real * 100.0;
      assert r * before as real == d;
      if r > 0.0 && before > 0 { assert r * before as real > 0.0; }
      if r < 0.0 && before > 0 { assert r * before as real < 0.0; }
      if r > 0.0 && before < 0 { assert r * before as real < 0.0; }
      if r < 0.0 && before < 0 { assert r * before as real > 0.0; }
      if r == 0.0 { assert d == 0.0; }
    }
  }

  /** The result of one comparison: the two counts, the percent change and
      its direction. */
  datatype Comparison = Comparison(before: int, after: int, change: real, direction: Direction)

  /** Compares the counts of two periods. */
  function Compare(before: int, after: int): (c: Comparison)
    ensures c.before == before && c.after == after
    ensures before != 0 ==> c.change * before as real == (after - before) as real * 100.0
    ensures before == 0 ==> c.change == 0.0 && c.direction == Steady
    ensures before > 0 ==> (c.direction == Increased <==> after > before)
    ensures before > 0 ==> (c.direction == Decreased <==> after < before)
    ensures before > 0 ==> (c.direction == Steady <==> after == before)
    ensures before < 0 ==> (c.direction == Increased <==> after < before)
    ensures before < 0 ==> (c.direction == Decreased <==> after > before)
    ensures before < 0 ==> (c.direction == Steady <==> after == before)
    ensures c.direction == DirectionOf(c.change)
  {
    var change := PercentChange(before, after);
    ChangeSign(before, after);
    Comparison(before, after, change, DirectionOf(change))
  }
}
