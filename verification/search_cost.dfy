/**
 * The search-cost statistics `setStats` keeps for each outcome: the lowest
 * and highest cost seen, their running total (the field the Java code calls
 * the average) and their number. Here each is a function of the sequence of
 * recorded costs.
 */
module SearchCost {
  import opened IntText

  /** The lowest recorded cost; `Integer.MAX_VALUE` before anything is recorded. */
  function Lowest(costs: seq<int>): int
  {
    if costs == [] then IntMax
    else
      var m := Lowest(costs[..|costs| - 1]);
      if costs[|costs| - 1] < m then costs[|costs| - 1] else m
  }

  /** The highest recorded cost; 0 before anything is recorded. */
  function Highest(costs: seq<int>): int
  {
    if costs == [] then 0
    else
      var m := Highest(costs[..|costs| - 1]);
      if costs[|costs| - 1] > m then costs[|costs| - 1] else m
  }

  /** The minimum field is the least recorded cost, or its initial value when that is smaller. */
  lemma {:induction false} LowestIsMinimum(costs: seq<int>)
    ensures Lowest(costs) <= IntMax
    ensures forall i | 0 <= i < |costs| :: Lowest(costs) <= costs[i]
    ensures Lowest(costs) == IntMax || Lowest(costs) in costs
  {
    if costs != [] {
      var init := costs[..|costs| - 1];
      LowestIsMinimum(init);
      assert forall i | 0 <= i < |init| :: init[i] == costs[i];
      assert Lowest(init) in init ==> Lowest(init) in costs;
    }
  }

  /** The maximum field is the greatest recorded cost, or 0 when nothing positive was recorded. */
  lemma {:induction false} HighestIsMaximum(costs: seq<int>)
    ensures Highest(costs) >= 0
    ensures forall i | 0 <= i < |costs| :: costs[i] <= Highest(costs)
    ensures Highest(costs) == 0 || Highest(costs) in costs
  {
    if costs != [] {
      var init := costs[..|costs| - 1];
      HighestIsMaximum(init);
      assert forall i | 0 <= i < |init| :: init[i] == costs[i];
      assert Highest(init) in init ==> Highest(init) in costs;
    }
  }

  /** The running total of the recorded costs. */
  function Total(costs: seq<int>): int
  {
    if costs == [] then 0 else Total(costs[..|costs| - 1]) + costs[|costs| - 1]
  }

  /** Recording one more cost: the step `setStats` takes. */
  lemma Record(costs: seq<int>, cost: int)
    ensures Lowest(costs + [cost]) == if cost < Lowest(costs) then cost else Lowest(costs)
    ensures Highest(costs + [cost]) == if cost > Highest(costs) then cost else Highest(costs)
    ensures Total(costs + [cost]) == Total(costs) + cost
  {
    assert (costs + [cost])[..|costs|] == costs;
  }

  lemma MulMono(n: nat, a: int, b: int)
    requires a <= b
    ensures n * a <= n * b
  {
  }

  lemma MulSucc(n: nat, x: int)
    ensures (n + 1) * x == n * x + x
  {
  }

  /**
   * The average the statistics report (total divided by count) lies between
   * the lowest and the highest recorded cost.
   */
  lemma {:induction false} TotalBetween(costs: seq<int>)
    ensures |costs| * Lowest(costs) <= Total(costs) <= |costs| * Highest(costs)
  {
    if costs != [] {
      var init, last := costs[..|costs| - 1], costs[|costs| - 1];
      var n := |init|;
      var lo, hi := Lowest(costs), Highest(costs);
      TotalBetween(init);
      LowestIsMinimum(costs);
      HighestIsMaximum(costs);
      assert lo <= Lowest(init) && Highest(init) <= hi;
      assert lo <= last <= hi;
      MulMono(n, lo, Lowest(init));
      MulMono(n, Highest(init), hi);
      assert Total(costs) == Total(init) + last;
      assert n * lo <= Total(init) <= n * hi;
      MulSucc(n, lo);
      MulSucc(n, hi);
    }
  }
}
