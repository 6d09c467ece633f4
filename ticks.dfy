/**
 * The y-axis ticks of the spectrum plot: multiples of a fixed step from 0
 * up to the first one that reaches 110% of the largest absorbance.
 */
module Ticks {

  /** The largest reading. */
  function Max(data: seq<real>): (m: real)
    requires |data| > 0
    ensures m in data
    ensures forall k :: 0 <= k < |data| ==> data[k] <= m
  {
    if |data| == 1 then data[0]
    else
      var rest := Max(data[1..]);
      assert forall k :: 1 <= k < |data| ==> data[k] == data[1..][k - 1];
      if data[0] >= rest then data[0] else rest
  }

  /** The smallest reading. */
  function Min(data: seq<real>): (m: real)
    requires |data| > 0
    ensures m in data
    ensures forall k :: 0 <= k < |data| ==> m <= data[k]
  {
    if |data| == 1 then data[0]
    else
      var rest := Min(data[1..]);
      assert forall k :: 1 <= k < |data| ==> data[k] == data[1..][k - 1];
      if data[0] <= rest then data[0] else rest
  }

  /** Head room above the largest reading: the ticks go up to 110% of it. */
  const ReserveCoefficient: real := 1.1

  /** Half units for a spread under 2, whole units otherwise. */
  function TickStep(data: seq<real>): (step: real)
    requires |data| > 0
    ensures step == 0.5 || step == 1.0
    ensures step == 0.5 <==> Max(data) - Min(data) < 2.0
  {
    if Max(data) - Min(data) < 2.0 then 0.5 else 1.0
  }

  /** The level the top tick must reach. */
  function TickLimit(data: seq<real>): real
    requires |data| > 0
  {
    Max(data) * ReserveCoefficient
  }

  /**
   * `ticks` are 0, step, 2 step, ... and stop at the first of them that is
   * at least `limit`.
   */
  predicate Reaches(ticks: seq<real>, step: real, limit: real)
  {
    && |ticks| >= 1
    && (forall k :: 0 <= k < |ticks| ==> ticks[k] == k as real * step)
    && ticks[|ticks| - 1] >= limit
    && (forall k :: 0 <= k < |ticks| - 1 ==> ticks[k] < limit)
  }

  /**
   * The tick list of the plot: starting at 0, one step at a time while the
   * last tick is below the limit.
   */
  method GenerateYTicks(data: seq<real>) returns (ticks: seq<real>)
    requires |data| > 0
    ensures Reaches(ticks, TickStep(data), TickLimit(data))
  {
    var limit := Max(data) * ReserveCoefficient;
    var step := if Max(data) - Min(data) < 2.0 then 0.5 else 1.0;
    ticks := [0.0];
    var current := 0.0;
    ghost var k: int := 0;
    while current < limit
      invariant step == 0.5 || step == 1.0
      invariant k >= 0 && |ticks| == k + 1 && current == k as real * step
      invariant forall j :: 0 <= j < |ticks| ==> ticks[j] == j as real * step
      invariant forall j :: 0 <= j < |ticks| - 1 ==> ticks[j] < limit
      decreases (2.0 * (limit - current)).Floor
    {
      assert (k + 1) as real * step == k as real * step + step;
      current := current + step;
      ticks := ticks + [current];
      k := k + 1;
    }
    assert step == TickStep(data) && limit == TickLimit(data);
  }

  /** Two tick lists that both stop at the first multiple reaching the limit are equal. */
  lemma ReachesUnique(a: seq<real>, b: seq<real>, step: real, limit: real)
    requires step > 0.0
    requires Reaches(a, step, limit) && Reaches(b, step, limit)
    ensures a == b
  {
    var la, lb := |a| - 1, |b| - 1;
    if la < |b| {
      assert b[la] == a[la];
    }
    if lb < |a| {
      assert a[lb] == b[lb];
    }
  }

  /**
   * The top tick lies above every reading and overshoots the limit by less
   * than one step; a series whose readings are all at most 0 gets the
   * single tick 0.
   */
  lemma TopTick(data: seq<real>, ticks: seq<real>)
    requires |data| > 0
    requires Reaches(ticks, TickStep(data), TickLimit(data))
    ensures forall k :: 0 <= k < |data| ==> data[k] <= ticks[|ticks| - 1]
    ensures ticks[|ticks| - 1] < TickLimit(data) + TickStep(data) || ticks == [0.0]
    ensures Max(data) <= 0.0 ==> ticks == [0.0]
  {
    var top := ticks[|ticks| - 1];
    if Max(data) >= 0.0 {
      assert Max(data) <= TickLimit(data);
    } else {
      assert top >= ticks[0];
    }
    if |ticks| > 1 {
      var n := |ticks| - 1;
      assert top == ticks[n - 1] + TickStep(data);
    } else {
      assert ticks == [ticks[0]];
    }
  }

  /**
   * Readings 0.1 and 1.8: the spread 1.7 is under 2, so the step is 0.5, and
   * the ticks run up to 2.0, the first multiple reaching 1.8 * 1.1 = 1.98.
   */
  lemma TicksExample(ticks: seq<real>)
    requires Reaches(ticks, TickStep([0.1, 1.8]), TickLimit([0.1, 1.8]))
    ensures ticks == [0.0, 0.5, 1.0, 1.5, 2.0]
  {
    var data := [0.1, 1.8];
    assert Max(data) == 1.8 && Min(data) == 0.1;
    var expected := [0.0, 0.5, 1.0, 1.5, 2.0];
    assert forall k :: 0 <= k < |expected| ==> expected[k] == k as real * 0.5;
    ReachesUnique(ticks, expected, TickStep(data), TickLimit(data));
  }
}
