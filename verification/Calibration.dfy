/** Tuning the internal oscillator: a binary search for the setting just below the target
    frequency, then a search of its neighbourhood. A response gives the frame length measured
    at each of the 256 settings. */
module Calibration {

  /** 1499 * F_CPU / 10.5 MHz, rounded, at 16.5 MHz. */
  const TARGET: int := 2356

  /** Faster settings measure no shorter frames, and a measurement fits a signed word. */
  predicate Response(f: seq<int>) {
    && |f| == 256
    && (forall v :: 0 <= v < 256 ==> 0 <= f[v] < 0x8000)
    && (forall v, w :: 0 <= v <= w < 256 ==> f[v] <= f[w])
  }

  function Deviation(f: seq<int>, v: nat, target: int): (d: nat)
    requires v < |f|
  {
    if f[v] < target then target - f[v] else f[v] - target
  }

  predicate Optimal(f: seq<int>, v: nat, target: int) {
    v < |f| && forall w :: 0 <= w < |f| ==> Deviation(f, v, target) <= Deviation(f, w, target)
  }

  /** The last setting below the target, or 0; the search never measures setting 0. */
  predicate LastBelow(f: seq<int>, t: nat, target: int) {
    && t < |f|
    && (t > 0 ==> f[t] < target)
    && (t + 1 < |f| ==> f[t + 1] >= target)
  }

  /** The settings still possible before a step: the k'th interval of twice its size. */
  predicate Place(trialValue: nat, step: nat, k: nat) {
    && step in {128, 64, 32, 16, 8, 4, 2, 1}
    && trialValue == 2 * step * k && trialValue + 2 * step <= 256
  }

  lemma NextPlace(trialValue: nat, step: nat, k: nat)
    requires Place(trialValue, step, k) && step > 1
    ensures 2 * (step / 2) == step
    ensures Place(trialValue, step / 2, 2 * k) && Place(trialValue + step, step / 2, 2 * k + 1)
  {
    var half := step / 2;
    assert step == 2 * half;
    assert 2 * half * (2 * k) == 2 * step * k;
    assert 2 * half * (2 * k + 1) == 2 * half * (2 * k) + 2 * half;
  }

  /** The do-while loop: steps 128, 64, ..., 1. The last measurement was at the result when the
      result is odd, and just above it otherwise. */
  method BinarySearch(f: seq<int>, target: int) returns (trialValue: nat, x: int)
    requires Response(f)
    ensures LastBelow(f, trialValue, target)
    ensures trialValue + 1 < 256 || trialValue % 2 == 1
    ensures x == if trialValue % 2 == 1 then f[trialValue] else f[trialValue + 1]
  {
    hide Place;
    var step: nat := 128;
    ghost var k: nat := 0;
    trialValue := 0;
    FirstPlace();
    while true
      invariant Place(trialValue, step, k) && trialValue < 256
      invariant trialValue > 0 ==> f[trialValue] < target
      invariant trialValue + 2 * step < 256 ==> f[trialValue + 2 * step] >= target
      decreases step
    {
      PlaceMeans(trialValue, step, k);
      if step > 1 {
        NextPlace(trialValue, step, k);
      }
      k := 2 * k;
      x := f[trialValue + step];
      if x < target {
        trialValue := trialValue + step;
        k := k + 1;
      }
      step := step / 2;
      if step == 0 {
        break;
      }
    }
  }

  lemma FirstPlace()
    ensures Place(0, 128, 0)
  {
  }

  lemma PlaceMeans(trialValue: nat, step: nat, k: nat)
    requires Place(trialValue, step, k)
    ensures 1 <= step && trialValue + 2 * step <= 256
    ensures step / 2 == 0 ==> step == 1 && trialValue % 2 == 0
  {
  }

  /** The same setting, found by counting down. */
  function Crossing(f: seq<int>, target: int, from: nat): (t: nat)
    requires from < |f|
    ensures t <= from && (t > 0 ==> f[t] < target)
    ensures forall v :: t < v <= from ==> f[v] >= target
  {
    if from == 0 || f[from] < target then from else Crossing(f, target, from - 1)
  }

  lemma LastBelowIsCrossing(f: seq<int>, t: nat, target: int)
    requires Response(f) && LastBelow(f, t, target)
    ensures t == Crossing(f, target, 255)
  {
    var u := Crossing(f, target, 255);
    Rises(f, t + 1, u);
  }

  lemma Rises(f: seq<int>, v: nat, w: nat)
    requires Response(f)
    ensures v <= w < 256 ==> f[v] <= f[w]
  {
  }

  /** The guard of the neighbourhood loop: an eight-bit register against a wider sum. */
  predicate Guard(osccal: nat, trialValue: nat) {
    osccal <= trialValue + 1
  }

  /** It holds of every value of the register, so the loop never ends. */
  predicate NeverEnds(trialValue: nat) {
    forall osccal: nat | osccal < 256 :: Guard(osccal, trialValue)
  }

  lemma NeverEndsFrom254(trialValue: nat)
    ensures NeverEnds(trialValue) <==> trialValue >= 254
  {
    var top: nat := 255;
    assert NeverEnds(trialValue) ==> Guard(top, trialValue);
  }

  /** The calibration hangs exactly when setting 254 is still below the target. */
  lemma HangsBelowTarget(f: seq<int>, target: int)
    requires Response(f)
    ensures NeverEnds(Crossing(f, target, 255)) <==> f[254] < target
  {
    hide NeverEnds;
    var t := Crossing(f, target, 255);
    NeverEndsFrom254(t);
    Rises(f, 254, 255);
    Rises(f, 254, t);
  }

  /** The neighbourhood loop. It is skipped when the search ended on 0; otherwise it tries the
      three settings around the search's result. */
  method Neighbourhood(f: seq<int>, target: int, trialValue: nat, x0: int) returns (optimumValue: nat)
    requires Response(f) && 0 < target < 0x8000 && trialValue <= 253
    ensures trialValue == 0 ==> optimumValue == 0
    ensures (trialValue > 0 ==>
              && trialValue - 1 <= optimumValue <= trialValue + 1
              && if (exists v :: trialValue - 1 <= v <= trialValue + 1 && Deviation(f, v, target) < x0) then
                   forall v :: trialValue - 1 <= v <= trialValue + 1 ==>
                     Deviation(f, optimumValue, target) <= Deviation(f, v, target)
                 else optimumValue == trialValue)
  {
    hide Deviation;
    optimumValue := trialValue;
    var optimumDev := x0;
    var osccal := (trialValue + 255) % 256;
    while Guard(osccal, trialValue)
      invariant trialValue == 0 ==> osccal == 255 && optimumValue == 0
      invariant trialValue > 0 ==> trialValue - 1 <= osccal <= trialValue + 2
      invariant trialValue > 0 ==> trialValue - 1 <= optimumValue <= trialValue + 1
      invariant (trialValue > 0 ==>
                  if optimumDev == x0 then optimumValue == trialValue
                  else optimumDev < x0 && optimumDev == Deviation(f, optimumValue, target))
      invariant trialValue > 0 ==> forall v :: trialValue - 1 <= v < osccal ==> optimumDev <= Deviation(f, v, target)
      decreases 256 - osccal
    {
      var x := f[osccal] - target;
      if x < 0 {
        x := -x;
      }
      DeviationIs(f, osccal, target);
      if x < optimumDev {
        optimumDev := x;
        optimumValue := osccal;
      }
      osccal := (osccal + 1) % 256;
    }
  }

  lemma DeviationIs(f: seq<int>, v: nat, target: int)
    requires v < |f|
    ensures Deviation(f, v, target) == if f[v] - target < 0 then -(f[v] - target) else f[v] - target
  {
  }

  /** When the result is not the best setting. At the low end, the search stops on 0 although 1
      is closer. With an odd result, its own frame length stands in for its deviation, and no
      neighbour's deviation is smaller than that. */
  predicate Misses(f: seq<int>, target: int)
    requires |f| == 256
  {
    var t := Crossing(f, target, 255);
    || (t == 0 && f[0] < target && f[1] - target < target - f[0])
    || (t % 2 == 1 && t < 255 && f[t] <= f[t + 1] - target < target - f[t])
  }

  /** Away from the result of the search, deviations only grow. */
  lemma Valley(f: seq<int>, target: int, t: nat, v: nat)
    requires Response(f) && LastBelow(f, t, target) && t < 255 && v < 256
    ensures v <= t && f[t] < target ==> Deviation(f, t, target) <= Deviation(f, v, target)
    ensures v > t ==> Deviation(f, t + 1, target) <= Deviation(f, v, target)
  {
    if v <= t {
      Rises(f, v, t);
    } else {
      Rises(f, t + 1, v);
    }
  }

  /** The best setting is on one side or the other of the crossing. */
  lemma BestNearCrossing(f: seq<int>, target: int, t: nat, v: nat)
    requires Response(f) && LastBelow(f, t, target) && t < 255 && (t > 0 || f[0] < target) && v < 256
    ensures (Optimal(f, v, target) <==>
              && Deviation(f, v, target) <= Deviation(f, t, target)
              && Deviation(f, v, target) <= Deviation(f, t + 1, target))
  {
    hide Deviation, Response, LastBelow;
    BelowMeans(f, t, target);
    forall w | 0 <= w < 256
      ensures (|| Deviation(f, t, target) <= Deviation(f, w, target)
               || Deviation(f, t + 1, target) <= Deviation(f, w, target))
    {
      Valley(f, target, t, w);
    }
  }

  lemma BelowMeans(f: seq<int>, t: nat, target: int)
    requires Response(f) && LastBelow(f, t, target)
    ensures |f| == 256 && t < 256 && (t > 0 ==> f[t] < target) && (t < 255 ==> f[t + 1] >= target)
    ensures f[t] >= 0
  {
  }

  lemma JudgeZero(f: seq<int>, target: int)
    requires Response(f) && LastBelow(f, 0, target) && Crossing(f, target, 255) == 0
    ensures Optimal(f, 0, target) <==> !Misses(f, target)
  {
    hide Crossing, Response, LastBelow, Optimal;
    BelowMeans(f, 0, target);
    if f[0] < target {
      BestNearCrossing(f, target, 0, 0);
    } else {
      assert Optimal(f, 0, target) by {
        ZeroAbove(f, target);
      }
    }
  }

  lemma ZeroAbove(f: seq<int>, target: int)
    requires Response(f) && f[0] >= target
    ensures Optimal(f, 0, target)
  {
  }

  lemma Judge(f: seq<int>, target: int, t: nat, x: int, v: nat)
    requires Response(f) && LastBelow(f, t, target) && Crossing(f, target, 255) == t
    requires 0 < t <= 253 && 0 < target
    requires x == if t % 2 == 1 then f[t] else f[t + 1]
    requires t - 1 <= v <= t + 1
    requires (if (exists w :: t - 1 <= w <= t + 1 && Deviation(f, w, target) < x) then
                forall w :: t - 1 <= w <= t + 1 ==> Deviation(f, v, target) <= Deviation(f, w, target)
              else v == t)
    ensures Optimal(f, v, target) <==> !Misses(f, target)
  {
    hide Crossing, Response, LastBelow, Optimal, Deviation;
    BelowMeans(f, t, target);
    DeviationIs(f, t, target);
    DeviationIs(f, t + 1, target);
    Valley(f, target, t, t - 1);
    BestNearCrossing(f, target, t, v);
  }

  /** OSCCAL_Start, for every response that reaches the target at setting 254: it ends on a
      setting with the least deviation of all 256, unless it misses. */
  method OscCalStart(f: seq<int>, target: int) returns (osccal: nat)
    requires Response(f) && 0 < target < 0x8000 && f[254] >= target
    ensures osccal < 256
    ensures Optimal(f, osccal, target) <==> !Misses(f, target)
  {
    hide Response, LastBelow, Optimal, Misses, Crossing, Deviation;
    var trialValue, x := BinarySearch(f, target);
    LastBelowIsCrossing(f, trialValue, target);
    HangsBelowTarget(f, target);
    NeverEndsFrom254(trialValue);
    assert trialValue <= 253;
    var optimumValue := Neighbourhood(f, target, trialValue, x);
    osccal := optimumValue;
    if trialValue == 0 {
      JudgeZero(f, target);
    } else {
      Judge(f, target, trialValue, x, osccal);
    }
  }

  /** With at least one measured setting below the target and none at half of it or less, the
      search does not miss. */
  lemma UsualResponse(f: seq<int>, target: int)
    requires Response(f) && f[1] < target && forall v :: 1 <= v < 256 ==> 2 * f[v] > target
    ensures !Misses(f, target)
  {
  }

  /** Without the second condition it can: 1 is the last setting below the target and far from
      it, 2 is above but close, and the search stays on 1. */
  lemma MissPossible()
    ensures var f := seq(256, v => if v < 2 then 100 else 2500);
      Response(f) && f[1] < TARGET <= f[254] && Misses(f, TARGET)
  {
    var f := seq(256, v => if v < 2 then 100 else 2500);
    assert f[1] == 100 && f[2] == 2500 && f[254] == 2500;
    LastBelowIsCrossing(f, 1, TARGET);
  }
}
