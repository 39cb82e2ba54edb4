/**
 * The per-appliance body of `main_once` in `corrected_mqtt_lstm_predictor.py`:
 * lift the required count by `MIN_ONS`, take the first model answer that
 * validates (or fall back to the count-adjusted deterministic schedule),
 * then redistribute peak ONs and force the ON-count to the required count.
 */
module CorrectedAgent {
  import opened Vectors
  import opened Tariff
  import opened Repair
  import opened CorrectedRepair

  // ---------------------------------------------------------------------
  // Validation of a candidate

  /**
   * `validate_binary_24`: a list of 24 values, each 0 or 1, whose sum is
   * `expected_ones` when that is given.
   */
  function ValidateBinary24(arr: seq<int>, expectedOnes: Option<int>): (ok: bool)
    ensures ok ==> |arr| == HoursPerDay && IsBinary(arr)
    ensures ok && expectedOnes.Some? ==> Sum(arr) == expectedOnes.value
    ensures |arr| == HoursPerDay && IsBinary(arr) && (expectedOnes.Some? ==> Sum(arr) == expectedOnes.value) ==> ok
  {
    if |arr| != HoursPerDay || exists x :: x in arr && x != 0 && x != 1 then false
    else
      assert forall i :: 0 <= i < |arr| ==> arr[i] in arr;
      if expectedOnes.Some? && Sum(arr) != expectedOnes.value then false
      else true
  }

  /**
   * After `fix_length` only the count can fail: the masked 24-slot list
   * always has the right shape, so it validates exactly when no count is
   * expected or its ON-count is the expected one.
   */
  lemma ValidateFixLength(xs: seq<int>, expectedOnes: Option<int>)
    ensures ValidateBinary24(FixLength(xs), expectedOnes)
      <==> expectedOnes.None? || Sum(FixLength(xs)) == expectedOnes.value
  {
  }

  /** `enforced_ones = max(predicted_ones, int(MIN_ONS.get(appliance, 0)))`. */
  function EnforcedOnes(original: seq<int>, minOns: int): (n: int)
    ensures n >= Sum(original) && n >= minOns
    ensures n == Sum(original) || n == minOns
  {
    if Sum(original) >= minOns then Sum(original) else minOns
  }

  // ---------------------------------------------------------------------
  // The model-first schedule with its fallback

  /**
   * The first attempt from `i` on whose answer, after `fix_length`,
   * validates with the enforced count.  `cands[k]` is the list parsed from
   * attempt `k`'s answer, or `None` when that attempt produced no answer or
   * no parsable list.
   */
  function FirstValidFrom(cands: seq<Option<seq<int>>>, i: nat, enforced: int): (r: Option<seq<int>>)
    requires i <= |cands|
    ensures r.Some? ==> |r.value| == HoursPerDay && IsBinary(r.value) && Sum(r.value) == enforced
    ensures r.Some? ==> exists k :: i <= k < |cands| && cands[k].Some? && r.value == FixLength(cands[k].value)
    ensures r.None? <==> forall k :: i <= k < |cands| && cands[k].Some? ==> Sum(FixLength(cands[k].value)) != enforced
    decreases |cands| - i
  {
    if i == |cands| then None
    else if cands[i].Some? && ValidateBinary24(FixLength(cands[i].value), Some(enforced)) then
      Some(FixLength(cands[i].value))
    else
      var rest := FirstValidFrom(cands, i + 1, enforced);
      assert cands[i].Some? ==> Sum(FixLength(cands[i].value)) != enforced;
      rest
  }

  /**
   * `schedule_with_llm`: the first valid answer, or else the original
   * adjusted to the enforced count and passed through the deterministic
   * fallback.  With no model at all (`cands == []`) this is the fallback of
   * `main_once`.
   */
  function Scheduled(original: seq<int>, cands: seq<Option<seq<int>>>, enforced: int, allowed: bool,
                     peak: seq<int>, offPeak: seq<int>, day: seq<int>): (r: seq<int>)
    requires |original| == HoursPerDay && ValidHours(peak) && ValidHours(offPeak) && ValidHours(day)
  {
    match FirstValidFrom(cands, 0, enforced)
    case Some(v) => v
    case None => Deterministic(Adjusted(original, enforced), allowed, peak, offPeak, day)
  }

  /**
   * The retry loop of `schedule_with_llm`: an attempt without a parsable
   * list moves on to the next one, a list that fails validation too, and
   * the first one that validates is returned.  After the last attempt the
   * count-adjust loops and the deterministic fallback run.
   */
  method ScheduleWithLlm(original: seq<int>, cands: seq<Option<seq<int>>>, enforced: int, allowed: bool,
                         peak: seq<int>, offPeak: seq<int>, day: seq<int>)
    returns (arr: seq<int>)
    requires |original| == HoursPerDay && ValidHours(peak) && ValidHours(offPeak) && ValidHours(day)
    ensures arr == Scheduled(original, cands, enforced, allowed, peak, offPeak, day)
  {
    for attempt := 0 to |cands|
      invariant FirstValidFrom(cands, attempt, enforced) == FirstValidFrom(cands, 0, enforced)
    {
      var out := cands[attempt];
      if out.None? {
        continue;
      }
      var a := FixLength(out.value);
      if ValidateBinary24(a, Some(enforced)) {
        return a;
      }
    }
    var tmp := CountAdjust(original, enforced);
    arr := OptimizeScheduleDeterministic(tmp, allowed, peak, offPeak, day);
  }

  /**
   * Without a valid answer the fallback still meets the count: allowed peak
   * hours and a count within the day, it is the adjusted original itself;
   * kept out of peak hours, it has the count whenever that fits in the
   * non-peak hours, and no ON peak hour.
   */
  lemma FallbackMeetsCount(original: seq<int>, cands: seq<Option<seq<int>>>, enforced: int, allowed: bool,
                           peak: seq<int>, offPeak: seq<int>, day: seq<int>)
    requires |original| == HoursPerDay && IsBinary(original)
    requires ValidHours(peak) && ValidHours(offPeak) && ValidHours(day)
    requires 0 <= enforced <= HoursPerDay
    requires FirstValidFrom(cands, 0, enforced).None?
    ensures var r := Scheduled(original, cands, enforced, allowed, peak, offPeak, day);
      && (allowed ==> r == Adjusted(original, enforced) && Sum(r) == enforced)
      && (!allowed ==> forall h :: h in peak ==> r[h] == 0)
      && (!allowed && enforced <= CountOutside(peak, HoursPerDay) ==> Sum(r) == enforced)
  {
    var tmp := Adjusted(original, enforced);
    AdjustedExact(original, enforced);
    FixLengthKeepsSchedules(tmp);
    DeterministicFacts(tmp, allowed, peak, offPeak, day);
  }

  // ---------------------------------------------------------------------
  // The whole pipeline for one appliance

  /** The schedule `main_once` writes for one appliance, after both post-processing passes. */
  function Planned(states: seq<int>, minOns: int, cands: seq<Option<seq<int>>>, allowed: bool,
                   peak: seq<int>, offPeak: seq<int>, day: seq<int>): (r: seq<int>)
    requires ValidHours(peak) && ValidHours(offPeak) && ValidHours(day)
    ensures |r| == HoursPerDay
  {
    var original := FixLength(states);
    var enforced := EnforcedOnes(original, minOns);
    var arr := Scheduled(original, cands, enforced, allowed, peak, offPeak, day);
    var spread := if allowed then arr else Redistributed(arr, peak, offPeak, day);
    Enforced(spread, Some(enforced), allowed, peak, offPeak, day)
  }

  /**
   * Steps 5 and 6 of `main_once` for one appliance: the original is fixed
   * to 24 values, the count is lifted by `MIN_ONS`, the schedule comes from
   * the model or the fallback, and the two passes run with the lifted count
   * as the required count.
   */
  method PlanAppliance(states: seq<int>, minOns: int, cands: seq<Option<seq<int>>>, allowed: bool,
                       peak: seq<int>, offPeak: seq<int>, day: seq<int>)
    returns (plan: seq<int>)
    requires ValidHours(peak) && ValidHours(offPeak) && ValidHours(day)
    ensures plan == Planned(states, minOns, cands, allowed, peak, offPeak, day)
  {
    var original := FixLength(states);
    var predictedOnes := Sum(original);
    var enforced := if predictedOnes >= minOns then predictedOnes else minOns;
    var arr := ScheduleWithLlm(original, cands, enforced, allowed, peak, offPeak, day);
    var a := CopyToArray(arr);
    RedistributePeakViolations(a, allowed, peak, offPeak, day);
    plan := EnforceRequiredOns(a[..], Some(enforced), allowed, peak, offPeak, day);
  }

  /** The schedule before post-processing is 24 binary values. */
  lemma ScheduledShape(original: seq<int>, cands: seq<Option<seq<int>>>, enforced: int, allowed: bool,
                       peak: seq<int>, offPeak: seq<int>, day: seq<int>)
    requires |original| == HoursPerDay && ValidHours(peak) && ValidHours(offPeak) && ValidHours(day)
    ensures var r := Scheduled(original, cands, enforced, allowed, peak, offPeak, day);
      |r| == HoursPerDay && IsBinary(r)
  {
    if FirstValidFrom(cands, 0, enforced).None? {
      DeterministicFacts(Adjusted(original, enforced), allowed, peak, offPeak, day);
    }
  }

  /**
   * The checks of step 7 hold whenever the off-peak hours are not peak
   * hours: 24 values, all binary, and no ON in a peak hour unless the
   * appliance may use peak hours.
   */
  lemma FinalChecks(states: seq<int>, minOns: int, cands: seq<Option<seq<int>>>, allowed: bool,
                    peak: seq<int>, offPeak: seq<int>, day: seq<int>)
    requires ValidHours(peak) && ValidHours(offPeak) && ValidHours(day)
    requires forall h :: h in offPeak ==> h !in peak
    ensures var r := Planned(states, minOns, cands, allowed, peak, offPeak, day);
      && |r| == HoursPerDay
      && IsBinary(r)
      && (!allowed ==> forall h :: h in peak ==> r[h] == 0)
  {
    var original := FixLength(states);
    var enforced := EnforcedOnes(original, minOns);
    var arr := Scheduled(original, cands, enforced, allowed, peak, offPeak, day);
    ScheduledShape(original, cands, enforced, allowed, peak, offPeak, day);
    var spread := if allowed then arr else Redistributed(arr, peak, offPeak, day);
    if !allowed {
      RedistributedEffect(arr, peak, offPeak, day);
    }
    assert IsBinary(spread);
    var target := Some(enforced);
    if Sum(spread) > enforced {
      EnforcedRemovesOnly(spread, target, allowed, peak, offPeak, day);
    } else if Sum(spread) < enforced {
      EnforcedAddsOnly(spread, target, allowed, peak, offPeak, day);
    }
    if !allowed {
      EnforcedKeepsPeakOff(spread, target, peak, offPeak, day);
      var r := Enforced(spread, target, allowed, peak, offPeak, day);
      forall h | h in peak
        ensures r[h] == 0
      {
        assert 0 <= h < HoursPerDay;
      }
    }
  }

  /**
   * A valid answer that needs no repair is written as it is: when it has no
   * ON peak hour (or peak hours are allowed), neither pass changes it.
   */
  lemma ValidAnswerKept(states: seq<int>, minOns: int, cands: seq<Option<seq<int>>>, allowed: bool,
                        peak: seq<int>, offPeak: seq<int>, day: seq<int>, v: seq<int>)
    requires ValidHours(peak) && ValidHours(offPeak) && ValidHours(day)
    requires FirstValidFrom(cands, 0, EnforcedOnes(FixLength(states), minOns)) == Some(v)
    requires allowed || forall h :: h in peak ==> v[h] == 0
    ensures Planned(states, minOns, cands, allowed, peak, offPeak, day) == v
  {
    if !allowed {
      RedistributedNoPeakOn(v, peak, offPeak, day);
    }
  }
}
