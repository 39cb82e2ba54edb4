/**
 * The per-appliance body of the updated agent's `main_once`: build the
 * candidate schedule, post-process it (peak redistribution, then the ON-count
 * repair back to the original count), and report costs with clipped savings.
 */
module IpdatedAgent {
  import opened Vectors
  import opened Tariff
  import opened Repair
  import opened IpdatedRepair
  import opened IpdatedCosts

  /**
   * The schedule `main_once` writes for one appliance.  `candidate` is the
   * array parsed from the language model's answer, if there was one; without
   * it the agent falls back to the original states.
   */
  function Planned(states: seq<int>, candidate: Option<seq<int>>, allow: bool,
                   peak: seq<int>, offPeak: seq<int>, dayHours: seq<int>): seq<int>
    requires ValidHours(peak) && ValidHours(offPeak) && ValidHours(dayHours)
  {
    var original := FixLength(states);
    var sched := if candidate.Some? then FixLength(candidate.value) else original;
    var spread := if allow then sched else Redistributed(sched, peak, offPeak, dayHours);
    FixLength(Enforced(spread, Sum(original), allow, peak, offPeak, dayHours))
  }

  /**
   * Steps 5 and 6 of `main_once` for one appliance: the required count is the
   * ON-count of the original states, and both post-processing passes run on
   * one array in place.
   */
  method PlanAppliance(states: seq<int>, candidate: Option<seq<int>>, allow: bool,
                       peak: seq<int>, offPeak: seq<int>, dayHours: seq<int>)
    returns (plan: seq<int>)
    requires ValidHours(peak) && ValidHours(offPeak) && ValidHours(dayHours)
    ensures plan == Planned(states, candidate, allow, peak, offPeak, dayHours)
  {
    var original := FixLength(states);
    var required := Sum(original);
    var sched := if candidate.Some? then FixLength(candidate.value) else original;
    var a := CopyToArray(sched);
    RedistributePeakViolations(a, allow, peak, offPeak, dayHours);
    plan := EnforceRequiredOnsImproved(a, Some(required), allow, peak, offPeak, dayHours);
  }

  /**
   * The checks of step 7 hold for every plan: 24 values, all binary, and no
   * ON in a peak hour unless the appliance may use peak hours.
   */
  lemma PlannedChecks(states: seq<int>, candidate: Option<seq<int>>, allow: bool,
                      peak: seq<int>, offPeak: seq<int>, dayHours: seq<int>)
    requires ValidHours(peak) && ValidHours(offPeak) && ValidHours(dayHours)
    ensures var r := Planned(states, candidate, allow, peak, offPeak, dayHours);
      && |r| == HoursPerDay
      && IsBinary(r)
      && (!allow ==> forall h :: h in peak ==> r[h] == 0)
  {
    var original := FixLength(states);
    var need := Sum(original);
    var sched := if candidate.Some? then FixLength(candidate.value) else original;
    var spread := if allow then sched else Redistributed(sched, peak, offPeak, dayHours);
    if !allow {
      RedistributedEffect(sched, peak, offPeak, dayHours);
    }
    assert IsBinary(spread);
    var e := Enforced(spread, need, allow, peak, offPeak, dayHours);
    EnforcedKeeps(spread, need, allow, peak, offPeak, dayHours);
    if Sum(spread) < need {
      EnforcedAdds(spread, need, allow, peak, offPeak, dayHours);
    } else if Sum(spread) > need {
      EnforcedRemoves(spread, need, allow, peak, offPeak, dayHours);
    }
    FixLengthKeepsSchedules(e);
    if !allow {
      forall h | h in peak
        ensures e[h] == 0
      {
        assert spread[h] != 1;
      }
    }
  }

  /** An appliance allowed peak hours ends with exactly its original ON-count. */
  lemma PlannedCountWhenAllowed(states: seq<int>, candidate: Option<seq<int>>,
                                peak: seq<int>, offPeak: seq<int>, dayHours: seq<int>)
    requires ValidHours(peak) && ValidHours(offPeak) && ValidHours(dayHours)
    ensures Sum(Planned(states, candidate, true, peak, offPeak, dayHours)) == Sum(FixLength(states))
  {
    var original := FixLength(states);
    var sched := if candidate.Some? then FixLength(candidate.value) else original;
    SumBinaryBounds(original);
    EnforcedExactWhenAllowed(sched, Sum(original), peak, offPeak, dayHours);
    var e := Enforced(sched, Sum(original), true, peak, offPeak, dayHours);
    EnforcedKeeps(sched, Sum(original), true, peak, offPeak, dayHours);
    FixLengthKeepsSchedules(e);
  }

  /**
   * An appliance kept out of peak hours ends with exactly its original
   * ON-count when the redistributed candidate has no more ONs than the
   * original and the original count fits in the non-peak hours.
   */
  lemma PlannedCountWhenRoom(states: seq<int>, candidate: Option<seq<int>>,
                             peak: seq<int>, offPeak: seq<int>, dayHours: seq<int>)
    requires ValidHours(peak) && ValidHours(offPeak) && ValidHours(dayHours)
    requires var sched := if candidate.Some? then FixLength(candidate.value) else FixLength(states);
      Sum(Redistributed(sched, peak, offPeak, dayHours)) <= Sum(FixLength(states))
    requires Sum(FixLength(states)) <= CountOutside(peak, HoursPerDay)
    ensures Sum(Planned(states, candidate, false, peak, offPeak, dayHours)) == Sum(FixLength(states))
  {
    var original := FixLength(states);
    var sched := if candidate.Some? then FixLength(candidate.value) else original;
    var spread := Redistributed(sched, peak, offPeak, dayHours);
    RedistributedEffect(sched, peak, offPeak, dayHours);
    EnforcedExactWhenRoom(spread, Sum(original), peak, offPeak, dayHours);
    var e := Enforced(spread, Sum(original), false, peak, offPeak, dayHours);
    EnforcedKeeps(spread, Sum(original), false, peak, offPeak, dayHours);
    FixLengthKeepsSchedules(e);
  }

  /**
   * Without a model answer the agent keeps the original schedule apart from
   * moving its peak ONs: when they fit, the plan is the redistributed
   * original with the same ON-count.
   */
  lemma PlannedFallback(states: seq<int>, peak: seq<int>, offPeak: seq<int>, dayHours: seq<int>)
    requires ValidHours(peak) && ValidHours(offPeak) && ValidHours(dayHours)
    requires Sum(FixLength(states)) <= CountOutside(peak, HoursPerDay)
    ensures var original := FixLength(states);
      && Planned(states, None, false, peak, offPeak, dayHours) == Redistributed(original, peak, offPeak, dayHours)
      && Sum(Planned(states, None, false, peak, offPeak, dayHours)) == Sum(original)
    ensures Planned(states, None, true, peak, offPeak, dayHours) == FixLength(states)
  {
    var original := FixLength(states);
    var spread := Redistributed(original, peak, offPeak, dayHours);
    RedistributedKeepsCount(original, peak, offPeak, dayHours);
    RedistributedEffect(original, peak, offPeak, dayHours);
    EnforcedKeeps(spread, Sum(original), false, peak, offPeak, dayHours);
    FixLengthKeepsSchedules(spread);
    EnforcedKeeps(original, Sum(original), true, peak, offPeak, dayHours);
    FixLengthKeepsSchedules(original);
  }

  // ---------------------------------------------------------------------
  // Step 9: costs and savings

  /** One `per_appliance` entry of the cost report. */
  datatype ApplianceReport = ApplianceReport(originalCost: real, optimizedCost: real, savings: real, reasons: seq<Reason>)

  /** The cost report totals. */
  datatype Totals = Totals(baseline: real, optimized: real, savings: real)

  /** The report entry for one appliance: both costs and the saving clipped at zero. */
  method ReportAppliance(original: seq<int>, optimized: seq<int>, power: real, pm: map<int, PriceEntry>)
    returns (rep: ApplianceReport)
    requires |original| == HoursPerDay && |optimized| == HoursPerDay && CoversDay(pm)
    ensures rep.originalCost == Cost(original, power, pm)
    ensures rep.optimizedCost == Cost(optimized, power, pm)
    ensures rep.savings >= 0.0 && rep.savings >= rep.originalCost - rep.optimizedCost
    ensures rep.savings == 0.0 || rep.savings == rep.originalCost - rep.optimizedCost
    ensures rep.reasons == Explanation(original, optimized, pm, power)
  {
    var baseCost := Cost(original, power, pm);
    var optCost := Cost(optimized, power, pm);
    var reasons, _ := ExplainChanges(original, optimized, pm, power);
    rep := ApplianceReport(baseCost, optCost, Max0(baseCost - optCost), reasons);
  }

  function TotalOriginal(reps: seq<ApplianceReport>): real
  {
    if reps == [] then 0.0 else TotalOriginal(reps[..|reps| - 1]) + reps[|reps| - 1].originalCost
  }

  function TotalOptimized(reps: seq<ApplianceReport>): real
  {
    if reps == [] then 0.0 else TotalOptimized(reps[..|reps| - 1]) + reps[|reps| - 1].optimizedCost
  }

  function TotalSavings(reps: seq<ApplianceReport>): real
  {
    if reps == [] then 0.0 else TotalSavings(reps[..|reps| - 1]) + reps[|reps| - 1].savings
  }

  /** The totals loop: both costs summed over the appliances, and the clipped overall saving. */
  method ReportTotals(reps: seq<ApplianceReport>) returns (t: Totals)
    ensures t.baseline == TotalOriginal(reps) && t.optimized == TotalOptimized(reps)
    ensures t.savings >= 0.0 && t.savings >= t.baseline - t.optimized
    ensures t.savings == 0.0 || t.savings == t.baseline - t.optimized
  {
    var baseline, optimized := 0.0, 0.0;
    for i := 0 to |reps|
      invariant baseline == TotalOriginal(reps[..i]) && optimized == TotalOptimized(reps[..i])
    {
      assert reps[..i + 1][..i] == reps[..i];
      baseline := baseline + reps[i].originalCost;
      optimized := optimized + reps[i].optimizedCost;
    }
    assert reps[..|reps|] == reps;
    t := Totals(baseline, optimized, Max0(baseline - optimized));
  }

  /** Entries whose saving is the clipped difference of their costs. */
  predicate Clipped(reps: seq<ApplianceReport>)
  {
    forall i :: 0 <= i < |reps| ==>
      reps[i].savings >= 0.0 && reps[i].savings >= reps[i].originalCost - reps[i].optimizedCost
  }

  /**
   * The overall saving never exceeds the sum of the per-appliance savings:
   * clipping each appliance can only add to what the totals show.
   */
  lemma {:induction false} TotalSavingsBound(reps: seq<ApplianceReport>)
    requires Clipped(reps)
    ensures TotalSavings(reps) >= 0.0
    ensures TotalSavings(reps) >= TotalOriginal(reps) - TotalOptimized(reps)
  {
    if reps != [] {
      var init := reps[..|reps| - 1];
      assert Clipped(init) by {
        forall i | 0 <= i < |init| ensures init[i] == reps[i] { }
      }
      TotalSavingsBound(init);
    }
  }

  /** Hence the reported total saving is at most the sum of the appliance savings. */
  lemma TotalsWithinAppliances(reps: seq<ApplianceReport>, t: Totals)
    requires Clipped(reps)
    requires t.baseline == TotalOriginal(reps) && t.optimized == TotalOptimized(reps)
    requires t.savings >= 0.0
    requires t.savings == 0.0 || t.savings == t.baseline - t.optimized
    ensures t.savings <= TotalSavings(reps)
  {
    TotalSavingsBound(reps);
  }
}
