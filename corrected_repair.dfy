/**
 * The post-processing passes and the deterministic fallback of
 * `corrected_mqtt_lstm_predictor.py`, applied to one appliance's schedule.
 *
 * Its peak hours are a Python `set`, whose iteration order is the order of
 * its hash table.  The model walks them in ascending order (`SortedSet`);
 * the order does not matter, because the clearing loop switches off every
 * ON peak hour whatever order it visits them in (`ClearPeakSameHours`).
 * Membership tests against the set are the same as against the list.
 */
module CorrectedRepair {
  import opened Vectors
  import opened Tariff
  import opened Repair

  // ---------------------------------------------------------------------
  // Peak redistribution

  /**
   * The nested `fill(slots, need)`: peak hours are skipped, OFF hours are
   * switched ON, and the loop stops once `need` hours have been switched on.
   * Returns how many it switched on.
   */
  method FillSlots(a: array<int>, slots: seq<int>, peak: seq<int>, need: int) returns (c: int)
    requires a.Length == HoursPerDay && ValidHours(slots) && need >= 1
    modifies a
    ensures var p := Fill(old(a[..]), slots, peak, need);
      a[..] == p.s && c == need - p.left
  {
    ghost var s := a[..];
    c := 0;
    for k := 0 to |slots|
      invariant 0 <= c < need
      invariant Fill(a[..], slots[k..], peak, need - c) == Fill(s, slots, peak, need)
    {
      var h := slots[k];
      assert slots[k..][1..] == slots[k + 1..];
      if h in peak {
        continue;
      }
      if a[h] == 0 {
        a[h] := 1;
        c := c + 1;
        if c == need {
          assert Fill(a[..], slots[k + 1..], peak, 0) == Fill(s, slots, peak, need);
          FillNoBudget(a[..], slots[k + 1..], peak);
          break;
        }
      }
    }
  }

  /**
   * `if filled < removed: filled += fill(slots, removed - filled)`: the
   * fill of the hours still missing, which does nothing once all are back.
   */
  method FillWhenShort(a: array<int>, slots: seq<int>, peak: seq<int>, removed: int, filled: int, ghost before: Pass)
    returns (filledAfter: int)
    requires a.Length == HoursPerDay && ValidHours(slots)
    requires a[..] == before.s && removed - filled == before.left
    modifies a
    ensures var p := Fill(before.s, slots, peak, before.left);
      a[..] == p.s && removed - filledAfter == p.left
  {
    if filled < removed {
      var more := FillSlots(a, slots, peak, removed - filled);
      filledAfter := filled + more;
    } else {
      FillNoBudget(a[..], slots, peak);
      filledAfter := filled;
    }
  }

  /**
   * `redistribute_peak_violations` for one appliance: untouched when the
   * appliance may run in peak hours; otherwise the ON peak hours are cleared
   * and, if any were, refilled from off-peak, day, then the non-peak hours.
   * The result is the shared redistribution.
   */
  method RedistributePeakViolations(a: array<int>, allow: bool, peak: seq<int>, offPeak: seq<int>, day: seq<int>)
    requires a.Length == HoursPerDay && ValidHours(peak) && ValidHours(offPeak) && ValidHours(day)
    modifies a
    ensures allow ==> a[..] == old(a[..])
    ensures !allow ==> a[..] == Redistributed(old(a[..]), peak, offPeak, day)
  {
    if allow {
      return;
    }
    ghost var s := a[..];
    var peakSet := SortedSet(peak);
    var removed := ClearPeakOns(a, peakSet);
    RedistributedSamePeak(s, peakSet, peak, offPeak, day);
    if removed == 0 {
      FillNoBudget(a[..], offPeak + day + AllHours(), peak);
      return;
    }
    ghost var c := a[..];
    var hours := AllHours();
    ghost var f1 := Fill(c, offPeak, peak, removed);
    ghost var f2 := Fill(f1.s, day, peak, f1.left);
    ghost var goal := Fill(f2.s, hours, peak, f2.left);
    FillThree(c, offPeak, day, hours, peak, removed);
    assert Redistributed(s, peak, offPeak, day) == goal.s;
    var filled := FillSlots(a, offPeak, peak, removed);
    filled := FillWhenShort(a, day, peak, removed, filled, f1);
    var outside := HoursOutside(peak);
    assert outside == Select(hours, peak, false);
    FillSkipsSelected(f2.s, hours, peak, peak, f2.left);
    filled := FillWhenShort(a, outside, peak, removed, filled, f2);
  }

  // ---------------------------------------------------------------------
  // Forcing the ON-count to the required count

  /**
   * Removal order: the peak hours (unless the appliance may use them), then
   * the day hours that are neither peak nor off-peak, then the off-peak hours.
   */
  function RemovalOrder(allow: bool, peak: seq<int>, offPeak: seq<int>, day: seq<int>): (r: seq<int>)
    requires ValidHours(offPeak) && ValidHours(day)
    ensures ValidHours(r)
  {
    (if allow then [] else DayHours(peak, true)) + DayOnly(day, peak, offPeak) + offPeak
  }

  /**
   * Addition order: the off-peak hours, then the day-only hours, then the
   * peak hours if the appliance may use them.  Nothing is skipped.
   */
  function AdditionOrder(allow: bool, peak: seq<int>, offPeak: seq<int>, day: seq<int>): (r: seq<int>)
    requires ValidHours(offPeak) && ValidHours(day)
    ensures ValidHours(r)
  {
    offPeak + DayOnly(day, peak, offPeak) + (if allow then DayHours(peak, true) else [])
  }

  /** The ON-count asked for: the required count, or the current count when none is given. */
  function Target(s: seq<int>, need: Option<int>): int
  {
    if need.Some? then need.value else Sum(s)
  }

  /**
   * `enforce_required_ons` on one appliance: a copy of the schedule whose
   * ON-count is driven towards the target, clearing ON hours in removal order
   * or switching OFF hours on in addition order until the count is reached.
   */
  function Enforced(s: seq<int>, need: Option<int>, allow: bool, peak: seq<int>, offPeak: seq<int>, day: seq<int>): (r: seq<int>)
    requires |s| == HoursPerDay && ValidHours(offPeak) && ValidHours(day)
    ensures |r| == HoursPerDay
  {
    var have := Sum(s);
    var target := Target(s, need);
    if have == target then s
    else if have > target then Clear(s, RemovalOrder(allow, peak, offPeak, day), have - target).s
    else Fill(s, AdditionOrder(allow, peak, offPeak, day), [], target - have).s
  }

  /**
   * The removal loop: stop once the count is down to `need`, otherwise switch
   * the next listed hour off.  The list holds hours that were ON when it was
   * built.
   */
  method RemoveDownTo(a: array<int>, order: seq<int>, need: int, ghost s: seq<int>)
    requires a.Length == HoursPerDay && a[..] == s && ValidHours(order) && Sum(s) >= need
    requires forall k :: 0 <= k < |order| ==> s[order[k]] == 1
    modifies a
    ensures a[..] == Clear(s, order, Sum(s) - need).s
  {
    for k := 0 to |order|
      invariant Sum(a[..]) >= need
      invariant forall j :: k <= j < |order| ==> a[order[j]] == 0 || a[order[j]] == 1
      invariant Clear(a[..], order[k..], Sum(a[..]) - need) == Clear(s, order, Sum(s) - need)
    {
      var h := order[k];
      assert order[k..][1..] == order[k + 1..];
      if Sum(a[..]) <= need {
        ClearNoBudget(a[..], order[k..]);
        break;
      }
      ClearStep(a[..], order[k..], need);
      a[h] := 0;
    }
  }

  /**
   * One step of the removal loop while the count is above `need`: switching
   * the next listed hour off, whether it is still ON or already OFF, leaves
   * the rest of the pass unchanged.
   */
  lemma ClearStep(s: seq<int>, hs: seq<int>, need: int)
    requires |s| == HoursPerDay && ValidHours(hs) && hs != [] && Sum(s) > need
    requires s[hs[0]] == 0 || s[hs[0]] == 1
    ensures Sum(s[hs[0] := 0]) >= need
    ensures Clear(s[hs[0] := 0], hs[1..], Sum(s[hs[0] := 0]) - need) == Clear(s, hs, Sum(s) - need)
  {
    SumUpdate(s, hs[0], 0);
    if s[hs[0]] == 0 {
      assert s[hs[0] := 0] == s;
    }
  }

  /** The addition loop: stop once the count is up to `need`, otherwise switch the next OFF hour on. */
  method AddUpTo(a: array<int>, slots: seq<int>, need: int)
    requires a.Length == HoursPerDay && ValidHours(slots) && Sum(a[..]) <= need
    modifies a
    ensures a[..] == Fill(old(a[..]), slots, [], need - Sum(old(a[..]))).s
  {
    ghost var s := a[..];
    for k := 0 to |slots|
      invariant Sum(a[..]) <= need
      invariant Fill(a[..], slots[k..], [], need - Sum(a[..])) == Fill(s, slots, [], need - Sum(s))
    {
      var h := slots[k];
      assert slots[k..][1..] == slots[k + 1..];
      if Sum(a[..]) >= need {
        FillNoBudget(a[..], slots[k..], []);
        break;
      }
      if a[h] == 0 {
        SumUpdate(a[..], h, 1);
        a[h] := 1;
      }
    }
  }

  /**
   * Clearing the ON hours of each list of the removal order, concatenated,
   * is clearing the removal order itself: OFF hours are skipped either way.
   */
  lemma ClearOnsInRemovalOrder(s: seq<int>, first: seq<int>, dayOnly: seq<int>, offPeak: seq<int>, budget: nat)
    requires |s| == HoursPerDay && ValidHours(first) && ValidHours(dayOnly) && ValidHours(offPeak)
    ensures var order := OnAt(s, first) + OnAt(s, dayOnly) + OnAt(s, offPeak);
      && ValidHours(order)
      && (forall k :: 0 <= k < |order| ==> s[order[k]] == 1)
      && Clear(s, order, budget) == Clear(s, first + dayOnly + offPeak, budget)
  {
    var order := OnAt(s, first) + OnAt(s, dayOnly) + OnAt(s, offPeak);
    OnAtAppend(s, first + dayOnly, offPeak);
    OnAtAppend(s, first, dayOnly);
    ClearSkipsOff(s, s, first + dayOnly + offPeak, budget);
    forall k | 0 <= k < |order|
      ensures s[order[k]] == 1
    {
      assert order[k] in order;
    }
  }

  /**
   * The removal list of the `have > need` branch: the ON peak hours (unless
   * the appliance may use them), the ON day-only hours, the ON off-peak
   * hours.  Clearing it clears what clearing the removal order would.
   */
  method RemovalList(s: seq<int>, target: int, allow: bool, peak: seq<int>, offPeak: seq<int>, day: seq<int>)
    returns (order: seq<int>)
    requires |s| == HoursPerDay && ValidHours(peak) && ValidHours(offPeak) && ValidHours(day)
    requires Sum(s) > target
    ensures ValidHours(order)
    ensures forall k :: 0 <= k < |order| ==> s[order[k]] == 1
    ensures Clear(s, order, Sum(s) - target) == Clear(s, RemovalOrder(allow, peak, offPeak, day), Sum(s) - target)
  {
    var dayOnly := DayOnly(day, peak, offPeak);
    var first := if allow then [] else DayHours(peak, true);
    order := OnAt(s, first) + OnAt(s, dayOnly) + OnAt(s, offPeak);
    ClearOnsOfRemovalOrder(s, allow, peak, offPeak, day, Sum(s) - target);
  }

  /** `ClearOnsInRemovalOrder` for the three lists of the removal order. */
  lemma ClearOnsOfRemovalOrder(s: seq<int>, allow: bool, peak: seq<int>, offPeak: seq<int>, day: seq<int>, budget: nat)
    requires |s| == HoursPerDay && ValidHours(offPeak) && ValidHours(day)
    ensures var first := if allow then [] else DayHours(peak, true);
      var order := OnAt(s, first) + OnAt(s, DayOnly(day, peak, offPeak)) + OnAt(s, offPeak);
      && ValidHours(order)
      && (forall k :: 0 <= k < |order| ==> s[order[k]] == 1)
      && Clear(s, order, budget) == Clear(s, RemovalOrder(allow, peak, offPeak, day), budget)
  {
    var first := if allow then [] else DayHours(peak, true);
    ClearOnsInRemovalOrder(s, first, DayOnly(day, peak, offPeak), offPeak, budget);
  }

  /** The `have > need` branch: the ON hours of each list, in removal order, are switched off. */
  method RemoveExcess(a: array<int>, target: int, allow: bool, peak: seq<int>, offPeak: seq<int>, day: seq<int>)
    requires a.Length == HoursPerDay && ValidHours(peak) && ValidHours(offPeak) && ValidHours(day)
    requires Sum(a[..]) > target
    modifies a
    ensures a[..] == Clear(old(a[..]), RemovalOrder(allow, peak, offPeak, day), Sum(old(a[..])) - target).s
  {
    var s := a[..];
    var order := RemovalList(s, target, allow, peak, offPeak, day);
    RemoveDownTo(a, order, target, s);
  }

  /** The `have < need` branch: off-peak, day-only, then (if allowed) peak hours are switched on. */
  method AddShortfall(a: array<int>, target: int, allow: bool, peak: seq<int>, offPeak: seq<int>, day: seq<int>)
    requires a.Length == HoursPerDay && ValidHours(peak) && ValidHours(offPeak) && ValidHours(day)
    requires Sum(a[..]) < target
    modifies a
    ensures a[..] == Fill(old(a[..]), AdditionOrder(allow, peak, offPeak, day), [], target - Sum(old(a[..]))).s
  {
    var slots := offPeak + DayOnly(day, peak, offPeak);
    if allow {
      slots := slots + DayHours(peak, true);
    } else {
      assert slots + [] == slots;
    }
    AddUpTo(a, slots, target);
  }

  /**
   * `enforce_required_ons` for one appliance.  It works on a copy, so the
   * schedule passed in is never changed.
   */
  method EnforceRequiredOns(arr: seq<int>, need: Option<int>, allow: bool,
                            peak: seq<int>, offPeak: seq<int>, day: seq<int>)
    returns (r: seq<int>)
    requires |arr| == HoursPerDay && ValidHours(peak) && ValidHours(offPeak) && ValidHours(day)
    ensures r == Enforced(arr, need, allow, peak, offPeak, day)
  {
    var target := if need.Some? then need.value else Sum(arr);
    var a := CopyToArray(arr);
    var have := Sum(a[..]);
    if have > target {
      RemoveExcess(a, target, allow, peak, offPeak, day);
    } else if have < target {
      AddShortfall(a, target, allow, peak, offPeak, day);
    }
    r := a[..];
  }

  /**
   * The count stops at the target: a schedule at its target is returned as
   * it is, one above it never drops below it, one below it never rises above
   * it.
   */
  lemma EnforcedStopsAtTarget(s: seq<int>, need: Option<int>, allow: bool, peak: seq<int>, offPeak: seq<int>, day: seq<int>)
    requires |s| == HoursPerDay && ValidHours(offPeak) && ValidHours(day)
    ensures var r := Enforced(s, need, allow, peak, offPeak, day);
      && (Sum(s) == Target(s, need) ==> r == s)
      && (Sum(s) > Target(s, need) ==> Target(s, need) <= Sum(r) <= Sum(s))
      && (Sum(s) < Target(s, need) ==> Sum(s) <= Sum(r) <= Target(s, need))
  {
    var target := Target(s, need);
    if Sum(s) > target {
      ClearEffect(s, RemovalOrder(allow, peak, offPeak, day), Sum(s) - target);
    } else if Sum(s) < target {
      FillEffect(s, AdditionOrder(allow, peak, offPeak, day), [], target - Sum(s));
    }
  }

  /**
   * Above the target only ON hours of the removal order are switched off,
   * and either the target is reached or no hour of the removal order is
   * left ON.
   */
  lemma EnforcedRemovesOnly(s: seq<int>, need: Option<int>, allow: bool, peak: seq<int>, offPeak: seq<int>, day: seq<int>)
    requires |s| == HoursPerDay && ValidHours(offPeak) && ValidHours(day)
    requires Sum(s) > Target(s, need)
    ensures var r := Enforced(s, need, allow, peak, offPeak, day);
      && (forall i :: 0 <= i < HoursPerDay ==>
            r[i] == s[i] || (s[i] == 1 && r[i] == 0 && i in RemovalOrder(allow, peak, offPeak, day)))
      && (IsBinary(s) ==> IsBinary(r))
      && (Sum(r) == Target(s, need) || forall h :: h in RemovalOrder(allow, peak, offPeak, day) ==> r[h] != 1)
  {
    var order := RemovalOrder(allow, peak, offPeak, day);
    var p := Clear(s, order, Sum(s) - Target(s, need));
    assert Enforced(s, need, allow, peak, offPeak, day) == p.s;
    ClearEffect(s, order, Sum(s) - Target(s, need));
    ClearSaturates(s, order, Sum(s) - Target(s, need));
  }

  /**
   * Below the target only OFF hours of the addition order are switched on,
   * and either the target is reached or every hour of the addition order is
   * ON.
   */
  lemma EnforcedAddsOnly(s: seq<int>, need: Option<int>, allow: bool, peak: seq<int>, offPeak: seq<int>, day: seq<int>)
    requires |s| == HoursPerDay && ValidHours(offPeak) && ValidHours(day)
    requires Sum(s) < Target(s, need)
    ensures var r := Enforced(s, need, allow, peak, offPeak, day);
      && (forall i :: 0 <= i < HoursPerDay ==>
            r[i] == s[i] || (s[i] == 0 && r[i] == 1 && i in AdditionOrder(allow, peak, offPeak, day)))
      && (IsBinary(s) ==> IsBinary(r))
      && (Sum(r) == Target(s, need) || forall h :: h in AdditionOrder(allow, peak, offPeak, day) ==> r[h] != 0)
  {
    var order := AdditionOrder(allow, peak, offPeak, day);
    var p := Fill(s, order, [], Target(s, need) - Sum(s));
    assert Enforced(s, need, allow, peak, offPeak, day) == p.s;
    FillEffect(s, order, [], Target(s, need) - Sum(s));
    FillSaturates(s, order, [], Target(s, need) - Sum(s));
  }

  /**
   * Disallowed peak ONs go first: once a non-peak hour has been switched
   * off, no peak hour is left ON.
   */
  lemma EnforcedRemovesPeakFirst(s: seq<int>, need: Option<int>, peak: seq<int>, offPeak: seq<int>, day: seq<int>, j: int)
    requires |s| == HoursPerDay && ValidHours(offPeak) && ValidHours(day)
    requires Sum(s) > Target(s, need)
    requires 0 <= j < HoursPerDay && j !in peak
    requires s[j] == 1 && Enforced(s, need, false, peak, offPeak, day)[j] == 0
    ensures forall h :: h in peak && 0 <= h < HoursPerDay ==> Enforced(s, need, false, peak, offPeak, day)[h] != 1
  {
    var first := DayHours(peak, true);
    var rest := DayOnly(day, peak, offPeak) + offPeak;
    assert RemovalOrder(false, peak, offPeak, day) == first + rest;
    ClearPrefersEarlier(s, first, rest, Sum(s) - Target(s, need), j);
  }

  /**
   * Day hours go before off-peak hours: once an hour outside the day-only
   * hours (and outside the disallowed peak) has been switched off, no
   * day-only hour is left ON.
   */
  lemma EnforcedRemovesDayBeforeOffPeak(s: seq<int>, need: Option<int>, allow: bool, peak: seq<int>, offPeak: seq<int>, day: seq<int>, j: int)
    requires |s| == HoursPerDay && ValidHours(offPeak) && ValidHours(day)
    requires Sum(s) > Target(s, need)
    requires 0 <= j < HoursPerDay && (j !in day || j in peak || j in offPeak) && (allow || j !in peak)
    requires s[j] == 1 && Enforced(s, need, allow, peak, offPeak, day)[j] == 0
    ensures forall h :: h in day && h !in peak && h !in offPeak ==> Enforced(s, need, allow, peak, offPeak, day)[h] != 1
  {
    var first := (if allow then [] else DayHours(peak, true)) + DayOnly(day, peak, offPeak);
    ClearPrefersEarlier(s, first, offPeak, Sum(s) - Target(s, need), j);
  }

  /**
   * Off-peak hours are filled first: once an hour outside the off-peak list
   * has been switched on, every off-peak hour is ON.
   */
  lemma EnforcedAddsOffPeakFirst(s: seq<int>, need: Option<int>, allow: bool, peak: seq<int>, offPeak: seq<int>, day: seq<int>, j: int)
    requires |s| == HoursPerDay && ValidHours(offPeak) && ValidHours(day)
    requires Sum(s) < Target(s, need)
    requires 0 <= j < HoursPerDay && j !in offPeak
    requires s[j] == 0 && Enforced(s, need, allow, peak, offPeak, day)[j] == 1
    ensures forall h :: h in offPeak ==> Enforced(s, need, allow, peak, offPeak, day)[h] != 0
  {
    var rest := DayOnly(day, peak, offPeak) + (if allow then DayHours(peak, true) else []);
    assert AdditionOrder(allow, peak, offPeak, day) == offPeak + rest;
    FillPrefersEarlier(s, offPeak, rest, [], Target(s, need) - Sum(s), j);
  }

  /**
   * Peak hours are filled last: once a peak hour outside the off-peak and
   * day-only hours has been switched on, every off-peak and day-only hour is
   * ON.
   */
  lemma EnforcedAddsPeakLast(s: seq<int>, need: Option<int>, allow: bool, peak: seq<int>, offPeak: seq<int>, day: seq<int>, j: int)
    requires |s| == HoursPerDay && ValidHours(offPeak) && ValidHours(day)
    requires Sum(s) < Target(s, need)
    requires 0 <= j < HoursPerDay && j !in offPeak && (j !in day || j in peak)
    requires s[j] == 0 && Enforced(s, need, allow, peak, offPeak, day)[j] == 1
    ensures forall h :: (h in offPeak || (h in day && h !in peak)) ==> Enforced(s, need, allow, peak, offPeak, day)[h] != 0
  {
    var first := offPeak + DayOnly(day, peak, offPeak);
    FillPrefersEarlier(s, first, if allow then DayHours(peak, true) else [], [], Target(s, need) - Sum(s), j);
  }

  /**
   * With off-peak hours disjoint from the peak, a schedule with no ON peak
   * hour keeps none when the appliance may not use them.
   */
  lemma EnforcedKeepsPeakOff(s: seq<int>, need: Option<int>, peak: seq<int>, offPeak: seq<int>, day: seq<int>)
    requires |s| == HoursPerDay && ValidHours(offPeak) && ValidHours(day)
    requires forall h :: h in offPeak ==> h !in peak
    requires forall h :: h in peak && 0 <= h < HoursPerDay ==> s[h] != 1
    ensures forall h :: h in peak && 0 <= h < HoursPerDay ==> Enforced(s, need, false, peak, offPeak, day)[h] != 1
  {
    if Sum(s) > Target(s, need) {
      EnforcedRemovesOnly(s, need, false, peak, offPeak, day);
    } else if Sum(s) < Target(s, need) {
      EnforcedAddsOnly(s, need, false, peak, offPeak, day);
    }
  }

  // ---------------------------------------------------------------------
  // Deterministic fallback

  /**
   * `optimize_schedule_deterministic`: the masked, 24-slot original when
   * the appliance may use peak hours, and otherwise the original with its
   * peak ONs moved by the shared redistribution.
   */
  function Deterministic(original: seq<int>, allowed: bool, peak: seq<int>, offPeak: seq<int>, day: seq<int>): (r: seq<int>)
    requires ValidHours(peak) && ValidHours(offPeak) && ValidHours(day)
    ensures |r| == HoursPerDay
  {
    var o := FixLength(original);
    if allowed then o else Redistributed(o, peak, offPeak, day)
  }

  /**
   * The fallback returns 24 binary values; allowed, it is the fixed-length
   * original; otherwise no peak hour is ON, every non-peak ON is kept, and
   * the ON-count is the original's whenever it fits in the non-peak hours.
   */
  lemma DeterministicFacts(original: seq<int>, allowed: bool, peak: seq<int>, offPeak: seq<int>, day: seq<int>)
    requires ValidHours(peak) && ValidHours(offPeak) && ValidHours(day)
    ensures var r := Deterministic(original, allowed, peak, offPeak, day);
      var o := FixLength(original);
      && IsBinary(r)
      && (allowed ==> r == o)
      && (!allowed ==> forall h :: h in peak ==> r[h] == 0)
      && (!allowed ==> forall i :: 0 <= i < HoursPerDay && i !in peak && o[i] == 1 ==> r[i] == 1)
      && (!allowed && Sum(o) <= CountOutside(peak, HoursPerDay) ==> Sum(r) == Sum(o))
  {
    var o := FixLength(original);
    if !allowed {
      RedistributedEffect(o, peak, offPeak, day);
      if Sum(o) <= CountOutside(peak, HoursPerDay) {
        RedistributedKeepsCount(o, peak, offPeak, day);
      }
    }
  }

  /**
   * Filling the day-only hours after the off-peak hours is the same as
   * filling all the day hours: the dropped ones are peak hours, which a fill
   * skips, or off-peak hours, which are ON by then unless the budget ran out.
   */
  lemma FillDayOnly(c: seq<int>, peak: seq<int>, offPeak: seq<int>, day: seq<int>, budget: nat)
    requires |c| == HoursPerDay && ValidHours(offPeak) && ValidHours(day)
    ensures InBounds(offPeak + DayOnly(day, peak, offPeak) + AllHours(), |c|)
    ensures InBounds(offPeak + day + AllHours(), |c|)
    ensures Fill(c, offPeak + DayOnly(day, peak, offPeak) + AllHours(), peak, budget)
         == Fill(c, offPeak + day + AllHours(), peak, budget)
  {
    var d := DayOnly(day, peak, offPeak);
    FillThree(c, offPeak, d, AllHours(), peak, budget);
    FillThree(c, offPeak, day, AllHours(), peak, budget);
    var f1 := Fill(c, offPeak, peak, budget);
    FillSaturates(c, offPeak, peak, budget);
    if f1.left == 0 {
      FillNoBudget(f1.s, d, peak);
      FillNoBudget(f1.s, day, peak);
    } else {
      var dp := Select(day, peak, false);
      assert d == Select(dp, offPeak, false);
      SelectInBounds(day, peak, false, |c|);
      FillSkipsSelected(f1.s, dp, offPeak, peak, f1.left);
      FillSkipsSelected(f1.s, day, peak, peak, f1.left);
    }
  }

  /**
   * Without permission the fallback is a fill of the peak-cleared original
   * over off-peak, day-only, then all hours.
   */
  lemma DeterministicAsFill(o: seq<int>, peakSet: seq<int>, peak: seq<int>, offPeak: seq<int>, day: seq<int>)
    requires |o| == HoursPerDay && ValidHours(peak) && ValidHours(offPeak) && ValidHours(day) && ValidHours(peakSet)
    requires forall h :: h in peakSet <==> h in peak
    ensures InBounds(offPeak + DayOnly(day, peak, offPeak) + AllHours(), HoursPerDay)
    ensures Redistributed(o, peak, offPeak, day)
         == Fill(ClearPeak(o, peakSet).s, offPeak + DayOnly(day, peak, offPeak) + AllHours(), peak, RemovedCount(o, peakSet)).s
  {
    RedistributedSamePeak(o, peakSet, peak, offPeak, day);
    FillDayOnly(ClearPeak(o, peakSet).s, peak, offPeak, day, RemovedCount(o, peakSet));
  }

  /**
   * The first refill loop of `optimize_schedule_deterministic`: stop when
   * nothing is needed any more, otherwise switch on an OFF slot that is not
   * a disallowed peak hour.  Returns what is still needed.
   */
  method PlaceInSlots(a: array<int>, slots: seq<int>, allowed: bool, peak: seq<int>, need: nat) returns (left: nat)
    requires a.Length == HoursPerDay && ValidHours(slots)
    modifies a
    ensures var f := Fill(old(a[..]), slots, if allowed then [] else peak, need);
      a[..] == f.s && left == f.left
  {
    ghost var blocked := if allowed then [] else peak;
    ghost var goal := Fill(a[..], slots, blocked, need);
    left := need;
    for k := 0 to |slots|
      invariant Fill(a[..], slots[k..], blocked, left) == goal
    {
      var h := slots[k];
      assert slots[k..][1..] == slots[k + 1..];
      if left == 0 {
        FillNoBudget(a[..], slots[k..], blocked);
        break;
      }
      if a[h] == 0 && (allowed || h !in peak) {
        a[h] := 1;
        left := left - 1;
      }
    }
  }

  /**
   * The second refill loop: over `range(24)`, skipping disallowed peak
   * hours, switch on OFF hours until nothing is needed.
   */
  method PlaceInDay(a: array<int>, hours: seq<int>, allowed: bool, peak: seq<int>, need: nat) returns (left: nat)
    requires a.Length == HoursPerDay && hours == AllHours()
    modifies a
    ensures var f := Fill(old(a[..]), hours, if allowed then [] else peak, need);
      a[..] == f.s && left == f.left
  {
    ghost var blocked := if allowed then [] else peak;
    ghost var goal := Fill(a[..], hours, blocked, need);
    left := need;
    for h := 0 to HoursPerDay
      invariant Fill(a[..], hours[h..], blocked, left) == goal
    {
      assert hours[h..][0] == h && hours[h..][1..] == hours[h + 1..];
      if left == 0 {
        FillNoBudget(a[..], hours[h..], blocked);
        break;
      }
      if h in peak && !allowed {
        continue;
      }
      if a[h] == 0 {
        a[h] := 1;
        left := left - 1;
      }
    }
  }

  /** Both refill loops: the slots first, then the whole day if something is still needed. */
  method RefillLost(a: array<int>, slots: seq<int>, hours: seq<int>, allowed: bool, peak: seq<int>, need: nat)
    requires a.Length == HoursPerDay && ValidHours(slots) && hours == AllHours()
    modifies a
    ensures InBounds(slots + hours, HoursPerDay)
    ensures a[..] == Fill(old(a[..]), slots + hours, if allowed then [] else peak, need).s
  {
    ghost var blocked := if allowed then [] else peak;
    FillAppend(a[..], slots, hours, blocked, need);
    ghost var f := Fill(a[..], slots, blocked, need);
    var left := PlaceInSlots(a, slots, allowed, peak, need);
    if left > 0 {
      left := PlaceInDay(a, hours, allowed, peak, left);
    } else {
      FillNoBudget(a[..], hours, blocked);
    }
  }

  /** When clearing the peak hours switched nothing off, the fallback is the cleared schedule. */
  lemma DeterministicNothingLost(original: seq<int>, peakSet: seq<int>, peak: seq<int>, offPeak: seq<int>, day: seq<int>)
    requires ValidHours(peak) && ValidHours(offPeak) && ValidHours(day) && ValidHours(peakSet)
    requires forall h :: h in peakSet <==> h in peak
    requires RemovedCount(FixLength(original), peakSet) == 0
    ensures Deterministic(original, false, peak, offPeak, day) == ClearPeak(FixLength(original), peakSet).s
  {
    var o := FixLength(original);
    RedistributedSamePeak(o, peakSet, peak, offPeak, day);
    RefillOrderValid(offPeak, day);
    FillNoBudget(ClearPeak(o, peakSet).s, offPeak + day + AllHours(), peak);
  }

  /**
   * `optimize_schedule_deterministic`: fix the length, clear the peak ONs
   * unless allowed, and switch on as many OFF hours as were lost, first over
   * off-peak and day-only hours, then over the whole day, skipping peak hours
   * unless allowed.
   */
  method OptimizeScheduleDeterministic(original: seq<int>, allowed: bool, peak: seq<int>, offPeak: seq<int>, day: seq<int>)
    returns (r: seq<int>)
    requires ValidHours(peak) && ValidHours(offPeak) && ValidHours(day)
    ensures r == Deterministic(original, allowed, peak, offPeak, day)
  {
    var o := FixLength(original);
    var total := Sum(o);
    var a := CopyToArray(o);
    var peakSet := SortedSet(peak);
    if !allowed {
      var _ := ClearPeakOns(a, peakSet);
    }
    ghost var c := a[..];
    ClearPeakDrops(o, peakSet);
    var hours := AllHours();
    var need := total - Sum(a[..]);
    if need <= 0 {
      if !allowed {
        DeterministicNothingLost(original, peakSet, peak, offPeak, day);
      }
      return a[..];
    }
    assert !allowed && need == RemovedCount(o, peakSet);
    var dayOnly := DayOnly(day, peak, offPeak);
    var slots := offPeak + dayOnly + (if allowed then peakSet else []);
    assert slots == offPeak + dayOnly;
    ghost var goal := Fill(c, slots + hours, peak, need);
    assert goal.s == Deterministic(original, allowed, peak, offPeak, day) by {
      DeterministicAsFill(o, peakSet, peak, offPeak, day);
    }
    RefillLost(a, slots, hours, allowed, peak, need);
    r := a[..];
  }

  // ---------------------------------------------------------------------
  // Count adjustment before the fallback

  /**
   * The count-adjust loops of `schedule_with_llm` and `main_once`: switch on
   * the lowest-index OFF hours, or switch off the lowest-index ON hours,
   * until the ON-count is `enforced`.
   */
  function Adjusted(tmp: seq<int>, enforced: int): (r: seq<int>)
    requires |tmp| == HoursPerDay
    ensures |r| == HoursPerDay
  {
    var diff := enforced - Sum(tmp);
    if diff > 0 then Fill(tmp, AllHours(), [], diff).s
    else if diff < 0 then Clear(tmp, AllHours(), -diff).s
    else tmp
  }

  /** The raising loop: switch on OFF hours from hour 0 up until `diff` of them are on. */
  method RaiseLowest(a: array<int>, hours: seq<int>, diff: int)
    requires a.Length == HoursPerDay && hours == AllHours() && diff > 0
    modifies a
    ensures a[..] == Fill(old(a[..]), hours, [], diff).s
  {
    ghost var goal := Fill(a[..], hours, [], diff);
    var d := diff;
    for i := 0 to HoursPerDay
      invariant d > 0
      invariant Fill(a[..], hours[i..], [], d) == goal
    {
      assert hours[i..][0] == i && hours[i..][1..] == hours[i + 1..];
      if a[i] == 0 {
        a[i] := 1;
        d := d - 1;
        if d == 0 {
          FillNoBudget(a[..], hours[i + 1..], []);
          break;
        }
      }
    }
  }

  /** The lowering loop: switch off ON hours from hour 0 up until `-diff` of them are off. */
  method LowerLowest(a: array<int>, hours: seq<int>, diff: int)
    requires a.Length == HoursPerDay && hours == AllHours() && diff < 0
    modifies a
    ensures a[..] == Clear(old(a[..]), hours, -diff).s
  {
    ghost var goal := Clear(a[..], hours, -diff);
    var d := diff;
    for i := 0 to HoursPerDay
      invariant d < 0
      invariant Clear(a[..], hours[i..], -d) == goal
    {
      assert hours[i..][0] == i && hours[i..][1..] == hours[i + 1..];
      if a[i] == 1 {
        a[i] := 0;
        d := d + 1;
        if d == 0 {
          ClearNoBudget(a[..], hours[i + 1..]);
          break;
        }
      }
    }
  }

  /** The count-adjust loops on a copy `tmp` of the original. */
  method CountAdjust(original: seq<int>, enforced: int) returns (tmp: seq<int>)
    requires |original| == HoursPerDay
    ensures tmp == Adjusted(original, enforced)
  {
    var a := CopyToArray(original);
    var hours := AllHours();
    var diff := enforced - Sum(a[..]);
    if diff > 0 {
      AdjustedRaises(original, enforced, hours);
      RaiseLowest(a, hours, diff);
    } else if diff < 0 {
      AdjustedLowers(original, enforced, hours);
      LowerLowest(a, hours, diff);
    }
    tmp := a[..];
  }

  /** `Adjusted` when the schedule is short of the count: the raising pass over a given list of all hours. */
  lemma AdjustedRaises(tmp: seq<int>, enforced: int, hours: seq<int>)
    requires |tmp| == HoursPerDay && hours == AllHours() && enforced > Sum(tmp)
    ensures Adjusted(tmp, enforced) == Fill(tmp, hours, [], enforced - Sum(tmp)).s
  {
  }

  /** `Adjusted` when the schedule is over the count: the lowering pass over a given list of all hours. */
  lemma AdjustedLowers(tmp: seq<int>, enforced: int, hours: seq<int>)
    requires |tmp| == HoursPerDay && hours == AllHours() && enforced < Sum(tmp)
    ensures Adjusted(tmp, enforced) == Clear(tmp, hours, Sum(tmp) - enforced).s
  {
  }

  /** Raising a binary schedule towards a count it can reach ends exactly there, switching hours on only. */
  lemma {:induction false} RaisedExact(tmp: seq<int>, hours: seq<int>, diff: nat)
    requires |tmp| == HoursPerDay && IsBinary(tmp) && hours == AllHours()
    requires Sum(tmp) + diff <= HoursPerDay
    ensures var r := Fill(tmp, hours, [], diff).s;
      && Sum(r) == Sum(tmp) + diff
      && IsBinary(r)
      && forall i :: 0 <= i < HoursPerDay ==> r[i] == tmp[i] || (tmp[i] == 0 && r[i] == 1)
  {
    forall h | 0 <= h < HoursPerDay ensures h in hours {
      InAllHours(h);
    }
    FillEffect(tmp, hours, [], diff);
    FillSaturates(tmp, hours, [], diff);
    var p := Fill(tmp, hours, [], diff);
    if p.left > 0 {
      SumAllOnes(p.s);
    }
  }

  /** Lowering a binary schedule towards a count it can reach ends exactly there, switching hours off only. */
  lemma {:induction false} LoweredExact(tmp: seq<int>, hours: seq<int>, excess: nat)
    requires |tmp| == HoursPerDay && IsBinary(tmp) && hours == AllHours()
    requires excess <= Sum(tmp)
    ensures var r := Clear(tmp, hours, excess).s;
      && Sum(r) == Sum(tmp) - excess
      && IsBinary(r)
      && forall i :: 0 <= i < HoursPerDay ==> r[i] == tmp[i] || (tmp[i] == 1 && r[i] == 0)
  {
    forall h | 0 <= h < HoursPerDay ensures h in hours {
      InAllHours(h);
    }
    ClearEffect(tmp, hours, excess);
    ClearSaturates(tmp, hours, excess);
    var p := Clear(tmp, hours, excess);
    if p.left > 0 {
      SumNoOnes(p.s);
    }
  }

  /**
   * On a binary schedule and a count between 0 and 24 the adjustment is
   * exact, stays binary, and only switches hours on (when raising) or off
   * (when lowering).
   */
  lemma AdjustedExact(tmp: seq<int>, enforced: int)
    requires |tmp| == HoursPerDay && IsBinary(tmp)
    requires 0 <= enforced <= HoursPerDay
    ensures var r := Adjusted(tmp, enforced);
      && Sum(r) == enforced
      && IsBinary(r)
      && forall i :: 0 <= i < HoursPerDay ==>
           r[i] == tmp[i]
           || (enforced > Sum(tmp) && tmp[i] == 0 && r[i] == 1)
           || (enforced < Sum(tmp) && tmp[i] == 1 && r[i] == 0)
  {
    var hours := AllHours();
    var diff := enforced - Sum(tmp);
    if diff > 0 {
      RaisedExact(tmp, hours, diff);
    } else if diff < 0 {
      SumBinaryBounds(tmp);
      LoweredExact(tmp, hours, -diff);
    }
  }

  /** The hours of the day before `j` are the first `j` entries of `range(24)`. */
  lemma HoursBefore(hours: seq<int>, j: int)
    requires hours == AllHours() && 0 <= j < HoursPerDay
    ensures hours == hours[..j] + hours[j..]
    ensures j !in hours[..j] && j in hours[j..]
    ensures forall i :: 0 <= i < j ==> i in hours[..j]
  {
    assert hours == hours[..j] + hours[j..];
    assert hours[j..][0] == j;
    forall i | 0 <= i < j
      ensures i in hours[..j]
    {
      assert hours[..j][i] == i;
    }
  }

  /** Raising works from the lowest index: an hour switched on has no OFF hour before it. */
  lemma RaisedLowestFirst(tmp: seq<int>, hours: seq<int>, diff: nat, j: int)
    requires |tmp| == HoursPerDay && hours == AllHours() && 0 <= j < HoursPerDay
    ensures var r := Fill(tmp, hours, [], diff).s;
      && (tmp[j] == 1 ==> r[j] == 1)
      && (tmp[j] == 0 && r[j] == 1 ==> forall i :: 0 <= i < j ==> r[i] != 0)
  {
    HoursBefore(hours, j);
    var r := Fill(tmp, hours, [], diff).s;
    FillEffect(tmp, hours, [], diff);
    if tmp[j] == 0 && r[j] == 1 {
      FillPrefersEarlier(tmp, hours[..j], hours[j..], [], diff, j);
    }
  }

  /** Lowering works from the lowest index: an hour switched off has no ON hour before it. */
  lemma LoweredLowestFirst(tmp: seq<int>, hours: seq<int>, excess: nat, j: int)
    requires |tmp| == HoursPerDay && hours == AllHours() && 0 <= j < HoursPerDay
    ensures var r := Clear(tmp, hours, excess).s;
      && (tmp[j] == 0 ==> r[j] == 0)
      && (tmp[j] == 1 && r[j] == 0 ==> forall i :: 0 <= i < j ==> r[i] != 1)
  {
    HoursBefore(hours, j);
    var r := Clear(tmp, hours, excess).s;
    ClearEffect(tmp, hours, excess);
    if tmp[j] == 1 && r[j] == 0 {
      ClearPrefersEarlier(tmp, hours[..j], hours[j..], excess, j);
    }
  }

  /**
   * The adjustment works from the lowest index: an hour it switched on has
   * no OFF hour before it, and an hour it switched off has no ON hour before
   * it.
   */
  lemma AdjustedLowestFirst(tmp: seq<int>, enforced: int, j: int)
    requires |tmp| == HoursPerDay && 0 <= j < HoursPerDay
    ensures var r := Adjusted(tmp, enforced);
      && (tmp[j] == 0 && r[j] == 1 ==> forall i :: 0 <= i < j ==> r[i] != 0)
      && (tmp[j] == 1 && r[j] == 0 ==> forall i :: 0 <= i < j ==> r[i] != 1)
  {
    var hours := AllHours();
    var diff := enforced - Sum(tmp);
    if diff > 0 {
      RaisedLowestFirst(tmp, hours, diff, j);
    } else if diff < 0 {
      LoweredLowestFirst(tmp, hours, -diff, j);
    }
  }
}
