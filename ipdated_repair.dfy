/**
 * The post-processing passes of `ipdated_agent.py` applied to one
 * appliance's schedule: peak redistribution, then forcing the ON-count back
 * to the original count.
 */
module IpdatedRepair {
  import opened Vectors
  import opened Tariff
  import opened Repair

  // ---------------------------------------------------------------------
  // Peak redistribution

  /**
   * `redistribute_peak_violations` for one appliance: untouched when the
   * appliance may run in peak hours, otherwise the shared redistribution.
   */
  method RedistributePeakViolations(a: array<int>, allow: bool, peak: seq<int>, offPeak: seq<int>, day: seq<int>)
    requires a.Length == HoursPerDay && ValidHours(peak) && ValidHours(offPeak) && ValidHours(day)
    modifies a
    ensures allow ==> a[..] == old(a[..])
    ensures !allow ==> a[..] == Redistributed(old(a[..]), peak, offPeak, day)
  {
    if allow {
      return;
    }
    ghost var s := a[..];
    var removed := ClearPeakOns(a, peak);
    ghost var c := a[..];
    var total := Sum(a[..]) + removed;
    var filled := Sum(a[..]);
    var hours := AllHours();
    ghost var f1 := Fill(c, offPeak, peak, removed);
    ghost var f2 := Fill(f1.s, day, peak, f1.left);
    ghost var f3 := Fill(f2.s, hours, peak, f2.left);
    FillThree(c, offPeak, day, hours, peak, removed);
    assert Redistributed(s, peak, offPeak, day) == f3.s;
    filled := RefillWhenShort(a, offPeak, peak, filled, total, Pass(c, removed));
    filled := RefillWhenShort(a, day, peak, filled, total, f1);
    filled := RefillWhenShort(a, hours, peak, filled, total, f2);
  }

  // ---------------------------------------------------------------------
  // Forcing the ON-count back to the original count

  /** The hours the agent may switch on: all of them, or the non-peak ones, in index order. */
  function Permitted(allow: bool, peak: seq<int>): (r: seq<int>)
    ensures ValidHours(r)
    ensures forall h {:trigger h in r} :: h in r <==> 0 <= h < HoursPerDay && (allow || h !in peak)
  {
    DayHours(Blocked(allow, peak), false)
  }

  /** The hours an add pass skips. */
  function Blocked(allow: bool, peak: seq<int>): seq<int>
  {
    if allow then [] else peak
  }

  /** Add order: off-peak, then day-only, then every permitted hour. */
  function AddOrder(allow: bool, peak: seq<int>, offPeak: seq<int>, day: seq<int>): (r: seq<int>)
    requires ValidHours(offPeak) && ValidHours(day)
    ensures ValidHours(r)
  {
    offPeak + DayOnly(day, peak, offPeak) + Permitted(allow, peak)
  }

  /** Removal order: day-only, then off-peak, then (only if allowed) the whole day. */
  function RemoveOrder(allow: bool, peak: seq<int>, offPeak: seq<int>, day: seq<int>): (r: seq<int>)
    requires ValidHours(offPeak) && ValidHours(day)
    ensures ValidHours(r)
  {
    DayOnly(day, peak, offPeak) + offPeak + (if allow then AllHours() else [])
  }

  /**
   * `enforce_required_ons_improved` on one appliance before the closing
   * `fix_length`: short of `need`, switch ON in add order (skipping peak
   * hours unless allowed); over `need`, switch OFF in removal order.
   */
  function Enforced(s: seq<int>, need: int, allow: bool, peak: seq<int>, offPeak: seq<int>, day: seq<int>): (r: seq<int>)
    requires |s| == HoursPerDay && ValidHours(offPeak) && ValidHours(day)
    ensures |r| == HoursPerDay
  {
    if Sum(s) < need then AddPass(s, need, allow, peak, offPeak, day).s
    else if Sum(s) > need then RemovePass(s, need, allow, peak, offPeak, day).s
    else s
  }

  /** The `add_ones` passes taken together, with the shortfall as budget. */
  function AddPass(s: seq<int>, need: int, allow: bool, peak: seq<int>, offPeak: seq<int>, day: seq<int>): (p: Pass)
    requires |s| == HoursPerDay && ValidHours(offPeak) && ValidHours(day) && Sum(s) <= need
    ensures |p.s| == HoursPerDay
  {
    Fill(s, AddOrder(allow, peak, offPeak, day), Blocked(allow, peak), need - Sum(s))
  }

  /** The `remove_ones` passes taken together, with the excess as budget. */
  function RemovePass(s: seq<int>, need: int, allow: bool, peak: seq<int>, offPeak: seq<int>, day: seq<int>): (p: Pass)
    requires |s| == HoursPerDay && ValidHours(offPeak) && ValidHours(day) && Sum(s) >= need
    ensures |p.s| == HoursPerDay
  {
    Clear(s, RemoveOrder(allow, peak, offPeak, day), Sum(s) - need)
  }

  /** The nested `add_ones`: stop once `curr` reaches `need`; skip disallowed peak hours. */
  method AddOnes(a: array<int>, hs: seq<int>, allow: bool, peak: seq<int>, need: int, curr: int) returns (currAfter: int)
    requires a.Length == HoursPerDay && ValidHours(hs) && curr <= need
    modifies a
    ensures var p := Fill(old(a[..]), hs, Blocked(allow, peak), need - curr);
      a[..] == p.s && currAfter == need - p.left
  {
    ghost var s := a[..];
    ghost var blocked := Blocked(allow, peak);
    currAfter := curr;
    for k := 0 to |hs|
      invariant currAfter <= need
      invariant Fill(a[..], hs[k..], blocked, need - currAfter) == Fill(s, hs, blocked, need - curr)
    {
      if currAfter >= need {
        FillNoBudget(a[..], hs[k..], blocked);
        break;
      }
      var h := hs[k];
      assert hs[k..][1..] == hs[k + 1..];
      if a[h] == 0 && (allow || h !in peak) {
        a[h] := 1;
        currAfter := currAfter + 1;
      }
    }
  }

  /** The nested `remove_ones`: stop once `curr` is down to `need`. */
  method RemoveOnes(a: array<int>, hs: seq<int>, need: int, curr: int) returns (currAfter: int)
    requires a.Length == HoursPerDay && ValidHours(hs) && curr >= need
    modifies a
    ensures var p := Clear(old(a[..]), hs, curr - need);
      a[..] == p.s && currAfter == need + p.left
  {
    ghost var s := a[..];
    currAfter := curr;
    for k := 0 to |hs|
      invariant currAfter >= need
      invariant Clear(a[..], hs[k..], currAfter - need) == Clear(s, hs, curr - need)
    {
      if currAfter <= need {
        ClearNoBudget(a[..], hs[k..]);
        break;
      }
      var h := hs[k];
      assert hs[k..][1..] == hs[k + 1..];
      if a[h] == 1 {
        a[h] := 0;
        currAfter := currAfter - 1;
      }
    }
  }

  /** The three `add_ones` calls: off-peak, then day-only, then the permitted hours. */
  method AddInOrder(a: array<int>, offPeak: seq<int>, day: seq<int>, permitted: seq<int>,
                    allow: bool, peak: seq<int>, need: int, curr: int)
    requires a.Length == HoursPerDay && ValidHours(offPeak) && ValidHours(day) && ValidHours(permitted)
    requires curr <= need
    modifies a
    ensures a[..] == Fill(old(a[..]), offPeak + day + permitted, Blocked(allow, peak), need - curr).s
  {
    ghost var s := a[..];
    ghost var blocked := Blocked(allow, peak);
    ghost var f1 := Fill(s, offPeak, blocked, need - curr);
    ghost var f2 := Fill(f1.s, day, blocked, f1.left);
    FillThree(s, offPeak, day, permitted, blocked, need - curr);
    var c1 := AddOnes(a, offPeak, allow, peak, need, curr);
    assert a[..] == f1.s && need - c1 == f1.left;
    var c2 := AddOnes(a, day, allow, peak, need, c1);
    assert a[..] == f2.s && need - c2 == f2.left;
    var c3 := AddOnes(a, permitted, allow, peak, need, c2);
  }

  /** The first two `remove_ones` calls: day-only, then off-peak. */
  method RemoveInOrder(a: array<int>, day: seq<int>, offPeak: seq<int>, need: int, curr: int) returns (currAfter: int)
    requires a.Length == HoursPerDay && ValidHours(offPeak) && ValidHours(day)
    requires curr >= need
    modifies a
    ensures var p := Clear(old(a[..]), day + offPeak, curr - need);
      a[..] == p.s && currAfter == need + p.left
  {
    ghost var s := a[..];
    ghost var c1 := Clear(s, day, curr - need);
    ClearAppend(s, day, offPeak, curr - need);
    var r1 := RemoveOnes(a, day, need, curr);
    assert a[..] == c1.s && r1 - need == c1.left;
    currAfter := RemoveOnes(a, offPeak, need, r1);
  }

  /** The `curr < need` branch: the three add passes. */
  method AddShortfall(a: array<int>, need: int, allow: bool, peak: seq<int>, offPeak: seq<int>, dayHours: seq<int>)
    requires a.Length == HoursPerDay && ValidHours(offPeak) && ValidHours(dayHours)
    requires Sum(a[..]) <= need
    modifies a
    ensures a[..] == AddPass(old(a[..]), need, allow, peak, offPeak, dayHours).s
  {
    var day := DayOnly(dayHours, peak, offPeak);
    AddInOrder(a, offPeak, day, Permitted(allow, peak), allow, peak, need, Sum(a[..]));
  }

  /** The `curr > need` branch: day-only, off-peak and, if allowed, every hour. */
  method RemoveExcess(a: array<int>, need: int, allow: bool, peak: seq<int>, offPeak: seq<int>, dayHours: seq<int>)
    requires a.Length == HoursPerDay && ValidHours(offPeak) && ValidHours(dayHours)
    requires Sum(a[..]) >= need
    modifies a
    ensures a[..] == RemovePass(old(a[..]), need, allow, peak, offPeak, dayHours).s
  {
    ghost var s := a[..];
    var curr := Sum(a[..]);
    var day := DayOnly(dayHours, peak, offPeak);
    var rest := if allow then AllHours() else [];
    ghost var c2 := Clear(s, day + offPeak, curr - need);
    ClearAppend(s, day + offPeak, rest, curr - need);
    assert RemovePass(s, need, allow, peak, offPeak, dayHours).s == Clear(c2.s, rest, c2.left).s;
    curr := RemoveInOrder(a, day, offPeak, need, curr);
    if allow {
      curr := RemoveOnes(a, AllHours(), need, curr);
    } else {
      assert Clear(c2.s, rest, c2.left) == Pass(c2.s, c2.left);
    }
  }

  /**
   * `enforce_required_ons_improved` for one appliance: `required` is the
   * entry of `required_ons` (absent means the current count).  The array is
   * repaired in place and the returned schedule is its `fix_length`.
   */
  method EnforceRequiredOnsImproved(a: array<int>, required: Option<int>, allow: bool,
                                    peak: seq<int>, offPeak: seq<int>, dayHours: seq<int>)
    returns (r: seq<int>)
    requires a.Length == HoursPerDay && ValidHours(offPeak) && ValidHours(dayHours)
    modifies a
    ensures a[..] == Enforced(old(a[..]), if required.Some? then required.value else Sum(old(a[..])),
                              allow, peak, offPeak, dayHours)
    ensures r == FixLength(a[..])
  {
    var curr := Sum(a[..]);
    var need := if required.Some? then required.value else curr;
    if curr < need {
      AddShortfall(a, need, allow, peak, offPeak, dayHours);
    } else if curr > need {
      RemoveExcess(a, need, allow, peak, offPeak, dayHours);
    }
    r := FixLength(a[..]);
  }

  /** Membership in the add and removal orders. */
  lemma OrderMembers(allow: bool, peak: seq<int>, offPeak: seq<int>, day: seq<int>)
    requires ValidHours(offPeak) && ValidHours(day)
    ensures forall h :: 0 <= h < HoursPerDay && (allow || h !in peak) ==> h in AddOrder(allow, peak, offPeak, day)
    ensures forall h :: h in RemoveOrder(allow, peak, offPeak, day) <==>
      h in offPeak || (h in day && h !in peak) || (allow && 0 <= h < HoursPerDay)
  {
    if allow {
      forall h | 0 <= h < HoursPerDay ensures h in AllHours() { InAllHours(h); }
    }
  }

  /**
   * The add passes only switch OFF slots ON, never a blocked hour, and
   * raise the ON-count by the budget they spend.
   */
  lemma AddPassEffect(s: seq<int>, need: int, allow: bool, peak: seq<int>, offPeak: seq<int>, day: seq<int>)
    requires |s| == HoursPerDay && ValidHours(offPeak) && ValidHours(day) && Sum(s) <= need
    ensures var p := AddPass(s, need, allow, peak, offPeak, day);
      && Sum(p.s) == need - p.left
      && forall i :: 0 <= i < HoursPerDay ==>
           p.s[i] == s[i] || (s[i] == 0 && p.s[i] == 1 && (allow || i !in peak) && i in AddOrder(allow, peak, offPeak, day))
  {
    FillEffect(s, AddOrder(allow, peak, offPeak, day), Blocked(allow, peak), need - Sum(s));
  }

  /**
   * The removal passes only switch ON slots OFF, only at listed hours, and
   * lower the ON-count by the budget they spend.
   */
  lemma RemovePassEffect(s: seq<int>, need: int, allow: bool, peak: seq<int>, offPeak: seq<int>, day: seq<int>)
    requires |s| == HoursPerDay && ValidHours(offPeak) && ValidHours(day) && Sum(s) >= need
    ensures var p := RemovePass(s, need, allow, peak, offPeak, day);
      && Sum(p.s) == need + p.left
      && forall i :: 0 <= i < HoursPerDay ==>
           p.s[i] == s[i] || (s[i] == 1 && p.s[i] == 0 && i in RemoveOrder(allow, peak, offPeak, day))
  {
    ClearEffect(s, RemoveOrder(allow, peak, offPeak, day), Sum(s) - need);
  }

  /**
   * Short of `need`, the count repair only switches OFF slots ON, never a
   * peak hour unless allowed, and never overshoots.
   */
  lemma EnforcedAdds(s: seq<int>, need: int, allow: bool, peak: seq<int>, offPeak: seq<int>, day: seq<int>)
    requires |s| == HoursPerDay && ValidHours(offPeak) && ValidHours(day)
    requires Sum(s) < need
    ensures var r := Enforced(s, need, allow, peak, offPeak, day);
      && Sum(s) <= Sum(r) <= need
      && forall i :: 0 <= i < HoursPerDay ==>
           r[i] == s[i] || (s[i] == 0 && r[i] == 1 && (allow || i !in peak))
  {
    AddPassEffect(s, need, allow, peak, offPeak, day);
    assert Enforced(s, need, allow, peak, offPeak, day) == AddPass(s, need, allow, peak, offPeak, day).s;
  }

  /**
   * Over `need`, the count repair only switches ON slots OFF, only in day,
   * off-peak or (if allowed) any hour, and never undershoots.
   */
  lemma EnforcedRemoves(s: seq<int>, need: int, allow: bool, peak: seq<int>, offPeak: seq<int>, day: seq<int>)
    requires |s| == HoursPerDay && ValidHours(offPeak) && ValidHours(day)
    requires Sum(s) > need
    ensures var r := Enforced(s, need, allow, peak, offPeak, day);
      && need <= Sum(r) <= Sum(s)
      && forall i :: 0 <= i < HoursPerDay ==>
           r[i] == s[i] || (s[i] == 1 && r[i] == 0 && (i in offPeak || (i in day && i !in peak) || allow))
  {
    RemovePassEffect(s, need, allow, peak, offPeak, day);
    OrderMembers(allow, peak, offPeak, day);
    assert Enforced(s, need, allow, peak, offPeak, day) == RemovePass(s, need, allow, peak, offPeak, day).s;
  }

  /**
   * The count repair leaves a vector already at `need` alone, and keeps a
   * binary vector binary.
   */
  lemma EnforcedKeeps(s: seq<int>, need: int, allow: bool, peak: seq<int>, offPeak: seq<int>, day: seq<int>)
    requires |s| == HoursPerDay && ValidHours(offPeak) && ValidHours(day)
    ensures Sum(s) == need ==> Enforced(s, need, allow, peak, offPeak, day) == s
    ensures IsBinary(s) ==> IsBinary(Enforced(s, need, allow, peak, offPeak, day))
  {
    if Sum(s) < need {
      EnforcedAdds(s, need, allow, peak, offPeak, day);
    } else if Sum(s) > need {
      EnforcedRemoves(s, need, allow, peak, offPeak, day);
    }
  }

  /** An add pass either spends its budget or leaves no allowed hour OFF. */
  lemma AddPassSaturates(s: seq<int>, need: int, allow: bool, peak: seq<int>, offPeak: seq<int>, day: seq<int>)
    requires |s| == HoursPerDay && ValidHours(offPeak) && ValidHours(day) && Sum(s) <= need
    ensures var p := AddPass(s, need, allow, peak, offPeak, day);
      p.left == 0 || forall h :: 0 <= h < HoursPerDay && (allow || h !in peak) ==> p.s[h] != 0
  {
    var order := AddOrder(allow, peak, offPeak, day);
    var p := AddPass(s, need, allow, peak, offPeak, day);
    assert p == Fill(s, order, Blocked(allow, peak), need - Sum(s));
    FillSaturates(s, order, Blocked(allow, peak), need - Sum(s));
    if p.left != 0 {
      OrderMembers(allow, peak, offPeak, day);
      forall h | 0 <= h < HoursPerDay && (allow || h !in peak)
        ensures p.s[h] != 0
      {
        assert h in order && h !in Blocked(allow, peak);
      }
    }
  }

  /** A removal pass either spends its budget or leaves no listed hour ON. */
  lemma RemovePassSaturates(s: seq<int>, need: int, allow: bool, peak: seq<int>, offPeak: seq<int>, day: seq<int>)
    requires |s| == HoursPerDay && ValidHours(offPeak) && ValidHours(day) && Sum(s) >= need
    ensures var p := RemovePass(s, need, allow, peak, offPeak, day);
      p.left == 0 || forall h :: h in RemoveOrder(allow, peak, offPeak, day) ==> p.s[h] != 1
  {
    ClearSaturates(s, RemoveOrder(allow, peak, offPeak, day), Sum(s) - need);
  }

  /** With peak hours allowed, any target in 0..24 is met exactly on a binary vector. */
  lemma EnforcedExactWhenAllowed(s: seq<int>, need: int, peak: seq<int>, offPeak: seq<int>, day: seq<int>)
    requires |s| == HoursPerDay && IsBinary(s) && ValidHours(offPeak) && ValidHours(day)
    requires 0 <= need <= HoursPerDay
    ensures Sum(Enforced(s, need, true, peak, offPeak, day)) == need
  {
    if Sum(s) < need {
      var p := AddPass(s, need, true, peak, offPeak, day);
      AddPassEffect(s, need, true, peak, offPeak, day);
      AddPassSaturates(s, need, true, peak, offPeak, day);
      if p.left > 0 {
        SumAllOnes(p.s);
        assert false;
      }
      assert Enforced(s, need, true, peak, offPeak, day) == p.s;
    } else if Sum(s) > need {
      var p := RemovePass(s, need, true, peak, offPeak, day);
      RemovePassEffect(s, need, true, peak, offPeak, day);
      RemovePassSaturates(s, need, true, peak, offPeak, day);
      if p.left > 0 {
        OrderMembers(true, peak, offPeak, day);
        SumNoOnes(p.s);
        assert false;
      }
      assert Enforced(s, need, true, peak, offPeak, day) == p.s;
    }
  }

  /**
   * Without peak permission a shortfall is made up exactly when the target
   * fits in the non-peak hours.
   */
  lemma EnforcedExactWhenRoom(s: seq<int>, need: int, peak: seq<int>, offPeak: seq<int>, day: seq<int>)
    requires |s| == HoursPerDay && IsBinary(s) && ValidHours(offPeak) && ValidHours(day)
    requires Sum(s) <= need <= CountOutside(peak, HoursPerDay)
    ensures Sum(Enforced(s, need, false, peak, offPeak, day)) == need
  {
    if Sum(s) < need {
      var p := AddPass(s, need, false, peak, offPeak, day);
      AddPassEffect(s, need, false, peak, offPeak, day);
      AddPassSaturates(s, need, false, peak, offPeak, day);
      if p.left > 0 {
        SumCoversOutside(p.s, peak);
        assert false;
      }
      assert Enforced(s, need, false, peak, offPeak, day) == p.s;
    }
  }

  /**
   * Additions go to off-peak hours first: if a shortfall was made up at an
   * hour outside the off-peak list, every allowed off-peak hour is ON.
   */
  lemma EnforcedAddsOffPeakFirst(s: seq<int>, need: int, allow: bool, peak: seq<int>, offPeak: seq<int>, day: seq<int>, j: int)
    requires |s| == HoursPerDay && ValidHours(offPeak) && ValidHours(day)
    requires Sum(s) < need
    requires 0 <= j < HoursPerDay && j !in offPeak && s[j] == 0
    requires Enforced(s, need, allow, peak, offPeak, day)[j] == 1
    ensures forall h :: h in offPeak && (allow || h !in peak) ==> Enforced(s, need, allow, peak, offPeak, day)[h] != 0
  {
    var e := Enforced(s, need, allow, peak, offPeak, day);
    assert e == AddPass(s, need, allow, peak, offPeak, day).s;
    var rest := DayOnly(day, peak, offPeak) + Permitted(allow, peak);
    assert AddOrder(allow, peak, offPeak, day) == offPeak + rest;
    AddPassSplit(s, need, allow, peak, offPeak, day, offPeak, rest, j);
    forall h | h in offPeak && (allow || h !in peak)
      ensures e[h] != 0
    {
      assert 0 <= h < HoursPerDay;
    }
  }

  /**
   * Then day hours: if a shortfall was made up at an hour in neither the
   * off-peak nor the day-only list, every allowed hour of both is ON.
   */
  lemma EnforcedAddsDayBeforeRest(s: seq<int>, need: int, allow: bool, peak: seq<int>, offPeak: seq<int>, day: seq<int>, j: int)
    requires |s| == HoursPerDay && ValidHours(offPeak) && ValidHours(day)
    requires Sum(s) < need
    requires 0 <= j < HoursPerDay && j !in offPeak && j !in DayOnly(day, peak, offPeak) && s[j] == 0
    requires Enforced(s, need, allow, peak, offPeak, day)[j] == 1
    ensures forall h :: (h in offPeak || h in DayOnly(day, peak, offPeak)) && (allow || h !in peak) ==>
      Enforced(s, need, allow, peak, offPeak, day)[h] != 0
  {
    assert Enforced(s, need, allow, peak, offPeak, day) == AddPass(s, need, allow, peak, offPeak, day).s;
    AddPassSplit(s, need, allow, peak, offPeak, day, offPeak + DayOnly(day, peak, offPeak), Permitted(allow, peak), j);
  }

  /**
   * An add pass whose order is `x + y` that switched on an hour outside `x`
   * left no allowed hour of `x` OFF.
   */
  lemma AddPassSplit(s: seq<int>, need: int, allow: bool, peak: seq<int>, offPeak: seq<int>, day: seq<int>,
                     x: seq<int>, y: seq<int>, j: int)
    requires |s| == HoursPerDay && ValidHours(offPeak) && ValidHours(day) && Sum(s) <= need
    requires AddOrder(allow, peak, offPeak, day) == x + y
    requires 0 <= j < HoursPerDay && j !in x && s[j] == 0
    requires AddPass(s, need, allow, peak, offPeak, day).s[j] == 1
    ensures forall h :: 0 <= h < HoursPerDay && h in x && (allow || h !in peak) ==>
      AddPass(s, need, allow, peak, offPeak, day).s[h] != 0
  {
    assert AddPass(s, need, allow, peak, offPeak, day) == Fill(s, x + y, Blocked(allow, peak), need - Sum(s));
    FillPrefersEarlier(s, x, y, Blocked(allow, peak), need - Sum(s), j);
  }

  /**
   * Removals take day hours first: if an excess was removed at an hour
   * outside the day-only list, no day-only hour is left ON.
   */
  lemma EnforcedRemovesDayFirst(s: seq<int>, need: int, allow: bool, peak: seq<int>, offPeak: seq<int>, day: seq<int>, j: int)
    requires |s| == HoursPerDay && ValidHours(offPeak) && ValidHours(day)
    requires Sum(s) > need
    requires 0 <= j < HoursPerDay && j !in DayOnly(day, peak, offPeak) && s[j] == 1
    requires Enforced(s, need, allow, peak, offPeak, day)[j] == 0
    ensures forall h :: h in DayOnly(day, peak, offPeak) ==> Enforced(s, need, allow, peak, offPeak, day)[h] != 1
  {
    var dayOnly := DayOnly(day, peak, offPeak);
    var rest := if allow then AllHours() else [];
    assert Enforced(s, need, allow, peak, offPeak, day) == RemovePass(s, need, allow, peak, offPeak, day).s;
    assert dayOnly + offPeak + rest == dayOnly + (offPeak + rest);
    ClearPrefersEarlier(s, dayOnly, offPeak + rest, Sum(s) - need, j);
  }
}
