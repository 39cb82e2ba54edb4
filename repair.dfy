/**
 * The bit-flipping passes that every repair step of the scheduler is built
 * from, and the peak-violation redistribution that all three agents share.
 *
 * A fill pass walks a list of hours and switches OFF slots ON while it still
 * has budget; a clear pass walks a list and switches ON slots OFF while it
 * still has budget.  Each pass reports the budget it did not use.
 */
module Repair {
  import opened Vectors

  /** The vector after a pass, and the part of the budget left unused. */
  datatype Pass = Pass(s: seq<int>, left: nat)

  /**
   * Visit `hs` in order; an hour not in `blocked` whose slot is 0 is set to 1
   * while budget remains.
   */
  function Fill(s: seq<int>, hs: seq<int>, blocked: seq<int>, budget: nat): (p: Pass)
    requires InBounds(hs, |s|)
    ensures |p.s| == |s|
    ensures p.left <= budget
    decreases |hs|, budget
  {
    if hs == [] then Pass(s, budget)
    else if budget > 0 && hs[0] !in blocked && s[hs[0]] == 0 then
      Fill(s[hs[0] := 1], hs[1..], blocked, budget - 1)
    else
      Fill(s, hs[1..], blocked, budget)
  }

  /** Visit `hs` in order; a slot that is 1 is set to 0 while budget remains. */
  function Clear(s: seq<int>, hs: seq<int>, budget: nat): (p: Pass)
    requires InBounds(hs, |s|)
    ensures |p.s| == |s|
    ensures p.left <= budget
    decreases |hs|, budget
  {
    if hs == [] then Pass(s, budget)
    else if budget > 0 && s[hs[0]] == 1 then
      Clear(s[hs[0] := 0], hs[1..], budget - 1)
    else
      Clear(s, hs[1..], budget)
  }

  // ---------------------------------------------------------------------
  // Fill

  /**
   * A fill only switches OFF slots ON, only at listed hours that are not
   * blocked, and the ON-count grows by exactly the budget it spent.
   */
  lemma {:induction false} FillEffect(s: seq<int>, hs: seq<int>, blocked: seq<int>, budget: nat)
    requires InBounds(hs, |s|)
    ensures var p := Fill(s, hs, blocked, budget);
      && Sum(p.s) == Sum(s) + (budget - p.left)
      && forall i :: 0 <= i < |s| ==>
           p.s[i] == s[i] || (s[i] == 0 && p.s[i] == 1 && i in hs && i !in blocked)
    decreases |hs|
  {
    if hs != [] {
      var h := hs[0];
      assert h in hs;
      assert forall x :: x in hs[1..] ==> x in hs;
      if budget > 0 && h !in blocked && s[h] == 0 {
        SumUpdate(s, h, 1);
        FillEffect(s[h := 1], hs[1..], blocked, budget - 1);
      } else {
        FillEffect(s, hs[1..], blocked, budget);
      }
    }
  }

  /** With nothing left to spend a fill changes nothing. */
  lemma {:induction false} FillNoBudget(s: seq<int>, hs: seq<int>, blocked: seq<int>)
    requires InBounds(hs, |s|)
    ensures Fill(s, hs, blocked, 0) == Pass(s, 0)
    decreases |hs|
  {
    if hs != [] {
      assert forall x :: x in hs[1..] ==> x in hs;
      FillNoBudget(s, hs[1..], blocked);
    }
  }

  /** Filling from `a + b` is filling from `a`, then from `b` with what is left. */
  lemma {:induction false} FillAppend(s: seq<int>, a: seq<int>, b: seq<int>, blocked: seq<int>, budget: nat)
    requires InBounds(a + b, |s|)
    ensures InBounds(a, |s|)
    ensures InBounds(b, |s|)
    ensures var f := Fill(s, a, blocked, budget);
      Fill(s, a + b, blocked, budget) == Fill(f.s, b, blocked, f.left)
    decreases |a|
  {
    assert forall h :: h in a ==> h in a + b;
    assert forall h :: h in b ==> h in a + b;
    if a == [] {
      assert a + b == b;
    } else {
      assert (a + b)[0] == a[0];
      assert (a + b)[1..] == a[1..] + b;
      if budget > 0 && a[0] !in blocked && s[a[0]] == 0 {
        FillAppend(s[a[0] := 1], a[1..], b, blocked, budget - 1);
      } else {
        FillAppend(s, a[1..], b, blocked, budget);
      }
    }
  }

  /**
   * A fill either spends its whole budget or leaves no eligible listed hour
   * OFF.
   */
  lemma {:induction false} FillSaturates(s: seq<int>, hs: seq<int>, blocked: seq<int>, budget: nat)
    requires InBounds(hs, |s|)
    ensures var p := Fill(s, hs, blocked, budget);
      p.left == 0 || forall h :: h in hs && h !in blocked ==> p.s[h] != 0
    decreases |hs|
  {
    if hs != [] {
      var h0 := hs[0];
      assert forall x :: x in hs[1..] ==> x in hs;
      var p := Fill(s, hs, blocked, budget);
      if budget > 0 && h0 !in blocked && s[h0] == 0 {
        FillSaturates(s[h0 := 1], hs[1..], blocked, budget - 1);
        FillEffect(s[h0 := 1], hs[1..], blocked, budget - 1);
      } else {
        FillSaturates(s, hs[1..], blocked, budget);
        FillEffect(s, hs[1..], blocked, budget);
        if p.left > 0 && h0 !in blocked {
          assert budget > 0;
          assert s[h0] != 0;
        }
      }
      forall x | x in hs && x !in blocked && p.left > 0
        ensures p.s[x] != 0
      {
        if x != h0 {
          assert x in hs[1..];
        }
      }
    }
  }

  /**
   * Fills prefer earlier hours: if filling from `a + b` switched on an hour
   * that is not in `a`, then no eligible hour of `a` is left OFF.
   */
  lemma FillPrefersEarlier(s: seq<int>, a: seq<int>, b: seq<int>, blocked: seq<int>, budget: nat, j: int)
    requires InBounds(a + b, |s|)
    requires 0 <= j < |s| && j !in a
    requires s[j] == 0 && Fill(s, a + b, blocked, budget).s[j] == 1
    ensures forall h :: 0 <= h < |s| && h in a && h !in blocked ==> Fill(s, a + b, blocked, budget).s[h] != 0
  {
    FillAppend(s, a, b, blocked, budget);
    var f := Fill(s, a, blocked, budget);
    FillEffect(s, a, blocked, budget);
    FillEffect(f.s, b, blocked, f.left);
    assert f.s[j] == 0;
    if f.left == 0 {
      FillNoBudget(f.s, b, blocked);
    }
    FillSaturates(s, a, blocked, budget);
  }

  // ---------------------------------------------------------------------
  // Clear

  /**
   * A clear only switches ON slots OFF, only at listed hours, and the
   * ON-count drops by exactly the budget it spent.
   */
  lemma {:induction false} ClearEffect(s: seq<int>, hs: seq<int>, budget: nat)
    requires InBounds(hs, |s|)
    ensures var p := Clear(s, hs, budget);
      && Sum(p.s) == Sum(s) - (budget - p.left)
      && forall i :: 0 <= i < |s| ==>
           p.s[i] == s[i] || (s[i] == 1 && p.s[i] == 0 && i in hs)
    decreases |hs|
  {
    if hs != [] {
      var h := hs[0];
      assert h in hs;
      assert forall x :: x in hs[1..] ==> x in hs;
      if budget > 0 && s[h] == 1 {
        SumUpdate(s, h, 0);
        ClearEffect(s[h := 0], hs[1..], budget - 1);
      } else {
        ClearEffect(s, hs[1..], budget);
      }
    }
  }

  /** With nothing left to spend a clear changes nothing. */
  lemma {:induction false} ClearNoBudget(s: seq<int>, hs: seq<int>)
    requires InBounds(hs, |s|)
    ensures Clear(s, hs, 0) == Pass(s, 0)
    decreases |hs|
  {
    if hs != [] {
      assert forall x :: x in hs[1..] ==> x in hs;
      ClearNoBudget(s, hs[1..]);
    }
  }

  /** A clear over hours that are all OFF already changes nothing. */
  lemma {:induction false} ClearNothingOn(s: seq<int>, hs: seq<int>, budget: nat)
    requires InBounds(hs, |s|)
    requires forall k :: 0 <= k < |hs| ==> s[hs[k]] != 1
    ensures Clear(s, hs, budget) == Pass(s, budget)
    decreases |hs|
  {
    if hs != [] {
      assert hs[0] in hs;
      assert forall x :: x in hs[1..] ==> x in hs;
      ClearNothingOn(s, hs[1..], budget);
    }
  }

  /** Clearing from `a + b` is clearing from `a`, then from `b` with what is left. */
  lemma {:induction false} ClearAppend(s: seq<int>, a: seq<int>, b: seq<int>, budget: nat)
    requires InBounds(a + b, |s|)
    ensures InBounds(a, |s|)
    ensures InBounds(b, |s|)
    ensures var c := Clear(s, a, budget);
      Clear(s, a + b, budget) == Clear(c.s, b, c.left)
    decreases |a|
  {
    assert forall h :: h in a ==> h in a + b;
    assert forall h :: h in b ==> h in a + b;
    if a == [] {
      assert a + b == b;
    } else {
      assert (a + b)[0] == a[0];
      assert (a + b)[1..] == a[1..] + b;
      if budget > 0 && s[a[0]] == 1 {
        ClearAppend(s[a[0] := 0], a[1..], b, budget - 1);
      } else {
        ClearAppend(s, a[1..], b, budget);
      }
    }
  }

  /** A clear either spends its whole budget or leaves no listed hour ON. */
  lemma {:induction false} ClearSaturates(s: seq<int>, hs: seq<int>, budget: nat)
    requires InBounds(hs, |s|)
    ensures var p := Clear(s, hs, budget);
      p.left == 0 || forall h :: h in hs ==> p.s[h] != 1
    decreases |hs|
  {
    if hs != [] {
      var h0 := hs[0];
      assert forall x :: x in hs[1..] ==> x in hs;
      var p := Clear(s, hs, budget);
      if budget > 0 && s[h0] == 1 {
        ClearSaturates(s[h0 := 0], hs[1..], budget - 1);
        ClearEffect(s[h0 := 0], hs[1..], budget - 1);
      } else {
        ClearSaturates(s, hs[1..], budget);
        ClearEffect(s, hs[1..], budget);
      }
      forall x | x in hs && p.left > 0
        ensures p.s[x] != 1
      {
        if x != h0 {
          assert x in hs[1..];
        }
      }
    }
  }

  /** A clear whose budget covers the whole list leaves no listed hour ON. */
  lemma {:induction false} ClearAll(s: seq<int>, hs: seq<int>, budget: nat)
    requires InBounds(hs, |s|)
    requires budget >= |hs|
    ensures forall h :: h in hs ==> Clear(s, hs, budget).s[h] != 1
    decreases |hs|
  {
    if hs != [] {
      var h0 := hs[0];
      assert forall x :: x in hs[1..] ==> x in hs;
      var p := Clear(s, hs, budget);
      if s[h0] == 1 {
        ClearAll(s[h0 := 0], hs[1..], budget - 1);
        ClearEffect(s[h0 := 0], hs[1..], budget - 1);
      } else {
        ClearAll(s, hs[1..], budget);
        ClearEffect(s, hs[1..], budget);
      }
      forall x | x in hs
        ensures p.s[x] != 1
      {
        if x != h0 {
          assert x in hs[1..];
        }
      }
    }
  }

  /**
   * Clears prefer earlier hours: if clearing from `a + b` switched off an
   * hour that is not in `a`, then no hour of `a` is left ON.
   */
  lemma ClearPrefersEarlier(s: seq<int>, a: seq<int>, b: seq<int>, budget: nat, j: int)
    requires InBounds(a + b, |s|)
    requires 0 <= j < |s| && j !in a
    requires s[j] == 1 && Clear(s, a + b, budget).s[j] == 0
    ensures forall h :: 0 <= h < |s| && h in a ==> Clear(s, a + b, budget).s[h] != 1
  {
    ClearAppend(s, a, b, budget);
    var c := Clear(s, a, budget);
    ClearEffect(s, a, budget);
    ClearEffect(c.s, b, c.left);
    assert c.s[j] == 1;
    if c.left == 0 {
      ClearNoBudget(c.s, b);
    }
    ClearSaturates(s, a, budget);
  }

  // ---------------------------------------------------------------------
  // Peak-violation redistribution, shared by the three agents

  /** The peak-clearing step: every ON peak hour is switched OFF. */
  function ClearPeak(s: seq<int>, peak: seq<int>): (p: Pass)
    requires |s| == HoursPerDay && ValidHours(peak)
  {
    Clear(s, peak, |peak|)
  }

  /** Number of ONs the peak-clearing step removed. */
  function RemovedCount(s: seq<int>, peak: seq<int>): (n: nat)
    requires |s| == HoursPerDay && ValidHours(peak)
  {
    |peak| - ClearPeak(s, peak).left
  }

  /**
   * `redistribute_peak_violations` for one appliance that is not allowed
   * peak hours: clear the peak ONs, then switch on as many OFF non-peak hours
   * as were cleared, visiting off-peak hours, then day hours, then the whole
   * day in index order.
   */
  function Redistributed(s: seq<int>, peak: seq<int>, offPeak: seq<int>, day: seq<int>): (r: seq<int>)
    requires |s| == HoursPerDay && ValidHours(peak) && ValidHours(offPeak) && ValidHours(day)
    ensures |r| == HoursPerDay
  {
    var c := ClearPeak(s, peak);
    Fill(c.s, offPeak + day + AllHours(), peak, RemovedCount(s, peak)).s
  }

  /** The order in which redistribution refills hours. */
  function RefillOrder(offPeak: seq<int>, day: seq<int>): seq<int>
  {
    offPeak + day + AllHours()
  }

  lemma RefillOrderValid(offPeak: seq<int>, day: seq<int>)
    requires ValidHours(offPeak) && ValidHours(day)
    ensures ValidHours(RefillOrder(offPeak, day))
    ensures forall h :: 0 <= h < HoursPerDay ==> h in RefillOrder(offPeak, day)
  {
    forall h | 0 <= h < HoursPerDay
      ensures h in RefillOrder(offPeak, day)
    {
      InAllHours(h);
    }
  }

  /**
   * What redistribution does to each slot: no peak hour is ON afterwards, a
   * non-peak hour is never switched off, a peak hour is never switched on,
   * the vector stays binary, and the ON-count never grows.
   */
  lemma RedistributedEffect(s: seq<int>, peak: seq<int>, offPeak: seq<int>, day: seq<int>)
    requires |s| == HoursPerDay && ValidHours(peak) && ValidHours(offPeak) && ValidHours(day)
    ensures var r := Redistributed(s, peak, offPeak, day);
      && (forall h :: h in peak ==> r[h] != 1)
      && (forall i :: 0 <= i < HoursPerDay && i !in peak ==> r[i] == s[i] || (s[i] == 0 && r[i] == 1))
      && (forall i :: 0 <= i < HoursPerDay && i in peak ==> r[i] == s[i] || (s[i] == 1 && r[i] == 0))
      && (IsBinary(s) ==> IsBinary(r))
      && Sum(r) <= Sum(s)
  {
    var c := ClearPeak(s, peak);
    var removed := RemovedCount(s, peak);
    RefillOrderValid(offPeak, day);
    ClearEffect(s, peak, |peak|);
    ClearAll(s, peak, |peak|);
    FillEffect(c.s, RefillOrder(offPeak, day), peak, removed);
  }

  /** Redistribution is idempotent: a second application changes nothing. */
  lemma RedistributedIdempotent(s: seq<int>, peak: seq<int>, offPeak: seq<int>, day: seq<int>)
    requires |s| == HoursPerDay && ValidHours(peak) && ValidHours(offPeak) && ValidHours(day)
    ensures var r := Redistributed(s, peak, offPeak, day);
      Redistributed(r, peak, offPeak, day) == r
  {
    var r := Redistributed(s, peak, offPeak, day);
    RedistributedEffect(s, peak, offPeak, day);
    RedistributedNoPeakOn(r, peak, offPeak, day);
  }

  /** A vector with no ON peak hour is left as it is. */
  lemma RedistributedNoPeakOn(s: seq<int>, peak: seq<int>, offPeak: seq<int>, day: seq<int>)
    requires |s| == HoursPerDay && ValidHours(peak) && ValidHours(offPeak) && ValidHours(day)
    requires forall h :: h in peak ==> s[h] != 1
    ensures Redistributed(s, peak, offPeak, day) == s
  {
    ClearNothingOn(s, peak, |peak|);
    RefillOrderValid(offPeak, day);
    FillNoBudget(s, RefillOrder(offPeak, day), peak);
  }

  /**
   * When the ONs fit in the non-peak hours, redistribution keeps the ON-count
   * of a binary vector.
   */
  lemma RedistributedKeepsCount(s: seq<int>, peak: seq<int>, offPeak: seq<int>, day: seq<int>)
    requires |s| == HoursPerDay && IsBinary(s)
    requires ValidHours(peak) && ValidHours(offPeak) && ValidHours(day)
    requires Sum(s) <= CountOutside(peak, HoursPerDay)
    ensures Sum(Redistributed(s, peak, offPeak, day)) == Sum(s)
  {
    var c := ClearPeak(s, peak);
    var removed := RemovedCount(s, peak);
    var hs := RefillOrder(offPeak, day);
    RefillOrderValid(offPeak, day);
    ClearEffect(s, peak, |peak|);
    ClearAll(s, peak, |peak|);
    FillEffect(c.s, hs, peak, removed);
    FillSaturates(c.s, hs, peak, removed);
    var f := Fill(c.s, hs, peak, removed);
    RedistributedEffect(s, peak, offPeak, day);
    if f.left > 0 {
      forall i | 0 <= i < HoursPerDay && i !in peak
        ensures f.s[i] == 1
      {
        assert i in hs;
      }
      SumCoversOutside(f.s, peak);
      assert false;
    }
  }

  /**
   * Off-peak hours are refilled first: if redistribution switched on a
   * non-off-peak hour, every non-peak off-peak hour is ON afterwards.
   */
  lemma RedistributedPrefersOffPeak(s: seq<int>, peak: seq<int>, offPeak: seq<int>, day: seq<int>, j: int)
    requires |s| == HoursPerDay && ValidHours(peak) && ValidHours(offPeak) && ValidHours(day)
    requires 0 <= j < HoursPerDay && j !in offPeak && j !in peak
    requires s[j] == 0 && Redistributed(s, peak, offPeak, day)[j] == 1
    ensures forall h :: h in offPeak && h !in peak ==> Redistributed(s, peak, offPeak, day)[h] != 0
  {
    var c := ClearPeak(s, peak);
    ClearEffect(s, peak, |peak|);
    RefillOrderValid(offPeak, day);
    assert offPeak + day + AllHours() == offPeak + (day + AllHours());
    FillPrefersEarlier(c.s, offPeak, day + AllHours(), peak, RemovedCount(s, peak), j);
  }

  /**
   * Day hours are refilled before the rest of the day: if redistribution
   * switched on an hour in neither list, every non-peak off-peak and day hour
   * is ON afterwards.
   */
  lemma RedistributedPrefersDay(s: seq<int>, peak: seq<int>, offPeak: seq<int>, day: seq<int>, j: int)
    requires |s| == HoursPerDay && ValidHours(peak) && ValidHours(offPeak) && ValidHours(day)
    requires 0 <= j < HoursPerDay && j !in offPeak && j !in day && j !in peak
    requires s[j] == 0 && Redistributed(s, peak, offPeak, day)[j] == 1
    ensures forall h :: (h in offPeak || h in day) && h !in peak ==> Redistributed(s, peak, offPeak, day)[h] != 0
  {
    var c := ClearPeak(s, peak);
    ClearEffect(s, peak, |peak|);
    RefillOrderValid(offPeak, day);
    FillPrefersEarlier(c.s, offPeak + day, AllHours(), peak, RemovedCount(s, peak), j);
  }

  /**
   * Clearing the peak switches off exactly the ON peak hours, whatever the
   * order or repetition of the peak list, and the removed count is the
   * drop in the ON-count.
   */
  lemma ClearPeakDrops(s: seq<int>, peak: seq<int>)
    requires |s| == HoursPerDay && ValidHours(peak)
    ensures var c := ClearPeak(s, peak).s;
      && (forall i :: 0 <= i < HoursPerDay ==> c[i] == if i in peak && s[i] == 1 then 0 else s[i])
      && RemovedCount(s, peak) == Sum(s) - Sum(c)
  {
    ClearEffect(s, peak, |peak|);
    ClearAll(s, peak, |peak|);
  }

  /** Two peak lists with the same hours clear the same slots. */
  lemma ClearPeakSameHours(s: seq<int>, p1: seq<int>, p2: seq<int>)
    requires |s| == HoursPerDay && ValidHours(p1) && ValidHours(p2)
    requires forall h :: h in p1 <==> h in p2
    ensures ClearPeak(s, p1).s == ClearPeak(s, p2).s
    ensures RemovedCount(s, p1) == RemovedCount(s, p2)
  {
    ClearPeakDrops(s, p1);
    ClearPeakDrops(s, p2);
  }

  /**
   * Redistribution only depends on which hours are peak hours, not on the
   * order in which the peak list names them.
   */
  lemma RedistributedSamePeak(s: seq<int>, p1: seq<int>, p2: seq<int>, offPeak: seq<int>, day: seq<int>)
    requires |s| == HoursPerDay && ValidHours(p1) && ValidHours(p2) && ValidHours(offPeak) && ValidHours(day)
    requires forall h :: h in p1 <==> h in p2
    ensures Redistributed(s, p1, offPeak, day) == Fill(ClearPeak(s, p1).s, offPeak + day + AllHours(), p2, RemovedCount(s, p1)).s
    ensures Redistributed(s, p1, offPeak, day) == Redistributed(s, p2, offPeak, day)
  {
    ClearPeakSameHours(s, p1, p2);
    RefillOrderValid(offPeak, day);
    FillSameBlocked(ClearPeak(s, p1).s, offPeak + day + AllHours(), p1, p2, RemovedCount(s, p1));
  }

  /** A fill only consults membership in its blocked list. */
  lemma {:induction false} FillSameBlocked(s: seq<int>, hs: seq<int>, b1: seq<int>, b2: seq<int>, budget: nat)
    requires InBounds(hs, |s|)
    requires forall h :: h in b1 <==> h in b2
    ensures Fill(s, hs, b1, budget) == Fill(s, hs, b2, budget)
    decreases |hs|
  {
    if hs != [] {
      var h := hs[0];
      if budget > 0 && h !in b1 && s[h] == 0 {
        FillSameBlocked(s[h := 1], hs[1..], b1, b2, budget - 1);
      } else {
        FillSameBlocked(s, hs[1..], b1, b2, budget);
      }
    }
  }

  /** A fill over three consecutive lists is three fills, each spending what the last one left. */
  lemma FillThree(s: seq<int>, x: seq<int>, y: seq<int>, z: seq<int>, blocked: seq<int>, budget: nat)
    requires InBounds(x, |s|) && InBounds(y, |s|) && InBounds(z, |s|)
    ensures InBounds(x + y + z, |s|)
    ensures var f1 := Fill(s, x, blocked, budget);
      var f2 := Fill(f1.s, y, blocked, f1.left);
      Fill(s, x + y + z, blocked, budget) == Fill(f2.s, z, blocked, f2.left)
  {
    assert forall h :: h in x + y + z ==> h in x || h in y || h in z;
    FillAppend(s, x + y, z, blocked, budget);
    FillAppend(s, x, y, blocked, budget);
  }

  /** A clear over three consecutive lists is three clears, each spending what the last one left. */
  lemma ClearThree(s: seq<int>, x: seq<int>, y: seq<int>, z: seq<int>, budget: nat)
    requires InBounds(x, |s|) && InBounds(y, |s|) && InBounds(z, |s|)
    ensures InBounds(x + y + z, |s|)
    ensures var c1 := Clear(s, x, budget);
      var c2 := Clear(c1.s, y, c1.left);
      Clear(s, x + y + z, budget) == Clear(c2.s, z, c2.left)
  {
    assert forall h :: h in x + y + z ==> h in x || h in y || h in z;
    ClearAppend(s, x + y, z, budget);
    ClearAppend(s, x, y, budget);
  }

  // ---------------------------------------------------------------------
  // The loops shared by the agents

  /**
   * The peak-clearing loop of `redistribute_peak_violations`, the same in
   * all three agents: every ON peak hour is switched OFF and counted.
   */
  method ClearPeakOns(a: array<int>, peak: seq<int>) returns (removed: int)
    requires a.Length == HoursPerDay && ValidHours(peak)
    modifies a
    ensures a[..] == ClearPeak(old(a[..]), peak).s
    ensures removed == RemovedCount(old(a[..]), peak)
  {
    ghost var s := a[..];
    removed := 0;
    for k := 0 to |peak|
      invariant 0 <= removed <= k
      invariant Clear(a[..], peak[k..], |peak| - removed) == ClearPeak(s, peak)
    {
      var h := peak[k];
      assert peak[k..][1..] == peak[k + 1..];
      if a[h] == 1 {
        removed := removed + 1;
        a[h] := 0;
      }
    }
  }

  /**
   * One `for h in hour_list` refill loop of `redistribute_peak_violations`
   * in the updated agent: peak hours are skipped, and
   * an OFF hour is switched ON while `filled < total_on`.
   */
  method RefillHours(a: array<int>, hs: seq<int>, peak: seq<int>, filled: int, total: int) returns (filledAfter: int)
    requires a.Length == HoursPerDay && ValidHours(hs) && filled <= total
    modifies a
    ensures var p := Fill(old(a[..]), hs, peak, total - filled);
      a[..] == p.s && filledAfter == total - p.left
  {
    ghost var s := a[..];
    filledAfter := filled;
    for k := 0 to |hs|
      invariant filledAfter <= total
      invariant Fill(a[..], hs[k..], peak, total - filledAfter) == Fill(s, hs, peak, total - filled)
    {
      var h := hs[k];
      assert hs[k..][1..] == hs[k + 1..];
      if h in peak {
        continue;
      }
      if a[h] == 0 && filledAfter < total {
        a[h] := 1;
        filledAfter := filledAfter + 1;
      }
    }
  }

  /**
   * A refill loop whose caller tracks the pass it continues: the loop runs
   * only while ONs are still owed, and leaves `before` unchanged otherwise,
   * which is what the loop itself does when `filled` has reached `total`.
   */
  method RefillWhenShort(a: array<int>, hs: seq<int>, peak: seq<int>, filled: int, total: int, ghost before: Pass)
    returns (filledAfter: int)
    requires a.Length == HoursPerDay && ValidHours(hs)
    requires a[..] == before.s && total - filled == before.left
    modifies a
    ensures var p := Fill(before.s, hs, peak, before.left);
      a[..] == p.s && total - filledAfter == p.left
  {
    if filled < total {
      filledAfter := RefillHours(a, hs, peak, filled, total);
    } else {
      FillNoBudget(a[..], hs, peak);
      filledAfter := filled;
    }
  }

  // ---------------------------------------------------------------------
  // Passes over filtered lists

  /**
   * A fill may drop hours from its list that it would skip anyway: hours
   * that are blocked or already ON stay so while the fill runs.
   */
  lemma {:induction false} FillSkipsSelected(s: seq<int>, hs: seq<int>, xs: seq<int>, blocked: seq<int>, budget: nat)
    requires InBounds(hs, |s|)
    requires forall h :: h in xs && 0 <= h < |s| ==> h in blocked || s[h] != 0
    ensures InBounds(Select(hs, xs, false), |s|)
    ensures Fill(s, Select(hs, xs, false), blocked, budget) == Fill(s, hs, blocked, budget)
    decreases |hs|
  {
    SelectInBounds(hs, xs, false, |s|);
    if hs != [] {
      var h := hs[0];
      var rest := Select(hs[1..], xs, false);
      SelectInBounds(hs[1..], xs, false, |s|);
      if h in xs {
        FillSkipsSelected(s, hs[1..], xs, blocked, budget);
      } else {
        assert Select(hs, xs, false) == [h] + rest;
        assert ([h] + rest)[1..] == rest;
        if budget > 0 && h !in blocked && s[h] == 0 {
          FillSkipsSelected(s[h := 1], hs[1..], xs, blocked, budget - 1);
        } else {
          FillSkipsSelected(s, hs[1..], xs, blocked, budget);
        }
      }
    }
  }

  /** `[h for h in hs if s[h] == 1]`: the listed hours that are ON in `s`, in list order. */
  function OnAt(s: seq<int>, hs: seq<int>): (r: seq<int>)
    requires InBounds(hs, |s|)
    ensures forall h {:trigger h in r} {:trigger h in hs} :: h in r <==> h in hs && s[h] == 1
    ensures InBounds(r, |s|)
    decreases |hs|
  {
    if hs == [] then []
    else
      var rest := OnAt(s, hs[1..]);
      assert forall h :: h in hs <==> h == hs[0] || h in hs[1..];
      if s[hs[0]] == 1 then [hs[0]] + rest else rest
  }

  /** Picking the ON hours commutes with concatenation. */
  lemma {:induction false} OnAtAppend(s: seq<int>, x: seq<int>, y: seq<int>)
    requires InBounds(x, |s|) && InBounds(y, |s|)
    ensures InBounds(x + y, |s|)
    ensures OnAt(s, x + y) == OnAt(s, x) + OnAt(s, y)
    decreases |x|
  {
    assert forall h :: h in x + y ==> h in x || h in y;
    if x == [] {
      assert x + y == y;
    } else {
      assert (x + y)[0] == x[0];
      assert (x + y)[1..] == x[1..] + y;
      OnAtAppend(s, x[1..], y);
    }
  }

  /**
   * A clear may be given only the hours that were ON at the start: the
   * others are OFF (or not 1) and stay so while the clear runs.
   */
  lemma {:induction false} ClearSkipsOff(s: seq<int>, t: seq<int>, hs: seq<int>, budget: nat)
    requires |s| == |t| && InBounds(hs, |s|)
    requires forall h :: h in hs && s[h] != 1 ==> t[h] != 1
    ensures Clear(t, OnAt(s, hs), budget) == Clear(t, hs, budget)
    decreases |hs|
  {
    if hs != [] {
      var h := hs[0];
      var rest := OnAt(s, hs[1..]);
      assert h in hs;
      assert forall x :: x in hs[1..] ==> x in hs;
      if s[h] == 1 {
        assert OnAt(s, hs) == [h] + rest;
        assert ([h] + rest)[1..] == rest;
        if budget > 0 && t[h] == 1 {
          ClearSkipsOff(s, t[h := 0], hs[1..], budget - 1);
        } else {
          ClearSkipsOff(s, t, hs[1..], budget);
        }
      } else {
        ClearSkipsOff(s, t, hs[1..], budget);
      }
    }
  }
}
