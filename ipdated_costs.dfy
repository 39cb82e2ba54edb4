/**
 * Costs and explanations of `ipdated_agent.py`: the price of a schedule,
 * the pairing of moved ONs, and the reasons and savings reported for one
 * appliance.
 */
module IpdatedCosts {
  import opened Vectors
  import opened Tariff

  // ---------------------------------------------------------------------
  // Costs

  /** `sum(states[h] * power * price_map[h]["price"] for h in range(n))`. */
  function CostUpTo(states: seq<int>, power: real, pm: map<int, PriceEntry>, n: nat): real
    requires n <= |states| && n <= HoursPerDay && CoversDay(pm)
  {
    if n == 0 then 0.0
    else CostUpTo(states, power, pm, n - 1) + (states[n - 1] as real) * power * pm[n - 1].price
  }

  /** `cost_for_states`: the price of running a schedule for a day. */
  function Cost(states: seq<int>, power: real, pm: map<int, PriceEntry>): real
    requires |states| == HoursPerDay && CoversDay(pm)
  {
    CostUpTo(states, power, pm, HoursPerDay)
  }

  lemma {:induction false} CostUpToZeros(states: seq<int>, power: real, pm: map<int, PriceEntry>, n: nat)
    requires n <= |states| && n <= HoursPerDay && CoversDay(pm)
    requires forall i :: 0 <= i < n ==> states[i] == 0
    ensures CostUpTo(states, power, pm, n) == 0.0
  {
    if n > 0 {
      CostUpToZeros(states, power, pm, n - 1);
    }
  }

  /** An all-OFF schedule costs nothing. */
  lemma CostOfAllOff(power: real, pm: map<int, PriceEntry>)
    requires CoversDay(pm)
    ensures Cost(Zeros(HoursPerDay), power, pm) == 0.0
  {
    CostUpToZeros(Zeros(HoursPerDay), power, pm, HoursPerDay);
  }

  lemma {:induction false} CostUpToUpdate(states: seq<int>, power: real, pm: map<int, PriceEntry>, n: nat, h: int, v: int)
    requires n <= |states| && n <= HoursPerDay && CoversDay(pm)
    requires 0 <= h < |states|
    ensures CostUpTo(states[h := v], power, pm, n) ==
      CostUpTo(states, power, pm, n) + (if h < n then ((v - states[h]) as real) * power * pm[h].price else 0.0)
  {
    if n > 0 {
      CostUpToUpdate(states, power, pm, n - 1, h, v);
    }
  }

  /**
   * Changing one hour changes the cost by that hour's price times the power
   * times the change; in particular moving an ON from one hour to another
   * saves the price difference times the power.
   */
  lemma CostUpdate(states: seq<int>, power: real, pm: map<int, PriceEntry>, h: int, v: int)
    requires |states| == HoursPerDay && CoversDay(pm) && 0 <= h < HoursPerDay
    ensures Cost(states[h := v], power, pm) ==
      Cost(states, power, pm) + ((v - states[h]) as real) * power * pm[h].price
  {
    CostUpToUpdate(states, power, pm, HoursPerDay, h, v);
  }

  lemma {:induction false} CostUpToNonNegative(states: seq<int>, power: real, pm: map<int, PriceEntry>, n: nat)
    requires n <= |states| && n <= HoursPerDay && CoversDay(pm)
    requires IsBinary(states) && power >= 0.0
    requires forall h :: 0 <= h < HoursPerDay ==> pm[h].price >= 0.0
    ensures CostUpTo(states, power, pm, n) >= 0.0
  {
    if n > 0 {
      CostUpToNonNegative(states, power, pm, n - 1);
      assert states[n - 1] == 0 || states[n - 1] == 1;
      assert power * pm[n - 1].price >= 0.0;
    }
  }

  /** With non-negative power and prices, a schedule never has negative cost. */
  lemma CostNonNegative(states: seq<int>, power: real, pm: map<int, PriceEntry>)
    requires |states| == HoursPerDay && CoversDay(pm)
    requires IsBinary(states) && power >= 0.0
    requires forall h :: 0 <= h < HoursPerDay ==> pm[h].price >= 0.0
    ensures Cost(states, power, pm) >= 0.0
  {
    CostUpToNonNegative(states, power, pm, HoursPerDay);
  }

  // ---------------------------------------------------------------------
  // Pairing moved ONs

  /** `[h for h in range(lo, 24) if orig[h] == x and opt[h] == y]`. */
  function HoursWhereFrom(orig: seq<int>, opt: seq<int>, x: int, y: int, lo: nat): (r: seq<int>)
    requires |orig| == HoursPerDay && |opt| == HoursPerDay && lo <= HoursPerDay
    ensures forall k :: 0 <= k < |r| ==> lo <= r[k] < HoursPerDay
    ensures forall h {:trigger h in r} :: h in r <==> lo <= h < HoursPerDay && orig[h] == x && opt[h] == y
    decreases |orig| - lo
  {
    if lo == HoursPerDay then []
    else
      var rest := HoursWhereFrom(orig, opt, x, y, lo + 1);
      if orig[lo] == x && opt[lo] == y then [lo] + rest else rest
  }

  /** The comprehension lists its hours in increasing order. */
  lemma {:induction false} HoursWhereAscending(orig: seq<int>, opt: seq<int>, x: int, y: int, lo: nat)
    requires |orig| == HoursPerDay && |opt| == HoursPerDay && lo <= HoursPerDay
    ensures StrictlyAscending(HoursWhereFrom(orig, opt, x, y, lo))
    decreases HoursPerDay - lo
  {
    if lo < HoursPerDay {
      var rest := HoursWhereFrom(orig, opt, x, y, lo + 1);
      HoursWhereAscending(orig, opt, x, y, lo + 1);
      if orig[lo] == x && opt[lo] == y {
        var r := [lo] + rest;
        forall i, j | 0 <= i < j < |r|
          ensures r[i] < r[j]
        {
          if i > 0 {
            assert r[i] == rest[i - 1] && r[j] == rest[j - 1];
          } else {
            assert r[j] == rest[j - 1];
          }
        }
      }
    }
  }

  /** The hours that were ON in `orig` and are OFF in `opt`. */
  function Removed(orig: seq<int>, opt: seq<int>): (r: seq<int>)
    requires |orig| == HoursPerDay && |opt| == HoursPerDay
    ensures ValidHours(r)
    ensures forall h {:trigger h in r} :: h in r <==> 0 <= h < HoursPerDay && orig[h] == 1 && opt[h] == 0
  {
    HoursWhereFrom(orig, opt, 1, 0, 0)
  }

  /** The hours that were OFF in `orig` and are ON in `opt`. */
  function Added(orig: seq<int>, opt: seq<int>): (r: seq<int>)
    requires |orig| == HoursPerDay && |opt| == HoursPerDay
    ensures ValidHours(r)
    ensures forall h {:trigger h in r} :: h in r <==> 0 <= h < HoursPerDay && orig[h] == 0 && opt[h] == 1
  {
    HoursWhereFrom(orig, opt, 0, 1, 0)
  }

  function Min(a: int, b: int): int
  {
    if a <= b then a else b
  }

  /** The pairs of `compare_and_pair_moves`: the i-th removed hour with the i-th added hour. */
  function PairMoves(orig: seq<int>, opt: seq<int>): (pairs: seq<(int, int)>)
    requires |orig| == HoursPerDay && |opt| == HoursPerDay
  {
    var removed := Removed(orig, opt);
    var added := Added(orig, opt);
    seq(Min(|removed|, |added|), i requires 0 <= i < Min(|removed|, |added|) => (removed[i], added[i]))
  }

  /** `compare_and_pair_moves`: the loop that zips the removed hours with the added hours. */
  method ComparePairMoves(orig: seq<int>, opt: seq<int>) returns (pairs: seq<(int, int)>)
    requires |orig| == HoursPerDay && |opt| == HoursPerDay
    ensures pairs == PairMoves(orig, opt)
  {
    var removed := Removed(orig, opt);
    var added := Added(orig, opt);
    pairs := [];
    for i := 0 to Min(|removed|, |added|)
      invariant |pairs| == i
      invariant forall k :: 0 <= k < i ==> pairs[k] == (removed[k], added[k])
    {
      pairs := pairs + [(removed[i], added[i])];
    }
  }

  /**
   * The pairs are as many as the smaller of the removed and added hour
   * lists; each pair moves an ON from a removed hour to an added hour, both
   * components ascend, and identical schedules give no pairs.
   */
  lemma PairMovesFacts(orig: seq<int>, opt: seq<int>)
    requires |orig| == HoursPerDay && |opt| == HoursPerDay
    ensures var pairs := PairMoves(orig, opt);
      && |pairs| == Min(|Removed(orig, opt)|, |Added(orig, opt)|)
      && (forall i :: 0 <= i < |pairs| ==>
            && 0 <= pairs[i].0 < HoursPerDay && orig[pairs[i].0] == 1 && opt[pairs[i].0] == 0
            && 0 <= pairs[i].1 < HoursPerDay && orig[pairs[i].1] == 0 && opt[pairs[i].1] == 1)
      && (forall i, j :: 0 <= i < j < |pairs| ==> pairs[i].0 < pairs[j].0 && pairs[i].1 < pairs[j].1)
      && (orig == opt ==> pairs == [])
  {
    var pairs := PairMoves(orig, opt);
    var removed := Removed(orig, opt);
    var added := Added(orig, opt);
    HoursWhereAscending(orig, opt, 1, 0, 0);
    HoursWhereAscending(orig, opt, 0, 1, 0);
    forall i | 0 <= i < |pairs|
      ensures 0 <= pairs[i].0 < HoursPerDay && orig[pairs[i].0] == 1 && opt[pairs[i].0] == 0
      ensures 0 <= pairs[i].1 < HoursPerDay && orig[pairs[i].1] == 0 && opt[pairs[i].1] == 1
    {
      assert removed[i] in removed && added[i] in added;
    }
    if orig == opt {
      NothingRemovedFrom(orig, 0);
    }
  }

  /** An unchanged schedule has no removed hours. */
  lemma {:induction false} NothingRemovedFrom(s: seq<int>, lo: nat)
    requires |s| == HoursPerDay && lo <= HoursPerDay
    ensures HoursWhereFrom(s, s, 1, 0, lo) == []
    decreases HoursPerDay - lo
  {
    if lo < HoursPerDay {
      NothingRemovedFrom(s, lo + 1);
    }
  }

  // ---------------------------------------------------------------------
  // Explanations

  /** The kinds of line `explain_changes` writes. */
  datatype Reason =
    | NoChanges
    | ShiftedOutOfPeak(from: int, to: int)
    | MovedToCheaperBand(from: int, to: int)
    | ConstraintMove(from: int, to: int)
    | PeakRetained(hours: seq<int>)
    | OriginalOn(hours: seq<int>)
    | OptimizedOn(hours: seq<int>)
    | EstimatedSavings(amount: real)

  /** `max(0.0, x)`. */
  function Max0(x: real): (r: real)
    ensures r >= 0.0 && r >= x
  {
    if x > 0.0 then x else 0.0
  }

  /** Why one ON moved from `fr` to `to`. */
  function PairReason(fr: int, to: int, pm: map<int, PriceEntry>): (r: Reason)
    requires CoversDay(pm) && 0 <= fr < HoursPerDay && 0 <= to < HoursPerDay
    ensures r == ShiftedOutOfPeak(fr, to) || r == MovedToCheaperBand(fr, to) || r == ConstraintMove(fr, to)
    ensures r.ShiftedOutOfPeak? <==> pm[fr].band == Peak && pm[to].band != Peak
    ensures r.MovedToCheaperBand? ==> pm[fr].price > pm[to].price
    ensures r.ConstraintMove? ==> pm[fr].price <= pm[to].price
  {
    if pm[fr].band == Peak && pm[to].band != Peak then ShiftedOutOfPeak(fr, to)
    else if pm[fr].price > pm[to].price then MovedToCheaperBand(fr, to)
    else ConstraintMove(fr, to)
  }

  /** Both hours of every pair index the price map. */
  predicate PairsInDay(pairs: seq<(int, int)>)
  {
    forall i :: 0 <= i < |pairs| ==> 0 <= pairs[i].0 < HoursPerDay && 0 <= pairs[i].1 < HoursPerDay
  }

  /** The saving credited for one moved ON: the price drop times the power, or nothing. */
  function PairSaving(fr: int, to: int, pm: map<int, PriceEntry>, power: real): real
    requires CoversDay(pm) && 0 <= fr < HoursPerDay && 0 <= to < HoursPerDay
  {
    Max0((pm[fr].price - pm[to].price) * power)
  }

  /** The saving credited over a list of moves. */
  function SavedTotal(pairs: seq<(int, int)>, pm: map<int, PriceEntry>, power: real): (t: real)
    requires CoversDay(pm) && PairsInDay(pairs)
  {
    if pairs == [] then 0.0
    else
      var last := pairs[|pairs| - 1];
      SavedTotal(pairs[..|pairs| - 1], pm, power) + PairSaving(last.0, last.1, pm, power)
  }

  /** A sum of clipped savings is never negative. */
  lemma {:induction false} SavedTotalNonNegative(pairs: seq<(int, int)>, pm: map<int, PriceEntry>, power: real)
    requires CoversDay(pm) && PairsInDay(pairs)
    ensures SavedTotal(pairs, pm, power) >= 0.0
  {
    if pairs != [] {
      SavedTotalNonNegative(pairs[..|pairs| - 1], pm, power);
    }
  }

  /** Extending the list of moves by one adds that move's clipped saving. */
  lemma SavedTotalStep(pairs: seq<(int, int)>, i: nat, pm: map<int, PriceEntry>, power: real)
    requires CoversDay(pm) && PairsInDay(pairs) && i < |pairs|
    ensures SavedTotal(pairs[..i + 1], pm, power)
      == SavedTotal(pairs[..i], pm, power) + PairSaving(pairs[i].0, pairs[i].1, pm, power)
  {
    assert pairs[..i + 1][..i] == pairs[..i];
  }

  /** The reason lines for a list of moves. */
  function PairReasons(pairs: seq<(int, int)>, pm: map<int, PriceEntry>): (r: seq<Reason>)
    requires CoversDay(pm) && PairsInDay(pairs)
    ensures |r| == |pairs|
    ensures forall i :: 0 <= i < |r| ==> r[i] == PairReason(pairs[i].0, pairs[i].1, pm)
  {
    seq(|pairs|, i requires 0 <= i < |pairs| => PairReason(pairs[i].0, pairs[i].1, pm))
  }

  /** `[h for h in range(lo, 24) if opt[h] == 1 and price_map[h]["band"] == "peak"]`. */
  function PeakOnFrom(opt: seq<int>, pm: map<int, PriceEntry>, lo: nat): (r: seq<int>)
    requires |opt| == HoursPerDay && CoversDay(pm) && lo <= HoursPerDay
    ensures forall h {:trigger h in r} :: h in r <==> lo <= h < HoursPerDay && opt[h] == 1 && pm[h].band == Peak
    decreases |opt| - lo
  {
    if lo == HoursPerDay then []
    else
      var rest := PeakOnFrom(opt, pm, lo + 1);
      if opt[lo] == 1 && pm[lo].band == Peak then [lo] + rest else rest
  }

  /** `[h for h in range(lo, 24) if s[h] == 1]`. */
  function OnHoursFrom(s: seq<int>, lo: nat): (r: seq<int>)
    requires |s| == HoursPerDay && lo <= HoursPerDay
    ensures forall h {:trigger h in r} :: h in r <==> lo <= h < HoursPerDay && s[h] == 1
    decreases |s| - lo
  {
    if lo == HoursPerDay then []
    else
      var rest := OnHoursFrom(s, lo + 1);
      if s[lo] == 1 then [lo] + rest else rest
  }

  /** The list of reasons `explain_changes` returns. */
  function Explanation(orig: seq<int>, opt: seq<int>, pm: map<int, PriceEntry>, power: real): seq<Reason>
    requires |orig| == HoursPerDay && |opt| == HoursPerDay && CoversDay(pm)
    requires PairsInDay(PairMoves(orig, opt))
  {
    ChangeReasons(orig, opt, pm)
    + PeakLine(opt, pm)
    + [OriginalOn(OnHoursFrom(orig, 0)), OptimizedOn(OnHoursFrom(opt, 0))]
    + SavingLine(SavedTotal(PairMoves(orig, opt), pm, power))
  }

  /** Every pair `compare_and_pair_moves` returns names two hours of the day. */
  lemma PairMovesInDay(orig: seq<int>, opt: seq<int>)
    requires |orig| == HoursPerDay && |opt| == HoursPerDay
    ensures PairsInDay(PairMoves(orig, opt))
  {
    var removed := Removed(orig, opt);
    var added := Added(orig, opt);
    forall i | 0 <= i < |PairMoves(orig, opt)|
      ensures 0 <= PairMoves(orig, opt)[i].0 < HoursPerDay && 0 <= PairMoves(orig, opt)[i].1 < HoursPerDay
    {
      assert removed[i] in removed && added[i] in added;
    }
  }

  /** The reasons about the moves themselves: "no changes", or one reason per pair. */
  function ChangeReasons(orig: seq<int>, opt: seq<int>, pm: map<int, PriceEntry>): seq<Reason>
    requires |orig| == HoursPerDay && |opt| == HoursPerDay && CoversDay(pm)
    requires PairsInDay(PairMoves(orig, opt))
  {
    var pairs := PairMoves(orig, opt);
    if pairs == [] && orig == opt then [NoChanges] else PairReasons(pairs, pm)
  }

  /** The peak-retained line, present when some peak hour is still ON. */
  function PeakLine(opt: seq<int>, pm: map<int, PriceEntry>): (r: seq<Reason>)
    requires |opt| == HoursPerDay && CoversDay(pm)
    ensures NoChanges !in r
    ensures forall x :: EstimatedSavings(x) !in r
    ensures PeakRetained(PeakOnFrom(opt, pm, 0)) in r <==>
      exists h :: 0 <= h < HoursPerDay && opt[h] == 1 && pm[h].band == Peak
  {
    var peakOn := PeakOnFrom(opt, pm, 0);
    PeakOnExists(opt, pm);
    if peakOn != [] then [PeakRetained(peakOn)] else []
  }

  lemma PeakOnExists(opt: seq<int>, pm: map<int, PriceEntry>)
    requires |opt| == HoursPerDay && CoversDay(pm)
    ensures PeakOnFrom(opt, pm, 0) != [] <==>
      exists h :: 0 <= h < HoursPerDay && opt[h] == 1 && pm[h].band == Peak
  {
    var peakOn := PeakOnFrom(opt, pm, 0);
    if peakOn != [] {
      var h := peakOn[0];
      assert h in peakOn;
    } else {
      forall h | 0 <= h < HoursPerDay
        ensures !(opt[h] == 1 && pm[h].band == Peak)
      {
        assert h !in peakOn;
      }
    }
  }

  /** The savings line, present when the saving is positive. */
  function SavingLine(saved: real): (r: seq<Reason>)
    ensures EstimatedSavings(saved) in r <==> saved > 0.0
    ensures NoChanges !in r
    ensures forall hs :: PeakRetained(hs) !in r
  {
    if saved > 0.0 then [EstimatedSavings(saved)] else []
  }

  /**
   * What the explanation says: "no changes" exactly when the schedule is
   * unchanged, a peak-retained line exactly when some peak hour stays ON,
   * and a savings line exactly when the clipped saving is positive.
   */
  lemma ExplanationFacts(orig: seq<int>, opt: seq<int>, pm: map<int, PriceEntry>, power: real)
    requires |orig| == HoursPerDay && |opt| == HoursPerDay && CoversDay(pm)
    ensures PairsInDay(PairMoves(orig, opt))
    ensures var r := Explanation(orig, opt, pm, power);
      var saved := SavedTotal(PairMoves(orig, opt), pm, power);
      && (NoChanges in r <==> orig == opt)
      && (PeakRetained(PeakOnFrom(opt, pm, 0)) in r <==>
            exists h :: 0 <= h < HoursPerDay && opt[h] == 1 && pm[h].band == Peak)
      && (EstimatedSavings(saved) in r <==> saved > 0.0)
      && saved >= 0.0
  {
    PairMovesInDay(orig, opt);
    var pairs := PairMoves(orig, opt);
    var saved := SavedTotal(pairs, pm, power);
    SavedTotalNonNegative(pairs, pm, power);
    ChangeReasonsFacts(orig, opt, pm);
    var a := ChangeReasons(orig, opt, pm);
    var b := PeakLine(opt, pm);
    var c := [OriginalOn(OnHoursFrom(orig, 0)), OptimizedOn(OnHoursFrom(opt, 0))];
    var d := SavingLine(saved);
    var r := Explanation(orig, opt, pm, power);
    assert r == a + b + c + d;
    assert forall x :: x in r <==> x in a || x in b || x in c || x in d;
  }

  lemma ChangeReasonsFacts(orig: seq<int>, opt: seq<int>, pm: map<int, PriceEntry>)
    requires |orig| == HoursPerDay && |opt| == HoursPerDay && CoversDay(pm)
    requires PairsInDay(PairMoves(orig, opt))
    ensures NoChanges in ChangeReasons(orig, opt, pm) <==> orig == opt
    ensures forall hs :: PeakRetained(hs) !in ChangeReasons(orig, opt, pm)
    ensures forall x :: EstimatedSavings(x) !in ChangeReasons(orig, opt, pm)
  {
    var pairs := PairMoves(orig, opt);
    if orig == opt {
      NothingRemovedFrom(orig, 0);
    } else {
      var r := PairReasons(pairs, pm);
      forall x | x in r
        ensures x.ShiftedOutOfPeak? || x.MovedToCheaperBand? || x.ConstraintMove?
      {
        var i :| 0 <= i < |r| && r[i] == x;
      }
    }
  }

  /** The branches of the loop body that pick the reason for one moved ON. */
  method ReasonFor(fr: int, to: int, pm: map<int, PriceEntry>) returns (r: Reason)
    requires CoversDay(pm) && 0 <= fr < HoursPerDay && 0 <= to < HoursPerDay
    ensures r == PairReason(fr, to, pm)
  {
    var pf, bf := pm[fr].price, pm[fr].band;
    var pt, bt := pm[to].price, pm[to].band;
    if bf == Peak && bt != Peak {
      r := ShiftedOutOfPeak(fr, to);
    } else if pf > pt {
      r := MovedToCheaperBand(fr, to);
    } else {
      r := ConstraintMove(fr, to);
    }
  }

  /** The `for fr, to in pairs` loop of `explain_changes`. */
  method MoveReasons(pairs: seq<(int, int)>, pm: map<int, PriceEntry>, power: real)
    returns (reasons: seq<Reason>, saved: real)
    requires CoversDay(pm) && PairsInDay(pairs)
    ensures reasons == PairReasons(pairs, pm)
    ensures saved == SavedTotal(pairs, pm, power)
  {
    reasons := [];
    saved := 0.0;
    for i := 0 to |pairs|
      invariant |reasons| == i
      invariant forall k :: 0 <= k < i ==> reasons[k] == PairReason(pairs[k].0, pairs[k].1, pm)
      invariant saved == SavedTotal(pairs[..i], pm, power)
    {
      var fr, to := pairs[i].0, pairs[i].1;
      SavedTotalStep(pairs, i, pm, power);
      saved := saved + PairSaving(fr, to, pm, power);
      var reason := ReasonFor(fr, to, pm);
      reasons := reasons + [reason];
    }
    assert pairs[..|pairs|] == pairs;
  }

  /**
   * The closing lines of `explain_changes`: the peak-retained line, the
   * before/after ON hours and, for a positive saving, the savings line.
   */
  method AppendSummary(reasons: seq<Reason>, orig: seq<int>, opt: seq<int>, pm: map<int, PriceEntry>, saved: real)
    returns (out: seq<Reason>)
    requires |orig| == HoursPerDay && |opt| == HoursPerDay && CoversDay(pm)
    ensures out == reasons + PeakLine(opt, pm)
      + [OriginalOn(OnHoursFrom(orig, 0)), OptimizedOn(OnHoursFrom(opt, 0))]
      + SavingLine(saved)
  {
    out := reasons;
    var peakOn := PeakOnFrom(opt, pm, 0);
    if peakOn != [] {
      out := out + [PeakRetained(peakOn)];
    }
    assert out == reasons + PeakLine(opt, pm);
    out := out + [OriginalOn(OnHoursFrom(orig, 0))];
    out := out + [OptimizedOn(OnHoursFrom(opt, 0))];
    if saved > 0.0 {
      out := out + [EstimatedSavings(saved)];
    }
  }

  /**
   * `explain_changes`: one reason per moved ON (or "no changes"), the
   * peak-retained line, the before/after ON hours and the savings line; the
   * saving is the sum of the clipped per-move savings.
   */
  method ExplainChanges(orig: seq<int>, opt: seq<int>, pm: map<int, PriceEntry>, power: real)
    returns (reasons: seq<Reason>, saved: real)
    requires |orig| == HoursPerDay && |opt| == HoursPerDay && CoversDay(pm)
    ensures PairsInDay(PairMoves(orig, opt))
    ensures reasons == Explanation(orig, opt, pm, power)
    ensures saved == SavedTotal(PairMoves(orig, opt), pm, power)
    ensures saved >= 0.0
  {
    PairMovesInDay(orig, opt);
    var pairs := ComparePairMoves(orig, opt);
    if pairs == [] && orig == opt {
      reasons := [NoChanges];
      saved := 0.0;
    } else {
      reasons, saved := MoveReasons(pairs, pm, power);
    }
    assert reasons == ChangeReasons(orig, opt, pm);
    reasons := AppendSummary(reasons, orig, opt, pm, saved);
    SavedTotalNonNegative(pairs, pm, power);
  }
}
