/**
 * The scheduling core of `copy_research_agent.py`: an unmasked
 * `fix_length`, a `datetime`-stepping `time_range_to_hours`, the brace
 * matcher `extract_first_dict`, peak redistribution, and an
 * `enforce_required_ons` that rebuilds every schedule from zero.
 */
module CopyResearchAgent {
  import opened Vectors
  import opened Tariff
  import opened Repair

  // ---------------------------------------------------------------------
  // fix_length

  /** `fix_length` of this agent: pad with zeros or truncate to 24, values kept as they are. */
  function FixLengthRaw(xs: seq<int>): (r: seq<int>)
    ensures |r| == HoursPerDay
    ensures forall i :: 0 <= i < |xs| && i < HoursPerDay ==> r[i] == xs[i]
    ensures forall i :: |xs| <= i < HoursPerDay ==> r[i] == 0
  {
    if |xs| < HoursPerDay then xs + Zeros(HoursPerDay - |xs|)
    else xs[..HoursPerDay]
  }

  /** On binary input the unmasked `fix_length` agrees with the masked one of the other agents. */
  lemma FixLengthRawOnBinary(xs: seq<int>)
    requires IsBinary(xs)
    ensures FixLengthRaw(xs) == FixLength(xs)
  {
    var r, m := FixLengthRaw(xs), FixLength(xs);
    forall i | 0 <= i < HoursPerDay
      ensures r[i] == m[i]
    {
      if i < |xs| {
        assert xs[i] == 0 || xs[i] == 1;
      }
    }
  }

  /** A list of 24 values is kept as it is, whatever the values; so `fix_length` is idempotent. */
  lemma FixLengthRawKeeps(xs: seq<int>)
    ensures |xs| == HoursPerDay ==> FixLengthRaw(xs) == xs
    ensures FixLengthRaw(FixLengthRaw(xs)) == FixLengthRaw(xs)
  {
    assert |xs| == HoursPerDay ==> xs[..HoursPerDay] == xs;
    var r := FixLengthRaw(xs);
    assert r[..HoursPerDay] == r;
  }

  /** Padding: [1, 0, 1] becomes [1, 0, 1] followed by 21 zeros. */
  lemma FixLengthPadding(xs: seq<int>)
    requires xs == [1, 0, 1]
    ensures FixLengthRaw(xs)[..3] == xs && FixLengthRaw(xs)[3..] == Zeros(21)
  {
  }

  /** Truncating: thirty ones become twenty-four ones. */
  lemma FixLengthTruncating(xs: seq<int>)
    requires |xs| == 30 && forall i :: 0 <= i < 30 ==> xs[i] == 1
    ensures FixLengthRaw(xs) == seq(HoursPerDay, _ => 1)
  {
  }

  // ---------------------------------------------------------------------
  // time_range_to_hours

  /**
   * `time_range_to_hours` of this agent: start from the parsed start time,
   * record its hour and add one hour at a time, stopping when the hour is
   * the end hour, or (as a safety net) when the clock shows the start time
   * again.  The minutes never change, so that second test only fires after
   * a full day, when the end hour has already stopped the walk.
   */
  method TimeRangeToHours(start: Clock, end: Clock) returns (r: HoursResult)
    ensures r.InvalidTime? <==> !StrptimeValid(start) || !StrptimeValid(end)
    ensures r.Hours? ==> r.hours == WalkedRange(start.hour, end.hour)
  {
    if !StrptimeValid(start) || !StrptimeValid(end) {
      return InvalidTime;
    }
    var s, e := start.hour, end.hour;
    ghost var walk := HourWalk(s, e);
    var hours: seq<int> := [];
    var current := start;
    while true
      invariant |hours| < WalkLength(s, e)
      invariant current == Clock(After(s, |hours|), start.minute)
      invariant hours == walk[..|hours|]
      decreases WalkLength(s, e) - |hours|
    {
      WalkStep(s, e, |hours|);
      hours := hours + [current.hour];
      current := Clock((current.hour + 1) % HoursPerDay, current.minute);
      if current.hour == end.hour {
        break;
      }
      if current.hour == start.hour && current.minute == start.minute {
        break;
      }
    }
    assert hours == walk;
    r := Hours(SortedSet(hours));
  }

  // ---------------------------------------------------------------------
  // extract_first_dict

  /**
   * The height of the stack after scanning the first `n` characters: a '{'
   * pushes, a '}' pops when the stack is not empty and is ignored
   * otherwise.  Only '{' is ever pushed, so the height is the whole state.
   */
  function Depth(t: string, n: nat): nat
    requires n <= |t|
  {
    if n == 0 then 0
    else
      var d := Depth(t, n - 1);
      if t[n - 1] == '{' then d + 1
      else if t[n - 1] == '}' && d > 0 then d - 1
      else d
  }

  /** Position `i` holds a '}' that empties the stack. */
  predicate Closes(t: string, i: int)
  {
    0 <= i < |t| && t[i] == '}' && Depth(t, i) == 1
  }

  /** The first position from `i` on whose '}' empties the stack. */
  function FirstCloseFrom(t: string, i: nat): (r: Option<nat>)
    requires i <= |t|
    ensures r.Some? ==> i <= r.value < |t| && Closes(t, r.value)
    ensures r.Some? ==> forall k :: i <= k < r.value ==> !Closes(t, k)
    ensures r.None? ==> forall k :: i <= k < |t| ==> !Closes(t, k)
    decreases |t| - i
  {
    if i == |t| then None
    else if Closes(t, i) then Some(i)
    else FirstCloseFrom(t, i + 1)
  }

  /**
   * The '{' that opened the block still open after `n` characters: the last
   * position before `n` where the stack was empty.
   */
  function OpenedAt(t: string, n: nat): (j: nat)
    requires n <= |t| && Depth(t, n) > 0
    ensures j < n && t[j] == '{' && Depth(t, j) == 0
    ensures forall k :: j < k <= n ==> Depth(t, k) > 0
    decreases n
  {
    if Depth(t, n - 1) == 0 then n - 1 else OpenedAt(t, n - 1)
  }

  /** What `extract_first_dict` returns: the first top-level `{...}` block, or `None`. */
  function FirstDict(t: string): Option<string>
  {
    match FirstCloseFrom(t, 0)
    case None => None
    case Some(i) => Some(t[OpenedAt(t, i)..i + 1])
  }

  /**
   * `extract_first_dict` on text whose code fences are already stripped:
   * scan with a stack, remember where the outermost '{' was, and return the
   * text up to the '}' that empties the stack.
   */
  method ExtractFirstDict(text: string) returns (r: Option<string>)
    ensures r == FirstDict(text)
  {
    var stack: seq<char> := [];
    var start: Option<nat> := None;
    for i := 0 to |text|
      invariant |stack| == Depth(text, i)
      invariant |stack| > 0 ==> start.Some? && start.value == OpenedAt(text, i)
      invariant FirstCloseFrom(text, i) == FirstCloseFrom(text, 0)
    {
      var c := text[i];
      if c == '{' {
        if stack == [] {
          start := Some(i);
        }
        stack := stack + [c];
      } else if c == '}' {
        if stack != [] {
          stack := stack[..|stack| - 1];
          if stack == [] && start.Some? {
            return Some(text[start.value..i + 1]);
          }
        }
      }
    }
    r := None;
  }

  /** Scanning from an empty stack at `j` is scanning the text from `j` on by itself. */
  lemma {:induction false} DepthFrom(t: string, j: nat, k: nat)
    requires j + k <= |t| && Depth(t, j) == 0
    ensures Depth(t[j..], k) == Depth(t, j + k)
    decreases k
  {
    if k > 0 {
      DepthFrom(t, j, k - 1);
      assert t[j..][k - 1] == t[j + k - 1];
    }
  }

  /** The stack height depends only on the characters scanned. */
  lemma {:induction false} DepthSamePrefix(t: string, u: string, n: nat)
    requires n <= |t| && n <= |u|
    requires forall k :: 0 <= k < n ==> t[k] == u[k]
    ensures Depth(t, n) == Depth(u, n)
    decreases n
  {
    if n > 0 {
      DepthSamePrefix(t, u, n - 1);
    }
  }

  /**
   * The block found starts with '{', ends with '}', keeps a '{' open at
   * every position strictly inside, and closes exactly at its end; so
   * extracting from the block again gives the block itself.
   */
  lemma FirstDictFacts(t: string)
    ensures var r := FirstDict(t);
      r.Some? ==>
        && |r.value| >= 2
        && r.value[0] == '{' && r.value[|r.value| - 1] == '}'
        && (forall k :: 0 < k < |r.value| ==> Depth(r.value, k) > 0)
        && Depth(r.value, |r.value|) == 0
        && FirstDict(r.value) == r
  {
    var f := FirstCloseFrom(t, 0);
    if f.Some? {
      var i := f.value;
      var j := OpenedAt(t, i);
      var u := t[j..i + 1];
      assert FirstDict(t) == Some(u);
      SliceBalanced(t, j, i);
      BalancedBlock(u);
    }
  }

  /** Scanning a slice that starts with an empty stack follows the scan of the whole text. */
  lemma DepthOfSlice(t: string, j: nat, n: nat)
    requires j <= n <= |t| && Depth(t, j) == 0
    ensures forall k :: 0 <= k <= n - j ==> Depth(t[j..n], k) == Depth(t, j + k)
  {
    var u := t[j..n];
    forall k | 0 <= k <= n - j
      ensures Depth(u, k) == Depth(t, j + k)
    {
      DepthSamePrefix(u, t[j..], k);
      DepthFrom(t, j, k);
    }
  }

  /** The text from the '{' that opened a block to the '}' that closes it is balanced on its own. */
  lemma SliceBalanced(t: string, j: nat, i: nat)
    requires j < i < |t| && t[j] == '{' && t[i] == '}' && Depth(t, j) == 0
    requires forall k :: j < k <= i ==> Depth(t, k) > 0
    requires Depth(t, i + 1) == 0
    ensures var u := t[j..i + 1];
      && |u| >= 2 && u[0] == '{' && u[|u| - 1] == '}'
      && (forall k :: 0 < k < |u| ==> Depth(u, k) > 0)
      && Depth(u, |u|) == 0
  {
    var u := t[j..i + 1];
    DepthOfSlice(t, j, i + 1);
    forall k | 0 < k < |u|
      ensures Depth(u, k) > 0
    {
      assert Depth(u, k) == Depth(t, j + k);
    }
    assert Depth(u, |u|) == Depth(t, i + 1);
  }

  /** A block that opens at its first character and closes only at its last is found whole. */
  lemma BalancedBlock(u: string)
    requires |u| >= 2 && u[0] == '{' && u[|u| - 1] == '}'
    requires forall k :: 0 < k < |u| ==> Depth(u, k) > 0
    requires Depth(u, |u|) == 0
    ensures FirstDict(u) == Some(u)
  {
    forall k | 0 <= k < |u| - 1
      ensures !Closes(u, k)
    {
      assert Depth(u, k + 1) > 0;
    }
    assert Closes(u, |u| - 1);
    assert FirstCloseFrom(u, 0) == Some(|u| - 1);
    assert u[0..|u|] == u;
  }

  /** A stretch without braces leaves the stack height as it was. */
  lemma {:induction false} DepthNoBraces(t: string, lo: nat, hi: nat)
    requires lo <= hi <= |t|
    requires forall k :: lo <= k < hi ==> t[k] != '{' && t[k] != '}'
    ensures Depth(t, hi) == Depth(t, lo)
    ensures forall k :: lo <= k < hi ==> !Closes(t, k)
    decreases hi - lo
  {
    if lo < hi {
      DepthNoBraces(t, lo, hi - 1);
    }
  }

  /**
   * A single brace-free block inside brace-free text is found: for example
   * `Some output {"a": 1, "b": 2} more text` gives `{"a": 1, "b": 2}`.
   */
  lemma FirstDictOfBlock(before: string, inner: string, after: string)
    requires forall k :: 0 <= k < |before| ==> before[k] != '{' && before[k] != '}'
    requires forall k :: 0 <= k < |inner| ==> inner[k] != '{' && inner[k] != '}'
    ensures FirstDict(before + "{" + inner + "}" + after) == Some("{" + inner + "}")
  {
    var t := before + "{" + inner + "}" + after;
    var b := |before|;
    var i := b + 1 + |inner|;
    DepthNoBraces(t, 0, b);
    assert Depth(t, b + 1) == 1;
    DepthNoBraces(t, b + 1, i);
    assert !Closes(t, b);
    assert Closes(t, i);
    assert FirstCloseFrom(t, 0) == Some(i);
    assert OpenedAt(t, i) == b;
    assert t[b..i + 1] == "{" + inner + "}";
  }

  // ---------------------------------------------------------------------
  // redistribute_peak_violations

  /** The fills over the first `n` hour lists, each spending what the previous one left. */
  ghost function FillLists(s: seq<int>, ls: seq<seq<int>>, n: nat, blocked: seq<int>, budget: nat): (p: Pass)
    requires |s| == HoursPerDay && n <= |ls|
    requires forall j :: 0 <= j < |ls| ==> ValidHours(ls[j])
    ensures |p.s| == HoursPerDay
  {
    if n == 0 then Pass(s, budget)
    else
      var p := FillLists(s, ls, n - 1, blocked, budget);
      Fill(p.s, ls[n - 1], blocked, p.left)
  }

  /** Once the budget is spent the remaining lists change nothing. */
  lemma {:induction false} FillListsSpent(s: seq<int>, ls: seq<seq<int>>, m: nat, n: nat, blocked: seq<int>, budget: nat)
    requires |s| == HoursPerDay && m <= n <= |ls|
    requires forall j :: 0 <= j < |ls| ==> ValidHours(ls[j])
    requires FillLists(s, ls, m, blocked, budget).left == 0
    ensures FillLists(s, ls, n, blocked, budget) == FillLists(s, ls, m, blocked, budget)
    decreases n
  {
    if m < n {
      FillListsSpent(s, ls, m, n - 1, blocked, budget);
      FillNoBudget(FillLists(s, ls, n - 1, blocked, budget).s, ls[n - 1], blocked);
    }
  }

  /**
   * The inner `for h in hour_list` loop of this agent: one test switches
   * on an OFF hour that is not a peak hour while `filled < total_on`.
   */
  method FillList(a: array<int>, hs: seq<int>, peak: seq<int>, filled: int, total: int) returns (filledAfter: int)
    requires a.Length == HoursPerDay && ValidHours(hs) && filled <= total
    modifies a
    ensures var p := Fill(old(a[..]), hs, peak, total - filled);
      a[..] == p.s && filledAfter == total - p.left
  {
    ghost var s := a[..];
    filledAfter := filled;
    for k := 0 to |hs|
      invariant filledAfter <= total
      invariant Fill(a[..], hs[k..], peak, total - filledAfter) == Fill(s, hs, peak, total - filled)
    {
      var h := hs[k];
      assert hs[k..][1..] == hs[k + 1..];
      if a[h] == 0 && h !in peak && filledAfter < total {
        a[h] := 1;
        filledAfter := filledAfter + 1;
      }
    }
  }

  /**
   * `redistribute_peak_violations` for one appliance: untouched when the
   * appliance may run in peak hours; otherwise clear the ON peak hours and
   * walk off-peak, day and all hours in turn, leaving the walk once the
   * cleared ONs are all back.
   */
  method RedistributePeakViolations(a: array<int>, allow: bool, peak: seq<int>, offPeak: seq<int>, day: seq<int>)
    requires a.Length == HoursPerDay && ValidHours(peak) && ValidHours(offPeak) && ValidHours(day)
    modifies a
    ensures allow ==> a[..] == old(a[..])
    ensures !allow ==> a[..] == Redistributed(old(a[..]), peak, offPeak, day)
  {
    if allow {
      return;
    }
    ghost var s := a[..];
    var removed := ClearPeakOns(a, peak);
    ghost var c := a[..];
    var totalOn := Sum(a[..]) + removed;
    var filled := Sum(a[..]);
    var lists := [offPeak, day, AllHours()];
    ghost var goal := FillLists(c, lists, 3, peak, removed);
    for j := 0 to 3
      invariant var p := FillLists(c, lists, j, peak, removed);
        a[..] == p.s && totalOn - filled == p.left
    {
      filled := FillList(a, lists[j], peak, filled, totalOn);
      if filled >= totalOn {
        FillListsSpent(c, lists, j + 1, 3, peak, removed);
        assert a[..] == goal.s;
        break;
      }
    }
    assert a[..] == goal.s;
    ghost var f1 := FillLists(c, lists, 1, peak, removed);
    ghost var f2 := FillLists(c, lists, 2, peak, removed);
    assert f1 == Fill(c, offPeak, peak, removed);
    assert f2 == Fill(f1.s, day, peak, f1.left);
    assert goal == Fill(f2.s, AllHours(), peak, f2.left);
    FillThree(c, offPeak, day, AllHours(), peak, removed);
  }

  // ---------------------------------------------------------------------
  // enforce_required_ons

  /** Python's `xs[:n]`, where a negative `n` drops that many items from the end. */
  function PyPrefix(xs: seq<int>, n: int): (r: seq<int>)
    ensures |r| == if n >= |xs| then |xs| else if n >= 0 then n else if |xs| + n >= 0 then |xs| + n else 0
    ensures r == xs[..|r|]
  {
    if n >= |xs| then xs
    else if n >= 0 then xs[..n]
    else if |xs| + n >= 0 then xs[..|xs| + n]
    else []
  }

  /** `needed - min(needed, len(off_peak_hours))`: what is left for the day hours. */
  function DayShare(needed: int, offCount: int): int
  {
    needed - (if needed <= offCount then needed else offCount)
  }

  /** The hours the rebuilt schedule switches on, in the order they are set. */
  function RebuiltHours(needed: int, offPeak: seq<int>, dayOnly: seq<int>): seq<int>
  {
    var left := DayShare(needed, |offPeak|);
    PyPrefix(offPeak, needed) + (if left > 0 then PyPrefix(dayOnly, left) else [])
  }

  /**
   * `enforce_required_ons` of this agent for one appliance: the schedule it
   * is given is dropped; a fresh all-OFF schedule gets the first `needed`
   * off-peak hours, then the first day-only hours for the remainder.
   */
  method EnforceRequiredOns(needed: int, peak: seq<int>, offPeak: seq<int>, day: seq<int>) returns (arr: seq<int>)
    requires ValidHours(offPeak) && ValidHours(day)
    ensures arr == Indicator(RebuiltHours(needed, offPeak, DayOnly(day, peak, offPeak)))
  {
    var dayHours := DayOnly(day, peak, offPeak);
    var a := new int[HoursPerDay](_ => 0);
    var first := PyPrefix(offPeak, needed);
    SetHours(a, first, []);
    var left := needed - (if needed <= |offPeak| then needed else |offPeak|);
    if left > 0 {
      SetHours(a, PyPrefix(dayHours, left), first);
    } else {
      assert first + [] == first;
    }
    arr := a[..];
  }

  /** `for h in hs: arr[h] = 1`, on top of the hours `done` already set. */
  method SetHours(a: array<int>, hs: seq<int>, ghost done: seq<int>)
    requires a.Length == HoursPerDay && ValidHours(hs) && a[..] == Indicator(done)
    modifies a
    ensures a[..] == Indicator(done + hs)
  {
    for k := 0 to |hs|
      invariant a[..] == Indicator(done + hs[..k])
    {
      IndicatorSnoc(done + hs[..k], hs[k]);
      assert done + hs[..k + 1] == (done + hs[..k]) + [hs[k]];
      a[hs[k]] := 1;
    }
    assert hs[..|hs|] == hs;
  }

  /** A prefix keeps the hours valid and distinct, and holds only hours of the whole list. */
  lemma PrefixFacts(xs: seq<int>, n: int)
    requires ValidHours(xs) && Distinct(xs)
    ensures var p := PyPrefix(xs, n);
      ValidHours(p) && Distinct(p) && forall h :: h in p ==> h in xs
  {
    var p := PyPrefix(xs, n);
    assert forall i :: 0 <= i < |p| ==> p[i] == xs[i];
  }

  /** Two distinct lists with no hour in common append to a distinct list. */
  lemma DistinctAppend(x: seq<int>, y: seq<int>)
    requires Distinct(x) && Distinct(y)
    requires forall h :: h in x ==> h !in y
    ensures Distinct(x + y)
  {
    var z := x + y;
    forall i, j | 0 <= i < j < |z|
      ensures z[i] != z[j]
    {
      if i < |x| && |x| <= j {
        assert z[i] in x && z[j] in y;
      }
    }
  }

  /** The hours switched on are distinct when the off-peak and day hours are. */
  lemma RebuiltHoursDistinct(needed: int, peak: seq<int>, offPeak: seq<int>, day: seq<int>)
    requires ValidHours(offPeak) && ValidHours(day) && Distinct(offPeak) && Distinct(day)
    ensures var hs := RebuiltHours(needed, offPeak, DayOnly(day, peak, offPeak));
      ValidHours(hs) && Distinct(hs)
  {
    var dayOnly := DayOnly(day, peak, offPeak);
    DayOnlyDistinct(day, peak, offPeak);
    var x := PyPrefix(offPeak, needed);
    var left := DayShare(needed, |offPeak|);
    var y := if left > 0 then PyPrefix(dayOnly, left) else [];
    PrefixFacts(offPeak, needed);
    PrefixFacts(dayOnly, left);
    DistinctAppend(x, y);
  }

  /**
   * The rebuilt schedule is 24 binary values with exactly as many ONs as
   * hours switched on: `needed` of them when that is between 0 and the
   * number of off-peak plus day-only hours, and none in a peak hour when the
   * off-peak hours are not peak hours.
   */
  lemma RebuiltFacts(needed: int, peak: seq<int>, offPeak: seq<int>, day: seq<int>)
    requires ValidHours(offPeak) && ValidHours(day) && Distinct(offPeak) && Distinct(day)
    ensures var dayOnly := DayOnly(day, peak, offPeak);
      var r := Indicator(RebuiltHours(needed, offPeak, dayOnly));
      && |r| == HoursPerDay && IsBinary(r)
      && Sum(r) == |RebuiltHours(needed, offPeak, dayOnly)|
      && (0 <= needed <= |offPeak| + |dayOnly| ==> Sum(r) == needed)
      && ((forall h :: h in offPeak ==> h !in peak) ==> forall h :: 0 <= h < HoursPerDay && h in peak ==> r[h] == 0)
  {
    var dayOnly := DayOnly(day, peak, offPeak);
    var hs := RebuiltHours(needed, offPeak, dayOnly);
    RebuiltHoursDistinct(needed, peak, offPeak, day);
    IndicatorSum(hs);
    var x := PyPrefix(offPeak, needed);
    var left := DayShare(needed, |offPeak|);
    var y := if left > 0 then PyPrefix(dayOnly, left) else [];
    assert hs == x + y;
    assert forall i :: 0 <= i < |x| ==> x[i] in offPeak;
    assert forall i :: 0 <= i < |y| ==> y[i] in dayOnly;
  }

  /**
   * A negative required count takes Python's slice semantics: the first
   * `len(off_peak_hours) + needed` off-peak hours are switched on, and no
   * day hour.
   */
  lemma RebuiltNegative(needed: int, peak: seq<int>, offPeak: seq<int>, day: seq<int>)
    requires ValidHours(offPeak) && ValidHours(day) && Distinct(offPeak) && Distinct(day)
    requires needed < 0
    ensures RebuiltHours(needed, offPeak, DayOnly(day, peak, offPeak))
      == (if |offPeak| + needed >= 0 then offPeak[..|offPeak| + needed] else [])
  {
  }

  /**
   * The unit test's setting: with four off-peak hours and two ONs required,
   * the rebuilt schedule is binary with two ONs.
   */
  lemma RebuiltExample(peak: seq<int>, offPeak: seq<int>, day: seq<int>)
    requires peak == [18, 19, 20] && offPeak == [0, 1, 2, 3]
    requires day == [4, 5, 6, 7, 8, 9, 10, 11, 12, 13, 14, 15, 16, 17, 21, 22, 23]
    ensures var r := Indicator(RebuiltHours(2, offPeak, DayOnly(day, peak, offPeak)));
      Sum(r) == 2 && IsBinary(r)
  {
    assert Distinct(offPeak);
    assert Distinct(day);
    RebuiltFacts(2, peak, offPeak, day);
  }
}
