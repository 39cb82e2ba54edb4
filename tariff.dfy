/**
 * Time-of-use bands: the band/price attached to each hour, and the
 * hour-list semantics of the time ranges that define the bands.
 */
module Tariff {
  import opened Vectors

  datatype Band = Day | Peak | OffPeak

  /** One `price_map` entry: `{"price": p, "band": b}`. */
  datatype PriceEntry = PriceEntry(price: real, band: Band)

  /** A price map that has an entry for every hour of the day. */
  predicate CoversDay(pm: map<int, PriceEntry>)
  {
    forall h :: 0 <= h < HoursPerDay ==> h in pm
  }

  /** An "HH:MM" time as its two numeric fields. */
  datatype Clock = Clock(hour: int, minute: int)

  /** The times `datetime.strptime(t, "%H:%M")` accepts: 00:00 to 23:59. */
  predicate StrptimeValid(t: Clock)
  {
    0 <= t.hour < HoursPerDay && 0 <= t.minute < 60
  }

  /** The outcome of turning a band's time range into hours. */
  datatype HoursResult = Hours(hours: seq<int>) | InvalidTime

  /**
   * The band an hour ends up with when the price map starts from off-peak
   * everywhere and then writes the day hours, the peak hours and the
   * off-peak hours in that order: the last write wins.
   */
  function BandAt(h: int, dayHours: seq<int>, peakHours: seq<int>, offPeakHours: seq<int>): (b: Band)
    ensures b == OffPeak <==> h in offPeakHours || (h !in peakHours && h !in dayHours)
    ensures b == Peak <==> h !in offPeakHours && h in peakHours
  {
    if h in offPeakHours then OffPeak
    else if h in peakHours then Peak
    else if h in dayHours then Day
    else OffPeak
  }

  /** Three band hour lists that are pairwise disjoint. */
  predicate Disjoint3(dayHours: seq<int>, peakHours: seq<int>, offPeakHours: seq<int>)
  {
    && (forall h :: h in dayHours ==> h !in peakHours && h !in offPeakHours)
    && (forall h :: h in peakHours ==> h !in offPeakHours)
  }

  /**
   * For disjoint bands the precedence never matters: an hour listed in a
   * band gets that band.
   */
  lemma BandAtDisjoint(h: int, dayHours: seq<int>, peakHours: seq<int>, offPeakHours: seq<int>)
    requires Disjoint3(dayHours, peakHours, offPeakHours)
    ensures h in dayHours ==> BandAt(h, dayHours, peakHours, offPeakHours) == Day
    ensures h in peakHours ==> BandAt(h, dayHours, peakHours, offPeakHours) == Peak
    ensures h in offPeakHours ==> BandAt(h, dayHours, peakHours, offPeakHours) == OffPeak
  {
  }

  // ---------------------------------------------------------------------
  // sorted(set(hours))

  /** Python's `sorted(set(xs))` for a list of hours. */
  function SortedSet(xs: seq<int>): (r: seq<int>)
    requires ValidHours(xs)
    ensures ValidHours(r)
    ensures forall h {:trigger h in r} :: h in r <==> h in xs
  {
    assert forall h :: h in xs ==> 0 <= h < HoursPerDay;
    DayHours(xs, true)
  }

  /** `sorted(set(xs))` is sorted, without repeats. */
  lemma SortedSetAscending(xs: seq<int>)
    requires ValidHours(xs)
    ensures StrictlyAscending(SortedSet(xs))
  {
    DayHoursAscending(xs, true);
  }

  /**
   * In an ascending list the head is the least element, and the tail holds
   * every element but the head.
   */
  lemma AscendingHead(a: seq<int>, x: int)
    requires StrictlyAscending(a) && a != []
    ensures x in a ==> a[0] <= x
    ensures x in a[1..] <==> x in a && x != a[0]
  {
    if x in a {
      var i :| 0 <= i < |a| && a[i] == x;
      if i > 0 {
        assert a[0] < a[i];
        assert a[1..][i - 1] == x;
      }
    }
    if x in a[1..] {
      var i :| 0 <= i < |a| - 1 && a[1..][i] == x;
      assert a[0] < a[i + 1];
    }
  }

  /** The tail of an ascending list is ascending. */
  lemma AscendingTail(a: seq<int>)
    requires StrictlyAscending(a) && a != []
    ensures StrictlyAscending(a[1..])
  {
    forall i, j | 0 <= i < j < |a| - 1
      ensures a[1..][i] < a[1..][j]
    {
      assert a[1..][i] == a[i + 1] && a[1..][j] == a[j + 1];
    }
  }

  /** Two ascending lists with the same elements are the same list. */
  lemma {:induction false} AscendingUnique(a: seq<int>, b: seq<int>)
    requires StrictlyAscending(a) && StrictlyAscending(b)
    requires forall x :: x in a <==> x in b
    ensures a == b
    decreases |a|
  {
    SameElementsBothEmpty(a, b);
    if a != [] && b != [] {
      assert a[0] in a && b[0] in b;
      AscendingHead(a, b[0]);
      AscendingHead(b, a[0]);
      forall x
        ensures x in a[1..] <==> x in b[1..]
      {
        AscendingHead(a, x);
        AscendingHead(b, x);
      }
      AscendingTail(a);
      AscendingTail(b);
      AscendingUnique(a[1..], b[1..]);
      assert a == [a[0]] + a[1..] && b == [b[0]] + b[1..];
    }
  }

  lemma SameElementsBothEmpty(a: seq<int>, b: seq<int>)
    requires forall x :: x in a <==> x in b
    ensures a == [] <==> b == []
  {
    if a != [] {
      var x := a[0];
      assert x in a;
    }
    if b != [] {
      var x := b[0];
      assert x in b;
    }
  }

  /** `list(range(lo, hi))`. */
  function Range(lo: int, hi: int): (r: seq<int>)
    requires lo <= hi
    ensures |r| == hi - lo
    ensures forall k :: 0 <= k < |r| ==> r[k] == lo + k
  {
    seq(hi - lo, k => lo + k)
  }

  lemma RangeAscending(lo: int, hi: int)
    requires lo <= hi
    ensures StrictlyAscending(Range(lo, hi))
    ensures forall x :: x in Range(lo, hi) <==> lo <= x < hi
  {
    forall x | lo <= x < hi
      ensures x in Range(lo, hi)
    {
      assert Range(lo, hi)[x - lo] == x;
    }
  }

  // ---------------------------------------------------------------------
  // The hour walk of the strptime-based agents

  /** One hour later on the 24-hour clock: `(h + 1) % 24`. */
  function NextHour(h: int): (r: int)
    requires 0 <= h < HoursPerDay
    ensures 0 <= r < HoursPerDay
    ensures r == (h + 1) % HoursPerDay
  {
    if h == HoursPerDay - 1 then 0 else h + 1
  }

  /** How many hours forward the clock goes from `from` to reach `to`. */
  function Offset(from: int, to: int): (o: int)
    requires 0 <= from < HoursPerDay && 0 <= to < HoursPerDay
    ensures 0 <= o < HoursPerDay
  {
    if to >= from then to - from else to - from + HoursPerDay
  }

  /** The hour `k` hours after `from`, for `k` less than a day. */
  function After(from: int, k: int): (h: int)
    requires 0 <= from < HoursPerDay && 0 <= k < HoursPerDay
    ensures 0 <= h < HoursPerDay
    ensures Offset(from, h) == k
    ensures h == (from + k) % HoursPerDay
  {
    if from + k < HoursPerDay then from + k else from + k - HoursPerDay
  }

  /**
   * Number of hours walked from the start hour (inclusive) until the walk
   * reaches the end hour again; equal hours walk the whole day.
   */
  function WalkLength(startHour: int, endHour: int): (n: int)
    requires 0 <= startHour < HoursPerDay && 0 <= endHour < HoursPerDay
    ensures 1 <= n <= HoursPerDay
  {
    if startHour == endHour then HoursPerDay else Offset(startHour, endHour)
  }

  /** The hours visited: start, start+1, ... (mod 24), stopping before the end hour. */
  function HourWalk(startHour: int, endHour: int): (r: seq<int>)
    requires 0 <= startHour < HoursPerDay && 0 <= endHour < HoursPerDay
    ensures |r| == WalkLength(startHour, endHour)
    ensures ValidHours(r)
    ensures forall k :: 0 <= k < |r| ==> r[k] == After(startHour, k)
  {
    seq(WalkLength(startHour, endHour), k requires 0 <= k < WalkLength(startHour, endHour) => After(startHour, k))
  }

  /** `time_range_to_hours` of the strptime-based agents, on parsed hours. */
  function WalkedRange(startHour: int, endHour: int): (r: seq<int>)
    requires 0 <= startHour < HoursPerDay && 0 <= endHour < HoursPerDay
  {
    SortedSet(HourWalk(startHour, endHour))
  }

  /**
   * One step of the walk: the hour after the `k`-th hour walked is the next
   * hour of the walk while the walk goes on, and is the end hour exactly
   * when the walk is over.
   */
  lemma WalkStep(startHour: int, endHour: int, k: int)
    requires 0 <= startHour < HoursPerDay && 0 <= endHour < HoursPerDay
    requires 0 <= k < WalkLength(startHour, endHour)
    ensures var h := NextHour(After(startHour, k));
      && (k + 1 < WalkLength(startHour, endHour) ==> h == After(startHour, k + 1) && h != endHour)
      && (k + 1 == WalkLength(startHour, endHour) ==> h == endHour)
  {
    var h := NextHour(After(startHour, k));
    if k + 1 < HoursPerDay {
      assert h == After(startHour, k + 1);
      assert Offset(startHour, h) == k + 1;
      if startHour != endHour {
        assert After(startHour, Offset(startHour, endHour)) == endHour;
      }
    }
  }

  /**
   * The walked range is ascending, never empty, starts from the start hour,
   * and holds exactly the hours that lie fewer clock hours after the start
   * than the end hour does; equal hours give the whole day.
   */
  lemma WalkedRangeMembers(startHour: int, endHour: int)
    requires 0 <= startHour < HoursPerDay && 0 <= endHour < HoursPerDay
    ensures var r := WalkedRange(startHour, endHour);
      && StrictlyAscending(r) && ValidHours(r) && r != []
      && startHour in r
      && forall h :: h in r <==>
           0 <= h < HoursPerDay &&
           (startHour == endHour || Offset(startHour, h) < Offset(startHour, endHour))
  {
    var w := HourWalk(startHour, endHour);
    SortedSetAscending(w);
    assert w[0] == startHour;
    assert startHour in WalkedRange(startHour, endHour);
    forall h | 0 <= h < HoursPerDay
      ensures h in w <==> (startHour == endHour || Offset(startHour, h) < Offset(startHour, endHour))
    {
      var k := Offset(startHour, h);
      assert After(startHour, k) == h;
      if startHour == endHour || k < Offset(startHour, endHour) {
        assert w[k] == h;
      }
    }
  }

  /** An ascending list holding exactly the hours of the day is `range(24)`. */
  lemma AscendingWholeDay(r: seq<int>)
    requires StrictlyAscending(r)
    requires forall h :: h in r <==> 0 <= h < HoursPerDay
    ensures r == AllHours()
  {
    var all := AllHours();
    forall h
      ensures h in r <==> h in all
    {
      if 0 <= h < HoursPerDay {
        InAllHours(h);
      }
    }
    AscendingUnique(r, all);
  }

  /** Equal start and end hours give the whole day. */
  lemma WalkedRangeWholeDay(hour: int)
    requires 0 <= hour < HoursPerDay
    ensures WalkedRange(hour, hour) == AllHours()
  {
    WalkedRangeMembers(hour, hour);
    AscendingWholeDay(WalkedRange(hour, hour));
  }

  /** A walk that does not pass midnight gives `range(start, end)`. */
  lemma WalkedRangeForward(startHour: int, endHour: int)
    requires 0 <= startHour < endHour < HoursPerDay
    ensures WalkedRange(startHour, endHour) == Range(startHour, endHour)
  {
    var w := WalkedRange(startHour, endHour);
    var r := Range(startHour, endHour);
    WalkedRangeMembers(startHour, endHour);
    RangeAscending(startHour, endHour);
    forall h
      ensures h in w <==> h in r
    {
      if 0 <= h < HoursPerDay {
        assert Offset(startHour, h) < Offset(startHour, endHour) <==> startHour <= h < endHour;
      }
    }
    AscendingUnique(w, r);
  }

  /** The walk from 05:00 to 08:00 gives hours 5, 6 and 7. */
  lemma WalkedRangeExample(startHour: int, endHour: int)
    requires startHour == 5 && endHour == 8
    ensures WalkedRange(startHour, endHour) == [5, 6, 7]
  {
    WalkedRangeForward(startHour, endHour);
    var r := Range(startHour, endHour);
    assert |r| == 3 && r[0] == 5 && r[1] == 6 && r[2] == 7;
  }

  // ---------------------------------------------------------------------
  // Hour-list filters used by the post-processing passes

  /** `[h for h in range(24) if h not in peak]`: the non-peak hours in index order. */
  function HoursOutside(peak: seq<int>): (r: seq<int>)
    ensures ValidHours(r)
    ensures forall h {:trigger h in r} :: h in r <==> 0 <= h < HoursPerDay && h !in peak
  {
    DayHours(peak, false)
  }

  /** `[h for h in day if h not in peak and h not in offp]`, order kept. */
  function DayOnly(day: seq<int>, peak: seq<int>, offPeak: seq<int>): (r: seq<int>)
    ensures forall h {:trigger h in r} :: h in r <==> h in day && h !in peak && h !in offPeak
    ensures |r| <= |day|
    ensures ValidHours(day) ==> ValidHours(r)
  {
    var r := Select(Select(day, peak, false), offPeak, false);
    assert ValidHours(day) ==> ValidHours(r) by {
      if ValidHours(day) {
        SelectValid(day, peak, false);
        SelectValid(Select(day, peak, false), offPeak, false);
      }
    }
    r
  }

  /** The day-only hours of distinct day hours are distinct. */
  lemma DayOnlyDistinct(day: seq<int>, peak: seq<int>, offPeak: seq<int>)
    requires Distinct(day)
    ensures Distinct(DayOnly(day, peak, offPeak))
  {
    SelectDistinct(day, peak, false);
    SelectDistinct(Select(day, peak, false), offPeak, false);
  }
}
