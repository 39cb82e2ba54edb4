/**
 * The tariff side of `ipdated_agent.py`: minute-accurate time ranges and
 * the hourly price map built from the three bands.
 */
module IpdatedTariff {
  import opened Vectors
  import opened Tariff

  // ---------------------------------------------------------------------
  // Time ranges

  const MinutesPerDay: int := 24 * 60

  /**
   * `parse_hhmm`: minutes since midnight; "24:00" is the only accepted time
   * outside 00:00..23:59, and anything else out of range is a `ValueError`
   * (here `None`).
   */
  function ParseHhmm(t: Clock): (r: Option<int>)
    ensures r.Some? <==> (t.hour == 24 && t.minute == 0) || (0 <= t.hour < 24 && 0 <= t.minute < 60)
    ensures r.Some? ==> 0 <= r.value <= MinutesPerDay
    ensures r.Some? && t.hour < 24 ==> r.value / 60 == t.hour && r.value % 60 == t.minute
    ensures r.Some? && t.hour == 24 ==> r.value == MinutesPerDay
  {
    if t.hour == 24 && t.minute == 0 then Some(MinutesPerDay)
    else if !(0 <= t.hour < 24 && 0 <= t.minute < 60) then None
    else Some(t.hour * 60 + t.minute)
  }

  /** `[(h % 24) for h in range(lo, hi)]`. */
  function HoursMod(lo: int, hi: int): (r: seq<int>)
    requires lo <= hi
    ensures |r| == hi - lo
    ensures ValidHours(r)
    ensures forall k :: 0 <= k < |r| ==> r[k] == (lo + k) % HoursPerDay
  {
    seq(hi - lo, k => (lo + k) % HoursPerDay)
  }

  /**
   * `time_range_to_hours` of this agent: the whole hours touched by the
   * half-open minute interval [start, end), where an end at or before the
   * start wraps past midnight.
   */
  function TimeRangeToHours(start: Clock, end: Clock): (r: HoursResult)
    ensures r.InvalidTime? <==> ParseHhmm(start).None? || ParseHhmm(end).None?
    ensures r.Hours? ==> StrictlyAscending(r.hours) && ValidHours(r.hours)
  {
    match (ParseHhmm(start), ParseHhmm(end))
    case (Some(s), Some(e0)) =>
      var e := if e0 <= s then e0 + MinutesPerDay else e0;
      var w := HoursMod(s / 60, e / 60);
      SortedSetAscending(w);
      Hours(SortedSet(w))
    case _ => InvalidTime
  }

  /** `x % 24` for a value below two days' worth of hours. */
  lemma ModDay(x: int)
    requires 0 <= x < 2 * HoursPerDay
    ensures x % HoursPerDay == if x < HoursPerDay then x else x - HoursPerDay
  {
  }

  /** An interval inside one day lists its own hours. */
  lemma HoursModWithinDay(lo: int, hi: int)
    requires 0 <= lo <= hi <= HoursPerDay
    ensures SortedSet(HoursMod(lo, hi)) == Range(lo, hi)
  {
    var w := HoursMod(lo, hi);
    forall k | 0 <= k < |w|
      ensures w[k] == Range(lo, hi)[k]
    {
      ModDay(lo + k);
    }
    assert w == Range(lo, hi);
    RangeAscending(lo, hi);
    SortedSetAscending(w);
    AscendingUnique(SortedSet(w), Range(lo, hi));
  }

  /**
   * An interval from hour `lo` to hour `a` of the next day covers the hours
   * before `a` and the hours from `lo` on.
   */
  lemma HoursModOvernight(lo: int, a: int)
    requires 0 <= a <= lo <= HoursPerDay
    ensures SortedSet(HoursMod(lo, a + HoursPerDay)) == Range(0, a) + Range(lo, HoursPerDay)
  {
    var w := HoursMod(lo, a + HoursPerDay);
    var wrapped := Range(0, a) + Range(lo, HoursPerDay);
    WrappedAscending(lo, a);
    forall x
      ensures x in w <==> x in wrapped
    {
      OvernightMember(lo, a, x);
    }
    SortedSetAscending(w);
    AscendingUnique(SortedSet(w), wrapped);
  }

  /** The hours before `a` followed by the hours from `lo` on are in increasing order. */
  lemma WrappedAscending(lo: int, a: int)
    requires 0 <= a <= lo <= HoursPerDay
    ensures StrictlyAscending(Range(0, a) + Range(lo, HoursPerDay))
  {
    var wrapped := Range(0, a) + Range(lo, HoursPerDay);
    forall i, j | 0 <= i < j < |wrapped|
      ensures wrapped[i] < wrapped[j]
    {
    }
  }

  /** An hour is touched overnight exactly when it is before `a` or from `lo` on. */
  lemma OvernightMember(lo: int, a: int, x: int)
    requires 0 <= a <= lo <= HoursPerDay
    ensures x in HoursMod(lo, a + HoursPerDay) <==> x in Range(0, a) + Range(lo, HoursPerDay)
  {
    var w := HoursMod(lo, a + HoursPerDay);
    RangeAscending(0, a);
    RangeAscending(lo, HoursPerDay);
    if x in w {
      var k :| 0 <= k < |w| && w[k] == x;
      ModDay(lo + k);
    }
    if lo <= x < HoursPerDay {
      ModDay(x);
      assert w[x - lo] == x;
    } else if 0 <= x < a {
      ModDay(x + HoursPerDay);
      assert w[x + HoursPerDay - lo] == x;
    }
  }

  /**
   * The hours of a valid range, in closed form: start hour up to (not
   * including) the end hour, or, for a range that wraps, the hours before the
   * end hour followed by the hours from the start hour to midnight.
   */
  lemma TimeRangeToHoursClosedForm(start: Clock, end: Clock)
    requires ParseHhmm(start).Some? && ParseHhmm(end).Some?
    ensures var s := ParseHhmm(start).value;
      var e := ParseHhmm(end).value;
      TimeRangeToHours(start, end) ==
        if s < e then Hours(Range(s / 60, e / 60))
        else Hours(Range(0, e / 60) + Range(s / 60, HoursPerDay))
  {
    var s := ParseHhmm(start).value;
    var e := ParseHhmm(end).value;
    if s < e {
      HoursModWithinDay(s / 60, e / 60);
    } else {
      assert (e + MinutesPerDay) / 60 == e / 60 + HoursPerDay;
      HoursModOvernight(s / 60, e / 60);
    }
  }

  /** 05:30–18:30 covers hours 5 through 17. */
  lemma TimeRangeDaytimeExample()
    ensures TimeRangeToHours(Clock(5, 30), Clock(18, 30)) == Hours(Range(5, 18))
  {
    TimeRangeToHoursClosedForm(Clock(5, 30), Clock(18, 30));
  }

  /** 05:30–05:45 starts and ends inside hour 5 and covers no whole hour. */
  lemma TimeRangeSameHourExample()
    ensures TimeRangeToHours(Clock(5, 30), Clock(5, 45)) == Hours([])
  {
    TimeRangeToHoursClosedForm(Clock(5, 30), Clock(5, 45));
  }

  /** 22:30–05:30 wraps past midnight: hours 0 to 4, then 22 and 23. */
  lemma TimeRangeOvernightExample(start: Clock, end: Clock)
    requires start == Clock(22, 30) && end == Clock(5, 30)
    ensures TimeRangeToHours(start, end) == Hours(Range(0, 5) + Range(22, 24))
  {
    TimeRangeToHoursClosedForm(start, end);
  }

  /** Out-of-range times are rejected; "24:00" is accepted as the end of the day. */
  lemma ParseHhmmBounds()
    ensures ParseHhmm(Clock(24, 0)) == Some(MinutesPerDay)
    ensures ParseHhmm(Clock(24, 1)).None?
    ensures ParseHhmm(Clock(23, 60)).None?
    ensures ParseHhmm(Clock(-1, 0)).None?
  {
  }

  // ---------------------------------------------------------------------
  // Price map

  /** One band of the tariff payload, with its time range already split and its rate parsed. */
  datatype BandSpec = BandSpec(start: Clock, end: Clock, rate: real)

  /** What `build_price_map` produces: the price map, the band hours it stores back, and the currency. */
  datatype PriceTable = PriceTable(
    priceMap: map<int, PriceEntry>,
    dayHours: seq<int>, peakHours: seq<int>, offPeakHours: seq<int>,
    currency: string)

  /** The price charged in a band. */
  function BandRate(b: Band, day: BandSpec, peak: BandSpec, offPeak: BandSpec): real
  {
    match b
    case Day => day.rate
    case Peak => peak.rate
    case OffPeak => offPeak.rate
  }

  /** One `for h in hours: price_map[h] = entry` loop. */
  method Overwrite(pm: map<int, PriceEntry>, hours: seq<int>, entry: PriceEntry) returns (r: map<int, PriceEntry>)
    requires ValidHours(hours)
    ensures forall h :: h in r <==> h in pm || h in hours
    ensures forall h :: h in r ==> r[h] == if h in hours then entry else pm[h]
  {
    r := pm;
    for k := 0 to |hours|
      invariant forall h :: h in r <==> h in pm || h in hours[..k]
      invariant forall h :: h in r ==> r[h] == if h in hours[..k] then entry else pm[h]
    {
      assert hours[..k + 1] == hours[..k] + [hours[k]];
      r := r[hours[k] := entry];
    }
    assert hours[..|hours|] == hours;
  }

  /**
   * A price map that has exactly the hours of the day, each priced and
   * banded as `BandAt` resolves it from the three band hour lists.
   */
  predicate PricedByBands(pm: map<int, PriceEntry>, dayHours: seq<int>, peakHours: seq<int>, offPeakHours: seq<int>,
                          day: BandSpec, peak: BandSpec, offPeak: BandSpec)
  {
    && CoversDay(pm)
    && (forall h :: h in pm ==> 0 <= h < HoursPerDay)
    && forall h :: 0 <= h < HoursPerDay ==>
         pm[h] == PriceEntry(BandRate(BandAt(h, dayHours, peakHours, offPeakHours), day, peak, offPeak),
                             BandAt(h, dayHours, peakHours, offPeakHours))
  }

  /**
   * The loops of `build_price_map`: every hour starts as off-peak, then the
   * day, peak and off-peak hours are written over it in that order.
   */
  method WriteBands(dayHours: seq<int>, peakHours: seq<int>, offHours: seq<int>,
                    day: BandSpec, peak: BandSpec, offPeak: BandSpec)
    returns (pm: map<int, PriceEntry>)
    requires ValidHours(dayHours) && ValidHours(peakHours) && ValidHours(offHours)
    ensures PricedByBands(pm, dayHours, peakHours, offHours, day, peak, offPeak)
  {
    pm := map h | h in AllHours() :: PriceEntry(offPeak.rate, OffPeak);
    forall h | 0 <= h < HoursPerDay
      ensures h in pm
    {
      InAllHours(h);
    }
    ghost var pm0 := pm;
    pm := Overwrite(pm, dayHours, PriceEntry(day.rate, Day));
    ghost var pm1 := pm;
    pm := Overwrite(pm, peakHours, PriceEntry(peak.rate, Peak));
    pm := Overwrite(pm, offHours, PriceEntry(offPeak.rate, OffPeak));
    forall h | 0 <= h < HoursPerDay
      ensures pm[h] == PriceEntry(BandRate(BandAt(h, dayHours, peakHours, offHours), day, peak, offPeak),
                                  BandAt(h, dayHours, peakHours, offHours))
    {
      assert pm0[h] == PriceEntry(offPeak.rate, OffPeak);
      if h !in offHours && h !in peakHours {
        assert pm[h] == pm1[h];
      }
    }
  }

  /**
   * `build_price_map`: the three band ranges are turned into hours and the
   * price map is written from them; a band whose times do not parse aborts
   * with `ValueError` (`None`).  The currency defaults to "LKR".
   */
  method BuildPriceMap(day: BandSpec, peak: BandSpec, offPeak: BandSpec, currency: Option<string>)
    returns (r: Option<PriceTable>)
    ensures r.None? <==>
      TimeRangeToHours(day.start, day.end).InvalidTime? ||
      TimeRangeToHours(peak.start, peak.end).InvalidTime? ||
      TimeRangeToHours(offPeak.start, offPeak.end).InvalidTime?
    ensures r.Some? ==>
      && r.value.dayHours == TimeRangeToHours(day.start, day.end).hours
      && r.value.peakHours == TimeRangeToHours(peak.start, peak.end).hours
      && r.value.offPeakHours == TimeRangeToHours(offPeak.start, offPeak.end).hours
      && r.value.currency == (if currency.Some? then currency.value else "LKR")
      && PricedByBands(r.value.priceMap, r.value.dayHours, r.value.peakHours, r.value.offPeakHours, day, peak, offPeak)
  {
    var dayR := TimeRangeToHours(day.start, day.end);
    var peakR := TimeRangeToHours(peak.start, peak.end);
    var offR := TimeRangeToHours(offPeak.start, offPeak.end);
    if dayR.InvalidTime? || peakR.InvalidTime? || offR.InvalidTime? {
      return None;
    }
    var cur := if currency.Some? then currency.value else "LKR";
    var pm := WriteBands(dayR.hours, peakR.hours, offR.hours, day, peak, offPeak);
    return Some(PriceTable(pm, dayR.hours, peakR.hours, offR.hours, cur));
  }
}
