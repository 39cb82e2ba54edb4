/**
 * `time_range_to_hours` of `corrected_mqtt_lstm_predictor.py`: both times
 * go through `strptime`, the minutes are dropped, and the hours are walked
 * forward from the start hour until the end hour comes round.
 */
module CorrectedTariff {
  import opened Vectors
  import opened Tariff

  /**
   * The `while True` walk: append `h`, step to `(h + 1) % 24`, and stop
   * when the end hour is reached; the list is then sorted and deduplicated.
   * A time `strptime` refuses is a `ValueError`, here `InvalidTime`.
   */
  method TimeRangeToHours(start: Clock, end: Clock) returns (r: HoursResult)
    ensures r.InvalidTime? <==> !StrptimeValid(start) || !StrptimeValid(end)
    ensures r.Hours? ==> r.hours == WalkedRange(start.hour, end.hour)
  {
    if !StrptimeValid(start) || !StrptimeValid(end) {
      return InvalidTime;
    }
    var s, e := start.hour, end.hour;
    ghost var walk := HourWalk(s, e);
    var hours: seq<int> := [];
    var h := s;
    while true
      invariant |hours| < WalkLength(s, e)
      invariant h == After(s, |hours|)
      invariant hours == walk[..|hours|]
      decreases WalkLength(s, e) - |hours|
    {
      WalkStep(s, e, |hours|);
      hours := hours + [h];
      h := (h + 1) % HoursPerDay;
      if h == e {
        break;
      }
    }
    assert hours == walk;
    r := Hours(SortedSet(hours));
  }

  /**
   * What the walk gives: an ascending, non-empty list that starts from the
   * start hour and holds the hours before the end hour on the clock; equal
   * hours give the whole day, and a walk that does not pass midnight gives
   * `range(start, end)`.
   */
  lemma TimeRangeFacts(start: Clock, end: Clock)
    requires StrptimeValid(start) && StrptimeValid(end)
    ensures var r := WalkedRange(start.hour, end.hour);
      && StrictlyAscending(r) && ValidHours(r) && r != []
      && start.hour in r
      && (start.hour == end.hour ==> r == AllHours())
      && (start.hour < end.hour ==> r == Range(start.hour, end.hour))
  {
    WalkedRangeMembers(start.hour, end.hour);
    if start.hour == end.hour {
      WalkedRangeWholeDay(start.hour);
    } else if start.hour < end.hour {
      WalkedRangeForward(start.hour, end.hour);
    }
  }
}
