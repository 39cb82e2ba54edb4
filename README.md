# Appliance schedule repair engine, modelled in Dafny

The home-energy agents plan a day for each appliance as 24 hourly ON/OFF
slots. A plan comes from a language model or from a deterministic fallback.
It is then repaired against a time-of-use tariff:

- ON slots in peak hours are moved to cheaper hours, unless the user allowed
  the appliance in peak hours;
- the number of ON slots is forced to a required count;
- the result is priced and explained hour by hour.

The repository holds three diverging copies of this engine:

- `ipdated_agent.py`, the updated agent;
- `corrected_mqtt_lstm_predictor.py`, the corrected predictor;
- `copy_research_agent.py`, the research copy.

Each copy is modelled as it is written. Beside them, `Run_LSTM.py` keeps one
day of sensor samples in a ring buffer and keeps one day of predictions in a
trimmed store. Both are modelled too.

Modules:

- `Vectors` — 24-slot vectors:
  - `Sum` and binary vectors;
  - the masking `fix_length` of the updated agent and the corrected predictor;
  - hour lists and indicator vectors.
- `Tariff` — time-of-use bands:
  - the band an hour gets when the bands are written in turn;
  - `sorted(set(...))`;
  - the hour walk from a start hour to an end hour that the corrected predictor and the research copy use.
- `Preferences` — `parse_user_preferences`, which is the same in all three copies.
- `Repair` — the two generic passes and the shared redistribution:
  - the fill pass switches OFF slots ON along a list of hours, within a budget;
  - the clear pass switches ON slots OFF;
  - the specification of `redistribute_peak_violations` is shared, since all three copies compute the same thing.
- `IpdatedTariff`, `IpdatedRepair`, `IpdatedCosts` and `IpdatedAgent` — the updated agent:
  - minute-based hour ranges and the price map;
  - the `add_ones`/`remove_ones` count repair;
  - costs, move pairing and explanations;
  - the per-appliance plan and the report totals.
- `CorrectedTariff`, `CorrectedParse`, `CorrectedRepair` and `CorrectedAgent` — the corrected predictor:
  - the `strptime` hour walk;
  - the tolerant 24-value parser;
  - the removal and addition orders;
  - the deterministic fallback and the count-adjust loops;
  - validation, the `MIN_ONS` lift and the model-first plan.
- `CopyResearchAgent` — the research copy:
  - the unmasked `fix_length` and the `datetime` hour walk;
  - the brace-stack `extract_first_dict`;
  - its own redistribution loop;
  - the rebuild-from-zero `enforce_required_ons`.
- `RunLstm` — the `data_buffer`/`buffer_pointer` ring and the `daily_prediction_store` trim.

Code that updates things in place is modelled with arrays, loops and classes. Each method is proved equal to a specification function, and the properties are proved as lemmas about those functions. This covers:

- the passes over `arr`;
- the count-adjust loops over `tmp`;
- the token loop;
- the brace scan;
- the module-level buffer.

The per-appliance `for appliance, arr in schedules.items()` loop is modelled as its body, applied to one appliance's schedule.

Where the documented intent of the system and the code differ, the model
follows the code:

- **Final ON-count.** It does not always equal the required count:
  - the updated agent only removes surplus ONs from day and off-peak hours, and from any hour only when peak hours are allowed;
  - in the corrected predictor, an appliance not allowed peak hours stays short when its required count exceeds the off-peak and day hours, because the addition order holds only those hours. The count-adjust lowering loop does switch ONs off, but in `main_once` the count it aims for is `max(sum(original), MIN_ONS)`, which is never below the original count;
  - the research copy's `enforce_required_ons` ignores the incoming schedule and rebuilds it from zero.
- **Order of refilling and adding.** Hours are refilled and added in the order their band lists give, not in ascending hour order.
- **Overlapping bands.** In the price map, the off-peak band wins on overlapping hours, because it is written last after day and peak. In the corrected predictor, an off-peak hour that is also a peak hour can also break the final check that no peak hour is ON (corrected_mqtt_lstm_predictor.py:551-552). `enforce_required_ons` adds hours along the off-peak list without skipping peak hours, so a short schedule can get such an hour switched on. `CorrectedAgent.FinalChecks` therefore assumes the off-peak hours are not peak hours.
- **Invalid times.** An invalid time is a `ValueError` (`InvalidTime`/`None` here). The updated agent accepts "24:00" as a start time as well as an end time.
- **Required count.** No check rejects a required count above 24.
- **Short candidates.** A candidate shorter than 24 values is padded by `fix_length` before it is validated, not rejected.

## Model

| member | source | states |
|---|---|---|
| Vectors.FixLength | ipdated_agent.py:121-128 | exactly 24 values; each input value is replaced by its low bit; a shortfall is padded with zeros and an overflow is dropped |
| Vectors.FixLengthIdempotent | corrected_mqtt_lstm_predictor.py:213-219 | applying `fix_length` twice gives the same list as applying it once |
| Vectors.FixLengthKeepsSchedules | ipdated_agent.py:333 | the closing `fix_length` leaves a binary 24-slot schedule unchanged |
| Vectors.DayHours | corrected_mqtt_lstm_predictor.py:309 | `[h for h in range(24) if h in peak]` (or `not in`) holds exactly the hours of the day with that membership |
| Vectors.Indicator | copy_research_agent.py:212-221 | the 24-slot binary vector that is 1 exactly on the hours listed |
| Vectors.IndicatorSum | copy_research_agent.py:212-221 | switching on distinct valid hours gives exactly that many ONs |
| Tariff.BandAt | ipdated_agent.py:186-193 | an hour is off-peak iff it is listed off-peak or in neither other band; it is peak iff it is listed peak and not off-peak; otherwise it is day |
| Tariff.BandAtDisjoint | ipdated_agent.py:186-193 | with disjoint bands every listed hour gets its own band |
| Tariff.SortedSet | ipdated_agent.py:154 | `sorted(set(xs))` has exactly the members of `xs` |
| Tariff.SortedSetAscending | ipdated_agent.py:154 | `sorted(set(xs))` is strictly ascending |
| Tariff.HourWalk | corrected_mqtt_lstm_predictor.py:226-231 | the k-th hour walked is start + k mod 24; the walk has between 1 and 24 hours |
| Tariff.WalkStep | corrected_mqtt_lstm_predictor.py:228-231 | the next hour is the next hour of the walk while the walk goes on, and is the end hour exactly when it stops |
| Tariff.WalkedRange | corrected_mqtt_lstm_predictor.py:221-232 | the hours walked from the start hour until the end hour comes round, sorted and without repeats |
| Tariff.WalkedRangeMembers | corrected_mqtt_lstm_predictor.py:221-232 | the result is ascending, never empty and contains the start hour; it holds exactly the hours that come before the end hour on the clock from the start; equal hours give every hour |
| Tariff.WalkedRangeWholeDay | corrected_mqtt_lstm_predictor.py:227-232 | equal start and end hours give all 24 hours |
| Tariff.WalkedRangeForward | copy_research_agent.py:98-114 | a range that does not pass midnight gives `range(start, end)` |
| Tariff.WalkedRangeExample | test_copy_research_agent.py:26-28 | 05:00 to 08:00 gives [5, 6, 7] |
| Tariff.HoursOutside | corrected_mqtt_lstm_predictor.py:289 | the non-peak hours of the day, as the last refill list |
| Tariff.DayOnly | ipdated_agent.py:299 | the day hours that are neither peak nor off-peak, in list order |
| Tariff.DayOnlyDistinct | copy_research_agent.py:210 | the day-only list of distinct day hours is distinct |
| Preferences.MatchesAt | ipdated_agent.py:412-413 | the phrase fits in the message at position i and each of its letters equals the message's, ignoring ASCII case |
| Preferences.SearchFrom | ipdated_agent.py:413 | a case-insensitive search finds the phrase iff it occurs at some position at or after the start |
| Preferences.ParseUserPreferences | ipdated_agent.py:405-414 | one entry per appliance, true iff the message contains "Allow <name> ON during peak hours", ignoring case |
| Preferences.VerbatimPhraseAllows | corrected_mqtt_lstm_predictor.py:248-253 | a message that contains the phrase verbatim allows that appliance |
| Preferences.CaseInsensitive | copy_research_agent.py:234 | two messages that differ only in letter case give the same answer |
| Preferences.ShortMessageDenies | copy_research_agent.py:225-238 | a message shorter than the phrase never allows the appliance |
| Preferences.PhraseOnlyMessage | copy_research_agent.py:231-237 | a message that is exactly one appliance's phrase allows that appliance, and denies every appliance with a longer name |
| Repair.Fill | ipdated_agent.py:276-284 | the refill pass keeps the length and never spends more than its budget |
| Repair.Clear | ipdated_agent.py:314-321 | the removal pass keeps the length and never spends more than its budget |
| Repair.FillEffect | ipdated_agent.py:277-282 | a refill only switches OFF slots ON, only at listed hours that are not blocked, and the ON-count grows by exactly what it spent |
| Repair.FillNoBudget | ipdated_agent.py:280 | with nothing left to refill nothing changes |
| Repair.FillAppend | ipdated_agent.py:276-284 | refilling along `a + b` is refilling along `a`, then along `b` with the remaining budget |
| Repair.FillSaturates | ipdated_agent.py:276-284 | a refill either spends its whole budget or leaves no eligible listed hour OFF |
| Repair.FillPrefersEarlier | ipdated_agent.py:276 | a refill that reached past list `a` left no eligible hour of `a` OFF |
| Repair.FillThree | ipdated_agent.py:276-284 | refilling along off-peak, day and all hours is three consecutive passes, each spending what the last one left |
| Repair.ClearEffect | ipdated_agent.py:316-321 | a removal only switches ON slots OFF, only at listed hours, and the ON-count drops by exactly what it spent |
| Repair.ClearNoBudget | ipdated_agent.py:317-318 | with nothing left to remove nothing changes |
| Repair.ClearNothingOn | ipdated_agent.py:319 | a removal over hours that are all OFF changes nothing |
| Repair.ClearAppend | ipdated_agent.py:328-329 | removing along `a + b` is removing along `a`, then along `b` with the remaining budget |
| Repair.ClearThree | ipdated_agent.py:328-331 | removing along three consecutive lists is three consecutive passes |
| Repair.ClearSaturates | ipdated_agent.py:314-321 | a removal either spends its whole budget or leaves no listed hour ON |
| Repair.ClearAll | ipdated_agent.py:268-272 | a removal whose budget covers its list leaves no listed hour ON |
| Repair.ClearPrefersEarlier | ipdated_agent.py:328-329 | a removal that reached past list `a` left no hour of `a` ON |
| Repair.ClearPeakDrops | ipdated_agent.py:268-272 | clearing the peak switches off exactly the ON peak hours, and the removed count is the drop in the ON-count |
| Repair.ClearPeakSameHours | corrected_mqtt_lstm_predictor.py:257 | a peak list and a peak set with the same hours clear the same slots and count the same |
| Repair.Redistributed | ipdated_agent.py:256-286 | a 24-slot schedule: every ON peak hour is cleared, then as many OFF non-peak hours as were cleared are switched on, off-peak hours first, then day hours, then the rest of the day in index order; the lemmas below prove what it keeps and changes |
| Repair.RedistributedSamePeak | corrected_mqtt_lstm_predictor.py:257 | redistribution depends only on which hours are peak, not on their order or repetition |
| Repair.RedistributedEffect | ipdated_agent.py:256-286 | after redistribution: no peak hour is ON; non-peak ONs are never cleared; peak hours are never switched on; a binary schedule stays binary; the ON-count never grows |
| Repair.RedistributedKeepsCount | ipdated_agent.py:274-284 | when the ONs fit in the non-peak hours, the ON-count of a binary schedule is kept |
| Repair.RedistributedIdempotent | ipdated_agent.py:256-286 | a second redistribution changes nothing |
| Repair.RedistributedNoPeakOn | corrected_mqtt_lstm_predictor.py:270-271 | a schedule with no ON peak hour is left as it is |
| Repair.RedistributedPrefersOffPeak | corrected_mqtt_lstm_predictor.py:285-289 | if an hour that is not off-peak was switched on, every non-peak off-peak hour is ON |
| Repair.RedistributedPrefersDay | corrected_mqtt_lstm_predictor.py:286-289 | if an hour in neither list was switched on, every non-peak off-peak and day hour is ON |
| Repair.ClearPeakOns | ipdated_agent.py:268-272 | the peak-clearing loop leaves exactly the cleared schedule and returns the number of ONs it removed |
| Repair.RefillHours | ipdated_agent.py:277-282 | one `for h in hour_list` loop is a refill pass that skips peak hours with budget `total_on - filled` |
| Repair.RefillWhenShort | ipdated_agent.py:276-284 | the refill loop continues the pass begun by the earlier lists, and changes nothing once the ONs are back |
| Repair.FillSkipsSelected | ipdated_agent.py:299 | dropping from a refill list hours that are blocked or already ON does not change the refill |
| Repair.OnAt | corrected_mqtt_lstm_predictor.py:310-311 | `[h for h in hs if a[h] == 1]` holds exactly the listed hours that are ON |
| Repair.ClearSkipsOff | corrected_mqtt_lstm_predictor.py:309-311 | clearing only the hours that were ON is the same as clearing the whole list |
| IpdatedTariff.ParseHhmm | ipdated_agent.py:138-144 | a time is accepted iff it is 00:00 to 23:59, or exactly 24:00; the result is hour·60 + minute, with 24:00 giving 1440 |
| IpdatedTariff.ParseHhmmBounds | ipdated_agent.py:140-143 | 24:00 maps to 1440; 24:01, 23:60 and -1:00 are rejected |
| IpdatedTariff.HoursMod | ipdated_agent.py:153 | the hours of `range(lo, hi)` taken mod 24 |
| IpdatedTariff.TimeRangeToHours | ipdated_agent.py:131-154 | a bad time gives `ValueError`; otherwise the hours are strictly ascending and within 0..23 |
| IpdatedTariff.TimeRangeToHoursClosedForm | ipdated_agent.py:146-154 | a valid range gives `range(start hour, end hour)`; when end ≤ start, it gives the hours before the end hour followed by the hours from the start hour to 23 |
| IpdatedTariff.HoursModWithinDay | ipdated_agent.py:151-154 | an interval inside one day gives its own hours |
| IpdatedTariff.HoursModOvernight | ipdated_agent.py:148-154 | an interval that passes midnight gives the hours before the end hour, then the hours from the start hour on |
| IpdatedTariff.TimeRangeDaytimeExample | ipdated_agent.py:135 | 05:30–18:30 gives hours 5 to 17 |
| IpdatedTariff.TimeRangeSameHourExample | ipdated_agent.py:148-153 | 05:30–05:45 covers no whole hour and gives an empty list |
| IpdatedTariff.TimeRangeOvernightExample | ipdated_agent.py:136 | 22:30–05:30 wraps: hours 0 to 4, then 22 and 23 |
| IpdatedTariff.Overwrite | ipdated_agent.py:188-193 | after one band loop, the listed hours hold the new entry and every other hour keeps its old entry |
| IpdatedTariff.WriteBands | ipdated_agent.py:186-193 | every hour has an entry whose band follows the precedence off-peak, then peak, then day, then default off-peak, and whose price is that band's price |
| IpdatedTariff.BuildPriceMap | ipdated_agent.py:165-195 | fails iff some band's times do not parse; otherwise it returns the three bands' hours, a price map that covers the day by band precedence, and the currency (default "LKR") |
| IpdatedRepair.RedistributePeakViolations | ipdated_agent.py:256-286 | an appliance allowed peak hours is untouched; otherwise the schedule becomes its redistribution |
| IpdatedRepair.Permitted | ipdated_agent.py:326 | the hours the agent may switch on: all hours, or the non-peak ones when peak hours are not allowed |
| IpdatedRepair.OrderMembers | ipdated_agent.py:323-331 | every permitted hour is in the add order; the removal order holds exactly the off-peak and day-only hours, plus every hour when peak hours are allowed |
| IpdatedRepair.AddOnes | ipdated_agent.py:305-312 | `add_ones` is a refill pass that skips disallowed peak hours, with budget `need - curr` |
| IpdatedRepair.RemoveOnes | ipdated_agent.py:314-321 | `remove_ones` is a removal pass with budget `curr - need` |
| IpdatedRepair.AddInOrder | ipdated_agent.py:324-326 | the three `add_ones` calls are one refill along off-peak, day-only, then permitted hours |
| IpdatedRepair.RemoveInOrder | ipdated_agent.py:328-329 | the first two `remove_ones` calls are one removal along day-only, then off-peak hours |
| IpdatedRepair.AddShortfall | ipdated_agent.py:323-326 | the `curr < need` branch is the add pass |
| IpdatedRepair.RemoveExcess | ipdated_agent.py:327-331 | the `curr > need` branch is the removal pass |
| IpdatedRepair.Enforced | ipdated_agent.py:302-331 | a 24-slot schedule: below `need`, the `add_ones` passes with the shortfall as budget; above it, the `remove_ones` passes with the surplus as budget; at it, unchanged |
| IpdatedRepair.EnforceRequiredOnsImproved | ipdated_agent.py:289-334 | the array is repaired in place toward `need`, which defaults to the current count; the returned schedule is its `fix_length` |
| IpdatedRepair.AddPassEffect | ipdated_agent.py:305-312 | adding only switches OFF slots ON, only at permitted hours in the add order, and the count rises by what it spent |
| IpdatedRepair.RemovePassEffect | ipdated_agent.py:314-321 | removing only switches ON slots OFF, only at hours in the removal order, and the count drops by what it spent |
| IpdatedRepair.EnforcedAdds | ipdated_agent.py:323-326 | when short, only 0→1 flips happen, never at a disallowed peak hour, and the count never overshoots `need` |
| IpdatedRepair.EnforcedRemoves | ipdated_agent.py:327-331 | when over, only 1→0 flips happen, only in day, off-peak or (if allowed) any hour, and the count never undershoots `need` |
| IpdatedRepair.EnforcedKeeps | ipdated_agent.py:302-331 | a schedule already at `need` is unchanged, and a binary schedule stays binary |
| IpdatedRepair.AddPassSaturates | ipdated_agent.py:305-312 | the add pass either spends its budget or leaves no permitted hour OFF |
| IpdatedRepair.RemovePassSaturates | ipdated_agent.py:314-321 | the removal pass either spends its budget or leaves no hour of the removal order ON |
| IpdatedRepair.EnforcedExactWhenAllowed | ipdated_agent.py:323-331 | with peak hours allowed, any `need` in 0..24 is met exactly on a binary schedule |
| IpdatedRepair.EnforcedExactWhenRoom | ipdated_agent.py:323-326 | without peak permission, a shortfall is met exactly when `need` fits in the non-peak hours |
| IpdatedRepair.EnforcedAddsOffPeakFirst | ipdated_agent.py:324-325 | if an ON was added outside the off-peak list, every permitted off-peak hour is ON |
| IpdatedRepair.EnforcedAddsDayBeforeRest | ipdated_agent.py:325-326 | if an ON was added outside the off-peak and day-only lists, every permitted hour of both is ON |
| IpdatedRepair.EnforcedRemovesDayFirst | ipdated_agent.py:328-329 | if an ON was removed outside the day-only list, no day-only hour is left ON |
| IpdatedCosts.CostOfAllOff | ipdated_agent.py:199-200 | an all-OFF schedule costs 0 |
| IpdatedCosts.Cost | ipdated_agent.py:199-200 | the sum over the 24 hours of state × power × that hour's price |
| IpdatedCosts.CostUpdate | ipdated_agent.py:199-200 | changing one hour changes the cost by the change × power × that hour's price |
| IpdatedCosts.CostNonNegative | ipdated_agent.py:199-200 | with non-negative power and prices the cost is never negative |
| IpdatedCosts.HoursWhereFrom | ipdated_agent.py:208-209 | the comprehension holds exactly the hours where `orig` and `opt` have the given values |
| IpdatedCosts.HoursWhereAscending | ipdated_agent.py:208-209 | those hours come in ascending order |
| IpdatedCosts.Removed | ipdated_agent.py:208 | exactly the hours ON in `orig` and OFF in `opt` |
| IpdatedCosts.Added | ipdated_agent.py:209 | exactly the hours OFF in `orig` and ON in `opt` |
| IpdatedCosts.NothingRemovedFrom | ipdated_agent.py:208 | an unchanged schedule has no removed hours |
| IpdatedCosts.PairMoves | ipdated_agent.py:208-213 | the i-th removed hour paired with the i-th added hour, for as many pairs as the shorter list has |
| IpdatedCosts.ComparePairMoves | ipdated_agent.py:203-213 | the zip loop returns the pair list |
| IpdatedCosts.PairMovesFacts | ipdated_agent.py:203-213 | there are `min(#removed, #added)` pairs; each moves an ON from a removed hour to an added hour; both components ascend; identical schedules give no pairs |
| IpdatedCosts.PairMovesInDay | ipdated_agent.py:208-212 | every pair names two hours of the day |
| IpdatedCosts.Max0 | ipdated_agent.py:235 | the clipped value is at least 0 and at least the input |
| IpdatedCosts.PairReason | ipdated_agent.py:236-241 | the reason is "shifted out of peak" iff the move leaves peak for a non-peak band; "cheaper band" only with a lower price; "constraint" only without one |
| IpdatedCosts.SavedTotalNonNegative | ipdated_agent.py:234-235 | the accumulated clipped saving is never negative |
| IpdatedCosts.SavedTotalStep | ipdated_agent.py:234-235 | each move adds its own clipped saving to the total |
| IpdatedCosts.PairReasons | ipdated_agent.py:231-241 | one reason per move, in order |
| IpdatedCosts.PeakOnFrom | ipdated_agent.py:243 | exactly the hours ON in `opt` whose band is peak |
| IpdatedCosts.PeakOnExists | ipdated_agent.py:243-244 | the peak-on list is non-empty iff some peak hour is ON |
| IpdatedCosts.OnHoursFrom | ipdated_agent.py:248-249 | exactly the ON hours of a schedule |
| IpdatedCosts.PeakLine | ipdated_agent.py:243-246 | the peak-retained line is present iff some peak hour is still ON |
| IpdatedCosts.SavingLine | ipdated_agent.py:250-251 | the savings line is present iff the saving is positive |
| IpdatedCosts.ChangeReasonsFacts | ipdated_agent.py:228-241 | "no changes" appears iff the schedule is unchanged, and the move lines carry no peak or savings line |
| IpdatedCosts.ExplanationFacts | ipdated_agent.py:224-253 | "no changes" iff unchanged; a peak-retained line iff a peak hour stays ON; a savings line iff the clipped saving is positive; the saving is non-negative |
| IpdatedCosts.ReasonFor | ipdated_agent.py:232-241 | the branch chain picks the reason for one move |
| IpdatedCosts.MoveReasons | ipdated_agent.py:231-241 | the move loop yields one reason per pair and the sum of clipped savings |
| IpdatedCosts.AppendSummary | ipdated_agent.py:243-251 | the closing lines are the peak-retained line, the two ON-hour lines, then the savings line |
| IpdatedCosts.Explanation | ipdated_agent.py:216-253 | the reasons for the moves (or "no changes"), the peak-retained line, the original and optimized ON hours, and the savings line |
| IpdatedCosts.ExplainChanges | ipdated_agent.py:216-253 | returns the explanation and the clipped saving total, which is never negative |
| IpdatedAgent.Planned | ipdated_agent.py:449-492 | the model's fixed-length answer, or the fixed original without one, redistributed unless allowed, then enforced to the original's ON-count and fixed to 24 values |
| IpdatedAgent.PlanAppliance | ipdated_agent.py:449-492 | the original is fixed to 24 values; the required count is its ON-count; the model answer or the original runs through both passes |
| IpdatedAgent.PlannedChecks | ipdated_agent.py:495-502 | every plan has 24 binary values and, when peak hours are not allowed, no ON in a peak hour |
| IpdatedAgent.PlannedCountWhenAllowed | ipdated_agent.py:451-492 | an appliance allowed peak hours ends with exactly its original ON-count |
| IpdatedAgent.PlannedCountWhenRoom | ipdated_agent.py:491-492 | an appliance kept out of peak hours ends with its original count, when that fits in the non-peak hours and the redistributed candidate has no more ONs |
| IpdatedAgent.PlannedFallback | ipdated_agent.py:473-488 | without a model answer the plan is the redistributed original, with the original count (or the original itself when peak hours are allowed) |
| IpdatedAgent.ReportAppliance | ipdated_agent.py:513-527 | both costs of the schedules; the saving is `max(0, base − opt)`; the reasons are the explanation |
| IpdatedAgent.ReportTotals | ipdated_agent.py:528-531 | the totals sum both costs over the appliances; the total saving is `max(0, baseline − optimized)` |
| IpdatedAgent.TotalSavingsBound | ipdated_agent.py:525 | the sum of per-appliance savings is non-negative and at least baseline − optimized |
| IpdatedAgent.TotalsWithinAppliances | ipdated_agent.py:525-531 | the reported total saving never exceeds the sum of the per-appliance savings |
| CorrectedTariff.TimeRangeToHours | corrected_mqtt_lstm_predictor.py:221-232 | a bad time gives `ValueError`; otherwise the while loop returns the sorted walked hours |
| CorrectedTariff.TimeRangeFacts | corrected_mqtt_lstm_predictor.py:221-232 | the result is ascending, never empty and holds the start hour; equal hours give the whole day; a forward range gives `range(start, end)` |
| CorrectedParse.Unbracket | corrected_mqtt_lstm_predictor.py:122 | every bracket becomes a space and every other character is kept |
| CorrectedParse.Tokens | corrected_mqtt_lstm_predictor.py:123 | splitting on runs of commas and whitespace gives only non-empty tokens |
| CorrectedParse.InformationSeparatorSplits | corrected_mqtt_lstm_predictor.py:123 | "1", U+001C, "0" splits into the tokens "1" and "0", because `\s` matches the information separators |
| CorrectedParse.BitOf | corrected_mqtt_lstm_predictor.py:126-130 | a token contributes one value iff it is "0" or "1" |
| CorrectedParse.Bits | corrected_mqtt_lstm_predictor.py:125-130 | the values kept from the first n tokens are binary and at most n |
| CorrectedParse.BitsPrefix | corrected_mqtt_lstm_predictor.py:131-132 | stopping early keeps a prefix of the values all the tokens give |
| CorrectedParse.ParsedBits | corrected_mqtt_lstm_predictor.py:120-133 | either `None` or exactly 24 binary values |
| CorrectedParse.Parse24IntsFromText | corrected_mqtt_lstm_predictor.py:120-133 | the token loop with its early break returns the first 24 binary tokens, or `None` when there are fewer |
| CorrectedParse.ParseRender | corrected_mqtt_lstm_predictor.py:120-133 | a 24-value binary schedule printed as a list, followed by any text, parses back to itself |
| CorrectedRepair.FillSlots | corrected_mqtt_lstm_predictor.py:273-283 | the nested `fill` is a refill pass that skips peak hours, and returns how many hours it switched on |
| CorrectedRepair.FillWhenShort | corrected_mqtt_lstm_predictor.py:286-289 | a guarded `fill` continues the refill, and changes nothing once all hours are back |
| CorrectedRepair.RedistributePeakViolations | corrected_mqtt_lstm_predictor.py:256-291 | an appliance allowed peak hours is untouched; otherwise the schedule becomes the shared redistribution |
| CorrectedRepair.RemoveDownTo | corrected_mqtt_lstm_predictor.py:312-315 | the removal loop is a removal pass with budget `sum − need` |
| CorrectedRepair.AddUpTo | corrected_mqtt_lstm_predictor.py:320-324 | the addition loop is an unblocked refill with budget `need − sum` |
| CorrectedRepair.ClearOnsInRemovalOrder | corrected_mqtt_lstm_predictor.py:307-311 | clearing the ON hours of each list in turn is clearing the whole order |
| CorrectedRepair.RemovalList | corrected_mqtt_lstm_predictor.py:307-311 | the removal list holds only ON hours, and clearing it equals clearing the removal order |
| CorrectedRepair.RemoveExcess | corrected_mqtt_lstm_predictor.py:306-315 | the `have > need` branch clears along the removal order down to the target |
| CorrectedRepair.AddShortfall | corrected_mqtt_lstm_predictor.py:316-324 | the `have < need` branch fills along the addition order up to the target |
| CorrectedRepair.Enforced | corrected_mqtt_lstm_predictor.py:299-325 | a 24-slot copy: over the target, ON hours are cleared in removal order down to it; under it, OFF hours are switched on in addition order up to it; at it, unchanged |
| CorrectedRepair.EnforceRequiredOns | corrected_mqtt_lstm_predictor.py:293-326 | works on a copy (the input is never changed) and returns the enforced schedule |
| CorrectedRepair.EnforcedStopsAtTarget | corrected_mqtt_lstm_predictor.py:299-324 | a schedule at its target is returned as is; above it, the count never drops below the target; below it, the count never rises above the target |
| CorrectedRepair.EnforcedRemovesOnly | corrected_mqtt_lstm_predictor.py:306-315 | above the target, only ON hours of the removal order are switched off; the result reaches the target or leaves no hour of that order ON |
| CorrectedRepair.EnforcedAddsOnly | corrected_mqtt_lstm_predictor.py:316-324 | below the target, only OFF hours of the addition order are switched on; the result reaches the target or leaves every hour of that order ON |
| CorrectedRepair.EnforcedRemovesPeakFirst | corrected_mqtt_lstm_predictor.py:308-309 | disallowed peak ONs go first: once a non-peak hour is switched off, no peak hour is ON |
| CorrectedRepair.EnforcedRemovesDayBeforeOffPeak | corrected_mqtt_lstm_predictor.py:310-311 | day-only hours go before off-peak hours |
| CorrectedRepair.EnforcedAddsOffPeakFirst | corrected_mqtt_lstm_predictor.py:317 | off-peak hours are filled first |
| CorrectedRepair.EnforcedAddsPeakLast | corrected_mqtt_lstm_predictor.py:317-319 | peak hours are filled only after every off-peak and day-only hour is ON |
| CorrectedRepair.EnforcedKeepsPeakOff | corrected_mqtt_lstm_predictor.py:316-319 | without permission, a schedule with no ON peak hour gains none |
| CorrectedRepair.DeterministicFacts | corrected_mqtt_lstm_predictor.py:329-362 | 24 binary values; with permission, the fixed original; otherwise no peak ON, every non-peak ON kept, and the original count whenever it fits in the non-peak hours |
| CorrectedRepair.FillDayOnly | corrected_mqtt_lstm_predictor.py:336-346 | filling the day-only hours after the off-peak hours equals filling all the day hours |
| CorrectedRepair.DeterministicAsFill | corrected_mqtt_lstm_predictor.py:338-362 | without permission, the fallback is the peak-cleared original, refilled along off-peak, day-only, then all hours |
| CorrectedRepair.DeterministicNothingLost | corrected_mqtt_lstm_predictor.py:342-344 | when clearing the peak lost nothing, the cleared schedule is returned |
| CorrectedRepair.PlaceInSlots | corrected_mqtt_lstm_predictor.py:346-352 | the first refill loop is a refill pass over the slots |
| CorrectedRepair.PlaceInDay | corrected_mqtt_lstm_predictor.py:353-361 | the second refill loop is a refill pass over the whole day |
| CorrectedRepair.RefillLost | corrected_mqtt_lstm_predictor.py:346-361 | both loops together are one refill along the slots, then the day |
| CorrectedRepair.Deterministic | corrected_mqtt_lstm_predictor.py:329-362 | a 24-slot schedule: the fixed-length original when peak hours are allowed, otherwise the original with its peak ONs moved by the shared redistribution |
| CorrectedRepair.OptimizeScheduleDeterministic | corrected_mqtt_lstm_predictor.py:329-362 | the loops compute the deterministic fallback |
| CorrectedRepair.RaiseLowest | corrected_mqtt_lstm_predictor.py:443-449 | the raising loop is an unblocked refill along `range(24)` with budget `diff` |
| CorrectedRepair.LowerLowest | corrected_mqtt_lstm_predictor.py:450-456 | the lowering loop is a removal along `range(24)` with budget `-diff` |
| CorrectedRepair.Adjusted | corrected_mqtt_lstm_predictor.py:440-456 | a 24-slot schedule: short of `enforced`, the lowest-index OFF hours are switched on; over it, the lowest-index ON hours are switched off |
| CorrectedRepair.CountAdjust | corrected_mqtt_lstm_predictor.py:440-456 | the count-adjust loops compute the adjusted schedule |
| CorrectedRepair.RaisedExact | corrected_mqtt_lstm_predictor.py:443-449 | raising within reach ends exactly at the count, stays binary, and only switches hours on |
| CorrectedRepair.LoweredExact | corrected_mqtt_lstm_predictor.py:450-456 | lowering within reach ends exactly at the count, stays binary, and only switches hours off |
| CorrectedRepair.AdjustedExact | corrected_mqtt_lstm_predictor.py:520-535 | for 0 ≤ enforced ≤ 24 the adjusted schedule has exactly `enforced` ONs, is binary, and only raises or only lowers |
| CorrectedRepair.RaisedLowestFirst | corrected_mqtt_lstm_predictor.py:444-447 | raising keeps existing ONs, and an hour switched on has no OFF hour before it |
| CorrectedRepair.LoweredLowestFirst | corrected_mqtt_lstm_predictor.py:451-454 | lowering keeps existing OFFs, and an hour switched off has no ON hour before it |
| CorrectedRepair.AdjustedLowestFirst | corrected_mqtt_lstm_predictor.py:440-456 | the adjustment switches on the lowest-index OFF hours, or switches off the lowest-index ON hours |
| CorrectedAgent.ValidateBinary24 | corrected_mqtt_lstm_predictor.py:239-246 | true iff the list has 24 values, all 0 or 1, and sums to `expected_ones` when that is given |
| CorrectedAgent.ValidateFixLength | corrected_mqtt_lstm_predictor.py:428-429 | after `fix_length` only the count can fail validation |
| CorrectedAgent.EnforcedOnes | corrected_mqtt_lstm_predictor.py:514 | the enforced count is `max(predicted, MIN_ONS)` |
| CorrectedAgent.FirstValidFrom | corrected_mqtt_lstm_predictor.py:397-436 | a result is a fixed attempt that is valid with the enforced count; there is none iff no attempt's fixed list has that count |
| CorrectedAgent.Scheduled | corrected_mqtt_lstm_predictor.py:393-457 | the first attempt whose answer validates, or else the deterministic fallback of the count-adjusted original; with no model, the fallback of `main_once` |
| CorrectedAgent.ScheduleWithLlm | corrected_mqtt_lstm_predictor.py:393-457 | the retry loop returns the first valid answer, or else the count-adjusted deterministic fallback |
| CorrectedAgent.FallbackMeetsCount | corrected_mqtt_lstm_predictor.py:438-457 | the fallback is the adjusted original when allowed (count met); without permission, it has no peak ON and meets the count whenever that fits |
| CorrectedAgent.Planned | corrected_mqtt_lstm_predictor.py:508-544 | a 24-slot schedule: the fixed original, its count lifted by `MIN_ONS`, scheduled, redistributed unless allowed, then enforced to the lifted count |
| CorrectedAgent.PlanAppliance | corrected_mqtt_lstm_predictor.py:508-544 | fix the original, lift the count by `MIN_ONS`, schedule, then run both passes with the lifted count |
| CorrectedAgent.ScheduledShape | corrected_mqtt_lstm_predictor.py:517-540 | the schedule before post-processing is 24 binary values |
| CorrectedAgent.FinalChecks | corrected_mqtt_lstm_predictor.py:547-552 | when off-peak hours are not peak hours: 24 values, binary, and no peak ON without permission |
| CorrectedAgent.ValidAnswerKept | corrected_mqtt_lstm_predictor.py:538-544 | a valid answer with no peak ON (or with permission) is written unchanged |
| CopyResearchAgent.FixLengthRaw | copy_research_agent.py:87-96 | 24 values: the input prefix unchanged, then zero padding; overflow dropped |
| CopyResearchAgent.FixLengthRawOnBinary | copy_research_agent.py:91-96 | on binary input it agrees with the masking `fix_length` of the other copies |
| CopyResearchAgent.FixLengthRawKeeps | copy_research_agent.py:91-96 | a 24-value list is kept whatever its values, so the function is idempotent |
| CopyResearchAgent.FixLengthPadding | test_copy_research_agent.py:13-18 | [1, 0, 1] becomes [1, 0, 1] followed by 21 zeros |
| CopyResearchAgent.FixLengthTruncating | test_copy_research_agent.py:20-24 | thirty ones become twenty-four ones |
| CopyResearchAgent.TimeRangeToHours | copy_research_agent.py:98-114 | a bad time gives `ValueError`; otherwise the `datetime` loop, with both of its exits, returns the sorted walked hours |
| CopyResearchAgent.Depth | copy_research_agent.py:121-130 | the stack height after the first n characters: a '{' pushes, and a '}' pops only when the stack is not empty |
| CopyResearchAgent.FirstCloseFrom | copy_research_agent.py:128-132 | the first position from i on whose '}' empties the stack, or none |
| CopyResearchAgent.OpenedAt | copy_research_agent.py:124-127 | the '{' that opened the block still open: the stack was empty there and non-empty from there on |
| CopyResearchAgent.FirstDict | copy_research_agent.py:116-133 | the text from the '{' that opened the block to the first '}' that empties the stack, or `None` when no '}' does |
| CopyResearchAgent.ExtractFirstDict | copy_research_agent.py:116-133 | the stack scan returns the text from the outermost '{' up to the '}' that first empties the stack, or `None` |
| CopyResearchAgent.FirstDictFacts | copy_research_agent.py:121-133 | the block starts with '{' and ends with '}'; a brace stays open strictly inside it and closes at its end; extracting from it again gives itself |
| CopyResearchAgent.BalancedBlock | copy_research_agent.py:121-133 | a block that opens at its first character and closes only at its last is found whole |
| CopyResearchAgent.FirstDictOfBlock | test_copy_research_agent.py:35-38 | a brace-free block inside brace-free text is found, e.g. `{"a": 1, "b": 2}` |
| CopyResearchAgent.FillLists | copy_research_agent.py:169-177 | 24 slots: the refill passes over the first n hour lists, each spending the budget the previous one left |
| CopyResearchAgent.FillListsSpent | copy_research_agent.py:175-176 | once the removed ONs are back, the remaining lists change nothing, which is why the `break` is safe |
| CopyResearchAgent.FillList | copy_research_agent.py:171-174 | the inner loop is a refill pass that skips peak hours, with budget `total_on − filled` |
| CopyResearchAgent.RedistributePeakViolations | copy_research_agent.py:143-179 | an appliance allowed peak hours is untouched; otherwise the schedule becomes the shared redistribution |
| CopyResearchAgent.PyPrefix | copy_research_agent.py:215 | Python's `xs[:n]`, including negative `n` |
| CopyResearchAgent.SetHours | copy_research_agent.py:215-216 | the loop switches on exactly the listed hours, on top of those already set |
| CopyResearchAgent.RebuiltHours | copy_research_agent.py:213-221 | the first `needed` off-peak hours, then, when they do not cover `needed`, the first remaining day-only hours |
| CopyResearchAgent.EnforceRequiredOns | copy_research_agent.py:207-223 | the result is a fresh schedule, ON exactly at the first `needed` off-peak hours and then the first remaining day-only hours |
| CopyResearchAgent.RebuiltHoursDistinct | copy_research_agent.py:208-221 | the hours switched on are valid and distinct |
| CopyResearchAgent.RebuiltFacts | copy_research_agent.py:207-223 | 24 binary values; the sum is `needed` when 0 ≤ needed ≤ #off-peak + #day-only; no peak ON when off-peak is disjoint from peak |
| CopyResearchAgent.RebuiltNegative | copy_research_agent.py:213-217 | a negative count follows Python slicing: all but the last `-needed` off-peak hours, and no day hour |
| CopyResearchAgent.RebuiltExample | test_copy_research_agent.py:50-61 | with the test's bands and two required ONs, the schedule is binary with sum 2 |
| RunLstm.Last | Run_LSTM.py:232 | `xs[-n:]`: the last n items, or all of them when there are fewer |
| RunLstm.LastOfLast | Run_LSTM.py:232 | the last n items of the last m items (n ≤ m) are the last n items |
| RunLstm.Insert | Run_LSTM.py:218-224 | the length grows by one up to 1440 and then stays at 1440; `buffer_pointer` stays below 1440 |
| RunLstm.Ordered | Run_LSTM.py:227-230 | the oldest-first view has the buffer's length |
| RunLstm.OrderedIsRotation | Run_LSTM.py:227-228 | when full, the view is a rotation: same samples, starting at the slot `buffer_pointer` names |
| RunLstm.OverwriteOrdered | Run_LSTM.py:221-224 | overwriting the slot at `buffer_pointer` drops the oldest sample of the view and appends the new one |
| RunLstm.InsertTracks | Run_LSTM.py:218-224 | every insert keeps the buffer equal to the last day of samples received |
| RunLstm.TracksOrdered | Run_LSTM.py:227-230 | the oldest-first view is the last 1440 samples received |
| RunLstm.FullAlwaysPredicts | Run_LSTM.py:226-227 | once full, every message runs a prediction |
| RunLstm.PredictsBeforeFull | Run_LSTM.py:226 | before that, a prediction runs on every 30th sample from the 60th on |
| RunLstm.RecentWindow | Run_LSTM.py:232 | the prediction window is the last 54 samples received |
| RunLstm.SampleBuffer.constructor | Run_LSTM.py:36-39 | an empty buffer with `buffer_pointer` at 0 |
| RunLstm.SampleBuffer.OnMessage | Run_LSTM.py:213-233 | the buffer takes one insert; a window is returned iff the length is ≥ 54 and a multiple of 30, and it is the last 54 samples received |
| RunLstm.Trimmed | Run_LSTM.py:197-199 | the store extended by the predictions, cut to its last 1440 entries when longer |
| RunLstm.TrimmedFacts | Run_LSTM.py:197-199 | the trimmed store has at most 1440 entries: the last 1440 of store + predictions; nothing is dropped while they fit; it ends with the new predictions |
| RunLstm.PredictionStore.constructor | Run_LSTM.py:37 | the store starts empty |
| RunLstm.PredictionStore.Extend | Run_LSTM.py:197-199 | `extend` followed by the trim leaves the trimmed store |

## Left out

- The language-model calls, their retries and `time.sleep`, and `build_system_prompt`. A model answer is a parameter: an optional candidate list per attempt.
- `extract_first_array` in the three copies, the code-fence stripping `re.sub` calls, and `ast.literal_eval`. These are regular-expression and Python-literal wrappers. The parsed candidate list is a parameter, a list of integers. So the model does not show what the updated agent's masking `fix_length` does through `int(x) & 1` to other parsed values: it truncates floats and converts strings and booleans. Nor does it show the research copy's `fix_length` keeping such values unchanged. `extract_first_dict` is modelled on text whose fences are already stripped.
- Reading "HH:MM" text into its two numbers (`split(":")`, `int`, `strptime`'s text matching). Times are `Clock(hour, minute)` values, and only the range checks are modelled.
- `parse_price_num` and the band-rate lookup by key. Prices are given as `real`. Floating-point rounding in costs and savings is not modelled.
- MQTT transport, JSON decoding, `read_appliance_status`, `write_schedules`, `write_explanations`, `write_output` and the demo status file. These are I/O.
- The TensorFlow prediction, scaling and thresholding in `Run_LSTM.py`, between the window handed to `predict_on_buffer` and the predictions added to the store. The predictions are a parameter.
- The `threading.Lock` around the buffer. The buffer is modelled sequentially.
- The `isinstance(arr, list)` test of `validate_binary_24`. A candidate is always a list of integers here.
- The dictionary loop over appliances in every pass. Each pass is modelled for one appliance's schedule, and the passes treat appliances independently.
- Preferences.ParseUserPreferences: case folding covers ASCII letters only. Python's `re.IGNORECASE` also matches some non-ASCII letters of the message against the phrase's ASCII letters: 'ı' and 'İ' against i, 'ſ' against s, and the Kelvin sign against k. A message spelling the phrase with such a letter allows the appliance in Python, and the model does not allow it. Appliance names have no regular-expression metacharacters, so the escaped pattern of the corrected predictor and the unescaped patterns of the other copies match the same text.
- CorrectedParse.Tokens: whitespace is the ASCII whitespace of `\s` and `str.strip()`, U+001C to U+001F included. The non-ASCII space characters they also treat as whitespace, such as U+0085, U+00A0 and U+3000, are not separators here.
