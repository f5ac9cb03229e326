# Ride picker, modelled in Dafny

The ride picker recommends an itinerary of theme-park rides for one visitor.
It works in four steps:

1. **Ranking** (`mcts.py`). A one-level search tree gets one child per ride.
   Each child is rolled out and backpropagated `iterations // n + 1` times.
   The rides are then ranked by their average rollout score. The score is
   the popularity weight × 25 minus the average weekly wait.
2. **Filtering** (`inference.py`). The ranked names are kept in rank order
   when the visitor's height meets the ride's parsed height restriction and
   the ride's category is among the preferred ones. The age check is a no-op.
3. **Scheduling** (`inference.py`, `ridepicker.py`).
   - The time at the park comes from two 12-hour clock texts, wrapping
     overnight.
   - For every start offset, a greedy scan keeps each ride whose duration
     plus its last listed wait figure still fits the time left.
   - The distinct trials are collected in a dict.
   - The longest trial is picked, or the one with the largest sum of
     absolute scores; the last of equal ones wins in both cases.
4. **Checking** (`eval_metric_checker.py`). A stand-alone checker tests an
   itinerary against a ride table. It uses its own height parser, which
   rounds inches to centimetres where the filter truncates.

The Dafny modules follow those files:

| Dafny file | module | models |
|---|---|---|
| `mcts.dfy` | `Mcts` | `score_ride_in_rollout`, the `MCTSNode` class, `monte_carlo_tree_search_for_ranking` |
| `inference.dfy` | `Inference` | height parsing, the ride-details map, the constraint filter, wait-time reading, the itinerary builder |
| `ridepicker.dfy` | `RidePicker` | `get_park_time` (with `strptime` for `%I:%M%p`), `run_algo` |
| `eval_metric_checker.dfy` | `EvalMetricChecker` | `parse_height_restriction`, `can_ride`, `verify_itinerary`, the checker's own fixture |
| `rides.dfy` | `RideTable` | one row of the ride table |
| `patterns.dfy` | `Patterns` | the regular expressions the parsers search with (leftmost match, greedy digits) |
| `text.dfy`, `seqs.dfy`, `dicts.dfy`, `wrappers.dfy` | | Python string operations, subsequences and first-occurrence dedup, dicts built by repeated assignment, `Option`/`Result` |

`MCTSNode` is a Dafny class:
- its children list, visit count and value are fields that the methods
  update in place;
- `backpropagate` walks the parent chain recursively, as the source does;
- the ranking sorts by insertion;
- the builder's scans are loops proved against specification functions
  (`GreedyScan`, `Trial`, `TrialDict`, `MostRides`, `MostPopular`).

Python's `ValueError` from `strptime` becomes the `Err` of a `Result`, and
its message is spelled out. Crashes the source does not handle are
preconditions:
- a `KeyError` on an unknown itinerary name;
- `int + None` for a wait text without digits;
- a string `time_at_park` compared with an `int`;
- sorting an empty ranking.

The model follows the code at these points, where it behaves differently
from what its comments, names or the other parser suggest:
- `inference.py` truncates `int(NN * 2.54)` rather than rounding.
- `inference.py` only reads a centimetre figure written in parentheses.
- An unreadable height text becomes an unreachable requirement
  (`float('inf')`) in the filter, but no requirement in the checker.
- Each ride gets `iterations // n + 1` rollouts, which is not
  `ceil(iterations / n)` when `n` divides `iterations`.
- Equal averages keep their table order (the model uses a stable sort);
  the ranking contract allows any order among them.

## Model

| member | source | states |
|---|---|---|
| `Mcts.PopularityWeight` | mcts.py:9-10 | the weight is 3 exactly for "High" and 2 exactly for "Medium"; every other tier weighs 1 |
| `Mcts.AvgWait` | mcts.py:12-19 | the 30-minute default stands unless the wait text contains a '-' |
| `Mcts.AvgWaitOfRange` | mcts.py:14-17 | "lo-hi min" with digit bounds averages to (lo + hi) / 2 |
| `Mcts.AvgWaitWithoutRange` | mcts.py:13-14 | a wait text without '-' gives the 30-minute default |
| `Mcts.AvgWaitExamples` | mcts.py:12-19 | "10-30 min" averages to 20; "5 min" and "Varies" fall back to 30 |
| `Mcts.Score` | mcts.py:6-25 | popularity weight × 25 minus the average wait; its meaning is stated by `PopularityWeight`, `AvgWaitOfRange`, `AvgWaitWithoutRange` and `ScoreExample` |
| `Mcts.ScoreExample` | mcts.py:21-25 | a High ride waiting 10-30 minutes scores 3 × 25 − 20 = 55 |
| `Mcts.ScoreSumAppend` | mcts.py:56-59 | the summed score of a concatenated index list is the sum of the two sums |
| `Mcts.RolloutOfList` | mcts.py:52-60 | a list rollout adds over concatenation; a one-ride list scores like that ride's own state |
| `Mcts.Node.Ancestry` | mcts.py:62-66 | the chain from a node through its parents ends at a parentless root, one depth level per step |
| `Mcts.Node.constructor` | mcts.py:29-34 | a new node holds its state and parent, no children, 0 visits and value 0 |
| `Mcts.Node.Expand` | mcts.py:47-50 | exactly one fresh, empty child is appended, whose state is the action and whose parent is this node |
| `Mcts.Node.Rollout` | mcts.py:52-60 | a ride index scores that ride, a list sums its rides' scores, the root scores 0 |
| `Mcts.Node.Backpropagate` | mcts.py:62-66 | every node from this one up to the root gains one visit and the result in value; no child list changes |
| `Mcts.Node.FindChild` | mcts.py:74-78 | null exactly when no child has the state, otherwise the first child that has it |
| `Mcts.RoundsIsLeast` | mcts.py:82 | `iterations // n + 1` is the least r with r × n > iterations |
| `Mcts.RepeatedIsProduct` | mcts.py:82-84 | r backpropagations of the same rollout add r × that rollout |
| `Mcts.TreeValueIsProduct` | mcts.py:73-84 | the root's value, `rounds` rollouts of each of the first n rides, is rounds × the total of their scores |
| `Mcts.VisitTotalIsProduct` | mcts.py:82-84 | n children of `rounds` visits each give the root n × rounds visits |
| `Mcts.RollOut` | mcts.py:82-84 | the child and the root each gain `rounds` visits and `rounds` copies of the ride's score |
| `Mcts.ExploreRide` | mcts.py:73-84 | a ride with no child yet gets one new child, appended and rolled out `rounds` times |
| `Mcts.BuildSearchTree` | mcts.py:69-84 | the root has one child per ride in table order, each holding its ride, `iterations // n + 1` visits and that many copies of its score; the root holds n × rounds visits and `rounds` copies of every ride's score |
| `Mcts.AverageOfEqualRollouts` | mcts.py:89 | value / visits of a child is exactly its ride's score |
| `Mcts.InsertByAverage` | mcts.py:96 | inserting into a descending ranking keeps it descending and adds exactly the new row |
| `Mcts.InsertKeepsSorted` | mcts.py:96 | the insertion point between higher-or-equal and lower averages keeps the order descending |
| `Mcts.SortByAverage` | mcts.py:96 | the result is a permutation of the rows, sorted by average score descending |
| `Mcts.MonteCarloSearch` | mcts.py:69-97 | the ranking is a permutation of one (name, score, rounds) row per ride, sorted by average descending |
| `Mcts.TopRankedHasBestScore` | mcts.py:86-97 | the ranking has one row per ride, and the first row's average is at least every ride's score |
| `Mcts.RankedRowsAreRides` | mcts.py:86-94 | every ranked row names a table ride, carries that ride's score and has `iterations // n + 1` visits |
| `Patterns.NumberThenFinds` | inference.py:9-15 | a maximal digit run, optional whitespace and the pattern's tail match, with the run's value |
| `Patterns.FirstMatchSkips` | inference.py:9 | a search skips the positions where the pattern does not match |
| `Patterns.ParenFigureAfter` | inference.py:9-11 | after text without '(', "(NN cm)" is the first parenthesised figure and reads as NN |
| `Patterns.CmFigureAfter` | eval_metric_checker.py:6-8 | after text without 'c' that ends in neither a digit nor a space, "NN cm" is the first centimetre figure and reads as NN |
| `Inference.ParseHeightToCm` | inference.py:5-17 | a missing cell or "none" asks nothing, "(NN cm)" gives NN, else `NN"` gives NN × 2.54 truncated, else unreachable; stated by `ParenthesisedCmWins`, `InchesTruncated`, `UnmarkedIsUnreachable` and the five edge-case lemmas below |
| `Inference.NotNoneText` | inference.py:6 | text starting with a non-space other than n/N is not "none" after strip and lower |
| `Inference.NoParenNoMatch` | inference.py:9 | text without '(' has no parenthesised centimetre figure |
| `Inference.ParenthesisedCmWins` | inference.py:9-11 | "(NN cm)" at the start reads as NN cm, whatever follows |
| `Inference.CmFigureBeatsInches` | inference.py:9-15 | the table's `46" (117 cm)` reads as 117, not as the inch figure |
| `Inference.InchesTruncated` | inference.py:13-15 | `NN"` without a parenthesised figure reads as NN × 254 / 100 truncated |
| `Inference.UnmarkedIsUnreachable` | inference.py:17 | text with neither marker that is not "none" becomes an unreachable requirement |
| `Inference.MissingCellDemandsNothing` | inference.py:6-7 | a missing (non-text) cell asks nothing |
| `Inference.SpacedNoneDemandsNothing` | inference.py:6-7 | " NoNe " asks nothing, after strip and lower |
| `Inference.EmptyTextUnreachable` | inference.py:6-17 | "" is not "none" and holds no figure, so it is unreachable |
| `Inference.BareCmUnreachable` | inference.py:9-17 | "120 cm" without parentheses is unreachable |
| `Inference.HalfInchTruncated` | inference.py:13-15 | `25"` is 63.5 cm truncated to 63 |
| `Inference.GetRideDetailsMap` | inference.py:19-24 | the loop builds the name → row map of the table |
| `Inference.RideDetailsMeaning` | inference.py:19-24 | the keys are exactly the table's names; each maps to the last row with that name |
| `Dicts.FromPairsLastWins` | inference.py:21-23 | assigning pairs in order leaves each key mapped to its last value |
| `Inference.Eligible` | inference.py:43-74 | a name passes when it is a table ride whose parsed restriction the height meets and whose category is preferred (any, for an empty list); the age is not read; stated by `FilterRanked`, `FilterIgnoresAge` and `RidePicker.RecommendedAreEligibleRides` |
| `Inference.FilterRanked` | inference.py:43-74 | every kept name is an eligible ride, and every eligible ranked name is kept |
| `Inference.PickRides` | inference.py:26-76 | the loop returns the filtered ranking |
| `Inference.FilterKeepsOrder` | inference.py:43-74 | the kept names are a subsequence of the ranked names |
| `Inference.FilterIgnoresAge` | inference.py:50-51 | the visitor's age never changes the result |
| `Inference.GetRideWaitTime` | inference.py:78-83 | the value of the last digit run, None without a digit; stated by `WaitTimeMeaning`, `LastDigitRunMeaning` and `WaitTimeIsUpperBound` |
| `Inference.LastDigitRunMeaning` | inference.py:79-81 | the last run is absent exactly when the text has no digit; otherwise it is a maximal digit run with no digit after it |
| `Inference.WaitTimeMeaning` | inference.py:78-83 | the wait time is None exactly when the text has no digit |
| `Inference.WaitTimeIsUpperBound` | inference.py:78-81 | "lo-hi min" reads as hi, the upper bound |
| `Inference.WaitTimeExamples` | inference.py:78-83 | "10-30 min" gives 30; "Varies" gives None |
| `Inference.GreedyScan` | inference.py:94-106 | the inner loop as a function: a ride is taken when it fits what is left; stated by `GreedyScanStep`, `GreedyScanMembers`, `GreedyScanKeepsOrder`, `GreedyScanWithinBudget` and `NothingFitsNothingTaken` |
| `Inference.Trial` | inference.py:91-106 | the scan from offset i with nothing used yet; stated by `ScanFrom` and `TrialFits` |
| `Inference.GreedyScanStep` | inference.py:94-106 | one scan step takes a ride exactly when it still fits the budget |
| `Inference.GreedyScanMembers` | inference.py:94-104 | a scan only takes recommended rides |
| `Inference.GreedyScanKeepsOrder` | inference.py:94-104 | a scan's result is a subsequence of its input |
| `Inference.GreedyScanSchedulable` | inference.py:94-101 | every ride a scan takes is in the table and has a wait figure |
| `Inference.WithinBudgetCons` | inference.py:101-104 | a ride that fits, followed by rides whose running totals fit after it, gives running totals that all fit |
| `Inference.GreedyScanWithinBudget` | inference.py:101-104 | every prefix of a scan's result fits the budget |
| `Inference.NothingFitsNothingTaken` | inference.py:101-106 | when no ride fits, the scan is empty |
| `Inference.ScanFrom` | inference.py:92-106 | the inner loop builds the trial that starts at offset i |
| `Inference.TrialFits` | inference.py:92-106 | each trial is an in-order selection whose prefixes all fit the time at the park |
| `Inference.TrialDict` | inference.py:90-107 | the dict only holds recommended rides |
| `Inference.TrialDictHoldsTrials` | inference.py:91-107 | every offset's trial is in the dict, and every dict entry is some offset's trial |
| `Inference.TrialDictDistinct` | inference.py:107 | no trial appears in the dict twice |
| `Inference.TrialDictOrder` | inference.py:107 | the entries are in the order of first appearance among the start offsets |
| `Inference.MostRides` | inference.py:123-128 | the pick is empty or one of the trials |
| `Inference.PickMostRides` | inference.py:121-129 | the count loop returns the specified pick |
| `Inference.MostRidesMeaning` | inference.py:121-129 | the pick is a longest trial, and no later trial is as long |
| `Inference.AbsScoreSum` | inference.py:114-116 | a sum of absolute scores is never negative |
| `Inference.MostPopular` | inference.py:111-120 | the pick is empty or one of the trials |
| `Inference.PickMostPopular` | inference.py:111-120 | the popularity loop returns the specified pick |
| `Inference.MostPopularPicksTrial` | inference.py:111-120 | the pick is empty exactly when every trial is empty; otherwise it is a trial, and the best score is its sum |
| `Inference.MostPopularIsMax` | inference.py:111-120 | no trial has a larger absolute score sum than the pick |
| `Inference.MostPopularLastOfEqual` | inference.py:117-119 | among equal non-empty sums the last trial wins |
| `Inference.ItineraryFor` | inference.py:85-129 | the itinerary only holds recommended rides |
| `Inference.ItineraryForUser` | inference.py:85-129 | the builder returns the specified itinerary |
| `Inference.ItineraryIsFittingTrial` | inference.py:85-129 | the itinerary is empty when nothing is recommended, otherwise one offset's trial; its every prefix fits the time |
| `Inference.PickedTrialIndex` | inference.py:107-129 | for a non-empty recommendation the pick is the trial of some offset |
| `Inference.ItineraryIsBest` | inference.py:109-129 | no trial has more rides, or a larger absolute score sum under "popularity" |
| `RidePicker.MinuteOfDay` | ridepicker.py:33-34 | a 12-hour clock maps into 0..1439 with its hour mod 12, its minute, and PM exactly for the afternoon |
| `RidePicker.MinuteOfDayInjective` | ridepicker.py:33-34 | two valid clocks at the same minute of day are the same clock |
| `RidePicker.HourFieldMeaning` | ridepicker.py:28-33 | `%I:` is read exactly when one or two digits worth 1 to 12 come before a ':', and the hour read is the value of those digits |
| `RidePicker.MeridiemMeaning` | ridepicker.py:28-33 | `%p` reads PM exactly on "PM" and AM exactly on "AM", in either case |
| `RidePicker.MinuteAndMeridiemMeaning` | ridepicker.py:28-33 | `%M%p` matches exactly when one or two digits below 60 are followed by AM or PM; the two-digit reading wins; the result is the digits' value, the half of the day and the end of the meridiem |
| `RidePicker.MatchClockMeaning` | ridepicker.py:28-34 | the match at the start is clock c ending at e exactly when the first e characters spell c as "%I:%M%p" |
| `RidePicker.ParseClock` | ridepicker.py:33-37 | a parse succeeds exactly when the whole text matches, and gives the minute of the day of the clock matched |
| `RidePicker.ParseClockMeaning` | ridepicker.py:28-37 | a text whose whole length spells clock c reads as c's minute of the day, and every text that reads spells the clock it was read as |
| `RidePicker.LeadingZeroHourParses` | ridepicker.py:33 | "08:05AM" reads as 485 |
| `RidePicker.GetParkTime` | ridepicker.py:26-45 | Ok exactly when both normalised times parse; the result is in 0..1439 and reaches the end time on the same or the next day; errors carry the fixed prefix |
| `RidePicker.ParkTimeOfParsed` | ridepicker.py:40-45 | readable times give end − start, plus 1440 when the end is earlier |
| `RidePicker.ClockOfMinute` | ridepicker.py:33-34 | the 12-hour clock written for a minute of the day reads back as that minute |
| `RidePicker.SameTimeIsZero` | ridepicker.py:40-45 | the same readable time twice gives 0 minutes |
| `RidePicker.DigitChar` | ridepicker.py:33 | the digit written for d reads back as d |
| `RidePicker.ParseClockText` | ridepicker.py:28-34 | every minute of the day written as "H:MMAM/PM" parses back to itself |
| `RidePicker.Normalize` | ridepicker.py:30-31 | spaces removed and letters upper-cased; stated by `NormalizePlain`, `NormalizeSpacedMorning` and `NormalizeSpacedEvening` |
| `RidePicker.NormalizePlain` | ridepicker.py:30-31 | text without spaces or lower-case letters is left as it is |
| `RidePicker.NormalizeClockText` | ridepicker.py:30-31 | normalising a written clock changes nothing |
| `RidePicker.ParkTimeOfClockTexts` | ridepicker.py:26-45 | for two written clocks the park time is (end − start) mod 1440 |
| `RidePicker.ParkTimeOfReadable` | ridepicker.py:40-45 | two readable times give (end − start) mod 1440 |
| `RidePicker.ReadsAs` | ridepicker.py:30-34 | a written clock normalises to itself and parses to its minute |
| `RidePicker.DefaultParkTime` | ridepicker.py:40-45 | 8:00AM to 12:00AM is 960 minutes, across midnight |
| `RidePicker.OvernightParkTime` | ridepicker.py:41-42 | 10:00PM to 2:00AM wraps to 240 minutes |
| `RidePicker.SpacedMorningReads` | ridepicker.py:30-33 | " 8:00 am" reads as 480 |
| `RidePicker.SpacedEveningReads` | ridepicker.py:30-33 | "8:00 pm" reads as 1200 |
| `RidePicker.NormalizeSpacedMorning` | ridepicker.py:30 | " 8:00 am" normalises to "8:00AM" |
| `RidePicker.NormalizeSpacedEvening` | ridepicker.py:31 | "8:00 pm" normalises to "8:00PM" |
| `RidePicker.SpacedLowerCaseAccepted` | ridepicker.py:30-45 | spaces and lower case are accepted: " 8:00 am" to "8:00 pm" is 720 |
| `RidePicker.StartMismatchReported` | ridepicker.py:33-37 | an unmatched start time reports the "does not match format" message |
| `RidePicker.HourThirteenRejected` | ridepicker.py:33-37 | hour 13 is rejected with the mismatch message |
| `RidePicker.MissingMeridiemRejected` | ridepicker.py:33-37 | "8:00" without AM/PM is rejected |
| `RidePicker.SecondColonRejected` | ridepicker.py:33-37 | "10:00:AM" is rejected |
| `RidePicker.EndLeftoverReported` | ridepicker.py:34-37 | trailing text after a matched end time reports "unconverted data remains" with that text |
| `RidePicker.TrailingTextMatch` | ridepicker.py:34 | "8:00PMX" matches 8:00 PM and leaves "X" |
| `RidePicker.TrailingTextRejected` | ridepicker.py:34-37 | "8:00PMX" is rejected with the leftover "X" |
| `RidePicker.OneDigitMinuteAccepted` | ridepicker.py:33-45 | "8:5AM" reads the minute as 5 |
| `RidePicker.Names` | ridepicker.py:65 | the name column in ranking order |
| `RidePicker.ScorePairs` | ridepicker.py:65-69 | the (name, average) pairs in ranking order |
| `RidePicker.BuildScoreMap` | ridepicker.py:65-69 | the loop builds the name → average map of the ranking |
| `RidePicker.ScoreMapHoldsScores` | ridepicker.py:61-69 | the map's keys are exactly the ride names, each mapped to that ride's score |
| `RidePicker.RecommendedSchedulable` | ridepicker.py:77-88 | under the run's precondition every recommended ride has a wait figure, and the park time is Ok when anything is recommended |
| `RidePicker.RunAlgo` | ridepicker.py:60-89 | the itinerary is the pipeline applied to a sorted permutation of the search's rows |
| `RidePicker.RecommendedAreEligibleRides` | ridepicker.py:77-83 | a name is recommended exactly when it is a table ride meeting the visitor's height and categories; recommendations keep rank order |
| `RidePicker.Pipeline` | ridepicker.py:77-88 | the filter, then the builder with the park time, the score map and preference " "; stated by `PipelineMeaning`, `PipelineFitsParkTime` and `RecommendedAreEligibleRides` |
| `RidePicker.PipelineMeaning` | ridepicker.py:77-88 | every itinerary ride may be taken by the visitor, the itinerary keeps the ranking order and every ride has a wait figure; nothing recommended gives nothing |
| `RidePicker.ItineraryOfEligible` | ridepicker.py:88 | the builder keeps only recommended rides in order, so every ride it returns is eligible |
| `RidePicker.PipelineFitsParkTime` | ridepicker.py:85-88 | with a readable park time the running total fits after every ride, and no start offset gives a trial with more rides |
| `EvalMetricChecker.InchesToCm` | eval_metric_checker.py:11 | `round(NN * 2.54)`; stated by `InchesToCmNearest` and `HalvesGoToEven` |
| `EvalMetricChecker.RoundHundredthsNearest` | eval_metric_checker.py:11 | `round` of hundredths is the nearest whole number, a half going to the even one |
| `EvalMetricChecker.InchesToCmNearest` | eval_metric_checker.py:11 | NN inches convert to NN × 2.54 cm rounded to the nearest integer, halves to the even one |
| `EvalMetricChecker.HalvesGoToEven` | eval_metric_checker.py:11 | 25" gives 64 and 75" gives 190 |
| `EvalMetricChecker.ParseHeightRestriction` | eval_metric_checker.py:3-12 | "" and "none" ask nothing, "NN cm" gives NN, else `NN"` gives NN inches rounded, else nothing; stated by `NoneDemandsNothing`, `CmFigureFirst`, `InchesRounded`, `NoFigureNoRestriction` and `BareCmRead` |
| `EvalMetricChecker.NoCNoCm` | eval_metric_checker.py:6 | without a 'c' there is no centimetre match |
| `EvalMetricChecker.NoQuoteNoInches` | eval_metric_checker.py:9 | without '"' there is no inch match |
| `EvalMetricChecker.DigitFirstIsText` | eval_metric_checker.py:4 | text starting with a digit is neither empty nor "none" |
| `EvalMetricChecker.CmFigureFirst` | eval_metric_checker.py:6-8 | "NNcm…" reads as NN, even without parentheses |
| `EvalMetricChecker.InchesRounded` | eval_metric_checker.py:9-11 | `NN"` followed by no 'c' reads as NN inches rounded to cm |
| `EvalMetricChecker.NoFigureNoRestriction` | eval_metric_checker.py:12 | text with neither marker imposes no requirement |
| `EvalMetricChecker.NoneDemandsNothing` | eval_metric_checker.py:4-5 | "None" imposes no requirement |
| `EvalMetricChecker.CanRide` | eval_metric_checker.py:14-23 | refused when marked "under 7" for an unaccompanied visitor under 7, or when the height is below a parsed requirement; stated by `AccompaniedAgeIgnored`, `AgeRefusalMeaning` and `TallerMayRideToo` |
| `EvalMetricChecker.AccompaniedAgeIgnored` | eval_metric_checker.py:14-23 | when accompanied, age never matters, and a ride is allowed exactly when the height meets its parsed requirement |
| `EvalMetricChecker.AgeRefusalMeaning` | eval_metric_checker.py:16-18 | being unaccompanied only refuses a ride marked "under 7", for a visitor under 7 |
| `EvalMetricChecker.TallerMayRideToo` | eval_metric_checker.py:20-22 | a taller visitor may ride whatever a shorter one may |
| `EvalMetricChecker.AllRidable` | eval_metric_checker.py:27-35 | true exactly when every name is in the lookup and may be ridden |
| `EvalMetricChecker.VerifyItinerary` | eval_metric_checker.py:25-35 | true exactly when every itinerary name is a table ride the visitor may ride |
| `EvalMetricChecker.VerifyConcat` | eval_metric_checker.py:25-35 | a concatenation passes exactly when both parts pass |
| `EvalMetricChecker.FixtureLookup` | eval_metric_checker.py:26 | each fixture row is found under its own name |
| `EvalMetricChecker.FixtureItineraryVerifies` | eval_metric_checker.py:37-50 | the fixture itinerary passes for a 10-year-old 120 cm tall |
| `EvalMetricChecker.FixtureHeightIsCm` | eval_metric_checker.py:38 | `46" (117 cm)` reads as 117 |
| `EvalMetricChecker.FixtureHeightLimit` | eval_metric_checker.py:38 | the first fixture ride allows 120 cm and refuses 116 cm |
| `EvalMetricChecker.RoundingVersusTruncation` | eval_metric_checker.py:11 | the checker's rounded figure is the filter's truncated one or one more |
| `EvalMetricChecker.EmptyTextDisagrees` | eval_metric_checker.py:4-5 | "" asks nothing of the checker but is unreachable for the filter |
| `EvalMetricChecker.BareCmRead` | eval_metric_checker.py:6-8 | "120 cm" reads as 120 |
| `EvalMetricChecker.BareCmDisagrees` | eval_metric_checker.py:6-8 | "120 cm" is 120 for the checker but unreachable for the filter |
| `EvalMetricChecker.HalfInchDisagrees` | eval_metric_checker.py:9-11 | `25"` is 64 for the checker and 63 for the filter |
| `EvalMetricChecker.OppositeFallbacks` | eval_metric_checker.py:12 | unreadable text asks nothing of the checker but is unreachable for the filter |
| `EvalMetricChecker.FilterAdmitsWhatCheckerRefuses` | eval_metric_checker.py:20-22 | a 63 cm visitor passes the filter on a `25"` ride that the checker then refuses |

## Left out

- The command-line shell and the data loading are not modelled: `main.py`,
  `read_data` in `ridepicker.py`, `pretty_print_indexed_tabulate` and every
  console `print` are I/O.
- `MCTSNode.is_fully_expanded` and `MCTSNode.best_child` are not modelled;
  the search never calls them.
- Scores, averages and the 2.54 factor are exact reals and integers.
  IEEE-754 rounding is not modelled.
- Mcts.AvgWait: only whitespace-padded digit strings are read as numbers.
  Python's `float` also accepts signs, decimals, exponents, underscores,
  `inf` and `nan`. Any other part falls back to 30 in the model.
- Text handling is ASCII only: `\d`, `\s`, `strip`, `lower` and `upper` on
  other Unicode characters are not modelled.
- RidePicker.ParseClock: the error text quotes the input plainly. Python
  writes it with `repr`, which escapes quotes and control characters.
- A missing or non-text height cell is `None` in the model. Wait-time cells
  are always text. A NaN wait cell, on which `re.findall` raises, is left
  out.
- Ride indices are natural numbers, so `iloc` with a negative index is not
  modelled.
- Mcts.MonteCarloSearch: pandas' sort does not promise an order among equal
  averages. The contract therefore states only a sorted permutation, which
  every tie order satisfies.
- The `float('-inf')` average of an unvisited child is not modelled,
  because every child has at least one visit.
- `run_algo` always passes the preference " ". The "popularity" objective
  is modelled and proved, but the pipeline never uses it.
- The crash paths are preconditions, not error results:
  - RidePicker.RunAlgo requires a non-empty table;
  - every eligible ride must have a digit in its wait text;
  - the park time must parse whenever some ride is eligible.
- A missing popularity cell is not modelled: the popularity column is text.
  In the source a NaN cell is not in the map and weighs 1.
- Inference.ItineraryFor: under "popularity" it requires a score for every
  recommended ride. The source only reads the scores of rides inside some
  trial. The one caller builds its score map from the whole ranking, so it
  has a score for every ride.
- `preferred_categories` is a list of texts. The `isinstance` test on other
  types is not modelled.
