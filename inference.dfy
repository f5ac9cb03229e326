/** The filtering and scheduling half of the pipeline: the height parser the
    filter uses, the details map, the eligibility filter, the wait-time reader
    and the itinerary builder. */
module Inference {
  import opened Wrappers
  import opened Text
  import opened Patterns
  import opened Seqs
  import opened Dicts
  import opened RideTable

  // ---------------------------------------------------------------------------
  // Height restrictions

  /** A minimum height in centimetres. `Unreachable` is the positive infinity
      the parser returns for text it cannot read: no height satisfies it. */
  datatype MinHeight = AtLeast(cm: nat) | Unreachable

  /** The minimum height a restriction text demands. A missing cell or the
      text "none" (after trimming, any case) demands nothing; a parenthesised
      "(NN cm)" gives NN; otherwise NN followed by a double quote gives NN
      inches, converted and truncated; anything else cannot be met. */
  function ParseHeightToCm(height: Option<string>): MinHeight {
    match height
    case None => AtLeast(0)
    case Some(s) =>
      if Lower(Strip(s)) == "none" then AtLeast(0)
      else
        match Search(ParenCm, s)
        case Some(n) => AtLeast(n)
        case None =>
          match Search(InchMark, s)
          case Some(n) => AtLeast(n * 254 / 100)
          case None => Unreachable
  }

  /** A text that does not start with whitespace or a letter N is not "none". */
  lemma NotNoneText(s: string)
    requires s != [] && !IsSpace(s[0]) && s[0] != 'n' && s[0] != 'N'
    ensures Lower(Strip(s)) != "none"
  {
    StripKeepsFirst(s);
    assert Lower(Strip(s))[0] == LowerChar(s[0]);
  }

  /** No '(' means the parenthesised pattern finds nothing. */
  lemma NoParenNoMatch(s: string)
    requires '(' !in s
    ensures Search(ParenCm, s) == None
  {
    var i := FirstMatch(ParenCm, s, 0);
  }

  /** A parenthesised centimetre figure at the front wins, whatever follows it. */
  lemma {:induction false} ParenthesisedCmWins(d: string, rest: string)
    requires d != [] && AllDigits(d)
    ensures ParseHeightToCm(Some("(" + d + " cm)" + rest)) == AtLeast(NumberValue(d))
  {
    var s := "(" + d + " cm)" + rest;
    NotNoneText(s);
    NumberThenFinds(s, 1, 1 + |d|, 2 + |d|, true, "cm)");
    assert s[1..1 + |d|] == d;
    assert FirstMatch(ParenCm, s, 0) == 0;
  }

  /** The fixture's format `46" (117 cm)`: the centimetre figure wins over the inches. */
  lemma CmFigureBeatsInches()
    ensures ParseHeightToCm(Some("46\" (117 cm)")) == AtLeast(117)
  {
    NotNoneText("46\" (117 cm)");
    FixtureHeightPieces();
    ParenFigureAfter("46\" ", "117", " ", "");
  }

  /** Where the inch figure ends and the centimetre figure starts in `46" (117 cm)`. */
  lemma FixtureHeightPieces()
    ensures "46\" " + "(" + ("117" + " " + "cm)" + "") == "46\" (117 cm)"
    ensures NumberValue("117") == 117
  {
    ThreeDigitValue("117");
  }

  /** Inches alone are converted at 2.54 cm per inch and truncated, not rounded. */
  lemma {:induction false} InchesTruncated(d: string, rest: string)
    requires d != [] && AllDigits(d) && '(' !in rest
    ensures ParseHeightToCm(Some(d + "\"" + rest)) == AtLeast(NumberValue(d) * 254 / 100)
  {
    var s := d + "\"" + rest;
    NotNoneText(s);
    assert '(' !in s by {
      forall k | 0 <= k < |s| ensures s[k] != '(' {
        if k > |d| { assert s[k] == rest[k - |d| - 1]; }
      }
    }
    NoParenNoMatch(s);
    NumberThenFinds(s, 0, |d|, |d|, false, "\"");
    assert s[0..|d|] == d;
    assert FirstMatch(InchMark, s, 0) == 0;
  }

  /** Text with neither '(' nor '"' that is not "none" cannot be met. */
  lemma {:induction false} UnmarkedIsUnreachable(s: string)
    requires '(' !in s && '"' !in s && Lower(Strip(s)) != "none"
    ensures ParseHeightToCm(Some(s)) == Unreachable
  {
    NoParenNoMatch(s);
    var i := FirstMatch(InchMark, s, 0);
  }

  /** The empty text cannot be met. */
  lemma EmptyTextUnreachable()
    ensures ParseHeightToCm(Some("")) == Unreachable
  {
    assert Strip("") == "";
    UnmarkedIsUnreachable("");
  }

  /** A centimetre figure without parentheses cannot be met. */
  lemma BareCmUnreachable()
    ensures ParseHeightToCm(Some("120 cm")) == Unreachable
  {
    NotNoneText("120 cm");
    UnmarkedIsUnreachable("120 cm");
  }

  /** A missing cell demands nothing. */
  lemma MissingCellDemandsNothing()
    ensures ParseHeightToCm(None) == AtLeast(0)
  {
  }

  /** "none" in any case and with surrounding spaces demands nothing. */
  lemma SpacedNoneDemandsNothing()
    ensures ParseHeightToCm(Some(" NoNe ")) == AtLeast(0)
  {
    assert StripLeft(" NoNe ") == "NoNe ";
    assert StripRight("NoNe ") == "NoNe";
    assert Lower("NoNe") == "none";
  }

  /** 25 inches is 63.5 cm, truncated to 63. */
  lemma HalfInchTruncated()
    ensures ParseHeightToCm(Some("25\"")) == AtLeast(63)
  {
    InchesTruncated("25", "");
    assert "25" + "\"" + "" == "25\"";
    assert NumberValue("25") == 25 by { assert "25"[..1] == "2" && "2"[..0] == ""; }
  }

  // ---------------------------------------------------------------------------
  // Ride details and the eligibility filter

  /** The details map: ride name to the last table row with that name. */
  function RideDetails(rides: seq<Ride>): map<string, Ride> {
    FromPairs(NameRowPairs(rides))
  }

  /** get_ride_details_map */
  method GetRideDetailsMap(rides: seq<Ride>) returns (details: map<string, Ride>)
    ensures details == RideDetails(rides)
  {
    details := map[];
    for i := 0 to |rides|
      invariant details == FromPairs(NameRowPairs(rides)[..i])
    {
      assert NameRowPairs(rides)[..i + 1] == NameRowPairs(rides)[..i] + [(rides[i].name, rides[i])];
      FromPairsSnoc(NameRowPairs(rides)[..i], rides[i].name, rides[i]);
      details := details[rides[i].name := rides[i]];
    }
    assert NameRowPairs(rides)[..|rides|] == NameRowPairs(rides);
  }

  /** Every name of the table is a key, nothing else is, and a name holds the
      last row that carries it. */
  lemma RideDetailsMeaning(rides: seq<Ride>)
    ensures forall name :: name in RideDetails(rides) <==> exists i :: 0 <= i < |rides| && rides[i].name == name
    ensures forall i :: 0 <= i < |rides| && (forall j :: i < j < |rides| ==> rides[j].name != rides[i].name) ==>
              RideDetails(rides)[rides[i].name] == rides[i]
  {
    var ps := NameRowPairs(rides);
    FromPairsLastWins(ps);
    forall name ensures name in RideDetails(rides) <==> exists i :: 0 <= i < |rides| && rides[i].name == name {
      if name in RideDetails(rides) {
        var i :| 0 <= i < |ps| && ps[i].0 == name;
        assert rides[i].name == name;
      }
      if exists i :: 0 <= i < |rides| && rides[i].name == name {
        var i :| 0 <= i < |rides| && rides[i].name == name;
        assert ps[i].0 == name;
      }
    }
    forall i | 0 <= i < |rides| && (forall j :: i < j < |rides| ==> rides[j].name != rides[i].name)
      ensures RideDetails(rides)[rides[i].name] == rides[i]
    {
      assert forall j :: i < j < |ps| ==> ps[j].0 == rides[j].name;
      assert ps[i] == (rides[i].name, rides[i]);
    }
  }

  /** The user's height meets the requirement; no height given means no check. */
  predicate HeightAllows(userHeight: Option<int>, required: MinHeight) {
    match userHeight
    case None => true
    case Some(h) => required.AtLeast? && h >= required.cm
  }

  /** An empty preference list admits every category. */
  predicate CategoryAllows(preferred: seq<string>, category: string) {
    |preferred| == 0 || category in preferred
  }

  /** The filter's test for one ranked name. The user's age is accepted and not consulted. */
  predicate Eligible(details: map<string, Ride>, name: string, userAge: Option<int>,
                     userHeight: Option<int>, preferred: seq<string>)
  {
    name in details &&
    HeightAllows(userHeight, ParseHeightToCm(details[name].heightRestriction)) &&
    CategoryAllows(preferred, details[name].category)
  }

  /** The ranked names that pass, in ranked order. */
  function FilterRanked(details: map<string, Ride>, names: seq<string>, userAge: Option<int>,
                        userHeight: Option<int>, preferred: seq<string>): (kept: seq<string>)
    ensures forall k :: 0 <= k < |kept| ==> Eligible(details, kept[k], userAge, userHeight, preferred)
    ensures forall k :: 0 <= k < |names| && Eligible(details, names[k], userAge, userHeight, preferred) ==>
              names[k] in kept
    decreases |names|
  {
    if names == [] then []
    else
      var last := names[|names| - 1];
      FilterRanked(details, names[..|names| - 1], userAge, userHeight, preferred) +
      (if Eligible(details, last, userAge, userHeight, preferred) then [last] else [])
  }

  /** pick_rides_based_on_constraints */
  method PickRides(rides: seq<Ride>, rankedNames: seq<string>, userAge: Option<int>,
                   userHeight: Option<int>, preferred: seq<string>)
    returns (kept: seq<string>)
    ensures kept == FilterRanked(RideDetails(rides), rankedNames, userAge, userHeight, preferred)
  {
    var details := GetRideDetailsMap(rides);
    kept := [];
    for i := 0 to |rankedNames|
      invariant kept == FilterRanked(details, rankedNames[..i], userAge, userHeight, preferred)
    {
      assert rankedNames[..i + 1][..i] == rankedNames[..i];
      var name := rankedNames[i];
      if name !in details {
        continue;
      }
      var passes := true;
      if userAge.Some? {
        // the age check does nothing
      }
      if userHeight.Some? {
        var required := ParseHeightToCm(details[name].heightRestriction);
        if required.Unreachable? || userHeight.value < required.cm {
          passes := false;
        }
      }
      if !passes {
        continue;
      }
      if |preferred| > 0 && details[name].category !in preferred {
        passes := false;
      }
      if !passes {
        continue;
      }
      kept := kept + [name];
    }
    assert rankedNames[..|rankedNames|] == rankedNames;
  }

  /** The filter keeps ranked order: its output is a subsequence of the ranking. */
  lemma {:induction false} FilterKeepsOrder(details: map<string, Ride>, names: seq<string>, userAge: Option<int>,
                                            userHeight: Option<int>, preferred: seq<string>)
    ensures IsSubsequence(FilterRanked(details, names, userAge, userHeight, preferred), names)
    decreases |names|
  {
    if names == [] {
      EmptySubsequence(names);
    } else {
      var init := names[..|names| - 1];
      var last := names[|names| - 1];
      FilterKeepsOrder(details, init, userAge, userHeight, preferred);
      var keep := Eligible(details, last, userAge, userHeight, preferred);
      var prev := FilterRanked(details, init, userAge, userHeight, preferred);
      assert init + [last] == names;
      if keep {
        SubsequenceSnoc(prev, init, last, true);
        assert FilterRanked(details, names, userAge, userHeight, preferred) == prev + [last];
      } else {
        SubsequenceSnoc(prev, init, last, false);
        assert FilterRanked(details, names, userAge, userHeight, preferred) == prev;
      }
    }
  }

  /** Age never changes what the filter keeps. */
  lemma {:induction false} FilterIgnoresAge(details: map<string, Ride>, names: seq<string>, age1: Option<int>,
                                            age2: Option<int>, userHeight: Option<int>, preferred: seq<string>)
    ensures FilterRanked(details, names, age1, userHeight, preferred) ==
            FilterRanked(details, names, age2, userHeight, preferred)
    decreases |names|
  {
    if names != [] {
      FilterIgnoresAge(details, names[..|names| - 1], age1, age2, userHeight, preferred);
    }
  }

  // ---------------------------------------------------------------------------
  // Wait times

  /** The start of the run of digits that ends at `j`. */
  function DigitRunStart(s: string, j: nat): (i: nat)
    requires j <= |s|
    ensures i <= j
    ensures forall k :: i <= k < j ==> IsDigit(s[k])
    ensures i == 0 || !IsDigit(s[i - 1])
  {
    if j > 0 && IsDigit(s[j - 1]) then DigitRunStart(s, j - 1) else j
  }

  /** The bounds of the last maximal run of digits in `s`. */
  function LastDigitRun(s: string): Option<(nat, nat)> {
    if s == [] then None
    else if IsDigit(s[|s| - 1]) then Some((DigitRunStart(s, |s| - 1), |s|))
    else LastDigitRun(s[..|s| - 1])
  }

  /** The run found is absent exactly when the text has no digit; otherwise it
      is a maximal run of digits with no digit after it. */
  lemma {:induction false} LastDigitRunMeaning(s: string)
    ensures LastDigitRun(s).None? <==> forall k :: 0 <= k < |s| ==> !IsDigit(s[k])
    ensures var r := LastDigitRun(s);
            r.Some? ==> r.value.0 < r.value.1 <= |s| &&
                        (forall k :: r.value.0 <= k < r.value.1 ==> IsDigit(s[k])) &&
                        (r.value.0 == 0 || !IsDigit(s[r.value.0 - 1])) &&
                        (forall k :: r.value.1 <= k < |s| ==> !IsDigit(s[k]))
    decreases |s|
  {
    if s != [] && !IsDigit(s[|s| - 1]) {
      var p := s[..|s| - 1];
      LastDigitRunMeaning(p);
      assert forall k :: 0 <= k < |p| ==> p[k] == s[k];
    }
  }

  /** get_ride_wait_time: the last number in the text, or None when it has no digit. */
  function GetRideWaitTime(s: string): Option<nat> {
    match LastDigitRun(s)
    case None => None
    case Some((i, j)) =>
      LastDigitRunMeaning(s);
      Some(NumberValue(s[i..j]))
  }

  /** The wait time is missing exactly when the text has no digit. */
  lemma WaitTimeMeaning(s: string)
    ensures GetRideWaitTime(s).None? <==> forall k :: 0 <= k < |s| ==> !IsDigit(s[k])
  {
    LastDigitRunMeaning(s);
  }

  /** For a range "lo-hi min" the wait time read is the upper bound. */
  lemma {:induction false} WaitTimeIsUpperBound(lo: string, hi: string)
    requires lo != [] && AllDigits(lo) && hi != [] && AllDigits(hi)
    ensures GetRideWaitTime(lo + "-" + hi + " min") == Some(NumberValue(hi))
  {
    var s := lo + "-" + hi + " min";
    var n := |lo| + 1 + |hi|;
    assert s[n..] == " min";
    assert !IsDigit(s[n]) && !IsDigit(s[n + 1]) && !IsDigit(s[n + 2]) && !IsDigit(s[n + 3]);
    LastDigitRunMeaning(s);
    var r := LastDigitRun(s);
    assert IsDigit(s[n - 1]);
    var (i, j) := r.value;
    assert j == n;
    assert s[|lo|] == '-';
    assert s[i..j] == hi;
  }

  lemma WaitTimeExamples()
    ensures GetRideWaitTime("10-30 min") == Some(30)
    ensures GetRideWaitTime("Varies") == None
  {
    WaitTimeIsUpperBound("10", "30");
    assert "10" + "-" + "30" + " min" == "10-30 min";
    assert NumberValue("30") == 30 by {
      assert "30"[..1] == "3";
      assert NumberValue("3") == 3 by { assert "3"[..0] == ""; }
    }
    var v := "Varies";
    assert forall k :: 0 <= k < |v| ==> !IsDigit(v[k]);
    WaitTimeMeaning(v);
  }

  // ---------------------------------------------------------------------------
  // The itinerary builder

  /** What the builder needs to run without a crash: every candidate is in the
      table and its wait text holds a number. */
  predicate Schedulable(details: map<string, Ride>, names: seq<string>) {
    forall k {:trigger Timed(details, names[k])} :: 0 <= k < |names| ==> Timed(details, names[k])
  }

  /** The ride is in the table and its wait text holds a number. */
  predicate Timed(details: map<string, Ride>, name: string) {
    name in details && GetRideWaitTime(details[name].waitTime).Some?
  }

  lemma SchedulableSuffix(details: map<string, Ride>, names: seq<string>, j: nat)
    requires Schedulable(details, names) && j <= |names|
    ensures Schedulable(details, names[j..])
  {
    forall k | 0 <= k < |names[j..]| ensures names[j..][k] == names[j + k] { }
  }

  /** Minutes one ride takes: its duration plus the upper bound of its wait. */
  function RideTime(details: map<string, Ride>, name: string): int
    requires Timed(details, name)
  {
    details[name].duration + GetRideWaitTime(details[name].waitTime).value
  }

  /** Minutes a sequence of rides takes. */
  function TotalTime(details: map<string, Ride>, names: seq<string>): int
    requires Schedulable(details, names)
    decreases |names|
  {
    if names == [] then 0 else RideTime(details, names[0]) + TotalTime(details, names[1..])
  }

  /** The greedy forward scan: a ride is taken when it still fits in the
      budget after `used` minutes, and skipped otherwise. */
  function GreedyScan(details: map<string, Ride>, names: seq<string>, budget: int, used: int): (trial: seq<string>)
    requires Schedulable(details, names)
    decreases |names|
  {
    if names == [] then []
    else
      var t := RideTime(details, names[0]);
      if used + t <= budget then [names[0]] + GreedyScan(details, names[1..], budget, used + t)
      else GreedyScan(details, names[1..], budget, used)
  }

  /** One step of the scan, spelled out. */
  lemma GreedyScanStep(details: map<string, Ride>, names: seq<string>, budget: int, used: int)
    requires Schedulable(details, names) && names != []
    ensures Schedulable(details, names[1..])
    ensures var t := RideTime(details, names[0]);
            GreedyScan(details, names, budget, used) ==
              if used + t <= budget then [names[0]] + GreedyScan(details, names[1..], budget, used + t)
              else GreedyScan(details, names[1..], budget, used)
  {
    SchedulableSuffix(details, names, 1);
  }

  /** A scan takes only candidates, so what it takes can be scheduled. */
  lemma GreedyScanSchedulable(details: map<string, Ride>, names: seq<string>, budget: int, used: int)
    requires Schedulable(details, names)
    ensures Schedulable(details, GreedyScan(details, names, budget, used))
  {
    GreedyScanMembers(details, names, budget, used);
    var r := GreedyScan(details, names, budget, used);
    forall k | 0 <= k < |r| ensures Timed(details, r[k]) {
      assert r[k] in r;
      var j :| 0 <= j < |names| && names[j] == r[k];
    }
  }

  /** A scan takes only candidates. */
  lemma {:induction false} GreedyScanMembers(details: map<string, Ride>, names: seq<string>, budget: int, used: int)
    requires Schedulable(details, names)
    ensures forall x :: x in GreedyScan(details, names, budget, used) ==> x in names
    decreases |names|
  {
    if names != [] {
      GreedyScanStep(details, names, budget, used);
      var t := RideTime(details, names[0]);
      GreedyScanMembers(details, names[1..], budget, if used + t <= budget then used + t else used);
    }
  }

  /** The trial itinerary that starts scanning at candidate `i`. */
  function Trial(details: map<string, Ride>, recs: seq<string>, budget: int, i: nat): seq<string>
    requires Schedulable(details, recs) && i <= |recs|
  {
    GreedyScan(details, recs[i..], budget, 0)
  }

  /** The trials in start-offset order, one per candidate. */
  function AllTrials(details: map<string, Ride>, recs: seq<string>, budget: int): seq<seq<string>>
    requires Schedulable(details, recs)
  {
    seq(|recs|, i requires 0 <= i < |recs| => Trial(details, recs, budget, i))
  }

  /** The trial dict `all_itineary`, keyed by `str(trial)`: a list of strings
      prints differently from every other list, so the key is the trial itself,
      and an equal trial found again keeps its first position. */
  function TrialDict(details: map<string, Ride>, recs: seq<string>, budget: int): (dict: seq<seq<string>>)
    requires Schedulable(details, recs)
    ensures forall t, x :: t in dict && x in t ==> x in recs
  {
    var all := AllTrials(details, recs, budget);
    DedupMembers(all);
    forall i | 0 <= i < |recs| ensures forall x :: x in all[i] ==> x in recs {
      SchedulableSuffix(details, recs, i);
      GreedyScanMembers(details, recs[i..], budget, 0);
    }
    Dedup(all)
  }

  /** The count objective: `(max_num, res)` after scanning the dict in order,
      where a trial at least as long as the best so far replaces it. */
  function MostRides(trials: seq<seq<string>>): (r: (nat, seq<string>))
    ensures r.1 == [] || r.1 in trials
    decreases |trials|
  {
    if trials == [] then (0, [])
    else
      var (m, res) := MostRides(trials[..|trials| - 1]);
      var t := trials[|trials| - 1];
      if |t| >= m then (|t|, t) else (m, res)
  }

  function Abs(x: real): real {
    if x < 0.0 then -x else x
  }

  /** The sum of |score| over the rides of a trial. */
  function AbsScoreSum(scores: map<string, real>, t: seq<string>): (total: real)
    requires forall x :: x in t ==> x in scores
    ensures total >= 0.0
    decreases |t|
  {
    if t == [] then 0.0 else AbsScoreSum(scores, t[..|t| - 1]) + Abs(scores[t[|t| - 1]])
  }

  /** `score >= max_score`, where `None` is minus infinity. */
  predicate Reaches(x: real, best: Option<real>) {
    best.None? || x >= best.value
  }

  /** The popularity objective: `(max_score, res)` after scanning the dict in
      order, where a non-empty trial whose total reaches the best so far
      replaces it. */
  function MostPopular(scores: map<string, real>, trials: seq<seq<string>>): (r: (Option<real>, seq<string>))
    requires forall t, x :: t in trials && x in t ==> x in scores
    ensures r.1 == [] || r.1 in trials
    decreases |trials|
  {
    if trials == [] then (None, [])
    else
      var (best, res) := MostPopular(scores, trials[..|trials| - 1]);
      var t := trials[|trials| - 1];
      if t != [] && Reaches(AbsScoreSum(scores, t), best) then (Some(AbsScoreSum(scores, t)), t) else (best, res)
  }

  /** The whole builder. The budget is read only when there is a candidate. */
  function ItineraryFor(timeAtPark: Result<int, string>, details: map<string, Ride>, recs: seq<string>,
                        scores: map<string, real>, preference: string): (r: seq<string>)
    requires recs != [] ==> timeAtPark.Ok?
    requires Schedulable(details, recs)
    requires preference == "popularity" ==> forall x :: x in recs ==> x in scores
    ensures forall x :: x in r ==> x in recs
  {
    var budget := if timeAtPark.Ok? then timeAtPark.value else 0;
    var trials := TrialDict(details, recs, budget);
    if preference == "popularity" then MostPopular(scores, trials).1 else MostRides(trials).1
  }

  /** The count objective's selection loop. */
  method PickMostRides(trials: seq<seq<string>>) returns (res: seq<string>)
    ensures res == MostRides(trials).1
  {
    var maxNum := 0;
    res := [];
    for k := 0 to |trials|
      invariant (maxNum, res) == MostRides(trials[..k])
    {
      assert trials[..k + 1][..k] == trials[..k];
      var temp := |trials[k]|;
      if temp >= maxNum {
        maxNum := temp;
        res := trials[k];
      }
    }
    assert trials[..|trials|] == trials;
  }

  /** The popularity objective's selection loop. As in the source the test sits
      inside the loop over a trial's rides, so it compares running (prefix)
      sums; because every term is non-negative this selects the same trial as
      comparing totals. */
  method PickMostPopular(scores: map<string, real>, trials: seq<seq<string>>) returns (res: seq<string>)
    requires forall t, x :: t in trials && x in t ==> x in scores
    ensures res == MostPopular(scores, trials).1
  {
    var maxScore: Option<real> := None;
    res := [];
    for k := 0 to |trials|
      invariant (maxScore, res) == MostPopular(scores, trials[..k])
    {
      assert trials[..k + 1][..k] == trials[..k];
      var t := trials[k];
      assert t in trials;
      var score := 0.0;
      ghost var before := (maxScore, res);
      for j := 0 to |t|
        invariant score == AbsScoreSum(scores, t[..j])
        invariant j == 0 ==> (maxScore, res) == before
        invariant j > 0 && Reaches(score, before.0) ==> maxScore == Some(score) && res == t
        invariant j > 0 && !Reaches(score, before.0) ==> (maxScore, res) == before
      {
        assert t[..j + 1][..j] == t[..j];
        assert t[j] in t;
        score := score + Abs(scores[t[j]]);
        if maxScore.None? || score >= maxScore.value {
          maxScore := Some(score);
          res := t;
        }
      }
      assert t[..|t|] == t;
    }
    assert trials[..|trials|] == trials;
  }

  /** The scan's loop invariant carried over one candidate. */
  lemma ScanFromStep(details: map<string, Ride>, recs: seq<string>, budget: int, j: nat,
                     cur: seq<string>, used: int)
    requires Schedulable(details, recs) && j < |recs|
    ensures Schedulable(details, recs[j..]) && Schedulable(details, recs[j + 1..])
    ensures var t := RideTime(details, recs[j]);
            cur + GreedyScan(details, recs[j..], budget, used) ==
              if used + t <= budget then (cur + [recs[j]]) + GreedyScan(details, recs[j + 1..], budget, used + t)
              else cur + GreedyScan(details, recs[j + 1..], budget, used)
  {
    SchedulableSuffix(details, recs, j);
    assert recs[j..][0] == recs[j] && recs[j..][1..] == recs[j + 1..];
    GreedyScanStep(details, recs[j..], budget, used);
    var t := RideTime(details, recs[j]);
    if used + t <= budget {
      var rest := GreedyScan(details, recs[j + 1..], budget, used + t);
      assert cur + ([recs[j]] + rest) == (cur + [recs[j]]) + rest;
    }
  }

  /** The inner loop of the builder: one greedy scan from offset `i`. */
  method ScanFrom(details: map<string, Ride>, recommended: seq<string>, budget: int, i: nat)
    returns (cur: seq<string>)
    requires Schedulable(details, recommended) && i <= |recommended|
    ensures cur == Trial(details, recommended, budget, i)
  {
    cur := [];
    var timeCompleted := 0;
    SchedulableSuffix(details, recommended, i);
    ghost var target := Trial(details, recommended, budget, i);
    assert [] + GreedyScan(details, recommended[i..], budget, 0) == target;
    for j := i to |recommended|
      invariant Schedulable(details, recommended[j..])
      invariant cur + GreedyScan(details, recommended[j..], budget, timeCompleted) == target
    {
      var name := recommended[j];
      // duration plus the wait time read from the table
      var rideTotalTime := RideTime(details, name);
      ScanFromStep(details, recommended, budget, j, cur, timeCompleted);
      if timeCompleted + rideTotalTime <= budget {
        cur := cur + [name];
        timeCompleted := timeCompleted + rideTotalTime;
      } else {
        continue;
      }
    }
    assert recommended[|recommended|..] == [];
    assert cur + [] == cur;
  }

  /** ride_itineary_for_user */
  method ItineraryForUser(timeAtPark: Result<int, string>, rides: seq<Ride>, recommended: seq<string>,
                          scores: map<string, real>, preference: string)
    returns (itinerary: seq<string>)
    requires recommended != [] ==> timeAtPark.Ok?
    requires Schedulable(RideDetails(rides), recommended)
    requires preference == "popularity" ==> forall x :: x in recommended ==> x in scores
    ensures itinerary == ItineraryFor(timeAtPark, RideDetails(rides), recommended, scores, preference)
  {
    var details := GetRideDetailsMap(rides);
    var budget := if timeAtPark.Ok? then timeAtPark.value else 0;
    var allItinerary: seq<seq<string>> := [];
    for i := 0 to |recommended|
      invariant allItinerary == Dedup(AllTrials(details, recommended, budget)[..i])
    {
      var cur := ScanFrom(details, recommended, budget, i);
      ghost var all := AllTrials(details, recommended, budget);
      assert all[..i + 1][..i] == all[..i] && all[..i + 1][i] == cur;
      if cur !in allItinerary {
        allItinerary := allItinerary + [cur];
      }
    }
    assert AllTrials(details, recommended, budget)[..|recommended|] == AllTrials(details, recommended, budget);
    assert allItinerary == TrialDict(details, recommended, budget);
    if preference == "popularity" {
      itinerary := PickMostPopular(scores, allItinerary);
    } else {
      itinerary := PickMostRides(allItinerary);
    }
  }

  // ---------------------------------------------------------------------------
  // What the builder promises

  /** A greedy scan keeps the candidates' order. */
  lemma {:induction false} GreedyScanKeepsOrder(details: map<string, Ride>, names: seq<string>, budget: int, used: int)
    requires Schedulable(details, names)
    ensures IsSubsequence(GreedyScan(details, names, budget, used), names)
    ensures Schedulable(details, GreedyScan(details, names, budget, used))
    decreases |names|
  {
    var r := GreedyScan(details, names, budget, used);
    if names == [] {
      EmptySubsequence(names);
    } else {
      var t := RideTime(details, names[0]);
      GreedyScanStep(details, names, budget, used);
      assert [names[0]] + names[1..] == names;
      var used' := if used + t <= budget then used + t else used;
      var rest := GreedyScan(details, names[1..], budget, used');
      GreedyScanKeepsOrder(details, names[1..], budget, used');
      SubsequenceCons(rest, names[1..], names[0], used + t <= budget);
      if used + t <= budget {
        assert r == [names[0]] + rest;
        assert forall k :: 1 <= k < |r| ==> r[k] == rest[k - 1];
      }
    }
  }

  /** After each ride a greedy scan takes, the minutes used so far stay within the budget. */
  lemma {:induction false} GreedyScanWithinBudget(details: map<string, Ride>, names: seq<string>, budget: int, used: int)
    requires Schedulable(details, names)
    ensures Schedulable(details, GreedyScan(details, names, budget, used))
    ensures var r := GreedyScan(details, names, budget, used);
            forall k :: 0 < k <= |r| ==> used + TotalTime(details, r[..k]) <= budget
    decreases |names|
  {
    GreedyScanSchedulable(details, names, budget, used);
    var r := GreedyScan(details, names, budget, used);
    if names != [] {
      var t := RideTime(details, names[0]);
      GreedyScanStep(details, names, budget, used);
      if used + t <= budget {
        var rest := GreedyScan(details, names[1..], budget, used + t);
        GreedyScanWithinBudget(details, names[1..], budget, used + t);
        assert r == [names[0]] + rest;
        WithinBudgetCons(details, names[0], rest, budget, used);
      } else {
        GreedyScanWithinBudget(details, names[1..], budget, used);
      }
    }
  }

  /** A ride that fits, followed by rides whose running totals fit after it,
      gives running totals that all fit. */
  lemma WithinBudgetCons(details: map<string, Ride>, x: string, rest: seq<string>, budget: int, used: int)
    requires Timed(details, x) && Schedulable(details, rest)
    requires used + RideTime(details, x) <= budget
    requires forall k :: 0 < k <= |rest| ==> used + RideTime(details, x) + TotalTime(details, rest[..k]) <= budget
    ensures Schedulable(details, [x] + rest)
    ensures forall k :: 0 < k <= |rest| + 1 ==> used + TotalTime(details, ([x] + rest)[..k]) <= budget
  {
    assert forall k :: 0 < k <= |rest| ==> ([x] + rest)[k] == rest[k - 1];
    forall k | 0 < k <= |rest| + 1 ensures used + TotalTime(details, ([x] + rest)[..k]) <= budget {
      TotalTimePrefixCons(details, x, rest, k);
      if k == 1 {
        assert rest[..0] == [];
      }
    }
  }

  /** The time of a prefix of `[x] + rest` is the time of `x` plus that of a prefix of `rest`. */
  lemma TotalTimePrefixCons(details: map<string, Ride>, x: string, rest: seq<string>, k: nat)
    requires Schedulable(details, [x] + rest) && 0 < k <= |rest| + 1
    ensures Timed(details, x)
    ensures Schedulable(details, rest[..k - 1])
    ensures TotalTime(details, ([x] + rest)[..k]) == RideTime(details, x) + TotalTime(details, rest[..k - 1])
  {
    var s := [x] + rest;
    assert s[0] == x;
    assert forall m :: 0 <= m < |rest| ==> rest[m] == s[m + 1];
    assert s[..k][0] == x && s[..k][1..] == rest[..k - 1];
  }

  /** When no candidate fits in what is left of the budget, the scan takes nothing
      (for instance a budget of 0 with rides that all take time). */
  lemma {:induction false} NothingFitsNothingTaken(details: map<string, Ride>, names: seq<string>, budget: int, used: int)
    requires Schedulable(details, names)
    requires forall x :: x in names ==> used + RideTime(details, x) > budget
    ensures GreedyScan(details, names, budget, used) == []
    decreases |names|
  {
    if names != [] {
      GreedyScanStep(details, names, budget, used);
      assert names[0] in names;
      assert forall x :: x in names[1..] ==> x in names;
      NothingFitsNothingTaken(details, names[1..], budget, used);
    }
  }

  /** The trial dict holds exactly the trials. */
  lemma TrialDictHoldsTrials(details: map<string, Ride>, recs: seq<string>, budget: int)
    requires Schedulable(details, recs)
    ensures forall i :: 0 <= i < |recs| ==> Trial(details, recs, budget, i) in TrialDict(details, recs, budget)
    ensures forall k :: 0 <= k < |TrialDict(details, recs, budget)| ==>
              exists i :: 0 <= i < |recs| && TrialDict(details, recs, budget)[k] == Trial(details, recs, budget, i)
  {
    var all := AllTrials(details, recs, budget);
    assert TrialDict(details, recs, budget) == Dedup(all);
    DedupMembers(all);
    forall i | 0 <= i < |recs| ensures Trial(details, recs, budget, i) in Dedup(all) {
      assert all[i] == Trial(details, recs, budget, i);
    }
    forall k | 0 <= k < |Dedup(all)|
      ensures exists i :: 0 <= i < |recs| && Dedup(all)[k] == Trial(details, recs, budget, i)
    {
      var i :| 0 <= i < |all| && all[i] == Dedup(all)[k];
      assert all[i] == Trial(details, recs, budget, i);
    }
  }

  /** Each trial appears in the dict once. */
  lemma TrialDictDistinct(details: map<string, Ride>, recs: seq<string>, budget: int)
    requires Schedulable(details, recs)
    ensures forall p, q :: 0 <= p < q < |TrialDict(details, recs, budget)| ==>
              TrialDict(details, recs, budget)[p] != TrialDict(details, recs, budget)[q]
  {
    DedupDistinct(AllTrials(details, recs, budget));
  }

  /** The dict keeps the trials in the order of their first appearance among the
      start offsets: an entry before another first appears at an earlier offset. */
  lemma TrialDictOrder(details: map<string, Ride>, recs: seq<string>, budget: int)
    requires Schedulable(details, recs)
    ensures forall p, q, j :: 0 <= p < q < |TrialDict(details, recs, budget)| && 0 <= j < |recs| &&
                              Trial(details, recs, budget, j) == TrialDict(details, recs, budget)[q] ==>
              exists i :: 0 <= i < j && Trial(details, recs, budget, i) == TrialDict(details, recs, budget)[p]
  {
    var all := AllTrials(details, recs, budget);
    var dict := TrialDict(details, recs, budget);
    assert dict == Dedup(all);
    DedupFirstOccurrence(all);
    forall p, q, j | 0 <= p < q < |dict| && 0 <= j < |recs| && Trial(details, recs, budget, j) == dict[q]
      ensures exists i :: 0 <= i < j && Trial(details, recs, budget, i) == dict[p]
    {
      assert all[j] == dict[q];
      var i :| 0 <= i < j && all[i] == dict[p];
      assert all[i] == Trial(details, recs, budget, i);
    }
  }

  /** The count objective picks a longest trial, the last one in dict order
      among equally long ones. */
  lemma {:induction false} MostRidesMeaning(trials: seq<seq<string>>)
    ensures MostRides(trials).0 == |MostRides(trials).1|
    ensures forall t :: t in trials ==> |t| <= |MostRides(trials).1|
    ensures trials != [] ==> exists k :: 0 <= k < |trials| && trials[k] == MostRides(trials).1 &&
                                         forall l :: k < l < |trials| ==> |trials[l]| < |MostRides(trials).1|
    decreases |trials|
  {
    if trials != [] {
      var init := trials[..|trials| - 1];
      MostRidesMeaning(init);
      var t := trials[|trials| - 1];
      var res := MostRides(trials).1;
      assert trials == init + [t];
      if |t| < MostRides(init).0 {
        var k :| 0 <= k < |init| && init[k] == MostRides(init).1 &&
                 forall l :: k < l < |init| ==> |init[l]| < |MostRides(init).1|;
        assert trials[k] == res;
      } else {
        assert trials[|trials| - 1] == res;
      }
    }
  }

  /** The popularity objective returns one of the trials together with its
      total, and returns no trial (and no best total) exactly when every
      trial is empty. */
  lemma {:induction false} MostPopularPicksTrial(scores: map<string, real>, trials: seq<seq<string>>)
    requires forall t, x :: t in trials && x in t ==> x in scores
    ensures var (best, res) := MostPopular(scores, trials);
            (res == [] <==> forall t :: t in trials ==> t == []) &&
            (res == [] ==> best.None?) &&
            (res != [] ==> res in trials && best == Some(AbsScoreSum(scores, res)))
    decreases |trials|
  {
    if trials != [] {
      var init := trials[..|trials| - 1];
      var t := trials[|trials| - 1];
      assert trials == init + [t];
      MostPopularPicksTrial(scores, init);
      var (best0, res0) := MostPopular(scores, init);
      assert best0.Some? ==> res0 != [];
    }
  }

  /** No trial has a larger total |score| than the one picked. */
  lemma {:induction false} MostPopularIsMax(scores: map<string, real>, trials: seq<seq<string>>)
    requires forall t, x :: t in trials && x in t ==> x in scores
    ensures var res := MostPopular(scores, trials).1;
            forall t :: t in trials ==> AbsScoreSum(scores, t) <= AbsScoreSum(scores, res)
    decreases |trials|
  {
    if trials != [] {
      var init := trials[..|trials| - 1];
      var t := trials[|trials| - 1];
      assert trials == init + [t];
      MostPopularIsMax(scores, init);
      MostPopularPicksTrial(scores, init);
      var (best0, res0) := MostPopular(scores, init);
      assert forall u :: u in init ==> u == [] || res0 != [];
      assert AbsScoreSum(scores, []) == 0.0;
    }
  }

  /** Among trials with the largest total the last one in dict order wins: no
      non-empty trial after the picked one reaches its total. */
  lemma {:induction false} MostPopularLastOfEqual(scores: map<string, real>, trials: seq<seq<string>>)
    requires forall t, x :: t in trials && x in t ==> x in scores
    ensures var res := MostPopular(scores, trials).1;
            res != [] ==> exists k :: 0 <= k < |trials| && trials[k] == res &&
                           forall l :: k < l < |trials| && trials[l] != [] ==>
                             AbsScoreSum(scores, trials[l]) < AbsScoreSum(scores, res)
    decreases |trials|
  {
    if trials != [] {
      var init := trials[..|trials| - 1];
      var t := trials[|trials| - 1];
      assert trials == init + [t];
      assert forall u :: u in init ==> u in trials;
      MostPopularLastOfEqual(scores, init);
      MostPopularPicksTrial(scores, init);
      var (best0, res0) := MostPopular(scores, init);
      var res := MostPopular(scores, trials).1;
      if t != [] && Reaches(AbsScoreSum(scores, t), best0) {
        assert trials[|trials| - 1] == res;
      } else if res0 != [] {
        assert res == res0 && best0 == Some(AbsScoreSum(scores, res0));
        var k :| 0 <= k < |init| && init[k] == res0 &&
                 forall l :: k < l < |init| && init[l] != [] ==> AbsScoreSum(scores, init[l]) < AbsScoreSum(scores, res0);
        forall l | k < l < |trials| && trials[l] != []
          ensures AbsScoreSum(scores, trials[l]) < AbsScoreSum(scores, res)
        {
          if l < |init| {
            assert trials[l] == init[l];
          }
        }
        assert trials[k] == res;
      }
    }
  }

  /** A subsequence of a suffix is a subsequence of the whole. */
  lemma SubsequenceOfSuffix(a: seq<string>, b: seq<string>, i: nat)
    requires i <= |b| && IsSubsequence(a, b[i..])
    ensures IsSubsequence(a, b)
  {
    var idx: seq<nat> :| Embeds(idx, a, b[i..]);
    var idx' := seq(|idx|, k requires 0 <= k < |idx| => idx[k] + i);
    assert Embeds(idx', a, b);
  }

  /** The builder returns one of the trials (none when there is no candidate):
      an ordered subsequence of the candidates whose running total of minutes
      never exceeds the time at the park. */
  lemma ItineraryIsFittingTrial(timeAtPark: Result<int, string>, details: map<string, Ride>, recs: seq<string>,
                                scores: map<string, real>, preference: string)
    requires recs != [] ==> timeAtPark.Ok?
    requires Schedulable(details, recs)
    requires preference == "popularity" ==> forall x :: x in recs ==> x in scores
    ensures var r := ItineraryFor(timeAtPark, details, recs, scores, preference);
            (recs == [] ==> r == []) &&
            (recs != [] ==> exists i :: 0 <= i < |recs| && r == Trial(details, recs, timeAtPark.value, i))
    ensures var r := ItineraryFor(timeAtPark, details, recs, scores, preference);
            IsSubsequence(r, recs) && Schedulable(details, r) &&
            forall k :: 0 < k <= |r| ==> TotalTime(details, r[..k]) <= timeAtPark.value
  {
    var r := ItineraryFor(timeAtPark, details, recs, scores, preference);
    if recs == [] {
      EmptySubsequence(recs);
    } else {
      var budget := timeAtPark.value;
      assert timeAtPark == Ok(budget);
      var i := PickedTrialIndex(details, recs, budget, scores, preference);
      TrialFits(details, recs, budget, i);
    }
  }

  /** Every trial is an ordered subsequence of the candidates whose running
      total of minutes never exceeds the budget. */
  lemma TrialFits(details: map<string, Ride>, recs: seq<string>, budget: int, i: nat)
    requires Schedulable(details, recs) && i <= |recs|
    ensures var t := Trial(details, recs, budget, i);
            IsSubsequence(t, recs) && Schedulable(details, t) &&
            forall k :: 0 < k <= |t| ==> TotalTime(details, t[..k]) <= budget
  {
    SchedulableSuffix(details, recs, i);
    GreedyScanKeepsOrder(details, recs[i..], budget, 0);
    GreedyScanWithinBudget(details, recs[i..], budget, 0);
    var t := Trial(details, recs, budget, i);
    SubsequenceOfSuffix(t, recs, i);
    forall k | 0 < k <= |t| ensures TotalTime(details, t[..k]) <= budget {
      assert 0 + TotalTime(details, GreedyScan(details, recs[i..], budget, 0)[..k]) <= budget;
    }
  }

  /** The start offset whose trial the builder returns. */
  lemma PickedTrialIndex(details: map<string, Ride>, recs: seq<string>, budget: int,
                         scores: map<string, real>, preference: string) returns (i: nat)
    requires recs != [] && Schedulable(details, recs)
    requires preference == "popularity" ==> forall x :: x in recs ==> x in scores
    ensures i < |recs| && ItineraryFor(Ok(budget), details, recs, scores, preference) == Trial(details, recs, budget, i)
  {
    var r := ItineraryFor(Ok(budget), details, recs, scores, preference);
    var trials := TrialDict(details, recs, budget);
    TrialDictHoldsTrials(details, recs, budget);
    assert Trial(details, recs, budget, 0) in trials;
    if preference == "popularity" {
      MostPopularPicksTrial(scores, trials);
      if r == [] {
        i := 0;
        return;
      }
    } else {
      MostRidesMeaning(trials);
    }
    var k :| 0 <= k < |trials| && trials[k] == r;
    i :| 0 <= i < |recs| && trials[k] == Trial(details, recs, budget, i);
  }

  /** The builder's result is best for its objective: under any preference but
      "popularity" no trial has more rides; under "popularity" no trial has a
      larger total |score|. */
  lemma ItineraryIsBest(timeAtPark: Result<int, string>, details: map<string, Ride>, recs: seq<string>,
                        scores: map<string, real>, preference: string)
    requires recs != [] ==> timeAtPark.Ok?
    requires Schedulable(details, recs)
    requires preference == "popularity" ==> forall x :: x in recs ==> x in scores
    ensures var r := ItineraryFor(timeAtPark, details, recs, scores, preference);
            preference != "popularity" ==>
              forall i :: 0 <= i < |recs| ==> |Trial(details, recs, timeAtPark.value, i)| <= |r|
    ensures var r := ItineraryFor(timeAtPark, details, recs, scores, preference);
            preference == "popularity" ==>
              forall i :: 0 <= i < |recs| ==>
                (forall x :: x in Trial(details, recs, timeAtPark.value, i) ==> x in scores) &&
                AbsScoreSum(scores, Trial(details, recs, timeAtPark.value, i)) <= AbsScoreSum(scores, r)
  {
    if recs != [] {
      var budget := timeAtPark.value;
      var trials := TrialDict(details, recs, budget);
      TrialDictHoldsTrials(details, recs, budget);
      if preference == "popularity" {
        MostPopularIsMax(scores, trials);
      } else {
        MostRidesMeaning(trials);
      }
    }
  }
}
