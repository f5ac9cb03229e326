/** The offline itinerary checker: its own height parser, the per-ride test
    and the test of a whole itinerary, with the fixture it ships with. Its
    parser differs from the one the filter uses; the last section states how. */
module EvalMetricChecker {
  import opened Wrappers
  import opened Text
  import opened Patterns
  import opened Dicts
  import Inference

  /** A fixture row: the three columns the checker reads. */
  datatype CheckedRide = CheckedRide(name: string, ageRestriction: string, heightRestriction: string)

  // ---------------------------------------------------------------------------
  // Height restrictions

  /** `round(inches * 2.54)`, worked out in hundredths of a centimetre. */
  function InchesToCm(inches: nat): nat {
    RoundHundredths(inches * 254)
  }

  /** Python's `round` of `h / 100`: an exact half goes to the even neighbour. */
  function RoundHundredths(h: nat): nat {
    var whole, rest := h / 100, h % 100;
    if rest < 50 then whole
    else if rest > 50 then whole + 1
    else if whole % 2 == 0 then whole
    else whole + 1
  }

  /** Rounding gives the nearest whole number, an exact half going to the even one. */
  lemma RoundHundredthsNearest(h: nat)
    ensures var n := RoundHundredths(h);
            -50 <= h - 100 * n <= 50 && ((h - 100 * n == 50 || h - 100 * n == -50) ==> n % 2 == 0)
  {
    var whole, rest := h / 100, h % 100;
    assert h == 100 * whole + rest;
    if rest == 50 && whole % 2 != 0 {
      assert (whole + 1) % 2 == 0;
    }
  }

  /** The conversion gives the nearest whole centimetre, an exact half going to
      the even neighbour. */
  lemma InchesToCmNearest(inches: nat)
    ensures var cm := InchesToCm(inches);
            -50 <= inches * 254 - 100 * cm <= 50 &&
            ((inches * 254 - 100 * cm == 50 || inches * 254 - 100 * cm == -50) ==> cm % 2 == 0)
  {
    RoundHundredthsNearest(inches * 254);
  }

  /** parse_height_restriction: the empty text and "none" (lower-cased only,
      not trimmed) demand nothing; "NN cm" anywhere, spaces allowed before
      "cm", gives NN; otherwise NN followed by a double quote gives NN inches
      rounded to centimetres; anything else demands nothing. */
  function ParseHeightRestriction(s: string): Option<nat> {
    if s == [] || Lower(s) == "none" then None
    else
      match Search(Cm, s)
      case Some(n) => Some(n)
      case None =>
        match Search(SpacedInchMark, s)
        case Some(n) => Some(InchesToCm(n))
        case None => None
  }

  /** Text without a 'c' holds no centimetre figure. */
  lemma NoCNoCm(s: string)
    requires 'c' !in s
    ensures Search(Cm, s) == None
  {
    var i := FirstMatch(Cm, s, 0);
  }

  /** Text without a double quote holds no inch figure. */
  lemma NoQuoteNoInches(s: string)
    requires '"' !in s
    ensures Search(SpacedInchMark, s) == None
  {
    var i := FirstMatch(SpacedInchMark, s, 0);
  }

  /** Text that starts with a digit is neither empty nor "none". */
  lemma DigitFirstIsText(s: string)
    requires s != [] && IsDigit(s[0])
    ensures s != [] && Lower(s) != "none"
  {
    assert Lower(s)[0] == s[0];
  }

  /** A centimetre figure at the front is read, whatever follows it. */
  lemma {:induction false} CmFigureFirst(d: string, rest: string)
    requires d != [] && AllDigits(d)
    ensures ParseHeightRestriction(d + "cm" + rest) == Some(NumberValue(d))
  {
    var s := d + "cm" + rest;
    assert s[0] == d[0];
    DigitFirstIsText(s);
    NumberThenAtStart(d, true, "cm", rest);
    assert FirstMatch(Cm, s, 0) == 0;
  }

  /** Inches alone are rounded to the nearest centimetre. */
  lemma {:induction false} InchesRounded(d: string, rest: string)
    requires d != [] && AllDigits(d) && 'c' !in rest
    ensures ParseHeightRestriction(d + "\"" + rest) == Some(InchesToCm(NumberValue(d)))
  {
    var s := d + "\"" + rest;
    assert s[0] == d[0];
    DigitFirstIsText(s);
    assert 'c' !in s by {
      forall k | 0 <= k < |s| ensures s[k] != 'c' {
        if k < |d| { assert s[k] == d[k]; }
        else if k > |d| { assert s[k] == rest[k - |d| - 1]; }
      }
    }
    NoCNoCm(s);
    NumberThenAtStart(d, true, "\"", rest);
    assert FirstMatch(SpacedInchMark, s, 0) == 0;
  }

  /** Text with no figure the patterns can read demands nothing. */
  lemma NoFigureNoRestriction(s: string)
    requires 'c' !in s && '"' !in s
    ensures ParseHeightRestriction(s) == None
  {
    NoCNoCm(s);
    NoQuoteNoInches(s);
  }

  /** The exact halves: 25 inches is 63.5 cm and goes up to 64; 75 inches is
      190.5 cm and goes down to 190. */
  lemma HalvesGoToEven()
    ensures InchesToCm(25) == 64 && InchesToCm(75) == 190
  {
  }

  // ---------------------------------------------------------------------------
  // The per-ride test

  /** can_ride: a ride whose age text mentions "under 7" turns away a child
      under 7 who is not accompanied; a ride with a readable minimum height
      turns away anyone shorter. */
  predicate CanRide(ride: CheckedRide, userAge: int, userHeight: int, accompanied: bool) {
    !(Contains(ride.ageRestriction, "under 7") && userAge < 7 && !accompanied) &&
    (ParseHeightRestriction(ride.heightRestriction).None? ||
     userHeight >= ParseHeightRestriction(ride.heightRestriction).value)
  }

  /** With the default `accompanied` the age never matters: only the height
      restriction can turn the user away. */
  lemma AccompaniedAgeIgnored(ride: CheckedRide, age1: int, age2: int, userHeight: int)
    ensures CanRide(ride, age1, userHeight, true) == CanRide(ride, age2, userHeight, true)
    ensures CanRide(ride, age1, userHeight, true) <==>
              match ParseHeightRestriction(ride.heightRestriction)
              case None => true
              case Some(m) => userHeight >= m
  {
  }

  /** Only an unaccompanied child under 7 on an "under 7" ride is turned away
      for age. */
  lemma AgeRefusalMeaning(ride: CheckedRide, userAge: int, userHeight: int)
    requires CanRide(ride, userAge, userHeight, true) && !CanRide(ride, userAge, userHeight, false)
    ensures userAge < 7 && Contains(ride.ageRestriction, "under 7")
  {
  }

  /** A taller user may take every ride a shorter one may. */
  lemma TallerMayRideToo(ride: CheckedRide, userAge: int, h1: int, h2: int, accompanied: bool)
    requires h1 <= h2 && CanRide(ride, userAge, h1, accompanied)
    ensures CanRide(ride, userAge, h2, accompanied)
  {
  }

  // ---------------------------------------------------------------------------
  // The itinerary test

  /** `{ride['Ride Name']: ride for ride in ride_data}`: a later row with the
      same name replaces an earlier one. */
  function Lookup(rideData: seq<CheckedRide>): map<string, CheckedRide> {
    FromPairs(seq(|rideData|, i requires 0 <= i < |rideData| => (rideData[i].name, rideData[i])))
  }

  /** The loop of verify_itinerary over the remaining names: the first name
      missing from the table or refused by the per-ride test ends it with false. */
  function AllRidable(names: seq<string>, lookup: map<string, CheckedRide>, userAge: int, userHeight: int): (ok: bool)
    ensures ok <==> forall k :: 0 <= k < |names| ==>
                      names[k] in lookup && CanRide(lookup[names[k]], userAge, userHeight, true)
    decreases |names|
  {
    if names == [] then true
    else if names[0] !in lookup then false
    else if !CanRide(lookup[names[0]], userAge, userHeight, true) then false
    else
      var rest := AllRidable(names[1..], lookup, userAge, userHeight);
      assert forall k :: 1 <= k < |names| ==> names[k] == names[1..][k - 1];
      rest
  }

  /** verify_itinerary, without its console messages. */
  function VerifyItinerary(itinerary: seq<string>, rideData: seq<CheckedRide>, userAge: int, userHeight: int): (ok: bool)
    ensures ok <==> forall k :: 0 <= k < |itinerary| ==>
                      itinerary[k] in Lookup(rideData) && CanRide(Lookup(rideData)[itinerary[k]], userAge, userHeight, true)
  {
    AllRidable(itinerary, Lookup(rideData), userAge, userHeight)
  }

  /** An itinerary passes exactly when both of its halves pass. */
  lemma VerifyConcat(a: seq<string>, b: seq<string>, rideData: seq<CheckedRide>, userAge: int, userHeight: int)
    ensures VerifyItinerary(a + b, rideData, userAge, userHeight) ==
            (VerifyItinerary(a, rideData, userAge, userHeight) && VerifyItinerary(b, rideData, userAge, userHeight))
  {
    var lookup := Lookup(rideData);
    if VerifyItinerary(a, rideData, userAge, userHeight) && VerifyItinerary(b, rideData, userAge, userHeight) {
      forall k | 0 <= k < |a + b| ensures (a + b)[k] in lookup && CanRide(lookup[(a + b)[k]], userAge, userHeight, true) {
        if k >= |a| { assert (a + b)[k] == b[k - |a|]; }
      }
    }
    if VerifyItinerary(a + b, rideData, userAge, userHeight) {
      forall k | 0 <= k < |b| ensures b[k] in lookup && CanRide(lookup[b[k]], userAge, userHeight, true) {
        assert (a + b)[|a| + k] == b[k];
      }
      forall k | 0 <= k < |a| ensures a[k] in lookup && CanRide(lookup[a[k]], userAge, userHeight, true) {
        assert (a + b)[k] == a[k];
      }
    }
  }

  // ---------------------------------------------------------------------------
  // The fixture

  const UnderSeven: string := "Children under 7 must be accompanied by 14+ year old"

  const FixtureRides: seq<CheckedRide> := [
    CheckedRide("Indiana Jones Adventure", UnderSeven, "46\" (117 cm)"),
    CheckedRide("Dumbo the Flying Elephant", UnderSeven, "None"),
    CheckedRide("Pinocchio's Daring Journey", UnderSeven, "None"),
    CheckedRide("Storybook Land Canal Boats", UnderSeven, "None"),
    CheckedRide("Snow White's Enchanted Wish", UnderSeven, "None"),
    CheckedRide("Casey Jr. Circus Train", UnderSeven, "None")
  ]

  const FixtureItinerary: seq<string> := [
    "Pinocchio's Daring Journey", "Storybook Land Canal Boats",
    "Snow White's Enchanted Wish", "Casey Jr. Circus Train"
  ]

  lemma NoneDemandsNothing()
    ensures ParseHeightRestriction("None") == None
  {
    assert Lower("None") == "none";
  }

  /** The fixture's rows have distinct names, so the lookup holds each row. */
  lemma FixtureLookup()
    ensures forall i :: 0 <= i < |FixtureRides| ==>
              FixtureRides[i].name in Lookup(FixtureRides) && Lookup(FixtureRides)[FixtureRides[i].name] == FixtureRides[i]
  {
    var ps := seq(|FixtureRides|, i requires 0 <= i < |FixtureRides| => (FixtureRides[i].name, FixtureRides[i]));
    FromPairsLastWins(ps);
    forall i | 0 <= i < |FixtureRides|
      ensures FixtureRides[i].name in Lookup(FixtureRides) && Lookup(FixtureRides)[FixtureRides[i].name] == FixtureRides[i]
    {
      assert ps[i].0 == FixtureRides[i].name;
      assert forall j :: i < j < |ps| ==> ps[j].0 != ps[i].0;
    }
  }

  /** The shipped check: a 10-year-old of 120 cm may take the fixture itinerary. */
  lemma FixtureItineraryVerifies()
    ensures VerifyItinerary(FixtureItinerary, FixtureRides, 10, 120)
  {
    FixtureLookup();
    NoneDemandsNothing();
    forall k | 0 <= k < |FixtureItinerary|
      ensures FixtureItinerary[k] in Lookup(FixtureRides) &&
              CanRide(Lookup(FixtureRides)[FixtureItinerary[k]], 10, 120, true)
    {
      assert FixtureItinerary[k] == FixtureRides[k + 2].name;
    }
  }

  /** The centimetre figure of '46" (117 cm)' is read, not the inches. */
  lemma FixtureHeightIsCm()
    ensures ParseHeightRestriction("46\" (117 cm)") == Some(117)
  {
    FixtureHeightPieces();
    CmFigureAfter("46\" (", "117", " ", ")");
    DigitFirstIsText("46\" (117 cm)");
  }

  /** '46" (117 cm)' is an inch figure and an opening parenthesis, then 117 cm. */
  lemma FixtureHeightPieces()
    ensures "46\" (" + ("117" + " " + "cm" + ")") == "46\" (117 cm)"
    ensures NumberValue("117") == 117
  {
    ThreeDigitValue("117");
  }

  /** The fixture user may also take the one ride with a height limit; a user
      shorter than 117 cm may not. */
  lemma FixtureHeightLimit()
    ensures CanRide(FixtureRides[0], 10, 120, true)
    ensures !CanRide(FixtureRides[0], 10, 116, true)
  {
    FixtureHeightIsCm();
  }

  // ---------------------------------------------------------------------------
  // Where this parser and the filter's parser disagree

  /** Rounding and truncation of inches differ by at most one centimetre, and
      rounding never gives less. */
  lemma RoundingVersusTruncation(inches: nat)
    ensures inches * 254 / 100 <= InchesToCm(inches) <= inches * 254 / 100 + 1
  {
  }

  /** The empty text: no restriction for the checker, unreachable for the filter. */
  lemma EmptyTextDisagrees()
    ensures ParseHeightRestriction("") == None && Inference.ParseHeightToCm(Some("")) == Inference.Unreachable
  {
    Inference.EmptyTextUnreachable();
  }

  /** A centimetre figure without parentheses is read by the checker. */
  lemma BareCmRead()
    ensures ParseHeightRestriction("120 cm") == Some(120)
  {
    var s := "120 cm";
    DigitFirstIsText(s);
    NumberThenFinds(s, 0, 3, 4, true, "cm");
    assert s[0..3] == "120";
    ThreeDigitValue("120");
    assert FirstMatch(Cm, s, 0) == 0;
  }

  /** A centimetre figure without parentheses: read by the checker, unreachable
      for the filter. */
  lemma BareCmDisagrees()
    ensures ParseHeightRestriction("120 cm") == Some(120) &&
            Inference.ParseHeightToCm(Some("120 cm")) == Inference.Unreachable
  {
    BareCmRead();
    Inference.BareCmUnreachable();
  }

  /** 25 inches: 64 cm for the checker, 63 cm for the filter. */
  lemma HalfInchDisagrees()
    ensures ParseHeightRestriction("25\"") == Some(64) && Inference.ParseHeightToCm(Some("25\"")) == Inference.AtLeast(63)
  {
    Inference.HalfInchTruncated();
    InchesRounded("25", "");
    assert "25" + "\"" + "" == "25\"";
    assert NumberValue("25") == 25 by { assert "25"[..1] == "2" && "2"[..0] == ""; }
    HalvesGoToEven();
  }

  /** Text with no figure at all: the filter's parser makes the ride
      unreachable, the checker's parser imposes nothing. */
  lemma OppositeFallbacks(s: string)
    requires '(' !in s && '"' !in s && 'c' !in s
    requires Lower(Strip(s)) != "none"
    ensures ParseHeightRestriction(s) == None
    ensures Inference.ParseHeightToCm(Some(s)) == Inference.Unreachable
  {
    NoFigureNoRestriction(s);
    Inference.UnmarkedIsUnreachable(s);
  }

  /** The filter admits a 63 cm user to a ride marked 25 inches, and the
      checker turns the same user away from it. */
  lemma FilterAdmitsWhatCheckerRefuses(name: string, age: int)
    ensures Inference.HeightAllows(Some(63), Inference.ParseHeightToCm(Some("25\"")))
    ensures !CanRide(CheckedRide(name, "", "25\""), age, 63, true)
  {
    HalfInchDisagrees();
  }
}
