/** The command-line side of the pipeline: the park-time calculator and
    `run_algo`, which ranks the rides, builds the score map, filters the
    ranking for the user and builds the itinerary. */
module RidePicker {
  import opened Wrappers
  import opened Text
  import opened Seqs
  import opened Dicts
  import opened RideTable
  import opened Mcts
  import opened Inference

  // ---------------------------------------------------------------------------
  // Reading a clock time with the format "%I:%M%p"

  /** A clock reading as the format reads it: the hour as written (1 to 12),
      the minute and the half of the day. */
  datatype Clock = Clock(hour: nat, minute: nat, pm: bool)

  predicate ValidClock(c: Clock) {
    1 <= c.hour <= 12 && c.minute < 60
  }

  /** Minutes after midnight: 12 AM is hour 0, 12 PM is noon, and every other
      PM hour is 12 hours later than written. */
  function MinuteOfDay(c: Clock): (m: int)
    requires ValidClock(c)
    ensures 0 <= m < 1440
    ensures m / 60 % 12 == c.hour % 12 && m % 60 == c.minute && (m >= 720 <==> c.pm)
  {
    var hour24 := if c.pm then (if c.hour == 12 then 12 else c.hour + 12)
                  else (if c.hour == 12 then 0 else c.hour);
    hour24 * 60 + c.minute
  }

  /** `%I` followed by the literal ':'. The hour alternatives are `1[0-2]`,
      `0[1-9]` and `[1-9]`, tried in that order; only one of them can be
      followed by ':'. The result is the hour and the position of the ':'. */
  function HourField(s: string): (r: Option<(nat, nat)>)
    ensures r.Some? ==> 1 <= r.value.0 <= 12 && (r.value.1 == 1 || r.value.1 == 2) &&
                        r.value.1 < |s| && s[r.value.1] == ':' && AllDigits(s[..r.value.1])
  {
    if |s| >= 3 && s[2] == ':' && s[0] == '1' && '0' <= s[1] <= '2' then Some((10 + DigitValue(s[1]), 2))
    else if |s| >= 3 && s[2] == ':' && s[0] == '0' && '1' <= s[1] <= '9' then Some((DigitValue(s[1]), 2))
    else if |s| >= 2 && s[1] == ':' && '1' <= s[0] <= '9' then Some((DigitValue(s[0]), 1))
    else None
  }

  /** `%p` at position `k`: "AM" or "PM" in either case; `true` for PM. */
  function Meridiem(s: string, k: nat): (r: Option<bool>)
    ensures r.Some? ==> k + 2 <= |s| && UpperChar(s[k + 1]) == 'M' &&
                        UpperChar(s[k]) == (if r.value then 'P' else 'A')
  {
    if k + 2 <= |s| && UpperChar(s[k + 1]) == 'M' then
      if UpperChar(s[k]) == 'A' then Some(false)
      else if UpperChar(s[k]) == 'P' then Some(true)
      else None
    else None
  }

  /** `%M%p` from position `k`. The minute alternatives are `[0-5]\d` and
      `\d`: the two-digit form is taken when a meridiem follows it, else the
      one-digit form when a meridiem follows that. The result is the minute,
      the half of the day and where the match ends. */
  function MinuteAndMeridiem(s: string, k: nat): (r: Option<(nat, bool, nat)>)
    ensures r.Some? ==> r.value.0 < 60 && r.value.2 <= |s|
  {
    if k + 2 <= |s| && '0' <= s[k] <= '5' && IsDigit(s[k + 1]) && Meridiem(s, k + 2).Some? then
      Some((10 * DigitValue(s[k]) + DigitValue(s[k + 1]), Meridiem(s, k + 2).value, k + 4))
    else if k < |s| && IsDigit(s[k]) && Meridiem(s, k + 1).Some? then
      Some((DigitValue(s[k]), Meridiem(s, k + 1).value, k + 3))
    else None
  }

  /** The match of "%I:%M%p" at the start of `s`: the clock it reads and the
      position where the match ends. */
  function MatchClock(s: string): (r: Option<(Clock, nat)>)
    ensures r.Some? ==> ValidClock(r.value.0) && r.value.1 <= |s|
  {
    match HourField(s)
    case None => None
    case Some((hour, colon)) =>
      match MinuteAndMeridiem(s, colon + 1)
      case None => None
      case Some((minute, pm, end)) => Some((Clock(hour, minute, pm), end))
  }

  const TimeFormat: string := "%I:%M%p"

  /** The error text for a time that does not match at its start. */
  function MismatchMessage(s: string): string {
    "time data '" + s + "' does not match format '" + TimeFormat + "'"
  }

  /** The error text for text left over after the match. */
  function LeftoverMessage(rest: string): string {
    "unconverted data remains: " + rest
  }

  /** `datetime.strptime(s, "%I:%M%p")` as the minute of the day, or the
      message of the ValueError it raises: no match at the start, or text
      left over after the match. */
  function ParseClock(s: string): (r: Result<int, string>)
    ensures r.Ok? ==> 0 <= r.value < 1440
    ensures r.Ok? <==> MatchClock(s).Some? && MatchClock(s).value.1 == |s|
    ensures r.Ok? ==> r.value == MinuteOfDay(MatchClock(s).value.0)
  {
    match MatchClock(s)
    case None => Err(MismatchMessage(s))
    case Some((clock, end)) =>
      if end < |s| then Err(LeftoverMessage(s[end..])) else Ok(MinuteOfDay(clock))
  }

  // ---------------------------------------------------------------------------
  // What the format accepts, stated on the characters

  /** `s` starts with the digits of an hour from 1 to 12, one or two of them,
      followed by ':' at position `colon`. */
  predicate HourDigits(s: string, colon: nat) {
    (colon == 1 || colon == 2) && colon < |s| && s[colon] == ':' &&
    AllDigits(s[..colon]) && 1 <= NumberValue(s[..colon]) <= 12
  }

  /** One or two digits at `k` spell a minute below 60, and AM or PM follows them. */
  predicate MinuteDigits(s: string, k: nat, n: nat) {
    (n == 1 || n == 2) && k + n <= |s| && AllDigits(s[k..k + n]) &&
    NumberValue(s[k..k + n]) < 60 && Meridiem(s, k + n).Some?
  }

  /** The first `end` characters of `s` spell clock `c` as "%I:%M%p". */
  predicate SpellsClock(s: string, c: Clock, end: nat) {
    var colon := if 1 < |s| && s[1] == ':' then 1 else 2;
    HourDigits(s, colon) && NumberValue(s[..colon]) == c.hour &&
    colon + 4 <= end <= colon + 5 && MinuteDigits(s, colon + 1, end - colon - 3) &&
    NumberValue(s[colon + 1..end - 2]) == c.minute && Meridiem(s, end - 2) == Some(c.pm)
  }

  /** The hour field is read exactly when one or two digits worth 1 to 12
      come before a ':', and the hour read is the value of those digits. */
  lemma HourFieldMeaning(s: string)
    ensures HourField(s).Some? <==> HourDigits(s, 1) || HourDigits(s, 2)
    ensures HourField(s).Some? ==>
              HourDigits(s, HourField(s).value.1) && HourField(s).value.0 == NumberValue(s[..HourField(s).value.1])
  {
    if |s| >= 1 && IsDigit(s[0]) {
      assert AllDigits(s[..1]) && s[..1][0] == s[0];
      OneDigitValue(s[..1]);
    }
    if |s| >= 2 && IsDigit(s[0]) && IsDigit(s[1]) {
      assert AllDigits(s[..2]) && s[..2][0] == s[0] && s[..2][1] == s[1];
      TwoDigitValue(s[..2]);
    }
  }

  /** `%p` reads PM exactly on "PM" and AM exactly on "AM", in either case. */
  lemma MeridiemMeaning(s: string, k: nat, pm: bool)
    ensures Meridiem(s, k) == Some(pm) <==> k + 2 <= |s| && Upper(s[k..k + 2]) == (if pm then "PM" else "AM")
  {
    if k + 2 <= |s| {
      var u := Upper(s[k..k + 2]);
      assert u[0] == UpperChar(s[k]) && u[1] == UpperChar(s[k + 1]);
      if u == (if pm then "PM" else "AM") {
        assert u[0] == (if pm then 'P' else 'A') && u[1] == 'M';
      }
    }
  }

  /** `%M%p` matches exactly when a minute of one or two digits below 60 is
      followed by AM or PM; the two-digit reading wins, and the result is the
      value of those digits, the half of the day and the end of the meridiem. */
  lemma MinuteAndMeridiemMeaning(s: string, k: nat)
    ensures MinuteAndMeridiem(s, k).Some? <==> MinuteDigits(s, k, 1) || MinuteDigits(s, k, 2)
    ensures MinuteAndMeridiem(s, k).Some? ==>
              var (minute, pm, end) := MinuteAndMeridiem(s, k).value;
              k + 3 <= end <= k + 4 && MinuteDigits(s, k, end - k - 2) &&
              minute == NumberValue(s[k..end - 2]) && Meridiem(s, end - 2) == Some(pm)
    ensures MinuteDigits(s, k, 1) ==> MinuteAndMeridiem(s, k).value.2 == k + 3
    ensures MinuteDigits(s, k, 2) ==> MinuteAndMeridiem(s, k).value.2 == k + 4
  {
    if MinuteDigits(s, k, 1) {
      assert !IsDigit(s[k + 1]);
      if k + 2 <= |s| {
        assert s[k..k + 2][1] == s[k + 1];
      }
    }
    if k < |s| && IsDigit(s[k]) {
      assert AllDigits(s[k..k + 1]) && s[k..k + 1][0] == s[k];
      OneDigitValue(s[k..k + 1]);
    }
    if k + 2 <= |s| && IsDigit(s[k]) && IsDigit(s[k + 1]) {
      assert AllDigits(s[k..k + 2]) && s[k..k + 2][0] == s[k] && s[k..k + 2][1] == s[k + 1];
      TwoDigitValue(s[k..k + 2]);
    }
  }

  /** The hour field, when read, ends at the one ':' position a clock can have. */
  lemma ColonPosition(s: string)
    ensures HourDigits(s, 1) || HourDigits(s, 2) ==> HourDigits(s, if 1 < |s| && s[1] == ':' then 1 else 2)
  {
    if HourDigits(s, 2) {
      assert IsDigit(s[..2][1]);
    }
  }

  /** "%I:%M%p" matches at the start of `s` with clock `c`, ending at `end`,
      exactly when the first `end` characters spell `c`. */
  lemma MatchClockMeaning(s: string, c: Clock, end: nat)
    ensures MatchClock(s) == Some((c, end)) <==> SpellsClock(s, c, end)
  {
    HourFieldMeaning(s);
    ColonPosition(s);
    var colon := if 1 < |s| && s[1] == ':' then 1 else 2;
    if HourDigits(s, colon) {
      MatchClockAfterHour(s, colon, c, end);
    }
  }

  lemma MatchClockAfterHour(s: string, colon: nat, c: Clock, end: nat)
    requires HourField(s).Some? && HourField(s).value.1 == colon
    requires HourDigits(s, colon) && HourField(s).value.0 == NumberValue(s[..colon])
    requires colon == if 1 < |s| && s[1] == ':' then 1 else 2
    ensures MatchClock(s) == Some((c, end)) <==> SpellsClock(s, c, end)
  {
    var k := colon + 1;
    MinuteAndMeridiemMeaning(s, k);
    var r := MinuteAndMeridiem(s, k);
    if r.Some? {
      var (minute, pm, e) := r.value;
      assert MatchClock(s) == Some((Clock(HourField(s).value.0, minute, pm), e));
      if SpellsClock(s, c, end) {
        assert MinuteDigits(s, k, end - k - 2);
        assert e == end;
      }
    } else {
      assert MatchClock(s).None?;
    }
  }

  /** A text is read as a minute of the day exactly when the whole text
      spells a clock, and the minute read is that clock's. */
  lemma ParseClockMeaning(s: string, c: Clock)
    ensures SpellsClock(s, c, |s|) ==> ValidClock(c) && ParseClock(s) == Ok(MinuteOfDay(c))
    ensures ParseClock(s).Ok? ==> SpellsClock(s, MatchClock(s).value.0, |s|)
  {
    MatchClockMeaning(s, c, |s|);
    if ParseClock(s).Ok? {
      MatchClockMeaning(s, MatchClock(s).value.0, |s|);
    }
  }

  /** A leading zero in the hour is read. */
  lemma LeadingZeroHourParses()
    ensures ParseClock("08:05AM") == Ok(485)
  {
    assert HourField("08:05AM") == Some((8, 2));
    assert MinuteAndMeridiem("08:05AM", 3) == Some((5, false, 7));
  }

  /** `s.replace(" ", "").upper()` */
  function Normalize(s: string): string {
    Upper(ReplaceAll(s, " ", ""))
  }

  const FormatError: string := "Error: Invalid time format. Please use HH:MM AM/PM. Details: "

  /** get_park_time: the minutes from the start time to the end time, the
      end taken on the next day when it is earlier than the start; or the
      error text for the first time that cannot be read. */
  function GetParkTime(startTime: string, endTime: string): (r: Result<int, string>)
    ensures r.Ok? <==> ParseClock(Normalize(startTime)).Ok? && ParseClock(Normalize(endTime)).Ok?
    ensures r.Ok? ==> 0 <= r.value < 1440 &&
                      var (a, b) := (ParseClock(Normalize(startTime)).value, ParseClock(Normalize(endTime)).value);
                      a + r.value == b || a + r.value == b + 1440
    ensures r.Err? ==> |FormatError| <= |r.error| && r.error[..|FormatError|] == FormatError
  {
    var start := ParseClock(Normalize(startTime));
    if start.Err? then Err(FormatError + start.error)
    else
      var end := ParseClock(Normalize(endTime));
      if end.Err? then Err(FormatError + end.error)
      else
        var difference := end.value - start.value;
        Ok(if difference < 0 then difference + 1440 else difference)
  }

  /** Equal readable times give no time at the park. */
  lemma SameTimeIsZero(t: string)
    requires ParseClock(Normalize(t)).Ok?
    ensures GetParkTime(t, t) == Ok(0)
  {
  }

  // ---------------------------------------------------------------------------
  // The canonical text of a minute of the day, and the round trip through it

  function DigitChar(d: nat): (c: char)
    requires d < 10
    ensures IsDigit(c) && DigitValue(c) == d
  {
    ('0' as int + d) as char
  }

  /** The minute of the day `m` written as "H:MMAM" or "H:MMPM". */
  function ClockText(m: int): string
    requires 0 <= m < 1440
  {
    var hour24 := m / 60;
    var hour := if hour24 % 12 == 0 then 12 else hour24 % 12;
    var hourText := if hour >= 10 then [DigitChar(hour / 10), DigitChar(hour % 10)] else [DigitChar(hour)];
    hourText + ":" + [DigitChar(m % 60 / 10), DigitChar(m % 60 % 10)] + (if hour24 >= 12 then "PM" else "AM")
  }

  /** Text with no space and no lower-case letter is left as it is by normalisation. */
  lemma NormalizePlain(s: string)
    requires forall k :: 0 <= k < |s| ==> s[k] != ' ' && !('a' <= s[k] <= 'z')
    ensures Normalize(s) == s
  {
    ReplaceSkipsPlain(s, [], " ", "");
    assert s + [] == s;
  }

  /** The canonical text is read back as the same minute of the day. */
  lemma ParseClockText(m: int)
    requires 0 <= m < 1440
    ensures ParseClock(ClockText(m)) == Ok(m)
  {
    var t := ClockText(m);
    var hour24 := m / 60;
    var hour := if hour24 % 12 == 0 then 12 else hour24 % 12;
    var colon := if hour >= 10 then 2 else 1;
    ClockTextHour(m, hour, colon);
    ClockTextMinute(m, colon);
    assert MatchClock(t) == Some((Clock(hour, m % 60, hour24 >= 12), |t|));
    ClockOfMinute(m, hour);
  }

  /** The clock written for minute `m` is read back as `m`. */
  lemma ClockOfMinute(m: int, hour: nat)
    requires 0 <= m < 1440 && hour == (if m / 60 % 12 == 0 then 12 else m / 60 % 12)
    ensures MinuteOfDay(Clock(hour, m % 60, m / 60 >= 12)) == m
  {
    var hour24 := m / 60;
    assert m == hour24 * 60 + m % 60;
    assert hour24 < 24;
  }

  lemma ClockTextHour(m: int, hour: nat, colon: nat)
    requires 0 <= m < 1440
    requires hour == (if m / 60 % 12 == 0 then 12 else m / 60 % 12) && colon == (if hour >= 10 then 2 else 1)
    ensures |ClockText(m)| == colon + 5 && HourField(ClockText(m)) == Some((hour, colon))
  {
    var t := ClockText(m);
    assert |t| == colon + 5;
    assert t[colon] == ':';
    if hour >= 10 {
      assert t[0] == '1' && t[1] == DigitChar(hour % 10);
    } else {
      assert t[0] == DigitChar(hour) && t[1] == ':';
    }
  }

  lemma ClockTextMinute(m: int, colon: nat)
    requires 0 <= m < 1440
    requires colon == (if (if m / 60 % 12 == 0 then 12 else m / 60 % 12) >= 10 then 2 else 1)
    ensures MinuteAndMeridiem(ClockText(m), colon + 1) == Some((m % 60, m / 60 >= 12, colon + 5))
  {
    var t := ClockText(m);
    var pm := m / 60 >= 12;
    assert |t| == colon + 5;
    assert t[colon + 1] == DigitChar(m % 60 / 10) && t[colon + 2] == DigitChar(m % 60 % 10);
    assert t[colon + 3] == (if pm then 'P' else 'A') && t[colon + 4] == 'M';
    assert Meridiem(t, colon + 3) == Some(pm);
  }

  /** Normalising the canonical text leaves it as it is. */
  lemma NormalizeClockText(m: int)
    requires 0 <= m < 1440
    ensures Normalize(ClockText(m)) == ClockText(m)
  {
    var t := ClockText(m);
    assert forall k :: 0 <= k < |t| ==> t[k] == ':' || t[k] == 'A' || t[k] == 'P' || t[k] == 'M' || IsDigit(t[k]);
    NormalizePlain(t);
  }

  /** For any two minutes of the day written canonically, the park time is
      the forward distance from the first to the second. */
  lemma ParkTimeOfClockTexts(a: int, b: int)
    requires 0 <= a < 1440 && 0 <= b < 1440
    ensures GetParkTime(ClockText(a), ClockText(b)) == Ok((b - a) % 1440)
  {
    ReadsAs(ClockText(a), a);
    ReadsAs(ClockText(b), b);
    ParkTimeOfReadable(ClockText(a), ClockText(b), a, b);
  }

  // ---------------------------------------------------------------------------
  // Park-time examples

  /** A canonical clock text is left as it is by normalisation and read as its minute. */
  lemma ReadsAs(t: string, m: int)
    requires 0 <= m < 1440 && t == ClockText(m)
    ensures Normalize(t) == t && ParseClock(t) == Ok(m)
  {
    NormalizeClockText(m);
    ParseClockText(m);
  }

  lemma EightAmParses()
    ensures ParseClock("8:00AM") == Ok(480)
  {
    assert HourField("8:00AM") == Some((8, 1));
    assert MinuteAndMeridiem("8:00AM", 2) == Some((0, false, 6));
  }

  lemma EightAmReads()
    ensures ParseClock(Normalize("8:00AM")) == Ok(480)
  {
    NormalizePlain("8:00AM");
    EightAmParses();
  }

  lemma EightPmParses()
    ensures ParseClock("8:00PM") == Ok(1200)
  {
    assert HourField("8:00PM") == Some((8, 1));
    assert MinuteAndMeridiem("8:00PM", 2) == Some((0, true, 6));
  }

  lemma MidnightParses()
    ensures ParseClock("12:00AM") == Ok(0)
  {
    assert HourField("12:00AM") == Some((12, 2));
    assert MinuteAndMeridiem("12:00AM", 3) == Some((0, false, 7));
  }

  lemma MidnightReads()
    ensures ParseClock(Normalize("12:00AM")) == Ok(0)
  {
    NormalizePlain("12:00AM");
    MidnightParses();
  }

  lemma TenPmParses()
    ensures ParseClock("10:00PM") == Ok(1320)
  {
    assert HourField("10:00PM") == Some((10, 2));
    assert MinuteAndMeridiem("10:00PM", 3) == Some((0, true, 7));
  }

  lemma TenPmReads()
    ensures ParseClock(Normalize("10:00PM")) == Ok(1320)
  {
    NormalizePlain("10:00PM");
    TenPmParses();
  }

  lemma TwoAmParses()
    ensures ParseClock("2:00AM") == Ok(120)
  {
    assert HourField("2:00AM") == Some((2, 1));
    assert MinuteAndMeridiem("2:00AM", 2) == Some((0, false, 6));
  }

  lemma TwoAmReads()
    ensures ParseClock(Normalize("2:00AM")) == Ok(120)
  {
    NormalizePlain("2:00AM");
    TwoAmParses();
  }

  /** The command line's defaults, 8:00AM to 12:00AM: 12 AM is midnight. */
  lemma DefaultParkTime()
    ensures GetParkTime("8:00AM", "12:00AM") == Ok(960)
  {
    EightAmReads();
    MidnightReads();
    ParkTimeOfParsed("8:00AM", "12:00AM", 480, 0);
  }

  /** An evening into the small hours wraps past midnight. */
  lemma OvernightParkTime()
    ensures GetParkTime("10:00PM", "2:00AM") == Ok(240)
  {
    TenPmReads();
    TwoAmReads();
    ParkTimeOfParsed("10:00PM", "2:00AM", 1320, 120);
  }

  lemma SpacedMorningReads()
    ensures ParseClock(Normalize(" 8:00 am")) == Ok(480)
  {
    NormalizeSpacedMorning();
    EightAmParses();
  }

  lemma SpacedEveningReads()
    ensures ParseClock(Normalize("8:00 pm")) == Ok(1200)
  {
    NormalizeSpacedEvening();
    EightPmParses();
  }

  lemma NormalizeSpacedMorning()
    ensures Normalize(" 8:00 am") == "8:00AM"
  {
    assert " 8:00 am" == " " + ("8:00" + " am");
    ReplaceSkipsPlain("8:00", " am", " ", "");
    ReplaceSkipsPlain("am", [], " ", "");
    assert "am" + [] == "am";
    assert ReplaceAll(" am", " ", "") == "" + ReplaceAll("am", " ", "");
    assert ReplaceAll(" 8:00 am", " ", "") == "8:00am";
  }

  lemma NormalizeSpacedEvening()
    ensures Normalize("8:00 pm") == "8:00PM"
  {
    ReplaceSkipsPlain("8:00", " pm", " ", "");
    ReplaceSkipsPlain("pm", [], " ", "");
    assert "pm" + [] == "pm";
    assert ReplaceAll(" pm", " ", "") == "" + ReplaceAll("pm", " ", "");
    assert "8:00" + " pm" == "8:00 pm";
    assert ReplaceAll("8:00 pm", " ", "") == "8:00pm";
  }

  /** Two readable times give their forward distance. */
  lemma ParkTimeOfReadable(startTime: string, endTime: string, a: int, b: int)
    requires ParseClock(Normalize(startTime)) == Ok(a) && ParseClock(Normalize(endTime)) == Ok(b)
    ensures GetParkTime(startTime, endTime) == Ok((b - a) % 1440)
  {
    ParkTimeOfParsed(startTime, endTime, a, b);
    ForwardDistance(a, b);
  }

  lemma ParkTimeOfParsed(startTime: string, endTime: string, a: int, b: int)
    requires ParseClock(Normalize(startTime)) == Ok(a) && ParseClock(Normalize(endTime)) == Ok(b)
    ensures GetParkTime(startTime, endTime) == Ok(if b < a then b - a + 1440 else b - a)
  {
  }

  lemma ForwardDistance(a: int, b: int)
    requires 0 <= a < 1440 && 0 <= b < 1440
    ensures (b - a) % 1440 == if b < a then b - a + 1440 else b - a
  {
  }

  /** Spaces and lower case are normalised away before parsing. */
  lemma SpacedLowerCaseAccepted()
    ensures GetParkTime(" 8:00 am", "8:00 pm") == Ok(720)
  {
    SpacedMorningReads();
    SpacedEveningReads();
    ParkTimeOfParsed(" 8:00 am", "8:00 pm", 480, 1200);
  }

  /** A start time that does not match the format is reported with its text. */
  lemma StartMismatchReported(startTime: string, endTime: string)
    requires Normalize(startTime) == startTime && MatchClock(startTime) == None
    ensures GetParkTime(startTime, endTime) == Err(FormatError + MismatchMessage(startTime))
  {
  }

  lemma HourThirteenMismatch()
    ensures MatchClock("13:00PM") == None
  {
    assert HourField("13:00PM") == None;
  }

  lemma MissingMeridiemMismatch()
    ensures MatchClock("8:00") == None
  {
    assert HourField("8:00") == Some((8, 1));
    assert MinuteAndMeridiem("8:00", 2) == None;
  }

  lemma SecondColonMismatch()
    ensures MatchClock("10:00:AM") == None
  {
    assert HourField("10:00:AM") == Some((10, 2));
    assert MinuteAndMeridiem("10:00:AM", 3) == None;
  }

  /** An hour past 12 does not match the format. */
  lemma HourThirteenRejected()
    ensures GetParkTime("13:00PM", "8:00PM") == Err(FormatError + MismatchMessage("13:00PM"))
  {
    NormalizePlain("13:00PM");
    HourThirteenMismatch();
    StartMismatchReported("13:00PM", "8:00PM");
  }

  /** A time without AM or PM does not match the format. */
  lemma MissingMeridiemRejected()
    ensures GetParkTime("8:00", "8:00PM") == Err(FormatError + MismatchMessage("8:00"))
  {
    NormalizePlain("8:00");
    MissingMeridiemMismatch();
    StartMismatchReported("8:00", "8:00PM");
  }

  /** A second colon does not match the format. */
  lemma SecondColonRejected()
    ensures GetParkTime("10:00:AM", "8:00PM") == Err(FormatError + MismatchMessage("10:00:AM"))
  {
    NormalizePlain("10:00:AM");
    SecondColonMismatch();
    StartMismatchReported("10:00:AM", "8:00PM");
  }

  /** An end time with text after its match is reported with that text. */
  lemma EndLeftoverReported(startTime: string, endTime: string)
    requires ParseClock(Normalize(startTime)).Ok?
    requires Normalize(endTime) == endTime && MatchClock(endTime).Some? && MatchClock(endTime).value.1 < |endTime|
    ensures GetParkTime(startTime, endTime) == Err(FormatError + LeftoverMessage(endTime[MatchClock(endTime).value.1..]))
  {
  }

  lemma TrailingTextMatch()
    ensures MatchClock("8:00PMX") == Some((Clock(8, 0, true), 6))
    ensures "8:00PMX"[6..] == "X"
  {
    assert HourField("8:00PMX") == Some((8, 1));
    assert MinuteAndMeridiem("8:00PMX", 2) == Some((0, true, 6));
  }

  lemma TrailingTextPlain()
    ensures Normalize("8:00PMX") == "8:00PMX"
  {
    NormalizePlain("8:00PMX");
  }

  /** Text after the meridiem is reported as left over. */
  lemma TrailingTextRejected()
    ensures GetParkTime("8:00AM", "8:00PMX") == Err(FormatError + LeftoverMessage("X"))
  {
    EightAmReads();
    TrailingTextPlain();
    TrailingTextMatch();
    EndLeftoverReported("8:00AM", "8:00PMX");
  }

  /** A one-digit minute is read when AM or PM follows it. */
  lemma OneDigitMinuteAccepted()
    ensures GetParkTime("8:00AM", "8:5AM") == Ok(5)
  {
    EightAmReads();
    OneDigitMinuteReads();
    ParkTimeOfParsed("8:00AM", "8:5AM", 480, 485);
  }

  lemma OneDigitMinuteParses()
    ensures ParseClock("8:5AM") == Ok(485)
  {
    assert HourField("8:5AM") == Some((8, 1));
    assert MinuteAndMeridiem("8:5AM", 2) == Some((5, false, 5));
  }

  lemma OneDigitMinuteReads()
    ensures ParseClock(Normalize("8:5AM")) == Ok(485)
  {
    NormalizePlain("8:5AM");
    OneDigitMinuteParses();
  }

  /** Two valid clocks at the same minute of the day are the same clock, so
      the minute of the day loses nothing the format reads. */
  lemma MinuteOfDayInjective(c1: Clock, c2: Clock)
    requires ValidClock(c1) && ValidClock(c2) && MinuteOfDay(c1) == MinuteOfDay(c2)
    ensures c1 == c2
  {
  }

  // ---------------------------------------------------------------------------
  // run_algo

  /** The configuration entries `run_algo` reads. */
  datatype Config = Config(age: int, height: int, categories: seq<string>, start: string, end: string)

  /** The iteration count `run_algo` passes to the search. */
  const SearchIterations: nat := 100

  /** The `Ride Name` column of the ranking. */
  function Names(ranked: seq<RankedRide>): (names: seq<string>)
    ensures |names| == |ranked| && forall k :: 0 <= k < |ranked| ==> names[k] == ranked[k].name
  {
    seq(|ranked|, k requires 0 <= k < |ranked| => ranked[k].name)
  }

  function ScorePairs(ranked: seq<RankedRide>): (ps: seq<(string, real)>)
    ensures |ps| == |ranked| && forall k :: 0 <= k < |ranked| ==> ps[k] == (ranked[k].name, ranked[k].avgScore)
  {
    seq(|ranked|, k requires 0 <= k < |ranked| => (ranked[k].name, ranked[k].avgScore))
  }

  /** `mcts_map`: name to average score, a later row overwriting an earlier one. */
  function ScoreMap(ranked: seq<RankedRide>): map<string, real> {
    FromPairs(ScorePairs(ranked))
  }

  /** The loop that fills `mcts_map`. */
  method BuildScoreMap(ranked: seq<RankedRide>) returns (scores: map<string, real>)
    ensures scores == ScoreMap(ranked)
  {
    scores := map[];
    for i := 0 to |ranked|
      invariant scores == FromPairs(ScorePairs(ranked)[..i])
    {
      assert ScorePairs(ranked)[..i + 1] == ScorePairs(ranked)[..i] + [(ranked[i].name, ranked[i].avgScore)];
      FromPairsSnoc(ScorePairs(ranked)[..i], ranked[i].name, ranked[i].avgScore);
      scores := scores[ranked[i].name := ranked[i].avgScore];
    }
    assert ScorePairs(ranked)[..|ranked|] == ScorePairs(ranked);
  }

  /** For a ranking of the table, the score map holds exactly the ride names,
      each with the score of a ride of that name. */
  lemma ScoreMapHoldsScores(rides: seq<Ride>, ranked: seq<RankedRide>)
    requires |rides| > 0 && multiset(ranked) == multiset(RankEntries(rides, SearchIterations))
    ensures forall n :: n in ScoreMap(ranked) <==> exists i :: 0 <= i < |rides| && rides[i].name == n
    ensures forall n :: n in ScoreMap(ranked) ==>
              exists i :: 0 <= i < |rides| && rides[i].name == n && ScoreMap(ranked)[n] == Score(rides[i])
  {
    var ps := ScorePairs(ranked);
    var rows := RankEntries(rides, SearchIterations);
    FromPairsLastWins(ps);
    FromPairsValueFrom(ps);
    RankedRowsAreRides(rides, SearchIterations, ranked);
    forall n ensures n in ScoreMap(ranked) <==> exists i :: 0 <= i < |rides| && rides[i].name == n {
      if exists i :: 0 <= i < |rides| && rides[i].name == n {
        var i :| 0 <= i < |rides| && rides[i].name == n;
        assert rows[i] in multiset(rows);
        assert rows[i] in ranked;
        var k :| 0 <= k < |ranked| && ranked[k] == rows[i];
        assert ps[k].0 == n;
      }
    }
    forall n | n in ScoreMap(ranked)
      ensures exists i :: 0 <= i < |rides| && rides[i].name == n && ScoreMap(ranked)[n] == Score(rides[i])
    {
      var k :| 0 <= k < |ps| && ps[k].0 == n && ps[k].1 == ScoreMap(ranked)[n];
      var i :| 0 <= i < |rides| && ranked[k].name == rides[i].name && ranked[k].avgScore == Score(rides[i]);
    }
  }

  predicate EligibleFor(config: Config, details: map<string, Ride>, name: string) {
    Eligible(details, name, Some(config.age), Some(config.height), config.categories)
  }

  /** What `run_algo` needs to finish without an exception: a ride table to
      rank, a number in the wait text of every ride the user may take, and
      readable times whenever there is such a ride. */
  predicate CanRun(config: Config, rides: seq<Ride>) {
    var details := RideDetails(rides);
    |rides| > 0 &&
    (forall n :: n in details && EligibleFor(config, details, n) ==> GetRideWaitTime(details[n].waitTime).Some?) &&
    ((exists n :: n in details && EligibleFor(config, details, n)) ==> GetParkTime(config.start, config.end).Ok?)
  }

  /** The filtered ranking handed to the builder. */
  function Recommended(config: Config, rides: seq<Ride>, ranked: seq<RankedRide>): seq<string> {
    FilterRanked(RideDetails(rides), Names(ranked), Some(config.age), Some(config.height), config.categories)
  }

  /** The filtered ranking satisfies what the builder asks of its inputs. */
  lemma RecommendedSchedulable(config: Config, rides: seq<Ride>, ranked: seq<RankedRide>)
    requires CanRun(config, rides)
    ensures Schedulable(RideDetails(rides), Recommended(config, rides, ranked))
    ensures Recommended(config, rides, ranked) != [] ==> GetParkTime(config.start, config.end).Ok?
  {
    var details := RideDetails(rides);
    var recs := Recommended(config, rides, ranked);
    if recs != [] {
      assert recs[0] in details && EligibleFor(config, details, recs[0]);
    }
  }

  /** The itinerary `run_algo` builds from a ranking, with the preference
      fixed to " ": the maximise-rides objective. */
  function Pipeline(config: Config, rides: seq<Ride>, ranked: seq<RankedRide>): seq<string>
    requires CanRun(config, rides)
  {
    RecommendedSchedulable(config, rides, ranked);
    ItineraryFor(GetParkTime(config.start, config.end), RideDetails(rides), Recommended(config, rides, ranked),
                 ScoreMap(ranked), " ")
  }

  /** run_algo, without the console output: the ranking it computes is
      returned as a ghost so the contract can name it. */
  method RunAlgo(config: Config, rides: seq<Ride>) returns (itinerary: seq<string>, ghost ranked: seq<RankedRide>)
    requires CanRun(config, rides)
    ensures multiset(ranked) == multiset(RankEntries(rides, SearchIterations)) && SortedByAverage(ranked)
    ensures itinerary == Pipeline(config, rides, ranked)
  {
    var rows := MonteCarloSearch(rides, SearchIterations);
    ranked := rows;
    var names := Names(rows);
    var scores := BuildScoreMap(rows);
    var recommended := PickRides(rides, names, Some(config.age), Some(config.height), config.categories);
    var timeAtPark := GetParkTime(config.start, config.end);
    RecommendedSchedulable(config, rides, rows);
    itinerary := ItineraryForUser(timeAtPark, rides, recommended, scores, " ");
  }

  /** The candidates are exactly the rides the user may take, in ranking order. */
  lemma RecommendedAreEligibleRides(config: Config, rides: seq<Ride>, ranked: seq<RankedRide>)
    requires |rides| > 0 && multiset(ranked) == multiset(RankEntries(rides, SearchIterations))
    ensures var details := RideDetails(rides);
            forall n :: n in Recommended(config, rides, ranked) <==> n in details && EligibleFor(config, details, n)
    ensures IsSubsequence(Recommended(config, rides, ranked), Names(ranked))
  {
    var details := RideDetails(rides);
    var recs := Recommended(config, rides, ranked);
    var rows := RankEntries(rides, SearchIterations);
    RideDetailsMeaning(rides);
    forall n ensures n in recs <==> n in details && EligibleFor(config, details, n) {
      if n in recs {
        var k :| 0 <= k < |recs| && recs[k] == n;
      }
      if n in details && EligibleFor(config, details, n) {
        var i :| 0 <= i < |rides| && rides[i].name == n;
        assert rows[i] in multiset(rows);
        assert rows[i] in ranked;
        var k :| 0 <= k < |ranked| && ranked[k] == rows[i];
        assert Names(ranked)[k] == n;
      }
    }
    FilterKeepsOrder(details, Names(ranked), Some(config.age), Some(config.height), config.categories);
  }

  /** What `run_algo` promises the user: every ride of the itinerary is one
      they may take, the itinerary keeps the ranking order, every ride in it
      has a wait figure, and nothing recommended gives no itinerary. The fit
      within the time at the park is `PipelineFitsParkTime`. */
  lemma PipelineMeaning(config: Config, rides: seq<Ride>, ranked: seq<RankedRide>)
    requires CanRun(config, rides)
    ensures var r := Pipeline(config, rides, ranked);
            var details := RideDetails(rides);
            (forall k :: 0 <= k < |r| ==> EligibleFor(config, details, r[k])) &&
            IsSubsequence(r, Recommended(config, rides, ranked)) &&
            Schedulable(details, r)
    ensures Recommended(config, rides, ranked) == [] ==> Pipeline(config, rides, ranked) == []
  {
    var details := RideDetails(rides);
    var recs := Recommended(config, rides, ranked);
    var time := GetParkTime(config.start, config.end);
    RecommendedSchedulable(config, rides, ranked);
    assert Pipeline(config, rides, ranked) == ItineraryFor(time, details, recs, ScoreMap(ranked), " ");
    ItineraryOfEligible(config, time, details, recs, ScoreMap(ranked));
  }

  lemma ItineraryOfEligible(config: Config, time: Result<int, string>, details: map<string, Ride>,
                            recs: seq<string>, scores: map<string, real>)
    requires recs != [] ==> time.Ok?
    requires Schedulable(details, recs)
    requires forall j :: 0 <= j < |recs| ==> EligibleFor(config, details, recs[j])
    ensures var r := ItineraryFor(time, details, recs, scores, " ");
            (forall k :: 0 <= k < |r| ==> EligibleFor(config, details, r[k])) &&
            IsSubsequence(r, recs) && Schedulable(details, r) && (recs == [] ==> r == [])
  {
    ItineraryIsFittingTrial(time, details, recs, scores, " ");
    var r := ItineraryFor(time, details, recs, scores, " ");
    forall k | 0 <= k < |r| ensures EligibleFor(config, details, r[k]) {
      assert r[k] in recs;
    }
  }

  /** When the park time is readable, the itinerary fits in it after every
      ride, and no start offset yields a trial with more rides. */
  lemma PipelineFitsParkTime(config: Config, rides: seq<Ride>, ranked: seq<RankedRide>, time: int)
    requires CanRun(config, rides) && GetParkTime(config.start, config.end) == Ok(time)
    ensures Schedulable(RideDetails(rides), Recommended(config, rides, ranked))
    ensures var r := Pipeline(config, rides, ranked);
            var details := RideDetails(rides);
            var recs := Recommended(config, rides, ranked);
            Schedulable(details, r) &&
            (forall k :: 0 < k <= |r| ==> TotalTime(details, r[..k]) <= time) &&
            (forall i :: 0 <= i < |recs| ==> |Trial(details, recs, time, i)| <= |r|)
  {
    var details := RideDetails(rides);
    var recs := Recommended(config, rides, ranked);
    RecommendedSchedulable(config, rides, ranked);
    ItineraryIsFittingTrial(Ok(time), details, recs, ScoreMap(ranked), " ");
    ItineraryIsBest(Ok(time), details, recs, ScoreMap(ranked), " ");
  }
}
