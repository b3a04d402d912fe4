/**
 * The `Hour` value class of lib/hour.rb: a triple of integers h, m, s with
 * its constructors, the normalising factory `from`, addition with carry,
 * the hour/minute/second unit views, `to_s` and `parse`.
 *
 * Ruby's `/` and `%` round towards negative infinity; with the positive
 * divisor 60 used throughout they agree with Dafny's `/` and `%`.
 */
module Hours {
  import opened Outcome
  import opened Text

  /** The errors lib/hour.rb raises, one constructor per raise site. */
  datatype Error =
    | MinutesOutOfRange         // ArgumentError: minutes over 60
    | SecondsOutOfRange         // ArgumentError: seconds over 60
    | NegativeArraySize         // ArgumentError from padding more than three positional arguments
    | MinutesAndSeconds         // ArgumentError: `from` given both units
    | FormattingStringRequired  // ArgumentError: `parse` of fewer than three segments
    | TooManySegments           // ArgumentError: `parse` of four or more segments
    | UndefinedName             // NameError: `parse` reads a local that does not exist

  /** Hours, minutes and seconds; `new` accepts any integers up to 60 for m and s. */
  datatype Hour = Hour(h: int, m: int, s: int)

  /** `Hour.new` with no arguments. */
  const Zero := Hour(0, 0, 0)

  // ---------------------------------------------------------------------
  // Construction

  /** The range checks that end every construction: minutes first, then seconds. */
  function Check(h: int, m: int, s: int): (r: Result<Hour, Error>)
    ensures r.Ok? <==> m <= 60 && s <= 60
    ensures r.Ok? ==> r.value == Hour(h, m, s)
    ensures r.Err? ==> r.error == (if m > 60 then MinutesOutOfRange else SecondsOutOfRange)
  {
    if m > 60 then Err(MinutesOutOfRange)
    else if s > 60 then Err(SecondsOutOfRange)
    else Ok(Hour(h, m, s))
  }

  /** The `i`-th positional argument once the list is padded with zeros. */
  function Padded(args: seq<int>, i: nat): int {
    if i < |args| then args[i] else 0
  }

  /** `Hour.new(*args)` with positional integer arguments. */
  function New(args: seq<int>): (r: Result<Hour, Error>)
    ensures |args| > 3 <==> r == Err(NegativeArraySize)
    ensures |args| <= 3 ==> (r.Ok? <==> Padded(args, 1) <= 60 && Padded(args, 2) <= 60)
    ensures |args| <= 3 ==> r == Check(Padded(args, 0), Padded(args, 1), Padded(args, 2))
    ensures r.Ok? ==> r.value == Hour(Padded(args, 0), Padded(args, 1), Padded(args, 2))
  {
    if |args| > 3 then Err(NegativeArraySize)
    else
      var padded := args + [0, 0, 0][|args|..];
      Check(padded[0], padded[1], padded[2])
  }

  /** `Hour.new(h: .., m: .., s: ..)`: each keyword defaults to 0. */
  function NewFromKeywords(h: int := 0, m: int := 0, s: int := 0): (r: Result<Hour, Error>)
    ensures r == New([h, m, s])
  {
    Check(h, m, s)
  }

  // ---------------------------------------------------------------------
  // Unit views and totals

  /** `(0..29).include?(x) ? 0 : 1`: the step the rounding readers add. */
  function RoundingStep(x: int): int {
    if 0 <= x <= 29 then 0 else 1
  }

  /** Minutes and seconds below 60 and not negative: the form `+` and `from` produce. */
  predicate Normalized(t: Hour) {
    0 <= t.m < 60 && 0 <= t.s < 60
  }

  /**
   * `seconds.total`: the duration as a count of seconds. A normalised value
   * stands for a duration that is not negative exactly when its hours are not.
   */
  function SecondsTotal(t: Hour): (r: int)
    ensures Normalized(t) ==> (r >= 0 <==> t.h >= 0)
  {
    t.h * 60 * 60 + t.m * 60 + t.s
  }

  /** `hours.value`: in normal form, the whole hours of the total. */
  function HoursValue(t: Hour): (r: int)
    ensures Normalized(t) ==> r == (SecondsTotal(t) / 60) / 60
  {
    t.h
  }

  /** `minutes.value`: in normal form, the minutes past the hour of the total. */
  function MinutesValue(t: Hour): (r: int)
    ensures Normalized(t) ==> r == (SecondsTotal(t) / 60) % 60
  {
    t.m
  }

  /** `seconds.value`: in normal form, the seconds past the minute of the total. */
  function SecondsValue(t: Hour): (r: int)
    ensures Normalized(t) ==> r == SecondsTotal(t) % 60
  {
    t.s
  }

  /** `minutes.total`: the whole minutes of the duration. */
  function MinutesTotal(t: Hour): (r: int)
    ensures r * 60 + t.s == SecondsTotal(t)
  {
    t.h * 60 + MinutesValue(t)
  }

  /** `hours.round`: the nearest whole hour, half an hour rounding up. */
  function HoursRound(t: Hour): (r: int)
    ensures 0 <= t.m <= 60 ==> r * 60 - 30 <= MinutesTotal(t) < r * 60 + 30
    ensures t.m < 0 ==> r == t.h + 1
  {
    HoursValue(t) + RoundingStep(t.m)
  }

  /** `minutes.round`: minutes past the hour, rounded to the nearest minute. */
  function MinutesRound(t: Hour): (r: int)
    ensures 0 <= t.s <= 60 ==> r * 60 - 30 <= t.m * 60 + t.s < r * 60 + 30
    ensures t.s < 0 ==> r == t.m + 1
  {
    MinutesValue(t) + RoundingStep(t.s)
  }

  /** `minutes.round_total`: the total rounded to the nearest minute. */
  function MinutesRoundTotal(t: Hour): (r: int)
    ensures 0 <= t.s <= 60 ==> r * 60 - 30 <= SecondsTotal(t) < r * 60 + 30
    ensures r - MinutesTotal(t) == MinutesRound(t) - MinutesValue(t)
  {
    MinutesTotal(t) + RoundingStep(t.s)
  }

  /** The normal form of a count of seconds, by dividing by 60 twice. */
  function Normalize(n: int): (r: Hour)
    ensures Normalized(r) && SecondsTotal(r) == n
  {
    var q := n / 60;
    assert n == q * 60 + n % 60;
    assert q == (q / 60) * 60 + q % 60;
    Hour(q / 60, q % 60, n % 60)
  }

  /** A normalised Hour is determined by its total. */
  lemma NormalizedUnique(a: Hour, b: Hour)
    requires Normalized(a) && Normalized(b) && SecondsTotal(a) == SecondsTotal(b)
    ensures a == b
  {
    assert SecondsTotal(a) / 60 == SecondsTotal(b) / 60;
  }

  /** Under a minute, the normal form holds the count as its seconds. */
  lemma NormalizeBelowMinute(n: int)
    requires 0 <= n < 60
    ensures Normalize(n) == Hour(0, 0, n)
  {
    NormalizedUnique(Normalize(n), Hour(0, 0, n));
  }

  // ---------------------------------------------------------------------
  // Addition

  /** `a + b`: seconds carry into minutes and minutes into hours; a new value results. */
  function Add(a: Hour, b: Hour): (r: Hour)
    ensures SecondsTotal(r) == SecondsTotal(a) + SecondsTotal(b)
    ensures Normalized(r) && New([r.h, r.m, r.s]) == Ok(r)
    ensures SecondsTotal(a) + SecondsTotal(b) >= 0 ==> r.h >= 0
  {
    var hours := a.h + b.h + (a.m + b.m + (a.s + b.s) / 60) / 60;
    var minutes := (a.m + b.m + (a.s + b.s) / 60) % 60;
    var seconds := (a.s + b.s) % 60;
    var built := New([hours, minutes, seconds]);
    assert built == Ok(Hour(hours, minutes, seconds));
    Hour(hours, minutes, seconds)
  }

  lemma AddIsNormalizeOfSum(a: Hour, b: Hour)
    ensures Add(a, b) == Normalize(SecondsTotal(a) + SecondsTotal(b))
  {
    NormalizedUnique(Add(a, b), Normalize(SecondsTotal(a) + SecondsTotal(b)));
  }

  /** Adding zero leaves a normalised value unchanged. */
  lemma AddZeroKeepsNormalized(t: Hour)
    requires Normalized(t)
    ensures Add(t, Zero) == t
  {
    NormalizedUnique(Add(t, Zero), t);
  }

  /** Adding zero leaves exactly the normalised values unchanged. */
  lemma AddZeroIdentity(t: Hour)
    ensures Add(t, Zero) == t <==> Normalized(t)
  {
    if Normalized(t) {
      AddZeroKeepsNormalized(t);
    }
  }

  // ---------------------------------------------------------------------
  // The normalising factory `from`

  /**
   * The arguments on which `from` returns. With minutes 0 and seconds below
   * 60, or minutes negative and seconds 0, its else-branch reaches
   * `from(minutes: 0)`, which calls itself again without end.
   */
  predicate FromTerminates(minutes: int, seconds: int) {
    (minutes != 0 && seconds != 0) || minutes > 0 || (minutes == 0 && seconds >= 60)
  }

  /** `Hour.from(minutes:, seconds:)` on the arguments where it returns. */
  function From(minutes: int := 0, seconds: int := 0): (r: Result<Hour, Error>)
    requires FromTerminates(minutes, seconds)
    ensures r.Err? <==> minutes != 0 && seconds != 0
    ensures r.Err? ==> r.error == MinutesAndSeconds
    ensures r.Ok? ==> Normalized(r.value) && SecondsTotal(r.value) == minutes * 60 + seconds
    decreases if minutes == 0 then 1 else 0
  {
    if minutes != 0 && seconds != 0 then Err(MinutesAndSeconds)
    else if minutes > 0 then NewFromKeywords(h := minutes / 60, m := minutes % 60)
    else
      var whole := From(minutes := seconds / 60);
      var rest := NewFromKeywords(s := seconds % 60);
      Ok(Add(whole.value, rest.value))
  }

  /**
   * `from` as written, unfolded at most `fuel` times, on any arguments: None
   * when the recursion is still going when the budget runs out. Whenever it
   * returns, the arguments satisfy FromTerminates and the result is From's.
   */
  function FromWithin(fuel: nat, minutes: int, seconds: int): (r: Option<Result<Hour, Error>>)
    ensures r.Some? ==> FromTerminates(minutes, seconds) && r.value == From(minutes, seconds)
  {
    if fuel == 0 then None
    else if minutes != 0 && seconds != 0 then Some(Err(MinutesAndSeconds))
    else if minutes > 0 then Some(NewFromKeywords(h := minutes / 60, m := minutes % 60))
    else
      match FromWithin(fuel - 1, seconds / 60, 0)
      case None => None
      case Some(Err(e)) => Some(Err(e))
      case Some(Ok(whole)) =>
        match NewFromKeywords(s := seconds % 60)
        case Err(e) => Some(Err(e))
        case Ok(rest) => Some(Ok(Add(whole, rest)))
  }

  /** Outside FromTerminates, `from` never returns, however long it runs. */
  lemma {:induction false} FromDivergesOutside(fuel: nat, minutes: int, seconds: int)
    requires !FromTerminates(minutes, seconds)
    ensures FromWithin(fuel, minutes, seconds) == None
  {
    if fuel > 0 {
      FromDivergesOutside(fuel - 1, seconds / 60, 0);
    }
  }

  /** Inside FromTerminates, `from` returns after at most two calls, with From's result. */
  lemma FromWithinAgrees(fuel: nat, minutes: int, seconds: int)
    requires FromTerminates(minutes, seconds) && fuel >= 2
    ensures FromWithin(fuel, minutes, seconds) == Some(From(minutes, seconds))
  {
  }

  /**
   * `from` as evidently intended: on every argument, the normal form of
   * minutes*60 + seconds, or the error when both units are given.
   */
  function FromIntended(minutes: int := 0, seconds: int := 0): (r: Result<Hour, Error>)
    ensures r.Err? <==> minutes != 0 && seconds != 0
    ensures r.Err? ==> r.error == MinutesAndSeconds
    ensures r.Ok? ==> Normalized(r.value) && SecondsTotal(r.value) == minutes * 60 + seconds
  {
    if minutes != 0 && seconds != 0 then Err(MinutesAndSeconds)
    else Ok(Normalize(minutes * 60 + seconds))
  }

  /** Where `from` returns, it returns what the intended definition gives. */
  lemma FromIntendedAgrees(minutes: int, seconds: int)
    requires FromTerminates(minutes, seconds)
    ensures From(minutes, seconds) == FromIntended(minutes, seconds)
  {
    if minutes == 0 || seconds == 0 {
      NormalizedUnique(From(minutes, seconds).value, FromIntended(minutes, seconds).value);
    }
  }

  /**
   * `from(seconds: 30)`, `from` with no arguments and `from(minutes: -5)`
   * never return, where the intended definition gives 0:0:30, 0:0:0 and
   * -1:55:0 (five minutes before zero).
   */
  lemma FromDivergenceExamples(fuel: nat)
    ensures FromWithin(fuel, 0, 30) == None && FromIntended(seconds := 30) == Ok(Hour(0, 0, 30))
    ensures FromWithin(fuel, 0, 0) == None && FromIntended() == Ok(Zero)
    ensures FromWithin(fuel, -5, 0) == None && FromIntended(minutes := -5) == Ok(Hour(-1, 55, 0))
  {
    FromDivergesOutside(fuel, 0, 30);
    FromDivergesOutside(fuel, 0, 0);
    FromDivergesOutside(fuel, -5, 0);
    FromIntendedExamples();
  }

  lemma FromIntendedExamples()
    ensures FromIntended(seconds := 30) == Ok(Hour(0, 0, 30))
    ensures FromIntended() == Ok(Zero)
    ensures FromIntended(minutes := -5) == Ok(Hour(-1, 55, 0))
  {
    FromIntendedSeconds();
    FromIntendedNothing();
    FromIntendedNegative();
  }

  lemma FromIntendedSeconds()
    ensures FromIntended(seconds := 30) == Ok(Hour(0, 0, 30))
  {
    NormalizeBelowMinute(30);
  }

  lemma FromIntendedNothing()
    ensures FromIntended() == Ok(Zero)
  {
    NormalizedUnique(FromIntended().value, Zero);
  }

  lemma FromIntendedNegative()
    ensures FromIntended(minutes := -5) == Ok(Hour(-1, 55, 0))
  {
    NormalizedUnique(FromIntended(minutes := -5).value, Hour(-1, 55, 0));
  }

  /** `from(minutes: n)` splits n into hours and minutes past the hour. */
  lemma FromMinutes(n: int)
    requires n > 0
    ensures From(minutes := n) == Ok(Hour(n / 60, n % 60, 0))
    ensures 0 <= n % 60 < 60 && (n / 60) * 60 + n % 60 == n
  {
  }

  /** Whenever `from` returns a value, it is the normal form of its seconds. */
  lemma FromIsNormalize(minutes: int, seconds: int)
    requires FromTerminates(minutes, seconds) && (minutes == 0 || seconds == 0)
    ensures From(minutes, seconds) == Ok(Normalize(minutes * 60 + seconds))
  {
    NormalizedUnique(From(minutes, seconds).value, Normalize(minutes * 60 + seconds));
  }

  // ---------------------------------------------------------------------
  // Text

  /** `to_s`: the three integers joined by ':', without padding. */
  function ToS(t: Hour): (r: string)
    ensures ReadFields(r) == Some([t.h, t.m, t.s])
  {
    var hs, ms, ss := IntToString(t.h), IntToString(t.m), IntToString(t.s);
    JoinedFields(hs, ms, ss);
    ReadThree(t.h, t.m, t.s);
    hs + ":" + ms + ":" + ss
  }

  /** `Hour.parse` as written: its first line names an undefined local, so every call raises. */
  function ParseAsWritten(text: string, formattingString: Option<string> := None): (r: Result<Hour, Error>)
    ensures r == Err(UndefinedName)
  {
    Err(UndefinedName)
  }

  /**
   * `Hour.parse` as evidently intended, given the integers of the
   * colon-separated segments of its text: three build a value through
   * `new`, fewer or more are rejected.
   */
  function Parse(segments: seq<int>): (r: Result<Hour, Error>)
    ensures r.Ok? <==> |segments| == 3 && segments[1] <= 60 && segments[2] <= 60
    ensures r.Ok? ==> r.value == Hour(segments[0], segments[1], segments[2])
    ensures |segments| < 3 ==> r == Err(FormattingStringRequired)
    ensures |segments| > 3 ==> r == Err(TooManySegments)
    ensures |segments| == 3 ==> r == New(segments)
  {
    if |segments| == 3 then New(segments)
    else if |segments| <= 2 then Err(FormattingStringRequired)
    else Err(TooManySegments)
  }

  /**
   * `to_s` writes the only text whose ':'-separated fields read back as h, m
   * and s: no other spelling (a padded "09", a "-0") is read as those fields.
   */
  lemma ToSUnique(t: Hour, text: string)
    requires ReadFields(text) == Some([t.h, t.m, t.s])
    ensures text == ToS(t)
  {
    FieldsReadBack(text, t.h, t.m, t.s);
  }

  /** Parsing what `to_s` writes gives back every value `new` accepts. */
  lemma ParseOfToS(t: Hour)
    ensures ReadFields(ToS(t)).Some?
    ensures Parse(ReadFields(ToS(t)).value) == New([t.h, t.m, t.s])
    ensures Parse(ReadFields(ToS(t)).value) == Ok(t) <==> t.m <= 60 && t.s <= 60
  {
  }

  /** The parse as written fails on the text of every value, where the intended one succeeds. */
  lemma ParseAsWrittenRejects(t: Hour)
    requires t.m <= 60 && t.s <= 60
    ensures ParseAsWritten(ToS(t)).Err?
    ensures Parse(ReadFields(ToS(t)).value) == Ok(t)
  {
    ParseOfToS(t);
  }

  // ---------------------------------------------------------------------
  // Examples from the method comments and spec/hour_spec.rb

  lemma ConstructionExamples()
    ensures New([1, 10]) == Ok(Hour(1, 10, 0))
    ensures New([]) == Ok(Zero) && NewFromKeywords() == Ok(Zero)
    ensures NewFromKeywords(m := 1, s := 25) == Ok(Hour(0, 1, 25))
    ensures New([1, 60, 60]) == Ok(Hour(1, 60, 60))
    ensures New([1, 61]) == Err(MinutesOutOfRange) && New([1, 2, 61]) == Err(SecondsOutOfRange)
    ensures New([1, 2, 3, 4]) == Err(NegativeArraySize)
  {
  }

  lemma AddExample()
    ensures Add(Hour(0, 25, 10), Hour(1, 0, 0)) == Hour(1, 25, 10)
  {
    AddIsNormalizeOfSum(Hour(0, 25, 10), Hour(1, 0, 0));
    assert 5110 / 60 == 85 && 85 / 60 == 1 && 85 % 60 == 25 && 5110 % 60 == 10;
    assert Normalize(5110) == Hour(1, 25, 10);
  }

  /** A value with 60 minutes, which `new` accepts, is carried into the hours. */
  lemma AddCarryExample()
    ensures Add(Hour(0, 60, 0), Zero) == Hour(1, 0, 0)
  {
    AddIsNormalizeOfSum(Hour(0, 60, 0), Zero);
    assert 3600 / 60 == 60 && 60 / 60 == 1 && 60 % 60 == 0 && 3600 % 60 == 0;
    assert Normalize(3600) == Hour(1, 0, 0);
  }

  lemma FromMinutesExample()
    ensures From(minutes := 85) == Ok(Hour(1, 25, 0))
    ensures From(minutes := 3, seconds := 4) == Err(MinutesAndSeconds)
  {
  }

  lemma FromSecondsExample()
    ensures From(seconds := 120) == Ok(Hour(0, 2, 0))
  {
    FromIsNormalize(0, 120);
    assert 120 / 60 == 2 && 2 / 60 == 0 && 2 % 60 == 2 && 120 % 60 == 0;
    assert Normalize(120) == Hour(0, 2, 0);
  }

  lemma FromSecondsSpecExample()
    ensures From(seconds := 2 * 60 * 60 + 25 * 60 + 5) == Ok(Hour(2, 25, 5))
  {
    FromIsNormalize(0, 8705);
    assert 8705 / 60 == 145 && 145 / 60 == 2 && 145 % 60 == 25 && 8705 % 60 == 5;
    assert Normalize(8705) == Hour(2, 25, 5);
  }

  lemma HoursValueExamples()
    ensures HoursValue(New([1, 10]).value) == 1 && HoursValue(New([1, 59]).value) == 1
  {
  }

  lemma HoursRoundExamples()
    ensures HoursRound(New([1, 10]).value) == 1 && HoursRound(New([1, 59]).value) == 2
  {
  }

  lemma HoursRoundHalfExamples()
    ensures HoursRound(New([1, 29, 59]).value) == 1 && HoursRound(New([1, 30]).value) == 2
  {
  }

  lemma MinutesExamples()
    ensures MinutesValue(New([1, 25, 52]).value) == 25 && MinutesRound(New([1, 25, 52]).value) == 26
    ensures MinutesTotal(New([1, 25, 52]).value) == 85 && MinutesRoundTotal(New([1, 25, 52]).value) == 86
  {
  }

  lemma SecondsExamples()
    ensures SecondsValue(NewFromKeywords(m := 1, s := 25).value) == 25
    ensures SecondsTotal(NewFromKeywords(m := 1, s := 25).value) == 85
    ensures SecondsTotal(New([1, 10, 25]).value) == 1 * 60 * 60 + 10 * 60 + 25
  {
  }

  /** The examples in the comments above `hours` and `seconds`. */
  lemma UnitDocExamples()
    ensures HoursRound(New([1, 25]).value) == 1 && HoursRound(New([1, 45]).value) == 2
    ensures SecondsValue(NewFromKeywords(m := 1, s := 10).value) == 10
    ensures SecondsTotal(New([1, 45, 10]).value) == 1 * 60 * 60 + 45 * 60 + 10
  {
  }

  lemma ToSExample()
    ensures ToS(Hour(1, 9, 5)) == "1:9:5"
  {
  }
}
