/**
 * The snutree semester: an integer 2·year + season, where Spring is 0 and
 * Fall is 1. Built from an int, from a string "(Spring|Fall) <digits>"
 * (matched at the start of the string only) or from a (season, year) pair;
 * printed back as "<season> <year>"; shifted by integer addition.
 */
module Semester {
  import opened Wrappers
  import opened Text

  datatype Season = Spring | Fall

  function SeasonName(s: Season): string {
    match s
    case Spring => "Spring"
    case Fall => "Fall"
  }

  function SeasonValue(s: Season): (v: nat)
    ensures v < 2
  {
    match s
    case Spring => 0
    case Fall => 1
  }

  /** A Python argument, as far as the constructor's type tests can tell them apart. */
  datatype PyValue = PyInt(i: int) | PyStr(s: string) | PyOther

  datatype SemesterError =
    | ValueError(message: string)
    | TypeError(message: string)

  const Pattern := "(Spring|Fall) (\\d+)"

  /**
   * `re.match('(Spring|Fall) (\d+)', s)`: the season and the digits of the
   * year when `s` starts with a season name, one space and at least one digit.
   * The match is anchored at the start only: what follows the digits is ignored.
   */
  function MatchSeasonYear(s: string): (m: Option<(Season, string)>)
    ensures m.Some? ==> var (season, digits) := m.value;
      |digits| >= 1 && AllDigits(digits) &&
      StartsWith(s, SeasonName(season) + " " + digits)
    ensures m.Some? ==> var prefix := SeasonName(m.value.0) + " " + m.value.1;
      |prefix| == |s| || !IsDigit(s[|prefix|])
  {
    if StartsWith(s, "Spring ") && |LeadingDigits(s[7..])| > 0 then
      var d := LeadingDigits(s[7..]);
      assert s[..7 + |d|] == "Spring " + d;
      Some((Spring, d))
    else if StartsWith(s, "Fall ") && |LeadingDigits(s[5..])| > 0 then
      var d := LeadingDigits(s[5..]);
      assert s[..5 + |d|] == "Fall " + d;
      Some((Fall, d))
    else None
  }

  /** The value 2·year + season named by a season and a year. */
  function Encode(season: Season, year: int): int {
    2 * year + SeasonValue(season)
  }

  /** `Semester(s)` for a string argument. */
  function Parse(s: string): (r: Result<int, SemesterError>)
    ensures r.Ok? <==> MatchSeasonYear(s).Some?
    ensures r.Ok? ==> r.value >= 0
  {
    match MatchSeasonYear(s)
    case Some((season, digits)) => Ok(Encode(season, ParseDigits(digits)))
    case None => Err(ValueError("semester names must match \"" + Pattern + "\""))
  }

  /** The season a value prints as: the remainder of `divmod(v, 2)`. */
  function SeasonOf(v: int): Season {
    if v % 2 == 1 then Fall else Spring
  }

  /** The year a value prints as: the quotient of `divmod(v, 2)` (floor division). */
  function YearOf(v: int): int {
    v / 2
  }

  lemma EncodeDecode(v: int)
    ensures Encode(SeasonOf(v), YearOf(v)) == v
  {
  }

  lemma DecodeEncode(season: Season, year: int)
    ensures SeasonOf(Encode(season, year)) == season
    ensures YearOf(Encode(season, year)) == year
  {
  }

  /** `repr(semester)` and `str(semester)`. */
  function Repr(v: int): string {
    SeasonName(SeasonOf(v)) + " " + IntToString(YearOf(v))
  }

  /** The printed form starts with "Fall " exactly for odd values and with "Spring " exactly for even ones. */
  lemma ReprSeason(v: int)
    ensures StartsWith(Repr(v), "Fall ") <==> v % 2 == 1
    ensures StartsWith(Repr(v), "Spring ") <==> v % 2 == 0
  {
    var r := Repr(v);
    assert v % 2 == 1 ==> r[..5] == "Fall ";
    assert v % 2 == 0 ==> r[..7] == "Spring ";
    assert r[0] == (if v % 2 == 1 then 'F' else 'S');
  }

  /** `Semester(*args)`, as written: the pair form tests the season with `if not season`. */
  function Construct(args: seq<PyValue>): (r: Result<int, SemesterError>)
    ensures |args| == 1 && args[0].PyInt? ==> r == Ok(args[0].i)
    ensures |args| == 1 && args[0].PyStr? ==> r == Parse(args[0].s)
    ensures (!(|args| == 1 && !args[0].PyOther?) &&
             !(|args| == 2 && args[0].PyStr? && args[1].PyInt?)) ==> r.Err? && r.error.TypeError?
  {
    if |args| == 1 && args[0].PyInt? then Ok(args[0].i)
    else if |args| == 1 && args[0].PyStr? then Parse(args[0].s)
    else if |args| == 2 && args[0].PyStr? && args[1].PyInt? then
      var season := SeasonByName(args[0].s);
      if season.None? || SeasonValue(season.value) == 0 then
        Err(ValueError("semester seasons must match \"Spring\" or \"Fall\""))
      else Ok(Encode(season.value, args[1].i))
    else Err(TypeError("expected int, str, or *(str, int)"))
  }

  /** `{'Spring': 0, 'Fall': 1}.get(name)`, as the season it stands for. */
  function SeasonByName(name: string): (s: Option<Season>)
    ensures s.Some? <==> name == "Spring" || name == "Fall"
    ensures s.Some? ==> SeasonName(s.value) == name
  {
    if name == "Spring" then Some(Spring)
    else if name == "Fall" then Some(Fall)
    else None
  }

  /**
   * The pair form as written rejects ("Spring", y): the season maps to 0,
   * which is falsy, so `if not season` raises although the string form
   * accepts "Spring y".
   */
  lemma ConstructRejectsSpringPair(year: nat)
    ensures Construct([PyStr("Spring"), PyInt(year)]).Err?
    ensures Construct([PyStr("Spring " + NatToString(year))]) == Ok(2 * year)
  {
    ParseCanonical(Spring, year, "");
    assert "Spring " + NatToString(year) + "" == "Spring " + NatToString(year);
  }

  /** The pair form as intended: only a missing season is an error. */
  function ConstructIntended(args: seq<PyValue>): (r: Result<int, SemesterError>)
    ensures |args| == 1 && args[0].PyInt? ==> r == Ok(args[0].i)
    ensures |args| == 1 && args[0].PyStr? ==> r == Parse(args[0].s)
    ensures (!(|args| == 1 && !args[0].PyOther?) &&
             !(|args| == 2 && args[0].PyStr? && args[1].PyInt?)) ==> r.Err? && r.error.TypeError?
  {
    if |args| == 1 && args[0].PyInt? then Ok(args[0].i)
    else if |args| == 1 && args[0].PyStr? then Parse(args[0].s)
    else if |args| == 2 && args[0].PyStr? && args[1].PyInt? then
      var season := SeasonByName(args[0].s);
      if season.None? then
        Err(ValueError("semester seasons must match \"Spring\" or \"Fall\""))
      else Ok(Encode(season.value, args[1].i))
    else Err(TypeError("expected int, str, or *(str, int)"))
  }

  /**
   * With the intended test, the pair form agrees with the string form for
   * both seasons, and any other season name is a ValueError.
   */
  lemma ConstructIntendedPairMatchesString(name: string, year: nat)
    ensures name == "Spring" || name == "Fall" ==>
      ConstructIntended([PyStr(name), PyInt(year)]) == Parse(name + " " + NatToString(year))
    ensures name != "Spring" && name != "Fall" ==>
      ConstructIntended([PyStr(name), PyInt(year)]).Err? &&
      ConstructIntended([PyStr(name), PyInt(year)]).error.ValueError?
  {
    if name == "Spring" || name == "Fall" {
      var season := SeasonByName(name).value;
      ParseCanonical(season, year, "");
      assert name + " " + NatToString(year) + "" == name + " " + NatToString(year);
    }
  }

  /**
   * A string "<season> <year>", followed by anything that does not continue
   * the digits, parses to 2·year + season.
   */
  lemma ParseCanonical(season: Season, year: nat, rest: string)
    requires |rest| > 0 ==> !IsDigit(rest[0])
    ensures Parse(SeasonName(season) + " " + NatToString(year) + rest) ==
            Ok(Encode(season, year))
  {
    MatchDigits(season, NatToString(year), rest);
    ParseNatToString(year);
  }

  /** The matcher finds the season and the whole run of digits after it. */
  lemma MatchDigits(season: Season, digits: string, rest: string)
    requires |digits| >= 1 && AllDigits(digits)
    requires |rest| > 0 ==> !IsDigit(rest[0])
    ensures MatchSeasonYear(SeasonName(season) + " " + digits + rest) == Some((season, digits))
  {
    var s := SeasonName(season) + " " + digits + rest;
    if season == Spring {
      assert s == "Spring " + digits + rest;
      MatchSpring(digits, rest);
    } else {
      assert s == "Fall " + digits + rest;
      MatchFall(digits, rest);
    }
  }

  /** The matcher finds "Spring" and the whole run of digits after it. */
  lemma MatchSpring(digits: string, rest: string)
    requires |digits| >= 1 && AllDigits(digits)
    requires |rest| > 0 ==> !IsDigit(rest[0])
    ensures MatchSeasonYear("Spring " + digits + rest) == Some((Spring, digits))
  {
    var s := "Spring " + digits + rest;
    assert s[..7] == "Spring " && s[7..] == digits + rest;
    LeadingDigitsOfDigitsThen(digits, rest);
  }

  /** The matcher finds "Fall" and the whole run of digits after it. */
  lemma MatchFall(digits: string, rest: string)
    requires |digits| >= 1 && AllDigits(digits)
    requires |rest| > 0 ==> !IsDigit(rest[0])
    ensures MatchSeasonYear("Fall " + digits + rest) == Some((Fall, digits))
  {
    var s := "Fall " + digits + rest;
    assert s[..5] == "Fall " && s[5..] == digits + rest;
    assert !StartsWith(s, "Spring ") by { assert s[0] == 'F'; }
    LeadingDigitsOfDigitsThen(digits, rest);
  }

  /** Printing then parsing gives back every non-negative semester. */
  lemma ParseRepr(v: int)
    requires v >= 0
    ensures Parse(Repr(v)) == Ok(v)
  {
    ParseCanonical(SeasonOf(v), YearOf(v), "");
    assert Repr(v) + "" == Repr(v);
  }

  /** A negative value prints with a minus sign that the pattern does not accept. */
  lemma ReprNegativeDoesNotParse(v: int)
    requires v < 0
    ensures Parse(Repr(v)).Err?
  {
    var s := Repr(v);
    ReprSeason(v);
    var p := SeasonName(SeasonOf(v)) + " ";
    assert s[|p|] == '-';
    if StartsWith(s, "Spring ") {
      assert s[7..][0] == '-';
    }
    if StartsWith(s, "Fall ") {
      assert s[5..][0] == '-';
    }
  }

  /**
   * Parsing then printing reproduces the matched "<season> <year>" prefix
   * with the year's leading zeros dropped: "Fall 0001933" prints as "Fall 1933".
   */
  lemma ReprParse(s: string)
    requires Parse(s).Ok?
    ensures var (season, digits) := MatchSeasonYear(s).value;
      Repr(Parse(s).value) == SeasonName(season) + " " + StripLeadingZeros(digits)
  {
    var (season, digits) := MatchSeasonYear(s).value;
    DecodeEncode(season, ParseDigits(digits));
    PrintParsedDigits(digits);
  }

  /** `s + k` and `s - k`: a new semester shifted by k semesters. */
  function Add(v: int, k: int): int { v + k }

  function Sub(v: int, k: int): int { v - k }

  /** One semester on: Spring y becomes Fall y, and Fall y becomes Spring y+1. */
  lemma AddOne(v: int)
    ensures SeasonOf(v) == Spring ==> SeasonOf(Add(v, 1)) == Fall && YearOf(Add(v, 1)) == YearOf(v)
    ensures SeasonOf(v) == Fall ==> SeasonOf(Add(v, 1)) == Spring && YearOf(Add(v, 1)) == YearOf(v) + 1
  {
  }

  /** Shifting by 2k semesters moves the year by k and keeps the season. */
  lemma AddYears(v: int, k: int)
    ensures SeasonOf(Add(v, 2 * k)) == SeasonOf(v) && YearOf(Add(v, 2 * k)) == YearOf(v) + k
  {
  }

  lemma SubAdd(v: int, k: int)
    ensures Sub(Add(v, k), k) == v && Add(Sub(v, k), k) == v
  {
  }

  /**
   * The integer order is the calendar order: earlier year first, and within
   * a year Spring before Fall.
   */
  lemma OrderIsCalendarOrder(v: int, w: int)
    ensures v < w <==>
      YearOf(v) < YearOf(w) ||
      (YearOf(v) == YearOf(w) && SeasonOf(v) == Spring && SeasonOf(w) == Fall)
  {
  }
}
