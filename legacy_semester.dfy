/**
 * The family_tree semester: a (season, year) record parsed from
 * "(Spring|Fall) <digits>", plus the sentinels "max" and "min" (empty season,
 * year ±infinity), with a total order and increment/decrement that build the
 * neighbouring semester's name and parse it again.
 */
module LegacySemester {
  import opened Wrappers
  import opened Text
  import opened S = Semester

  /** A season and a year, or one of the two sentinels with season ''. */
  datatype Semester = Term(season: S.Season, year: nat) | Max | Min

  /** The `year` field: an int, or float('inf') / float('-inf') for the sentinels. */
  datatype Year = NegInf | Finite(n: int) | PosInf

  function YearOf(s: Semester): Year {
    match s
    case Term(_, y) => Finite(y)
    case Max => PosInf
    case Min => NegInf
  }

  predicate YearLess(a: Year, b: Year) {
    match (a, b)
    case (NegInf, NegInf) => false
    case (NegInf, _) => true
    case (Finite(x), Finite(y)) => x < y
    case (Finite(_), PosInf) => true
    case (_, _) => false
  }

  /** `Semester(semester_string)` */
  function Parse(text: string): (r: Result<Semester, string>)
    ensures S.MatchSeasonYear(text).Some? ==>
              r.Ok? && r.value.Term? && r.value.season == S.MatchSeasonYear(text).value.0
    ensures r.Ok? && r.value == Max <==> text == "max"
    ensures r.Ok? && r.value == Min <==> text == "min"
    ensures r.Err? <==> S.MatchSeasonYear(text).None? && text != "max" && text != "min"
  {
    match S.MatchSeasonYear(text)
    case Some((season, digits)) => Ok(Term(season, ParseDigits(digits)))
    case None =>
      if text == "max" then Ok(Max)
      else if text == "min" then Ok(Min)
      else Err("Semester objects must be constructed from strings of the form \"" + S.Pattern +
               "\", but constructor received \"" + text + "\".")
  }

  /** `__eq__`: the (season, year) pairs are equal. */
  predicate Eq(a: Semester, b: Semester) {
    SeasonText(a) == SeasonText(b) && YearOf(a) == YearOf(b)
  }

  lemma EqIsIdentity(a: Semester, b: Semester)
    ensures Eq(a, b) <==> a == b
  {
    if a.Term? && b.Term? && a.season != b.season {
      assert SeasonText(a)[0] != SeasonText(b)[0];
    }
  }

  /** `__lt__`: within a year only Spring < Fall; otherwise the years decide. */
  predicate Less(a: Semester, b: Semester) {
    if YearOf(a) == YearOf(b) then SeasonText(a) == "Spring" && SeasonText(b) == "Fall"
    else YearLess(YearOf(a), YearOf(b))
  }

  /** The comparisons `functools.total_ordering` derives from `__lt__` and `__eq__`. */
  predicate LessEq(a: Semester, b: Semester) { Less(a, b) || Eq(a, b) }

  predicate Greater(a: Semester, b: Semester) { !Less(a, b) && !Eq(a, b) }

  predicate GreaterEq(a: Semester, b: Semester) { !Less(a, b) }

  lemma LessIsStrictTotalOrder(a: Semester, b: Semester, c: Semester)
    ensures !Less(a, a)
    ensures Less(a, b) && Less(b, c) ==> Less(a, c)
    ensures a == b || Less(a, b) || Less(b, a)
    ensures !(Less(a, b) && Less(b, a))
  {
  }

  /** The derived comparisons are the converses a total order should have. */
  lemma DerivedComparisons(a: Semester, b: Semester)
    ensures Greater(a, b) <==> Less(b, a)
    ensures GreaterEq(a, b) <==> LessEq(b, a)
  {
    EqIsIdentity(a, b);
    EqIsIdentity(b, a);
    LessIsStrictTotalOrder(a, b, a);
  }

  /** For ordinary semesters the order is that of snutree's encoding 2·year + season. */
  lemma LessMatchesEncoding(a: Semester, b: Semester)
    requires a.Term? && b.Term?
    ensures Less(a, b) <==> S.Encode(a.season, a.year) < S.Encode(b.season, b.year)
  {
  }

  function SeasonText(s: Semester): string {
    if s.Term? then S.SeasonName(s.season) else ""
  }

  function YearText(y: Year): string {
    match y
    case Finite(n) => IntToString(n)
    case PosInf => "inf"
    case NegInf => "-inf"
  }

  /** `__str__`: "<season> <year>"; the sentinels print as " inf" and " -inf". */
  function Str(s: Semester): string {
    SeasonText(s) + " " + YearText(YearOf(s))
  }

  /** `'<season> {}'.format(year)`: the text increment and decrement build. */
  function Name(season: S.Season, yearText: string): string {
    S.SeasonName(season) + " " + yearText
  }

  /** "<season> <year>" parses to that ordinary semester. */
  lemma ParseName(season: S.Season, year: nat)
    ensures Parse(Name(season, NatToString(year))) == Ok(Term(season, year))
  {
    var d := NatToString(year);
    S.MatchDigits(season, d, "");
    assert Name(season, d) + "" == Name(season, d);
    ParseNatToString(year);
  }

  /** An ordinary semester's string parses back to it. */
  lemma ParseStr(s: Semester)
    requires s.Term?
    ensures Parse(Str(s)) == Ok(s)
  {
    ParseName(s.season, s.year);
  }

  /** A sentinel's string is not "max" or "min" and does not parse. */
  lemma SentinelStrDoesNotParse(s: Semester)
    requires !s.Term?
    ensures Parse(Str(s)).Err?
  {
    var t := Str(s);
    assert t[0] == ' ';
    assert !StartsWith(t, "Spring ") && !StartsWith(t, "Fall ");
  }

  /** Leading zeros in the year do not matter: "Fall 001995" equals "Fall 1995". */
  lemma ParseIgnoresLeadingZeros(season: S.Season, zeros: nat, year: nat)
    ensures Parse(Name(season, Zeros(zeros) + NatToString(year))) == Ok(Term(season, year))
  {
    var d := Zeros(zeros) + NatToString(year);
    LeadingZerosParse(zeros, NatToString(year));
    S.MatchDigits(season, d, "");
    assert Name(season, d) + "" == Name(season, d);
    ParseNatToString(year);
  }

  function Zeros(n: nat): (z: string)
    ensures |z| == n && AllDigits(z)
  {
    if n == 0 then "" else "0" + Zeros(n - 1)
  }

  lemma {:induction false} LeadingZerosParse(zeros: nat, d: string)
    requires |d| >= 1 && AllDigits(d)
    ensures AllDigits(Zeros(zeros) + d)
    ensures ParseDigits(Zeros(zeros) + d) == ParseDigits(d)
  {
    if zeros == 0 {
      assert Zeros(zeros) + d == d;
    } else {
      var z := Zeros(zeros);
      LeadingZerosParse(zeros - 1, d);
      assert z == "0" + Zeros(zeros - 1);
      assert (z + d)[1..] == Zeros(zeros - 1) + d;
      assert (z + d)[0] == '0';
      assert AllDigits(z + d) by {
        forall i | 0 <= i < |z + d| ensures IsDigit((z + d)[i]) {
          if i > 0 {
            assert (z + d)[i] == (z + d)[1..][i - 1];
          }
        }
      }
      ParseLeadingZero(z + d);
    }
  }

  /** The next semester, stated on values. */
  function Next(s: Semester): Semester {
    match s
    case Term(Spring, y) => Term(S.Fall, y)
    case Term(Fall, y) => Term(S.Spring, y + 1)
    case Max => Max
    case Min => Min
  }

  /** `increment`: builds the next semester's name and parses it. */
  function Increment(s: Semester): Result<Semester, string> {
    match s
    case Term(Spring, y) => Parse(Name(S.Fall, NatToString(y)))
    case Term(Fall, y) => Parse(Name(S.Spring, NatToString(y + 1)))
    case Max => Parse("max")
    case Min => Parse("min")
  }

  /** `decrement`: builds the previous semester's name and parses it. */
  function Decrement(s: Semester): Result<Semester, string> {
    match s
    case Term(Fall, y) => Parse(Name(S.Spring, NatToString(y)))
    case Term(Spring, y) => Parse(Name(S.Fall, IntToString(y - 1)))
    case Max => Parse("max")
    case Min => Parse("min")
  }

  lemma IncrementIsNext(s: Semester)
    ensures Increment(s) == Ok(Next(s))
    ensures s.Term? ==> Less(s, Next(s))
  {
    match s
    case Term(Spring, y) => ParseName(S.Fall, y);
    case Term(Fall, y) => ParseName(S.Spring, y + 1);
    case Max =>
    case Min =>
  }

  /**
   * Decrementing is the inverse of incrementing, except that Spring 0 has no
   * predecessor: its decrement builds "Fall -1", which does not parse.
   */
  lemma DecrementIsPrevious(s: Semester)
    ensures s == Term(S.Spring, 0) ==> Decrement(s).Err?
    ensures s != Term(S.Spring, 0) ==> Decrement(s).Ok? && Next(Decrement(s).value) == s
  {
    match s
    case Term(Fall, y) => ParseName(S.Spring, y);
    case Term(Spring, y) =>
      if y == 0 {
        SpringZeroHasNoPredecessor();
      } else {
        ParseName(S.Fall, y - 1);
      }
    case Max =>
    case Min =>
  }

  lemma SpringZeroHasNoPredecessor()
    ensures Parse(Name(S.Fall, IntToString(-1))).Err?
  {
    var t := Name(S.Fall, IntToString(-1));
    assert t == "Fall -1";
    assert LeadingDigits(t[5..]) == "";
  }

  lemma NextInjective(a: Semester, b: Semester)
    ensures Next(a) == Next(b) ==> a == b
  {
  }

  lemma DecrementIncrement(s: Semester)
    ensures Increment(s).Ok? && Decrement(Increment(s).value) == Ok(s)
  {
    IncrementIsNext(s);
    assert Next(s) != Term(S.Spring, 0);
    DecrementIsPrevious(Next(s));
    NextInjective(Decrement(Next(s)).value, s);
  }

  lemma IncrementDecrement(s: Semester)
    requires Decrement(s).Ok?
    ensures Increment(Decrement(s).value) == Ok(s)
  {
    DecrementIsPrevious(s);
    IncrementIsNext(Decrement(s).value);
  }
}
