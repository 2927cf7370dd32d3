/**
 * The records of `family_tree/records.py`: one record per directory row,
 * with a key, a name, an optional parent key and an optional semester.
 * Member badges are read with `int` and printed with `'{:04d}'`; brothers and
 * candidates have no badge and draw their keys from class counters.
 */
module Records {
  import opened Wrappers
  import opened Text
  import L = LegacySemester

  /** `RecordError(message)`, or the `TypeError` that `int(None)` raises and nothing catches. */
  datatype RecordError = RecordError(message: string) | TypeError

  datatype Record = Record(key: string, name: string, parentKey: Option<string>, semester: Option<L.Semester>)

  /** A field of a row: `None`, or the text the row holds. */
  type Field = Option<string>

  /** Python truthiness of a field: present and non-empty. */
  predicate Truthy(f: Field) { f.Some? && f.value != "" }

  /** The text `'{}'.format(field)` prints. */
  function FieldText(f: Field): string {
    if f.Some? then f.value else "None"
  }

  // ---------------------------------------------------------------------------
  // Badges: int(badge) and '{:04d}'
  // ---------------------------------------------------------------------------

  /** `s` without the whitespace `int` skips at its front. */
  function IntStripLeft(s: string): (r: string)
    ensures |r| <= |s| && r == s[|s| - |r|..]
    ensures |r| > 0 ==> !IsIntSpace(r[0])
  {
    if |s| > 0 && IsIntSpace(s[0]) then IntStripLeft(s[1..]) else s
  }

  /** `s` without the whitespace `int` skips at its back. */
  function IntStripRight(s: string): (r: string)
    ensures |r| <= |s| && r == s[..|r|]
    ensures |r| > 0 ==> !IsIntSpace(r[|r| - 1])
  {
    if |s| > 0 && IsIntSpace(s[|s| - 1]) then IntStripRight(s[..|s| - 1]) else s
  }

  /** `s` without the whitespace `int` skips at either end. */
  function IntStrip(s: string): (r: string)
    ensures |r| > 0 ==> !IsIntSpace(r[0]) && !IsIntSpace(r[|r| - 1])
  {
    IntStripRight(IntStripLeft(s))
  }

  /** `int(s)` on a string: surrounding whitespace, an optional sign, then decimal digits. */
  function ParseInt(s: string): (r: Option<int>)
    ensures r.Some? ==> |IntStrip(s)| >= 1
  {
    ParseSigned(IntStrip(s))
  }

  /** What `int` reads once the whitespace is gone: an optional sign, then decimal digits. */
  function ParseSigned(t: string): (r: Option<int>)
    ensures r.Some? ==> |t| >= 1
  {
    if |t| >= 1 && (t[0] == '-' || t[0] == '+') then
      var d := t[1..];
      if |d| >= 1 && AllDigits(d) then
        var n: int := ParseDigits(d);
        Some(if t[0] == '-' then -n else n)
      else None
    else if |t| >= 1 && AllDigits(t) then Some(ParseDigits(t))
    else None
  }

  /** Zeros on the left of `d` up to `width` characters. */
  function ZeroFill(d: string, width: nat): (r: string)
    ensures |r| == if |d| >= width then |d| else width
  {
    if |d| >= width then d else L.Zeros(width - |d|) + d
  }

  /** `'{:04d}'.format(n)`: at least four characters, the sign counting as one. */
  function FormatBadge(n: int): (r: string)
    ensures |r| >= 4
    ensures n >= 0 ==> AllDigits(r)
    ensures n < 0 ==> r[0] == '-' && AllDigits(r[1..])
  {
    if n >= 0 then ZeroFill(NatToString(n), 4) else "-" + ZeroFill(NatToString(-n), 3)
  }

  /** Short badges are padded with zeros to four characters, after the sign. */
  lemma FormatBadgePadded()
    ensures FormatBadge(1) == "0001"
    ensures FormatBadge(-1) == "-001"
  {
    assert NatToString(1) == "1";
    assert L.Zeros(1) == "0";
    assert L.Zeros(2) == "0" + L.Zeros(1) == "00";
    assert L.Zeros(3) == "0" + L.Zeros(2) == "000";
  }

  /** A badge wider than four digits is printed in full. */
  lemma FormatBadgeWide()
    ensures FormatBadge(12345) == "12345"
  {
    assert NatToString(1) == "1";
    assert NatToString(12) == NatToString(1) + "2";
    assert NatToString(123) == NatToString(12) + "3";
    assert NatToString(1234) == NatToString(123) + "4";
    assert NatToString(12345) == NatToString(1234) + "5";
  }

  /** Zero-filled digits read back as the number they started from. */
  lemma ZeroFillParse(n: nat, width: nat)
    ensures AllDigits(ZeroFill(NatToString(n), width))
    ensures ParseDigits(ZeroFill(NatToString(n), width)) == n
  {
    var d := NatToString(n);
    ParseNatToString(n);
    if |d| < width {
      L.LeadingZerosParse(width - |d|, d);
    }
  }

  /** A string with no whitespace at either end is left alone by `int`'s stripping. */
  lemma StripUnchanged(s: string)
    requires |s| >= 1 && !IsIntSpace(s[0]) && !IsIntSpace(s[|s| - 1])
    ensures IntStrip(s) == s
  {
  }

  /** Whitespace that `int` skips, such as the non-ASCII U+3000, does not change what a string reads as. */
  lemma IntSkipsSpace(c: char, d: string)
    requires IsIntSpace(c)
    ensures ParseInt([c] + d) == ParseInt(d)
  {
    assert ([c] + d)[1..] == d;
    assert IntStripLeft([c] + d) == IntStripLeft(d);
    assert IntStrip([c] + d) == IntStrip(d);
  }

  /** A string that starts with one of the ASCII separators U+001C..U+001F, which `strip()` removes, is never an int. */
  lemma {:induction false} IntKeepsSeparators(c: char, d: string)
    requires '\U{001C}' <= c <= '\U{001F}'
    ensures ParseInt([c] + d) == None
  {
    var s := [c] + d;
    assert IntStripLeft(s) == s;
    StripRightKeepsFirst(s);
    assert IntStrip(s)[0] == c;
    assert !IsDigit(c) && c != '-' && c != '+';
  }

  /** Stripping from the right stops at a first character `int` does not skip. */
  lemma {:induction false} StripRightKeepsFirst(s: string)
    requires |s| > 0 && !IsIntSpace(s[0])
    ensures |IntStripRight(s)| > 0 && IntStripRight(s)[0] == s[0]
    decreases |s|
  {
    if |s| > 1 && IsIntSpace(s[|s| - 1]) {
      StripRightKeepsFirst(s[..|s| - 1]);
    }
  }

  /** `int` of a run of digits is their value. */
  lemma ParseIntDigits(t: string, m: nat)
    requires |t| >= 1 && AllDigits(t) && ParseDigits(t) == m
    ensures ParseInt(t) == Some(m)
  {
    StripUnchanged(t);
  }

  lemma ParseFormatNonNegative(n: nat)
    ensures ParseInt(FormatBadge(n)) == Some(n)
  {
    var d := ZeroFill(NatToString(n), 4);
    ZeroFillParse(n, 4);
    ParseIntDigits(d, n);
  }

  lemma ParseFormatNegative(n: int)
    requires n < 0
    ensures ParseInt(FormatBadge(n)) == Some(n)
  {
    var d := ZeroFill(NatToString(-n), 3);
    ZeroFillParse(-n, 3);
    var t := "-" + d;
    assert t[|t| - 1] == d[|d| - 1];
    ParseIntUnstripped(t);
    ParseSignedNegative(d);
  }

  /** With nothing to strip, `int` reads the sign and digits directly. */
  lemma ParseIntUnstripped(t: string)
    requires |t| >= 1 && !IsIntSpace(t[0]) && !IsIntSpace(t[|t| - 1])
    ensures ParseInt(t) == ParseSigned(t)
  {
    StripUnchanged(t);
  }

  /** A minus sign before a run of digits negates their value. */
  lemma ParseSignedNegative(d: string)
    requires |d| >= 1 && AllDigits(d)
    ensures ParseSigned("-" + d) == Some(-(ParseDigits(d) as int))
  {
    assert ("-" + d)[1..] == d;
  }

  /** Reading a printed badge gives its number back. */
  lemma ParseFormatBadge(n: int)
    ensures ParseInt(FormatBadge(n)) == Some(n)
  {
    if n >= 0 {
      ParseFormatNonNegative(n);
    } else {
      ParseFormatNegative(n);
    }
  }

  /** `MemberRecord.read_badge`: the badge as an int, printed with four digits. */
  function ReadBadge(badge: Field): (r: Result<string, RecordError>)
    ensures badge.None? ==> r == Err(TypeError)
    ensures badge.Some? ==> (r.Ok? <==> ParseInt(badge.value).Some?)
    ensures r.Err? && badge.Some? ==> r.error.RecordError?
  {
    if badge.None? then Err(TypeError)
    else
      match ParseInt(badge.value)
      case None => Err(RecordError("Unexpected badge number: \"" + badge.value + "\""))
      case Some(n) => Ok(FormatBadge(n))
  }

  /** A badge read from a row names the same number, in at least four characters. */
  lemma ReadBadgeKeepsNumber(badge: Field)
    ensures ReadBadge(badge).Ok? ==> ParseInt(ReadBadge(badge).value) == ParseInt(badge.value)
    ensures ReadBadge(badge).Ok? ==> |ReadBadge(badge).value| >= 4
  {
    if ReadBadge(badge).Ok? {
      ParseFormatBadge(ParseInt(badge.value).value);
    }
  }

  /** `MemberRecord.read_big_badge`: no big badge, or a badge read like a member's own. */
  function ReadBigBadge(bigBadge: Field): (r: Result<Option<string>, RecordError>)
    ensures !Truthy(bigBadge) ==> r == Ok(None)
    ensures r.Ok? && r.value.Some? ==> Truthy(bigBadge)
  {
    if !Truthy(bigBadge) then Ok(None)
    else
      match ParseInt(bigBadge.value)
      case None => Err(RecordError("Unexpected big badge number: \"" + bigBadge.value + "\""))
      case Some(n) => Ok(Some(FormatBadge(n)))
  }

  /** A big badge given is read exactly as a member's badge is, only the message differs. */
  lemma BigBadgeLikeBadge(bigBadge: Field)
    requires Truthy(bigBadge)
    ensures ReadBigBadge(bigBadge).Ok? <==> ReadBadge(bigBadge).Ok?
    ensures ReadBigBadge(bigBadge).Ok? ==> ReadBigBadge(bigBadge).value == Some(ReadBadge(bigBadge).value)
  {
  }

  // ---------------------------------------------------------------------------
  // Names and semesters
  // ---------------------------------------------------------------------------

  /** `choose_name(first, preferred, last)`, taken as given. */
  type NameChooser = (string, Field, string) -> string

  /** `MemberRecord.read_name`: first and last name are both required. */
  function ReadName(first: Field, preferred: Field, last: Field, choose: NameChooser): (r: Result<string, RecordError>)
    ensures r.Ok? <==> Truthy(first) && Truthy(last)
    ensures r.Ok? ==> r.value == choose(first.value, preferred, last.value)
  {
    if Truthy(first) && Truthy(last) then Ok(choose(first.value, preferred, last.value))
    else Err(RecordError("Missing first or last name"))
  }

  /** `BrotherRecord.read_name`: the last name alone. */
  function BrotherName(last: Field): (r: Result<string, RecordError>)
    ensures r.Ok? <==> Truthy(last)
    ensures r.Ok? ==> r.value == last.value
  {
    if Truthy(last) then Ok(last.value) else Err(RecordError("Missing last name"))
  }

  const ExpelledText := "Member Expelled"

  /** `ExpelledRecord.read_name`: both names required, neither shown. */
  function ExpelledName(first: Field, last: Field): (r: Result<string, RecordError>)
    ensures r.Ok? <==> Truthy(first) && Truthy(last)
    ensures r.Ok? ==> r.value == ExpelledText
  {
    if Truthy(first) && Truthy(last) then Ok(ExpelledText) else Err(RecordError("Missing first or last name"))
  }

  /** `Record.read_semester`: a semester, or `None` for a missing or unreadable one. */
  function ReadSemester(semester: Field): (r: Option<L.Semester>)
    ensures r.Some? ==> Truthy(semester) && L.Parse(semester.value) == Ok(r.value)
    ensures Truthy(semester) && L.Parse(semester.value).Ok? ==> r.Some?
  {
    if !Truthy(semester) then None
    else
      match L.Parse(semester.value)
      case Ok(s) => Some(s)
      case Err(_) => None
  }

  /** The printed form of a semester is read back as that semester. */
  lemma ReadSemesterOfStr(season: L.S.Season, year: nat)
    ensures ReadSemester(Some(L.Str(L.Term(season, year)))) == Some(L.Term(season, year))
  {
    L.ParseStr(L.Term(season, year));
  }

  // ---------------------------------------------------------------------------
  // Reorganization and chapter records
  // ---------------------------------------------------------------------------

  /** `ReorganizationRecord(semester)`: the semester is required; the key names it. */
  function Reorganization(semester: Field): (r: Result<Record, RecordError>)
    ensures r.Ok? <==> semester.Some? && L.Parse(semester.value).Ok?
    ensures r.Ok? ==> r.value.semester == Some(L.Parse(semester.value).value)
    ensures r.Ok? ==> r.value.key == L.Str(r.value.semester.value) + " Reorganization"
    ensures r.Ok? ==> r.value.name == "Reorganization" && r.value.parentKey.None?
    ensures r.Err? ==> r.error == RecordError("Invalid reorganization semester: " + FieldText(semester))
  {
    if semester.None? then Err(RecordError("Invalid reorganization semester: " + FieldText(semester)))
    else
      match L.Parse(semester.value)
      case Err(_) => Err(RecordError("Invalid reorganization semester: " + semester.value))
      case Ok(s) => Ok(Record(L.Str(s) + " Reorganization", "Reorganization", None, Some(s)))
  }

  /** Unlike other records, a reorganization refuses a missing or empty semester. */
  lemma ReorganizationNeedsSemester()
    ensures Reorganization(None).Err? && Reorganization(Some("")).Err?
    ensures ReadSemester(None).None? && ReadSemester(Some("")).None?
  {
    assert L.S.MatchSeasonYear("").None?;
  }

  /** `ChapterRecord(designation, name, semester)`: keyed by its designation, without a parent. */
  function Chapter(designation: Field, name: Field, semester: Field): (r: Result<Record, RecordError>)
    ensures r.Ok? <==> Truthy(designation) && Truthy(name)
    ensures !Truthy(designation) ==> r == Err(RecordError("Missing chapter designation"))
    ensures Truthy(designation) && !Truthy(name) ==> r == Err(RecordError("Missing chapter name"))
    ensures r.Ok? ==> r.value == Record(designation.value, name.value, None, ReadSemester(semester))
  {
    if !Truthy(designation) then Err(RecordError("Missing chapter designation"))
    else if !Truthy(name) then Err(RecordError("Missing chapter name"))
    else Ok(Record(designation.value, name.value, None, ReadSemester(semester)))
  }

  // ---------------------------------------------------------------------------
  // Member records
  // ---------------------------------------------------------------------------

  datatype MemberFields = MemberFields(badge: Field, firstName: Field, preferredName: Field, lastName: Field,
                                       bigBadge: Field, pledgeSemester: Field)

  /**
   * `MemberRecord.__init__`: the key, then the name, then the big badge are
   * read in that order, and the first failure is the one raised.
   */
  function MemberRecord(key: Result<string, RecordError>, name: Result<string, RecordError>, f: MemberFields)
    : (r: Result<Record, RecordError>)
    ensures key.Err? ==> r == Err(key.error)
    ensures key.Ok? && name.Err? ==> r == Err(name.error)
    ensures r.Ok? <==> key.Ok? && name.Ok? && ReadBigBadge(f.bigBadge).Ok?
    ensures r.Ok? ==> r.value == Record(key.value, name.value, ReadBigBadge(f.bigBadge).value,
                                        ReadSemester(f.pledgeSemester))
  {
    if key.Err? then Err(key.error)
    else if name.Err? then Err(name.error)
    else
      var parent := ReadBigBadge(f.bigBadge);
      if parent.Err? then Err(parent.error)
      else Ok(Record(key.value, name.value, parent.value, ReadSemester(f.pledgeSemester)))
  }

  /** `KnightRecord(**row)` */
  function KnightRecord(f: MemberFields, choose: NameChooser): (r: Result<Record, RecordError>)
    ensures r.Ok? ==> f.badge.Some? && ParseInt(r.value.key) == ParseInt(f.badge.value) && |r.value.key| >= 4
    ensures r.Ok? ==> Truthy(f.firstName) && Truthy(f.lastName)
  {
    var key := ReadBadge(f.badge);
    ReadBadgeKeepsNumber(f.badge);
    MemberRecord(key, ReadName(f.firstName, f.preferredName, f.lastName, choose), f)
  }

  /** `ExpelledRecord(**row)`: a knight's record under the name "Member Expelled". */
  function ExpelledRecord(f: MemberFields): (r: Result<Record, RecordError>)
    ensures r.Ok? ==> f.badge.Some? && ParseInt(r.value.key) == ParseInt(f.badge.value) && r.value.name == ExpelledText
  {
    var key := ReadBadge(f.badge);
    ReadBadgeKeepsNumber(f.badge);
    MemberRecord(key, ExpelledName(f.firstName, f.lastName), f)
  }

  /** An expelled member's record is a knight's record, renamed. */
  lemma ExpelledIsRenamedKnight(f: MemberFields, choose: NameChooser)
    ensures ExpelledRecord(f).Ok? <==> KnightRecord(f, choose).Ok?
    ensures ExpelledRecord(f).Ok? ==> ExpelledRecord(f).value == KnightRecord(f, choose).value.(name := ExpelledText)
  {
  }

  /** `ReaffiliateRecord(**row)`: a reaffiliation row makes no record. */
  function Reaffiliate(f: MemberFields): (r: Option<Record>)
    ensures r.None?
  {
    None
  }

  /** `'B{}'.format(n)` and `'C{}'.format(n)`: the keys the counters hand out. */
  function SyntheticKey(prefix: char, n: nat): string {
    [prefix] + NatToString(n)
  }

  /** `BrotherRecord.read_badge` given the counter's value: no badge allowed. */
  function BrotherBadge(badge: Field, id: nat): (r: Result<string, RecordError>)
    ensures r.Ok? <==> !Truthy(badge)
    ensures r.Ok? ==> r.value == SyntheticKey('B', id)
  {
    if Truthy(badge) then Err(RecordError("Unknighted brothers do not have badge numbers"))
    else Ok(SyntheticKey('B', id))
  }

  /** `CandidateRecord.read_badge` given the counter's value: no badge allowed. */
  function CandidateBadge(badge: Field, id: nat): (r: Result<string, RecordError>)
    ensures r.Ok? <==> !Truthy(badge)
    ensures r.Ok? ==> r.value == SyntheticKey('C', id)
  {
    if Truthy(badge) then Err(RecordError("Candidates do not have badge numbers"))
    else Ok(SyntheticKey('C', id))
  }

  /** Different counter values give different keys. */
  lemma SyntheticKeysDistinct(prefix: char, m: nat, n: nat)
    requires m != n
    ensures SyntheticKey(prefix, m) != SyntheticKey(prefix, n)
  {
    if SyntheticKey(prefix, m) == SyntheticKey(prefix, n) {
      assert NatToString(m) == SyntheticKey(prefix, m)[1..];
      assert NatToString(n) == SyntheticKey(prefix, n)[1..];
      ParseNatToString(m);
      ParseNatToString(n);
    }
  }

  /** A key a counter hands out is never a printed badge, nor one of the other counter's keys. */
  lemma SyntheticKeysAreNotBadges(m: nat, n: int)
    ensures SyntheticKey('B', m) != FormatBadge(n)
    ensures SyntheticKey('C', m) != FormatBadge(n)
    ensures SyntheticKey('B', m) != SyntheticKey('C', m)
  {
    var b := FormatBadge(n);
    assert SyntheticKey('B', m)[0] == 'B' && SyntheticKey('C', m)[0] == 'C';
    assert b[0] == '-' || IsDigit(b[0]);
  }

  /** The class-level counters `BrotherRecord.brother_id` and `CandidateRecord.candidate_id`. */
  class RecordCounters {
    var brotherId: nat
    var candidateId: nat

    constructor ()
      ensures brotherId == 0 && candidateId == 0
    {
      brotherId := 0;
      candidateId := 0;
    }

    /** `BrotherRecord(**row)`: the counter moves exactly when the row has no badge. */
    method NewBrotherRecord(f: MemberFields) returns (r: Result<Record, RecordError>)
      modifies this
      ensures brotherId == old(brotherId) + (if Truthy(f.badge) then 0 else 1)
      ensures candidateId == old(candidateId)
      ensures r == MemberRecord(BrotherBadge(f.badge, old(brotherId)), BrotherName(f.lastName), f)
    {
      var key: Result<string, RecordError>;
      if Truthy(f.badge) {
        key := Err(RecordError("Unknighted brothers do not have badge numbers"));
      } else {
        brotherId := brotherId + 1;
        key := Ok(SyntheticKey('B', brotherId - 1));
      }
      assert key == BrotherBadge(f.badge, old(brotherId));
      r := MemberRecord(key, BrotherName(f.lastName), f);
    }

    /** `CandidateRecord(**row)`: the counter moves exactly when the row has no badge. */
    method NewCandidateRecord(f: MemberFields, choose: NameChooser) returns (r: Result<Record, RecordError>)
      modifies this
      ensures candidateId == old(candidateId) + (if Truthy(f.badge) then 0 else 1)
      ensures brotherId == old(brotherId)
      ensures r == MemberRecord(CandidateBadge(f.badge, old(candidateId)),
                                ReadName(f.firstName, f.preferredName, f.lastName, choose), f)
    {
      var key: Result<string, RecordError>;
      if Truthy(f.badge) {
        key := Err(RecordError("Candidates do not have badge numbers"));
      } else {
        candidateId := candidateId + 1;
        key := Ok(SyntheticKey('C', candidateId - 1));
      }
      assert key == CandidateBadge(f.badge, old(candidateId));
      r := MemberRecord(key, ReadName(f.firstName, f.preferredName, f.lastName, choose), f);
    }
  }

  /**
   * Records made at different counter values never share a key: each brother
   * or candidate record made with the counter at n has the key "B<n>" or "C<n>".
   */
  lemma CounterRecordsDistinct(f: MemberFields, g: MemberFields, m: nat, n: nat, choose: NameChooser)
    requires m != n
    ensures var a := MemberRecord(BrotherBadge(f.badge, m), BrotherName(f.lastName), f);
            var b := MemberRecord(BrotherBadge(g.badge, n), BrotherName(g.lastName), g);
            a.Ok? && b.Ok? ==> a.value.key != b.value.key
    ensures var a := MemberRecord(CandidateBadge(f.badge, m), ReadName(f.firstName, f.preferredName, f.lastName, choose), f);
            var b := MemberRecord(CandidateBadge(g.badge, n), ReadName(g.firstName, g.preferredName, g.lastName, choose), g);
            a.Ok? && b.Ok? ==> a.value.key != b.value.key
  {
    SyntheticKeysDistinct('B', m, n);
    SyntheticKeysDistinct('C', m, n);
  }
}
