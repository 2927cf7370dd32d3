/**
 * The Sigma Nu members of `snutree/member/sigmanu.py`: the status table,
 * `from_dict` (status dispatch, the schema check, the constructors with
 * their class-level counters), the labels, and `validate`, which refuses an
 * affiliation used twice.
 *
 * The schema check is voluptuous's: an unknown key, a missing required key
 * or a value its validator rejects fails the row.
 */
module SigmaNuMembers {
  import opened Wrappers
  import opened Text
  import opened Affiliations
  import Semester
  import V = Validators

  /** A directory row: field name to text. */
  type Row = map<string, string>

  /** `combine_names(first, preferred, last)`: an opaque choice between two names. */
  type NameCombiner = (string, Option<string>, string) -> string

  datatype MemberType = KnightType | BrotherType | CandidateType | ExpelledType

  /** Each class's `allowed` statuses. */
  function Allowed(t: MemberType): set<string> {
    match t
    case KnightType => {"Active", "Alumni", "Left School"}
    case BrotherType => {"Brother"}
    case CandidateType => {"Candidate"}
    case ExpelledType => {"Expelled"}
  }

  /** The statuses `allowed` gives each type in turn, a later type overriding an earlier one. */
  function StatusTable(allowed: MemberType -> set<string>, types: seq<MemberType>): (table: map<string, MemberType>)
    ensures forall s :: s in table <==> exists i :: 0 <= i < |types| && s in allowed(types[i])
    ensures forall s :: s in table ==> s in allowed(table[s])
  {
    if types == [] then map[]
    else
      var last := types[|types| - 1];
      var earlier := StatusTable(allowed, types[..|types| - 1]);
      assert forall i :: 0 <= i < |types| - 1 ==> types[..|types| - 1][i] == types[i];
      earlier + map s | s in allowed(last) :: last
  }

  /** `member_types`, filled from Candidate, Brother, Knight, Expelled in that order. */
  const MemberTypes: map<string, MemberType> := StatusTable(Allowed, [CandidateType, BrotherType, KnightType, ExpelledType])

  /** A status only one of the types allows is sent to that type. */
  lemma {:induction false} StatusTableUnique(allowed: MemberType -> set<string>, types: seq<MemberType>, i: nat,
                                             status: string)
    requires i < |types| && status in allowed(types[i])
    requires forall j :: 0 <= j < |types| && j != i ==> status !in allowed(types[j])
    ensures status in StatusTable(allowed, types) && StatusTable(allowed, types)[status] == types[i]
  {
    var n := |types| - 1;
    var init := types[..n];
    if i < n {
      forall j | 0 <= j < n && j != i ensures status !in allowed(init[j]) {
        assert init[j] == types[j];
      }
      StatusTableUnique(allowed, init, i, status);
    }
  }

  /** The position of each type in the order `member_types` is filled. */
  function FillOrder(t: MemberType): (i: nat)
    ensures i < 4 && [CandidateType, BrotherType, KnightType, ExpelledType][i] == t
  {
    match t
    case CandidateType => 0
    case BrotherType => 1
    case KnightType => 2
    case ExpelledType => 3
  }

  /** The statuses are disjoint, so the table sends each status to the one type that allows it. */
  lemma MemberTypesTable(status: string, t: MemberType)
    ensures status in MemberTypes && MemberTypes[status] == t <==> status in Allowed(t)
  {
    var types := [CandidateType, BrotherType, KnightType, ExpelledType];
    if status in Allowed(t) {
      var i := FillOrder(t);
      forall j | 0 <= j < |types| && j != i ensures status !in Allowed(types[j]) {
        assert types[j] != t;
      }
      StatusTableUnique(Allowed, types, i, status);
    }
  }

  // ---------------------------------------------------------------------------
  // Members
  // ---------------------------------------------------------------------------

  datatype Member =
    | Knight(key: string, name: string, parent: Option<string>, semester: Option<int>,
             affiliations: set<Affiliation>)
    | Brother(key: string, name: string, parent: Option<string>, semester: Option<int>)
    | Candidate(key: string, name: string, parent: Option<string>, semester: Option<int>)
    | Expelled(key: string, parent: Option<string>, semester: Option<int>, listed: seq<Affiliation>)

  /** What `member.affiliations` holds, as a set. */
  function AffiliationSet(m: Member): set<Affiliation> {
    match m
    case Knight(_, _, _, _, affs) => affs
    case Expelled(_, _, _, listed) => set a | a in listed
    case _ => {}
  }

  datatype MemberError =
    | InvalidStatus(status: Option<string>)
    | InvalidRow
    | UnexpectedKeyword(keyword: string)
    | DuplicateAffiliation

  /** The fields a schema lets through, each already validated. */
  datatype Fields = Fields(
    badge: Option<string>,
    firstName: Option<string>,
    preferredName: Option<string>,
    lastName: Option<string>,
    bigBadge: Option<string>,
    pledgeSemester: Option<int>,
    affiliations: Option<seq<Affiliation>>,
    affiliationsGiven: bool)

  function Field(row: Row, k: string): Option<string> {
    if k in row then Some(row[k]) else None
  }

  /** The keys each schema names. */
  function SchemaKeys(t: MemberType): set<string> {
    var common := {"status", "first_name", "preferred_name", "last_name", "big_badge", "pledge_semester", "affiliations"};
    match t
    case KnightType => common + {"badge"}
    case ExpelledType => common + {"badge"}
    case _ => common
  }

  /** `NonEmptyString` on an optional field, `Required` or not. */
  function CheckText(row: Row, k: string, required: bool): (r: Result<Option<string>, MemberError>)
    ensures r.Ok? <==> (k in row ==> |row[k]| > 0) && (required ==> k in row)
    ensures r.Ok? ==> r.value == Field(row, k)
  {
    if k !in row then (if required then Err(InvalidRow) else Ok(None))
    else match V.NonEmptyString(Semester.PyStr(row[k]))
      case Ok(v) => Ok(Some(v))
      case Err(_) => Err(InvalidRow)
  }

  /** `Digits` on the required badge. */
  function CheckBadge(row: Row): (r: Result<Option<string>, MemberError>)
    ensures r.Ok? ==> r.value.Some? && CanonicalDigitsPrefix(r.value.value)
  {
    if "badge" !in row then Err(InvalidRow)
    else match V.Digits(row["badge"])
      case Ok(d) => Ok(Some(d))
      case Err(_) => Err(InvalidRow)
  }

  /** A non-empty run of digits. */
  predicate CanonicalDigitsPrefix(d: string) { |d| >= 1 && AllDigits(d) }

  /** `Coerce(Semester)` on the optional pledge semester. */
  function CheckSemester(row: Row): Result<Option<int>, MemberError> {
    if "pledge_semester" !in row then Ok(None)
    else match Semester.Construct([Semester.PyStr(row["pledge_semester"])])
      case Ok(v) => Ok(Some(v))
      case Err(_) => Err(InvalidRow)
  }

  /** `[parse(a) for a in pieces]`, failing on the first piece that does not parse. */
  function ParseAll<A, E>(parse: string -> Result<A, E>, pieces: seq<string>): (r: Result<seq<A>, MemberError>)
    ensures r.Ok? ==> (|r.value| == |pieces| &&
      forall i :: 0 <= i < |pieces| ==> parse(pieces[i]) == Ok(r.value[i]))
    ensures r.Ok? <==> forall i :: 0 <= i < |pieces| ==> parse(pieces[i]).Ok?
  {
    if pieces == [] then Ok([])
    else match parse(pieces[0])
      case Err(_) => Err(InvalidRow)
      case Ok(a) =>
        match ParseAll(parse, pieces[1..])
        case Err(e) => Err(e)
        case Ok(rest) => Ok([a] + rest)
  }

  /** `Affiliation(a)` on one piece of the list. */
  function AffiliationOf(piece: string): Result<Affiliation, AffiliationError> {
    Affiliations.Construct(FromString(piece))
  }

  /** `[Affiliation(a) for a in pieces]`, failing on the first piece that does not parse. */
  function AffiliationsOf(pieces: seq<string>): (r: Result<seq<Affiliation>, MemberError>)
    ensures r.Ok? ==> (|r.value| == |pieces| &&
      forall i :: 0 <= i < |pieces| ==> Affiliations.Construct(FromString(pieces[i])) == Ok(r.value[i]))
    ensures r.Ok? <==> forall i :: 0 <= i < |pieces| ==> Affiliations.Construct(FromString(pieces[i])).Ok?
  {
    ParseAll(AffiliationOf, pieces)
  }

  /** `AffiliationsList`: the comma-separated affiliations of the optional field. */
  function CheckAffiliations(row: Row): (r: Result<Option<seq<Affiliation>>, MemberError>)
    ensures "affiliations" !in row ==> r == Ok(None)
    ensures "affiliations" in row && r.Ok? ==> r.value.Some? && |r.value.value| >= 1
  {
    if "affiliations" !in row then Ok(None)
    else
      var affs :- AffiliationsOf(Split(row["affiliations"], ','));
      Ok(Some(affs))
  }

  /** `IsFalse` on the optional field: only a falsy value (the empty string) passes. */
  function CheckNoAffiliations(row: Row): (r: Result<bool, MemberError>)
    ensures r.Ok? <==> ("affiliations" in row ==> row["affiliations"] == "")
    ensures r.Ok? ==> r.value == ("affiliations" in row)
  {
    if "affiliations" !in row then Ok(false)
    else if row["affiliations"] == "" then Ok(true)
    else Err(InvalidRow)
  }

  /** `validate_with_humanized_errors(row, t.schema)` */
  function CheckSchema(t: MemberType, row: Row): (r: Result<Fields, MemberError>)
    ensures r.Ok? ==> row.Keys <= SchemaKeys(t)
    ensures r.Ok? && (t.KnightType? || t.ExpelledType?) ==> r.value.badge.Some?
    ensures r.Ok? && (t.KnightType? || t.CandidateType?) ==> r.value.firstName.Some?
    ensures r.Ok? && !t.ExpelledType? ==> r.value.lastName.Some?
    ensures r.Ok? && (t.BrotherType? || t.CandidateType?) ==> r.value.affiliationsGiven == ("affiliations" in row)
    ensures r.Err? ==> r.error == InvalidRow
  {
    var needBadge := t.KnightType? || t.ExpelledType?;
    var badge := if needBadge then CheckBadge(row) else Ok(None);
    var first := CheckText(row, "first_name", t.KnightType? || t.CandidateType?);
    var preferred := CheckText(row, "preferred_name", false);
    var last := CheckText(row, "last_name", !t.ExpelledType?);
    var big := CheckText(row, "big_badge", false);
    var semester := CheckSemester(row);
    var affs := if needBadge then CheckAffiliations(row) else Ok(None);
    var given := if needBadge then Ok(false) else CheckNoAffiliations(row);
    if !(row.Keys <= SchemaKeys(t)) || badge.Err? || first.Err? || preferred.Err? || last.Err? ||
       big.Err? || semester.Err? || affs.Err? || given.Err?
    then Err(InvalidRow)
    else Ok(Fields(badge.value, first.value, preferred.value, last.value, big.value,
                   semester.value, affs.value, given.value))
  }

  /**
   * The constructor of the type, given the validated fields and the current
   * counters. A Brother or Candidate does not accept an `affiliations`
   * keyword, so a falsy `affiliations` field that passed `IsFalse` makes its
   * constructor raise `TypeError`.
   */
  function Build(primary: string, combine: NameCombiner, t: MemberType, f: Fields,
                     brothers: nat, candidates: nat): (r: Result<Member, MemberError>)
    ensures r.Err? ==> !r.error.InvalidStatus? && !r.error.DuplicateAffiliation?
    ensures (t.BrotherType? || t.CandidateType?) && f.affiliationsGiven ==> r.Err?
  {
    match t
    case KnightType =>
      if f.badge.None? || !AllDigits(f.badge.value) || f.firstName.None? || f.lastName.None? then Err(InvalidRow)
      else
        var own := WithPrimary(primary, ParseDigits(f.badge.value));
        var listed := if f.affiliations.Some? then f.affiliations.value else [];
        Ok(Knight(f.badge.value, combine(f.firstName.value, f.preferredName, f.lastName.value),
                  f.bigBadge, f.pledgeSemester, (set a | a in listed) + {own}))
    case BrotherType =>
      if f.affiliationsGiven then Err(UnexpectedKeyword("affiliations"))
      else if f.lastName.None? then Err(InvalidRow)
      else Ok(Brother(CounterKey("Brother", brothers), f.lastName.value, f.bigBadge, f.pledgeSemester))
    case CandidateType =>
      if f.affiliationsGiven then Err(UnexpectedKeyword("affiliations"))
      else if f.firstName.None? || f.lastName.None? then Err(InvalidRow)
      else Ok(Candidate(CounterKey("Candidate", candidates),
                        combine(f.firstName.value, f.preferredName, f.lastName.value),
                        f.bigBadge, f.pledgeSemester))
    case ExpelledType =>
      if f.badge.None? then Err(InvalidRow)
      else Ok(Expelled(f.badge.value, f.bigBadge, f.pledgeSemester,
                       if f.affiliations.Some? then f.affiliations.value else []))
  }

  /** `SigmaNuMember.from_dict(row)`: the status picks the type, then its schema and constructor. */
  function FromDict(primary: string, combine: NameCombiner, row: Row, brothers: nat, candidates: nat)
    : (r: Result<Member, MemberError>)
    ensures (Field(row, "status").None? || Field(row, "status").value !in MemberTypes) <==>
            r.Err? && r.error.InvalidStatus?
    ensures r.Ok? ==> row.Keys <= SchemaKeys(MemberTypes[row["status"]])
  {
    var status := Field(row, "status");
    if status.None? || status.value !in MemberTypes then Err(InvalidStatus(status))
    else
      var t := MemberTypes[status.value];
      var f :- CheckSchema(t, row);
      Build(primary, combine, t, f, brothers, candidates)
  }

  /** The type `from_dict` builds is the one the status names. */
  lemma FromDictType(primary: string, combine: NameCombiner, row: Row, brothers: nat, candidates: nat)
    requires FromDict(primary, combine, row, brothers, candidates).Ok?
    ensures var m := FromDict(primary, combine, row, brothers, candidates).value;
      var status := row["status"];
      (m.Knight? <==> status in Allowed(KnightType)) &&
      (m.Brother? <==> status in Allowed(BrotherType)) &&
      (m.Candidate? <==> status in Allowed(CandidateType)) &&
      (m.Expelled? <==> status in Allowed(ExpelledType))
  {
    FromDictIsBuild(primary, combine, row, brothers, candidates);
    var status := row["status"];
    var t := MemberTypes[status];
    BuildType(primary, combine, t, CheckSchema(t, row).value, brothers, candidates);
    MemberTypesTable(status, t);
    MemberTypesTable(status, KnightType);
    MemberTypesTable(status, BrotherType);
    MemberTypesTable(status, CandidateType);
    MemberTypesTable(status, ExpelledType);
  }

  /**
   * A Knight is affiliated with the primary chapter under its own badge,
   * whatever else it lists; its key is the badge.
   */
  lemma KnightHasPrimary(primary: string, combine: NameCombiner, row: Row, brothers: nat, candidates: nat)
    requires FromDict(primary, combine, row, brothers, candidates).Ok?
    requires FromDict(primary, combine, row, brothers, candidates).value.Knight?
    ensures var m := FromDict(primary, combine, row, brothers, candidates).value;
      AllDigits(m.key) && Affiliation(primary, ParseDigits(m.key)) in m.affiliations
  {
    FromDictIsBuild(primary, combine, row, brothers, candidates);
    var t := MemberTypes[row["status"]];
    BuildKeys(primary, combine, t, CheckSchema(t, row).value, brothers, candidates);
  }

  /** A Brother's key comes from the Brother counter, a Candidate's from the Candidate counter. */
  lemma CounterKeys(primary: string, combine: NameCombiner, row: Row, brothers: nat, candidates: nat)
    requires FromDict(primary, combine, row, brothers, candidates).Ok?
    ensures var m := FromDict(primary, combine, row, brothers, candidates).value;
      (m.Brother? ==> m.key == CounterKey("Brother", brothers)) &&
      (m.Candidate? ==> m.key == CounterKey("Candidate", candidates))
  {
    FromDictIsBuild(primary, combine, row, brothers, candidates);
    var t := MemberTypes[row["status"]];
    BuildKeys(primary, combine, t, CheckSchema(t, row).value, brothers, candidates);
  }

  /** A row `from_dict` accepts has a known status, passes its type's schema and is built by its constructor. */
  lemma FromDictIsBuild(primary: string, combine: NameCombiner, row: Row, brothers: nat, candidates: nat)
    requires FromDict(primary, combine, row, brothers, candidates).Ok?
    ensures "status" in row && row["status"] in MemberTypes
    ensures var t := MemberTypes[row["status"]];
      CheckSchema(t, row).Ok? &&
      FromDict(primary, combine, row, brothers, candidates) == Build(primary, combine, t, CheckSchema(t, row).value, brothers, candidates)
  {
  }

  /** A constructor builds a member of its own type. */
  lemma BuildType(primary: string, combine: NameCombiner, t: MemberType, f: Fields, brothers: nat, candidates: nat)
    requires Build(primary, combine, t, f, brothers, candidates).Ok?
    ensures var m := Build(primary, combine, t, f, brothers, candidates).value;
      (m.Knight? <==> t.KnightType?) && (m.Brother? <==> t.BrotherType?) &&
      (m.Candidate? <==> t.CandidateType?) && (m.Expelled? <==> t.ExpelledType?)
  {
  }

  /**
   * The keys constructors give: a Knight's is its badge, under which it is
   * affiliated with the primary chapter; a Brother's and a Candidate's come
   * from their counters.
   */
  lemma BuildKeys(primary: string, combine: NameCombiner, t: MemberType, f: Fields, brothers: nat, candidates: nat)
    requires Build(primary, combine, t, f, brothers, candidates).Ok?
    ensures var m := Build(primary, combine, t, f, brothers, candidates).value;
      (m.Knight? ==> AllDigits(m.key) && Affiliation(primary, ParseDigits(m.key)) in m.affiliations) &&
      (m.Brother? ==> m.key == CounterKey("Brother", brothers)) &&
      (m.Candidate? ==> m.key == CounterKey("Candidate", candidates))
  {
  }

  /** A Brother or Candidate row that carries an `affiliations` field, even an empty one, is refused. */
  lemma EmptyAffiliationsRefused(primary: string, combine: NameCombiner, row: Row, brothers: nat, candidates: nat)
    requires "status" in row && row["status"] in {"Brother", "Candidate"}
    requires "affiliations" in row
    ensures FromDict(primary, combine, row, brothers, candidates).Err?
  {
    MemberTypesTable(row["status"], BrotherType);
    MemberTypesTable(row["status"], CandidateType);
    var t := MemberTypes[row["status"]];
    assert t.BrotherType? || t.CandidateType?;
  }

  /** The counters after a construction: one more for the type that was built. */
  function BrothersAfter(r: Result<Member, MemberError>, brothers: nat): nat {
    if r.Ok? && r.value.Brother? then brothers + 1 else brothers
  }

  function CandidatesAfter(r: Result<Member, MemberError>, candidates: nat): nat {
    if r.Ok? && r.value.Candidate? then candidates + 1 else candidates
  }

  // ---------------------------------------------------------------------------
  // Unique affiliations
  // ---------------------------------------------------------------------------

  /** The affiliation check: none of the member's affiliations is already used, nor listed twice. */
  function AddUnique(used: set<Affiliation>, m: Member): (r: Option<set<Affiliation>>)
    ensures r.Some? ==> r.value == used + AffiliationSet(m) && AffiliationSet(m) * used == {}
  {
    match m
    case Knight(_, _, _, _, affs) => if affs * used == {} then Some(used + affs) else None
    case Expelled(_, _, _, listed) =>
      if Distinct(listed) && forall i :: 0 <= i < |listed| ==> listed[i] !in used
      then Some(used + set a | a in listed) else None
    case _ => Some(used)
  }

  /**
   * `for aff in member.affiliations: if aff in used: raise ...; used.add(aff)`:
   * on success every affiliation is added; on failure some of them may have
   * been added before the duplicate was met.
   */
  method AddAffiliations(used: set<Affiliation>, m: Member) returns (ok: bool, added: set<Affiliation>)
    ensures ok <==> AddUnique(used, m).Some?
    ensures ok ==> added == AddUnique(used, m).value
    ensures used <= added <= used + AffiliationSet(m)
  {
    match m {
      case Knight(_, _, _, _, affs) =>
        ok, added := AddSet(used, affs);
      case Expelled(_, _, _, listed) =>
        ok, added := AddList(used, listed);
      case _ =>
        ok, added := true, used;
    }
  }

  /** The loop over a Knight's set of affiliations, in whatever order the set yields them. */
  method AddSet<T>(used: set<T>, affs: set<T>) returns (ok: bool, added: set<T>)
    ensures ok <==> affs * used == {}
    ensures ok ==> added == used + affs
    ensures used <= added <= used + affs
  {
    added := used;
    var done: set<T> := {};
    while done != affs
      invariant done <= affs
      invariant added == used + done
      invariant done * used == {}
      decreases |affs - done|
    {
      var a :| a in affs - done;
      if a in added {
        assert a in affs * used;
        return false, added;
      }
      assert affs - (done + {a}) < affs - done;
      added := added + {a};
      done := done + {a};
    }
    return true, added;
  }

  /** The loop over an Expelled member's list of affiliations, in order. */
  method AddList(used: set<Affiliation>, listed: seq<Affiliation>) returns (ok: bool, added: set<Affiliation>)
    ensures ok <==> Distinct(listed) && forall i :: 0 <= i < |listed| ==> listed[i] !in used
    ensures ok ==> added == used + set a | a in listed
    ensures used <= added <= used + set a | a in listed
  {
    added := used;
    var i := 0;
    while i < |listed|
      invariant 0 <= i <= |listed|
      invariant added == used + set a | a in listed[..i]
      invariant Distinct(listed[..i])
      invariant forall j :: 0 <= j < i ==> listed[j] !in used
    {
      if listed[i] in added {
        if listed[i] !in used {
          var j :| 0 <= j < i && listed[j] == listed[i];
          assert !Distinct(listed);
        }
        return false, added;
      }
      assert listed[..i + 1] == listed[..i] + [listed[i]];
      added := added + {listed[i]};
      i := i + 1;
    }
    assert listed[..i] == listed;
    return true, added;
  }

  /** The outcome of `validate(rows)`: the members yielded, and the error that ended it, if any. */
  datatype Run = Run(members: seq<Member>, error: Option<MemberError>, brothers: nat, candidates: nat)

  /** What builds a member from a row and the class counters. */
  type Builder = (Row, nat, nat) -> Result<Member, MemberError>

  /** `cls.from_dict` for the given primary chapter and name combiner. */
  function BuildWith(primary: string, combine: NameCombiner): Builder {
    (row: Row, brothers: nat, candidates: nat) => FromDict(primary, combine, row, brothers, candidates)
  }

  /**
   * `validate(rows)` as a function of the rows, the class counters and the
   * affiliations used so far, for any way `build` of reading one row.
   */
  function ValidateRun(build: Builder, rows: seq<Row>,
                       brothers: nat, candidates: nat, used: set<Affiliation>): Run
  {
    if rows == [] then Run([], None, brothers, candidates)
    else if Field(rows[0], "status") == Some("Reaffiliate") then
      ValidateRun(build, rows[1..], brothers, candidates, used)
    else
      var r := build(rows[0], brothers, candidates);
      var b := BrothersAfter(r, brothers);
      var c := CandidatesAfter(r, candidates);
      match r
      case Err(e) => Run([], Some(e), b, c)
      case Ok(m) =>
        match AddUnique(used, m)
        case None => Run([], Some(DuplicateAffiliation), b, c)
        case Some(u) =>
          var rest := ValidateRun(build, rows[1..], b, c, u);
          Run([m] + rest.members, rest.error, rest.brothers, rest.candidates)
  }

  /** No member of the list shares an affiliation with `used` or with another member. */
  predicate Unshared(ms: seq<Member>, used: set<Affiliation>) {
    (forall i :: 0 <= i < |ms| ==> AffiliationSet(ms[i]) * used == {}) &&
    (forall i, j :: 0 <= i < j < |ms| ==> AffiliationSet(ms[i]) * AffiliationSet(ms[j]) == {})
  }

  lemma UnsharedCons(m: Member, rest: seq<Member>, used: set<Affiliation>)
    requires AddUnique(used, m).Some?
    requires Unshared(rest, AddUnique(used, m).value)
    ensures Unshared([m] + rest, used)
  {
    var u := AddUnique(used, m).value;
    var ms := [m] + rest;
    forall i, j | 0 <= i < j < |ms| ensures AffiliationSet(ms[i]) * AffiliationSet(ms[j]) == {} {
      if i == 0 {
        assert ms[j] == rest[j - 1];
        assert AffiliationSet(m) <= u;
      } else {
        assert ms[i] == rest[i - 1] && ms[j] == rest[j - 1];
      }
    }
    forall i | 0 <= i < |ms| ensures AffiliationSet(ms[i]) * used == {} {
      if i > 0 {
        assert ms[i] == rest[i - 1];
      }
    }
  }

  /** Two members yielded by `validate` never share an affiliation, nor reuse one used before. */
  lemma {:induction false} ValidateUnique(build: Builder, rows: seq<Row>,
                                          brothers: nat, candidates: nat, used: set<Affiliation>)
    ensures Unshared(ValidateRun(build, rows, brothers, candidates, used).members, used)
    decreases |rows|
  {
    if rows != [] {
      if Field(rows[0], "status") == Some("Reaffiliate") {
        ValidateUnique(build, rows[1..], brothers, candidates, used);
      } else {
        var r := build(rows[0], brothers, candidates);
        if r.Ok? && AddUnique(used, r.value).Some? {
          var b := BrothersAfter(r, brothers);
          var c := CandidatesAfter(r, candidates);
          var u := AddUnique(used, r.value).value;
          ValidateUnique(build, rows[1..], b, c, u);
          UnsharedCons(r.value, ValidateRun(build, rows[1..], b, c, u).members, used);
        }
      }
    }
  }

  /** The rows `validate` turns into members: every row but the "Reaffiliate" ones. */
  function CountMembers(rows: seq<Row>): nat {
    if rows == [] then 0
    else CountMembers(rows[1..]) + (if Field(rows[0], "status") == Some("Reaffiliate") then 0 else 1)
  }

  /** When `validate` runs to the end, it yields one member per row that is not a "Reaffiliate". */
  lemma {:induction false} ValidateYieldsAll(build: Builder, rows: seq<Row>,
                                             brothers: nat, candidates: nat, used: set<Affiliation>)
    requires ValidateRun(build, rows, brothers, candidates, used).error.None?
    ensures |ValidateRun(build, rows, brothers, candidates, used).members| == CountMembers(rows)
    decreases |rows|
  {
    if rows != [] {
      var r := build(rows[0], brothers, candidates);
      if Field(rows[0], "status") == Some("Reaffiliate") {
        ValidateYieldsAll(build, rows[1..], brothers, candidates, used);
      } else {
        var u := AddUnique(used, r.value).value;
        ValidateYieldsAll(build, rows[1..], BrothersAfter(r, brothers), CandidatesAfter(r, candidates), u);
      }
    }
  }

  // ---------------------------------------------------------------------------
  // The class-level state
  // ---------------------------------------------------------------------------

  /**
   * The state the member classes share: `Brother.bid`, `Candidate.cid`,
   * `Knight.used_affiliations`, with the primary chapter and the name
   * combiner they are built with.
   */
  class MemberClasses {
    var brothers: nat
    var candidates: nat
    var knightAffiliations: set<Affiliation>
    const primary: string
    const combine: NameCombiner

    constructor(primary: string, combine: NameCombiner)
      ensures brothers == 0 && candidates == 0 && knightAffiliations == {}
      ensures this.primary == primary && this.combine == combine
    {
      brothers := 0;
      candidates := 0;
      knightAffiliations := {};
      this.primary := primary;
      this.combine := combine;
    }

    /** `SigmaNuMember.from_dict(row)`: a Brother or Candidate advances its class counter. */
    method FromDictOf(row: Row) returns (r: Result<Member, MemberError>)
      modifies this
      ensures r == FromDict(primary, combine, row, old(brothers), old(candidates))
      ensures brothers == BrothersAfter(r, old(brothers))
      ensures candidates == CandidatesAfter(r, old(candidates))
      ensures knightAffiliations == old(knightAffiliations)
    {
      r := FromDict(primary, combine, row, brothers, candidates);
      if r.Ok? && r.value.Brother? {
        brothers := brothers + 1;
      } else if r.Ok? && r.value.Candidate? {
        candidates := candidates + 1;
      }
    }

    /**
     * `Knight.from_dict(row)`: `from_dict`, then the class-wide check that no
     * affiliation is used twice across all calls.
     */
    method KnightFromDict(row: Row) returns (r: Result<Member, MemberError>)
      modifies this
      ensures var built := FromDict(primary, combine, row, old(brothers), old(candidates));
        (built.Err? ==> r == built && knightAffiliations == old(knightAffiliations)) &&
        (built.Ok? && AddUnique(old(knightAffiliations), built.value).Some? ==>
          r == built && knightAffiliations == AddUnique(old(knightAffiliations), built.value).value) &&
        (built.Ok? && AddUnique(old(knightAffiliations), built.value).None? ==>
          r == Err(DuplicateAffiliation) &&
          old(knightAffiliations) <= knightAffiliations <= old(knightAffiliations) + AffiliationSet(built.value))
      ensures brothers == BrothersAfter(FromDict(primary, combine, row, old(brothers), old(candidates)), old(brothers))
      ensures candidates == CandidatesAfter(FromDict(primary, combine, row, old(brothers), old(candidates)), old(candidates))
    {
      ghost var built := FromDict(primary, combine, row, brothers, candidates);
      r := FromDictOf(row);
      ghost var b, c := brothers, candidates;
      assert r == built && b == BrothersAfter(built, old(brothers)) && c == CandidatesAfter(built, old(candidates));
      if r.Ok? {
        var ok, added := AddAffiliations(knightAffiliations, r.value);
        knightAffiliations := added;
        if !ok {
          r := Err(DuplicateAffiliation);
        }
      }
      assert brothers == b && candidates == c;
    }

    /**
     * `validate(rows)`: skip "Reaffiliate" rows, build each other row's
     * member, and stop at the first error or at the first affiliation seen
     * twice. The members yielded before an error are kept.
     */
    method Validate(rows: seq<Row>) returns (members: seq<Member>, error: Option<MemberError>)
      modifies this
      ensures var run := ValidateRun(BuildWith(primary, combine), rows, old(brothers), old(candidates), {});
        members == run.members && error == run.error &&
        brothers == run.brothers && candidates == run.candidates
      ensures knightAffiliations == old(knightAffiliations)
    {
      members, error, brothers, candidates := ValidateLoop(BuildWith(primary, combine), rows, brothers, candidates);
    }
  }

  /**
   * The loop of `validate(rows)`, with the class-wide counters held in
   * `brothers` and `candidates`: each built brother or candidate advances its
   * counter, as `from_dict` does.
   */
  method ValidateLoop(build: Builder, rows: seq<Row>, brothers0: nat, candidates0: nat)
    returns (members: seq<Member>, error: Option<MemberError>, brothers: nat, candidates: nat)
    ensures Run(members, error, brothers, candidates) == ValidateRun(build, rows, brothers0, candidates0, {})
  {
    ghost var whole := ValidateRun(build, rows, brothers0, candidates0, {});
    brothers, candidates := brothers0, candidates0;
    var used: set<Affiliation> := {};
    members := [];
    var i := 0;
    while i < |rows|
      invariant 0 <= i <= |rows|
      invariant var rest := ValidateRun(build, rows[i..], brothers, candidates, used);
        whole == Run(members + rest.members, rest.error, rest.brothers, rest.candidates)
    {
      assert rows[i..][1..] == rows[i + 1..];
      if Field(rows[i], "status") == Some("Reaffiliate") {
        i := i + 1;
        continue;
      }
      var r := build(rows[i], brothers, candidates);
      brothers, candidates := BrothersAfter(r, brothers), CandidatesAfter(r, candidates);
      if r.Err? {
        return members, Some(r.error), brothers, candidates;
      }
      var ok, added := AddAffiliations(used, r.value);
      if !ok {
        return members, Some(DuplicateAffiliation), brothers, candidates;
      }
      used := added;
      members := members + [r.value];
      i := i + 1;
    }
    return members, None, brothers, candidates;
  }

  // ---------------------------------------------------------------------------
  // Labels
  // ---------------------------------------------------------------------------

  /** Strictly increasing in the affiliation order. */
  predicate AffSorted(primary: string, s: seq<Affiliation>) {
    forall i, j :: 0 <= i < j < |s| ==> Less(primary, s[i], s[j])
  }

  function InsertAffiliation(primary: string, x: Affiliation, s: seq<Affiliation>): (r: seq<Affiliation>)
    ensures |r| == |s| + 1
    ensures forall a :: a in r <==> a == x || a in s
  {
    if s == [] then [x]
    else if Less(primary, x, s[0]) then [x] + s
    else [s[0]] + InsertAffiliation(primary, x, s[1..])
  }

  lemma {:induction false} InsertSorted(primary: string, x: Affiliation, s: seq<Affiliation>)
    requires AffSorted(primary, s) && x !in s
    ensures AffSorted(primary, InsertAffiliation(primary, x, s))
  {
    if s != [] {
      var r := InsertAffiliation(primary, x, s);
      if Less(primary, x, s[0]) {
        forall i, j | 0 <= i < j < |r| ensures Less(primary, r[i], r[j]) {
          if i == 0 && j > 1 {
            LessTransitive(primary, x, s[0], s[j - 1]);
          }
        }
      } else {
        LessTotal(primary, x, s[0]);
        assert AffSorted(primary, s[1..]);
        InsertSorted(primary, x, s[1..]);
        var tail := InsertAffiliation(primary, x, s[1..]);
        assert r == [s[0]] + tail;
        forall j | 1 <= j < |r| ensures Less(primary, s[0], r[j]) {
          assert r[j] in tail;
        }
      }
    }
  }

  /** `sorted(affiliations)`: the set's elements in increasing order. */
  ghost function SortedAffiliations(primary: string, S: set<Affiliation>): (r: seq<Affiliation>)
    ensures AffSorted(primary, r) && |r| == |S|
    ensures forall a :: a in r <==> a in S
    decreases |S|
  {
    if S == {} then []
    else
      var x :| x in S;
      var rest := SortedAffiliations(primary, S - {x});
      InsertSorted(primary, x, rest);
      InsertAffiliation(primary, x, rest)
  }

  /** When a set holds an affiliation to the primary chapter, its sorted form starts with one. */
  lemma PrimaryLeads(primary: string, S: set<Affiliation>, a: Affiliation)
    requires a in S && a.designation == primary
    ensures SortedAffiliations(primary, S)[0].designation == primary
  {
    var r := SortedAffiliations(primary, S);
    var k :| 0 <= k < |r| && r[k] == a;
    if k > 0 {
      assert Less(primary, r[0], r[k]);
    }
  }

  function AffiliationStrings(s: seq<Affiliation>): (r: seq<string>)
    ensures |r| == |s| && forall i :: 0 <= i < |s| ==> r[i] == ToString(s[i])
  {
    seq(|s|, i requires 0 <= i < |s| => ToString(s[i]))
  }

  /** `get_dot_label()`: the name, an escaped newline `\n`, then what each type shows below it. */
  ghost function DotLabel(primary: string, m: Member): string {
    match m
    case Knight(_, name, _, _, affs) =>
      name + "\\n" + Join(AffiliationStrings(SortedAffiliations(primary, affs)), ", ")
    case Brother(_, name, _, _) => name + "\\n" + primary + " Brother"
    case Candidate(_, name, _, _) => name + "\\n" + primary + " Candidate"
    case Expelled(key, _, _, _) => "Member Expelled" + "\\n" + key
  }

  /**
   * A Knight's label lists its own primary-chapter affiliation's chapter
   * first: the label starts with the name, `\n` and the primary chapter.
   */
  lemma KnightLabelLeads(primary: string, combine: NameCombiner, row: Row, brothers: nat, candidates: nat)
    requires FromDict(primary, combine, row, brothers, candidates).Ok?
    requires FromDict(primary, combine, row, brothers, candidates).value.Knight?
    ensures var m := FromDict(primary, combine, row, brothers, candidates).value;
      StartsWith(DotLabel(primary, m), m.name + "\\n" + primary + " ")
  {
    var m := FromDict(primary, combine, row, brothers, candidates).value;
    KnightHasPrimary(primary, combine, row, brothers, candidates);
    LabelLeads(primary, m, Affiliation(primary, ParseDigits(m.key)));
  }

  lemma LabelLeads(primary: string, m: Member, a: Affiliation)
    requires m.Knight? && a in m.affiliations && a.designation == primary
    ensures StartsWith(DotLabel(primary, m), m.name + "\\n" + primary + " ")
  {
    PrimaryLeads(primary, m.affiliations, a);
    var sorted := SortedAffiliations(primary, m.affiliations);
    var strs := AffiliationStrings(sorted);
    var first := strs[0];
    assert first == primary + " " + IntToString(sorted[0].badge);
    var joined := Join(strs, ", ");
    assert joined[..|first|] == first;
    var head := m.name + "\\n" + primary + " ";
    var text := DotLabel(primary, m);
    assert text == (m.name + "\\n") + joined;
    assert text[..|head|] == head;
  }

  /** Brother and Candidate labels end with the primary chapter and the member's kind. */
  lemma KindLabels(primary: string, m: Member)
    requires m.Brother? || m.Candidate?
    ensures m.Brother? ==> DotLabel(primary, m) == m.name + "\\n" + primary + " Brother"
    ensures m.Candidate? ==> DotLabel(primary, m) == m.name + "\\n" + primary + " Candidate"
  {
  }
}
