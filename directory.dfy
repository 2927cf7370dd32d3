/**
 * `snutree/directory.py`: the `Directory` that turns raw member rows into
 * members. It builds a status table from the member types, drops falsy
 * fields from each row, skips the ignored statuses, refuses unknown ones,
 * and hands each accepted row to its type's `from_dict`.
 *
 * The member types' `from_dict` is a parameter (`build`); for the Sigma Nu
 * types see the module SigmaNuMembers.
 */
module Directories {
  import opened Wrappers

  /** A field value of a row: a string, a number or `None`. */
  datatype FieldValue = Text(s: string) | Number(n: int) | Null

  type Row = map<string, FieldValue>

  /** A member type, known by its name and the statuses it allows. */
  datatype MemberKind = MemberKind(name: string, allowed: set<string>)

  datatype DirectoryError =
    | InvalidStatus(status: Option<string>)
    | BuildError(message: string)

  /** Python truthiness of a field: `None`, `""` and `0` are falsy. */
  predicate Truthy(v: FieldValue) {
    match v
    case Text(s) => |s| > 0
    case Number(n) => n != 0
    case Null => false
  }

  /** The row without its falsy fields. */
  function Cleaned(row: Row): (r: Row)
    ensures r.Keys <= row.Keys
    ensures forall k :: k in r ==> r[k] == row[k] && Truthy(r[k])
    ensures forall k :: k in row && Truthy(row[k]) ==> k in r
  {
    map k | k in row && Truthy(row[k]) :: row[k]
  }

  /** The statuses of each type in turn, a later type overriding an earlier one. */
  function TableOf(types: seq<MemberKind>): map<string, MemberKind> {
    if types == [] then map[]
    else
      var last := types[|types| - 1];
      TableOf(types[..|types| - 1]) + map s | s in last.allowed :: last
  }

  /**
   * A status is in the table exactly when some type allows it, and it is sent
   * to the last type that does.
   */
  lemma {:induction false} TableOfLastWins(types: seq<MemberKind>, s: string)
    ensures s in TableOf(types) <==> exists i :: 0 <= i < |types| && s in types[i].allowed
    ensures s in TableOf(types) ==> exists i :: (0 <= i < |types| && TableOf(types)[s] == types[i] &&
      s in types[i].allowed && forall j :: i < j < |types| ==> s !in types[j].allowed)
  {
    if types != [] {
      var n := |types| - 1;
      var prefix := types[..n];
      TableOfLastWins(prefix, s);
      assert forall i :: 0 <= i < n ==> prefix[i] == types[i];
      if s in types[n].allowed {
        assert TableOf(types)[s] == types[n];
      } else if s in TableOf(prefix) {
        var i :| 0 <= i < n && TableOf(prefix)[s] == prefix[i] && s in prefix[i].allowed &&
          forall j :: i < j < n ==> s !in prefix[j].allowed;
        assert TableOf(types)[s] == types[i];
      }
    }
  }

  /** The one status of a table with a single entry. */
  ghost function OnlyStatus(table: map<string, MemberKind>): string
    requires |table| == 1
  {
    var s :| s in table; s
  }

  lemma SingletonKeys(table: map<string, MemberKind>, s: string)
    requires |table| == 1 && s in table
    ensures table.Keys == {s}
  {
    forall t | t in table ensures t == s {
      if t != s {
        assert {s, t} <= table.Keys;
        assert |{s, t}| == 2;
        assert |table.Keys| == |table|;
        SubsetSize({s, t}, table.Keys);
      }
    }
  }

  lemma {:induction false} SubsetSize<T>(a: set<T>, b: set<T>)
    requires a <= b
    ensures |a| <= |b|
    decreases |b|
  {
    if a != {} {
      var x :| x in a;
      SubsetSize(a - {x}, b - {x});
    }
  }

  /** The status a cleaned row is filed under: the only one there is, or its own `status` field. */
  ghost function StatusOf(table: map<string, MemberKind>, row: Row): Option<string> {
    if |table| == 1 then Some(OnlyStatus(table))
    else if "status" in row && row["status"].Text? then Some(row["status"].s)
    else None
  }

  /** What `set_members` leaves: the members in input order, and the error that stopped it, if any. */
  datatype Intake<M> = Intake(members: seq<M>, error: Option<DirectoryError>)

  ghost function IntakeOf<M>(table: map<string, MemberKind>, ignored: seq<string>,
                             build: (MemberKind, Row) -> Result<M, DirectoryError>,
                             rows: seq<Row>): Intake<M>
  {
    if rows == [] then Intake([], None)
    else
      var row := Cleaned(rows[0]);
      var status := StatusOf(table, row);
      if status.Some? && status.value in ignored then IntakeOf(table, ignored, build, rows[1..])
      else if status.None? || status.value !in table then Intake([], Some(InvalidStatus(status)))
      else match build(table[status.value], row)
        case Err(e) => Intake([], Some(e))
        case Ok(m) =>
          var rest := IntakeOf(table, ignored, build, rows[1..]);
          Intake([m] + rest.members, rest.error)
  }

  /** The rows `set_members` keeps: those whose status is not ignored. */
  ghost function Kept(table: map<string, MemberKind>, ignored: seq<string>, rows: seq<Row>): seq<Row> {
    if rows == [] then []
    else
      var status := StatusOf(table, Cleaned(rows[0]));
      (if status.Some? && status.value in ignored then [] else [Cleaned(rows[0])]) +
      Kept(table, ignored, rows[1..])
  }

  /**
   * When no error stops it, `set_members` builds one member from every kept
   * row, in input order, each with the type its status names.
   */
  lemma {:induction false} IntakeInOrder<M>(table: map<string, MemberKind>, ignored: seq<string>,
                                            build: (MemberKind, Row) -> Result<M, DirectoryError>,
                                            rows: seq<Row>)
    requires IntakeOf(table, ignored, build, rows).error.None?
    ensures var ms := IntakeOf(table, ignored, build, rows).members;
      var kept := Kept(table, ignored, rows);
      |ms| == |kept| &&
      forall i :: 0 <= i < |kept| ==>
        StatusOf(table, kept[i]).Some? && StatusOf(table, kept[i]).value in table &&
        build(table[StatusOf(table, kept[i]).value], kept[i]) == Ok(ms[i])
  {
    if rows != [] {
      IntakeInOrder(table, ignored, build, rows[1..]);
      var row := Cleaned(rows[0]);
      var status := StatusOf(table, row);
      if !(status.Some? && status.value in ignored) {
        var ms := IntakeOf(table, ignored, build, rows).members;
        var kept := Kept(table, ignored, rows);
        var restMs := IntakeOf(table, ignored, build, rows[1..]).members;
        var restKept := Kept(table, ignored, rows[1..]);
        assert ms == [build(table[status.value], row).value] + restMs;
        assert kept == [row] + restKept;
        forall i | 0 <= i < |kept|
          ensures StatusOf(table, kept[i]).Some? && StatusOf(table, kept[i]).value in table &&
                  build(table[StatusOf(table, kept[i]).value], kept[i]) == Ok(ms[i])
        {
          if i > 0 {
            assert kept[i] == restKept[i - 1] && ms[i] == restMs[i - 1];
          }
        }
      }
    }
  }

  /** A kept row whose status is not in the table means `set_members` stops with an error, there or earlier. */
  lemma {:induction false} UnknownStatusStops<M>(table: map<string, MemberKind>, ignored: seq<string>,
                                                 build: (MemberKind, Row) -> Result<M, DirectoryError>,
                                                 rows: seq<Row>, k: int)
    requires 0 <= k < |Kept(table, ignored, rows)|
    requires var status := StatusOf(table, Kept(table, ignored, rows)[k]);
      status.None? || status.value !in table
    ensures IntakeOf(table, ignored, build, rows).error.Some?
  {
    var row := Cleaned(rows[0]);
    var status := StatusOf(table, row);
    var kept := Kept(table, ignored, rows);
    if status.Some? && status.value in ignored {
      assert kept == Kept(table, ignored, rows[1..]);
      UnknownStatusStops(table, ignored, build, rows[1..], k);
    } else if k > 0 && status.Some? && status.value in table && build(table[status.value], row).Ok? {
      assert kept == [row] + Kept(table, ignored, rows[1..]);
      assert kept[k] == Kept(table, ignored, rows[1..])[k - 1];
      UnknownStatusStops(table, ignored, build, rows[1..], k - 1);
    }
  }

  /**
   * With a single member type allowing a single status, every row is filed
   * under it, whatever its own `status` field says.
   */
  lemma SingleStatusIgnoresRow(table: map<string, MemberKind>, s: string, row: Row)
    requires |table| == 1 && s in table
    ensures StatusOf(table, row) == Some(s)
  {
    SingletonKeys(table, s);
  }

  /** `Directory`: the status table, the ignored statuses, and the members read so far. */
  class Directory<M> {
    const ignoredStatuses: seq<string>
    const allowedStatuses: map<string, MemberKind>
    const build: (MemberKind, Row) -> Result<M, DirectoryError>
    var members: seq<M>

    /**
     * The table-building half of `__init__`: `ignored_statuses or []`, then
     * every allowed status of every type, a later type overriding an
     * earlier one. `__init__` then calls `SetMembers`.
     */
    constructor(memberTypes: seq<MemberKind>, ignored: Option<seq<string>>,
                build: (MemberKind, Row) -> Result<M, DirectoryError>)
      ensures allowedStatuses == TableOf(memberTypes)
      ensures ignoredStatuses == (if ignored.Some? then ignored.value else [])
      ensures this.build == build && members == []
    {
      ignoredStatuses := if ignored.Some? then ignored.value else [];
      var table := StatusTableLoop(memberTypes);
      allowedStatuses := table;
      this.build := build;
      members := [];
    }

    /**
     * `set_members(rows)`: clean each row, file it under its status, skip
     * the ignored ones, stop at an unknown status or a failing `from_dict`,
     * and otherwise append the member.
     */
    method SetMembers(rows: seq<Row>) returns (error: Option<DirectoryError>)
      modifies this
      ensures var run := IntakeOf(allowedStatuses, ignoredStatuses, build, rows);
        members == run.members && error == run.error
    {
      var read;
      read, error := IntakeLoop(allowedStatuses, ignoredStatuses, build, rows);
      members := read;
    }
  }

  /**
   * The loop of `set_members`: clean each row, file it under its status,
   * skip the ignored ones, stop at an unknown status or a failing build,
   * and otherwise append the member.
   */
  method IntakeLoop<M>(table: map<string, MemberKind>, ignored: seq<string>,
                       build: (MemberKind, Row) -> Result<M, DirectoryError>, rows: seq<Row>)
    returns (members: seq<M>, error: Option<DirectoryError>)
    ensures Intake(members, error) == IntakeOf(table, ignored, build, rows)
  {
    members := [];
    var i := 0;
    while i < |rows|
      invariant 0 <= i <= |rows|
      invariant var rest := IntakeOf(table, ignored, build, rows[i..]);
        IntakeOf(table, ignored, build, rows) == Intake(members + rest.members, rest.error)
    {
      assert rows[i..][1..] == rows[i + 1..];
      var row := CleanRow(rows[i]);
      var status := ReadStatus(table, row);
      if status.Some? && status.value in ignored {
        i := i + 1;
        continue;
      }
      if status.None? || status.value !in table {
        return members, Some(InvalidStatus(status));
      }
      var built := build(table[status.value], row);
      if built.Err? {
        return members, Some(built.error);
      }
      members := members + [built.value];
      i := i + 1;
    }
    assert rows[i..] == [];
    return members, None;
  }

  /** The status of a cleaned row: the only allowed status when there is one, else its `status` field. */
  method ReadStatus(table: map<string, MemberKind>, row: Row) returns (status: Option<string>)
    ensures status == StatusOf(table, row)
  {
    if |table| == 1 {
      var only :| only in table;
      SingletonKeys(table, only);
      SingletonKeys(table, OnlyStatus(table));
      status := Some(only);
    } else if "status" in row && row["status"].Text? {
      status := Some(row["status"].s);
    } else {
      status := None;
    }
  }

  /** The nested loop of `__init__` over the types and their allowed statuses. */
  method StatusTableLoop(memberTypes: seq<MemberKind>) returns (table: map<string, MemberKind>)
    ensures table == TableOf(memberTypes)
  {
    table := map[];
    for i := 0 to |memberTypes|
      invariant table == TableOf(memberTypes[..i])
    {
      table := AddStatuses(table, memberTypes[i]);
      assert memberTypes[..i + 1][..i] == memberTypes[..i];
    }
    assert memberTypes[..|memberTypes|] == memberTypes;
  }

  /** The inner loop: every status the type allows now sends to it; other statuses keep their type. */
  method AddStatuses(table: map<string, MemberKind>, typ: MemberKind) returns (r: map<string, MemberKind>)
    ensures r == table + map s | s in typ.allowed :: typ
  {
    r := table;
    var rest := typ.allowed;
    while rest != {}
      invariant rest <= typ.allowed
      invariant r == table + map s | s in typ.allowed - rest :: typ
      decreases |rest|
    {
      var allowed :| allowed in rest;
      AddOneStatus(table, typ.allowed - rest, allowed, typ);
      assert typ.allowed - (rest - {allowed}) == (typ.allowed - rest) + {allowed};
      r := r[allowed := typ];
      rest := rest - {allowed};
    }
  }

  lemma AddOneStatus(table: map<string, MemberKind>, done: set<string>, status: string, typ: MemberKind)
    ensures (table + map s | s in done :: typ)[status := typ] == table + map s | s in done + {status} :: typ
  {
  }

  /** `for key, field in list(row.items()): if not field: del row[key]` */
  method CleanRow(row: Row) returns (cleaned: Row)
    ensures cleaned == Cleaned(row)
  {
    cleaned := row;
    var keys := row.Keys;
    while keys != {}
      invariant keys <= row.Keys
      invariant cleaned == map k | k in row && (k in keys || Truthy(row[k])) :: row[k]
      decreases |keys|
    {
      var key :| key in keys;
      if !Truthy(row[key]) {
        cleaned := cleaned - {key};
      }
      keys := keys - {key};
    }
  }
}
