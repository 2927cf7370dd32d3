/**
 * The CSV readers of `family_tree/file.py`: `CsvReader.read` folds a reader's
 * `accumulate` over the rows of a file, and reports any failure by the
 * number of the row it happened in (the header is row 1). `ChapterReader`
 * maps chapter designations to locations and refuses duplicates;
 * `AffiliationsReader` collects, per badge, the other chapters' affiliations.
 */
module CsvReaders {
  import opened Wrappers
  import opened Text
  import G = SigmaNuSchema

  /** A row of `csv.DictReader`: column name to text; a missing column raises `KeyError`. */
  type Row = map<string, string>

  datatype DirectoryError = DirectoryError(message: string)

  /** The error for the data row at `index` (from 0): the header is row 1. */
  function RowError(index: nat): DirectoryError {
    DirectoryError("Error in row " + NatToString(index + 2))
  }

  // ---------------------------------------------------------------------------
  // CsvReader.read
  // ---------------------------------------------------------------------------

  /**
   * What `read` returns: `accumulate` applied to each row in turn from a fresh
   * accumulator (`None` is any exception it raises), or the error of the
   * first row that failed.
   */
  function Fold<A>(init: A, accumulate: (A, Row) -> Option<A>, rows: seq<Row>): Result<A, DirectoryError> {
    if rows == [] then Ok(init)
    else
      match Fold(init, accumulate, rows[..|rows| - 1])
      case Err(e) => Err(e)
      case Ok(acc) =>
        match accumulate(acc, rows[|rows| - 1])
        case None => Err(RowError(|rows| - 1))
        case Some(next) => Ok(next)
  }

  /** The first row that fails decides the error; the rows after it are never read. */
  lemma {:induction false} FoldStopsAt<A>(init: A, accumulate: (A, Row) -> Option<A>, rows: seq<Row>, k: nat)
    requires k < |rows| && Fold(init, accumulate, rows[..k]).Ok?
    requires accumulate(Fold(init, accumulate, rows[..k]).value, rows[k]).None?
    ensures Fold(init, accumulate, rows) == Err(RowError(k))
    decreases |rows|
  {
    var n := |rows| - 1;
    if n > k {
      assert rows[..n][..k] == rows[..k];
      FoldStopsAt(init, accumulate, rows[..n], k);
    } else {
      assert rows[..n] == rows[..k];
    }
  }

  /** `CsvReader.read`: the loop over the rows with its `row_number` counter. */
  method Read<A>(init: A, accumulate: (A, Row) -> Option<A>, rows: seq<Row>) returns (r: Result<A, DirectoryError>)
    ensures r == Fold(init, accumulate, rows)
  {
    var acc := init;
    var rowNumber := 2;
    var i := 0;
    while i < |rows|
      invariant 0 <= i <= |rows| && rowNumber == i + 2
      invariant Fold(init, accumulate, rows[..i]) == Ok(acc)
    {
      var next := accumulate(acc, rows[i]);
      if next.None? {
        FoldStopsAt(init, accumulate, rows, i);
        return Err(DirectoryError("Error in row " + NatToString(rowNumber)));
      }
      acc := next.value;
      rowNumber := rowNumber + 1;
      assert rows[..i + 1][..i] == rows[..i];
      i := i + 1;
    }
    assert rows[..i] == rows;
    r := Ok(acc);
  }

  // ---------------------------------------------------------------------------
  // SimpleReader and ChapterReader
  // ---------------------------------------------------------------------------

  /** `SimpleReader.accumulate`: a key already read is an error, otherwise it is added. */
  function SimpleAccumulate(acc: map<string, string>, key: string, fields: string): (r: Option<map<string, string>>)
    ensures r.Some? <==> key !in acc
    ensures r.Some? ==> r.value == acc[key := fields]
  {
    if key in acc then None else Some(acc[key := fields])
  }

  predicate HasChapterFields(row: Row) {
    "chapter_designation" in row && "chapter_location" in row
  }

  /** `ChapterReader.accumulate`, with `fields_of` giving (designation, location). */
  function ChapterAccumulate(acc: map<string, string>, row: Row): Option<map<string, string>> {
    if !HasChapterFields(row) then None
    else SimpleAccumulate(acc, row["chapter_designation"], row["chapter_location"])
  }

  predicate AllChapterFields(rows: seq<Row>) {
    forall i :: 0 <= i < |rows| ==> HasChapterFields(rows[i])
  }

  /** The designations of the rows, in row order. */
  function Designations(rows: seq<Row>): (ds: seq<string>)
    requires AllChapterFields(rows)
    ensures |ds| == |rows|
  {
    if rows == [] then []
    else Designations(rows[..|rows| - 1]) + [rows[|rows| - 1]["chapter_designation"]]
  }

  /** Every row has both columns and no designation occurs twice. */
  predicate ChapterRowsValid(rows: seq<Row>) {
    AllChapterFields(rows) && Distinct(Designations(rows))
  }

  /** The mapping the rows describe: each designation to the location on its row. */
  function ChapterMap(rows: seq<Row>): map<string, string>
    requires AllChapterFields(rows)
  {
    if rows == [] then map[]
    else
      var last := rows[|rows| - 1];
      ChapterMap(rows[..|rows| - 1])[last["chapter_designation"] := last["chapter_location"]]
  }

  lemma DistinctSnoc<T>(s: seq<T>, x: T)
    ensures Distinct(s + [x]) <==> Distinct(s) && x !in s
  {
    var t := s + [x];
    assert forall i :: 0 <= i < |s| ==> t[i] == s[i];
    assert t[|s|] == x;
    if Distinct(t) {
      forall i | 0 <= i < |s| ensures s[i] != x {
        assert t[i] != t[|s|];
      }
    }
  }

  /**
   * `ChapterReader(rows).read()` succeeds exactly when every row has both
   * columns and the designations are distinct, and then returns the mapping
   * the rows describe.
   */
  lemma {:induction false} ChaptersRead(rows: seq<Row>)
    ensures Fold(map[], ChapterAccumulate, rows).Ok? <==> ChapterRowsValid(rows)
    ensures ChapterRowsValid(rows) ==> Fold(map[], ChapterAccumulate, rows).value == ChapterMap(rows)
  {
    if rows != [] {
      var n := |rows| - 1;
      var init := rows[..n];
      ChaptersRead(init);
      assert forall i :: 0 <= i < n ==> init[i] == rows[i];
      if AllChapterFields(rows) {
        var d := rows[n]["chapter_designation"];
        assert Designations(rows) == Designations(init) + [d];
        DistinctSnoc(Designations(init), d);
        ChapterMapKeys(init);
      }
    }
  }

  /** The keys of the mapping are the designations. */
  lemma {:induction false} ChapterMapKeys(rows: seq<Row>)
    requires AllChapterFields(rows)
    ensures forall d :: d in ChapterMap(rows) <==> d in Designations(rows)
  {
    if rows != [] {
      var n := |rows| - 1;
      assert forall i :: 0 <= i < n ==> rows[..n][i] == rows[i];
      ChapterMapKeys(rows[..n]);
    }
  }

  /** With distinct designations, each designation maps to the location on its own row. */
  lemma {:induction false} ChapterMapValues(rows: seq<Row>, i: nat)
    requires ChapterRowsValid(rows) && i < |rows|
    ensures Designations(rows)[i] == rows[i]["chapter_designation"]
    ensures rows[i]["chapter_designation"] in ChapterMap(rows)
    ensures ChapterMap(rows)[rows[i]["chapter_designation"]] == rows[i]["chapter_location"]
  {
    ChapterMapKeys(rows);
    var n := |rows| - 1;
    var init := rows[..n];
    assert forall k :: 0 <= k < n ==> init[k] == rows[k];
    assert Designations(rows) == Designations(init) + [rows[n]["chapter_designation"]];
    DistinctSnoc(Designations(init), rows[n]["chapter_designation"]);
    if i < n {
      ChapterMapValues(init, i);
      assert Designations(init)[i] in Designations(init);
    }
  }

  /** `ChapterReader(rows).read()` */
  method ReadChapters(rows: seq<Row>) returns (r: Result<map<string, string>, DirectoryError>)
    ensures r.Ok? <==> ChapterRowsValid(rows)
    ensures r.Ok? ==> r.value == ChapterMap(rows)
  {
    r := Read(map[], ChapterAccumulate, rows);
    ChaptersRead(rows);
  }

  /** A designation seen before stops the read at the row that repeats it. */
  lemma DuplicateChapterStops(rows: seq<Row>, i: nat, j: nat)
    requires i < j < |rows| && HasChapterFields(rows[i]) && HasChapterFields(rows[j])
    requires rows[i]["chapter_designation"] == rows[j]["chapter_designation"]
    requires Fold(map[], ChapterAccumulate, rows[..j]).Ok?
    ensures Fold(map[], ChapterAccumulate, rows) == Err(RowError(j))
  {
    var init := rows[..j];
    ChaptersRead(init);
    ChapterMapValues(init, i);
    assert init[i] == rows[i];
    assert Designations(init)[i] in Designations(init);
    FoldStopsAt(map[], ChapterAccumulate, rows, j);
  }

  // ---------------------------------------------------------------------------
  // AffiliationsReader
  // ---------------------------------------------------------------------------

  /**
   * `AffiliationsReader.to_greek_name`: the same table as the schema's
   * `to_greek_name`, words split on single spaces; an unknown word fails.
   */
  function ToGreekName(englishName: string): (r: Option<string>)
    ensures r.Some? <==> forall w :: w in Split(englishName, ' ') ==> w in G.GreekMapping
    ensures r.Some? ==> ' ' !in r.value
  {
    match G.ToGreekName(englishName)
    case Ok(letters) => Some(letters)
    case Err(_) => None
  }

  /** Words of the table joined by single spaces give their letters, one after the other. */
  lemma ToGreekNameOfWords(ws: seq<string>)
    requires |ws| >= 1 && forall i :: 0 <= i < |ws| ==> ws[i] in G.GreekMapping
    ensures ToGreekName(Join(ws, " ")) == Some(G.GreekWords(ws).value)
  {
    G.ToGreekNameOfWords(ws);
  }

  /** `fields_of(row)`: the badge, and "<greek chapter name> <other badge>". */
  function AffiliationEntry(row: Row): (r: Option<(string, string)>)
    ensures r.Some? <==> "badge" in row && "chapter_name" in row && "other_badge" in row &&
                          ToGreekName(row["chapter_name"]).Some?
    ensures r.Some? ==> (r.value.0 == row["badge"] &&
                         r.value.1 == ToGreekName(row["chapter_name"]).value + " " + row["other_badge"])
  {
    if "badge" !in row || "chapter_name" !in row then None
    else
      match ToGreekName(row["chapter_name"])
      case None => None
      case Some(name) => if "other_badge" !in row then None else Some((row["badge"], name + " " + row["other_badge"]))
  }

  /**
   * `AffiliationsReader.accumulate`, for any way `entry` of reading a row:
   * append the row's text to its key's list (`defaultdict(list)`).
   */
  function AppendEntry(entry: Row -> Option<(string, string)>, acc: map<string, seq<string>>, row: Row): Option<map<string, seq<string>>> {
    match entry(row)
    case None => None
    case Some((badge, text)) => Some(acc[badge := (if badge in acc then acc[badge] else []) + [text]])
  }

  /** `AffiliationsReader.accumulate` */
  function AffiliationAccumulate(acc: map<string, seq<string>>, row: Row): Option<map<string, seq<string>>> {
    AppendEntry(AffiliationEntry, acc, row)
  }

  predicate AllEntries(entry: Row -> Option<(string, string)>, rows: seq<Row>) {
    forall i :: 0 <= i < |rows| ==> entry(rows[i]).Some?
  }

  /** The keys of the rows, in row order. */
  function Badges(entry: Row -> Option<(string, string)>, rows: seq<Row>): (bs: seq<string>)
    requires AllEntries(entry, rows)
  {
    if rows == [] then []
    else Badges(entry, rows[..|rows| - 1]) + [entry(rows[|rows| - 1]).value.0]
  }

  /** The texts of the rows for one key, in row order. */
  function EntriesFor(entry: Row -> Option<(string, string)>, rows: seq<Row>, badge: string): seq<string>
    requires AllEntries(entry, rows)
  {
    if rows == [] then []
    else
      var e := entry(rows[|rows| - 1]).value;
      EntriesFor(entry, rows[..|rows| - 1], badge) + (if e.0 == badge then [e.1] else [])
  }

  /** The mapping the rows describe: every key that occurs to its texts. */
  function AffiliationMap(entry: Row -> Option<(string, string)>, rows: seq<Row>): map<string, seq<string>>
    requires AllEntries(entry, rows)
  {
    map b | b in Badges(entry, rows) :: EntriesFor(entry, rows, b)
  }

  /**
   * Folding `AppendEntry` over the rows succeeds exactly when every row makes
   * an entry, and then gives the mapping the rows describe.
   */
  lemma {:induction false} ListsRead(entry: Row -> Option<(string, string)>,
                                     accumulate: (map<string, seq<string>>, Row) -> Option<map<string, seq<string>>>,
                                     rows: seq<Row>)
    requires forall acc, row :: accumulate(acc, row) == AppendEntry(entry, acc, row)
    ensures Fold(map[], accumulate, rows).Ok? <==> AllEntries(entry, rows)
    ensures AllEntries(entry, rows) ==> Fold(map[], accumulate, rows).value == AffiliationMap(entry, rows)
  {
    if rows != [] {
      var n := |rows| - 1;
      var init := rows[..n];
      ListsRead(entry, accumulate, init);
      assert forall i :: 0 <= i < n ==> init[i] == rows[i];
      if AllEntries(entry, rows) {
        AffiliationsStep(entry, rows);
      }
    }
  }

  /**
   * `AffiliationsReader(rows).read()` succeeds exactly when every row makes
   * an entry; it then maps each badge that occurs to the entries of its rows,
   * in row order.
   */
  lemma AffiliationsRead(rows: seq<Row>)
    ensures Fold(map[], AffiliationAccumulate, rows).Ok? <==> AllEntries(AffiliationEntry, rows)
    ensures AllEntries(AffiliationEntry, rows) ==>
              Fold(map[], AffiliationAccumulate, rows).value == AffiliationMap(AffiliationEntry, rows)
  {
    ListsRead(AffiliationEntry, AffiliationAccumulate, rows);
  }

  /** `AffiliationsReader(rows).read()` */
  method ReadAffiliations(rows: seq<Row>) returns (r: Result<map<string, seq<string>>, DirectoryError>)
    ensures r.Ok? <==> AllEntries(AffiliationEntry, rows)
    ensures r.Ok? ==> r.value == AffiliationMap(AffiliationEntry, rows)
  {
    r := Read(map[], AffiliationAccumulate, rows);
    AffiliationsRead(rows);
  }

  /** Each badge's list holds the entries of its rows, in row order. */
  lemma AffiliationMapContents(rows: seq<Row>, i: nat)
    requires AllEntries(AffiliationEntry, rows) && i < |rows|
    ensures rows[i]["badge"] in AffiliationMap(AffiliationEntry, rows)
    ensures AffiliationEntry(rows[i]).value.1 in AffiliationMap(AffiliationEntry, rows)[rows[i]["badge"]]
  {
    BadgesAndEntries(AffiliationEntry, rows, i);
  }

  lemma {:induction false} BadgesAndEntries(entry: Row -> Option<(string, string)>, rows: seq<Row>, i: nat)
    requires AllEntries(entry, rows) && i < |rows|
    ensures entry(rows[i]).value.0 in Badges(entry, rows)
    ensures entry(rows[i]).value.1 in EntriesFor(entry, rows, entry(rows[i]).value.0)
  {
    var n := |rows| - 1;
    var init := rows[..n];
    assert forall k :: 0 <= k < n ==> init[k] == rows[k];
    if i < n {
      BadgesAndEntries(entry, init, i);
    }
  }

  /** One more row appends its text to its key's list and leaves the other lists alone. */
  lemma AffiliationsStep(entry: Row -> Option<(string, string)>, rows: seq<Row>)
    requires |rows| >= 1 && AllEntries(entry, rows)
    ensures AllEntries(entry, rows[..|rows| - 1])
    ensures AppendEntry(entry, AffiliationMap(entry, rows[..|rows| - 1]), rows[|rows| - 1]) == Some(AffiliationMap(entry, rows))
  {
    var n := |rows| - 1;
    var init := rows[..n];
    assert forall i :: 0 <= i < n ==> init[i] == rows[i];
    var m := AffiliationMap(entry, init);
    var e := entry(rows[n]).value;
    assert Badges(entry, rows) == Badges(entry, init) + [e.0];
    var r := m[e.0 := (if e.0 in m then m[e.0] else []) + [e.1]];
    forall b | b in r ensures r[b] == EntriesFor(entry, rows, b) {
      if b == e.0 && b !in m {
        NoEntries(entry, init, b);
      }
    }
    assert r == AffiliationMap(entry, rows);
  }

  /** A key no row names has no texts. */
  lemma {:induction false} NoEntries(entry: Row -> Option<(string, string)>, rows: seq<Row>, badge: string)
    requires AllEntries(entry, rows) && badge !in Badges(entry, rows)
    ensures EntriesFor(entry, rows, badge) == []
  {
    if rows != [] {
      var n := |rows| - 1;
      assert forall i :: 0 <= i < n ==> rows[..n][i] == rows[i];
      assert Badges(entry, rows) == Badges(entry, rows[..n]) + [entry(rows[n]).value.0];
      NoEntries(entry, rows[..n], badge);
    }
  }
}
