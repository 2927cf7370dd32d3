/**
 * The later Sigma Nu member kinds of `snutree/schemas/sigmanu.py`: the
 * English-name-to-Greek mapping used for affiliations read from JSON, the
 * four member kinds with their keys and labels, and the counters that key
 * Brothers and Candidates.
 *
 * Unlike `snutree/member/sigmanu.py`, this mapping sends several letters to
 * their Latin look-alikes ('Alpha' to "A"), and the primary chapter in the
 * labels is written "ΔA" with a Latin A.
 */
module SigmaNuSchema {
  import opened Wrappers
  import opened Text

  datatype SchemaError = ValueError | KeyError(key: string)

  /** `greek_mapping` */
  const GreekMapping: map<string, string> := map[
    "Alpha" := "A", "Beta" := "B", "Gamma" := "Γ", "Delta" := "Δ",
    "Epsilon" := "E", "Zeta" := "Z", "Eta" := "H", "Theta" := "Θ",
    "Iota" := "I", "Kappa" := "K", "Lambda" := "Λ", "Mu" := "M",
    "Nu" := "N", "Xi" := "Ξ", "Omicron" := "O", "Pi" := "Π",
    "Rho" := "P", "Sigma" := "Σ", "Tau" := "T", "Upsilon" := "Y",
    "Phi" := "Φ", "Chi" := "X", "Psi" := "Ψ", "Omega" := "Ω",
    "(A)" := "(A)", "(B)" := "(B)"]

  /** Neither the English names nor the letters they map to hold a space. */
  lemma MappingHasNoSpaces()
    ensures forall w :: w in GreekMapping ==> ' ' !in w && ' ' !in GreekMapping[w]
  {
  }

  /** The mapped letters of the words, in order; `ValueError` at the first word not in the table. */
  function GreekWords(ws: seq<string>): (r: Result<string, SchemaError>)
    ensures r.Ok? <==> forall i :: 0 <= i < |ws| ==> ws[i] in GreekMapping
    ensures r.Ok? ==> ' ' !in r.value
    ensures r.Err? ==> r.error == ValueError
  {
    if ws == [] then Ok("")
    else if ws[0] !in GreekMapping then Err(ValueError)
    else
      MappingHasNoSpaces();
      match GreekWords(ws[1..])
      case Err(e) => Err(e)
      case Ok(rest) => Ok(GreekMapping[ws[0]] + rest)
  }

  /** `to_greek_name(english_name)`: split on single spaces and map every word. */
  function ToGreekName(englishName: string): (r: Result<string, SchemaError>)
    ensures r.Ok? <==> forall w :: w in Split(englishName, ' ') ==> w in GreekMapping
  {
    GreekWords(Split(englishName, ' '))
  }

  /** Words of the table joined by single spaces map to their letters, one after the other. */
  lemma ToGreekNameOfWords(ws: seq<string>)
    requires |ws| >= 1 && forall i :: 0 <= i < |ws| ==> ws[i] in GreekMapping
    ensures ToGreekName(Join(ws, " ")) == GreekWords(ws)
    ensures ToGreekName(Join(ws, " ")).Ok?
  {
    MappingHasNoSpaces();
    SplitJoin(ws, ' ');
  }

  /** Two spaces in a row, or a leading or trailing space, leave an empty word, which is refused. */
  lemma EmptyWordRefused(englishName: string)
    requires "" in Split(englishName, ' ')
    ensures ToGreekName(englishName) == Err(ValueError)
  {
    assert "" !in GreekMapping;
    var ws := Split(englishName, ' ');
    var i :| 0 <= i < |ws| && ws[i] == "";
  }

  /**
   * `coerce_affiliation(affiliation)`: the chapter name in Greek letters, a
   * space, and the other badge as `str` shows it. A missing field raises
   * `KeyError`; the chapter name is looked up first.
   */
  function CoerceAffiliation(affiliation: map<string, string>): (r: Result<string, SchemaError>)
    ensures "chapter_name" !in affiliation ==> r == Err(KeyError("chapter_name"))
    ensures r.Ok? <==>
      "chapter_name" in affiliation && ToGreekName(affiliation["chapter_name"]).Ok? &&
      "other_badge" in affiliation
  {
    if "chapter_name" !in affiliation then Err(KeyError("chapter_name"))
    else
      var greek :- ToGreekName(affiliation["chapter_name"]);
      if "other_badge" !in affiliation then Err(KeyError("other_badge"))
      else Ok(greek + " " + affiliation["other_badge"])
  }

  /**
   * The coerced text splits at its first space into the Greek designation
   * and the other badge.
   */
  lemma CoercedParts(affiliation: map<string, string>)
    requires CoerceAffiliation(affiliation).Ok?
    ensures var text := CoerceAffiliation(affiliation).value;
      var greek := ToGreekName(affiliation["chapter_name"]).value;
      var n := |greek|;
      n < |text| && ' ' !in text[..n] && text[n] == ' ' &&
      text[..n] == greek && text[n + 1..] == affiliation["other_badge"]
  {
    var text := CoerceAffiliation(affiliation).value;
    var greek := ToGreekName(affiliation["chapter_name"]).value;
    assert text == greek + " " + affiliation["other_badge"];
    assert text[..|greek|] == greek;
  }

  // ---------------------------------------------------------------------------
  // Members
  // ---------------------------------------------------------------------------

  /** `combine_names(first, preferred, last)`, every argument possibly `None`: opaque here. */
  type NameCombiner = (Option<string>, Option<string>, Option<string>) -> string

  datatype SchemaMember =
    | Knight(badge: Option<string>, name: string, parent: Option<string>, semester: Option<int>,
             affiliations: seq<string>)
    | Brother(key: string, lastName: Option<string>, parent: Option<string>, semester: Option<int>)
    | Candidate(key: string, name: string, parent: Option<string>, semester: Option<int>)
    | Expelled(badge: Option<string>, parent: Option<string>, semester: Option<int>,
               affiliations: seq<string>)

  /** The name an Expelled member is shown under. */
  const ExpelledName := "Member Expelled"

  /** The primary chapter as these labels spell it, with a Latin A. */
  const PrimaryChapter := "ΔA"

  /**
   * `Knight(...)`: the badge is the key; whatever affiliations are passed,
   * the Knight keeps none.
   */
  function NewKnight(combine: NameCombiner, badge: Option<string>, firstName: Option<string>,
                     preferredName: Option<string>, lastName: Option<string>, bigBadge: Option<string>,
                     pledgeSemester: Option<int>, affiliations: Option<seq<string>>): (m: SchemaMember)
    ensures m.Knight? && GetKey(m) == badge && m.affiliations == []
    ensures m.parent == bigBadge && m.semester == pledgeSemester
  {
    Knight(badge, combine(firstName, preferredName, lastName), bigBadge, pledgeSemester, [])
  }

  /** `Expelled(...)`: keyed by its badge, named "Member Expelled", keeping the affiliations it is given. */
  function NewExpelled(badge: Option<string>, bigBadge: Option<string>, pledgeSemester: Option<int>,
                       affiliations: Option<seq<string>>): (m: SchemaMember)
    ensures m.Expelled? && GetKey(m) == badge
    ensures affiliations.Some? ==> m.affiliations == affiliations.value
    ensures affiliations.None? ==> m.affiliations == []
  {
    Expelled(badge, bigBadge, pledgeSemester, if affiliations.Some? then affiliations.value else [])
  }

  /** `get_key()`: a Knight's or Expelled member's badge, otherwise the generated key. */
  function GetKey(m: SchemaMember): Option<string> {
    match m
    case Knight(badge, _, _, _, _) => badge
    case Expelled(badge, _, _, _) => badge
    case Brother(key, _, _, _) => Some(key)
    case Candidate(key, _, _, _) => Some(key)
  }

  /**
   * The Brother and Candidate classes: `Brother.bid` and `Candidate.cid`
   * count the members built so far and give each a fresh key.
   */
  class MemberCounters {
    var brothers: nat
    var candidates: nat
    const combine: NameCombiner

    constructor(combine: NameCombiner)
      ensures brothers == 0 && candidates == 0 && this.combine == combine
    {
      brothers := 0;
      candidates := 0;
      this.combine := combine;
    }

    /** `Brother(...)`: named by the last name alone, keyed "Brother n" from the counter. */
    method NewBrother(lastName: Option<string>, bigBadge: Option<string>, pledgeSemester: Option<int>)
      returns (m: SchemaMember)
      modifies this
      ensures m == Brother(CounterKey("Brother", old(brothers)), lastName, bigBadge, pledgeSemester)
      ensures brothers == old(brothers) + 1 && candidates == old(candidates)
    {
      m := Brother(CounterKey("Brother", brothers), lastName, bigBadge, pledgeSemester);
      brothers := brothers + 1;
    }

    /** `Candidate(...)`: the combined name, keyed "Candidate n" from the counter. */
    method NewCandidate(firstName: Option<string>, preferredName: Option<string>, lastName: Option<string>,
                        bigBadge: Option<string>, pledgeSemester: Option<int>)
      returns (m: SchemaMember)
      modifies this
      ensures m == Candidate(CounterKey("Candidate", old(candidates)),
                             combine(firstName, preferredName, lastName), bigBadge, pledgeSemester)
      ensures candidates == old(candidates) + 1 && brothers == old(brothers)
    {
      m := Candidate(CounterKey("Candidate", candidates), combine(firstName, preferredName, lastName),
                     bigBadge, pledgeSemester);
      candidates := candidates + 1;
    }
  }

  // ---------------------------------------------------------------------------
  // Labels
  // ---------------------------------------------------------------------------

  /** The first part of `affiliations_key()`: False for an affiliation of the primary chapter. */
  predicate IsPrimary(s: string) {
    StartsWith(s, PrimaryChapter + " ")
  }

  /** `(not s.startswith('ΔA '), s) <= (not t.startswith('ΔA '), t)` */
  predicate KeyLessEq(s: string, t: string) {
    (IsPrimary(s) && !IsPrimary(t)) || (IsPrimary(s) == IsPrimary(t) && StrLessEq(s, t))
  }

  predicate KeySorted(s: seq<string>) {
    forall i, j :: 0 <= i < j < |s| ==> KeyLessEq(s[i], s[j])
  }

  function Primaries(s: seq<string>): (r: seq<string>)
    ensures forall x :: x in multiset(r) ==> IsPrimary(x)
  {
    if s == [] then []
    else (if IsPrimary(s[0]) then [s[0]] else []) + Primaries(s[1..])
  }

  function Others(s: seq<string>): (r: seq<string>)
    ensures forall x :: x in multiset(r) ==> !IsPrimary(x)
  {
    if s == [] then []
    else (if IsPrimary(s[0]) then [] else [s[0]]) + Others(s[1..])
  }

  lemma {:induction false} PartitionKeepsAll(s: seq<string>)
    ensures multiset(Primaries(s)) + multiset(Others(s)) == multiset(s)
  {
    if s != [] {
      PartitionKeepsAll(s[1..]);
      assert s == [s[0]] + s[1..];
    }
  }

  /** `sorted(affiliations, key=affiliations_key())`: the primary chapter's first, each part in `str` order. */
  function SortByKey(s: seq<string>): (r: seq<string>)
    ensures multiset(r) == multiset(s)
  {
    PartitionKeepsAll(s);
    SortStrings(Primaries(s)) + SortStrings(Others(s))
  }

  /** The sort is ordered by the key. */
  lemma SortByKeySorted(s: seq<string>)
    ensures KeySorted(SortByKey(s))
  {
    var p := SortStrings(Primaries(s));
    var o := SortStrings(Others(s));
    var r := p + o;
    forall i, j | 0 <= i < j < |r| ensures KeyLessEq(r[i], r[j]) {
      if j < |p| {
        assert r[i] == p[i] && r[j] == p[j];
        assert p[i] in multiset(p) && p[j] in multiset(p);
      } else if i >= |p| {
        assert r[i] == o[i - |p|] && r[j] == o[j - |p|];
        assert o[i - |p|] in multiset(o) && o[j - |p|] in multiset(o);
      } else {
        assert r[i] == p[i] && r[j] == o[j - |p|];
        assert p[i] in multiset(p) && o[j - |p|] in multiset(o);
      }
    }
  }

  /** Every affiliation of the primary chapter precedes every other one. */
  lemma PrimaryAffiliationsFirst(s: seq<string>, i: int, j: int)
    requires 0 <= i < |SortByKey(s)| && 0 <= j < |SortByKey(s)|
    requires IsPrimary(SortByKey(s)[j]) && !IsPrimary(SortByKey(s)[i])
    ensures j < i
  {
    SortByKeySorted(s);
  }

  /** `format(None)` prints "None". */
  function Show(v: Option<string>): string {
    if v.Some? then v.value else "None"
  }

  /** `get_dot_label()`: the name, an escaped newline `\n`, then what each kind shows below it. */
  function DotLabel(m: SchemaMember): string {
    match m
    case Knight(_, name, _, _, affiliations) => name + "\\n" + Join(SortByKey(affiliations), ", ")
    case Brother(_, lastName, _, _) => Show(lastName) + "\\n" + PrimaryChapter + " Brother"
    case Candidate(_, name, _, _) => name + "\\n" + PrimaryChapter + " Candidate"
    case Expelled(badge, _, _, _) => ExpelledName + "\\n" + Show(badge)
  }

  /** A Knight as built keeps no affiliations, so its label is its name and `\n`. */
  lemma KnightLabel(combine: NameCombiner, badge: Option<string>, firstName: Option<string>,
                    preferredName: Option<string>, lastName: Option<string>, bigBadge: Option<string>,
                    pledgeSemester: Option<int>, affiliations: Option<seq<string>>)
    ensures var m := NewKnight(combine, badge, firstName, preferredName, lastName, bigBadge,
                               pledgeSemester, affiliations);
      DotLabel(m) == m.name + "\\n"
  {
    var m := NewKnight(combine, badge, firstName, preferredName, lastName, bigBadge,
                       pledgeSemester, affiliations);
    assert SortByKey(m.affiliations) == [];
  }

  /** An Expelled member's label shows only "Member Expelled" and the badge, never a name. */
  lemma ExpelledLabel(badge: string, bigBadge: Option<string>, pledgeSemester: Option<int>,
                      affiliations: Option<seq<string>>)
    ensures DotLabel(NewExpelled(Some(badge), bigBadge, pledgeSemester, affiliations)) ==
            "Member Expelled\\n" + badge
  {
  }
}
