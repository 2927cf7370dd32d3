/**
 * Chapter affiliations of `snutree/member/sigmanu.py`: "<chapter> <badge>",
 * where the chapter is either a full chapter name made of English letter
 * names ("Delta Alpha 5") or a designation written with Greek letters and
 * their Latin look-alikes ("ΔA 5"). Either form is brought to one canonical
 * designation made of Greek capitals and "(A)"/"(B)".
 *
 * Case mapping is modelled for ASCII letters and for the basic Greek
 * alphabet (U+0391..U+03A9 and U+03B1..U+03C9), which are all the letters a
 * chapter name or designation can use.
 */
module Affiliations {
  import opened Wrappers
  import opened Text

  // ---------------------------------------------------------------------------
  // Letters and case
  // ---------------------------------------------------------------------------

  predicate IsAsciiUpper(c: char) { 'A' <= c <= 'Z' }
  predicate IsAsciiLower(c: char) { 'a' <= c <= 'z' }
  predicate IsAsciiLetter(c: char) { IsAsciiUpper(c) || IsAsciiLower(c) }

  /** A capital of the basic Greek alphabet (U+03A2 is unassigned). */
  predicate IsGreekUpper(c: char) { 'Α' <= c <= 'Ω' && c != '\U{03A2}' }

  /** A small letter of the basic Greek alphabet, final sigma 'ς' included. */
  predicate IsGreekLower(c: char) { 'α' <= c <= 'ω' }

  /** Letters that have case: `title()` capitalises one only after a letter that has none. */
  predicate IsCased(c: char) { IsAsciiLetter(c) || IsGreekUpper(c) || IsGreekLower(c) }

  /** A character that `upper()` changes. */
  predicate IsLowerCase(c: char) { IsAsciiLower(c) || IsGreekLower(c) }

  /** `c.upper()`: final sigma becomes 'Σ' like the ordinary sigma. */
  function UpperChar(c: char): (u: char)
    ensures !IsLowerCase(u)
    ensures !IsLowerCase(c) ==> u == c
    ensures IsGreekUpper(u) <==> IsGreekUpper(c) || IsGreekLower(c)
    ensures IsAsciiUpper(u) <==> IsAsciiLetter(c)
  {
    if IsAsciiLower(c) then (c as int - 32) as char
    else if c == 'ς' then 'Σ'
    else if IsGreekLower(c) then (c as int - 32) as char
    else c
  }

  /** `s.upper()` */
  function Upper(s: string): (r: string)
    ensures |r| == |s|
    ensures forall i :: 0 <= i < |s| ==> r[i] == UpperChar(s[i])
  {
    seq(|s|, i requires 0 <= i < |s| => UpperChar(s[i]))
  }

  function UpperAscii(c: char): char {
    if IsAsciiLower(c) then (c as int - 32) as char else c
  }

  function LowerAscii(c: char): char {
    if IsAsciiUpper(c) then (c as int + 32) as char else c
  }

  /**
   * `s.title()` from a position whose previous character is cased or not:
   * a letter after an uncased character is capitalised, one after a cased
   * character is put in small letters.
   */
  function TitleFrom(s: string, afterCased: bool): (r: string)
    ensures |r| == |s|
    ensures forall i :: 0 <= i < |s| && !IsAsciiLetter(s[i]) ==> r[i] == s[i]
  {
    if s == [] then []
    else [if afterCased then LowerAscii(s[0]) else UpperAscii(s[0])] + TitleFrom(s[1..], IsCased(s[0]))
  }

  /** `w.title()` */
  function Title(w: string): (r: string)
    ensures |r| == |w|
    ensures forall i :: 0 <= i < |w| && !IsAsciiLetter(w[i]) ==> r[i] == w[i]
  {
    TitleFrom(w, false)
  }

  // ---------------------------------------------------------------------------
  // The two tables and the designation tokens
  // ---------------------------------------------------------------------------

  /** `ENGLISH_TO_GREEK`: English letter names (title case) to Greek capitals. */
  const EnglishToGreek: map<string, string> := map[
    "Alpha" := "Α", "Beta" := "Β", "Gamma" := "Γ", "Delta" := "Δ",
    "Epsilon" := "Ε", "Zeta" := "Ζ", "Eta" := "Η", "Theta" := "Θ",
    "Iota" := "Ι", "Kappa" := "Κ", "Lambda" := "Λ", "Mu" := "Μ",
    "Nu" := "Ν", "Xi" := "Ξ", "Omicron" := "Ο", "Pi" := "Π",
    "Rho" := "Ρ", "Sigma" := "Σ", "Tau" := "Τ", "Upsilon" := "Υ",
    "Phi" := "Φ", "Chi" := "Χ", "Psi" := "Ψ", "Omega" := "Ω",
    "(A)" := "(A)", "(B)" := "(B)"]

  /** The Latin capitals that look like Greek capitals. */
  const LatinLookalikes: string := "ABEZHIKMNOPTYX"

  /** `LATIN_TO_GREEK`: each Latin look-alike (left) to its Greek capital (right). */
  const LatinToGreek: map<string, string> := map[
    "A" := "Α", "B" := "Β", "E" := "Ε", "Z" := "Ζ", "H" := "Η", "I" := "Ι",
    "K" := "Κ", "M" := "Μ", "N" := "Ν", "O" := "Ο", "P" := "Ρ", "T" := "Τ",
    "Y" := "Υ", "X" := "Χ", "(A)" := "(A)", "(B)" := "(B)"]

  /**
   * `DESIGNATION_TOKENS`: Greek capitals and small letters (final sigma
   * included), the Latin look-alikes, and "(A)", "(B)" in either case.
   */
  predicate IsToken(t: string) {
    (|t| == 1 && (IsGreekUpper(t[0]) || IsGreekLower(t[0]) || t[0] in LatinLookalikes)) ||
    t == "(A)" || t == "(B)" || t == "(a)" || t == "(b)"
  }

  /** What a canonical designation is made of: a Greek capital, "(A)" or "(B)". */
  predicate IsCanonicalToken(t: string) {
    (|t| == 1 && IsGreekUpper(t[0])) || t == "(A)" || t == "(B)"
  }

  /** The English table's names are ASCII words; its values are canonical tokens. */
  lemma EnglishTable(k: string)
    requires k in EnglishToGreek
    ensures |k| >= 2 && (IsAsciiLetter(k[0]) || k == "(A)" || k == "(B)")
    ensures IsCanonicalToken(EnglishToGreek[k])
  {
  }

  /** The Latin table sends each look-alike to a Greek capital and keeps "(A)", "(B)". */
  lemma LatinTable(t: string)
    requires t in LatinToGreek
    ensures IsCanonicalToken(LatinToGreek[t])
    ensures t == "(A)" || t == "(B)" || (|t| == 1 && t[0] in LatinLookalikes)
  {
  }

  /** Every Latin look-alike has an entry in the Latin table. */
  lemma LookalikesInTable(c: char)
    requires c in LatinLookalikes
    ensures [c] in LatinToGreek
  {
  }

  // ---------------------------------------------------------------------------
  // Splitting a designation into tokens
  // ---------------------------------------------------------------------------

  /** `''.join(parts)` */
  function Concat(parts: seq<string>): (r: string)
    ensures |parts| > 0 ==> StartsWith(r, parts[0])
  {
    if parts == [] then "" else parts[0] + Concat(parts[1..])
  }

  /** `ts` splits `s` into designation tokens. */
  predicate Splits(ts: seq<string>, s: string) {
    (forall i :: 0 <= i < |ts| ==> IsToken(ts[i])) && Concat(ts) == s
  }

  /**
   * The tokens of `s`, left to right. Only the three-character tokens start
   * with '(', so at each position at most one token fits.
   */
  function Tokenize(s: string): (r: Option<seq<string>>)
    ensures r.Some? ==> Splits(r.value, s)
  {
    if s == "" then Some([])
    else if |s| >= 3 && IsToken(s[..3]) then
      match Tokenize(s[3..])
      case Some(ts) =>
        assert s == s[..3] + s[3..];
        Some([s[..3]] + ts)
      case None => None
    else if IsToken([s[0]]) then
      match Tokenize(s[1..])
      case Some(ts) =>
        assert s == [s[0]] + s[1..];
        Some([[s[0]]] + ts)
      case None => None
    else None
  }

  /** Only the three-character tokens start with '('. */
  lemma TokenFirst(t: string)
    requires IsToken(t)
    ensures (|t| == 3 && t[0] == '(') || (|t| == 1 && t[0] != '(')
  {
  }

  /** A split into tokens is the first token followed by a split of the rest. */
  lemma SplitsTail(ts: seq<string>, s: string)
    requires Splits(ts, s) && ts != []
    ensures |ts[0]| <= |s| && s[..|ts[0]|] == ts[0] && Splits(ts[1..], s[|ts[0]|..])
  {
    var t := ts[0];
    assert StartsWith(s, t) && s == t + Concat(ts[1..]);
    assert s[|t|..] == Concat(ts[1..]);
    forall i | 0 <= i < |ts[1..]| ensures IsToken(ts[1..][i]) {
      assert ts[1..][i] == ts[i + 1];
    }
  }

  /** A split into tokens is unique: whenever one exists, `Tokenize` finds it. */
  lemma {:induction false} TokenizeComplete(ts: seq<string>, s: string)
    requires Splits(ts, s)
    ensures Tokenize(s) == Some(ts)
    decreases |s|
  {
    if ts != [] {
      var t := ts[0];
      SplitsTail(ts, s);
      TokenizeComplete(ts[1..], s[|t|..]);
      TokenFirst(t);
      assert ts == [t] + ts[1..];
      if |t| == 3 {
        assert s[..3] == t;
      } else {
        assert [s[0]] == t;
        if |s| >= 3 && IsToken(s[..3]) {
          TokenFirst(s[..3]);
          assert false;
        }
      }
    } else {
      assert s == "";
    }
  }

  /**
   * `DESIGNATION_MATCHER.match(s)` for `^(token)+$`: one token or more, then
   * the end of the string or a newline that ends it.
   */
  predicate DesignationMatch(s: string) {
    (|s| > 0 && Tokenize(s).Some?) ||
    (|s| >= 2 && s[|s| - 1] == '\n' && Tokenize(s[..|s| - 1]).Some?)
  }

  /** `re.findall(DESIGNATION_TOKEN, s)`: leftmost tokens, skipping what no token matches. */
  function FindAll(s: string): (ts: seq<string>)
    ensures forall i :: 0 <= i < |ts| ==> IsToken(ts[i])
  {
    if s == "" then []
    else if |s| >= 3 && IsToken(s[..3]) then [s[..3]] + FindAll(s[3..])
    else if IsToken([s[0]]) then [[s[0]]] + FindAll(s[1..])
    else FindAll(s[1..])
  }

  /** On a string that splits into tokens, `findall` returns exactly that split. */
  lemma {:induction false} FindAllOfTokens(s: string)
    requires Tokenize(s).Some?
    ensures FindAll(s) == Tokenize(s).value
    decreases |s|
  {
    if s != "" {
      if |s| >= 3 && IsToken(s[..3]) {
        FindAllOfTokens(s[3..]);
      } else {
        FindAllOfTokens(s[1..]);
      }
    }
  }

  /** A newline after the tokens is skipped by `findall`. */
  lemma {:induction false} FindAllTrailingNewline(s: string)
    requires Tokenize(s).Some?
    ensures FindAll(s + "\n") == FindAll(s)
    decreases |s|
  {
    var n := s + "\n";
    if s == "" {
      assert n == "\n";
    } else if |s| >= 3 && IsToken(s[..3]) {
      assert n[..3] == s[..3] && n[3..] == s[3..] + "\n";
      FindAllTrailingNewline(s[3..]);
    } else {
      assert n[1..] == s[1..] + "\n";
      assert !(|n| >= 3 && IsToken(n[..3])) by {
        if |s| >= 3 {
          assert n[..3] == s[..3];
        } else if |n| >= 3 {
          assert n[2] == '\n';
        }
      }
      FindAllTrailingNewline(s[1..]);
    }
  }

  /** No small letter is left in the string. */
  predicate NoLowerCase(s: string) {
    forall i :: 0 <= i < |s| ==> !IsLowerCase(s[i])
  }

  /** In a string without small letters, `findall` finds capitals, look-alikes and "(A)", "(B)" only. */
  lemma {:induction false} FindAllOfUpper(s: string)
    requires NoLowerCase(s)
    ensures forall i :: 0 <= i < |FindAll(s)| ==> IsCanonicalToken(Canon(FindAll(s)[i]))
    decreases |s|
  {
    if s != "" {
      assert NoLowerCase(s[1..]) by {
        assert forall i :: 0 <= i < |s[1..]| ==> s[1..][i] == s[i + 1];
      }
      if |s| >= 3 && IsToken(s[..3]) {
        assert NoLowerCase(s[3..]) by {
          assert forall i :: 0 <= i < |s[3..]| ==> s[3..][i] == s[i + 3];
        }
        FindAllOfUpper(s[3..]);
        var t := s[..3];
        assert t != "(a)" && t != "(b)" by { assert !IsLowerCase(s[1]); }
        var r := FindAll(s);
        assert r == [t] + FindAll(s[3..]);
        forall i | 0 <= i < |r| ensures IsCanonicalToken(Canon(r[i])) {
          if i > 0 { assert r[i] == FindAll(s[3..])[i - 1]; }
        }
      } else if IsToken([s[0]]) {
        FindAllOfUpper(s[1..]);
        var t := [s[0]];
        assert !IsLowerCase(s[0]);
        assert IsCanonicalToken(Canon(t)) by {
          if s[0] in LatinLookalikes {
            LookalikesInTable(s[0]);
            LatinTable(t);
          }
        }
        var r := FindAll(s);
        assert r == [t] + FindAll(s[1..]);
        forall i | 0 <= i < |r| ensures IsCanonicalToken(Canon(r[i])) {
          if i > 0 { assert r[i] == FindAll(s[1..])[i - 1]; }
        }
      } else {
        FindAllOfUpper(s[1..]);
      }
    }
  }

  /** `LATIN_TO_GREEK.get(t, t)` */
  function Canon(t: string): string {
    if t in LatinToGreek then LatinToGreek[t] else t
  }

  function CanonAll(ts: seq<string>): (r: seq<string>)
    ensures |r| == |ts| && forall i :: 0 <= i < |ts| ==> r[i] == Canon(ts[i])
  {
    seq(|ts|, i requires 0 <= i < |ts| => Canon(ts[i]))
  }

  // ---------------------------------------------------------------------------
  // str_to_designation
  // ---------------------------------------------------------------------------

  function TitleAll(ws: seq<string>): (r: seq<string>)
    ensures |r| == |ws| && forall i :: 0 <= i < |ws| ==> r[i] == Title(ws[i])
  {
    seq(|ws|, i requires 0 <= i < |ws| => Title(ws[i]))
  }

  /** `[ENGLISH_TO_GREEK[w] for w in words if w in ENGLISH_TO_GREEK]` */
  function EnglishLetters(words: seq<string>): (r: seq<string>)
    ensures |r| <= |words|
    ensures |r| == |words| <==> forall i :: 0 <= i < |words| ==> words[i] in EnglishToGreek
    ensures |r| == |words| ==> forall i :: 0 <= i < |words| ==> r[i] == EnglishToGreek[words[i]]
  {
    if words == [] then []
    else
      var rest := EnglishLetters(words[1..]);
      if words[0] in EnglishToGreek then [EnglishToGreek[words[0]]] + rest else rest
  }

  datatype AffiliationError =
    | ValueError(message: string)
    | TypeError(message: string)

  /** Every word of `s`, title cased, names a letter in English. */
  predicate AllEnglish(s: string) {
    forall i :: 0 <= i < |Words(s)| ==> Title(Words(s)[i]) in EnglishToGreek
  }

  lemma AllEnglishLetters(s: string)
    ensures |EnglishLetters(TitleAll(Words(s)))| == |Words(s)| <==> AllEnglish(s)
  {
    var words := TitleAll(Words(s));
    if AllEnglish(s) {
      forall i | 0 <= i < |words| ensures words[i] in EnglishToGreek {
        assert words[i] == Title(Words(s)[i]);
      }
    }
    if |EnglishLetters(words)| == |words| {
      forall i | 0 <= i < |Words(s)| ensures Title(Words(s)[i]) in EnglishToGreek {
        assert words[i] in EnglishToGreek;
      }
    }
  }

  /**
   * `str_to_designation(s)`: a full chapter name when every word, title
   * cased, names a letter; otherwise a string of designation tokens, upper
   * cased with the Latin look-alikes replaced by Greek capitals; otherwise
   * `ValueError`.
   */
  function StrToDesignation(s: string): (r: Result<string, AffiliationError>)
    ensures r.Ok? <==> AllEnglish(s) || DesignationMatch(s)
  {
    var words := TitleAll(Words(s));
    var letters := EnglishLetters(words);
    AllEnglishLetters(s);
    if |letters| == |words| then Ok(Concat(letters))
    else if DesignationMatch(s) then Ok(Concat(CanonAll(FindAll(Upper(s)))))
    else Err(ValueError("expected a chapter name in one of the two forms"))
  }

  /** A designation made only of Greek capitals and "(A)", "(B)". */
  predicate CanonicalDesignation(d: string) {
    Tokenize(d).Some? && forall i :: 0 <= i < |Tokenize(d).value| ==> IsCanonicalToken(Tokenize(d).value[i])
  }

  /** Canonical tokens, concatenated, form a canonical designation. */
  lemma ConcatCanonical(ts: seq<string>)
    requires forall i :: 0 <= i < |ts| ==> IsCanonicalToken(ts[i])
    ensures CanonicalDesignation(Concat(ts)) && Tokenize(Concat(ts)) == Some(ts)
  {
    TokenizeComplete(ts, Concat(ts));
  }

  /** A chapter name in English letter names gives the concatenation of their Greek capitals. */
  lemma EnglishName(s: string)
    requires AllEnglish(s)
    ensures StrToDesignation(s) == Ok(Concat(seq(|Words(s)|, i requires 0 <= i < |Words(s)| =>
                                                  EnglishToGreek[Title(Words(s)[i])])))
  {
    var words := TitleAll(Words(s));
    var letters := EnglishLetters(words);
    assert letters == seq(|Words(s)|, i requires 0 <= i < |Words(s)| => EnglishToGreek[Title(Words(s)[i])]);
  }

  /** Whichever form the input takes, a designation is made of Greek capitals and "(A)", "(B)". */
  lemma DesignationIsCanonical(s: string)
    requires StrToDesignation(s).Ok?
    ensures CanonicalDesignation(StrToDesignation(s).value)
  {
    var words := TitleAll(Words(s));
    var letters := EnglishLetters(words);
    if |letters| == |words| {
      forall i | 0 <= i < |letters| ensures IsCanonicalToken(letters[i]) {
        EnglishTable(words[i]);
      }
      ConcatCanonical(letters);
    } else {
      var u := Upper(s);
      assert NoLowerCase(u);
      FindAllOfUpper(u);
      ConcatCanonical(CanonAll(FindAll(u)));
    }
  }

  /** The pieces of a canonical designation contain no whitespace and no small letter. */
  lemma {:induction false} CanonicalChars(ts: seq<string>)
    requires forall i :: 0 <= i < |ts| ==> IsCanonicalToken(ts[i])
    ensures var d := Concat(ts);
      NoSpace(d) && NoLowerCase(d) &&
      forall i :: 0 <= i < |d| ==> IsGreekUpper(d[i]) || d[i] in "()AB"
  {
    if ts != [] {
      CanonicalChars(ts[1..]);
      var d := Concat(ts);
      assert d == ts[0] + Concat(ts[1..]);
    }
  }

  /** A string without whitespace is a single word, or none when empty. */
  lemma {:induction false} WordsOfWord(w: string)
    requires NoSpace(w)
    ensures Words(w) == if w == "" then [] else [w]
  {
    if w != "" {
      assert TakeWord(w) == w;
      assert w[|w|..] == "";
    }
  }

  /** "(A)" and "(B)" are already in title case. */
  lemma TitleOfParenthesised()
    ensures Title("(A)") == "(A)" && Title("(B)") == "(B)"
  {
    assert TitleFrom("(A)", false) == ['('] + TitleFrom("A)", false);
    assert TitleFrom("A)", false) == ['A'] + TitleFrom(")", true);
    assert TitleFrom("(B)", false) == ['('] + TitleFrom("B)", false);
    assert TitleFrom("B)", false) == ['B'] + TitleFrom(")", true);
  }

  /** A canonical designation names a letter in English only when it is "(A)" or "(B)". */
  lemma CanonicalNotEnglish(d: string)
    requires CanonicalDesignation(d) && d != ""
    requires Title(d) in EnglishToGreek
    ensures d == "(A)" || d == "(B)"
  {
    var ts := Tokenize(d).value;
    var t := ts[0];
    assert IsCanonicalToken(t);
    assert StartsWith(d, t);
    assert d[0] == t[0];
    assert Title(d)[0] == d[0];
    EnglishTable(Title(d));
    assert d[0] == '(';
    assert |t| == 3;
    assert |d| == 3;
    assert d == t;
  }

  /** A canonical designation read as an English chapter name is "(A)" or "(B)" and stays so. */
  lemma CanonicalFixedEnglish(d: string)
    requires CanonicalDesignation(d) && NoSpace(d)
    requires |EnglishLetters(TitleAll(Words(d)))| == |Words(d)|
    ensures StrToDesignation(d) == Ok(d)
  {
    WordsOfWord(d);
    if d != "" {
      assert TitleAll(Words(d)) == [Title(d)];
      CanonicalNotEnglish(d);
      TitleOfParenthesised();
      assert EnglishLetters([d]) == [d];
      assert Concat([d]) == d + Concat([]);
    }
  }

  /** The Latin table leaves a canonical token as it is. */
  lemma CanonOfCanonical(t: string)
    requires IsCanonicalToken(t)
    ensures Canon(t) == t
  {
    if t in LatinToGreek {
      LatinTable(t);
    }
  }

  /** A canonical designation read as tokens gives its own tokens back. */
  lemma CanonicalFixedTokens(d: string)
    requires CanonicalDesignation(d) && d != "" && NoLowerCase(d)
    requires |EnglishLetters(TitleAll(Words(d)))| != |Words(d)|
    ensures StrToDesignation(d) == Ok(d)
  {
    var ts := Tokenize(d).value;
    assert Upper(d) == d;
    FindAllOfTokens(d);
    assert CanonAll(ts) == ts by {
      forall i | 0 <= i < |ts| ensures Canon(ts[i]) == ts[i] {
        CanonOfCanonical(ts[i]);
      }
    }
    assert DesignationMatch(d);
  }

  /** A canonical designation is its own designation: normalising twice changes nothing. */
  lemma CanonicalFixed(d: string)
    requires CanonicalDesignation(d)
    ensures StrToDesignation(d) == Ok(d)
  {
    CanonicalChars(Tokenize(d).value);
    if |EnglishLetters(TitleAll(Words(d)))| == |Words(d)| {
      CanonicalFixedEnglish(d);
    } else {
      WordsOfWord(d);
      CanonicalFixedTokens(d);
    }
  }

  /** Normalising is idempotent. */
  lemma DesignationIdempotent(s: string)
    requires StrToDesignation(s).Ok?
    ensures StrToDesignation(StrToDesignation(s).value) == StrToDesignation(s)
  {
    DesignationIsCanonical(s);
    CanonicalFixed(StrToDesignation(s).value);
  }

  // ---------------------------------------------------------------------------
  // "<chapter_id> <badge>"
  // ---------------------------------------------------------------------------

  /** Where the maximal run of whitespace starting at `n` ends. */
  function SpaceEnd(s: string, n: nat): (e: nat)
    requires n <= |s|
    ensures n <= e <= |s|
    ensures forall i :: n <= i < e ==> IsSpace(s[i])
    ensures e < |s| ==> !IsSpace(s[e])
    decreases |s| - n
  {
    if n < |s| && IsSpace(s[n]) then SpaceEnd(s, n + 1) else n
  }

  /**
   * `(?P<chapter_id>.*)\s+(?P<badge>\d+)` can put the end of the chapter at
   * `n`: no newline before it (`.` does not match one), whitespace from
   * there on, and a digit right after that whitespace.
   */
  predicate SplitsAt(s: string, n: nat) {
    n < |s| && '\n' !in s[..n] && IsSpace(s[n]) &&
    SpaceEnd(s, n) < |s| && IsDigit(s[SpaceEnd(s, n)])
  }

  /** The greatest split point at or below `n`, as the greedy `.*` backtracks from the end. */
  function LastSplit(s: string, n: nat): (r: Option<nat>)
    ensures r.Some? ==> r.value <= n && SplitsAt(s, r.value)
    ensures r.Some? ==> forall m :: r.value < m <= n ==> !SplitsAt(s, m)
    ensures r.None? ==> forall m: nat :: m <= n ==> !SplitsAt(s, m)
  {
    if SplitsAt(s, n) then Some(n)
    else if n == 0 then None
    else LastSplit(s, n - 1)
  }

  /** `AFFILIATION_MATCHER.match(s)`: the chapter id and the digits of the badge. */
  function MatchAffiliation(s: string): (r: Option<(string, string)>)
    ensures r.None? ==> forall n: nat :: !SplitsAt(s, n)
    ensures r.Some? ==> var n := |r.value.0|;
      SplitsAt(s, n) && r.value.0 == s[..n] && (forall m :: n < m ==> !SplitsAt(s, m)) &&
      r.value.1 == LeadingDigits(s[SpaceEnd(s, n)..]) && |r.value.1| >= 1
  {
    if |s| == 0 then None
    else match LastSplit(s, |s| - 1)
      case None =>
        NoSplit(s);
        None
      case Some(n) =>
        LastSplitIsLast(s, n);
        Some((s[..n], LeadingDigits(s[SpaceEnd(s, n)..])))
  }

  /** When no position up to the last one splits, none does. */
  lemma NoSplit(s: string)
    requires |s| > 0 && LastSplit(s, |s| - 1).None?
    ensures forall m: nat :: !SplitsAt(s, m)
  {
    forall m: nat ensures !SplitsAt(s, m) {
      if m < |s| {
        assert m <= |s| - 1;
      }
    }
  }

  /** The split found from the end is the last one in the whole string, and digits follow it. */
  lemma LastSplitIsLast(s: string, n: nat)
    requires |s| > 0 && LastSplit(s, |s| - 1) == Some(n)
    ensures SplitsAt(s, n) && n < |s|
    ensures forall m :: n < m ==> !SplitsAt(s, m)
    ensures |LeadingDigits(s[SpaceEnd(s, n)..])| >= 1
  {
    forall m | n < m ensures !SplitsAt(s, m) {
      if m < |s| {
        assert m <= |s| - 1;
      }
    }
    assert s[SpaceEnd(s, n)..][0] == s[SpaceEnd(s, n)];
  }

  // ---------------------------------------------------------------------------
  // The affiliation
  // ---------------------------------------------------------------------------

  datatype Affiliation = Affiliation(designation: string, badge: int)

  /** The arguments of `Affiliation(*args)`, as far as its type tests can tell them apart. */
  datatype AffiliationArgs =
    | FromString(s: string)
    | FromPair(designation: string, badge: int)
    | OtherArgs

  /**
   * `Affiliation(*args)`: a string is stripped, split into chapter and badge
   * and normalised; a (str, int) pair is kept as given; anything else is a
   * `TypeError`.
   */
  function Construct(args: AffiliationArgs): (r: Result<Affiliation, AffiliationError>)
    ensures args.FromPair? ==> r == Ok(Affiliation(args.designation, args.badge))
    ensures args.OtherArgs? ==> r.Err? && r.error.TypeError?
    ensures args.FromString? && MatchAffiliation(Strip(args.s)).None? ==> r.Err? && r.error.ValueError?
    ensures args.FromString? && r.Ok? ==> r.value.badge >= 0 && CanonicalDesignation(r.value.designation)
  {
    match args
    case FromString(s) =>
      (match MatchAffiliation(Strip(s))
       case None => Err(ValueError("expected a chapter name followed by a badge number"))
       case Some((chapter, digits)) =>
         var designation :- StrToDesignation(chapter);
         DesignationIsCanonical(chapter);
         Ok(Affiliation(designation, ParseDigits(digits))))
    case FromPair(d, b) => Ok(Affiliation(d, b))
    case OtherArgs => Err(TypeError("expected *(str,) or *(str, int)"))
  }

  /** A parsed badge drops its leading zeros: printing it gives the digits without them. */
  lemma BadgeDropsLeadingZeros(s: string)
    requires MatchAffiliation(Strip(s)).Some?
    requires Construct(FromString(s)).Ok?
    ensures var digits := MatchAffiliation(Strip(s)).value.1;
      NatToString(Construct(FromString(s)).value.badge) == StripLeadingZeros(digits)
  {
    var (chapter, digits) := MatchAffiliation(Strip(s)).value;
    ConstructMatched(s, chapter, digits);
    PrintParsedDigits(digits);
  }

  /** `str(affiliation)`: "<designation> <badge>". */
  function ToString(a: Affiliation): string {
    a.designation + " " + IntToString(a.badge)
  }

  /**
   * The position just after a designation without whitespace, one whitespace
   * character c and a badge's digits splits them, and no later one does.
   */
  lemma SplitOfPrinted(d: string, c: char, digits: string)
    requires NoSpace(d) && '\n' !in d && IsSpace(c) && CanonicalDigits(digits)
    ensures var s := d + [c] + digits;
      SplitsAt(s, |d|) && forall m :: |d| < m ==> !SplitsAt(s, m)
  {
    var s := d + [c] + digits;
    assert s[|d|] == c && s[..|d|] == d;
    PrintedSpaceEnd(d, c, digits);
    forall m | |d| < m ensures !SplitsAt(s, m) {
      if m < |s| {
        assert s[m] == digits[m - |d| - 1];
      }
    }
  }

  /** Stripping a string with no whitespace at either end changes nothing. */
  lemma StripUnchanged(s: string)
    requires |s| > 0 && !IsSpace(s[0]) && !IsSpace(s[|s| - 1])
    ensures Strip(s) == s
  {
  }

  /** The whitespace run after the designation in "<designation><c><digits>" is c alone. */
  lemma PrintedSpaceEnd(d: string, c: char, digits: string)
    requires IsSpace(c) && CanonicalDigits(digits)
    ensures SpaceEnd(d + [c] + digits, |d|) == |d| + 1
  {
    var s := d + [c] + digits;
    assert s[|d|] == c && s[|d| + 1] == digits[0];
    assert SpaceEnd(s, |d| + 1) == |d| + 1;
  }

  /** The pieces of "<designation><c><digits>" around its one whitespace character. */
  lemma PrintedPieces(d: string, c: char, digits: string)
    requires IsSpace(c) && CanonicalDigits(digits)
    ensures var s := d + [c] + digits;
      s[..|d|] == d && SpaceEnd(s, |d|) == |d| + 1 && s[|d| + 1..] == digits
  {
    PrintedSpaceEnd(d, c, digits);
    var s := d + [c] + digits;
    assert s[|d| + 1..] == digits;
  }

  /**
   * A designation without whitespace, any one whitespace character (the space
   * `str` prints, or another that `\s` matches) and digits split into exactly
   * that designation and those digits.
   */
  lemma MatchPrinted(d: string, c: char, digits: string)
    requires NoSpace(d) && '\n' !in d && IsSpace(c) && CanonicalDigits(digits)
    ensures MatchAffiliation(d + [c] + digits) == Some((d, digits))
  {
    var s := d + [c] + digits;
    SplitOfPrinted(d, c, digits);
    var m := MatchAffiliation(s);
    var n := |m.value.0|;
    assert n == |d| by {
      assert SplitsAt(s, n);
      assert !(n > |d|);
      assert !(n < |d|);
    }
    PrintedPieces(d, c, digits);
    LeadingDigitsOfDigitsThen(digits, "");
    assert digits + "" == digits;
  }

  /** A canonical designation has no whitespace, hence no newline. */
  lemma CanonicalNoSpace(d: string)
    requires CanonicalDesignation(d)
    ensures NoSpace(d) && '\n' !in d
  {
    CanonicalChars(Tokenize(d).value);
    assert forall i :: 0 <= i < |d| ==> d[i] != '\n';
  }

  /**
   * Printing an affiliation with a non-empty canonical designation and a
   * badge that is not negative, then parsing the text, gives it back.
   */
  lemma PrintParse(a: Affiliation)
    requires CanonicalDesignation(a.designation) && a.designation != "" && a.badge >= 0
    ensures Construct(FromString(ToString(a))) == Ok(a)
  {
    var d := a.designation;
    var digits := NatToString(a.badge);
    var s := d + " " + digits;
    assert ToString(a) == s;
    CanonicalNoSpace(d);
    StripUnchanged(s);
    MatchPrinted(d, ' ', digits);
    CanonicalFixed(d);
    ParseNatToString(a.badge);
    ConstructMatched(s, d, digits);
  }

  /**
   * A string that splits into a chapter and digits builds an affiliation
   * exactly when the chapter normalises, and then it is the chapter's
   * designation with the digits' value.
   */
  lemma ConstructMatched(s: string, chapter: string, digits: string)
    requires MatchAffiliation(Strip(s)) == Some((chapter, digits))
    ensures Construct(FromString(s)).Ok? <==> StrToDesignation(chapter).Ok?
    ensures Construct(FromString(s)).Ok? ==>
      Construct(FromString(s)).value == Affiliation(StrToDesignation(chapter).value, ParseDigits(digits))
  {
    var r := StrToDesignation(chapter);
    if r.Ok? {
      assert Construct(FromString(s)) == Ok(Affiliation(r.value, ParseDigits(digits)));
    } else {
      assert Construct(FromString(s)) == Err(r.error);
    }
  }

  /** Two words without whitespace around one whitespace character are split into those two words. */
  lemma WordsOfTwo(a: string, c: char, b: string)
    requires |a| > 0 && NoSpace(a) && IsSpace(c) && |b| > 0 && NoSpace(b)
    ensures Words(a + [c] + b) == [a, b]
  {
    var s := a + [c] + b;
    TakeWordThen(a, [c] + b);
    assert s == a + ([c] + b);
    assert s[|a|..] == [c] + b;
    assert ([c] + b)[1..] == b;
    WordsOfWord(b);
  }

  /** The run of non-whitespace at the front of a + b is a, when b starts with whitespace or is empty. */
  lemma {:induction false} TakeWordThen(a: string, b: string)
    requires NoSpace(a) && (|b| > 0 ==> IsSpace(b[0]))
    ensures TakeWord(a + b) == a
  {
    if |a| > 0 {
      assert (a + b)[1..] == a[1..] + b;
      TakeWordThen(a[1..], b);
    }
  }

  /** The ASCII unit separator U+001F is whitespace to `split()`: it separates the words of a chapter name. */
  lemma UnitSeparatorSplitsWords()
    ensures Words("Delta\U{001F}Alpha") == ["Delta", "Alpha"]
  {
    assert "Delta\U{001F}Alpha" == "Delta" + ['\U{001F}'] + "Alpha";
    WordsOfTwo("Delta", '\U{001F}', "Alpha");
  }

  /** The ASCII unit separator U+001F is whitespace to `\s`: it separates a chapter from its badge. */
  lemma UnitSeparatorSplitsBadge()
    ensures MatchAffiliation("ΔΑ\U{001F}5") == Some(("ΔΑ", "5"))
  {
    assert "ΔΑ\U{001F}5" == "ΔΑ" + ['\U{001F}'] + "5";
    MatchPrinted("ΔΑ", '\U{001F}', "5");
  }

  // ---------------------------------------------------------------------------
  // The primary chapter and the order
  // ---------------------------------------------------------------------------

  /** `set_primary_chapter(designation)`: the designation is normalised first. */
  function SetPrimaryChapter(chapter: string): (r: Result<string, AffiliationError>)
    ensures r.Ok? ==> CanonicalDesignation(r.value)
    ensures r == StrToDesignation(chapter)
  {
    var r := StrToDesignation(chapter);
    if r.Ok? then DesignationIsCanonical(chapter); r else r
  }

  /** The primary chapter set when the module is loaded, from "ΔA" (with a Latin A). */
  const DefaultPrimaryInput: string := "ΔA"

  /** "ΔA" is a single word whose title case "Δa" names no letter. */
  lemma DefaultNotEnglish()
    ensures TitleAll(Words(DefaultPrimaryInput)) == ["Δa"]
    ensures EnglishLetters(["Δa"]) == []
  {
    var s := DefaultPrimaryInput;
    assert s == ['Δ', 'A'];
    WordsOfWord(s);
    assert Title(s) == "Δa" by {
      assert TitleFrom(s, false) == [UpperAscii('Δ')] + TitleFrom(s[1..], true);
      assert s[1..] == "A";
      assert TitleFrom("A", true) == [LowerAscii('A')] + TitleFrom("", IsCased('A'));
    }
    assert "Δa" !in EnglishToGreek;
  }

  /** "ΔA" is the tokens "Δ" and "A", and it is already upper case. */
  lemma DefaultTokens()
    ensures Tokenize(DefaultPrimaryInput) == Some(["Δ", "A"])
    ensures FindAll(Upper(DefaultPrimaryInput)) == ["Δ", "A"]
  {
    var s := DefaultPrimaryInput;
    assert Splits(["Δ", "A"], s) by {
      assert Concat(["Δ", "A"]) == "Δ" + Concat(["A"]);
      assert Concat(["A"]) == "A" + Concat([]);
      assert IsToken("A") by { assert 'A' in LatinLookalikes; }
    }
    TokenizeComplete(["Δ", "A"], s);
    assert Upper(s) == s;
    FindAllOfTokens(s);
  }

  /** The Latin "A" becomes a Greek Alpha. */
  lemma DefaultCanon()
    ensures Concat(CanonAll(["Δ", "A"])) == "ΔΑ"
  {
    assert Canon("Δ") == "Δ";
    assert Canon("A") == "Α" by { assert LatinToGreek["A"] == "Α"; }
    var c := CanonAll(["Δ", "A"]);
    assert |c| == 2 && c[0] == "Δ" && c[1] == "Α";
    assert c == ["Δ", "Α"];
    assert Concat(["Δ", "Α"]) == "Δ" + Concat(["Α"]);
    assert Concat(["Α"]) == "Α" + Concat([]);
  }

  /** The default primary chapter is Delta followed by a Greek capital Alpha. */
  lemma DefaultPrimary()
    ensures SetPrimaryChapter(DefaultPrimaryInput) == Ok("ΔΑ")
  {
    var s := DefaultPrimaryInput;
    DefaultNotEnglish();
    DefaultTokens();
    DefaultCanon();
    assert DesignationMatch(s);
    assert StrToDesignation(s) == Ok(Concat(CanonAll(FindAll(Upper(s)))));
  }

  /** `with_primary(badge)`: an affiliation to the primary chapter, by the pair form. */
  function WithPrimary(primary: string, badge: int): (a: Affiliation)
    ensures a.designation == primary && a.badge == badge
    ensures Construct(FromPair(primary, badge)) == Ok(a)
  {
    Affiliation(primary, badge)
  }

  /** `a < b`: by (designation is not the primary chapter, designation, badge). */
  predicate Less(primary: string, a: Affiliation, b: Affiliation) {
    var ka := a.designation != primary;
    var kb := b.designation != primary;
    (!ka && kb) ||
    (ka == kb && (StrLess(a.designation, b.designation) ||
                  (a.designation == b.designation && a.badge < b.badge)))
  }

  /** An affiliation to the primary chapter sorts before every other chapter's. */
  lemma PrimaryFirst(primary: string, a: Affiliation, b: Affiliation)
    requires a.designation == primary && b.designation != primary
    ensures Less(primary, a, b) && !Less(primary, b, a)
  {
  }

  lemma LessIrreflexive(primary: string, a: Affiliation)
    ensures !Less(primary, a, a)
  {
    StrLessIrreflexive(a.designation);
  }

  lemma LessTransitive(primary: string, a: Affiliation, b: Affiliation, c: Affiliation)
    requires Less(primary, a, b) && Less(primary, b, c)
    ensures Less(primary, a, c)
  {
    if StrLess(a.designation, b.designation) && StrLess(b.designation, c.designation) {
      StrLessTransitive(a.designation, b.designation, c.designation);
    }
  }

  /** Two different affiliations are always ordered one way or the other. */
  lemma LessTotal(primary: string, a: Affiliation, b: Affiliation)
    requires a != b
    ensures Less(primary, a, b) || Less(primary, b, a)
  {
    StrLessTotal(a.designation, b.designation);
  }

  lemma LessAsymmetric(primary: string, a: Affiliation, b: Affiliation)
    requires Less(primary, a, b)
    ensures !Less(primary, b, a)
  {
    if Less(primary, b, a) {
      LessTransitive(primary, a, b, a);
      LessIrreflexive(primary, a);
    }
  }
}
