/**
 * Text primitives shared by the model: Python's string ordering (code point
 * lexicographic order), `sorted` on strings, decimal formatting and parsing of
 * integers (`str(n)`, `int(digits)`), ASCII whitespace (`str.strip`,
 * `str.split()`), `str.split(' ')` and `sep.join(...)`.
 */
module Text {

  // ---------------------------------------------------------------------------
  // Python's `<` on str: lexicographic by code point, a proper prefix first
  // ---------------------------------------------------------------------------

  predicate StrLess(a: string, b: string)
    decreases |a|
  {
    if |a| == 0 then |b| > 0
    else if |b| == 0 then false
    else if a[0] != b[0] then a[0] < b[0]
    else StrLess(a[1..], b[1..])
  }

  predicate StrLessEq(a: string, b: string) {
    a == b || StrLess(a, b)
  }

  lemma {:induction false} StrLessIrreflexive(a: string)
    ensures !StrLess(a, a)
    decreases |a|
  {
    if |a| > 0 {
      StrLessIrreflexive(a[1..]);
    }
  }

  lemma {:induction false} StrLessTransitive(a: string, b: string, c: string)
    requires StrLess(a, b) && StrLess(b, c)
    ensures StrLess(a, c)
    decreases |a|
  {
    if |a| > 0 && |b| > 0 && |c| > 0 && a[0] == b[0] && b[0] == c[0] {
      StrLessTransitive(a[1..], b[1..], c[1..]);
    }
  }

  lemma {:induction false} StrLessTotal(a: string, b: string)
    ensures a == b || StrLess(a, b) || StrLess(b, a)
    decreases |a|
  {
    if |a| > 0 && |b| > 0 && a[0] == b[0] {
      StrLessTotal(a[1..], b[1..]);
      if a[1..] == b[1..] {
        assert a == [a[0]] + a[1..] && b == [b[0]] + b[1..];
      }
    }
  }

  lemma {:induction false} StrLessAsymmetric(a: string, b: string)
    requires StrLess(a, b)
    ensures !StrLess(b, a) && a != b
  {
    StrLessIrreflexive(a);
    if StrLess(b, a) {
      StrLessTransitive(a, b, a);
    }
  }

  lemma StrLessEqTransitive(a: string, b: string, c: string)
    requires StrLessEq(a, b) && StrLessEq(b, c)
    ensures StrLessEq(a, c)
  {
    if a != b && b != c {
      StrLessTransitive(a, b, c);
    }
  }

  /** A string sorts after every proper prefix of it. */
  lemma {:induction false} PrefixSortsFirst(a: string, rest: string)
    requires |rest| > 0
    ensures StrLess(a, a + rest)
    decreases |a|
  {
    if |a| > 0 {
      assert (a + rest)[1..] == a[1..] + rest;
      PrefixSortsFirst(a[1..], rest);
    }
  }

  // ---------------------------------------------------------------------------
  // sorted(...) on a list of strings
  // ---------------------------------------------------------------------------

  predicate Sorted(s: seq<string>) {
    forall i, j :: 0 <= i < j < |s| ==> StrLessEq(s[i], s[j])
  }

  /** Strictly increasing: sorted and without repetitions. */
  predicate StrictlySorted(s: seq<string>) {
    forall i, j :: 0 <= i < j < |s| ==> StrLess(s[i], s[j])
  }

  predicate Distinct<T(==)>(s: seq<T>) {
    forall i, j :: 0 <= i < j < |s| ==> s[i] != s[j]
  }

  function Insert(x: string, s: seq<string>): (r: seq<string>)
    requires Sorted(s)
    ensures multiset(r) == multiset(s) + multiset{x}
    ensures Sorted(r)
  {
    if s == [] then [x]
    else if StrLessEq(x, s[0]) then
      InsertInFront(x, s);
      [x] + s
    else
      StrLessTotal(x, s[0]);
      var tail := Insert(x, s[1..]);
      assert s == [s[0]] + s[1..];
      InsertBehind(s[0], x, s[1..], tail);
      [s[0]] + tail
  }

  /** An element no greater than the head of a sorted list can go in front of it. */
  lemma InsertInFront(x: string, s: seq<string>)
    requires Sorted(s) && s != [] && StrLessEq(x, s[0])
    ensures Sorted([x] + s)
  {
    forall j | 0 <= j < |s| ensures StrLessEq(x, s[j]) {
      StrLessEqTransitive(x, s[0], s[j]);
    }
  }

  /**
   * A head no greater than x nor than any of the rest stays in front of the
   * rest with x inserted.
   */
  lemma InsertBehind(h: string, x: string, rest: seq<string>, tail: seq<string>)
    requires Sorted([h] + rest) && StrLessEq(h, x)
    requires multiset(tail) == multiset(rest) + multiset{x} && Sorted(tail)
    ensures Sorted([h] + tail)
  {
    var s := [h] + rest;
    forall j | 0 <= j < |tail| ensures StrLessEq(h, tail[j]) {
      var y := tail[j];
      assert y in multiset(tail);
      if y != x {
        assert y in multiset(rest);
        var k :| 0 <= k < |rest| && rest[k] == y;
        assert s[0] == h && s[k + 1] == y;
      }
    }
    var r := [h] + tail;
    forall i, j | 0 <= i < j < |r| ensures StrLessEq(r[i], r[j]) {
      if i > 0 {
        assert r[i] == tail[i - 1] && r[j] == tail[j - 1];
      }
    }
  }

  /** Python's `sorted(xs)` for a list of strings (insertion sort). */
  function SortStrings(s: seq<string>): (r: seq<string>)
    ensures multiset(r) == multiset(s)
    ensures Sorted(r)
  {
    if s == [] then []
    else
      assert s == s[..|s| - 1] + [s[|s| - 1]];
      Insert(s[|s| - 1], SortStrings(s[..|s| - 1]))
  }

  /** `sorted(S)` for a set of strings: its elements in increasing order. */
  ghost function SortedSet(S: set<string>): (r: seq<string>)
    ensures StrictlySorted(r) && |r| == |S|
    ensures forall x :: x in r <==> x in S
    decreases |S|
  {
    if S == {} then []
    else
      var x :| x in S;
      var rest := SortedSet(S - {x});
      assert |S - {x}| == |S| - 1;
      InsertFresh(x, rest);
      Insert(x, rest)
  }

  /** r is the least element of S under Python's string order. */
  ghost predicate IsLeast(r: string, S: set<string>) {
    r in S && forall j :: j in S ==> StrLessEq(r, j)
  }

  /** `min(S)` exists for a nonempty set of strings. */
  lemma LeastExists(S: set<string>)
    requires S != {}
    ensures exists r :: IsLeast(r, S)
  {
    var s := SortedSet(S);
    assert s[0] in S;
    forall j | j in S ensures StrLessEq(s[0], j) {
      var i :| 0 <= i < |s| && s[i] == j;
    }
    assert IsLeast(s[0], S);
  }

  /** The least element is unique. */
  lemma LeastUnique(a: string, b: string, S: set<string>)
    requires IsLeast(a, S) && IsLeast(b, S)
    ensures a == b
  {
    if a != b {
      StrLessAsymmetric(a, b);
    }
  }

  /** A new element in front of a strictly sorted list gives a list without repetitions. */
  lemma FreshConsDistinct(x: string, s: seq<string>)
    requires StrictlySorted(s) && x !in s
    ensures Distinct([x] + s)
  {
    var t := [x] + s;
    forall i, j | 0 <= i < j < |t| ensures t[i] != t[j] {
      if i > 0 {
        StrLessAsymmetric(s[i - 1], s[j - 1]);
      }
    }
  }

  /** A sorted list without repetitions is strictly sorted. */
  lemma SortedDistinctStrict(s: seq<string>)
    requires Sorted(s) && Distinct(s)
    ensures StrictlySorted(s)
  {
  }

  /** Inserting a new element into a strictly sorted list keeps it strictly sorted. */
  lemma InsertFresh(x: string, s: seq<string>)
    requires StrictlySorted(s) && x !in s
    ensures Sorted(s)
    ensures StrictlySorted(Insert(x, s)) && |Insert(x, s)| == |s| + 1
    ensures forall y :: y in Insert(x, s) <==> y == x || y in s
  {
    assert Sorted(s);
    var r := Insert(x, s);
    var t := [x] + s;
    assert multiset(t) == multiset(r);
    assert |r| == |multiset(r)| == |multiset(t)| == |t|;
    FreshConsDistinct(x, s);
    DistinctByMultiset(t, r);
    SortedDistinctStrict(r);
    forall y ensures y in r <==> y == x || y in s {
      assert y in r <==> y in multiset(t);
    }
  }

  /** Sorting is deterministic: two sorted arrangements of one multiset are equal. */
  lemma {:induction false} SortedUnique(a: seq<string>, b: seq<string>)
    requires Sorted(a) && Sorted(b) && multiset(a) == multiset(b)
    ensures a == b
    decreases |a|
  {
    assert |a| == |multiset(a)| && |b| == |multiset(b)|;
    if |a| > 0 {
      SortedHeadsEqual(a, b);
      TailMultiset(a);
      TailMultiset(b);
      assert Sorted(a[1..]) && Sorted(b[1..]);
      SortedUnique(a[1..], b[1..]);
    }
  }

  /** Two sorted arrangements of one multiset start with the same element. */
  lemma SortedHeadsEqual(a: seq<string>, b: seq<string>)
    requires Sorted(a) && Sorted(b) && multiset(a) == multiset(b) && |a| > 0
    ensures |b| > 0 && a[0] == b[0]
  {
    assert a[0] in multiset(b);
    assert |b| > 0;
    assert b[0] in multiset(a);
    var j :| 0 <= j < |b| && b[j] == a[0];
    var i :| 0 <= i < |a| && a[i] == b[0];
    assert StrLessEq(b[0], a[0]) && StrLessEq(a[0], b[0]);
    if a[0] != b[0] {
      StrLessAsymmetric(a[0], b[0]);
    }
  }

  lemma TailMultiset<T>(s: seq<T>)
    requires |s| > 0
    ensures multiset(s[1..]) == multiset(s) - multiset{s[0]}
  {
    assert s == [s[0]] + s[1..];
  }

  lemma StrictlySortedDistinct(s: seq<string>)
    requires StrictlySorted(s)
    ensures Distinct(s)
  {
    forall i, j | 0 <= i < j < |s| ensures s[i] != s[j] {
      StrLessAsymmetric(s[i], s[j]);
    }
  }

  lemma SortedDistinctIsStrict(s: seq<string>)
    requires Sorted(s) && Distinct(s)
    ensures StrictlySorted(s)
  {
  }

  lemma DistinctByMultiset<T>(a: seq<T>, b: seq<T>)
    requires multiset(a) == multiset(b) && Distinct(a)
    ensures Distinct(b)
  {
    forall i, j | 0 <= i < j < |b| ensures b[i] != b[j] {
      if b[i] == b[j] {
        var x := b[i];
        assert multiset(b)[x] >= 2 by {
          assert b == b[..i] + [b[i]] + b[i + 1..j] + [b[j]] + b[j + 1..];
        }
        DistinctCountAtMostOne(a, x);
      }
    }
  }

  lemma {:induction false} DistinctCountAtMostOne<T>(a: seq<T>, x: T)
    requires Distinct(a)
    ensures multiset(a)[x] <= 1
    decreases |a|
  {
    if |a| > 0 {
      assert a == [a[0]] + a[1..];
      DistinctCountAtMostOne(a[1..], x);
      if a[0] == x {
        assert x !in a[1..];
      }
    }
  }

  // ---------------------------------------------------------------------------
  // Decimal digits: str(n) and int(digits)
  // ---------------------------------------------------------------------------

  predicate IsDigit(c: char) { '0' <= c <= '9' }

  predicate AllDigits(s: string) { forall i :: 0 <= i < |s| ==> IsDigit(s[i]) }

  function DigitValue(c: char): (d: nat)
    requires IsDigit(c)
    ensures d < 10
  {
    (c as int - '0' as int) as nat
  }

  function DigitChar(d: nat): (c: char)
    requires d < 10
    ensures IsDigit(c) && DigitValue(c) == d
  {
    ('0' as int + d) as char
  }

  /** `str(n)` for a natural number. */
  function NatToString(n: nat): (s: string)
    ensures |s| >= 1 && AllDigits(s)
    ensures s[0] == '0' ==> n == 0 && s == "0"
  {
    if n < 10 then [DigitChar(n)]
    else NatToString(n / 10) + [DigitChar(n % 10)]
  }

  /** `str(i)` for an integer: a minus sign, then the digits of |i|. */
  function IntToString(i: int): string {
    if i < 0 then "-" + NatToString(-i) else NatToString(i)
  }

  /** `int(digits)` for a non-empty run of decimal digits. */
  function ParseDigits(s: string): nat
    requires AllDigits(s)
  {
    if |s| == 0 then 0
    else 10 * ParseDigits(s[..|s| - 1]) + DigitValue(s[|s| - 1])
  }

  /** Digits as `str` prints them: no leading zero except for "0" itself. */
  predicate CanonicalDigits(s: string) {
    |s| >= 1 && AllDigits(s) && (s[0] == '0' ==> |s| == 1)
  }

  lemma {:induction false} ParseNatToString(n: nat)
    ensures ParseDigits(NatToString(n)) == n
  {
    if n >= 10 {
      var s := NatToString(n);
      assert s[..|s| - 1] == NatToString(n / 10);
      ParseNatToString(n / 10);
    }
  }

  lemma {:induction false} ParsePositive(s: string)
    requires |s| >= 1 && AllDigits(s) && s[0] != '0'
    ensures ParseDigits(s) >= 1
    decreases |s|
  {
    if |s| > 1 {
      ParsePositive(s[..|s| - 1]);
    }
  }

  lemma {:induction false} NatToStringParse(s: string)
    requires CanonicalDigits(s)
    ensures NatToString(ParseDigits(s)) == s
    decreases |s|
  {
    if |s| > 1 {
      var p := s[..|s| - 1];
      ParsePositive(p);
      NatToStringParse(p);
      var n := ParseDigits(s);
      assert n / 10 == ParseDigits(p) && n % 10 == DigitValue(s[|s| - 1]);
      assert s == p + [s[|s| - 1]];
    }
  }

  /** The leading zeros dropped from a run of digits ("0" stays "0"). */
  function StripLeadingZeros(s: string): (r: string)
    requires |s| >= 1 && AllDigits(s)
    ensures CanonicalDigits(r) && ParseDigits(r) == ParseDigits(s)
  {
    if |s| > 1 && s[0] == '0' then
      ParseLeadingZero(s);
      StripLeadingZeros(s[1..])
    else s
  }

  lemma {:induction false} ParseLeadingZero(s: string)
    requires |s| >= 1 && AllDigits(s) && s[0] == '0'
    ensures ParseDigits(s) == ParseDigits(s[1..])
    decreases |s|
  {
    if |s| > 1 {
      ParseLeadingZero(s[..|s| - 1]);
      assert s[..|s| - 1][1..] == s[1..][..|s[1..]| - 1];
    }
  }

  /** Printing a parsed run of digits drops its leading zeros and nothing else. */
  lemma PrintParsedDigits(s: string)
    requires |s| >= 1 && AllDigits(s)
    ensures NatToString(ParseDigits(s)) == StripLeadingZeros(s)
  {
    NatToStringParse(StripLeadingZeros(s));
  }

  /** The maximal run of digits at the start of `s` (the match of `\d+`, when non-empty). */
  function LeadingDigits(s: string): (r: string)
    ensures |r| <= |s| && r == s[..|r|] && AllDigits(r)
    ensures |r| < |s| ==> !IsDigit(s[|r|])
  {
    if |s| > 0 && IsDigit(s[0]) then [s[0]] + LeadingDigits(s[1..]) else ""
  }

  lemma LeadingDigitsOfDigitsThen(d: string, rest: string)
    requires AllDigits(d)
    requires |rest| > 0 ==> !IsDigit(rest[0])
    ensures LeadingDigits(d + rest) == d
  {
    if |d| > 0 {
      assert (d + rest)[1..] == d[1..] + rest;
      LeadingDigitsOfDigitsThen(d[1..], rest);
    }
  }

  // ---------------------------------------------------------------------------
  // Whitespace, strip, split and join
  // ---------------------------------------------------------------------------

  /**
   * `str.isspace()` for one character: Python's Unicode whitespace, which
   * `str.strip()`, `str.split()` and the `\s` of a `str` pattern all use. It
   * includes the ASCII separators U+001C..U+001F.
   */
  predicate IsSpace(c: char) {
    ('\t' <= c <= '\r') || ('\U{001C}' <= c <= ' ') ||
    c == '\U{0085}' || c == '\U{00A0}' || c == '\U{1680}' || ('\U{2000}' <= c <= '\U{200A}') ||
    c == '\U{2028}' || c == '\U{2029}' || c == '\U{202F}' || c == '\U{205F}' || c == '\U{3000}'
  }

  /**
   * The whitespace `int()` skips around a number: `int` turns non-ASCII
   * whitespace into spaces and then skips ASCII whitespace only, so the
   * separators U+001C..U+001F are not skipped.
   */
  predicate IsIntSpace(c: char) {
    IsSpace(c) && !('\U{001C}' <= c <= '\U{001F}')
  }

  function StripLeft(s: string): (r: string)
    ensures |r| <= |s| && r == s[|s| - |r|..]
    ensures |r| > 0 ==> !IsSpace(r[0])
  {
    if |s| > 0 && IsSpace(s[0]) then StripLeft(s[1..]) else s
  }

  function StripRight(s: string): (r: string)
    ensures |r| <= |s| && r == s[..|r|]
    ensures |r| > 0 ==> !IsSpace(r[|r| - 1])
  {
    if |s| > 0 && IsSpace(s[|s| - 1]) then StripRight(s[..|s| - 1]) else s
  }

  /** `s.strip()` */
  function Strip(s: string): (r: string)
    ensures |r| > 0 ==> !IsSpace(r[0]) && !IsSpace(r[|r| - 1])
  {
    StripRight(StripLeft(s))
  }

  predicate NoSpace(s: string) { forall i :: 0 <= i < |s| ==> !IsSpace(s[i]) }

  /** The maximal run of non-whitespace characters at the start of `s`. */
  function TakeWord(s: string): (w: string)
    ensures |w| <= |s| && w == s[..|w|] && NoSpace(w)
    ensures |w| < |s| ==> IsSpace(s[|w|])
  {
    if |s| > 0 && !IsSpace(s[0]) then [s[0]] + TakeWord(s[1..]) else ""
  }

  /** `s.split()`: the maximal runs of non-whitespace characters, in order. */
  function Words(s: string): (ws: seq<string>)
    ensures forall i :: 0 <= i < |ws| ==> |ws[i]| > 0 && NoSpace(ws[i])
    decreases |s|
  {
    if |s| == 0 then []
    else if IsSpace(s[0]) then Words(s[1..])
    else
      var w := TakeWord(s);
      [w] + Words(s[|w|..])
  }

  /** `sep.join(parts)` */
  function Join(parts: seq<string>, sep: string): (r: string)
    ensures |parts| > 0 ==> StartsWith(r, parts[0])
  {
    if |parts| == 0 then ""
    else if |parts| == 1 then parts[0]
    else parts[0] + sep + Join(parts[1..], sep)
  }

  /** `s.split(c)` for a one-character separator: always at least one piece. */
  function Split(s: string, c: char): (parts: seq<string>)
    ensures |parts| >= 1
    ensures forall i :: 0 <= i < |parts| ==> c !in parts[i]
  {
    if |s| == 0 then [""]
    else
      var rest := Split(s[1..], c);
      if s[0] == c then [""] + rest
      else [[s[0]] + rest[0]] + rest[1..]
  }

  /** Splitting and re-joining with the same separator gives the string back. */
  lemma {:induction false} JoinSplit(s: string, c: char)
    ensures Join(Split(s, c), [c]) == s
  {
    if |s| > 0 {
      var rest := Split(s[1..], c);
      JoinSplit(s[1..], c);
      if s[0] == c {
        assert Join([""] + rest, [c]) == "" + [c] + Join(rest, [c]);
      } else {
        var parts := [[s[0]] + rest[0]] + rest[1..];
        if |rest| == 1 {
          assert Join(parts, [c]) == [s[0]] + rest[0];
        } else {
          assert parts[1..] == rest[1..];
          assert Join(parts, [c]) == ([s[0]] + rest[0]) + [c] + Join(rest[1..], [c]);
          assert Join(rest, [c]) == rest[0] + [c] + Join(rest[1..], [c]);
        }
      }
    }
  }

  /** A word without the separator, then the separator: the word is the first piece. */
  lemma {:induction false} SplitAfterWord(w: string, c: char, s: string)
    requires c !in w
    ensures Split(w + [c] + s, c) == [w] + Split(s, c)
  {
    if |w| > 0 {
      assert (w + [c] + s)[1..] == w[1..] + [c] + s;
      SplitAfterWord(w[1..], c, s);
      assert [w[0]] + w[1..] == w;
    } else {
      assert w + [c] + s == [c] + s;
    }
  }

  /** A word without the separator is one piece. */
  lemma {:induction false} SplitWord(w: string, c: char)
    requires c !in w
    ensures Split(w, c) == [w]
  {
    if |w| > 0 {
      SplitWord(w[1..], c);
      assert [w[0]] + w[1..] == w;
    }
  }

  /** Joining words that do not contain the separator and splitting again gives the words back. */
  lemma {:induction false} SplitJoin(ws: seq<string>, c: char)
    requires |ws| >= 1
    requires forall i :: 0 <= i < |ws| ==> c !in ws[i]
    ensures Split(Join(ws, [c]), c) == ws
  {
    if |ws| == 1 {
      SplitWord(ws[0], c);
    } else {
      SplitJoin(ws[1..], c);
      SplitAfterWord(ws[0], c, Join(ws[1..], [c]));
      assert [ws[0]] + ws[1..] == ws;
    }
  }

  /** `'{} {}'.format(prefix, n)`: the keys class counters hand out. */
  function CounterKey(prefix: string, n: nat): string {
    prefix + " " + NatToString(n)
  }

  /** Different counter values give different keys. */
  lemma CounterKeysDistinct(prefix: string, m: nat, n: nat)
    requires m != n
    ensures CounterKey(prefix, m) != CounterKey(prefix, n)
  {
    if CounterKey(prefix, m) == CounterKey(prefix, n) {
      assert NatToString(m) == CounterKey(prefix, m)[|prefix| + 1..];
      assert NatToString(n) == CounterKey(prefix, n)[|prefix| + 1..];
      ParseNatToString(m);
      ParseNatToString(n);
    }
  }

  predicate StartsWith(s: string, prefix: string) {
    |prefix| <= |s| && s[..|prefix|] == prefix
  }
}
