/**
 * The colour picker used to colour families: a rotating queue of colours.
 * `use(c)` moves a colour it holds to the back (an unknown colour changes
 * nothing); `next()` hands out the front colour and moves it to the back.
 */
module ColorPicker {

  datatype Picker = Picker(colors: seq<string>)

  /** The colours with the first occurrence of c taken out. */
  function RemoveFirst(s: seq<string>, c: string): (r: seq<string>)
    requires c in s
    ensures |r| == |s| - 1
    ensures multiset(r) + multiset{c} == multiset(s)
  {
    assert s == [s[0]] + s[1..];
    if s[0] == c then s[1..]
    else
      assert s == [s[0]] + s[1..];
      [s[0]] + RemoveFirst(s[1..], c)
  }

  /** `use(color)` */
  function Use(p: Picker, c: string): (q: Picker)
    ensures multiset(q.colors) == multiset(p.colors)
    ensures c in p.colors ==> |q.colors| > 0 && q.colors[|q.colors| - 1] == c
    ensures c !in p.colors ==> q == p
  {
    if c in p.colors then Picker(RemoveFirst(p.colors, c) + [c]) else p
  }

  /** `next(picker)`: the front colour, and the picker rotated by one. */
  function Next(p: Picker): (r: (string, Picker))
    requires |p.colors| > 0
    ensures r.0 in p.colors && |r.1.colors| == |p.colors|
  {
    (p.colors[0], Picker(p.colors[1..] + [p.colors[0]]))
  }

  /** `next` hands out a colour it keeps: the queue holds the same colours afterwards. */
  lemma NextPermutes(p: Picker)
    requires |p.colors| > 0
    ensures multiset(Next(p).1.colors) == multiset(p.colors)
  {
    assert p.colors == [p.colors[0]] + p.colors[1..];
  }

  /** The picker after n calls of `next`. */
  function Advance(p: Picker, n: nat): (q: Picker)
    requires |p.colors| > 0
    ensures |q.colors| == |p.colors|
    decreases n
  {
    if n == 0 then p else Advance(Next(p).1, n - 1)
  }

  /**
   * `next` walks round the palette: after n calls (n at most the palette's
   * length) the queue is the palette rotated left by n places, so call n+1
   * hands out colour n.
   */
  lemma {:induction false} AdvanceRotates(p: Picker, n: nat)
    requires n <= |p.colors|
    requires |p.colors| > 0
    ensures Advance(p, n).colors == p.colors[n..] + p.colors[..n]
    ensures n < |p.colors| ==> Next(Advance(p, n)).0 == p.colors[n]
  {
    var s := p.colors;
    if n == 0 {
      assert s[0..] + s[..0] == s;
    } else {
      AdvanceRotates(p, n - 1);
      AdvanceLast(p, n - 1);
      RotateStep(s, n);
    }
  }

  lemma RotateStep(s: seq<string>, n: nat)
    requires 0 < n <= |s|
    ensures var q := s[n - 1..] + s[..n - 1]; q[1..] + [q[0]] == s[n..] + s[..n]
  {
    var q := s[n - 1..] + s[..n - 1];
    assert q[1..] == s[n..] + s[..n - 1];
    assert s[..n - 1] + [s[n - 1]] == s[..n];
  }

  /** After one call of `next` per colour the picker is back where it started. */
  lemma FullCycle(p: Picker)
    requires |p.colors| > 0
    ensures Advance(p, |p.colors|) == p
  {
    AdvanceRotates(p, |p.colors|);
    assert p.colors[|p.colors|..] + p.colors[..|p.colors|] == p.colors;
  }

  /** Advancing n+1 times is advancing n times and then once more. */
  lemma {:induction false} AdvanceLast(p: Picker, n: nat)
    requires |p.colors| > 0
    ensures Advance(p, n + 1) == Next(Advance(p, n)).1
    decreases n
  {
    if n > 0 {
      AdvanceLast(Next(p).1, n - 1);
    }
  }

  /** Using a colour the picker does not hold leaves it as it was. */
  lemma UseUnknownIsNoop(p: Picker, c: string)
    requires c !in p.colors
    ensures Use(p, c) == p
  {
  }

  /** With a palette of distinct colours, using the same colour twice is using it once. */
  lemma UseTwice(p: Picker, c: string)
    requires forall i, j :: 0 <= i < j < |p.colors| ==> p.colors[i] != p.colors[j]
    ensures Use(Use(p, c), c) == Use(p, c)
  {
    if c in p.colors {
      var r := RemoveFirst(p.colors, c);
      assert c !in r by {
        if c in r {
          assert multiset(r)[c] >= 1;
          assert multiset(p.colors)[c] >= 2;
          DistinctAtMostOnce(p.colors, c);
        }
      }
      RemoveFirstOfLast(r, c);
    }
  }

  lemma {:induction false} DistinctAtMostOnce(s: seq<string>, c: string)
    requires forall i, j :: 0 <= i < j < |s| ==> s[i] != s[j]
    ensures multiset(s)[c] <= 1
  {
    if |s| > 0 {
      assert s == [s[0]] + s[1..];
      DistinctAtMostOnce(s[1..], c);
      if s[0] == c {
        assert c !in s[1..];
      }
    }
  }

  lemma {:induction false} RemoveFirstOfLast(r: seq<string>, c: string)
    requires c !in r
    ensures RemoveFirst(r + [c], c) == r
  {
    if |r| > 0 {
      assert (r + [c])[1..] == r[1..] + [c];
      RemoveFirstOfLast(r[1..], c);
    }
  }
}
