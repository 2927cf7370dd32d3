/**
 * The printing order of a tree's nodes and edges. Nodes are grouped by weakly
 * connected component; the components are sorted by their least key, put in
 * the order a seeded shuffle chooses, and each is printed in key order. Edges
 * are printed sorted by (parent key, child key).
 */
module Ordering {
  import opened Text
  import D = Digraph

  // ---------------------------------------------------------------------------
  // Components and their least keys
  // ---------------------------------------------------------------------------

  /** `min(component, key=str)`: the least key of k's component. */
  ghost function RootOf(V: set<string>, E: set<D.Edge>, k: string): string
    requires k in V
  {
    var C := D.Component(V, E, k);
    LeastExists(C);
    var r :| IsLeast(r, C);
    r
  }

  /** The least key belongs to the component and sorts no later than any of its keys. */
  lemma RootOfIsLeast(V: set<string>, E: set<D.Edge>, k: string)
    requires k in V
    ensures IsLeast(RootOf(V, E, k), D.Component(V, E, k))
  {
  }

  /** The least keys of all components, in str order: the components sorted by their least key. */
  ghost function Roots(V: set<string>, E: set<D.Edge>): (rs: seq<string>)
    ensures StrictlySorted(rs)
  {
    SortedSet(set r | r in V && RootOf(V, E, r) == r)
  }

  /** A key lies in a root's component exactly when that root is its least key. */
  lemma RootComponent(V: set<string>, E: set<D.Edge>, r: string, k: string)
    requires r in V && RootOf(V, E, r) == r
    ensures k in D.Component(V, E, r) <==> k in V && RootOf(V, E, k) == r
  {
    if k in D.Component(V, E, r) {
      D.ComponentOfMember(V, E, r, k);
    }
    if k in V && RootOf(V, E, k) == r {
      D.ComponentOfMember(V, E, k, r);
    }
  }

  /** The least key of a component is its own least key. */
  lemma RootOfRoot(V: set<string>, E: set<D.Edge>, k: string)
    requires k in V
    ensures RootOf(V, E, k) in V && RootOf(V, E, RootOf(V, E, k)) == RootOf(V, E, k)
  {
    D.ComponentOfMember(V, E, k, RootOf(V, E, k));
  }

  /** Two keys have the same least key exactly when a walk joins them. */
  lemma SameRootIffConnected(V: set<string>, E: set<D.Edge>, a: string, b: string)
    requires a in V && b in V
    ensures RootOf(V, E, a) == RootOf(V, E, b) <==> D.Connected(V, E, a, b)
  {
    D.SameComponentIffConnected(V, E, a, b);
    if RootOf(V, E, a) == RootOf(V, E, b) {
      D.ComponentsEqualOrDisjoint(V, E, a, b);
    }
  }

  /** Every key's least key is one of the roots. */
  lemma RootOfInRoots(V: set<string>, E: set<D.Edge>, k: string)
    requires k in V
    ensures RootOf(V, E, k) in Roots(V, E)
  {
    RootOfRoot(V, E, k);
  }

  /** Every root is a key that is its own least key. */
  lemma RootIsRoot(V: set<string>, E: set<D.Edge>, r: string)
    requires r in Roots(V, E)
    ensures r in V && RootOf(V, E, r) == r
  {
  }

  // ---------------------------------------------------------------------------
  // The seeded shuffle, as the permutation it applies
  // ---------------------------------------------------------------------------

  function Range(n: nat): (r: seq<nat>)
    ensures |r| == n && forall i :: 0 <= i < n ==> r[i] == i
  {
    if n == 0 then [] else Range(n - 1) + [n - 1]
  }

  /** `perm` rearranges the positions 0 .. n-1. */
  predicate IsPermutation(perm: seq<nat>, n: nat) {
    multiset(perm) == multiset(Range(n))
  }

  lemma PermutationFacts(perm: seq<nat>, n: nat)
    requires IsPermutation(perm, n)
    ensures |perm| == n && Distinct(perm)
    ensures forall i :: 0 <= i < |perm| ==> perm[i] < n
    ensures forall j :: 0 <= j < n ==> j in perm
  {
    assert |perm| == |multiset(perm)| == |multiset(Range(n))| == n;
    DistinctByMultiset(Range(n), perm);
    forall i | 0 <= i < |perm| ensures perm[i] < n {
      assert perm[i] in multiset(Range(n));
    }
    forall j | 0 <= j < n ensures j in perm {
      assert Range(n)[j] == j;
      assert j in multiset(perm);
    }
  }

  /** `rng.shuffle(rs)`, given the permutation the generator picks. */
  function Shuffled(rs: seq<string>, perm: seq<nat>): (sh: seq<string>)
    requires IsPermutation(perm, |rs|)
    ensures |sh| == |rs|
  {
    PermutationFacts(perm, |rs|);
    seq(|perm|, i requires 0 <= i < |perm| => rs[perm[i]])
  }

  lemma ShuffledFacts(rs: seq<string>, perm: seq<nat>)
    requires IsPermutation(perm, |rs|) && Distinct(rs)
    ensures Distinct(Shuffled(rs, perm))
    ensures forall x :: x in Shuffled(rs, perm) <==> x in rs
  {
    PermutationFacts(perm, |rs|);
    var sh := Shuffled(rs, perm);
    forall x | x in rs ensures x in sh {
      var j :| 0 <= j < |rs| && rs[j] == x;
      assert j in perm;
      var i :| 0 <= i < |perm| && perm[i] == j;
      assert sh[i] == x;
    }
  }

  // ---------------------------------------------------------------------------
  // ordered_nodes
  // ---------------------------------------------------------------------------

  /** Position of x in s. */
  function IndexOf(s: seq<string>, x: string): (i: nat)
    requires x in s
    ensures i < |s| && s[i] == x
  {
    if s[0] == x then 0 else 1 + IndexOf(s[1..], x)
  }

  lemma IndexOfDistinct(s: seq<string>, i: nat)
    requires Distinct(s) && i < |s|
    ensures IndexOf(s, s[i]) == i
  {
  }

  /** Each key's least key: the component it belongs to. */
  ghost function RootMap(V: set<string>, E: set<D.Edge>): (rm: map<string, string>)
    ensures rm.Keys == V
    ensures forall k :: k in V ==> rm[k] == RootOf(V, E, k)
  {
    map k | k in V :: RootOf(V, E, k)
  }

  /** The keys whose root is r. */
  function Members(rm: map<string, string>, r: string): set<string> {
    set k | k in rm && rm[k] == r
  }

  /** A root's component is the set of keys with that root. */
  lemma MembersAreComponent(V: set<string>, E: set<D.Edge>, r: string)
    requires r in V && RootOf(V, E, r) == r
    ensures Members(RootMap(V, E), r) == D.Component(V, E, r)
  {
    forall k ensures k in Members(RootMap(V, E), r) <==> k in D.Component(V, E, r) {
      RootComponent(V, E, r, k);
    }
  }

  /** The keys of each root in rs, in key order, one block after the other. */
  ghost function Blocks(rm: map<string, string>, rs: seq<string>): seq<string> {
    if rs == [] then [] else SortedSet(Members(rm, rs[0])) + Blocks(rm, rs[1..])
  }

  /** `ordered_nodes()`: the keys in printing order. */
  ghost function OrderedKeys(V: set<string>, E: set<D.Edge>, perm: seq<nat>): seq<string>
    requires IsPermutation(perm, |Roots(V, E)|)
  {
    Blocks(RootMap(V, E), Shuffled(Roots(V, E), perm))
  }

  /** The shuffled roots are distinct and are exactly the roots. */
  lemma ShuffledRoots(V: set<string>, E: set<D.Edge>, perm: seq<nat>)
    requires IsPermutation(perm, |Roots(V, E)|)
    ensures Distinct(Shuffled(Roots(V, E), perm))
    ensures forall x :: x in Shuffled(Roots(V, E), perm) <==> x in Roots(V, E)
  {
    StrictlySortedDistinct(Roots(V, E));
    ShuffledFacts(Roots(V, E), perm);
  }

  /** a prints before b: its root comes earlier in rs, or they share a root and a < b. */
  predicate PrintsBefore(rm: map<string, string>, rs: seq<string>, a: string, b: string)
    requires a in rm && b in rm && rm[a] in rs && rm[b] in rs
  {
    IndexOf(rs, rm[a]) < IndexOf(rs, rm[b]) || (rm[a] == rm[b] && StrLess(a, b))
  }

  /** Every pair of positions i < j of out is in printing order. */
  predicate InPrintOrder(rm: map<string, string>, rs: seq<string>, out: seq<string>) {
    forall i, j :: 0 <= i < j < |out| ==>
      (out[i] in rm && out[j] in rm && rm[out[i]] in rs && rm[out[j]] in rs &&
       PrintsBefore(rm, rs, out[i], out[j]))
  }

  lemma DistinctConcat(a: seq<string>, b: seq<string>)
    requires Distinct(a) && Distinct(b) && forall x :: x in a ==> x !in b
    ensures Distinct(a + b)
  {
    forall i, j | 0 <= i < j < |a + b| ensures (a + b)[i] != (a + b)[j] {
      if j < |a| {
        assert (a + b)[i] == a[i] && (a + b)[j] == a[j];
      } else if i < |a| {
        assert (a + b)[i] == a[i] && (a + b)[j] == b[j - |a|];
        assert a[i] in a;
      } else {
        assert (a + b)[i] == b[i - |a|] && (a + b)[j] == b[j - |a|];
      }
    }
  }

  /** The block of root r: distinct keys, exactly those with root r. */
  lemma MembersBlock(rm: map<string, string>, r: string)
    ensures var h := SortedSet(Members(rm, r));
      Distinct(h) && StrictlySorted(h) && forall k :: k in h <==> k in rm && rm[k] == r
  {
    StrictlySortedDistinct(SortedSet(Members(rm, r)));
  }

  lemma {:induction false} BlocksMembers(rm: map<string, string>, rs: seq<string>)
    requires Distinct(rs)
    ensures var out := Blocks(rm, rs);
      Distinct(out) && forall k :: k in out <==> k in rm && rm[k] in rs
  {
    if rs != [] {
      var head := SortedSet(Members(rm, rs[0]));
      assert rs[0] !in rs[1..];
      BlocksMembers(rm, rs[1..]);
      MembersBlock(rm, rs[0]);
      DistinctConcat(head, Blocks(rm, rs[1..]));
    }
  }

  /** Dropping the first root shifts every other root's position by one. */
  lemma IndexOfTail(rs: seq<string>, x: string)
    requires x in rs && x != rs[0]
    ensures x in rs[1..] && IndexOf(rs, x) == 1 + IndexOf(rs[1..], x)
  {
  }

  /** The first block, then blocks of later roots in order, is in order. */
  lemma {:induction false} PrintOrderConcat(rm: map<string, string>, rs: seq<string>, head: seq<string>, tail: seq<string>)
    requires rs != [] && Distinct(rs)
    requires StrictlySorted(head) && forall k :: k in head ==> k in rm && rm[k] == rs[0]
    requires forall k :: k in tail ==> k in rm && rm[k] in rs[1..]
    requires InPrintOrder(rm, rs[1..], tail)
    ensures InPrintOrder(rm, rs, head + tail)
  {
    var out := head + tail;
    forall i, j | 0 <= i < j < |out|
      ensures out[i] in rm && out[j] in rm && rm[out[i]] in rs && rm[out[j]] in rs &&
        PrintsBefore(rm, rs, out[i], out[j])
    {
      if j < |head| {
        assert out[i] == head[i] && out[j] == head[j];
        assert head[i] in head && head[j] in head;
      } else if i < |head| {
        var b := tail[j - |head|];
        assert out[i] == head[i] && out[j] == b;
        assert head[i] in head && b in tail;
        IndexOfTail(rs, rm[b]);
      } else {
        var a, b := tail[i - |head|], tail[j - |head|];
        assert out[i] == a && out[j] == b;
        assert a in tail && b in tail;
        assert PrintsBefore(rm, rs[1..], a, b);
        IndexOfTail(rs, rm[a]);
        IndexOfTail(rs, rm[b]);
      }
    }
  }

  lemma {:induction false} BlocksOrder(rm: map<string, string>, rs: seq<string>)
    requires Distinct(rs)
    ensures InPrintOrder(rm, rs, Blocks(rm, rs))
  {
    if rs != [] {
      var head := SortedSet(Members(rm, rs[0]));
      var tail := Blocks(rm, rs[1..]);
      BlocksOrder(rm, rs[1..]);
      BlocksMembers(rm, rs[1..]);
      MembersBlock(rm, rs[0]);
      PrintOrderConcat(rm, rs, head, tail);
    }
  }

  /** a prints before b: its least key comes earlier in sh, or both share it and a < b. */
  ghost predicate NodeBefore(V: set<string>, E: set<D.Edge>, sh: seq<string>, a: string, b: string) {
    a in V && b in V && RootOf(V, E, a) in sh && RootOf(V, E, b) in sh &&
    (IndexOf(sh, RootOf(V, E, a)) < IndexOf(sh, RootOf(V, E, b)) ||
     (RootOf(V, E, a) == RootOf(V, E, b) && StrLess(a, b)))
  }

  /** Every pair of positions i < j of out is in printing order. */
  ghost predicate NodeOrder(V: set<string>, E: set<D.Edge>, sh: seq<string>, out: seq<string>) {
    forall i, j :: 0 <= i < j < |out| ==> NodeBefore(V, E, sh, out[i], out[j])
  }

  /** Printing order by the root map is printing order by least keys. */
  lemma NodeOrderByRootMap(V: set<string>, E: set<D.Edge>, sh: seq<string>, out: seq<string>)
    requires InPrintOrder(RootMap(V, E), sh, out)
    ensures NodeOrder(V, E, sh, out)
  {
    var rm := RootMap(V, E);
    forall i, j | 0 <= i < j < |out| ensures NodeBefore(V, E, sh, out[i], out[j]) {
      assert PrintsBefore(rm, sh, out[i], out[j]);
    }
  }

  /** Every key's least key is among the shuffled roots. */
  lemma ShuffledRootsCover(V: set<string>, E: set<D.Edge>, perm: seq<nat>)
    requires IsPermutation(perm, |Roots(V, E)|)
    ensures forall k :: k in V ==> RootOf(V, E, k) in Shuffled(Roots(V, E), perm)
  {
    ShuffledRoots(V, E, perm);
    forall k | k in V ensures RootOf(V, E, k) in Shuffled(Roots(V, E), perm) {
      RootOfInRoots(V, E, k);
    }
  }

  /** `ordered_nodes` prints exactly the keys, each once. */
  lemma OrderedKeysMembers(V: set<string>, E: set<D.Edge>, perm: seq<nat>)
    requires IsPermutation(perm, |Roots(V, E)|)
    ensures Distinct(OrderedKeys(V, E, perm))
    ensures forall k :: k in OrderedKeys(V, E, perm) <==> k in V
  {
    var sh := Shuffled(Roots(V, E), perm);
    ShuffledRoots(V, E, perm);
    ShuffledRootsCover(V, E, perm);
    BlocksMembers(RootMap(V, E), sh);
  }

  /**
   * `ordered_nodes` prints every key exactly once; keys of one component are
   * printed together, in key order, and the components appear in the order of
   * the shuffled list of components sorted by least key.
   */
  lemma OrderedKeysSpec(V: set<string>, E: set<D.Edge>, perm: seq<nat>)
    requires IsPermutation(perm, |Roots(V, E)|)
    ensures var out := OrderedKeys(V, E, perm);
      var sh := Shuffled(Roots(V, E), perm);
      Distinct(out) &&
      (forall k :: k in out <==> k in V) &&
      (forall k :: k in V ==> RootOf(V, E, k) in sh) &&
      NodeOrder(V, E, sh, out)
  {
    var rm := RootMap(V, E);
    var sh := Shuffled(Roots(V, E), perm);
    ShuffledRoots(V, E, perm);
    ShuffledRootsCover(V, E, perm);
    BlocksMembers(rm, sh);
    BlocksOrder(rm, sh);
    NodeOrderByRootMap(V, E, sh, Blocks(rm, sh));
  }

  // ---------------------------------------------------------------------------
  // ordered_edges
  // ---------------------------------------------------------------------------

  /** `(parent, child) < (parent', child')` on str pairs. */
  predicate EdgeLess(a: D.Edge, b: D.Edge) {
    StrLess(a.0, b.0) || (a.0 == b.0 && StrLess(a.1, b.1))
  }

  function Parents(E: set<D.Edge>): set<string> {
    set e | e in E :: e.0
  }

  function ChildrenOf(E: set<D.Edge>, p: string): set<string> {
    set e | e in E && e.0 == p :: e.1
  }

  predicate EdgesSorted(s: seq<D.Edge>) {
    forall i, j :: 0 <= i < j < |s| ==> EdgeLess(s[i], s[j])
  }

  /** The edges leaving p, in child key order. */
  ghost function EdgeBlock(E: set<D.Edge>, p: string): seq<D.Edge> {
    var cs := SortedSet(ChildrenOf(E, p));
    seq(|cs|, i requires 0 <= i < |cs| => (p, cs[i]))
  }

  lemma EdgeBlockSpec(E: set<D.Edge>, p: string)
    ensures var h := EdgeBlock(E, p);
      EdgesSorted(h) && forall e :: e in h <==> e in E && e.0 == p
  {
    var cs := SortedSet(ChildrenOf(E, p));
    var h := EdgeBlock(E, p);
    forall e | e in E && e.0 == p ensures e in h {
      assert e.1 in ChildrenOf(E, p);
      var i :| 0 <= i < |cs| && cs[i] == e.1;
      assert h[i] == e;
    }
    forall e | e in h ensures e in E && e.0 == p {
      var i :| 0 <= i < |h| && h[i] == e;
      assert cs[i] in ChildrenOf(E, p);
      var e' :| e' in E && e'.0 == p && e'.1 == cs[i];
      assert e' == e;
    }
    forall i, j | 0 <= i < j < |h| ensures EdgeLess(h[i], h[j]) {
      assert h[i] == (p, cs[i]) && h[j] == (p, cs[j]);
    }
  }

  lemma SortedConcat(a: seq<D.Edge>, b: seq<D.Edge>)
    requires EdgesSorted(a) && EdgesSorted(b)
    requires forall x, y :: x in a && y in b ==> EdgeLess(x, y)
    ensures EdgesSorted(a + b)
  {
    forall i, j | 0 <= i < j < |a + b| ensures EdgeLess((a + b)[i], (a + b)[j]) {
      if j < |a| {
        assert (a + b)[i] == a[i] && (a + b)[j] == a[j];
      } else if i < |a| {
        assert (a + b)[i] == a[i] && (a + b)[j] == b[j - |a|];
        assert a[i] in a && b[j - |a|] in b;
      } else {
        assert (a + b)[i] == b[i - |a|] && (a + b)[j] == b[j - |a|];
      }
    }
  }

  /** The edges leaving each parent in ps, parents in the order given. */
  ghost function EdgesFrom(E: set<D.Edge>, ps: seq<string>): seq<D.Edge> {
    if ps == [] then [] else EdgeBlock(E, ps[0]) + EdgesFrom(E, ps[1..])
  }

  /** `ordered_edges()`: the edges sorted by (parent, child). */
  ghost function OrderedEdgeKeys(E: set<D.Edge>): seq<D.Edge> {
    EdgesFrom(E, SortedSet(Parents(E)))
  }

  lemma {:induction false} EdgesFromSpec(E: set<D.Edge>, ps: seq<string>)
    requires StrictlySorted(ps)
    ensures var out := EdgesFrom(E, ps);
      EdgesSorted(out) && forall e :: e in out <==> e in E && e.0 in ps
  {
    if ps != [] {
      var p := ps[0];
      var head := EdgeBlock(E, p);
      var tail := EdgesFrom(E, ps[1..]);
      EdgesFromSpec(E, ps[1..]);
      EdgeBlockSpec(E, p);
      forall x, y | x in head && y in tail ensures EdgeLess(x, y) {
        var k :| 0 <= k < |ps[1..]| && ps[1..][k] == y.0;
        assert ps[k + 1] == y.0;
      }
      SortedConcat(head, tail);
    }
  }

  lemma EdgeLessIrreflexive(a: D.Edge)
    ensures !EdgeLess(a, a)
  {
    StrLessIrreflexive(a.0);
    StrLessIrreflexive(a.1);
  }

  /**
   * `ordered_edges` prints every edge exactly once, each before every edge
   * that sorts after it by (parent, child).
   */
  lemma OrderedEdgeKeysSpec(E: set<D.Edge>)
    ensures var out := OrderedEdgeKeys(E);
      Distinct(out) &&
      (forall e :: e in out <==> e in E) &&
      EdgesSorted(out)
  {
    var ps := SortedSet(Parents(E));
    EdgesFromSpec(E, ps);
    var out := OrderedEdgeKeys(E);
    forall e | e in E ensures e.0 in ps {
      assert e.0 in Parents(E);
    }
    forall i, j | 0 <= i < j < |out| ensures out[i] != out[j] {
      EdgeLessIrreflexive(out[i]);
    }
  }
}
