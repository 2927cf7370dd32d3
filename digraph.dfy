/**
 * The directed-graph notions the family tree relies on, defined on a vertex
 * set V and a set of directed edges E: degrees as networkx counts them, and
 * weakly connected components (connectivity ignoring edge direction, through
 * vertices of V only).
 */
module Digraph {

  type Edge = (string, string)

  function OutEdges(E: set<Edge>, k: string): set<Edge> {
    set e | e in E && e.0 == k
  }

  function InEdges(E: set<Edge>, k: string): set<Edge> {
    set e | e in E && e.1 == k
  }

  /** networkx's degree: in-edges plus out-edges, so a self-loop counts twice. */
  function Degree(E: set<Edge>, k: string): nat {
    |OutEdges(E, k)| + |InEdges(E, k)|
  }

  function InDegree(E: set<Edge>, k: string): nat {
    |InEdges(E, k)|
  }

  /** No edge touches k. */
  predicate Isolated(E: set<Edge>, k: string) {
    forall e :: e in E ==> e.0 != k && e.1 != k
  }

  lemma DegreeZeroIffIsolated(E: set<Edge>, k: string)
    ensures Degree(E, k) == 0 <==> Isolated(E, k)
  {
    if !Isolated(E, k) {
      var e :| e in E && (e.0 == k || e.1 == k);
      if e.0 == k {
        assert e in OutEdges(E, k);
      } else {
        assert e in InEdges(E, k);
      }
    }
  }

  lemma InDegreeZeroIffNoParent(E: set<Edge>, k: string)
    ensures InDegree(E, k) == 0 <==> forall e :: e in E ==> e.1 != k
  {
    if exists e :: e in E && e.1 == k {
      var e :| e in E && e.1 == k;
      assert e in InEdges(E, k);
    }
  }

  // ---------------------------------------------------------------------------
  // Weak connectivity
  // ---------------------------------------------------------------------------

  predicate Adjacent(E: set<Edge>, a: string, b: string) {
    (a, b) in E || (b, a) in E
  }

  /** A walk that ignores edge direction and stays inside V. */
  ghost predicate IsWalk(V: set<string>, E: set<Edge>, p: seq<string>) {
    |p| >= 1 &&
    (forall i :: 0 <= i < |p| ==> p[i] in V) &&
    (forall i :: 0 <= i < |p| - 1 ==> Adjacent(E, p[i], p[i + 1]))
  }

  ghost predicate Connected(V: set<string>, E: set<Edge>, a: string, b: string) {
    exists p :: IsWalk(V, E, p) && p[0] == a && p[|p| - 1] == b
  }

  lemma ConnectedReflexive(V: set<string>, E: set<Edge>, a: string)
    requires a in V
    ensures Connected(V, E, a, a)
  {
    assert IsWalk(V, E, [a]);
  }

  lemma ConnectedSymmetric(V: set<string>, E: set<Edge>, a: string, b: string)
    requires Connected(V, E, a, b)
    ensures Connected(V, E, b, a)
  {
    var p :| IsWalk(V, E, p) && p[0] == a && p[|p| - 1] == b;
    var q := seq(|p|, i requires 0 <= i < |p| => p[|p| - 1 - i]);
    assert forall i :: 0 <= i < |q| - 1 ==> Adjacent(E, q[i], q[i + 1]) by {
      forall i | 0 <= i < |q| - 1 ensures Adjacent(E, q[i], q[i + 1]) {
        assert Adjacent(E, p[|p| - 2 - i], p[|p| - 2 - i + 1]);
      }
    }
    assert IsWalk(V, E, q);
  }

  lemma ConnectedTransitive(V: set<string>, E: set<Edge>, a: string, b: string, c: string)
    requires Connected(V, E, a, b) && Connected(V, E, b, c)
    ensures Connected(V, E, a, c)
  {
    var p :| IsWalk(V, E, p) && p[0] == a && p[|p| - 1] == b;
    var q :| IsWalk(V, E, q) && q[0] == b && q[|q| - 1] == c;
    var r := p + q[1..];
    assert forall i :: 0 <= i < |r| - 1 ==> Adjacent(E, r[i], r[i + 1]) by {
      forall i | 0 <= i < |r| - 1 ensures Adjacent(E, r[i], r[i + 1]) {
        if i < |p| - 1 {
          assert r[i] == p[i] && r[i + 1] == p[i + 1];
        } else {
          var j := i - |p| + 1;
          assert r[i] == q[j] && r[i + 1] == q[j + 1];
        }
      }
    }
    assert IsWalk(V, E, r);
  }

  /** One step of the search: the vertices of V adjacent to some vertex of S. */
  function Neighbours(V: set<string>, E: set<Edge>, S: set<string>): set<string> {
    set x, y | x in S && y in V && Adjacent(E, x, y) :: y
  }

  /** The smallest superset of S inside V that is closed under adjacency. */
  function Grow(V: set<string>, E: set<Edge>, S: set<string>): (R: set<string>)
    requires S <= V
    ensures S <= R <= V
    decreases |V - S|
  {
    var T := S + Neighbours(V, E, S);
    if T == S then S
    else
      var y :| y in T && y !in S;
      ProperSubsetSmaller(V - T, V - S, y);
      Grow(V, E, T)
  }

  /** The search stops only at a set closed under adjacency. */
  lemma {:induction false} GrowClosed(V: set<string>, E: set<Edge>, S: set<string>)
    requires S <= V
    ensures Neighbours(V, E, Grow(V, E, S)) <= Grow(V, E, S)
    decreases |V - S|
  {
    var T := S + Neighbours(V, E, S);
    if T != S {
      var y :| y in T && y !in S;
      ProperSubsetSmaller(V - T, V - S, y);
      GrowClosed(V, E, T);
    }
  }

  lemma ProperSubsetSmaller(A: set<string>, B: set<string>, y: string)
    requires A <= B && y in B && y !in A
    ensures |A| < |B|
  {
    assert A <= B - {y};
    SubsetNotLarger(A, B - {y});
  }

  lemma {:induction false} SubsetNotLarger(A: set<string>, B: set<string>)
    requires A <= B
    ensures |A| <= |B|
    decreases |B|
  {
    if A != {} {
      var x :| x in A;
      SubsetNotLarger(A - {x}, B - {x});
    }
  }

  /** The weakly connected component of a in the subgraph induced by V. */
  function Component(V: set<string>, E: set<Edge>, a: string): (C: set<string>)
    requires a in V
    ensures a in C && C <= V
  {
    Grow(V, E, {a})
  }

  lemma {:induction false} GrowSound(V: set<string>, E: set<Edge>, S: set<string>, a: string)
    requires S <= V
    requires forall x :: x in S ==> Connected(V, E, a, x)
    ensures forall x :: x in Grow(V, E, S) ==> Connected(V, E, a, x)
    decreases |V - S|
  {
    var T := S + Neighbours(V, E, S);
    if T != S {
      forall y | y in T ensures Connected(V, E, a, y) {
        if y !in S {
          var x :| x in S && y in V && Adjacent(E, x, y);
          assert Connected(V, E, x, y) by {
            assert IsWalk(V, E, [x, y]);
          }
          ConnectedTransitive(V, E, a, x, y);
        }
      }
      var y :| y in T && y !in S;
      ProperSubsetSmaller(V - T, V - S, y);
      GrowSound(V, E, T, a);
    }
  }

  /** A walk that starts inside a set closed under adjacency never leaves it. */
  lemma {:induction false} ClosedSetContainsWalk(V: set<string>, E: set<Edge>, R: set<string>, p: seq<string>)
    requires IsWalk(V, E, p) && p[0] in R
    requires Neighbours(V, E, R) <= R
    ensures forall i :: 0 <= i < |p| ==> p[i] in R
  {
    var i := 0;
    while i < |p| - 1
      invariant 0 <= i <= |p| - 1
      invariant forall j :: 0 <= j <= i ==> p[j] in R
    {
      assert p[i + 1] in Neighbours(V, E, R) by {
        assert p[i] in R && p[i + 1] in V && Adjacent(E, p[i], p[i + 1]);
      }
      i := i + 1;
    }
  }

  /** A vertex is in a's component exactly when a walk inside V joins them. */
  lemma ComponentIsConnected(V: set<string>, E: set<Edge>, a: string, x: string)
    requires a in V
    ensures x in Component(V, E, a) <==> Connected(V, E, a, x)
  {
    ConnectedReflexive(V, E, a);
    GrowSound(V, E, {a}, a);
    if Connected(V, E, a, x) {
      var p :| IsWalk(V, E, p) && p[0] == a && p[|p| - 1] == x;
      GrowClosed(V, E, {a});
      ClosedSetContainsWalk(V, E, Component(V, E, a), p);
    }
  }

  /** Every member of a component has that same component. */
  lemma ComponentOfMember(V: set<string>, E: set<Edge>, a: string, b: string)
    requires a in V && b in Component(V, E, a)
    ensures b in V && Component(V, E, b) == Component(V, E, a)
  {
    ComponentIsConnected(V, E, a, b);
    forall x ensures x in Component(V, E, b) <==> x in Component(V, E, a) {
      ComponentIsConnected(V, E, a, x);
      ComponentIsConnected(V, E, b, x);
      if Connected(V, E, b, x) {
        ConnectedTransitive(V, E, a, b, x);
      }
      if Connected(V, E, a, x) {
        ConnectedSymmetric(V, E, a, b);
        ConnectedTransitive(V, E, b, a, x);
      }
    }
  }

  /** Two components are equal or disjoint. */
  lemma ComponentsEqualOrDisjoint(V: set<string>, E: set<Edge>, a: string, b: string)
    requires a in V && b in V
    ensures Component(V, E, a) == Component(V, E, b) ||
            Component(V, E, a) !! Component(V, E, b)
  {
    if x :| x in Component(V, E, a) && x in Component(V, E, b) {
      ComponentOfMember(V, E, a, x);
      ComponentOfMember(V, E, b, x);
    }
  }

  /** Two vertices share a component exactly when they are connected. */
  lemma SameComponentIffConnected(V: set<string>, E: set<Edge>, a: string, b: string)
    requires a in V && b in V
    ensures Component(V, E, a) == Component(V, E, b) <==> Connected(V, E, a, b)
  {
    ComponentIsConnected(V, E, a, b);
    if Connected(V, E, a, b) {
      ComponentOfMember(V, E, a, b);
    } else {
      ComponentIsConnected(V, E, b, b);
      ConnectedReflexive(V, E, b);
    }
  }
}
