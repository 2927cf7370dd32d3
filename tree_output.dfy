/**
 * What a finished tree prints: its nodes and edges in printing order, the
 * rank groups that line members up with their semester, the column of
 * semester labels on each side, and the whole DOT graph assembled from them.
 */
module TreeOutput {
  import opened Wrappers
  import opened Text
  import opened Dot
  import opened TreeGraph
  import O = Ordering
  import D = Digraph
  import Sem = Semester

  // ---------------------------------------------------------------------------
  // ordered_nodes, ordered_edges
  // ---------------------------------------------------------------------------

  /** The seeded shuffle's permutation fits the tree's components. */
  ghost predicate FitsComponents(g: Graph, perm: seq<nat>) {
    O.IsPermutation(perm, |O.Roots(g.nodes.Keys, g.edges.Keys)|)
  }

  /** The components of the tree in the order the shuffle leaves them, each named by its least key. */
  ghost function ShuffledComponents(g: Graph, perm: seq<nat>): seq<string>
    requires FitsComponents(g, perm)
  {
    O.Shuffled(O.Roots(g.nodes.Keys, g.edges.Keys), perm)
  }

  /** Every key of ks names a node. */
  predicate AllNodes(g: Graph, ks: seq<string>) {
    forall i :: 0 <= i < |ks| ==> ks[i] in g.nodes
  }

  /** Each key of ks with its node data. */
  function WithData(g: Graph, ks: seq<string>): (r: seq<(string, NodeData)>)
    requires AllNodes(g, ks)
    ensures |r| == |ks| && forall i :: 0 <= i < |ks| ==> r[i] == (ks[i], g.nodes[ks[i]])
  {
    seq(|ks|, i requires 0 <= i < |ks| => (ks[i], g.nodes[ks[i]]))
  }

  lemma OrderedKeysAreNodes(g: Graph, perm: seq<nat>)
    requires FitsComponents(g, perm)
    ensures AllNodes(g, O.OrderedKeys(g.nodes.Keys, g.edges.Keys, perm))
  {
    O.OrderedKeysMembers(g.nodes.Keys, g.edges.Keys, perm);
  }

  /** `ordered_nodes()`: each key with its node data, in printing order. */
  ghost function OrderedNodes(g: Graph, perm: seq<nat>): seq<(string, NodeData)>
    requires FitsComponents(g, perm)
  {
    OrderedKeysAreNodes(g, perm);
    WithData(g, O.OrderedKeys(g.nodes.Keys, g.edges.Keys, perm))
  }

  function FirstsOf<A, B>(s: seq<(A, B)>): (r: seq<A>)
    ensures |r| == |s| && forall i :: 0 <= i < |s| ==> r[i] == s[i].0
  {
    seq(|s|, i requires 0 <= i < |s| => s[i].0)
  }

  /** Pairing keys with their data keeps the keys, and each entry carries its own node's data. */
  lemma WithDataKeys(g: Graph, ks: seq<string>)
    requires AllNodes(g, ks)
    ensures FirstsOf(WithData(g, ks)) == ks
    ensures forall i :: 0 <= i < |WithData(g, ks)| ==>
      WithData(g, ks)[i].0 in g.nodes && WithData(g, ks)[i].1 == g.nodes[WithData(g, ks)[i].0]
  {
    assert FirstsOf(WithData(g, ks)) == ks;
  }

  lemma OrderedNodesKeys(g: Graph, perm: seq<nat>)
    requires FitsComponents(g, perm)
    ensures FirstsOf(OrderedNodes(g, perm)) == O.OrderedKeys(g.nodes.Keys, g.edges.Keys, perm)
    ensures forall i :: 0 <= i < |OrderedNodes(g, perm)| ==>
      OrderedNodes(g, perm)[i].0 in g.nodes &&
      OrderedNodes(g, perm)[i].1 == g.nodes[OrderedNodes(g, perm)[i].0]
  {
    var ks := O.OrderedKeys(g.nodes.Keys, g.edges.Keys, perm);
    OrderedKeysAreNodes(g, perm);
    WithDataKeys(g, ks);
    assert OrderedNodes(g, perm) == WithData(g, ks);
  }

  /**
   * Every node is printed exactly once with its own data; each component's
   * keys are printed together in key order, the components in shuffled order.
   */
  lemma OrderedNodesSpec(g: Graph, perm: seq<nat>)
    requires FitsComponents(g, perm)
    ensures Distinct(FirstsOf(OrderedNodes(g, perm)))
    ensures forall k :: k in FirstsOf(OrderedNodes(g, perm)) <==> k in g.nodes
    ensures forall i :: 0 <= i < |OrderedNodes(g, perm)| ==>
      OrderedNodes(g, perm)[i].0 in g.nodes &&
      OrderedNodes(g, perm)[i].1 == g.nodes[OrderedNodes(g, perm)[i].0]
    ensures O.NodeOrder(g.nodes.Keys, g.edges.Keys, ShuffledComponents(g, perm), FirstsOf(OrderedNodes(g, perm)))
  {
    OrderedNodesKeys(g, perm);
    O.OrderedKeysSpec(g.nodes.Keys, g.edges.Keys, perm);
  }

  /** `ordered_edges()`: each edge with its attributes, sorted by (parent, child). */
  ghost function OrderedEdges(g: Graph): seq<(string, string, Attrs)> {
    var es := O.OrderedEdgeKeys(g.edges.Keys);
    O.OrderedEdgeKeysSpec(g.edges.Keys);
    seq(|es|, i requires 0 <= i < |es| => (es[i].0, es[i].1, g.edges[es[i]]))
  }

  /** The (parent, child) pairs of printed edges. */
  function PairsOf(r: seq<(string, string, Attrs)>): (es: seq<D.Edge>)
    ensures |es| == |r| && forall i :: 0 <= i < |r| ==> es[i] == (r[i].0, r[i].1)
  {
    seq(|r|, i requires 0 <= i < |r| => (r[i].0, r[i].1))
  }

  lemma OrderedEdgesPairs(g: Graph)
    ensures PairsOf(OrderedEdges(g)) == O.OrderedEdgeKeys(g.edges.Keys)
    ensures forall i :: 0 <= i < |OrderedEdges(g)| ==>
      (OrderedEdges(g)[i].0, OrderedEdges(g)[i].1) in g.edges &&
      OrderedEdges(g)[i].2 == g.edges[(OrderedEdges(g)[i].0, OrderedEdges(g)[i].1)]
  {
    var es := O.OrderedEdgeKeys(g.edges.Keys);
    O.OrderedEdgeKeysSpec(g.edges.Keys);
    var r := OrderedEdges(g);
    forall i | 0 <= i < |r| ensures PairsOf(r)[i] == es[i] {
      assert r[i] == (es[i].0, es[i].1, g.edges[es[i]]);
    }
  }

  /**
   * Every edge is printed exactly once with its own attributes, sorted by
   * parent key and then child key. Two entries never share a (parent, child)
   * pair, so the attribute tie-break of the source's sort key never decides.
   */
  lemma OrderedEdgesSpec(g: Graph)
    ensures Distinct(PairsOf(OrderedEdges(g)))
    ensures forall e :: e in PairsOf(OrderedEdges(g)) <==> e in g.edges
    ensures forall i :: 0 <= i < |OrderedEdges(g)| ==>
      (OrderedEdges(g)[i].0, OrderedEdges(g)[i].1) in g.edges &&
      OrderedEdges(g)[i].2 == g.edges[(OrderedEdges(g)[i].0, OrderedEdges(g)[i].1)]
    ensures O.EdgesSorted(PairsOf(OrderedEdges(g)))
  {
    OrderedEdgesPairs(g);
    O.OrderedEdgeKeysSpec(g.edges.Keys);
  }

  // ---------------------------------------------------------------------------
  // get_semester_bounds
  // ---------------------------------------------------------------------------

  /** The semester of the node at k, through the entity's getter. */
  function SemAt(g: Graph, k: string): Result<int, TreeError>
    requires k in g.nodes
  {
    SemesterOf(g.nodes[k].entity)
  }

  /** Every key of ks names a node with a semester. */
  predicate AllDated(g: Graph, ks: seq<string>)
    requires AllNodes(g, ks)
  {
    forall i :: 0 <= i < |ks| ==> SemAt(g, ks[i]).Ok?
  }

  function Widen(b: Option<(int, int)>, s: int): (int, int) {
    match b
    case None => (s, s)
    case Some((lo, hi)) => (if s < lo then s else lo, if hi < s then s else hi)
  }

  /**
   * `get_semester_bounds()` over the keys ks, in order: the least and the
   * greatest semester, or None (the source's infinite sentinels) when there
   * are no keys. The getter fails on the first undated node.
   */
  function Bounds(g: Graph, ks: seq<string>): Result<Option<(int, int)>, TreeError>
    requires AllNodes(g, ks)
  {
    if ks == [] then Ok(None)
    else
      var b :- Bounds(g, ks[..|ks| - 1]);
      var s :- SemAt(g, ks[|ks| - 1]);
      Ok(Some(Widen(b, s)))
  }

  lemma AllDatedSnoc(g: Graph, p: seq<string>, k: string)
    requires AllNodes(g, p) && k in g.nodes
    ensures AllNodes(g, p + [k])
    ensures AllDated(g, p + [k]) <==> AllDated(g, p) && SemAt(g, k).Ok?
  {
    var q := p + [k];
    assert forall i :: 0 <= i < |p| ==> q[i] == p[i];
    assert q[|p|] == k;
  }

  /** The getter's error for some key of ks. */
  ghost predicate ErrorOfSome(g: Graph, ks: seq<string>, e: TreeError)
    requires AllNodes(g, ks)
  {
    exists i :: 0 <= i < |ks| && SemAt(g, ks[i]) == Err(e)
  }

  /** The semester of some key of ks is s. */
  ghost predicate HeldBySome(g: Graph, ks: seq<string>, s: int)
    requires AllNodes(g, ks)
  {
    exists i :: 0 <= i < |ks| && SemAt(g, ks[i]) == Ok(s)
  }

  lemma SomeSnoc(g: Graph, p: seq<string>, k: string)
    requires AllNodes(g, p) && k in g.nodes
    ensures AllNodes(g, p + [k])
    ensures forall e :: ErrorOfSome(g, p, e) || SemAt(g, k) == Err(e) ==> ErrorOfSome(g, p + [k], e)
    ensures forall s :: HeldBySome(g, p, s) || SemAt(g, k) == Ok(s) ==> HeldBySome(g, p + [k], s)
  {
    var q := p + [k];
    assert forall i :: 0 <= i < |p| ==> q[i] == p[i];
    assert q[|p|] == k;
  }

  /**
   * The bounds exist exactly when every node is dated, and the error is
   * otherwise the getter's error for one of the keys; they are the least and
   * the greatest semester of the keys, each held by some key, and there are
   * none exactly when there are no keys.
   */
  lemma {:induction false} BoundsSpec(g: Graph, ks: seq<string>)
    requires AllNodes(g, ks)
    ensures Bounds(g, ks).Ok? <==> AllDated(g, ks)
    ensures Bounds(g, ks) == Ok(None) <==> ks == []
    ensures Bounds(g, ks).Err? ==> ErrorOfSome(g, ks, Bounds(g, ks).error)
    ensures Bounds(g, ks).Ok? && Bounds(g, ks).value.Some? ==>
      (forall i :: 0 <= i < |ks| ==>
         Bounds(g, ks).value.value.0 <= SemAt(g, ks[i]).value <= Bounds(g, ks).value.value.1) &&
      HeldBySome(g, ks, Bounds(g, ks).value.value.0) &&
      HeldBySome(g, ks, Bounds(g, ks).value.value.1)
  {
    if ks != [] {
      var p := ks[..|ks| - 1];
      var k := ks[|ks| - 1];
      assert ks == p + [k];
      assert AllNodes(g, p);
      BoundsSpec(g, p);
      AllDatedSnoc(g, p, k);
      SomeSnoc(g, p, k);
      if Bounds(g, p).Ok? && SemAt(g, k).Ok? {
        var s := SemAt(g, k).value;
        var lohi := Widen(Bounds(g, p).value, s);
        assert Bounds(g, ks) == Ok(Some(lohi));
        forall i | 0 <= i < |ks| ensures lohi.0 <= SemAt(g, ks[i]).value <= lohi.1 {
          if i < |p| { assert ks[i] == p[i]; }
        }
      }
    }
  }

  /** Once reading a prefix fails, the whole pass fails with that error. */
  lemma {:induction false} BoundsErrPersists(g: Graph, ks: seq<string>, i: nat)
    requires AllNodes(g, ks) && i <= |ks|
    ensures AllNodes(g, ks[..i])
    ensures Bounds(g, ks[..i]).Err? ==> Bounds(g, ks) == Bounds(g, ks[..i])
  {
    if i < |ks| {
      var p := ks[..|ks| - 1];
      assert p[..i] == ks[..i];
      BoundsErrPersists(g, p, i);
    } else {
      assert ks[..i] == ks;
    }
  }

  /** One turn of the bounds loop: the key at i widens the bounds, or its error ends the pass. */
  lemma BoundsStep(g: Graph, ks: seq<string>, i: nat)
    requires AllNodes(g, ks) && i < |ks|
    ensures AllNodes(g, ks[..i]) && AllNodes(g, ks[..i + 1])
    ensures Bounds(g, ks[..i]).Ok? && SemAt(g, ks[i]).Ok? ==>
      Bounds(g, ks[..i + 1]) == Ok(Some(Widen(Bounds(g, ks[..i]).value, SemAt(g, ks[i]).value)))
    ensures Bounds(g, ks[..i]).Ok? && SemAt(g, ks[i]).Err? ==> Bounds(g, ks) == Err(SemAt(g, ks[i]).error)
  {
    var q := ks[..i + 1];
    assert q[..|q| - 1] == ks[..i] && q[|q| - 1] == ks[i];
    BoundsErrPersists(g, ks, i + 1);
  }

  // ---------------------------------------------------------------------------
  // create_date_subgraph
  // ---------------------------------------------------------------------------

  /** The key of the date node for semester s on the side `suffix`: `'{}{}'.format(sem, key)`. */
  function DateKey(s: int, suffix: string): string {
    Sem.Repr(s) + suffix
  }

  function DateNode(s: int, suffix: string): DotItem {
    Node(DateKey(s, suffix), map["label" := Other(Sem.Repr(s))])
  }

  function DateEdge(s: int, suffix: string): DotItem {
    Edge(DateKey(s, suffix), DateKey(s + 1, suffix), map[])
  }

  /** How many times `while sem <= max_semester` runs from lo. */
  function Steps(lo: int, hi: int): nat {
    if hi < lo then 0 else hi - lo + 1
  }

  /** The items f(lo), f(lo+1), ..., f(lo+n-1), in the order a loop appends them. */
  function Run(f: int -> DotItem, lo: int, n: nat): (r: seq<DotItem>)
    ensures |r| == n
  {
    seq(n, i => f(lo + i))
  }

  /** A run one longer ends with the next item. */
  lemma RunGrows(f: int -> DotItem, lo: int, n: nat, at: int)
    requires at == lo + n
    ensures Run(f, lo, n + 1) == Run(f, lo, n) + [f(at)]
  {
    var a, b := Run(f, lo, n + 1), Run(f, lo, n) + [f(at)];
    forall i | 0 <= i < n + 1 ensures a[i] == b[i] {
      if i < n {
        assert b[i] == Run(f, lo, n)[i];
      }
    }
  }

  /** The date node of each semester, on the side `suffix`. */
  function NodeMaker(suffix: string): int -> DotItem {
    s => DateNode(s, suffix)
  }

  /** The date edge leaving each semester, on the side `suffix`. */
  function EdgeMaker(suffix: string): int -> DotItem {
    s => DateEdge(s, suffix)
  }

  /** The date nodes of the n semesters from lo on, in order. */
  function DateNodes(lo: int, n: nat, suffix: string): (r: seq<DotItem>)
    ensures |r| == n
  {
    Run(NodeMaker(suffix), lo, n)
  }

  /** The date edges leaving the n semesters from lo on, in order. */
  function DateEdges(lo: int, n: nat, suffix: string): (r: seq<DotItem>)
    ensures |r| == n
  {
    Run(EdgeMaker(suffix), lo, n)
  }

  /**
   * The column of dates between finite bounds: a node for every semester from
   * lo to one past hi and an edge from each of the first ones to the next.
   */
  function DateColumn(lo: int, hi: int, suffix: string): seq<DotItem> {
    DateNodes(lo, Steps(lo, hi) + 1, suffix) + DateEdges(lo, Steps(lo, hi), suffix)
  }

  /** One more turn of the loop appends the node and the edge of the next semester. */
  lemma DateColumnGrows(lo: int, n: nat, at: int, suffix: string)
    requires at == lo + n
    ensures DateNodes(lo, n + 1, suffix) == DateNodes(lo, n, suffix) + [DateNode(at, suffix)]
    ensures DateEdges(lo, n + 1, suffix) == DateEdges(lo, n, suffix) + [DateEdge(at, suffix)]
  {
    RunGrows(NodeMaker(suffix), lo, n, at);
    RunGrows(EdgeMaker(suffix), lo, n, at);
  }

  /** When the loop stops after n turns, the column is its nodes, the stopping node, then its edges. */
  lemma DateColumnEnds(lo: int, hi: int, n: nat, at: int, suffix: string)
    requires n == Steps(lo, hi) && at == lo + n
    ensures DateColumn(lo, hi, suffix) == DateNodes(lo, n, suffix) + [DateNode(at, suffix)] + DateEdges(lo, n, suffix)
  {
    DateColumnGrows(lo, n, at, suffix);
  }

  /**
   * `create_date_subgraph(key, min, max)`. With no bounds (an empty tree) the
   * source starts from an infinite float, so the loop never runs and the one
   * node is the string form of infinity.
   */
  function DateSubgraph(suffix: string, bounds: Option<(int, int)>, nodeDefaults: Attrs, edgeDefaults: Attrs): DotItem {
    var column :=
      match bounds
      case None => [Node("inf" + suffix, map["label" := Other("inf")])]
      case Some((lo, hi)) => DateColumn(lo, hi, suffix);
    DotItem.Graph("dates" + suffix, "subgraph", map[],
          [Defaults("node", nodeDefaults), Defaults("edge", edgeDefaults)] + column)
  }

  /**
   * Between bounds lo <= hi the column has hi-lo+2 nodes followed by hi-lo+1
   * edges; the j-th node is the one for semester lo+j, labelled by it.
   */
  lemma DateColumnNodes(lo: int, hi: int, suffix: string)
    requires lo <= hi
    ensures |DateColumn(lo, hi, suffix)| == 2 * (hi - lo + 1) + 1
    ensures forall j :: 0 <= j <= hi - lo + 1 ==> DateColumn(lo, hi, suffix)[j] == DateNode(lo + j, suffix)
  {
    var n := hi - lo + 1;
    assert Steps(lo, hi) == n;
    var ns, es := DateNodes(lo, n + 1, suffix), DateEdges(lo, n, suffix);
    forall j | 0 <= j <= n ensures (ns + es)[j] == DateNode(lo + j, suffix) {
      assert (ns + es)[j] == ns[j];
    }
  }

  /**
   * After its hi-lo+2 nodes the column holds the hi-lo+1 date edges, the
   * first leaving semester lo, each one to the next semester.
   */
  lemma DateColumnEdges(lo: int, hi: int, suffix: string)
    requires lo <= hi
    ensures |DateColumn(lo, hi, suffix)| == 2 * (hi - lo + 1) + 1
    ensures DateColumn(lo, hi, suffix)[hi - lo + 2..] == DateEdges(lo, hi - lo + 1, suffix)
  {
    var n := hi - lo + 1;
    assert Steps(lo, hi) == n;
    var ns, es := DateNodes(lo, n + 1, suffix), DateEdges(lo, n, suffix);
    assert (ns + es)[|ns|..] == es;
  }

  /** Every semester from lo to hi has its date node in the column. */
  lemma DateNodeInColumn(lo: int, hi: int, suffix: string, s: int)
    requires lo <= s <= hi
    ensures exists i :: (0 <= i < |DateColumn(lo, hi, suffix)| &&
      DateColumn(lo, hi, suffix)[i] == DateNode(s, suffix))
  {
    DateColumnNodes(lo, hi, suffix);
    var c := DateColumn(lo, hi, suffix);
    assert c[s - lo] == DateNode(lo + (s - lo), suffix);
  }

  // ---------------------------------------------------------------------------
  // create_ranks
  // ---------------------------------------------------------------------------

  /** The `ranks` dict: semesters in insertion order, and each one's rank keys. */
  datatype RankDict = RankDict(order: seq<int>, ranks: map<int, seq<string>>)

  /** The dict's order lists each of its keys once. */
  ghost predicate DictOk(d: RankDict) {
    Distinct(d.order) &&
    (forall i :: 0 <= i < |d.order| ==> d.order[i] in d.ranks) &&
    (forall s :: s in d.ranks ==> s in d.order)
  }

  /** The first keys of a semester's rank: its left and right date nodes. */
  function RankHead(s: int): seq<string> {
    [DateKey(s, "L"), DateKey(s, "R")]
  }

  /** One iteration: append the key to its semester's rank, or start that rank. */
  function AddToRank(d: RankDict, s: int, k: string): (r: RankDict)
    ensures DictOk(d) ==> DictOk(r)
  {
    if s in d.ranks then RankDict(d.order, d.ranks[s := d.ranks[s] + [k]])
    else RankDict(d.order + [s], d.ranks[s := RankHead(s) + [k]])
  }

  /**
   * The loop of `create_ranks` over the keys ks, in order: it stops at the
   * first key whose semester cannot be read.
   */
  function Ranks(g: Graph, ks: seq<string>): (r: Result<RankDict, TreeError>)
    requires AllNodes(g, ks)
    ensures r.Ok? ==> DictOk(r.value)
  {
    if ks == [] then Ok(RankDict([], map[]))
    else
      var d :- Ranks(g, ks[..|ks| - 1]);
      var s :- SemAt(g, ks[|ks| - 1]);
      Ok(AddToRank(d, s, ks[|ks| - 1]))
  }

  /** Once the loop fails on a prefix, it fails on the whole with that error. */
  lemma {:induction false} RanksErrPersists(g: Graph, ks: seq<string>, i: nat)
    requires AllNodes(g, ks) && i <= |ks|
    ensures AllNodes(g, ks[..i])
    ensures Ranks(g, ks[..i]).Err? ==> Ranks(g, ks) == Ranks(g, ks[..i])
  {
    if i < |ks| {
      var p := ks[..|ks| - 1];
      assert p[..i] == ks[..i];
      RanksErrPersists(g, p, i);
    } else {
      assert ks[..i] == ks;
    }
  }

  /** One turn of the ranks loop: the key at i joins its rank, or its error ends the pass. */
  lemma RanksStep(g: Graph, ks: seq<string>, i: nat)
    requires AllNodes(g, ks) && i < |ks|
    ensures AllNodes(g, ks[..i]) && AllNodes(g, ks[..i + 1])
    ensures Ranks(g, ks[..i]).Ok? && SemAt(g, ks[i]).Ok? ==>
      Ranks(g, ks[..i + 1]) == Ok(AddToRank(Ranks(g, ks[..i]).value, SemAt(g, ks[i]).value, ks[i]))
    ensures Ranks(g, ks[..i]).Ok? && SemAt(g, ks[i]).Err? ==> Ranks(g, ks) == Err(SemAt(g, ks[i]).error)
  {
    var q := ks[..i + 1];
    assert q[..|q| - 1] == ks[..i] && q[|q| - 1] == ks[i];
    RanksErrPersists(g, ks, i + 1);
  }

  /** `list(ranks.values())`: one rank per semester, in insertion order. */
  function RankItems(d: RankDict): (r: seq<DotItem>)
    requires DictOk(d)
    ensures |r| == |d.order|
    ensures forall i :: 0 <= i < |r| ==> r[i] == Rank(d.ranks[d.order[i]])
  {
    seq(|d.order|, i requires 0 <= i < |d.order| => Rank(d.ranks[d.order[i]]))
  }

  /** `create_ranks()`: `list(ranks.values())`, in the graph's node order. */
  function CreateRanks(g: Graph): (r: Result<seq<DotItem>, TreeError>)
    requires AllNodes(g, g.keys)
  {
    var d :- Ranks(g, g.keys);
    Ok(RankItems(d))
  }

  /** The semesters of the dated keys of ks, each where it first occurs. */
  function RankOrder(g: Graph, ks: seq<string>): seq<int>
    requires AllNodes(g, ks)
  {
    if ks == [] then []
    else
      var p := RankOrder(g, ks[..|ks| - 1]);
      match SemAt(g, ks[|ks| - 1])
      case Ok(s) => if s in p then p else p + [s]
      case Err(_) => p
  }

  /** The keys of ks of semester s, in order. */
  function KeysIn(g: Graph, ks: seq<string>, s: int): seq<string>
    requires AllNodes(g, ks)
  {
    if ks == [] then []
    else KeysIn(g, ks[..|ks| - 1], s) + (if SemAt(g, ks[|ks| - 1]) == Ok(s) then [ks[|ks| - 1]] else [])
  }

  /** How RankOrder and KeysIn grow by one key. */
  lemma SnocUnfold(g: Graph, p: seq<string>, k: string)
    requires AllNodes(g, p) && k in g.nodes
    ensures AllNodes(g, p + [k])
    ensures RankOrder(g, p + [k]) ==
      if SemAt(g, k).Err? || SemAt(g, k).value in RankOrder(g, p) then RankOrder(g, p)
      else RankOrder(g, p) + [SemAt(g, k).value]
    ensures forall t :: KeysIn(g, p + [k], t) == KeysIn(g, p, t) + (if SemAt(g, k) == Ok(t) then [k] else [])
  {
    var q := p + [k];
    assert q[..|q| - 1] == p && q[|q| - 1] == k;
    assert AllNodes(g, q);
  }

  /** No semester is listed twice. */
  lemma {:induction false} RankOrderDistinct(g: Graph, ks: seq<string>)
    requires AllNodes(g, ks)
    ensures Distinct(RankOrder(g, ks))
  {
    if ks != [] {
      var p := ks[..|ks| - 1];
      assert ks == p + [ks[|ks| - 1]];
      RankOrderDistinct(g, p);
      SnocUnfold(g, p, ks[|ks| - 1]);
    }
  }

  /** A semester is listed exactly when some key of ks has it. */
  lemma {:induction false} RankOrderHas(g: Graph, ks: seq<string>, s: int)
    requires AllNodes(g, ks)
    ensures s in RankOrder(g, ks) <==> KeysIn(g, ks, s) != []
  {
    if ks != [] {
      var p := ks[..|ks| - 1];
      assert ks == p + [ks[|ks| - 1]];
      RankOrderHas(g, p, s);
      SnocUnfold(g, p, ks[|ks| - 1]);
    }
  }

  /** A semester's keys are exactly the keys of ks with that semester. */
  lemma {:induction false} KeysInMembers(g: Graph, ks: seq<string>, s: int, k: string)
    requires AllNodes(g, ks)
    ensures k in KeysIn(g, ks, s) <==> k in ks && k in g.nodes && SemAt(g, k) == Ok(s)
  {
    if ks != [] {
      var p := ks[..|ks| - 1];
      assert ks == p + [ks[|ks| - 1]];
      KeysInMembers(g, p, s, k);
      SnocUnfold(g, p, ks[|ks| - 1]);
    }
  }

  /**
   * The loop fails exactly when some key is undated, with that key's error.
   */
  lemma {:induction false} RanksOk(g: Graph, ks: seq<string>)
    requires AllNodes(g, ks)
    ensures Ranks(g, ks).Ok? <==> AllDated(g, ks)
    ensures Ranks(g, ks).Err? ==> ErrorOfSome(g, ks, Ranks(g, ks).error)
  {
    if ks != [] {
      var p := ks[..|ks| - 1];
      var k := ks[|ks| - 1];
      assert ks == p + [k];
      RanksOk(g, p);
      AllDatedSnoc(g, p, k);
      SomeSnoc(g, p, k);
    }
  }

  /** When the loop succeeds, its dict lists the semesters in the order they first occur. */
  lemma {:induction false} RanksOrder(g: Graph, ks: seq<string>)
    requires AllNodes(g, ks)
    ensures Ranks(g, ks).Ok? ==> Ranks(g, ks).value.order == RankOrder(g, ks)
  {
    if ks != [] {
      var p := ks[..|ks| - 1];
      var k := ks[|ks| - 1];
      assert ks == p + [k];
      RanksOrder(g, p);
      SnocUnfold(g, p, k);
    }
  }

  /** One iteration keeps each rank equal to its head followed by its keys so far. */
  lemma AddToRankContents(d: RankDict, s: int, k: string, t: int, before: seq<string>, after: seq<string>)
    requires t in d.ranks <==> before != []
    requires t in d.ranks ==> d.ranks[t] == RankHead(t) + before
    requires after == before + (if s == t then [k] else [])
    ensures t in AddToRank(d, s, k).ranks <==> after != []
    ensures t in AddToRank(d, s, k).ranks ==> AddToRank(d, s, k).ranks[t] == RankHead(t) + after
  {
    if s == t && t in d.ranks {
      assert (RankHead(t) + before) + [k] == RankHead(t) + (before + [k]);
    }
  }

  /**
   * When the loop succeeds, a semester has a rank exactly when some key has
   * it, and the rank is its two date keys followed by the keys of that
   * semester in order.
   */
  lemma {:induction false} RanksContents(g: Graph, ks: seq<string>, t: int)
    requires AllNodes(g, ks)
    ensures Ranks(g, ks).Ok? ==> (t in Ranks(g, ks).value.ranks <==> KeysIn(g, ks, t) != [])
    ensures Ranks(g, ks).Ok? && t in Ranks(g, ks).value.ranks ==>
      Ranks(g, ks).value.ranks[t] == RankHead(t) + KeysIn(g, ks, t)
  {
    if ks != [] {
      var p := ks[..|ks| - 1];
      var k := ks[|ks| - 1];
      assert ks == p + [k];
      RanksContents(g, p, t);
      SnocUnfold(g, p, k);
      if Ranks(g, ks).Ok? {
        var d := Ranks(g, p).value;
        var s := SemAt(g, k).value;
        assert Ranks(g, ks).value == AddToRank(d, s, k);
        AddToRankContents(d, s, k, t, KeysIn(g, p, t), KeysIn(g, ks, t));
      }
    }
  }

  /**
   * `create_ranks` succeeds exactly when every node is dated (failing
   * otherwise with one node's getter error); it then gives one rank per
   * semester, in the order the semesters first occur among the nodes, holding
   * that semester's two date keys and then the nodes of that semester in
   * node order.
   */
  lemma CreateRanksSpec(g: Graph)
    requires AllNodes(g, g.keys)
    ensures CreateRanks(g).Ok? <==> AllDated(g, g.keys)
    ensures CreateRanks(g).Err? ==> ErrorOfSome(g, g.keys, CreateRanks(g).error)
    ensures CreateRanks(g).Ok? ==>
      |CreateRanks(g).value| == |RankOrder(g, g.keys)| &&
      forall i :: 0 <= i < |CreateRanks(g).value| ==>
        CreateRanks(g).value[i] ==
        Rank(RankHead(RankOrder(g, g.keys)[i]) + KeysIn(g, g.keys, RankOrder(g, g.keys)[i]))
  {
    RanksOk(g, g.keys);
    RanksOrder(g, g.keys);
    if CreateRanks(g).Ok? {
      var d := Ranks(g, g.keys).value;
      forall i | 0 <= i < |d.order|
        ensures CreateRanks(g).value[i] == Rank(RankHead(d.order[i]) + KeysIn(g, g.keys, d.order[i]))
      {
        RanksContents(g, g.keys, d.order[i]);
      }
      RanksContents(g, g.keys, 0);
    }
  }

  // ---------------------------------------------------------------------------
  // create_tree_subgraph, to_dot_graph
  // ---------------------------------------------------------------------------

  /** The Graphviz defaults the settings give the output. */
  datatype DotDefaults = DotDefaults(
    graphAll: Attrs, nodeAll: Attrs, edgeAll: Attrs,
    nodeSemester: Attrs, edgeSemester: Attrs, nodeMember: Attrs)

  /** `create_tree_subgraph('members')`: member defaults, then nodes and edges in printing order. */
  ghost function TreeSubgraph(g: Graph, perm: seq<nat>, memberDefaults: Attrs): DotItem
    requires FitsComponents(g, perm)
  {
    var ns := OrderedNodes(g, perm);
    var es := OrderedEdges(g);
    DotItem.Graph("members", "subgraph", map[],
          [Defaults("node", memberDefaults)] +
          seq(|ns|, i requires 0 <= i < |ns| => Node(ns[i].0, ns[i].1.dotAttributes)) +
          seq(|es|, i requires 0 <= i < |es| => Edge(es[i].0, es[i].1, es[i].2)))
  }

  /** `to_dot_graph()`: the date columns and ranks are added only with the `semesters` flag. */
  ghost function ToDotGraph(g: Graph, perm: seq<nat>, d: DotDefaults, semesters: bool): Result<DotItem, TreeError>
    requires FitsComponents(g, perm) && AllNodes(g, g.keys)
  {
    var tree := TreeSubgraph(g, perm, d.nodeMember);
    var head := [Defaults("node", d.nodeAll), Defaults("edge", d.edgeAll)];
    if semesters then
      var b :- Bounds(g, g.keys);
      var ranks :- CreateRanks(g);
      Ok(DotItem.Graph("family_tree", "digraph", d.graphAll,
               head + [DateSubgraph("L", b, d.nodeSemester, d.edgeSemester), tree,
                       DateSubgraph("R", b, d.nodeSemester, d.edgeSemester)] + ranks))
    else
      Ok(DotItem.Graph("family_tree", "digraph", d.graphAll, head + [tree]))
  }

  /** The rank starts with the two date keys of a semester that both date columns hold. */
  ghost predicate RankAnchored(r: DotItem, lo: int, hi: int) {
    r.Rank? && |r.keys| >= 2 &&
    exists s :: (lo <= s <= hi && r.keys[..2] == [DateKey(s, "L"), DateKey(s, "R")] &&
      DateNode(s, "L") in DateColumn(lo, hi, "L") && DateNode(s, "R") in DateColumn(lo, hi, "R"))
  }

  /**
   * Without the `semesters` flag the output never fails; with it, it fails
   * exactly when some node is undated, with that node's getter error.
   */
  lemma ToDotGraphOk(g: Graph, perm: seq<nat>, d: DotDefaults, semesters: bool)
    requires FitsComponents(g, perm) && AllNodes(g, g.keys)
    ensures ToDotGraph(g, perm, d, semesters).Ok? <==> !semesters || AllDated(g, g.keys)
    ensures ToDotGraph(g, perm, d, semesters).Err? ==>
      ErrorOfSome(g, g.keys, ToDotGraph(g, perm, d, semesters).error)
  {
    BoundsSpec(g, g.keys);
    CreateRanksSpec(g);
  }

  /**
   * In a dated, non-empty tree every rank starts with the two date keys of a
   * semester between the bounds, and both name nodes of the date columns, so
   * each rank lines its members up with a row of dates.
   */
  lemma RanksAnchored(g: Graph)
    requires AllNodes(g, g.keys) && AllDated(g, g.keys) && g.keys != []
    ensures Bounds(g, g.keys).Ok? && Bounds(g, g.keys).value.Some? && CreateRanks(g).Ok?
    ensures forall i :: 0 <= i < |CreateRanks(g).value| ==>
      RankAnchored(CreateRanks(g).value[i], Bounds(g, g.keys).value.value.0, Bounds(g, g.keys).value.value.1)
  {
    BoundsSpec(g, g.keys);
    CreateRanksSpec(g);
    var lo, hi := Bounds(g, g.keys).value.value.0, Bounds(g, g.keys).value.value.1;
    var rs := CreateRanks(g).value;
    var order := RankOrder(g, g.keys);
    forall i | 0 <= i < |rs|
      ensures RankAnchored(rs[i], lo, hi)
    {
      var s := order[i];
      RankOrderHas(g, g.keys, s);
      var k := KeysIn(g, g.keys, s)[0];
      KeysInMembers(g, g.keys, s, k);
      var j :| 0 <= j < |g.keys| && g.keys[j] == k;
      assert lo <= SemAt(g, g.keys[j]).value <= hi;
      DateNodeInColumn(lo, hi, "L", s);
      DateNodeInColumn(lo, hi, "R", s);
      assert rs[i].keys[..2] == RankHead(s);
    }
  }
}
