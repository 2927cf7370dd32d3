/**
 * The second half of the DOT writer (`snutree/writers/dot.py`): turning a
 * decorated tree into a DOT graph, with a column of rank labels on each side
 * and one same-rank group per rank between the tree's rank bounds.
 */
module DotWriterOutput {
  import opened Wrappers
  import opened Text
  import opened Dot
  import opened TreeGraph
  import TO = TreeOutput
  import FT = FamilyTrees
  import W = DotWriter

  // ---------------------------------------------------------------------------
  // create_date_subgraph
  // ---------------------------------------------------------------------------

  /** How many times `while rank < max_rank` runs from lo. */
  function Span(lo: int, hi: int): nat {
    if hi <= lo then 0 else hi - lo
  }

  /**
   * The column of `create_date_subgraph(tree, suffix, lo, hi)`: a node for
   * each rank from lo on while the rank is below hi, then the node of the
   * rank the loop stops at; an edge from each of the first nodes to the next.
   */
  function DateColumn(lo: int, hi: int, suffix: string): seq<DotItem> {
    TO.DateNodes(lo, Span(lo, hi) + 1, suffix) + TO.DateEdges(lo, Span(lo, hi), suffix)
  }

  /** `create_date_subgraph(tree, suffix, min_rank, max_rank, node_defaults, edge_defaults)` */
  function DateSubgraph(suffix: string, lo: int, hi: int, nodeDefaults: Attrs, edgeDefaults: Attrs): DotItem {
    DotItem.Graph("dates" + suffix, "subgraph", map[],
                  [Defaults("node", nodeDefaults), Defaults("edge", edgeDefaults)] + DateColumn(lo, hi, suffix))
  }

  /** The loop of `create_date_subgraph`. */
  method DateColumnLoop(lo: int, hi: int, suffix: string) returns (column: seq<DotItem>)
    ensures column == DateColumn(lo, hi, suffix)
  {
    var ns: seq<DotItem> := [];
    var es: seq<DotItem> := [];
    var rank := lo;
    ghost var n: nat := 0;
    while rank < hi
      invariant rank == lo + n && n <= Span(lo, hi)
      invariant ns == TO.DateNodes(lo, n, suffix) && es == TO.DateEdges(lo, n, suffix)
      decreases hi - rank
    {
      TO.DateColumnGrows(lo, n, rank, suffix);
      ns := ns + [TO.DateNode(rank, suffix)];
      es := es + [TO.DateEdge(rank, suffix)];
      rank, n := rank + 1, n + 1;
    }
    DateColumnEnds(lo, hi, n, rank, suffix);
    column := ns + [TO.DateNode(rank, suffix)] + es;
  }

  /** When the loop stops after n turns, the column is its nodes, the stopping node, then its edges. */
  lemma DateColumnEnds(lo: int, hi: int, n: nat, at: int, suffix: string)
    requires n == Span(lo, hi) && at == lo + n
    ensures DateColumn(lo, hi, suffix) == TO.DateNodes(lo, n, suffix) + [TO.DateNode(at, suffix)] + TO.DateEdges(lo, n, suffix)
  {
    TO.DateColumnGrows(lo, n, at, suffix);
  }

  /** `create_date_subgraph` as the writer runs it. */
  method CreateDateSubgraph(suffix: string, lo: int, hi: int, nodeDefaults: Attrs, edgeDefaults: Attrs)
    returns (item: DotItem)
    ensures item == DateSubgraph(suffix, lo, hi, nodeDefaults, edgeDefaults)
  {
    var column := DateColumnLoop(lo, hi, suffix);
    item := DotItem.Graph("dates" + suffix, "subgraph", map[],
                          [Defaults("node", nodeDefaults), Defaults("edge", edgeDefaults)] + column);
  }

  /**
   * Between lo and hi >= lo the column holds the hi-lo+1 date nodes of the
   * ranks lo to hi, followed by the hi-lo date edges leaving lo to hi-1.
   */
  lemma DateColumnSpec(lo: int, hi: int, suffix: string)
    requires lo <= hi
    ensures var column := DateColumn(lo, hi, suffix);
      |column| == 2 * (hi - lo) + 1 &&
      column[..hi - lo + 1] == TO.DateNodes(lo, hi - lo + 1, suffix) &&
      column[hi - lo + 1..] == TO.DateEdges(lo, hi - lo, suffix)
  {
    var ns, es := TO.DateNodes(lo, hi - lo + 1, suffix), TO.DateEdges(lo, hi - lo, suffix);
    assert DateColumn(lo, hi, suffix) == ns + es;
    assert (ns + es)[..|ns|] == ns && (ns + es)[|ns|..] == es;
  }

  /**
   * Widening the upper bound by one, as `create_dot_graph` does, gives the
   * same column as the older `create_date_subgraph` of `snutree/tree.py`,
   * whose loop runs while the semester is at most the upper bound.
   */
  lemma WidenedColumn(lo: int, hi: int, suffix: string)
    requires lo <= hi
    ensures DateColumn(lo, hi + 1, suffix) == TO.DateColumn(lo, hi, suffix)
  {
    assert Span(lo, hi + 1) == TO.Steps(lo, hi);
  }

  // ---------------------------------------------------------------------------
  // create_ranks
  // ---------------------------------------------------------------------------

  /** The list slot Python's `ranks[i]` reaches in a list of n items: negative indices count from the end. */
  function Slot(i: int, n: nat): (r: Option<nat>)
    ensures r.Some? <==> -(n as int) <= i < n
    ensures r.Some? ==> r.value < n && (r.value == i || r.value == n + i)
  {
    if 0 <= i < n then Some(i)
    else if -(n as int) <= i < 0 then Some(n + i)
    else None
  }

  /** The groups the first loop of `create_ranks` makes: the left and right date keys of each rank from lo on. */
  function RankHeads(lo: int, n: nat): (r: seq<seq<string>>)
    ensures |r| == n
  {
    seq(n, i requires 0 <= i < n => TO.RankHead(lo + i))
  }

  lemma RankHeadsGrow(lo: int, n: nat)
    ensures RankHeads(lo, n + 1) == RankHeads(lo, n) + [TO.RankHead(lo + n)]
  {
    var a, b := RankHeads(lo, n + 1), RankHeads(lo, n) + [TO.RankHead(lo + n)];
    forall i | 0 <= i < n + 1 ensures a[i] == b[i] {
      if i < n {
        assert b[i] == RankHeads(lo, n)[i];
      }
    }
  }

  /**
   * The second loop of `create_ranks(tree, lo, lo + n)` over the keys ks:
   * what it appends to each of the n groups, each key to the group at index
   * `rank - lo`. The rank getter's error, or an `IndexError` for a rank
   * without a slot, stops the pass.
   */
  function Appended(g: Graph, ks: seq<string>, lo: int, n: nat): (r: Result<seq<seq<string>>, W.WriterError>)
    requires TO.AllNodes(g, ks)
    ensures r.Ok? ==> |r.value| == n
  {
    if ks == [] then Ok(seq(n, i => []))
    else
      var tails :- Appended(g, ks[..|ks| - 1], lo, n);
      var k := ks[|ks| - 1];
      var rank :- W.LiftResult(TO.SemAt(g, k));
      match Slot(rank - lo, n)
      case None => Err(W.NoRankSlot(k, rank))
      case Some(j) => Ok(tails[j := tails[j] + [k]])
  }

  /** The rank of every key of ks can be read and lies in [lo, lo + n). */
  predicate RanksWithin(g: Graph, ks: seq<string>, lo: int, n: nat)
    requires TO.AllNodes(g, ks)
  {
    forall i :: 0 <= i < |ks| ==> TO.SemAt(g, ks[i]).Ok? && lo <= TO.SemAt(g, ks[i]).value < lo + n
  }

  /**
   * When every rank lies in [lo, lo + n) the pass succeeds, and the group at
   * index j receives exactly the keys of rank lo+j, in order.
   */
  lemma {:induction false} AppendedSpec(g: Graph, ks: seq<string>, lo: int, n: nat)
    requires TO.AllNodes(g, ks) && RanksWithin(g, ks, lo, n)
    ensures Appended(g, ks, lo, n).Ok?
    ensures forall j :: 0 <= j < n ==> Appended(g, ks, lo, n).value[j] == TO.KeysIn(g, ks, lo + j)
  {
    if ks != [] {
      var p := ks[..|ks| - 1];
      var k := ks[|ks| - 1];
      assert ks == p + [k];
      assert TO.AllNodes(g, p);
      assert RanksWithin(g, p, lo, n) by {
        forall i | 0 <= i < |p| ensures TO.SemAt(g, p[i]).Ok? && lo <= TO.SemAt(g, p[i]).value < lo + n {
          assert p[i] == ks[i];
        }
      }
      AppendedSpec(g, p, lo, n);
      TO.SnocUnfold(g, p, k);
      var s := TO.SemAt(g, k).value;
      assert Slot(s - lo, n) == Some(s - lo);
    }
  }

  /**
   * A rank with no slot is an error: when the pass succeeds, every rank
   * could be read and lies within n of lo on one side or the other.
   */
  lemma {:induction false} AppendedOkOnlyInRange(g: Graph, ks: seq<string>, lo: int, n: nat)
    requires TO.AllNodes(g, ks) && Appended(g, ks, lo, n).Ok?
    ensures forall i :: 0 <= i < |ks| ==> TO.SemAt(g, ks[i]).Ok? && lo - n <= TO.SemAt(g, ks[i]).value < lo + n
  {
    if ks != [] {
      var p := ks[..|ks| - 1];
      assert ks == p + [ks[|ks| - 1]];
      assert TO.AllNodes(g, p);
      AppendedOkOnlyInRange(g, p, lo, n);
      forall i | 0 <= i < |ks| ensures TO.SemAt(g, ks[i]).Ok? && lo - n <= TO.SemAt(g, ks[i]).value < lo + n {
        if i < |p| {
          assert ks[i] == p[i];
        }
      }
    }
  }

  /** Once the pass fails on a prefix of the keys, it fails on all of them with that error. */
  lemma {:induction false} AppendedErrPersists(g: Graph, ks: seq<string>, lo: int, n: nat, i: nat)
    requires TO.AllNodes(g, ks) && i <= |ks|
    ensures TO.AllNodes(g, ks[..i])
    ensures Appended(g, ks[..i], lo, n).Err? ==> Appended(g, ks, lo, n) == Appended(g, ks[..i], lo, n)
  {
    if i < |ks| {
      var p := ks[..|ks| - 1];
      assert p[..i] == ks[..i];
      AppendedErrPersists(g, p, lo, n, i);
    } else {
      assert ks[..i] == ks;
    }
  }

  /** The rank groups: each rank's two date keys, then the keys appended to its group. */
  function RankItems(heads: seq<seq<string>>, tails: seq<seq<string>>): (r: seq<DotItem>)
    requires |heads| == |tails|
    ensures |r| == |tails|
  {
    seq(|tails|, i requires 0 <= i < |tails| => Rank(heads[i] + tails[i]))
  }

  /** The first loop of `create_ranks`: one group per rank while the rank is below hi. */
  method RankHeadsLoop(lo: int, hi: int) returns (heads: seq<seq<string>>)
    ensures heads == RankHeads(lo, Span(lo, hi))
  {
    heads := [];
    var i := lo;
    while i < hi
      invariant i == lo + |heads| && |heads| <= Span(lo, hi)
      invariant heads == RankHeads(lo, |heads|)
      decreases hi - i
    {
      RankHeadsGrow(lo, |heads|);
      heads := heads + [TO.RankHead(i)];
      i := i + 1;
    }
  }

  /** Each group followed by what is appended to it. */
  function Extend(heads: seq<seq<string>>, tails: seq<seq<string>>): (r: seq<seq<string>>)
    requires |heads| == |tails|
    ensures |r| == |heads|
  {
    seq(|heads|, i requires 0 <= i < |heads| => heads[i] + tails[i])
  }

  /** One more key: the pass over ks[..j+1] continues the pass over ks[..j]. */
  lemma AppendedStep(g: Graph, ks: seq<string>, lo: int, n: nat, j: nat)
    requires TO.AllNodes(g, ks) && j < |ks|
    ensures TO.AllNodes(g, ks[..j]) && TO.AllNodes(g, ks[..j + 1])
    ensures Appended(g, ks[..j + 1], lo, n) ==
      match Appended(g, ks[..j], lo, n)
      case Err(e) => Err(e)
      case Ok(tails) =>
        match TO.SemAt(g, ks[j])
        case Err(e) => Err(W.Lift(e))
        case Ok(rank) =>
          match Slot(rank - lo, n)
          case None => Err(W.NoRankSlot(ks[j], rank))
          case Some(x) => Ok(tails[x := tails[x] + [ks[j]]])
  {
    assert ks[..j + 1][..j] == ks[..j] && ks[..j + 1][j] == ks[j];
  }

  /** Appending a key to one group keeps the groups in step with what was appended. */
  lemma ExtendStep(heads: seq<seq<string>>, tails: seq<seq<string>>, x: nat, k: string)
    requires |heads| == |tails| && x < |heads|
    ensures Extend(heads, tails)[x := Extend(heads, tails)[x] + [k]] == Extend(heads, tails[x := tails[x] + [k]])
  {
    var a, b := Extend(heads, tails)[x := Extend(heads, tails)[x] + [k]], Extend(heads, tails[x := tails[x] + [k]]);
    forall i | 0 <= i < |heads| ensures a[i] == b[i] {
      if i == x {
        assert a[i] == heads[i] + tails[i] + [k];
      }
    }
  }

  /** The second loop of `create_ranks`: each node's key appended to the group of its rank. */
  method AppendKeys(tree: FT.FamilyTree, lo: int, heads: seq<seq<string>>) returns (r: Result<seq<seq<string>>, W.WriterError>)
    requires tree.Valid()
    ensures TO.AllNodes(tree.State(), tree.keys)
    ensures match Appended(tree.State(), tree.keys, lo, |heads|)
      case Ok(tails) => r == Ok(Extend(heads, tails))
      case Err(e) => r == Err(e)
  {
    tree.KeysAreNodes();
    ghost var g := tree.State();
    ghost var n := |heads|;
    var groups := heads;
    var ks := tree.keys;
    ghost var tails: seq<seq<string>> := seq(n, i => []);
    assert groups == Extend(heads, tails) by {
      forall i | 0 <= i < n ensures heads[i] == heads[i] + tails[i] {
        assert tails[i] == [];
      }
    }
    var j := 0;
    while j < |ks|
      invariant 0 <= j <= |ks|
      invariant TO.AllNodes(g, ks[..j])
      invariant Appended(g, ks[..j], lo, n) == Ok(tails)
      invariant |tails| == n && groups == Extend(heads, tails)
    {
      var k := ks[j];
      AppendedStep(g, ks, lo, n, j);
      var rank := SemesterOf(tree.nodes[k].entity);
      if rank.Err? {
        AppendedErrPersists(g, ks, lo, n, j + 1);
        return Err(W.Lift(rank.error));
      }
      var slot := Slot(rank.value - lo, |groups|);
      if slot.None? {
        AppendedErrPersists(g, ks, lo, n, j + 1);
        return Err(W.NoRankSlot(k, rank.value));
      }
      var x := slot.value;
      ExtendStep(heads, tails, x, k);
      groups := groups[x := groups[x] + [k]];
      tails := tails[x := tails[x] + [k]];
      j := j + 1;
    }
    assert ks[..|ks|] == ks;
    return Ok(groups);
  }

  /** `create_ranks(tree, min_rank, max_rank)` on the tree object. */
  method CreateRanks(tree: FT.FamilyTree, lo: int, hi: int) returns (r: Result<seq<DotItem>, W.WriterError>)
    requires tree.Valid()
    ensures TO.AllNodes(tree.State(), tree.keys)
    ensures match Appended(tree.State(), tree.keys, lo, Span(lo, hi))
      case Ok(tails) => r == Ok(RankItems(RankHeads(lo, Span(lo, hi)), tails))
      case Err(e) => r == Err(e)
  {
    var heads := RankHeadsLoop(lo, hi);
    var groups := AppendKeys(tree, lo, heads);
    if groups.Err? {
      return Err(groups.error);
    }
    r := Ok(seq(|groups.value|, m requires 0 <= m < |groups.value| => Rank(groups.value[m])));
    if Appended(tree.State(), tree.keys, lo, Span(lo, hi)).Ok? {
      var tails := Appended(tree.State(), tree.keys, lo, Span(lo, hi)).value;
      assert r.value == RankItems(heads, tails);
    }
  }

  // ---------------------------------------------------------------------------
  // create_dot_graph
  // ---------------------------------------------------------------------------

  /**
   * `create_dot_graph(tree, ranks, defaults)`, around the members subgraph
   * that `create_tree_subgraph` makes. With ranks on, the upper rank bound is
   * widened by one so that the highest rank gets a slot. An empty tree has
   * no bounds: the source's infinite sentinels give one date node and no
   * rank group.
   */
  function DotGraph(g: Graph, members: DotItem, d: TO.DotDefaults, ranks: bool): Result<DotItem, W.WriterError>
    requires TO.AllNodes(g, g.keys)
  {
    var head := [Defaults("node", d.nodeAll), Defaults("edge", d.edgeAll)];
    if !ranks then
      Ok(DotItem.Graph("family_tree", "digraph", d.graphAll, head + [members]))
    else
      var b :- W.LiftResult(TO.Bounds(g, g.keys));
      match b
      case None =>
        Ok(DotItem.Graph("family_tree", "digraph", d.graphAll,
                         head + [TO.DateSubgraph("L", None, d.nodeSemester, d.edgeSemester), members,
                                 TO.DateSubgraph("R", None, d.nodeSemester, d.edgeSemester)]))
      case Some((lo, hi)) =>
        var tails :- Appended(g, g.keys, lo, Span(lo, hi + 1));
        Ok(DotItem.Graph("family_tree", "digraph", d.graphAll,
                         head + [DateSubgraph("L", lo, hi + 1, d.nodeSemester, d.edgeSemester), members,
                                 DateSubgraph("R", lo, hi + 1, d.nodeSemester, d.edgeSemester)] +
                         RankItems(RankHeads(lo, Span(lo, hi + 1)), tails)))
  }

  /** `create_dot_graph` with the members in printing order. */
  ghost function CreateDotGraph(g: Graph, perm: seq<nat>, d: TO.DotDefaults, ranks: bool): Result<DotItem, W.WriterError>
    requires TO.FitsComponents(g, perm) && TO.AllNodes(g, g.keys)
  {
    DotGraph(g, TO.TreeSubgraph(g, perm, d.nodeMember), d, ranks)
  }

  /** Without ranks the graph is always made; with ranks, exactly when every node's rank can be read. */
  lemma DotGraphOk(g: Graph, members: DotItem, d: TO.DotDefaults, ranks: bool)
    requires TO.AllNodes(g, g.keys)
    ensures DotGraph(g, members, d, ranks).Ok? <==> !ranks || TO.AllDated(g, g.keys)
  {
    TO.BoundsSpec(g, g.keys);
    if ranks && TO.Bounds(g, g.keys).Ok? && TO.Bounds(g, g.keys).value.Some? {
      var (lo, hi) := TO.Bounds(g, g.keys).value.value;
      assert RanksWithin(g, g.keys, lo, Span(lo, hi + 1));
      AppendedSpec(g, g.keys, lo, Span(lo, hi + 1));
    }
  }

  /** The keys of each rank from lo to lo+n-1, in node order. */
  function KeysByRank(g: Graph, lo: int, n: nat): (r: seq<seq<string>>)
    requires TO.AllNodes(g, g.keys)
    ensures |r| == n
  {
    seq(n, j requires 0 <= j < n => TO.KeysIn(g, g.keys, lo + j))
  }

  /** With every rank in [lo, lo + n), the pass appends to each group the keys of its rank. */
  lemma AppendedByRank(g: Graph, lo: int, n: nat)
    requires TO.AllNodes(g, g.keys) && RanksWithin(g, g.keys, lo, n)
    ensures Appended(g, g.keys, lo, n) == Ok(KeysByRank(g, lo, n))
  {
    AppendedSpec(g, g.keys, lo, n);
    var a, b := Appended(g, g.keys, lo, n).value, KeysByRank(g, lo, n);
    forall j | 0 <= j < n ensures a[j] == b[j] {
    }
    assert a == b;
  }

  /** The widened date subgraph is the one `snutree/tree.py` draws for the same bounds. */
  lemma WidenedSubgraph(suffix: string, lo: int, hi: int, nodeDefaults: Attrs, edgeDefaults: Attrs)
    requires lo <= hi
    ensures DateSubgraph(suffix, lo, hi + 1, nodeDefaults, edgeDefaults) ==
      TO.DateSubgraph(suffix, Some((lo, hi)), nodeDefaults, edgeDefaults)
  {
    WidenedColumn(lo, hi, suffix);
  }

  /** The bounds of a tree's ranks span every rank: hi - lo + 1 ranks from lo. */
  lemma BoundsSpan(g: Graph, lo: int, hi: int)
    requires TO.AllNodes(g, g.keys)
    requires TO.Bounds(g, g.keys) == Ok(Some((lo, hi)))
    ensures lo <= hi && Span(lo, hi + 1) == hi - lo + 1
    ensures RanksWithin(g, g.keys, lo, hi - lo + 1)
  {
    TO.BoundsSpec(g, g.keys);
    assert g.keys != [];
    assert lo <= TO.SemAt(g, g.keys[0]).value <= hi;
  }

  /**
   * With ranks on a tree whose ranks can all be read and lie between lo and
   * hi, the widened bound leaves no key without a slot: after the defaults
   * come the date column that `snutree/tree.py` draws for the bounds, the
   * members, the other date column, and one group per rank from lo to hi,
   * holding that rank's two date keys and then every key of that rank.
   */
  lemma DotGraphRanks(g: Graph, members: DotItem, d: TO.DotDefaults, lo: int, hi: int)
    requires TO.AllNodes(g, g.keys)
    requires TO.Bounds(g, g.keys) == Ok(Some((lo, hi)))
    ensures lo <= hi
    ensures DotGraph(g, members, d, true) ==
      Ok(DotItem.Graph("family_tree", "digraph", d.graphAll,
                       [Defaults("node", d.nodeAll), Defaults("edge", d.edgeAll),
                        TO.DateSubgraph("L", Some((lo, hi)), d.nodeSemester, d.edgeSemester),
                        members,
                        TO.DateSubgraph("R", Some((lo, hi)), d.nodeSemester, d.edgeSemester)] +
                       RankItems(RankHeads(lo, hi - lo + 1), KeysByRank(g, lo, hi - lo + 1))))
  {
    BoundsSpan(g, lo, hi);
    var n := Span(lo, hi + 1);
    AppendedByRank(g, lo, n);
    var head := [Defaults("node", d.nodeAll), Defaults("edge", d.edgeAll)];
    var left, right := DateSubgraph("L", lo, hi + 1, d.nodeSemester, d.edgeSemester),
                       DateSubgraph("R", lo, hi + 1, d.nodeSemester, d.edgeSemester);
    assert DotGraph(g, members, d, true) ==
      Ok(DotItem.Graph("family_tree", "digraph", d.graphAll,
                       head + [left, members, right] + RankItems(RankHeads(lo, n), KeysByRank(g, lo, n))));
    WidenedSubgraph("L", lo, hi, d.nodeSemester, d.edgeSemester);
    WidenedSubgraph("R", lo, hi, d.nodeSemester, d.edgeSemester);
    assert head + [left, members, right] == [head[0], head[1], left, members, right];
  }
}
