/**
 * The DOT writer (`snutree/writers/dot.py`): free functions over a tree
 * object that reset and then decorate its DOT attributes, and that turn the
 * decorated tree into a DOT graph with a column of rank labels on each side
 * and one same-rank group per rank.
 *
 * The writer calls a tree API that `snutree/tree.py` does not define
 * (`add_entity` with attributes, `add_edges`, `singletons`, `orphans`,
 * `remove`, `get_rank_bounds`, `entity.rank`, `entity.label`). The tree
 * object here is `FamilyTrees.FamilyTree`, each call is given the meaning
 * of the nearest operation `snutree/tree.py` does have, and ranks are
 * semesters. `entity.label` has no counterpart at all: see `Label`.
 */
module DotWriter {
  import opened Wrappers
  import opened Text
  import opened Dot
  import opened TreeGraph
  import D = Digraph
  import CP = ColorPicker
  import TO = TreeOutput
  import Sem = Semester
  import FT = FamilyTrees

  /** What the writer's passes raise. */
  datatype WriterError =
    /** `SnutreeWriterError`: a custom path ("path" when longer than two keys, else "edge") names a key not on the tree. */
    | UndefinedNode(pathType: string, nodes: seq<string>, key: string)
    /** `SnutreeWriterError`: a family is given a colour a second time. */
    | ColorConflict(key: string, color: string)
    /** `IndexError`: the rank of a node has no slot among the rank groups. */
    | NoRankSlot(key: string, rank: int)
    /** An error raised by the tree itself. */
    | FromTree(error: TreeError)

  /** A tree step's error as the writer raises it: the checks the writer makes itself raise its own error. */
  function Lift(e: TreeError): WriterError {
    match e
    case UnknownEdgeComponent(t, p, k) => UndefinedNode(t, p, k)
    case FamilyColorConflict(k, c) => ColorConflict(k, c)
    case _ => FromTree(e)
  }

  function LiftResult<T>(r: Result<T, TreeError>): Result<T, WriterError> {
    match r
    case Ok(v) => Ok(v)
    case Err(e) => Err(Lift(e))
  }

  /**
   * A pass's outcome agrees with the function that specifies it: the same
   * error, or success with the tree now holding the function's graph.
   */
  ghost predicate Reflects(r: Result<(), WriterError>, spec: Result<Graph, WriterError>, now: Graph) {
    (r.Ok? <==> spec.Ok?) &&
    (r.Err? ==> r.error == spec.error) &&
    (spec.Ok? && r.Ok? ==> now == spec.value)
  }

  // ---------------------------------------------------------------------------
  // decorate: the base attributes
  // ---------------------------------------------------------------------------

  /**
   * `entity.label`, which no entity class defines: a member is taken to be
   * labelled by its `get_dot_label()`, the label its own DOT attributes
   * carry, and a custom entity, which has no label, by its key.
   */
  function Label(e: TreeEntity): (l: string)
    ensures e.Member? ==> DotAttributesOf(e) == map["label" := Text(l)]
    ensures e.Custom? ==> l == e.key
  {
    match e
    case Member(_, _, _, l) => l
    case Custom(k, _, _) => k
  }

  /** A node whose attributes are only its label. */
  function Relabelled(n: NodeData): NodeData {
    n.(dotAttributes := map["label" := Text(Label(n.entity))])
  }

  /** The start of `decorate`: every node's attributes become its label alone, every edge's none. */
  function BaseAttributes(g: Graph): Graph {
    g.(nodes := map k | k in g.nodes :: Relabelled(g.nodes[k]), edges := map e | e in g.edges :: map[])
  }

  /**
   * After the reset each node carries exactly its label and each edge no
   * attribute; keys, entities, families and edges themselves stay, and the
   * tree stays well formed.
   */
  lemma BaseAttributesSpec(g: Graph)
    requires WellFormed(g)
    ensures var r := BaseAttributes(g);
      WellFormed(r) && r.keys == g.keys && r.nodes.Keys == g.nodes.Keys &&
      r.edges.Keys == g.edges.Keys && r.familyColor == g.familyColor &&
      (forall k :: k in r.nodes ==>
        r.nodes[k].entity == g.nodes[k].entity && r.nodes[k].family == g.nodes[k].family &&
        r.nodes[k].dotAttributes == map["label" := Text(Label(g.nodes[k].entity))]) &&
      (forall e :: e in r.edges ==> r.edges[e] == map[])
  {
    var r := BaseAttributes(g);
    assert r.nodes.Keys == g.nodes.Keys && r.edges.Keys == g.edges.Keys;
    forall k | k in r.nodes
      ensures r.nodes[k].entity == g.nodes[k].entity && r.nodes[k].family == g.nodes[k].family
    {
    }
    assert WellFormed(r);
  }

  /** The first loop of `decorate`: each node, in key order, keeps only its label. */
  method RelabelNodes(nodes: map<string, NodeData>, ks: seq<string>) returns (r: map<string, NodeData>)
    requires forall k :: k in nodes <==> k in ks
    ensures r == map k | k in nodes :: Relabelled(nodes[k])
  {
    r := nodes;
    var i := 0;
    while i < |ks|
      invariant 0 <= i <= |ks|
      invariant r.Keys == nodes.Keys
      invariant forall k :: k in r ==> r[k] == if k in ks[..i] then Relabelled(nodes[k]) else nodes[k]
    {
      var k := ks[i];
      assert ks[..i + 1] == ks[..i] + [k];
      r := r[k := Relabelled(r[k])];
      i := i + 1;
    }
    assert ks[..|ks|] == ks;
  }

  /** The two loops at the start of `decorate`. */
  method SetBaseAttributes(tree: FT.FamilyTree)
    requires tree.Valid()
    modifies tree
    ensures tree.State() == BaseAttributes(old(tree.State()))
  {
    var nodes := RelabelNodes(tree.nodes, tree.keys);
    tree.nodes := nodes;
    tree.edges := map e | e in tree.edges :: map[];
  }

  // ---------------------------------------------------------------------------
  // add_custom_nodes, add_custom_edges
  // ---------------------------------------------------------------------------

  /** `add_custom_nodes(tree, nodes)`: a custom entity with its attributes for each entry. */
  method AddCustomNodes(tree: FT.FamilyTree, nodes: seq<CustomNode>) returns (r: Result<(), WriterError>)
    modifies tree
    ensures Reflects(r, LiftResult(AddEntities(old(tree.State()), CustomEntities(nodes))), tree.State())
  {
    ghost var es := CustomEntities(nodes);
    var i := 0;
    while i < |nodes|
      invariant 0 <= i <= |nodes|
      invariant AddEntities(old(tree.State()), es) == AddEntities(tree.State(), es[i..])
    {
      assert es[i..][1..] == es[i + 1..];
      var added := tree.AddEntity(Custom(nodes[i].key, nodes[i].semester, nodes[i].attributes));
      if added.Err? {
        return Err(Lift(added.error));
      }
      i := i + 1;
    }
    return Ok(());
  }

  /**
   * `add_custom_edges(tree, paths)`: each path's keys are all checked before
   * its consecutive pairs are added with the path's attributes.
   */
  method AddCustomEdges(tree: FT.FamilyTree, paths: seq<Path>) returns (r: Result<(), WriterError>)
    modifies tree
    ensures Reflects(r, LiftResult(AddPaths(old(tree.State()), paths)), tree.State())
  {
    var i := 0;
    while i < |paths|
      invariant 0 <= i <= |paths|
      invariant AddPaths(old(tree.State()), paths) == AddPaths(tree.State(), paths[i..])
    {
      assert paths[i..][1..] == paths[i + 1..];
      var ks := paths[i].nodes;
      var missing := FindMissing(tree.State(), ks);
      if missing.Some? {
        var pathOrEdge := if |ks| > 2 then "path" else "edge";
        return Err(UndefinedNode(pathOrEdge, ks, missing.value));
      }
      tree.edges := AddPairs(tree.edges, ks, paths[i].attributes);
      i := i + 1;
    }
    return Ok(());
  }

  /** The loop over a path's keys that stops at the first one not on the tree. */
  method FindMissing(g: Graph, ks: seq<string>) returns (m: Option<string>)
    ensures m == FirstMissing(g, ks)
  {
    var j := 0;
    while j < |ks|
      invariant 0 <= j <= |ks|
      invariant FirstMissing(g, ks) == FirstMissing(g, ks[j..])
    {
      assert ks[j..][1..] == ks[j + 1..];
      if ks[j] !in g.nodes {
        return Some(ks[j]);
      }
      j := j + 1;
    }
    return None;
  }

  // ---------------------------------------------------------------------------
  // remove_singleton_members
  // ---------------------------------------------------------------------------

  /**
   * `singleton.is_ranked() and singleton.rank`: the rank, or `False` (which
   * compares like 0) when the rank cannot be read.
   */
  function RankOrFalse(g: Graph, k: string): int
    requires k in g.nodes
  {
    match SemesterOf(g.nodes[k].entity)
    case Ok(s) => s
    case Err(_) => 0
  }

  /** The dropped singleton k is reported: a `warn_rank` is set and is at most k's rank. */
  predicate Warns(g: Graph, warnRank: Option<int>, k: string)
    requires k in g.nodes
  {
    warnRank.Some? && warnRank.value <= RankOrFalse(g, k)
  }

  /** The keys of ss that are reported when dropped, in order. */
  function Warned(g: Graph, ss: seq<string>, warnRank: Option<int>): seq<string>
    requires forall k :: k in ss ==> k in g.nodes
    decreases |ss|
  {
    if |ss| == 0 then []
    else
      var last := ss[|ss| - 1];
      assert forall k :: k in ss[..|ss| - 1] ==> k in ss;
      Warned(g, ss[..|ss| - 1], warnRank) + (if Warns(g, warnRank, last) then [last] else [])
  }

  /** A key is reported exactly when it is among the dropped keys and its rank reaches `warn_rank`. */
  lemma {:induction false} WarnedSpec(g: Graph, ss: seq<string>, warnRank: Option<int>)
    requires forall k :: k in ss ==> k in g.nodes
    ensures forall k :: k in Warned(g, ss, warnRank) <==> k in ss && Warns(g, warnRank, k)
    decreases |ss|
  {
    if |ss| > 0 {
      var p := ss[..|ss| - 1];
      assert ss == p + [ss[|ss| - 1]];
      WarnedSpec(g, p, warnRank);
    }
  }

  /**
   * The warnings never keep a singleton: every reported key is a singleton
   * whose rank reaches `warn_rank`, and it is gone after the pass whatever
   * `warn_rank` is; the unranked compare like rank 0.
   */
  lemma SingletonWarnings(g: Graph, warnRank: Option<int>)
    requires WellFormed(g)
    ensures forall k :: k in g.nodes && IsSingleton(g, k) ==> k in Singletons(g, g.keys)
    ensures forall k :: k in Warned(g, Singletons(g, g.keys), warnRank) <==>
      k in g.nodes && IsSingleton(g, k) && Warns(g, warnRank, k)
    ensures forall k :: k in Warned(g, Singletons(g, g.keys), warnRank) ==> k !in RemoveSingletonsFrom(g).nodes
    ensures forall k :: k in g.nodes && SemesterOf(g.nodes[k].entity).Err? ==>
      (Warns(g, warnRank, k) <==> warnRank.Some? && warnRank.value <= 0)
  {
    var ss := Singletons(g, g.keys);
    WarnedSpec(g, ss, warnRank);
    RemoveSingletonsSpec(g);
  }

  /** `tree.singletons()`: the member keys of ks without edges, in order. */
  method SingletonKeys(g: Graph, ks: seq<string>) returns (singletons: seq<string>)
    ensures singletons == Singletons(g, ks)
  {
    singletons := [];
    var i := 0;
    while i < |ks|
      invariant 0 <= i <= |ks|
      invariant singletons == Singletons(g, ks[..i])
    {
      assert ks[..i + 1][..i] == ks[..i];
      if IsSingleton(g, ks[i]) {
        singletons := singletons + [ks[i]];
      }
      i := i + 1;
    }
    assert ks[..|ks|] == ks;
  }

  /**
   * The loop of `remove_singleton_members` over the singletons: every key is
   * collected for removal, and the ones ranked at or after `warn_rank` are
   * reported (an unranked one counts as rank 0, from `is_ranked() and rank`).
   */
  method CollectSingletons(g: Graph, singletons: seq<string>, warnRank: Option<int>)
    returns (keys: seq<string>, warned: seq<string>)
    requires forall k :: k in singletons ==> k in g.nodes
    ensures keys == singletons && warned == Warned(g, singletons, warnRank)
  {
    keys := [];
    warned := [];
    var j := 0;
    while j < |singletons|
      invariant 0 <= j <= |singletons|
      invariant keys == singletons[..j]
      invariant warned == Warned(g, singletons[..j], warnRank)
    {
      var key := singletons[j];
      assert singletons[..j + 1] == singletons[..j] + [key];
      keys := keys + [key];
      var rank := match SemesterOf(g.nodes[key].entity) case Ok(s) => s case Err(_) => 0;
      if warnRank.Some? && warnRank.value <= rank {
        warned := warned + [key];
      }
      j := j + 1;
    }
    assert singletons[..|singletons|] == singletons;
  }

  /**
   * `remove_singleton_members(tree, warn_rank)`: list the singletons, note
   * the ones to report, then remove them all. The reported keys stand for
   * the logged warnings.
   */
  method RemoveSingletonMembers(tree: FT.FamilyTree, warnRank: Option<int>) returns (warned: seq<string>)
    modifies tree
    ensures tree.State() == RemoveSingletonsFrom(old(tree.State()))
    ensures forall k :: k in Singletons(old(tree.State()), old(tree.keys)) ==> k in old(tree.nodes)
    ensures warned == Warned(old(tree.State()), Singletons(old(tree.State()), old(tree.keys)), warnRank)
  {
    var singletons := SingletonKeys(tree.State(), tree.keys);
    var keys;
    keys, warned := CollectSingletons(tree.State(), singletons, warnRank);
    var S := set k | k in keys;
    tree.keys, tree.nodes := Without(tree.keys, S), map k | k in tree.nodes && k !in S :: tree.nodes[k];
  }

  // ---------------------------------------------------------------------------
  // add_colors
  // ---------------------------------------------------------------------------

  /**
   * The writer's second colouring loop over the keys ks: a node with a
   * family wears its family's colour, the family first drawing the picker's
   * next colour if it has none; a node without a family is skipped.
   */
  function ColorFamilyNodes(g: Graph, p: CP.Picker, ks: seq<string>): (r: (Graph, CP.Picker))
    requires |p.colors| > 0
    ensures |r.1.colors| == |p.colors|
    decreases |ks|
  {
    if |ks| == 0 then (g, p)
    else
      var k := ks[0];
      if k in g.nodes && g.nodes[k].family.Some? then
        var st := ColorMember(g, p, k, g.nodes[k].family.value);
        ColorFamilyNodes(st.0, st.1, ks[1..])
      else ColorFamilyNodes(g, p, ks[1..])
  }

  /**
   * `add_colors(tree, family_colors)`: the given colours first (a key not on
   * the tree is skipped, a family coloured twice raises), then every node in
   * sorted key order. The picker starts from the given palette.
   */
  function AddFamilyColors(g: Graph, fc: seq<(string, string)>, palette: seq<string>): Result<Graph, WriterError>
    requires |palette| > 0
  {
    match ColorFamilies(g, CP.Picker(palette), fc)
    case Err(e) => Err(Lift(e))
    case Ok(first) =>
      assert |first.1.colors| == |palette| by {
        assert |multiset(first.1.colors)| == |multiset(palette)|;
      }
      Ok(ColorFamilyNodes(first.0, first.1, SortStrings(first.0.keys)).0)
  }

  /** Exactly the members have families, as once families are marked on a tree. */
  ghost predicate FamiliesOnMembers(g: Graph) {
    forall k :: k in g.nodes ==> (g.nodes[k].family.Some? <==> g.nodes[k].entity.Member?)
  }

  /** Where exactly the members have families, the writer's loop is the tree's own second pass. */
  lemma {:induction false} ColorFamilyNodesAgrees(g: Graph, p: CP.Picker, ks: seq<string>)
    requires |p.colors| > 0 && FamiliesOnMembers(g)
    ensures ColorNodes(g, p, ks) == Ok(ColorFamilyNodes(g, p, ks))
    decreases |ks|
  {
    if |ks| > 0 {
      var k := ks[0];
      if IsMember(g, k) {
        var f := g.nodes[k].family.value;
        var st := ColorMember(g, p, k, f);
        ColorMemberSpec(g, p, k, f);
        ColorFamilyNodesAgrees(st.0, st.1, ks[1..]);
      } else {
        ColorFamilyNodesAgrees(g, p, ks[1..]);
      }
    }
  }

  /** Where exactly the members have families, the writer colours the tree as `FamilyTree.add_colors` does. */
  lemma AddFamilyColorsAgrees(g: Graph, fc: seq<(string, string)>, palette: seq<string>)
    requires |palette| > 0 && FamiliesOnMembers(g)
    ensures AddFamilyColors(g, fc, palette) == LiftResult(AddColorsTo(g, fc, palette))
  {
    var p := CP.Picker(palette);
    if ColorFamilies(g, p, fc).Ok? {
      ColorFamiliesResult(g, p, fc);
      var first := ColorFamilies(g, p, fc).value;
      assert |first.1.colors| == |palette| by {
        assert |multiset(first.1.colors)| == |multiset(palette)|;
      }
      ColorFamilyNodesAgrees(first.0, first.1, SortStrings(first.0.keys));
    }
  }

  /**
   * The writer's colouring, where exactly the members have families: it
   * fails exactly when a given colour cannot be applied, and then names a
   * key of the colour map (a second colour for a family, or a node with no
   * family); otherwise every member wears its family's colour, the map's
   * colours are the ones their families wear, and the nodes without a
   * family are untouched.
   */
  lemma AddFamilyColorsSpec(g: Graph, fc: seq<(string, string)>, palette: seq<string>)
    requires WellFormed(g) && |palette| > 0 && FamiliesOnMembers(g)
    ensures AddFamilyColors(g, fc, palette).Ok? <==> Colorable(g, fc)
    ensures AddFamilyColors(g, fc, palette).Err? ==>
      var e := AddFamilyColors(g, fc, palette).error;
      (e.ColorConflict? && exists i :: 0 <= i < |fc| && fc[i].0 == e.key) ||
      (e.FromTree? && e.error.MissingFamily? && exists i :: 0 <= i < |fc| && fc[i].0 == e.error.key)
    ensures AddFamilyColors(g, fc, palette).Ok? ==>
      var r := AddFamilyColors(g, fc, palette).value;
      WellFormed(r) && ColoredByFamily(r) &&
      (forall k :: k in g.nodes && g.nodes[k].family.None? ==> k in r.nodes && r.nodes[k] == g.nodes[k]) &&
      (forall i :: 0 <= i < |fc| && fc[i].0 in g.nodes ==>
        FamilyAt(g, fc[i].0).Some? && FamilyAt(g, fc[i].0).value in r.familyColor &&
        r.familyColor[FamilyAt(g, fc[i].0).value] == fc[i].1)
  {
    AddFamilyColorsAgrees(g, fc, palette);
    AddColorsSpec(g, fc, palette);
    var p := CP.Picker(palette);
    ColorFamiliesSucceedsIff(g, p, fc);
    if AddColorsTo(g, fc, palette).Ok? {
      AddColorsColorsAll(g, fc, palette);
      ColorFamiliesResult(g, p, fc);
      var first := ColorFamilies(g, p, fc).value;
      assert |first.1.colors| == |palette| by {
        assert |multiset(first.1.colors)| == |multiset(palette)|;
      }
      ColorNodesFrame(first.0, first.1, SortStrings(first.0.keys));
    }
  }

  /** `add_colors(tree, family_colors)`, with the palette of the picker as a parameter. */
  method AddColors(tree: FT.FamilyTree, fc: seq<(string, string)>, palette: seq<string>) returns (r: Result<(), WriterError>)
    requires |palette| > 0
    modifies tree
    ensures Reflects(r, AddFamilyColors(old(tree.State()), fc, palette), tree.State())
  {
    var picker := CP.Picker(palette);
    var i := 0;
    while i < |fc|
      invariant 0 <= i <= |fc|
      invariant |picker.colors| == |palette|
      invariant ColorFamilies(old(tree.State()), CP.Picker(palette), fc) == ColorFamilies(tree.State(), picker, fc[i..])
    {
      assert fc[i..][1..] == fc[i + 1..];
      var key := fc[i].0;
      var color := fc[i].1;
      if key in tree.nodes {
        match tree.nodes[key].family
        case None =>
          return Err(FromTree(MissingFamily(key)));
        case Some(f) =>
          if f in tree.familyColor {
            return Err(ColorConflict(key, color));
          }
          assert |multiset(CP.Use(picker, color).colors)| == |multiset(picker.colors)|;
          picker := CP.Use(picker, color);
          tree.familyColor := tree.familyColor[f := color];
      }
      i := i + 1;
    }
    ghost var g1 := tree.State();
    ghost var p1 := picker;
    var ks := SortStrings(tree.keys);
    var j := 0;
    while j < |ks|
      invariant 0 <= j <= |ks|
      invariant |picker.colors| == |palette|
      invariant ColorFamilyNodes(g1, p1, ks) == ColorFamilyNodes(tree.State(), picker, ks[j..])
    {
      assert ks[j..][1..] == ks[j + 1..];
      var k := ks[j];
      if k in tree.nodes && tree.nodes[k].family.Some? {
        var f := tree.nodes[k].family.value;
        var c: string;
        ghost var before := tree.familyColor;
        if f in tree.familyColor {
          c := tree.familyColor[f];
        } else {
          c, picker := CP.Next(picker).0, CP.Next(picker).1;
          tree.familyColor := tree.familyColor[f := c];
        }
        assert tree.familyColor == before[f := c];
        tree.nodes := tree.nodes[k := tree.nodes[k].(dotAttributes := tree.nodes[k].dotAttributes["color" := Text(c)])];
      }
      j := j + 1;
    }
    return Ok(());
  }

  // ---------------------------------------------------------------------------
  // add_orphan_parents, UnidentifiedMember
  // ---------------------------------------------------------------------------

  /**
   * `UnidentifiedMember(member)`, with the attributes `add_entity` is given:
   * the key "<key> Parent", and the rank one before the member's, or none
   * when the member's rank cannot be read.
   */
  lemma UnidentifiedMemberSpec(m: TreeEntity, attributes: Attrs)
    ensures var e := PlaceholderOf(m, attributes);
      e.Custom? && e.key == m.key + " Parent" && e.attributes == attributes &&
      (SemesterOf(m).Ok? ==> e.semester == Some(SemesterOf(m).value - 1)) &&
      (SemesterOf(m).Err? ==> e.semester == None)
  {
  }

  /**
   * The body of the loop of `add_orphan_parents` for the orphan o: its parent
   * becomes the placeholder's key, the placeholder is added with the node
   * attributes, and the edge to the orphan gets the edge attributes.
   */
  method AddPlaceholderParent(tree: FT.FamilyTree, o: string, nodeAttributes: Attrs, edgeAttributes: Attrs)
    returns (r: Result<(), TreeError>)
    requires IsMember(tree.State(), o)
    modifies tree
    ensures FT.Reflects(r, AddOrphanParent(old(tree.State()), o, nodeAttributes, edgeAttributes), tree.State())
    ensures r.Ok? ==> forall x :: IsMember(old(tree.State()), x) ==> IsMember(tree.State(), x)
  {
    var orphan := tree.nodes[o].entity;
    var parent := PlaceholderOf(orphan, nodeAttributes);
    tree.nodes := tree.nodes[o := tree.nodes[o].(entity := orphan.(parent := Some(parent.key)))];
    r := tree.AddEntity(parent);
    if r.Err? {
      return;
    }
    tree.edges := tree.edges[(parent.key, o) := edgeAttributes];
  }

  /** `add_orphan_parents(tree, node_attributes, edge_attributes)`: the orphans are listed first. */
  method AddOrphanParents(tree: FT.FamilyTree, nodeAttributes: Attrs, edgeAttributes: Attrs) returns (r: Result<(), WriterError>)
    modifies tree
    ensures Reflects(r, LiftResult(AddOrphanParentsTo(old(tree.State()), nodeAttributes, edgeAttributes)), tree.State())
  {
    var orphans := tree.OrphanKeys();
    var j := 0;
    while j < |orphans|
      invariant 0 <= j <= |orphans|
      invariant forall k :: k in orphans[j..] ==> IsMember(tree.State(), k)
      invariant AddOrphanParentsTo(old(tree.State()), nodeAttributes, edgeAttributes) ==
        AddOrphans(tree.State(), orphans[j..], nodeAttributes, edgeAttributes)
    {
      assert orphans[j..][1..] == orphans[j + 1..];
      var added := AddPlaceholderParent(tree, orphans[j], nodeAttributes, edgeAttributes);
      if added.Err? {
        return Err(Lift(added.error));
      }
      j := j + 1;
    }
    return Ok(());
  }

  // ---------------------------------------------------------------------------
  // decorate
  // ---------------------------------------------------------------------------

  /** The writer's configuration: each flag switches one pass on. */
  datatype WriterConfig = WriterConfig(
    customNodes: bool, nodes: seq<CustomNode>,
    customEdges: bool, edges: seq<Path>,
    noSingletons: bool, warnRank: Option<int>,
    colors: bool, familyColors: seq<(string, string)>,
    unknowns: bool, unknownNode: Attrs, unknownEdge: Attrs)

  /** The passes of `decorate` that add to the tree: custom nodes, then custom edges, each under its flag. */
  function CustomSteps(g: Graph, c: WriterConfig): Result<Graph, WriterError> {
    var g1 :- if c.customNodes then LiftResult(AddEntities(g, CustomEntities(c.nodes))) else Ok(g);
    if c.customEdges then LiftResult(AddPaths(g1, c.edges)) else Ok(g1)
  }

  /** The passes of `decorate` that prepare the tree for display: singletons, colours, placeholder parents. */
  function DisplaySteps(g: Graph, c: WriterConfig, palette: seq<string>): Result<Graph, WriterError>
    requires |palette| > 0
  {
    var g3 := if c.noSingletons then RemoveSingletonsFrom(g) else g;
    var g4 :- if c.colors then AddFamilyColors(g3, c.familyColors, palette) else Ok(g3);
    if c.unknowns then LiftResult(AddOrphanParentsTo(g4, c.unknownNode, c.unknownEdge)) else Ok(g4)
  }

  /**
   * `decorate(tree, config)`: the base attributes, then custom nodes, custom
   * edges, singleton removal, colours and placeholder parents, in that
   * order, each under its flag.
   */
  function DecorateTree(g: Graph, c: WriterConfig, palette: seq<string>): Result<Graph, WriterError>
    requires |palette| > 0
  {
    var g2 :- CustomSteps(BaseAttributes(g), c);
    DisplaySteps(g2, c, palette)
  }

  /** `decorate(tree, config)` on the tree object. */
  method Decorate(tree: FT.FamilyTree, c: WriterConfig, palette: seq<string>) returns (r: Result<(), WriterError>)
    requires tree.Valid() && |palette| > 0
    modifies tree
    ensures Reflects(r, DecorateTree(old(tree.State()), c, palette), tree.State())
  {
    SetBaseAttributes(tree);
    if c.customNodes {
      r := AddCustomNodes(tree, c.nodes);
      if r.Err? {
        return;
      }
    }
    if c.customEdges {
      r := AddCustomEdges(tree, c.edges);
      if r.Err? {
        return;
      }
    }
    if c.noSingletons {
      var warned := RemoveSingletonMembers(tree, c.warnRank);
    }
    if c.colors {
      r := AddColors(tree, c.familyColors, palette);
      if r.Err? {
        return;
      }
    }
    if c.unknowns {
      r := AddOrphanParents(tree, c.unknownNode, c.unknownEdge);
      if r.Err? {
        return;
      }
    }
    return Ok(());
  }

  /** Custom entities arrive without a family and are no members. */
  lemma {:induction false} AddCustomsKeepFamilies(g: Graph, es: seq<TreeEntity>)
    requires FamiliesOnMembers(g) && forall i :: 0 <= i < |es| ==> es[i].Custom?
    requires AddEntities(g, es).Ok?
    ensures FamiliesOnMembers(AddEntities(g, es).value)
    decreases |es|
  {
    if |es| > 0 {
      AddEntitySpec(g, es[0]);
      AddCustomsKeepFamilies(AddEntityTo(g, es[0]).value, es[1..]);
    }
  }

  /** The custom nodes and edges keep the tree well formed, and only members have families. */
  lemma CustomStepsSpec(g: Graph, c: WriterConfig)
    requires WellFormed(g) && FamiliesOnMembers(g)
    ensures !c.customNodes && !c.customEdges ==> CustomSteps(g, c) == Ok(g)
    ensures CustomSteps(g, c).Ok? ==> WellFormed(CustomSteps(g, c).value) && FamiliesOnMembers(CustomSteps(g, c).value)
  {
    var r1 := if c.customNodes then AddEntities(g, CustomEntities(c.nodes)) else Ok(g);
    if r1.Ok? {
      var g1 := r1.value;
      if c.customNodes {
        AddEntitiesFrame(g, CustomEntities(c.nodes));
        AddCustomsKeepFamilies(g, CustomEntities(c.nodes));
      }
      if c.customEdges {
        AddPathsSpec(g1, c.edges);
      }
    }
  }

  /**
   * The display passes keep a well-formed tree well formed. With placeholder
   * parents on, no member is left an orphan; with singleton removal or
   * placeholder parents on, no member is left alone; with colours on, every
   * member wears its family's colour.
   */
  lemma DisplayStepsSpec(g: Graph, c: WriterConfig, palette: seq<string>)
    requires WellFormed(g) && FamiliesOnMembers(g) && |palette| > 0
    ensures !c.colors && !c.unknowns ==> DisplaySteps(g, c, palette).Ok?
    ensures var r := DisplaySteps(g, c, palette);
      r.Ok? ==>
        WellFormed(r.value) &&
        (c.unknowns ==> forall k :: IsMember(r.value, k) ==> !IsOrphan(r.value, k)) &&
        (c.noSingletons || c.unknowns ==> forall k :: IsMember(r.value, k) ==> !IsSingleton(r.value, k)) &&
        (c.colors ==> ColoredByFamily(r.value))
  {
    var g3 := if c.noSingletons then RemoveSingletonsFrom(g) else g;
    if c.noSingletons {
      RemoveSingletonsSpec(g);
    }
    assert FamiliesOnMembers(g3);
    assert c.noSingletons ==> forall k :: IsMember(g3, k) ==> !IsSingleton(g3, k);
    var r4 := if c.colors then AddFamilyColors(g3, c.familyColors, palette) else Ok(g3);
    if r4.Ok? {
      var g4 := r4.value;
      if c.colors {
        AddFamilyColorsAgrees(g3, c.familyColors, palette);
        AddColorsSpec(g3, c.familyColors, palette);
        AddColorsColorsAll(g3, c.familyColors, palette);
      }
      assert forall k :: IsMember(g4, k) <==> IsMember(g3, k);
      assert c.noSingletons ==> forall k :: IsMember(g4, k) ==> !IsSingleton(g4, k);
      if c.unknowns {
        AddOrphanParentsSpec(g4, c.unknownNode, c.unknownEdge);
        if AddOrphanParentsTo(g4, c.unknownNode, c.unknownEdge).Ok? {
          var r := AddOrphanParentsTo(g4, c.unknownNode, c.unknownEdge).value;
          forall k | IsMember(r, k) ensures !IsSingleton(r, k) {
            NotOrphanNotSingleton(r, k);
          }
          if c.colors {
            AddOrphanParentsKeepColors(g4, c.unknownNode, c.unknownEdge);
          }
        }
      }
    }
  }

  /**
   * Decorating a well-formed tree on which exactly the members have
   * families gives a well-formed tree with the display passes' guarantees;
   * without custom nodes, custom edges, colours and placeholder parents it
   * cannot fail.
   */
  lemma DecorateTreeSpec(g: Graph, c: WriterConfig, palette: seq<string>)
    requires WellFormed(g) && FamiliesOnMembers(g) && |palette| > 0
    ensures !c.customNodes && !c.customEdges && !c.colors && !c.unknowns ==> DecorateTree(g, c, palette).Ok?
    ensures var r := DecorateTree(g, c, palette);
      r.Ok? ==>
        WellFormed(r.value) &&
        (c.unknowns ==> forall k :: IsMember(r.value, k) ==> !IsOrphan(r.value, k)) &&
        (c.noSingletons || c.unknowns ==> forall k :: IsMember(r.value, k) ==> !IsSingleton(r.value, k)) &&
        (c.colors ==> ColoredByFamily(r.value))
  {
    var g0 := BaseAttributes(g);
    BaseAttributesSpec(g);
    assert FamiliesOnMembers(g0);
    CustomStepsSpec(g0, c);
    if CustomSteps(g0, c).Ok? {
      DisplayStepsSpec(CustomSteps(g0, c).value, c, palette);
    }
  }
}
