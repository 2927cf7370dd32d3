/**
 * `FamilyTree`: the tree as a mutable object. Its fields are the graph's
 * parts, and every construction step is a method that changes them in place,
 * loop by loop, proved to leave exactly the graph the matching TreeGraph
 * function describes (or to report the same error).
 */
module FamilyTrees {
  import opened Wrappers
  import opened Text
  import opened Dot
  import opened TreeGraph
  import E = Entity
  import D = Digraph
  import CP = ColorPicker
  import TO = TreeOutput
  import Sem = Semester

  /**
   * A method's outcome agrees with the function that specifies it: the same
   * error, or success with the tree now holding the function's graph.
   */
  ghost predicate Reflects(r: Result<(), TreeError>, spec: Result<Graph, TreeError>, now: Graph) {
    (r.Ok? <==> spec.Ok?) &&
    (r.Err? ==> r.error == spec.error) &&
    (spec.Ok? && r.Ok? ==> now == spec.value)
  }

  /** A node map in which every node of g is marked is the marked graph's. */
  lemma AllMarked(g: Graph, nodes: map<string, NodeData>)
    requires nodes.Keys == g.nodes.Keys
    requires forall k :: k in nodes ==> nodes[k] == Marked(g, k)
    ensures g.(nodes := nodes, familyColor := map[]) == MarkFamiliesIn(g)
  {
  }

  /**
   * The loop of `create_date_subgraph` between bounds lo and hi: a node and
   * an edge per semester while `sem <= hi`, then the node `sem` stops at.
   */
  method DateColumnLoop(lo: int, hi: int, suffix: string) returns (column: seq<DotItem>)
    ensures column == TO.DateColumn(lo, hi, suffix)
  {
    var ns: seq<DotItem> := [];
    var es: seq<DotItem> := [];
    var sem := lo;
    ghost var n: nat := 0;
    while sem <= hi
      invariant sem == lo + n && n <= TO.Steps(lo, hi)
      invariant ns == TO.DateNodes(lo, n, suffix) && es == TO.DateEdges(lo, n, suffix)
      decreases hi - sem
    {
      TO.DateColumnGrows(lo, n, sem, suffix);
      ns := ns + [TO.DateNode(sem, suffix)];
      es := es + [TO.DateEdge(sem, suffix)];
      sem, n := sem + 1, n + 1;
    }
    TO.DateColumnEnds(lo, hi, n, sem, suffix);
    column := ns + [TO.DateNode(sem, suffix)] + es;
  }

  /**
   * The loop of `get_semester_bounds()` over the keys ks of g: lower the
   * minimum and raise the maximum; reading an undated node's semester fails.
   */
  method BoundsLoop(g: Graph, ks: seq<string>) returns (r: Result<Option<(int, int)>, TreeError>)
    requires TO.AllNodes(g, ks)
    ensures r == TO.Bounds(g, ks)
  {
    var b: Option<(int, int)> := None;
    var i := 0;
    while i < |ks|
      invariant 0 <= i <= |ks|
      invariant TO.AllNodes(g, ks[..i])
      invariant TO.Bounds(g, ks[..i]) == Ok(b)
    {
      TO.BoundsStep(g, ks, i);
      var sem := SemesterOf(g.nodes[ks[i]].entity);
      if sem.Err? {
        return Err(sem.error);
      }
      var s := sem.value;
      ghost var widened := TO.Widen(b, s);
      if b.None? {
        b := Some((s, s));
      } else {
        var lo, hi := b.value.0, b.value.1;
        if lo > s {
          lo := s;
        }
        if hi < s {
          hi := s;
        }
        b := Some((lo, hi));
      }
      assert b == Some(widened);
      i := i + 1;
    }
    assert ks[..|ks|] == ks;
    return Ok(b);
  }

  /** The loop of `mark_families()` over the keys: each member's node gets its family. */
  method MarkLoop(g: Graph) returns (nodes: map<string, NodeData>)
    requires forall k :: k in g.nodes <==> k in g.keys
    ensures nodes.Keys == g.nodes.Keys
    ensures forall k :: k in nodes ==> nodes[k] == Marked(g, k)
  {
    nodes := g.nodes;
    var i := 0;
    while i < |g.keys|
      invariant 0 <= i <= |g.keys|
      invariant nodes.Keys == g.nodes.Keys
      invariant forall k :: k in nodes ==> nodes[k] == if k in g.keys[..i] then Marked(g, k) else g.nodes[k]
    {
      var k := g.keys[i];
      assert g.keys[..i + 1] == g.keys[..i] + [k];
      if IsMember(g, k) {
        nodes := nodes[k := Marked(g, k)];
      }
      i := i + 1;
    }
    assert g.keys[..|g.keys|] == g.keys;
  }

  /**
   * The loop of `create_ranks()` over the node keys ks of g: each key is
   * appended to its semester's rank, or starts that rank after the two date
   * keys; reading an undated node's semester ends the pass.
   */
  method RanksLoop(g: Graph, ks: seq<string>) returns (r: Result<TO.RankDict, TreeError>)
    requires TO.AllNodes(g, ks)
    ensures r == TO.Ranks(g, ks)
  {
    var order: seq<int> := [];
    var ranks: map<int, seq<string>> := map[];
    var i := 0;
    while i < |ks|
      invariant 0 <= i <= |ks|
      invariant TO.AllNodes(g, ks[..i])
      invariant TO.Ranks(g, ks[..i]) == Ok(TO.RankDict(order, ranks))
    {
      TO.RanksStep(g, ks, i);
      var k := ks[i];
      var sem := SemesterOf(g.nodes[k].entity);
      if sem.Err? {
        return Err(sem.error);
      }
      var s := sem.value;
      ghost var next := TO.AddToRank(TO.RankDict(order, ranks), s, k);
      if s in ranks {
        ranks := ranks[s := ranks[s] + [k]];
      } else {
        order := order + [s];
        ranks := ranks[s := TO.RankHead(s) + [k]];
      }
      assert TO.RankDict(order, ranks) == next;
      i := i + 1;
    }
    assert ks[..|ks|] == ks;
    return Ok(TO.RankDict(order, ranks));
  }

  class FamilyTree {
    var keys: seq<string>
    var nodes: map<string, NodeData>
    var edges: map<D.Edge, Attrs>
    var familyColor: map<Family, string>

    /** The tree's current graph. */
    function State(): Graph
      reads this
    {
      Graph.Graph(keys, nodes, edges, familyColor)
    }

    ghost predicate Valid()
      reads this
    {
      WellFormed(State())
    }

    /** An empty tree. */
    constructor ()
      ensures State() == EmptyGraph && Valid()
    {
      keys, nodes, edges, familyColor := [], map[], map[], map[];
      EmptyGraphWellFormed();
    }

    /** `add_entity(entity)` */
    method AddEntity(e: TreeEntity) returns (r: Result<(), TreeError>)
      modifies this
      ensures Reflects(r, AddEntityTo(old(State()), e), State())
      ensures r.Err? ==> State() == old(State())
    {
      if e.key in nodes {
        return Err(DuplicateEntity(e.key));
      }
      keys := keys + [e.key];
      nodes := nodes[e.key := NodeData(e, DotAttributesOf(e), None)];
      return Ok(());
    }

    /** `add_members(member_list)`: each entity in turn, stopping at the first error. */
    method AddMembers(es: seq<TreeEntity>) returns (r: Result<(), TreeError>)
      modifies this
      ensures Reflects(r, AddEntities(old(State()), es), State())
    {
      var i := 0;
      while i < |es|
        invariant 0 <= i <= |es|
        invariant AddEntities(old(State()), es) == AddEntities(State(), es[i..])
      {
        assert es[i..][1..] == es[i + 1..];
        r := AddEntity(es[i]);
        if r.Err? {
          return;
        }
        i := i + 1;
      }
      return Ok(());
    }

    /** `add_custom_nodes()`: a `Custom` entity for each settings entry. */
    method AddCustomNodes(custom: seq<CustomNode>) returns (r: Result<(), TreeError>)
      modifies this
      ensures Reflects(r, AddEntities(old(State()), CustomEntities(custom)), State())
    {
      r := AddMembers(CustomEntities(custom));
    }

    /** `add_big_relationship(member)` */
    method AddBigRelationship(member: TreeEntity, semesters: bool) returns (r: Result<(), TreeError>)
      requires member.Member? && member.parent.Some?
      modifies this
      ensures Reflects(r, AddBigRelationshipTo(old(State()), member, semesters), State())
    {
      var ckey := member.key;
      var pkey := member.parent.value;
      if pkey !in nodes {
        return Err(ParentUnknown(ckey, pkey));
      }
      var parent := nodes[pkey].entity;
      if semesters {
        var cs := SemesterOf(member);
        if cs.Err? {
          return Err(cs.error);
        }
        var ps := SemesterOf(parent);
        if ps.Err? {
          return Err(ps.error);
        }
        if cs.value < ps.value {
          return Err(ParentNotPrior(cs.value, ckey, pkey, ps.value));
        }
      }
      edges := edges[(pkey, ckey) := map[]];
      return Ok(());
    }

    /** `add_member_relationships()`: over a snapshot of the keys, each member with a parent. */
    method AddMemberRelationships(semesters: bool) returns (r: Result<(), TreeError>)
      requires Valid()
      modifies this
      ensures Reflects(r, AddRelationships(old(State()), old(keys), semesters), State())
    {
      var ks := keys;
      var i := 0;
      while i < |ks|
        invariant 0 <= i <= |ks|
        invariant nodes == old(nodes)
        invariant AddRelationships(old(State()), ks, semesters) == AddRelationships(State(), ks[i..], semesters)
      {
        assert ks[i..][1..] == ks[i + 1..];
        var e := nodes[ks[i]].entity;
        if HasParent(e) {
          r := AddBigRelationship(e, semesters);
          if r.Err? {
            return;
          }
        }
        i := i + 1;
      }
      return Ok(());
    }

    /** One custom path: all keys are checked first, then the consecutive pairs are added. */
    method AddCustomPath(path: Path) returns (r: Result<(), TreeError>)
      modifies this
      ensures Reflects(r, AddPathTo(old(State()), path), State())
    {
      var ks := path.nodes;
      var j := 0;
      while j < |ks|
        invariant 0 <= j <= |ks|
        invariant FirstMissing(State(), ks) == FirstMissing(State(), ks[j..])
      {
        assert ks[j..][1..] == ks[j + 1..];
        if ks[j] !in nodes {
          return Err(UnknownEdgeComponent(PathType(ks), ks, ks[j]));
        }
        j := j + 1;
      }
      edges := AddPairs(edges, ks, path.attributes);
      return Ok(());
    }

    /** `add_custom_edges()`: the settings' paths in order. */
    method AddCustomEdges(paths: seq<Path>) returns (r: Result<(), TreeError>)
      modifies this
      ensures Reflects(r, AddPaths(old(State()), paths), State())
    {
      var i := 0;
      while i < |paths|
        invariant 0 <= i <= |paths|
        invariant AddPaths(old(State()), paths) == AddPaths(State(), paths[i..])
      {
        assert paths[i..][1..] == paths[i + 1..];
        r := AddCustomPath(paths[i]);
        if r.Err? {
          return;
        }
        i := i + 1;
      }
      return Ok(());
    }

    /** `remove_singleton_members()`: list the singletons, then remove them all. */
    method RemoveSingletonMembers()
      modifies this
      ensures State() == RemoveSingletonsFrom(old(State()))
    {
      var singletons: seq<string> := [];
      var i := 0;
      while i < |keys|
        invariant 0 <= i <= |keys|
        invariant singletons == Singletons(State(), keys[..i])
      {
        assert keys[..i + 1][..i] == keys[..i];
        if IsSingleton(State(), keys[i]) {
          singletons := singletons + [keys[i]];
        }
        i := i + 1;
      }
      assert keys[..|keys|] == keys;
      var S := set k | k in singletons;
      keys, nodes := Without(keys, S), map k | k in nodes && k !in S :: nodes[k];
    }
 
    /** `mark_families()`: each member's node gets its family; no family has a colour yet. */
    method MarkFamilies()
      requires Valid()
      modifies this
      ensures State() == MarkFamiliesIn(old(State()))
    {
      var g0 := State();
      assert forall k :: k in g0.nodes <==> k in g0.keys;
      nodes := MarkLoop(g0);
      familyColor := map[];
      AllMarked(g0, nodes);
    }

    /**
     * `add_colors()`: first the settings' colours, then the members in sorted
     * key order, drawing from a picker over the palette.
     */
    method AddColors(fc: seq<(string, string)>, palette: seq<string>) returns (r: Result<(), TreeError>)
      requires |palette| > 0
      modifies this
      ensures Reflects(r, AddColorsTo(old(State()), fc, palette), State())
    {
      var picker := CP.Picker(palette);
      var i := 0;
      while i < |fc|
        invariant 0 <= i <= |fc|
        invariant |picker.colors| == |palette|
        invariant ColorFamilies(old(State()), CP.Picker(palette), fc) == ColorFamilies(State(), picker, fc[i..])
      {
        assert fc[i..][1..] == fc[i + 1..];
        var key := fc[i].0;
        var color := fc[i].1;
        if key in nodes {
          match nodes[key].family
          case None =>
            return Err(MissingFamily(key));
          case Some(f) =>
            if f in familyColor {
              return Err(FamilyColorConflict(key, color));
            }
            assert |multiset(CP.Use(picker, color).colors)| == |multiset(picker.colors)|;
            picker := CP.Use(picker, color);
            familyColor := familyColor[f := color];
        }
        i := i + 1;
      }
      ghost var g1 := State();
      ghost var p1 := picker;
      var ks := SortStrings(keys);
      var j := 0;
      while j < |ks|
        invariant 0 <= j <= |ks|
        invariant |picker.colors| == |palette|
        invariant ColorNodes(g1, p1, ks) == ColorNodes(State(), picker, ks[j..])
      {
        assert ks[j..][1..] == ks[j + 1..];
        var k := ks[j];
        if k in nodes && nodes[k].entity.Member? {
          match nodes[k].family
          case None =>
            return Err(MissingFamily(k));
          case Some(f) =>
            var c: string;
            ghost var before := familyColor;
            if f in familyColor {
              c := familyColor[f];
            } else {
              c, picker := CP.Next(picker).0, CP.Next(picker).1;
              familyColor := familyColor[f := c];
            }
            assert familyColor == before[f := c];
            nodes := nodes[k := nodes[k].(dotAttributes := nodes[k].dotAttributes["color" := Text(c)])];
        }
        j := j + 1;
      }
      return Ok(());
    }
 
    /** `orphan_keys()`: the members with no in-edge, in key order. */
    method OrphanKeys() returns (orphans: seq<string>)
      ensures orphans == Orphans(State(), keys)
    {
      var g := State();
      var ks := keys;
      orphans := [];
      var i := 0;
      while i < |ks|
        invariant 0 <= i <= |ks|
        invariant orphans == Orphans(g, ks[..i])
      {
        assert ks[..i + 1][..i] == ks[..i];
        if IsOrphan(g, ks[i]) {
          orphans := orphans + [ks[i]];
        }
        i := i + 1;
      }
      assert ks[..|ks|] == ks;
    }

    /** One orphan: its parent field, its placeholder node, and the edge from it. */
    method AddOrphanParentOf(o: string, nodeAttributes: Attrs, edgeAttributes: Attrs) returns (r: Result<(), TreeError>)
      requires IsMember(State(), o)
      modifies this
      ensures Reflects(r, AddOrphanParent(old(State()), o, nodeAttributes, edgeAttributes), State())
    {
      var m := nodes[o].entity;
      var parent := PlaceholderOf(m, nodeAttributes);
      nodes := nodes[o := nodes[o].(entity := m.(parent := Some(parent.key)))];
      r := AddEntity(parent);
      if r.Err? {
        return;
      }
      edges := edges[(parent.key, o) := edgeAttributes];
    }

    /** `add_orphan_parents()`: the orphans are listed first, then each gets its placeholder. */
    method AddOrphanParents(nodeAttributes: Attrs, edgeAttributes: Attrs) returns (r: Result<(), TreeError>)
      modifies this
      ensures Reflects(r, AddOrphanParentsTo(old(State()), nodeAttributes, edgeAttributes), State())
    {
      var orphans := OrphanKeys();
      var j := 0;
      while j < |orphans|
        invariant 0 <= j <= |orphans|
        invariant forall k :: k in orphans[j..] ==> IsMember(State(), k)
        invariant AddOrphanParentsTo(old(State()), nodeAttributes, edgeAttributes) ==
          AddOrphans(State(), orphans[j..], nodeAttributes, edgeAttributes)
      {
        assert orphans[j..][1..] == orphans[j + 1..];
        r := AddOrphanParentOf(orphans[j], nodeAttributes, edgeAttributes);
        if r.Err? {
          return;
        }
        j := j + 1;
      }
      return Ok(());
    }
 
    /** The first half of the constructor: members, custom nodes, member edges, custom edges. */
    method AssembleSteps(members: seq<TreeEntity>, s: TreeSettings) returns (r: Result<(), TreeError>)
      requires State() == EmptyGraph
      modifies this
      ensures Reflects(r, Assemble(members, s), State())
    {
      EmptyGraphWellFormed();
      r := AddMembers(members);
      if r.Err? {
        return;
      }
      AddEntitiesFrame(EmptyGraph, members);
      if s.layout.customNodes {
        ghost var g1 := State();
        r := AddCustomNodes(s.nodes);
        if r.Err? {
          return;
        }
        AddEntitiesFrame(g1, CustomEntities(s.nodes));
      }
      r := AddMemberRelationships(s.layout.semesters);
      if r.Err? {
        return;
      }
      if s.layout.customEdges {
        r := AddCustomEdges(s.edges);
      }
    }

    /** The second half: pruning, families and colours, placeholder parents. */
    method DecorateSteps(s: TreeSettings, palette: seq<string>) returns (r: Result<(), TreeError>)
      requires Valid() && |palette| > 0
      modifies this
      ensures Reflects(r, Decorate(old(State()), s, palette), State())
    {
      ghost var ga := State();
      if s.layout.noSingletons {
        RemoveSingletonMembers();
        RemoveSingletonsSpec(ga);
      }
      if s.layout.familyColors {
        MarkFamilies();
        r := AddColors(s.familyColors, palette);
        if r.Err? {
          return;
        }
      }
      if s.layout.unknowns {
        r := AddOrphanParents(s.unknownNodeAttributes, s.unknownEdgeAttributes);
        if r.Err? {
          return;
        }
      }
      return Ok(());
    }

    /**
     * `FamilyTree(members, settings)`: the construction pipeline on an empty
     * tree, each optional step under its layout flag.
     */
    method Build(members: seq<TreeEntity>, s: TreeSettings, palette: seq<string>) returns (r: Result<(), TreeError>)
      requires State() == EmptyGraph && |palette| > 0
      modifies this
      ensures Reflects(r, BuildTree(members, s, palette), State())
    {
      r := AssembleSteps(members, s);
      if r.Err? {
        return;
      }
      AssembleSpec(members, s);
      r := DecorateSteps(s, palette);
    }

    /** Every key of a valid tree names one of its nodes. */
    lemma KeysAreNodes()
      requires Valid()
      ensures TO.AllNodes(State(), keys)
    {
      assert forall i :: 0 <= i < |keys| ==> keys[i] in keys;
    }

    /**
     * `get_semester_bounds()`: one pass over the nodes, lowering the minimum
     * and raising the maximum; reading an undated node's semester fails.
     */
    method SemesterBounds() returns (r: Result<Option<(int, int)>, TreeError>)
      requires Valid()
      ensures TO.AllNodes(State(), keys) && r == TO.Bounds(State(), keys)
    {
      KeysAreNodes();
      r := BoundsLoop(State(), keys);
    }

    /**
     * `create_date_subgraph(key, min, max)`: the defaults, then the column;
     * with no bounds (an empty tree) the source starts from an infinite float,
     * so the loop never runs and the one node is for infinity.
     */
    method CreateDateSubgraph(suffix: string, bounds: Option<(int, int)>, nodeDefaults: Attrs, edgeDefaults: Attrs)
      returns (item: DotItem)
      ensures item == TO.DateSubgraph(suffix, bounds, nodeDefaults, edgeDefaults)
    {
      var column: seq<DotItem>;
      if bounds.None? {
        column := [Node("inf" + suffix, map["label" := Other("inf")])];
      } else {
        column := DateColumnLoop(bounds.value.0, bounds.value.1, suffix);
      }
      item := DotItem.Graph("dates" + suffix, "subgraph", map[],
                            [Defaults("node", nodeDefaults), Defaults("edge", edgeDefaults)] + column);
    }

    /** `create_ranks()`: the pass over the nodes, then `list(ranks.values())`. */
    method CreateRanks() returns (r: Result<seq<DotItem>, TreeError>)
      requires Valid()
      ensures TO.AllNodes(State(), keys) && r == TO.CreateRanks(State())
    {
      KeysAreNodes();
      var d := RanksLoop(State(), keys);
      if d.Err? {
        return Err(d.error);
      }
      return Ok(TO.RankItems(d.value));
    }
  }
}
