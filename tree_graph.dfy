/**
 * The family tree's graph as a value, and each construction step of the tree
 * as a function from the graph before the step to the graph after it (or the
 * error the step raises). A node keeps its entity, its DOT attributes and, once
 * families are marked, its family; an edge keeps its DOT attributes. Families
 * are identified by their set of member keys, so two members share a family
 * record exactly when their families are the same set.
 */
module TreeGraph {
  import opened Wrappers
  import opened Text
  import opened Dot
  import E = Entity
  import D = Digraph
  import CP = ColorPicker

  /** An entity on the tree: a member of the organisation or a decoration. */
  datatype TreeEntity =
    | Member(key: string, parent: Option<string>, semester: Option<int>, dotLabel: string)
    | Custom(key: string, semester: Option<int>, attributes: Attrs)

  /** The `TreeError` codes, plus the errors the steps let escape from below. */
  datatype TreeError =
    | DuplicateEntity(key: string)
    | ParentUnknown(child: string, parent: string)
    | ParentNotPrior(childSemester: int, child: string, parent: string, parentSemester: int)
    | UnknownEdgeComponent(pathType: string, path: seq<string>, key: string)
    | FamilyColorConflict(key: string, color: string)
    /** `TreeEntityAttributeError` from the semester getter. */
    | MissingSemester(key: string)
    /** `KeyError` from reading the family of a node that has none. */
    | MissingFamily(key: string)

  /** `entity.dot_attributes` */
  function DotAttributesOf(e: TreeEntity): (a: Attrs)
    ensures e.Member? ==> a == E.MemberDotAttributes(e.dotLabel)
    ensures e.Custom? ==> a == e.attributes
  {
    match e
    case Member(_, _, _, l) => E.MemberDotAttributes(l)
    case Custom(_, _, attributes) => attributes
  }

  /** `entity.semester`, with the getter's error as a tree error. */
  function SemesterOf(e: TreeEntity): (r: Result<int, TreeError>)
    ensures r.Ok? <==> e.semester.Some? && e.semester.value != 0
    ensures r.Ok? ==> r.value == e.semester.value
    ensures r.Err? ==> r.error == MissingSemester(e.key)
  {
    match E.ReadSemester(e.key, e.semester)
    case Ok(v) => Ok(v)
    case Err(_) => Err(MissingSemester(e.key))
  }

  /** A member's `parent` is truthy: present and not the empty string. */
  predicate HasParent(e: TreeEntity) {
    e.Member? && e.parent.Some? && e.parent.value != ""
  }

  type Family = set<string>

  datatype NodeData = NodeData(entity: TreeEntity, dotAttributes: Attrs, family: Option<Family>)

  /** The graph: node keys in insertion order, node data, edges with their attributes, family colours. */
  datatype Graph = Graph(
    keys: seq<string>,
    nodes: map<string, NodeData>,
    edges: map<D.Edge, Attrs>,
    familyColor: map<Family, string>)

  const EmptyGraph := Graph.Graph([], map[], map[], map[])

  /**
   * The tree's invariant: keys unique and exactly the nodes, every edge between
   * two nodes, every node stored under its entity's key.
   */
  ghost predicate WellFormed(g: Graph) {
    Distinct(g.keys) &&
    (forall k :: k in g.nodes <==> k in g.keys) &&
    (forall e :: e in g.edges ==> e.0 in g.nodes && e.1 in g.nodes) &&
    (forall k :: k in g.nodes ==> g.nodes[k].entity.key == k)
  }

  lemma EmptyGraphWellFormed()
    ensures WellFormed(EmptyGraph)
  {
  }

  predicate IsMember(g: Graph, k: string) {
    k in g.nodes && g.nodes[k].entity.Member?
  }

  // ---------------------------------------------------------------------------
  // add_entity, add_members, add_custom_nodes
  // ---------------------------------------------------------------------------

  /** `add_entity(entity)` */
  function AddEntityTo(g: Graph, e: TreeEntity): (r: Result<Graph, TreeError>)
    ensures r.Err? <==> e.key in g.nodes
    ensures r.Err? ==> r.error == DuplicateEntity(e.key)
  {
    if e.key in g.nodes then Err(DuplicateEntity(e.key))
    else Ok(g.(keys := g.keys + [e.key], nodes := g.nodes[e.key := NodeData(e, DotAttributesOf(e), None)]))
  }

  /**
   * A new key adds exactly one node, holding the entity and its DOT
   * attributes, after the existing keys; nothing else changes.
   */
  lemma AddEntitySpec(g: Graph, e: TreeEntity)
    requires e.key !in g.nodes
    ensures var r := AddEntityTo(g, e).value;
      r.keys == g.keys + [e.key] &&
      r.nodes.Keys == g.nodes.Keys + {e.key} &&
      r.nodes[e.key] == NodeData(e, DotAttributesOf(e), None) &&
      (forall k :: k in g.nodes ==> r.nodes[k] == g.nodes[k]) &&
      r.edges == g.edges && r.familyColor == g.familyColor
  {
  }

  /** Adding an entity keeps the tree well formed. */
  lemma AddEntityWellFormed(g: Graph, e: TreeEntity)
    requires WellFormed(g) && e.key !in g.nodes
    ensures WellFormed(AddEntityTo(g, e).value)
  {
    var r := AddEntityTo(g, e).value;
    forall i, j | 0 <= i < j < |r.keys| ensures r.keys[i] != r.keys[j] {
      if j == |g.keys| {
        assert r.keys[i] == g.keys[i];
      }
    }
  }

  function KeysOf(es: seq<TreeEntity>): (ks: seq<string>)
    ensures |ks| == |es| && forall i :: 0 <= i < |es| ==> ks[i] == es[i].key
  {
    if |es| == 0 then [] else [es[0].key] + KeysOf(es[1..])
  }

  lemma KeysOfCons(ks: seq<string>, es: seq<TreeEntity>)
    requires |es| > 0
    ensures (ks + [es[0].key]) + KeysOf(es[1..]) == ks + KeysOf(es)
  {
    var t := KeysOf(es[1..]);
    assert KeysOf(es) == [es[0].key] + t;
    AppendAssociates(ks, [es[0].key], t);
  }

  lemma AppendAssociates(a: seq<string>, b: seq<string>, c: seq<string>)
    ensures (a + b) + c == a + (b + c)
  {
    assert forall i :: 0 <= i < |a + b + c| ==> ((a + b) + c)[i] == (a + (b + c))[i];
  }

  /** Adding entities one after another, stopping at the first error. */
  function AddEntities(g: Graph, es: seq<TreeEntity>): Result<Graph, TreeError>
    decreases |es|
  {
    if |es| == 0 then Ok(g)
    else
      match AddEntityTo(g, es[0])
      case Err(err) => Err(err)
      case Ok(g') => AddEntities(g', es[1..])
  }

  /** The entities' keys are pairwise different and none is in S. */
  ghost predicate FreshKeys(S: set<string>, es: seq<TreeEntity>) {
    Distinct(KeysOf(es)) && forall i :: 0 <= i < |es| ==> es[i].key !in S
  }

  lemma FreshKeysCons(S: set<string>, es: seq<TreeEntity>)
    requires |es| > 0
    ensures FreshKeys(S, es) <==> es[0].key !in S && FreshKeys(S + {es[0].key}, es[1..])
  {
    var ks := KeysOf(es);
    var ks' := KeysOf(es[1..]);
    assert forall i :: 0 <= i < |ks'| ==> ks'[i] == ks[i + 1];
    if es[0].key !in S && FreshKeys(S + {es[0].key}, es[1..]) {
      forall i | 0 <= i < |es| ensures es[i].key !in S {
        if i > 0 { assert es[1..][i - 1] == es[i]; }
      }
      forall i, j | 0 <= i < j < |ks| ensures ks[i] != ks[j] {
        if i == 0 { assert es[1..][j - 1] == es[j]; }
      }
    }
    if FreshKeys(S, es) {
      forall i | 0 <= i < |es[1..]| ensures es[1..][i].key !in S + {es[0].key} {
        assert es[1..][i] == es[i + 1];
        assert ks[0] != ks[i + 1];
      }
      forall i, j | 0 <= i < j < |ks'| ensures ks'[i] != ks'[j] {
        assert ks[i + 1] != ks[j + 1];
      }
    }
  }

  /**
   * Adding a list of entities succeeds exactly when their keys are new and
   * pairwise different; a failure is DUPLICATE_ENTITY for one of their keys.
   */
  lemma {:induction false} AddEntitiesSucceedsIff(g: Graph, es: seq<TreeEntity>)
    ensures AddEntities(g, es).Ok? <==> FreshKeys(g.nodes.Keys, es)
    ensures AddEntities(g, es).Err? ==>
      AddEntities(g, es).error.DuplicateEntity? && AddEntities(g, es).error.key in KeysOf(es)
    decreases |es|
  {
    if |es| > 0 {
      FreshKeysCons(g.nodes.Keys, es);
      assert KeysOf(es) == [es[0].key] + KeysOf(es[1..]);
      if es[0].key !in g.nodes {
        AddEntitiesSucceedsIff(AddEntityTo(g, es[0]).value, es[1..]);
      }
    }
  }

  /** A successful addition keeps every earlier node and all edges, and keeps the tree well formed. */
  lemma {:induction false} AddEntitiesFrame(g: Graph, es: seq<TreeEntity>)
    requires WellFormed(g) && AddEntities(g, es).Ok?
    ensures var r := AddEntities(g, es).value;
      WellFormed(r) &&
      (forall k :: k in g.nodes ==> k in r.nodes && r.nodes[k] == g.nodes[k]) &&
      r.edges == g.edges && r.familyColor == g.familyColor
    decreases |es|
  {
    if |es| > 0 {
      AddEntitySpec(g, es[0]);
      AddEntityWellFormed(g, es[0]);
      AddEntitiesFrame(AddEntityTo(g, es[0]).value, es[1..]);
    }
  }

  /** A successful addition appends the keys in order. */
  lemma {:induction false} AddEntitiesKeys(g: Graph, es: seq<TreeEntity>)
    requires AddEntities(g, es).Ok?
    ensures AddEntities(g, es).value.keys == g.keys + KeysOf(es)
    decreases |es|
  {
    if |es| > 0 {
      var g1 := AddEntityTo(g, es[0]).value;
      AddEntitiesKeys(g1, es[1..]);
      KeysOfCons(g.keys, es);
    }
  }

  /** A successful addition stores each entity under its own key. */
  lemma {:induction false} AddEntitiesStores(g: Graph, es: seq<TreeEntity>)
    requires WellFormed(g) && AddEntities(g, es).Ok?
    ensures var r := AddEntities(g, es).value;
      forall i :: 0 <= i < |es| ==> es[i].key in r.nodes && r.nodes[es[i].key].entity == es[i]
    decreases |es|
  {
    if |es| > 0 {
      var g1 := AddEntityTo(g, es[0]).value;
      AddEntitySpec(g, es[0]);
      AddEntityWellFormed(g, es[0]);
      AddEntitiesStores(g1, es[1..]);
      AddEntitiesFrame(g1, es[1..]);
      forall i | 0 <= i < |es| ensures es[i].key in AddEntities(g, es).value.nodes &&
        AddEntities(g, es).value.nodes[es[i].key].entity == es[i]
      {
        if i > 0 {
          assert es[i] == es[1..][i - 1];
        }
      }
    }
  }

  /** The settings' custom nodes, `Custom(key, **value)` for each entry in order. */
  datatype CustomNode = CustomNode(key: string, semester: Option<int>, attributes: Attrs)

  function CustomEntities(nodes: seq<CustomNode>): (es: seq<TreeEntity>)
    ensures |es| == |nodes|
    ensures forall i :: 0 <= i < |nodes| ==>
      es[i] == Custom(nodes[i].key, nodes[i].semester, nodes[i].attributes)
  {
    if |nodes| == 0 then []
    else [Custom(nodes[0].key, nodes[0].semester, nodes[0].attributes)] + CustomEntities(nodes[1..])
  }

  // ---------------------------------------------------------------------------
  // add_big_relationship, add_member_relationships
  // ---------------------------------------------------------------------------

  /**
   * `add_big_relationship(member)`: the parent must be on the tree and, when
   * semesters are laid out, must not come after the member. The member's
   * semester is read before the parent's.
   */
  function AddBigRelationshipTo(g: Graph, member: TreeEntity, semesters: bool): (r: Result<Graph, TreeError>)
    requires member.Member? && member.parent.Some?
    ensures member.parent.value !in g.nodes ==>
      r == Err(ParentUnknown(member.key, member.parent.value))
    ensures r.Ok? ==> r.value == g.(edges := g.edges[(member.parent.value, member.key) := map[]])
  {
    var ckey := member.key;
    var pkey := member.parent.value;
    if pkey !in g.nodes then Err(ParentUnknown(ckey, pkey))
    else
      var parent := g.nodes[pkey].entity;
      if semesters then
        match SemesterOf(member)
        case Err(err) => Err(err)
        case Ok(cs) =>
          match SemesterOf(parent)
          case Err(err) => Err(err)
          case Ok(ps) =>
            if cs < ps then Err(ParentNotPrior(cs, ckey, pkey, ps))
            else Ok(g.(edges := g.edges[(pkey, ckey) := map[]]))
      else Ok(g.(edges := g.edges[(pkey, ckey) := map[]]))
  }

  /**
   * Wiring succeeds exactly when the parent is on the tree and, with
   * semesters laid out, both semesters are set and the member's is not
   * before the parent's; without semesters the ranks are not looked at.
   */
  lemma AddBigRelationshipSucceedsIff(g: Graph, member: TreeEntity, semesters: bool)
    requires member.Member? && member.parent.Some?
    ensures !semesters ==> (AddBigRelationshipTo(g, member, semesters).Ok? <==> member.parent.value in g.nodes)
    ensures semesters && member.parent.value in g.nodes ==>
      var parent := g.nodes[member.parent.value].entity;
      (AddBigRelationshipTo(g, member, semesters).Ok? <==>
         SemesterOf(member).Ok? && SemesterOf(parent).Ok? &&
         SemesterOf(member).value >= SemesterOf(parent).value)
  {
  }

  /** The check that raises PARENT_NOT_PRIOR fires exactly for a member strictly before its parent. */
  lemma ParentNotPriorIff(g: Graph, member: TreeEntity)
    requires member.Member? && member.parent.Some? && member.parent.value in g.nodes
    requires SemesterOf(member).Ok? && SemesterOf(g.nodes[member.parent.value].entity).Ok?
    ensures var cs := SemesterOf(member).value;
      var ps := SemesterOf(g.nodes[member.parent.value].entity).value;
      (AddBigRelationshipTo(g, member, true) == Err(ParentNotPrior(cs, member.key, member.parent.value, ps)) <==> cs < ps) &&
      (cs == ps ==> AddBigRelationshipTo(g, member, true).Ok?)
  {
  }

  /** An edge added for a member keeps the tree well formed. */
  lemma AddBigRelationshipWellFormed(g: Graph, member: TreeEntity, semesters: bool)
    requires WellFormed(g) && member.Member? && member.parent.Some? && member.key in g.nodes
    ensures AddBigRelationshipTo(g, member, semesters).Ok? ==>
      WellFormed(AddBigRelationshipTo(g, member, semesters).value)
  {
  }

  /** `add_member_relationships()`: over the node keys, each member with a truthy parent. */
  function AddRelationships(g: Graph, ks: seq<string>, semesters: bool): Result<Graph, TreeError>
    requires forall i :: 0 <= i < |ks| ==> ks[i] in g.nodes
    decreases |ks|
  {
    if |ks| == 0 then Ok(g)
    else
      var e := g.nodes[ks[0]].entity;
      if HasParent(e) then
        match AddBigRelationshipTo(g, e, semesters)
        case Err(err) => Err(err)
        case Ok(g') => AddRelationships(g', ks[1..], semesters)
      else AddRelationships(g, ks[1..], semesters)
  }

  /** The edge a member's parent field asks for. */
  predicate ParentEdge(g: Graph, e: D.Edge) {
    e.1 in g.nodes && HasParent(g.nodes[e.1].entity) && g.nodes[e.1].entity.parent.value == e.0
  }

  /**
   * Wiring the members changes nothing but the edges, only adds edges, gives
   * each new edge no attributes, and keeps the tree well formed.
   */
  lemma {:induction false} AddRelationshipsFrame(g: Graph, ks: seq<string>, semesters: bool)
    requires WellFormed(g)
    requires forall i :: 0 <= i < |ks| ==> ks[i] in g.nodes
    requires AddRelationships(g, ks, semesters).Ok?
    ensures var r := AddRelationships(g, ks, semesters).value;
      WellFormed(r) && r.keys == g.keys && r.nodes == g.nodes && r.familyColor == g.familyColor &&
      g.edges.Keys <= r.edges.Keys &&
      (forall e :: e in r.edges ==> r.edges[e] == map[] || (e in g.edges && r.edges[e] == g.edges[e]))
    decreases |ks|
  {
    if |ks| > 0 {
      var e := g.nodes[ks[0]].entity;
      if HasParent(e) {
        AddBigRelationshipWellFormed(g, e, semesters);
        AddRelationshipsFrame(AddBigRelationshipTo(g, e, semesters).value, ks[1..], semesters);
      } else {
        AddRelationshipsFrame(g, ks[1..], semesters);
      }
    }
  }

  /**
   * The new edges are exactly one edge parent → member for each listed member
   * with a parent.
   */
  lemma {:induction false} AddRelationshipsEdges(g: Graph, ks: seq<string>, semesters: bool)
    requires WellFormed(g)
    requires forall i :: 0 <= i < |ks| ==> ks[i] in g.nodes
    requires AddRelationships(g, ks, semesters).Ok?
    ensures var r := AddRelationships(g, ks, semesters).value;
      forall x :: x in r.edges <==> x in g.edges || (x.1 in ks && ParentEdge(g, x))
    decreases |ks|
  {
    if |ks| > 0 {
      var e := g.nodes[ks[0]].entity;
      var g1 := if HasParent(e) then AddBigRelationshipTo(g, e, semesters).value else g;
      if HasParent(e) {
        AddBigRelationshipWellFormed(g, e, semesters);
      }
      AddRelationshipsEdges(g1, ks[1..], semesters);
      forall x: D.Edge ensures x in g1.edges || (x.1 in ks[1..] && ParentEdge(g1, x)) <==>
        x in g.edges || (x.1 in ks && ParentEdge(g, x))
      {
        RelationshipStep(g, ks, semesters, x);
      }
    }
  }

  lemma RelationshipStep(g: Graph, ks: seq<string>, semesters: bool, x: D.Edge)
    requires WellFormed(g)
    requires |ks| > 0 && ks[0] in g.nodes
    requires HasParent(g.nodes[ks[0]].entity) ==> AddBigRelationshipTo(g, g.nodes[ks[0]].entity, semesters).Ok?
    ensures var e := g.nodes[ks[0]].entity;
      var g1 := if HasParent(e) then AddBigRelationshipTo(g, e, semesters).value else g;
      x in g1.edges || (x.1 in ks[1..] && ParentEdge(g1, x)) <==>
      x in g.edges || (x.1 in ks && ParentEdge(g, x))
  {
    var e := g.nodes[ks[0]].entity;
    assert e.key == ks[0];
    assert x.1 in ks <==> x.1 == ks[0] || x.1 in ks[1..] by {
      assert ks == [ks[0]] + ks[1..];
    }
  }

  /** No wired member lacks its parent, and with semesters laid out none precedes it. */
  ghost predicate ParentChecked(g: Graph, k: string, semesters: bool)
    requires k in g.nodes
  {
    var m := g.nodes[k].entity;
    HasParent(m) ==>
      m.parent.value in g.nodes &&
      (semesters ==> SemesterOf(m).Ok? && SemesterOf(g.nodes[m.parent.value].entity).Ok? &&
                     SemesterOf(m).value >= SemesterOf(g.nodes[m.parent.value].entity).value)
  }

  /** When wiring succeeds, every listed member with a parent passed the checks. */
  lemma {:induction false} AddRelationshipsChecked(g: Graph, ks: seq<string>, semesters: bool)
    requires forall i :: 0 <= i < |ks| ==> ks[i] in g.nodes
    requires AddRelationships(g, ks, semesters).Ok?
    ensures forall i :: 0 <= i < |ks| ==> ParentChecked(g, ks[i], semesters)
    decreases |ks|
  {
    if |ks| > 0 {
      var e := g.nodes[ks[0]].entity;
      var g1 := if HasParent(e) then AddBigRelationshipTo(g, e, semesters).value else g;
      assert g1.nodes == g.nodes;
      AddRelationshipsChecked(g1, ks[1..], semesters);
      forall i | 0 <= i < |ks| ensures ParentChecked(g, ks[i], semesters) {
        if i > 0 {
          assert ks[1..][i - 1] == ks[i];
          assert ParentChecked(g1, ks[1..][i - 1], semesters);
        }
      }
    }
  }

  // ---------------------------------------------------------------------------
  // add_custom_edges
  // ---------------------------------------------------------------------------

  /** A custom path: at least two node keys, and the attributes of all its edges. */
  datatype Path = Path(nodes: seq<string>, attributes: Attrs)

  /** The first key of a path that is not on the tree. */
  function FirstMissing(g: Graph, ks: seq<string>): (m: Option<string>)
    ensures m.None? <==> forall i :: 0 <= i < |ks| ==> ks[i] in g.nodes
    ensures m.Some? ==> m.value !in g.nodes && m.value in ks
  {
    if |ks| == 0 then None
    else if ks[0] !in g.nodes then Some(ks[0])
    else FirstMissing(g, ks[1..])
  }

  /** The key reported is the first missing one: every key before it is on the tree. */
  lemma {:induction false} FirstMissingIsFirst(g: Graph, ks: seq<string>)
    requires FirstMissing(g, ks).Some?
    ensures exists i :: (0 <= i < |ks| && ks[i] == FirstMissing(g, ks).value &&
                         forall j :: 0 <= j < i ==> ks[j] in g.nodes)
  {
    if ks[0] in g.nodes {
      FirstMissingIsFirst(g, ks[1..]);
      var i :| 0 <= i < |ks[1..]| && ks[1..][i] == FirstMissing(g, ks).value &&
        forall j :: 0 <= j < i ==> ks[1..][j] in g.nodes;
      assert ks[i + 1] == FirstMissing(g, ks).value;
      forall j | 0 <= j < i + 1 ensures ks[j] in g.nodes {
        if j > 0 { assert ks[j] == ks[1..][j - 1]; }
      }
    } else {
      assert ks[0] == FirstMissing(g, ks).value;
    }
  }

  /** (u, v) is one of the consecutive pairs of the path. */
  ghost predicate IsConsecutive(ks: seq<string>, e: D.Edge) {
    exists i :: 0 <= i < |ks| - 1 && ks[i] == e.0 && ks[i + 1] == e.1
  }

  /** `add_edges_from(zip(nodes[:-1], nodes[1:]), attributes)` */
  function AddPairs(edges: map<D.Edge, Attrs>, ks: seq<string>, attributes: Attrs): (r: map<D.Edge, Attrs>)
    ensures forall e :: e in r <==> e in edges || IsConsecutive(ks, e)
    ensures forall e :: e in r ==> r[e] == if IsConsecutive(ks, e) then attributes else edges[e]
    decreases |ks|
  {
    if |ks| < 2 then edges
    else
      var r := AddPairs(edges[(ks[0], ks[1]) := attributes], ks[1..], attributes);
      assert forall e :: IsConsecutive(ks, e) <==> e == (ks[0], ks[1]) || IsConsecutive(ks[1..], e) by {
        forall e ensures IsConsecutive(ks, e) <==> e == (ks[0], ks[1]) || IsConsecutive(ks[1..], e) {
          if IsConsecutive(ks, e) && e != (ks[0], ks[1]) {
            var i :| 0 <= i < |ks| - 1 && ks[i] == e.0 && ks[i + 1] == e.1;
            assert ks[1..][i - 1] == e.0 && ks[1..][i] == e.1;
          }
          if IsConsecutive(ks[1..], e) {
            var i :| 0 <= i < |ks[1..]| - 1 && ks[1..][i] == e.0 && ks[1..][i + 1] == e.1;
            assert ks[i + 1] == e.0 && ks[i + 2] == e.1;
          }
          if e == (ks[0], ks[1]) {
            assert ks[0] == e.0 && ks[1] == e.1;
          }
        }
      }
      r
  }

  /** "path" for more than two nodes, "edge" otherwise. */
  function PathType(ks: seq<string>): string {
    if |ks| > 2 then "path" else "edge"
  }

  /**
   * One custom path: every key is checked before any edge is added; the first
   * key not on the tree raises UNKNOWN_EDGE_COMPONENT; otherwise the
   * consecutive pairs become edges carrying the path's attributes.
   */
  function AddPathTo(g: Graph, path: Path): (r: Result<Graph, TreeError>)
    ensures r.Err? <==> exists i :: 0 <= i < |path.nodes| && path.nodes[i] !in g.nodes
    ensures r.Err? ==>
      r.error.UnknownEdgeComponent? && r.error.path == path.nodes &&
      r.error.key !in g.nodes && r.error.key in path.nodes &&
      r.error.pathType == (if |path.nodes| > 2 then "path" else "edge")
    ensures r.Ok? ==> r.value == g.(edges := AddPairs(g.edges, path.nodes, path.attributes))
  {
    match FirstMissing(g, path.nodes)
    case Some(k) => Err(UnknownEdgeComponent(PathType(path.nodes), path.nodes, k))
    case None => Ok(g.(edges := AddPairs(g.edges, path.nodes, path.attributes)))
  }

  /** A path of n known keys adds the n-1 consecutive pairs as edges, and nothing else. */
  lemma AddPathSpec(g: Graph, path: Path)
    requires WellFormed(g)
    ensures AddPathTo(g, path).Ok? ==>
      var r := AddPathTo(g, path).value;
      WellFormed(r) && r.nodes == g.nodes && r.keys == g.keys &&
      (forall i :: 0 <= i < |path.nodes| - 1 ==> r.edges[(path.nodes[i], path.nodes[i + 1])] == path.attributes) &&
      (forall e :: e in r.edges && e !in g.edges ==> IsConsecutive(path.nodes, e)) &&
      (forall e :: e in g.edges && !IsConsecutive(path.nodes, e) ==> r.edges[e] == g.edges[e])
  {
    if AddPathTo(g, path).Ok? {
      var r := AddPathTo(g, path).value;
      forall i | 0 <= i < |path.nodes| - 1
        ensures r.edges[(path.nodes[i], path.nodes[i + 1])] == path.attributes
      {
        assert IsConsecutive(path.nodes, (path.nodes[i], path.nodes[i + 1]));
      }
      forall e | e in r.edges ensures e.0 in r.nodes && e.1 in r.nodes {
        if IsConsecutive(path.nodes, e) {
          var i :| 0 <= i < |path.nodes| - 1 && path.nodes[i] == e.0 && path.nodes[i + 1] == e.1;
        }
      }
    }
  }

  /** `add_custom_edges()`: the paths in order, stopping at the first error. */
  function AddPaths(g: Graph, paths: seq<Path>): Result<Graph, TreeError>
    decreases |paths|
  {
    if |paths| == 0 then Ok(g)
    else
      match AddPathTo(g, paths[0])
      case Err(err) => Err(err)
      case Ok(g') => AddPaths(g', paths[1..])
  }

  /** Custom paths keep the tree well formed and never change its nodes. */
  lemma {:induction false} AddPathsSpec(g: Graph, paths: seq<Path>)
    requires WellFormed(g)
    ensures AddPaths(g, paths).Ok? ==>
      var r := AddPaths(g, paths).value;
      WellFormed(r) && r.nodes == g.nodes && r.keys == g.keys && r.familyColor == g.familyColor &&
      g.edges.Keys <= r.edges.Keys
    ensures AddPaths(g, paths).Err? ==> AddPaths(g, paths).error.UnknownEdgeComponent?
    decreases |paths|
  {
    if |paths| > 0 {
      AddPathSpec(g, paths[0]);
      if AddPathTo(g, paths[0]).Ok? {
        AddPathsSpec(AddPathTo(g, paths[0]).value, paths[1..]);
      }
    }
  }

  // ---------------------------------------------------------------------------
  // remove_singleton_members
  // ---------------------------------------------------------------------------

  /** A member node that no edge touches: networkx degree 0. */
  predicate IsSingleton(g: Graph, k: string) {
    IsMember(g, k) && D.Degree(g.edges.Keys, k) == 0
  }

  /** The keys of ks that are not in S, in order. */
  function Without(ks: seq<string>, S: set<string>): (r: seq<string>)
    ensures forall k :: k in r <==> k in ks && k !in S
    ensures Distinct(ks) ==> Distinct(r)
    decreases |ks|
  {
    if |ks| == 0 then []
    else
      var rest := Without(ks[..|ks| - 1], S);
      var last := ks[|ks| - 1];
      assert ks == ks[..|ks| - 1] + [last];
      if last in S then rest else rest + [last]
  }

  /** The singletons among the keys ks, in order. */
  function Singletons(g: Graph, ks: seq<string>): (r: seq<string>)
    ensures forall k :: k in r <==> k in ks && IsSingleton(g, k)
    decreases |ks|
  {
    if |ks| == 0 then []
    else
      var rest := Singletons(g, ks[..|ks| - 1]);
      var last := ks[|ks| - 1];
      assert ks == ks[..|ks| - 1] + [last];
      if IsSingleton(g, last) then rest + [last] else rest
  }

  /** `remove_nodes_from(keys)`: the nodes go, the rest keep their order and data. */
  function RemoveNodes(g: Graph, S: set<string>): Graph {
    g.(keys := Without(g.keys, S), nodes := map k | k in g.nodes && k !in S :: g.nodes[k])
  }

  /** `remove_singleton_members()` */
  function RemoveSingletonsFrom(g: Graph): Graph {
    var singletons := Singletons(g, g.keys);
    RemoveNodes(g, set k | k in singletons)
  }

  /**
   * Pruning removes exactly the member nodes of degree 0; every other node
   * keeps its data and its place in the order, all edges stay, and the tree
   * stays well formed.
   */
  lemma RemoveSingletonsSpec(g: Graph)
    requires WellFormed(g)
    ensures var r := RemoveSingletonsFrom(g);
      WellFormed(r) &&
      (forall k :: k in r.nodes <==> k in g.nodes && !IsSingleton(g, k)) &&
      (forall k :: k in r.nodes ==> r.nodes[k] == g.nodes[k]) &&
      r.keys == Without(g.keys, set k | k in g.nodes && IsSingleton(g, k)) &&
      r.edges == g.edges && r.familyColor == g.familyColor
  {
    var r := RemoveSingletonsFrom(g);
    var S := set k | k in Singletons(g, g.keys);
    assert S == set k | k in g.nodes && IsSingleton(g, k);
    forall e | e in r.edges ensures e.0 in r.nodes && e.1 in r.nodes {
      EdgeEndsNotIsolated(g.edges.Keys, e);
    }
  }

  /** The two ends of an edge have positive degree. */
  lemma EdgeEndsNotIsolated(E: set<D.Edge>, e: D.Edge)
    requires e in E
    ensures D.Degree(E, e.0) > 0 && D.Degree(E, e.1) > 0
  {
    D.DegreeZeroIffIsolated(E, e.0);
    D.DegreeZeroIffIsolated(E, e.1);
  }

  // ---------------------------------------------------------------------------
  // mark_families
  // ---------------------------------------------------------------------------

  /** The keys of the member nodes: the vertices of the members-only subgraph. */
  function MemberKeys(g: Graph): (M: set<string>)
    ensures forall k :: k in M <==> IsMember(g, k)
  {
    set k | k in g.nodes && g.nodes[k].entity.Member?
  }

  /** The family of a member: its weakly connected component among the members. */
  function FamilyOf(g: Graph, k: string): (f: Family)
    requires IsMember(g, k)
    ensures k in f && f <= MemberKeys(g)
  {
    D.Component(MemberKeys(g), g.edges.Keys, k)
  }

  /**
   * `mark_families()`: each member's node points at its family; the families
   * are fresh records, so none has a colour yet.
   */
  function MarkFamiliesIn(g: Graph): Graph {
    g.(nodes := map k | k in g.nodes :: Marked(g, k), familyColor := map[])
  }

  /** The node at k once families are marked: a member's points at its family. */
  function Marked(g: Graph, k: string): NodeData
    requires k in g.nodes
  {
    if IsMember(g, k) then g.nodes[k].(family := Some(FamilyOf(g, k))) else g.nodes[k]
  }

  /**
   * After marking, two members share a family exactly when an undirected path
   * through members joins them; non-members get no family, and only the
   * family field changes.
   */
  lemma MarkFamiliesSpec(g: Graph, a: string, b: string)
    requires IsMember(g, a) && IsMember(g, b)
    ensures var r := MarkFamiliesIn(g);
      r.nodes[a].family.Some? && r.nodes[b].family.Some? &&
      (r.nodes[a].family == r.nodes[b].family <==> D.Connected(MemberKeys(g), g.edges.Keys, a, b))
  {
    D.SameComponentIffConnected(MemberKeys(g), g.edges.Keys, a, b);
  }

  /** Marking keeps the tree's keys, edges, entities and attributes, and its well-formedness. */
  lemma MarkFamiliesFrame(g: Graph)
    requires WellFormed(g)
    ensures var r := MarkFamiliesIn(g);
      WellFormed(r) && r.keys == g.keys && r.edges == g.edges && r.nodes.Keys == g.nodes.Keys &&
      r.familyColor == map[] &&
      (forall k :: k in g.nodes ==>
        r.nodes[k].entity == g.nodes[k].entity &&
        r.nodes[k].dotAttributes == g.nodes[k].dotAttributes &&
        (IsMember(g, k) ==> r.nodes[k].family == Some(FamilyOf(g, k))) &&
        (!IsMember(g, k) ==> r.nodes[k].family == g.nodes[k].family))
  {
  }

  // ---------------------------------------------------------------------------
  // add_colors, first pass: the colours given in the settings
  // ---------------------------------------------------------------------------

  /**
   * The settings' family colours, in order: a key that is not on the tree is
   * skipped (with a warning); a present key's family takes the colour unless
   * it already has one, which raises; a node without a family raises
   * `KeyError`. Each colour used is moved to the back of the picker.
   */
  function ColorFamilies(g: Graph, p: CP.Picker, fc: seq<(string, string)>): (r: Result<(Graph, CP.Picker), TreeError>)
    ensures r.Ok? ==> multiset(r.value.1.colors) == multiset(p.colors)
    decreases |fc|
  {
    if |fc| == 0 then Ok((g, p))
    else
      var key := fc[0].0;
      var color := fc[0].1;
      if key !in g.nodes then ColorFamilies(g, p, fc[1..])
      else match g.nodes[key].family
        case None => Err(MissingFamily(key))
        case Some(f) =>
          if f in g.familyColor then Err(FamilyColorConflict(key, color))
          else ColorFamilies(g.(familyColor := g.familyColor[f := color]), CP.Use(p, color), fc[1..])
  }

  /** The keys of the settings' family colours that are not on the tree: one warning each. */
  function NonexistentColorKeys(g: Graph, fc: seq<(string, string)>): (ks: seq<string>)
    ensures forall k :: k in ks <==> (exists i :: 0 <= i < |fc| && fc[i].0 == k) && k !in g.nodes
  {
    if |fc| == 0 then []
    else
      assert forall i :: 0 < i < |fc| ==> fc[i] == fc[1..][i - 1];
      (if fc[0].0 in g.nodes then [] else [fc[0].0]) + NonexistentColorKeys(g, fc[1..])
  }

  /** The family of the node at key k, when k is on the tree and has one. */
  function FamilyAt(g: Graph, k: string): Option<Family> {
    if k in g.nodes then g.nodes[k].family else None
  }

  /**
   * The settings' colours can all be applied: every entry whose key is on the
   * tree names a node with a family that has no colour yet, and no two such
   * entries name the same family.
   */
  ghost predicate Colorable(g: Graph, fc: seq<(string, string)>) {
    (forall i :: 0 <= i < |fc| && fc[i].0 in g.nodes ==>
      FamilyAt(g, fc[i].0).Some? && FamilyAt(g, fc[i].0).value !in g.familyColor) &&
    (forall i, j :: 0 <= i < j < |fc| && fc[i].0 in g.nodes && fc[j].0 in g.nodes ==>
      FamilyAt(g, fc[i].0) != FamilyAt(g, fc[j].0))
  }

  lemma ColorableStep(g: Graph, fc: seq<(string, string)>, f: Family)
    requires |fc| > 0 && fc[0].0 in g.nodes && FamilyAt(g, fc[0].0) == Some(f) && f !in g.familyColor
    ensures Colorable(g, fc) <==> Colorable(g.(familyColor := g.familyColor[f := fc[0].1]), fc[1..])
  {
    var g' := g.(familyColor := g.familyColor[f := fc[0].1]);
    assert forall i :: 0 < i < |fc| ==> fc[i] == fc[1..][i - 1];
    assert forall k :: FamilyAt(g', k) == FamilyAt(g, k);
    if Colorable(g', fc[1..]) {
      forall i, j | 0 <= i < j < |fc| && fc[i].0 in g.nodes && fc[j].0 in g.nodes
        ensures FamilyAt(g, fc[i].0) != FamilyAt(g, fc[j].0)
      {
        if i > 0 {
          assert fc[1..][i - 1] == fc[i] && fc[1..][j - 1] == fc[j];
        } else {
          assert fc[1..][j - 1] == fc[j];
        }
      }
    }
  }

  lemma ColorableSkip(g: Graph, fc: seq<(string, string)>)
    requires |fc| > 0 && fc[0].0 !in g.nodes
    ensures Colorable(g, fc) <==> Colorable(g, fc[1..])
  {
    assert forall i :: 0 < i < |fc| ==> fc[i] == fc[1..][i - 1];
    if Colorable(g, fc[1..]) {
      forall i, j | 0 <= i < j < |fc| && fc[i].0 in g.nodes && fc[j].0 in g.nodes
        ensures FamilyAt(g, fc[i].0) != FamilyAt(g, fc[j].0)
      {
        assert fc[1..][i - 1] == fc[i] && fc[1..][j - 1] == fc[j];
      }
    }
  }

  /**
   * The first pass succeeds exactly when the colours are applicable; when it
   * fails, the error is a missing family or a colour conflict for a key of
   * the settings.
   */
  lemma {:induction false} ColorFamiliesSucceedsIff(g: Graph, p: CP.Picker, fc: seq<(string, string)>)
    ensures ColorFamilies(g, p, fc).Ok? <==> Colorable(g, fc)
    ensures ColorFamilies(g, p, fc).Err? ==>
      var e := ColorFamilies(g, p, fc).error;
      (e.MissingFamily? || e.FamilyColorConflict?) && exists i :: 0 <= i < |fc| && fc[i].0 == e.key
    decreases |fc|
  {
    if |fc| > 0 {
      var key := fc[0].0;
      if key !in g.nodes {
        ColorableSkip(g, fc);
        ColorFamiliesSucceedsIff(g, p, fc[1..]);
        if ColorFamilies(g, p, fc).Err? {
          var i :| 0 <= i < |fc[1..]| && fc[1..][i].0 == ColorFamilies(g, p, fc).error.key;
          assert fc[i + 1] == fc[1..][i];
        }
      } else if g.nodes[key].family.Some? && g.nodes[key].family.value !in g.familyColor {
        var f := g.nodes[key].family.value;
        var g' := g.(familyColor := g.familyColor[f := fc[0].1]);
        ColorableStep(g, fc, f);
        ColorFamiliesSucceedsIff(g', CP.Use(p, fc[0].1), fc[1..]);
        if ColorFamilies(g, p, fc).Err? {
          var i :| 0 <= i < |fc[1..]| && fc[1..][i].0 == ColorFamilies(g, p, fc).error.key;
          assert fc[i + 1] == fc[1..][i];
        }
      }
    }
  }

  /**
   * After the first pass only the family colours have changed: the colours
   * already there stay, and every entry whose key is on the tree has coloured
   * that key's family with its colour.
   */
  lemma {:induction false} ColorFamiliesResult(g: Graph, p: CP.Picker, fc: seq<(string, string)>)
    requires ColorFamilies(g, p, fc).Ok?
    ensures var r := ColorFamilies(g, p, fc).value.0;
      r == g.(familyColor := r.familyColor) &&
      (forall f :: f in g.familyColor ==> f in r.familyColor && r.familyColor[f] == g.familyColor[f]) &&
      (forall i :: 0 <= i < |fc| && fc[i].0 in g.nodes ==>
        FamilyAt(g, fc[i].0).Some? && FamilyAt(g, fc[i].0).value in r.familyColor &&
        r.familyColor[FamilyAt(g, fc[i].0).value] == fc[i].1)
    decreases |fc|
  {
    if |fc| > 0 {
      assert forall i :: 0 < i < |fc| ==> fc[i] == fc[1..][i - 1];
      var key := fc[0].0;
      if key !in g.nodes {
        ColorFamiliesResult(g, p, fc[1..]);
      } else {
        var f := g.nodes[key].family.value;
        var g' := g.(familyColor := g.familyColor[f := fc[0].1]);
        ColorFamiliesResult(g', CP.Use(p, fc[0].1), fc[1..]);
        assert forall k :: FamilyAt(g', k) == FamilyAt(g, k);
      }
    }
  }

  // ---------------------------------------------------------------------------
  // add_colors, second pass: every member in sorted key order
  // ---------------------------------------------------------------------------

  /**
   * One member of family f: the family takes the picker's next colour when it
   * has none, and the member's node takes its family's colour.
   */
  function ColorMember(g: Graph, p: CP.Picker, k: string, f: Family): (r: (Graph, CP.Picker))
    requires k in g.nodes && |p.colors| > 0
    ensures |r.1.colors| == |p.colors|
  {
    var next := if f in g.familyColor then (g.familyColor[f], p) else CP.Next(p);
    assert |multiset(next.1.colors)| == |multiset(p.colors)|;
    var n := g.nodes[k];
    (g.(nodes := g.nodes[k := n.(dotAttributes := n.dotAttributes["color" := Text(next.0)])],
        familyColor := g.familyColor[f := next.0]),
     next.1)
  }

  /**
   * Visit the keys in order: a member whose family has no colour yet gives it
   * the picker's next colour, and each member's node takes its family's
   * colour as its `color` attribute. A member without a family raises
   * `KeyError`; other nodes are skipped.
   */
  function ColorNodes(g: Graph, p: CP.Picker, ks: seq<string>): (r: Result<(Graph, CP.Picker), TreeError>)
    requires |p.colors| > 0
    decreases |ks|
  {
    if |ks| == 0 then Ok((g, p))
    else
      var k := ks[0];
      if !IsMember(g, k) then ColorNodes(g, p, ks[1..])
      else match g.nodes[k].family
        case None => Err(MissingFamily(k))
        case Some(f) =>
          var st := ColorMember(g, p, k, f);
          ColorNodes(st.0, st.1, ks[1..])
  }

  /** The families of the members, by key: what the second pass reads. */
  function MemberFamilies(g: Graph): map<string, Option<Family>> {
    map k | k in g.nodes && g.nodes[k].entity.Member? :: g.nodes[k].family
  }

  /**
   * Colouring one member changes that member's attributes and gives its
   * family a colour (the one it had, if any); nothing else.
   */
  lemma ColorMemberSpec(g: Graph, p: CP.Picker, k: string, f: Family)
    requires IsMember(g, k) && |p.colors| > 0
    ensures var r := ColorMember(g, p, k, f).0;
      r.keys == g.keys && r.edges == g.edges && r.nodes.Keys == g.nodes.Keys &&
      MemberFamilies(r) == MemberFamilies(g) &&
      (forall x :: IsMember(r, x) <==> IsMember(g, x)) &&
      (forall x :: x in g.nodes ==> r.nodes[x].entity == g.nodes[x].entity && r.nodes[x].family == g.nodes[x].family) &&
      (forall x :: x in g.nodes && x != k ==> r.nodes[x] == g.nodes[x]) &&
      f in r.familyColor &&
      r.nodes[k].dotAttributes == g.nodes[k].dotAttributes["color" := Text(r.familyColor[f])] &&
      r.familyColor.Keys == g.familyColor.Keys + {f} &&
      (forall h :: h in g.familyColor ==> r.familyColor[h] == g.familyColor[h]) &&
      (f !in g.familyColor ==> r.familyColor[f] == CP.Next(p).0 && ColorMember(g, p, k, f).1 == CP.Next(p).1) &&
      (f in g.familyColor ==> ColorMember(g, p, k, f).1 == p)
  {
    var r := ColorMember(g, p, k, f).0;
    assert MemberFamilies(r) == MemberFamilies(g);
  }

  /** What the second pass may not change: keys, edges, entities, families, and other nodes. */
  ghost predicate ColoredFrom(g: Graph, r: Graph, ks: seq<string>) {
    r.keys == g.keys && r.edges == g.edges && r.nodes.Keys == g.nodes.Keys &&
    (forall k :: k in g.nodes ==>
      r.nodes[k].entity == g.nodes[k].entity && r.nodes[k].family == g.nodes[k].family &&
      (k !in ks || !IsMember(g, k) ==> r.nodes[k] == g.nodes[k])) &&
    (forall f :: f in g.familyColor ==> f in r.familyColor && r.familyColor[f] == g.familyColor[f])
  }

  /**
   * The second pass changes only the visited members' attributes and adds
   * family colours; the colours already chosen stay.
   */
  lemma {:induction false} ColorNodesFrame(g: Graph, p: CP.Picker, ks: seq<string>)
    requires |p.colors| > 0
    requires ColorNodes(g, p, ks).Ok?
    ensures ColoredFrom(g, ColorNodes(g, p, ks).value.0, ks)
    decreases |ks|
  {
    if |ks| > 0 {
      var k := ks[0];
      if !IsMember(g, k) {
        ColorNodesFrame(g, p, ks[1..]);
      } else {
        var st := ColorMember(g, p, k, g.nodes[k].family.value);
        ColorMemberSpec(g, p, k, g.nodes[k].family.value);
        ColorNodesFrame(st.0, st.1, ks[1..]);
      }
    }
  }

  /** The second pass fails exactly when a visited member has no family, and says which. */
  lemma {:induction false} ColorNodesSucceedsIff(g: Graph, p: CP.Picker, ks: seq<string>)
    requires |p.colors| > 0
    ensures ColorNodes(g, p, ks).Ok? <==> forall k :: k in ks && IsMember(g, k) ==> g.nodes[k].family.Some?
    ensures ColorNodes(g, p, ks).Err? ==>
      var e := ColorNodes(g, p, ks).error;
      e.MissingFamily? && e.key in ks && IsMember(g, e.key) && g.nodes[e.key].family.None?
    decreases |ks|
  {
    if |ks| > 0 {
      var k := ks[0];
      assert forall x :: x in ks <==> x == k || x in ks[1..];
      if !IsMember(g, k) {
        ColorNodesSucceedsIff(g, p, ks[1..]);
      } else if g.nodes[k].family.Some? {
        var st := ColorMember(g, p, k, g.nodes[k].family.value);
        ColorMemberSpec(g, p, k, g.nodes[k].family.value);
        ColorNodesSucceedsIff(st.0, st.1, ks[1..]);
      }
    }
  }

  /** Without repetitions, the head is not in the tail, and the tail has none either. */
  lemma DistinctTail<T>(s: seq<T>)
    requires Distinct(s) && |s| > 0
    ensures Distinct(s[1..]) && s[0] !in s[1..]
  {
    forall i, j | 0 <= i < j < |s[1..]| ensures s[1..][i] != s[1..][j] {
      assert s[1..][i] == s[i + 1] && s[1..][j] == s[j + 1];
    }
    forall j | 0 <= j < |s[1..]| ensures s[1..][j] != s[0] {
      assert s[1..][j] == s[j + 1];
    }
  }

  /** Every visited member has its family's colour as its `color` attribute, on top of the attributes it had. */
  ghost predicate MembersColored(g: Graph, r: Graph, ks: seq<string>) {
    forall k :: k in ks && IsMember(g, k) ==>
      g.nodes[k].family.Some? && g.nodes[k].family.value in r.familyColor && k in r.nodes &&
      r.nodes[k].dotAttributes == g.nodes[k].dotAttributes["color" := Text(r.familyColor[g.nodes[k].family.value])]
  }

  /** Each visited member ends up coloured like its family. */
  lemma {:induction false} ColorNodesColors(g: Graph, p: CP.Picker, ks: seq<string>)
    requires |p.colors| > 0
    requires Distinct(ks)
    requires ColorNodes(g, p, ks).Ok?
    ensures MembersColored(g, ColorNodes(g, p, ks).value.0, ks)
    decreases |ks|
  {
    if |ks| > 0 {
      var k := ks[0];
      assert forall x :: x in ks <==> x == k || x in ks[1..];
      DistinctTail(ks);
      if !IsMember(g, k) {
        ColorNodesColors(g, p, ks[1..]);
      } else {
        var f := g.nodes[k].family.value;
        var st := ColorMember(g, p, k, f);
        ColorMemberSpec(g, p, k, f);
        ColorNodesColors(st.0, st.1, ks[1..]);
        ColorNodesFrame(st.0, st.1, ks[1..]);
      }
    }
  }

  /**
   * The families that still need a colour, in the order the second pass
   * first meets them: each family once, and none already in `known`.
   */
  function FamilyOrder(mf: map<string, Option<Family>>, ks: seq<string>, known: set<Family>): (fs: seq<Family>)
    ensures Distinct(fs) && forall f :: f in fs ==> f !in known
    decreases |ks|
  {
    if |ks| == 0 then []
    else if ks[0] in mf && mf[ks[0]].Some? && mf[ks[0]].value !in known then
      var f := mf[ks[0]].value;
      var rest := FamilyOrder(mf, ks[1..], known + {f});
      assert forall i :: 0 < i < |rest| + 1 ==> ([f] + rest)[i] == rest[i - 1];
      [f] + rest
    else FamilyOrder(mf, ks[1..], known)
  }

  /** The i-th family of fs has the colour the (i+1)-th call of `next` hands out. */
  ghost predicate ColorsFollowPicker(r: Graph, fs: seq<Family>, p: CP.Picker)
    requires |p.colors| > 0
  {
    forall i :: 0 <= i < |fs| ==> fs[i] in r.familyColor && r.familyColor[fs[i]] == CP.Next(CP.Advance(p, i)).0
  }

  /**
   * The families without a colour receive the picker's colours in the order
   * the sorted walk first meets them.
   */
  lemma {:induction false} ColorNodesOrder(g: Graph, p: CP.Picker, ks: seq<string>)
    requires |p.colors| > 0
    requires ColorNodes(g, p, ks).Ok?
    ensures ColorsFollowPicker(ColorNodes(g, p, ks).value.0, FamilyOrder(MemberFamilies(g), ks, g.familyColor.Keys), p)
    decreases |ks|
  {
    if |ks| > 0 {
      var k := ks[0];
      if !IsMember(g, k) {
        assert k !in MemberFamilies(g);
        ColorNodesOrder(g, p, ks[1..]);
      } else {
        var f := g.nodes[k].family.value;
        var st := ColorMember(g, p, k, f);
        ColorMemberSpec(g, p, k, f);
        ColorNodesOrder(st.0, st.1, ks[1..]);
        if f !in g.familyColor {
          ColorNodesFrame(st.0, st.1, ks[1..]);
          NewFamilyStep(g, p, ks, st.0, ColorNodes(g, p, ks).value.0);
        } else {
          assert k in MemberFamilies(g) && MemberFamilies(g)[k] == Some(f);
          assert st.0.familyColor.Keys == g.familyColor.Keys;
        }
      }
    }
  }

  /** The step of ColorNodesOrder at a member whose family is coloured first. */
  lemma NewFamilyStep(g: Graph, p: CP.Picker, ks: seq<string>, g': Graph, r: Graph)
    requires |p.colors| > 0 && |ks| > 0 && IsMember(g, ks[0]) && g.nodes[ks[0]].family.Some?
    requires var f := g.nodes[ks[0]].family.value;
      f !in g.familyColor && g' == ColorMember(g, p, ks[0], f).0
    requires MemberFamilies(g') == MemberFamilies(g)
    requires g'.familyColor.Keys == g.familyColor.Keys + {g.nodes[ks[0]].family.value}
    requires var f := g.nodes[ks[0]].family.value;
      g'.familyColor[f] == CP.Next(p).0 && f in r.familyColor && r.familyColor[f] == g'.familyColor[f]
    requires ColorsFollowPicker(r, FamilyOrder(MemberFamilies(g'), ks[1..], g'.familyColor.Keys), CP.Next(p).1)
    ensures ColorsFollowPicker(r, FamilyOrder(MemberFamilies(g), ks, g.familyColor.Keys), p)
  {
    var f := g.nodes[ks[0]].family.value;
    var fs := FamilyOrder(MemberFamilies(g), ks, g.familyColor.Keys);
    var rest := FamilyOrder(MemberFamilies(g), ks[1..], g.familyColor.Keys + {f});
    assert ks[0] in MemberFamilies(g) && MemberFamilies(g)[ks[0]] == Some(f);
    assert fs == [f] + rest;
    forall i | 0 < i < |fs|
      ensures fs[i] in r.familyColor && r.familyColor[fs[i]] == CP.Next(CP.Advance(p, i)).0
    {
      assert fs[i] == rest[i - 1];
    }
  }

  /**
   * `add_colors()`: the settings' colours first, then one pass over the
   * sorted keys. The picker starts from the given palette.
   */
  function AddColorsTo(g: Graph, fc: seq<(string, string)>, palette: seq<string>): (r: Result<Graph, TreeError>)
    requires |palette| > 0
  {
    match ColorFamilies(g, CP.Picker(palette), fc)
    case Err(e) => Err(e)
    case Ok(first) =>
      assert |first.1.colors| == |palette| by {
        assert |multiset(first.1.colors)| == |multiset(palette)|;
      }
      match ColorNodes(first.0, first.1, SortStrings(first.0.keys))
      case Err(e) => Err(e)
      case Ok(second) => Ok(second.0)
  }

  /**
   * `add_colors()` succeeds exactly when the settings' colours are applicable
   * and every member has a family. Then every member wears its family's
   * colour, the settings' colours are the ones their families wear, and only
   * attributes and family colours have changed.
   */
  lemma AddColorsSpec(g: Graph, fc: seq<(string, string)>, palette: seq<string>)
    requires WellFormed(g) && |palette| > 0
    ensures AddColorsTo(g, fc, palette).Ok? <==>
      Colorable(g, fc) && forall k :: IsMember(g, k) ==> g.nodes[k].family.Some?
    ensures AddColorsTo(g, fc, palette).Ok? ==>
      var r := AddColorsTo(g, fc, palette).value;
      MembersColored(g, r, g.keys) && WellFormed(r) &&
      r.keys == g.keys && r.edges == g.edges && r.nodes.Keys == g.nodes.Keys &&
      (forall k :: k in g.nodes ==> r.nodes[k].entity == g.nodes[k].entity) &&
      (forall i :: 0 <= i < |fc| && fc[i].0 in g.nodes ==>
        FamilyAt(g, fc[i].0).Some? && FamilyAt(g, fc[i].0).value in r.familyColor &&
        r.familyColor[FamilyAt(g, fc[i].0).value] == fc[i].1)
  {
    var p := CP.Picker(palette);
    ColorFamiliesSucceedsIff(g, p, fc);
    if ColorFamilies(g, p, fc).Ok? {
      ColorFamiliesResult(g, p, fc);
      var first := ColorFamilies(g, p, fc).value;
      var g1 := first.0;
      assert |first.1.colors| == |palette| by {
        assert |multiset(first.1.colors)| == |multiset(palette)|;
      }
      var ks := SortStrings(g1.keys);
      DistinctByMultiset(g1.keys, ks);
      assert forall x :: x in ks <==> x in multiset(g.keys);
      assert forall x :: IsMember(g1, x) <==> IsMember(g, x);
      ColorNodesSucceedsIff(g1, first.1, ks);
      if ColorNodes(g1, first.1, ks).Ok? {
        var r := ColorNodes(g1, first.1, ks).value.0;
        ColorNodesColors(g1, first.1, ks);
        ColorNodesFrame(g1, first.1, ks);
        assert MembersColored(g, r, g.keys);
      }
    }
  }

  // ---------------------------------------------------------------------------
  // add_orphan_parents
  // ---------------------------------------------------------------------------

  /** A member with no in-edge: nobody on the tree is its parent. */
  predicate IsOrphan(g: Graph, k: string) {
    IsMember(g, k) && D.InDegree(g.edges.Keys, k) == 0
  }

  /** `orphan_keys()` among ks: the orphans, in order. */
  function Orphans(g: Graph, ks: seq<string>): (r: seq<string>)
    ensures forall k :: k in r <==> k in ks && IsOrphan(g, k)
    ensures Distinct(ks) ==> Distinct(r)
    decreases |ks|
  {
    if |ks| == 0 then []
    else
      var rest := Orphans(g, ks[..|ks| - 1]);
      var last := ks[|ks| - 1];
      assert ks == ks[..|ks| - 1] + [last];
      if IsOrphan(g, last) then rest + [last] else rest
  }

  /** The placeholder parent of member k: `UnidentifiedMember(member, attributes)`. */
  function PlaceholderOf(m: TreeEntity, nodeAttributes: Attrs): (e: TreeEntity)
    ensures e.Custom? && e.key == E.PlaceholderKey(m.key)
    ensures e.semester == E.PlaceholderSemester(m.key, m.semester)
  {
    Custom(E.PlaceholderKey(m.key), E.PlaceholderSemester(m.key, m.semester), nodeAttributes)
  }

  /**
   * One orphan: its parent becomes the placeholder's key, the placeholder is
   * added like any entity (a clash raises), and the edge from it to the
   * orphan gets the unknown-edge attributes.
   */
  function AddOrphanParent(g: Graph, o: string, nodeAttributes: Attrs, edgeAttributes: Attrs): (r: Result<Graph, TreeError>)
    requires IsMember(g, o)
    ensures r.Ok? ==> forall x :: IsMember(g, x) ==> IsMember(r.value, x)
  {
    var m := g.nodes[o].entity;
    var parent := PlaceholderOf(m, nodeAttributes);
    var g1 := g.(nodes := g.nodes[o := g.nodes[o].(entity := m.(parent := Some(parent.key)))]);
    match AddEntityTo(g1, parent)
    case Err(e) => Err(e)
    case Ok(g2) => Ok(g2.(edges := g2.edges[(parent.key, o) := edgeAttributes]))
  }

  /** The orphans ks, one after the other. */
  function AddOrphans(g: Graph, ks: seq<string>, nodeAttributes: Attrs, edgeAttributes: Attrs): (r: Result<Graph, TreeError>)
    requires forall k :: k in ks ==> IsMember(g, k)
    decreases |ks|
  {
    if |ks| == 0 then Ok(g)
    else match AddOrphanParent(g, ks[0], nodeAttributes, edgeAttributes)
      case Err(e) => Err(e)
      case Ok(g') => AddOrphans(g', ks[1..], nodeAttributes, edgeAttributes)
  }

  /** `add_orphan_parents()`: the orphans are listed first, then each gets its placeholder. */
  function AddOrphanParentsTo(g: Graph, nodeAttributes: Attrs, edgeAttributes: Attrs): Result<Graph, TreeError> {
    AddOrphans(g, Orphans(g, g.keys), nodeAttributes, edgeAttributes)
  }

  /** Distinct members have distinct placeholder keys. */
  lemma PlaceholderKeyInjective(a: string, b: string)
    requires E.PlaceholderKey(a) == E.PlaceholderKey(b)
    ensures a == b
  {
    assert a == E.PlaceholderKey(a)[..|a|];
  }

  /** One orphan's step fails exactly when its placeholder's key is taken. */
  lemma AddOrphanParentSucceedsIff(g: Graph, o: string, nodeAttributes: Attrs, edgeAttributes: Attrs)
    requires WellFormed(g) && IsMember(g, o)
    ensures var r := AddOrphanParent(g, o, nodeAttributes, edgeAttributes);
      (r.Ok? <==> E.PlaceholderKey(o) !in g.nodes) &&
      (r.Err? ==> r.error == DuplicateEntity(E.PlaceholderKey(o)))
  {
  }

  /**
   * A successful step adds the placeholder node after the others and the
   * edge from it to the orphan, and points the orphan at it; nothing else
   * changes.
   */
  lemma AddOrphanParentResult(g: Graph, o: string, nodeAttributes: Attrs, edgeAttributes: Attrs)
    requires WellFormed(g) && IsMember(g, o)
    requires AddOrphanParent(g, o, nodeAttributes, edgeAttributes).Ok?
    ensures var r := AddOrphanParent(g, o, nodeAttributes, edgeAttributes).value;
      var pk := E.PlaceholderKey(o);
      r.keys == g.keys + [pk] &&
      r.nodes == g.nodes[o := g.nodes[o].(entity := g.nodes[o].entity.(parent := Some(pk)))]
                        [pk := NodeData(PlaceholderOf(g.nodes[o].entity, nodeAttributes), nodeAttributes, None)] &&
      r.edges == g.edges[(pk, o) := edgeAttributes] &&
      r.familyColor == g.familyColor
  {
  }

  /** A successful step keeps the tree well formed. */
  lemma AddOrphanParentWellFormed(g: Graph, o: string, nodeAttributes: Attrs, edgeAttributes: Attrs)
    requires WellFormed(g) && IsMember(g, o)
    requires AddOrphanParent(g, o, nodeAttributes, edgeAttributes).Ok?
    ensures WellFormed(AddOrphanParent(g, o, nodeAttributes, edgeAttributes).value)
  {
    var m := g.nodes[o].entity;
    var parent := PlaceholderOf(m, nodeAttributes);
    var g1 := g.(nodes := g.nodes[o := g.nodes[o].(entity := m.(parent := Some(parent.key)))]);
    assert WellFormed(g1);
    AddEntityWellFormed(g1, parent);
  }

  /** The members keep being members through a step, and the other keys stay absent or present. */
  lemma AddOrphanParentKeeps(g: Graph, o: string, nodeAttributes: Attrs, edgeAttributes: Attrs)
    requires WellFormed(g) && IsMember(g, o)
    requires AddOrphanParent(g, o, nodeAttributes, edgeAttributes).Ok?
    ensures var r := AddOrphanParent(g, o, nodeAttributes, edgeAttributes).value;
      (forall x :: IsMember(r, x) <==> IsMember(g, x)) &&
      (forall x :: x in r.nodes <==> x in g.nodes || x == E.PlaceholderKey(o))
  {
    AddOrphanParentResult(g, o, nodeAttributes, edgeAttributes);
  }

  /**
   * The orphans' steps all succeed exactly when no placeholder key is taken
   * already; a failure names the placeholder key that was.
   */
  lemma {:induction false} AddOrphansSucceedsIff(g: Graph, ks: seq<string>, nodeAttributes: Attrs, edgeAttributes: Attrs)
    requires WellFormed(g) && Distinct(ks) && forall k :: k in ks ==> IsMember(g, k)
    ensures var r := AddOrphans(g, ks, nodeAttributes, edgeAttributes);
      (r.Ok? <==> forall k :: k in ks ==> E.PlaceholderKey(k) !in g.nodes) &&
      (r.Err? ==> exists k :: k in ks && r.error == DuplicateEntity(E.PlaceholderKey(k)))
    decreases |ks|
  {
    if |ks| > 0 {
      var o := ks[0];
      assert forall x :: x in ks <==> x == o || x in ks[1..];
      DistinctTail(ks);
      AddOrphanParentSucceedsIff(g, o, nodeAttributes, edgeAttributes);
      if E.PlaceholderKey(o) !in g.nodes {
        var g' := AddOrphanParent(g, o, nodeAttributes, edgeAttributes).value;
        AddOrphanParentWellFormed(g, o, nodeAttributes, edgeAttributes);
        AddOrphanParentKeeps(g, o, nodeAttributes, edgeAttributes);
        AddOrphansSucceedsIff(g', ks[1..], nodeAttributes, edgeAttributes);
        forall k | k in ks[1..] ensures E.PlaceholderKey(k) in g'.nodes <==> E.PlaceholderKey(k) in g.nodes {
          if E.PlaceholderKey(k) == E.PlaceholderKey(o) {
            PlaceholderKeyInjective(k, o);
          }
        }
      }
    }
  }

  /** The edges the orphans' steps leave: the old ones, and one unknown edge into each orphan. */
  ghost predicate OrphanEdges(g: Graph, r: Graph, ks: seq<string>, edgeAttributes: Attrs) {
    (forall e :: e in r.edges <==> e in g.edges || exists k :: k in ks && e == (E.PlaceholderKey(k), k)) &&
    (forall e :: e in g.edges ==> r.edges[e] == g.edges[e]) &&
    (forall k :: k in ks ==> (E.PlaceholderKey(k), k) in r.edges && r.edges[(E.PlaceholderKey(k), k)] == edgeAttributes)
  }

  /** The nodes the orphans' steps leave: each orphan points at its own placeholder node. */
  ghost predicate OrphanNodes(g: Graph, r: Graph, ks: seq<string>, nodeAttributes: Attrs) {
    forall k :: k in ks && IsMember(g, k) ==>
      var pk := E.PlaceholderKey(k);
      k in r.nodes && r.nodes[k] == g.nodes[k].(entity := g.nodes[k].entity.(parent := Some(pk))) &&
      pk in r.nodes && r.nodes[pk] == NodeData(PlaceholderOf(g.nodes[k].entity, nodeAttributes), nodeAttributes, None)
  }

  /** The orphans' steps keep the tree well formed and add no member. */
  lemma {:induction false} AddOrphansWellFormed(g: Graph, ks: seq<string>, nodeAttributes: Attrs, edgeAttributes: Attrs)
    requires WellFormed(g) && forall k :: k in ks ==> IsMember(g, k)
    requires AddOrphans(g, ks, nodeAttributes, edgeAttributes).Ok?
    ensures var r := AddOrphans(g, ks, nodeAttributes, edgeAttributes).value;
      WellFormed(r) && (forall x :: IsMember(r, x) <==> IsMember(g, x)) &&
      (forall x :: x in g.nodes ==> x in r.nodes) && r.familyColor == g.familyColor
    decreases |ks|
  {
    if |ks| > 0 {
      var o := ks[0];
      var g' := AddOrphanParent(g, o, nodeAttributes, edgeAttributes).value;
      AddOrphanParentWellFormed(g, o, nodeAttributes, edgeAttributes);
      AddOrphanParentKeeps(g, o, nodeAttributes, edgeAttributes);
      AddOrphanParentResult(g, o, nodeAttributes, edgeAttributes);
      AddOrphansWellFormed(g', ks[1..], nodeAttributes, edgeAttributes);
    }
  }

  /** After the orphans' steps, each orphan has an unknown edge from its own placeholder. */
  lemma {:induction false} AddOrphansEdges(g: Graph, ks: seq<string>, nodeAttributes: Attrs, edgeAttributes: Attrs)
    requires WellFormed(g) && forall k :: k in ks ==> IsMember(g, k)
    requires AddOrphans(g, ks, nodeAttributes, edgeAttributes).Ok?
    ensures OrphanEdges(g, AddOrphans(g, ks, nodeAttributes, edgeAttributes).value, ks, edgeAttributes)
    decreases |ks|
  {
    if |ks| > 0 {
      var o := ks[0];
      var g' := AddOrphanParent(g, o, nodeAttributes, edgeAttributes).value;
      AddOrphanParentSucceedsIff(g, o, nodeAttributes, edgeAttributes);
      AddOrphanParentWellFormed(g, o, nodeAttributes, edgeAttributes);
      AddOrphanParentKeeps(g, o, nodeAttributes, edgeAttributes);
      AddOrphanParentResult(g, o, nodeAttributes, edgeAttributes);
      AddOrphansEdges(g', ks[1..], nodeAttributes, edgeAttributes);
      assert (E.PlaceholderKey(o), o) !in g.edges;
      OrphanEdgesStep(g, g', AddOrphans(g, ks, nodeAttributes, edgeAttributes).value, ks, edgeAttributes);
    }
  }

  /** After the orphans' steps, each orphan points at its own placeholder node. */
  lemma {:induction false} AddOrphansNodes(g: Graph, ks: seq<string>, nodeAttributes: Attrs, edgeAttributes: Attrs)
    requires WellFormed(g) && Distinct(ks) && forall k :: k in ks ==> IsMember(g, k)
    requires AddOrphans(g, ks, nodeAttributes, edgeAttributes).Ok?
    ensures OrphanNodes(g, AddOrphans(g, ks, nodeAttributes, edgeAttributes).value, ks, nodeAttributes)
    decreases |ks|
  {
    if |ks| > 0 {
      var o := ks[0];
      DistinctTail(ks);
      var g' := AddOrphanParent(g, o, nodeAttributes, edgeAttributes).value;
      AddOrphanParentWellFormed(g, o, nodeAttributes, edgeAttributes);
      AddOrphanParentKeeps(g, o, nodeAttributes, edgeAttributes);
      AddOrphanParentResult(g, o, nodeAttributes, edgeAttributes);
      AddOrphansSucceedsIff(g, ks, nodeAttributes, edgeAttributes);
      AddOrphansNodes(g', ks[1..], nodeAttributes, edgeAttributes);
      var r := AddOrphans(g, ks, nodeAttributes, edgeAttributes).value;
      AddOrphansUntouched(g', ks[1..], nodeAttributes, edgeAttributes, o);
      AddOrphansUntouched(g', ks[1..], nodeAttributes, edgeAttributes, E.PlaceholderKey(o));
      OrphanNodesStep(g, g', r, ks, nodeAttributes);
    }
  }

  /** A node that is neither one of the orphans nor one of their placeholders keeps its data. */
  lemma {:induction false} AddOrphansUntouched(g: Graph, ks: seq<string>, nodeAttributes: Attrs, edgeAttributes: Attrs, x: string)
    requires WellFormed(g) && forall k :: k in ks ==> IsMember(g, k)
    requires AddOrphans(g, ks, nodeAttributes, edgeAttributes).Ok?
    requires x in g.nodes && x !in ks && forall k :: k in ks ==> x != E.PlaceholderKey(k)
    ensures var r := AddOrphans(g, ks, nodeAttributes, edgeAttributes).value;
      x in r.nodes && r.nodes[x] == g.nodes[x]
    decreases |ks|
  {
    if |ks| > 0 {
      var o := ks[0];
      var g' := AddOrphanParent(g, o, nodeAttributes, edgeAttributes).value;
      AddOrphanParentWellFormed(g, o, nodeAttributes, edgeAttributes);
      AddOrphanParentKeeps(g, o, nodeAttributes, edgeAttributes);
      AddOrphanParentResult(g, o, nodeAttributes, edgeAttributes);
      AddOrphansUntouched(g', ks[1..], nodeAttributes, edgeAttributes, x);
    }
  }

  lemma OrphanEdgesStep(g: Graph, g': Graph, r: Graph, ks: seq<string>, edgeAttributes: Attrs)
    requires |ks| > 0 && (E.PlaceholderKey(ks[0]), ks[0]) !in g.edges
    requires g'.edges == g.edges[(E.PlaceholderKey(ks[0]), ks[0]) := edgeAttributes]
    requires OrphanEdges(g', r, ks[1..], edgeAttributes)
    ensures OrphanEdges(g, r, ks, edgeAttributes)
  {
    var o := ks[0];
    var oe := (E.PlaceholderKey(o), o);
    assert forall x :: x in ks <==> x == o || x in ks[1..];
    forall e | e in g.edges ensures r.edges[e] == g.edges[e] {
      assert e != oe && e in g'.edges;
    }
    forall e ensures e in r.edges <==> e in g.edges || exists k :: k in ks && e == (E.PlaceholderKey(k), k) {
      if e == oe {
        assert o in ks;
      }
    }
  }

  lemma OrphanNodesStep(g: Graph, g': Graph, r: Graph, ks: seq<string>, nodeAttributes: Attrs)
    requires |ks| > 0 && Distinct(ks) && IsMember(g, ks[0]) && forall k :: k in ks ==> IsMember(g, k)
    requires forall k :: k in ks ==> E.PlaceholderKey(k) !in g.nodes
    requires var pk := E.PlaceholderKey(ks[0]);
      g'.nodes == g.nodes[ks[0] := g.nodes[ks[0]].(entity := g.nodes[ks[0]].entity.(parent := Some(pk)))]
                        [pk := NodeData(PlaceholderOf(g.nodes[ks[0]].entity, nodeAttributes), nodeAttributes, None)]
    requires forall x :: IsMember(g', x) <==> IsMember(g, x)
    requires OrphanNodes(g', r, ks[1..], nodeAttributes)
    requires var pk := E.PlaceholderKey(ks[0]);
      ks[0] in r.nodes && pk in r.nodes && r.nodes[ks[0]] == g'.nodes[ks[0]] && r.nodes[pk] == g'.nodes[pk]
    ensures OrphanNodes(g, r, ks, nodeAttributes)
  {
    var o := ks[0];
    DistinctTail(ks);
    assert forall x :: x in ks <==> x == o || x in ks[1..];
    forall k | k in ks[1..] ensures g'.nodes[k] == g.nodes[k] {
      assert k != o && k != E.PlaceholderKey(o);
    }
  }

  /**
   * `add_orphan_parents()` succeeds exactly when no orphan's placeholder key
   * is taken. Afterwards no member is an orphan any more: each former orphan
   * hangs from its own placeholder, one semester before it.
   */
  lemma AddOrphanParentsSpec(g: Graph, nodeAttributes: Attrs, edgeAttributes: Attrs)
    requires WellFormed(g)
    ensures var r := AddOrphanParentsTo(g, nodeAttributes, edgeAttributes);
      r.Ok? <==> forall k :: IsOrphan(g, k) ==> E.PlaceholderKey(k) !in g.nodes
    ensures var r := AddOrphanParentsTo(g, nodeAttributes, edgeAttributes);
      r.Ok? ==>
        WellFormed(r.value) &&
        (forall k :: IsMember(r.value, k) ==> !IsOrphan(r.value, k)) &&
        (forall k :: IsOrphan(g, k) ==>
          var pk := E.PlaceholderKey(k);
          (pk, k) in r.value.edges && IsMember(r.value, k) && r.value.nodes[k].entity.parent == Some(pk) &&
          pk in r.value.nodes && r.value.nodes[pk].entity == PlaceholderOf(g.nodes[k].entity, nodeAttributes))
  {
    var ks := Orphans(g, g.keys);
    AddOrphansSucceedsIff(g, ks, nodeAttributes, edgeAttributes);
    if AddOrphans(g, ks, nodeAttributes, edgeAttributes).Ok? {
      var r := AddOrphans(g, ks, nodeAttributes, edgeAttributes).value;
      AddOrphansWellFormed(g, ks, nodeAttributes, edgeAttributes);
      AddOrphansEdges(g, ks, nodeAttributes, edgeAttributes);
      AddOrphansNodes(g, ks, nodeAttributes, edgeAttributes);
      forall k | IsMember(r, k) ensures !IsOrphan(r, k) {
        if IsOrphan(g, k) {
          D.InDegreeZeroIffNoParent(r.edges.Keys, k);
        } else {
          D.InDegreeZeroIffNoParent(g.edges.Keys, k);
          D.InDegreeZeroIffNoParent(r.edges.Keys, k);
        }
      }
    }
  }

  // ---------------------------------------------------------------------------
  // FamilyTree(members, settings): the whole construction
  // ---------------------------------------------------------------------------

  /** The `layout` flags; each switches one optional step on. */
  datatype Layout = Layout(
    semesters: bool, customEdges: bool, customNodes: bool,
    noSingletons: bool, familyColors: bool, unknowns: bool)

  /** Every flag defaults to on. */
  const DefaultLayout := Layout(true, true, true, true, true, true)

  /** The tree's settings, after validation and defaults. */
  datatype TreeSettings = TreeSettings(
    layout: Layout,
    nodes: seq<CustomNode>,
    edges: seq<Path>,
    familyColors: seq<(string, string)>,
    unknownNodeAttributes: Attrs,
    unknownEdgeAttributes: Attrs,
    seed: int)

  /** The default settings: all flags on, nothing custom, seed 71. */
  const DefaultSettings := TreeSettings(DefaultLayout, [], [], [], map[], map[], 71)

  /** The first half of `FamilyTree(members, settings)`: the entities and the edges. */
  function Assemble(members: seq<TreeEntity>, s: TreeSettings): (r: Result<Graph, TreeError>) {
    EmptyGraphWellFormed();
    var g1 :- AddEntities(EmptyGraph, members);
    AddEntitiesFrame(EmptyGraph, members);
    var g2 :- if s.layout.customNodes then AddEntities(g1, CustomEntities(s.nodes)) else Ok(g1);
    assert WellFormed(g2) by {
      if s.layout.customNodes { AddEntitiesFrame(g1, CustomEntities(s.nodes)); }
    }
    var g3 :- AddRelationships(g2, g2.keys, s.layout.semesters);
    if s.layout.customEdges then AddPaths(g3, s.edges) else Ok(g3)
  }

  /** The second half: pruning, families, colours and placeholder parents, each under its flag. */
  function Decorate(g: Graph, s: TreeSettings, palette: seq<string>): (r: Result<Graph, TreeError>)
    requires |palette| > 0
  {
    var g5 := if s.layout.noSingletons then RemoveSingletonsFrom(g) else g;
    var g6 := if s.layout.familyColors then MarkFamiliesIn(g5) else g5;
    var g7 :- if s.layout.familyColors then AddColorsTo(g6, s.familyColors, palette) else Ok(g6);
    if s.layout.unknowns then AddOrphanParentsTo(g7, s.unknownNodeAttributes, s.unknownEdgeAttributes) else Ok(g7)
  }

  /**
   * `FamilyTree(members, settings)`: members, custom nodes, member edges and
   * custom edges, then the decorations. The colour palette is a parameter.
   */
  function BuildTree(members: seq<TreeEntity>, s: TreeSettings, palette: seq<string>): Result<Graph, TreeError>
    requires |palette| > 0
  {
    var g :- Assemble(members, s);
    Decorate(g, s, palette)
  }

  /** The members' keys open the key list, and each member is stored under its key. */
  ghost predicate HoldsMembers(g: Graph, members: seq<TreeEntity>) {
    |members| <= |g.keys| && g.keys[..|members|] == KeysOf(members) &&
    forall i :: 0 <= i < |members| ==> members[i].key in g.nodes && g.nodes[members[i].key].entity == members[i]
  }

  /** The first stage: the members alone, in order. */
  lemma AddMembersHolds(members: seq<TreeEntity>)
    requires AddEntities(EmptyGraph, members).Ok?
    ensures WellFormed(AddEntities(EmptyGraph, members).value)
    ensures HoldsMembers(AddEntities(EmptyGraph, members).value, members)
  {
    EmptyGraphWellFormed();
    AddEntitiesFrame(EmptyGraph, members);
    AddEntitiesKeys(EmptyGraph, members);
    AddEntitiesStores(EmptyGraph, members);
    assert EmptyGraph.keys + KeysOf(members) == KeysOf(members);
  }

  /** Adding the custom nodes after the members keeps the members where they are. */
  lemma AddCustomKeepsMembers(g: Graph, members: seq<TreeEntity>, es: seq<TreeEntity>)
    requires WellFormed(g) && HoldsMembers(g, members) && AddEntities(g, es).Ok?
    ensures WellFormed(AddEntities(g, es).value) && HoldsMembers(AddEntities(g, es).value, members)
  {
    var r := AddEntities(g, es).value;
    AddEntitiesFrame(g, es);
    AddEntitiesKeys(g, es);
    assert r.keys[..|members|] == g.keys[..|members|];
  }

  /** Relationships and custom edges leave the keys and nodes alone. */
  lemma AddEdgesKeepMembers(g: Graph, members: seq<TreeEntity>, s: TreeSettings)
    requires WellFormed(g) && HoldsMembers(g, members)
    requires AddRelationships(g, g.keys, s.layout.semesters).Ok?
    ensures var g3 := AddRelationships(g, g.keys, s.layout.semesters).value;
      var r := if s.layout.customEdges then AddPaths(g3, s.edges) else Ok(g3);
      r.Ok? ==> WellFormed(r.value) && HoldsMembers(r.value, members)
  {
    var g3 := AddRelationships(g, g.keys, s.layout.semesters).value;
    AddRelationshipsFrame(g, g.keys, s.layout.semesters);
    if s.layout.customEdges {
      AddPathsSpec(g3, s.edges);
    }
  }

  /** Assembling gives a well-formed tree holding the members in their given order. */
  lemma AssembleSpec(members: seq<TreeEntity>, s: TreeSettings)
    ensures Assemble(members, s).Ok? ==>
      var r := Assemble(members, s).value;
      WellFormed(r) && |members| <= |r.keys| && r.keys[..|members|] == KeysOf(members) &&
      forall i :: 0 <= i < |members| ==> r.nodes[members[i].key].entity == members[i]
  {
    if AddEntities(EmptyGraph, members).Ok? {
      var g1 := AddEntities(EmptyGraph, members).value;
      AddMembersHolds(members);
      var r2 := if s.layout.customNodes then AddEntities(g1, CustomEntities(s.nodes)) else Ok(g1);
      if r2.Ok? {
        var g2 := r2.value;
        if s.layout.customNodes {
          AddCustomKeepsMembers(g1, members, CustomEntities(s.nodes));
        }
        if AddRelationships(g2, g2.keys, s.layout.semesters).Ok? {
          AddEdgesKeepMembers(g2, members, s);
        }
      }
    }
  }

  /** Every member wears its family's colour. */
  ghost predicate ColoredByFamily(g: Graph) {
    forall k :: IsMember(g, k) ==>
      g.nodes[k].family.Some? && g.nodes[k].family.value in g.familyColor &&
      "color" in g.nodes[k].dotAttributes &&
      g.nodes[k].dotAttributes["color"] == Text(g.familyColor[g.nodes[k].family.value])
  }

  /** After `add_colors()` every member wears its family's colour. */
  lemma AddColorsColorsAll(g: Graph, fc: seq<(string, string)>, palette: seq<string>)
    requires WellFormed(g) && |palette| > 0
    requires AddColorsTo(g, fc, palette).Ok?
    ensures ColoredByFamily(AddColorsTo(g, fc, palette).value)
  {
    AddColorsSpec(g, fc, palette);
    var r := AddColorsTo(g, fc, palette).value;
    forall k | IsMember(r, k) ensures
      r.nodes[k].family.Some? && r.nodes[k].family.value in r.familyColor &&
      "color" in r.nodes[k].dotAttributes &&
      r.nodes[k].dotAttributes["color"] == Text(r.familyColor[r.nodes[k].family.value])
    {
      assert IsMember(g, k) && k in g.keys;
      assert r.nodes[k].family == g.nodes[k].family by {
        var p := CP.Picker(palette);
        ColorFamiliesResult(g, p, fc);
        var first := ColorFamilies(g, p, fc).value;
        assert |first.1.colors| == |palette| by {
          assert |multiset(first.1.colors)| == |multiset(palette)|;
        }
        ColorNodesFrame(first.0, first.1, SortStrings(first.0.keys));
      }
    }
  }

  /** Placeholder parents leave the members' colours as they were. */
  lemma AddOrphanParentsKeepColors(g: Graph, nodeAttributes: Attrs, edgeAttributes: Attrs)
    requires WellFormed(g) && ColoredByFamily(g)
    requires AddOrphanParentsTo(g, nodeAttributes, edgeAttributes).Ok?
    ensures ColoredByFamily(AddOrphanParentsTo(g, nodeAttributes, edgeAttributes).value)
  {
    var ks := Orphans(g, g.keys);
    var r := AddOrphanParentsTo(g, nodeAttributes, edgeAttributes).value;
    AddOrphansSucceedsIff(g, ks, nodeAttributes, edgeAttributes);
    AddOrphansWellFormed(g, ks, nodeAttributes, edgeAttributes);
    AddOrphansNodes(g, ks, nodeAttributes, edgeAttributes);
    forall k | IsMember(r, k) ensures
      r.nodes[k].family == g.nodes[k].family && r.nodes[k].dotAttributes == g.nodes[k].dotAttributes
    {
      if k !in ks {
        AddOrphansUntouched(g, ks, nodeAttributes, edgeAttributes, k);
      }
    }
  }

  /** A member with a parent on the tree is no singleton. */
  lemma NotOrphanNotSingleton(g: Graph, k: string)
    requires IsMember(g, k) && !IsOrphan(g, k)
    ensures !IsSingleton(g, k)
  {
  }

  /**
   * The decorations keep the tree well formed. With placeholder parents on,
   * no member is left an orphan; with pruning or placeholder parents on, no
   * member is left alone; with family colours on, every member wears its
   * family's colour.
   */
  lemma DecorateSpec(g: Graph, s: TreeSettings, palette: seq<string>)
    requires WellFormed(g) && |palette| > 0
    ensures var r := Decorate(g, s, palette);
      r.Ok? ==>
        WellFormed(r.value) &&
        (s.layout.unknowns ==> forall k :: IsMember(r.value, k) ==> !IsOrphan(r.value, k)) &&
        (s.layout.noSingletons || s.layout.unknowns ==> forall k :: IsMember(r.value, k) ==> !IsSingleton(r.value, k)) &&
        (s.layout.familyColors ==> ColoredByFamily(r.value))
  {
    var g5 := if s.layout.noSingletons then RemoveSingletonsFrom(g) else g;
    if s.layout.noSingletons { RemoveSingletonsSpec(g); }
    assert s.layout.noSingletons ==> forall k :: IsMember(g5, k) ==> !IsSingleton(g5, k);
    var g6 := if s.layout.familyColors then MarkFamiliesIn(g5) else g5;
    if s.layout.familyColors { MarkFamiliesFrame(g5); }
    var r7 := if s.layout.familyColors then AddColorsTo(g6, s.familyColors, palette) else Ok(g6);
    if r7.Ok? {
      var g7 := r7.value;
      if s.layout.familyColors {
        AddColorsSpec(g6, s.familyColors, palette);
        AddColorsColorsAll(g6, s.familyColors, palette);
      }
      assert forall k :: IsMember(g7, k) <==> IsMember(g5, k);
      assert s.layout.noSingletons ==> forall k :: IsMember(g7, k) ==> !IsSingleton(g7, k);
      if s.layout.unknowns {
        AddOrphanParentsSpec(g7, s.unknownNodeAttributes, s.unknownEdgeAttributes);
        if AddOrphanParentsTo(g7, s.unknownNodeAttributes, s.unknownEdgeAttributes).Ok? {
          var r := AddOrphanParentsTo(g7, s.unknownNodeAttributes, s.unknownEdgeAttributes).value;
          forall k | IsMember(r, k) ensures !IsSingleton(r, k) {
            NotOrphanNotSingleton(r, k);
          }
          if s.layout.familyColors {
            AddOrphanParentsKeepColors(g7, s.unknownNodeAttributes, s.unknownEdgeAttributes);
          }
        }
      }
    }
  }
}
