/**
 * `family_tree/node.py`: `tree_from_records` links records into a tree of
 * `Node` objects by their parent keys, creating a placeholder node for a
 * parent that has not been seen yet and filling its record in when it
 * arrives; `Node.__iter__` walks a tree in pre-order.
 *
 * The `Node` objects live in an arena: a node is its index in `cells`, so
 * that filling in a placeholder's record or appending to a node's children
 * is seen through every reference to it, as with Python objects.
 */
module RecordTree {
  import opened Wrappers
  import R = Records

  /** A `Node`: its record (`None` for a placeholder and for the root) and its children. */
  datatype Node = Node(record: Option<R.Record>, children: seq<nat>)

  /** The state of `tree_from_records`: the node objects, the `nodes` dict and the `roots` list. */
  datatype Forest = Forest(cells: seq<Node>, nodes: map<string, nat>, roots: seq<nat>)

  /** Every reference names a node that exists, and no two keys share a node. */
  ghost predicate WellFormed(f: Forest) {
    (forall k :: k in f.nodes ==> f.nodes[k] < |f.cells|) &&
    (forall k1, k2 :: k1 in f.nodes && k2 in f.nodes && k1 != k2 ==> f.nodes[k1] != f.nodes[k2]) &&
    (forall i :: 0 <= i < |f.roots| ==> f.roots[i] < |f.cells|) &&
    (forall c, j :: 0 <= c < |f.cells| && 0 <= j < |f.cells[c].children| ==> f.cells[c].children[j] < |f.cells|)
  }

  /** `g` is `f` after more steps: keys keep their nodes, lists only grow at the end. */
  ghost predicate Extends(f: Forest, g: Forest) {
    |f.cells| <= |g.cells| &&
    (forall k :: k in f.nodes ==> k in g.nodes && g.nodes[k] == f.nodes[k]) &&
    (forall c :: 0 <= c < |f.cells| ==> f.cells[c].children <= g.cells[c].children) &&
    f.roots <= g.roots
  }

  /** Extension is transitive. */
  lemma ExtendsTrans(f: Forest, g: Forest, h: Forest)
    requires Extends(f, g) && Extends(g, h)
    ensures Extends(f, h)
  {
    forall c | 0 <= c < |f.cells| ensures f.cells[c].children <= h.cells[c].children {
      var a, b, d := f.cells[c].children, g.cells[c].children, h.cells[c].children;
      assert a <= b && b <= d;
      assert forall i :: 0 <= i < |a| ==> a[i] == b[i] == d[i];
    }
  }

  /** A key's node, with its record set: the placeholder already made for it, or a new node. */
  function Register(f: Forest, key: string, record: R.Record): (g: Forest)
    requires WellFormed(f)
    ensures WellFormed(g) && Extends(f, g) && g.roots == f.roots
    ensures key in g.nodes && g.nodes[key] < |g.cells| && g.nodes.Keys == f.nodes.Keys + {key}
    ensures forall c :: 0 <= c < |f.cells| ==> g.cells[c].children == f.cells[c].children
    ensures key !in f.nodes ==> g.cells[g.nodes[key]].children == []
  {
    if key in f.nodes then
      var node := f.nodes[key];
      f.(cells := f.cells[node := f.cells[node].(record := Some(record))])
    else
      Forest(f.cells + [Node(Some(record), [])], f.nodes[key := |f.cells|], f.roots)
  }

  /** Registering sets the key's record and no other. */
  lemma RegisterRecords(f: Forest, key: string, record: R.Record)
    requires WellFormed(f)
    ensures var g := Register(f, key, record);
      g.cells[g.nodes[key]].record == Some(record) &&
      forall k :: k in f.nodes && k != key ==> g.cells[g.nodes[k]].record == f.cells[f.nodes[k]].record
  {
  }

  /** `nodes[parent_key].children.append(node)` */
  function Adopt(f: Forest, p: nat, node: nat): (g: Forest)
    requires WellFormed(f) && p < |f.cells| && node < |f.cells|
    ensures WellFormed(g) && Extends(f, g) && g.nodes == f.nodes && g.roots == f.roots
    ensures g.cells[p].children == f.cells[p].children + [node]
    ensures forall c :: 0 <= c < |f.cells| && c != p ==> g.cells[c] == f.cells[c]
    ensures forall c :: 0 <= c < |f.cells| ==> g.cells[c].record == f.cells[c].record
  {
    var g := f.(cells := f.cells[p := f.cells[p].(children := f.cells[p].children + [node])]);
    assert g.cells[p].children[|g.cells[p].children| - 1] == node;
    g
  }

  /** `nodes[parent_key] = Node(children=[node])`: a placeholder for a parent not seen yet. */
  function Placeholder(f: Forest, parentKey: string, node: nat): (g: Forest)
    requires WellFormed(f) && parentKey !in f.nodes && node < |f.cells|
    ensures WellFormed(g) && Extends(f, g) && g.roots == f.roots
    ensures g.nodes.Keys == f.nodes.Keys + {parentKey}
    ensures g.cells[g.nodes[parentKey]] == Node(None, [node])
    ensures forall k :: k in f.nodes ==> g.nodes[k] == f.nodes[k] && g.nodes[parentKey] != f.nodes[k]
    ensures forall c :: 0 <= c < |f.cells| ==> g.cells[c] == f.cells[c]
  {
    Forest(f.cells + [Node(None, [node])], f.nodes[parentKey := |f.cells|], f.roots)
  }

  /** `roots.append(node)` */
  function AddRoot(f: Forest, node: nat): (g: Forest)
    requires WellFormed(f) && node < |f.cells|
    ensures WellFormed(g) && Extends(f, g) && g.nodes == f.nodes && g.cells == f.cells
    ensures g.roots == f.roots + [node]
  {
    f.(roots := f.roots + [node])
  }

  /** One pass of the loop of `tree_from_records` for the record under `key`. */
  function Place(f: Forest, key: string, record: R.Record): (g: Forest)
    requires WellFormed(f)
    ensures WellFormed(g) && Extends(f, g) && key in g.nodes
  {
    var f1 := Register(f, key, record);
    var node := f1.nodes[key];
    var parent := record.parentKey;
    var g :=
      if parent.Some? && parent.value in f1.nodes then Adopt(f1, f1.nodes[parent.value], node)
      else if R.Truthy(parent) then Placeholder(f1, parent.value, node)
      else AddRoot(f1, node);
    ExtendsTrans(f, f1, g);
    g
  }

  /** A pass sets the record of its key and of no other key; a new parent key gets an empty placeholder. */
  lemma PlaceRecords(f: Forest, key: string, record: R.Record)
    requires WellFormed(f)
    ensures var g := Place(f, key, record);
      g.cells[g.nodes[key]].record == Some(record) &&
      (forall k :: k in f.nodes && k != key ==> g.cells[g.nodes[k]].record == f.cells[f.nodes[k]].record) &&
      (forall k :: k in g.nodes && k !in f.nodes && k != key ==> g.cells[g.nodes[k]].record.None?)
  {
    RegisterRecords(f, key, record);
    var f1 := Register(f, key, record);
    var node := f1.nodes[key];
    var parent := record.parentKey;
    if parent.Some? && parent.value in f1.nodes {
      var g := Adopt(f1, f1.nodes[parent.value], node);
    } else if R.Truthy(parent) {
      var g := Placeholder(f1, parent.value, node);
    }
  }

  /** A pass adds the key, and the parent key when it has one. */
  lemma PlaceKeys(f: Forest, key: string, record: R.Record)
    requires WellFormed(f)
    ensures Place(f, key, record).nodes.Keys ==
      f.nodes.Keys + {key} + (if R.Truthy(record.parentKey) then {record.parentKey.value} else {})
  {
  }

  /** The node becomes a child of its parent's node, or, with no parent key, a root. */
  lemma PlaceLinks(f: Forest, key: string, record: R.Record)
    requires WellFormed(f)
    ensures var g := Place(f, key, record);
      (R.Truthy(record.parentKey) ==>
        record.parentKey.value in g.nodes && g.nodes[key] in g.cells[g.nodes[record.parentKey.value]].children) &&
      (record.parentKey.None? ==> g.nodes[key] in g.roots)
  {
  }

  /** The records of a dict, in its iteration order. */
  type Entries = seq<(string, R.Record)>

  predicate DistinctKeys(entries: Entries) {
    forall i, j :: 0 <= i < j < |entries| ==> entries[i].0 != entries[j].0
  }

  predicate IsKey(entries: Entries, k: string) {
    exists j :: 0 <= j < |entries| && entries[j].0 == k
  }

  predicate IsParent(entries: Entries, k: string) {
    exists j :: 0 <= j < |entries| && R.Truthy(entries[j].1.parentKey) && entries[j].1.parentKey.value == k
  }

  /**
   * The record under `key` is the record of its key's node; it is among the
   * children of its parent's node when it has a parent key, and among the
   * roots when it has none.
   */
  ghost predicate PlacedAt(f: Forest, key: string, record: R.Record) {
    key in f.nodes && f.nodes[key] < |f.cells| && f.cells[f.nodes[key]].record == Some(record) &&
    (R.Truthy(record.parentKey) ==>
      record.parentKey.value in f.nodes && f.nodes[record.parentKey.value] < |f.cells| &&
      f.nodes[key] in f.cells[f.nodes[record.parentKey.value]].children) &&
    (record.parentKey.None? ==> f.nodes[key] in f.roots)
  }

  /**
   * What the loop keeps for the records placed so far: each is placed, the
   * keys of `nodes` are their keys and parent keys, and a key that is only a
   * parent key names a placeholder with no record.
   */
  ghost predicate Placed(f: Forest, entries: Entries) {
    WellFormed(f) &&
    (forall j :: 0 <= j < |entries| ==> PlacedAt(f, entries[j].0, entries[j].1)) &&
    (forall k :: k in f.nodes <==> IsKey(entries, k) || IsParent(entries, k)) &&
    (forall k :: k in f.nodes && !IsKey(entries, k) ==> f.cells[f.nodes[k]].record.None?)
  }

  /**
   * Whether a record, after the records `before` it, is appended to `roots`:
   * a missing parent key is never a key of `nodes`, and an empty one is
   * only when a record so far, this one included, has the empty key.
   */
  predicate IsRoot(before: Entries, e: (string, R.Record)) {
    e.1.parentKey.None? || (e.1.parentKey == Some("") && e.0 != "" && !IsKey(before, ""))
  }

  /** The keys of the records appended to `roots`, in the order of the records. */
  function RootKeys(entries: Entries): (ks: seq<string>)
    ensures |ks| <= |entries|
  {
    if entries == [] then []
    else
      var before := entries[..|entries| - 1];
      var e := entries[|entries| - 1];
      RootKeys(before) + (if IsRoot(before, e) then [e.0] else [])
  }

  /** `roots` holds the nodes of the keys `ks`, in that order. */
  ghost predicate RootsAre(f: Forest, ks: seq<string>) {
    |f.roots| == |ks| && forall r :: 0 <= r < |ks| ==> ks[r] in f.nodes && f.roots[r] == f.nodes[ks[r]]
  }

  /** A key of the root list is the key of a record with no parent key, or with an empty one. */
  lemma {:induction false} RootKeysHaveNoParent(entries: Entries, k: string)
    requires k in RootKeys(entries)
    ensures exists j :: 0 <= j < |entries| && entries[j].0 == k && !R.Truthy(entries[j].1.parentKey)
  {
    var n := |entries| - 1;
    var before := entries[..n];
    if k in RootKeys(before) {
      RootKeysHaveNoParent(before, k);
      var j :| 0 <= j < |before| && before[j].0 == k && !R.Truthy(before[j].1.parentKey);
      assert entries[j] == before[j];
    } else {
      assert entries[n].0 == k && !R.Truthy(entries[n].1.parentKey);
    }
  }

  /** Every record with no parent key has its key in the root list. */
  lemma {:induction false} ParentlessAreRootKeys(entries: Entries, j: nat)
    requires j < |entries| && entries[j].1.parentKey.None?
    ensures entries[j].0 in RootKeys(entries)
  {
    var n := |entries| - 1;
    if j < n {
      var before := entries[..n];
      assert before[j] == entries[j];
      ParentlessAreRootKeys(before, j);
    }
  }

  /** One pass of the loop appends the record's node to `roots` exactly when the record is a root. */
  lemma PlaceRoots(f: Forest, entries: Entries, key: string, record: R.Record)
    requires Placed(f, entries)
    ensures var g := Place(f, key, record);
      g.roots == f.roots + (if IsRoot(entries, (key, record)) then [g.nodes[key]] else [])
  {
    assert "" in f.nodes <==> IsKey(entries, "");
  }

  /** The loop keeps `roots` equal to the nodes of the root keys so far. */
  lemma RootsStep(f: Forest, entries: Entries, key: string, record: R.Record)
    requires Placed(f, entries) && RootsAre(f, RootKeys(entries))
    ensures RootsAre(Place(f, key, record), RootKeys(entries + [(key, record)]))
  {
    var e := (key, record);
    var more := entries + [e];
    assert more[..|more| - 1] == entries;
    assert more[|more| - 1] == e;
    var g := Place(f, key, record);
    PlaceRoots(f, entries, key, record);
    var ks, old_ks := RootKeys(more), RootKeys(entries);
    assert ks == old_ks + (if IsRoot(entries, e) then [key] else []);
    forall r | 0 <= r < |ks| ensures ks[r] in g.nodes && g.roots[r] == g.nodes[ks[r]] {
      if r < |old_ks| {
        assert ks[r] == old_ks[r] && g.roots[r] == f.roots[r];
      }
    }
  }

  /**
   * Whether a record, after the records `before` it, is appended to the
   * children of the node of key `p`: its parent key is `p`, and `p` is a key
   * of `nodes` by then or gets a placeholder now, which a truthy `p` always
   * does and the empty key only when a record so far, this one included,
   * has it.
   */
  predicate ChildOf(before: Entries, e: (string, R.Record), p: string) {
    e.1.parentKey == Some(p) && (p != "" || e.0 == "" || IsKey(before, ""))
  }

  /** The keys of the records appended to the children of the node of `p`, in the order of the records. */
  function ChildKeys(entries: Entries, p: string): (ks: seq<string>)
    ensures |ks| <= |entries|
  {
    if entries == [] then []
    else
      var before := entries[..|entries| - 1];
      var e := entries[|entries| - 1];
      ChildKeys(before, p) + (if ChildOf(before, e, p) then [e.0] else [])
  }

  /** The node of key `k` has as children the nodes of the keys `ks`, in that order. */
  ghost predicate ChildrenAre(f: Forest, k: string, ks: seq<string>) {
    k in f.nodes && f.nodes[k] < |f.cells| &&
    |f.cells[f.nodes[k]].children| == |ks| &&
    forall r :: 0 <= r < |ks| ==> ks[r] in f.nodes && f.cells[f.nodes[k]].children[r] == f.nodes[ks[r]]
  }

  /** Every key's node has exactly the children its records were appended as. */
  ghost predicate ChildrenExact(f: Forest, entries: Entries) {
    forall k :: k in f.nodes ==> ChildrenAre(f, k, ChildKeys(entries, k))
  }

  /** A child key is the key of a record whose parent key is `p`. */
  lemma {:induction false} ChildKeysHaveParent(entries: Entries, p: string, k: string)
    requires k in ChildKeys(entries, p)
    ensures exists j :: 0 <= j < |entries| && entries[j].0 == k && entries[j].1.parentKey == Some(p)
  {
    var n := |entries| - 1;
    var before := entries[..n];
    if k in ChildKeys(before, p) {
      ChildKeysHaveParent(before, p, k);
      var j :| 0 <= j < |before| && before[j].0 == k && before[j].1.parentKey == Some(p);
      assert entries[j] == before[j];
    } else {
      assert entries[n].0 == k && entries[n].1.parentKey == Some(p);
    }
  }

  /** Every record with a truthy parent key is among the children of that key's node. */
  lemma {:induction false} TruthyParentIsChild(entries: Entries, j: nat)
    requires j < |entries| && R.Truthy(entries[j].1.parentKey)
    ensures entries[j].0 in ChildKeys(entries, entries[j].1.parentKey.value)
  {
    var n := |entries| - 1;
    if j < n {
      var before := entries[..n];
      assert before[j] == entries[j];
      TruthyParentIsChild(before, j);
    }
  }

  /** With distinct keys no node is a child twice over. */
  lemma {:induction false} ChildKeysDistinct(entries: Entries, p: string)
    requires DistinctKeys(entries)
    ensures forall a, b :: 0 <= a < b < |ChildKeys(entries, p)| ==> ChildKeys(entries, p)[a] != ChildKeys(entries, p)[b]
  {
    if entries != [] {
      var n := |entries| - 1;
      var before := entries[..n];
      assert DistinctKeys(before) by {
        forall i, j | 0 <= i < j < |before| ensures before[i].0 != before[j].0 {
          assert before[i] == entries[i] && before[j] == entries[j];
        }
      }
      ChildKeysDistinct(before, p);
      var ks := ChildKeys(before, p);
      if ChildOf(before, entries[n], p) {
        forall a | 0 <= a < |ks| ensures ks[a] != entries[n].0 {
          ChildKeysHaveParent(before, p, ks[a]);
          var j :| 0 <= j < |before| && before[j].0 == ks[a] && before[j].1.parentKey == Some(p);
          assert before[j] == entries[j];
        }
      }
    }
  }

  /** A key that is neither a key nor a parent key so far has no children yet. */
  lemma {:induction false} ChildKeysOfNew(entries: Entries, k: string)
    requires !IsKey(entries, k) && !IsParent(entries, k)
    ensures ChildKeys(entries, k) == []
  {
    if entries != [] {
      var n := |entries| - 1;
      var before := entries[..n];
      assert !IsKey(before, k) && !IsParent(before, k) by {
        SnocKeys(before, entries[n], k);
        assert before + [entries[n]] == entries;
      }
      ChildKeysOfNew(before, k);
      assert !ChildOf(before, entries[n], k) by {
        SnocKeys(before, entries[n], k);
        assert before + [entries[n]] == entries;
        SnocKeys(before, entries[n], "");
      }
    }
  }

  /**
   * One pass of the loop appends the record's node to the children of the
   * node of each key it is a child of, and leaves every other node's
   * children alone; a key new to `nodes` starts with no children.
   */
  lemma PlaceChildren(f: Forest, entries: Entries, key: string, record: R.Record, k: string)
    requires WellFormed(f) && ("" in f.nodes <==> IsKey(entries, ""))
    requires k in Place(f, key, record).nodes
    ensures var g := Place(f, key, record);
      g.nodes[k] < |g.cells| &&
      g.cells[g.nodes[k]].children ==
        (if k in f.nodes then f.cells[f.nodes[k]].children else []) +
        (if ChildOf(entries, (key, record), k) then [g.nodes[key]] else [])
  {
    var f1 := Register(f, key, record);
    var node := f1.nodes[key];
    var parent := record.parentKey;
    var base := if k in f.nodes then f.cells[f.nodes[k]].children else [];
    if k in f1.nodes {
      assert f1.cells[f1.nodes[k]].children == base;
    }
    if parent.Some? && parent.value in f1.nodes {
      var p := f1.nodes[parent.value];
      var g := Adopt(f1, p, node);
      if parent.value != k {
        assert f1.nodes[k] != p;
      }
    } else if R.Truthy(parent) {
      var g := Placeholder(f1, parent.value, node);
    } else {
      assert !ChildOf(entries, (key, record), k);
    }
  }

  /** One pass of the loop keeps every node's children exact. */
  lemma ChildrenStepAt(f: Forest, entries: Entries, key: string, record: R.Record, k: string)
    requires WellFormed(f) && ("" in f.nodes <==> IsKey(entries, ""))
    requires k in Place(f, key, record).nodes
    requires k in f.nodes ==> ChildrenAre(f, k, ChildKeys(entries, k))
    requires k !in f.nodes ==> ChildKeys(entries, k) == []
    ensures ChildrenAre(Place(f, key, record), k, ChildKeys(entries + [(key, record)], k))
  {
    var e := (key, record);
    var more := entries + [e];
    assert more[..|more| - 1] == entries;
    assert more[|more| - 1] == e;
    var g := Place(f, key, record);
    PlaceChildren(f, entries, key, record, k);
    var ks, old_ks := ChildKeys(more, k), ChildKeys(entries, k);
    assert ks == old_ks + (if ChildOf(entries, e, k) then [key] else []);
    var children := g.cells[g.nodes[k]].children;
    forall r | 0 <= r < |ks| ensures ks[r] in g.nodes && children[r] == g.nodes[ks[r]] {
      if r < |old_ks| {
        assert ks[r] == old_ks[r] && children[r] == f.cells[f.nodes[k]].children[r];
      }
    }
  }

  /** The pass for the i-th record of a dict keeps every node's children exact. */
  lemma ChildrenLoopStep(entries: Entries, i: nat, f: Forest)
    requires i < |entries| && Placed(f, entries[..i]) && ChildrenExact(f, entries[..i])
    ensures ChildrenExact(Place(f, entries[i].0, entries[i].1), entries[..i + 1])
  {
    var e := entries[i];
    assert (e.0, e.1) == e;
    assert entries[..i] + [e] == entries[..i + 1];
    var g := Place(f, e.0, e.1);
    assert "" in f.nodes <==> IsKey(entries[..i], "");
    forall k | k in g.nodes ensures ChildrenAre(g, k, ChildKeys(entries[..i + 1], k)) {
      if k !in f.nodes {
        ChildKeysOfNew(entries[..i], k);
      }
      ChildrenStepAt(f, entries[..i], e.0, e.1, k);
    }
  }

  /** Every node object is the node of some key: the loop makes no node that `nodes` does not name. */
  ghost predicate Keyed(f: Forest) {
    forall c :: 0 <= c < |f.cells| ==> c in f.nodes.Values
  }

  /** One pass of the loop names every node it makes. */
  lemma PlaceKeyed(f: Forest, key: string, record: R.Record)
    requires WellFormed(f) && Keyed(f)
    ensures Keyed(Place(f, key, record))
  {
    var f1 := Register(f, key, record);
    var node := f1.nodes[key];
    var parent := record.parentKey;
    var g := Place(f, key, record);
    forall c | 0 <= c < |g.cells| ensures c in g.nodes.Values {
      var k: string;
      if c < |f.cells| {
        assert c in f.nodes.Values;
        k :| k in f.nodes && f.nodes[k] == c;
      } else if c < |f1.cells| {
        k := key;
      } else {
        k := parent.value;
      }
      assert k in g.nodes && g.nodes[k] == c;
    }
  }

  /** A value in a prefix of a list is in the list. */
  lemma PrefixMember(a: seq<nat>, b: seq<nat>, x: nat)
    requires a <= b && x in a
    ensures x in b
  {
    var i :| 0 <= i < |a| && a[i] == x;
    assert b[i] == x;
  }

  /** A later state keeps a record placed, as long as its key is not placed again. */
  lemma PlacedAtKept(f: Forest, g: Forest, key: string, record: R.Record)
    requires WellFormed(f) && WellFormed(g) && Extends(f, g) && PlacedAt(f, key, record)
    requires g.cells[g.nodes[key]].record == f.cells[f.nodes[key]].record
    ensures PlacedAt(g, key, record)
  {
    if R.Truthy(record.parentKey) {
      var p := f.nodes[record.parentKey.value];
      PrefixMember(f.cells[p].children, g.cells[p].children, f.nodes[key]);
    }
    if record.parentKey.None? {
      PrefixMember(f.roots, g.roots, f.nodes[key]);
    }
  }

  /** One pass of the loop keeps the invariant, for a key not seen before as a record's key. */
  lemma PlaceStep(f: Forest, entries: Entries, key: string, record: R.Record)
    requires Placed(f, entries) && !IsKey(entries, key)
    ensures Placed(Place(f, key, record), entries + [(key, record)])
  {
    var g := Place(f, key, record);
    var more := entries + [(key, record)];
    PlaceRecords(f, key, record);
    PlaceKeys(f, key, record);
    PlaceLinks(f, key, record);
    forall j | 0 <= j < |more| ensures PlacedAt(g, more[j].0, more[j].1) {
      if j < |entries| {
        assert more[j] == entries[j];
        assert entries[j].0 != key;
        PlacedAtKept(f, g, entries[j].0, entries[j].1);
      }
    }
    forall k ensures k in g.nodes <==> IsKey(more, k) || IsParent(more, k) {
      SnocKeys(entries, (key, record), k);
    }
    forall k | k in g.nodes && !IsKey(more, k) ensures g.cells[g.nodes[k]].record.None? {
      SnocKeys(entries, (key, record), k);
    }
  }

  /** The keys and parent keys of a list with one more entry. */
  lemma SnocKeys(entries: Entries, e: (string, R.Record), k: string)
    ensures IsKey(entries + [e], k) <==> IsKey(entries, k) || e.0 == k
    ensures IsParent(entries + [e], k) <==>
      IsParent(entries, k) || (R.Truthy(e.1.parentKey) && e.1.parentKey.value == k)
  {
    var more := entries + [e];
    assert more[|entries|] == e;
    if IsKey(entries, k) {
      var j :| 0 <= j < |entries| && entries[j].0 == k;
      assert more[j] == entries[j];
    }
    if IsParent(entries, k) {
      var j :| 0 <= j < |entries| && R.Truthy(entries[j].1.parentKey) && entries[j].1.parentKey.value == k;
      assert more[j] == entries[j];
    }
    if IsKey(more, k) && e.0 != k {
      var j :| 0 <= j < |more| && more[j].0 == k;
      assert more[j] == entries[j];
    }
    if IsParent(more, k) && !(R.Truthy(e.1.parentKey) && e.1.parentKey.value == k) {
      var j :| 0 <= j < |more| && R.Truthy(more[j].1.parentKey) && more[j].1.parentKey.value == k;
      assert more[j] == entries[j];
    }
  }

  /**
   * `tree_from_records(records)`: the loop over the records of a dict (whose
   * keys are distinct), then a root node with no record whose children are
   * the roots, in the order they were found. The arena holds the node
   * objects; `root` is the node returned.
   */
  method TreeFromRecords(entries: Entries) returns (cells: seq<Node>, nodes: map<string, nat>, root: nat)
    requires DistinctKeys(entries)
    ensures root == |cells| - 1 && cells[root].record.None?
    ensures forall c, j :: 0 <= c < |cells| && 0 <= j < |cells[c].children| ==> cells[c].children[j] < |cells|
    ensures Placed(Forest(cells[..root], nodes, cells[root].children), entries)
    ensures RootsAre(Forest(cells[..root], nodes, cells[root].children), RootKeys(entries))
    ensures ChildrenExact(Forest(cells[..root], nodes, cells[root].children), entries)
    ensures Keyed(Forest(cells[..root], nodes, cells[root].children))
  {
    cells := [];
    nodes := map[];
    var roots: seq<nat> := [];
    for i := 0 to |entries|
      invariant Placed(Forest(cells, nodes, roots), entries[..i])
      invariant RootsAre(Forest(cells, nodes, roots), RootKeys(entries[..i]))
      invariant ChildrenExact(Forest(cells, nodes, roots), entries[..i])
      invariant Keyed(Forest(cells, nodes, roots))
    {
      LoopStep(entries, i, Forest(cells, nodes, roots));
      RootsLoopStep(entries, i, Forest(cells, nodes, roots));
      ChildrenLoopStep(entries, i, Forest(cells, nodes, roots));
      PlaceKeyed(Forest(cells, nodes, roots), entries[i].0, entries[i].1);
      cells, nodes, roots := PlaceRecord(cells, nodes, roots, entries[i].0, entries[i].1);
    }
    assert entries[..|entries|] == entries;
    root := |cells|;
    RootClosed(Forest(cells, nodes, roots));
    cells := cells + [Node(None, roots)];
    assert cells[..root] == cells[..|cells| - 1];
  }

  /** The node returned, whose children are the roots, only refers to nodes that exist. */
  lemma RootClosed(f: Forest)
    requires WellFormed(f)
    ensures var cells := f.cells + [Node(None, f.roots)];
      forall c, j :: 0 <= c < |cells| && 0 <= j < |cells[c].children| ==> cells[c].children[j] < |cells|
  {
  }

  /** One pass of the loop of `tree_from_records` keeps its invariant. */
  lemma LoopStep(entries: Entries, i: nat, f: Forest)
    requires DistinctKeys(entries) && i < |entries| && Placed(f, entries[..i])
    ensures Placed(Place(f, entries[i].0, entries[i].1), entries[..i + 1])
  {
    var e := entries[i];
    NotYetKey(entries, i);
    PlaceStep(f, entries[..i], e.0, e.1);
    assert (e.0, e.1) == e;
    assert entries[..i] + [e] == entries[..i + 1];
  }

  /** One pass of the loop of `tree_from_records` keeps `roots` in step with the root keys. */
  lemma RootsLoopStep(entries: Entries, i: nat, f: Forest)
    requires i < |entries| && Placed(f, entries[..i]) && RootsAre(f, RootKeys(entries[..i]))
    ensures RootsAre(Place(f, entries[i].0, entries[i].1), RootKeys(entries[..i + 1]))
  {
    var e := entries[i];
    assert (e.0, e.1) == e;
    assert entries[..i] + [e] == entries[..i + 1];
    RootsStep(f, entries[..i], e.0, e.1);
  }

  /** With distinct keys, the key of an entry is not among those before it. */
  lemma NotYetKey(entries: Entries, i: nat)
    requires DistinctKeys(entries) && i < |entries|
    ensures !IsKey(entries[..i], entries[i].0)
  {
    forall j | 0 <= j < i ensures entries[..i][j].0 != entries[i].0 {
      assert entries[..i][j] == entries[j];
    }
  }

  /** The body of the loop of `tree_from_records`. */
  method PlaceRecord(cells: seq<Node>, nodes: map<string, nat>, roots: seq<nat>, key: string, record: R.Record)
    returns (cells': seq<Node>, nodes': map<string, nat>, roots': seq<nat>)
    requires WellFormed(Forest(cells, nodes, roots))
    ensures Forest(cells', nodes', roots') == Place(Forest(cells, nodes, roots), key, record)
  {
    var node: nat;
    cells', nodes', roots' := cells, nodes, roots;
    if key in nodes' {
      node := nodes'[key];
      cells' := cells'[node := cells'[node].(record := Some(record))];
    } else {
      node := |cells'|;
      cells' := cells' + [Node(Some(record), [])];
      nodes' := nodes'[key := node];
    }
    assert Forest(cells', nodes', roots') == Register(Forest(cells, nodes, roots), key, record);
    if record.parentKey.Some? && record.parentKey.value in nodes' {
      var p := nodes'[record.parentKey.value];
      cells' := cells'[p := cells'[p].(children := cells'[p].children + [node])];
    } else if R.Truthy(record.parentKey) {
      cells' := cells' + [Node(None, [node])];
      nodes' := nodes'[record.parentKey.value := |cells'| - 1];
    } else {
      roots' := roots' + [node];
    }
  }

  // ---------------------------------------------------------------------------
  // Node.__iter__
  // ---------------------------------------------------------------------------

  /** A node and the nodes below it, as a value. */
  datatype Tree = Tree(record: Option<R.Record>, children: seq<Tree>)

  /** `Node.__iter__`: the node itself, then each child's iteration in list order. */
  function Iter(t: Tree): (r: seq<Tree>)
    ensures |r| >= 1 && r[0] == t
    decreases t, 1
  {
    [t] + IterAll(t.children)
  }

  function IterAll(ts: seq<Tree>): seq<Tree>
    decreases ts, 0
  {
    if ts == [] then [] else IterAll(ts[..|ts| - 1]) + Iter(ts[|ts| - 1])
  }

  /** `d` is `t` or lies somewhere below it. */
  ghost predicate Within(d: Tree, t: Tree)
    decreases t
  {
    d == t || exists i :: 0 <= i < |t.children| && Within(d, t.children[i])
  }

  /** The iteration yields exactly the node and its descendants. */
  lemma {:induction false} IterYieldsSubtrees(t: Tree, d: Tree)
    ensures d in Iter(t) <==> Within(d, t)
    decreases t, 1
  {
    IterAllYieldsSubtrees(t.children, d);
  }

  lemma {:induction false} IterAllYieldsSubtrees(ts: seq<Tree>, d: Tree)
    ensures d in IterAll(ts) <==> exists i :: 0 <= i < |ts| && Within(d, ts[i])
    decreases ts, 0
  {
    if ts != [] {
      var n := |ts| - 1;
      IterAllYieldsSubtrees(ts[..n], d);
      IterYieldsSubtrees(ts[n], d);
      assert forall i :: 0 <= i < n ==> ts[..n][i] == ts[i];
    }
  }

  /** The number of nodes in a tree. */
  function Size(t: Tree): nat
    decreases t, 1
  {
    1 + SizeAll(t.children)
  }

  function SizeAll(ts: seq<Tree>): nat
    decreases ts, 0
  {
    if ts == [] then 0 else SizeAll(ts[..|ts| - 1]) + Size(ts[|ts| - 1])
  }

  /** The iteration visits as many nodes as the tree has. */
  lemma {:induction false} IterLength(t: Tree)
    ensures |Iter(t)| == Size(t)
    decreases t, 1
  {
    IterAllLength(t.children);
  }

  lemma {:induction false} IterAllLength(ts: seq<Tree>)
    ensures |IterAll(ts)| == SizeAll(ts)
    decreases ts, 0
  {
    if ts != [] {
      IterAllLength(ts[..|ts| - 1]);
      IterLength(ts[|ts| - 1]);
    }
  }

  /** The node objects of an arena seen as values, down to `depth` levels. */
  function View(cells: seq<Node>, i: nat, depth: nat): (t: Tree)
    requires i < |cells|
    requires forall c, j :: 0 <= c < |cells| && 0 <= j < |cells[c].children| ==> cells[c].children[j] < |cells|
    ensures t.record == cells[i].record
    ensures depth > 0 ==> |t.children| == |cells[i].children|
    decreases depth
  {
    if depth == 0 then Tree(cells[i].record, [])
    else Tree(cells[i].record, seq(|cells[i].children|, k requires 0 <= k < |cells[i].children| =>
                                     View(cells, cells[i].children[k], depth - 1)))
  }

  /**
   * The tree `tree_from_records` returns: the root has no record, its
   * children are the nodes of the root keys in the order of the records, and
   * iterating it yields the root first and then every root's own iteration.
   */
  lemma {:induction false} RootView(cells: seq<Node>, nodes: map<string, nat>, root: nat, entries: Entries, depth: nat)
    requires root == |cells| - 1 && cells[root].record.None?
    requires forall c, j :: 0 <= c < |cells| && 0 <= j < |cells[c].children| ==> cells[c].children[j] < |cells|
    requires RootsAre(Forest(cells[..root], nodes, cells[root].children), RootKeys(entries))
    ensures var t := View(cells, root, depth + 1); var ks := RootKeys(entries);
      Iter(t)[0].record.None? &&
      |t.children| == |ks| &&
      forall k :: 0 <= k < |ks| ==>
        ks[k] in nodes && nodes[ks[k]] < |cells| &&
        t.children[k] == View(cells, nodes[ks[k]], depth) &&
        t.children[k] in Iter(t)
  {
    var t := View(cells, root, depth + 1);
    var ks := RootKeys(entries);
    forall k | 0 <= k < |ks|
      ensures ks[k] in nodes && nodes[ks[k]] < |cells| && t.children[k] == View(cells, nodes[ks[k]], depth)
      ensures t.children[k] in Iter(t)
    {
      assert cells[root].children[k] == nodes[ks[k]];
      var d := t.children[k];
      assert Within(d, t);
      IterYieldsSubtrees(t, d);
    }
  }

  /**
   * `tree_from_records` promises that every record lies below the returned
   * node, but a record whose parent key never arrives as a key hangs under a
   * placeholder that is not a root: here "a" names parent "b", which has no
   * record, and the returned node is alone in its iteration.
   */
  lemma OrphanUnreachable(cells: seq<Node>, nodes: map<string, nat>, root: nat, depth: nat)
    requires root == |cells| - 1 && cells[root].record.None?
    requires forall c, j :: 0 <= c < |cells| && 0 <= j < |cells[c].children| ==> cells[c].children[j] < |cells|
    requires var entries := [("a", R.Record("a", "A", Some("b"), None))];
      Placed(Forest(cells[..root], nodes, cells[root].children), entries) &&
      RootsAre(Forest(cells[..root], nodes, cells[root].children), RootKeys(entries))
    ensures "a" in nodes && nodes["a"] < |cells| && cells[nodes["a"]].record == Some(R.Record("a", "A", Some("b"), None))
    ensures forall d :: d in Iter(View(cells, root, depth)) ==> d.record.None?
  {
    var entries := [("a", R.Record("a", "A", Some("b"), None))];
    assert entries[..0] == [];
    assert RootKeys(entries) == [];
    assert PlacedAt(Forest(cells[..root], nodes, cells[root].children), entries[0].0, entries[0].1);
    assert cells[..root][nodes["a"]] == cells[nodes["a"]];
    assert Iter(View(cells, root, depth)) == [View(cells, root, depth)];
  }
}
