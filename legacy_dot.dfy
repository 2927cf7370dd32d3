/**
 * The older DOT objects of `family_tree/dot.py`: graphs that carry their own
 * node and edge defaults, nodes, edges and same-rank groups, rendered without
 * indentation.
 */
module LegacyDot {
  import opened Wrappers
  import opened Text
  import Dot

  type Attrs = Dot.Attrs

  datatype LegacyItem =
    | Graph(key: string, graphType: string, children: seq<LegacyItem>, attributes: Attrs,
            nodeDefaults: Attrs, edgeDefaults: Attrs)
    | Node(key: string, attributes: Attrs)
    | Edge(parent: string, child: string, attributes: Attrs)
    | Rank(keys: seq<string>)

  /** A `str` value of at least two characters that starts with '<' and ends with '>' is written bare. */
  predicate AngleValue(v: Dot.AttrValue) {
    v.Text? && |v.s| >= 2 && v.s[0] == '<' && v.s[|v.s| - 1] == '>'
  }

  /** One `key=value` entry: the value bare when it is an angle value, quoted otherwise. */
  function FormatEntry(key: string, v: Dot.AttrValue): string {
    if AngleValue(v) then key + "=" + Dot.Shown(v)
    else key + "=\"" + Dot.Shown(v) + "\""
  }

  /** The entries for the given keys, in the given order. */
  function Entries(attributes: Attrs, ks: seq<string>): (r: seq<string>)
    requires forall k :: k in ks ==> k in attributes
    ensures |r| == |ks|
  {
    seq(|ks|, i requires 0 <= i < |ks| => FormatEntry(ks[i], attributes[ks[i]]))
  }

  /** `dict_to_dot_attributes(attributes, sep)`: the entries sorted by key, joined by `sep`. */
  ghost function DictToDotAttributes(attributes: Attrs, sep: string): string {
    Join(Entries(attributes, SortedSet(attributes.Keys)), sep)
  }

  /** Distinct sequences with the same elements are arrangements of one multiset. */
  lemma SameElementsSameMultiset(a: seq<string>, b: seq<string>)
    requires Distinct(a) && Distinct(b) && forall x :: x in a <==> x in b
    ensures multiset(a) == multiset(b)
  {
    forall x ensures multiset(a)[x] == multiset(b)[x] {
      DistinctCountAtMostOne(a, x);
      DistinctCountAtMostOne(b, x);
      if x in a {
        assert x in multiset(a) && x in multiset(b);
      } else {
        assert x !in multiset(a) && x !in multiset(b);
      }
    }
  }

  /** The keys of a dictionary, listed one by one in no particular order. */
  method ListKeys(attributes: Attrs) returns (listed: seq<string>)
    ensures Distinct(listed)
    ensures forall x :: x in listed <==> x in attributes
  {
    var rest := attributes.Keys;
    listed := [];
    while rest != {}
      invariant Distinct(listed)
      invariant forall x :: x in attributes.Keys <==> x in listed || x in rest
      invariant forall x :: x in listed ==> x !in rest
      decreases |rest|
    {
      var k :| k in rest;
      listed := listed + [k];
      rest := rest - {k};
    }
  }

  /** Sorting the listed keys gives the sorted key set, whatever order they were listed in. */
  lemma SortedKeys(attributes: Attrs, listed: seq<string>)
    requires Distinct(listed)
    requires forall x :: x in listed <==> x in attributes
    ensures SortStrings(listed) == SortedSet(attributes.Keys)
  {
    var sortedKeys := SortedSet(attributes.Keys);
    StrictlySortedDistinct(sortedKeys);
    SameElementsSameMultiset(listed, sortedKeys);
    SortedUnique(SortStrings(listed), sortedKeys);
  }

  /** One entry per key, in the order of `ks`. */
  method FormatEntries(attributes: Attrs, ks: seq<string>) returns (entries: seq<string>)
    requires forall k :: k in ks ==> k in attributes
    ensures entries == Entries(attributes, ks)
  {
    entries := [];
    var i := 0;
    while i < |ks|
      invariant 0 <= i <= |ks|
      invariant entries == Entries(attributes, ks[..i])
    {
      entries := entries + [FormatEntry(ks[i], attributes[ks[i]])];
      i := i + 1;
    }
    assert ks[..|ks|] == ks;
  }

  /**
   * `dict_to_dot_attributes(attributes, sep)`: list the keys, sort them, and
   * append one entry per key.
   */
  method FormatAttributes(attributes: Attrs, sep: string) returns (r: string)
    ensures r == DictToDotAttributes(attributes, sep)
  {
    var listed := ListKeys(attributes);
    var ks := SortStrings(listed);
    SortedKeys(attributes, listed);
    var entries := FormatEntries(attributes, ks);
    r := Join(entries, sep);
  }

  /**
   * The older formatter and `dict_to_attr` of `snutree/dot.py` write every
   * dictionary alike: the stride slice there is the first-and-last test here.
   */
  lemma SameAsSnutree(attributes: Attrs, sep: string)
    ensures DictToDotAttributes(attributes, sep) == Dot.DictToAttr(attributes, sep)
  {
    forall key, v ensures FormatEntry(key, v) == Dot.FormatAttr(key, v) {
      Dot.BracketedIffAngleDelimited(v);
    }
    var ks := SortedSet(attributes.Keys);
    assert Entries(attributes, ks) == Dot.AttrEntries(attributes);
  }

  /** An empty dictionary gives the empty string, and only an empty one. */
  lemma EmptyIffNoAttributes(attributes: Attrs, sep: string)
    ensures DictToDotAttributes(attributes, sep) == "" <==> attributes == map[]
  {
    SameAsSnutree(attributes, sep);
  }

  /** `Graph(key, graph_type, ...)`: `ValueError` outside graph, digraph, subgraph. */
  function MakeGraph(key: string, graphType: string, children: seq<LegacyItem>, attributes: Attrs,
                     nodeDefaults: Attrs, edgeDefaults: Attrs): (r: Result<LegacyItem, string>)
    ensures r.Ok? <==> graphType in Dot.GraphTypes
    ensures r.Ok? ==> r.value == Graph(key, graphType, children, attributes, nodeDefaults, edgeDefaults)
  {
    if graphType in Dot.GraphTypes then Ok(Graph(key, graphType, children, attributes, nodeDefaults, edgeDefaults))
    else Err("Expected graph type in ('graph', 'digraph', 'subgraph'), but received: " + graphType)
  }

  /** A line that is written only when `present` holds. */
  function Optional(present: bool, line: string): (r: seq<string>)
    ensures present ==> r == [line]
    ensures !present ==> r == []
  {
    if present then [line] else []
  }

  /** The attribute, node-defaults and edge-defaults lines, each present only when its dictionary is not empty. */
  ghost function SettingLines(attributes: Attrs, nodeDefaults: Attrs, edgeDefaults: Attrs): (r: seq<string>)
  {
    Optional(attributes != map[], DictToDotAttributes(attributes, ";\n") + ";") +
    Optional(nodeDefaults != map[], "node [" + DictToDotAttributes(nodeDefaults, ",") + "];") +
    Optional(edgeDefaults != map[], "edge [" + DictToDotAttributes(edgeDefaults, ",") + "];")
  }

  /** There is one setting line for each non-empty dictionary. */
  lemma SettingLinesCount(attributes: Attrs, nodeDefaults: Attrs, edgeDefaults: Attrs)
    ensures |SettingLines(attributes, nodeDefaults, edgeDefaults)| ==
      (if attributes != map[] then 1 else 0) + (if nodeDefaults != map[] then 1 else 0) +
      (if edgeDefaults != map[] then 1 else 0)
  {
  }

  /** The lines of a graph: header, settings, one text per child, closing brace. */
  ghost function GraphLines(item: LegacyItem): (lines: seq<string>)
    requires item.Graph?
    decreases item, 1
  {
    [item.graphType + " " + Dot.Quote(item.key) + " {"] +
    SettingLines(item.attributes, item.nodeDefaults, item.edgeDefaults) +
    ChildTexts(item) +
    ["}"]
  }

  /** The text of each child, in order. */
  ghost function ChildTexts(item: LegacyItem): (texts: seq<string>)
    requires item.Graph?
    decreases item, 0
  {
    seq(|item.children|, i requires 0 <= i < |item.children| => ToDot(item.children[i]))
  }

  /** `to_dot()`, with no indentation at any depth. */
  ghost function ToDot(item: LegacyItem): string
    decreases item, 2
  {
    match item
    case Graph(_, _, _, _, _, _) => Join(GraphLines(item), "\n")
    case Node(key, attributes) =>
      var a := DictToDotAttributes(attributes, ",");
      if a != "" then Dot.Quote(key) + " [" + a + "];" else Dot.Quote(key) + ";"
    case Edge(parent, child, attributes) =>
      var a := DictToDotAttributes(attributes, ",");
      if a != "" then Dot.Quote(parent) + " -> " + Dot.Quote(child) + " [" + a + "];"
      else Dot.Quote(parent) + " -> " + Dot.Quote(child) + ";"
    case Rank(keys) => Dot.RankToDot(keys, 0)
  }

  /**
   * A graph's text has the header, then its setting lines, then its
   * children in order, then the closing brace; the children are not
   * indented, however deep.
   */
  lemma GraphText(item: LegacyItem)
    requires item.Graph?
    ensures var lines := GraphLines(item);
      var settings := SettingLines(item.attributes, item.nodeDefaults, item.edgeDefaults);
      ToDot(item) == Join(lines, "\n") &&
      |lines| == 2 + |settings| + |item.children| &&
      lines[0] == item.graphType + " " + Dot.Quote(item.key) + " {" &&
      lines[1..1 + |settings|] == settings &&
      (forall i :: 0 <= i < |item.children| ==> lines[1 + |settings| + i] == ToDot(item.children[i])) &&
      lines[|lines| - 1] == "}"
  {
    GraphJoin(item);
    GraphParts(item);
  }

  lemma GraphJoin(item: LegacyItem)
    requires item.Graph?
    ensures ToDot(item) == Join(GraphLines(item), "\n")
  {
  }

  lemma GraphParts(item: LegacyItem)
    requires item.Graph?
    ensures var lines := GraphLines(item);
      var settings := SettingLines(item.attributes, item.nodeDefaults, item.edgeDefaults);
      |lines| == 2 + |settings| + |item.children| &&
      lines[0] == item.graphType + " " + Dot.Quote(item.key) + " {" &&
      lines[1..1 + |settings|] == settings &&
      (forall i :: 0 <= i < |item.children| ==> lines[1 + |settings| + i] == ToDot(item.children[i])) &&
      lines[|lines| - 1] == "}"
  {
    var settings := SettingLines(item.attributes, item.nodeDefaults, item.edgeDefaults);
    var header := item.graphType + " " + Dot.Quote(item.key) + " {";
    var kids := ChildTexts(item);
    var lines := GraphLines(item);
    FourParts(header, settings, kids, lines);
    forall i | 0 <= i < |item.children| ensures lines[1 + |settings| + i] == ToDot(item.children[i]) {
      assert lines[1 + |settings| + i] == kids[i];
    }
  }

  /** The parts of a header, settings, children and closing-brace concatenation. */
  lemma FourParts(header: string, settings: seq<string>, kids: seq<string>, lines: seq<string>)
    requires lines == [header] + settings + kids + ["}"]
    ensures |lines| == 2 + |settings| + |kids| && lines[0] == header
    ensures lines[1..1 + |settings|] == settings && lines[|lines| - 1] == "}"
    ensures forall i :: 0 <= i < |kids| ==> lines[1 + |settings| + i] == kids[i]
  {
    assert lines[1..1 + |settings|] == settings;
    forall i | 0 <= i < |kids| ensures lines[1 + |settings| + i] == kids[i] {
      ThirdPart([header], settings, kids, ["}"], i);
    }
  }

  /** Index `i` of the third part of a four-part concatenation. */
  lemma ThirdPart<T>(a: seq<T>, b: seq<T>, c: seq<T>, d: seq<T>, i: nat)
    requires i < |c|
    ensures (a + b + c + d)[|a| + |b| + i] == c[i]
  {
  }

  /**
   * A node without attributes is written `"key";`, and one with attributes
   * `"key" [attrs];` -- the same text `snutree/dot.py` writes at the outer
   * indentation level.
   */
  lemma NodeText(key: string, attributes: Attrs)
    ensures attributes == map[] ==> ToDot(Node(key, attributes)) == Dot.Quote(key) + ";"
    ensures attributes != map[] ==>
      ToDot(Node(key, attributes)) == Dot.Quote(key) + " [" + DictToDotAttributes(attributes, ",") + "];"
    ensures ToDot(Node(key, attributes)) == Dot.ToDot(Dot.Node(key, attributes), 0)
  {
    EmptyIffNoAttributes(attributes, ",");
    SameAsSnutree(attributes, ",");
    Dot.NodeText(key, attributes, 0);
    assert Dot.Indent(0) == "";
  }

  /** An edge is written `"p" -> "c";` or `"p" -> "c" [attrs];`, as in `snutree/dot.py` at the outer level. */
  lemma EdgeText(parent: string, child: string, attributes: Attrs)
    ensures attributes == map[] ==> ToDot(Edge(parent, child, attributes)) == Dot.Quote(parent) + " -> " + Dot.Quote(child) + ";"
    ensures attributes != map[] ==>
      ToDot(Edge(parent, child, attributes)) ==
      Dot.Quote(parent) + " -> " + Dot.Quote(child) + " [" + DictToDotAttributes(attributes, ",") + "];"
    ensures ToDot(Edge(parent, child, attributes)) == Dot.ToDot(Dot.Edge(parent, child, attributes), 0)
  {
    EmptyIffNoAttributes(attributes, ",");
    SameAsSnutree(attributes, ",");
    assert Dot.Indent(0) == "";
    if attributes == map[] {
      Dot.EdgeTextBare(parent, child, 0);
    } else {
      Dot.EdgeText(parent, child, attributes, 0);
    }
  }

  /** A rank is written with its keys sorted, so its text does not depend on their order. */
  lemma RankText(keys1: seq<string>, keys2: seq<string>)
    requires multiset(keys1) == multiset(keys2)
    ensures ToDot(Rank(keys1)) == ToDot(Rank(keys2))
  {
    Dot.RankIgnoresKeyOrder(keys1, keys2, 0);
  }
}
