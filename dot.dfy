/**
 * snutree's DOT objects (graphs, default-attribute statements, nodes, edges
 * and same-rank groups) and their rendering to Graphviz DOT text, four spaces
 * of indentation per nesting level.
 */
module Dot {
  import opened Wrappers
  import opened Text

  /**
   * A Graphviz attribute value: a Python `str`, which may be emitted bare
   * when it is an HTML-like "<...>" label, or any other value (number,
   * boolean, semester), emitted through its `str` form and always quoted.
   */
  datatype AttrValue = Text(s: string) | Other(shown: string)

  type Attrs = map<string, AttrValue>

  /** `str(value)` */
  function Shown(v: AttrValue): string {
    match v
    case Text(s) => s
    case Other(t) => t
  }

  datatype DotItem =
    | Graph(key: string, graphType: string, attributes: Attrs, children: seq<DotItem>)
    | Defaults(kind: string, attributes: Attrs)
    | Node(key: string, attributes: Attrs)
    | Edge(parent: string, child: string, attributes: Attrs)
    | Rank(keys: seq<string>)

  const GraphTypes: seq<string> := ["graph", "digraph", "subgraph"]
  const DefaultsTypes: seq<string> := ["node", "edge"]

  /** `indent(n)`: four spaces per level. */
  function Indent(level: nat): (r: string)
    ensures |r| == 4 * level
    ensures forall i :: 0 <= i < |r| ==> r[i] == ' '
  {
    if level == 0 then "" else "    " + Indent(level - 1)
  }

  /** `value[0::len(value)-1]`: every step-th character, starting with the first. */
  function Stride(s: string, step: nat): (r: string)
    requires step >= 1
    decreases |s|
  {
    if |s| == 0 then ""
    else if |s| <= step then [s[0]]
    else [s[0]] + Stride(s[step..], step)
  }

  /** The bracket test of `dict_to_attr`, written with the stride slice. */
  predicate Bracketed(v: AttrValue) {
    v.Text? && |v.s| > 1 && Stride(v.s, |v.s| - 1) == "<>"
  }

  /** The stride test is the plain test "first character '<', last character '>'". */
  lemma BracketedIffAngleDelimited(v: AttrValue)
    ensures Bracketed(v) <==> v.Text? && |v.s| >= 2 && v.s[0] == '<' && v.s[|v.s| - 1] == '>'
  {
    if v.Text? && |v.s| > 1 {
      var s := v.s;
      var k := |s| - 1;
      assert s[k..] == [s[k]];
      assert Stride(s[k..], k) == [s[k]];
      assert Stride(s, k) == [s[0], s[k]];
    }
  }

  /** One `key="value"` entry, or `key=value` for a bracketed string. */
  function FormatAttr(key: string, v: AttrValue): (r: string)
    ensures |r| > 0
  {
    if Bracketed(v) then key + "=" + Shown(v)
    else key + "=\"" + Shown(v) + "\""
  }

  /** The entries of a dictionary, sorted by key. */
  ghost function AttrEntries(attributes: Attrs): (r: seq<string>)
    ensures |r| == |attributes.Keys|
    ensures forall i :: 0 <= i < |r| ==> |r[i]| > 0
  {
    var ks := SortedSet(attributes.Keys);
    seq(|ks|, i requires 0 <= i < |ks| => FormatAttr(ks[i], attributes[ks[i]]))
  }

  /** `dict_to_attr(attributes, sep)` */
  ghost function DictToAttr(attributes: Attrs, sep: string): (r: string)
    ensures r == "" <==> attributes == map[]
  {
    var entries := AttrEntries(attributes);
    if attributes == map[] then
      assert |entries| == 0 by { assert attributes.Keys == {}; }
      Join(entries, sep)
    else
      assert |entries| > 0 by { var k :| k in attributes.Keys; }
      Join(entries, sep)
  }

  /** A one-entry dictionary is rendered as that entry alone. */
  lemma DictToAttrSingle(key: string, v: AttrValue, sep: string)
    ensures DictToAttr(map[key := v], sep) == FormatAttr(key, v)
  {
    var ks := SortedSet(map[key := v].Keys);
    assert ks == [key] by {
      assert |ks| == 1 && ks[0] in map[key := v].Keys;
    }
  }

  /** The check on a graph's type: `ValueError` outside graph, digraph, subgraph. */
  function MakeGraph(key: string, graphType: string, attributes: Attrs, children: seq<DotItem>): (r: Result<DotItem, string>)
    ensures r.Ok? <==> graphType in GraphTypes
    ensures r.Ok? ==> r.value == Graph(key, graphType, attributes, children)
  {
    if graphType in GraphTypes then Ok(Graph(key, graphType, attributes, children))
    else Err("Expected graph type in ('graph', 'digraph', 'subgraph'), but received: " + graphType)
  }

  /** The check on a defaults statement: `ValueError` outside node, edge. */
  function MakeDefaults(kind: string, attributes: Attrs): (r: Result<DotItem, string>)
    ensures r.Ok? <==> kind in DefaultsTypes
    ensures r.Ok? ==> r.value == Defaults(kind, attributes)
  {
    if kind in DefaultsTypes then Ok(Defaults(kind, attributes))
    else Err("Expected defaults type in ('node', 'edge'), but received: " + kind)
  }

  function Quote(s: string): string { "\"" + s + "\"" }

  /** " [attrs]" when there are attributes, nothing otherwise. */
  ghost function AttrSuffix(attributes: Attrs): (r: string)
    ensures attributes == map[] ==> r == ""
    ensures attributes != map[] ==> r == " [" + DictToAttr(attributes, ",") + "]"
  {
    var value := DictToAttr(attributes, ",");
    if value != "" then " [" + value + "]" else ""
  }

  /** The lines of a graph: header, attribute line, children one level deeper, closing brace. */
  ghost function GraphLines(key: string, graphType: string, attributes: Attrs, children: seq<DotItem>, level: nat): (lines: seq<string>)
    requires forall i :: 0 <= i < |children| ==> children[i] < Graph(key, graphType, attributes, children)
    decreases Graph(key, graphType, attributes, children), 0
  {
    var header := Indent(level) + graphType + " " + Quote(key) + " {";
    var attributeLine :=
      if attributes != map[] then
        [Indent(level + 1) + DictToAttr(attributes, ";\n" + Indent(level + 1)) + ";"]
      else [];
    [header] + attributeLine +
    seq(|children|, i requires 0 <= i < |children| => ToDot(children[i], level + 1)) +
    [Indent(level) + "}"]
  }

  /** `to_dot(indent_level)` */
  ghost function ToDot(item: DotItem, level: nat): (r: string)
    ensures StartsWith(r, Indent(level))
    decreases item, 1
  {
    match item
    case Graph(key, graphType, attributes, children) =>
      var lines := GraphLines(key, graphType, attributes, children, level);
      JoinStartsWith(lines, "\n", Indent(level));
      Join(lines, "\n")
    case Defaults(kind, attributes) => DefaultsToDot(kind, attributes, level)
    case Node(key, attributes) => NodeToDot(key, attributes, level)
    case Edge(parent, child, attributes) => EdgeToDot(parent, child, attributes, level)
    case Rank(keys) => RankToDot(keys, level)
  }

  ghost function DefaultsToDot(kind: string, attributes: Attrs, level: nat): (r: string)
    ensures StartsWith(r, Indent(level))
  {
    var r := Indent(level) + (kind + " [" + DictToAttr(attributes, ",") + "];");
    PrefixStartsWith(Indent(level), kind + " [" + DictToAttr(attributes, ",") + "];");
    r
  }

  ghost function NodeToDot(key: string, attributes: Attrs, level: nat): (r: string)
    ensures StartsWith(r, Indent(level))
  {
    var r := Indent(level) + (Quote(key) + AttrSuffix(attributes) + ";");
    PrefixStartsWith(Indent(level), Quote(key) + AttrSuffix(attributes) + ";");
    r
  }

  ghost function EdgeToDot(parent: string, child: string, attributes: Attrs, level: nat): (r: string)
    ensures StartsWith(r, Indent(level))
  {
    var r := Indent(level) + (Quote(parent) + " -> " + Quote(child) + AttrSuffix(attributes) + ";");
    PrefixStartsWith(Indent(level), Quote(parent) + " -> " + Quote(child) + AttrSuffix(attributes) + ";");
    r
  }

  /** `{rank=same "k1" "k2" ...};` with the keys sorted by `str`. */
  function RankToDot(keys: seq<string>, level: nat): (r: string)
    ensures StartsWith(r, Indent(level))
  {
    var sortedKeys := SortStrings(keys);
    var quoted := seq(|sortedKeys|, i requires 0 <= i < |sortedKeys| => Quote(sortedKeys[i]));
    var r := Indent(level) + ("{rank=same " + Join(quoted, " ") + "};");
    PrefixStartsWith(Indent(level), "{rank=same " + Join(quoted, " ") + "};");
    r
  }

  lemma PrefixStartsWith(a: string, b: string)
    ensures StartsWith(a + b, a)
  {
    assert (a + b)[..|a|] == a;
  }

  lemma JoinStartsWith(lines: seq<string>, sep: string, prefix: string)
    requires |lines| > 0 && StartsWith(lines[0], prefix)
    ensures StartsWith(Join(lines, sep), prefix)
  {
    if |lines| > 1 {
      assert Join(lines, sep) == lines[0] + (sep + Join(lines[1..], sep));
    }
  }

  /**
   * A graph's text is its header line, its attribute line when it has
   * attributes, then each child rendered one level deeper, then the closing
   * brace at the graph's own level, joined by newlines.
   */
  lemma GraphText(key: string, graphType: string, attributes: Attrs, children: seq<DotItem>, level: nat)
    ensures var lines := GraphLines(key, graphType, attributes, children, level);
      ToDot(Graph(key, graphType, attributes, children), level) == Join(lines, "\n") &&
      |lines| == (if attributes == map[] then 2 else 3) + |children| &&
      lines[0] == Indent(level) + graphType + " \"" + key + "\" {" &&
      lines[|lines| - 1] == Indent(level) + "}" &&
      (forall i :: 0 <= i < |children| ==>
        lines[i + |lines| - 1 - |children|] == ToDot(children[i], level + 1))
  {
  }

  /** A node with attributes is `"key" [attrs];`, one without is `"key";`. */
  lemma NodeText(key: string, attributes: Attrs, level: nat)
    ensures attributes == map[] ==>
      ToDot(Node(key, attributes), level) == Indent(level) + (Quote(key) + ";")
    ensures attributes != map[] ==>
      ToDot(Node(key, attributes), level) ==
      Indent(level) + (Quote(key) + " [" + DictToAttr(attributes, ",") + "];")
  {
    var d := DictToAttr(attributes, ",");
    if attributes == map[] {
      assert Quote(key) + "" == Quote(key);
    } else {
      assert Quote(key) + (" [" + d + "]") + ";" == Quote(key) + " [" + d + "];";
    }
  }

  /** An edge without attributes is `"p" -> "c";`. */
  lemma EdgeTextBare(parent: string, child: string, level: nat)
    ensures ToDot(Edge(parent, child, map[]), level) ==
      Indent(level) + (Quote(parent) + " -> " + Quote(child) + ";")
  {
    var head := Quote(parent) + " -> " + Quote(child);
    assert head + "" == head;
  }

  /** An edge with attributes is `"p" -> "c" [attrs];`. */
  lemma EdgeText(parent: string, child: string, attributes: Attrs, level: nat)
    requires attributes != map[]
    ensures ToDot(Edge(parent, child, attributes), level) ==
      Indent(level) + (Quote(parent) + " -> " + Quote(child) + " [" + DictToAttr(attributes, ",") + "];")
  {
    var head := Quote(parent) + " -> " + Quote(child);
    var d := DictToAttr(attributes, ",");
    assert head + (" [" + d + "]") + ";" == head + " [" + d + "];";
  }

  /** Defaults always keep their brackets: an empty dictionary gives `node [];`. */
  lemma DefaultsText(kind: string, attributes: Attrs, level: nat)
    ensures attributes == map[] ==> ToDot(Defaults(kind, attributes), level) == Indent(level) + (kind + " [];")
  {
  }

  /** A rank's text depends only on its keys as a multiset: the keys are sorted first. */
  lemma RankIgnoresKeyOrder(keys1: seq<string>, keys2: seq<string>, level: nat)
    requires multiset(keys1) == multiset(keys2)
    ensures ToDot(Rank(keys1), level) == ToDot(Rank(keys2), level)
  {
    SortedUnique(SortStrings(keys1), SortStrings(keys2));
  }
}
