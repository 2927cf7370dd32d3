# snutree in Dafny

snutree turns the membership records of a fraternity chapter into a
"big brother / little brother" family tree and prints it as Graphviz DOT
text. This project models its core and proves properties of the model.

The repository holds two generations of code, and each is modelled on its
own terms:

- the later `snutree/` package:
  - the `FamilyTree` assembly and decoration pipeline (`snutree/tree.py`);
  - the DOT writer's passes over a tree (`snutree/writers/dot.py`);
  - entities (`snutree/entity.py`) and semesters as ranks (`snutree/semester.py`);
  - Sigma Nu members and chapter affiliations (`snutree/member/sigmanu.py`, `snutree/schemas/sigmanu.py`);
  - validators (`snutree/utilities/voluptuous.py`) and the member directory (`snutree/directory.py`);
  - the DOT serialiser (`snutree/dot.py`);
  - configuration merging and writer choice (`snutree/api.py`, `snutree/snutree.py`);
- the earlier `family_tree/` package:
  - semesters (`family_tree/semester.py`) and records (`family_tree/records.py`);
  - CSV readers (`family_tree/file.py`);
  - the record tree (`family_tree/node.py`);
  - its DOT serialiser (`family_tree/dot.py`).

Each source file has its own Dafny module:

- `wrappers.dfy` (`Wrappers`): `Option` and `Result`
- `text.dfy` (`Text`): Python's string order, `str(int)`, `int(str)`, `strip`, `split`, `join`, sorting
- `semester.dfy` (`Semester`): snutree/semester.py
- `legacy_semester.dfy` (`LegacySemester`): family_tree/semester.py
- `entity.dfy` (`Entity`): snutree/entity.py
- `color_picker.dfy` (`ColorPicker`): the colour picker snutree/tree.py and snutree/writers/dot.py draw from
- `digraph.dfy` (`Digraph`): degrees and weakly connected components (what networkx provides)
- `tree_graph.dfy` (`TreeGraph`): snutree/tree.py, each `FamilyTree` step as a function on the graph
- `family_tree.dfy` (`FamilyTrees`): snutree/tree.py, the class `FamilyTree` whose methods change the graph in place
- `ordering.dfy` (`Ordering`): snutree/tree.py, `ordered_nodes` and `ordered_edges`
- `tree_output.dfy` (`TreeOutput`): snutree/tree.py, rank bounds, ranks and the date column
- `dot.dfy` (`Dot`): snutree/dot.py
- `dot_writer.dfy` (`DotWriter`): snutree/writers/dot.py, `decorate` and its passes
- `dot_writer_output.dfy` (`DotWriterOutput`): snutree/writers/dot.py, `create_dot_graph` and its parts
- `legacy_dot.dfy` (`LegacyDot`): family_tree/dot.py
- `affiliation.dfy` (`Affiliations`): snutree/member/sigmanu.py, `Affiliation`
- `sigmanu_member.dfy` (`SigmaNuMembers`): snutree/member/sigmanu.py, members, `from_dict` and `validate`
- `sigmanu_schema.dfy` (`SigmaNuSchema`): snutree/schemas/sigmanu.py
- `validators.dfy` (`Validators`): snutree/utilities/voluptuous.py
- `directory.dfy` (`Directories`): snutree/directory.py
- `config.dfy` (`Config`): snutree/api.py and snutree/snutree.py
- `records.dfy` (`Records`): family_tree/records.py
- `csv_readers.dfy` (`CsvReaders`): family_tree/file.py
- `record_tree.dfy` (`RecordTree`): family_tree/node.py

Code that changes state in place is modelled with state. `FamilyTree`,
`TreeEntity`, the member counters and `Directory` are classes; the loops
are methods with invariants. Each method is proved equal to a function
that specifies it, and the properties are proved about those functions.
Pure code is modelled as functions and lemmas.

Errors are `Result` values, not preconditions: duplicate entities,
unknown parents, ranks out of order, unknown path keys, colour conflicts,
malformed semesters, badges and affiliations, unknown statuses and
duplicate rows.

Where the code and its documentation disagree, the model follows the code.
The docstring of `tree_from_records` (family_tree/node.py:13-14) says that
every record descends from the returned node. In the code, a record whose
parent key never appears as a key hangs under a placeholder that is not a
root, so iterating the returned node never reaches it
(`RecordTree.OrphanUnreachable`).

## Model

| member | source | states |
|---|---|---|
| Semester.SeasonValue | snutree/semester.py:17 | the season contributes 0 (Spring) or 1 (Fall) |
| Semester.MatchSeasonYear | snutree/semester.py:5-15 | a match is a season name, one space and a run of ASCII digits at the start of the string; what follows the digits is ignored |
| Semester.Parse | snutree/semester.py:12-23 | a string is accepted exactly when the pattern matches at its start, and then gives a non-negative value; otherwise ValueError |
| Semester.EncodeDecode | snutree/semester.py:19-41 | `divmod(v, 2)` recovers the season and year that 2·year + season was built from, for every integer |
| Semester.DecodeEncode | snutree/semester.py:19-41 | encoding a season and year, then splitting with `divmod`, gives them back |
| Semester.ReprSeason | snutree/semester.py:40-45 | the printed form starts with "Fall " exactly for odd values and with "Spring " exactly for even ones |
| Semester.Construct | snutree/semester.py:7-38 | one int is taken unchanged, one string is parsed, a (str, int) pair gives 2·year + season unless its season is falsy, any other shape is a TypeError |
| Semester.SeasonByName | snutree/semester.py:28 | the season table knows exactly "Spring" and "Fall" |
| Semester.ConstructRejectsSpringPair | snutree/semester.py:28-31 | ("Spring", y) raises ValueError although "Spring y" gives 2·y |
| Semester.ConstructIntended | snutree/semester.py:25-33 | the constructor with the season test meant as "season missing": the same int, string and other-shape behaviour |
| Semester.ConstructIntendedPairMatchesString | snutree/semester.py:25-33 | with the intended test, (season, y) agrees with the string "season y" for both seasons, and another season name is a ValueError |
| Semester.ParseCanonical | snutree/semester.py:12-19 | "<season> <year>" followed by anything that does not continue the digits parses to 2·year + season |
| Semester.MatchDigits | snutree/semester.py:5-15 | the matcher takes the whole run of digits after the season, not a shorter one |
| Semester.ParseRepr | snutree/semester.py:15-42 | printing then parsing gives back every non-negative semester |
| Semester.ReprNegativeDoesNotParse | snutree/semester.py:15-42 | a negative semester prints with a minus sign and its printed form is refused |
| Semester.ReprParse | snutree/semester.py:15-42 | parsing then printing reproduces the matched "<season> <year>" with the year's leading zeros dropped |
| Semester.AddOne | snutree/semester.py:47-48 | Spring y + 1 is Fall y, and Fall y + 1 is Spring y+1 |
| Semester.AddYears | snutree/semester.py:47-48 | adding 2k keeps the season and moves the year by k |
| Semester.SubAdd | snutree/semester.py:47-53 | `-k` undoes `+k` and `+k` undoes `-k` |
| Semester.OrderIsCalendarOrder | snutree/semester.py:19 | integer order is calendar order: the earlier year first, and Spring before Fall within a year |
| LegacySemester.Parse | family_tree/semester.py:9-24 | a string matching the pattern at its start gives that season and year; exactly "max" and "min" give the sentinels; everything else is a ValueError |
| LegacySemester.EqIsIdentity | family_tree/semester.py:26-27 | equality of (season, year) pairs is equality of semesters |
| LegacySemester.LessIsStrictTotalOrder | family_tree/semester.py:29-33 | `__lt__` is irreflexive, transitive, total and asymmetric, sentinels included |
| LegacySemester.DerivedComparisons | family_tree/semester.py:4-33 | the comparisons `total_ordering` derives are the converses of `<` and `<=` |
| LegacySemester.LessMatchesEncoding | family_tree/semester.py:29-33 | for ordinary semesters the order is that of the integer 2·year + season |
| LegacySemester.ParseName | family_tree/semester.py:9-36 | "<season> <year>" parses to that ordinary semester |
| LegacySemester.ParseStr | family_tree/semester.py:9-36 | the string of an ordinary semester parses back to it |
| LegacySemester.SentinelStrDoesNotParse | family_tree/semester.py:15-36 | a sentinel prints as " inf" or " -inf", which does not parse |
| LegacySemester.ParseIgnoresLeadingZeros | family_tree/semester.py:11-14 | leading zeros in the year do not change the parsed semester |
| LegacySemester.IncrementIsNext | family_tree/semester.py:38-46 | increment maps Spring y to Fall y, Fall y to Spring y+1, each sentinel to itself, and moves an ordinary semester up the order |
| LegacySemester.DecrementIsPrevious | family_tree/semester.py:48-56 | decrement undoes the step forward for every semester except Spring 0, whose decrement fails |
| LegacySemester.SpringZeroHasNoPredecessor | family_tree/semester.py:51-52 | the text "Fall -1" that decrement builds for Spring 0 is refused |
| LegacySemester.NextInjective | family_tree/semester.py:38-46 | no two semesters have the same successor |
| LegacySemester.DecrementIncrement | family_tree/semester.py:38-56 | decrement(increment(s)) = s for every semester |
| LegacySemester.IncrementDecrement | family_tree/semester.py:38-56 | increment(decrement(s)) = s whenever the decrement succeeds |
| Entity.ReadSemester | snutree/entity.py:27-33 | the getter succeeds exactly when the stored value is set and non-zero, returns it unchanged, and otherwise raises naming the key |
| Entity.PlaceholderKey | snutree/entity.py:64 | the placeholder key is the member key followed by " Parent" |
| Entity.PlaceholderSemester | snutree/entity.py:65-68 | the placeholder's semester is set exactly when the member's getter succeeds, and is then one less |
| Entity.AttributesOrEmpty | snutree/entity.py:47-69 | missing attributes default to `{}`, given ones are kept |
| Entity.MemberDotAttributes | snutree/entity.py:95-96 | a member's DOT attributes are exactly `{'label': label}` |
| Entity.TreeEntity.Custom | snutree/entity.py:44-47 | `Custom` stores its key, semester and attributes, defaulting to `{}` |
| Entity.TreeEntity.UnidentifiedInitiate | snutree/entity.py:63-69 | the placeholder parent gets the key "<member key> Parent", the member's semester minus one or none, and its attributes |
| Entity.TreeEntity.Member | snutree/entity.py:71-96 | a member stores its key, semester, label and parent key |
| Entity.TreeEntity.Semester | snutree/entity.py:27-33 | the `semester` property of an entity, with the getter's contract on its stored field |
| Entity.TreeEntity.SetSemester | snutree/entity.py:35-37 | the setter stores the value as given, even a falsy one, and changes nothing else |
| Entity.TreeEntity.DotAttributes | snutree/entity.py:39-96 | a custom entity's own attributes, a member's label |
| Entity.PlaceholderOneBefore | snutree/entity.py:63-69 | a placeholder's semester reads one before its member's; when the member's getter raises, the placeholder's getter raises too |
| Entity.PlaceholderOfSemesterOneIsUnset | snutree/entity.py:29-66 | a member at semester 1 gets a placeholder stored at 0, whose getter raises |
| Entity.PlaceholderKeyIsNew | snutree/entity.py:64 | a placeholder's key differs from its member's |
| ColorPicker.Use | tests/test_colors.py:6-19 | `use(c)` keeps the same colours, puts a held colour at the back and leaves the picker unchanged for an unknown colour |
| ColorPicker.Next | tests/test_colors.py:12-14 | `next` hands out a colour the picker holds and keeps as many colours |
| ColorPicker.NextPermutes | tests/test_colors.py:12-14 | after `next` the queue holds exactly the same colours |
| ColorPicker.AdvanceRotates | tests/test_colors.py:12-14 | after n calls of `next` the queue is the palette rotated left by n, so call n+1 hands out colour n |
| ColorPicker.FullCycle | tests/test_colors.py:21-24 | one call of `next` per colour brings the picker back to where it started |
| ColorPicker.AdvanceLast | snutree/tree.py:491 | n+1 calls are n calls followed by one more |
| ColorPicker.UseUnknownIsNoop | tests/test_colors.py:16-19 | using a colour the picker does not hold changes nothing |
| ColorPicker.UseTwice | tests/test_colors.py:8-11 | with distinct colours, using the same colour twice is the same as using it once |
| Digraph.DegreeZeroIffIsolated | snutree/tree.py:403-404 | total degree 0 means exactly that no edge touches the node |
| Digraph.InDegreeZeroIffNoParent | snutree/tree.py:292-294 | in-degree 0 means exactly that no edge ends at the node |
| Digraph.ConnectedSymmetric | snutree/tree.py:416-418 | weak connectivity ignores edge direction |
| Digraph.ConnectedTransitive | snutree/tree.py:416-418 | weak connectivity is transitive |
| Digraph.Grow | snutree/tree.py:418 | the search for a component stays inside the vertex set and keeps its start |
| Digraph.GrowClosed | snutree/tree.py:418 | the search stops only at a set closed under adjacency |
| Digraph.Component | snutree/tree.py:418 | a weakly connected component holds its start vertex and only vertices of the graph |
| Digraph.ComponentIsConnected | snutree/tree.py:418 | a vertex is in a's component exactly when a walk inside the graph joins them |
| Digraph.ComponentOfMember | snutree/tree.py:418 | every member of a component has that same component |
| Digraph.ComponentsEqualOrDisjoint | snutree/tree.py:418 | two components are equal or disjoint |
| Digraph.SameComponentIffConnected | snutree/tree.py:418 | two vertices share a component exactly when they are connected |
| TreeGraph.DotAttributesOf | snutree/tree.py:79-124 | a member's attributes are its label, a custom entity's are its own |
| TreeGraph.SemesterOf | snutree/tree.py:67-73 | the semester getter succeeds exactly for a set, non-zero value and otherwise raises naming the key |
| TreeGraph.EmptyGraphWellFormed | snutree/tree.py:229 | the empty graph satisfies the tree's invariant |
| TreeGraph.AddEntityTo | snutree/tree.py:296-306 | adding fails exactly when the key is already on the tree, with DUPLICATE_ENTITY for that key |
| TreeGraph.AddEntitySpec | snutree/tree.py:296-306 | a new key adds exactly one node, holding the entity and its DOT attributes, after the others; nothing else changes |
| TreeGraph.AddEntityWellFormed | snutree/tree.py:296-306 | adding an entity keeps keys unique and edges between existing nodes |
| TreeGraph.FreshKeysCons | snutree/tree.py:339-345 | a list of keys is fresh exactly when its head is new and its tail is fresh once the head is added |
| TreeGraph.AddEntitiesSucceedsIff | snutree/tree.py:339-355 | adding a list succeeds exactly when the keys are new and pairwise different; a failure is DUPLICATE_ENTITY for one of them |
| TreeGraph.AddEntitiesFrame | snutree/tree.py:339-345 | a successful addition keeps every earlier node and every edge, and the invariant |
| TreeGraph.AddEntitiesKeys | snutree/tree.py:339-345 | the keys are appended in input order |
| TreeGraph.AddEntitiesStores | snutree/tree.py:339-345 | each entity is stored under its own key with its DOT attributes |
| TreeGraph.CustomEntities | snutree/tree.py:354-355 | each settings entry becomes `Custom(key, **value)` in order |
| TreeGraph.AddBigRelationshipTo | snutree/tree.py:308-332 | an unknown parent raises PARENT_UNKNOWN; success adds exactly the edge parent→member with no attributes |
| TreeGraph.AddBigRelationshipSucceedsIff | snutree/tree.py:319-332 | wiring succeeds exactly when the parent is on the tree and, with semesters on, both semesters are set and the member's is not before the parent's; with semesters off ranks are not read |
| TreeGraph.ParentNotPriorIff | snutree/tree.py:326-330 | PARENT_NOT_PRIOR fires exactly when the member's semester is strictly before the parent's, so equal semesters pass |
| TreeGraph.AddBigRelationshipWellFormed | snutree/tree.py:332 | an added parent edge keeps the invariant |
| TreeGraph.AddRelationshipsFrame | snutree/tree.py:357-367 | wiring changes only the edges, only adds edges, gives each new one no attributes and keeps the invariant |
| TreeGraph.AddRelationshipsEdges | snutree/tree.py:365-367 | the new edges are exactly one parent→member edge per listed member with a truthy parent |
| TreeGraph.RelationshipStep | snutree/tree.py:365-367 | the edges after one more member are those it asks for plus those of the rest |
| TreeGraph.AddRelationshipsChecked | snutree/tree.py:319-367 | when wiring succeeds every member with a parent passed the parent checks |
| TreeGraph.FirstMissing | snutree/tree.py:379-385 | no key is reported exactly when all keys are on the tree; a reported key is a missing key of the path |
| TreeGraph.FirstMissingIsFirst | snutree/tree.py:379-385 | the key reported is the first one missing |
| TreeGraph.AddPairs | snutree/tree.py:389-390 | the edges after `add_edges_from` are the old ones plus the consecutive pairs, the pairs carrying the path's attributes |
| TreeGraph.AddPathTo | snutree/tree.py:376-390 | a path fails exactly when one of its keys is missing, with UNKNOWN_EDGE_COMPONENT naming "path" or "edge" and the first missing key; otherwise only edges are added |
| TreeGraph.AddPathSpec | snutree/tree.py:389-390 | a path of n known keys adds the n−1 consecutive pairs, each with the path's attributes, and nothing else |
| TreeGraph.AddPathsSpec | snutree/tree.py:369-390 | custom paths keep the invariant and the nodes, and fail only with UNKNOWN_EDGE_COMPONENT |
| TreeGraph.Without | snutree/tree.py:406 | removal keeps exactly the other keys, in order |
| TreeGraph.Singletons | snutree/tree.py:403-404 | the singletons are exactly the member nodes of total degree 0 |
| TreeGraph.RemoveSingletonsSpec | snutree/tree.py:392-406 | pruning removes exactly the member nodes of degree 0; every other node keeps its data and place, all edges stay, the invariant holds |
| TreeGraph.EdgeEndsNotIsolated | snutree/tree.py:403 | both ends of an edge have positive degree, so pruning never strands an edge |
| TreeGraph.MemberKeys | snutree/tree.py:281-286 | the members-only subgraph has exactly the member nodes |
| TreeGraph.FamilyOf | snutree/tree.py:416-418 | a member's family contains it and only members |
| TreeGraph.MarkFamiliesSpec | snutree/tree.py:408-424 | after marking, two members share a family record exactly when an undirected path through members joins them; non-members get none |
| TreeGraph.MarkFamiliesFrame | snutree/tree.py:421-424 | marking changes only the family field and keeps the invariant |
| TreeGraph.ColorFamilies | snutree/tree.py:468-483 | the explicit-colour pass keeps the picker's colours |
| TreeGraph.NonexistentColorKeys | snutree/tree.py:470-472 | a warning is issued for exactly the settings keys not on the tree |
| TreeGraph.ColorableStep | snutree/tree.py:474-483 | after applying one entry, the rest are applicable exactly when all were |
| TreeGraph.ColorableSkip | snutree/tree.py:470-472 | an entry whose key is not on the tree does not affect whether the colours apply |
| TreeGraph.ColorFamiliesSucceedsIff | snutree/tree.py:468-483 | the explicit-colour pass succeeds exactly when every present key names a family without a colour and no family is named twice; otherwise FAMILY_COLOR_CONFLICT or the missing family |
| TreeGraph.ColorFamiliesResult | snutree/tree.py:476-483 | afterwards each present key's family has that entry's colour, earlier colours stay, nothing else changes |
| TreeGraph.ColorMember | snutree/tree.py:488-493 | colouring one member draws at most one colour and keeps the palette size |
| TreeGraph.ColorMemberSpec | snutree/tree.py:488-493 | only that member's attributes and its family's colour change; the member wears its family's colour |
| TreeGraph.ColorNodesFrame | snutree/tree.py:487-493 | the sorted pass changes only the visited members' attributes and adds family colours, keeping those already set |
| TreeGraph.ColorNodesSucceedsIff | snutree/tree.py:487-493 | the sorted pass fails exactly when a visited member has no family, and names it |
| TreeGraph.ColorNodesColors | snutree/tree.py:493 | each visited member ends up with its family's colour added to its attributes |
| TreeGraph.FamilyOrder | snutree/tree.py:487-491 | the families still needing a colour are listed once each, in the order the walk meets them |
| TreeGraph.ColorNodesOrder | snutree/tree.py:485-491 | uncoloured families get the picker's colours in sorted-key visiting order |
| TreeGraph.NewFamilyStep | snutree/tree.py:490-491 | the first family met takes the picker's next colour and the rest follow the advanced picker |
| TreeGraph.AddColorsSpec | snutree/tree.py:457-493 | `add_colors` succeeds exactly when the explicit colours apply and every member has a family; then every member wears its family's colour, explicit colours are kept, and only attributes and colours change |
| TreeGraph.Orphans | snutree/tree.py:288-294 | the orphans are exactly the listed members of in-degree 0 |
| TreeGraph.PlaceholderOf | snutree/tree.py:105-111 | the placeholder is a custom entity keyed "<key> Parent", one semester earlier or unset |
| TreeGraph.AddOrphanParent | snutree/tree.py:443-451 | one orphan's step keeps every member a member |
| TreeGraph.PlaceholderKeyInjective | snutree/tree.py:106 | different members have different placeholder keys |
| TreeGraph.AddOrphanParentSucceedsIff | snutree/tree.py:447-450 | one orphan's step fails exactly when its placeholder key is taken, with DUPLICATE_ENTITY |
| TreeGraph.AddOrphanParentResult | snutree/tree.py:443-451 | a successful step adds the placeholder node last and the edge placeholder→orphan with the unknown-edge attributes, and points the orphan at the placeholder; nothing else changes |
| TreeGraph.AddOrphanParentWellFormed | snutree/tree.py:450-451 | a successful step keeps the invariant |
| TreeGraph.AddOrphanParentKeeps | snutree/tree.py:443-451 | members stay members and other keys stay as they were |
| TreeGraph.AddOrphansSucceedsIff | snutree/tree.py:443-451 | all orphans' steps succeed exactly when no placeholder key is taken; a failure names the one that is |
| TreeGraph.AddOrphansWellFormed | snutree/tree.py:443-451 | the steps keep the invariant and add no member |
| TreeGraph.AddOrphansEdges | snutree/tree.py:451 | each orphan gets one edge from its own placeholder carrying the unknown-edge attributes |
| TreeGraph.AddOrphansNodes | snutree/tree.py:445-450 | each orphan points at its own placeholder node, one semester earlier or unset |
| TreeGraph.AddOrphansUntouched | snutree/tree.py:443-451 | nodes other than the orphans and their placeholders keep their data |
| TreeGraph.AddOrphanParentsSpec | snutree/tree.py:426-451 | `add_orphan_parents` succeeds exactly when no placeholder key is taken; afterwards no member has in-degree 0 |
| TreeGraph.AddMembersHolds | snutree/tree.py:232 | adding the members to the empty tree gives a tree satisfying the invariant whose keys start with the members' keys, each member stored under its key |
| TreeGraph.AddCustomKeepsMembers | snutree/tree.py:233 | adding the custom nodes afterwards keeps the invariant and the members' keys and nodes in place |
| TreeGraph.AddEdgesKeepMembers | snutree/tree.py:236-237 | adding the relationships and the custom edges keeps the invariant and the members' keys and nodes in place |
| TreeGraph.AssembleSpec | snutree/tree.py:232-238 | assembling gives a tree satisfying the invariant that holds the members in their given order |
| TreeGraph.AddColorsColorsAll | snutree/tree.py:487-493 | after `add_colors` every member wears its family's colour |
| TreeGraph.AddOrphanParentsKeepColors | snutree/tree.py:443-451 | placeholder parents leave the members' colours unchanged |
| TreeGraph.NotOrphanNotSingleton | snutree/tree.py:292-294 | a member with a parent edge is not a singleton |
| TreeGraph.DecorateSpec | snutree/tree.py:240-265 | the decorations keep the invariant; with placeholder parents on no member is an orphan or alone; with pruning on none is alone; with family colours on every member wears its family's colour |
| FamilyTrees.FamilyTree.constructor | snutree/tree.py:229 | a new tree is empty and satisfies the invariant |
| FamilyTrees.FamilyTree.AddEntity | snutree/tree.py:296-306 | the method leaves the graph `TreeGraph.AddEntityTo` describes, and leaves the tree unchanged on DUPLICATE_ENTITY |
| FamilyTrees.FamilyTree.AddMembers | snutree/tree.py:338-345 | the loop leaves the graph `TreeGraph.AddEntities` describes, or raises its error |
| FamilyTrees.FamilyTree.AddCustomNodes | snutree/tree.py:347-355 | each settings entry is added as `Custom(key, **value)`, as `TreeGraph.AddEntities` on `CustomEntities` describes |
| FamilyTrees.FamilyTree.AddBigRelationship | snutree/tree.py:308-332 | the method leaves the graph or error `TreeGraph.AddBigRelationshipTo` describes |
| FamilyTrees.FamilyTree.AddMemberRelationships | snutree/tree.py:357-367 | the loop over a snapshot of the keys leaves the graph or error `TreeGraph.AddRelationships` describes |
| FamilyTrees.FamilyTree.AddCustomPath | snutree/tree.py:376-390 | one path: all keys checked first, then the pairs added, as `TreeGraph.AddPathTo` describes |
| FamilyTrees.FamilyTree.AddCustomEdges | snutree/tree.py:369-390 | the paths in order, as `TreeGraph.AddPaths` describes |
| FamilyTrees.FamilyTree.RemoveSingletonMembers | snutree/tree.py:392-406 | the singletons are listed, then removed, leaving `TreeGraph.RemoveSingletonsFrom` of the old graph |
| FamilyTrees.FamilyTree.MarkFamilies | snutree/tree.py:408-424 | every member's node points at its family, leaving `TreeGraph.MarkFamiliesIn` of the old graph |
| FamilyTrees.MarkLoop | snutree/tree.py:421-424 | the loop leaves every key of the graph, each member's node pointing at its family and every other node unchanged |
| FamilyTrees.AllMarked | snutree/tree.py:421-424 | a node map in which every node is marked is that of the marked graph |
| FamilyTrees.FamilyTree.AddColors | snutree/tree.py:457-493 | the two loops leave the graph or error `TreeGraph.AddColorsTo` describes |
| FamilyTrees.FamilyTree.OrphanKeys | snutree/tree.py:288-294 | the orphans are the members of in-degree 0, in key order |
| FamilyTrees.FamilyTree.AddOrphanParentOf | snutree/tree.py:445-451 | one orphan's step leaves the graph or error `TreeGraph.AddOrphanParent` describes |
| FamilyTrees.FamilyTree.AddOrphanParents | snutree/tree.py:426-451 | the orphans are listed first, then each gets its placeholder, as `TreeGraph.AddOrphanParentsTo` describes |
| FamilyTrees.FamilyTree.AssembleSteps | snutree/tree.py:232-238 | members, custom nodes, member edges and custom edges, as `TreeGraph.Assemble` describes |
| FamilyTrees.FamilyTree.DecorateSteps | snutree/tree.py:240-244 | pruning, families, colours and placeholder parents under their flags, as `TreeGraph.Decorate` describes |
| FamilyTrees.FamilyTree.Build | snutree/tree.py:226-244 | the whole construction pipeline leaves the graph or error `TreeGraph.BuildTree` describes |
| FamilyTrees.FamilyTree.KeysAreNodes | snutree/tree.py:276 | every listed key of a valid tree names one of its nodes |
| FamilyTrees.FamilyTree.SemesterBounds | snutree/tree.py:522-534 | the loop computes `TreeOutput.Bounds`: the least and greatest semester, or the getter's error for an undated node |
| FamilyTrees.BoundsLoop | snutree/tree.py:527-534 | the loop over the keys leaves exactly `TreeOutput.Bounds`: the least and greatest semester, or the getter's error for the first undated node |
| FamilyTrees.DateColumnLoop | snutree/tree.py:548-559 | the loop builds `TreeOutput.DateColumn`: a node and an edge per semester up to the maximum, then the node it stops at |
| FamilyTrees.FamilyTree.CreateDateSubgraph | snutree/tree.py:536-563 | the defaults then the column, as `TreeOutput.DateSubgraph` describes |
| FamilyTrees.RanksLoop | snutree/tree.py:592-600 | the loop over the node keys computes `TreeOutput.Ranks`: each key joins its semester's rank, a new rank starting with the two date keys; an undated node ends it with the getter's error |
| FamilyTrees.FamilyTree.CreateRanks | snutree/tree.py:587-602 | the method gives `TreeOutput.CreateRanks` of the tree: one rank per semester, in the order the semesters first occur |
| Ordering.RootOfIsLeast | snutree/tree.py:636 | `min(component, key=str)` is in the component and sorts no later than any of its keys |
| Ordering.Roots | snutree/tree.py:635-636 | the components sorted by least key, named by their least keys, in strictly increasing order |
| Ordering.RootComponent | snutree/tree.py:635-636 | a key lies in a root's component exactly when that root is its least key |
| Ordering.RootOfRoot | snutree/tree.py:636 | the least key of a component is its own least key |
| Ordering.SameRootIffConnected | snutree/tree.py:635-636 | two keys have the same least key exactly when a walk joins them |
| Ordering.RootOfInRoots | snutree/tree.py:635-636 | every key's least key is one of the sorted roots |
| Ordering.RootIsRoot | snutree/tree.py:635-636 | every root is a key that is its own least key |
| Ordering.Shuffled | snutree/tree.py:637-638 | the shuffle, given the permutation the generator picks, keeps the length |
| Ordering.ShuffledFacts | snutree/tree.py:637-638 | the shuffle keeps exactly the same distinct components |
| Ordering.MembersAreComponent | snutree/tree.py:640-641 | the keys whose least key is r form r's component |
| Ordering.ShuffledRoots | snutree/tree.py:636-638 | the shuffled roots are distinct and are exactly the roots |
| Ordering.MembersBlock | snutree/tree.py:641 | a component's block lists its keys once each, in str order |
| Ordering.BlocksMembers | snutree/tree.py:640-641 | the blocks together list exactly the keys of the listed components, once each |
| Ordering.BlocksOrder | snutree/tree.py:640-641 | keys are printed component by component in the given order, and in str order within one |
| Ordering.NodeOrderByRootMap | snutree/tree.py:640-641 | printing order by the component map is printing order by least key |
| Ordering.ShuffledRootsCover | snutree/tree.py:636-641 | every key's component is among the shuffled components |
| Ordering.OrderedKeysMembers | snutree/tree.py:608-642 | `ordered_nodes` prints exactly the keys, each once |
| Ordering.OrderedKeysSpec | snutree/tree.py:608-642 | every key is printed once; each component's keys are printed together in str order; components appear in the shuffled order of the components sorted by least key |
| Ordering.EdgeBlockSpec | snutree/tree.py:654-658 | the edges leaving one parent are listed once each, by child key |
| Ordering.SortedConcat | snutree/tree.py:654-658 | sorted runs whose elements are all ordered across them concatenate to a sorted list |
| Ordering.EdgesFromSpec | snutree/tree.py:654-658 | the edges of parents in increasing order are listed once each, sorted by (parent, child) |
| Ordering.EdgeLessIrreflexive | snutree/tree.py:654-656 | no edge sorts before itself |
| Ordering.OrderedEdgeKeysSpec | snutree/tree.py:644-658 | `ordered_edges` prints every edge exactly once, sorted by (parent, child) |
| TreeOutput.WithData | snutree/tree.py:642 | each printed key is paired with its own node data |
| TreeOutput.OrderedKeysAreNodes | snutree/tree.py:640-642 | every key `ordered_nodes` prints names a node |
| TreeOutput.OrderedNodesKeys | snutree/tree.py:640-642 | the keys printed are `Ordering.OrderedKeys`, each with its own data |
| TreeOutput.WithDataKeys | snutree/tree.py:640-642 | pairing keys with their node data keeps the keys in order and gives each its own data |
| TreeOutput.OrderedNodesSpec | snutree/tree.py:608-642 | every node is printed exactly once with its own data, components together in key order, in shuffled component order |
| TreeOutput.OrderedEdgesPairs | snutree/tree.py:652-658 | the pairs printed are `Ordering.OrderedEdgeKeys`, each with its own attributes |
| TreeOutput.OrderedEdgesSpec | snutree/tree.py:644-658 | every edge is printed once with its attributes, sorted by (parent, child); the attribute tie-break never decides |
| TreeOutput.AllDatedSnoc | snutree/tree.py:528-529 | a list with one more key is dated exactly when the list and that key are |
| TreeOutput.SomeSnoc | snutree/tree.py:528-529 | an error or semester of some key stays one after a key is appended |
| TreeOutput.BoundsSpec | snutree/tree.py:522-534 | the bounds exist exactly when every node is dated, else the getter's error for a key; they are the least and greatest semesters, each held by a key, and there are none exactly for an empty tree |
| TreeOutput.BoundsErrPersists | snutree/tree.py:528-529 | once reading a prefix fails the whole pass fails with that error |
| TreeOutput.DateColumnGrows | snutree/tree.py:551-556 | each turn of the loop appends the node of the next semester and the edge from its key to the following one |
| TreeOutput.DateColumnNodes | snutree/tree.py:548-561 | between bounds lo ≤ hi there are hi−lo+2 nodes, the j-th for semester lo+j labelled by it, then the edges |
| TreeOutput.DateColumnEdges | snutree/tree.py:548-561 | after the hi−lo+2 nodes the column holds exactly the hi−lo+1 date edges, the first leaving semester lo |
| TreeOutput.DateNodeInColumn | snutree/tree.py:551-559 | every semester from lo to hi has its date node in the column |
| TreeOutput.AddToRank | snutree/tree.py:595-600 | a step appends the key to its semester's rank or starts the rank, keeping each semester listed once |
| TreeOutput.Ranks | snutree/tree.py:592-600 | the loop's dict lists each semester once |
| TreeOutput.RanksErrPersists | snutree/tree.py:594 | once the loop fails on a prefix, it fails on the whole with that error |
| TreeOutput.RankItems | snutree/tree.py:602 | `list(ranks.values())`: one rank per semester, in insertion order |
| TreeOutput.SnocUnfold | snutree/tree.py:593-600 | how the semester order and each semester's keys grow by one key |
| TreeOutput.RankOrderDistinct | snutree/tree.py:595-600 | no semester gets two ranks |
| TreeOutput.RankOrderHas | snutree/tree.py:595-600 | a semester gets a rank exactly when some node has it |
| TreeOutput.KeysInMembers | snutree/tree.py:595-600 | a semester's keys are exactly the nodes of that semester |
| TreeOutput.RanksOk | snutree/tree.py:593-594 | the loop fails exactly when some node is undated, with that node's error |
| TreeOutput.RanksOrder | snutree/tree.py:595-600 | the semesters are listed in the order they first occur |
| TreeOutput.AddToRankContents | snutree/tree.py:595-600 | one iteration keeps a semester's rank equal to its date keys followed by that semester's keys so far, extended by the new key exactly when it has that semester |
| TreeOutput.RanksContents | snutree/tree.py:595-600 | each rank is its two date keys, then that semester's keys in node order |
| TreeOutput.CreateRanksSpec | snutree/tree.py:587-602 | `create_ranks` succeeds exactly when every node is dated; it then gives one rank per semester in first-occurrence order, holding "<s>L", "<s>R" and that semester's nodes in order |
| TreeOutput.ToDotGraphOk | snutree/tree.py:495-520 | without the `semesters` flag the output never fails; with it, it fails exactly when a node is undated, with that node's error |
| TreeOutput.RanksAnchored | snutree/tree.py:510-600 | in a dated non-empty tree every rank starts with the two date keys of a semester both date columns hold |
| Dot.Indent | snutree/dot.py:4-7 | `indent(n)` is exactly 4·n spaces |
| Dot.BracketedIffAngleDelimited | snutree/dot.py:20 | the stride test `value[0::len(value)-1] == '<>'` holds exactly for strings of length ≥ 2 that start with "<" and end with ">" |
| Dot.FormatAttr | snutree/dot.py:20-22 | one `key="value"` entry, unquoted for a bracketed string, is never empty |
| Dot.AttrEntries | snutree/dot.py:17-22 | one non-empty entry per key, in sorted key order |
| Dot.DictToAttr | snutree/dot.py:9-24 | the result is empty exactly for an empty dictionary |
| Dot.DictToAttrSingle | snutree/dot.py:17-24 | a one-entry dictionary renders as that entry alone, with no separator |
| Dot.MakeGraph | snutree/dot.py:38-49 | a graph is built exactly when its type is graph, digraph or subgraph; otherwise ValueError |
| Dot.MakeDefaults | snutree/dot.py:77-86 | a defaults statement is built exactly for node or edge; otherwise ValueError |
| Dot.AttrSuffix | snutree/dot.py:98-117 | " [attrs]" when there are attributes, nothing otherwise |
| Dot.ToDot | snutree/dot.py:51-132 | every rendering starts with its indentation |
| Dot.DefaultsToDot | snutree/dot.py:88-92 | a defaults statement starts with its indentation |
| Dot.NodeToDot | snutree/dot.py:96-104 | a node statement starts with its indentation |
| Dot.EdgeToDot | snutree/dot.py:113-121 | an edge statement starts with its indentation |
| Dot.RankToDot | snutree/dot.py:128-132 | a rank statement starts with its indentation |
| Dot.GraphText | snutree/dot.py:51-73 | a graph is its header line, an attribute line only when it has attributes, each child one level deeper, then the closing brace at its own level, joined by newlines |
| Dot.NodeText | snutree/dot.py:96-104 | a node is `"key" [attrs];`, or `"key";` with no attributes |
| Dot.EdgeTextBare | snutree/dot.py:113-121 | an edge without attributes is `"p" -> "c";` |
| Dot.EdgeText | snutree/dot.py:113-121 | an edge with attributes is `"p" -> "c" [attrs];` |
| Dot.DefaultsText | snutree/dot.py:88-92 | defaults keep their brackets: an empty dictionary gives `node [];` |
| Dot.RankIgnoresKeyOrder | snutree/dot.py:128-132 | a rank's text depends only on its keys as a multiset, since they are sorted first |
| LegacyDot.Entries | family_tree/dot.py:16-26 | one entry per key, in the given order |
| LegacyDot.ListKeys | family_tree/dot.py:16 | the loop lists each key of the dictionary exactly once |
| LegacyDot.SortedKeys | family_tree/dot.py:16 | sorting the listed keys gives the sorted key set, whatever order they were listed in |
| LegacyDot.FormatEntries | family_tree/dot.py:16-26 | the loop appends exactly the entries of the keys, in order |
| LegacyDot.FormatAttributes | family_tree/dot.py:7-28 | the formatter returns the sorted entries joined by `sep` |
| LegacyDot.SameAsSnutree | family_tree/dot.py:7-28 | the older formatter writes every dictionary exactly as `dict_to_attr` of snutree/dot.py does |
| LegacyDot.EmptyIffNoAttributes | family_tree/dot.py:7-28 | the result is empty exactly for an empty dictionary |
| LegacyDot.MakeGraph | family_tree/dot.py:42-56 | a graph is built exactly when its type is graph, digraph or subgraph; otherwise ValueError |
| LegacyDot.Optional | family_tree/dot.py:62-67 | an optional line is written exactly when its condition holds |
| LegacyDot.SettingLinesCount | family_tree/dot.py:62-67 | one attribute, node-defaults or edge-defaults line for each non-empty dictionary |
| LegacyDot.GraphText | family_tree/dot.py:58-72 | a graph is the header, its setting lines, its children in order, then "}", with no indentation at any depth |
| LegacyDot.NodeText | family_tree/dot.py:74-83 | a node is `"key";` or `"key" [attrs];`, the text snutree/dot.py writes at the outer level |
| LegacyDot.EdgeText | family_tree/dot.py:92-99 | an edge is `"p" -> "c";` or `"p" -> "c" [attrs];`, as snutree/dot.py writes at the outer level |
| LegacyDot.RankText | family_tree/dot.py:106-109 | a rank's keys are sorted, so its text does not depend on their order |
| DotWriter.Label | snutree/writers/dot.py:167 | a member's `label` is the label its own DOT attributes carry, from `get_dot_label()`; a custom entity's is taken to be its key |
| DotWriter.BaseAttributesSpec | snutree/writers/dot.py:165-169 | after the reset each node's attributes are exactly its label and each edge has none; keys, entities, families and edges are kept and the tree stays well formed |
| DotWriter.RelabelNodes | snutree/writers/dot.py:166-167 | visiting the keys in order leaves every node carrying only its label, with no node added or lost |
| DotWriter.SetBaseAttributes | snutree/writers/dot.py:165-169 | the two loops leave the tree in exactly the reset state |
| DotWriter.AddCustomNodes | snutree/writers/dot.py:182-190 | the tree gains one custom entity per configured node, with its rank and attributes, or the tree's error is raised |
| DotWriter.AddCustomEdges | snutree/writers/dot.py:192-214 | each path's keys are checked before its consecutive pairs are added; a missing key raises the writer error naming the path |
| DotWriter.FindMissing | snutree/writers/dot.py:205-207 | the inner loop stops at the first key of the path that is not on the tree, or finds none |
| DotWriter.WarnedSpec | snutree/writers/dot.py:221-228 | a dropped key is reported exactly when `warn_rank` is set and is at most its rank |
| DotWriter.SingletonWarnings | snutree/writers/dot.py:216-229 | the reported keys are exactly the singletons whose rank reaches `warn_rank`, all of them are removed, and an unranked singleton compares as rank 0 |
| DotWriter.SingletonKeys | snutree/writers/dot.py:222 | the pass over the node keys yields `TreeGraph.Singletons`: the member keys without edges, in node order |
| DotWriter.CollectSingletons | snutree/writers/dot.py:221-228 | the loop collects every singleton key for removal and reports exactly those the `Warned` definition picks, in order |
| DotWriter.RemoveSingletonMembers | snutree/writers/dot.py:216-229 | the tree loses exactly its singleton members and the reported keys are the ones the warnings name |
| DotWriter.ColorFamilyNodes | snutree/writers/dot.py:259-265 | the sorted-key colouring loop keeps the picker's palette size |
| DotWriter.ColorFamilyNodesAgrees | snutree/writers/dot.py:259-265 | where exactly the members have families, the writer's loop colours nodes as the tree's own second pass does |
| DotWriter.AddFamilyColorsAgrees | snutree/writers/dot.py:231-265 | where exactly the members have families, the writer's colouring equals the tree's `add_colors` |
| DotWriter.AddFamilyColorsSpec | snutree/writers/dot.py:231-265 | the colouring fails exactly when a given colour cannot be applied and then names a key of the colour map; otherwise every member wears its family's colour, the given colours are kept, and nodes without a family are untouched |
| DotWriter.AddColors | snutree/writers/dot.py:231-265 | the method leaves the tree as the colouring function says, or raises its error |
| DotWriter.UnidentifiedMemberSpec | snutree/writers/dot.py:280-294 | the placeholder is keyed "<key> Parent" and ranked one before the member, or unranked when the member's rank cannot be read |
| DotWriter.AddPlaceholderParent | snutree/writers/dot.py:274-278 | one loop step adds the orphan's placeholder parent and the edge to it, as the tree-level function does |
| DotWriter.AddOrphanParents | snutree/writers/dot.py:267-278 | every orphan listed before the loop gets a placeholder parent, or the tree's error is raised |
| DotWriter.Decorate | snutree/writers/dot.py:159-180 | the method leaves the tree as `DecorateTree` says: reset, then each flagged pass in order |
| DotWriter.AddCustomsKeepFamilies | snutree/writers/dot.py:182-190 | custom nodes arrive without a family, so only members keep families |
| DotWriter.CustomStepsSpec | snutree/writers/dot.py:176-177 | with both flags off the custom passes change nothing; when they succeed the tree stays well formed with families only on members |
| DotWriter.DisplayStepsSpec | snutree/writers/dot.py:178-180 | singleton removal cannot fail; after the display passes no member is an orphan (unknowns on), none is alone (no_singletons or unknowns on) and every member wears its family's colour (colors on) |
| DotWriter.DecorateTreeSpec | snutree/writers/dot.py:159-180 | decorating a well-formed tree keeps it well formed with the display guarantees, and cannot fail when custom nodes, custom edges, colours and unknowns are off |
| DotWriterOutput.DateColumnLoop | snutree/writers/dot.py:362-371 | the loop builds exactly the date column: a node per rank while below the bound, the stopping rank's node, and an edge between neighbours |
| DotWriterOutput.CreateDateSubgraph | snutree/writers/dot.py:351-375 | the subgraph is `dates<suffix>` holding the defaults, then the date nodes, then the date edges |
| DotWriterOutput.DateColumnSpec | snutree/writers/dot.py:362-371 | between lo and hi the column holds the hi-lo+1 nodes of ranks lo..hi, labelled by rank, then the hi-lo edges from each rank to the next |
| DotWriterOutput.WidenedColumn | snutree/writers/dot.py:319-324 | widening the upper bound by one gives the same column as the inclusive loop of snutree/tree.py |
| DotWriterOutput.Slot | snutree/writers/dot.py:390 | Python's `ranks[i]` reaches a slot exactly for -n <= i < n, counting negative indices from the end |
| DotWriterOutput.RankHeadsGrow | snutree/writers/dot.py:383-387 | each pass of the first loop adds the group of the next rank's two date keys |
| DotWriterOutput.AppendedSpec | snutree/writers/dot.py:389-390 | when every rank lies in [lo, lo+n) the pass succeeds and group j gets exactly the keys of rank lo+j, in order |
| DotWriterOutput.AppendedOkOnlyInRange | snutree/writers/dot.py:389-390 | when the pass succeeds every rank could be read and lies within n of lo on either side |
| DotWriterOutput.AppendedErrPersists | snutree/writers/dot.py:389-390 | once a key's rank fails, the whole pass fails with that error |
| DotWriterOutput.RankHeadsLoop | snutree/writers/dot.py:383-387 | the first loop makes one group per rank from lo while below hi |
| DotWriterOutput.AppendedStep | snutree/writers/dot.py:389-390 | the pass over one more key continues the pass over the previous keys |
| DotWriterOutput.ExtendStep | snutree/writers/dot.py:390 | appending a key to a group keeps the groups in step with what was appended |
| DotWriterOutput.AppendKeys | snutree/writers/dot.py:389-390 | the second loop fails exactly as the specifying pass does, and otherwise gives each group followed by its appended keys |
| DotWriterOutput.CreateRanks | snutree/writers/dot.py:377-392 | the rank groups are each rank's date keys then that rank's keys, or the error of the first key without a readable rank or a slot |
| DotWriterOutput.DotGraphOk | snutree/writers/dot.py:302-328 | without ranks the graph is always made; with ranks exactly when every node's rank can be read |
| DotWriterOutput.AppendedByRank | snutree/writers/dot.py:389-390 | with every rank in range the pass appends to each group the keys of its rank |
| DotWriterOutput.WidenedSubgraph | snutree/writers/dot.py:319-324 | the widened date subgraph equals the one snutree/tree.py draws for the same bounds |
| DotWriterOutput.BoundsSpan | snutree/writers/dot.py:319-320 | the rank bounds read from the tree cover every rank: the widened range from lo holds hi - lo + 1 ranks |
| DotWriterOutput.DotGraphRanks | snutree/writers/dot.py:316-326 | with ranks on and readable ranks between lo and hi, the graph is the defaults, a date column, the members, the other column and one group per rank lo..hi holding its date keys and all keys of that rank |
| Affiliations.UpperChar | snutree/member/sigmanu.py:460 | `upper()` leaves no small letter, changes only small letters, and keeps Greek letters Greek and Latin letters Latin |
| Affiliations.Upper | snutree/member/sigmanu.py:460 | the upper-cased string has the same length, character by character |
| Affiliations.Title | snutree/member/sigmanu.py:449 | title case keeps the length and every character that is not a letter |
| Affiliations.EnglishTable | snutree/member/sigmanu.py:306-333 | the English letter names are words and each maps to a Greek capital or "(A)"/"(B)" |
| Affiliations.LatinTable | snutree/member/sigmanu.py:337-355 | each Latin look-alike maps to a Greek capital, and "(A)", "(B)" map to themselves |
| Affiliations.CanonOfCanonical | snutree/member/sigmanu.py:337-355 | the Latin table changes no canonical token: a Greek capital, "(A)" or "(B)" |
| Affiliations.LookalikesInTable | snutree/member/sigmanu.py:337-355 | every Latin look-alike has an entry |
| Affiliations.Tokenize | snutree/member/sigmanu.py:361-381 | a found tokenization splits the string into designation tokens |
| Affiliations.TokenizeComplete | snutree/member/sigmanu.py:361-381 | a split into tokens is unique, so whenever one exists the tokenizer finds it |
| Affiliations.FindAll | snutree/member/sigmanu.py:460 | `findall` returns only designation tokens |
| Affiliations.FindAllOfTokens | snutree/member/sigmanu.py:457-460 | on a string that splits into tokens, `findall` returns exactly that split |
| Affiliations.FindAllTrailingNewline | snutree/member/sigmanu.py:381 | the newline `$` lets through is skipped by `findall` |
| Affiliations.FindAllOfUpper | snutree/member/sigmanu.py:460-463 | after `upper()` the tokens found become Greek capitals and "(A)"/"(B)" |
| Affiliations.EnglishLetters | snutree/member/sigmanu.py:452-453 | the list of Greek letters is as long as the words exactly when every word names a letter, and then is their letters in order |
| Affiliations.WordsOfTwo | snutree/member/sigmanu.py:449 | `split()` cuts two words joined by any one whitespace character into those two words |
| Affiliations.TakeWordThen | snutree/member/sigmanu.py:449 | the first word of a string runs up to the first whitespace character |
| Affiliations.UnitSeparatorSplitsWords | snutree/member/sigmanu.py:449 | `split()` also cuts at U+001F: "Delta\x1fAlpha" is the two words "Delta" and "Alpha" |
| Affiliations.AllEnglishLetters | snutree/member/sigmanu.py:449-453 | the English branch is taken exactly when every title-cased word names a letter |
| Affiliations.StrToDesignation | snutree/member/sigmanu.py:441-474 | a designation is produced exactly when the string is a full English chapter name or matches the token pattern; otherwise ValueError |
| Affiliations.ConcatCanonical | snutree/member/sigmanu.py:454-465 | concatenated canonical tokens form a canonical designation that splits back into them |
| Affiliations.EnglishName | snutree/member/sigmanu.py:452-454 | an English chapter name gives the concatenation of its letters' Greek capitals |
| Affiliations.DesignationIsCanonical | snutree/member/sigmanu.py:441-474 | whichever form the input takes, the designation is made of Greek capitals and "(A)", "(B)" |
| Affiliations.CanonicalFixed | snutree/member/sigmanu.py:441-474 | a canonical designation is its own designation |
| Affiliations.DesignationIdempotent | snutree/member/sigmanu.py:441-474 | normalising a designation twice gives the same result as once |
| Affiliations.SpaceEnd | snutree/member/sigmanu.py:358 | the `\s+` run starting at a position ends at the first character that is not whitespace |
| Affiliations.LastSplit | snutree/member/sigmanu.py:358 | the greedy `.*` ends the chapter at the last position followed by whitespace and a digit |
| Affiliations.MatchAffiliation | snutree/member/sigmanu.py:358 | the pattern matches exactly when some split point exists, and splits at the last one |
| Affiliations.LastSplitIsLast | snutree/member/sigmanu.py:358 | the split found by backtracking from the end is the last one in the string, and at least one digit follows its whitespace |
| Affiliations.NoSplit | snutree/member/sigmanu.py:358 | when backtracking finds no split, no position splits |
| Affiliations.Construct | snutree/member/sigmanu.py:383-418 | a pair is kept as given, other arguments raise TypeError, an unmatched string raises ValueError, and a parsed affiliation has a canonical designation and a badge that is not negative |
| Affiliations.ConstructMatched | snutree/member/sigmanu.py:399-408 | a string that splits into a chapter and digits builds an affiliation exactly when the chapter normalises, and then it holds that designation and the digits' value |
| Affiliations.BadgeDropsLeadingZeros | snutree/member/sigmanu.py:408 | the parsed badge prints as its digits without leading zeros |
| Affiliations.MatchPrinted | snutree/member/sigmanu.py:358 | a designation, one whitespace character of any kind `\s` matches, and digits split into exactly that designation and those digits |
| Affiliations.UnitSeparatorSplitsBadge | snutree/member/sigmanu.py:358 | the separator U+001F counts as `\s`: "ΔΑ\x1f5" splits into chapter "ΔΑ" and badge "5" |
| Affiliations.PrintParse | snutree/member/sigmanu.py:383-418 | parsing the printed form of an affiliation with a canonical designation and a badge that is not negative gives it back |
| Affiliations.SetPrimaryChapter | snutree/member/sigmanu.py:434-439 | the primary chapter is stored normalised, so it is canonical |
| Affiliations.DefaultPrimary | snutree/member/sigmanu.py:506 | the primary chapter set at load time from "ΔA" is Delta followed by a Greek capital Alpha |
| Affiliations.WithPrimary | snutree/member/sigmanu.py:420-425 | the affiliation to the primary chapter is the pair form with that badge |
| Affiliations.PrimaryFirst | snutree/member/sigmanu.py:482-491 | an affiliation to the primary chapter sorts before any other chapter's |
| Affiliations.LessIrreflexive | snutree/member/sigmanu.py:482-491 | no affiliation sorts before itself |
| Affiliations.LessTransitive | snutree/member/sigmanu.py:482-491 | the order is transitive |
| Affiliations.LessTotal | snutree/member/sigmanu.py:482-495 | any two different affiliations are ordered one way or the other |
| Affiliations.LessAsymmetric | snutree/member/sigmanu.py:482-491 | the order is asymmetric |
| SigmaNuMembers.StatusTable | snutree/member/sigmanu.py:500-503 | a status is in the table exactly when some type allows it, and it maps to a type that allows it |
| SigmaNuMembers.StatusTableUnique | snutree/member/sigmanu.py:500-503 | a status that only one of the types allows is sent to that type |
| SigmaNuMembers.MemberTypesTable | snutree/member/sigmanu.py:500-503 | each status maps to exactly the one type whose `allowed` holds it |
| SigmaNuMembers.CheckText | snutree/member/sigmanu.py:65-68 | a text field passes exactly when it is non-empty if present and present if required, and passes unchanged |
| SigmaNuMembers.CheckBadge | snutree/member/sigmanu.py:64 | a passing badge is present and a non-empty run of digits |
| SigmaNuMembers.ParseAll | snutree/member/sigmanu.py:12 | a list comprehension over a parser succeeds exactly when every piece parses, giving one value per piece in order |
| SigmaNuMembers.AffiliationsOf | snutree/member/sigmanu.py:12 | the list is built exactly when every comma-separated piece parses, one affiliation per piece in order |
| SigmaNuMembers.CheckAffiliations | snutree/member/sigmanu.py:12 | a missing field passes as none; a present one gives at least one affiliation |
| SigmaNuMembers.CheckNoAffiliations | snutree/member/sigmanu.py:131 | `IsFalse` lets the field through exactly when it is absent or empty, and records whether it was given |
| SigmaNuMembers.CheckSchema | snutree/member/sigmanu.py:62-71 | a row passes only with no key outside the type's schema and with each type's required fields present |
| SigmaNuMembers.Build | snutree/member/sigmanu.py:73-88 | a constructor never raises a status or duplicate error, and a Brother or Candidate given an `affiliations` keyword raises |
| SigmaNuMembers.FromDict | snutree/member/sigmanu.py:41-52 | a missing or unknown status is refused, and a built member's row has only its schema's keys |
| SigmaNuMembers.FromDictType | snutree/member/sigmanu.py:41-52 | the member built is of the type the status names |
| SigmaNuMembers.KnightHasPrimary | snutree/member/sigmanu.py:84-88 | a Knight's key is its badge and it is affiliated with the primary chapter under that badge |
| SigmaNuMembers.CounterKeys | snutree/member/sigmanu.py:150-152 | a Brother's key is "Brother <n>" and a Candidate's "Candidate <n>" from the current counters |
| SigmaNuMembers.EmptyAffiliationsRefused | snutree/member/sigmanu.py:124-143 | a Brother or Candidate row with an `affiliations` field, even an empty one, is refused |
| SigmaNuMembers.AddUnique | snutree/member/sigmanu.py:27-31 | the check passes only when none of the member's affiliations is used, and then adds them all |
| SigmaNuMembers.AddAffiliations | snutree/member/sigmanu.py:27-31 | the loop succeeds exactly when the check does, and then has added every affiliation; on failure only some were added |
| SigmaNuMembers.AddSet | snutree/member/sigmanu.py:102-106 | over a set, the loop succeeds exactly when none is already used, and then has added them all |
| SigmaNuMembers.AddList | snutree/member/sigmanu.py:27-31 | over a list, the loop succeeds exactly when the list has no repeat and none is already used |
| SigmaNuMembers.UnsharedCons | snutree/member/sigmanu.py:20-33 | a member that passes the check followed by members that share nothing with the enlarged set share nothing |
| SigmaNuMembers.ValidateUnique | snutree/member/sigmanu.py:14-33 | whatever builds the members, two members yielded by `validate` never share an affiliation, nor reuse one used before |
| SigmaNuMembers.ValidateYieldsAll | snutree/member/sigmanu.py:14-33 | when `validate` runs to the end it yields one member per row that is not a "Reaffiliate" |
| SigmaNuMembers.MemberClasses.FromDictOf | snutree/member/sigmanu.py:41-52 | the member is the one `FromDict` builds from the current counters, and only the built type's counter advances |
| SigmaNuMembers.MemberClasses.KnightFromDict | snutree/member/sigmanu.py:94-108 | after `from_dict`, a member whose affiliations meet a used one is refused, and the class-wide set grows by what the loop added |
| SigmaNuMembers.MemberClasses.Validate | snutree/member/sigmanu.py:14-33 | the method yields the members and the error `ValidateRun` gives with `from_dict` as the builder, and leaves the counters where that run leaves them |
| SigmaNuMembers.ValidateLoop | snutree/member/sigmanu.py:19-33 | the loop skips "Reaffiliate" rows, stops at the first failed build or reused affiliation, and yields exactly the members, error and counters of `ValidateRun` |
| SigmaNuMembers.InsertSorted | snutree/member/sigmanu.py:111 | inserting a new affiliation keeps the list strictly sorted |
| SigmaNuMembers.SortedAffiliations | snutree/member/sigmanu.py:111 | `sorted` gives the set's elements in strictly increasing order |
| SigmaNuMembers.PrimaryLeads | snutree/member/sigmanu.py:111 | a set holding a primary-chapter affiliation sorts one of those first |
| SigmaNuMembers.KnightLabelLeads | snutree/member/sigmanu.py:110-112 | a Knight's label starts with its name, `\n` and the primary chapter |
| SigmaNuMembers.LabelLeads | snutree/member/sigmanu.py:110-112 | a Knight with a primary-chapter affiliation has a label that starts with its name, `\n` and that chapter |
| SigmaNuMembers.KindLabels | snutree/member/sigmanu.py:154-157 | a Brother's label is its name, `\n`, the primary chapter and "Brother"; a Candidate's ends with "Candidate" |
| SigmaNuMembers.MemberClasses.constructor | snutree/member/sigmanu.py:92-176 | the class counters start at 0 and no affiliation is used yet |
| SigmaNuSchema.MappingHasNoSpaces | snutree/schemas/sigmanu.py:8-35 | no English name and no letter in the mapping holds a space |
| SigmaNuSchema.GreekWords | snutree/schemas/sigmanu.py:39-43 | the words map exactly when every one is in the table; the result has no space; otherwise ValueError |
| SigmaNuSchema.ToGreekName | snutree/schemas/sigmanu.py:37-43 | a name converts exactly when every single-space-separated word is in the table |
| SigmaNuSchema.ToGreekNameOfWords | snutree/schemas/sigmanu.py:37-43 | table words joined by single spaces always convert, to their letters one after the other |
| SigmaNuSchema.EmptyWordRefused | snutree/schemas/sigmanu.py:37-43 | a doubled, leading or trailing space leaves an empty word, so the name is refused with ValueError |
| SigmaNuSchema.CoerceAffiliation | snutree/schemas/sigmanu.py:45-47 | a missing chapter name raises KeyError first; the text is made exactly when both fields are present and the name converts |
| SigmaNuSchema.CoercedParts | snutree/schemas/sigmanu.py:45-47 | the coerced text splits at its first space into the Greek designation and the other badge |
| SigmaNuSchema.NewKnight | snutree/schemas/sigmanu.py:78-100 | a Knight is keyed by its badge, keeps its parent and semester, and keeps no affiliation whatever it is given |
| SigmaNuSchema.NewExpelled | snutree/schemas/sigmanu.py:211-226 | an Expelled member is keyed by its badge and keeps exactly the affiliations it is given, or none |
| SigmaNuSchema.MemberCounters.NewBrother | snutree/schemas/sigmanu.py:127-144 | a Brother is named by its last name and keyed "Brother n" from the counter, which alone advances |
| SigmaNuSchema.MemberCounters.NewCandidate | snutree/schemas/sigmanu.py:168-185 | a Candidate gets the combined name and the key "Candidate n" from the counter, which alone advances |
| SigmaNuSchema.Primaries | snutree/schemas/sigmanu.py:107-109 | the primary-chapter affiliations are exactly those starting "ΔA " |
| SigmaNuSchema.Others | snutree/schemas/sigmanu.py:107-109 | the other affiliations are exactly those not starting "ΔA " |
| SigmaNuSchema.PartitionKeepsAll | snutree/schemas/sigmanu.py:104 | the two parts together hold exactly the original affiliations |
| SigmaNuSchema.SortByKey | snutree/schemas/sigmanu.py:104 | the sort is a permutation of its input |
| SigmaNuSchema.SortByKeySorted | snutree/schemas/sigmanu.py:104-109 | the result is ordered by the key (not primary, text) |
| SigmaNuSchema.PrimaryAffiliationsFirst | snutree/schemas/sigmanu.py:104-109 | every primary-chapter affiliation comes before every other one |
| SigmaNuSchema.KnightLabel | snutree/schemas/sigmanu.py:102-105 | a Knight as built keeps no affiliation, so its label is its name and `\n` |
| SigmaNuSchema.ExpelledLabel | snutree/schemas/sigmanu.py:228-229 | an Expelled member's label is "Member Expelled", `\n` and the badge, never a name |
| SigmaNuSchema.MemberCounters.constructor | snutree/schemas/sigmanu.py:125-166 | both counters start at 0 |
| Validators.Digits | snutree/utilities/voluptuous.py:3-9 | a match exists exactly when the string starts with a digit, and it is the maximal leading run of digits; otherwise ValueError |
| Validators.DigitsOfDigits | snutree/utilities/voluptuous.py:5-9 | a string of digits is its own match |
| Validators.DigitsDropsSuffix | snutree/utilities/voluptuous.py:5-9 | digits followed by anything that does not start with a digit match to those digits |
| Validators.NonEmptyString | snutree/utilities/voluptuous.py:11-14 | the value passes unchanged exactly when it is a non-empty string; otherwise ValueError |
| Directories.Cleaned | snutree/directory.py:39-41 | the cleaned row keeps exactly the truthy fields, unchanged |
| Directories.CleanRow | snutree/directory.py:39-41 | the loop deleting falsy fields leaves exactly the cleaned row |
| Directories.TableOfLastWins | snutree/directory.py:22-25 | a status is in the table exactly when some type allows it, and it maps to the last type that does |
| Directories.StatusTableLoop | snutree/directory.py:22-25 | the nested loop builds exactly that table |
| Directories.AddStatuses | snutree/directory.py:24-25 | the inner loop sends every status the type allows to that type and leaves the other statuses alone |
| Directories.SingletonKeys | snutree/directory.py:43-48 | a table with one entry has exactly that status as key |
| Directories.SingleStatusIgnoresRow | snutree/directory.py:43-48 | with a single status in the table every row is filed under it, whatever its own status field says |
| Directories.IntakeInOrder | snutree/directory.py:31-63 | when nothing stops it, one member is built from every row whose status is not ignored, in input order, each with the type its status names |
| Directories.UnknownStatusStops | snutree/directory.py:56-60 | a kept row with a status outside the table stops the intake with an error, there or earlier |
| Directories.Directory.constructor | snutree/directory.py:19-26 | the ignored statuses default to none and the table is built from the types, before any member is read |
| Directories.Directory.SetMembers | snutree/directory.py:30-63 | the members and the error are those the intake function gives for the rows |
| Directories.IntakeLoop | snutree/directory.py:34-63 | the loop over the rows leaves exactly the members and the error the intake function gives |
| Directories.ReadStatus | snutree/directory.py:43-50 | the status read from a cleaned row is the one the status function gives |
| Config.Merged | snutree/api.py:380-392 | two lists concatenate, a scalar replaces, and a key not yet present takes the new value |
| Config.Updated | snutree/api.py:371-392 | the result has the keys of both mappings; keys only in the original are kept and keys only in the update are taken as given |
| Config.UpdateEmpty | snutree/api.py:371-392 | updating an empty mapping gives the update itself |
| Config.UpdateDisjoint | snutree/api.py:371-392 | with disjoint keys the result is the union of the two mappings |
| Config.NoneKeepsContainer | snutree/api.py:389-390 | with the `None` rule, a `None` in the update keeps an old mapping or list |
| Config.NoneReplacesWithoutRule | snutree/snutree.py:332-339 | without that rule, a `None` replaces whatever was there |
| Config.NestedMappingsMerge | snutree/api.py:385-386 | two mappings at the same key are merged recursively |
| Config.DeepUpdate | snutree/api.py:371-392 | the loop over the update's keys leaves exactly the updated mapping; the same method with the rule off models snutree/snutree.py:324-339 |
| Config.PartialStart | snutree/api.py:371-379 | before the loop, with every key still to do, the mapping is the original |
| Config.PartialStep | snutree/api.py:379-392 | handling one more key sets it to the merge of the value held there with the update's value and changes no other key |
| Config.PartialDone | snutree/api.py:371-392 | once no key is left the mapping is the updated mapping |
| Config.MergeValue | snutree/api.py:380-392 | the loop body computes the merged value of one key |
| Config.GetConfig | snutree/api.py:263-279 | the configuration is the defaults updated by each file in order and then by the arguments |
| Config.ArgumentsWin | snutree/api.py:270-278 | a scalar given in the arguments wins over every file and the defaults |
| Config.DefaultsKept | snutree/api.py:270-278 | a key no source mentions keeps its default |
| Config.ListsCollect | snutree/api.py:270-278 | a list at the same key in every source collects all the items in source order |
| Config.ListsAppend | snutree/api.py:387-388 | one update of a list by a list appends the new items |
| Config.Denull | snutree/api.py:394-406 | exactly the keys with a value other than `None` remain, and values that are not mappings are unchanged |
| Config.DenullValue | snutree/api.py:402-405 | a mapping stays a mapping and any other value is unchanged |
| Config.DenullHasNoNulls | snutree/api.py:394-406 | no mapping at any depth of the result holds a `None` |
| Config.DenullOfNoNulls | snutree/api.py:394-406 | a mapping without `None` values is its own result |
| Config.DenullIdempotent | snutree/api.py:394-406 | denullifying twice is denullifying once |
| Config.Denullified | snutree/api.py:394-406 | the loop builds exactly the denullified mapping |
| Config.OccurrencesMembers | snutree/api.py:337-338 | a writer is appended under a type exactly when it lists that type |
| Config.SupportingMembers | snutree/api.py:334-338 | a writer supports a filetype exactly when it is a builtin that lists it |
| Config.ChooseWriter | snutree/api.py:325-350 | an explicit writer name wins over the filetype |
| Config.ChosenWriterSupports | snutree/api.py:340-343 | without a name, the writer found is the one builtin that lists the filetype |
| Config.UnsupportedHasNoWriter | snutree/api.py:344-346 | without a name, a filetype no builtin lists has no writer |
| Config.NoneSupporting | snutree/api.py:334-340 | when no builtin lists the filetype, nothing is collected for it |
| Config.ConflictNamesClaimants | snutree/api.py:347-350 | when several writers claim the filetype, the error names exactly the claimants |
| Config.FindWriterModule | snutree/api.py:325-350 | the method returns the writer or error the decision gives |
| Config.WritersByType | snutree/api.py:334-338 | each type lists exactly the builtins that support it, in order, and no list is empty |
| Config.AddWriter | snutree/api.py:337-338 | the inner loop appends the writer once under every type it lists |
| Config.AppendStep | snutree/api.py:337-338 | one more listed type appends the writer under that type and leaves every other type's list alone |
| Config.FinalComponent | snutree/snutree.py:301-302 | the final component of a path holds no `/` |
| Config.LastDot | snutree/snutree.py:302 | the index of the last dot, or -1 when there is none |
| Config.WritePlan | snutree/snutree.py:293-307 | an output type without a compiler is refused before anything is written; otherwise its compiler and the destination are chosen |
| Config.StdoutIsDot | snutree/snutree.py:301-302 | without a filename the output is DOT source on standard output |
| Config.FileTypeFromName | snutree/snutree.py:301-307 | a file named `<stem>.<type>` has that output type, which is accepted exactly for dot and pdf |
| Config.SuffixOfName | snutree/snutree.py:302 | the suffix of `<stem>.<type>` is `.<type>` |
| Config.NoSuffixUnsupported | snutree/snutree.py:302-307 | a name with no dot has no output type, which is refused |
| Config.FinalOfPath | snutree/snutree.py:301-302 | the final component of `dir/name` is the name |
| Records.ParseInt | family_tree/records.py:96 | `int` reads only a string that has something left after stripping whitespace |
| Records.IntStripLeft | family_tree/records.py:96 | stripping the front leaves a suffix of the string that starts with a character `int` does not skip |
| Records.IntStripRight | family_tree/records.py:96 | stripping the back leaves a prefix of the string that ends with a character `int` does not skip |
| Records.IntSkipsSpace | family_tree/records.py:96 | a leading whitespace character that `int` skips, such as U+3000, does not change what the string reads as |
| Records.IntKeepsSeparators | family_tree/records.py:96 | a string starting with one of U+001C..U+001F is never an int: `int` does not skip them although `strip()` does |
| Records.ZeroFill | family_tree/records.py:76 | zero filling pads to the width and never shortens |
| Records.FormatBadge | family_tree/records.py:76 | `'{:04d}'` prints at least four characters: digits, or a minus sign then digits |
| Records.FormatBadgePadded | family_tree/records.py:76 | 1 prints "0001" and -1 prints "-001": zeros fill four characters, the sign counting as one |
| Records.FormatBadgeWide | family_tree/records.py:76 | 12345 prints "12345": a wider badge is not cut |
| Records.ZeroFillParse | family_tree/records.py:76 | zero-filled digits read back as the number they came from |
| Records.ParseIntUnstripped | family_tree/records.py:96 | with no skipped whitespace at either end, `int` reads the sign and digits as they are |
| Records.ParseSignedNegative | family_tree/records.py:96 | a minus sign before digits reads as minus their value |
| Records.ParseFormatBadge | family_tree/records.py:94-98 | reading a printed badge gives its number back |
| Records.ReadBadge | family_tree/records.py:94-98 | a missing badge raises the uncaught TypeError; a given one is read exactly when `int` accepts it, and is otherwise a RecordError |
| Records.ReadBadgeKeepsNumber | family_tree/records.py:94-98 | a badge read from a row names the same number in at least four characters |
| Records.ReadBigBadge | family_tree/records.py:106-112 | a falsy big badge gives no parent; a parent is given only for a truthy one |
| Records.BigBadgeLikeBadge | family_tree/records.py:106-112 | a truthy big badge is read exactly as a member's badge is |
| Records.ReadName | family_tree/records.py:100-104 | the name is read exactly when first and last name are truthy, and is then the chosen name |
| Records.BrotherName | family_tree/records.py:130-134 | a brother's name is read exactly when the last name is truthy, and is then that last name |
| Records.ExpelledName | family_tree/records.py:149-154 | an expelled member needs first and last name and is shown as "Member Expelled" |
| Records.ReadSemester | family_tree/records.py:12-20 | a semester is returned exactly when the field is truthy and parses, and is then the parsed semester |
| Records.ReadSemesterOfStr | family_tree/records.py:12-20 | the printed form of a semester reads back as that semester |
| Records.Reorganization | family_tree/records.py:22-45 | the record exists exactly when the semester parses; its key is "<semester> Reorganization", its name "Reorganization", no parent; otherwise the RecordError quoting the field |
| Records.ReorganizationNeedsSemester | family_tree/records.py:12-45 | unlike other records, a reorganization refuses a missing or empty semester |
| Records.Chapter | family_tree/records.py:47-72 | the record exists exactly when designation and name are truthy; the designation is checked first; the record is keyed by its designation with no parent |
| Records.MemberRecord | family_tree/records.py:78-92 | the key, then the name, then the big badge are read, and the first failure is the one raised |
| Records.KnightRecord | family_tree/records.py:114-116 | a knight's key is its badge, in at least four characters, and it has first and last name |
| Records.ExpelledRecord | family_tree/records.py:147-154 | an expelled member's key is its badge and its name "Member Expelled" |
| Records.ExpelledIsRenamedKnight | family_tree/records.py:114-154 | an expelled member's record is a knight's record, renamed |
| Records.Reaffiliate | family_tree/records.py:156-157 | a reaffiliation row makes no record |
| Records.BrotherBadge | family_tree/records.py:123-128 | a brother's key is made exactly when no badge is given, and is "B<n>" from the counter |
| Records.CandidateBadge | family_tree/records.py:140-145 | a candidate's key is made exactly when no badge is given, and is "C<n>" from the counter |
| Records.SyntheticKeysDistinct | family_tree/records.py:121-145 | different counter values give different keys |
| Records.SyntheticKeysAreNotBadges | family_tree/records.py:94-145 | a counter's key is never a printed badge, nor one of the other counter's keys |
| Records.RecordCounters.constructor | family_tree/records.py:121-138 | both counters start at 0 |
| Records.RecordCounters.NewBrotherRecord | family_tree/records.py:119-134 | the brother counter moves exactly when the row has no badge, even when a later field fails, and the record is read with the counter's old value |
| Records.RecordCounters.NewCandidateRecord | family_tree/records.py:136-145 | the candidate counter moves exactly when the row has no badge, and the record is read with the counter's old value |
| Records.CounterRecordsDistinct | family_tree/records.py:119-145 | records built at different counter values have different keys |
| CsvReaders.FoldStopsAt | family_tree/file.py:26-37 | the first row that fails decides the error "Error in row k+2", and later rows are never read |
| CsvReaders.Read | family_tree/file.py:26-37 | the loop with its row counter returns exactly the fold of `accumulate` over the rows, or the first failing row's error |
| CsvReaders.SimpleAccumulate | family_tree/file.py:54-58 | a key is added exactly when it is not already there; a repeated key fails |
| CsvReaders.Designations | family_tree/file.py:64-65 | one designation per row, in row order |
| CsvReaders.DistinctSnoc | family_tree/file.py:54-58 | a list plus one more item has no repeat exactly when the list has none and the item is new |
| CsvReaders.ChaptersRead | family_tree/file.py:26-65 | reading chapters succeeds exactly when every row has both columns and no designation repeats, and then gives the mapping the rows describe |
| CsvReaders.ChapterMapKeys | family_tree/file.py:64-65 | the mapping's keys are exactly the designations |
| CsvReaders.ChapterMapValues | family_tree/file.py:64-65 | with distinct designations each maps to the location on its own row |
| CsvReaders.ReadChapters | family_tree/file.py:26-65 | the method succeeds exactly when the rows are valid, with the designation-to-location mapping |
| CsvReaders.DuplicateChapterStops | family_tree/file.py:54-57 | a designation seen before stops the read at the row that repeats it |
| CsvReaders.ToGreekName | family_tree/file.py:110-115 | a name converts exactly when every single-space-separated word is in the table, and the result has no space |
| CsvReaders.ToGreekNameOfWords | family_tree/file.py:110-115 | table words joined by single spaces convert to the same letters as the schema's converter |
| CsvReaders.AffiliationEntry | family_tree/file.py:100-104 | an entry is made exactly when the three columns are present and the chapter name converts, and is the badge with "<greek name> <other badge>" |
| CsvReaders.ListsRead | family_tree/file.py:26-37 | for any row reader, folding the list-appending accumulate succeeds exactly when every row makes an entry, and then gives each key that occurs its rows' texts in row order |
| CsvReaders.AffiliationsRead | family_tree/file.py:26-37 | reading affiliations succeeds exactly when every row makes an entry, and then maps each badge that occurs to its rows' entries in row order |
| CsvReaders.ReadAffiliations | family_tree/file.py:67-115 | the method succeeds exactly when every row makes an entry, with the badge-to-entries mapping |
| CsvReaders.AffiliationMapContents | family_tree/file.py:106-108 | each row's entry is in its badge's list |
| CsvReaders.BadgesAndEntries | family_tree/file.py:106-108 | for any row reader, each row's key is among the keys and its text among that key's texts |
| CsvReaders.AffiliationsStep | family_tree/file.py:106-108 | for any row reader, one more row appends its text to its key's list and leaves the other lists alone |
| CsvReaders.NoEntries | family_tree/file.py:106-108 | for any row reader, a key no row names has no texts |
| RecordTree.ExtendsTrans | family_tree/node.py:21-41 | later loop states extend earlier ones: keys keep their nodes and lists only grow at the end |
| RecordTree.Register | family_tree/node.py:23-31 | a key gets its existing placeholder or a new node with no children, with its record set; no node's children change |
| RecordTree.RegisterRecords | family_tree/node.py:23-31 | registering sets the key's record and no other node's |
| RecordTree.Adopt | family_tree/node.py:34-35 | the parent's children become its old children followed by exactly the node; every other node and every record stay as they were |
| RecordTree.Placeholder | family_tree/node.py:36-38 | a parent not yet seen gets a new placeholder with no record and the node as only child; every existing node and key stays as it was |
| RecordTree.AddRoot | family_tree/node.py:39-41 | the node is appended to the roots and nothing else changes |
| RecordTree.Place | family_tree/node.py:21-41 | one pass keeps the state well formed and extends it with the key |
| RecordTree.PlaceRecords | family_tree/node.py:21-41 | a pass sets the record of its key and of no other, and a new parent key gets an empty placeholder |
| RecordTree.PlaceKeys | family_tree/node.py:21-41 | a pass adds the key, and the parent key when it is truthy |
| RecordTree.PlaceLinks | family_tree/node.py:33-41 | the node becomes a child of its parent's node, or a root when it has no parent key |
| RecordTree.PlacedAtKept | family_tree/node.py:21-41 | later passes keep a record placed as long as its key is not placed again |
| RecordTree.PlaceStep | family_tree/node.py:21-41 | a pass for a new key keeps the loop's invariant: every record placed, the keys of `nodes` exactly the keys and parent keys seen, parent-only keys placeholders |
| RecordTree.SnocKeys | family_tree/node.py:21 | the keys and parent keys of a list with one more entry |
| RecordTree.RootKeys | family_tree/node.py:34-41 | the keys appended to `roots` are at most one per record, in the records' order |
| RecordTree.RootKeysHaveNoParent | family_tree/node.py:34-41 | a key among the roots is that of a record with a falsy parent key: a record with a parent key is never a root |
| RecordTree.ParentlessAreRootKeys | family_tree/node.py:39-41 | every record with no parent key is among the roots |
| RecordTree.PlaceRoots | family_tree/node.py:34-41 | a pass appends the record's node to `roots` exactly when the record is a root, and otherwise leaves `roots` alone |
| RecordTree.RootsStep | family_tree/node.py:21-41 | a pass keeps `roots` equal to the nodes of the root keys so far, in order |
| RecordTree.RootsLoopStep | family_tree/node.py:21-41 | the pass for the i-th record of a dict keeps `roots` equal to the nodes of the root keys so far |
| RecordTree.ChildKeys | family_tree/node.py:34-38 | the keys appended under a key's node are at most one per record, in the records' order |
| RecordTree.ChildKeysHaveParent | family_tree/node.py:34-38 | a key appended under `p`'s node is that of a record whose parent key is `p` |
| RecordTree.TruthyParentIsChild | family_tree/node.py:34-38 | every record with a truthy parent key is appended under that key's node, whether the parent came first or later |
| RecordTree.ChildKeysDistinct | family_tree/node.py:21-38 | with the distinct keys of a dict, no node is appended twice under the same node |
| RecordTree.ChildKeysOfNew | family_tree/node.py:34-38 | a key not yet seen as a key or parent key has nothing appended under it |
| RecordTree.PlaceChildren | family_tree/node.py:21-41 | a pass appends the record's node under each key it is a child of and changes no other node's children; a new key starts with none |
| RecordTree.ChildrenStepAt | family_tree/node.py:21-41 | a pass keeps a key's children equal to the nodes of its child keys so far |
| RecordTree.ChildrenLoopStep | family_tree/node.py:21-41 | the pass for the i-th record keeps every key's children exact |
| RecordTree.PlaceKeyed | family_tree/node.py:24-38 | every node a pass makes is stored in `nodes`, under the record's key or its parent key |
| RecordTree.TreeFromRecords | family_tree/node.py:2-43 | every record sits in its key's node; each key's node has as children exactly the nodes of the records appended under it, in the records' order; the root's children are exactly the nodes of the root keys, in order; every node is some key's node; `nodes` holds exactly the keys and parent keys; the returned root has no record and every reference names a node |
| RecordTree.LoopStep | family_tree/node.py:21-41 | the pass for the i-th record of a dict keeps the loop's invariant |
| RecordTree.NotYetKey | family_tree/node.py:21 | a dict's key is not among the keys before it |
| RecordTree.PlaceRecord | family_tree/node.py:22-41 | the loop body changes the node objects, `nodes` and `roots` exactly as one pass says |
| RecordTree.Iter | family_tree/node.py:51-54 | iteration yields the node itself first |
| RecordTree.IterYieldsSubtrees | family_tree/node.py:51-54 | iteration yields exactly the node and its descendants |
| RecordTree.IterAllYieldsSubtrees | family_tree/node.py:53-54 | iterating the children in turn yields exactly their descendants |
| RecordTree.IterLength | family_tree/node.py:51-54 | iteration visits as many nodes as the tree has |
| RecordTree.IterAllLength | family_tree/node.py:53-54 | iterating the children visits as many nodes as they hold |
| RecordTree.View | family_tree/node.py:45-49 | a node object seen as a value keeps its record and its number of children |
| RecordTree.RootView | family_tree/node.py:43-54 | the returned root has no record, its children are the views of the root keys' nodes in the records' order, and iterating it yields the root first and every root's node |
| RecordTree.OrphanUnreachable | family_tree/node.py:13-43 | unlike the docstring's promise, a record whose parent key never arrives is placed under a placeholder but is not yielded when iterating the returned root |

## Left out

- Input and output are not modelled: the command line, the GUI, file and standard-output writing, the SQL and CSV file readers, and the `dot` subprocess that compiles PDF. `write_output` is modelled up to its choice of compiler and destination (`Config.WritePlan`).
- The cerberus, jsonschema and voluptuous schema tables are not modelled as such. The checks the member schemas make are written out in `SigmaNuMembers.CheckSchema`. The writer's `DOT_SCHEMA` defaults appear only as the fields of `DotWriter.WriterConfig`.
- `combine_names` and `choose_name` depend on `difflib`'s floating-point similarity ratio. They are opaque function parameters, so the models say nothing about which name is chosen.
- The seeded shuffle in `ordered_nodes` is CPython's Mersenne Twister. It is a permutation parameter, and the ordering lemmas hold for every permutation.
- The colour palette of `ColorPicker.from_graphviz` is a parameter: its source and colour list are not part of this model. The picker is the rotating queue that `tests/test_colors.py` pins down.
- networkx is replaced by an insertion-ordered key list, a node map and an edge map. Degrees and weakly connected components are defined in `Digraph`. The node order of networkx is taken to be insertion order.
- `Config.DeepUpdate` returns the updated mapping as a value. It does not model the in-place update of nested dictionaries, nor the aliasing between a dictionary in the update and the original.
- The loading of writer plugin modules and `Path` normalisation are not modelled. `Config.ChooseWriter` takes the loader as a function, and `Config.OutputType` reads the suffix of the final path component.
- `Records.ParseInt` and the digit matchers accept ASCII digits only. Python's `int` also accepts underscores between digits and non-ASCII decimal digits, and `\d` matches non-ASCII digits. Whitespace follows Python: `Text.IsSpace` is `str.isspace`, which `strip()`, `split()` and `\s` use, and `int` skips the same characters except the separators U+001C..U+001F.
- `Affiliations.UpperChar` and `Affiliations.Title` model case mapping for ASCII and the basic Greek alphabet only. These are the letters a chapter name or designation can use.
- `RecordTree.View`: `Node` objects are indices into an arena of cells. A record naming itself as its parent makes a cycle, so the value view of a node is cut off at a depth parameter.
- `Directories.CleanRow` returns a new row without the falsy fields. The source deletes them from the caller's dictionary in place (snutree/directory.py:39-41), so the caller's row loses them too; the model does not capture that aliasing.
- `DotWriter.Label` rests on two assumptions. `decorate` reads `entity.label` (snutree/writers/dot.py:167), but no entity class in snutree/entity.py, snutree/tree.py or snutree/member/ defines `label`, so as written the read raises AttributeError. The model takes a member's label to be its `get_dot_label()`, and a custom entity, which has no label, to be labelled by its key. The writer's other tree calls (`singletons`, `orphans`, `get_rank_bounds`, `entity.rank`) belong to the same tree API, which is not part of this model. They are given the meaning of the nearest operations in snutree/tree.py.
- `TreeOutput.Bounds` models the infinite starting bounds of `get_semester_bounds` as `None`. An empty tree therefore gets no rank groups and a date column of one node labelled `inf`.
- Logging is not modelled, except for the singleton warnings: `DotWriter.RemoveSingletonMembers` returns the keys it would warn about. The warning for a family-colour key missing from the tree is not modelled; the key is just skipped.
- `family_tree/file.py`'s `SettingsReader` and `DirectoryReader` are not modelled. The first is a YAML load. The second calls a `from_row` that the records do not define.
- The thin member kinds of `snutree/member/basic.py`, `keyed.py` and `chapter.py`, and their schema counterparts, appear only as the cases of the `Entity.TreeEntity` constructors. The other `family_tree` modules (`entity.py`, `directory.py`, `tree.py`, `writing.py`, `processor.py`, `reading.py`, `csv.py`, `sql.py`, `settings.py`, `schema.py`) were superseded by `snutree/` and are not modelled.
- Python's integers are unbounded, like Dafny's, so no width is modelled.

## Findings

| source | as written | input that shows it | evidently intended | confidence | as-written member | corrected member |
|---|---|---|---|---|---|---|
| snutree/semester.py:28-31 | the pair form looks the season up as 0 (Spring) or 1 (Fall) and then rejects a falsy value with `if not season`, which also rejects Spring | `Semester('Spring', 2000)` raises ValueError, while `Semester('Spring 2000')` gives 4000 | reject only an unknown season name (`season is None`), so that `('Spring', y)` gives 2·y | high; not executed | Semester.ConstructRejectsSpringPair | Semester.ConstructIntendedPairMatchesString |
