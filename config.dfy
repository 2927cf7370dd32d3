/**
 * Configuration handling of `snutree/api.py` and `snutree/snutree.py`:
 * `deep_update` (with and without the rule that `None` keeps an old
 * container), `denullified`, the merge order of `get_config`, the choice of
 * a writer module for a filetype, and the output filetype of `write_output`.
 *
 * Configurations are values here: `deep_update` returns the updated mapping
 * rather than changing nested dictionaries in place.
 */
module Config {
  import opened Wrappers

  /**
   * A configuration value: a mutable mapping, a mutable sequence (a list),
   * `None`, or anything else (numbers, strings, tuples, read-only mappings),
   * which is never merged.
   */
  datatype Value = Dict(entries: map<string, Value>) | List(items: seq<Value>) | Null | Atom(text: string)

  predicate IsContainer(v: Value) { v.Dict? || v.List? }

  // ---------------------------------------------------------------------------
  // deep_update
  // ---------------------------------------------------------------------------

  /**
   * The new value of one key: mappings merge, lists concatenate, and with
   * `keepOnNone` a `None` leaves an old mapping or list in place; anything
   * else replaces the old value (an absent key counts as `None`).
   */
  function Merged(oldValue: Option<Value>, newValue: Value, keepOnNone: bool): (r: Value)
    ensures oldValue.Some? && oldValue.value.List? && newValue.List? ==>
      r == List(oldValue.value.items + newValue.items)
    ensures newValue.Atom? ==> r == newValue
    ensures oldValue.None? ==> r == newValue
    decreases newValue, 1
  {
    if oldValue.Some? && oldValue.value.Dict? && newValue.Dict? then
      Dict(Updated(oldValue.value.entries, newValue.entries, keepOnNone))
    else if oldValue.Some? && oldValue.value.List? && newValue.List? then
      List(oldValue.value.items + newValue.items)
    else if keepOnNone && oldValue.Some? && IsContainer(oldValue.value) && newValue.Null? then
      oldValue.value
    else newValue
  }

  /** `deep_update(original, update)` as the mapping it leaves. */
  function Updated(original: map<string, Value>, update: map<string, Value>, keepOnNone: bool)
    : (r: map<string, Value>)
    ensures r.Keys == original.Keys + update.Keys
    ensures forall k :: k in original && k !in update ==> r[k] == original[k]
    ensures forall k :: k in update && k !in original ==> r[k] == update[k]
    decreases Dict(update), 0
  {
    map k | k in original.Keys + update.Keys ::
      if k in update then Merged(if k in original then Some(original[k]) else None, update[k], keepOnNone)
      else original[k]
  }

  /** Updating an empty mapping gives the update itself. */
  lemma UpdateEmpty(update: map<string, Value>, keepOnNone: bool)
    ensures Updated(map[], update, keepOnNone) == update
  {
  }

  /** With disjoint keys, the result is the union of the two mappings. */
  lemma UpdateDisjoint(original: map<string, Value>, update: map<string, Value>, keepOnNone: bool)
    requires original.Keys !! update.Keys
    ensures Updated(original, update, keepOnNone) == original + update
  {
  }

  /** With the `None` rule, a `None` in the update keeps an old mapping or list. */
  lemma NoneKeepsContainer(original: map<string, Value>, update: map<string, Value>, k: string)
    requires k in original && IsContainer(original[k]) && k in update && update[k].Null?
    ensures Updated(original, update, true)[k] == original[k]
  {
  }

  /** Without it, a `None` replaces whatever was there. */
  lemma NoneReplacesWithoutRule(original: map<string, Value>, update: map<string, Value>, k: string)
    requires k in update && update[k].Null?
    ensures Updated(original, update, false)[k] == Null
  {
  }

  /** Two mappings at the same key merge key by key, recursively. */
  lemma NestedMappingsMerge(original: map<string, Value>, update: map<string, Value>, k: string, keepOnNone: bool)
    requires k in original && original[k].Dict? && k in update && update[k].Dict?
    ensures Updated(original, update, keepOnNone)[k] ==
            Dict(Updated(original[k].entries, update[k].entries, keepOnNone))
  {
  }

  /**
   * `deep_update(original, update)`: every key of the update in turn, a
   * recursive update for two mappings, an extension for two lists, and a
   * replacement otherwise.
   */
  method DeepUpdate(original: map<string, Value>, update: map<string, Value>, keepOnNone: bool)
    returns (r: map<string, Value>)
    ensures r == Updated(original, update, keepOnNone)
    decreases Dict(update), 0
  {
    r := original;
    var keys := update.Keys;
    PartialStart(original, update, keepOnNone);
    while keys != {}
      invariant keys <= update.Keys
      invariant r == Partial(original, update, keepOnNone, keys)
      decreases |keys|
    {
      var key :| key in keys;
      var oldValue := if key in r then Some(r[key]) else None;
      var newValue := update[key];
      assert newValue < Dict(update);
      var value := MergeValue(oldValue, newValue, keepOnNone);
      PartialStep(original, update, keepOnNone, keys, key);
      r := r[key := value];
      keys := keys - {key};
    }
    PartialDone(original, update, keepOnNone);
  }

  /** The value `deep_update` leaves at one key. */
  function NewValue(original: map<string, Value>, update: map<string, Value>, keepOnNone: bool, k: string): Value
    requires k in original || k in update
  {
    if k in update then Merged(if k in original then Some(original[k]) else None, update[k], keepOnNone)
    else original[k]
  }

  /** The mapping the loop of `deep_update` holds while the keys in `keys` are still to do. */
  function Partial(original: map<string, Value>, update: map<string, Value>, keepOnNone: bool, keys: set<string>)
    : map<string, Value>
  {
    map k | k in original.Keys + (update.Keys - keys) ::
      if k in keys then original[k] else NewValue(original, update, keepOnNone, k)
  }

  /** Before the loop, nothing has been done. */
  lemma PartialStart(original: map<string, Value>, update: map<string, Value>, keepOnNone: bool)
    ensures Partial(original, update, keepOnNone, update.Keys) == original
  {
  }

  /**
   * Handling one more key sets it to its merged value, computed from the
   * value the loop still holds there, and changes nothing else.
   */
  lemma PartialStep(original: map<string, Value>, update: map<string, Value>, keepOnNone: bool,
                    keys: set<string>, key: string)
    requires keys <= update.Keys && key in keys
    ensures var r := Partial(original, update, keepOnNone, keys);
      Partial(original, update, keepOnNone, keys - {key}) ==
      r[key := Merged(if key in r then Some(r[key]) else None, update[key], keepOnNone)]
  {
  }

  /** After the loop, every key has been done. */
  lemma PartialDone(original: map<string, Value>, update: map<string, Value>, keepOnNone: bool)
    ensures Partial(original, update, keepOnNone, {}) == Updated(original, update, keepOnNone)
  {
  }

  /** The body of the loop of `deep_update` for one key. */
  method MergeValue(oldValue: Option<Value>, newValue: Value, keepOnNone: bool) returns (value: Value)
    ensures value == Merged(oldValue, newValue, keepOnNone)
    decreases newValue, 1
  {
    if oldValue.Some? && oldValue.value.Dict? && newValue.Dict? {
      var nested := DeepUpdate(oldValue.value.entries, newValue.entries, keepOnNone);
      value := Dict(nested);
    } else if oldValue.Some? && oldValue.value.List? && newValue.List? {
      value := List(oldValue.value.items + newValue.items);
    } else if keepOnNone && oldValue.Some? && IsContainer(oldValue.value) && newValue.Null? {
      value := oldValue.value;
    } else {
      value := newValue;
    }
  }

  // ---------------------------------------------------------------------------
  // get_config
  // ---------------------------------------------------------------------------

  /** The defaults updated by each source in turn. */
  function UpdatedAll(defaults: map<string, Value>, sources: seq<map<string, Value>>): map<string, Value> {
    if sources == [] then defaults
    else Updated(UpdatedAll(defaults, sources[..|sources| - 1]), sources[|sources| - 1], true)
  }

  /**
   * The merge of `get_config`: the defaults, then each configuration file in
   * order, then the arguments.
   */
  method GetConfig(defaults: map<string, Value>, files: seq<map<string, Value>>, args: map<string, Value>)
    returns (config: map<string, Value>)
    ensures config == UpdatedAll(defaults, files + [args])
  {
    var sources := files + [args];
    config := defaults;
    for i := 0 to |sources|
      invariant config == UpdatedAll(defaults, sources[..i])
    {
      config := DeepUpdate(config, sources[i], true);
      assert sources[..i + 1][..i] == sources[..i];
    }
    assert sources[..|sources|] == sources;
  }

  /** A scalar in the arguments wins over every file and the defaults. */
  lemma ArgumentsWin(defaults: map<string, Value>, files: seq<map<string, Value>>, args: map<string, Value>, k: string)
    requires k in args && args[k].Atom?
    ensures k in UpdatedAll(defaults, files + [args]) && UpdatedAll(defaults, files + [args])[k] == args[k]
  {
    assert (files + [args])[..|files|] == files;
  }

  /** A key no source mentions keeps its default. */
  lemma {:induction false} DefaultsKept(defaults: map<string, Value>, sources: seq<map<string, Value>>, k: string)
    requires k in defaults && forall i :: 0 <= i < |sources| ==> k !in sources[i]
    ensures k in UpdatedAll(defaults, sources) && UpdatedAll(defaults, sources)[k] == defaults[k]
  {
    if sources != [] {
      DefaultsKept(defaults, sources[..|sources| - 1], k);
    }
  }

  /** A list at the same key in every source collects the lists in source order. */
  lemma {:induction false} ListsCollect(defaults: map<string, Value>, sources: seq<map<string, Value>>, k: string)
    requires k in defaults && defaults[k].List?
    requires forall i :: 0 <= i < |sources| ==> k in sources[i] && sources[i][k].List?
    ensures k in UpdatedAll(defaults, sources)
    ensures UpdatedAll(defaults, sources)[k] == List(defaults[k].items + ConcatItems(sources, k))
  {
    if sources != [] {
      var n := |sources| - 1;
      var init := sources[..n];
      ListsCollect(defaults, init, k);
      ListsAppend(UpdatedAll(defaults, init), sources[n], k, defaults[k].items, ConcatItems(init, k));
    }
  }

  /** One update of a list by a list appends the items. */
  lemma ListsAppend(original: map<string, Value>, update: map<string, Value>, k: string,
                    first: seq<Value>, second: seq<Value>)
    requires k in original && original[k] == List(first + second) && k in update && update[k].List?
    ensures k in Updated(original, update, true)
    ensures Updated(original, update, true)[k] == List(first + (second + update[k].items))
  {
    assert first + second + update[k].items == first + (second + update[k].items);
  }

  /** The items of the list at `k` in every source, one source after the other. */
  function ConcatItems(sources: seq<map<string, Value>>, k: string): seq<Value> {
    if sources == [] then []
    else
      var last := sources[|sources| - 1];
      ConcatItems(sources[..|sources| - 1], k) + (if k in last && last[k].List? then last[k].items else [])
  }

  // ---------------------------------------------------------------------------
  // denullified
  // ---------------------------------------------------------------------------

  /** `denullified(mapping)`: `None` values dropped, nested mappings denullified in turn. */
  function Denull(m: map<string, Value>): (r: map<string, Value>)
    ensures forall k :: k in r <==> k in m && !m[k].Null?
    ensures forall k :: k in r && !m[k].Dict? ==> r[k] == m[k]
    decreases Dict(m), 0
  {
    map k | k in m && !m[k].Null? :: DenullValue(m[k])
  }

  function DenullValue(v: Value): (r: Value)
    ensures v.Dict? <==> r.Dict?
    ensures !v.Dict? ==> r == v
    decreases v, 1
  {
    if v.Dict? then Dict(Denull(v.entries)) else v
  }

  /** No `None` value at any depth of nested mappings. */
  predicate NoNulls(m: map<string, Value>)
    decreases Dict(m), 0
  {
    forall k :: k in m ==> !m[k].Null? && (m[k].Dict? ==> NoNulls(m[k].entries))
  }

  /** After `denullified`, no mapping at any depth holds a `None`. */
  lemma {:induction false} DenullHasNoNulls(m: map<string, Value>)
    ensures NoNulls(Denull(m))
    decreases Dict(m)
  {
    var r := Denull(m);
    forall k | k in r ensures !r[k].Null? && (r[k].Dict? ==> NoNulls(r[k].entries)) {
      assert r[k] == DenullValue(m[k]);
      if m[k].Dict? {
        assert m[k] < Dict(m);
        DenullHasNoNulls(m[k].entries);
        assert r[k].entries == Denull(m[k].entries);
      }
    }
  }

  /** A mapping without `None` values is its own `denullified`, so the function is idempotent. */
  lemma {:induction false} DenullOfNoNulls(m: map<string, Value>)
    requires NoNulls(m)
    ensures Denull(m) == m
    decreases Dict(m)
  {
    forall k | k in m ensures Denull(m)[k] == m[k] {
      if m[k].Dict? {
        assert m[k] < Dict(m);
        DenullOfNoNulls(m[k].entries);
      }
    }
  }

  lemma DenullIdempotent(m: map<string, Value>)
    ensures Denull(Denull(m)) == Denull(m)
  {
    DenullHasNoNulls(m);
    DenullOfNoNulls(Denull(m));
  }

  /**
   * `denullified(mapping)`: a fresh mapping holding every non-`None` entry,
   * nested mappings denullified in turn; nested mappings stay even when
   * they end up empty.
   */
  method Denullified(m: map<string, Value>) returns (r: map<string, Value>)
    ensures r == Denull(m)
    decreases Dict(m), 0
  {
    r := map[];
    var keys := m.Keys;
    while keys != {}
      invariant keys <= m.Keys
      invariant forall k :: k in r <==> k in m && k !in keys && !m[k].Null?
      invariant forall k :: k in r ==> r[k] == DenullValue(m[k])
      decreases |keys|
    {
      var key :| key in keys;
      var value := m[key];
      if value.Dict? {
        assert value < Dict(m);
        var nested := Denullified(value.entries);
        r := r[key := Dict(nested)];
      } else if !value.Null? {
        r := r[key := value];
      }
      keys := keys - {key};
    }
  }

  // ---------------------------------------------------------------------------
  // find_writer_module
  // ---------------------------------------------------------------------------

  /** A writer module: its name and the filetypes it lists. */
  datatype WriterModule = WriterModule(name: string, filetypes: seq<string>)

  datatype ConfigError =
    | NoWriter(filetype: string)
    | MultipleWriters(filetype: string, names: set<string>)
    | LoadError(name: string)
    | UnsupportedOutput(filetype: string)

  /** One entry of `writer` per time its list names the filetype. */
  function Occurrences(writer: WriterModule, types: seq<string>, filetype: string): seq<WriterModule> {
    if types == [] then []
    else Occurrences(writer, types[..|types| - 1], filetype) +
         (if types[|types| - 1] == filetype then [writer] else [])
  }

  /** The writers that support a filetype, in the order the modules list them. */
  function Supporting(builtins: seq<WriterModule>, filetype: string): seq<WriterModule> {
    if builtins == [] then []
    else
      var last := builtins[|builtins| - 1];
      Supporting(builtins[..|builtins| - 1], filetype) + Occurrences(last, last.filetypes, filetype)
  }

  lemma {:induction false} OccurrencesMembers(writer: WriterModule, types: seq<string>, filetype: string)
    ensures forall w :: w in Occurrences(writer, types, filetype) <==> w == writer && filetype in types
  {
    if types != [] {
      OccurrencesMembers(writer, types[..|types| - 1], filetype);
      assert types == types[..|types| - 1] + [types[|types| - 1]];
    }
  }

  /** A writer supports a filetype exactly when it is a builtin that lists it. */
  lemma {:induction false} SupportingMembers(builtins: seq<WriterModule>, filetype: string)
    ensures forall w :: w in Supporting(builtins, filetype) <==> w in builtins && filetype in w.filetypes
  {
    if builtins != [] {
      var n := |builtins| - 1;
      SupportingMembers(builtins[..n], filetype);
      OccurrencesMembers(builtins[n], builtins[n].filetypes, filetype);
      assert builtins == builtins[..n] + [builtins[n]];
    }
  }

  /**
   * The decision of `find_writer_module`: an explicit writer name wins;
   * otherwise the one builtin writer for the filetype, or an error when
   * there is none or more than one.
   */
  function ChooseWriter(filetype: string, writerName: Option<string>, builtins: seq<WriterModule>,
                        load: string -> Result<WriterModule, ConfigError>): (r: Result<WriterModule, ConfigError>)
    ensures writerName.Some? ==> r == load(writerName.value)
  {
    if writerName.Some? then load(writerName.value)
    else
      var candidates := Supporting(builtins, filetype);
      if |candidates| == 1 then Ok(candidates[0])
      else if |candidates| == 0 then Err(NoWriter(filetype))
      else Err(MultipleWriters(filetype, set w | w in candidates :: w.name))
  }

  /** Without a writer name, the writer found is a builtin that supports the filetype. */
  lemma ChosenWriterSupports(filetype: string, builtins: seq<WriterModule>,
                             load: string -> Result<WriterModule, ConfigError>)
    requires ChooseWriter(filetype, None, builtins, load).Ok?
    ensures var w := ChooseWriter(filetype, None, builtins, load).value;
      w in builtins && filetype in w.filetypes && Supporting(builtins, filetype) == [w]
  {
    SupportingMembers(builtins, filetype);
    var candidates := Supporting(builtins, filetype);
    assert candidates[0] in candidates;
  }

  /** Without a writer name, a filetype no builtin lists has no writer. */
  lemma UnsupportedHasNoWriter(filetype: string, builtins: seq<WriterModule>,
                               load: string -> Result<WriterModule, ConfigError>)
    requires forall w :: w in builtins ==> filetype !in w.filetypes
    ensures ChooseWriter(filetype, None, builtins, load) == Err(NoWriter(filetype))
  {
    NoneSupporting(builtins, filetype);
  }

  lemma {:induction false} NoneSupporting(builtins: seq<WriterModule>, filetype: string)
    requires forall w :: w in builtins ==> filetype !in w.filetypes
    ensures Supporting(builtins, filetype) == []
  {
    if builtins != [] {
      var last := builtins[|builtins| - 1];
      NoneSupporting(builtins[..|builtins| - 1], filetype);
      NoOccurrences(last, last.filetypes, filetype);
    }
  }

  lemma {:induction false} NoOccurrences(writer: WriterModule, types: seq<string>, filetype: string)
    requires filetype !in types
    ensures Occurrences(writer, types, filetype) == []
  {
    if types != [] {
      NoOccurrences(writer, types[..|types| - 1], filetype);
    }
  }

  /** When two writers claim the filetype, the error names exactly the claimants. */
  lemma ConflictNamesClaimants(filetype: string, builtins: seq<WriterModule>,
                               load: string -> Result<WriterModule, ConfigError>)
    requires |Supporting(builtins, filetype)| >= 2
    ensures ChooseWriter(filetype, None, builtins, load) ==
      Err(MultipleWriters(filetype, set w | w in builtins && filetype in w.filetypes :: w.name))
  {
    SupportingMembers(builtins, filetype);
    var candidates := Supporting(builtins, filetype);
    var named := set w | w in candidates :: w.name;
    var claimants := set w | w in builtins && filetype in w.filetypes :: w.name;
    forall n ensures n in named <==> n in claimants {
      if n in claimants {
        var w :| w in builtins && filetype in w.filetypes && w.name == n;
        assert w in candidates;
      }
    }
    assert named == claimants;
  }

  /**
   * `find_writer_module(filetype, writer_name)`: with no name, the loop over
   * the builtin writers collects, per filetype, the writers that list it.
   */
  method FindWriterModule(filetype: string, writerName: Option<string>, builtins: seq<WriterModule>,
                          load: string -> Result<WriterModule, ConfigError>)
    returns (r: Result<WriterModule, ConfigError>)
    ensures r == ChooseWriter(filetype, writerName, builtins, load)
  {
    if writerName.Some? {
      return load(writerName.value);
    }
    var writers := WritersByType(builtins);
    var candidates := Listed(writers, filetype);
    if |candidates| == 1 {
      r := Ok(candidates[0]);
    } else if |candidates| == 0 {
      r := Err(NoWriter(filetype));
    } else {
      r := Err(MultipleWriters(filetype, set w | w in candidates :: w.name));
    }
  }

  /** The writers listed for a filetype so far; none when the type is absent. */
  function Listed(writers: map<string, seq<WriterModule>>, t: string): seq<WriterModule> {
    if t in writers then writers[t] else []
  }

  /** `writers.setdefault(supported_type, []).append(...)` over every builtin and every type it lists. */
  method WritersByType(builtins: seq<WriterModule>) returns (writers: map<string, seq<WriterModule>>)
    ensures forall t :: Listed(writers, t) == Supporting(builtins, t)
    ensures forall t :: t in writers ==> writers[t] != []
  {
    writers := map[];
    for i := 0 to |builtins|
      invariant forall t :: Listed(writers, t) == Supporting(builtins[..i], t)
      invariant forall t :: t in writers ==> writers[t] != []
    {
      assert builtins[..i + 1][..i] == builtins[..i];
      writers := AddWriter(writers, builtins[i]);
    }
    assert builtins[..|builtins|] == builtins;
  }

  /** The inner loop: the writer appended once under every type it lists. */
  method AddWriter(writers: map<string, seq<WriterModule>>, writer: WriterModule)
    returns (added: map<string, seq<WriterModule>>)
    requires forall t :: t in writers ==> writers[t] != []
    ensures forall t :: Listed(added, t) == Listed(writers, t) + Occurrences(writer, writer.filetypes, t)
    ensures forall t :: t in added ==> added[t] != []
  {
    added := writers;
    for j := 0 to |writer.filetypes|
      invariant forall t :: Listed(added, t) == Listed(writers, t) + Occurrences(writer, writer.filetypes[..j], t)
      invariant forall t :: t in added ==> added[t] != []
    {
      var supported := writer.filetypes[j];
      AppendStep(writers, added, writer, writer.filetypes, j);
      added := added[supported := Listed(added, supported) + [writer]];
    }
    assert writer.filetypes[..|writer.filetypes|] == writer.filetypes;
  }

  /** One more listed type appends the writer under that type only. */
  lemma AppendStep(writers: map<string, seq<WriterModule>>, added: map<string, seq<WriterModule>>,
                   writer: WriterModule, types: seq<string>, j: nat)
    requires j < |types|
    requires forall t :: Listed(added, t) == Listed(writers, t) + Occurrences(writer, types[..j], t)
    ensures var next := added[types[j] := Listed(added, types[j]) + [writer]];
      forall t :: Listed(next, t) == Listed(writers, t) + Occurrences(writer, types[..j + 1], t)
  {
    forall t ensures Listed(added[types[j] := Listed(added, types[j]) + [writer]], t) ==
                     Listed(writers, t) + Occurrences(writer, types[..j + 1], t) {
      AppendStepAt(Listed(added, t), Listed(writers, t), writer, types, j, t);
    }
  }

  lemma AppendStepAt(listed: seq<WriterModule>, initial: seq<WriterModule>,
                     writer: WriterModule, types: seq<string>, j: nat, t: string)
    requires j < |types|
    requires listed == initial + Occurrences(writer, types[..j], t)
    ensures (if types[j] == t then listed + [writer] else listed) == initial + Occurrences(writer, types[..j + 1], t)
  {
    assert types[..j + 1][..j] == types[..j];
    var before := Occurrences(writer, types[..j], t);
    assert Occurrences(writer, types[..j + 1], t) == before + (if types[j] == t then [writer] else []);
    if types[j] == t {
      assert (initial + before) + [writer] == initial + (before + [writer]);
    }
  }

  // ---------------------------------------------------------------------------
  // write_output (snutree/snutree.py)
  // ---------------------------------------------------------------------------

  /** The compilers of `WRITERS`. */
  datatype Compiler = CompileDot | CompilePdf

  const Writers: map<string, Compiler> := map["dot" := CompileDot, "pdf" := CompilePdf]

  /** The text after the last `/`: the final component of a path. */
  function FinalComponent(path: string): (r: string)
    ensures '/' !in r
  {
    if path == [] then []
    else if path[|path| - 1] == '/' then []
    else FinalComponent(path[..|path| - 1]) + [path[|path| - 1]]
  }

  /** The index of the last `.` in a name, or -1. */
  function LastDot(name: string): (i: int)
    ensures -1 <= i < |name|
    ensures i >= 0 ==> name[i] == '.' && forall j :: i < j < |name| ==> name[j] != '.'
    ensures i == -1 ==> '.' !in name
  {
    if name == [] then -1
    else if name[|name| - 1] == '.' then |name| - 1
    else LastDot(name[..|name| - 1])
  }

  /** `Path(name).suffix`: from the last dot, unless that dot starts or ends the name. */
  function Suffix(name: string): string {
    var i := LastDot(name);
    if 0 < i < |name| - 1 then name[i..] else ""
  }

  /** `path.suffix[1:] if path else 'dot'` */
  function OutputType(filename: Option<string>): string {
    if filename.None? then "dot"
    else
      var suffix := Suffix(FinalComponent(filename.value));
      if suffix == "" then "" else suffix[1..]
  }

  /**
   * What `write_output` does before writing: the compiler for the output
   * type and where the result goes (the file, or standard output for
   * `None`), or `UnsupportedOutput` before anything is written.
   */
  function WritePlan(filename: Option<string>): (r: Result<(Compiler, Option<string>), ConfigError>)
    ensures r.Err? <==> OutputType(filename) !in Writers
    ensures r.Ok? ==> r.value.0 == Writers[OutputType(filename)] && r.value.1 == filename
  {
    var filetype := OutputType(filename);
    if filetype !in Writers then Err(UnsupportedOutput(filetype)) else Ok((Writers[filetype], filename))
  }

  /** Without a filename the output is DOT source on standard output. */
  lemma StdoutIsDot()
    ensures WritePlan(None) == Ok((CompileDot, None))
  {
  }

  /** A file named `<stem>.<type>` is compiled by the writer of that type, if there is one. */
  lemma FileTypeFromName(dir: string, stem: string, filetype: string)
    requires |stem| > 0 && '/' !in stem && '.' !in stem
    requires |filetype| > 0 && '/' !in filetype && '.' !in filetype
    ensures OutputType(Some(dir + "/" + stem + "." + filetype)) == filetype
    ensures WritePlan(Some(dir + "/" + stem + "." + filetype)).Ok? <==> filetype in {"dot", "pdf"}
  {
    var name := stem + "." + filetype;
    assert dir + "/" + stem + "." + filetype == dir + "/" + name;
    FinalOfPath(dir, name);
    SuffixOfName(stem, filetype);
  }

  lemma SuffixOfName(stem: string, filetype: string)
    requires |stem| > 0 && '.' !in stem && |filetype| > 0 && '.' !in filetype
    ensures Suffix(stem + "." + filetype) == "." + filetype
  {
    var name := stem + "." + filetype;
    LastDotAfter(stem + ".", filetype);
    assert stem + "." + filetype == (stem + ".") + filetype;
    assert name[|stem|..] == "." + filetype;
  }

  /** A name with no dot inside it has no filetype, which no writer takes. */
  lemma NoSuffixUnsupported(name: string)
    requires '.' !in name
    ensures WritePlan(Some(name)).Err?
  {
    FinalIsSuffixOf(name);
    assert LastDot(FinalComponent(name)) == -1;
  }

  lemma {:induction false} FinalOfPath(dir: string, name: string)
    requires '/' !in name
    ensures FinalComponent(dir + "/" + name) == name
  {
    if name == [] {
      assert dir + "/" + name == dir + "/";
    } else {
      var n := |name| - 1;
      assert (dir + "/" + name)[..|dir + "/" + name| - 1] == dir + "/" + name[..n];
      FinalOfPath(dir, name[..n]);
      assert name == name[..n] + [name[n]];
    }
  }

  lemma {:induction false} FinalIsSuffixOf(path: string)
    ensures forall c :: c in FinalComponent(path) ==> c in path
  {
    if path != [] && path[|path| - 1] != '/' {
      FinalIsSuffixOf(path[..|path| - 1]);
    }
  }

  lemma {:induction false} LastDotAfter(prefix: string, rest: string)
    requires |prefix| > 0 && prefix[|prefix| - 1] == '.' && '.' !in rest
    ensures LastDot(prefix + rest) == |prefix| - 1
  {
    if rest == [] {
      assert prefix + rest == prefix;
    } else {
      var n := |rest| - 1;
      assert (prefix + rest)[..|prefix + rest| - 1] == prefix + rest[..n];
      LastDotAfter(prefix, rest[..n]);
    }
  }
}
