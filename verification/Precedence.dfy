/**
  Where an option's value comes from. The command line is parsed first; then `App::_process_config_file`
  reads the configuration files and `App::_process_env` the environment, each filling only options
  that are still empty. Options of subcommands are named by keys; which key an item names is a
  parameter, as are conversions of flags and the verdicts of validators.
 */
module Precedence {
  import opened Text
  import opened Options
  import opened Sections

  type Key = string

  datatype Spec = Spec(
    settings: Settings, configurable: bool,
    flagText: ConfigItem -> Option<string>,  // the flag value of an item with at most one input
    disableFlagOverride: bool, flagValues: seq<string>,
    accepts: seq<string> -> bool,            // validation, reduction and callback succeed
    envName: string, acceptsEnv: string -> bool)

  datatype Schema = Schema(
    specs: map<Key, Spec>,
    find: ConfigItem -> Option<Key>,
    knowsSection: ConfigItem -> bool,
    extrasAreErrors: bool, ignoreUnconfigurable: bool)
  {
    ghost predicate Valid() { forall item :: find(item).Some? ==> find(item).value in specs }
  }

  type Values = map<Key, seq<string>>

  predicate Complete(sc: Schema, values: Values) { values.Keys == sc.specs.Keys }

  // ----- what one item gives an empty option -----

  function AddedInputs(o: Settings, inputs: seq<string>): seq<string>
  {
    if inputs == [] then [] else Added(o, inputs[0]) + AddedInputs(o, inputs[1..])
  }

  predicate IsFlagText(spec: Spec, s: string)
  {
    if spec.flagValues == [] then s == "true" || s == "false" || s == "1" || s == "0" else s in spec.flagValues
  }

  /** The results the item adds; `None` where an exception ends the parse. */
  function Contribution(spec: Spec, item: ConfigItem): Option<seq<string>>
  {
    var o := spec.settings;
    if o.expectedMin == 0 && |item.inputs| <= 1 then
      match spec.flagText(item)
      case None => None
      case Some(text) => Some(Added(o, text))
    else if o.expectedMin == 0 && |item.inputs| > ItemsMax(o) && !o.policy.TakeAll? then
      if ItemsMax(o) > 1 || !spec.disableFlagOverride then None
      else if forall s <- item.inputs :: IsFlagText(spec, s) then Some(AddedInputs(o, item.inputs))
      else None
    else
      var added := AddedInputs(o, item.inputs);
      var filled := if added == [] && o.forceCallback then Added(o, o.defaultStr) else added;
      if spec.accepts(filled) then Some(filled) else None
  }

  // ----- items -----

  datatype Parsed = Thrown | Done(values: Values, used: bool)

  function ParseItem(sc: Schema, values: Values, item: ConfigItem): (r: Parsed)
    requires sc.Valid() && Complete(sc, values)
    ensures r.Done? ==> Complete(sc, r.values)
  {
    if item.name == OPEN || item.name == CLOSE then Done(values, sc.knowsSection(item))
    else
      match sc.find(item)
      case None => Done(values, false)
      case Some(k) =>
        var spec := sc.specs[k];
        if !spec.configurable then
          if sc.ignoreUnconfigurable then Done(values, false) else Thrown
        else if values[k] != [] then Done(values, true)
        else
          match Contribution(spec, item)
          case None => Thrown
          case Some(added) => Done(values[k := added], true)
  }

  function ParseItems(sc: Schema, values: Values, items: seq<ConfigItem>): (r: Parsed)
    requires sc.Valid() && Complete(sc, values)
    ensures r.Done? ==> Complete(sc, r.values)
    decreases items
  {
    if items == [] then Done(values, true)
    else
      match ParseItem(sc, values, items[0])
      case Thrown => Thrown
      case Done(next, used) => if !used && sc.extrasAreErrors then Thrown else ParseItems(sc, next, items[1..])
  }

  /** The item is a value for the option. */
  predicate Names(sc: Schema, item: ConfigItem, k: Key)
  {
    && item.name != OPEN && item.name != CLOSE
    && sc.find(item) == Some(k) && k in sc.specs && sc.specs[k].configurable
  }

  /** What the first item that names the option and adds anything adds; empty if there is none. */
  function FirstValue(sc: Schema, k: Key, items: seq<ConfigItem>): seq<string>
  {
    if items == [] then []
    else if Names(sc, items[0], k) && Contribution(sc.specs[k], items[0]).Some?
            && Contribution(sc.specs[k], items[0]).value != []
    then Contribution(sc.specs[k], items[0]).value
    else FirstValue(sc, k, items[1..])
  }

  /** First writer wins. */
  function Keep(first: seq<string>, later: seq<string>): seq<string> { if first != [] then first else later }

  lemma {:induction false} FirstWriterWins(sc: Schema, values: Values, items: seq<ConfigItem>, k: Key)
    requires sc.Valid() && Complete(sc, values) && k in sc.specs
    requires ParseItems(sc, values, items).Done?
    ensures ParseItems(sc, values, items).values[k] == Keep(values[k], FirstValue(sc, k, items))
    decreases items
  {
    if items != [] {
      hide Contribution;
      var next := ParseItem(sc, values, items[0]);
      FirstWriterWins(sc, next.values, items[1..], k);
    }
  }

  // ----- files -----

  type Files = map<string, seq<ConfigItem>>

  function ParseFiles(sc: Schema, fs: Files, values: Values, names: seq<string>, mustExist: bool): (r: Parsed)
    requires sc.Valid() && Complete(sc, values)
    ensures r.Done? ==> Complete(sc, r.values)
    decreases names
  {
    if names == [] then Done(values, true)
    else if names[0] !in fs then
      if mustExist then Thrown else ParseFiles(sc, fs, values, names[1..], mustExist)
    else
      match ParseItems(sc, values, fs[names[0]])
      case Thrown => Thrown
      case Done(next, _) => ParseFiles(sc, fs, next, names[1..], mustExist)
  }

  /** What a file holds for the option. */
  function FileValue(sc: Schema, fs: Files, k: Key, name: string): seq<string>
  {
    if name in fs then FirstValue(sc, k, fs[name]) else []
  }

  function FilesValue(sc: Schema, fs: Files, k: Key, names: seq<string>): seq<string>
  {
    if names == [] then [] else Keep(FileValue(sc, fs, k, names[0]), FilesValue(sc, fs, k, names[1..]))
  }

  lemma {:induction false} FilesInOrder(sc: Schema, fs: Files, values: Values, names: seq<string>, mustExist: bool, k: Key)
    requires sc.Valid() && Complete(sc, values) && k in sc.specs
    requires ParseFiles(sc, fs, values, names, mustExist).Done?
    ensures ParseFiles(sc, fs, values, names, mustExist).values[k] == Keep(values[k], FilesValue(sc, fs, k, names))
    decreases names
  {
    if names != [] {
      hide ParseItems, FirstValue;
      if names[0] in fs {
        var next := ParseItems(sc, values, fs[names[0]]);
        FirstWriterWins(sc, values, fs[names[0]], k);
        FilesInOrder(sc, fs, next.values, names[1..], mustExist, k);
      } else {
        FilesInOrder(sc, fs, values, names[1..], mustExist, k);
      }
    }
  }

  /** The option that names the configuration files. */
  datatype ConfigOption = ConfigOption(settings: Settings, given: seq<string>, envValue: string, required: bool)

  function ConfigResults(c: ConfigOption): seq<string>
  {
    var results := if c.given == [] && c.envValue != [] then Added(c.settings, c.envValue) else c.given;
    if results == [] && c.settings.forceCallback then Added(c.settings, c.settings.defaultStr) else results
  }

  function NoSum(results: seq<string>): string { [] }

  /** The files in the order in which they are read; `None` where the reduction throws. */
  function FileNames(c: ConfigOption): Option<seq<string>>
  {
    match Reduce(c.settings, NoSum, ConfigResults(c))
    case Mismatch => None
    case Out(list) => Some(Sent(list, ConfigResults(c)))
  }

  function ProcessFiles(sc: Schema, fs: Files, c: ConfigOption, values: Values): (r: Parsed)
    requires sc.Valid() && Complete(sc, values)
    ensures r.Done? ==> Complete(sc, r.values)
  {
    match FileNames(c)
    case None => Thrown
    case Some(names) =>
      if names == [] || names[0] == [] then (if c.required then Thrown else Done(values, true))
      else ParseFiles(sc, fs, values, names, c.required || c.given != [])
  }

  // ----- environment -----

  type Environment = map<string, string>

  function EnvValue(sc: Schema, env: Environment, k: Key): seq<string>
    requires k in sc.specs
  {
    var spec := sc.specs[k];
    if spec.envName != [] && spec.envName in env && env[spec.envName] != [] && spec.acceptsEnv(env[spec.envName])
    then Added(spec.settings, env[spec.envName]) else []
  }

  function ProcessEnv(sc: Schema, env: Environment, values: Values, keys: seq<Key>): (r: Values)
    requires Complete(sc, values) && forall k <- keys :: k in sc.specs
    ensures Complete(sc, r)
    decreases keys
  {
    if keys == [] then values
    else
      var k := keys[0];
      assert k in keys;
      ProcessEnv(sc, env, values[k := Keep(values[k], EnvValue(sc, env, k))], keys[1..])
  }

  lemma {:induction false} EnvFills(sc: Schema, env: Environment, values: Values, keys: seq<Key>, k: Key)
    requires Complete(sc, values) && (forall x <- keys :: x in sc.specs) && k in sc.specs
    ensures ProcessEnv(sc, env, values, keys)[k] == if k in keys then Keep(values[k], EnvValue(sc, env, k)) else values[k]
    decreases keys
  {
    hide EnvValue;
    if keys != [] {
      assert keys[0] in keys;
      var next := values[keys[0] := Keep(values[keys[0]], EnvValue(sc, env, keys[0]))];
      EnvFills(sc, env, next, keys[1..], k);
    }
  }

  // ----- the whole parse -----

  /** `App::_process` after the command line: files, then environment. */
  function Process(sc: Schema, fs: Files, c: ConfigOption, env: Environment, keys: seq<Key>, values: Values): Parsed
    requires sc.Valid() && Complete(sc, values) && forall k <- keys :: k in sc.specs
  {
    match ProcessFiles(sc, fs, c, values)
    case Thrown => Thrown
    case Done(next, _) => Done(ProcessEnv(sc, env, next, keys), true)
  }

  /** Command line before files before environment, for every option and every parse that does not throw. */
  lemma CommandLineThenFilesThenEnvironment(
    sc: Schema, fs: Files, c: ConfigOption, env: Environment, keys: seq<Key>, cli: Values, k: Key)
    requires sc.Valid() && Complete(sc, cli) && (forall x <- keys :: x in sc.specs) && k in keys
    requires Process(sc, fs, c, env, keys, cli).Done?
    ensures FileNames(c).Some?
    ensures
      var names := FileNames(c).value;
      var fromFiles := if names == [] || names[0] == [] then [] else FilesValue(sc, fs, k, names);
      Process(sc, fs, c, env, keys, cli).values[k] == Keep(cli[k], Keep(fromFiles, EnvValue(sc, env, k)))
  {
    hide EnvValue, FilesValue, ParseFiles, FileNames, ProcessEnv;
    var names := FileNames(c).value;
    var next := ProcessFiles(sc, fs, c, cli).values;
    EnvFills(sc, env, next, keys, k);
    if names != [] && names[0] != [] {
      FilesInOrder(sc, fs, cli, names, c.required || c.given != [], k);
    }
  }

  // ----- the last file given wins -----

  lemma ReversedSnoc(s: seq<string>, x: string)
    ensures Reversed(s + [x]) == [x] + Reversed(s)
  {}

  /** Reading a list of files from its end, the last one that holds a value decides. */
  lemma {:induction false} LastHolderDecides(sc: Schema, fs: Files, k: Key, given: seq<string>, j: nat)
    requires j < |given| && FileValue(sc, fs, k, given[j]) != []
    requires forall i :: j < i < |given| ==> FileValue(sc, fs, k, given[i]) == []
    ensures FilesValue(sc, fs, k, Reversed(given)) == FileValue(sc, fs, k, given[j])
    decreases |given|
  {
    hide FileValue;
    var n := |given| - 1;
    assert given == given[..n] + [given[n]];
    ReversedSnoc(given[..n], given[n]);
    assert Reversed(given)[1..] == Reversed(given[..n]);
    if j < n {
      LastHolderDecides(sc, fs, k, given[..n], j);
    }
  }

  lemma {:induction false} NoHolder(sc: Schema, fs: Files, k: Key, given: seq<string>)
    requires forall i :: 0 <= i < |given| ==> FileValue(sc, fs, k, given[i]) == []
    ensures FilesValue(sc, fs, k, given) == []
  {
    if given != [] {
      NoHolder(sc, fs, k, given[1..]);
    }
  }

  /** Of the files given on the command line the last `max(items, 1)` are read, from here on. */
  function FirstKept(c: ConfigOption): (n: nat)
    ensures n <= |c.given|
  {
    |c.given| - TrimSize(c.settings, |c.given|)
  }

  /** The files were given on the command line under the policy of `set_config`, and are not a lone `{}`. */
  predicate FilesGiven(c: ConfigOption)
  {
    && c.settings.policy.Reverse? && c.given != []
    && (c.given[FirstKept(c)..] != [EMPTY_MARK] || ItemsMin(c.settings) == 0)
  }

  /** The last of the files read that holds a value for the option. */
  predicate LastHolder(sc: Schema, fs: Files, c: ConfigOption, k: Key, j: nat)
  {
    && FirstKept(c) <= j < |c.given| && FileValue(sc, fs, k, c.given[j]) != []
    && forall i :: j < i < |c.given| ==> FileValue(sc, fs, k, c.given[i]) == []
  }

  /** An option left out on the command line takes the first value for it in the last file read that has one. */
  lemma LastGivenFileWins(
    sc: Schema, fs: Files, c: ConfigOption, env: Environment, keys: seq<Key>, cli: Values, k: Key, j: nat)
    requires sc.Valid() && Complete(sc, cli) && (forall x <- keys :: x in sc.specs) && k in keys
    ensures
      var r := Process(sc, fs, c, env, keys, cli);
      r.Done? && FilesGiven(c) && c.given[|c.given| - 1] != [] && cli[k] == [] && LastHolder(sc, fs, c, k, j)
      ==> r.values[k] == FileValue(sc, fs, k, c.given[j])
  {
    hide Process, EnvValue, FileValue, ItemsMax, ItemsMin, Reversed, FilesValue, FileNames, FirstKept;
    if Process(sc, fs, c, env, keys, cli).Done? && FilesGiven(c) && c.given[|c.given| - 1] != []
       && cli[k] == [] && LastHolder(sc, fs, c, k, j)
    {
      var kept := c.given[FirstKept(c)..];
      CommandLineThenFilesThenEnvironment(sc, fs, c, env, keys, cli, k);
      NamesAreReversed(c);
      assert Reversed(kept)[0] == c.given[|c.given| - 1];
      assert kept[j - FirstKept(c)] == c.given[j];
      LastHolderDecides(sc, fs, k, kept, j - FirstKept(c));
    }
  }

  /** Files given before those are not read: without a value in the others, the environment decides. */
  lemma EarlierFilesIgnored(
    sc: Schema, fs: Files, c: ConfigOption, env: Environment, keys: seq<Key>, cli: Values, k: Key)
    requires sc.Valid() && Complete(sc, cli) && (forall x <- keys :: x in sc.specs) && k in keys
    ensures
      var r := Process(sc, fs, c, env, keys, cli);
      r.Done? && FilesGiven(c)
      && (forall i :: FirstKept(c) <= i < |c.given| ==> FileValue(sc, fs, k, c.given[i]) == [])
      ==> r.values[k] == Keep(cli[k], EnvValue(sc, env, k))
  {
    hide Process, EnvValue, FileValue, ItemsMax, ItemsMin, Reversed, FilesValue, FileNames, FirstKept;
    if Process(sc, fs, c, env, keys, cli).Done? && FilesGiven(c)
       && (forall i :: FirstKept(c) <= i < |c.given| ==> FileValue(sc, fs, k, c.given[i]) == [])
    {
      CommandLineThenFilesThenEnvironment(sc, fs, c, env, keys, cli, k);
      NamesAreReversed(c);
      NoHolder(sc, fs, k, Reversed(c.given[FirstKept(c)..]));
    }
  }

  lemma NamesAreReversed(c: ConfigOption)
    requires FilesGiven(c)
    ensures FileNames(c) == Some(Reversed(c.given[FirstKept(c)..]))
  {
    hide ItemsMax, ItemsMin, Reduce, Sent, TrimSize, Reversed, Marked;
    TrimmingPolicies(c.settings, NoSum, c.given);
    NotMarked(c.settings, c.given[FirstKept(c)..]);
  }

  lemma NotMarked(o: Settings, kept: seq<string>)
    requires kept != [EMPTY_MARK] || ItemsMin(o) == 0
    ensures Marked(o, Reversed(kept)) == Reversed(kept)
  {
    hide Reversed;
    if Reversed(kept) == [EMPTY_MARK] {
      assert kept == [kept[0]] && Reversed(kept)[0] == kept[0];
    }
  }

  // ----- the class -----

  class App {
    const schema: Schema
    var values: Values

    ghost predicate Valid()
      reads this
    {
      schema.Valid() && Complete(schema, values)
    }

    constructor (schema: Schema, cli: Values)
      requires schema.Valid() && Complete(schema, cli)
      ensures Valid() && this.schema == schema && values == cli
    {
      this.schema, values := schema, cli;
    }

    method ParseSingleConfig(item: ConfigItem) returns (r: Parsed)
      requires Valid()
      modifies this
      ensures Valid() && r == ParseItem(schema, old(values), item)
      ensures values == if r.Thrown? then old(values) else r.values
    {
      hide Contribution;
      if item.name == OPEN || item.name == CLOSE {
        return Done(values, schema.knowsSection(item));
      }
      var op := schema.find(item);
      if op.None? {
        return Done(values, false);
      }
      var spec := schema.specs[op.value];
      if !spec.configurable {
        return if schema.ignoreUnconfigurable then Done(values, false) else Thrown;
      }
      if values[op.value] == [] {
        var added := Contribution(spec, item);
        if added.None? {
          return Thrown;
        }
        values := values[op.value := added.value];
      }
      r := Done(values, true);
    }

    method ParseConfig(items: seq<ConfigItem>) returns (ok: bool)
      requires Valid()
      modifies this
      ensures Valid()
      ensures ok <==> ParseItems(schema, old(values), items).Done?
      ensures ok ==> values == ParseItems(schema, old(values), items).values
    {
      hide ParseItem;
      ghost var start := values;
      for i := 0 to |items|
        invariant Valid()
        invariant ParseItems(schema, start, items) == ParseItems(schema, values, items[i..])
      {
        assert items[i..][1..] == items[i + 1..];
        var r := ParseSingleConfig(items[i]);
        if r.Thrown? || (!r.used && schema.extrasAreErrors) {
          return false;
        }
      }
      ok := true;
    }

    method ProcessConfigFiles(fs: Files, c: ConfigOption) returns (ok: bool)
      requires Valid()
      modifies this
      ensures Valid()
      ensures ok <==> ProcessFiles(schema, fs, c, old(values)).Done?
      ensures ok ==> values == ProcessFiles(schema, fs, c, old(values)).values
    {
      hide ParseItems, FileNames;
      var files := FileNames(c);
      if files.None? {
        return false;
      }
      var names := files.value;
      if names == [] || names[0] == [] {
        return !c.required;
      }
      ghost var start := values;
      var mustExist := c.required || c.given != [];
      for i := 0 to |names|
        invariant Valid()
        invariant ParseFiles(schema, fs, start, names, mustExist) == ParseFiles(schema, fs, values, names[i..], mustExist)
      {
        assert names[i..][1..] == names[i + 1..];
        if names[i] in fs {
          var parsed := ParseConfig(fs[names[i]]);
          if !parsed {
            return false;
          }
        } else if mustExist {
          return false;
        }
      }
      ok := true;
    }

    method ProcessEnvironment(env: Environment, keys: seq<Key>)
      requires Valid() && forall k <- keys :: k in schema.specs
      modifies this
      ensures Valid() && values == ProcessEnv(schema, env, old(values), keys)
    {
      hide EnvValue;
      ghost var start := values;
      for i := 0 to |keys|
        invariant Valid()
        invariant ProcessEnv(schema, env, start, keys) == ProcessEnv(schema, env, values, keys[i..])
      {
        assert keys[i] in keys && keys[i..][1..] == keys[i + 1..];
        if values[keys[i]] == [] {
          values := values[keys[i] := EnvValue(schema, env, keys[i])];
        } else {
          assert values == values[keys[i] := values[keys[i]]];
        }
      }
    }

    method ProcessAll(fs: Files, c: ConfigOption, env: Environment, keys: seq<Key>) returns (ok: bool)
      requires Valid() && forall k <- keys :: k in schema.specs
      modifies this
      ensures Valid()
      ensures ok <==> Process(schema, fs, c, env, keys, old(values)).Done?
      ensures ok ==> values == Process(schema, fs, c, env, keys, old(values)).values
    {
      ok := ProcessConfigFiles(fs, c);
      if ok {
        ProcessEnvironment(env, keys);
      }
    }
  }
}
