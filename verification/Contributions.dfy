/**
  What a configuration item or an environment variable gives an option, in plain terms: which inputs
  are stored, how an argument with delimiters is cut, and exactly when reading the items throws.
 */
module Contributions {
  import opened Text
  import opened Options
  import opened Sections
  import opened Precedence
  import Separated

  // ----- what one argument is stored as -----

  function WithoutEmpty(pieces: seq<string>): seq<string>
  {
    if pieces == [] then [] else (if pieces[0] == [] then [] else [pieces[0]]) + WithoutEmpty(pieces[1..])
  }

  predicate Bracketed(s: string) { |s| >= 2 && s[0] == '[' && s[|s| - 1] == ']' }

  /** Not taken for a list in brackets. */
  predicate Plain(o: Settings, s: string) { !(o.allowExtraArgs && Bracketed(s)) }

  /** The argument is stored as it is, or as its pieces between delimiters without the empty ones. */
  function Stored(o: Settings, s: string): seq<string>
  {
    if o.delimiter == '\0' || o.delimiter !in s then [s] else WithoutEmpty(Separated.Pieces(s, [o.delimiter]))
  }

  function AllStored(o: Settings, inputs: seq<string>): seq<string>
  {
    if inputs == [] then [] else Stored(o, inputs[0]) + AllStored(o, inputs[1..])
  }

  lemma {:induction false} PieceEndFound(s: string, d: char)
    ensures d !in s[..PieceEnd(s, d)] && (PieceEnd(s, d) < |s| ==> s[PieceEnd(s, d)] == d)
  {
    if s != [] && s[0] != d {
      PieceEndFound(s[1..], d);
      var n := PieceEnd(s[1..], d);
      assert s[..n + 1] == [s[0]] + s[1..][..n];
    }
  }

  lemma FirstPiece(s: string, d: char)
    ensures
      var n := PieceEnd(s, d);
      Separated.Pieces(s, [d]) == if n < |s| then [s[..n]] + Separated.Pieces(s[n + 1..], [d]) else [s]
  {
    hide Separated.Pieces, Separated.FindFrom;
    var n := PieceEnd(s, d);
    PieceEndFound(s, d);
    Separated.PiecesUnfold(s, [d]);
    if n < |s| {
      Separated.FindChar(s[..n], d, s[n + 1..]);
      assert s == s[..n] + ([d] + s[n + 1..]);
    } else {
      Separated.FindChar(s, d, []);
    }
  }

  /** The pieces are those between the delimiters, without the empty ones. */
  lemma {:induction false} NonEmptyPiecesAre(s: string, d: char)
    ensures NonEmptyPieces(s, d) == WithoutEmpty(Separated.Pieces(s, [d]))
  {
    hide Separated.Pieces, PieceEnd;
    FirstPiece(s, d);
    var n := PieceEnd(s, d);
    if n < |s| {
      NonEmptyPiecesAre(s[n + 1..], d);
      var rest := Separated.Pieces(s[n + 1..], [d]);
      assert ([s[..n]] + rest)[1..] == rest;
    } else {
      assert s[..n] == s && [s][1..] == [];
      assert WithoutEmpty([s]) == if s == [] then [] else [s];
    }
  }

  lemma AddedIsStored(o: Settings, s: string)
    requires Plain(o, s)
    ensures Added(o, s) == Stored(o, s)
  {
    hide NonEmptyPieces;
    NonEmptyPiecesAre(s, o.delimiter);
  }

  lemma {:induction false} AddedInputsAreStored(o: Settings, inputs: seq<string>)
    requires forall s <- inputs :: Plain(o, s)
    ensures AddedInputs(o, inputs) == AllStored(o, inputs)
  {
    hide Added, Stored;
    if inputs != [] {
      AddedIsStored(o, inputs[0]);
      AddedInputsAreStored(o, inputs[1..]);
    }
  }

  lemma {:induction false} StoredWhole(o: Settings, inputs: seq<string>)
    requires o.delimiter == '\0' || forall s <- inputs :: o.delimiter !in s
    ensures AllStored(o, inputs) == inputs
  {
    if inputs != [] {
      StoredWhole(o, inputs[1..]);
      assert inputs == [inputs[0]] + inputs[1..];
    }
  }

  /** A list in brackets is stored as its parts between commas, where no part is a list itself or cut again. */
  lemma VectorIsStored(o: Settings, s: string)
    requires o.allowExtraArgs && Bracketed(s)
    requires forall p <- WithoutEmpty(Separated.Pieces(s[1..|s| - 1], [','])) :: Plain(o, p)
    ensures Added(o, s) == AllStored(o, WithoutEmpty(Separated.Pieces(s[1..|s| - 1], [','])))
  {
    hide NonEmptyPieces, Stored;
    NonEmptyPiecesAre(s[1..|s| - 1], ',');
    AddedAllAreStored(o, NonEmptyPieces(s[1..|s| - 1], ','), |s|);
  }

  lemma {:induction false} AddedAllAreStored(o: Settings, ss: seq<string>, bound: nat)
    requires (forall p <- ss :: |p| < bound) && forall p <- ss :: Plain(o, p)
    ensures AddedAll(o, ss, bound) == AllStored(o, ss)
  {
    hide Added, Stored;
    if ss != [] {
      AddedIsStored(o, ss[0]);
      AddedAllAreStored(o, ss[1..], bound);
    }
  }

  // ----- one item -----

  /** The item names an option that is still empty. */
  predicate Fills(sc: Schema, values: Values, item: ConfigItem, k: Key)
  {
    && sc.find(item) == Some(k) && item.name != "++" && item.name != "--"
    && k in sc.specs && sc.specs[k].configurable && k in values && values[k] == []
  }

  /** An option that expects values gets the inputs, or the parse ends where they are not accepted. */
  lemma InputsStored(sc: Schema, values: Values, item: ConfigItem, k: Key)
    requires sc.Valid() && Complete(sc, values) && Fills(sc, values, item, k) && item.inputs != []
    requires sc.specs[k].settings.expectedMin > 0 && forall s <- item.inputs :: Plain(sc.specs[k].settings, s)
    ensures
      var spec := sc.specs[k];
      var o, stored := spec.settings, AllStored(spec.settings, item.inputs);
      && (stored != [] ==> ParseItem(sc, values, item) == if spec.accepts(stored) then Done(values[k := stored], true) else Thrown)
      && (o.delimiter == '\0' || (forall s <- item.inputs :: o.delimiter !in s) ==> stored == item.inputs)
  {
    hide AddedInputs, AllStored, Added;
    var o := sc.specs[k].settings;
    AddedInputsAreStored(o, item.inputs);
    if o.delimiter == '\0' || forall s <- item.inputs :: o.delimiter !in s {
      StoredWhole(o, item.inputs);
    }
  }

  /** Without inputs the option takes its default where the callback is forced. */
  lemma NoInputsStored(sc: Schema, values: Values, item: ConfigItem, k: Key)
    requires sc.Valid() && Complete(sc, values) && Fills(sc, values, item, k) && item.inputs == []
    requires sc.specs[k].settings.expectedMin > 0 && Plain(sc.specs[k].settings, sc.specs[k].settings.defaultStr)
    ensures
      var spec := sc.specs[k];
      var stored := if spec.settings.forceCallback then Stored(spec.settings, spec.settings.defaultStr) else [];
      ParseItem(sc, values, item) == if spec.accepts(stored) then Done(values[k := stored], true) else Thrown
  {
    hide Added, Stored;
    AddedIsStored(sc.specs[k].settings, sc.specs[k].settings.defaultStr);
  }

  /** A flag with at most one input takes the text of the flag value. */
  lemma FlagStored(sc: Schema, values: Values, item: ConfigItem, k: Key)
    requires sc.Valid() && Complete(sc, values) && Fills(sc, values, item, k)
    requires sc.specs[k].settings.expectedMin == 0 && |item.inputs| <= 1
    ensures
      var spec := sc.specs[k];
      match spec.flagText(item)
      case None => ParseItem(sc, values, item) == Thrown
      case Some(text) =>
        Plain(spec.settings, text) ==> ParseItem(sc, values, item) == Done(values[k := Stored(spec.settings, text)], true)
  {
    hide Added, Stored;
    var spec := sc.specs[k];
    if spec.flagText(item).Some? && Plain(spec.settings, spec.flagText(item).value) {
      AddedIsStored(spec.settings, spec.flagText(item).value);
    }
  }

  /**
    A flag with more inputs than it can take, unless it takes all: an error if it may take several or may
    be overridden, or if an input is none of the known flag values.
   */
  lemma FlagInputsStored(sc: Schema, values: Values, item: ConfigItem, k: Key)
    requires sc.Valid() && Complete(sc, values) && Fills(sc, values, item, k)
    requires sc.specs[k].settings.expectedMin == 0 && |item.inputs| > 1
    requires |item.inputs| > ItemsMax(sc.specs[k].settings) && sc.specs[k].settings.policy != TakeAll
    requires forall s <- item.inputs :: Plain(sc.specs[k].settings, s)
    ensures
      var spec := sc.specs[k];
      var known := if spec.flagValues == [] then {"true", "false", "1", "0"} else set s | s in spec.flagValues;
      ParseItem(sc, values, item) ==
      if ItemsMax(spec.settings) <= 1 && spec.disableFlagOverride && forall s <- item.inputs :: s in known
      then Done(values[k := AllStored(spec.settings, item.inputs)], true) else Thrown
  {
    hide AddedInputs, AllStored, Added, ItemsMax;
    AddedInputsAreStored(sc.specs[k].settings, item.inputs);
  }

  /** A flag with more than one input that it can take is treated like an option that expects values. */
  lemma FlagTakesInputs(sc: Schema, values: Values, item: ConfigItem, k: Key)
    requires sc.Valid() && Complete(sc, values) && Fills(sc, values, item, k)
    requires sc.specs[k].settings.expectedMin == 0 && |item.inputs| > 1
    requires |item.inputs| <= ItemsMax(sc.specs[k].settings) || sc.specs[k].settings.policy == TakeAll
    requires forall s <- item.inputs :: Plain(sc.specs[k].settings, s)
    ensures
      var spec := sc.specs[k];
      var stored := AllStored(spec.settings, item.inputs);
      stored != [] ==>
        ParseItem(sc, values, item) == if spec.accepts(stored) then Done(values[k := stored], true) else Thrown
  {
    hide AddedInputs, AllStored, Added, ItemsMax;
    AddedInputsAreStored(sc.specs[k].settings, item.inputs);
  }

  // ----- all items -----

  lemma ParseItemFills(sc: Schema, values: Values, item: ConfigItem, k: Key)
    requires sc.Valid() && Complete(sc, values) && k in sc.specs && ParseItem(sc, values, item).Done?
    ensures ParseItem(sc, values, item).values[k] == Keep(values[k], FirstValue(sc, k, [item]))
  {
    hide Contribution;
    assert [item][1..] == [];
  }

  lemma FirstValueStep(sc: Schema, k: Key, items: seq<ConfigItem>)
    requires items != []
    ensures FirstValue(sc, k, items) == Keep(FirstValue(sc, k, [items[0]]), FirstValue(sc, k, items[1..]))
  {
    hide Contribution;
    assert [items[0]][1..] == [];
  }

  /** The item at `i` ends the parse, given what the items before it leave in `values`. */
  predicate Faulty(sc: Schema, values: Values, items: seq<ConfigItem>, i: nat)
    requires i < |items| && Complete(sc, values)
  {
    var item := items[i];
    if item.name == "++" || item.name == "--" then sc.extrasAreErrors && !sc.knowsSection(item)
    else
      match sc.find(item)
      case None => sc.extrasAreErrors
      case Some(k) =>
        && k in sc.specs
        && if !sc.specs[k].configurable then !sc.ignoreUnconfigurable || sc.extrasAreErrors
           else
             && Keep(values[k], FirstValue(sc, k, items[..i])) == []
             && Contribution(sc.specs[k], item).None?
  }

  lemma FaultyLater(sc: Schema, values: Values, items: seq<ConfigItem>, i: nat)
    requires sc.Valid() && Complete(sc, values) && i + 1 < |items| && ParseItem(sc, values, items[0]).Done?
    ensures Faulty(sc, values, items, i + 1) <==> Faulty(sc, ParseItem(sc, values, items[0]).values, items[1..], i)
  {
    hide Contribution, FirstValue, ParseItem;
    var item := items[i + 1];
    if sc.find(item).Some? {
      var k := sc.find(item).value;
      ParseItemFills(sc, values, items[0], k);
      FirstValueStep(sc, k, items[..i + 1]);
      assert items[..i + 1][1..] == items[1..][..i];
    }
  }

  lemma FaultyFirst(sc: Schema, values: Values, items: seq<ConfigItem>)
    requires sc.Valid() && Complete(sc, values) && items != []
    ensures
      var r := ParseItem(sc, values, items[0]);
      Faulty(sc, values, items, 0) <==> r.Thrown? || (!r.used && sc.extrasAreErrors)
  {
    hide Contribution;
    assert items[..0] == [];
    assert forall k :: FirstValue(sc, k, []) == [];
  }

  /** Reading the items throws if and only if one of them is at fault. */
  lemma {:induction false} ThrowsIffFaulty(sc: Schema, values: Values, items: seq<ConfigItem>)
    requires sc.Valid() && Complete(sc, values)
    ensures ParseItems(sc, values, items).Thrown? <==> exists i :: 0 <= i < |items| && Faulty(sc, values, items, i)
    decreases items
  {
    hide Faulty, ParseItem;
    if items != [] {
      FaultyFirst(sc, values, items);
      var r := ParseItem(sc, values, items[0]);
      if !Faulty(sc, values, items, 0) {
        ThrowsIffFaulty(sc, r.values, items[1..]);
        if i :| 0 <= i < |items| && Faulty(sc, values, items, i) {
          FaultyLater(sc, values, items, i - 1);
        }
        if i :| 0 <= i < |items| - 1 && Faulty(sc, r.values, items[1..], i) {
          FaultyLater(sc, values, items, i);
        }
      }
    }
  }

  lemma {:induction false} FirstNamer(sc: Schema, k: Key, items: seq<ConfigItem>, j: nat)
    requires j < |items| && Names(sc, items[j], k) && forall i :: 0 <= i < j ==> !Names(sc, items[i], k)
    requires Contribution(sc.specs[k], items[j]).Some? && Contribution(sc.specs[k], items[j]).value != []
    ensures FirstValue(sc, k, items) == Contribution(sc.specs[k], items[j]).value
  {
    hide Contribution, Names;
    if j > 0 {
      FirstNamer(sc, k, items[1..], j - 1);
    }
  }

  /** An empty option that expects values holds exactly the inputs of the first item that names it. */
  lemma FirstNamerDecides(sc: Schema, values: Values, items: seq<ConfigItem>, k: Key, j: nat)
    requires sc.Valid() && Complete(sc, values) && k in sc.specs && values[k] == []
    requires j < |items| && Fills(sc, values, items[j], k)
    requires forall i :: 0 <= i < j ==> sc.find(items[i]) != Some(k)
    requires items[j].inputs != [] && sc.specs[k].settings.expectedMin > 0
    requires
      var o := sc.specs[k].settings;
      forall s <- items[j].inputs :: Plain(o, s) && (o.delimiter == '\0' || o.delimiter !in s)
    ensures
      var r := ParseItems(sc, values, items);
      && (r.Done? ==> sc.specs[k].accepts(items[j].inputs) && r.values[k] == items[j].inputs)
      && (!sc.specs[k].accepts(items[j].inputs) ==> r.Thrown?)
  {
    var spec, inputs := sc.specs[k], items[j].inputs;
    AddedInputsAreStored(spec.settings, inputs);
    StoredWhole(spec.settings, inputs);
    assert Contribution(spec, items[j]) == if spec.accepts(inputs) then Some(inputs) else None;
    hide Contribution, AddedInputs, AllStored, ParseItems;
    NothingBefore(sc, k, items[..j]);
    if !spec.accepts(inputs) {
      assert Faulty(sc, values, items, j);
    } else {
      FirstNamer(sc, k, items, j);
    }
    ThrowsIffFaulty(sc, values, items);
    if ParseItems(sc, values, items).Done? {
      FirstWriterWins(sc, values, items, k);
    }
  }

  lemma {:induction false} NothingBefore(sc: Schema, k: Key, items: seq<ConfigItem>)
    requires forall i :: 0 <= i < |items| ==> sc.find(items[i]) != Some(k)
    ensures FirstValue(sc, k, items) == []
  {
    if items != [] {
      NothingBefore(sc, k, items[1..]);
    }
  }

  // ----- files and environment -----

  /** A file that has to exist and does not ends the parse; one that need not is passed over. */
  lemma {:induction false} MissingFile(sc: Schema, fs: Files, values: Values, names: seq<string>, mustExist: bool, i: nat)
    requires sc.Valid() && Complete(sc, values) && i < |names| && names[i] !in fs
    ensures
      ParseFiles(sc, fs, values, names, mustExist) ==
      if mustExist then Thrown else ParseFiles(sc, fs, values, names[..i] + names[i + 1..], mustExist)
    decreases i
  {
    hide ParseItems;
    var rest := names[..i] + names[i + 1..];
    if i == 0 {
      assert rest == names[1..];
    } else {
      assert rest[0] == names[0] && rest[1..] == names[1..][..i - 1] + names[1..][i..];
      if names[0] !in fs {
        MissingFile(sc, fs, values, names[1..], mustExist, i - 1);
      } else if ParseItems(sc, values, fs[names[0]]).Done? {
        MissingFile(sc, fs, ParseItems(sc, values, fs[names[0]]).values, names[1..], mustExist, i - 1);
      }
    }
  }

  /** The file may also be named by the environment or by default; then it need not exist. */
  lemma NamedOtherwise(c: ConfigOption)
    requires c.settings.policy.Reverse? && c.given == []
    requires Plain(c.settings, c.envValue) && Plain(c.settings, c.settings.defaultStr)
    requires c.settings.delimiter == '\0' && c.envValue != EMPTY_MARK && c.settings.defaultStr != EMPTY_MARK
    ensures
      FileNames(c) ==
      if c.envValue != [] then Some([c.envValue])
      else if c.settings.forceCallback then Some([c.settings.defaultStr])
      else Some([])
  {
    hide ItemsMax, ItemsMin, Reversed;
    AddedIsStored(c.settings, c.envValue);
    AddedIsStored(c.settings, c.settings.defaultStr);
    assert |ConfigResults(c)| <= 1;
  }

  /** An option that is empty after the files takes the text of its variable, if that is accepted. */
  lemma EnvironmentStored(sc: Schema, env: Environment, values: Values, keys: seq<Key>, k: Key)
    requires Complete(sc, values) && (forall x <- keys :: x in sc.specs) && k in keys && values[k] == []
    ensures
      var spec := sc.specs[k];
      if spec.envName == [] || spec.envName !in env || env[spec.envName] == [] then ProcessEnv(sc, env, values, keys)[k] == []
      else
        var text := env[spec.envName];
        Plain(spec.settings, text) ==>
          ProcessEnv(sc, env, values, keys)[k] == if spec.acceptsEnv(text) then Stored(spec.settings, text) else []
  {
    hide ProcessEnv, Added, Stored;
    EnvFills(sc, env, values, keys, k);
    var spec := sc.specs[k];
    if spec.envName in env && Plain(spec.settings, env[spec.envName]) {
      AddedIsStored(spec.settings, env[spec.envName]);
    }
  }

  /**
    Configuration files: without a name the parse goes on unless a file is required; a file that is missing
    ends it if a file is required or was named on the command line, and is passed over otherwise.
   */
  lemma ConfigFileRequired(sc: Schema, fs: Files, c: ConfigOption, values: Values, i: nat)
    requires sc.Valid() && Complete(sc, values) && FileNames(c).Some?
    ensures
      var names, r := FileNames(c).value, ProcessFiles(sc, fs, c, values);
      if names == [] || names[0] == [] then r == if c.required then Thrown else Done(values, true)
      else if i < |names| && names[i] !in fs then
        r == if c.required || c.given != [] then Thrown
             else ParseFiles(sc, fs, values, names[..i] + names[i + 1..], false)
      else true
  {
    hide ParseFiles, FileNames;
    var names := FileNames(c).value;
    if i < |names| && names[i] !in fs {
      MissingFile(sc, fs, values, names, c.required || c.given != [], i);
    }
  }
}
