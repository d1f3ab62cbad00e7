/**
  Values survive the section logic: what the value lines carry, each under the section of the last
  header before it, is what the items that are no events carry, in the same order.
 */
module SectionValues {
  import opened Sections

  /** One input with the full path and the name it is given for. */
  datatype Given = Given(parents: Path, name: string, input: string)

  predicate IsEventName(name: string) { name == "++" || name == "--" }

  function Inputs(parents: Path, name: string, inputs: seq<string>): (r: seq<Given>)
    ensures |r| == |inputs| && forall i :: 0 <= i < |r| ==> r[i] == Given(parents, name, inputs[i])
  {
    seq(|inputs|, i requires 0 <= i < |inputs| => Given(parents, name, inputs[i]))
  }

  /** The line is a value that counts: not named like an event and within the layers. */
  predicate IsGiven(line: Line, section: Path, maxLayers: nat)
  {
    line.Value? && !IsEventName(line.name) && |section| + |line.dotted| <= maxLayers
  }

  /** What the lines give, read from the top: a header changes the section in force, nothing else does. */
  function Written(lines: seq<Line>, section: Path, maxLayers: nat): seq<Given>
  {
    if lines == [] then []
    else
      match lines[0]
      case Section(q) => Written(lines[1..], q, maxLayers)
      case Default => Written(lines[1..], [], maxLayers)
      case Value(dotted, name, inputs) =>
        (if IsGiven(lines[0], section, maxLayers) then Inputs(section + dotted, name, inputs) else [])
        + Written(lines[1..], section, maxLayers)
  }

  /** The names the lines give something for; a value may have no inputs. */
  function WrittenNames(lines: seq<Line>, section: Path, maxLayers: nat): set<(Path, string)>
  {
    if lines == [] then {}
    else
      match lines[0]
      case Section(q) => WrittenNames(lines[1..], q, maxLayers)
      case Default => WrittenNames(lines[1..], [], maxLayers)
      case Value(dotted, name, _) =>
        (if IsGiven(lines[0], section, maxLayers) then {(section + dotted, name)} else {})
        + WrittenNames(lines[1..], section, maxLayers)
  }

  // ----- what the items carry -----

  function Carried(item: ConfigItem): seq<Given>
  {
    if IsEventName(item.name) then [] else Inputs(item.parents, item.name, item.inputs)
  }

  function Read(out: seq<ConfigItem>): seq<Given>
  {
    if out == [] then [] else Carried(out[0]) + Read(out[1..])
  }

  function NamesRead(out: seq<ConfigItem>): set<(Path, string)>
  {
    set i: nat | i < |out| && !IsEventName(out[i].name) :: (out[i].parents, out[i].name)
  }

  lemma {:induction false} ReadAppend(a: seq<ConfigItem>, b: seq<ConfigItem>)
    ensures Read(a + b) == Read(a) + Read(b)
    ensures NamesRead(a + b) == NamesRead(a) + NamesRead(b)
  {
    hide Carried, NamesRead;
    NamesAppend(a, b);
    if a == [] {
      assert a + b == b;
    } else {
      ReadAppend(a[1..], b);
      assert (a + b)[1..] == a[1..] + b;
      ReadStep(a, b);
    }
  }

  lemma ReadStep(a: seq<ConfigItem>, b: seq<ConfigItem>)
    requires a != [] && (a + b)[1..] == a[1..] + b && Read(a[1..] + b) == Read(a[1..]) + Read(b)
    ensures Read(a + b) == Read(a) + Read(b)
  {
    hide Read, Carried;
    ReadUnfold(a);
    ReadUnfold(a + b);
    GivenAssoc(Carried(a[0]), Read(a[1..]), Read(b));
  }

  lemma ReadUnfold(out: seq<ConfigItem>)
    requires out != []
    ensures Read(out) == Carried(out[0]) + Read(out[1..])
  {}

  lemma GivenAssoc(a: seq<Given>, b: seq<Given>, c: seq<Given>)
    ensures a + (b + c) == a + b + c
  {}

  lemma NamesAppend(a: seq<ConfigItem>, b: seq<ConfigItem>)
    ensures NamesRead(a + b) == NamesRead(a) + NamesRead(b)
  {
    assert forall i :: 0 <= i < |a| ==> (a + b)[i] == a[i];
    assert forall i :: 0 <= i < |b| ==> (a + b)[|a| + i] == b[i];
  }

  predicate OnlyEvents(out: seq<ConfigItem>) { forall i :: 0 <= i < |out| ==> IsEventName(out[i].name) }

  lemma {:induction false} EventsCarryNothing(out: seq<ConfigItem>)
    requires OnlyEvents(out)
    ensures Read(out) == [] && NamesRead(out) == {}
  {
    if out != [] {
      EventsCarryNothing(out[1..]);
    }
  }

  lemma {:induction false} CloseDownIsEvents(item: ConfigItem, k: nat)
    requires IsEventName(item.name)
    ensures OnlyEvents(CloseDown(item, k))
    decreases |item.parents|
  {
    if |item.parents| > k {
      CloseDownIsEvents(item.(parents := Init(item.parents)), k);
    }
  }

  lemma {:induction false} OpenUpIsEvents(q: Path, k: nat)
    ensures OnlyEvents(OpenUp(q, k))
    decreases |q|
  {
    if |q| > k {
      OpenUpIsEvents(Init(q), k);
    }
  }

  /** Events in place of the last item, itself an event, or behind it leave the values as they are. */
  lemma AppendEvents(out: seq<ConfigItem>, events: seq<ConfigItem>)
    requires OnlyEvents(events)
    ensures Read(out + events) == Read(out) && NamesRead(out + events) == NamesRead(out)
  {
    ReadAppend(out, events);
    EventsCarryNothing(events);
    assert Read(out) + [] == Read(out) && NamesRead(out) + {} == NamesRead(out);
  }

  lemma SectionKeepsValues(out: seq<ConfigItem>, q: SectionPath)
    ensures Read(WithSection(out, q)) == Read(out) && NamesRead(WithSection(out, q)) == NamesRead(out)
  {
    hide Read, NamesRead, CloseDown, OpenUp, CommonPrefix;
    if ClosesFor(out, q) {
      var c := Shared(Last(out).parents, q);
      CloseDownIsEvents(Last(out), c);
      OpenUpIsEvents(q, c);
      AppendEvents(Init(out), [Last(out)]);
      assert Init(out) + [Last(out)] == out;
      AppendEvents(Init(out), CloseDown(Last(out), c));
      AppendEvents(Init(out) + CloseDown(Last(out), c), OpenUp(q, c));
    } else {
      OpenUpIsEvents(q, 0);
      AppendEvents(out, OpenUp(q, 0));
    }
  }

  lemma LeavingKeepsValues(g: Gen)
    ensures Read(LeaveCurrent(g)) == Read(g.out) && NamesRead(LeaveCurrent(g)) == NamesRead(g.out)
  {
    hide Read, NamesRead;
    if g.current != [] {
      AppendEvents(g.out, [Closing(g.current)]);
    }
  }

  lemma FinishKeepsValues(g: Gen)
    ensures Read(Finish(g)) == Read(g.out) && NamesRead(Finish(g)) == NamesRead(g.out)
  {
    hide Read, NamesRead, CloseDown;
    if g.current != [] {
      CloseDownIsEvents(Closing(g.current), 0);
      AppendEvents(g.out, CloseDown(Closing(g.current), 0));
    }
  }

  lemma ReadOne(item: ConfigItem)
    ensures Read([item]) == Carried(item)
    ensures NamesRead([item]) == if IsEventName(item.name) then {} else {(item.parents, item.name)}
  {
    assert [item][1..] == [] && Carried(item) + [] == Carried(item);
    assert [item][0] == item;
    assert !IsEventName(item.name) ==> (item.parents, item.name) in NamesRead([item]);
  }

  lemma MergedCarries(last: ConfigItem, inputs: seq<string>)
    ensures Carried(last.(inputs := last.inputs + inputs)) == Carried(last) + Carried(last.(inputs := inputs))
  {}

  /** A new item or new inputs of the last one: the values grow by exactly what the line carries. */
  lemma ValueIsRead(out: seq<ConfigItem>, item: ConfigItem)
    ensures Read(AddValue(out, item)) == Read(out) + Carried(item)
    ensures NamesRead(AddValue(out, item)) == NamesRead(out) + NamesRead([item])
  {
    hide Read, NamesRead, Carried, IsEventName;
    ReadOne(item);
    if out != [] && Last(out).name == item.name && Last(out).parents == item.parents {
      var last := Last(out);
      var merged := last.(inputs := last.inputs + item.inputs);
      ReadAppend(Init(out), [last]);
      assert Init(out) + [last] == out;
      ReadAppend(Init(out), [merged]);
      ReadOne(last);
      ReadOne(merged);
      MergedCarries(last, item.inputs);
      assert last.(inputs := item.inputs) == item;
    } else {
      ReadAppend(out, [item]);
    }
  }

  lemma StepReads(g: Gen, line: Line, maxLayers: nat)
    ensures
      var next := Step(g, line, maxLayers);
      var given := IsGiven(line, g.current, maxLayers);
      && next.current == (match line case Section(q) => q case Default => [] case Value(_, _, _) => g.current)
      && Read(next.out) == Read(g.out) + (if given then Inputs(g.current + line.dotted, line.name, line.inputs) else [])
      && NamesRead(next.out) == NamesRead(g.out) + if given then {(g.current + line.dotted, line.name)} else {}
  {
    hide Read, NamesRead, WithSection, AddValue, Inputs;
    LeavingKeepsValues(g);
    assert Read(g.out) + [] == Read(g.out);
    match line
    case Section(q) => SectionKeepsValues(LeaveCurrent(g), q);
    case Default =>
    case Value(dotted, name, inputs) =>
      var item := ConfigItem(g.current + dotted, name, inputs);
      ReadOne(item);
      ValueIsRead(g.out, item);
  }

  lemma {:induction false} RunReads(g: Gen, lines: seq<Line>, maxLayers: nat)
    ensures Read(Run(g, lines, maxLayers)) == Read(g.out) + Written(lines, g.current, maxLayers)
    ensures NamesRead(Run(g, lines, maxLayers)) == NamesRead(g.out) + WrittenNames(lines, g.current, maxLayers)
    decreases |lines|
  {
    hide Read, NamesRead, Inputs, Step;
    if lines == [] {
      FinishKeepsValues(g);
    } else {
      StepReads(g, lines[0], maxLayers);
      RunReads(Step(g, lines[0], maxLayers), lines[1..], maxLayers);
    }
  }

  /**
    The items of any input carry, in order, exactly the inputs of its value lines, each under the section
    of the last header before it, and name exactly what those lines name.
   */
  lemma ValuesAreKept(lines: seq<Line>, maxLayers: nat)
    ensures Read(Run(START, lines, maxLayers)) == Written(lines, [], maxLayers)
    ensures NamesRead(Run(START, lines, maxLayers)) == WrittenNames(lines, [], maxLayers)
  {
    NothingRead();
    hide Run, Read, NamesRead, Written, WrittenNames;
    RunReads(START, lines, maxLayers);
    assert [] + Written(lines, [], maxLayers) == Written(lines, [], maxLayers);
  }

  lemma NothingRead()
    ensures Read(START.out) == [] && NamesRead(START.out) == {}
  {}

  // ----- merging -----

  predicate SameValue(a: ConfigItem, b: ConfigItem)
  {
    !IsEventName(a.name) && a.name == b.name && a.parents == b.parents
  }

  /** No two neighbours give values under the same name. */
  predicate Merged(out: seq<ConfigItem>) { forall i :: 0 <= i < |out| - 1 ==> !SameValue(out[i], out[i + 1]) }

  lemma MergedAppend(out: seq<ConfigItem>, events: seq<ConfigItem>)
    requires Merged(out) && OnlyEvents(events)
    ensures Merged(out + events)
  {
    forall i | 0 <= i < |out + events| - 1
      ensures !SameValue((out + events)[i], (out + events)[i + 1])
    {
      if i + 1 < |out| {
        assert !SameValue(out[i], out[i + 1]);
      }
    }
  }

  lemma MergedSection(out: seq<ConfigItem>, q: SectionPath)
    requires Merged(out)
    ensures Merged(WithSection(out, q))
  {
    hide CloseDown, OpenUp, CommonPrefix, SameValue;
    if ClosesFor(out, q) {
      var c := Shared(Last(out).parents, q);
      CloseDownIsEvents(Last(out), c);
      OpenUpIsEvents(q, c);
      MergedAppend(Init(out), CloseDown(Last(out), c));
      MergedAppend(Init(out) + CloseDown(Last(out), c), OpenUp(q, c));
    } else {
      OpenUpIsEvents(q, 0);
      MergedAppend(out, OpenUp(q, 0));
    }
  }

  lemma MergedStep(g: Gen, line: Line, maxLayers: nat)
    requires Merged(g.out)
    ensures Merged(Step(g, line, maxLayers).out)
  {
    hide WithSection;
    if g.current != [] {
      MergedAppend(g.out, [Closing(g.current)]);
    }
    match line
    case Section(q) => MergedSection(LeaveCurrent(g), q);
    case Default =>
    case Value(dotted, name, inputs) =>
  }

  /** Values of one name that follow each other are one item. */
  lemma {:induction false} RunMerges(g: Gen, lines: seq<Line>, maxLayers: nat)
    requires Merged(g.out)
    ensures Merged(Run(g, lines, maxLayers))
    decreases |lines|
  {
    hide Step, Merged, CloseDown;
    if lines == [] {
      if g.current != [] {
        CloseDownIsEvents(Closing(g.current), 0);
        MergedAppend(g.out, CloseDown(Closing(g.current), 0));
      }
    } else {
      MergedStep(g, lines[0], maxLayers);
      RunMerges(Step(g, lines[0], maxLayers), lines[1..], maxLayers);
    }
  }
}
