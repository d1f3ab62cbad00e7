/**
  The events that `from_config` generates are well nested exactly for the tidy inputs.

  A consumer of the item list (`App::_parse_single_config`) follows the `++` and `--` items
  down and up the tree of subcommands. `Replay` is that reading: a stack of section names on
  which `++p` pushes the last name of `p`, `--p` pops it, and a value belongs below the stack.
 */
module SectionNesting {
  import opened Sections

  datatype Stack = Broken | At(path: Path)

  function ReplayOne(s: Stack, e: ConfigItem): Stack
  {
    if s.Broken? then Broken
    else if e.name == OPEN then
      if e.parents != [] && s.path == Init(e.parents) then At(e.parents) else Broken
    else if e.name == CLOSE then
      if e.parents != [] && s.path == e.parents then At(Init(e.parents)) else Broken
    else
      if s.path <= e.parents then s else Broken
  }

  function Replay(out: seq<ConfigItem>): Stack
  {
    if out == [] then At([]) else ReplayOne(Replay(Init(out)), Last(out))
  }

  /** Every section is opened below its parent, closed on top of the stack, and none stays open. */
  predicate WellNested(out: seq<ConfigItem>) { Replay(out) == At([]) }

  // ----- the condition on the input -----

  /** The line's item cannot be taken for an event. */
  predicate Proper(line: Line) { line.Value? ==> line.name != OPEN && line.name != CLOSE }

  predicate AllProper(lines: seq<Line>) { forall l <- lines :: Proper(l) }

  /** Skipping repeated `[default]` headers and dropped values, the next line is a section header. */
  predicate SectionNext(lines: seq<Line>, maxLayers: nat)
  {
    && lines != []
    && !Kept(lines[0], [], maxLayers)
    && (lines[0].Section? || SectionNext(lines[1..], maxLayers))
  }

  /**
    Whenever `[default]` leaves a section of depth two or more, another section header follows
    before any value is kept and before the end. `depth` is the depth of the section in force.
   */
  predicate Tidy(lines: seq<Line>, depth: nat, maxLayers: nat)
  {
    lines == [] ||
    match lines[0]
    case Section(q) => Tidy(lines[1..], |q|, maxLayers)
    case Default => (depth >= 2 ==> SectionNext(lines[1..], maxLayers)) && Tidy(lines[1..], 0, maxLayers)
    case Value(_, _, _) => Tidy(lines[1..], depth, maxLayers)
  }

  // ----- replaying the closed forms -----

  lemma ReplaySnoc(out: seq<ConfigItem>, e: ConfigItem)
    ensures Replay(out + [e]) == ReplayOne(Replay(out), e)
  {
    assert Init(out + [e]) == out;
  }

  lemma {:induction false} ReplayBroken(out: seq<ConfigItem>, more: seq<ConfigItem>)
    requires Replay(out).Broken?
    ensures Replay(out + more).Broken?
    decreases |more|
  {
    if more == [] {
      assert out + more == out;
    } else {
      ReplayBroken(out, Init(more));
      assert out + more == (out + Init(more)) + [Last(more)];
      ReplaySnoc(out + Init(more), Last(more));
    }
  }

  lemma {:induction false} ReplayCloseDown(out: seq<ConfigItem>, p: Path, k: nat)
    requires k <= |p| && Replay(out) == At(p)
    ensures Replay(out + CloseDown(Closing(p), k)) == At(p[..k])
    decreases |p|
  {
    if |p| == k {
      assert out + [] == out && p[..k] == p;
    } else {
      var rest := CloseDown(Closing(Init(p)), k);
      ReplaySnoc(out, Closing(p));
      ReplayCloseDown(out + [Closing(p)], Init(p), k);
      assert Init(p)[..k] == p[..k];
      assert out + [Closing(p)] + rest == out + CloseDown(Closing(p), k) by {
        assert CloseDown(Closing(p), k) == [Closing(p)] + rest;
      }
    }
  }

  lemma {:induction false} ReplayOpenUp(out: seq<ConfigItem>, q: Path, k: nat)
    requires k <= |q| && Replay(out) == At(q[..k])
    ensures Replay(out + OpenUp(q, k)) == At(q)
    decreases |q|
  {
    if |q| == k {
      assert out + [] == out && q[..k] == q;
    } else {
      assert Init(q)[..k] == q[..k];
      ReplayOpenUp(out, Init(q), k);
      ReplaySnoc(out + OpenUp(Init(q), k), Opening(q));
      assert out + OpenUp(q, k) == out + OpenUp(Init(q), k) + [Opening(q)];
    }
  }

  // ----- one header -----

  /** The part of the output that a new section header leaves as it is. */
  function Settled(out: seq<ConfigItem>): seq<ConfigItem>
  {
    if EndsInClose(out) then Init(out) else out
  }

  /** The output ends in the close of the section `p`, still open just before. */
  ghost predicate Closes(out: seq<ConfigItem>, p: Path)
  {
    p != [] && EndsInClose(out) && Last(out) == Closing(p) && Replay(Init(out)) == At(p)
  }

  lemma SectionAfterClose(out: seq<ConfigItem>, p: Path, q: SectionPath)
    requires Closes(out, p)
    ensures Replay(WithSection(out, q)) == At(q)
  {
    var c := Shared(p, q);
    ReplayCloseDown(Init(out), p, c);
    assert p[..c] == q[..c];
    ReplayOpenUp(Init(out) + CloseDown(Closing(p), c), q, c);
  }

  lemma SectionAfterValue(out: seq<ConfigItem>, q: SectionPath)
    requires !EndsInClose(out)
    ensures Replay(out) == At([]) ==> Replay(WithSection(out, q)) == At(q)
    ensures Replay(out) != At([]) ==> Replay(WithSection(out, q)).Broken?
  {
    if Replay(out) == At([]) {
      ReplayOpenUp(out, q, 0);
    } else {
      OpenUpFirst(q);
      ReplaySnoc(out, Opening(q[..1]));
      ReplayBroken(out + [Opening(q[..1])], OpenUp(q, 1));
      assert out + OpenUp(q, 0) == out + [Opening(q[..1])] + OpenUp(q, 1);
    }
  }

  lemma {:induction false} OpenUpFirst(q: Path)
    requires q != []
    ensures OpenUp(q, 0) == [Opening(q[..1])] + OpenUp(q, 1)
    decreases |q|
  {
    if |q| == 1 {
      assert OpenUp(Init(q), 0) == [] && q[..1] == q;
    } else {
      OpenUpFirst(Init(q));
      assert Init(q)[..1] == q[..1];
    }
  }

  // ----- invariants of the generator -----

  /** In a section the stack is its path; in the default section the stack is empty. */
  ghost predicate InStep(g: Gen)
  {
    && Replay(g.out) == At(g.current)
    && (g.current == [] && EndsInClose(g.out) ==> |Last(g.out).parents| == 1 && Closes(g.out, Last(g.out).parents))
  }

  /** `[default]` has closed one level of a deeper section; a section header would catch up. */
  ghost predicate Pending(g: Gen)
  {
    && g.current == []
    && EndsInClose(g.out) && 2 <= |Last(g.out).parents| && Closes(g.out, Last(g.out).parents)
  }

  /** No continuation can be well nested any more. */
  ghost predicate Lost(g: Gen)
  {
    || Replay(Settled(g.out)).Broken?
    || (g.current == [] && !EndsInClose(g.out) && Replay(g.out) != At([]))
  }

  lemma ReplayAddValue(out: seq<ConfigItem>, item: ConfigItem)
    requires item.name != OPEN && item.name != CLOSE
    ensures Replay(AddValue(out, item)) == ReplayOne(Replay(out), item)
    ensures !EndsInClose(AddValue(out, item))
  {
    if out != [] && Last(out).name == item.name && Last(out).parents == item.parents {
      ReplaySnoc(Init(out), Last(out).(inputs := Last(out).inputs + item.inputs));
    } else {
      ReplaySnoc(out, item);
    }
  }

  lemma InStepKept(g: Gen, line: Line, maxLayers: nat)
    requires InStep(g) && Proper(line)
    ensures line.Section? ==> InStep(Step(g, line, maxLayers))
    ensures line.Value? ==> InStep(Step(g, line, maxLayers))
    ensures line.Default? && |g.current| <= 1 ==> InStep(Step(g, line, maxLayers))
    ensures line.Default? && |g.current| >= 2 ==> Pending(Step(g, line, maxLayers))
  {
    var left := LeaveCurrent(g);
    if g.current != [] {
      assert Init(left) == g.out;
      assert Closes(left, g.current);
    }
    match line
    case Section(q) =>
      if EndsInClose(left) {
        SectionAfterClose(left, Last(left).parents, q);
      } else {
        SectionAfterValue(left, q);
      }
    case Default =>
    case Value(dotted, name, inputs) =>
      ReplayAddValue(g.out, ConfigItem(g.current + dotted, name, inputs));
  }

  lemma PendingStep(g: Gen, line: Line, maxLayers: nat)
    requires Pending(g) && Proper(line)
    ensures line.Section? ==> InStep(Step(g, line, maxLayers))
    ensures Kept(line, [], maxLayers) ==> Lost(Step(g, line, maxLayers))
    ensures !line.Section? && !Kept(line, [], maxLayers) ==> Step(g, line, maxLayers) == g
  {
    match line
    case Section(q) => SectionAfterClose(g.out, Last(g.out).parents, q);
    case Default =>
    case Value(dotted, name, inputs) =>
      ReplayAddValue(g.out, ConfigItem(g.current + dotted, name, inputs));
  }

  lemma LostStaysLost(g: Gen, line: Line, maxLayers: nat)
    requires Lost(g) && Proper(line)
    ensures Lost(Step(g, line, maxLayers))
  {
    hide Replay, ReplayOne, WithSection, AddValue, CloseDown, OpenUp;
    SettledBroken(g.out);
    match line
    case Section(q) => LostSection(g, q);
    case Default =>
      if g.current != [] {
        assert Settled(g.out + [Closing(g.current)]) == g.out;
      }
    case Value(dotted, name, inputs) => LostValue(g, ConfigItem(g.current + dotted, name, inputs));
  }

  lemma SettledBroken(out: seq<ConfigItem>)
    ensures Replay(Settled(out)).Broken? ==> Replay(out).Broken?
  {
    if Replay(Settled(out)).Broken? && EndsInClose(out) {
      ReplayBroken(Init(out), [Last(out)]);
      assert Init(out) + [Last(out)] == out;
    }
  }

  lemma LostValue(g: Gen, item: ConfigItem)
    requires Lost(g) && item.name != OPEN && item.name != CLOSE
    ensures Lost(Gen(AddValue(g.out, item), g.current))
  {
    hide AddValue;
    SettledBroken(g.out);
    ReplayAddValue(g.out, item);
  }

  lemma LostSection(g: Gen, q: SectionPath)
    requires Lost(g)
    requires Replay(Settled(g.out)).Broken? ==> Replay(g.out).Broken?
    ensures Replay(WithSection(LeaveCurrent(g), q)).Broken?
    ensures Settled(WithSection(LeaveCurrent(g), q)) == WithSection(LeaveCurrent(g), q)
  {
    hide Replay, CloseDown, OpenUp, CommonPrefix, WithSection;
    var left := LeaveCurrent(g);
    if g.current != [] {
      assert Init(left) == g.out;
    }
    if EndsInClose(left) {
      BrokenSection(left, q);
    } else {
      SectionAfterValue(left, q);
    }
    SectionEndsInOpening(left, q);
  }

  lemma BrokenSection(out: seq<ConfigItem>, q: SectionPath)
    requires EndsInClose(out) && Replay(Init(out)).Broken?
    ensures Replay(WithSection(out, q)).Broken?
  {
    hide Replay, CloseDown, OpenUp, CommonPrefix;
    if ClosesFor(out, q) {
      var c := Shared(Last(out).parents, q);
      ReplayBroken(Init(out), CloseDown(Last(out), c) + OpenUp(q, c));
      assert WithSection(out, q) == Init(out) + (CloseDown(Last(out), c) + OpenUp(q, c));
    } else {
      ReplayBroken(Init(out), [Last(out)] + OpenUp(q, 0));
      assert WithSection(out, q) == Init(out) + ([Last(out)] + OpenUp(q, 0));
    }
  }

  lemma SectionEndsInOpening(out: seq<ConfigItem>, q: SectionPath)
    ensures !EndsInClose(WithSection(out, q))
  {
    hide CloseDown, CommonPrefix;
    var k := if EndsInClose(out) then Shared(Last(out).parents, q) else 0;
    assert OpenUp(q, k) != [] && Last(OpenUp(q, k)) == Opening(q);
  }

  // ----- main theorem -----

  lemma FinishInStep(g: Gen)
    requires InStep(g)
    ensures WellNested(Finish(g))
  {
    if g.current != [] {
      ReplayCloseDown(g.out, g.current, 0);
    }
  }

  lemma FinishLost(g: Gen)
    requires Lost(g) || Pending(g)
    ensures !WellNested(Finish(g))
  {
    if Replay(Settled(g.out)).Broken? {
      ReplayBroken(Settled(g.out), Finish(g)[|Settled(g.out)|..]);
      assert Settled(g.out) + Finish(g)[|Settled(g.out)|..] == Finish(g);
    }
  }

  lemma {:induction false} LostRun(g: Gen, lines: seq<Line>, maxLayers: nat)
    requires AllProper(lines) && Lost(g)
    ensures !WellNested(Run(g, lines, maxLayers))
    decreases lines
  {
    if lines == [] {
      FinishLost(g);
    } else {
      assert Proper(lines[0]);
      LostStaysLost(g, lines[0], maxLayers);
      LostRun(Step(g, lines[0], maxLayers), lines[1..], maxLayers);
    }
  }

  lemma {:induction false} PendingRun(g: Gen, lines: seq<Line>, maxLayers: nat)
    requires AllProper(lines) && Pending(g)
    ensures WellNested(Run(g, lines, maxLayers)) <==> SectionNext(lines, maxLayers) && Tidy(lines, 0, maxLayers)
    decreases lines
  {
    if lines == [] {
      FinishLost(g);
    } else {
      assert Proper(lines[0]);
      var next := Step(g, lines[0], maxLayers);
      PendingStep(g, lines[0], maxLayers);
      if lines[0].Section? {
        InStepRun(next, lines[1..], maxLayers);
      } else if Kept(lines[0], [], maxLayers) {
        LostRun(next, lines[1..], maxLayers);
      } else {
        PendingRun(next, lines[1..], maxLayers);
      }
    }
  }

  lemma {:induction false} InStepRun(g: Gen, lines: seq<Line>, maxLayers: nat)
    requires AllProper(lines) && InStep(g)
    ensures WellNested(Run(g, lines, maxLayers)) <==> Tidy(lines, |g.current|, maxLayers)
    decreases lines
  {
    if lines == [] {
      FinishInStep(g);
    } else {
      assert Proper(lines[0]);
      var next := Step(g, lines[0], maxLayers);
      InStepKept(g, lines[0], maxLayers);
      if lines[0].Default? && |g.current| >= 2 {
        PendingRun(next, lines[1..], maxLayers);
      } else {
        InStepRun(next, lines[1..], maxLayers);
      }
    }
  }

  /** The generated trace is well nested if and only if the input is tidy. */
  lemma WellNestedIffTidy(lines: seq<Line>, maxLayers: nat)
    requires AllProper(lines)
    ensures WellNested(Run(START, lines, maxLayers)) <==> Tidy(lines, 0, maxLayers)
  {
    InStepRun(START, lines, maxLayers);
  }

  /** Without a return to `[default]` every input is tidy. */
  lemma {:induction false} TidyWithoutDefault(lines: seq<Line>, depth: nat, maxLayers: nat)
    requires forall l <- lines :: !l.Default?
    ensures Tidy(lines, depth, maxLayers)
    decreases lines
  {
    if lines != [] {
      assert lines[0] in lines;
      TidyWithoutDefault(lines[1..], if lines[0].Section? then |lines[0].path| else depth, maxLayers);
    }
  }

  /** So without a return to `[default]` every list of headers and values gives a well-nested trace. */
  lemma WellNestedWithoutDefault(lines: seq<Line>, maxLayers: nat)
    requires AllProper(lines) && forall l <- lines :: !l.Default?
    ensures WellNested(Run(START, lines, maxLayers))
  {
    WellNestedIffTidy(lines, maxLayers);
    TidyWithoutDefault(lines, 0, maxLayers);
  }

  /**
    Moving from an open section to the section `q` appends closes for the levels of the old
    section below the shared prefix and openings for those of `q`, and nothing else; then the
    stack is `q`.
   */
  lemma HeaderMoves(g: Gen, q: SectionPath, maxLayers: nat)
    requires InStep(g) && g.current != []
    ensures
      var c := Shared(g.current, q);
      var closes, opens := CloseDown(Closing(g.current), c), OpenUp(q, c);
      && g.current[..c] == q[..c] && c < |q| && (c < |g.current| && c + 1 < |q| ==> g.current[c] != q[c])
      && Step(g, Section(q), maxLayers).out == g.out + closes + opens
      && |closes| == |g.current| - c && |opens| == |q| - c
      && Replay(g.out + closes) == At(q[..c])
      && Replay(g.out + closes + opens) == At(q)
  {
    var c := Shared(g.current, q);
    assert Init(g.out + [Closing(g.current)]) == g.out;
    ReplayCloseDown(g.out, g.current, c);
    InStepKept(g, Section(q), maxLayers);
  }

  /** A value named `--` in the section `[a]` is taken for its close: such a line can break any input. */
  lemma ValueTakenForClose(inputs: seq<string>)
    ensures !WellNested(Run(START, [Section(["a"]), Value([], CLOSE, inputs)], 1))
  {
    var p := ["a"];
    var lines := [Section(p), Value([], CLOSE, inputs)];
    var inside := Gen([Opening(p)], p);
    assert Step(START, lines[0], 1) == inside by {
      assert OpenUp(p, 0) == [Opening(p)];
    }
    var taken := Gen([Opening(p), ConfigItem(p, CLOSE, inputs)], p);
    assert Step(inside, lines[1], 1) == taken by {
      assert p + [] == p;
    }
    assert Run(START, lines, 1) == Finish(taken) by {
      assert lines[1..] == [lines[1]] && lines[1..][1..] == [];
      assert Run(START, lines, 1) == Run(inside, lines[1..], 1) == Run(taken, [], 1);
    }
    assert Replay([Opening(p)]) == At(p) by {
      assert Init(p) == [] && Init([Opening(p)]) == [];
    }
    ReplaySnoc([Opening(p)], ConfigItem(p, CLOSE, inputs));
    assert CloseDown(Closing(p), 0) == [Closing(p)];
    ReplaySnoc(taken.out, Closing(p));
  }

  /** Leaving `[a.b]` for `[default]` at the end of the input leaves `a` open. */
  lemma DefaultCanLeaveSectionsOpen(maxLayers: nat)
    ensures !WellNested(Run(START, [Section(["a", "b"]), Default], maxLayers))
  {
    var lines := [Section(["a", "b"]), Default];
    WellNestedIffTidy(lines, maxLayers);
    assert lines[1..] == [Default] && lines[1..][1..] == [];
    assert !Tidy(lines[1..], 2, maxLayers);
  }
}
