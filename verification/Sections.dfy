/**
  The section logic of `ConfigBase::from_config`: a flat list of `[a.b.c]` headers and
  `name = value` lines becomes a list of items in which every section is opened by a `++`
  item and closed by a `--` item.

  Lines arrive here already tokenised: a header carries the path that `generate_parents`
  splits it into, a value line carries the dotted part of its name.
 */
module Sections {

  type Path = seq<string>

  /** A header names at least one section. */
  type SectionPath = p: Path | p != [] witness [""]

  datatype ConfigItem = ConfigItem(parents: Path, name: string, inputs: seq<string>)

  datatype Line =
    | Section(path: SectionPath)
    | Default
    | Value(dotted: Path, name: string, inputs: seq<string>)

  const OPEN := "++"
  const CLOSE := "--"

  function Init<T>(s: seq<T>): seq<T>
    requires s != []
  {
    s[..|s| - 1]
  }

  function Last<T>(s: seq<T>): T
    requires s != []
  {
    s[|s| - 1]
  }

  function Opening(p: Path): ConfigItem { ConfigItem(p, OPEN, []) }

  function Closing(p: Path): ConfigItem { ConfigItem(p, CLOSE, []) }

  predicate EndsInClose(out: seq<ConfigItem>) { out != [] && Last(out).name == CLOSE }

  // ----- closed forms of the two kinds of event runs -----

  /** Copies of `item` whose path shrinks one name at a time, down to level `k + 1`. */
  function CloseDown(item: ConfigItem, k: nat): (r: seq<ConfigItem>)
    ensures |r| == if |item.parents| <= k then 0 else |item.parents| - k
    decreases |item.parents|
  {
    if |item.parents| <= k then []
    else [item] + CloseDown(item.(parents := Init(item.parents)), k)
  }

  /** Openings of the levels `k + 1` to `|q|` of the path `q`. */
  function OpenUp(q: Path, k: nat): (r: seq<ConfigItem>)
    ensures |r| == if |q| <= k then 0 else |q| - k
    decreases |q|
  {
    if |q| <= k then [] else OpenUp(Init(q), k) + [Opening(q)]
  }

  /** Length of the longest common prefix of two paths. */
  function CommonPrefix(p: Path, q: Path): (c: nat)
    ensures c <= |p| && c <= |q| && p[..c] == q[..c]
    ensures c < |p| && c < |q| ==> p[c] != q[c]
  {
    if p == [] || q == [] || p[0] != q[0] then 0
    else
      var c := CommonPrefix(p[1..], q[1..]);
      assert p[..c + 1] == [p[0]] + p[1..][..c];
      assert q[..c + 1] == [q[0]] + q[1..][..c];
      c + 1
  }

  /** The levels a section `q` shares with `p`: its own last name is always opened anew. */
  function Shared(p: Path, q: Path): (c: nat)
    requires q != []
    ensures c <= |p| && c < |q|
  {
    CommonPrefix(p, Init(q))
  }

  /** A value named `--` outside all sections is taken for a close as well, but there is nothing to close. */
  predicate ClosesFor(out: seq<ConfigItem>, q: SectionPath) { EndsInClose(out) && (Last(out).parents != [] || |q| > 1) }

  /** What `checkParentSegments` makes of the output list when the section `q` starts. */
  function WithSection(out: seq<ConfigItem>, q: SectionPath): seq<ConfigItem>
  {
    if ClosesFor(out, q) then
      var c := Shared(Last(out).parents, q);
      Init(out) + CloseDown(Last(out), c) + OpenUp(q, c)
    else
      out + OpenUp(q, 0)
  }

  // ----- checkParentSegments -----

  /** The output while levels are being closed: the last item stands for level `m`. */
  ghost function Closed(base: seq<ConfigItem>, item: ConfigItem, m: nat): seq<ConfigItem>
    requires m <= |item.parents|
  {
    base + CloseDown(item, m) + [item.(parents := item.parents[..m])]
  }

  lemma {:induction false} CloseDownExtend(item: ConfigItem, k: nat)
    requires k < |item.parents|
    ensures CloseDown(item, k) == CloseDown(item, k + 1) + [item.(parents := item.parents[..k + 1])]
    decreases |item.parents|
  {
    if |item.parents| == k + 1 {
      assert item.parents[..k + 1] == item.parents;
      assert CloseDown(item, k) == [item] + CloseDown(item.(parents := Init(item.parents)), k);
    } else {
      var shorter := item.(parents := Init(item.parents));
      CloseDownExtend(shorter, k);
      assert shorter.parents[..k + 1] == item.parents[..k + 1];
    }
  }

  lemma CloseOneMore(base: seq<ConfigItem>, item: ConfigItem, m: nat)
    requires m < |item.parents|
    ensures Closed(base, item, m) == Closed(base, item, m + 1) + [item.(parents := item.parents[..m])]
    ensures Closed(base, item, m + 1) == base + CloseDown(item, m)
  {
    CloseDownExtend(item, m);
  }

  /** Appends copies of the last item, each one name shorter, until `size` names are left. */
  method CloseLevels(out: seq<ConfigItem>, ghost base: seq<ConfigItem>, ghost item: ConfigItem, ghost m: nat, size: nat)
    returns (r: seq<ConfigItem>)
    requires m <= |item.parents| && out == Closed(base, item, m)
    ensures r == Closed(base, item, if m <= size then m else size)
  {
    r := out;
    ghost var level := m;
    while |Last(r).parents| > size
      invariant level <= m && (m <= size ==> level == m) && (size < m ==> size <= level)
      invariant r == Closed(base, item, level)
      decreases level
    {
      CloseOneMore(base, item, level - 1);
      assert Init(item.parents[..level]) == item.parents[..level - 1];
      r := r + [Last(r).(parents := Init(Last(r).parents))];
      level := level - 1;
    }
  }

  /** The loop that counts matching names. */
  method CountCommon(p: Path, q: Path, bound: nat) returns (common: nat)
    requires bound <= |p| && bound <= |q|
    ensures common == CommonPrefix(p[..bound], q[..bound])
  {
    common := 0;
    while common < bound && p[common] == q[common]
      invariant common <= bound
      invariant forall i :: 0 <= i < common ==> p[i] == q[i]
    {
      common := common + 1;
    }
    CommonPrefixUnique(p[..bound], q[..bound], common);
  }

  lemma CommonPrefixUnique(p: Path, q: Path, c: nat)
    requires c <= |p| && c <= |q|
    requires forall i :: 0 <= i < c ==> p[i] == q[i]
    requires c == |p| || c == |q| || p[c] != q[c]
    ensures CommonPrefix(p, q) == c
  {
    var d := CommonPrefix(p, q);
    assert forall i :: 0 <= i < d ==> p[i] == p[..d][i] == q[..d][i] == q[i];
  }

  method OpenLevels(out: seq<ConfigItem>, q: Path, from: nat) returns (r: seq<ConfigItem>)
    requires from < |q|
    ensures r == out + OpenUp(q, from)
  {
    r := out;
    for i := from to |q| - 1
      invariant r == out + OpenUp(q[..i], from)
    {
      assert Init(q[..i + 1]) == q[..i];
      r := r + [Opening(q[..i + 1])];
    }
    assert q[..|q| - 1] == Init(q);
    r := r + [Opening(q)];
  }

  method CheckParentSegments(out: seq<ConfigItem>, parents: SectionPath) returns (r: seq<ConfigItem>)
    ensures r == WithSection(out, parents)
  {
    r := out;
    var common := 0;
    if EndsInClose(out) {
      ghost var base, item := Init(out), Last(out);
      ghost var p := item.parents;
      assert p[..|p|] == p;
      var msize := if |parents| > 1 then |parents| else 2;
      r := CloseLevels(r, base, item, |p|, msize - 1);
      ghost var m := if |p| <= msize - 1 then |p| else msize - 1;
      if |parents| > 1 {
        var mpair := if |Last(r).parents| <= |parents| - 1 then |Last(r).parents| else |parents| - 1;
        common := CountCommon(Last(r).parents, parents, mpair);
        assert p[..m][..mpair] == p[..m];
        SharedFromLevel(p, parents, m);
        if common == mpair {
          r := Init(r);
        } else {
          r := CloseLevels(r, base, item, m, common + 1);
          CloseOneMore(base, item, common);
        }
      } else if p != [] {
        CloseOneMore(base, item, 0);
      }
    }
    r := OpenLevels(r, parents, common);
  }

  /** Comparing only the first `m` names is enough once `m` covers one of the two paths. */
  lemma SharedFromLevel(p: Path, q: Path, m: nat)
    requires 1 < |q| && m <= |p| && m <= |q| - 1
    requires m == |p| || m == |q| - 1
    ensures CommonPrefix(p[..m], q[..m]) == Shared(p, q)
  {
    var c := CommonPrefix(p[..m], q[..m]);
    assert forall i :: 0 <= i < c ==> p[i] == p[..m][..c][i] == q[..m][..c][i] == Init(q)[i];
    CommonPrefixUnique(p, Init(q), c);
  }

  // ----- from_config, section logic -----

  /** The generator's state: the output list and the section in force (`[]` is the default one). */
  datatype Gen = Gen(out: seq<ConfigItem>, current: Path)

  const START := Gen([], [])

  function LeaveCurrent(g: Gen): seq<ConfigItem>
  {
    if g.current == [] then g.out else g.out + [Closing(g.current)]
  }

  function AddValue(out: seq<ConfigItem>, item: ConfigItem): seq<ConfigItem>
  {
    if out != [] && Last(out).name == item.name && Last(out).parents == item.parents
    then Init(out) + [Last(out).(inputs := Last(out).inputs + item.inputs)]
    else out + [item]
  }

  predicate Kept(line: Line, current: Path, maxLayers: nat)
  {
    line.Value? && |current + line.dotted| <= maxLayers
  }

  function Step(g: Gen, line: Line, maxLayers: nat): Gen
  {
    match line
    case Section(q) => Gen(WithSection(LeaveCurrent(g), q), q)
    case Default => Gen(LeaveCurrent(g), [])
    case Value(dotted, name, inputs) =>
      if Kept(line, g.current, maxLayers)
      then Gen(AddValue(g.out, ConfigItem(g.current + dotted, name, inputs)), g.current)
      else g
  }

  function Finish(g: Gen): seq<ConfigItem>
  {
    if g.current == [] then g.out else g.out + CloseDown(Closing(g.current), 0)
  }

  function Run(g: Gen, lines: seq<Line>, maxLayers: nat): seq<ConfigItem>
    decreases lines
  {
    if lines == [] then Finish(g) else Run(Step(g, lines[0], maxLayers), lines[1..], maxLayers)
  }

  /** One turn of the reading loop. */
  method ReadLine(output: seq<ConfigItem>, currentSection: Path, line: Line, maxLayers: nat)
    returns (out: seq<ConfigItem>, current: Path)
    ensures Gen(out, current) == Step(Gen(output, currentSection), line, maxLayers)
  {
    out, current := output, currentSection;
    if line.Value? {
      var parents := current + line.dotted;
      if |parents| <= maxLayers {
        if out != [] && line.name == Last(out).name && parents == Last(out).parents {
          out := Init(out) + [Last(out).(inputs := Last(out).inputs + line.inputs)];
        } else {
          out := out + [ConfigItem(parents, line.name, line.inputs)];
        }
      }
    } else {
      if current != [] {
        out := out + [Closing(current)];
      }
      if line.Default? {
        current := [];
      } else {
        current := line.path;
        out := CheckParentSegments(out, current);
      }
    }
  }

  method FromConfig(lines: seq<Line>, maxLayers: nat) returns (output: seq<ConfigItem>)
    ensures output == Run(START, lines, maxLayers)
  {
    output := [];
    var currentSection: Path := [];
    for i := 0 to |lines|
      invariant Run(START, lines, maxLayers) == Run(Gen(output, currentSection), lines[i..], maxLayers)
    {
      assert lines[i] in lines && lines[i..][1..] == lines[i + 1..];
      output, currentSection := ReadLine(output, currentSection, lines[i], maxLayers);
    }
    if currentSection != [] {
      ghost var base, item := output, Closing(currentSection);
      assert currentSection[..|currentSection|] == currentSection;
      output := output + [Closing(currentSection)];
      output := CloseLevels(output, base, item, |currentSection|, 1);
      CloseOneMore(base, item, 0);
    }
  }
}
