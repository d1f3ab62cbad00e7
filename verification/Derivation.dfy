/**
  What the gNB application derives from its parsed configuration, and the validator the result has
  to pass: slices, supported tracking areas and PLMNs flow from the DU cells to the CU-CP and CU-UP.
  The hooks of the application units that run in between are taken as the identity.
 */
module Derivation {

  datatype Slice = Slice(sst: nat, sd: nat)

  datatype Cell = Cell(plmn: string, tac: nat, slices: seq<Slice>)

  datatype PlmnItem = PlmnItem(plmnId: string, slices: seq<Slice>)

  datatype TrackingArea = TrackingArea(tac: nat, plmns: seq<PlmnItem>)

  datatype CuCp = CuCp(
    supportedTas: seq<TrackingArea>, isDefaultTas: bool, noCore: bool,
    extraAmfs: seq<seq<TrackingArea>>, slices: seq<Slice>)

  const DEFAULT_SD := 0xFF_FFFF

  // ----- appending what is not there yet -----

  ghost function Elements<T(!new)>(s: seq<T>): set<T> { set x | x in s }

  /** The elements of `xs` that are not in `seen`, at their first occurrence, in order. */
  ghost function Fresh<T(!new)>(xs: seq<T>, seen: set<T>): seq<T>
  {
    if xs == [] then []
    else if xs[0] in seen then Fresh(xs[1..], seen)
    else [xs[0]] + Fresh(xs[1..], seen + {xs[0]})
  }

  lemma ElementsAppend<T(!new)>(a: seq<T>, b: seq<T>)
    ensures Elements(a + b) == Elements(a) + Elements(b)
  {}

  lemma {:induction false} FreshElements<T(!new)>(xs: seq<T>, seen: set<T>)
    ensures Elements(Fresh(xs, seen)) == Elements(xs) - seen
  {
    if xs != [] {
      assert Elements(xs) == {xs[0]} + Elements(xs[1..]);
      if xs[0] in seen {
        FreshElements(xs[1..], seen);
      } else {
        FreshElements(xs[1..], seen + {xs[0]});
        var rest := Fresh(xs[1..], seen + {xs[0]});
        assert Elements([xs[0]] + rest) == {xs[0]} + Elements(rest);
      }
    }
  }

  lemma {:induction false} FreshDistinct<T(!new)>(xs: seq<T>, seen: set<T>)
    ensures forall i, j :: 0 <= i < j < |Fresh(xs, seen)| ==> Fresh(xs, seen)[i] != Fresh(xs, seen)[j]
  {
    if xs != [] {
      if xs[0] in seen {
        FreshDistinct(xs[1..], seen);
      } else {
        var rest := Fresh(xs[1..], seen + {xs[0]});
        FreshDistinct(xs[1..], seen + {xs[0]});
        FreshElements(xs[1..], seen + {xs[0]});
        assert xs[0] !in Elements(rest);
      }
    }
  }

  /** Where `x` occurs first, or the length of the list. */
  ghost function First<T(!new)>(xs: seq<T>, x: T): nat
  {
    if xs == [] || xs[0] == x then 0 else 1 + First(xs[1..], x)
  }

  /** The new elements keep the order in which they occur first. */
  lemma {:induction false} FreshInOrder<T(!new)>(xs: seq<T>, seen: set<T>)
    ensures forall i, j :: 0 <= i < j < |Fresh(xs, seen)| ==> First(xs, Fresh(xs, seen)[i]) < First(xs, Fresh(xs, seen)[j])
  {
    if xs != [] {
      var seen' := if xs[0] in seen then seen else seen + {xs[0]};
      var rest := Fresh(xs[1..], seen');
      FreshInOrder(xs[1..], seen');
      FreshElements(xs[1..], seen');
      hide Fresh;
      forall i | 0 <= i < |rest|
        ensures First(xs, rest[i]) == 1 + First(xs[1..], rest[i])
      {
        assert rest[i] in Elements(rest);
      }
    }
  }

  lemma {:induction false} FreshAppend<T(!new)>(xs: seq<T>, ys: seq<T>, seen: set<T>)
    ensures Fresh(xs + ys, seen) == Fresh(xs, seen) + Fresh(ys, seen + Elements(xs))
  {
    if xs == [] {
      assert xs + ys == ys && seen + Elements(xs) == seen;
    } else {
      assert (xs + ys)[1..] == xs[1..] + ys;
      var seen' := seen + {xs[0]};
      assert seen' + Elements(xs[1..]) == seen + Elements(xs);
      if xs[0] in seen {
        assert seen' == seen;
        FreshAppend(xs[1..], ys, seen);
      } else {
        FreshAppend(xs[1..], ys, seen');
      }
    }
  }

  /** Removing duplicates first and then what is already there is the same as doing both at once. */
  lemma {:induction false} FreshTwice<T(!new)>(xs: seq<T>, s: set<T>, t: set<T>)
    ensures Fresh(Fresh(xs, s), t) == Fresh(xs, s + t)
  {
    if xs != [] {
      var x, rest := xs[0], xs[1..];
      if x in s {
        FreshTwice(rest, s, t);
      } else {
        var later := Fresh(rest, s + {x});
        assert Fresh(xs, s)[1..] == later;
        if x in t {
          FreshTwice(rest, s + {x}, t);
          assert s + {x} + t == s + t;
        } else {
          FreshTwice(rest, s + {x}, t + {x});
          assert s + {x} + (t + {x}) == s + t + {x};
        }
      }
    }
  }

  /** The loop with `std::find` and `push_back`. */
  method AppendNew<T(==, !new)>(list: seq<T>, xs: seq<T>) returns (r: seq<T>)
    ensures r == list + Fresh(xs, Elements(list))
  {
    r := list;
    for i := 0 to |xs|
      invariant r + Fresh(xs[i..], Elements(r)) == list + Fresh(xs, Elements(list))
    {
      AppendStep(r, xs, i);
      if xs[i] !in r {
        r := r + [xs[i]];
      }
    }
    assert xs[|xs|..] == [] && r + [] == r;
  }

  lemma AppendStep<T(!new)>(r: seq<T>, xs: seq<T>, i: nat)
    requires i < |xs|
    ensures
      r + Fresh(xs[i..], Elements(r)) ==
      if xs[i] in r then r + Fresh(xs[i + 1..], Elements(r))
      else r + [xs[i]] + Fresh(xs[i + 1..], Elements(r + [xs[i]]))
  {
    assert xs[i..][1..] == xs[i + 1..];
    assert Elements(r + [xs[i]]) == Elements(r) + {xs[i]};
  }

  // ----- autoderive_slicing_args -----

  function CellSlices(cells: seq<Cell>): seq<Slice>
  {
    if cells == [] then [] else cells[0].slices + CellSlices(cells[1..])
  }

  /** A slice differentiator has at most 24 bits; otherwise `value()` fails. */
  predicate ValidSlices(slices: seq<Slice>) { forall i :: 0 <= i < |slices| ==> slices[i].sd <= DEFAULT_SD }

  predicate CellsValid(cells: seq<Cell>) { forall i :: 0 <= i < |cells| ==> ValidSlices(cells[i].slices) }

  /** The first loop: the slices of all cells without duplicates; fails on an invalid differentiator. */
  method CollectSlices(cells: seq<Cell>) returns (ok: bool, duSlices: seq<Slice>)
    ensures ok <==> CellsValid(cells)
    ensures ok ==> duSlices == Fresh(CellSlices(cells), {})
  {
    duSlices, ok := [], true;
    assert cells[0..] == cells && Elements<Slice>([]) == {};
    for i := 0 to |cells|
      invariant CellsValid(cells[..i])
      invariant duSlices + Fresh(CellSlices(cells[i..]), Elements(duSlices)) == Fresh(CellSlices(cells), {})
    {
      if exists k :: 0 <= k < |cells[i].slices| && cells[i].slices[k].sd > DEFAULT_SD {
        return false, duSlices;
      }
      CollectStep(duSlices, cells, i);
      duSlices := AppendNew(duSlices, cells[i].slices);
      assert cells[..i + 1] == cells[..i] + [cells[i]];
    }
    assert cells[..|cells|] == cells && cells[|cells|..] == [] && duSlices + [] == duSlices;
  }

  lemma CollectStep(du: seq<Slice>, cells: seq<Cell>, i: nat)
    requires i < |cells|
    ensures
      var du' := du + Fresh(cells[i].slices, Elements(du));
      du + Fresh(CellSlices(cells[i..]), Elements(du)) == du' + Fresh(CellSlices(cells[i + 1..]), Elements(du'))
  {
    var xs, ys, seen := cells[i].slices, CellSlices(cells[i + 1..]), Elements(du);
    var added := Fresh(xs, seen);
    assert cells[i..][1..] == cells[i + 1..];
    hide Fresh, CellSlices;
    FreshAppend(xs, ys, seen);
    FreshElements(xs, seen);
    ElementsAppend(du, added);
    assert Elements(du + added) == seen + Elements(xs);
    assert du + (added + Fresh(ys, seen + Elements(xs))) == du + added + Fresh(ys, seen + Elements(xs));
  }

  method DeriveSlices(cells: seq<Cell>, served: seq<Slice>) returns (ok: bool, slices: seq<Slice>)
    ensures ok <==> CellsValid(cells)
    ensures ok ==> slices == served + Fresh(CellSlices(cells), Elements(served))
    ensures !ok ==> slices == served
  {
    var duSlices;
    slices := served;
    ok, duSlices := CollectSlices(cells);
    if ok {
      slices := AppendNew(served, duSlices);
      FreshTwice(CellSlices(cells), {}, Elements(served));
      assert {} + Elements(served) == Elements(served);
    }
  }

  lemma {:induction false} CellSliceCollected(cells: seq<Cell>, i: nat)
    requires i < |cells|
    ensures Elements(cells[i].slices) <= Elements(CellSlices(cells))
  {
    if i > 0 {
      CellSliceCollected(cells[1..], i - 1);
    }
  }

  /** The CU-CP serves every slice of every cell; what it served before comes first; nothing is added twice. */
  lemma SlicesServed(cells: seq<Cell>, served: seq<Slice>)
    ensures
      var added := Fresh(CellSlices(cells), Elements(served));
      var slices := served + added;
      && (forall i :: 0 <= i < |cells| ==> forall s <- cells[i].slices :: s in slices)
      && (forall i, j :: 0 <= i < j < |added| ==> added[i] != added[j])
      && (forall s <- added :: s !in served && s in CellSlices(cells))
      && (forall i, j :: 0 <= i < j < |added| ==> First(CellSlices(cells), added[i]) < First(CellSlices(cells), added[j]))
  {
    var all, known := CellSlices(cells), Elements(served);
    FreshElements(all, known);
    FreshDistinct(all, known);
    FreshInOrder(all, known);
    var added := Fresh(all, known);
    hide Fresh, First;
    forall i, s | 0 <= i < |cells| && s in cells[i].slices
      ensures s in served + added
    {
      CellSliceCollected(cells, i);
      assert s in Elements(cells[i].slices) && s in Elements(all);
      assert s !in served ==> s in Elements(added);
    }
    assert forall s <- added :: s in Elements(added);
  }

  // ----- autoderive_supported_tas_for_amf_from_du_cells -----

  function CellTa(cell: Cell): TrackingArea
  {
    TrackingArea(cell.tac, [PlmnItem(cell.plmn, [Slice(1, DEFAULT_SD)])])
  }

  method DeriveTas(cells: seq<Cell>, cuCp: CuCp) returns (r: CuCp)
    ensures
      r == if cells == [] then cuCp
           else cuCp.(supportedTas := seq(|cells|, i requires 0 <= i < |cells| => CellTa(cells[i])), isDefaultTas := false)
  {
    if cells == [] {
      return cuCp;
    }
    var tas := [];
    for i := 0 to |cells|
      invariant tas == seq(i, k requires 0 <= k < i => CellTa(cells[k]))
    {
      tas := tas + [CellTa(cells[i])];
    }
    r := cuCp.(supportedTas := tas, isDefaultTas := false);
  }

  /** Every cell gets its own tracking area: its code and its PLMN with the default slice of service type 1. */
  lemma CellTaOf(cells: seq<Cell>, i: nat)
    requires i < |cells|
    ensures
      var ta := TasOf(cells)[i];
      && |TasOf(cells)| == |cells|
      && ta.tac == cells[i].tac && |ta.plmns| == 1 && ta.plmns[0].plmnId == cells[i].plmn
      && ta.plmns[0].slices == [Slice(1, 0xFF_FFFF)]
  {}

  // ----- autoderive_cu_up_parameters_after_parsing -----

  function PlmnIds(items: seq<PlmnItem>): seq<string>
  {
    if items == [] then [] else [items[0].plmnId] + PlmnIds(items[1..])
  }

  function TaPlmns(tas: seq<TrackingArea>): seq<string>
  {
    if tas == [] then [] else PlmnIds(tas[0].plmns) + TaPlmns(tas[1..])
  }

  method CollectIds(items: seq<PlmnItem>) returns (ids: seq<string>)
    ensures ids == PlmnIds(items)
  {
    ids := [];
    for i := 0 to |items|
      invariant ids + PlmnIds(items[i..]) == PlmnIds(items)
    {
      assert items[i..][1..] == items[i + 1..];
      ids := ids + [items[i].plmnId];
    }
    assert items[|items|..] == [] && ids + [] == ids;
  }

  method DerivePlmns(plmns: seq<string>, tas: seq<TrackingArea>) returns (r: seq<string>)
    ensures r == if plmns == [] then Fresh(TaPlmns(tas), {}) else plmns
  {
    r := plmns;
    if plmns == [] {
      assert tas[0..] == tas && Elements<string>([]) == {};
      for i := 0 to |tas|
        invariant r + Fresh(TaPlmns(tas[i..]), Elements(r)) == Fresh(TaPlmns(tas), {})
      {
        var ids := CollectIds(tas[i].plmns);
        PlmnStep(r, tas, i);
        r := AppendNew(r, ids);
      }
      assert tas[|tas|..] == [] && r + [] == r;
    }
  }

  lemma PlmnStep(r: seq<string>, tas: seq<TrackingArea>, i: nat)
    requires i < |tas|
    ensures
      var r' := r + Fresh(PlmnIds(tas[i].plmns), Elements(r));
      r + Fresh(TaPlmns(tas[i..]), Elements(r)) == r' + Fresh(TaPlmns(tas[i + 1..]), Elements(r'))
  {
    var xs, ys, seen := PlmnIds(tas[i].plmns), TaPlmns(tas[i + 1..]), Elements(r);
    var added := Fresh(xs, seen);
    assert tas[i..][1..] == tas[i + 1..];
    hide Fresh, TaPlmns, PlmnIds;
    FreshAppend(xs, ys, seen);
    FreshElements(xs, seen);
    ElementsAppend(r, added);
    assert Elements(r + added) == seen + Elements(xs);
    assert r + (added + Fresh(ys, seen + Elements(xs))) == r + added + Fresh(ys, seen + Elements(xs));
  }

  lemma {:induction false} PlmnIdsAre(items: seq<PlmnItem>)
    ensures |PlmnIds(items)| == |items| && forall i :: 0 <= i < |items| ==> PlmnIds(items)[i] == items[i].plmnId
  {
    if items != [] {
      PlmnIdsAre(items[1..]);
    }
  }

  lemma {:induction false} TaPlmnsHas(tas: seq<TrackingArea>, p: string)
    ensures p in TaPlmns(tas) <==> exists ta <- tas :: exists item <- ta.plmns :: item.plmnId == p
  {
    if tas != [] {
      TaPlmnsHas(tas[1..], p);
      PlmnIdsAre(tas[0].plmns);
      var ids := PlmnIds(tas[0].plmns);
      assert tas == [tas[0]] + tas[1..];
      assert p in ids <==> exists item <- tas[0].plmns :: item.plmnId == p by {
        if p in ids {
          var i :| 0 <= i < |ids| && ids[i] == p;
          assert tas[0].plmns[i] in tas[0].plmns;
        }
        if item :| item in tas[0].plmns && item.plmnId == p {
          var i :| 0 <= i < |tas[0].plmns| && tas[0].plmns[i] == item;
          assert ids[i] == p;
        }
      }
    }
  }

  /** The derived PLMNs are those of the tracking areas, all of each, once and in order of first use. */
  lemma DerivedPlmns(tas: seq<TrackingArea>, p: string)
    ensures
      var plmns := Fresh(TaPlmns(tas), {});
      && (p in plmns <==> exists ta <- tas :: exists item <- ta.plmns :: item.plmnId == p)
      && (forall i, j :: 0 <= i < j < |plmns| ==> plmns[i] != plmns[j])
      && forall i, j :: 0 <= i < j < |plmns| ==> First(TaPlmns(tas), plmns[i]) < First(TaPlmns(tas), plmns[j])
  {
    TaPlmnsHas(tas, p);
    FreshElements(TaPlmns(tas), {});
    FreshDistinct(TaPlmns(tas), {});
    FreshInOrder(TaPlmns(tas), {});
    assert p in Fresh(TaPlmns(tas), {}) <==> p in Elements(Fresh(TaPlmns(tas), {}));
    assert p in TaPlmns(tas) <==> p in Elements(TaPlmns(tas));
  }

  // ----- validate_plmn_and_tacs -----

  predicate Covers(ta: TrackingArea, cell: Cell)
  {
    ta.tac == cell.tac && exists k :: 0 <= k < |ta.plmns| && ta.plmns[k].plmnId == cell.plmn
  }

  predicate SomeCovers(tas: seq<TrackingArea>, cell: Cell) { exists k :: 0 <= k < |tas| && Covers(tas[k], cell) }

  /** Some tracking area of the main or of an extra AMF has the cell's PLMN and tracking area code. */
  predicate Supported(cell: Cell, cuCp: CuCp)
  {
    || SomeCovers(cuCp.supportedTas, cell)
    || exists a :: 0 <= a < |cuCp.extraAmfs| && SomeCovers(cuCp.extraAmfs[a], cell)
  }

  predicate AllSupported(cells: seq<Cell>, cuCp: CuCp)
  {
    forall i :: 0 <= i < |cells| ==> Supported(cells[i], cuCp)
  }

  function Flat(lists: seq<seq<TrackingArea>>): seq<TrackingArea>
  {
    if lists == [] then [] else lists[0] + Flat(lists[1..])
  }

  lemma {:induction false} FlatCovers(lists: seq<seq<TrackingArea>>, cell: Cell)
    ensures SomeCovers(Flat(lists), cell) <==> exists a :: 0 <= a < |lists| && SomeCovers(lists[a], cell)
  {
    if lists != [] {
      FlatCovers(lists[1..], cell);
      EitherCovers(lists[0], Flat(lists[1..]), cell);
      assert forall a :: 1 <= a < |lists| ==> lists[a] == lists[1..][a - 1];
      assert forall a :: 0 <= a < |lists[1..]| ==> lists[1..][a] == lists[a + 1];
    }
  }

  lemma EitherCovers(a: seq<TrackingArea>, b: seq<TrackingArea>, cell: Cell)
    ensures SomeCovers(a + b, cell) <==> SomeCovers(a, cell) || SomeCovers(b, cell)
  {
    if SomeCovers(a + b, cell) {
      var k :| 0 <= k < |a + b| && Covers((a + b)[k], cell);
      assert if k < |a| then a[k] == (a + b)[k] else b[k - |a|] == (a + b)[k];
    }
    if SomeCovers(a, cell) {
      var k :| 0 <= k < |a| && Covers(a[k], cell);
      assert (a + b)[k] == a[k];
    }
    if SomeCovers(b, cell) {
      var k :| 0 <= k < |b| && Covers(b[k], cell);
      assert (a + b)[|a| + k] == b[k];
    }
  }

  /** The nested search; the outer loop goes on after a hit. */
  method FindTa(tas: seq<TrackingArea>, cell: Cell) returns (found: bool)
    ensures found <==> SomeCovers(tas, cell)
  {
    found := false;
    for i := 0 to |tas|
      invariant found <==> exists k :: 0 <= k < i && Covers(tas[k], cell)
    {
      var j := 0;
      var hit := false;
      while j < |tas[i].plmns| && !hit
        invariant j <= |tas[i].plmns|
        invariant hit ==> Covers(tas[i], cell)
        invariant !hit ==> forall k :: 0 <= k < j ==> !(tas[i].plmns[k].plmnId == cell.plmn && tas[i].tac == cell.tac)
        decreases |tas[i].plmns| - j, if hit then 0 else 1
      {
        if tas[i].plmns[j].plmnId == cell.plmn && tas[i].tac == cell.tac {
          hit := true;
        } else {
          j := j + 1;
        }
      }
      found := found || hit;
    }
  }

  /** The validator accepts exactly the configurations without a core or with every cell supported. */
  method ValidatePlmnAndTacs(cells: seq<Cell>, cuCp: CuCp) returns (ok: bool)
    ensures ok <==> cuCp.noCore || AllSupported(cells, cuCp)
  {
    if cuCp.noCore {
      return true;
    }
    var tas := cuCp.supportedTas;
    for a := 0 to |cuCp.extraAmfs|
      invariant tas + Flat(cuCp.extraAmfs[a..]) == cuCp.supportedTas + Flat(cuCp.extraAmfs)
    {
      assert cuCp.extraAmfs[a..][1..] == cuCp.extraAmfs[a + 1..];
      tas := tas + cuCp.extraAmfs[a];
    }
    assert cuCp.extraAmfs[|cuCp.extraAmfs|..] == [] && tas + [] == tas;
    for i := 0 to |cells|
      invariant forall k :: 0 <= k < i ==> Supported(cells[k], cuCp)
    {
      EitherCovers(cuCp.supportedTas, Flat(cuCp.extraAmfs), cells[i]);
      FlatCovers(cuCp.extraAmfs, cells[i]);
      var found := FindTa(tas, cells[i]);
      if !found {
        return false;
      }
    }
    ok := true;
  }

  // ----- the parse callback -----

  datatype Derived = Derived(cuCp: CuCp, plmns: seq<string>)

  ghost function TasOf(cells: seq<Cell>): seq<TrackingArea>
  {
    seq(|cells|, i requires 0 <= i < |cells| => CellTa(cells[i]))
  }

  lemma DerivedTasSupport(cells: seq<Cell>, cuCp: CuCp)
    requires cuCp.supportedTas == TasOf(cells)
    ensures AllSupported(cells, cuCp)
  {
    forall i | 0 <= i < |cells|
      ensures Supported(cells[i], cuCp)
    {
      assert cuCp.supportedTas[i] == CellTa(cells[i]);
      assert cuCp.supportedTas[i].plmns[0].plmnId == cells[i].plmn;
      assert Covers(cuCp.supportedTas[i], cells[i]);
    }
  }

  /**
    After the callback the validator accepts if and only if the test mode is on, there is no core,
    the tracking areas were the defaults, or the user's own tracking areas support every cell.
   */
  lemma DerivationValidates(cells: seq<Cell>, before: CuCp, after: CuCp, testMode: bool)
    requires after.noCore == (testMode || before.noCore) && after.extraAmfs == before.extraAmfs
    requires after.supportedTas == if !testMode && (before.noCore || before.isDefaultTas) && cells != [] then TasOf(cells) else before.supportedTas
    ensures (after.noCore || AllSupported(cells, after))
            <==> (testMode || before.noCore || before.isDefaultTas || AllSupported(cells, before))
  {
    if !testMode && (before.noCore || before.isDefaultTas) && cells != [] {
      DerivedTasSupport(cells, after);
    } else {
      assert forall c: Cell :: Supported(c, after) <==> Supported(c, before);
    }
  }

  function CellPlmns(cells: seq<Cell>): seq<string>
  {
    if cells == [] then [] else [cells[0].plmn] + CellPlmns(cells[1..])
  }

  /** Derived tracking areas list the PLMNs of the cells; so the CU-UP gets each once, in order of first use. */
  lemma {:induction false} PlmnsOfCells(cells: seq<Cell>)
    ensures TaPlmns(TasOf(cells)) == CellPlmns(cells)
    decreases cells
  {
    if cells != [] {
      PlmnsOfCells(cells[1..]);
      var tas := TasOf(cells);
      assert tas[1..] == TasOf(cells[1..]);
      var items := tas[0].plmns;
      assert items[1..] == [] && PlmnIds(items) == [cells[0].plmn];
    }
  }

  lemma PlmnsDistinct(cells: seq<Cell>)
    ensures
      var plmns := Fresh(TaPlmns(TasOf(cells)), {});
      && plmns == Fresh(CellPlmns(cells), {})
      && Elements(plmns) == Elements(CellPlmns(cells))
      && forall i, j :: 0 <= i < j < |plmns| ==> plmns[i] != plmns[j]
  {
    PlmnsOfCells(cells);
    FreshElements(CellPlmns(cells), {});
    FreshDistinct(CellPlmns(cells), {});
  }

  /** The derivations in the order of the callback. */
  method ParseCallback(cells: seq<Cell>, cuCp: CuCp, plmns: seq<string>, testMode: bool)
    returns (ok: bool, d: Derived)
    ensures ok <==> CellsValid(cells)
    ensures ok ==>
      && d.cuCp.slices == cuCp.slices + Fresh(CellSlices(cells), Elements(cuCp.slices))
      && d.cuCp.noCore == (testMode || cuCp.noCore)
      && d.cuCp.supportedTas == (if !testMode && (cuCp.noCore || cuCp.isDefaultTas) && cells != [] then TasOf(cells) else cuCp.supportedTas)
      && d.cuCp.extraAmfs == cuCp.extraAmfs
      && d.plmns == (if plmns == [] then Fresh(TaPlmns(d.cuCp.supportedTas), {}) else plmns)
    ensures ok && plmns == [] && !testMode && (cuCp.noCore || cuCp.isDefaultTas) && cells != [] ==>
      d.plmns == Fresh(CellPlmns(cells), {})
    ensures ok ==>
      ((d.cuCp.noCore || AllSupported(cells, d.cuCp))
       <==> (testMode || cuCp.noCore || cuCp.isDefaultTas || AllSupported(cells, cuCp)))
  {
    d := Derived(cuCp, plmns);
    var slices;
    ok, slices := DeriveSlices(cells, cuCp.slices);
    if !ok {
      return;
    }
    var cfg := cuCp.(slices := slices);
    if testMode {
      cfg := cfg.(noCore := true);
    } else if cfg.noCore || cfg.isDefaultTas {
      cfg := DeriveTas(cells, cfg);
    }
    var derivedPlmns := DerivePlmns(plmns, cfg.supportedTas);
    d := Derived(cfg, derivedPlmns);
    DerivationValidates(cells, cuCp, cfg, testMode);
    PlmnsOfCells(cells);
  }

  // ----- in plain terms -----

  /** The derivation of slices fails exactly where a slice differentiator exceeds 24 bits. */
  lemma ValidIff24Bits(cells: seq<Cell>)
    ensures CellsValid(cells) <==> forall cell <- cells :: forall s <- cell.slices :: s.sd < 0x100_0000
  {
    if !CellsValid(cells) {
      var i :| 0 <= i < |cells| && !ValidSlices(cells[i].slices);
      var k :| 0 <= k < |cells[i].slices| && cells[i].slices[k].sd > DEFAULT_SD;
      assert cells[i] in cells && cells[i].slices[k] in cells[i].slices;
    }
  }

  /** The tracking areas of the main and of the extra AMFs. */
  ghost predicate Listed(ta: TrackingArea, cuCp: CuCp)
  {
    ta in cuCp.supportedTas || exists tas <- cuCp.extraAmfs :: ta in tas
  }

  lemma CoveredByListed(tas: seq<TrackingArea>, cell: Cell)
    ensures SomeCovers(tas, cell)
            <==> exists ta <- tas :: ta.tac == cell.tac && exists item <- ta.plmns :: item.plmnId == cell.plmn
  {
    if k :| 0 <= k < |tas| && Covers(tas[k], cell) {
      var m :| 0 <= m < |tas[k].plmns| && tas[k].plmns[m].plmnId == cell.plmn;
      assert tas[k] in tas && tas[k].plmns[m] in tas[k].plmns;
    }
    if ta :| ta in tas && ta.tac == cell.tac && exists item <- ta.plmns :: item.plmnId == cell.plmn {
      var item :| item in ta.plmns && item.plmnId == cell.plmn;
      var k :| 0 <= k < |tas| && tas[k] == ta;
      var m :| 0 <= m < |ta.plmns| && ta.plmns[m] == item;
      assert Covers(tas[k], cell);
    }
  }

  /** A cell is supported where one tracking area has both its code and its PLMN. */
  lemma SupportedIff(cell: Cell, cuCp: CuCp)
    ensures Supported(cell, cuCp)
            <==> exists ta :: Listed(ta, cuCp) && ta.tac == cell.tac && exists item <- ta.plmns :: item.plmnId == cell.plmn
  {
    hide SomeCovers;
    CoveredByListed(cuCp.supportedTas, cell);
    forall tas <- cuCp.extraAmfs
      ensures SomeCovers(tas, cell)
              <==> exists ta <- tas :: ta.tac == cell.tac && exists item <- ta.plmns :: item.plmnId == cell.plmn
    {
      CoveredByListed(tas, cell);
    }
    if a :| 0 <= a < |cuCp.extraAmfs| && SomeCovers(cuCp.extraAmfs[a], cell) {
      assert cuCp.extraAmfs[a] in cuCp.extraAmfs;
    }
    if tas :| tas in cuCp.extraAmfs && SomeCovers(tas, cell) {
      var a :| 0 <= a < |cuCp.extraAmfs| && cuCp.extraAmfs[a] == tas;
    }
  }
}
