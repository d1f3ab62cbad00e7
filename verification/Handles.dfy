/**
  `backward::details::handle`: a move-only owner of a pointer, built from swaps. A run may create,
  move, reset, release and destroy any number of handles; no resource is lost or deleted twice.
 */
module Handles {

  type Pointer = nat

  const NULL: Pointer := 0

  /** The two fields of a handle. */
  datatype Fields = Fields(val: Pointer, empty: bool)

  /** `handle(T val)`: a null pointer is not owned. */
  function Holding(val: Pointer): Fields { Fields(val, val == NULL) }

  /** The state in which `_empty` is set and `_val` is whatever it was. */
  function Disowning(val: Pointer): Fields { Fields(val, true) }

  /** What the handle has to delete in the end. */
  function Owned(f: Fields): multiset<Pointer> { if f.empty then multiset{} else multiset{f.val} }

  function Swapped(a: Fields, b: Fields): (Fields, Fields) { (b, a) }

  // ----- the class -----

  class Handle {
    var val: Pointer
    var empty: bool

    ghost function Value(): Fields
      reads this
    {
      Fields(val, empty)
    }

    constructor (v: Pointer)
      ensures Value() == Holding(v) && val == v && empty == (v == NULL)
    {
      val, empty := v, false;
      if v == NULL {
        empty := true;
      }
    }

    method Swap(b: Handle)
      modifies this, b
      ensures (Value(), b.Value()) == Swapped(old(Value()), old(b.Value()))
      ensures Value() == old(b.Value()) && b.Value() == old(Value())
    {
      b.val, val := val, b.val;
      b.empty, empty := empty, b.empty;
    }

    /** `handle(handle&&)`: `_empty` is set, `_val` is left indeterminate, then both are swapped. */
    constructor Move(from: Handle)
      modifies from
      ensures (Value(), from.Value()) == Swapped(Disowning(from.val), old(from.Value()))
      ensures Value() == old(from.Value()) && from.empty
    {
      val, empty := *, true;
      new;
      Swap(from);
    }

    method MoveAssign(from: Handle)
      modifies this, from
      ensures (Value(), from.Value()) == Swapped(old(Value()), old(from.Value()))
      ensures Value() == old(from.Value()) && from.Value() == old(Value())
    {
      Swap(from);
    }

    /** `deleted` is what the temporary's destructor passes to the deleter. */
    method Reset(newVal: Pointer) returns (deleted: multiset<Pointer>)
      modifies this
      ensures Value() == Holding(newVal)
      ensures deleted == Owned(old(Value())) == if old(empty) then multiset{} else multiset{old(val)}
    {
      var tmp := new Handle(newVal);
      Swap(tmp);
      deleted := tmp.Destroy();
    }

    method Release() returns (v: Pointer)
      modifies this
      ensures v == val == old(val) && empty && Value() == Disowning(old(val))
    {
      empty := true;
      v := val;
    }

    method Destroy() returns (deleted: multiset<Pointer>)
      ensures deleted == Owned(Value()) == if empty then multiset{} else multiset{val}
    {
      deleted := if !empty then multiset{val} else multiset{};
    }
  }

  // ----- runs over many handles -----

  datatype Slot = Dead | Live(fields: Fields)

  /** All handles ever created, and what became of the resources handed to them. */
  datatype World = World(slots: seq<Slot>, acquired: set<Pointer>, released: multiset<Pointer>, deleted: multiset<Pointer>)

  const START := World([], {}, multiset{}, multiset{})

  datatype Op =
    | Construct(val: Pointer)
    | MoveConstruct(from: nat, garbage: Pointer)  // the new handle's value is indeterminate before the swap
    | MoveAssign(to: nat, from: nat)
    | Reset(handle: nat, newVal: Pointer)
    | Release(handle: nat)
    | Destroy(handle: nat)

  predicate Alive(w: World, i: nat) { i < |w.slots| && w.slots[i].Live? }

  /** Handles are used while they live, and each resource is handed to a handle once. */
  predicate Enabled(w: World, op: Op)
  {
    match op
    case Construct(val) => val !in w.acquired
    case MoveConstruct(from, _) => Alive(w, from)
    case MoveAssign(to, from) => Alive(w, to) && Alive(w, from)
    case Reset(i, newVal) => Alive(w, i) && newVal !in w.acquired
    case Release(i) => Alive(w, i)
    case Destroy(i) => Alive(w, i)
  }

  function Acquire(acquired: set<Pointer>, val: Pointer): set<Pointer>
  {
    if val == NULL then acquired else acquired + {val}
  }

  /** The handles change as the methods of the class say. */
  function Step(w: World, op: Op): World
    requires Enabled(w, op)
  {
    match op
    case Construct(val) =>
      w.(slots := w.slots + [Live(Holding(val))], acquired := Acquire(w.acquired, val))
    case MoveConstruct(from, garbage) =>
      var (moved, rest) := Swapped(Disowning(garbage), w.slots[from].fields);
      w.(slots := w.slots[from := Live(rest)] + [Live(moved)])
    case MoveAssign(to, from) =>
      var (a, b) := Swapped(w.slots[to].fields, w.slots[from].fields);
      w.(slots := w.slots[to := Live(a)][from := Live(b)])
    case Reset(i, newVal) =>
      w.(slots := w.slots[i := Live(Holding(newVal))], acquired := Acquire(w.acquired, newVal),
         deleted := w.deleted + Owned(w.slots[i].fields))
    case Release(i) =>
      w.(slots := w.slots[i := Live(Disowning(w.slots[i].fields.val))],
         released := w.released + Owned(w.slots[i].fields))
    case Destroy(i) =>
      w.(slots := w.slots[i := Dead], deleted := w.deleted + Owned(w.slots[i].fields))
  }

  /** Every operation of the run is enabled when its turn comes. */
  ghost predicate Possible(w: World, ops: seq<Op>)
    decreases ops
  {
    ops == [] || (Enabled(w, ops[0]) && Possible(Step(w, ops[0]), ops[1..]))
  }

  ghost function After(w: World, ops: seq<Op>): World
    requires Possible(w, ops)
    decreases ops
  {
    if ops == [] then w else After(Step(w, ops[0]), ops[1..])
  }

  // ----- conservation -----

  function One(b: bool): nat { if b then 1 else 0 }

  predicate Owns(s: Slot, r: Pointer) { s.Live? && !s.fields.empty && s.fields.val == r }

  /** How many handles own the resource. */
  function Owners(slots: seq<Slot>, r: Pointer): nat
  {
    if slots == [] then 0 else One(Owns(slots[0], r)) + Owners(slots[1..], r)
  }

  /** An acquired resource has one fate: one owner, released once or deleted once. Others have none. */
  ghost predicate Conserved(w: World, r: Pointer)
  {
    && NULL !in w.acquired
    && Owners(w.slots, r) + w.released[r] + w.deleted[r] == One(r in w.acquired)
  }

  lemma {:induction false} OwnersUpdate(slots: seq<Slot>, i: nat, s: Slot, r: Pointer)
    requires i < |slots|
    ensures Owners(slots[i := s], r) + One(Owns(slots[i], r)) == Owners(slots, r) + One(Owns(s, r))
  {
    if i == 0 {
      assert slots[i := s][1..] == slots[1..];
    } else {
      OwnersUpdate(slots[1..], i - 1, s, r);
      assert slots[i := s][1..] == slots[1..][i - 1 := s];
    }
  }

  lemma {:induction false} OwnersSnoc(slots: seq<Slot>, s: Slot, r: Pointer)
    ensures Owners(slots + [s], r) == Owners(slots, r) + One(Owns(s, r))
  {
    if slots == [] {
      assert (slots + [s])[1..] == [];
    } else {
      OwnersSnoc(slots[1..], s, r);
      assert (slots + [s])[1..] == slots[1..] + [s];
    }
  }

  lemma OwnedCount(s: Slot, r: Pointer)
    requires s.Live?
    ensures Owned(s.fields)[r] == One(Owns(s, r))
  {}

  lemma StepConserves(w: World, op: Op, r: Pointer)
    requires Conserved(w, r) && Enabled(w, op)
    ensures Conserved(Step(w, op), r)
  {
    hide Owners, Owned;
    match op
    case Construct(val) => OwnersSnoc(w.slots, Live(Holding(val)), r);
    case MoveConstruct(from, garbage) =>
      OwnersUpdate(w.slots, from, Live(Disowning(garbage)), r);
      OwnersSnoc(w.slots[from := Live(Disowning(garbage))], w.slots[from], r);
    case MoveAssign(to, from) =>
      OwnersUpdate(w.slots, to, w.slots[from], r);
      OwnersUpdate(w.slots[to := w.slots[from]], from, w.slots[to], r);
    case Reset(i, newVal) =>
      OwnedCount(w.slots[i], r);
      OwnersUpdate(w.slots, i, Live(Holding(newVal)), r);
    case Release(i) =>
      OwnedCount(w.slots[i], r);
      OwnersUpdate(w.slots, i, Live(Disowning(w.slots[i].fields.val)), r);
    case Destroy(i) =>
      OwnedCount(w.slots[i], r);
      OwnersUpdate(w.slots, i, Dead, r);
  }

  /** What each step does with a resource, handle by handle. */
  lemma StepMeans(w: World, op: Op, r: Pointer)
    requires Enabled(w, op)
    ensures
      var next := Step(w, op);
      match op
      case Construct(val) =>
        |next.slots| == |w.slots| + 1 && (Owns(next.slots[|w.slots|], r) <==> r == val != NULL)
      case MoveConstruct(from, _) =>
        && |next.slots| == |w.slots| + 1 && (Owns(next.slots[|w.slots|], r) <==> Owns(w.slots[from], r))
        && Alive(next, from) && !Owns(next.slots[from], r)
      case MoveAssign(to, from) =>
        && Alive(next, to) && Alive(next, from)
        && (Owns(next.slots[to], r) <==> Owns(w.slots[from], r)) && (Owns(next.slots[from], r) <==> Owns(w.slots[to], r))
      case Reset(i, newVal) =>
        && Alive(next, i) && (Owns(next.slots[i], r) <==> r == newVal != NULL)
        && next.deleted[r] == w.deleted[r] + One(Owns(w.slots[i], r))
      case Release(i) =>
        Alive(next, i) && !Owns(next.slots[i], r) && next.released[r] == w.released[r] + One(Owns(w.slots[i], r))
      case Destroy(i) =>
        !Alive(next, i) && next.deleted[r] == w.deleted[r] + One(Owns(w.slots[i], r))
  {}

  lemma {:induction false} RunConserves(w: World, ops: seq<Op>, r: Pointer)
    requires Conserved(w, r) && Possible(w, ops)
    ensures Conserved(After(w, ops), r)
    decreases ops
  {
    if ops != [] {
      StepConserves(w, ops[0], r);
      RunConserves(Step(w, ops[0]), ops[1..], r);
    }
  }

  lemma {:induction false} OwnerCounts(slots: seq<Slot>, i: nat, r: Pointer)
    requires i < |slots| && Owns(slots[i], r)
    ensures Owners(slots, r) >= 1
  {
    if i > 0 {
      OwnerCounts(slots[1..], i - 1, r);
    }
  }

  lemma {:induction false} TwoOwnersCount(slots: seq<Slot>, i: nat, j: nat, r: Pointer)
    requires i < j < |slots| && Owns(slots[i], r) && Owns(slots[j], r)
    ensures Owners(slots, r) >= 2
  {
    if i == 0 {
      OwnerCounts(slots[1..], j - 1, r);
    } else {
      TwoOwnersCount(slots[1..], i - 1, j - 1, r);
    }
  }

  /**
    In every run, at every point: an acquired resource is owned by one handle, released or deleted;
    no two handles own it, and it is never deleted twice or deleted after release.
   */
  lemma UniqueFate(ops: seq<Op>, r: Pointer)
    requires Possible(START, ops)
    ensures
      var w := After(START, ops);
      && Owners(w.slots, r) + w.released[r] + w.deleted[r] == One(r in w.acquired)
      && forall i, j :: 0 <= i < j < |w.slots| && Owns(w.slots[i], r) ==> !Owns(w.slots[j], r)
  {
    RunConserves(START, ops, r);
    var w := After(START, ops);
    forall i, j | 0 <= i < j < |w.slots| && Owns(w.slots[i], r)
      ensures !Owns(w.slots[j], r)
    {
      if Owns(w.slots[j], r) {
        TwoOwnersCount(w.slots, i, j, r);
      }
    }
  }

  lemma {:induction false} DeadOwnNothing(slots: seq<Slot>, r: Pointer)
    requires forall i :: 0 <= i < |slots| ==> slots[i].Dead?
    ensures Owners(slots, r) == 0
  {
    if slots != [] {
      DeadOwnNothing(slots[1..], r);
    }
  }

  /** Once all handles are gone, every acquired resource was deleted or released, exactly once. */
  lemma NothingLeaks(ops: seq<Op>, r: Pointer)
    requires Possible(START, ops)
    requires forall s <- After(START, ops).slots :: s.Dead?
    ensures
      var w := After(START, ops);
      w.released[r] + w.deleted[r] == One(r in w.acquired)
  {
    var w := After(START, ops);
    RunConserves(START, ops, r);
    DeadOwnNothing(w.slots, r);
  }
}
