/**
  `uWS::BackPressure`: a byte queue whose removals are collected in `pendingRemoval` and carried
  out in one go once they exceed a 32nd of the buffer.
 */
module BackPressure {

  const UINT32 := 0x1_0000_0000

  type Byte = b: int | 0 <= b < 256

  datatype Queue = Queue(buffer: seq<Byte>, pendingRemoval: nat) {
    predicate Valid() { pendingRemoval <= |buffer| && pendingRemoval < UINT32 }

    /** The bytes a reader sees through `data()` and `length()`. */
    function View(): seq<Byte>
      requires Valid()
    {
      buffer[pendingRemoval..]
    }
  }

  const EMPTY := Queue([], 0)

  datatype Op = Append(data: seq<Byte>) | Erase(length: nat) | Resize(length: nat) | Clear

  /** `erase` takes a 32-bit length. */
  predicate Callable(op: Op) { op.Erase? ==> op.length < UINT32 }

  function Resized(s: seq<Byte>, length: nat): seq<Byte>
  {
    if length <= |s| then s[..length] else s + seq(length - |s|, _ => 0)
  }

  /** The removal counter is a 32-bit unsigned number. */
  function Counted(q: Queue, length: nat): nat { (q.pendingRemoval + length) % UINT32 }

  predicate Flushes(q: Queue, length: nat) { Counted(q, length) > |q.buffer| / 32 }

  function Apply(q: Queue, op: Op): (r: Queue)
    requires q.Valid() && Callable(op)
    ensures r.Valid()
  {
    match op
    case Append(data) => Queue(q.buffer + data, q.pendingRemoval)
    case Erase(length) =>
      var n := Counted(q, length);
      if !Flushes(q, length) then Queue(q.buffer, n)
      else Queue(if n <= |q.buffer| then q.buffer[n..] else [], 0)
    case Resize(length) => Queue(Resized(q.buffer, length + q.pendingRemoval), q.pendingRemoval)
    case Clear => EMPTY
  }

  /** Bytes that `std::string::erase` moves to the front. */
  function Shifted(q: Queue, op: Op): (n: nat)
    requires q.Valid() && Callable(op)
  {
    if op.Erase? && Flushes(q, op.length) && Counted(q, op.length) <= |q.buffer|
    then |q.buffer| - Counted(q, op.length) else 0
  }

  // ----- the class -----

  class Buffer {
    var buffer: seq<Byte>
    var pendingRemoval: nat

    ghost predicate Valid()
      reads this
    {
      Value().Valid()
    }

    ghost function Value(): Queue
      reads this
    {
      Queue(buffer, pendingRemoval)
    }

    constructor ()
      ensures Valid() && Value() == EMPTY
    {
      buffer, pendingRemoval := [], 0;
    }

    method Append(data: seq<Byte>)
      requires Valid()
      modifies this
      ensures Valid() && Value() == Apply(old(Value()), Op.Append(data))
      ensures Value().View() == old(Value().View()) + data
    {
      buffer := buffer + data;
    }

    method Erase(length: nat)
      requires Valid() && length < UINT32
      modifies this
      ensures Valid() && Value() == Apply(old(Value()), Op.Erase(length))
      ensures Value().View() == Dropped(old(Value().View()), length) <==> !Wraps(old(Value()), Op.Erase(length))
    {
      EraseRefines(Value(), length);
      hide Dropped, Wraps;
      pendingRemoval := (pendingRemoval + length) % UINT32;
      if pendingRemoval > |buffer| / 32 {
        buffer := if pendingRemoval <= |buffer| then buffer[pendingRemoval..] else [];
        pendingRemoval := 0;
      }
    }

    method Length() returns (n: nat)
      requires Valid()
      ensures n == |Value().View()|
    {
      n := |buffer| - pendingRemoval;
    }

    method Clear()
      modifies this
      ensures Valid() && Value() == EMPTY
    {
      pendingRemoval := 0;
      buffer := [];
    }

    method Resize(length: nat)
      requires Valid()
      modifies this
      ensures Valid() && Value() == Apply(old(Value()), Op.Resize(length))
      ensures Value().View() == Resized(old(Value().View()), length)
      ensures |Value().View()| == length
      ensures forall i :: 0 <= i < length ==>
                Value().View()[i] == if i < old(|Value().View()|) then old(Value().View())[i] else 0
    {
      RefinesIffNoWrap(Value(), Op.Resize(length));
      buffer := Resized(buffer, length + pendingRemoval);
    }

    method Data() returns (bytes: seq<Byte>)
      requires Valid()
      ensures bytes == Value().View()
    {
      bytes := buffer[pendingRemoval..];
    }
  }

  // ----- refinement of a plain byte sequence -----

  function Dropped(s: seq<Byte>, n: nat): seq<Byte> { if n <= |s| then s[n..] else [] }

  /** The same operations on a plain byte sequence. */
  function Simple(v: seq<Byte>, op: Op): seq<Byte>
  {
    match op
    case Append(data) => v + data
    case Erase(length) => Dropped(v, length)
    case Resize(length) => Resized(v, length)
    case Clear => []
  }

  /** The removal counter would pass 32 bits. */
  predicate Wraps(q: Queue, op: Op) { op.Erase? && q.pendingRemoval + op.length >= UINT32 }

  /** An operation acts on the view as on a plain sequence exactly when the counter does not wrap around. */
  lemma RefinesIffNoWrap(q: Queue, op: Op)
    requires q.Valid() && Callable(op)
    ensures Apply(q, op).View() == Simple(q.View(), op) <==> !Wraps(q, op)
  {
    match op
    case Append(_) =>
    case Clear =>
    case Resize(length) =>
      var n := length + q.pendingRemoval;
      if n <= |q.buffer| {
        assert q.buffer[..n][q.pendingRemoval..] == q.buffer[q.pendingRemoval..][..length];
      }
    case Erase(length) => EraseRefines(q, length);
  }

  lemma EraseRefines(q: Queue, length: nat)
    requires q.Valid() && length < UINT32
    ensures Apply(q, Op.Erase(length)).View() == Dropped(q.View(), length) <==> !Wraps(q, Op.Erase(length))
  {
    var n := Counted(q, length);
    var v := Apply(q, Op.Erase(length)).View();
    assert v == Dropped(q.buffer, n);
    if Wraps(q, Op.Erase(length)) {
      assert n == q.pendingRemoval + length - UINT32 < q.pendingRemoval;
      assert |v| == |q.buffer| - n;
    } else {
      assert n == q.pendingRemoval + length;
      assert Dropped(q.buffer, n) == Dropped(q.View(), length);
    }
  }

  /** After a wrap the byte erased first is visible again, although everything was to be erased. */
  lemma ErasedByteReturns(s: seq<Byte>)
    requires |s| == 32
    ensures
      var one := Apply(Queue(s, 0), Op.Erase(1));
      var all := Apply(one, Op.Erase(0xFFFF_FFFF));
      one.View() == s[1..] && all.View() == s && Simple(one.View(), Op.Erase(0xFFFF_FFFF)) == []
  {
    assert Apply(Queue(s, 0), Op.Erase(1)) == Queue(s, 1);
    assert Counted(Queue(s, 1), 0xFFFF_FFFF) == 0;
  }

  /** One flush pays for itself: fewer than 31 bytes are moved for every byte removed. */
  lemma StepCost(q: Queue, op: Op)
    requires q.Valid() && Callable(op) && !Wraps(q, op)
    ensures Shifted(q, op) + 31 * Apply(q, op).pendingRemoval <= 31 * (q.pendingRemoval + Erased(q, op))
  {}

  /** Bytes the operation removes from the front of the view. */
  function Erased(q: Queue, op: Op): (n: nat)
    requires q.Valid()
  {
    if !op.Erase? then 0 else if op.length <= |q.View()| then op.length else |q.View()|
  }

  // ----- whole runs -----

  /** Every step is callable and no counter wraps around on the way. */
  ghost predicate Admissible(q: Queue, ops: seq<Op>)
    requires q.Valid()
    decreases ops
  {
    ops == [] || (Callable(ops[0]) && !Wraps(q, ops[0]) && Admissible(Apply(q, ops[0]), ops[1..]))
  }

  ghost function Run(q: Queue, ops: seq<Op>): (r: Queue)
    requires q.Valid() && Admissible(q, ops)
    ensures r.Valid()
    decreases ops
  {
    if ops == [] then q else Run(Apply(q, ops[0]), ops[1..])
  }

  ghost function SimpleRun(v: seq<Byte>, ops: seq<Op>): seq<Byte>
    decreases ops
  {
    if ops == [] then v else SimpleRun(Simple(v, ops[0]), ops[1..])
  }

  ghost function TotalShifted(q: Queue, ops: seq<Op>): nat
    requires q.Valid() && Admissible(q, ops)
    decreases ops
  {
    if ops == [] then 0 else Shifted(q, ops[0]) + TotalShifted(Apply(q, ops[0]), ops[1..])
  }

  ghost function TotalErased(q: Queue, ops: seq<Op>): nat
    requires q.Valid() && Admissible(q, ops)
    decreases ops
  {
    if ops == [] then 0 else Erased(q, ops[0]) + TotalErased(Apply(q, ops[0]), ops[1..])
  }

  /** Every run looks like the same run on a plain byte sequence. */
  lemma {:induction false} RunRefines(q: Queue, ops: seq<Op>)
    requires q.Valid() && Admissible(q, ops)
    ensures Run(q, ops).View() == SimpleRun(q.View(), ops)
    decreases ops
  {
    if ops != [] {
      RefinesIffNoWrap(q, ops[0]);
      RunRefines(Apply(q, ops[0]), ops[1..]);
    }
  }

  /** Below this many visible bytes the removed ones, at most a 31st of them, fit the counter as well. */
  const LIMIT := 31 * 0x800_0000

  /** What a caller can see to: no erase passes the visible bytes, and these stay below the limit. */
  ghost predicate Careful(v: seq<Byte>, ops: seq<Op>)
    decreases ops
  {
    && |v| < LIMIT
    && (ops == [] ||
        ((ops[0].Erase? ==> ops[0].length <= |v|) && Careful(Simple(v, ops[0]), ops[1..])))
  }

  lemma CarefulStep(q: Queue, op: Op)
    requires q.Valid() && |q.View()| < LIMIT && 31 * q.pendingRemoval < LIMIT
    requires op.Erase? ==> op.length <= |q.View()|
    ensures Callable(op) && !Wraps(q, op) && 31 * Apply(q, op).pendingRemoval < LIMIT
  {}

  lemma {:induction false} CarefulRun(q: Queue, ops: seq<Op>)
    requires q.Valid() && 31 * q.pendingRemoval < LIMIT && Careful(q.View(), ops)
    ensures Admissible(q, ops)
    decreases ops
  {
    if ops != [] {
      CarefulStep(q, ops[0]);
      RefinesIffNoWrap(q, ops[0]);
      CarefulRun(Apply(q, ops[0]), ops[1..]);
    }
  }

  /** A careful caller never meets the wrap: the buffer is the plain byte sequence throughout. */
  lemma CarefulCallers(ops: seq<Op>)
    requires Careful([], ops)
    ensures Admissible(EMPTY, ops) && Run(EMPTY, ops).View() == SimpleRun([], ops)
  {
    assert EMPTY.View() == [];
    CarefulRun(EMPTY, ops);
    RunRefines(EMPTY, ops);
  }

  lemma {:induction false} RunCost(q: Queue, ops: seq<Op>)
    requires q.Valid() && Admissible(q, ops)
    ensures TotalShifted(q, ops) + 31 * Run(q, ops).pendingRemoval <= 31 * (q.pendingRemoval + TotalErased(q, ops))
    decreases ops
  {
    if ops != [] {
      StepCost(q, ops[0]);
      RunCost(Apply(q, ops[0]), ops[1..]);
    }
  }

  /** From an empty buffer, at most 31 bytes are ever moved for each byte erased. */
  lemma AmortisedCost(ops: seq<Op>)
    requires Admissible(EMPTY, ops)
    ensures TotalShifted(EMPTY, ops) <= 31 * TotalErased(EMPTY, ops)
  {
    RunCost(EMPTY, ops);
  }
}
