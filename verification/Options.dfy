/**
  `Option`: results collected while parsing, their reduction by the multi-option policy, and the
  state machine parsing -> validated -> reduced -> callback run.
 */
module Options {
  import opened CheckedMultiply
  import Separated

  datatype Policy = Throw | TakeLast | TakeFirst | Join | TakeAll | Sum | Reverse

  /** The settings of an option that matter for its results. */
  datatype Settings = Settings(
    policy: Policy, typeSizeMin: nat, typeSizeMax: nat, expectedMin: nat, expectedMax: nat,
    delimiter: char, allowExtraArgs: bool, forceCallback: bool, defaultStr: string)
  {
    predicate Valid()
    {
      INT32.Contains(typeSizeMax) && INT32.Contains(expectedMax) && INT32.Contains(typeSizeMin * expectedMin)
    }
  }

  const MAX_VECTOR_SIZE := 0x2000_0000

  function ItemsMin(s: Settings): nat { s.typeSizeMin * s.expectedMin }

  function ItemsMax(s: Settings): nat
  {
    if INT32.Contains(s.typeSizeMax * s.expectedMax) then s.typeSizeMax * s.expectedMax else MAX_VECTOR_SIZE
  }

  method GetItemsExpectedMax(s: Settings) returns (t: int)
    requires s.Valid()
    ensures t == ItemsMax(s)
  {
    var ok;
    ok, t := Multiply(INT32, s.typeSizeMax, s.expectedMax);
    if !ok {
      t := MAX_VECTOR_SIZE;
    }
  }

  // ----- what one argument adds -----

  function PieceEnd(s: string, d: char): (n: nat)
    ensures n <= |s|
  {
    if s == [] || s[0] == d then 0 else 1 + PieceEnd(s[1..], d)
  }

  /** The non-empty pieces between delimiters. */
  function NonEmptyPieces(s: string, d: char): (r: seq<string>)
    ensures forall p <- r :: 0 < |p| <= |s|
  {
    if s == [] then []
    else
      var n := PieceEnd(s, d);
      var rest := if n < |s| then NonEmptyPieces(s[n + 1..], d) else [];
      (if n == 0 then [] else [s[..n]]) + rest
  }

  predicate IsVectorText(o: Settings, s: string)
  {
    o.allowExtraArgs && |s| >= 2 && s[0] == '[' && s[|s| - 1] == ']'
  }

  /** `_add_result`: the strings one argument is stored as. */
  function Added(o: Settings, s: string): seq<string>
    decreases |s|, 1
  {
    if IsVectorText(o, s) then AddedAll(o, NonEmptyPieces(s[1..|s| - 1], ','), |s|)
    else if o.delimiter == '\0' || s == [] then [s]
    else if exists i :: 0 <= i < |s| && s[i] == o.delimiter then NonEmptyPieces(s, o.delimiter)
    else [s]
  }

  function AddedAll(o: Settings, ss: seq<string>, bound: nat): seq<string>
    requires forall p <- ss :: |p| < bound
    decreases bound, 0, |ss|
  {
    if ss == [] then [] else Added(o, ss[0]) + AddedAll(o, ss[1..], bound)
  }

  // ----- reduction -----

  const EMPTY_MARK := "{}"
  const SEPARATOR := "%%"

  function Min(a: nat, b: nat): nat { if a <= b then a else b }

  function Reversed(s: seq<string>): (r: seq<string>)
    ensures |r| == |s| && forall i :: 0 <= i < |s| ==> r[i] == s[|s| - 1 - i]
  {
    if s == [] then [] else Reversed(s[1..]) + [s[0]]
  }

  function JoinText(s: seq<string>, separator: char): string
  {
    if s == [] then [] else if |s| == 1 then s[0] else s[0] + [separator] + JoinText(s[1..], separator)
  }

  /** How many results a trimming policy keeps. */
  function TrimSize(o: Settings, n: nat): (k: nat)
    ensures k <= n && (n > 0 ==> k > 0)
  {
    Min(if ItemsMax(o) > 1 then ItemsMax(o) else 1, n)
  }

  datatype Reduction = Mismatch | Out(list: seq<string>)

  /** The policy part of `_reduce_results`; an empty list means "the results as they are". */
  function ByPolicy(o: Settings, sumOf: seq<string> -> string, original: seq<string>): Reduction
  {
    var n := |original|;
    var k := TrimSize(o, n);
    match o.policy
    case TakeAll => Out([])
    case TakeLast => Out(if n != k then original[n - k..] else [])
    case Reverse => Out(if n != k || k > 1 then Reversed(original[n - k..]) else [])
    case TakeFirst => Out(if n != k then original[..k] else [])
    case Join =>
      Out(if n > 1 then [JoinText(original, if o.delimiter == '\0' then '\n' else o.delimiter)] else [])
    case Sum => Out([sumOf(original)])
    case Throw =>
      var min := if ItemsMin(o) == 0 then 1 else ItemsMin(o);
      var max := if ItemsMax(o) == 0 then 1 else ItemsMax(o);
      if n < min then Mismatch
      else if n <= max then Out([])
      else if max == 1 && original == [EMPTY_MARK, SEPARATOR] then Out(original)
      else Mismatch
  }

  /** `_reduce_results`: a lone `{}` for an option that expects values gets a separator. */
  function Reduce(o: Settings, sumOf: seq<string> -> string, original: seq<string>): Reduction
  {
    match ByPolicy(o, sumOf, original)
    case Mismatch => Mismatch
    case Out(list) =>
      if list == [] then
        if original == [EMPTY_MARK] && ItemsMin(o) > 0 then Out([EMPTY_MARK, SEPARATOR]) else Out([])
      else if list == [EMPTY_MARK] && ItemsMin(o) > 0 then Out([EMPTY_MARK, SEPARATOR])
      else Out(list)
  }

  /** What the callback is given: the reduced list, or the results where that is empty. */
  function Sent(reduced: seq<string>, results: seq<string>): seq<string>
  {
    if reduced == [] then results else reduced
  }

  // ----- the class -----

  datatype State = Parsing | Validated | Reduced | CallbackRun {
    predicate AtLeastReduced() { Reduced? || CallbackRun? }
  }

  class CliOption {
    const settings: Settings
    const sumOf: seq<string> -> string
    const hasCallback: bool
    /** Non-modifying validators accept the results. */
    const accepts: seq<string> -> bool
    /** The callback converts the list and reports success. */
    const converts: seq<string> -> bool

    var results: seq<string>
    var procResults: seq<string>
    var state: State
    /** The lists handed to the callback so far. */
    var calls: seq<seq<string>>

    ghost predicate Valid()
      reads this
    {
      state.AtLeastReduced() ==> Reduce(settings, sumOf, results) == Out(procResults)
    }

    constructor (settings: Settings, sumOf: seq<string> -> string, hasCallback: bool,
                 accepts: seq<string> -> bool, converts: seq<string> -> bool)
      ensures Valid() && results == [] && state == Parsing && calls == []
      ensures this.settings == settings && this.sumOf == sumOf && this.hasCallback == hasCallback
      ensures this.accepts == accepts && this.converts == converts
    {
      this.settings, this.sumOf, this.hasCallback := settings, sumOf, hasCallback;
      this.accepts, this.converts := accepts, converts;
      results, procResults, state, calls := [], [], Parsing, [];
    }

    method AddResult(s: string)
      requires Valid()
      modifies this`results, this`state
      ensures Valid() && state == Parsing && results == old(results) + Added(settings, s)
    {
      results := results + Added(settings, s);
      state := Parsing;
    }

    method Clear()
      requires Valid()
      modifies this`results, this`state
      ensures Valid() && state == Parsing && results == []
    {
      results := [];
      state := Parsing;
    }

    /** `_reduce_results` into `proc_results_`: cleared first, then assigned. */
    method ReduceResults() returns (ok: bool)
      requires Valid() && !state.AtLeastReduced()
      modifies this`procResults
      ensures ok <==> Reduce(settings, sumOf, results).Out?
      ensures ok ==> Reduce(settings, sumOf, results) == Out(procResults)
    {
      procResults := [];
      match Reduce(settings, sumOf, results) {
        case Mismatch => ok := false;
        case Out(list) =>
          procResults := list;
          ok := true;
      }
    }

    /**
      `false` stands for an exception, from the callback or before it. An empty list is filled with the
      forced default; new results have to be accepted, and the policy has to reduce them.
     */
    method RunCallback() returns (ok: bool)
      requires Valid()
      modifies this
      ensures
        var filled := settings.forceCallback && old(results) == [];
        var passes := (old(state) == Parsing || filled ==> accepts(results)) && Reduce(settings, sumOf, results).Out?;
        && Valid()
        && results == (if filled then Added(settings, settings.defaultStr) else old(results))
        && (passes ==> state == CallbackRun && Reduce(settings, sumOf, results) == Out(procResults))
        && calls == old(calls) + (if hasCallback && passes then [Sent(procResults, results)] else [])
        && (ok <==> passes && (hasCallback ==> converts(Sent(procResults, results))))
    {
      if settings.forceCallback && results == [] {
        AddResult(settings.defaultStr);
      }
      if state == Parsing {
        if !accepts(results) {
          return false;
        }
        state := Validated;
      }
      if !state.AtLeastReduced() {
        ok := ReduceResults();
        if !ok {
          return false;
        }
        state := Reduced;
      }
      state := CallbackRun;
      if !hasCallback {
        return true;
      }
      var list := if procResults == [] then results else procResults;
      calls := calls + [list];
      ok := converts(list);
    }
  }

  // ----- what the policies promise -----

  /** The part of the results a trimming policy keeps, in the order it is handed on. */
  function Trimmed(o: Settings, results: seq<string>): seq<string>
  {
    var n, k := |results|, TrimSize(o, |results|);
    match o.policy
    case TakeLast => results[n - k..]
    case Reverse => Reversed(results[n - k..])
    case TakeFirst => results[..k]
    case _ => results
  }

  /** A lone `{}` becomes `{}`, `%%` where values are expected. */
  function Marked(o: Settings, list: seq<string>): seq<string>
  {
    if list == ["{}"] && o.typeSizeMin * o.expectedMin > 0 then ["{}", "%%"] else list
  }

  lemma SentIsMarked(o: Settings, sumOf: seq<string> -> string, results: seq<string>)
    requires Reduce(o, sumOf, results).Out?
    ensures Sent(Reduce(o, sumOf, results).list, results) == Marked(o, Sent(ByPolicy(o, sumOf, results).list, results))
  {
    hide ByPolicy;
  }

  lemma KeptPart(o: Settings, sumOf: seq<string> -> string, results: seq<string>)
    requires o.policy.TakeLast? || o.policy.Reverse? || o.policy.TakeFirst? || o.policy.TakeAll?
    ensures ByPolicy(o, sumOf, results).Out? && Sent(ByPolicy(o, sumOf, results).list, results) == Trimmed(o, results)
  {
    hide ItemsMax, ItemsMin, JoinText, Reversed;
    var n, k := |results|, TrimSize(o, |results|);
    if n == k {
      assert results[n - k..] == results == results[..k];
      if n == 1 {
        assert Reversed(results) == results;
      }
    }
  }

  /** The callback gets the kept part of the results, marked. */
  lemma TrimmingPolicies(o: Settings, sumOf: seq<string> -> string, results: seq<string>)
    requires o.policy.TakeLast? || o.policy.Reverse? || o.policy.TakeFirst? || o.policy.TakeAll?
    ensures Reduce(o, sumOf, results).Out?
    ensures Sent(Reduce(o, sumOf, results).list, results) == Marked(o, Trimmed(o, results))
  {
    hide Marked, Trimmed, Sent, ItemsMin, ByPolicy;
    KeptPart(o, sumOf, results);
    SentIsMarked(o, sumOf, results);
  }

  /** How many results are kept: as many as the option takes, at least one; a count beyond 32 bits is cut. */
  lemma KeptCount(o: Settings, results: seq<string>)
    requires o.policy.TakeLast? || o.policy.Reverse? || o.policy.TakeFirst?
    ensures
      var items := o.typeSizeMax * o.expectedMax;
      |Trimmed(o, results)| ==
      if items > 0x7FFF_FFFF then (if |results| < 0x2000_0000 then |results| else 0x2000_0000)
      else if items <= 1 then (if results == [] then 0 else 1)
      else if |results| < items then |results| else items
  {}

  /** Without a policy the number of results has to fit; only an empty container may come as two. */
  lemma ThrowPolicy(o: Settings, sumOf: seq<string> -> string, results: seq<string>)
    requires o.policy.Throw?
    ensures
      var min, n := o.typeSizeMin * o.expectedMin, |results|;
      var items := o.typeSizeMax * o.expectedMax;
      var max := if items > 0x7FFF_FFFF then 0x2000_0000 else items;
      && (Reduce(o, sumOf, results).Out? <==>
            && n >= 1 && n >= min
            && (n <= max || n == 1 || (max <= 1 && results == ["{}", "%%"])))
      && (Reduce(o, sumOf, results).Out? ==> Sent(Reduce(o, sumOf, results).list, results) == Marked(o, results))
  {}

  lemma {:induction false} JoinTextIs(s: seq<string>, separator: char)
    requires s != []
    ensures JoinText(s, separator) == Separated.Joined(s, [separator])
  {
    if |s| > 1 {
      JoinTextIs(s[1..], separator);
      var a, b := s[0], Separated.Joined(s[1..], [separator]);
      assert a + [separator] + b == a + ([separator] + b);
    }
  }

  /** Several results become one text, joined with the delimiter or else with line breaks. */
  lemma JoinPolicy(o: Settings, sumOf: seq<string> -> string, results: seq<string>)
    requires o.policy.Join?
    ensures Reduce(o, sumOf, results).Out?
    ensures
      var separator := if o.delimiter == '\0' then "\n" else [o.delimiter];
      Sent(Reduce(o, sumOf, results).list, results)
      == Marked(o, if |results| > 1 then [Separated.Joined(results, separator)] else results)
  {
    hide ItemsMax, JoinText, Separated.Joined;
    if |results| > 1 {
      JoinTextIs(results, if o.delimiter == '\0' then '\n' else o.delimiter);
    }
  }

  lemma SumPolicy(o: Settings, sumOf: seq<string> -> string, results: seq<string>)
    requires o.policy.Sum?
    ensures Reduce(o, sumOf, results).Out?
    ensures Sent(Reduce(o, sumOf, results).list, results) == Marked(o, [sumOf(results)])
  {
    hide ItemsMax, JoinText;
  }
}
