/**
  `App::_process_requirements`: after a parse, each app checks its own requirements and goes on to the
  subcommands that were used. A parse is accepted exactly when every app visited meets its own.

  Options and apps refer to each other by number; a table gives the counts behind the numbers.
 */
module Requirements {

  type OptionId = nat
  type AppId = nat

  datatype Opt = Opt(count: nat, required: bool, needs: seq<OptionId>, excludes: seq<OptionId>)

  datatype App = App(
    name: string, parsed: nat, disabled: bool, required: bool, options: seq<Opt>, subs: seq<App>,
    excludedOptions: seq<OptionId>, excludedSubcommands: seq<AppId>,
    neededOptions: seq<OptionId>, neededSubcommands: seq<AppId>,
    minOptions: nat, maxOptions: nat, minSubcommands: nat,
    selected: nat)  // the subcommands parsed, as a number

  datatype Table = Table(options: OptionId -> nat, apps: AppId -> App)

  // ----- counts -----

  function OptionTotal(options: seq<Opt>, k: nat): nat
    requires k <= |options|
  {
    if k == 0 then 0 else OptionTotal(options, k - 1) + options[k - 1].count
  }

  function SubTotal(a: App, k: nat): nat
    requires k <= |a.subs|
    decreases a, k
  {
    if k == 0 then 0 else SubTotal(a, k - 1) + Total(a.subs[k - 1])
  }

  /** `count_all`: options and subcommands, and for a named app how often it was called. */
  function Total(a: App): nat
    decreases a, |a.subs| + 1
  {
    OptionTotal(a.options, |a.options|) + SubTotal(a, |a.subs|) + if a.name == [] then 0 else a.parsed
  }

  method CountAll(a: App) returns (cnt: nat)
    ensures cnt == Total(a)
    decreases a
  {
    cnt := 0;
    for i := 0 to |a.options|
      invariant cnt == OptionTotal(a.options, i)
    {
      cnt := cnt + a.options[i].count;
    }
    for i := 0 to |a.subs|
      invariant cnt == OptionTotal(a.options, |a.options|) + SubTotal(a, i)
    {
      var n := CountAll(a.subs[i]);
      cnt := cnt + n;
    }
    if a.name != [] {
      cnt := cnt + a.parsed;
    }
  }

  predicate Used(a: App) { Total(a) > 0 }

  /** Something was given to the node itself: an option, or a call of a named app. */
  predicate Given(a: App) { (exists o <- a.options :: o.count > 0) || (a.name != [] && a.parsed > 0) }

  /** A node of the tree, by the indices of the subcommands that lead to it. */
  predicate IsPath(a: App, path: seq<nat>)
  {
    path == [] || (path[0] < |a.subs| && IsPath(a.subs[path[0]], path[1..]))
  }

  function Node(a: App, path: seq<nat>): App
    requires IsPath(a, path)
  {
    if path == [] then a else Node(a.subs[path[0]], path[1..])
  }

  lemma {:induction false} OptionTotalPositive(options: seq<Opt>, k: nat)
    requires k <= |options|
    ensures OptionTotal(options, k) > 0 <==> exists i :: 0 <= i < k && options[i].count > 0
  {
    if k > 0 {
      OptionTotalPositive(options, k - 1);
    }
  }

  lemma {:induction false} SubTotalPositive(a: App, k: nat)
    requires k <= |a.subs|
    ensures SubTotal(a, k) > 0 <==> exists i :: 0 <= i < k && Used(a.subs[i])
  {
    if k > 0 {
      SubTotalPositive(a, k - 1);
    }
  }

  lemma UsedStep(a: App)
    ensures Used(a) <==> Given(a) || exists i :: 0 <= i < |a.subs| && Used(a.subs[i])
  {
    OptionTotalPositive(a.options, |a.options|);
    SubTotalPositive(a, |a.subs|);
    hide OptionTotal, SubTotal;
    if exists o <- a.options :: o.count > 0 {
      var o :| o in a.options && o.count > 0;
      var i :| 0 <= i < |a.options| && a.options[i] == o;
      assert a.options[i].count > 0;
    }
  }

  lemma {:induction false} UsedNode(a: App) returns (path: seq<nat>)
    requires Used(a)
    ensures IsPath(a, path) && Given(Node(a, path))
  {
    hide Used, Given;
    UsedStep(a);
    if Given(a) {
      path := [];
    } else {
      var i :| 0 <= i < |a.subs| && Used(a.subs[i]);
      var rest := UsedNode(a.subs[i]);
      path := [i] + rest;
      assert path[1..] == rest;
    }
  }

  lemma {:induction false} NodeUsed(a: App, path: seq<nat>)
    requires IsPath(a, path) && Given(Node(a, path))
    ensures Used(a)
  {
    hide Used, Given;
    UsedStep(a);
    if path != [] {
      NodeUsed(a.subs[path[0]], path[1..]);
    }
  }

  /** An app is used if and only if something was given to a node of its tree. */
  lemma UsedIffGiven(a: App)
    ensures Used(a) <==> exists path :: IsPath(a, path) && Given(Node(a, path))
  {
    hide Used, Given;
    if Used(a) {
      var path := UsedNode(a);
    }
    if path :| IsPath(a, path) && Given(Node(a, path)) {
      NodeUsed(a, path);
    }
  }

  // ----- what an app asks for -----

  predicate Excluded(t: Table, a: App)
  {
    || (exists k <- a.excludedOptions :: t.options(k) > 0)
    || (exists k <- a.excludedSubcommands :: Used(t.apps(k)))
  }

  predicate Missing(t: Table, a: App)
  {
    || (exists k <- a.neededOptions :: t.options(k) == 0)
    || (exists k <- a.neededSubcommands :: !Used(t.apps(k)))
  }

  /** Something excludes the app or something it needs is missing: it may only be unused. */
  predicate Blocked(t: Table, a: App) { Excluded(t, a) || Missing(t, a) }

  predicate OptionMeets(t: Table, o: Opt)
  {
    if o.count == 0 then !o.required
    else (forall k <- o.needs :: t.options(k) > 0) && (forall k <- o.excludes :: t.options(k) == 0)
  }

  /** Option groups are unnamed subcommands; the used ones count as options. */
  predicate IsUsedGroup(sub: App) { !sub.disabled && sub.name == [] && Used(sub) }

  function UsedOptions(a: App): set<nat> { set i: nat | i < |a.options| && a.options[i].count > 0 }

  function UsedGroups(a: App): set<nat> { set i: nat | i < |a.subs| && IsUsedGroup(a.subs[i]) }

  function UsedCount(a: App): nat { |UsedOptions(a)| + |UsedGroups(a)| }

  predicate CountMeets(a: App)
  {
    a.minOptions <= UsedCount(a) && (a.maxOptions > 0 ==> UsedCount(a) <= a.maxOptions)
  }

  /** An unused optional group need not be looked into when the number of options already suffices. */
  predicate Skipped(a: App, sub: App)
  {
    || sub.disabled
    || (sub.name == [] && !sub.required && !Used(sub)
        && ((0 < a.minOptions <= UsedCount(a)) || (a.maxOptions > 0 && a.minOptions <= UsedCount(a))))
  }

  /** The app's own requirements. */
  predicate Meets(t: Table, a: App)
  {
    if Blocked(t, a) then !Used(a)
    else
      && (forall o <- a.options :: OptionMeets(t, o))
      && a.minSubcommands <= a.selected
      && CountMeets(a)
      && forall sub <- a.subs :: !Skipped(a, sub) && sub.required ==> Used(sub)
  }

  /** The check goes on to the subcommand. */
  predicate Descends(t: Table, a: App, sub: App)
  {
    !Blocked(t, a) && !Skipped(a, sub) && (sub.parsed > 0 || sub.name == [])
  }

  predicate Accepts(t: Table, a: App)
  {
    Meets(t, a) && forall i :: 0 <= i < |a.subs| ==> Descends(t, a, a.subs[i]) ==> Accepts(t, a.subs[i])
  }

  // ----- the method -----

  method AnyOption(t: Table, ids: seq<OptionId>, counted: bool) returns (found: bool)
    ensures found <==> exists k <- ids :: (t.options(k) > 0) == counted
  {
    found := false;
    for i := 0 to |ids|
      invariant found <==> exists k <- ids[..i] :: (t.options(k) > 0) == counted
    {
      assert ids[..i + 1] == ids[..i] + [ids[i]];
      if (t.options(ids[i]) > 0) == counted {
        found := true;
      }
    }
    assert ids[..|ids|] == ids;
  }

  method AnyApp(t: Table, ids: seq<AppId>, counted: bool) returns (found: bool)
    ensures found <==> exists k <- ids :: Used(t.apps(k)) == counted
  {
    found := false;
    for i := 0 to |ids|
      invariant found <==> exists k <- ids[..i] :: Used(t.apps(k)) == counted
    {
      assert ids[..i + 1] == ids[..i] + [ids[i]];
      var n := CountAll(t.apps(ids[i]));
      if (n > 0) == counted {
        found := true;
      }
    }
    assert ids[..|ids|] == ids;
  }

  method CheckOption(t: Table, opt: Opt) returns (ok: bool)
    ensures ok <==> OptionMeets(t, opt)
  {
    if opt.required && opt.count == 0 {
      return false;
    }
    var needMissing := AnyOption(t, opt.needs, false);
    if opt.count > 0 && needMissing {
      return false;
    }
    var excludeGiven := AnyOption(t, opt.excludes, true);
    ok := !(opt.count > 0 && excludeGiven);
  }

  /** The loop over the options: `used` counts those that were given. */
  method CheckOptions(t: Table, a: App) returns (ok: bool, used: nat)
    ensures ok <==> forall o <- a.options :: OptionMeets(t, o)
    ensures ok ==> used == |UsedOptions(a)|
  {
    used := 0;
    ghost var seen: set<nat> := {};
    for i := 0 to |a.options|
      invariant forall o <- a.options[..i] :: OptionMeets(t, o)
      invariant seen == (set k: nat | k < i && a.options[k].count > 0) && used == |seen|
    {
      var opt := a.options[i];
      if opt.count != 0 {
        used := used + 1;
        seen := seen + {i};
      }
      ok := CheckOption(t, opt);
      if !ok {
        assert opt in a.options;
        return;
      }
      assert a.options[..i + 1] == a.options[..i] + [opt];
    }
    assert a.options[..|a.options|] == a.options;
    assert seen == UsedOptions(a);
    ok := true;
  }

  /** The loop over the option groups. */
  method CountGroups(a: App) returns (used: nat)
    ensures used == |UsedGroups(a)|
  {
    used := 0;
    ghost var seen: set<nat> := {};
    for i := 0 to |a.subs|
      invariant seen == (set k: nat | k < i && IsUsedGroup(a.subs[k])) && used == |seen|
    {
      var n := CountAll(a.subs[i]);
      if !a.subs[i].disabled && a.subs[i].name == [] && n > 0 {
        used := used + 1;
        seen := seen + {i};
      }
    }
    assert seen == UsedGroups(a);
  }

  method IsBlocked(t: Table, a: App) returns (blocked: bool)
    ensures blocked <==> Blocked(t, a)
  {
    var excludedOption := AnyOption(t, a.excludedOptions, true);
    var excludedApp := AnyApp(t, a.excludedSubcommands, true);
    if excludedOption || excludedApp {
      return true;
    }
    var missingOption := AnyOption(t, a.neededOptions, false);
    var missingApp := AnyApp(t, a.neededSubcommands, false);
    blocked := missingOption || missingApp;
  }

  /** `false` stands for an exception. */
  method ProcessRequirements(t: Table, a: App) returns (ok: bool)
    ensures ok <==> Accepts(t, a)
    decreases a
  {
    var total := CountAll(a);
    var blocked := IsBlocked(t, a);
    if blocked {
      return total == 0;
    }
    var used;
    ok, used := CheckOptions(t, a);
    if !ok || a.minSubcommands > a.selected {
      return false;
    }
    var groups := CountGroups(a);
    used := used + groups;
    if a.minOptions > used || (a.maxOptions > 0 && a.maxOptions < used) {
      return false;
    }
    for i := 0 to |a.subs|
      invariant forall k :: 0 <= k < i ==> SubMeets(t, a, a.subs[k])
    {
      ok := ProcessSub(t, a, a.subs[i], used);
      if !ok {
        return false;
      }
    }
    ok := true;
  }

  /** The requirements of the app that concern one subcommand, and those of the subcommand. */
  predicate SubMeets(t: Table, a: App, sub: App)
  {
    (!Skipped(a, sub) && sub.required ==> Used(sub)) && (Descends(t, a, sub) ==> Accepts(t, sub))
  }

  method ProcessSub(t: Table, a: App, sub: App, used: nat) returns (ok: bool)
    requires sub in a.subs && !Blocked(t, a) && used == UsedCount(a)
    ensures ok <==> SubMeets(t, a, sub)
    decreases a, 0
  {
    if sub.disabled {
      return true;
    }
    var n := CountAll(sub);
    if sub.name == [] && !sub.required && n == 0 {
      if a.minOptions > 0 && a.minOptions <= used {
        return true;
      }
      if a.maxOptions > 0 && used >= a.minOptions {
        return true;
      }
    }
    if sub.parsed > 0 || sub.name == [] {
      ok := ProcessRequirements(t, sub);
      if !ok {
        return false;
      }
    }
    ok := !(sub.required && n == 0);
  }

  // ----- every visited app -----

  /** The check walks along the path of subcommands. */
  predicate Visits(t: Table, a: App, path: seq<nat>)
  {
    path == [] ||
    (path[0] < |a.subs| && Descends(t, a, a.subs[path[0]]) && Visits(t, a.subs[path[0]], path[1..]))
  }

  function AppAt(t: Table, a: App, path: seq<nat>): App
    requires Visits(t, a, path)
  {
    if path == [] then a else AppAt(t, a.subs[path[0]], path[1..])
  }

  lemma {:induction false} VisitedMeets(t: Table, a: App, path: seq<nat>)
    requires Accepts(t, a) && Visits(t, a, path)
    ensures Meets(t, AppAt(t, a, path))
  {
    if path != [] {
      VisitedMeets(t, a.subs[path[0]], path[1..]);
    }
  }

  /** Where the check fails, an app is visited that does not meet its own requirements. */
  lemma {:induction false} FailureVisited(t: Table, a: App) returns (path: seq<nat>)
    requires !Accepts(t, a)
    ensures Visits(t, a, path) && !Meets(t, AppAt(t, a, path))
  {
    if !Meets(t, a) {
      path := [];
    } else {
      var i :| 0 <= i < |a.subs| && Descends(t, a, a.subs[i]) && !Accepts(t, a.subs[i]);
      var rest := FailureVisited(t, a.subs[i]);
      path := [i] + rest;
      assert path[1..] == rest;
    }
  }

  /** A parse is accepted if and only if every app visited meets its own requirements. */
  lemma AcceptsIffVisitedMeet(t: Table, a: App)
    ensures Accepts(t, a) <==> forall path | Visits(t, a, path) :: Meets(t, AppAt(t, a, path))
  {
    if Accepts(t, a) {
      forall path | Visits(t, a, path)
        ensures Meets(t, AppAt(t, a, path))
      {
        VisitedMeets(t, a, path);
      }
    } else {
      var path := FailureVisited(t, a);
    }
  }

  // ----- the reasons for an error -----

  /** Why an exception is thrown, one case for each check of the source. */
  datatype Reason =
    | ExcludedByOther
    | MissingNeed
    | OptionRequired(option: nat)
    | OptionNeeds(option: nat, need: OptionId)
    | OptionExcludes(option: nat, other: OptionId)
    | TooFewSubcommands
    | TooFewOptions
    | TooManyOptions
    | SubcommandRequired(sub: nat)

  /** Nothing excludes the app, and everything it needs was given. */
  predicate Free(t: Table, x: App)
  {
    && (forall k <- x.excludedOptions :: t.options(k) == 0)
    && (forall k <- x.excludedSubcommands :: Total(t.apps(k)) == 0)
    && (forall k <- x.neededOptions :: t.options(k) > 0)
    && (forall k <- x.neededSubcommands :: Total(t.apps(k)) > 0)
  }

  /** The options that were given, and the enabled unnamed subcommands something was given to. */
  function GivenCount(x: App): nat
  {
    |set i: nat | i < |x.options| && x.options[i].count > 0|
    + |set i: nat | i < |x.subs| && !x.subs[i].disabled && x.subs[i].name == [] && Total(x.subs[i]) > 0|
  }

  /** An unused, optional option group of an app that has enough options without it. */
  predicate Spared(x: App, sub: App)
  {
    && sub.name == [] && !sub.required && Total(sub) == 0
    && x.minOptions <= GivenCount(x) && (x.minOptions > 0 || x.maxOptions > 0)
  }

  /** The check throws for this reason at the app `x`. */
  predicate Throws(t: Table, x: App, reason: Reason)
  {
    match reason
    case ExcludedByOther =>
      && Total(x) > 0
      && ((exists k <- x.excludedOptions :: t.options(k) > 0)
          || exists k <- x.excludedSubcommands :: Total(t.apps(k)) > 0)
    case MissingNeed =>
      && Total(x) > 0
      && ((exists k <- x.neededOptions :: t.options(k) == 0)
          || exists k <- x.neededSubcommands :: Total(t.apps(k)) == 0)
    case OptionRequired(i) =>
      Free(t, x) && i < |x.options| && x.options[i].required && x.options[i].count == 0
    case OptionNeeds(i, k) =>
      Free(t, x) && i < |x.options| && x.options[i].count > 0 && k in x.options[i].needs && t.options(k) == 0
    case OptionExcludes(i, k) =>
      Free(t, x) && i < |x.options| && x.options[i].count > 0 && k in x.options[i].excludes && t.options(k) > 0
    case TooFewSubcommands => Free(t, x) && x.selected < x.minSubcommands
    case TooFewOptions => Free(t, x) && GivenCount(x) < x.minOptions
    case TooManyOptions => Free(t, x) && 0 < x.maxOptions < GivenCount(x)
    case SubcommandRequired(i) =>
      && Free(t, x) && i < |x.subs| && !x.subs[i].disabled && x.subs[i].required && Total(x.subs[i]) == 0
  }

  lemma FreeIsNotBlocked(t: Table, x: App)
    ensures Free(t, x) <==> !Blocked(t, x)
  {}

  lemma CountsAgree(x: App)
    ensures GivenCount(x) == UsedCount(x)
  {
    assert UsedOptions(x) == set i: nat | i < |x.options| && x.options[i].count > 0;
    assert UsedGroups(x)
        == set i: nat | i < |x.subs| && !x.subs[i].disabled && x.subs[i].name == [] && Total(x.subs[i]) > 0;
  }

  /** An app meets its requirements if and only if there is no reason to throw. */
  lemma MeetsIffNoReason(t: Table, x: App)
    ensures Meets(t, x) <==> forall reason :: !Throws(t, x, reason)
  {
    hide Total, GivenCount, UsedCount;
    FreeIsNotBlocked(t, x);
    CountsAgree(x);
    if Meets(t, x) {
      forall reason
        ensures !Throws(t, x, reason)
      {
        MeetsNoReason(t, x, reason);
      }
    } else {
      var reason := ReasonToThrow(t, x);
    }
  }

  lemma MeetsNoReason(t: Table, x: App, reason: Reason)
    requires Meets(t, x) && GivenCount(x) == UsedCount(x)
    ensures !Throws(t, x, reason)
  {
    hide Total, GivenCount, UsedCount;
    FreeIsNotBlocked(t, x);
    match reason
    case OptionRequired(i) => assert i < |x.options| ==> x.options[i] in x.options;
    case OptionNeeds(i, _) => assert i < |x.options| ==> x.options[i] in x.options;
    case OptionExcludes(i, _) => assert i < |x.options| ==> x.options[i] in x.options;
    case SubcommandRequired(i) => assert i < |x.subs| ==> x.subs[i] in x.subs;
    case _ =>
  }

  lemma ReasonToThrow(t: Table, x: App) returns (reason: Reason)
    requires !Meets(t, x) && GivenCount(x) == UsedCount(x)
    ensures Throws(t, x, reason)
  {
    hide Total, GivenCount, UsedCount;
    FreeIsNotBlocked(t, x);
    if Blocked(t, x) {
      reason := if Excluded(t, x) then ExcludedByOther else MissingNeed;
    } else if o :| o in x.options && !OptionMeets(t, o) {
      var i: nat :| i < |x.options| && x.options[i] == o;
      if o.count == 0 {
        reason := OptionRequired(i);
      } else if k :| k in o.needs && t.options(k) == 0 {
        reason := OptionNeeds(i, k);
      } else {
        var k :| k in o.excludes && t.options(k) > 0;
        reason := OptionExcludes(i, k);
      }
    } else if x.minSubcommands > x.selected {
      reason := TooFewSubcommands;
    } else if !CountMeets(x) {
      reason := if UsedCount(x) < x.minOptions then TooFewOptions else TooManyOptions;
    } else {
      var sub :| sub in x.subs && !Skipped(x, sub) && sub.required && !Used(sub);
      var i: nat :| i < |x.subs| && x.subs[i] == sub;
      reason := SubcommandRequired(i);
    }
  }

  /** A parse is refused if and only if some visited app has a reason. */
  lemma RefusedIffReason(t: Table, root: App)
    ensures !Accepts(t, root) <==> exists path, reason :: Visits(t, root, path) && Throws(t, AppAt(t, root, path), reason)
  {
    hide Accepts, Meets, Throws;
    if !Accepts(t, root) {
      var path := FailureVisited(t, root);
      MeetsIffNoReason(t, AppAt(t, root, path));
      var reason :| Throws(t, AppAt(t, root, path), reason);
    }
    if path, reason :| Visits(t, root, path) && Throws(t, AppAt(t, root, path), reason) {
      MeetsIffNoReason(t, AppAt(t, root, path));
      if Accepts(t, root) {
        VisitedMeets(t, root, path);
        assert false;
      }
    }
  }

  /** From a free app the check goes on to enabled subcommands that were called, and to option groups not spared. */
  lemma GoesOnTo(t: Table, x: App, k: nat)
    requires k < |x.subs|
    ensures Descends(t, x, x.subs[k])
            <==> Free(t, x) && !x.subs[k].disabled && !Spared(x, x.subs[k])
                 && (x.subs[k].parsed > 0 || x.subs[k].name == [])
  {
    hide Total, GivenCount, UsedCount;
    FreeIsNotBlocked(t, x);
    CountsAgree(x);
  }

  // ----- what exclusion buys -----

  ghost predicate Reached(t: Table, root: App, a: App)
  {
    exists path :: Visits(t, root, path) && AppAt(t, root, path) == a
  }

  /** Exclusion is symmetric, as `App::excludes` and `App::remove_excludes` keep it. */
  ghost predicate Symmetric(t: Table)
  {
    forall i, j :: j in t.apps(i).excludedSubcommands ==> i in t.apps(j).excludedSubcommands
  }

  /** In an accepted parse, of two used apps that exclude each other the check has visited neither. */
  lemma ExclusionEnforced(t: Table, root: App, i: AppId, j: AppId)
    requires Symmetric(t) && j in t.apps(i).excludedSubcommands && Used(t.apps(i)) && Used(t.apps(j))
    requires Accepts(t, root)
    ensures !Reached(t, root, t.apps(i)) && !Reached(t, root, t.apps(j))
  {
    forall path | Visits(t, root, path)
      ensures AppAt(t, root, path) != t.apps(i) && AppAt(t, root, path) != t.apps(j)
    {
      VisitedMeets(t, root, path);
    }
  }

  lemma {:induction false} SubTotalGrows(a: App, k: nat, n: nat)
    requires k < n <= |a.subs|
    ensures Total(a.subs[k]) <= SubTotal(a, n)
  {
    if k + 1 < n {
      SubTotalGrows(a, k, n - 1);
    }
  }

  lemma SubVisited(t: Table, root: App, k: nat)
    requires k < |root.subs| && Descends(t, root, root.subs[k])
    ensures Reached(t, root, root.subs[k])
  {
    var path := [k];
    assert path[1..] == [] && Visits(t, root, path);
    assert AppAt(t, root, path) == root.subs[k];
  }

  /** Subcommands that were both called on the command line are refused if they exclude each other. */
  lemma ParsedPairRefused(t: Table, root: App, k: nat, i: AppId, j: AppId)
    requires Symmetric(t) && j in t.apps(i).excludedSubcommands
    requires forall x <- {i, j} :: t.apps(x).name != [] && t.apps(x).parsed > 0
    requires k < |root.subs| && (root.subs[k] == t.apps(i) || root.subs[k] == t.apps(j)) && !root.subs[k].disabled
    ensures !Accepts(t, root)
  {
    hide Used, Accepts;
    assert Given(t.apps(i)) && Given(t.apps(j));
    UsedStep(t.apps(i));
    UsedStep(t.apps(j));
    UsedPairRefused(t, root, k, i, j);
  }

  /** Of two used subcommands that exclude each other, one that was parsed is enough for an error. */
  lemma UsedPairRefused(t: Table, root: App, k: nat, i: AppId, j: AppId)
    requires Symmetric(t) && j in t.apps(i).excludedSubcommands && Used(t.apps(i)) && Used(t.apps(j))
    requires k < |root.subs| && (root.subs[k] == t.apps(i) || root.subs[k] == t.apps(j))
    requires !root.subs[k].disabled && root.subs[k].name != [] && root.subs[k].parsed > 0
    ensures !Accepts(t, root)
  {
    SubTotalGrows(root, k, |root.subs|);
    if Descends(t, root, root.subs[k]) {
      SubVisited(t, root, k);
    }
    if Accepts(t, root) {
      ExclusionEnforced(t, root, i, j);
      assert false;
    }
  }

  function Plain(name: string, options: seq<Opt>, subs: seq<App>, excluded: seq<AppId>): App
  {
    App(name, 0, false, false, options, subs, [], excluded, [], [], 0, 0, 0, 0)
  }

  /** A subcommand with one option that was set, although the subcommand itself was not parsed. */
  function Unparsed(name: string, excluded: AppId): App { Plain(name, [Opt(1, false, [], [])], [], [excluded]) }

  function Pair(k: AppId): App
  {
    if k == 0 then Unparsed("a", 1) else if k == 1 then Unparsed("b", 0) else Plain([], [], [], [])
  }

  /** Used subcommands that exclude each other are accepted when neither was parsed. */
  lemma UnparsedPairAccepted()
    ensures
      var t := Table(_ => 0, Pair);
      && Symmetric(t) && 1 in Pair(0).excludedSubcommands && Used(Pair(0)) && Used(Pair(1))
      && Accepts(t, Plain([], [], [Pair(0), Pair(1)], []))
  {
    assert OptionTotal(Pair(0).options, 1) == OptionTotal(Pair(1).options, 1) == 1;
  }
}
