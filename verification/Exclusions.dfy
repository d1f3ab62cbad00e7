/**
  Subcommands that exclude each other: `App::excludes`, `App::remove_excludes` and
  `App::remove_subcommand`. Exclusion is meant to be symmetric; it stays so under every call.
 */
module Exclusions {

  /** Exclusion among `all` is symmetric, irreflexive and stays among `all`. */
  ghost predicate Consistent(all: set<App>)
    reads all
  {
    forall a <- all ::
      && a !in a.excluded && a.excluded <= all
      && forall b <- a.excluded :: b in all ==> a in b.excluded
  }

  /** The list without the first occurrence of `x`. */
  function Without<T(==)>(s: seq<T>, x: T): seq<T>
  {
    if s == [] then [] else if s[0] == x then s[1..] else [s[0]] + Without(s[1..], x)
  }

  lemma {:induction false} WithoutAt<T>(s: seq<T>, x: T, i: nat)
    requires i <= |s| && (i < |s| ==> s[i] == x) && forall k :: 0 <= k < i ==> s[k] != x
    ensures Without(s, x) == if i < |s| then s[..i] + s[i + 1..] else s
  {
    if i > 0 {
      WithoutAt(s[1..], x, i - 1);
      assert s == [s[0]] + s[1..];
    }
  }

  class App {
    var excluded: set<App>
    var subcommands: seq<App>

    constructor ()
      ensures excluded == {} && subcommands == []
    {
      excluded, subcommands := {}, [];
    }

    /** `false` stands for the exception on a null or self reference. */
    method Exclude(app: App?, ghost all: set<App>) returns (ok: bool)
      requires this in all && (app != null ==> app in all) && Consistent(all)
      modifies this`excluded, (if app == null then {} else {app})`excluded
      ensures Consistent(all)
      ensures ok <==> app != null && app != this
      ensures !ok ==> excluded == old(excluded) && (app != null ==> app.excluded == old(app.excluded))
      ensures ok ==> excluded == old(excluded) + {app} && app.excluded == old(app.excluded) + {this}
    {
      if app == null || app == this {
        return false;
      }
      var inserted := app !in excluded;
      excluded := excluded + {app};
      if inserted {
        app.excluded := app.excluded + {this};
      }
      ok := true;
    }

    /** The two directions call each other until neither finds the link; no symmetry is needed for that. */
    method RemoveExcludes(app: App, ghost all: set<App>) returns (found: bool)
      modifies this`excluded, app`excluded
      ensures found <==> app in old(excluded)
      ensures excluded == old(excluded) - {app}
      ensures app.excluded == if found then old(app.excluded) - {this} else old(app.excluded)
      ensures old(Consistent(all)) && this in all && app in all ==>
                Consistent(all) && app !in excluded && this !in app.excluded
      decreases (if app in excluded then 1 else 0) + (if this in app.excluded then 1 else 0)
    {
      if app !in excluded {
        return false;
      }
      excluded := excluded - {app};
      var back := app.RemoveExcludes(this, {});
      found := true;
    }

    /**
      `false` if there is no such subcommand. Links to apps that are no siblings stay: without the
      subcommand the others are consistent exactly when it excluded nothing but siblings.
     */
    method RemoveSubcommand(subcom: App, ghost all: set<App>) returns (found: bool)
      requires subcom in all && (forall s <- subcommands :: s in all) && Consistent(all)
      modifies this`subcommands, subcommands`excluded, subcom`excluded
      ensures Consistent(all)
      ensures forall a <- all :: a != subcom ==>
                a.excluded == if a in old(subcommands) then old(a.excluded) - {subcom} else old(a.excluded)
      ensures subcom.excluded == old(subcom.excluded) - (set s | s in old(subcommands))
      ensures found <==> subcom in old(subcommands)
      ensures subcommands == Without(old(subcommands), subcom)
      ensures Consistent(all - {subcom}) <==> old(subcom.excluded <= set s | s in subcommands)
    {
      Unlink(subcommands, subcom, all);
      var i := 0;
      while i < |subcommands| && subcommands[i] != subcom
        invariant i <= |subcommands| && forall k :: 0 <= k < i ==> subcommands[k] != subcom
      {
        i := i + 1;
      }
      WithoutAt(subcommands, subcom, i);
      found := i < |subcommands|;
      if found {
        subcommands := subcommands[..i] + subcommands[i + 1..];
      }
    }

    /** The first loop of `remove_subcommand`: every sibling is unlinked from the subcommand. */
    static method Unlink(siblings: seq<App>, subcom: App, ghost all: set<App>)
      requires subcom in all && (forall s <- siblings :: s in all) && Consistent(all)
      modifies siblings`excluded, subcom`excluded
      ensures Consistent(all)
      ensures forall a <- all :: a != subcom ==>
                a.excluded == if a in siblings then old(a.excluded) - {subcom} else old(a.excluded)
      ensures subcom.excluded == old(subcom.excluded) - (set s | s in siblings)
    {
      for i := 0 to |siblings|
        invariant Consistent(all)
        invariant forall a <- all :: a != subcom ==>
                    a.excluded == if a in siblings[..i] then old(a.excluded) - {subcom} else old(a.excluded)
        invariant subcom.excluded == old(subcom.excluded) - (set s | s in siblings[..i])
      {
        assert siblings[i] in siblings && siblings[..i + 1] == siblings[..i] + [siblings[i]];
        var found := siblings[i].RemoveExcludes(subcom, all);
      }
      assert siblings[..|siblings|] == siblings;
    }
  }
}
