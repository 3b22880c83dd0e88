/** The element tables and the calls and hooks that change them in place: install,
    uninstall, upgrade, and the builder's update of an element
    (exordos_core/repo/dm/models.py, exordos_core/repo/builders/element.py). Every method
    refines a step of `Lifecycle`. */
module RepoStore {
  import opened Wrappers
  import opened Dependencies
  import opened Lifecycle

  class ElementStore {
    /** The element table and, row by row, the runtime element a row knows of. */
    var table: Table
    var links: seq<Option<int>>
    /** The dependency bindings. */
    var bindings: set<Binding>
    /** The rows with a target manifest. */
    var targets: set<nat>
    /** What the agent has reported. */
    var reports: map<nat, Option<int>>
    /** The agent's side, which no method here changes. */
    ghost var manifests: set<nat>
    ghost var runtime: map<string, Runtime>

    ghost function State(): World
      reads this
    {
      World(table, links, bindings, targets, reports, manifests, runtime)
    }

    /** The installed rows of a name, in table order. */
    method InstalledOf(name: string) returns (found: seq<nat>)
      ensures forall a :: 0 <= a < |found| ==> Named(table, found[a], name) && table[found[a]].installed
      ensures forall e: nat :: Named(table, e, name) && table[e].installed ==> e in found
      ensures forall a, b :: 0 <= a < b < |found| ==> found[a] < found[b]
    {
      found := [];
      for i := 0 to |table|
        invariant forall a :: 0 <= a < |found| ==>
                    found[a] < i && Named(table, found[a], name) && table[found[a]].installed
        invariant forall e: nat :: e < i && Named(table, e, name) && table[e].installed ==> e in found
        invariant forall a, b :: 0 <= a < b < |found| ==> found[a] < found[b]
      {
        if table[i].name == name && table[i].installed {
          found := found + [i];
        }
      }
    }

    method Install(e: nat) returns (ok: bool)
      requires State().Valid() && e < |table|
      modifies this`table
      ensures ok <==> CanInstall(old(State()), e)
      ensures State() == Next(old(State()), InstallCall(e))
    {
      if table[e].installed {
        return false;
      }
      var existing := InstalledOf(table[e].name);
      if existing != [] {
        assert Named(table, existing[0], table[e].name) && State().Installed(existing[0]);
        return false;
      }
      assert !NameInstalled(State(), table[e].name);
      table := SetInstalled(table, e, true);
      ok := true;
    }

    method Uninstall(e: nat) returns (ok: bool)
      requires State().Valid() && e < |table|
      modifies this`table, this`links, this`bindings
      ensures ok <==> CanUninstall(old(State()), e)
      ensures State() == Next(old(State()), UninstallCall(e))
    {
      if !table[e].installed {
        return false;
      }
      var dependents := set b | b in bindings && b.on == e;
      if dependents != {} {
        assert exists b :: b in dependents;
        return false;
      }
      assert forall b :: b in bindings ==> b.on != e by {
        forall b | b in bindings ensures b.on != e { assert b !in dependents; }
      }
      table := SetInstalled(table, e, false);
      links := links[e := None];
      DropOwn(e);
      ok := true;
    }

    /** Deletes the bindings of `e`, one by one. */
    method DropOwn(e: nat)
      modifies this`bindings
      ensures bindings == old(bindings) - OwnBindings(old(bindings), e)
    {
      var own := OwnBindings(bindings, e);
      while own != {}
        invariant own <= OwnBindings(old(bindings), e)
        invariant bindings == old(bindings) - OwnBindings(old(bindings), e) + own
        decreases |own|
      {
        var b :| b in own;
        bindings := bindings - {b};
        own := own - {b};
      }
    }

    method Upgrade(e: nat, target: nat) returns (ok: bool)
      requires State().Valid() && e < |table|
      modifies this`table, this`links
      ensures ok <==> CanUpgrade(old(State()), e, target)
      ensures State() == Next(old(State()), UpgradeCall(e, target))
    {
      if links[e].None? {
        return false;
      }
      if target >= |table| || table[target].name != table[e].name || table[target].installed {
        return false;
      }
      var runtimeElement := links[e];
      table := SetInstalled(table, e, false);
      table := SetInstalled(table, target, true);
      links := links[target := runtimeElement];
      ok := true;
    }

    /** Installs the closure in order; stops where an installation is rejected. */
    method InstallClosure(es: seq<nat>) returns (ok: bool)
      requires State().Valid() && forall k :: 0 <= k < |es| ==> es[k] < |table|
      modifies this`table
      ensures (State(), ok) == InstallAll(old(State()), es)
    {
      ghost var start := State();
      for i := 0 to |es|
        invariant State().Valid() && |table| == |old(table)|
        invariant (State(), true) == InstallAll(start, es[..i])
      {
        assert es[..i + 1][..i] == es[..i];
        if !table[es[i]].installed {
          ok := Install(es[i]);
          if !ok {
            StopsThere(start, es, i + 1);
            return false;
          }
        }
      }
      assert es[..|es|] == es;
      ok := true;
    }

    method InstallManifest(x: nat)
      requires State().Valid() && x < |table|
      modifies this`table, this`bindings, this`targets
      ensures State() == Lifecycle.InstallManifest(old(State()), x)
    {
      var collector := new Collector();
      var closure := collector.CollectDependencies(table, x);
      if closure.Failure? {
        return;
      }
      var es := closure.value;
      var ok := InstallClosure(es);
      if !ok || es == [] {
        return;
      }
      RecordBindings(x, es[..|es| - 1]);
      targets := targets + {x};
    }

    /** Records a binding to every dependency that has none yet. */
    method RecordBindings(x: nat, es: seq<nat>)
      modifies this`bindings
      ensures bindings == old(bindings) + NewBindings(x, es)
    {
      var existing := set b | b in bindings && b.element == x :: b.on;
      for i := 0 to |es|
        invariant bindings == old(bindings) + NewBindings(x, es[..i])
      {
        var b := Binding(x, es[i]);
        if es[i] in existing {
          assert b in old(bindings);
        } else {
          bindings := bindings + {b};
        }
      }
      assert es[..|es|] == es;
    }

    /** Moves the bindings over, or changes nothing when a moved binding exists already. */
    method HandOverDepsBindings(x: nat, pending: nat) returns (ok: bool)
      requires x != pending
      modifies this`bindings
      ensures ok <==> !HandOverBlocked(old(bindings), x, pending)
      ensures bindings == if ok then HandOver(old(bindings), x, pending) else old(bindings)
    {
      var saved := bindings;
      DropOwn(x);
      var dependents := set b | b in bindings && b.on == x;
      ok := Repoint(dependents, x, pending);
      if !ok { bindings := saved; }
    }

    /** Repoints the bindings one by one; the table accepts no binding twice. */
    method Repoint(dependents: set<Binding>, ghost x: nat, pending: nat) returns (ok: bool)
      requires x != pending && dependents <= bindings && forall b :: b in dependents ==> b.on == x
      modifies this`bindings
      ensures ok <==> forall b :: b in dependents ==> Binding(b.element, pending) !in old(bindings)
      ensures ok ==> bindings == old(bindings) - dependents + Repointed(dependents, pending)
    {
      var rest := dependents;
      ghost var kept := bindings;
      ghost var moved: set<Binding> := {};
      assert Repointed(moved, pending) == {};
      while rest != {}
        invariant rest <= dependents && moved == dependents - rest
        invariant forall b :: b in moved ==> Binding(b.element, pending) !in kept
        invariant bindings == kept - moved + Repointed(moved, pending)
        decreases |rest|
      {
        var b :| b in rest;
        RepointedNext(kept, moved, b, x, pending);
        if Binding(b.element, pending) in bindings {
          return false;
        }
        rest := rest - {b};
        bindings := bindings - {b} + {Binding(b.element, pending)};
        moved := moved + {b};
      }
      assert moved == dependents;
      ok := true;
    }

    /** The builder's update of one element. */
    method UpdateDerivatives(x: nat)
      requires State().Valid() && x < |table|
      modifies this`table, this`links, this`bindings, this`targets
      ensures State() == Next(old(State()), UpdateHook(x))
    {
      if table[x].installed {
        InstallManifest(x);
      } else if links[x].Some? {
        var name := table[x].name;
        var pending := InstalledOf(name);
        if pending != [] {
          var p := pending[0];
          if p !in reports || reports[p].None? {
            return;
          }
          var ok := HandOverDepsBindings(x, p);
          if !ok {
            return;
          }
        } else {
          assert !NameInstalled(State(), name);
        }
        links := links[x := None];
        targets := targets - {x};
      } else if x in targets {
        links := links[x := None];
        targets := targets - {x};
      }
    }
  }

  /** Nothing is installed behind an element that could not be. */
  lemma {:induction false} StopsThere(w: World, es: seq<nat>, i: nat)
    requires forall k :: 0 <= k < |es| ==> es[k] < |w.table|
    requires i <= |es| && !InstallAll(w, es[..i]).1
    ensures InstallAll(w, es) == InstallAll(w, es[..i])
    decreases |es|
  {
    if i == |es| {
      assert es[..i] == es;
    } else {
      var front := es[..|es| - 1];
      assert front[..i] == es[..i];
      StopsThere(w, front, i);
    }
  }

  function Repointed(moved: set<Binding>, pending: nat): set<Binding>
  {
    set b | b in moved :: Binding(b.element, pending)
  }

  lemma RepointedNext(kept: set<Binding>, moved: set<Binding>, b: Binding, x: nat, pending: nat)
    requires x != pending && b in kept && b.on == x && b !in moved
    ensures kept - moved + Repointed(moved, pending) - {b} + {Binding(b.element, pending)} ==
            kept - (moved + {b}) + Repointed(moved + {b}, pending)
  {
    var image := Binding(b.element, pending);
    assert Repointed(moved + {b}, pending) == Repointed(moved, pending) + {image};
    assert b !in Repointed(moved, pending);
  }
}
