/** What every run of the element lifecycle keeps: one installed version per name, and an
    installed provider behind every dependency binding. */
module LifecycleSafety {
  import opened Wrappers
  import opened Dependencies
  import opened DependencyClosure
  import opened Lifecycle

  // ------------------------------------------------------------------
  // At most one installed element per name
  // ------------------------------------------------------------------

  ghost predicate AtMostOne(w: World)
  {
    forall d: nat, e: nat :: w.Installed(d) && w.Installed(e) && w.table[d].name == w.table[e].name ==> d == e
  }

  /** What the documentation of `upgrade` asks for and the code does not check: the upgraded
      element is the installed one, or no element of its name is. */
  ghost predicate UpgradesInstalled(w: World, s: Step)
    requires w.Valid()
  {
    s.UpgradeCall? && CanUpgrade(w, s.e, s.target) ==>
      w.Installed(s.e) || !NameInstalled(w, w.table[s.e].name)
  }

  lemma InstallKeepsOne(w: World, e: nat)
    requires AtMostOne(w) && CanInstall(w, e)
    ensures AtMostOne(Install(w, e))
  {
    var v := Install(w, e);
    assert forall c: nat :: w.Installed(c) ==> !Named(w.table, c, w.table[e].name);
    assert forall c: nat :: v.Installed(c) <==> c == e || w.Installed(c);
    assert forall c: nat :: c < |w.table| ==> v.table[c].name == w.table[c].name;
  }

  /** A whole dependency closure keeps it: each installation checks the name again. */
  lemma {:induction false} InstallAllKeepsOne(w: World, es: seq<nat>)
    requires AtMostOne(w) && forall k :: 0 <= k < |es| ==> es[k] < |w.table|
    ensures AtMostOne(InstallAll(w, es).0)
  {
    if es != [] {
      InstallAllKeepsOne(w, es[..|es| - 1]);
      var (front, ok) := InstallAll(w, es[..|es| - 1]);
      if ok && CanInstall(front, es[|es| - 1]) { InstallKeepsOne(front, es[|es| - 1]); }
    }
  }

  lemma InstallManifestKeepsOne(w: World, x: nat)
    requires AtMostOne(w) && x < |w.table|
    ensures AtMostOne(InstallManifest(w, x))
  {
    if Collect(w.table, x, {}).Success? {
      var es := Collect(w.table, x, {}).value.0;
      InstallAllKeepsOne(w, es);
    }
  }

  lemma UpgradeKeepsOneIff(w: World, e: nat, target: nat)
    requires AtMostOne(w) && CanUpgrade(w, e, target)
    ensures AtMostOne(Upgrade(w, e, target)) <==> w.Installed(e) || !NameInstalled(w, w.table[e].name)
  {
    var v := Upgrade(w, e, target);
    assert v.Installed(target);
    assert forall c: nat :: c != e && c != target ==> (v.Installed(c) <==> w.Installed(c));
    assert forall c: nat :: c < |w.table| ==> v.table[c].name == w.table[c].name;
    if w.Installed(e) || !NameInstalled(w, w.table[e].name) {
      assert forall c: nat :: w.Installed(c) && Named(w.table, c, w.table[e].name) ==> c == e;
      assert forall c: nat :: v.Installed(c) && v.table[c].name == w.table[e].name ==>
               Named(w.table, c, w.table[e].name) && c == target;
    } else {
      var c: nat :| Named(w.table, c, w.table[e].name) && w.Installed(c);
      assert v.Installed(c) && c != target;
    }
  }

  /** One step keeps at most one installed element per name, if and only if it is not an
      upgrade of an uninstalled element whose name is installed elsewhere. */
  lemma StepKeepsOneIff(w: World, s: Step)
    requires w.Valid() && AtMostOne(w)
    ensures AtMostOne(Next(w, s)) <==> UpgradesInstalled(w, s)
  {
    if !s.AgentReport? && s.e >= |w.table| {
    } else {
      match s
      case InstallCall(e) => if CanInstall(w, e) { InstallKeepsOne(w, e); }
      case UninstallCall(e) =>
        if CanUninstall(w, e) {
          assert forall c: nat :: Uninstall(w, e).Installed(c) ==> w.Installed(c);
        }
      case UpgradeCall(e, t) => if CanUpgrade(w, e, t) { UpgradeKeepsOneIff(w, e, t); }
      case CreateHook(e) => InstallManifestKeepsOne(w, e);
      case UpdateHook(e) => InstallManifestKeepsOne(w, e);
      case ActualizeHook(e) =>
      case AgentApply(e) =>
      case AgentRemove(e) =>
      case AgentReport =>
    }
  }

  /** Every reachable state has at most one installed element per name, provided upgrades
      start from the installed element. */
  lemma {:induction false} RunsKeepOne(ws: seq<World>, steps: seq<Step>, i: nat)
    requires IsRun(ws, steps) && AtMostOne(ws[0]) && i < |ws|
    requires forall k :: 0 <= k < |steps| ==> UpgradesInstalled(ws[k], steps[k])
    ensures AtMostOne(ws[i])
  {
    if i > 0 {
      RunsKeepOne(ws, steps, i - 1);
      StepKeepsOneIff(ws[i - 1], steps[i - 1]);
      assert ws[i] == Next(ws[i - 1], steps[i - 1]);
    }
  }

  /** Upgrading an element, then upgrading it again before it is released, is accepted and
      leaves two installed versions. */
  lemma UpgradingTwiceInstallsTwo(w: World, e: nat, first: nat, second: nat)
    requires w.Valid() && w.Installed(e) && CanUpgrade(w, e, first) && CanUpgrade(w, e, second) && first != second
    ensures var v := Next(w, UpgradeCall(e, first));
            v.Valid() && CanUpgrade(v, e, second) && !AtMostOne(Next(v, UpgradeCall(e, second)))
  {
    NextValid(w, UpgradeCall(e, first));
    var v := Next(w, UpgradeCall(e, first));
    var u := Next(v, UpgradeCall(e, second));
    assert u.Installed(first) && u.Installed(second);
  }

  // ------------------------------------------------------------------
  // Every dependency has an installed provider
  // ------------------------------------------------------------------

  /** Whatever a binding points to, some installed element carries its name. */
  ghost predicate Provided(w: World)
    requires w.Valid()
  {
    forall b :: b in w.bindings ==> NameInstalled(w, w.table[b.on].name)
  }

  /** The uninstalled element is not an upgrade target whose dependents are still bound to
      another version: every other binding to its name is its own. */
  ghost predicate HandedOver(w: World, s: Step)
    requires w.Valid()
  {
    s.UninstallCall? && CanUninstall(w, s.e) ==>
      forall b :: b in w.bindings && w.table[b.on].name == w.table[s.e].name ==> b.element == s.e
  }

  lemma MoreInstalledKeepsProvided(w: World, v: World)
    requires w.Valid() && v.Valid() && Provided(w) && SameNames(w, v) && v.bindings <= w.bindings
    requires forall e: nat :: w.Installed(e) ==> v.Installed(e)
    ensures Provided(v)
  {
    forall b | b in v.bindings ensures NameInstalled(v, v.table[b.on].name) {
      var e: nat :| Named(w.table, e, w.table[b.on].name) && w.Installed(e);
      assert Named(v.table, e, v.table[b.on].name) && v.Installed(e);
    }
  }

  lemma UninstallKeepsProvidedIff(w: World, e: nat)
    requires w.Valid() && AtMostOne(w) && Provided(w) && CanUninstall(w, e)
    ensures Provided(Uninstall(w, e)) <==>
            forall b :: b in w.bindings && w.table[b.on].name == w.table[e].name ==> b.element == e
  {
    var v := Uninstall(w, e);
    assert forall c: nat :: c < |w.table| ==> v.table[c].name == w.table[c].name;
    assert !NameInstalled(v, w.table[e].name) by {
      if c: nat :| Named(v.table, c, w.table[e].name) && v.Installed(c) {
        assert w.Installed(c) && w.Installed(e);
      }
    }
    forall b | b in v.bindings
      ensures NameInstalled(v, v.table[b.on].name) <==> w.table[b.on].name != w.table[e].name
    {
      if w.table[b.on].name != w.table[e].name {
        var c: nat :| Named(w.table, c, w.table[b.on].name) && w.Installed(c);
        assert Named(v.table, c, v.table[b.on].name) && v.Installed(c);
      }
    }
    assert forall b :: b in v.bindings <==> b in w.bindings && b.element != e;
  }

  lemma UpgradeKeepsProvided(w: World, e: nat, target: nat)
    requires w.Valid() && Provided(w) && CanUpgrade(w, e, target)
    ensures Provided(Upgrade(w, e, target))
  {
    var v := Upgrade(w, e, target);
    forall b | b in v.bindings ensures NameInstalled(v, v.table[b.on].name) {
      var c: nat :| Named(w.table, c, w.table[b.on].name) && w.Installed(c);
      var d := if c == e then target else c;
      assert Named(v.table, d, v.table[b.on].name) && v.Installed(d);
    }
  }

  lemma InstallManifestKeepsProvided(w: World, x: nat)
    requires w.Valid() && Provided(w) && x < |w.table|
    ensures InstallManifest(w, x).Valid() && Provided(InstallManifest(w, x))
  {
    InstallManifestNames(w, x);
    var v := InstallManifest(w, x);
    if Collect(w.table, x, {}).Success? {
      var es := Collect(w.table, x, {}).value.0;
      InstallAllNames(w, es);
      forall b | b in v.bindings ensures NameInstalled(v, v.table[b.on].name) {
        if b in w.bindings {
          var e: nat :| Named(w.table, e, w.table[b.on].name) && w.Installed(e);
          assert Named(v.table, e, v.table[b.on].name) && v.Installed(e);
        } else {
          assert b.on in es;
          assert Named(v.table, b.on, v.table[b.on].name) && v.Installed(b.on);
        }
      }
    }
  }

  /** One step keeps every binding provided for, if and only if it is not the removal of an
      element whose name is still depended on through another version. */
  lemma StepKeepsProvidedIff(w: World, s: Step)
    requires w.Valid() && AtMostOne(w) && Provided(w)
    ensures Next(w, s).Valid() && (Provided(Next(w, s)) <==> HandedOver(w, s))
  {
    NextValid(w, s);
    NextNames(w, s);
    if !s.AgentReport? && s.e >= |w.table| {
    } else {
      match s
      case InstallCall(e) => MoreInstalledKeepsProvided(w, Next(w, s));
      case UninstallCall(e) => if CanUninstall(w, e) { UninstallKeepsProvidedIff(w, e); }
      case UpgradeCall(e, t) => if CanUpgrade(w, e, t) { UpgradeKeepsProvided(w, e, t); }
      case CreateHook(e) => InstallManifestKeepsProvided(w, e);
      case UpdateHook(e) =>
        if w.Installed(e) { InstallManifestKeepsProvided(w, e); }
        else if w.links[e].Some? { }
        else { MoreInstalledKeepsProvided(w, Next(w, s)); }
      case ActualizeHook(e) => MoreInstalledKeepsProvided(w, Next(w, s));
      case AgentApply(e) => MoreInstalledKeepsProvided(w, Next(w, s));
      case AgentRemove(e) => MoreInstalledKeepsProvided(w, Next(w, s));
      case AgentReport => MoreInstalledKeepsProvided(w, Next(w, s));
    }
  }

  /** Between an upgrade and its hand-over the bindings still point to the old version, so
      removing the new one is accepted and leaves the dependents without a provider. */
  lemma RemovedBeforeHandOver(w: World, b: Binding, target: nat)
    requires w.Valid() && AtMostOne(w) && b in w.bindings && b.element != target
    requires w.Installed(b.on) && CanUpgrade(w, b.on, target)
    requires forall c :: c in w.bindings ==> c.on != target
    ensures var v := Next(w, UpgradeCall(b.on, target));
            v.Valid() && CanUninstall(v, target) &&
            Next(v, UninstallCall(target)).Valid() && !Provided(Next(v, UninstallCall(target)))
  {
    NextValid(w, UpgradeCall(b.on, target));
    var v := Next(w, UpgradeCall(b.on, target));
    UpgradeKeepsOneIff(w, b.on, target);
    NextValid(v, UninstallCall(target));
    var u := Next(v, UninstallCall(target));
    assert v.Installed(target);
    assert b in u.bindings;
    assert forall c: nat :: u.Installed(c) ==> v.Installed(c) && c != target && u.table[c].name == v.table[c].name;
    assert forall c: nat :: u.Installed(c) ==> !Named(u.table, c, u.table[b.on].name);
  }

  ghost predicate Guarded(w: World, s: Step)
    requires w.Valid()
  {
    UpgradesInstalled(w, s) && HandedOver(w, s)
  }

  lemma StepKeepsBoth(w: World, s: Step)
    requires w.Valid() && AtMostOne(w) && Provided(w) && Guarded(w, s)
    ensures Next(w, s).Valid() && AtMostOne(Next(w, s)) && Provided(Next(w, s))
  {
    StepKeepsOneIff(w, s);
    StepKeepsProvidedIff(w, s);
  }

  /** Dependency safety over runs: in every reachable state, whatever an installed element
      is bound to, some installed element carries its name, through install, uninstall,
      upgrade and hand-over, provided upgrades start from the installed element and no
      element is removed while its name is depended on through another version. */
  lemma {:induction false} RunsKeepProvided(ws: seq<World>, steps: seq<Step>, i: nat)
    requires IsRun(ws, steps) && AtMostOne(ws[0]) && Provided(ws[0]) && i < |ws|
    requires forall k :: 0 <= k < |steps| ==> Guarded(ws[k], steps[k])
    ensures AtMostOne(ws[i]) && Provided(ws[i])
  {
    if i > 0 {
      RunsKeepProvided(ws, steps, i - 1);
      StepKeepsBoth(ws[i - 1], steps[i - 1]);
      assert ws[i] == Next(ws[i - 1], steps[i - 1]);
    }
  }

  // ------------------------------------------------------------------
  // What an installation depends on cannot be removed
  // ------------------------------------------------------------------

  /** Every element of the closure could be found and installed. */
  ghost predicate InstallsAll(w: World, x: nat)
  {
    x < |w.table| && Collect(w.table, x, {}).Success? && InstallAll(w, Collect(w.table, x, {}).value.0).1
  }

  lemma BoundAt(x: nat, es: seq<nat>, k: nat)
    requires k < |es|
    ensures Binding(x, es[k]) in NewBindings(x, es)
  {
  }

  /** After a successful installation everything else that its requirements lead to is
      installed, bound to by it, and cannot be removed; and the agent has a target. */
  lemma InstallBinds(w: World, x: nat, y: nat)
    requires w.Valid() && InstallsAll(w, x) && Reaches(w.table, x, x, y)
    ensures var v := InstallManifest(w, x);
            && v.Installed(y) && x in v.targets
            && (y != x ==> Binding(x, y) in v.bindings && !CanUninstall(v, y))
  {
    CollectIsClosure(w.table, x);
    var es := Collect(w.table, x, {}).value.0;
    InstallAllNames(w, es);
    assert y in es;
    var k :| 0 <= k < |es| && es[k] == y;
    if y != x {
      var front := es[..|es| - 1];
      assert front[k] == y;
      BoundAt(x, front, k);
    }
  }

  /** A failed installation binds nothing and asks for nothing. */
  lemma FailedInstallBindsNothing(w: World, x: nat)
    requires w.Valid() && x < |w.table| && !InstallsAll(w, x)
    ensures InstallManifest(w, x).bindings == w.bindings && InstallManifest(w, x).targets == w.targets
  {
  }

  /** Bindings are only recorded for what the requirements lead to. */
  lemma InstallBindsOnly(w: World, x: nat, b: Binding)
    requires w.Valid() && InstallsAll(w, x) && b in InstallManifest(w, x).bindings && b !in w.bindings
    ensures b.element == x && b.on != x && Reaches(w.table, x, x, b.on)
  {
    CollectIsClosure(w.table, x);
    var es := Collect(w.table, x, {}).value.0;
    var front := es[..|es| - 1];
    var k :| 0 <= k < |front| && b == Binding(x, front[k]);
    assert es[k] in es;
    assert KeyOf(w.table, es[k]) != KeyOf(w.table, es[|es| - 1]);
  }

  /** The steps that can take a binding away: the removal of either side, or the release of
      one of them after an upgrade. */
  predicate Unbinds(s: Step, b: Binding)
  {
    (s.UninstallCall? && s.e == b.element) || (s.UpdateHook? && (s.e == b.element || s.e == b.on))
  }

  lemma StepKeepsBinding(w: World, s: Step, b: Binding)
    requires w.Valid() && b in w.bindings && !Unbinds(s, b)
    ensures Next(w, s).Valid() && b in Next(w, s).bindings && !CanUninstall(Next(w, s), b.on)
  {
    NextValid(w, s);
  }

  /** Over any run, until the dependent is removed or one of the two is released, what it is
      bound to cannot be removed. */
  lemma {:induction false} BoundStays(ws: seq<World>, steps: seq<Step>, b: Binding, i: nat)
    requires IsRun(ws, steps) && b in ws[0].bindings && i < |ws|
    requires forall k :: 0 <= k < |steps| ==> !Unbinds(steps[k], b)
    ensures b in ws[i].bindings && !CanUninstall(ws[i], b.on)
  {
    if i > 0 {
      BoundStays(ws, steps, b, i - 1);
      StepKeepsBinding(ws[i - 1], steps[i - 1], b);
      assert ws[i] == Next(ws[i - 1], steps[i - 1]);
    }
  }

  /** The release of an upgraded element: what was bound to it is bound to the installed one,
      its own bindings are gone, and every other binding is kept. */
  lemma ReleaseRepoints(w: World, x: nat, p: nat)
    requires w.Valid() && x < |w.table| && !w.Installed(x) && w.links[x].Some?
    requires Pending(w, w.table[x].name) == Some(p) && ReportedLinked(w, p) && !HandOverBlocked(w.bindings, x, p)
    ensures var v := Next(w, UpdateHook(x));
            && (forall b :: b in w.bindings && b.on == x && b.element != x ==> Binding(b.element, p) in v.bindings)
            && (forall b :: b in w.bindings && b.on != x && b.element != x ==> b in v.bindings)
            && (forall b :: b in v.bindings ==>
                  b.element != x && b.on != x
                  && (b in w.bindings || (b.on == p && Binding(b.element, x) in w.bindings)))
            && x !in v.targets && v.links[x].None?
  {
    var v := Next(w, UpdateHook(x));
    assert w.Installed(p) && p != x;
    forall b | b in w.bindings && b.on == x && b.element != x ensures Binding(b.element, p) in v.bindings {
      assert Binding(b.element, p) == if b.on == x then Binding(b.element, p) else b;
    }
    forall b | b in w.bindings && b.on != x && b.element != x ensures b in v.bindings {
      assert b == if b.on == x then Binding(b.element, p) else b;
    }
  }
}
