/** What each step of the element lifecycle changes, field by field, and what it leaves alone
    (exordos_core/repo/dm/models.py, exordos_core/repo/builders/element.py). */
module LifecycleSteps {
  import opened Wrappers
  import opened Dependencies
  import opened DependencyClosure
  import opened Lifecycle
  import opened LifecycleSafety

  /** The rows differ in whether they are installed, and only at the given positions. */
  ghost predicate OnlyInstalled(a: Table, b: Table, changed: set<nat>)
  {
    && |a| == |b|
    && (forall i: nat :: i < |a| ==> b[i] == a[i].(installed := b[i].installed))
    && (forall i: nat :: i < |a| && i !in changed ==> b[i] == a[i])
  }

  /** No other part of the state than tables, links and bindings. */
  ghost predicate SameAgent(w: World, v: World)
  {
    v.reports == w.reports && v.manifests == w.manifests && v.runtime == w.runtime
  }

  // ------------------------------------------------------------------
  // API calls
  // ------------------------------------------------------------------

  lemma SomeInstalled(w: World, name: string)
    ensures NameInstalled(w, name) <==>
            exists d: nat :: d < |w.table| && w.table[d].name == name && w.table[d].installed
  {
    if d: nat :| d < |w.table| && w.table[d].name == name && w.table[d].installed {
      assert Named(w.table, d, name) && w.Installed(d);
    }
    if d: nat :| Named(w.table, d, name) && w.Installed(d) {
      assert w.table[d].name == name && w.table[d].installed;
    }
  }

  /** Install is accepted for an uninstalled element of whose name none is installed. */
  lemma InstallMeans(w: World, e: nat)
    requires w.Valid() && e < |w.table|
    ensures var v := Next(w, InstallCall(e));
            if !w.table[e].installed &&
               forall d: nat :: d < |w.table| && w.table[d].name == w.table[e].name ==> !w.table[d].installed
            then
              OnlyInstalled(w.table, v.table, {e}) && v.table[e].installed && v == w.(table := v.table)
            else v == w
  {
    SomeInstalled(w, w.table[e].name);
  }

  /** Uninstall is accepted for an installed element that nothing is bound to: the row forgets
      its runtime element, and its own bindings go. */
  lemma UninstallMeans(w: World, e: nat)
    requires w.Valid() && e < |w.table|
    ensures var v := Next(w, UninstallCall(e));
            if w.table[e].installed && forall b :: b in w.bindings ==> b.on != e then
              && OnlyInstalled(w.table, v.table, {e}) && !v.table[e].installed
              && |v.links| == |w.links| && v.links[e].None?
              && (forall i: nat :: i < |w.links| && i != e ==> v.links[i] == w.links[i])
              && (forall b :: b in v.bindings <==> b in w.bindings && b.element != e)
              && v.targets == w.targets && SameAgent(w, v)
            else v == w
  {
  }

  /** Upgrade is accepted for an element that knows a runtime element, to an uninstalled one
      of its name: the target is installed instead and takes the runtime element over, which
      the upgraded one still knows. */
  lemma UpgradeMeans(w: World, e: nat, t: nat)
    requires w.Valid() && e < |w.table|
    ensures var v := Next(w, UpgradeCall(e, t));
            if w.links[e].Some? && t < |w.table| && w.table[t].name == w.table[e].name && !w.table[t].installed then
              && OnlyInstalled(w.table, v.table, {e, t}) && v.table[t].installed
              && (e != t ==> !v.table[e].installed)
              && |v.links| == |w.links| && v.links[t] == w.links[e]
              && (forall i: nat :: i < |w.links| && i != t ==> v.links[i] == w.links[i])
              && v.bindings == w.bindings && v.targets == w.targets && SameAgent(w, v)
            else v == w
  {
  }

  // ------------------------------------------------------------------
  // Builder hooks
  // ------------------------------------------------------------------

  /** The hooks of an installed element install what its requirements lead to and nothing
      else; nothing is uninstalled, and links and reports stay. */
  lemma InstalledHookMeans(w: World, x: nat, s: Step)
    requires w.Valid() && x < |w.table| && w.table[x].installed && s in {CreateHook(x), UpdateHook(x)}
    ensures var v := Next(w, s);
            && v.links == w.links && SameAgent(w, v) && w.targets <= v.targets <= w.targets + {x}
            && MoreInstalled(w.table, v.table)
            && forall y: nat :: y < |w.table| && v.table[y].installed && !w.table[y].installed ==>
                 Collect(w.table, x, {}).Success? && Reaches(w.table, x, x, y)
  {
    assert Next(w, s) == InstallManifest(w, x);
    if Collect(w.table, x, {}).Success? {
      var es := Collect(w.table, x, {}).value.0;
      InstallAllOnly(w, es);
      assert Next(w, s).table == InstallAll(w, es).0.table;
      CollectIsClosure(w.table, x);
    }
  }

  /** Rows differ only in that more of them are installed. */
  ghost predicate MoreInstalled(a: Table, b: Table)
  {
    && |a| == |b|
    && (forall y: nat :: y < |a| ==> b[y] == a[y].(installed := b[y].installed))
    && (forall y: nat :: y < |a| && a[y].installed ==> b[y].installed)
  }

  /** Installing a list changes its rows only, and none but from uninstalled to installed. */
  lemma {:induction false} InstallAllOnly(w: World, es: seq<nat>)
    requires forall k :: 0 <= k < |es| ==> es[k] < |w.table|
    ensures var v := InstallAll(w, es).0;
            && MoreInstalled(w.table, v.table)
            && forall y: nat :: y < |w.table| && v.table[y].installed && !w.table[y].installed ==> y in es
  {
    if es != [] {
      InstallAllOnly(w, es[..|es| - 1]);
      assert es[|es| - 1] in es;
    }
  }

  /** An installation stops at the first element another version of which is installed: what
      comes before it is installed, it and what comes behind it is as before. */
  lemma {:induction false} InstallAllStops(w: World, es: seq<nat>) returns (k: nat)
    requires forall i :: 0 <= i < |es| ==> es[i] < |w.table|
    requires forall i, j :: 0 <= i < j < |es| ==> es[i] != es[j]
    requires !InstallAll(w, es).1
    ensures var v := InstallAll(w, es).0;
            && k < |es| && (forall i :: 0 <= i < k ==> v.table[es[i]].installed) && !v.table[es[k]].installed
            && NameInstalled(v, w.table[es[k]].name)
            && (forall i :: k <= i < |es| ==> v.table[es[i]] == w.table[es[i]])
  {
    var n := |es| - 1;
    var front := es[..n];
    InstallAllNames(w, front);
    InstallAllOnly(w, front);
    assert es[n] !in front;
    if InstallAll(w, front).1 {
      k := n;
      var v := InstallAll(w, front).0;
      forall i | 0 <= i < n ensures v.table[es[i]].installed { assert front[i] == es[i] && v.Installed(front[i]); }
    } else {
      k := InstallAllStops(w, front);
      assert forall i :: 0 <= i < n ==> front[i] == es[i];
    }
  }

  /** The create hook of an uninstalled element does nothing. The update hook of one that
      knows no runtime element drops its target. */
  lemma UninstalledHookMeans(w: World, x: nat)
    requires w.Valid() && x < |w.table| && !w.table[x].installed
    ensures Next(w, CreateHook(x)) == w
    ensures w.links[x].None? ==> Next(w, UpdateHook(x)) == w.(targets := w.targets - {x})
  {
    assert w.links[x].None? ==> w.links[x := None] == w.links;
    assert x !in w.targets ==> w.targets - {x} == w.targets;
  }

  /** The release of an element that still knows a runtime element waits as long as an
      installed element of its name is not reported with one, or a binding would repeat; with
      no installed element of the name it is an ordinary removal. */
  lemma ReleaseMeans(w: World, x: nat)
    requires w.Valid() && x < |w.table| && !w.table[x].installed && w.links[x].Some?
    ensures var v := Next(w, UpdateHook(x));
            var name := w.table[x].name;
            if forall d: nat :: d < |w.table| && w.table[d].name == name ==> !w.table[d].installed then
              v == w.(links := w.links[x := None], targets := w.targets - {x})
            else
              Pending(w, name).Some? &&
              var p := Pending(w, name).value;
              if p !in w.reports || w.reports[p].None? ||
                 exists b :: b in w.bindings && b.on == x && b.element != x && Binding(b.element, p) in w.bindings
              then v == w
              else v == w.(links := w.links[x := None], targets := w.targets - {x}, bindings := v.bindings)
  {
    SomeInstalled(w, w.table[x].name);
  }

  /** A row with a target takes over whatever runtime element was reported for it. */
  lemma ActualizeMeans(w: World, x: nat)
    requires w.Valid() && x < |w.table|
    ensures var v := Next(w, ActualizeHook(x));
            && v == w.(links := v.links) && |v.links| == |w.links|
            && v.links[x] == (if x in w.targets && x in w.reports then w.reports[x] else w.links[x])
            && forall i: nat :: i < |w.links| && i != x ==> v.links[i] == w.links[i]
  {
  }

  // ------------------------------------------------------------------
  // The agent
  // ------------------------------------------------------------------

  /** Realising a target: its manifest exists afterwards and carries the runtime element of
      the name, which keeps its id if there was one; this is reported. Nothing happens without
      a target, nor for a manifest that lost its runtime element. */
  lemma ApplyMeans(w: World, e: nat)
    requires w.Valid() && e < |w.table|
    ensures var v := Next(w, AgentApply(e));
            var name := w.table[e].name;
            if e in w.targets && (e in w.manifests ==> name in w.runtime) then
              && v == w.(manifests := v.manifests, runtime := v.runtime, reports := v.reports)
              && (forall m: nat :: m in v.manifests <==> m in w.manifests || m == e)
              && name in v.runtime && v.runtime[name].manifest == e
              && (name in w.runtime ==> v.runtime[name].uuid == w.runtime[name].uuid)
              && (forall n :: n != name ==> (n in v.runtime <==> n in w.runtime))
              && (forall n :: n != name && n in w.runtime ==> v.runtime[n] == w.runtime[n])
              && e in v.reports && v.reports[e] == Some(v.runtime[name].uuid)
              && (forall m: nat :: m != e ==> (m in v.reports <==> m in w.reports))
              && (forall m: nat :: m != e && m in w.reports ==> v.reports[m] == w.reports[m])
            else v == w
  {
  }

  /** Removing a manifest that has no target: its runtime element goes with it exactly if it
      carries it. */
  lemma RemoveMeans(w: World, e: nat)
    requires w.Valid() && e < |w.table|
    ensures var v := Next(w, AgentRemove(e));
            var name := w.table[e].name;
            if e !in w.targets && e in w.manifests then
              && v == w.(manifests := v.manifests, runtime := v.runtime, reports := v.reports)
              && (forall m: nat :: m in v.manifests <==> m in w.manifests && m != e)
              && (forall n :: n in v.runtime <==> n in w.runtime && !(n == name && w.runtime[n].manifest == e))
              && (forall n :: n in v.runtime ==> v.runtime[n] == w.runtime[n])
              && (forall m: nat :: m in v.reports <==> m in w.reports && m != e)
              && (forall m: nat :: m in v.reports ==> v.reports[m] == w.reports[m])
            else v == w
  {
  }

  /** A report tells, for each existing manifest, the runtime element it carries, if any. */
  lemma ReportMeans(w: World)
    requires w.Valid()
    ensures var v := Next(w, AgentReport);
            && v == w.(reports := v.reports)
            && (forall m: nat :: m in v.reports <==> m in w.manifests && m < |w.table|)
            && (forall m: nat :: m in v.reports ==>
                  var name := w.table[m].name;
                  v.reports[m] ==
                  if name in w.runtime && w.runtime[name].manifest == m then Some(w.runtime[name].uuid) else None)
  {
  }
}
