/** The runtime element of a name outlives upgrades: which steps keep it, exactly, and a run
    of upgrades that loses it (exordos_core/repo/builders/element.py, the release protocol). */
module NoGap {
  import opened Wrappers
  import opened Versions
  import opened Dependencies
  import opened Lifecycle

  /** The agent's runtime elements are installed from its manifests. */
  ghost predicate AgentConsistent(w: World)
  {
    forall n :: n in w.runtime ==>
      Named(w.table, w.runtime[n].manifest, n) && w.runtime[n].manifest in w.manifests
  }

  /** The name is installed, and its runtime element hangs on a manifest that still has a
      target and whose row is installed or waits to be released. */
  ghost predicate Safe(w: World, n: string)
    requires w.Valid()
  {
    && n in w.runtime && NameInstalled(w, n)
    && var e := w.runtime[n].manifest;
       e < |w.table| && e in w.targets && (w.Installed(e) || w.links[e].Some?)
  }

  /** The name is removed: the call is accepted. */
  ghost predicate Uninstalls(w: World, s: Step, n: string)
  {
    s.UninstallCall? && CanUninstall(w, s.e) && w.table[s.e].name == n
  }

  /** The builder's check lets a waiting row go. */
  ghost predicate Released(w: World, e: nat, n: string)
    requires w.Valid() && e < |w.table|
  {
    && w.links[e].Some? && Pending(w, n).Some?
    && ReportedLinked(w, Pending(w, n).value) && !HandOverBlocked(w.bindings, e, Pending(w, n).value)
  }

  /** What a step must not do to a name: the agent realises no target of a row that is
      neither installed nor waiting; a waiting row is not released, nor told that it has no
      runtime element, while its manifest carries it. */
  ghost predicate Orderly(w: World, s: Step, n: string)
    requires w.Valid() && n in w.runtime
  {
    !s.AgentReport? && s.e < |w.table| && w.table[s.e].name == n && !w.Installed(s.e) ==>
      match s
      case AgentApply(e) => e in w.targets ==> w.links[e].Some?
      case UpdateHook(e) => Released(w, e, n) ==> w.runtime[n].manifest != e
      case ActualizeHook(e) => e in w.targets && e in w.reports && w.reports[e].None? ==> w.runtime[n].manifest != e
      case _ => true
  }

  lemma ConsistencyKept(w: World, s: Step)
    requires w.Valid() && AgentConsistent(w)
    ensures AgentConsistent(Next(w, s))
  {
    NextNames(w, s);
  }

  /** Installing a manifest adds its target and uninstalls nothing. */
  lemma InstallManifestSafe(w: World, x: nat, n: string)
    requires w.Valid() && x < |w.table|
    ensures InstallManifest(w, x).Valid() && (Safe(w, n) ==> Safe(InstallManifest(w, x), n))
  {
    InstallManifestNames(w, x);
    var v := InstallManifest(w, x);
    if Safe(w, n) {
      var e: nat :| Named(w.table, e, n) && w.Installed(e);
      assert Named(v.table, e, n) && v.Installed(e);
    }
  }

  lemma UpgradeSafe(w: World, e: nat, target: nat, n: string)
    requires w.Valid() && Safe(w, n) && CanUpgrade(w, e, target)
    ensures Safe(Upgrade(w, e, target), n)
  {
    var v := Upgrade(w, e, target);
    var c: nat :| Named(w.table, c, n) && w.Installed(c);
    var d := if c == e then target else c;
    assert Named(v.table, d, n) && v.Installed(d);
  }

  /** Any step but the removal of the name keeps it safe if and only if it is orderly. */
  lemma StepSafeIff(w: World, s: Step, n: string)
    requires w.Valid() && AgentConsistent(w) && Safe(w, n) && !Uninstalls(w, s, n)
    ensures Next(w, s).Valid() && (Safe(Next(w, s), n) <==> Orderly(w, s, n))
  {
    NextValid(w, s);
    if s.AgentReport? || s.e < |w.table| {
      match s
      case InstallCall(e) => InstallSafe(w, e, n);
      case UninstallCall(e) => if CanUninstall(w, e) { UninstallOtherSafe(w, e, n); }
      case UpgradeCall(e, t) => if CanUpgrade(w, e, t) { UpgradeSafe(w, e, t, n); }
      case CreateHook(e) => InstallManifestSafe(w, e, n);
      case UpdateHook(e) => if w.Installed(e) { InstallManifestSafe(w, e, n); }
      case ActualizeHook(e) =>
      case AgentApply(e) =>
      case AgentRemove(e) =>
      case AgentReport =>
    }
  }

  lemma InstallSafe(w: World, e: nat, n: string)
    requires w.Valid() && Safe(w, n) && e < |w.table|
    ensures Next(w, InstallCall(e)).Valid() && Safe(Next(w, InstallCall(e)), n)
  {
    var v := Next(w, InstallCall(e));
    var c: nat :| Named(w.table, c, n) && w.Installed(c);
    assert Named(v.table, c, n) && v.Installed(c);
  }

  lemma UninstallOtherSafe(w: World, e: nat, n: string)
    requires w.Valid() && AgentConsistent(w) && Safe(w, n) && e < |w.table| && w.table[e].name != n
    ensures Next(w, UninstallCall(e)).Valid() && Safe(Next(w, UninstallCall(e)), n)
  {
    var v := Next(w, UninstallCall(e));
    var c: nat :| Named(w.table, c, n) && w.Installed(c);
    assert Named(v.table, c, n) && v.Installed(c);
  }

  /** Safety is not asked for more than needed: from a state that lost it, the builder and
      the agent alone can take the runtime element away from an installed name. */
  lemma UnsafeCanGap(w: World, n: string)
    requires w.Valid() && AgentConsistent(w) && n in w.runtime && NameInstalled(w, n) && !Safe(w, n)
    ensures var e := w.runtime[n].manifest;
            var v := Next(w, UpdateHook(e));
            n !in Next(w, AgentRemove(e)).runtime ||
            (v.Valid() && NameInstalled(v, n) && n !in Next(v, AgentRemove(e)).runtime)
  {
    var e := w.runtime[n].manifest;
    NextValid(w, UpdateHook(e));
  }

  // ------------------------------------------------------------------
  // What keeps steps orderly
  // ------------------------------------------------------------------

  predicate InstalledAs(w: World, p: nat, n: string)
  {
    Named(w.table, p, n) && w.Installed(p)
  }

  /** The name is in step: it is safe, one row of it is installed, that row is reported with a
      runtime element only if its manifest carries it, and the manifest that carries it is
      not reported without one. */
  ghost predicate InStep(w: World, n: string)
    requires w.Valid()
  {
    && AgentConsistent(w) && Safe(w, n)
    && (forall p: nat, q: nat :: InstalledAs(w, p, n) && InstalledAs(w, q, n) ==> p == q)
    && (forall p: nat :: InstalledAs(w, p, n) && ReportedLinked(w, p) ==> w.runtime[n].manifest == p)
    && (w.runtime[n].manifest in w.reports ==> ReportedLinked(w, w.runtime[n].manifest))
  }

  /** The steps that have to be watched: the name is not removed; an upgrade starts from the
      installed row, and goes to one that is not still reported with a runtime element,
      unless it really carries it; the agent realises the manifest of an uninstalled row only
      while that row waits and the installed one is not reported in place. */
  ghost predicate Watched(w: World, s: Step, n: string)
    requires w.Valid() && n in w.runtime
  {
    !s.AgentReport? && s.e < |w.table| && w.table[s.e].name == n ==>
      match s
      case UninstallCall(e) => !CanUninstall(w, e)
      case UpgradeCall(e, t) =>
        CanUpgrade(w, e, t) ==> w.Installed(e) && (ReportedLinked(w, t) ==> w.runtime[n].manifest == t)
      case AgentApply(e) =>
        e in w.targets && !w.Installed(e) ==>
          w.links[e].Some? && forall p: nat :: InstalledAs(w, p, n) ==> !ReportedLinked(w, p)
      case _ => true
  }

  /** In step, the builder's check is enough: what it releases does not carry the element. */
  lemma WatchedIsOrderly(w: World, s: Step, n: string)
    requires w.Valid() && InStep(w, n) && Watched(w, s, n)
    ensures Orderly(w, s, n)
  {
    if s.UpdateHook? && s.e < |w.table| && Released(w, s.e, n) {
      assert InstalledAs(w, Pending(w, n).value, n);
    }
  }

  /** With the name installed, nothing but API calls for it changes which rows are. */
  lemma {:induction false} InstallAllSame(w: World, es: seq<nat>, n: string)
    requires NameInstalled(w, n) && forall k :: 0 <= k < |es| ==> es[k] < |w.table|
    ensures forall p: nat :: InstalledAs(InstallAll(w, es).0, p, n) <==> InstalledAs(w, p, n)
  {
    if es != [] {
      InstallAllSame(w, es[..|es| - 1], n);
      InstallAllNames(w, es[..|es| - 1]);
      var front := InstallAll(w, es[..|es| - 1]).0;
      var p: nat :| Named(w.table, p, n) && w.Installed(p);
      assert InstalledAs(front, p, n);
    }
  }

  lemma HookSame(w: World, x: nat, n: string)
    requires NameInstalled(w, n) && x < |w.table|
    ensures forall p: nat :: InstalledAs(InstallManifest(w, x), p, n) <==> InstalledAs(w, p, n)
  {
    if Collect(w.table, x, {}).Success? { InstallAllSame(w, Collect(w.table, x, {}).value.0, n); }
  }

  lemma UpgradeInStepIff(w: World, e: nat, t: nat, n: string)
    requires w.Valid() && InStep(w, n) && CanUpgrade(w, e, t)
    ensures Upgrade(w, e, t).Valid() && (InStep(Upgrade(w, e, t), n) <==> Watched(w, UpgradeCall(e, t), n))
  {
    var v := Upgrade(w, e, t);
    UpgradeSafe(w, e, t, n);
    assert forall p: nat :: InstalledAs(v, p, n) <==>
             (p == t && w.table[e].name == n) || (p != e && InstalledAs(w, p, n));
    if w.table[e].name == n && !w.Installed(e) {
      var p: nat :| Named(w.table, p, n) && w.Installed(p);
      assert InstalledAs(v, p, n) && InstalledAs(v, t, n) && p != t;
    } else if w.table[e].name == n {
      assert InstalledAs(w, e, n) && InstalledAs(v, t, n);
    }
  }

  lemma UninstallEndsIt(w: World, e: nat, n: string)
    requires w.Valid() && InStep(w, n) && CanUninstall(w, e) && w.table[e].name == n
    ensures Uninstall(w, e).Valid() && !NameInstalled(Uninstall(w, e), n)
  {
    if p: nat :| Named(Uninstall(w, e).table, p, n) && Uninstall(w, e).Installed(p) {
      assert InstalledAs(w, p, n) && InstalledAs(w, e, n);
    }
  }

  /** A step that leaves the reports and the runtime element alone, and the installed rows. */
  lemma SameRowsInStep(w: World, v: World, n: string)
    requires w.Valid() && InStep(w, n) && v.Valid() && AgentConsistent(v) && Safe(v, n)
    requires v.reports == w.reports && v.runtime == w.runtime
    requires forall p: nat :: InstalledAs(v, p, n) ==> InstalledAs(w, p, n)
    ensures InStep(v, n)
  {
  }

  lemma ApplyInStepIff(w: World, e: nat, n: string)
    requires w.Valid() && InStep(w, n) && e < |w.table| && Apply(w, e).Valid()
    requires AgentConsistent(Apply(w, e)) && (Safe(Apply(w, e), n) <==> Orderly(w, AgentApply(e), n))
    ensures InStep(Apply(w, e), n) <==> Watched(w, AgentApply(e), n)
  {
    var v := Apply(w, e);
    assert forall p: nat :: InstalledAs(v, p, n) <==> InstalledAs(w, p, n);
    if w.table[e].name == n && e in w.targets && !w.Installed(e) && w.links[e].Some? {
      if p: nat :| InstalledAs(w, p, n) && ReportedLinked(w, p) {
        assert InstalledAs(v, p, n) && ReportedLinked(v, p) && v.runtime[n].manifest == e;
      }
    }
    if Watched(w, AgentApply(e), n) {
      forall p: nat | InstalledAs(v, p, n) && ReportedLinked(v, p) ensures v.runtime[n].manifest == p {
        assert InstalledAs(w, p, n);
        if e in w.targets && w.table[e].name == n && w.Installed(e) { assert InstalledAs(w, e, n); }
      }
      forall p: nat, q: nat | InstalledAs(v, p, n) && InstalledAs(v, q, n) ensures p == q {
        assert InstalledAs(w, p, n) && InstalledAs(w, q, n);
      }
    }
  }

  lemma AgentInStep(w: World, s: Step, n: string)
    requires w.Valid() && InStep(w, n) && (s.AgentReport? || (s.AgentRemove? && s.e < |w.table|))
    requires Next(w, s).Valid() && AgentConsistent(Next(w, s)) && Safe(Next(w, s), n)
    ensures InStep(Next(w, s), n)
  {
    assert forall p: nat :: InstalledAs(Next(w, s), p, n) <==> InstalledAs(w, p, n);
  }

  /** Any step keeps the name in step if and only if it is as watched. */
  lemma StepInStepIff(w: World, s: Step, n: string)
    requires w.Valid() && InStep(w, n)
    ensures Next(w, s).Valid() && (InStep(Next(w, s), n) <==> Watched(w, s, n))
  {
    if Uninstalls(w, s, n) {
      UninstallEndsIt(w, s.e, n);
    } else {
      StepSafeIff(w, s, n);
      ConsistencyKept(w, s);
      if s.UpgradeCall? && CanUpgrade(w, s.e, s.target) {
        UpgradeInStepIff(w, s.e, s.target, n);
      } else if s.AgentApply? && s.e < |w.table| {
        ApplyInStepIff(w, s.e, n);
      } else {
        assert Watched(w, s, n);
        WatchedIsOrderly(w, s, n);
        if s.AgentReport? || (s.AgentRemove? && s.e < |w.table|) {
          AgentInStep(w, s, n);
        } else {
          StepRows(w, s, n);
          SameRowsInStep(w, Next(w, s), n);
        }
      }
    }
  }

  lemma StepRows(w: World, s: Step, n: string)
    requires w.Valid() && NameInstalled(w, n) && Next(w, s).Valid()
    requires !s.AgentReport? && (s.e < |w.table| ==> !s.AgentApply? && !s.AgentRemove?)
    requires s.UpgradeCall? ==> !CanUpgrade(w, s.e, s.target)
    ensures Next(w, s).reports == w.reports && Next(w, s).runtime == w.runtime
    ensures forall p: nat :: InstalledAs(Next(w, s), p, n) ==> InstalledAs(w, p, n)
  {
    if s.e < |w.table| { HookSame(w, s.e, n); }
  }

  /** No gap: from the time a name is in step, over any run of watched steps of the API, the
      builder and the agent, across chains of upgrades too, it keeps a runtime element. */
  lemma {:induction false} RunsKeepRuntime(ws: seq<World>, steps: seq<Step>, n: string, i: nat)
    requires IsRun(ws, steps) && i < |ws| && InStep(ws[0], n)
    requires forall k :: 0 <= k < |steps| && n in ws[k].runtime ==> Watched(ws[k], steps[k], n)
    ensures InStep(ws[i], n) && n in ws[i].runtime && NameInstalled(ws[i], n)
  {
    if i > 0 {
      RunsKeepRuntime(ws, steps, n, i - 1);
      StepInStepIff(ws[i - 1], steps[i - 1], n);
      assert ws[i] == Next(ws[i - 1], steps[i - 1]);
    }
  }

  /** A condition that can be read off the tables and the reports before the step: nothing in
      it depends on what the agent really has. */
  ghost predicate Checked(w: World, s: Step, n: string)
    requires w.Valid()
  {
    !s.AgentReport? && s.e < |w.table| && w.table[s.e].name == n ==>
      match s
      case UninstallCall(e) => !CanUninstall(w, e)
      case UpgradeCall(e, t) => CanUpgrade(w, e, t) ==> w.Installed(e) && !ReportedLinked(w, t)
      case AgentApply(e) =>
        e in w.targets && !w.Installed(e) ==>
          w.links[e].Some? && forall p: nat :: InstalledAs(w, p, n) ==> !ReportedLinked(w, p)
      case _ => true
  }

  /** No gap over any run of steps that pass such a check. */
  lemma CheckedRunsKeepRuntime(ws: seq<World>, steps: seq<Step>, n: string, i: nat)
    requires IsRun(ws, steps) && i < |ws| && InStep(ws[0], n)
    requires forall k :: 0 <= k < |steps| ==> Checked(ws[k], steps[k], n)
    ensures n in ws[i].runtime && NameInstalled(ws[i], n)
  {
    forall k | 0 <= k < |steps| && n in ws[k].runtime ensures Watched(ws[k], steps[k], n) {
      assert Checked(ws[k], steps[k], n);
    }
    RunsKeepRuntime(ws, steps, n, i);
  }

  /** How a name comes to be in step: its first realised manifest. */
  lemma FirstRealised(w: World, e: nat, n: string)
    requires w.Valid() && AgentConsistent(w) && n !in w.runtime && e in w.targets && e !in w.manifests
    requires InstalledAs(w, e, n) && forall p: nat :: InstalledAs(w, p, n) ==> p == e
    ensures Next(w, AgentApply(e)).Valid() && InStep(Next(w, AgentApply(e)), n)
  {
    var v := Next(w, AgentApply(e));
    assert Named(v.table, e, n) && v.Installed(e);
    assert forall p: nat :: InstalledAs(v, p, n) <==> InstalledAs(w, p, n);
  }

  /** The watch on upgrades is needed: moving to a version that is still reported with the
      runtime element it no longer carries lets the builder release the one that does. */
  lemma StaleTargetGaps(w: World, e: nat, t: nat, n: string)
    requires w.Valid() && InStep(w, n) && e < |w.table| && w.table[e].name == n && w.Installed(e)
    requires CanUpgrade(w, e, t) && ReportedLinked(w, t) && w.runtime[n].manifest != t
    requires !HandOverBlocked(w.bindings, w.runtime[n].manifest, t)
    ensures var c := w.runtime[n].manifest;
            var v := Next(w, UpgradeCall(e, t));
            v.Valid() && Next(v, UpdateHook(c)).Valid() &&
            var u := Next(Next(v, UpdateHook(c)), AgentRemove(c));
            NameInstalled(u, n) && n !in u.runtime
  {
    var c := w.runtime[n].manifest;
    var v := Next(w, UpgradeCall(e, t));
    NextValid(w, UpgradeCall(e, t));
    NextValid(v, UpdateHook(c));
    assert InstalledAs(w, e, n) && InstalledAs(v, t, n);
    forall p: nat | InstalledAs(v, p, n) ensures p == t {
      if p != t { assert InstalledAs(w, p, n); }
    }
    assert Named(v.table, t, n) && v.Installed(t);
    assert !v.Installed(c) by {
      if v.Installed(c) { assert InstalledAs(v, c, n); }
    }
    assert InstalledAs(v, Pending(v, n).value, n);
    var u := Next(Next(v, UpdateHook(c)), AgentRemove(c));
    assert Named(u.table, t, n) && u.Installed(t);
  }

  /** And so is the watch on the agent: a row that waits, realised again after the installed
      one is reported in place, is released with the runtime element on its manifest. */
  lemma LateRealisationGaps(w: World, e: nat, p: nat, n: string)
    requires w.Valid() && InStep(w, n) && Named(w.table, e, n) && e in w.targets && !w.Installed(e)
    requires InstalledAs(w, p, n) && ReportedLinked(w, p) && !HandOverBlocked(w.bindings, e, p)
    ensures var v := Next(w, AgentApply(e));
            v.Valid() && Next(v, UpdateHook(e)).Valid() &&
            var u := Next(Next(v, UpdateHook(e)), AgentRemove(e));
            NameInstalled(u, n) && n !in u.runtime
  {
    var v := Next(w, AgentApply(e));
    NextValid(w, AgentApply(e));
    NextValid(v, UpdateHook(e));
    assert Named(v.table, p, n) && v.Installed(p);
    assert forall q: nat :: InstalledAs(v, q, n) ==> InstalledAs(w, q, n);
    assert InstalledAs(v, Pending(v, n).value, n);
    assert v.runtime[n].manifest == e && e in v.manifests;
    var u := Next(Next(v, UpdateHook(e)), AgentRemove(e));
    assert Named(u.table, p, n) && u.Installed(p);
  }

  // ------------------------------------------------------------------
  // A chain of upgrades that loses the runtime element
  // ------------------------------------------------------------------

  lemma CollectAlone(t: Table, e: nat)
    requires e < |t| && t[e].requirements == []
    ensures Collect(t, e, {}) == Success(([e], {KeyOf(t, e)}))
  {
    assert Deps(t, e) == [];
    assert CollectDeps(t, [], {KeyOf(t, e)}) == Success(([], {KeyOf(t, e)}));
    assert {} + {KeyOf(t, e)} == {KeyOf(t, e)};
    assert [] + [e] == [e];
  }

  lemma InstallManifestAlone(w: World, x: nat)
    requires w.Installed(x) && w.table[x].requirements == []
    ensures InstallManifest(w, x) == w.(targets := w.targets + {x})
  {
    CollectAlone(w.table, x);
    assert [x][..0] == [];
    assert InstallAll(w, []) == (w, true);
    assert InstallAll(w, [x]) == (w, true);
    assert NewBindings(x, []) == {};
    assert w.bindings + {} == w.bindings;
  }

  const V1: Version := Version("1.0.0", Some(VersionKey(1, 0, 0, true, "")))
  const V2: Version := Version("2.0.0", Some(VersionKey(2, 0, 0, true, "")))

  function Two(first: bool, second: bool): Table
  {
    [Row("app", V1, 0, first, []), Row("app", V2, 0, second, [])]
  }

  /** The states of the chain, one after each step of `ChainStep`. */
  function Chain(i: nat): World
    requires i <= 10
  {
    var link, byFirst, bySecond := Some(0), map["app" := Runtime(0, 0)], map["app" := Runtime(1, 0)];
    if i == 0 then World(Two(false, false), [None, None], {}, {}, map[], {}, map[])
    else if i == 1 then World(Two(true, false), [None, None], {}, {}, map[], {}, map[])
    else if i == 2 then World(Two(true, false), [None, None], {}, {0}, map[], {}, map[])
    else if i == 3 then World(Two(true, false), [None, None], {}, {0}, map[0 := link], {0}, byFirst)
    else if i == 4 then World(Two(true, false), [link, None], {}, {0}, map[0 := link], {0}, byFirst)
    else if i == 5 then World(Two(false, true), [link, link], {}, {0}, map[0 := link], {0}, byFirst)
    else if i == 6 then World(Two(false, true), [link, link], {}, {0, 1}, map[0 := link], {0}, byFirst)
    else if i == 7 then World(Two(false, true), [link, link], {}, {0, 1}, map[0 := link, 1 := link], {0, 1}, bySecond)
    else if i == 8 then World(Two(true, false), [link, link], {}, {0, 1}, map[0 := link, 1 := link], {0, 1}, bySecond)
    else if i == 9 then World(Two(true, false), [link, None], {}, {0}, map[0 := link, 1 := link], {0, 1}, bySecond)
    else World(Two(true, false), [link, None], {}, {0}, map[0 := link], {0}, map[])
  }

  function ChainStep(i: nat): Step
    requires i < 10
  {
    if i == 0 then InstallCall(0)
    else if i == 1 then UpdateHook(0)
    else if i == 2 then AgentApply(0)
    else if i == 3 then ActualizeHook(0)
    else if i == 4 then UpgradeCall(0, 1)
    else if i == 5 then UpdateHook(1)
    else if i == 6 then AgentApply(1)
    else if i == 7 then UpgradeCall(1, 0)
    else if i == 8 then UpdateHook(1)
    else AgentRemove(1)
  }

  /** `s` leads from `w` to `v`. */
  ghost predicate Leads(w: World, s: Step, v: World)
  {
    w.Valid() && v.Valid() && v == Next(w, s)
  }

  lemma UpdateAlone(w: World, x: nat)
    requires w.Valid() && w.Installed(x) && w.table[x].requirements == []
    ensures Next(w, UpdateHook(x)) == w.(targets := w.targets + {x})
  {
    InstallManifestAlone(w, x);
  }

  lemma ChainInstalls(w: World, v: World)
    requires w == Chain(0) && v == Chain(1)
    ensures Leads(w, InstallCall(0), v)
  {
    assert forall e: nat :: !w.Installed(e);
    assert CanInstall(w, 0);
    assert Install(w, 0) == v;
  }

  lemma ChainTargetsFirst(w: World, v: World)
    requires w == Chain(1) && v == Chain(2)
    ensures Leads(w, UpdateHook(0), v)
  {
    UpdateAlone(w, 0);
  }

  lemma ChainActualizes(w: World, v: World)
    requires w == Chain(3) && v == Chain(4)
    ensures Leads(w, ActualizeHook(0), v)
  {
  }

  lemma ChainUpgrades(w: World, v: World)
    requires w == Chain(4) && v == Chain(5)
    ensures Leads(w, UpgradeCall(0, 1), v)
  {
  }

  lemma ChainTargets(w: World, v: World)
    requires w == Chain(5) && v == Chain(6)
    ensures Leads(w, UpdateHook(1), v)
  {
    UpdateAlone(w, 1);
  }

  lemma ChainTakesOver(w: World, v: World)
    requires w == Chain(6) && v == Chain(7)
    ensures Leads(w, AgentApply(1), v)
  {
  }

  lemma ChainMovesBack(w: World, v: World)
    requires w == Chain(7) && v == Chain(8)
    ensures Leads(w, UpgradeCall(1, 0), v)
  {
  }

  lemma ChainReleases(w: World, v: World)
    requires w == Chain(8) && v == Chain(9)
    ensures Leads(w, UpdateHook(1), v)
  {
    assert Named(w.table, 0, "app") && w.Installed(0);
    assert Pending(w, "app") == Some(0);
    assert HandOver({}, 1, 0) == {};
    assert Dropped(w, 1) == v;
  }

  lemma ChainDeletes(w: World, v: World)
    requires w == Chain(9) && v == Chain(10)
    ensures Leads(w, AgentRemove(1), v)
  {
  }

  lemma ChainLeads(i: nat, w: World, s: Step, v: World)
    requires i < 10 && w == Chain(i) && s == ChainStep(i) && v == Chain(i + 1)
    ensures Leads(w, s, v)
  {
    if i == 0 { ChainInstalls(w, v); }
    else if i == 1 { ChainTargetsFirst(w, v); }
    else if i == 2 { }
    else if i == 3 { ChainActualizes(w, v); }
    else if i == 4 { ChainUpgrades(w, v); }
    else if i == 5 { ChainTargets(w, v); }
    else if i == 6 { ChainTakesOver(w, v); }
    else if i == 7 { ChainMovesBack(w, v); }
    else if i == 8 { ChainReleases(w, v); }
    else { ChainDeletes(w, v); }
  }

  lemma ChainIsRun(ws: seq<World>, steps: seq<Step>)
    requires |ws| == 11 && forall i :: 0 <= i < 11 ==> ws[i] == Chain(i)
    requires |steps| == 10 && forall i :: 0 <= i < 10 ==> steps[i] == ChainStep(i)
    ensures IsRun(ws, steps)
  {
    forall i | 0 <= i < 10 ensures Leads(ws[i], steps[i], ws[i + 1]) {
      ChainLeads(i, ws[i], steps[i], ws[i + 1]);
    }
    assert Leads(ws[9], steps[9], ws[10]);
  }

  /** Version 2 takes over from version 1 and is at once moved back to version 1. The agent
      still reports version 1 with the runtime element it had before, so version 2 is
      released while its manifest carries the element, and the agent deletes it. */
  lemma StaleReportGaps()
    ensures exists ws: seq<World>, steps: seq<Step> ::
              IsRun(ws, steps) && |steps| == 10 && AgentConsistent(ws[0]) &&
              (forall k :: 0 <= k < |steps| ==> !steps[k].UninstallCall?) &&
              InStep(ws[4], "app") && NameInstalled(ws[10], "app") && "app" !in ws[10].runtime
  {
    var ws := seq(11, i requires 0 <= i < 11 => Chain(i));
    var steps := seq(10, i requires 0 <= i < 10 => ChainStep(i));
    ChainIsRun(ws, steps);
    assert Named(ws[4].table, 0, "app") && ws[4].Installed(0);
    assert InStep(ws[4], "app");
    assert Named(ws[10].table, 0, "app") && ws[10].Installed(0);
  }
}
