/** The lifecycle of repository elements as a state machine: API calls, builder hooks and
    agent actions, each one atomic step (exordos_core/repo/dm/models.py,
    exordos_core/repo/builders/element.py, and the agent's driver). */
module Lifecycle {
  import opened Wrappers
  import opened Dependencies

  /** `element` depends on `on`. */
  datatype Binding = Binding(element: nat, on: nat)

  /** The runtime element of a name: the manifest it is installed from, and its id. */
  datatype Runtime = Runtime(manifest: nat, uuid: int)

  /** The state. `links` holds the runtime element id each row knows of; `targets` the rows
      with an InstalledManifest to be realised by the agent; `reports` the manifests the
      agent has reported, with the runtime element it reported for them; `manifests` and
      `runtime` what really exists on the agent's side. */
  datatype World = World(
    table: Table,
    links: seq<Option<int>>,
    bindings: set<Binding>,
    targets: set<nat>,
    reports: map<nat, Option<int>>,
    manifests: set<nat>,
    runtime: map<string, Runtime>)
  {
    ghost predicate Valid()
    {
      && |links| == |table|
      && (forall b :: b in bindings ==> b.element < |table| && b.on < |table|)
      && (forall e :: e in targets ==> e < |table|)
    }

    predicate Installed(e: nat)
    {
      e < |table| && table[e].installed
    }
  }

  /** Some element of the name is installed. */
  ghost predicate NameInstalled(w: World, name: string)
  {
    exists e: nat :: Named(w.table, e, name) && w.Installed(e)
  }

  function SetInstalled(t: Table, e: nat, value: bool): Table
    requires e < |t|
  {
    t[e := t[e].(installed := value)]
  }

  // ------------------------------------------------------------------
  // API calls
  // ------------------------------------------------------------------

  ghost predicate CanInstall(w: World, e: nat)
  {
    e < |w.table| && !w.Installed(e) && !NameInstalled(w, w.table[e].name)
  }

  function Install(w: World, e: nat): World
    requires e < |w.table|
  {
    w.(table := SetInstalled(w.table, e, true))
  }

  ghost predicate CanUninstall(w: World, e: nat)
  {
    w.Installed(e) && forall b :: b in w.bindings ==> b.on != e
  }

  function OwnBindings(bindings: set<Binding>, e: nat): set<Binding>
  {
    set b | b in bindings && b.element == e
  }

  function Uninstall(w: World, e: nat): World
    requires w.Valid() && e < |w.table|
  {
    w.(table := SetInstalled(w.table, e, false), links := w.links[e := None],
       bindings := w.bindings - OwnBindings(w.bindings, e))
  }

  /** As the code has it: the upgraded element needs a runtime element, not to be installed. */
  ghost predicate CanUpgrade(w: World, e: nat, target: nat)
  {
    && w.Valid() && e < |w.table| && w.links[e].Some?
    && Named(w.table, target, w.table[e].name) && !w.Installed(target)
  }

  function Upgrade(w: World, e: nat, target: nat): World
    requires w.Valid() && e < |w.table| && target < |w.table|
  {
    w.(table := SetInstalled(SetInstalled(w.table, e, false), target, true),
       links := w.links[target := w.links[e]])
  }

  // ------------------------------------------------------------------
  // Builder hooks
  // ------------------------------------------------------------------

  /** Installs the elements in order, skipping those already installed; stops at the first
      one that cannot be installed, keeping what is installed by then. */
  ghost function InstallAll(w: World, es: seq<nat>): (r: (World, bool))
    requires forall k :: 0 <= k < |es| ==> es[k] < |w.table|
    ensures |r.0.table| == |w.table| && r.0 == w.(table := r.0.table)
  {
    if es == [] then (w, true)
    else
      var (front, ok) := InstallAll(w, es[..|es| - 1]);
      var e := es[|es| - 1];
      if !ok then (front, false)
      else if front.Installed(e) then (front, true)
      else if CanInstall(front, e) then (Install(front, e), true)
      else (front, false)
  }

  /** Bindings from `x` to every element installed for it. */
  function NewBindings(x: nat, es: seq<nat>): set<Binding>
  {
    set k | 0 <= k < |es| :: Binding(x, es[k])
  }

  ghost function InstallManifest(w: World, x: nat): World
    requires x < |w.table|
  {
    match Collect(w.table, x, {})
    case Failure(_) => w
    case Success((es, _)) =>
      var (after, ok) := InstallAll(w, es);
      if !ok || es == [] then after
      else after.(bindings := w.bindings + NewBindings(x, es[..|es| - 1]), targets := w.targets + {x})
  }

  /** The first installed element of a name, in table order. */
  ghost function Pending(w: World, name: string): (r: Option<nat>)
    ensures r.Some? <==> NameInstalled(w, name)
    ensures r.Some? ==> Named(w.table, r.value, name) && w.Installed(r.value)
    ensures r.Some? ==> forall e: nat :: Named(w.table, e, name) && w.Installed(e) ==> r.value <= e
  {
    if NameInstalled(w, name) then
      FirstInstalled(w, name, |w.table|);
      var e: nat :| Named(w.table, e, name) && w.Installed(e) &&
                    forall d: nat :: Named(w.table, d, name) && w.Installed(d) ==> e <= d;
      Some(e)
    else None
  }

  lemma {:induction false} FirstInstalled(w: World, name: string, n: nat)
    requires exists e: nat :: Named(w.table, e, name) && w.Installed(e) && e < n
    ensures exists e: nat :: Named(w.table, e, name) && w.Installed(e) &&
              forall d: nat :: Named(w.table, d, name) && w.Installed(d) ==> e <= d
  {
    if e: nat :| Named(w.table, e, name) && w.Installed(e) && e < n - 1 {
      FirstInstalled(w, name, n - 1);
    }
  }

  /** A binding repointed to the pending element would repeat one that exists. */
  ghost predicate HandOverBlocked(bindings: set<Binding>, x: nat, pending: nat)
  {
    exists b :: b in bindings && b.on == x && b.element != x && Binding(b.element, pending) in bindings
  }

  /** Own bindings are dropped, those pointing to `x` are repointed. */
  function HandOver(bindings: set<Binding>, x: nat, pending: nat): set<Binding>
  {
    set b | b in bindings && b.element != x :: if b.on == x then Binding(b.element, pending) else b
  }

  /** The pending element has been reported with a runtime element. */
  predicate ReportedLinked(w: World, p: nat)
  {
    p in w.reports && w.reports[p].Some?
  }

  function Dropped(w: World, x: nat): World
    requires w.Valid() && x < |w.table|
  {
    w.(links := w.links[x := None], targets := w.targets - {x})
  }

  /** The release of an uninstalled element that still knows a runtime element: it waits for
      the pending element to be in place and then hands the bindings over. */
  ghost function Release(w: World, x: nat): World
    requires w.Valid() && x < |w.table|
  {
    match Pending(w, w.table[x].name)
    case None => Dropped(w, x)
    case Some(p) =>
      if !ReportedLinked(w, p) || HandOverBlocked(w.bindings, x, p) then w
      else Dropped(w.(bindings := HandOver(w.bindings, x, p)), x)
  }

  ghost function Create(w: World, x: nat): World
    requires w.Valid() && x < |w.table|
  {
    if w.Installed(x) then InstallManifest(w, x) else w
  }

  ghost function Update(w: World, x: nat): World
    requires w.Valid() && x < |w.table|
  {
    if w.Installed(x) then InstallManifest(w, x)
    else if w.links[x].Some? then Release(w, x)
    else if x in w.targets then Dropped(w, x)
    else w
  }

  /** The row takes over the runtime element the agent reported for its manifest. */
  function Actualize(w: World, x: nat): World
    requires w.Valid() && x < |w.table|
  {
    if x in w.targets && x in w.reports then w.(links := w.links[x := w.reports[x]]) else w
  }

  // ------------------------------------------------------------------
  // Agent actions
  // ------------------------------------------------------------------

  /** Realises a target: the first manifest of a name installs its runtime element, every
      later one takes it over. */
  function Apply(w: World, e: nat): World
    requires e < |w.table|
  {
    var name := w.table[e].name;
    if e !in w.targets || (e in w.manifests && name !in w.runtime) then w
    else
      var uuid := if name in w.runtime then w.runtime[name].uuid else e;
      w.(manifests := w.manifests + {e}, runtime := w.runtime[name := Runtime(e, uuid)],
         reports := w.reports[e := Some(uuid)])
  }

  /** Removes a manifest without a target, with the runtime element if installed from it. */
  function Remove(w: World, e: nat): World
    requires e < |w.table|
  {
    var name := w.table[e].name;
    if e in w.targets || e !in w.manifests then w
    else
      w.(manifests := w.manifests - {e}, reports := w.reports - {e},
         runtime := if name in w.runtime && w.runtime[name].manifest == e then w.runtime - {name} else w.runtime)
  }

  /** What the agent would report of a manifest. */
  function Truth(w: World, e: nat): Option<int>
    requires e < |w.table|
  {
    var name := w.table[e].name;
    if name in w.runtime && w.runtime[name].manifest == e then Some(w.runtime[name].uuid) else None
  }

  function Report(w: World): World
  {
    w.(reports := map e | e in w.manifests && e < |w.table| :: Truth(w, e))
  }

  // ------------------------------------------------------------------
  // Steps and runs
  // ------------------------------------------------------------------

  datatype Step =
    | InstallCall(e: nat)
    | UninstallCall(e: nat)
    | UpgradeCall(e: nat, target: nat)
    | CreateHook(e: nat)
    | UpdateHook(e: nat)
    | ActualizeHook(e: nat)
    | AgentApply(e: nat)
    | AgentRemove(e: nat)
    | AgentReport

  /** A call that is rejected changes nothing. */
  ghost function Next(w: World, s: Step): World
    requires w.Valid()
  {
    if !s.AgentReport? && s.e >= |w.table| then w
    else
      match s
      case InstallCall(e) => if CanInstall(w, e) then Install(w, e) else w
      case UninstallCall(e) => if CanUninstall(w, e) then Uninstall(w, e) else w
      case UpgradeCall(e, t) => if CanUpgrade(w, e, t) then Upgrade(w, e, t) else w
      case CreateHook(e) => Create(w, e)
      case UpdateHook(e) => Update(w, e)
      case ActualizeHook(e) => Actualize(w, e)
      case AgentApply(e) => Apply(w, e)
      case AgentRemove(e) => Remove(w, e)
      case AgentReport => Report(w)
  }

  lemma NextValid(w: World, s: Step)
    requires w.Valid()
    ensures Next(w, s).Valid() && |Next(w, s).table| == |w.table|
  {
  }

  /** A run: consecutive states are related by the steps. */
  ghost predicate IsRun(ws: seq<World>, steps: seq<Step>)
  {
    && |ws| == |steps| + 1
    && (forall i :: 0 <= i < |ws| ==> ws[i].Valid())
    && (forall i :: 0 <= i < |steps| ==> ws[i + 1] == Next(ws[i], steps[i]))
  }

  // ------------------------------------------------------------------
  // Names never change
  // ------------------------------------------------------------------

  ghost predicate SameNames(a: World, b: World)
  {
    |a.table| == |b.table| && forall e: nat :: e < |a.table| ==> a.table[e].name == b.table[e].name
  }

  lemma {:induction false} InstallAllNames(w: World, es: seq<nat>)
    requires forall k :: 0 <= k < |es| ==> es[k] < |w.table|
    ensures SameNames(w, InstallAll(w, es).0)
    ensures forall e: nat :: w.Installed(e) ==> InstallAll(w, es).0.Installed(e)
    ensures InstallAll(w, es).1 ==> forall k :: 0 <= k < |es| ==> InstallAll(w, es).0.Installed(es[k])
  {
    if es != [] { InstallAllNames(w, es[..|es| - 1]); }
  }

  lemma InstallManifestNames(w: World, x: nat)
    requires x < |w.table|
    ensures SameNames(w, InstallManifest(w, x))
    ensures forall e: nat :: w.Installed(e) ==> InstallManifest(w, x).Installed(e)
  {
    if Collect(w.table, x, {}).Success? { InstallAllNames(w, Collect(w.table, x, {}).value.0); }
  }

  lemma NextNames(w: World, s: Step)
    requires w.Valid()
    ensures SameNames(w, Next(w, s))
  {
    if !s.AgentReport? && s.e < |w.table| { InstallManifestNames(w, s.e); }
  }
}
