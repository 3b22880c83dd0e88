/** The dependency closure of a repository element: requirements, the selection of a
    candidate, and the depth-first search that collects everything to install
    (exordos_core/repo/builders/element.py, exordos_core/repo/dm/models.py). */
module Dependencies {
  import opened Wrappers
  import opened Versions

  /** One entry of `manifest["requirements"]`; anything but a dictionary is skipped. */
  datatype Requirement = NotADict | Bounds(from: Option<Version>, to: Option<Version>, version: Option<Version>)

  datatype Dep = Dep(name: string, constraint: Constraint)

  /** A row of the element table. */
  datatype Row = Row(
    name: string, version: Version, priority: int, installed: bool, requirements: seq<(string, Requirement)>)

  /** What identifies an element to the search. */
  datatype Key = Key(name: string, version: Version)

  datatype DepError = Unreadable | Conflict | NotFound

  /** An element is named by its position in the table. */
  type Table = seq<Row>

  // ------------------------------------------------------------------
  // Requirements
  // ------------------------------------------------------------------

  /** The constraint of a requirement: from is at least, to is less than. A requirement
      without any bound is dropped. */
  function ConstraintOf(r: Requirement): Option<Constraint>
  {
    if r.NotADict? || (r.from.None? && r.to.None? && r.version.None?) then None
    else Some(Constraint(r.version, None, r.from, r.to, None))
  }

  /** Not below the bound: greater numbers, or the same ones and no development version
      where the bound is a release, nor one with a smaller suffix. */
  predicate AtLeast(k: VersionKey, bound: VersionKey)
  {
    FewerNumbers(bound, k) ||
    (SameNumbers(bound, k) && (bound.release ==> k.release) &&
     (bound.release == k.release ==> !StringLess(k.suffix, bound.suffix)))
  }

  /** Which versions a requirement admits, over the parts of the versions: a named version
      admits exactly itself; a version of the wrong format is not admitted otherwise; from is
      inclusive, to is exclusive, and a bound of the wrong format is an error as soon as it
      is looked at. */
  lemma AdmitsIff(r: Requirement, v: Version)
    requires NamesABound(r)
    ensures ConstraintOf(r).Some?
    ensures Matches(v, ConstraintOf(r).value) ==
            if r.version.Some? then Success(v.text == r.version.value.text)
            else if v.key.None? then Success(false)
            else if r.from.Some? && r.from.value.key.None? then Failure(BadVersion)
            else if r.from.Some? && !AtLeast(v.key.value, r.from.value.key.value) then Success(false)
            else if r.to.Some? && r.to.value.key.None? then Failure(BadVersion)
            else Success(r.to.Some? ==> !AtLeast(v.key.value, r.to.value.key.value))
  {
    if r.version.None? && v.key.Some? {
      if r.from.Some? && r.from.value.key.Some? {
        KeyLessMeans(v.key.value, r.from.value.key.value);
        KeyLessMeans(r.from.value.key.value, v.key.value);
      }
      if r.to.Some? && r.to.value.key.Some? {
        KeyLessMeans(v.key.value, r.to.value.key.value);
        KeyLessMeans(r.to.value.key.value, v.key.value);
      }
    }
  }

  /** The dependency has this name, and the bounds of this requirement. */
  predicate BoundedBy(d: Dep, name: string, r: Requirement)
  {
    && r.Bounds? && d.name == name && d.constraint.eq == r.version && d.constraint.ge == r.from
    && d.constraint.lt == r.to && d.constraint.gt.None? && d.constraint.le.None?
  }

  predicate NamesABound(r: Requirement)
  {
    r.Bounds? && (r.from.Some? || r.to.Some? || r.version.Some?)
  }

  function DepsOf(requirements: seq<(string, Requirement)>): seq<Dep>
  {
    if requirements == [] then []
    else
      var (name, r) := requirements[|requirements| - 1];
      DepsOf(requirements[..|requirements| - 1]) +
      if ConstraintOf(r).Some? then [Dep(name, ConstraintOf(r).value)] else []
  }

  /** The positions of the requirements that name a bound. */
  function Bounded(requirements: seq<(string, Requirement)>): (at: seq<nat>)
    ensures forall k :: 0 <= k < |at| ==> at[k] < |requirements| && NamesABound(requirements[at[k]].1)
    ensures forall i, j :: 0 <= i < j < |at| ==> at[i] < at[j]
    ensures forall i: nat :: i < |requirements| && NamesABound(requirements[i].1) ==> i in at
  {
    if requirements == [] then []
    else
      var n := |requirements| - 1;
      Bounded(requirements[..n]) + if NamesABound(requirements[n].1) then [n] else []
  }

  /** The dependencies are the requirements that name a bound, in order, each with its name
      and its bounds. */
  lemma {:induction false} DepsAre(requirements: seq<(string, Requirement)>)
    ensures |DepsOf(requirements)| == |Bounded(requirements)|
    ensures forall k :: 0 <= k < |Bounded(requirements)| ==>
              var (name, r) := requirements[Bounded(requirements)[k]];
              BoundedBy(DepsOf(requirements)[k], name, r)
  {
    if requirements != [] {
      var n := |requirements| - 1;
      DepsAre(requirements[..n]);
      forall k | 0 <= k < |Bounded(requirements)|
        ensures var (name, r) := requirements[Bounded(requirements)[k]];
                BoundedBy(DepsOf(requirements)[k], name, r)
      {
        var at := Bounded(requirements[..n]);
        if k < |at| { assert requirements[..n][at[k]] == requirements[at[k]]; }
      }
    }
  }

  method DependenciesOf(requirements: seq<(string, Requirement)>) returns (deps: seq<Dep>)
    ensures deps == DepsOf(requirements)
    ensures |deps| == |Bounded(requirements)|
    ensures forall k :: 0 <= k < |deps| ==>
              var (name, r) := requirements[Bounded(requirements)[k]];
              BoundedBy(deps[k], name, r)
  {
    DepsAre(requirements);
    deps := [];
    for i := 0 to |requirements|
      invariant deps == DepsOf(requirements[..i])
    {
      assert requirements[..i + 1][..i] == requirements[..i];
      var (name, r) := requirements[i];
      var c := ConstraintOf(r);
      if c.Some? {
        deps := deps + [Dep(name, c.value)];
      }
    }
    assert requirements[..|requirements|] == requirements;
  }

  // ------------------------------------------------------------------
  // Selecting a candidate
  // ------------------------------------------------------------------

  predicate Named(t: Table, i: nat, name: string)
  {
    i < |t| && t[i].name == name
  }

  predicate Fits(t: Table, i: nat, d: Dep)
  {
    Named(t, i, d.name) && Matches(t[i].version, d.constraint) == Success(true)
  }

  predicate Broken(t: Table, i: nat, d: Dep)
  {
    Named(t, i, d.name) && Matches(t[i].version, d.constraint).Failure?
  }

  function RankOf(t: Table, i: nat): Rank
    requires i < |t| && t[i].version.key.Some?
  {
    Rank(t[i].installed, t[i].priority, t[i].version.key.value)
  }

  /** The first in sort order: better rank, then table order. */
  predicate Ahead(t: Table, i: nat, j: nat)
    requires i < |t| && t[i].version.key.Some? && j < |t| && t[j].version.key.Some?
  {
    Better(RankOf(t, i), RankOf(t, j)) || (RankOf(t, i) == RankOf(t, j) && i <= j)
  }

  ghost predicate IsFirst(t: Table, d: Dep, n: nat, i: nat)
    requires n <= |t| && forall j: nat :: j < n && Fits(t, j, d) ==> t[j].version.key.Some?
  {
    i < n && Fits(t, i, d) && forall j: nat :: j < n && Fits(t, j, d) ==> Ahead(t, i, j)
  }

  /** Why no candidate can be selected, in the order the checks are made: an unreadable
      bound met at an installed element, an installed element that does not match, an
      unreadable bound anywhere, no match, a match whose own version cannot be ranked. */
  ghost function Obstacle(t: Table, d: Dep): Option<DepError>
  {
    if exists i: nat :: Broken(t, i, d) && t[i].installed then Some(Unreadable)
    else if exists i: nat :: Named(t, i, d.name) && t[i].installed && !Fits(t, i, d) then Some(Conflict)
    else if exists i: nat :: Broken(t, i, d) then Some(Unreadable)
    else if forall i: nat :: !Fits(t, i, d) then Some(NotFound)
    else if exists i: nat :: Fits(t, i, d) && t[i].version.key.None? then Some(Unreadable)
    else None
  }

  lemma {:induction false} SomeFirst(t: Table, d: Dep, n: nat)
    requires n <= |t| && forall j: nat :: j < n && Fits(t, j, d) ==> t[j].version.key.Some?
    ensures (exists i: nat :: IsFirst(t, d, n, i)) || forall i: nat :: i < n ==> !Fits(t, i, d)
  {
    if n > 0 {
      var k := n - 1;
      SomeFirst(t, d, k);
      if i: nat :| IsFirst(t, d, k, i) {
        if Fits(t, k, d) {
          BetterTotal(RankOf(t, i), RankOf(t, k));
          var b := if Ahead(t, i, k) then i else k;
          forall j: nat | j < n && Fits(t, j, d) ensures Ahead(t, b, j) {
            if b == k && j != k && Better(RankOf(t, i), RankOf(t, j)) {
              BetterTransitive(RankOf(t, k), RankOf(t, i), RankOf(t, j));
            }
          }
          assert IsFirst(t, d, n, b);
        } else {
          assert IsFirst(t, d, n, i);
        }
      } else if Fits(t, k, d) {
        assert IsFirst(t, d, n, k);
      }
    }
  }

  lemma FirstIsUnique(t: Table, d: Dep, n: nat, i: nat, j: nat)
    requires n <= |t| && forall k: nat :: k < n && Fits(t, k, d) ==> t[k].version.key.Some?
    requires IsFirst(t, d, n, i) && IsFirst(t, d, n, j)
    ensures i == j
  {
    assert Ahead(t, i, j) && Ahead(t, j, i);
    BetterTotal(RankOf(t, i), RankOf(t, j));
  }

  ghost function Select(t: Table, d: Dep): (r: Result<nat, DepError>)
    ensures r.Success? ==> r.value < |t| && Fits(t, r.value, d)
    ensures r.Success? <==> Obstacle(t, d).None?
  {
    var o := Obstacle(t, d);
    if o.Some? then Failure(o.value)
    else
      SomeFirst(t, d, |t|);
      var i: nat :| IsFirst(t, d, |t|, i);
      Success(i)
  }

  /** The selection is canonical: whatever constraints they were selected for, two selected
      elements of the same name and version are the same row. */
  lemma SelectCanonical(t: Table, d: Dep, e: Dep)
    requires Select(t, d).Success? && Select(t, e).Success?
    requires KeyOf(t, Select(t, d).value) == KeyOf(t, Select(t, e).value)
    ensures Select(t, d) == Select(t, e)
  {
    var i, j := Select(t, d).value, Select(t, e).value;
    assert Fits(t, j, d) && Fits(t, i, e);
    assert Ahead(t, i, j) && Ahead(t, j, i);
    BetterTotal(RankOf(t, i), RankOf(t, j));
  }

  /** An installed element that does not satisfy a constraint always blocks it, and one that
      does is always the one selected. */
  lemma InstalledDecides(t: Table, d: Dep, i: nat)
    requires Named(t, i, d.name) && t[i].installed
    requires forall j: nat :: Named(t, j, d.name) && t[j].installed ==> j == i
    ensures Select(t, d).Success? ==> Select(t, d) == Success(i)
    ensures !Fits(t, i, d) ==> Select(t, d).Failure?
  {
    if Select(t, d).Success? {
      assert Fits(t, i, d);
      assert Ahead(t, Select(t, d).value, i);
    }
  }

  function KeyOf(t: Table, i: nat): Key
    requires i < |t|
  {
    Key(t[i].name, t[i].version)
  }

  /** A row of the name whose version the bounds admit, and that is ahead of every other
      row that fits. */
  ghost predicate Chosen(t: Table, d: Dep, i: nat)
  {
    && Named(t, i, d.name) && t[i].version.key.Some?
    && (if d.constraint.eq.Some? then t[i].version.text == d.constraint.eq.value.text
        else
          (d.constraint.ge.Some? ==>
             d.constraint.ge.value.key.Some? && AtLeast(t[i].version.key.value, d.constraint.ge.value.key.value)) &&
          (d.constraint.lt.Some? ==>
             d.constraint.lt.value.key.Some? && !AtLeast(t[i].version.key.value, d.constraint.lt.value.key.value)))
    && forall j: nat :: Fits(t, j, d) ==> t[j].version.key.Some? && Ahead(t, i, j)
  }

  lemma SelectedIsChosen(t: Table, d: Dep)
    requires Select(t, d).Success?
    ensures Chosen(t, d, Select(t, d).value)
  {
    var c, k := d.constraint, t[Select(t, d).value].version.key.value;
    if c.eq.None? && c.ge.Some? {
      KeyLessMeans(k, c.ge.value.key.value);
      KeyLessMeans(c.ge.value.key.value, k);
    }
    if c.eq.None? && c.lt.Some? {
      KeyLessMeans(k, c.lt.value.key.value);
      KeyLessMeans(c.lt.value.key.value, k);
    }
  }

  /** Which rows an error speaks of: an installed row of the name that does not fit, if every
      bound is readable; no installed row, and none that fits. */
  lemma SelectErrors(t: Table, d: Dep)
    ensures (forall i: nat :: !Broken(t, i, d)) ==>
              (Select(t, d) == Failure(Conflict) <==>
               exists i: nat :: Named(t, i, d.name) && t[i].installed && !Fits(t, i, d))
    ensures Select(t, d) == Failure(NotFound) ==>
              forall i: nat :: Named(t, i, d.name) ==> !t[i].installed && !Fits(t, i, d) && !Broken(t, i, d)
    ensures (forall i: nat :: Named(t, i, d.name) ==> !t[i].installed && !Fits(t, i, d) && !Broken(t, i, d)) ==>
              Select(t, d) == Failure(NotFound)
    ensures (exists i: nat :: Broken(t, i, d) && t[i].installed) ==> Select(t, d) == Failure(Unreadable)
    ensures (exists i: nat :: Broken(t, i, d)) ==> Select(t, d) in {Failure(Unreadable), Failure(Conflict)}
    ensures (exists i: nat :: Fits(t, i, d) && t[i].version.key.None?) ==> Select(t, d).Failure?
    ensures Select(t, d) == Failure(Unreadable) ==>
              exists i: nat :: Broken(t, i, d) || (Fits(t, i, d) && t[i].version.key.None?)
  {
  }

  /** The selection as the builder makes it: filter, check, sort, take the first. */
  method SelectDependency(t: Table, d: Dep) returns (r: Result<nat, DepError>)
    ensures r == Select(t, d)
    ensures r.Success? ==> Chosen(t, d, r.value)
  {
    if Select(t, d).Success? { SelectedIsChosen(t, d); }
    var named := NamedRows(t, d.name);
    var conflict := false;
    for a := 0 to |named|
      invariant forall b :: 0 <= b < a ==> !(Broken(t, named[b], d) && t[named[b]].installed)
      invariant conflict <==> exists b :: 0 <= b < a && t[named[b]].installed && !Fits(t, named[b], d)
    {
      var i := named[a];
      if t[i].installed {
        var m := Matches(t[i].version, d.constraint);
        if m.Failure? {
          assert Broken(t, i, d);
          return Failure(Unreadable);
        }
        conflict := conflict || !m.value;
      }
    }
    if conflict {
      var b :| 0 <= b < |named| && t[named[b]].installed && !Fits(t, named[b], d);
      assert Named(t, named[b], d.name);
      return Failure(Conflict);
    }
    var candidates := [];
    for a := 0 to |named|
      invariant forall b :: 0 <= b < a ==> !Broken(t, named[b], d)
      invariant forall i: nat :: i in candidates <==> Fits(t, i, d) && i in named[..a]
    {
      var m := Matches(t[named[a]].version, d.constraint);
      if m.Failure? {
        assert Broken(t, named[a], d);
        return Failure(Unreadable);
      }
      if m.value {
        candidates := candidates + [named[a]];
      }
    }
    assert named[..|named|] == named;
    assert forall i: nat :: Named(t, i, d.name) ==> i in named;
    if candidates == [] {
      assert forall i: nat :: !Fits(t, i, d);
      return Failure(NotFound);
    }
    assert Fits(t, candidates[0], d);
    r := FirstInOrder(t, d, candidates);
  }

  method NamedRows(t: Table, name: string) returns (rows: seq<nat>)
    ensures forall i: nat :: i in rows <==> Named(t, i, name)
    ensures forall a :: 0 <= a < |rows| ==> rows[a] < |t| && Named(t, rows[a], name)
  {
    rows := [];
    for i := 0 to |t|
      invariant forall k: nat :: k in rows <==> k < i && Named(t, k, name)
    {
      if t[i].name == name {
        rows := rows + [i];
      }
    }
    assert forall a :: 0 <= a < |rows| ==> rows[a] in rows;
  }

  /** `sorted(candidates, key)[0]`: the key of every candidate is computed. */
  method FirstInOrder(t: Table, d: Dep, candidates: seq<nat>) returns (r: Result<nat, DepError>)
    requires candidates != [] && forall i: nat :: i in candidates <==> Fits(t, i, d)
    requires forall i: nat :: Named(t, i, d.name) && t[i].installed ==> Fits(t, i, d)
    requires forall i: nat :: !Broken(t, i, d)
    ensures r == Select(t, d)
  {
    var best := candidates[0];
    assert forall b :: 0 <= b < |candidates| ==> candidates[b] in candidates && Fits(t, candidates[b], d);
    for a := 0 to |candidates|
      invariant forall b :: 0 <= b < |candidates| ==> candidates[b] < |t|
      invariant best in candidates && best < |t|
      invariant a > 0 ==> t[best].version.key.Some?
      invariant forall b :: 0 <= b < a ==> t[candidates[b]].version.key.Some?
      invariant forall b :: 0 <= b < a ==> Ahead(t, best, candidates[b])
    {
      var i := candidates[a];
      assert i in candidates;
      if t[i].version.key.None? {
        assert Fits(t, i, d) && t[i].version.key.None?;
        return Failure(Unreadable);
      }
      if a == 0 {
        best := i;
      } else if !Ahead(t, best, i) {
        BetterTotal(RankOf(t, best), RankOf(t, i));
        forall b | 0 <= b < a ensures Ahead(t, i, candidates[b]) {
          AheadTransitive(t, i, best, candidates[b]);
        }
        best := i;
      }
    }
    assert forall j: nat :: Fits(t, j, d) ==> t[j].version.key.Some?;
    assert IsFirst(t, d, |t|, best);
    FirstIsUnique(t, d, |t|, best, Select(t, d).value);
    r := Success(best);
  }

  lemma AheadTransitive(t: Table, i: nat, j: nat, k: nat)
    requires i < |t| && j < |t| && k < |t|
    requires t[i].version.key.Some? && t[j].version.key.Some? && t[k].version.key.Some?
    requires Ahead(t, i, j) && Ahead(t, j, k)
    ensures Ahead(t, i, k)
  {
    if Better(RankOf(t, i), RankOf(t, j)) && Better(RankOf(t, j), RankOf(t, k)) {
      BetterTransitive(RankOf(t, i), RankOf(t, j), RankOf(t, k));
    }
  }

  // ------------------------------------------------------------------
  // The search
  // ------------------------------------------------------------------

  function AllKeys(t: Table): set<Key>
  {
    set i: nat | i < |t| :: KeyOf(t, i)
  }

  /** The keys not visited yet; every call of the search visits a new one. */
  ghost function Unvisited(t: Table, visited: set<Key>): nat
  {
    |AllKeys(t) - visited|
  }

  lemma VisitShrinks(t: Table, e: nat, visited: set<Key>)
    requires e < |t| && KeyOf(t, e) !in visited
    ensures Unvisited(t, visited + {KeyOf(t, e)}) < Unvisited(t, visited)
  {
    var k := KeyOf(t, e);
    assert k in AllKeys(t) - visited;
    assert AllKeys(t) - (visited + {k}) == AllKeys(t) - visited - {k};
  }

  lemma MoreVisited(t: Table, a: set<Key>, b: set<Key>)
    requires a <= b
    ensures Unvisited(t, b) <= Unvisited(t, a)
  {
    assert AllKeys(t) - b <= AllKeys(t) - a;
    SubsetSize(AllKeys(t) - b, AllKeys(t) - a);
  }

  lemma {:induction false} SubsetSize<T>(a: set<T>, b: set<T>)
    requires a <= b
    ensures |a| <= |b|
  {
    if a != {} {
      var x := PickFrom(a);
      SubsetSize(a - {x}, b - {x});
    }
  }

  function Deps(t: Table, e: nat): seq<Dep>
    requires e < |t|
  {
    DepsOf(t[e].requirements)
  }

  /** What the search returns: the elements in installation order and the visited keys. */
  type Found = (seq<nat>, set<Key>)

  ghost function Collect(t: Table, e: nat, visited: set<Key>): (r: Result<Found, DepError>)
    requires e < |t|
    ensures r.Success? ==> visited <= r.value.1 && forall k :: 0 <= k < |r.value.0| ==> r.value.0[k] < |t|
    decreases Unvisited(t, visited), 0
  {
    if KeyOf(t, e) in visited then Success(([], visited))
    else
      VisitShrinks(t, e, visited);
      match CollectDeps(t, Deps(t, e), visited + {KeyOf(t, e)})
      case Failure(x) => Failure(x)
      case Success((found, seen)) => Success((found + [e], seen))
  }

  ghost function CollectDeps(t: Table, deps: seq<Dep>, visited: set<Key>): (r: Result<Found, DepError>)
    ensures r.Success? ==> visited <= r.value.1 && forall k :: 0 <= k < |r.value.0| ==> r.value.0[k] < |t|
    decreases Unvisited(t, visited), 1 + |deps|
  {
    if deps == [] then Success(([], visited))
    else
      match Select(t, deps[0])
      case Failure(x) => Failure(x)
      case Success(s) =>
        match Collect(t, s, visited)
        case Failure(x) => Failure(x)
        case Success((first, seen)) =>
          MoreVisited(t, visited, seen);
          match CollectDeps(t, deps[1..], seen)
          case Failure(x) => Failure(x)
          case Success((rest, all)) => Success((first + rest, all))
  }

  /** The search with its set of visited keys, changed in place. */
  class Collector {
    var visited: set<Key>

    constructor ()
      ensures visited == {}
    {
      visited := {};
    }

    method CollectDependencies(t: Table, e: nat) returns (r: Result<seq<nat>, DepError>)
      requires e < |t|
      modifies this
      ensures old(visited) <= visited
      ensures match Collect(t, e, old(visited))
              case Failure(x) => r == Failure(x)
              case Success((found, seen)) => r == Success(found) && visited == seen
      decreases Unvisited(t, visited), 0
    {
      var key := KeyOf(t, e);
      if key in visited {
        return Success([]);
      }
      VisitShrinks(t, e, visited);
      visited := visited + {key};
      ghost var start := visited;
      var deps := DependenciesOf(t[e].requirements);
      var found: seq<nat> := [];
      ResumesStart(t, deps, visited);
      for i := 0 to |deps|
        invariant start <= visited && Resumes(t, deps, start, i, found, visited)
      {
        ResumesStep(t, deps, start, i, found, visited);
        var s := SelectDependency(t, deps[i]);
        if s.Failure? {
          return Failure(s.error);
        }
        MoreVisited(t, start, visited);
        var more := CollectDependencies(t, s.value);
        if more.Failure? {
          return more;
        }
        found := found + more.value;
      }
      assert deps[|deps|..] == [] && found + [] == found;
      r := Success(found + [e]);
    }
  }

  /** After `i` requirements the loop has `found` and `visited`, and what is left decides
      the rest. */
  ghost predicate Resumes(t: Table, deps: seq<Dep>, start: set<Key>, i: nat, found: seq<nat>, visited: set<Key>)
    requires i <= |deps|
  {
    match CollectDeps(t, deps[i..], visited)
    case Failure(x) => CollectDeps(t, deps, start) == Failure(x)
    case Success((rest, all)) => CollectDeps(t, deps, start) == Success((found + rest, all))
  }

  lemma ResumesStart(t: Table, deps: seq<Dep>, start: set<Key>)
    ensures Resumes(t, deps, start, 0, [], start)
  {
    assert deps[0..] == deps;
    match CollectDeps(t, deps, start)
    case Failure(_) =>
    case Success((rest, _)) => assert [] + rest == rest;
  }

  lemma ResumesStep(t: Table, deps: seq<Dep>, start: set<Key>, i: nat, found: seq<nat>, visited: set<Key>)
    requires i < |deps| && Resumes(t, deps, start, i, found, visited)
    ensures Select(t, deps[i]).Failure? ==> CollectDeps(t, deps, start) == Failure(Select(t, deps[i]).error)
    ensures Select(t, deps[i]).Success? ==>
              var r := Collect(t, Select(t, deps[i]).value, visited);
              if r.Failure? then CollectDeps(t, deps, start) == Failure(r.error)
              else Resumes(t, deps, start, i + 1, found + r.value.0, r.value.1)
  {
    assert deps[i..][0] == deps[i] && deps[i..][1..] == deps[i + 1..];
    if Select(t, deps[i]).Success? {
      match Collect(t, Select(t, deps[i]).value, visited)
      case Failure(_) =>
      case Success((first, seen)) =>
        match CollectDeps(t, deps[i + 1..], seen)
        case Failure(_) =>
        case Success((rest, _)) => assert found + (first + rest) == (found + first) + rest;
    }
  }
}
