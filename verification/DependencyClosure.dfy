/** What the dependency search returns: exactly the reachable elements, once each, the
    requested one last, and dependencies first when there is no cycle. */
module DependencyClosure {
  import opened Wrappers
  import opened Dependencies

  // ------------------------------------------------------------------
  // The selected graph
  // ------------------------------------------------------------------

  /** An element with the name and version of the requested one is the requested one. */
  function Rep(t: Table, root: nat, x: nat): nat
    requires root < |t| && x < |t|
  {
    if KeyOf(t, x) == KeyOf(t, root) then root else x
  }

  /** `y` is what one of the requirements of `x` selects. */
  ghost predicate Edge(t: Table, root: nat, x: nat, y: nat)
    requires root < |t|
  {
    x < |t| && exists d :: d in Deps(t, x) && Select(t, d).Success? && Rep(t, root, Select(t, d).value) == y
  }

  ghost predicate IsPath(t: Table, root: nat, p: seq<nat>)
    requires root < |t|
  {
    p != [] && forall i :: 0 <= i < |p| - 1 ==> Edge(t, root, p[i], p[i + 1])
  }

  ghost predicate Reaches(t: Table, root: nat, x: nat, y: nat)
    requires root < |t|
  {
    exists p :: IsPath(t, root, p) && p[0] == x && p[|p| - 1] == y
  }

  lemma ReachesSelf(t: Table, root: nat, x: nat)
    requires root < |t|
    ensures Reaches(t, root, x, x)
  {
    assert IsPath(t, root, [x]);
  }

  lemma ReachesStep(t: Table, root: nat, x: nat, y: nat, z: nat)
    requires root < |t| && Edge(t, root, x, y) && Reaches(t, root, y, z)
    ensures Reaches(t, root, x, z)
  {
    var p :| IsPath(t, root, p) && p[0] == y && p[|p| - 1] == z;
    var q := [x] + p;
    assert q[0] == x && q[|q| - 1] == z;
    forall i | 0 <= i < |q| - 1 ensures Edge(t, root, q[i], q[i + 1]) {
      assert q[i + 1] == p[i];
      if i > 0 { assert q[i] == p[i - 1] && Edge(t, root, p[i - 1], p[i - 1 + 1]); }
    }
    assert IsPath(t, root, q);
  }

  // ------------------------------------------------------------------
  // Once each
  // ------------------------------------------------------------------

  ghost function Keys(t: Table, found: seq<nat>): set<Key>
    requires forall k :: 0 <= k < |found| ==> found[k] < |t|
  {
    set k | 0 <= k < |found| :: KeyOf(t, found[k])
  }

  ghost predicate DistinctKeys(t: Table, found: seq<nat>)
    requires forall k :: 0 <= k < |found| ==> found[k] < |t|
  {
    forall i, j :: 0 <= i < j < |found| ==> KeyOf(t, found[i]) != KeyOf(t, found[j])
  }

  lemma KeysConcat(t: Table, a: seq<nat>, b: seq<nat>)
    requires forall k :: 0 <= k < |a| ==> a[k] < |t|
    requires forall k :: 0 <= k < |b| ==> b[k] < |t|
    ensures Keys(t, a + b) == Keys(t, a) + Keys(t, b)
    ensures DistinctKeys(t, a) && DistinctKeys(t, b) && Keys(t, a) !! Keys(t, b) ==> DistinctKeys(t, a + b)
  {
    var c := a + b;
    forall key ensures key in Keys(t, c) <==> key in Keys(t, a) || key in Keys(t, b) {
      if key in Keys(t, a) {
        var k :| 0 <= k < |a| && KeyOf(t, a[k]) == key;
        assert c[k] == a[k];
      }
      if key in Keys(t, b) {
        var k :| 0 <= k < |b| && KeyOf(t, b[k]) == key;
        assert c[|a| + k] == b[k];
      }
    }
    if DistinctKeys(t, a) && DistinctKeys(t, b) && Keys(t, a) !! Keys(t, b) {
      forall i, j | 0 <= i < j < |c| ensures KeyOf(t, c[i]) != KeyOf(t, c[j]) {
        if i < |a| <= j {
          assert KeyOf(t, a[i]) in Keys(t, a) && KeyOf(t, b[j - |a|]) in Keys(t, b);
        }
      }
    }
  }

  /** From `visited` to `seen`, exactly the keys of `found` are new, each once. */
  ghost predicate Once(t: Table, found: seq<nat>, visited: set<Key>, seen: set<Key>)
  {
    && (forall k :: 0 <= k < |found| ==> found[k] < |t|)
    && seen == visited + Keys(t, found) && Keys(t, found) !! visited && DistinctKeys(t, found)
  }

  lemma OnceAppend(t: Table, found: seq<nat>, e: nat, visited: set<Key>, seen: set<Key>)
    requires e < |t| && KeyOf(t, e) !in visited && Once(t, found, visited + {KeyOf(t, e)}, seen)
    ensures Once(t, found + [e], visited, seen)
  {
    assert Keys(t, [e]) == {KeyOf(t, e)} by {
      assert [e][0] == e;
    }
    KeysConcat(t, found, [e]);
  }

  lemma OnceConcat(t: Table, a: seq<nat>, b: seq<nat>, visited: set<Key>, seen: set<Key>, all: set<Key>)
    requires Once(t, a, visited, seen) && Once(t, b, seen, all)
    ensures Once(t, a + b, visited, all)
  {
    KeysConcat(t, a, b);
  }

  /** The search adds exactly the keys of what it returns, each once. */
  lemma {:induction false} CollectOnce(t: Table, e: nat, visited: set<Key>)
    requires e < |t| && Collect(t, e, visited).Success?
    ensures var (found, seen) := Collect(t, e, visited).value;
            Once(t, found, visited, seen) && KeyOf(t, e) in seen
    decreases Unvisited(t, visited), 0
  {
    if KeyOf(t, e) !in visited {
      VisitShrinks(t, e, visited);
      CollectDepsOnce(t, Deps(t, e), visited + {KeyOf(t, e)});
      var (found, seen) := CollectDeps(t, Deps(t, e), visited + {KeyOf(t, e)}).value;
      OnceAppend(t, found, e, visited, seen);
    }
  }

  lemma {:induction false} CollectDepsOnce(t: Table, deps: seq<Dep>, visited: set<Key>)
    requires CollectDeps(t, deps, visited).Success?
    ensures var (found, seen) := CollectDeps(t, deps, visited).value;
            Once(t, found, visited, seen)
    decreases Unvisited(t, visited), 1 + |deps|
  {
    if deps != [] {
      var s := Select(t, deps[0]).value;
      CollectOnce(t, s, visited);
      var (first, seen) := Collect(t, s, visited).value;
      MoreVisited(t, visited, seen);
      CollectDepsOnce(t, deps[1..], seen);
      var (rest, all) := CollectDeps(t, deps[1..], seen).value;
      OnceConcat(t, first, rest, visited, seen, all);
    }
  }

  // ------------------------------------------------------------------
  // Closed under requirements
  // ------------------------------------------------------------------

  /** Everything the requirements of `x` select is among `seen`. */
  ghost predicate Closed(t: Table, x: nat, seen: set<Key>)
    requires x < |t|
  {
    forall d :: d in Deps(t, x) ==> Select(t, d).Success? && KeyOf(t, Select(t, d).value) in seen
  }

  lemma {:induction false} CollectCloses(t: Table, e: nat, visited: set<Key>)
    requires e < |t| && Collect(t, e, visited).Success?
    ensures var (found, seen) := Collect(t, e, visited).value;
            forall k :: 0 <= k < |found| ==> Closed(t, found[k], seen)
    decreases Unvisited(t, visited), 0
  {
    if KeyOf(t, e) !in visited {
      VisitShrinks(t, e, visited);
      CollectDepsCloses(t, Deps(t, e), visited + {KeyOf(t, e)});
    }
  }

  lemma {:induction false} CollectDepsCloses(t: Table, deps: seq<Dep>, visited: set<Key>)
    requires CollectDeps(t, deps, visited).Success?
    ensures var (found, seen) := CollectDeps(t, deps, visited).value;
            (forall k :: 0 <= k < |found| ==> Closed(t, found[k], seen)) &&
            (forall d :: d in deps ==> Select(t, d).Success? && KeyOf(t, Select(t, d).value) in seen)
    decreases Unvisited(t, visited), 1 + |deps|
  {
    if deps != [] {
      var s := Select(t, deps[0]).value;
      CollectCloses(t, s, visited);
      CollectOnce(t, s, visited);
      var (first, seen) := Collect(t, s, visited).value;
      MoreVisited(t, visited, seen);
      CollectDepsCloses(t, deps[1..], seen);
      var (rest, all) := CollectDeps(t, deps[1..], seen).value;
      forall d | d in deps ensures Select(t, d).Success? && KeyOf(t, Select(t, d).value) in all {
        if d != deps[0] { assert d in deps[1..]; }
      }
    }
  }

  // ------------------------------------------------------------------
  // Only reachable elements
  // ------------------------------------------------------------------

  /** The search below `e`, once the requested element has been visited, stays within what
      `e` reaches and within what requirements select. */
  ghost predicate Proper(t: Table, root: nat, x: nat)
    requires root < |t|
  {
    x < |t| && (x == root || (KeyOf(t, x) != KeyOf(t, root) && exists d :: Select(t, d) == Success(x)))
  }

  ghost predicate Under(t: Table, root: nat, e: nat, visited: set<Key>)
    requires root < |t|
  {
    e < |t| && ((e == root && visited == {}) || (KeyOf(t, root) in visited && exists d :: Select(t, d) == Success(e)))
  }

  lemma {:induction false} CollectReaches(t: Table, root: nat, e: nat, visited: set<Key>)
    requires root < |t| && Under(t, root, e, visited) && Collect(t, e, visited).Success?
    ensures var (found, _) := Collect(t, e, visited).value;
            forall k :: 0 <= k < |found| ==> Proper(t, root, found[k]) && Reaches(t, root, e, found[k])
    decreases Unvisited(t, visited), 0
  {
    if KeyOf(t, e) !in visited {
      VisitShrinks(t, e, visited);
      assert Deps(t, e)[0..] == Deps(t, e);
      CollectDepsReaches(t, root, e, 0, visited + {KeyOf(t, e)});
      ReachesSelf(t, root, e);
      assert Proper(t, root, e);
    }
  }

  lemma {:induction false} CollectDepsReaches(t: Table, root: nat, e: nat, i: nat, visited: set<Key>)
    requires root < |t| && e < |t| && i <= |Deps(t, e)|
    requires KeyOf(t, root) in visited && CollectDeps(t, Deps(t, e)[i..], visited).Success?
    ensures var (found, _) := CollectDeps(t, Deps(t, e)[i..], visited).value;
            forall k :: 0 <= k < |found| ==> Proper(t, root, found[k]) && Reaches(t, root, e, found[k])
    decreases Unvisited(t, visited), 1 + |Deps(t, e)| - i
  {
    if i < |Deps(t, e)| {
      var deps := Deps(t, e)[i..];
      assert deps[0] == Deps(t, e)[i] && deps[1..] == Deps(t, e)[i + 1..];
      var s := Select(t, deps[0]).value;
      CollectReaches(t, root, s, visited);
      CollectOnce(t, s, visited);
      var (first, seen) := Collect(t, s, visited).value;
      forall k | 0 <= k < |first| ensures Reaches(t, root, e, first[k]) {
        assert deps[0] in Deps(t, e) && Rep(t, root, s) == s;
        ReachesStep(t, root, e, s, first[k]);
      }
      MoreVisited(t, visited, seen);
      CollectDepsReaches(t, root, e, i + 1, seen);
    }
  }

  /** The element of the result that stands for what a requirement selects. */
  lemma SelectedIsFound(t: Table, root: nat, found: seq<nat>, q: nat, d: Dep)
    requires root < |t| && q < |found| && Proper(t, root, found[q])
    requires Select(t, d).Success? && KeyOf(t, found[q]) == KeyOf(t, Select(t, d).value)
    ensures found[q] == Rep(t, root, Select(t, d).value)
  {
    if found[q] != root {
      var e :| Select(t, e) == Success(found[q]);
      SelectCanonical(t, d, e);
    }
  }

  lemma {:induction false} PathStaysIn(t: Table, root: nat, found: seq<nat>, p: seq<nat>)
    requires root < |t| && IsPath(t, root, p) && p[0] in found
    requires forall x, y :: x in found && Edge(t, root, x, y) ==> y in found
    ensures p[|p| - 1] in found
  {
    if |p| > 1 {
      var q := p[1..];
      assert forall i :: 0 <= i < |q| ==> q[i] == p[i + 1];
      assert Edge(t, root, p[0], p[1]);
      PathStaysIn(t, root, found, q);
    }
  }

  lemma FoundIsClosed(t: Table, root: nat, found: seq<nat>, x: nat, y: nat)
    requires root < |t| && Collect(t, root, {}).Success? && found == Collect(t, root, {}).value.0
    requires x in found && Edge(t, root, x, y)
    ensures y in found
  {
    var seen := Collect(t, root, {}).value.1;
    CollectOnce(t, root, {});
    CollectCloses(t, root, {});
    CollectReaches(t, root, root, {});
    var k :| 0 <= k < |found| && found[k] == x;
    assert Closed(t, found[k], seen);
    var d :| d in Deps(t, x) && Select(t, d).Success? && Rep(t, root, Select(t, d).value) == y;
    var q :| 0 <= q < |found| && KeyOf(t, found[q]) == KeyOf(t, Select(t, d).value);
    SelectedIsFound(t, root, found, q, d);
  }

  /** A successful search returns exactly the elements reachable through selected
      requirements, each name and version once, and the requested element last. */
  lemma CollectIsClosure(t: Table, root: nat)
    requires root < |t| && Collect(t, root, {}).Success?
    ensures var found := Collect(t, root, {}).value.0;
            DistinctKeys(t, found) && found != [] && found[|found| - 1] == root &&
            forall x :: x in found <==> Reaches(t, root, root, x)
  {
    var found := Collect(t, root, {}).value.0;
    CollectOnce(t, root, {});
    CollectReaches(t, root, root, {});
    forall x | Reaches(t, root, root, x) ensures x in found {
      var p :| IsPath(t, root, p) && p[0] == root && p[|p| - 1] == x;
      forall u, v | u in found && Edge(t, root, u, v) ensures v in found {
        FoundIsClosed(t, root, found, u, v);
      }
      assert found[|found| - 1] == root;
      PathStaysIn(t, root, found, p);
    }
  }

  // ------------------------------------------------------------------
  // Dependencies first
  // ------------------------------------------------------------------

  ghost predicate Earlier(t: Table, found: seq<nat>, k: nat, key: Key)
    requires k <= |found| && forall i :: 0 <= i < |found| ==> found[i] < |t|
  {
    exists q :: 0 <= q < k && KeyOf(t, found[q]) == key
  }

  /** The selected element is still being expanded: the search got to `found[k]` from it. */
  ghost predicate Back(t: Table, root: nat, found: seq<nat>, k: nat, key: Key)
    requires root < |t| && k < |found| && forall i :: 0 <= i < |found| ==> found[i] < |t|
  {
    exists q :: k <= q < |found| && KeyOf(t, found[q]) == key && Reaches(t, root, found[q], found[k])
  }

  /** What a requirement of `found[k]` selects was visited before the search started, comes
      earlier in the result, or leads back to `found[k]`. */
  ghost predicate Placed(t: Table, root: nat, found: seq<nat>, visited: set<Key>, k: nat)
    requires root < |t| && k < |found| && forall i :: 0 <= i < |found| ==> found[i] < |t|
  {
    forall d :: d in Deps(t, found[k]) && Select(t, d).Success? ==>
      var key := KeyOf(t, Select(t, d).value);
      key in visited || Earlier(t, found, k, key) || Back(t, root, found, k, key)
  }

  ghost predicate AllPlaced(t: Table, root: nat, found: seq<nat>, visited: set<Key>)
    requires root < |t|
  {
    (forall i :: 0 <= i < |found| ==> found[i] < |t|) &&
    forall k :: 0 <= k < |found| ==> Placed(t, root, found, visited, k)
  }

  lemma PlacedConcat(t: Table, root: nat, a: seq<nat>, b: seq<nat>, visited: set<Key>, seen: set<Key>)
    requires root < |t| && AllPlaced(t, root, a, visited) && AllPlaced(t, root, b, seen)
    requires seen == visited + Keys(t, a)
    ensures AllPlaced(t, root, a + b, visited)
  {
    var c := a + b;
    forall k | 0 <= k < |c| ensures Placed(t, root, c, visited, k) {
      forall d | d in Deps(t, c[k]) && Select(t, d).Success?
        ensures var key := KeyOf(t, Select(t, d).value);
                key in visited || Earlier(t, c, k, key) || Back(t, root, c, k, key)
      {
        var key := KeyOf(t, Select(t, d).value);
        if k < |a| {
          assert Placed(t, root, a, visited, k);
          PlacedLeft(t, root, a, b, k, key);
        } else {
          assert Placed(t, root, b, seen, k - |a|);
          PlacedRight(t, root, a, b, k - |a|, key);
        }
      }
    }
  }

  lemma PlacedLeft(t: Table, root: nat, a: seq<nat>, b: seq<nat>, k: nat, key: Key)
    requires root < |t| && k < |a|
    requires forall i :: 0 <= i < |a + b| ==> (a + b)[i] < |t|
    requires forall i :: 0 <= i < |a| ==> a[i] < |t|
    ensures Earlier(t, a, k, key) ==> Earlier(t, a + b, k, key)
    ensures Back(t, root, a, k, key) ==> Back(t, root, a + b, k, key)
  {
    assert forall i :: 0 <= i < |a| ==> (a + b)[i] == a[i];
  }

  lemma PlacedRight(t: Table, root: nat, a: seq<nat>, b: seq<nat>, k: nat, key: Key)
    requires root < |t| && k < |b|
    requires forall i :: 0 <= i < |a + b| ==> (a + b)[i] < |t|
    requires forall i :: 0 <= i < |a| ==> a[i] < |t|
    requires forall i :: 0 <= i < |b| ==> b[i] < |t|
    ensures Earlier(t, b, k, key) || key in Keys(t, a) ==> Earlier(t, a + b, |a| + k, key)
    ensures Back(t, root, b, k, key) ==> Back(t, root, a + b, |a| + k, key)
  {
    var c := a + b;
    if key in Keys(t, a) {
      var q :| 0 <= q < |a| && KeyOf(t, a[q]) == key;
      assert KeyOf(t, c[q]) == key;
    }
    if Earlier(t, b, k, key) {
      var q :| 0 <= q < k && KeyOf(t, b[q]) == key;
      assert KeyOf(t, c[|a| + q]) == key;
    }
    if Back(t, root, b, k, key) {
      var q :| k <= q < |b| && KeyOf(t, b[q]) == key && Reaches(t, root, b[q], b[k]);
      assert KeyOf(t, c[|a| + q]) == key && c[|a| + k] == b[k];
    }
  }

  /** Appending the expanded element itself. */
  lemma PlacedAppend(t: Table, root: nat, found: seq<nat>, e: nat, visited: set<Key>)
    requires root < |t| && e < |t| && AllPlaced(t, root, found, visited + {KeyOf(t, e)})
    requires forall k :: 0 <= k < |found| ==> Reaches(t, root, e, found[k])
    requires Closed(t, e, visited + {KeyOf(t, e)} + Keys(t, found))
    ensures AllPlaced(t, root, found + [e], visited)
  {
    var c := found + [e];
    ReachesSelf(t, root, e);
    forall k | 0 <= k < |c| ensures Placed(t, root, c, visited, k) {
      forall d | d in Deps(t, c[k]) && Select(t, d).Success?
        ensures var key := KeyOf(t, Select(t, d).value);
                key in visited || Earlier(t, c, k, key) || Back(t, root, c, k, key)
      {
        var key := KeyOf(t, Select(t, d).value);
        if key == KeyOf(t, e) {
          assert KeyOf(t, c[|found|]) == key && Reaches(t, root, c[|found|], c[k]);
        } else if k < |found| {
          assert Placed(t, root, found, visited + {KeyOf(t, e)}, k);
          PlacedLeft(t, root, found, [e], k, key);
        } else if key !in visited {
          var q :| 0 <= q < |found| && KeyOf(t, found[q]) == key;
          assert KeyOf(t, c[q]) == key;
        }
      }
    }
  }

  lemma {:induction false} CollectPlaces(t: Table, root: nat, e: nat, visited: set<Key>)
    requires root < |t| && Under(t, root, e, visited) && Collect(t, e, visited).Success?
    ensures AllPlaced(t, root, Collect(t, e, visited).value.0, visited)
    decreases Unvisited(t, visited), 0
  {
    if KeyOf(t, e) !in visited {
      var inner := visited + {KeyOf(t, e)};
      VisitShrinks(t, e, visited);
      assert Deps(t, e)[0..] == Deps(t, e);
      CollectDepsPlaces(t, root, e, 0, inner);
      CollectDepsReaches(t, root, e, 0, inner);
      CollectDepsOnce(t, Deps(t, e), inner);
      CollectDepsCloses(t, Deps(t, e), inner);
      PlacedAppend(t, root, CollectDeps(t, Deps(t, e), inner).value.0, e, visited);
    }
  }

  lemma {:induction false} CollectDepsPlaces(t: Table, root: nat, e: nat, i: nat, visited: set<Key>)
    requires root < |t| && e < |t| && i <= |Deps(t, e)|
    requires KeyOf(t, root) in visited && CollectDeps(t, Deps(t, e)[i..], visited).Success?
    ensures AllPlaced(t, root, CollectDeps(t, Deps(t, e)[i..], visited).value.0, visited)
    decreases Unvisited(t, visited), 1 + |Deps(t, e)| - i
  {
    if i < |Deps(t, e)| {
      var deps := Deps(t, e)[i..];
      assert deps[0] == Deps(t, e)[i] && deps[1..] == Deps(t, e)[i + 1..];
      var s := Select(t, deps[0]).value;
      CollectPlaces(t, root, s, visited);
      CollectOnce(t, s, visited);
      var (first, seen) := Collect(t, s, visited).value;
      MoreVisited(t, visited, seen);
      CollectDepsPlaces(t, root, e, i + 1, seen);
      PlacedConcat(t, root, first, CollectDeps(t, deps[1..], seen).value.0, visited, seen);
    }
  }

  /** No element leads back to itself. */
  ghost predicate Acyclic(t: Table, root: nat)
    requires root < |t|
  {
    forall x, y :: Reaches(t, root, root, x) && Edge(t, root, x, y) ==> !Reaches(t, root, y, x)
  }

  /** Without a cycle every dependency comes before the element that requires it. */
  lemma DependenciesComeFirst(t: Table, root: nat, k: nat, y: nat)
    requires root < |t| && Collect(t, root, {}).Success? && Acyclic(t, root)
    requires k < |Collect(t, root, {}).value.0| && Edge(t, root, Collect(t, root, {}).value.0[k], y)
    ensures y in Collect(t, root, {}).value.0[..k]
  {
    var found := Collect(t, root, {}).value.0;
    CollectReaches(t, root, root, {});
    CollectPlaces(t, root, root, {});
    assert Placed(t, root, found, {}, k);
    var d :| d in Deps(t, found[k]) && Select(t, d).Success? && Rep(t, root, Select(t, d).value) == y;
    var key := KeyOf(t, Select(t, d).value);
    if Earlier(t, found, k, key) {
      var q :| 0 <= q < k && KeyOf(t, found[q]) == key;
      SelectedIsFound(t, root, found, q, d);
      assert found[..k][q] == y;
    } else {
      var q :| k <= q < |found| && KeyOf(t, found[q]) == key && Reaches(t, root, found[q], found[k]);
      SelectedIsFound(t, root, found, q, d);
      assert false;
    }
  }

  // ------------------------------------------------------------------
  // When the search fails
  // ------------------------------------------------------------------

  lemma {:induction false} CollectFails(t: Table, root: nat, e: nat, visited: set<Key>) returns (x: nat, d: Dep)
    requires root < |t| && Under(t, root, e, visited) && Collect(t, e, visited).Failure?
    ensures x < |t| && Reaches(t, root, e, x) && d in Deps(t, x)
    ensures Select(t, d).Failure? && Select(t, d).error == Collect(t, e, visited).error
    decreases Unvisited(t, visited), 0
  {
    VisitShrinks(t, e, visited);
    assert Deps(t, e)[0..] == Deps(t, e);
    x, d := CollectDepsFails(t, root, e, 0, visited + {KeyOf(t, e)});
  }

  lemma {:induction false} CollectDepsFails(t: Table, root: nat, e: nat, i: nat, visited: set<Key>)
    returns (x: nat, d: Dep)
    requires root < |t| && e < |t| && i <= |Deps(t, e)|
    requires KeyOf(t, root) in visited && CollectDeps(t, Deps(t, e)[i..], visited).Failure?
    ensures x < |t| && Reaches(t, root, e, x) && d in Deps(t, x)
    ensures Select(t, d).Failure? && Select(t, d).error == CollectDeps(t, Deps(t, e)[i..], visited).error
    decreases Unvisited(t, visited), 1 + |Deps(t, e)| - i
  {
    var deps := Deps(t, e)[i..];
    assert deps[0] == Deps(t, e)[i] && deps[1..] == Deps(t, e)[i + 1..];
    if Select(t, deps[0]).Failure? {
      ReachesSelf(t, root, e);
      x, d := e, deps[0];
    } else {
      var s := Select(t, deps[0]).value;
      if Collect(t, s, visited).Failure? {
        x, d := CollectFails(t, root, s, visited);
        assert deps[0] in Deps(t, e) && Rep(t, root, s) == s;
        ReachesStep(t, root, e, s, x);
      } else {
        var seen := Collect(t, s, visited).value.1;
        MoreVisited(t, visited, seen);
        x, d := CollectDepsFails(t, root, e, i + 1, seen);
      }
    }
  }

  /** The search fails exactly when some reachable element has a requirement for which
      nothing can be selected, and then with the error of such a requirement. */
  lemma FailsIffObstructed(t: Table, root: nat)
    requires root < |t|
    ensures Collect(t, root, {}).Failure? <==>
            exists x: nat, d :: Reaches(t, root, root, x) && x < |t| && d in Deps(t, x) && Select(t, d).Failure?
    ensures Collect(t, root, {}).Failure? ==>
            exists x: nat, d :: Reaches(t, root, root, x) && x < |t| && d in Deps(t, x) &&
                           Select(t, d) == Failure(Collect(t, root, {}).error)
  {
    if Collect(t, root, {}).Failure? {
      var x, d := CollectFails(t, root, root, {});
    } else {
      var found := Collect(t, root, {}).value.0;
      CollectIsClosure(t, root);
      CollectCloses(t, root, {});
      forall x: nat, d | Reaches(t, root, root, x) && x < |t| && d in Deps(t, x) ensures Select(t, d).Success? {
        var k :| 0 <= k < |found| && found[k] == x;
        assert Closed(t, found[k], Collect(t, root, {}).value.1);
      }
    }
  }
}
