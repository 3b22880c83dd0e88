/** Schemas that refer to each other: copying one with everything it needs, and following
    aliases (exordos_core/elements/dm/utils.py). */
module SchemaClosure {
  import opened Wrappers

  datatype Field = Field(key: string, value: Json)

  datatype Json =
    | Str(text: string)
    | Obj(fields: seq<Field>)
    | Arr(items: seq<Json>)
    | Other

  type Schemas = map<string, Json>

  const SCHEMA_REF_PREFIX := "#/components/schemas/"

  // ------------------------------------------------------------------
  // References
  // ------------------------------------------------------------------

  function Get(fields: seq<Field>, key: string): Option<Json>
  {
    if fields == [] then None
    else if fields[0].key == key then Some(fields[0].value)
    else Get(fields[1..], key)
  }

  /** The name that a node refers to, if it is a reference itself. */
  function RefOf(node: Json): Option<string>
  {
    if !node.Obj? then None
    else
      var ref := Get(node.fields, "$ref");
      if ref.Some? && ref.value.Str? && SCHEMA_REF_PREFIX <= ref.value.text
      then Some(ref.value.text[|SCHEMA_REF_PREFIX|..]) else None
  }

  function Width(node: Json): nat
  {
    match node
    case Obj(fields) => |fields|
    case Arr(items) => |items|
    case _ => 0
  }

  /** The names that a node refers to, at any depth. */
  function Refs(node: Json): seq<string>
    decreases node, Width(node) + 1
  {
    match node
    case Obj(fields) => (if RefOf(node).Some? then [RefOf(node).value] else []) + RefsOfFields(node, fields)
    case Arr(items) => RefsOfItems(node, items)
    case _ => []
  }

  function RefsOfFields(node: Json, fields: seq<Field>): seq<string>
    requires node.Obj? && forall f :: f in fields ==> f in node.fields
    decreases node, |fields|
  {
    if fields == [] then []
    else
      assert fields[0] in node.fields;
      assert forall f :: f in fields[1..] ==> f in fields;
      Refs(fields[0].value) + RefsOfFields(node, fields[1..])
  }

  function RefsOfItems(node: Json, items: seq<Json>): seq<string>
    requires node.Arr? && forall x :: x in items ==> x in node.items
    decreases node, |items|
  {
    if items == [] then []
    else
      assert items[0] in node.items;
      assert forall x :: x in items[1..] ==> x in items;
      Refs(items[0]) + RefsOfItems(node, items[1..])
  }

  /** `part` is the node, or stands somewhere in it. */
  ghost predicate Within(part: Json, node: Json)
    decreases node
  {
    || part == node
    || (node.Obj? && exists f :: f in node.fields && Within(part, f.value))
    || (node.Arr? && exists x :: x in node.items && Within(part, x))
  }

  /** A name is referred to exactly by a reference that stands somewhere in the node. */
  lemma {:induction false} RefsIff(node: Json, name: string)
    ensures name in Refs(node) <==> exists part :: Within(part, node) && RefOf(part) == Some(name)
    decreases node, Width(node) + 1
  {
    match node
    case Obj(fields) =>
      RefsOfFieldsIff(node, fields, name);
      if part :| Within(part, node) && RefOf(part) == Some(name) {
        if part != node {
          var f :| f in fields && Within(part, f.value);
          RefsIff(f.value, name);
        }
      }
    case Arr(items) =>
      RefsOfItemsIff(node, items, name);
      if part :| Within(part, node) && RefOf(part) == Some(name) {
        var x :| x in items && Within(part, x);
        RefsIff(x, name);
      }
    case _ =>
  }

  lemma {:induction false} RefsOfFieldsIff(node: Json, fields: seq<Field>, name: string)
    requires node.Obj? && forall f :: f in fields ==> f in node.fields
    ensures name in RefsOfFields(node, fields) <==> exists f :: f in fields && name in Refs(f.value)
    ensures name in RefsOfFields(node, fields) ==> exists part :: Within(part, node) && RefOf(part) == Some(name)
    decreases node, |fields|
  {
    if fields != [] {
      assert fields == [fields[0]] + fields[1..] && fields[0] in node.fields;
      RefsOfFieldsIff(node, fields[1..], name);
      if name in Refs(fields[0].value) {
        RefsIff(fields[0].value, name);
        var part :| Within(part, fields[0].value) && RefOf(part) == Some(name);
        assert Within(part, node);
      }
    }
  }

  lemma {:induction false} RefsOfItemsIff(node: Json, items: seq<Json>, name: string)
    requires node.Arr? && forall x :: x in items ==> x in node.items
    ensures name in RefsOfItems(node, items) <==> exists x :: x in items && name in Refs(x)
    ensures name in RefsOfItems(node, items) ==> exists part :: Within(part, node) && RefOf(part) == Some(name)
    decreases node, |items|
  {
    if items != [] {
      assert items == [items[0]] + items[1..] && items[0] in node.items;
      RefsOfItemsIff(node, items[1..], name);
      if name in Refs(items[0]) {
        RefsIff(items[0], name);
        var part :| Within(part, items[0]) && RefOf(part) == Some(name);
        assert Within(part, node);
      }
    }
  }

  // ------------------------------------------------------------------
  // What is needed
  // ------------------------------------------------------------------

  /** A chain of references through names that the source defines and that are not held. */
  ghost predicate Path(source: Schemas, held: set<string>, path: seq<string>)
  {
    && path != []
    && (forall i :: 0 <= i < |path| ==> path[i] in source && path[i] !in held)
    && (forall i :: 0 < i < |path| ==> path[i] in Refs(source[path[i - 1]]))
  }

  ghost predicate Needs(source: Schemas, held: set<string>, name: string, n: string)
  {
    exists path :: Path(source, held, path) && path[0] == name && path[|path| - 1] == n
  }

  /** Nothing that one of these names refers to and the source defines is missing. */
  ghost predicate Closed(source: Schemas, names: set<string>, out: set<string>)
  {
    forall n, r :: n in names && n in source && r in Refs(source[n]) && r in source ==> r in out
  }

  lemma NeedsNext(source: Schemas, held: set<string>, name: string, n: string, r: string)
    requires Needs(source, held, name, n) && r in Refs(source[n]) && r in source && r !in held
    ensures Needs(source, held, name, r)
  {
    var path :| Path(source, held, path) && path[0] == name && path[|path| - 1] == n;
    var longer := path + [r];
    assert Path(source, held, longer);
  }

  /** A path from a copied name stays among the copied ones. */
  lemma {:induction false} PathStays(source: Schemas, held: set<string>, out: set<string>, path: seq<string>, i: nat)
    requires Path(source, held, path) && path[0] in out && Closed(source, out - held, out) && i < |path|
    ensures path[i] in out
  {
    if i > 0 {
      PathStays(source, held, out, path, i - 1);
      assert path[i - 1] in out - held;
    }
  }

  /** `out` is `target` with exactly what `name` needs. */
  ghost predicate IsClosure(source: Schemas, target: Schemas, name: string, out: Schemas)
  {
    && (forall n :: n in out <==> n in target || Needs(source, target.Keys, name, n))
    && (forall n :: n in out ==> if n in target then out[n] == target[n] else n in source && out[n] == source[n])
  }

  /** What was copied so far is needed, and is as in the source. */
  ghost predicate Copied(source: Schemas, target: Schemas, name: string, out: Schemas)
  {
    && target.Keys <= out.Keys
    && (forall n :: n in out && n in target ==> out[n] == target[n])
    && (forall n :: n in out && n !in target ==>
          n in source && out[n] == source[n] && Needs(source, target.Keys, name, n))
  }

  /** What is still to be copied is needed, and with it nothing will be missing. */
  ghost predicate Due(source: Schemas, held: set<string>, name: string, out: Schemas, pending: seq<string>)
  {
    && (forall n :: n in pending && n in source && n !in held ==> Needs(source, held, name, n))
    && (forall n, r :: n in out && n !in held && n in source && r in Refs(source[n]) && r in source ==>
         r in out || r in pending)
    && (name in source ==> name in out || name in pending)
  }

  lemma SkipOne(source: Schemas, held: set<string>, name: string, out: Schemas, rest: seq<string>, current: string)
    requires Due(source, held, name, out, rest + [current]) && (current in out || current !in source)
    ensures Due(source, held, name, out, rest)
  {
    assert forall n :: n in rest + [current] <==> n in rest || n == current;
  }

  lemma CopyOne(source: Schemas, target: Schemas, name: string, out: Schemas, rest: seq<string>, current: string)
    requires Copied(source, target, name, out) && Due(source, target.Keys, name, out, rest + [current])
    requires current in source && current !in out
    ensures Copied(source, target, name, out[current := source[current]])
    ensures Due(source, target.Keys, name, out[current := source[current]], rest + Refs(source[current]))
  {
    var held := target.Keys;
    assert forall n :: n in rest + [current] <==> n in rest || n == current;
    assert current in rest + [current] && Needs(source, held, name, current);
    forall r | r in Refs(source[current]) && r in source && r !in held ensures Needs(source, held, name, r) {
      NeedsNext(source, held, name, current, r);
    }
  }

  lemma CopyEnds(source: Schemas, target: Schemas, name: string, out: Schemas)
    requires Copied(source, target, name, out) && Due(source, target.Keys, name, out, [])
    ensures IsClosure(source, target, name, out)
    ensures Closed(source, out.Keys - target.Keys, out.Keys)
  {
    var held := target.Keys;
    forall n | Needs(source, held, name, n) ensures n in out {
      var path :| Path(source, held, path) && path[0] == name && path[|path| - 1] == n;
      PathStays(source, held, out.Keys, path, |path| - 1);
    }
  }

  /** Copies a schema and, by a stack, everything it refers to. */
  method CopySchemaClosure(source: Schemas, target: Schemas, name: string) returns (out: Schemas)
    ensures IsClosure(source, target, name, out)
    ensures Closed(source, out.Keys - target.Keys, out.Keys)
    ensures name in source ==> name in out
  {
    out := target;
    var pending := [name];
    while pending != []
      invariant Copied(source, target, name, out) && Due(source, target.Keys, name, out, pending)
      decreases source.Keys - out.Keys, |pending|
    {
      var current, rest := pending[|pending| - 1], pending[..|pending| - 1];
      assert pending == rest + [current];
      pending := rest;
      if current in out || current !in source {
        SkipOne(source, target.Keys, name, out, rest, current);
        continue;
      }
      CopyOne(source, target, name, out, rest, current);
      assert current in source.Keys - out.Keys;
      out := out[current := source[current]];
      pending := pending + Refs(source[current]);
    }
    CopyEnds(source, target, name, out);
  }

  // ------------------------------------------------------------------
  // All models of an interface
  // ------------------------------------------------------------------

  /** A model that can be copied: one that is there and not empty. */
  predicate Usable(source: Schemas, m: string)
  {
    m in source && source[m] != Obj([])
  }

  ghost predicate NeededByAny(source: Schemas, held: set<string>, models: seq<string>, n: string)
  {
    exists i :: 0 <= i < |models| && Usable(source, models[i]) && Needs(source, held, models[i], n)
  }

  /** What the schemas are after the models were copied into `base`: the base's names and
      what any model needs; the models themselves as the source has them. */
  ghost predicate IsBuilt(source: Schemas, base: Schemas, models: seq<string>, out: Schemas)
  {
    BuiltNames(source, base, models, out) && BuiltValues(source, base, models, out)
  }

  ghost predicate BuiltNames(source: Schemas, base: Schemas, models: seq<string>, out: Schemas)
  {
    forall n :: n in out <==> n in base || NeededByAny(source, base.Keys, models, n)
  }

  ghost predicate BuiltValues(source: Schemas, base: Schemas, models: seq<string>, out: Schemas)
  {
    forall n :: n in out ==>
      if n in base && !(n in models && Usable(source, n)) then out[n] == base[n]
      else n in source && out[n] == source[n]
  }

  lemma NeededSnoc(source: Schemas, held: set<string>, models: seq<string>, m: string, n: string)
    ensures NeededByAny(source, held, models + [m], n) <==>
            NeededByAny(source, held, models, n) || (Usable(source, m) && Needs(source, held, m, n))
  {
    var all := models + [m];
    if NeededByAny(source, held, models, n) {
      var i :| 0 <= i < |models| && Usable(source, models[i]) && Needs(source, held, models[i], n);
      assert all[i] == models[i];
    }
    if Usable(source, m) && Needs(source, held, m, n) { assert all[|models|] == m; }
  }

  /** With more held, less is needed, and what is left out is there already. */
  lemma NeedsLess(source: Schemas, base: set<string>, held: set<string>, name: string, n: string, out: set<string>)
    requires base <= held <= out
    requires Closed(source, out - base, out) && (name in source ==> name in out)
    requires forall x :: x in out ==> x in held || Needs(source, held, name, x)
    ensures Needs(source, held, name, n) ==> Needs(source, base, name, n)
    ensures Needs(source, base, name, n) ==> n in out
  {
    if Needs(source, held, name, n) {
      var path :| Path(source, held, path) && path[0] == name && path[|path| - 1] == n;
      assert Path(source, base, path);
    }
    if Needs(source, base, name, n) {
      var path :| Path(source, base, path) && path[0] == name && path[|path| - 1] == n;
      PathStays(source, base, out, path, |path| - 1);
    }
  }

  lemma BuiltSkips(source: Schemas, base: Schemas, models: seq<string>, m: string, out: Schemas)
    requires IsBuilt(source, base, models, out) && !Usable(source, m)
    ensures IsBuilt(source, base, models + [m], out)
  {
    forall n ensures NeededByAny(source, base.Keys, models + [m], n) <==> NeededByAny(source, base.Keys, models, n) {
      NeededSnoc(source, base.Keys, models, m, n);
    }
    assert forall n :: n in models + [m] <==> n in models || n == m;
  }

  lemma NamesNext(source: Schemas, base: Schemas, models: seq<string>, m: string, out: Schemas, next: Schemas)
    requires BuiltNames(source, base, models, out) && IsClosure(source, out, m, next)
    requires Usable(source, m) && Closed(source, next.Keys - base.Keys, next.Keys) && m in next
    ensures BuiltNames(source, base, models + [m], next)
  {
    forall n ensures n in next <==> n in base || NeededByAny(source, base.Keys, models + [m], n) {
      NeedsLess(source, base.Keys, out.Keys, m, n, next.Keys);
      NeededSnoc(source, base.Keys, models, m, n);
    }
  }

  lemma BuiltNext(source: Schemas, base: Schemas, models: seq<string>, m: string, out: Schemas, next: Schemas)
    requires IsBuilt(source, base, models, out) && Closed(source, out.Keys - base.Keys, out.Keys)
    requires Usable(source, m) && IsClosure(source, out, m, next) &&
             Closed(source, next.Keys - out.Keys, next.Keys) && m in next
    ensures IsBuilt(source, base, models + [m], next[m := source[m]])
    ensures Closed(source, next.Keys - base.Keys, next.Keys) && next[m := source[m]].Keys == next.Keys
  {
    assert base.Keys <= out.Keys <= next.Keys;
    NamesNext(source, base, models, m, out, next);
  }

  /** Copies every model of an interface in turn. */
  method BuildFullSchema(source: Schemas, base: Schemas, models: seq<string>) returns (out: Schemas)
    ensures IsBuilt(source, base, models, out)
  {
    out := base;
    for i := 0 to |models|
      invariant IsBuilt(source, base, models[..i], out)
      invariant Closed(source, out.Keys - base.Keys, out.Keys)
    {
      assert models[..i + 1] == models[..i] + [models[i]];
      if models[i] !in source || source[models[i]] == Obj([]) {
        BuiltSkips(source, base, models[..i], models[i], out);
        continue;
      }
      var next := CopySchemaClosure(source, out, models[i]);
      BuiltNext(source, base, models[..i], models[i], out, next);
      out := next[models[i] := source[models[i]]];
    }
    assert models[..|models|] == models;
  }

  /** The names whose schema the build has put in place. */
  ghost predicate Placed(source: Schemas, base: Schemas, models: seq<string>, n: string)
  {
    NeededByAny(source, base.Keys, models, n) || (n in models && Usable(source, n))
  }

  /** No schema that was put in place refers to something that the source defines and the
      result lacks. */
  ghost predicate NothingDangles(source: Schemas, base: Schemas, models: seq<string>, out: Schemas)
  {
    forall n, r :: Placed(source, base, models, n) && n in source && r in Refs(source[n]) && r in source ==> r in out
  }

  /** What a model that the base defines too refers to is in the base, or another model
      brings it. */
  ghost predicate OverwritesCovered(source: Schemas, base: Schemas, models: seq<string>)
  {
    forall m, r :: m in models && Usable(source, m) && m in base && r in Refs(source[m]) && r in source ==>
      r in base || NeededByAny(source, base.Keys, models, r)
  }

  /** A model that the base defines already is not copied with what it needs, and yet it
      is put in the base's place: the result is complete exactly if all such models find
      what they refer to. */
  lemma CompleteIff(source: Schemas, base: Schemas, models: seq<string>, out: Schemas)
    requires IsBuilt(source, base, models, out)
    ensures NothingDangles(source, base, models, out) <==> OverwritesCovered(source, base, models)
  {
    if OverwritesCovered(source, base, models) {
      forall n, r | Placed(source, base, models, n) && n in source && r in Refs(source[n]) && r in source
        ensures r in out
      {
        if n !in base && r !in base {
          if n in models && Usable(source, n) {
            var i :| 0 <= i < |models| && models[i] == n;
            assert Path(source, base.Keys, [n]);
            assert Usable(source, models[i]) && Needs(source, base.Keys, models[i], n);
          }
          var i :| 0 <= i < |models| && Usable(source, models[i]) && Needs(source, base.Keys, models[i], n);
          NeedsNext(source, base.Keys, models[i], n, r);
          assert NeededByAny(source, base.Keys, models, r);
        } else if n in base {
          assert !NeededByAny(source, base.Keys, models, n);
        }
      }
    }
    if NothingDangles(source, base, models, out) {
      forall m, r | m in models && Usable(source, m) && m in base && r in Refs(source[m]) && r in source
        ensures r in base || NeededByAny(source, base.Keys, models, r)
      {
        assert Placed(source, base, models, m);
      }
    }
  }

  /** A base that defines none of the models is always completed. */
  lemma FreshBaseIsComplete(source: Schemas, base: Schemas, models: seq<string>, out: Schemas)
    requires IsBuilt(source, base, models, out) && forall m :: m in models ==> m !in base
    ensures NothingDangles(source, base, models, out)
  {
    CompleteIff(source, base, models, out);
  }

  /** The base has a model of its own by the name, and the interface's model needs more. */
  lemma OverwritingDangles(source: Schemas, base: Schemas, models: seq<string>, out: Schemas, m: string, r: string)
    requires source == map[m := Obj([Field("$ref", Str(SCHEMA_REF_PREFIX + r))]), r := Obj([])] && m != r
    requires base == map[m := Obj([])] && models == [m] && IsBuilt(source, base, models, out)
    ensures r !in out && out[m] == source[m] && r in Refs(out[m])
  {
    var node := source[m];
    assert node.fields[0].value.text[|SCHEMA_REF_PREFIX|..] == r;
    assert RefOf(node) == Some(r);
    assert node != Obj([]) by { assert |node.fields| == 1; }
    assert m in models && Usable(source, m);
    assert forall path :: Path(source, base.Keys, path) ==> path[0] != m;
  }

  // ------------------------------------------------------------------
  // Aliases
  // ------------------------------------------------------------------

  /** The name that a schema is an alias for. */
  function AliasOf(schemas: Schemas, name: string): Option<string>
  {
    if name in schemas then RefOf(schemas[name]) else None
  }

  /** The name reached by following `k` aliases, if there are that many. */
  function Hop(schemas: Schemas, name: string, k: nat): Option<string>
  {
    if k == 0 then Some(name)
    else
      var before := Hop(schemas, name, k - 1);
      if before.Some? then AliasOf(schemas, before.value) else None
  }

  ghost predicate EndsAt(schemas: Schemas, name: string, s: Json)
  {
    exists k: nat :: Hop(schemas, name, k).Some? && Hop(schemas, name, k).value in schemas &&
                     schemas[Hop(schemas, name, k).value] == s && RefOf(s).None?
  }

  ghost predicate EndsNowhere(schemas: Schemas, name: string)
  {
    exists k: nat :: Hop(schemas, name, k).Some? && Hop(schemas, name, k).value !in schemas
  }

  /** There is always another alias. */
  ghost predicate GoesOn(schemas: Schemas, name: string)
  {
    forall k: nat :: Hop(schemas, name, k).Some?
  }

  lemma {:induction false} HopsAdd(schemas: Schemas, name: string, i: nat, j: nat)
    requires Hop(schemas, name, i).Some?
    ensures Hop(schemas, name, i + j) == Hop(schemas, Hop(schemas, name, i).value, j)
  {
    if j > 0 { HopsAdd(schemas, name, i, j - 1); }
  }

  lemma {:induction false} HopsBefore(schemas: Schemas, name: string, i: nat, j: nat)
    requires i <= j && Hop(schemas, name, j).Some?
    ensures Hop(schemas, name, i).Some?
    decreases j
  {
    if i < j { HopsBefore(schemas, name, i, j - 1); }
  }

  /** A name met again is met for ever. */
  lemma {:induction false} CycleGoesOn(schemas: Schemas, name: string, i: nat, j: nat, k: nat)
    requires i < j && Hop(schemas, name, j).Some? && Hop(schemas, name, i) == Hop(schemas, name, j)
    ensures Hop(schemas, name, k).Some?
    decreases k
  {
    if k <= j {
      HopsBefore(schemas, name, k, j);
    } else {
      CycleGoesOn(schemas, name, i, j, k - (j - i));
      HopsAdd(schemas, name, i, k - j);
      HopsAdd(schemas, name, j, k - j);
    }
  }

  /** The three outcomes exclude each other. */
  lemma EndsOnce(schemas: Schemas, name: string, s: Json, t: Json)
    requires EndsAt(schemas, name, s)
    ensures !EndsNowhere(schemas, name) && !GoesOn(schemas, name) && (EndsAt(schemas, name, t) ==> s == t)
  {
    var k: nat :| Hop(schemas, name, k).Some? && Hop(schemas, name, k).value in schemas &&
                  schemas[Hop(schemas, name, k).value] == s && RefOf(s).None?;
    assert Hop(schemas, name, k + 1).None?;
    forall i: nat | Hop(schemas, name, i).Some?
      ensures i <= k && (i < k ==> AliasOf(schemas, Hop(schemas, name, i).value).Some?)
    {
      if i > k { HopsBefore(schemas, name, k + 1, i); }
      if i < k { HopsBefore(schemas, name, i + 1, k); }
    }
  }

  /** A schema exactly where the chain of aliases ends, nothing exactly where a name is
      missing or the chain has no end. */
  ghost predicate IsResolution(schemas: Schemas, name: string, r: Option<Json>)
  {
    && (r.Some? <==> exists s :: EndsAt(schemas, name, s))
    && (r.Some? ==> EndsAt(schemas, name, r.value))
    && (r.None? <==> EndsNowhere(schemas, name) || GoesOn(schemas, name))
  }

  /** Names met before the last hop. */
  ghost predicate Met(schemas: Schemas, name: string, k: nat, n: string)
  {
    exists i: nat :: i < k && Hop(schemas, name, i) == Some(n)
  }

  lemma NothingFound(schemas: Schemas, name: string)
    requires EndsNowhere(schemas, name) || GoesOn(schemas, name)
    ensures IsResolution(schemas, name, None)
  {
    forall s ensures !EndsAt(schemas, name, s) { if EndsAt(schemas, name, s) { EndsOnce(schemas, name, s, s); } }
  }

  lemma MeetsAgain(schemas: Schemas, name: string, k: nat, n: string)
    requires Hop(schemas, name, k) == Some(n) && Met(schemas, name, k, n)
    ensures GoesOn(schemas, name)
  {
    var i: nat :| i < k && Hop(schemas, name, i) == Some(n);
    forall j: nat ensures Hop(schemas, name, j).Some? { CycleGoesOn(schemas, name, i, k, j); }
  }

  /** Follows aliases; a missing name and a cycle give nothing. */
  method ResolveSchema(schemas: Schemas, name: string) returns (r: Option<Json>)
    ensures IsResolution(schemas, name, r)
  {
    var seen: set<string> := {};
    var current := name;
    ghost var k: nat := 0;
    while current !in seen
      invariant Hop(schemas, name, k) == Some(current) && seen <= schemas.Keys
      invariant forall n :: n in seen <==> Met(schemas, name, k, n)
      decreases schemas.Keys - seen
    {
      if current !in schemas {
        NothingFound(schemas, name);
        return None;
      }
      var schema := schemas[current];
      var ref := RefOf(schema);
      if ref.None? {
        assert EndsAt(schemas, name, schema);
        EndsOnce(schemas, name, schema, schema);
        return Some(schema);
      }
      assert current in schemas.Keys - seen;
      seen := seen + {current};
      current := ref.value;
      k := k + 1;
    }
    MeetsAgain(schemas, name, k, current);
    NothingFound(schemas, name);
    r := None;
  }
}
