/** Placing volumes into a machine pool, as a function on values: which idle volume is
    reused, which storage pool is charged, and what that conserves
    (exordos_core/compute/scheduler/service.py). `Scheduler` refines it on objects. */
module Placement {
  import opened Wrappers

  /** A storage pool: `usable - provisioned` is what is still available. */
  datatype Store = Store(name: string, tier: int, ephemeral: bool, usable: int, provisioned: int) {
    function Available(): int { usable - provisioned }
    function Allocate(size: int): Store { this.(provisioned := provisioned + size) }
  }

  /** An idle machine volume. */
  datatype Disk = Disk(uuid: int, image: Option<string>, size: int, store: Option<string>)

  /** The storage pools of one machine pool and its idle volumes, in list order. */
  datatype Site = Site(stores: seq<Store>, idle: seq<Disk>)

  /** A volume requested by a node. */
  datatype Volume = Volume(uuid: int, size: int, image: Option<string>, tier: int, ephemeral: bool)

  /** Where a requested volume went: the storage pool, and the idle volume reused if any. */
  datatype Placed = Placed(volume: Volume, store: nat, reused: Option<int>)

  /** `select_storage_pool` of the SDK: an index into the given pools, or nothing. */
  type Selector = (seq<Store>, Volume) -> Option<nat>

  /** A selected pool has room for the volume and matches its ephemeral policy. */
  ghost predicate SelectorOk(select: Selector)
  {
    forall stores: seq<Store>, v: Volume :: select(stores, v).Some? ==>
      var i := select(stores, v).value;
      i < |stores| && stores[i].Available() >= v.size && stores[i].ephemeral == v.ephemeral
  }

  // ------------------------------------------------------------------
  // Finding storage pools
  // ------------------------------------------------------------------

  predicate UniquelyNamed(stores: seq<Store>, i: nat)
  {
    i < |stores| && forall j :: 0 <= j < |stores| && j != i ==> stores[j].name != stores[i].name
  }

  /** The one storage pool of that name; none if it is missing or ambiguous. */
  ghost function FindByName(stores: seq<Store>, name: string): (r: Option<nat>)
    ensures r.Some? ==> UniquelyNamed(stores, r.value) && stores[r.value].name == name
    ensures r.None? ==> forall i: nat :: UniquelyNamed(stores, i) ==> stores[i].name != name
  {
    if exists i: nat :: UniquelyNamed(stores, i) && stores[i].name == name then
      var i: nat :| UniquelyNamed(stores, i) && stores[i].name == name;
      Some(i)
    else None
  }

  /** The indices of the uniquely named pools, in order. */
  function Unambiguous(stores: seq<Store>, n: nat): (r: seq<nat>)
    requires n <= |stores|
    ensures forall k :: 0 <= k < |r| ==> r[k] < n && UniquelyNamed(stores, r[k])
    ensures forall i :: 0 <= i < n && UniquelyNamed(stores, i) ==> i in r
    ensures forall a, b :: 0 <= a < b < |r| ==> r[a] < r[b]
  {
    if n == 0 then []
    else Unambiguous(stores, n - 1) + if UniquelyNamed(stores, n - 1) then [n - 1] else []
  }

  function SelectStore(select: Selector, stores: seq<Store>, v: Volume): (r: Option<nat>)
    ensures r.Some? ==> UniquelyNamed(stores, r.value)
  {
    var ids := Unambiguous(stores, |stores|);
    match select(seq(|ids|, k requires 0 <= k < |ids| => stores[ids[k]]), v)
    case Some(k) => if k < |ids| then Some(ids[k]) else None
    case None => None
  }

  /** Two rising lists of the same positions are one. */
  lemma {:induction false} RisingIsUnique(a: seq<nat>, b: seq<nat>)
    requires forall i, j :: 0 <= i < j < |a| ==> a[i] < a[j]
    requires forall i, j :: 0 <= i < j < |b| ==> b[i] < b[j]
    requires forall k: nat :: k in a <==> k in b
    ensures a == b
  {
    if a != [] { assert a[0] in b; }
    if b != [] { assert b[0] in a; }
    if a != [] && b != [] {
      var x, y := a[|a| - 1], b[|b| - 1];
      assert x in b && y in a;
      assert x == y;
      var front, rest := a[..|a| - 1], b[..|b| - 1];
      forall k: nat ensures k in front <==> k in rest {
        assert k in front <==> k in a && k != x;
        assert k in rest <==> k in b && k != y;
      }
      RisingIsUnique(front, rest);
    }
  }

  /** The selection sees the storage pools whose name occurs once, all of them and in order;
      what it picks there is picked. */
  lemma SelectStoreMeans(select: Selector, stores: seq<Store>, v: Volume, at: seq<nat>)
    requires forall i, j :: 0 <= i < j < |at| ==> at[i] < at[j]
    requires forall i: nat :: i in at <==> UniquelyNamed(stores, i)
    requires forall k :: 0 <= k < |at| ==> at[k] < |stores|
    ensures var shown := seq(|at|, k requires 0 <= k < |at| => stores[at[k]]);
            SelectStore(select, stores, v) ==
            if select(shown, v).Some? && select(shown, v).value < |at| then Some(at[select(shown, v).value]) else None
  {
    var ids := Unambiguous(stores, |stores|);
    RisingIsUnique(at, ids);
    assert seq(|at|, k requires 0 <= k < |at| => stores[at[k]]) ==
           seq(|ids|, k requires 0 <= k < |ids| => stores[ids[k]]);
  }

  // ------------------------------------------------------------------
  // Which idle volume is reused
  // ------------------------------------------------------------------

  /** The storage pool a volume actually lives on, if that is known. */
  ghost function HomeOf(stores: seq<Store>, d: Disk): Option<nat>
  {
    if d.store.None? || d.store.value == "" then None else FindByName(stores, d.store.value)
  }

  ghost predicate Candidate(s: Site, v: Volume, i: nat)
  {
    && i < |s.idle| && v.image.Some?
    && s.idle[i].image == v.image && s.idle[i].size <= v.size
    && HomeOf(s.stores, s.idle[i]).Some?
    && s.stores[HomeOf(s.stores, s.idle[i]).value].ephemeral == v.ephemeral
  }

  function Need(s: Site, v: Volume, i: nat): int
    requires i < |s.idle|
  {
    v.size - s.idle[i].size
  }

  /** The candidate is on the requested tier. */
  ghost predicate OnTier(s: Site, v: Volume, i: nat)
    requires Candidate(s, v, i)
  {
    s.stores[HomeOf(s.stores, s.idle[i]).value].tier == v.tier
  }

  /** The resize fits into the pool the candidate lives on. */
  ghost predicate Feasible(s: Site, v: Volume, i: nat)
  {
    Candidate(s, v, i) &&
    (Need(s, v, i) == 0 || s.stores[HomeOf(s.stores, s.idle[i]).value].Available() >= Need(s, v, i))
  }

  /** Smaller resize first; list order decides between equals. */
  predicate Closer(s: Site, v: Volume, i: nat, j: nat)
    requires i < |s.idle| && j < |s.idle|
  {
    Need(s, v, i) < Need(s, v, j) || (Need(s, v, i) == Need(s, v, j) && i < j)
  }

  /** Every candidate on the tier goes before every other one. */
  ghost predicate Preferred(s: Site, v: Volume, i: nat, j: nat)
    requires Candidate(s, v, i) && Candidate(s, v, j)
  {
    (OnTier(s, v, i) && !OnTier(s, v, j)) || (OnTier(s, v, i) == OnTier(s, v, j) && Closer(s, v, i, j))
  }

  /** The feasible candidate preferred to every other one. */
  ghost predicate IsBest(s: Site, v: Volume, i: nat)
  {
    Feasible(s, v, i) && forall j: nat :: Feasible(s, v, j) && j != i ==> Preferred(s, v, i, j)
  }

  /** Storage pool `p` is the only one with the name that the idle volume's record gives. */
  ghost predicate LivesOn(s: Site, i: nat, p: nat)
  {
    && i < |s.idle| && p < |s.stores| && s.idle[i].store == Some(s.stores[p].name) && s.stores[p].name != ""
    && forall q :: 0 <= q < |s.stores| && q != p ==> s.stores[q].name != s.stores[p].name
  }

  /** Which idle volumes can be reused: those with the requested image and at most the
      requested size on a known storage pool with the requested ephemeral policy; one is on
      the tier if that pool is, and feasible if it need not grow or the pool has what it
      grows by. */
  lemma ReuseMeans(s: Site, v: Volume, i: nat)
    ensures Candidate(s, v, i) <==>
            exists p: nat :: LivesOn(s, i, p) && v.image.Some? && s.idle[i].image == v.image &&
                             s.idle[i].size <= v.size && s.stores[p].ephemeral == v.ephemeral
    ensures Candidate(s, v, i) ==>
              (OnTier(s, v, i) <==> exists p: nat :: LivesOn(s, i, p) && s.stores[p].tier == v.tier)
    ensures Candidate(s, v, i) ==>
              (Feasible(s, v, i) <==>
               s.idle[i].size == v.size ||
               exists p: nat :: LivesOn(s, i, p) &&
                                s.stores[p].usable - s.stores[p].provisioned >= v.size - s.idle[i].size)
    ensures Feasible(s, v, i) ==> Candidate(s, v, i)
  {
    forall p: nat | LivesOn(s, i, p) ensures HomeOf(s.stores, s.idle[i]) == Some(p) {
      assert UniquelyNamed(s.stores, p);
    }
    var home := if i < |s.idle| then HomeOf(s.stores, s.idle[i]) else None;
    if home.Some? { assert LivesOn(s, i, home.value); }
  }

  lemma BestIsUnique(s: Site, v: Volume, i: nat, j: nat)
    requires IsBest(s, v, i) && IsBest(s, v, j)
    ensures i == j
  {
  }

  ghost function Best(s: Site, v: Volume): (r: Option<nat>)
    ensures r.Some? ==> IsBest(s, v, r.value)
    ensures r.None? ==> forall i: nat :: !IsBest(s, v, i)
  {
    if exists i: nat :: IsBest(s, v, i) then
      var i: nat :| IsBest(s, v, i);
      Some(i)
    else None
  }

  // ------------------------------------------------------------------
  // Placing one volume, and all the volumes of a node
  // ------------------------------------------------------------------

  function Charge(stores: seq<Store>, p: nat, size: int): seq<Store>
    requires p < |stores|
  {
    stores[p := stores[p].Allocate(size)]
  }

  ghost function Place(select: Selector, s: Site, v: Volume): Result<(Site, Placed), ()>
  {
    match Best(s, v)
    case Some(i) =>
      var p := HomeOf(s.stores, s.idle[i]).value;
      Success((Site(Charge(s.stores, p, Need(s, v, i)), s.idle[..i] + s.idle[i + 1..]),
               Placed(v, p, Some(s.idle[i].uuid))))
    case None =>
      match SelectStore(select, s.stores, v)
      case Some(p) => Success((Site(Charge(s.stores, p, v.size), s.idle), Placed(v, p, None)))
      case None => Failure(())
  }

  /** The volumes of a node, in order; the first failure fails the node. */
  ghost function PlaceAll(select: Selector, s: Site, vs: seq<Volume>): (r: Result<(Site, seq<Placed>), ()>)
    ensures r.Success? ==> |r.value.1| == |vs|
  {
    if vs == [] then Success((s, []))
    else
      match PlaceAll(select, s, vs[..|vs| - 1])
      case Failure(_) => Failure(())
      case Success((front, done)) =>
        match Place(select, front, vs[|vs| - 1])
        case Failure(_) => Failure(())
        case Success((last, placed)) => Success((last, done + [placed]))
  }

  // ------------------------------------------------------------------
  // A best candidate exists whenever a feasible one does
  // ------------------------------------------------------------------

  /** `i` is preferred to every other feasible candidate below `n`. */
  ghost predicate BestBelow(s: Site, v: Volume, n: nat, i: nat)
  {
    Feasible(s, v, i) && i < n && forall j: nat :: j < n && Feasible(s, v, j) && j != i ==> Preferred(s, v, i, j)
  }

  lemma {:induction false} SomeBestBelow(s: Site, v: Volume, n: nat)
    requires n <= |s.idle|
    ensures (exists i: nat :: BestBelow(s, v, n, i)) || forall i: nat :: i < n ==> !Feasible(s, v, i)
  {
    if n > 0 {
      var k := n - 1;
      SomeBestBelow(s, v, k);
      if Feasible(s, v, k) {
        if i: nat :| BestBelow(s, v, k, i) {
          var b := if Preferred(s, v, i, k) then i else k;
          assert BestBelow(s, v, n, b);
        } else {
          assert BestBelow(s, v, n, k);
        }
      } else if i: nat :| BestBelow(s, v, k, i) {
        assert BestBelow(s, v, n, i);
      }
    }
  }

  /** A new volume is created only when no idle volume is feasible. */
  lemma BestIffFeasible(s: Site, v: Volume)
    ensures Best(s, v).Some? <==> exists i: nat :: Feasible(s, v, i)
  {
    SomeBestBelow(s, v, |s.idle|);
    if i: nat :| BestBelow(s, v, |s.idle|, i) {
      assert IsBest(s, v, i);
    }
  }

  /** Best fit in tiers. A reused volume has the requested image, lives on a pool of the
      requested ephemeral policy and its growth fits there; on the requested tier no feasible
      candidate needs a smaller resize; off the tier, none on the tier is feasible. A new
      volume is built only when no idle volume is feasible. */
  lemma ReuseIsBestFit(select: Selector, s: Site, v: Volume)
    requires Place(select, s, v).Success?
    ensures var placed := Place(select, s, v).value.1;
            if placed.reused.Some? then
              exists i: nat :: Feasible(s, v, i) && placed.reused == Some(s.idle[i].uuid) &&
                placed.store == HomeOf(s.stores, s.idle[i]).value &&
                (forall j: nat :: Feasible(s, v, j) && OnTier(s, v, j) ==> OnTier(s, v, i)) &&
                (forall j: nat :: Feasible(s, v, j) && OnTier(s, v, j) == OnTier(s, v, i) ==>
                  Need(s, v, i) <= Need(s, v, j))
            else forall i: nat :: !Feasible(s, v, i)
  {
    BestIffFeasible(s, v);
    if Best(s, v).Some? {
      var i := Best(s, v).value;
      assert Feasible(s, v, i);
    }
  }

  // ------------------------------------------------------------------
  // Conservation of capacity
  // ------------------------------------------------------------------

  /** The sizes of the idle volumes living on storage pool `p`. */
  ghost function IdleOn(stores: seq<Store>, idle: seq<Disk>, p: nat): int
  {
    if idle == [] then 0
    else
      var d := idle[|idle| - 1];
      IdleOn(stores, idle[..|idle| - 1], p) + if HomeOf(stores, d) == Some(p) then d.size else 0
  }

  /** The sizes of the volumes placed on storage pool `p`. */
  ghost function PlacedOn(placed: seq<Placed>, p: nat): int
  {
    if placed == [] then 0
    else
      var last := placed[|placed| - 1];
      PlacedOn(placed[..|placed| - 1], p) + if last.store == p then last.volume.size else 0
  }

  /** What is provisioned on `p` beyond its idle volumes. */
  ghost function Balance(s: Site, p: nat): int
    requires p < |s.stores|
  {
    s.stores[p].provisioned - IdleOn(s.stores, s.idle, p)
  }

  /** The same storage pools but for what is provisioned. */
  predicate SameStores(a: seq<Store>, b: seq<Store>)
  {
    |a| == |b| && forall i :: 0 <= i < |a| ==> b[i] == a[i].(provisioned := b[i].provisioned)
  }

  lemma SameStoresSameHome(a: seq<Store>, b: seq<Store>, d: Disk)
    requires SameStores(a, b)
    ensures HomeOf(a, d) == HomeOf(b, d)
  {
    forall i: nat ensures UniquelyNamed(a, i) <==> UniquelyNamed(b, i) {
      if i < |a| { assert forall j :: 0 <= j < |a| ==> a[j].name == b[j].name; }
    }
    if d.store.Some? && d.store.value != "" {
      var x, y := FindByName(a, d.store.value), FindByName(b, d.store.value);
      if x.Some? { assert b[x.value].name == d.store.value; }
      if y.Some? { assert a[y.value].name == d.store.value; }
    }
  }

  lemma {:induction false} SameStoresSameIdle(a: seq<Store>, b: seq<Store>, idle: seq<Disk>, p: nat)
    requires SameStores(a, b)
    ensures IdleOn(a, idle, p) == IdleOn(b, idle, p)
  {
    if idle != [] {
      SameStoresSameIdle(a, b, idle[..|idle| - 1], p);
      SameStoresSameHome(a, b, idle[|idle| - 1]);
    }
  }

  lemma IdleSnoc(stores: seq<Store>, front: seq<Disk>, d: Disk, p: nat)
    ensures IdleOn(stores, front + [d], p) ==
            IdleOn(stores, front, p) + if HomeOf(stores, d) == Some(p) then d.size else 0
  {
    assert (front + [d])[..|front|] == front;
  }

  lemma {:induction false} IdleWithout(stores: seq<Store>, idle: seq<Disk>, i: nat, p: nat)
    requires i < |idle|
    ensures IdleOn(stores, idle[..i] + idle[i + 1..], p) ==
            IdleOn(stores, idle, p) - if HomeOf(stores, idle[i]) == Some(p) then idle[i].size else 0
  {
    var n := |idle| - 1;
    var front, rest := idle[..n], idle[..i] + idle[i + 1..];
    assert idle == front + [idle[n]];
    IdleSnoc(stores, front, idle[n], p);
    if i == n {
      assert rest == front;
    } else {
      var less := front[..i] + front[i + 1..];
      assert rest == less + [idle[n]];
      IdleWithout(stores, front, i, p);
      IdleSnoc(stores, less, idle[n], p);
    }
  }

  /** One placement raises the balance of the storage pool it used by the requested size
      and leaves every other balance, whichever way the volume was found. */
  lemma PlaceConserves(select: Selector, s: Site, v: Volume, p: nat)
    requires Place(select, s, v).Success? && p < |s.stores|
    ensures var (t, placed) := Place(select, s, v).value;
            SameStores(s.stores, t.stores) && placed.volume == v && placed.store < |s.stores| &&
            Balance(t, p) == Balance(s, p) + if placed.store == p then v.size else 0
  {
    var (t, placed) := Place(select, s, v).value;
    SameStoresSameIdle(s.stores, t.stores, t.idle, p);
    if Best(s, v).Some? {
      IdleWithout(s.stores, s.idle, Best(s, v).value, p);
    }
  }

  lemma PlacedSnoc(done: seq<Placed>, added: Placed, p: nat)
    ensures PlacedOn(done + [added], p) == PlacedOn(done, p) + if added.store == p then added.volume.size else 0
  {
    assert (done + [added])[..|done|] == done;
  }

  /** The placements are of these volumes, in order, on storage pools among these. */
  predicate PlacedAs(placed: seq<Placed>, vs: seq<Volume>, stores: nat)
  {
    |placed| == |vs| && forall k :: 0 <= k < |vs| ==> placed[k].volume == vs[k] && placed[k].store < stores
  }

  lemma PlacedAsSnoc(done: seq<Placed>, added: Placed, vs: seq<Volume>, stores: nat)
    requires vs != [] && PlacedAs(done, vs[..|vs| - 1], stores)
    requires added.volume == vs[|vs| - 1] && added.store < stores
    ensures PlacedAs(done + [added], vs, stores)
  {
  }

  lemma SameStoresTransitive(a: seq<Store>, b: seq<Store>, c: seq<Store>)
    requires SameStores(a, b) && SameStores(b, c)
    ensures SameStores(a, c)
  {
  }

  lemma {:induction false} PlaceAllConserves(select: Selector, s: Site, vs: seq<Volume>, p: nat)
    requires PlaceAll(select, s, vs).Success? && p < |s.stores|
    ensures var (t, placed) := PlaceAll(select, s, vs).value;
            SameStores(s.stores, t.stores) && PlacedAs(placed, vs, |s.stores|) &&
            Balance(t, p) == Balance(s, p) + PlacedOn(placed, p)
  {
    if vs != [] {
      var n := |vs| - 1;
      PlaceAllConserves(select, s, vs[..n], p);
      var (front, done) := PlaceAll(select, s, vs[..n]).value;
      PlaceConserves(select, front, vs[n], p);
      var (last, added) := Place(select, front, vs[n]).value;
      assert PlaceAll(select, s, vs) == Success((last, done + [added]));
      SameStoresTransitive(s.stores, front.stores, last.stores);
      PlacedAsSnoc(done, added, vs, |s.stores|);
      PlacedSnoc(done, added, p);
    }
  }

  // ------------------------------------------------------------------
  // No storage pool is overdrawn, no idle volume gets two owners
  // ------------------------------------------------------------------

  predicate NotOverdrawn(stores: seq<Store>)
  {
    forall p :: 0 <= p < |stores| ==> stores[p].Available() >= 0
  }

  lemma PlaceKeepsRoom(select: Selector, s: Site, v: Volume)
    requires SelectorOk(select) && NotOverdrawn(s.stores) && Place(select, s, v).Success?
    ensures NotOverdrawn(Place(select, s, v).value.0.stores)
  {
  }

  lemma {:induction false} PlaceAllKeepsRoom(select: Selector, s: Site, vs: seq<Volume>)
    requires SelectorOk(select) && NotOverdrawn(s.stores) && PlaceAll(select, s, vs).Success?
    ensures NotOverdrawn(PlaceAll(select, s, vs).value.0.stores)
  {
    if vs != [] {
      PlaceAllKeepsRoom(select, s, vs[..|vs| - 1]);
      PlaceKeepsRoom(select, PlaceAll(select, s, vs[..|vs| - 1]).value.0, vs[|vs| - 1]);
    }
  }

  /** How many idle volumes carry an id. */
  ghost function IdleCount(idle: seq<Disk>, uuid: int): nat
  {
    if idle == [] then 0
    else IdleCount(idle[..|idle| - 1], uuid) + if idle[|idle| - 1].uuid == uuid then 1 else 0
  }

  /** How many placements reused the volume of that id. */
  ghost function ReusedCount(placed: seq<Placed>, uuid: int): nat
  {
    if placed == [] then 0
    else ReusedCount(placed[..|placed| - 1], uuid) + if placed[|placed| - 1].reused == Some(uuid) then 1 else 0
  }

  lemma CountSnoc(front: seq<Disk>, d: Disk, uuid: int)
    ensures IdleCount(front + [d], uuid) == IdleCount(front, uuid) + if d.uuid == uuid then 1 else 0
  {
    assert (front + [d])[..|front|] == front;
  }

  lemma {:induction false} CountWithout(idle: seq<Disk>, i: nat, uuid: int)
    requires i < |idle|
    ensures IdleCount(idle, uuid) ==
            IdleCount(idle[..i] + idle[i + 1..], uuid) + if idle[i].uuid == uuid then 1 else 0
  {
    var n := |idle| - 1;
    var front, rest := idle[..n], idle[..i] + idle[i + 1..];
    assert idle == front + [idle[n]];
    CountSnoc(front, idle[n], uuid);
    if i == n {
      assert rest == front;
    } else {
      var less := front[..i] + front[i + 1..];
      assert rest == less + [idle[n]];
      CountWithout(front, i, uuid);
      CountSnoc(less, idle[n], uuid);
    }
  }

  /** Each idle volume either stays idle or is reused, and never twice. */
  lemma {:induction false} OwnersAreDisjoint(select: Selector, s: Site, vs: seq<Volume>, uuid: int)
    requires PlaceAll(select, s, vs).Success?
    ensures var (t, placed) := PlaceAll(select, s, vs).value;
            IdleCount(s.idle, uuid) == IdleCount(t.idle, uuid) + ReusedCount(placed, uuid)
  {
    if vs != [] {
      var n := |vs| - 1;
      OwnersAreDisjoint(select, s, vs[..n], uuid);
      var (front, done) := PlaceAll(select, s, vs[..n]).value;
      var (t, placed) := PlaceAll(select, s, vs).value;
      assert placed[..n] == done;
      if Best(front, vs[n]).Some? { CountWithout(front.idle, Best(front, vs[n]).value, uuid); }
    }
  }
}
