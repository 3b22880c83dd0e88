/** The scheduler's placement step on objects: storage pools, machine volumes and idle
    lists are changed in place, and a failed node is rolled back
    (exordos_core/compute/scheduler/service.py). Every method refines `Placement`. */
module Scheduler {
  import opened Wrappers
  import opened Placement

  class StoragePool {
    const name: string
    const tier: int
    const ephemeral: bool
    const usable: int
    var provisioned: int

    constructor (view: Store)
      ensures View() == view
    {
      name, tier, ephemeral, usable := view.name, view.tier, view.ephemeral, view.usable;
      provisioned := view.provisioned;
    }

    function View(): Store
      reads this
    {
      Store(name, tier, ephemeral, usable, provisioned)
    }

    /** The SDK contract: provisioned grows, and what is available shrinks, by the size. */
    method AllocateCapacity(size: int)
      modifies this
      ensures View() == old(View()).Allocate(size)
    {
      provisioned := provisioned + size;
    }
  }

  class MachineVolume {
    const uuid: int
    const image: Option<string>
    const size: int
    const store: Option<string>
    /** The node volume this disk is assigned to. */
    var owner: Option<int>

    constructor (view: Disk, owner: Option<int>)
      ensures View() == view && this.owner == owner
    {
      uuid, image, size, store := view.uuid, view.image, view.size, view.store;
      this.owner := owner;
    }

    function View(): Disk
    {
      Disk(uuid, image, size, store)
    }
  }

  /** A machine pool with its storage pools and idle volumes. */
  class PoolBundle {
    const stores: seq<StoragePool>
    var volumes: seq<MachineVolume>
    var availCores: int
    var availRam: int

    constructor (stores: seq<StoragePool>, volumes: seq<MachineVolume>, availCores: int, availRam: int)
      ensures this.stores == stores && this.volumes == volumes
      ensures this.availCores == availCores && this.availRam == availRam
    {
      this.stores, this.volumes := stores, volumes;
      this.availCores, this.availRam := availCores, availRam;
    }

    /** Storage pools are distinct objects and volumes have distinct ids. */
    ghost predicate Valid()
      reads this
    {
      && (forall i, j :: 0 <= i < j < |stores| ==> stores[i] != stores[j])
      && (forall i, j :: 0 <= i < j < |volumes| ==> volumes[i].uuid != volumes[j].uuid)
    }

    function Stores(): (r: seq<Store>)
      reads stores
      ensures |r| == |stores| && forall i :: 0 <= i < |r| ==> r[i] == stores[i].View()
    {
      seq(|stores|, i requires 0 <= i < |stores| reads stores => stores[i].View())
    }

    function Idle(): (r: seq<Disk>)
      reads this
      ensures |r| == |volumes| && forall i :: 0 <= i < |r| ==> r[i] == volumes[i].View()
    {
      seq(|volumes|, i requires 0 <= i < |volumes| reads this => volumes[i].View())
    }

    function SiteOf(): Site
      reads this, stores
    {
      Site(Stores(), Idle())
    }
  }

  // ------------------------------------------------------------------
  // Looking storage pools up
  // ------------------------------------------------------------------

  method FindStoragePoolByName(pool: PoolBundle, name: string) returns (r: Option<nat>)
    ensures r == FindByName(pool.Stores(), name)
  {
    r := None;
    var matches: nat := 0;
    for i := 0 to |pool.stores|
      invariant matches == 0 <==> forall j :: 0 <= j < i ==> pool.stores[j].name != name
      invariant r.Some? <==> matches > 0
      invariant r.Some? ==> r.value < i && pool.stores[r.value].name == name
      invariant matches <= 1 && r.Some? ==> forall j :: 0 <= j < i && j != r.value ==> pool.stores[j].name != name
      invariant matches > 1 ==> exists j, k :: 0 <= j < k < i && pool.stores[j].name == name == pool.stores[k].name
    {
      if pool.stores[i].name == name {
        matches := matches + 1;
        if r.None? { r := Some(i); }
      }
    }
    ghost var stores := pool.Stores();
    if matches > 1 {
      r := None;
      assert forall i: nat :: UniquelyNamed(stores, i) ==> stores[i].name != name by {
        var j, k :| 0 <= j < k < |pool.stores| && pool.stores[j].name == name == pool.stores[k].name;
        assert stores[j].name == name == stores[k].name;
      }
    } else if r.Some? {
      assert UniquelyNamed(stores, r.value);
    }
  }

  method ExistingStoragePool(pool: PoolBundle, d: MachineVolume) returns (r: Option<nat>)
    ensures r == HomeOf(pool.Stores(), d.View())
  {
    if d.store.None? || d.store.value == "" {
      return None;
    }
    r := FindStoragePoolByName(pool, d.store.value);
  }

  // ------------------------------------------------------------------
  // Ordering the candidates for reuse
  // ------------------------------------------------------------------

  /** Every entry goes before the later ones. */
  ghost predicate Ordered(s: Site, v: Volume, ids: seq<nat>)
  {
    && (forall a :: 0 <= a < |ids| ==> ids[a] < |s.idle|)
    && (forall a, b :: 0 <= a < b < |ids| ==> Closer(s, v, ids[a], ids[b]))
  }

  /** Positions in a list of volumes, by the growth they would need. */
  function NeedOf(volumes: seq<MachineVolume>, v: Volume, i: nat): int
    requires i < |volumes|
  {
    v.size - volumes[i].size
  }

  predicate InRange(volumes: seq<MachineVolume>, ids: seq<nat>)
  {
    forall a :: 0 <= a < |ids| ==> ids[a] < |volumes|
  }

  /** The stable sort of the candidate lists: a position goes after those needing as much. */
  function Insert(volumes: seq<MachineVolume>, v: Volume, ids: seq<nat>, i: nat): (r: seq<nat>)
    requires InRange(volumes, ids) && i < |volumes|
    ensures InRange(volumes, r)
  {
    if ids != [] && NeedOf(volumes, v, ids[|ids| - 1]) > NeedOf(volumes, v, i) then
      Insert(volumes, v, ids[..|ids| - 1], i) + [ids[|ids| - 1]]
    else ids + [i]
  }

  function SortByNeed(volumes: seq<MachineVolume>, v: Volume, ids: seq<nat>): (r: seq<nat>)
    requires InRange(volumes, ids)
    ensures InRange(volumes, r)
  {
    if ids == [] then []
    else Insert(volumes, v, SortByNeed(volumes, v, ids[..|ids| - 1]), ids[|ids| - 1])
  }

  lemma {:induction false} InsertOrdered(s: Site, volumes: seq<MachineVolume>, v: Volume, ids: seq<nat>, i: nat)
    requires |s.idle| == |volumes| && forall k :: 0 <= k < |volumes| ==> s.idle[k] == volumes[k].View()
    requires InRange(volumes, ids) && Ordered(s, v, ids) && i < |volumes|
    requires forall a :: 0 <= a < |ids| ==> ids[a] < i
    ensures Ordered(s, v, Insert(volumes, v, ids, i))
    ensures forall k :: k in Insert(volumes, v, ids, i) <==> k == i || k in ids
  {
    if ids != [] && NeedOf(volumes, v, ids[|ids| - 1]) > NeedOf(volumes, v, i) {
      var front, last := ids[..|ids| - 1], ids[|ids| - 1];
      InsertOrdered(s, volumes, v, front, i);
      var r := Insert(volumes, v, front, i);
      assert ids == front + [last];
      assert forall a :: 0 <= a < |r| ==> r[a] in r;
      assert forall k :: k in front ==> Closer(s, v, k, last);
    }
  }

  lemma {:induction false} SortOrdered(s: Site, volumes: seq<MachineVolume>, v: Volume, ids: seq<nat>)
    requires |s.idle| == |volumes| && forall k :: 0 <= k < |volumes| ==> s.idle[k] == volumes[k].View()
    requires InRange(volumes, ids)
    requires forall a, b :: 0 <= a < b < |ids| ==> ids[a] < ids[b]
    ensures Ordered(s, v, SortByNeed(volumes, v, ids))
    ensures forall k :: k in SortByNeed(volumes, v, ids) <==> k in ids
  {
    if ids != [] {
      var front, last := ids[..|ids| - 1], ids[|ids| - 1];
      SortOrdered(s, volumes, v, front);
      var sorted := SortByNeed(volumes, v, front);
      assert forall a :: 0 <= a < |sorted| ==> sorted[a] in sorted && sorted[a] in front;
      InsertOrdered(s, volumes, v, sorted, last);
      assert ids == front + [last];
    }
  }

  /** The candidates in the order they are tried. */
  ghost predicate TrialOrder(s: Site, v: Volume, order: seq<nat>)
  {
    && (forall a :: 0 <= a < |order| ==> Candidate(s, v, order[a]))
    && (forall i :: Candidate(s, v, i) ==> i in order)
    && (forall a, b :: 0 <= a < b < |order| ==> Preferred(s, v, order[a], order[b]))
  }

  /** The first feasible candidate in trial order is the best one. */
  lemma FirstFeasibleIsBest(s: Site, v: Volume, order: seq<nat>, k: nat)
    requires TrialOrder(s, v, order) && k < |order| && Feasible(s, v, order[k])
    requires forall a :: 0 <= a < k ==> !Feasible(s, v, order[a])
    ensures Best(s, v) == Some(order[k])
  {
    assert IsBest(s, v, order[k]);
    BestIsUnique(s, v, order[k], Best(s, v).value);
  }

  lemma ExactThenOther(s: Site, v: Volume, exact: seq<nat>, other: seq<nat>)
    requires forall i :: i in exact <==> Candidate(s, v, i) && OnTier(s, v, i)
    requires forall i :: i in other <==> Candidate(s, v, i) && !OnTier(s, v, i)
    requires Ordered(s, v, exact) && Ordered(s, v, other)
    ensures TrialOrder(s, v, exact + other)
  {
    var order := exact + other;
    forall a | 0 <= a < |order| ensures Candidate(s, v, order[a]) {
      assert if a < |exact| then order[a] in exact else order[a] in other;
    }
    forall a, b | 0 <= a < b < |order| ensures Preferred(s, v, order[a], order[b]) {
      assert if a < |exact| then order[a] in exact else order[a] in other;
      assert if b < |exact| then order[b] in exact else order[b] in other;
    }
  }

  /** Positions of the reusable idle volumes, exact tier first, then the others, each list
      sorted by the growth needed. */
  method ReuseOrder(volume: Volume, pool: PoolBundle) returns (order: seq<nat>)
    requires volume.image.Some?
    ensures TrialOrder(pool.SiteOf(), volume, order)
  {
    ghost var s := pool.SiteOf();
    var exact: seq<nat>, other: seq<nat> := [], [];
    for i := 0 to |pool.volumes|
      invariant forall k: nat :: k in exact <==> k < i && Candidate(s, volume, k) && OnTier(s, volume, k)
      invariant forall k: nat :: k in other <==> k < i && Candidate(s, volume, k) && !OnTier(s, volume, k)
      invariant forall a :: 0 <= a < |exact| ==> exact[a] < i
      invariant forall a :: 0 <= a < |other| ==> other[a] < i
      invariant forall a, b :: 0 <= a < b < |exact| ==> exact[a] < exact[b]
      invariant forall a, b :: 0 <= a < b < |other| ==> other[a] < other[b]
    {
      var d := pool.volumes[i];
      if d.image != volume.image || d.size > volume.size {
        continue;
      }
      var home := ExistingStoragePool(pool, d);
      if home.None? || pool.stores[home.value].ephemeral != volume.ephemeral {
        continue;
      }
      if pool.stores[home.value].tier == volume.tier {
        exact := exact + [i];
      } else {
        other := other + [i];
      }
    }
    SortOrdered(s, pool.volumes, volume, exact);
    SortOrdered(s, pool.volumes, volume, other);
    exact := SortByNeed(pool.volumes, volume, exact);
    other := SortByNeed(pool.volumes, volume, other);
    ExactThenOther(s, volume, exact, other);
    order := exact + other;
  }

  // ------------------------------------------------------------------
  // Placing one volume
  // ------------------------------------------------------------------

  /** The disk a placement leaves behind: a reused one, or a new one of the requested kind. */
  ghost predicate Assigned(d: MachineVolume, s: Site, placed: Placed)
    requires placed.store < |s.stores|
    reads d
  {
    && d.owner == Some(placed.volume.uuid)
    && (if placed.reused.Some? then d.uuid == placed.reused.value
        else d.View() == Disk(placed.volume.uuid, placed.volume.image, placed.volume.size,
                              Some(s.stores[placed.store].name)))
  }

  /** Charges the storage pools of `pool` at `p` and nowhere else. */
  method Allocate(pool: PoolBundle, p: nat, size: int)
    requires pool.Valid() && p < |pool.stores|
    modifies pool.stores
    ensures pool.Stores() == Charge(old(pool.Stores()), p, size)
  {
    pool.stores[p].AllocateCapacity(size);
    assert forall i :: 0 <= i < |pool.stores| && i != p ==> pool.stores[i].View() == old(pool.stores[i].View());
  }

  /** The name of storage pool `i` occurs once. */
  method OccursOnce(pool: PoolBundle, i: nat) returns (once: bool)
    requires i < |pool.stores|
    ensures once <==> UniquelyNamed(pool.Stores(), i)
  {
    var count := 0;
    for k := 0 to |pool.stores|
      invariant count >= if i < k then 1 else 0
      invariant count == (if i < k then 1 else 0) <==>
                forall j :: 0 <= j < k && j != i ==> pool.stores[j].name != pool.stores[i].name
    {
      if pool.stores[k].name == pool.stores[i].name { count := count + 1; }
    }
    assert forall j :: 0 <= j < |pool.stores| ==> pool.Stores()[j].name == pool.stores[j].name;
    once := count == 1;
  }

  /** Selects among the uniquely named storage pools: with a selection that keeps its
      promise, the chosen one has room and the ephemeral policy asked for. */
  method SelectStoragePool(select: Selector, pool: PoolBundle, volume: Volume) returns (r: Option<nat>)
    ensures r == SelectStore(select, pool.Stores(), volume)
    ensures r.Some? ==> UniquelyNamed(pool.Stores(), r.value)
    ensures r.Some? && SelectorOk(select) ==>
              pool.Stores()[r.value].Available() >= volume.size &&
              pool.Stores()[r.value].ephemeral == volume.ephemeral
    ensures (forall i: nat :: !UniquelyNamed(pool.Stores(), i)) && SelectorOk(select) ==> r.None?
  {
    ghost var stores := pool.Stores();
    var ids: seq<nat>, views: seq<Store> := [], [];
    for i := 0 to |pool.stores|
      invariant ids == Unambiguous(stores, i)
      invariant |views| == |ids| && forall k :: 0 <= k < |ids| ==> ids[k] < |stores| && views[k] == stores[ids[k]]
    {
      var once := OccursOnce(pool, i);
      if once {
        ids, views := ids + [i], views + [pool.stores[i].View()];
      }
    }
    assert views == seq(|ids|, k requires 0 <= k < |ids| => stores[ids[k]]);
    var chosen := select(views, volume);
    if chosen.None? || chosen.value >= |ids| {
      return None;
    }
    r := Some(ids[chosen.value]);
  }

  method BuildMachineVolume(select: Selector, pool: PoolBundle, volume: Volume)
    returns (r: Result<MachineVolume, ()>)
    requires pool.Valid()
    modifies pool.stores
    ensures var p := SelectStore(select, old(pool.Stores()), volume);
            if p.Some? then
              && r.Success? && fresh(r.value)
              && pool.Stores() == Charge(old(pool.Stores()), p.value, volume.size)
              && Assigned(r.value, pool.SiteOf(), Placed(volume, p.value, None))
            else r.Failure? && pool.Stores() == old(pool.Stores())
  {
    var p := SelectStoragePool(select, pool, volume);
    if p.None? {
      return Failure(());
    }
    Allocate(pool, p.value, volume.size);
    var d := new MachineVolume(
      Disk(volume.uuid, volume.image, volume.size, Some(pool.stores[p.value].name)), Some(volume.uuid));
    r := Success(d);
  }

  /** The first candidate in trial order whose growth fits its storage pool. */
  method FirstFitting(volume: Volume, pool: PoolBundle, order: seq<nat>) returns (r: Option<nat>)
    requires TrialOrder(pool.SiteOf(), volume, order)
    ensures r == Best(pool.SiteOf(), volume)
  {
    ghost var s := pool.SiteOf();
    for k := 0 to |order|
      invariant forall a :: 0 <= a < k ==> !Feasible(s, volume, order[a])
    {
      assert Candidate(s, volume, order[k]);
      var d := pool.volumes[order[k]];
      var need := volume.size - d.size;
      var home := ExistingStoragePool(pool, d);
      var sp := pool.stores[home.value];
      if need != 0 && sp.usable - sp.provisioned < need {
        continue;
      }
      FirstFeasibleIsBest(s, volume, order, k);
      return Some(order[k]);
    }
    r := None;
  }

  /** A new disk, when no idle one is to be reused. */
  method BuildNew(select: Selector, pool: PoolBundle, volume: Volume) returns (r: Result<MachineVolume, ()>)
    requires pool.Valid() && Best(pool.SiteOf(), volume) == None
    modifies pool.stores
    ensures r.Success? <==> Place(select, old(pool.SiteOf()), volume).Success?
    ensures r.Success? ==>
              var (s, placed) := Place(select, old(pool.SiteOf()), volume).value;
              pool.SiteOf() == s && placed.store < |s.stores| && Assigned(r.value, s, placed)
    ensures r.Failure? ==> pool.SiteOf() == old(pool.SiteOf())
    ensures r.Success? ==>
              fresh(r.value) && r.value.uuid == volume.uuid && r.value.image == volume.image
              && r.value.size == volume.size
  {
    r := BuildMachineVolume(select, pool, volume);
  }

  /** Takes idle volume `i` out of the list for `owner` and charges pool `p` for its growth. */
  method Take(pool: PoolBundle, i: nat, p: nat, need: int, owner: int) returns (d: MachineVolume)
    requires pool.Valid() && i < |pool.volumes| && p < |pool.stores|
    modifies pool`volumes, pool.stores, pool.volumes
    ensures pool.Valid() && d == old(pool.volumes)[i] && d.owner == Some(owner)
    ensures pool.volumes == old(pool.volumes)[..i] + old(pool.volumes)[i + 1..]
    ensures pool.Stores() == Charge(old(pool.Stores()), p, need)
    ensures pool.Idle() == old(pool.Idle())[..i] + old(pool.Idle())[i + 1..]
    ensures forall e :: e in old(pool.volumes) && e != d ==> e.owner == old(e.owner)
    ensures d !in pool.volumes
  {
    d := pool.volumes[i];
    Allocate(pool, p, need);
    pool.volumes := pool.volumes[..i] + pool.volumes[i + 1..];
    d.owner := Some(owner);
  }

  /** The disk has the requested image and at most the requested size, and lives on the one
      storage pool of its name, which has the requested ephemeral policy. */
  predicate Serves(d: MachineVolume, volume: Volume, stores: seq<Store>)
  {
    && volume.image.Some? && d.image == volume.image && d.size <= volume.size && d.store.Some?
    && exists p :: 0 <= p < |stores| && stores[p].name == d.store.value && stores[p].ephemeral == volume.ephemeral &&
         forall q :: 0 <= q < |stores| && q != p ==> stores[q].name != d.store.value
  }

  /** Takes the best idle volume out of the list for `volume`. */
  method TakeIdle(select: Selector, pool: PoolBundle, i: nat, volume: Volume) returns (d: MachineVolume)
    requires pool.Valid() && Best(pool.SiteOf(), volume) == Some(i)
    modifies pool`volumes, pool.stores, pool.volumes
    ensures pool.Valid()
    ensures var (s, placed) := Place(select, old(pool.SiteOf()), volume).value;
            pool.SiteOf() == s && placed.store < |s.stores| && Assigned(d, s, placed)
    ensures d in old(pool.volumes) && d !in pool.volumes && Serves(d, volume, old(pool.Stores()))
    ensures forall e :: e in old(pool.volumes) && e != d ==> e.owner == old(e.owner)
    ensures forall k :: 0 <= k < |pool.volumes| ==> pool.volumes[k] in old(pool.volumes)
  {
    assert Feasible(pool.SiteOf(), volume, i);
    var home := ExistingStoragePool(pool, pool.volumes[i]);
    d := Take(pool, i, home.value, volume.size - pool.volumes[i].size, volume.uuid);
  }

  /** Places one volume, reusing the best idle one if any is feasible. The disk returned is
      the only one whose owner changes; a failure changes nothing. */
  method PlaceVolumeIntoPool(select: Selector, volume: Volume, pool: PoolBundle)
    returns (r: Result<MachineVolume, ()>)
    requires pool.Valid()
    modifies pool`volumes, pool.stores, pool.volumes
    ensures pool.Valid()
    ensures r.Success? <==> Place(select, old(pool.SiteOf()), volume).Success?
    ensures r.Success? ==>
              var (s, placed) := Place(select, old(pool.SiteOf()), volume).value;
              pool.SiteOf() == s && placed.store < |s.stores| && Assigned(r.value, s, placed)
    ensures r.Failure? ==> pool.SiteOf() == old(pool.SiteOf()) && pool.volumes == old(pool.volumes)
    ensures forall d :: d in old(pool.volumes) && (r.Failure? || d != r.value) ==> d.owner == old(d.owner)
    ensures forall k :: 0 <= k < |pool.volumes| ==> pool.volumes[k] in old(pool.volumes)
    ensures r.Success? ==> r.value !in pool.volumes && (r.value in old(pool.volumes) || fresh(r.value))
    ensures r.Success? ==> r.value.owner == Some(volume.uuid)
    ensures r.Success? && r.value in old(pool.volumes) ==> Serves(r.value, volume, old(pool.Stores()))
    ensures r.Success? && r.value !in old(pool.volumes) ==>
              r.value.uuid == volume.uuid && r.value.image == volume.image && r.value.size == volume.size
  {
    if volume.image.None? {
      assert Best(pool.SiteOf(), volume) == None;
      r := BuildNew(select, pool, volume);
      return;
    }
    var order := ReuseOrder(volume, pool);
    var best := FirstFitting(volume, pool, order);
    if best.Some? {
      var d := TakeIdle(select, pool, best.value, volume);
      return Success(d);
    }
    r := BuildNew(select, pool, volume);
  }

  // ------------------------------------------------------------------
  // The volumes of a node: all or nothing
  // ------------------------------------------------------------------

  /** The disks are assigned to the volumes, in order. */
  ghost predicate OwnedBy(disks: seq<MachineVolume>, volumes: seq<Volume>)
    requires |disks| == |volumes|
    reads disks
  {
    forall k :: 0 <= k < |disks| ==> disks[k].owner == Some(volumes[k].uuid)
  }

  /** Places every volume of a node. If one cannot be placed, every storage pool's
      provisioned capacity, the idle list with its order, and every idle volume's owner are
      put back. */
  method AllocateNodeVolumes(select: Selector, volumes: seq<Volume>, pool: PoolBundle)
    returns (r: Result<seq<MachineVolume>, ()>)
    requires pool.Valid()
    modifies pool`volumes, pool.stores, pool.volumes
    ensures pool.Valid()
    ensures r.Success? <==> PlaceAll(select, old(pool.SiteOf()), volumes).Success?
    ensures r.Success? ==> pool.SiteOf() == PlaceAll(select, old(pool.SiteOf()), volumes).value.0
    ensures r.Success? ==> |r.value| == |volumes| && OwnedBy(r.value, volumes)
    ensures r.Success? ==> forall d :: d in r.value ==> d !in pool.volumes && (d in old(pool.volumes) || fresh(d))
    ensures r.Success? ==> forall i, j :: 0 <= i < j < |r.value| ==> r.value[i] != r.value[j]
    ensures r.Success? ==> forall d :: d in old(pool.volumes) && d !in r.value ==> d.owner == old(d.owner)
    ensures forall k :: 0 <= k < |pool.volumes| ==> pool.volumes[k] in old(pool.volumes)
    ensures r.Failure? ==> pool.volumes == old(pool.volumes)
    ensures r.Failure? ==> forall sp :: sp in pool.stores ==> sp.provisioned == old(sp.provisioned)
    ensures r.Failure? ==> forall d :: d in pool.volumes ==> d.owner == old(d.owner)
  {
    var idle := pool.volumes;
    var capacities: seq<int> := [];
    for i := 0 to |pool.stores|
      invariant |capacities| == i && forall k :: 0 <= k < i ==> capacities[k] == pool.stores[k].provisioned
    {
      capacities := capacities + [pool.stores[i].provisioned];
    }
    var owners: seq<Option<int>> := [];
    for i := 0 to |idle|
      invariant |owners| == i && forall k :: 0 <= k < i ==> owners[k] == idle[k].owner
    {
      owners := owners + [idle[i].owner];
    }
    var placed := PlaceEach(select, volumes, pool);
    if placed.Success? {
      return placed;
    }
    Restore(pool, idle, capacities, owners);
    r := placed;
  }

  /** One step of the comprehension: the disks already assigned stay as they are. */
  method PlaceNext(select: Selector, volume: Volume, pool: PoolBundle,
                   done: seq<MachineVolume>, ghost requested: seq<Volume>)
    returns (r: Result<MachineVolume, ()>)
    requires pool.Valid() && |done| == |requested| && OwnedBy(done, requested)
    requires forall k :: 0 <= k < |done| ==> done[k] !in pool.volumes
    modifies pool`volumes, pool.stores, pool.volumes
    ensures pool.Valid()
    ensures r.Success? <==> Place(select, old(pool.SiteOf()), volume).Success?
    ensures r.Success? ==> pool.SiteOf() == Place(select, old(pool.SiteOf()), volume).value.0
    ensures r.Success? ==> OwnedBy(done + [r.value], requested + [volume])
    ensures r.Success? ==> forall k :: 0 <= k < |done + [r.value]| ==> (done + [r.value])[k] !in pool.volumes
    ensures r.Success? ==> r.value !in done && (r.value in old(pool.volumes) || fresh(r.value))
    ensures r.Success? ==> forall d :: d in old(pool.volumes) && d != r.value ==> d.owner == old(d.owner)
    ensures forall k :: 0 <= k < |pool.volumes| ==> pool.volumes[k] in old(pool.volumes)
  {
    ghost var before := pool.volumes;
    r := PlaceVolumeIntoPool(select, volume, pool);
    forall k | 0 <= k < |done| ensures done[k].owner == Some(requested[k].uuid) && done[k] !in pool.volumes {
      assert done[k] !in before;
    }
  }

  /** The list comprehension over the node's volumes: stops at the first failure. */
  method PlaceEach(select: Selector, volumes: seq<Volume>, pool: PoolBundle)
    returns (r: Result<seq<MachineVolume>, ()>)
    requires pool.Valid()
    modifies pool`volumes, pool.stores, pool.volumes
    ensures pool.Valid()
    ensures r.Success? <==> PlaceAll(select, old(pool.SiteOf()), volumes).Success?
    ensures r.Success? ==> pool.SiteOf() == PlaceAll(select, old(pool.SiteOf()), volumes).value.0
    ensures r.Success? ==> |r.value| == |volumes| && OwnedBy(r.value, volumes)
    ensures r.Success? ==> forall k :: 0 <= k < |r.value| ==> r.value[k] !in pool.volumes
    ensures r.Success? ==> forall d :: d in r.value ==> d in old(pool.volumes) || fresh(d)
    ensures r.Success? ==> forall i, j :: 0 <= i < j < |r.value| ==> r.value[i] != r.value[j]
    ensures forall k :: 0 <= k < |pool.volumes| ==> pool.volumes[k] in old(pool.volumes)
    ensures r.Success? ==> forall d :: d in old(pool.volumes) && d !in r.value ==> d.owner == old(d.owner)
    decreases |volumes|
  {
    if |volumes| == 0 {
      return Success([]);
    }
    var n := |volumes| - 1;
    var front := PlaceEach(select, volumes[..n], pool);
    if front.Failure? {
      return Failure(());
    }
    var last := PlaceNext(select, volumes[n], pool, front.value, volumes[..n]);
    if last.Failure? {
      return Failure(());
    }
    assert volumes[..n] + [volumes[n]] == volumes;
    r := Success(front.value + [last.value]);
  }

  /** The rollback. */
  method Restore(pool: PoolBundle, idle: seq<MachineVolume>, capacities: seq<int>, owners: seq<Option<int>>)
    requires |capacities| == |pool.stores| && |owners| == |idle| && pool.Valid()
    requires forall i, j :: 0 <= i < j < |idle| ==> idle[i] != idle[j]
    modifies pool`volumes, pool.stores, idle
    ensures pool.volumes == idle
    ensures forall k :: 0 <= k < |capacities| ==> pool.stores[k].provisioned == capacities[k]
    ensures forall k :: 0 <= k < |idle| ==> idle[k].owner == owners[k]
  {
    for i := 0 to |capacities|
      invariant forall k :: 0 <= k < i ==> pool.stores[k].provisioned == capacities[k]
    {
      pool.stores[i].provisioned := capacities[i];
    }
    pool.volumes := idle;
    for i := 0 to |idle|
      invariant pool.volumes == idle
      invariant forall k :: 0 <= k < |capacities| ==> pool.stores[k].provisioned == capacities[k]
      invariant forall k :: 0 <= k < i ==> idle[k].owner == owners[k]
    {
      idle[i].owner := owners[i];
    }
  }

  // ------------------------------------------------------------------
  // The dry run
  // ------------------------------------------------------------------

  /** A deep copy: new objects, the same values. */
  method DeepCopy(pool: PoolBundle) returns (copy: PoolBundle)
    requires pool.Valid()
    ensures fresh(copy) && copy.Valid() && copy.SiteOf() == pool.SiteOf()
    ensures forall k :: 0 <= k < |copy.stores| ==> fresh(copy.stores[k])
    ensures forall k :: 0 <= k < |copy.volumes| ==> fresh(copy.volumes[k])
  {
    var stores: seq<StoragePool> := [];
    for i := 0 to |pool.stores|
      invariant |stores| == i && forall k :: 0 <= k < i ==>
                  fresh(stores[k]) && stores[k].View() == pool.stores[k].View()
      invariant forall j, k :: 0 <= j < k < i ==> stores[j] != stores[k]
    {
      var sp := new StoragePool(pool.stores[i].View());
      stores := stores + [sp];
    }
    var volumes: seq<MachineVolume> := [];
    for i := 0 to |pool.volumes|
      invariant forall k :: 0 <= k < |stores| ==> fresh(stores[k]) && stores[k].View() == pool.stores[k].View()
      invariant |volumes| == i && forall k :: 0 <= k < i ==>
                  fresh(volumes[k]) && volumes[k].View() == pool.volumes[k].View()
    {
      var d := new MachineVolume(pool.volumes[i].View(), pool.volumes[i].owner);
      volumes := volumes + [d];
    }
    copy := new PoolBundle(stores, volumes, pool.availCores, pool.availRam);
    assert forall i :: 0 <= i < |volumes| ==> copy.volumes[i].uuid == volumes[i].View().uuid;
    assert forall i :: 0 <= i < |volumes| ==> volumes[i].View().uuid == pool.volumes[i].uuid;
    assert copy.Stores() == pool.Stores() && copy.Idle() == pool.Idle();
  }

  /** Succeeds exactly when placing the node for real would, and changes nothing. */
  method MachineHasDiskCapacity(select: Selector, volumes: seq<Volume>, pool: Option<PoolBundle>)
    returns (fits: bool)
    requires pool.Some? ==> pool.value.Valid()
    ensures fits <==> volumes == [] ||
                      (pool.Some? && PlaceAll(select, pool.value.SiteOf(), volumes).Success?)
  {
    if volumes == [] {
      return true;
    }
    if pool.None? {
      return false;
    }
    var candidate := DeepCopy(pool.value);
    var r := AllocateNodeVolumes(select, volumes, candidate);
    fits := r.Success?;
  }
}
