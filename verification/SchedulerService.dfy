/** The scheduling loop over several machine pools, on objects; it refines `SchedulingRun`
    (exordos_core/compute/scheduler/service.py). */
module SchedulerService {
  import opened Placement
  import opened Scheduler
  import opened SchedulingRun

  function ViewOf(pool: PoolBundle): PoolView
    reads pool, pool.stores
  {
    PoolView(pool.SiteOf(), pool.availCores, pool.availRam)
  }

  /** Places a node and takes its cores and memory off the pool, unless saving fails. */
  method PlaceNodeIntoPool(select: Selector, node: Node, pool: PoolBundle, saved: bool) returns (ok: bool)
    requires pool.Valid()
    modifies pool, pool.stores, pool.volumes
    ensures pool.Valid()
    ensures var r := PlaceAll(select, old(pool.SiteOf()), node.volumes);
            if r.Failure? then !ok && ViewOf(pool) == old(ViewOf(pool))
            else
              var charged := old(ViewOf(pool)).(site := r.value.0);
              ok == saved && ViewOf(pool) == if saved then Taken(charged, node) else charged
    ensures forall k :: 0 <= k < |pool.volumes| ==> pool.volumes[k] in old(pool.volumes)
  {
    var allocations := AllocateNodeVolumes(select, node.volumes, pool);
    if allocations.Failure? {
      assert pool.Stores() == old(pool.Stores()) && pool.Idle() == old(pool.Idle());
      return false;
    }
    if !saved {
      return false;
    }
    pool.availCores := pool.availCores - node.cores;
    pool.availRam := pool.availRam - node.ram;
    ok := true;
  }

  // ------------------------------------------------------------------
  // Several pools
  // ------------------------------------------------------------------

  /** Every pool is valid, and no two share an object. */
  ghost predicate Separate(pools: seq<PoolBundle>)
    reads pools
  {
    && (forall i :: 0 <= i < |pools| ==> pools[i].Valid())
    && (forall i, j :: 0 <= i < j < |pools| ==> pools[i] != pools[j])
    && (forall i, j :: 0 <= i < |pools| && 0 <= j < |pools| && i != j ==> Apart(pools[i], pools[j]))
  }

  ghost predicate Apart(p: PoolBundle, q: PoolBundle)
    reads p, q
  {
    && (forall sp :: sp in p.stores ==> sp !in q.stores)
    && (forall d :: d in p.volumes ==> d !in q.volumes)
  }

  /** The objects a run may change. */
  ghost function Footprint(pools: seq<PoolBundle>): set<object>
    reads pools
  {
    (set p | p in pools :: p as object)
    + (set p, sp | p in pools && sp in p.stores :: sp as object)
    + (set p, d | p in pools && d in p.volumes :: d as object)
  }

  /** The storage pools of all the machine pools. */
  ghost function AllStores(pools: seq<PoolBundle>): set<StoragePool>
  {
    set i, j | 0 <= i < |pools| && 0 <= j < |pools[i].stores| :: pools[i].stores[j]
  }

  function ViewsOf(pools: seq<PoolBundle>): (r: seq<PoolView>)
    reads pools, AllStores(pools)
    ensures |r| == |pools|
    ensures forall i :: 0 <= i < |pools| ==> (r[i] == ViewOf(pools[i]))
  {
    seq(|pools|, i requires 0 <= i < |pools| reads pools, AllStores(pools)
                   => ViewOf(pools[i]))
  }

  ghost function States(views: seq<PoolView>, logs: seq<seq<Placed>>): (r: seq<PoolState>)
    requires |views| == |logs|
    ensures |r| == |views| && forall i :: 0 <= i < |r| ==> r[i] == PoolState(views[i], logs[i])
  {
    seq(|views|, i requires 0 <= i < |views| => PoolState(views[i], logs[i]))
  }

  /** Only the view of pool `k` changes, and the pools stay separate. */
  twostate predicate OnlyAt(pools: seq<PoolBundle>, k: nat)
    requires k < |pools|
    reads pools, AllStores(pools)
  {
    && Separate(pools) && Footprint(pools) <= old(Footprint(pools))
    && ViewsOf(pools) == old(ViewsOf(pools))[k := ViewsOf(pools)[k]]
  }

  /** Places a node on pool `k` of several. */
  method PlaceAt(select: Selector, node: Node, pools: seq<PoolBundle>, k: nat, saved: bool) returns (ok: bool)
    requires Separate(pools) && k < |pools|
    modifies pools[k], pools[k].stores, pools[k].volumes
    ensures OnlyAt(pools, k)
    ensures var r := PlaceAll(select, old(pools[k].SiteOf()), node.volumes);
            if r.Failure? then !ok && ViewOf(pools[k]) == old(ViewOf(pools[k]))
            else
              var charged := old(ViewOf(pools[k])).(site := r.value.0);
              ok == saved && ViewOf(pools[k]) == if saved then Taken(charged, node) else charged
  {
    ghost var pool := pools[k];
    assert forall i :: 0 <= i < |pools| && i != k ==> pools[i] != pool && Apart(pools[i], pool);
    ok := PlaceNodeIntoPool(select, node, pools[k], saved);
    forall i | 0 <= i < |pools| && i != k
      ensures ViewOf(pools[i]) == old(ViewOf(pools[i])) && pools[i].volumes == old(pools[i].volumes)
    {
      assert forall j :: 0 <= j < |pools[i].stores| ==> pools[i].stores[j] !in pool.stores;
    }
  }

  // ------------------------------------------------------------------
  // The loops
  // ------------------------------------------------------------------

  /** Tries the eligible pools in order; `logs` records what is placed where. */
  method TryInOrder(env: Env, node: Node, pools: seq<PoolBundle>, order: seq<nat>, ghost logs: seq<seq<Placed>>)
    returns (ghost after: seq<seq<Placed>>)
    requires Separate(pools) && |logs| == |pools|
    requires forall a :: 0 <= a < |order| ==> order[a] < |pools|
    modifies Footprint(pools)
    ensures Separate(pools) && Footprint(pools) <= old(Footprint(pools)) && |after| == |pools|
    ensures States(ViewsOf(pools), after) == TryPools(env, States(old(ViewsOf(pools)), logs), node, order)
  {
    after := logs;
    ghost var start := States(ViewsOf(pools), logs);
    for i := 0 to |order|
      invariant Separate(pools) && Footprint(pools) <= old(Footprint(pools)) && |after| == |pools|
      invariant TryPools(env, States(ViewsOf(pools), after), node, order[i..]) == TryPools(env, start, node, order)
    {
      var ok;
      ok, after := TryAt(env, node, pools, order[i], after);
      if ok {
        return;
      }
    }
  }

  /** One turn of the loop. */
  method TryAt(env: Env, node: Node, pools: seq<PoolBundle>, k: nat, ghost logs: seq<seq<Placed>>)
    returns (ok: bool, ghost after: seq<seq<Placed>>)
    requires Separate(pools) && |logs| == |pools| && k < |pools|
    modifies Footprint(pools)
    ensures Separate(pools) && Footprint(pools) <= old(Footprint(pools)) && |after| == |pools|
    ensures States(ViewsOf(pools), after) == AfterTry(env, States(old(ViewsOf(pools)), logs), node, k)
    ensures ok <==> env.saves(node, k) && PlaceAll(env.select, old(pools[k].SiteOf()), node.volumes).Success?
  {
    ghost var r := PlaceAll(env.select, pools[k].SiteOf(), node.volumes);
    InFootprint(pools, k);
    ok := PlaceAt(env.select, node, pools, k, env.saves(node, k));
    after := logs;
    if r.Success? {
      after := logs[k := logs[k] + r.value.1];
    }
  }

  lemma InFootprint(pools: seq<PoolBundle>, k: nat)
    requires k < |pools|
    ensures pools[k] in Footprint(pools)
    ensures forall sp :: sp in pools[k].stores ==> sp in Footprint(pools)
    ensures forall d :: d in pools[k].volumes ==> d in Footprint(pools)
  {
    assert pools[k] in pools;
  }

  /** Schedules the nodes in order. The history says, turn by turn, which pool took each
      node and what became of every pool. */
  method ScheduleOnPools(env: Env, nodes: seq<Node>, pools: seq<PoolBundle>)
    returns (ghost logs: seq<seq<Placed>>, ghost h: History)
    requires Separate(pools) && RankingOk(env.rank)
    modifies Footprint(pools)
    ensures Separate(pools) && |logs| == |pools|
    ensures States(ViewsOf(pools), logs) ==
            Schedule(env, States(old(ViewsOf(pools)), seq(|pools|, i => [])), nodes)
    ensures IsHistory(env, nodes, h) && h.states[|nodes|] == States(ViewsOf(pools), logs)
    ensures h.states[0] == States(old(ViewsOf(pools)), seq(|pools|, i => []))
  {
    logs := seq(|pools|, i => []);
    ghost var start := States(ViewsOf(pools), logs);
    for i := 0 to |nodes|
      invariant Separate(pools) && Footprint(pools) <= old(Footprint(pools)) && |logs| == |pools|
      invariant States(ViewsOf(pools), logs) == Schedule(env, start, nodes[..i])
    {
      assert nodes[..i + 1][..i] == nodes[..i];
      ghost var before := States(ViewsOf(pools), logs);
      assert Views(before) == ViewsOf(pools);
      var order := env.rank(nodes[i], ViewsOf(pools));
      assert Eligible(nodes[i], ViewsOf(pools), order);
      logs := TryInOrder(env, nodes[i], pools, order, logs);
    }
    assert nodes[..|nodes|] == nodes;
    h := ScheduleIsHistory(env, start, nodes);
  }
}
