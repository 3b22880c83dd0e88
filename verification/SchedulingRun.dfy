/** A whole scheduling run over several machine pools: every node is tried on the eligible
    pools in weight order, and saving the result may fail
    (exordos_core/compute/scheduler/service.py, `_schedule_on_pools`). */
module SchedulingRun {
  import opened Wrappers
  import opened Placement

  datatype Node = Node(uuid: int, cores: nat, ram: nat, volumes: seq<Volume>)

  /** A machine pool as filters and weighters see it. */
  datatype PoolView = PoolView(site: Site, cores: int, ram: int)

  /** A machine pool during the run, with every volume placed on it so far. */
  datatype PoolState = PoolState(view: PoolView, placed: seq<Placed>)

  /** Filters and weighters: the indices of the eligible pools, best first. */
  type Ranking = (Node, seq<PoolView>) -> seq<nat>

  /** The filters keep only pools with enough cores and memory. */
  ghost predicate RankingOk(rank: Ranking)
  {
    forall node: Node, pools: seq<PoolView> :: Eligible(node, pools, rank(node, pools))
  }

  predicate Eligible(node: Node, pools: seq<PoolView>, order: seq<nat>)
  {
    forall a :: 0 <= a < |order| ==>
      order[a] < |pools| && pools[order[a]].cores >= node.cores && pools[order[a]].ram >= node.ram
  }

  function Views(pools: seq<PoolState>): (r: seq<PoolView>)
    ensures |r| == |pools| && forall i :: 0 <= i < |pools| ==> r[i] == pools[i].view
  {
    seq(|pools|, i requires 0 <= i < |pools| => pools[i].view)
  }

  /** The choices of the environment: the SDK's pool selection, filters and weights, and
      whether saving a placed node succeeds. */
  datatype Env = Env(select: Selector, rank: Ranking, saves: (Node, nat) -> bool)

  ghost function Charged(env: Env, pool: PoolState, node: Node): PoolState
    requires PlaceAll(env.select, pool.view.site, node.volumes).Success?
  {
    var (site, placed) := PlaceAll(env.select, pool.view.site, node.volumes).value;
    PoolState(pool.view.(site := site), pool.placed + placed)
  }

  function Taken(view: PoolView, node: Node): PoolView
  {
    view.(cores := view.cores - node.cores, ram := view.ram - node.ram)
  }

  /** Tries the pools in order until the node is placed and saved. A placement that could
      not be saved stays charged. */
  ghost function TryPools(env: Env, pools: seq<PoolState>, node: Node, order: seq<nat>): (r: seq<PoolState>)
    requires forall a :: 0 <= a < |order| ==> order[a] < |pools|
    ensures |r| == |pools|
    decreases |order|
  {
    if order == [] then pools
    else
      var k := order[0];
      if PlaceAll(env.select, pools[k].view.site, node.volumes).Failure? then TryPools(env, pools, node, order[1..])
      else
        var c := Charged(env, pools[k], node);
        if env.saves(node, k) then pools[k := c.(view := Taken(c.view, node))]
        else TryPools(env, pools[k := c], node, order[1..])
  }

  /** One turn of the loop over the pools in order. */
  ghost function AfterTry(env: Env, pools: seq<PoolState>, node: Node, k: nat): seq<PoolState>
    requires k < |pools|
  {
    if PlaceAll(env.select, pools[k].view.site, node.volumes).Failure? then pools
    else
      var c := Charged(env, pools[k], node);
      pools[k := if env.saves(node, k) then c.(view := Taken(c.view, node)) else c]
  }

  ghost function Schedule(env: Env, pools: seq<PoolState>, nodes: seq<Node>): (r: seq<PoolState>)
    requires RankingOk(env.rank)
    ensures |r| == |pools|
  {
    if nodes == [] then pools
    else
      var before := Schedule(env, pools, nodes[..|nodes| - 1]);
      var node := nodes[|nodes| - 1];
      TryPools(env, before, node, env.rank(node, Views(before)))
  }

  // ------------------------------------------------------------------
  // What a run conserves
  // ------------------------------------------------------------------

  /** From `a` to `b`, on every storage pool: provisioned minus the idle and the placed
      sizes is the same, and every idle volume is still idle or was reused once. */
  ghost predicate Conserved(a: PoolState, b: PoolState)
  {
    && SameStores(a.view.site.stores, b.view.site.stores)
    && (forall p: nat :: p < |a.view.site.stores| ==>
          Balance(b.view.site, p) - PlacedOn(b.placed, p) == Balance(a.view.site, p) - PlacedOn(a.placed, p))
    && (forall u :: IdleCount(b.view.site.idle, u) + ReusedCount(b.placed, u) ==
                    IdleCount(a.view.site.idle, u) + ReusedCount(a.placed, u))
  }

  /** Nothing available is negative. */
  ghost predicate InCredit(a: PoolState)
  {
    NotOverdrawn(a.view.site.stores) && a.view.cores >= 0 && a.view.ram >= 0
  }

  lemma {:induction false} PlacedOnConcat(a: seq<Placed>, b: seq<Placed>, p: nat)
    ensures PlacedOn(a + b, p) == PlacedOn(a, p) + PlacedOn(b, p)
  {
    if b == [] {
      assert a + b == a;
    } else {
      var n := |b| - 1;
      PlacedOnConcat(a, b[..n], p);
      assert a + b == (a + b[..n]) + [b[n]];
    }
  }

  lemma {:induction false} ReusedCountConcat(a: seq<Placed>, b: seq<Placed>, uuid: int)
    ensures ReusedCount(a + b, uuid) == ReusedCount(a, uuid) + ReusedCount(b, uuid)
  {
    if b == [] {
      assert a + b == a;
    } else {
      var n := |b| - 1;
      ReusedCountConcat(a, b[..n], uuid);
      assert a + b == (a + b[..n]) + [b[n]];
    }
  }

  lemma ChargedConserves(env: Env, pool: PoolState, node: Node)
    requires PlaceAll(env.select, pool.view.site, node.volumes).Success?
    ensures Conserved(pool, Charged(env, pool, node))
    ensures SelectorOk(env.select) && InCredit(pool) ==> InCredit(Charged(env, pool, node))
  {
    var (site, placed) := PlaceAll(env.select, pool.view.site, node.volumes).value;
    var c := Charged(env, pool, node);
    PlacedStores(env.select, pool.view.site, node.volumes);
    forall p: nat | p < |pool.view.site.stores|
      ensures Balance(c.view.site, p) - PlacedOn(c.placed, p) == Balance(pool.view.site, p) - PlacedOn(pool.placed, p)
    {
      PlaceAllConserves(env.select, pool.view.site, node.volumes, p);
      PlacedOnConcat(pool.placed, placed, p);
    }
    forall u
      ensures IdleCount(c.view.site.idle, u) + ReusedCount(c.placed, u) ==
              IdleCount(pool.view.site.idle, u) + ReusedCount(pool.placed, u)
    {
      OwnersAreDisjoint(env.select, pool.view.site, node.volumes, u);
      ReusedCountConcat(pool.placed, placed, u);
    }
    if SelectorOk(env.select) && InCredit(pool) { PlaceAllKeepsRoom(env.select, pool.view.site, node.volumes); }
  }

  lemma {:induction false} PlacedStores(select: Selector, s: Site, vs: seq<Volume>)
    requires PlaceAll(select, s, vs).Success?
    ensures SameStores(s.stores, PlaceAll(select, s, vs).value.0.stores)
  {
    if vs != [] { PlacedStores(select, s, vs[..|vs| - 1]); }
  }

  lemma {:induction false} TryConserves(env: Env, pools: seq<PoolState>, node: Node, order: seq<nat>, i: nat)
    requires i < |pools|
    requires Eligible(node, Views(pools), order)
    ensures Conserved(pools[i], TryPools(env, pools, node, order)[i])
    ensures SelectorOk(env.select) && InCredit(pools[i]) ==> InCredit(TryPools(env, pools, node, order)[i])
    decreases |order|
  {
    if order != [] {
      var k := order[0];
      if PlaceAll(env.select, pools[k].view.site, node.volumes).Failure? {
        TryConserves(env, pools, node, order[1..], i);
      } else {
        ChargedConserves(env, pools[k], node);
        var c := Charged(env, pools[k], node);
        if !env.saves(node, k) {
          var charged := pools[k := c];
          TryConserves(env, charged, node, order[1..], i);
        }
      }
    }
  }

  /** Over any run, whatever the filters, weights, selections and failed saves: on every
      storage pool, provisioned capacity minus the sizes of its idle volumes and of the
      volumes placed there never changes; no idle volume gets two owners; and neither
      available capacity nor cores nor memory ever becomes negative. */
  lemma {:induction false} RunConserves(env: Env, pools: seq<PoolState>, nodes: seq<Node>, i: nat)
    requires RankingOk(env.rank) && i < |pools|
    ensures Conserved(pools[i], Schedule(env, pools, nodes)[i])
    ensures SelectorOk(env.select) && InCredit(pools[i]) ==> InCredit(Schedule(env, pools, nodes)[i])
  {
    if nodes != [] {
      var n := |nodes| - 1;
      RunConserves(env, pools, nodes[..n], i);
      var before := Schedule(env, pools, nodes[..n]);
      TryConserves(env, before, nodes[n], env.rank(nodes[n], Views(before)), i);
    }
  }

  /** An idle volume whose id is unique is reused at most once in a run, and is then no
      longer idle. */
  lemma NoTwoOwners(env: Env, pools: seq<PoolState>, nodes: seq<Node>, i: nat, uuid: int)
    requires RankingOk(env.rank) && i < |pools|
    requires pools[i].placed == [] && IdleCount(pools[i].view.site.idle, uuid) <= 1
    ensures var r := Schedule(env, pools, nodes)[i];
            ReusedCount(r.placed, uuid) + IdleCount(r.view.site.idle, uuid) <= 1
  {
    RunConserves(env, pools, nodes, i);
  }

  // ------------------------------------------------------------------
  // Where each node goes
  // ------------------------------------------------------------------

  /** The pool has room for every volume of the node, and the placement can be saved. */
  ghost predicate Takes(env: Env, pools: seq<PoolState>, node: Node, k: nat)
    requires k < |pools|
  {
    PlaceAll(env.select, pools[k].view.site, node.volumes).Success? && env.saves(node, k)
  }

  /** The pool in the order that takes the node, before every other one that would. */
  ghost predicate FirstTaker(env: Env, pools: seq<PoolState>, node: Node, order: seq<nat>, a: nat)
    requires forall b :: 0 <= b < |order| ==> order[b] < |pools|
  {
    a < |order| && Takes(env, pools, node, order[a]) &&
    forall b :: 0 <= b < a ==> !Takes(env, pools, node, order[b])
  }

  /** The node's volumes are placed on the pool: its log grows by them, in order, and its
      storage pools and idle volumes are as the placement leaves them. */
  ghost predicate Receives(env: Env, before: PoolState, node: Node, after: PoolState)
  {
    && PlaceAll(env.select, before.view.site, node.volumes).Success?
    && after.view.site == PlaceAll(env.select, before.view.site, node.volumes).value.0
    && |after.placed| == |before.placed| + |node.volumes| && before.placed <= after.placed
    && forall j :: 0 <= j < |node.volumes| ==> after.placed[|before.placed| + j].volume == node.volumes[j]
  }

  ghost predicate SameCredit(before: PoolState, after: PoolState)
  {
    after.view.cores == before.view.cores && after.view.ram == before.view.ram
  }

  /** The taker receives the node, and loses its cores and memory. */
  ghost predicate TakenOn(env: Env, before: PoolState, node: Node, after: PoolState)
  {
    && Receives(env, before, node, after)
    && after.view.cores == before.view.cores - node.cores && after.view.ram == before.view.ram - node.ram
  }

  /** A pool that does not take the node loses no cores and no memory. It is unchanged if it
      was not tried or has no room; one that was tried and could not be saved stays charged. */
  ghost predicate Bystander(env: Env, before: PoolState, node: Node, after: PoolState, tried: bool, once: bool)
  {
    && SameCredit(before, after)
    && (!tried || PlaceAll(env.select, before.view.site, node.volumes).Failure? ==> after == before)
    && (tried && once && PlaceAll(env.select, before.view.site, node.volumes).Success? ==>
          Receives(env, before, node, after))
  }

  /** One node's turn: the first pool in the order that takes it receives it, and every other
      pool stands by; if no pool takes it, it is placed nowhere. */
  ghost predicate Turn(env: Env, before: seq<PoolState>, node: Node, order: seq<nat>, after: seq<PoolState>,
                       taker: Option<nat>)
    requires forall b :: 0 <= b < |order| ==> order[b] < |before|
  {
    && |after| == |before|
    && (if taker.Some? then
          FirstTaker(env, before, node, order, taker.value) &&
          TakenOn(env, before[order[taker.value]], node, after[order[taker.value]])
        else forall b :: 0 <= b < |order| ==> !Takes(env, before, node, order[b]))
    && forall i: nat :: i < |before| && (taker.Some? ==> i != order[taker.value]) ==>
         Bystander(env, before[i], node, after[i], i in Tried(order, taker), Once(order))
  }

  /** The pools that were tried: up to the taker, or all. */
  function Tried(order: seq<nat>, taker: Option<nat>): seq<nat>
  {
    if taker.Some? && taker.value < |order| then order[..taker.value] else order
  }

  /** No pool is ranked twice. */
  ghost predicate Once(order: seq<nat>)
  {
    forall a, b :: 0 <= a < b < |order| ==> order[a] != order[b]
  }

  lemma ChargedReceives(env: Env, pool: PoolState, node: Node)
    requires PlaceAll(env.select, pool.view.site, node.volumes).Success?
    ensures Receives(env, pool, node, Charged(env, pool, node)) && SameCredit(pool, Charged(env, pool, node))
  {
    PlacedVolumes(env.select, pool.view.site, node.volumes);
  }

  lemma {:induction false} PlacedVolumes(select: Selector, s: Site, vs: seq<Volume>)
    requires PlaceAll(select, s, vs).Success?
    ensures var placed := PlaceAll(select, s, vs).value.1;
            |placed| == |vs| && forall k :: 0 <= k < |vs| ==> placed[k].volume == vs[k]
  {
    if vs != [] { PlacedVolumes(select, s, vs[..|vs| - 1]); }
  }

  lemma TakenFirst(env: Env, pools: seq<PoolState>, node: Node, order: seq<nat>)
    requires order != [] && forall b :: 0 <= b < |order| ==> order[b] < |pools|
    requires Takes(env, pools, node, order[0])
    ensures Turn(env, pools, node, order, TryPools(env, pools, node, order), Some(0))
  {
    ChargedReceives(env, pools[order[0]], node);
  }

  /** A pool that does not take the node stands by at its own turn. */
  lemma TriedInVain(env: Env, pools: seq<PoolState>, node: Node, k: nat)
    requires k < |pools| && !Takes(env, pools, node, k)
    ensures var next := AfterTry(env, pools, node, k);
            && |next| == |pools| && (forall i :: 0 <= i < |pools| && i != k ==> next[i] == pools[i])
            && Bystander(env, pools[k], node, next[k], true, true)
            && forall i: nat :: i < |pools| ==> (Takes(env, next, node, i) ==> i != k)
  {
    if PlaceAll(env.select, pools[k].view.site, node.volumes).Success? { ChargedReceives(env, pools[k], node); }
  }

  lemma StandsByTwice(env: Env, before: PoolState, mid: PoolState, after: PoolState, node: Node, again: bool,
                      onceLater: bool, once: bool)
    requires Bystander(env, before, node, mid, true, true) && Bystander(env, mid, node, after, again, onceLater)
    requires once ==> !again
    ensures Bystander(env, before, node, after, true, once)
  {
  }

  /** Whoever takes the node later takes it in the whole order, too. */
  lemma TakerLater(env: Env, pools: seq<PoolState>, node: Node, order: seq<nat>, later: Option<nat>)
    requires order != [] && forall b :: 0 <= b < |order| ==> order[b] < |pools|
    requires !Takes(env, pools, node, order[0])
    ensures var next := AfterTry(env, pools, node, order[0]);
            if later.Some? then
              FirstTaker(env, next, node, order[1..], later.value) ==>
                FirstTaker(env, pools, node, order, later.value + 1) &&
                order[later.value + 1] != order[0] && next[order[later.value + 1]] == pools[order[later.value + 1]]
            else
              (forall b :: 0 <= b < |order| - 1 ==> !Takes(env, next, node, order[1..][b])) ==>
                forall b :: 0 <= b < |order| ==> !Takes(env, pools, node, order[b])
  {
    var next := AfterTry(env, pools, node, order[0]);
    TriedInVain(env, pools, node, order[0]);
    forall b | 0 <= b < |order| - 1
      ensures Takes(env, next, node, order[1..][b]) <==> Takes(env, pools, node, order[b + 1]) {
      assert order[1..][b] == order[b + 1];
    }
    if later.Some? && FirstTaker(env, next, node, order[1..], later.value) {
      forall b | 0 <= b < later.value + 1 ensures !Takes(env, pools, node, order[b]) {
        if b > 0 { assert !Takes(env, next, node, order[1..][b - 1]); }
      }
    }
    if later.None? && forall b :: 0 <= b < |order| - 1 ==> !Takes(env, next, node, order[1..][b]) {
      forall b | 0 <= b < |order| ensures !Takes(env, pools, node, order[b]) {
        if b > 0 { assert !Takes(env, next, node, order[1..][b - 1]); }
      }
    }
  }

  lemma BystanderLater(env: Env, pools: seq<PoolState>, node: Node, order: seq<nat>, after: PoolState,
                       later: Option<nat>, i: nat)
    requires order != [] && order[0] < |pools| && i < |pools| && !Takes(env, pools, node, order[0])
    requires Bystander(env, AfterTry(env, pools, node, order[0])[i], node, after, i in Tried(order[1..], later),
                       Once(order[1..]))
    ensures var taker := if later.Some? then Some(later.value + 1) else None;
            Bystander(env, pools[i], node, after, i in Tried(order, taker), Once(order))
  {
    var k, rest := order[0], order[1..];
    var taker := if later.Some? then Some(later.value + 1) else None;
    TriedInVain(env, pools, node, k);
    TriedNext(order, later);
    if i == k {
      var next := AfterTry(env, pools, node, k);
      StandsByTwice(env, pools[k], next[k], after, node, k in Tried(rest, later), Once(rest), Once(order));
    }
  }

  lemma TriedNext(order: seq<nat>, later: Option<nat>)
    requires order != []
    ensures var taker := if later.Some? then Some(later.value + 1) else None;
            Tried(order, taker) == [order[0]] + Tried(order[1..], later)
    ensures Once(order) ==> Once(order[1..]) && order[0] !in Tried(order[1..], later)
  {
  }

  lemma TakenLater(env: Env, pools: seq<PoolState>, node: Node, order: seq<nat>, after: seq<PoolState>,
                   later: Option<nat>)
    requires order != [] && forall b :: 0 <= b < |order| ==> order[b] < |pools|
    requires !Takes(env, pools, node, order[0])
    requires Turn(env, AfterTry(env, pools, node, order[0]), node, order[1..], after, later)
    ensures Turn(env, pools, node, order, after, if later.Some? then Some(later.value + 1) else None)
  {
    var taker := if later.Some? then Some(later.value + 1) else None;
    TakerLater(env, pools, node, order, later);
    forall i: nat | i < |pools| && (taker.Some? ==> i != order[taker.value])
      ensures Bystander(env, pools[i], node, after[i], i in Tried(order, taker), Once(order))
    {
      if later.Some? { assert order[taker.value] == order[1..][later.value]; }
      BystanderLater(env, pools, node, order, after[i], later, i);
    }
  }

  /** Trying the pools in order is a turn. */
  lemma {:induction false} TryIsTurn(env: Env, pools: seq<PoolState>, node: Node, order: seq<nat>)
    returns (taker: Option<nat>)
    requires forall b :: 0 <= b < |order| ==> order[b] < |pools|
    ensures Turn(env, pools, node, order, TryPools(env, pools, node, order), taker)
    decreases |order|
  {
    if order == [] {
      taker := None;
    } else if Takes(env, pools, node, order[0]) {
      TakenFirst(env, pools, node, order);
      taker := Some(0);
    } else {
      var next := AfterTry(env, pools, node, order[0]);
      var later := TryIsTurn(env, next, node, order[1..]);
      TakenLater(env, pools, node, order, TryPools(env, next, node, order[1..]), later);
      taker := if later.Some? then Some(later.value + 1) else None;
    }
  }

  // ------------------------------------------------------------------
  // A whole run, turn by turn
  // ------------------------------------------------------------------

  /** The states between the nodes' turns, and who took each node. */
  datatype History = History(states: seq<seq<PoolState>>, takers: seq<Option<nat>>)

  ghost predicate IsHistory(env: Env, nodes: seq<Node>, h: History)
  {
    && |h.states| == |nodes| + 1 && |h.takers| == |nodes|
    && forall n :: 0 <= n < |nodes| ==> IsTurn(env, h.states[n], nodes[n], h.states[n + 1], h.takers[n])
  }

  ghost predicate IsTurn(env: Env, before: seq<PoolState>, node: Node, after: seq<PoolState>, taker: Option<nat>)
  {
    var order := env.rank(node, Views(before));
    Eligible(node, Views(before), order) && Turn(env, before, node, order, after, taker)
  }

  /** The run is a sequence of turns in the order of the nodes. */
  lemma {:induction false} ScheduleIsHistory(env: Env, pools: seq<PoolState>, nodes: seq<Node>) returns (h: History)
    requires RankingOk(env.rank)
    ensures IsHistory(env, nodes, h) && h.states[0] == pools && h.states[|nodes|] == Schedule(env, pools, nodes)
  {
    if nodes == [] {
      h := History([pools], []);
    } else {
      var n := |nodes| - 1;
      var front := ScheduleIsHistory(env, pools, nodes[..n]);
      var before := front.states[n];
      var order := env.rank(nodes[n], Views(before));
      assert Eligible(nodes[n], Views(before), order);
      var taker := TryIsTurn(env, before, nodes[n], order);
      h := History(front.states + [TryPools(env, before, nodes[n], order)], front.takers + [taker]);
      forall k | 0 <= k < |nodes| ensures IsTurn(env, h.states[k], nodes[k], h.states[k + 1], h.takers[k]) {
        if k < n { assert IsTurn(env, front.states[k], nodes[..n][k], front.states[k + 1], front.takers[k]); }
      }
    }
  }

  /** The pool at the taker's place in the order, if there is a taker. */
  function TakenBy(env: Env, before: seq<PoolState>, node: Node, taker: Option<nat>): Option<nat>
  {
    var order := env.rank(node, Views(before));
    if taker.Some? && taker.value < |order| then Some(order[taker.value]) else None
  }

  /** Only the pool that takes the node loses its cores and memory. */
  ghost predicate CreditStep(env: Env, before: seq<PoolState>, node: Node, after: seq<PoolState>, taker: Option<nat>)
  {
    |after| == |before| &&
    forall i: nat :: i < |before| ==>
      if TakenBy(env, before, node, taker) == Some(i) then
        after[i].view.cores == before[i].view.cores - node.cores && after[i].view.ram == before[i].view.ram - node.ram
      else SameCredit(before[i], after[i])
  }

  lemma TurnIsCreditStep(env: Env, before: seq<PoolState>, node: Node, after: seq<PoolState>, taker: Option<nat>)
    requires IsTurn(env, before, node, after, taker)
    ensures CreditStep(env, before, node, after, taker)
  {
  }

  ghost predicate Steps(env: Env, nodes: seq<Node>, h: History)
  {
    && |h.states| == |nodes| + 1 && |h.takers| == |nodes|
    && forall n :: 0 <= n < |nodes| ==> CreditStep(env, h.states[n], nodes[n], h.states[n + 1], h.takers[n])
  }

  /** The cores, and the memory, of the first `n` nodes that went to pool `i`. */
  function Used(env: Env, nodes: seq<Node>, h: History, n: nat, i: nat): (int, int)
    requires n <= |nodes| && |h.states| == |nodes| + 1 && |h.takers| == |nodes|
  {
    if n == 0 then (0, 0)
    else
      var (cores, ram) := Used(env, nodes, h, n - 1, i);
      var node := nodes[n - 1];
      if TakenBy(env, h.states[n - 1], node, h.takers[n - 1]) == Some(i) then (cores + node.cores, ram + node.ram)
      else (cores, ram)
  }

  lemma {:induction false} StepsAddUp(env: Env, nodes: seq<Node>, h: History, n: nat, i: nat)
    requires Steps(env, nodes, h) && n <= |nodes| && i < |h.states[0]|
    ensures |h.states[n]| == |h.states[0]|
    ensures var (cores, ram) := Used(env, nodes, h, n, i);
            && h.states[n][i].view.cores == h.states[0][i].view.cores - cores
            && h.states[n][i].view.ram == h.states[0][i].view.ram - ram
  {
    if n > 0 {
      StepsAddUp(env, nodes, h, n - 1, i);
      assert CreditStep(env, h.states[n - 1], nodes[n - 1], h.states[n - 1 + 1], h.takers[n - 1]);
    }
  }

  /** Over a run every pool loses exactly the cores and the memory of the nodes it took. */
  lemma CreditAddsUp(env: Env, nodes: seq<Node>, h: History, n: nat, i: nat)
    requires IsHistory(env, nodes, h) && n <= |nodes| && i < |h.states[0]|
    ensures |h.states[n]| == |h.states[0]|
    ensures var (cores, ram) := Used(env, nodes, h, n, i);
            && h.states[n][i].view.cores == h.states[0][i].view.cores - cores
            && h.states[n][i].view.ram == h.states[0][i].view.ram - ram
  {
    forall k | 0 <= k < |nodes| ensures CreditStep(env, h.states[k], nodes[k], h.states[k + 1], h.takers[k]) {
      TurnIsCreditStep(env, h.states[k], nodes[k], h.states[k + 1], h.takers[k]);
    }
    StepsAddUp(env, nodes, h, n, i);
  }
}
