/** The reconcile pass of the network service over a driver, and its convergence
    (exordos_core/network/service.py). */
module NetworkService {
  import opened Wrappers
  import opened FlatDriver

  /** What a network should look like: each subnet by id, with its ports by id. */
  datatype TargetSubnet = TargetSubnet(subnet: Subnet, ports: map<int, Port>)

  type Target = map<int, TargetSubnet>

  ghost predicate Keyed(ports: map<int, Port>, subnet: int)
  {
    forall id :: id in ports ==> ports[id].uuid == id && ports[id].subnet == subnet
  }

  ghost predicate IsTarget(t: Target)
  {
    forall u :: u in t ==> t[u].subnet.uuid == u && Keyed(t[u].ports, u)
  }

  ghost function PortIds(ports: seq<Port>): set<int>
  {
    set p | p in ports :: p.uuid
  }

  predicate SameSettings(a: Subnet, b: Subnet)
  {
    a.cidr == b.cidr && a.nextServer == b.nextServer
  }

  predicate SameAddress(a: Port, b: Port)
  {
    a.ipv4 == b.ipv4 && a.mask == b.mask
  }

  /** The wanted ports that the driver has already, at their address. */
  ghost function InPlace(ports: seq<Port>, wanted: map<int, Port>): set<int>
  {
    set p | p in ports && p.uuid in wanted && SameAddress(p, wanted[p.uuid]) :: p.uuid
  }

  // ------------------------------------------------------------------
  // One subnet
  // ------------------------------------------------------------------

  /** What a pass makes of a subnet that the driver had before. */
  ghost predicate SubnetPass(before: Entry, after: Entry, want: TargetSubnet)
  {
    && SameSettings(after.subnet, want.subnet)
    && PortIds(after.ports) ==
       (if SameSettings(before.subnet, want.subnet) then want.ports.Keys
        else want.ports.Keys - InPlace(before.ports, want.ports))
    && (forall p :: p in after.ports ==> p.uuid in want.ports && SameAddress(p, want.ports[p.uuid]))
  }

  /** Port lists by what they hold: one port per id. */
  ghost predicate Holds(ports: seq<Port>, m: map<int, Port>)
  {
    && (forall p :: p in ports ==> p.uuid in m && m[p.uuid] == p)
    && (forall id :: id in m ==> m[id] in ports && m[id].uuid == id)
  }

  lemma HoldsIds(ports: seq<Port>, m: map<int, Port>)
    requires Holds(ports, m)
    ensures PortIds(ports) == m.Keys
  {
    forall id | id in m ensures id in PortIds(ports) { assert m[id] in ports; }
  }

  method ById(ports: seq<Port>) returns (m: map<int, Port>)
    requires DistinctPorts(ports)
    ensures Holds(ports, m)
  {
    m := map[];
    for i := 0 to |ports|
      invariant Holds(ports[..i], m)
    {
      assert ports[..i + 1] == ports[..i] + [ports[i]];
      assert forall p :: p in ports[..i] ==> p.uuid != ports[i].uuid;
      m := m[ports[i].uuid := ports[i]];
    }
    assert ports[..|ports|] == ports;
  }

  /** The ports with the given ids. */
  method Pick(m: map<int, Port>, ids: set<int>) returns (ports: seq<Port>)
    requires ids <= m.Keys && forall id :: id in m ==> m[id].uuid == id
    ensures DistinctPorts(ports) && forall p :: p in ports <==> p.uuid in ids && p == m[p.uuid]
  {
    ports := InAnyOrder(set id | id in ids :: m[id]);
    assert forall i :: 0 <= i < |ports| ==> ports[i] in ports;
  }

  /** Wanted ports as the driver takes them over. */
  ghost function Taken(wanted: map<int, Port>, ids: set<int>): map<int, Port>
    requires ids <= wanted.Keys
  {
    map id | id in ids :: wanted[id].(status := Active)
  }

  /** Only the ports of one subnet may differ. */
  twostate predicate OnlyPorts(driver: FlatBridgeNetworkDriver, u: int)
    requires old(driver.Valid()) && driver.Valid()
    reads driver
  {
    && driver.Now().Keys == old(driver.Now().Keys)
    && (forall v :: v in driver.Now() && v != u ==> driver.Now()[v] == old(driver.Now())[v])
    && (u in driver.Now() ==> driver.Now()[u].subnet == old(driver.Now())[u].subnet)
  }

  ghost predicate DriverHolds(driver: FlatBridgeNetworkDriver, u: int, m: map<int, Port>)
    requires driver.Valid()
    reads driver
  {
    u in driver.Now() && Holds(driver.Now()[u].ports, m)
  }

  lemma HoldsGrown(ports: seq<Port>, m: map<int, Port>, more: seq<Port>, wanted: map<int, Port>, ids: set<int>)
    requires Holds(ports, m) && ids <= wanted.Keys && ids !! m.Keys
    requires forall id :: id in wanted ==> wanted[id].uuid == id
    requires forall p :: p in more <==> p.uuid in ids && p == wanted[p.uuid]
    ensures Holds(ports + Activated(more), m + Taken(wanted, ids))
  {
    var all, t := Activated(more), Taken(wanted, ids);
    forall p | p in all ensures p.uuid in t && t[p.uuid] == p {
      var i :| 0 <= i < |all| && all[i] == p;
      assert more[i] in more;
    }
    forall id | id in t ensures t[id] in all {
      assert wanted[id] in more;
      var i :| 0 <= i < |more| && more[i] == wanted[id];
      assert all[i] == t[id];
    }
    assert forall p :: p in ports + all <==> p in ports || p in all;
  }

  lemma PickedAreNew(pl: Plane, u: int, cur: map<int, Port>, wanted: map<int, Port>, had: map<int, Port>,
                     ports: seq<Port>)
    requires WellFormed(pl) && u in View(pl) && Holds(View(pl)[u].ports, cur) && cur.Keys <= had.Keys
    requires Keyed(wanted, u) && DistinctPorts(ports)
    requires forall p :: p in ports <==> p.uuid in wanted.Keys - had.Keys && p == wanted[p.uuid]
    ensures NewPorts(pl, u, ports)
  {
    InView(pl, u);
  }

  method CreateAll(driver: FlatBridgeNetworkDriver, u: int, ports: seq<Port>)
    requires driver.Valid() && u in driver.Now() && NewPorts(driver.Loaded(), u, ports)
    modifies driver
    ensures driver.Valid() && driver.Now() == Grown(old(driver.Now()), u, Activated(ports))
  {
    if ports != [] {
      var ok := driver.CreatePorts(ports, u);
    } else {
      assert Activated(ports) == [];
      GrownTwice(driver.Now(), u, [], []);
    }
  }

  method CreateMissing(driver: FlatBridgeNetworkDriver, u: int, wanted: map<int, Port>, had: map<int, Port>,
                       ghost cur: map<int, Port>)
    requires driver.Valid() && Keyed(wanted, u) && DriverHolds(driver, u, cur) && cur.Keys <= had.Keys
    modifies driver
    ensures driver.Valid() && OnlyPorts(driver, u)
    ensures DriverHolds(driver, u, cur + Taken(wanted, wanted.Keys - had.Keys))
  {
    var ids := wanted.Keys - had.Keys;
    var ports := Pick(wanted, ids);
    HoldsGrown(driver.Now()[u].ports, cur, ports, wanted, ids);
    PickedAreNew(driver.Loaded(), u, cur, wanted, had, ports);
    CreateAll(driver, u, ports);
  }

  method DropExtra(driver: FlatBridgeNetworkDriver, u: int, wanted: map<int, Port>, had: map<int, Port>,
                   ghost cur: map<int, Port>)
    requires driver.Valid() && Keyed(had, u) && DriverHolds(driver, u, cur)
    modifies driver
    ensures driver.Valid() && OnlyPorts(driver, u)
    ensures DriverHolds(driver, u, cur - (had.Keys - wanted.Keys))
  {
    var ids := had.Keys - wanted.Keys;
    var gone := Pick(had, ids);
    ghost var before := driver.Now()[u].ports;
    InView(driver.Loaded(), u);
    forall id ensures HasPort(gone, id) <==> id in ids {
      if id in ids { assert had[id] in gone; }
    }
    if gone != [] {
      PortsDistinct(driver.Loaded(), u);
      DropPortsLeaves(before, gone);
      driver.DeletePorts(gone, u);
    } else {
      assert ids == {} by {
        forall id ensures id !in ids { assert HasPort(gone, id) <==> id in ids; }
      }
      assert cur - ids == cur;
    }
  }

  lemma PortsDistinct(pl: Plane, u: int)
    requires WellFormed(pl)
    ensures u in View(pl) ==> DistinctPorts(View(pl)[u].ports) && forall p :: p in View(pl)[u].ports ==> p.subnet == u
  {
    InView(pl, u);
  }

  /** The common ports whose address differs. */
  ghost function Moved(wanted: map<int, Port>, had: map<int, Port>): set<int>
  {
    set id | id in wanted && id in had && !SameAddress(wanted[id], had[id])
  }

  /** A common port is updated if its address differs. */
  method UpdateIfMoved(driver: FlatBridgeNetworkDriver, target: Port, actual: Port, ghost cur: map<int, Port>)
    returns (ghost next: map<int, Port>)
    requires driver.Valid() && DriverHolds(driver, target.subnet, cur)
    modifies driver
    ensures driver.Valid() && OnlyPorts(driver, target.subnet) && DriverHolds(driver, target.subnet, next)
    ensures next == if SameAddress(target, actual) then cur else cur[target.uuid := target.(status := Active)]
  {
    next := cur;
    if target.ipv4 != actual.ipv4 || target.mask != actual.mask {
      PortsDistinct(driver.Loaded(), target.subnet);
      driver.UpdatePort(target);
      next := cur[target.uuid := target.(status := Active)];
    }
  }

  /** The moved ones among the first few. */
  ghost function MovedIn(common: seq<Port>, had: map<int, Port>): set<int>
  {
    set p | p in common && p.uuid in had && !SameAddress(p, had[p.uuid]) :: p.uuid
  }

  lemma MovedInSnoc(common: seq<Port>, p: Port, wanted: map<int, Port>, had: map<int, Port>, cur: map<int, Port>)
    requires MovedIn(common, had) <= wanted.Keys && p.uuid in wanted && wanted[p.uuid] == p && p.uuid in had
    ensures MovedIn(common + [p], had) <= wanted.Keys
    ensures cur + Taken(wanted, MovedIn(common + [p], had)) ==
            if SameAddress(p, had[p.uuid]) then cur + Taken(wanted, MovedIn(common, had))
            else (cur + Taken(wanted, MovedIn(common, had)))[p.uuid := p.(status := Active)]
  {
    assert forall q :: q in common + [p] <==> q in common || q == p;
    if SameAddress(p, had[p.uuid]) {
      assert MovedIn(common + [p], had) == MovedIn(common, had);
    } else {
      assert MovedIn(common + [p], had) == MovedIn(common, had) + {p.uuid};
    }
  }

  /** The ports after the first few were looked at. */
  ghost function Updated(common: seq<Port>, had: map<int, Port>, cur: map<int, Port>): map<int, Port>
    requires forall p :: p in common ==> p.uuid in had
  {
    if common == [] then cur
    else
      var front, p := common[..|common| - 1], common[|common| - 1];
      assert forall q :: q in front ==> q in common;
      if SameAddress(p, had[p.uuid]) then Updated(front, had, cur)
      else Updated(front, had, cur)[p.uuid := p.(status := Active)]
  }

  lemma {:induction false} UpdatedIs(common: seq<Port>, wanted: map<int, Port>, had: map<int, Port>,
                                     cur: map<int, Port>)
    requires forall p :: p in common ==> p.uuid in had && p.uuid in wanted && wanted[p.uuid] == p
    ensures MovedIn(common, had) <= wanted.Keys
    ensures Updated(common, had, cur) == cur + Taken(wanted, MovedIn(common, had))
  {
    if common == [] {
      assert MovedIn(common, had) == {} && cur + Taken(wanted, {}) == cur;
    } else {
      var front, p := common[..|common| - 1], common[|common| - 1];
      assert common == front + [p];
      UpdatedIs(front, wanted, had, cur);
      MovedInSnoc(front, p, wanted, had, cur);
    }
  }

  lemma MovedInAll(common: seq<Port>, wanted: map<int, Port>, had: map<int, Port>)
    requires forall id :: id in wanted ==> wanted[id].uuid == id
    requires forall p :: p in common <==> p.uuid in wanted && p.uuid in had && p == wanted[p.uuid]
    ensures MovedIn(common, had) == Moved(wanted, had)
  {
    forall id | id in Moved(wanted, had) ensures id in MovedIn(common, had) { assert wanted[id] in common; }
  }

  method UpdateCommon(driver: FlatBridgeNetworkDriver, u: int, wanted: map<int, Port>, had: map<int, Port>,
                      ghost cur: map<int, Port>)
    requires driver.Valid() && Keyed(wanted, u) && DriverHolds(driver, u, cur)
    modifies driver
    ensures driver.Valid() && OnlyPorts(driver, u)
    ensures DriverHolds(driver, u, cur + Taken(wanted, Moved(wanted, had)))
  {
    var common := Pick(wanted, had.Keys * wanted.Keys);
    MovedInAll(common, wanted, had);
    UpdatedIs(common, wanted, had, cur);
    ghost var next := cur;
    for i := 0 to |common|
      invariant next == Updated(common[..i], had, cur)
      invariant driver.Valid() && OnlyPorts(driver, u) && DriverHolds(driver, u, next)
    {
      assert common[i] in common && common[..i + 1][..i] == common[..i];
      next := UpdateIfMoved(driver, common[i], had[common[i].uuid], next);
    }
    assert common[..|common|] == common;
  }

  method ListedPorts(driver: FlatBridgeNetworkDriver, u: int) returns (m: map<int, Port>)
    requires driver.Valid() && u in driver.Now()
    modifies driver
    ensures driver.Valid() && driver.Now() == old(driver.Now()) && DriverHolds(driver, u, m) && Keyed(m, u)
  {
    InView(driver.Loaded(), u);
    PortsDistinct(driver.Loaded(), u);
    var listed := driver.ListPorts(u);
    m := ById(listed);
  }

  /** Changed settings replace the subnet, and its ports are gone for now. */
  method Settle(driver: FlatBridgeNetworkDriver, actual: Subnet, target: Subnet, ghost had: map<int, Port>)
    returns (ghost cur: map<int, Port>)
    requires driver.Valid() && DriverHolds(driver, target.uuid, had) && driver.Now()[target.uuid].subnet == actual
    modifies driver
    ensures driver.Valid() && driver.Now().Keys == old(driver.Now().Keys)
    ensures forall u :: u in driver.Now() && u != target.uuid ==> driver.Now()[u] == old(driver.Now())[u]
    ensures DriverHolds(driver, target.uuid, cur) && SameSettings(driver.Now()[target.uuid].subnet, target)
    ensures cur == if SameSettings(actual, target) then had else map[]
  {
    cur := had;
    if target.cidr != actual.cidr || target.nextServer != actual.nextServer {
      driver.UpdateSubnet(target);
      cur := map[];
    }
  }

  method ActualizeSubnet(driver: FlatBridgeNetworkDriver, actual: Subnet, target: Subnet, wanted: map<int, Port>)
    requires driver.Valid() && Keyed(wanted, target.uuid)
    requires target.uuid in driver.Now() && driver.Now()[target.uuid].subnet == actual
    modifies driver
    ensures driver.Valid() && driver.Now().Keys == old(driver.Now().Keys)
    ensures forall u :: u in driver.Now() && u != target.uuid ==> driver.Now()[u] == old(driver.Now())[u]
    ensures SubnetPass(old(driver.Now())[target.uuid], driver.Now()[target.uuid], TargetSubnet(target, wanted))
  {
    var u := target.uuid;
    ghost var start := driver.Now()[u];
    var had := ListedPorts(driver, u);
    ghost var cur := Settle(driver, actual, target, had);
    ghost var out := ActualizePorts(driver, u, wanted, had, cur);
    HoldsIds(driver.Now()[u].ports, out);
    Outcome(start, driver.Now()[u], TargetSubnet(target, wanted), had, cur, out);
  }

  method ActualizePorts(driver: FlatBridgeNetworkDriver, u: int, wanted: map<int, Port>, had: map<int, Port>,
                        ghost cur: map<int, Port>) returns (ghost out: map<int, Port>)
    requires driver.Valid() && Keyed(wanted, u) && Keyed(had, u) && DriverHolds(driver, u, cur) && cur.Keys <= had.Keys
    modifies driver
    ensures driver.Valid() && OnlyPorts(driver, u) && DriverHolds(driver, u, out)
    ensures out == (cur + Taken(wanted, wanted.Keys - had.Keys)) - (had.Keys - wanted.Keys)
                   + Taken(wanted, Moved(wanted, had))
  {
    CreateMissing(driver, u, wanted, had, cur);
    out := cur + Taken(wanted, wanted.Keys - had.Keys);
    DropExtra(driver, u, wanted, had, out);
    out := out - (had.Keys - wanted.Keys);
    UpdateCommon(driver, u, wanted, had, out);
    out := out + Taken(wanted, Moved(wanted, had));
  }

  /** The three changes to the ports, added up. */
  lemma Outcome(before: Entry, after: Entry, want: TargetSubnet, had: map<int, Port>, base: map<int, Port>,
                out: map<int, Port>)
    requires Holds(before.ports, had) && Holds(after.ports, out) && Keyed(want.ports, want.subnet.uuid)
    requires base == if SameSettings(before.subnet, want.subnet) then had else map[]
    requires SameSettings(after.subnet, want.subnet)
    requires var wanted := want.ports;
             out == (base + Taken(wanted, wanted.Keys - had.Keys)) - (had.Keys - wanted.Keys)
                     + Taken(wanted, Moved(wanted, had))
    ensures SubnetPass(before, after, want)
  {
    HoldsIds(after.ports, out);
    var wanted := want.ports;
    forall id ensures id in InPlace(before.ports, wanted) <==> id in had && id in wanted && id !in Moved(wanted, had) {
      if id in had && id in wanted && id !in Moved(wanted, had) {
        assert had[id] in before.ports;
      }
    }
    forall p | p in after.ports ensures p.uuid in wanted && SameAddress(p, wanted[p.uuid]) {
      assert out[p.uuid] == p;
    }
  }

  // ------------------------------------------------------------------
  // One network
  // ------------------------------------------------------------------

  /** What a whole pass makes of the driver's subnets. */
  ghost predicate Pass(before: map<int, Entry>, after: map<int, Entry>, t: Target)
  {
    && after.Keys == t.Keys
    && (forall u :: u in t && u in before ==> SubnetPass(before[u], after[u], t[u]))
    && (forall u :: u in t && u !in before ==> after[u] == Entry(t[u].subnet, []))
  }

  /** The subnets of a view, by id. */
  ghost predicate Lists(m: map<int, Subnet>, view: map<int, Entry>)
  {
    m.Keys == view.Keys && forall u :: u in m ==> m[u] == view[u].subnet && m[u].uuid == u
  }

  method SubnetsById(subnets: seq<Subnet>, ghost pl: Plane) returns (m: map<int, Subnet>)
    requires WellFormed(pl) && pl.subnets == subnets
    ensures Lists(m, View(pl))
  {
    m := map[];
    for i := 0 to |subnets|
      invariant forall k :: 0 <= k < i ==> subnets[k].uuid in m && m[subnets[k].uuid] == subnets[k]
      invariant forall u :: u in m ==> m[u] in subnets && m[u].uuid == u
    {
      m := m[subnets[i].uuid := subnets[i]];
    }
    ViewIsView(pl);
    var view := View(pl);
    forall u ensures u in m <==> u in view {
      if u in view { assert view[u].subnet in subnets; }
    }
    forall u | u in m ensures m[u] == view[u].subnet { assert m[u] in subnets; }
  }

  method CreateOne(driver: FlatBridgeNetworkDriver, s: Subnet)
    requires driver.Valid() && s.uuid !in driver.Now()
    modifies driver
    ensures driver.Valid() && driver.Now() == old(driver.Now())[s.uuid := Entry(s, [])]
  {
    InView(driver.Loaded(), s.uuid);
    var ok := driver.CreateSubnet(s);
  }

  method CreateSubnets(driver: FlatBridgeNetworkDriver, t: Target, actual: map<int, Subnet>)
    requires driver.Valid() && IsTarget(t) && Lists(actual, driver.Now())
    modifies driver
    ensures driver.Valid() && driver.Now().Keys == t.Keys + actual.Keys
    ensures forall u :: u in actual ==> driver.Now()[u] == old(driver.Now())[u]
    ensures forall u :: u in t && u !in actual ==> driver.Now()[u] == Entry(t[u].subnet, [])
  {
    var missing := InAnyOrder(set u | u in t && u !in actual :: t[u].subnet);
    ghost var start := driver.Now();
    forall k | 0 <= k < |missing|
      ensures missing[k].uuid in t && missing[k].uuid !in actual && t[missing[k].uuid].subnet == missing[k]
    {
      assert missing[k] in missing;
    }
    for i := 0 to |missing|
      invariant driver.Valid() && actual.Keys <= driver.Now().Keys
      invariant forall u :: u in actual ==> driver.Now()[u] == start[u]
      invariant forall k :: 0 <= k < i ==> missing[k].uuid in driver.Now()
      invariant forall k :: i <= k < |missing| ==> missing[k].uuid !in driver.Now()
      invariant forall u :: u in driver.Now() && u !in actual ==> u in t && driver.Now()[u] == Entry(t[u].subnet, [])
    {
      CreateOne(driver, missing[i]);
    }
    forall u | u in t && u !in actual ensures u in driver.Now() {
      assert t[u].subnet in missing;
      var k :| 0 <= k < |missing| && missing[k] == t[u].subnet;
    }
    AllKeys(driver.Now(), t, actual);
  }

  lemma AllKeys(view: map<int, Entry>, t: Target, actual: map<int, Subnet>)
    requires forall u :: u in view ==> u in t || u in actual
    requires forall u :: u in t && u !in actual ==> u in view
    requires forall u :: u in actual ==> u in view
    ensures view.Keys == t.Keys + actual.Keys
  {
    assert forall u :: u in view.Keys <==> u in t.Keys + actual.Keys;
  }

  lemma WithoutKeys(view: map<int, Entry>, start: map<int, Entry>, gone: set<int>)
    requires forall u :: u in view ==> u in start && view[u] == start[u]
    requires forall u :: u in start && u !in view ==> u in gone
    requires forall u :: u in gone ==> u !in view
    ensures view == start - gone
  {
    assert forall u :: u in view <==> u in start - gone;
    assert forall u :: u in view ==> view[u] == (start - gone)[u];
  }

  /** The subnets to delete are those whose ids the target lacks. */
  lemma ExtraIds(extra: seq<Subnet>, actual: map<int, Subnet>, kept: set<int>)
    requires forall u :: u in actual ==> actual[u].uuid == u
    requires forall s :: s in extra <==> s in set u | u in actual && u !in kept :: actual[u]
    ensures forall k :: 0 <= k < |extra| ==> extra[k].uuid in actual.Keys - kept
    ensures forall u :: u in actual.Keys - kept ==> exists k :: 0 <= k < |extra| && extra[k].uuid == u
  {
    forall k | 0 <= k < |extra| ensures extra[k].uuid in actual.Keys - kept {
      assert extra[k] in extra;
    }
    forall u | u in actual.Keys - kept ensures exists k :: 0 <= k < |extra| && extra[k].uuid == u {
      assert actual[u] in extra;
    }
  }

  method DeleteSubnets(driver: FlatBridgeNetworkDriver, t: Target, actual: map<int, Subnet>)
    requires driver.Valid() && forall u :: u in actual ==> actual[u].uuid == u
    modifies driver
    ensures driver.Valid() && driver.Now() == old(driver.Now()) - (actual.Keys - t.Keys)
  {
    var extra := InAnyOrder(set u | u in actual && u !in t :: actual[u]);
    ghost var start, gone := driver.Now(), actual.Keys - t.Keys;
    ExtraIds(extra, actual, t.Keys);
    for i := 0 to |extra|
      invariant driver.Valid()
      invariant forall u :: u in driver.Now() ==> u in start && driver.Now()[u] == start[u]
      invariant forall u :: u in start && u !in driver.Now() ==> u in gone
      invariant forall k :: 0 <= k < i ==> extra[k].uuid !in driver.Now()
    {
      driver.DeleteSubnet(extra[i]);
    }
    WithoutKeys(driver.Now(), start, gone);
  }

  method ActualizeSubnets(driver: FlatBridgeNetworkDriver, t: Target, actual: map<int, Subnet>)
    requires driver.Valid() && IsTarget(t) && driver.Now().Keys == t.Keys
    requires forall u :: u in actual && u in t ==> driver.Now()[u].subnet == actual[u] && actual[u].uuid == u
    modifies driver
    ensures driver.Valid() && driver.Now().Keys == t.Keys
    ensures forall u :: u in t && u !in actual ==> driver.Now()[u] == old(driver.Now())[u]
    ensures forall u :: u in t && u in actual ==> SubnetPass(old(driver.Now())[u], driver.Now()[u], t[u])
  {
    var common := set u | u in actual && u in t :: actual[u];
    while common != {}
      invariant common <= set u | u in actual && u in t :: actual[u]
      invariant driver.Valid() && driver.Now().Keys == t.Keys
      invariant forall u :: u in t && u !in actual ==> driver.Now()[u] == old(driver.Now())[u]
      invariant forall u :: u in t && u in actual && actual[u] in common ==> driver.Now()[u] == old(driver.Now())[u]
      invariant forall u :: u in t && u in actual && actual[u] !in common ==>
                  SubnetPass(old(driver.Now())[u], driver.Now()[u], t[u])
      decreases |common|
    {
      var s :| s in common;
      ActualizeSubnet(driver, s, t[s.uuid].subnet, t[s.uuid].ports);
      assert TargetSubnet(t[s.uuid].subnet, t[s.uuid].ports) == t[s.uuid];
      common := common - {s};
    }
    assert forall u :: u in t && u in actual ==> actual[u] !in common;
  }

  method ActualizeNetwork(driver: FlatBridgeNetworkDriver, t: Target)
    requires driver.Valid() && IsTarget(t)
    modifies driver
    ensures driver.Valid() && Pass(old(driver.Now()), driver.Now(), t)
  {
    var subnets := driver.ListSubnets();
    var actual := SubnetsById(subnets, driver.Loaded());
    CreateSubnets(driver, t, actual);
    DeleteSubnets(driver, t, actual);
    ActualizeSubnets(driver, t, actual);
  }

  // ------------------------------------------------------------------
  // Convergence
  // ------------------------------------------------------------------

  /** The driver has the target's subnets, with their settings and port ids. */
  ghost predicate Converged(view: map<int, Entry>, t: Target)
  {
    && view.Keys == t.Keys
    && forall u :: u in t ==> SameSettings(view[u].subnet, t[u].subnet) && PortIds(view[u].ports) == t[u].ports.Keys
  }

  /** Two targets configured alike: only port addresses and states may differ, which the
      service itself writes back from the driver. */
  ghost predicate SameConfiguration(t: Target, v: Target)
  {
    && t.Keys == v.Keys
    && forall u :: u in t ==> SameSettings(t[u].subnet, v[u].subnet) && t[u].ports.Keys == v[u].ports.Keys
  }

  /** Which targets one pass reaches: nothing is to be done that takes a second pass, as
      the ports of a new subnet do, and those in place in a subnet whose settings change. */
  ghost predicate OnePassEnough(view: map<int, Entry>, t: Target)
  {
    forall u :: u in t ==>
      if u !in view then t[u].ports.Keys == {}
      else SameSettings(view[u].subnet, t[u].subnet) || InPlace(view[u].ports, t[u].ports) == {}
  }

  lemma OnePassIff(before: map<int, Entry>, after: map<int, Entry>, t: Target)
    requires Pass(before, after, t)
    ensures Converged(after, t) <==> OnePassEnough(before, t)
  {
    forall u | u in t
      ensures SameSettings(after[u].subnet, t[u].subnet)
      ensures PortIds(after[u].ports) == t[u].ports.Keys <==>
              if u !in before then t[u].ports.Keys == {}
              else SameSettings(before[u].subnet, t[u].subnet) || InPlace(before[u].ports, t[u].ports) == {}
    {
      if u in before {
        var kept := InPlace(before[u].ports, t[u].ports);
        assert kept <= t[u].ports.Keys;
        assert t[u].ports.Keys - kept == t[u].ports.Keys <==> kept == {} by {
          if kept != {} { var k := PickFrom(kept); assert k !in t[u].ports.Keys - kept; }
        }
      } else {
        assert after[u].ports == [];
      }
    }
  }

  /** Passes from any state of the driver, under targets configured alike. */
  ghost predicate IsHistory(views: seq<map<int, Entry>>, targets: seq<Target>)
  {
    && |views| == |targets| + 1
    && (forall i :: 0 <= i < |targets| ==> Pass(views[i], views[i + 1], targets[i]))
    && (forall i, j :: 0 <= i < |targets| && 0 <= j < |targets| ==> SameConfiguration(targets[i], targets[j]))
  }

  /** Two passes are always enough, and later ones keep what they reached. */
  lemma ConvergesInTwoPasses(views: seq<map<int, Entry>>, targets: seq<Target>, n: nat)
    requires IsHistory(views, targets) && 2 <= n <= |targets|
    ensures forall i :: 0 <= i < |targets| ==> Converged(views[n], targets[i])
  {
    var a, b, c, t := views[n - 2], views[n - 1], views[n - 2 + 2], targets[n - 2 + 1];
    assert Pass(a, b, targets[n - 2]) && Pass(b, c, t) && SameConfiguration(targets[n - 2], t);
    assert OnePassEnough(b, t);
    OnePassIff(b, c, t);
    forall i | 0 <= i < |targets| ensures Converged(c, targets[i]) {
      assert SameConfiguration(t, targets[i]);
    }
  }
}
