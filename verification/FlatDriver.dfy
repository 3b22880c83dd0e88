/** The flat network driver: a DHCP configuration file, and beside it the context that the
    configuration was rendered from, trusted only while its hash fits
    (exordos_core/network/driver/flat.py). */
module FlatDriver {
  import opened Wrappers

  /** A subnet; `options` is whatever else the configuration shows of it. */
  datatype Subnet = Subnet(uuid: int, cidr: string, nextServer: Option<string>, options: string)

  datatype Status = New | Active

  datatype Port = Port(uuid: int, subnet: int, ipv4: int, mask: int, status: Status)

  /** What the driver holds: subnets in order, and ports by subnet id. */
  datatype Plane = Plane(subnets: seq<Subnet>, ports: map<int, seq<Port>>)

  const EMPTY := Plane([], map[])

  /** The hash of a configuration text; an empty context has none. */
  datatype Hash = NoHash | Hash(code: int)

  datatype CtxFile = Missing | Torn | Stored(hash: Hash, plane: Plane)

  // ------------------------------------------------------------------
  // Objects compare by id
  // ------------------------------------------------------------------

  function PortsOf(pl: Plane, subnet: int): seq<Port>
  {
    if subnet in pl.ports then pl.ports[subnet] else []
  }

  predicate HasSubnet(s: seq<Subnet>, id: int)
  {
    exists x :: x in s && x.uuid == id
  }

  predicate HasPort(ports: seq<Port>, id: int)
  {
    exists p :: p in ports && p.uuid == id
  }

  ghost predicate DistinctSubnets(s: seq<Subnet>)
  {
    forall i, j :: 0 <= i < j < |s| ==> s[i].uuid != s[j].uuid
  }

  ghost predicate DistinctPorts(ports: seq<Port>)
  {
    forall i, j :: 0 <= i < j < |ports| ==> ports[i].uuid != ports[j].uuid
  }

  ghost predicate WellFormed(pl: Plane)
  {
    && DistinctSubnets(pl.subnets)
    && (forall s :: s in pl.subnets ==> s.uuid in pl.ports)
    && (forall u :: u in pl.ports ==> DistinctPorts(pl.ports[u]) && forall p :: p in pl.ports[u] ==> p.subnet == u)
  }

  /** The first object with the id leaves the list. */
  function DropSubnet(s: seq<Subnet>, id: int): (r: seq<Subnet>)
    requires HasSubnet(s, id)
    ensures |r| == |s| - 1
    ensures DistinctSubnets(s) ==> DistinctSubnets(r)
    ensures DistinctSubnets(s) ==> forall x :: x in r <==> x in s && x.uuid != id
  {
    var k := First(s, id);
    s[..k] + s[k + 1..]
  }

  function First(s: seq<Subnet>, id: int): (k: nat)
    requires HasSubnet(s, id)
    ensures k < |s| && s[k].uuid == id && forall i :: 0 <= i < k ==> s[i].uuid != id
  {
    if s[0].uuid == id then 0 else First(s[1..], id) + 1
  }

  function FirstPort(ports: seq<Port>, id: int): (k: nat)
    requires HasPort(ports, id)
    ensures k < |ports| && ports[k].uuid == id && forall i :: 0 <= i < k ==> ports[i].uuid != id
  {
    if ports[0].uuid == id then 0 else FirstPort(ports[1..], id) + 1
  }

  function DropPort(ports: seq<Port>, id: int): (r: seq<Port>)
    ensures forall p :: p in r ==> p in ports
    ensures DistinctPorts(ports) ==> DistinctPorts(r)
    ensures DistinctPorts(ports) ==> forall p :: p in r <==> p in ports && p.uuid != id
  {
    if HasPort(ports, id) then
      var k := FirstPort(ports, id);
      ports[..k] + ports[k + 1..]
    else ports
  }

  // ------------------------------------------------------------------
  // What an operation makes of the plane
  // ------------------------------------------------------------------

  function WithSubnet(pl: Plane, s: Subnet): Plane
  {
    Plane(pl.subnets + [s], pl.ports[s.uuid := []])
  }

  function WithoutSubnet(pl: Plane, id: int): Plane
  {
    if HasSubnet(pl.subnets, id) then Plane(DropSubnet(pl.subnets, id), pl.ports - {id}) else pl
  }

  function WithPort(pl: Plane, p: Port): Plane
  {
    pl.(ports := pl.ports[p.subnet := PortsOf(pl, p.subnet) + [p]])
  }

  function WithoutPort(pl: Plane, p: Port): Plane
  {
    if HasPort(PortsOf(pl, p.subnet), p.uuid)
    then pl.(ports := pl.ports[p.subnet := DropPort(PortsOf(pl, p.subnet), p.uuid)])
    else pl
  }

  /** Ports are added one by one; the first that is there already refuses the whole list. */
  function WithPorts(pl: Plane, ports: seq<Port>): Option<Plane>
    decreases |ports|
  {
    if ports == [] then Some(pl)
    else if HasPort(PortsOf(pl, ports[0].subnet), ports[0].uuid) then None
    else WithPorts(WithPort(pl, ports[0].(status := Active)), ports[1..])
  }

  function WithoutPorts(pl: Plane, ports: seq<Port>): Plane
    decreases |ports|
  {
    if ports == [] then pl else WithoutPorts(WithoutPort(pl, ports[0]), ports[1..])
  }

  // ------------------------------------------------------------------
  // The plane by subnet id
  // ------------------------------------------------------------------

  datatype Entry = Entry(subnet: Subnet, ports: seq<Port>)

  /** Each subnet by its id, with its ports. */
  ghost function View(pl: Plane): map<int, Entry>
  {
    ViewOf(pl.subnets, pl.ports)
  }

  ghost function ViewOf(subnets: seq<Subnet>, ports: map<int, seq<Port>>): map<int, Entry>
  {
    if subnets == [] then map[]
    else
      var s := subnets[|subnets| - 1];
      ViewOf(subnets[..|subnets| - 1], ports)[s.uuid := Entry(s, PortsOf(Plane([], ports), s.uuid))]
  }

  ghost predicate IsView(pl: Plane, v: map<int, Entry>)
  {
    && (forall s :: s in pl.subnets ==> s.uuid in v && v[s.uuid] == Entry(s, PortsOf(pl, s.uuid)))
    && (forall id :: id in v ==> v[id].subnet in pl.subnets && v[id].subnet.uuid == id)
  }

  lemma {:induction false} ViewIsView(pl: Plane)
    requires DistinctSubnets(pl.subnets)
    ensures IsView(pl, View(pl))
    decreases |pl.subnets|
  {
    if pl.subnets != [] {
      var n := |pl.subnets| - 1;
      var s, front := pl.subnets[n], Plane(pl.subnets[..n], pl.ports);
      assert pl.subnets == front.subnets + [s];
      ViewIsView(front);
    }
  }

  /** Only one map is the view. */
  lemma ThisIsView(pl: Plane, v: map<int, Entry>)
    requires DistinctSubnets(pl.subnets) && IsView(pl, v)
    ensures View(pl) == v
  {
    ViewIsView(pl);
    var w := View(pl);
    forall id ensures id in v <==> id in w {
      if id in v { assert v[id].subnet in pl.subnets; }
      if id in w { assert w[id].subnet in pl.subnets; }
    }
    forall id | id in v ensures v[id] == w[id] { assert v[id].subnet in pl.subnets; }
  }

  lemma InView(pl: Plane, id: int)
    requires DistinctSubnets(pl.subnets)
    ensures id in View(pl) <==> HasSubnet(pl.subnets, id)
    ensures id in View(pl) ==> View(pl)[id].subnet in pl.subnets && View(pl)[id].subnet.uuid == id
    ensures id in View(pl) ==> View(pl)[id].ports == PortsOf(pl, id)
  {
    ViewIsView(pl);
  }

  lemma WithSubnetWellFormed(pl: Plane, s: Subnet)
    requires WellFormed(pl) && !HasSubnet(pl.subnets, s.uuid)
    ensures WellFormed(WithSubnet(pl, s))
  {
    var subnets := pl.subnets + [s];
    forall i, j | 0 <= i < j < |subnets| ensures subnets[i].uuid != subnets[j].uuid {
      assert subnets[i] == pl.subnets[i] && pl.subnets[i] in pl.subnets;
      if j < |pl.subnets| { assert subnets[j] == pl.subnets[j]; }
    }
    forall x | x in subnets ensures x.uuid in WithSubnet(pl, s).ports {
      assert x in pl.subnets || x == s;
    }
  }

  lemma ViewAddSubnet(pl: Plane, s: Subnet)
    requires WellFormed(pl) && !HasSubnet(pl.subnets, s.uuid)
    ensures WellFormed(WithSubnet(pl, s)) && View(WithSubnet(pl, s)) == View(pl)[s.uuid := Entry(s, [])]
  {
    var next, v := WithSubnet(pl, s), View(pl)[s.uuid := Entry(s, [])];
    WithSubnetWellFormed(pl, s);
    ViewIsView(pl);
    forall x | x in next.subnets ensures x.uuid in v && v[x.uuid] == Entry(x, PortsOf(next, x.uuid)) {
      if x != s { assert x in pl.subnets && x.uuid != s.uuid; }
    }
    forall id | id in v ensures v[id].subnet in next.subnets && v[id].subnet.uuid == id {
      if id != s.uuid { assert View(pl)[id].subnet in pl.subnets; }
    }
    ThisIsView(next, v);
  }

  lemma ViewDeleteSubnet(pl: Plane, id: int)
    requires WellFormed(pl)
    ensures WellFormed(WithoutSubnet(pl, id)) && View(WithoutSubnet(pl, id)) == View(pl) - {id}
    ensures !HasSubnet(WithoutSubnet(pl, id).subnets, id)
    ensures HasSubnet(pl.subnets, id) ==> id !in WithoutSubnet(pl, id).ports
  {
    var next := WithoutSubnet(pl, id);
    ViewIsView(pl);
    if HasSubnet(pl.subnets, id) {
      ThisIsView(next, View(pl) - {id});
    } else {
      assert id !in View(pl);
      assert View(pl) - {id} == View(pl);
    }
  }

  lemma ViewUpdateSubnet(pl: Plane, s: Subnet)
    requires WellFormed(pl)
    ensures WellFormed(WithSubnet(WithoutSubnet(pl, s.uuid), s))
    ensures View(WithSubnet(WithoutSubnet(pl, s.uuid), s)) == View(pl)[s.uuid := Entry(s, [])]
    ensures !HasSubnet(WithoutSubnet(pl, s.uuid).subnets, s.uuid)
  {
    ViewDeleteSubnet(pl, s.uuid);
    ViewAddSubnet(WithoutSubnet(pl, s.uuid), s);
  }

  /** Changing the ports of one subnet. */
  lemma ViewSetPorts(pl: Plane, id: int, ports: seq<Port>)
    requires WellFormed(pl) && id in View(pl) && DistinctPorts(ports) && forall p :: p in ports ==> p.subnet == id
    ensures var next := pl.(ports := pl.ports[id := ports]);
            WellFormed(next) && View(next) == View(pl)[id := Entry(View(pl)[id].subnet, ports)]
  {
    ViewIsView(pl);
    ThisIsView(pl.(ports := pl.ports[id := ports]), View(pl)[id := Entry(View(pl)[id].subnet, ports)]);
  }

  /** All the given ports belong to one subnet, and none is there yet. */
  ghost predicate NewPorts(pl: Plane, id: int, ports: seq<Port>)
  {
    && DistinctPorts(ports)
    && (forall p :: p in ports ==> p.subnet == id && !HasPort(PortsOf(pl, id), p.uuid))
  }

  function Activated(ports: seq<Port>): (r: seq<Port>)
    ensures |r| == |ports| && forall i :: 0 <= i < |r| ==> r[i] == ports[i].(status := Active)
  {
    seq(|ports|, i requires 0 <= i < |ports| => ports[i].(status := Active))
  }

  function Grown(v: map<int, Entry>, id: int, ports: seq<Port>): (w: map<int, Entry>)
    requires id in v
    ensures w.Keys == v.Keys
  {
    v[id := Entry(v[id].subnet, v[id].ports + ports)]
  }

  lemma GrownTwice(v: map<int, Entry>, id: int, a: seq<Port>, b: seq<Port>)
    requires id in v
    ensures Grown(Grown(v, id, a), id, b) == Grown(v, id, a + b) && Grown(v, id, []) == v
  {
    assert (v[id].ports + a) + b == v[id].ports + (a + b) && v[id].ports + [] == v[id].ports;
  }

  lemma {:induction false} ViewAddPorts(pl: Plane, id: int, ports: seq<Port>)
    requires WellFormed(pl) && id in View(pl) && NewPorts(pl, id, ports)
    ensures WithPorts(pl, ports).Some? && WellFormed(WithPorts(pl, ports).value)
    ensures View(WithPorts(pl, ports).value) == Grown(View(pl), id, Activated(ports))
    decreases |ports|
  {
    if ports == [] {
      assert Activated(ports) == [];
      GrownTwice(View(pl), id, [], []);
    } else {
      var p := ports[0].(status := Active);
      assert ports[0] in ports;
      AddOnePort(pl, id, p);
      StillNew(pl, id, ports);
      ViewAddPorts(WithPort(pl, p), id, ports[1..]);
      assert Activated(ports) == [p] + Activated(ports[1..]);
      GrownTwice(View(pl), id, [p], Activated(ports[1..]));
    }
  }

  lemma StillNew(pl: Plane, id: int, ports: seq<Port>)
    requires ports != [] && NewPorts(pl, id, ports)
    ensures NewPorts(WithPort(pl, ports[0].(status := Active)), id, ports[1..])
  {
    var p := ports[0].(status := Active);
    assert ports[0] in ports;
    var had, have := PortsOf(pl, id), PortsOf(WithPort(pl, p), id);
    assert have == had + [p];
    forall q | q in ports[1..] ensures q.subnet == id && !HasPort(have, q.uuid) {
      assert q in ports;
      var i :| 0 <= i < |ports[1..]| && ports[1..][i] == q;
      assert ports[i + 1] == q && q.uuid != p.uuid;
      assert forall x :: x in have <==> x in had || x == p;
    }
  }

  lemma AddOnePort(pl: Plane, id: int, p: Port)
    requires WellFormed(pl) && id in View(pl) && p.subnet == id && !HasPort(PortsOf(pl, id), p.uuid)
    ensures WellFormed(WithPort(pl, p))
    ensures View(WithPort(pl, p)) == Grown(View(pl), id, [p])
  {
    var had := PortsOf(pl, id);
    InView(pl, id);
    assert forall x :: x in had + [p] <==> x in had || x == p;
    forall i | 0 <= i < |had| ensures had[i].uuid != p.uuid { assert had[i] in had; }
    ViewSetPorts(pl, id, had + [p]);
  }

  lemma WithPortWellFormed(pl: Plane, p: Port)
    requires WellFormed(pl) && !HasPort(PortsOf(pl, p.subnet), p.uuid)
    ensures WellFormed(WithPort(pl, p))
  {
    var had := PortsOf(pl, p.subnet);
    assert forall x :: x in had + [p] <==> x in had || x == p;
    forall i | 0 <= i < |had| ensures had[i].uuid != p.uuid { assert had[i] in had; }
  }

  lemma {:induction false} WithPortsWellFormed(pl: Plane, ports: seq<Port>)
    requires WellFormed(pl)
    ensures WithPorts(pl, ports).Some? ==> WellFormed(WithPorts(pl, ports).value)
    decreases |ports|
  {
    if ports != [] && !HasPort(PortsOf(pl, ports[0].subnet), ports[0].uuid) {
      WithPortWellFormed(pl, ports[0].(status := Active));
      WithPortsWellFormed(WithPort(pl, ports[0].(status := Active)), ports[1..]);
    }
  }

  lemma {:induction false} WithoutPortsWellFormed(pl: Plane, ports: seq<Port>)
    requires WellFormed(pl)
    ensures WellFormed(WithoutPorts(pl, ports))
    decreases |ports|
  {
    if ports != [] { WithoutPortsWellFormed(WithoutPort(pl, ports[0]), ports[1..]); }
  }

  /** Replacing a port leaves one port with its id. */
  lemma ReplacePort(pl: Plane, p: Port)
    requires WellFormed(pl)
    ensures !HasPort(PortsOf(WithoutPort(pl, p), p.subnet), p.uuid)
    ensures WellFormed(WithPort(WithoutPort(pl, p), p.(status := Active)))
    ensures p.subnet in View(pl) ==>
              View(WithPort(WithoutPort(pl, p), p.(status := Active))) ==
              var e := View(pl)[p.subnet];
              View(pl)[p.subnet := Entry(e.subnet, DropPort(e.ports, p.uuid) + [p.(status := Active)])]
  {
    WithPortWellFormed(WithoutPort(pl, p), p.(status := Active));
    if p.subnet in View(pl) {
      DeleteOnePort(pl, p.subnet, p);
      AddOnePort(WithoutPort(pl, p), p.subnet, p.(status := Active));
    }
  }

  lemma DeleteOnePort(pl: Plane, id: int, p: Port)
    requires WellFormed(pl) && id in View(pl) && p.subnet == id
    ensures WellFormed(WithoutPort(pl, p))
    ensures View(WithoutPort(pl, p)) == View(pl)[id := Entry(View(pl)[id].subnet, DropPort(View(pl)[id].ports, p.uuid))]
  {
    InView(pl, id);
    if HasPort(PortsOf(pl, id), p.uuid) {
      ViewSetPorts(pl, id, DropPort(PortsOf(pl, id), p.uuid));
    } else {
      assert View(pl)[id := View(pl)[id]] == View(pl);
    }
  }

  function DropPorts(ports: seq<Port>, gone: seq<Port>): seq<Port>
    decreases |gone|
  {
    if gone == [] then ports else DropPorts(DropPort(ports, gone[0].uuid), gone[1..])
  }

  lemma {:induction false} DropPortsLeaves(ports: seq<Port>, gone: seq<Port>)
    requires DistinctPorts(ports)
    ensures DistinctPorts(DropPorts(ports, gone))
    ensures forall p :: p in DropPorts(ports, gone) <==> p in ports && !HasPort(gone, p.uuid)
    decreases |gone|
  {
    if gone != [] {
      DropPortsLeaves(DropPort(ports, gone[0].uuid), gone[1..]);
      assert gone == [gone[0]] + gone[1..];
    }
  }

  lemma {:induction false} ViewDeletePorts(pl: Plane, id: int, gone: seq<Port>)
    requires WellFormed(pl) && id in View(pl) && forall p :: p in gone ==> p.subnet == id
    ensures WellFormed(WithoutPorts(pl, gone))
    ensures View(WithoutPorts(pl, gone)) ==
            View(pl)[id := Entry(View(pl)[id].subnet, DropPorts(View(pl)[id].ports, gone))]
    decreases |gone|
  {
    if gone == [] {
      assert View(pl)[id := View(pl)[id]] == View(pl);
    } else {
      assert gone[0] in gone;
      DeleteOnePort(pl, id, gone[0]);
      ViewDeletePorts(WithoutPort(pl, gone[0]), id, gone[1..]);
    }
  }

  // ------------------------------------------------------------------
  // The context object
  // ------------------------------------------------------------------

  class DHCPContext {
    var cfgHash: Hash
    var subnets: seq<Subnet>
    var portMap: map<int, seq<Port>>

    function Value(): Plane
      reads this
    {
      Plane(subnets, portMap)
    }

    constructor (hash: Hash, plane: Plane)
      ensures cfgHash == hash && Value() == plane
    {
      cfgHash, subnets, portMap := hash, plane.subnets, plane.ports;
    }

    method AddSubnet(s: Subnet) returns (ok: bool)
      modifies this`subnets, this`portMap
      ensures ok <==> !HasSubnet(old(subnets), s.uuid)
      ensures Value() == if ok then WithSubnet(old(Value()), s) else old(Value())
    {
      if HasSubnet(subnets, s.uuid) { return false; }
      subnets := subnets + [s];
      portMap := portMap[s.uuid := []];
      return true;
    }

    method DeleteSubnet(s: Subnet)
      modifies this`subnets, this`portMap
      ensures Value() == WithoutSubnet(old(Value()), s.uuid)
    {
      if !HasSubnet(subnets, s.uuid) { return; }
      subnets := DropSubnet(subnets, s.uuid);
      portMap := portMap - {s.uuid};
    }

    method AddPort(p: Port) returns (ok: bool)
      modifies this`portMap
      ensures ok <==> !HasPort(old(PortsOf(Value(), p.subnet)), p.uuid)
      ensures Value() == if ok then WithPort(old(Value()), p) else old(Value())
    {
      if HasPort(PortsOf(Value(), p.subnet), p.uuid) { return false; }
      portMap := portMap[p.subnet := PortsOf(Value(), p.subnet) + [p]];
      return true;
    }

    method DeletePort(p: Port)
      modifies this`portMap
      ensures Value() == WithoutPort(old(Value()), p)
    {
      if !HasPort(PortsOf(Value(), p.subnet), p.uuid) { return; }
      portMap := portMap[p.subnet := DropPort(PortsOf(Value(), p.subnet), p.uuid)];
    }
  }

  // ------------------------------------------------------------------
  // The driver over its two files
  // ------------------------------------------------------------------

  /** What the configuration is rendered from. */
  function SubnetMap(pl: Plane): seq<(Subnet, seq<Port>)>
  {
    seq(|pl.subnets|, i requires 0 <= i < |pl.subnets| => (pl.subnets[i], PortsOf(pl, pl.subnets[i].uuid)))
  }

  /** Each subnet of the context, in order, with exactly the ports the context has for it. */
  ghost predicate Lists(m: seq<(Subnet, seq<Port>)>, pl: Plane)
  {
    |m| == |pl.subnets| && forall i :: 0 <= i < |m| ==>
      m[i].0 == pl.subnets[i] &&
      m[i].1 == if pl.subnets[i].uuid in pl.ports then pl.ports[pl.subnets[i].uuid] else []
  }

  /** What is rendered lists the subnets of the context with their ports, and nothing else. */
  lemma SubnetMapLists(pl: Plane, m: seq<(Subnet, seq<Port>)>)
    ensures Lists(m, pl) <==> m == SubnetMap(pl)
  {
  }

  class FlatBridgeNetworkDriver {
    const render: seq<(Subnet, seq<Port>)> -> string
    /** The hash of a text under the seed of the running process. */
    const hash: (int, string) -> int
    const seed: int
    var cfg: string
    var ctxFile: CtxFile

    ghost predicate Valid()
      reads this
    {
      ctxFile.Stored? ==> WellFormed(ctxFile.plane)
    }

    /** The plane an operation would start from. */
    ghost function Loaded(): (pl: Plane)
      requires Valid()
      reads this
      ensures WellFormed(pl)
    {
      if ctxFile.Stored? && ctxFile.hash == Hash(hash(seed, cfg)) then ctxFile.plane else EMPTY
    }

    ghost function Now(): map<int, Entry>
      requires Valid()
      reads this
    {
      View(Loaded())
    }

    /** The configuration file is rendered from this plane, and the context says so. */
    ghost predicate Applied(pl: Plane)
      reads this
    {
      cfg == render(SubnetMap(pl)) && ctxFile == Stored(Hash(hash(seed, cfg)), pl)
    }

    constructor (render: seq<(Subnet, seq<Port>)> -> string, hash: (int, string) -> int, seed: int, cfg: string,
                 ctxFile: CtxFile)
      ensures this.render == render && this.hash == hash && this.seed == seed && this.cfg == cfg
      ensures this.ctxFile == if ctxFile.Missing? then Stored(NoHash, EMPTY) else ctxFile
    {
      this.render, this.hash, this.seed, this.cfg := render, hash, seed, cfg;
      this.ctxFile := if ctxFile.Missing? then Stored(NoHash, EMPTY) else ctxFile;
    }

    method LoadCtx() returns (ctx: DHCPContext)
      requires Valid()
      modifies this`ctxFile
      ensures fresh(ctx) && Valid() && ctx.Value() == Loaded() == old(Loaded())
      ensures ctxFile == if old(ctxFile).Missing? then Stored(NoHash, EMPTY) else old(ctxFile)
    {
      if ctxFile.Missing? {
        ctxFile := Stored(NoHash, EMPTY);
        ctx := new DHCPContext(NoHash, EMPTY);
      } else if ctxFile.Torn? {
        ctx := new DHCPContext(NoHash, EMPTY);
      } else if Hash(hash(seed, cfg)) != ctxFile.hash {
        ctx := new DHCPContext(NoHash, EMPTY);
      } else {
        ctx := new DHCPContext(ctxFile.hash, ctxFile.plane);
      }
    }

    /** Writes the configuration, restarts the service, and saves the context. */
    method ApplyCfg(ctx: DHCPContext)
      requires WellFormed(ctx.Value())
      modifies this, ctx`cfgHash
      ensures Valid() && Applied(ctx.Value()) && ctx.Value() == old(ctx.Value()) && Loaded() == ctx.Value()
      ensures exists m :: Lists(m, ctx.Value()) && cfg == render(m)
    {
      SubnetMapLists(ctx.Value(), SubnetMap(ctx.Value()));
      cfg := render(SubnetMap(ctx.Value()));
      ctx.cfgHash := Hash(hash(seed, cfg));
      ctxFile := Stored(ctx.cfgHash, ctx.Value());
    }

    method ListSubnets() returns (subnets: seq<Subnet>)
      requires Valid()
      modifies this`ctxFile
      ensures Valid() && Loaded() == old(Loaded()) && subnets == Loaded().subnets
    {
      var ctx := LoadCtx();
      subnets := ctx.subnets;
    }

    method ListPorts(subnet: int) returns (ports: seq<Port>)
      requires Valid()
      modifies this`ctxFile
      ensures Valid() && Loaded() == old(Loaded()) && ports == PortsOf(Loaded(), subnet)
    {
      var ctx := LoadCtx();
      ports := PortsOf(ctx.Value(), subnet);
    }

    method CreateSubnet(s: Subnet) returns (ok: bool)
      requires Valid()
      modifies this
      ensures Valid() && (ok <==> !HasSubnet(old(Loaded()).subnets, s.uuid))
      ensures if ok then Applied(WithSubnet(old(Loaded()), s)) else Loaded() == old(Loaded())
      ensures ok ==> Now() == old(Now())[s.uuid := Entry(s, [])]
    {
      var ctx := LoadCtx();
      if HasSubnet(ctx.subnets, s.uuid) { return false; }
      ViewAddSubnet(ctx.Value(), s);
      ok := ctx.AddSubnet(s);
      ApplyCfg(ctx);
    }

    method DeleteSubnet(s: Subnet)
      requires Valid()
      modifies this
      ensures Valid() && Loaded() == WithoutSubnet(old(Loaded()), s.uuid)
      ensures HasSubnet(old(Loaded()).subnets, s.uuid) ==> Applied(Loaded())
      ensures Now() == old(Now()) - {s.uuid}
    {
      var ctx := LoadCtx();
      ViewDeleteSubnet(ctx.Value(), s.uuid);
      if !HasSubnet(ctx.subnets, s.uuid) { return; }
      ctx.DeleteSubnet(s);
      ApplyCfg(ctx);
    }

    /** The ports are replaced by none; they come back with the next pass. */
    method UpdateSubnet(s: Subnet)
      requires Valid()
      modifies this
      ensures Valid() && Applied(WithSubnet(WithoutSubnet(old(Loaded()), s.uuid), s))
      ensures Now() == old(Now())[s.uuid := Entry(s, [])]
    {
      var ctx := LoadCtx();
      ViewUpdateSubnet(ctx.Value(), s);
      ctx.DeleteSubnet(s);
      var ok := ctx.AddSubnet(s);
      ApplyCfg(ctx);
    }

    /** Adds all the ports, or none if one of them is there already. */
    method CreatePorts(ports: seq<Port>, ghost id: int) returns (ok: bool)
      requires Valid()
      modifies this
      ensures Valid() && (ok <==> WithPorts(old(Loaded()), ports).Some?)
      ensures if ok then Applied(WithPorts(old(Loaded()), ports).value) else Loaded() == old(Loaded())
      ensures old(id in Now() && NewPorts(Loaded(), id, ports)) ==>
                ok && Now() == Grown(old(Now()), id, Activated(ports))
    {
      var ctx := LoadCtx();
      ghost var before := ctx.Value();
      if id in View(before) && NewPorts(before, id, ports) { ViewAddPorts(before, id, ports); }
      WithPortsWellFormed(before, ports);
      assert ports[0..] == ports;
      for i := 0 to |ports|
        invariant WithPorts(ctx.Value(), ports[i..]) == WithPorts(before, ports)
        invariant Valid() && Loaded() == before
      {
        assert ports[i..][0] == ports[i] && ports[i..][1..] == ports[i + 1..];
        if HasPort(PortsOf(ctx.Value(), ports[i].subnet), ports[i].uuid) { return false; }
        var added := ctx.AddPort(ports[i].(status := Active));
      }
      ApplyCfg(ctx);
      ok := true;
    }

    method DeletePorts(ports: seq<Port>, ghost id: int)
      requires Valid()
      modifies this
      ensures Valid() && Applied(WithoutPorts(old(Loaded()), ports))
      ensures id in old(Now()) && (forall p :: p in ports ==> p.subnet == id) ==>
                Now() == old(Now())[id := Entry(old(Now())[id].subnet, DropPorts(old(Now())[id].ports, ports))]
    {
      var ctx := LoadCtx();
      ghost var before := ctx.Value();
      WithoutPortsWellFormed(before, ports);
      if id in View(before) && forall p :: p in ports ==> p.subnet == id { ViewDeletePorts(before, id, ports); }
      assert ports[0..] == ports;
      for i := 0 to |ports|
        invariant WithoutPorts(ctx.Value(), ports[i..]) == WithoutPorts(before, ports)
      {
        assert ports[i..][0] == ports[i] && ports[i..][1..] == ports[i + 1..];
        ctx.DeletePort(ports[i]);
      }
      ApplyCfg(ctx);
    }

    /** Replaces the port, or adds it. */
    method UpdatePort(p: Port)
      requires Valid()
      modifies this
      ensures Valid() && Applied(WithPort(WithoutPort(old(Loaded()), p), p.(status := Active)))
      ensures p.subnet in old(Now()) ==>
                Now() == old(Now())[p.subnet := Entry(old(Now())[p.subnet].subnet,
                                      DropPort(old(Now())[p.subnet].ports, p.uuid) + [p.(status := Active)])]
    {
      var ctx := LoadCtx();
      ReplacePort(ctx.Value(), p);
      ctx.DeletePort(p);
      var ok := ctx.AddPort(p.(status := Active));
      ApplyCfg(ctx);
    }
  }
}
