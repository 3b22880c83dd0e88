/** The allocation loops of one iteration of the network service, over the allocator of
    one subnet (exordos_core/network/service.py, `_allocate_port` and `_iteration`). */
module PortAllocation {
  import opened Wrappers
  import opened Ipam

  /** A node or hardware machine without a port. `insertOk` is the outcome of saving the
      new port; `target` is the address the node asks for. */
  datatype Request = Request(target: Option<int>, insertOk: bool)

  /** What the loop has done so far: the free addresses, the addresses of saved ports in
      order, the addresses lost to ports that could not be saved, the address of the port
      variable left by the latest allocation, and whether the loop died on an unbound
      variable. */
  datatype Ledger = Ledger(free: set<int>, handed: seq<int>, lost: seq<int>, last: Option<int>, aborted: bool)

  function Start(free: set<int>): Ledger
  {
    Ledger(free, [], [], None, false)
  }

  ghost function Choice(l: Ledger, target: Option<int>): int
    requires l.free != {}
  {
    if target.Some? then target.value else Least(l.free)
  }

  /** One turn of the loop over virtual machine nodes. When the pool is dry the handler
      frees the address of the port left from the previous turn. */
  ghost function VmStep(l: Ledger, r: Request): Ledger
  {
    if l.aborted then l
    else if l.free == {} then
      if l.last.None? then l.(aborted := true) else l.(free := l.free + {l.last.value})
    else
      var ip := Choice(l, r.target);
      if r.insertOk then
        l.(free := l.free - {ip}, handed := l.handed + [ip], last := Some(ip))
      else
        l.(free := l.free - {ip} + {ip}, last := Some(ip))
  }

  ghost function VmRun(l: Ledger, requests: seq<Request>): Ledger
  {
    if requests == [] then l
    else VmStep(VmRun(l, requests[..|requests| - 1]), requests[|requests| - 1])
  }

  /** One turn of the loop over hardware machines: no target, and a port that cannot be
      saved keeps its address. */
  ghost function HwStep(l: Ledger, insertOk: bool): Ledger
  {
    if l.free == {} then l
    else
      var ip := Least(l.free);
      if insertOk then l.(free := l.free - {ip}, handed := l.handed + [ip])
      else l.(free := l.free - {ip}, lost := l.lost + [ip])
  }

  ghost function HwRun(l: Ledger, outcomes: seq<bool>): Ledger
  {
    if outcomes == [] then l
    else HwStep(HwRun(l, outcomes[..|outcomes| - 1]), outcomes[|outcomes| - 1])
  }

  // ------------------------------------------------------------------
  // The loops
  // ------------------------------------------------------------------

  /** One turn of the loop over virtual machine nodes, with the port variable left by the
      turn before. */
  method VmTurn(ipam: Ipam, subnet: SubnetId, request: Request, port: Option<int>, ghost handed: seq<int>)
    returns (saved: seq<int>, left: Option<int>, aborted: bool)
    requires ipam.Valid() && subnet in ipam.poolMap
    requires port.Some? ==> port.value !in ipam.Free(subnet) || ipam.Free(subnet) != {}
    modifies ipam.poolMap[subnet]
    ensures ipam.Valid()
    ensures Ledger(ipam.Free(subnet), handed + saved, [], left, aborted) ==
            VmStep(Ledger(old(ipam.Free(subnet)), handed, [], port, false), request)
    ensures left.Some? ==> left.value !in ipam.Free(subnet) || ipam.Free(subnet) != {}
  {
    saved, left, aborted := [], port, false;
    assert handed + [] == handed;
    var ip := ipam.AllocateIp(subnet, request.target);
    if ip.Success? {
      left := Some(ip.value);
    }
    if ip.Success? && request.insertOk {
      saved := [ip.value];
    } else if left.None? {
      aborted := true;
    } else {
      var _ := ipam.DeallocateIp(subnet, left.value);
    }
  }

  method AllocateVmPorts(ipam: Ipam, subnet: SubnetId, requests: seq<Request>)
    returns (handed: seq<int>, aborted: bool)
    requires ipam.Valid() && subnet in ipam.poolMap
    modifies ipam.poolMap[subnet]
    ensures ipam.Valid()
    ensures var l := VmRun(Start(old(ipam.Free(subnet))), requests);
            ipam.Free(subnet) == l.free && handed == l.handed && aborted == l.aborted
  {
    handed, aborted := [], false;
    var port: Option<int> := None;
    ghost var start := Start(ipam.Free(subnet));
    for i := 0 to |requests|
      invariant ipam.Valid() && !aborted
      invariant VmRun(start, requests[..i]) == Ledger(ipam.Free(subnet), handed, [], port, false)
      invariant port.Some? ==> port.value !in ipam.Free(subnet) || ipam.Free(subnet) != {}
    {
      assert requests[..i + 1][..i] == requests[..i];
      var saved;
      saved, port, aborted := VmTurn(ipam, subnet, requests[i], port, handed);
      handed := handed + saved;
      if aborted {
        VmAborts(start, requests, i + 1);
        return;
      }
    }
    assert requests[..|requests|] == requests;
  }

  lemma VmAborts(l: Ledger, requests: seq<Request>, i: nat)
    requires i <= |requests| && VmRun(l, requests[..i]).aborted
    ensures VmRun(l, requests) == VmRun(l, requests[..i])
    decreases |requests| - i
  {
    if i == |requests| {
      assert requests[..i] == requests;
    } else {
      assert requests[..i + 1][..i] == requests[..i];
      VmAborts(l, requests, i + 1);
    }
  }

  method AllocateHwPorts(ipam: Ipam, subnet: SubnetId, outcomes: seq<bool>) returns (handed: seq<int>)
    requires ipam.Valid() && subnet in ipam.poolMap
    modifies ipam.poolMap[subnet]
    ensures ipam.Valid()
    ensures var l := HwRun(Start(old(ipam.Free(subnet))), outcomes);
            ipam.Free(subnet) == l.free && handed == l.handed
  {
    handed := [];
    ghost var start := Start(ipam.Free(subnet));
    for i := 0 to |outcomes|
      invariant ipam.Valid()
      invariant ipam.Free(subnet) == HwRun(start, outcomes[..i]).free
      invariant handed == HwRun(start, outcomes[..i]).handed
    {
      assert outcomes[..i + 1][..i] == outcomes[..i];
      var ip := ipam.AllocateIp(subnet, None);
      if ip.Success? && outcomes[i] {
        handed := handed + [ip.value];
      }
    }
    assert outcomes[..|outcomes|] == outcomes;
  }

  // ------------------------------------------------------------------
  // The addresses stay partitioned exactly while no turn goes wrong
  // ------------------------------------------------------------------

  ghost predicate Distinct(xs: seq<int>)
  {
    forall i, j :: 0 <= i < j < |xs| ==> xs[i] != xs[j]
  }

  /** The addresses handed out are pairwise distinct and, with the free ones, make up
      exactly the initial pool. */
  ghost predicate Partition(initial: set<int>, free: set<int>, used: seq<int>)
  {
    && Distinct(used)
    && (forall a :: a in used ==> a !in free)
    && (forall a :: a in initial <==> a in free || a in used)
  }

  /** The turn finds a free address, and the target is one of them or absent. */
  predicate GoodTurn(l: Ledger, r: Request)
  {
    l.free != {} && (r.target.Some? ==> r.target.value in l.free)
  }

  ghost predicate GoodRun(l: Ledger, requests: seq<Request>)
  {
    forall i :: 0 <= i < |requests| ==> GoodTurn(VmRun(l, requests[..i]), requests[i])
  }

  /** Damage no later turn repairs. */
  ghost predicate Broken(initial: set<int>, l: Ledger)
  {
    || !Distinct(l.handed)
    || (exists a :: a in l.handed && a in l.free)
    || (exists a :: a in l.free && a !in initial)
    || (exists a :: a in l.handed && a !in initial)
  }

  lemma DistinctAppend(xs: seq<int>, a: int)
    ensures Distinct(xs + [a]) <==> Distinct(xs) && a !in xs
  {
    var ys := xs + [a];
    assert forall i :: 0 <= i < |xs| ==> ys[i] == xs[i];
    assert ys[|xs|] == a;
  }

  lemma BadTurnBreaks(initial: set<int>, l: Ledger, r: Request)
    requires Partition(initial, l.free, l.handed) && !l.aborted && !GoodTurn(l, r)
    requires l.last.Some? ==> l.last.value in l.handed || l.free != {}
    ensures VmStep(l, r).aborted || Broken(initial, VmStep(l, r))
  {
    var n := VmStep(l, r);
    if l.free == {} {
      if l.last.Some? {
        var a := l.last.value;
        assert a in l.handed && n.handed == l.handed && n.free == {a};
        assert a in n.handed && a in n.free;
      }
    } else {
      var ip := Choice(l, r.target);
      if r.insertOk {
        assert n.handed[|l.handed|] == ip;
        DistinctAppend(l.handed, ip);
        if ip in initial { assert ip in l.handed; } else { assert ip in n.handed; }
      } else {
        assert ip in n.free;
        if ip in initial { assert ip in n.handed; }
      }
    }
  }

  lemma BrokenStays(initial: set<int>, l: Ledger, r: Request)
    requires Broken(initial, l)
    ensures Broken(initial, VmStep(l, r))
  {
    var n := VmStep(l, r);
    assert forall a :: a in l.handed ==> a in n.handed;
    if !Distinct(l.handed) {
      if n.handed != l.handed { DistinctAppend(l.handed, n.handed[|l.handed|]); }
    } else if exists a :: a in l.handed && a in l.free {
      var a :| a in l.handed && a in l.free;
      if a !in n.free { DistinctAppend(l.handed, a); }
    } else if exists a :: a in l.free && a !in initial {
      var a :| a in l.free && a !in initial;
      if a !in n.free { assert n.handed[|l.handed|] == a; }
    }
  }

  lemma LastTurn(initial: set<int>, requests: seq<Request>)
    requires requests != []
    ensures var n := |requests| - 1;
            GoodRun(Start(initial), requests) <==>
            GoodRun(Start(initial), requests[..n]) && GoodTurn(VmRun(Start(initial), requests[..n]), requests[n])
  {
    var n := |requests| - 1;
    var front := requests[..n];
    assert forall i :: 0 <= i < n ==> front[..i] == requests[..i] && front[i] == requests[i];
    if GoodRun(Start(initial), requests) {
      forall i | 0 <= i < n ensures GoodTurn(VmRun(Start(initial), front[..i]), front[i]) {
        assert GoodTurn(VmRun(Start(initial), requests[..i]), requests[i]);
      }
    }
  }

  /** The state after `i` turns, as the main theorem needs it. */
  lemma {:induction false} RunState(initial: set<int>, requests: seq<Request>)
    ensures var l := VmRun(Start(initial), requests);
            if GoodRun(Start(initial), requests) then
              && !l.aborted && Partition(initial, l.free, l.handed)
              && (l.last.Some? ==> l.last.value in l.handed || l.free != {})
            else l.aborted || Broken(initial, l)
  {
    if requests == [] {
    } else {
      var n := |requests| - 1;
      var front, r := requests[..n], requests[n];
      RunState(initial, front);
      var l := VmRun(Start(initial), front);
      LastTurn(initial, requests);
      if !GoodRun(Start(initial), front) {
        if !l.aborted { BrokenStays(initial, l, r); }
      } else if GoodTurn(l, r) {
      } else {
        BadTurnBreaks(initial, l, r);
      }
    }
  }

  /** A run that does not die ends with the initial pool split into the addresses handed
      out, pairwise distinct, and the free ones, if and only if every turn found the pool
      not dry and its target free or absent. */
  lemma AllocationPartitions(initial: set<int>, requests: seq<Request>)
    ensures var l := VmRun(Start(initial), requests);
            !l.aborted ==> (Partition(initial, l.free, l.handed) <==> GoodRun(Start(initial), requests))
    ensures GoodRun(Start(initial), requests) ==> !VmRun(Start(initial), requests).aborted
  {
    RunState(initial, requests);
    var l := VmRun(Start(initial), requests);
  }

  /** How many of the requests succeed in saving their port. */
  function Saved(requests: seq<Request>): nat
  {
    if requests == [] then 0
    else Saved(requests[..|requests| - 1]) + if requests[|requests| - 1].insertOk then 1 else 0
  }

  /** Without targets, every turn is good if and only if the ports saved before the last
      request leave at least one address for it. */
  lemma {:induction false} GoodRunIffEnoughAddresses(initial: set<int>, requests: seq<Request>)
    requires forall i :: 0 <= i < |requests| ==> requests[i].target == None
    ensures GoodRun(Start(initial), requests) <==>
            requests == [] || Saved(requests[..|requests| - 1]) < |initial|
    ensures GoodRun(Start(initial), requests) ==>
            |VmRun(Start(initial), requests).free| == |initial| - Saved(requests)
  {
    if requests != [] {
      var n := |requests| - 1;
      var front, r := requests[..n], requests[n];
      GoodRunIffEnoughAddresses(initial, front);
      RunState(initial, front);
      var l := VmRun(Start(initial), front);
      LastTurn(initial, requests);
      assert front != [] ==> Saved(front[..|front| - 1]) <= Saved(front);
      if GoodRun(Start(initial), requests) {
        var ip := Choice(l, r.target);
        assert |l.free - {ip}| == |l.free| - 1;
        assert l.free - {ip} + {ip} == l.free;
      }
    }
  }

  /** One address for three nodes: the second node's failure frees the first node's
      address, and the third node gets it again. */
  lemma DryPoolHandsOutTwice()
    ensures var l := VmRun(Start({5}), [Request(None, true), Request(None, true), Request(None, true)]);
            !l.aborted && l.handed == [5, 5]
  {
    var r := Request(None, true);
    var one, two, three := [r], [r, r], [r, r, r];
    assert three[..2] == two && two[..1] == one && one[..0] == [];
    assert VmRun(Start({5}), one).free == {5} - {5} == {};
    assert VmRun(Start({5}), two).free == {5};
  }

  /** The hardware loop never breaks the split, whatever saves fail: an address is free,
      on a saved port, or lost, and never two of these. */
  lemma {:induction false} HardwarePartitions(initial: set<int>, outcomes: seq<bool>)
    ensures var l := HwRun(Start(initial), outcomes);
            Partition(initial, l.free, l.handed + l.lost)
  {
    if outcomes != [] {
      var n := |outcomes| - 1;
      HardwarePartitions(initial, outcomes[..n]);
      var l := HwRun(Start(initial), outcomes[..n]);
      if l.free != {} {
        InsertKeeps(initial, l, Least(l.free));
      }
    }
  }

  /** Every turn of the hardware loop uses up one address while there is one, the least free
      one, whether the port could be saved or not; the saved ones are handed out. */
  lemma {:induction false} HardwareUsesUp(initial: set<int>, outcomes: seq<bool>)
    ensures var l := HwRun(Start(initial), outcomes);
            && |l.free| == (if |outcomes| <= |initial| then |initial| - |outcomes| else 0)
            && l.free <= initial
            && (forall a, b :: a in initial && a !in l.free && b in l.free ==> a < b)
            && (|outcomes| <= |initial| ==> |l.handed| == SavedOf(outcomes))
  {
    if outcomes != [] {
      var n := |outcomes| - 1;
      HardwareUsesUp(initial, outcomes[..n]);
      var l := HwRun(Start(initial), outcomes[..n]);
      if l.free != {} {
        var ip := Least(l.free);
        assert |l.free - {ip}| == |l.free| - 1;
      } else {
        assert |initial| <= n;
      }
    }
  }

  function SavedOf(outcomes: seq<bool>): nat
  {
    if outcomes == [] then 0
    else SavedOf(outcomes[..|outcomes| - 1]) + if outcomes[|outcomes| - 1] then 1 else 0
  }

  lemma InsertKeeps(initial: set<int>, l: Ledger, ip: int)
    requires Partition(initial, l.free, l.handed + l.lost) && ip in l.free
    ensures Partition(initial, l.free - {ip}, l.handed + [ip] + l.lost)
    ensures Partition(initial, l.free - {ip}, l.handed + (l.lost + [ip]))
  {
    var used := l.handed + l.lost;
    var x, y := l.handed + [ip] + l.lost, l.handed + (l.lost + [ip]);
    assert y == used + [ip];
    DistinctAppend(used, ip);
    assert forall a :: a in y <==> a in used || a == ip;
    assert forall a :: a in x <==> a in l.handed || a == ip || a in l.lost;
    assert Distinct(x) by {
      var k := |l.handed|;
      assert forall i :: 0 <= i < |x| ==> x[i] == if i < k then used[i] else if i == k then ip else used[i - 1];
      assert forall i :: 0 <= i < |used| ==> used[i] in used && used[i] != ip;
      forall i, j | 0 <= i < j < |x| ensures x[i] != x[j] {
        if i != k && j != k { assert used[if i < k then i else i - 1] != used[if j < k then j else j - 1]; }
      }
    }
  }

  // ------------------------------------------------------------------
  // One iteration: the pool of the subnet, then both loops
  // ------------------------------------------------------------------

  lemma DistinctConcat(xs: seq<int>, ys: seq<int>)
    requires Distinct(xs) && Distinct(ys) && forall a :: a in xs ==> a !in ys
    ensures Distinct(xs + ys)
  {
    forall i, j | 0 <= i < j < |xs + ys| ensures (xs + ys)[i] != (xs + ys)[j] {
      if i < |xs| && j >= |xs| { assert xs[i] in xs && ys[j - |xs|] in ys; }
    }
  }

  /** The hardware loop goes on with what the first loop left: together they split the
      initial pool. */
  lemma IterationPartitions(initial: set<int>, requests: seq<Request>, outcomes: seq<bool>)
    requires GoodRun(Start(initial), requests)
    ensures var vm := VmRun(Start(initial), requests);
            var hw := HwRun(Start(vm.free), outcomes);
            !vm.aborted && Partition(initial, hw.free, vm.handed + (hw.handed + hw.lost))
  {
    var vm := VmRun(Start(initial), requests);
    var hw := HwRun(Start(vm.free), outcomes);
    AllocationPartitions(initial, requests);
    HardwarePartitions(vm.free, outcomes);
    forall a | a in vm.handed ensures a !in hw.handed + hw.lost && a !in hw.free { assert a !in vm.free; }
    DistinctConcat(vm.handed, hw.handed + hw.lost);
    assert forall a :: a in vm.handed + (hw.handed + hw.lost) <==> a in vm.handed || a in hw.handed + hw.lost;
  }

  /** The initial pool of a subnet with these ports. */
  ghost predicate InitialPool(subnet: Subnet, ports: seq<Option<int>>, initial: set<int>)
  {
    forall a :: a in initial <==> Within(a, PoolRange(subnet)) && !(Some(a) in ports && !InDiscovery(subnet, a))
  }

  /** No port of the range addresses are handed out from sits in the discovery range. */
  ghost predicate PortsOutsideDiscovery(subnet: Subnet, ports: seq<Option<int>>)
  {
    !exists a :: Some(a) in ports && Within(a, PoolRange(subnet)) && InDiscovery(subnet, a)
  }

  /** What both loops hand out is distinct, from the initial pool, and of no earlier port. */
  lemma HandedOutIsNew(subnet: Subnet, ports: seq<Option<int>>, initial: set<int>, requests: seq<Request>,
                       outcomes: seq<bool>, vm: seq<int>, hw: seq<int>)
    requires !RangesOverlap(subnet) && InitialPool(subnet, ports, initial) && GoodRun(Start(initial), requests)
    requires vm == VmRun(Start(initial), requests).handed
    requires hw == HwRun(Start(VmRun(Start(initial), requests).free), outcomes).handed
    ensures Distinct(vm + hw) && forall a :: a in vm + hw ==> a in initial
    ensures PortsOutsideDiscovery(subnet, ports) ==> forall a :: a in vm + hw ==> Some(a) !in ports
  {
    IterationPartitions(initial, requests, outcomes);
    PortsExcludedIff(subnet, ports, initial);
    var lost := HwRun(Start(VmRun(Start(initial), requests).free), outcomes).lost;
    var all := vm + (hw + lost);
    assert all == (vm + hw) + lost;
    assert forall i :: 0 <= i < |vm + hw| ==> (vm + hw)[i] == all[i];
    forall a | a in vm + hw ensures a in initial { assert a in all; }
  }

  /** The ports of one subnet in one iteration. If every turn is good, no address is handed
      out twice, all come from the initial pool, and none is that of an earlier port, as
      long as no port of the pool's range sits in the discovery range. */
  method AllocatePorts(id: SubnetId, subnet: Subnet, ports: seq<Option<int>>, requests: seq<Request>,
                       outcomes: seq<bool>)
    returns (r: Result<(seq<int>, seq<int>), IpamError>, ghost initial: set<int>)
    ensures r.Failure? <==> RangesOverlap(subnet)
    ensures r.Success? ==> InitialPool(subnet, ports, initial)
    ensures r.Success? && GoodRun(Start(initial), requests) ==>
              var handed := r.value.0 + r.value.1;
              && Distinct(handed) && (forall a :: a in handed ==> a in initial)
              && (PortsOutsideDiscovery(subnet, ports) ==> forall a :: a in handed ==> Some(a) !in ports)
  {
    initial := {};
    var ipam := new Ipam();
    var added := ipam.AddSubnet(id, subnet, ports);
    if added.Failure? {
      r := Failure(added.error);
    } else {
      initial := ipam.Free(id);
      var vm, aborted := AllocateVmPorts(ipam, id, requests);
      var hw := [];
      if !aborted {
        hw := AllocateHwPorts(ipam, id, outcomes);
      }
      r := Success((vm, hw));
      if GoodRun(Start(initial), requests) {
        AllocationPartitions(initial, requests);
        HandedOutIsNew(subnet, ports, initial, requests, outcomes, vm, hw);
      }
    }
  }
}
