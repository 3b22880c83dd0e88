/** The address pool of a subnet: a free list of closed integer intervals, and the
    `Ipam` object that owns one such list per subnet (exordos_core/network/ipam.py). */
module Ipam {
  import opened Wrappers

  type SubnetId = int

  datatype Interval = Interval(lo: int, hi: int)

  datatype IpamError =
    | UndefinedSubnet
    | NoIPsAvailable
    | IpRangeOverlap

  /** The set the list stands for. */
  ghost predicate Covers(pool: seq<Interval>, a: int)
  {
    exists i :: 0 <= i < |pool| && pool[i].lo <= a <= pool[i].hi
  }

  predicate Inside(a: int, m: Interval)
  {
    m.lo <= a <= m.hi
  }

  ghost predicate StandsFor(s: set<int>, pool: seq<Interval>)
  {
    forall a :: a in s <==> Covers(pool, a)
  }

  /** The same set, as a value. */
  ghost function Addresses(pool: seq<Interval>): (s: set<int>)
    ensures StandsFor(s, pool)
  {
    CoverIsFinite(pool);
    var s: set<int> :| StandsFor(s, pool);
    s
  }

  lemma {:induction false} CoverIsFinite(pool: seq<Interval>)
    ensures exists s: set<int> :: StandsFor(s, pool)
  {
    if pool == [] {
      assert StandsFor({}, pool);
    } else {
      CoverIsFinite(pool[1..]);
      CoversCons(pool);
      var rest: set<int> :| StandsFor(rest, pool[1..]);
      var first := set a | pool[0].lo <= a <= pool[0].hi && Inside(a, pool[0]);
      assert StandsFor(first + rest, pool);
    }
  }

  lemma CoversCons(pool: seq<Interval>)
    requires pool != []
    ensures forall a :: Covers(pool, a) <==> Inside(a, pool[0]) || Covers(pool[1..], a)
  {
    forall a ensures Covers(pool, a) <==> Inside(a, pool[0]) || Covers(pool[1..], a) {
      if Covers(pool[1..], a) {
        var i :| 0 <= i < |pool[1..]| && pool[1..][i].lo <= a <= pool[1..][i].hi;
        assert pool[i + 1] == pool[1..][i];
      }
    }
  }

  /** `q` is canonical and stands for the set of `p` without `a`. */
  ghost predicate Removes(p: seq<Interval>, q: seq<Interval>, a: int)
  {
    Canonical(q) && Addresses(q) == Addresses(p) - {a}
  }

  /** `q` stands for the set of `p` with `a` added. */
  ghost predicate Adds(p: seq<Interval>, q: seq<Interval>, a: int)
  {
    Addresses(q) == Addresses(p) + {a}
  }

  lemma RemovesIf(p: seq<Interval>, q: seq<Interval>, a: int)
    requires Canonical(q) && forall x :: Covers(q, x) <==> Covers(p, x) && x != a
    ensures Removes(p, q, a)
  {
    assert forall x :: x in Addresses(q) <==> x in Addresses(p) - {a};
  }

  lemma AddsIf(p: seq<Interval>, q: seq<Interval>, a: int)
    requires forall x :: Covers(q, x) <==> Covers(p, x) || x == a
    ensures Adds(p, q, a)
  {
    assert forall x :: x in Addresses(q) <==> x in Addresses(p) + {a};
  }

  /** Sorted, non-empty, disjoint and never adjacent. */
  ghost predicate Canonical(pool: seq<Interval>)
  {
    && (forall i :: 0 <= i < |pool| ==> pool[i].lo <= pool[i].hi)
    && (forall i, j :: 0 <= i < j < |pool| ==> pool[i].hi + 1 < pool[j].lo)
  }

  /** An address is an end of one of the free intervals. */
  ghost predicate AtBoundary(pool: seq<Interval>, a: int)
  {
    exists i :: 0 <= i < |pool| && (a == pool[i].lo || a == pool[i].hi)
  }

  // ------------------------------------------------------------------
  // Canonical lists are determined by the set they stand for
  // ------------------------------------------------------------------

  lemma TailCovers(pool: seq<Interval>, a: int)
    requires Canonical(pool) && pool != []
    ensures Canonical(pool[1..])
    ensures Covers(pool[1..], a) <==> Covers(pool, a) && a > pool[0].hi
  {
    if Covers(pool[1..], a) {
      var i :| 0 <= i < |pool[1..]| && pool[1..][i].lo <= a <= pool[1..][i].hi;
      assert pool[i + 1].lo <= a <= pool[i + 1].hi;
    }
    if Covers(pool, a) && a > pool[0].hi {
      var i :| 0 <= i < |pool| && pool[i].lo <= a <= pool[i].hi;
      assert pool[1..][i - 1].lo <= a <= pool[1..][i - 1].hi;
    }
  }

  lemma FirstIsCovered(pool: seq<Interval>)
    requires Canonical(pool) && pool != []
    ensures Covers(pool, pool[0].lo)
  {
    assert pool[0].lo <= pool[0].lo <= pool[0].hi;
  }

  lemma {:induction false} CanonicalUnique(p: seq<Interval>, q: seq<Interval>)
    requires Canonical(p) && Canonical(q)
    requires forall a :: Covers(p, a) <==> Covers(q, a)
    ensures p == q
  {
    if p == [] || q == [] {
      if p != [] { FirstIsCovered(p); }
      if q != [] { FirstIsCovered(q); }
    } else {
      assert Covers(q, p[0].lo) && Covers(p, q[0].lo);
      assert p[0].lo == q[0].lo;
      assert p[0].hi == q[0].hi by {
        assert !Covers(q, p[0].hi + 1) && !Covers(p, q[0].hi + 1);
      }
      assert p[0] == q[0];
      forall a ensures Covers(p[1..], a) <==> Covers(q[1..], a) {
        TailCovers(p, a);
        TailCovers(q, a);
      }
      TailCovers(p, 0);
      TailCovers(q, 0);
      CanonicalUnique(p[1..], q[1..]);
      assert p == [p[0]] + p[1..] && q == [q[0]] + q[1..];
    }
  }

  // ------------------------------------------------------------------
  // Editing a list around one position
  // ------------------------------------------------------------------

  /** Every interval of `x` ends at least two below `lo`. */
  ghost predicate EndsBefore(x: seq<Interval>, lo: int)
  {
    forall i :: 0 <= i < |x| ==> x[i].hi + 1 < lo
  }

  /** Every interval of `y` starts at least two above `hi`. */
  ghost predicate StartsAfter(y: seq<Interval>, hi: int)
  {
    forall i :: 0 <= i < |y| ==> hi + 1 < y[i].lo
  }

  lemma CoversConcat(x: seq<Interval>, y: seq<Interval>, a: int)
    ensures Covers(x + y, a) <==> Covers(x, a) || Covers(y, a)
  {
    if Covers(x, a) {
      var i :| 0 <= i < |x| && x[i].lo <= a <= x[i].hi;
      assert (x + y)[i] == x[i];
    }
    if Covers(y, a) {
      var i :| 0 <= i < |y| && y[i].lo <= a <= y[i].hi;
      assert (x + y)[|x| + i] == y[i];
    }
  }

  /** What a list split around the interval `m` covers, and when it is canonical. */
  lemma Splice(x: seq<Interval>, m: Interval, y: seq<Interval>)
    ensures forall a :: Covers(x + [m] + y, a) <==> Covers(x, a) || m.lo <= a <= m.hi || Covers(y, a)
    ensures Canonical(x + [m] + y) ==>
              Canonical(x) && Canonical(y) && m.lo <= m.hi && EndsBefore(x, m.lo) && StartsAfter(y, m.hi)
    ensures Canonical(x) && Canonical(y) && m.lo <= m.hi && EndsBefore(x, m.lo) && StartsAfter(y, m.hi) ==>
              Canonical(x + [m] + y)
  {
    forall a ensures Covers(x + [m] + y, a) <==> Covers(x, a) || m.lo <= a <= m.hi || Covers(y, a) {
      CoversConcat(x + [m], y, a);
      CoversConcat(x, [m], a);
      assert [m][0] == m;
    }
    var p := x + [m] + y;
    if Canonical(p) {
      assert p[|x|] == m;
      assert forall i :: 0 <= i < |x| ==> x[i] == p[i];
      assert forall i :: 0 <= i < |y| ==> y[i] == p[|x| + 1 + i];
    }
  }

  lemma Join(x: seq<Interval>, y: seq<Interval>, lo: int, hi: int)
    requires Canonical(x) && Canonical(y) && lo <= hi && EndsBefore(x, lo) && StartsAfter(y, hi)
    ensures Canonical(x + y)
    ensures forall a :: Covers(x + y, a) <==> Covers(x, a) || Covers(y, a)
  {
    forall a ensures Covers(x + y, a) <==> Covers(x, a) || Covers(y, a) {
      CoversConcat(x, y, a);
    }
  }

  // ------------------------------------------------------------------
  // The free list
  // ------------------------------------------------------------------

  /** One list object of `_pool_map`; the methods below edit it in place. */
  class AddressPool {
    var intervals: seq<Interval>

    constructor (intervals: seq<Interval>)
      ensures this.intervals == intervals
    {
      this.intervals := intervals;
    }
  }

  /** Removes exactly `address`. An address that is not free is logged and ignored. */
  method OccupyIp(address: int, pool: AddressPool)
    requires Canonical(pool.intervals)
    modifies pool
    ensures Removes(old(pool.intervals), pool.intervals, address)
  {
    var i := 0;
    while i < |pool.intervals|
      invariant pool.intervals == old(pool.intervals)
      invariant 0 <= i <= |pool.intervals|
      invariant forall j :: 0 <= j < i ==> !Inside(address, pool.intervals[j])
    {
      var s, e := pool.intervals[i].lo, pool.intervals[i].hi;
      if s == e && s == address {
        OccupiedWhole(pool.intervals, i, address);
        pool.intervals := pool.intervals[..i] + pool.intervals[i + 1..];
        return;
      } else if address == s {
        OccupiedEnd(pool.intervals, i, address, Interval(s + 1, e));
        pool.intervals := pool.intervals[i := Interval(s + 1, e)];
        return;
      } else if address == e {
        OccupiedEnd(pool.intervals, i, address, Interval(s, e - 1));
        pool.intervals := pool.intervals[i := Interval(s, e - 1)];
        return;
      } else if s < address < e {
        OccupiedMiddle(pool.intervals, i, address);
        pool.intervals := pool.intervals[i := Interval(s, address - 1)];
        pool.intervals := pool.intervals[..i + 1] + [Interval(address + 1, e)] + pool.intervals[i + 1..];
        return;
      }
      i := i + 1;
    }
    assert !Covers(pool.intervals, address);
  }

  lemma OccupiedWhole(p: seq<Interval>, i: nat, address: int)
    requires Canonical(p) && i < |p| && p[i] == Interval(address, address)
    ensures Removes(p, p[..i] + p[i + 1..], address)
  {
    var x, y := p[..i], p[i + 1..];
    assert p == x + [p[i]] + y;
    Splice(x, p[i], y);
    Join(x, y, address, address);
    RemovesIf(p, x + y, address);
  }

  lemma OccupiedEnd(p: seq<Interval>, i: nat, address: int, m: Interval)
    requires Canonical(p) && i < |p| && p[i].lo < p[i].hi
    requires (address == p[i].lo && m == Interval(address + 1, p[i].hi))
          || (address == p[i].hi && m == Interval(p[i].lo, address - 1))
    ensures Removes(p, p[i := m], address)
  {
    var x, y := p[..i], p[i + 1..];
    assert p == x + [p[i]] + y && p[i := m] == x + [m] + y;
    Splice(x, p[i], y);
    Splice(x, m, y);
    RemovesIf(p, x + [m] + y, address);
  }

  lemma OccupiedMiddle(p: seq<Interval>, i: nat, address: int)
    requires Canonical(p) && i < |p| && p[i].lo < address < p[i].hi
    ensures var q := p[i := Interval(p[i].lo, address - 1)];
            Removes(p, q[..i + 1] + [Interval(address + 1, p[i].hi)] + q[i + 1..], address)
  {
    var x, y := p[..i], p[i + 1..];
    var q := p[i := Interval(p[i].lo, address - 1)];
    var left := x + [Interval(p[i].lo, address - 1)];
    assert p == x + [p[i]] + y && q[..i + 1] == left && q[i + 1..] == y && left + [] == left;
    Splice(x, p[i], y);
    Splice(x, Interval(p[i].lo, address - 1), []);
    Splice(left, Interval(address + 1, p[i].hi), y);
    RemovesIf(p, left + [Interval(address + 1, p[i].hi)] + y, address);
  }

  /** Adds exactly `address` to the set. The list stays canonical if and only if the
      address is not an end of a free interval: such an address slips past every test
      of the loop and is inserted a second time. */
  method ReleaseIp(address: int, pool: AddressPool)
    requires Canonical(pool.intervals)
    modifies pool
    ensures Adds(old(pool.intervals), pool.intervals, address)
    ensures Canonical(pool.intervals) <==> !old(AtBoundary(pool.intervals, address))
  {
    ghost var before := pool.intervals;
    var i := 0;
    while i < |pool.intervals|
      invariant pool.intervals == before
      invariant 0 <= i <= |before|
      invariant Passed(before[..i], address)
    {
      var s, e := pool.intervals[i].lo, pool.intervals[i].hi;
      if address < s - 1 {
        InsertedAt(pool.intervals, i, address);
        pool.intervals := pool.intervals[..i] + [Interval(address, address)] + pool.intervals[i..];
        return;
      } else if address == s - 1 {
        GrownDownAt(pool.intervals, i, address);
        pool.intervals := pool.intervals[i := Interval(s - 1, e)];
        return;
      } else if address == e + 1 {
        pool.intervals := pool.intervals[i := Interval(s, e + 1)];
        if i + 1 < |pool.intervals| {
          var next := pool.intervals[i + 1];
          if next.lo - 1 == address {
            MergedAt(before, i, address);
            pool.intervals := pool.intervals[i := Interval(s, next.hi)];
            pool.intervals := pool.intervals[..i + 1] + pool.intervals[i + 2..];
            return;
          }
        }
        GrownUpAt(before, i, address);
        return;
      } else if s < address < e {
        assert before == before[..i] + [before[i]] + before[i + 1..];
        assert before[i].lo <= address <= before[i].hi;
        return;
      }
      i := i + 1;
    }
    AppendedAt(before, address);
    pool.intervals := pool.intervals + [Interval(address, address)];
  }

  /** What the loop of `ReleaseIp` knows of the intervals it has passed. */
  ghost predicate Passed(x: seq<Interval>, address: int)
  {
    forall j :: 0 <= j < |x| ==> address > x[j].hi + 1 || address == x[j].lo || address == x[j].hi
  }

  lemma AppendedAt(p: seq<Interval>, address: int)
    requires Canonical(p) && Passed(p[..|p|], address)
    ensures Adds(p, p + [Interval(address, address)], address)
    ensures Canonical(p + [Interval(address, address)]) <==> !AtBoundary(p, address)
  {
    InsertedAt(p, |p|, address);
    assert p[..|p|] + [Interval(address, address)] + p[|p|..] == p + [Interval(address, address)];
  }

  lemma GrownDownAt(p: seq<Interval>, i: nat, address: int)
    requires Canonical(p) && i < |p| && address == p[i].lo - 1 && Passed(p[..i], address)
    ensures !AtBoundary(p, address)
    ensures var q := p[i := Interval(address, p[i].hi)];
            Canonical(q) && Adds(p, q, address)
  {
    var x, y := p[..i], p[i + 1..];
    assert p == x + [p[i]] + y && p[i := Interval(address, p[i].hi)] == x + [Interval(address, p[i].hi)] + y;
    Splice(x, p[i], y);
    Splice(x, Interval(address, p[i].hi), y);
    AddsIf(p, x + [Interval(address, p[i].hi)] + y, address);
  }

  lemma GrownUpAt(p: seq<Interval>, i: nat, address: int)
    requires Canonical(p) && i < |p| && address == p[i].hi + 1 && Passed(p[..i], address)
    requires i + 1 < |p| ==> p[i + 1].lo - 1 != address
    ensures !AtBoundary(p, address)
    ensures var q := p[i := Interval(p[i].lo, address)];
            Canonical(q) && Adds(p, q, address)
  {
    var x, y := p[..i], p[i + 1..];
    assert p == x + [p[i]] + y && p[i := Interval(p[i].lo, address)] == x + [Interval(p[i].lo, address)] + y;
    Splice(x, p[i], y);
    assert StartsAfter(y, address) by {
      forall k | 0 <= k < |y| ensures address + 1 < y[k].lo {
        if k > 0 { assert y[0].lo <= y[0].hi && y[0].hi + 1 < y[k].lo; }
      }
    }
    Splice(x, Interval(p[i].lo, address), y);
    AddsIf(p, x + [Interval(p[i].lo, address)] + y, address);
  }

  lemma MergedAt(p: seq<Interval>, i: nat, address: int)
    requires Canonical(p) && i + 1 < |p| && address == p[i].hi + 1 == p[i + 1].lo - 1 && Passed(p[..i], address)
    ensures !AtBoundary(p, address)
    ensures var q := p[i := Interval(p[i].lo, address)][i := Interval(p[i].lo, p[i + 1].hi)];
            var r := q[..i + 1] + q[i + 2..];
            Canonical(r) && Adds(p, r, address)
  {
    var x, y, z := p[..i], p[i + 1..], p[i + 2..];
    var m := Interval(p[i].lo, p[i + 1].hi);
    assert p == x + [p[i]] + y && y == [] + [p[i + 1]] + z;
    var q := p[i := Interval(p[i].lo, address)][i := m];
    assert q[..i + 1] + q[i + 2..] == x + [m] + z;
    Splice(x, p[i], y);
    Splice([], p[i + 1], z);
    Splice(x, m, z);
    AddsIf(p, x + [m] + z, address);
  }

  lemma InsertedAt(p: seq<Interval>, i: nat, address: int)
    requires Canonical(p) && i <= |p| && Passed(p[..i], address)
    requires i < |p| ==> address < p[i].lo - 1
    ensures var q := p[..i] + [Interval(address, address)] + p[i..];
            Adds(p, q, address) && (Canonical(q) <==> !AtBoundary(p, address))
  {
    var x, m, y := p[..i], Interval(address, address), p[i..];
    assert p == x + y;
    InsertedSet(x, m, y, address);
    Splice(x, m, y);
  }

  lemma InsertedSet(x: seq<Interval>, m: Interval, y: seq<Interval>, address: int)
    requires m == Interval(address, address)
    ensures Adds(x + y, x + [m] + y, address)
  {
    Splice(x, m, y);
    forall a ensures Covers(x + [m] + y, a) <==> Covers(x + y, a) || a == address {
      CoversConcat(x, y, a);
    }
    AddsIf(x + y, x + [m] + y, address);
  }

  /** Two canonical lists with the same addresses are the same list. */
  lemma SameAddressesSameList(p: seq<Interval>, q: seq<Interval>)
    requires Canonical(p) && Canonical(q) && Addresses(p) == Addresses(q)
    ensures p == q
  {
    forall a ensures Covers(p, a) <==> Covers(q, a) {
      assert a in Addresses(p) <==> a in Addresses(q);
    }
    CanonicalUnique(p, q);
  }

  /** Occupying a free address and releasing it again restores the identical list. */
  method OccupyThenRelease(address: int, pool: AddressPool)
    requires Canonical(pool.intervals) && address in Addresses(pool.intervals)
    modifies pool
    ensures pool.intervals == old(pool.intervals)
  {
    OccupyIp(address, pool);
    assert !AtBoundary(pool.intervals, address);
    ReleaseIp(address, pool);
    SameAddressesSameList(old(pool.intervals), pool.intervals);
  }

  // ------------------------------------------------------------------
  // The initial pool of a subnet
  // ------------------------------------------------------------------

  datatype RawRange = Range(first: int, last: int)

  type Range = r: RawRange | r.first <= r.last witness Range(0, 0)

  datatype Subnet = Subnet(cidr: Range, ipRange: Option<Range>, discovery: Option<Range>)

  predicate Within(a: int, r: Range)
  {
    r.first <= a <= r.last
  }

  predicate InDiscovery(subnet: Subnet, a: int)
  {
    subnet.discovery.Some? && Within(a, subnet.discovery.value)
  }

  /** The range addresses are handed out from. */
  function PoolRange(subnet: Subnet): Range
  {
    if subnet.ipRange.Some? then subnet.ipRange.value else subnet.cidr
  }

  /** The configured ranges overlap; an unset address range overlaps nothing. */
  predicate RangesOverlap(subnet: Subnet)
  {
    subnet.discovery.Some? && subnet.ipRange.Some? &&
    subnet.discovery.value.first <= subnet.ipRange.value.last &&
    subnet.ipRange.value.first <= subnet.discovery.value.last
  }

  /** Ports inside the discovery range are skipped, every other port is occupied. */
  method CalculatePool(subnet: Subnet, ports: seq<Option<int>>) returns (r: Result<AddressPool, IpamError>)
    ensures r.Failure? <==> RangesOverlap(subnet)
    ensures r.Failure? ==> r.error == IpRangeOverlap
    ensures r.Success? ==> fresh(r.value) && Canonical(r.value.intervals)
    ensures r.Success? ==> forall a :: a in Addresses(r.value.intervals) <==>
              Within(a, PoolRange(subnet)) && !(Some(a) in ports && !InDiscovery(subnet, a))
  {
    var range := PoolRange(subnet);
    if RangesOverlap(subnet) {
      return Failure(IpRangeOverlap);
    }
    var pool := new AddressPool([Interval(range.first, range.last)]);
    CoversCons(pool.intervals);
    for i := 0 to |ports|
      invariant Canonical(pool.intervals)
      invariant forall a :: a in Addresses(pool.intervals) <==>
                  Within(a, range) && !(Some(a) in ports[..i] && !InDiscovery(subnet, a))
    {
      assert ports[..i + 1] == ports[..i] + [ports[i]];
      if ports[i].Some? {
        var ip := ports[i].value;
        if InDiscovery(subnet, ip) {
          continue;
        }
        OccupyIp(ip, pool);
      }
    }
    assert ports[..|ports|] == ports;
    r := Success(pool);
  }

  /** The initial pool excludes every port's address if and only if no port of the pool's
      own range sits in the discovery range. With an address range configured, or without
      a discovery range, that is always so. */
  lemma PortsExcludedIff(subnet: Subnet, ports: seq<Option<int>>, pool: set<int>)
    requires !RangesOverlap(subnet)
    requires forall a :: a in pool <==>
               Within(a, PoolRange(subnet)) && !(Some(a) in ports && !InDiscovery(subnet, a))
    ensures (forall a :: Some(a) in ports ==> a !in pool) <==>
            !exists a :: Some(a) in ports && Within(a, PoolRange(subnet)) && InDiscovery(subnet, a)
    ensures subnet.ipRange.Some? || subnet.discovery.None? ==> forall a :: Some(a) in ports ==> a !in pool
  {
  }

  // ------------------------------------------------------------------
  // The allocator
  // ------------------------------------------------------------------

  class Ipam {
    var poolMap: map<SubnetId, AddressPool>

    /** Every list is canonical and no list is shared by two subnets. */
    ghost predicate Valid()
      reads this, poolMap.Values
    {
      && (forall s :: s in poolMap ==> Canonical(poolMap[s].intervals))
      && (forall s, t :: s in poolMap && t in poolMap && s != t ==> poolMap[s] != poolMap[t])
    }

    /** The free addresses of a subnet. */
    ghost function Free(subnet: SubnetId): set<int>
      requires subnet in poolMap
      reads this, poolMap.Values
    {
      Addresses(poolMap[subnet].intervals)
    }

    constructor ()
      ensures Valid() && poolMap == map[]
    {
      poolMap := map[];
    }

    method AddSubnet(id: SubnetId, subnet: Subnet, ports: seq<Option<int>>) returns (r: Result<(), IpamError>)
      requires Valid()
      modifies this
      ensures Valid()
      ensures r.Failure? <==> RangesOverlap(subnet)
      ensures r.Failure? ==> poolMap == old(poolMap)
      ensures r.Success? ==> poolMap.Keys == old(poolMap.Keys) + {id} && fresh(poolMap[id])
      ensures r.Success? ==> forall s :: s in old(poolMap) && s != id ==> poolMap[s] == old(poolMap[s])
      ensures r.Success? ==> forall a :: a in Free(id) <==>
                Within(a, PoolRange(subnet)) && !(Some(a) in ports && !InDiscovery(subnet, a))
    {
      var pool := CalculatePool(subnet, ports);
      if pool.Failure? {
        return Failure(pool.error);
      }
      poolMap := poolMap[id := pool.value];
      r := Success(());
    }

    /** Hands out the target if there is one, else the least free address, and removes it
        from the free list. A target that is not free is handed out all the same. */
    method AllocateIp(subnet: SubnetId, target: Option<int>) returns (r: Result<int, IpamError>)
      requires Valid()
      modifies if subnet in poolMap then {poolMap[subnet]} else {}
      ensures Valid()
      ensures subnet !in poolMap ==> r == Failure(UndefinedSubnet)
      ensures subnet in poolMap && old(Free(subnet)) == {} ==> r == Failure(NoIPsAvailable) && Free(subnet) == {}
      ensures subnet in poolMap && old(Free(subnet)) != {} ==>
                && r.Success?
                && Free(subnet) == old(Free(subnet)) - {r.value}
                && r.value == (if target.Some? then target.value else Least(old(Free(subnet))))
    {
      if subnet !in poolMap {
        return Failure(UndefinedSubnet);
      }
      var pool := poolMap[subnet];
      if |pool.intervals| == 0 {
        assert pool.intervals == [];
        assert forall a :: a !in Addresses([]);
        return Failure(NoIPsAvailable);
      }
      FirstIsCovered(pool.intervals);
      if target.Some? {
        OccupyIp(target.value, pool);
        return Success(target.value);
      }
      var start, end := pool.intervals[0].lo, pool.intervals[0].hi;
      if start == end {
        OccupiedWhole(pool.intervals, 0, start);
        assert pool.intervals[..0] + pool.intervals[1..] == pool.intervals[1..];
        pool.intervals := pool.intervals[1..];
      } else {
        OccupiedEnd(pool.intervals, 0, start, Interval(start + 1, end));
        pool.intervals := pool.intervals[0 := Interval(start + 1, end)];
      }
      r := Success(start);
    }

    /** Frees exactly `address`; the allocator stays well formed if and only if the address
        is not an end of a free interval. */
    method DeallocateIp(subnet: SubnetId, address: int) returns (r: Result<(), IpamError>)
      requires Valid()
      modifies if subnet in poolMap then {poolMap[subnet]} else {}
      ensures r == if subnet in poolMap then Success(()) else Failure(UndefinedSubnet)
      ensures r.Failure? ==> Valid()
      ensures r.Success? ==> Free(subnet) == old(Free(subnet)) + {address}
      ensures r.Success? ==> (Valid() <==> !old(AtBoundary(poolMap[subnet].intervals, address)))
    {
      if subnet !in poolMap {
        return Failure(UndefinedSubnet);
      }
      ReleaseIp(address, poolMap[subnet]);
      r := Success(());
    }
  }

  /** The least element of a non-empty set of addresses. */
  ghost function Least(s: set<int>): (m: int)
    requires s != {}
    ensures m in s && forall x :: x in s ==> m <= x
  {
    HasLeast(s);
    var m :| m in s && forall x :: x in s ==> m <= x;
    m
  }

  lemma {:induction false} HasLeast(s: set<int>)
    requires s != {}
    ensures exists m :: m in s && forall x :: x in s ==> m <= x
  {
    var x := PickFrom(s);
    var rest := s - {x};
    if rest == {} {
      assert s == {x};
    } else {
      HasLeast(rest);
      var m :| m in rest && forall y :: y in rest ==> m <= y;
      var k := if m < x then m else x;
      assert forall y :: y in s ==> y == x || y in rest;
      assert k in s && forall y :: y in s ==> k <= y;
    }
  }
}
