/** The prerequisite check for Docker's default address pools, and what its acceptance guarantees. */
module AddressPools {
  import opened Options
  import opened Prefixes
  import opened ChildSubnets

  /** A configured pool; base is None when its text is not a CIDR prefix. */
  datatype Pool = Pool(base: Option<Prefix>, size: int)

  datatype Route = Route(interface: string, prefix: Prefix)

  datatype PoolError = NoPool | NotIPv4 | NotPrivate | BadSize | PoolsOverlap | RouteOverlap | TooFew(available: nat)

  const MINIMUM: nat := 64

  /** The private ranges of section 3 of RFC 1918: 10/8, 172.16/12 and 192.168/16. */
  const PRIVATE := [Prefix(32, 167772160, 8), Prefix(32, 2886729728, 12), Prefix(32, 3232235520, 16)]

  lemma AddressSpace()
    ensures Pow2(32) == 4294967296
  {
    assert Pow2(8) == 256;
    hide Pow2;
    Pow2Add(8, 8);
    Pow2Add(16, 16);
  }

  lemma PrivateIsValid()
    ensures forall k :: 0 <= k < |PRIVATE| ==> Valid(PRIVATE[k])
  {
    AddressSpace();
    hide Pow2;
  }

  ghost predicate WellFormed(pools: seq<Pool>, networks: seq<Network>, routes: seq<Route>) {
    && (forall k :: 0 <= k < |pools| && pools[k].base.Some? ==> Valid(pools[k].base.value))
    && AllValid(networks)
    && (forall k :: 0 <= k < |routes| ==> Valid(routes[k].prefix))
  }

  predicate IsPrivate(p: Prefix)
    requires Valid(p)
  {
    PrivateIsValid();
    exists k :: 0 <= k < |PRIVATE| && PRIVATE[k].bits <= p.bits && Contains(PRIVATE[k], p.width, p.addr)
  }

  /** The pool's base parses, is private IPv4, and is cut into subnets of at most 24 bits. */
  predicate Usable(pool: Pool) {
    && pool.base.Some? && Valid(pool.base.value) && Is4(pool.base.value)
    && MaskedIsValid(pool.base.value)
    && IsPrivate(Masked(pool.base.value))
    && Masked(pool.base.value).bits < pool.size <= 24
  }

  predicate MaskedIsValid(p: Prefix)
    requires Valid(p)
    ensures MaskedIsValid(p)
  {
    MaskingKeepsOverlap(p, p);
    Valid(Masked(p)) && Masked(Masked(p)) == Masked(p)
  }

  function Base(pool: Pool): (p: Prefix)
    requires Usable(pool)
    ensures PoolBase(p, pool.size) && p.bits < pool.size <= 24
  {
    Masked(pool.base.value)
  }

  predicate AllUsable(pools: seq<Pool>) {
    forall k :: 0 <= k < |pools| ==> Usable(pools[k])
  }

  predicate IsDockerRoute(route: Route, networks: seq<Network>)
    requires Valid(route.prefix) && AllValid(networks)
  {
    exists k :: && 0 <= k < |networks| && networks[k].interface != "" && route.interface == networks[k].interface
                && Masked(route.prefix) == Masked(networks[k].subnet)
  }

  /** The routes that pools must stay clear of: IPv4, not the default route, not a Docker network's own. */
  predicate Relevant(route: Route, networks: seq<Network>)
    requires Valid(route.prefix) && AllValid(networks)
  {
    Is4(route.prefix) && route.prefix.bits != 0 && !IsDockerRoute(route, networks)
  }

  ghost predicate PoolsDisjoint(pools: seq<Pool>)
    requires AllUsable(pools)
  {
    forall i, j :: 0 <= i < j < |pools| ==> !PrefixesOverlap(Base(pools[i]), Base(pools[j]))
  }

  ghost predicate RoutesClear(pools: seq<Pool>, networks: seq<Network>, routes: seq<Route>)
    requires WellFormed(pools, networks, routes) && AllUsable(pools)
  {
    forall r, k :: 0 <= r < |routes| && 0 <= k < |pools| && Relevant(routes[r], networks) ==>
      !PrefixesOverlap(routes[r].prefix, Base(pools[k]))
  }

  /** The free children of one pool, by index. */
  ghost function FreeIndices(pool: Pool, networks: seq<Network>): set<nat>
    requires Usable(pool) && AllValid(networks)
  {
    Span(0, Total(Base(pool), pool.size)) - TakenSet(Base(pool), pool.size, networks)
  }

  /** All free children, as pairs of a pool's position and a child's index. */
  ghost function FreeChildren(pools: seq<Pool>, networks: seq<Network>): set<(nat, nat)>
    requires AllUsable(pools) && AllValid(networks)
    decreases |pools|
  {
    if pools == [] then {}
    else
      var last := |pools| - 1;
      FreeChildren(pools[..last], networks) + Tagged(last, FreeIndices(pools[last], networks))
  }

  ghost function Tagged(k: nat, indices: set<nat>): set<(nat, nat)> {
    set i | i in indices :: (k, i)
  }

  ghost predicate Sufficient(pools: seq<Pool>, networks: seq<Network>, routes: seq<Route>)
    requires WellFormed(pools, networks, routes)
  {
    && pools != [] && AllUsable(pools) && PoolsDisjoint(pools) && RoutesClear(pools, networks, routes)
    && |FreeChildren(pools, networks)| >= MINIMUM
  }

  // ----- the check ------------------------------------------------------------------------------

  method CheckPools(pools: seq<Pool>) returns (r: Option<PoolError>)
    requires forall k :: 0 <= k < |pools| && pools[k].base.Some? ==> Valid(pools[k].base.value)
    ensures r.None? <==> AllUsable(pools)
    ensures r.Some? ==> r.value in {NotIPv4, NotPrivate, BadSize}
  {
    for k := 0 to |pools|
      invariant forall i :: 0 <= i < k ==> Usable(pools[i])
    {
      var pool := pools[k];
      if pool.base.None? || !Is4(pool.base.value) {
        return Some(NotIPv4);
      }
      assert MaskedIsValid(pool.base.value);
      var prefix := Masked(pool.base.value);
      if !IsPrivate(prefix) {
        return Some(NotPrivate);
      }
      if pool.size <= prefix.bits || pool.size > 24 {
        return Some(BadSize);
      }
    }
    return None;
  }

  /** The first of the pools from position k on that overlaps the prefix, or their number. */
  method FirstOverlap(prefix: Prefix, pools: seq<Pool>, k: nat) returns (at: nat)
    requires Valid(prefix) && AllUsable(pools) && k <= |pools|
    ensures k <= at <= |pools| && (at < |pools| ==> PrefixesOverlap(prefix, Base(pools[at])))
    ensures forall b :: k <= b < at ==> !PrefixesOverlap(prefix, Base(pools[b]))
  {
    hide Usable;
    hide Masked;
    hide Pow2;
    hide PrefixesOverlap;
    at := k;
    while at < |pools| && !PrefixesOverlap(prefix, Base(pools[at]))
      invariant k <= at <= |pools|
      invariant forall b :: k <= b < at ==> !PrefixesOverlap(prefix, Base(pools[b]))
    {
      at := at + 1;
    }
  }

  method CheckDisjoint(pools: seq<Pool>) returns (ok: bool)
    requires AllUsable(pools)
    ensures ok <==> PoolsDisjoint(pools)
  {
    hide Usable;
    hide PrefixesOverlap;
    for i := 0 to |pools|
      invariant forall a, b :: 0 <= a < i && a < b < |pools| ==> !PrefixesOverlap(Base(pools[a]), Base(pools[b]))
    {
      var j := FirstOverlap(Base(pools[i]), pools, i + 1);
      if j < |pools| {
        return false;
      }
    }
    return true;
  }

  method CheckRoutes(pools: seq<Pool>, networks: seq<Network>, routes: seq<Route>) returns (ok: bool)
    requires WellFormed(pools, networks, routes) && AllUsable(pools)
    ensures ok <==> RoutesClear(pools, networks, routes)
  {
    hide Usable;
    hide PrefixesOverlap;
    hide IsDockerRoute;
    for r := 0 to |routes|
      invariant forall a, k :: 0 <= a < r && 0 <= k < |pools| && Relevant(routes[a], networks) ==>
        !PrefixesOverlap(routes[a].prefix, Base(pools[k]))
    {
      assert MaskedIsValid(routes[r].prefix);
      var prefix := Masked(routes[r].prefix);
      if Is4(prefix) && prefix.bits != 0 && !IsDockerRoute(routes[r], networks) {
        var k := FirstOverlap(prefix, pools, 0);
        forall b | 0 <= b < |pools|
          ensures PrefixesOverlap(routes[r].prefix, Base(pools[b])) <==> PrefixesOverlap(prefix, Base(pools[b]))
        {
          MaskedRouteOverlaps(routes[r].prefix, Base(pools[b]));
        }
        if k < |pools| {
          return false;
        }
      }
    }
    return true;
  }

  lemma MaskedRouteOverlaps(route: Prefix, base: Prefix)
    requires Valid(route) && Valid(base)
    ensures Valid(Masked(route)) && (PrefixesOverlap(route, base) <==> PrefixesOverlap(Masked(route), base))
  {
    MaskingKeepsOverlap(base, route);
    OverlapIsSymmetric(route, base);
    OverlapIsSymmetric(Masked(route), base);
  }

  lemma OverlapIsSymmetric(a: Prefix, b: Prefix)
    requires Valid(a) && Valid(b)
    ensures PrefixesOverlap(a, b) <==> PrefixesOverlap(b, a)
  {
  }

  lemma {:induction false} TaggedSize(k: nat, indices: set<nat>)
    ensures |Tagged(k, indices)| == |indices|
  {
    if indices != {} {
      var i :| i in indices;
      TaggedSize(k, indices - {i});
      assert Tagged(k, indices) == Tagged(k, indices - {i}) + {(k, i)};
    }
  }

  /** Tags below the number of pools; indices free in the tagged pool. */
  lemma {:induction false} FreeChildrenAre(pools: seq<Pool>, networks: seq<Network>)
    requires AllUsable(pools) && AllValid(networks)
    ensures forall c :: c in FreeChildren(pools, networks) <==>
              c.0 < |pools| && c.1 in FreeIndices(pools[c.0], networks)
    decreases |pools|
  {
    hide Usable, FreeIndices, AllValid;
    if pools != [] {
      var n := |pools| - 1;
      FreeChildrenAre(pools[..n], networks);
      forall c ensures c in FreeChildren(pools, networks) <==> c.0 < |pools| && c.1 in FreeIndices(pools[c.0], networks) {
        if c.0 < n { assert pools[..n][c.0] == pools[c.0]; }
      }
    }
  }

  /** Add up, pool by pool, the children that no network takes. */
  method CountAvailable(pools: seq<Pool>, networks: seq<Network>) returns (available: nat)
    requires AllUsable(pools) && AllValid(networks)
    ensures available == |FreeChildren(pools, networks)|
  {
    available := 0;
    for k := 0 to |pools|
      invariant available == |FreeChildren(pools[..k], networks)|
    {
      var base, size := Base(pools[k]), pools[k].size;
      var total := Total(base, size);
      var occupied := OccupiedChildSubnets(base, size, networks);
      AddPool(pools, networks, k);
      if occupied < total {
        available := available + (total - occupied);
      }
    }
    assert pools[..|pools|] == pools;
  }

  lemma AddPool(pools: seq<Pool>, networks: seq<Network>, k: nat)
    requires AllUsable(pools) && AllValid(networks) && k < |pools|
    requires |TakenSet(Base(pools[k]), pools[k].size, networks)| <= Total(Base(pools[k]), pools[k].size)
    ensures |FreeChildren(pools[..k + 1], networks)| == |FreeChildren(pools[..k], networks)|
            + (Total(Base(pools[k]), pools[k].size) - |TakenSet(Base(pools[k]), pools[k].size, networks)|)
  {
    hide Usable, FreeIndices, AllValid, TakenSet, Total, Base;
    var indices := FreeIndices(pools[k], networks);
    FreeSize(pools[k], networks);
    TaggedSize(k, indices);
    FreeChildrenAre(pools[..k], networks);
    assert pools[..k + 1][..k] == pools[..k];
    assert FreeChildren(pools[..k], networks) !! Tagged(k, indices);
  }

  lemma FreeSize(pool: Pool, networks: seq<Network>)
    requires Usable(pool) && AllValid(networks)
    ensures |FreeIndices(pool, networks)| == Total(Base(pool), pool.size) - |TakenSet(Base(pool), pool.size, networks)|
  {
    hide Taken, Base;
    var taken, all := TakenSet(Base(pool), pool.size, networks), Span(0, Total(Base(pool), pool.size));
    assert taken <= all;
    assert all == FreeIndices(pool, networks) + taken;
  }

  /** Accept exactly the configurations that leave room; say which condition failed first otherwise. */
  method ValidateNetworkPrerequisites(pools: seq<Pool>, networks: seq<Network>, routes: seq<Route>)
    returns (r: Result<(), PoolError>)
    requires WellFormed(pools, networks, routes)
    ensures r.Ok? <==> Sufficient(pools, networks, routes)
    ensures r == Err(NoPool) <==> pools == []
    ensures r.Err? && r.error in {NotIPv4, NotPrivate, BadSize} <==> pools != [] && !AllUsable(pools)
    ensures r == Err(PoolsOverlap) <==> pools != [] && AllUsable(pools) && !PoolsDisjoint(pools)
    ensures r == Err(RouteOverlap) <==>
              pools != [] && AllUsable(pools) && PoolsDisjoint(pools) && !RoutesClear(pools, networks, routes)
    ensures r.Err? && r.error.TooFew? ==> AllUsable(pools) && r.error.available == |FreeChildren(pools, networks)|
    ensures pools != [] && AllUsable(pools) && PoolsDisjoint(pools) && RoutesClear(pools, networks, routes) ==>
              (r.Ok? <==> |FreeChildren(pools, networks)| >= 64)
  {
    if pools == [] {
      return Err(NoPool);
    }
    var bad := CheckPools(pools);
    if bad.Some? {
      return Err(bad.value);
    }
    var disjoint := CheckDisjoint(pools);
    if !disjoint {
      return Err(PoolsOverlap);
    }
    var clear := CheckRoutes(pools, networks, routes);
    if !clear {
      return Err(RouteOverlap);
    }
    var available := CountAvailable(pools, networks);
    if available < MINIMUM {
      return Err(TooFew(available));
    }
    return Ok(());
  }

  // ----- what acceptance means --------------------------------------------------------------------

  ghost function ChildOf(pools: seq<Pool>, c: (nat, nat)): Prefix
    requires AllUsable(pools) && c.0 < |pools|
  {
    Child(Base(pools[c.0]), pools[c.0].size, c.1)
  }

  /** Every address of the child. */
  ghost predicate Within(child: Prefix, outer: Prefix)
    requires Valid(child) && Valid(outer)
  {
    forall x: nat :: Contains(child, child.width, x) ==> Contains(outer, child.width, x)
  }

  lemma FreeChildIsValid(pools: seq<Pool>, networks: seq<Network>, c: (nat, nat))
    requires AllUsable(pools) && AllValid(networks) && c in FreeChildren(pools, networks)
    ensures c.0 < |pools| && c.1 < Total(Base(pools[c.0]), pools[c.0].size) && Valid(ChildOf(pools, c))
    ensures !Taken(Base(pools[c.0]), pools[c.0].size, networks, c.1)
    ensures Masked(ChildOf(pools, c)) == ChildOf(pools, c)
  {
    FreeChildrenAre(pools, networks);
    ChildIsMasked(Base(pools[c.0]), pools[c.0].size, c.1);
  }

  /** A free child lies in its pool, and so in a private range. */
  lemma FreeChildIsPrivate(pools: seq<Pool>, networks: seq<Network>, c: (nat, nat))
    requires AllUsable(pools) && AllValid(networks) && c in FreeChildren(pools, networks)
    ensures c.0 < |pools| && Valid(ChildOf(pools, c))
    ensures Within(ChildOf(pools, c), Base(pools[c.0]))
    ensures exists k :: 0 <= k < |PRIVATE| && Valid(PRIVATE[k]) && Within(ChildOf(pools, c), PRIVATE[k])
  {
    FreeChildIsValid(pools, networks, c);
    var base, child := Base(pools[c.0]), ChildOf(pools, c);
    ChildIsValid(base, pools[c.0].size, c.1);
    forall x: nat | Contains(child, child.width, x)
      ensures Contains(base, child.width, x)
    {
      MaskedRange(child, x);
      MaskedRange(base, x);
    }
    PrivateIsValid();
    var k :| 0 <= k < |PRIVATE| && PRIVATE[k].bits <= base.bits && Contains(PRIVATE[k], base.width, base.addr);
    forall x: nat | Contains(child, child.width, x)
      ensures Contains(PRIVATE[k], child.width, x)
    {
      assert Contains(base, child.width, x);
      CoarserAgrees(PRIVATE[k], base, x);
    }
  }

  /** A free child shares no address with any IPv4 network, nor with any IPv4 route but a default route. */
  lemma FreeChildIsClear(pools: seq<Pool>, networks: seq<Network>, routes: seq<Route>, c: (nat, nat))
    requires WellFormed(pools, networks, routes) && AllUsable(pools) && RoutesClear(pools, networks, routes)
    requires c in FreeChildren(pools, networks)
    ensures c.0 < |pools| && Valid(ChildOf(pools, c))
    ensures forall k :: 0 <= k < |networks| && Is4(networks[k].subnet) ==>
              !ShareAddress(ChildOf(pools, c), networks[k].subnet)
    ensures forall r :: 0 <= r < |routes| && Is4(routes[r].prefix) && routes[r].prefix.bits != 0 ==>
              !ShareAddress(ChildOf(pools, c), routes[r].prefix)
  {
    FreeChildIsValid(pools, networks, c);
    var base, size, child := Base(pools[c.0]), pools[c.0].size, ChildOf(pools, c);
    forall k | 0 <= k < |networks| && Is4(networks[k].subnet)
      ensures !ShareAddress(child, networks[k].subnet) && !PrefixesOverlap(child, networks[k].subnet)
    {
      assert !TakenBy(base, size, c.1, networks[k]);
      OverlapIffShared(child, networks[k].subnet);
    }
    forall r | 0 <= r < |routes| && Is4(routes[r].prefix) && routes[r].prefix.bits != 0
      ensures !ShareAddress(child, routes[r].prefix)
    {
      OverlapIffShared(child, routes[r].prefix);
      if IsDockerRoute(routes[r], networks) {
        var k :| && 0 <= k < |networks| && networks[k].interface != "" && routes[r].interface == networks[k].interface
                 && Masked(routes[r].prefix) == Masked(networks[k].subnet);
        MaskingKeepsOverlap(child, routes[r].prefix);
        MaskingKeepsOverlap(child, networks[k].subnet);
      } else {
        OverlapIsSymmetric(base, routes[r].prefix);
        OutsideTakesNothing(base, size, routes[r].prefix, c.1);
      }
    }
  }

  /** Two different free children share no address. */
  lemma FreeChildrenAreDisjoint(pools: seq<Pool>, networks: seq<Network>, a: (nat, nat), b: (nat, nat))
    requires AllUsable(pools) && AllValid(networks) && PoolsDisjoint(pools)
    requires a in FreeChildren(pools, networks) && b in FreeChildren(pools, networks) && a != b
    ensures a.0 < |pools| && b.0 < |pools| && Valid(ChildOf(pools, a)) && Valid(ChildOf(pools, b))
    ensures !ShareAddress(ChildOf(pools, a), ChildOf(pools, b))
  {
    FreeChildIsValid(pools, networks, a);
    FreeChildIsValid(pools, networks, b);
    if a.0 == b.0 {
      SiblingsAreDisjoint(Base(pools[a.0]), pools[a.0].size, a.1, b.1);
    } else {
      FreeChildIsPrivate(pools, networks, a);
      FreeChildIsPrivate(pools, networks, b);
      OverlapIsSymmetric(Base(pools[a.0]), Base(pools[b.0]));
      OverlapIffShared(Base(pools[a.0]), Base(pools[b.0]));
      forall x: nat
        ensures !(Contains(ChildOf(pools, a), 32, x) && Contains(ChildOf(pools, b), 32, x))
      {
        assert Contains(ChildOf(pools, a), 32, x) ==> Contains(Base(pools[a.0]), 32, x);
        assert Contains(ChildOf(pools, b), 32, x) ==> Contains(Base(pools[b.0]), 32, x);
      }
    }
  }

  lemma SiblingsAreDisjoint(base: Prefix, size: nat, i: nat, j: nat)
    requires PoolBase(base, size) && i < Total(base, size) && j < Total(base, size) && i != j
    ensures Valid(Child(base, size, i)) && Valid(Child(base, size, j))
    ensures !ShareAddress(Child(base, size, i), Child(base, size, j))
  {
    hide Pow2, ChildSize, Masked, PrefixesOverlap, ShareAddress;
    var a, b := Child(base, size, i), Child(base, size, j);
    ChildIsValid(base, size, i);
    ChildIsValid(base, size, j);
    ChildIsMasked(base, size, i);
    ChildIsMasked(base, size, j);
    RangesMeet(a, b);
    OverlapIffShared(a, b);
    var c := ChildSize(size);
    assert a.addr == base.addr + i * c && b.addr == base.addr + j * c;
    if i < j {
      FitsInside(i, j, c);
    } else {
      FitsInside(j, i, c);
    }
  }

  /**
   An accepted configuration has at least 64 pairwise disjoint child subnets, each inside a configured
   pool and a private range, none sharing an address with an IPv4 Docker network or an IPv4 host route
   other than a zero-length one.
   */
  lemma AcceptedPoolsLeaveRoom(pools: seq<Pool>, networks: seq<Network>, routes: seq<Route>)
    requires WellFormed(pools, networks, routes) && Sufficient(pools, networks, routes)
    ensures |FreeChildren(pools, networks)| >= 64
    ensures forall c :: c in FreeChildren(pools, networks) ==>
              && c.0 < |pools| && Valid(ChildOf(pools, c)) && Within(ChildOf(pools, c), Base(pools[c.0]))
              && (exists k :: 0 <= k < |PRIVATE| && Valid(PRIVATE[k]) && Within(ChildOf(pools, c), PRIVATE[k]))
              && (forall k :: 0 <= k < |networks| && Is4(networks[k].subnet) ==>
                    !ShareAddress(ChildOf(pools, c), networks[k].subnet))
              && (forall r :: 0 <= r < |routes| && Is4(routes[r].prefix) && routes[r].prefix.bits != 0 ==>
                    !ShareAddress(ChildOf(pools, c), routes[r].prefix))
    ensures forall a, b :: a in FreeChildren(pools, networks) && b in FreeChildren(pools, networks) && a != b ==>
              !ShareAddress(ChildOf(pools, a), ChildOf(pools, b))
  {
    hide Usable;
    hide Within;
    hide ShareAddress;
    forall c | c in FreeChildren(pools, networks)
      ensures && c.0 < |pools| && Valid(ChildOf(pools, c)) && Within(ChildOf(pools, c), Base(pools[c.0]))
              && (exists k :: 0 <= k < |PRIVATE| && Valid(PRIVATE[k]) && Within(ChildOf(pools, c), PRIVATE[k]))
              && (forall k :: 0 <= k < |networks| && Is4(networks[k].subnet) ==>
                    !ShareAddress(ChildOf(pools, c), networks[k].subnet))
              && (forall r :: 0 <= r < |routes| && Is4(routes[r].prefix) && routes[r].prefix.bits != 0 ==>
                    !ShareAddress(ChildOf(pools, c), routes[r].prefix))
    {
      FreeChildIsPrivate(pools, networks, c);
      FreeChildIsClear(pools, networks, routes, c);
    }
    forall a, b | a in FreeChildren(pools, networks) && b in FreeChildren(pools, networks) && a != b
      ensures !ShareAddress(ChildOf(pools, a), ChildOf(pools, b))
    {
      FreeChildrenAreDisjoint(pools, networks, a, b);
    }
  }

  // ----- which pools and routes count -----------------------------------------------------------------

  /** Every address of the prefix lies from first to last. */
  ghost predicate Lies(p: Prefix, first: nat, last: nat)
    requires Valid(p)
  {
    forall x: nat :: Contains(p, p.width, x) ==> first <= x <= last
  }

  lemma PrivateSizes()
    ensures Pow2(24) == 16777216 && Pow2(20) == 1048576 && Pow2(16) == 65536
  {
    assert Pow2(8) == 256 && Pow2(4) == 16;
    hide Pow2;
    Pow2Add(8, 8);
    Pow2Add(16, 8);
    Pow2Add(16, 4);
  }

  /** A masked prefix contains another exactly when every address of the other lies in its range. */
  lemma ContainedExactly(outer: Prefix, p: Prefix)
    requires Valid(outer) && Valid(p) && Masked(outer) == outer && outer.width == p.width
    ensures outer.bits <= p.bits && Contains(outer, p.width, p.addr) <==> Lies(p, outer.addr, outer.addr + Size(outer) - 1)
  {
    hide Pow2, Masked;
    MaskedRange(p, p.addr);
    if outer.bits <= p.bits && Contains(outer, p.width, p.addr) {
      forall x: nat | Contains(p, p.width, x) ensures outer.addr <= x <= outer.addr + Size(outer) - 1 {
        CoarserAgrees(outer, p, x);
        MaskedRange(outer, x);
      }
    }
    if Lies(p, outer.addr, outer.addr + Size(outer) - 1) {
      var first, last := Masked(p).addr, Masked(p).addr + Size(p) - 1;
      MaskedRange(p, first);
      MaskedRange(p, last);
      assert Contains(p, p.width, first) && Contains(p, p.width, last) && Contains(p, p.width, p.addr);
      MaskedRange(outer, p.addr);
      assert Size(p) <= Size(outer);
      if p.bits < outer.bits { Pow2Grows(p.width - outer.bits, p.width - p.bits); }
    }
  }

  /**
   An IPv4 prefix is private exactly when all of it lies in 10.0.0.0 to 10.255.255.255, 172.16.0.0 to 172.31.255.255
   or 192.168.0.0 to 192.168.255.255.
   */
  lemma PrivateExactly(p: Prefix)
    requires Valid(p) && Is4(p)
    ensures IsPrivate(p) <==>
            Lies(p, 167772160, 184549375) || Lies(p, 2886729728, 2887778303) || Lies(p, 3232235520, 3232301055)
  {
    hide Pow2, Lies, Contains, IsPrivate, Masked, Size;
    PrivateBlocks();
    PrivateCases(p);
    ContainedExactly(PRIVATE[0], p);
    ContainedExactly(PRIVATE[1], p);
    ContainedExactly(PRIVATE[2], p);
  }

  lemma PrivateBlocks()
    ensures Valid(PRIVATE[0]) && Masked(PRIVATE[0]) == PRIVATE[0] && Size(PRIVATE[0]) == 16777216
    ensures Valid(PRIVATE[1]) && Masked(PRIVATE[1]) == PRIVATE[1] && Size(PRIVATE[1]) == 1048576
    ensures Valid(PRIVATE[2]) && Masked(PRIVATE[2]) == PRIVATE[2] && Size(PRIVATE[2]) == 65536
  {
    PrivateIsValid();
    PrivateSizes();
    hide Pow2, Masked;
    Aligned(PRIVATE[0], 16777216, 10);
    Aligned(PRIVATE[1], 1048576, 2753);
    Aligned(PRIVATE[2], 65536, 49320);
  }

  lemma Aligned(p: Prefix, size: nat, q: nat)
    requires Valid(p) && Size(p) == size && p.addr == q * size
    ensures Masked(p) == p
  {
    hide Pow2;
    MultipleOf(q, size);
  }

  lemma PrivateCases(p: Prefix)
    requires Valid(p)
    ensures Valid(PRIVATE[0]) && Valid(PRIVATE[1]) && Valid(PRIVATE[2])
    ensures IsPrivate(p) <==>
            || (8 <= p.bits && Contains(PRIVATE[0], p.width, p.addr))
            || (12 <= p.bits && Contains(PRIVATE[1], p.width, p.addr))
            || (16 <= p.bits && Contains(PRIVATE[2], p.width, p.addr))
  {
    PrivateIsValid();
    hide Contains, Pow2;
    assert PRIVATE[0].bits == 8 && PRIVATE[1].bits == 12 && PRIVATE[2].bits == 16;
  }

  /** A pool is usable exactly when its base is such an IPv4 prefix and it is cut into longer subnets of at most 24 bits. */
  lemma UsableExactly(pool: Pool)
    requires pool.base.Some? ==> Valid(pool.base.value)
    ensures Usable(pool) <==>
            && pool.base.Some? && pool.base.value.width == 32 && pool.base.value.bits < pool.size <= 24
            && (|| Lies(pool.base.value, 167772160, 184549375) || Lies(pool.base.value, 2886729728, 2887778303)
                || Lies(pool.base.value, 3232235520, 3232301055))
  {
    if pool.base.Some? && pool.base.value.width == 32 {
      var p := pool.base.value;
      assert MaskedIsValid(p);
      PrivateExactly(Masked(p));
      hide Pow2, IsPrivate;
      forall x: nat ensures Contains(Masked(p), 32, x) <==> Contains(p, 32, x) { MaskedRange(p, x); }
    }
  }

  /**
   One more route: it disturbs the pools exactly when it is an IPv4 route other than a zero-length one, is not the
   route of a Docker network on that network's own interface, and shares an address with a pool.
   */
  lemma OneMoreRoute(pools: seq<Pool>, networks: seq<Network>, routes: seq<Route>, route: Route)
    requires WellFormed(pools, networks, routes) && AllUsable(pools) && Valid(route.prefix)
    ensures WellFormed(pools, networks, routes + [route])
    ensures RoutesClear(pools, networks, routes + [route]) <==>
            && RoutesClear(pools, networks, routes)
            && (|| route.prefix.width != 32 || route.prefix.bits == 0
                || (exists k :: 0 <= k < |networks| && networks[k].interface == route.interface != ""
                             && Masked(networks[k].subnet) == Masked(route.prefix))
                || (forall k :: 0 <= k < |pools| ==> !ShareAddress(route.prefix, Base(pools[k]))))
  {
    hide Masked, Usable, PrefixesOverlap, ShareAddress, Base, IsDockerRoute;
    var more := routes + [route];
    assert more[|routes|] == route && forall i :: 0 <= i < |routes| ==> more[i] == routes[i];
    DockerRouteExactly(route, networks);
    forall k | 0 <= k < |pools| ensures PrefixesOverlap(route.prefix, Base(pools[k])) <==> ShareAddress(route.prefix, Base(pools[k])) {
      assert PoolBase(Base(pools[k]), pools[k].size);
      OverlapIffShared(route.prefix, Base(pools[k]));
    }
    if RoutesClear(pools, networks, more) {
      forall r, k | 0 <= r < |routes| && 0 <= k < |pools| && Relevant(routes[r], networks) ensures !PrefixesOverlap(routes[r].prefix, Base(pools[k])) {
        assert Relevant(more[r], networks);
      }
      if Relevant(route, networks) {
        forall k | 0 <= k < |pools| ensures !PrefixesOverlap(route.prefix, Base(pools[k])) { assert Relevant(more[|routes|], networks); }
      }
    }
  }

  lemma DockerRouteExactly(route: Route, networks: seq<Network>)
    requires Valid(route.prefix) && AllValid(networks)
    ensures IsDockerRoute(route, networks) <==>
            exists k :: 0 <= k < |networks| && networks[k].interface == route.interface != ""
                     && Masked(networks[k].subnet) == Masked(route.prefix)
  {
    hide Masked;
  }

  // ----- route masks --------------------------------------------------------------------------------

  /** The mask with the given number of leading ones. */
  function Mask(bits: nat): int
    requires bits <= 32
  {
    Pow2(32) - Pow2(32 - bits)
  }

  predicate BitSet(mask: nat, bit: nat) { mask / Pow2(bit) % 2 == 1 }

  lemma {:induction false} Pow2Grows(m: nat, n: nat)
    requires m < n
    ensures Pow2(m) < Pow2(n)
    decreases n - m
  {
    if m + 1 < n {
      Pow2Grows(m + 1, n);
    }
  }

  lemma BitAbove(x: nat, ones: nat, p: nat)
    requires p >= 1 && 0 <= x - ones * (2 * p) < 2 * p
    ensures x / p % 2 == 1 <==> x - ones * (2 * p) >= p
  {
    Doubled(ones, p);
    if x - ones * (2 * p) < p {
      DivRange(x, p, 2 * ones);
    } else {
      MulSucc(2 * ones, p);
      DivRange(x, p, 2 * ones + 1);
    }
    Parity(ones);
  }

  lemma Doubled(a: nat, b: nat)
    ensures a * (2 * b) == 2 * a * b
  {
  }

  lemma Parity(n: nat)
    ensures 2 * n % 2 == 0 && (2 * n + 1) % 2 == 1
  {
  }

  lemma MaskBlocks(count: nat, low: nat) returns (ones: nat)
    requires count + low <= 32
    ensures Mask(count) == ones * Pow2(low)
  {
    var above := Pow2(32 - count - low);
    ones := (Pow2(count) - 1) * above;
    Pow2Add(count, 32 - count);
    Pow2Add(32 - count - low, low);
    Regroup(Pow2(count), above, Pow2(low));
  }

  lemma Regroup(a: nat, b: nat, c: nat)
    requires a >= 1
    ensures a * (b * c) - b * c == (a - 1) * b * c
  {
  }

  /** Splitting off the leading ones does not change the lower bits. */
  lemma LowBit(mask: nat, count: nat, bit: nat)
    requires count + bit < 32 && 0 <= mask - Mask(count) < Pow2(bit + 1)
    ensures BitSet(mask, bit) <==> mask - Mask(count) >= Pow2(bit)
  {
    var ones := MaskBlocks(count, bit + 1);
    BitAbove(mask, ones, Pow2(bit));
  }

  /** Strictly between two consecutive masks there is none. */
  lemma NoMaskBetween(mask: nat, count: nat, n: nat)
    requires count < 32 && n <= 32 && Mask(count) < mask < Mask(count + 1)
    ensures mask != Mask(n)
  {
    if n < count {
      Pow2Grows(32 - count, 32 - n);
    } else if n > count + 1 {
      Pow2Grows(32 - n, 32 - (count + 1));
    }
  }

  lemma NoOnes()
    ensures Mask(0) == 0 && Pow2(0) == 1
  {
  }

  lemma NextMask(count: nat, bit: nat)
    requires count < 32
    ensures Mask(count + 1) == Mask(count) + Pow2(31 - count) && Pow2(bit + 1) == 2 * Pow2(bit)
  {
    assert Pow2(32 - count) == 2 * Pow2(31 - count);
  }

  /** The length of a contiguous mask; None for any other value. */
  method MaskLength(mask: nat) returns (bits: Option<nat>)
    requires mask < Pow2(32)
    ensures bits.Some? ==> bits.value <= 32 && mask == Mask(bits.value)
    ensures bits.None? ==> forall n: nat :: n <= 32 ==> mask != Mask(n)
  {
    hide Pow2, Mask, BitSet;
    var count, seenZero := 0, false;
    NoOnes();
    for bit := 32 downto 0
      invariant count <= 32 - bit && (!seenZero <==> count == 32 - bit)
      invariant 0 <= mask - Mask(count) < Pow2(bit)
      invariant seenZero ==> mask < Mask(count + 1)
    {
      LowBit(mask, count, bit);
      NextMask(count, bit);
      var isSet := BitSet(mask, bit);
      if seenZero && isSet {
        forall n: nat | n <= 32
          ensures mask != Mask(n)
        {
          NoMaskBetween(mask, count, n);
        }
        return None;
      }
      if isSet {
        count := count + 1;
      } else {
        seenZero := true;
      }
    }
    return Some(count);
  }
}
