/** Which child subnets of an address pool are taken by existing networks, and how they are counted. */
module ChildSubnets {
  import opened Prefixes
  import opened Sorting

  datatype Network = Network(interface: string, subnet: Prefix)

  datatype IndexRange = IndexRange(first: nat, last: nat)

  /** A pool's base: a masked IPv4 prefix, cut into subnets of the given length. */
  predicate PoolBase(pool: Prefix, childBits: nat) {
    Valid(pool) && Is4(pool) && Masked(pool) == pool && pool.bits <= childBits <= 32
  }

  function ChildSize(childBits: nat): (n: nat)
    requires childBits <= 32
    ensures n >= 1
  {
    Pow2(32 - childBits)
  }

  /** How many child subnets the pool has. */
  function Total(pool: Prefix, childBits: nat): nat
    requires PoolBase(pool, childBits)
  {
    Pow2(childBits - pool.bits)
  }

  function Child(pool: Prefix, childBits: nat, i: nat): Prefix
    requires PoolBase(pool, childBits)
  {
    MulMono(0, i, ChildSize(childBits));
    Prefix(32, pool.addr + i * ChildSize(childBits), childBits)
  }

  predicate AllValid(networks: seq<Network>) {
    forall k :: 0 <= k < |networks| ==> Valid(networks[k].subnet)
  }

  /** The child shares an address with the network. */
  predicate TakenBy(pool: Prefix, childBits: nat, i: nat, network: Network)
    requires PoolBase(pool, childBits) && i < Total(pool, childBits) && Valid(network.subnet)
  {
    ChildIsValid(pool, childBits, i);
    Is4(network.subnet) && PrefixesOverlap(Child(pool, childBits, i), network.subnet)
  }

  ghost predicate Taken(pool: Prefix, childBits: nat, networks: seq<Network>, i: nat)
    requires PoolBase(pool, childBits) && AllValid(networks) && i < Total(pool, childBits)
  {
    exists k :: 0 <= k < |networks| && TakenBy(pool, childBits, i, networks[k])
  }

  ghost function TakenSet(pool: Prefix, childBits: nat, networks: seq<Network>): set<nat>
    requires PoolBase(pool, childBits) && AllValid(networks)
  {
    set i: nat | i < Total(pool, childBits) && Taken(pool, childBits, networks, i)
  }

  // ----- where children lie -------------------------------------------------------------------

  lemma PoolIsCut(pool: Prefix, childBits: nat)
    requires PoolBase(pool, childBits)
    ensures Total(pool, childBits) * ChildSize(childBits) == Size(pool)
  {
    Pow2Add(childBits - pool.bits, 32 - childBits);
  }

  /** A masked prefix is a whole number of blocks into the address space, and ends within it. */
  lemma EndsInSpace(p: Prefix) returns (q: nat)
    requires Valid(p) && Masked(p) == p
    ensures p.addr == q * Size(p) && p.addr + Size(p) <= Pow2(p.width)
  {
    hide Pow2;
    Pow2Add(p.bits, p.width - p.bits);
    RoundDown(p.addr, Size(p));
    q := p.addr / Size(p);
    BlockEnd(q, Size(p), Pow2(p.bits));
  }

  lemma BlockEnd(q: nat, size: nat, blocks: nat)
    requires q * size < blocks * size
    ensures q * size + size <= blocks * size
  {
    if q >= blocks {
      MulMono(blocks, q, size);
    } else {
      MulMono(q + 1, blocks, size);
      MulSucc(q, size);
    }
  }

  lemma FitsInside(i: nat, n: nat, c: nat)
    requires i < n
    ensures 0 <= i * c && i * c + c <= n * c
  {
    MulMono(i + 1, n, c);
    MulSucc(i, c);
  }

  lemma ChildIsValid(pool: Prefix, childBits: nat, i: nat)
    requires PoolBase(pool, childBits) && i < Total(pool, childBits)
    ensures Valid(Child(pool, childBits, i)) && Size(Child(pool, childBits, i)) == ChildSize(childBits)
    ensures pool.addr <= Child(pool, childBits, i).addr
    ensures Child(pool, childBits, i).addr + ChildSize(childBits) <= pool.addr + Size(pool)
  {
    hide Pow2, Masked, Total;
    PoolIsCut(pool, childBits);
    var q := EndsInSpace(pool);
    var c, n := ChildSize(childBits), Total(pool, childBits);
    FitsInside(i, n, c);
    assert Child(pool, childBits, i).addr == pool.addr + i * c;
  }

  lemma ChildIsMasked(pool: Prefix, childBits: nat, i: nat)
    requires PoolBase(pool, childBits) && i < Total(pool, childBits)
    ensures Valid(Child(pool, childBits, i)) && Masked(Child(pool, childBits, i)) == Child(pool, childBits, i)
  {
    hide Pow2;
    ChildIsValid(pool, childBits, i);
    PoolIsCut(pool, childBits);
    var q := EndsInSpace(pool);
    WholeBlocks(q, Total(pool, childBits), ChildSize(childBits), i);
  }

  lemma WholeBlocks(q: nat, m: nat, c: nat, i: nat)
    requires c >= 1
    ensures (q * (m * c) + i * c) % c == 0
  {
    var n := q * m + i;
    assert q * (m * c) + i * c == n * c;
    MultipleOf(n, c);
  }

  /** Two masked prefixes of one width share an address exactly when their ranges meet. */
  lemma RangesMeet(a: Prefix, b: Prefix)
    requires Valid(a) && Valid(b) && a.width == b.width && Masked(a) == a && Masked(b) == b
    ensures PrefixesOverlap(a, b) <==> a.addr < b.addr + Size(b) && b.addr < a.addr + Size(a)
  {
    OverlapIffShared(a, b);
    if ShareAddress(a, b) {
      var x :| Contains(a, a.width, x) && Contains(b, a.width, x);
      MaskedRange(a, x);
      MaskedRange(b, x);
    }
    if a.addr < b.addr + Size(b) && b.addr < a.addr + Size(a) {
      var x := if a.addr <= b.addr then b.addr else a.addr;
      MaskedRange(a, x);
      MaskedRange(b, x);
      assert ShareAddress(a, b);
    }
  }

  lemma MaskingKeepsOverlap(a: Prefix, b: Prefix)
    requires Valid(a) && Valid(b)
    ensures Valid(Masked(b)) && (PrefixesOverlap(a, Masked(b)) <==> PrefixesOverlap(a, b))
    ensures Masked(Masked(b)) == Masked(b)
  {
    hide Size;
    hide Masked;
    MaskedRange(b, b.addr);
    MaskedTwice(b);
    MaskedWidth(b);
    OverlapIffShared(a, b);
    OverlapIffShared(a, Masked(b));
    hide PrefixesOverlap;
    hide Contains;
    if ShareAddress(a, b) {
      var x :| Contains(a, a.width, x) && Contains(b, a.width, x);
      SameWidth(b, a.width, x);
      MaskedRange(b, x);
      assert Contains(Masked(b), a.width, x);
    }
    if ShareAddress(a, Masked(b)) {
      var x :| Contains(a, a.width, x) && Contains(Masked(b), a.width, x);
      SameWidth(Masked(b), a.width, x);
      MaskedRange(b, x);
      assert Contains(b, a.width, x);
    }
  }

  lemma MaskedWidth(p: Prefix)
    requires Valid(p)
    ensures Masked(p).width == p.width
  {
  }

  lemma SameWidth(p: Prefix, width: nat, x: nat)
    requires Valid(p) && Contains(p, width, x)
    ensures width == p.width
  {
  }

  lemma IndexBounds(x: nat, c: nat, i: nat)
    requires c >= 1
    ensures Quotient(x, c) <= i <==> x < i * c + c
    ensures i <= Quotient(x, c) <==> i * c <= x
  {
    var q := Quotient(x, c);
    MulSucc(i, c);
    MulSucc(q, c);
    if q <= i {
      MulMono(q, i, c);
    } else {
      MulMono(i + 1, q, c);
    }
    if i <= q {
      MulMono(i, q, c);
    } else {
      MulMono(q + 1, i, c);
    }
  }

  /** The first and the last address, counted from the pool's base, at which the pool and the network meet. */
  function Clipped(pool: Prefix, subnet: Prefix): (r: (nat, nat))
    requires Valid(pool) && Valid(subnet) && Is4(pool) && Is4(subnet)
    requires Masked(pool) == pool && Masked(subnet) == subnet && PrefixesOverlap(pool, subnet)
    ensures r.0 <= r.1 < Size(pool)
  {
    RangesMeet(pool, subnet);
    var poolEnd, end := pool.addr + Size(pool) - 1, subnet.addr + Size(subnet) - 1;
    (if subnet.addr < pool.addr then 0 else subnet.addr - pool.addr,
     (if end > poolEnd then poolEnd else end) - pool.addr)
  }

  /** The index range computed for a network that overlaps the pool. */
  function RangeOf(pool: Prefix, childBits: nat, subnet: Prefix): IndexRange
    requires PoolBase(pool, childBits) && Valid(subnet) && Is4(subnet) && Masked(subnet) == subnet
    requires PrefixesOverlap(pool, subnet)
  {
    var (start, end) := Clipped(pool, subnet);
    IndexRange(Quotient(start, ChildSize(childBits)), Quotient(end, ChildSize(childBits)))
  }

  /** It holds exactly the indices of the children the network meets. */
  lemma RangeIsExact(pool: Prefix, childBits: nat, subnet: Prefix, i: nat)
    requires PoolBase(pool, childBits) && Valid(subnet) && Is4(subnet) && Masked(subnet) == subnet
    requires PrefixesOverlap(pool, subnet) && i < Total(pool, childBits)
    ensures Valid(Child(pool, childBits, i))
    ensures var r := RangeOf(pool, childBits, subnet);
            r.first <= i <= r.last <==> PrefixesOverlap(Child(pool, childBits, i), subnet)
  {
    RangesMeet(pool, subnet);
    ChildIsValid(pool, childBits, i);
    ChildIsMasked(pool, childBits, i);
    RangesMeet(Child(pool, childBits, i), subnet);
    var (start, end) := Clipped(pool, subnet);
    IndexBounds(start, ChildSize(childBits), i);
    IndexBounds(end, ChildSize(childBits), i);
  }

  lemma RangeIsInPool(pool: Prefix, childBits: nat, subnet: Prefix)
    requires PoolBase(pool, childBits) && Valid(subnet) && Is4(subnet) && Masked(subnet) == subnet
    requires PrefixesOverlap(pool, subnet)
    ensures var r := RangeOf(pool, childBits, subnet); r.first <= r.last < Total(pool, childBits)
  {
    PoolIsCut(pool, childBits);
    var c := ChildSize(childBits);
    var (start, end) := Clipped(pool, subnet);
    IndexBounds(end, c, Quotient(start, c));
    IndexBounds(end, c, Total(pool, childBits));
  }

  /** A network that misses the pool misses every child. */
  lemma OutsideTakesNothing(pool: Prefix, childBits: nat, subnet: Prefix, i: nat)
    requires PoolBase(pool, childBits) && Valid(subnet) && Is4(subnet) && i < Total(pool, childBits)
    requires !PrefixesOverlap(pool, subnet)
    ensures Valid(Child(pool, childBits, i)) && !PrefixesOverlap(Child(pool, childBits, i), subnet)
  {
    MaskingKeepsOverlap(pool, subnet);
    ChildIsValid(pool, childBits, i);
    MaskingKeepsOverlap(Child(pool, childBits, i), subnet);
    ChildIsMasked(pool, childBits, i);
    RangesMeet(pool, Masked(subnet));
    RangesMeet(Child(pool, childBits, i), Masked(subnet));
  }

  // ----- counting -----------------------------------------------------------------------------

  predicate Covers(ranges: seq<IndexRange>, i: nat) {
    exists k :: 0 <= k < |ranges| && ranges[k].first <= i <= ranges[k].last
  }

  predicate InOrder(ranges: seq<IndexRange>) {
    forall j, k :: 0 <= j < k < |ranges| ==> ranges[j].first <= ranges[k].first
  }

  predicate FirstAtMost(a: nat, b: nat) { a <= b }

  /** Sort by first index. */
  method SortByFirst(ranges: seq<IndexRange>) returns (sorted: seq<IndexRange>)
    ensures InOrder(sorted) && multiset(sorted) == multiset(ranges)
  {
    sorted := SortBy(ranges, (r: IndexRange) => r.first, FirstAtMost);
    assert forall j, k :: 0 <= j < k < |sorted| ==> FirstAtMost(sorted[j].first, sorted[k].first);
  }

  lemma SameCover(a: seq<IndexRange>, b: seq<IndexRange>, i: nat)
    requires multiset(a) == multiset(b)
    ensures Covers(a, i) ==> Covers(b, i)
  {
    if Covers(a, i) {
      var k :| 0 <= k < |a| && a[k].first <= i <= a[k].last;
      assert a[k] in multiset(b);
    }
  }

  /** Indices from a up to but not including b. */
  ghost function Span(a: nat, b: nat): (s: set<nat>)
    ensures forall i :: i in s <==> a <= i < b
    ensures |s| == if a <= b then b - a else 0
    decreases b - a
  {
    if a < b then {a} + Span(a + 1, b) else {}
  }

  /** The index ranges of the networks that overlap the pool. */
  method CollectRanges(pool: Prefix, childBits: nat, networks: seq<Network>) returns (ranges: seq<IndexRange>)
    requires PoolBase(pool, childBits) && AllValid(networks)
    ensures forall k :: 0 <= k < |ranges| ==> ranges[k].first <= ranges[k].last < Total(pool, childBits)
    ensures forall i: nat | i < Total(pool, childBits) :: Covers(ranges, i) <==> Taken(pool, childBits, networks, i)
  {
    assert Valid(pool) && Is4(pool);
    hide PoolBase, Taken, TakenBy, Covers, RangeOf, Masked, PrefixesOverlap, Total, Valid;
    assert forall j :: 0 <= j < |networks| ==> Valid(networks[j].subnet);
    ranges := [];
    forall i: nat | i < Total(pool, childBits) ensures !Covers([], i) && !Taken(pool, childBits, networks[..0], i) {
      NothingCovered(pool, childBits, networks, i);
    }
    for k := 0 to |networks|
      invariant forall j :: 0 <= j < |ranges| ==> ranges[j].first <= ranges[j].last < Total(pool, childBits)
      invariant forall i: nat | i < Total(pool, childBits) :: Covers(ranges, i) <==> Taken(pool, childBits, networks[..k], i)
    {
      var network := networks[k];
      MaskingKeepsOverlap(pool, network.subnet);
      MaskedWidth(network.subnet);
      var subnet := Masked(network.subnet);
      ghost var before := ranges;
      if Is4(subnet) && PrefixesOverlap(pool, subnet) {
        var r := RangeOf(pool, childBits, subnet);
        RangeIsInPool(pool, childBits, subnet);
        ranges := ranges + [r];
      }
      forall i: nat | i < Total(pool, childBits)
        ensures Covers(ranges, i) <==> Taken(pool, childBits, networks[..k + 1], i)
      {
        OneMoreNetwork(pool, childBits, networks, k, i);
        if Is4(subnet) && PrefixesOverlap(pool, subnet) {
          RangeTakes(pool, childBits, network, i);
          CoversOneMore(before, RangeOf(pool, childBits, subnet), i);
        } else {
          SkippedTakesNothing(pool, childBits, network, i);
        }
      }
    }
    assert networks[..|networks|] == networks;
  }

  lemma NothingCovered(pool: Prefix, childBits: nat, networks: seq<Network>, i: nat)
    requires PoolBase(pool, childBits) && AllValid(networks) && i < Total(pool, childBits)
    ensures !Covers([], i) && !Taken(pool, childBits, networks[..0], i)
  {
  }

  lemma OneMoreNetwork(pool: Prefix, childBits: nat, networks: seq<Network>, k: nat, i: nat)
    requires PoolBase(pool, childBits) && AllValid(networks) && k < |networks| && i < Total(pool, childBits)
    ensures Taken(pool, childBits, networks[..k + 1], i) <==>
            Taken(pool, childBits, networks[..k], i) || TakenBy(pool, childBits, i, networks[k])
  {
    hide TakenBy;
    var some := networks[..k + 1];
    assert some[k] == networks[k] && forall j :: 0 <= j < k ==> some[j] == networks[..k][j];
  }

  /** The range computed for an overlapping network holds exactly the children it takes. */
  lemma RangeTakes(pool: Prefix, childBits: nat, network: Network, i: nat)
    requires PoolBase(pool, childBits) && Valid(network.subnet) && Is4(network.subnet) && i < Total(pool, childBits)
    requires Valid(Masked(network.subnet)) && PrefixesOverlap(pool, Masked(network.subnet))
    ensures Masked(Masked(network.subnet)) == Masked(network.subnet)
    ensures
      var r := RangeOf(pool, childBits, Masked(network.subnet));
      r.first <= i <= r.last <==> TakenBy(pool, childBits, i, network)
  {
    MaskedTwice(network.subnet);
    RangeIsExact(pool, childBits, Masked(network.subnet), i);
    ChildIsValid(pool, childBits, i);
    MaskingKeepsOverlap(Child(pool, childBits, i), network.subnet);
  }

  lemma SkippedTakesNothing(pool: Prefix, childBits: nat, network: Network, i: nat)
    requires PoolBase(pool, childBits) && Valid(network.subnet) && i < Total(pool, childBits)
    requires Valid(Masked(network.subnet)) && !(Is4(network.subnet) && PrefixesOverlap(pool, Masked(network.subnet)))
    ensures !TakenBy(pool, childBits, i, network)
  {
    if Is4(network.subnet) {
      MaskingKeepsOverlap(pool, network.subnet);
      OutsideTakesNothing(pool, childBits, network.subnet, i);
    }
  }

  lemma CoversOneMore(ranges: seq<IndexRange>, r: IndexRange, i: nat)
    ensures Covers(ranges + [r], i) <==> Covers(ranges, i) || r.first <= i <= r.last
  {
    var more := ranges + [r];
    assert more[|ranges|] == r;
    assert forall k :: 0 <= k < |ranges| ==> more[k] == ranges[k];
  }

  /** The covered indices are those already counted, and the current range above them. */
  ghost predicate Merged(ranges: seq<IndexRange>, done: set<nat>, current: IndexRange) {
    && (forall i :: i in done ==> i < current.first)
    && (forall i: nat :: Covers(ranges, i) <==> i in done || current.first <= i <= current.last)
  }

  lemma MergedOne(r: IndexRange)
    ensures Merged([r], {}, r)
  {
    assert forall i: nat :: Covers([r], i) <==> r.first <= i <= r.last by {
      assert [r][0] == r;
    }
  }

  lemma Extend(ranges: seq<IndexRange>, done: set<nat>, current: IndexRange, item: IndexRange)
    requires Merged(ranges, done, current) && current.first <= item.first <= current.last + 1
    ensures Merged(ranges + [item], done,
                   IndexRange(current.first, if item.last > current.last then item.last else current.last))
  {
    forall i: nat
      ensures Covers(ranges + [item], i) <==> Covers(ranges, i) || item.first <= i <= item.last
    {
      CoversOneMore(ranges, item, i);
    }
  }

  lemma Close(ranges: seq<IndexRange>, done: set<nat>, current: IndexRange, item: IndexRange) returns (more: set<nat>)
    requires Merged(ranges, done, current) && current.first <= current.last < item.first
    ensures Merged(ranges + [item], more, item) && |more| == |done| + (current.last - current.first + 1)
  {
    more := done + Span(current.first, current.last + 1);
    assert done !! Span(current.first, current.last + 1);
    forall i: nat
      ensures Covers(ranges + [item], i) <==> Covers(ranges, i) || item.first <= i <= item.last
    {
      CoversOneMore(ranges, item, i);
    }
  }

  ghost function CoveredSet(ranges: seq<IndexRange>, total: nat): set<nat> {
    set i: nat | i < total && Covers(ranges, i)
  }

  lemma MergedCount(ranges: seq<IndexRange>, done: set<nat>, current: IndexRange, total: nat)
    requires Merged(ranges, done, current) && current.first <= current.last < total
    ensures |CoveredSet(ranges, total)| == |done| + (current.last - current.first + 1)
  {
    assert CoveredSet(ranges, total) == done + Span(current.first, current.last + 1);
    assert done !! Span(current.first, current.last + 1);
  }

  /** Merge the sorted ranges and add up their lengths: the number of covered indices. */
  method CountMerged(ranges: seq<IndexRange>, total: nat) returns (occupied: nat)
    requires InOrder(ranges) && ranges != []
    requires forall k :: 0 <= k < |ranges| ==> ranges[k].first <= ranges[k].last < total
    ensures occupied == |CoveredSet(ranges, total)|
  {
    hide CoveredSet;
    hide Merged;
    hide Covers;
    occupied := 0;
    var current := ranges[0];
    ghost var done: set<nat> := {};
    assert ranges[..1] == [current];
    MergedOne(current);
    for k := 1 to |ranges|
      invariant current.first <= current.last < total && current.first <= ranges[k - 1].first
      invariant |done| == occupied && Merged(ranges[..k], done, current)
    {
      var item := ranges[k];
      assert ranges[..k + 1] == ranges[..k] + [item];
      assert ranges[k - 1].first <= item.first;
      if item.first <= current.last + 1 {
        Extend(ranges[..k], done, current, item);
        if item.last > current.last {
          current := current.(last := item.last);
        }
      } else {
        done := Close(ranges[..k], done, current, item);
        occupied := occupied + (current.last - current.first + 1);
        current := item;
      }
    }
    assert ranges[..|ranges|] == ranges;
    MergedCount(ranges, done, current, total);
    occupied := occupied + (current.last - current.first + 1);
  }

  /** How many of the pool's children share an address with some network; never more than there are. */
  method OccupiedChildSubnets(pool: Prefix, childBits: nat, networks: seq<Network>) returns (occupied: nat)
    requires PoolBase(pool, childBits) && AllValid(networks)
    ensures occupied == |TakenSet(pool, childBits, networks)| <= Total(pool, childBits)
  {
    var ranges := CollectRanges(pool, childBits, networks);
    SubsetSize(TakenSet(pool, childBits, networks), Span(0, Total(pool, childBits)));
    if ranges == [] {
      assert TakenSet(pool, childBits, networks) == {};
      return 0;
    }
    var sorted := SortByFirst(ranges);
    forall k | 0 <= k < |sorted|
      ensures sorted[k].first <= sorted[k].last < Total(pool, childBits)
    {
      assert sorted[k] in multiset(ranges);
    }
    assert sorted != [] by {
      assert ranges[0] in multiset(sorted);
    }
    occupied := CountMerged(sorted, Total(pool, childBits));
    forall i: nat
      ensures Covers(sorted, i) <==> Covers(ranges, i)
    {
      SameCover(sorted, ranges, i);
      SameCover(ranges, sorted, i);
    }
    assert CoveredSet(sorted, Total(pool, childBits)) == TakenSet(pool, childBits, networks);
  }

  lemma {:induction false} SubsetSize(a: set<nat>, b: set<nat>)
    requires a <= b
    ensures |a| <= |b|
  {
    assert b == a + (b - a);
    assert |b| == |a| + |b - a|;
  }
}
