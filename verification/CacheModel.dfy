/**
 The registration cache on values: what each call does to the slots, the reference
 counts, the kernel's registrations and the statistics, and the invariant that every
 run of calls keeps. RegionCache.dfy proves the imperative code against these functions.
 */
module CacheModel {
  import opened PoolLists
  import opened Regions
  import opened MachineWords

  type Id = Node<Region>

  /** What the kernel has pinned for a region. */
  datatype Pin = Pin(start: nat, count: nat, nla: nat)

  /** The counters of librma2_minfo. */
  datatype Stats = Stats(hits: nat, misses: nat, useChild: nat, fill: nat, replace: nat,
                         uncached: nat, free: nat, freeNotFree: nat)

  datatype Cache = Cache(
    slots: seq<Node?<Region>>,
    regions: map<Id, Region>,              // every region item in use, cached or not
    stats: Stats,
    kernel: map<Id, Pin>,                  // live kernel registrations
    handles: multiset<Id>,                 // history: handles returned and not yet given back
    promised: map<Id, set<(nat, nat)>>,    // history: the ranges each region item was returned for
    freedSince: map<Id, set<(nat, nat)>>,  // history: the ranges freed since a cached region was registered
    calls: nat)                            // history: register calls

  function Empty(n: nat): Cache {
    Cache(seq(n, _ => null), map[], Stats(0, 0, 0, 0, 0, 0, 0, 0), map[], multiset{}, map[], map[], 0)
  }

  /** Every occupied slot refers to a known region. */
  predicate Known(c: Cache) {
    forall i :: 0 <= i < |c.slots| && c.slots[i] != null ==> c.slots[i] in c.regions
  }

  predicate Distinct(slots: seq<Node?<Region>>) {
    forall i, j :: 0 <= i < j < |slots| && slots[i] != null ==> slots[i] != slots[j]
  }

  // ----------------------------------------------------------------- routing

  predicate Hits(c: Cache, i: nat, address: nat, size: nat)
    requires Known(c) && i < |c.slots|
  {
    c.slots[i] != null && Contained(c.regions[c.slots[i]], address, size)
  }

  predicate Spare(c: Cache, i: nat)
    requires Known(c) && i < |c.slots|
  {
    c.slots[i] != null && c.regions[c.slots[i]].refcount == 0
  }

  /** The first slot from i on that holds the range; the number of slots if there is none. */
  function FirstHit(c: Cache, address: nat, size: nat, i: nat): (k: nat)
    requires Known(c) && i <= |c.slots|
    ensures i <= k <= |c.slots| && (k < |c.slots| ==> Hits(c, k, address, size))
    ensures forall j :: i <= j < k ==> !Hits(c, j, address, size)
    decreases |c.slots| - i
  {
    if i == |c.slots| || Hits(c, i, address, size) then i else FirstHit(c, address, size, i + 1)
  }

  function FirstEmpty(c: Cache, i: nat): (k: nat)
    requires i <= |c.slots|
    ensures i <= k <= |c.slots| && (k < |c.slots| ==> c.slots[k] == null)
    ensures forall j :: i <= j < k ==> c.slots[j] != null
    decreases |c.slots| - i
  {
    if i == |c.slots| || c.slots[i] == null then i else FirstEmpty(c, i + 1)
  }

  function FirstSpare(c: Cache, i: nat): (k: nat)
    requires Known(c) && i <= |c.slots|
    ensures i <= k <= |c.slots| && (k < |c.slots| ==> Spare(c, k))
    ensures forall j :: i <= j < k ==> !Spare(c, j)
    decreases |c.slots| - i
  {
    if i == |c.slots| || Spare(c, i) then i else FirstSpare(c, i + 1)
  }

  /** How a register call is served. */
  datatype Route = Direct(i: nat) | Child(i: nat) | Fill(i: nat) | Replace(i: nat) | Uncached

  function RouteOf(c: Cache, address: nat, size: nat): (r: Route)
    requires Known(c)
    ensures r.Direct? || r.Child? ==> r.i < |c.slots| && Hits(c, r.i, address, size)
    ensures r.Direct? || r.Child? ==> forall j :: 0 <= j < r.i ==> !Hits(c, j, address, size)
    ensures r.Direct? || r.Child? ==>
      (r.Direct? <==> c.regions[c.slots[r.i]].start + c.regions[c.slots[r.i]].offset == address)
    ensures r.Fill? || r.Replace? || r.Uncached? ==> forall j :: 0 <= j < |c.slots| ==> !Hits(c, j, address, size)
    ensures r.Fill? ==> r.i < |c.slots| && c.slots[r.i] == null && forall j :: 0 <= j < r.i ==> c.slots[j] != null
    ensures r.Replace? ==> r.i < |c.slots| && Spare(c, r.i) && forall j :: 0 <= j < r.i ==> !Spare(c, j)
    ensures r.Replace? || r.Uncached? ==> forall j :: 0 <= j < |c.slots| ==> c.slots[j] != null
    ensures r.Uncached? ==> forall j :: 0 <= j < |c.slots| ==> !Spare(c, j)
  {
    var i := FirstHit(c, address, size, 0);
    if i < |c.slots| then
      var r := c.regions[c.slots[i]];
      if r.start + r.offset == address then Direct(i) else Child(i)
    else
      var j := FirstEmpty(c, 0);
      if j < |c.slots| then Fill(j) else
      var k := FirstSpare(c, 0);
      if k < |c.slots| then Replace(k) else Uncached
  }

  // -------------------------------------------------------------- operations

  function WithHandle(c: Cache, h: Id, address: nat, size: nat): Cache {
    c.(handles := c.handles + multiset{h},
       promised := c.promised[h := if h in c.promised then c.promised[h] + {(address, size)} else {(address, size)}],
       calls := c.calls + 1)
  }

  /** The regions with one reference count replaced. */
  function Recount(regions: map<Id, Region>, id: Id, n: int): map<Id, Region>
    requires id in regions
  {
    regions[id := regions[id].(refcount := n)]
  }

  function Retain(c: Cache, id: Id, delta: int): Cache
    requires id in c.regions
  {
    c.(regions := Recount(c.regions, id, c.regions[id].refcount + delta))
  }

  function HitDirect(c: Cache, i: nat, address: nat, size: nat): Cache
    requires Known(c) && i < |c.slots| && c.slots[i] != null
  {
    WithHandle(Retain(c, c.slots[i], 1), c.slots[i], address, size)
      .(stats := c.stats.(hits := c.stats.hits + 1))
  }

  /** A copy of the parent with its own offset, cut to 32 bits. */
  function ChildOf(r: Region, parent: Id, address: nat): Region {
    r.(offset := (address - r.start) % WORD, parent := parent)
  }

  function HitChild(c: Cache, i: nat, address: nat, size: nat, item: Id): Cache
    requires Known(c) && i < |c.slots| && c.slots[i] != null
  {
    var p: Id := c.slots[i];
    var c1 := Retain(c, p, 1);
    WithHandle(c1.(regions := c1.regions[item := ChildOf(c1.regions[p], p, address)]), item, address, size)
      .(stats := c.stats.(hits := c.stats.hits + 1, useChild := c.stats.useChild + 1))
  }

  /** A child hit in its steps: count the user, make the child, hand it out, note the statistics. */
  lemma HitChildSteps(c: Cache, i: nat, address: nat, size: nat, item: Id, stats: Stats)
    requires Known(c) && i < |c.slots| && c.slots[i] != null
    requires stats == c.stats.(hits := c.stats.hits + 1, useChild := c.stats.useChild + 1)
    ensures var p: Id := c.slots[i];
      var c1 := Retain(c, p, 1);
      var c2 := c1.(regions := c1.regions[item := ChildOf(c1.regions[p], p, address)]);
      HitChild(c, i, address, size, item) == WithHandle(c2, item, address, size).(stats := stats)
  {
  }

  /** A new kernel registration held by `item`. */
  function WithPin(c: Cache, item: Id, r: Region): Cache {
    c.(regions := c.regions[item := r], kernel := c.kernel[item := Pin(r.start, r.count, r.nla)])
  }

  /** A new registration in slot i with one user. */
  function Install(c: Cache, i: nat, address: nat, size: nat, nla: nat, item: Id, was: Region): Cache
    requires i < |c.slots|
  {
    var r := Registered(was, address, size, nla).(refcount := 1);
    WithHandle(WithPin(c, item, r).(slots := c.slots[i := item], freedSince := c.freedSince[item := {}]),
               item, address, size)
  }

  /** The same cache, but for what slot i still shows. */
  predicate SameButSlot(b: Cache, c: Cache, i: nat) {
    && i < |c.slots| == |b.slots|
    && b == c.(slots := b.slots) && b.slots == c.slots[i := b.slots[i]]
  }

  /** An installation in its steps; slot i may still show a region that is no longer registered. */
  lemma InstallSteps(c: Cache, b: Cache, i: nat, address: nat, size: nat, nla: nat, item: Id, was: Region, stats: Stats)
    requires SameButSlot(b, c, i)
    ensures var r := Registered(was, address, size, nla).(refcount := 1);
      var c1 := WithPin(b, item, r).(slots := b.slots[i := item]);
      Install(c, i, address, size, nla, item, was).(stats := stats)
        == WithHandle(c1.(freedSince := c1.freedSince[item := {}]), item, address, size).(stats := stats)
  {
    assert b.slots[i := item] == c.slots[i := item];
  }

  /** Unregisters the region of slot i and empties the slot. */
  function Evict(c: Cache, i: nat): Cache
    requires i < |c.slots| && c.slots[i] != null
  {
    var v: Id := c.slots[i];
    c.(slots := c.slots[i := null], regions := c.regions - {v}, kernel := c.kernel - {v},
       promised := c.promised - {v}, freedSince := c.freedSince - {v})
  }

  /** An eviction that does not clear the slot. */
  lemma EvictSteps(c: Cache, i: nat)
    requires i < |c.slots| && c.slots[i] != null
    ensures var v: Id := c.slots[i];
      SameButSlot(c.(regions := c.regions - {v}, kernel := c.kernel - {v},
                     promised := c.promised - {v}, freedSince := c.freedSince - {v}), Evict(c, i), i)
  {
  }

  /** Clearing the slot afterwards completes it. */
  lemma EvictDone(c: Cache, b: Cache, i: nat)
    requires i < |c.slots| && c.slots[i] != null && SameButSlot(b, Evict(c, i), i)
    ensures b.(slots := b.slots[i := null]) == Evict(c, i)
  {
  }

  function RegisterUncached(c: Cache, address: nat, size: nat, nla: nat, item: Id, was: Region): Cache {
    WithHandle(WithPin(c, item, Registered(was, address, size, nla)), item, address, size)
  }

  /** The whole call: the new cache and the handle. `item` is what the pool would hand out, `was` its content. */
  function Register(c: Cache, address: nat, size: nat, nla: nat, item: Id, was: Region): (Cache, Id)
    requires Known(c)
  {
    var s := c.stats;
    match RouteOf(c, address, size)
    case Direct(i) => (HitDirect(c, i, address, size), c.slots[i])
    case Child(i) => (HitChild(c, i, address, size, item), item)
    case Fill(i) =>
      (Install(c, i, address, size, nla, item, was).(stats := s.(misses := s.misses + 1, fill := s.fill + 1)), item)
    case Replace(i) =>
      (Install(Evict(c, i), i, address, size, nla, item, was)
         .(stats := s.(misses := s.misses + 1, replace := s.replace + 1)), item)
    case Uncached =>
      (RegisterUncached(c, address, size, nla, item, was)
         .(stats := s.(misses := s.misses + 1, uncached := s.uncached + 1)), item)
  }

  /** The item the pool hands out is not in use, except that it may be the one just evicted. */
  ghost predicate ItemFor(c: Cache, address: nat, size: nat, item: Id)
    requires Known(c)
  {
    match RouteOf(c, address, size)
    case Direct(_) => true
    case Replace(i) => item !in Evict(c, i).regions
    case _ => item !in c.regions
  }

  /** What a call amounts to when its first search finds nothing, told by the other two. */
  lemma FillRoute(c: Cache, i: nat, address: nat, size: nat, nla: nat, item: Id, was: Region)
    requires Known(c) && FirstHit(c, address, size, 0) == |c.slots| && i == FirstEmpty(c, 0) < |c.slots|
    ensures ItemFor(c, address, size, item) <==> item !in c.regions
    ensures Register(c, address, size, nla, item, was) ==
      (Install(c, i, address, size, nla, item, was)
         .(stats := c.stats.(misses := c.stats.misses + 1, fill := c.stats.fill + 1)), item)
  {
    hide Install, FirstHit, FirstEmpty, Hits;
  }

  lemma ReplaceRoute(c: Cache, i: nat, address: nat, size: nat, nla: nat, item: Id, was: Region)
    requires Known(c) && FirstHit(c, address, size, 0) == FirstEmpty(c, 0) == |c.slots|
    requires i == FirstSpare(c, 0) < |c.slots|
    ensures ItemFor(c, address, size, item) <==> item !in Evict(c, i).regions
    ensures Register(c, address, size, nla, item, was) ==
      (Install(Evict(c, i), i, address, size, nla, item, was)
         .(stats := c.stats.(misses := c.stats.misses + 1, replace := c.stats.replace + 1)), item)
  {
    hide Install, FirstHit, FirstEmpty, FirstSpare, Hits;
  }

  lemma UncachedRoute(c: Cache, address: nat, size: nat, nla: nat, item: Id, was: Region)
    requires Known(c) && FirstHit(c, address, size, 0) == FirstEmpty(c, 0) == FirstSpare(c, 0) == |c.slots|
    ensures ItemFor(c, address, size, item) <==> item !in c.regions
    ensures Register(c, address, size, nla, item, was) ==
      (RegisterUncached(c, address, size, nla, item, was)
         .(stats := c.stats.(misses := c.stats.misses + 1, uncached := c.stats.uncached + 1)), item)
  {
  }

  lemma HitRoutes(c: Cache, address: nat, size: nat, nla: nat, item: Id, was: Region)
    requires Known(c) && FirstHit(c, address, size, 0) < |c.slots|
    ensures var i := FirstHit(c, address, size, 0);
      var r := c.regions[c.slots[i]];
      if r.start + r.offset == address then
        ItemFor(c, address, size, item)
        && Register(c, address, size, nla, item, was) == (HitDirect(c, i, address, size), c.slots[i])
      else
        (ItemFor(c, address, size, item) <==> item !in c.regions)
        && Register(c, address, size, nla, item, was) == (HitChild(c, i, address, size, item), item)
  {
    hide HitDirect, HitChild, FirstHit;
  }

  /** Giving a handle back: a child releases its parent, a cached region stays, any other is unregistered. */
  function Unregister(c: Cache, h: Id): (c': Cache)
    requires h in c.regions
    ensures c'.slots == c.slots && c'.stats == c.stats && c'.handles == c.handles - multiset{h}
  {
    var c1 := c.(handles := c.handles - multiset{h});
    var p := c.regions[h].parent;
    if p != null && p in c.regions then
      c1.(regions := Recount(c.regions, p, c.regions[p].refcount - 1) - {h}, promised := c.promised - {h})
    else if h in c.slots then
      Retain(c1, h, -1)
    else
      c1.(regions := c.regions - {h}, kernel := c.kernel - {h}, promised := c.promised - {h})
  }

  /** What the free handler does at one slot. */
  function FreeSlot(c: Cache, i: nat, address: nat, length: nat): (c': Cache)
    requires Known(c) && Distinct(c.slots) && i < |c.slots|
    ensures Known(c') && Distinct(c'.slots) && |c'.slots| == |c.slots|
  {
    var id := c.slots[i];
    if id == null || !Overlap(c.regions[id], address, length) then c
    else if c.regions[id].refcount == 0 then
      if !c.regions[id].endpoint then c
      else Evict(c, i).(stats := c.stats.(free := c.stats.free + 1))
    else c.(stats := c.stats.(freeNotFree := c.stats.freeNotFree + 1))
  }

  /** The free handler's loop over the first n slots. */
  function FreeUpTo(c: Cache, n: nat, address: nat, length: nat): (c': Cache)
    requires Known(c) && Distinct(c.slots) && n <= |c.slots|
    ensures Known(c') && Distinct(c'.slots) && |c'.slots| == |c.slots|
  {
    if n == 0 then c else FreeSlot(FreeUpTo(c, n - 1, address, length), n - 1, address, length)
  }

  /** A free of [address, address + length): the handler runs over all slots. */
  function Free(c: Cache, address: nat, length: nat): Cache
    requires Known(c) && Distinct(c.slots)
  {
    var c1 := FreeUpTo(c, |c.slots|, address, length);
    c1.(freedSince := map id | id in c1.freedSince :: c1.freedSince[id] + {(address, length)})
  }
}
