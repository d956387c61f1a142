/** What every run of register, unregister and free calls keeps of the registration cache. */
module CacheInvariant {
  import opened PoolLists
  import opened Regions
  import opened CacheModel
  import opened MachineWords

  ghost function ChildrenOf(regions: map<Id, Region>, p: Id): set<Id> {
    set id | id in regions && regions[id].parent == p
  }

  ghost function CachedIds(slots: seq<Node?<Region>>): set<Id> {
    set id: Id | id in slots
  }

  predicate SameRange(r: Region, p: Region) {
    r.start == p.start && r.end == p.end && r.nla == p.nla && r.count == p.count && r.size == p.size
  }

  /** The parent of a child is a cached region over the same pages. */
  predicate ParentOk(slots: seq<Node?<Region>>, regions: map<Id, Region>, id: Id)
    requires id in regions
  {
    var p := regions[id].parent;
    p != null ==> p in slots && p in regions && SameRange(regions[id], regions[p])
  }

  /** Slots are distinct and hold whole registrations, and every parent is one of them. */
  ghost predicate Linked(slots: seq<Node?<Region>>, regions: map<Id, Region>) {
    && Distinct(slots)
    && (forall id: Id :: id in slots ==> id in regions && regions[id].parent == null && regions[id].endpoint)
    && (forall id {:trigger ParentOk(slots, regions, id)} :: id in regions ==> ParentOk(slots, regions, id))
  }

  /** Each cached region counts its direct handles and its children; any other item has one handle. */
  ghost predicate Counted(slots: seq<Node?<Region>>, regions: map<Id, Region>, handles: multiset<Id>) {
    && (forall id :: id in regions && id in slots ==>
          regions[id].refcount == handles[id] + |ChildrenOf(regions, id)|)
    && (forall id :: id in regions && id !in slots ==> handles[id] == 1)
    && (forall id :: id in handles ==> id in regions)
  }

  /** The kernel has pinned exactly the regions that are not children. */
  ghost predicate Pinned(regions: map<Id, Region>, kernel: map<Id, Pin>) {
    && kernel.Keys == (set id | id in regions && regions[id].parent == null)
    && (forall id :: id in kernel && id in regions ==>
          kernel[id] == Pin(regions[id].start, regions[id].count, regions[id].nla))
  }

  predicate Laid(r: Region) {
    r.start % PAGE == 0 && r.size == r.count * PAGE && r.end == r.start + r.size
    && r.offset < WORD && r.count < WORD
  }

  /** The offset is right modulo 32 bits, and the pages hold the range if 32 bits can count them. */
  predicate Serves(r: Region, address: nat, size: nat) {
    && r.start <= address && r.offset == (address - r.start) % WORD
    && (Contained(r, address, size) <==> Pages(address, size) < WORD)
  }

  predicate ServesAll(r: Region, ranges: set<(nat, nat)>) {
    forall range :: range in ranges ==> Serves(r, range.0, range.1)
  }

  /** Every item serves each range it was returned for. */
  ghost predicate Kept(regions: map<Id, Region>, promised: map<Id, set<(nat, nat)>>) {
    && promised.Keys == regions.Keys
    && (forall id :: id in regions && id in promised ==> Laid(regions[id]) && ServesAll(regions[id], promised[id]))
  }

  ghost predicate Clear(r: Region, ranges: set<(nat, nat)>) {
    forall range :: range in ranges ==> !Intersects(r, range.0, range.1)
  }

  /** No cached region overlaps a range that was freed while it was cached. */
  ghost predicate Fresh(regions: map<Id, Region>, freedSince: map<Id, set<(nat, nat)>>) {
    forall id :: id in freedSince && id in regions ==> Clear(regions[id], freedSince[id])
  }

  ghost predicate NotStale(c: Cache) {
    && c.freedSince.Keys == CachedIds(c.slots)
    && (c.stats.freeNotFree == 0 ==> Fresh(c.regions, c.freedSince))
  }

  ghost predicate Balanced(c: Cache) {
    && c.calls == c.stats.hits + c.stats.misses
    && c.stats.misses == c.stats.fill + c.stats.replace + c.stats.uncached
    && |CachedIds(c.slots)| + c.stats.free == c.stats.fill
  }

  /** The invariant without the balance of the statistics. */
  ghost predicate Core(c: Cache) {
    && Linked(c.slots, c.regions) && Counted(c.slots, c.regions, c.handles)
    && Pinned(c.regions, c.kernel) && Kept(c.regions, c.promised) && NotStale(c)
  }

  ghost predicate Inv(c: Cache) {
    Core(c) && Balanced(c)
  }

  // ------------------------------------------------------------ single steps

  lemma SlotUpdate(slots: seq<Node?<Region>>, i: nat, x: Node?<Region>)
    requires Distinct(slots) && i < |slots| && (x != null ==> x !in slots)
    ensures Distinct(slots[i := x])
    ensures forall id: Id :: id in slots[i := x] <==> id == x || (id in slots && id != slots[i])
  {
    var t := slots[i := x];
    forall id: Id | id in slots && id != slots[i] ensures id in t {
      var j :| 0 <= j < |slots| && slots[j] == id;
      assert t[j] == id;
    }
    assert t[i] == x;
  }

  lemma LinkedRecount(slots: seq<Node?<Region>>, regions: map<Id, Region>, id: Id, n: int)
    requires Linked(slots, regions) && id in regions
    ensures Linked(slots, Recount(regions, id, n))
  {
    forall x | x in regions ensures ParentOk(slots, Recount(regions, id, n), x) {
      assert ParentOk(slots, regions, x);
    }
  }

  lemma LinkedAdd(slots: seq<Node?<Region>>, regions: map<Id, Region>, item: Id, r: Region)
    requires Linked(slots, regions) && item !in regions
    requires r.parent != null ==> r.parent in slots && SameRange(r, regions[r.parent])
    ensures Linked(slots, regions[item := r])
  {
    var regions' := regions[item := r];
    forall x | x in regions' ensures ParentOk(slots, regions', x) {
      assert x != item ==> ParentOk(slots, regions, x);
    }
  }

  lemma LinkedOccupy(slots: seq<Node?<Region>>, regions: map<Id, Region>, i: nat, item: Id)
    requires Linked(slots, regions) && i < |slots| && slots[i] == null && item !in slots
    requires item in regions && regions[item].parent == null && regions[item].endpoint
    ensures Linked(slots[i := item], regions)
  {
    SlotUpdate(slots, i, item);
    forall x | x in regions ensures ParentOk(slots[i := item], regions, x) {
      assert ParentOk(slots, regions, x);
    }
  }

  /** A region without children can be removed, and its slot emptied if it has one. */
  lemma LinkedRemove(slots: seq<Node?<Region>>, slots': seq<Node?<Region>>, regions: map<Id, Region>, id: Id)
    requires Linked(slots, regions) && id in regions && ChildrenOf(regions, id) == {}
    requires Distinct(slots') && forall x: Id :: x in slots' <==> x in slots && x != id
    ensures Linked(slots', regions - {id})
  {
    forall x | x in regions - {id} ensures ParentOk(slots', regions - {id}, x) {
      assert ParentOk(slots, regions, x);
      assert regions[x].parent == id ==> x in ChildrenOf(regions, id);
    }
  }

  lemma PinnedRecount(regions: map<Id, Region>, kernel: map<Id, Pin>, id: Id, n: int)
    requires Pinned(regions, kernel) && id in regions
    ensures Pinned(Recount(regions, id, n), kernel)
  {
  }

  lemma PinnedAddChild(regions: map<Id, Region>, kernel: map<Id, Pin>, item: Id, r: Region)
    requires Pinned(regions, kernel) && item !in regions && r.parent != null
    ensures Pinned(regions[item := r], kernel)
  {
  }

  lemma PinnedAdd(regions: map<Id, Region>, kernel: map<Id, Pin>, item: Id, r: Region)
    requires Pinned(regions, kernel) && r.parent == null
    ensures Pinned(regions[item := r], kernel[item := Pin(r.start, r.count, r.nla)])
  {
  }

  lemma PinnedRemove(regions: map<Id, Region>, kernel: map<Id, Pin>, id: Id)
    requires Pinned(regions, kernel)
    ensures Pinned(regions - {id}, kernel - {id})
  {
  }

  lemma KeptRecount(regions: map<Id, Region>, promised: map<Id, set<(nat, nat)>>, id: Id, n: int)
    requires Kept(regions, promised) && id in regions
    ensures Kept(Recount(regions, id, n), promised)
  {
    var regions' := Recount(regions, id, n);
    forall x | x in regions ensures Laid(regions'[x]) && ServesAll(regions'[x], promised[x]) {
      assert ServesAll(regions[x], promised[x]);
    }
  }

  lemma KeptPromise(regions: map<Id, Region>, promised: map<Id, set<(nat, nat)>>, id: Id, address: nat, size: nat)
    requires Kept(regions, promised) && id in regions && Serves(regions[id], address, size)
    ensures Kept(regions, promised[id := promised[id] + {(address, size)}])
  {
  }

  lemma KeptAdd(regions: map<Id, Region>, promised: map<Id, set<(nat, nat)>>, item: Id, r: Region,
                address: nat, size: nat)
    requires Kept(regions, promised) && item !in regions && Laid(r) && Serves(r, address, size)
    ensures Kept(regions[item := r], promised[item := {(address, size)}])
  {
  }

  lemma KeptRemove(regions: map<Id, Region>, promised: map<Id, set<(nat, nat)>>, id: Id)
    requires Kept(regions, promised)
    ensures Kept(regions - {id}, promised - {id})
  {
  }

  lemma FreshRecount(regions: map<Id, Region>, freedSince: map<Id, set<(nat, nat)>>, id: Id, n: int)
    requires Fresh(regions, freedSince) && id in regions
    ensures Fresh(Recount(regions, id, n), freedSince)
  {
  }

  // ----------------------------------------------------------- whole calls

  lemma HitDirectCounts(c: Cache, i: nat, address: nat, size: nat)
    requires Linked(c.slots, c.regions) && Counted(c.slots, c.regions, c.handles)
    requires Known(c) && i < |c.slots| && Hits(c, i, address, size)
    ensures var c' := HitDirect(c, i, address, size);
      Counted(c'.slots, c'.regions, c'.handles)
  {
    var id: Id := c.slots[i];
    var c' := HitDirect(c, i, address, size);
    assert id in c.slots;
    assert c'.regions == Recount(c.regions, id, c.regions[id].refcount + 1);
    forall p | p in c.regions ensures ChildrenOf(c'.regions, p) == ChildrenOf(c.regions, p) {
    }
  }

  /** A range inside a region reaches into no more pages than the region has. */
  lemma ContainedFits(r: Region, address: nat, size: nat)
    requires Laid(r) && Contained(r, address, size)
    ensures Pages(address, size) < WORD
  {
    var page := address - address % PAGE;
    assert r.start <= page;
    assert size + address % PAGE == address + size - page <= r.count * PAGE;
  }

  lemma ServesDirect(r: Region, address: nat, size: nat)
    requires Laid(r) && Contained(r, address, size) && r.start + r.offset == address
    ensures Serves(r, address, size)
  {
    ContainedFits(r, address, size);
    hide Pages;
  }

  lemma RecountKeeps(c: Cache, id: Id, n: int)
    requires Linked(c.slots, c.regions) && Pinned(c.regions, c.kernel) && Kept(c.regions, c.promised) && NotStale(c)
    requires id in c.regions
    ensures var regions' := Recount(c.regions, id, n);
      && Linked(c.slots, regions') && Pinned(regions', c.kernel) && Kept(regions', c.promised)
      && (c.stats.freeNotFree == 0 ==> Fresh(regions', c.freedSince))
  {
    LinkedRecount(c.slots, c.regions, id, n);
    PinnedRecount(c.regions, c.kernel, id, n);
    KeptRecount(c.regions, c.promised, id, n);
    if c.stats.freeNotFree == 0 { FreshRecount(c.regions, c.freedSince, id, n); }
  }

  lemma HitDirectKeeps(c: Cache, i: nat, address: nat, size: nat)
    requires Core(c) && Known(c) && i < |c.slots| && Hits(c, i, address, size)
    requires c.regions[c.slots[i]].start + c.regions[c.slots[i]].offset == address
    ensures Core(HitDirect(c, i, address, size))
  {
    HitDirectCounts(c, i, address, size);
    HitDirectRest(c, i, address, size);
  }

  lemma HitDirectRest(c: Cache, i: nat, address: nat, size: nat)
    requires Linked(c.slots, c.regions) && Pinned(c.regions, c.kernel) && Kept(c.regions, c.promised) && NotStale(c)
    requires Known(c) && i < |c.slots| && Hits(c, i, address, size)
    requires c.regions[c.slots[i]].start + c.regions[c.slots[i]].offset == address
    ensures var c' := HitDirect(c, i, address, size);
      Linked(c'.slots, c'.regions) && Pinned(c'.regions, c'.kernel) && Kept(c'.regions, c'.promised) && NotStale(c')
  {
    var id: Id := c.slots[i];
    var n := c.regions[id].refcount + 1;
    var c' := HitDirect(c, i, address, size);
    assert id in c.slots;
    assert c'.regions == Recount(c.regions, id, n);
    assert c'.promised == c.promised[id := c.promised[id] + {(address, size)}];
    assert Linked(c'.slots, c'.regions) && Pinned(c'.regions, c'.kernel) && NotStale(c') by { RecountKeeps(c, id, n); }
    assert Kept(c'.regions, c'.promised) by {
      RecountKeeps(c, id, n);
      ServesDirect(c.regions[id], address, size);
      KeptPromise(Recount(c.regions, id, n), c.promised, id, address, size);
    }
  }

  lemma ChildAdded(regions: map<Id, Region>, id: Id, n: int, item: Id, r: Region, p: Id)
    requires id in regions && item !in regions && r.parent == id
    ensures var regions' := Recount(regions, id, n)[item := r];
      ChildrenOf(regions', p) == if p == id then ChildrenOf(regions, p) + {item} else ChildrenOf(regions, p)
    ensures item !in ChildrenOf(regions, p)
  {
  }

  lemma HitChildCounts(c: Cache, id: Id, item: Id, r: Region)
    requires Counted(c.slots, c.regions, c.handles) && id in c.slots && id in c.regions
    requires item !in c.regions && item !in c.slots && r.parent == id
    ensures Counted(c.slots, Retain(c, id, 1).regions[item := r], c.handles + multiset{item})
  {
    hide ChildrenOf;
    assert item !in c.handles;
    forall p: Id | p in c.slots && p in c.regions
      ensures Retain(c, id, 1).regions[item := r][p].refcount
        == (c.handles + multiset{item})[p] + |ChildrenOf(Retain(c, id, 1).regions[item := r], p)|
    {
      ChildAdded(c.regions, id, c.regions[id].refcount + 1, item, r, p);
    }
  }

  lemma ServesChild(r: Region, parent: Id, address: nat, size: nat)
    requires Laid(r) && Contained(r, address, size)
    ensures var q := ChildOf(r, parent, address);
      Laid(q) && Serves(q, address, size) && SameRange(q, r) && q.parent == parent
  {
    ContainedFits(r, address, size);
    hide Pages;
  }

  lemma HitChildLinks(c: Cache, id: Id, item: Id, n: int, r: Region)
    requires Linked(c.slots, c.regions) && Pinned(c.regions, c.kernel)
    requires id in c.slots && id in c.regions && item !in c.regions
    requires SameRange(r, c.regions[id]) && r.parent == id
    ensures var regions := Recount(c.regions, id, n)[item := r];
      Linked(c.slots, regions) && Pinned(regions, c.kernel)
  {
    LinkedRecount(c.slots, c.regions, id, n);
    LinkedAdd(c.slots, Recount(c.regions, id, n), item, r);
    PinnedRecount(c.regions, c.kernel, id, n);
    PinnedAddChild(Recount(c.regions, id, n), c.kernel, item, r);
  }

  lemma HitChildRanges(c: Cache, id: Id, item: Id, n: int, address: nat, size: nat)
    requires Kept(c.regions, c.promised) && NotStale(c)
    requires id in c.regions && item !in c.regions && Contained(c.regions[id], address, size) && item !in c.slots
    ensures var regions := Recount(c.regions, id, n);
      var regions' := regions[item := ChildOf(regions[id], id, address)];
      && Kept(regions', c.promised[item := {(address, size)}])
      && (c.stats.freeNotFree == 0 ==> Fresh(regions', c.freedSince))
  {
    var regions := Recount(c.regions, id, n);
    KeptRecount(c.regions, c.promised, id, n);
    ServesChild(regions[id], id, address, size);
    KeptAdd(regions, c.promised, item, ChildOf(regions[id], id, address), address, size);
    if c.stats.freeNotFree == 0 { FreshRecount(c.regions, c.freedSince, id, n); }
  }

  lemma HitChildKeeps(c: Cache, i: nat, address: nat, size: nat, item: Id)
    requires Core(c) && Known(c) && i < |c.slots| && Hits(c, i, address, size) && item !in c.regions
    ensures Core(HitChild(c, i, address, size, item))
  {
    var id: Id := c.slots[i];
    var n := c.regions[id].refcount + 1;
    var r := ChildOf(Recount(c.regions, id, n)[id], id, address);
    var c' := HitChild(c, i, address, size, item);
    assert id in c.slots && item !in c.slots && item !in c.promised;
    assert c'.regions == Recount(c.regions, id, n)[item := r];
    assert c'.promised == c.promised[item := {(address, size)}];
    assert Counted(c'.slots, c'.regions, c'.handles) by { HitChildCounts(c, id, item, r); }
    assert Linked(c'.slots, c'.regions) && Pinned(c'.regions, c'.kernel) by { HitChildLinks(c, id, item, n, r); }
    assert Kept(c'.regions, c'.promised) && NotStale(c') by { HitChildRanges(c, id, item, n, address, size); }
  }

  lemma NoChildrenYet(c: Cache, item: Id)
    requires Linked(c.slots, c.regions) && item !in c.regions
    ensures ChildrenOf(c.regions, item) == {}
  {
    forall id | id in c.regions ensures c.regions[id].parent != item {
      assert ParentOk(c.slots, c.regions, id);
    }
  }

  lemma InstallCounts(c: Cache, slots': seq<Node?<Region>>, item: Id, r: Region)
    requires Counted(c.slots, c.regions, c.handles) && Linked(c.slots, c.regions)
    requires item !in c.regions && r.parent == null && r.refcount == 1
    requires forall id: Id :: id in slots' <==> id == item || id in c.slots
    ensures Counted(slots', c.regions[item := r], c.handles + multiset{item})
  {
    assert item !in c.handles;
    NoChildrenYet(c, item);
    forall p | p in c.regions[item := r] ensures ChildrenOf(c.regions[item := r], p) == ChildrenOf(c.regions, p) {
    }
    hide ChildrenOf, Linked;
  }

  lemma AddKeepsRanges(c: Cache, address: nat, size: nat, nla: nat, item: Id, was: Region, n: int)
    requires Kept(c.regions, c.promised) && Pinned(c.regions, c.kernel)
    requires item !in c.regions
    ensures var r := Registered(was, address, size, nla).(refcount := n);
      && Kept(c.regions[item := r], c.promised[item := {(address, size)}])
      && Pinned(c.regions[item := r], c.kernel[item := Pin(r.start, r.count, r.nla)])
  {
    var r := Registered(was, address, size, nla).(refcount := n);
    RegisteredCovers(was, address, size, nla);
    KeptAdd(c.regions, c.promised, item, r, address, size);
    PinnedAdd(c.regions, c.kernel, item, r);
  }

  lemma InstallLinks(c: Cache, i: nat, item: Id, r: Region)
    requires Linked(c.slots, c.regions) && Counted(c.slots, c.regions, c.handles)
    requires i < |c.slots| && c.slots[i] == null && item !in c.regions
    requires r.parent == null && r.endpoint && r.refcount == 1
    ensures Linked(c.slots[i := item], c.regions[item := r])
    ensures Counted(c.slots[i := item], c.regions[item := r], c.handles + multiset{item})
    ensures CachedIds(c.slots[i := item]) == CachedIds(c.slots) + {item} && item !in CachedIds(c.slots)
  {
    assert item !in c.slots;
    SlotUpdate(c.slots, i, item);
    InstallCounts(c, c.slots[i := item], item, r);
    LinkedAdd(c.slots, c.regions, item, r);
    LinkedOccupy(c.slots, c.regions[item := r], i, item);
  }

  lemma InstallFresh(c: Cache, item: Id, r: Region)
    requires NotStale(c) && item !in c.regions
    ensures c.stats.freeNotFree == 0 ==> Fresh(c.regions[item := r], c.freedSince[item := {}])
  {
  }

  lemma InstallKeeps(c: Cache, i: nat, address: nat, size: nat, nla: nat, item: Id, was: Region)
    requires Core(c) && i < |c.slots| && c.slots[i] == null && item !in c.regions
    ensures Core(Install(c, i, address, size, nla, item, was))
  {
    var r := Registered(was, address, size, nla).(refcount := 1);
    assert item !in c.promised;
    hide Linked, Counted, Pinned, Kept, Fresh;
    InstallLinks(c, i, item, r);
    AddKeepsRanges(c, address, size, nla, item, was, 1);
    InstallFresh(c, item, r);
  }

  lemma UncachedCounts(c: Cache, item: Id, r: Region)
    requires Counted(c.slots, c.regions, c.handles) && Linked(c.slots, c.regions)
    requires item !in c.regions && item !in c.slots && r.parent == null
    ensures Counted(c.slots, c.regions[item := r], c.handles + multiset{item})
  {
    assert item !in c.handles;
    forall p: Id | p in c.slots ensures ChildrenOf(c.regions[item := r], p) == ChildrenOf(c.regions, p) {
    }
  }

  lemma UncachedKeeps(c: Cache, address: nat, size: nat, nla: nat, item: Id, was: Region)
    requires Core(c) && item !in c.regions
    ensures Core(RegisterUncached(c, address, size, nla, item, was))
  {
    var r := Registered(was, address, size, nla);
    var c' := RegisterUncached(c, address, size, nla, item, was);
    assert item !in c.slots && item !in c.promised;
    assert c'.regions == c.regions[item := r] && c'.promised == c.promised[item := {(address, size)}];
    UncachedCounts(c, item, r);
    LinkedAdd(c.slots, c.regions, item, r);
    AddKeepsRanges(c, address, size, nla, item, was, was.refcount);
  }

  lemma EvictCounts(c: Cache, slots': seq<Node?<Region>>, id: Id)
    requires Counted(c.slots, c.regions, c.handles) && Linked(c.slots, c.regions)
    requires id in c.slots && id in c.regions && c.regions[id].refcount == 0
    requires forall x: Id :: x in slots' <==> x in c.slots && x != id
    ensures Counted(slots', c.regions - {id}, c.handles) && ChildrenOf(c.regions, id) == {} && id !in c.handles
  {
    assert |ChildrenOf(c.regions, id)| == 0;
    forall p | p in c.regions - {id} && p in slots'
      ensures ChildrenOf(c.regions - {id}, p) == ChildrenOf(c.regions, p)
    {
      assert c.regions[id].parent != p;
    }
  }

  lemma EvictRest(c: Cache, i: nat)
    requires Linked(c.slots, c.regions) && Pinned(c.regions, c.kernel) && Kept(c.regions, c.promised) && NotStale(c)
    requires i < |c.slots| && c.slots[i] != null && ChildrenOf(c.regions, c.slots[i]) == {}
    ensures var c' := Evict(c, i);
      Linked(c'.slots, c'.regions) && Pinned(c'.regions, c'.kernel) && Kept(c'.regions, c'.promised) && NotStale(c')
  {
    var id: Id := c.slots[i];
    var c' := Evict(c, i);
    assert id in c.slots;
    SlotUpdate(c.slots, i, null);
    LinkedRemove(c.slots, c'.slots, c.regions, id);
    PinnedRemove(c.regions, c.kernel, id);
    KeptRemove(c.regions, c.promised, id);
  }

  lemma EvictKeeps(c: Cache, i: nat)
    requires Core(c) && Known(c) && i < |c.slots| && Spare(c, i)
    ensures Core(Evict(c, i))
    ensures c.slots[i] !in c.handles
  {
    assert c.slots[i] in c.slots;
    SlotUpdate(c.slots, i, null);
    EvictCounts(c, c.slots[i := null], c.slots[i]);
    EvictRest(c, i);
  }

  lemma ChildAndParent(c: Cache, h: Id)
    requires Linked(c.slots, c.regions) && h in c.regions && c.regions[h].parent != null
    ensures var p: Id := c.regions[h].parent;
      p in c.slots && p in c.regions && h !in c.slots && p != h
    ensures ChildrenOf(c.regions, h) == {}
  {
    assert ParentOk(c.slots, c.regions, h);
    forall x | x in c.regions ensures c.regions[x].parent != h {
      assert ParentOk(c.slots, c.regions, x);
    }
  }

  lemma ReleaseChildCounts(c: Cache, h: Id, p: Id)
    requires Counted(c.slots, c.regions, c.handles)
    requires h in c.handles && h in c.regions && c.regions[h].parent == p && p != h
    requires p in c.slots && p in c.regions && h !in c.slots
    ensures Counted(c.slots, Recount(c.regions, p, c.regions[p].refcount - 1) - {h}, c.handles - multiset{h})
  {
    var regions' := Recount(c.regions, p, c.regions[p].refcount - 1) - {h};
    assert h in ChildrenOf(c.regions, p);
    forall q: Id | q in c.slots && q in c.regions
      ensures ChildrenOf(regions', q) == if q == p then ChildrenOf(c.regions, p) - {h} else ChildrenOf(c.regions, q)
    {
    }
  }

  lemma ReleaseChildLinks(c: Cache, h: Id, p: Id, n: int)
    requires Linked(c.slots, c.regions) && Pinned(c.regions, c.kernel)
    requires h in c.regions && h !in c.slots && c.regions[h].parent != null && p in c.regions && p != h
    requires ChildrenOf(c.regions, h) == {}
    ensures var regions' := Recount(c.regions, p, n) - {h};
      Linked(c.slots, regions') && Pinned(regions', c.kernel)
  {
    LinkedRecount(c.slots, c.regions, p, n);
    assert ChildrenOf(Recount(c.regions, p, n), h) == ChildrenOf(c.regions, h);
    LinkedRemove(c.slots, c.slots, Recount(c.regions, p, n), h);
    PinnedRecount(c.regions, c.kernel, p, n);
    PinnedRemove(Recount(c.regions, p, n), c.kernel, h);
    assert c.kernel - {h} == c.kernel;
  }

  lemma ReleaseChildRanges(c: Cache, h: Id, p: Id, n: int)
    requires Kept(c.regions, c.promised) && NotStale(c) && p in c.regions && p != h
    ensures var regions' := Recount(c.regions, p, n) - {h};
      Kept(regions', c.promised - {h}) && (c.stats.freeNotFree == 0 ==> Fresh(regions', c.freedSince))
  {
    KeptRecount(c.regions, c.promised, p, n);
    KeptRemove(Recount(c.regions, p, n), c.promised, h);
    if c.stats.freeNotFree == 0 { FreshRecount(c.regions, c.freedSince, p, n); }
  }

  lemma ReleaseChildCounted(c: Cache, h: Id)
    requires Linked(c.slots, c.regions) && Counted(c.slots, c.regions, c.handles)
    requires h in c.handles && c.regions[h].parent != null
    ensures var c' := Unregister(c, h);
      Counted(c'.slots, c'.regions, c'.handles)
  {
    ChildAndParent(c, h);
    var p: Id := c.regions[h].parent;
    var c' := Unregister(c, h);
    assert c'.regions == Recount(c.regions, p, c.regions[p].refcount - 1) - {h};
    assert Counted(c'.slots, c'.regions, c'.handles) by { ReleaseChildCounts(c, h, p); }
  }

  lemma ReleaseChildRest(c: Cache, h: Id)
    requires Linked(c.slots, c.regions) && Pinned(c.regions, c.kernel) && Kept(c.regions, c.promised) && NotStale(c)
    requires h in c.regions && c.regions[h].parent != null
    ensures var c' := Unregister(c, h);
      Linked(c'.slots, c'.regions) && Pinned(c'.regions, c'.kernel) && Kept(c'.regions, c'.promised) && NotStale(c')
  {
    ChildAndParent(c, h);
    var p: Id := c.regions[h].parent;
    var n := c.regions[p].refcount - 1;
    var c' := Unregister(c, h);
    assert c'.regions == Recount(c.regions, p, n) - {h} && c'.promised == c.promised - {h};
    assert Linked(c'.slots, c'.regions) && Pinned(c'.regions, c'.kernel) by { ReleaseChildLinks(c, h, p, n); }
    assert Kept(c'.regions, c'.promised) && NotStale(c') by { ReleaseChildRanges(c, h, p, n); }
  }

  lemma ReleaseChildKeeps(c: Cache, h: Id)
    requires Core(c) && h in c.handles && c.regions[h].parent != null
    ensures Core(Unregister(c, h))
  {
    ReleaseChildCounted(c, h);
    ReleaseChildRest(c, h);
  }

  lemma ReleaseCachedCounts(c: Cache, h: Id)
    requires Linked(c.slots, c.regions) && Counted(c.slots, c.regions, c.handles) && h in c.slots && h in c.handles
    ensures var c' := Unregister(c, h);
      Counted(c'.slots, c'.regions, c'.handles)
  {
    var c' := Unregister(c, h);
    assert c'.regions == Recount(c.regions, h, c.regions[h].refcount - 1);
    forall p | p in c.regions ensures ChildrenOf(c'.regions, p) == ChildrenOf(c.regions, p) {
    }
  }

  lemma ReleaseCachedRest(c: Cache, h: Id)
    requires Linked(c.slots, c.regions) && Pinned(c.regions, c.kernel) && Kept(c.regions, c.promised) && NotStale(c)
    requires h in c.slots
    ensures var c' := Unregister(c, h);
      Linked(c'.slots, c'.regions) && Pinned(c'.regions, c'.kernel) && Kept(c'.regions, c'.promised) && NotStale(c')
  {
    var n := c.regions[h].refcount - 1;
    var c' := Unregister(c, h);
    assert c'.regions == Recount(c.regions, h, n) && c'.promised == c.promised;
    assert Linked(c'.slots, c'.regions) && Pinned(c'.regions, c'.kernel) by { RecountKeeps(c, h, n); }
    assert Kept(c'.regions, c'.promised) && NotStale(c') by { RecountKeeps(c, h, n); }
  }

  lemma ReleaseCachedKeeps(c: Cache, h: Id)
    requires Core(c) && h in c.handles && h in c.slots
    ensures Core(Unregister(c, h))
  {
    ReleaseCachedCounts(c, h);
    ReleaseCachedRest(c, h);
  }

  lemma ReleasePlainCounts(c: Cache, h: Id)
    requires Counted(c.slots, c.regions, c.handles) && Linked(c.slots, c.regions)
    requires h in c.handles && h !in c.slots && c.regions[h].parent == null
    ensures Counted(c.slots, c.regions - {h}, c.handles - multiset{h}) && ChildrenOf(c.regions, h) == {}
  {
    forall p: Id | p in c.slots && p in c.regions
      ensures ChildrenOf(c.regions - {h}, p) == ChildrenOf(c.regions, p)
    {
    }
    forall x | x in c.regions ensures c.regions[x].parent != h {
      assert ParentOk(c.slots, c.regions, x);
    }
  }

  lemma ReleasePlainKeeps(c: Cache, h: Id)
    requires Core(c) && h in c.handles && h !in c.slots && c.regions[h].parent == null
    ensures Core(Unregister(c, h))
  {
    var c' := Unregister(c, h);
    ReleasePlainCounts(c, h);
    assert Counted(c'.slots, c'.regions, c'.handles);
    assert Linked(c'.slots, c'.regions) by { LinkedRemove(c.slots, c.slots, c.regions, h); }
    assert Pinned(c'.regions, c'.kernel) by { PinnedRemove(c.regions, c.kernel, h); }
    assert Kept(c'.regions, c'.promised) by { KeptRemove(c.regions, c.promised, h); }
    assert NotStale(c');
  }

  // ---------------------------------------------------------- the three calls

  lemma CoreIgnoresStats(c: Cache, stats: Stats)
    requires Core(c) && (stats.freeNotFree == 0 ==> c.stats.freeNotFree == 0)
    ensures Core(c.(stats := stats))
  {
  }

  lemma RegisterKeepsCore(c: Cache, address: nat, size: nat, nla: nat, item: Id, was: Region)
    requires Core(c) && Known(c) && ItemFor(c, address, size, item)
    ensures Core(Register(c, address, size, nla, item, was).0)
  {
    hide Linked, Counted, Pinned, Kept, Fresh;
    var c' := Register(c, address, size, nla, item, was).0;
    match RouteOf(c, address, size)
    case Direct(i) => HitDirectKeeps(c, i, address, size);
    case Child(i) => HitChildKeeps(c, i, address, size, item);
    case Fill(i) =>
      InstallKeeps(c, i, address, size, nla, item, was);
      CoreIgnoresStats(Install(c, i, address, size, nla, item, was), c'.stats);
    case Replace(i) =>
      EvictKeeps(c, i);
      InstallKeeps(Evict(c, i), i, address, size, nla, item, was);
      CoreIgnoresStats(Install(Evict(c, i), i, address, size, nla, item, was), c'.stats);
    case Uncached =>
      UncachedKeeps(c, address, size, nla, item, was);
      CoreIgnoresStats(RegisterUncached(c, address, size, nla, item, was), c'.stats);
  }

  lemma SlotCount(slots: seq<Node?<Region>>, i: nat, x: Node?<Region>)
    requires Distinct(slots) && i < |slots| && (x != null ==> x !in slots) && (slots[i] == null || x == null)
    ensures |CachedIds(slots[i := x])| ==
            |CachedIds(slots)| - (if slots[i] == null then 0 else 1) + (if x == null then 0 else 1)
  {
    SlotUpdate(slots, i, x);
    var before, after := CachedIds(slots), CachedIds(slots[i := x]);
    assert slots[i] != null ==> slots[i] in slots;
    hide Distinct;
    if x != null {
      assert after == before + {x};
    } else if slots[i] != null {
      assert after == before - {slots[i]};
    } else {
      assert after == before;
    }
  }

  lemma RegisterBalances(c: Cache, address: nat, size: nat, nla: nat, item: Id, was: Region)
    requires Linked(c.slots, c.regions) && Balanced(c) && Known(c) && ItemFor(c, address, size, item)
    ensures Balanced(Register(c, address, size, nla, item, was).0)
  {
    match RouteOf(c, address, size)
    case Fill(i) => SlotCount(c.slots, i, item);
    case Replace(i) =>
      SlotCount(c.slots, i, null);
      SlotUpdate(c.slots, i, null);
      assert item !in c.slots[i := null];
      SlotCount(c.slots[i := null], i, item);
      assert c.slots[i := null][i := item] == Evict(c, i).slots[i := item];
    case _ =>
  }

  lemma RegisterKeeps(c: Cache, address: nat, size: nat, nla: nat, item: Id, was: Region)
    requires Inv(c) && Known(c) && ItemFor(c, address, size, item)
    ensures Inv(Register(c, address, size, nla, item, was).0)
  {
    RegisterKeepsCore(c, address, size, nla, item, was);
    RegisterBalances(c, address, size, nla, item, was);
  }

  lemma UnregisterKeepsCore(c: Cache, h: Id)
    requires Core(c) && h in c.handles && h in c.regions
    ensures Core(Unregister(c, h))
  {
    if c.regions[h].parent != null {
      ReleaseChildKeeps(c, h);
    } else if h in c.slots {
      ReleaseCachedKeeps(c, h);
    } else {
      ReleasePlainKeeps(c, h);
    }
  }

  lemma UnregisterKeeps(c: Cache, h: Id)
    requires Inv(c) && h in c.handles
    ensures Inv(Unregister(c, h))
  {
    hide Core;
    HandleKnown(c, h);
    UnregisterKeepsCore(c, h);
  }

  /** The count that a return asserts to be at least zero is. */
  lemma CachedCount(c: Cache, id: Id)
    requires Core(c) && id in c.slots
    ensures id in c.regions && c.regions[id].refcount >= 0
  {
  }

  lemma HandleKnown(c: Cache, h: Id)
    requires Core(c) && h in c.handles
    ensures h in c.regions
  {
  }

  lemma FreeSlotKeeps(c: Cache, i: nat, address: nat, length: nat)
    requires Inv(c) && Known(c) && i < |c.slots|
    ensures Inv(FreeSlot(c, i, address, length))
  {
    var id := c.slots[i];
    var c' := FreeSlot(c, i, address, length);
    if id != null && Overlap(c.regions[id], address, length) {
      if c.regions[id].refcount == 0 {
        assert id in c.slots;
        EvictKeeps(c, i);
        CoreIgnoresStats(Evict(c, i), c'.stats);
        SlotCount(c.slots, i, null);
      } else {
        CoreIgnoresStats(c, c'.stats);
      }
    }
  }

  predicate Doomed(c: Cache, j: nat, address: nat, length: nat)
    requires Known(c) && j < |c.slots|
  {
    Spare(c, j) && Overlap(c.regions[c.slots[j]], address, length)
  }

  predicate Skipped(c: Cache, j: nat, address: nat, length: nat)
    requires Known(c) && j < |c.slots|
  {
    c.slots[j] != null && !Spare(c, j) && Overlap(c.regions[c.slots[j]], address, length)
  }

  lemma {:induction false} FreeUpToKeeps(c: Cache, n: nat, address: nat, length: nat)
    requires Inv(c) && Known(c) && Distinct(c.slots) && n <= |c.slots|
    ensures Inv(FreeUpTo(c, n, address, length))
  {
    hide Inv;
    if n > 0 {
      FreeUpToKeeps(c, n - 1, address, length);
      FreeSlotKeeps(FreeUpTo(c, n - 1, address, length), n - 1, address, length);
    }
  }

  /** No region changes under the free handler; at most it is gone. */
  lemma {:induction false} FreeLeavesRegions(c: Cache, n: nat, address: nat, length: nat)
    requires Known(c) && Distinct(c.slots) && n <= |c.slots|
    ensures var c' := FreeUpTo(c, n, address, length);
      && c'.handles == c.handles
      && (forall id :: id in c'.regions ==> id in c.regions && c'.regions[id] == c.regions[id])
      && (forall id :: id in c'.kernel ==> id in c.kernel && c'.kernel[id] == c.kernel[id])
  {
    if n > 0 {
      FreeLeavesRegions(c, n - 1, address, length);
    }
  }

  /**
   The free handler empties exactly the slots whose region overlaps the freed range and is
   not in use, and its counter of regions it had to leave moves exactly if there is one.
   */
  lemma {:induction false} FreeMeaning(c: Cache, n: nat, address: nat, length: nat)
    requires Inv(c) && Known(c) && Distinct(c.slots) && n <= |c.slots|
    ensures var c' := FreeUpTo(c, n, address, length);
      && (forall j :: 0 <= j < |c.slots| ==>
            c'.slots[j] == if j < n && Doomed(c, j, address, length) then null else c.slots[j])
      && c.stats.freeNotFree <= c'.stats.freeNotFree
      && (c'.stats.freeNotFree == c.stats.freeNotFree <==>
            forall j :: 0 <= j < n ==> !Skipped(c, j, address, length))
  {
    hide Inv, FreeSlot, Doomed, Skipped;
    if n > 0 {
      FreeMeaning(c, n - 1, address, length);
      SameSlot(c, n - 1, address, length);
    }
  }

  ghost function DoomedSlots(c: Cache, n: nat, address: nat, length: nat): set<nat>
    requires Known(c) && n <= |c.slots|
  {
    set j: nat | j < n && Doomed(c, j, address, length)
  }

  ghost function SkippedSlots(c: Cache, n: nat, address: nat, length: nat): set<nat>
    requires Known(c) && n <= |c.slots|
  {
    set j: nat | j < n && Skipped(c, j, address, length)
  }

  lemma OneMoreSlot(c: Cache, n: nat, address: nat, length: nat)
    requires Known(c) && n < |c.slots|
    ensures |DoomedSlots(c, n + 1, address, length)|
      == |DoomedSlots(c, n, address, length)| + if Doomed(c, n, address, length) then 1 else 0
    ensures |SkippedSlots(c, n + 1, address, length)|
      == |SkippedSlots(c, n, address, length)| + if Skipped(c, n, address, length) then 1 else 0
  {
    hide Doomed, Skipped;
    var d, s := DoomedSlots(c, n, address, length), SkippedSlots(c, n, address, length);
    assert DoomedSlots(c, n + 1, address, length) == if Doomed(c, n, address, length) then d + {n} else d;
    assert SkippedSlots(c, n + 1, address, length) == if Skipped(c, n, address, length) then s + {n} else s;
  }

  /** What the free handler counts: the slots it empties, and those it has to leave. */
  lemma {:induction false} FreeCounts(c: Cache, n: nat, address: nat, length: nat)
    requires Inv(c) && Known(c) && Distinct(c.slots) && n <= |c.slots|
    ensures FreeUpTo(c, n, address, length).stats == c.stats.(
      free := c.stats.free + |DoomedSlots(c, n, address, length)|,
      freeNotFree := c.stats.freeNotFree + |SkippedSlots(c, n, address, length)|)
  {
    hide Inv, FreeSlot, Doomed, Skipped, Known, Distinct;
    if n > 0 {
      FreeCounts(c, n - 1, address, length);
      FreeMeaning(c, n - 1, address, length);
      SameSlot(c, n - 1, address, length);
      OneMoreSlot(c, n - 1, address, length);
    } else {
      assert DoomedSlots(c, 0, address, length) == {} && SkippedSlots(c, 0, address, length) == {};
    }
    hide DoomedSlots, SkippedSlots;
  }

  /** When the free handler reaches slot i, that slot and its region are as they were. */
  lemma SameSlot(c: Cache, i: nat, address: nat, length: nat)
    requires Inv(c) && Known(c) && i < |c.slots| && FreeUpTo(c, i, address, length).slots[i] == c.slots[i]
    ensures var c1 := FreeUpTo(c, i, address, length);
      && Doomed(c1, i, address, length) == Doomed(c, i, address, length)
      && Skipped(c1, i, address, length) == Skipped(c, i, address, length)
      && FreeSlot(c1, i, address, length).slots
           == (if Doomed(c, i, address, length) then c1.slots[i := null] else c1.slots)
      && FreeSlot(c1, i, address, length).stats == c1.stats.(
           free := c1.stats.free + (if Doomed(c, i, address, length) then 1 else 0),
           freeNotFree := c1.stats.freeNotFree + (if Skipped(c, i, address, length) then 1 else 0))
  {
    var c1 := FreeUpTo(c, i, address, length);
    FreeLeavesRegions(c, i, address, length);
    if c.slots[i] != null {
      assert c.slots[i] in c.slots && c1.slots[i] in c1.regions;
      assert c.regions[c.slots[i]].endpoint;
    }
  }

  lemma FreeKeeps(c: Cache, address: nat, length: nat)
    requires Inv(c) && Known(c) && Distinct(c.slots)
    ensures Inv(Free(c, address, length))
  {
    hide Linked, Counted, Pinned, Kept, Fresh;
    FreeUpToKeeps(c, |c.slots|, address, length);
    FreedRangesClear(c, address, length);
    assert Free(c, address, length).freedSince.Keys == FreeUpTo(c, |c.slots|, address, length).freedSince.Keys;
  }

  lemma FreedRangesClear(c: Cache, address: nat, length: nat)
    requires Inv(c) && Known(c) && Distinct(c.slots)
    ensures var c' := Free(c, address, length);
      c'.stats.freeNotFree == 0 ==> Fresh(c'.regions, c'.freedSince)
  {
    var c1 := FreeUpTo(c, |c.slots|, address, length);
    FreeUpToKeeps(c, |c.slots|, address, length);
    hide Linked, Counted, Pinned, Kept;
    forall id | c1.stats.freeNotFree == 0 && id in c1.freedSince && id in c1.regions
      ensures Clear(c1.regions[id], c1.freedSince[id] + {(address, length)})
    {
      FreedIsClear(c, address, length, id);
      assert Clear(c1.regions[id], c1.freedSince[id]);
    }
  }

  lemma FreedIsClear(c: Cache, address: nat, length: nat, id: Id)
    requires Inv(c) && Known(c)
    requires var c1 := FreeUpTo(c, |c.slots|, address, length);
      c1.stats.freeNotFree == 0 && id in c1.slots && id in c1.regions
    ensures !Intersects(FreeUpTo(c, |c.slots|, address, length).regions[id], address, length)
  {
    var c1 := FreeUpTo(c, |c.slots|, address, length);
    FreeMeaning(c, |c.slots|, address, length);
    FreeLeavesRegions(c, |c.slots|, address, length);
    var j :| 0 <= j < |c1.slots| && c1.slots[j] == id;
    assert !Skipped(c, j, address, length) && !Doomed(c, j, address, length);
    assert Laid(c.regions[id]);
    OverlapMeaning(c.regions[id], address, length);
  }
}
