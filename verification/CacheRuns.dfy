/** The cache over whole runs of calls: what a holder of a handle may rely on, and the books that balance. */
module CacheRuns {
  import opened PoolLists
  import opened Regions
  import opened CacheModel
  import opened CacheInvariant
  import opened MachineWords

  /** One call. `item` and `was` stand for what the pool hands out, `nla` for what the kernel assigns. */
  datatype Event =
    | Register(address: nat, size: nat, nla: nat, item: Id, was: Region)
    | Unregister(handle: Id)
    | Free(address: nat, length: nat)

  ghost predicate Enabled(c: Cache, e: Event) {
    && Known(c) && Distinct(c.slots)
    && match e
       case Register(address, size, _, item, _) => ItemFor(c, address, size, item)
       case Unregister(h) => h in c.handles && h in c.regions
       case Free(_, _) => true
  }

  ghost function Apply(c: Cache, e: Event): Cache
    requires Enabled(c, e)
  {
    match e
    case Register(address, size, nla, item, was) => CacheModel.Register(c, address, size, nla, item, was).0
    case Unregister(h) => CacheModel.Unregister(c, h)
    case Free(address, length) => CacheModel.Free(c, address, length)
  }

  ghost predicate IsRun(states: seq<Cache>, events: seq<Event>) {
    && |states| == |events| + 1
    && states[0] == Empty(|states[0].slots|)
    && forall k :: 0 <= k < |events| ==> Enabled(states[k], events[k]) && states[k + 1] == Apply(states[k], events[k])
  }

  lemma EmptyInv(n: nat)
    ensures Inv(Empty(n))
  {
  }

  lemma StepKeepsInv(c: Cache, e: Event)
    requires Inv(c) && Enabled(c, e)
    ensures Inv(Apply(c, e))
  {
    hide Inv;
    match e
    case Register(address, size, nla, item, was) => RegisterKeeps(c, address, size, nla, item, was);
    case Unregister(h) => UnregisterKeeps(c, h);
    case Free(address, length) => FreeKeeps(c, address, length);
  }

  lemma {:induction false} RunKeepsInv(states: seq<Cache>, events: seq<Event>, k: nat)
    requires IsRun(states, events) && k < |states|
    ensures Inv(states[k])
  {
    hide Inv, Apply, Enabled;
    if k == 0 {
      EmptyInv(|states[0].slots|);
    } else {
      RunKeepsInv(states, events, k - 1);
      StepKeepsInv(states[k - 1], events[k - 1]);
    }
  }

  /** The empty cache is a run, and every call of the library extends a run by one event. */
  lemma RunExtends(states: seq<Cache>, events: seq<Event>, e: Event)
    requires IsRun(states, events) && Enabled(states[|events|], e)
    ensures IsRun(states + [Apply(states[|events|], e)], events + [e])
  {
    hide Enabled, Apply;
    var next := states + [Apply(states[|events|], e)];
    forall k | 0 <= k < |events + [e]|
      ensures Enabled(next[k], (events + [e])[k]) && next[k + 1] == Apply(next[k], (events + [e])[k])
    {
      if k < |events| {
        assert Enabled(states[k], events[k]);
      }
    }
  }

  lemma RunStarts(n: nat)
    ensures IsRun([Empty(n)], [])
  {
  }

  /** The kernel registration behind a handle: the region itself, or the parent of a child. */
  ghost function Root(c: Cache, h: Id): Id
    requires h in c.regions
  {
    var p := c.regions[h].parent;
    if p == null then h else p
  }

  /**
   Handle h translates the range [address, address + size) like a plain registration. Its
   pages are pinned under it, and cover the range exactly when 32 bits can count the pages
   of the range; its virtual address and its NLA are those of the range at an offset exactly
   when the range starts less than 4 GB behind the start of the region, since a child keeps
   its offset in 32 bits.
   */
  ghost predicate Translates(c: Cache, h: Id, address: nat, size: nat, offset: nat) {
    && h in c.regions && Root(c, h) in c.kernel
    && var r, pin := c.regions[h], c.kernel[Root(c, h)];
    && pin == Pin(r.start, r.count, r.nla)
    && pin.start <= address
    && (address + size <= pin.start + pin.count * PAGE <==> size + address % PAGE <= LONGEST)
    && (GetVa(r, offset) == address + offset <==> address - pin.start < WORD)
    && (GetNla(r, offset) == pin.nla + (address + offset - pin.start) <==> address - pin.start < WORD)
  }

  /** In every state of every run, for every outstanding handle and every range it was returned for. */
  lemma HandleTranslates(states: seq<Cache>, events: seq<Event>, k: nat, h: Id, address: nat, size: nat, offset: nat)
    requires IsRun(states, events) && k < |states|
    requires var c := states[k];
      h in c.handles && h in c.promised && (address, size) in c.promised[h]
    ensures Translates(states[k], h, address, size, offset)
  {
    RunKeepsInv(states, events, k);
    Serving(states[k], h, address, size, offset);
  }

  lemma Serving(c: Cache, h: Id, address: nat, size: nat, offset: nat)
    requires Inv(c) && h in c.handles && h in c.promised && (address, size) in c.promised[h]
    ensures Translates(c, h, address, size, offset)
  {
    HandleServes(c, h, address, size);
    PagesExact(address, size);
  }

  /** What a call returns translates the range that was asked for. */
  lemma RegisterTranslates(c: Cache, address: nat, size: nat, nla: nat, item: Id, was: Region, offset: nat)
    requires Inv(c) && Known(c) && ItemFor(c, address, size, item)
    ensures var (c', h) := CacheModel.Register(c, address, size, nla, item, was);
      c'.handles == c.handles + multiset{h} && Translates(c', h, address, size, offset)
  {
    hide *;
    RegisterKeeps(c, address, size, nla, item, was);
    RegisterAnswers(c, address, size, nla, item, was);
    var (c', h) := CacheModel.Register(c, address, size, nla, item, was);
    Serving(c', h, address, size, offset);
  }

  lemma HandleServes(c: Cache, h: Id, address: nat, size: nat)
    requires Core(c) && h in c.handles && h in c.promised && (address, size) in c.promised[h]
    ensures h in c.regions && Laid(c.regions[h]) && Serves(c.regions[h], address, size)
    ensures Root(c, h) in c.kernel
    ensures c.kernel[Root(c, h)] == Pin(c.regions[h].start, c.regions[h].count, c.regions[h].nla)
  {
    assert h in c.regions;
    assert ServesAll(c.regions[h], c.promised[h]);
    assert (address, size).0 == address;
    assert ParentOk(c.slots, c.regions, h);
  }

  /** The call gives back a handle that is answered for exactly as asked, and counts itself. */
  lemma RegisterAnswers(c: Cache, address: nat, size: nat, nla: nat, item: Id, was: Region)
    requires Known(c)
    ensures var (c', h) := CacheModel.Register(c, address, size, nla, item, was);
      && c'.handles == c.handles + multiset{h} && c'.calls == c.calls + 1
      && h in c'.promised && (address, size) in c'.promised[h]
      && |c'.slots| == |c.slots|
  {
    hide Registered, ChildOf, Contained, RouteOf, Recount;
  }

  /** A call that finds no cached region around the range registers its pages and no others. */
  lemma MissIsTight(c: Cache, address: nat, size: nat, nla: nat, item: Id, was: Region)
    requires Known(c) && forall j :: 0 <= j < |c.slots| ==> !Hits(c, j, address, size)
    ensures var (c', h) := CacheModel.Register(c, address, size, nla, item, was);
      && h == item && h in c'.regions && h in c'.kernel
      && var r := c'.regions[h];
      && c'.kernel[h] == Pin(r.start, r.count, nla) && r.nla == nla
      && Snug(r, address, size)
  {
    RegisteredCovers(was, address, size, nla);
    hide Pages, Contained;
  }

  /** The statistics of a hit: a child is counted exactly if the region returned has a parent. */
  lemma HitCounts(c: Cache, i: nat, address: nat, size: nat, nla: nat, item: Id, was: Region)
    requires Linked(c.slots, c.regions) && Known(c) && i < |c.slots| && Hits(c, i, address, size)
    ensures var (c', h) := CacheModel.Register(c, address, size, nla, item, was);
      && h in c'.regions
      && c'.stats == c.stats.(hits := c.stats.hits + 1,
                              useChild := c.stats.useChild + if c'.regions[h].parent != null then 1 else 0)
  {
    var f := FirstHit(c, address, size, 0);
    assert f < |c.slots| && c.slots[f] in c.slots;
    HitRoutes(c, address, size, nla, item, was);
    hide CacheModel.Register, RouteOf, FirstHit, Contained;
  }

  /** The statistics of a miss are told from the slots before it. */
  lemma MissCounts(c: Cache, address: nat, size: nat, nla: nat, item: Id, was: Region)
    requires Known(c) && forall j :: 0 <= j < |c.slots| ==> !Hits(c, j, address, size)
    ensures var s := c.stats.(misses := c.stats.misses + 1);
      CacheModel.Register(c, address, size, nla, item, was).0.stats ==
        if null in c.slots then s.(fill := s.fill + 1)
        else if exists j :: 0 <= j < |c.slots| && Spare(c, j) then s.(replace := s.replace + 1)
        else s.(uncached := s.uncached + 1)
  {
    var j := FirstEmpty(c, 0);
    if j < |c.slots| {
      FillRoute(c, j, address, size, nla, item, was);
      assert c.slots[j] in c.slots;
    } else {
      var k := FirstSpare(c, 0);
      if k < |c.slots| {
        ReplaceRoute(c, k, address, size, nla, item, was);
        assert Spare(c, k);
      } else {
        UncachedRoute(c, address, size, nla, item, was);
      }
    }
    hide CacheModel.Register, RouteOf, FirstHit, FirstEmpty, FirstSpare, Hits, Spare;
  }

  /** All but the last return of a handle, and every call that concerns another one. */
  ghost predicate Outlasts(c: Cache, e: Event, h: Id) {
    h in c.handles && (e.Unregister? && e.handle == h ==> c.handles[h] > 1)
  }

  ghost predicate SameService(c: Cache, c': Cache, h: Id) {
    && h in c.regions && h in c'.regions && h in c.promised && h in c'.promised
    && c'.regions[h] == c.regions[h].(refcount := c'.regions[h].refcount)
    && Root(c, h) in c.kernel && Root(c', h) in c'.kernel
    && c'.kernel[Root(c', h)] == c.kernel[Root(c, h)]
    && c.promised[h] <= c'.promised[h]
  }

  /**
   While a handle is outstanding nothing takes its registration away: over any number of
   calls, evictions and frees included, the handle's fields, the kernel registration behind
   it and the ranges it answers for stay.
   */
  lemma {:induction false} HandleSurvives(states: seq<Cache>, events: seq<Event>, j: nat, k: nat, h: Id)
    requires IsRun(states, events) && j <= k < |states|
    requires forall m :: j <= m <= k ==> h in states[m].handles
    ensures SameService(states[j], states[k], h)
    decreases k - j
  {
    hide Core, SameService, Apply, Enabled;
    RunKeepsInv(states, events, j);
    if j == k {
      ServesItself(states[j], h);
    } else {
      HandleSurvives(states, events, j, k - 1, h);
      RunKeepsInv(states, events, k - 1);
      assert states[k - 1 + 1] == Apply(states[k - 1], events[k - 1]);
      StillHeld(states[k - 1], events[k - 1], h);
      SurvivesCall(states[k - 1], events[k - 1], h);
      SameServiceChains(states[j], states[k - 1], states[k], h);
    }
  }

  /** A handle that is still held after a call was not returned by it for the last time. */
  lemma StillHeld(c: Cache, e: Event, h: Id)
    requires Enabled(c, e) && h in c.handles && h in Apply(c, e).handles
    ensures Outlasts(c, e, h)
  {
  }

  lemma SurvivesCall(c: Cache, e: Event, h: Id)
    requires Inv(c) && Enabled(c, e) && Outlasts(c, e, h)
    ensures var c' := Apply(c, e);
      h in c'.handles && SameService(c, c', h)
  {
    hide Core, SameService;
    match e
    case Register(address, size, nla, item, was) => SurvivesRegister(c, address, size, nla, item, was, h);
    case Unregister(g) => SurvivesUnregister(c, g, h);
    case Free(address, length) => SurvivesFreeCall(c, address, length, h);
  }

  lemma RootKnown(c: Cache, h: Id)
    requires Core(c) && h in c.handles
    ensures h in c.regions && h in c.promised && Root(c, h) in c.regions && Root(c, h) in c.kernel
    ensures Root(c, h) in c.slots ==> c.regions[Root(c, h)].refcount > 0
    ensures Root(c, h) !in c.slots ==> Root(c, h) == h
  {
    assert ParentOk(c.slots, c.regions, h);
    assert h in ChildrenOf(c.regions, Root(c, h)) || Root(c, h) == h;
  }

  lemma EvictSpares(c: Cache, i: nat, h: Id)
    requires Core(c) && Known(c) && i < |c.slots| && Spare(c, i) && h in c.handles
    ensures Known(Evict(c, i)) && SameService(c, Evict(c, i), h)
  {
    RootKnown(c, h);
    assert c.slots[i] in c.slots;
    assert c.slots[i] != Root(c, h) && c.slots[i] != h;
    assert Distinct(c.slots);
  }

  /** Both items of a handle, before the call. */
  ghost predicate Held(c: Cache, h: Id) {
    h in c.regions && h in c.promised && Root(c, h) in c.regions && Root(c, h) in c.kernel
  }

  lemma SurvivesHit(c: Cache, i: nat, address: nat, size: nat, item: Id, h: Id)
    requires Known(c) && i < |c.slots| && c.slots[i] != null && Held(c, h)
    ensures SameService(c, HitDirect(c, i, address, size), h)
    ensures item !in c.regions ==> SameService(c, HitChild(c, i, address, size, item), h)
  {
  }

  lemma SurvivesAdd(c: Cache, i: nat, address: nat, size: nat, nla: nat, item: Id, was: Region, h: Id)
    requires Held(c, h) && item !in c.regions
    ensures i < |c.slots| ==> SameService(c, Install(c, i, address, size, nla, item, was), h)
    ensures SameService(c, RegisterUncached(c, address, size, nla, item, was), h)
  {
  }

  lemma SurvivesReplace(c: Cache, i: nat, address: nat, size: nat, nla: nat, item: Id, was: Region, h: Id)
    requires Core(c) && Known(c) && i < |c.slots| && Spare(c, i) && h in c.handles && item !in Evict(c, i).regions
    ensures SameService(c, Install(Evict(c, i), i, address, size, nla, item, was), h)
  {
    EvictSpares(c, i, h);
    hide Core;
    SurvivesAdd(Evict(c, i), i, address, size, nla, item, was, h);
    SameServiceChains(c, Evict(c, i), Install(Evict(c, i), i, address, size, nla, item, was), h);
  }

  lemma ServiceIgnoresStats(c: Cache, c': Cache, stats: Stats, h: Id)
    requires SameService(c, c', h)
    ensures SameService(c, c'.(stats := stats), h)
  {
  }

  lemma SurvivesRegister(c: Cache, address: nat, size: nat, nla: nat, item: Id, was: Region, h: Id)
    requires Core(c) && Known(c) && ItemFor(c, address, size, item) && h in c.handles
    ensures var c' := CacheModel.Register(c, address, size, nla, item, was).0;
      h in c'.handles && SameService(c, c', h)
  {
    RootKnown(c, h);
    assert Held(c, h);
    hide Core, Held, SameService;
    RegisterAnswers(c, address, size, nla, item, was);
    var stats := CacheModel.Register(c, address, size, nla, item, was).0.stats;
    match RouteOf(c, address, size)
    case Direct(i) => SurvivesHit(c, i, address, size, item, h);
    case Child(i) => SurvivesHit(c, i, address, size, item, h);
    case Fill(i) =>
      SurvivesAdd(c, i, address, size, nla, item, was, h);
      ServiceIgnoresStats(c, Install(c, i, address, size, nla, item, was), stats, h);
    case Replace(i) =>
      SurvivesReplace(c, i, address, size, nla, item, was, h);
      ServiceIgnoresStats(c, Install(Evict(c, i), i, address, size, nla, item, was), stats, h);
    case Uncached =>
      SurvivesAdd(c, 0, address, size, nla, item, was, h);
      ServiceIgnoresStats(c, RegisterUncached(c, address, size, nla, item, was), stats, h);
  }

  lemma SurvivesUnregister(c: Cache, g: Id, h: Id)
    requires Inv(c) && g in c.handles && g in c.regions && h in c.handles && (g == h ==> c.handles[h] > 1)
    ensures h in CacheModel.Unregister(c, g).handles && SameService(c, CacheModel.Unregister(c, g), h)
  {
    RootKnown(c, h);
    OnlyHandle(c, g);
    hide Linked, Counted, Pinned, Kept;
    SurvivesRelease(c, g, h);
  }

  lemma SurvivesRelease(c: Cache, g: Id, h: Id)
    requires Held(c, h) && g in c.regions && (g !in c.slots ==> g != h)
    requires c.regions[g].parent != null ==> g !in c.slots
    requires g !in c.slots ==> c.regions[h].parent != g
    ensures SameService(c, CacheModel.Unregister(c, g), h)
  {
  }

  /** A child and an uncached region have a single handle. */
  lemma OnlyHandle(c: Cache, g: Id)
    requires Core(c) && g in c.handles && g in c.regions
    ensures g !in c.slots ==> c.handles[g] == 1
    ensures c.regions[g].parent != null ==> g !in c.slots
    ensures g !in c.slots ==> forall h :: h in c.regions ==> c.regions[h].parent != g
  {
    forall h | h in c.regions ensures g !in c.slots ==> c.regions[h].parent != g {
      assert ParentOk(c.slots, c.regions, h);
    }
  }

  lemma SurvivesFreeSlot(c: Cache, i: nat, address: nat, length: nat, h: Id)
    requires Core(c) && Known(c) && Distinct(c.slots) && i < |c.slots| && h in c.handles
    ensures var c' := FreeSlot(c, i, address, length);
      c'.handles == c.handles && SameService(c, c', h)
  {
    hide Core, SameService;
    ServesItself(c, h);
    var stats := FreeSlot(c, i, address, length).stats;
    ServiceIgnoresStats(c, c, stats, h);
    if Spare(c, i) {
      EvictSpares(c, i, h);
      ServiceIgnoresStats(c, Evict(c, i), stats, h);
    }
  }

  lemma SameServiceChains(c: Cache, c1: Cache, c2: Cache, h: Id)
    requires SameService(c, c1, h) && SameService(c1, c2, h)
    ensures SameService(c, c2, h)
  {
  }

  lemma {:induction false} SurvivesFree(c: Cache, n: nat, address: nat, length: nat, h: Id)
    requires Inv(c) && Known(c) && Distinct(c.slots) && n <= |c.slots| && h in c.handles
    ensures FreeUpTo(c, n, address, length).handles == c.handles
    ensures SameService(c, FreeUpTo(c, n, address, length), h)
  {
    hide Core, Balanced, SameService, FreeSlot;
    if n == 0 {
      ServesItself(c, h);
    } else {
      var c1 := FreeUpTo(c, n - 1, address, length);
      SurvivesFree(c, n - 1, address, length, h);
      FreeUpToKeeps(c, n - 1, address, length);
      SurvivesFreeSlot(c1, n - 1, address, length, h);
      SameServiceChains(c, c1, FreeUpTo(c, n, address, length), h);
    }
  }

  lemma ServesItself(c: Cache, h: Id)
    requires Core(c) && h in c.handles
    ensures SameService(c, c, h)
  {
    RootKnown(c, h);
  }

  lemma SurvivesFreeCall(c: Cache, address: nat, length: nat, h: Id)
    requires Inv(c) && Known(c) && Distinct(c.slots) && h in c.handles
    ensures h in CacheModel.Free(c, address, length).handles
    ensures SameService(c, CacheModel.Free(c, address, length), h)
  {
    hide Inv;
    SurvivesFree(c, |c.slots|, address, length, h);
  }

  // ------------------------------------------------------------------- books

  ghost function Children(c: Cache): set<Id> {
    set id | id in c.regions && c.regions[id].parent != null
  }

  /** Whole registrations outside the cache. */
  ghost function UncachedIds(c: Cache): set<Id> {
    set id | id in c.regions && c.regions[id].parent == null && id !in c.slots
  }

  /**
   Every region item in use is exactly one of: cached, a child, uncached. A cached region's
   reference count is the number of its direct handles plus its children, a child's parent is
   cached and no child itself, and whatever a handle's return would decrement is positive.
   */
  lemma RefcountsAreExact(states: seq<Cache>, events: seq<Event>, k: nat)
    requires IsRun(states, events) && k < |states|
    ensures var c := states[k];
      && |c.regions| == |CachedIds(c.slots)| + |Children(c)| + |UncachedIds(c)|
      && (forall id: Id :: id in c.slots ==>
            id in c.regions && c.regions[id].refcount == c.handles[id] + |ChildrenOf(c.regions, id)|)
      && (forall id :: id in Children(c) ==> c.regions[id].parent in CachedIds(c.slots) - Children(c))
      && (forall h :: h in c.handles ==> h in c.regions && Root(c, h) in c.regions)
      && (forall h :: h in c.handles && Root(c, h) in c.slots ==> c.regions[Root(c, h)].refcount > 0)
  {
    RunKeepsInv(states, events, k);
    var c := states[k];
    ItemsSplit(c);
    forall id | id in Children(c) ensures c.regions[id].parent in CachedIds(c.slots) - Children(c) {
      assert ParentOk(c.slots, c.regions, id);
    }
    forall h | h in c.handles
      ensures h in c.regions && Root(c, h) in c.regions
      ensures Root(c, h) in c.slots ==> c.regions[Root(c, h)].refcount > 0
    {
      RootKnown(c, h);
    }
  }

  lemma ItemsSplit(c: Cache)
    requires Linked(c.slots, c.regions)
    ensures |c.regions| == |CachedIds(c.slots)| + |Children(c)| + |UncachedIds(c)|
  {
    assert c.regions.Keys == CachedIds(c.slots) + Children(c) + UncachedIds(c);
    assert CachedIds(c.slots) !! Children(c) !! UncachedIds(c);
  }

  /** The statistics add up after every call. */
  lemma BooksBalance(states: seq<Cache>, events: seq<Event>, k: nat)
    requires IsRun(states, events) && k < |states|
    ensures var c := states[k];
      && c.calls == c.stats.hits + c.stats.misses
      && c.stats.misses == c.stats.fill + c.stats.replace + c.stats.uncached
      && |CachedIds(c.slots)| == c.stats.fill - c.stats.free
  {
    RunKeepsInv(states, events, k);
  }

  // ------------------------------------------------------------ stale regions

  /** The event puts a new registration into the item `id`. */
  ghost predicate Installs(c: Cache, e: Event, id: Id) {
    e.Register? && e.item == id && Known(c)
    && (RouteOf(c, e.address, e.size).Fill? || RouteOf(c, e.address, e.size).Replace?)
  }

  lemma FreeIsNoted(c: Cache, address: nat, length: nat, id: Id)
    requires Inv(c) && Enabled(c, Free(address, length)) && id in Apply(c, Free(address, length)).slots
    ensures var c' := Apply(c, Free(address, length));
      id in c'.freedSince && (address, length) in c'.freedSince[id]
  {
    FreeUpToKeeps(c, |c.slots|, address, length);
    assert id in CachedIds(FreeUpTo(c, |c.slots|, address, length).slots);
  }

  lemma {:induction false} FreeKeepsNotes(c: Cache, n: nat, address: nat, length: nat)
    requires Known(c) && Distinct(c.slots) && n <= |c.slots|
    ensures var c' := FreeUpTo(c, n, address, length);
      forall id :: id in c'.freedSince ==> id in c.freedSince && c'.freedSince[id] == c.freedSince[id]
  {
    if n > 0 {
      FreeKeepsNotes(c, n - 1, address, length);
    }
  }

  lemma RegisterKeepsNotes(c: Cache, address: nat, size: nat, nla: nat, item: Id, was: Region, id: Id)
    requires Known(c) && id in c.freedSince
    requires !Installs(c, Register(address, size, nla, item, was), id)
    ensures var c' := CacheModel.Register(c, address, size, nla, item, was).0;
      id in c'.freedSince ==> c'.freedSince[id] == c.freedSince[id]
  {
  }

  /** A note stays for as long as the registration does. */
  lemma NotesStay(c: Cache, e: Event, id: Id, range: (nat, nat))
    requires Inv(c) && Enabled(c, e) && !Installs(c, e, id) && id in Apply(c, e).slots
    requires id in c.freedSince && range in c.freedSince[id]
    ensures id in Apply(c, e).freedSince && range in Apply(c, e).freedSince[id]
  {
    assert id in Apply(c, e).freedSince by {
      StepKeepsInv(c, e);
      assert id in CachedIds(Apply(c, e).slots);
    }
    hide Inv, Installs;
    match e
    case Register(address, size, nla, item, was) => RegisterKeepsNotes(c, address, size, nla, item, was, id);
    case Unregister(h) =>
    case Free(address, length) => FreeKeepsNotes(c, |c.slots|, address, length);
  }

  lemma {:induction false} NotesReach(states: seq<Cache>, events: seq<Event>, j: nat, k: nat, id: Id)
    requires IsRun(states, events) && j < k < |states| && events[j].Free?
    requires forall m :: j < m <= k ==> id in states[m].slots
    requires forall m :: j < m < k ==> !Installs(states[m], events[m], id)
    ensures id in states[k].freedSince && (events[j].address, events[j].length) in states[k].freedSince[id]
  {
    hide Installs, Inv, Apply, Enabled;
    RunKeepsInv(states, events, k - 1);
    assert states[k - 1 + 1] == Apply(states[k - 1], events[k - 1]);
    if k == j + 1 {
      FreeIsNoted(states[j], events[j].address, events[j].length, id);
    } else {
      NotesReach(states, events, j, k - 1, id);
      NotesStay(states[k - 1], events[k - 1], id, (events[j].address, events[j].length));
    }
  }

  /**
   If memory is freed at step j, a region that stays cached from then on, without being
   registered anew, shares no byte with it, unless the free handler's counter of
   regions it had to leave has moved.
   */
  lemma NoStaleRegion(states: seq<Cache>, events: seq<Event>, j: nat, k: nat, id: Id)
    requires IsRun(states, events) && j < k < |states| && events[j].Free?
    requires forall m :: j < m <= k ==> id in states[m].slots
    requires forall m :: j < m < k ==> !Installs(states[m], events[m], id)
    requires states[k].stats.freeNotFree == 0
    ensures id in states[k].regions && !Intersects(states[k].regions[id], events[j].address, events[j].length)
  {
    NotesReach(states, events, j, k, id);
    RunKeepsInv(states, events, k);
    var c := states[k];
    assert Clear(c.regions[id], c.freedSince[id]);
  }

  /**
   The 4 GB bound is real: in a cache of one slot, an 8 GB region at any page and then a hit
   4 GB into it give a child that translates to the start of the region instead.
   */
  lemma FarChildMistranslates(a: Id, b: Id, was: Region, base: nat, nla: nat)
      returns (states: seq<Cache>, events: seq<Event>)
    requires a != b && base > 0 && base % PAGE == 0
    ensures IsRun(states, events) && |states| == 3
    ensures events[1] == Register(base + WORD, 8, 0, b, was)
    ensures var c := states[2];
      && b in c.handles && b in c.regions
      && GetVa(c.regions[b], 0) == base && GetNla(c.regions[b], 0) == nla
  {
    var c0 := Empty(1);
    var e0 := Register(base, 2 * WORD, nla, a, was);
    var c1 := Apply(c0, e0);
    var e1 := Register(base + WORD, 8, 0, b, was);
    assert FirstHit(c0, base, 2 * WORD, 0) == 1;
    assert RouteOf(c0, base, 2 * WORD) == Fill(0);
    var r := c1.regions[a];
    assert r.start == base && r.end == base + 2 * WORD && r.offset == 0 && r.nla == nla;
    assert c1.slots == [a];
    assert Hits(c1, 0, base + WORD, 8);
    assert RouteOf(c1, base + WORD, 8) == Child(0);
    states, events := [c0, c1, Apply(c1, e1)], [e0, e1];
  }
}
