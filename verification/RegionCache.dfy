/**
 The registration cache in the imperative form of the library: an array of slots over
 region items from the endpoint's region pool, changed in place.
 */
module RegionCache {
  import opened PoolLists
  import opened Regions
  import opened CacheModel
  import opened CacheInvariant
  import CacheRuns
  import opened MachineWords

  lemma Overwrite<K, V>(m: map<K, V>, k: K, v: V, w: V)
    ensures m[k := v][k := w] == m[k := w]
  {
  }

  lemma Orderly(c: Cache)
    requires Inv(c)
    ensures Known(c) && Distinct(c.slots)
  {
  }

  /** A call that takes the cache from c to c' is an event of a run. */
  ghost predicate Steps(c: Cache, e: CacheRuns.Event, c': Cache) {
    CacheRuns.Enabled(c, e) && c' == CacheRuns.Apply(c, e)
  }

  lemma RegisterSteps(c: Cache, address: nat, size: nat, nla: nat, item: Id, was: Region)
    requires Inv(c) && Known(c) && ItemFor(c, address, size, item)
    ensures Steps(c, CacheRuns.Register(address, size, nla, item, was),
                  CacheModel.Register(c, address, size, nla, item, was).0)
  {
    Orderly(c);
  }

  lemma UnregisterSteps(c: Cache, h: Id)
    requires Inv(c) && h in c.handles && h in c.regions
    ensures Steps(c, CacheRuns.Unregister(h), CacheModel.Unregister(c, h))
  {
    Orderly(c);
  }

  class RegionCache {
    const slots: array<Node?<Region>>
    const regionQueue: PoolList<Region>
    var hits: nat
    var misses: nat
    var useChild: nat
    var fills: nat
    var replacements: nat
    var uncached: nat
    var frees: nat
    var freeNotFree: nat
    ghost var model: Cache

    ghost function Footprint(): set<object>
      reads this, regionQueue
    {
      {this, slots, regionQueue} + regionQueue.Cells() + set n | n in model.regions
    }

    /** The heap is what the model says it is. */
    ghost predicate Rep()
      reads Footprint()
    {
      && regionQueue.Valid() && regionQueue.freeIncrement > 0
      && regionQueue.out == model.regions.Keys
      && slots[..] == model.slots
      && (forall n :: n in model.regions ==> n.data == model.regions[n])
    }

    function Counters(): Stats
      reads this
    {
      Stats(hits, misses, useChild, fills, replacements, uncached, frees, freeNotFree)
    }

    ghost predicate Valid()
      reads Footprint()
    {
      Rep() && model.stats == Counters() && Inv(model)
    }

    /** Items are conserved: what the pool has handed out is what the cache accounts for. */
    lemma ItemsConserved()
      requires Valid()
      ensures regionQueue.out == model.regions.Keys
      ensures |regionQueue.out| ==
        |CachedIds(model.slots)| + |CacheRuns.Children(model)| + |CacheRuns.UncachedIds(model)|
      ensures var inUse := |CachedIds(model.slots)| + |CacheRuns.Children(model)| + |CacheRuns.UncachedIds(model)|;
        regionQueue.itemsAlloced == (|regionQueue.free| + |regionQueue.items| + inUse) % WORD
    {
      CacheRuns.ItemsSplit(model);
    }

    constructor (cacheCount: nat, regionQueue: PoolList<Region>)
      requires regionQueue.Valid() && regionQueue.freeIncrement > 0 && regionQueue.out == {}
      ensures Valid() && this.regionQueue == regionQueue && fresh(slots)
      ensures model == Empty(cacheCount) && CacheRuns.IsRun([model], [])
    {
      slots := new Node?<Region>[cacheCount](_ => null);
      this.regionQueue := regionQueue;
      hits, misses, useChild, fills, replacements, uncached, frees, freeNotFree := 0, 0, 0, 0, 0, 0, 0, 0;
      model := Empty(cacheCount);
      new;
      CacheRuns.RunStarts(cacheCount);
      assert CachedIds(model.slots) == {};
    }

    lemma InUse(region: Id)
      requires Rep() && region in model.regions
      ensures region.data == model.regions[region]
    {
    }

    /** Any store to the fields of a region in use. */
    method SetFields(region: Id, r: Region)
      requires Rep() && region in model.regions
      modifies `model, region`data
      ensures Rep() && model == old(model).(regions := old(model).regions[region := r])
    {
      region.data := r;
      model := model.(regions := model.regions[region := r]);
    }

    /** An item from the pool, with whatever it holds. */
    method TakeItem() returns (item: Id)
      requires Rep()
      modifies `model, regionQueue, regionQueue.Cells()`next, regionQueue.Cells()`prev
      ensures Rep() && item !in old(model.regions) && (fresh(item) || item in old(regionQueue.Cells()))
      ensures model == old(model).(regions := old(model).regions[item := item.data])
    {
      hide PoolList.Valid, PoolList.Cells;
      item := regionQueue.Take();
      assert forall n :: n in model.regions ==> n.data == model.regions[n];
      model := model.(regions := model.regions[item := item.data]);
    }

    /** A plain registration: an item from the pool, filled in, and a kernel registration at `nla`. */
    method RegisterPlain(address: nat, size: nat, nla: nat) returns (region: Id, ghost was: Region)
      requires Rep()
      modifies `model, regionQueue, regionQueue.Cells()
      ensures Rep() && region !in old(model.regions) && (fresh(region) || region in old(regionQueue.Cells()))
      ensures model == WithPin(old(model), region, Registered(was, address, size, nla))
      ensures Snug(region.data, address, size)
    {
      region := TakeItem();
      InUse(region);
      hide Rep, Registered, PoolList.Cells;
      was := region.data;
      Overwrite(old(model).regions, region, was, Registered(was, address, size, nla));
      SetFields(region, Registered(region.data, address, size, nla));
      InUse(region);
      RegisteredCovers(was, address, size, nla);
      NotePin(region, Pin(region.data.start, region.data.count, nla));
    }

    /** Bookkeeping of a kernel registration. */
    ghost method NotePin(region: Id, pin: Pin)
      requires Rep()
      modifies `model
      ensures Rep() && model == old(model).(kernel := old(model).kernel[region := pin])
    {
      hide PoolList.Valid;
      ghost var nodes: set<Id> := regionQueue.Cells();
      model := model.(kernel := model.kernel[region := pin]);
    }

    /** A plain unregistration: the kernel lets go and the item returns to the pool. */
    method UnregisterPlain(region: Id)
      requires Rep() && region in model.regions
      modifies `model, regionQueue, region`next, region`prev, regionQueue.Cells()`next, regionQueue.Cells()`prev
      ensures Rep() && regionQueue.Cells() == old(regionQueue.Cells()) + {region}
      ensures model == old(model).(regions := old(model).regions - {region}, kernel := old(model).kernel - {region})
    {
      hide PoolList.Valid, PoolList.Cells;
      regionQueue.Return(region);
      model := model.(regions := model.regions - {region}, kernel := model.kernel - {region});
    }

    /** Overwrites an item in use with a copy of another, its links included; the pool does not notice. */
    method CopyItem(item: Id, from: Id)
      requires Rep() && item in model.regions && from in model.regions
      modifies `model, item
      ensures Rep() && model == old(model).(regions := old(model).regions[item := old(model).regions[from]])
      ensures item.next == old(from.next) && item.prev == old(from.prev)
    {
      regionQueue.OutApart();
      var r := from.data;
      item.next, item.prev := from.next, from.prev;
      SetFields(item, r);
    }

    /** A child item: a copy of the parent item, with offset and parent replaced. */
    method MakeChild(current: Id, address: nat) returns (child: Id)
      requires Rep() && current in model.regions && model.regions[current].start <= address
      modifies `model, regionQueue, regionQueue.Cells()
      ensures Rep() && child !in old(model.regions)
      ensures model == old(model).(regions := old(model).regions[child :=
        ChildOf(old(model).regions[current], current, address)])
    {
      hide Rep, ChildOf;
      ghost var c := model;
      child := TakeItem();
      Overwrite(c.regions, child, child.data, c.regions[current]);
      CopyItem(child, current);
      InUse(child);
      assert child.data == c.regions[current];
      Overwrite(c.regions, child, child.data, ChildOf(child.data, current, address));
      SetFields(child, ChildOf(child.data, current, address));
    }

    /** The first search of a registration: the first slot that holds the range. */
    method FindHit(address: nat, size: nat) returns (i: nat)
      requires Rep() && Known(model)
      ensures Rep() && i == FirstHit(model, address, size, 0)
    {
      i := 0;
      while i < slots.Length
        invariant i <= slots.Length && FirstHit(model, address, size, 0) == FirstHit(model, address, size, i)
      {
        var current := slots[i];
        assert current == model.slots[i];
        if current != null && Contained(current.data, address, size) {
          return;
        }
        i := i + 1;
      }
    }

    method FindEmpty() returns (i: nat)
      requires Rep()
      ensures Rep() && i == FirstEmpty(model, 0)
    {
      i := 0;
      while i < slots.Length
        invariant i <= slots.Length && FirstEmpty(model, 0) == FirstEmpty(model, i)
      {
        assert slots[i] == model.slots[i];
        if slots[i] == null {
          return;
        }
        i := i + 1;
      }
    }

    /** The search for a region without users; there is no empty slot when it starts. */
    method FindSpare() returns (i: nat)
      requires Rep() && Known(model) && null !in model.slots
      ensures Rep() && i == FirstSpare(model, 0)
    {
      i := 0;
      while i < slots.Length
        invariant i <= slots.Length && FirstSpare(model, 0) == FirstSpare(model, i)
      {
        var current := slots[i];
        assert current == model.slots[i];
        if current.data.refcount == 0 {
          return;
        }
        i := i + 1;
      }
    }

    /** Bookkeeping of a call that ends: the handle is out, and the counters are noted. */
    ghost method NoteHandle(region: Id, address: nat, size: nat)
      requires Rep()
      modifies `model
      ensures Rep() && model == WithHandle(old(model), region, address, size).(stats := Counters())
    {
      hide PoolList.Valid;
      ghost var nodes: set<Id> := regionQueue.Cells();
      model := WithHandle(model, region, address, size).(stats := Counters());
    }

    method CountHit(child: bool)
      requires Rep()
      modifies `hits, `useChild
      ensures Rep() && hits == old(hits) + 1 && useChild == old(useChild) + (if child then 1 else 0)
    {
      hide PoolList.Valid;
      ghost var nodes: set<Id> := regionQueue.Cells();
      if child {
        useChild := useChild + 1;
      }
      hits := hits + 1;
    }

    /** A hit on the very address a region was registered for shares it. */
    method HitShared(i: nat, address: nat, size: nat) returns (region: Id)
      requires Rep() && model.stats == Counters() && Known(model)
      requires i < slots.Length && Hits(model, i, address, size)
      modifies `model, `hits, `useChild, model.regions.Keys
      ensures Rep() && model.stats == Counters()
      ensures region == old(model.slots[i]) && model == HitDirect(old(model), i, address, size)
    {
      region := slots[i];
      ghost var c := model;
      assert region == model.slots[i];
      InUse(region);
      hide Rep;
      SetFields(region, region.data.(refcount := region.data.refcount + 1));
      assert model == Retain(c, region, 1);
      CountHit(false);
      NoteHandle(region, address, size);
    }

    /** A child of a region, which counts it as a user. */
    method Branch(current: Id, address: nat) returns (child: Id)
      requires Rep() && current in model.regions && model.regions[current].start <= address
      modifies `model, regionQueue, regionQueue.Cells(), current
      ensures Rep() && child !in old(model.regions)
      ensures var c1 := Retain(old(model), current, 1);
        model == c1.(regions := c1.regions[child := ChildOf(c1.regions[current], current, address)])
    {
      InUse(current);
      hide Rep;
      ghost var c1 := Retain(model, current, 1);
      hide ChildOf;
      SetFields(current, current.data.(refcount := current.data.refcount + 1));
      assert model == c1;
      child := MakeChild(current, address);
    }

    /** Any other hit makes a child of the region. */
    method HitWithin(i: nat, address: nat, size: nat) returns (region: Id)
      requires Rep() && model.stats == Counters() && Known(model)
      requires i < slots.Length && Hits(model, i, address, size)
      modifies `model, `hits, `useChild, regionQueue, regionQueue.Cells(), model.regions.Keys
      ensures Rep() && model.stats == Counters()
      ensures region !in old(model.regions) && model == HitChild(old(model), i, address, size, region)
    {
      var current := slots[i];
      assert current == model.slots[i];
      ghost var c := model;
      hide Rep, Retain, ChildOf, HitChild, WithHandle, Known, PoolList.Cells;
      region := Branch(current, address);
      assert Counters() == c.stats;
      CountHit(true);
      assert Counters() == c.stats.(hits := c.stats.hits + 1, useChild := c.stats.useChild + 1);
      HitChildSteps(c, i, address, size, region, Counters());
      NoteHandle(region, address, size);
    }

    method SetSlot(i: nat, region: Node?<Region>)
      requires Rep() && i < slots.Length
      modifies slots, `model
      ensures Rep() && model == old(model).(slots := old(model).slots[i := region])
    {
      hide PoolList.Valid;
      ghost var nodes: set<Id> := regionQueue.Cells();
      slots[i] := region;
      model := model.(slots := model.slots[i := region]);
    }

    /** A registration into slot i, whatever the slot held. */
    method RegisterInto(i: nat, address: nat, size: nat, nla: nat) returns (region: Id, ghost was: Region)
      requires Rep() && i < slots.Length
      modifies `model, slots, regionQueue, regionQueue.Cells()
      ensures Rep() && region !in old(model.regions)
      ensures var c := old(model); var r := Registered(was, address, size, nla).(refcount := 1);
        model == WithPin(c, region, r).(slots := c.slots[i := region])
    {
      hide Rep;
      region, was := RegisterPlain(address, size, nla);
      SetSlot(i, region);
      InUse(region);
      SetFields(region, region.data.(refcount := 1));
    }

    /** Bookkeeping of a new cached registration, and of the call that made it. */
    ghost method NoteInstalled(region: Id, address: nat, size: nat)
      requires Rep()
      modifies `model
      ensures Rep()
      ensures var c := old(model).(freedSince := old(model).freedSince[region := {}]);
        model == WithHandle(c, region, address, size).(stats := Counters())
    {
      hide PoolList.Valid;
      ghost var nodes: set<Id> := regionQueue.Cells();
      model := WithHandle(model.(freedSince := model.freedSince[region := {}]), region, address, size)
        .(stats := Counters());
    }

    /** Bookkeeping of a cached registration that ends. */
    ghost method NoteEvicted(region: Id)
      requires Rep()
      modifies `model
      ensures Rep()
      ensures var c := old(model);
        model == c.(promised := c.promised - {region}, freedSince := c.freedSince - {region})
    {
      hide PoolList.Valid;
      ghost var nodes: set<Id> := regionQueue.Cells();
      model := model.(promised := model.promised - {region}, freedSince := model.freedSince - {region});
    }

    method CountMiss(fill: nat, replace: nat, direct: nat)
      requires Rep()
      modifies `fills, `replacements, `uncached
      ensures Rep() && fills == old(fills) + fill && replacements == old(replacements) + replace
      ensures uncached == old(uncached) + direct
    {
      hide PoolList.Valid;
      ghost var nodes: set<Id> := regionQueue.Cells();
      fills, replacements, uncached := fills + fill, replacements + replace, uncached + direct;
    }

    /** Registers into slot i; `c` is the cache with that slot empty. */
    method InstallAt(i: nat, address: nat, size: nat, nla: nat, replace: bool, ghost c: Cache)
      returns (region: Id, ghost was: Region)
      requires Rep() && i < slots.Length && SameButSlot(model, c, i)
      modifies `model, `fills, `replacements, `uncached, slots, regionQueue, regionQueue.Cells()
      ensures Rep() && region !in c.regions
      ensures Counters() == if replace then old(Counters()).(replace := old(replacements) + 1)
                            else old(Counters()).(fill := old(fills) + 1)
      ensures model == Install(c, i, address, size, nla, region, was).(stats := Counters())
    {
      ghost var b := model;
      hide Rep, Install, WithHandle, WithPin, Registered;
      region, was := RegisterInto(i, address, size, nla);
      if replace {
        CountMiss(0, 1, 0);
      } else {
        CountMiss(1, 0, 0);
      }
      NoteInstalled(region, address, size);
      InstallSteps(c, b, i, address, size, nla, region, was, Counters());
    }

    /** Unregisters the region of slot i; the slot itself is left for the next registration. */
    method EvictAt(i: nat)
      requires Rep() && i < slots.Length && model.slots[i] != null && model.slots[i] in model.regions
      modifies `model, regionQueue, regionQueue.Cells(), model.slots[i]
      ensures Rep() && Counters() == old(Counters()) && SameButSlot(model, Evict(old(model), i), i)
      ensures |model.slots| == slots.Length
      ensures regionQueue.Cells() == old(regionQueue.Cells()) + {old(model.slots[i])}
    {
      ghost var c := model;
      var current := slots[i];
      assert current == model.slots[i] && |model.slots| == slots.Length;
      EvictSteps(c, i);
      hide Rep, SameButSlot, Evict;
      UnregisterPlain(current);
      NoteEvicted(current);
    }

    /** A miss that finds an empty slot. */
    method FillSlot(i: nat, address: nat, size: nat, nla: nat) returns (region: Id, ghost was: Region)
      requires Rep() && i < slots.Length
      modifies `model, `fills, `replacements, `uncached, slots, regionQueue, regionQueue.Cells()
      ensures Rep() && region !in old(model.regions)
      ensures Counters() == old(Counters()).(fill := old(fills) + 1)
      ensures model == Install(old(model), i, address, size, nla, region, was).(stats := Counters())
    {
      assert |model.slots| == slots.Length;
      region, was := InstallAt(i, address, size, nla, false, model);
    }

    /** A miss that finds a region without users: it is unregistered first, and its item may come back at once. */
    method ReplaceSlot(i: nat, address: nat, size: nat, nla: nat) returns (region: Id, ghost was: Region)
      requires Rep() && i < slots.Length && model.slots[i] != null && model.slots[i] in model.regions
      modifies this, slots, regionQueue, regionQueue.Cells(), model.slots[i]
      ensures Rep() && region !in Evict(old(model), i).regions
      ensures Counters() == old(Counters()).(replace := old(replacements) + 1)
      ensures model == Install(Evict(old(model), i), i, address, size, nla, region, was).(stats := Counters())
    {
      ghost var c := model;
      assert |c.slots| == slots.Length;
      hide Rep, Install;
      EvictAt(i);
      region, was := InstallAt(i, address, size, nla, true, Evict(c, i));
    }

    /** A miss that finds every slot in use. */
    method RegisterOutside(address: nat, size: nat, nla: nat) returns (region: Id, ghost was: Region)
      requires Rep()
      modifies this, regionQueue, regionQueue.Cells()
      ensures Rep() && region !in old(model.regions)
      ensures Counters() == old(Counters()).(uncached := old(uncached) + 1)
      ensures model == RegisterUncached(old(model), address, size, nla, region, was).(stats := Counters())
    {
      hide Rep, WithHandle, WithPin, Registered;
      region, was := RegisterPlain(address, size, nla);
      CountMiss(0, 0, 1);
      NoteHandle(region, address, size);
    }

    method StartMiss()
      requires Rep()
      modifies `misses
      ensures Rep() && Counters() == old(Counters()).(misses := old(misses) + 1)
    {
      hide PoolList.Valid;
      ghost var nodes: set<Id> := regionQueue.Cells();
      misses := misses + 1;
    }

    /** A counted miss, served by the first empty slot. */
    method ServeByFill(i: nat, address: nat, size: nat, nla: nat) returns (region: Id, ghost was: Region)
      requires Rep() && Known(model) && Counters() == model.stats.(misses := model.stats.misses + 1)
      requires FirstHit(model, address, size, 0) == |model.slots| && i == FirstEmpty(model, 0) < |model.slots|
      modifies this, slots, regionQueue, regionQueue.Cells()
      ensures Rep() && model.stats == Counters() && ItemFor(old(model), address, size, region)
      ensures (model, region) == CacheModel.Register(old(model), address, size, nla, region, was)
    {
      ghost var c := model;
      assert |c.slots| == slots.Length;
      hide Rep, Install, CacheModel.Register, ItemFor, FirstHit, FirstEmpty, RouteOf, Known;
      region, was := FillSlot(i, address, size, nla);
      assert Counters() == c.stats.(misses := c.stats.misses + 1, fill := c.stats.fill + 1);
      FillRoute(c, i, address, size, nla, region, was);
    }

    /** A counted miss, served by the first region without users. */
    method ServeByReplace(i: nat, address: nat, size: nat, nla: nat) returns (region: Id, ghost was: Region)
      requires Rep() && Known(model) && Counters() == model.stats.(misses := model.stats.misses + 1)
      requires FirstHit(model, address, size, 0) == |model.slots| && FirstEmpty(model, 0) == |model.slots|
      requires i == FirstSpare(model, 0) < |model.slots|
      modifies this, slots, regionQueue, regionQueue.Cells(), model.regions.Keys
      ensures Rep() && model.stats == Counters() && ItemFor(old(model), address, size, region)
      ensures (model, region) == CacheModel.Register(old(model), address, size, nla, region, was)
    {
      ghost var c := model;
      assert |c.slots| == slots.Length;
      assert c.slots[i] != null && c.slots[i] in c.regions;
      hide Rep, Install, CacheModel.Register, ItemFor, FirstHit, FirstEmpty, FirstSpare, RouteOf, Known;
      region, was := ReplaceSlot(i, address, size, nla);
      assert Counters() == c.stats.(misses := c.stats.misses + 1, replace := c.stats.replace + 1);
      ReplaceRoute(c, i, address, size, nla, region, was);
    }

    /** A counted miss with every slot in use. */
    method ServeOutside(address: nat, size: nat, nla: nat) returns (region: Id, ghost was: Region)
      requires Rep() && Known(model) && Counters() == model.stats.(misses := model.stats.misses + 1)
      requires FirstHit(model, address, size, 0) == |model.slots| && FirstEmpty(model, 0) == |model.slots|
      requires FirstSpare(model, 0) == |model.slots|
      modifies this, regionQueue, regionQueue.Cells()
      ensures Rep() && model.stats == Counters() && ItemFor(old(model), address, size, region)
      ensures (model, region) == CacheModel.Register(old(model), address, size, nla, region, was)
    {
      ghost var c := model;
      hide Rep, RegisterUncached, CacheModel.Register, ItemFor;
      region, was := RegisterOutside(address, size, nla);
      assert Counters() == c.stats.(misses := c.stats.misses + 1, uncached := c.stats.uncached + 1);
      UncachedRoute(c, address, size, nla, region, was);
    }

    /** A miss: an empty slot, else a region without users, else a registration outside the cache. */
    method Miss(address: nat, size: nat, nla: nat) returns (region: Id, ghost was: Region)
      requires Rep() && Known(model) && model.stats == Counters()
      requires FirstHit(model, address, size, 0) == |model.slots|
      modifies this, slots, regionQueue, regionQueue.Cells(), model.regions.Keys
      ensures Rep() && model.stats == Counters() && ItemFor(old(model), address, size, region)
      ensures (model, region) == CacheModel.Register(old(model), address, size, nla, region, was)
    {
      assert |model.slots| == slots.Length;
      StartMiss();
      hide Rep, CacheModel.Register, ItemFor;
      var i := FindEmpty();
      if i < slots.Length {
        region, was := ServeByFill(i, address, size, nla);
        return;
      }
      i := FindSpare();
      if i < slots.Length {
        region, was := ServeByReplace(i, address, size, nla);
      } else {
        region, was := ServeOutside(address, size, nla);
      }
    }

    /**
     Registers a range. The heap changes as the model of the call says, so the handle,
     the counters and the invariant are those of CacheModel.Register.
     */
    method Register(address: nat, size: nat, nla: nat) returns (region: Id, ghost was: Region)
      requires Valid()
      modifies this, slots, regionQueue, regionQueue.Cells(), model.regions.Keys
      ensures Valid() && ItemFor(old(model), address, size, region)
      ensures (model, region) == CacheModel.Register(old(model), address, size, nla, region, was)
      ensures Steps(old(model), CacheRuns.Register(address, size, nla, region, was), model)
      ensures hits + misses == old(hits + misses) + 1
      ensures misses > old(misses) ==> Snug(region.data, address, size)
      ensures useChild == old(useChild) + if hits > old(hits) && region.data.parent != null then 1 else 0
    {
      ghost var c := model;
      Orderly(c);
      var i := FindHit(address, size);
      if i < slots.Length {
        region, was := Found(i, address, size);
        HitRoutes(c, address, size, nla, region, was);
      } else {
        region, was := Miss(address, size, nla);
      }
      hide Rep, Inv, CacheModel.Register, ItemFor, Steps;
      RegisterKeeps(c, address, size, nla, region, was);
      RegisterSteps(c, address, size, nla, region, was);
      Answers(c, address, size, nla, region, was);
    }

    /** What a call returns, and what it has counted. */
    lemma Answers(c: Cache, address: nat, size: nat, nla: nat, region: Id, was: Region)
      requires Rep() && Inv(c) && Known(c) && ItemFor(c, address, size, region)
      requires (model, region) == CacheModel.Register(c, address, size, nla, region, was)
      ensures var s, s' := c.stats, model.stats;
        && s'.hits + s'.misses == s.hits + s.misses + 1
        && (s'.misses > s.misses ==> Snug(region.data, address, size))
        && s'.useChild == s.useChild + if s'.hits > s.hits && region.data.parent != null then 1 else 0
    {
      var i := FirstHit(c, address, size, 0);
      if i < |c.slots| {
        CacheRuns.HitCounts(c, i, address, size, nla, region, was);
      } else {
        CacheRuns.MissCounts(c, address, size, nla, region, was);
        CacheRuns.MissIsTight(c, address, size, nla, region, was);
      }
      hide CacheModel.Register, ItemFor, Inv, FirstHit, Hits, Known, Snug;
      InUse(region);
    }

    /** The search has found slot i. */
    method Found(i: nat, address: nat, size: nat) returns (region: Id, ghost was: Region)
      requires Rep() && model.stats == Counters() && Known(model)
      requires i < slots.Length && Hits(model, i, address, size)
      modifies this, regionQueue, regionQueue.Cells(), model.regions.Keys
      ensures Rep() && model.stats == Counters()
      ensures var c := old(model); var p := c.slots[i];
        if c.regions[p].start + c.regions[p].offset == address
        then region == p && model == HitDirect(c, i, address, size)
        else region !in c.regions && model == HitChild(c, i, address, size, region)
    {
      var current := slots[i];
      assert current == model.slots[i];
      InUse(current);
      hide Rep, HitDirect, HitChild;
      was := current.data;
      if current.data.start + current.data.offset != address {
        region := HitWithin(i, address, size);
      } else {
        region := HitShared(i, address, size);
      }
    }

    /** Whether a region sits in some slot. */
    method IsCached(region: Id) returns (found: bool)
      requires Rep()
      ensures Rep() && (found <==> region in model.slots)
    {
      found := false;
      var i := 0;
      while i < slots.Length
        invariant i <= slots.Length && region !in slots[..i]
      {
        if slots[i] == region {
          assert region == model.slots[i];
          return true;
        }
        i := i + 1;
      }
      assert slots[..i] == model.slots;
    }

    /** Bookkeeping of a handle given back; `gone` if its item is no longer in use. */
    ghost method NoteReturned(h: Id, gone: bool)
      requires Rep()
      modifies `model
      ensures Rep()
      ensures var c := old(model).(handles := old(model).handles - multiset{h});
        model == if gone then c.(promised := c.promised - {h}) else c
    {
      hide PoolList.Valid;
      ghost var nodes: set<Id> := regionQueue.Cells();
      model := model.(handles := model.handles - multiset{h},
                      promised := if gone then model.promised - {h} else model.promised);
    }

    method ReturnItem(region: Id)
      requires Rep() && region in model.regions
      modifies `model, regionQueue, region`next, region`prev, regionQueue.Cells()`next, regionQueue.Cells()`prev
      ensures Rep() && model == old(model).(regions := old(model).regions - {region})
    {
      hide PoolList.Valid, PoolList.Cells;
      regionQueue.Return(region);
      model := model.(regions := model.regions - {region});
    }

    method ReleaseChild(region: Id, parent: Id)
      requires Rep() && region in model.regions && parent in model.regions && model.regions[region].parent == parent
      modifies `model, regionQueue, regionQueue.Cells(), region, parent
      ensures Rep() && model == CacheModel.Unregister(old(model), region)
    {
      ghost var c := model;
      InUse(parent);
      hide Rep;
      SetFields(parent, parent.data.(refcount := parent.data.refcount - 1));
      assert model == c.(regions := Recount(c.regions, parent, c.regions[parent].refcount - 1));
      ReturnItem(region);
      NoteReturned(region, true);
    }

    method ReleaseCached(region: Id)
      requires Rep() && region in model.regions && model.regions[region].parent == null && region in model.slots
      modifies `model, region
      ensures Rep() && model == CacheModel.Unregister(old(model), region)
    {
      ghost var c := model;
      InUse(region);
      hide Rep;
      SetFields(region, region.data.(refcount := region.data.refcount - 1));
      assert model == Retain(c, region, -1);
      NoteReturned(region, false);
    }

    method ReleasePlain(region: Id)
      requires Rep() && region in model.regions && model.regions[region].parent == null && region !in model.slots
      modifies `model, regionQueue, regionQueue.Cells(), region
      ensures Rep() && model == CacheModel.Unregister(old(model), region)
    {
      hide Rep;
      UnregisterPlain(region);
      NoteReturned(region, true);
    }

    /** Whichever of the three ways the handle was made, the heap follows the model. */
    method Release(region: Id)
      requires Rep() && region in model.regions
      requires var p := model.regions[region].parent; p == null || p in model.regions
      modifies `model, regionQueue, regionQueue.Cells(), model.regions.Keys
      ensures Rep() && model == CacheModel.Unregister(old(model), region)
    {
      InUse(region);
      hide Rep, CacheModel.Unregister;
      var parent := region.data.parent;
      if parent != null {
        ReleaseChild(region, parent);
        return;
      }
      var cached := IsCached(region);
      if cached {
        ReleaseCached(region);
      } else {
        ReleasePlain(region);
      }
    }

    /** Gives a handle back. The count that the library asserts not to fall below zero never does. */
    method Unregister(region: Id)
      requires Valid() && region in model.handles
      modifies this, regionQueue, regionQueue.Cells(), model.regions.Keys
      ensures Valid() && region in old(model.regions) && model == CacheModel.Unregister(old(model), region)
      ensures Steps(old(model), CacheRuns.Unregister(region), model)
      ensures region in old(model.slots) ==> region.data.refcount >= 0
    {
      ghost var c := model;
      HandleKnown(c, region);
      ParentKnown(c, region);
      UnregisterSteps(c, region);
      hide Rep, Inv, CacheModel.Unregister, Steps;
      Release(region);
      assert Counters() == c.stats;
      UnregisterKeeps(c, region);
      Settle(region);
    }

    lemma ParentKnown(c: Cache, region: Id)
      requires Inv(c) && region in c.handles && region in c.regions
      ensures var p := c.regions[region].parent; p == null || p in c.regions
    {
      if c.regions[region].parent != null {
        ChildAndParent(c, region);
      }
    }

    lemma Settle(region: Id)
      requires Rep() && Inv(model)
      ensures region in model.slots ==> region.data.refcount >= 0
    {
    }

    /** Bookkeeping of a counter that moved. */
    ghost method NoteCounters()
      requires Rep()
      modifies `model
      ensures Rep() && model == old(model).(stats := Counters())
    {
      hide PoolList.Valid;
      ghost var nodes: set<Id> := regionQueue.Cells();
      model := model.(stats := Counters());
    }

    method CountFree(inUse: bool)
      requires Rep()
      modifies `frees, `freeNotFree
      ensures Rep() && frees == old(frees) + (if inUse then 0 else 1)
      ensures freeNotFree == old(freeNotFree) + (if inUse then 1 else 0)
    {
      hide PoolList.Valid;
      ghost var nodes: set<Id> := regionQueue.Cells();
      if inUse {
        freeNotFree := freeNotFree + 1;
      } else {
        frees := frees + 1;
      }
    }

    /** Unregisters the region of slot i and clears the slot. */
    method DropAt(i: nat)
      requires Rep() && i < slots.Length && model.slots[i] != null && model.slots[i] in model.regions
      modifies `model, slots, regionQueue, regionQueue.Cells(), model.slots[i]
      ensures Rep() && Counters() == old(Counters()) && model == Evict(old(model), i)
      ensures regionQueue.Cells() == old(regionQueue.Cells()) + {old(model.slots[i])}
    {
      ghost var c := model;
      assert |c.slots| == slots.Length;
      hide Rep, Evict, SameButSlot;
      EvictAt(i);
      EvictDone(c, model, i);
      SetSlot(i, null);
    }

    /** A region that overlaps a freed range and has no user is dropped, and counted. */
    method FreeUnused(i: nat)
      requires Rep() && model.stats == Counters()
      requires i < slots.Length && model.slots[i] != null && model.slots[i] in model.regions
      modifies this, slots, regionQueue, regionQueue.Cells(), model.slots[i]
      ensures Rep() && model.stats == Counters()
      ensures var s := old(model.stats); model == Evict(old(model), i).(stats := s.(free := s.free + 1))
      ensures regionQueue.Cells() == old(regionQueue.Cells()) + {old(model.slots[i])}
    {
      ghost var s := model.stats;
      hide Rep, Evict;
      DropAt(i);
      assert Counters() == s;
      CountFree(false);
      assert Counters() == s.(free := s.free + 1);
      NoteCounters();
    }

    /** One that is in use stays, and is counted. */
    method LeaveUsed()
      requires Rep() && model.stats == Counters()
      modifies `model, `frees, `freeNotFree
      ensures Rep() && model.stats == Counters()
      ensures var c := old(model); model == c.(stats := c.stats.(freeNotFree := c.stats.freeNotFree + 1))
    {
      hide Rep;
      CountFree(true);
      NoteCounters();
    }

    /** What the free handler does at slot i. */
    method FreeAt(i: nat, address: nat, length: nat)
      requires Rep() && Known(model) && Distinct(model.slots) && model.stats == Counters() && i < slots.Length
      modifies this, slots, regionQueue, regionQueue.Cells(), model.regions.Keys
      ensures Rep() && model.stats == Counters() && model == FreeSlot(old(model), i, address, length)
      ensures regionQueue.Cells() <= old(regionQueue.Cells() + model.regions.Keys)
      ensures model.regions.Keys <= old(model.regions.Keys)
    {
      var current := slots[i];
      assert current == model.slots[i];
      if current != null {
        InUse(current);
        hide Rep, Counters, Overlap;
        if Overlap(current.data, address, length) {
          if current.data.refcount == 0 {
            if current.data.endpoint {
              FreeUnused(i);
            }
          } else {
            LeaveUsed();
          }
        }
      }
    }

    /** The free handler's loop over the slots. */
    method FreeSlots(address: nat, length: nat)
      requires Rep() && Known(model) && Distinct(model.slots) && model.stats == Counters()
      modifies this, slots, regionQueue, regionQueue.Cells(), model.regions.Keys
      ensures Rep() && model.stats == Counters() && slots.Length == |old(model.slots)|
      ensures model == FreeUpTo(old(model), slots.Length, address, length)
    {
      ghost var c := model;
      ghost var reach: set<object> := regionQueue.Cells() + model.regions.Keys;
      assert |c.slots| == slots.Length;
      hide Rep, FreeSlot, Known, Distinct, Counters;
      var i := 0;
      while i < slots.Length
        invariant Rep() && model.stats == Counters() && i <= slots.Length
        invariant model == FreeUpTo(c, i, address, length)
        invariant regionQueue.Cells() <= reach && model.regions.Keys <= reach
      {
        FreeAt(i, address, length);
        i := i + 1;
      }
    }

    /** A free of [address, address + length), seen by every slot in turn. */
    method FreeHandler(address: nat, length: nat)
      requires Valid()
      modifies this, slots, regionQueue, regionQueue.Cells(), model.regions.Keys
      ensures Valid() && model == Free(old(model), address, length)
      ensures Steps(old(model), CacheRuns.Free(address, length), model)
    {
      ghost var c := model;
      hide Rep, Inv, Known, Distinct, FreeUpTo;
      Orderly(c);
      FreeSlots(address, length);
      NoteFreed(address, length);
      FreeKeeps(c, address, length);
    }

    /** Bookkeeping of a freed range, held against every cached region. */
    ghost method NoteFreed(address: nat, length: nat)
      requires Rep()
      modifies `model
      ensures Rep()
      ensures var c := old(model);
        model == c.(freedSince := map id | id in c.freedSince :: c.freedSince[id] + {(address, length)})
    {
      hide PoolList.Valid;
      ghost var nodes: set<Id> := regionQueue.Cells();
      model := model.(freedSince := map id | id in model.freedSince :: model.freedSince[id] + {(address, length)});
    }
  }
}
