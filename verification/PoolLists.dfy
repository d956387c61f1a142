/**
 The intrusive pool allocator: circular doubly linked rings through list heads that
 the items themselves carry. One ring holds the free items, one the listed items;
 nothing is said about the links of items that are handed out.
 */
module PoolLists {
  import opened MachineWords

  /** Counting in wrapped arithmetic agrees with wrapping the true count. */
  lemma Wraps(n: nat, k: int)
    requires n + k >= 0
    ensures (n % WORD + k) % WORD == (n + k) % WORD
  {
  }

  /** An item: its embedded list head and what follows it in memory. */
  class Node<T(0)> {
    var next: Node?<T>
    var prev: Node?<T>
    var data: T
  }

  /** Following `next` from the head visits exactly `s` and returns; `prev` does so backwards. */
  ghost predicate Ring<T(0)>(head: Node<T>, s: seq<Node<T>>)
    reads {head} + set n | n in s
  {
    && head !in s
    && (forall i, j :: 0 <= i < j < |s| ==> s[i] != s[j])
    && head.next == (if s == [] then head else s[0])
    && head.prev == (if s == [] then head else s[|s| - 1])
    && (forall i {:trigger s[i].next} :: 0 <= i < |s| ==> s[i].next == if i + 1 < |s| then s[i + 1] else head)
    && (forall i {:trigger s[i].prev} :: 0 <= i < |s| ==> s[i].prev == if i > 0 then s[i - 1] else head)
  }

  /** The links determine the sequence: a head belongs to at most one ring. */
  lemma {:induction false} RingUnique<T(0)>(head: Node<T>, s: seq<Node<T>>, t: seq<Node<T>>)
    requires Ring(head, s) && Ring(head, t)
    ensures s == t
  {
    if |s| <= |t| {
      RingPrefix(head, s, t, |s|);
    } else {
      RingPrefix(head, t, s, |t|);
    }
  }

  lemma {:induction false} RingPrefix<T(0)>(head: Node<T>, s: seq<Node<T>>, t: seq<Node<T>>, k: nat)
    requires Ring(head, s) && Ring(head, t) && k <= |s| <= |t|
    ensures s[..k] == t[..k]
    ensures k == |s| ==> |t| == |s|
  {
    if k > 0 {
      RingPrefix(head, s, t, k - 1);
      if k > 1 {
        assert s[k - 2] == s[..k - 1][k - 2] == t[..k - 1][k - 2] == t[k - 2];
        assert s[k - 2].next == s[k - 1] && t[k - 2].next == t[k - 1];
      }
    }
  }

  method PushBack<T(0)>(head: Node<T>, item: Node<T>, ghost s: seq<Node<T>>)
    requires Ring(head, s) && item != head && item !in s
    modifies head`next, head`prev, item`next, item`prev, (set n | n in s)`next, (set n | n in s)`prev
    ensures Ring(head, s + [item])
  {
    item.next := head;
    item.prev := head.prev;
    head.prev.next := item;
    head.prev := item;
  }

  method PopFront<T(0)>(head: Node<T>, ghost s: seq<Node<T>>) returns (item: Node<T>)
    requires Ring(head, s)
    modifies head`next, head`prev, (set n | n in s)`next, (set n | n in s)`prev
    ensures s != [] ==> item == s[0] && Ring(head, s[1..]) && item !in s[1..]
    ensures s == [] ==> item == head && Ring(head, [])
    ensures item.next == item && item.prev == item
  {
    item := head.next;
    head.next := item.next;
    head.next.prev := item.prev;
    item.next := item;
    item.prev := item;
  }

  /** Takes element k out of the ring; its own links still lead back into the ring. */
  method Unlink<T(0)>(head: Node<T>, item: Node<T>, ghost s: seq<Node<T>>, ghost k: nat)
    requires Ring(head, s) && k < |s| && item == s[k]
    modifies head`next, head`prev, (set n | n in s)`next, (set n | n in s)`prev
    ensures Ring(head, s[..k] + s[k + 1..]) && item !in s[..k] + s[k + 1..]
    ensures item.next == old(item.next) && item.prev == old(item.prev)
  {
    item.next.prev := item.prev;
    item.prev.next := item.next;
  }

  /** Unlinks an item and poisons its links. */
  method Delete<T(0)>(head: Node<T>, item: Node<T>, ghost s: seq<Node<T>>, ghost k: nat)
    requires Ring(head, s) && k < |s| && item == s[k]
    modifies head`next, head`prev, (set n | n in s)`next, (set n | n in s)`prev
    ensures Ring(head, s[..k] + s[k + 1..]) && item !in s[..k] + s[k + 1..]
    ensures item.next == null && item.prev == null
  {
    Unlink(head, item, s, k);
    item.next := null;
    item.prev := null;
  }

  /** The three heads, the two lists and the handed-out items are pairwise different nodes. */
  ghost predicate Apart<T(0)>(pool: Node<T>, freeHead: Node<T>, listHead: Node<T>,
                              free: seq<Node<T>>, items: seq<Node<T>>, out: set<Node<T>>)
  {
    && pool != freeHead && pool != listHead && freeHead != listHead
    && pool !in free && pool !in items && pool !in out
    && freeHead !in free && freeHead !in items && freeHead !in out
    && listHead !in free && listHead !in items && listHead !in out
    && (forall n {:trigger n in free} :: n in free ==> n !in items && n !in out)
    && (forall n {:trigger n in items} :: n in items ==> n !in out)
  }

  lemma InSlice<T>(s: seq<T>, lo: nat, hi: nat)
    requires lo <= hi <= |s|
    ensures forall n :: n in s[lo..hi] ==> n in s
    ensures forall i :: 0 <= i < |s| ==> s[i] in s
  {
  }

  lemma ApartPush<T(0)>(pool: Node<T>, freeHead: Node<T>, listHead: Node<T>,
                        free: seq<Node<T>>, items: seq<Node<T>>, out: set<Node<T>>, item: Node<T>)
    requires Apart(pool, freeHead, listHead, free, items, out)
    requires item != pool && item != freeHead && item != listHead && item !in free && item !in items
    ensures Apart(pool, freeHead, listHead, free + [item], items, out - {item})
    ensures Apart(pool, freeHead, listHead, free, items + [item], out - {item})
  {
  }

  lemma ApartTake<T(0)>(pool: Node<T>, freeHead: Node<T>, listHead: Node<T>,
                        free: seq<Node<T>>, items: seq<Node<T>>, out: set<Node<T>>)
    requires Apart(pool, freeHead, listHead, free, items, out) && free != [] && free[0] !in free[1..]
    ensures Apart(pool, freeHead, listHead, free[1..], items, out + {free[0]})
  {
    InSlice(free, 1, |free|);
  }

  lemma ApartRemove<T(0)>(pool: Node<T>, freeHead: Node<T>, listHead: Node<T>,
                          free: seq<Node<T>>, items: seq<Node<T>>, out: set<Node<T>>, k: nat)
    requires Apart(pool, freeHead, listHead, free, items, out) && k < |items|
    requires items[k] !in items[..k] + items[k + 1..]
    ensures Apart(pool, freeHead, listHead, free, items[..k] + items[k + 1..], out + {items[k]})
  {
    InSlice(items, 0, k);
    InSlice(items, k + 1, |items|);
  }

  // ------------------------------------------------------- bytes of one pool

  /** The block that is allocated for a pool: the product is cut to 32 bits. */
  function BlockSize(itemSize: Word32, numItems: Word32): (b: nat)
    ensures b < WORD
  {
    numItems * itemSize % WORD
  }

  /** Where item i is placed in its block, in the same arithmetic. */
  function ItemOffset(itemSize: Word32, i: nat): nat {
    i * itemSize % WORD
  }

  predicate Fits(itemSize: Word32, numItems: Word32, i: nat) {
    ItemOffset(itemSize, i) + itemSize <= BlockSize(itemSize, numItems)
  }

  lemma Scale(a: nat, b: nat, c: nat)
    ensures a <= b ==> a * c <= b * c
    ensures a < b ==> a * c + c <= b * c
  {
    var d := b - a;
    assert b * c == a * c + d * c && d * c == (d - 1) * c + c;
  }

  /** All items of a pool lie in its block if and only if the product of count and size fits 32 bits. */
  lemma PoolFits(itemSize: Word32, numItems: Word32)
    ensures (forall i :: 0 <= i < numItems ==> Fits(itemSize, numItems, i)) <==> numItems * itemSize < WORD
  {
    if numItems * itemSize < WORD {
      forall i | 0 <= i < numItems ensures Fits(itemSize, numItems, i) {
        FitsBelow(itemSize, numItems, i);
      }
    } else {
      var i := Overhang(itemSize, numItems);
    }
  }

  lemma FitsBelow(itemSize: Word32, numItems: Word32, i: nat)
    requires numItems * itemSize < WORD && i < numItems
    ensures Fits(itemSize, numItems, i) && ItemOffset(itemSize, i) == i * itemSize
  {
    Scale(i, numItems, itemSize);
    Remainder(i * itemSize, WORD, 0, i * itemSize);
    Remainder(numItems * itemSize, WORD, 0, numItems * itemSize);
  }

  lemma FirstPast(b: nat, s: nat, n: nat) returns (q: nat)
    requires s > 0 && b < n * s
    ensures q < n && q * s <= b < q * s + s
  {
    q := b / s;
    Scale(n, q, s);
  }

  /** The first item that does not fit. */
  lemma Overhang(itemSize: Word32, numItems: Word32) returns (i: nat)
    requires numItems * itemSize >= WORD
    ensures i < numItems && !Fits(itemSize, numItems, i)
  {
    var b := BlockSize(itemSize, numItems);
    i := FirstPast(b, itemSize, numItems);
    Remainder(i * itemSize, WORD, 0, i * itemSize);
    hide BlockSize;
  }

  /** And then they share no byte. */
  lemma ItemsApart(itemSize: Word32, numItems: Word32, i: nat, j: nat)
    requires numItems * itemSize < WORD && i < j < numItems
    ensures ItemOffset(itemSize, i) + itemSize <= ItemOffset(itemSize, j)
  {
    Scale(i, j, itemSize);
    FitsBelow(itemSize, numItems, i);
    FitsBelow(itemSize, numItems, j);
  }

  class PoolList<T(0)> {
    const itemSize: nat
    const freeIncrement: Word32
    var numItems: Word32
    var numFreeItems: Word32
    var itemsAlloced: Word32
    const poolHead: Node<T>
    const freeHead: Node<T>
    const listHead: Node<T>

    ghost var free: seq<Node<T>>   // the free list, front to back
    ghost var items: seq<Node<T>>  // the item list, front to back
    ghost var out: set<Node<T>>    // handed out and on no list

    ghost function FreeCells(): set<Node<T>>
      reads this
    {
      {freeHead} + set n | n in free
    }

    ghost function ListCells(): set<Node<T>>
      reads this
    {
      {listHead} + set n | n in items
    }

    ghost function Cells(): set<Node<T>>
      reads this
    {
      {poolHead} + FreeCells() + ListCells()
    }

    /** Both rings are well formed and share no node with each other or with what is handed out. */
    ghost predicate Shape()
      reads this, Cells()
    {
      && Apart(poolHead, freeHead, listHead, free, items, out)
      && Ring(freeHead, free) && Ring(listHead, items)
      && poolHead.next == poolHead
    }

    /** The 32-bit counters, against the true sizes. */
    ghost predicate Counted()
      reads this
    {
      && numItems == |items| % WORD
      && numFreeItems == |free| % WORD
      && itemsAlloced == (|free| + |items| + |out|) % WORD
    }

    ghost predicate Valid()
      reads this, Cells()
    {
      Shape() && Counted()
    }

    /** The management structure with three empty rings; the free counter is still uninitialised. */
    constructor (itemSize: nat, freeIncrement: Word32)
      ensures Shape() && fresh(Cells())
      ensures this.itemSize == itemSize && this.freeIncrement == freeIncrement
      ensures free == [] && items == [] && out == {} && numItems == itemsAlloced == 0
    {
      this.itemSize, this.freeIncrement := itemSize, freeIncrement;
      numItems, itemsAlloced := 0, 0;
      numFreeItems := *;
      var p, f, l := new Node<T>, new Node<T>, new Node<T>;
      p.next, p.prev := p, p;
      f.next, f.prev := f, f;
      l.next, l.prev := l, l;
      poolHead, freeHead, listHead := p, f, l;
      free, items, out := [], [], {};
    }

    static method Construct(itemSize: nat, initialPoolSize: Word32, freeIncrement: Word32)
      returns (list: PoolList<T>)
      ensures fresh(list) && fresh(list.Cells()) && list.Valid()
      ensures list.itemSize == itemSize && list.freeIncrement == freeIncrement
      ensures |list.free| == initialPoolSize && list.items == [] && list.out == {}
    {
      list := new PoolList<T>(itemSize, freeIncrement);
      var _ := list.AllocPool(initialPoolSize);
      list.numFreeItems := initialPoolSize;
    }

    /**
     Extends the free list by new items, which belong to no earlier pool. The new
     pool's own list head is not reachable from `poolHead` by `next` afterwards.
     */
    method AllocPool(numItems: Word32) returns (ghost slice: seq<Node<T>>)
      requires Shape()
      modifies `free, `out, `numFreeItems, `itemsAlloced, poolHead`next, poolHead`prev
      modifies FreeCells()`next, FreeCells()`prev
      ensures Shape() && fresh(slice) && |slice| == numItems
      ensures free == old(free) + slice && items == old(items) && out == old(out)
      ensures numFreeItems == (old(numFreeItems) + numItems) % WORD
      ensures itemsAlloced == (old(itemsAlloced) + numItems) % WORD
      ensures poolHead.prev != null && fresh(poolHead.prev)
      ensures poolHead.prev.next == poolHead.prev.prev == poolHead
    {
      LinkPool();
      slice := Grow(numItems);
      itemsAlloced := (itemsAlloced + numItems) % WORD;
    }

    /** Links a new pool's list head, as far as it is linked at all: only `poolHead.prev` leads to it. */
    method LinkPool()
      requires Shape()
      modifies poolHead`next, poolHead`prev
      ensures Shape()
      ensures poolHead.prev != null && fresh(poolHead.prev)
      ensures poolHead.prev.next == poolHead.prev.prev == poolHead
    {
      var pool := new Node<T>;
      poolHead.prev := pool;
      poolHead.prev.next := pool;
      pool.next := poolHead;
      pool.prev := poolHead;
    }

    /** Puts new items on the free list, one after the other. */
    method Grow(numItems: Word32) returns (ghost slice: seq<Node<T>>)
      requires Shape()
      modifies `free, `out, `numFreeItems, FreeCells()`next, FreeCells()`prev
      ensures Shape() && fresh(slice) && |slice| == numItems
      ensures free == old(free) + slice && items == old(items) && out == old(out)
      ensures numFreeItems == (old(numFreeItems) + numItems) % WORD
    {
      hide Ring, Apart;
      slice := [];
      var i := 0;
      while i < numItems
        invariant i <= numItems && |slice| == i && fresh(slice)
        invariant Shape()
        invariant free == old(free) + slice && items == old(items) && out == old(out)
        invariant numFreeItems == (old(numFreeItems) + i) % WORD
      {
        var item := new Node<T>;
        Wraps(old(numFreeItems) + i, 1);
        FreeItem(item);
        slice := slice + [item];
        i := i + 1;
      }
    }

    /** The pointer test for an empty free list. */
    lemma PointerTest()
      requires Shape()
      ensures freeHead.next == freeHead <==> free == []
    {
    }

    lemma OutApart()
      requires Shape()
      ensures out !! Cells() && forall n :: n in free ==> n !in items
    {
    }

    /** Puts an unlinked item at the back of the free list. */
    method FreeItem(item: Node<T>)
      requires Shape() && item !in Cells()
      modifies `free, `out, `numFreeItems, item`next, item`prev, FreeCells()`next, FreeCells()`prev
      ensures Shape()
      ensures free == old(free) + [item] && items == old(items) && out == old(out) - {item}
      ensures numFreeItems == (old(numFreeItems) + 1) % WORD
      ensures old(Counted()) && item in old(out) ==> Counted()
    {
      hide Ring, Apart;
      ApartPush(poolHead, freeHead, listHead, free, items, out, item);
      PushBack(freeHead, item, free);
      numFreeItems := (numFreeItems + 1) % WORD;
      free := free + [item];
      out := out - {item};
    }

    /** Unlinks the front of the free list; an empty list yields its own head and a wrapped counter. */
    method TakeFront() returns (item: Node<T>)
      requires Valid()
      modifies `free, `out, `numFreeItems, FreeCells()`next, FreeCells()`prev
      ensures Shape() && items == old(items) && item.next == item && item.prev == item
      ensures old(free) != [] ==>
        Valid() && item == old(free[0]) && free == old(free)[1..] && out == old(out) + {item}
      ensures old(free) == [] ==>
        item == freeHead && numFreeItems == WORD - 1 && free == [] && out == old(out)
    {
      hide Ring;
      assert free != [] ==> free[0] in free;
      item := PopFront(freeHead, free);
      numFreeItems := (numFreeItems - 1) % WORD;
      if free != [] {
        Wraps(|free|, -1);
        ApartTake(poolHead, freeHead, listHead, free, items, out);
        free := free[1..];
        out := out + {item};
      }
    }

    /**
     Takes the front of the free list, after extending it if it is empty. The pool stays
     valid exactly when there was a free item or an extension brings some; otherwise the
     caller is given the list head itself.
     */
    method NewItem() returns (item: Node<T>)
      requires Valid()
      modifies `free, `out, `numFreeItems, `itemsAlloced, poolHead`next, poolHead`prev
      modifies FreeCells()`next, FreeCells()`prev
      ensures Shape() && items == old(items) && item.next == item && item.prev == item
      ensures old(free) != [] ==> Valid() && item == old(free[0]) && free == old(free)[1..]
      ensures old(free) == [] && freeIncrement > 0 ==>
        Valid() && fresh(item) && fresh(free) && |free| == freeIncrement - 1
      ensures old(free) != [] || freeIncrement > 0 ==>
        item !in old(out) && item !in items && out == old(out) + {item}
      ensures old(free) == [] && freeIncrement == 0 ==> !Counted() && item == freeHead && out == old(out)
    {
      if freeHead.next == freeHead {
        var _ := AllocPool(freeIncrement);
        assert Counted();
      }
      assert free != [] ==> free[0] in free;
      item := TakeFront();
    }

    /** NewItem where it is sure to succeed, in a form that does not show the lists. */
    method Take() returns (item: Node<T>)
      requires Valid() && freeIncrement > 0
      modifies this, Cells()`next, Cells()`prev
      ensures Valid() && item !in Cells() && (fresh(item) || item in old(Cells()))
      ensures item !in old(out) && out == old(out) + {item} && items == old(items)
    {
      assert free != [] ==> free[0] in Cells();
      item := NewItem();
      OutApart();
    }

    /** FreeItem for a handed-out item, in a form that does not show the lists. */
    method Return(item: Node<T>)
      requires Valid() && item in out
      modifies this, item`next, item`prev, Cells()`next, Cells()`prev
      ensures Valid() && item in Cells() && Cells() == old(Cells()) + {item}
      ensures out == old(out) - {item} && items == old(items)
    {
      OutApart();
      FreeItem(item);
    }

    /** Puts a handed-out item at the back of the item list. */
    method Append(item: Node<T>)
      requires Valid() && item in out
      modifies `items, `out, `numItems, item`next, item`prev, ListCells()`next, ListCells()`prev
      ensures Valid()
      ensures items == old(items) + [item] && free == old(free) && out == old(out) - {item}
    {
      assert item !in Cells();
      hide Ring, Apart;
      Wraps(|items|, 1);
      ApartPush(poolHead, freeHead, listHead, free, items, out, item);
      numItems := (numItems + 1) % WORD;
      PushBack(listHead, item, items);
      items := items + [item];
      out := out - {item};
    }

    /** Deletes exactly one item from the item list; its links are poisoned. */
    method Remove(item: Node<T>, ghost k: nat)
      requires Valid() && k < |items| && item == items[k]
      modifies `items, `out, `numItems, ListCells()`next, ListCells()`prev
      ensures Valid()
      ensures items == old(items)[..k] + old(items)[k + 1..] && free == old(free) && out == old(out) + {item}
      ensures item.next == null && item.prev == null
    {
      hide Ring;
      assert items[k] in items;
      Wraps(|items|, -1);
      numItems := (numItems - 1) % WORD;
      Delete(listHead, item, items, k);
      ApartRemove(poolHead, freeHead, listHead, free, items, out, k);
      items := items[..k] + items[k + 1..];
      out := out + {item};
    }

    /** The test by counter, which is the test by pointer for every list that fits 32 bits. */
    method IsEmpty() returns (empty: bool)
      requires Valid()
      ensures empty <==> |items| % WORD == 0
      ensures |items| < WORD ==> (empty <==> listHead.next == listHead)
    {
      empty := numItems == 0;
    }

    method First() returns (item: Node<T>)
      requires Valid()
      ensures item == if items == [] then listHead else items[0]
    {
      item := listHead.next;
    }

    method Last() returns (item: Node<T>)
      requires Valid()
      ensures item == if items == [] then listHead else items[|items| - 1]
    {
      item := listHead.prev;
    }

    /** The successor of an item, which is the list head after the last one. */
    method GetNext(item: Node<T>, ghost k: nat) returns (next: Node<T>)
      requires Valid() && k < |items| && item == items[k]
      ensures next == if k + 1 < |items| then items[k + 1] else listHead
    {
      next := item.next;
    }

    /** Empties both rings. No pool is found, since none was ever linked forward. */
    method Destruct() returns (poolFound: bool)
      requires Valid()
      modifies FreeCells()`next, FreeCells()`prev, ListCells()`next, ListCells()`prev
      ensures Ring(freeHead, []) && Ring(listHead, [])
      ensures !poolFound
    {
      UnlinkAll(freeHead, free);
      UnlinkAll(listHead, items);
      poolFound := poolHead.next != poolHead;
    }
  }

  /** Unlinks from the front; an unlinked item's own `next` still leads on. */
  method UnlinkAll<T(0)>(head: Node<T>, ghost s: seq<Node<T>>)
    requires Ring(head, s)
    modifies head`next, head`prev, (set n | n in s)`next, (set n | n in s)`prev
    ensures Ring(head, [])
  {
    var itemp := head.next;
    var temp := itemp.next;
    ghost var rest := s;
    while itemp != head
      invariant Ring(head, rest) && (forall n :: n in rest ==> n in s)
      invariant itemp == (if rest == [] then head else rest[0]) && temp == itemp.next
      decreases |rest|
    {
      InSlice(rest, 1, |rest|);
      assert rest[0].next == if 1 < |rest| then rest[1] else head;
      assert rest[..0] + rest[1..] == rest[1..];
      hide Ring;
      Unlink(head, itemp, rest, 0);
      itemp := temp;
      temp := itemp.next;
      rest := rest[1..];
    }
  }
}
