/**
 Registered memory regions: how a region is laid out over whole pages, how an offset
 translates to a virtual address and to a network logical address (NLA), and the two
 range tests the registration cache is built on.
 */
module Regions {
  import opened PoolLists
  import opened MachineWords

  const PAGE: nat := 4096

  /** A region item; `count` and `offset` are 32-bit fields. */
  datatype Region = Region(
    start: nat, nla: nat, count: nat, offset: nat, end: nat, size: nat,
    refcount: int, endpoint: bool, parent: Node?<Region>)

  /** How many pages [address, address + size) reaches into, counted from its first page. */
  function Pages(address: nat, size: nat): nat {
    (size + address % PAGE + PAGE - 1) / PAGE
  }

  /**
   The fields a registration writes into an item. The page count is cut to 32 bits
   before the end is computed from it; the reference count is left as it was.
   */
  function Registered(r: Region, address: nat, size: nat, nla: nat): Region {
    var start := address - address % PAGE;
    var count := Pages(address, size) % WORD;
    Region(start, nla, count, address % PAGE, start + count * PAGE, count * PAGE, r.refcount, true, null)
  }

  function GetVa(r: Region, offset: nat): nat {
    r.start + offset + r.offset
  }

  function GetNla(r: Region, offset: nat): nat {
    r.nla + (offset + r.offset)
  }

  predicate Contained(r: Region, start: nat, size: nat) {
    r.start <= start && r.end >= start + size
  }

  predicate Overlap(r: Region, start: nat, size: nat) {
    || (r.start >= start && r.start <= start + size)
    || (r.end >= start && r.end <= start + size)
    || (r.start <= start && r.end >= start + size)
  }

  /** Some byte belongs to the region and to [start, start + size). */
  ghost predicate Intersects(r: Region, start: nat, size: nat) {
    exists x: nat :: Within(x, r.start, r.end) && Within(x, start, start + size)
  }

  predicate Within(x: nat, lo: nat, hi: nat) {
    lo <= x < hi
  }

  /**
   The overlap test never misses a common byte, and over-approximates in exactly one way:
   it also holds of ranges that merely touch, or of which one is empty.
   */
  lemma OverlapMeaning(r: Region, start: nat, size: nat)
    requires r.start <= r.end
    ensures Overlap(r, start, size) <==> r.start <= start + size && start <= r.end
    ensures Intersects(r, start, size) ==> Overlap(r, start, size)
    ensures Overlap(r, start, size) && !Intersects(r, start, size) <==>
            start + size == r.start || start == r.end ||
            ((size == 0 || r.start == r.end) && r.start <= start + size && start <= r.end)
  {
    if r.start < start + size && start < r.end && size > 0 && r.start < r.end {
      var x := if r.start <= start then start else r.start;
      assert Within(x, r.start, r.end) && Within(x, start, start + size);
    }
  }

  /** The longest range, counted from the start of its first page, whose pages 32 bits can count. */
  const LONGEST: nat := (WORD - 1) * PAGE

  /** As many pages as the range needs, and no more. */
  lemma PagesExact(address: nat, size: nat)
    ensures size + address % PAGE <= Pages(address, size) * PAGE < size + address % PAGE + PAGE
    ensures Pages(address, size) < WORD <==> size + address % PAGE <= LONGEST
  {
  }

  /** The region has the pages of the range and no others, if 32 bits can count them. */
  predicate Snug(r: Region, address: nat, size: nat) {
    && r.start <= address < r.start + PAGE
    && (size + address % PAGE <= LONGEST ==> address + size <= r.end < address + size + PAGE)
  }

  /**
   A fresh registration starts at the page of the address, translates the address to
   itself, and covers what was asked for, in no page too many, if and only if 32 bits can
   count the pages.
   */
  lemma RegisteredCovers(r: Region, address: nat, size: nat, nla: nat)
    ensures var q := Registered(r, address, size, nla);
      && q.start % PAGE == 0 && q.end == q.start + q.size && q.size == q.count * PAGE
      && (forall k: nat :: GetVa(q, k) == address + k)
      && (forall k: nat :: GetNla(q, k) == nla + (address + k - q.start))
      && Snug(q, address, size)
      && (Contained(q, address, size) <==> size + address % PAGE <= LONGEST)
  {
    PagesExact(address, size);
  }
}
