/**
 How a bulk write cuts an array of 32-bit integers into puts, and in which order it
 posts puts and waits for their notifications. All arithmetic is the JVM's.
 */
module PacketSplit {
  import opened MachineWords

  const INT_MAX := 0x7fff_ffff
  const INT_MIN := -0x8000_0000

  predicate IsInt(x: int) { INT_MIN <= x <= INT_MAX }

  /** Wrap-around to a signed 32-bit value. */
  function Int32(x: int): int {
    (x - INT_MIN) % WORD + INT_MIN
  }

  /** It is the one value of the type that differs from x by a multiple of 2^32. */
  lemma CutTo32(x: int)
    ensures -0x8000_0000 <= Int32(x) <= 0x7fff_ffff && (x - Int32(x)) % 0x1_0000_0000 == 0
  {
  }

  /** Division truncates toward zero. */
  function IntsPerPacket(packetSize: int): int {
    if packetSize >= 0 then packetSize / 4 else -((-packetSize) / 4)
  }

  function Ceil(x: real): int { -((-x).Floor) }

  /** The quotient in floating point, rounded up; 0/0 converts to 0 and n/0 to the largest integer. */
  function TotalPackets(length: nat, ints: int): int {
    if ints == 0 then (if length == 0 then 0 else INT_MAX)
    else Ceil(length as real / ints as real)
  }

  /** Arguments of one put, in bytes. */
  datatype Put = Put(offset: int, size: int)

  function PutAt(i: nat, ints: int, length: nat): Put {
    var start := Int32(i * ints);
    var end := Int32(start + ints);
    var n := if end > length then Int32(ints - (end - length)) else ints;
    Put(Int32(start * 4), Int32(n * 4))
  }

  function Puts(length: nat, packetSize: int): seq<Put> {
    var ints := IntsPerPacket(packetSize);
    var total := TotalPackets(length, ints);
    seq(if total > 0 then total else 0, (i: nat) => PutAt(i, ints, length))
  }

  // ------------------------------------------------------------------ coverage

  /** Where the first n puts end. */
  function End(puts: seq<Put>, n: nat): int
    requires n <= |puts|
  {
    if n == 0 then 0 else puts[n - 1].offset + puts[n - 1].size
  }

  /** The puts are not empty, follow each other without gap or overlap, and cover [0, bytes). */
  ghost predicate Tiles(puts: seq<Put>, bytes: nat) {
    && (forall i :: 0 <= i < |puts| ==> puts[i].size > 0 && puts[i].offset == End(puts, i))
    && End(puts, |puts|) == bytes
  }

  predicate Covers(p: Put, k: nat) { p.offset <= k < p.offset + p.size }

  lemma {:induction false} EndsGrow(puts: seq<Put>, bytes: nat, i: nat, j: nat)
    requires Tiles(puts, bytes) && i <= j <= |puts|
    ensures End(puts, i) <= End(puts, j)
    decreases j - i
  {
    if i < j {
      EndsGrow(puts, bytes, i, j - 1);
      assert puts[j - 1].size > 0;
    }
  }

  /** Every byte below the end of the first n puts is in one of them. */
  lemma {:induction false} FindPut(puts: seq<Put>, bytes: nat, k: nat, n: nat) returns (i: nat)
    requires Tiles(puts, bytes) && n <= |puts| && k < End(puts, n)
    ensures i < n && Covers(puts[i], k)
    decreases n
  {
    if k < End(puts, n - 1) {
      i := FindPut(puts, bytes, k, n - 1);
    } else {
      i := n - 1;
      assert puts[i].offset == End(puts, i);
    }
  }

  lemma PutsApart(puts: seq<Put>, bytes: nat, i: nat, j: nat)
    requires Tiles(puts, bytes) && i < j < |puts|
    ensures puts[i].offset + puts[i].size <= puts[j].offset
  {
    EndsGrow(puts, bytes, i + 1, j);
    assert puts[j].offset == End(puts, j);
  }

  lemma OnePut(puts: seq<Put>, bytes: nat, k: nat, i: nat, j: nat)
    requires Tiles(puts, bytes) && i < |puts| && j < |puts| && Covers(puts[i], k) && Covers(puts[j], k)
    ensures i == j
  {
    if i < j {
      PutsApart(puts, bytes, i, j);
    } else if j < i {
      PutsApart(puts, bytes, j, i);
    }
  }

  // -------------------------------------------------------------------- splitting

  lemma NoWrap(x: int)
    ensures Int32(x) == x <==> IsInt(x)
  {
  }

  lemma Wraps(x: int)
    requires INT_MAX < x <= INT_MAX + WORD
    ensures Int32(x) == x - WORD
  {
  }

  lemma CeilBounds(x: real)
    ensures Ceil(x) as real - 1.0 < x <= Ceil(x) as real
  {
  }

  lemma ScaleUp(a: real, b: real, c: real)
    requires c > 0.0
    ensures a < b ==> a * c < b * c
    ensures a <= b ==> a * c <= b * c
  {
  }

  lemma ProductOfInts(a: int, b: int)
    ensures a as real * b as real == (a * b) as real
  {
  }

  lemma Quotient(a: real, c: real)
    requires a >= 0.0 && c != 0.0
    ensures a / c * c == a && (c > 0.0 ==> a / c >= 0.0) && (c < 0.0 ==> a / c <= 0.0)
  {
  }

  lemma TotalBounds(length: nat, ints: int)
    requires ints != 0
    ensures var t := TotalPackets(length, ints);
      if ints > 0 then t >= 0 && t * ints >= length && (t - 1) * ints < length else t <= 0
  {
    var a, c := length as real, ints as real;
    Quotient(a, c);
    var x := a / c;
    CeilBounds(x);
    var t := Ceil(x);
    if ints > 0 {
      Compare(length, ints, x, t);
      Compare(length, ints, x, t - 1);
    }
  }

  /** A quotient compares with an integer as the dividend with the multiple. */
  lemma Compare(length: nat, ints: nat, x: real, u: int)
    requires ints > 0 && x * ints as real == length as real
    ensures u as real < x ==> u * ints < length
    ensures x <= u as real ==> length <= u * ints
  {
    ScaleUp(u as real, x, ints as real);
    ScaleUp(x, u as real, ints as real);
    ProductOfInts(u, ints);
  }

  /**
   The puts in exact arithmetic, for every length. The offset is cut to 32 bits. A last put
   that starts less than one packet below the largest integer is not shortened, because the
   test for it wraps.
   */
  lemma PutExact(length: nat, ints: nat, i: nat)
    requires length <= INT_MAX && 0 < ints < 0x2000_0000 && i < TotalPackets(length, ints)
    ensures 0 <= i * ints < length
    ensures var start := i * ints; var rest := length - start;
      PutAt(i, ints, length)
        == Put(Int32(4 * start), 4 * if rest < ints && start + ints <= INT_MAX then rest else ints)
  {
    TotalBounds(length, ints);
    Multiply(i, TotalPackets(length, ints) - 1, ints);
    hide TotalPackets;
    PutFrom(length, ints, i, i * ints);
  }

  lemma PutFrom(length: nat, ints: nat, i: nat, start: nat)
    requires 0 < ints < 0x2000_0000 && start == i * ints < length <= INT_MAX
    ensures var rest := length - start;
      PutAt(i, ints, length)
        == Put(Int32(4 * start), 4 * if rest < ints && start + ints <= INT_MAX then rest else ints)
  {
    NoWrap(start);
    NoWrap(start + ints);
    NoWrap(length - start);
    NoWrap(4 * (length - start));
    NoWrap(4 * ints);
    if start + ints > INT_MAX {
      Wraps(start + ints);
    }
    hide Int32;
    assert ints - (start + ints - length) == length - start;
  }

  lemma Multiply(a: nat, b: nat, c: nat)
    requires a <= b
    ensures a * c <= b * c
  {
  }

  /** The byte at which the last put starts, as a number of any size. */
  function LastOffset(length: nat, packetSize: int): int {
    var ints := IntsPerPacket(packetSize);
    4 * ((TotalPackets(length, ints) - 1) * ints)
  }

  /** Without a cut of the last offset there is none before it either. */
  lemma OffsetExact(length: nat, packetSize: int, i: nat)
    requires length <= INT_MAX && 4 <= packetSize <= INT_MAX && LastOffset(length, packetSize) <= INT_MAX
    requires i < |Puts(length, packetSize)|
    ensures var ints := packetSize / 4; var rest := length - i * ints;
      rest > 0 && Puts(length, packetSize)[i] == Put(4 * (i * ints), 4 * if rest < ints then rest else ints)
  {
    var ints := packetSize / 4;
    PutExact(length, ints, i);
    Multiply(i, TotalPackets(length, ints) - 1, ints);
    NoWrap(4 * (i * ints));
  }

  /** A put ends where the next one starts, and the last one with the array. */
  lemma PutEnds(length: nat, packetSize: int, n: nat)
    requires length <= INT_MAX && 4 <= packetSize <= INT_MAX && LastOffset(length, packetSize) <= INT_MAX
    requires 0 < n <= |Puts(length, packetSize)|
    ensures var ints := packetSize / 4;
      End(Puts(length, packetSize), n) == if n < |Puts(length, packetSize)| then 4 * (n * ints) else 4 * length
  {
    var ints := packetSize / 4;
    TotalBounds(length, ints);
    var t := |Puts(length, packetSize)|;
    assert t == TotalPackets(length, ints);
    OffsetExact(length, packetSize, n - 1);
    assert n * ints == (n - 1) * ints + ints;
    if n < t {
      Multiply(n, t - 1, ints);
    }
  }

  lemma PutsTile(length: nat, packetSize: int)
    requires length <= INT_MAX && 4 <= packetSize <= INT_MAX && LastOffset(length, packetSize) <= INT_MAX
    ensures Tiles(Puts(length, packetSize), 4 * length)
  {
    var puts := Puts(length, packetSize);
    TotalBounds(length, packetSize / 4);
    hide LastOffset;
    forall i | 0 <= i < |puts| ensures puts[i].size > 0 && puts[i].offset == End(puts, i) {
      OffsetExact(length, packetSize, i);
      if i > 0 {
        PutEnds(length, packetSize, i);
      }
    }
    if |puts| > 0 {
      PutEnds(length, packetSize, |puts|);
    }
  }

  /** A put that another one follows is as large as asked for. */
  lemma FullSize(length: nat, ints: nat, i: nat)
    requires length <= INT_MAX && 0 < ints < 0x2000_0000 && 0 < i < TotalPackets(length, ints)
    ensures PutAt(i - 1, ints, length).size == 4 * ints && i * ints == (i - 1) * ints + ints
  {
    PutExact(length, ints, i);
    PutExact(length, ints, i - 1);
    hide TotalPackets, PutAt, Int32;
    assert i * ints == (i - 1) * ints + ints;
  }

  lemma PutOf(length: nat, packetSize: int, i: nat)
    requires packetSize >= 4 && i < |Puts(length, packetSize)|
    ensures i < TotalPackets(length, packetSize / 4)
    ensures Puts(length, packetSize)[i] == PutAt(i, packetSize / 4, length)
  {
    hide PutAt, TotalPackets;
  }

  /** Puts that follow each other without a gap have the offsets that they ought to have. */
  lemma {:induction false} TiledOffset(length: nat, packetSize: int, i: nat)
    requires length <= INT_MAX && 4 <= packetSize <= INT_MAX
    requires i < |Puts(length, packetSize)| && Tiles(Puts(length, packetSize), 4 * length)
    ensures Puts(length, packetSize)[i].offset == 4 * (i * (packetSize / 4))
  {
    hide Puts, PutAt, TotalPackets;
    var ints, puts := packetSize / 4, Puts(length, packetSize);
    PutOf(length, packetSize, i);
    assert puts[i].offset == End(puts, i);
    if i > 0 {
      PutOf(length, packetSize, i - 1);
      FullSize(length, ints, i);
      TiledOffset(length, packetSize, i - 1);
    }
  }

  /** A last offset that is cut differs from where the puts before it end. */
  lemma CutOffset(length: nat, packetSize: int)
    requires length <= INT_MAX && 4 <= packetSize <= INT_MAX && LastOffset(length, packetSize) > INT_MAX
    ensures !Tiles(Puts(length, packetSize), 4 * length)
  {
    var ints, puts := packetSize / 4, Puts(length, packetSize);
    TotalBounds(length, ints);
    PutExact(length, ints, |puts| - 1);
    NoWrap(LastOffset(length, packetSize));
    assert puts[|puts| - 1].offset == Int32(LastOffset(length, packetSize));
    assert LastOffset(length, packetSize) == 4 * ((|puts| - 1) * ints);
    hide Puts, PutAt, Int32, TotalPackets, LastOffset;
    if Tiles(puts, 4 * length) {
      TiledOffset(length, packetSize, |puts| - 1);
    }
  }

  /**
   The puts cut the array up exactly, whatever its length, if and only if a packet holds an
   integer and the last byte offset fits 32 bits. With a packet size that holds no integer
   the first put is empty, or there is none.
   */
  lemma Splits(length: nat, packetSize: int)
    requires length <= INT_MAX && IsInt(packetSize)
    ensures Tiles(Puts(length, packetSize), 4 * length) <==>
      length == 0 || (packetSize >= 4 && LastOffset(length, packetSize) <= INT_MAX)
    ensures length > 0 && -4 < packetSize < 4 ==>
      |Puts(length, packetSize)| == INT_MAX && Puts(length, packetSize)[0].size == 0
    ensures packetSize <= -4 ==> Puts(length, packetSize) == []
  {
    var ints := IntsPerPacket(packetSize);
    var puts := Puts(length, packetSize);
    if ints != 0 {
      TotalBounds(length, ints);
    }
    if packetSize >= 4 {
      if LastOffset(length, packetSize) <= INT_MAX {
        PutsTile(length, packetSize);
      } else {
        CutOffset(length, packetSize);
      }
    } else if -4 < packetSize && length > 0 {
      assert puts[0].size == 0;
    }
  }

  /** The registration is given the size of the array in bytes only below 2^29 elements, and then no offset is cut. */
  lemma RegisteredSize(length: nat, packetSize: int)
    requires length <= INT_MAX && 4 <= packetSize <= INT_MAX
    ensures Int32(length * 4) == length * 4 <==> length < 0x2000_0000
    ensures 0 < length < 0x2000_0000 ==> LastOffset(length, packetSize) <= INT_MAX
  {
    TotalBounds(length, packetSize / 4);
  }

  /** 2^30 + 120 integers in packets of 240 bytes: registered as 480 bytes, and not covered. */
  lemma LongArray()
    ensures Int32((0x4000_0000 + 120) * 4) == 480
    ensures !Tiles(Puts(0x4000_0000 + 120, 240), 4 * (0x4000_0000 + 120))
  {
    var length := 0x4000_0000 + 120;
    assert Int32(length * 4) == 480;
    TotalBounds(length, 60);
    hide Int32;
    Splits(length, 240);
  }

  /** The first packet is the largest: as large as asked for, in whole integers, or the whole array. */
  lemma PacketsFit(length: nat, packetSize: int, i: nat)
    requires length <= INT_MAX && 4 <= packetSize <= INT_MAX && i < |Puts(length, packetSize)|
    ensures 0 < Puts(length, packetSize)[i].size <= Puts(length, packetSize)[0].size
    ensures Puts(length, packetSize)[0].size == 4 * if length < packetSize / 4 then length else packetSize / 4
  {
    PutExact(length, packetSize / 4, i);
    PutExact(length, packetSize / 4, 0);
    if length < packetSize / 4 && i > 0 {
      Multiply(1, i, packetSize / 4);
    }
  }

  // ----------------------------------------------------- posting and waiting

  datatype Act = Post | Wait

  /** Puts posted whose notification has not been waited for. */
  function Open(s: seq<Act>): int {
    if s == [] then 0
    else Open(s[..|s| - 1]) + if s[|s| - 1] == Post then 1 else -1
  }

  /** How many acts of one kind. */
  function Number(s: seq<Act>, a: Act): nat {
    if s == [] then 0
    else Number(s[..|s| - 1], a) + if s[|s| - 1] == a then 1 else 0
  }

  /** The loop over k packets: from packet number `last` on, each put is followed by a wait. */
  function Sends(k: nat, last: int): seq<Act> {
    if k == 0 then [] else Sends(k - 1, last) + [Post] + if k - 1 >= last then [Wait] else []
  }

  function Waits(n: nat): seq<Act> {
    if n == 0 then [] else Waits(n - 1) + [Wait]
  }

  /** Puts that the loop leaves open. */
  function LeftOpen(k: nat, last: int): nat {
    if last <= 0 then 0 else if last < k then last else k
  }

  /** The whole call: the loop, then as many waits as are missing. */
  function Script(total: nat, postpone: int): seq<Act> {
    var last := Int32(postpone - 1);
    Sends(total, last) + Waits(LeftOpen(total, last))
  }

  lemma {:induction false} SendsGrow(i: nat, k: nat, last: int)
    requires i <= k
    ensures Sends(i, last) <= Sends(k, last)
    decreases k
  {
    if i < k {
      SendsGrow(i, k - 1, last);
    }
  }

  lemma {:induction false} WaitsGrow(i: nat, n: nat)
    requires i <= n
    ensures Waits(i) <= Waits(n)
    decreases n
  {
    if i < n {
      WaitsGrow(i, n - 1);
    }
  }

  /** At no point more than `bound` puts are open, and never a wait too many. */
  ghost predicate Bounded(s: seq<Act>, bound: int) {
    forall n :: 0 <= n <= |s| ==> 0 <= Open(s[..n]) <= bound
  }

  lemma OpenNext(s: seq<Act>, a: Act)
    ensures Open(s + [a]) == Open(s) + if a == Post then 1 else -1
  {
  }

  lemma BoundedNext(s: seq<Act>, a: Act, bound: int)
    requires Bounded(s, bound) && 0 <= Open(s + [a]) <= bound
    ensures Bounded(s + [a], bound)
  {
    forall n | 0 <= n <= |s + [a]| ensures 0 <= Open((s + [a])[..n]) <= bound {
      if n <= |s| {
        assert (s + [a])[..n] == s[..n];
      } else {
        assert (s + [a])[..n] == s + [a];
      }
    }
  }

  lemma {:induction false} SendsOpen(k: nat, last: int)
    ensures Open(Sends(k, last)) == LeftOpen(k, last)
  {
    if k > 0 {
      SendsOpen(k - 1, last);
      var s := Sends(k - 1, last);
      OpenNext(s, Post);
      OpenNext(s + [Post], Wait);
      assert s + [Post] + [] == s + [Post];
    }
  }

  lemma {:induction false} SendsBounded(k: nat, last: int)
    ensures Bounded(Sends(k, last), if last <= 0 then 1 else last + 1)
  {
    var bound := if last <= 0 then 1 else last + 1;
    if k > 0 {
      var s := Sends(k - 1, last);
      SendsOpen(k - 1, last);
      SendsBounded(k - 1, last);
      OpenNext(s, Post);
      OpenNext(s + [Post], Wait);
      hide Open, Bounded;
      BoundedNext(s, Post, bound);
      if k - 1 >= last {
        BoundedNext(s + [Post], Wait, bound);
      } else {
        assert s + [Post] + [] == s + [Post];
      }
    }
  }

  lemma {:induction false} OpenWaits(s: seq<Act>, n: nat)
    ensures Open(s + Waits(n)) == Open(s) - n
  {
    hide Open;
    if n == 0 {
      assert s + Waits(n) == s;
    } else {
      OpenWaits(s, n - 1);
      OpenNext(s + Waits(n - 1), Wait);
      assert s + Waits(n) == s + Waits(n - 1) + [Wait];
    }
  }

  lemma {:induction false} WaitsClose(s: seq<Act>, n: nat, bound: int)
    requires Bounded(s, bound) && n <= Open(s) <= bound
    ensures Bounded(s + Waits(n), bound)
  {
    if n == 0 {
      assert s + Waits(n) == s;
    } else {
      WaitsClose(s, n - 1, bound);
      OpenWaits(s, n - 1);
      OpenNext(s + Waits(n - 1), Wait);
      BoundedNext(s + Waits(n - 1), Wait, bound);
      assert s + Waits(n) == s + Waits(n - 1) + [Wait];
    }
  }

  /** How many puts a call may have open at once. */
  function Allowed(postpone: int): int {
    if postpone > 1 then postpone else 1
  }

  lemma {:induction false} ScriptBounded(total: nat, postpone: int)
    requires INT_MIN < postpone <= INT_MAX
    ensures Bounded(Script(total, postpone), Allowed(postpone))
  {
    var last := postpone - 1;
    NoWrap(last);
    SendsOpen(total, last);
    SendsBounded(total, last);
    WaitsClose(Sends(total, last), LeftOpen(total, last), Allowed(postpone));
  }

  /** The smallest integer less one is the largest: a single packet keeps the bound, a second one breaks it. */
  lemma WrappedPostpone(total: nat)
    ensures Bounded(Script(total, INT_MIN), 1) <==> total <= 1
  {
    var last := INT_MAX;
    assert Int32(INT_MIN - 1) == last;
    var s := Script(total, INT_MIN);
    OpenNext([], Post);
    if total <= 1 {
      OpenNext([Post], Wait);
      BoundedNext([], Post, 1);
      BoundedNext([Post], Wait, 1);
      assert total == 1 ==> s == [Post] + [Wait];
    } else {
      SendsGrow(2, total, last);
      assert Sends(2, last) == Sends(1, last) + [Post] + [] == [Post] + [Post];
      assert s[..2] == [Post] + [Post];
      OpenNext([Post], Post);
    }
  }

  /**
   At most max(1, postpone) puts are ever unacknowledged if and only if postpone is not the
   smallest integer or there is at most one packet; and in any case as many notifications
   have been awaited in the end as puts were posted.
   */
  lemma OpenPuts(total: nat, postpone: int)
    requires IsInt(postpone)
    ensures Bounded(Script(total, postpone), Allowed(postpone)) <==> postpone > INT_MIN || total <= 1
    ensures Open(Script(total, postpone)) == 0
  {
    if postpone > INT_MIN {
      ScriptBounded(total, postpone);
    } else {
      WrappedPostpone(total);
    }
    SendsOpen(total, Int32(postpone - 1));
    OpenWaits(Sends(total, Int32(postpone - 1)), LeftOpen(total, Int32(postpone - 1)));
  }

  // ----------------------------------------------------------- the order of events

  lemma NumberNext(s: seq<Act>, x: Act, a: Act)
    ensures Number(s + [x], a) == Number(s, a) + if x == a then 1 else 0
  {
  }

  lemma {:induction false} OpenIs(s: seq<Act>)
    ensures Open(s) == Number(s, Post) - Number(s, Wait)
  {
    if s != [] {
      OpenIs(s[..|s| - 1]);
    }
  }

  /** Every wait comes exactly when `window` puts are open, or, once all are posted, at once. */
  ghost predicate InOrder(s: seq<Act>, total: nat, window: int) {
    forall n :: 0 <= n < |s| && s[n] == Wait ==>
      var acked := Number(s[..n], Wait);
      Number(s[..n], Post) == if acked + window < total then acked + window else total
  }

  lemma InOrderNext(s: seq<Act>, x: Act, total: nat, window: int)
    requires InOrder(s, total, window)
    requires x == Wait ==> var acked := Number(s, Wait);
      Number(s, Post) == if acked + window < total then acked + window else total
    ensures InOrder(s + [x], total, window)
  {
    forall n | 0 <= n < |s + [x]| ensures (s + [x])[..n] == s[..n] {
    }
    assert s[..|s|] == s;
    hide Number;
  }

  lemma {:induction false} SendsNumber(k: nat, last: int)
    ensures Number(Sends(k, last), Post) == k && Number(Sends(k, last), Wait) == k - LeftOpen(k, last)
    ensures k >= last ==> k - Number(Sends(k, last), Wait) == if last <= 0 then 0 else last
  {
    if k > 0 {
      hide Number;
      var s := Sends(k - 1, last);
      SendsNumber(k - 1, last);
      NumberNext(s, Post, Post);
      NumberNext(s, Post, Wait);
      NumberNext(s + [Post], Wait, Post);
      NumberNext(s + [Post], Wait, Wait);
      assert s + [Post] + [] == s + [Post];
    }
  }

  lemma TurnInOrder(s: seq<Act>, waits: bool, total: nat, window: int)
    requires InOrder(s, total, window) && Number(s, Post) < total
    requires waits ==> Number(s, Post) + 1 == Number(s, Wait) + window
    ensures InOrder(s + [Post] + if waits then [Wait] else [], total, window)
  {
    hide Number, InOrder;
    NumberNext(s, Post, Post);
    NumberNext(s, Post, Wait);
    InOrderNext(s, Post, total, window);
    if waits {
      InOrderNext(s + [Post], Wait, total, window);
    } else {
      assert s + [Post] + [] == s + [Post];
    }
  }

  lemma {:induction false} SendsInOrder(k: nat, last: int, total: nat)
    requires k <= total
    ensures InOrder(Sends(k, last), total, if last <= 0 then 1 else last + 1)
  {
    if k == 0 {
      return;
    }
    var s, window := Sends(k - 1, last), if last <= 0 then 1 else last + 1;
    SendsInOrder(k - 1, last, total);
    hide Number, InOrder, LeftOpen;
    SendsNumber(k - 1, last);
    TurnInOrder(s, k - 1 >= last, total, window);
  }

  lemma {:induction false} NumberWaits(s: seq<Act>, n: nat)
    ensures Number(s + Waits(n), Post) == Number(s, Post) && Number(s + Waits(n), Wait) == Number(s, Wait) + n
  {
    hide Number;
    if n == 0 {
      assert s + Waits(n) == s;
    } else {
      NumberWaits(s, n - 1);
      NumberNext(s + Waits(n - 1), Wait, Post);
      NumberNext(s + Waits(n - 1), Wait, Wait);
      assert s + Waits(n) == s + Waits(n - 1) + [Wait];
    }
  }

  lemma {:induction false} WaitsInOrder(s: seq<Act>, n: nat, total: nat, window: int)
    requires InOrder(s, total, window) && Number(s, Post) == total && total - Number(s, Wait) <= window
    ensures InOrder(s + Waits(n), total, window)
  {
    hide Number, InOrder;
    if n == 0 {
      assert s + Waits(n) == s;
    } else {
      WaitsInOrder(s, n - 1, total, window);
      NumberWaits(s, n - 1);
      InOrderNext(s + Waits(n - 1), Wait, total, window);
      assert s + Waits(n) == s + Waits(n - 1) + [Wait];
    }
  }

  /**
   As many puts as waits, one for each packet. A wait comes exactly when max(1, postpone)
   puts are open or all are posted; for the smallest integer the number is 2^31. With that,
   the order of puts and waits is fixed.
   */
  lemma ScriptOrder(total: nat, postpone: int)
    requires IsInt(postpone)
    ensures Number(Script(total, postpone), Post) == total && Number(Script(total, postpone), Wait) == total
    ensures InOrder(Script(total, postpone), total, if postpone == INT_MIN then 0x8000_0000 else Allowed(postpone))
  {
    var last := Int32(postpone - 1);
    assert last == if postpone == INT_MIN then INT_MAX else postpone - 1;
    var window, rest := if last <= 0 then 1 else last + 1, LeftOpen(total, last);
    assert window == (if postpone == INT_MIN then 0x8000_0000 else Allowed(postpone)) && rest <= window;
    var s := Sends(total, last);
    SendsInOrder(total, last, total);
    SendsNumber(total, last);
    hide Number, InOrder, Sends, Waits, LeftOpen, Int32, Allowed;
    NumberWaits(s, rest);
    WaitsInOrder(s, rest, total, window);
  }

  /** Where the waits of s stand: the number of puts before each, counted from `base`. */
  function Marks(s: seq<Act>, base: nat): seq<nat> {
    if s == [] then []
    else
      var n := |s| - 1;
      Marks(s[..n], base) + if s[n] == Wait then [base + Number(s[..n], Post)] else []
  }

  lemma MarksNext(s: seq<Act>, x: Act, base: nat)
    ensures Marks(s + [x], base) == Marks(s, base) + if x == Wait then [base + Number(s, Post)] else []
  {
    assert (s + [x])[..|s|] == s;
  }

  function Repeat(n: nat, x: nat): seq<nat> {
    if n == 0 then [] else Repeat(n - 1, x) + [x]
  }

  lemma {:induction false} MarksWaits(s: seq<Act>, n: nat, base: nat)
    ensures Marks(s + Waits(n), base) == Marks(s, base) + Repeat(n, base + Number(s, Post))
  {
    hide Number, Marks;
    var m := base + Number(s, Post);
    if n == 0 {
      assert s + Waits(n) == s;
      assert Marks(s, base) + Repeat(n, m) == Marks(s, base);
    } else {
      MarksWaits(s, n - 1, base);
      NumberWaits(s, n - 1);
      MarksNext(s + Waits(n - 1), Wait, base);
      assert s + Waits(n) == s + Waits(n - 1) + [Wait];
      assert Marks(s, base) + Repeat(n, m) == Marks(s, base) + Repeat(n - 1, m) + [m];
    }
  }
}
