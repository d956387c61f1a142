/**
 The bulk write of the Scala connection: it cuts an array into puts, posts a descriptor
 for each through the flow control of the port, and waits for requester notifications.
 */
module BulkWrite {
  import opened ReplayProtocol
  import opened ReplayBuffer
  import opened NotificationRing
  import opened NotificationQueue
  import opened Ports
  import opened Demultiplexer
  import opened PacketSplit
  import opened MachineWords

  const LONG := WORD * WORD
  const COUNTS := 0x80_0000            // values of the 23-bit count field of a descriptor
  const COUNT_UNIT := 0x100_0000_0000  // the count field starts at bit 40

  /** What a connection and a call fix for all their puts. `header` is word 0 below the count field. */
  datatype Target = Target(page: nat, header: nat, source: nat, target: nat)

  /** The descriptor of a put: count less one, source address, destination address. */
  function Words(t: Target, p: Put): seq<nat> {
    [(p.size - 1) % COUNTS * COUNT_UNIT + t.header % COUNT_UNIT,
     (t.source + p.offset % WORD) % LONG,
     (t.target + p.offset) % LONG]
  }

  function PacketOf(t: Target, p: Put): Packet {
    Packet(t.page, Words(t, p)[0], Words(t, p)[1], Words(t, p)[2])
  }

  function PacketsOf(t: Target, puts: seq<Put>): seq<Packet> {
    seq(|puts|, i requires 0 <= i < |puts| => PacketOf(t, puts[i]))
  }

  // ------------------------------------------------------- what a packet transfers

  function Count(p: Packet): nat { p.w0 / COUNT_UNIT % COUNTS + 1 }

  /** The packet carries the byte at `from` to `to`. */
  predicate Moves(p: Packet, from: nat, to: nat) {
    p.w1 <= from < p.w1 + Count(p) && to == p.w2 + (from - p.w1)
  }

  /** Below the count field stands the header, and the put goes to the page of the connection. */
  lemma HeaderKept(t: Target, p: Put)
    ensures var q := PacketOf(t, p);
      q.page == t.page && q.w0 % 0x100_0000_0000 == t.header % 0x100_0000_0000 && q.w0 < 0x8000_0000_0000_0000
  {
  }

  lemma CountIs(t: Target, p: Put)
    requires p.size > 0
    ensures Count(PacketOf(t, p)) == (p.size - 1) % COUNTS + 1
    ensures Count(PacketOf(t, p)) <= p.size
  {
  }

  /** The device takes the count as meant exactly up to 8 MB. */
  lemma CountDecodes(t: Target, p: Put)
    requires p.size > 0
    ensures Count(PacketOf(t, p)) == p.size <==> p.size <= COUNTS
  {
    CountIs(t, p);
  }

  /** The ranges read and written lie in the address space. */
  predicate Addressable(t: Target, bytes: nat) {
    t.source + bytes <= LONG && t.target + bytes <= LONG
  }

  /** An offset that is not negative decodes to itself on both sides. */
  lemma OffsetDecodes(t: Target, p: Put, bytes: nat)
    requires Addressable(t, bytes) && 0 <= p.offset <= INT_MAX && p.offset < bytes
    ensures var q := PacketOf(t, p);
      q.w1 == t.source + p.offset && q.w2 == t.target + p.offset
  {
    var o := p.offset;
    Remainder(o, WORD, 0, o);
    Remainder(t.source + o, LONG, 0, t.source + o);
    Remainder(t.target + o, LONG, 0, t.target + o);
  }

  /**
   The source address takes an offset modulo 2^32, the target address takes its sign: with
   a negative offset the two are off by different amounts, and no byte comes to its place.
   */
  lemma OffsetWraps(t: Target, p: Put, bytes: nat, k: nat)
    requires Addressable(t, bytes) && INT_MIN <= p.offset < 0 && p.offset + WORD < bytes
    ensures !Moves(PacketOf(t, p), t.source + k, t.target + k)
  {
    var o := p.offset;
    Remainder(o, WORD, -1, o + WORD);
    Remainder(t.source + o + WORD, LONG, 0, t.source + o + WORD);
    if t.target + o >= 0 {
      Remainder(t.target + o, LONG, 0, t.target + o);
    } else {
      Remainder(t.target + o, LONG, -1, t.target + o + LONG);
    }
  }

  /** Offsets are where puts that tile a range leave them: not negative, and inside it. */
  lemma PutDecodes(t: Target, puts: seq<Put>, bytes: nat, i: nat)
    requires Tiles(puts, bytes) && Addressable(t, bytes)
    requires i < |puts| && IsInt(puts[i].offset)
    ensures var p := PacketsOf(t, puts)[i];
      && p.w1 == t.source + puts[i].offset && p.w2 == t.target + puts[i].offset
      && (puts[i].size <= COUNTS ==> Count(p) == puts[i].size)
  {
    EndsGrow(puts, bytes, 0, i);
    EndsGrow(puts, bytes, i + 1, |puts|);
    assert puts[i].offset == End(puts, i);
    OffsetDecodes(t, puts[i], bytes);
    CountDecodes(t, puts[i]);
  }

  /** No packet needs a larger count than the field can hold. */
  predicate Countable(length: nat, packetSize: int) {
    4 * length <= COUNTS || packetSize / 4 * 4 <= COUNTS
  }

  lemma SizesFit(length: nat, packetSize: int, i: nat)
    requires length <= INT_MAX && 4 <= packetSize <= INT_MAX && i < |Puts(length, packetSize)|
    ensures IsInt(Puts(length, packetSize)[i].offset)
    ensures Countable(length, packetSize) ==> Puts(length, packetSize)[i].size <= COUNTS
  {
    PacketsFit(length, packetSize, i);
  }

  lemma MovesItsBytes(t: Target, puts: seq<Put>, bytes: nat, i: nat, k: nat, to: nat)
    requires Tiles(puts, bytes) && Addressable(t, bytes)
    requires i < |puts| && IsInt(puts[i].offset) && puts[i].size <= COUNTS
    ensures Moves(PacketsOf(t, puts)[i], t.source + k, to) <==> Covers(puts[i], k) && to == t.target + k
  {
    PutDecodes(t, puts, bytes, i);
  }

  /** Each byte of what the puts cover is carried to its place by one packet, and by no other anywhere. */
  lemma EveryByteOnce(t: Target, puts: seq<Put>, bytes: nat, k: nat) returns (i: nat)
    requires Tiles(puts, bytes) && Addressable(t, bytes) && k < bytes
    requires forall i :: 0 <= i < |puts| ==> IsInt(puts[i].offset) && puts[i].size <= COUNTS
    ensures var ps := PacketsOf(t, puts); var from := t.source + k;
      && i < |ps| && Moves(ps[i], from, t.target + k)
      && forall j, to :: 0 <= j < |ps| && Moves(ps[j], from, to) ==> j == i && to == t.target + k
  {
    var ps, from := PacketsOf(t, puts), t.source + k;
    i := FindPut(puts, bytes, k, |puts|);
    MovesItsBytes(t, puts, bytes, i, k, t.target + k);
    forall j, to | 0 <= j < |ps| && Moves(ps[j], from, to) ensures j == i && to == t.target + k {
      hide Tiles, Moves;
      MovesItsBytes(t, puts, bytes, j, k, to);
      OnePut(puts, bytes, k, i, j);
    }
  }

  ghost predicate Delivers(ps: seq<Packet>, t: Target, k: nat) {
    exists i :: 0 <= i < |ps| && Moves(ps[i], t.source + k, t.target + k)
  }

  /** A count that the field cannot hold loses the byte 8 MB into the array. */
  lemma TooLarge(t: Target, length: nat, packetSize: int)
    requires length <= INT_MAX && 4 <= packetSize <= INT_MAX && !Countable(length, packetSize)
    requires LastOffset(length, packetSize) <= INT_MAX && Addressable(t, 4 * length)
    ensures COUNTS < 4 * length && !Delivers(PacketsOf(t, Puts(length, packetSize)), t, COUNTS)
  {
    var puts := Puts(length, packetSize);
    var ps := PacketsOf(t, puts);
    PutsTile(length, packetSize);
    PacketsFit(length, packetSize, 0);
    CountIs(t, puts[0]);
    forall i | 0 <= i < |ps| ensures !Moves(ps[i], t.source + COUNTS, t.target + COUNTS) {
      SizesFit(length, packetSize, i);
      PutDecodes(t, puts, 4 * length, i);
      if i > 0 {
        PutsApart(puts, 4 * length, 0, i);
      }
    }
  }

  /** Where put i starts, as a number of any size. */
  function StartOf(packetSize: nat, i: nat): nat { 4 * (i * (packetSize / 4)) }

  lemma Starts(length: nat, packetSize: int, i: nat)
    requires length <= INT_MAX && 4 <= packetSize <= INT_MAX && i < |Puts(length, packetSize)|
    ensures StartOf(packetSize, i) < 4 * length
    ensures Puts(length, packetSize)[i].offset == Int32(StartOf(packetSize, i))
    ensures if i == |Puts(length, packetSize)| - 1 then StartOf(packetSize, i) == LastOffset(length, packetSize)
            else StartOf(packetSize, i) + Puts(length, packetSize)[i].size <= LastOffset(length, packetSize)
  {
    var ints, puts := packetSize / 4, Puts(length, packetSize);
    PutExact(length, ints, i);
    hide Int32, PutAt;
    if i < |puts| - 1 {
      Multiply(i + 1, |puts| - 1, ints);
      assert (i + 1) * ints == i * ints + ints;
    }
  }

  /** No put carries the first byte of the last one, if that one's offset is cut. */
  lemma Misses(t: Target, p: Put, start: nat, bytes: nat, k: nat)
    requires p.offset == Int32(start) && p.size > 0 && Addressable(t, bytes)
    requires start <= k < bytes <= 2 * WORD && INT_MAX < k && (start == k || start + p.size <= k)
    ensures !Moves(PacketOf(t, p), t.source + k, t.target + k)
  {
    CountIs(t, p);
    if p.offset < 0 {
      OffsetWraps(t, p, bytes, k);
    } else {
      OffsetDecodes(t, p, bytes);
    }
  }

  /** An offset that does not fit 32 bits loses the first byte of the last put. */
  lemma TooLong(t: Target, length: nat, packetSize: int)
    requires length <= INT_MAX && 4 <= packetSize <= INT_MAX && LastOffset(length, packetSize) > INT_MAX
    requires Addressable(t, 4 * length)
    ensures LastOffset(length, packetSize) < 4 * length
    ensures !Delivers(PacketsOf(t, Puts(length, packetSize)), t, LastOffset(length, packetSize))
  {
    var puts, k := Puts(length, packetSize), LastOffset(length, packetSize);
    var ps := PacketsOf(t, puts);
    TotalBounds(length, packetSize / 4);
    Starts(length, packetSize, |puts| - 1);
    hide Puts, LastOffset, StartOf, PacketOf, Moves;
    forall i | 0 <= i < |ps| ensures !Moves(ps[i], t.source + k, t.target + k) {
      Starts(length, packetSize, i);
      PacketsFit(length, packetSize, i);
      Misses(t, puts[i], StartOf(packetSize, i), 4 * length, k);
    }
  }

  /**
   For every length: the packets of a bulk write carry every byte of the array to its place
   if and only if each count fits its field and the last offset fits 32 bits.
   */
  lemma Delivered(t: Target, length: nat, packetSize: int)
    requires length <= INT_MAX && 4 <= packetSize <= INT_MAX && Addressable(t, 4 * length)
    ensures (forall k :: 0 <= k < 4 * length ==> Delivers(PacketsOf(t, Puts(length, packetSize)), t, k))
       <==> Countable(length, packetSize) && LastOffset(length, packetSize) <= INT_MAX
  {
    if LastOffset(length, packetSize) > INT_MAX {
      TooLong(t, length, packetSize);
    } else if !Countable(length, packetSize) {
      TooLarge(t, length, packetSize);
    } else {
      var puts := Puts(length, packetSize);
      PutsTile(length, packetSize);
      forall i | 0 <= i < |puts| ensures IsInt(puts[i].offset) && puts[i].size <= COUNTS {
        SizesFit(length, packetSize, i);
      }
      forall k | 0 <= k < 4 * length ensures Delivers(PacketsOf(t, puts), t, k) {
        hide Puts, Tiles, PacketsOf;
        var i := EveryByteOnce(t, puts, 4 * length, k);
      }
    }
  }

  /** A write as far as it got. */
  datatype Written = Done | Aborted | Failed(wait: Outcome)

  // ----------------------------------------------------------- how far a write got

  /** The puts are those that the loop over `total` packets makes. */
  ghost predicate Cut(puts: seq<Put>, length: nat, ints: int, total: int) {
    && |puts| == (if total > 0 then total else 0)
    && forall i: nat :: i < |puts| ==> puts[i] == PutAt(i, ints, length)
  }

  /** The histories that a bulk write adds to; `calls` says how many packets were posted at each wait. */
  datatype Log = Log(posted: seq<Packet>, returned: seq<RmaNotification>, calls: seq<nat>)

  /** Every notification after the first n is a requester notification. */
  ghost predicate RequestersFrom(returned: seq<RmaNotification>, n: nat) {
    forall j :: n <= j < |returned| ==> returned[j].kind == Requester
  }

  lemma RequestersJoin(a: seq<RmaNotification>, b: seq<RmaNotification>, n: nat)
    requires n <= |a| && a <= b && RequestersFrom(a, n) && RequestersFrom(b, |a|)
    ensures RequestersFrom(b, n)
  {
  }

  /** What has happened since `before` is part of the given puts and of the given order of events. */
  ghost predicate OnTrack(t: Target, before: Log, now: Log, sent: seq<Put>, puts: seq<Put>,
                          trace: seq<Act>, script: seq<Act>)
  {
    && sent <= puts && trace <= script
    && now.posted == before.posted + PacketsOf(t, sent)
    && before.returned <= now.returned && RequestersFrom(now.returned, |before.returned|)
    && Number(trace, Post) == |sent| && Number(trace, Wait) == |now.returned| - |before.returned|
  }

  /** The waits that a write has begun stand between its puts where `tried` says, and there are no others. */
  ghost predicate Waited(before: Log, now: Log, tried: seq<Act>) {
    now.calls == before.calls + Marks(tried, |before.posted|)
  }

  /** What a write has done, and the wait on which it has failed. */
  function Tried(r: Written, trace: seq<Act>): seq<Act> {
    trace + if r.Failed? then [Wait] else []
  }

  /** How a write, or a part of it, may end: where the script is through, or posts an empty put, or waits. */
  predicate Ends(r: Written, sent: seq<Put>, puts: seq<Put>, trace: seq<Act>, script: seq<Act>) {
    match r
    case Done => sent == puts && trace == script
    case Aborted => |sent| < |puts| && puts[|sent|].size == 0 && trace + [Post] <= script
    case Failed(o) => !o.Found? && trace + [Wait] <= script
  }

  lemma OnTrackStart(t: Target, before: Log, puts: seq<Put>, last: int)
    ensures OnTrack(t, before, before, [], puts, [], Sends(|puts|, last)) && Waited(before, before, [])
    ensures Sends(0, last) == []
  {
  }

  lemma NextPacket(t: Target, puts: seq<Put>, i: nat)
    requires i < |puts|
    ensures PacketsOf(t, puts[..i + 1]) == PacketsOf(t, puts[..i]) + [PacketOf(t, puts[i])]
  {
    hide PacketOf;
  }

  /** One more put, and one more notification if this put is waited for. */
  lemma OnTrackGoes(t: Target, before: Log, now: Log, next: Log, i: nat, puts: seq<Put>, last: int)
    requires i < |puts| && OnTrack(t, before, now, puts[..i], puts, Sends(i, last), Sends(|puts|, last))
    requires next.posted == now.posted + [PacketOf(t, puts[i])] && now.returned <= next.returned
    requires RequestersFrom(next.returned, |now.returned|)
    requires |next.returned| == |now.returned| + if i >= last then 1 else 0
    ensures OnTrack(t, before, next, puts[..i + 1], puts, Sends(i + 1, last), Sends(|puts|, last))
    ensures Sends(i + 1, last) == Sends(i, last) + ([Post] + if i >= last then [Wait] else [])
  {
    hide PacketOf, PacketsOf, Number;
    NextPacket(t, puts, i);
    SendsGrow(i + 1, |puts|, last);
    var s := Sends(i, last);
    AfterPost(s);
    assert s + ([Post] + [Wait]) == s + [Post] + [Wait];
    assert s + ([Post] + []) == s + [Post];
    assert s + [Post] + [] == s + [Post];
    RequestersJoin(now.returned, next.returned, |before.returned|);
  }

  lemma AfterPost(s: seq<Act>)
    ensures Number(s + [Post], Post) == Number(s, Post) + 1 && Number(s + [Post], Wait) == Number(s, Wait)
    ensures Number(s + [Post] + [Wait], Post) == Number(s, Post) + 1
    ensures Number(s + [Post] + [Wait], Wait) == Number(s, Wait) + 1
  {
    NumberNext(s, Post, Post);
    NumberNext(s, Post, Wait);
    NumberNext(s + [Post], Wait, Post);
    NumberNext(s + [Post], Wait, Wait);
  }

  /** A wait, after the put, comes when this put and all before it are posted. */
  lemma WaitedGoes(t: Target, before: Log, now: Log, next: Log, i: nat, puts: seq<Put>, last: int)
    requires i < |puts| && OnTrack(t, before, now, puts[..i], puts, Sends(i, last), Sends(|puts|, last))
    requires Waited(before, now, Sends(i, last)) && |next.posted| == |now.posted| + 1
    requires next.calls == now.calls + if i >= last then [|next.posted|] else []
    ensures Waited(before, next, Sends(i + 1, last))
  {
    var s, base := Sends(i, last), |before.posted|;
    hide Number, Marks, RequestersFrom;
    AfterPost(s);
    MarksNext(s, Post, base);
    MarksNext(s + [Post], Wait, base);
    assert Marks(s, base) + [] == Marks(s, base);
    assert s + [Post] + [] == s + [Post];
  }

  /** A put whose notification did not come. */
  lemma OnTrackFails(t: Target, before: Log, now: Log, next: Log, i: nat, puts: seq<Put>, last: int)
    requires last <= i < |puts| && OnTrack(t, before, now, puts[..i], puts, Sends(i, last), Sends(|puts|, last))
    requires next.posted == now.posted + [PacketOf(t, puts[i])] && next.returned == now.returned
    ensures OnTrack(t, before, next, puts[..i + 1], puts, Sends(i, last) + [Post], Sends(|puts|, last))
    ensures Sends(i, last) + [Post] + [Wait] == Sends(i + 1, last) <= Sends(|puts|, last)
  {
    hide PacketOf, PacketsOf, Number;
    NextPacket(t, puts, i);
    SendsGrow(i + 1, |puts|, last);
    AfterPost(Sends(i, last));
  }

  lemma NextPost(i: nat, n: nat, last: int)
    requires i < n
    ensures Sends(i, last) + [Post] <= Sends(n, last)
  {
    SendsGrow(i + 1, n, last);
  }

  /** The loop is the first part of the script. */
  lemma Unfinished(t: Target, before: Log, now: Log, r: Written, sent: seq<Put>, puts: seq<Put>,
                   trace: seq<Act>, last: int, postpone: int)
    requires last == Int32(postpone - 1) && OnTrack(t, before, now, sent, puts, trace, Sends(|puts|, last))
    requires !r.Done? && Ends(r, sent, puts, trace, Sends(|puts|, last))
    ensures OnTrack(t, before, now, sent, puts, trace, Script(|puts|, postpone))
    ensures Ends(r, sent, puts, trace, Script(|puts|, postpone))
  {
  }

  /** Of `begun` waits without a put between them, the first `waits` have been answered. */
  ghost predicate Trail(mid: Log, now: Log, waits: nat, begun: nat) {
    && now.posted == mid.posted && now.calls == mid.calls + Repeat(begun, |mid.posted|)
    && mid.returned <= now.returned && |now.returned| == |mid.returned| + waits
    && RequestersFrom(now.returned, |mid.returned|)
  }

  lemma TrailStart(mid: Log)
    ensures Trail(mid, mid, 0, 0)
  {
  }

  lemma TrailNext(mid: Log, now: Log, next: Log, waits: nat, found: bool)
    requires Trail(mid, now, waits, waits)
    requires next.posted == now.posted && next.calls == now.calls + [|now.posted|]
    requires now.returned <= next.returned && |next.returned| == |now.returned| + if found then 1 else 0
    requires RequestersFrom(next.returned, |now.returned|)
    ensures Trail(mid, next, if found then waits + 1 else waits, waits + 1)
  {
    RequestersJoin(now.returned, next.returned, |mid.returned|);
  }

  /** The waits at the end are the second part. */
  lemma Finished(t: Target, before: Log, mid: Log, now: Log, puts: seq<Put>, s: seq<Act>,
                 waits: nat, begun: nat, all: nat)
    requires OnTrack(t, before, mid, puts, puts, s, s)
    requires Trail(mid, now, waits, begun) && waits <= begun <= all
    ensures OnTrack(t, before, now, puts, puts, s + Waits(waits), s + Waits(all))
    ensures s + Waits(begun) <= s + Waits(all)
  {
    hide PacketsOf, Waits, Number, RequestersFrom, Marks, Repeat;
    WaitsGrow(waits, all);
    WaitsGrow(begun, all);
    NumberWaits(s, waits);
    RequestersJoin(mid.returned, now.returned, |before.returned|);
  }

  lemma WaitedToTheEnd(t: Target, before: Log, mid: Log, now: Log, puts: seq<Put>, s: seq<Act>, waits: nat, begun: nat)
    requires OnTrack(t, before, mid, puts, puts, s, s) && Waited(before, mid, s) && Trail(mid, now, waits, begun)
    ensures Waited(before, now, s + Waits(begun))
  {
    hide Waits, Number, RequestersFrom, Marks, Repeat;
    MarksWaits(s, begun, |before.posted|);
    assert |mid.posted| == |before.posted| + Number(s, Post);
  }

  lemma Closed(t: Target, before: Log, mid: Log, now: Log, r: Written, puts: seq<Put>, last: int, postpone: int,
               waits: nat, begun: nat)
    requires last == Int32(postpone - 1) && Trail(mid, now, waits, begun)
    requires var s := Sends(|puts|, last); OnTrack(t, before, mid, puts, puts, s, s) && Waited(before, mid, s)
    requires match r
      case Done => waits == begun == LeftOpen(|puts|, last)
      case Failed(o) => waits + 1 == begun <= LeftOpen(|puts|, last) && !o.Found?
      case Aborted => false
    ensures var trace := Sends(|puts|, last) + Waits(waits); var script := Script(|puts|, postpone);
      && OnTrack(t, before, now, puts, puts, trace, script) && Ends(r, puts, puts, trace, script)
      && Waited(before, now, Tried(r, trace))
  {
    var s, all := Sends(|puts|, last), LeftOpen(|puts|, last);
    assert Script(|puts|, postpone) == s + Waits(all);
    hide OnTrack, Waited, Trail, Script, Sends, LeftOpen, Int32, Waits, Tried;
    Finished(t, before, mid, now, puts, s, waits, begun, all);
    WaitedToTheEnd(t, before, mid, now, puts, s, waits, begun);
    OneMoreWait(r, s, waits);
  }

  lemma OneMoreWait(r: Written, s: seq<Act>, waits: nat)
    ensures Tried(r, s + Waits(waits)) == s + Waits(if r.Failed? then waits + 1 else waits)
    ensures s + Waits(waits) + [Wait] == s + Waits(waits + 1)
  {
    assert s + Waits(waits) + [] == s + Waits(waits);
  }

  /**
   However a write ends, no more than max(1, postpone) of its puts were ever open at once,
   under the exact condition under which that holds of a whole write.
   */
  lemma WindowKept(t: Target, before: Log, now: Log, sent: seq<Put>, puts: seq<Put>, trace: seq<Act>, postpone: int)
    requires OnTrack(t, before, now, sent, puts, trace, Script(|puts|, postpone)) && IsInt(postpone)
    ensures postpone > INT_MIN || |puts| <= 1 ==> Bounded(trace, Allowed(postpone))
    ensures trace == Script(|puts|, postpone) && Bounded(trace, Allowed(postpone)) ==> postpone > INT_MIN || |puts| <= 1
  {
    var script := Script(|puts|, postpone);
    OpenPuts(|puts|, postpone);
    if Bounded(script, Allowed(postpone)) {
      forall n | 0 <= n <= |trace| ensures 0 <= Open(trace[..n]) <= Allowed(postpone) {
        assert trace[..n] == script[..n];
      }
    }
  }

  /**
   A write that returns normally has received as many requester notifications as it has
   posted puts, and what it has posted carries every byte of the array to its place exactly
   if each count fits its field and the last offset fits 32 bits.
   */
  lemma WriteCompletes(t: Target, before: Log, now: Log, length: nat, packetSize: int, postpone: int)
    requires var puts := Puts(length, packetSize); var script := Script(|puts|, postpone);
      OnTrack(t, before, now, puts, puts, script, script)
    requires length <= INT_MAX && 4 <= packetSize <= INT_MAX && IsInt(postpone) && Addressable(t, 4 * length)
    ensures |now.returned| - |before.returned| == |now.posted| - |before.posted|
    ensures before.posted <= now.posted
    ensures (forall k :: 0 <= k < 4 * length ==> Delivers(now.posted[|before.posted|..], t, k))
       <==> Countable(length, packetSize) && LastOffset(length, packetSize) <= INT_MAX
  {
    var puts := Puts(length, packetSize);
    ScriptOrder(|puts|, postpone);
    Delivered(t, length, packetSize);
    assert now.posted[|before.posted|..] == PacketsOf(t, puts);
  }

  class RmaConnection {
    const rma: Rma
    const page: nat
    const header: nat

    constructor (rma: Rma, page: nat, header: nat)
      ensures this.rma == rma && this.page == page && this.header == header
    {
      this.rma, this.page, this.header := rma, page, header;
    }

    /** All that a write may change. */
    ghost function Cells(): set<object> {
      {rma, rma.port.queue, rma.port.queue.queue, rma.port.flow, rma.port.flow.packetBuffer}
    }

    /** Posts one put; the library asserts that it is not empty. */
    method PostPut(t: Target, p: Put)
      requires rma.Valid() && rma.port.flow.Room(1) && p.size != 0
      modifies rma.port.flow, rma.port.flow.packetBuffer
      ensures rma.Valid() && rma.port.flow.replayMode == old(rma.port.flow.replayMode)
      ensures old(rma.port.flow.lib.acked) <= rma.port.flow.lib.acked
      ensures rma.port.flow.lib.posted == old(rma.port.flow.lib.posted) + [PacketOf(t, p)]
    {
      DrainTests(rma.port.flow.Now());
      rma.port.flow.PostDescriptor(t.page, Words(t, p));
    }

    /** One turn of the loop: a put, and from packet number `last` on the wait for a notification. */
    method SendOne(t: Target, p: Put, wait: bool) returns (r: Written, ghost trace: seq<Act>)
      requires rma.Valid() && rma.port.flow.Room(1)
      modifies Cells()
      ensures rma.Valid() && rma.port.flow.replayMode == old(rma.port.flow.replayMode)
      ensures old(rma.port.flow.lib.acked) <= rma.port.flow.lib.acked
      ensures old(rma.returned) <= rma.returned && RequestersFrom(rma.returned, |old(rma.returned)|)
      ensures rma.port.flow.lib.posted == old(rma.port.flow.lib.posted) + if r.Aborted? then [] else [PacketOf(t, p)]
      ensures |rma.returned| == |old(rma.returned)| + if wait && r.Done? then 1 else 0
      ensures rma.calls == old(rma.calls) + if wait && !r.Aborted? then [|rma.port.flow.lib.posted|] else []
      ensures r.Aborted? <==> p.size == 0
      ensures r.Failed? ==> wait && !r.wait.Found? && rma.Explained(Requester, r.wait)
      ensures trace == match r
        case Aborted => []
        case Failed(_) => [Post]
        case Done => [Post] + if wait then [Wait] else []
    {
      hide Rma.Valid, PacketOf, Rma.Explained;
      if p.size == 0 {
        return Aborted, [];
      }
      PostPut(t, p);
      r, trace := Done, [Post];
      if wait {
        var o := WaitOnce();
        if o.Found? {
          trace := trace + [Wait];
        } else {
          r := Failed(o);
        }
      }
    }

    /** The wait for a requester notification; how long it may take is up to the clock. */
    method WaitOnce() returns (o: Outcome)
      requires rma.Valid()
      modifies rma, rma.port.queue, rma.port.queue.queue
      modifies rma.port.flow
      ensures rma.Valid() && rma.port.flow.replayMode == old(rma.port.flow.replayMode)
      ensures rma.port.flow.lib.posted == old(rma.port.flow.lib.posted)
      ensures old(rma.port.flow.lib.acked) <= rma.port.flow.lib.acked
      ensures rma.calls == old(rma.calls) + [|rma.port.flow.lib.posted|]
      ensures old(rma.returned) <= rma.returned && RequestersFrom(rma.returned, |old(rma.returned)|)
      ensures |rma.returned| == |old(rma.returned)| + if o.Found? then 1 else 0
      ensures !o.Found? ==> rma.Explained(Requester, o)
    {
      hide Rma.Valid, Rma.Explained, Rma.Searched;
      var patience: nat := *;
      o := rma.WaitForNotification(Requester, patience);
    }

    ghost function Now(): Log
      reads rma, rma.port.flow
    {
      Log(rma.port.flow.lib.posted, rma.returned, rma.calls)
    }

    /** The loop has come to packet i: everything is as the first i turns of the script leave it. */
    ghost predicate At(i: nat, seen: int, t: Target, before: Log, puts: seq<Put>, last: int)
      reads Cells()
    {
      && rma.Valid() && i <= |puts| && rma.port.flow.Room(|puts| - i)
      && OnTrack(t, before, Now(), puts[..i], puts, Sends(i, last), Sends(|puts|, last))
      && Waited(before, Now(), Sends(i, last))
      && seen == |rma.returned| - |before.returned|
    }

    /** The write, or a part of it that follows `script`, has ended with r. */
    ghost predicate Ended(r: Written, sent: seq<Put>, trace: seq<Act>,
                          t: Target, before: Log, puts: seq<Put>, script: seq<Act>)
      reads Cells()
    {
      && rma.Valid() && OnTrack(t, before, Now(), sent, puts, trace, script) && Ends(r, sent, puts, trace, script)
      && Waited(before, Now(), Tried(r, trace)) && (r.Failed? ==> rma.Explained(Requester, r.wait))
    }

    /** Turn number i of the loop, with the account of what has happened. */
    method Turn(i: nat, seen: nat, p: Put, t: Target, last: int, ghost before: Log, ghost puts: seq<Put>)
      returns (r: Written, seen': nat, ghost sent: seq<Put>, ghost trace: seq<Act>)
      requires At(i, seen, t, before, puts, last) && i < |puts| && p == puts[i]
      modifies Cells()
      ensures r.Done? ==> At(i + 1, seen', t, before, puts, last)
      ensures !r.Done? ==> Ended(r, sent, trace, t, before, puts, Sends(|puts|, last))
    {
      hide Rma.Valid, OnTrack, Waited, Sends, PacketOf, PacketsOf, Rma.Explained;
      ghost var now := Now();
      ghost var step;
      seen' := seen;
      r, step := SendOne(t, p, i >= last);
      if r.Aborted? {
        sent, trace := puts[..i], Sends(i, last);
        assert Now() == now && Tried(r, trace) == trace;
        NextPost(i, |puts|, last);
        return;
      }
      WaitedGoes(t, before, now, Now(), i, puts, last);
      sent, trace := puts[..i + 1], Sends(i, last) + step;
      if r.Failed? {
        OnTrackFails(t, before, now, Now(), i, puts, last);
        return;
      }
      OnTrackGoes(t, before, now, Now(), i, puts, last);
      if i >= last {
        seen' := seen + 1;
      }
    }

    /** The loop over `total` packets has come to packet i. */
    ghost predicate Looping(i: nat, seen: int, t: Target, length: nat, ints: int, total: int, last: int,
                            before: Log, puts: seq<Put>)
      reads Cells()
    {
      At(i, seen, t, before, puts, last) && Cut(puts, length, ints, total)
    }

    /** The body of the loop. */
    method NextPut(i: nat, seen: nat, t: Target, length: nat, ints: int, total: int, last: int,
                  ghost before: Log, ghost puts: seq<Put>)
      returns (r: Written, seen': nat, ghost sent: seq<Put>, ghost trace: seq<Act>)
      requires Looping(i, seen, t, length, ints, total, last, before, puts) && i < total
      modifies Cells()
      ensures r.Done? ==> Looping(i + 1, seen', t, length, ints, total, last, before, puts)
      ensures !r.Done? ==> Ended(r, sent, trace, t, before, puts, Sends(|puts|, last))
    {
      hide At, Ended, PutAt, Sends;
      r, seen', sent, trace := Turn(i, seen, PutAt(i, ints, length), t, last, before, puts);
    }

    /** The loop over the packets. */
    method SendAll(t: Target, length: nat, ints: int, total: int, last: int, ghost before: Log, ghost puts: seq<Put>)
      returns (r: Written, seen: nat, ghost sent: seq<Put>, ghost trace: seq<Act>)
      requires Looping(0, 0, t, length, ints, total, last, before, puts)
      modifies Cells()
      ensures Ended(r, sent, trace, t, before, puts, Sends(|puts|, last))
      ensures r.Done? ==> seen == |rma.returned| - |before.returned|
    {
      hide *;
      var i: nat := 0;
      seen := 0;
      while i < total
        invariant Looping(i, seen, t, length, ints, total, last, before, puts)
      {
        r, seen, sent, trace := NextPut(i, seen, t, length, ints, total, last, before, puts);
        if !r.Done? {
          return;
        }
        i := i + 1;
      }
      r, sent, trace := Done, puts, Sends(|puts|, last);
      Arrived(i, seen, t, length, ints, total, last, before, puts);
    }

    lemma Arrived(i: nat, seen: int, t: Target, length: nat, ints: int, total: int, last: int,
                  before: Log, puts: seq<Put>)
      requires Looping(i, seen, t, length, ints, total, last, before, puts) && i >= total
      ensures Ended(Done, puts, Sends(|puts|, last), t, before, puts, Sends(|puts|, last))
      ensures seen == |rma.returned| - |before.returned|
    {
      assert i == |puts| && puts[..i] == puts;
      assert Tried(Done, Sends(i, last)) == Sends(i, last);
    }

    /** One of the waits that the loop has left. */
    method AwaitOne(ghost mid: Log, ghost waits: nat) returns (o: Outcome)
      requires rma.Valid() && Trail(mid, Now(), waits, waits)
      modifies rma, rma.port.queue, rma.port.queue.queue
      modifies rma.port.flow
      ensures rma.Valid() && Trail(mid, Now(), if o.Found? then waits + 1 else waits, waits + 1)
      ensures !o.Found? ==> rma.Explained(Requester, o)
    {
      hide Rma.Valid, Rma.Explained, Trail;
      ghost var now := Now();
      o := WaitOnce();
      TrailNext(mid, now, Now(), waits, o.Found?);
    }

    /** The waits that the loop has left. */
    method AwaitRest(n: int) returns (r: Written, ghost waits: nat, ghost begun: nat)
      requires rma.Valid()
      modifies rma, rma.port.queue, rma.port.queue.queue
      modifies rma.port.flow
      ensures rma.Valid() && Trail(old(Now()), Now(), waits, begun)
      ensures match r
        case Done => waits == begun == if n > 0 then n else 0
        case Failed(o) => waits + 1 == begun <= n && !o.Found? && rma.Explained(Requester, o)
        case Aborted => false
    {
      hide *;
      ghost var mid := Now();
      var i := 1;
      TrailStart(mid);
      while i <= n
        invariant i >= 1 && rma.Valid() && Trail(mid, Now(), i - 1, i - 1) && (i <= n + 1 || i == 1)
      {
        var o := AwaitOne(mid, i - 1);
        if !o.Found? {
          return Failed(o), i - 1, i;
        }
        i := i + 1;
      }
      return Done, i - 1, i - 1;
    }

    /**
     Writes an array of `length` integers at address `source` to `target`. If the call
     returns normally, exactly the puts of the array have been posted, in order, and for
     each one notification has come back; puts and waits have alternated as the script says.
     However it ends, what it has posted and awaited is a first part of that. It fails only
     at a wait of the script, and with what explains the outcome of that wait.
     */
    method WriteBlocking(length: nat, source: nat, target: nat, packetSize: int, postpone: int)
      returns (r: Written, ghost sent: seq<Put>, ghost trace: seq<Act>)
      requires rma.Valid() && rma.port.flow.Room(|Puts(length, packetSize)|)
      modifies Cells()
      ensures rma.Valid()
      ensures var t := Target(page, header, source, target); var puts := Puts(length, packetSize);
        var script := Script(|puts|, postpone);
        && OnTrack(t, old(Now()), Now(), sent, puts, trace, script) && Ends(r, sent, puts, trace, script)
        && Waited(old(Now()), Now(), Tried(r, trace))
      ensures r.Failed? ==> rma.Explained(Requester, r.wait)
    {
      var t := Target(page, header, source, target);
      var ints := IntsPerPacket(packetSize);
      var total := TotalPackets(length, ints);
      var last := Int32(postpone - 1);
      ghost var puts := Puts(length, packetSize);
      ghost var before := Now();
      OnTrackStart(t, before, puts, last);
      hide Rma.Valid, Rma.Explained, PutAt, TotalPackets, IntsPerPacket, Int32, RequestersFrom, Waited;
      var seen;
      r, seen, sent, trace := SendAll(t, length, ints, total, last, before, puts);
      ghost var mid := Now();
      if !r.Done? {
        Unfinished(t, before, mid, r, sent, puts, trace, last, postpone);
        return;
      }
      SendsNumber(|puts|, last);
      assert Tried(r, trace) == trace;
      hide Sends, Waits, Script, Number, Ends, OnTrack, Tried, Trail, Puts;
      ghost var waits, begun;
      r, waits, begun := AwaitRest(total - seen);
      trace := trace + Waits(waits);
      Closed(t, before, mid, Now(), r, puts, last, postpone, waits, begun);
    }
  }
}
