/**
 The notification ring of an endpoint: the device appends, the library consumes.

 A slot is empty when its second word is zero, so neither side compares pointers to tell
 an empty ring from a full one. The library publishes its read pointer to the device
 through a memory word, in 32-bit arithmetic and not necessarily at every free.
 Assumed of the device: a notification appears in one piece and with a nonzero second
 word, and the device never runs more than a ring's size ahead of what was published.
 */
module NotificationRing {
  import opened MachineWords

  const LAZYNESS := 32

  datatype Noti = Noti(word0: nat, word1: nat)

  /**
   `produced` and `freed` are everything ever delivered and everything ever consumed;
   `published` is how much of it the device knows to be consumed.
   */
  datatype Ring = Ring(slots: seq<Noti>, rp: nat, rpBak: nat, rpWb: nat,
                       produced: seq<Noti>, freed: seq<Noti>, published: nat)

  function Slot(j: nat, size: nat): (s: nat)
    requires size > 0
    ensures s < size
  {
    j % size
  }

  /** The slots as they must be: what is unread stands in order from the read pointer on, the rest is empty. */
  ghost predicate Shows(slots: seq<Noti>, n: nat, produced: seq<Noti>)
    requires |slots| > 0
  {
    forall j :: n <= j < n + |slots| ==>
      if j < |produced| then slots[Slot(j, |slots|)] == produced[j] else slots[Slot(j, |slots|)].word1 == 0
  }

  ghost predicate Inv(r: Ring) {
    && 0 < |r.slots| < WORD
    && r.published <= |r.freed| <= |r.produced| <= r.published + |r.slots|
    && r.freed == r.produced[..|r.freed|]
    && r.rp == Slot(|r.freed|, |r.slots|)
    && r.rpBak == r.rpWb == Slot(r.published, |r.slots|)
    && (forall j :: 0 <= j < |r.produced| ==> r.produced[j].word1 != 0)
    && Shows(r.slots, |r.freed|, r.produced)
  }

  ghost predicate Init(r: Ring) {
    && 0 < |r.slots| < WORD
    && (forall k :: 0 <= k < |r.slots| ==> r.slots[k].word1 == 0)
    && r == Ring(r.slots, 0, 0, 0, [], [], 0)
  }

  /** How far the device's idea of the read pointer is behind. */
  function Lag(r: Ring): int { |r.freed| - r.published }

  // ------------------------------------------------------------------- steps

  predicate Room(r: Ring) {
    |r.produced| < r.published + |r.slots|
  }

  /** The device writes a notification at its own write pointer. */
  function Deliver(r: Ring, x: Noti): Ring
    requires |r.slots| > 0
  {
    r.(slots := r.slots[Slot(|r.produced|, |r.slots|) := x], produced := r.produced + [x])
  }

  /** The test on the published pointer, in unsigned 32-bit arithmetic. */
  predicate Publishes(rpBak: nat, rp: nat, size: nat)
    requires size > 0
  {
    (rpBak - rp) % WORD % size > LAZYNESS
  }

  /** The library frees the notification at the read pointer. */
  function Consume(r: Ring): Ring
    requires r.rp < |r.slots|
  {
    var rp := (r.rp + 1) % |r.slots|;
    var c := r.(slots := r.slots[r.rp := r.slots[r.rp].(word1 := 0)], rp := rp, freed := r.freed + [r.slots[r.rp]]);
    if Publishes(r.rpBak, rp, |r.slots|) then c.(rpBak := rp, rpWb := rp, published := |c.freed|) else c
  }

  datatype Event = Delivered(x: Noti) | Consumed

  ghost predicate Enabled(r: Ring, e: Event) {
    match e
    case Delivered(x) => |r.slots| > 0 && Room(r) && x.word1 != 0
    case Consumed => r.rp < |r.slots| && r.slots[r.rp].word1 != 0
  }

  function Apply(r: Ring, e: Event): Ring
    requires match e case Delivered(_) => |r.slots| > 0 case Consumed => r.rp < |r.slots|
  {
    match e
    case Delivered(x) => Deliver(r, x)
    case Consumed => Consume(r)
  }

  /** A run of the ring under any interleaving of the two sides. */
  ghost predicate Run(r: Ring, events: seq<Event>, r': Ring)
    decreases |events|
  {
    if events == [] then r' == r
    else Enabled(r, events[0]) && Run(Apply(r, events[0]), events[1..], r')
  }

  // ------------------------------------------------------- modular arithmetic

  lemma SlotNext(n: nat, size: nat)
    requires size > 0
    ensures (Slot(n, size) + 1) % size == Slot(n + 1, size)
    ensures Slot(n + 1, size) == if Slot(n, size) + 1 < size then Slot(n, size) + 1 else 0
  {
    var q, s := n / size, n % size;
    if s + 1 < size {
      Remainder(n + 1, size, q, s + 1);
    } else {
      assert (q + 1) * size == q * size + size;
      Remainder(n + 1, size, q + 1, 0);
      Remainder(size, size, 1, 0);
    }
  }

  /** Positions less than a ring apart have different slots. */
  lemma SlotsApart(i: nat, j: nat, size: nat)
    requires size > 0 && i < j < i + size
    ensures Slot(i, size) != Slot(j, size)
  {
    var q, s := i / size, i % size + (j - i);
    if s < size {
      Remainder(j, size, q, s);
    } else {
      assert (q + 1) * size == q * size + size;
      Remainder(j, size, q + 1, s - size);
    }
  }

  /** A ring further on, the slot is the same. */
  lemma SlotAgain(n: nat, size: nat)
    requires size > 0
    ensures Slot(n + size, size) == Slot(n, size)
  {
    assert (n / size + 1) * size == n / size * size + size;
    Remainder(n + size, size, n / size + 1, n % size);
  }

  // --------------------------------------------------------------- invariant

  lemma InitInv(r: Ring)
    requires Init(r)
    ensures Inv(r)
  {
  }

  lemma DeliverKeeps(r: Ring, x: Noti)
    requires Inv(r) && Room(r) && x.word1 != 0
    ensures Inv(Deliver(r, x))
  {
    var c := Deliver(r, x);
    var n, m, size := |r.freed|, |r.produced|, |r.slots|;
    forall j | n <= j < n + size
      ensures if j < |c.produced| then c.slots[Slot(j, size)] == c.produced[j] else c.slots[Slot(j, size)].word1 == 0
    {
      if j < m {
        SlotsApart(j, m, size);
      } else if m < j {
        SlotsApart(m, j, size);
      }
    }
  }

  lemma ConsumeKeeps(r: Ring)
    requires Inv(r) && r.rp < |r.slots| && r.slots[r.rp].word1 != 0
    ensures Inv(Consume(r)) && Consume(r).freed == r.produced[..|r.freed| + 1]
  {
    var c := Consume(r);
    var n, size := |r.freed|, |r.slots|;
    assert Slot(n, size) == r.rp && n < |r.produced| && r.slots[r.rp] == r.produced[n];
    SlotNext(n, size);
    forall j | n + 1 <= j < n + 1 + size
      ensures if j < |c.produced| then c.slots[Slot(j, size)] == c.produced[j] else c.slots[Slot(j, size)].word1 == 0
    {
      if j == n + size {
        SlotAgain(n, size);
      } else {
        SlotsApart(n, j, size);
      }
    }
  }

  lemma StepKeeps(r: Ring, e: Event)
    requires Inv(r) && Enabled(r, e)
    ensures Inv(Apply(r, e))
  {
    match e
    case Delivered(x) => DeliverKeeps(r, x);
    case Consumed => ConsumeKeeps(r);
  }

  lemma {:induction false} RunKeeps(r: Ring, events: seq<Event>, r': Ring)
    requires Inv(r) && Run(r, events, r')
    ensures Inv(r')
    decreases |events|
  {
    if events != [] {
      StepKeeps(r, events[0]);
      RunKeeps(Apply(r, events[0]), events[1..], r');
    }
  }

  // ------------------------------------------------------- FIFO, exactly once

  /** What memory alone shows: the entries from slot `at` on, up to the first empty one, at most `limit`. */
  function Scan(slots: seq<Noti>, at: nat, limit: nat): seq<Noti>
    requires at < |slots|
    decreases limit
  {
    if limit == 0 || slots[at].word1 == 0 then []
    else [slots[at]] + Scan(slots, (at + 1) % |slots|, limit - 1)
  }

  lemma {:induction false} ScanIsTail(r: Ring, j: nat)
    requires Inv(r) && |r.freed| <= j <= |r.produced|
    ensures Scan(r.slots, Slot(j, |r.slots|), |r.freed| + |r.slots| - j) == r.produced[j..]
    decreases |r.produced| - j
  {
    var size := |r.slots|;
    if j < |r.produced| {
      assert r.slots[Slot(j, size)] == r.produced[j];
      ScanIsTail(r, j + 1);
      SlotNext(j, size);
    } else if j < |r.freed| + size {
      assert r.slots[Slot(j, size)].word1 == 0;
    }
  }

  /** What was consumed, followed by what stands in the ring, is what was produced. */
  lemma ExactlyOnce(r: Ring)
    requires Inv(r)
    ensures r.freed + Scan(r.slots, r.rp, |r.slots|) == r.produced
    ensures r.slots[r.rp].word1 != 0 <==> |r.freed| < |r.produced|
  {
    ScanIsTail(r, |r.freed|);
    assert r.slots[Slot(|r.freed|, |r.slots|)] == r.slots[r.rp];
  }

  /** In every run, for every size. */
  lemma RunIsFifo(r: Ring, events: seq<Event>, r': Ring)
    requires Init(r) && Run(r, events, r')
    ensures r'.rp < |r'.slots| && r'.freed + Scan(r'.slots, r'.rp, |r'.slots|) == r'.produced
    ensures r'.slots[r'.rp].word1 != 0 <==> |r'.freed| < |r'.produced|
  {
    RunKeeps(r, events, r');
    ExactlyOnce(r');
  }

  // ------------------------------------------------- publishing the read pointer

  /** 2^32 - 1 modulo the size: it decides how late the read pointer may be published. */
  function Rest(size: nat): (c: nat)
    requires size > 0
    ensures c < size
  {
    (WORD - 1) % size
  }

  lemma SlotAhead(p: nat, k: nat, size: nat)
    requires k < size
    ensures Slot(p + k, size) == if Slot(p, size) + k < size then Slot(p, size) + k else Slot(p, size) + k - size
  {
    var q, s := p / size, p % size;
    if s + k < size {
      Remainder(p + k, size, q, s + k);
    } else {
      assert (q + 1) * size == q * size + size;
      Remainder(p + k, size, q + 1, s + k - size);
    }
  }

  /** How far a pointer that moved by less than a ring has come. */
  lemma Advance(p: nat, k: nat, size: nat)
    requires 0 < k <= size
    ensures k < size ==> (Slot(p + k, size) - Slot(p, size)) % size == k
  {
    if k < size {
      SlotAhead(p, k, size);
      Remainder(Slot(p + k, size) - Slot(p, size), size, if Slot(p, size) + k < size then 0 else -1, k);
    }
  }

  lemma Underflow(k: nat, size: nat)
    requires 0 < k <= size < WORD
    ensures (0 - k) % WORD % size == if k <= Rest(size) + 1 then Rest(size) + 1 - k else Rest(size) + 1 - k + size
  {
    var q := (WORD - 1) / size;
    Remainder(0 - k, WORD, -1, WORD - k);
    if k <= Rest(size) + 1 {
      Remainder(WORD - k, size, q, Rest(size) + 1 - k);
    } else {
      assert (q - 1) * size == q * size - size;
      Remainder(WORD - k, size, q - 1, Rest(size) + 1 - k + size);
    }
  }

  /** When the test fires, k frees after the last publication. */
  lemma PublishesWhen(p: nat, k: nat, size: nat)
    requires 0 < k <= size < WORD
    ensures Publishes(Slot(p, size), Slot(p + k, size), size) <==>
      if k == size then false
      else if Slot(p, size) + k >= size then size - k > LAZYNESS
      else if k <= Rest(size) + 1 then Rest(size) + 1 - k > LAZYNESS
      else Rest(size) + 1 - k + size > LAZYNESS
  {
    if k == size {
      SlotAgain(p, size);
      Remainder(0, size, 0, 0);
    } else {
      SlotAhead(p, k, size);
      if Slot(p, size) + k < size {
        Underflow(k, size);
      } else {
        Remainder(size - k, WORD, 0, size - k);
        Remainder(size - k, size, 0, size - k);
      }
    }
  }

  /** What a free does to the lag. */
  lemma LagMoves(r: Ring)
    requires Inv(r) && |r.freed| < |r.produced|
    ensures r.rp < |r.slots| && r.slots[r.rp].word1 != 0
    ensures Lag(Consume(r)) ==
      if Publishes(Slot(r.published, |r.slots|), Slot(r.published + Lag(r) + 1, |r.slots|), |r.slots|)
      then 0 else Lag(r) + 1
  {
    assert r.slots[Slot(|r.freed|, |r.slots|)] == r.produced[|r.freed|];
    SlotNext(|r.freed|, |r.slots|);
  }

  // ---------------------------------------------------------------- starvation

  /** With a small rest, how far the read pointer moves from one publication to the next. */
  function Stride(size: nat): (n: nat)
    requires size > 0
    ensures n > 0
  {
    Rest(size) + 2
  }

  /** The last multiple of the stride inside the ring. */
  function LastStop(size: nat): (n: nat)
    requires size > 0
    ensures n < size && size <= n + Stride(size) && n % Stride(size) == 0
  {
    var q := (size - 1) / Stride(size);
    Remainder(Stride(size) * q, Stride(size), q, 0);
    Stride(size) * q
  }

  lemma StopsAtOrBelow(s: nat, size: nat)
    requires size > 0 && s % Stride(size) == 0 && s < size
    ensures s <= LastStop(size)
    ensures size <= s + Stride(size) ==> s == LastStop(size)
  {
    var n := Stride(size);
    var d := s / n - (size - 1) / n;
    assert s - LastStop(size) == d * n by {
      assert d * n == s / n * n - (size - 1) / n * n;
    }
    Multiples(d, n);
    hide LastStop;
  }

  /** Sizes for which the device is left without room although nothing is unread. */
  predicate Starves(size: nat)
    requires size > 0
  {
    Rest(size) <= LAZYNESS && LastStop(size) <= LAZYNESS
  }

  /**
   Rings of all other sizes: the read pointer is published at every free, or at every stop
   of the stride and once more at the end of the ring.
   */
  predicate OnTime(r: Ring)
    requires |r.slots| > 0
  {
    var size, s := |r.slots|, Slot(r.published, |r.slots|);
    if Rest(size) > LAZYNESS then Lag(r) == 0
    else Lag(r) <= Rest(size) + 1 && s % Stride(size) == 0 && s + Lag(r) < size
  }

  /** One free in a ring of small rest that does not starve: it publishes at a stop, or the lag grows by one. */
  lemma StrideStep(p: nat, lag: nat, size: nat)
    requires 0 < size < WORD && !Starves(size) && lag <= Rest(size) + 1 <= LAZYNESS + 1
    requires Slot(p, size) % Stride(size) == 0 && Slot(p, size) + lag < size
    ensures if Publishes(Slot(p, size), Slot(p + lag + 1, size), size) then Slot(p + lag + 1, size) % Stride(size) == 0
            else lag <= Rest(size) && Slot(p, size) + lag + 1 < size
  {
    var s, k, n := Slot(p, size), lag + 1, Stride(size);
    NextStop(s, n);
    PublishesWhen(p, k, size);
    StopsAtOrBelow(s, size);
    StopsAtOrBelow(0, size);
    if k < size {
      SlotAhead(p, k, size);
    }
    hide Publishes, Slot, LastStop, Rest;
  }

  lemma NextStop(s: nat, n: nat)
    requires n > 0 && s % n == 0
    ensures (s + n) % n == 0 && 0 % n == 0
  {
    assert (s / n + 1) * n == s / n * n + n;
    Remainder(s + n, n, s / n + 1, 0);
  }

  lemma OnTimeStays(r: Ring)
    requires Inv(r) && |r.freed| < |r.produced| && !Starves(|r.slots|) && OnTime(r)
    ensures r.rp < |r.slots| && OnTime(Consume(r))
  {
    LagMoves(r);
    if Rest(|r.slots|) <= LAZYNESS {
      StrideStep(r.published, Lag(r), |r.slots|);
    } else {
      PublishesWhen(r.published, 1, |r.slots|);
    }
    hide Inv, Publishes, Starves, Slot, Rest, LastStop, Stride;
  }

  /** What a free does, for the caller. */
  lemma FreeFacts(r: Ring)
    requires Inv(r) && |r.freed| < |r.produced|
    ensures r.rp < |r.slots| && r.slots[r.rp] == r.produced[|r.freed|] && Inv(Consume(r))
    ensures !Starves(|r.slots|) && OnTime(r) ==> OnTime(Consume(r))
  {
    assert r.slots[Slot(|r.freed|, |r.slots|)] == r.produced[|r.freed|];
    ConsumeKeeps(r);
    if !Starves(|r.slots|) && OnTime(r) {
      OnTimeStays(r);
    }
  }

  /** When a free publishes, the device sees its pointer move by just what has been freed since. */
  lemma PublishAdvances(r: Ring)
    requires Inv(r) && |r.freed| < |r.produced|
    ensures var rp := (r.rp + 1) % |r.slots|;
      Publishes(r.rpBak, rp, |r.slots|) ==> r.published + (rp - r.rpBak) % |r.slots| == |r.freed| + 1
  {
    SlotNext(|r.freed|, |r.slots|);
    PublishesWhen(r.published, Lag(r) + 1, |r.slots|);
    Advance(r.published, Lag(r) + 1, |r.slots|);
    hide Publishes, Slot;
  }

  lemma {:induction false} RunOnTime(r: Ring, events: seq<Event>, r': Ring)
    requires Inv(r) && Run(r, events, r') && !Starves(|r.slots|) && OnTime(r)
    ensures |r'.slots| == |r.slots| && OnTime(r')
    decreases |events|
  {
    if events != [] {
      StepKeeps(r, events[0]);
      if events[0].Consumed? {
        ExactlyOnce(r);
        OnTimeStays(r);
      }
      RunOnTime(Apply(r, events[0]), events[1..], r');
    }
  }

  lemma StartsOnTime(r: Ring)
    requires Init(r)
    ensures Inv(r) && OnTime(r)
  {
    InitInv(r);
    Remainder(0, Stride(|r.slots|), 0, 0);
  }

  lemma {:induction false} RunAppends(r: Ring, events: seq<Event>, m: Ring, e: Event)
    requires Run(r, events, m) && Enabled(m, e)
    ensures Run(r, events + [e], Apply(m, e))
    decreases |events|
  {
    if events == [] {
      assert (events + [e])[1..] == [];
    } else {
      RunAppends(Apply(r, events[0]), events[1..], m, e);
      assert (events + [e])[1..] == events[1..] + [e];
    }
  }

  /** The first frees of a ring whose 2^32 - 1 leaves a small rest publish nothing. */
  lemma {:induction false} FirstFrees(size: nat, k: nat) returns (r: Ring, events: seq<Event>, r': Ring)
    requires 0 < size < WORD && Rest(size) <= LAZYNESS && k <= Rest(size) + 1
    ensures Init(r) && |r.slots| == size && Run(r, events, r') && |r'.slots| == size
    ensures r'.published == 0 && |r'.freed| == |r'.produced| == k
  {
    if k == 0 {
      r, events := Ring(seq(size, _ => Noti(0, 0)), 0, 0, 0, [], [], 0), [];
      r' := r;
    } else {
      var es, m;
      r, es, m := FirstFrees(size, k - 1);
      InitInv(r);
      RunKeeps(r, es, m);
      var d := Delivered(Noti(0, 1));
      RunAppends(r, es, m, d);
      RunKeeps(r, es + [d], Apply(m, d));
      LagMoves(Apply(m, d));
      PublishesWhen(0, k, size);
      RunAppends(r, es + [d], Apply(m, d), Consumed);
      events, r' := es + [d] + [Consumed], Apply(Apply(m, d), Consumed);
    }
  }

  ghost predicate LagNeverAbove(size: nat, bound: nat) {
    forall r, events, r' :: Init(r) && |r.slots| == size && Run(r, events, r') ==> Lag(r') <= bound
  }

  /** Every free publishes at once, in every run, exactly for these sizes. */
  lemma PublishedAtOnce(size: nat)
    requires 0 < size < WORD
    ensures LagNeverAbove(size, 0) <==> Rest(size) > LAZYNESS
  {
    if Rest(size) > LAZYNESS {
      forall r, events, r' | Init(r) && |r.slots| == size && Run(r, events, r') ensures Lag(r') <= 0 {
        StartsOnTime(r);
        RunOnTime(r, events, r');
      }
    } else {
      var r, events, r' := FirstFrees(size, 1);
      assert Lag(r') == 1;
    }
  }

  /** A queue of whole 4 KB pages, which hold 256 entries each, is one of them. */
  lemma PagesPublishAtOnce(pages: nat)
    requires 0 < 256 * pages < WORD
    ensures LagNeverAbove(256 * pages, 0)
  {
    var size, q := 256 * pages, (WORD - 1) / (256 * pages);
    assert Rest(size) == WORD - 1 - q * size;
    assert q * size == 256 * (q * pages);
    Remainder(Rest(size), 256, 0x100_0000 - 1 - q * pages, 255);
    PublishedAtOnce(size);
  }

  /** In a starving ring the publications end with the last stop. */
  predicate Stalling(r: Ring)
    requires |r.slots| > 0
  {
    var size := |r.slots|;
    && r.published < size && r.published % Stride(size) == 0
    && (if size <= LAZYNESS + 1 then r.published == 0
        else r.published + Lag(r) < size ==> Lag(r) <= Rest(size) + 1)
  }

  /** One free in a starving ring: the test fires at most where the next stop is still inside the ring. */
  lemma StallStep(s: nat, lag: nat, size: nat)
    requires LAZYNESS + 1 < size < WORD && Starves(size) && lag < size
    requires s < size && s % Stride(size) == 0 && (s + lag < size ==> lag <= Rest(size) + 1)
    ensures Slot(s, size) == s
    ensures if Publishes(s, Slot(s + lag + 1, size), size)
            then s + lag + 1 < size && (s + lag + 1) % Stride(size) == 0
            else s + lag + 1 < size ==> lag <= Rest(size)
  {
    var k, n := lag + 1, Stride(size);
    Remainder(s, size, 0, s);
    PublishesWhen(s, k, size);
    StopsAtOrBelow(s, size);
    NextStop(s, n);
    hide Publishes, Slot, LastStop, Rest;
  }

  lemma StallingStays(r: Ring)
    requires Inv(r) && |r.freed| < |r.produced| && Starves(|r.slots|) && Stalling(r)
    ensures r.rp < |r.slots| && Stalling(Consume(r))
  {
    LagMoves(r);
    if |r.slots| > LAZYNESS + 1 {
      StallStep(r.published, Lag(r), |r.slots|);
    }
    hide Inv, Starves, Slot, Rest, LastStop, Stride;
  }

  /** No run of a starving ring delivers more than the last stop and one ring beyond it. */
  lemma {:induction false} RunStalls(r: Ring, events: seq<Event>, r': Ring)
    requires Inv(r) && Run(r, events, r') && Starves(|r.slots|) && Stalling(r)
    ensures |r'.slots| == |r.slots| && Stalling(r') && |r'.produced| <= LastStop(|r.slots|) + |r.slots|
    decreases |events|
  {
    if events != [] {
      StepKeeps(r, events[0]);
      if events[0].Consumed? {
        ExactlyOnce(r);
        StallingStays(r);
      }
      RunStalls(Apply(r, events[0]), events[1..], r');
    } else {
      StopsAtOrBelow(r.published, |r.slots|);
    }
  }

  /** Nothing is unread, and the device may not write: neither side can go on. */
  ghost predicate Dry(r: Ring) {
    |r.freed| == |r.produced| && !Room(r)
  }

  ghost predicate CanRunDry(size: nat) {
    exists r, events, r' :: Init(r) && |r.slots| == size && Run(r, events, r') && Dry(r')
  }

  lemma DryMeans(r: Ring)
    requires Inv(r)
    ensures Dry(r) <==> forall e :: !Enabled(r, e)
  {
    ExactlyOnce(r);
    assert |r.freed| < |r.produced| ==> Enabled(r, Consumed);
    assert Room(r) ==> Enabled(r, Delivered(Noti(0, 1)));
  }

  /** Any run of a starving ring that has read everything goes on to where neither side can move. */
  lemma {:induction false} RunsDry(r: Ring, events: seq<Event>, m: Ring) returns (events': seq<Event>, r': Ring)
    requires Init(r) && Starves(|r.slots|) && Run(r, events, m) && |m.freed| == |m.produced|
    ensures Run(r, events', r') && Dry(r') && Inv(r') && |r'.slots| == |r.slots|
    decreases LastStop(|r.slots|) + |r.slots| - |m.produced|
  {
    StartsOnTime(r);
    RunStalls(r, events, m);
    RunKeeps(r, events, m);
    if !Room(m) {
      return events, m;
    }
    var d := Delivered(Noti(0, 1));
    RunAppends(r, events, m, d);
    DeliverKeeps(m, Noti(0, 1));
    ExactlyOnce(Apply(m, d));
    RunAppends(r, events + [d], Apply(m, d), Consumed);
    var next := Apply(Apply(m, d), Consumed);
    RunStalls(r, events + [d] + [Consumed], next);
    events', r' := RunsDry(r, events + [d] + [Consumed], next);
  }

  /** Which rings can end up empty without room, for all sizes. */
  lemma StarvesExactly(size: nat)
    requires 0 < size < WORD
    ensures CanRunDry(size) <==> Starves(size)
  {
    if Starves(size) {
      var r := Ring(seq(size, _ => Noti(0, 0)), 0, 0, 0, [], [], 0);
      var events, r' := RunsDry(r, [], r);
    } else {
      forall r, events, r' | Init(r) && |r.slots| == size && Run(r, events, r') ensures !Dry(r') {
        EmptyHasRoom(r, events, r');
      }
    }
  }

  /** In all other rings the device may write whenever nothing is unread. */
  lemma EmptyHasRoom(r: Ring, events: seq<Event>, r': Ring)
    requires Init(r) && Run(r, events, r') && !Starves(|r.slots|)
    ensures Lag(r') < |r'.slots| && (|r'.produced| == |r'.freed| ==> Room(r'))
  {
    StartsOnTime(r);
    RunOnTime(r, events, r');
  }

  /** For all sizes: when the lag that RMA2_RP_LAZYNESS names is kept in every run. */
  lemma LagWithinLazyness(size: nat)
    requires 0 < size < WORD
    ensures LagNeverAbove(size, LAZYNESS) <==> size <= LAZYNESS || (!Starves(size) && Rest(size) != LAZYNESS)
    ensures !Starves(size) ==> LagNeverAbove(size, LAZYNESS + 1)
  {
    if Starves(size) {
      SmallLag(size);
      if size > LAZYNESS {
        var r := Ring(seq(size, _ => Noti(0, 0)), 0, 0, 0, [], [], 0);
        var events, r' := RunsDry(r, [], r);
        assert Lag(r') == size;
      }
    } else {
      forall r, events, r' | Init(r) && |r.slots| == size && Run(r, events, r')
        ensures Lag(r') <= if Rest(size) > LAZYNESS then 0 else Rest(size) + 1
      {
        StartsOnTime(r);
        RunOnTime(r, events, r');
      }
      if Rest(size) == LAZYNESS {
        var r, events, r' := FirstFrees(size, LAZYNESS + 1);
        assert Lag(r') == LAZYNESS + 1;
      }
    }
  }

  /** The lag is never more than a ring. */
  lemma SmallLag(size: nat)
    requires 0 < size < WORD
    ensures LagNeverAbove(size, size)
  {
    forall r, events, r' | Init(r) && |r.slots| == size && Run(r, events, r') ensures Lag(r') <= size {
      InitInv(r);
      RunKeeps(r, events, r');
      SameSize(r, events, r');
    }
  }

  lemma {:induction false} SameSize(r: Ring, events: seq<Event>, r': Ring)
    requires Run(r, events, r')
    ensures |r'.slots| == |r.slots|
    decreases |events|
  {
    if events != [] {
      SameSize(Apply(r, events[0]), events[1..], r');
    }
  }

  /**
   A free is checked against the read pointer only, not against the slot. Freeing when
   nothing is unread moves the read pointer past the slot the device writes next.
   */
  lemma FreeOfNothing(r: Ring, x: Noti)
    requires Inv(r) && |r.slots| > 1 && |r.freed| == |r.produced| && x.word1 != 0 && Room(r)
    ensures r.rp < |r.slots| && Enabled(Consume(r), Delivered(x))
    ensures var r' := Deliver(Consume(r), x);
      r'.rp < |r'.slots| && Scan(r'.slots, r'.rp, |r'.slots|) == []
      && r'.slots[r.rp] == x && r.rp != r'.rp
  {
    var n, size := |r.freed|, |r.slots|;
    SlotNext(n, size);
    assert r.slots[Slot(n + 1, size)].word1 == 0;
  }

  /** The header's figure is missed by one in a ring of 67 entries. */
  lemma OverrunAt67()
    ensures !LagNeverAbove(67, LAZYNESS) && !Starves(67)
  {
    Remainder(WORD - 1, 67, 64103989, LAZYNESS);
    LagWithinLazyness(67);
  }

  /** The condition, from the quotients of 2^32 - 1 by the size and of the size less one by the stride. */
  lemma StarvesBy(size: nat, q: nat, c: nat, m: nat, b: nat)
    requires WORD - 1 == q * size + c && c < size && size - 1 == m * (c + 2) + b && b < c + 2
    ensures Starves(size) <==> c <= LAZYNESS && m * (c + 2) <= LAZYNESS
  {
    Remainder(WORD - 1, size, q, c);
    Remainder(size - 1, c + 2, m, b);
    assert (size - 1) / (c + 2) * (c + 2) == size - 1 - b;
  }

  /** Every ring of up to 33 entries starves, none of 67 or more does, and of those between some do. */
  lemma WhoStarves(size: nat)
    requires 0 < size < WORD
    ensures size <= 33 ==> Starves(size)
    ensures size >= 67 ==> !Starves(size)
    ensures size in [34, 35, 37, 39, 45] ==> Starves(size)
  {
    StarvesBy(34, 126322567, 17, 1, 14);
    StarvesBy(35, 122713351, 10, 2, 10);
    StarvesBy(37, 116080197, 6, 4, 4);
    StarvesBy(39, 110127366, 21, 1, 15);
    StarvesBy(45, 95443717, 30, 1, 12);
    hide LastStop;
  }
}
