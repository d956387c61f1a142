/**
 The Scala connection layer: one ring of notifications, demultiplexed into a queue for
 each notification type. A notification of another type than the awaited one is kept
 for the call that will ask for it.
 */
module Demultiplexer {
  import opened MachineWords
  import opened NotificationRing
  import opened NotificationQueue
  import opened Ports

  datatype Kind = Requester | Responder | Completer

  /** A notification object; `serial` says which of the device's notifications it stands for. */
  datatype RmaNotification = RmaNotification(kind: Kind, serial: nat)

  datatype Option<T> = None | Some(value: T)

  /** The library's type field, bits 48 to 50 of the second word; the other five values match no case. */
  function KindOf(n: Noti): Option<Kind> {
    match n.word1 / 0x1_0000_0000_0000 % 8
    case 1 => Some(Requester)
    case 2 => Some(Responder)
    case 4 => Some(Completer)
    case _ => None
  }

  /** The type is the three bits above the low 48, whatever is above and below them. */
  lemma TypeField(word0: nat, high: nat, code: nat, low: nat)
    requires code < 8 && low < 0x1_0000_0000_0000
    ensures KindOf(Noti(word0, high * 0x8_0000_0000_0000 + code * 0x1_0000_0000_0000 + low)) ==
      if code == 1 then Some(Requester)
      else if code == 2 then Some(Responder)
      else if code == 4 then Some(Completer)
      else None
  {
    var word1 := high * 0x8_0000_0000_0000 + code * 0x1_0000_0000_0000 + low;
    assert word1 / 0x1_0000_0000_0000 == high * 8 + code;
    Remainder(high * 8 + code, 8, high, code);
  }

  /** The capacity of a LinkedBlockingQueue without a bound of its own. */
  const CAPACITY := 0x7fff_ffff

  datatype Outcome =
    | Found(notification: RmaNotification)
    | TimedOut
    | Unmatched        // no case for the type: the notification stays where it is
    | Full(kind: Kind) // the queue of another type is full: the notification is gone

  // ---------------------------------------------------------- type-filtered streams

  /** The notifications of one type among `ns`, whose serials start at `base`. */
  function Pick(ns: seq<Noti>, base: nat, t: Kind): seq<RmaNotification> {
    if ns == [] then []
    else
      var n := |ns| - 1;
      Pick(ns[..n], base, t) + if KindOf(ns[n]) == Some(t) then [RmaNotification(t, base + n)] else []
  }

  function Of(s: seq<RmaNotification>, t: Kind): seq<RmaNotification> {
    if s == [] then []
    else
      var n := |s| - 1;
      Of(s[..n], t) + if s[n].kind == t then [s[n]] else []
  }

  lemma PickNext(ns: seq<Noti>, base: nat, t: Kind, x: Noti)
    ensures Pick(ns + [x], base, t) ==
      Pick(ns, base, t) + if KindOf(x) == Some(t) then [RmaNotification(t, base + |ns|)] else []
  {
  }

  lemma OfNext(s: seq<RmaNotification>, t: Kind, x: RmaNotification)
    ensures Of(s + [x], t) == Of(s, t) + if x.kind == t then [x] else []
  {
  }

  lemma {:induction false} PickSplits(a: seq<Noti>, b: seq<Noti>, base: nat, t: Kind)
    ensures Pick(a + b, base, t) == Pick(a, base, t) + Pick(b, base + |a|, t)
    decreases |b|
  {
    if b == [] {
      assert a + b == a;
    } else {
      var n := |b| - 1;
      PickSplits(a, b[..n], base, t);
      PickNext(a + b[..n], base, t, b[n]);
      assert a + b == a + b[..n] + [b[n]];
    }
  }

  // ------------------------------------------------------------- what is kept

  type Queues = map<Kind, seq<RmaNotification>>

  /** Type t has received, in order, what it was sent: part of it returned, the rest in its queue. */
  ghost predicate Kept(freed: seq<Noti>, returned: seq<RmaNotification>, q: Queues, broken: set<Kind>, t: Kind) {
    && t in q
    && (t !in broken ==> Of(returned, t) + q[t] == Pick(freed, 0, t))
    && forall j :: 0 <= j < |q[t]| ==> q[t][j].kind == t
  }

  ghost predicate AllKept(freed: seq<Noti>, returned: seq<RmaNotification>, q: Queues, broken: set<Kind>) {
    forall t :: Kept(freed, returned, q, broken, t)
  }

  /** The answer comes from the queue. */
  lemma PollKeeps(freed: seq<Noti>, returned: seq<RmaNotification>, q: Queues, broken: set<Kind>, k: Kind)
    requires AllKept(freed, returned, q, broken) && k in q && q[k] != []
    ensures AllKept(freed, returned + [q[k][0]], q[k := q[k][1..]], broken)
  {
    var q' := q[k := q[k][1..]];
    forall t ensures Kept(freed, returned + [q[k][0]], q', broken, t) {
      assert Kept(freed, returned, q, broken, t) && Kept(freed, returned, q, broken, k);
      OfNext(returned, t, q[k][0]);
      assert q[k] == [q[k][0]] + q[k][1..];
    }
  }

  /** The answer comes straight off the ring; nothing of its type may be waiting in the queue. */
  lemma ReturnKeeps(freed: seq<Noti>, returned: seq<RmaNotification>, q: Queues, broken: set<Kind>, k: Kind, head: Noti)
    requires AllKept(freed, returned, q, broken) && KindOf(head) == Some(k) && k in q && q[k] == []
    ensures AllKept(freed + [head], returned + [RmaNotification(k, |freed|)], q, broken)
  {
    forall t ensures Kept(freed + [head], returned + [RmaNotification(k, |freed|)], q, broken, t) {
      assert Kept(freed, returned, q, broken, t);
      PickNext(freed, 0, t, head);
      OfNext(returned, t, RmaNotification(k, |freed|));
    }
  }

  /** It is of another type, and joins that queue. */
  lemma OfferKeeps(freed: seq<Noti>, returned: seq<RmaNotification>, q: Queues, broken: set<Kind>, k: Kind, head: Noti)
    requires AllKept(freed, returned, q, broken) && KindOf(head) == Some(k) && k in q
    ensures AllKept(freed + [head], returned, q[k := q[k] + [RmaNotification(k, |freed|)]], broken)
  {
    var q' := q[k := q[k] + [RmaNotification(k, |freed|)]];
    forall t ensures Kept(freed + [head], returned, q', broken, t) {
      assert Kept(freed, returned, q, broken, t) && Kept(freed, returned, q, broken, k);
      PickNext(freed, 0, t, head);
    }
  }

  /** That queue is full: the ring has let go of it already. */
  lemma LossKeeps(freed: seq<Noti>, returned: seq<RmaNotification>, q: Queues, broken: set<Kind>, k: Kind, head: Noti)
    requires AllKept(freed, returned, q, broken) && KindOf(head) == Some(k)
    ensures AllKept(freed + [head], returned, q, broken + {k})
  {
    forall t ensures Kept(freed + [head], returned, q, broken + {k}, t) {
      assert Kept(freed, returned, q, broken, t);
      PickNext(freed, 0, t, head);
    }
  }

  /** What is returned, then the queue, then what is unread, is what was produced. */
  lemma StreamOf(r: Ring, returned: seq<RmaNotification>, q: Queues, broken: set<Kind>, t: Kind)
    requires NotificationRing.Inv(r) && AllKept(r.freed, returned, q, broken) && t !in broken
    ensures r.rp < |r.slots| && t in q
    ensures Of(returned, t) + q[t] + Pick(Scan(r.slots, r.rp, |r.slots|), |r.freed|, t) == Pick(r.produced, 0, t)
  {
    ExactlyOnce(r);
    assert Kept(r.freed, returned, q, broken, t);
    PickSplits(r.freed, Scan(r.slots, r.rp, |r.slots|), 0, t);
  }

  // ------------------------------------------------------------- what a wait may do

  /** What a wait reads and moves. */
  datatype Ledger = Ledger(produced: seq<Noti>, freed: seq<Noti>, queues: Queues, looks: nat)

  /** Since `was`, notifications of types other than t have been freed, and are kept by type, in order. */
  ghost predicate PassedOver(t: Kind, was: Ledger, freed: seq<Noti>, queues: Queues) {
    && was.freed <= freed
    && (forall j :: |was.freed| <= j < |freed| ==> KindOf(freed[j]).Some? && KindOf(freed[j]) != Some(t))
    && forall k: Kind ::
         k in was.queues && k in queues
         && queues[k] == was.queues[k] + Pick(freed[|was.freed|..], |was.freed|, k)
  }

  /** What the answer of a wait for type t says of the ring and of the queues. */
  ghost predicate Answered(t: Kind, r: Outcome, was: Ledger, now: Ledger) {
    && was.produced <= now.produced && now.freed <= now.produced
    && match r
       case Found(n) =>
         && |was.freed| < |now.freed|
         && var i := |now.freed| - 1;
            && PassedOver(t, was, now.freed[..i], now.queues)
            && KindOf(now.freed[i]) == Some(t) && n == RmaNotification(t, i)
       case TimedOut =>
         PassedOver(t, was, now.freed, now.queues) && now.freed == now.produced
       case Unmatched =>
         && PassedOver(t, was, now.freed, now.queues)
         && |now.freed| < |now.produced| && KindOf(now.produced[|now.freed|]) == None
       case Full(k) =>
         && |was.freed| < |now.freed|
         && var i := |now.freed| - 1;
            && PassedOver(t, was, now.freed[..i], now.queues)
            && KindOf(now.freed[i]) == Some(k) && k != t
            && k in now.queues && |now.queues[k]| >= 0x7fff_ffff
  }

  /** How often a wait has found the ring empty: every other look takes something off, or ends it. */
  function Empties(r: Outcome, was: Ledger, now: Ledger): int {
    now.looks - was.looks - (|now.freed| - |was.freed|) - if r.Unmatched? then 1 else 0
  }

  /**
   Notification number i is the oldest unread one of type t. A wait that comes to it returns
   it: the call cannot time out, and anything else it answers is about an older notification.
   */
  lemma OldestIsReturned(t: Kind, r: Outcome, was: Ledger, now: Ledger, i: nat)
    requires Answered(t, r, was, now) && |was.freed| <= i < |now.produced|
    requires KindOf(now.produced[i]) == Some(t)
    requires forall j :: |was.freed| <= j < i ==> KindOf(now.produced[j]) != Some(t)
    ensures match r
      case Found(n) => n == RmaNotification(t, i) && |now.freed| == i + 1
      case TimedOut => false
      case Unmatched => |now.freed| < i && KindOf(now.produced[|now.freed|]) == None
      case Full(k) => 0 < |now.freed| <= i && KindOf(now.produced[|now.freed| - 1]) == Some(k) && k != t
  {
    var n := |now.freed|;
    assert forall j :: 0 <= j < n ==> now.freed[j] == now.produced[j];
    if r.Found? || r.Full? {
      assert forall j :: 0 <= j < n - 1 ==> now.freed[..n - 1][j] == now.freed[j];
    }
  }

  /** With nothing of an older or an unknown type before it, the next notification in the ring is the answer. */
  lemma NextIsReturned(t: Kind, r: Outcome, was: Ledger, now: Ledger)
    requires Answered(t, r, was, now) && was.freed <= was.produced && |was.freed| < |was.produced|
    requires KindOf(was.produced[|was.freed|]) == Some(t)
    ensures r == Found(RmaNotification(t, |was.freed|)) && now.freed == was.freed + [was.produced[|was.freed|]]
  {
    var i := |was.freed|;
    assert now.produced[i] == was.produced[i];
    OldestIsReturned(t, r, was, now, i);
    if r.Found? {
      assert now.freed[..i] == was.freed;
      assert now.freed == now.freed[..i] + [now.freed[i]];
    }
  }

  /** What becomes of the notification `head` at the read pointer when type t is awaited. */
  ghost predicate Handled(t: Kind, head: Noti, r: Option<Outcome>, freed: seq<Noti>, q: Queues,
                          freed': seq<Noti>, q': Queues)
  {
    match KindOf(head)
    case None => r == Some(Unmatched) && freed' == freed && q' == q
    case Some(k) =>
      && freed' == freed + [head] && k in q
      && if k == t then r == Some(Found(RmaNotification(t, |freed|))) && q' == q
         else if |q[k]| < 0x7fff_ffff then r == None && q' == q[k := q[k] + [RmaNotification(k, |freed|)]]
         else r == Some(Full(k)) && q' == q
  }

  lemma PassedNothing(t: Kind, was: Ledger)
    requires forall k: Kind :: k in was.queues
    ensures PassedOver(t, was, was.freed, was.queues)
  {
    assert was.freed[|was.freed|..] == [];
  }

  /** One more notification of another type. */
  lemma PassedNext(t: Kind, was: Ledger, freed: seq<Noti>, q: Queues, head: Noti, k: Kind)
    requires PassedOver(t, was, freed, q) && KindOf(head) == Some(k) && k != t && k in q
    ensures PassedOver(t, was, freed + [head], q[k := q[k] + [RmaNotification(k, |freed|)]])
  {
    var n := |was.freed|;
    assert (freed + [head])[n..] == freed[n..] + [head];
    forall k': Kind {
      PickNext(freed[n..], n, k', head);
    }
    hide Pick, KindOf;
  }

  /** A notification of another type leads on, any other ends the wait. */
  lemma AfterTurn(t: Kind, was: Ledger, mid: Ledger, now: Ledger, head: Noti, r: Option<Outcome>)
    requires PassedOver(t, was, mid.freed, mid.queues) && was.produced <= now.produced
    requires |mid.freed| < |now.produced| && head == now.produced[|mid.freed|] && now.freed <= now.produced
    requires Handled(t, head, r, mid.freed, mid.queues, now.freed, now.queues)
    ensures r == None ==> PassedOver(t, was, now.freed, now.queues)
    ensures r.Some? ==> Answered(t, r.value, was, now) && !r.value.TimedOut?
  {
    match KindOf(head)
    case None =>
    case Some(k) =>
      assert now.freed[..|mid.freed|] == mid.freed;
      if r == None {
        PassedNext(t, was, mid.freed, mid.queues, head, k);
      }
      hide Pick, KindOf;
  }

  class Rma {
    const port: Port
    var notifications: Queues
    var taken: nat                             // notifications taken off the ring so far
    ghost var returned: seq<RmaNotification>   // everything the calls have returned
    ghost var calls: seq<nat>                  // how many packets had been posted at each wait
    ghost var broken: set<Kind>                // types that have lost a notification

    ghost predicate Valid()
      reads this, port.queue, port.queue.queue, port.flow, port.flow.packetBuffer
    {
      && port.Valid() && taken == |port.queue.freed|
      && AllKept(port.queue.freed, returned, notifications, broken)
    }

    constructor (port: Port)
      requires port.Valid() && port.queue.freed == []
      ensures Valid() && this.port == port && returned == [] && broken == {} && calls == []
    {
      this.port := port;
      notifications := map[Requester := [], Responder := [], Completer := []];
      taken, returned, broken, calls := 0, [], {}, [];
      new;
      forall t ensures Kept([], [], notifications, {}, t) {
        assert t == Requester || t == Responder || t == Completer;
      }
    }

    /**
     Per type, what was returned, then the queue of that type, then what of that type is
     unread in the ring, is what the device has produced of it, in order.
     */
    lemma PerTypeFifo(t: Kind)
      requires Valid() && t !in broken
      ensures t in notifications && port.queue.rp < port.queue.queue.Length
      ensures Of(returned, t) + notifications[t]
          + Pick(Scan(port.queue.queue[..], port.queue.rp, port.queue.queue.Length), taken, t)
        == Pick(port.queue.produced, 0, t)
    {
      StreamOf(port.queue.Now(), returned, notifications, broken, t);
    }

    lemma HasQueue(t: Kind)
      requires AllKept(port.queue.freed, returned, notifications, broken)
      ensures t in notifications && forall j :: 0 <= j < |notifications[t]| ==> notifications[t][j].kind == t
    {
      assert Kept(port.queue.freed, returned, notifications, broken, t);
    }

    ghost function Now(): Ledger
      reads this, port.queue
    {
      Ledger(port.queue.produced, port.queue.freed, notifications, port.queue.looks)
    }

    /** A notification that an earlier call kept is returned first, without a look at the ring. */
    method Poll(t: Kind) returns (n: RmaNotification)
      requires Valid() && t in notifications && notifications[t] != []
      modifies `notifications, `returned
      ensures Valid() && returned == old(returned) + [n] && n.kind == t
      ensures notifications == old(notifications)[t := old(notifications)[t][1..]] && n == old(notifications)[t][0]
    {
      HasQueue(t);
      n := notifications[t][0];
      PollKeeps(port.queue.freed, returned, notifications, broken, t);
      hide AllKept, Port.Valid;
      notifications := notifications[t := notifications[t][1..]];
      returned := returned + [n];
    }

    /** The free of the notification at the read pointer. */
    method TakeOff()
      requires port.Valid() && port.queue.Unread() && taken == |port.queue.freed|
      modifies `taken
      modifies port.queue`rp, port.queue`rpBak, port.queue`rpWb, port.queue`published, port.queue`freed
      modifies port.queue.queue
      ensures port.Valid() && taken == |port.queue.freed| == old(taken) + 1
      ensures port.queue.freed == old(port.queue.freed) + [old(port.queue.produced[|port.queue.freed|])]
    {
      hide NotificationRing.Inv;
      var _ := port.queue.Free(port.queue.rp);
      taken := taken + 1;
    }

    /** What a call that is about to answer r adds to the history. */
    twostate predicate Noted(r: Option<Outcome>)
      reads this, port.flow
    {
      && returned == old(returned) + (if r.Some? && r.value.Found? then [r.value.notification] else [])
      && broken == old(broken) + (if r.Some? && r.value.Full? then {r.value.kind} else {})
    }

    /** What becomes of a notification of type k, just taken off, for a call that awaits type t. */
    method File(t: Kind, k: Kind, ghost freed: seq<Noti>, ghost head: Noti) returns (r: Option<Outcome>)
      requires port.Valid() && taken == |port.queue.freed|
      requires port.queue.freed == freed + [head] && KindOf(head) == Some(k)
      requires AllKept(freed, returned, notifications, broken)
      requires t in notifications && k in notifications && notifications[t] == []
      modifies `notifications, `returned, `broken
      ensures Valid() && t in notifications && notifications[t] == []
      ensures Handled(t, head, r, freed, old(notifications), port.queue.freed, notifications)
      ensures Noted(r)
    {
      var n := RmaNotification(k, taken - 1);
      if k == t {
        ReturnKeeps(freed, returned, notifications, broken, k, head);
        hide AllKept, Port.Valid;
        returned := returned + [n];
        r := Some(Found(n));
      } else if |notifications[k]| < CAPACITY {
        OfferKeeps(freed, returned, notifications, broken, k, head);
        hide AllKept, Port.Valid;
        notifications := notifications[k := notifications[k] + [n]];
        r := None;
      } else {
        LossKeeps(freed, returned, notifications, broken, k, head);
        hide AllKept, Port.Valid;
        broken := broken + {k};
        r := Some(Full(k));
      }
    }

    /** Takes the notification at the read pointer off the ring: it is the answer, or is kept for another call. */
    method Take(t: Kind) returns (r: Option<Outcome>)
      requires Valid() && port.queue.Unread() && t in notifications && notifications[t] == []
      requires port.queue.rp < port.queue.queue.Length
      requires port.queue.queue[port.queue.rp] == port.queue.produced[|port.queue.freed|]
      modifies `notifications, `returned, `taken, `broken
      modifies port.queue`rp, port.queue`rpBak, port.queue`rpWb, port.queue`published, port.queue`freed
      modifies port.queue.queue
      ensures Valid() && t in notifications && notifications[t] == []
      ensures Handled(t, old(port.queue.produced[|port.queue.freed|]), r, old(port.queue.freed), old(notifications),
                      port.queue.freed, notifications)
      ensures Noted(r)
    {
      var head := port.queue.queue[port.queue.rp];
      match KindOf(head)
      case None =>
        r := Some(Unmatched);
      case Some(k) =>
        HasQueue(k);
        hide Port.Valid, AllKept;
        ghost var freed := port.queue.freed;
        TakeOff();
        r := File(t, k, freed, head);
    }

    /** A look at the ring that finds nothing means that nothing of type t is left anywhere. */
    lemma NothingLeft(t: Kind)
      requires Valid() && t in notifications && notifications[t] == [] && !port.queue.Unread()
      ensures t !in broken ==> Of(returned, t) == Pick(port.queue.produced, 0, t)
    {
      assert Kept(port.queue.freed, returned, notifications, broken, t);
      assert port.queue.freed == port.queue.produced;
    }

    /**
     How things stand while type t is awaited: the ring has been looked at once for each
     notification taken and `waited` times in vain, and only then has the flow control been served.
     */
    ghost predicate Awaiting(t: Kind, was: Ledger, before: Standing, waited: nat)
      reads this, port.queue, port.queue.queue, port.flow, port.flow.packetBuffer
    {
      && Valid() && t in notifications && notifications[t] == []
      && PassedOver(t, was, port.queue.freed, notifications) && was.produced <= port.queue.produced
      && port.queue.looks == was.looks + (|port.queue.freed| - |was.freed|) + waited
      && Served(before, waited)
    }

    /** What a wait does to the port besides taking notifications. */
    ghost predicate Served(before: Standing, empties: int)
      reads port.queue, port.flow
    {
      && port.flow.lib.posted == before.posted && before.acked <= port.flow.lib.acked
      && port.queue.produced + port.queue.pending == before.produced + before.pending
      && if empties > 0 && port.flow.replayMode.noti then port.flow.dev.committed == port.flow.lib.posted
         else port.flow.run == before.run && port.flow.dev == before.dev
    }

    /** What holds of the ring and the queues after a wait for type t that returned nothing. */
    ghost predicate Explained(t: Kind, o: Outcome)
      reads this, port.queue
    {
      match o
      case Found(_) => false
      case TimedOut => !port.queue.Unread() && (t !in broken ==> Of(returned, t) == Pick(port.queue.produced, 0, t))
      case Unmatched => port.queue.Unread() && KindOf(port.queue.produced[|port.queue.freed|]) == None
      case Full(k) =>
        && k in broken && k != t && k in notifications && |notifications[k]| >= 0x7fff_ffff
        && |port.queue.freed| > 0 && KindOf(port.queue.freed[|port.queue.freed| - 1]) == Some(k)
    }

    /** What a wait for type t that began at `was` and `before` has come to. */
    ghost predicate Searched(t: Kind, r: Outcome, patience: nat, was: Ledger, before: Standing)
      reads this, port.queue, port.flow
    {
      && Answered(t, r, was, Now())
      && (r.Found? || Explained(t, r)) && port.queue.looks > was.looks
      && var empties := Empties(r, was, Now());
         && Served(before, empties)
         && if r.TimedOut? then empties == patience + 1 else 0 <= empties <= patience
    }

    /** One look at the ring, and what follows from it. */
    method Turn(t: Kind, waited: nat, patience: nat, ghost was: Ledger, ghost before: Standing)
      returns (waited': nat, r: Option<Outcome>)
      requires Awaiting(t, was, before, waited) && waited <= patience
      modifies `notifications, `returned, `taken, `broken, port.queue, port.queue.queue
      modifies port.flow`dev, port.flow`lib, port.flow`run, port.flow`trips, port.flow`stall, port.flow`drops,
        port.flow`stores, port.flow`wire, port.flow`retriedPacketCount, port.flow`committedCount, port.flow`rounds
      ensures r == None ==> Awaiting(t, was, before, waited') && waited <= waited' <= patience
      ensures r == None ==> |port.queue.freed| + waited' == |old(port.queue.freed)| + waited + 1
      ensures r == None ==> |old(port.queue.freed)| <= |port.queue.freed| <= |before.produced| + |before.pending|
      ensures r.Some? ==> Valid() && Searched(t, r.value, patience, was, before)
      ensures Noted(r)
    {
      hide Port.Valid, AllKept, KindOf, Pick, PassedOver, Answered, Explained, Searched;
      waited', r := waited, None;
      var found := port.NotiProbe();
      ghost var mid := Now();
      Within();
      if found {
        r := Take(t);
        Within();
        AfterTurn(t, was, mid, Now(), mid.produced[|mid.freed|], r);
        if r.Some? {
          Ended(t, r.value, patience, was, before, waited);
        }
      } else if waited == patience {
        GivenUp(t, was, before, patience);
        r := Some(TimedOut);
      } else {
        waited' := waited + 1;
      }
    }

    lemma Ended(t: Kind, r: Outcome, patience: nat, was: Ledger, before: Standing, waited: nat)
      requires Answered(t, r, was, Now()) && Served(before, waited) && waited <= patience
      requires !r.TimedOut? && Empties(r, was, Now()) == waited && (r.Full? ==> r.kind in broken)
      ensures Searched(t, r, patience, was, before)
    {
    }

    lemma Within()
      requires port.Valid()
      ensures port.queue.freed <= port.queue.produced
    {
    }

    /** The search of the ring, after a look at the own queue that found nothing. */
    method Search(t: Kind, patience: nat) returns (r: Outcome)
      requires Valid() && t in notifications && notifications[t] == []
      modifies `notifications, `returned, `taken, `broken, port.queue, port.queue.queue
      modifies port.flow`dev, port.flow`lib, port.flow`run, port.flow`trips, port.flow`stall, port.flow`drops,
        port.flow`stores, port.flow`wire, port.flow`retriedPacketCount, port.flow`committedCount, port.flow`rounds
      ensures Valid() && Noted(Some(r)) && Searched(t, r, patience, old(Now()), old(port.Now()))
    {
      ghost var was, before := Now(), port.Now();
      Begin(t, was, before);
      hide Valid, Awaiting, Searched, Port.Valid, AllKept, Port.Now, Now;
      var waited: nat := 0;
      var o := None;
      while o == None
        invariant o == None ==> Awaiting(t, was, before, waited) && waited <= patience
        invariant o.Some? ==> Valid() && Searched(t, o.value, patience, was, before)
        invariant Noted(o)
        decreases o == None, |before.produced| + |before.pending| - |port.queue.freed|, patience - waited
      {
        waited, o := Turn(t, waited, patience, was, before);
      }
      r := o.value;
    }

    /**
     Returns the next notification of type t: one that an earlier call kept, or else the
     oldest unread one in the ring. `patience` is how many times the ring may be found empty
     before the clock has passed the limit. If the call times out, everything of that type
     that the device ever delivered had been returned already. The flow control is served,
     if the mode asks for it, exactly when the ring was found empty.
     */
    method WaitForNotification(t: Kind, patience: nat) returns (r: Outcome)
      requires Valid()
      modifies `notifications, `returned, `taken, `broken, `calls, port.queue, port.queue.queue
      modifies port.flow`dev, port.flow`lib, port.flow`run, port.flow`trips, port.flow`stall, port.flow`drops,
        port.flow`stores, port.flow`wire, port.flow`retriedPacketCount, port.flow`committedCount, port.flow`rounds
      ensures Valid() && Noted(Some(r)) && calls == old(calls) + [|port.flow.lib.posted|]
      ensures t in old(notifications)
      ensures old(notifications)[t] != [] ==>
        && r == Found(old(notifications)[t][0])
        && Now() == old(Now()).(queues := old(notifications)[t := old(notifications)[t][1..]])
        && port.Now() == old(port.Now())
      ensures old(notifications)[t] == [] ==> Searched(t, r, patience, old(Now()), old(port.Now()))
      ensures r.Found? ==> r.notification.kind == t
      ensures !r.Found? ==> Explained(t, r)
      ensures port.flow.lib.posted == old(port.flow.lib.posted) && old(port.flow.lib.acked) <= port.flow.lib.acked
      ensures port.queue.produced + port.queue.pending == old(port.queue.produced + port.queue.pending)
    {
      HasQueue(t);
      hide AllKept, Port.Valid, Served, Answered, Empties, Explained;
      calls := calls + [|port.flow.lib.posted|];
      if notifications[t] != [] {
        var n := Poll(t);
        return Found(n);
      }
      r := Search(t, patience);
      Answer(t, r, patience, old(Now()), old(port.Now()));
    }

    lemma Begin(t: Kind, was: Ledger, before: Standing)
      requires Valid() && was == Now() && before == port.Now() && t in notifications && notifications[t] == []
      ensures Awaiting(t, was, before, 0)
    {
      forall k: Kind ensures k in notifications { HasQueue(k); }
      PassedNothing(t, was);
    }

    lemma GivenUp(t: Kind, was: Ledger, before: Standing, patience: nat)
      requires Awaiting(t, was, before, patience + 1) && !port.queue.Unread()
      ensures Valid() && Searched(t, TimedOut, patience, was, before)
    {
      Within();
      NothingLeft(t);
    }

    lemma Answer(t: Kind, r: Outcome, patience: nat, was: Ledger, before: Standing)
      requires Searched(t, r, patience, was, before)
      ensures r.Found? ==> r.notification.kind == t
      ensures !r.Found? ==> Explained(t, r)
      ensures port.flow.lib.posted == before.posted && before.acked <= port.flow.lib.acked
      ensures port.queue.produced + port.queue.pending == before.produced + before.pending
    {
    }
  }
}
