/**
 The notification queue in the imperative form of the library: an array in memory that
 the device shares, a read pointer, and the word through which it is published.
 */
module NotificationQueue {
  import opened NotificationRing
  import opened MachineWords

  class NotiQueue {
    const queue: array<Noti>
    const size: nat
    var rp: nat
    var rpBak: nat
    var rpWb: nat

    // The other side of the memory: what the device will still deliver, how many reads
    // pass before it moves although it could, and what it knows to be consumed.
    var pending: seq<Noti>
    var stall: nat
    var produced: seq<Noti>
    var published: nat

    // History.
    ghost var freed: seq<Noti>
    ghost var looks: nat       // reads of the word that tells whether something is there

    ghost function Now(): Ring
      reads this, queue
    {
      Ring(queue[..], rp, rpBak, rpWb, produced, freed, published)
    }

    ghost predicate Valid()
      reads this, queue
    {
      && size == queue.Length && Inv(Now())
      && (forall j :: 0 <= j < |pending| ==> pending[j].word1 != 0)
      && (!Starves(size) ==> OnTime(Now()))
    }

    /** Something unread is there. */
    ghost predicate Unread()
      reads this
    {
      |freed| < |produced|
    }

    /** The device has something to deliver and may. */
    ghost predicate Coming()
      reads this
    {
      pending != [] && |produced| < published + size
    }

    /** A ring of `size` empty entries; `future` is what the device will deliver, in that order. */
    constructor (size: nat, future: seq<Noti>, stall: nat)
      requires 0 < size < WORD && forall j :: 0 <= j < |future| ==> future[j].word1 != 0
      ensures Valid() && Init(Now()) && fresh(queue) && this.size == size
      ensures pending == future && this.stall == stall
    {
      queue := new Noti[size](_ => Noti(0, 0));
      this.size := size;
      rp, rpBak, rpWb := 0, 0, 0;
      pending, this.stall, produced, published, freed, looks := future, stall, [], 0, [], 0;
      new;
      StartsOnTime(Now());
    }

    /** The device delivers the next notification. */
    method DeviceDelivers()
      requires Valid() && Coming()
      modifies `pending, `produced, queue
      ensures Valid() && Now() == Deliver(old(Now()), old(pending[0]))
      ensures produced + pending == old(produced + pending) && |produced| == |old(produced)| + 1
    {
      ghost var was := Now();
      var x := pending[0];
      DeliverKeeps(was, x);
      queue[|produced| % size] := x;
      produced, pending := produced + [x], pending[1..];
      assert Now().slots == Deliver(was, x).slots;
    }

    /**
     Time passes: the device delivers any number of notifications. If it could deliver and
     does not, that uses up some of its finite stalling.
     */
    method DeviceRuns()
      requires Valid()
      modifies `pending, `produced, `stall, queue
      ensures Valid() && produced + pending == old(produced + pending) && old(produced) <= produced
      ensures old(Coming()) ==> |old(produced)| < |produced| || stall < old(stall)
      ensures stall <= old(stall)
    {
      if pending != [] && |produced| < published + size {
        if stall > 0 {
          stall := stall - 1;
        } else {
          DeviceDelivers();
        }
      }
      var more: nat := *;
      while more > 0 && pending != [] && |produced| < published + size
        invariant Valid() && produced + pending == old(produced + pending) && old(produced) <= produced
        invariant old(Coming()) ==> |old(produced)| < |produced| || stall < old(stall)
        invariant stall <= old(stall)
      {
        DeviceDelivers();
        more := more - 1;
      }
    }

    /** Reads the second word at the read pointer: nonzero exactly if something is unread. */
    method Test() returns (there: bool)
      requires Valid()
      modifies `pending, `produced, `stall, `looks, queue
      ensures looks == old(looks) + 1
      ensures Valid() && produced + pending == old(produced + pending) && old(produced) <= produced
      ensures there <==> Unread()
      ensures there ==> rp < queue.Length && queue[rp] == produced[|freed|]
      ensures old(Coming()) && !there ==> Coming() && stall < old(stall)
      ensures stall <= old(stall)
    {
      DeviceRuns();
      ExactlyOnce(Now());
      there := queue[rp].word1 != 0;
      looks := looks + 1;
      assert there ==> queue[Slot(|freed|, size)] == produced[|freed|];
    }

    /**
     Frees the notification in slot `index`, which has to be the one at the read pointer: any
     other aborts. Nothing checks that a notification is there. If none is, the read pointer
     moves all the same, and the queue is no longer valid.
     */
    method Free(index: nat) returns (aborted: bool)
      requires Valid()
      modifies `rp, `rpBak, `rpWb, `published, `freed, queue
      ensures aborted <==> index != old(rp)
      ensures aborted ==> Valid() && Now() == old(Now())
      ensures !aborted && old(Unread()) ==>
        Valid() && Now() == Consume(old(Now())) && freed == old(freed) + [old(produced)[|old(freed)|]]
      ensures !aborted && !old(Unread()) ==> Now() == Consume(old(Now())).(published := published)
    {
      if index != rp {
        return true;
      }
      ghost var was := Now();
      if Unread() {
        FreeFacts(was);
        PublishAdvances(was);
      }
      assert Slot(|freed|, size) == rp;
      MovePointer();
      aborted := false;
    }

    /** The effect of a free on the memory and on the pointers. */
    method MovePointer()
      requires size == queue.Length && rp < size
      modifies `rp, `rpBak, `rpWb, `published, `freed, queue
      ensures Now() == Consume(old(Now())).(published := published)
      ensures var rp' := (old(rp) + 1) % size;
        published == old(published) + if Publishes(old(rpBak), rp', size) then (rp' - old(rpBak)) % size else 0
    {
      ghost var was := Now();
      freed := freed + [queue[rp]];
      queue[rp] := queue[rp].(word1 := 0);
      rp := (rp + 1) % size;
      if (rpBak - rp) % WORD % size > LAZYNESS {
        rpWb := rp;
        published := published + (rp - rpBak) % size;  // the device sees its pointer move
        rpBak := rp;
      }
      assert queue[..] == Consume(was).slots;
    }
  }
}
