/**
 A port as the notification calls see it: the notification queue, and the flow control
 that these calls serve on the side when the mode asks for it.
 */
module Ports {
  import opened NotificationRing
  import opened NotificationQueue
  import opened ReplayProtocol
  import opened ReplayBuffer

  /** What is known when a wait begins. */
  datatype Standing = Standing(
    posted: seq<Packet>, acked: nat, produced: seq<Noti>, pending: seq<Noti>, run: seq<State>, dev: Device)

  class Port {
    const queue: NotiQueue
    const flow: Endpoint

    ghost predicate Valid()
      reads queue, queue.queue, flow, flow.packetBuffer
    {
      queue.Valid() && flow.Valid() && flow.lib.phase == Calm && flow.stores == []
    }

    constructor (queue: NotiQueue, flow: Endpoint)
      requires queue.Valid() && flow.Valid() && flow.lib.phase == Calm && flow.stores == []
      ensures Valid() && this.queue == queue && this.flow == flow
    {
      this.queue, this.flow := queue, flow;
    }

    /** Something will be there to be read: it is unread already, or the device can deliver it. */
    ghost predicate Awaited()
      reads queue, queue.queue
    {
      queue.Unread() || (queue.pending != [] && (queue.Coming() || (queue.Valid() && !Starves(queue.size))))
    }

    /** Brings the committed count up to date if the mode asks for it while software looks for notifications. */
    method DrainIfAsked()
      requires Valid()
      modifies flow`dev, flow`lib, flow`run, flow`trips, flow`stall, flow`drops, flow`stores, flow`wire,
        flow`retriedPacketCount, flow`committedCount, flow`rounds
      ensures Valid() && flow.lib.posted == old(flow.lib.posted) && old(flow.lib.acked) <= flow.lib.acked
      ensures flow.replayMode.noti ==> flow.dev.committed == flow.lib.posted
      ensures !flow.replayMode.noti ==> flow.run == old(flow.run) && flow.dev == old(flow.dev)
    {
      if flow.replayMode.noti {
        flow.Drain(false);
      }
    }

    /** Looks for a notification; without one, and if the mode says so, drains the replay buffer. */
    method NotiProbe() returns (found: bool)
      requires Valid()
      modifies queue`pending, queue`produced, queue`stall, queue`looks, queue.queue
      modifies flow`dev, flow`lib, flow`run, flow`trips, flow`stall, flow`drops, flow`stores, flow`wire,
        flow`retriedPacketCount, flow`committedCount, flow`rounds
      ensures Valid() && flow.lib.posted == old(flow.lib.posted) && old(flow.lib.acked) <= flow.lib.acked
      ensures queue.produced + queue.pending == old(queue.produced + queue.pending)
      ensures old(queue.produced) <= queue.produced
      ensures queue.looks == old(queue.looks) + 1
      ensures found <==> queue.Unread()
      ensures found ==> queue.rp < queue.queue.Length && queue.queue[queue.rp] == queue.produced[|queue.freed|]
      ensures found || !flow.replayMode.noti ==> flow.run == old(flow.run) && flow.dev == old(flow.dev)
      ensures !found && flow.replayMode.noti ==> flow.dev.committed == flow.lib.posted
    {
      hide ReplayProtocol.Inv, IsRun, Low8, Shows;
      found := queue.Test();
      if !found {
        DrainIfAsked();
      }
    }

    /** One read of the slot, and before it, on every second stretch of 4096 reads, the drain. */
    method WaitTurn(i: nat) returns (there: bool)
      requires Valid()
      modifies queue`pending, queue`produced, queue`stall, queue`looks, queue.queue
      modifies flow`dev, flow`lib, flow`run, flow`trips, flow`stall, flow`drops, flow`stores, flow`wire,
        flow`retriedPacketCount, flow`committedCount, flow`rounds
      ensures Valid() && flow.lib.posted == old(flow.lib.posted) && old(flow.lib.acked) <= flow.lib.acked
      ensures queue.produced + queue.pending == old(queue.produced + queue.pending)
      ensures old(queue.produced) <= queue.produced
      ensures queue.looks == old(queue.looks) + 1
      ensures if i / 0x1000 % 2 != 0 && flow.replayMode.noti then flow.dev.committed == flow.lib.posted
              else flow.run == old(flow.run) && flow.dev == old(flow.dev)
      ensures there <==> queue.Unread()
      ensures there ==> queue.rp < queue.queue.Length && queue.queue[queue.rp] == queue.produced[|queue.freed|]
      ensures old(queue.Coming()) && !there ==> queue.Coming() && queue.stall < old(queue.stall)
      ensures queue.stall <= old(queue.stall)
    {
      hide ReplayProtocol.Inv, IsRun, Low8, Shows;
      if i / 0x1000 % 2 != 0 {
        DrainIfAsked();
      }
      there := queue.Test();
    }

    /** The state a wait is compared with afterwards. */
    ghost function Now(): Standing
      reads queue, flow
    {
      Standing(flow.lib.posted, flow.lib.acked, queue.produced, queue.pending, flow.run, flow.dev)
    }

    /**
     A wait that began at `before` has read the slot `n` times: something is there, or may come.
     The first 4096 reads leave the flow control alone. If the mode asks for it, everything
     posted is committed after more.
     */
    ghost predicate Waited(n: nat, there: bool, before: Standing)
      reads queue, queue.queue, flow, flow.packetBuffer
    {
      && Valid()
      && flow.lib.posted == before.posted && before.acked <= flow.lib.acked
      && queue.produced + queue.pending == before.produced + before.pending && before.produced <= queue.produced
      && (if there then
            queue.Unread() && queue.rp < queue.queue.Length && queue.queue[queue.rp] == queue.produced[|queue.freed|]
          else queue.Coming())
      && if n > 0x1000 && flow.replayMode.noti then flow.dev.committed == flow.lib.posted
         else flow.run == before.run && flow.dev == before.dev
    }

    /** Read number n of a wait, counted from 0. */
    method WaitOn(n: nat, ghost before: Standing) returns (there: bool)
      requires if n == 0 then Valid() && Now() == before && Awaited() else Waited(n, false, before)
      modifies queue`pending, queue`produced, queue`stall, queue`looks, queue.queue
      modifies flow`dev, flow`lib, flow`run, flow`trips, flow`stall, flow`drops, flow`stores, flow`wire,
        flow`retriedPacketCount, flow`committedCount, flow`rounds
      ensures Waited(n + 1, there, before) && queue.looks == old(queue.looks) + 1
      ensures queue.stall <= old(queue.stall) && (n > 0 && !there ==> queue.stall < old(queue.stall))
    {
      hide ReplayProtocol.Inv, IsRun, Low8, Shows;
      assert queue.Unread() || queue.Coming();
      there := WaitTurn(n);
    }

    lemma WaitEnded(n: nat, before: Standing)
      requires Waited(n, true, before)
      ensures Valid() && flow.lib.posted == before.posted && before.acked <= flow.lib.acked
      ensures queue.produced + queue.pending == before.produced + before.pending && before.produced <= queue.produced
      ensures queue.Unread()
      ensures queue.rp < queue.queue.Length && queue.queue[queue.rp] == queue.produced[|queue.freed|]
      ensures if n > 0x1000 && flow.replayMode.noti then flow.dev.committed == flow.lib.posted
              else flow.run == before.run && flow.dev == before.dev
    {
    }

    /**
     Waits for a notification. It returns whenever one is unread or still to come. If the
     mode asks for it, a wait of more than 4096 reads leaves everything posted committed;
     a shorter wait does not touch the flow control.
     */
    method NotiGetBlock()
      requires Valid() && Awaited()
      modifies queue`pending, queue`produced, queue`stall, queue`looks, queue.queue
      modifies flow`dev, flow`lib, flow`run, flow`trips, flow`stall, flow`drops, flow`stores, flow`wire,
        flow`retriedPacketCount, flow`committedCount, flow`rounds
      ensures Valid() && flow.lib.posted == old(flow.lib.posted) && old(flow.lib.acked) <= flow.lib.acked
      ensures queue.produced + queue.pending == old(queue.produced + queue.pending)
      ensures old(queue.produced) <= queue.produced
      ensures queue.Unread()
      ensures queue.rp < queue.queue.Length && queue.queue[queue.rp] == queue.produced[|queue.freed|]
      ensures if flow.replayMode.noti && queue.looks - old(queue.looks) > 0x1000
              then flow.dev.committed == flow.lib.posted
              else flow.run == old(flow.run) && flow.dev == old(flow.dev)
    {
      hide Valid, Waited, Awaited, NotiQueue.Coming;
      ghost var before := Now();
      var i: nat := 0;
      var there := WaitOn(i, before);
      while !there
        invariant Waited(i + 1, there, before) && queue.looks == old(queue.looks) + i + 1
        decreases queue.stall, !there
      {
        i := i + 1;
        there := WaitOn(i, before);
      }
      assert Waited(i + 1, true, before) && i + 1 == queue.looks - old(queue.looks);
      WaitEnded(i + 1, before);
    }
  }
}
