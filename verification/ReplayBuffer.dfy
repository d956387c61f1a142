/**
 The flow-control half of an endpoint: posting a descriptor, replaying refused
 packets and draining the replay buffer, in the imperative form of the library.

 The device is memory mapped, so the library meets it only where it reads or
 stores the state word or flushes a packet to a requester page. `Yield` lets the
 device take any number of steps and stands before each of those places. Every
 step of either side is appended to `run`, which stays a run of ReplayProtocol.
 */
module ReplayBuffer {
  import opened ReplayProtocol

  /** The three bits of RMA2_Replay_Buffer_Mode. */
  datatype ReplayMode = ReplayMode(post: bool, noti: bool, close: bool)

  const REPLAY_ALL := ReplayMode(true, true, true)

  /** Termination rank; see Endpoint.Rank. */
  datatype Progress = Progress(trips: nat, open: nat, up: nat, inflight: nat, stall: nat)

  predicate Less(a: Progress, b: Progress) {
    || a.trips < b.trips
    || (a.trips == b.trips &&
        (|| a.open < b.open
         || (a.open == b.open &&
             (|| a.up < b.up
              || (a.up == b.up &&
                  (a.inflight < b.inflight || (a.inflight == b.inflight && a.stall < b.stall)))))))
  }

  /** Resending raises only the count in flight: of the first three components none has grown. */
  predicate Settled(a: Progress, b: Progress) {
    || b.trips < a.trips
    || (b.trips == a.trips && (b.open < a.open || (b.open == a.open && b.up <= a.up)))
  }

  datatype Cell = Untouched | Holds(value: nat)

  /** What the combined stores leave in a word of a page: the value of the last store to it. */
  function CellOf(stores: seq<(nat, nat, nat)>, page: nat, word: nat): Cell {
    if stores == [] then Untouched
    else
      var n := |stores| - 1;
      if stores[n].0 == page && stores[n].1 == word then Holds(stores[n].2) else CellOf(stores[..n], page, word)
  }

  /** The stores touch one page only, and leave the three words of the packet in it. */
  predicate Carries(stores: seq<(nat, nat, nat)>, p: Packet) {
    && stores != [] && (forall j :: 0 <= j < |stores| ==> stores[j].0 == p.page)
    && CellOf(stores, p.page, 0) == Holds(p.w0)
    && CellOf(stores, p.page, 1) == Holds(p.w1)
    && CellOf(stores, p.page, 2) == Holds(p.w2)
  }

  lemma ThreeStores(stores: seq<(nat, nat, nat)>, p: Packet)
    requires |stores| == 3
    requires stores[0] == (p.page, 0, p.w0) && stores[1] == (p.page, 1, p.w1) && stores[2] == (p.page, 2, p.w2)
    ensures Carries(stores, p)
  {
    assert CellOf(stores[..2][..1], p.page, 0) == Holds(p.w0);
    assert CellOf(stores[..2], p.page, 1) == Holds(p.w1);
  }

  /** The device is quiet and has committed everything that was posted except the refused packets. */
  predicate IsRefusal(d: Device, refused: seq<Packet>, posted: seq<Packet>) {
    d.refused == refused && d.inflight == [] && d.committed + refused == posted
  }

  class Endpoint {
    const packetBuffer: array<nat>  // four words a slot: the descriptor and its requester page
    var committedCount: nat
    var packetWp: nat
    var retriedPacketCount: nat
    var replayMode: ReplayMode

    // The other side of the memory mapping.
    var dev: Device
    var stores: seq<(nat, nat, nat)>  // stores combined since the last flush

    // The device's future, as far as termination depends on it: how often it will still
    // raise the retry flag, how many polls pass before it moves again, and how many
    // stores to the state word it will still overlook. Each is finite but unknown.
    var trips: nat
    var stall: nat
    var drops: nat

    // History.
    ghost var lib: Library
    ghost var run: seq<State>
    ghost var wire: seq<Packet>       // every packet flushed to the device, resends included
    ghost var rounds: seq<nat>        // how much was acknowledged after each look at the state word and its replay

    ghost function Now(): State
      reads this
    {
      State(lib, dev)
    }

    function Slot(k: nat): Packet
      requires 4 * k + 3 < packetBuffer.Length
      reads this, packetBuffer
    {
      Packet(packetBuffer[4 * k + 3], packetBuffer[4 * k], packetBuffer[4 * k + 1], packetBuffer[4 * k + 2])
    }

    ghost predicate Valid()
      reads this, packetBuffer
    {
      && packetBuffer.Length == 4 * SLOTS
      && committedCount == lib.cc && packetWp == lib.wp
      && IsRun(run) && run[|run| - 1] == Now()
      && Inv(Now())
      && forall k :: 0 <= k < SLOTS ==> lib.ring[k] == Slot(k)
    }

    /** The next n posts overrun nothing: each makes its room, or there is room for all of them. */
    ghost predicate Room(n: nat)
      reads this
    {
      replayMode.post || |lib.posted| + n - lib.acked <= 255
    }

    ghost function Rank(): Progress
      requires |dev.committed| <= |lib.posted|
      reads this
    {
      Progress(trips, |lib.posted| - |dev.committed|, if dev.word.retry then 1 else 0, |dev.inflight|, stall)
    }

    constructor ()
      ensures Valid() && fresh(packetBuffer) && packetBuffer.Length == 1024
      ensures lib.posted == [] && wire == [] && stores == [] && lib.phase == Calm && rounds == []
      ensures retriedPacketCount == 0 && replayMode == REPLAY_ALL
    {
      packetBuffer := new nat[4 * SLOTS];
      committedCount, packetWp, retriedPacketCount := 0, 0, 0;
      replayMode := REPLAY_ALL;
      var w := StateWord(0, false, false, false, 0);
      dev, stores, wire, rounds := Device([], [], [], w), [], [], [];
      trips, stall, drops := *, *, *;
      new;
      ghost var ring := seq(SLOTS,
        k requires 0 <= k < SLOTS && packetBuffer.Length == 4 * SLOTS reads this, packetBuffer => Slot(k));
      lib := Library([], ring, 0, 0, 0, w, 0, Calm, 0, 0);
      run := [Now()];
    }

    /** Appends the present state to the run; the caller has just made one step. */
    ghost method Note()
      requires IsRun(run) && Inv(run[|run| - 1]) && Next(run[|run| - 1], Now())
      modifies `run
      ensures run == old(run) + [Now()] && IsRun(run) && Inv(Now())
    {
      NextKeepsInv(run[|run| - 1], Now());
      RunExtends(run, Now());
      run := run + [Now()];
    }

    // ---------------------------------------------------------------- device

    /** One packet is committed or refused, or the retry flag goes up. */
    method DeviceMoves()
      requires Valid() && dev.inflight != []
      modifies `dev, `run, `trips, `stall
      ensures Valid() && old(run) < run
      ensures old(dev.word.retry) ==> dev.word.retry && dev.committed == old(dev.committed)
      ensures |dev.committed| <= |lib.posted| && |old(dev.committed)| <= |lib.posted|
      ensures Less(Rank(), old(Rank()))
    {
      hide Inv, Low8;
      CountsFit(Now());
      var d := dev;
      var assembly: bool, streamout: bool, trip: bool := *, *, *;
      stall := *;
      if d.word.retry {
        streamout := if |d.inflight| == 1 then assembly else streamout;
        dev := Device(d.committed, d.refused + [d.inflight[0]], d.inflight[1..],
                      d.word.(refused := Low8(d.word.refused + 1), assembly := assembly, streamout := streamout));
        assert Refuses(d, dev);
      } else if trip && trips > 0 {
        trips := trips - 1;
        dev := d.(word := d.word.(retry := true, assembly := assembly, streamout := streamout));
        assert Trips(d, dev);
      } else {
        streamout := if |d.inflight| == 1 then assembly else streamout;
        dev := Device(d.committed + [d.inflight[0]], d.refused, d.inflight[1..],
                      d.word.(committed := Low8(d.word.committed + 1), assembly := assembly, streamout := streamout));
        assert Commits(d, dev);
      }
      Note();
      CountsFit(Now());
    }

    /**
     The device runs for a while. With nothing in flight it has nothing to do;
     otherwise it makes progress or uses up some of its finite stalling.
     */
    method Yield()
      requires Valid()
      modifies `dev, `run, `trips, `stall
      ensures Valid() && old(run) <= run
      ensures old(dev.word.retry) ==> dev.word.retry && dev.committed == old(dev.committed)
      ensures |dev.committed| <= |lib.posted| && |old(dev.committed)| <= |lib.posted|
      ensures old(dev.inflight) == [] ==> dev == old(dev) && Rank() == old(Rank())
      ensures old(dev.inflight) != [] ==> Less(Rank(), old(Rank()))
    {
      hide Inv;
      CountsFit(Now());
      if dev.inflight == [] {
        return;
      }
      ghost var before := Rank();
      var wait: bool := *;
      if wait && stall > 0 {
        stall := stall - 1;
        var assembly: bool, streamout: bool := *, *;
        ghost var d := dev;
        dev := dev.(word := dev.word.(assembly := assembly, streamout := streamout));
        assert Flickers(d, dev);
        Note();
        return;
      }
      DeviceMoves();
      var more: bool := *;
      while more && dev.inflight != []
        invariant Valid() && old(run) <= run
        invariant lib == old(lib)
        invariant old(dev.word.retry) ==> dev.word.retry && dev.committed == old(dev.committed)
        invariant |dev.committed| <= |lib.posted|
        invariant Less(Rank(), before)
        decreases trips, |lib.posted| - |dev.committed|, if dev.word.retry then 1 else 0, |dev.inflight|, stall
      {
        DeviceMoves();
        more := *;
      }
    }

    /** One store to a mapped requester page; it stays in the write-combining buffer. */
    method StoreRequester(page: nat, j: nat, value: nat)
      modifies `stores
      ensures stores == old(stores) + [(page, j, value)]
    {
      stores := stores + [(page, j, value)];
    }

    /**
     The fence pushes out the combined stores, which must by then be one whole packet. The
     device finds each word of the packet where it was stored.
     */
    method FlushWc(ghost p: Packet)
      requires Carries(stores, p)
      modifies `stores, `dev, `wire
      ensures stores == []
      ensures dev == old(dev).(inflight := old(dev.inflight) + [p])
      ensures wire == old(wire) + [p]
    {
      var page := stores[0].0;
      var q := Packet(
        page, CellOf(stores, page, 0).value, CellOf(stores, page, 1).value, CellOf(stores, page, 2).value);
      dev := dev.(inflight := dev.inflight + [q]);
      stores, wire := [], wire + [q];
    }

    /** A store to the state word at the end of the wait; the device may overlook it a few times. */
    method StoreState(w: StateWord)
      requires Valid() && lib.phase == Waiting && Low8(lib.wp - lib.cc) == lib.rc
      requires w == Cleared(lib.word)
      modifies `dev, `lib, `run, `drops
      ensures Valid() && old(run) <= run
      ensures
        || (drops < old(drops) && lib == old(lib) && dev == old(dev))
        || (&& drops == old(drops)
            && lib == old(lib).(phase := Replaying, i := Low8(lib.cc), sent := lib.acked)
            && dev == old(dev).(refused := [], word := w))
    {
      var overlooked: bool := *;
      if overlooked && drops > 0 {
        drops := drops - 1;
      } else {
        ghost var s := Now();
        dev := dev.(refused := [], word := w);
        lib := lib.(phase := Replaying, i := Low8(lib.cc), sent := lib.acked);
        assert Clears(s, Now());
        Note();
      }
    }

    // --------------------------------------------------------------- library

    /** Reads the state word once and latches both of its counters. */
    method Look() returns (state: StateWord)
      requires Valid() && (lib.phase == Calm || lib.phase == Waiting)
      modifies `dev, `lib, `run, `trips, `stall, `committedCount
      ensures Valid() && old(run) < run
      ensures state == dev.word == lib.word && lib.rc == state.refused && lib.cc == state.committed
      ensures lib.acked == |dev.committed|
      ensures lib.phase ==
              if old(lib.phase) == Waiting || (state.retry && state.refused != 0) then Waiting else Calm
      ensures lib == old(lib).(word := state, rc := lib.rc, cc := lib.cc, acked := lib.acked, phase := lib.phase)
      ensures old(lib.acked) <= lib.acked
      ensures old(dev.word.retry) ==> dev.word.retry && dev.committed == old(dev.committed)
      ensures |dev.committed| <= |lib.posted| && |old(dev.committed)| <= |lib.posted|
      ensures old(dev.inflight) == [] ==> dev == old(dev) && Rank() == old(Rank())
      ensures old(dev.inflight) != [] ==> Less(Rank(), old(Rank()))
    {
      Yield();
      state := dev.word;
      committedCount := state.committed;
      ghost var s := Now();
      lib := lib.(word := state, cc := state.committed, rc := state.refused, acked := |dev.committed|,
                  phase := if lib.phase == Waiting || (state.retry && state.refused != 0) then Waiting else Calm);
      assert Looks(s, Now());
      Note();
    }

    /** The first wait of a replay: poll until the activity bits agree; the counters are not touched. */
    method AwaitIdle(first: StateWord) returns (state: StateWord)
      requires Valid() && lib.phase == Waiting && first == lib.word
      modifies `dev, `lib, `run, `trips, `stall
      ensures Valid() && old(run) <= run
      ensures lib == old(lib).(word := state) && Idle(state)
      ensures dev.committed == old(dev.committed)
      ensures |dev.committed| <= |lib.posted| && |old(dev.committed)| <= |lib.posted|
      ensures !Less(old(Rank()), Rank())
    {
      hide Inv;
      state := first;
      CountsFit(Now());
      WaitProgress(Now());
      ghost var before := Rank();
      while state.assembly != state.streamout
        invariant Valid() && old(run) <= run
        invariant lib == old(lib).(word := state)
        invariant dev.committed == old(dev.committed) && |dev.committed| <= |lib.posted|
        invariant !Less(before, Rank()) && dev.word.retry && (dev.inflight == [] ==> Idle(dev.word))
        decreases trips, |lib.posted| - |dev.committed|, if dev.word.retry then 1 else 0, |dev.inflight|, stall,
                  if Idle(state) then 0 else 1
      {
        Yield();
        state := dev.word;
        ghost var s := Now();
        lib := lib.(word := state);
        assert Glances(s, Now());
        Note();
        WaitProgress(Now());
      }
    }

    /**
     The second wait: poll until the distance to the write pointer equals the refused
     count. At the end nothing is in flight and the refused packets are exactly the
     uncommitted ones.
     */
    method AwaitCount(first: StateWord, count: nat) returns (state: StateWord)
      requires Valid() && lib.phase == Waiting && first == lib.word && lib.rc == count
      modifies `dev, `lib, `run, `trips, `stall, `committedCount
      ensures Valid() && old(run) <= run && lib.phase == Waiting
      ensures state == lib.word && Low8(packetWp - committedCount) == lib.rc
      ensures dev.inflight == [] && dev.refused != [] && dev.word.retry
      ensures dev.committed == old(dev.committed) && |dev.committed| <= |lib.posted|
      ensures dev.refused == lib.posted[|dev.committed|..]
      ensures lib == old(lib).(word := state, rc := lib.rc, cc := lib.cc)
      ensures !Less(old(Rank()), Rank())
    {
      hide Inv;
      state := first;
      CountsFit(Now());
      WaitProgress(Now());
      ghost var before := Rank();
      var retryCount := count;
      while Low8(packetWp - committedCount) != retryCount
        invariant Valid() && old(run) <= run && lib.phase == Waiting && lib.rc == retryCount
        invariant retryCount <= |dev.refused| && dev.word.retry
        invariant lib == old(lib).(word := state, rc := lib.rc, cc := lib.cc)
        invariant dev.committed == old(dev.committed) && |dev.committed| <= |lib.posted|
        invariant !Less(before, Rank())
        decreases trips, |lib.posted| - |dev.committed|, if dev.word.retry then 1 else 0, |dev.inflight|, stall,
                  |dev.refused| - retryCount
      {
        WaitProgress(Now());
        state := Look();
        retryCount := state.refused;
        WaitProgress(Now());
        CountsFit(Now());
      }
      WaitExitIsQuiescent(Now());
      CountsFit(Now());
    }

    /** Stores the masked state word, and again for as long as the refused count still shows. */
    method ClearRetry(state: StateWord)
      requires Valid() && lib.phase == Waiting && state == lib.word && Low8(lib.wp - lib.cc) == lib.rc
      modifies `dev, `lib, `run, `drops, `trips, `stall
      ensures Valid() && old(run) <= run
      ensures lib == old(lib).(phase := Replaying, i := Low8(lib.cc), sent := lib.acked)
      ensures dev == old(dev).(refused := [], word := Cleared(state))
      ensures trips == old(trips)
    {
      hide Inv, Low8;
      WaitExitIsQuiescent(Now());
      StoreState(Cleared(state));
      var again := true;
      while again
        invariant Valid() && old(run) <= run && trips == old(trips)
        invariant
          || (lib == old(lib) && dev == old(dev) && again)
          || (&& lib == old(lib).(phase := Replaying, i := Low8(lib.cc), sent := lib.acked)
              && dev == old(dev).(refused := [], word := Cleared(state)))
        decreases drops, if lib.phase == Waiting then 1 else 0, if again then 1 else 0
      {
        CountsFit(Now());
        if lib.phase == Waiting {
          WaitProgress(Now());
        }
        Yield();
        var retryCount := dev.word.refused;
        again := retryCount != 0;
        if again {
          StoreState(Cleared(state));
        }
      }
    }

    /** Copies one ring slot to the requester page recorded in it. */
    method StoreSlot(i: nat)
      requires stores == [] && 4 * i + 3 < packetBuffer.Length
      modifies `stores
      ensures |stores| == 3
      ensures forall w :: 0 <= w < 3 ==> stores[w] == (packetBuffer[4 * i + 3], w, packetBuffer[4 * i + w])
      ensures Carries(stores, Slot(i))
    {
      var page := packetBuffer[4 * i + 3];
      var j := 0;
      while j < 3
        invariant j <= 3 && |stores| == j
        invariant forall w :: 0 <= w < j ==> stores[w] == (page, w, packetBuffer[4 * i + w])
      {
        StoreRequester(page, j, packetBuffer[4 * i + j]);
        j := j + 1;
      }
      ThreeStores(stores, Slot(i));
    }

    /** Sends one ring slot again and counts it. */
    method ResendSlot(i: nat)
      requires Valid() && lib.phase == Replaying && stores == [] && i == lib.i && i != lib.wp
      modifies `dev, `lib, `run, `trips, `stall, `stores, `wire, `retriedPacketCount
      ensures Valid() && old(run) <= run && stores == []
      ensures lib == old(lib).(i := Low8(i + 1), sent := old(lib.sent) + 1)
      ensures lib.sent <= |lib.posted| && wire == old(wire) + [lib.posted[old(lib.sent)]]
      ensures retriedPacketCount == old(retriedPacketCount) + 1
      ensures |dev.committed| <= |lib.posted| && |old(dev.committed)| <= |lib.posted|
      ensures Settled(old(Rank()), Rank())
    {
      hide Inv;
      CountsFit(Now());
      ReplayIndex(Now());
      StoreSlot(i);
      Yield();
      ghost var s := Now();
      FlushWc(lib.posted[lib.sent]);
      lib := lib.(i := Low8(i + 1), sent := lib.sent + 1);
      assert Resends(s, Now());
      Note();
      retriedPacketCount := retriedPacketCount + 1;
      CountsFit(Now());
    }

    static lemma SliceGrows<T>(s: seq<T>, lo: nat, hi: nat)
      requires lo <= hi <= |s|
      ensures hi < |s| ==> s[lo..hi + 1] == s[lo..hi] + [s[hi]]
    {
    }

    /** The replay loop: every slot from the committed count up to the write pointer, in order. */
    method ResendAll()
      requires Valid() && lib.phase == Replaying && stores == []
      requires lib.sent == lib.acked && lib.i == Low8(committedCount)
      modifies `dev, `lib, `run, `trips, `stall, `stores, `wire, `retriedPacketCount
      ensures Valid() && old(run) <= run && stores == []
      ensures lib == old(lib).(i := lib.i, sent := lib.sent, phase := Calm)
      ensures wire == old(wire) + lib.posted[lib.acked..]
      ensures retriedPacketCount == old(retriedPacketCount) + |lib.posted| - lib.acked
      ensures |dev.committed| <= |lib.posted| && |old(dev.committed)| <= |lib.posted|
      ensures Settled(old(Rank()), Rank())
    {
      hide Inv;
      CountsFit(Now());
      ghost var before := Rank();
      var start := Low8(committedCount);
      var stop := packetWp;
      var i := start;
      while i != stop
        invariant Valid() && old(run) <= run && stores == [] && i == lib.i
        invariant lib == old(lib).(i := i, sent := lib.sent) && lib.acked <= lib.sent <= |lib.posted|
        invariant wire == old(wire) + lib.posted[lib.acked..lib.sent]
        invariant retriedPacketCount == old(retriedPacketCount) + lib.sent - lib.acked
        invariant |dev.committed| <= |lib.posted| && Settled(before, Rank())
        decreases |lib.posted| - lib.sent
      {
        SliceGrows(lib.posted, lib.acked, lib.sent);
        ResendSlot(i);
        i := Low8(i + 1);
      }
      Finish();
    }

    ghost method Finish()
      requires Valid() && lib.phase == Replaying && lib.i == lib.wp
      modifies `lib, `run
      ensures Valid() && old(run) <= run
      ensures lib == old(lib).(phase := Calm) && lib.sent == |lib.posted|
    {
      ReplayIndex(Now());
      ghost var s := Now();
      lib := lib.(phase := Calm);
      assert Finishes(s, Now());
      Note();
    }

    /** The retry branch: wait for quiescence, clear the retry state, resend the refused packets. */
    method Replay(first: StateWord) returns (ghost resent: seq<Packet>, ghost k: nat)
      requires Valid() && lib.phase == Waiting && stores == [] && first == lib.word && lib.rc == first.refused
      modifies `dev, `lib, `run, `trips, `stall, `drops, `stores, `wire, `retriedPacketCount, `committedCount
      ensures Valid() && lib.phase == Calm && stores == [] && old(run) <= run
      ensures lib.posted == old(lib.posted) && lib.wp == old(lib.wp) && lib.ring == old(lib.ring)
      ensures lib.acked == old(lib.acked)
      ensures wire == old(wire) + resent && resent != []
      ensures retriedPacketCount == old(retriedPacketCount) + |resent|
      ensures |old(run)| <= k + 1 <= |run| && IsRefusal(run[k].dev, resent, lib.posted)
      ensures |dev.committed| <= |lib.posted| && |old(dev.committed)| <= |lib.posted|
      ensures Less(Rank(), old(Rank()))
    {
      hide Inv, Low8;
      CountsFit(Now());
      var state := AwaitIdle(first);
      state := AwaitCount(state, first.refused);
      resent := dev.refused;
      k := QuietState();
      ClearRetry(state);
      ResendAll();
    }

    /** The state the wait has ended in, as an index of the run. */
    ghost method QuietState() returns (k: nat)
      requires Valid() && lib.phase == Waiting && Low8(lib.wp - lib.cc) == lib.rc
      ensures k == |run| - 1 && IsRefusal(run[k].dev, dev.refused, lib.posted)
      ensures dev.refused == lib.posted[lib.acked..]
    {
      k := |run| - 1;
      WaitExitIsQuiescent(Now());
      assert dev.committed + dev.refused + dev.inflight == lib.posted;
    }

    /**
     Brings the committed count up to date and, on a retry, waits for quiescence, clears
     the retry state and sends again exactly what the device had refused at that point.
     */
    method ReplayBuffer() returns (ghost resent: seq<Packet>, ghost k: nat)
      requires Valid() && lib.phase == Calm && stores == []
      modifies `dev, `lib, `run, `trips, `stall, `drops, `stores, `wire, `retriedPacketCount, `committedCount
      modifies `rounds
      ensures Valid() && lib.phase == Calm && stores == [] && old(run) <= run
      ensures lib.posted == old(lib.posted) && lib.wp == old(lib.wp) && lib.ring == old(lib.ring)
      ensures old(lib.acked) <= lib.acked
      ensures wire == old(wire) + resent
      ensures retriedPacketCount == old(retriedPacketCount) + |resent|
      ensures resent != [] ==> |old(run)| <= k < |run| && IsRefusal(run[k].dev, resent, lib.posted)
      ensures resent == [] ==> lib.word == dev.word && !(lib.word.retry && lib.word.refused != 0)
      ensures resent == [] ==> lib.acked == |dev.committed|
      ensures rounds == old(rounds) + [lib.acked]
      ensures |dev.committed| <= |lib.posted| && |old(dev.committed)| <= |lib.posted|
      ensures Less(Rank(), old(Rank())) || (Rank() == old(Rank()) && lib.acked == |lib.posted|)
    {
      hide Inv, Low8;
      CountsFit(Now());
      var state := Look();
      resent, k := [], 0;
      CountsFit(Now());
      if state.retry && state.refused != 0 {
        resent, k := Replay(state);
      } else if dev.inflight == [] {
        NothingOpen(Now());
      }
      rounds := rounds + [lib.acked];
    }

    /**
     With `send`, makes room for one more packet; without it, waits until nothing is
     outstanding. It returns whenever the device raises the retry flag only finitely often.
     */
    method Drain(send: bool)
      requires Valid() && lib.phase == Calm && stores == []
      modifies `dev, `lib, `run, `trips, `stall, `drops, `stores, `wire, `retriedPacketCount, `committedCount
      modifies `rounds
      ensures Valid() && lib.phase == Calm && stores == [] && old(run) <= run
      ensures lib.posted == old(lib.posted) && lib.wp == old(lib.wp) && lib.ring == old(lib.ring)
      ensures old(lib.acked) <= lib.acked
      ensures send ==> |lib.posted| - lib.acked <= 254
      ensures send && !old(Full(lib)) ==> run == old(run) && dev == old(dev) && lib == old(lib) && rounds == old(rounds)
      ensures old(rounds) <= rounds
      ensures forall j :: |old(rounds)| <= j < |rounds| - 1 ==>
        if send then |lib.posted| - rounds[j] == 255 else rounds[j] < |lib.posted|
      ensures !send ==> dev.committed == lib.posted
      ensures old(wire) <= wire && |wire| - |old(wire)| == retriedPacketCount - old(retriedPacketCount)
    {
      hide Inv;
      var wp := packetWp;
      DrainTests(Now());
      if send {
        while Low8(wp + 1) == committedCount
          invariant Valid() && lib.phase == Calm && stores == [] && old(run) <= run
          invariant lib.posted == old(lib.posted) && lib.wp == old(lib.wp) && lib.ring == old(lib.ring)
          invariant |dev.committed| <= |lib.posted| && old(lib.acked) <= lib.acked <= |lib.posted|
          invariant old(wire) <= wire && |wire| - |old(wire)| == retriedPacketCount - old(retriedPacketCount)
          invariant !old(Full(lib)) ==> run == old(run) && dev == old(dev) && lib == old(lib) && rounds == old(rounds)
          invariant old(rounds) <= rounds && (rounds != old(rounds) ==> rounds[|rounds| - 1] == lib.acked)
          invariant forall j :: |old(rounds)| <= j < |rounds| - 1 ==> |lib.posted| - rounds[j] == 255
          decreases trips, |lib.posted| - |dev.committed|, if dev.word.retry then 1 else 0, |dev.inflight|, stall,
                    |lib.posted| - lib.acked
        {
          DrainTests(Now());
          var _, _ := ReplayBuffer();
          CountsFit(Now());
        }
      } else {
        while Low8(wp) != committedCount
          invariant Valid() && lib.phase == Calm && stores == [] && old(run) <= run
          invariant lib.posted == old(lib.posted) && lib.wp == old(lib.wp) && lib.ring == old(lib.ring)
          invariant |dev.committed| <= |lib.posted| && old(lib.acked) <= lib.acked <= |lib.posted|
          invariant old(wire) <= wire && |wire| - |old(wire)| == retriedPacketCount - old(retriedPacketCount)
          invariant old(rounds) <= rounds && (rounds != old(rounds) ==> rounds[|rounds| - 1] == lib.acked)
          invariant forall j :: |old(rounds)| <= j < |rounds| - 1 ==> rounds[j] < |lib.posted|
          decreases trips, |lib.posted| - |dev.committed|, if dev.word.retry then 1 else 0, |dev.inflight|, stall,
                    |lib.posted| - lib.acked
        {
          DrainTests(Now());
          var _, _ := ReplayBuffer();
          CountsFit(Now());
        }
      }
      DrainTests(Now());
    }

    /** Copies a descriptor to a requester page. */
    method StoreDescriptor(page: nat, desc: seq<nat>)
      requires stores == [] && |desc| == 3
      modifies `stores
      ensures |stores| == 3 && forall w :: 0 <= w < 3 ==> stores[w] == (page, w, desc[w])
      ensures Carries(stores, Packet(page, desc[0], desc[1], desc[2]))
    {
      var i := 0;
      while i < 3
        invariant i <= 3 && |stores| == i
        invariant forall w :: 0 <= w < i ==> stores[w] == (page, w, desc[w])
      {
        StoreRequester(page, i, desc[i]);
        i := i + 1;
      }
      ThreeStores(stores, Packet(page, desc[0], desc[1], desc[2]));
    }

    /** Memory agrees with the library's state, whether or not the invariant holds. */
    ghost predicate Mirrors()
      reads this, packetBuffer
    {
      && packetBuffer.Length == 4 * SLOTS == 4 * |lib.ring|
      && committedCount == lib.cc && packetWp == lib.wp < SLOTS
      && forall k :: 0 <= k < SLOTS ==> lib.ring[k] == Slot(k)
    }

    /** The stores of a packet and the fence, and whatever the device does before it. */
    method HandOver(page: nat, desc: seq<nat>) returns (ghost p: Packet)
      requires Valid() && stores == [] && |desc| == 3
      modifies `dev, `run, `trips, `stall, `stores, `wire
      ensures p == Packet(page, desc[0], desc[1], desc[2])
      ensures |run| > 0 && IsRun(run) && old(run) <= run && Inv(run[|run| - 1]) && Mirrors()
      ensures run[|run| - 1].lib == lib && dev == run[|run| - 1].dev.(inflight := run[|run| - 1].dev.inflight + [p])
      ensures stores == [] && wire == old(wire) + [p]
    {
      p := Packet(page, desc[0], desc[1], desc[2]);
      InRange(Now());
      StoreDescriptor(page, desc);
      Yield();
      assert Mirrors();
      hide Inv, IsRun;
      FlushWc(p);
    }

    /**
     Sends a packet: from here on it counts as posted, but its ring slot is still to be
     written. With a full ring that is no step of a run any more.
     */
    method SendDescriptor(page: nat, desc: seq<nat>) returns (ghost p: Packet)
      requires Valid() && lib.phase == Calm && stores == [] && |desc| == 3
      modifies `dev, `lib, `run, `trips, `stall, `stores, `wire
      ensures p == Packet(page, desc[0], desc[1], desc[2])
      ensures Mirrors() && stores == [] && old(run) <= run
      ensures lib == old(lib).(posted := old(lib.posted) + [p], sent := old(lib.sent) + 1, phase := Recording)
      ensures wire == old(wire) + [p]
      ensures dev.committed + dev.refused + dev.inflight == lib.posted
      ensures !old(Full(lib)) ==> Valid()
    {
      hide Inv, Low8, IsRun;
      p := HandOver(page, desc);
      ghost var s := run[|run| - 1];
      AllGiven(s);
      lib := lib.(posted := lib.posted + [p], sent := lib.sent + 1, phase := Recording);
      assert dev.committed + dev.refused + dev.inflight == s.dev.committed + s.dev.refused + s.dev.inflight + [p];
      if !Full(s.lib) {
        assert Issues(s, Now());
        Note();
      }
    }

    /** Copies a descriptor and its requester page into the slot under the write pointer. */
    method FillSlot(page: nat, desc: seq<nat>)
      requires packetBuffer.Length == 4 * SLOTS && packetWp < SLOTS && |desc| == 3
      modifies packetBuffer
      ensures Slot(packetWp) == Packet(page, desc[0], desc[1], desc[2])
      ensures forall k :: 0 <= k < SLOTS && k != packetWp ==> Slot(k) == old(Slot(k))
    {
      var waddr := 4 * packetWp;
      var i := 0;
      while i < 3
        invariant i <= 3
        invariant forall j :: 0 <= j < i ==> packetBuffer[waddr + j] == desc[j]
        invariant forall j :: 0 <= j < packetBuffer.Length && !(waddr <= j < waddr + i) ==>
                    packetBuffer[j] == old(packetBuffer[j])
      {
        packetBuffer[waddr + i] := desc[i];
        i := i + 1;
      }
      packetBuffer[waddr + 3] := page;
      assert packetBuffer[waddr + 0] == desc[0] && packetBuffer[waddr + 1] == desc[1];
    }

    /** Completes a post: the ring slot is written and the write pointer moves on, modulo 256. */
    method RecordDescriptor(page: nat, desc: seq<nat>)
      requires Mirrors() && lib.phase == Recording && |desc| == 3
      requires lib.posted != [] && lib.posted[|lib.posted| - 1] == Packet(page, desc[0], desc[1], desc[2])
      modifies packetBuffer, `packetWp, `lib, `run
      ensures Mirrors() && old(run) <= run
      ensures lib == old(lib).(phase := Calm, wp := Low8(old(lib.wp) + 1),
                               ring := old(lib.ring)[old(lib.wp) := Packet(page, desc[0], desc[1], desc[2])])
      ensures old(Valid()) ==> Valid()
    {
      hide Inv, Low8, IsRun;
      var wp := packetWp;
      ghost var s, valid := Now(), Valid();
      FillSlot(page, desc);
      packetWp := Low8(wp + 1);
      lib := lib.(ring := lib.ring[wp := lib.posted[|lib.posted| - 1]], wp := Low8(wp + 1), phase := Calm);
      if valid {
        assert Records(s, Now());
        Note();
      }
    }

    /** The drain before a post, if the mode asks for it. */
    method MakeRoom() returns (drained: bool)
      requires Valid() && lib.phase == Calm && stores == []
      modifies `dev, `lib, `run, `trips, `stall, `drops, `stores, `wire, `retriedPacketCount, `committedCount
      modifies `rounds
      ensures Valid() && Inv(Now()) && lib.wp < |lib.ring| && lib.phase == Calm && stores == [] && old(run) <= run
      ensures lib.posted == old(lib.posted) && old(lib.acked) <= lib.acked
      ensures drained == replayMode.post
      ensures if drained then !Full(lib) else Now() == old(Now()) && run == old(run)
      ensures old(wire) <= wire && |wire| - |old(wire)| == retriedPacketCount - old(retriedPacketCount)
      ensures !drained ==> wire == old(wire)
      ensures old(rounds) <= rounds && (!drained || !old(Full(lib)) ==> rounds == old(rounds))
      ensures forall j :: |old(rounds)| <= j < |rounds| - 1 ==> |lib.posted| - rounds[j] == 255
    {
      drained := replayMode.post;
      if drained {
        Drain(true);
      }
      InRange(Now());
      DrainTests(Now());
    }

    /** A post after the room has been made, or not. */
    method SendAndRecord(page: nat, desc: seq<nat>)
      requires Valid() && lib.phase == Calm && stores == [] && |desc| == 3 && lib.wp < |lib.ring|
      modifies `dev, `lib, `run, `trips, `stall, `stores, `wire, packetBuffer, `packetWp
      ensures Mirrors() && stores == [] && old(run) <= run
      ensures lib == PostUnchecked(old(Now()), Packet(page, desc[0], desc[1], desc[2])).lib
      ensures lib.posted == old(lib.posted) + [Packet(page, desc[0], desc[1], desc[2])]
      ensures lib.phase == Calm && lib.acked == old(lib.acked)
      ensures wire == old(wire) + [Packet(page, desc[0], desc[1], desc[2])]
      ensures dev.committed + dev.refused + dev.inflight == lib.posted
      ensures !old(Full(lib)) ==> Valid()
    {
      hide Inv, Low8, IsRun;
      var _ := SendDescriptor(page, desc);
      RecordDescriptor(page, desc);
    }

    /**
     Posts one descriptor: makes room, hands the packet to the device, records it. Without
     the POST bit nobody makes room. If the ring is full then, the device still has every
     packet, but the slot of one that it may refuse is overwritten, the write pointer meets
     the committed count, and the state is none that a run can reach.
     */
    method PostDescriptor(page: nat, desc: seq<nat>)
      requires Valid() && lib.phase == Calm && stores == [] && |desc| == 3
      modifies this, packetBuffer
      ensures lib.phase == Calm && stores == [] && old(run) <= run
      ensures replayMode == old(replayMode)
      ensures lib.posted == old(lib.posted) + [Packet(page, desc[0], desc[1], desc[2])]
      ensures |wire| - |old(wire)| == retriedPacketCount - old(retriedPacketCount) + 1
      ensures old(wire) < wire && wire[|wire| - 1] == Packet(page, desc[0], desc[1], desc[2])
      ensures old(lib.acked) <= lib.acked
      ensures old(rounds) <= rounds && (!replayMode.post || !old(Full(lib)) ==> rounds == old(rounds))
      ensures forall j :: |old(rounds)| <= j < |rounds| - 1 ==> |old(lib.posted)| - rounds[j] == 255
      ensures replayMode.post || !old(Full(lib)) ==> Valid()
      ensures !replayMode.post && old(Full(lib)) ==>
        && Mirrors() && lib == PostUnchecked(old(Now()), Packet(page, desc[0], desc[1], desc[2])).lib
        && dev.committed + dev.refused + dev.inflight == lib.posted && !Inv(Now())
    {
      var _ := MakeRoom();
      hide Valid, Inv, PostUnchecked, Low8, IsRun;
      ghost var s := Now();
      SendAndRecord(page, desc);
      if Full(s.lib) {
        Overrun(s, Packet(page, desc[0], desc[1], desc[2]), dev);
      }
    }

    /** Disconnecting drains only when the CLOSE bit is set. */
    method Disconnect()
      requires Valid() && lib.phase == Calm && stores == []
      modifies `dev, `lib, `run, `trips, `stall, `drops, `stores, `wire, `retriedPacketCount, `committedCount
      modifies `rounds
      ensures Valid() && lib.phase == Calm && stores == [] && old(run) <= run
      ensures lib.posted == old(lib.posted)
      ensures old(wire) <= wire && |wire| - |old(wire)| == retriedPacketCount - old(retriedPacketCount)
      ensures replayMode.close ==> dev.committed == lib.posted
      ensures !replayMode.close ==> run == old(run) && wire == old(wire) && rounds == old(rounds)
    {
      if replayMode.close {
        Drain(false);
      }
    }

    /** Closing drains in every mode: nothing posted is lost. */
    method Close()
      requires Valid() && lib.phase == Calm && stores == []
      modifies `dev, `lib, `run, `trips, `stall, `drops, `stores, `wire, `retriedPacketCount, `committedCount
      modifies `rounds
      ensures Valid() && lib.phase == Calm && stores == [] && old(run) <= run
      ensures lib.posted == old(lib.posted) && dev.committed == lib.posted
      ensures old(wire) <= wire && |wire| - |old(wire)| == retriedPacketCount - old(retriedPacketCount)
    {
      Drain(false);
    }

    method SetReplayMode(mode: ReplayMode)
      requires Valid()
      modifies `replayMode
      ensures Valid() && replayMode == mode
    {
      replayMode := mode;
    }
  }
}
