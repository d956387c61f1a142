/**
 The replay buffer as a transition system: the library on one side of the
 memory-mapped requester pages and state word, the device on the other.

 The library's mod-256 fields (`wp`, `cc`, `rc`, `i`) stand beside unbounded
 history values (`posted`, `acked`, `sent`); every guard of a library step
 reads the wrapping fields only, as the code does.

 The device is an assumption: it takes packets in order; it either commits a
 packet or raises the retry flag; while the flag is up it refuses every packet
 and counts the refusals; the whole state word is read at once.
 */
module ReplayProtocol {

  /** Three descriptor words and the requester page they are written to. */
  datatype Packet = Packet(page: nat, w0: nat, w1: nat, w2: nat)

  /** The fields of the 64-bit write-combining state word. */
  datatype StateWord = StateWord(committed: nat, retry: bool, assembly: bool, streamout: bool, refused: nat)

  datatype Device = Device(
    committed: seq<Packet>, refused: seq<Packet>, inflight: seq<Packet>, word: StateWord)

  /** Where the library stands inside a post or a replay. */
  datatype Phase = Calm | Recording | Waiting | Replaying

  datatype Library = Library(
    posted: seq<Packet>,  // history: every packet the caller has posted
    ring: seq<Packet>,    // packet_buffer, one entry per slot
    wp: nat,              // packet_wp
    cc: nat,              // committed_count
    rc: nat,              // retry_count
    word: StateWord,      // the local copy `state` of the state word
    i: nat,               // index of the replay loop
    phase: Phase,
    acked: nat,           // history: the true value behind cc
    sent: nat)            // history: how much of posted the device was last given

  datatype State = State(lib: Library, dev: Device)

  const SLOTS: nat := 256

  /** Masking with WCB_CMASK; on a wrapped unsigned difference it is the Euclidean remainder. */
  function Low8(x: int): (y: nat)
    ensures y < 256
  {
    x % 256
  }

  /** Counting modulo 256 keeps step with counting. */
  lemma Low8Next(n: nat)
    ensures Low8(Low8(n) + 1) == Low8(n + 1)
    ensures Low8(Low8(n)) == Low8(n)
    ensures n <= 255 ==> Low8(n) == n
  {
  }

  /** Fewer than 256 apart, two counts are told apart by their residues. */
  lemma Low8Apart(n: nat, m: nat)
    requires n <= m <= n + 255
    ensures Low8(m - Low8(n)) == m - n
    ensures Low8(Low8(m) - Low8(n)) == m - n
    ensures Low8(m) == Low8(n) <==> m == n
  {
  }

  predicate Idle(w: StateWord) {
    w.assembly == w.streamout
  }

  // ------------------------------------------------------------------ device

  predicate Commits(d: Device, d': Device) {
    && d.inflight != [] && !d.word.retry
    && d' == Device(d.committed + [d.inflight[0]], d.refused, d.inflight[1..],
                    d.word.(committed := Low8(d.word.committed + 1),
                            assembly := d'.word.assembly, streamout := d'.word.streamout))
  }

  predicate Trips(d: Device, d': Device) {
    && d.inflight != [] && !d.word.retry
    && d' == d.(word := d.word.(retry := true, assembly := d'.word.assembly, streamout := d'.word.streamout))
  }

  predicate Refuses(d: Device, d': Device) {
    && d.inflight != [] && d.word.retry
    && d' == Device(d.committed, d.refused + [d.inflight[0]], d.inflight[1..],
                    d.word.(refused := Low8(d.word.refused + 1),
                            assembly := d'.word.assembly, streamout := d'.word.streamout))
  }

  predicate Flickers(d: Device, d': Device) {
    d' == d.(word := d.word.(assembly := d'.word.assembly, streamout := d'.word.streamout))
  }

  /** One step of the device; the two activity bits may differ only while a packet is under way. */
  predicate DeviceStep(d: Device, d': Device) {
    && (Commits(d, d') || Trips(d, d') || Refuses(d, d') || Flickers(d, d'))
    && (!Idle(d'.word) ==> d'.inflight != [])
  }

  // ----------------------------------------------------------------- library

  predicate Full(l: Library) {
    Low8(l.wp + 1) == l.cc
  }

  /** A post hands the packet to the device first and records it in the ring afterwards. */
  predicate Issues(s: State, s': State) {
    && s.lib.phase == Calm && !Full(s.lib)
    && |s'.lib.posted| == |s.lib.posted| + 1
    && var p := s'.lib.posted[|s.lib.posted|];
    && s'.lib == s.lib.(posted := s.lib.posted + [p], sent := s.lib.sent + 1, phase := Recording)
    && s'.dev == s.dev.(inflight := s.dev.inflight + [p])
  }

  predicate Records(s: State, s': State) {
    && s.lib.phase == Recording && s.lib.posted != [] && s.lib.wp < |s.lib.ring|
    && s'.dev == s.dev
    && s'.lib == s.lib.(ring := s.lib.ring[s.lib.wp := s.lib.posted[|s.lib.posted| - 1]],
                        wp := Low8(s.lib.wp + 1), phase := Calm)
  }

  /** A read of the state word that latches both counters. */
  predicate Looks(s: State, s': State) {
    && (s.lib.phase == Calm || s.lib.phase == Waiting)
    && s'.dev == s.dev
    && var w := s.dev.word;
    && s'.lib == s.lib.(word := w, cc := w.committed, rc := w.refused, acked := |s.dev.committed|,
                        phase := if s.lib.phase == Waiting || (w.retry && w.refused != 0) then Waiting else Calm)
  }

  /** A read in the idle loop: it refreshes the local copy but neither counter. */
  predicate Glances(s: State, s': State) {
    && s.lib.phase == Waiting
    && s'.dev == s.dev
    && s'.lib == s.lib.(word := s.dev.word)
  }

  function Cleared(w: StateWord): StateWord {
    w.(retry := false, refused := 0)
  }

  /** The wait is over: the stale local copy, with retry flag and count masked out, is stored as it is. */
  predicate Clears(s: State, s': State) {
    && s.lib.phase == Waiting && Low8(s.lib.wp - s.lib.cc) == s.lib.rc
    && s'.dev == s.dev.(refused := [], word := Cleared(s.lib.word))
    && s'.lib == s.lib.(phase := Replaying, i := Low8(s.lib.cc), sent := s.lib.acked)
  }

  predicate Resends(s: State, s': State) {
    && s.lib.phase == Replaying && s.lib.i != s.lib.wp && s.lib.i < |s.lib.ring|
    && s'.dev == s.dev.(inflight := s.dev.inflight + [s.lib.ring[s.lib.i]])
    && s'.lib == s.lib.(i := Low8(s.lib.i + 1), sent := s.lib.sent + 1)
  }

  predicate Finishes(s: State, s': State) {
    && s.lib.phase == Replaying && s.lib.i == s.lib.wp
    && s'.dev == s.dev
    && s'.lib == s.lib.(phase := Calm)
  }

  predicate Next(s: State, s': State) {
    || (s'.lib == s.lib && DeviceStep(s.dev, s'.dev))
    || Issues(s, s') || Records(s, s')
    || Looks(s, s') || Glances(s, s') || Clears(s, s') || Resends(s, s') || Finishes(s, s')
  }

  predicate Init(s: State) {
    && s.lib.posted == [] && |s.lib.ring| == SLOTS
    && s.lib.wp == s.lib.cc == s.lib.acked == s.lib.sent == 0 && s.lib.phase == Calm
    && s.dev.committed == s.dev.refused == s.dev.inflight == []
    && s.dev.word == StateWord(0, false, false, false, 0)
  }

  predicate IsRun(run: seq<State>) {
    && |run| > 0 && Init(run[0])
    && forall k :: 0 <= k < |run| - 1 ==> Next(run[k], run[k + 1])
  }

  // --------------------------------------------------------------- invariant

  /** How many posted packets have a ring slot: all but one that is still being recorded. */
  function Recorded(l: Library): int {
    if l.phase == Recording then |l.posted| - 1 else |l.posted|
  }

  /** The device has seen a prefix of what was posted, split in order into three parts. */
  predicate Conserved(s: State) {
    && s.lib.sent <= |s.lib.posted|
    && s.dev.committed + s.dev.refused + s.dev.inflight == s.lib.posted[..s.lib.sent]
    && (s.lib.phase != Replaying ==> s.lib.sent == |s.lib.posted|)
  }

  predicate DeviceWord(d: Device) {
    && d.word.committed == Low8(|d.committed|)
    && d.word.refused == |d.refused|
    && (!d.word.retry ==> d.refused == [])
    && (!Idle(d.word) ==> d.inflight != [])
  }

  /** Packets lo up to hi each sit in their own slot. */
  predicate Held(ring: seq<Packet>, posted: seq<Packet>, lo: nat, hi: int)
    requires |ring| == SLOTS && hi <= |posted|
  {
    forall k :: lo <= k < hi ==> ring[Low8(k)] == posted[k]
  }

  /** Everything not known to be committed is still held in the ring. */
  predicate Window(l: Library) {
    && |l.ring| == SLOTS
    && l.acked <= Recorded(l) && |l.posted| <= l.acked + 255
    && l.cc == Low8(l.acked) && l.wp == Low8(Recorded(l))
    && Held(l.ring, l.posted, l.acked, Recorded(l))
  }

  /** What a library that waits on a retry knows about the device. */
  predicate Frozen(s: State) {
    s.lib.phase == Waiting ==>
      && s.dev.word.retry
      && s.lib.acked == |s.dev.committed|
      && 1 <= s.lib.rc <= |s.dev.refused|
      && s.lib.word.committed == s.dev.word.committed
      && (!Idle(s.lib.word) ==> |s.dev.committed| + s.lib.rc < |s.lib.posted|)
  }

  predicate Inv(s: State) {
    && Conserved(s) && DeviceWord(s.dev) && Window(s.lib) && Frozen(s)
    && s.lib.acked <= |s.dev.committed|
    && (s.lib.phase == Recording ==> |s.lib.posted| > 0)
    && (s.lib.phase == Replaying ==> s.lib.i == Low8(s.lib.sent))
  }

  /** Neither the committed nor the refused counter can run past its 8 bits unnoticed. */
  lemma CountsFit(s: State)
    requires Inv(s)
    ensures |s.dev.committed| + |s.dev.refused| + |s.dev.inflight| == s.lib.sent
    ensures s.lib.acked <= |s.dev.committed| <= s.lib.sent <= |s.lib.posted| <= s.lib.acked + 255
    ensures |s.dev.refused| + |s.dev.inflight| <= 255
  {
    hide Held, Low8;
    assert |s.dev.committed + s.dev.refused + s.dev.inflight| == s.lib.sent;
  }

  lemma InRange(s: State)
    requires Inv(s)
    ensures s.lib.wp < SLOTS == |s.lib.ring|
    ensures s.lib.phase == Recording ==> s.lib.posted != []
  {
  }

  lemma CommitKeepsInv(s: State, s': State)
    requires Inv(s) && s'.lib == s.lib && Commits(s.dev, s'.dev)
    requires !Idle(s'.dev.word) ==> s'.dev.inflight != []
    ensures Inv(s')
  {
    CountsFit(s);
    Low8Next(|s.dev.committed|);
    hide Held, Low8;
    var d, d' := s.dev, s'.dev;
    assert d.inflight == [d.inflight[0]] + d.inflight[1..];
    assert d'.committed + d'.refused + d'.inflight == d.committed + d.refused + d.inflight;
  }

  lemma RefuseKeepsInv(s: State, s': State)
    requires Inv(s) && s'.lib == s.lib && Refuses(s.dev, s'.dev)
    requires !Idle(s'.dev.word) ==> s'.dev.inflight != []
    ensures Inv(s')
  {
    CountsFit(s);
    Low8Next(|s.dev.refused|);
    Low8Next(|s.dev.refused| + 1);
    hide Held, Low8;
    var d, d' := s.dev, s'.dev;
    assert d.inflight == [d.inflight[0]] + d.inflight[1..];
    assert d'.committed + d'.refused + d'.inflight == d.committed + d.refused + d.inflight;
  }

  lemma DeviceStepKeepsInv(s: State, s': State)
    requires Inv(s) && s'.lib == s.lib && DeviceStep(s.dev, s'.dev)
    ensures Inv(s')
  {
    hide Held, Low8;
    if Commits(s.dev, s'.dev) {
      CommitKeepsInv(s, s');
    } else if Refuses(s.dev, s'.dev) {
      RefuseKeepsInv(s, s');
    }
  }

  /** Recording packet n overwrites no slot of the window below it. */
  lemma WindowGrows(ring: seq<Packet>, posted: seq<Packet>, lo: nat, n: nat)
    requires |ring| == SLOTS && lo <= n < |posted| && n - lo <= 254
    requires Held(ring, posted, lo, n)
    ensures Held(ring[Low8(n) := posted[n]], posted, lo, n + 1)
  {
    hide Low8;
    forall k | lo <= k < n ensures ring[Low8(n) := posted[n]][Low8(k)] == posted[k] {
      Low8Apart(k, n);
    }
  }

  lemma IssueKeepsInv(s: State, s': State)
    requires Inv(s) && Issues(s, s')
    ensures Inv(s')
  {
    var l, l' := s.lib, s'.lib;
    CountsFit(s);
    Distance(l);
    assert Held(l'.ring, l'.posted, l'.acked, Recorded(l'));
    hide Held, Low8;
    var p := l'.posted[|l.posted|];
    assert s'.dev.committed + s'.dev.refused + s'.dev.inflight
        == (s.dev.committed + s.dev.refused + s.dev.inflight) + [p];
    assert l'.posted[..l'.sent] == l.posted[..l.sent] + [p];
  }

  lemma RecordKeepsInv(s: State, s': State)
    requires Inv(s) && Records(s, s')
    ensures Inv(s')
  {
    hide Held, Low8;
    Low8Next(|s.lib.posted| - 1);
    WindowGrows(s.lib.ring, s.lib.posted, s.lib.acked, |s.lib.posted| - 1);
  }

  lemma LookKeepsInv(s: State, s': State)
    requires Inv(s) && (Looks(s, s') || Glances(s, s'))
    ensures Inv(s')
  {
  }

  lemma Wrapped(n: nat)
    ensures Low8(n + 256) == Low8(n)
  {
  }

  /** Within the window an 8-bit difference is the true one. */
  lemma Distance(l: Library)
    requires Window(l) && l.phase != Recording
    ensures Low8(l.wp - l.cc) == |l.posted| - l.acked
    ensures Low8(l.wp) == l.cc <==> |l.posted| == l.acked
    ensures Full(l) <==> |l.posted| - l.acked == 255
  {
    hide Held, Low8;
    Low8Apart(l.acked, |l.posted|);
    Low8Next(|l.posted|);
    if |l.posted| - l.acked < 255 {
      Low8Apart(l.acked, |l.posted| + 1);
    } else {
      Wrapped(l.acked);
    }
  }

  /**
   When the wait loop exits, equality of an 8-bit difference with an 8-bit count
   is true equality: nothing is in flight, the refused packets are exactly the
   uncommitted ones, and the stale local copy still carries the right count.
   */
  lemma WaitExitIsQuiescent(s: State)
    requires Inv(s) && s.lib.phase == Waiting && Low8(s.lib.wp - s.lib.cc) == s.lib.rc
    ensures s.dev.inflight == []
    ensures s.dev.refused == s.lib.posted[|s.dev.committed|..]
    ensures |s.dev.refused| == s.lib.rc == |s.lib.posted| - |s.dev.committed|
    ensures Idle(s.lib.word) && s.lib.word.committed == Low8(|s.dev.committed|)
  {
    CountsFit(s);
    Distance(s.lib);
    hide Held, Low8;
    assert s.dev.committed + s.dev.refused == s.lib.posted;
  }

  /** While the wait goes on, a packet is under way or the library's refused count lags behind. */
  lemma WaitProgress(s: State)
    requires Inv(s) && s.lib.phase == Waiting
    ensures s.dev.word.retry && s.lib.acked == |s.dev.committed| && 1 <= s.lib.rc <= |s.dev.refused|
    ensures s.dev.word.refused == |s.dev.refused|
    ensures s.dev.inflight == [] ==> Idle(s.dev.word)
    ensures s.dev.inflight == [] && Low8(s.lib.wp - s.lib.cc) != s.lib.rc ==> s.lib.rc < |s.dev.refused|
  {
    CountsFit(s);
    Distance(s.lib);
    hide Held, Low8;
  }

  /** What is stored: the count and the two activity bits of the copy, without the flag and the refused count. */
  lemma ClearedWord(s: State, s': State)
    requires Clears(s, s')
    ensures var w, w' := s.lib.word, s'.dev.word;
      && w'.committed == w.committed && w'.assembly == w.assembly && w'.streamout == w.streamout
      && !w'.retry && w'.refused == 0
  {
  }

  lemma ClearKeepsInv(s: State, s': State)
    requires Inv(s) && Clears(s, s')
    ensures Inv(s')
  {
    hide Held, Low8;
    CountsFit(s);
    Low8Next(s.lib.acked);
    WaitExitIsQuiescent(s);
    assert s'.dev.committed + s'.dev.refused + s'.dev.inflight == s.dev.committed;
    assert s.dev.committed == s.lib.posted[..s'.lib.sent];
  }

  /** The replay loop's 8-bit index reaches the write pointer exactly when nothing is left to resend. */
  lemma ReplayIndex(s: State)
    requires Inv(s) && s.lib.phase == Replaying
    ensures s.lib.i == s.lib.wp <==> s.lib.sent == |s.lib.posted|
    ensures s.lib.i < SLOTS == |s.lib.ring|
    ensures s.lib.sent < |s.lib.posted| ==> s.lib.ring[s.lib.i] == s.lib.posted[s.lib.sent]
  {
    CountsFit(s);
    Low8Apart(s.lib.sent, |s.lib.posted|);
    hide Low8;
  }

  lemma ResendKeepsInv(s: State, s': State)
    requires Inv(s) && Resends(s, s')
    ensures Inv(s')
  {
    hide Held, Low8;
    CountsFit(s);
    ReplayIndex(s);
    Low8Next(s.lib.sent);
    var l := s.lib;
    assert s'.dev.committed + s'.dev.refused + s'.dev.inflight
        == (s.dev.committed + s.dev.refused + s.dev.inflight) + [l.posted[l.sent]];
    assert l.posted[..l.sent + 1] == l.posted[..l.sent] + [l.posted[l.sent]];
  }

  lemma NextKeepsInv(s: State, s': State)
    requires Inv(s) && Next(s, s')
    ensures Inv(s')
  {
    if s'.lib == s.lib && DeviceStep(s.dev, s'.dev) {
      DeviceStepKeepsInv(s, s');
    } else if Issues(s, s') {
      IssueKeepsInv(s, s');
    } else if Records(s, s') {
      RecordKeepsInv(s, s');
    } else if Looks(s, s') || Glances(s, s') {
      LookKeepsInv(s, s');
    } else if Clears(s, s') {
      ClearKeepsInv(s, s');
    } else if Resends(s, s') {
      ResendKeepsInv(s, s');
    } else {
      ReplayIndex(s);
    }
  }

  lemma {:induction false} RunKeepsInv(run: seq<State>, k: nat)
    requires IsRun(run) && k < |run|
    ensures Inv(run[k])
  {
    if k > 0 {
      RunKeepsInv(run, k - 1);
      NextKeepsInv(run[k - 1], run[k]);
    }
  }

  lemma RunExtends(run: seq<State>, s: State)
    requires IsRun(run) && Next(run[|run| - 1], s)
    ensures IsRun(run + [s])
  {
  }

  // ---------------------------------------------------------------- theorems

  /**
   Safety over every run: at every point, also in the middle of a post or a
   replay, what the device has committed is a prefix of what was posted, at most
   255 packets lie beyond the library's last knowledge of it, and each of those
   can still be resent from its own ring slot.
   */
  lemma CommittedIsPrefix(run: seq<State>, k: nat)
    requires IsRun(run) && k < |run|
    ensures var l, d := run[k].lib, run[k].dev;
      && d.committed <= l.posted
      && l.acked <= |d.committed| <= |l.posted| <= l.acked + 255
      && l.cc == Low8(l.acked)
      && |l.ring| == SLOTS && Held(l.ring, l.posted, l.acked, Recorded(l))
  {
    RunKeepsInv(run, k);
    CountsFit(run[k]);
    var l, d := run[k].lib, run[k].dev;
    assert d.committed == l.posted[..|d.committed|] by {
      assert d.committed == (d.committed + d.refused + d.inflight)[..|d.committed|];
    }
  }

  /** A commit is final: the committed sequence of a run only ever grows at its end. */
  lemma {:induction false} CommitsAreFinal(run: seq<State>, j: nat, k: nat)
    requires IsRun(run) && j <= k < |run|
    ensures run[j].dev.committed <= run[k].dev.committed
    ensures run[j].lib.posted <= run[k].lib.posted
    decreases k - j
  {
    hide Held, Low8;
    if j < k {
      CommitsAreFinal(run, j, k - 1);
      assert Next(run[k - 1], run[k]);
    }
  }

  /**
   Outside a replay the counters of the state word account for every packet:
   committed + refused + in flight = posted.
   */
  lemma CountersBalance(run: seq<State>, k: nat)
    requires IsRun(run) && k < |run| && run[k].lib.phase != Replaying
    ensures var l, d := run[k].lib, run[k].dev;
      && |d.committed| + |d.refused| + |d.inflight| == |l.posted|
      && d.word.refused == |d.refused|
      && Low8(|l.posted| - d.word.committed) == d.word.refused + |d.inflight|
  {
    hide Held, Low8;
    RunKeepsInv(run, k);
    CountsFit(run[k]);
    Low8Apart(|run[k].dev.committed|, |run[k].lib.posted|);
  }

  /** The two 8-bit tests of the drain loop mean what they should mean of the unbounded counts. */
  lemma DrainTests(s: State)
    requires Inv(s) && s.lib.phase == Calm
    ensures Low8(s.lib.wp) == s.lib.cc <==> s.lib.acked == |s.lib.posted|
    ensures Low8(s.lib.wp) == s.lib.cc ==> s.dev.committed == s.lib.posted
    ensures Full(s.lib) <==> |s.lib.posted| - s.lib.acked == 255
    ensures s.lib.acked <= |s.dev.committed| <= |s.lib.posted| <= s.lib.acked + 255
  {
    CountsFit(s);
    Distance(s.lib);
    hide Held, Low8;
    assert s.dev.committed == (s.dev.committed + s.dev.refused + s.dev.inflight)[..|s.dev.committed|];
  }

  /** With nothing in flight and no refusal to act on, everything is committed. */
  lemma NothingOpen(s: State)
    requires Inv(s) && s.lib.phase == Calm
    requires s.dev.inflight == [] && !(s.dev.word.retry && s.dev.word.refused != 0)
    ensures s.dev.committed == s.lib.posted
  {
    hide Held, Low8;
    CountsFit(s);
    assert s.dev.committed + s.dev.refused + s.dev.inflight == s.dev.committed;
  }

  /** Outside a replay the device has been given everything that was posted. */
  lemma AllGiven(s: State)
    requires Inv(s) && s.lib.phase == Calm
    ensures s.dev.committed + s.dev.refused + s.dev.inflight == s.lib.posted
  {
  }

  // ------------------------------------------------- posting without the test

  /** A whole post that skips the fullness test, as it happens when the POST bit of the replay mode is off. */
  function PostUnchecked(s: State, p: Packet): State
    requires s.lib.wp < |s.lib.ring|
  {
    State(s.lib.(posted := s.lib.posted + [p], sent := s.lib.sent + 1,
                 ring := s.lib.ring[s.lib.wp := p], wp := Low8(s.lib.wp + 1)),
          s.dev.(inflight := s.dev.inflight + [p]))
  }

  /**
   The test is exactly what safety needs. Without it the window survives if and only
   if the ring was not full; if it was full, the write pointer catches up with the
   committed count and a drain would take 256 uncommitted packets for none.
   */
  lemma UncheckedPost(s: State, p: Packet)
    requires Inv(s) && s.lib.phase == Calm
    ensures var s' := PostUnchecked(s, p);
      && (Inv(s') <==> !Full(s.lib))
      && (Full(s.lib) ==> Low8(s'.lib.wp) == s'.lib.cc && |s'.lib.posted| - s'.lib.acked == 256)
  {
    DrainTests(s);
    if !Full(s.lib) {
      var l := s.lib;
      var mid := State(l.(posted := l.posted + [p], sent := l.sent + 1, phase := Recording),
                       s.dev.(inflight := s.dev.inflight + [p]));
      assert Issues(s, mid);
      IssueKeepsInv(s, mid);
      var end := PostUnchecked(s, p);
      assert Records(mid, end);
      RecordKeepsInv(mid, end);
      hide Held, Low8;
    } else {
      Overrun(s, p, PostUnchecked(s, p).dev);
    }
  }

  /** Whatever the device does meanwhile: no reachable state has the library that such a post leaves. */
  lemma Overrun(s: State, p: Packet, d: Device)
    requires Inv(s) && s.lib.phase == Calm && Full(s.lib)
    ensures !Inv(State(PostUnchecked(s, p).lib, d))
  {
    DrainTests(s);
  }

  /** A device that stays silent lets the library fill its ring, so the full case above does occur. */
  lemma {:induction false} FullIsReachable(p: Packet, n: nat) returns (run: seq<State>)
    requires n <= 255
    ensures IsRun(run)
    ensures var s := run[|run| - 1];
      s.lib.phase == Calm && s.lib.acked == 0 && s.lib.cc == 0 && |s.lib.posted| == n
    ensures n == 255 ==> Full(run[|run| - 1].lib)
  {
    if n == 0 {
      var w := StateWord(0, false, false, false, 0);
      var ring := seq(SLOTS, _ => p);
      run := [State(Library([], ring, 0, 0, 0, w, 0, Calm, 0, 0), Device([], [], [], w))];
    } else {
      run := FullIsReachable(p, n - 1);
      var s := run[|run| - 1];
      RunKeepsInv(run, |run| - 1);
      DrainTests(s);
      var mid := State(s.lib.(posted := s.lib.posted + [p], sent := s.lib.sent + 1, phase := Recording),
                       s.dev.(inflight := s.dev.inflight + [p]));
      assert Issues(s, mid);
      RunExtends(run, mid);
      run := run + [mid];
      var end := State(mid.lib.(ring := mid.lib.ring[mid.lib.wp := p], wp := Low8(mid.lib.wp + 1), phase := Calm),
                       mid.dev);
      assert Records(mid, end);
      RunExtends(run, end);
      run := run + [end];
      RunKeepsInv(run, |run| - 1);
      DrainTests(end);
    }
  }
}
