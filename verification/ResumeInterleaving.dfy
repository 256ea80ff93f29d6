/** One State under real concurrency (lib/resume/stream.go:60-86): a writer goroutine, a reader and
    any number of checkpoint handlers, interleaved at every atomic operation. OnWrite is two steps
    (ring write, then the SentPos add) and OnCheckpointFromPeer is three (load, compare-and-store,
    discard). */
module ResumeInterleaving {
  import opened Wrappers
  import opened RingSpec
  import Endpoints

  datatype WriterPc = WIdle | WPushed(n: nat)
  datatype HandlerPc = HLoaded(ack: int, prev: int) | HStored(ack: int)

  /** Handlers between their first and last step are in the map. Histories: written is every ring
      write, mark the largest position discarded up to, high the largest position ever stored. */
  datatype Shared = Shared(ring: Ring, sent: int, recv: int, peerAck: int,
                           writer: WriterPc, handlers: map<nat, HandlerPc>,
                           written: seq<byte>, mark: nat, high: int)

  datatype Act =
    | WriterPush(p: seq<byte>)         // Ring.Write
    | WriterCount                      // SentPos.Add
    | HandlerLoad(h: nat, ack: int)    // PeerAckPos.Load
    | HandlerStore(h: nat)             // compare, PeerAckPos.Store
    | HandlerDiscard(h: nat)           // Ring.Discard
    | ReaderCount(n: int)              // RecvPos.Add

  function Next(s: Shared, act: Act): (s': Shared)
    requires s.ring.Valid()
    ensures s'.ring.Valid()
  {
    match act
    case WriterPush(p) =>
      if s.writer.WIdle? && |p| > 0 then
        s.(ring := Write(s.ring, p), writer := WPushed(|p|), written := s.written + p)
      else s
    case WriterCount =>
      if s.writer.WPushed? then s.(sent := s.sent + s.writer.n, writer := WIdle) else s
    case HandlerLoad(h, ack) =>
      if h !in s.handlers then s.(handlers := s.handlers[h := HLoaded(ack, s.peerAck)]) else s
    case HandlerStore(h) =>
      if h in s.handlers && s.handlers[h].HLoaded? then
        var pc := s.handlers[h];
        if pc.ack > pc.prev then
          s.(peerAck := pc.ack, handlers := s.handlers[h := HStored(pc.ack)], high := Max(s.high, pc.ack))
        else s.(handlers := s.handlers - {h})
      else s
    case HandlerDiscard(h) =>
      if h in s.handlers && s.handlers[h].HStored? then
        var ack := s.handlers[h].ack;
        s.(ring := Discard(s.ring, ack), handlers := s.handlers - {h},
           mark := Max(s.mark, Min(ack, |s.written|)))
      else s
    case ReaderCount(n) =>
      if n > 0 then s.(recv := s.recv + n) else s
  }

  function Run(s: Shared, acts: seq<Act>): (s': Shared)
    requires s.ring.Valid()
    ensures s'.ring.Valid()
  {
    if acts == [] then s else Next(Run(s, acts[..|acts| - 1]), acts[|acts| - 1])
  }

  function Init(ring: Ring): (s: Shared)
    requires ring.Fresh()
    ensures s.ring.Valid()
  {
    Shared(ring, 0, 0, 0, WIdle, map[], [], 0, 0)
  }

  ghost predicate Inv(s: Shared) {
    && Window(s.ring, s.written, s.mark)
    && s.ring.head - s.sent == (if s.writer.WPushed? then s.writer.n else 0)
    && 0 <= s.mark <= s.high && s.peerAck <= s.high
    && 0 <= s.recv
    && (forall h :: h in s.handlers && s.handlers[h].HStored? ==> s.handlers[h].ack <= s.high)
  }

  lemma PushKeepsInv(s: Shared, p: seq<byte>)
    requires Inv(s) && s.ring.Valid()
    ensures Inv(Next(s, WriterPush(p))) && Next(s, WriterPush(p)).ring.maxCap == s.ring.maxCap
  {
    WindowWrite(s.ring, s.written, s.mark, p);
  }

  lemma DiscardKeepsInv(s: Shared, h: nat)
    requires Inv(s) && s.ring.Valid()
    ensures Inv(Next(s, HandlerDiscard(h))) && Next(s, HandlerDiscard(h)).ring.maxCap == s.ring.maxCap
  {
    if h in s.handlers && s.handlers[h].HStored? {
      WindowDiscard(s.ring, s.written, s.mark, s.handlers[h].ack);
    }
  }

  lemma NextKeepsInv(s: Shared, act: Act)
    requires Inv(s) && s.ring.Valid()
    ensures Inv(Next(s, act)) && Next(s, act).ring.maxCap == s.ring.maxCap
    ensures s.high <= Next(s, act).high
  {
    match act
    case WriterPush(p) => PushKeepsInv(s, p);
    case HandlerDiscard(h) => DiscardKeepsInv(s, h);
    case _ =>
  }

  /** At every intermediate point of every interleaving, with any number of handlers racing: SentPos
      trails Head by exactly the chunk between push and count, and the ring has given up no byte that
      is both above every acknowledged position and within maxCap of the head. */
  lemma {:induction false} CountersAgree(ring: Ring, acts: seq<Act>)
    requires ring.Fresh()
    ensures var s := Run(Init(ring), acts);
            && Inv(s)
            && s.ring.head - s.sent == (if s.writer.WPushed? then s.writer.n else 0)
            && s.ring.Tail() <= Max(s.high, s.ring.head - ring.maxCap)
            && s.ring.maxCap == ring.maxCap
  {
    if acts != [] {
      CountersAgree(ring, acts[..|acts| - 1]);
      NextKeepsInv(Run(Init(ring), acts[..|acts| - 1]), acts[|acts| - 1]);
    }
  }

  // ---------- One handler at a time ----------

  /** No handler starts while another is between its load and its discard. */
  ghost predicate OneHandlerAtATime(ring: Ring, acts: seq<Act>)
    requires ring.Fresh()
  {
    forall n :: 0 <= n < |acts| && acts[n].HandlerLoad? ==> Run(Init(ring), acts[..n]).handlers == map[]
  }

  /** With one handler, the counter is the largest position ever stored, and a loaded value is still
      current when it is compared. */
  ghost predicate SoloInv(s: Shared) {
    && s.peerAck == s.high
    && (forall h :: h in s.handlers && s.handlers[h].HLoaded? ==> s.handlers[h].prev == s.peerAck)
    && (forall h, g :: h in s.handlers && g in s.handlers ==> h == g)
  }

  lemma SoloStep(s: Shared, act: Act)
    requires s.ring.Valid() && SoloInv(s) && (act.HandlerLoad? ==> s.handlers == map[])
    ensures SoloInv(Next(s, act))
  {
  }

  lemma {:induction false} SoloRun(ring: Ring, acts: seq<Act>)
    requires ring.Fresh() && OneHandlerAtATime(ring, acts)
    ensures SoloInv(Run(Init(ring), acts))
  {
    if acts != [] {
      var n := |acts| - 1;
      assert forall m :: 0 <= m < n ==> acts[..n][..m] == acts[..m];
      SoloRun(ring, acts[..n]);
      SoloStep(Run(Init(ring), acts[..n]), acts[n]);
    }
  }

  /** With one handler at a time, at every intermediate step Tail <= max(PeerAckPos, Head - maxCap). */
  lemma TailBehindAck(ring: Ring, acts: seq<Act>)
    requires ring.Fresh() && OneHandlerAtATime(ring, acts)
    ensures var s := Run(Init(ring), acts);
            s.ring.Tail() <= Max(s.peerAck, s.ring.head - ring.maxCap)
  {
    SoloRun(ring, acts);
    CountersAgree(ring, acts);
  }

  lemma {:induction false} HighNeverDecreases(ring: Ring, acts: seq<Act>, more: seq<Act>)
    requires ring.Fresh()
    ensures Run(Init(ring), acts).high <= Run(Init(ring), acts + more).high
  {
    if more == [] {
      assert acts + more == acts;
    } else {
      var init := more[..|more| - 1];
      assert (acts + more)[..|acts + more| - 1] == acts + init;
      HighNeverDecreases(ring, acts, init);
      CountersAgree(ring, acts + init);
      NextKeepsInv(Run(Init(ring), acts + init), more[|more| - 1]);
    }
  }

  /** With one handler at a time PeerAckPos never decreases along a run. */
  lemma AckNeverDecreases(ring: Ring, acts: seq<Act>, more: seq<Act>)
    requires ring.Fresh() && OneHandlerAtATime(ring, acts + more)
    ensures Run(Init(ring), acts).peerAck <= Run(Init(ring), acts + more).peerAck
  {
    forall n | 0 <= n < |acts| && acts[n].HandlerLoad?
      ensures Run(Init(ring), acts[..n]).handlers == map[]
    {
      assert (acts + more)[n] == acts[n] && (acts + more)[..n] == acts[..n];
    }
    SoloRun(ring, acts);
    SoloRun(ring, acts + more);
    HighNeverDecreases(ring, acts, more);
  }

  // ---------- Steps and calls ----------

  function EndpointOf(s: Shared): Endpoints.Endpoint { Endpoints.Endpoint(s.ring, s.sent, s.recv, s.peerAck) }

  /** The steps of a call, taken without interruption, are the call. */
  lemma StepsAreTheCall(s: Shared, h: nat, ack: int, p: seq<byte>, n: int)
    requires s.ring.Valid()
    ensures h !in s.handlers ==>
              EndpointOf(Next(Next(Next(s, HandlerLoad(h, ack)), HandlerStore(h)), HandlerDiscard(h)))
              == Endpoints.OnCheckpointFromPeer(EndpointOf(s), ack)
    ensures s.writer.WIdle? ==>
              EndpointOf(Next(Next(s, WriterPush(p)), WriterCount)) == Endpoints.OnWrite(EndpointOf(s), p)
    ensures EndpointOf(Next(s, ReaderCount(n))) == Endpoints.OnRead(EndpointOf(s), n)
  {
  }

  // ---------- Overlapping handlers ----------

  lemma RunStep(s: Shared, acts: seq<Act>, act: Act)
    requires s.ring.Valid()
    ensures Run(s, acts + [act]) == Next(Run(s, acts), act)
  {
    assert (acts + [act])[..|acts + [act]| - 1] == acts;
  }

  /** The handler has loaded, and its comparison will come out in favour of storing. */
  predicate Poised(s: Shared, h: nat) {
    h in s.handlers && s.handlers[h].HLoaded? && s.handlers[h].ack > s.handlers[h].prev
  }

  /** Some handler about to store is behind the counter, or behind another handler about to store. */
  ghost predicate Racing(s: Shared) {
    exists h :: Poised(s, h) && Behind(s, h)
  }

  ghost predicate Behind(s: Shared, h: nat)
    requires Poised(s, h)
  {
    s.handlers[h].ack < s.peerAck || exists g :: Poised(s, g) && s.handlers[h].ack < s.handlers[g].ack
  }

  predicate NoLoads(acts: seq<Act>) { forall n :: 0 <= n < |acts| ==> !acts[n].HandlerLoad? }

  /** The last action of the schedule, none of which is a load, lowers PeerAckPos. */
  ghost predicate LowersAck(s: Shared, acts: seq<Act>, act: Act)
    requires s.ring.Valid()
  {
    NoLoads(acts + [act]) && Run(s, acts + [act]).peerAck < Run(s, acts).peerAck
  }

  /** A step of a state that is not racing neither lowers the counter nor starts a race. */
  lemma CalmStep(s: Shared, act: Act)
    requires s.ring.Valid() && !Racing(s) && !act.HandlerLoad?
    ensures !Racing(Next(s, act)) && s.peerAck <= Next(s, act).peerAck
  {
    var s' := Next(s, act);
    assert forall h :: Poised(s', h) ==> Poised(s, h) && s'.handlers[h] == s.handlers[h];
    if act.HandlerStore? && Poised(s, act.h) {
      assert !Behind(s, act.h);
    }
    forall h | Poised(s', h)
      ensures !Behind(s', h)
    {
      assert Poised(s, h) && !Behind(s, h);
    }
  }

  lemma {:induction false} CalmRun(s: Shared, acts: seq<Act>)
    requires s.ring.Valid() && !Racing(s) && NoLoads(acts)
    ensures !Racing(Run(s, acts))
  {
    if acts != [] {
      CalmRun(s, acts[..|acts| - 1]);
      CalmStep(Run(s, acts[..|acts| - 1]), acts[|acts| - 1]);
    }
  }

  lemma CalmNeverLowers(s: Shared, acts: seq<Act>, act: Act)
    requires s.ring.Valid() && !Racing(s)
    ensures !LowersAck(s, acts, act)
  {
    if NoLoads(acts + [act]) {
      assert forall n :: 0 <= n < |acts| ==> acts[n] == (acts + [act])[n];
      assert act == (acts + [act])[|acts|];
      CalmRun(s, acts);
      CalmStep(Run(s, acts), act);
      RunStep(s, acts, act);
    }
  }

  lemma StoreStep(s: Shared, h: nat)
    requires s.ring.Valid() && Poised(s, h)
    ensures var s' := Next(s, HandlerStore(h));
            s'.peerAck == s.handlers[h].ack && s'.handlers == s.handlers[h := HStored(s.handlers[h].ack)]
  {
  }

  /** The schedules that lower the counter: the handler that is behind stores, after the one ahead. */
  lemma RaceLowers(s: Shared, h: nat) returns (acts: seq<Act>)
    requires s.ring.Valid() && Poised(s, h) && Behind(s, h)
    ensures LowersAck(s, acts, HandlerStore(h))
  {
    if s.handlers[h].ack < s.peerAck {
      acts := [];
      StoreStep(s, h);
      RunStep(s, [], HandlerStore(h));
    } else {
      var g :| Poised(s, g) && s.handlers[h].ack < s.handlers[g].ack;
      acts := [HandlerStore(g)];
      StoreStep(s, g);
      RunStep(s, [], HandlerStore(g));
      assert [] + [HandlerStore(g)] == acts;
      StoreStep(Run(s, acts), h);
      RunStep(s, acts, HandlerStore(h));
    }
  }

  /** Exactly when PeerAckPos can go back: from any state, some schedule of the handlers already loaded,
      the writer and the reader lowers it if and only if a handler about to store is behind the
      counter or behind another handler about to store. */
  lemma GoingBackIsExact(s: Shared)
    requires s.ring.Valid()
    ensures (exists acts, act :: LowersAck(s, acts, act)) <==> Racing(s)
  {
    if Racing(s) {
      var h :| Poised(s, h) && Behind(s, h);
      var acts := RaceLowers(s, h);
    } else {
      forall acts, act
        ensures !LowersAck(s, acts, act)
      {
        CalmNeverLowers(s, acts, act);
      }
    }
  }

  /** It does happen: the peer acknowledges two positions of what was written, both handlers load
      before either stores, and the newer one stores first. */
  lemma RacingHandlersGoBack(ring: Ring, p: seq<byte>, older: int, newer: int)
    requires ring.Fresh() && 0 < older < newer <= |p|
    ensures var acts := [WriterPush(p), WriterCount, HandlerLoad(1, newer), HandlerLoad(2, older), HandlerStore(1)];
            && Run(Init(ring), acts).peerAck == newer
            && Run(Init(ring), acts + [HandlerStore(2)]).peerAck == older
            && newer <= Run(Init(ring), acts).sent
  {
    var s := Init(ring);
    var push, count := WriterPush(p), WriterCount;
    var x, y, z := HandlerLoad(1, newer), HandlerLoad(2, older), HandlerStore(1);
    RunStep(s, [], push);
    assert [] + [push] == [push];
    RunStep(s, [push], count);
    assert [push] + [count] == [push, count];
    RunStep(s, [push, count], x);
    assert [push, count] + [x] == [push, count, x];
    RunStep(s, [push, count, x], y);
    assert [push, count, x] + [y] == [push, count, x, y];
    var s4 := Run(s, [push, count, x, y]);
    assert s4.handlers == map[1 := HLoaded(newer, 0), 2 := HLoaded(older, 0)];
    RunStep(s, [push, count, x, y], z);
    assert [push, count, x, y] + [z] == [push, count, x, y, z];
    StoreStep(s4, 1);
    RunStep(s, [push, count, x, y, z], HandlerStore(2));
    StoreStep(Run(s, [push, count, x, y, z]), 2);
  }
}
