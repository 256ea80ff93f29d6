/** Two endpoints of a resumable stream, the link between them, and every way it can misbehave.

    Each direction is a lane: one endpoint sends, the other receives. A lane carries raw data in
    order while it is Live. Checkpoints travel outside the data stream; any checkpoint ever emitted
    may arrive at any time, any number of times, or never, so a lane keeps the set of all of them.
    A disconnect cuts both lanes and loses an arbitrary suffix of the bytes in flight; what the
    receiver had already buffered can still be read until it reports its position. After both ends
    have sent STREAM_RESUME the relay splices them, and each sender retransmits from the reported
    position out of its ring (api/orp/v1/orp.proto:78-90); retransmitted bytes do not pass through
    OnWrite again. Writes made while the lane is down go to the ring only. */
module ResumeProtocol {
  import opened Wrappers
  import opened RingSpec
  import opened Endpoints

  datatype Phase =
    | Live
    | Cut
    | Reported(pos: int)
    | Spliced(pos: int)
    | Failed

  /** `written` and `delivered` are histories: all bytes given to OnWrite at the sender, and all
      bytes handed to the application at the receiver. */
  datatype Lane = Lane(phase: Phase, data: seq<byte>, checkpoints: set<int>,
                       written: seq<byte>, delivered: seq<byte>)

  /** Endpoint a sends on ab and receives on ba. */
  datatype Sys = Sys(a: Endpoint, b: Endpoint, ab: Lane, ba: Lane)

  datatype LaneAct =
    | Send(p: seq<byte>)       // sender: OnWrite, and onto the wire when the lane is up
    | Read(n: int)             // receiver: n bytes reach the application, OnRead
    | EmitCheckpoint           // receiver: publish its received count
    | TakeCheckpoint(ack: int) // sender: one emitted checkpoint arrives
    | Report                   // receiver: STREAM_RESUME carries its received count
    | Retransmit               // sender: refill the lane from its ring

  datatype Act = OnAB(act: LaneAct) | OnBA(act: LaneAct) | Disconnect(keepAB: nat, keepBA: nat) | Splice

  function Flip(s: Sys): Sys { Sys(s.b, s.a, s.ba, s.ab) }

  ghost predicate RingsValid(s: Sys) { s.a.ring.Valid() && s.b.ring.Valid() }

  /** One action on lane ab. An action that is not possible now changes nothing. */
  function LaneStep(s: Sys, act: LaneAct): (s': Sys)
    requires RingsValid(s)
    ensures RingsValid(s')
  {
    var l := s.ab;
    match act
    case Send(p) =>
      s.(a := OnWrite(s.a, p),
         ab := l.(written := l.written + p, data := if l.phase.Live? then l.data + p else l.data))
    case Read(n) =>
      if 0 < n <= |l.data| then
        s.(b := OnRead(s.b, n), ab := l.(delivered := l.delivered + l.data[..n], data := l.data[n..]))
      else s
    case EmitCheckpoint =>
      s.(ab := l.(checkpoints := l.checkpoints + {ResumePayload(s.b).1}))
    case TakeCheckpoint(ack) =>
      if ack in l.checkpoints then s.(a := OnCheckpointFromPeer(s.a, ack)) else s
    case Report =>
      if l.phase.Cut? then s.(ab := l.(phase := Reported(ResumePayload(s.b).1), data := [])) else s
    case Retransmit =>
      if l.phase.Spliced? then
        match RetransmitFrom(s.a, l.phase.pos)
        case Ok(bytes) => s.(ab := l.(phase := Live, data := bytes))
        case Err(_) => s.(ab := l.(phase := Failed, data := []))
      else s
  }

  function CutLane(l: Lane, keep: nat): Lane {
    if l.phase.Failed? then l
    else l.(phase := Cut, data := if keep < |l.data| then l.data[..keep] else l.data)
  }

  function Next(s: Sys, act: Act): (s': Sys)
    requires RingsValid(s)
    ensures RingsValid(s')
  {
    match act
    case OnAB(x) => LaneStep(s, x)
    case OnBA(x) => Flip(LaneStep(Flip(s), x))
    case Disconnect(m, n) => s.(ab := CutLane(s.ab, m), ba := CutLane(s.ba, n))
    case Splice =>
      if s.ab.phase.Reported? && s.ba.phase.Reported? then
        s.(ab := s.ab.(phase := Spliced(s.ab.phase.pos)), ba := s.ba.(phase := Spliced(s.ba.phase.pos)))
      else s
  }

  function Run(s: Sys, acts: seq<Act>): (s': Sys)
    requires RingsValid(s)
    ensures RingsValid(s')
  {
    if acts == [] then s else Next(Run(s, acts[..|acts| - 1]), acts[|acts| - 1])
  }

  function FreshLane(): Lane { Lane(Live, [], {}, [], []) }

  /** A new stream over any two fresh rings, fixed or adaptive. */
  function Init(ringA: Ring, ringB: Ring): (s: Sys)
    requires ringA.Fresh() && ringB.Fresh()
    ensures RingsValid(s)
  {
    Sys(Endpoint(ringA, 0, 0, 0), Endpoint(ringB, 0, 0, 0), FreshLane(), FreshLane())
  }

  // ---------- What every step keeps ----------

  /** The invariant of lane ab: what it says about its sender, its receiver and itself. */
  ghost predicate LaneInv(s: Sys) {
    var l := s.ab;
    && 0 <= s.a.peerAck <= s.b.recv == |l.delivered| <= |l.written| == s.a.sent
    && Window(s.a.ring, l.written, s.a.peerAck)
    && l.delivered == l.written[..s.b.recv]
    && (forall c :: c in l.checkpoints ==> 0 <= c <= s.b.recv)
    && PhaseInv(s)
  }

  ghost predicate PhaseInv(s: Sys) {
    var l := s.ab;
    match l.phase
    case Live => l.delivered + l.data == l.written
    case Cut => l.delivered + l.data <= l.written
    case Reported(pos) => pos == s.b.recv && l.data == []
    case Spliced(pos) => pos == s.b.recv && l.data == []
    case Failed => l.data == [] && s.a.sent - s.b.recv > s.a.ring.maxCap
  }

  ghost predicate Inv(s: Sys) { LaneInv(s) && LaneInv(Flip(s)) }

  lemma SendKeepsLane(s: Sys, p: seq<byte>)
    requires LaneInv(s) && RingsValid(s)
    ensures LaneInv(LaneStep(s, Send(p)))
  {
    var w := s.ab.written;
    if p == [] {
      assert w + p == w && s.ab.data + p == s.ab.data;
    } else {
      WindowWrite(s.a.ring, w, s.a.peerAck, p);
      assert (w + p)[..s.b.recv] == w[..s.b.recv];
      if s.ab.phase.Live? {
        assert s.ab.delivered + (s.ab.data + p) == w + p;
      } else if s.ab.phase.Cut? {
        assert w <= w + p;
      }
    }
  }

  lemma ReadKeepsLane(s: Sys, n: int)
    requires LaneInv(s) && RingsValid(s) && 0 < n <= |s.ab.data|
    ensures LaneInv(LaneStep(s, Read(n)))
  {
    var l := s.ab;
    assert l.delivered + l.data == (l.delivered + l.data[..n]) + l.data[n..];
    assert l.delivered + l.data <= l.written;
    assert l.delivered + l.data[..n] == l.written[..s.b.recv + n];
  }

  lemma CheckpointKeepsLane(s: Sys, ack: int)
    requires LaneInv(s) && RingsValid(s) && ack in s.ab.checkpoints
    ensures LaneInv(LaneStep(s, TakeCheckpoint(ack)))
  {
    if ack > s.a.peerAck {
      WindowDiscard(s.a.ring, s.ab.written, s.a.peerAck, ack);
    }
  }

  /** The ring answers a resume position exactly when the gap fits its maximum capacity, and then
      with exactly the bytes the receiver is missing. */
  lemma RetransmitAnswer(s: Sys)
    requires LaneInv(s) && RingsValid(s)
    ensures RetransmitFrom(s.a, s.b.recv)
            == if s.a.sent - s.b.recv <= s.a.ring.maxCap then Ok(s.ab.written[s.b.recv..])
               else Err(ErrBeforeRing)
  {
    BytesFromWindow(s.a.ring, s.ab.written, s.a.peerAck, s.b.recv);
  }

  lemma RetransmitKeepsLane(s: Sys)
    requires LaneInv(s) && RingsValid(s)
    ensures LaneInv(LaneStep(s, Retransmit))
  {
    RetransmitAnswer(s);
    assert s.ab.written == s.ab.written[..s.b.recv] + s.ab.written[s.b.recv..];
  }

  lemma LaneInvKept(s: Sys, act: LaneAct)
    requires LaneInv(s) && RingsValid(s)
    ensures LaneInv(LaneStep(s, act))
  {
    match act
    case Send(p) => SendKeepsLane(s, p);
    case Read(n) =>
      if 0 < n <= |s.ab.data| { ReadKeepsLane(s, n); }
    case EmitCheckpoint =>
    case TakeCheckpoint(ack) =>
      if ack in s.ab.checkpoints { CheckpointKeepsLane(s, ack); }
    case Report =>
    case Retransmit => RetransmitKeepsLane(s);
  }

  /** What a step of lane ab leaves alone. */
  lemma StepFrame(s: Sys, act: LaneAct)
    requires RingsValid(s)
    ensures var s' := LaneStep(s, act);
            && s'.a.ring.maxCap == s.a.ring.maxCap
            && s'.b.(recv := s.b.recv) == s.b
            && s'.a.recv == s.a.recv
            && s'.ba == s.ba
  {
    match act
    case Send(p) => WriteKeepsSuffix(s.a.ring, p);
    case TakeCheckpoint(ack) => DiscardMoves(s.a.ring, ack);
    case _ =>
  }

  lemma StepKeepsLane(s: Sys, act: LaneAct)
    requires LaneInv(s) && RingsValid(s)
    ensures LaneInv(LaneStep(s, act))
    ensures var s' := LaneStep(s, act);
            && s'.a.ring.maxCap == s.a.ring.maxCap
            && s'.b.(recv := s.b.recv) == s.b
            && s'.a.recv == s.a.recv
            && s'.ba == s.ba
  {
    LaneInvKept(s, act);
    StepFrame(s, act);
  }

  /** A checkpoint that arrives is acted on: its position is remembered and everything below it freed. */
  lemma CheckpointFrees(s: Sys, ack: int)
    requires LaneInv(s) && RingsValid(s) && ack in s.ab.checkpoints
    ensures var s' := LaneStep(s, TakeCheckpoint(ack));
            && s'.a.peerAck == Max(s.a.peerAck, ack)
            && s'.a.ring.head == s.a.ring.head && s'.a.ring.Tail() >= ack
  {
    CheckpointKeepsLane(s, ack);
    DiscardMoves(s.a.ring, ack);
  }

  /** Once the receiver has published its count and the sender has taken it, the sender holds nothing
      the receiver has. */
  lemma CheckpointRoundTrip(s: Sys)
    requires LaneInv(s) && RingsValid(s)
    ensures var s' := LaneStep(LaneStep(s, EmitCheckpoint), TakeCheckpoint(s.b.recv));
            s'.a.peerAck == |s.ab.delivered| <= s'.a.ring.Tail()
  {
    LaneInvKept(s, EmitCheckpoint);
    CheckpointFrees(LaneStep(s, EmitCheckpoint), s.b.recv);
  }

  lemma NextKeepsInv(s: Sys, act: Act)
    requires Inv(s) && RingsValid(s)
    ensures Inv(Next(s, act))
    ensures Next(s, act).a.ring.maxCap == s.a.ring.maxCap
    ensures Next(s, act).b.ring.maxCap == s.b.ring.maxCap
  {
    match act
    case OnAB(x) => StepKeepsLane(s, x);
    case OnBA(x) => StepKeepsLane(Flip(s), x);
    case Disconnect(m, n) =>
      CutKeepsLane(s, m, CutLane(s.ba, n));
      CutKeepsLane(Flip(s), n, CutLane(s.ab, m));
    case Splice =>
  }

  lemma CutKeepsLane(s: Sys, keep: nat, other: Lane)
    requires LaneInv(s)
    ensures LaneInv(s.(ab := CutLane(s.ab, keep), ba := other))
  {
  }

  lemma {:induction false} RunKeepsInv(s: Sys, acts: seq<Act>)
    requires Inv(s) && RingsValid(s)
    ensures Inv(Run(s, acts))
    ensures Run(s, acts).a.ring.maxCap == s.a.ring.maxCap
    ensures Run(s, acts).b.ring.maxCap == s.b.ring.maxCap
  {
    if acts != [] {
      RunKeepsInv(s, acts[..|acts| - 1]);
      NextKeepsInv(Run(s, acts[..|acts| - 1]), acts[|acts| - 1]);
    }
  }

  lemma InitInv(ringA: Ring, ringB: Ring)
    requires ringA.Fresh() && ringB.Fresh()
    ensures Inv(Init(ringA, ringB))
  {
    FreshWindow(ringA);
    FreshWindow(ringB);
  }

  lemma Reachable(ringA: Ring, ringB: Ring, acts: seq<Act>)
    requires ringA.Fresh() && ringB.Fresh()
    ensures Inv(Run(Init(ringA, ringB), acts))
    ensures Run(Init(ringA, ringB), acts).a.ring.maxCap == ringA.maxCap
    ensures Run(Init(ringA, ringB), acts).b.ring.maxCap == ringB.maxCap
  {
    InitInv(ringA, ringB);
    RunKeepsInv(Init(ringA, ringB), acts);
  }

  // ---------- Main results ----------

  /** Exactly-once, in-order delivery on lane ab: what the application got is a prefix of what the
      peer wrote, and on a live lane delivered ++ in flight is the whole history. */
  ghost predicate ExactlyOnce(l: Lane) {
    l.delivered <= l.written && (l.phase.Live? ==> l.delivered + l.data == l.written)
  }

  /** In every reachable state both directions deliver exactly once, and a STREAM_RESUME sent then
      would carry the true byte counts. */
  lemma ExactlyOnceDelivery(ringA: Ring, ringB: Ring, acts: seq<Act>)
    requires ringA.Fresh() && ringB.Fresh()
    ensures var s := Run(Init(ringA, ringB), acts);
            && ExactlyOnce(s.ab) && ExactlyOnce(s.ba)
            && ResumePayload(s.a) == (|s.ab.written|, |s.ba.delivered|)
            && ResumePayload(s.b) == (|s.ba.written|, |s.ab.delivered|)
  {
    Reachable(ringA, ringB, acts);
  }

  /** Retransmission on lane ab succeeds if and only if the unread gap is at most the ring's
      maximum capacity, and then it is precisely the gap. */
  ghost predicate ResumesExactly(s: Sys, maxCap: int)
    requires RingsValid(s)
  {
    var answer := RetransmitFrom(s.a, s.b.recv);
    && (answer.Ok? <==> s.a.sent - s.b.recv <= maxCap)
    && (answer.Ok? ==> s.ab.delivered + answer.value == s.ab.written)
  }

  lemma LaneResumesExactly(s: Sys)
    requires LaneInv(s) && RingsValid(s)
    ensures ResumesExactly(s, s.a.ring.maxCap)
  {
    RetransmitAnswer(s);
    assert s.ab.written == s.ab.written[..s.b.recv] + s.ab.written[s.b.recv..];
  }

  lemma BothResumeExactly(s: Sys, maxA: int, maxB: int)
    requires Inv(s) && RingsValid(s) && s.a.ring.maxCap == maxA && s.b.ring.maxCap == maxB
    ensures ResumesExactly(s, maxA) && ResumesExactly(Flip(s), maxB)
  {
    LaneResumesExactly(s);
    LaneResumesExactly(Flip(s));
  }

  /** In every reachable state both directions resume exactly, whatever checkpoints were lost,
      repeated or reordered. */
  lemma ResumabilityIsExact(ringA: Ring, ringB: Ring, acts: seq<Act>)
    requires ringA.Fresh() && ringB.Fresh()
    ensures ResumesExactly(Run(Init(ringA, ringB), acts), ringA.maxCap)
    ensures ResumesExactly(Flip(Run(Init(ringA, ringB), acts)), ringB.maxCap)
  {
    Reachable(ringA, ringB, acts);
    BothResumeExactly(Run(Init(ringA, ringB), acts), ringA.maxCap, ringB.maxCap);
  }

  // ---------- Recovery after a disconnect ----------

  /** Lane ab has lost its in-flight bytes and its ring no longer covers the gap. */
  ghost predicate Lost(s: Sys) {
    LaneInv(s) && !s.ab.phase.Live? && s.ab.data == [] && s.a.sent - s.b.recv > s.a.ring.maxCap
  }

  lemma LostStaysLost(s: Sys, act: Act)
    requires Inv(s) && RingsValid(s) && Lost(s)
    ensures Lost(Next(s, act)) && Next(s, act).b.recv == s.b.recv
  {
    NextKeepsInv(s, act);
    if act.OnAB? {
      RetransmitAnswer(s);
    } else if act.OnBA? {
      StepKeepsLane(Flip(s), act.act);
    }
  }

  lemma {:induction false} LostIsForever(s: Sys, acts: seq<Act>)
    requires Inv(s) && RingsValid(s) && Lost(s)
    ensures Lost(Run(s, acts)) && Run(s, acts).b.recv == s.b.recv
  {
    if acts != [] {
      var init := acts[..|acts| - 1];
      LostIsForever(s, init);
      RunKeepsInv(s, init);
      LostStaysLost(Run(s, init), acts[|acts| - 1]);
    }
  }

  lemma {:induction false} RunConcat(s: Sys, xs: seq<Act>, ys: seq<Act>)
    requires RingsValid(s)
    ensures Run(s, xs + ys) == Run(Run(s, xs), ys)
  {
    if ys == [] {
      assert xs + ys == xs;
    } else {
      var init := ys[..|ys| - 1];
      assert (xs + ys)[..|xs + ys| - 1] == xs + init;
      RunConcat(s, xs, init);
    }
  }

  lemma RunOne(s: Sys, acts: seq<Act>, act: Act)
    requires RingsValid(s)
    ensures Run(s, acts + [act]) == Next(Run(s, acts), act)
  {
    assert (acts + [act])[..|acts + [act]| - 1] == acts;
  }

  lemma FlipRun(s: Sys, acts: seq<Act>)
    requires RingsValid(s)
    ensures exists mirror :: Run(Flip(s), mirror) == Flip(Run(s, acts))
  {
    if acts == [] {
      assert Run(Flip(s), []) == Flip(Run(s, acts));
    } else {
      var init, last := acts[..|acts| - 1], acts[|acts| - 1];
      FlipRun(s, init);
      var m :| Run(Flip(s), m) == Flip(Run(s, init));
      var last' := match last
        case OnAB(x) => OnBA(x)
        case OnBA(x) => OnAB(x)
        case Disconnect(j, k) => Disconnect(k, j)
        case Splice => Splice;
      RunOne(Flip(s), m, last');
      assert Run(Flip(s), m + [last']) == Flip(Run(s, acts));
    }
  }

  /** Both directions are down with nothing left to read. */
  ghost predicate Down(s: Sys) {
    s.ab.phase.Cut? && s.ab.data == [] && s.ba.phase.Cut? && s.ba.data == []
  }

  ghost predicate GapsFit(s: Sys) {
    s.a.sent - s.b.recv <= s.a.ring.maxCap && s.b.sent - s.a.recv <= s.b.ring.maxCap
  }

  /** later has delivered everything that had been written in s. */
  ghost predicate CaughtUp(s: Sys, later: Sys) {
    s.ab.written <= later.ab.delivered && s.ba.written <= later.ba.delivered
  }

  ghost predicate CanCatchUp(s: Sys)
    requires RingsValid(s)
  {
    exists more :: CaughtUp(s, Run(s, more))
  }

  /** Report and splice: both lanes learn the receiver's frozen position. */
  lemma Handshake(s: Sys) returns (acts: seq<Act>)
    requires Inv(s) && RingsValid(s) && Down(s)
    ensures Run(s, acts) == s.(ab := s.ab.(phase := Spliced(s.b.recv)), ba := s.ba.(phase := Spliced(s.a.recv)))
  {
    var s1 := Next(s, OnAB(Report));
    var s2 := Next(s1, OnBA(Report));
    RunOne(s, [], OnAB(Report));
    RunOne(s, [OnAB(Report)], OnBA(Report));
    RunOne(s, [OnAB(Report), OnBA(Report)], Splice);
    assert [] + [OnAB(Report)] == [OnAB(Report)];
    acts := [OnAB(Report), OnBA(Report)] + [Splice];
    assert [OnAB(Report)] + [OnBA(Report)] == [OnAB(Report), OnBA(Report)];
    assert s2 == s.(ab := s.ab.(phase := Reported(s.b.recv)), ba := s.ba.(phase := Reported(s.a.recv)));
  }

  /** Retransmit and read: a spliced lane ab whose gap fits catches up. */
  lemma Refill(s: Sys) returns (acts: seq<Act>)
    requires Inv(s) && RingsValid(s) && s.ab.phase.Spliced?
    requires s.a.sent - s.b.recv <= s.a.ring.maxCap
    ensures var s' := Run(s, acts);
            && s'.ab.delivered == s.ab.written
            && s'.ba == s.ba && s'.b.ring == s.b.ring && s'.b.sent == s.b.sent && s'.a.recv == s.a.recv
  {
    RetransmitAnswer(s);
    var gap := s.a.sent - s.b.recv;
    var s1 := Next(s, OnAB(Retransmit));
    RunOne(s, [], OnAB(Retransmit));
    assert [] + [OnAB(Retransmit)] == [OnAB(Retransmit)];
    assert s1.ab.data == s.ab.written[s.b.recv..];
    if gap == 0 {
      acts := [OnAB(Retransmit)];
    } else {
      acts := [OnAB(Retransmit)] + [OnAB(Read(gap))];
      RunOne(s, [OnAB(Retransmit)], OnAB(Read(gap)));
      assert s1.ab.data[..gap] == s1.ab.data;
      assert s.ab.written == s.ab.written[..s.b.recv] + s.ab.written[s.b.recv..];
    }
  }

  lemma CatchUp(s: Sys) returns (acts: seq<Act>)
    requires Inv(s) && RingsValid(s) && Down(s) && GapsFit(s)
    ensures CaughtUp(s, Run(s, acts))
  {
    var hs := Handshake(s);
    var s1 := Run(s, hs);
    RunKeepsInv(s, hs);
    var forward := Refill(s1);
    var s2 := Run(s1, forward);
    RunKeepsInv(s1, forward);
    var mirror := Refill(Flip(s2));
    FlipRun(Flip(s2), mirror);
    var backward :| Run(Flip(Flip(s2)), backward) == Flip(Run(Flip(s2), mirror));
    assert Flip(Flip(s2)) == s2;
    acts := hs + forward + backward;
    RunConcat(s, hs, forward);
    RunConcat(s, hs + forward, backward);
  }

  lemma LossBlocksCatchUp(s: Sys, acts: seq<Act>)
    requires Inv(s) && RingsValid(s) && Down(s) && !GapsFit(s)
    ensures !CaughtUp(s, Run(s, acts))
  {
    RunKeepsInv(s, acts);
    if s.a.sent - s.b.recv > s.a.ring.maxCap {
      LostIsForever(s, acts);
    } else {
      FlipRun(s, acts);
      var mirror :| Run(Flip(s), mirror) == Flip(Run(s, acts));
      LostIsForever(Flip(s), mirror);
    }
  }

  /** From any reachable state in which both directions are down and drained, some continuation
      delivers everything written so far if and only if both unread gaps fit their rings. */
  lemma RecoveryIsExact(ringA: Ring, ringB: Ring, acts: seq<Act>)
    requires ringA.Fresh() && ringB.Fresh()
    requires Down(Run(Init(ringA, ringB), acts))
    ensures var s := Run(Init(ringA, ringB), acts);
            CanCatchUp(s) <==> GapsFit(s)
  {
    Reachable(ringA, ringB, acts);
    var s := Run(Init(ringA, ringB), acts);
    if GapsFit(s) {
      var more := CatchUp(s);
      assert CaughtUp(s, Run(s, more));
    } else {
      forall more
        ensures !CaughtUp(s, Run(s, more))
      {
        LossBlocksCatchUp(s, more);
      }
    }
  }
}
