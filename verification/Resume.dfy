/** One end of a resumable stream (lib/resume/stream.go): the ring of sent bytes and the three byte
    counters. Endpoint is the value; ResumeState.State is the object whose methods update it. */
module Endpoints {
  import opened Wrappers
  import opened RingSpec

  datatype Endpoint = Endpoint(ring: Ring, sent: int, recv: int, peerAck: int)

  function OnWrite(e: Endpoint, p: seq<byte>): Endpoint
    requires e.ring.Valid()
  {
    if |p| == 0 then e else e.(ring := Write(e.ring, p), sent := e.sent + |p|)
  }

  function OnRead(e: Endpoint, n: int): Endpoint {
    if n <= 0 then e else e.(recv := e.recv + n)
  }

  function OnCheckpointFromPeer(e: Endpoint, ack: int): Endpoint
    requires e.ring.Valid()
  {
    if ack > e.peerAck then e.(peerAck := ack, ring := Discard(e.ring, ack)) else e
  }

  /** The (my_position, peer_ack_position) pair of a STREAM_RESUME. */
  function ResumePayload(e: Endpoint): (int, int) { (e.sent, e.recv) }

  function RetransmitFrom(e: Endpoint, pos: int): Result<seq<byte>, RingError>
    requires e.ring.Valid()
  {
    BytesFrom(e.ring, pos)
  }

  // ---------- Runs ----------

  datatype Event = Wrote(p: seq<byte>) | Got(n: int) | Acked(ack: int)

  function After(e: Endpoint, ev: Event): (e': Endpoint)
    requires e.ring.Valid()
    ensures e'.ring.Valid()
  {
    match ev
    case Wrote(p) => OnWrite(e, p)
    case Got(n) => OnRead(e, n)
    case Acked(ack) => OnCheckpointFromPeer(e, ack)
  }

  function Run(e: Endpoint, evs: seq<Event>): (e': Endpoint)
    requires e.ring.Valid()
    ensures e'.ring.Valid()
  {
    if evs == [] then e else After(Run(e, evs[..|evs| - 1]), evs[|evs| - 1])
  }

  /** Every byte written, in order. */
  function Written(evs: seq<Event>): seq<byte> {
    if evs == [] then []
    else Written(evs[..|evs| - 1]) + (if evs[|evs| - 1].Wrote? then evs[|evs| - 1].p else [])
  }

  /** How many bytes were received. */
  function Received(evs: seq<Event>): nat {
    if evs == [] then 0
    else
      var last := evs[|evs| - 1];
      Received(evs[..|evs| - 1]) + (if last.Got? && last.n > 0 then last.n else 0)
  }

  /** The largest position acknowledged, or 0. */
  function LargestAck(evs: seq<Event>): (m: nat)
    ensures forall i :: 0 <= i < |evs| && evs[i].Acked? ==> evs[i].ack <= m
    ensures m == 0 || Acked(m) in evs
  {
    if evs == [] then 0
    else
      var m, last := LargestAck(evs[..|evs| - 1]), evs[|evs| - 1];
      if last.Acked? && last.ack > m then last.ack else m
  }

  /** The largest acknowledged position, clipped to what was written when it arrived. */
  function AckMark(evs: seq<Event>): nat {
    if evs == [] then 0
    else
      var init, last := evs[..|evs| - 1], evs[|evs| - 1];
      if last.Acked? && last.ack > LargestAck(init) then Min(last.ack, |Written(init)|) else AckMark(init)
  }

  lemma {:induction false} AckMarkBounds(evs: seq<Event>)
    ensures AckMark(evs) <= LargestAck(evs) && AckMark(evs) <= |Written(evs)|
  {
    if evs != [] {
      AckMarkBounds(evs[..|evs| - 1]);
    }
  }

  function Fresh(ring: Ring): Endpoint { Endpoint(ring, 0, 0, 0) }

  /** What the counters and the ring of an endpoint are after the given events. */
  ghost predicate Shows(e: Endpoint, evs: seq<Event>) {
    && e.sent == |Written(evs)| && e.recv == Received(evs) && e.peerAck == LargestAck(evs)
    && Window(e.ring, Written(evs), AckMark(evs))
  }

  lemma AckShows(e: Endpoint, init: seq<Event>, ack: int)
    requires Shows(e, init)
    ensures Shows(OnCheckpointFromPeer(e, ack), init + [Acked(ack)])
    ensures OnCheckpointFromPeer(e, ack).ring.maxCap == e.ring.maxCap
  {
    var evs := init + [Acked(ack)];
    assert evs[..|evs| - 1] == init;
    AckMarkBounds(init);
    if ack > e.peerAck {
      WindowDiscard(e.ring, Written(init), AckMark(init), ack);
    }
  }

  lemma WriteShows(e: Endpoint, init: seq<Event>, p: seq<byte>)
    requires Shows(e, init)
    ensures Shows(OnWrite(e, p), init + [Wrote(p)])
    ensures OnWrite(e, p).ring.maxCap == e.ring.maxCap
  {
    var evs := init + [Wrote(p)];
    assert evs[..|evs| - 1] == init;
    if p != [] {
      WindowWrite(e.ring, Written(init), AckMark(init), p);
    }
  }

  lemma ReadShows(e: Endpoint, init: seq<Event>, n: int)
    requires Shows(e, init)
    ensures Shows(OnRead(e, n), init + [Got(n)])
  {
    var evs := init + [Got(n)];
    assert evs[..|evs| - 1] == init;
  }

  /** Over every list of calls on a new endpoint: Sent and Received count the bytes, PeerAck is the
      largest position acknowledged, and the ring is the window of what was written above that
      position, clipped to what was written when it arrived, as far as its capacity reaches. */
  lemma {:induction false} EndpointClosedForm(ring: Ring, evs: seq<Event>)
    requires ring.Fresh()
    ensures Shows(Run(Fresh(ring), evs), evs) && Run(Fresh(ring), evs).ring.maxCap == ring.maxCap
  {
    if evs == [] {
      FreshWindow(ring);
    } else {
      var init, last := evs[..|evs| - 1], evs[|evs| - 1];
      EndpointClosedForm(ring, init);
      assert init + [last] == evs;
      var e := Run(Fresh(ring), init);
      match last
      case Wrote(p) => WriteShows(e, init, p);
      case Got(n) => ReadShows(e, init, n);
      case Acked(ack) => AckShows(e, init, ack);
    }
  }

  /** After every list of calls a retransmission returns everything written from the position on, or
      fails exactly below the tail. */
  lemma RetransmitClosedForm(ring: Ring, evs: seq<Event>, pos: int)
    requires ring.Fresh()
    ensures var e := Run(Fresh(ring), evs);
            && RetransmitFrom(e, pos) == ReadOf(Written(evs), e.ring.Tail(), pos)
            && IsLarger(e.ring.Tail(), AckMark(evs), |Written(evs)| - ring.maxCap)
            && ResumePayload(e) == (|Written(evs)|, Received(evs))
  {
    EndpointClosedForm(ring, evs);
    BytesFromWindow(Run(Fresh(ring), evs).ring, Written(evs), AckMark(evs), pos);
  }
}

module ResumeState {
  import opened Wrappers
  import opened RingSpec
  import opened RingBuffers
  import Endpoints

  class State {
    const ring: RingBuffer
    var sentPos: int
    var recvPos: int
    var peerAckPos: int

    ghost predicate Valid()
      reads this, ring, ring.data
    {
      ring.Valid()
    }

    ghost function View(): Endpoints.Endpoint
      requires Valid()
      reads this, ring, ring.data
    {
      Endpoints.Endpoint(ring.View(), sentPos, recvPos, peerAckPos)
    }

    constructor (ringCap: int)
      ensures Valid() && fresh(ring) && fresh(ring.data)
      ensures View() == Endpoints.Endpoint(NewFixed(ringCap), 0, 0, 0)
    {
      ring := new RingBuffer.Fixed(ringCap);
      sentPos, recvPos, peerAckPos := 0, 0, 0;
    }

    method OnWrite(p: seq<byte>)
      requires Valid()
      modifies this, ring, ring.data
      ensures Valid() && (ring.data == old(ring.data) || fresh(ring.data))
      ensures View() == Endpoints.OnWrite(old(View()), p)
    {
      if |p| == 0 {
        return;
      }
      var _ := ring.Write(p);
      sentPos := sentPos + |p|;
    }

    method OnRead(n: int)
      requires Valid()
      modifies this
      ensures Valid() && View() == Endpoints.OnRead(old(View()), n)
    {
      if n <= 0 {
        return;
      }
      recvPos := recvPos + n;
    }

    method OnCheckpointFromPeer(peerAck: int)
      requires Valid()
      modifies this, ring
      ensures Valid() && (ring.data == old(ring.data) || fresh(ring.data))
      ensures View() == Endpoints.OnCheckpointFromPeer(old(View()), peerAck)
      ensures peerAckPos == Max(old(peerAckPos), peerAck) && ring.View().head == old(ring.View().head)
      ensures ring.View().Tail() == if peerAck > old(peerAckPos)
                                    then Max(old(ring.View().Tail()), Min(peerAck, ring.View().head))
                                    else old(ring.View().Tail())
    {
      var prev := peerAckPos;
      if peerAck > prev {
        peerAckPos := peerAck;
        ring.Discard(peerAck);
      }
    }

    method ResumePayload() returns (myPos: int, peerAck: int)
      requires Valid()
      ensures (myPos, peerAck) == Endpoints.ResumePayload(View())
    {
      myPos, peerAck := sentPos, recvPos;
    }

    method RetransmitFrom(peerPos: int) returns (out: array<byte>, err: Option<RingError>)
      requires Valid()
      ensures fresh(out)
      ensures (if err.None? then Ok(out[..]) else Err(err.value)) == Endpoints.RetransmitFrom(View(), peerPos)
    {
      out, err := ring.BytesFrom(peerPos);
    }
  }
}
