/** The resume ring (lib/resume/ringbuffer.go) as a value: a window onto the bytes written so far,
    held under a capacity that floats between minCap and maxCap.

    The functions follow the source branch by branch. The lemmas below say what the branches add up
    to over whole runs: a closed form for the window, the equivalence of adaptive and fixed rings,
    and the amortised cost of shrinking. */
module RingSpec {
  import opened Wrappers

  const DEFAULT_RING_CAPACITY := 16 * 1024 * 1024
  const DEFAULT_MIN_RING_CAPACITY := 64 * 1024

  datatype Ring = Ring(buf: seq<byte>, cap: int, minCap: int, maxCap: int, head: int) {
    function Tail(): int { head - |buf| }

    ghost predicate Valid() {
      && 0 < minCap <= cap <= maxCap
      && |buf| <= cap
      && |buf| <= head
    }

    /** Nothing has been written yet. */
    ghost predicate Fresh() {
      Valid() && buf == [] && head == 0
    }
  }

  datatype RingError = ErrBeforeRing

  function NewFixed(capacity: int): (r: Ring)
    ensures r.Fresh()
    ensures r.minCap == r.maxCap == if capacity <= 0 then 16_777_216 else capacity
  {
    var c := if capacity <= 0 then DEFAULT_RING_CAPACITY else capacity;
    Ring([], c, c, c, 0)
  }

  function NewAdaptive(minCap: int, maxCap: int): (r: Ring)
    ensures r.Fresh() && r.cap == r.minCap
    ensures r.maxCap == if maxCap <= 0 then 16_777_216 else maxCap
    ensures r.minCap == Min(if minCap <= 0 then 65_536 else minCap, r.maxCap)
  {
    var lo := if minCap <= 0 then DEFAULT_MIN_RING_CAPACITY else minCap;
    var hi := if maxCap <= 0 then DEFAULT_RING_CAPACITY else maxCap;
    var lo' := if lo > hi then hi else lo;
    Ring([], lo', lo', hi, 0)
  }

  /** The capacity after the grow step of a write of n bytes. */
  function GrownCap(r: Ring, n: nat): int {
    if r.maxCap > r.cap && |r.buf| + n > r.cap then
      var newCap := Min(Max(r.cap * 2, |r.buf| + n), r.maxCap);
      if newCap > r.cap then newCap else r.cap
    else r.cap
  }

  /** The bytes kept of a buffer and a write, under a capacity that already holds the buffer. */
  function Retained(buf: seq<byte>, p: seq<byte>, cap: int): seq<byte>
    requires |buf| <= cap
  {
    var n := |p|;
    if n >= cap then p[n - cap..]
    else if |buf| + n <= cap then buf + p
    else buf[|buf| + n - cap..] + p
  }

  function Write(r: Ring, p: seq<byte>): (r': Ring)
    requires r.Valid()
    ensures r'.Valid()
  {
    var cap := GrownCap(r, |p|);
    Ring(Retained(r.buf, p, cap), cap, r.minCap, r.maxCap, r.head + |p|)
  }

  function BytesFrom(r: Ring, pos: int): Result<seq<byte>, RingError>
    requires r.Valid()
  {
    if pos < r.Tail() then Err(ErrBeforeRing)
    else if pos > r.head then Ok([])
    else Ok(r.buf[pos - r.Tail()..])
  }

  /** Whether a Discard that left r behind goes on to reallocate, and the capacity it then picks. */
  predicate Shrinks(r: Ring) {
    r.cap > r.minCap && |r.buf| * 4 < r.cap && ShrunkCap(r) < r.cap
  }

  function ShrunkCap(r: Ring): int { Max(Max(r.cap / 2, r.minCap), |r.buf|) }

  /** The trimming half of Discard: drop the bytes below the position, keep the capacity. */
  function Trim(r: Ring, before: int): Ring
    requires r.Valid() && r.Tail() < before
  {
    var drop := before - r.Tail();
    r.(buf := if drop >= |r.buf| then [] else r.buf[drop..])
  }

  function Discard(r: Ring, before: int): (r': Ring)
    requires r.Valid()
    ensures r'.Valid()
  {
    if before <= r.Tail() then r
    else
      var t := Trim(r, before);
      if Shrinks(t) then t.(cap := ShrunkCap(t)) else t
  }

  // ---------- Runs ----------

  datatype Op = OpWrite(p: seq<byte>) | OpDiscard(before: int)

  function Apply(r: Ring, op: Op): (r': Ring)
    requires r.Valid()
    ensures r'.Valid()
  {
    match op
    case OpWrite(p) => Write(r, p)
    case OpDiscard(b) => Discard(r, b)
  }

  function Run(r: Ring, ops: seq<Op>): (r': Ring)
    requires r.Valid()
    ensures r'.Valid()
  {
    if ops == [] then r else Apply(Run(r, ops[..|ops| - 1]), ops[|ops| - 1])
  }

  /** Every byte a run has written, in order. */
  function Written(ops: seq<Op>): seq<byte> {
    if ops == [] then []
    else Written(ops[..|ops| - 1]) + (if ops[|ops| - 1].OpWrite? then ops[|ops| - 1].p else [])
  }

  /** The largest position a run has discarded up to, each clipped to what was written by then. */
  function DiscardMark(ops: seq<Op>): nat {
    if ops == [] then 0
    else
      var mark, last := DiscardMark(ops[..|ops| - 1]), ops[|ops| - 1];
      if last.OpDiscard? then Max(mark, Min(last.before, |Written(ops[..|ops| - 1])|)) else mark
  }

  /** Whatever the capacity is doing, a write keeps exactly the last maxCap bytes. */
  lemma WriteKeepsSuffix(r: Ring, p: seq<byte>)
    requires r.Valid()
    ensures var all := r.buf + p;
            Write(r, p).buf == all[(if |all| > r.maxCap then |all| - r.maxCap else 0)..]
    ensures Write(r, p).maxCap == r.maxCap && Write(r, p).minCap == r.minCap
    ensures Write(r, p).head == r.head + |p|
  {
    var all := r.buf + p;
    var cap := GrownCap(r, |p|);
    assert cap < r.maxCap ==> |all| <= cap;
    if |p| >= cap {
      assert all[|all| - cap..] == p[|p| - cap..];
    } else if |all| > cap {
      assert all[|all| - cap..] == r.buf[|all| - cap..] + p;
    }
  }

  lemma DiscardMoves(r: Ring, before: int)
    requires r.Valid()
    ensures var r' := Discard(r, before);
            && r'.head == r.head && r'.maxCap == r.maxCap && r'.minCap == r.minCap
            && r'.Tail() == Max(r.Tail(), Min(before, r.head))
            && r'.buf == r.buf[r'.Tail() - r.Tail()..]
  {
  }

  /** m is the larger of x and y. */
  ghost predicate IsLarger(m: int, x: int, y: int) { x <= m && y <= m && (m == x || m == y) }

  /** The window invariant: r shows the last bytes of w, from the larger of the discard mark and
      |w| - maxCap. */
  ghost predicate Window(r: Ring, w: seq<byte>, mark: nat) {
    && r.Valid()
    && mark <= |w| == r.head
    && IsLarger(r.Tail(), mark, |w| - r.maxCap)
    && r.buf == w[r.Tail()..]
  }

  lemma FreshWindow(r: Ring)
    requires r.Fresh()
    ensures Window(r, [], 0)
  {
  }

  lemma WindowWrite(r: Ring, w: seq<byte>, mark: nat, p: seq<byte>)
    requires Window(r, w, mark)
    ensures Window(Write(r, p), w + p, mark)
    ensures Write(r, p).maxCap == r.maxCap && Write(r, p).minCap == r.minCap
  {
    var r' := Write(r, p);
    WriteKeepsSuffix(r, p);
    var total := |r.buf| + |p|;
    WindowSuffix(r.buf, w, p, r.Tail(), if total > r.maxCap then total - r.maxCap else 0);
    assert r'.buf == (w + p)[r'.Tail()..];
  }

  lemma WindowSuffix(buf: seq<byte>, w: seq<byte>, p: seq<byte>, tail: nat, k: nat)
    requires tail <= |w| && buf == w[tail..] && k <= |buf| + |p|
    ensures (buf + p)[k..] == (w + p)[tail + k..]
  {
    assert buf + p == (w + p)[tail..];
  }

  lemma WindowDiscard(r: Ring, w: seq<byte>, mark: nat, before: int)
    requires Window(r, w, mark)
    ensures Window(Discard(r, before), w, Max(mark, Min(before, |w|)))
    ensures Discard(r, before).maxCap == r.maxCap && Discard(r, before).minCap == r.minCap
  {
    DiscardMoves(r, before);
  }

  /** Closed form: after any run the ring holds Written[Tail..Head], and Tail is the larger of the
      discard mark and Head - maxCap. */
  lemma {:induction false} ClosedForm(r0: Ring, ops: seq<Op>)
    requires r0.Fresh()
    ensures Window(Run(r0, ops), Written(ops), DiscardMark(ops))
    ensures Run(r0, ops).maxCap == r0.maxCap && Run(r0, ops).minCap == r0.minCap
  {
    if ops != [] {
      var init, last := ops[..|ops| - 1], ops[|ops| - 1];
      ClosedForm(r0, init);
      var r := Run(r0, init);
      if last.OpWrite? {
        WindowWrite(r, Written(init), DiscardMark(init), last.p);
      } else {
        WindowDiscard(r, Written(init), DiscardMark(init), last.before);
        assert Written(ops) == Written(init);
      }
    }
  }

  /** What a reader of a window sees: an error exactly below the tail, otherwise every byte from the
      position to the head. */
  function ReadOf(w: seq<byte>, tail: nat, pos: int): Result<seq<byte>, RingError> {
    if pos < tail then Err(ErrBeforeRing) else if pos > |w| then Ok([]) else Ok(w[pos..])
  }

  lemma BytesFromWindow(r: Ring, w: seq<byte>, mark: nat, pos: int)
    requires Window(r, w, mark)
    ensures BytesFrom(r, pos) == ReadOf(w, r.Tail(), pos)
  {
    if r.Tail() <= pos <= r.head {
      assert r.buf[pos - r.Tail()..] == w[pos..];
    }
  }

  /** After any run a read answers exactly as the closed form of the window says. */
  lemma BytesFromClosedForm(r0: Ring, ops: seq<Op>, pos: int)
    requires r0.Fresh()
    ensures BytesFrom(Run(r0, ops), pos) == ReadOf(Written(ops), Run(r0, ops).Tail(), pos)
    ensures IsLarger(Run(r0, ops).Tail(), DiscardMark(ops), |Written(ops)| - r0.maxCap)
  {
    ClosedForm(r0, ops);
    BytesFromWindow(Run(r0, ops), Written(ops), DiscardMark(ops), pos);
  }

  /** An adaptive ring is observably a fixed ring of its maximum capacity. */
  lemma AdaptiveRefinesFixed(minCap: int, maxCap: int, ops: seq<Op>, pos: int)
    ensures var adaptive, fixed := Run(NewAdaptive(minCap, maxCap), ops), Run(NewFixed(maxCap), ops);
            && adaptive.head == fixed.head
            && adaptive.Tail() == fixed.Tail()
            && adaptive.buf == fixed.buf
            && BytesFrom(adaptive, pos) == BytesFrom(fixed, pos)
            && adaptive.minCap <= adaptive.cap <= fixed.cap == adaptive.maxCap
  {
    ClosedForm(NewAdaptive(minCap, maxCap), ops);
    ClosedForm(NewFixed(maxCap), ops);
    SameWindow(Run(NewAdaptive(minCap, maxCap), ops), Run(NewFixed(maxCap), ops),
               Written(ops), DiscardMark(ops), pos);
  }

  /** The window fixes everything a reader can see; the current capacity is not part of it. */
  lemma SameWindow(r: Ring, r': Ring, w: seq<byte>, mark: nat, pos: int)
    requires Window(r, w, mark) && Window(r', w, mark) && r.maxCap == r'.maxCap
    ensures r.head == r'.head && r.Tail() == r'.Tail() && r.buf == r'.buf
    ensures BytesFrom(r, pos) == BytesFrom(r', pos)
  {
  }

  // ---------- Amortised cost of shrinking ----------

  /** The bytes Discard gives back, and the bytes its shrink step copies to a new array. */
  function FreedBy(r: Ring, op: Op): nat
    requires r.Valid()
  {
    if op.OpDiscard? then |r.buf| - |Discard(r, op.before).buf| else 0
  }

  function CopiedBy(r: Ring, op: Op): nat
    requires r.Valid()
  {
    if op.OpDiscard? && op.before > r.Tail() && Shrinks(Trim(r, op.before))
    then |Trim(r, op.before).buf| else 0
  }

  function Freed(r0: Ring, ops: seq<Op>): nat
    requires r0.Valid()
  {
    if ops == [] then 0
    else Freed(r0, ops[..|ops| - 1]) + FreedBy(Run(r0, ops[..|ops| - 1]), ops[|ops| - 1])
  }

  function Copied(r0: Ring, ops: seq<Op>): nat
    requires r0.Valid()
  {
    if ops == [] then 0
    else Copied(r0, ops[..|ops| - 1]) + CopiedBy(Run(r0, ops[..|ops| - 1]), ops[|ops| - 1])
  }

  /** The credit 2 * freed - copied must cover the next shrink whenever one can still happen. */
  ghost predicate CreditCovers(r: Ring, credit: int) {
    credit >= 0 && (r.cap > r.minCap ==> credit >= r.cap - 2 * |r.buf|)
  }

  lemma CreditStep(r: Ring, op: Op, credit: int)
    requires r.Valid() && CreditCovers(r, credit)
    ensures CreditCovers(Apply(r, op), credit + 2 * FreedBy(r, op) - CopiedBy(r, op))
  {
    if op.OpWrite? {
      WriteKeepsSuffix(r, op.p);
      var r' := Apply(r, op);
      assert |r'.buf| == Min(|r.buf| + |op.p|, r.maxCap);
      assert r'.cap != r.cap ==> r'.cap <= 2 * |r'.buf|;
    } else if op.before > r.Tail() {
      var t := Trim(r, op.before);
      assert CreditCovers(t, credit + 2 * FreedBy(r, op));
    }
  }

  /** Over any run from a fresh ring, all shrinks together copy at most twice what Discard freed. */
  lemma {:induction false} AmortisedShrink(r0: Ring, ops: seq<Op>)
    requires r0.Fresh() && r0.cap == r0.minCap
    ensures CreditCovers(Run(r0, ops), 2 * Freed(r0, ops) - Copied(r0, ops))
    ensures Copied(r0, ops) <= 2 * Freed(r0, ops)
  {
    if ops != [] {
      var init := ops[..|ops| - 1];
      AmortisedShrink(r0, init);
      CreditStep(Run(r0, init), ops[|ops| - 1], 2 * Freed(r0, init) - Copied(r0, init));
    }
  }

  /** Hysteresis: a write that does not fit grows the capacity to twice what it was, or to what is needed
      if that is more, within maxCap; a discard that leaves it less than a quarter full halves it, within
      minCap. A grow leaves the ring at least half full and a shrink at most half full, so neither can
      follow the other before about half the capacity has been written or freed. */
  lemma ResizeHysteresis(r: Ring, op: Op)
    requires r.Valid()
    ensures var r' := Apply(r, op);
            && (op.OpWrite? ==>
                  var needed := |r.buf| + |op.p|;
                  r'.cap == if needed > r.cap then Min(Max(2 * r.cap, needed), r.maxCap) else r.cap)
            && (op.OpWrite? ==> r.cap <= r'.cap)
            && (op.OpDiscard? ==>
                  r'.cap == if op.before > r.Tail() && 4 * |r'.buf| < r.cap then Max(r.cap / 2, r.minCap) else r.cap)
            && (op.OpDiscard? ==> r'.cap <= r.cap)
            && (r'.cap > r.cap ==> 2 * |r'.buf| >= r'.cap)
            && (r'.cap < r.cap ==> 2 * |r'.buf| <= r'.cap == Max(r.cap / 2, r.minCap))
            && (op.OpDiscard? && op.before > r.Tail() && r'.cap == r.cap > r.minCap ==> 4 * |r'.buf| >= r'.cap)
  {
    if op.OpWrite? {
      WriteKeepsSuffix(r, op.p);
      assert |Apply(r, op).buf| == Min(|r.buf| + |op.p|, r.maxCap);
    }
  }

  /** Repeating a discard changes nothing, capacity included, exactly when the position lies within the
      head or the capacity is already at its minimum. A position at or below the tail returns before the
      shrink step, although the comment in lib/resume/resume_test.go:187 expects that step to run again;
      a position above the head never does, so each repeat halves the capacity once more. */
  lemma RepeatedDiscardIsIdle(r: Ring, before: int)
    requires r.Valid()
    ensures Discard(Discard(r, before), before) == Discard(r, before)
            <==> before <= r.head || Discard(r, before).cap == r.minCap
    ensures before > r.head && Discard(r, before).cap > r.minCap ==>
              Discard(Discard(r, before), before)
              == Discard(r, before).(cap := Max(Discard(r, before).cap / 2, r.minCap))
  {
    DiscardMoves(r, before);
    if before > r.head {
      EmptyRingHalves(Discard(r, before), before);
    }
  }

  /** Discarding past the head of an empty ring halves its capacity, down to the minimum. */
  lemma EmptyRingHalves(r: Ring, before: int)
    requires r.Valid() && r.buf == [] && before > r.head
    ensures Discard(r, before) == if r.cap > r.minCap then r.(cap := Max(r.cap / 2, r.minCap)) else r
  {
    assert Trim(r, before) == r;
  }
}
