/** The stream lifecycle automaton (lib/orp/stream.go), and the language it accepts. */
module StreamFsm {
  import opened Wrappers

  datatype State = Init | Opening | Accepted | Spliced | Closing | Closed
  datatype Event = Open | Accept | Splice | Fin | Reset

  function Transition(s: State, e: Event): Option<State> {
    if e == Reset then Some(Closed)
    else
      match s
      case Init => if e == Open then Some(Opening) else None
      case Opening => if e == Accept then Some(Accepted) else if e == Fin then Some(Closing) else None
      case Accepted => if e == Splice then Some(Spliced) else if e == Fin then Some(Closing) else None
      case Spliced => if e == Fin then Some(Closing) else None
      case Closing => if e == Fin then Some(Closed) else None
      case Closed => None
  }

  class StreamFSM {
    var state: State

    constructor ()
      ensures state == Init
    {
      state := Init;
    }

    method Apply(e: Event) returns (ok: bool)
      modifies this
      ensures ok <==> Transition(old(state), e).Some?
      ensures state == if ok then Transition(old(state), e).value else old(state)
    {
      var next := Transition(state, e);
      if next.None? {
        return false;
      }
      state := next.value;
      return true;
    }
  }

  /** The state after applying events in turn, refused ones included. */
  function StateAfter(es: seq<Event>): State {
    if es == [] then Init
    else
      var s := StateAfter(es[..|es| - 1]);
      var next := Transition(s, es[|es| - 1]);
      if next.Some? then next.value else s
  }

  /** The events that were not refused, in order. */
  function Taken(es: seq<Event>): seq<Event> {
    if es == [] then []
    else
      var n := |es| - 1;
      Taken(es[..n]) + (if Transition(StateAfter(es[..n]), es[n]).Some? then [es[n]] else [])
  }

  // ---------- The language ----------

  /** A prefix of one of the three graceful lifecycles. */
  predicate Graceful(w: seq<Event>) {
    w <= [Open, Fin, Fin] || w <= [Open, Accept, Fin, Fin] || w <= [Open, Accept, Splice, Fin, Fin]
  }

  predicate ResetsFrom(w: seq<Event>, k: nat)
    requires k <= |w|
  {
    forall i :: k <= i < |w| ==> w[i] == Reset
  }

  /** A graceful prefix, then any number of resets. */
  ghost predicate InLanguage(w: seq<Event>) {
    exists k: nat :: k <= |w| && Graceful(w[..k]) && ResetsFrom(w, k)
  }

  predicate Complete(w: seq<Event>) {
    w == [Open, Fin, Fin] || w == [Open, Accept, Fin, Fin] || w == [Open, Accept, Splice, Fin, Fin]
  }

  /** The accepted history each state stands for. */
  ghost predicate Means(s: State, w: seq<Event>) {
    match s
    case Init => w == []
    case Opening => w == [Open]
    case Accepted => w == [Open, Accept]
    case Spliced => w == [Open, Accept, Splice]
    case Closing => w == [Open, Fin] || w == [Open, Accept, Fin] || w == [Open, Accept, Splice, Fin]
    case Closed => Complete(w) || (Reset in w && InLanguage(w))
  }

  lemma MeansIsInLanguage(s: State, w: seq<Event>)
    requires Means(s, w)
    ensures InLanguage(w)
    ensures s != Closed ==> Graceful(w)
  {
    if s != Closed || Complete(w) {
      assert w[..|w|] == w;
      assert Graceful(w[..|w|]) && ResetsFrom(w, |w|);
    }
  }

  lemma StepMeans(s: State, w: seq<Event>, e: Event)
    requires Means(s, w) && Transition(s, e).Some?
    ensures Means(Transition(s, e).value, w + [e])
  {
    if e == Reset {
      MeansIsInLanguage(s, w);
      var k: nat :| k <= |w| && Graceful(w[..k]) && ResetsFrom(w, k);
      assert (w + [e])[..k] == w[..k];
      assert ResetsFrom(w + [e], k);
      assert (w + [e])[|w|] == Reset;
    }
  }

  /** For every event sequence, what was accepted spells out the state. */
  lemma {:induction false} HistoryMeansState(es: seq<Event>)
    ensures Means(StateAfter(es), Taken(es))
  {
    if es != [] {
      var n := |es| - 1;
      HistoryMeansState(es[..n]);
      if Transition(StateAfter(es[..n]), es[n]).Some? {
        StepMeans(StateAfter(es[..n]), Taken(es[..n]), es[n]);
      }
    }
  }

  /** Soundness: whatever is thrown at the automaton, it accepts only words of the language. */
  lemma AcceptsOnlyLanguage(es: seq<Event>)
    ensures InLanguage(Taken(es))
  {
    HistoryMeansState(es);
    MeansIsInLanguage(StateAfter(es), Taken(es));
  }

  lemma PrefixInLanguage(w: seq<Event>)
    requires |w| > 0 && InLanguage(w)
    ensures InLanguage(w[..|w| - 1])
    ensures w[|w| - 1] == Reset || Graceful(w)
  {
    var n := |w| - 1;
    var k: nat :| k <= |w| && Graceful(w[..k]) && ResetsFrom(w, k);
    assert k == |w| ==> w[..k] == w;
    var j := if k <= n then k else n;
    assert w[..n][..j] == w[..k][..j];
    assert Graceful(w[..n][..j]) && ResetsFrom(w[..n], j);
  }

  /** The next event of a graceful word is allowed in the state its beginning stands for. */
  lemma GracefulContinues(s: State, w: seq<Event>)
    requires |w| > 0 && Graceful(w) && Means(s, w[..|w| - 1])
    ensures Transition(s, w[|w| - 1]).Some?
  {
    var n := |w| - 1;
    var m := w[..n];
    assert forall i :: 0 <= i < n ==> m[i] == w[i] != Reset;
    assert |m| >= 1 && Means(s, m) ==> m[0] == Open;
    assert |m| == 1 ==> m == [m[0]];
    assert |m| == 2 ==> m == [m[0], m[1]];
    assert |m| == 3 ==> m == [m[0], m[1], m[2]];
    assert |m| == 4 ==> m == [m[0], m[1], m[2], m[3]];
    if w <= [Open, Fin, Fin] {
      assert w[n] == [Open, Fin, Fin][n] && m == [Open, Fin, Fin][..n];
    } else if w <= [Open, Accept, Fin, Fin] {
      assert w[n] == [Open, Accept, Fin, Fin][n] && m == [Open, Accept, Fin, Fin][..n];
    } else {
      assert w[n] == [Open, Accept, Splice, Fin, Fin][n] && m == [Open, Accept, Splice, Fin, Fin][..n];
    }
  }

  /** So is the next event of any word of the language. */
  lemma WordContinues(s: State, w: seq<Event>)
    requires |w| > 0 && (w[|w| - 1] == Reset || Graceful(w)) && Means(s, w[..|w| - 1])
    ensures Transition(s, w[|w| - 1]).Some?
  {
    if w[|w| - 1] != Reset { GracefulContinues(s, w); }
  }

  lemma OwnHistory(w: seq<Event>)
    requires Taken(w) == w
    ensures Means(StateAfter(w), w)
  {
    HistoryMeansState(w);
  }

  lemma TakenOneMore(w: seq<Event>, n: nat)
    requires |w| == n + 1 && Taken(w[..n]) == w[..n] && Transition(StateAfter(w[..n]), w[n]).Some?
    ensures Taken(w) == w
  {
    assert w == w[..n] + [w[n]];
  }

  /** Completeness: every word of the language is accepted in full. */
  lemma {:induction false} AcceptsWholeLanguage(w: seq<Event>)
    requires InLanguage(w)
    ensures Taken(w) == w
  {
    if w != [] {
      var n := |w| - 1;
      PrefixInLanguage(w);
      AcceptsWholeLanguage(w[..n]);
      OwnHistory(w[..n]);
      WordContinues(StateAfter(w[..n]), w);
      TakenOneMore(w, n);
    }
  }

  /** A stream is spliced exactly when its accepted history is Open, Accept, Splice. */
  lemma SplicedIffHistory(es: seq<Event>)
    ensures StateAfter(es) == Spliced <==> Taken(es) == [Open, Accept, Splice]
  {
    HistoryMeansState(es);
    var w := Taken(es);
    if w == [Open, Accept, Splice] {
      assert w[2] == Splice && w[0] == Open && |w| == 3;
    }
  }

  function Count(w: seq<Event>): nat {
    if w == [] then 0 else Count(w[..|w| - 1]) + (if w[|w| - 1] == Reset then 0 else 1)
  }

  lemma {:induction false} CountBound(w: seq<Event>, k: nat)
    requires k <= |w| && ResetsFrom(w, k)
    ensures Count(w) <= k
    decreases |w|
  {
    if w != [] {
      if k == |w| { CountBound(w[..|w| - 1], k - 1); } else { CountBound(w[..|w| - 1], k); }
    }
  }

  /** No stream ever accepts more than five events other than resets, and once closed it accepts
      nothing but resets and stays closed. */
  lemma ClosedForGood(es: seq<Event>, e: Event)
    ensures Count(Taken(es)) <= 5
    ensures StateAfter(es) == Closed ==> StateAfter(es + [e]) == Closed
    ensures StateAfter(es) == Closed && e != Reset ==> Taken(es + [e]) == Taken(es)
  {
    AcceptsOnlyLanguage(es);
    var w := Taken(es);
    var k: nat :| k <= |w| && Graceful(w[..k]) && ResetsFrom(w, k);
    CountBound(w, k);
    assert (es + [e])[..|es + [e]| - 1] == es;
  }
}
