/** The broadcast hub shared by pkg/policy/server.go and pkg/registry/server.go: publishers push
    events, under a mutex, into bounded per-watcher channels; a watcher whose channel is full is
    removed from the map and its channel closed; each watcher's handler goroutine sends an optional
    snapshot, then drains its channel, and on the way out removes itself.

    A hub state records every watcher ever registered, including what its handler has sent, and the
    log of all broadcasts. Each mutex-protected section, each channel receive with its Send, and each
    handler exit is one atomic action, so a run is an arbitrary interleaving of goroutines. */
module WatchHub {
  const QUEUE_CAP := 64

  /** An event together with the tenant it is broadcast for and the service it names, if any. */
  datatype Broadcast<+E> = Broadcast(ev: E, tenant: string, name: string)

  datatype Exit = Cancelled | SendFailed | Dropped

  datatype Handler = Running | Exiting(why: Exit) | Gone(why: Exit)

  /** What a watcher asked for; an empty tenant or an empty name set means all. */
  datatype Filter = Filter(tenant: string, names: set<string>)

  datatype Watcher<+E> = Watcher(
    filter: Filter,
    queue: seq<E>, closed: bool, closes: nat,  // the channel, and how often close was called on it
    registered: bool,                          // present in the server's map
    handler: Handler,
    prelude: seq<E>, sentPrelude: nat,         // snapshot events, and how many were sent
    taken: seq<E>,                             // live events sent to the client
    lost: seq<E>,                              // live event received but whose Send failed
    since: nat, until: nat)                    // log positions of joining and leaving the map

  /** panicked records a send on, or a close of, a closed channel. */
  datatype Hub<+E> = Hub(ws: map<nat, Watcher<E>>, log: seq<Broadcast<E>>, panicked: bool)

  datatype Act<+E> =
    | Join(id: nat, filter: Filter, prelude: seq<E>)
    | Publish(b: Broadcast<E>)
    | Send(id: nat, ok: bool)
    | Cancel(id: nat)
    | Leave(id: nat)

  predicate Matches<E>(f: Filter, b: Broadcast<E>) {
    (f.tenant == "" || f.tenant == b.tenant) && (f.names == {} || b.name in f.names)
  }

  /** The body of the broadcast loop for one watcher; at is the log position of the event. */
  function Offer<E>(w: Watcher<E>, b: Broadcast<E>, at: nat): (r: Watcher<E>)
    ensures r.filter == w.filter && r.prelude == w.prelude && r.since == w.since
  {
    if !(w.registered && Matches(w.filter, b)) then w
    else if |w.queue| < QUEUE_CAP then w.(queue := w.queue + [b.ev])
    else w.(registered := false, closed := true, closes := w.closes + 1, until := at)
  }

  function NewWatcher<E>(filter: Filter, prelude: seq<E>, at: nat): Watcher<E> {
    Watcher(filter, [], false, 0, true, Running, prelude, 0, [], [], at, at)
  }

  /** One pass of the handler: the next snapshot event, else the next live event, else the closed
      channel, else nothing to do. */
  function Advance<E>(w: Watcher<E>, ok: bool): (r: Watcher<E>)
    ensures r.filter == w.filter && r.prelude == w.prelude && r.since == w.since
  {
    if !w.handler.Running? then w
    else if w.sentPrelude < |w.prelude| then
      if ok then w.(sentPrelude := w.sentPrelude + 1) else w.(handler := Exiting(SendFailed))
    else if w.queue != [] then
      var w' := w.(queue := w.queue[1..]);
      if ok then w'.(taken := w.taken + [w.queue[0]])
      else w'.(lost := [w.queue[0]], handler := Exiting(SendFailed))
    else if w.closed then w.(handler := Exiting(Dropped))
    else w
  }

  /** The deferred removeWatcher. */
  function Removed<E>(w: Watcher<E>, at: nat): (r: Watcher<E>)
    requires w.handler.Exiting?
    ensures r.filter == w.filter && r.prelude == w.prelude && r.since == w.since
  {
    var gone := w.(handler := Gone(w.handler.why));
    if w.registered then gone.(registered := false, closed := true, closes := w.closes + 1, until := at)
    else gone
  }

  ghost function Next<E>(h: Hub<E>, act: Act<E>): Hub<E> {
    match act
    case Join(id, filter, prelude) =>
      if id in h.ws then h else h.(ws := h.ws[id := NewWatcher(filter, prelude, |h.log|)])
    case Publish(b) =>
      Hub(map id | id in h.ws :: Offer(h.ws[id], b, |h.log|),
          h.log + [b],
          h.panicked || exists id :: id in h.ws && h.ws[id].registered && h.ws[id].closed
                                     && Matches(h.ws[id].filter, b))
    case Send(id, ok) =>
      if id in h.ws then h.(ws := h.ws[id := Advance(h.ws[id], ok)]) else h
    case Cancel(id) =>
      if id in h.ws && h.ws[id].handler.Running? && h.ws[id].sentPrelude == |h.ws[id].prelude|
      then h.(ws := h.ws[id := h.ws[id].(handler := Exiting(Cancelled))]) else h
    case Leave(id) =>
      if id in h.ws && h.ws[id].handler.Exiting? then
        h.(ws := h.ws[id := Removed(h.ws[id], |h.log|)],
           panicked := h.panicked || (h.ws[id].registered && h.ws[id].closed))
      else h
  }

  function Empty<E>(): Hub<E> { Hub(map[], [], false) }

  ghost function Run<E>(h: Hub<E>, acts: seq<Act<E>>): Hub<E> {
    if acts == [] then h else Next(Run(h, acts[..|acts| - 1]), acts[|acts| - 1])
  }

  // ---------- What a watcher is owed ----------

  /** The events of a log stretch that pass the filter, in order. */
  function Matching<E>(f: Filter, bs: seq<Broadcast<E>>): seq<E> {
    if bs == [] then []
    else
      var last := bs[|bs| - 1];
      Matching(f, bs[..|bs| - 1]) + (if Matches(f, last) then [last.ev] else [])
  }

  lemma MatchingOneMore<E>(f: Filter, bs: seq<Broadcast<E>>, b: Broadcast<E>)
    ensures Matching(f, bs + [b]) == Matching(f, bs) + (if Matches(f, b) then [b.ev] else [])
  {
    assert (bs + [b])[..|bs + [b]| - 1] == bs;
  }

  /** The end of the log stretch during which the watcher was in the map. */
  function End<E>(w: Watcher<E>, log: seq<Broadcast<E>>): nat {
    if w.registered then |log| else w.until
  }

  /** Received plus queued is exactly what the watcher was owed while in the map. */
  ghost predicate OwedInv<E>(w: Watcher<E>, log: seq<Broadcast<E>>) {
    && w.since <= End(w, log) <= |log|
    && w.taken + w.lost + w.queue == Matching(w.filter, log[w.since..End(w, log)])
  }

  /** The watcher was thrown out by the event at its until position: it matched and found the queue
      full. */
  ghost predicate Evicted<E>(w: Watcher<E>, log: seq<Broadcast<E>>) {
    && !w.registered && w.since <= w.until < |log| && Matches(w.filter, log[w.until])
    && |Matching(w.filter, log[w.since..w.until])| >= QUEUE_CAP
  }

  ghost predicate ChannelInv<E>(w: Watcher<E>) {
    && (w.registered <==> !w.closed)
    && w.closes == (if w.closed then 1 else 0)
    && |w.queue| <= QUEUE_CAP
  }

  ghost predicate HandlerInv<E>(w: Watcher<E>) {
    && (w.lost == [] || (!w.handler.Running? && w.handler.why == SendFailed))
    && w.sentPrelude <= |w.prelude|
    && (w.taken + w.lost != [] ==> w.sentPrelude == |w.prelude|)
    && (w.handler.Gone? ==> !w.registered)
    && (!w.handler.Running? && w.handler.why == Dropped ==>
          !w.registered && w.queue == [] && w.lost == [] && w.sentPrelude == |w.prelude|)
  }

  /** Outside the map the watcher was evicted, unless its own handler removed it. */
  ghost predicate EvictionInv<E>(w: Watcher<E>, log: seq<Broadcast<E>>) {
    !w.registered && (w.handler.Gone? ==> w.handler.why == Dropped) ==> Evicted(w, log)
  }

  ghost predicate WatcherInv<E>(w: Watcher<E>, log: seq<Broadcast<E>>) {
    ChannelInv(w) && OwedInv(w, log) && HandlerInv(w) && EvictionInv(w, log)
  }

  ghost predicate HubInv<E>(h: Hub<E>) {
    !h.panicked && forall id :: id in h.ws ==> WatcherInv(h.ws[id], h.log)
  }

  lemma AppendToLast<T>(a: seq<T>, b: seq<T>, c: seq<T>, x: T)
    ensures a + b + (c + [x]) == (a + b + c) + [x]
  {
  }

  lemma MoveHead<T>(a: seq<T>, b: seq<T>, c: seq<T>)
    requires c != []
    ensures a + b + c == (a + b + [c[0]]) + c[1..]
    ensures b == [] ==> a + b + c == (a + [c[0]]) + b + c[1..]
  {
    assert c == [c[0]] + c[1..];
  }

  lemma OfferKeepsOwed<E>(w: Watcher<E>, log: seq<Broadcast<E>>, b: Broadcast<E>)
    requires OwedInv(w, log)
    ensures OwedInv(Offer(w, b, |log|), log + [b])
  {
    var w', log' := Offer(w, b, |log|), log + [b];
    if w.registered && w'.registered {
      assert log'[w.since..|log'|] == log[w.since..|log|] + [b];
      MatchingOneMore(w.filter, log[w.since..|log|], b);
      AppendToLast(w.taken, w.lost, w.queue, b.ev);
    } else {
      assert log'[w.since..End(w, log)] == log[w.since..End(w, log)];
    }
  }

  lemma OfferKeepsWatcher<E>(w: Watcher<E>, log: seq<Broadcast<E>>, b: Broadcast<E>)
    requires WatcherInv(w, log)
    ensures WatcherInv(Offer(w, b, |log|), log + [b])
  {
    OfferKeepsOwed(w, log, b);
    assert (log + [b])[w.since..End(w, log)] == log[w.since..End(w, log)];
  }

  lemma AdvanceKeepsWatcher<E>(w: Watcher<E>, log: seq<Broadcast<E>>, ok: bool)
    requires WatcherInv(w, log)
    ensures WatcherInv(Advance(w, ok), log)
  {
    if w.handler.Running? && w.sentPrelude == |w.prelude| && w.queue != [] {
      MoveHead(w.taken, w.lost, w.queue);
      assert w.taken + [] + w.queue == w.taken + w.lost + w.queue;
    }
  }

  lemma PublishKeepsInv<E>(h: Hub<E>, b: Broadcast<E>)
    requires HubInv(h)
    ensures HubInv(Next(h, Publish(b)))
  {
    forall id | id in h.ws
      ensures WatcherInv(Offer(h.ws[id], b, |h.log|), h.log + [b])
    {
      OfferKeepsWatcher(h.ws[id], h.log, b);
    }
    assert forall id :: id in h.ws ==> ChannelInv(h.ws[id]);
  }

  lemma UpdateKeepsInv<E>(h: Hub<E>, id: nat, w: Watcher<E>)
    requires HubInv(h) && WatcherInv(w, h.log)
    ensures HubInv(h.(ws := h.ws[id := w]))
  {
  }

  lemma LeaveKeepsWatcher<E>(w: Watcher<E>, log: seq<Broadcast<E>>)
    requires WatcherInv(w, log) && w.handler.Exiting?
    ensures WatcherInv(Removed(w, |log|), log)
  {
  }

  lemma NextKeepsInv<E>(h: Hub<E>, act: Act<E>)
    requires HubInv(h)
    ensures HubInv(Next(h, act))
  {
    match act
    case Join(id, filter, prelude) =>
      assert h.log[|h.log|..|h.log|] == [];
      UpdateKeepsInv(h, id, NewWatcher(filter, prelude, |h.log|));
    case Publish(b) =>
      PublishKeepsInv(h, b);
    case Send(id, ok) =>
      if id in h.ws {
        AdvanceKeepsWatcher(h.ws[id], h.log, ok);
        UpdateKeepsInv(h, id, Advance(h.ws[id], ok));
      }
    case Cancel(id) =>
      if id in h.ws && h.ws[id].handler.Running? {
        UpdateKeepsInv(h, id, h.ws[id].(handler := Exiting(Cancelled)));
      }
    case Leave(id) =>
      if id in h.ws && h.ws[id].handler.Exiting? {
        LeaveKeepsWatcher(h.ws[id], h.log);
        UpdateKeepsInv(h, id, Removed(h.ws[id], |h.log|));
      }
  }

  /** What a watcher asked for never changes, watchers appear only by joining, and only a broadcast
      extends the log. */
  lemma NextFrame<E>(h: Hub<E>, act: Act<E>)
    ensures var h' := Next(h, act);
            && h'.log == (if act.Publish? then h.log + [act.b] else h.log)
            && (forall id :: id in h.ws ==>
                  && id in h'.ws && h'.ws[id].filter == h.ws[id].filter
                  && h'.ws[id].prelude == h.ws[id].prelude && h'.ws[id].since == h.ws[id].since)
            && (forall id :: id in h'.ws && id !in h.ws ==>
                  act.Join? && act.id == id && h'.ws[id] == NewWatcher(act.filter, act.prelude, |h.log|))
  {
  }

  lemma {:induction false} RunKeepsInv<E>(acts: seq<Act<E>>)
    ensures HubInv(Run(Empty<E>(), acts))
  {
    if acts != [] {
      RunKeepsInv(acts[..|acts| - 1]);
      NextKeepsInv(Run(Empty<E>(), acts[..|acts| - 1]), acts[|acts| - 1]);
    }
  }

  // ---------- Main results ----------

  /** Gap-free watch. While a watcher is in the map, what it has received plus what is queued is
      exactly the matching broadcasts since it joined, in order. Once evicted, it is exactly those
      before the first one that did not fit. */
  lemma GapFreeWatch<E>(acts: seq<Act<E>>, id: nat)
    requires id in Run(Empty<E>(), acts).ws
    ensures var h := Run(Empty<E>(), acts);
            var w := h.ws[id];
            && OwedInv(w, h.log)
            && (w.registered ==> End(w, h.log) == |h.log|)
            && (!w.registered && !w.handler.Gone? ==> Evicted(w, h.log))
  {
    RunKeepsInv(acts);
  }

  /** The broadcast carries the event and is one the filter asks for. */
  predicate AskedFor<E(==)>(f: Filter, b: Broadcast<E>, e: E) {
    b.ev == e && (f.tenant != "" ==> b.tenant == f.tenant) && (f.names != {} ==> b.name in f.names)
  }

  lemma {:induction false} MatchingCameFrom<E>(f: Filter, bs: seq<Broadcast<E>>, i: nat) returns (k: nat)
    requires i < |Matching(f, bs)|
    ensures k < |bs| && AskedFor(f, bs[k], Matching(f, bs)[i])
  {
    var n := |bs| - 1;
    if i < |Matching(f, bs[..n])| {
      k := MatchingCameFrom(f, bs[..n], i);
    } else {
      k := n;
    }
  }

  lemma TakenCameFrom<E>(w: Watcher<E>, log: seq<Broadcast<E>>, i: nat) returns (k: nat)
    requires OwedInv(w, log) && i < |w.taken|
    ensures w.since <= k < |log| && AskedFor(w.filter, log[k], w.taken[i])
  {
    var bs := log[w.since..End(w, log)];
    assert w.taken[i] == (w.taken + w.lost + w.queue)[i];
    var j := MatchingCameFrom(w.filter, bs, i);
    k := w.since + j;
    assert bs[j] == log[k];
  }

  /** Isolation: every live event sent to a client was broadcast after it joined, for the tenant and
      one of the names it asked for. */
  lemma DeliveredWasAskedFor<E>(acts: seq<Act<E>>, id: nat, i: nat)
    requires id in Run(Empty<E>(), acts).ws && i < |Run(Empty<E>(), acts).ws[id].taken|
    ensures var h := Run(Empty<E>(), acts);
            exists k :: h.ws[id].since <= k < |h.log| && AskedFor(h.ws[id].filter, h.log[k], h.ws[id].taken[i])
  {
    RunKeepsInv(acts);
    var h := Run(Empty<E>(), acts);
    assert WatcherInv(h.ws[id], h.log);
    var k := TakenCameFrom(h.ws[id], h.log, i);
  }

  lemma MatchesIffAskedFor<E>(f: Filter, b: Broadcast<E>)
    ensures Matches(f, b) <==> AskedFor(f, b, b.ev)
  {
  }

  lemma {:induction false} MatchingKeepsAll<E>(f: Filter, bs: seq<Broadcast<E>>, k: nat)
    requires k < |bs| && AskedFor(f, bs[k], bs[k].ev)
    ensures bs[k].ev in Matching(f, bs)
  {
    var n := |bs| - 1;
    if k < n {
      MatchingKeepsAll(f, bs[..n], k);
    } else {
      MatchesIffAskedFor(f, bs[n]);
      assert Matching(f, bs)[|Matching(f, bs[..n])|] == bs[n].ev;
    }
  }

  lemma OwedHoldsAsked<E>(w: Watcher<E>, log: seq<Broadcast<E>>, k: nat)
    requires OwedInv(w, log) && w.since <= k < End(w, log) && AskedFor(w.filter, log[k], log[k].ev)
    ensures log[k].ev in w.taken + w.lost + w.queue
  {
    var bs := log[w.since..End(w, log)];
    assert bs[k - w.since] == log[k];
    MatchingKeepsAll(w.filter, bs, k - w.since);
  }

  /** And the converse, for every filter, one that asks for all tenants included: every broadcast a
      watcher asked for, made while it was in the map, was sent to it or waits in its queue, unless its
      Send failed. */
  lemma AskedForIsOwed<E>(acts: seq<Act<E>>, id: nat, k: nat)
    requires var h := Run(Empty<E>(), acts);
             && id in h.ws && h.ws[id].since <= k < End(h.ws[id], h.log) && k < |h.log|
             && AskedFor(h.ws[id].filter, h.log[k], h.log[k].ev)
    ensures var h := Run(Empty<E>(), acts);
            h.log[k].ev in h.ws[id].taken + h.ws[id].lost + h.ws[id].queue
  {
    RunKeepsInv(acts);
    var h := Run(Empty<E>(), acts);
    assert WatcherInv(h.ws[id], h.log);
    OwedHoldsAsked(h.ws[id], h.log, k);
  }

  /** A watcher loses its place on a broadcast exactly when it asked for it with 64 events waiting. */
  lemma DropsIffFull<E>(acts: seq<Act<E>>, id: nat, b: Broadcast<E>)
    requires id in Run(Empty<E>(), acts).ws && Run(Empty<E>(), acts).ws[id].registered
    ensures var w := Run(Empty<E>(), acts).ws[id];
            var w' := Next(Run(Empty<E>(), acts), Publish(b)).ws[id];
            && (!w'.registered <==> |w.queue| == 64 && AskedFor(w.filter, b, b.ev))
            && w'.closed == !w'.registered
  {
    RunKeepsInv(acts);
    assert WatcherInv(Run(Empty<E>(), acts).ws[id], Run(Empty<E>(), acts).log);
    MatchesIffAskedFor(Run(Empty<E>(), acts).ws[id].filter, b);
  }

  /** A handler always gets out: cancelling it, or failing a Send, ends its loop, and leaving then takes
      its watcher out of the map with the channel closed. */
  lemma HandlersLeave<E>(h: Hub<E>, id: nat)
    requires HubInv(h) && id in h.ws
    ensures h.ws[id].handler.Running? && h.ws[id].sentPrelude == |h.ws[id].prelude| ==>
              Ends(Next(h, Cancel(id)), id, Exiting(Cancelled))
    ensures h.ws[id].handler.Running? && (h.ws[id].sentPrelude < |h.ws[id].prelude| || h.ws[id].queue != []) ==>
              Ends(Next(h, Send(id, false)), id, Exiting(SendFailed))
    ensures h.ws[id].handler.Exiting? ==>
              && Ends(Next(h, Leave(id)), id, Gone(h.ws[id].handler.why))
              && !Next(h, Leave(id)).ws[id].registered && Next(h, Leave(id)).ws[id].closed
  {
    assert WatcherInv(h.ws[id], h.log);
  }

  ghost predicate Ends<E>(h: Hub<E>, id: nat, handler: Handler) { id in h.ws && h.ws[id].handler == handler }

  /** A handler that ends because it was dropped has sent everything up to the event that did not
      fit, and nothing after it. */
  lemma DropIsVisible<E>(acts: seq<Act<E>>, id: nat)
    requires id in Run(Empty<E>(), acts).ws
    requires var w := Run(Empty<E>(), acts).ws[id]; !w.handler.Running? && w.handler.why == Dropped
    ensures var h := Run(Empty<E>(), acts);
            var w := h.ws[id];
            && Evicted(w, h.log)
            && w.sentPrelude == |w.prelude|
            && w.taken == Matching(w.filter, h.log[w.since..w.until])
  {
    RunKeepsInv(acts);
    var w := Run(Empty<E>(), acts).ws[id];
    assert w.taken + w.lost + w.queue == w.taken;
  }

  /** n passes of the handler with every Send succeeding. */
  function AdvanceMany<E>(w: Watcher<E>, n: nat): Watcher<E>
    decreases n
  {
    if n == 0 then w else AdvanceMany(Advance(w, true), n - 1)
  }

  /** An evicted watcher is always told: its handler needs only to send what is left, and its next
      pass ends the stream with the error, having sent all it was owed. */
  lemma {:induction false} EvictedIsTold<E>(w: Watcher<E>, log: seq<Broadcast<E>>)
    requires WatcherInv(w, log) && !w.registered && w.handler.Running?
    ensures var w' := AdvanceMany(w, |w.prelude| - w.sentPrelude + |w.queue| + 1);
            && w'.handler == Exiting(Dropped)
            && w'.sentPrelude == |w.prelude|
            && w'.taken == Matching(w.filter, log[w.since..w.until])
    decreases |w.prelude| - w.sentPrelude + |w.queue|
  {
    if w.sentPrelude < |w.prelude| || w.queue != [] {
      AdvanceKeepsWatcher(w, log, true);
      EvictedIsTold(Advance(w, true), log);
    } else {
      assert w.taken + w.lost + w.queue == w.taken;
      assert AdvanceMany(w, 1) == AdvanceMany(Advance(w, true), 0);
    }
  }

  /** Channel lifecycle: no interleaving sends on or closes a closed channel, a channel is open
      exactly while its watcher is in the map, is closed at most once, and is closed by the time its
      handler is gone. */
  lemma ChannelLifecycle<E>(acts: seq<Act<E>>)
    ensures var h := Run(Empty<E>(), acts);
            && !h.panicked
            && forall id :: id in h.ws ==>
                 && (h.ws[id].registered <==> !h.ws[id].closed)
                 && h.ws[id].closes <= 1
                 && |h.ws[id].queue| <= 64
                 && (h.ws[id].handler.Gone? ==> h.ws[id].closed)
  {
    RunKeepsInv(acts);
  }
}
