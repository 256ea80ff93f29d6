/** The watcher bookkeeping of the two servers as code: addWatcher, removeWatcher, broadcast and the
    handler's receive, over the set of registered watchers and the watchers' own channels. Each
    method is proved to take the hub step of the same meaning. The asserts before each channel send
    and close show that neither can hit a closed channel, which in Go would panic. */
module WatchServers {
  import opened WatchHub

  class WatchServer<E> {
    var watchers: set<nat>         // the server's map, protected by its mutex
    var all: map<nat, Watcher<E>>  // every watcher a handler still holds, in the map or not
    var nextWatch: nat
    var log: seq<Broadcast<E>>     // history of broadcasts

    ghost function View(): Hub<E>
      reads this
    {
      Hub(all, log, false)
    }

    /** A watcher's channel is open exactly while the server's map holds it. */
    static ghost predicate InSync(w: Watcher<E>, inMap: bool) {
      (inMap <==> w.registered) && (w.registered <==> !w.closed)
    }

    ghost predicate Valid()
      reads this
    {
      && watchers <= all.Keys
      && (forall id :: id in all ==> id <= nextWatch && InSync(all[id], id in watchers))
    }

    constructor ()
      ensures Valid() && View() == Empty()
    {
      watchers, all, nextWatch, log := {}, map[], 0, [];
    }

    method AddWatcher(filter: Filter, prelude: seq<E>) returns (id: nat)
      requires Valid()
      modifies this
      ensures Valid() && id !in old(all)
      ensures View() == Next(old(View()), Join(id, filter, prelude))
      ensures watchers == old(watchers) + {id}
    {
      nextWatch := nextWatch + 1;
      id := nextWatch;
      all := all[id := NewWatcher(filter, prelude, |log|)];
      watchers := watchers + {id};
    }

    method RemoveWatcher(id: nat)
      requires Valid() && id in all && all[id].handler.Exiting?
      modifies this
      ensures Valid() && View() == Next(old(View()), Leave(id))
      ensures watchers == old(watchers) - {id} && all[id].closed
    {
      var w := all[id];
      if id in watchers {
        watchers := watchers - {id};
        assert !w.closed;
        all := all[id := w.(registered := false, closed := true, closes := w.closes + 1, until := |log|,
                            handler := Gone(w.handler.why))];
      } else {
        all := all[id := w.(handler := Gone(w.handler.why))];
      }
    }

    method Broadcast(b: Broadcast<E>)
      requires Valid()
      modifies this
      ensures Valid() && View() == Next(old(View()), Publish(b))
    {
      var todo := watchers;
      while todo != {}
        invariant Valid() && todo <= watchers && log == old(log) && all.Keys == old(all).Keys
        invariant forall id :: id in all ==>
                    all[id] == if id in todo then old(all)[id] else Offer(old(all)[id], b, |log|)
        decreases todo
      {
        var id :| id in todo;
        TrySend(id, b);
        todo := todo - {id};
      }
      assert all == Next(old(View()), Publish(b)).ws;
      log := log + [b];
    }

    /** The loop body of broadcast: send without blocking, or drop the watcher. */
    method TrySend(id: nat, b: Broadcast<E>)
      requires Valid() && id in watchers
      modifies this`all, this`watchers
      ensures Valid()
      ensures all == old(all)[id := Offer(old(all)[id], b, |log|)]
      ensures old(watchers) - {id} <= watchers <= old(watchers)
    {
      var w := all[id];
      if !Matches(w.filter, b) {
        return;
      }
      assert !w.closed;
      if |w.queue| < QUEUE_CAP {
        all := all[id := w.(queue := w.queue + [b.ev])];
      } else {
        watchers := watchers - {id};
        all := all[id := w.(registered := false, closed := true, closes := w.closes + 1, until := |log|)];
      }
    }

    /** One pass of the handler's loop, with the outcome of the stream Send it leads to. */
    method Handle(id: nat, ok: bool)
      requires Valid() && id in all
      modifies this`all
      ensures Valid() && View() == Next(old(View()), Send(id, ok))
    {
      var w := Pass(all[id], ok);
      all := all[id := w];
    }

    /** The handler's loop with every Send succeeding, until it would block or returns. The client then
        has its snapshot and every broadcast it was owed, the loop has returned exactly if the watcher
        was thrown out, and no other watcher noticed. */
    method Drain(id: nat)
      requires Valid() && HubInv(View()) && id in all && all[id].handler.Running?
      modifies this`all
      ensures Valid() && HubInv(View()) && id in all && all == old(all)[id := all[id]]
      ensures AllDelivered(all[id], old(all[id]), log)
    {
      assert WatcherInv(all[id], log);
      var w := DrainLoop(all[id], log);
      UpdateKeepsInv(View(), id, w);
      all := all[id := w];
    }
  }

  method Pass<E>(w: Watcher<E>, ok: bool) returns (r: Watcher<E>)
    ensures r == Advance(w, ok)
  {
    r := w;
    if !w.handler.Running? {
      return;
    }
    if w.sentPrelude < |w.prelude| {
      r := if ok then w.(sentPrelude := w.sentPrelude + 1) else w.(handler := Exiting(SendFailed));
    } else if |w.queue| > 0 {
      var ev := w.queue[0];
      r := w.(queue := w.queue[1..]);
      r := if ok then r.(taken := w.taken + [ev]) else r.(lost := [ev], handler := Exiting(SendFailed));
    } else if w.closed {
      r := w.(handler := Exiting(Dropped));
    }
  }

  method DrainLoop<E>(was: Watcher<E>, ghost log: seq<Broadcast<E>>) returns (w: Watcher<E>)
    requires WatcherInv(was, log) && was.handler.Running?
    ensures Draining(w, was, log) && AllDelivered(w, was, log)
  {
    w := was;
    while w.handler.Running? && HasWork(w)
      invariant Draining(w, was, log)
      decreases w.handler.Running?, |w.prelude| - w.sentPrelude + |w.queue|
    {
      AdvanceDrains(w, was, log);
      w := Pass(w, true);
    }
    DrainedHasAll(w, was, log);
  }

  /** The watcher, once was, has been sent its snapshot and all it was owed, and its handler goes on
      exactly if it is still in the server's map. */
  ghost predicate AllDelivered<E>(w: Watcher<E>, was: Watcher<E>, log: seq<Broadcast<E>>) {
    && w.queue == [] && w.prelude == was.prelude && w.sentPrelude == |w.prelude|
    && was.since <= End(was, log) <= |log|
    && w.taken == Matching(was.filter, log[was.since..End(was, log)])
    && w.handler == if was.registered then Running else Exiting(Dropped)
  }

  /** The handler has something to send, or its channel is closed. */
  predicate HasWork<E>(w: Watcher<E>) {
    w.sentPrelude < |w.prelude| || |w.queue| > 0 || w.closed
  }

  /** A handler on the way from was, every Send so far having succeeded. */
  ghost predicate Draining<E>(w: Watcher<E>, was: Watcher<E>, log: seq<Broadcast<E>>) {
    && WatcherInv(w, log) && w.lost == []
    && w.filter == was.filter && w.prelude == was.prelude && w.since == was.since
    && w.registered == was.registered && w.until == was.until
    && (w.handler == Running || (w.handler == Exiting(Dropped) && !w.registered))
  }

  lemma AdvanceDrains<E>(w: Watcher<E>, was: Watcher<E>, log: seq<Broadcast<E>>)
    requires Draining(w, was, log) && w.handler.Running? && HasWork(w)
    ensures var w' := Advance(w, true);
            && Draining(w', was, log) && w'.sentPrelude <= |w'.prelude|
            && (w'.handler.Running? ==>
                  |w'.prelude| - w'.sentPrelude + |w'.queue| < |w.prelude| - w.sentPrelude + |w.queue|)
  {
    AdvanceKeepsWatcher(w, log, true);
  }

  lemma DrainedHasAll<E>(w: Watcher<E>, was: Watcher<E>, log: seq<Broadcast<E>>)
    requires Draining(w, was, log) && !(w.handler.Running? && HasWork(w))
    ensures AllDelivered(w, was, log)
  {
    assert w.taken + w.lost + w.queue == w.taken;
  }
}
