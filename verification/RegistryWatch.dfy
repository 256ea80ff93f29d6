/** What the registry's watchers are told (pkg/registry/server.go): the messages each RPC broadcasts, the
    bindings a replay of the whole log gives, and the copy a client folds out of its own stream. */
module RegistryWatch {
  import opened Wrappers
  import opened RegistryStore
  import opened RegistryHistory
  import Hub = WatchHub

  datatype Provider = Provider(id: string, agent: string, relay: string, addr: string)

  datatype Event = Registered(name: string, provider: Provider) | Deregistered(name: string, provider: Provider)

  type Message = Hub.Broadcast<Event>
  type Bindings = map<(string, string), Provider>

  function ProviderOf(s: Service): Provider { Provider(s.id, s.agent, s.relay, s.addr) }

  /** The broadcast of an accepted registration; id is what the store returned. */
  function RegisterMessage(c: Call, id: string): Message
    requires c.Reg?
  {
    Hub.Broadcast(Registered(c.name, Provider(id, c.agent, c.relay, c.addr)), c.tenant, c.name)
  }

  /** The broadcasts of a deregistration, one per removed row, without the local address. */
  function DeregisterMessages(tenant: string, rows: seq<Service>): seq<Message> {
    seq(|rows|, i requires 0 <= i < |rows| =>
      Hub.Broadcast(Deregistered(rows[i].name, ProviderOf(rows[i]).(addr := "")), tenant, rows[i].name))
  }

  // ---------- Replaying the log ----------

  function ReplayOne(m: Bindings, b: Message): Bindings {
    match b.ev
    case Registered(name, p) => m[(b.tenant, name) := p]
    case Deregistered(name, _) => m - {(b.tenant, name)}
  }

  function Replay(m: Bindings, bs: seq<Message>): Bindings {
    if bs == [] then m else ReplayOne(Replay(m, bs[..|bs| - 1]), bs[|bs| - 1])
  }

  function At(m: Bindings, tenant: string, name: string): Option<Provider> {
    if (tenant, name) in m then Some(m[(tenant, name)]) else None
  }

  ghost function TableAt(t: Services, tenant: string, name: string): Option<Provider> {
    var row := Lookup(t, tenant, name);
    if row.Some? then Some(ProviderOf(row.value)) else None
  }

  /** The bindings hold exactly what the table holds, pair by pair. */
  ghost predicate Mirrors(m: Bindings, t: Services) {
    forall tenant, name :: At(m, tenant, name) == TableAt(t, tenant, name)
  }

  lemma {:induction false} ReplayConcat(m: Bindings, xs: seq<Message>, ys: seq<Message>)
    ensures Replay(m, xs + ys) == Replay(Replay(m, xs), ys)
  {
    if ys == [] {
      assert xs + ys == xs;
    } else {
      assert (xs + ys)[..|xs + ys| - 1] == xs + ys[..|ys| - 1];
      ReplayConcat(m, xs, ys[..|ys| - 1]);
    }
  }

  lemma RegisterMirrored(m: Bindings, t: Services, c: Call)
    requires ServerInv(t) && Mirrors(m, t) && Accepted(t, c)
    ensures Mirrors(ReplayOne(m, RegisterMessage(c, Register(t, Request(c), c.now).value.1)), After(t, c))
  {
    var id := Register(t, Request(c), c.now).value.1;
    var m' := ReplayOne(m, RegisterMessage(c, id));
    forall tenant, name
      ensures At(m', tenant, name) == TableAt(After(t, c), tenant, name)
    {
      RegisterLookup(t, Request(c), c.now, tenant, name);
      assert At(m, tenant, name) == TableAt(t, tenant, name);
    }
  }

  /** Replaying deregistrations removes the pairs of their rows and nothing else. */
  lemma {:induction false} ReplayDeregisters(m: Bindings, tenant: string, rows: seq<Service>, n: nat,
                                             tn: string, name: string)
    requires n <= |rows|
    ensures At(Replay(m, DeregisterMessages(tenant, rows)[..n]), tn, name)
            == if tn == tenant && exists i :: 0 <= i < n && rows[i].name == name then None else At(m, tn, name)
  {
    if n > 0 {
      var bs := DeregisterMessages(tenant, rows);
      assert bs[..n][..n - 1] == bs[..n - 1];
      ReplayDeregisters(m, tenant, rows, n - 1, tn, name);
      assert Replay(m, bs[..n]) == Replay(m, bs[..n - 1]) - {(tenant, rows[n - 1].name)};
    }
  }

  lemma SelectionNames(t: Services, tenant: string, agent: string, relay: string, rows: seq<Service>, name: string)
    requires TableInv(t) && IsSelection(t, tenant, agent, relay, rows)
    ensures (exists i :: 0 <= i < |rows| && rows[i].name == name)
            <==> Lookup(t, tenant, name).Some? && BelongsTo(Lookup(t, tenant, name).value, tenant, agent, relay)
  {
    if i :| 0 <= i < |rows| && rows[i].name == name {
      LookupIs(t, tenant, name, rows[i].id);
    }
  }

  lemma DeregisterMirrored(m: Bindings, t: Services, tenant: string, agent: string, relay: string, rows: seq<Service>)
    requires ServerInv(t) && Mirrors(m, t) && IsSelection(t, tenant, agent, relay, rows)
    ensures Mirrors(Replay(m, DeregisterMessages(tenant, rows)), Delete(t, tenant, agent, relay))
  {
    var bs := DeregisterMessages(tenant, rows);
    forall tn, name
      ensures At(Replay(m, bs), tn, name) == TableAt(Delete(t, tenant, agent, relay), tn, name)
    {
      assert bs[..|rows|] == bs;
      ReplayDeregisters(m, tenant, rows, |rows|, tn, name);
      SelectionNames(t, tenant, agent, relay, rows, name);
      DeleteLookup(t, tenant, agent, relay, tn, name);
      assert At(m, tn, name) == TableAt(t, tn, name);
    }
  }

  /** DeregisterAgent is two statements. Whether the broadcasts of the rows it selected from `seen`
      still describe what it deletes from `t` depends on what other RPCs did in between: they do
      exactly when every pair it deletes was selected, and no selected pair has since been bound to
      another agent or relay. */
  lemma SplitDeregisterIsExact(m: Bindings, seen: Services, t: Services, tenant: string, agent: string, relay: string,
                               rows: seq<Service>)
    requires TableInv(seen) && TableInv(t) && Mirrors(m, t) && IsSelection(seen, tenant, agent, relay, rows)
    ensures Mirrors(Replay(m, DeregisterMessages(tenant, rows)), Delete(t, tenant, agent, relay))
            <==> forall name :: Lookup(t, tenant, name).Some? ==>
                   (BelongsTo(Lookup(t, tenant, name).value, tenant, agent, relay)
                    <==> exists i :: 0 <= i < |rows| && rows[i].name == name)
  {
    var bs := DeregisterMessages(tenant, rows);
    var m', t' := Replay(m, bs), Delete(t, tenant, agent, relay);
    forall tn, name
      ensures At(m', tn, name) == TableAt(t', tn, name) <==>
                (tn == tenant && Lookup(t, tn, name).Some? ==>
                   (BelongsTo(Lookup(t, tn, name).value, tenant, agent, relay)
                    <==> exists i :: 0 <= i < |rows| && rows[i].name == name))
    {
      assert bs[..|rows|] == bs;
      ReplayDeregisters(m, tenant, rows, |rows|, tn, name);
      DeleteLookup(t, tenant, agent, relay, tn, name);
      assert At(m, tn, name) == TableAt(t, tn, name);
    }
    if Mirrors(m', t') {
      forall name | Lookup(t, tenant, name).Some?
        ensures BelongsTo(Lookup(t, tenant, name).value, tenant, agent, relay)
                <==> exists i :: 0 <= i < |rows| && rows[i].name == name
      {
        assert At(m', tenant, name) == TableAt(t', tenant, name);
      }
    }
  }

  // ---------- A client's copy ----------

  /** A client of one tenant folds the events it receives into a map by service name. */
  function Fold(m: map<string, Provider>, evs: seq<Event>): map<string, Provider> {
    if evs == [] then m
    else
      FoldOne(Fold(m, evs[..|evs| - 1]), evs[|evs| - 1])
  }

  function FoldOne(m: map<string, Provider>, e: Event): map<string, Provider> {
    match e
    case Registered(name, p) => m[name := p]
    case Deregistered(name, _) => m - {name}
  }

  predicate Wanted(f: Hub.Filter, name: string) { f.names == {} || name in f.names }

  /** The client's copy agrees with the bindings on every name it asked for. */
  ghost predicate Agrees(m: map<string, Provider>, full: Bindings, f: Hub.Filter) {
    forall name :: Wanted(f, name) ==>
      (if name in m then Some(m[name]) else None) == At(full, f.tenant, name)
  }

  lemma FoldOneAgrees(m: map<string, Provider>, full: Bindings, f: Hub.Filter, b: Message)
    requires Agrees(m, full, f) && f.tenant != "" && b.name == b.ev.name
    ensures Agrees(if Hub.Matches(f, b) then FoldOne(m, b.ev) else m, ReplayOne(full, b), f)
  {
  }

  lemma {:induction false} FoldAgrees(m: map<string, Provider>, full: Bindings, f: Hub.Filter, bs: seq<Message>)
    requires Agrees(m, full, f) && f.tenant != ""
    requires forall k :: 0 <= k < |bs| ==> bs[k].name == bs[k].ev.name
    ensures Agrees(Fold(m, Hub.Matching(f, bs)), Replay(full, bs), f)
  {
    if bs != [] {
      var init, b := bs[..|bs| - 1], bs[|bs| - 1];
      FoldAgrees(m, full, f, init);
      var before := Hub.Matching(f, init);
      FoldOneAgrees(Fold(m, before), Replay(full, init), f, b);
      if Hub.Matches(f, b) {
        assert (before + [b.ev])[..|before + [b.ev]| - 1] == before;
        assert Fold(m, before + [b.ev]) == FoldOne(Fold(m, before), b.ev);
      } else {
        assert Hub.Matching(f, bs) == before;
      }
    }
  }

  /** What a drained watcher in the map has been sent, folded onto a copy that was right when it
      joined, is right now. */
  lemma DrainedAgrees(x: Hub.Watcher<Event>, log: seq<Message>, copy: map<string, Provider>)
    requires Hub.OwedInv(x, log) && x.registered && x.lost == [] && x.queue == [] && x.filter.tenant != ""
    requires forall k :: 0 <= k < |log| ==> log[k].name == log[k].ev.name
    requires Agrees(copy, Replay(map[], log[..x.since]), x.filter)
    ensures Agrees(Fold(copy, x.taken), Replay(map[], log), x.filter)
  {
    var recent := log[x.since..|log|];
    assert x.taken == x.taken + x.lost + x.queue;
    FoldAgrees(copy, Replay(map[], log[..x.since]), x.filter, recent);
    ReplayConcat(map[], log[..x.since], recent);
    assert log[..x.since] + recent == log;
  }

  /** The copy holds, on every name the filter asks for, exactly the stored bindings. */
  ghost predicate AgreesWithTable(m: map<string, Provider>, t: Services, f: Hub.Filter) {
    forall name :: Wanted(f, name) ==>
      (if name in m then Some(m[name]) else None) == TableAt(t, f.tenant, name)
  }
}
