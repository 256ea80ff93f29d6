/** The registry's store and server as code. Store methods are proved against RegistryStore's
    statements; server RPCs, each run on its own, are proved to take the steps of RegistryRuns. */
module RegistryServers {
  import opened Wrappers
  import opened RegistryStore
  import opened RegistryHistory
  import opened RegistryWatch
  import opened RegistryRuns
  import Hub = WatchHub
  import opened WatchServers

  /** What a lookup answers: the row of the pair, and the endpoint its relay last advertised or "" if it
      never did. */
  ghost function Answer(services: Services, relays: Relays, tenant: string, name: string): Option<(Service, string)> {
    var row := Lookup(services, tenant, name);
    if row.None? then None
    else Some((row.value, if row.value.relay in relays then relays[row.value.relay].endpoint else ""))
  }

  // ---------- Resolution over histories ----------

  /** An UpsertRelay call. */
  datatype Advert = Advert(id: string, region: string, endpoint: string, now: int)

  /** The relay rows a history of UpsertRelay calls leaves. */
  function RelaysAfter(adverts: seq<Advert>): Relays {
    if adverts == [] then map[]
    else
      var last := adverts[|adverts| - 1];
      RelaysAfter(adverts[..|adverts| - 1])[last.id := Relay(last.region, last.endpoint, last.now)]
  }

  /** Call k is the relay's last. */
  ghost predicate LastAdvert(adverts: seq<Advert>, relay: string, k: nat) {
    k < |adverts| && adverts[k].id == relay && forall j :: k < j < |adverts| ==> adverts[j].id != relay
  }

  lemma {:induction false} LastAdvertStands(adverts: seq<Advert>, relay: string)
    ensures relay in RelaysAfter(adverts) <==> exists k: nat :: LastAdvert(adverts, relay, k)
    ensures forall k: nat :: LastAdvert(adverts, relay, k) ==>
              RelaysAfter(adverts)[relay] == Relay(adverts[k].region, adverts[k].endpoint, adverts[k].now)
  {
    if adverts != [] {
      var n := |adverts| - 1;
      LastAdvertStands(adverts[..n], relay);
      if adverts[n].id == relay {
        assert LastAdvert(adverts, relay, n);
        assert forall k: nat :: LastAdvert(adverts, relay, k) ==> k == n;
      } else {
        assert forall k: nat :: LastAdvert(adverts, relay, k) <==> LastAdvert(adverts[..n], relay, k);
      }
    }
  }

  /** The endpoint a relay advertised last, or "" if it never did. */
  ghost predicate LastEndpoint(adverts: seq<Advert>, relay: string, endpoint: string) {
    if exists k: nat :: LastAdvert(adverts, relay, k)
    then exists k: nat :: LastAdvert(adverts, relay, k) && endpoint == adverts[k].endpoint
    else endpoint == ""
  }

  /** The provider of a pair after any history of registry calls and relay adverts: the agent, relay,
      address and time of the standing registration, and the endpoint its relay advertised last. */
  ghost predicate NamesStanding(p: (Service, string), c: Call, adverts: seq<Advert>)
    requires c.Reg?
  {
    && (p.0.tenant, p.0.name) == (c.tenant, c.name)
    && p.0.agent == c.agent && p.0.relay == c.relay && p.0.addr == c.addr && p.0.updated == c.now
    && LastEndpoint(adverts, c.relay, p.1)
  }

  lemma AnswerNamesStanding(calls: seq<Call>, adverts: seq<Advert>, i: nat, tenant: string, name: string)
    requires Stands(calls, i, tenant, name)
    ensures var answer := Answer(TableAfter(calls), RelaysAfter(adverts), tenant, name);
            answer.Some? && NamesStanding(answer.value, calls[i], adverts)
  {
    LastWriterWins(calls, tenant, name);
    LastAdvertStands(adverts, calls[i].relay);
  }

  class Store {
    var services: Services
    var relays: Relays

    ghost predicate Valid()
      reads this
    {
      TableInv(services)
    }

    constructor ()
      ensures Valid() && services == map[] && relays == map[]
    {
      services, relays := map[], map[];
    }

    method RegisterService(svc: Service, now: int) returns (res: Result<string, StoreError>)
      requires Valid()
      modifies this`services
      ensures Valid()
      ensures match Register(old(services), svc, now)
              case Ok(done) => res == Ok(done.1) && services == done.0
              case Err(e) => res == Err(e) && services == old(services)
    {
      var id := svc.id;
      if id == "" {
        id := svc.tenant + "/" + svc.name;
      }
      if Register(services, svc, now).Ok? { RegisterKeepsInv(services, svc, now); }
      if exists k :: k in services && Binds(services, svc.tenant, svc.name, k) {
        var k :| k in services && Binds(services, svc.tenant, svc.name, k);
        LookupIs(services, svc.tenant, svc.name, k);
        services := services[k := services[k].(agent := svc.agent, relay := svc.relay, addr := svc.addr,
                                               health := "healthy", updated := now)];
        return Ok(id);
      }
      if id in services {
        return Err(PrimaryKeyTaken);
      }
      services := services[id := svc.(id := id, health := "healthy", updated := now)];
      return Ok(id);
    }

    /** The answer, whose row is first in the query's order for the given region. */
    method ResolveService(tenant: string, name: string, region: string)
      returns (res: Result<(Service, string), StoreError>)
      requires Valid()
      ensures match Answer(services, relays, tenant, name)
              case Some(answer) =>
                res == Ok(answer) && IsTopRow(services, relays, tenant, name, region, answer.0.id)
              case None => res == Err(NotFound)
      ensures res.Ok? <==> Lookup(services, tenant, name).Some?
      ensures res.Ok? ==>
                && res.value.0 == Lookup(services, tenant, name).value
                && res.value.1 == if res.value.0.relay in relays then relays[res.value.0.relay].endpoint else ""
      ensures res.Err? ==> res.error == NotFound
    {
      if exists k :: k in services && Binds(services, tenant, name, k) {
        var k :| k in services && Binds(services, tenant, name, k);
        LookupIs(services, tenant, name, k);
        RegionNeverMatters(services, relays, tenant, name, region, k);
        var row := services[k];
        return Ok((row, if row.relay in relays then relays[row.relay].endpoint else ""));
      }
      return Err(NotFound);
    }

    method DeregisterAgent(tenant: string, agent: string, relay: string) returns (removed: seq<Service>)
      requires Valid()
      modifies this`services
      ensures Valid() && services == Delete(old(services), tenant, agent, relay)
      ensures IsSelection(old(services), tenant, agent, relay, removed)
    {
      removed := [];
      var todo := services.Keys;
      ghost var seen: Services := map[];
      while todo != {}
        invariant todo <= services.Keys && seen.Keys == services.Keys - todo
        invariant services == old(services) && forall id :: id in seen ==> seen[id] == services[id]
        invariant IsSelection(seen, tenant, agent, relay, removed)
        decreases todo
      {
        var id :| id in todo;
        var row := services[id];
        todo := todo - {id};
        SelectionGrows(seen, tenant, agent, relay, removed, row);
        if BelongsTo(row, tenant, agent, relay) {
          removed := removed + [row];
        }
        seen := seen[id := row];
      }
      assert seen == services;
      DeleteLookup(services, tenant, agent, relay, "", "");
      services := map id | id in services && !BelongsTo(services[id], tenant, agent, relay) :: services[id];
    }

    /** From now on a lookup that answers a row on this relay answers the new endpoint; every other
        answer stands. */
    method UpsertRelay(id: string, region: string, endpoint: string, now: int)
      modifies this`relays
      ensures relays == old(relays)[id := Relay(region, endpoint, now)]
      ensures forall adverts :: old(relays) == RelaysAfter(adverts) ==>
                                  relays == RelaysAfter(adverts + [Advert(id, region, endpoint, now)])
      ensures forall tenant, name ::
                Answer(services, relays, tenant, name)
                == match old(Answer(services, relays, tenant, name))
                   case Some((row, was)) => Some((row, if row.relay == id then endpoint else was))
                   case None => None
    {
      relays := relays[id := Relay(region, endpoint, now)];
      assert forall adverts :: (adverts + [Advert(id, region, endpoint, now)])[..|adverts|] == adverts;
    }
  }

  datatype RegistryError = MissingField | FromStore(error: StoreError)

  class RegistryServer {
    const store: Store
    const hub: WatchServer<Event>

    ghost predicate Valid()
      reads store, hub
    {
      store.Valid() && hub.Valid()
    }

    ghost function View(): Sys
      reads store, hub
    {
      Sys(store.services, map[], hub.View())
    }

    constructor ()
      ensures Valid() && fresh(store) && fresh(hub) && View() == Init()
    {
      store := new Store();
      hub := new WatchServer<Event>();
    }

    method RegisterService(c: Call) returns (res: Result<string, RegistryError>)
      requires Valid() && c.Reg?
      modifies store, hub
      ensures Valid() && View() == Run(old(View()), if Accepted(old(store.services), c) then CallActs(c, []) else [])
      ensures res == if !Complete(c) then Err(MissingField)
                     else if Accepted(old(store.services), c) then Ok(DerivedId(c.tenant, c.name))
                     else Err(FromStore(PrimaryKeyTaken))
      ensures res == Err(MissingField) <==> c.tenant == "" || c.name == "" || c.agent == "" || c.relay == ""
      ensures res.Ok? ==> res.value == c.tenant + "/" + c.name
    {
      if c.tenant == "" || c.name == "" || c.agent == "" || c.relay == "" {
        return Err(MissingField);
      }
      var stored := store.RegisterService(Service("", c.tenant, c.name, c.agent, c.relay, c.addr, "", 0), c.now);
      if stored.Err? {
        return Err(FromStore(stored.error));
      }
      var id := stored.value;
      SerialRegister(old(View()), c);
      hub.Broadcast(Hub.Broadcast(Registered(c.name, Provider(id, c.agent, c.relay, c.addr)), c.tenant, c.name));
      return Ok(id);
    }

    /** The response is empty; removed stands for the rows the RPC reports to its watchers. */
    method DeregisterAgent(tenant: string, agent: string, relay: string) returns (removed: seq<Service>)
      requires Valid()
      modifies store, hub
      ensures Valid() && View() == Run(old(View()), CallActs(Dereg(tenant, agent, relay), removed))
      ensures IsSelection(old(store.services), tenant, agent, relay, removed)
    {
      removed := store.DeregisterAgent(tenant, agent, relay);
      SerialDeregister(old(View()), Dereg(tenant, agent, relay), removed);
      AnnounceRemoved(tenant, removed);
    }

    /** The broadcast loop of DeregisterAgent. */
    method AnnounceRemoved(tenant: string, removed: seq<Service>)
      requires hub.Valid()
      modifies hub
      ensures hub.Valid() && hub.View() == PublishAll(old(hub.View()), DeregisterMessages(tenant, removed))
    {
      ghost var bs := DeregisterMessages(tenant, removed);
      var i := 0;
      while i < |removed|
        invariant 0 <= i <= |removed|
        invariant hub.Valid() && hub.View() == PublishAll(old(hub.View()), bs[..i])
      {
        var svc := removed[i];
        var gone := Provider(svc.id, svc.agent, svc.relay, "");
        hub.Broadcast(Hub.Broadcast(Deregistered(svc.name, gone), tenant, svc.name));
        assert bs[..i + 1][..i] == bs[..i];
        i := i + 1;
      }
      assert bs[..|removed|] == bs;
    }

    /** At most one provider; an unknown pair is an empty answer, not an error. */
    method Resolve(tenant: string, name: string, region: string) returns (providers: seq<(Service, string)>)
      requires Valid()
      ensures match Answer(store.services, store.relays, tenant, name)
              case Some(answer) => providers == [answer]
              case None => providers == []
      ensures providers == [] <==> Lookup(store.services, tenant, name).None?
      ensures providers != [] ==>
                && |providers| == 1 && providers[0].0 == Lookup(store.services, tenant, name).value
                && var relay := providers[0].0.relay;
                   providers[0].1 == if relay in store.relays then store.relays[relay].endpoint else ""
      ensures forall calls, adverts, i: nat ::
                store.services == TableAfter(calls) && store.relays == RelaysAfter(adverts)
                && Stands(calls, i, tenant, name) ==>
                  |providers| == 1 && NamesStanding(providers[0], calls[i], adverts)
    {
      forall calls, adverts, i: nat
        | store.services == TableAfter(calls) && store.relays == RelaysAfter(adverts) && Stands(calls, i, tenant, name)
        ensures var answer := Answer(store.services, store.relays, tenant, name);
                answer.Some? && NamesStanding(answer.value, calls[i], adverts)
      {
        AnswerNamesStanding(calls, adverts, i, tenant, name);
      }
      var res := store.ResolveService(tenant, name, region);
      if res.Err? {
        return [];
      }
      return [res.value];
    }
  }
}
