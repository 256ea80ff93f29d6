/** The registry server's calls (pkg/registry/server.go) over the services table, run one at a time:
    the invariants of its keys, and last-writer-wins resolution over whole histories. */
module RegistryHistory {
  import opened Wrappers
  import opened RegistryStore

  datatype Call =
    | Reg(tenant: string, name: string, agent: string, relay: string, addr: string, now: int)
    | Dereg(tenant: string, agent: string, relay: string)

  predicate Complete(c: Call) {
    c.Reg? && c.tenant != "" && c.name != "" && c.agent != "" && c.relay != ""
  }

  /** The row the server hands to the store: no id, so the store derives one. */
  function Request(c: Call): Service
    requires c.Reg?
  {
    Service("", c.tenant, c.name, c.agent, c.relay, c.addr, "", 0)
  }

  /** The registration passes validation and the store takes it. */
  ghost predicate Accepted(t: Services, c: Call) {
    Complete(c) && Register(t, Request(c), c.now).Ok?
  }

  ghost function After(t: Services, c: Call): Services {
    if c.Dereg? then Delete(t, c.tenant, c.agent, c.relay)
    else if Accepted(t, c) then Register(t, Request(c), c.now).value.0
    else t
  }

  ghost function TableAfter(calls: seq<Call>): Services {
    if calls == [] then map[] else After(TableAfter(calls[..|calls| - 1]), calls[|calls| - 1])
  }

  /** Every row the server writes is keyed by its derived id. */
  ghost predicate ServerInv(t: Services) {
    TableInv(t) && forall id :: id in t ==> id == DerivedId(t[id].tenant, t[id].name)
  }

  lemma AfterKeepsInv(t: Services, c: Call)
    requires ServerInv(t)
    ensures ServerInv(After(t, c))
  {
    if c.Dereg? {
      DeleteLookup(t, c.tenant, c.agent, c.relay, "", "");
    } else if Accepted(t, c) {
      RegisterKeepsInv(t, Request(c), c.now);
    }
  }

  lemma {:induction false} TableAfterInv(calls: seq<Call>)
    ensures ServerInv(TableAfter(calls))
  {
    if calls != [] {
      TableAfterInv(calls[..|calls| - 1]);
      AfterKeepsInv(TableAfter(calls[..|calls| - 1]), calls[|calls| - 1]);
    }
  }

  // ---------- Keys ----------

  /** A complete registration is refused exactly when its pair is unbound and its derived id is
      already the id of another pair. */
  lemma RefusedIffIdCollides(calls: seq<Call>, c: Call)
    requires Complete(c)
    ensures var t := TableAfter(calls);
            !Accepted(t, c) <==>
              exists id :: id in t && id == DerivedId(c.tenant, c.name)
                           && (t[id].tenant, t[id].name) != (c.tenant, c.name)
  {
    TableAfterInv(calls);
    var t := TableAfter(calls);
    var id := DerivedId(c.tenant, c.name);
    if Binds(t, c.tenant, c.name, id) { LookupIs(t, c.tenant, c.name, id); }
  }

  ghost predicate TenantsValid(calls: seq<Call>) {
    forall i :: 0 <= i < |calls| && calls[i].Reg? ==> ValidTenant(calls[i].tenant)
  }

  lemma {:induction false} RowsComeFromCalls(calls: seq<Call>, id: string)
    requires TenantsValid(calls) && id in TableAfter(calls)
    ensures ValidTenant(TableAfter(calls)[id].tenant)
  {
    var n := |calls| - 1;
    var t := TableAfter(calls[..n]);
    TableAfterInv(calls[..n]);
    if id in t { RowsComeFromCalls(calls[..n], id); }
  }

  /** With well-formed tenants a complete registration is never refused, and the id it returns is the
      id of the stored row. */
  lemma ValidTenantsNeverCollide(calls: seq<Call>, c: Call)
    requires TenantsValid(calls) && Complete(c) && ValidTenant(c.tenant)
    ensures Accepted(TableAfter(calls), c)
    ensures Lookup(After(TableAfter(calls), c), c.tenant, c.name)
            == Some(Service(Register(TableAfter(calls), Request(c), c.now).value.1, c.tenant, c.name, c.agent,
                            c.relay, c.addr, "healthy", c.now))
  {
    TableAfterInv(calls);
    var t, id := TableAfter(calls), DerivedId(c.tenant, c.name);
    RefusedIffIdCollides(calls, c);
    if id in t {
      RowsComeFromCalls(calls, id);
      ValidTenantHasNoSlash(t[id].tenant);
      ValidTenantHasNoSlash(c.tenant);
      DerivedIdInjective(t[id].tenant, t[id].name, c.tenant, c.name);
    }
    RegisterLookup(t, Request(c), c.now, c.tenant, c.name);
    AfterKeepsInv(t, c);
  }

  /** Without the tenant pattern two different pairs can share an id, and the second is refused. */
  lemma SlashInTenantCollides(agent: string, relay: string)
    requires agent != "" && relay != ""
    ensures var first := Reg("a", "b/c", agent, relay, "", 0);
            var second := Reg("a/b", "c", agent, relay, "", 0);
            Accepted(map[], first) && !Accepted(TableAfter([first]), second)
  {
    var first := Reg("a", "b/c", agent, relay, "", 0);
    var second := Reg("a/b", "c", agent, relay, "", 0);
    assert [first][..|[first]| - 1] == [];
    assert DerivedId("a", "b/c") == "a/b/c" == DerivedId("a/b", "c");
    var t := TableAfter([first]);
    assert TableAfter([]) == map[];
    assert t == After(map[], first);
    assert Lookup(map[], "a", "b/c").None?;
    assert t.Keys == {"a/b/c"} && t["a/b/c"].tenant == "a";
    assert Lookup(t, "a/b", "c").None?;
  }

  // ---------- Last writer wins ----------

  /** Call i is the latest accepted registration of the pair, and no later DeregisterAgent names both
      its agent and its relay. */
  ghost predicate Stands(calls: seq<Call>, i: nat, tenant: string, name: string) {
    && i < |calls| && calls[i].Reg? && (calls[i].tenant, calls[i].name) == (tenant, name)
    && Accepted(TableAfter(calls[..i]), calls[i])
    && forall j :: i < j < |calls| ==> !Replaces(calls, j, calls[i])
  }

  ghost predicate Replaces(calls: seq<Call>, j: nat, c: Call)
    requires j < |calls| && c.Reg?
  {
    var d := calls[j];
    if d.Dereg? then (d.tenant, d.agent, d.relay) == (c.tenant, c.agent, c.relay)
    else (d.tenant, d.name) == (c.tenant, c.name) && Accepted(TableAfter(calls[..j]), d)
  }

  ghost predicate BoundBy(row: Service, c: Call)
    requires c.Reg?
  {
    row.agent == c.agent && row.relay == c.relay && row.addr == c.addr && row.updated == c.now
  }

  /** The same, followed one call at a time. */
  ghost predicate Survives(calls: seq<Call>, i: nat, tenant: string, name: string)
    decreases |calls|
  {
    i < |calls| && calls[i].Reg? && (calls[i].tenant, calls[i].name) == (tenant, name) &&
    var n := |calls| - 1;
    if i == n then Accepted(TableAfter(calls[..n]), calls[n])
    else Survives(calls[..n], i, tenant, name) && !Replaces(calls, n, calls[i])
  }

  lemma {:induction false} SurvivesIffStands(calls: seq<Call>, i: nat, tenant: string, name: string)
    requires i < |calls|
    ensures Survives(calls, i, tenant, name) <==> Stands(calls, i, tenant, name)
    decreases |calls|
  {
    var n := |calls| - 1;
    var init := calls[..n];
    if i < n && calls[i].Reg? {
      SurvivesIffStands(init, i, tenant, name);
      assert init[..i] == calls[..i];
      assert forall j :: i < j < n ==> init[..j] == calls[..j];
      assert forall j :: i < j < n ==> (Replaces(init, j, init[i]) <==> Replaces(calls, j, calls[i]));
    }
  }

  /** The pair resolves if and only if some registration of it survives, and then to that one. */
  ghost predicate ResolvesToSurvivor(calls: seq<Call>, tenant: string, name: string) {
    var got := Lookup(TableAfter(calls), tenant, name);
    && (got.Some? ==> exists i: nat :: Survives(calls, i, tenant, name))
    && (forall i: nat :: Survives(calls, i, tenant, name) ==> got.Some? && BoundBy(got.value, calls[i]))
  }

  lemma DeregStep(calls: seq<Call>, tenant: string, name: string)
    requires |calls| > 0 && calls[|calls| - 1].Dereg?
    requires ResolvesToSurvivor(calls[..|calls| - 1], tenant, name) && ServerInv(TableAfter(calls[..|calls| - 1]))
    ensures ResolvesToSurvivor(calls, tenant, name)
  {
    var n := |calls| - 1;
    var c, t := calls[n], TableAfter(calls[..n]);
    DeleteLookup(t, c.tenant, c.agent, c.relay, tenant, name);
    if Lookup(TableAfter(calls), tenant, name).Some? {
      var i: nat :| Survives(calls[..n], i, tenant, name);
      assert Survives(calls, i, tenant, name);
    }
  }

  lemma UntouchedSurvives(calls: seq<Call>, i: nat, tenant: string, name: string)
    requires |calls| > 0
    requires var n := |calls| - 1;
             && calls[n].Reg?
             && !(calls[n].tenant == tenant && calls[n].name == name && Accepted(TableAfter(calls[..n]), calls[n]))
    ensures Survives(calls, i, tenant, name) <==> Survives(calls[..|calls| - 1], i, tenant, name)
  {
  }

  /** A call that does not touch the pair leaves every survivor standing. */
  lemma UntouchedStep(calls: seq<Call>, tenant: string, name: string)
    requires |calls| > 0
    requires ResolvesToSurvivor(calls[..|calls| - 1], tenant, name)
    requires var n := |calls| - 1;
             && calls[n].Reg?
             && !(calls[n].tenant == tenant && calls[n].name == name && Accepted(TableAfter(calls[..n]), calls[n]))
    requires Lookup(TableAfter(calls), tenant, name) == Lookup(TableAfter(calls[..|calls| - 1]), tenant, name)
    ensures ResolvesToSurvivor(calls, tenant, name)
  {
    var n := |calls| - 1;
    forall i: nat
      ensures Survives(calls, i, tenant, name) <==> Survives(calls[..n], i, tenant, name)
    {
      UntouchedSurvives(calls, i, tenant, name);
    }
  }

  lemma AcceptedStep(calls: seq<Call>, tenant: string, name: string)
    requires |calls| > 0
    requires var n := |calls| - 1;
             && calls[n].Reg? && (calls[n].tenant, calls[n].name) == (tenant, name)
             && Accepted(TableAfter(calls[..n]), calls[n])
             && ServerInv(TableAfter(calls[..n]))
    ensures ResolvesToSurvivor(calls, tenant, name)
  {
    var n := |calls| - 1;
    RegisterLookup(TableAfter(calls[..n]), Request(calls[n]), calls[n].now, tenant, name);
    assert Survives(calls, n, tenant, name);
    assert forall i: nat :: Survives(calls, i, tenant, name) ==> i == n;
  }

  lemma RegStep(calls: seq<Call>, tenant: string, name: string)
    requires |calls| > 0 && calls[|calls| - 1].Reg?
    requires ResolvesToSurvivor(calls[..|calls| - 1], tenant, name) && ServerInv(TableAfter(calls[..|calls| - 1]))
    ensures ResolvesToSurvivor(calls, tenant, name)
  {
    var n := |calls| - 1;
    var c, t := calls[n], TableAfter(calls[..n]);
    if Accepted(t, c) && (c.tenant, c.name) == (tenant, name) {
      AcceptedStep(calls, tenant, name);
    } else {
      if Accepted(t, c) { RegisterLookup(t, Request(c), c.now, tenant, name); }
      UntouchedStep(calls, tenant, name);
    }
  }

  lemma {:induction false} SurvivorWins(calls: seq<Call>, tenant: string, name: string)
    ensures ResolvesToSurvivor(calls, tenant, name)
  {
    if calls == [] {
      assert Lookup(TableAfter(calls), tenant, name).None?;
    } else {
      var n := |calls| - 1;
      SurvivorWins(calls[..n], tenant, name);
      TableAfterInv(calls[..n]);
      if calls[n].Dereg? { DeregStep(calls, tenant, name); } else { RegStep(calls, tenant, name); }
    }
  }

  /** Last writer wins: for every history, resolution returns a binding if and only if some
      registration of the pair stands, and then it is that registration's. */
  lemma LastWriterWins(calls: seq<Call>, tenant: string, name: string)
    ensures var got := Lookup(TableAfter(calls), tenant, name);
            && (got.Some? <==> exists i: nat :: Stands(calls, i, tenant, name))
            && (forall i: nat :: Stands(calls, i, tenant, name) ==> got.Some? && BoundBy(got.value, calls[i]))
  {
    SurvivorWins(calls, tenant, name);
    forall i: nat | i < |calls|
      ensures Survives(calls, i, tenant, name) <==> Stands(calls, i, tenant, name)
    {
      SurvivesIffStands(calls, i, tenant, name);
    }
  }

  /** Failover safety: a deregistration that names another relay than the standing registration
      leaves the binding untouched, however late it arrives. */
  lemma LateDeregisterIsHarmless(calls: seq<Call>, i: nat, tenant: string, name: string, agent: string,
                                 oldRelay: string)
    requires Stands(calls, i, tenant, name) && calls[i].relay != oldRelay
    ensures Lookup(TableAfter(calls + [Dereg(tenant, agent, oldRelay)]), tenant, name)
            == Lookup(TableAfter(calls), tenant, name)
  {
    assert (calls + [Dereg(tenant, agent, oldRelay)])[..|calls|] == calls;
    LastWriterWins(calls, tenant, name);
    TableAfterInv(calls);
    DeleteLookup(TableAfter(calls), tenant, agent, oldRelay, tenant, name);
  }
}
