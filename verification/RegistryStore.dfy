/** The services table of pkg/registry/store/sqlite.go. A table maps primary keys to rows and keeps
    UNIQUE(tenant, name); each SQL statement is one atomic function on it. */
module RegistryStore {
  import opened Wrappers

  datatype Service = Service(id: string, tenant: string, name: string, agent: string, relay: string,
                             addr: string, health: string, updated: int)

  /** A row of relay_instances; region and endpoint as last advertised. */
  datatype Relay = Relay(region: string, endpoint: string, heartbeat: int)

  datatype StoreError = PrimaryKeyTaken | NotFound

  type Services = map<string, Service>
  type Relays = map<string, Relay>

  predicate Binds(t: Services, tenant: string, name: string, id: string) {
    id in t && t[id].tenant == tenant && t[id].name == name
  }

  ghost predicate TableInv(t: Services) {
    && (forall id :: id in t ==> t[id].id == id)
    && (forall id, id' :: id in t && id' in t && t[id].tenant == t[id'].tenant && t[id].name == t[id'].name
                          ==> id == id')
  }

  /** The row of a (tenant, name) pair, if any. */
  ghost function Lookup(t: Services, tenant: string, name: string): (r: Option<Service>)
    ensures r.Some? ==> exists id :: Binds(t, tenant, name, id) && r.value == t[id]
    ensures r.None? ==> forall id :: !Binds(t, tenant, name, id)
  {
    if exists id :: Binds(t, tenant, name, id) then
      var id :| Binds(t, tenant, name, id); Some(t[id])
    else None
  }

  lemma LookupIs(t: Services, tenant: string, name: string, id: string)
    requires TableInv(t) && Binds(t, tenant, name, id)
    ensures Lookup(t, tenant, name) == Some(t[id])
  {
  }

  function DerivedId(tenant: string, name: string): string { tenant + "/" + name }

  /** INSERT ... ON CONFLICT(tenant, name) DO UPDATE. The id is returned as computed by the caller's
      side; an update leaves the stored id alone. */
  ghost function Register(t: Services, svc: Service, now: int): Result<(Services, string), StoreError> {
    var id := if svc.id == "" then DerivedId(svc.tenant, svc.name) else svc.id;
    var row := Lookup(t, svc.tenant, svc.name);
    if row.Some? then
      Ok((t[row.value.id := row.value.(agent := svc.agent, relay := svc.relay, addr := svc.addr,
                                       health := "healthy", updated := now)], id))
    else if id in t then Err(PrimaryKeyTaken)
    else Ok((t[id := svc.(id := id, health := "healthy", updated := now)], id))
  }

  predicate BelongsTo(s: Service, tenant: string, agent: string, relay: string) {
    s.tenant == tenant && s.agent == agent && s.relay == relay
  }

  /** DELETE ... WHERE tenant = ? AND agent_uri = ? AND relay_id = ? */
  function Delete(t: Services, tenant: string, agent: string, relay: string): Services {
    map id | id in t && !BelongsTo(t[id], tenant, agent, relay) :: t[id]
  }

  /** SELECT with the same condition: the matching rows, each once, in any order. */
  ghost predicate IsSelection(t: Services, tenant: string, agent: string, relay: string, rows: seq<Service>) {
    && (forall i :: 0 <= i < |rows| ==>
          rows[i].id in t && t[rows[i].id] == rows[i] && BelongsTo(rows[i], tenant, agent, relay))
    && (forall i, j :: 0 <= i < j < |rows| ==> rows[i].id != rows[j].id)
    && (forall id :: id in t && BelongsTo(t[id], tenant, agent, relay)
                     ==> exists i :: 0 <= i < |rows| && rows[i].id == id)
  }

  /** Visiting one more row extends a selection exactly when the row matches. */
  lemma SelectionGrows(t: Services, tenant: string, agent: string, relay: string, rows: seq<Service>, row: Service)
    requires IsSelection(t, tenant, agent, relay, rows) && row.id !in t
    ensures IsSelection(t[row.id := row], tenant, agent, relay,
                        if BelongsTo(row, tenant, agent, relay) then rows + [row] else rows)
  {
    var t', rows' := t[row.id := row], if BelongsTo(row, tenant, agent, relay) then rows + [row] else rows;
    assert forall i :: 0 <= i < |rows| ==> rows'[i] == rows[i];
    forall id | id in t' && BelongsTo(t'[id], tenant, agent, relay)
      ensures exists i :: 0 <= i < |rows'| && rows'[i].id == id
    {
      if id == row.id {
        assert rows'[|rows|].id == id;
      } else {
        var i :| 0 <= i < |rows| && rows[i].id == id;
        assert rows'[i].id == id;
      }
    }
  }

  // ---------- Resolve ----------

  /** The sort key of ResolveService: rows of the caller's region first. */
  function RegionRank(t: Services, relays: Relays, id: string, region: string): int
    requires id in t
  {
    if region != "" && t[id].relay in relays && relays[t[id].relay].region == region then 0 else 1
  }

  /** id is first among the rows of the pair, by region preference and then by recency. */
  ghost predicate IsTopRow(t: Services, relays: Relays, tenant: string, name: string, region: string, id: string) {
    && Binds(t, tenant, name, id)
    && forall id' :: Binds(t, tenant, name, id') ==>
         var r, r' := RegionRank(t, relays, id, region), RegionRank(t, relays, id', region);
         r < r' || (r == r' && t[id].updated >= t[id'].updated)
  }

  /** With UNIQUE(tenant, name) the region preference never decides anything. */
  lemma RegionNeverMatters(t: Services, relays: Relays, tenant: string, name: string, region: string, id: string)
    requires TableInv(t)
    ensures IsTopRow(t, relays, tenant, name, region, id)
            <==> Lookup(t, tenant, name).Some? && Lookup(t, tenant, name).value.id == id
  {
    if Binds(t, tenant, name, id) { LookupIs(t, tenant, name, id); }
  }

  // ---------- Keys ----------

  predicate TenantChar(c: char) { 'a' <= c <= 'z' || '0' <= c <= '9' }

  /** The tenant pattern of lib/identity: ^[a-z0-9][a-z0-9-]{0,62}$ */
  predicate ValidTenant(s: string) {
    && 1 <= |s| <= 63 && TenantChar(s[0])
    && forall i :: 0 <= i < |s| ==> TenantChar(s[i]) || s[i] == '-'
  }

  lemma DerivedIdInjective(t1: string, n1: string, t2: string, n2: string)
    requires '/' !in t1 && '/' !in t2
    requires DerivedId(t1, n1) == DerivedId(t2, n2)
    ensures t1 == t2 && n1 == n2
  {
    var s := DerivedId(t1, n1);
    assert s[|t1|] == '/' && s[|t2|] == '/';
    assert forall i :: 0 <= i < |t1| ==> s[i] == t1[i];
    assert forall i :: 0 <= i < |t2| ==> s[i] == t2[i];
    assert |t1| == |t2|;
    assert t1 == s[..|t1|] && t2 == s[..|t2|];
    assert n1 == s[|t1| + 1..] && n2 == s[|t2| + 1..];
  }

  lemma ValidTenantHasNoSlash(s: string)
    requires ValidTenant(s)
    ensures '/' !in s
  {
  }

  // ---------- What the statements keep ----------

  lemma RegisterKeepsInv(t: Services, svc: Service, now: int)
    requires TableInv(t) && Register(t, svc, now).Ok?
    ensures TableInv(Register(t, svc, now).value.0)
  {
    var row := Lookup(t, svc.tenant, svc.name);
    if row.Some? {
      var id :| Binds(t, svc.tenant, svc.name, id) && row.value == t[id];
    } else {
      assert forall id :: id in t ==> !Binds(t, svc.tenant, svc.name, id);
    }
  }

  /** A registration is refused exactly when its pair is unbound and the id it would get is taken. */
  lemma RegisterRefused(t: Services, svc: Service, now: int)
    ensures var id := if svc.id == "" then svc.tenant + "/" + svc.name else svc.id;
            && (Register(t, svc, now) == Err(PrimaryKeyTaken) <==> Lookup(t, svc.tenant, svc.name).None? && id in t)
            && (Register(t, svc, now).Ok? <==> Register(t, svc, now) != Err(PrimaryKeyTaken))
            && (Register(t, svc, now).Ok? ==> Register(t, svc, now).value.1 == id)
  {
  }

  /** A registration changes its own pair to the new binding and no other pair at all. */
  lemma RegisterLookup(t: Services, svc: Service, now: int, tenant: string, name: string)
    requires TableInv(t) && Register(t, svc, now).Ok?
    ensures var t', got := Register(t, svc, now).value.0, Lookup(Register(t, svc, now).value.0, tenant, name);
            if (tenant, name) == (svc.tenant, svc.name) then
              && got.Some? && got.value.agent == svc.agent && got.value.relay == svc.relay
              && got.value.addr == svc.addr && got.value.updated == now && got.value.health == "healthy"
              && (Lookup(t, tenant, name).Some? ==> got.value.id == Lookup(t, tenant, name).value.id)
              && (Lookup(t, tenant, name).None? ==> got.value.id == Register(t, svc, now).value.1)
            else got == Lookup(t, tenant, name)
  {
    var t' := Register(t, svc, now).value.0;
    RegisterKeepsInv(t, svc, now);
    var row := Lookup(t, svc.tenant, svc.name);
    var k := if row.Some? then row.value.id else Register(t, svc, now).value.1;
    assert Binds(t', svc.tenant, svc.name, k);
    LookupIs(t', svc.tenant, svc.name, k);
    if (tenant, name) != (svc.tenant, svc.name) {
      var was := Lookup(t, tenant, name);
      if was.Some? {
        assert Binds(t', tenant, name, was.value.id);
        LookupIs(t', tenant, name, was.value.id);
      } else {
        assert forall id :: Binds(t', tenant, name, id) ==> Binds(t, tenant, name, id);
      }
    }
  }

  /** A delete unbinds exactly the pairs whose row belongs to the agent on that relay. */
  lemma DeleteLookup(t: Services, tenant: string, agent: string, relay: string, tn: string, name: string)
    requires TableInv(t)
    ensures TableInv(Delete(t, tenant, agent, relay))
    ensures var was := Lookup(t, tn, name);
            Lookup(Delete(t, tenant, agent, relay), tn, name)
            == if was.Some? && BelongsTo(was.value, tenant, agent, relay) then None else was
  {
    var t', was := Delete(t, tenant, agent, relay), Lookup(t, tn, name);
    assert forall id :: Binds(t', tn, name, id) ==> Binds(t, tn, name, id);
    if was.Some? && !BelongsTo(was.value, tenant, agent, relay) {
      assert Binds(t', tn, name, was.value.id);
      LookupIs(t', tn, name, was.value.id);
    }
  }
}
