/** Policy rules: the wire form (pb.PolicyRule), the stored form (store.Policy), the conversions
    between them in pkg/policy/server.go, and the policies table of pkg/registry/store/sqlite.go. */
module Policies {
  import opened Wrappers

  /** Protobuf enums are open, so an enum field is any integer. */
  datatype Rule = Rule(id: string, tenant: string, caller: string, target: string, rpc: string,
                       decision: int, expires: int, createdAt: int, p2p: int, relay: int)

  datatype Row = Row(id: string, tenant: string, caller: string, target: string, rpc: string,
                     decision: string, expires: int, createdAt: int, p2p: string, relay: string)

  datatype Event = Added(rule: Rule) | Deleted(id: string) | SnapshotEnd

  datatype PolicyError = RuleRequired | MissingField | DecisionRequired | DuplicateId

  type Table = map<string, Row>

  const DECISION_UNSPECIFIED := 0
  const DECISION_ALLOW := 1
  const DECISION_DENY := 2
  const P2P_ALLOWED := 0
  const P2P_FORBIDDEN := 1
  const P2P_REQUIRED := 2
  const RELAY_MODE_SPLICE := 0
  const RELAY_MODE_FORWARD := 1

  function DecisionString(d: int): string { if d == DECISION_DENY then "deny" else "allow" }
  function DecisionPB(s: string): int { if s == "deny" then DECISION_DENY else DECISION_ALLOW }
  function P2PModeString(m: int): string {
    if m == P2P_FORBIDDEN then "forbidden" else if m == P2P_REQUIRED then "required" else "allowed"
  }
  function P2PModePB(s: string): int {
    if s == "forbidden" then P2P_FORBIDDEN else if s == "required" then P2P_REQUIRED else P2P_ALLOWED
  }
  function RelayModeString(m: int): string { if m == RELAY_MODE_FORWARD then "forward" else "splice" }
  function RelayModePB(s: string): int { if s == "forward" then RELAY_MODE_FORWARD else RELAY_MODE_SPLICE }

  /** The row AddPolicy inserts; the store stamps the creation time itself. */
  function ToRow(r: Rule, now: int): Row {
    Row(r.id, r.tenant, r.caller, r.target, r.rpc, DecisionString(r.decision), r.expires, now,
        P2PModeString(r.p2p), RelayModeString(r.relay))
  }

  function ToPB(w: Row): Rule {
    Rule(w.id, w.tenant, w.caller, w.target, w.rpc, DecisionPB(w.decision), w.expires, w.createdAt,
         P2PModePB(w.p2p), RelayModePB(w.relay))
  }

  /** A rule up to its creation time, which live events and snapshots do not agree on. */
  function Erase(r: Rule): Rule { r.(createdAt := 0) }

  predicate KnownEnums(r: Rule) {
    && r.decision in {DECISION_ALLOW, DECISION_DENY}
    && r.p2p in {P2P_ALLOWED, P2P_FORBIDDEN, P2P_REQUIRED}
    && r.relay in {RELAY_MODE_SPLICE, RELAY_MODE_FORWARD}
  }

  /** What a stored rule reads back as: itself, with unknown enum values replaced by ALLOW, ALLOWED and
      SPLICE, and stamped with the time of the insert. */
  lemma ReadsBackAs(r: Rule, now: int)
    ensures ToPB(ToRow(r, now))
            == Rule(r.id, r.tenant, r.caller, r.target, r.rpc, if r.decision == 2 then 2 else 1, r.expires, now,
                    if r.p2p in {1, 2} then r.p2p else 0, if r.relay == 1 then 1 else 0)
  {
  }

  /** The columns of a stored rule. */
  lemma StoredColumns(r: Rule, now: int)
    ensures var w := ToRow(r, now);
            && (w.id, w.tenant, w.caller, w.target, w.rpc) == (r.id, r.tenant, r.caller, r.target, r.rpc)
            && (w.expires, w.createdAt) == (r.expires, now)
            && (w.decision == "deny" <==> r.decision == 2) && (w.decision == "allow" <==> r.decision != 2)
            && (w.p2p == "forbidden" <==> r.p2p == 1) && (w.p2p == "required" <==> r.p2p == 2)
            && (w.relay == "forward" <==> r.relay == 1) && (w.relay == "splice" <==> r.relay != 1)
  {
  }

  /** Storing and re-reading a rule gives the rule back exactly when its enums are known values. */
  lemma StoredFaithfully(r: Rule, now: int)
    ensures Erase(ToPB(ToRow(r, now))) == Erase(r) <==> KnownEnums(r)
  {
  }

  // ---------- The table ----------

  /** AddPolicy up to the commit: validation, id choice, and an insert that fails on a taken id. */
  function AddPolicy(t: Table, req: Option<Rule>, freshId: string, now: int): Result<(Table, Rule), PolicyError> {
    if req.None? then Err(RuleRequired)
    else
      var r := req.value;
      if r.tenant == "" || r.target == "" || r.caller == "" then Err(MissingField)
      else if r.decision == DECISION_UNSPECIFIED then Err(DecisionRequired)
      else
        var r' := r.(id := if r.id == "" then freshId else r.id);
        if r'.id in t then Err(DuplicateId) else Ok((t[r'.id := ToRow(r', now)], r'))
  }

  function RemovePolicy(t: Table, tenant: string, id: string): (Table, bool) {
    if id in t && t[id].tenant == tenant then (t - {id}, true) else (t, false)
  }

  ghost predicate TableInv(t: Table) { forall id :: id in t ==> t[id].id == id }

  ghost predicate OnlyRowsOf(t: Table, tenant: string, rows: seq<Row>) {
    forall i :: 0 <= i < |rows| ==>
      rows[i].id in t && t[rows[i].id] == rows[i] && rows[i].tenant == tenant
  }

  ghost predicate InCreationOrder(rows: seq<Row>) {
    forall i, j :: 0 <= i < j < |rows| ==>
      rows[i].id != rows[j].id && rows[i].createdAt <= rows[j].createdAt
  }

  ghost predicate AllRowsOf(t: Table, tenant: string, rows: seq<Row>) {
    forall id :: id in t && t[id].tenant == tenant ==> exists i :: 0 <= i < |rows| && rows[i].id == id
  }

  /** A result of SELECT ... WHERE tenant = ? ORDER BY created_at_unix_ms; ties in any order. */
  ghost predicate IsListing(t: Table, tenant: string, rows: seq<Row>) {
    OnlyRowsOf(t, tenant, rows) && InCreationOrder(rows) && AllRowsOf(t, tenant, rows)
  }

  /** The rules of a tenant, up to creation time: what a relay's cache is meant to hold. */
  function View(t: Table, tenant: string): map<string, Rule> {
    map id | id in t && t[id].tenant == tenant :: Erase(ToPB(t[id]))
  }

  lemma InsertMovesView(t: Table, r: Rule, now: int, tenant: string)
    requires r.id !in t
    ensures View(t[r.id := ToRow(r, now)], tenant)
            == if tenant == r.tenant then View(t, tenant)[r.id := Erase(ToPB(ToRow(r, now)))] else View(t, tenant)
  {
    var v, v' := View(t, tenant), View(t[r.id := ToRow(r, now)], tenant);
    assert forall id :: id in v' <==> id in v || (tenant == r.tenant && id == r.id);
  }

  /** The id a rule is asked to have: its own, or the generated one if it has none. */
  function WantedId(r: Rule, freshId: string): string { if r.id == "" then freshId else r.id }

  /** An AddPolicy commits exactly for a complete rule with a decision and a free id. It then stores,
      under the id wanted and with the time of the insert, the rule as it was asked for; that one rule
      joins its own tenant's view, and every other tenant's view stays. Otherwise the first thing
      missing names the error. */
  lemma AddChangesOneRule(t: Table, req: Option<Rule>, freshId: string, now: int, tenant: string)
    ensures var res := AddPolicy(t, req, freshId, now);
            && (res.Ok? <==>
                  && req.Some? && req.value.tenant != "" && req.value.caller != "" && req.value.target != ""
                  && req.value.decision != DECISION_UNSPECIFIED && WantedId(req.value, freshId) !in t)
            && (res.Ok? ==>
                  var id := if req.value.id == "" then freshId else req.value.id;
                  var r := req.value.(id := id);
                  && res.value.1 == r
                  && res.value.0 == t[id := ToRow(r, now)]
                  && View(res.value.0, tenant)
                     == if tenant == r.tenant then View(t, tenant)[id := Erase(ToPB(ToRow(r, now)))]
                        else View(t, tenant))
  {
    var res := AddPolicy(t, req, freshId, now);
    if res.Ok? { InsertMovesView(t, res.value.1, now, tenant); }
  }

  predicate MissesField(r: Rule) { r.tenant == "" || r.target == "" || r.caller == "" }

  lemma AddErrors(t: Table, req: Option<Rule>, freshId: string, now: int)
    ensures var res := AddPolicy(t, req, freshId, now);
            && (res == Err(RuleRequired) <==> req.None?)
            && (res == Err(MissingField) <==> req.Some? && MissesField(req.value))
            && (res == Err(DecisionRequired) <==>
                  req.Some? && !MissesField(req.value) && req.value.decision == 0)
            && (res == Err(DuplicateId) <==>
                  && req.Some? && !MissesField(req.value) && req.value.decision != 0
                  && WantedId(req.value, freshId) in t)
  {
  }

  /** A RemovePolicy reports true exactly when its tenant has the rule, and then takes that one rule
      out of that tenant's view; no other tenant can be affected. */
  lemma RemoveChangesOneRule(t: Table, owner: string, id: string, tenant: string)
    ensures var res := RemovePolicy(t, owner, id);
            && (res.1 <==> id in View(t, owner))
            && View(res.0, tenant) == if tenant == owner then View(t, tenant) - {id} else View(t, tenant)
  {
    var v, v' := View(t, tenant), View(RemovePolicy(t, owner, id).0, tenant);
    assert forall k :: k in v' <==> k in v && !(tenant == owner && k == id);
  }

  // ---------- The relay's cache ----------

  /** A relay folds the events it receives into a cache keyed by rule id. */
  function Cached(evs: seq<Event>): map<string, Rule> {
    if evs == [] then map[]
    else
      var m := Cached(evs[..|evs| - 1]);
      match evs[|evs| - 1]
      case Added(r) => m[r.id := Erase(r)]
      case Deleted(id) => m - {id}
      case SnapshotEnd => m
  }

  function Look(m: map<string, Rule>, id: string): Option<Rule> {
    if id in m then Some(m[id]) else None
  }

  function AddedAll(rows: seq<Row>): seq<Event> {
    seq(|rows|, i requires 0 <= i < |rows| => Added(ToPB(rows[i])))
  }

  /** The events Watch sends before going live. */
  function Snapshot(rows: seq<Row>): seq<Event> { AddedAll(rows) + [SnapshotEnd] }

  lemma {:induction false} CachedAddedAll(t: Table, tenant: string, rows: seq<Row>, n: nat, id: string)
    requires OnlyRowsOf(t, tenant, rows) && n <= |rows|
    ensures Look(Cached(AddedAll(rows)[..n]), id)
            == if exists i :: 0 <= i < n && rows[i].id == id then Some(Erase(ToPB(t[id]))) else None
  {
    if n > 0 {
      var evs := AddedAll(rows)[..n];
      assert evs[..n - 1] == AddedAll(rows)[..n - 1];
      CachedAddedAll(t, tenant, rows, n - 1, id);
      assert Cached(evs) == Cached(evs[..n - 1])[rows[n - 1].id := Erase(ToPB(rows[n - 1]))];
      assert t[rows[n - 1].id] == rows[n - 1];
    }
  }

  /** A snapshot, folded, is the tenant's view of the table it was listed from. */
  lemma SnapshotGivesView(t: Table, tenant: string, rows: seq<Row>)
    requires IsListing(t, tenant, rows)
    ensures Cached(Snapshot(rows)) == View(t, tenant)
  {
    var evs := AddedAll(rows);
    assert Snapshot(rows)[..|Snapshot(rows)| - 1] == evs;
    assert evs[..|rows|] == evs;
    forall id
      ensures Look(Cached(evs), id) == Look(View(t, tenant), id)
    {
      CachedAddedAll(t, tenant, rows, |rows|, id);
    }
    assert forall id :: id in Cached(evs) <==> Look(Cached(evs), id).Some?;
    assert forall id :: id in View(t, tenant) <==> Look(View(t, tenant), id).Some?;
  }
}
