/** pkg/policy/server.go as code, one RPC at a time: the policies table and the watch hub behind it.
    Each RPC is proved to be its commit followed by its broadcast, and a Watch to be its listing
    followed by its registration; PolicyWatch interleaves exactly these steps. */
module PolicyServers {
  import opened Wrappers
  import opened Policies
  import opened PolicyWatch
  import Hub = WatchHub
  import opened WatchServers

  function InsertAt(rows: seq<Row>, row: Row, pos: nat): (r: seq<Row>)
    requires pos <= |rows|
    ensures |r| == |rows| + 1
    ensures forall i :: 0 <= i < |r| ==> r[i] == if i < pos then rows[i] else if i == pos then row else rows[i - 1]
  {
    rows[..pos] + [row] + rows[pos..]
  }

  lemma InsertKeepsAllRows(t: Table, tenant: string, rows: seq<Row>, row: Row, pos: nat)
    requires AllRowsOf(t, tenant, rows) && pos <= |rows|
    ensures AllRowsOf(t[row.id := row], tenant, InsertAt(rows, row, pos))
  {
    var t', rows' := t[row.id := row], InsertAt(rows, row, pos);
    forall id | id in t' && t'[id].tenant == tenant
      ensures exists i :: 0 <= i < |rows'| && rows'[i].id == id
    {
      if id == row.id {
        assert rows'[pos].id == id;
      } else {
        var i :| 0 <= i < |rows| && rows[i].id == id;
        assert rows'[if i < pos then i else i + 1].id == id;
      }
    }
  }

  lemma InsertKeepsOrder(rows: seq<Row>, row: Row, pos: nat)
    requires InCreationOrder(rows) && pos <= |rows|
    requires forall i :: 0 <= i < |rows| ==> rows[i].id != row.id
    requires forall i :: 0 <= i < pos ==> rows[i].createdAt <= row.createdAt
    requires pos < |rows| ==> row.createdAt < rows[pos].createdAt
    ensures InCreationOrder(InsertAt(rows, row, pos))
  {
  }

  /** Put a new row where creation order wants it. */
  method InsertRow(ghost t: Table, tenant: string, rows: seq<Row>, row: Row) returns (rows': seq<Row>)
    requires IsListing(t, tenant, rows) && row.id !in t && row.tenant == tenant
    ensures IsListing(t[row.id := row], tenant, rows')
  {
    var pos := 0;
    while pos < |rows| && rows[pos].createdAt <= row.createdAt
      invariant 0 <= pos <= |rows|
      invariant forall i :: 0 <= i < pos ==> rows[i].createdAt <= row.createdAt
    {
      pos := pos + 1;
    }
    InsertKeepsAllRows(t, tenant, rows, row, pos);
    InsertKeepsOrder(rows, row, pos);
    rows' := InsertAt(rows, row, pos);
  }

  class PolicyServer {
    var table: Table
    const hub: WatchServer<Event>

    ghost predicate Valid()
      reads this, hub
    {
      TableInv(table) && hub.Valid()
    }

    constructor ()
      ensures Valid() && fresh(hub) && table == map[] && hub.View() == Hub.Empty()
    {
      table := map[];
      hub := new WatchServer<Event>();
    }

    method AddPolicy(req: Option<Rule>, freshId: string, now: int) returns (res: Result<string, PolicyError>)
      requires Valid()
      modifies this, hub
      ensures Valid()
      ensures match Policies.AddPolicy(old(table), req, freshId, now)
              case Ok(done) =>
                && res == Ok(done.1.id) && table == done.0
                && hub.View() == Hub.Next(old(hub.View()), Hub.Publish(Announcement(Put(done.1))))
              case Err(e) =>
                res == Err(e) && table == old(table) && hub.View() == old(hub.View())
      ensures res.Ok? ==>
                var id := if req.value.id == "" then freshId else req.value.id;
                && req.Some? && res.value == id
                && table == old(table)[id := ToRow(req.value.(id := id), now)]
                && hub.log == old(hub.log) + [Hub.Broadcast(Added(req.value.(id := id)), req.value.tenant, "")]
    {
      if req.None? {
        return Err(RuleRequired);
      }
      var r := req.value;
      if r.tenant == "" || r.target == "" || r.caller == "" {
        return Err(MissingField);
      }
      if r.decision == DECISION_UNSPECIFIED {
        return Err(DecisionRequired);
      }
      var id := r.id;
      if id == "" {
        id := freshId;
      }
      r := r.(id := id);
      if id in table {
        return Err(DuplicateId);
      }
      table := table[id := ToRow(r, now)];
      hub.Broadcast(Hub.Broadcast(Added(r), r.tenant, ""));
      return Ok(id);
    }

    method RemovePolicy(tenant: string, id: string) returns (removed: bool)
      requires Valid()
      modifies this, hub
      ensures Valid()
      ensures (table, removed) == Policies.RemovePolicy(old(table), tenant, id)
      ensures hub.View() == if removed then Hub.Next(old(hub.View()), Hub.Publish(Announcement(Drop(tenant, id))))
                            else old(hub.View())
      ensures hub.log == old(hub.log) + (if removed then [Hub.Broadcast(Deleted(id), tenant, "")] else [])
    {
      removed := id in table && table[id].tenant == tenant;
      if removed {
        table := table - {id};
        hub.Broadcast(Hub.Broadcast(Deleted(id), tenant, ""));
      }
    }

    /** The tenant's rows in order of creation. */
    method ListPolicies(tenant: string) returns (rows: seq<Row>)
      requires Valid()
      ensures IsListing(table, tenant, rows)
      ensures forall i, j :: 0 <= i < j < |rows| ==> rows[i].createdAt <= rows[j].createdAt
      ensures forall i :: 0 <= i < |rows| ==> rows[i].tenant == tenant && rows[i] in table.Values
    {
      rows := [];
      var todo := table.Keys;
      ghost var seen: Table := map[];
      while todo != {}
        invariant todo <= table.Keys && seen.Keys == table.Keys - todo
        invariant forall id :: id in seen ==> seen[id] == table[id]
        invariant IsListing(seen, tenant, rows)
        decreases todo
      {
        var id :| id in todo;
        var row := table[id];
        todo := todo - {id};
        if row.tenant == tenant {
          rows := InsertRow(seen, tenant, rows, row);
        }
        seen := seen[id := row];
      }
      assert seen == table;
    }

    /** The opening of a Watch: list, then register with the listing as snapshot. */
    method Watch(tenant: string) returns (w: nat, rows: seq<Row>)
      requires Valid()
      modifies hub
      ensures Valid() && w !in old(hub.all)
      ensures IsListing(table, tenant, rows)
      ensures hub.View() == Hub.Next(old(hub.View()), Hub.Join(w, Hub.Filter(tenant, {}), Snapshot(rows)))
    {
      rows := ListPolicies(tenant);
      w := hub.AddWatcher(Hub.Filter(tenant, {}), Snapshot(rows));
    }
  }
}
