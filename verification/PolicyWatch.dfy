/** The policy server under concurrency: every AddPolicy and RemovePolicy commits to the store in one
    step and broadcasts in a later one, and every Watch lists the store in one step and registers
    with the hub in a later one (pkg/policy/server.go:46-235). Any interleaving is a run.

    The question is whether a relay that folds its stream into a cache ends up with the tenant's
    rules. It does not always; the results below say exactly when. */
module PolicyWatch {
  import opened Wrappers
  import opened Policies
  import Hub = WatchHub

  /** A committed change, as the RPC that made it will broadcast it. */
  datatype Op = Put(rule: Rule) | Drop(t: string, id: string) {
    function Tenant(): string { if Put? then rule.tenant else t }
    function Id(): string { if Put? then rule.id else id }
    function Event(): Event { if Put? then Added(rule) else Deleted(id) }
  }

  datatype Listing = Listing(tenant: string, rows: seq<Row>, at: nat)

  /** commits is the history of committed changes; an RPC between commit and broadcast is an index
      in pending; order lists the commit indices in broadcast order. */
  datatype Sys = Sys(table: Table, commits: seq<Op>, pending: set<nat>, order: seq<nat>,
                     listings: map<nat, Listing>, hub: Hub.Hub<Event>)

  datatype Act =
    | Add(req: Option<Rule>, freshId: string, now: int)    // AddPolicy through the store insert
    | Remove(tenant: string, id: string)                   // RemovePolicy through the store delete
    | Announce(i: nat)                                     // the broadcast of commit i
    | List(w: nat, tenant: string, rows: seq<Row>)         // Watch: ListPolicies
    | Register(w: nat)                                     // Watch: addWatcher
    | Handler(w: nat, step: HandlerStep)                   // Watch: send loop and exit

  datatype HandlerStep = Sending(ok: bool) | Cancelling | Leaving

  function Announcement(op: Op): Hub.Broadcast<Event> { Hub.Broadcast(op.Event(), op.Tenant(), "") }

  ghost function HubAct(w: nat, step: HandlerStep): Hub.Act<Event> {
    match step
    case Sending(ok) => Hub.Send(w, ok)
    case Cancelling => Hub.Cancel(w)
    case Leaving => Hub.Leave(w)
  }

  function Committed(s: Sys, table: Table, op: Op): Sys {
    s.(table := table, commits := s.commits + [op], pending := s.pending + {|s.commits|})
  }

  ghost function Next(s: Sys, act: Act): Sys {
    match act
    case Add(req, freshId, now) =>
      (match AddPolicy(s.table, req, freshId, now)
       case Ok(res) => Committed(s, res.0, Put(res.1))
       case Err(_) => s)
    case Remove(tenant, id) =>
      var res := RemovePolicy(s.table, tenant, id);
      if res.1 then Committed(s, res.0, Drop(tenant, id)) else s
    case Announce(i) =>
      if i in s.pending && i < |s.commits| then
        s.(pending := s.pending - {i}, order := s.order + [i],
           hub := Hub.Next(s.hub, Hub.Publish(Announcement(s.commits[i]))))
      else s
    case List(w, tenant, rows) =>
      if w !in s.listings && IsListing(s.table, tenant, rows) then
        s.(listings := s.listings[w := Listing(tenant, rows, |s.commits|)])
      else s
    case Register(w) =>
      if w in s.listings then
        s.(hub := Hub.Next(s.hub, Hub.Join(w, Hub.Filter(s.listings[w].tenant, {}), Snapshot(s.listings[w].rows))))
      else s
    case Handler(w, step) => s.(hub := Hub.Next(s.hub, HubAct(w, step)))
  }

  function Init(): Sys { Sys(map[], [], {}, [], map[], Hub.Empty()) }

  ghost function Run(acts: seq<Act>): Sys {
    if acts == [] then Init() else Next(Run(acts[..|acts| - 1]), acts[|acts| - 1])
  }

  // ---------- Replaying commits ----------

  predicate Touches(op: Op, tenant: string, id: string) { op.Tenant() == tenant && op.Id() == id }

  /** The effect of a change on the rule it touches, as stored. */
  function Stored(op: Op): Option<Rule> {
    if op.Put? then Some(Erase(ToPB(ToRow(op.rule, 0)))) else None
  }

  /** The last commit that touches a tenant's rule. */
  function LastCommit(commits: seq<Op>, tenant: string, id: string): (r: Option<nat>)
    ensures r.Some? ==> r.value < |commits| && Touches(commits[r.value], tenant, id)
    ensures forall i :: 0 <= i < |commits| && Touches(commits[i], tenant, id) ==> r.Some? && i <= r.value
  {
    if commits == [] then None
    else
      var n := |commits| - 1;
      if Touches(commits[n], tenant, id) then Some(n) else LastCommit(commits[..n], tenant, id)
  }

  /** What a prefix of the commits leaves stored for one rule of a tenant. */
  function StoredAfter(commits: seq<Op>, tenant: string, id: string): Option<Rule> {
    var last := LastCommit(commits, tenant, id);
    if last.None? then None else Stored(commits[last.value])
  }

  lemma CommitMovesView(t: Table, t': Table, commits: seq<Op>, op: Op)
    requires TableInv(t) && forall tenant, id :: Look(View(t, tenant), id) == StoredAfter(commits, tenant, id)
    requires match op
             case Put(r) => r.id !in t && exists now :: t' == t[r.id := ToRow(r, now)]
             case Drop(tenant, id) => id in t && t[id].tenant == tenant && t' == t - {id}
    ensures TableInv(t')
    ensures forall tenant, id :: Look(View(t', tenant), id) == StoredAfter(commits + [op], tenant, id)
  {
    forall tenant, id
      ensures Look(View(t', tenant), id) == StoredAfter(commits + [op], tenant, id)
    {
      assert (commits + [op])[..|commits|] == commits;
      assert Look(View(t, tenant), id) == StoredAfter(commits, tenant, id);
    }
  }

  // ---------- What every step keeps ----------

  ghost predicate StoreInv(s: Sys) {
    && TableInv(s.table)
    && (forall tenant, id :: Look(View(s.table, tenant), id) == StoredAfter(s.commits, tenant, id))
  }

  /** Every commit is pending or has been broadcast, once; the hub's log is the broadcasts. */
  ghost predicate OrderInv(s: Sys) {
    && (forall i :: i in s.pending ==> i < |s.commits| && i !in s.order)
    && (forall k :: 0 <= k < |s.order| ==> s.order[k] < |s.commits|)
    && (forall i :: 0 <= i < |s.commits| ==> i in s.pending || i in s.order)
    && |s.hub.log| == |s.order|
    && (forall k :: 0 <= k < |s.order| ==> s.hub.log[k] == Announcement(s.commits[s.order[k]]))
  }

  /** A listing is the tenant's rules as of its commit position. */
  ghost predicate ListingInv(commits: seq<Op>, l: Listing) {
    && l.at <= |commits|
    && (forall id :: Look(Cached(Snapshot(l.rows)), id) == StoredAfter(commits[..l.at], l.tenant, id))
  }

  ghost predicate ListingsInv(s: Sys) {
    && (forall w :: w in s.listings ==> ListingInv(s.commits, s.listings[w]))
    && (forall w :: w in s.hub.ws ==>
          && w in s.listings
          && s.hub.ws[w].filter == Hub.Filter(s.listings[w].tenant, {})
          && s.hub.ws[w].prelude == Snapshot(s.listings[w].rows))
  }

  ghost predicate Inv(s: Sys) {
    StoreInv(s) && OrderInv(s) && ListingsInv(s) && Hub.HubInv(s.hub)
  }

  lemma CommitKeepsInv(s: Sys, table: Table, op: Op)
    requires Inv(s)
    requires match op
             case Put(r) => r.id !in s.table && exists now :: table == s.table[r.id := ToRow(r, now)]
             case Drop(tenant, id) => id in s.table && s.table[id].tenant == tenant && table == s.table - {id}
    ensures Inv(Committed(s, table, op))
  {
    CommitMovesView(s.table, table, s.commits, op);
    var s' := Committed(s, table, op);
    forall w | w in s.listings
      ensures ListingInv(s'.commits, s.listings[w])
    {
      assert ListingInv(s.commits, s.listings[w]);
      assert s'.commits[..s.listings[w].at] == s.commits[..s.listings[w].at];
    }
  }

  lemma ListKeepsInv(s: Sys, w: nat, tenant: string, rows: seq<Row>)
    requires Inv(s) && w !in s.listings && IsListing(s.table, tenant, rows)
    ensures Inv(Next(s, List(w, tenant, rows)))
  {
    SnapshotGivesView(s.table, tenant, rows);
    assert s.commits[..|s.commits|] == s.commits;
    assert ListingInv(s.commits, Listing(tenant, rows, |s.commits|));
  }

  lemma AnnounceKeepsInv(s: Sys, i: nat)
    requires Inv(s) && i in s.pending
    ensures Inv(Next(s, Announce(i)))
  {
    Hub.NextKeepsInv(s.hub, Hub.Publish(Announcement(s.commits[i])));
    Hub.NextFrame(s.hub, Hub.Publish(Announcement(s.commits[i])));
    var s' := Next(s, Announce(i));
    assert s'.order[|s.order|] == i;
    assert forall j :: j in s.order ==> j in s'.order;
  }

  lemma HubStepKeepsInv(s: Sys, act: Hub.Act<Event>)
    requires Inv(s) && !act.Publish?
    requires act.Join? ==> act.id in s.listings
                           && act.filter == Hub.Filter(s.listings[act.id].tenant, {})
                           && act.prelude == Snapshot(s.listings[act.id].rows)
    ensures Inv(s.(hub := Hub.Next(s.hub, act)))
  {
    Hub.NextKeepsInv(s.hub, act);
    Hub.NextFrame(s.hub, act);
  }

  lemma NextKeepsInv(s: Sys, act: Act)
    requires Inv(s)
    ensures Inv(Next(s, act))
  {
    match act
    case Add(req, freshId, now) =>
      var res := AddPolicy(s.table, req, freshId, now);
      if res.Ok? {
        assert res.value.0 == s.table[res.value.1.id := ToRow(res.value.1, now)];
        CommitKeepsInv(s, res.value.0, Put(res.value.1));
      }
    case Remove(tenant, id) =>
      if id in s.table && s.table[id].tenant == tenant {
        CommitKeepsInv(s, s.table - {id}, Drop(tenant, id));
      }
    case Announce(i) =>
      if i in s.pending { AnnounceKeepsInv(s, i); }
    case List(w, tenant, rows) =>
      if w !in s.listings && IsListing(s.table, tenant, rows) { ListKeepsInv(s, w, tenant, rows); }
    case Register(w) =>
      if w in s.listings {
        HubStepKeepsInv(s, Hub.Join(w, Hub.Filter(s.listings[w].tenant, {}), Snapshot(s.listings[w].rows)));
      }
    case Handler(w, step) =>
      HubStepKeepsInv(s, HubAct(w, step));
  }

  lemma {:induction false} RunKeepsInv(acts: seq<Act>)
    ensures Inv(Run(acts))
  {
    if acts != [] {
      RunKeepsInv(acts[..|acts| - 1]);
      NextKeepsInv(Run(acts[..|acts| - 1]), acts[|acts| - 1]);
    } else {
      assert Inv(Init());
    }
  }

  // ---------- From broadcasts back to commits ----------

  /** The events a tenant sees of the given commits, taken in the given order. */
  function Events(commits: seq<Op>, order: seq<nat>, tenant: string): seq<Event>
    requires forall k :: 0 <= k < |order| ==> order[k] < |commits|
  {
    if order == [] then []
    else
      var op := commits[order[|order| - 1]];
      Events(commits, order[..|order| - 1], tenant) + (if op.Tenant() == tenant then [op.Event()] else [])
  }

  /** The last commit in the given order that touches a tenant's rule. */
  function LastIn(commits: seq<Op>, order: seq<nat>, tenant: string, id: string): (r: Option<nat>)
    requires forall k :: 0 <= k < |order| ==> order[k] < |commits|
    ensures r.Some? ==> r.value < |order| && Touches(commits[order[r.value]], tenant, id)
    ensures forall k :: 0 <= k < |order| && Touches(commits[order[k]], tenant, id) ==> r.Some? && k <= r.value
  {
    if order == [] then None
    else
      var n := |order| - 1;
      if Touches(commits[order[n]], tenant, id) then Some(n) else LastIn(commits, order[..n], tenant, id)
  }

  /** Some broadcast from position since on touches the tenant's rule. */
  ghost predicate Mentions(commits: seq<Op>, order: seq<nat>, since: nat, tenant: string, id: string) {
    exists k :: since <= k < |order| && order[k] < |commits| && Touches(commits[order[k]], tenant, id)
  }

  lemma MentionsIffLast(commits: seq<Op>, order: seq<nat>, since: nat, tenant: string, id: string)
    requires since <= |order| && forall k :: 0 <= k < |order| ==> order[k] < |commits|
    ensures Mentions(commits, order, since, tenant, id) <==> LastIn(commits, order[since..], tenant, id).Some?
  {
    var recent := order[since..];
    assert forall k :: 0 <= k < |recent| ==> recent[k] == order[since + k];
    if Mentions(commits, order, since, tenant, id) {
      var k :| since <= k < |order| && Touches(commits[order[k]], tenant, id);
      assert Touches(commits[recent[k - since]], tenant, id);
    }
  }

  /** The effect of a change on the rule it touches, as announced. */
  function Announced(op: Op): Option<Rule> { if op.Put? then Some(Erase(op.rule)) else None }

  lemma {:induction false} MatchingIsEvents(log: seq<Hub.Broadcast<Event>>, commits: seq<Op>, order: seq<nat>,
                                            tenant: string)
    requires |log| == |order| && tenant != ""
    requires forall k :: 0 <= k < |order| ==> order[k] < |commits| && log[k] == Announcement(commits[order[k]])
    ensures Hub.Matching(Hub.Filter(tenant, {}), log) == Events(commits, order, tenant)
  {
    if order != [] {
      var n := |order| - 1;
      MatchingIsEvents(log[..n], commits, order[..n], tenant);
    }
  }

  lemma CachedOneMore(evs: seq<Event>, op: Op, id: string)
    ensures Look(Cached(evs + [op.Event()]), id) == if op.Id() == id then Announced(op) else Look(Cached(evs), id)
  {
    assert (evs + [op.Event()])[..|evs|] == evs;
  }

  /** Folding announcements onto a cache: the last one for a rule decides, else the cache stands. */
  lemma {:induction false} CachedByLast(evs: seq<Event>, commits: seq<Op>, order: seq<nat>, tenant: string, id: string)
    requires forall k :: 0 <= k < |order| ==> order[k] < |commits|
    ensures var last := LastIn(commits, order, tenant, id);
            Look(Cached(evs + Events(commits, order, tenant)), id)
            == if last.None? then Look(Cached(evs), id) else Announced(commits[order[last.value]])
  {
    if order == [] {
      assert evs + Events(commits, order, tenant) == evs;
    } else {
      var n := |order| - 1;
      CachedByLast(evs, commits, order[..n], tenant, id);
      var op := commits[order[n]];
      var before := evs + Events(commits, order[..n], tenant);
      if op.Tenant() == tenant {
        assert evs + Events(commits, order, tenant) == before + [op.Event()];
        CachedOneMore(before, op, id);
      } else {
        assert evs + Events(commits, order, tenant) == before;
      }
    }
  }

  // ---------- When a cache converges ----------

  /** No RPC is between its commit and its broadcast. */
  ghost predicate Quiescent(s: Sys) { s.pending == {} }

  /** The watcher is live, has sent its snapshot and has nothing left to send. */
  ghost predicate Drained(s: Sys, w: nat) {
    && w in s.hub.ws && s.hub.ws[w].registered && s.hub.ws[w].handler.Running?
    && s.hub.ws[w].sentPrelude == |s.hub.ws[w].prelude| && s.hub.ws[w].queue == []
  }

  /** What the watcher's client has received. */
  function Received(w: Hub.Watcher<Event>): seq<Event>
    requires w.sentPrelude <= |w.prelude|
  {
    w.prelude[..w.sentPrelude] + w.taken
  }

  ghost predicate Converged(s: Sys, w: nat)
    requires Drained(s, w) && w in s.listings
  {
    Cached(Received(s.hub.ws[w])) == View(s.table, s.listings[w].tenant)
  }

  predicate SameRule(x: Op, y: Op) { Touches(x, y.Tenant(), y.Id()) }

  /** Changes to the same rule of the tenant were broadcast in commit order. */
  ghost predicate InOrder(s: Sys, tenant: string) {
    forall k, l ::
      (0 <= k < l < |s.order| && s.order[k] < |s.commits| && s.order[l] < |s.commits|
       && s.commits[s.order[l]].Tenant() == tenant && SameRule(s.commits[s.order[k]], s.commits[s.order[l]]))
      ==> s.order[k] < s.order[l]
  }

  ghost predicate EnumsKnown(s: Sys, tenant: string) {
    forall i :: 0 <= i < |s.commits| && s.commits[i].Put? && s.commits[i].Tenant() == tenant
                ==> KnownEnums(s.commits[i].rule)
  }

  /** Some change to the rule was broadcast after the watcher registered. */
  ghost predicate AnnouncedSince(s: Sys, w: nat, id: string)
    requires w in s.hub.ws && w in s.listings
  {
    Mentions(s.commits, s.order, s.hub.ws[w].since, s.listings[w].tenant, id)
  }

  /** The rule is stored now as it was when the watcher listed. */
  ghost predicate UnchangedSinceList(s: Sys, w: nat, id: string)
    requires w in s.listings
  {
    var l := s.listings[w];
    l.at <= |s.commits| && StoredAfter(s.commits[..l.at], l.tenant, id) == StoredAfter(s.commits, l.tenant, id)
  }

  /** With everything broadcast in order, the last broadcast of a rule is its last commit. */
  lemma LastBroadcastIsLastCommit(s: Sys, tenant: string, id: string, since: nat)
    requires OrderInv(s) && Quiescent(s) && InOrder(s, tenant) && since <= |s.order|
    requires LastIn(s.commits, s.order[since..], tenant, id).Some?
    ensures var k := since + LastIn(s.commits, s.order[since..], tenant, id).value;
            LastCommit(s.commits, tenant, id) == Some(s.order[k])
  {
    var p := LastIn(s.commits, s.order[since..], tenant, id).value;
    var i := s.order[since + p];
    assert s.order[since..][p] == i;
    var m := LastCommit(s.commits, tenant, id).value;
    assert m in s.order;
    var k :| 0 <= k < |s.order| && s.order[k] == m;
    assert since <= k ==> s.order[since..][k - since] == m;
    assert k < since + p ==> m < i;
  }

  lemma TakenIsEvents(x: Hub.Watcher<Event>, s: Sys, tenant: string)
    requires OrderInv(s) && Hub.OwedInv(x, s.hub.log) && tenant != ""
    requires x.registered && x.filter == Hub.Filter(tenant, {}) && x.lost == [] && x.queue == []
    ensures x.since <= |s.order| && x.taken == Events(s.commits, s.order[x.since..], tenant)
  {
    var recent := s.hub.log[x.since..|s.hub.log|];
    assert x.taken == x.taken + x.lost + x.queue;
    assert forall k :: 0 <= k < |recent| ==> recent[k] == s.hub.log[x.since + k];
    MatchingIsEvents(recent, s.commits, s.order[x.since..], tenant);
  }

  /** A drained client has its snapshot followed by every broadcast of the tenant since. */
  lemma ReceivedIsSnapshotThenEvents(s: Sys, w: nat)
    requires Inv(s) && Drained(s, w) && s.listings[w].tenant != ""
    ensures var x, l := s.hub.ws[w], s.listings[w];
            && x.since <= |s.order|
            && Received(x) == Snapshot(l.rows) + Events(s.commits, s.order[x.since..], l.tenant)
  {
    DrainedParts(s, w);
    TakenIsEvents(s.hub.ws[w], s, s.listings[w].tenant);
  }

  lemma DrainedParts(s: Sys, w: nat)
    requires Hub.HubInv(s.hub) && ListingsInv(s) && Drained(s, w)
    ensures var x, l := s.hub.ws[w], s.listings[w];
            && Hub.OwedInv(x, s.hub.log) && x.lost == []
            && x.filter == Hub.Filter(l.tenant, {})
            && Received(x) == Snapshot(l.rows) + x.taken
  {
    assert Hub.WatcherInv(s.hub.ws[w], s.hub.log);
  }

  lemma AnnouncedAsStored(op: Op)
    requires op.Put? ==> KnownEnums(op.rule)
    ensures Announced(op) == Stored(op)
  {
    if op.Put? { StoredFaithfully(op.rule, 0); }
  }

  /** The last change to the rule that was broadcast after the watcher registered. */
  ghost function LastHeard(s: Sys, w: nat, id: string): Option<Op>
    requires OrderInv(s) && w in s.hub.ws && w in s.listings && s.hub.ws[w].since <= |s.order|
  {
    var recent := s.order[s.hub.ws[w].since..];
    var last := LastIn(s.commits, recent, s.listings[w].tenant, id);
    if last.None? then None else Some(s.commits[recent[last.value]])
  }

  /** The last change the watcher heard of is what is stored, or it heard of none and what it listed
      is still stored. */
  ghost predicate HeardRight(s: Sys, w: nat, id: string)
    requires OrderInv(s) && w in s.hub.ws && w in s.listings && s.hub.ws[w].since <= |s.order|
  {
    match LastHeard(s, w, id)
    case Some(op) => Announced(op) == StoredAfter(s.commits, s.listings[w].tenant, id)
    case None => UnchangedSinceList(s, w, id)
  }

  lemma RuleIsCachedAsHeard(s: Sys, w: nat, id: string)
    requires Inv(s) && Drained(s, w) && s.listings[w].tenant != "" && s.hub.ws[w].since <= |s.order|
    ensures Look(Cached(Received(s.hub.ws[w])), id) == Look(View(s.table, s.listings[w].tenant), id)
            <==> HeardRight(s, w, id)
  {
    var x, l := s.hub.ws[w], s.listings[w];
    ReceivedIsSnapshotThenEvents(s, w);
    CachedByLast(Snapshot(l.rows), s.commits, s.order[x.since..], l.tenant, id);
    assert ListingInv(s.commits, l);
  }

  /** Convergence is exact, in every reachable state of every interleaving: a drained watcher's cache is
      its tenant's stored rules if and only if, rule by rule, the last change it heard of is the one
      stored, or it heard of none and the rule is stored as it was when the watcher listed. */
  lemma ConvergenceIsExact(acts: seq<Act>, w: nat)
    requires Drained(Run(acts), w) && w in Run(acts).listings && Run(acts).listings[w].tenant != ""
    ensures OrderInv(Run(acts)) && Run(acts).hub.ws[w].since <= |Run(acts).order|
    ensures Converged(Run(acts), w) <==> forall id :: HeardRight(Run(acts), w, id)
  {
    RunKeepsInv(acts);
    var s := Run(acts);
    ReceivedIsSnapshotThenEvents(s, w);
    var cache, view := Cached(Received(s.hub.ws[w])), View(s.table, s.listings[w].tenant);
    forall id
      ensures Look(cache, id) == Look(view, id) <==> HeardRight(s, w, id)
    {
      RuleIsCachedAsHeard(s, w, id);
    }
    SameByLook(cache, view);
  }

  /** Once everything is broadcast in order, whatever a watcher heard last of a rule is what is
      stored. */
  lemma HeardLateIsRight(s: Sys, w: nat, id: string)
    requires OrderInv(s) && w in s.hub.ws && w in s.listings && s.hub.ws[w].since <= |s.order|
    requires Quiescent(s) && InOrder(s, s.listings[w].tenant) && EnumsKnown(s, s.listings[w].tenant)
    ensures HeardRight(s, w, id) <==> AnnouncedSince(s, w, id) || UnchangedSinceList(s, w, id)
  {
    var tenant, since := s.listings[w].tenant, s.hub.ws[w].since;
    MentionsIffLast(s.commits, s.order, since, tenant, id);
    if LastIn(s.commits, s.order[since..], tenant, id).Some? {
      LastBroadcastIsLastCommit(s, tenant, id, since);
      AnnouncedAsStored(s.commits[LastCommit(s.commits, tenant, id).value]);
    }
  }

  /** With in-order broadcasts per rule, known enums and a quiescent server, the condition is that each
      rule was announced after the watcher registered or is stored as it was when the watcher
      listed. */
  lemma OrderedConvergenceIsExact(acts: seq<Act>, w: nat)
    requires var s := Run(acts);
             && Quiescent(s) && Drained(s, w) && w in s.listings && s.listings[w].tenant != ""
             && InOrder(s, s.listings[w].tenant) && EnumsKnown(s, s.listings[w].tenant)
    ensures var s := Run(acts);
            Converged(s, w) <==> forall id :: AnnouncedSince(s, w, id) || UnchangedSinceList(s, w, id)
  {
    ConvergenceIsExact(acts, w);
    var s := Run(acts);
    forall id
      ensures HeardRight(s, w, id) <==> AnnouncedSince(s, w, id) || UnchangedSinceList(s, w, id)
    {
      HeardLateIsRight(s, w, id);
    }
  }

  lemma SameByLook(m: map<string, Rule>, n: map<string, Rule>)
    ensures m == n <==> forall id :: Look(m, id) == Look(n, id)
  {
    if forall id :: Look(m, id) == Look(n, id) {
      assert forall id :: id in m <==> Look(m, id).Some?;
      assert forall id :: id in n <==> Look(n, id).Some?;
    }
  }

  /** No change of the tenant committed after the watcher listed was broadcast before it
      registered. */
  ghost predicate NoneSlippedThrough(s: Sys, w: nat)
    requires w in s.hub.ws && w in s.listings
  {
    forall k :: 0 <= k < s.hub.ws[w].since && k < |s.order| && s.order[k] < |s.commits|
                && s.commits[s.order[k]].Tenant() == s.listings[w].tenant
                ==> s.order[k] < s.listings[w].at
  }

  lemma {:induction false} StoredAfterPrefix(commits: seq<Op>, at: nat, tenant: string, id: string)
    requires at <= |commits|
    requires forall i :: at <= i < |commits| ==> !Touches(commits[i], tenant, id)
    ensures StoredAfter(commits[..at], tenant, id) == StoredAfter(commits, tenant, id)
  {
    if at == |commits| {
      assert commits[..at] == commits;
    } else {
      var n := |commits| - 1;
      StoredAfterPrefix(commits[..n], at, tenant, id);
      assert commits[..n][..at] == commits[..at];
    }
  }

  /** Policy cache convergence: with in-order broadcasts per rule and no change slipping between the
      watcher's list and its registration, a drained watcher of a quiescent server holds exactly the
      tenant's stored rules. */
  lemma CacheConverges(acts: seq<Act>, w: nat)
    requires var s := Run(acts);
             && Quiescent(s) && Drained(s, w) && w in s.listings && s.listings[w].tenant != ""
             && InOrder(s, s.listings[w].tenant) && EnumsKnown(s, s.listings[w].tenant)
             && NoneSlippedThrough(s, w)
    ensures Converged(Run(acts), w)
  {
    RunKeepsInv(acts);
    var s := Run(acts);
    var l := s.listings[w];
    assert ListingInv(s.commits, l);
    forall id
      ensures AnnouncedSince(s, w, id) || UnchangedSinceList(s, w, id)
    {
      if !AnnouncedSince(s, w, id) {
        forall i | l.at <= i < |s.commits|
          ensures !Touches(s.commits[i], l.tenant, id)
        {
          assert i in s.order;
          var k :| 0 <= k < |s.order| && s.order[k] == i;
        }
        StoredAfterPrefix(s.commits, l.at, l.tenant, id);
      }
    }
    OrderedConvergenceIsExact(acts, w);
  }
}
