/** Further facts about runs of the policy server: a client discipline that keeps broadcasts in
    order, two short runs that leave a cache wrong forever, and the shape of every watch stream. */
module PolicyRuns {
  import opened Wrappers
  import opened Policies
  import opened PolicyWatch
  import Hub = WatchHub

  lemma RunStep(acts: seq<Act>, act: Act)
    ensures Run(acts + [act]) == Next(Run(acts), act)
  {
    assert (acts + [act])[..|acts + [act]| - 1] == acts;
  }

  // ---------- Clients that wait ----------

  /** If the action commits a change, no RPC on the same rule is still in progress. */
  ghost predicate Waits(s: Sys, act: Act) {
    var s' := Next(s, act);
    |s'.commits| > |s.commits| ==>
      forall i :: i in s.pending && i < |s.commits| ==> !SameRule(s.commits[i], s'.commits[|s.commits|])
  }

  ghost predicate ClientsWait(acts: seq<Act>) {
    forall n :: 0 <= n < |acts| ==> WaitsAt(acts, n)
  }

  ghost predicate WaitsAt(acts: seq<Act>, n: nat)
    requires n < |acts|
  {
    Waits(Run(acts[..n]), acts[n])
  }

  /** At most one RPC per rule is in progress, and it committed after every earlier broadcast. */
  ghost predicate OneInProgress(commits: seq<Op>, pending: set<nat>, order: seq<nat>) {
    && (forall i, j ::
          (i in pending && j in pending && i < |commits| && j < |commits| && SameRule(commits[i], commits[j]))
          ==> i == j)
    && (forall k, i ::
          (0 <= k < |order| && i in pending && order[k] < |commits| && i < |commits|
           && SameRule(commits[order[k]], commits[i]))
          ==> order[k] < i)
  }

  lemma CommitKeepsOne(commits: seq<Op>, pending: set<nat>, order: seq<nat>, op: Op)
    requires OneInProgress(commits, pending, order)
    requires forall i :: i in pending ==> i < |commits| && !SameRule(commits[i], op)
    requires forall k :: 0 <= k < |order| ==> order[k] < |commits|
    ensures OneInProgress(commits + [op], pending + {|commits|}, order)
  {
    var commits' := commits + [op];
    assert forall i :: 0 <= i < |commits| ==> commits'[i] == commits[i];
  }

  lemma AnnounceKeepsOne(commits: seq<Op>, pending: set<nat>, order: seq<nat>, i: nat)
    requires OneInProgress(commits, pending, order) && i in pending && i < |commits|
    ensures OneInProgress(commits, pending - {i}, order + [i])
  {
  }

  ghost predicate AllInOrder(s: Sys) { forall tenant :: InOrder(s, tenant) }

  lemma CommitKeepsOrder(s: Sys, table: Table, op: Op)
    requires OrderInv(s) && AllInOrder(s)
    ensures AllInOrder(Committed(s, table, op))
  {
    forall tenant
      ensures InOrder(Committed(s, table, op), tenant)
    {
      assert InOrder(s, tenant);
    }
  }

  lemma AnnounceKeepsOrder(s: Sys, i: nat)
    requires OrderInv(s) && AllInOrder(s) && OneInProgress(s.commits, s.pending, s.order) && i in s.pending
    ensures AllInOrder(Next(s, Announce(i)))
  {
    forall tenant
      ensures InOrder(Next(s, Announce(i)), tenant)
    {
      assert InOrder(s, tenant);
    }
  }

  lemma NextKeepsSerial(s: Sys, act: Act)
    requires Inv(s) && OneInProgress(s.commits, s.pending, s.order) && AllInOrder(s) && Waits(s, act)
    ensures var s' := Next(s, act);
            OneInProgress(s'.commits, s'.pending, s'.order) && AllInOrder(s')
  {
    var s' := Next(s, act);
    if |s'.commits| > |s.commits| {
      var op := s'.commits[|s.commits|];
      assert s' == Committed(s, s'.table, op);
      CommitKeepsOne(s.commits, s.pending, s.order, op);
      CommitKeepsOrder(s, s'.table, op);
    } else if act.Announce? && act.i in s.pending {
      AnnounceKeepsOne(s.commits, s.pending, s.order, act.i);
      AnnounceKeepsOrder(s, act.i);
    } else {
      assert s'.commits == s.commits && s'.pending == s.pending && s'.order == s.order;
      assert forall tenant :: InOrder(s, tenant) ==> InOrder(s', tenant);
    }
  }

  lemma WaitingPrefix(acts: seq<Act>, n: nat)
    requires ClientsWait(acts) && n <= |acts|
    ensures ClientsWait(acts[..n])
  {
    forall m: nat | m < n
      ensures WaitsAt(acts[..n], m)
    {
      assert acts[..n][..m] == acts[..m];
      assert WaitsAt(acts, m);
    }
  }

  /** Clients that never have two RPCs on the same rule in progress get in-order broadcasts for
      every tenant. */
  lemma {:induction false} WaitingClientsStayInOrder(acts: seq<Act>)
    requires ClientsWait(acts)
    ensures var s := Run(acts);
            OneInProgress(s.commits, s.pending, s.order) && AllInOrder(s)
  {
    if acts != [] {
      var n := |acts| - 1;
      WaitingPrefix(acts, n);
      WaitingClientsStayInOrder(acts[..n]);
      RunKeepsInv(acts[..n]);
      assert WaitsAt(acts, n);
      NextKeepsSerial(Run(acts[..n]), acts[n]);
    }
  }

  /** For clients that wait, the only way a cache can go wrong is the gap between list and
      register. */
  lemma WaitingClientsConverge(acts: seq<Act>, w: nat)
    requires ClientsWait(acts)
    requires var s := Run(acts);
             && Quiescent(s) && Drained(s, w) && w in s.listings && s.listings[w].tenant != ""
             && EnumsKnown(s, s.listings[w].tenant) && NoneSlippedThrough(s, w)
    ensures Converged(Run(acts), w)
  {
    WaitingClientsStayInOrder(acts);
    CacheConverges(acts, w);
  }

  // ---------- Waiting is exactly what it takes ----------

  /** A continuation in which only RPCs already in progress move, each by its broadcast. */
  predicate OnlyAnnounces(more: seq<Act>) { forall n :: 0 <= n < |more| ==> more[n].Announce? }

  /** However the broadcasts in progress are scheduled, they stay in order. */
  ghost predicate Safe(acts: seq<Act>) {
    forall more :: OnlyAnnounces(more) ==> AllInOrder(Run(acts + more))
  }

  lemma AnnounceKeepsSerial(s: Sys, i: nat)
    requires Inv(s) && OneInProgress(s.commits, s.pending, s.order) && AllInOrder(s)
    ensures var s' := Next(s, Announce(i));
            OneInProgress(s'.commits, s'.pending, s'.order) && AllInOrder(s')
  {
    NextKeepsSerial(s, Announce(i));
  }

  lemma {:induction false} AnnouncingKeepsSerial(acts: seq<Act>, more: seq<Act>)
    requires OneInProgress(Run(acts).commits, Run(acts).pending, Run(acts).order) && AllInOrder(Run(acts))
    requires OnlyAnnounces(more)
    ensures var s := Run(acts + more);
            OneInProgress(s.commits, s.pending, s.order) && AllInOrder(s)
  {
    if more == [] {
      assert acts + more == acts;
    } else {
      var init, last := more[..|more| - 1], more[|more| - 1];
      AnnouncingKeepsSerial(acts, init);
      RunKeepsInv(acts + init);
      AnnounceKeepsSerial(Run(acts + init), last.i);
      RunStep(acts + init, last);
      assert acts + init + [last] == acts + more;
    }
  }

  /** Broadcasting a commit after a later one of the same rule puts the rule out of order. */
  lemma AnnouncedLate(s: Sys, i: nat, k: nat)
    requires OrderInv(s) && i in s.pending && k < |s.order|
    requires i < s.order[k] && SameRule(s.commits[s.order[k]], s.commits[i])
    ensures !InOrder(Next(s, Announce(i)), s.commits[i].Tenant())
  {
    var s' := Next(s, Announce(i));
    assert s'.order[k] == s.order[k] && s'.order[|s.order|] == i;
  }

  lemma AnnounceAppends(s: Sys, j: nat)
    requires Inv(s) && j in s.pending
    ensures var s' := Next(s, Announce(j));
            && Inv(s') && s'.commits == s.commits && s'.pending == s.pending - {j}
            && s'.order == s.order + [j]
  {
    AnnounceKeepsInv(s, j);
  }

  /** Two commits of one rule in progress: the later can be broadcast first. */
  lemma OverlapReorders(acts: seq<Act>, i: nat, j: nat) returns (more: seq<Act>)
    requires i in Run(acts).pending && j in Run(acts).pending && i < j < |Run(acts).commits|
    requires SameRule(Run(acts).commits[j], Run(acts).commits[i])
    ensures OnlyAnnounces(more) && !AllInOrder(Run(acts + more))
  {
    var s := Run(acts);
    RunKeepsInv(acts);
    AnnounceAppends(s, j);
    RunStep(acts, Announce(j));
    RunStep(acts + [Announce(j)], Announce(i));
    var s1 := Run(acts + [Announce(j)]);
    assert s1.order[|s.order|] == j;
    AnnouncedLate(s1, i, |s.order|);
    more := [Announce(j), Announce(i)];
    assert acts + [Announce(j)] + [Announce(i)] == acts + more;
  }

  /** Either two commits of one rule are in progress, or one is in progress behind a later one that was
      already broadcast. */
  lemma OverlapOrLate(commits: seq<Op>, pending: set<nat>, order: seq<nat>)
    returns (overlap: bool, i: nat, j: nat)
    requires !OneInProgress(commits, pending, order)
    requires forall m :: m in pending ==> m !in order
    ensures i in pending && i < |commits|
    ensures overlap ==> j in pending && i < j < |commits| && SameRule(commits[j], commits[i])
    ensures !overlap ==> j < |order| && i < order[j] < |commits| && SameRule(commits[order[j]], commits[i])
  {
    if a, b :| a in pending && b in pending && a < b < |commits| && SameRule(commits[a], commits[b]) {
      overlap, i, j := true, a, b;
    } else {
      var k, m :| 0 <= k < |order| && m in pending && order[k] < |commits| && m < |commits|
                  && SameRule(commits[order[k]], commits[m]) && order[k] >= m;
      assert order[k] in order;
      overlap, i, j := false, m, k;
    }
  }

  lemma UnserialReorders(acts: seq<Act>) returns (more: seq<Act>)
    requires !OneInProgress(Run(acts).commits, Run(acts).pending, Run(acts).order)
    ensures OnlyAnnounces(more) && !AllInOrder(Run(acts + more))
  {
    var s := Run(acts);
    RunKeepsInv(acts);
    var overlap, i, j := OverlapOrLate(s.commits, s.pending, s.order);
    if overlap {
      more := OverlapReorders(acts, i, j);
    } else {
      AnnouncedLate(s, i, j);
      more := [Announce(i)];
      RunStep(acts, Announce(i));
    }
  }

  /** From any point of any run that is in order so far, the broadcasts in progress can put a rule out
      of order if and only if two RPCs on one rule overlap. */
  lemma ReorderIsExact(acts: seq<Act>)
    requires AllInOrder(Run(acts))
    ensures Safe(acts) <==> OneInProgress(Run(acts).commits, Run(acts).pending, Run(acts).order)
  {
    if OneInProgress(Run(acts).commits, Run(acts).pending, Run(acts).order) {
      forall more | OnlyAnnounces(more)
        ensures AllInOrder(Run(acts + more))
      {
        AnnouncingKeepsSerial(acts, more);
      }
    } else {
      var more := UnserialReorders(acts);
    }
  }

  /** A commit on a rule with an RPC in progress leaves two in progress. */
  lemma NotWaitingOverlaps(s: Sys, act: Act)
    requires Inv(s) && !Waits(s, act)
    ensures var s' := Next(s, act);
            !OneInProgress(s'.commits, s'.pending, s'.order)
  {
    var s' := Next(s, act);
    var j := |s.commits|;
    var i :| i in s.pending && i < j && SameRule(s.commits[i], s'.commits[j]);
    assert s' == Committed(s, s'.table, s'.commits[j]);
    assert i in s'.pending && j in s'.pending && s'.commits[i] == s.commits[i];
  }

  lemma WaitingIsSafe(acts: seq<Act>)
    requires ClientsWait(acts)
    ensures Safe(acts)
  {
    WaitingClientsStayInOrder(acts);
    ReorderIsExact(acts);
  }

  lemma NotWaitingIsUnsafe(acts: seq<Act>, act: Act)
    requires !Waits(Run(acts), act)
    ensures !Safe(acts + [act])
  {
    RunKeepsInv(acts);
    NotWaitingOverlaps(Run(acts), act);
    RunStep(acts, act);
    var more := UnserialReorders(acts + [act]);
  }

  lemma NotWaitingShows(acts: seq<Act>, n: nat)
    requires n < |acts| && !WaitsAt(acts, n)
    ensures !Safe(acts[..n + 1])
  {
    NotWaitingIsUnsafe(acts[..n], acts[n]);
    assert acts[..n] + [acts[n]] == acts[..n + 1];
  }

  /** Waiting is exactly what keeps broadcasts in order: clients wait throughout a run if and only if
      at no point of it could the broadcasts in progress have put a rule out of order. */
  lemma WaitingIsExact(acts: seq<Act>)
    ensures ClientsWait(acts) <==> forall n :: 0 <= n <= |acts| ==> Safe(acts[..n])
  {
    if ClientsWait(acts) {
      forall n | 0 <= n <= |acts|
        ensures Safe(acts[..n])
      {
        WaitingPrefix(acts, n);
        WaitingIsSafe(acts[..n]);
      }
    } else {
      var n :| 0 <= n < |acts| && !WaitsAt(acts, n);
      NotWaitingShows(acts, n);
    }
  }

  // ---------- Runs that go wrong ----------

  /** A rule AddPolicy accepts as it stands. */
  predicate Acceptable(r: Rule) {
    r.id != "" && r.tenant != "" && r.caller != "" && r.target != "" && KnownEnums(r)
  }

  /** Watch lists, a rule is added and broadcast, and only then does Watch register. */
  function MissedActs(r: Rule): seq<Act> {
    [List(1, r.tenant, []), Add(Some(r), "", 0), Announce(0), Register(1), Handler(1, Sending(true))]
  }

  function MissedState(r: Rule): Sys {
    var w := Hub.Watcher(Hub.Filter(r.tenant, {}), [], false, 0, true, Hub.Running, [SnapshotEnd], 1, [], [], 1, 1);
    Sys(map[r.id := ToRow(r, 0)], [Put(r)], {}, [0], map[1 := Listing(r.tenant, [], 0)],
        Hub.Hub(map[1 := w], [Announcement(Put(r))], false))
  }

  /** Everything up to the broadcast, with no watcher registered to hear it. */
  lemma MissedBroadcast(r: Rule)
    requires Acceptable(r)
    ensures Run(MissedActs(r)[..3])
            == MissedState(r).(hub := Hub.Hub(map[], [Announcement(Put(r))], false))
  {
    var a := MissedActs(r);
    RunStep([], a[0]);
    RunStep(a[..1], a[1]);
    RunStep(a[..2], a[2]);
    assert [] + [a[0]] == a[..1] && a[..1] + [a[1]] == a[..2] && a[..2] + [a[2]] == a[..3];
    assert IsListing(map[], r.tenant, []);
    assert Run(a[..1]) == Init().(listings := map[1 := Listing(r.tenant, [], 0)]);
    var s2 := Run(a[..2]);
    assert s2 == Run(a[..1]).(table := map[r.id := ToRow(r, 0)], commits := [Put(r)], pending := {0});
    assert s2.pending - {0} == {};
  }

  lemma MissedRun(r: Rule)
    requires Acceptable(r)
    ensures Run(MissedActs(r)) == MissedState(r)
  {
    var a := MissedActs(r);
    MissedBroadcast(r);
    RunStep(a[..3], a[3]);
    RunStep(a[..4], a[4]);
    assert a[..3] + [a[3]] == a[..4] && a[..4] + [a[4]] == a;
    assert Snapshot([]) == [SnapshotEnd];
  }

  /** The gap between list and register is real: a live, drained watcher of a quiescent server that
      will never learn of a stored rule, although every broadcast was in order. */
  lemma ListRegisterGapLosesRule(r: Rule)
    requires Acceptable(r)
    ensures var s := Run(MissedActs(r));
            && Quiescent(s) && Drained(s, 1) && 1 in s.listings && InOrder(s, r.tenant)
            && r.id in View(s.table, r.tenant)
            && r.id !in Cached(Received(s.hub.ws[1]))
            && !Converged(s, 1)
  {
    MissedRun(r);
    var s := MissedState(r);
    assert Received(s.hub.ws[1]) == [SnapshotEnd];
    assert Cached([SnapshotEnd]) == map[];
  }

  /** A rule is added and at once removed, and the two RPCs broadcast in the opposite order. */
  function ReorderedActs(r: Rule): seq<Act> {
    [List(1, r.tenant, []), Register(1), Handler(1, Sending(true)),
     Add(Some(r), "", 0), Remove(r.tenant, r.id), Announce(1), Announce(0),
     Handler(1, Sending(true)), Handler(1, Sending(true))]
  }

  function ReorderedState(r: Rule, pending: set<nat>, order: seq<nat>, queue: seq<Event>, taken: seq<Event>,
                          log: seq<Hub.Broadcast<Event>>): Sys {
    var w := Hub.Watcher(Hub.Filter(r.tenant, {}), queue, false, 0, true, Hub.Running, [SnapshotEnd], 1, taken, [],
                         0, 0);
    Sys(map[], [Put(r), Drop(r.tenant, r.id)], pending, order, map[1 := Listing(r.tenant, [], 0)],
        Hub.Hub(map[1 := w], log, false))
  }

  lemma ReorderedStart(r: Rule)
    ensures Run(ReorderedActs(r)[..3]) == ReorderedState(r, {}, [], [], [], []).(commits := [])
  {
    var a := ReorderedActs(r);
    RunStep([], a[0]);
    RunStep(a[..1], a[1]);
    RunStep(a[..2], a[2]);
    assert [] + [a[0]] == a[..1] && a[..1] + [a[1]] == a[..2] && a[..2] + [a[2]] == a[..3];
    assert IsListing(map[], r.tenant, []);
    assert Run(a[..1]) == Init().(listings := map[1 := Listing(r.tenant, [], 0)]);
    assert Snapshot([]) == [SnapshotEnd];
  }

  lemma ReorderedCommits(r: Rule)
    requires Acceptable(r)
    ensures Run(ReorderedActs(r)[..5]) == ReorderedState(r, {0, 1}, [], [], [], [])
  {
    var a := ReorderedActs(r);
    ReorderedStart(r);
    RunStep(a[..3], a[3]);
    RunStep(a[..4], a[4]);
    assert a[..3] + [a[3]] == a[..4] && a[..4] + [a[4]] == a[..5];
    var s4 := Run(a[..4]);
    assert s4.table == map[r.id := ToRow(r, 0)] && s4.commits == [Put(r)] && s4.pending == {0};
    assert s4.table - {r.id} == map[];
  }

  lemma AnnounceReordered(r: Rule, pending: set<nat>, order: seq<nat>, queue: seq<Event>,
                          log: seq<Hub.Broadcast<Event>>, i: nat)
    requires i in pending && i < 2 && |queue| < Hub.QUEUE_CAP
    ensures var op := if i == 0 then Put(r) else Drop(r.tenant, r.id);
            Next(ReorderedState(r, pending, order, queue, [], log), Announce(i))
            == ReorderedState(r, pending - {i}, order + [i], queue + [op.Event()], [], log + [Announcement(op)])
  {
    var op := if i == 0 then Put(r) else Drop(r.tenant, r.id);
    var s := ReorderedState(r, pending, order, queue, [], log);
    var s' := Next(s, Announce(i));
    assert s'.hub.ws.Keys == {1};
    assert s'.hub.ws == map[1 := s.hub.ws[1].(queue := queue + [op.Event()])];
  }

  lemma SendReordered(r: Rule, queue: seq<Event>, taken: seq<Event>, log: seq<Hub.Broadcast<Event>>)
    requires queue != []
    ensures Next(ReorderedState(r, {}, [1, 0], queue, taken, log), Handler(1, Sending(true)))
            == ReorderedState(r, {}, [1, 0], queue[1..], taken + [queue[0]], log)
  {
  }

  lemma ReorderedBroadcasts(r: Rule)
    requires Acceptable(r)
    ensures Run(ReorderedActs(r)[..7])
            == ReorderedState(r, {}, [1, 0], [Deleted(r.id), Added(r)], [],
                              [Announcement(Drop(r.tenant, r.id)), Announcement(Put(r))])
  {
    var a := ReorderedActs(r);
    ReorderedCommits(r);
    RunStep(a[..5], a[5]);
    RunStep(a[..6], a[6]);
    assert a[..5] + [a[5]] == a[..6] && a[..6] + [a[6]] == a[..7];
    var dropped, put := Announcement(Drop(r.tenant, r.id)), Announcement(Put(r));
    AnnounceReordered(r, {0, 1}, [], [], [], 1);
    assert {0, 1} - {1} == {0} && [] + [1] == [1];
    assert [] + [Deleted(r.id)] == [Deleted(r.id)] && [] + [dropped] == [dropped];
    assert Run(a[..6]) == ReorderedState(r, {0}, [1], [Deleted(r.id)], [], [dropped]);
    AnnounceReordered(r, {0}, [1], [Deleted(r.id)], [dropped], 0);
    assert {0} - {0} == {} && [1] + [0] == [1, 0];
    assert [Deleted(r.id)] + [Added(r)] == [Deleted(r.id), Added(r)] && [dropped] + [put] == [dropped, put];
  }

  lemma ReorderedRun(r: Rule)
    requires Acceptable(r)
    ensures Run(ReorderedActs(r))
            == ReorderedState(r, {}, [1, 0], [], [Deleted(r.id), Added(r)],
                              [Announcement(Drop(r.tenant, r.id)), Announcement(Put(r))])
  {
    var a := ReorderedActs(r);
    ReorderedBroadcasts(r);
    RunStep(a[..7], a[7]);
    RunStep(a[..8], a[8]);
    assert a[..7] + [a[7]] == a[..8] && a[..8] + [a[8]] == a;
    var log := [Announcement(Drop(r.tenant, r.id)), Announcement(Put(r))];
    SendReordered(r, [Deleted(r.id), Added(r)], [], log);
    assert [Deleted(r.id), Added(r)][1..] == [Added(r)] && [] + [Deleted(r.id)] == [Deleted(r.id)];
    assert Run(a[..8]) == ReorderedState(r, {}, [1, 0], [Added(r)], [Deleted(r.id)], log);
    SendReordered(r, [Added(r)], [Deleted(r.id)], log);
    assert [Added(r)][1..] == [] && [Deleted(r.id)] + [Added(r)] == [Deleted(r.id), Added(r)];
  }

  /** Ordering matters too: nothing slipped between list and register, yet the cache keeps a rule
      that is no longer stored. */
  lemma ReorderedBroadcastsKeepDeadRule(r: Rule)
    requires Acceptable(r)
    ensures var s := Run(ReorderedActs(r));
            && Quiescent(s) && Drained(s, 1) && 1 in s.listings && NoneSlippedThrough(s, 1)
            && !InOrder(s, r.tenant)
            && r.id !in s.table
            && r.id in Cached(Received(s.hub.ws[1]))
            && !Converged(s, 1)
  {
    ReorderedRun(r);
    var s := Run(ReorderedActs(r));
    var evs := Received(s.hub.ws[1]);
    assert evs == [SnapshotEnd, Deleted(r.id)] + [Added(r)];
    assert evs[..|evs| - 1] == [SnapshotEnd, Deleted(r.id)];
    assert SameRule(s.commits[s.order[0]], s.commits[s.order[1]]);
  }

  // ---------- The shape of a stream ----------

  /** ADDED* SNAPSHOT_END (ADDED | REMOVED)*, or a prefix of that. */
  ghost predicate StreamShaped(evs: seq<Event>) {
    exists n :: SplitsAt(evs, n)
  }

  ghost predicate SplitsAt(evs: seq<Event>, n: nat) {
    && n <= |evs|
    && (forall i :: 0 <= i < n ==> evs[i].Added?)
    && (n < |evs| ==> evs[n].SnapshotEnd? && forall i :: n < i < |evs| ==> !evs[i].SnapshotEnd?)
  }

  lemma {:induction false} MatchingIsLive(f: Hub.Filter, bs: seq<Hub.Broadcast<Event>>)
    requires forall k :: 0 <= k < |bs| ==> !bs[k].ev.SnapshotEnd?
    ensures forall e :: e in Hub.Matching(f, bs) ==> !e.SnapshotEnd?
  {
    if bs != [] {
      MatchingIsLive(f, bs[..|bs| - 1]);
    }
  }

  lemma SnapshotThenLiveIsShaped(rows: seq<Row>, sent: nat, live: seq<Event>)
    requires sent <= |Snapshot(rows)| && (live != [] ==> sent == |Snapshot(rows)|)
    requires forall e :: e in live ==> !e.SnapshotEnd?
    ensures StreamShaped(Snapshot(rows)[..sent] + live)
  {
    var evs := Snapshot(rows)[..sent] + live;
    assert forall i :: sent <= i < |evs| ==> evs[i] in live;
    assert SplitsAt(evs, Min(sent, |rows|));
  }

  /** Every watch stream, at every moment of every run, has the documented shape. */
  lemma EveryStreamIsShaped(acts: seq<Act>, w: nat)
    requires w in Run(acts).hub.ws
    ensures Run(acts).hub.ws[w].sentPrelude <= |Run(acts).hub.ws[w].prelude|
    ensures StreamShaped(Received(Run(acts).hub.ws[w]))
  {
    RunKeepsInv(acts);
    var s := Run(acts);
    var x := s.hub.ws[w];
    assert Hub.WatcherInv(x, s.hub.log);
    MatchingIsLive(x.filter, s.hub.log[x.since..Hub.End(x, s.hub.log)]);
    assert forall e :: e in x.taken ==> e in x.taken + x.lost + x.queue;
    SnapshotThenLiveIsShaped(s.listings[w].rows, x.sentPrelude, x.taken);
  }
}
