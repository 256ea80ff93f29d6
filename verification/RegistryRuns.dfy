/** The registry server under concurrency (pkg/registry/server.go:48-248): RegisterService commits its
    row in one step and broadcasts in a later one; DeregisterAgent selects, deletes and then
    broadcasts once per selected row, each in a step of its own; watchers join, receive and leave at
    any point. Any interleaving is a run.

    The question is whether replaying the broadcast log gives the services table. It does not always;
    the results below say exactly when, and what callers must avoid. */
module RegistryRuns {
  import opened Wrappers
  import opened RegistryStore
  import opened RegistryHistory
  import opened RegistryWatch
  import Hub = WatchHub

  /** An RPC in progress: a deregistration between its SELECT and its DELETE, or any RPC with
      broadcasts still to make. */
  datatype InFlight =
    | Selected(tenant: string, agent: string, relay: string, rows: seq<Service>)
    | Sending(messages: seq<Message>)

  datatype Sys = Sys(table: Services, pending: map<nat, InFlight>, hub: Hub.Hub<Event>)

  datatype Act =
    | Store(k: nat, c: Call)                                                             // RegisterService: upsert
    | Select(k: nat, tenant: string, agent: string, relay: string, rows: seq<Service>)   // DeregisterAgent: SELECT
    | Erase(k: nat)                                                                      // DeregisterAgent: DELETE
    | Announce(k: nat)                                                                   // the next broadcast of k
    | Watch(w: nat, filter: Hub.Filter)                                                  // Watch: addWatcher
    | Handler(step: Hub.Act<Event>)                                                      // Watch: send loop and exit

  /** The broadcasts an RPC in progress has still to make. */
  function Messages(f: InFlight): seq<Message> {
    match f
    case Selected(tenant, _, _, rows) => DeregisterMessages(tenant, rows)
    case Sending(messages) => messages
  }

  /** RPC k has these broadcasts left; with none left it is over. */
  function Left(pending: map<nat, InFlight>, k: nat, messages: seq<Message>): map<nat, InFlight> {
    if messages == [] then pending - {k} else pending[k := Sending(messages)]
  }

  ghost function Next(s: Sys, act: Act): Sys {
    match act
    case Store(k, c) =>
      if k !in s.pending && Accepted(s.table, c) then
        s.(table := After(s.table, c),
           pending := s.pending[k := Sending([RegisterMessage(c, Register(s.table, Request(c), c.now).value.1)])])
      else s
    case Select(k, tenant, agent, relay, rows) =>
      if k !in s.pending && IsSelection(s.table, tenant, agent, relay, rows) then
        s.(pending := s.pending[k := Selected(tenant, agent, relay, rows)])
      else s
    case Erase(k) =>
      if k in s.pending && s.pending[k].Selected? then
        var f := s.pending[k];
        s.(table := Delete(s.table, f.tenant, f.agent, f.relay), pending := Left(s.pending, k, Messages(f)))
      else s
    case Announce(k) =>
      if k in s.pending && s.pending[k].Sending? && s.pending[k].messages != [] then
        var messages := s.pending[k].messages;
        s.(pending := Left(s.pending, k, messages[1..]), hub := Hub.Next(s.hub, Hub.Publish(messages[0])))
      else s
    case Watch(w, filter) => s.(hub := Hub.Next(s.hub, Hub.Join(w, filter, [])))
    case Handler(step) =>
      if step.Send? || step.Cancel? || step.Leave? then s.(hub := Hub.Next(s.hub, step)) else s
  }

  function Init(): Sys { Sys(map[], map[], Hub.Empty()) }

  ghost function Run(s: Sys, acts: seq<Act>): Sys {
    if acts == [] then s else Next(Run(s, acts[..|acts| - 1]), acts[|acts| - 1])
  }

  lemma RunStep(s: Sys, acts: seq<Act>, act: Act)
    ensures Run(s, acts + [act]) == Next(Run(s, acts), act)
  {
    assert (acts + [act])[..|acts + [act]| - 1] == acts;
  }

  lemma RunOne(s: Sys, act: Act)
    ensures Run(s, [act]) == Next(s, act)
  {
    assert [act][..0] == [];
  }

  lemma RunPrefix(s: Sys, acts: seq<Act>, n: nat)
    requires n < |acts|
    ensures Run(s, acts[..n + 1]) == Next(Run(s, acts[..n]), acts[n])
  {
    assert acts[..n + 1][..n] == acts[..n];
  }

  lemma {:induction false} RunConcat(s: Sys, xs: seq<Act>, ys: seq<Act>)
    ensures Run(s, xs + ys) == Run(Run(s, xs), ys)
  {
    if ys == [] {
      assert xs + ys == xs;
    } else {
      var init := ys[..|ys| - 1];
      assert (xs + ys)[..|xs + ys| - 1] == xs + init;
      RunConcat(s, xs, init);
    }
  }

  // ---------- What every step keeps ----------

  predicate About(b: Message, tenant: string, name: string) { b.tenant == tenant && b.ev.name == name }

  /** No RPC announces the same pair twice. */
  ghost predicate DistinctPairs(bs: seq<Message>) {
    forall i, j :: 0 <= i < j < |bs| ==> !About(bs[j], bs[i].tenant, bs[i].ev.name)
  }

  ghost predicate WellNamed(bs: seq<Message>) {
    forall i :: 0 <= i < |bs| ==> bs[i].name == bs[i].ev.name
  }

  ghost predicate FlightInv(f: InFlight) {
    DistinctPairs(Messages(f)) && WellNamed(Messages(f)) && (f.Sending? ==> f.messages != [])
  }

  ghost predicate Inv(s: Sys) {
    && ServerInv(s.table)
    && (forall k :: k in s.pending ==> FlightInv(s.pending[k]))
    && WellNamed(s.hub.log)
    && Hub.HubInv(s.hub)
  }

  lemma SelectionIsDistinct(t: Services, tenant: string, agent: string, relay: string, rows: seq<Service>)
    requires TableInv(t) && IsSelection(t, tenant, agent, relay, rows)
    ensures FlightInv(Selected(tenant, agent, relay, rows))
  {
    var bs := DeregisterMessages(tenant, rows);
    forall i, j | 0 <= i < j < |bs|
      ensures !About(bs[j], bs[i].tenant, bs[i].ev.name)
    {
      assert rows[i].id != rows[j].id;
    }
  }

  lemma TailIsDistinct(bs: seq<Message>)
    requires bs != [] && DistinctPairs(bs) && WellNamed(bs)
    ensures DistinctPairs(bs[1..]) && WellNamed(bs[1..])
  {
  }

  lemma HubStepKeepsInv(s: Sys, pending: map<nat, InFlight>, act: Hub.Act<Event>)
    requires Inv(s) && (forall k :: k in pending ==> FlightInv(pending[k]))
    requires act.Publish? ==> act.b.name == act.b.ev.name
    ensures Inv(s.(pending := pending, hub := Hub.Next(s.hub, act)))
  {
    Hub.NextKeepsInv(s.hub, act);
    Hub.NextFrame(s.hub, act);
  }

  lemma NextKeepsInv(s: Sys, act: Act)
    requires Inv(s)
    ensures Inv(Next(s, act))
  {
    match act
    case Store(k, c) => AfterKeepsInv(s.table, c);
    case Select(k, tenant, agent, relay, rows) =>
      if IsSelection(s.table, tenant, agent, relay, rows) {
        SelectionIsDistinct(s.table, tenant, agent, relay, rows);
      }
    case Erase(k) =>
      if k in s.pending && s.pending[k].Selected? {
        var f := s.pending[k];
        AfterKeepsInv(s.table, Dereg(f.tenant, f.agent, f.relay));
        assert FlightInv(f);
      }
    case Announce(k) =>
      if k in s.pending && s.pending[k].Sending? {
        var bs := s.pending[k].messages;
        assert FlightInv(s.pending[k]);
        TailIsDistinct(bs);
        HubStepKeepsInv(s, Left(s.pending, k, bs[1..]), Hub.Publish(bs[0]));
      }
    case Watch(w, filter) => HubStepKeepsInv(s, s.pending, Hub.Join(w, filter, []));
    case Handler(step) =>
      if !step.Publish? { HubStepKeepsInv(s, s.pending, step); }
  }

  lemma {:induction false} RunKeepsInv(s: Sys, acts: seq<Act>)
    requires Inv(s)
    ensures Inv(Run(s, acts))
  {
    if acts != [] {
      RunKeepsInv(s, acts[..|acts| - 1]);
      NextKeepsInv(Run(s, acts[..|acts| - 1]), acts[|acts| - 1]);
    }
  }

  lemma Reachable(acts: seq<Act>)
    ensures Inv(Run(Init(), acts))
  {
    RunKeepsInv(Init(), acts);
  }

  // ---------- Where the RPCs in progress lead ----------

  /** What the log says of a pair. */
  function Logged(s: Sys, tenant: string, name: string): Option<Provider> {
    At(Replay(map[], s.hub.log), tenant, name)
  }

  /** What a broadcast makes of the pair it is about. */
  function Effect(b: Message): Option<Provider> {
    if b.ev.Registered? then Some(b.ev.provider) else None
  }

  /** A deregistration in progress has selected, and will delete, what the pair is bound to. */
  ghost predicate DoomedBy(s: Sys, k: nat, tenant: string, name: string) {
    && k in s.pending && s.pending[k].Selected? && Lookup(s.table, tenant, name).Some?
    && BelongsTo(Lookup(s.table, tenant, name).value, s.pending[k].tenant, s.pending[k].agent, s.pending[k].relay)
  }

  /** What the pair will be bound to once the RPCs in progress are over. */
  ghost function Final(s: Sys, tenant: string, name: string): Option<Provider> {
    if exists k :: DoomedBy(s, k, tenant, name) then None else TableAt(s.table, tenant, name)
  }

  /** RPC k has yet to make broadcast b, which is about the pair. */
  ghost predicate Owes(s: Sys, k: nat, b: Message, tenant: string, name: string) {
    k in s.pending && b in Messages(s.pending[k]) && About(b, tenant, name)
  }

  /** Every broadcast about the pair still to come tells what the pair will be bound to; if none is to
      come, the log tells it already. */
  ghost predicate PairSettles(s: Sys, tenant: string, name: string) {
    && (forall k, b :: Owes(s, k, b, tenant, name) ==> Effect(b) == Final(s, tenant, name))
    && ((forall k, b :: !Owes(s, k, b, tenant, name)) ==> Logged(s, tenant, name) == Final(s, tenant, name))
  }

  ghost predicate Settles(s: Sys) { forall tenant, name :: PairSettles(s, tenant, name) }

  /** Nothing about the pair is to come, and the log is wrong about it. */
  ghost predicate Spoilt(s: Sys, tenant: string, name: string) {
    && (forall k, b :: !Owes(s, k, b, tenant, name))
    && Logged(s, tenant, name) != Final(s, tenant, name)
  }

  predicate IsProgress(act: Act) { act.Erase? || act.Announce? }

  /** A continuation in which only RPCs already in progress move. */
  predicate OnlyProgress(acts: seq<Act>) { forall n :: 0 <= n < |acts| ==> IsProgress(acts[n]) }

  /** However the RPCs in progress are scheduled, once they are over the log replays the table. */
  ghost predicate AlwaysMirrors(s: Sys) {
    forall more :: OnlyProgress(more) && Run(s, more).pending == map[] ==>
      Mirrors(Replay(map[], Run(s, more).hub.log), Run(s, more).table)
  }

  lemma EraseKeepsFinal(s: Sys, k: nat, tenant: string, name: string)
    requires Inv(s)
    ensures Final(Next(s, Erase(k)), tenant, name) == Final(s, tenant, name)
  {
    if k in s.pending && s.pending[k].Selected? {
      var f, s' := s.pending[k], Next(s, Erase(k));
      DeleteLookup(s.table, f.tenant, f.agent, f.relay, tenant, name);
      if DoomedBy(s, k, tenant, name) {
        assert Final(s', tenant, name) == None;
      } else {
        assert forall j :: DoomedBy(s', j, tenant, name) <==> DoomedBy(s, j, tenant, name);
      }
    }
  }

  lemma AnnounceKeepsFinal(s: Sys, k: nat, tenant: string, name: string)
    ensures Final(Next(s, Announce(k)), tenant, name) == Final(s, tenant, name)
  {
    var s' := Next(s, Announce(k));
    assert forall j :: DoomedBy(s', j, tenant, name) <==> DoomedBy(s, j, tenant, name);
  }

  lemma EraseKeepsOwes(s: Sys, k: nat, tenant: string, name: string)
    ensures forall j, b :: Owes(Next(s, Erase(k)), j, b, tenant, name) <==> Owes(s, j, b, tenant, name)
    ensures Logged(Next(s, Erase(k)), tenant, name) == Logged(s, tenant, name)
  {
  }

  lemma LoggedOneMore(s: Sys, b: Message, pending: map<nat, InFlight>, tenant: string, name: string)
    ensures Logged(s.(pending := pending, hub := Hub.Next(s.hub, Hub.Publish(b))), tenant, name)
            == if About(b, tenant, name) then Effect(b) else Logged(s, tenant, name)
  {
    Hub.NextFrame(s.hub, Hub.Publish(b));
    assert (s.hub.log + [b])[..|s.hub.log|] == s.hub.log;
  }

  /** A broadcast is owed by one RPC less; if it is about the pair the log says what it says. */
  lemma AnnounceMoves(s: Sys, k: nat, tenant: string, name: string)
    requires k in s.pending && s.pending[k].Sending? && s.pending[k].messages != []
    ensures var s', b := Next(s, Announce(k)), s.pending[k].messages[0];
            && Logged(s', tenant, name) == (if About(b, tenant, name) then Effect(b) else Logged(s, tenant, name))
            && (forall j, m :: Owes(s', j, m, tenant, name) ==> Owes(s, j, m, tenant, name))
            && (forall j, m :: Owes(s, j, m, tenant, name) ==> Owes(s', j, m, tenant, name) || m == b)
            && (About(b, tenant, name) ==> Owes(s, k, b, tenant, name))
  {
    var bs := s.pending[k].messages;
    LoggedOneMore(s, bs[0], Left(s.pending, k, bs[1..]), tenant, name);
    assert bs == [bs[0]] + bs[1..];
  }

  lemma ProgressStep(s: Sys, act: Act, tenant: string, name: string)
    requires Inv(s) && IsProgress(act)
    ensures Final(Next(s, act), tenant, name) == Final(s, tenant, name)
    ensures PairSettles(s, tenant, name) ==> PairSettles(Next(s, act), tenant, name)
    ensures Spoilt(s, tenant, name) ==> Spoilt(Next(s, act), tenant, name)
  {
    match act
    case Erase(k) =>
      EraseKeepsFinal(s, k, tenant, name);
      EraseKeepsOwes(s, k, tenant, name);
    case Announce(k) =>
      AnnounceKeepsFinal(s, k, tenant, name);
      if k in s.pending && s.pending[k].Sending? && s.pending[k].messages != [] {
        AnnounceMoves(s, k, tenant, name);
      }
  }

  lemma {:induction false} ProgressRun(s: Sys, more: seq<Act>, tenant: string, name: string)
    requires Inv(s) && OnlyProgress(more)
    ensures Final(Run(s, more), tenant, name) == Final(s, tenant, name)
    ensures PairSettles(s, tenant, name) ==> PairSettles(Run(s, more), tenant, name)
    ensures Spoilt(s, tenant, name) ==> Spoilt(Run(s, more), tenant, name)
  {
    if more != [] {
      var init := more[..|more| - 1];
      ProgressRun(s, init, tenant, name);
      RunKeepsInv(s, init);
      ProgressStep(Run(s, init), more[|more| - 1], tenant, name);
    }
  }

  lemma OverIsFinal(s: Sys, tenant: string, name: string)
    requires s.pending == map[]
    ensures Final(s, tenant, name) == TableAt(s.table, tenant, name)
    ensures PairSettles(s, tenant, name) <==> Logged(s, tenant, name) == TableAt(s.table, tenant, name)
    ensures Spoilt(s, tenant, name) <==> Logged(s, tenant, name) != TableAt(s.table, tenant, name)
  {
    assert forall k :: !DoomedBy(s, k, tenant, name);
    assert forall k, b :: !Owes(s, k, b, tenant, name);
  }

  lemma SettledMirrors(s: Sys, more: seq<Act>)
    requires Inv(s) && Settles(s) && OnlyProgress(more) && Run(s, more).pending == map[]
    ensures Mirrors(Replay(map[], Run(s, more).hub.log), Run(s, more).table)
  {
    var s' := Run(s, more);
    forall tenant, name
      ensures Logged(s', tenant, name) == TableAt(s'.table, tenant, name)
    {
      assert PairSettles(s, tenant, name);
      ProgressRun(s, more, tenant, name);
      OverIsFinal(s', tenant, name);
    }
  }

  // ---------- Finishing what is in progress ----------

  function Announces(k: nat, n: nat): seq<Act> { seq(n, _ => Announce(k)) }

  /** The steps RPC k has left, in order. */
  function FinishActs(k: nat, f: InFlight): seq<Act> {
    (if f.Selected? then [Erase(k)] else []) + Announces(k, |Messages(f)|)
  }

  ghost function PublishAll(h: Hub.Hub<Event>, bs: seq<Message>): Hub.Hub<Event> {
    if bs == [] then h else Hub.Next(PublishAll(h, bs[..|bs| - 1]), Hub.Publish(bs[|bs| - 1]))
  }

  lemma {:induction false} PublishAllLog(h: Hub.Hub<Event>, bs: seq<Message>)
    ensures PublishAll(h, bs).log == h.log + bs
  {
    if bs != [] {
      var init, b := bs[..|bs| - 1], bs[|bs| - 1];
      PublishAllLog(h, init);
      Hub.NextFrame(PublishAll(h, init), Hub.Publish(b));
      assert bs == init + [b];
    }
  }

  /** RPC k has made n of its broadcasts bs. */
  ghost function SentSome(s: Sys, k: nat, bs: seq<Message>, n: nat): Sys
    requires n <= |bs|
  {
    if n == 0 then s
    else s.(pending := Left(s.pending, k, bs[n..]), hub := PublishAll(s.hub, bs[..n]))
  }

  lemma SentOneMore(s: Sys, k: nat, bs: seq<Message>, n: nat)
    requires k in s.pending && s.pending[k] == Sending(bs) && n < |bs|
    ensures Next(SentSome(s, k, bs, n), Announce(k)) == SentSome(s, k, bs, n + 1)
  {
    assert bs[..n + 1][..n] == bs[..n];
    assert PublishAll(s.hub, bs[..n + 1]) == Hub.Next(PublishAll(s.hub, bs[..n]), Hub.Publish(bs[n]));
    assert bs[n..][1..] == bs[n + 1..];
    if n == 0 {
      assert bs[..0] == [] && bs[0..] == bs;
    } else {
      var s1 := SentSome(s, k, bs, n);
      assert s1.pending[k] == Sending(bs[n..]) && bs[n..][0] == bs[n];
      assert s1.pending - {k} == s.pending - {k};
    }
  }

  lemma {:induction false} AnnounceMany(s: Sys, k: nat, bs: seq<Message>, n: nat)
    requires k in s.pending && s.pending[k] == Sending(bs) && n <= |bs|
    ensures Run(s, Announces(k, n)) == SentSome(s, k, bs, n)
  {
    if n == 0 {
      assert Announces(k, n) == [];
    } else {
      AnnounceMany(s, k, bs, n - 1);
      SentOneMore(s, k, bs, n - 1);
      RunStep(s, Announces(k, n - 1), Announce(k));
      assert Announces(k, n - 1) + [Announce(k)] == Announces(k, n);
    }
  }

  lemma SendAll(s: Sys, k: nat, bs: seq<Message>)
    requires k in s.pending && s.pending[k] == Sending(bs) && bs != []
    ensures Run(s, Announces(k, |bs|)) == s.(pending := s.pending - {k}, hub := PublishAll(s.hub, bs))
  {
    AnnounceMany(s, k, bs, |bs|);
    assert bs[..|bs|] == bs && bs[|bs|..] == [];
  }

  lemma DeleteThenSend(s: Sys, k: nat)
    requires k in s.pending && s.pending[k].Selected?
    ensures var f := s.pending[k];
            Run(s, [Erase(k)] + Announces(k, |f.rows|))
            == Sys(Delete(s.table, f.tenant, f.agent, f.relay), s.pending - {k}, PublishAll(s.hub, Messages(f)))
  {
    var bs := Messages(s.pending[k]);
    RunConcat(s, [Erase(k)], Announces(k, |bs|));
    RunOne(s, Erase(k));
    var s1 := Next(s, Erase(k));
    if bs == [] {
      assert Announces(k, |bs|) == [];
    } else {
      SendAll(s1, k, bs);
      assert s1.pending - {k} == s.pending - {k};
    }
  }

  /** RPC k runs to its end on its own. */
  lemma FinishOne(s: Sys, k: nat)
    requires k in s.pending && FlightInv(s.pending[k])
    ensures OnlyProgress(FinishActs(k, s.pending[k]))
    ensures var f, s' := s.pending[k], Run(s, FinishActs(k, s.pending[k]));
            && s'.pending == s.pending - {k}
            && s'.hub == PublishAll(s.hub, Messages(f))
            && s'.table == if f.Selected? then Delete(s.table, f.tenant, f.agent, f.relay) else s.table
  {
    var f := s.pending[k];
    if f.Sending? {
      assert FinishActs(k, f) == Announces(k, |f.messages|);
      SendAll(s, k, f.messages);
    } else {
      DeleteThenSend(s, k);
    }
  }

  lemma ProgressConcat(s: Sys, xs: seq<Act>, ys: seq<Act>)
    requires OnlyProgress(xs) && OnlyProgress(ys)
    ensures OnlyProgress(xs + ys) && Run(s, xs + ys) == Run(Run(s, xs), ys)
  {
    RunConcat(s, xs, ys);
  }

  /** The given RPCs run to their ends, one after another; the others do not move. */
  lemma {:induction false} FinishAll(s: Sys, ks: set<nat>) returns (more: seq<Act>)
    requires Inv(s) && ks <= s.pending.Keys
    ensures OnlyProgress(more) && Run(s, more).pending == s.pending - ks
    decreases |ks|
  {
    if ks == {} {
      more := [];
    } else {
      var k :| k in ks;
      var first := FinishActs(k, s.pending[k]);
      FinishOne(s, k);
      RunKeepsInv(s, first);
      var s1 := Run(s, first);
      var rest := FinishAll(s1, ks - {k});
      ProgressConcat(s, first, rest);
      more := first + rest;
      RemoveInTurn(s.pending, k, ks);
    }
  }

  lemma RemoveInTurn(pending: map<nat, InFlight>, k: nat, ks: set<nat>)
    requires k in ks
    ensures pending - {k} - (ks - {k}) == pending - ks
  {
  }

  /** Replaying broadcasts about distinct pairs: each decides its own. */
  lemma {:induction false} ReplayDistinct(m: Bindings, bs: seq<Message>, i: nat, tenant: string, name: string)
    requires DistinctPairs(bs) && i < |bs| && About(bs[i], tenant, name)
    ensures At(Replay(m, bs), tenant, name) == Effect(bs[i])
  {
    var n := |bs| - 1;
    if i < n {
      assert !About(bs[n], tenant, name);
      ReplayDistinct(m, bs[..n], i, tenant, name);
    }
  }

  /** The last RPC in progress has the last word on the pairs it announces. */
  lemma LastWord(s: Sys, k: nat, b: Message, tenant: string, name: string)
    requires Inv(s) && Owes(s, k, b, tenant, name)
    ensures Logged(Run(s, FinishActs(k, s.pending[k])), tenant, name) == Effect(b)
  {
    var bs := Messages(s.pending[k]);
    assert FlightInv(s.pending[k]);
    FinishOne(s, k);
    PublishAllLog(s.hub, bs);
    ReplayConcat(map[], s.hub.log, bs);
    var i :| 0 <= i < |bs| && bs[i] == b;
    ReplayDistinct(Replay(map[], s.hub.log), bs, i, tenant, name);
  }

  lemma OnlyOneLeft(pending: map<nat, InFlight>, k: nat)
    requires k in pending
    ensures var one := pending - (pending.Keys - {k});
            k in one && one[k] == pending[k] && one - {k} == map[]
  {
  }

  /** A broadcast that will tell something wrong can be made the last word on its pair. */
  lemma WrongCanBeLast(s: Sys, k: nat, b: Message, tenant: string, name: string) returns (more: seq<Act>)
    requires Inv(s) && Owes(s, k, b, tenant, name)
    ensures OnlyProgress(more) && Run(s, more).pending == map[]
    ensures Logged(Run(s, more), tenant, name) == Effect(b)
  {
    var others := FinishAll(s, s.pending.Keys - {k});
    var s1 := Run(s, others);
    RunKeepsInv(s, others);
    OnlyOneLeft(s.pending, k);
    LastWord(s1, k, b, tenant, name);
    var last := FinishActs(k, s1.pending[k]);
    FinishOne(s1, k);
    ProgressConcat(s, others, last);
    more := others + last;
  }

  lemma UnsettledGoesWrong(s: Sys, tenant: string, name: string) returns (more: seq<Act>)
    requires Inv(s) && !PairSettles(s, tenant, name)
    ensures OnlyProgress(more) && Run(s, more).pending == map[]
    ensures Logged(Run(s, more), tenant, name) != TableAt(Run(s, more).table, tenant, name)
  {
    if k, b :| Owes(s, k, b, tenant, name) && Effect(b) != Final(s, tenant, name) {
      more := WrongCanBeLast(s, k, b, tenant, name);
    } else {
      more := FinishAll(s, s.pending.Keys);
      assert Spoilt(s, tenant, name);
    }
    ProgressRun(s, more, tenant, name);
    OverIsFinal(Run(s, more), tenant, name);
  }

  /** In every reachable state of every interleaving: every way of finishing the RPCs in progress ends
      with a log that replays exactly the table, if and only if each broadcast still to come tells
      what its pair will be bound to, and the log is already right about every other pair. */
  lemma LogReplayIsExact(acts: seq<Act>)
    ensures AlwaysMirrors(Run(Init(), acts)) <==> Settles(Run(Init(), acts))
  {
    Reachable(acts);
    MirrorsIffSettles(Run(Init(), acts));
  }

  lemma MirrorsIffSettles(s: Sys)
    requires Inv(s)
    ensures AlwaysMirrors(s) <==> Settles(s)
  {
    if Settles(s) {
      forall more | OnlyProgress(more) && Run(s, more).pending == map[]
        ensures Mirrors(Replay(map[], Run(s, more).hub.log), Run(s, more).table)
      {
        SettledMirrors(s, more);
      }
    } else {
      var tenant, name :| !PairSettles(s, tenant, name);
      var more := UnsettledGoesWrong(s, tenant, name);
      assert !Mirrors(Replay(map[], Run(s, more).hub.log), Run(s, more).table);
    }
  }

  // ---------- What callers must avoid ----------

  /** The registration meets no deregistration of its own agent and relay in progress, and no broadcast
      about its pair is still to come that tells anything else. */
  ghost predicate StoreIsClear(s: Sys, c: Call)
    requires c.Reg?
  {
    && (forall k :: k in s.pending && s.pending[k].Selected? ==>
          (s.pending[k].tenant, s.pending[k].agent, s.pending[k].relay) != (c.tenant, c.agent, c.relay))
    && (forall k, b :: Owes(s, k, b, c.tenant, c.name) ==>
          Effect(b) == Some(Provider(DerivedId(c.tenant, c.name), c.agent, c.relay, c.addr)))
  }

  /** No registration of a pair the deregistration selects has its broadcast still to come. */
  ghost predicate SelectIsClear(s: Sys, tenant: string, rows: seq<Service>) {
    forall i, k, b :: 0 <= i < |rows| && Owes(s, k, b, tenant, rows[i].name) ==> Effect(b) == None
  }

  /** If the action starts an RPC, it does so clear of those in progress. */
  ghost predicate StartsClear(s: Sys, act: Act) {
    match act
    case Store(k, c) => k !in s.pending && Accepted(s.table, c) ==> StoreIsClear(s, c)
    case Select(k, tenant, agent, relay, rows) =>
      k !in s.pending && IsSelection(s.table, tenant, agent, relay, rows) ==> SelectIsClear(s, tenant, rows)
    case _ => true
  }

  lemma StoredRow(s: Sys, c: Call, tenant: string, name: string)
    requires ServerInv(s.table) && Accepted(s.table, c)
    ensures Register(s.table, Request(c), c.now).value.1 == DerivedId(c.tenant, c.name)
    ensures (tenant, name) == (c.tenant, c.name) ==>
              && Lookup(After(s.table, c), tenant, name).Some?
              && (forall a, r :: BelongsTo(Lookup(After(s.table, c), tenant, name).value, c.tenant, a, r)
                                 <==> a == c.agent && r == c.relay)
              && TableAt(After(s.table, c), tenant, name)
                 == Some(Provider(DerivedId(c.tenant, c.name), c.agent, c.relay, c.addr))
    ensures (tenant, name) != (c.tenant, c.name) ==>
              Lookup(After(s.table, c), tenant, name) == Lookup(s.table, tenant, name)
  {
    RegisterLookup(s.table, Request(c), c.now, tenant, name);
    AfterKeepsInv(s.table, c);
  }

  lemma StoreLeavesOthers(s: Sys, k: nat, c: Call, tenant: string, name: string)
    requires Inv(s) && k !in s.pending && Accepted(s.table, c) && (tenant, name) != (c.tenant, c.name)
    ensures PairSettles(Next(s, Store(k, c)), tenant, name) <==> PairSettles(s, tenant, name)
  {
    var s' := Next(s, Store(k, c));
    StoredRow(s, c, tenant, name);
    assert forall j :: DoomedBy(s', j, tenant, name) <==> DoomedBy(s, j, tenant, name);
    assert forall j, b :: Owes(s', j, b, tenant, name) <==> Owes(s, j, b, tenant, name);
  }

  lemma StoreDooms(s: Sys, k: nat, c: Call, j: nat)
    requires Inv(s) && k !in s.pending && Accepted(s.table, c)
    ensures DoomedBy(Next(s, Store(k, c)), j, c.tenant, c.name)
            <==> j in s.pending && s.pending[j].Selected?
                 && (s.pending[j].tenant, s.pending[j].agent, s.pending[j].relay) == (c.tenant, c.agent, c.relay)
  {
    StoredRow(s, c, c.tenant, c.name);
  }

  lemma StoreSettlesOwn(s: Sys, k: nat, c: Call)
    requires Inv(s) && k !in s.pending && Accepted(s.table, c)
    ensures PairSettles(Next(s, Store(k, c)), c.tenant, c.name) <==> StoreIsClear(s, c)
  {
    var s' := Next(s, Store(k, c));
    StoredRow(s, c, c.tenant, c.name);
    var msg := RegisterMessage(c, DerivedId(c.tenant, c.name));
    forall j
      ensures DoomedBy(s', j, c.tenant, c.name)
              <==> j in s.pending && s.pending[j].Selected?
                   && (s.pending[j].tenant, s.pending[j].agent, s.pending[j].relay) == (c.tenant, c.agent, c.relay)
    {
      StoreDooms(s, k, c, j);
    }
    assert forall j, b :: Owes(s', j, b, c.tenant, c.name) <==> (j == k && b == msg) || Owes(s, j, b, c.tenant, c.name);
    assert Owes(s', k, msg, c.tenant, c.name);
  }

  /** Starting a registration in a state that settles leaves one that settles exactly when it is
      clear of the RPCs in progress. */
  lemma StoreIsExact(s: Sys, k: nat, c: Call)
    requires Inv(s) && Settles(s) && k !in s.pending && Accepted(s.table, c)
    ensures Settles(Next(s, Store(k, c))) <==> StoreIsClear(s, c)
  {
    StoreSettlesOwn(s, k, c);
    forall tenant, name | (tenant, name) != (c.tenant, c.name)
      ensures PairSettles(Next(s, Store(k, c)), tenant, name)
    {
      StoreLeavesOthers(s, k, c, tenant, name);
    }
  }

  ghost predicate Names(tenant: string, rows: seq<Service>, tn: string, name: string) {
    tn == tenant && exists i :: 0 <= i < |rows| && rows[i].name == name
  }

  lemma SelectDooms(s: Sys, k: nat, tenant: string, agent: string, relay: string, rows: seq<Service>,
                    tn: string, name: string)
    requires Inv(s) && k !in s.pending && IsSelection(s.table, tenant, agent, relay, rows)
    ensures var s' := Next(s, Select(k, tenant, agent, relay, rows));
            && (DoomedBy(s', k, tn, name) <==> Names(tenant, rows, tn, name))
            && (forall j :: j != k ==> (DoomedBy(s', j, tn, name) <==> DoomedBy(s, j, tn, name)))
            && !DoomedBy(s, k, tn, name)
  {
    SelectionNames(s.table, tenant, agent, relay, rows, name);
  }

  lemma SelectFinal(s: Sys, k: nat, tenant: string, agent: string, relay: string, rows: seq<Service>,
                    tn: string, name: string)
    requires Inv(s) && k !in s.pending && IsSelection(s.table, tenant, agent, relay, rows)
    ensures Final(Next(s, Select(k, tenant, agent, relay, rows)), tn, name)
            == if Names(tenant, rows, tn, name) then None else Final(s, tn, name)
  {
    var s' := Next(s, Select(k, tenant, agent, relay, rows));
    SelectDooms(s, k, tenant, agent, relay, rows, tn, name);
    if !Names(tenant, rows, tn, name) {
      assert forall j :: DoomedBy(s', j, tn, name) <==> DoomedBy(s, j, tn, name);
    }
  }

  lemma SelectOwes(s: Sys, k: nat, tenant: string, agent: string, relay: string, rows: seq<Service>,
                   tn: string, name: string)
    requires k !in s.pending && IsSelection(s.table, tenant, agent, relay, rows)
    ensures var s' := Next(s, Select(k, tenant, agent, relay, rows));
            && (forall j, b :: j != k ==> (Owes(s', j, b, tn, name) <==> Owes(s, j, b, tn, name)))
            && (forall b :: Owes(s', k, b, tn, name) ==> Effect(b) == None && Names(tenant, rows, tn, name))
            && (Names(tenant, rows, tn, name) ==> exists b :: Owes(s', k, b, tn, name))
            && (forall b :: !Owes(s, k, b, tn, name))
            && Logged(s', tn, name) == Logged(s, tn, name)
  {
    var s' := Next(s, Select(k, tenant, agent, relay, rows));
    var bs := DeregisterMessages(tenant, rows);
    assert Messages(s'.pending[k]) == bs;
    forall b | Owes(s', k, b, tn, name)
      ensures Effect(b) == None && Names(tenant, rows, tn, name)
    {
      var i :| 0 <= i < |bs| && bs[i] == b;
      assert rows[i].name == name;
    }
    if Names(tenant, rows, tn, name) {
      var i :| 0 <= i < |rows| && rows[i].name == name;
      assert Owes(s', k, bs[i], tn, name);
    }
  }

  lemma SelectLeavesOthers(s: Sys, k: nat, tenant: string, agent: string, relay: string, rows: seq<Service>,
                           tn: string, name: string)
    requires Inv(s) && k !in s.pending && IsSelection(s.table, tenant, agent, relay, rows)
    requires !Names(tenant, rows, tn, name) && PairSettles(s, tn, name)
    ensures PairSettles(Next(s, Select(k, tenant, agent, relay, rows)), tn, name)
  {
    var s' := Next(s, Select(k, tenant, agent, relay, rows));
    SelectFinal(s, k, tenant, agent, relay, rows, tn, name);
    SelectOwes(s, k, tenant, agent, relay, rows, tn, name);
    assert forall j, b :: Owes(s', j, b, tn, name) <==> Owes(s, j, b, tn, name);
  }

  lemma SelectSettlesOwn(s: Sys, k: nat, tenant: string, agent: string, relay: string, rows: seq<Service>,
                         name: string)
    requires Inv(s) && k !in s.pending && IsSelection(s.table, tenant, agent, relay, rows)
    requires Names(tenant, rows, tenant, name)
    ensures PairSettles(Next(s, Select(k, tenant, agent, relay, rows)), tenant, name)
            <==> forall j, b :: Owes(s, j, b, tenant, name) ==> Effect(b) == None
  {
    var s' := Next(s, Select(k, tenant, agent, relay, rows));
    SelectFinal(s, k, tenant, agent, relay, rows, tenant, name);
    SelectOwes(s, k, tenant, agent, relay, rows, tenant, name);
    assert forall j, b :: Owes(s, j, b, tenant, name) ==> Owes(s', j, b, tenant, name);
  }

  /** The same for starting a deregistration. */
  lemma SelectIsExact(s: Sys, k: nat, tenant: string, agent: string, relay: string, rows: seq<Service>)
    requires Inv(s) && Settles(s) && k !in s.pending && IsSelection(s.table, tenant, agent, relay, rows)
    ensures Settles(Next(s, Select(k, tenant, agent, relay, rows))) <==> SelectIsClear(s, tenant, rows)
  {
    var s' := Next(s, Select(k, tenant, agent, relay, rows));
    if SelectIsClear(s, tenant, rows) {
      forall tn, name
        ensures PairSettles(s', tn, name)
      {
        assert PairSettles(s, tn, name);
        if Names(tenant, rows, tn, name) {
          SelectSettlesOwn(s, k, tenant, agent, relay, rows, name);
        } else {
          SelectLeavesOthers(s, k, tenant, agent, relay, rows, tn, name);
        }
      }
    } else {
      var i, j, b :| 0 <= i < |rows| && Owes(s, j, b, tenant, rows[i].name) && Effect(b) != None;
      SelectSettlesOwn(s, k, tenant, agent, relay, rows, rows[i].name);
      assert !PairSettles(s', tenant, rows[i].name);
    }
  }

  // ---------- Whole runs ----------

  lemma InitSettles()
    ensures Inv(Init()) && Settles(Init())
  {
    var s := Init();
    forall tenant, name
      ensures PairSettles(s, tenant, name)
    {
      assert Lookup(s.table, tenant, name).None?;
      OverIsFinal(s, tenant, name);
    }
  }

  /** A step that starts no RPC and moves none leaves every pair as it was. */
  lemma BystanderStep(s: Sys, hub: Hub.Hub<Event>)
    requires hub.log == s.hub.log
    ensures Settles(s.(hub := hub)) <==> Settles(s)
  {
    var s' := s.(hub := hub);
    forall tenant, name
      ensures PairSettles(s', tenant, name) <==> PairSettles(s, tenant, name)
    {
      assert forall j :: DoomedBy(s', j, tenant, name) <==> DoomedBy(s, j, tenant, name);
      assert forall j, b :: Owes(s', j, b, tenant, name) <==> Owes(s, j, b, tenant, name);
    }
  }

  lemma ProgressKeepsSettles(s: Sys, act: Act)
    requires Inv(s) && Settles(s) && IsProgress(act)
    ensures Settles(Next(s, act))
  {
    forall tenant, name
      ensures PairSettles(Next(s, act), tenant, name)
    {
      assert PairSettles(s, tenant, name);
      ProgressStep(s, act, tenant, name);
    }
  }

  lemma HubStepKeepsLog(s: Sys, act: Act)
    requires act.Watch? || act.Handler?
    ensures Next(s, act).hub.log == s.hub.log
  {
    if act.Watch? {
      Hub.NextFrame(s.hub, Hub.Join(act.w, act.filter, []));
    } else {
      Hub.NextFrame(s.hub, act.step);
    }
  }

  /** Whether a step of a state that settles leaves one that settles. */
  lemma StepIsExact(s: Sys, act: Act)
    requires Inv(s) && Settles(s)
    ensures Settles(Next(s, act)) <==> StartsClear(s, act)
  {
    match act
    case Store(k, c) =>
      if k !in s.pending && Accepted(s.table, c) { StoreIsExact(s, k, c); }
    case Select(k, tenant, agent, relay, rows) =>
      if k !in s.pending && IsSelection(s.table, tenant, agent, relay, rows) {
        SelectIsExact(s, k, tenant, agent, relay, rows);
      }
    case Erase(_) => ProgressKeepsSettles(s, act);
    case Announce(_) => ProgressKeepsSettles(s, act);
    case _ =>
      HubStepKeepsLog(s, act);
      BystanderStep(s, Next(s, act).hub);
  }

  ghost predicate StartsClearAt(acts: seq<Act>, n: nat)
    requires n < |acts|
  {
    StartsClear(Run(Init(), acts[..n]), acts[n])
  }

  /** Every RPC of the run starts clear of those in progress. */
  ghost predicate CallersKeepClear(acts: seq<Act>) {
    forall n :: 0 <= n < |acts| ==> StartsClearAt(acts, n)
  }

  lemma ClearPrefix(acts: seq<Act>, n: nat)
    requires CallersKeepClear(acts) && n <= |acts|
    ensures CallersKeepClear(acts[..n])
  {
    forall m: nat | m < n
      ensures StartsClearAt(acts[..n], m)
    {
      assert acts[..n][..m] == acts[..m];
      assert StartsClearAt(acts, m);
    }
  }

  lemma {:induction false} ClearRunsSettle(acts: seq<Act>)
    requires CallersKeepClear(acts)
    ensures Settles(Run(Init(), acts))
  {
    if acts == [] {
      InitSettles();
    } else {
      var n := |acts| - 1;
      ClearPrefix(acts, n);
      ClearRunsSettle(acts[..n]);
      Reachable(acts[..n]);
      assert StartsClearAt(acts, n);
      StepIsExact(Run(Init(), acts[..n]), acts[n]);
    }
  }

  lemma SettlingStepIsClear(acts: seq<Act>, n: nat)
    requires n < |acts| && Settles(Run(Init(), acts[..n])) && Settles(Run(Init(), acts[..n + 1]))
    ensures StartsClearAt(acts, n)
  {
    Reachable(acts[..n]);
    RunPrefix(Init(), acts, n);
    StepIsExact(Run(Init(), acts[..n]), acts[n]);
  }

  lemma SettlingRunsAreClear(acts: seq<Act>)
    requires forall n :: 0 <= n <= |acts| ==> Settles(Run(Init(), acts[..n]))
    ensures CallersKeepClear(acts)
  {
    forall n: nat | n < |acts|
      ensures StartsClearAt(acts, n)
    {
      assert Settles(Run(Init(), acts[..n + 1]));
      SettlingStepIsClear(acts, n);
    }
  }

  /** Keeping clear is exactly what it takes: every RPC of a run starts clear of those in progress if
      and only if at no point of the run could the RPCs in progress have finished with a log that does
      not replay the table. */
  lemma KeepingClearIsExact(acts: seq<Act>)
    ensures CallersKeepClear(acts) <==> forall n :: 0 <= n <= |acts| ==> AlwaysMirrors(Run(Init(), acts[..n]))
  {
    forall n: nat | n <= |acts|
      ensures AlwaysMirrors(Run(Init(), acts[..n])) <==> Settles(Run(Init(), acts[..n]))
      ensures CallersKeepClear(acts) ==> Settles(Run(Init(), acts[..n]))
    {
      LogReplayIsExact(acts[..n]);
      if CallersKeepClear(acts) {
        ClearPrefix(acts, n);
        ClearRunsSettle(acts[..n]);
      }
    }
    if forall n :: 0 <= n <= |acts| ==> AlwaysMirrors(Run(Init(), acts[..n])) {
      SettlingRunsAreClear(acts);
    }
  }

  /** For callers that keep clear, the log replays the table whenever no RPC is in progress. */
  lemma LogReplaysTable(acts: seq<Act>)
    requires CallersKeepClear(acts) && Run(Init(), acts).pending == map[]
    ensures Mirrors(Replay(map[], Run(Init(), acts).hub.log), Run(Init(), acts).table)
  {
    ClearRunsSettle(acts);
    Reachable(acts);
    SettledMirrors(Run(Init(), acts), []);
  }

  /** RPCs that run one at a time keep clear, whatever watchers do meanwhile. */
  lemma SerialCallersKeepClear(acts: seq<Act>)
    requires forall n :: 0 <= n < |acts| && (acts[n].Store? || acts[n].Select?)
                         ==> Run(Init(), acts[..n]).pending == map[]
    ensures CallersKeepClear(acts)
  {
    forall n: nat | n < |acts|
      ensures StartsClearAt(acts, n)
    {
      NothingInTheWay(Run(Init(), acts[..n]), acts[n]);
    }
  }

  lemma NothingInTheWay(s: Sys, act: Act)
    requires act.Store? || act.Select? ==> s.pending == map[]
    ensures StartsClear(s, act)
  {
  }

  /** A drained watcher, in any state of any interleaving: folding what it was sent onto a copy that was
      right when it joined gives what is stored if and only if the log is right on the names it asked
      for. */
  lemma WatcherConverges(acts: seq<Act>, w: nat, copy: map<string, Provider>)
    requires var s := Run(Init(), acts);
             && w in s.hub.ws && s.hub.ws[w].registered && s.hub.ws[w].handler.Running? && s.hub.ws[w].queue == []
             && s.hub.ws[w].filter.tenant != "" && s.hub.ws[w].since <= |s.hub.log|
             && Agrees(copy, Replay(map[], s.hub.log[..s.hub.ws[w].since]), s.hub.ws[w].filter)
    ensures var s, x := Run(Init(), acts), Run(Init(), acts).hub.ws[w];
            AgreesWithTable(Fold(copy, x.taken), s.table, x.filter)
            <==> forall name :: Wanted(x.filter, name) ==>
                   Logged(s, x.filter.tenant, name) == TableAt(s.table, x.filter.tenant, name)
  {
    Reachable(acts);
    var s := Run(Init(), acts);
    assert Hub.WatcherInv(s.hub.ws[w], s.hub.log);
    DrainedAgrees(s.hub.ws[w], s.hub.log, copy);
  }

  // ---------- What a watcher is told ----------

  /** Action n of the run is a SELECT that found the row, and the broadcast says that row is gone. */
  ghost predicate ToldOfRow(acts: seq<Act>, n: nat, i: nat, b: Message) {
    && n < |acts| && acts[n].Select? && i < |acts[n].rows|
    && IsSelection(Run(Init(), acts[..n]).table, acts[n].tenant, acts[n].agent, acts[n].relay, acts[n].rows)
    && var row := acts[n].rows[i];
       b == Hub.Broadcast(Deregistered(row.name, Provider(row.id, row.agent, row.relay, "")), acts[n].tenant, row.name)
  }

  /** Action n of the run is an upsert that was accepted, and the broadcast says what it stored. */
  ghost predicate ToldOfCall(acts: seq<Act>, n: nat, b: Message) {
    && n < |acts| && acts[n].Store? && Accepted(Run(Init(), acts[..n]).table, acts[n].c)
    && var c := acts[n].c;
       b == Hub.Broadcast(Registered(c.name, Provider(DerivedId(c.tenant, c.name), c.agent, c.relay, c.addr)),
                          c.tenant, c.name)
  }

  ghost predicate Sourced(acts: seq<Act>, b: Message) {
    (exists n: nat, i: nat :: ToldOfRow(acts, n, i, b)) || exists n: nat :: ToldOfCall(acts, n, b)
  }

  ghost predicate AllSourced(acts: seq<Act>, bs: seq<Message>) {
    forall i :: 0 <= i < |bs| ==> Sourced(acts, bs[i])
  }

  lemma SourcedStays(acts: seq<Act>, act: Act, b: Message)
    requires Sourced(acts, b)
    ensures Sourced(acts + [act], b)
  {
    var acts' := acts + [act];
    assert forall n :: 0 <= n < |acts| ==> acts'[..n] == acts[..n] && acts'[n] == acts[n];
    if n: nat, i: nat :| ToldOfRow(acts, n, i, b) {
      assert ToldOfRow(acts', n, i, b);
    } else {
      var n: nat :| ToldOfCall(acts, n, b);
      assert ToldOfCall(acts', n, b);
    }
  }

  lemma AllSourcedStays(acts: seq<Act>, act: Act, bs: seq<Message>)
    requires AllSourced(acts, bs)
    ensures AllSourced(acts + [act], bs)
  {
    forall i | 0 <= i < |bs|
      ensures Sourced(acts + [act], bs[i])
    {
      SourcedStays(acts, act, bs[i]);
    }
  }

  lemma SelectIsSource(acts: seq<Act>, act: Act)
    requires act.Select?
    requires IsSelection(Run(Init(), acts).table, act.tenant, act.agent, act.relay, act.rows)
    ensures AllSourced(acts + [act], DeregisterMessages(act.tenant, act.rows))
  {
    var acts', bs := acts + [act], DeregisterMessages(act.tenant, act.rows);
    assert acts'[..|acts|] == acts && acts'[|acts|] == act;
    forall i: nat | i < |bs|
      ensures Sourced(acts', bs[i])
    {
      assert ToldOfRow(acts', |acts|, i, bs[i]);
    }
  }

  lemma StoreIsSource(acts: seq<Act>, act: Act)
    requires act.Store? && Accepted(Run(Init(), acts).table, act.c)
    ensures AllSourced(acts + [act], [RegisterMessage(act.c, DerivedId(act.c.tenant, act.c.name))])
  {
    var acts' := acts + [act];
    assert acts'[..|acts|] == acts && acts'[|acts|] == act;
    assert ToldOfCall(acts', |acts|, RegisterMessage(act.c, DerivedId(act.c.tenant, act.c.name)));
  }

  /** Every broadcast made or still to be made comes from a call. */
  ghost predicate EverythingSourced(acts: seq<Act>) {
    var s := Run(Init(), acts);
    AllSourced(acts, s.hub.log) && forall k :: k in s.pending ==> AllSourced(acts, Messages(s.pending[k]))
  }

  lemma PendingSourced(acts: seq<Act>, act: Act, k: nat)
    requires Inv(Run(Init(), acts)) && EverythingSourced(acts) && k in Next(Run(Init(), acts), act).pending
    ensures AllSourced(acts + [act], Messages(Next(Run(Init(), acts), act).pending[k]))
  {
    var s := Run(Init(), acts);
    if k in s.pending {
      AllSourcedStays(acts, act, Messages(s.pending[k]));
    } else if act.Select? {
      SelectIsSource(acts, act);
    } else {
      StoreIsSource(acts, act);
      StoredRow(s, act.c, "", "");
    }
  }

  lemma LogSourced(acts: seq<Act>, act: Act)
    requires EverythingSourced(acts)
    ensures AllSourced(acts + [act], Next(Run(Init(), acts), act).hub.log)
  {
    var s := Run(Init(), acts);
    AllSourcedStays(acts, act, s.hub.log);
    match act
    case Announce(k) =>
      if k in s.pending && s.pending[k].Sending? && s.pending[k].messages != [] {
        AllSourcedStays(acts, act, s.pending[k].messages);
        Hub.NextFrame(s.hub, Hub.Publish(s.pending[k].messages[0]));
      }
    case Watch(_, _) => HubStepKeepsLog(s, act);
    case Handler(_) => HubStepKeepsLog(s, act);
    case _ =>
  }

  lemma {:induction false} RunsAreSourced(acts: seq<Act>)
    ensures EverythingSourced(acts)
  {
    if acts != [] {
      var init, last := acts[..|acts| - 1], acts[|acts| - 1];
      RunsAreSourced(init);
      Reachable(init);
      assert init + [last] == acts;
      LogSourced(init, last);
      forall k | k in Run(Init(), acts).pending
        ensures AllSourced(acts, Messages(Run(Init(), acts).pending[k]))
      {
        PendingSourced(init, last, k);
      }
    }
  }

  /** Every event a watcher is sent tells of a call: a DEREGISTER names the id, agent and relay of a row
      the call selected, a REGISTER the binding the call stored; and the watcher asked for it. */
  lemma EveryEventIsSourced(acts: seq<Act>, w: nat, i: nat)
    requires w in Run(Init(), acts).hub.ws && i < |Run(Init(), acts).hub.ws[w].taken|
    ensures var x := Run(Init(), acts).hub.ws[w];
            exists b :: Sourced(acts, b) && Hub.AskedFor(x.filter, b, x.taken[i])
  {
    Reachable(acts);
    RunsAreSourced(acts);
    var s := Run(Init(), acts);
    assert Hub.WatcherInv(s.hub.ws[w], s.hub.log);
    var k := Hub.TakenCameFrom(s.hub.ws[w], s.hub.log, i);
    assert Sourced(acts, s.hub.log[k]);
  }

  // ---------- A failover that loses its binding ----------

  /** The steps of one RPC run on its own; rows is what a deregistration selects. */
  function CallActs(c: Call, rows: seq<Service>): seq<Act> {
    if c.Reg? then [Store(0, c), Announce(0)]
    else [Select(0, c.tenant, c.agent, c.relay, rows)] + ([Erase(0)] + Announces(0, |rows|))
  }

  lemma SerialRegister(s: Sys, c: Call)
    requires s.pending == map[] && Accepted(s.table, c)
    ensures var b := RegisterMessage(c, Register(s.table, Request(c), c.now).value.1);
            Run(s, CallActs(c, [])) == Sys(After(s.table, c), map[], Hub.Next(s.hub, Hub.Publish(b)))
  {
    RunOne(s, Store(0, c));
    RunStep(s, [Store(0, c)], Announce(0));
    assert [Store(0, c)] + [Announce(0)] == CallActs(c, []);
    assert Run(s, CallActs(c, [])).pending == map[];
  }

  lemma SerialDeregister(s: Sys, c: Call, rows: seq<Service>)
    requires s.pending == map[] && c.Dereg? && IsSelection(s.table, c.tenant, c.agent, c.relay, rows)
    ensures Run(s, CallActs(c, rows))
            == Sys(After(s.table, c), map[], PublishAll(s.hub, DeregisterMessages(c.tenant, rows)))
  {
    var start := Select(0, c.tenant, c.agent, c.relay, rows);
    RunConcat(s, [start], [Erase(0)] + Announces(0, |rows|));
    RunOne(s, start);
    SelectedThenOver(s, Next(s, start), c, rows);
  }

  lemma SelectedThenOver(s: Sys, s1: Sys, c: Call, rows: seq<Service>)
    requires s.pending == map[] && c.Dereg?
    requires s1 == s.(pending := map[0 := Selected(c.tenant, c.agent, c.relay, rows)])
    ensures Run(s1, [Erase(0)] + Announces(0, |rows|))
            == Sys(After(s.table, c), map[], PublishAll(s.hub, DeregisterMessages(c.tenant, rows)))
  {
    DeleteThenSend(s1, 0);
    assert s1.pending - {0} == map[];
  }

  lemma {:induction false} SelectionExists(t: Services, tenant: string, agent: string, relay: string)
    returns (rows: seq<Service>)
    requires TableInv(t)
    ensures IsSelection(t, tenant, agent, relay, rows)
    decreases |t|
  {
    if t == map[] {
      rows := [];
    } else {
      var id :| id in t;
      var rest, row := t - {id}, t[id];
      assert rest.Keys == t.Keys - {id};
      var found := SelectionExists(rest, tenant, agent, relay);
      SelectionGrows(rest, tenant, agent, relay, found, row);
      assert rest[row.id := row] == t;
      rows := if BelongsTo(row, tenant, agent, relay) then found + [row] else found;
    }
  }

  /** Any history of calls can be run one at a time; it leaves its table, and a log that replays it. */
  lemma {:induction false} HistoryRuns(calls: seq<Call>) returns (acts: seq<Act>)
    ensures var s := Run(Init(), acts);
            && s.table == TableAfter(calls) && s.pending == map[]
            && Mirrors(Replay(map[], s.hub.log), s.table)
  {
    if calls == [] {
      acts := [];
      InitSettles();
      SettledMirrors(Init(), []);
    } else {
      var n := |calls| - 1;
      var before := HistoryRuns(calls[..n]);
      Reachable(before);
      var more := CallRuns(Run(Init(), before), calls[n]);
      RunConcat(Init(), before, more);
      acts := before + more;
    }
  }

  lemma CallRuns(s: Sys, c: Call) returns (acts: seq<Act>)
    requires Inv(s) && s.pending == map[] && Mirrors(Replay(map[], s.hub.log), s.table)
    ensures var s' := Run(s, acts);
            && s'.table == After(s.table, c) && s'.pending == map[]
            && Mirrors(Replay(map[], s'.hub.log), s'.table)
  {
    if c.Dereg? {
      var rows := SelectionExists(s.table, c.tenant, c.agent, c.relay);
      acts := CallActs(c, rows);
      SerialDeregister(s, c, rows);
      PublishAllLog(s.hub, DeregisterMessages(c.tenant, rows));
      ReplayConcat(map[], s.hub.log, DeregisterMessages(c.tenant, rows));
      DeregisterMirrored(Replay(map[], s.hub.log), s.table, c.tenant, c.agent, c.relay, rows);
    } else if Accepted(s.table, c) {
      acts := CallActs(c, []);
      SerialRegister(s, c);
      var b := RegisterMessage(c, Register(s.table, Request(c), c.now).value.1);
      Hub.NextFrame(s.hub, Hub.Publish(b));
      assert (s.hub.log + [b])[..|s.hub.log|] == s.hub.log;
      RegisterMirrored(Replay(map[], s.hub.log), s.table, c);
    } else {
      acts := [];
    }
  }

  /** The old relay's deregistration selects; the agent registers through its new relay; the old
      relay's DELETE and broadcasts come last. */
  function FailoverActs(c: Call, agent: string, oldRelay: string, rows: seq<Service>): seq<Act>
    requires c.Reg?
  {
    [Select(0, c.tenant, agent, oldRelay, rows)] + [Store(1, c)] + [Announce(1)]
    + ([Erase(0)] + Announces(0, |rows|))
  }

  lemma FailoverStart(s: Sys, c: Call, agent: string, oldRelay: string, rows: seq<Service>)
    requires Inv(s) && s.pending == map[] && Accepted(s.table, c)
    requires IsSelection(s.table, c.tenant, agent, oldRelay, rows)
    ensures var acts := [Select(0, c.tenant, agent, oldRelay, rows)] + [Store(1, c)] + [Announce(1)];
            var s' := Run(s, acts);
            s'.pending == map[0 := Selected(c.tenant, agent, oldRelay, rows)] && s'.table == After(s.table, c)
  {
    var x, y := Select(0, c.tenant, agent, oldRelay, rows), Store(1, c);
    RunOne(s, x);
    RunStep(s, [x], y);
    RunStep(s, [x] + [y], Announce(1));
    var s2 := Run(s, [x] + [y]);
    assert s2.pending - {1} == map[0 := Selected(c.tenant, agent, oldRelay, rows)];
  }

  lemma SelectedIsLastWord(s: Sys, tenant: string, agent: string, relay: string, rows: seq<Service>, name: string)
    requires Inv(s) && s.pending == map[0 := Selected(tenant, agent, relay, rows)]
    requires exists i :: 0 <= i < |rows| && rows[i].name == name
    ensures var s' := Run(s, [Erase(0)] + Announces(0, |rows|));
            && s'.pending == map[] && s'.table == Delete(s.table, tenant, agent, relay)
            && Logged(s', tenant, name) == None
  {
    var i :| 0 <= i < |rows| && rows[i].name == name;
    var b := DeregisterMessages(tenant, rows)[i];
    assert Owes(s, 0, b, tenant, name);
    LastWord(s, 0, b, tenant, name);
    DeleteThenSend(s, 0);
    assert s.pending - {0} == map[];
    assert FinishActs(0, s.pending[0]) == [Erase(0)] + Announces(0, |rows|);
  }

  lemma FailoverRun(s: Sys, c: Call, agent: string, oldRelay: string, rows: seq<Service>)
    requires Inv(s) && s.pending == map[] && Accepted(s.table, c) && c.relay != oldRelay
    requires IsSelection(s.table, c.tenant, agent, oldRelay, rows)
    requires exists i :: 0 <= i < |rows| && rows[i].name == c.name
    ensures var s' := Run(s, FailoverActs(c, agent, oldRelay, rows));
            && s'.pending == map[]
            && TableAt(s'.table, c.tenant, c.name)
               == Some(Provider(DerivedId(c.tenant, c.name), c.agent, c.relay, c.addr))
            && Logged(s', c.tenant, c.name) == None
  {
    var first := [Select(0, c.tenant, agent, oldRelay, rows)] + [Store(1, c)] + [Announce(1)];
    FailoverStart(s, c, agent, oldRelay, rows);
    RunKeepsInv(s, first);
    RunConcat(s, first, [Erase(0)] + Announces(0, |rows|));
    var s1 := Run(s, first);
    SelectedIsLastWord(s1, c.tenant, agent, oldRelay, rows, c.name);
    StoredRow(s, c, c.tenant, c.name);
    DeleteLookup(s1.table, c.tenant, agent, oldRelay, c.tenant, c.name);
  }

  /** A failover can lose its binding to every watcher. After any history in which a pair stands for an
      agent on one relay, let a registration of the pair through another relay fall between the SELECT
      and the DELETE of the old relay's deregistration. The table keeps the new binding, the replayed
      log has none, and nothing in progress will correct it. */
  lemma FailoverLosesBinding(calls: seq<Call>, i: nat, c: Call) returns (before: seq<Act>, rows: seq<Service>)
    requires Complete(c) && Stands(calls, i, c.tenant, c.name) && c.relay != calls[i].relay
    ensures Run(Init(), before).table == TableAfter(calls) && Run(Init(), before).pending == map[]
    ensures Mirrors(Replay(map[], Run(Init(), before).hub.log), Run(Init(), before).table)
    ensures var s := Run(Init(), before + FailoverActs(c, calls[i].agent, calls[i].relay, rows));
            && s.pending == map[]
            && TableAt(s.table, c.tenant, c.name)
               == Some(Provider(DerivedId(c.tenant, c.name), c.agent, c.relay, c.addr))
            && Logged(s, c.tenant, c.name) == None
  {
    before := HistoryRuns(calls);
    Reachable(before);
    var s := Run(Init(), before);
    LastWriterWins(calls, c.tenant, c.name);
    rows := SelectionExists(s.table, c.tenant, calls[i].agent, calls[i].relay);
    SelectionNames(s.table, c.tenant, calls[i].agent, calls[i].relay, rows, c.name);
    FailoverRun(s, c, calls[i].agent, calls[i].relay, rows);
    RunConcat(Init(), before, FailoverActs(c, calls[i].agent, calls[i].relay, rows));
  }
}
