/**
 Steps of the broker: what each of them keeps, and under which condition. Calls stay
 genuine and ack ids in order whatever happens; replies are earned as long as finish
 records are answered to the right address; magic numbers are conserved as long as no call finds
 two providers; and under both each closed call is acknowledged once.
 */
module BrokerSteps {
  import opened CText
  import opened Members
  import opened Registry
  import opened Calls
  import opened Broker
  import opened Ledger

  // ----- what is kept in every run

  /** Requests are told apart by caller and ack id, and each is under way or numbered
      at most once. */
  ghost predicate KeysOk(s: System) {
    && |s.past.calls| == s.server.magic
    && (forall r :: r in s.past.made ==> r.caller in s.handles && r.id < s.handles[r.caller].nextId)
    && (forall r, q :: r in s.past.made && q in s.past.made && KeyOf(r) == KeyOf(q) ==> r == q)
    && (forall r: Request :: s.net[CallPacket(r)] + multiset(s.past.calls)[r] <= if r in s.past.made then 1 else 0)
  }

  predicate AllGenuine(calls: seq<Request>, cs: seq<Call>) { forall c :: c in cs ==> Genuine(calls, c) }

  predicate HandleGenuine(calls: seq<Request>, h: Handle) { AllGenuine(calls, h.inbox) && AllGenuine(calls, h.running) }

  /** Wherever a call is, it carries the request its magic number was given to. */
  ghost predicate GenuineOk(s: System) {
    && AllGenuine(s.past.calls, s.server.queue) && AllGenuine(s.past.calls, s.held) && AllGenuine(s.past.calls, s.server.pending)
    && (forall pid :: pid in s.handles ==> HandleGenuine(s.past.calls, s.handles[pid]))
    && (forall p :: p in s.net && p.RelayPacket? ==> Genuine(s.past.calls, p.call))
    && (forall o :: o in s.past.outcomes ==> Genuine(s.past.calls, o.call))
  }

  /** A finish record reports what the provider's function returned for that call. */
  ghost predicate Reported(past: History, p: Packet)
    requires p.FinishPacket?
  {
    exists o :: o in past.outcomes && o.call.magic == p.magic && o.call.req.id == p.id && o.call.req.api == p.api
                && o.code == p.code && o.bytes == p.bytes
  }

  ghost predicate ReportsOk(s: System) {
    forall p :: p in s.net && p.FinishPacket? ==> Reported(s.past, p)
  }

  /** The ack ids handed out are exactly those waiting, each once, and those woken. */
  predicate HandleOk(h: Handle) {
    && Unique(h.waiting)
    && (forall id :: id in h.waiting ==> id < h.nextId && id !in h.woken)
    && (forall id :: id in h.woken ==> id < h.nextId)
    && (forall id: nat :: id < h.nextId ==> id in h.waiting || id in h.woken)
  }

  ghost predicate HandlesOk(s: System) { forall pid :: pid in s.handles ==> HandleOk(s.handles[pid]) }

  ghost predicate Base(s: System) { |s.held| <= 1 && KeysOk(s) && GenuineOk(s) && ReportsOk(s) && HandlesOk(s) }

  // ----- what is kept under conditions

  /** A reply to the call with this key is one of the daemon's errors or what the
      provider's function returned for this very call. */
  ghost predicate Earned(past: History, k: Key, reply: Reply) {
    || (reply.bytes == [] && reply.code in {ACK_TIMEOUT, CANTFIND_PROGRAM, CANTFIND_API})
    || exists o :: o in past.outcomes && KeyOf(o.call.req) == k && o.code == reply.code && o.bytes == reply.bytes
  }

  ghost predicate AckEarned(past: History, p: Packet) {
    p.AckPacket? ==> Earned(past, (p.to, p.id), Reply(p.code, p.bytes))
  }

  ghost predicate RepliesOk(s: System) {
    && (forall p :: p in s.net ==> AckEarned(s.past, p))
    && (forall pid, id :: pid in s.handles && id in s.handles[pid].woken ==> Earned(s.past, (pid, id), s.handles[pid].woken[id]))
  }

  function Open(s: System): multiset<nat> {
    Magics(s.server.queue) + Magics(s.held) + Magics(s.server.pending)
  }

  ghost predicate ConservedOk(s: System) { Conserved(Open(s), s.past.calls, s.past.closed) }

  ghost predicate AcksOk(s: System) { Acknowledged(s.past.calls, s.past.closed, s.past.acks) }

  /** A finish record is answered as intended: its provider is gone, or still has the
      API registered. */
  predicate Settles(s: System, a: Step)
    requires Enabled(s, a)
  {
    a.TakeFinish? ==>
      !IsMember(s.server.members, a.packet.from) || Registered(s.server.members, a.packet.from, a.packet.api)
  }

  /** Less: its ack goes where it should, as it also does for a process that calls
      itself. */
  predicate Addressed(s: System, a: Step)
    requires Enabled(s, a)
  {
    Settles(s, a) || (a.packet.magic < |s.past.calls| && a.packet.from == s.past.calls[a.packet.magic].caller)
  }

  /** A call finds at most one provider. */
  predicate Routed(s: System, a: Step)
    requires Enabled(s, a)
  {
    a.Probing? ==> |Probe(s.server.members, s.held[0].req.target, s.held[0].req.api).0| <= 1
  }

  /** Among distinct members every call finds at most one. */
  lemma DistinctRoutes(s: System, a: Step)
    requires Enabled(s, a) && Distinct(s.server.members)
    ensures Routed(s, a)
  {
    if a.Probing? {
      ProbeIsLookup(s.server.members, s.held[0].req.target, s.held[0].req.api);
    }
  }

  // ----- what the daemon sends

  /** The packets the daemon sends in a step: relays of the call in hand, or acks. */
  lemma SentKinds(s: System, a: Step)
    requires Enabled(s, a)
    ensures forall p :: p in Serve(s, a).1 ==> p.AckPacket? || (a.Probing? && p == RelayPacket(p.to, s.held[0]))
  {
    match a {
      case TimeoutSweep => TimeoutAcksAre(s.server.members, Expired(s.server.pending));
      case _ =>
    }
  }

  lemma {:induction false} TimeoutAcksAre(ms: seq<Info>, cs: seq<Call>)
    ensures forall p :: p in TimeoutAcks(ms, cs) ==> p.AckPacket? && p.code == ACK_TIMEOUT && p.bytes == []
  {
    if cs != [] {
      TimeoutAcksAre(ms, cs[1..]);
    }
  }

  /** The datagrams after a step that are not new ones were there before. */
  lemma NetAfter(s: System, a: Step, p: Packet)
    requires Enabled(s, a) && p in Next(s, a).net
    ensures p in s.net || p in Serve(s, a).1
         || (a.Begin? && p == CallPacket(Asked(s, a)))
         || (a.Execute? && p == FinishOf(a.pid, s.handles[a.pid].running[a.k], a.code, a.bytes))
  {
  }

  lemma PastGrows(s: System, a: Step)
    requires Enabled(s, a)
    ensures s.past.made <= Next(s, a).past.made && s.past.outcomes <= Next(s, a).past.outcomes
    ensures s.past.calls <= Next(s, a).past.calls
  {
  }

  // ----- genuine calls

  lemma GenuineLater(calls: seq<Request>, more: seq<Request>, cs: seq<Call>)
    requires AllGenuine(calls, cs) && calls <= more
    ensures AllGenuine(more, cs)
  {
  }

  lemma SweepGenuine(calls: seq<Request>, ps: seq<Call>)
    requires AllGenuine(calls, ps)
    ensures AllGenuine(calls, Survivors(ps)) && AllGenuine(calls, Expired(ps))
  {
    forall c | c in Survivors(ps) || c in Expired(ps)
      ensures Genuine(calls, c)
    {
      SweepMembers(ps, c);
    }
  }

  lemma NumberIsGenuine(calls: seq<Request>, c: Call)
    requires c.magic == |calls|
    ensures Genuine(calls + [c.req], c)
  {
  }

  ghost predicate ListsGenuine(s: System) {
    AllGenuine(s.past.calls, s.server.queue) && AllGenuine(s.past.calls, s.held) && AllGenuine(s.past.calls, s.server.pending)
  }

  lemma TakeGenuine(s: System, a: Step)
    requires Enabled(s, a) && a.TakeCall? && ListsGenuine(s) && |s.past.calls| == s.server.magic
    ensures ListsGenuine(Next(s, a))
  {
    hide NextNet;
    hide NextHandles;
    hide Touch;
    hide Genuine;
    var t, calls, req := Next(s, a), s.past.calls, a.packet.req;
    PastGrows(s, a);
    GenuineLater(calls, t.past.calls, s.server.queue);
    GenuineLater(calls, t.past.calls, s.held);
    GenuineLater(calls, t.past.calls, s.server.pending);
    if IsMember(s.server.members, req.caller) {
      NumberIsGenuine(calls, Call(req, s.server.magic, Initial(req.timeout)));
    }
  }

  lemma ProbingGenuine(s: System, a: Step)
    requires Enabled(s, a) && a.Probing? && ListsGenuine(s)
    ensures ListsGenuine(Next(s, a))
  {
    hide NextNet;
    hide NextHandles;
    hide Probe;
    hide Genuine;
    hide Closing;
    hide AckKeys;
    hide AckTo;
  }

  lemma FinishGenuine(s: System, a: Step)
    requires Enabled(s, a) && a.TakeFinish? && ListsGenuine(s)
    ensures ListsGenuine(Next(s, a))
  {
    hide NextNet;
    hide NextHandles;
    hide Registered;
    hide Genuine;
    hide Closing;
    hide AckKeys;
    hide AckTo;
    var pending, t := s.server.pending, Next(s, a);
    forall c | c in t.server.pending
      ensures c in pending
    {
    }
  }

  lemma TimedGenuine(s: System, a: Step)
    requires Enabled(s, a) && a.TimeoutSweep? && ListsGenuine(s)
    ensures ListsGenuine(Next(s, a))
  {
    SweepGenuine(s.past.calls, s.server.pending);
    hide NextNet;
    hide NextHandles;
    hide Genuine;
    hide Closing;
    hide AckKeys;
    hide TimeoutAcks;
    hide Survivors;
  }

  lemma OthersGenuine(s: System, a: Step)
    requires Enabled(s, a) && !a.TakeCall? && !a.Probing? && !a.TakeFinish? && !a.TimeoutSweep? && ListsGenuine(s)
    ensures ListsGenuine(Next(s, a))
  {
    hide NextNet;
    hide NextHandles;
    hide Genuine;
    hide Registry.Step;
  }

  lemma QueuesGenuine(s: System, a: Step)
    requires Enabled(s, a) && ListsGenuine(s) && |s.past.calls| == s.server.magic
    ensures ListsGenuine(Next(s, a))
  {
    hide *;
    if a.TakeCall? {
      TakeGenuine(s, a);
    } else if a.Probing? {
      ProbingGenuine(s, a);
    } else if a.TakeFinish? {
      FinishGenuine(s, a);
    } else if a.TimeoutSweep? {
      TimedGenuine(s, a);
    } else {
      OthersGenuine(s, a);
    }
  }

  /** Waking a call does not touch the calls being served. */
  lemma WakeServes(s: System, a: Step)
    requires Enabled(s, a) && a.TakeAck?
    ensures var h := s.handles[a.packet.to]; var w := Wake(h, a.packet.id, Reply(a.packet.code, a.packet.bytes));
      w.inbox == h.inbox && w.running == h.running
  {
  }

  lemma HandlesGenuine(s: System, a: Step)
    requires Enabled(s, a) && GenuineOk(s)
    ensures forall pid :: pid in Next(s, a).handles ==> HandleGenuine(Next(s, a).past.calls, Next(s, a).handles[pid])
  {
    hide Serve;
    hide NextNet;
    hide Wake;
    hide Genuine;
    if a.TakeAck? {
      WakeServes(s, a);
    }
    var t := Next(s, a);
    PastGrows(s, a);
    forall pid | pid in t.handles
      ensures HandleGenuine(t.past.calls, t.handles[pid])
    {
      if pid in s.handles {
        GenuineLater(s.past.calls, t.past.calls, s.handles[pid].inbox);
        GenuineLater(s.past.calls, t.past.calls, s.handles[pid].running);
      }
    }
  }

  lemma GenuineStep(s: System, a: Step)
    requires Enabled(s, a) && GenuineOk(s) && KeysOk(s)
    ensures GenuineOk(Next(s, a))
  {
    var t := Next(s, a);
    QueuesGenuine(s, a);
    HandlesGenuine(s, a);
    PastGrows(s, a);
    forall p | p in t.net && p.RelayPacket?
      ensures Genuine(t.past.calls, p.call)
    {
      NetAfter(s, a, p);
      SentKinds(s, a);
      if p !in s.net {
        assert s.held[0] in s.held;
      }
    }
    forall o | o in t.past.outcomes
      ensures Genuine(t.past.calls, o.call)
    {
      if o !in s.past.outcomes {
        assert o.call == s.handles[a.pid].running[a.k] && HandleGenuine(s.past.calls, s.handles[a.pid]);
      }
    }
  }

  // ----- reports and replies

  lemma ReportsStep(s: System, a: Step)
    requires Enabled(s, a) && ReportsOk(s)
    ensures ReportsOk(Next(s, a))
  {
    var t := Next(s, a);
    PastGrows(s, a);
    SentKinds(s, a);
    forall p | p in t.net && p.FinishPacket?
      ensures Reported(t.past, p)
    {
      NetAfter(s, a, p);
      if p in s.net {
        assert Reported(s.past, p);
      } else {
        assert Outcome(s.handles[a.pid].running[a.k], a.pid, a.code, a.bytes) in t.past.outcomes;
      }
    }
  }

  /** The request a finish record belongs to. */
  lemma ReportedCall(s: System, f: Packet)
    requires GenuineOk(s) && ReportsOk(s) && f in s.net && f.FinishPacket?
    ensures f.magic < |s.past.calls| && s.past.calls[f.magic].id == f.id && s.past.calls[f.magic].api == f.api
    ensures exists o :: o in s.past.outcomes && o.call.req == s.past.calls[f.magic] && o.code == f.code && o.bytes == f.bytes
  {
    assert Reported(s.past, f);
    var o :| o in s.past.outcomes && o.call.magic == f.magic && o.call.req.id == f.id && o.call.req.api == f.api
             && o.code == f.code && o.bytes == f.bytes;
    assert Genuine(s.past.calls, o.call);
  }

  lemma FoundPending(s: System, magic: nat)
    requires GenuineOk(s) && MagicIndex(s.server.pending, magic) < |s.server.pending|
    ensures var c := s.server.pending[MagicIndex(s.server.pending, magic)];
      c.magic == magic < |s.past.calls| && c.req == s.past.calls[magic] && Genuine(s.past.calls, c)
  {
    assert s.server.pending[MagicIndex(s.server.pending, magic)] in s.server.pending;
  }

  /** The ack sent for a finish record goes to the call the record belongs to. */
  lemma FinishEarned(s: System, a: Step, p: Packet)
    requires Enabled(s, a) && Addressed(s, a) && a.TakeFinish? && GenuineOk(s) && ReportsOk(s) && p in Serve(s, a).1
    ensures AckEarned(s.past, p)
  {
    var f := a.packet;
    ReportedCall(s, f);
    if MagicIndex(s.server.pending, f.magic) < |s.server.pending| {
      FoundPending(s, f.magic);
    }
  }

  lemma ServeEarned(s: System, a: Step, p: Packet)
    requires Enabled(s, a) && Addressed(s, a) && GenuineOk(s) && ReportsOk(s) && p in Serve(s, a).1
    ensures AckEarned(s.past, p)
  {
    match a {
      case TakeFinish(_) => FinishEarned(s, a, p);
      case TimeoutSweep => TimeoutAcksAre(s.server.members, Expired(s.server.pending));
      case _ =>
    }
  }

  lemma EarnedLater(past: History, later: History, p: Packet)
    requires past.outcomes <= later.outcomes && AckEarned(past, p)
    ensures AckEarned(later, p)
  {
  }

  lemma WokenAfter(s: System, a: Step, pid: int, id: nat)
    requires Enabled(s, a) && pid in Next(s, a).handles && id in Next(s, a).handles[pid].woken
    ensures || (pid in s.handles && id in s.handles[pid].woken && Next(s, a).handles[pid].woken[id] == s.handles[pid].woken[id])
            || (a.TakeAck? && a.packet.to == pid && a.packet.id == id
                && Next(s, a).handles[pid].woken[id] == Reply(a.packet.code, a.packet.bytes))
  {
    hide Serve;
    hide NextNet;
    hide NextPast;
  }

  lemma RepliesStep(s: System, a: Step)
    requires Enabled(s, a) && Addressed(s, a) && GenuineOk(s) && ReportsOk(s) && RepliesOk(s)
    ensures RepliesOk(Next(s, a))
  {
    var t := Next(s, a);
    PastGrows(s, a);
    forall p | p in t.net
      ensures AckEarned(t.past, p)
    {
      NetAfter(s, a, p);
      if p in s.net {
        EarnedLater(s.past, t.past, p);
      } else if p in Serve(s, a).1 {
        ServeEarned(s, a, p);
        EarnedLater(s.past, t.past, p);
      }
    }
    forall pid, id | pid in t.handles && id in t.handles[pid].woken
      ensures Earned(t.past, (pid, id), t.handles[pid].woken[id])
    {
      WokenAfter(s, a, pid, id);
      if a.TakeAck? {
        assert AckEarned(s.past, a.packet);
      }
    }
  }

  // ----- what the steps do to the lists

  lemma NewKey(s: System, req: Request)
    requires KeysOk(s) && CallPacket(req) in s.net
    ensures !IsKey(s.past.calls, KeyOf(req)) && req in s.past.made
  {
    assert s.net[CallPacket(req)] >= 1;
    forall m | 0 <= m < |s.past.calls|
      ensures KeyOf(s.past.calls[m]) != KeyOf(req)
    {
      var r := s.past.calls[m];
      assert multiset(s.past.calls)[r] >= 1;
      assert r in s.past.made;
    }
  }

  lemma NumbersDistinct(s: System)
    requires KeysOk(s)
    ensures KeysDistinct(s.past.calls)
  {
    forall i, j | 0 <= i < j < |s.past.calls|
      ensures KeyOf(s.past.calls[i]) != KeyOf(s.past.calls[j])
    {
      NumberedWasMade(s, i);
      NumberedWasMade(s, j);
      var r := s.past.calls[i];
      assert s.net[CallPacket(r)] + multiset(s.past.calls)[r] <= if r in s.past.made then 1 else 0;
      if KeyOf(r) == KeyOf(s.past.calls[j]) {
        TwiceIn(s.past.calls, i, j);
      }
    }
  }

  lemma TwiceIn<T>(xs: seq<T>, i: nat, j: nat)
    requires i < j < |xs| && xs[i] == xs[j]
    ensures multiset(xs)[xs[i]] >= 2
  {
    assert xs == xs[..j] + xs[j..];
    assert xs[..j][i] == xs[i] && xs[j..][0] == xs[j];
  }

  lemma NumberedWasMade(s: System, m: nat)
    requires KeysOk(s)
    ensures m < |s.past.calls| ==> s.past.calls[m] in s.past.made
  {
    if m < |s.past.calls| {
      assert multiset(s.past.calls)[s.past.calls[m]] >= 1;
    }
  }

  lemma TakeIs(s: System, a: Step)
    requires Enabled(s, a) && a.TakeCall? && KeysOk(s)
    ensures var req, t := a.packet.req, Next(s, a);
      && t.held == s.held && t.server.pending == s.server.pending && t.past.closed == s.past.closed && t.past.acks == s.past.acks
      && if IsMember(s.server.members, req.caller) then
           && t.past.calls == s.past.calls + [req]
           && t.server.queue == s.server.queue + [Call(req, |s.past.calls|, Initial(req.timeout))]
         else t.past.calls == s.past.calls && t.server.queue == s.server.queue
  {
  }

  lemma PullIs(s: System, a: Step)
    requires Enabled(s, a) && a.Pull?
    ensures var t := Next(s, a);
      && s.held == [] && s.server.queue == t.held + t.server.queue && t.server.pending == s.server.pending
      && t.past.calls == s.past.calls && t.past.closed == s.past.closed && t.past.acks == s.past.acks
  {
    NothingSent(s.past.acks);
  }

  lemma MagicsNone()
    ensures Magics([]) == multiset{}
  {
  }

  lemma NothingSent(acks: multiset<Key>)
    ensures acks + AckKeys([]) == acks
  {
  }

  /** What a step of the probe thread does to the lists. */
  lemma ProbingIs(s: System, a: Step, c: Call)
    requires Enabled(s, a) && Routed(s, a) && a.Probing? && s.held == [c]
    ensures var t, ms := Next(s, a), s.server.members;
      && t.held == [] && t.server.queue == s.server.queue && t.past.calls == s.past.calls
      && if Probe(ms, c.req.target, c.req.api).0 != [] then
           t.server.pending == s.server.pending + [c] && t.past.closed == s.past.closed && t.past.acks == s.past.acks
         else
           && t.server.pending == s.server.pending
           && t.past.closed == s.past.closed[c.magic := IsMember(ms, c.req.caller)]
           && t.past.acks == s.past.acks + Ack(IsMember(ms, c.req.caller), KeyOf(c.req))
  {
    var ms := s.server.members;
    var (pids, program) := Probe(ms, c.req.target, c.req.api);
    hide Probe;
    hide AckKeys;
    hide IsMember;
    AckKeysOf(ms, c.req.caller, c.req.id, CANTFIND_PROGRAM, []);
    AckKeysOf(ms, c.req.caller, c.req.id, CANTFIND_API, []);
    NoProgramNoPids(ms, c.req.target, c.req.api);
    if pids != [] {
      assert Copies(c, |pids|) == [c];
      AckKeysNone(Relays(pids, c));
      assert s.past.acks + multiset{} == s.past.acks;
    }
    ClosingOne(ms, c, s.past.closed);
    ClosingNone(ms, s.past.closed);
  }

  lemma NoProgramNoPids(ms: seq<Info>, target: Name, api: Name)
    ensures !Probe(ms, target, api).1 ==> Probe(ms, target, api).0 == []
  {
    NoneFound(ms, 0, target, api);
  }

  lemma {:induction false} NoneFound(ms: seq<Info>, i: nat, target: Name, api: Name)
    ensures !ProbeFrom(ms, i, target, api).1 ==> ProbeFrom(ms, i, target, api).0 == []
    decreases |ms| - i
  {
    if i < |ms| {
      if ms[i].name != target {
        NoneFound(ms, i + 1, target, api);
      } else if ms[i].suspend {
        NoneFound(ms, i + 2, target, api);
      }
    }
  }

  lemma ClosingOne(ms: seq<Info>, c: Call, closed: map<nat, bool>)
    ensures Closing(ms, [c], closed) == closed[c.magic := IsMember(ms, c.req.caller)]
  {
    assert [c][1..] == [];
  }

  lemma ClosingNone(ms: seq<Info>, closed: map<nat, bool>)
    ensures Closing(ms, [], closed) == closed
  {
  }

  lemma HeldGenuine(s: System)
    requires GenuineOk(s) && |s.held| > 0
    ensures Genuine(s.past.calls, s.held[0])
  {
  }

  lemma FinishUnfolds(s: System, a: Step)
    requires Enabled(s, a) && a.TakeFinish?
    ensures var f, ms, t := a.packet, s.server.members, Next(s, a);
      var k := MagicIndex(s.server.pending, f.magic);
      var done := if Registered(ms, f.from, f.api) && k < |s.server.pending| then [s.server.pending[k]] else [];
      && t.held == s.held && t.past.calls == s.past.calls
      && t.server == Finish(s.server, f).0 && t.past.acks == s.past.acks + AckKeys(Finish(s.server, f).1)
      && t.past.closed == Closing(ms, done, s.past.closed)
  {
    hide NextNet;
    hide NextHandles;
    hide Finish;
    hide Closing;
    hide AckKeys;
    hide Registered;
    hide MagicIndex;
  }

  /** What a finish record does to the lists: without the API registered, nothing. */
  lemma FinishIs(s: System, a: Step)
    requires Enabled(s, a) && a.TakeFinish?
    ensures var f, ms, t := a.packet, s.server.members, Next(s, a);
      var k := MagicIndex(s.server.pending, f.magic);
      && t.held == s.held && t.server.queue == s.server.queue && t.past.calls == s.past.calls
      && if Registered(ms, f.from, f.api) && k < |s.server.pending| then
           && t.server.pending == Cut(s.server.pending, k)
           && t.past.closed == s.past.closed[s.server.pending[k].magic := IsMember(ms, s.server.pending[k].req.caller)]
           && t.past.acks == s.past.acks + Ack(IsMember(ms, s.server.pending[k].req.caller), (s.server.pending[k].req.caller, f.id))
         else
           && t.server.pending == s.server.pending && t.past.closed == s.past.closed
           && (Settles(s, a) ==> t.past.acks == s.past.acks)
  {
    var f, ms := a.packet, s.server.members;
    var k := MagicIndex(s.server.pending, f.magic);
    FinishUnfolds(s, a);
    NothingSent(s.past.acks);
    hide Next;
    hide Enabled;
    hide AckKeys;
    hide Closing;
    hide Registered;
    hide IsMember;
    hide AckTo;
    if Registered(ms, f.from, f.api) && k < |s.server.pending| {
      AckKeysOf(ms, s.server.pending[k].req.caller, f.id, f.code, f.bytes);
      ClosingOne(ms, s.server.pending[k], s.past.closed);
    } else {
      ClosingNone(ms, s.past.closed);
      AckKeysOf(ms, f.from, f.id, f.code, f.bytes);
      assert s.past.acks + multiset{} == s.past.acks;
    }
  }

  lemma KeyIs(r: Request)
    ensures KeyOf(r) == (r.caller, r.id)
  {
  }

  lemma SweepIs(s: System, a: Step)
    requires Enabled(s, a) && a.TimeoutSweep?
    ensures var ms, ps, t := s.server.members, s.server.pending, Next(s, a);
      && t.held == s.held && t.server.queue == s.server.queue && t.past.calls == s.past.calls
      && t.server.pending == Survivors(ps)
      && t.past.closed == Closing(ms, Expired(ps), s.past.closed)
      && t.past.acks == s.past.acks + AckKeys(TimeoutAcks(ms, Expired(ps)))
  {
  }

  lemma PendingGenuine(s: System)
    requires GenuineOk(s)
    ensures AllGenuine(s.past.calls, s.server.pending)
  {
  }

  lemma AllGenuineIs(calls: seq<Request>, cs: seq<Call>)
    requires AllGenuine(calls, cs)
    ensures forall c :: c in cs ==> Genuine(calls, c)
  {
  }

  /** Steps that neither open nor close a call. */
  lemma IdleIs(s: System, a: Step)
    requires Enabled(s, a) && !a.TakeCall? && !a.Pull? && !a.Probing? && !a.TakeFinish? && !a.TimeoutSweep?
    ensures var t := Next(s, a);
      && t.held == s.held && t.server.queue == s.server.queue && t.server.pending == s.server.pending
      && t.past.calls == s.past.calls && t.past.closed == s.past.closed && t.past.acks == s.past.acks
  {
    NothingSent(s.past.acks);
  }

  // ----- conservation

  lemma OpenIs(s: System)
    ensures Open(s) == Magics(s.server.queue) + Magics(s.held) + Magics(s.server.pending)
    ensures ConservedOk(s) <==> Conserved(Open(s), s.past.calls, s.past.closed)
    ensures AcksOk(s) <==> Acknowledged(s.past.calls, s.past.closed, s.past.acks)
  {
  }

  lemma Shift(a: multiset<nat>, b: multiset<nat>, c: multiset<nat>, x: multiset<nat>)
    ensures (a + x) + b + c == (a + b + c) + x && a + (b + x) + c == (a + b + c) + x && a + b + (c + x) == (a + b + c) + x
    ensures multiset{} + x == x && a + multiset{} + c == a + c
  {
  }

  /** How the open numbers change, seen from the lists. */
  lemma OpenTake(s: System, a: Step)
    requires Enabled(s, a) && a.TakeCall? && KeysOk(s)
    ensures Open(Next(s, a)) == Open(s) + if IsMember(s.server.members, a.packet.req.caller) then multiset{|s.past.calls|} else multiset{}
  {
    var req := a.packet.req;
    hide *;
    var c := Call(req, |s.past.calls|, Initial(req.timeout));
    TakeIs(s, a);
    OpenIs(s);
    OpenIs(Next(s, a));
    MagicsAppend(s.server.queue, [c]);
    MagicsOne(c);
    Shift(Magics(s.server.queue), Magics(s.held), Magics(s.server.pending), multiset{c.magic});
  }

  lemma OpenPull(s: System, a: Step)
    requires Enabled(s, a) && a.Pull?
    ensures Open(Next(s, a)) == Open(s)
  {
    hide *;
    PullIs(s, a);
    OpenIs(s);
    OpenIs(Next(s, a));
    MagicsAppend(Next(s, a).held, Next(s, a).server.queue);
    MagicsNone();
    var x, y, z := Magics(Next(s, a).held), Magics(Next(s, a).server.queue), Magics(s.server.pending);
    assert (x + y) + multiset{} + z == y + x + z;
  }

  lemma OpenProbing(s: System, a: Step, c: Call)
    requires Enabled(s, a) && Routed(s, a) && a.Probing? && s.held == [c]
    ensures Open(s) == Open(Next(s, a))
            + if Probe(s.server.members, c.req.target, c.req.api).0 == [] then multiset{c.magic} else multiset{}
  {
    hide *;
    var t := Next(s, a);
    ProbingIs(s, a, c);
    OpenIs(s);
    OpenIs(t);
    MagicsNone();
    MagicsOne(c);
    MagicsAppend(s.server.pending, [c]);
    var x, y := Magics(s.server.queue), Magics(s.server.pending);
    assert x + multiset{c.magic} + y == (x + multiset{} + y) + multiset{c.magic};
    assert x + multiset{} + (y + multiset{c.magic}) == (x + multiset{} + y) + multiset{c.magic};
  }

  lemma OpenFinish(s: System, a: Step)
    requires Enabled(s, a) && a.TakeFinish?
    ensures var f := a.packet; var k := MagicIndex(s.server.pending, f.magic);
      Open(s) == Open(Next(s, a))
      + if Registered(s.server.members, f.from, f.api) && k < |s.server.pending| then multiset{s.server.pending[k].magic} else multiset{}
  {
    var f, ms := a.packet, s.server.members;
    var k := MagicIndex(s.server.pending, f.magic);
    hide *;
    FinishIs(s, a);
    OpenIs(s);
    OpenIs(Next(s, a));
    if Registered(ms, f.from, f.api) && k < |s.server.pending| {
      MagicsCut(s.server.pending, k);
      Shift(Magics(s.server.queue), Magics(s.held), Magics(Cut(s.server.pending, k)), multiset{s.server.pending[k].magic});
    }
  }

  lemma OpenSweep(s: System, a: Step)
    requires Enabled(s, a) && a.TimeoutSweep?
    ensures Open(s) == Open(Next(s, a)) + Magics(Expired(s.server.pending))
  {
    hide *;
    SweepIs(s, a);
    OpenIs(s);
    OpenIs(Next(s, a));
    MagicsSwept(s.server.pending);
    var ps := s.server.pending;
    Shift(Magics(s.server.queue), Magics(s.held), Magics(Survivors(ps)), Magics(Expired(ps)));
  }

  lemma NoChange(a: multiset<nat>)
    ensures a + multiset{} == a
  {
  }

  /** Every number stays in one place, whatever happens to acks. */
  lemma ConservedStep(s: System, a: Step)
    requires Enabled(s, a) && Routed(s, a) && |s.held| <= 1 && KeysOk(s) && ConservedOk(s)
    ensures ConservedOk(Next(s, a))
  {
    var t, ms, calls, closed := Next(s, a), s.server.members, s.past.calls, s.past.closed;
    EnabledHeld(s, a);
    hide *;
    NoChange(Open(t));
    NoChange(Open(s));
    OpenIs(s);
    OpenIs(t);
    if a.TakeCall? {
      TakeIs(s, a);
      OpenTake(s, a);
      OpenConserves(Open(s), calls, closed, a.packet.req);
    } else if a.Pull? {
      PullIs(s, a);
      OpenPull(s, a);
    } else if a.Probing? {
      var c := s.held[0];
      ProbingIs(s, a, c);
      OpenProbing(s, a, c);
      if Probe(ms, c.req.target, c.req.api).0 == [] {
        CloseConserves(Open(t), calls, closed, c.magic, IsMember(ms, c.req.caller));
      }
    } else if a.TakeFinish? {
      var k := MagicIndex(s.server.pending, a.packet.magic);
      FinishIs(s, a);
      OpenFinish(s, a);
      if Registered(ms, a.packet.from, a.packet.api) && k < |s.server.pending| {
        CloseConserves(Open(t), calls, closed, s.server.pending[k].magic, IsMember(ms, s.server.pending[k].req.caller));
      }
    } else if a.TimeoutSweep? {
      SweepIs(s, a);
      OpenSweep(s, a);
      CloseMany(Open(t), calls, closed, ms, Expired(s.server.pending));
    } else {
      IdleIs(s, a);
    }
  }

  lemma EnabledHeld(s: System, a: Step)
    requires Enabled(s, a) && |s.held| <= 1
    ensures a.Probing? ==> s.held == [s.held[0]]
    ensures a.TakeCall? ==> a.packet.CallPacket? && a.packet in s.net
    ensures a.TakeFinish? ==> a.packet.FinishPacket? && a.packet in s.net
  {
  }

  // ----- acks

  lemma AcksStep(s: System, a: Step)
    requires Enabled(s, a) && Routed(s, a) && Settles(s, a) && Base(s) && ConservedOk(s) && AcksOk(s)
    ensures AcksOk(Next(s, a))
  {
    BaseParts(s);
    EnabledHeld(s, a);
    var t, ms, calls, closed, acks := Next(s, a), s.server.members, s.past.calls, s.past.closed, s.past.acks;
    hide *;
    NumbersDistinct(s);
    NoChange(Open(t));
    OpenIs(s);
    OpenIs(t);
    if a.TakeCall? {
      TakeIs(s, a);
      NewKey(s, a.packet.req);
      OpenConserves(Open(s), calls, closed, a.packet.req);
      OpenAcknowledges(calls, closed, acks, a.packet.req);
    } else if a.Pull? {
      PullIs(s, a);
    } else if a.Probing? {
      var c := s.held[0];
      ProbingIs(s, a, c);
      OpenProbing(s, a, c);
      HeldGenuine(s);
      if Probe(ms, c.req.target, c.req.api).0 == [] {
        CloseConserves(Open(t), calls, closed, c.magic, IsMember(ms, c.req.caller));
        GenuineIs(calls, c);
        CloseAcknowledges(calls, closed, acks, c.magic, IsMember(ms, c.req.caller));
      }
    } else if a.TakeFinish? {
      var f := a.packet;
      var k := MagicIndex(s.server.pending, f.magic);
      FinishIs(s, a);
      OpenFinish(s, a);
      if Registered(ms, f.from, f.api) && k < |s.server.pending| {
        var c := s.server.pending[k];
        ReportedCall(s, f);
        FoundPending(s, f.magic);
        KeyIs(c.req);
        CloseConserves(Open(t), calls, closed, c.magic, IsMember(ms, c.req.caller));
        CloseAcknowledges(calls, closed, acks, c.magic, IsMember(ms, c.req.caller));
      }
    } else if a.TimeoutSweep? {
      SweepIs(s, a);
      OpenSweep(s, a);
      PendingGenuine(s);
      SweepGenuine(calls, s.server.pending);
      AllGenuineIs(calls, Expired(s.server.pending));
      AcknowledgeMany(Open(t), calls, closed, acks, ms, Expired(s.server.pending));
    } else {
      IdleIs(s, a);
    }
  }

  lemma GenuineIs(calls: seq<Request>, c: Call)
    requires Genuine(calls, c)
    ensures c.magic < |calls| && calls[c.magic] == c.req
  {
  }

  // ----- keys and handles

  /** The client library keeps its wait list in step with the ids it hands out. */
  lemma WaitKeeps(h: Handle)
    requires HandleOk(h)
    ensures HandleOk(Wait(h))
  {
    var w := Wait(h).waiting;
    forall i, j | 0 <= i < j < |w|
      ensures w[i] != w[j]
    {
      assert h.waiting[i] in h.waiting;
    }
  }

  lemma {:induction false} CutWaiting(waiting: seq<nat>, k: nat)
    requires Unique(waiting) && k < |waiting|
    ensures Unique(Cut(waiting, k))
    ensures forall i: nat :: i in Cut(waiting, k) <==> i in waiting && i != waiting[k]
  {
    var w := Cut(waiting, k);
    forall i: nat | i in waiting && i != waiting[k]
      ensures i in w
    {
      var j :| 0 <= j < |waiting| && waiting[j] == i;
      assert w[if j < k then j else j - 1] == i;
    }
    forall j | 0 <= j < |w|
      ensures w[j] in waiting && w[j] != waiting[k]
    {
      var o := if j < k then j else j + 1;
      assert w[j] == waiting[o];
    }
  }

  lemma WakeKeeps(h: Handle, id: nat, reply: Reply)
    requires HandleOk(h)
    ensures HandleOk(Wake(h, id, reply))
    ensures id in h.waiting ==> Wake(h, id, reply).woken == h.woken[id := reply]
    ensures id !in h.waiting ==> Wake(h, id, reply) == h
  {
    var k := WaitIndex(h.waiting, id);
    if k < |h.waiting| {
      assert h.waiting[k] in h.waiting;
      CutWaiting(h.waiting, k);
    }
  }

  lemma HandlesStep(s: System, a: Step, pid: int)
    requires Enabled(s, a) && pid in Next(s, a).handles
    requires pid in s.handles ==> HandleOk(s.handles[pid])
    ensures HandleOk(Next(s, a).handles[pid])
  {
    hide Wake;
    hide Wait;
    hide Serve;
    hide NextPast;
    hide NextNet;
    match a {
      case Begin(p, _, _, _, _) =>
        if pid == p {
          WaitKeeps(s.handles[p]);
        }
      case TakeAck(p) =>
        if pid == p.to {
          WakeKeeps(s.handles[p.to], p.id, Reply(p.code, p.bytes));
        }
      case _ =>
    }
  }

  lemma ServeMagic(s: System, a: Step)
    requires Enabled(s, a)
    ensures Next(s, a).server.magic == s.server.magic + if a.TakeCall? && IsMember(s.server.members, a.packet.req.caller) then 1 else 0
  {
  }

  lemma CallsUnderWay(s: System, a: Step, r: Request)
    requires Enabled(s, a)
    ensures Next(s, a).net[CallPacket(r)]
         <= s.net[CallPacket(r)] + (if a.Begin? && r == Asked(s, a) then 1 else 0)
            - (if a == TakeCall(CallPacket(r)) then 1 else 0)
  {
    SentKinds(s, a);
    assert CallPacket(r) !in Serve(s, a).1;
    assert multiset(Serve(s, a).1)[CallPacket(r)] == 0;
  }

  lemma IdsGrow(s: System, a: Step, pid: int)
    requires Enabled(s, a) && pid in s.handles
    ensures pid in Next(s, a).handles
    ensures Next(s, a).handles[pid].nextId == s.handles[pid].nextId + if a.Begin? && a.pid == pid then 1 else 0
  {
    hide Serve;
    hide NextNet;
    hide NextPast;
  }

  lemma MadeAfter(s: System, a: Step)
    requires Enabled(s, a)
    ensures Next(s, a).past.made == if a.Begin? then s.past.made + {Asked(s, a)} else s.past.made
    ensures Next(s, a).past.calls
         == if a.TakeCall? && IsMember(s.server.members, a.packet.req.caller) then s.past.calls + [a.packet.req] else s.past.calls
  {
  }

  lemma MadeKeys(s: System, a: Step)
    requires Enabled(s, a) && KeysOk(s)
    ensures var t := Next(s, a);
      && (forall r :: r in t.past.made ==> r.caller in t.handles && r.id < t.handles[r.caller].nextId)
      && (forall r, q :: r in t.past.made && q in t.past.made && KeyOf(r) == KeyOf(q) ==> r == q)
  {
    hide Next;
    MadeAfter(s, a);
    var t := Next(s, a);
    forall r | r in t.past.made
      ensures r.caller in t.handles && r.id < t.handles[r.caller].nextId
    {
      IdsGrow(s, a, r.caller);
    }
  }

  lemma KeysStep(s: System, a: Step)
    requires Enabled(s, a) && KeysOk(s)
    ensures KeysOk(Next(s, a))
  {
    hide Serve;
    hide Next;
    var t := Next(s, a);
    MadeAfter(s, a);
    MadeKeys(s, a);
    ServeMagic(s, a);
    forall r: Request
      ensures t.net[CallPacket(r)] + multiset(t.past.calls)[r] <= if r in t.past.made then 1 else 0
    {
      CallsUnderWay(s, a, r);
      assert s.net[CallPacket(r)] + multiset(s.past.calls)[r] <= if r in s.past.made then 1 else 0;
    }
  }

  lemma HandlesKeep(s: System, a: Step)
    requires Enabled(s, a) && HandlesOk(s) && |s.held| <= 1
    ensures HandlesOk(Next(s, a)) && |Next(s, a).held| <= 1
  {
    forall pid | pid in Next(s, a).handles
      ensures HandleOk(Next(s, a).handles[pid])
    {
      HandlesStep(s, a, pid);
    }
  }

  lemma BaseParts(s: System)
    requires Base(s)
    ensures |s.held| <= 1 && KeysOk(s) && GenuineOk(s) && ReportsOk(s) && HandlesOk(s)
  {
  }

  lemma BaseIs(s: System)
    requires |s.held| <= 1 && KeysOk(s) && GenuineOk(s) && ReportsOk(s) && HandlesOk(s)
    ensures Base(s)
  {
  }

  /** Every step keeps the keys distinct, the calls genuine, the finish records true and
      the wait lists in order; no condition on the run is needed for that. */
  lemma BaseStep(s: System, a: Step)
    requires Enabled(s, a) && Base(s)
    ensures Base(Next(s, a))
  {
    hide *;
    BaseParts(s);
    KeysStep(s, a);
    GenuineStep(s, a);
    ReportsStep(s, a);
    HandlesKeep(s, a);
    BaseIs(Next(s, a));
  }
}
