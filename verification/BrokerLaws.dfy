/**
 Runs of the broker: any interleaving of its steps, with nothing assumed of them but
 what a law needs.
 */
module BrokerLaws {
  import opened CText
  import opened Members
  import opened Registry
  import opened Calls
  import opened Broker
  import opened Ledger
  import opened BrokerSteps

  // ----- runs

  /** What is asked of each step of a run: that joins skip nobody, that calls find at
      most one provider, that acks for finish records go to the right address, that
      finish records find their API registered. */
  datatype Rules = Rules(joins: bool, routes: bool, addressed: bool, settles: bool)

  predicate Keeps(rules: Rules, s: System, a: Step)
    requires Enabled(s, a)
  {
    && (rules.joins && a.Membership? ==> SkipFree(s.server.members, a.event))
    && (rules.routes ==> Routed(s, a))
    && (rules.addressed ==> Addressed(s, a))
    && (rules.settles ==> Settles(s, a))
  }

  function Front(steps: seq<Step>): seq<Step>
    requires steps != []
  {
    steps[..|steps| - 1]
  }

  function Final(steps: seq<Step>): Step
    requires steps != []
  {
    steps[|steps| - 1]
  }

  /** A run from nothing through these steps, under these rules, ends in s. */
  ghost predicate Reaches(rules: Rules, steps: seq<Step>, s: System)
    decreases |steps|
  {
    if steps == [] then s == InitialSystem()
    else exists b :: Reaches(rules, Front(steps), b) && Moves(rules, b, Final(steps), s)
  }

  ghost predicate Moves(rules: Rules, b: System, a: Step, s: System) { Enabled(b, a) && Keeps(rules, b, a) && s == Next(b, a) }

  /** What is known of a state reached under the rules. */
  ghost predicate Inv(rules: Rules, s: System) {
    && Base(s)
    && (rules.joins ==> Tidy(s.server.members))
    && (rules.addressed ==> RepliesOk(s))
    && (rules.routes ==> ConservedOk(s))
    && (rules.routes && rules.settles ==> AcksOk(s))
  }

  lemma TidyStep(s: System, a: Step)
    requires Enabled(s, a) && Tidy(s.server.members) && (a.Membership? ==> SkipFree(s.server.members, a.event))
    ensures Tidy(Next(s, a).server.members)
  {
    hide Tidy;
    hide NextNet;
    hide NextHandles;
    hide NextPast;
    match a {
      case Membership(e) => StepKeepsTidy(s.server.members, e);
      case TakeCall(p) => StepKeepsTidy(s.server.members, Alive(p.req.caller));
      case _ =>
    }
  }

  /** Every step that keeps the rules keeps the invariant. */
  lemma InvStep(rules: Rules, s: System, a: Step)
    requires Enabled(s, a) && Keeps(rules, s, a) && Inv(rules, s)
    ensures Inv(rules, Next(s, a))
  {
    hide Base;
    hide Tidy;
    hide RepliesOk;
    hide ConservedOk;
    hide AcksOk;
    hide Next;
    hide Enabled;
    hide Routed;
    hide Settles;
    hide Addressed;
    hide SkipFree;
    BaseStep(s, a);
    BaseParts(s);
    if rules.joins {
      TidyStep(s, a);
    }
    if rules.addressed {
      RepliesStep(s, a);
    }
    if rules.routes {
      ConservedStep(s, a);
      if rules.settles {
        AcksStep(s, a);
      }
    }
  }

  lemma StartKeys()
    ensures KeysOk(InitialSystem())
  {
  }

  lemma StartLists()
    ensures GenuineOk(InitialSystem()) && ReportsOk(InitialSystem()) && HandlesOk(InitialSystem()) && RepliesOk(InitialSystem())
  {
  }

  lemma StartBooks()
    ensures ConservedOk(InitialSystem()) && AcksOk(InitialSystem()) && Tidy(InitialSystem().server.members)
  {
    MagicsNone();
  }

  lemma InvStart(rules: Rules)
    ensures Inv(rules, InitialSystem())
  {
    hide KeysOk;
    hide GenuineOk;
    hide ReportsOk;
    hide HandlesOk;
    hide RepliesOk;
    hide ConservedOk;
    hide AcksOk;
    hide Tidy;
    StartKeys();
    StartLists();
    StartBooks();
  }

  lemma {:induction false} Reached(rules: Rules, steps: seq<Step>, s: System)
    requires Reaches(rules, steps, s)
    ensures Inv(rules, s)
    decreases |steps|
  {
    hide Inv;
    hide Next;
    hide Keeps;
    if steps == [] {
      InvStart(rules);
    } else {
      var b :| Reaches(rules, Front(steps), b) && Moves(rules, b, Final(steps), s);
      Reached(rules, Front(steps), b);
      InvStep(rules, b, Final(steps));
    }
  }

  lemma JoinsRoute(rules: Rules, s: System, a: Step)
    requires Enabled(s, a) && rules.joins && Tidy(s.server.members) && Keeps(rules, s, a)
    ensures Keeps(rules.(routes := true), s, a)
  {
    hide Routed;
    TidyIsDistinct(s.server.members);
    DistinctRoutes(s, a);
  }

  /** In runs whose joins skip nobody, no call ever finds two providers. */
  lemma {:induction false} SkipFreeRoutes(rules: Rules, steps: seq<Step>, s: System)
    requires Reaches(rules, steps, s) && rules.joins
    ensures Reaches(rules.(routes := true), steps, s)
    decreases |steps|
  {
    hide Next;
    hide Keeps;
    hide Base;
    hide Tidy;
    if steps != [] {
      var b :| Reaches(rules, Front(steps), b) && Moves(rules, b, Final(steps), s);
      Reached(rules, Front(steps), b);
      SkipFreeRoutes(rules, Front(steps), b);
      JoinsRoute(rules, b, Final(steps));
      assert Moves(rules.(routes := true), b, Final(steps), s);
    }
  }

  // ----- agreement

  /** The provider's function returned this for the call of this caller and ack id, and
      there is only one request of that caller and id. */
  ghost predicate Produced(past: History, k: Key, code: int, bytes: seq<Byte>) {
    exists o :: o in past.outcomes && o.call.req in past.made && KeyOf(o.call.req) == k && o.code == code && o.bytes == bytes
                && forall r :: r in past.made && KeyOf(r) == k ==> r == o.call.req
  }

  lemma EarnedIsProduced(s: System, k: Key, reply: Reply)
    requires KeysOk(s) && GenuineOk(s) && Earned(s.past, k, reply)
    ensures || (reply.bytes == [] && reply.code in {ACK_TIMEOUT, CANTFIND_PROGRAM, CANTFIND_API})
            || Produced(s.past, k, reply.code, reply.bytes)
  {
    if !(reply.bytes == [] && reply.code in {ACK_TIMEOUT, CANTFIND_PROGRAM, CANTFIND_API}) {
      var o :| o in s.past.outcomes && KeyOf(o.call.req) == k && o.code == reply.code && o.bytes == reply.bytes;
      NumberedWasMade(s, o.call.magic);
      assert Genuine(s.past.calls, o.call);
    }
  }

  /** End-to-end agreement: in every run whose finish records are acked to the right
      address (FinishAnswersItsCaller says when), whatever a call is woken with is one of the daemon's errors, or the code and bytes
      that a provider's function returned for that very call: the same caller, ack id,
      program, API and argument bytes. Joins may skip whom they like. */
  lemma Agreement(rules: Rules, steps: seq<Step>, s: System, pid: int, id: nat)
    requires Reaches(rules, steps, s) && rules.addressed && pid in s.handles && id in s.handles[pid].woken
    ensures var reply := s.handles[pid].woken[id];
      || (reply.bytes == [] && reply.code in {ACK_TIMEOUT, CANTFIND_PROGRAM, CANTFIND_API})
      || Produced(s.past, (pid, id), reply.code, reply.bytes)
  {
    hide Reaches;
    hide KeysOk;
    hide GenuineOk;
    hide Produced;
    Reached(rules, steps, s);
    BaseParts(s);
    EarnedIsProduced(s, (pid, id), s.handles[pid].woken[id]);
  }

  /** ipc_call_api returns this for a call whose function returned code and full: that
      code, and the bytes exactly if both result pointers are given and the code is one
      of the two acks; without the pointers bytes turn the code into a complaint. */
  predicate HandedOver(produced: int, full: seq<Byte>, pointers: bool, code: int, bytes: Option<seq<Byte>>) {
    && (full != [] && !pointers ==> code == IN_PARAM_ERROR)
    && (full == [] || pointers ==> code == produced)
    && (bytes.Some? <==> pointers && produced in {ACK_OK, ACK_FAIL})
    && (bytes.Some? ==> bytes.value == full)
  }

  /** So in every such run ipc_call_api returns, for a call that has been woken, an error
      of the daemon, or what the provider's function returned for it, handed over in
      full. */
  lemma CallReturns(rules: Rules, steps: seq<Step>, s: System, pid: int, id: nat, pointers: bool)
    requires Reaches(rules, steps, s) && rules.addressed && pid in s.handles && id in s.handles[pid].woken
    ensures var (code, bytes) := Returned(s.handles[pid].woken[id], pointers);
      || (code in {ACK_TIMEOUT, CANTFIND_PROGRAM, CANTFIND_API} && bytes.None?)
      || exists produced, full :: Produced(s.past, (pid, id), produced, full) && HandedOver(produced, full, pointers, code, bytes)
  {
    hide Reaches;
    hide Produced;
    Agreement(rules, steps, s, pid, id);
    var reply := s.handles[pid].woken[id];
    var (code, bytes) := Returned(reply, pointers);
    assert HandedOver(reply.code, reply.bytes, pointers, code, bytes);
  }

  lemma AckLands(s: System, ack: Packet, pid: int)
    requires Enabled(s, TakeAck(ack)) && pid in s.handles
    ensures var h := s.handles[pid];
      && pid in Next(s, TakeAck(ack)).handles
      && Next(s, TakeAck(ack)).handles[pid] == if pid == ack.to then Wake(h, ack.id, Reply(ack.code, ack.bytes)) else h
  {
    hide Serve;
    hide NextPast;
    hide NextNet;
    hide Wake;
  }

  /** No ack wakes another call: in every run whatsoever, taking an ack changes nothing
      but the call waiting under its id at the handle it is addressed to. */
  lemma WakesOnlyItsCall(rules: Rules, steps: seq<Step>, s: System, ack: Packet, pid: int, id: nat)
    requires Reaches(rules, steps, s) && Enabled(s, TakeAck(ack)) && pid in s.handles && id in s.handles[pid].waiting
    ensures id in Next(s, TakeAck(ack)).handles[pid].waiting <==> !(pid == ack.to && id == ack.id)
    ensures pid == ack.to && id == ack.id ==> Next(s, TakeAck(ack)).handles[pid].woken[id] == Reply(ack.code, ack.bytes)
  {
    hide Reaches;
    Reached(rules, steps, s);
    BaseParts(s);
    AckLands(s, ack, pid);
    hide Next;
    hide KeysOk;
    hide GenuineOk;
    hide ReportsOk;
    hide Inv;
    var h := s.handles[pid];
    assert HandleOk(h);
    if pid == ack.to {
      var k := WaitIndex(h.waiting, ack.id);
      if k < |h.waiting| {
        CutWaiting(h.waiting, k);
      }
    }
  }

  // ----- conservation

  /** Conservation: in every run in which no call finds two providers, each magic number
      handed out is in exactly one place: queued, held by the probe thread, pending, or
      closed. Finish records may go astray. */
  lemma Conservation(rules: Rules, steps: seq<Step>, s: System, m: nat)
    requires Reaches(rules, steps, s) && rules.routes && m < s.server.magic
    ensures Magics(s.server.queue)[m] + Magics(s.held)[m] + Magics(s.server.pending)[m] + (if m in s.past.closed then 1 else 0) == 1
  {
    hide Reaches;
    Reached(rules, steps, s);
    BaseParts(s);
    CallsCounted(s);
    hide Base;
    OneOpenOrClosed(s, m);
  }

  lemma CallsCounted(s: System)
    requires KeysOk(s)
    ensures |s.past.calls| == s.server.magic
  {
  }

  lemma OneOpenOrClosed(s: System, m: nat)
    requires ConservedOk(s)
    ensures Magics(s.server.queue)[m] + Magics(s.held)[m] + Magics(s.server.pending)[m] + (if m in s.past.closed then 1 else 0)
         == if m < |s.past.calls| then 1 else 0
  {
    assert Open(s)[m] + (if m in s.past.closed then 1 else 0) == if m < |s.past.calls| then 1 else 0;
  }

  lemma {:induction false} MagicsCopies(c: Call, n: nat)
    ensures Magics(Copies(c, n))[c.magic] == n
  {
    if n > 0 {
      assert Copies(c, n)[1..] == Copies(c, n - 1);
      MagicsCopies(c, n - 1);
    }
  }

  /** And that condition is exact: a dispatch keeps the numbers conserved if and only if
      the call finds at most one provider. */
  lemma ProbingConserves(s: System)
    requires Base(s) && ConservedOk(s) && s.held != []
    ensures ConservedOk(Next(s, Probing)) <==> Routed(s, Probing)
  {
    BaseParts(s);
    var c, t := s.held[0], Next(s, Probing);
    var pids := Probe(s.server.members, c.req.target, c.req.api).0;
    if |pids| <= 1 {
      ConservedStep(s, Probing);
    } else {
      NoProgramNoPids(s.server.members, c.req.target, c.req.api);
      hide Probe;
      hide KeysOk;
      hide GenuineOk;
      hide ReportsOk;
      hide HandlesOk;
      assert t.server.pending == s.server.pending + Copies(c, |pids|);
      hide Next;
      MagicsCopies(c, |pids|);
      MagicsAppend(s.server.pending, Copies(c, |pids|));
      if ConservedOk(t) {
        OneOpenOrClosed(t, c.magic);
      }
    }
  }

  lemma OneTooMany(calls: seq<Request>, closed: map<nat, bool>, acks: multiset<Key>, k: Key)
    requires Acknowledged(calls, closed, acks)
    ensures !Acknowledged(calls, closed, acks + multiset{k})
  {
    if IsKey(calls, k) {
      var m :| 0 <= m < |calls| && KeyOf(calls[m]) == k;
      assert (acks + multiset{k})[k] == acks[k] + 1;
    } else {
      assert k in acks + multiset{k};
    }
  }

  lemma AcksOkIs(s: System)
    ensures AcksOk(s) <==> Acknowledged(s.past.calls, s.past.closed, s.past.acks)
  {
  }

  lemma FinishRoutes(s: System, f: Packet)
    requires Enabled(s, TakeFinish(f))
    ensures Routed(s, TakeFinish(f))
  {
  }

  lemma MissAcks(s: System, f: Packet)
    requires Enabled(s, TakeFinish(f)) && !Settles(s, TakeFinish(f))
    ensures var t := Next(s, TakeFinish(f));
      && t.past.calls == s.past.calls && t.past.closed == s.past.closed
      && t.past.acks == s.past.acks + multiset{(f.from, f.id)}
  {
    FinishUnfolds(s, TakeFinish(f));
    FinishIs(s, TakeFinish(f));
    AckKeysOf(s.server.members, f.from, f.id, f.code, f.bytes);
    hide Next;
    hide AckKeys;
    hide AckTo;
    hide Registered;
    hide IsMember;
    hide MagicIndex;
  }

  /** And the condition of OneAck on finish records is exact: one keeps the acks right if
      and only if it finds its API registered, or its provider gone. */
  lemma FinishAcknowledges(s: System, f: Packet)
    requires Base(s) && ConservedOk(s) && AcksOk(s) && Enabled(s, TakeFinish(f))
    ensures AcksOk(Next(s, TakeFinish(f))) <==> Settles(s, TakeFinish(f))
  {
    var a := TakeFinish(f);
    FinishRoutes(s, f);
    hide *;
    if Settles(s, a) {
      AcksStep(s, a);
    } else {
      MissAcks(s, f);
      AcksOkIs(s);
      AcksOkIs(Next(s, a));
      OneTooMany(s.past.calls, s.past.closed, s.past.acks, (f.from, f.id));
    }
  }

  /** In every run in which no call finds two providers and finish records find their
      API registered or their provider gone, a call has been sent exactly one ack if it is closed and its caller
      was a member at that step, and none otherwise; so an answer after a timeout never
      produces a second one. */
  lemma OneAck(rules: Rules, steps: seq<Step>, s: System, m: nat)
    requires Reaches(rules, steps, s) && rules.routes && rules.settles && m < s.server.magic
    ensures m < |s.past.calls|
    ensures s.past.acks[KeyOf(s.past.calls[m])] == if m in s.past.closed && s.past.closed[m] then 1 else 0
  {
    hide Reaches;
    Reached(rules, steps, s);
    BaseParts(s);
    CallsCounted(s);
    hide Base;
  }

  // ----- the finish-miss branch

  /** In every run whatsoever, all acks sent for a finish record are addressed to the
      call it belongs to, pending or not, if and only if the provider is gone, or still
      has the API registered, or is the caller itself. */
  lemma FinishAnswersItsCaller(rules: Rules, steps: seq<Step>, s: System, f: Packet)
    requires Reaches(rules, steps, s) && f in s.net && f.FinishPacket?
    ensures f.magic < |s.past.calls|
    ensures (forall p :: p in Finish(s.server, f).1 && p.AckPacket? ==> (p.to, p.id) == KeyOf(s.past.calls[f.magic]))
       <==> (|| !IsMember(s.server.members, f.from) || Registered(s.server.members, f.from, f.api)
             || f.from == s.past.calls[f.magic].caller)
  {
    hide Reaches;
    Reached(rules, steps, s);
    BaseParts(s);
    ReportedCall(s, f);
    if MagicIndex(s.server.pending, f.magic) < |s.server.pending| {
      FoundPending(s, f.magic);
    }
    hide GenuineOk;
    hide ReportsOk;
    hide KeysOk;
    hide HandlesOk;
    hide Inv;
    var ms := s.server.members;
    if IsMember(ms, f.from) && !Registered(ms, f.from, f.api) {
      assert Finish(s.server, f).1 == [AckPacket(f.from, f.id, f.code, f.bytes)];
      assert AckPacket(f.from, f.id, f.code, f.bytes) in Finish(s.server, f).1;
    }
  }

  /** A finish record takes its pending call off the list if and only if the API is still
      registered; otherwise the call stays, to be timed out later. */
  lemma FinishSettlesItsCall(rules: Rules, steps: seq<Step>, s: System, f: Packet)
    requires Reaches(rules, steps, s) && rules.routes && f in s.net && f.FinishPacket?
    requires Magics(s.server.pending)[f.magic] > 0
    ensures Magics(Finish(s.server, f).0.pending)[f.magic] == 0 <==> Registered(s.server.members, f.from, f.api)
  {
    hide Reaches;
    Reached(rules, steps, s);
    hide Base;
    OneOpenOrClosed(s, f.magic);
    var k := MagicIndex(s.server.pending, f.magic);
    NoneWithout(s.server.pending, f.magic);
    if k < |s.server.pending| {
      MagicsCut(s.server.pending, k);
    }
  }

  lemma {:induction false} NoneWithout(cs: seq<Call>, magic: nat)
    ensures MagicIndex(cs, magic) == |cs| ==> Magics(cs)[magic] == 0
  {
    if cs != [] {
      NoneWithout(cs[1..], magic);
    }
  }

  /** What the branch can do: while a provider that no longer has the API registered
      has a call of its own waiting under the ack id of the call it finishes, the
      result of the one wakes the other. */
  lemma MissWakesAnother(s: System, f: Packet)
    requires Enabled(s, TakeFinish(f)) && IsMember(s.server.members, f.from) && !Registered(s.server.members, f.from, f.api)
    requires f.from in s.handles && f.id in s.handles[f.from].waiting
    ensures var ack, t := AckPacket(f.from, f.id, f.code, f.bytes), Next(s, TakeFinish(f));
      && Enabled(t, TakeAck(ack))
      && f.id in Next(t, TakeAck(ack)).handles[f.from].woken
      && Next(t, TakeAck(ack)).handles[f.from].woken[f.id] == Reply(f.code, f.bytes)
  {
    var ack, t := AckPacket(f.from, f.id, f.code, f.bytes), Next(s, TakeFinish(f));
    assert Serve(s, TakeFinish(f)).1 == [ack];
    assert ack in Sent([ack]);
    assert t.handles == s.handles;
  }

  /** A concrete case: member 2 finishes call 0 of member 1 after unregistering f. The
      ack goes to member 2, and the call stays pending. */
  lemma FinishMissExample()
    ensures var c := Call(Request(1, 0, "b", "f", [], 500), 0, 500);
      var s := Server([Info(1, "a", 0, false, [], []), Info(2, "b", 0, false, [], [])], [], [c], 1);
      Finish(s, FinishPacket(2, "f", 0, 0, ACK_OK, [7])) == (s, [AckPacket(2, 0, ACK_OK, [7])])
  {
    var ms := [Info(1, "a", 0, false, [], []), Info(2, "b", 0, false, [], [])];
    IndexOfIs(ms, 2, 1);
  }
}
