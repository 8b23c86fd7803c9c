/**
 Who answers a call: in every run, the process whose function produced a result was an
 active member of the name called, with the API registered, when the call was dispatched.
 */
module Provenance {
  import opened CText
  import opened Members
  import opened Registry
  import opened Calls
  import opened Broker
  import opened BrokerSteps
  import opened BrokerLaws

  /** The process is an active member of the name asked for, with the API registered. */
  ghost predicate Fit(ms: seq<Info>, pid: int, req: Request) {
    exists m :: m in ms && m.pid == pid && m.name == req.target && !m.suspend && req.api in m.apis
  }

  lemma {:induction false} ProbeFits(ms: seq<Info>, i: nat, req: Request, pid: int)
    requires pid in ProbeFrom(ms, i, req.target, req.api).0
    ensures Fit(ms, pid, req)
    decreases |ms| - i
  {
    if ms[i].name != req.target {
      ProbeFits(ms, i + 1, req, pid);
    } else if ms[i].suspend {
      ProbeFits(ms, i + 2, req, pid);
    } else if !(req.api in ms[i].apis && pid == ms[i].pid) {
      ProbeFits(ms, i + 1, req, pid);
    }
  }

  /** The call was dispatched when this process was fit for it. */
  ghost predicate SentTo(past: History, c: Call, pid: int) {
    exists d :: d in past.dispatches && d.call == c && Fit(d.members, pid, c.req)
  }

  ghost predicate AllSentTo(past: History, cs: seq<Call>, pid: int) { forall c :: c in cs ==> SentTo(past, c, pid) }

  ghost predicate HandleSentTo(past: History, h: Handle, pid: int) { AllSentTo(past, h.inbox, pid) && AllSentTo(past, h.running, pid) }

  ghost predicate ProvidersOk(s: System) {
    && (forall p :: p in s.net && p.RelayPacket? ==> SentTo(s.past, p.call, p.to))
    && (forall pid :: pid in s.handles ==> HandleSentTo(s.past, s.handles[pid], pid))
    && (forall o :: o in s.past.outcomes ==> SentTo(s.past, o.call, o.from))
  }

  lemma DispatchesGrow(s: System, a: Step)
    requires Enabled(s, a)
    ensures Next(s, a).past.dispatches == s.past.dispatches + Dispatched(s, a)
  {
    hide Serve;
    hide NextNet;
    hide NextHandles;
    hide Closing;
    hide AckKeys;
  }

  lemma SentLater(past: History, later: History, c: Call, pid: int)
    requires SentTo(past, c, pid) && past.dispatches <= later.dispatches
    ensures SentTo(later, c, pid)
  {
  }

  /** Who gets a relay in a dispatch is fit for the call then. */
  lemma RelayedToFit(s: System, a: Step, p: Packet)
    requires Enabled(s, a) && a.Probing? && p in Serve(s, a).1 && p.RelayPacket?
    ensures p.call == s.held[0] && Fit(s.server.members, p.to, p.call.req)
  {
    var c := s.held[0];
    var pids := Probe(s.server.members, c.req.target, c.req.api).0;
    hide ProbeFrom;
    hide Fit;
    assert p in Relays(pids, c);
    var k :| 0 <= k < |pids| && p == RelayPacket(pids[k], c);
    ProbeFits(s.server.members, 0, c.req, p.to);
  }

  lemma NetSentTo(s: System, a: Step, p: Packet)
    requires Enabled(s, a) && ProvidersOk(s) && p in Next(s, a).net && p.RelayPacket?
    ensures SentTo(Next(s, a).past, p.call, p.to)
  {
    NetAfter(s, a, p);
    DispatchesGrow(s, a);
    SentKinds(s, a);
    hide Serve;
    hide Next;
    if p in s.net {
      SentLater(s.past, Next(s, a).past, p.call, p.to);
    } else {
      RelayedToFit(s, a, p);
      assert Dispatching(s.held[0], s.server.members) in Dispatched(s, a);
    }
  }

  /** The calls a handle has after a step it had before, or they just came to it. */
  lemma HandleAfter(s: System, a: Step, pid: int)
    requires Enabled(s, a) && pid in Next(s, a).handles
    ensures var h := Next(s, a).handles[pid];
      forall c :: c in h.inbox || c in h.running ==>
        || (pid in s.handles && (c in s.handles[pid].inbox || c in s.handles[pid].running))
        || (a.TakeRelay? && a.packet.to == pid && a.packet.call == c)
  {
    hide Serve;
    hide NextNet;
    hide NextPast;
    hide WaitIndex;
    var h := Next(s, a).handles[pid];
    if a.TakeAck? && pid == a.packet.to {
      WakeServes(s, a);
    }
  }

  lemma HandleKeeps(s: System, a: Step, pid: int)
    requires Enabled(s, a) && ProvidersOk(s) && pid in Next(s, a).handles
    ensures HandleSentTo(Next(s, a).past, Next(s, a).handles[pid], pid)
  {
    HandleAfter(s, a, pid);
    DispatchesGrow(s, a);
    hide Next;
    hide SentTo;
    var h, t := Next(s, a).handles[pid], Next(s, a);
    forall c | c in h.inbox || c in h.running
      ensures SentTo(t.past, c, pid)
    {
      if pid in s.handles && (c in s.handles[pid].inbox || c in s.handles[pid].running) {
        assert HandleSentTo(s.past, s.handles[pid], pid);
      } else {
        assert a.packet in s.net;
      }
      SentLater(s.past, t.past, c, pid);
    }
  }

  lemma OutcomeAfter(s: System, a: Step, o: Outcome)
    requires Enabled(s, a) && o in Next(s, a).past.outcomes
    ensures o in s.past.outcomes || (a.Execute? && o.from == a.pid && o.call in s.handles[a.pid].running)
  {
    hide Serve;
    hide NextNet;
    hide NextHandles;
    hide Closing;
    hide AckKeys;
  }

  lemma OutcomeKeeps(s: System, a: Step, o: Outcome)
    requires Enabled(s, a) && ProvidersOk(s) && o in Next(s, a).past.outcomes
    ensures SentTo(Next(s, a).past, o.call, o.from)
  {
    OutcomeAfter(s, a, o);
    DispatchesGrow(s, a);
    hide Next;
    hide SentTo;
    if o !in s.past.outcomes {
      assert HandleSentTo(s.past, s.handles[a.pid], a.pid);
    }
    SentLater(s.past, Next(s, a).past, o.call, o.from);
  }

  lemma ProvidersStep(s: System, a: Step)
    requires Enabled(s, a) && ProvidersOk(s)
    ensures ProvidersOk(Next(s, a))
  {
    hide Next;
    hide Enabled;
    hide SentTo;
    hide HandleSentTo;
    var t := Next(s, a);
    forall p | p in t.net && p.RelayPacket?
      ensures SentTo(t.past, p.call, p.to)
    {
      NetSentTo(s, a, p);
    }
    forall pid | pid in t.handles
      ensures HandleSentTo(t.past, t.handles[pid], pid)
    {
      HandleKeeps(s, a, pid);
    }
    forall o | o in t.past.outcomes
      ensures SentTo(t.past, o.call, o.from)
    {
      OutcomeKeeps(s, a, o);
    }
  }

  lemma ProvidersStart()
    ensures ProvidersOk(InitialSystem()) && InitialSystem().past.dispatches == {}
  {
  }

  lemma {:induction false} ProvidersReached(rules: Rules, steps: seq<Step>, s: System)
    requires Reaches(rules, steps, s)
    ensures ProvidersOk(s)
    decreases |steps|
  {
    hide ProvidersOk;
    hide Next;
    hide Keeps;
    if steps == [] {
      ProvidersStart();
    } else {
      var b :| Reaches(rules, Front(steps), b) && Moves(rules, b, Final(steps), s);
      ProvidersReached(rules, Front(steps), b);
      ProvidersStep(b, Final(steps));
    }
  }

  // ----- dispatches are steps of the run

  /** At step n of the run the call was in the hand of the probe thread, and b the state. */
  ghost predicate DispatchedAt(rules: Rules, steps: seq<Step>, n: nat, b: System, c: Call) {
    n < |steps| && steps[n] == Probing && Reaches(rules, steps[..n], b) && b.held != [] && b.held[0] == c
  }

  lemma DispatchedLater(rules: Rules, steps: seq<Step>, n: nat, b: System, c: Call)
    requires steps != [] && DispatchedAt(rules, Front(steps), n, b, c)
    ensures DispatchedAt(rules, steps, n, b, c)
  {
    assert Front(steps)[..n] == steps[..n];
  }

  lemma {:induction false} DispatchesAreSteps(rules: Rules, steps: seq<Step>, s: System, d: Dispatching)
    requires Reaches(rules, steps, s) && d in s.past.dispatches
    ensures exists n, b :: DispatchedAt(rules, steps, n, b, d.call) && b.server.members == d.members
    decreases |steps|
  {
    hide Next;
    hide Keeps;
    if steps == [] {
      ProvidersStart();
      assert false;
    } else {
      var b :| Reaches(rules, Front(steps), b) && Moves(rules, b, Final(steps), s);
      DispatchesGrow(b, Final(steps));
      if d in b.past.dispatches {
        DispatchesAreSteps(rules, Front(steps), b, d);
        var n, e :| DispatchedAt(rules, Front(steps), n, e, d.call) && e.server.members == d.members;
        DispatchedLater(rules, steps, n, e, d.call);
      } else {
        assert DispatchedAt(rules, steps, |steps| - 1, b, d.call);
      }
    }
  }

  /** The process was fit for the call when the daemon dispatched it. */
  ghost predicate FitAtDispatch(rules: Rules, steps: seq<Step>, c: Call, pid: int) {
    exists n, b :: DispatchedAt(rules, steps, n, b, c) && Fit(b.server.members, pid, c.req)
  }

  /** In every run whatsoever, the process that produced a result was, when the daemon
      dispatched that call, an active member of the name called with the API registered. */
  lemma RanByProvider(rules: Rules, steps: seq<Step>, s: System, o: Outcome)
    requires Reaches(rules, steps, s) && o in s.past.outcomes
    ensures FitAtDispatch(rules, steps, o.call, o.from)
  {
    hide Reaches;
    ProvidersReached(rules, steps, s);
    hide DispatchedAt;
    hide Fit;
    var d :| d in s.past.dispatches && d.call == o.call && Fit(d.members, o.from, o.call.req);
    DispatchesAreSteps(rules, steps, s, d);
  }

  /** So in every run whose finish records are acked to the right address, a call that is
      woken with no error of the daemon is woken with what such a process returned for it. */
  lemma AnsweredByProvider(rules: Rules, steps: seq<Step>, s: System, pid: int, id: nat)
    requires Reaches(rules, steps, s) && rules.addressed && pid in s.handles && id in s.handles[pid].woken
    ensures var reply := s.handles[pid].woken[id];
      || (reply.bytes == [] && reply.code in {ACK_TIMEOUT, CANTFIND_PROGRAM, CANTFIND_API})
      || exists o :: o in s.past.outcomes && KeyOf(o.call.req) == (pid, id) && o.code == reply.code && o.bytes == reply.bytes
                     && FitAtDispatch(rules, steps, o.call, o.from)
  {
    hide Reaches;
    hide FitAtDispatch;
    Agreement(rules, steps, s, pid, id);
    var reply := s.handles[pid].woken[id];
    if !(reply.bytes == [] && reply.code in {ACK_TIMEOUT, CANTFIND_PROGRAM, CANTFIND_API}) {
      var o :| o in s.past.outcomes && KeyOf(o.call.req) == (pid, id) && o.code == reply.code && o.bytes == reply.bytes;
      RanByProvider(rules, steps, s, o);
    }
  }
}
