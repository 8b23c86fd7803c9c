/**
 The timeouts of calls in runs of the broker: its list of pending calls changes by
 recording, answering and sweeping, each call being dispatched once with the time its
 caller asked for. Nothing is asked of the runs.
 */
module CallTimeouts {
  import opened CText
  import opened Members
  import opened Registry
  import opened Calls
  import opened Broker
  import opened Ledger
  import opened BrokerSteps
  import opened BrokerLaws

  /** What a step does to the list of pending calls. */
  function ChangeOf(s: System, a: Step): (r: seq<Change>)
    requires Enabled(s, a)
    ensures |r| <= 1
  {
    match a
    case Probing =>
      var c := s.held[0];
      var n := |Probe(s.server.members, c.req.target, c.req.api).0|;
      if n > 0 then [Recorded(c, n)] else []
    case TakeFinish(f) => if Registered(s.server.members, f.from, f.api) then [Answered(f.magic)] else []
    case TimeoutSweep => [Swept]
    case _ => []
  }

  function ChangedBy(ps: seq<Call>, es: seq<Change>): seq<Call>
    requires |es| <= 1
  {
    if es == [] then ps else Changed(ps, es[0])
  }

  /** A run through these steps ends in s, its pending calls having changed by es. */
  ghost predicate Traces(steps: seq<Step>, s: System, es: seq<Change>)
    decreases |steps|
  {
    if steps == [] then s == InitialSystem() && es == []
    else exists b, before :: Traces(Front(steps), b, before) && Extends(b, before, Final(steps), s, es)
  }

  ghost predicate Extends(b: System, before: seq<Change>, a: Step, s: System, es: seq<Change>) {
    Enabled(b, a) && s == Next(b, a) && es == before + ChangeOf(b, a)
  }

  /** Every run is one of these. */
  lemma {:induction false} RunTraces(rules: Rules, steps: seq<Step>, s: System)
    requires Reaches(rules, steps, s)
    ensures exists es :: Traces(steps, s, es)
    decreases |steps|
  {
    hide Next;
    hide Keeps;
    hide ChangeOf;
    if steps == [] {
      assert Traces(steps, s, []);
    } else {
      var b :| Reaches(rules, Front(steps), b) && Moves(rules, b, Final(steps), s);
      RunTraces(rules, Front(steps), b);
      var before :| Traces(Front(steps), b, before);
      assert Extends(b, before, Final(steps), s, before + ChangeOf(b, Final(steps)));
      assert Traces(steps, s, before + ChangeOf(b, Final(steps)));
    }
  }

  // ----- the calls on their way to dispatch

  /** Calls not yet dispatched still have all their time. */
  predicate Untouched(cs: seq<Call>) { forall c :: c in cs ==> c.left == Initial(c.req.timeout) }

  /** Each number handed out waits for dispatch at most once. */
  ghost predicate LinedUp(s: System) {
    && |s.held| <= 1 && Untouched(s.server.queue) && Untouched(s.held)
    && forall m: nat :: Magics(s.server.queue)[m] + Magics(s.held)[m] <= if m < s.server.magic then 1 else 0
  }

  /** A call that has been dispatched does not wait for it again. */
  predicate Passed(s: System, e: Change) {
    e.Recorded? ==>
      e.call.magic < s.server.magic && Magics(s.server.queue)[e.call.magic] + Magics(s.held)[e.call.magic] == 0
  }

  predicate AllPassed(s: System, es: seq<Change>) { forall e :: e in es ==> Passed(s, e) }

  ghost predicate Followed(s: System, es: seq<Change>) {
    LinedUp(s) && AllPassed(s, es) && ProperlyRecorded(es) && PendingAfter(es) == s.server.pending
  }

  lemma PendingExtends(es: seq<Change>, e: Change)
    ensures PendingAfter(es + [e]) == Changed(PendingAfter(es), e)
  {
    assert (es + [e])[..|es|] == es;
  }

  lemma ProperlyExtends(es: seq<Change>, e: Change)
    requires ProperlyRecorded(es)
    requires e.Recorded? ==> e.call.left == Initial(e.call.req.timeout)
    requires e.Recorded? ==> forall f :: f in es && f.Recorded? ==> f.call.magic != e.call.magic
    ensures ProperlyRecorded(es + [e])
  {
    var all := es + [e];
    forall i, j | 0 <= i < j < |all| && all[i].Recorded? && all[j].Recorded?
      ensures all[i].call.magic != all[j].call.magic
    {
      assert all[i] in es;
    }
  }

  // ----- what the steps do to the lists

  /** A call enters the queue with a new magic number. */
  lemma TakeLists(s: System, a: Step)
    requires Enabled(s, a) && a.TakeCall?
    ensures var t, c := Next(s, a), Call(a.packet.req, s.server.magic, Initial(a.packet.req.timeout));
      && t.held == s.held && t.server.pending == s.server.pending && ChangeOf(s, a) == []
      && if IsMember(s.server.members, c.req.caller) then t.server.queue == s.server.queue + [c] && t.server.magic == s.server.magic + 1
         else t.server.queue == s.server.queue && t.server.magic == s.server.magic
  {
    hide NextNet;
    hide NextPast;
    hide NextHandles;
    hide IsMember;
    hide Touch;
  }

  /** It leaves the queue for the probe thread. */
  lemma PullLists(s: System, a: Step)
    requires Enabled(s, a) && a.Pull?
    ensures var t := Next(s, a);
      && s.held == [] && s.server.queue == t.held + t.server.queue && |t.held| == 1
      && t.server.magic == s.server.magic && t.server.pending == s.server.pending && ChangeOf(s, a) == []
  {
    hide NextNet;
    hide NextPast;
    hide NextHandles;
  }

  /** It leaves the probe thread, and is recorded once for every provider. */
  lemma ProbingLists(s: System, a: Step)
    requires Enabled(s, a) && a.Probing?
    ensures s.held != []
    ensures var t, c := Next(s, a), s.held[0];
      var n := |Probe(s.server.members, c.req.target, c.req.api).0|;
      && t.held == s.held[1..] && t.server.queue == s.server.queue && t.server.magic == s.server.magic
      && ChangeOf(s, a) == (if n > 0 then [Recorded(c, n)] else [])
      && t.server.pending == s.server.pending + Copies(c, n)
  {
    hide NextNet;
    hide NextPast;
    hide NextHandles;
    hide Probe;
    hide AckTo;
    var c := s.held[0];
    NoProgramNoPids(s.server.members, c.req.target, c.req.api);
  }

  /** The other steps leave what waits for dispatch alone. */
  lemma LaterLists(s: System, a: Step)
    requires Enabled(s, a) && !a.TakeCall? && !a.Pull? && !a.Probing?
    ensures var t := Next(s, a); t.held == s.held && t.server.queue == s.server.queue && t.server.magic == s.server.magic
    ensures Next(s, a).server.pending == ChangedBy(s.server.pending, ChangeOf(s, a))
    ensures forall e :: e in ChangeOf(s, a) ==> !e.Recorded?
  {
    hide NextNet;
    hide NextPast;
    hide NextHandles;
    hide IsMember;
    hide AckTo;
    hide Registry.Step;
    hide Survivors;
    hide TimeoutAcks;
    hide MagicIndex;
    hide Cut;
  }

  /** The pending calls change as ChangeOf says. */
  lemma PendingFollows(s: System, a: Step)
    requires Enabled(s, a)
    ensures Next(s, a).server.pending == ChangedBy(s.server.pending, ChangeOf(s, a))
  {
    hide *;
    if a.TakeCall? {
      TakeLists(s, a);
      NoChangeIs(s.server.pending);
    } else if a.Pull? {
      PullLists(s, a);
      NoChangeIs(s.server.pending);
    } else if a.Probing? {
      ProbingLists(s, a);
      NoChangeIs(s.server.pending);
      RecordingIs(s.server.pending, s.held[0], |Probe(s.server.members, s.held[0].req.target, s.held[0].req.api).0|);
    } else {
      LaterLists(s, a);
    }
  }

  lemma NoChangeIs(ps: seq<Call>)
    ensures ChangedBy(ps, []) == ps
  {
  }

  lemma RecordingIs(ps: seq<Call>, c: Call, n: nat)
    ensures ChangedBy(ps, [Recorded(c, n)]) == ps + Copies(c, n) && ps + Copies(c, 0) == ps
  {
  }

  // ----- what a step keeps

  lemma NothingHeld()
    ensures Magics([]) == multiset{}
  {
  }

  lemma JoinLine(s: System, c: Call)
    requires LinedUp(s) && c.magic == s.server.magic && c.left == Initial(c.req.timeout)
    ensures var t := s.(server := s.server.(queue := s.server.queue + [c], magic := s.server.magic + 1)); LinedUp(t)
    ensures forall m: nat :: m < s.server.magic ==> Magics(s.server.queue + [c])[m] == Magics(s.server.queue)[m]
  {
    MagicsOne(c);
    MagicsAppend(s.server.queue, [c]);
  }

  /** What is said of a state depends only on what waits for dispatch. */
  lemma SameLine(s: System, t: System, es: seq<Change>)
    requires t.held == s.held && t.server.queue == s.server.queue && t.server.magic == s.server.magic
    ensures LinedUp(s) ==> LinedUp(t)
    ensures AllPassed(s, es) ==> AllPassed(t, es)
  {
  }

  lemma TakeKeeps(s: System, a: Step, es: seq<Change>)
    requires Enabled(s, a) && a.TakeCall? && LinedUp(s) && AllPassed(s, es)
    ensures LinedUp(Next(s, a)) && AllPassed(Next(s, a), es)
  {
    TakeLists(s, a);
    hide Next;
    hide LinedUp;
    var t, c := Next(s, a), Call(a.packet.req, s.server.magic, Initial(a.packet.req.timeout));
    if IsMember(s.server.members, c.req.caller) {
      JoinLine(s, c);
      SameLine(s.(server := s.server.(queue := s.server.queue + [c], magic := s.server.magic + 1)), t, es);
    } else {
      SameLine(s, t, es);
    }
  }

  lemma PullKeeps(s: System, a: Step, es: seq<Change>)
    requires Enabled(s, a) && a.Pull? && LinedUp(s) && AllPassed(s, es)
    ensures LinedUp(Next(s, a)) && AllPassed(Next(s, a), es)
  {
    PullLists(s, a);
    hide Next;
    var t := Next(s, a);
    NothingHeld();
    MagicsAppend(t.held, t.server.queue);
  }

  lemma LeaveLine(s: System, c: Call)
    requires LinedUp(s) && s.held != [] && s.held[0] == c
    ensures s.held[1..] == [] && LinedUp(s.(held := [])) && c.magic < s.server.magic
    ensures Magics(s.held)[c.magic] == 1 && Magics(s.server.queue)[c.magic] + Magics([])[c.magic] == 0
    ensures forall m: nat :: Magics([])[m] <= Magics(s.held)[m]
  {
    assert s.held == [c];
    NothingHeld();
    MagicsOne(c);
    assert Magics(s.server.queue)[c.magic] + Magics(s.held)[c.magic] <= if c.magic < s.server.magic then 1 else 0;
  }

  lemma ProbingKeeps(s: System, a: Step, es: seq<Change>)
    requires Enabled(s, a) && a.Probing? && LinedUp(s) && AllPassed(s, es)
    ensures LinedUp(Next(s, a)) && AllPassed(Next(s, a), es + ChangeOf(s, a))
    ensures forall e :: e in ChangeOf(s, a) ==> e.Recorded? && e.call == s.held[0] && Magics(s.held)[e.call.magic] == 1
  {
    ProbingLists(s, a);
    hide Next;
    hide ChangeOf;
    hide Probe;
    hide LinedUp;
    LeaveLine(s, s.held[0]);
    SameLine(s.(held := []), Next(s, a), es);
  }

  /** The change of a step may follow the changes so far. */
  lemma ChangeProper(s: System, a: Step, es: seq<Change>)
    requires Enabled(s, a) && a.Probing? && LinedUp(s) && AllPassed(s, es) && ProperlyRecorded(es)
    ensures ProperlyRecorded(es + ChangeOf(s, a))
  {
    ProbingKeeps(s, a, es);
    hide ChangeOf;
    hide Next;
    hide ProperlyRecorded;
    if ChangeOf(s, a) == [] {
      assert es + [] == es;
    } else {
      var e := ChangeOf(s, a)[0];
      assert ChangeOf(s, a) == [e] && e in ChangeOf(s, a) && e.call in s.held;
      forall f | f in es && f.Recorded?
        ensures f.call.magic != e.call.magic
      {
        assert Passed(s, f);
      }
      ProperlyExtends(es, e);
    }
  }

  lemma LaterProper(es: seq<Change>, cs: seq<Change>)
    requires |cs| <= 1 && ProperlyRecorded(es) && forall e :: e in cs ==> !e.Recorded?
    ensures ProperlyRecorded(es + cs)
  {
  }

  lemma LineStep(s: System, a: Step, es: seq<Change>)
    requires Enabled(s, a) && LinedUp(s) && AllPassed(s, es) && ProperlyRecorded(es)
    ensures LinedUp(Next(s, a)) && AllPassed(Next(s, a), es + ChangeOf(s, a)) && ProperlyRecorded(es + ChangeOf(s, a))
  {
    hide *;
    assert es + [] == es;
    if a.TakeCall? {
      TakeLists(s, a);
      TakeKeeps(s, a, es);
    } else if a.Pull? {
      PullLists(s, a);
      PullKeeps(s, a, es);
    } else if a.Probing? {
      ProbingKeeps(s, a, es);
      ChangeProper(s, a, es);
    } else {
      LaterLists(s, a);
      SameLine(s, Next(s, a), es);
      LaterPassed(Next(s, a), es, ChangeOf(s, a));
      LaterProper(es, ChangeOf(s, a));
    }
  }

  lemma LaterPassed(s: System, es: seq<Change>, cs: seq<Change>)
    requires AllPassed(s, es) && forall e :: e in cs ==> !e.Recorded?
    ensures AllPassed(s, es + cs)
  {
  }

  lemma FollowedParts(s: System, es: seq<Change>)
    ensures Followed(s, es) <==> LinedUp(s) && AllPassed(s, es) && ProperlyRecorded(es) && PendingAfter(es) == s.server.pending
  {
  }

  lemma PendingGrows(es: seq<Change>, cs: seq<Change>)
    requires |cs| <= 1
    ensures PendingAfter(es + cs) == ChangedBy(PendingAfter(es), cs)
  {
    if cs == [] {
      assert es + cs == es;
    } else {
      assert cs == [cs[0]];
      PendingExtends(es, cs[0]);
    }
  }

  lemma FollowedStep(s: System, es: seq<Change>, a: Step)
    requires Enabled(s, a) && Followed(s, es)
    ensures Followed(Next(s, a), es + ChangeOf(s, a))
  {
    hide *;
    FollowedParts(s, es);
    LineStep(s, a, es);
    PendingFollows(s, a);
    PendingGrows(es, ChangeOf(s, a));
    FollowedParts(Next(s, a), es + ChangeOf(s, a));
  }

  lemma NothingFollowed()
    ensures Followed(InitialSystem(), [])
  {
  }

  lemma {:induction false} TraceFollowed(steps: seq<Step>, s: System, es: seq<Change>)
    requires Traces(steps, s, es)
    ensures Followed(s, es)
    decreases |steps|
  {
    hide Followed;
    hide Next;
    hide ChangeOf;
    if steps == [] {
      NothingFollowed();
    } else {
      var b, before :| Traces(Front(steps), b, before) && Extends(b, before, Final(steps), s, es);
      TraceFollowed(Front(steps), b, before);
      FollowedStep(b, before, Final(steps));
    }
  }

  /** In every run of the broker whatsoever, the next sweep of the timeout thread closes
      a pending call exactly when it is the sweep due for the timeout its caller passed,
      counted from the dispatch of the call; and the caller, if still a member, is sent
      its timeout ack in that very step. */
  lemma TimeoutOnTime(steps: seq<Step>, s: System, es: seq<Change>, c: Call)
    requires Traces(steps, s, es) && c in s.server.pending
    ensures Tick(c) in Settled(s, TimeoutSweep) <==> Due(Initial(c.req.timeout)) == Some(SweepsSeen(es, c.magic) + 1)
    ensures Tick(c) in Settled(s, TimeoutSweep) && IsMember(s.server.members, c.req.caller) ==>
      AckPacket(c.req.caller, c.req.id, ACK_TIMEOUT, []) in Serve(s, TimeoutSweep).1
  {
    hide *;
    TraceFollowed(steps, s, es);
    FollowedParts(s, es);
    TimesOutExactly(es, c);
    SweepServes(s);
    if Tick(c) in Expired(s.server.pending) && IsMember(s.server.members, c.req.caller) {
      TimeoutAcked(s.server.members, Expired(s.server.pending), Tick(c));
    }
  }

  lemma SweepServes(s: System)
    ensures Settled(s, TimeoutSweep) == Expired(s.server.pending)
    ensures Serve(s, TimeoutSweep).1 == TimeoutAcks(s.server.members, Expired(s.server.pending))
    ensures forall c: Call :: Tick(c).req == c.req
  {
  }

  lemma {:induction false} TimeoutAcked(ms: seq<Info>, cs: seq<Call>, c: Call)
    requires c in cs && IsMember(ms, c.req.caller)
    ensures AckPacket(c.req.caller, c.req.id, ACK_TIMEOUT, []) in TimeoutAcks(ms, cs)
  {
    if c != cs[0] {
      assert cs == [cs[0]] + cs[1..];
      TimeoutAcked(ms, cs[1..], c);
    }
  }
}
