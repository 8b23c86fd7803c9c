/**
 What the registrations of a run mean for its calls: which process a call is relayed
 to, told from the steps of the run alone; and in which order calls get there.
 */
module Routing {
  import opened CText
  import opened Members
  import opened Registry
  import opened Entries
  import opened Registrations
  import opened Calls
  import opened Broker
  import opened Ledger
  import opened BrokerSteps
  import opened BrokerLaws
  import opened Provenance
  import D = Deliveries

  /** What the steps of a run of the broker are for the member list. */
  function Happened(steps: seq<Step>): seq<Event> {
    if steps == [] then []
    else
      Happened(Front(steps))
      + match Final(steps)
        case TakeCall(p) => if p.CallPacket? then [Alive(p.req.caller)] else []
        case Membership(e) => [e]
        case _ => []
  }

  lemma HappenedOn(steps: seq<Step>)
    requires steps != []
    ensures var ms := Run(Happened(Front(steps)));
      Run(Happened(steps)) ==
        match Final(steps)
        case TakeCall(p) => if p.CallPacket? then Registry.Step(ms, Alive(p.req.caller)) else ms
        case Membership(e) => Registry.Step(ms, e)
        case _ => ms
  {
    hide Run;
    hide Registry.Step;
    var es := Happened(Front(steps));
    match Final(steps) {
      case TakeCall(p) =>
        if p.CallPacket? {
          D.RunOn(es, Alive(p.req.caller));
        } else {
          assert es + [] == es;
        }
      case Membership(e) => D.RunOn(es, e);
      case _ => assert es + [] == es;
    }
  }

  lemma MembersAfter(s: System, a: Step)
    requires Enabled(s, a)
    ensures var ms := s.server.members;
      Next(s, a).server.members ==
        match a
        case TakeCall(p) => Registry.Step(ms, Alive(p.req.caller))
        case Membership(e) => Registry.Step(ms, e)
        case _ => ms
  {
    hide NextNet;
    hide NextPast;
    hide NextHandles;
    hide Probe;
    hide AckTo;
  }

  /** In every run of the broker the member list is that of its events. */
  lemma {:induction false} MembersFollow(rules: Rules, steps: seq<Step>, s: System)
    requires Reaches(rules, steps, s)
    ensures s.server.members == Run(Happened(steps))
    decreases |steps|
  {
    hide Next;
    hide Keeps;
    hide Run;
    hide Registry.Step;
    if steps == [] {
      NoMembers();
    } else {
      var b :| Reaches(rules, Front(steps), b) && Moves(rules, b, Final(steps), s);
      MembersFollow(rules, Front(steps), b);
      MembersAfter(b, Final(steps));
      HappenedOn(steps);
    }
  }

  lemma NoMembers()
    ensures Run([]) == [] && InitialSystem().server.members == []
  {
  }

  // ----- whom a call goes to

  /** The process is an active member of the name called, and the last word on the API
      since it joined was its registration. */
  ghost predicate Offers(es: seq<Event>, pid: int, req: Request) {
    && Stands(es, Api, pid, req.api)
    && exists k: nat :: FirstAt(Run(es), pid, k) && Run(es)[k].name == req.target && !Run(es)[k].suspend
  }

  ghost predicate Active(ms: seq<Info>, name: Name) { exists m :: m in ms && m.name == name && !m.suspend }

  lemma OffersIs(es: seq<Event>, pid: int, req: Request)
    ensures Offers(es, pid, req) <==> Fit(Run(es), pid, req)
  {
    var ms := Run(es);
    RunHolds(es);
    RegisteredExactly(es, Api, pid, req.api);
    HasIs(ms, Api, pid, req.api);
    hide Run;
    hide Stands;
    hide Has;
    hide FirstHolds;
    if Fit(ms, pid, req) {
      var m :| m in ms && m.pid == pid && m.name == req.target && !m.suspend && req.api in m.apis;
      var k :| 0 <= k < |ms| && ms[k] == m;
      HoldersAreFirst(ms, Api, pid, req.api, k);
    }
    if Offers(es, pid, req) {
      var k: nat :| FirstAt(ms, pid, k) && ms[k].name == req.target && !ms[k].suspend;
      FirstIsIndex(ms, pid, k);
      assert ms[k] in ms;
    }
  }

  /** Look-up by name, told by who is a member. */
  lemma ResolveFits(ms: seq<Info>, req: Request)
    requires Distinct(ms)
    ensures forall pid :: Fit(ms, pid, req) ==> Resolve(ms, req.target, req.api) == Provider(pid)
    ensures (forall pid :: !Fit(ms, pid, req)) ==>
      Resolve(ms, req.target, req.api) == if Active(ms, req.target) then NoApi else NoProgram
  {
    forall pid | Fit(ms, pid, req)
      ensures Resolve(ms, req.target, req.api) == Provider(pid)
    {
      var m :| m in ms && m.pid == pid && m.name == req.target && !m.suspend && req.api in m.apis;
      var k :| 0 <= k < |ms| && ms[k] == m;
      ResolveMeans(ms, req.target, req.api, k);
    }
    if Active(ms, req.target) {
      var m :| m in ms && m.name == req.target && !m.suspend;
      var k :| 0 <= k < |ms| && ms[k] == m;
      ResolveMeans(ms, req.target, req.api, k);
      assert req.api in m.apis ==> Fit(ms, m.pid, req);
    } else {
      var k := NameIndex(ms, req.target);
      assert k < |ms| ==> ms[k] in ms;
    }
  }

  lemma AckToIs(ms: seq<Info>, pid: int, id: nat, code: int)
    ensures AckTo(ms, pid, id, code, []) == if Present(ms, pid) then [AckPacket(pid, id, code, [])] else []
  {
    PresentIs(ms, pid);
  }

  /** From registration to relay: in runs whose joins skip nobody, the call in hand goes
      to the process that offers its API and becomes pending; if no process does, its
      caller, while a member, is told whether it is the API or the program that is
      missing. */
  lemma CallReaches(rules: Rules, steps: seq<Step>, s: System)
    requires Reaches(rules, steps, s) && rules.joins && s.held != []
    ensures var es, c := Happened(steps), s.held[0];
      && (forall pid :: Offers(es, pid, c.req) ==>
            Dispatch(s.server, c) == (s.server.(pending := s.server.pending + [c]), [RelayPacket(pid, c)]))
      && ((forall pid :: !Offers(es, pid, c.req)) ==>
            Dispatch(s.server, c) == (s.server,
              if !Present(Run(es), c.req.caller) then []
              else [AckPacket(c.req.caller, c.req.id, if Active(Run(es), c.req.target) then CANTFIND_API else CANTFIND_PROGRAM, [])]))
  {
    hide *;
    var es, c := Happened(steps), s.held[0];
    MembersFollow(rules, steps, s);
    MembersDistinct(rules, steps, s);
    forall pid
      ensures Offers(es, pid, c.req) <==> Fit(Run(es), pid, c.req)
    {
      OffersIs(es, pid, c.req);
    }
    ResolveFits(s.server.members, c.req);
    DispatchResolves(s.server, c);
    AckToIs(s.server.members, c.req.caller, c.req.id, CANTFIND_API);
    AckToIs(s.server.members, c.req.caller, c.req.id, CANTFIND_PROGRAM);
  }

  lemma MembersDistinct(rules: Rules, steps: seq<Step>, s: System)
    requires Reaches(rules, steps, s) && rules.joins
    ensures Distinct(s.server.members)
  {
    hide Reaches;
    hide Base;
    Reached(rules, steps, s);
    TidyIsDistinct(s.server.members);
  }

  /** Who produced a result was offering the API when the daemon dispatched the call, in
      every run whatsoever. */
  lemma RanByOfferer(rules: Rules, steps: seq<Step>, s: System, o: Outcome)
    requires Reaches(rules, steps, s) && o in s.past.outcomes
    ensures exists n: nat, b :: DispatchedAt(rules, steps, n, b, o.call) && Offers(Happened(steps[..n]), o.from, o.call.req)
  {
    hide Reaches;
    hide Fit;
    hide Offers;
    RanByProvider(rules, steps, s, o);
    var n: nat, b :| DispatchedAt(rules, steps, n, b, o.call) && Fit(b.server.members, o.from, o.call.req);
    MembersFollow(rules, steps[..n], b);
    OffersIs(Happened(steps[..n]), o.from, o.call.req);
  }

  // ----- in which order

  function Line(s: System): seq<Call> { s.held + s.server.queue }

  /** The calls in line carry the last numbers handed out, in rising order. */
  predicate Lined(s: System) {
    var line := Line(s);
    && |line| <= s.server.magic
    && forall k :: 0 <= k < |line| ==> line[k].magic == s.server.magic - |line| + k
  }

  lemma LineAfter(s: System, a: Step)
    requires Enabled(s, a) && |s.held| <= 1
    ensures var t, line := Next(s, a), Line(s);
      if a.TakeCall? && t.server.magic != s.server.magic then
        t.server.magic == s.server.magic + 1 && |Line(t)| == |line| + 1 && Line(t)[..|line|] == line
        && Line(t)[|line|].magic == s.server.magic
      else t.server.magic == s.server.magic && Line(t) == if a.Probing? then line[1..] else line
  {
    hide NextNet;
    hide NextHandles;
    hide NextPast;
    hide Probe;
    hide AckTo;
    hide MagicIndex;
    hide Registered;
    hide Touch;
    hide IsMember;
    hide Registry.Step;
    if a.Pull? {
      assert s.server.queue == [s.server.queue[0]] + s.server.queue[1..];
    }
  }

  /** First come, first served: in every run whatsoever, the calls not yet dispatched
      stand in the order in which the daemon took them in, without gaps; so the next one
      dispatched is the oldest. Each carries the request its number was given to. */
  lemma CallsInLine(rules: Rules, steps: seq<Step>, s: System)
    requires Reaches(rules, steps, s)
    ensures Lined(s) && |s.held| <= 1
    ensures |s.past.calls| == s.server.magic
    ensures forall k :: 0 <= k < |Line(s)| ==> Line(s)[k].req == s.past.calls[s.server.magic - |Line(s)| + k]
  {
    hide Reaches;
    hide Base;
    hide Lined;
    hide KeysOk;
    hide GenuineOk;
    hide ReportsOk;
    hide HandlesOk;
    LinedThroughout(rules, steps, s);
    HeldOne(rules, steps, s);
    Reached(rules, steps, s);
    BaseParts(s);
    CallsCounted(s);
    LineGenuine(s);
  }

  lemma LineGenuine(s: System)
    requires GenuineOk(s) && Lined(s) && |s.past.calls| == s.server.magic
    ensures |Line(s)| <= s.server.magic
    ensures forall k :: 0 <= k < |Line(s)| ==> Line(s)[k].req == s.past.calls[s.server.magic - |Line(s)| + k]
  {
    forall k | 0 <= k < |Line(s)|
      ensures Line(s)[k].req == s.past.calls[s.server.magic - |Line(s)| + k]
    {
      assert Line(s)[k] in s.held || Line(s)[k] in s.server.queue;
      assert Genuine(s.past.calls, Line(s)[k]);
    }
  }

  lemma {:induction false} LinedThroughout(rules: Rules, steps: seq<Step>, s: System)
    requires Reaches(rules, steps, s)
    ensures Lined(s)
    decreases |steps|
  {
    hide Next;
    hide Keeps;
    if steps != [] {
      var b :| Reaches(rules, Front(steps), b) && Moves(rules, b, Final(steps), s);
      LinedThroughout(rules, Front(steps), b);
      HeldOne(rules, Front(steps), b);
      LinedOn(b, Final(steps));
    }
  }

  lemma HeldOne(rules: Rules, steps: seq<Step>, s: System)
    requires Reaches(rules, steps, s)
    ensures |s.held| <= 1
  {
    hide Reaches;
    Reached(rules, steps, s);
  }

  lemma LinedOn(s: System, a: Step)
    requires Enabled(s, a) && |s.held| <= 1 && Lined(s)
    ensures Lined(Next(s, a))
  {
    LineAfter(s, a);
    hide Next;
    var t := Next(s, a);
    forall k | 0 <= k < |Line(t)|
      ensures Line(t)[k].magic == t.server.magic - |Line(t)| + k
    {
      if a.TakeCall? && t.server.magic != s.server.magic && k < |Line(s)| {
        assert Line(t)[k] == Line(t)[..|Line(s)|][k];
      }
    }
  }

  // ----- at the provider

  /** What a step is for a process: a call relayed to it is taken in, it starts to serve
      one, it has finished or ignored one. */
  function TakenNow(a: Step, pid: int): seq<Call> {
    match a
    case TakeRelay(p) => if p.RelayPacket? && p.to == pid then [p.call] else []
    case _ => []
  }

  function StartedNow(a: Step, pid: int): nat { if a == Start(pid) then 1 else 0 }

  function EndedNow(a: Step, pid: int): nat { if (a.Execute? || a.Ignore?) && a.pid == pid then 1 else 0 }

  function Taken(steps: seq<Step>, pid: int): seq<Call> {
    if steps == [] then [] else Taken(Front(steps), pid) + TakenNow(Final(steps), pid)
  }

  function Started(steps: seq<Step>, pid: int): nat {
    if steps == [] then 0 else Started(Front(steps), pid) + StartedNow(Final(steps), pid)
  }

  function Ended(steps: seq<Step>, pid: int): nat {
    if steps == [] then 0 else Ended(Front(steps), pid) + EndedNow(Final(steps), pid)
  }

  /** The calls taken in but not started are those waiting, in order; those started but
      not ended are running. */
  predicate Serves(taken: seq<Call>, started: nat, ended: nat, h: Handle) {
    && started <= |taken| && h.inbox == taken[started..]
    && |h.running| + ended == started && multiset(h.running) <= multiset(taken[..started])
  }

  predicate ServesAll(steps: seq<Step>, s: System, pid: int) {
    if pid in s.handles then Serves(Taken(steps, pid), Started(steps, pid), Ended(steps, pid), s.handles[pid])
    else Taken(steps, pid) == [] && Started(steps, pid) == 0 && Ended(steps, pid) == 0
  }

  /** What a step does to the calls a process has. */
  lemma CallsAfter(s: System, a: Step, pid: int)
    requires Enabled(s, a)
    ensures pid in s.handles ==> pid in Next(s, a).handles
    ensures pid in Next(s, a).handles && pid !in s.handles ==>
      a == Create(pid) && Next(s, a).handles[pid].inbox == [] && Next(s, a).handles[pid].running == []
    ensures pid in s.handles ==>
      Next(s, a).handles[pid].inbox ==
        if a.TakeRelay? && a.packet.to == pid then s.handles[pid].inbox + [a.packet.call]
        else if a == Start(pid) then s.handles[pid].inbox[1..]
        else s.handles[pid].inbox
    ensures (a.TakeRelay? && a.packet.to == pid) || a == Start(pid) ==> pid in s.handles
  {
    hide Serve;
    hide NextNet;
    hide NextPast;
    hide WaitIndex;
  }

  lemma RunningAfter(s: System, a: Step, pid: int)
    requires Enabled(s, a) && pid in s.handles
    ensures pid in Next(s, a).handles
    ensures Next(s, a).handles[pid].running ==
        if a == Start(pid) then s.handles[pid].running + [s.handles[pid].inbox[0]]
        else if (a.Execute? || a.Ignore?) && a.pid == pid then Cut(s.handles[pid].running, a.k)
        else s.handles[pid].running
    ensures (a.Execute? || a.Ignore?) && a.pid == pid ==> a.k < |s.handles[pid].running|
  {
    hide Serve;
    hide NextNet;
    hide NextPast;
    hide WaitIndex;
    hide Cut;
  }

  lemma ServeTaken(taken: seq<Call>, started: nat, ended: nat, h: Handle, g: Handle, call: Call)
    requires Serves(taken, started, ended, h) && g.inbox == h.inbox + [call] && g.running == h.running
    ensures Serves(taken + [call], started, ended, g)
  {
    assert (taken + [call])[started..] == taken[started..] + [call] && (taken + [call])[..started] == taken[..started];
  }

  lemma ServeStarted(taken: seq<Call>, started: nat, ended: nat, h: Handle, g: Handle)
    requires Serves(taken, started, ended, h) && h.inbox != []
    requires g.inbox == h.inbox[1..] && g.running == h.running + [h.inbox[0]]
    ensures Serves(taken, started + 1, ended, g)
  {
    assert taken[..started + 1] == taken[..started] + [h.inbox[0]];
    assert taken[started..][1..] == taken[started + 1..];
  }

  lemma ServeEnded(taken: seq<Call>, started: nat, ended: nat, h: Handle, g: Handle, k: nat)
    requires Serves(taken, started, ended, h) && k < |h.running| && g.inbox == h.inbox && g.running == Cut(h.running, k)
    ensures Serves(taken, started, ended + 1, g)
  {
    assert h.running == h.running[..k] + [h.running[k]] + h.running[k + 1..];
    assert multiset(h.running) == multiset(Cut(h.running, k)) + multiset{h.running[k]};
  }

  /** Only the calls matter. */
  lemma ServeSame(taken: seq<Call>, started: nat, ended: nat, h: Handle, g: Handle)
    requires Serves(taken, started, ended, h) && h.inbox == g.inbox && h.running == g.running
    ensures Serves(taken, started, ended, g)
  {
  }

  lemma StepKinds(s: System, a: Step, pid: int)
    requires Enabled(s, a)
    ensures a.TakeRelay? && a.packet.to == pid ==> TakenNow(a, pid) == [a.packet.call] && StartedNow(a, pid) == EndedNow(a, pid) == 0
    ensures a == Start(pid) ==> TakenNow(a, pid) == [] && StartedNow(a, pid) == 1 && EndedNow(a, pid) == 0
    ensures a == Start(pid) ==> pid in s.handles && s.handles[pid].inbox != []
    ensures (a.Execute? || a.Ignore?) && a.pid == pid ==>
      TakenNow(a, pid) == [] && StartedNow(a, pid) == 0 && EndedNow(a, pid) == 1 && pid in s.handles
    ensures !(a.TakeRelay? && a.packet.to == pid) && a != Start(pid) && !((a.Execute? || a.Ignore?) && a.pid == pid) ==>
      TakenNow(a, pid) == [] && StartedNow(a, pid) == EndedNow(a, pid) == 0
  {
  }

  lemma RelayStep(s: System, a: Step)
    requires Enabled(s, a)
    ensures a.TakeRelay? ==> a.packet.RelayPacket?
  {
  }

  lemma ServeTurn(b: System, a: Step, pid: int, taken: seq<Call>, n: nat, ended: nat)
    requires Enabled(b, a) && pid in b.handles && Serves(taken, n, ended, b.handles[pid])
    ensures pid in Next(b, a).handles
    ensures Serves(taken + TakenNow(a, pid), n + StartedNow(a, pid), ended + EndedNow(a, pid), Next(b, a).handles[pid])
  {
    hide *;
    RelayStep(b, a);
    CallsAfter(b, a, pid);
    RunningAfter(b, a, pid);
    StepKinds(b, a, pid);
    assert taken + [] == taken;
    var h, g := b.handles[pid], Next(b, a).handles[pid];
    if a.TakeRelay? && a.packet.to == pid {
      ServeTaken(taken, n, ended, h, g, a.packet.call);
    } else if a == Start(pid) {
      ServeStarted(taken, n, ended, h, g);
    } else if (a.Execute? || a.Ignore?) && a.pid == pid {
      ServeEnded(taken, n, ended, h, g, a.k);
    } else {
      ServeSame(taken, n, ended, h, g);
    }
  }

  lemma ServesOn(steps: seq<Step>, b: System, s: System, rules: Rules, pid: int)
    requires steps != [] && Moves(rules, b, Final(steps), s) && ServesAll(Front(steps), b, pid)
    ensures ServesAll(steps, s, pid)
  {
    hide Next;
    hide Enabled;
    hide Keeps;
    hide Serves;
    hide TakenNow;
    hide StartedNow;
    hide EndedNow;
    var a := Final(steps);
    CallsAfter(b, a, pid);
    StepKinds(b, a, pid);
    if pid in b.handles {
      ServeTurn(b, a, pid, Taken(Front(steps), pid), Started(Front(steps), pid), Ended(Front(steps), pid));
    } else if pid in s.handles {
      NewServes(s.handles[pid]);
    }
  }

  lemma NewServes(h: Handle)
    requires h.inbox == [] && h.running == []
    ensures Serves([], 0, 0, h)
  {
  }

  /** In every run whatsoever, a provider starts its calls in the order in which they
      came: the next one is the oldest not yet started; and what it has started it runs
      until it ends. */
  lemma {:induction false} ServedInOrder(rules: Rules, steps: seq<Step>, s: System, pid: int)
    requires Reaches(rules, steps, s)
    ensures ServesAll(steps, s, pid)
    decreases |steps|
  {
    hide Moves;
    hide ServesAll;
    if steps == [] {
      NoneTaken(pid);
    } else {
      var b :| Reaches(rules, Front(steps), b) && Moves(rules, b, Final(steps), s);
      ServedInOrder(rules, Front(steps), b, pid);
      ServesOn(steps, b, s, rules, pid);
    }
  }

  lemma NoneTaken(pid: int)
    ensures ServesAll([], InitialSystem(), pid)
  {
  }
}
