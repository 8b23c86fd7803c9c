/**
 A run of the broker in which a call is woken with the result of another: a provider
 unregisters its API between running a call and reporting it, while a call of its own
 waits under the same ack id.
 */
module Misdirection {
  import opened CText
  import opened Members
  import opened Registry
  import opened Calls
  import opened Broker
  import opened BrokerLaws

  const ANY_STEP := Rules(false, false, false, false)

  lemma Then(steps: seq<Step>, s: System, a: Step)
    requires Reaches(ANY_STEP, steps, s) && Enabled(s, a)
    ensures Reaches(ANY_STEP, steps + [a], Next(s, a))
  {
    hide Next;
    var all := steps + [a];
    assert Front(all) == steps && Final(all) == a;
    assert Moves(ANY_STEP, s, a, Next(s, a));
  }

  // ----- the parts of the run

  /** The call of process 1 that process 2 serves, and the one of process 2 that nobody
      ever takes. */
  const SERVED := Request(1, 0, "b", "f", [], 0)
  const WAITING := Request(2, 0, "x", "g", [], 0)

  const CALL := Call(SERVED, 0, TIMEOUT_MAX)

  const RESULT := FinishPacket(2, "f", 0, 0, ACK_OK, [7])

  const A := Newcomer(1, "a")
  const B := Newcomer(2, "b")

  function Idle(): Handle { Handle(0, [], map[], [], []) }

  function Parked(): Handle { Handle(1, [0], map[], [], []) }

  function Joining2(): seq<Step> {
    [Create(1), Create(2), Membership(Joining(1, "a")), Membership(Joining(2, "b")), Membership(RegisteringApi(2, "f"))]
  }

  function Calling(): seq<Step> {
    [Begin(2, "x", "g", [], 0), Begin(1, "b", "f", [], 0), TakeCall(CallPacket(SERVED)), Pull, Probing]
  }

  function Serving(): seq<Step> {
    [TakeRelay(RelayPacket(2, CALL)), Start(2), Execute(2, 0, ACK_OK, [7]), Membership(UnregisteringApi(2, "f"))]
  }

  function Reporting(): seq<Step> { [TakeFinish(RESULT), TakeAck(AckPacket(2, 0, ACK_OK, [7]))] }

  lemma MembershipIs(s: System, e: Event)
    ensures Enabled(s, Membership(e))
    ensures var t := Next(s, Membership(e));
      && t.server == s.server.(members := Registry.Step(s.server.members, e)) && t.held == s.held && t.handles == s.handles
      && t.past.outcomes == s.past.outcomes && t.past.made == s.past.made && s.net <= t.net
  {
    hide Registry.Step;
    hide Closing;
    hide AckKeys;
  }

  lemma Names()
    ensures "a" != "b"
  {
    assert "a"[0] != "b"[0];
  }

  lemma JoinFirst()
    ensures Registry.Step([], Joining(1, "a")) == [A]
  {
    JoinFree([], 0, 1, "a");
  }

  lemma JoinSecond()
    ensures Registry.Step([A], Joining(2, "b")) == [A, B]
  {
    Names();
    JoinFree([A], 0, 2, "b");
  }

  lemma Registers()
    ensures Registry.Step([A, B], RegisteringApi(2, "f")) == [A, B.(apis := ["f"])]
    ensures Registry.Step([A, B.(apis := ["f"])], UnregisteringApi(2, "f")) == [A, B]
  {
    IndexOfIs([A, B], 2, 1);
    assert Add([], "f") == ["f"] by {
      assert [] + ["f"] == ["f"];
    }
    var ms := [A, B.(apis := ["f"])];
    assert ApiOwner(ms, 2, "f") == 1 by {
      assert ms[1..] == [ms[1]];
    }
    assert Drop(["f"], "f") == [];
    assert ms[1 := B] == [A, B];
  }

  lemma CreateIs(s: System, pid: int)
    requires pid !in s.handles
    ensures Enabled(s, Create(pid))
    ensures var t := Next(s, Create(pid));
      && t.server == s.server && t.held == s.held && t.handles == s.handles[pid := Idle()]
      && t.past.outcomes == s.past.outcomes && t.past.made == s.past.made
  {
  }

  lemma Joined2() returns (s: System)
    ensures Reaches(ANY_STEP, Joining2(), s)
    ensures s.server == Server([A, B.(apis := ["f"])], [], [], 0) && s.held == [] && s.handles == map[1 := Idle(), 2 := Idle()]
    ensures s.past.outcomes == {}
  {
    hide Next;
    hide Enabled;
    hide Registry.Step;
    var s0 := InitialSystem();
    CreateIs(s0, 1);
    Then([], s0, Create(1));
    var s1 := Next(s0, Create(1));
    CreateIs(s1, 2);
    Then([] + [Create(1)], s1, Create(2));
    var s2 := Next(s1, Create(2));
    MembershipIs(s2, Joining(1, "a"));
    Then([] + [Create(1)] + [Create(2)], s2, Membership(Joining(1, "a")));
    var s3 := Next(s2, Membership(Joining(1, "a")));
    JoinFirst();
    MembershipIs(s3, Joining(2, "b"));
    Then([] + [Create(1)] + [Create(2)] + [Membership(Joining(1, "a"))], s3, Membership(Joining(2, "b")));
    var s4 := Next(s3, Membership(Joining(2, "b")));
    JoinSecond();
    MembershipIs(s4, RegisteringApi(2, "f"));
    Then([] + [Create(1)] + [Create(2)] + [Membership(Joining(1, "a"))] + [Membership(Joining(2, "b"))], s4,
         Membership(RegisteringApi(2, "f")));
    s := Next(s4, Membership(RegisteringApi(2, "f")));
    Registers();
    assert [] + [Create(1)] + [Create(2)] + [Membership(Joining(1, "a"))] + [Membership(Joining(2, "b"))]
         + [Membership(RegisteringApi(2, "f"))] == Joining2();
  }

  // ----- two calls are made, and one of them is dispatched

  lemma BeginIs(s: System, req: Request)
    requires req.caller in s.handles && req.id == s.handles[req.caller].nextId
    ensures var a := Begin(req.caller, req.target, req.api, req.data, req.timeout);
      && Enabled(s, a) && var t := Next(s, a);
      && t.server == s.server && t.held == s.held && t.handles == s.handles[req.caller := Wait(s.handles[req.caller])]
      && t.past.outcomes == s.past.outcomes && t.past.made == s.past.made + {req}
      && CallPacket(req) in t.net
  {
  }

  lemma TakeFirst(s: System, ms: seq<Info>)
    requires CallPacket(SERVED) in s.net && s.server == Server(ms, [], [], 0) && s.held == [] && IsMember(ms, 1)
    ensures var a := TakeCall(CallPacket(SERVED));
      && Enabled(s, a) && var t := Next(s, a);
      && t.server == Server(Touch(ms, 1), [CALL], [], 1) && t.held == [] && t.handles == s.handles
      && t.past.outcomes == s.past.outcomes && t.past.made == s.past.made
  {
    hide Touch;
    hide IsMember;
  }

  lemma PullFirst(s: System, ms: seq<Info>)
    requires s.server == Server(ms, [CALL], [], 1) && s.held == []
    ensures Enabled(s, Pull) && var t := Next(s, Pull);
      && t.server == Server(ms, [], [], 1) && t.held == [CALL] && t.handles == s.handles
      && t.past.outcomes == s.past.outcomes && t.past.made == s.past.made
  {
  }

  lemma ProbeFirst(s: System, ms: seq<Info>)
    requires s.server == Server(ms, [], [], 1) && s.held == [CALL] && Probe(ms, "b", "f") == ([2], true)
    ensures Enabled(s, Probing) && var t := Next(s, Probing);
      && t.server == Server(ms, [], [CALL], 1) && t.held == [] && t.handles == s.handles
      && t.past.outcomes == s.past.outcomes && t.past.made == s.past.made && RelayPacket(2, CALL) in t.net
  {
    hide Probe;
    assert Relays([2], CALL) == [RelayPacket(2, CALL)];
    assert Copies(CALL, 1) == [CALL] && [] + [CALL] == [CALL];
    hide NextHandles;
    assert Serve(s, Probing) == (Server(ms, [], [CALL], 1), [RelayPacket(2, CALL)]);
    assert RelayPacket(2, CALL) in Sent([RelayPacket(2, CALL)]);
  }

  lemma Providing()
    ensures var ms := [A, B.(apis := ["f"])];
      IsMember(ms, 1) && Touch(ms, 1) == ms && Probe(ms, "b", "f") == ([2], true)
  {
    var ms := [A, B.(apis := ["f"])];
    Names();
    IndexOfIs(ms, 1, 0);
    assert ProbeFrom(ms, 2, "b", "f") == ([], false);
    assert [2] + [] == [2];
    assert ProbeFrom(ms, 1, "b", "f") == ([2], true);
  }

  lemma Called2() returns (s: System)
    ensures Reaches(ANY_STEP, Joining2() + Calling(), s)
    ensures s.server == Server([A, B.(apis := ["f"])], [], [CALL], 1) && s.held == [] && s.handles == map[1 := Parked(), 2 := Parked()]
    ensures s.past.outcomes == {} && WAITING in s.past.made && RelayPacket(2, CALL) in s.net
  {
    hide Reaches;
    hide Next;
    hide Enabled;
    hide Probe;
    hide Joining2;
    var ms := [A, B.(apis := ["f"])];
    Providing();
    var s0 := Joined2();
    var j := Joining2();
    BeginIs(s0, WAITING);
    Then(j, s0, Begin(2, "x", "g", [], 0));
    var s1 := Next(s0, Begin(2, "x", "g", [], 0));
    BeginIs(s1, SERVED);
    Then(j + [Begin(2, "x", "g", [], 0)], s1, Begin(1, "b", "f", [], 0));
    var s2 := Next(s1, Begin(1, "b", "f", [], 0));
    assert [] + [0] == [0];
    assert s2.handles == map[1 := Parked(), 2 := Parked()];
    TakeFirst(s2, ms);
    Then(j + [Begin(2, "x", "g", [], 0)] + [Begin(1, "b", "f", [], 0)], s2, TakeCall(CallPacket(SERVED)));
    var s3 := Next(s2, TakeCall(CallPacket(SERVED)));
    PullFirst(s3, ms);
    Then(j + [Begin(2, "x", "g", [], 0)] + [Begin(1, "b", "f", [], 0)] + [TakeCall(CallPacket(SERVED))], s3, Pull);
    var s4 := Next(s3, Pull);
    ProbeFirst(s4, ms);
    Then(j + [Begin(2, "x", "g", [], 0)] + [Begin(1, "b", "f", [], 0)] + [TakeCall(CallPacket(SERVED))] + [Pull], s4, Probing);
    s := Next(s4, Probing);
    assert j + [Begin(2, "x", "g", [], 0)] + [Begin(1, "b", "f", [], 0)] + [TakeCall(CallPacket(SERVED))] + [Pull] + [Probing]
        == j + Calling();
  }

  // ----- it is served, and the API unregistered

  lemma RelayIs(s: System)
    requires RelayPacket(2, CALL) in s.net && 2 in s.handles && s.handles[2] == Parked()
    ensures var a := TakeRelay(RelayPacket(2, CALL));
      && Enabled(s, a) && var t := Next(s, a);
      && t.server == s.server && t.held == s.held && 2 in t.handles && t.handles[2] == Parked().(inbox := [CALL])
      && t.past.outcomes == s.past.outcomes && t.past.made == s.past.made
  {
    assert [] + [CALL] == [CALL];
  }

  lemma StartIs(s: System)
    requires 2 in s.handles && s.handles[2] == Parked().(inbox := [CALL])
    ensures Enabled(s, Start(2)) && var t := Next(s, Start(2));
      && t.server == s.server && t.held == s.held && 2 in t.handles && t.handles[2] == Parked().(running := [CALL])
      && t.past.outcomes == s.past.outcomes && t.past.made == s.past.made
  {
    assert [] + [CALL] == [CALL] && [CALL][1..] == [];
  }

  lemma ExecuteIs(s: System)
    requires 2 in s.handles && s.handles[2] == Parked().(running := [CALL])
    ensures var a := Execute(2, 0, ACK_OK, [7]);
      && Enabled(s, a) && var t := Next(s, a);
      && t.server == s.server && t.held == s.held && 2 in t.handles && t.handles[2] == Parked()
      && t.past.outcomes == s.past.outcomes + {Outcome(CALL, 2, ACK_OK, [7])} && t.past.made == s.past.made && RESULT in t.net
  {
    assert Cut([CALL], 0) == [];
  }

  lemma Served2() returns (s: System)
    ensures Reaches(ANY_STEP, Joining2() + Calling() + Serving(), s)
    ensures s.server == Server([A, B], [], [CALL], 1) && 2 in s.handles && s.handles[2] == Parked()
    ensures s.past.outcomes == {Outcome(CALL, 2, ACK_OK, [7])} && WAITING in s.past.made && RESULT in s.net
  {
    hide Reaches;
    hide Next;
    hide Enabled;
    hide Joining2;
    hide Calling;
    hide Registry.Step;
    var s0 := Called2();
    var j := Joining2() + Calling();
    RelayIs(s0);
    Then(j, s0, TakeRelay(RelayPacket(2, CALL)));
    var s1 := Next(s0, TakeRelay(RelayPacket(2, CALL)));
    StartIs(s1);
    Then(j + [TakeRelay(RelayPacket(2, CALL))], s1, Start(2));
    var s2 := Next(s1, Start(2));
    ExecuteIs(s2);
    Then(j + [TakeRelay(RelayPacket(2, CALL))] + [Start(2)], s2, Execute(2, 0, ACK_OK, [7]));
    var s3 := Next(s2, Execute(2, 0, ACK_OK, [7]));
    MembershipIs(s3, UnregisteringApi(2, "f"));
    Then(j + [TakeRelay(RelayPacket(2, CALL))] + [Start(2)] + [Execute(2, 0, ACK_OK, [7])], s3, Membership(UnregisteringApi(2, "f")));
    s := Next(s3, Membership(UnregisteringApi(2, "f")));
    Registers();
    assert j + [TakeRelay(RelayPacket(2, CALL))] + [Start(2)] + [Execute(2, 0, ACK_OK, [7])] + [Membership(UnregisteringApi(2, "f"))]
        == j + Serving();
  }

  // ----- it is reported

  lemma Unserved()
    ensures IsMember([A, B], 2) && !Registered([A, B], 2, "f")
  {
    IndexOfIs([A, B], 2, 1);
  }

  lemma WakeIs(s: System)
    requires AckPacket(2, 0, ACK_OK, [7]) in s.net && 2 in s.handles && s.handles[2] == Parked()
    ensures var a := TakeAck(AckPacket(2, 0, ACK_OK, [7]));
      && Enabled(s, a) && var t := Next(s, a);
      && 2 in t.handles && t.handles[2].woken == map[0 := Reply(ACK_OK, [7])]
      && t.past.outcomes == s.past.outcomes && t.past.made == s.past.made && t.server == s.server
  {
  }

  lemma ReportIs(s: System)
    requires RESULT in s.net && s.server == Server([A, B], [], [CALL], 1)
    ensures var a := TakeFinish(RESULT);
      && Enabled(s, a) && var t := Next(s, a);
      && t.handles == s.handles && t.server == s.server && AckPacket(2, 0, ACK_OK, [7]) in t.net
      && t.past.outcomes == s.past.outcomes && t.past.made == s.past.made
  {
    Unserved();
    hide Registered;
    hide IsMember;
    assert Serve(s, TakeFinish(RESULT)) == (s.server, [AckPacket(2, 0, ACK_OK, [7])]);
    assert AckPacket(2, 0, ACK_OK, [7]) in Sent([AckPacket(2, 0, ACK_OK, [7])]);
  }

  lemma Woken2() returns (s: System)
    ensures Reaches(ANY_STEP, Joining2() + Calling() + Serving() + Reporting(), s)
    ensures 2 in s.handles && s.handles[2].woken == map[0 := Reply(ACK_OK, [7])] && WAITING in s.past.made
    ensures s.past.outcomes == {Outcome(CALL, 2, ACK_OK, [7])} && s.server.pending == [CALL]
  {
    hide Reaches;
    hide Next;
    hide Enabled;
    hide Joining2;
    hide Calling;
    hide Serving;
    var s0 := Served2();
    var j := Joining2() + Calling() + Serving();
    ReportIs(s0);
    Then(j, s0, TakeFinish(RESULT));
    var s1 := Next(s0, TakeFinish(RESULT));
    WakeIs(s1);
    Then(j + [TakeFinish(RESULT)], s1, TakeAck(AckPacket(2, 0, ACK_OK, [7])));
    s := Next(s1, TakeAck(AckPacket(2, 0, ACK_OK, [7])));
    assert j + [TakeFinish(RESULT)] + [TakeAck(AckPacket(2, 0, ACK_OK, [7]))] == j + Reporting();
  }

  /** The call of process 2, which nobody has taken, is woken with the result process 2
      itself produced for the call of process 1; no function has returned anything for
      it. And the call of process 1 is still pending. */
  ghost predicate Astray(s: System) {
    && WAITING in s.past.made && 2 in s.handles && s.handles[2].woken == map[0 := Reply(ACK_OK, [7])]
    && (forall code, bytes :: !Produced(s.past, KeyOf(WAITING), code, bytes))
    && Outcome(CALL, 2, ACK_OK, [7]) in s.past.outcomes && s.server.pending == [CALL]
  }

  /** A run from nothing that ends so. */
  lemma RunWakesAnother()
    ensures exists s :: Reaches(ANY_STEP, Joining2() + Calling() + Serving() + Reporting(), s) && Astray(s)
  {
    hide Reaches;
    hide Joining2;
    hide Calling;
    hide Serving;
    hide Reporting;
    var s := Woken2();
    assert Astray(s);
  }
}
