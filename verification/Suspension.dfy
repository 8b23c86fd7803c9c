/**
 Suspension: when a member counts as silent. That needs process ids apart, which is
 less than distinct members.
 */
module Suspension {
  import opened Members
  import opened Registry
  import opened JoinScan

  // ----- process ids apart in whole runs

  predicate OwnSkipFree(ms: seq<Info>, e: Event) {
    e.Joining? ==> !(Accepts(ms, e.pid, e.name) && SkipsOwn(ms, e.pid, e.name))
  }

  /** No join of the run accepts a process whose former membership it skipped. */
  predicate NoOwnSkips(es: seq<Event>) {
    es == [] || (NoOwnSkips(es[..|es| - 1]) && OwnSkipFree(Run(es[..|es| - 1]), es[|es| - 1]))
  }

  predicate AlwaysApart(es: seq<Event>) {
    PidsApart(Run(es)) && (es == [] || AlwaysApart(es[..|es| - 1]))
  }

  lemma StepApart(ms: seq<Info>, e: Event)
    requires PidsApart(ms) && !e.Joining?
    ensures PidsApart(Step(ms, e))
  {
    if e.Leaving? {
      var i := IndexOf(ms, e.pid);
      if i < |ms| {
        CutOne(ms, i, e.pid, "");
      }
    }
  }

  /** Process ids are apart at every point of a run if and only if none of its joins
      accepts a process whose former membership it skips. */
  lemma {:induction false} ApartExactly(es: seq<Event>)
    ensures AlwaysApart(es) <==> NoOwnSkips(es)
    decreases |es|
  {
    if es != [] {
      var before, e := es[..|es| - 1], es[|es| - 1];
      ApartExactly(before);
      if PidsApart(Run(before)) {
        if e.Joining? {
          JoinKeepsPids(Run(before), e.pid, e.name);
        } else {
          StepApart(Run(before), e);
        }
      }
    }
  }

  // ----- suspension

  /** A sign of life of pid: an accepted join, or a LIVE, API_CALL or MSG_SEND packet. */
  predicate Resets(ms: seq<Info>, e: Event, pid: int) {
    e == Alive(pid) || (e.Joining? && e.pid == pid && Join(ms, pid, e.name).accepted)
  }

  /** The sweeps in the run since the last sign of life of pid. */
  function SweepsSince(es: seq<Event>, pid: int): nat {
    if es == [] then 0
    else
      var before, e := es[..|es| - 1], es[|es| - 1];
      if e.Sweeping? then SweepsSince(before, pid) + 1
      else if Resets(Run(before), e, pid) then 0
      else SweepsSince(before, pid)
  }

  /** What the counters must say of a member. */
  predicate Counted(m: Info, sweeps: nat) { m.live == sweeps && (m.suspend <==> sweeps >= 16) }

  lemma JoinCounters(ms: seq<Info>, e: Event, m: Info)
    requires e.Joining? && PidsApart(Step(ms, e)) && m in Step(ms, e)
    ensures if Join(ms, e.pid, e.name).accepted && m.pid == e.pid then m.live == 0 && !m.suspend else m in ms
  {
    JoinKeepsMembers(ms, 0, e.pid, e.name);
    if Join(ms, e.pid, e.name).accepted {
      JoinAdds(ms, 0, e.pid, e.name);
      var all := Join(ms, e.pid, e.name).members;
      var k :| 0 <= k < |all| && all[k] == m;
    }
  }

  lemma {:induction false} JoinAdds(ms: seq<Info>, i: nat, pid: int, name: Name)
    ensures var r := JoinFrom(ms, i, pid, name);
      r.accepted ==> |r.members| > 0 && r.members[|r.members| - 1] == Newcomer(pid, name)
    decreases |ms| - i
  {
    if i < |ms| {
      if !Conflicts(ms[i], pid, name) {
        JoinAdds(ms, i + 1, pid, name);
      } else if ms[i].suspend {
        JoinAdds(Evict(ms, ms[i], pid, name), i + 1, pid, name);
      }
    }
  }

  /** The other steps leave the counters alone. */
  lemma SameCounters(ms: seq<Info>, e: Event, m: Info)
    requires m in Step(ms, e) && !e.Joining? && !e.Sweeping? && !e.Alive?
    ensures exists n :: n in ms && n.pid == m.pid && n.live == m.live && n.suspend == m.suspend
  {
    if e.Leaving? {
      assert m in ms;
    } else {
      var k :| 0 <= k < |ms| && m == Step(ms, e)[k];
      assert ms[k] in ms;
    }
  }

  lemma TouchCounters(ms: seq<Info>, e: Event, m: Info)
    requires PidsApart(ms) && e.Alive? && m in Step(ms, e)
    ensures if m.pid == e.pid then m.live == 0 && !m.suspend else m in ms
  {
    var k :| 0 <= k < |ms| && m == Touch(ms, e.pid)[k];
    assert ms[k] in ms;
  }

  lemma SweepCounters(ms: seq<Info>, e: Event, m: Info)
    requires e.Sweeping? && m in Step(ms, e)
    ensures exists n :: n in ms && m == Aged(n)
  {
    var k :| 0 <= k < |ms| && m == Sweep(ms)[k];
    assert ms[k] in ms;
  }

  /** The member of ms that became m by step e, if its counters were not reset. */
  ghost predicate CameFrom(ms: seq<Info>, e: Event, n: Info, m: Info) {
    n in ms && n.pid == m.pid
    && if e.Sweeping? then m == Aged(n) else n.live == m.live && n.suspend == m.suspend
  }

  lemma Origin(ms: seq<Info>, e: Event, m: Info)
    requires PidsApart(ms) && PidsApart(Step(ms, e)) && m in Step(ms, e)
    ensures if Resets(ms, e, m.pid) then m.live == 0 && !m.suspend else exists n :: CameFrom(ms, e, n, m)
  {
    if e.Joining? {
      JoinCounters(ms, e, m);
      assert m in ms ==> CameFrom(ms, e, m, m);
    } else if e.Sweeping? {
      SweepCounters(ms, e, m);
      var n :| n in ms && m == Aged(n);
      assert CameFrom(ms, e, n, m);
    } else if e.Alive? {
      TouchCounters(ms, e, m);
      assert m in ms ==> CameFrom(ms, e, m, m);
    } else {
      SameCounters(ms, e, m);
      var n :| n in ms && n.pid == m.pid && n.live == m.live && n.suspend == m.suspend;
      assert CameFrom(ms, e, n, m);
    }
  }

  /** Suspension is exact: after every run that keeps process ids apart, joins skipping
      namesakes or not, a member is suspended if and only if at least 16 sweeps have
      passed since its last sign of life. */
  lemma {:induction false} SuspendedExactly(es: seq<Event>, m: Info)
    requires AlwaysApart(es) && m in Run(es)
    ensures Counted(m, SweepsSince(es, m.pid))
    decreases |es|
  {
    var before, e := es[..|es| - 1], es[|es| - 1];
    Origin(Run(before), e, m);
    if !Resets(Run(before), e, m.pid) {
      var n :| CameFrom(Run(before), e, n, m);
      SuspendedExactly(before, n);
    }
  }

  // ----- a run that does not

  lemma AgainJoins()
    ensures var a, b := Info(1, "A", 16, true, [], []), Info(2, "B", 16, true, [], []);
      Join([a, b], 2, "A") == Joined([b, Newcomer(2, "A")], true)
  {
    var a, b := Info(1, "A", 16, true, [], []), Info(2, "B", 16, true, [], []);
    assert "A" != "B" by { assert "A"[0] != "B"[0]; }
    JoinAt([a, b], 0, 2, "A");
    assert Cut([a, b], 0) == [b];
    assert JoinFrom([b], 1, 2, "A") == Joined([b] + [Newcomer(2, "A")], true);
  }

  /** Processes 1 and 2 join as A and B and fall silent for 16 sweeps, then process 2
      joins as A: its old entry stays, suspended, though its process has just given a
      sign of life. */
  lemma RunLeavesFreshSuspended()
    ensures var es := [Joining(1, "A"), Joining(2, "B")] + Sweeps(16) + [Joining(2, "A")];
      && Run(es) == [Info(2, "B", 16, true, [], []), Newcomer(2, "A")]
      && SweepsSince(es, 2) == 0 && !Counted(Run(es)[0], SweepsSince(es, 2)) && !AlwaysApart(es)
  {
    hide *;
    var joins := [Joining(1, "A"), Joining(2, "B")];
    AfterSixteen(joins);
    AgainJoins();
    JoinEnds(joins + Sweeps(16), 2, "A");
    LateCount(Info(2, "B", 16, true, [], []));
    NotApart(joins + Sweeps(16) + [Joining(2, "A")], Info(2, "B", 16, true, [], []), "A");
  }

  lemma JoinEnds(es: seq<Event>, pid: int, name: Name)
    ensures Run(es + [Joining(pid, name)]) == Join(Run(es), pid, name).members
    ensures Join(Run(es), pid, name).accepted ==> SweepsSince(es + [Joining(pid, name)], pid) == 0
  {
    assert (es + [Joining(pid, name)])[..|es|] == es;
  }

  lemma LateCount(m: Info)
    ensures m.suspend ==> !Counted(m, 0)
  {
  }

  lemma NotApart(es: seq<Event>, a: Info, name: Name)
    requires Run(es) == [a, Newcomer(a.pid, name)]
    ensures !AlwaysApart(es)
  {
    assert Run(es)[0].pid == Run(es)[1].pid;
  }
}
