/**
 Runs of the member list: any sequence of joins, exits, registrations, packets that
 prove a member alive, and liveness sweeps.
 */
module Registry {
  import opened Members

  datatype Event =
    | Joining(pid: int, name: Name)
    | Leaving(pid: int)
    | Alive(pid: int)
    | RegisteringApi(pid: int, entry: Name)
    | UnregisteringApi(pid: int, entry: Name)
    | RegisteringMsg(pid: int, entry: Name)
    | UnregisteringMsg(pid: int, entry: Name)
    | Sweeping

  /** A LIVE, API_CALL or MSG_SEND packet of a member. */
  function Touch(ms: seq<Info>, pid: int): seq<Info> {
    var i := IndexOf(ms, pid);
    if i < |ms| then ms[i := ms[i].(live := 0, suspend := false)] else ms
  }

  function Aged(m: Info): Info { m.(live := m.live + 1, suspend := m.suspend || m.live > LIVE_TIMEOUT_NUM) }

  /** One pass of ipc_live_thread. */
  function Sweep(ms: seq<Info>): (r: seq<Info>)
    ensures |r| == |ms| && forall k :: 0 <= k < |ms| ==> r[k] == Aged(ms[k])
  {
    seq(|ms|, k requires 0 <= k < |ms| => Aged(ms[k]))
  }

  function RegisterApi(ms: seq<Info>, pid: int, entry: Name): seq<Info> {
    var i := IndexOf(ms, pid);
    if i < |ms| then ms[i := ms[i].(apis := Add(ms[i].apis, entry))] else ms
  }

  function RegisterMsg(ms: seq<Info>, pid: int, entry: Name): seq<Info> {
    var i := IndexOf(ms, pid);
    if i < |ms| then ms[i := ms[i].(msgs := Add(ms[i].msgs, entry))] else ms
  }

  /** The first member with this process id that registered the API. */
  function ApiOwner(ms: seq<Info>, pid: int, entry: Name): (r: nat)
    ensures r <= |ms| && (r < |ms| ==> ms[r].pid == pid && entry in ms[r].apis)
    ensures forall k :: 0 <= k < r ==> !(ms[k].pid == pid && entry in ms[k].apis)
  {
    if ms == [] || (ms[0].pid == pid && entry in ms[0].apis) then 0 else 1 + ApiOwner(ms[1..], pid, entry)
  }

  function MsgOwner(ms: seq<Info>, pid: int, entry: Name): (r: nat)
    ensures r <= |ms| && (r < |ms| ==> ms[r].pid == pid && entry in ms[r].msgs)
    ensures forall k :: 0 <= k < r ==> !(ms[k].pid == pid && entry in ms[k].msgs)
  {
    if ms == [] || (ms[0].pid == pid && entry in ms[0].msgs) then 0 else 1 + MsgOwner(ms[1..], pid, entry)
  }

  function UnregisterApi(ms: seq<Info>, pid: int, entry: Name): seq<Info> {
    var i := ApiOwner(ms, pid, entry);
    if i < |ms| then ms[i := ms[i].(apis := Drop(ms[i].apis, entry))] else ms
  }

  function UnregisterMsg(ms: seq<Info>, pid: int, entry: Name): seq<Info> {
    var i := MsgOwner(ms, pid, entry);
    if i < |ms| then ms[i := ms[i].(msgs := Drop(ms[i].msgs, entry))] else ms
  }

  function Step(ms: seq<Info>, e: Event): seq<Info> {
    match e
    case Joining(pid, name) => Join(ms, pid, name).members
    case Leaving(pid) => WithoutPid(ms, pid)
    case Alive(pid) => Touch(ms, pid)
    case RegisteringApi(pid, entry) => RegisterApi(ms, pid, entry)
    case UnregisteringApi(pid, entry) => UnregisterApi(ms, pid, entry)
    case RegisteringMsg(pid, entry) => RegisterMsg(ms, pid, entry)
    case UnregisteringMsg(pid, entry) => UnregisterMsg(ms, pid, entry)
    case Sweeping => Sweep(ms)
  }

  /** The member list after a run of the daemon. */
  function Run(es: seq<Event>): seq<Info> {
    if es == [] then [] else Step(Run(es[..|es| - 1]), es[|es| - 1])
  }

  // ----- what every run keeps

  /** Distinct process ids and names; no name registered twice by one member. */
  predicate Tidy(ms: seq<Info>) {
    Distinct(ms) && forall k :: 0 <= k < |ms| ==> Unique(ms[k].apis) && Unique(ms[k].msgs)
  }

  predicate SkipFree(ms: seq<Info>, e: Event) { e.Joining? ==> !Skips(ms, e.pid, e.name) }

  /** At no join of the run does a suspended conflicting member stand right in front
      of another conflicting one. */
  predicate NoSkips(es: seq<Event>) {
    es == [] || (NoSkips(es[..|es| - 1]) && SkipFree(Run(es[..|es| - 1]), es[|es| - 1]))
  }

  predicate AlwaysDistinct(es: seq<Event>) {
    Distinct(Run(es)) && (es == [] || AlwaysDistinct(es[..|es| - 1]))
  }

  lemma EvictSubset(ms: seq<Info>, m: Info, pid: int, name: Name)
    ensures forall n :: n in Evict(ms, m, pid, name) ==> n in ms
  {
    var once := if m.pid == pid then WithoutPid(ms, m.pid) else ms;
    assert forall n :: n in once ==> n in ms;
  }

  lemma {:induction false} JoinKeepsMembers(ms: seq<Info>, i: nat, pid: int, name: Name)
    ensures var r := JoinFrom(ms, i, pid, name);
      forall m :: m in r.members ==> m in ms || (r.accepted && m == Newcomer(pid, name))
    decreases |ms| - i
  {
    if i < |ms| {
      if !Conflicts(ms[i], pid, name) {
        JoinKeepsMembers(ms, i + 1, pid, name);
      } else if ms[i].suspend {
        EvictSubset(ms, ms[i], pid, name);
        JoinKeepsMembers(Evict(ms, ms[i], pid, name), i + 1, pid, name);
      }
    }
  }

  lemma TidyMembers(ms: seq<Info>, ns: seq<Info>)
    requires Tidy(ms) && Distinct(ns)
    requires forall n :: n in ns ==> n in ms || (n.apis == [] && n.msgs == [])
    ensures Tidy(ns)
  {
    forall k | 0 <= k < |ns|
      ensures Unique(ns[k].apis) && Unique(ns[k].msgs)
    {
      assert ns[k] in ns;
    }
  }

  /** Changing the fields of one member other than process id and name. */
  lemma TidyUpdate(ms: seq<Info>, i: nat, m: Info)
    requires Tidy(ms) && i < |ms| && m.pid == ms[i].pid && m.name == ms[i].name
    requires Unique(m.apis) && Unique(m.msgs)
    ensures Tidy(ms[i := m])
  {
  }

  lemma AddUnique(names: seq<Name>, name: Name)
    requires Unique(names)
    ensures Unique(Add(names, name)) && name in Add(names, name)
  {
  }

  lemma TidyAt(ms: seq<Info>, i: nat)
    requires Tidy(ms) && i < |ms|
    ensures Distinct(ms) && Unique(ms[i].apis) && Unique(ms[i].msgs)
  {
  }

  lemma JoinKeepsTidy(ms: seq<Info>, pid: int, name: Name)
    requires Tidy(ms) && !Skips(ms, pid, name)
    ensures Tidy(Join(ms, pid, name).members)
  {
    hide Skips;
    hide Join;
    JoinResult(ms, pid, name);
    assert Join(ms, pid, name) == JoinFrom(ms, 0, pid, name) by {
      JoinIs(ms, pid, name);
    }
    JoinKeepsMembers(ms, 0, pid, name);
    TidyMembers(ms, Join(ms, pid, name).members);
  }

  lemma JoinIs(ms: seq<Info>, pid: int, name: Name)
    ensures Join(ms, pid, name) == JoinFrom(ms, 0, pid, name)
  {
  }

  lemma LeaveKeepsTidy(ms: seq<Info>, pid: int)
    requires Tidy(ms)
    ensures Tidy(WithoutPid(ms, pid))
  {
    var i := IndexOf(ms, pid);
    if i < |ms| {
      DistinctCut(ms, i);
      TidyMembers(ms, Cut(ms, i));
    }
  }

  lemma SweepKeepsTidy(ms: seq<Info>)
    requires Tidy(ms)
    ensures Tidy(Sweep(ms))
  {
  }

  lemma StepKeepsTidy(ms: seq<Info>, e: Event)
    requires Tidy(ms) && SkipFree(ms, e)
    ensures Tidy(Step(ms, e))
  {
    hide Tidy;
    hide Sweep;
    hide Join;
    hide WithoutPid;
    if e.Joining? {
      JoinKeepsTidy(ms, e.pid, e.name);
    } else if e.Leaving? {
      LeaveKeepsTidy(ms, e.pid);
    } else if e.Sweeping? {
      SweepKeepsTidy(ms);
    } else {
      UpdateKeepsTidy(ms, e);
    }
  }

  lemma UpdateKeepsTidy(ms: seq<Info>, e: Event)
    requires Tidy(ms) && !e.Joining? && !e.Leaving? && !e.Sweeping?
    ensures Tidy(Step(ms, e))
  {
    hide Tidy;
    hide Add;
    hide Drop;
    var i := if e.UnregisteringApi? then ApiOwner(ms, e.pid, e.entry)
             else if e.UnregisteringMsg? then MsgOwner(ms, e.pid, e.entry)
             else IndexOf(ms, e.pid);
    if i < |ms| {
      TidyAt(ms, i);
      if e.Alive? {
        TidyUpdate(ms, i, ms[i].(live := 0, suspend := false));
      } else if e.RegisteringApi? {
        AddUnique(ms[i].apis, e.entry);
        TidyUpdate(ms, i, ms[i].(apis := Add(ms[i].apis, e.entry)));
      } else if e.RegisteringMsg? {
        AddUnique(ms[i].msgs, e.entry);
        TidyUpdate(ms, i, ms[i].(msgs := Add(ms[i].msgs, e.entry)));
      } else if e.UnregisteringApi? {
        DropFacts(ms[i].apis, e.entry);
        TidyUpdate(ms, i, ms[i].(apis := Drop(ms[i].apis, e.entry)));
      } else {
        DropFacts(ms[i].msgs, e.entry);
        TidyUpdate(ms, i, ms[i].(msgs := Drop(ms[i].msgs, e.entry)));
      }
    }
  }

  /** The registry invariant: after every run whose joins skip nobody, the members are
      distinct in process id and name, and so are the names each of them registered. */
  lemma {:induction false} RegistryInvariant(es: seq<Event>)
    requires NoSkips(es)
    ensures Tidy(Run(es))
    decreases |es|
  {
    if es != [] {
      RegistryInvariant(es[..|es| - 1]);
      StepKeepsTidy(Run(es[..|es| - 1]), es[|es| - 1]);
    }
  }

  /** And that is exact: the members are distinct at every point of a run if and only
      if none of its joins skips a conflicting member. */
  lemma {:induction false} DistinctExactly(es: seq<Event>)
    ensures AlwaysDistinct(es) <==> NoSkips(es)
    decreases |es|
  {
    if es != [] {
      var before, e := es[..|es| - 1], es[|es| - 1];
      DistinctExactly(before);
      if NoSkips(before) {
        RegistryInvariant(before);
        if SkipFree(Run(before), e) {
          StepKeepsTidy(Run(before), e);
        } else {
          JoinResult(Run(before), e.pid, e.name);
        }
      }
    }
  }

  /** Every process id joins under one name only. */
  predicate OneNameEach(es: seq<Event>) {
    forall e, f :: e in es && f in es && e.Joining? && f.Joining? && e.pid == f.pid ==> e.name == f.name
  }

  lemma SameIdentity(ms: seq<Info>, e: Event, m: Info)
    requires m in Step(ms, e)
    ensures (exists n :: n in ms && n.pid == m.pid && n.name == m.name) || e == Joining(m.pid, m.name)
  {
    if e.Joining? {
      JoinKeepsMembers(ms, 0, e.pid, e.name);
    } else if e.Sweeping? {
      var k :| 0 <= k < |ms| && m == Aged(ms[k]);
      assert ms[k] in ms;
    }
  }

  lemma {:induction false} MembersJoined(es: seq<Event>, m: Info)
    requires m in Run(es)
    ensures Joining(m.pid, m.name) in es
    decreases |es|
  {
    var before, e := es[..|es| - 1], es[|es| - 1];
    SameIdentity(Run(before), e, m);
    if e != Joining(m.pid, m.name) {
      var n :| n in Run(before) && n.pid == m.pid && n.name == m.name;
      MembersJoined(before, n);
    }
  }

  /** When every process id joins under a name of its own, no join ever skips, so the
      registry invariant holds in every run. */
  lemma {:induction false} OneNameEachSuffices(es: seq<Event>)
    requires OneNameEach(es)
    ensures NoSkips(es) && Tidy(Run(es))
    decreases |es|
  {
    if es != [] {
      var before, e := es[..|es| - 1], es[|es| - 1];
      OneNameEachSuffices(before);
      if e.Joining? {
        var ms := Run(before);
        forall k | 0 <= k < |ms| && ms[k].pid == e.pid
          ensures ms[k].name == e.name
        {
          MembersJoined(before, ms[k]);
          assert Joining(ms[k].pid, ms[k].name) in es && e in es;
        }
        OwnNamesNeverSkip(ms, e.pid, e.name);
      }
    }
    RegistryInvariant(es);
  }

  function Sweeps(n: nat): seq<Event> { seq(n, _ => Sweeping) }

  function AgedBy(m: Info, n: nat): Info { m.(live := m.live + n, suspend := m.suspend || (n > 0 && m.live + n > LIVE_TIMEOUT_NUM + 1)) }

  lemma {:induction false} RunSweeps(es: seq<Event>, n: nat)
    ensures |Run(es + Sweeps(n))| == |Run(es)|
    ensures forall k :: 0 <= k < |Run(es)| ==> Run(es + Sweeps(n))[k] == AgedBy(Run(es)[k], n)
  {
    if n == 0 {
      assert es + Sweeps(0) == es;
    } else {
      var all := es + Sweeps(n);
      assert all[..|all| - 1] == es + Sweeps(n - 1);
      RunSweeps(es, n - 1);
    }
  }

  lemma RunExtends(es: seq<Event>, e: Event)
    ensures Run(es + [e]) == Step(Run(es), e)
  {
    assert (es + [e])[..|es|] == es;
  }

  lemma RunNothing()
    ensures Run([]) == []
  {
  }

  /** A join with nobody in the way. */
  lemma RunJoins(es: seq<Event>, pid: int, name: Name)
    requires NoneFrom(Run(es), 0, pid, name)
    ensures Run(es + [Joining(pid, name)]) == Run(es) + [Newcomer(pid, name)]
  {
    RunExtends(es, Joining(pid, name));
    JoinFree(Run(es), 0, pid, name);
    hide Run;
    hide JoinFrom;
  }

  lemma OtherName(pid: int, name: Name, pid': int, name': Name)
    requires pid != pid' && name != name'
    ensures NoneFrom([Newcomer(pid, name)], 0, pid', name') && NoneFrom([], 0, pid', name')
  {
  }

  lemma JoinTwo()
    ensures Run([Joining(1, "A"), Joining(2, "B")]) == [Newcomer(1, "A"), Newcomer(2, "B")]
  {
    hide *;
    assert "A" != "B" by { assert "A"[0] != "B"[0]; }
    RunNothing();
    OtherName(2, "B", 1, "A");
    OtherName(1, "A", 2, "B");
    RunJoins([], 1, "A");
    assert [] + [Joining(1, "A")] == [Joining(1, "A")] && [] + [Newcomer(1, "A")] == [Newcomer(1, "A")];
    RunJoins([Joining(1, "A")], 2, "B");
    assert [Joining(1, "A")] + [Joining(2, "B")] == [Joining(1, "A"), Joining(2, "B")];
  }

  lemma BeforeSkip(joins: seq<Event>)
    requires joins == [Joining(1, "A"), Joining(2, "B")]
    ensures NoSkips(joins + Sweeps(16)) && Distinct(Run(joins + Sweeps(16)))
  {
    hide NoSkips;
    hide Run;
    assert OneNameEach(joins + Sweeps(16));
    OneNameEachSuffices(joins + Sweeps(16));
  }

  lemma AfterSixteen(joins: seq<Event>)
    requires joins == [Joining(1, "A"), Joining(2, "B")]
    ensures Run(joins + Sweeps(16)) == [Info(1, "A", 16, true, [], []), Info(2, "B", 16, true, [], [])]
  {
    JoinTwo();
    RunSweeps(joins, 16);
    hide Run;
  }

  lemma StepJoins(ms: seq<Info>, pid: int, name: Name)
    ensures Step(ms, Joining(pid, name)) == Join(ms, pid, name).members
  {
  }

  lemma SameNames(a: Info)
    ensures !Distinct([a, Newcomer(1, a.name)])
  {
    var ms := [a, Newcomer(1, a.name)];
    assert ms[0].name == ms[1].name;
  }

  /** A run from nothing that skips, with the members distinct until its last step:
      processes 1 and 2 join as A and B and fall silent for 16 sweeps, then process 1
      joins as B. */
  lemma RunLeavesDuplicate()
    ensures var before := [Joining(1, "A"), Joining(2, "B")] + Sweeps(16);
      && NoSkips(before) && Distinct(Run(before))
      && Run(before + [Joining(1, "B")]) == [Info(2, "B", 16, true, [], []), Newcomer(1, "B")]
      && !Distinct(Run(before + [Joining(1, "B")]))
  {
    hide *;
    var joins := [Joining(1, "A"), Joining(2, "B")];
    BeforeSkip(joins);
    AfterSixteen(joins);
    JoinLeavesDuplicate();
    RunExtends(joins + Sweeps(16), Joining(1, "B"));
    StepJoins(Run(joins + Sweeps(16)), 1, "B");
    SameNames(Info(2, "B", 16, true, [], []));
  }

  lemma TidyIsDistinct(ms: seq<Info>)
    requires Tidy(ms)
    ensures Distinct(ms)
  {
  }

  // ----- what undoes what

  lemma {:induction false} DropAdded(names: seq<Name>, name: Name)
    requires name !in names
    ensures Drop(names + [name], name) == names
  {
    if names == [] {
      assert [] + [name] == [name] && [name][1..] == [];
    } else {
      assert (names + [name])[1..] == names[1..] + [name];
      DropAdded(names[1..], name);
    }
  }

  lemma OnlyOwner(ms: seq<Info>, pid: int, entry: Name, i: nat)
    requires Distinct(ms) && i < |ms| && ms[i].pid == pid && entry in ms[i].apis
    ensures ApiOwner(ms, pid, entry) == i
  {
    assert forall j :: 0 <= j < i ==> ms[j].pid != pid;
  }

  /** Unregistering an API undoes registering it. */
  lemma UnregisterUndoes(ms: seq<Info>, pid: int, entry: Name)
    requires Distinct(ms) && IsMember(ms, pid) && entry !in ms[IndexOf(ms, pid)].apis
    ensures UnregisterApi(RegisterApi(ms, pid, entry), pid, entry) == ms
  {
    var i := IndexOf(ms, pid);
    var more := RegisterApi(ms, pid, entry);
    OnlyOwner(more, pid, entry, i);
    DropAdded(ms[i].apis, entry);
  }

  /** Leaving undoes joining. */
  lemma LeavingUndoes(ms: seq<Info>, pid: int, name: Name)
    requires NoneFrom(ms, 0, pid, name)
    ensures WithoutPid(Join(ms, pid, name).members, pid) == ms
  {
    JoinFree(ms, 0, pid, name);
    IndexOfIs(ms + [Newcomer(pid, name)], pid, |ms|);
  }
}
