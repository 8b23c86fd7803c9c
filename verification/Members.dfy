/**
 The member list of the daemon as a sequence of values: what joining, leaving,
 registering and the liveness sweep do to it, and what every run keeps.
 */
module Members {

  type Name = string

  /** A member: process id, name, sweeps since its last sign of life, whether it is
      suspended, and the names it registered. */
  datatype Info = Info(pid: int, name: Name, live: nat, suspend: bool, apis: seq<Name>, msgs: seq<Name>)

  const LIVE_TIMEOUT_NUM := 14

  function Newcomer(pid: int, name: Name): Info { Info(pid, name, 0, false, [], []) }

  // ----- look-up and removal by process id

  /** The position of the first member with this process id, or the number of members. */
  function IndexOf(ms: seq<Info>, pid: int): (r: nat)
    ensures r <= |ms| && (r < |ms| ==> ms[r].pid == pid)
    ensures forall k :: 0 <= k < r ==> ms[k].pid != pid
  {
    if ms == [] || ms[0].pid == pid then 0 else 1 + IndexOf(ms[1..], pid)
  }

  predicate IsMember(ms: seq<Info>, pid: int) { IndexOf(ms, pid) < |ms| }

  lemma {:induction false} IndexOfIs(ms: seq<Info>, pid: int, i: nat)
    requires i <= |ms| && (forall k :: 0 <= k < i ==> ms[k].pid != pid) && (i < |ms| ==> ms[i].pid == pid)
    ensures IndexOf(ms, pid) == i
  {
    if i > 0 {
      IndexOfIs(ms[1..], pid, i - 1);
    }
  }

  function Cut<T>(s: seq<T>, i: nat): seq<T>
    requires i < |s|
  {
    s[..i] + s[i + 1..]
  }

  /** ipcd_mlist_remove_via_pid. */
  function WithoutPid(ms: seq<Info>, pid: int): seq<Info> {
    var i := IndexOf(ms, pid);
    if i < |ms| then Cut(ms, i) else ms
  }

  /** Replacing the member found by process id. */
  function Put(ms: seq<Info>, m: Info): (r: seq<Info>)
    ensures |r| == |ms|
  {
    var i := IndexOf(ms, m.pid);
    if i < |ms| then ms[i := m] else ms
  }

  // ----- names registered by one member

  function Add(names: seq<Name>, name: Name): seq<Name> {
    if name in names then names else names + [name]
  }

  function Drop(names: seq<Name>, name: Name): seq<Name> {
    if names == [] then []
    else if names[0] == name then names[1..]
    else [names[0]] + Drop(names[1..], name)
  }

  predicate Unique<T(==)>(names: seq<T>) {
    forall i, j :: 0 <= i < j < |names| ==> names[i] != names[j]
  }

  lemma {:induction false} DropFacts(names: seq<Name>, name: Name)
    requires Unique(names)
    ensures Unique(Drop(names, name)) && name !in Drop(names, name)
    ensures forall n :: n != name ==> (n in Drop(names, name) <==> n in names)
  {
    if names != [] {
      var rest := names[1..];
      assert forall n :: n in rest ==> n in names;
      assert Unique(rest);
      assert names[0] !in rest;
      DropFacts(rest, name);
      assert names == [names[0]] + rest;
    }
  }

  // ----- joining

  predicate Conflicts(m: Info, pid: int, name: Name) { m.pid == pid || m.name == name }

  datatype Joined = Joined(members: seq<Info>, accepted: bool)

  /** What the loop body of ipcd_join removes for a suspended conflicting member: it
      calls ipcd_mlist_remove_via_pid once for the process id and once for the name. */
  function Evict(ms: seq<Info>, m: Info, pid: int, name: Name): (r: seq<Info>)
    ensures |r| <= |ms|
    ensures m in ms && Conflicts(m, pid, name) ==> |r| < |ms|
  {
    var once := if m.pid == pid then WithoutPid(ms, m.pid) else ms;
    if m.name == name then WithoutPid(once, m.pid) else once
  }

  /** The loop of ipcd_join from position i on. The position advances also after a
      removal, so the member that moves up is not looked at. */
  function JoinFrom(ms: seq<Info>, i: nat, pid: int, name: Name): Joined
    decreases |ms| - i
  {
    if i >= |ms| then Joined(ms + [Newcomer(pid, name)], true)
    else if !Conflicts(ms[i], pid, name) then JoinFrom(ms, i + 1, pid, name)
    else if !ms[i].suspend then Joined(ms, false)
    else JoinFrom(Evict(ms, ms[i], pid, name), i + 1, pid, name)
  }

  function Join(ms: seq<Info>, pid: int, name: Name): Joined { JoinFrom(ms, 0, pid, name) }

  /** No two members share a process id or a name. */
  predicate Distinct(ms: seq<Info>) {
    forall i, j :: 0 <= i < j < |ms| ==> ms[i].pid != ms[j].pid && ms[i].name != ms[j].name
  }

  predicate NoneFrom(ms: seq<Info>, i: nat, pid: int, name: Name) {
    forall k :: i <= k < |ms| ==> !Conflicts(ms[k], pid, name)
  }

  /** The case the loop gets wrong: a suspended member in conflict with the newcomer
      stands right in front of another member in conflict with it. */
  predicate Skips(ms: seq<Info>, pid: int, name: Name) {
    exists a :: 0 <= a < |ms| - 1 && ms[a].suspend && Conflicts(ms[a], pid, name) && Conflicts(ms[a + 1], pid, name)
  }

  /** The members that do not stand in the way. */
  function Others(ms: seq<Info>, pid: int, name: Name): seq<Info> {
    if ms == [] then []
    else (if Conflicts(ms[0], pid, name) then [] else [ms[0]]) + Others(ms[1..], pid, name)
  }

  lemma {:induction false} JoinOver(ms: seq<Info>, i: nat, j: nat, pid: int, name: Name)
    requires i <= j <= |ms| && forall k :: i <= k < j ==> !Conflicts(ms[k], pid, name)
    ensures JoinFrom(ms, i, pid, name) == JoinFrom(ms, j, pid, name)
    decreases j - i
  {
    if i < j {
      JoinOver(ms, i + 1, j, pid, name);
    }
  }

  lemma {:induction false} OthersWhole(ms: seq<Info>, pid: int, name: Name)
    requires NoneFrom(ms, 0, pid, name)
    ensures Others(ms, pid, name) == ms
  {
    if ms != [] {
      OthersWhole(ms[1..], pid, name);
    }
  }

  lemma {:induction false} OthersCut(ms: seq<Info>, i: nat, pid: int, name: Name)
    requires i < |ms| && Conflicts(ms[i], pid, name)
    ensures Others(Cut(ms, i), pid, name) == Others(ms, pid, name)
  {
    if i == 0 {
      assert Cut(ms, 0) == ms[1..];
    } else {
      OthersCut(ms[1..], i - 1, pid, name);
      assert Cut(ms, i)[1..] == Cut(ms[1..], i - 1);
    }
  }

  lemma DistinctCut(ms: seq<Info>, i: nat)
    requires Distinct(ms) && i < |ms|
    ensures Distinct(Cut(ms, i)) && WithoutPid(ms, ms[i].pid) == Cut(ms, i)
    ensures !IsMember(Cut(ms, i), ms[i].pid)
  {
    IndexOfIs(ms, ms[i].pid, i);
    IndexOfIs(Cut(ms, i), ms[i].pid, |ms| - 1);
  }

  /** With distinct members the two removals take out exactly one member. */
  lemma EvictsOne(ms: seq<Info>, i: nat, pid: int, name: Name)
    requires Distinct(ms) && i < |ms| && Conflicts(ms[i], pid, name)
    ensures Evict(ms, ms[i], pid, name) == Cut(ms, i)
  {
    DistinctCut(ms, i);
  }

  /** One turn of the loop at a conflicting member. */
  lemma JoinAt(ms: seq<Info>, i: nat, pid: int, name: Name)
    requires Distinct(ms) && i < |ms| && Conflicts(ms[i], pid, name)
    ensures JoinFrom(ms, i, pid, name) == if ms[i].suspend then JoinFrom(Cut(ms, i), i + 1, pid, name) else Joined(ms, false)
  {
    EvictsOne(ms, i, pid, name);
  }

  /** The position of the first conflicting member from i on. */
  function NextConflict(ms: seq<Info>, i: nat, pid: int, name: Name): (r: nat)
    requires i <= |ms|
    ensures i <= r <= |ms| && (r < |ms| ==> Conflicts(ms[r], pid, name))
    ensures forall k :: i <= k < r ==> !Conflicts(ms[k], pid, name)
    decreases |ms| - i
  {
    if i == |ms| || Conflicts(ms[i], pid, name) then i else NextConflict(ms, i + 1, pid, name)
  }

  /** Distinct members contain at most two that conflict with a newcomer. */
  lemma AtMostTwo(ms: seq<Info>, a: nat, b: nat, pid: int, name: Name)
    requires Distinct(ms) && a < b < |ms| && Conflicts(ms[a], pid, name) && Conflicts(ms[b], pid, name)
    ensures NoneFrom(ms, b + 1, pid, name)
  {
  }

  lemma JoinFree(ms: seq<Info>, i: nat, pid: int, name: Name)
    requires i <= |ms| && NoneFrom(ms, i, pid, name)
    ensures JoinFrom(ms, i, pid, name) == Joined(ms + [Newcomer(pid, name)], true)
  {
    JoinOver(ms, i, |ms|, pid, name);
  }

  lemma DistinctAppend(ms: seq<Info>, pid: int, name: Name)
    requires Distinct(ms)
    ensures Distinct(ms + [Newcomer(pid, name)]) <==> NoneFrom(ms, 0, pid, name)
  {
    var all := ms + [Newcomer(pid, name)];
    assert all[|ms|] == Newcomer(pid, name);
    forall k | 0 <= k < |ms| && Conflicts(ms[k], pid, name)
      ensures !Distinct(all)
    {
      assert all[k] == ms[k];
    }
  }

  ghost predicate JoinOutcome(ms: seq<Info>, pid: int, name: Name, r: Joined) {
    && (Distinct(r.members) <==> !Skips(ms, pid, name))
    && (Skips(ms, pid, name) ==> r.accepted)
    && (!Skips(ms, pid, name) ==> (r.accepted <==> AllSuspended(ms, pid, name)))
    && (!Skips(ms, pid, name) && r.accepted ==> r.members == Others(ms, pid, name) + [Newcomer(pid, name)])
    && (!r.accepted ==> r.members == ms || LostOne(ms, r.members, pid, name))
  }

  predicate AllSuspended(ms: seq<Info>, pid: int, name: Name) {
    forall k :: 0 <= k < |ms| && Conflicts(ms[k], pid, name) ==> ms[k].suspend
  }

  /** A refused join may already have removed a suspended member. */
  ghost predicate LostOne(ms: seq<Info>, left: seq<Info>, pid: int, name: Name) {
    exists a :: 0 <= a < |ms| && ms[a].suspend && Conflicts(ms[a], pid, name) && left == Cut(ms, a)
  }

  predicate FirstSuspended(ms: seq<Info>, a: nat, pid: int, name: Name) {
    && Distinct(ms) && a < |ms| && ms[a].suspend && Conflicts(ms[a], pid, name)
    && (forall k :: 0 <= k < a ==> !Conflicts(ms[k], pid, name))
    && !(a + 1 < |ms| && Conflicts(ms[a + 1], pid, name))
  }

  /** Without its first conflicting member the list holds at most one more. */
  lemma AfterFirst(ms: seq<Info>, a: nat, pid: int, name: Name)
    requires FirstSuspended(ms, a, pid, name)
    ensures var one := Cut(ms, a);
      && Distinct(one) && Others(one, pid, name) == Others(ms, pid, name)
      && (forall k :: 0 <= k <= a && k < |one| ==> !Conflicts(one[k], pid, name))
      && (forall j, k :: 0 <= j < |one| && 0 <= k < |one| && j != k && Conflicts(one[j], pid, name) ==> !Conflicts(one[k], pid, name))
    ensures !Skips(ms, pid, name)
  {
    DistinctCut(ms, a);
    OthersCut(ms, a, pid, name);
    forall k, j | 0 <= j < |ms| && 0 <= k < |ms| && j != a && k != a && j != k && Conflicts(ms[j], pid, name)
      ensures !Conflicts(ms[k], pid, name)
    {
      if j < k && Conflicts(ms[k], pid, name) {
        AtMostTwo(ms, a, j, pid, name);
      } else if k < j && Conflicts(ms[k], pid, name) {
        AtMostTwo(ms, a, k, pid, name);
      }
    }
  }

  lemma CutAt(ms: seq<Info>, a: nat, k: nat)
    requires a < |ms| && k < |ms| - 1
    ensures Cut(ms, a)[k] == if k < a then ms[k] else ms[k + 1]
  {
  }

  lemma AllSuspendedCut(ms: seq<Info>, a: nat, pid: int, name: Name)
    requires a < |ms| && ms[a].suspend
    ensures AllSuspended(ms, pid, name) <==> AllSuspended(Cut(ms, a), pid, name)
  {
    var one := Cut(ms, a);
    forall k | 0 <= k < |ms| && k != a
      ensures exists j :: 0 <= j < |one| && one[j] == ms[k]
    {
      CutAt(ms, a, if k < a then k else k - 1);
    }
  }

  lemma JoinOneSuspended(ms: seq<Info>, a: nat, pid: int, name: Name)
    requires FirstSuspended(ms, a, pid, name)
    ensures JoinOutcome(ms, pid, name, JoinFrom(Cut(ms, a), a + 1, pid, name))
  {
    hide Others;
    hide Skips;
    var one := Cut(ms, a);
    AfterFirst(ms, a, pid, name);
    AllSuspendedCut(ms, a, pid, name);
    hide Cut;
    if |one| <= a {
      OthersWhole(one, pid, name);
      DistinctAppend(one, pid, name);
    } else {
      var b := NextConflict(one, a + 1, pid, name);
      JoinOver(one, a + 1, b, pid, name);
      if b == |one| {
        OthersWhole(one, pid, name);
        DistinctAppend(one, pid, name);
      } else {
        JoinAt(one, b, pid, name);
        if one[b].suspend {
          JoinTwoSuspended(one, b, pid, name);
        }
      }
    }
  }

  /** The last conflicting member goes. */
  lemma JoinTwoSuspended(ms: seq<Info>, b: nat, pid: int, name: Name)
    requires Distinct(ms) && b < |ms| && Conflicts(ms[b], pid, name)
    requires forall k :: 0 <= k < |ms| && k != b ==> !Conflicts(ms[k], pid, name)
    ensures JoinFrom(Cut(ms, b), b + 1, pid, name) == Joined(Others(ms, pid, name) + [Newcomer(pid, name)], true)
    ensures Distinct(Others(ms, pid, name) + [Newcomer(pid, name)])
  {
    hide JoinFrom;
    hide Others;
    hide Distinct;
    var rest := Cut(ms, b);
    DistinctCut(ms, b);
    OthersCut(ms, b, pid, name);
    FreeCut(ms, b, pid, name);
    hide Cut;
    OthersWhole(rest, pid, name);
    DistinctAppend(rest, pid, name);
    JoinBeyond(rest, b + 1, pid, name);
  }

  lemma FreeCut(ms: seq<Info>, b: nat, pid: int, name: Name)
    requires b < |ms| && forall k :: 0 <= k < |ms| && k != b ==> !Conflicts(ms[k], pid, name)
    ensures NoneFrom(Cut(ms, b), 0, pid, name)
  {
    hide Conflicts;
    forall k | 0 <= k < |Cut(ms, b)|
      ensures !Conflicts(Cut(ms, b)[k], pid, name)
    {
      CutAt(ms, b, k);
    }
  }

  lemma JoinBeyond(ms: seq<Info>, i: nat, pid: int, name: Name)
    requires NoneFrom(ms, 0, pid, name)
    ensures JoinFrom(ms, i, pid, name) == Joined(ms + [Newcomer(pid, name)], true)
  {
    if i <= |ms| {
      JoinFree(ms, i, pid, name);
    }
  }

  lemma JoinSkips(ms: seq<Info>, a: nat, pid: int, name: Name)
    requires Distinct(ms) && a + 1 < |ms| && ms[a].suspend
    requires Conflicts(ms[a], pid, name) && Conflicts(ms[a + 1], pid, name)
    ensures JoinOutcome(ms, pid, name, JoinFrom(Cut(ms, a), a + 1, pid, name))
  {
    var one := Cut(ms, a);
    DistinctCut(ms, a);
    AtMostTwo(ms, a, a + 1, pid, name);
    assert one[a] == ms[a + 1];
    assert NoneFrom(one, a + 1, pid, name);
    JoinFree(one, a + 1, pid, name);
    DistinctAppend(one, pid, name);
  }

  /** What joining does to distinct members. They stay distinct exactly if no suspended
      conflicting member stands in front of another conflicting one; then the newcomer
      is accepted exactly if everybody in its way is suspended, and replaces them. */
  lemma JoinResult(ms: seq<Info>, pid: int, name: Name)
    requires Distinct(ms)
    ensures JoinOutcome(ms, pid, name, Join(ms, pid, name))
  {
    var a := NextConflict(ms, 0, pid, name);
    JoinOver(ms, 0, a, pid, name);
    if a == |ms| {
      OthersWhole(ms, pid, name);
      DistinctAppend(ms, pid, name);
    } else {
      JoinAt(ms, a, pid, name);
      if !ms[a].suspend {
      } else if a + 1 < |ms| && Conflicts(ms[a + 1], pid, name) {
        JoinSkips(ms, a, pid, name);
      } else {
        JoinOneSuspended(ms, a, pid, name);
      }
    }
  }

  /** Two members named A and B, both gone silent; a process with the id of A and the
      name B joins: B stays, and there are two members called B. */
  lemma JoinLeavesDuplicate()
    ensures var a, b := Info(1, "A", 16, true, [], []), Info(2, "B", 16, true, [], []);
      Distinct([a, b]) && Join([a, b], 1, "B") == Joined([b, Newcomer(1, "B")], true)
  {
    var a, b := Info(1, "A", 16, true, [], []), Info(2, "B", 16, true, [], []);
    assert "A" != "B" by { assert "A"[0] != "B"[0]; }
    JoinAt([a, b], 0, 1, "B");
    assert Cut([a, b], 0) == [b];
    assert JoinFrom([b], 1, 1, "B") == Joined([b] + [Newcomer(1, "B")], true);
  }

  /** Where every process id has one name of its own, joining never skips. */
  lemma OwnNamesNeverSkip(ms: seq<Info>, pid: int, name: Name)
    requires Distinct(ms) && forall k :: 0 <= k < |ms| && ms[k].pid == pid ==> ms[k].name == name
    ensures !Skips(ms, pid, name)
  {
  }
}
