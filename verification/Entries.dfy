/**
 Entries of one process: a skipping join can leave a process two of them, but in every
 run whatsoever only the first of them has anything registered.
 */
module Entries {
  import opened Members
  import opened Registry

  predicate Bare(m: Info) { m.apis == [] && m.msgs == [] }

  /** Of the entries of one process, all but the first are bare. */
  predicate FirstHolds(ms: seq<Info>) {
    forall i, j :: 0 <= i < j < |ms| && ms[i].pid == ms[j].pid ==> Bare(ms[j])
  }

  lemma CutHolds(ms: seq<Info>, k: nat)
    requires FirstHolds(ms) && k < |ms|
    ensures FirstHolds(Cut(ms, k))
  {
    var cut := Cut(ms, k);
    forall i, j | 0 <= i < j < |cut| && cut[i].pid == cut[j].pid
      ensures Bare(cut[j])
    {
      assert cut[i] == ms[if i < k then i else i + 1] && cut[j] == ms[if j < k then j else j + 1];
    }
  }

  lemma WithoutHolds(ms: seq<Info>, pid: int)
    requires FirstHolds(ms)
    ensures FirstHolds(WithoutPid(ms, pid))
  {
    var i := IndexOf(ms, pid);
    if i < |ms| {
      CutHolds(ms, i);
    }
  }

  lemma AppendHolds(ms: seq<Info>, pid: int, name: Name)
    requires FirstHolds(ms)
    ensures FirstHolds(ms + [Newcomer(pid, name)])
  {
  }

  lemma {:induction false} JoinHolds(ms: seq<Info>, i: nat, pid: int, name: Name)
    requires FirstHolds(ms)
    ensures FirstHolds(JoinFrom(ms, i, pid, name).members)
    decreases |ms| - i
  {
    hide FirstHolds;
    if i >= |ms| {
      AppendHolds(ms, pid, name);
    } else if !Conflicts(ms[i], pid, name) {
      JoinHolds(ms, i + 1, pid, name);
    } else if ms[i].suspend {
      WithoutHolds(ms, ms[i].pid);
      WithoutHolds(WithoutPid(ms, ms[i].pid), ms[i].pid);
      JoinHolds(Evict(ms, ms[i], pid, name), i + 1, pid, name);
    }
  }

  /** Changing one entry, unless that gives something to a later one. */
  lemma UpdateHolds(ms: seq<Info>, i: nat, m: Info)
    requires FirstHolds(ms) && i < |ms| && m.pid == ms[i].pid
    requires (forall k :: 0 <= k < i ==> ms[k].pid != m.pid) || Bare(m) || (m.apis == ms[i].apis && m.msgs == ms[i].msgs)
    ensures FirstHolds(ms[i := m])
  {
  }

  /** Who has something to lose is the first entry of its process. */
  lemma HolderIsFirst(ms: seq<Info>, i: nat)
    requires FirstHolds(ms) && i < |ms| && !Bare(ms[i])
    ensures forall k :: 0 <= k < i ==> ms[k].pid != ms[i].pid
  {
  }

  lemma SweepHolds(ms: seq<Info>)
    requires FirstHolds(ms)
    ensures FirstHolds(Sweep(ms))
  {
  }

  lemma ChangeHolds(ms: seq<Info>, e: Event)
    requires FirstHolds(ms) && !e.Joining? && !e.Leaving? && !e.Sweeping?
    ensures FirstHolds(Step(ms, e))
  {
    hide FirstHolds;
    hide Add;
    hide Drop;
    var i := if e.UnregisteringApi? then ApiOwner(ms, e.pid, e.entry)
             else if e.UnregisteringMsg? then MsgOwner(ms, e.pid, e.entry)
             else IndexOf(ms, e.pid);
    if i < |ms| {
      if e.UnregisteringApi? || e.UnregisteringMsg? {
        HolderIsFirst(ms, i);
      }
      UpdateHolds(ms, i, Step(ms, e)[i]);
      assert Step(ms, e) == ms[i := Step(ms, e)[i]];
    }
  }

  lemma StepHolds(ms: seq<Info>, e: Event)
    requires FirstHolds(ms)
    ensures FirstHolds(Step(ms, e))
  {
    hide FirstHolds;
    match e {
      case Joining(pid, name) => JoinHolds(ms, 0, pid, name);
      case Leaving(pid) => WithoutHolds(ms, pid);
      case Sweeping => SweepHolds(ms);
      case _ => ChangeHolds(ms, e);
    }
  }

  /** In every run, joins skipping whom they like. */
  lemma {:induction false} RunHolds(es: seq<Event>)
    ensures FirstHolds(Run(es))
    decreases |es|
  {
    if es != [] {
      RunHolds(es[..|es| - 1]);
      StepHolds(Run(es[..|es| - 1]), es[|es| - 1]);
    }
  }
}
