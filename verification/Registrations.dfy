/**
 What a process is registered for, told from the events of a run alone: the last word
 on a name since its entry joined.
 */
module Registrations {
  import opened Members
  import opened Registry
  import opened Entries

  /** A process registers for APIs it provides and for messages it wants. */
  datatype Kind = Api | Msg

  function Names(m: Info, kind: Kind): seq<Name> { if kind == Api then m.apis else m.msgs }

  function Registering(kind: Kind, pid: int, entry: Name): Event {
    if kind == Api then RegisteringApi(pid, entry) else RegisteringMsg(pid, entry)
  }

  function Unregistering(kind: Kind, pid: int, entry: Name): Event {
    if kind == Api then UnregisteringApi(pid, entry) else UnregisteringMsg(pid, entry)
  }

  /** The first entry of the process is at k. */
  predicate FirstAt(ms: seq<Info>, pid: int, k: nat) {
    k < |ms| && ms[k].pid == pid && forall j :: 0 <= j < k ==> ms[j].pid != pid
  }

  predicate Present(ms: seq<Info>, pid: int) { exists m :: m in ms && m.pid == pid }

  /** The event takes the first entry of the process away: it leaves, or somebody joins
      and that entry is gone. */
  ghost predicate Displaces(before: seq<Info>, e: Event, after: seq<Info>, pid: int) {
    || e == Leaving(pid)
    || (e.Joining? && exists k: nat :: FirstAt(before, pid, k) && before[k] !in after)
  }

  /** After event i, which registered the name, neither was the name unregistered nor
      the entry taken away. */
  ghost predicate LastWord(es: seq<Event>, kind: Kind, pid: int, entry: Name, i: nat) {
    && i < |es| && es[i] == Registering(kind, pid, entry) && Present(Run(es[..i]), pid)
    && forall j :: i < j < |es| ==>
         es[j] != Unregistering(kind, pid, entry) && !Displaces(Run(es[..j]), es[j], Run(es[..j + 1]), pid)
  }

  ghost predicate Stands(es: seq<Event>, kind: Kind, pid: int, entry: Name) {
    exists i: nat :: LastWord(es, kind, pid, entry, i)
  }

  /** The first entry of the process has the name. */
  ghost predicate Has(ms: seq<Info>, kind: Kind, pid: int, entry: Name) {
    exists k: nat :: FirstAt(ms, pid, k) && entry in Names(ms[k], kind)
  }

  // ----- first entries

  lemma FirstIsIndex(ms: seq<Info>, pid: int, k: nat)
    requires FirstAt(ms, pid, k)
    ensures IndexOf(ms, pid) == k
  {
    IndexOfIs(ms, pid, k);
  }

  lemma PresentIs(ms: seq<Info>, pid: int)
    ensures Present(ms, pid) <==> IsMember(ms, pid)
    ensures IsMember(ms, pid) ==> FirstAt(ms, pid, IndexOf(ms, pid))
  {
    if Present(ms, pid) {
      var m :| m in ms && m.pid == pid;
      var k :| 0 <= k < |ms| && ms[k] == m;
    }
  }

  lemma HasIs(ms: seq<Info>, kind: Kind, pid: int, entry: Name)
    ensures Has(ms, kind, pid, entry) <==> IsMember(ms, pid) && entry in Names(ms[IndexOf(ms, pid)], kind)
  {
    PresentIs(ms, pid);
    if Has(ms, kind, pid, entry) {
      var k: nat :| FirstAt(ms, pid, k) && entry in Names(ms[k], kind);
      FirstIsIndex(ms, pid, k);
    }
  }

  /** Who has a name registered is the first entry of its process. */
  lemma HoldersAreFirst(ms: seq<Info>, kind: Kind, pid: int, entry: Name, i: nat)
    requires FirstHolds(ms) && i < |ms| && ms[i].pid == pid && entry in Names(ms[i], kind)
    ensures FirstAt(ms, pid, i) && Has(ms, kind, pid, entry)
  {
    HolderIsFirst(ms, i);
  }

  // ----- one event

  /** A change that only takes entries away and adds bare ones. */
  lemma HasRest(ms: seq<Info>, ns: seq<Info>, kind: Kind, pid: int, entry: Name)
    requires FirstHolds(ms) && FirstHolds(ns) && forall n :: n in ns ==> n in ms || Bare(n)
    ensures Has(ns, kind, pid, entry) <==>
            Has(ms, kind, pid, entry) && !exists k: nat :: FirstAt(ms, pid, k) && ms[k] !in ns
  {
    if Has(ns, kind, pid, entry) {
      var k: nat :| FirstAt(ns, pid, k) && entry in Names(ns[k], kind);
      var n := ns[k];
      assert n in ns && !Bare(n);
      var i :| 0 <= i < |ms| && ms[i] == n;
      HoldersAreFirst(ms, kind, pid, entry, i);
      FirstIsIndex(ms, pid, i);
      forall j: nat | FirstAt(ms, pid, j)
        ensures ms[j] in ns
      {
        FirstIsIndex(ms, pid, j);
      }
    }
    if Has(ms, kind, pid, entry) && !exists k: nat :: FirstAt(ms, pid, k) && ms[k] !in ns {
      var k: nat :| FirstAt(ms, pid, k) && entry in Names(ms[k], kind);
      assert ms[k] in ns;
      var i :| 0 <= i < |ns| && ns[i] == ms[k];
      HoldersAreFirst(ns, kind, pid, entry, i);
    }
  }

  lemma JoinHas(ms: seq<Info>, e: Event, kind: Kind, pid: int, entry: Name)
    requires FirstHolds(ms) && e.Joining?
    ensures Has(Step(ms, e), kind, pid, entry) <==> Has(ms, kind, pid, entry) && !Displaces(ms, e, Step(ms, e), pid)
  {
    JoinKeepsMembers(ms, 0, e.pid, e.name);
    StepHolds(ms, e);
    HasRest(ms, Step(ms, e), kind, pid, entry);
  }

  lemma LeaveHas(ms: seq<Info>, e: Event, kind: Kind, pid: int, entry: Name)
    requires FirstHolds(ms) && e.Leaving?
    ensures Has(Step(ms, e), kind, pid, entry) <==> Has(ms, kind, pid, entry) && e.pid != pid
  {
    var ns := Step(ms, e);
    StepHolds(ms, e);
    LeaveKeepsOthers(ms, e.pid);
    HasRest(ms, ns, kind, pid, entry);
    if Has(ms, kind, pid, entry) {
      var k: nat :| FirstAt(ms, pid, k) && entry in Names(ms[k], kind);
      FirstIsIndex(ms, pid, k);
      if e.pid == pid {
        FirstGone(ms, k);
      } else {
        forall j: nat | FirstAt(ms, pid, j)
          ensures ms[j] in ns
        {
        }
      }
    }
  }

  lemma LeaveKeepsOthers(ms: seq<Info>, pid: int)
    ensures forall n :: n in WithoutPid(ms, pid) ==> n in ms
    ensures forall m :: m in ms && m.pid != pid ==> m in WithoutPid(ms, pid)
  {
    var i, ns := IndexOf(ms, pid), WithoutPid(ms, pid);
    forall m | m in ms && m.pid != pid
      ensures m in ns
    {
      var j :| 0 <= j < |ms| && ms[j] == m;
      if i < |ms| {
        assert ns[if j < i then j else j - 1] == m;
      }
    }
  }

  lemma FirstGone(ms: seq<Info>, k: nat)
    requires FirstHolds(ms) && k < |ms| && IndexOf(ms, ms[k].pid) == k && !Bare(ms[k])
    ensures ms[k] !in WithoutPid(ms, ms[k].pid)
  {
    var ns := WithoutPid(ms, ms[k].pid);
    forall j | 0 <= j < |ns|
      ensures ns[j] != ms[k]
    {
      assert ns[j] == ms[if j < k then j else j + 1];
    }
  }

  /** No entry has a name twice. */
  predicate NamesUnique(ms: seq<Info>) { forall k :: 0 <= k < |ms| ==> Unique(ms[k].apis) && Unique(ms[k].msgs) }

  lemma UpdateHas(ms: seq<Info>, i: nat, m: Info, kind: Kind, pid: int, entry: Name)
    requires i < |ms| && m.pid == ms[i].pid && IndexOf(ms, m.pid) == i
    ensures Has(ms[i := m], kind, pid, entry) <==> if m.pid == pid then entry in Names(m, kind) else Has(ms, kind, pid, entry)
  {
    var ns := ms[i := m];
    HasIs(ms, kind, pid, entry);
    HasIs(ns, kind, pid, entry);
    IndexOfIs(ns, pid, IndexOf(ms, pid));
  }

  lemma AddHas(names: seq<Name>, name: Name, n: Name)
    ensures n in Add(names, name) <==> n in names || n == name
  {
  }

  /** Whoever has the name is the entry look-up by process id finds. */
  lemma OwnerIsFirst(ms: seq<Info>, pid: int, entry: Name)
    requires FirstHolds(ms)
    ensures ApiOwner(ms, pid, entry) < |ms| ==> IndexOf(ms, pid) == ApiOwner(ms, pid, entry)
    ensures MsgOwner(ms, pid, entry) < |ms| ==> IndexOf(ms, pid) == MsgOwner(ms, pid, entry)
    ensures ApiOwner(ms, pid, entry) == |ms| ==> !Has(ms, Api, pid, entry)
    ensures MsgOwner(ms, pid, entry) == |ms| ==> !Has(ms, Msg, pid, entry)
  {
    var a, m := ApiOwner(ms, pid, entry), MsgOwner(ms, pid, entry);
    if a < |ms| {
      HoldersAreFirst(ms, Api, pid, entry, a);
      FirstIsIndex(ms, pid, a);
    }
    if m < |ms| {
      HoldersAreFirst(ms, Msg, pid, entry, m);
      FirstIsIndex(ms, pid, m);
    }
  }

  lemma RegisterHas(ms: seq<Info>, e: Event, kind: Kind, pid: int, entry: Name)
    requires e.RegisteringApi? || e.RegisteringMsg?
    ensures Has(Step(ms, e), kind, pid, entry) <==>
            (e == Registering(kind, pid, entry) && Present(ms, pid)) || Has(ms, kind, pid, entry)
  {
    var i := IndexOf(ms, e.pid);
    PresentIs(ms, pid);
    HasIs(ms, kind, pid, entry);
    if i < |ms| {
      var m := Step(ms, e)[i];
      AddHas(ms[i].apis, e.entry, entry);
      AddHas(ms[i].msgs, e.entry, entry);
      UpdateHas(ms, i, m, kind, pid, entry);
    }
  }

  lemma UnregisterHas(ms: seq<Info>, e: Event, kind: Kind, pid: int, entry: Name)
    requires FirstHolds(ms) && NamesUnique(ms) && (e.UnregisteringApi? || e.UnregisteringMsg?)
    ensures Has(Step(ms, e), kind, pid, entry) <==> Has(ms, kind, pid, entry) && e != Unregistering(kind, pid, entry)
  {
    var i := if e.UnregisteringApi? then ApiOwner(ms, e.pid, e.entry) else MsgOwner(ms, e.pid, e.entry);
    OwnerIsFirst(ms, e.pid, e.entry);
    HasIs(ms, kind, pid, entry);
    if i < |ms| {
      var m := Step(ms, e)[i];
      DropFacts(ms[i].apis, e.entry);
      DropFacts(ms[i].msgs, e.entry);
      UpdateHas(ms, i, m, kind, pid, entry);
    }
  }

  lemma AliveHas(ms: seq<Info>, e: Event, kind: Kind, pid: int, entry: Name)
    requires e.Alive?
    ensures Has(Step(ms, e), kind, pid, entry) <==> Has(ms, kind, pid, entry)
  {
    var i := IndexOf(ms, e.pid);
    HasIs(ms, kind, pid, entry);
    if i < |ms| {
      UpdateHas(ms, i, Step(ms, e)[i], kind, pid, entry);
    }
  }

  lemma SweepHas(ms: seq<Info>, kind: Kind, pid: int, entry: Name)
    ensures Has(Sweep(ms), kind, pid, entry) <==> Has(ms, kind, pid, entry)
  {
    HasIs(ms, kind, pid, entry);
    HasIs(Sweep(ms), kind, pid, entry);
    IndexOfIs(Sweep(ms), pid, IndexOf(ms, pid));
  }

  /** What one event does to one name of one process. */
  lemma StepHas(ms: seq<Info>, e: Event, kind: Kind, pid: int, entry: Name)
    requires FirstHolds(ms) && NamesUnique(ms)
    ensures Has(Step(ms, e), kind, pid, entry) <==>
            || (e == Registering(kind, pid, entry) && Present(ms, pid))
            || (Has(ms, kind, pid, entry) && e != Unregistering(kind, pid, entry) && !Displaces(ms, e, Step(ms, e), pid))
  {
    hide Has;
    hide FirstHolds;
    hide NamesUnique;
    hide Step;
    match e {
      case Joining(_, _) => JoinHas(ms, e, kind, pid, entry);
      case Leaving(_) => LeaveHas(ms, e, kind, pid, entry);
      case Alive(_) => AliveHas(ms, e, kind, pid, entry);
      case Sweeping =>
        SweepHas(ms, kind, pid, entry);
        SweepStep(ms);
      case RegisteringApi(_, _) => RegisterHas(ms, e, kind, pid, entry);
      case RegisteringMsg(_, _) => RegisterHas(ms, e, kind, pid, entry);
      case UnregisteringApi(_, _) => UnregisterHas(ms, e, kind, pid, entry);
      case UnregisteringMsg(_, _) => UnregisterHas(ms, e, kind, pid, entry);
    }
  }

  lemma SweepStep(ms: seq<Info>)
    ensures Step(ms, Sweeping) == Sweep(ms)
  {
  }

  // ----- whole runs

  lemma StepUnique(ms: seq<Info>, e: Event)
    requires NamesUnique(ms)
    ensures NamesUnique(Step(ms, e))
  {
    match e {
      case Joining(pid, name) => UniqueRest(ms, e);
      case Leaving(pid) => UniqueRest(ms, e);
      case Sweeping =>
      case _ => UniqueChange(ms, e);
    }
  }

  lemma UniqueRest(ms: seq<Info>, e: Event)
    requires NamesUnique(ms) && (e.Joining? || e.Leaving?)
    ensures NamesUnique(Step(ms, e))
  {
    var ns := Step(ms, e);
    if e.Joining? {
      JoinKeepsMembers(ms, 0, e.pid, e.name);
    } else {
      LeaveKeepsOthers(ms, e.pid);
    }
    forall k | 0 <= k < |ns|
      ensures Unique(ns[k].apis) && Unique(ns[k].msgs)
    {
      if ns[k] in ms {
        var i :| 0 <= i < |ms| && ms[i] == ns[k];
      } else {
        assert ns[k] in ns;
        assert Bare(ns[k]);
      }
    }
  }

  lemma UniqueChange(ms: seq<Info>, e: Event)
    requires NamesUnique(ms) && !e.Joining? && !e.Leaving? && !e.Sweeping?
    ensures NamesUnique(Step(ms, e))
  {
    hide Add;
    hide Drop;
    hide Unique;
    var i := if e.UnregisteringApi? then ApiOwner(ms, e.pid, e.entry)
             else if e.UnregisteringMsg? then MsgOwner(ms, e.pid, e.entry)
             else IndexOf(ms, e.pid);
    if i < |ms| && !e.Alive? {
      AddUnique(ms[i].apis, e.entry);
      AddUnique(ms[i].msgs, e.entry);
      DropFacts(ms[i].apis, e.entry);
      DropFacts(ms[i].msgs, e.entry);
    }
  }

  lemma {:induction false} RunUnique(es: seq<Event>)
    ensures NamesUnique(Run(es))
    decreases |es|
  {
    if es != [] {
      RunUnique(es[..|es| - 1]);
      StepUnique(Run(es[..|es| - 1]), es[|es| - 1]);
    }
  }

  lemma LastWordEarlier(es: seq<Event>, kind: Kind, pid: int, entry: Name, i: nat)
    requires es != [] && i < |es| - 1
    ensures var front, e := es[..|es| - 1], es[|es| - 1];
      LastWord(es, kind, pid, entry, i) <==>
      && LastWord(front, kind, pid, entry, i)
      && e != Unregistering(kind, pid, entry) && !Displaces(Run(front), e, Run(es), pid)
  {
    hide Displaces;
    hide Run;
    hide Present;
    var front := es[..|es| - 1];
    assert forall j :: 0 <= j <= |front| ==> front[..j] == es[..j];
    assert es[..|es| - 1 + 1] == es;
    if LastWord(es, kind, pid, entry, i) {
      forall j | i < j < |front|
        ensures front[j] != Unregistering(kind, pid, entry) && !Displaces(Run(front[..j]), front[j], Run(front[..j + 1]), pid)
      {
        assert front[j] == es[j];
      }
      var last := |es| - 1;
      assert es[last] != Unregistering(kind, pid, entry) && !Displaces(Run(es[..last]), es[last], Run(es[..last + 1]), pid);
    }
    if LastWord(front, kind, pid, entry, i) {
      forall j | i < j < |front|
        ensures es[j] != Unregistering(kind, pid, entry) && !Displaces(Run(es[..j]), es[j], Run(es[..j + 1]), pid)
      {
        assert front[j] == es[j];
      }
    }
  }

  lemma StandsStep(es: seq<Event>, kind: Kind, pid: int, entry: Name)
    requires es != []
    ensures var front, e := es[..|es| - 1], es[|es| - 1];
      Stands(es, kind, pid, entry) <==>
      || (e == Registering(kind, pid, entry) && Present(Run(front), pid))
      || (Stands(front, kind, pid, entry) && e != Unregistering(kind, pid, entry) && !Displaces(Run(front), e, Run(es), pid))
  {
    hide Displaces;
    hide Run;
    hide Present;
    var front, last := es[..|es| - 1], |es| - 1;
    if Stands(es, kind, pid, entry) {
      var i: nat :| LastWord(es, kind, pid, entry, i);
      if i < last {
        LastWordEarlier(es, kind, pid, entry, i);
      }
    }
    if es[last] == Registering(kind, pid, entry) && Present(Run(front), pid) {
      assert LastWord(es, kind, pid, entry, last);
    }
    if Stands(front, kind, pid, entry) && es[last] != Unregistering(kind, pid, entry) && !Displaces(Run(front), es[last], Run(es), pid) {
      var i: nat :| LastWord(front, kind, pid, entry, i);
      LastWordEarlier(es, kind, pid, entry, i);
    }
  }

  /** In every run whatsoever, the first entry of a process has a name, as an API or as
      a message, if and only if the last word on it since that entry joined was its
      registration. */
  lemma {:induction false} RegisteredExactly(es: seq<Event>, kind: Kind, pid: int, entry: Name)
    ensures Has(Run(es), kind, pid, entry) <==> Stands(es, kind, pid, entry)
    decreases |es|
  {
    hide Has;
    hide Stands;
    if es == [] {
      NothingYet(kind, pid, entry);
    } else {
      var front := es[..|es| - 1];
      RegisteredExactly(front, kind, pid, entry);
      RunHolds(front);
      RunUnique(front);
      StepHas(Run(front), es[|es| - 1], kind, pid, entry);
      StandsStep(es, kind, pid, entry);
    }
  }

  lemma NothingYet(kind: Kind, pid: int, entry: Name)
    ensures !Has(Run([]), kind, pid, entry) && !Stands([], kind, pid, entry)
  {
  }
}
