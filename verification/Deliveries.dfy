/**
 What the registrations of a run mean for its messages: who is sent what, told from the
 acts of the run alone.
 */
module Deliveries {
  import opened CText
  import opened Members
  import opened Registry
  import opened Entries
  import opened Registrations
  import M = Messages

  /** What the acts of a run are for the member list: a message is a sign of life. */
  function Events(acts: seq<M.Act>): seq<Event> {
    if acts == [] then []
    else
      Events(M.Front(acts))
      + match acts[|acts| - 1]
        case Send(pid, _) => [Alive(pid)]
        case Change(e) => [e]
        case _ => []
  }

  /** The messages sent by processes that were members then. */
  ghost function SentByMembers(acts: seq<M.Act>): seq<M.Message> {
    if acts == [] then []
    else
      var front, a := M.Front(acts), acts[|acts| - 1];
      SentByMembers(front) + if a.Send? && Present(Run(Events(front)), a.pid) then [a.message] else []
  }

  /** The number of messages dispatched. */
  function Dispatches(acts: seq<M.Act>): nat {
    if acts == [] then 0 else Dispatches(M.Front(acts)) + if acts[|acts| - 1].Dispatch? then 1 else 0
  }

  /** The process is active, and registered for messages of this name or for all. */
  ghost predicate Listens(es: seq<Event>, pid: int, name: Name) {
    && (exists k: nat :: FirstAt(Run(es), pid, k) && !Run(es)[k].suspend)
    && (Stands(es, Msg, pid, name) || Stands(es, Msg, pid, "*"))
  }

  lemma RunOn(es: seq<Event>, e: Event)
    ensures Run(es + [e]) == Step(Run(es), e)
  {
    assert (es + [e])[..|es|] == es;
  }

  lemma SignOfLife(ms: seq<Info>, pid: int)
    ensures Step(ms, Alive(pid)) == if IsMember(ms, pid) then Touch(ms, pid) else ms
  {
  }

  lemma EventsOn(acts: seq<M.Act>)
    requires acts != []
    ensures var ms, a := Run(Events(M.Front(acts))), acts[|acts| - 1];
      Run(Events(acts)) ==
        match a
        case Send(pid, _) => Step(ms, Alive(pid))
        case Change(e) => Step(ms, e)
        case _ => ms
  {
    hide Run;
    hide Step;
    var es := Events(M.Front(acts));
    match acts[|acts| - 1] {
      case Send(pid, _) => RunOn(es, Alive(pid));
      case Change(e) => RunOn(es, e);
      case _ => assert es + [] == es;
    }
  }

  /** The dispatch at i found the member list of the events up to there. */
  ghost predicate AudienceAt(acts: seq<M.Act>, p: M.Post, i: nat)
    requires i < |acts|
  {
    var n := Dispatches(acts[..i]);
    n < |p.audience| && p.audience[n] == Run(Events(acts[..i]))
  }

  ghost predicate Follows(acts: seq<M.Act>, p: M.Post) {
    && p.members == Run(Events(acts))
    && p.accepted == SentByMembers(acts)
    && |p.audience| == Dispatches(acts)
    && forall i :: 0 <= i < |acts| && acts[i].Dispatch? ==> AudienceAt(acts, p, i)
  }

  lemma FollowsOn(acts: seq<M.Act>, b: M.Post, p: M.Post)
    requires acts != [] && Follows(M.Front(acts), b) && M.Turns(b, acts[|acts| - 1], p)
    ensures Follows(acts, p)
  {
    var front, a := M.Front(acts), acts[|acts| - 1];
    EventsOn(acts);
    if a.Send? {
      SignOfLife(b.members, a.pid);
      PresentIs(b.members, a.pid);
    }
    hide Run;
    hide Touch;
    hide Step;
    hide Present;
    hide M.Subscribers;
    forall i | 0 <= i < |acts| && acts[i].Dispatch?
      ensures AudienceAt(acts, p, i)
    {
      if i < |front| {
        assert front[i] == acts[i] && front[..i] == acts[..i];
        assert AudienceAt(front, b, i);
      } else {
        assert acts[..i] == front;
      }
    }
  }

  /** In every run, members, accepted messages and audiences are those told by its acts. */
  lemma {:induction false} PostFollows(acts: seq<M.Act>, p: M.Post)
    requires M.Arrives(acts, p)
    ensures Follows(acts, p)
    decreases |acts|
  {
    hide M.After;
    if acts != [] {
      var b :| M.Arrives(M.Front(acts), b) && M.Turns(b, acts[|acts| - 1], p);
      PostFollows(M.Front(acts), b);
      FollowsOn(acts, b, p);
    }
  }

  lemma ListensIs(es: seq<Event>, pid: int, name: Name)
    ensures Listens(es, pid, name) <==> M.Subscribed(Run(es), pid, name)
  {
    var ms := Run(es);
    RunHolds(es);
    RegisteredExactly(es, Msg, pid, name);
    RegisteredExactly(es, Msg, pid, "*");
    HasIs(ms, Msg, pid, name);
    HasIs(ms, Msg, pid, "*");
    PresentIs(ms, pid);
    hide Run;
    hide Stands;
    hide Has;
    if M.Subscribed(ms, pid, name) {
      var k :| 0 <= k < |ms| && ms[k].pid == pid && M.Wants(ms[k], name);
      HoldersAreFirst(ms, Msg, pid, if name in ms[k].msgs then name else "*", k);
      FirstIsIndex(ms, pid, k);
    }
    if Listens(es, pid, name) {
      var k: nat :| FirstAt(ms, pid, k) && !ms[k].suspend;
      FirstIsIndex(ms, pid, k);
      assert M.Wants(ms[k], name);
    }
  }

  /** From subscription to delivery: in every run whatsoever, the message dispatched at
      act i was relayed once to each process that then was active and whose last word,
      since it joined, on that name or on "*" was to register it; and to no other. */
  lemma MessageReaches(acts: seq<M.Act>, p: M.Post, i: nat, pid: int)
    requires M.Arrives(acts, p) && i < |acts| && acts[i].Dispatch?
    ensures var n := Dispatches(acts[..i]);
      && n < |p.accepted| && p.accepted == SentByMembers(acts)
      && M.Times(p.relayed, n, pid) == (if Listens(Events(acts[..i]), pid, p.accepted[n].name) then 1 else 0)
      && forall r :: r in p.relayed && r.number == n ==> r.message == p.accepted[n]
  {
    hide M.Times;
    hide M.Subscribed;
    hide M.Arrives;
    hide Listens;
    PostFollows(acts, p);
    assert AudienceAt(acts, p, i);
    var n := Dispatches(acts[..i]);
    AudienceAccepted(acts, p);
    M.ExactFanOut(acts, p, n, pid);
    ListensIs(Events(acts[..i]), pid, p.accepted[n].name);
  }

  lemma AudienceAccepted(acts: seq<M.Act>, p: M.Post)
    requires M.Arrives(acts, p)
    ensures |p.audience| <= |p.accepted|
    ensures forall r :: r in p.relayed ==> r.number < |p.accepted| && r.message == p.accepted[r.number]
  {
    M.PostReached(acts, p);
  }
}
