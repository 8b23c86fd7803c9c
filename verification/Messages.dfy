/**
 Messages: the daemon accepts them from members and relays each to everybody who
 subscribed to its name. Runs of that part, with any change of the member list between.
 */
module Messages {
  import opened CText
  import opened Members
  import opened Registry
  import opened Entries

  datatype Message = Message(name: Name, data: seq<Byte>)

  const ANY: Name := "*"

  /** A member that gets messages of this name. */
  predicate Wants(m: Info, name: Name) { !m.suspend && (name in m.msgs || ANY in m.msgs) }

  /** Whom _ipcd_msg_probe relays a message to, in the order of the member list. */
  function Subscribers(ms: seq<Info>, name: Name): seq<int> {
    if ms == [] then [] else (if Wants(ms[0], name) then [ms[0].pid] else []) + Subscribers(ms[1..], name)
  }

  /** A relayed message: its number in the order of acceptance, receiver and content. */
  datatype Relay = Relay(number: nat, pid: int, message: Message)

  /** members, recv_mlist and the message in the hand of the probe thread; accepted are
      all messages accepted so far, audience the member lists at which those dispatched
      were dispatched, relayed everything sent. */
  datatype Post = Post(members: seq<Info>, queue: seq<Message>, held: seq<Message>, accepted: seq<Message>,
                       audience: seq<seq<Info>>, relayed: seq<Relay>)

  datatype Act = Send(pid: int, message: Message) | Pull | Dispatch | Change(event: Event)

  predicate Possible(p: Post, a: Act) {
    match a
    case Pull => p.queue != [] && p.held == []
    case Dispatch => p.held != []
    case _ => true
  }

  function Stamp(number: nat, pids: seq<int>, message: Message): (r: seq<Relay>)
    ensures |r| == |pids| && forall k :: 0 <= k < |pids| ==> r[k] == Relay(number, pids[k], message)
  {
    seq(|pids|, k requires 0 <= k < |pids| => Relay(number, pids[k], message))
  }

  function After(p: Post, a: Act): Post
    requires Possible(p, a)
  {
    match a
    case Send(pid, message) =>
      if IsMember(p.members, pid) then
        p.(members := Touch(p.members, pid), queue := p.queue + [message], accepted := p.accepted + [message])
      else p
    case Pull => p.(queue := p.queue[1..], held := [p.queue[0]])
    case Dispatch =>
      p.(held := p.held[1..], audience := p.audience + [p.members],
         relayed := p.relayed + Stamp(|p.audience|, Subscribers(p.members, p.held[0].name), p.held[0]))
    case Change(e) => p.(members := Step(p.members, e))
  }

  function Empty(): Post { Post([], [], [], [], [], []) }

  ghost predicate Arrives(acts: seq<Act>, p: Post) {
    if acts == [] then p == Empty() else exists b :: Arrives(Front(acts), b) && Turns(b, acts[|acts| - 1], p)
  }

  function Front(acts: seq<Act>): seq<Act>
    requires acts != []
  {
    acts[..|acts| - 1]
  }

  ghost predicate Turns(b: Post, a: Act, p: Post) { Possible(b, a) && p == After(b, a) }

  // ----- whom a message reaches

  predicate Subscribed(ms: seq<Info>, pid: int, name: Name) {
    exists k :: 0 <= k < |ms| && ms[k].pid == pid && Wants(ms[k], name)
  }

  /** How many members of this process id want the message. */
  function Wanting(ms: seq<Info>, pid: int, name: Name): nat {
    if ms == [] then 0 else (if ms[0].pid == pid && Wants(ms[0], name) then 1 else 0) + Wanting(ms[1..], pid, name)
  }

  /** One pass of the loop names a process once for each of its members that wants the
      message. */
  lemma {:induction false} SubscribersCounted(ms: seq<Info>, name: Name, pid: int)
    ensures multiset(Subscribers(ms, name))[pid] == Wanting(ms, pid, name)
  {
    if ms != [] {
      SubscribersCounted(ms[1..], name, pid);
      hide Wants;
      assert Subscribers(ms, name) == (if Wants(ms[0], name) then [ms[0].pid] else []) + Subscribers(ms[1..], name);
    }
  }

  lemma TailHolds(ms: seq<Info>)
    requires FirstHolds(ms) && ms != []
    ensures FirstHolds(ms[1..]) && forall k :: 0 <= k < |ms| - 1 ==> ms[1..][k] == ms[k + 1]
    ensures forall m :: m in ms[1..] && m.pid == ms[0].pid ==> Bare(m)
  {
  }

  lemma {:induction false} WantingOnce(ms: seq<Info>, pid: int, name: Name)
    requires FirstHolds(ms)
    ensures Wanting(ms, pid, name) == if Subscribed(ms, pid, name) then 1 else 0
  {
    if ms != [] {
      var rest := ms[1..];
      TailHolds(ms);
      WantingOnce(rest, pid, name);
      hide FirstHolds;
      if Subscribed(ms, pid, name) {
        var k :| 0 <= k < |ms| && ms[k].pid == pid && Wants(ms[k], name);
        assert k > 0 ==> rest[k - 1] == ms[k] && rest[k - 1] in rest;
      }
      if Subscribed(rest, pid, name) {
        var k :| 0 <= k < |rest| && rest[k].pid == pid && Wants(rest[k], name);
        assert ms[k + 1] == rest[k] && rest[k] in rest;
      }
    }
  }

  /** So every subscriber is named once and nobody else is. */
  lemma SubscribersExact(ms: seq<Info>, name: Name, pid: int)
    requires FirstHolds(ms)
    ensures multiset(Subscribers(ms, name))[pid] == if Subscribed(ms, pid, name) then 1 else 0
  {
    SubscribersCounted(ms, name, pid);
    WantingOnce(ms, pid, name);
  }

  // ----- what every run keeps

  /** Accepted messages are dispatched, held or queued, in this order. */
  predicate InOrder(p: Post) {
    && |p.held| <= 1 && |p.audience| <= |p.accepted|
    && p.accepted[|p.audience|..] == p.held + p.queue
  }

  /** Number n was relayed to pid. */
  predicate Reached(p: Post, n: nat, pid: int)
    requires |p.audience| <= |p.accepted|
  {
    n < |p.audience| && Subscribed(p.audience[n], pid, p.accepted[n].name)
  }

  /** The number of times message n was relayed to pid. */
  function Times(relayed: seq<Relay>, n: nat, pid: int): nat {
    if relayed == [] then 0
    else (if relayed[0].number == n && relayed[0].pid == pid then 1 else 0) + Times(relayed[1..], n, pid)
  }

  lemma {:induction false} TimesAppend(a: seq<Relay>, b: seq<Relay>, n: nat, pid: int)
    ensures Times(a + b, n, pid) == Times(a, n, pid) + Times(b, n, pid)
  {
    if a == [] {
      assert a + b == b;
    } else {
      assert (a + b)[1..] == a[1..] + b;
      TimesAppend(a[1..], b, n, pid);
    }
  }

  lemma {:induction false} TimesStamped(number: nat, pids: seq<int>, message: Message, n: nat, pid: int)
    ensures Times(Stamp(number, pids, message), n, pid) == if n == number then multiset(pids)[pid] else 0
  {
    if pids != [] {
      assert Stamp(number, pids, message)[1..] == Stamp(number, pids[1..], message);
      TimesStamped(number, pids[1..], message, n, pid);
      assert pids == [pids[0]] + pids[1..];
    }
  }

  ghost predicate Exact(p: Post)
    requires |p.audience| <= |p.accepted|
  {
    forall n: nat, pid :: Times(p.relayed, n, pid) == if Reached(p, n, pid) then 1 else 0
  }

  /** Messages go out in the order of their acceptance, with their own content. */
  predicate Ordered(p: Post) {
    && (forall i :: 0 <= i < |p.relayed| ==>
          p.relayed[i].number < |p.audience| <= |p.accepted| && p.relayed[i].message == p.accepted[p.relayed[i].number])
    && forall i, j :: 0 <= i < j < |p.relayed| ==> p.relayed[i].number <= p.relayed[j].number
  }

  ghost predicate PostInv(p: Post) {
    FirstHolds(p.members) && InOrder(p) && Exact(p) && Ordered(p)
  }

  lemma DispatchExact(p: Post)
    requires PostInv(p) && p.held != []
    ensures Exact(After(p, Dispatch))
  {
    var q := After(p, Dispatch);
    var message, pids := p.held[0], Subscribers(p.members, p.held[0].name);
    assert p.accepted[|p.audience|] == p.accepted[|p.audience|..][0] == message;
    forall n: nat, pid
      ensures Times(q.relayed, n, pid) == if Reached(q, n, pid) then 1 else 0
    {
      TimesAppend(p.relayed, Stamp(|p.audience|, pids, message), n, pid);
      TimesStamped(|p.audience|, pids, message, n, pid);
      SubscribersExact(p.members, message.name, pid);
      assert Times(p.relayed, n, pid) == if Reached(p, n, pid) then 1 else 0;
    }
  }

  lemma DispatchOrdered(p: Post)
    requires PostInv(p) && p.held != []
    ensures Ordered(After(p, Dispatch)) && InOrder(After(p, Dispatch))
  {
    var q := After(p, Dispatch);
    assert p.accepted[|p.audience|] == p.accepted[|p.audience|..][0] == p.held[0];
    assert q.accepted[|q.audience|..] == p.accepted[|p.audience|..][1..] == q.held + q.queue;
  }

  lemma SendKeeps(p: Post, a: Act)
    requires PostInv(p) && a.Send?
    ensures PostInv(After(p, a))
  {
    StepHolds(p.members, Alive(a.pid));
    var q := After(p, a);
    assert q.accepted[|q.audience|..] == q.held + q.queue;
    forall n: nat, pid
      ensures Times(q.relayed, n, pid) == if Reached(q, n, pid) then 1 else 0
    {
      assert Times(p.relayed, n, pid) == if Reached(p, n, pid) then 1 else 0;
    }
  }

  lemma ChangeKeeps(p: Post, a: Act)
    requires PostInv(p) && a.Change?
    ensures PostInv(After(p, a))
  {
    StepHolds(p.members, a.event);
    hide Step;
    hide FirstHolds;
    var q := After(p, a);
    assert q == p.(members := q.members);
    forall n: nat, pid
      ensures Times(q.relayed, n, pid) == if Reached(q, n, pid) then 1 else 0
    {
      assert Times(p.relayed, n, pid) == if Reached(p, n, pid) then 1 else 0;
    }
  }

  lemma PostStep(p: Post, a: Act)
    requires PostInv(p) && Possible(p, a)
    ensures PostInv(After(p, a))
  {
    match a {
      case Send(_, _) => SendKeeps(p, a);
      case Pull => assert p.queue == [p.queue[0]] + p.queue[1..];
      case Dispatch =>
        DispatchExact(p);
        DispatchOrdered(p);
      case Change(_) => ChangeKeeps(p, a);
    }
  }

  lemma PostStart()
    ensures PostInv(Empty())
  {
  }

  lemma {:induction false} PostReached(acts: seq<Act>, p: Post)
    requires Arrives(acts, p)
    ensures PostInv(p)
    decreases |acts|
  {
    hide PostInv;
    hide After;
    if acts == [] {
      PostStart();
    } else {
      var b :| Arrives(Front(acts), b) && Turns(b, acts[|acts| - 1], p);
      PostReached(Front(acts), b);
      PostStep(b, acts[|acts| - 1]);
    }
  }

  /** Exact fan-out: in every run whatsoever, an accepted message that has been
      dispatched was relayed once to every process that then was a member, not
      suspended, and registered for its name or for "*", and to no other; one not yet
      dispatched was relayed to nobody. */
  lemma ExactFanOut(acts: seq<Act>, p: Post, n: nat, pid: int)
    requires Arrives(acts, p) && n < |p.accepted|
    ensures |p.audience| <= |p.accepted|
    ensures Times(p.relayed, n, pid)
         == if n < |p.audience| && Subscribed(p.audience[n], pid, p.accepted[n].name) then 1 else 0
  {
    PostReached(acts, p);
  }

  /** In every run whatsoever, messages are sent to each subscriber in the order the
      daemon accepted them, none twice, each with the content it was sent with. */
  lemma FanOutInOrder(acts: seq<Act>, p: Post, i: nat, j: nat)
    requires Arrives(acts, p) && i < j < |p.relayed| && p.relayed[i].pid == p.relayed[j].pid
    ensures p.relayed[i].number < p.relayed[j].number < |p.accepted|
    ensures p.relayed[i].message == p.accepted[p.relayed[i].number]
  {
    PostReached(acts, p);
    var a, b := p.relayed[i], p.relayed[j];
    assert Times(p.relayed, a.number, a.pid) <= 1;
    if a.number == b.number {
      TwiceCounts(p.relayed, i, j);
    }
  }

  lemma {:induction false} TwiceCounts(relayed: seq<Relay>, i: nat, j: nat)
    requires i < j < |relayed| && relayed[i].number == relayed[j].number && relayed[i].pid == relayed[j].pid
    ensures Times(relayed, relayed[i].number, relayed[i].pid) >= 2
  {
    var n, pid := relayed[i].number, relayed[i].pid;
    assert relayed == relayed[..j] + relayed[j..];
    TimesAppend(relayed[..j], relayed[j..], n, pid);
    OnceCounts(relayed[..j], i);
    OnceCounts(relayed[j..], 0);
  }

  lemma {:induction false} OnceCounts(relayed: seq<Relay>, i: nat)
    requires i < |relayed|
    ensures Times(relayed, relayed[i].number, relayed[i].pid) >= 1
  {
    if i > 0 {
      OnceCounts(relayed[1..], i - 1);
    }
  }
}
