/**
 Remote calls end to end: callers, providers, the daemon's threads and the network
 between them, as a system that takes one step at a time. A step is one critical
 section of the daemon, one list operation of a client library, or one datagram.
 */
module Broker {
  import opened CText
  import opened Members
  import opened Registry
  import opened Calls

  /** What the semaphore of a waiting call is posted with. */
  datatype Reply = Reply(code: int, bytes: seq<Byte>)

  /** A client handle: the next ack id, the calls waiting on their semaphores, those
      that have been woken, and the calls it serves: received and running. */
  datatype Handle = Handle(nextId: nat, waiting: seq<nat>, woken: map<nat, Reply>, inbox: seq<Call>, running: seq<Call>)

  type Key = (int, nat)

  function KeyOf(r: Request): Key { (r.caller, r.id) }

  /** The function of a process has run for a call and returned this. */
  datatype Outcome = Outcome(call: Call, from: int, code: int, bytes: seq<Byte>)

  /** A call was dispatched to this list of members. */
  datatype Dispatching = Dispatching(call: Call, members: seq<Info>)

  /** The records of a run: every request made, every request given a magic number, by
      that number, the calls that left the daemon, with whether their caller was a
      member then, the acks sent, the dispatches, and the results produced. */
  datatype History = History(made: set<Request>, calls: seq<Request>, closed: map<nat, bool>, acks: multiset<Key>,
                             dispatches: set<Dispatching>, outcomes: set<Outcome>)

  /** held is the call the probe thread has pulled but not dispatched; net the datagrams
      under way. */
  datatype System = System(server: Server, held: seq<Call>, net: multiset<Packet>, handles: map<int, Handle>, past: History)

  datatype Step =
    | Create(pid: int)                                                             // ipc_creat
    | Begin(pid: int, target: Name, api: Name, data: seq<Byte>, timeout: int)      // ipc_call_api up to its sem_wait
    | TakeCall(packet: Packet)                                                     // API_CALL at the daemon
    | Pull                                                                         // ipcd_api_pull
    | Probing                                                                      // _ipcd_api_probe
    | TakeRelay(packet: Packet)                                                    // ipc_api_push at the provider
    | Start(pid: int)                                                              // ipc_api_recv_probe
    | Execute(pid: int, k: nat, code: int, bytes: seq<Byte>)                       // ipc_api_callreal_thread
    | Ignore(pid: int, k: nat)                                                     // the same without such an API
    | TakeFinish(packet: Packet)                                                   // RUNTIME_RECODE at the daemon
    | TakeAck(packet: Packet)                                                      // API_ACK_RELAY at the caller
    | TimeoutSweep                                                                 // ipc_api_timeout_check_thread
    | Membership(event: Event)                                                     // any change of the member list
    | Lose(packet: Packet)                                                         // the network drops a datagram

  predicate Enabled(s: System, a: Step) {
    match a
    case Create(pid) => pid !in s.handles
    case Begin(pid, _, _, _, _) => pid in s.handles
    case TakeCall(p) => p in s.net && p.CallPacket?
    case Pull => s.server.queue != [] && s.held == []
    case Probing => s.held != []
    case TakeRelay(p) => p in s.net && p.RelayPacket? && p.to in s.handles
    case Start(pid) => pid in s.handles && s.handles[pid].inbox != []
    case Execute(pid, k, _, _) => pid in s.handles && k < |s.handles[pid].running|
    case Ignore(pid, k) => pid in s.handles && k < |s.handles[pid].running|
    case TakeFinish(p) => p in s.net && p.FinishPacket?
    case TakeAck(p) => p in s.net && p.AckPacket? && p.to in s.handles
    case TimeoutSweep => true
    case Membership(_) => true
    case Lose(p) => p in s.net
  }

  // ----- the client library

  /** ipc_call_api: the ack id is taken and the call put on the wait list. */
  function Wait(h: Handle): Handle { h.(nextId := h.nextId + 1, waiting := h.waiting + [h.nextId]) }

  function WaitIndex(waiting: seq<nat>, id: nat): (r: nat)
    ensures r <= |waiting| && (r < |waiting| ==> waiting[r] == id)
    ensures forall k :: 0 <= k < r ==> waiting[k] != id
  {
    if waiting == [] || waiting[0] == id then 0 else 1 + WaitIndex(waiting[1..], id)
  }

  /** The ack case of ipc_recv_analysis: the first call waiting under this id is taken
      off the list and woken; an ack nobody waits for is dropped. */
  function Wake(h: Handle, id: nat, reply: Reply): Handle {
    var k := WaitIndex(h.waiting, id);
    if k < |h.waiting| then h.(waiting := Cut(h.waiting, k), woken := h.woken[id := reply]) else h
  }

  /** What ipc_call_api returns once woken; pointers says whether the caller passed
      both result pointers. */
  function Returned(reply: Reply, pointers: bool): (int, Option<seq<Byte>>) {
    if reply.bytes != [] && !pointers then (IN_PARAM_ERROR, None)
    else if reply.code != ACK_OK && reply.code != ACK_FAIL then (reply.code, None)
    else if pointers then (reply.code, Some(reply.bytes))
    else (reply.code, None)
  }

  // ----- steps

  function Sent(packets: seq<Packet>): multiset<Packet> { multiset(packets) }

  function AckKeys(packets: seq<Packet>): multiset<Key> {
    if packets == [] then multiset{}
    else (if packets[0].AckPacket? then multiset{(packets[0].to, packets[0].id)} else multiset{}) + AckKeys(packets[1..])
  }

  /** Calls leaving the daemon; whether each caller is a member is recorded. */
  function Closing(ms: seq<Info>, cs: seq<Call>, closed: map<nat, bool>): map<nat, bool> {
    if cs == [] then closed else Closing(ms, cs[1..], closed[cs[0].magic := IsMember(ms, cs[0].req.caller)])
  }

  /** The calls the daemon is done with after a step. */
  function Settled(s: System, a: Step): seq<Call>
    requires Enabled(s, a)
  {
    match a
    case Probing =>
      if Probe(s.server.members, s.held[0].req.target, s.held[0].req.api).0 == [] then [s.held[0]] else []
    case TakeFinish(f) =>
      var k := MagicIndex(s.server.pending, f.magic);
      if Registered(s.server.members, f.from, f.api) && k < |s.server.pending| then [s.server.pending[k]] else []
    case TimeoutSweep => Expired(s.server.pending)
    case _ => []
  }

  /** What the daemon does in a step: its new state and the packets it sends. */
  function Serve(s: System, a: Step): (Server, seq<Packet>)
    requires Enabled(s, a)
  {
    match a
    case TakeCall(p) => (Receive(s.server, p.req), [])
    case Pull => (s.server.(queue := s.server.queue[1..]), [])
    case Probing => Dispatch(s.server, s.held[0])
    case TakeFinish(f) => Finish(s.server, f)
    case TimeoutSweep => Expire(s.server)
    case Membership(e) => (s.server.(members := Registry.Step(s.server.members, e)), [])
    case _ => (s.server, [])
  }

  function NextHandles(s: System, a: Step): map<int, Handle>
    requires Enabled(s, a)
  {
    var hs := s.handles;
    match a
    case Create(pid) => hs[pid := Handle(0, [], map[], [], [])]
    case Begin(pid, _, _, _, _) => hs[pid := Wait(hs[pid])]
    case TakeRelay(p) => hs[p.to := hs[p.to].(inbox := hs[p.to].inbox + [p.call])]
    case Start(pid) => hs[pid := hs[pid].(inbox := hs[pid].inbox[1..], running := hs[pid].running + [hs[pid].inbox[0]])]
    case Execute(pid, k, _, _) => hs[pid := hs[pid].(running := Cut(hs[pid].running, k))]
    case Ignore(pid, k) => hs[pid := hs[pid].(running := Cut(hs[pid].running, k))]
    case TakeAck(p) => hs[p.to := Wake(hs[p.to], p.id, Reply(p.code, p.bytes))]
    case _ => hs
  }

  /** The request of a Begin step. */
  function Asked(s: System, a: Step): Request
    requires Enabled(s, a) && a.Begin?
  {
    Request(a.pid, s.handles[a.pid].nextId, a.target, a.api, a.data, a.timeout)
  }

  function FinishOf(pid: int, c: Call, code: int, bytes: seq<Byte>): Packet {
    FinishPacket(pid, c.req.api, c.magic, c.req.id, code, bytes)
  }

  function NextNet(s: System, a: Step): multiset<Packet>
    requires Enabled(s, a)
  {
    match a
    case Begin(_, _, _, _, _) => s.net + multiset{CallPacket(Asked(s, a))}
    case Execute(pid, k, code, bytes) => s.net + multiset{FinishOf(pid, s.handles[pid].running[k], code, bytes)}
    case TakeCall(p) => s.net - multiset{p}
    case TakeRelay(p) => s.net - multiset{p}
    case TakeAck(p) => s.net - multiset{p}
    case TakeFinish(p) => s.net - multiset{p} + Sent(Serve(s, a).1)
    case Lose(p) => s.net - multiset{p}
    case _ => s.net + Sent(Serve(s, a).1)
  }

  function Dispatched(s: System, a: Step): set<Dispatching>
    requires Enabled(s, a)
  {
    if a.Probing? then {Dispatching(s.held[0], s.server.members)} else {}
  }

  function NextPast(s: System, a: Step): History
    requires Enabled(s, a)
  {
    var past := s.past;
    match a
    case Begin(_, _, _, _, _) => past.(made := past.made + {Asked(s, a)})
    case TakeCall(p) =>
      if IsMember(s.server.members, p.req.caller) then past.(calls := past.calls + [p.req]) else past
    case Execute(pid, k, code, bytes) =>
      past.(outcomes := past.outcomes + {Outcome(s.handles[pid].running[k], pid, code, bytes)})
    case _ =>
      past.(closed := Closing(s.server.members, Settled(s, a), past.closed), acks := past.acks + AckKeys(Serve(s, a).1),
            dispatches := past.dispatches + Dispatched(s, a))
  }

  function NextHeld(s: System, a: Step): seq<Call>
    requires Enabled(s, a)
  {
    if a.Pull? then [s.server.queue[0]] else if a.Probing? then s.held[1..] else s.held
  }

  function Next(s: System, a: Step): System
    requires Enabled(s, a)
  {
    System(Serve(s, a).0, NextHeld(s, a), NextNet(s, a), NextHandles(s, a), NextPast(s, a))
  }

  function InitialSystem(): System {
    System(Server([], [], [], 0), [], multiset{}, map[], History({}, [], map[], multiset{}, {}, {}))
  }
}
