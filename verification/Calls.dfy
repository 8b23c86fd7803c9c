/**
 The daemon's handling of remote calls as functions on values: accepting, resolving
 and relaying a call, finishing it, and timing it out.
 */
module Calls {
  import opened CText
  import opened Members
  import opened Registry

  /** What ipc_call_api asks for: the caller, its ack id, program and API called, the
      argument bytes and the timeout in milliseconds. */
  datatype Request = Request(caller: int, id: nat, target: Name, api: Name, data: seq<Byte>, timeout: int)

  /** A request in the daemon: its magic number and the time left. */
  datatype Call = Call(req: Request, magic: nat, left: int)

  datatype Packet =
    | CallPacket(req: Request)
    | RelayPacket(to: int, call: Call)
    | FinishPacket(from: int, api: Name, magic: nat, id: nat, code: int, bytes: seq<Byte>)
    | AckPacket(to: int, id: nat, code: int, bytes: seq<Byte>)

  const ACK_OK := 0
  const ACK_FAIL := 1
  const IN_PARAM_ERROR := 2
  const CANTFIND_API := 3
  const CANTFIND_PROGRAM := 4
  const ACK_TIMEOUT := 5

  const TIMEOUT_MAX := 0xffffff

  /** The state of the daemon: mlist, recv_alist, recv_acklist and the next magic number. */
  datatype Server = Server(members: seq<Info>, queue: seq<Call>, pending: seq<Call>, magic: nat)

  /** The time a call starts with; no timeout means the reserved maximum. */
  function Initial(timeout: int): int { if timeout != 0 then timeout else TIMEOUT_MAX }

  /** An ack goes out only to a member. */
  function AckTo(ms: seq<Info>, pid: int, id: nat, code: int, bytes: seq<Byte>): seq<Packet> {
    if IsMember(ms, pid) then [AckPacket(pid, id, code, bytes)] else []
  }

  /** An API_CALL packet: calls of non-members are dropped. */
  function Receive(s: Server, req: Request): Server {
    if IsMember(s.members, req.caller) then
      Server(Touch(s.members, req.caller), s.queue + [Call(req, s.magic, Initial(req.timeout))], s.pending, s.magic + 1)
    else s
  }

  // ----- resolving a call

  /** The loop of _ipcd_api_probe from position i on: whom it relays to, and whether it
      found the program. A suspended match makes it step over the next member too. */
  function ProbeFrom(ms: seq<Info>, i: nat, target: Name, api: Name): (seq<int>, bool)
    decreases |ms| - i
  {
    if i >= |ms| then ([], false)
    else if ms[i].name != target then ProbeFrom(ms, i + 1, target, api)
    else if ms[i].suspend then ProbeFrom(ms, i + 2, target, api)
    else ((if api in ms[i].apis then [ms[i].pid] else []) + ProbeFrom(ms, i + 1, target, api).0, true)
  }

  function Probe(ms: seq<Info>, target: Name, api: Name): (seq<int>, bool) { ProbeFrom(ms, 0, target, api) }

  datatype Verdict = NoProgram | NoApi | Provider(pid: int)

  function NameIndex(ms: seq<Info>, name: Name): (r: nat)
    ensures r <= |ms| && (r < |ms| ==> ms[r].name == name)
    ensures forall k :: 0 <= k < r ==> ms[k].name != name
  {
    if ms == [] || ms[0].name == name then 0 else 1 + NameIndex(ms[1..], name)
  }

  /** Look-up by name: the one member called target, if it is not suspended. */
  function Resolve(ms: seq<Info>, target: Name, api: Name): Verdict {
    var k := NameIndex(ms, target);
    if k == |ms| || ms[k].suspend then NoProgram
    else if api in ms[k].apis then Provider(ms[k].pid)
    else NoApi
  }

  lemma {:induction false} ProbePast(ms: seq<Info>, i: nat, target: Name, api: Name)
    requires forall k :: i <= k < |ms| ==> ms[k].name != target
    ensures ProbeFrom(ms, i, target, api) == ([], false)
    decreases |ms| - i
  {
    if i < |ms| {
      ProbePast(ms, i + 1, target, api);
    }
  }

  lemma {:induction false} ProbeUpTo(ms: seq<Info>, i: nat, j: nat, target: Name, api: Name)
    requires i <= j <= |ms| && forall k :: i <= k < j ==> ms[k].name != target
    ensures ProbeFrom(ms, i, target, api) == ProbeFrom(ms, j, target, api)
    decreases j - i
  {
    if i < j {
      ProbeUpTo(ms, i + 1, j, target, api);
    }
  }

  /** With distinct names the extra step never skips the target: dispatching is
      exactly look-up by name. */
  lemma ProbeIsLookup(ms: seq<Info>, target: Name, api: Name)
    requires Distinct(ms)
    ensures Probe(ms, target, api)
         == match Resolve(ms, target, api)
            case NoProgram => ([], false)
            case NoApi => ([], true)
            case Provider(pid) => ([pid], true)
  {
    var k := NameIndex(ms, target);
    ProbeUpTo(ms, 0, k, target, api);
    if k == |ms| {
    } else if ms[k].suspend {
      ProbePast(ms, k + 2, target, api);
    } else {
      ProbePast(ms, k + 1, target, api);
      assert [ms[k].pid] + [] == [ms[k].pid] && [] + ProbeFrom(ms, k + 1, target, api).0 == [];
    }
  }

  function Relays(pids: seq<int>, c: Call): (r: seq<Packet>)
    ensures |r| == |pids| && forall k :: 0 <= k < |pids| ==> r[k] == RelayPacket(pids[k], c)
  {
    seq(|pids|, k requires 0 <= k < |pids| => RelayPacket(pids[k], c))
  }

  function Copies(c: Call, n: nat): seq<Call> { seq(n, _ => c) }

  /** The critical section of _ipcd_api_probe for the call in hand. */
  function Dispatch(s: Server, c: Call): (Server, seq<Packet>) {
    var (pids, program) := Probe(s.members, c.req.target, c.req.api);
    if !program then (s, AckTo(s.members, c.req.caller, c.req.id, CANTFIND_PROGRAM, []))
    else if pids == [] then (s, AckTo(s.members, c.req.caller, c.req.id, CANTFIND_API, []))
    else (s.(pending := s.pending + Copies(c, |pids|)), Relays(pids, c))
  }

  /** What look-up by name means: the provider is the active member called target, if
      it registered the API. */
  lemma ResolveMeans(ms: seq<Info>, target: Name, api: Name, k: nat)
    requires Distinct(ms) && k < |ms| && ms[k].name == target
    ensures Resolve(ms, target, api)
         == if ms[k].suspend then NoProgram else if api in ms[k].apis then Provider(ms[k].pid) else NoApi
  {
    assert forall j :: 0 <= j < k ==> ms[j].name != target;
  }

  /** Among distinct members the call goes once to the provider its name resolves to and
      becomes pending, or its caller is told which of program and API is missing. */
  lemma DispatchResolves(s: Server, c: Call)
    requires Distinct(s.members)
    ensures Dispatch(s, c)
         == match Resolve(s.members, c.req.target, c.req.api)
            case NoProgram => (s, AckTo(s.members, c.req.caller, c.req.id, CANTFIND_PROGRAM, []))
            case NoApi => (s, AckTo(s.members, c.req.caller, c.req.id, CANTFIND_API, []))
            case Provider(pid) => (s.(pending := s.pending + [c]), [RelayPacket(pid, c)])
  {
    ProbeIsLookup(s.members, c.req.target, c.req.api);
    hide Probe;
    hide Resolve;
    hide AckTo;
    var v := Resolve(s.members, c.req.target, c.req.api);
    if v.Provider? {
      assert Copies(c, |[v.pid]|) == [c];
      assert Relays([v.pid], c) == [RelayPacket(v.pid, c)];
    }
  }

  /** So in every run whose joins skip nobody. */
  lemma DispatchInRuns(es: seq<Event>, s: Server, c: Call)
    requires NoSkips(es) && s.members == Run(es)
    ensures Dispatch(s, c)
         == match Resolve(s.members, c.req.target, c.req.api)
            case NoProgram => (s, AckTo(s.members, c.req.caller, c.req.id, CANTFIND_PROGRAM, []))
            case NoApi => (s, AckTo(s.members, c.req.caller, c.req.id, CANTFIND_API, []))
            case Provider(pid) => (s.(pending := s.pending + [c]), [RelayPacket(pid, c)])
  {
    RegistryInvariant(es);
    TidyIsDistinct(s.members);
    DispatchResolves(s, c);
  }

  // ----- finishing a call

  function MagicIndex(calls: seq<Call>, magic: nat): (r: nat)
    ensures r <= |calls| && (r < |calls| ==> calls[r].magic == magic)
    ensures forall k :: 0 <= k < r ==> calls[k].magic != magic
  {
    if calls == [] || calls[0].magic == magic then 0 else 1 + MagicIndex(calls[1..], magic)
  }

  /** The provider is still a member and still has the API registered. */
  predicate Registered(ms: seq<Info>, pid: int, api: Name) {
    IsMember(ms, pid) && api in ms[IndexOf(ms, pid)].apis
  }

  /** A finish record. The last case is the branch that answers the provider itself. */
  function Finish(s: Server, f: Packet): (Server, seq<Packet>)
    requires f.FinishPacket?
  {
    if Registered(s.members, f.from, f.api) then
      var k := MagicIndex(s.pending, f.magic);
      if k < |s.pending| then
        (s.(pending := Cut(s.pending, k)), AckTo(s.members, s.pending[k].req.caller, f.id, f.code, f.bytes))
      else (s, [])
    else (s, AckTo(s.members, f.from, f.id, f.code, f.bytes))
  }

  // ----- timing out

  function Tick(c: Call): Call { c.(left := if c.left == TIMEOUT_MAX then c.left else c.left - 100) }

  /** The entries a sweep leaves, each one step older, in their order. */
  function Survivors(ps: seq<Call>): seq<Call> {
    if ps == [] then []
    else (if Tick(ps[0]).left > 0 then [Tick(ps[0])] else []) + Survivors(ps[1..])
  }

  /** The entries a sweep times out. */
  function Expired(ps: seq<Call>): seq<Call> {
    if ps == [] then []
    else (if Tick(ps[0]).left > 0 then [] else [Tick(ps[0])]) + Expired(ps[1..])
  }

  function TimeoutAcks(ms: seq<Info>, cs: seq<Call>): seq<Packet> {
    if cs == [] then []
    else AckTo(ms, cs[0].req.caller, cs[0].req.id, ACK_TIMEOUT, []) + TimeoutAcks(ms, cs[1..])
  }

  /** One pass of ipc_api_timeout_check_thread. */
  function Expire(s: Server): (Server, seq<Packet>) {
    (s.(pending := Survivors(s.pending)), TimeoutAcks(s.members, Expired(s.pending)))
  }

  lemma {:induction false} SweepMembers(ps: seq<Call>, c: Call)
    ensures c in Survivors(ps) <==> exists p :: p in ps && c == Tick(p) && c.left > 0
    ensures c in Expired(ps) <==> exists p :: p in ps && c == Tick(p) && c.left <= 0
  {
    if ps != [] {
      SweepMembers(ps[1..], c);
      assert ps == [ps[0]] + ps[1..];
    }
  }

  // ----- when a call times out

  /** The sweep at which an entry recorded with time t expires; an entry whose time
      is the reserved maximum, or reaches it on the way down, never does. */
  function Due(t: int): Option<nat> {
    if t >= TIMEOUT_MAX && (t - TIMEOUT_MAX) % 100 == 0 then None
    else Some(if t <= 100 then 1 else (t + 99) / 100)
  }

  /** The time left after k sweeps. */
  function LeftAfter(t: int, k: nat): int {
    if k == 0 then t else var v := LeftAfter(t, k - 1); if v == TIMEOUT_MAX then v else v - 100
  }

  lemma {:induction false} LeftClosed(t: int, k: nat)
    ensures LeftAfter(t, k)
         == if t >= TIMEOUT_MAX && (t - TIMEOUT_MAX) % 100 == 0 && t - 100 * k <= TIMEOUT_MAX then TIMEOUT_MAX else t - 100 * k
  {
    if k > 0 {
      LeftClosed(t, k - 1);
    }
  }

  /** An entry that has survived k sweeps expires at the next one exactly when that is due. */
  lemma DueExactly(t: int, k: nat)
    requires k > 0 ==> LeftAfter(t, k) > 0
    ensures LeftAfter(t, k + 1) <= 0 <==> (Due(t).Some? && Due(t).value <= k + 1)
    ensures Due(t).Some? && Due(t).value <= k + 1 ==> Due(t).value == k + 1
  {
    LeftClosed(t, k);
    LeftClosed(t, k + 1);
  }

  /** What happens to the list of pending calls in a run. A call is recorded once for
      every provider it is relayed to. */
  datatype Change = Recorded(call: Call, copies: nat) | Answered(magic: nat) | Swept

  function Changed(ps: seq<Call>, e: Change): seq<Call> {
    match e
    case Recorded(c, n) => ps + Copies(c, n)
    case Answered(magic) =>
      var k := MagicIndex(ps, magic);
      if k < |ps| then Cut(ps, k) else ps
    case Swept => Survivors(ps)
  }

  function PendingAfter(es: seq<Change>): seq<Call> {
    if es == [] then [] else Changed(PendingAfter(es[..|es| - 1]), es[|es| - 1])
  }

  /** Every magic number is dispatched once, with the time the caller asked for. */
  predicate ProperlyRecorded(es: seq<Change>) {
    && (forall i :: 0 <= i < |es| && es[i].Recorded? ==> es[i].call.left == Initial(es[i].call.req.timeout))
    && forall i, j :: 0 <= i < j < |es| && es[i].Recorded? && es[j].Recorded? ==> es[i].call.magic != es[j].call.magic
  }

  /** The sweeps since the call with this magic number was recorded. */
  function SweepsSeen(es: seq<Change>, magic: nat): nat {
    if es == [] then 0
    else
      var before, e := es[..|es| - 1], es[|es| - 1];
      if e.Swept? then SweepsSeen(before, magic) + 1
      else if e.Recorded? && e.call.magic == magic then 0
      else SweepsSeen(before, magic)
  }

  predicate Timely(c: Call, sweeps: nat) {
    c.left == LeftAfter(Initial(c.req.timeout), sweeps) && (sweeps > 0 ==> c.left > 0)
  }

  lemma {:induction false} PendingRecorded(es: seq<Change>, c: Call)
    requires c in PendingAfter(es)
    ensures exists i :: 0 <= i < |es| && es[i].Recorded? && es[i].call.magic == c.magic
    decreases |es|
  {
    var before, e := es[..|es| - 1], es[|es| - 1];
    var p := c;
    if e.Swept? {
      SweepMembers(PendingAfter(before), c);
      p :| p in PendingAfter(before) && c == Tick(p);
    }
    if !(e.Recorded? && e.call == c) {
      PendingRecorded(before, p);
      var i :| 0 <= i < |before| && before[i].Recorded? && before[i].call.magic == c.magic;
      assert es[i] == before[i];
    }
  }

  /** In every run each pending call has been counted down once per sweep. */
  lemma {:induction false} PendingTimely(es: seq<Change>, c: Call)
    requires ProperlyRecorded(es) && c in PendingAfter(es)
    ensures Timely(c, SweepsSeen(es, c.magic))
    decreases |es|
  {
    var before, e := es[..|es| - 1], es[|es| - 1];
    assert forall i :: 0 <= i < |before| ==> before[i] == es[i];
    if e.Swept? {
      SweepMembers(PendingAfter(before), c);
      var p :| p in PendingAfter(before) && c == Tick(p) && c.left > 0;
      PendingTimely(before, p);
    } else if e.Recorded? && e.call == c {
    } else {
      assert c in PendingAfter(before);
      PendingTimely(before, c);
      PendingRecorded(before, c);
    }
  }

  /** In every run, a pending call is timed out by the next sweep exactly when that is
      the sweep due for the timeout it was made with. */
  lemma TimesOutExactly(es: seq<Change>, c: Call)
    requires ProperlyRecorded(es) && c in PendingAfter(es)
    ensures Tick(c) in Expired(PendingAfter(es)) <==> Due(Initial(c.req.timeout)) == Some(SweepsSeen(es, c.magic) + 1)
  {
    var t, k := Initial(c.req.timeout), SweepsSeen(es, c.magic);
    PendingTimely(es, c);
    hide PendingAfter;
    hide SweepsSeen;
    hide ProperlyRecorded;
    TickExpires(PendingAfter(es), c);
    TimelyIs(c, k);
    DueExactly(t, k);
  }

  lemma TimelyIs(c: Call, k: nat)
    requires Timely(c, k)
    ensures Tick(c).left == LeftAfter(Initial(c.req.timeout), k + 1) && (k > 0 ==> LeftAfter(Initial(c.req.timeout), k) > 0)
  {
    hide Initial;
  }

  /** Entries that are the same after a tick have the same time left, and share it. */
  lemma TickExpires(ps: seq<Call>, c: Call)
    requires c in ps
    ensures Tick(c) in Expired(ps) <==> Tick(c).left <= 0
  {
    hide Tick;
    SweepMembers(ps, Tick(c));
  }

  /** The due sweep is the hundredth part of the timeout, rounded up, and the first one
      for a negative timeout; there is none without a timeout, and none for a timeout
      that reaches the reserved maximum on its way down. */
  lemma DueIsCeiling(t: int)
    ensures Due(Initial(t)) == None <==> (t == 0 || (t >= 0xffffff && (t - 0xffffff) % 100 == 0))
    ensures t > 0 && Due(Initial(t)).Some? ==> 100 * (Due(Initial(t)).value - 1) < t <= 100 * Due(Initial(t)).value
    ensures t < 0 ==> Due(Initial(t)) == Some(1)
  {
  }

  /** A call never times out if and only if it is made without a timeout, or with one
      that reaches the reserved maximum on its way down. */
  lemma NeverExactly(t: int)
    ensures (forall k: nat :: LeftAfter(Initial(t), k) > 0) <==> (t == 0 || (t >= 0xffffff && (t - 0xffffff) % 100 == 0))
    ensures Due(Initial(t)) == None <==> (forall k: nat :: LeftAfter(Initial(t), k) > 0)
  {
    var first := Initial(t);
    if t == 0 || (t >= TIMEOUT_MAX && (t - TIMEOUT_MAX) % 100 == 0) {
      forall k: nat
        ensures LeftAfter(first, k) > 0
      {
        LeftClosed(first, k);
      }
    } else {
      var k := if first <= 0 then 0 else first;
      LeftClosed(first, k);
      assert LeftAfter(first, k) <= 0;
    }
  }

  /** A hundred milliseconds more than the reserved maximum are never over. */
  lemma LongTimeoutExample(k: nat)
    ensures LeftAfter(Initial(0xffffff + 100), k) > 0 && Due(Initial(0xffffff + 100)) == None
  {
    NeverExactly(0xffffff + 100);
  }
}
