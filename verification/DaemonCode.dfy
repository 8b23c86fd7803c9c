/**
 The daemon as it runs: members are objects in a list that the packet handlers and
 threads search by index and update in place. Each method is one critical section and
 does exactly what the functions on values say; what it sends, it returns.
 */
module DaemonCode {
  import opened CText
  import opened Members
  import opened Registry
  import opened Calls
  import opened Messages

  /** _mlist_member. */
  class Member {
    var pid: int
    var name: Name
    var live: nat
    var suspend: bool
    var apis: seq<Name>
    var msgs: seq<Name>

    constructor (pid: int, name: Name)
      ensures Value() == Newcomer(pid, name)
    {
      this.pid, this.name, live, suspend, apis, msgs := pid, name, 0, false, [], [];
    }

    ghost function Value(): Info
      reads this
    {
      Info(pid, name, live, suspend, apis, msgs)
    }
  }

  ghost function Values(list: seq<Member>): (r: seq<Info>)
    reads list
    ensures |r| == |list| && forall k :: 0 <= k < |list| ==> r[k] == list[k].Value()
  {
    if list == [] then [] else Values(list[..|list| - 1]) + [list[|list| - 1].Value()]
  }

  lemma ValuesAre(list: seq<Member>, ms: seq<Info>)
    requires |ms| == |list| && forall k :: 0 <= k < |list| ==> ms[k] == list[k].Value()
    ensures Values(list) == ms
  {
  }

  lemma ValuesCut(list: seq<Member>, i: nat)
    requires i < |list|
    ensures Values(Cut(list, i)) == Cut(Values(list), i)
  {
    hide Values;
    var ms, cut := Values(list), Cut(list, i);
    forall k | 0 <= k < |cut|
      ensures Cut(ms, i)[k] == cut[k].Value()
    {
      assert cut[k] == list[if k < i then k else k + 1];
    }
    ValuesAre(cut, Cut(ms, i));
  }

  predicate Apart(list: seq<Member>) { forall i, j :: 0 <= i < j < |list| ==> list[i] != list[j] }

  lemma ApartCut(list: seq<Member>, i: nat)
    requires Apart(list) && i < |list|
    ensures Apart(Cut(list, i)) && forall m :: m in Cut(list, i) ==> m in list
  {
  }

  lemma ApartAppend(list: seq<Member>, m: Member)
    requires Apart(list) && m !in list
    ensures Apart(list + [m])
  {
  }

  lemma JoinStarts(ms: seq<Info>, pid: int, name: Name)
    ensures Members.Join(ms, pid, name) == JoinFrom(ms, 0, pid, name)
  {
  }

  lemma JoinTurn(ms: seq<Info>, i: nat, pid: int, name: Name)
    ensures i >= |ms| ==> JoinFrom(ms, i, pid, name) == Joined(ms + [Newcomer(pid, name)], true)
                          && JoinFrom(ms, i + 1, pid, name) == JoinFrom(ms, i, pid, name)
    ensures i < |ms| && !Conflicts(ms[i], pid, name) ==> JoinFrom(ms, i, pid, name) == JoinFrom(ms, i + 1, pid, name)
    ensures i < |ms| && Conflicts(ms[i], pid, name) ==>
              JoinFrom(ms, i, pid, name)
              == if ms[i].suspend then JoinFrom(Evict(ms, ms[i], pid, name), i + 1, pid, name) else Joined(ms, false)
  {
  }

  lemma DropAt(names: seq<Name>, name: Name, j: nat)
    requires j < |names| && names[j] == name && forall k :: 0 <= k < j ==> names[k] != name
    ensures Drop(names, name) == Cut(names, j)
  {
    if j > 0 {
      DropAt(names[1..], name, j - 1);
      assert Cut(names, j) == [names[0]] + Cut(names[1..], j - 1);
    } else {
      assert Cut(names, 0) == names[1..];
    }
  }

  lemma {:induction false} ApiOwnerIs(ms: seq<Info>, pid: int, entry: Name, i: nat)
    requires i <= |ms| && (forall k :: 0 <= k < i ==> !(ms[k].pid == pid && entry in ms[k].apis))
    requires i < |ms| ==> ms[i].pid == pid && entry in ms[i].apis
    ensures ApiOwner(ms, pid, entry) == i
  {
    if i > 0 {
      ApiOwnerIs(ms[1..], pid, entry, i - 1);
    }
  }

  lemma {:induction false} MsgOwnerIs(ms: seq<Info>, pid: int, entry: Name, i: nat)
    requires i <= |ms| && (forall k :: 0 <= k < i ==> !(ms[k].pid == pid && entry in ms[k].msgs))
    requires i < |ms| ==> ms[i].pid == pid && entry in ms[i].msgs
    ensures MsgOwner(ms, pid, entry) == i
  {
    if i > 0 {
      MsgOwnerIs(ms[1..], pid, entry, i - 1);
    }
  }

  lemma {:induction false} MagicIndexIs(cs: seq<Call>, magic: nat, i: nat)
    requires i <= |cs| && (forall k :: 0 <= k < i ==> cs[k].magic != magic) && (i < |cs| ==> cs[i].magic == magic)
    ensures MagicIndex(cs, magic) == i
  {
    if i > 0 {
      MagicIndexIs(cs[1..], magic, i - 1);
    }
  }

  /** mlist, recv_alist, recv_acklist, recv_mlist and api_public_magic_number. */
  class Daemon {
    var mlist: seq<Member>
    var recvAlist: seq<Call>
    var recvAcklist: seq<Call>
    var recvMlist: seq<Message>
    var magic: nat

    constructor ()
      ensures Valid() && State() == Server([], [], [], 0) && recvMlist == []
    {
      mlist, recvAlist, recvAcklist, recvMlist, magic := [], [], [], [], 0;
    }

    ghost predicate Valid()
      reads this
    {
      Apart(mlist)
    }

    ghost function Infos(): seq<Info>
      reads this, mlist
    {
      Values(mlist)
    }

    ghost function State(): Server
      reads this, mlist
    {
      Server(Infos(), recvAlist, recvAcklist, magic)
    }

    /** ipcd_get_mlist_via_pid. */
    method GetMember(pid: int) returns (m: Member?)
      ensures m == null <==> !IsMember(Infos(), pid)
      ensures m != null ==> m == mlist[IndexOf(Infos(), pid)]
    {
      var i := 0;
      while i < |mlist|
        invariant i <= |mlist| && forall k :: 0 <= k < i ==> Infos()[k].pid != pid
      {
        if mlist[i].pid == pid {
          IndexOfIs(Infos(), pid, i);
          return mlist[i];
        }
        i := i + 1;
      }
      IndexOfIs(Infos(), pid, i);
      return null;
    }

    /** ipcd_mlist_remove_via_pid. */
    method RemoveViaPid(pid: int)
      requires Valid()
      modifies this`mlist
      ensures Valid() && Infos() == WithoutPid(old(Infos()), pid)
      ensures forall m :: m in mlist ==> m in old(mlist)
    {
      hide Values;
      hide Cut;
      hide Apart;
      hide IndexOf;
      var i := 0;
      while i < |mlist|
        invariant i <= |mlist| && mlist == old(mlist) && forall k :: 0 <= k < i ==> Infos()[k].pid != pid
      {
        if mlist[i].pid == pid {
          IndexOfIs(Infos(), pid, i);
          ValuesCut(mlist, i);
          ApartCut(mlist, i);
          mlist := Cut(mlist, i);
          return;
        }
        i := i + 1;
      }
      IndexOfIs(Infos(), pid, i);
    }

    /** ipcd_join. The size is read once, the list shrinks under it; the name of a
        member that has just been removed is still compared. */
    method Join(pid: int, name: Name) returns (accepted: bool)
      requires Valid()
      modifies this`mlist
      ensures Valid() && Joined(Infos(), accepted) == Members.Join(old(Infos()), pid, name)
      ensures forall m :: m in mlist ==> m in old(mlist) || fresh(m)
    {
      hide Values;
      hide Apart;
      hide WithoutPid;
      hide JoinFrom;
      hide Members.Join;
      JoinStarts(Infos(), pid, name);
      var memberSize := |mlist|;
      var i := 0;
      while i < memberSize
        invariant Valid() && |mlist| <= memberSize && forall m :: m in mlist ==> m in old(mlist)
        invariant JoinFrom(Infos(), i, pid, name) == Members.Join(old(Infos()), pid, name)
      {
        JoinTurn(Infos(), i, pid, name);
        if i < |mlist| {
          var tmlm := mlist[i];
          if tmlm.pid == pid {
            if !tmlm.suspend {
              return false;
            }
            RemoveViaPid(tmlm.pid);
          }
          if tmlm.name == name {
            if !tmlm.suspend {
              return false;
            }
            RemoveViaPid(tmlm.pid);
          }
        }
        i := i + 1;
      }
      JoinTurn(Infos(), i, pid, name);
      var member := new Member(pid, name);
      ghost var ms := Infos();
      ApartAppend(mlist, member);
      mlist := mlist + [member];
      ValuesAre(mlist, ms + [Newcomer(pid, name)]);
      accepted := true;
    }

    // ----- registering

    /** The search for a name in a member's list. */
    static method FindName(names: seq<Name>, entry: Name) returns (j: nat)
      ensures j <= |names| && (j < |names| <==> entry in names)
      ensures j < |names| ==> names[j] == entry && forall k :: 0 <= k < j ==> names[k] != entry
    {
      j := 0;
      while j < |names|
        invariant j <= |names| && forall k :: 0 <= k < j ==> names[k] != entry
      {
        if names[j] == entry {
          return;
        }
        j := j + 1;
      }
    }

    /** ipcd_register_api. */
    method RegisterApi(pid: int, entry: Name)
      requires Valid()
      modifies mlist`apis
      ensures Valid() && Infos() == Registry.RegisterApi(old(Infos()), pid, entry)
    {
      hide Values;
      hide IndexOf;
      ghost var ms := Infos();
      var i := 0;
      while i < |mlist|
        invariant i <= |mlist| && Infos() == ms && Valid() && forall k :: 0 <= k < i ==> ms[k].pid != pid
      {
        var tmlm := mlist[i];
        if tmlm.pid == pid {
          IndexOfIs(ms, pid, i);
          var j := FindName(tmlm.apis, entry);
          if j < |tmlm.apis| {
            return;
          }
          tmlm.apis := tmlm.apis + [entry];
          ValuesAre(mlist, ms[i := ms[i].(apis := Add(ms[i].apis, entry))]);
          return;
        }
        i := i + 1;
      }
      IndexOfIs(ms, pid, i);
    }

    /** ipcd_register_msg. */
    method RegisterMsg(pid: int, entry: Name)
      requires Valid()
      modifies mlist`msgs
      ensures Valid() && Infos() == Registry.RegisterMsg(old(Infos()), pid, entry)
    {
      hide Values;
      hide IndexOf;
      ghost var ms := Infos();
      var i := 0;
      while i < |mlist|
        invariant i <= |mlist| && Infos() == ms && Valid() && forall k :: 0 <= k < i ==> ms[k].pid != pid
      {
        var tmlm := mlist[i];
        if tmlm.pid == pid {
          IndexOfIs(ms, pid, i);
          var j := FindName(tmlm.msgs, entry);
          if j < |tmlm.msgs| {
            return;
          }
          tmlm.msgs := tmlm.msgs + [entry];
          ValuesAre(mlist, ms[i := ms[i].(msgs := Add(ms[i].msgs, entry))]);
          return;
        }
        i := i + 1;
      }
      IndexOfIs(ms, pid, i);
    }

    /** ipcd_unregister_api. */
    method UnregisterApi(pid: int, entry: Name)
      requires Valid()
      modifies mlist`apis
      ensures Valid() && Infos() == Registry.UnregisterApi(old(Infos()), pid, entry)
    {
      hide Values;
      hide ApiOwner;
      hide Drop;
      ghost var ms := Infos();
      var i := 0;
      while i < |mlist|
        invariant i <= |mlist| && Infos() == ms && Valid()
        invariant forall k :: 0 <= k < i ==> !(ms[k].pid == pid && entry in ms[k].apis)
      {
        var tmlm := mlist[i];
        if tmlm.pid == pid {
          var j := FindName(tmlm.apis, entry);
          if j < |tmlm.apis| {
            ApiOwnerIs(ms, pid, entry, i);
            DropAt(tmlm.apis, entry, j);
            tmlm.apis := Cut(tmlm.apis, j);
            ValuesAre(mlist, ms[i := ms[i].(apis := Drop(ms[i].apis, entry))]);
            return;
          }
        }
        i := i + 1;
      }
      ApiOwnerIs(ms, pid, entry, i);
    }

    /** ipcd_unregister_msg. */
    method UnregisterMsg(pid: int, entry: Name)
      requires Valid()
      modifies mlist`msgs
      ensures Valid() && Infos() == Registry.UnregisterMsg(old(Infos()), pid, entry)
    {
      hide Values;
      hide MsgOwner;
      hide Drop;
      ghost var ms := Infos();
      var i := 0;
      while i < |mlist|
        invariant i <= |mlist| && Infos() == ms && Valid()
        invariant forall k :: 0 <= k < i ==> !(ms[k].pid == pid && entry in ms[k].msgs)
      {
        var tmlm := mlist[i];
        if tmlm.pid == pid {
          var j := FindName(tmlm.msgs, entry);
          if j < |tmlm.msgs| {
            MsgOwnerIs(ms, pid, entry, i);
            DropAt(tmlm.msgs, entry, j);
            tmlm.msgs := Cut(tmlm.msgs, j);
            ValuesAre(mlist, ms[i := ms[i].(msgs := Drop(ms[i].msgs, entry))]);
            return;
          }
        }
        i := i + 1;
      }
      MsgOwnerIs(ms, pid, entry, i);
    }

    // ----- liveness

    /** The body of ipc_live_thread between lock and unlock. */
    method LiveSweep()
      requires Valid()
      modifies mlist`live, mlist`suspend
      ensures Valid() && Infos() == Registry.Sweep(old(Infos()))
    {
      hide Values;
      ghost var ms := Infos();
      var i := 0;
      while i < |mlist|
        invariant i <= |mlist| && Valid() && |Infos()| == |ms|
        invariant forall k :: 0 <= k < |ms| ==> mlist[k].Value() == if k < i then Aged(ms[k]) else ms[k]
      {
        var tmlm := mlist[i];
        assert forall k :: 0 <= k < |ms| && k != i ==> mlist[k] != tmlm;
        hide Apart;
        var count := tmlm.live;
        tmlm.live := tmlm.live + 1;
        if count > LIVE_TIMEOUT_NUM && !tmlm.suspend {
          tmlm.suspend := true;
        }
        i := i + 1;
      }
      ValuesAre(mlist, Registry.Sweep(ms));
    }

    /** A LIVE packet. */
    method OnLive(pid: int)
      requires Valid()
      modifies mlist`live, mlist`suspend
      ensures Valid() && Infos() == Touch(old(Infos()), pid)
    {
      hide Values;
      hide IndexOf;
      ghost var ms := Infos();
      var m := GetMember(pid);
      if m != null {
        m.live, m.suspend := 0, false;
        ghost var i := IndexOf(ms, pid);
        ValuesAre(mlist, ms[i := ms[i].(live := 0, suspend := false)]);
      }
    }

    // ----- calls

    /** An API_CALL packet. */
    method OnApiCall(req: Request)
      requires Valid()
      modifies this`recvAlist, this`magic, mlist`live, mlist`suspend
      ensures Valid() && State() == Receive(old(State()), req)
    {
      hide Values;
      hide IndexOf;
      var m := GetMember(req.caller);
      if m != null {
        OnLive(req.caller);
        var call := Call(req, magic, Initial(req.timeout));
        magic := magic + 1;
        recvAlist := recvAlist + [call];
      }
    }

    /** Finding the member to answer and relaying an ack to it. */
    method AckRelay(pid: int, id: nat, code: int, bytes: seq<Byte>) returns (sent: seq<Packet>)
      ensures sent == AckTo(Infos(), pid, id, code, bytes)
    {
      var m := GetMember(pid);
      if m == null {
        return [];
      }
      sent := [AckPacket(m.pid, id, code, bytes)];
    }

    /** The critical section of _ipcd_api_probe. */
    method ApiProbe(p: Call) returns (sent: seq<Packet>)
      requires Valid()
      modifies this`recvAcklist
      ensures Valid() && (State(), sent) == Calls.Dispatch(old(State()), p)
    {
      hide Values;
      hide AckTo;
      hide Probe;
      hide Onward;
      ghost var ms := Infos();
      ghost var pids: seq<int> := [];
      var program, api := false, false;
      sent := [];
      var i := 0;
      ProbeStarts(ms, p.req);
      while i < |mlist|
        invariant Infos() == ms && |ms| == |mlist|
        invariant recvAcklist == old(recvAcklist) + Copies(p, |pids|) && sent == Relays(pids, p)
        invariant (api <==> pids != []) && (api ==> program)
        invariant Probe(ms, p.req.target, p.req.api) == Onward(ms, i, p.req, pids, program)
      {
        ProbeTurn(ms, i, p.req, pids, program);
        var tmlm := mlist[i];
        assert ms[i] == tmlm.Value();
        if tmlm.name == p.req.target {
          if tmlm.suspend {
            i := i + 1;
          } else {
            program := true;
            var j := FindName(tmlm.apis, p.req.api);
            if j < |tmlm.apis| {
              sent := sent + [RelayPacket(tmlm.pid, p)];
              recvAcklist := recvAcklist + [p];
              pids := pids + [tmlm.pid];
              api := true;
            }
          }
        }
        i := i + 1;
      }
      ProbeEnds(ms, i, p.req, pids, program);
      if !program {
        sent := AckRelay(p.req.caller, p.req.id, CANTFIND_PROGRAM, []);
      } else if !api {
        sent := AckRelay(p.req.caller, p.req.id, CANTFIND_API, []);
      }
    }

    // ----- timing out and finishing

    /** The critical section of ipc_api_timeout_check_thread: entries are counted down
        and deleted in place while the list is walked. */
    method TimeoutSweep() returns (sent: seq<Packet>)
      requires Valid()
      modifies this`recvAcklist
      ensures Valid() && (State(), sent) == Expire(old(State()))
    {
      hide Values;
      hide AckTo;
      hide Tick;
      hide Survivors;
      hide Expired;
      hide TimeoutAcks;
      ghost var ms := Infos();
      ghost var ps, n, kept, gone := recvAcklist, 0, [], [];
      sent := [];
      var i := 0;
      SweepStarts(ms, ps);
      while i < |recvAcklist|
        invariant Infos() == ms
        invariant 0 <= n <= |ps| && i == |kept| && recvAcklist == kept + ps[n..]
        invariant Survivors(ps) == kept + Survivors(ps[n..]) && Expired(ps) == gone + Expired(ps[n..])
        invariant sent == TimeoutAcks(ms, gone)
        decreases |ps| - n
      {
        SweepTurn(ps, n, kept, gone);
        TickLeft(ps[n]);
        assert recvAcklist[i] == ps[n] && recvAcklist[..i] == kept && recvAcklist[i + 1..] == ps[n + 1..];
        var call := recvAcklist[i];
        if TIMEOUT_MAX != call.left {
          call := call.(left := call.left - 100);
        }
        recvAcklist := recvAcklist[i := call];
        if call.left <= 0 {
          var ack := AckRelay(call.req.caller, call.req.id, ACK_TIMEOUT, []);
          sent := sent + ack;
          AcksTurn(ms, gone, call);
          recvAcklist := Cut(recvAcklist, i);
          gone := gone + [call];
        } else {
          kept := kept + [call];
          i := i + 1;
        }
        n := n + 1;
      }
      SweepEnds(ps, n, kept, gone);
    }

    /** A finish record. */
    method OnFinish(f: Packet) returns (sent: seq<Packet>)
      requires Valid() && f.FinishPacket?
      modifies this`recvAcklist
      ensures Valid() && (State(), sent) == Finish(old(State()), f)
    {
      hide Values;
      hide AckTo;
      hide IndexOf;
      hide MagicIndex;
      var m := GetMember(f.from);
      if m != null {
        var j := FindName(m.apis, f.api);
        if j < |m.apis| {
          var k := 0;
          while k < |recvAcklist|
            invariant k <= |recvAcklist| && recvAcklist == old(recvAcklist)
            invariant forall x :: 0 <= x < k ==> recvAcklist[x].magic != f.magic
          {
            var call := recvAcklist[k];
            if f.magic == call.magic {
              MagicIndexIs(recvAcklist, f.magic, k);
              recvAcklist := Cut(recvAcklist, k);
              sent := AckRelay(call.req.caller, f.id, f.code, f.bytes);
              return;
            }
            k := k + 1;
          }
          MagicIndexIs(recvAcklist, f.magic, k);
          return [];
        }
      }
      sent := AckRelay(f.from, f.id, f.code, f.bytes);
    }

    // ----- messages

    /** A MSG_SEND packet. */
    method OnMsgSend(pid: int, message: Message)
      requires Valid()
      modifies this`recvMlist, mlist`live, mlist`suspend
      ensures Valid() && Infos() == Touch(old(Infos()), pid)
      ensures recvMlist == if IsMember(old(Infos()), pid) then old(recvMlist) + [message] else old(recvMlist)
    {
      hide Values;
      hide IndexOf;
      var m := GetMember(pid);
      if m != null {
        OnLive(pid);
        recvMlist := recvMlist + [message];
      }
    }

    /** The loop over one member's subscriptions. */
    static method Matches(msgs: seq<Name>, name: Name) returns (found: bool)
      ensures found <==> name in msgs || ANY in msgs
    {
      var j := 0;
      while j < |msgs|
        invariant j <= |msgs| && forall k :: 0 <= k < j ==> msgs[k] != name && msgs[k] != ANY
      {
        if msgs[j] == name || msgs[j] == ANY {
          return true;
        }
        j := j + 1;
      }
      return false;
    }

    /** The critical section of _ipcd_msg_probe: whom the message is relayed to. */
    method MsgProbe(p: Message) returns (pids: seq<int>)
      ensures pids == Subscribers(Infos(), p.name)
    {
      hide Values;
      ghost var ms := Infos();
      pids := [];
      var i := 0;
      assert ms[0..] == ms;
      while i < |mlist|
        invariant i <= |mlist| && Subscribers(ms, p.name) == pids + Subscribers(ms[i..], p.name)
      {
        var tmlm := mlist[i];
        assert ms[i..][1..] == ms[i + 1..] && ms[i] == tmlm.Value();
        if !tmlm.suspend {
          var found := Matches(tmlm.msgs, p.name);
          if found {
            pids := pids + [tmlm.pid];
          }
        }
        i := i + 1;
      }
    }
  }

  lemma TickLeft(c: Call)
    ensures Tick(c) == if TIMEOUT_MAX != c.left then c.(left := c.left - 100) else c
  {
  }

  lemma SweepStarts(ms: seq<Info>, ps: seq<Call>)
    ensures ps[0..] == ps && [] + Survivors(ps) == Survivors(ps) && [] + Expired(ps) == Expired(ps) && TimeoutAcks(ms, []) == []
  {
  }

  lemma SweepTurn(ps: seq<Call>, n: nat, kept: seq<Call>, gone: seq<Call>)
    requires n < |ps|
    ensures var c := Tick(ps[n]);
      if c.left > 0 then
        kept + Survivors(ps[n..]) == kept + [c] + Survivors(ps[n + 1..]) && Expired(ps[n..]) == Expired(ps[n + 1..])
      else
        Survivors(ps[n..]) == Survivors(ps[n + 1..]) && gone + Expired(ps[n..]) == gone + [c] + Expired(ps[n + 1..])
  {
    assert ps[n..][1..] == ps[n + 1..];
  }

  lemma SweepEnds(ps: seq<Call>, n: nat, kept: seq<Call>, gone: seq<Call>)
    requires n <= |ps| && |kept + ps[n..]| <= |kept|
    ensures kept + Survivors(ps[n..]) == kept + ps[n..] == kept && gone + Expired(ps[n..]) == gone
  {
  }

  lemma {:induction false} AcksTurn(ms: seq<Info>, cs: seq<Call>, c: Call)
    ensures TimeoutAcks(ms, cs + [c]) == TimeoutAcks(ms, cs) + AckTo(ms, c.req.caller, c.req.id, ACK_TIMEOUT, [])
  {
    hide AckTo;
    if cs == [] {
      assert [] + [c] == [c] && [c][1..] == [];
    } else {
      assert (cs + [c])[1..] == cs[1..] + [c];
      AcksTurn(ms, cs[1..], c);
    }
  }

  /** What the probe loop has found so far, with what it will find from i on. */
  ghost function Onward(ms: seq<Info>, i: nat, req: Request, pids: seq<int>, program: bool): (seq<int>, bool) {
    (pids + ProbeFrom(ms, i, req.target, req.api).0, program || ProbeFrom(ms, i, req.target, req.api).1)
  }

  lemma ProbeStarts(ms: seq<Info>, req: Request)
    ensures Probe(ms, req.target, req.api) == Onward(ms, 0, req, [], false)
  {
    assert [] + ProbeFrom(ms, 0, req.target, req.api).0 == ProbeFrom(ms, 0, req.target, req.api).0;
  }

  lemma ProbeTurn(ms: seq<Info>, i: nat, req: Request, pids: seq<int>, program: bool)
    requires i < |ms|
    ensures ms[i].name != req.target ==> Onward(ms, i, req, pids, program) == Onward(ms, i + 1, req, pids, program)
    ensures ms[i].name == req.target && ms[i].suspend ==> Onward(ms, i, req, pids, program) == Onward(ms, i + 2, req, pids, program)
    ensures ms[i].name == req.target && !ms[i].suspend ==>
              Onward(ms, i, req, pids, program)
              == if req.api in ms[i].apis then Onward(ms, i + 1, req, pids + [ms[i].pid], true)
                 else Onward(ms, i + 1, req, pids, true)
  {
    var rest := ProbeFrom(ms, i + 1, req.target, req.api).0;
    assert pids + ([ms[i].pid] + rest) == pids + [ms[i].pid] + rest;
    assert [] + rest == rest;
  }

  lemma ProbeEnds(ms: seq<Info>, i: nat, req: Request, pids: seq<int>, program: bool)
    requires i >= |ms|
    ensures Onward(ms, i, req, pids, program) == (pids, program)
  {
    assert pids + [] == pids;
  }
}
