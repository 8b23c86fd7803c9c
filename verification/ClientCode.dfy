/**
 The client library: the handle's wait list for remote calls, and the handlers that
 incoming messages are given to.
 */
module ClientCode {
  import opened CText
  import opened Members
  import opened Calls
  import opened Broker
  import Registry
  import Messages

  /** _ipc_msg_map_member: the function registered with ipc_register_msg, or the one
      registered with ipc_register_msg_ext, by number; the other pointer is null. The
      extended kind is called with its user data. */
  datatype Handler = Handler(name: Name, fun: Option<nat>, ext: Option<nat>, data: Option<nat>)

  predicate SameFunction(h: Handler, g: Handler) { h.name == g.name && h.fun == g.fun && h.ext == g.ext }

  /** What running the handlers of a message comes to: the handlers called, in order,
      or a call through a null pointer. */
  datatype Effect = Called(handlers: seq<Handler>) | NullCall

  // ----- which handlers a message reaches

  /** All handlers registered under exactly this name, in the order of registration. */
  function ExactHandlers(hs: seq<Handler>, name: Name): seq<Handler> {
    if hs == [] then [] else (if hs[0].name == name then [hs[0]] else []) + ExactHandlers(hs[1..], name)
  }

  function FirstNamed(hs: seq<Handler>, name: Name): (r: nat)
    ensures r <= |hs| && (r < |hs| ==> hs[r].name == name)
    ensures forall k :: 0 <= k < r ==> hs[k].name != name
  {
    if hs == [] || hs[0].name == name then 0 else 1 + FirstNamed(hs[1..], name)
  }

  /** Each handler of that name; if there is none, the first one for "*". */
  function Handled(hs: seq<Handler>, name: Name): Effect {
    var exact := ExactHandlers(hs, name);
    var k := FirstNamed(hs, Messages.ANY);
    if exact != [] then Called(exact)
    else if k == |hs| then Called([])
    else if hs[k].fun.Some? then Called([hs[k]])
    else NullCall
  }

  /** Registration never leaves both pointers null, nor a function twice under a name,
      whatever its user data. */
  predicate WellKept(hs: seq<Handler>) {
    && (forall k :: 0 <= k < |hs| ==> (hs[k].fun.Some? <==> hs[k].ext.None?))
    && forall j, k :: 0 <= j < k < |hs| ==> !SameFunction(hs[j], hs[k])
  }

  predicate Present(hs: seq<Handler>, h: Handler) { exists k :: 0 <= k < |hs| && SameFunction(hs[k], h) }

  /** What registering does to the handlers, and to the daemon: nothing without a name
      or a function, or if that function is there under that name. */
  predicate Registers(hs: seq<Handler>, h: Handler) {
    h.name != [] && (h.fun.Some? || h.ext.Some?) && !Present(hs, h)
  }

  lemma {:induction false} ExactExactly(hs: seq<Handler>, name: Name, h: Handler)
    requires WellKept(hs)
    ensures multiset(ExactHandlers(hs, name))[h] == if h in hs && h.name == name then 1 else 0
  {
    if hs != [] {
      var rest := hs[1..];
      assert hs == [hs[0]] + rest;
      assert hs[0] !in rest by {
        assert forall k :: 0 <= k < |rest| ==> rest[k] == hs[k + 1] && !SameFunction(hs[0], hs[k + 1]);
      }
      ExactExactly(rest, name, h);
      assert multiset(ExactHandlers(hs, name)) ==
             (if hs[0].name == name then multiset{hs[0]} else multiset{}) + multiset(ExactHandlers(rest, name));
    }
  }

  lemma {:induction false} ExactHas(hs: seq<Handler>, name: Name, j: nat) returns (q: nat)
    requires j < |hs| && hs[j].name == name
    ensures q < |ExactHandlers(hs, name)| && ExactHandlers(hs, name)[q] == hs[j]
  {
    if j == 0 {
      q := 0;
    } else {
      q := ExactHas(hs[1..], name, j - 1);
      q := if hs[0].name == name then q + 1 else q;
    }
  }

  lemma {:induction false} ExactPair(hs: seq<Handler>, name: Name, i: nat, j: nat) returns (p: nat, q: nat)
    requires i < j < |hs| && hs[i].name == name && hs[j].name == name
    ensures p < q < |ExactHandlers(hs, name)|
    ensures ExactHandlers(hs, name)[p] == hs[i] && ExactHandlers(hs, name)[q] == hs[j]
  {
    ExactFirst(hs, name);
    if i == 0 {
      q := ExactHas(hs[1..], name, j - 1);
      p, q := 0, q + 1;
    } else {
      p, q := ExactPair(hs[1..], name, i - 1, j - 1);
      if hs[0].name == name {
        p, q := p + 1, q + 1;
      }
    }
  }

  /** The handlers of a name are called in the order they were registered in. */
  lemma ExactInOrder(hs: seq<Handler>, name: Name, i: nat, j: nat)
    requires i < j < |hs| && hs[i].name == name && hs[j].name == name
    ensures var called := ExactHandlers(hs, name);
      exists p, q :: 0 <= p < q < |called| && called[p] == hs[i] && called[q] == hs[j]
  {
    var p, q := ExactPair(hs, name, i, j);
  }

  predicate AnyNamed(hs: seq<Handler>, name: Name) { exists k :: 0 <= k < |hs| && hs[k].name == name }

  /** The handlers of the name are called: each once, and nobody else. */
  ghost predicate CallsEach(hs: seq<Handler>, name: Name, called: seq<Handler>) {
    forall h :: multiset(called)[h] == if h in hs && h.name == name then 1 else 0
  }

  /** One handler is called before the other. */
  predicate Precedes(called: seq<Handler>, g: Handler, h: Handler) {
    exists p, q :: 0 <= p < q < |called| && called[p] == g && called[q] == h
  }

  predicate CallsInOrder(hs: seq<Handler>, name: Name, called: seq<Handler>) {
    forall i, j :: 0 <= i < j < |hs| && hs[i].name == name && hs[j].name == name ==> Precedes(called, hs[i], hs[j])
  }

  predicate IsFirst(hs: seq<Handler>, name: Name, k: nat) {
    k < |hs| && hs[k].name == name && forall j :: 0 <= j < k ==> hs[j].name != name
  }

  /** The second loop calls the plain function of the handler without looking. */
  predicate AnswersAll(h: Handler, effect: Effect) { effect == if h.fun.Some? then Called([h]) else NullCall }

  /** What a message is to do: run every handler of its name, in the order of the list;
      if there is none, the first handler for "*", which may have no function; and
      nothing if there is none of these either. */
  ghost predicate Delivers(hs: seq<Handler>, name: Name, effect: Effect) {
    && (AnyNamed(hs, name) ==>
          effect.Called? && CallsEach(hs, name, effect.handlers) && CallsInOrder(hs, name, effect.handlers))
    && (!AnyNamed(hs, name) && !AnyNamed(hs, "*") ==> effect == Called([]))
    && (!AnyNamed(hs, name) ==>
          forall k: nat :: IsFirst(hs, "*", k) ==> AnswersAll(hs[k], effect))
  }

  lemma HandledDelivers(hs: seq<Handler>, name: Name)
    requires WellKept(hs)
    ensures Delivers(hs, name, Handled(hs, name))
  {
    var exact := ExactHandlers(hs, name);
    if AnyNamed(hs, name) {
      var k :| 0 <= k < |hs| && hs[k].name == name;
      var q := ExactHas(hs, name, k);
      forall h
        ensures multiset(exact)[h] == if h in hs && h.name == name then 1 else 0
      {
        ExactExactly(hs, name, h);
      }
      forall i, j | 0 <= i < j < |hs| && hs[i].name == name && hs[j].name == name
        ensures Precedes(exact, hs[i], hs[j])
      {
        ExactInOrder(hs, name, i, j);
      }
    } else {
      NoneExact(hs, name);
      forall k: nat | IsFirst(hs, "*", k)
        ensures AnswersAll(hs[k], Handled(hs, name))
      {
        FirstNamedIs(hs, Messages.ANY, k);
      }
    }
  }

  /** A message calls through a null pointer exactly if no handler has its name and the
      first handler for "*" came from ipc_register_msg_ext. */
  lemma NullCallExactly(hs: seq<Handler>, name: Name)
    requires WellKept(hs)
    ensures Handled(hs, name) == NullCall <==>
            && (forall k :: 0 <= k < |hs| ==> hs[k].name != name)
            && FirstNamed(hs, Messages.ANY) < |hs| && hs[FirstNamed(hs, Messages.ANY)].ext.Some?
  {
    if forall k :: 0 <= k < |hs| ==> hs[k].name != name {
      NoneExact(hs, name);
    } else {
      var k :| 0 <= k < |hs| && hs[k].name == name;
      ExactExactly(hs, name, hs[k]);
      assert multiset(ExactHandlers(hs, name))[hs[k]] == 1;
    }
  }

  lemma {:induction false} NoneExact(hs: seq<Handler>, name: Name)
    requires forall k :: 0 <= k < |hs| ==> hs[k].name != name
    ensures ExactHandlers(hs, name) == []
  {
    if hs != [] {
      NoneExact(hs[1..], name);
    }
  }

  lemma NullCallExample()
    ensures Handled([Handler("*", None, Some(1), None)], "temperature") == NullCall
  {
    assert "*" != "temperature" by { assert |"*"| != |"temperature"|; }
  }

  lemma ExactFirst(hs: seq<Handler>, name: Name)
    requires hs != []
    ensures ExactHandlers(hs, name) == (if hs[0].name == name then [hs[0]] else []) + ExactHandlers(hs[1..], name)
  {
  }

  lemma {:induction false} ExactAppend(hs: seq<Handler>, h: Handler, name: Name)
    ensures ExactHandlers(hs + [h], name) == ExactHandlers(hs, name) + if h.name == name then [h] else []
  {
    if hs == [] {
      assert hs + [h] == [h] && [h][1..] == [];
    } else {
      ExactAppend(hs[1..], h, name);
      ExactFirst(hs, name);
      ExactFirst(hs + [h], name);
      assert (hs + [h])[1..] == hs[1..] + [h] && (hs + [h])[0] == hs[0];
      hide *;
      Assoc<Handler>(if hs[0].name == name then [hs[0]] else [], ExactHandlers(hs[1..], name), if h.name == name then [h] else []);
    }
  }

  lemma ExactStarts(hs: seq<Handler>, name: Name)
    ensures ExactHandlers(hs[..0], name) == [] && ExactHandlers(hs[..|hs|], name) == ExactHandlers(hs, name)
  {
    assert hs[..|hs|] == hs;
  }

  lemma ExactStep(hs: seq<Handler>, i: nat, name: Name)
    requires i < |hs|
    ensures ExactHandlers(hs[..i + 1], name) == ExactHandlers(hs[..i], name) + if hs[i].name == name then [hs[i]] else []
  {
    assert hs[..i + 1] == hs[..i] + [hs[i]];
    ExactAppend(hs[..i], hs[i], name);
  }

  lemma HandledIs(hs: seq<Handler>, name: Name)
    ensures var exact, k := ExactHandlers(hs, name), FirstNamed(hs, Messages.ANY);
      Handled(hs, name) ==
        if exact != [] then Called(exact)
        else if k == |hs| then Called([])
        else if hs[k].fun.Some? then Called([hs[k]])
        else NullCall
  {
  }

  // ----- unregistering

  /** What ipc_unregister_msg leaves of the handlers: like ipcd_join it advances also
      after a removal, so the handler that moves up is never compared. */
  function Left(hs: seq<Handler>, name: Name): (r: seq<Handler>)
    ensures forall h :: h in r ==> h in hs
  {
    if hs == [] then []
    else if hs[0].name != name then [hs[0]] + Left(hs[1..], name)
    else if |hs| == 1 then []
    else [hs[1]] + Left(hs[2..], name)
  }

  predicate NoneNamed(hs: seq<Handler>, name: Name) { forall k :: 0 <= k < |hs| ==> hs[k].name != name }

  predicate NamedNeighbours(hs: seq<Handler>, name: Name) {
    exists k :: 0 < k < |hs| && hs[k - 1].name == name && hs[k].name == name
  }

  lemma NeighboursTail(hs: seq<Handler>, name: Name)
    requires |hs| >= 2
    ensures NamedNeighbours(hs, name) <==> (hs[0].name == name && hs[1].name == name) || NamedNeighbours(hs[1..], name)
  {
    var rest := hs[1..];
    if NamedNeighbours(hs, name) {
      var k :| 0 < k < |hs| && hs[k - 1].name == name && hs[k].name == name;
      if k > 1 {
        assert rest[k - 1 - 1].name == name && rest[k - 1].name == name;
      }
    }
    if NamedNeighbours(rest, name) {
      var k :| 0 < k < |rest| && rest[k - 1].name == name && rest[k].name == name;
      assert hs[k + 1 - 1].name == name && hs[k + 1].name == name;
    }
    assert hs[1 - 1].name == hs[0].name;
  }

  lemma NoneNamedHead(h: Handler, rest: seq<Handler>, name: Name)
    ensures NoneNamed([h] + rest, name) <==> h.name != name && NoneNamed(rest, name)
  {
    var hs := [h] + rest;
    if NoneNamed(hs, name) {
      assert hs[0].name != name;
      assert forall k :: 0 <= k < |rest| ==> rest[k] == hs[k + 1] && hs[k + 1].name != name;
    }
  }

  /** Unregistering a name removes all its handlers if and only if no two of them are
      neighbours in the list. */
  lemma {:induction false} UnregisterExactly(hs: seq<Handler>, name: Name)
    ensures NoneNamed(Left(hs, name), name) <==> !NamedNeighbours(hs, name)
    decreases |hs|
  {
    if |hs| >= 2 {
      NeighboursTail(hs, name);
      if hs[0].name != name {
        UnregisterExactly(hs[1..], name);
        NoneNamedHead(hs[0], Left(hs[1..], name), name);
      } else {
        UnregisterExactly(hs[2..], name);
        NoneNamedHead(hs[1], Left(hs[2..], name), name);
        if |hs| > 2 {
          NeighboursTail(hs[1..], name);
          assert hs[1..][1..] == hs[2..];
        }
      }
    }
  }

  /** The handlers of every other name stay, in their order. */
  lemma {:induction false} UnregisterKeepsOthers(hs: seq<Handler>, name: Name, other: Name)
    requires other != name
    ensures ExactHandlers(Left(hs, name), other) == ExactHandlers(hs, other)
    decreases |hs|
  {
    if hs != [] {
      ExactFirst(hs, other);
      if hs[0].name != name {
        UnregisterKeepsOthers(hs[1..], name, other);
        ExactFirst(Left(hs, name), other);
      } else if |hs| > 1 {
        UnregisterKeepsOthers(hs[2..], name, other);
        ExactFirst(hs[1..], other);
        ExactFirst(Left(hs, name), other);
        assert hs[1..][1..] == hs[2..];
      }
    }
  }

  /** Two handlers of one name, registered one after the other: the second one stays,
      although the daemon no longer sends its messages. */
  lemma UnregisterExample()
    ensures var a, b := Handler("t", Some(1), None, None), Handler("t", Some(2), None, None);
      Left([a, b], "t") == [b]
  {
  }

  lemma KeptHead(h: Handler, rest: seq<Handler>, left: seq<Handler>)
    requires WellKept([h] + rest) && WellKept(left) && forall g :: g in left ==> g in rest
    ensures WellKept([h] + left)
  {
    var hs, kept := [h] + rest, [h] + left;
    forall k | 0 < k < |kept|
      ensures !SameFunction(kept[0], kept[k])
    {
      assert kept[k] == left[k - 1] && left[k - 1] in rest;
      var j :| 0 <= j < |rest| && rest[j] == kept[k];
      assert hs[j + 1] == kept[k] && !SameFunction(hs[0], hs[j + 1]);
    }
    forall k | 0 <= k < |kept|
      ensures kept[k].fun.Some? <==> kept[k].ext.None?
    {
      assert kept[k] == if k == 0 then hs[0] else left[k - 1];
    }
    forall j, k | 0 < j < k < |kept|
      ensures !SameFunction(kept[j], kept[k])
    {
      assert !SameFunction(left[j - 1], left[k - 1]);
    }
  }

  lemma KeptTail(hs: seq<Handler>, n: nat)
    requires WellKept(hs) && n <= |hs|
    ensures WellKept(hs[n..])
  {
  }

  lemma {:induction false} LeftKept(hs: seq<Handler>, name: Name)
    requires WellKept(hs)
    ensures WellKept(Left(hs, name))
    decreases |hs|
  {
    if hs != [] {
      KeptTail(hs, 1);
      if hs[0].name != name {
        LeftKept(hs[1..], name);
        assert hs == [hs[0]] + hs[1..];
        KeptHead(hs[0], hs[1..], Left(hs[1..], name));
      } else if |hs| > 1 {
        KeptTail(hs, 2);
        LeftKept(hs[2..], name);
        assert hs[1..] == [hs[1]] + hs[2..];
        KeptHead(hs[1], hs[2..], Left(hs[2..], name));
      }
    }
  }

  /** The loop has come to position i of hs, and will leave what is to be left of was. */
  predicate Turned(was: seq<Handler>, hs: seq<Handler>, i: nat, name: Name) {
    Left(was, name) == if i <= |hs| then hs[..i] + Left(hs[i..], name) else hs
  }

  lemma TurnedEnds(was: seq<Handler>, hs: seq<Handler>, i: nat, name: Name)
    ensures Turned(hs, hs, 0, name)
    ensures Turned(was, hs, i, name) && i >= |hs| ==> hs == Left(was, name)
  {
    assert hs[0..] == hs;
  }

  /** One turn of the loop. */
  lemma TurnedOn(was: seq<Handler>, hs: seq<Handler>, i: nat, name: Name)
    requires Turned(was, hs, i, name) && i < |hs|
    ensures hs[i].name != name ==> Turned(was, hs, i + 1, name)
    ensures hs[i].name == name ==> Turned(was, Cut(hs, i), i + 1, name)
  {
    var rest, cut := hs[i..], Cut(hs, i);
    assert rest[1..] == hs[i + 1..];
    if hs[i].name == name && i < |cut| {
      assert rest[2..] == cut[i + 1..];
      assert cut[..i + 1] == hs[..i] + [rest[1]];
    }
  }

  lemma CutLength(hs: seq<Handler>, i: nat)
    requires i < |hs|
    ensures |Cut(hs, i)| == |hs| - 1
  {
  }

  lemma NoneNamedOn(hs: seq<Handler>, i: nat, name: Name)
    requires i < |hs| && NoneNamed(hs[..i], name)
    ensures hs[i].name != name ==> NoneNamed(hs[..i + 1], name)
    ensures hs[i].name == name ==> !NoneNamed(hs, name)
  {
  }

  lemma NoneNamedEnds(hs: seq<Handler>, name: Name)
    ensures NoneNamed(hs[..0], name) && hs[..|hs|] == hs
  {
  }

  lemma {:induction false} WaitIndexIs(waiting: seq<nat>, id: nat, k: nat)
    requires k <= |waiting| && (forall j :: 0 <= j < k ==> waiting[j] != id) && (k < |waiting| ==> waiting[k] == id)
    ensures WaitIndex(waiting, id) == k
  {
    if k > 0 {
      WaitIndexIs(waiting[1..], id, k - 1);
    }
  }

  lemma {:induction false} FirstNamedIs(hs: seq<Handler>, name: Name, k: nat)
    requires k <= |hs| && (forall j :: 0 <= j < k ==> hs[j].name != name) && (k < |hs| ==> hs[k].name == name)
    ensures FirstNamed(hs, name) == k
  {
    if k > 0 {
      FirstNamedIs(hs[1..], name, k - 1);
    }
  }

  /** ipc_handle. */
  class Client {
    const pid: int
    var ackMagicNum: nat
    var ackWaitList: seq<nat>
    var woken: map<nat, Reply>
    var apiRecvList: seq<Call>
    var running: seq<Call>
    var msgList: seq<Handler>

    constructor (pid: int)
      ensures this.pid == pid && State() == Handle(0, [], map[], [], []) && msgList == []
    {
      this.pid, ackMagicNum, ackWaitList, woken := pid, 0, [], map[];
      apiRecvList, running, msgList := [], [], [];
    }

    ghost function State(): Handle
      reads this
    {
      Handle(ackMagicNum, ackWaitList, woken, apiRecvList, running)
    }

    /** ipc_call_api up to sem_wait: the datagram that is sent. */
    method BeginCall(target: Name, api: Name, data: seq<Byte>, timeout: int) returns (sent: Packet)
      modifies this`ackMagicNum, this`ackWaitList
      ensures State() == Wait(old(State()))
      ensures sent == CallPacket(Request(pid, old(ackMagicNum), target, api, data, timeout))
    {
      var id := ackMagicNum;
      ackMagicNum := ackMagicNum + 1;
      ackWaitList := ackWaitList + [id];
      sent := CallPacket(Request(pid, id, target, api, data, timeout));
    }

    /** The ack case of ipc_recv_analysis. */
    method OnAck(id: nat, code: int, bytes: seq<Byte>)
      modifies this`ackWaitList, this`woken
      ensures State() == Wake(old(State()), id, Reply(code, bytes))
    {
      var k := 0;
      while k < |ackWaitList|
        invariant k <= |ackWaitList| && State() == old(State()) && forall j :: 0 <= j < k ==> ackWaitList[j] != id
      {
        if id == ackWaitList[k] {
          WaitIndexIs(ackWaitList, id, k);
          ackWaitList := Cut(ackWaitList, k);
          woken := woken[id := Reply(code, bytes)];
          return;
        }
        k := k + 1;
      }
      WaitIndexIs(ackWaitList, id, k);
    }

    /** ipc_call_api after sem_wait: the code, and the bytes handed to the caller. */
    method EndCall(id: nat, pointers: bool) returns (code: int, bytes: Option<seq<Byte>>)
      requires id in woken
      ensures (code, bytes) == Returned(woken[id], pointers)
      ensures woken[id].bytes != [] && !pointers ==> code == IN_PARAM_ERROR
      ensures woken[id].bytes == [] || pointers ==> code == woken[id].code
      ensures bytes.Some? <==> pointers && woken[id].code in {ACK_OK, ACK_FAIL}
      ensures bytes.Some? ==> bytes.value == woken[id].bytes
    {
      var iaal := woken[id];
      if iaal.bytes != [] {
        if !pointers {
          return IN_PARAM_ERROR, None;
        }
      }
      if iaal.code != ACK_OK && iaal.code != ACK_FAIL {
        return iaal.code, None;
      }
      bytes := None;
      if pointers {
        bytes := Some(iaal.bytes);
      }
      code := iaal.code;
    }

    /** ipc_register_msg: what is sent to the daemon. */
    method RegisterMsg(name: Name, fun: Option<nat>) returns (sent: seq<Registry.Event>)
      requires WellKept(msgList)
      modifies this`msgList
      ensures WellKept(msgList)
      ensures var h := Handler(name, fun, None, None);
        if Registers(old(msgList), h) then msgList == old(msgList) + [h] && sent == [Registry.RegisteringMsg(pid, name)]
        else msgList == old(msgList) && sent == []
    {
      ghost var h := Handler(name, fun, None, None);
      sent := [];
      if fun.None? {
        return;
      }
      if |name| > 0 {
        var i := 0;
        while i < |msgList|
          invariant i <= |msgList| && msgList == old(msgList) && sent == []
          invariant forall k :: 0 <= k < i ==> !SameFunction(msgList[k], h)
        {
          if msgList[i].name == name && msgList[i].fun == fun {
            assert SameFunction(msgList[i], h);
            return;
          }
          i := i + 1;
        }
        msgList := msgList + [Handler(name, fun, None, None)];
        sent := [Registry.RegisteringMsg(pid, name)];
      }
    }

    /** ipc_register_msg_ext. */
    method RegisterMsgExt(name: Name, ext: Option<nat>, data: Option<nat>) returns (sent: seq<Registry.Event>)
      requires WellKept(msgList)
      modifies this`msgList
      ensures WellKept(msgList)
      ensures var h := Handler(name, None, ext, data);
        if Registers(old(msgList), h) then msgList == old(msgList) + [h] && sent == [Registry.RegisteringMsg(pid, name)]
        else msgList == old(msgList) && sent == []
    {
      ghost var h := Handler(name, None, ext, data);
      sent := [];
      if ext.None? {
        return;
      }
      if |name| > 0 {
        var i := 0;
        while i < |msgList|
          invariant i <= |msgList| && msgList == old(msgList) && sent == []
          invariant forall k :: 0 <= k < i ==> !SameFunction(msgList[k], h)
        {
          if msgList[i].name == name && msgList[i].ext == ext {
            assert SameFunction(msgList[i], h);
            return;
          }
          i := i + 1;
        }
        msgList := msgList + [Handler(name, None, ext, data)];
        sent := [Registry.RegisteringMsg(pid, name)];
      }
    }

    /** ipc_unregister_msg: the first handler found also tells the daemon. */
    method UnregisterMsg(name: Name) returns (sent: seq<Registry.Event>)
      requires WellKept(msgList)
      modifies this`msgList
      ensures WellKept(msgList)
      ensures msgList == if name != [] then Left(old(msgList), name) else old(msgList)
      ensures sent == if name != [] && !NoneNamed(old(msgList), name) then [Registry.UnregisteringMsg(pid, name)] else []
    {
      hide *;
      sent := [];
      if |name| > 0 {
        ghost var was := msgList;
        var i, size := 0, |msgList|;
        TurnedEnds(was, was, 0, name);
        NoneNamedEnds(was, name);
        LeftKept(was, name);
        while i < size && i < |msgList|
          invariant Turned(was, msgList, i, name) && |msgList| <= size
          invariant if sent == [] then msgList == was && i <= |was| && NoneNamed(was[..i], name)
                    else sent == [Registry.UnregisteringMsg(pid, name)] && !NoneNamed(was, name)
        {
          TurnedOn(was, msgList, i, name);
          if sent == [] {
            NoneNamedOn(was, i, name);
          }
          if msgList[i].name == name {
            if sent == [] {
              sent := [Registry.UnregisteringMsg(pid, name)];
            }
            CutLength(msgList, i);
            msgList := Cut(msgList, i);
          }
          i := i + 1;
        }
        TurnedEnds(was, msgList, i, name);
      }
    }

    /** The two loops of ipc_msg_recv_probe over the handlers. */
    method HandleMessage(name: Name) returns (effect: Effect)
      requires WellKept(msgList)
      ensures effect == Handled(msgList, name) && Delivers(msgList, name, effect)
    {
      hide *;
      HandledDelivers(msgList, name);
      HandledIs(msgList, name);
      ExactStarts(msgList, name);
      var called: seq<Handler> := [];
      var normal := false;
      var i := 0;
      while i < |msgList|
        invariant i <= |msgList| && called == ExactHandlers(msgList[..i], name) && (normal <==> called != [])
      {
        var imm := msgList[i];
        ExactStep(msgList, i, name);
        if imm.name == name {
          called := called + [imm];
          normal := true;
        }
        i := i + 1;
      }
      if !normal {
        i := 0;
        while i < |msgList|
          invariant i <= |msgList| && forall j :: 0 <= j < i ==> msgList[j].name != Messages.ANY
        {
          var imm := msgList[i];
          if imm.name == Messages.ANY {
            FirstNamedIs(msgList, Messages.ANY, i);
            if imm.fun.None? {
              return NullCall;
            }
            return Called([imm]);
          }
          i := i + 1;
        }
        FirstNamedIs(msgList, Messages.ANY, i);
      }
      effect := Called(called);
    }
  }
}
