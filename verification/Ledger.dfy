/**
 Book-keeping of magic numbers: every number handed out is open in exactly one place
 or closed, and the acks sent are those of the closed calls whose caller was there.
 */
module Ledger {
  import opened CText
  import opened Members
  import opened Calls
  import opened Broker

  /** The magic numbers of a list of calls, with multiplicity. */
  function Magics(cs: seq<Call>): multiset<nat> {
    if cs == [] then multiset{} else multiset{cs[0].magic} + Magics(cs[1..])
  }

  lemma {:induction false} MagicsAppend(cs: seq<Call>, ds: seq<Call>)
    ensures Magics(cs + ds) == Magics(cs) + Magics(ds)
  {
    if cs == [] {
      assert cs + ds == ds;
    } else {
      assert (cs + ds)[1..] == cs[1..] + ds;
      MagicsAppend(cs[1..], ds);
    }
  }

  lemma MagicsOne(c: Call)
    ensures Magics([c]) == multiset{c.magic}
  {
    assert [c][1..] == [];
  }

  lemma CutParts<T>(s: seq<T>, k: nat)
    requires k < |s|
    ensures s == s[..k] + ([s[k]] + s[k + 1..]) && Cut(s, k) == s[..k] + s[k + 1..]
  {
  }

  lemma MagicsCut(cs: seq<Call>, k: nat)
    requires k < |cs|
    ensures Magics(cs) == Magics(Cut(cs, k)) + multiset{cs[k].magic}
  {
    hide *;
    CutParts(cs, k);
    MagicsAppend(cs[..k], [cs[k]] + cs[k + 1..]);
    MagicsAppend([cs[k]], cs[k + 1..]);
    MagicsAppend(cs[..k], cs[k + 1..]);
    MagicsOne(cs[k]);
    Rearrange(Magics(cs[..k]), multiset{cs[k].magic}, Magics(cs[k + 1..]));
  }

  lemma Rearrange(a: multiset<nat>, x: multiset<nat>, b: multiset<nat>)
    ensures a + (x + b) == (a + b) + x
  {
  }

  /** A sweep divides the pending calls. */
  lemma {:induction false} MagicsSwept(ps: seq<Call>)
    ensures Magics(ps) == Magics(Survivors(ps)) + Magics(Expired(ps))
  {
    if ps != [] {
      MagicsSwept(ps[1..]);
      SweepFirst(ps);
      hide *;
      MagicsCons(ps[0].magic, ps);
      MagicsCons(ps[0].magic, Survivors(ps));
      MagicsCons(ps[0].magic, Expired(ps));
    }
  }

  lemma SweepFirst(ps: seq<Call>)
    requires ps != []
    ensures Tick(ps[0]).magic == ps[0].magic
    ensures || (Survivors(ps) == [Tick(ps[0])] + Survivors(ps[1..]) && Expired(ps) == Expired(ps[1..]))
            || (Survivors(ps) == Survivors(ps[1..]) && Expired(ps) == [Tick(ps[0])] + Expired(ps[1..]))
  {
  }

  lemma MagicsCons(magic: nat, cs: seq<Call>)
    ensures cs != [] && cs[0].magic == magic ==> Magics(cs) == multiset{magic} + Magics(cs[1..])
  {
  }

  /** The call carries the request its magic number was given to. */
  predicate Genuine(calls: seq<Request>, c: Call) { c.magic < |calls| && calls[c.magic] == c.req }

  predicate KeysDistinct(calls: seq<Request>) {
    forall i, j :: 0 <= i < j < |calls| ==> KeyOf(calls[i]) != KeyOf(calls[j])
  }

  predicate IsKey(calls: seq<Request>, k: Key) { exists m :: 0 <= m < |calls| && KeyOf(calls[m]) == k }

  /** Each magic number handed out is open once or closed, never both. */
  ghost predicate Conserved(open: multiset<nat>, calls: seq<Request>, closed: map<nat, bool>) {
    forall m: nat :: open[m] + (if m in closed then 1 else 0) == if m < |calls| then 1 else 0
  }

  /** One ack for each closed call whose caller was a member, none for the others. */
  ghost predicate Acknowledged(calls: seq<Request>, closed: map<nat, bool>, acks: multiset<Key>) {
    && (forall m: nat :: m < |calls| ==> acks[KeyOf(calls[m])] == if m in closed && closed[m] then 1 else 0)
    && (forall k :: k in acks ==> IsKey(calls, k))
  }

  function Ack(flag: bool, k: Key): multiset<Key> { if flag then multiset{k} else multiset{} }

  lemma CloseConserves(open: multiset<nat>, calls: seq<Request>, closed: map<nat, bool>, m: nat, flag: bool)
    requires Conserved(open + multiset{m}, calls, closed)
    ensures Conserved(open, calls, closed[m := flag]) && m !in closed && m < |calls|
  {
    assert (open + multiset{m})[m] >= 1;
    forall k: nat
      ensures open[k] + (if k in closed[m := flag] then 1 else 0) == if k < |calls| then 1 else 0
    {
      assert (open + multiset{m})[k] + (if k in closed then 1 else 0) == if k < |calls| then 1 else 0;
    }
  }

  lemma OtherKey(calls: seq<Request>, m: nat, k: nat)
    requires KeysDistinct(calls) && m < |calls| && k < |calls| && m != k
    ensures KeyOf(calls[m]) != KeyOf(calls[k])
  {
    if m < k {
    } else {
      assert KeyOf(calls[k]) != KeyOf(calls[m]);
    }
  }

  lemma CloseAcknowledges(calls: seq<Request>, closed: map<nat, bool>, acks: multiset<Key>, m: nat, flag: bool)
    requires KeysDistinct(calls) && Acknowledged(calls, closed, acks) && m < |calls| && m !in closed
    ensures Acknowledged(calls, closed[m := flag], acks + Ack(flag, KeyOf(calls[m])))
  {
    var later, more := closed[m := flag], acks + Ack(flag, KeyOf(calls[m]));
    hide KeysDistinct;
    hide KeyOf;
    forall k: nat | k < |calls|
      ensures more[KeyOf(calls[k])] == if k in later && later[k] then 1 else 0
    {
      if k != m {
        OtherKey(calls, m, k);
      }
    }
  }

  lemma AckKeysOf(ms: seq<Info>, pid: int, id: nat, code: int, bytes: seq<Byte>)
    ensures AckKeys(AckTo(ms, pid, id, code, bytes)) == Ack(IsMember(ms, pid), (pid, id))
  {
  }

  lemma {:induction false} AckKeysAppend(ps: seq<Packet>, qs: seq<Packet>)
    ensures AckKeys(ps + qs) == AckKeys(ps) + AckKeys(qs)
  {
    if ps == [] {
      assert ps + qs == qs;
    } else {
      assert (ps + qs)[1..] == ps[1..] + qs;
      AckKeysAppend(ps[1..], qs);
    }
  }

  lemma {:induction false} AckKeysNone(ps: seq<Packet>)
    requires forall p :: p in ps ==> !p.AckPacket?
    ensures AckKeys(ps) == multiset{}
  {
    if ps != [] {
      AckKeysNone(ps[1..]);
    }
  }

  /** A sweep closes the calls it times out, one after the other: every number stays in
      one place. */
  lemma {:induction false} CloseMany(open: multiset<nat>, calls: seq<Request>, closed: map<nat, bool>, ms: seq<Info>, cs: seq<Call>)
    requires Conserved(open + Magics(cs), calls, closed)
    ensures Conserved(open, calls, Closing(ms, cs, closed))
    decreases |cs|
  {
    hide Conserved;
    hide IsMember;
    if cs == [] {
      assert open + Magics(cs) == open;
    } else {
      var flag := IsMember(ms, cs[0].req.caller);
      assert open + Magics(cs) == (open + Magics(cs[1..])) + multiset{cs[0].magic};
      CloseConserves(open + Magics(cs[1..]), calls, closed, cs[0].magic, flag);
      CloseMany(open, calls, closed[cs[0].magic := flag], ms, cs[1..]);
    }
  }

  /** And each caller that is a member gets its one ack. */
  lemma {:induction false} AcknowledgeMany(open: multiset<nat>, calls: seq<Request>, closed: map<nat, bool>, acks: multiset<Key>,
                                           ms: seq<Info>, cs: seq<Call>)
    requires KeysDistinct(calls) && Conserved(open + Magics(cs), calls, closed) && Acknowledged(calls, closed, acks)
    requires forall c :: c in cs ==> Genuine(calls, c)
    ensures Acknowledged(calls, Closing(ms, cs, closed), acks + AckKeys(TimeoutAcks(ms, cs)))
    decreases |cs|
  {
    hide KeysDistinct;
    hide Conserved;
    hide Acknowledged;
    hide AckKeys;
    hide IsMember;
    if cs == [] {
      assert AckKeys(TimeoutAcks(ms, cs)) == multiset{} by { AckKeysNone([]); }
      assert acks + multiset{} == acks;
    } else {
      var c, flag := cs[0], IsMember(ms, cs[0].req.caller);
      var first := AckTo(ms, c.req.caller, c.req.id, ACK_TIMEOUT, []);
      assert open + Magics(cs) == (open + Magics(cs[1..])) + multiset{c.magic};
      assert Genuine(calls, c) && calls[c.magic] == c.req;
      CloseConserves(open + Magics(cs[1..]), calls, closed, c.magic, flag);
      CloseAcknowledges(calls, closed, acks, c.magic, flag);
      AcknowledgeMany(open, calls, closed[c.magic := flag], acks + Ack(flag, KeyOf(c.req)), ms, cs[1..]);
      AckKeysOf(ms, c.req.caller, c.req.id, ACK_TIMEOUT, []);
      AckKeysAppend(first, TimeoutAcks(ms, cs[1..]));
      assert acks + Ack(flag, KeyOf(c.req)) + AckKeys(TimeoutAcks(ms, cs[1..])) == acks + AckKeys(TimeoutAcks(ms, cs));
    }
  }

  /** A new magic number is opened. */
  lemma OpenConserves(open: multiset<nat>, calls: seq<Request>, closed: map<nat, bool>, req: Request)
    requires Conserved(open, calls, closed)
    ensures Conserved(open + multiset{|calls|}, calls + [req], closed) && |calls| !in closed
  {
    var more := calls + [req];
    forall m: nat
      ensures (open + multiset{|calls|})[m] + (if m in closed then 1 else 0) == if m < |more| then 1 else 0
    {
      assert open[m] + (if m in closed then 1 else 0) == if m < |calls| then 1 else 0;
    }
    assert open[|calls|] + (if |calls| in closed then 1 else 0) == 0;
  }

  /** For a request whose key is new, no ack has been sent. */
  lemma OpenAcknowledges(calls: seq<Request>, closed: map<nat, bool>, acks: multiset<Key>, req: Request)
    requires Acknowledged(calls, closed, acks) && !IsKey(calls, KeyOf(req)) && |calls| !in closed
    ensures Acknowledged(calls + [req], closed, acks)
  {
    var more := calls + [req];
    forall k | k in acks
      ensures IsKey(more, k)
    {
      var m :| 0 <= m < |calls| && KeyOf(calls[m]) == k;
      assert KeyOf(more[m]) == k;
    }
    forall m: nat | m < |calls|
      ensures KeyOf(more[m]) != KeyOf(req)
    {
      assert KeyOf(calls[m]) != KeyOf(req);
    }
  }
}
