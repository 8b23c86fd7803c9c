/**
 The locks of the daemon's threads. A thread is a program that takes and releases
 mutexes, waits on semaphores and posts them; the programs below are the threads of
 the daemon, reduced to that. All take mutexes in one order of rank, so whatever the
 interleaving, no threads wait for each other in a circle.
 */
module Locks {
  datatype Mutex = MemberList | AckList | ApiList | MsgList | DebugPrint | DebugSave

  datatype Semaphore = ApiSem | MsgSem

  function Rank(m: Mutex): nat {
    match m
    case MemberList => 0
    case AckList => 1
    case ApiList => 1
    case MsgList => 1
    case DebugPrint => 2
    case DebugSave => 3
  }

  datatype Code =
    | Skip
    | Then(first: Code, second: Code)
    | Either(left: Code, right: Code)
    | Repeat(body: Code)
    | Locked(mutex: Mutex, body: Code)
    | Await(sem: Semaphore)
    | Signal(sem: Semaphore)

  // ----- the threads of the daemon

  /** ipcd_log_save_and_print, with the log kept in memory or not. */
  const LOG := Locked(DebugPrint, Either(Skip, Locked(DebugSave, Skip)))

  const API_PUSH := Then(Locked(ApiList, Skip), Signal(ApiSem))
  const API_PULL := Then(Await(ApiSem), Locked(ApiList, Skip))
  const MSG_PUSH := Then(Locked(MsgList, Skip), Signal(MsgSem))
  const MSG_PULL := Then(Await(MsgSem), Locked(MsgList, Skip))
  const ACK_PUSH := Locked(AckList, Skip)

  /** ipcd_msg_recv: one packet after the other under the member list's mutex. */
  const RECEIVER :=
    Repeat(Locked(MemberList, Either(Repeat(LOG), Either(Then(API_PUSH, LOG), Either(MSG_PUSH, Then(Locked(AckList, Skip), LOG))))))

  /** ipcd_ctl_recv: listings and settings, which log or read the log in memory. */
  const CONTROL := Repeat(Locked(MemberList, Repeat(Either(LOG, Locked(DebugSave, Skip)))))

  /** _ipcd_api_probe. */
  const API_PROBE := Repeat(Then(API_PULL, Locked(MemberList, Then(Repeat(ACK_PUSH), Repeat(LOG)))))

  /** _ipcd_msg_probe. */
  const MSG_PROBE := Repeat(Then(MSG_PULL, Locked(MemberList, Repeat(LOG))))

  /** ipc_live_thread. */
  const LIVENESS := Repeat(Locked(MemberList, Repeat(LOG)))

  /** ipc_api_timeout_check_thread. */
  const TIMEOUTS := Repeat(Locked(MemberList, Locked(AckList, Repeat(LOG))))

  const DAEMON: seq<Code> := [RECEIVER, CONTROL, API_PROBE, MSG_PROBE, LIVENESS, TIMEOUTS]

  // ----- running threads

  /** What a thread still has to do; the front comes next. */
  datatype Item = Do(code: Code) | Release(mutex: Mutex)

  datatype State = State(threads: seq<seq<Item>>, count: map<Semaphore, nat>)

  predicate Holds(thread: seq<Item>, m: Mutex) { Release(m) in thread }

  predicate IsHeld(s: State, m: Mutex) { exists t :: 0 <= t < |s.threads| && Holds(s.threads[t], m) }

  /** The thread is about to take this mutex. */
  predicate Wants(thread: seq<Item>, m: Mutex) { thread != [] && thread[0].Do? && thread[0].code.Locked? && thread[0].code.mutex == m }

  predicate AwaitsSignal(thread: seq<Item>) { thread != [] && thread[0].Do? && thread[0].code.Await? }

  function Posted(s: State, sem: Semaphore): nat { if sem in s.count then s.count[sem] else 0 }

  /** The thread has something to do and is not blocked. */
  predicate CanMove(s: State, t: nat) {
    && t < |s.threads| && s.threads[t] != []
    && (var next := s.threads[t][0];
        next.Do? ==> (next.code.Locked? ==> !IsHeld(s, next.code.mutex)) && (next.code.Await? ==> Posted(s, next.code.sem) > 0))
  }

  /** What the front item leaves to do; choice decides branches and whether loops go on. */
  function Unfold(next: Item, choice: bool): seq<Item> {
    match next
    case Release(_) => []
    case Do(Skip) => []
    case Do(Then(a, b)) => [Do(a), Do(b)]
    case Do(Either(a, b)) => [Do(if choice then a else b)]
    case Do(Repeat(a)) => if choice then [Do(a), Do(Repeat(a))] else []
    case Do(Locked(m, a)) => [Do(a), Release(m)]
    case Do(Await(_)) => []
    case Do(Signal(_)) => []
  }

  function Step(s: State, t: nat, choice: bool): State
    requires CanMove(s, t)
  {
    var next, rest := s.threads[t][0], s.threads[t][1..];
    var count :=
      if next.Do? && next.code.Await? then s.count[next.code.sem := Posted(s, next.code.sem) - 1]
      else if next.Do? && next.code.Signal? then s.count[next.code.sem := Posted(s, next.code.sem) + 1]
      else s.count;
    State(s.threads[t := Unfold(next, choice) + rest], count)
  }

  function Launch(codes: seq<Code>): State {
    State(seq(|codes|, k requires 0 <= k < |codes| => [Do(codes[k])]), map[])
  }

  datatype Turn = Turn(thread: nat, choice: bool)

  ghost predicate Reaches(codes: seq<Code>, turns: seq<Turn>, s: State)
    decreases |turns|
  {
    if turns == [] then s == Launch(codes)
    else
      var last := turns[|turns| - 1];
      exists b :: Reaches(codes, Front(turns), b) && Moves(b, last, s)
  }

  function Front(turns: seq<Turn>): seq<Turn>
    requires turns != []
  {
    turns[..|turns| - 1]
  }

  predicate Moves(b: State, turn: Turn, s: State) { CanMove(b, turn.thread) && s == Step(b, turn.thread, turn.choice) }

  // ----- the discipline

  /** Every mutex the code takes ranks above the ones it holds already, and it waits
      on semaphores only while it holds none (above is -1). */
  predicate Disciplined(c: Code, above: int) {
    match c
    case Skip => true
    case Then(a, b) => Disciplined(a, above) && Disciplined(b, above)
    case Either(a, b) => Disciplined(a, above) && Disciplined(b, above)
    case Repeat(a) => Disciplined(a, above)
    case Locked(m, a) => Rank(m) > above && Disciplined(a, Rank(m))
    case Await(_) => above == -1
    case Signal(_) => true
  }

  lemma LogIsDisciplined(above: int)
    requires above < 2
    ensures Disciplined(LOG, above)
  {
    assert Disciplined(Locked(DebugSave, Skip), 2);
  }

  lemma ReceiverIsDisciplined()
    ensures Disciplined(RECEIVER, -1)
  {
    LogIsDisciplined(0);
  }

  lemma ProbesAreDisciplined()
    ensures Disciplined(API_PROBE, -1) && Disciplined(MSG_PROBE, -1)
  {
    LogIsDisciplined(0);
  }

  lemma OthersAreDisciplined()
    ensures Disciplined(CONTROL, -1) && Disciplined(LIVENESS, -1) && Disciplined(TIMEOUTS, -1)
  {
    LogIsDisciplined(0);
    LogIsDisciplined(1);
  }

  lemma DaemonIsDisciplined()
    ensures forall k :: 0 <= k < |DAEMON| ==> Disciplined(DAEMON[k], -1)
  {
    ReceiverIsDisciplined();
    ProbesAreDisciplined();
    OthersAreDisciplined();
    assert DAEMON == [RECEIVER, CONTROL, API_PROBE, MSG_PROBE, LIVENESS, TIMEOUTS];
  }

  /** The rank of the innermost mutex held, -1 if none. */
  function Top(thread: seq<Item>): int {
    if thread == [] then -1
    else match thread[0]
         case Release(m) => Rank(m)
         case Do(_) => Top(thread[1..])
  }

  predicate Orderly(thread: seq<Item>) {
    thread == []
    || (Orderly(thread[1..])
        && match thread[0]
           case Release(m) => Rank(m) > Top(thread[1..])
           case Do(c) => Disciplined(c, Top(thread[1..])))
  }

  /** All mutexes a thread holds rank at most as high as the innermost. */
  lemma {:induction false} HeldBelowTop(thread: seq<Item>, m: Mutex)
    requires Orderly(thread) && Holds(thread, m)
    ensures Rank(m) <= Top(thread)
  {
    if thread[0] != Release(m) {
      assert thread == [thread[0]] + thread[1..];
      HeldBelowTop(thread[1..], m);
    }
  }

  lemma UnfoldOrderly(thread: seq<Item>, choice: bool)
    requires Orderly(thread) && thread != []
    ensures Orderly(Unfold(thread[0], choice) + thread[1..])
  {
    var next, rest := thread[0], thread[1..];
    var more := Unfold(next, choice);
    if more == [] {
      assert more + rest == rest;
    } else if |more| == 1 {
      assert (more + rest)[1..] == rest;
    } else {
      assert (more + rest)[1..] == [more[1]] + rest && ([more[1]] + rest)[1..] == rest;
      assert Orderly([more[1]] + rest);
    }
  }

  /** One mutex, one holder. */
  predicate Exclusive(s: State) {
    forall t, u, m :: 0 <= t < |s.threads| && 0 <= u < |s.threads| && t != u && Holds(s.threads[t], m) ==> !Holds(s.threads[u], m)
  }

  predicate Inv(s: State) {
    Exclusive(s) && forall t :: 0 <= t < |s.threads| ==> Orderly(s.threads[t])
  }

  lemma HoldsAfter(s: State, t: nat, choice: bool, m: Mutex)
    requires CanMove(s, t)
    ensures Holds(Step(s, t, choice).threads[t], m) ==> Holds(s.threads[t], m) || (Wants(s.threads[t], m) && !IsHeld(s, m))
  {
  }

  lemma StepKeeps(s: State, t: nat, choice: bool)
    requires Inv(s) && CanMove(s, t)
    ensures Inv(Step(s, t, choice))
  {
    var r := Step(s, t, choice);
    UnfoldOrderly(s.threads[t], choice);
    forall u, v, m | 0 <= u < |r.threads| && 0 <= v < |r.threads| && u != v && Holds(r.threads[u], m)
      ensures !Holds(r.threads[v], m)
    {
      HoldsAfter(s, t, choice, m);
    }
  }

  lemma {:induction false} Reached(codes: seq<Code>, turns: seq<Turn>, s: State)
    requires Reaches(codes, turns, s) && forall k :: 0 <= k < |codes| ==> Disciplined(codes[k], -1)
    ensures Inv(s)
    decreases |turns|
  {
    if turns == [] {
      forall t | 0 <= t < |s.threads|
        ensures Orderly(s.threads[t])
      {
        assert s.threads[t][1..] == [];
      }
    } else {
      var last := turns[|turns| - 1];
      var b :| Reaches(codes, Front(turns), b) && Moves(b, last, s);
      Reached(codes, Front(turns), b);
      StepKeeps(b, last.thread, last.choice);
    }
  }

  // ----- no deadlock

  /** Whoever waits for a mutex waits for one that ranks above all it holds; whoever
      waits for a semaphore holds nothing. */
  lemma WaitsAbove(thread: seq<Item>, held: Mutex)
    requires Orderly(thread) && Holds(thread, held)
    ensures !AwaitsSignal(thread)
    ensures forall m :: Wants(thread, m) ==> Rank(m) > Rank(held)
  {
    if AwaitsSignal(thread) || thread[0].Do? {
      assert thread == [thread[0]] + thread[1..];
      HeldBelowTop(thread[1..], held);
    }
  }

  /** Thread t waits for a mutex that thread u holds. */
  predicate WaitsFor(s: State, t: nat, u: nat, m: Mutex) {
    t < |s.threads| && u < |s.threads| && Wants(s.threads[t], m) && Holds(s.threads[u], m)
  }

  ghost predicate BlockedWithin(s: State, ring: set<nat>, t: nat) { exists u, m :: u in ring && WaitsFor(s, t, u, m) }

  /** Every thread of the ring waits for a mutex held by a thread of the ring. */
  ghost predicate Circle(s: State, ring: set<nat>) {
    ring != {} && forall t :: t in ring ==> BlockedWithin(s, ring, t)
  }

  lemma NextInCircle(s: State, ring: set<nat>, t: nat) returns (u: nat, m: Mutex)
    requires Circle(s, ring) && t in ring
    ensures u in ring && WaitsFor(s, t, u, m)
  {
    assert BlockedWithin(s, ring, t);
    hide Circle;
    hide WaitsFor;
    u, m :| u in ring && WaitsFor(s, t, u, m);
  }

  /** The mutex a thread waits for ranks above any that it holds itself. */
  lemma WaitsHigher(s: State, t: nat, u: nat, v: nat, m: Mutex, n: Mutex)
    requires Inv(s) && WaitsFor(s, t, u, m) && WaitsFor(s, u, v, n)
    ensures Rank(m) < Rank(n) <= 3
  {
    WaitsAbove(s.threads[u], m);
  }

  lemma {:induction false} NoCircleFrom(s: State, ring: set<nat>, t: nat, u: nat, m: Mutex)
    requires Inv(s) && Circle(s, ring) && u in ring && WaitsFor(s, t, u, m)
    ensures false
    decreases 3 - Rank(m)
  {
    hide *;
    var v, n := NextInCircle(s, ring, u);
    WaitsHigher(s, t, u, v, m, n);
    NoCircleFrom(s, ring, u, v, n);
  }

  lemma AnyOf(ring: set<nat>) returns (t: nat)
    requires ring != {}
    ensures t in ring
  {
    t :| t in ring;
  }

  lemma CircleHasThreads(s: State, ring: set<nat>)
    requires Circle(s, ring)
    ensures ring != {}
  {
  }

  /** In no reachable state do threads wait for each other in a circle. */
  lemma NoDeadlock(turns: seq<Turn>, s: State, ring: set<nat>)
    requires Reaches(DAEMON, turns, s)
    ensures !Circle(s, ring)
  {
    hide *;
    DaemonIsDisciplined();
    Reached(DAEMON, turns, s);
    if Circle(s, ring) {
      CircleHasThreads(s, ring);
      var t := AnyOf(ring);
      var u, m := NextInCircle(s, ring, t);
      NoCircleFrom(s, ring, t, u, m);
    }
  }

  lemma {:induction false} SomeHolderMoves(s: State, t: nat, m: Mutex) returns (u: nat)
    requires Inv(s) && t < |s.threads| && Holds(s.threads[t], m)
    ensures CanMove(s, u) && exists n :: Holds(s.threads[u], n)
    decreases 3 - Rank(m)
  {
    WaitsAbove(s.threads[t], m);
    if CanMove(s, t) {
      u := t;
    } else {
      var n := s.threads[t][0].code.mutex;
      assert Wants(s.threads[t], n);
      var v :| 0 <= v < |s.threads| && Holds(s.threads[v], n);
      u := SomeHolderMoves(s, v, n);
    }
  }

  /** Progress: in every reachable state, when a thread is blocked on a mutex, some
      thread that holds a mutex can move. */
  lemma HoldersProgress(turns: seq<Turn>, s: State, t: nat, m: Mutex)
    requires Reaches(DAEMON, turns, s) && t < |s.threads| && Wants(s.threads[t], m) && IsHeld(s, m)
    ensures exists u: nat, n: Mutex :: CanMove(s, u) && Holds(s.threads[u], n)
  {
    DaemonIsDisciplined();
    Reached(DAEMON, turns, s);
    var v :| 0 <= v < |s.threads| && Holds(s.threads[v], m);
    var u := SomeHolderMoves(s, v, m);
  }
}
