/**
 What ipcd_join does to any list of members with process ids of their own, names
 shared or not: whom it compares, whom it removes, and when it accepts.
 */
module JoinScan {
  import opened Members

  predicate PidsApart(ms: seq<Info>) {
    forall i, j :: 0 <= i < j < |ms| ==> ms[i].pid != ms[j].pid
  }

  /** The member is never compared: the one in front of it is removed, which makes it move
      up to a position the loop has already passed. */
  predicate Skipped(ms: seq<Info>, k: nat, pid: int, name: Name)
    requires k < |ms|
  {
    k > 0 && Conflicts(ms[k - 1], pid, name) && ms[k - 1].suspend && !Skipped(ms, k - 1, pid, name)
  }

  /** Everybody compared and in the way is suspended. */
  predicate Accepts(ms: seq<Info>, pid: int, name: Name) {
    forall k :: 0 <= k < |ms| && Conflicts(ms[k], pid, name) && !Skipped(ms, k, pid, name) ==> ms[k].suspend
  }

  /** The member with the newcomer's process id is among those never compared. */
  predicate SkipsOwn(ms: seq<Info>, pid: int, name: Name) {
    exists k :: 0 <= k < |ms| && ms[k].pid == pid && Skipped(ms, k, pid, name)
  }

  // ----- one pass over the rest of the list

  datatype Scanned = Scanned(left: seq<Info>, accepted: bool)

  function Scan(ms: seq<Info>, pid: int, name: Name): Scanned {
    if ms == [] then Scanned([], true)
    else if !Conflicts(ms[0], pid, name) then Behind(ms[0], Scan(ms[1..], pid, name))
    else if !ms[0].suspend then Scanned(ms, false)
    else if |ms| == 1 then Scanned([], true)
    else Behind(ms[1], Scan(ms[2..], pid, name))
  }

  function Behind(m: Info, r: Scanned): Scanned { r.(left := [m] + r.left) }

  function Closed(done: seq<Info>, r: Scanned, pid: int, name: Name): Joined {
    Joined(done + r.left + if r.accepted then [Newcomer(pid, name)] else [], r.accepted)
  }

  lemma CutOne(ms: seq<Info>, i: nat, pid: int, name: Name)
    requires PidsApart(ms) && i < |ms|
    ensures WithoutPid(ms, ms[i].pid) == Cut(ms, i) && WithoutPid(Cut(ms, i), ms[i].pid) == Cut(ms, i)
    ensures Conflicts(ms[i], pid, name) ==> Evict(ms, ms[i], pid, name) == Cut(ms, i)
    ensures PidsApart(Cut(ms, i))
  {
    IndexOfIs(ms, ms[i].pid, i);
    IndexOfIs(Cut(ms, i), ms[i].pid, |ms| - 1);
  }

  lemma ClosedBehind(done: seq<Info>, m: Info, r: Scanned, pid: int, name: Name)
    ensures Closed(done, Behind(m, r), pid, name) == Closed(done + [m], r, pid, name)
  {
    assert done + ([m] + r.left) == done + [m] + r.left;
  }

  /** The loop from a position on is one pass over what stands behind it. */
  lemma {:induction false} JoinScans(done: seq<Info>, rest: seq<Info>, pid: int, name: Name)
    requires PidsApart(done + rest)
    ensures JoinFrom(done + rest, |done|, pid, name) == Closed(done, Scan(rest, pid, name), pid, name)
    decreases |rest|
  {
    var ms, i := done + rest, |done|;
    if rest == [] {
      assert done + rest == done;
    } else if !Conflicts(rest[0], pid, name) {
      assert ms == (done + [rest[0]]) + rest[1..];
      JoinScans(done + [rest[0]], rest[1..], pid, name);
      ClosedBehind(done, rest[0], Scan(rest[1..], pid, name), pid, name);
    } else if rest[0].suspend {
      assert ms[i] == rest[0];
      CutOne(ms, i, pid, name);
      if |rest| == 1 {
        assert Cut(ms, i) == done;
        assert JoinFrom(done, i + 1, pid, name) == Joined(done + [Newcomer(pid, name)], true);
        assert done + [] == done;
      } else {
        assert Cut(ms, i) == (done + [rest[1]]) + rest[2..];
        JoinScans(done + [rest[1]], rest[2..], pid, name);
        ClosedBehind(done, rest[1], Scan(rest[2..], pid, name), pid, name);
      }
    } else {
      assert ms[i] == rest[0];
      assert done + rest + [] == ms;
    }
  }

  // ----- what the pass means

  /** Skipping is judged within the rest of the list once a member that is not removed
      has been passed. */
  lemma {:induction false} SkippedRest(ms: seq<Info>, d: nat, k: nat, pid: int, name: Name)
    requires d <= k < |ms| && !(d < |ms| && Skipped(ms, d, pid, name))
    ensures Skipped(ms, k, pid, name) <==> Skipped(ms[d..], k - d, pid, name)
    decreases k
  {
    if k > d {
      SkippedRest(ms, d, k - 1, pid, name);
    }
  }

  /** How far one turn gets: one position, or two with a removal. */
  function Stride(ms: seq<Info>, pid: int, name: Name): nat
    requires ms != []
  {
    if Conflicts(ms[0], pid, name) && ms[0].suspend && |ms| > 1 then 2 else 1
  }

  lemma StrideClean(ms: seq<Info>, pid: int, name: Name)
    requires ms != []
    ensures !Skipped(ms, 0, pid, name)
    ensures Stride(ms, pid, name) == 2 ==> Skipped(ms, 1, pid, name)
    ensures Stride(ms, pid, name) < |ms| ==> !Skipped(ms, Stride(ms, pid, name), pid, name)
  {
  }

  lemma {:induction false} ScanAccepts(ms: seq<Info>, pid: int, name: Name)
    ensures Scan(ms, pid, name).accepted <==> Accepts(ms, pid, name)
    decreases |ms|
  {
    if ms != [] {
      StrideClean(ms, pid, name);
      var d := Stride(ms, pid, name);
      var rest := ms[d..];
      ScanAccepts(rest, pid, name);
      forall k | d <= k < |ms|
        ensures Skipped(ms, k, pid, name) <==> Skipped(rest, k - d, pid, name)
      {
        SkippedRest(ms, d, k, pid, name);
      }
      AcceptsFrom(ms, d, pid, name);
    }
  }

  lemma AcceptsFrom(ms: seq<Info>, d: nat, pid: int, name: Name)
    requires ms != [] && d <= |ms|
    requires forall k :: 0 < k < d ==> Skipped(ms, k, pid, name)
    requires d == 1 || d == 2
    requires forall k :: d <= k < |ms| ==> (Skipped(ms, k, pid, name) <==> Skipped(ms[d..], k - d, pid, name))
    ensures Accepts(ms, pid, name) <==> (Conflicts(ms[0], pid, name) ==> ms[0].suspend) && Accepts(ms[d..], pid, name)
  {
    hide Skipped;
    var rest := ms[d..];
    assert forall k :: 0 <= k < |rest| ==> rest[k] == ms[k + d];
    FirstCompared(ms, pid, name);
    if Accepts(ms, pid, name) {
      forall k | 0 <= k < |rest| && Conflicts(rest[k], pid, name) && !Skipped(rest, k, pid, name)
        ensures rest[k].suspend
      {
        assert !Skipped(ms, k + d, pid, name);
      }
    } else {
      var k :| 0 <= k < |ms| && Conflicts(ms[k], pid, name) && !Skipped(ms, k, pid, name) && !ms[k].suspend;
      if k >= d {
        assert rest[k - d] == ms[k] && !Skipped(rest, k - d, pid, name);
      }
    }
  }

  lemma FirstCompared(ms: seq<Info>, pid: int, name: Name)
    requires ms != []
    ensures !Skipped(ms, 0, pid, name)
  {
  }

  /** After an accepting pass, the member with the newcomer's process id is still there
      exactly if it was skipped. */
  lemma {:induction false} ScanLeavesOwn(ms: seq<Info>, pid: int, name: Name)
    requires Scan(ms, pid, name).accepted
    ensures (exists m :: m in Scan(ms, pid, name).left && m.pid == pid) <==> SkipsOwn(ms, pid, name)
    decreases |ms|
  {
    if ms != [] {
      StrideClean(ms, pid, name);
      var d := Stride(ms, pid, name);
      var rest, left := ms[d..], Scan(ms, pid, name).left;
      ScanLeavesOwn(rest, pid, name);
      forall k | d <= k < |ms|
        ensures Skipped(ms, k, pid, name) <==> Skipped(rest, k - d, pid, name)
      {
        SkippedRest(ms, d, k, pid, name);
      }
      OwnFrom(ms, d, pid, name);
      var kept := if d == 2 then [ms[1]] else if Conflicts(ms[0], pid, name) then [] else [ms[0]];
      assert left == kept + Scan(rest, pid, name).left;
      assert forall m :: m in left <==> m in kept || m in Scan(rest, pid, name).left;
    }
  }

  lemma OwnFrom(ms: seq<Info>, d: nat, pid: int, name: Name)
    requires ms != [] && d <= |ms| && (d == 1 || d == 2)
    requires d == 2 ==> Skipped(ms, 1, pid, name)
    requires forall k :: d <= k < |ms| ==> (Skipped(ms, k, pid, name) <==> Skipped(ms[d..], k - d, pid, name))
    ensures SkipsOwn(ms, pid, name) <==> (d == 2 && ms[1].pid == pid) || SkipsOwn(ms[d..], pid, name)
  {
    hide Skipped;
    var rest := ms[d..];
    FirstCompared(ms, pid, name);
    if SkipsOwn(ms, pid, name) {
      var k :| 0 <= k < |ms| && ms[k].pid == pid && Skipped(ms, k, pid, name);
      if k >= d {
        assert rest[k - d] == ms[k] && Skipped(rest, k - d, pid, name);
      }
    }
    if SkipsOwn(rest, pid, name) {
      var k :| 0 <= k < |rest| && rest[k].pid == pid && Skipped(rest, k, pid, name);
      assert ms[k + d] == rest[k] && Skipped(ms, k + d, pid, name);
    }
  }

  lemma {:induction false} ScanApart(ms: seq<Info>, pid: int, name: Name)
    requires PidsApart(ms)
    ensures var left := Scan(ms, pid, name).left; PidsApart(left) && forall m :: m in left ==> m in ms
    decreases |ms|
  {
    if ms != [] {
      var d := Stride(ms, pid, name);
      ScanApart(ms[d..], pid, name);
      assert forall m :: m in ms[d..] ==> m in ms && m.pid != ms[0].pid && (d == 2 ==> m.pid != ms[1].pid);
    }
  }

  lemma ApartAppend(left: seq<Info>, pid: int, name: Name)
    requires PidsApart(left)
    ensures PidsApart(left + [Newcomer(pid, name)]) <==> forall m :: m in left ==> m.pid != pid
  {
    var all := left + [Newcomer(pid, name)];
    assert all[|left|].pid == pid;
    if m :| m in left && m.pid == pid {
      var k :| 0 <= k < |left| && left[k] == m;
      assert all[k].pid == all[|left|].pid;
    }
  }

  /** Joining keeps process ids apart if and only if it does not accept a newcomer whose
      own former membership it skipped; and it accepts exactly if everybody in the way
      whom it compares is suspended. */
  lemma JoinKeepsPids(ms: seq<Info>, pid: int, name: Name)
    requires PidsApart(ms)
    ensures Join(ms, pid, name).accepted <==> Accepts(ms, pid, name)
    ensures PidsApart(Join(ms, pid, name).members) <==> !(Accepts(ms, pid, name) && SkipsOwn(ms, pid, name))
  {
    assert [] + ms == ms;
    JoinScans([], ms, pid, name);
    ScanAccepts(ms, pid, name);
    ScanApart(ms, pid, name);
    var r := Scan(ms, pid, name);
    assert [] + r.left == r.left && r.left + [] == r.left;
    if r.accepted {
      ScanLeavesOwn(ms, pid, name);
      ApartAppend(r.left, pid, name);
    }
  }

  // ----- who is left

  /** The member is compared, in the way and suspended, and nobody compared before it
      refused the newcomer. */
  predicate Removed(ms: seq<Info>, k: nat, pid: int, name: Name)
    requires k < |ms|
  {
    && Conflicts(ms[k], pid, name) && ms[k].suspend && !Skipped(ms, k, pid, name)
    && forall j :: 0 <= j < k && Conflicts(ms[j], pid, name) && !Skipped(ms, j, pid, name) ==> ms[j].suspend
  }

  /** Those of the first n members that are not removed, in their order. */
  function Remaining(ms: seq<Info>, n: nat, pid: int, name: Name): seq<Info>
    requires n <= |ms|
  {
    if n == 0 then [] else Remaining(ms, n - 1, pid, name) + if Removed(ms, n - 1, pid, name) then [] else [ms[n - 1]]
  }

  lemma {:induction false} RemainingAll(ms: seq<Info>, n: nat, pid: int, name: Name)
    requires n <= |ms| && forall k :: 0 <= k < n ==> !Removed(ms, k, pid, name)
    ensures Remaining(ms, n, pid, name) == ms[..n]
  {
    hide Removed;
    if n > 0 {
      RemainingAll(ms, n - 1, pid, name);
    }
  }

  /** Where the first member refuses, nobody is removed. */
  lemma RefusedKeeps(ms: seq<Info>, k: nat, pid: int, name: Name)
    requires k < |ms| && Conflicts(ms[0], pid, name) && !ms[0].suspend
    ensures !Removed(ms, k, pid, name)
  {
    FirstCompared(ms, pid, name);
  }

  /** Behind one turn of the pass the rest decides. */
  lemma RemovedRest(ms: seq<Info>, d: nat, k: nat, pid: int, name: Name)
    requires ms != [] && d <= k < |ms| && (d == 1 || d == 2) && (Conflicts(ms[0], pid, name) ==> ms[0].suspend)
    requires d == 2 ==> Skipped(ms, 1, pid, name)
    requires forall j :: d <= j < |ms| ==> (Skipped(ms, j, pid, name) <==> Skipped(ms[d..], j - d, pid, name))
    ensures Removed(ms, k, pid, name) <==> Removed(ms[d..], k - d, pid, name)
  {
    hide Skipped;
    var rest := ms[d..];
    if Removed(ms, k, pid, name) {
      forall j | 0 <= j < k - d && Conflicts(rest[j], pid, name) && !Skipped(rest, j, pid, name)
        ensures rest[j].suspend
      {
        assert rest[j] == ms[j + d] && !Skipped(ms, j + d, pid, name);
      }
    }
    if Removed(rest, k - d, pid, name) {
      forall j | 0 <= j < k && Conflicts(ms[j], pid, name) && !Skipped(ms, j, pid, name)
        ensures ms[j].suspend
      {
        if j >= d {
          assert rest[j - d] == ms[j] && !Skipped(rest, j - d, pid, name);
        }
      }
    }
  }

  lemma {:induction false} RemainingRest(ms: seq<Info>, d: nat, n: nat, pid: int, name: Name)
    requires d <= n <= |ms| && forall k :: d <= k < |ms| ==> (Removed(ms, k, pid, name) <==> Removed(ms[d..], k - d, pid, name))
    ensures Remaining(ms, n, pid, name) == Remaining(ms, d, pid, name) + Remaining(ms[d..], n - d, pid, name)
    decreases n
  {
    hide Removed;
    if n > d {
      RemainingRest(ms, d, n - 1, pid, name);
      assert ms[d..][n - 1 - d] == ms[n - 1];
    }
  }

  lemma RemainingTurn(ms: seq<Info>, pid: int, name: Name)
    requires ms != [] && (Conflicts(ms[0], pid, name) ==> ms[0].suspend)
    ensures var d := Stride(ms, pid, name);
      Remaining(ms, d, pid, name) == if d == 2 then [ms[1]] else if Conflicts(ms[0], pid, name) then [] else [ms[0]]
  {
    StrideClean(ms, pid, name);
    assert Remaining(ms, 0, pid, name) == [];
    hide Skipped;
    assert Remaining(ms, 1, pid, name) == if Conflicts(ms[0], pid, name) then [] else [ms[0]];
  }

  lemma {:induction false} ScanLeaves(ms: seq<Info>, pid: int, name: Name)
    ensures Scan(ms, pid, name).left == Remaining(ms, |ms|, pid, name)
    decreases |ms|
  {
    if ms != [] {
      if Conflicts(ms[0], pid, name) && !ms[0].suspend {
        forall k | 0 <= k < |ms|
          ensures !Removed(ms, k, pid, name)
        {
          RefusedKeeps(ms, k, pid, name);
        }
        RemainingAll(ms, |ms|, pid, name);
      } else {
        var d := Stride(ms, pid, name);
        ScanLeaves(ms[d..], pid, name);
        StrideClean(ms, pid, name);
        forall j | d <= j < |ms|
          ensures Skipped(ms, j, pid, name) <==> Skipped(ms[d..], j - d, pid, name)
        {
          SkippedRest(ms, d, j, pid, name);
        }
        forall k | d <= k < |ms|
          ensures Removed(ms, k, pid, name) <==> Removed(ms[d..], k - d, pid, name)
        {
          RemovedRest(ms, d, k, pid, name);
        }
        RemainingRest(ms, d, |ms|, pid, name);
        RemainingTurn(ms, pid, name);
      }
    }
  }

  /** What a join leaves, accepted or refused, names shared or not: everybody but the
      suspended members in the way that it compares before somebody refuses; and behind
      them the newcomer, if nobody does. */
  lemma JoinLeaves(ms: seq<Info>, pid: int, name: Name)
    requires PidsApart(ms)
    ensures Join(ms, pid, name).members
         == Remaining(ms, |ms|, pid, name) + if Accepts(ms, pid, name) then [Newcomer(pid, name)] else []
  {
    hide Remaining;
    hide Accepts;
    assert [] + ms == ms;
    JoinScans([], ms, pid, name);
    ScanAccepts(ms, pid, name);
    ScanLeaves(ms, pid, name);
    var r := Scan(ms, pid, name);
    assert [] + r.left == r.left && r.left + [] == r.left;
  }
}
