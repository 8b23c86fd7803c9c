/**
 What the probe loop finds when a name is not one member's alone, and when that is what
 look-up by name would find.
 */
module ProbeLaws {
  import opened Members
  import opened Registry
  import opened Calls

  /** The loop steps over the member behind a suspended match, unless it stepped over
      that match itself. */
  predicate SteppedOver(ms: seq<Info>, k: nat, target: Name)
    requires k < |ms|
  {
    k > 0 && ms[k - 1].name == target && ms[k - 1].suspend && !SteppedOver(ms, k - 1, target)
  }

  predicate Active(m: Info, target: Name) { m.name == target && !m.suspend }

  predicate Serves(m: Info, target: Name, api: Name) { Active(m, target) && api in m.apis }

  /** Everybody who could take the call, from position i on. */
  function Providers(ms: seq<Info>, i: nat, target: Name, api: Name): seq<int>
    decreases |ms| - i
  {
    if i >= |ms| then []
    else (if Serves(ms[i], target, api) then [ms[i].pid] else []) + Providers(ms, i + 1, target, api)
  }

  predicate MeetsActive(ms: seq<Info>, i: nat, target: Name) {
    exists k :: i <= k < |ms| && Active(ms[k], target) && !SteppedOver(ms, k, target)
  }

  predicate MeetsProvider(ms: seq<Info>, i: nat, target: Name, api: Name) {
    exists k :: i <= k < |ms| && Serves(ms[k], target, api) && !SteppedOver(ms, k, target)
  }

  predicate MissesProvider(ms: seq<Info>, i: nat, target: Name, api: Name) {
    exists k :: i <= k < |ms| && Serves(ms[k], target, api) && SteppedOver(ms, k, target)
  }

  /** One position further. */
  lemma MeetsNext(ms: seq<Info>, i: nat, target: Name, api: Name)
    requires i < |ms|
    ensures MeetsActive(ms, i, target) <==> (Active(ms[i], target) && !SteppedOver(ms, i, target)) || MeetsActive(ms, i + 1, target)
    ensures MeetsProvider(ms, i, target, api) <==>
            (Serves(ms[i], target, api) && !SteppedOver(ms, i, target)) || MeetsProvider(ms, i + 1, target, api)
    ensures MissesProvider(ms, i, target, api) <==>
            (Serves(ms[i], target, api) && SteppedOver(ms, i, target)) || MissesProvider(ms, i + 1, target, api)
  {
    hide SteppedOver;
    if MeetsActive(ms, i, target) {
      var k :| i <= k < |ms| && Active(ms[k], target) && !SteppedOver(ms, k, target);
      assert k > i ==> MeetsActive(ms, i + 1, target);
    }
    if MeetsProvider(ms, i, target, api) {
      var k :| i <= k < |ms| && Serves(ms[k], target, api) && !SteppedOver(ms, k, target);
      assert k > i ==> MeetsProvider(ms, i + 1, target, api);
    }
    if MissesProvider(ms, i, target, api) {
      var k :| i <= k < |ms| && Serves(ms[k], target, api) && SteppedOver(ms, k, target);
      assert k > i ==> MissesProvider(ms, i + 1, target, api);
    }
  }

  /** What the loop has found by the end, from a position it does not step over. */
  predicate Finds(ms: seq<Info>, i: nat, target: Name, api: Name) {
    var (pids, program) := ProbeFrom(ms, i, target, api);
    && (program <==> MeetsActive(ms, i, target))
    && (pids == [] <==> !MeetsProvider(ms, i, target, api))
    && |pids| <= |Providers(ms, i, target, api)|
    && (pids == Providers(ms, i, target, api) <==> !MissesProvider(ms, i, target, api))
  }

  lemma FindsNone(ms: seq<Info>, i: nat, target: Name, api: Name)
    requires i >= |ms|
    ensures Finds(ms, i, target, api)
  {
  }

  lemma FindsOther(ms: seq<Info>, i: nat, target: Name, api: Name)
    requires i < |ms| && ms[i].name != target && Finds(ms, i + 1, target, api)
    ensures Finds(ms, i, target, api)
  {
    MeetsNext(ms, i, target, api);
    hide MeetsActive;
    hide MeetsProvider;
    hide MissesProvider;
    assert [] + Providers(ms, i + 1, target, api) == Providers(ms, i + 1, target, api);
  }

  lemma FindsActive(ms: seq<Info>, i: nat, target: Name, api: Name)
    requires i < |ms| && Active(ms[i], target) && !SteppedOver(ms, i, target) && Finds(ms, i + 1, target, api)
    ensures Finds(ms, i, target, api)
  {
    MeetsNext(ms, i, target, api);
    hide MeetsActive;
    hide MeetsProvider;
    hide MissesProvider;
    hide SteppedOver;
    var own := if api in ms[i].apis then [ms[i].pid] else [];
    SameBehind(own, ProbeFrom(ms, i + 1, target, api).0, Providers(ms, i + 1, target, api));
  }

  lemma SameBehind(own: seq<int>, a: seq<int>, b: seq<int>)
    ensures own + a == own + b <==> a == b
  {
    assert (own + a)[|own|..] == a && (own + b)[|own|..] == b;
  }

  /** A suspended match: the next member is not looked at. */
  lemma FindsBeyond(ms: seq<Info>, i: nat, target: Name, api: Name)
    requires i < |ms| && ms[i].name == target && ms[i].suspend && !SteppedOver(ms, i, target) && Finds(ms, i + 2, target, api)
    ensures Finds(ms, i, target, api)
  {
    assert i + 1 < |ms| ==> SteppedOver(ms, i + 1, target);
    MeetsNext(ms, i, target, api);
    if i + 1 < |ms| {
      MeetsNext(ms, i + 1, target, api);
    }
    hide SteppedOver;
    hide MeetsActive;
    hide MeetsProvider;
    hide MissesProvider;
    var rest := Providers(ms, i + 2, target, api);
    assert Providers(ms, i, target, api) == Providers(ms, i + 1, target, api);
    if i + 1 < |ms| {
      assert Providers(ms, i + 1, target, api) == (if Serves(ms[i + 1], target, api) then [ms[i + 1].pid] else []) + rest;
    } else {
      NothingBeyond(ms, i + 1, target, api);
      NothingBeyond(ms, i + 2, target, api);
    }
  }

  lemma NothingBeyond(ms: seq<Info>, i: nat, target: Name, api: Name)
    requires i >= |ms|
    ensures !MeetsActive(ms, i, target) && !MeetsProvider(ms, i, target, api) && !MissesProvider(ms, i, target, api)
  {
  }

  lemma {:induction false} ProbeFinds(ms: seq<Info>, i: nat, target: Name, api: Name)
    requires i < |ms| ==> !SteppedOver(ms, i, target)
    ensures Finds(ms, i, target, api)
    decreases |ms| - i
  {
    hide Finds;
    if i >= |ms| {
      FindsNone(ms, i, target, api);
    } else if ms[i].name != target {
      ProbeFinds(ms, i + 1, target, api);
      FindsOther(ms, i, target, api);
    } else if ms[i].suspend {
      ProbeFinds(ms, i + 2, target, api);
      FindsBeyond(ms, i, target, api);
    } else {
      ProbeFinds(ms, i + 1, target, api);
      FindsActive(ms, i, target, api);
    }
  }

  /** For any list of members whatsoever: the probe finds everybody who could take the
      call, and the program if anybody active has its name, if and only if it steps
      over no such provider, and, if anybody active has the name, not over all of them. */
  lemma ProbeExactly(ms: seq<Info>, target: Name, api: Name)
    ensures Probe(ms, target, api) == (Providers(ms, 0, target, api), exists k :: 0 <= k < |ms| && Active(ms[k], target))
       <==> (&& (forall k :: 0 <= k < |ms| && Serves(ms[k], target, api) ==> !SteppedOver(ms, k, target))
             && ((exists k :: 0 <= k < |ms| && Active(ms[k], target)) ==>
                   exists k :: 0 <= k < |ms| && Active(ms[k], target) && !SteppedOver(ms, k, target)))
  {
    ProbeFinds(ms, 0, target, api);
  }

  // ----- look-up by the first member of the name

  function Found(v: Verdict): (seq<int>, bool) {
    match v
    case NoProgram => ([], false)
    case NoApi => ([], true)
    case Provider(pid) => ([pid], true)
  }

  lemma NoneMet(ms: seq<Info>, i: nat, target: Name, api: Name)
    requires !MeetsActive(ms, i, target)
    ensures !MeetsProvider(ms, i, target, api)
  {
    hide SteppedOver;
  }

  /** No later member that the probe looks at adds anything to what the first one of the
      name says. */
  predicate FirstDecides(ms: seq<Info>, target: Name, api: Name) {
    var k := NameIndex(ms, target);
    forall j :: k < j < |ms| && Active(ms[j], target) && !SteppedOver(ms, j, target) ==> !ms[k].suspend && api !in ms[j].apis
  }

  lemma FirstDecidesIs(ms: seq<Info>, target: Name, api: Name)
    ensures var k := NameIndex(ms, target);
      && (k == |ms| ==> FirstDecides(ms, target, api))
      && (k < |ms| && ms[k].suspend ==> (FirstDecides(ms, target, api) <==> !MeetsActive(ms, k + 2, target)))
      && (k < |ms| && !ms[k].suspend ==> (FirstDecides(ms, target, api) <==> !MeetsProvider(ms, k + 1, target, api)))
  {
    var k := NameIndex(ms, target);
    if k < |ms| {
      assert !SteppedOver(ms, k, target);
      assert ms[k].suspend && k + 1 < |ms| ==> SteppedOver(ms, k + 1, target);
    }
    hide SteppedOver;
  }

  lemma BehindFirst(ms: seq<Info>, k: nat, target: Name)
    requires k < |ms| && forall j :: 0 <= j < k ==> ms[j].name != target
    ensures !SteppedOver(ms, k, target)
    ensures ms[k].name == target && ms[k].suspend && k + 2 < |ms| ==> !SteppedOver(ms, k + 2, target)
    ensures !ms[k].suspend && k + 1 < |ms| ==> !SteppedOver(ms, k + 1, target)
  {
    assert !SteppedOver(ms, k, target);
    if k + 1 < |ms| && ms[k].name == target && ms[k].suspend {
      assert SteppedOver(ms, k + 1, target);
    }
  }

  /** Dispatching is look-up by name, that is, by the first member of that name, if and
      only if no later member the probe looks at is in the way of that. */
  lemma ProbeIsLookupExactly(ms: seq<Info>, target: Name, api: Name)
    ensures Probe(ms, target, api) == Found(Resolve(ms, target, api)) <==> FirstDecides(ms, target, api)
  {
    var k := NameIndex(ms, target);
    ProbeUpTo(ms, 0, k, target, api);
    FirstDecidesIs(ms, target, api);
    if k < |ms| {
      hide FirstDecides;
      var next := if ms[k].suspend then k + 2 else k + 1;
      BehindFirst(ms, k, target);
      hide SteppedOver;
      ProbeFinds(ms, next, target, api);
      hide MeetsActive;
      hide MeetsProvider;
      if ms[k].suspend && !MeetsActive(ms, next, target) {
        NoneMet(ms, next, target, api);
      } else if !ms[k].suspend {
        var own := if api in ms[k].apis then [ms[k].pid] else [];
        SameBehind(own, ProbeFrom(ms, k + 1, target, api).0, []);
        assert own + [] == own;
      }
    }
  }

  // ----- runs in which it is not

  /** The run of Registry.RunLeavesDuplicate: a suspended B in front of an active one. */
  function TwoNamesakes(): seq<Event> { [Joining(1, "A"), Joining(2, "B")] + Sweeps(16) + [Joining(1, "B")] }

  lemma NamesakesAre()
    ensures Run(TwoNamesakes()) == [Info(2, "B", 16, true, [], []), Newcomer(1, "B")]
  {
    hide *;
    RunLeavesDuplicate();
    NamesakesRun();
  }

  lemma NamesakesRun()
    ensures TwoNamesakes() == [Joining(1, "A"), Joining(2, "B")] + Sweeps(16) + [Joining(1, "B")]
  {
  }

  /** What the two do to a list of the two processes. */
  lemma TwoEntries(first: Info, second: Info)
    requires first.pid == 2 && second.pid == 1
    ensures Touch([first, second], 2) == [first.(live := 0, suspend := false), second]
    ensures first.apis == [] ==> RegisterApi([first, second], 2, "f") == [first.(apis := ["f"]), second]
    ensures second.apis == [] ==> RegisterApi([first, second], 1, "f") == [first, second.(apis := ["f"])]
  {
    IndexOfIs([first, second], 2, 0);
    IndexOfIs([first, second], 1, 1);
    assert Add([], "f") == ["f"] by {
      assert [] + ["f"] == ["f"];
    }
  }

  /** While the old B is suspended, the new one, active and with the API registered, is
      stepped over: a call to it is refused. */
  lemma RunRefuses()
    ensures var ms := Run(TwoNamesakes() + [RegisteringApi(1, "f")]);
      && ms == [Info(2, "B", 16, true, [], []), Info(1, "B", 0, false, ["f"], [])]
      && Providers(ms, 0, "B", "f") == [1] && Probe(ms, "B", "f") == ([], false)
  {
    var first := Info(2, "B", 16, true, [], []);
    NamesakesAre();
    RunExtends(TwoNamesakes(), RegisteringApi(1, "f"));
    hide TwoNamesakes;
    hide Run;
    TwoEntries(first, Newcomer(1, "B"));
    var ms := [first, Info(1, "B", 0, false, ["f"], [])];
    assert Providers(ms, 1, "B", "f") == [1];
    assert ProbeFrom(ms, 2, "B", "f") == ([], false);
  }

  lemma LaterSteps(es: seq<Event>, e: Event, f: Event, g: Event)
    ensures Run(es + [e, f, g]) == Step(Step(Step(Run(es), e), f), g)
  {
    assert es + [e, f, g] == es + [e] + [f] + [g];
    RunExtends(es, e);
    RunExtends(es + [e], f);
    RunExtends(es + [e] + [f], g);
  }

  /** Once the old B gives a sign of life and both register the API, a call is relayed
      to both. */
  lemma RunFindsTwo()
    ensures Probe(Run(TwoNamesakes() + [Alive(2), RegisteringApi(1, "f"), RegisteringApi(2, "f")]), "B", "f") == ([2, 1], true)
  {
    NamesakesAre();
    LaterSteps(TwoNamesakes(), Alive(2), RegisteringApi(1, "f"), RegisteringApi(2, "f"));
    hide TwoNamesakes;
    hide Run;
    var first, second := Info(2, "B", 16, true, [], []), Newcomer(1, "B");
    var awake, served := Info(2, "B", 0, false, [], []), Info(1, "B", 0, false, ["f"], []);
    TwoEntries(first, second);
    TwoEntries(awake, second);
    TwoEntries(awake, served);
    var both := [awake.(apis := ["f"]), served];
    hide RegisterApi;
    hide Touch;
    assert ProbeFrom(both, 2, "B", "f") == ([], false);
    assert ProbeFrom(both, 1, "B", "f") == ([1] + [], true);
    assert [1] + [] == [1] && [2] + [1] == [2, 1];
  }
}
