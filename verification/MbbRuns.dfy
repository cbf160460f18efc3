// Make-before-break over runs: the incumbent stays until a RESV for its replacement arrives.
module MbbRuns {
  import opened Common
  import opened StateDb
  import opened RsvpState
  import opened RsvpSteps
  import opened RsvpInvariant
  import opened RsvpRuns
  import opened PathLineage
  import opened MbbSafety
  import opened MbbTarget
  import LP = LabelPool

  // ---- one step ---------------------------------------------------------

  lemma PathKeepsAll(s: State, m: PathMsg, e: PathEnv, p: Ref)
    requires Inv(s) && p in s.psbs
    ensures p in HandlePath(s, m, e).psbs
  {
    var found := FindPsb(s, m.key);
    FindPsbExact(s, m.key);
    if m.hop.Some? && m.hasSender && (m.labelRequest || found.Some?) && (found.Some? || e.psbAlloc) {
      AbsorbingGrows(s, m);
      var q, u := if found.None? then s.nextRef else found.value, WithPath(s, m);
      EgressKeepsPaths(u, q, e.rsbAlloc);
      TransitKeepsPaths(u, q, found.None?, e);
    }
  }

  lemma ResvRemovesExactly(s: State, m: ResvMsg, rsbAlloc: bool, p: Ref)
    requires Inv(s) && p in s.psbs
    ensures p in HandleResv(s, m, rsbAlloc).psbs <==> !Removes(s, ResvArrives(m, rsbAlloc), p)
  {
    if n :| Completes(s, n, m, rsbAlloc) {
      CompletionStep(s, n, m);
      CompletionRemoves(s, n, m, p);
    } else {
      ResvKeepsPaths(s, m, rsbAlloc);
    }
  }

  lemma TearRemovesExactly(s: State, e: Event, p: Ref)
    requires Inv(s) && p in s.psbs && (e.PathTearArrives? || e.PsbExpires? || e.TeardownRequested?)
    ensures p in Step(s, e).psbs <==> !Removes(s, e, p)
  {
    hide Inv, PsbCleanup, ScanIds, HandlePath, HandleResv, Trigger, Revert, MbbStart;
    match e {
      case PathTearArrives(k) =>
        FindPsbExact(s, k);
        if FindPsb(s, k).Some? { PsbCleanupKeepsInv(s, FindPsb(s, k).value); }
      case PsbExpires(q) => if q in s.psbs { PsbCleanupKeepsInv(s, q); }
      case TeardownRequested(tunnelId, lspId) =>
        var q := FindById(s, tunnelId, lspId);
        FirstWithIdsHas(s, Walk(s.psbTable), tunnelId, lspId);
        if q.Some? { PsbCleanupKeepsInv(s, q.value); }
    }
  }

  lemma ReservationEventKeepsAll(s: State, e: Event, p: Ref)
    requires Inv(s) && p in s.psbs
    requires e.ResvTearArrives? || e.ResvErrArrives? || e.BlockadeEnds? || e.PsbRefreshes? || e.RsbRefreshes? || e.RsbExpires?
    ensures p in Step(s, e).psbs
  {
    if e.ResvTearArrives? {
      var r := FindRsb(s, e.k);
      if r.Some? && r.value in s.rsbs {
        RsbCleanupEffect(s, r.value);
      }
    } else if e.RsbExpires? && e.r in s.rsbs {
      RsbCleanupEffect(s, e.r);
    }
  }

  /** In every state, each event removes exactly the paths it has a cause to remove. */
  lemma RemovalIsExact(s: State, e: Event, p: Ref)
    requires Inv(s) && p in s.psbs
    ensures p in Step(s, e).psbs <==> !Removes(s, e, p)
  {
    if e.PathArrives? {
      PathKeepsAll(s, e.path, e.env, p);
    } else if e.ResvArrives? {
      ResvRemovesExactly(s, e.resv, e.rsbAlloc, p);
    } else if e.PathTearArrives? || e.PsbExpires? || e.TeardownRequested? {
      TearRemovesExactly(s, e, p);
    } else if IsMessage(e) || IsTimer(e) {
      ReservationEventKeepsAll(s, e, p);
    } else {
      OperatorEventsKeepPaths(s, e);
    }
  }

  // ---- a path through a run --------------------------------------------

  /** An event that by itself cannot be about a path: no tear, expiry or teardown of it, no RESV of its tunnel's siblings. */
  predicate Spares(e: Event, o: Ref, k: Key) {
    match e
    case PathTearArrives(torn) => torn != k
    case PsbExpires(p) => p != o
    case TeardownRequested(tunnelId, lspId) => !(tunnelId == k.tunnelId && lspId == k.lspId)
    case ResvArrives(m, _) => m.key == k || m.key.tunnelId != k.tunnelId
    case _ => true
  }

  lemma SparedStaysPut(s: State, e: Event, o: Ref)
    requires Inv(s) && o in s.psbs && Spares(e, o, s.psbs[o].key)
    ensures o in Step(s, e).psbs && Step(s, e).psbs[o].key == s.psbs[o].key
  {
    if e.ResvArrives? {
      forall n | Completes(s, n, e.resv, e.rsbAlloc)
        ensures Replaced(s, n) != Some(o)
      {
        TargetHasItsIds(s, n);
        BlocksArePaired(s);
      }
    } else if e.TeardownRequested? {
      FirstWithIdsHas(s, Walk(s.psbTable), e.tunnelId, e.lspId);
    }
    RemovalIsExact(s, e, o);
    EveryStepDescends(s, e);
    assert Inherits(s.psbs[o], Step(s, e).psbs[o]);
  }

  lemma TargetHasItsIds(s: State, n: Ref)
    requires Inv(s) && n in s.psbs && s.psbs[n].mbbPending
    ensures var t := Replaced(s, n);
            t.Some? ==> t.value != n && HasIds(s, t.value, s.psbs[n].key.tunnelId, s.psbs[n].mbbOldLspId)
  {
    ReplacedIsAnother(s, n);
    FirstWithIdsHas(s, Walk(s.psbTable), s.psbs[n].key.tunnelId, s.psbs[n].mbbOldLspId);
  }

  /** A path outlives every run whose events spare it, whatever else they do to the daemon. */
  lemma {:induction false} SparedPathSurvives(s: State, run: seq<Event>, o: Ref)
    requires Inv(s) && o in s.psbs && forall i :: 0 <= i < |run| ==> Spares(run[i], o, s.psbs[o].key)
    ensures o in After(s, run).psbs && After(s, run).psbs[o].key == s.psbs[o].key
    decreases |run|
  {
    if run != [] {
      SparedStaysPut(s, run[0], o);
      StepKeepsInv(s, run[0]);
      SparedPathSurvives(Step(s, run[0]), run[1..], o);
    }
  }

  // ---- the incumbent and its replacement -------------------------------

  /** A path waits to replace the one with these ids. */
  ghost predicate Waits(s: State, p: Ref, tunnelId: nat, oldLspId: nat) {
    p in s.psbs && s.psbs[p].mbbPending && s.psbs[p].key.tunnelId == tunnelId && s.psbs[p].mbbOldLspId == oldLspId
  }

  /** No path but the one with this key waits to replace the one with these ids. */
  ghost predicate OnlyReplacement(s: State, tunnelId: nat, oldLspId: nat, k: Key) {
    forall p :: Waits(s, p, tunnelId, oldLspId) ==> s.psbs[p].key == k
  }

  /** While a replacement waits: the incumbent is not torn down or timed out, and is not replaced a second time. */
  predicate WhileWaiting(e: Event, o: Ref, incumbent: Key, replacement: Key) {
    match e
    case PathTearArrives(torn) => torn != incumbent
    case PsbExpires(p) => p != o
    case TeardownRequested(tunnelId, lspId) => !(tunnelId == incumbent.tunnelId && lspId == incumbent.lspId)
    case ResvArrives(m, _) => m.key != replacement
    case MbbRequested(tunnelId, oldLspId, _, _, _) => !(tunnelId == incumbent.tunnelId && oldLspId == incumbent.lspId)
    case _ => true
  }

  lemma WaitingStep(s: State, e: Event, o: Ref, k: Key)
    requires Inv(s) && o in s.psbs && WhileWaiting(e, o, s.psbs[o].key, k)
    requires OnlyReplacement(s, s.psbs[o].key.tunnelId, s.psbs[o].key.lspId, k)
    ensures o in Step(s, e).psbs && Step(s, e).psbs[o].key == s.psbs[o].key
    ensures OnlyReplacement(Step(s, e), s.psbs[o].key.tunnelId, s.psbs[o].key.lspId, k)
  {
    if e.ResvArrives? {
      forall n | Completes(s, n, e.resv, e.rsbAlloc)
        ensures Replaced(s, n) != Some(o)
      {
        TargetHasItsIds(s, n);
        assert !Waits(s, n, s.psbs[o].key.tunnelId, s.psbs[o].key.lspId);
      }
    } else if e.TeardownRequested? {
      FirstWithIdsHas(s, Walk(s.psbTable), e.tunnelId, e.lspId);
    }
    RemovalIsExact(s, e, o);
    EveryStepDescends(s, e);
    assert Inherits(s.psbs[o], Step(s, e).psbs[o]);
    forall p | Waits(Step(s, e), p, s.psbs[o].key.tunnelId, s.psbs[o].key.lspId)
      ensures Step(s, e).psbs[p].key == k
    {
      assert p in s.psbs;
      assert Inherits(s.psbs[p], Step(s, e).psbs[p]);
      assert Waits(s, p, s.psbs[o].key.tunnelId, s.psbs[o].key.lspId);
    }
  }

  lemma {:induction false} WaitingOverRuns(s: State, run: seq<Event>, o: Ref, k: Key)
    requires Inv(s) && o in s.psbs && OnlyReplacement(s, s.psbs[o].key.tunnelId, s.psbs[o].key.lspId, k)
    requires forall i :: 0 <= i < |run| ==> WhileWaiting(run[i], o, s.psbs[o].key, k)
    ensures o in After(s, run).psbs && After(s, run).psbs[o].key == s.psbs[o].key
    decreases |run|
  {
    if run != [] {
      WaitingStep(s, run[0], o, k);
      StepKeepsInv(s, run[0]);
      WaitingOverRuns(Step(s, run[0]), run[1..], o, k);
    }
  }

  /** A replacement was started: the only path that now waits for the incumbent's ids is the new one. */
  lemma StartedAlone(s: State, tunnelId: nat, oldLspId: nat, newLspId: nat, route: int)
    requires Inv(s) && forall p :: !Waits(s, p, tunnelId, oldLspId)
    requires s.nextRef in MbbStart(s, tunnelId, oldLspId, newLspId, true, route).psbs
    ensures var t, prior := MbbStart(s, tunnelId, oldLspId, newLspId, true, route), FindById(s, tunnelId, oldLspId);
            && prior.Some? && prior.value in s.psbs && prior.value in t.psbs && t.psbs[prior.value] == s.psbs[prior.value]
            && s.psbs[prior.value].key.tunnelId == tunnelId && s.psbs[prior.value].key.lspId == oldLspId
            && OnlyReplacement(t, tunnelId, oldLspId, s.psbs[prior.value].key.(lspId := newLspId))
  {
    var t := MbbStart(s, tunnelId, oldLspId, newLspId, true, route);
    ReplacementTargetsIncumbent(s, tunnelId, oldLspId, newLspId, route);
    FirstWithIdsHas(s, Walk(s.psbTable), tunnelId, oldLspId);
    forall p | Waits(t, p, tunnelId, oldLspId)
      ensures p == s.nextRef
    {
      assert !Waits(s, p, tunnelId, oldLspId);
    }
  }

  /**
   * Make before break: once a replacement is started for an incumbent that nothing else waits to
   * replace, the incumbent stays through every run in which no RESV for the replacement arrives, as
   * long as it is not itself torn down, timed out, or replaced a second time.
   */
  lemma IncumbentSurvivesUntilResv(s: State, tunnelId: nat, oldLspId: nat, newLspId: nat, route: int, run: seq<Event>)
    requires Inv(s) && forall p :: !Waits(s, p, tunnelId, oldLspId)
    requires FindById(s, tunnelId, oldLspId).Some? && FindById(s, tunnelId, oldLspId).value in s.psbs
    requires s.nextRef in MbbStart(s, tunnelId, oldLspId, newLspId, true, route).psbs
    requires var o := FindById(s, tunnelId, oldLspId).value;
             forall i :: 0 <= i < |run| ==>
               WhileWaiting(run[i], o, s.psbs[o].key, s.psbs[o].key.(lspId := newLspId))
    ensures var t, o := MbbStart(s, tunnelId, oldLspId, newLspId, true, route), FindById(s, tunnelId, oldLspId).value;
            o in After(t, run).psbs && After(t, run).psbs[o].key == s.psbs[o].key
  {
    StartedAlone(s, tunnelId, oldLspId, newLspId, route);
    MbbStartKeepsInv(s, tunnelId, oldLspId, newLspId, true, route);
    var o := FindById(s, tunnelId, oldLspId).value;
    WaitingOverRuns(MbbStart(s, tunnelId, oldLspId, newLspId, true, route), run, o, s.psbs[o].key.(lspId := newLspId));
  }
}
