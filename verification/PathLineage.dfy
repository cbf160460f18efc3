// What a path carries over from step to step: its key and roles never change, a
// bypass is not switched, and only the start of a replacement makes a path wait.
module PathLineage {
  import opened Common
  import opened StateDb
  import opened RsvpState
  import opened RsvpSteps
  import opened RsvpInvariant
  import opened RsvpRuns
  import LP = LabelPool

  /** The same path later on: same key and roles; it does not start to wait, nor, as a bypass, to be switched. */
  ghost predicate Inherits(v: Psb, w: Psb) {
    && w.key == v.key && w.isIngress == v.isIngress && w.isBypass == v.isBypass
    && (w.mbbPending ==> v.mbbPending && w.mbbOldLspId == v.mbbOldLspId)
    && (v.isBypass && !v.frrActive ==> !w.frrActive)
  }

  /** The second state has no path that the first has not, and each one inherits. */
  ghost predicate Thins(s: State, t: State) {
    t.psbs.Keys <= s.psbs.Keys && forall p :: p in t.psbs ==> Inherits(s.psbs[p], t.psbs[p])
  }

  datatype Birth = Plain | Replacement(tunnelId: nat, oldLspId: nat)

  /** A path as it is created: idle, and waiting only if it is a replacement for these ids. */
  ghost predicate Newborn(v: Psb, b: Birth) {
    && (v.isBypass ==> !v.frrActive)
    && (v.mbbPending ==> b.Replacement? && v.key.tunnelId == b.tunnelId && v.mbbOldLspId == b.oldLspId)
  }

  ghost predicate Descends(s: State, t: State, b: Birth) {
    forall p :: p in t.psbs ==> if p in s.psbs then Inherits(s.psbs[p], t.psbs[p]) else Newborn(t.psbs[p], b)
  }

  lemma ThinningChains(s: State, t: State, u: State)
    requires Thins(s, t) && Thins(t, u)
    ensures Thins(s, u)
  {
    forall p | p in u.psbs
      ensures Inherits(s.psbs[p], u.psbs[p])
    {
      assert Inherits(s.psbs[p], t.psbs[p]) && Inherits(t.psbs[p], u.psbs[p]);
    }
  }

  lemma DescentThins(s: State, t: State, u: State, b: Birth)
    requires Descends(s, t, b) && Thins(t, u)
    ensures Descends(s, u, b)
  {
    forall p | p in u.psbs
      ensures if p in s.psbs then Inherits(s.psbs[p], u.psbs[p]) else Newborn(u.psbs[p], b)
    {
      assert Inherits(t.psbs[p], u.psbs[p]);
    }
  }

  // ---- the operations ---------------------------------------------------

  lemma {:induction false} AssociationThins(s: State, walk: seq<Ref>, ifindex: nat)
    requires Shaped(s)
    ensures Thins(s, AssociateIn(s, walk, ifindex))
    decreases |walk|
  {
    if walk != [] {
      var t := AssociateOne(s, walk[0], ifindex);
      AssociationThins(t, walk[1..], ifindex);
      ThinningChains(s, t, AssociateIn(t, walk[1..], ifindex));
    }
  }

  lemma RsbCleanupThins(s: State, r: Ref)
    requires Shaped(s) && r in s.rsbs
    ensures Thins(s, RsbCleanup(s, r)) && Thins(s, DeleteRsb(s, r))
  {
  }

  lemma PsbCleanupThins(s: State, p: Ref)
    requires Shaped(s) && p in s.psbs
    ensures Thins(s, PsbCleanup(s, p))
  {
    var a := s.psbs[p].assocRsb;
    var t := if a.Some? && a.value in s.rsbs then RsbCleanup(s, a.value) else s;
    assert Thins(s, t);
    ThinningChains(s, t, PsbCleanup(s, p));
  }

  lemma EgressThins(s: State, p: Ref, rsbAlloc: bool)
    requires Shaped(s) && p in s.psbs
    ensures Thins(s, PathEgress(s, p, rsbAlloc))
  {
  }

  lemma SendThins(s: State, p: Ref, route: int)
    requires p in s.psbs
    ensures Thins(s, SendPath(s, p, route))
  {
  }

  lemma TransitThins(s: State, p: Ref, isNew: bool, e: PathEnv)
    requires Shaped(s) && p in s.psbs
    ensures Thins(s, PathTransit(s, p, isNew, e))
  {
    if !e.srcLocal && e.route >= 0 {
      var t := SendPath(s, p, e.sendRoute);
      SendThins(s, p, e.sendRoute);
      ThinningChains(s, t, PathTransit(s, p, isNew, e));
    }
  }

  lemma CompletionThins(s: State, n: Ref)
    requires Shaped(s) && n in s.psbs
    ensures Thins(s, MbbComplete(s, n))
  {
    var prior := FindById(s, s.psbs[n].key.tunnelId, s.psbs[n].mbbOldLspId);
    var t := s;
    if prior.Some? && prior.value in s.psbs {
      PsbCleanupThins(s, prior.value);
      t := PsbCleanup(s, prior.value);
    }
    ThinningChains(s, t, MbbComplete(s, n));
  }

  lemma ReprogramThins(s: State, r: Ref, p: Ref, isNew: bool, labelChanged: bool)
    requires Shaped(s) && r in s.rsbs && p in s.psbs
    ensures Thins(s, Reprogram(s, r, p, isNew, labelChanged))
  {
    var u := ProgramForwarding(s, r, p);
    RsbCleanupThins(u, r);
    var t := u;
    if u.psbs[p].isBypass && (isNew || labelChanged) {
      AssociationThins(u, Walk(u.psbTable), u.psbs[p].protectedIf);
      t := AutoAssociateAll(u, u.psbs[p].protectedIf);
    }
    if p in t.psbs {
      CompletionThins(t, p);
      ThinningChains(u, t, MbbComplete(t, p));
    }
  }

  lemma AcceptThins(s: State, r: Ref, isNew: bool, m: ResvMsg)
    requires Shaped(s) && r in s.rsbs && m.hop.Some? && m.labelOut.Some?
    ensures Thins(s, AcceptResv(s, r, isNew, m))
  {
    var v := s.rsbs[r];
    var linked := v.assocPsb.Some? && v.assocPsb.value in s.psbs;
    var isIngress := linked && s.psbs[v.assocPsb.value].isIngress;
    var t := SetRsb(s, r, v.(cleanupArmed := true, refreshArmed := !isIngress,
                             labelOut := m.labelOut.value, nextHop := m.hop.value.addr, nextIf := m.hop.value.ifindex));
    if linked {
      ReprogramThins(t, r, v.assocPsb.value, isNew, m.labelOut.value != v.labelOut);
    }
  }

  lemma ResvFinishThins(s: State, r: Ref, isNew: bool, m: ResvMsg)
    requires Shaped(s) && r in s.rsbs && m.hop.Some? && m.labelOut.Some?
    ensures Thins(s, if Blockaded(s, r) then (if isNew then DeleteRsb(s, r) else s) else AcceptResv(s, r, isNew, m))
  {
    RsbCleanupThins(s, r);
    AcceptThins(s, r, isNew, m);
  }

  lemma ReserveThins(s: State, p: Ref, w: Rsb)
    requires Shaped(s) && p in s.psbs
    ensures Thins(s, AddRsbFor(s, p, w))
  {
  }

  lemma ResvThins(s: State, m: ResvMsg, rsbAlloc: bool)
    requires Shaped(s)
    ensures Thins(s, HandleResv(s, m, rsbAlloc))
  {
    var psb, rsb := FindPsb(s, m.key), FindRsb(s, m.key);
    if psb.Some? && psb.value in s.psbs && m.hop.Some? && m.labelOut.Some? && (rsb.Some? || rsbAlloc) {
      var w := NewRsb(m.key).(refreshMs := s.psbs[psb.value].refreshMs);
      var s1 := if rsb.None? then AddRsbFor(s, psb.value, w) else s;
      var r := if rsb.None? then s.nextRef else rsb.value;
      ReserveThins(s, psb.value, w);
      if r in s1.rsbs {
        var s2 := SetRsb(s1, r, AbsorbResv(s1.rsbs[r], m));
        assert s2.psbs == s1.psbs;
        ResvFinishThins(s2, r, rsb.None?, m);
        ThinningChains(s, s2, HandleResv(s, m, rsbAlloc));
      }
    }
  }

  lemma AddingDescends(s: State, v: Psb, b: Birth)
    requires Shaped(s) && s.nextRef !in s.psbs && Newborn(v, b)
    ensures Descends(s, AddPsb(s, v), b)
  {
  }

  lemma StartDescends(s: State, v: Psb, route: int, b: Birth)
    requires Shaped(s) && s.nextRef !in s.psbs && Newborn(v, b)
    ensures Descends(s, SendPath(AddPsb(s, v), s.nextRef, route), b)
  {
    AddingDescends(s, v, b);
    SendThins(AddPsb(s, v), s.nextRef, route);
    DescentThins(s, AddPsb(s, v), SendPath(AddPsb(s, v), s.nextRef, route), b);
  }

  lemma PathFinishThins(s: State, p: Ref, m: PathMsg, isNew: bool, e: PathEnv)
    requires Shaped(s) && p in s.psbs && m.hop.Some?
    ensures var t := SetPsb(s, p, AbsorbPath(s.psbs[p], m));
            Thins(s, if e.destLocal then PathEgress(t, p, e.rsbAlloc) else PathTransit(t, p, isNew, e))
  {
    var t := SetPsb(s, p, AbsorbPath(s.psbs[p], m));
    assert Thins(s, t);
    EgressThins(t, p, e.rsbAlloc);
    TransitThins(t, p, isNew, e);
    ThinningChains(s, t, if e.destLocal then PathEgress(t, p, e.rsbAlloc) else PathTransit(t, p, isNew, e));
  }

  lemma PathDescends(s: State, m: PathMsg, e: PathEnv)
    requires Inv(s)
    ensures Descends(s, HandlePath(s, m, e), Plain)
  {
    var found := FindPsb(s, m.key);
    FindPsbExact(s, m.key);
    if m.hop.Some? && m.hasSender && (m.labelRequest || found.Some?) && (found.Some? || e.psbAlloc) {
      var fresh' := NewPsb(m.key).(refreshMs := DEFAULT_REFRESH_MS);
      var s1, p := s, s.nextRef;
      if found.None? {
        s1 := AddPsb(s, fresh');
        AddingDescends(s, fresh', Plain);
      } else {
        p := found.value;
      }
      PathFinishThins(s1, p, m, found.None?, e);
      DescentThins(s, s1, HandlePath(s, m, e), Plain);
    }
  }

  // ---- the events -------------------------------------------------------

  lemma TearThins(s: State, e: Event)
    requires Shaped(s)
    requires e.PathTearArrives? || e.ResvTearArrives? || e.PsbExpires? || e.RsbExpires? || e.TeardownRequested?
    ensures Thins(s, Step(s, e))
  {
    match e {
      case PathTearArrives(k) =>
        var p := FindPsb(s, k);
        if p.Some? && p.value in s.psbs { PsbCleanupThins(s, p.value); }
      case ResvTearArrives(k) =>
        var r := FindRsb(s, k);
        if r.Some? && r.value in s.rsbs { RsbCleanupThins(s, r.value); }
      case PsbExpires(p) => if p in s.psbs { PsbCleanupThins(s, p); }
      case RsbExpires(r) => if r in s.rsbs { RsbCleanupThins(s, r); }
      case TeardownRequested(tunnelId, lspId) =>
        var p := FindById(s, tunnelId, lspId);
        if p.Some? && p.value in s.psbs { PsbCleanupThins(s, p.value); }
    }
  }

  lemma RefreshThins(s: State, e: Event)
    requires Shaped(s)
    requires e.ResvErrArrives? || e.BlockadeEnds? || e.PsbRefreshes? || e.RsbRefreshes? || e.ProtectionRequested?
    ensures Thins(s, Step(s, e))
  {
  }

  lemma SwitchThins(s: State, p: Ref, ifindex: nat, routes: Ref -> int)
    requires Shaped(s) && Switchable(s, p, ifindex)
    ensures Thins(s, TriggerOne(s, p, ifindex, routes))
  {
    var t := TriggerOne(s, p, ifindex, routes);
    assert t.psbs.Keys == s.psbs.Keys;
    assert Inherits(s.psbs[p], t.psbs[p]);
  }

  lemma {:induction false} FailureThins(s: State, walk: seq<Ref>, ifindex: nat, routes: Ref -> int)
    requires Shaped(s)
    ensures Thins(s, TriggerIn(s, walk, ifindex, routes))
    decreases |walk|
  {
    if walk != [] {
      var t := TriggerOne(s, walk[0], ifindex, routes);
      if Switchable(s, walk[0], ifindex) {
        SwitchThins(s, walk[0], ifindex, routes);
      }
      FailureThins(t, walk[1..], ifindex, routes);
      ThinningChains(s, t, TriggerIn(t, walk[1..], ifindex, routes));
    }
  }

  lemma RestoreThins(s: State, p: Ref, ifindex: nat, routes: Ref -> int)
    requires Shaped(s)
    ensures Thins(s, RevertOne(s, p, ifindex, routes))
  {
  }

  lemma {:induction false} RecoveryThins(s: State, walk: seq<Ref>, ifindex: nat, routes: Ref -> int)
    requires Shaped(s)
    ensures Thins(s, RevertIn(s, walk, ifindex, routes))
    decreases |walk|
  {
    if walk != [] {
      var t := RevertOne(s, walk[0], ifindex, routes);
      RestoreThins(s, walk[0], ifindex, routes);
      RecoveryThins(t, walk[1..], ifindex, routes);
      ThinningChains(s, t, RevertIn(t, walk[1..], ifindex, routes));
    }
  }

  lemma InitiationDescends(s: State, src: Addr, dest: Addr, tunnelId: nat, frr: bool, alloc: bool, route: int)
    requires Inv(s)
    ensures Descends(s, InitiatePath(s, src, dest, tunnelId, frr, alloc, route), Plain)
  {
    var k, t := IngressKey(s, src, dest, tunnelId), BumpLspId(s);
    if FindPsb(t, k).Some? {
      if FindPsb(t, k).value in t.psbs {
        SendThins(t, FindPsb(t, k).value, route);
      }
    } else {
      StartDescends(t, NewPsb(k).(refreshMs := DEFAULT_REFRESH_MS, isIngress := true, refreshArmed := true,
                                  frrMode := if frr then Facility else NoFrr), route, Plain);
    }
  }

  lemma BypassDescends(s: State, src: Addr, dest: Addr, tunnelId: nat, i: nat, alloc: bool, route: int)
    requires Inv(s)
    ensures Descends(s, InitiateBypass(s, src, dest, tunnelId, i, alloc, route), Plain)
  {
    var t := BumpLspId(s);
    StartDescends(t, NewPsb(IngressKey(s, src, dest, tunnelId)).(refreshMs := DEFAULT_REFRESH_MS, isIngress := true,
                        refreshArmed := true, isBypass := true, protectedIf := i), route, Plain);
  }

  lemma MbbDescends(s: State, tunnelId: nat, oldLspId: nat, newLspId: nat, alloc: bool, route: int)
    requires Inv(s)
    ensures Descends(s, MbbStart(s, tunnelId, oldLspId, newLspId, alloc, route), Replacement(tunnelId, oldLspId))
  {
    var prior := FindById(s, tunnelId, oldLspId);
    FirstWithIdsHas(s, Walk(s.psbTable), tunnelId, oldLspId);
    if prior.Some? {
      var o := s.psbs[prior.value];
      StartDescends(s, NewPsb(o.key.(lspId := newLspId)).(refreshMs := o.refreshMs, isIngress := true,
                          frrMode := o.frrMode, refreshArmed := true, mbbPending := true, mbbOldLspId := oldLspId),
                    route, Replacement(tunnelId, oldLspId));
    }
  }

  function BirthIn(e: Event): Birth {
    if e.MbbRequested? then Replacement(e.tunnelId, e.oldLspId) else Plain
  }

  /** Whatever happens, a path that stays inherits, and a path that comes is as it is created. */
  lemma EveryStepDescends(s: State, e: Event)
    requires Inv(s)
    ensures Descends(s, Step(s, e), BirthIn(e))
  {
    match e {
      case PathArrives(m, env) => PathDescends(s, m, env);
      case PathRequested(src, dest, tunnelId, frr, alloc, route) =>
        InitiationDescends(s, src, dest, tunnelId, frr, alloc, route);
      case BypassRequested(src, dest, tunnelId, i, alloc, route) =>
        BypassDescends(s, src, dest, tunnelId, i, alloc, route);
      case MbbRequested(tunnelId, old', new', alloc, route) => MbbDescends(s, tunnelId, old', new', alloc, route);
      case _ =>
        OtherStepsThin(s, e);
        DescentThins(s, s, Step(s, e), Plain);
    }
  }

  lemma OtherStepsThin(s: State, e: Event)
    requires Shaped(s) && !e.PathArrives? && !e.PathRequested? && !e.BypassRequested? && !e.MbbRequested?
    ensures Thins(s, Step(s, e))
  {
    match e {
      case ResvArrives(m, rsbAlloc) => ResvThins(s, m, rsbAlloc);
      case LinkFails(i, routes) => FailureThins(s, Walk(s.psbTable), i, routes);
      case LinkRecovers(i, routes) => RecoveryThins(s, Walk(s.psbTable), i, routes);
      case _ =>
        if e.PathTearArrives? || e.ResvTearArrives? || e.PsbExpires? || e.RsbExpires? || e.TeardownRequested? {
          TearThins(s, e);
        } else {
          RefreshThins(s, e);
        }
    }
  }

  // ---- bypass tunnels over runs ----------------------------------------

  ghost predicate BypassesIdle(s: State) {
    forall p :: p in s.psbs && s.psbs[p].isBypass ==> !s.psbs[p].frrActive
  }

  lemma {:induction false} IdleOverRuns(s: State, run: seq<Event>)
    requires Inv(s) && BypassesIdle(s)
    ensures BypassesIdle(After(s, run))
    decreases |run|
  {
    if run != [] {
      EveryStepDescends(s, run[0]);
      StepKeepsInv(s, run[0]);
      IdleOverRuns(Step(s, run[0]), run[1..]);
    }
  }

  /** In every run, no bypass tunnel is ever switched to a bypass itself. */
  lemma BypassIsNeverSwitched(minLabel: nat, maxLabel: nat, run: seq<Event>)
    requires LP.Valid(LP.Fresh(minLabel, maxLabel))
    ensures var s := After(Initial(minLabel, maxLabel), run);
            forall p :: p in s.psbs && s.psbs[p].isBypass ==> !s.psbs[p].frrActive
  {
    InitialInv(minLabel, maxLabel);
    IdleOverRuns(Initial(minLabel, maxLabel), run);
  }
}
