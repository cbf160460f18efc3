// Every event keeps the invariant, hence so does every run.
module RsvpRuns {
  import opened Common
  import opened StateDb
  import opened RsvpState
  import opened RsvpSteps
  import opened RsvpInvariant
  import LP = LabelPool

  lemma SideFieldsKeepInv(s: State, t: State)
    requires Inv(s) && t == s.(bsbs := t.bsbs, nextLspId := t.nextLspId)
    ensures Inv(t)
  {
    assert PsbKeys(t) == PsbKeys(s) && RsbKeys(t) == RsbKeys(s) && LabelsHeld(t) == LabelsHeld(s);
    forall r | r in t.rsbs ensures RsbLinked(t, r) { assert RsbLinked(s, r); }
    forall q | q in t.psbs && t.psbs[q].assocRsb.Some? ensures PsbLinked(t, q) { assert PsbLinked(s, q); }
  }

  lemma SendPathKeepsInv(s: State, p: Ref, route: int)
    requires Inv(s) && p in s.psbs
    ensures Inv(SendPath(s, p, route))
  {
    if route >= 0 {
      TouchPsb(s, p, s.psbs[p].(ifindexOut := route));
    }
  }

  lemma AutoAssociateKeepsInv(s: State, p: Ref)
    requires Inv(s) && p in s.psbs
    ensures Inv(AutoAssociate(s, p))
    ensures AutoAssociate(s, p).rsbs == s.rsbs && AutoAssociate(s, p).psbs.Keys == s.psbs.Keys
  {
    var v := s.psbs[p];
    if WantsBypass(v) && v.ifindexOut != 0 {
      var c := FirstReady(s, Walk(s.psbTable), v.ifindexOut);
      if c.Some? {
        var tunnelId := if c.value in s.psbs then s.psbs[c.value].key.tunnelId else 0;
        TouchPsb(s, p, v.(bypassPsb := c, bypassTunnelId := tunnelId));
        assert AutoAssociate(s, p) == SetPsb(s, p, v.(bypassPsb := c, bypassTunnelId := tunnelId));
      }
    }
  }

  lemma {:induction false} AssociateInKeepsInv(s: State, walk: seq<Ref>, ifindex: nat)
    requires Inv(s)
    ensures Inv(AssociateIn(s, walk, ifindex))
    ensures AssociateIn(s, walk, ifindex).psbs.Keys == s.psbs.Keys
    decreases |walk|
  {
    if walk != [] {
      if walk[0] in s.psbs {
        AutoAssociateKeepsInv(s, walk[0]);
      }
      AssociateInKeepsInv(AssociateOne(s, walk[0], ifindex), walk[1..], ifindex);
    }
  }

  // ---- PATH -------------------------------------------------------------

  lemma PathEgressKeepsInv(s: State, p: Ref, rsbAlloc: bool)
    requires Inv(s) && p in s.psbs
    ensures Inv(PathEgress(s, p, rsbAlloc))
  {
    var v := s.psbs[p];
    RsbOfPsb(s, p);
    FindRsbExact(s, v.key);
    match FindRsb(s, v.key)
    case Some(r) => TouchRsb(s, r, s.rsbs[r].(refreshMs := v.refreshMs));
    case None =>
      if rsbAlloc {
        var w := NewRsb(v.key).(refreshMs := v.refreshMs, refreshArmed := true);
        AddRsbKeepsInv(s, p, w);
        GiveLabelKeepsInv(AddRsbFor(s, p, w), s.nextRef);
      }
  }

  lemma PathTransitKeepsInv(s: State, p: Ref, isNew: bool, e: PathEnv)
    requires Inv(s) && p in s.psbs && (isNew ==> s.psbs[p].assocRsb == None)
    ensures Inv(PathTransit(s, p, isNew, e))
  {
    if !e.srcLocal {
      if e.route < 0 {
        if isNew {
          DeletePsbKeepsInv(s, p);
        }
      } else {
        SendPathKeepsInv(s, p, e.sendRoute);
        AutoAssociateKeepsInv(SendPath(s, p, e.sendRoute), p);
      }
    }
  }

  lemma HandlePathKeepsInv(s: State, m: PathMsg, e: PathEnv)
    requires Inv(s)
    ensures Inv(HandlePath(s, m, e))
  {
    var found := FindPsb(s, m.key);
    FindPsbExact(s, m.key);
    if m.hop.Some? && m.hasSender && (m.labelRequest || found.Some?) && (found.Some? || e.psbAlloc) {
      var fresh' := NewPsb(m.key).(refreshMs := DEFAULT_REFRESH_MS);
      var s1, p := s, s.nextRef;
      if found.None? {
        AddPsbKeepsInv(s, fresh');
        s1 := AddPsb(s, fresh');
      } else {
        p := found.value;
      }
      var v := AbsorbPath(s1.psbs[p], m);
      TouchPsb(s1, p, v);
      var s2 := SetPsb(s1, p, v);
      PathEgressKeepsInv(s2, p, e.rsbAlloc);
      PathTransitKeepsInv(s2, p, found.None?, e);
    }
  }

  // ---- RESV -------------------------------------------------------------

  lemma {:induction false} FirstWithIdsHas(s: State, walk: seq<Ref>, tunnelId: nat, lspId: nat)
    ensures match FirstWithIds(s, walk, tunnelId, lspId)
            case Some(p) => p in walk && HasIds(s, p, tunnelId, lspId)
            case None => forall p :: p in walk ==> !HasIds(s, p, tunnelId, lspId)
    decreases |walk|
  {
    if walk != [] {
      FirstWithIdsHas(s, walk[1..], tunnelId, lspId);
    }
  }

  lemma MbbCompleteKeepsInv(s: State, n: Ref)
    requires Inv(s) && n in s.psbs
    ensures Inv(MbbComplete(s, n))
  {
    var prior := FindById(s, s.psbs[n].key.tunnelId, s.psbs[n].mbbOldLspId);
    var t := s;
    if prior.Some? && prior.value in s.psbs {
      PsbCleanupKeepsInv(s, prior.value);
      t := PsbCleanup(s, prior.value);
    }
    if n in t.psbs {
      TouchPsb(t, n, t.psbs[n].(mbbPending := false, mbbOldLspId := 0));
    }
  }

  lemma ProgramForwardingKeepsInv(s: State, r: Ref, p: Ref)
    requires Inv(s) && r in s.rsbs && p in s.psbs
    ensures Inv(ProgramForwarding(s, r, p))
    ensures ProgramForwarding(s, r, p).psbs == s.psbs && ProgramForwarding(s, r, p).rsbs.Keys == s.rsbs.Keys
  {
    if s.psbs[p].prevHop != 0 {
      GiveLabelKeepsInv(s, r);
      var t := GiveLabel(s, r);
      OwnLabelIsAllocated(t, r, 0);
      if t.rsbs[r].labelIn != 0 {
        InstallKeepsInv(t, InLabel(t.rsbs[r].labelIn), Primary(t.rsbs[r]));
      }
    } else {
      InstallKeepsInv(s, ToDest(s.psbs[p].key.dest), Primary(s.rsbs[r]));
    }
  }

  lemma AfterForwardingKeepsInv(s: State, p: Ref, isNew: bool, labelChanged: bool)
    requires Inv(s) && p in s.psbs
    ensures Inv(AfterForwarding(s, p, isNew, labelChanged))
  {
    var t := s;
    if s.psbs[p].isBypass && (isNew || labelChanged) {
      AssociateInKeepsInv(s, Walk(s.psbTable), s.psbs[p].protectedIf);
      t := AutoAssociateAll(s, s.psbs[p].protectedIf);
    }
    if isNew && t.psbs[p].mbbPending {
      MbbCompleteKeepsInv(t, p);
    }
  }

  lemma ReprogramKeepsInv(s: State, r: Ref, p: Ref, isNew: bool, labelChanged: bool)
    requires Inv(s) && r in s.rsbs && p in s.psbs
    ensures Inv(Reprogram(s, r, p, isNew, labelChanged))
  {
    ProgramForwardingKeepsInv(s, r, p);
    var u := ProgramForwarding(s, r, p);
    RsbCleanupKeepsInv(u, r);
    AfterForwardingKeepsInv(u, p, isNew, labelChanged);
  }

  lemma AcceptResvKeepsInv(s: State, r: Ref, isNew: bool, m: ResvMsg)
    requires Inv(s) && r in s.rsbs && m.hop.Some? && m.labelOut.Some?
    ensures Inv(AcceptResv(s, r, isNew, m))
  {
    var v := s.rsbs[r];
    assert RsbLinked(s, r);
    var p := v.assocPsb.value;
    var w := v.(cleanupArmed := true, refreshArmed := !s.psbs[p].isIngress,
                labelOut := m.labelOut.value, nextHop := m.hop.value.addr, nextIf := m.hop.value.ifindex);
    TouchRsb(s, r, w);
    var t := SetRsb(s, r, w);
    if isNew || w.labelOut != v.labelOut || w.nextHop != v.nextHop {
      ReprogramKeepsInv(t, r, p, isNew, w.labelOut != v.labelOut);
    } else {
      GiveLabelKeepsInv(t, r);
    }
  }

  /** Dropping a reservation that was created a moment ago and never got a label. */
  lemma DropUnlabelledKeepsInv(s: State, r: Ref)
    requires Inv(s) && r in s.rsbs && s.rsbs[r].labelIn == 0
    ensures Inv(DeleteRsb(s, r))
  {
    assert RsbLinked(s, r);
    var p, t := s.rsbs[r].assocPsb.value, DeleteRsb(s, r);
    RsbRemovedTables(s, r, p, t);
    RsbRemovedLinks(s, r, p, t);
    LabelTaken(s, t, r);
    assert 0 !in LabelsHeld(s);
  }

  lemma HandleResvKeepsInv(s: State, m: ResvMsg, rsbAlloc: bool)
    requires Inv(s)
    ensures Inv(HandleResv(s, m, rsbAlloc))
  {
    hide Inv, AcceptResv, DeleteRsb, FindPsb, FindRsb;
    var psb, rsb := FindPsb(s, m.key), FindRsb(s, m.key);
    FindPsbExact(s, m.key);
    FindRsbExact(s, m.key);
    if psb.Some? && m.hop.Some? && m.labelOut.Some? && (rsb.Some? || rsbAlloc) {
      var p := psb.value;
      RsbOfPsb(s, p);
      var s1, r := s, s.nextRef;
      if rsb.None? {
        var w := NewRsb(m.key).(refreshMs := s.psbs[p].refreshMs);
        AddRsbKeepsInv(s, p, w);
        s1 := AddRsbFor(s, p, w);
      } else {
        r := rsb.value;
      }
      TouchRsb(s1, r, AbsorbResv(s1.rsbs[r], m));
      var s2 := SetRsb(s1, r, AbsorbResv(s1.rsbs[r], m));
      if Blockaded(s2, r) {
        if rsb.None? {
          DropUnlabelledKeepsInv(s2, r);
        }
      } else {
        AcceptResvKeepsInv(s2, r, rsb.None?, m);
      }
    }
  }

  // ---- tears, errors, timers -------------------------------------------

  lemma PathTearKeepsInv(s: State, k: Key)
    requires Inv(s)
    ensures Inv(HandlePathTear(s, k))
  {
    var p, t := FindPsb(s, k), s;
    if p.Some? && p.value in s.psbs {
      PsbCleanupKeepsInv(s, p.value);
      t := PsbCleanup(s, p.value);
    }
    SideFieldsKeepInv(t, t.(bsbs := t.bsbs - {k}));
  }

  lemma ResvTearKeepsInv(s: State, k: Key)
    requires Inv(s)
    ensures Inv(HandleResvTear(s, k))
  {
    var r, t := FindRsb(s, k), s;
    if r.Some? && r.value in s.rsbs {
      RsbCleanupKeepsInv(s, r.value);
      t := RsbCleanup(s, r.value);
    }
    SideFieldsKeepInv(t, t.(bsbs := t.bsbs - {k}));
  }

  lemma PsbTimersKeepInv(s: State, p: Ref, destLocal: bool, route: int)
    requires Inv(s)
    ensures Inv(PsbRefreshTimer(s, p, destLocal, route)) && Inv(PsbCleanupTimer(s, p))
  {
    if p in s.psbs {
      SendPathKeepsInv(s, p, route);
      PsbCleanupKeepsInv(s, p);
    }
  }

  lemma RsbTimersKeepInv(s: State, r: Ref)
    requires Inv(s)
    ensures Inv(RsbRefreshTimer(s, r)) && Inv(RsbCleanupTimer(s, r))
  {
    if r in s.rsbs {
      GiveLabelKeepsInv(s, r);
      RsbCleanupKeepsInv(s, r);
    }
  }

  // ---- operator calls ---------------------------------------------------

  lemma NewPsbKeepsInv(s: State, v: Psb, route: int)
    requires Inv(s) && FindPsb(s, v.key) == None && v.assocRsb == None && ReplacementDiffers(v)
    ensures Inv(SendPath(AddPsb(s, v), s.nextRef, route))
  {
    AddPsbKeepsInv(s, v);
    SendPathKeepsInv(AddPsb(s, v), s.nextRef, route);
  }

  lemma InitiateKeepsInv(s: State, src: Addr, dest: Addr, tunnelId: nat, frr: bool, i: nat, alloc: bool, route: int)
    requires Inv(s)
    ensures Inv(InitiatePath(s, src, dest, tunnelId, frr, alloc, route))
    ensures Inv(InitiateBypass(s, src, dest, tunnelId, i, alloc, route))
  {
    var k, t := IngressKey(s, src, dest, tunnelId), BumpLspId(s);
    SideFieldsKeepInv(s, t);
    var found := FindPsb(t, k);
    if found.Some? {
      if found.value in t.psbs {
        SendPathKeepsInv(t, found.value, route);
      }
    } else {
      var v := NewPsb(k).(refreshMs := DEFAULT_REFRESH_MS, isIngress := true, refreshArmed := true);
      NewPsbKeepsInv(t, v.(frrMode := if frr then Facility else NoFrr), route);
      NewPsbKeepsInv(t, v.(isBypass := true, protectedIf := i), route);
    }
  }

  lemma ProtectionKeepsInv(s: State, tunnelId: nat, lspId: nat, mode: FrrMode, bypassTunnelId: nat)
    requires Inv(s)
    ensures Inv(EnableProtection(s, tunnelId, lspId, mode, bypassTunnelId))
  {
    var p := FindById(s, tunnelId, lspId);
    var c := FirstBypass(s, Walk(s.psbTable), bypassTunnelId);
    if p.Some? && p.value in s.psbs {
      TouchPsb(s, p.value, s.psbs[p.value].(frrMode := mode, bypassTunnelId := bypassTunnelId, bypassPsb := c));
    }
  }

  lemma TeardownKeepsInv(s: State, tunnelId: nat, lspId: nat)
    requires Inv(s)
    ensures Inv(Teardown(s, tunnelId, lspId))
  {
    var p := FindById(s, tunnelId, lspId);
    if p.Some? && p.value in s.psbs {
      PsbCleanupKeepsInv(s, p.value);
    }
  }

  lemma MbbStartKeepsInv(s: State, tunnelId: nat, oldLspId: nat, newLspId: nat, alloc: bool, route: int)
    requires Inv(s)
    ensures Inv(MbbStart(s, tunnelId, oldLspId, newLspId, alloc, route))
  {
    var prior := FindById(s, tunnelId, oldLspId);
    FirstWithIdsHas(s, Walk(s.psbTable), tunnelId, oldLspId);
    if prior.Some? && s.psbs[prior.value].isIngress {
      var o := s.psbs[prior.value];
      var k := o.key.(lspId := newLspId);
      FindPsbExact(s, k);
      if FindPsb(s, k).None? && alloc {
        assert newLspId != oldLspId;
        NewPsbKeepsInv(s, NewPsb(k).(refreshMs := o.refreshMs, isIngress := true, frrMode := o.frrMode,
                                     refreshArmed := true, mbbPending := true, mbbOldLspId := oldLspId), route);
      }
    }
  }

  // ---- fast reroute -----------------------------------------------------

  lemma TriggerOneKeepsInv(s: State, p: Ref, ifindex: nat, routes: Ref -> int)
    requires Inv(s)
    ensures Inv(TriggerOne(s, p, ifindex, routes))
  {
    if Switchable(s, p, ifindex) {
      var v := s.psbs[p];
      var b := s.psbs[v.bypassPsb.value];
      var r, t := FindRsb(s, v.key), s;
      if r.Some? && r.value in s.rsbs {
        var e := BypassEntry(s.rsbs[FindRsb(s, b.key).value], v.key.dest);
        OwnLabelIsAllocated(s, r.value, v.key.dest);
        InstallKeepsInv(s, FwdKeyFor(s.rsbs[r.value].labelIn, v.key.dest), e);
        t := Install(s, FwdKeyFor(s.rsbs[r.value].labelIn, v.key.dest), e);
      }
      TouchPsb(t, p, v.(frrActive := true, ifindexOut := b.ifindexOut));
      SendPathKeepsInv(SetPsb(t, p, v.(frrActive := true, ifindexOut := b.ifindexOut)), p, routes(p));
    }
  }

  lemma {:induction false} TriggerInKeepsInv(s: State, walk: seq<Ref>, ifindex: nat, routes: Ref -> int)
    requires Inv(s)
    ensures Inv(TriggerIn(s, walk, ifindex, routes))
    decreases |walk|
  {
    if walk != [] {
      TriggerOneKeepsInv(s, walk[0], ifindex, routes);
      TriggerInKeepsInv(TriggerOne(s, walk[0], ifindex, routes), walk[1..], ifindex, routes);
    }
  }

  lemma RevertOneKeepsInv(s: State, p: Ref, ifindex: nat, routes: Ref -> int)
    requires Inv(s)
    ensures Inv(RevertOne(s, p, ifindex, routes))
  {
    if SwitchedFor(s, p, ifindex) {
      var v := s.psbs[p];
      var r := FindRsb(s, v.key);
      if r.Some? && r.value in s.rsbs {
        OwnLabelIsAllocated(s, r.value, v.key.dest);
        InstallKeepsInv(s, FwdKeyFor(s.rsbs[r.value].labelIn, v.key.dest), Primary(s.rsbs[r.value]));
        var t := Install(s, FwdKeyFor(s.rsbs[r.value].labelIn, v.key.dest), Primary(s.rsbs[r.value]));
        TouchPsb(t, p, v.(frrActive := false, ifindexOut := ifindex));
        SendPathKeepsInv(SetPsb(t, p, v.(frrActive := false, ifindexOut := ifindex)), p, routes(p));
      }
    }
  }

  lemma {:induction false} RevertInKeepsInv(s: State, walk: seq<Ref>, ifindex: nat, routes: Ref -> int)
    requires Inv(s)
    ensures Inv(RevertIn(s, walk, ifindex, routes))
    decreases |walk|
  {
    if walk != [] {
      RevertOneKeepsInv(s, walk[0], ifindex, routes);
      RevertInKeepsInv(RevertOne(s, walk[0], ifindex, routes), walk[1..], ifindex, routes);
    }
  }

  // ---- runs -------------------------------------------------------------

  /** Everything that can happen to the daemon before it shuts down. */
  datatype Event =
    | PathArrives(path: PathMsg, env: PathEnv)
    | ResvArrives(resv: ResvMsg, rsbAlloc: bool)
    | PathTearArrives(k: Key)
    | ResvTearArrives(k: Key)
    | ResvErrArrives(k: Key, failed: Option<Flowspec>, bsbAlloc: bool)
    | BlockadeEnds(k: Key)
    | PsbRefreshes(p: Ref, destLocal: bool, route: int)
    | PsbExpires(p: Ref)
    | RsbRefreshes(r: Ref)
    | RsbExpires(r: Ref)
    | PathRequested(src: Addr, dest: Addr, tunnelId: nat, frr: bool, alloc: bool, route: int)
    | BypassRequested(src: Addr, dest: Addr, tunnelId: nat, protectedIf: nat, alloc: bool, route: int)
    | ProtectionRequested(tunnelId: nat, lspId: nat, mode: FrrMode, bypassTunnelId: nat)
    | TeardownRequested(tunnelId: nat, lspId: nat)
    | MbbRequested(tunnelId: nat, oldLspId: nat, newLspId: nat, alloc: bool, route: int)
    | LinkFails(ifindex: nat, routes: Ref -> int)
    | LinkRecovers(ifindex: nat, routes: Ref -> int)

  function Step(s: State, e: Event): (t: State)
    requires Shaped(s)
    ensures Shaped(t)
  {
    match e
    case PathArrives(m, env) => HandlePath(s, m, env)
    case ResvArrives(m, rsbAlloc) => HandleResv(s, m, rsbAlloc)
    case PathTearArrives(k) => HandlePathTear(s, k)
    case ResvTearArrives(k) => HandleResvTear(s, k)
    case ResvErrArrives(k, failed, bsbAlloc) => HandleResvErr(s, k, failed, bsbAlloc)
    case BlockadeEnds(k) => s.(bsbs := s.bsbs - {k})
    case PsbRefreshes(p, destLocal, route) => PsbRefreshTimer(s, p, destLocal, route)
    case PsbExpires(p) => PsbCleanupTimer(s, p)
    case RsbRefreshes(r) => RsbRefreshTimer(s, r)
    case RsbExpires(r) => RsbCleanupTimer(s, r)
    case PathRequested(src, dest, tunnelId, frr, alloc, route) => InitiatePath(s, src, dest, tunnelId, frr, alloc, route)
    case BypassRequested(src, dest, tunnelId, i, alloc, route) => InitiateBypass(s, src, dest, tunnelId, i, alloc, route)
    case ProtectionRequested(tunnelId, lspId, mode, bypass) => EnableProtection(s, tunnelId, lspId, mode, bypass)
    case TeardownRequested(tunnelId, lspId) => Teardown(s, tunnelId, lspId)
    case MbbRequested(tunnelId, old', new', alloc, route) => MbbStart(s, tunnelId, old', new', alloc, route)
    case LinkFails(i, routes) => Trigger(s, i, routes)
    case LinkRecovers(i, routes) => Revert(s, i, routes)
  }

  predicate IsMessage(e: Event) {
    || e.PathArrives? || e.ResvArrives? || e.PathTearArrives? || e.ResvTearArrives? || e.ResvErrArrives?
  }

  predicate IsTimer(e: Event) {
    e.BlockadeEnds? || e.PsbRefreshes? || e.PsbExpires? || e.RsbRefreshes? || e.RsbExpires?
  }

  lemma MessageKeepsInv(s: State, e: Event)
    requires Inv(s) && IsMessage(e)
    ensures Inv(Step(s, e))
  {
    match e
    case PathArrives(m, env) => HandlePathKeepsInv(s, m, env);
    case ResvArrives(m, rsbAlloc) => HandleResvKeepsInv(s, m, rsbAlloc);
    case PathTearArrives(k) => PathTearKeepsInv(s, k);
    case ResvTearArrives(k) => ResvTearKeepsInv(s, k);
    case ResvErrArrives(k, failed, bsbAlloc) => SideFieldsKeepInv(s, HandleResvErr(s, k, failed, bsbAlloc));
  }

  lemma TimerKeepsInv(s: State, e: Event)
    requires Inv(s) && IsTimer(e)
    ensures Inv(Step(s, e))
  {
    match e
    case BlockadeEnds(k) => SideFieldsKeepInv(s, s.(bsbs := s.bsbs - {k}));
    case PsbRefreshes(p, destLocal, route) => PsbTimersKeepInv(s, p, destLocal, route);
    case PsbExpires(p) => PsbTimersKeepInv(s, p, false, 0);
    case RsbRefreshes(r) => RsbTimersKeepInv(s, r);
    case RsbExpires(r) => RsbTimersKeepInv(s, r);
  }

  lemma StepKeepsInv(s: State, e: Event)
    requires Inv(s)
    ensures Inv(Step(s, e))
  {
    if IsMessage(e) {
      MessageKeepsInv(s, e);
    } else if IsTimer(e) {
      TimerKeepsInv(s, e);
    } else {
      match e
      case PathRequested(src, dest, tunnelId, frr, alloc, route) =>
        InitiateKeepsInv(s, src, dest, tunnelId, frr, 0, alloc, route);
      case BypassRequested(src, dest, tunnelId, i, alloc, route) =>
        InitiateKeepsInv(s, src, dest, tunnelId, false, i, alloc, route);
      case ProtectionRequested(tunnelId, lspId, mode, bypass) => ProtectionKeepsInv(s, tunnelId, lspId, mode, bypass);
      case TeardownRequested(tunnelId, lspId) => TeardownKeepsInv(s, tunnelId, lspId);
      case MbbRequested(tunnelId, old', new', alloc, route) => MbbStartKeepsInv(s, tunnelId, old', new', alloc, route);
      case LinkFails(i, routes) => TriggerInKeepsInv(s, Walk(s.psbTable), i, routes);
      case LinkRecovers(i, routes) => RevertInKeepsInv(s, Walk(s.psbTable), i, routes);
    }
  }

  lemma InitialInv(minLabel: nat, maxLabel: nat)
    requires LP.Valid(LP.Fresh(minLabel, maxLabel))
    ensures Inv(Initial(minLabel, maxLabel))
  {
    var s := Initial(minLabel, maxLabel);
    assert PsbKeys(s) == map[] && RsbKeys(s) == map[];
    forall b: nat | b < HASH_SIZE
      ensures Distinct(s.psbTable[b])
    {
      assert s.psbTable[b] == [];
    }
  }

  /** The state after a run. */
  function After(s: State, run: seq<Event>): (t: State)
    requires Shaped(s)
    ensures Shaped(t)
    decreases |run|
  {
    if run == [] then s else After(Step(s, run[0]), run[1..])
  }

  lemma {:induction false} RunKeepsInv(s: State, run: seq<Event>)
    requires Inv(s)
    ensures Inv(After(s, run))
    decreases |run|
  {
    if run != [] {
      StepKeepsInv(s, run[0]);
      RunKeepsInv(Step(s, run[0]), run[1..]);
    }
  }

  /** Whatever happens to a daemon since its start, keys stay unique and blocks stay paired. */
  lemma NoBlockIsOrphaned(minLabel: nat, maxLabel: nat, run: seq<Event>)
    requires LP.Valid(LP.Fresh(minLabel, maxLabel))
    ensures var s := After(Initial(minLabel, maxLabel), run);
            && (forall p, q :: p in s.psbs && q in s.psbs && s.psbs[p].key == s.psbs[q].key ==> p == q)
            && (forall r, q :: r in s.rsbs && q in s.rsbs && s.rsbs[r].key == s.rsbs[q].key ==> r == q)
            && (forall r :: r in s.rsbs ==>
                  exists p :: p in s.psbs && s.psbs[p].key == s.rsbs[r].key && s.rsbs[r].assocPsb == Some(p))
            && (forall p, r :: p in s.psbs && r in s.rsbs ==>
                  (s.rsbs[r].assocPsb == Some(p) <==> s.psbs[p].assocRsb == Some(r)))
            && (forall p :: p in s.psbs && s.psbs[p].assocRsb.Some? ==> s.psbs[p].assocRsb.value in s.rsbs)
  {
    InitialInv(minLabel, maxLabel);
    RunKeepsInv(Initial(minLabel, maxLabel), run);
    BlocksArePaired(After(Initial(minLabel, maxLabel), run));
  }

  lemma BlocksArePaired(s: State)
    requires Inv(s)
    ensures forall p, q :: p in s.psbs && q in s.psbs && s.psbs[p].key == s.psbs[q].key ==> p == q
    ensures forall r, q :: r in s.rsbs && q in s.rsbs && s.rsbs[r].key == s.rsbs[q].key ==> r == q
    ensures forall r :: r in s.rsbs ==>
              exists p :: p in s.psbs && s.psbs[p].key == s.rsbs[r].key && s.rsbs[r].assocPsb == Some(p)
    ensures forall p, r :: p in s.psbs && r in s.rsbs ==>
              (s.rsbs[r].assocPsb == Some(p) <==> s.psbs[p].assocRsb == Some(r))
    ensures forall p :: p in s.psbs && s.psbs[p].assocRsb.Some? ==> s.psbs[p].assocRsb.value in s.rsbs
  {
    forall p, q | p in s.psbs && q in s.psbs && s.psbs[p].key == s.psbs[q].key
      ensures p == q
    {
      FindPsbExact(s, s.psbs[p].key);
    }
    forall r, q | r in s.rsbs && q in s.rsbs && s.rsbs[r].key == s.rsbs[q].key
      ensures r == q
    {
      FindRsbExact(s, s.rsbs[r].key);
    }
    forall r | r in s.rsbs
      ensures exists p :: p in s.psbs && s.psbs[p].key == s.rsbs[r].key && s.rsbs[r].assocPsb == Some(p)
    {
      assert RsbLinked(s, r);
      assert s.rsbs[r].assocPsb == Some(s.rsbs[r].assocPsb.value);
    }
    forall p, r | p in s.psbs && r in s.rsbs
      ensures s.rsbs[r].assocPsb == Some(p) <==> s.psbs[p].assocRsb == Some(r)
    {
      assert RsbLinked(s, r);
      if s.psbs[p].assocRsb.Some? { assert PsbLinked(s, p); }
    }
    forall p | p in s.psbs && s.psbs[p].assocRsb.Some?
      ensures s.psbs[p].assocRsb.value in s.rsbs
    {
      assert PsbLinked(s, p);
    }
  }

  /**
   * Whatever happens to a daemon since its start, a label is allocated exactly when
   * an RSB holds it, one RSB only; a labelled forwarding entry belongs to a live RSB;
   * and the label the allocator would return next is the lowest free one, and the
   * data plane has no entry for it.
   */
  lemma LabelsAreConserved(minLabel: nat, maxLabel: nat, run: seq<Event>)
    requires LP.Valid(LP.Fresh(minLabel, maxLabel))
    ensures var s := After(Initial(minLabel, maxLabel), run);
            && (forall l :: l in s.labels.used <==> exists r :: r in s.rsbs && s.rsbs[r].labelIn == l != 0)
            && (forall r, q :: r in s.rsbs && q in s.rsbs && s.rsbs[r].labelIn == s.rsbs[q].labelIn != 0 ==> r == q)
            && (forall l :: InLabel(l) in s.fwd ==> exists r :: r in s.rsbs && s.rsbs[r].labelIn == l != 0)
            && s.labels.min <= s.labels.max
            && var next := LP.Alloc(s.labels).1;
               (if LP.Full(s.labels) then next == 0 else LP.IsLowestFree(s.labels, next) && InLabel(next) !in s.fwd)
  {
    InitialInv(minLabel, maxLabel);
    RunKeepsInv(Initial(minLabel, maxLabel), run);
    var s := After(Initial(minLabel, maxLabel), run);
    LP.AllocTakesLowest(s.labels);
    forall l
      ensures l in s.labels.used <==> exists r :: r in s.rsbs && s.rsbs[r].labelIn == l != 0
    {
      HeldByAnRsb(s, l);
    }
  }

  lemma HeldByAnRsb(s: State, l: nat)
    ensures l in LabelsHeld(s) <==> exists r :: r in s.rsbs && s.rsbs[r].labelIn == l != 0
  {
  }
}
