// Make-before-break: which events remove a path, and what the step that completes
// a replacement does.
module MbbSafety {
  import opened Common
  import opened StateDb
  import opened RsvpState
  import opened RsvpSteps
  import opened RsvpInvariant
  import opened RsvpRuns
  import LP = LabelPool

  // ---- what a step may do to a path ------------------------------------

  /** A path is still the same path; if it waits for its first reservation, it still does. */
  ghost predicate Evolves(v: Psb, w: Psb) {
    && w.key == v.key && w.isIngress == v.isIngress
    && w.mbbPending == v.mbbPending && w.mbbOldLspId == v.mbbOldLspId
    && (v.mbbPending && v.assocRsb == None ==> w.assocRsb == None)
  }

  /** Paths that are in both states evolve; paths that are only in the second are unreserved. */
  ghost predicate PathsEvolve(s: State, t: State) {
    forall p :: p in t.psbs ==> if p in s.psbs then Evolves(s.psbs[p], t.psbs[p]) else FreshPath(t.psbs[p])
  }

  ghost predicate FreshPath(v: Psb) {
    v.mbbPending ==> v.assocRsb == None && v.isIngress
  }

  /** No path came, none went. */
  ghost predicate PathsStay(s: State, t: State) {
    t.psbTable == s.psbTable && t.psbs.Keys == s.psbs.Keys && PathsEvolve(s, t)
  }

  ghost predicate SameKeys(s: State, t: State) {
    t.psbTable == s.psbTable && t.psbs.Keys == s.psbs.Keys && forall p :: p in s.psbs ==> t.psbs[p].key == s.psbs[p].key
  }

  /** A scan by ids depends on the keys only. */
  lemma {:induction false} ScanSeesKeysOnly(s: State, t: State, walk: seq<Ref>, tunnelId: nat, lspId: nat)
    requires SameKeys(s, t)
    ensures FirstWithIds(t, walk, tunnelId, lspId) == FirstWithIds(s, walk, tunnelId, lspId)
    decreases |walk|
  {
    if walk != [] {
      assert HasIds(s, walk[0], tunnelId, lspId) == HasIds(t, walk[0], tunnelId, lspId);
      ScanSeesKeysOnly(s, t, walk[1..], tunnelId, lspId);
    }
  }

  lemma {:induction false} AssociationKeepsPaths(s: State, walk: seq<Ref>, ifindex: nat)
    requires Shaped(s)
    ensures PathsStay(s, AssociateIn(s, walk, ifindex))
    ensures AssociateIn(s, walk, ifindex).rsbs == s.rsbs
    ensures forall p :: p in s.psbs ==> AssociateIn(s, walk, ifindex).psbs[p].assocRsb == s.psbs[p].assocRsb
    decreases |walk|
  {
    if walk != [] {
      AssociationKeepsPaths(AssociateOne(s, walk[0], ifindex), walk[1..], ifindex);
    }
  }

  lemma SwitchKeepsPaths(s: State, p: Ref, ifindex: nat, routes: Ref -> int)
    requires Shaped(s)
    ensures PathsStay(s, TriggerOne(s, p, ifindex, routes))
  {
    hide FindRsb, HasLabelOut, FwdKeyFor;
  }

  lemma SwitchBackKeepsPaths(s: State, p: Ref, ifindex: nat, routes: Ref -> int)
    requires Shaped(s)
    ensures PathsStay(s, RevertOne(s, p, ifindex, routes))
  {
  }

  lemma StayingIsTransitive(s: State, t: State, u: State)
    requires PathsStay(s, t) && PathsStay(t, u)
    ensures PathsStay(s, u)
  {
  }

  lemma {:induction false} TriggerKeepsPaths(s: State, walk: seq<Ref>, ifindex: nat, routes: Ref -> int)
    requires Shaped(s)
    ensures PathsStay(s, TriggerIn(s, walk, ifindex, routes))
    decreases |walk|
  {
    if walk != [] {
      var t := TriggerOne(s, walk[0], ifindex, routes);
      SwitchKeepsPaths(s, walk[0], ifindex, routes);
      TriggerKeepsPaths(t, walk[1..], ifindex, routes);
      StayingIsTransitive(s, t, TriggerIn(t, walk[1..], ifindex, routes));
    }
  }

  lemma {:induction false} RevertKeepsPaths(s: State, walk: seq<Ref>, ifindex: nat, routes: Ref -> int)
    requires Shaped(s)
    ensures PathsStay(s, RevertIn(s, walk, ifindex, routes))
    decreases |walk|
  {
    if walk != [] {
      var t := RevertOne(s, walk[0], ifindex, routes);
      SwitchBackKeepsPaths(s, walk[0], ifindex, routes);
      RevertKeepsPaths(t, walk[1..], ifindex, routes);
      StayingIsTransitive(s, t, RevertIn(t, walk[1..], ifindex, routes));
    }
  }

  // ---- which events remove a path --------------------------------------

  /** The reservation that a RESV would create is blockaded by an earlier admission failure. */
  ghost predicate WouldBeBlockaded(s: State, m: ResvMsg) {
    && m.key in s.bsbs
    && (if m.flowspec.Some? then m.flowspec.value.rate else 0.0) >= s.bsbs[m.key].rate
    && (if m.flowspec.Some? then m.flowspec.value.size else 0.0) >= s.bsbs[m.key].size
  }

  /** A RESV that gives a replacement path its first reservation. */
  ghost predicate Completes(s: State, n: Ref, m: ResvMsg, rsbAlloc: bool) {
    && n in s.psbs && s.psbs[n].key == m.key && s.psbs[n].mbbPending && s.psbs[n].assocRsb == None
    && m.hop.Some? && m.labelOut.Some? && rsbAlloc
    && !WouldBeBlockaded(s, m)
    && (s.psbs[n].prevHop != 0 ==> !LP.Full(s.labels))
  }

  /** The path that the completion of a replacement tears down. */
  function Replaced(s: State, n: Ref): Option<Ref>
    requires n in s.psbs
  {
    FindById(s, s.psbs[n].key.tunnelId, s.psbs[n].mbbOldLspId)
  }

  /** The causes for which an event removes a path that was there. */
  ghost predicate Removes(s: State, e: Event, p: Ref)
    requires p in s.psbs
  {
    match e
    case PathTearArrives(k) => s.psbs[p].key == k
    case PsbExpires(q) => q == p && s.psbs[p].cleanupArmed
    case TeardownRequested(tunnelId, lspId) => FindById(s, tunnelId, lspId) == Some(p)
    case ResvArrives(m, rsbAlloc) => exists n :: Completes(s, n, m, rsbAlloc) && Replaced(s, n) == Some(p)
    case _ => false
  }

  /** The reservation that a RESV creates. */
  function ReservationFor(s: State, n: Ref, m: ResvMsg): Rsb
    requires n in s.psbs
  {
    AbsorbResv(NewRsb(m.key).(refreshMs := s.psbs[n].refreshMs), m).(assocPsb := Some(n))
  }

  /** The state once that reservation is there and before it is accepted. */
  function WithReservation(s: State, n: Ref, m: ResvMsg): State
    requires Shaped(s) && n in s.psbs
  {
    AddRsbFor(s, n, ReservationFor(s, n, m))
  }

  /** A RESV for a path without a reservation creates it, and drops it or accepts it. */
  lemma NewReservation(s: State, n: Ref, m: ResvMsg)
    requires Inv(s) && n in s.psbs && s.psbs[n].key == m.key && s.psbs[n].assocRsb == None
    requires m.hop.Some? && m.labelOut.Some?
    ensures var u := WithReservation(s, n, m);
            && Inv(u) && s.nextRef !in s.rsbs
            && (Blockaded(u, s.nextRef) <==> WouldBeBlockaded(s, m))
            && HandleResv(s, m, true) ==
               if Blockaded(u, s.nextRef) then DeleteRsb(u, s.nextRef) else AcceptResv(u, s.nextRef, true, m)
  {
    FindPsbExact(s, m.key);
    RsbOfPsb(s, n);
    AddRsbKeepsInv(s, n, ReservationFor(s, n, m));
    AbsorbedAtOnce(s, n, m);
  }

  lemma AbsorbedAtOnce(s: State, n: Ref, m: ResvMsg)
    requires Shaped(s) && n in s.psbs
    ensures var s1 := AddRsbFor(s, n, NewRsb(m.key).(refreshMs := s.psbs[n].refreshMs));
            SetRsb(s1, s.nextRef, AbsorbResv(s1.rsbs[s.nextRef], m)) == WithReservation(s, n, m)
  {
    var s1 := AddRsbFor(s, n, NewRsb(m.key).(refreshMs := s.psbs[n].refreshMs));
    assert AbsorbResv(s1.rsbs[s.nextRef], m) == ReservationFor(s, n, m);
    assert s1.rsbs[s.nextRef := ReservationFor(s, n, m)] == WithReservation(s, n, m).rsbs;
  }

  // ---- the step that completes a replacement ---------------------------

  /** Cleaning up one path leaves every other path and its reservation as they are. */
  lemma CleanupSparesOthers(u: State, p: Ref, n: Ref, r: Ref)
    requires Inv(u) && p in u.psbs && n in u.psbs && n != p && u.psbs[n].assocRsb == Some(r)
    ensures var t := PsbCleanup(u, p);
            t.psbs == u.psbs - {p} && r in u.rsbs && r in t.rsbs && t.rsbs[r] == u.rsbs[r]
  {
    PsbCleanupKeepsInv(u, p);
    assert PsbLinked(u, n);
    if u.psbs[p].assocRsb.Some? {
      assert PsbLinked(u, p);
    }
  }

  lemma ReplacedIsAnother(u: State, n: Ref)
    requires Inv(u) && n in u.psbs && u.psbs[n].mbbPending
    ensures Replaced(u, n).Some? ==> Replaced(u, n).value in u.psbs && Replaced(u, n).value != n
  {
    FirstWithIdsHas(u, Walk(u.psbTable), u.psbs[n].key.tunnelId, u.psbs[n].mbbOldLspId);
    assert ReplacementDiffers(u.psbs[n]);
  }

  /** Completion tears down at most one path, never the replacement, whose reservation stays as it is. */
  lemma MbbCompleteEffect(u: State, n: Ref, r: Ref)
    requires Inv(u) && n in u.psbs && u.psbs[n].mbbPending && u.psbs[n].assocRsb == Some(r)
    ensures var t, prior := MbbComplete(u, n), Replaced(u, n);
            && prior != Some(n)
            && t.psbs == (if prior.Some? then u.psbs - {prior.value} else u.psbs)
                         [n := u.psbs[n].(mbbPending := false, mbbOldLspId := 0)]
            && r in u.rsbs && r in t.rsbs && t.rsbs[r] == u.rsbs[r]
  {
    ReplacedIsAnother(u, n);
    assert PsbLinked(u, n);
    if Replaced(u, n).Some? {
      CleanupSparesOthers(u, Replaced(u, n).value, n, r);
    }
  }

  /** Programming forwarding leaves paths alone and a reservation's downstream side too. */
  lemma ProgrammedReservation(s: State, r: Ref, p: Ref)
    requires Inv(s) && r in s.rsbs && p in s.psbs && (s.psbs[p].prevHop != 0 ==> !LP.Full(s.labels))
    ensures var t := ProgramForwarding(s, r, p);
            && t.psbs == s.psbs && t.psbTable == s.psbTable && t.rsbs.Keys == s.rsbs.Keys
            && t.rsbs[r] == s.rsbs[r].(labelIn := t.rsbs[r].labelIn)
            && (s.psbs[p].prevHop != 0 ==> t.rsbs[r].labelIn != 0)
  {
    GiveLabelKeepsInv(s, r);
  }

  /** The reservation as accepted: downstream label and hop recorded, timers set. */
  function Accepted(s: State, n: Ref, m: ResvMsg): Rsb
    requires n in s.psbs && m.hop.Some? && m.labelOut.Some?
  {
    ReservationFor(s, n, m).(cleanupArmed := true, refreshArmed := !s.psbs[n].isIngress,
      labelOut := m.labelOut.value, nextHop := m.hop.value.addr, nextIf := m.hop.value.ifindex)
  }

  lemma ProgramAccepted(s: State, u: State, n: Ref, m: ResvMsg) returns (v: State)
    requires Inv(u) && n in s.psbs && Shaped(s) && u == WithReservation(s, n, m)
    requires m.hop.Some? && m.labelOut.Some? && (s.psbs[n].prevHop != 0 ==> !LP.Full(s.labels))
    ensures Inv(v) && v == ProgramForwarding(SetRsb(u, s.nextRef, Accepted(s, n, m)), s.nextRef, n)
    ensures v.psbTable == s.psbTable && v.psbs == u.psbs
    ensures s.nextRef in v.rsbs && v.rsbs[s.nextRef] == Accepted(s, n, m).(labelIn := v.rsbs[s.nextRef].labelIn)
    ensures s.psbs[n].prevHop != 0 ==> v.rsbs[s.nextRef].labelIn != 0
  {
    TouchRsb(u, s.nextRef, Accepted(s, n, m));
    var t := SetRsb(u, s.nextRef, Accepted(s, n, m));
    ProgramForwardingKeepsInv(t, s.nextRef, n);
    ProgrammedReservation(t, s.nextRef, n);
    v := ProgramForwarding(t, s.nextRef, n);
  }

  /** An accepted new reservation gets its forwarding; what is left is done after that. */
  lemma AcceptedUpToForwarding(s: State, n: Ref, m: ResvMsg) returns (v: State, labelChanged: bool)
    requires Inv(s) && Completes(s, n, m, true)
    ensures Inv(v) && v.psbTable == s.psbTable && v.psbs == s.psbs[n := s.psbs[n].(assocRsb := Some(s.nextRef))]
    ensures s.nextRef in v.rsbs && v.rsbs[s.nextRef] == Accepted(s, n, m).(labelIn := v.rsbs[s.nextRef].labelIn)
    ensures s.psbs[n].prevHop != 0 ==> v.rsbs[s.nextRef].labelIn != 0
    ensures v == ProgramForwarding(SetRsb(WithReservation(s, n, m), s.nextRef, Accepted(s, n, m)), s.nextRef, n)
    ensures HandleResv(s, m, true) == AfterForwarding(v, n, true, labelChanged)
  {
    var r, u := s.nextRef, WithReservation(s, n, m);
    NewReservation(s, n, m);
    v := ProgramAccepted(s, u, n, m);
    labelChanged := m.labelOut.value != u.rsbs[r].labelOut;
    AcceptNew(u, r, n, m, SetRsb(u, r, Accepted(s, n, m)), v);
  }

  lemma AcceptNew(u: State, r: Ref, n: Ref, m: ResvMsg, t: State, v: State)
    requires Shaped(u) && r in u.rsbs && u.rsbs[r].assocPsb == Some(n) && n in u.psbs
    requires m.hop.Some? && m.labelOut.Some?
    requires t == SetRsb(u, r, u.rsbs[r].(cleanupArmed := true, refreshArmed := !u.psbs[n].isIngress,
                   labelOut := m.labelOut.value, nextHop := m.hop.value.addr, nextIf := m.hop.value.ifindex))
    requires v == ProgramForwarding(t, r, n) && v.psbs == u.psbs && r in v.rsbs
    requires u.psbs[n].prevHop != 0 ==> v.rsbs[r].labelIn != 0
    ensures AcceptResv(u, r, true, m) == AfterForwarding(v, n, true, m.labelOut.value != u.rsbs[r].labelOut)
  {
  }

  lemma AfterForwardingCompletes(v: State, n: Ref, labelChanged: bool) returns (w: State)
    requires Inv(v) && n in v.psbs && v.psbs[n].mbbPending
    ensures Inv(w) && PathsStay(v, w) && w.rsbs == v.rsbs && w.psbs[n].assocRsb == v.psbs[n].assocRsb
    ensures w == if v.psbs[n].isBypass then AutoAssociateAll(v, v.psbs[n].protectedIf) else v
    ensures AfterForwarding(v, n, true, labelChanged) == MbbComplete(w, n)
  {
    w := v;
    if v.psbs[n].isBypass {
      AssociateInKeepsInv(v, Walk(v.psbTable), v.psbs[n].protectedIf);
      AssociationKeepsPaths(v, Walk(v.psbTable), v.psbs[n].protectedIf);
      w := AutoAssociateAll(v, v.psbs[n].protectedIf);
    }
  }

  lemma KeysUpToCompletion(s: State, n: Ref, v: State, w: State)
    requires n in s.psbs && v.psbTable == s.psbTable && v.psbs == s.psbs[n := s.psbs[n].(assocRsb := Some(s.nextRef))]
    requires PathsStay(v, w)
    ensures SameKeys(s, w) && w.psbs[n].mbbOldLspId == s.psbs[n].mbbOldLspId && w.psbs[n].isIngress == s.psbs[n].isIngress
    ensures forall p :: p in s.psbs && p != n ==> Evolves(s.psbs[p], w.psbs[p])
  {
    forall p | p in s.psbs
      ensures Evolves(v.psbs[p], w.psbs[p])
    {
      assert p in w.psbs;
    }
  }

  /** The state in which the completion starts. */
  lemma AcceptedUpToCompletion(s: State, n: Ref, m: ResvMsg) returns (w: State)
    requires Inv(s) && Completes(s, n, m, true)
    ensures Inv(w) && SameKeys(s, w) && w.psbs[n].mbbPending && w.psbs[n].assocRsb == Some(s.nextRef)
    ensures Replaced(w, n) == Replaced(s, n) && w.psbs[n].isIngress == s.psbs[n].isIngress
    ensures forall p :: p in s.psbs && p != n ==> Evolves(s.psbs[p], w.psbs[p])
    ensures s.nextRef in w.rsbs && w.rsbs[s.nextRef] == Accepted(s, n, m).(labelIn := w.rsbs[s.nextRef].labelIn)
    ensures HandleResv(s, m, true) == MbbComplete(w, n)
  {
    var v, changed := AcceptedUpToForwarding(s, n, m);
    w := AfterForwardingCompletes(v, n, changed);
    KeysUpToCompletion(s, n, v, w);
    ScanSeesKeysOnly(s, w, Walk(s.psbTable), s.psbs[n].key.tunnelId, s.psbs[n].mbbOldLspId);
  }

  /**
   * The step that completes a replacement tears down at most one path, the first one of
   * the table with the recorded ids, and never the replacement.  The replacement is no
   * longer pending and holds its new reservation, with the label and hop that arrived.
   */
  lemma CompletionStep(s: State, n: Ref, m: ResvMsg)
    requires Inv(s) && Completes(s, n, m, true)
    ensures var t, prior, r := HandleResv(s, m, true), Replaced(s, n), s.nextRef;
            && prior != Some(n)
            && t.psbs.Keys == (if prior.Some? then s.psbs.Keys - {prior.value} else s.psbs.Keys)
            && n in t.psbs && t.psbs[n].key == m.key && !t.psbs[n].mbbPending && t.psbs[n].assocRsb == Some(r)
            && t.psbs[n].isIngress == s.psbs[n].isIngress
            && (forall p :: p in t.psbs && p != n ==> Evolves(s.psbs[p], t.psbs[p]))
            && r in t.rsbs && t.rsbs[r].key == m.key && t.rsbs[r].assocPsb == Some(n)
            && t.rsbs[r].labelOut == m.labelOut.value && t.rsbs[r].nextHop == m.hop.value.addr
  {
    hide Inv, HandleResv, MbbComplete, FindById, WouldBeBlockaded;
    var w := AcceptedUpToCompletion(s, n, m);
    MbbCompleteEffect(w, n, s.nextRef);
  }

  // ---- every other step -------------------------------------------------

  lemma AfterForwardingKeepsPaths(s: State, p: Ref, isNew: bool, labelChanged: bool)
    requires Inv(s) && p in s.psbs && !(isNew && s.psbs[p].mbbPending)
    ensures PathsStay(s, AfterForwarding(s, p, isNew, labelChanged))
  {
    AssociationKeepsPaths(s, Walk(s.psbTable), s.psbs[p].protectedIf);
  }

  lemma RsbCleanupKeepsPaths(s: State, r: Ref, n: Ref)
    requires Inv(s) && r in s.rsbs && s.rsbs[r].assocPsb == Some(n)
    ensures PathsStay(s, RsbCleanup(s, r)) && RsbCleanup(s, r).psbs[n].assocRsb == None
  {
    hide RsbCleanup, Inv, Delete, LP.Release;
    RsbCleanupEffect(s, r);
  }

  lemma ReprogramKeepsPaths(s: State, r: Ref, n: Ref, isNew: bool, labelChanged: bool)
    requires Inv(s) && r in s.rsbs && s.rsbs[r].assocPsb == Some(n) && n in s.psbs
    requires isNew && s.psbs[n].mbbPending ==> s.psbs[n].prevHop != 0 && LP.Full(s.labels) && s.rsbs[r].labelIn == 0
    ensures PathsStay(s, Reprogram(s, r, n, isNew, labelChanged))
    ensures isNew && s.psbs[n].mbbPending ==> Reprogram(s, r, n, isNew, labelChanged).psbs[n].assocRsb == None
  {
    ProgramForwardingKeepsInv(s, r, n);
    GiveLabelKeepsInv(s, r);
    LP.AllocTakesLowest(s.labels);
    var u := ProgramForwarding(s, r, n);
    if u.psbs[n].prevHop != 0 && u.rsbs[r].labelIn == 0 {
      RsbCleanupKeepsPaths(u, r, n);
    } else {
      AfterForwardingKeepsPaths(u, n, isNew, labelChanged);
    }
  }

  /** Accepting a reservation keeps every path, unless it completes a replacement. */
  lemma AcceptKeepsPaths(s: State, r: Ref, n: Ref, isNew: bool, m: ResvMsg)
    requires Inv(s) && r in s.rsbs && s.rsbs[r].assocPsb == Some(n) && n in s.psbs && m.hop.Some? && m.labelOut.Some?
    requires isNew && s.psbs[n].mbbPending ==> s.psbs[n].prevHop != 0 && LP.Full(s.labels) && s.rsbs[r].labelIn == 0
    ensures PathsStay(s, AcceptResv(s, r, isNew, m))
    ensures isNew && s.psbs[n].mbbPending ==> AcceptResv(s, r, isNew, m).psbs[n].assocRsb == None
  {
    var v := s.rsbs[r];
    var w := v.(cleanupArmed := true, refreshArmed := !s.psbs[n].isIngress,
                labelOut := m.labelOut.value, nextHop := m.hop.value.addr, nextIf := m.hop.value.ifindex);
    TouchRsb(s, r, w);
    var t := SetRsb(s, r, w);
    if isNew || w.labelOut != v.labelOut || w.nextHop != v.nextHop {
      ReprogramKeepsPaths(t, r, n, isNew, w.labelOut != v.labelOut);
    }
  }

  lemma ThroughReservation(s: State, n: Ref, m: ResvMsg, t: State)
    requires Shaped(s) && n in s.psbs && s.psbs[n].assocRsb == None
    requires PathsStay(WithReservation(s, n, m), t)
    requires s.psbs[n].mbbPending ==> t.psbs[n].assocRsb == None
    ensures PathsStay(s, t)
  {
    var u := WithReservation(s, n, m);
    forall p | p in t.psbs
      ensures p in s.psbs && Evolves(s.psbs[p], t.psbs[p])
    {
      assert Evolves(u.psbs[p], t.psbs[p]);
    }
  }

  /** A RESV that creates a reservation and does not complete a replacement. */
  lemma NewReservationKeepsPaths(s: State, n: Ref, m: ResvMsg)
    requires Inv(s) && n in s.psbs && s.psbs[n].key == m.key && s.psbs[n].assocRsb == None
    requires m.hop.Some? && m.labelOut.Some? && !Completes(s, n, m, true)
    ensures PathsStay(s, HandleResv(s, m, true))
  {
    var r, u := s.nextRef, WithReservation(s, n, m);
    NewReservation(s, n, m);
    if Blockaded(u, r) {
      RsbDropKeepsPaths(u, r, n);
    } else {
      AcceptKeepsPaths(u, r, n, true, m);
    }
    ThroughReservation(s, n, m, HandleResv(s, m, true));
  }

  lemma RsbDropKeepsPaths(s: State, r: Ref, n: Ref)
    requires Shaped(s) && r in s.rsbs && s.rsbs[r].assocPsb == Some(n) && n in s.psbs
    ensures PathsStay(s, DeleteRsb(s, r)) && DeleteRsb(s, r).psbs[n].assocRsb == None
  {
  }

  lemma RefreshedReservationKeepsPaths(s: State, n: Ref, m: ResvMsg, rsbAlloc: bool)
    requires Inv(s) && n in s.psbs && s.psbs[n].key == m.key && s.psbs[n].assocRsb.Some?
    requires m.hop.Some? && m.labelOut.Some?
    ensures PathsStay(s, HandleResv(s, m, rsbAlloc))
  {
    hide AcceptResv, TablesOk, LabelsConserved, NoStaleForwarding, ReplacementsDiffer, FindPsb, FindRsb;
    FindPsbExact(s, m.key);
    RsbOfPsb(s, n);
    assert PsbLinked(s, n);
    var r := s.psbs[n].assocRsb.value;
    TouchRsb(s, r, AbsorbResv(s.rsbs[r], m));
    var t := SetRsb(s, r, AbsorbResv(s.rsbs[r], m));
    if !Blockaded(t, r) {
      AcceptKeepsPaths(t, r, n, false, m);
    }
  }

  /** A RESV removes a path only by completing a replacement. */
  lemma ResvKeepsPaths(s: State, m: ResvMsg, rsbAlloc: bool)
    requires Inv(s) && forall n :: !Completes(s, n, m, rsbAlloc)
    ensures PathsStay(s, HandleResv(s, m, rsbAlloc))
  {
    FindPsbExact(s, m.key);
    var psb := FindPsb(s, m.key);
    if psb.Some? && m.hop.Some? && m.labelOut.Some? {
      var n := psb.value;
      RsbOfPsb(s, n);
      if s.psbs[n].assocRsb.Some? {
        RefreshedReservationKeepsPaths(s, n, m, rsbAlloc);
      } else if rsbAlloc {
        NewReservationKeepsPaths(s, n, m);
      }
    }
  }

  // ---- PATH -------------------------------------------------------------

  /** No PATH arrives here as its egress for a path that starts here. */
  ghost predicate IngressIsNotEgress(s: State, e: Event) {
    e.PathArrives? && e.env.destLocal ==>
      forall p :: p in s.psbs && s.psbs[p].key == e.path.key ==> !s.psbs[p].isIngress
  }

  /** Paths that were there stay; a replacement gains no reservation. */
  ghost predicate PathsGrow(s: State, t: State) {
    s.psbs.Keys <= t.psbs.Keys && PathsEvolve(s, t)
  }

  lemma EgressKeepsPaths(s: State, p: Ref, rsbAlloc: bool)
    requires Inv(s) && p in s.psbs
    ensures var t := PathEgress(s, p, rsbAlloc);
            t.psbs.Keys == s.psbs.Keys && t.psbs[p] == s.psbs[p].(assocRsb := t.psbs[p].assocRsb)
            && forall q :: q in s.psbs && q != p ==> t.psbs[q] == s.psbs[q]
  {
    RsbOfPsb(s, p);
    if s.psbs[p].assocRsb.Some? {
      assert PsbLinked(s, p);
    }
  }

  lemma TransitKeepsPaths(s: State, p: Ref, isNew: bool, e: PathEnv)
    requires Shaped(s) && p in s.psbs
    ensures var t := PathTransit(s, p, isNew, e);
            (if isNew && !e.srcLocal && e.route < 0 then t.psbs == s.psbs - {p} else PathsStay(s, t))
  {
    if !e.srcLocal && e.route >= 0 {
      var t := SendPath(s, p, e.sendRoute);
      assert PathsStay(s, t);
    }
  }

  /** A replacement has no reservation, and starts here. */
  ghost predicate PendingUnreserved(s: State) {
    forall p :: p in s.psbs ==> FreshPath(s.psbs[p])
  }

  /** The path of a PATH message, found or created, with the message absorbed. */
  function WithPath(s: State, m: PathMsg): State
    requires Shaped(s) && m.hop.Some? && (FindPsb(s, m.key).Some? ==> FindPsb(s, m.key).value in s.psbs)
  {
    match FindPsb(s, m.key)
    case None =>
      var s1 := AddPsb(s, NewPsb(m.key).(refreshMs := DEFAULT_REFRESH_MS));
      SetPsb(s1, s.nextRef, AbsorbPath(s1.psbs[s.nextRef], m))
    case Some(p) => SetPsb(s, p, AbsorbPath(s.psbs[p], m))
  }

  lemma NewPathGrows(s: State, m: PathMsg)
    requires Inv(s) && m.hop.Some? && FindPsb(s, m.key) == None
    ensures Inv(WithPath(s, m)) && PathsGrow(s, WithPath(s, m))
  {
    var v := NewPsb(m.key).(refreshMs := DEFAULT_REFRESH_MS);
    AddPsbKeepsInv(s, v);
    TouchPsb(AddPsb(s, v), s.nextRef, AbsorbPath(v, m));
  }

  lemma AbsorbingGrows(s: State, m: PathMsg)
    requires Inv(s) && m.hop.Some? && (FindPsb(s, m.key).Some? ==> FindPsb(s, m.key).value in s.psbs)
    ensures Inv(WithPath(s, m)) && PathsGrow(s, WithPath(s, m))
  {
    match FindPsb(s, m.key)
    case None => NewPathGrows(s, m);
    case Some(p) => TouchPsb(s, p, AbsorbPath(s.psbs[p], m));
  }

  lemma PathKeepsPaths(s: State, m: PathMsg, e: PathEnv)
    requires Inv(s) && PendingUnreserved(s) && IngressIsNotEgress(s, PathArrives(m, e))
    ensures PathsGrow(s, HandlePath(s, m, e))
  {
    hide TablesOk, Mutual, LabelsConserved, NoStaleForwarding, ReplacementsDiffer, PathEgress, PathTransit;
    var found := FindPsb(s, m.key);
    FindPsbExact(s, m.key);
    if m.hop.Some? && m.hasSender && (m.labelRequest || found.Some?) && (found.Some? || e.psbAlloc) {
      var p := if found.None? then s.nextRef else found.value;
      var s2 := WithPath(s, m);
      AbsorbingGrows(s, m);
      if e.destLocal {
        EgressKeepsPaths(s2, p, e.rsbAlloc);
        assert !s2.psbs[p].mbbPending;
      } else {
        TransitKeepsPaths(s2, p, found.None?, e);
      }
      GrowthChains(s, p, s2, HandlePath(s, m, e));
    }
  }

  lemma GrowthChains(s: State, p: Ref, t: State, u: State)
    requires PathsGrow(s, t) && p in t.psbs
    requires u.psbs.Keys == t.psbs.Keys || (p !in s.psbs && u.psbs == t.psbs - {p})
    requires forall q :: q in u.psbs && q != p ==> Evolves(t.psbs[q], u.psbs[q])
    requires p in u.psbs ==> Evolves(t.psbs[p], u.psbs[p])
    ensures PathsGrow(s, u)
  {
    forall q | q in u.psbs
      ensures if q in s.psbs then Evolves(s.psbs[q], u.psbs[q]) else FreshPath(u.psbs[q])
    {
      assert Evolves(t.psbs[q], u.psbs[q]);
    }
  }

  // ---- every event ------------------------------------------------------

  /** The event keeps every path but those it is known to remove; a path that stays remains the same path. */
  ghost predicate StepsOnPaths(s: State, e: Event, t: State) {
    && (forall p :: p in s.psbs ==> (p in t.psbs <==> !Removes(s, e, p)))
    && (forall p :: p in s.psbs && p in t.psbs ==>
          t.psbs[p].key == s.psbs[p].key && t.psbs[p].isIngress == s.psbs[p].isIngress)
    && PendingUnreserved(t)
  }

  lemma GrowthSteps(s: State, e: Event, t: State)
    requires PendingUnreserved(s) && PathsGrow(s, t) && forall p :: p in s.psbs ==> !Removes(s, e, p)
    ensures StepsOnPaths(s, e, t)
  {
    forall p | p in t.psbs
      ensures FreshPath(t.psbs[p])
    {
      if p in s.psbs {
        assert FreshPath(s.psbs[p]);
        assert Evolves(s.psbs[p], t.psbs[p]);
      }
    }
    forall p | p in s.psbs && p in t.psbs
      ensures t.psbs[p].key == s.psbs[p].key && t.psbs[p].isIngress == s.psbs[p].isIngress
    {
      assert Evolves(s.psbs[p], t.psbs[p]);
    }
  }

  /** Cleaning up one path, which is what the event is known to remove. */
  lemma CleanupSteps(s: State, e: Event, p: Ref, t: State)
    requires Inv(s) && PendingUnreserved(s) && p in s.psbs && t.psbs == PsbCleanup(s, p).psbs
    requires forall q :: q in s.psbs ==> (Removes(s, e, q) <==> q == p)
    ensures StepsOnPaths(s, e, t)
  {
    PsbCleanupKeepsInv(s, p);
    forall q | q in t.psbs
      ensures FreshPath(t.psbs[q])
    {
      assert FreshPath(s.psbs[q]);
    }
  }

  lemma OnlyOneCompletes(s: State, n: Ref, m: ResvMsg)
    requires Inv(s) && Completes(s, n, m, true)
    ensures forall q :: Completes(s, q, m, true) <==> q == n
  {
    BlocksArePaired(s);
  }

  lemma CompletionRemoves(s: State, n: Ref, m: ResvMsg, p: Ref)
    requires Inv(s) && Completes(s, n, m, true) && p in s.psbs
    ensures Removes(s, ResvArrives(m, true), p) <==> Replaced(s, n) == Some(p)
  {
    OnlyOneCompletes(s, n, m);
  }

  lemma CompletedPathsSound(s: State, n: Ref, t: State)
    requires PendingUnreserved(s) && n in s.psbs && n in t.psbs && t.psbs.Keys <= s.psbs.Keys
    requires t.psbs[n].key == s.psbs[n].key && !t.psbs[n].mbbPending && t.psbs[n].isIngress == s.psbs[n].isIngress
    requires forall p :: p in t.psbs && p != n ==> Evolves(s.psbs[p], t.psbs[p])
    ensures PendingUnreserved(t)
    ensures forall p :: p in t.psbs ==> t.psbs[p].key == s.psbs[p].key && t.psbs[p].isIngress == s.psbs[p].isIngress
  {
    forall p | p in t.psbs
      ensures FreshPath(t.psbs[p]) && t.psbs[p].key == s.psbs[p].key && t.psbs[p].isIngress == s.psbs[p].isIngress
    {
      assert FreshPath(s.psbs[p]);
      if p != n {
        assert Evolves(s.psbs[p], t.psbs[p]);
      }
    }
  }

  lemma CompletionSteps(s: State, n: Ref, m: ResvMsg)
    requires Inv(s) && PendingUnreserved(s) && Completes(s, n, m, true)
    ensures StepsOnPaths(s, ResvArrives(m, true), HandleResv(s, m, true))
  {
    CompletionStep(s, n, m);
    CompletedPathsSound(s, n, HandleResv(s, m, true));
    forall p | p in s.psbs
      ensures p in HandleResv(s, m, true).psbs <==> !Removes(s, ResvArrives(m, true), p)
    {
      CompletionRemoves(s, n, m, p);
    }
  }

  lemma NewPsbGrows(s: State, v: Psb, route: int)
    requires Inv(s) && v.assocRsb == None && (v.mbbPending ==> v.isIngress)
    ensures PathsGrow(s, SendPath(AddPsb(s, v), s.nextRef, route))
  {
    assert s.nextRef !in s.psbs;
  }

  lemma InitiationGrows(s: State, src: Addr, dest: Addr, tunnelId: nat, frr: bool, alloc: bool, route: int)
    requires Inv(s)
    ensures PathsGrow(s, InitiatePath(s, src, dest, tunnelId, frr, alloc, route))
  {
    var k, t := IngressKey(s, src, dest, tunnelId), BumpLspId(s);
    SideFieldsKeepInv(s, t);
    if FindPsb(t, k).Some? {
      assert PathsGrow(s, t);
    } else {
      NewPsbGrows(t, NewPsb(k).(refreshMs := DEFAULT_REFRESH_MS, isIngress := true,
                       refreshArmed := true, frrMode := if frr then Facility else NoFrr), route);
    }
  }

  lemma BypassInitiationGrows(s: State, src: Addr, dest: Addr, tunnelId: nat, i: nat, alloc: bool, route: int)
    requires Inv(s)
    ensures PathsGrow(s, InitiateBypass(s, src, dest, tunnelId, i, alloc, route))
  {
    var t := BumpLspId(s);
    SideFieldsKeepInv(s, t);
    NewPsbGrows(t, NewPsb(IngressKey(s, src, dest, tunnelId)).(refreshMs := DEFAULT_REFRESH_MS, isIngress := true,
                     refreshArmed := true, isBypass := true, protectedIf := i), route);
  }

  lemma MbbStartGrows(s: State, tunnelId: nat, oldLspId: nat, newLspId: nat, alloc: bool, route: int)
    requires Inv(s)
    ensures PathsGrow(s, MbbStart(s, tunnelId, oldLspId, newLspId, alloc, route))
  {
    var prior := FindById(s, tunnelId, oldLspId);
    if prior.Some? && prior.value in s.psbs {
      var o := s.psbs[prior.value];
      NewPsbGrows(s, NewPsb(o.key.(lspId := newLspId)).(refreshMs := o.refreshMs, isIngress := true, frrMode := o.frrMode,
                      refreshArmed := true, mbbPending := true, mbbOldLspId := oldLspId), route);
    }
  }

  lemma RemovalSteps(s: State, e: Event)
    requires Inv(s) && PendingUnreserved(s)
    requires e.PathTearArrives? || e.PsbExpires? || e.TeardownRequested?
    ensures StepsOnPaths(s, e, Step(s, e))
  {
    var p := match e
      case PathTearArrives(k) => FindPsb(s, k)
      case PsbExpires(q) => if q in s.psbs && s.psbs[q].cleanupArmed then Some(q) else None
      case TeardownRequested(tunnelId, lspId) => FindById(s, tunnelId, lspId);
    if e.PathTearArrives? {
      FindPsbExact(s, e.k);
    }
    if e.TeardownRequested? {
      FirstWithIdsHas(s, Walk(s.psbTable), e.tunnelId, e.lspId);
    }
    if p.Some? {
      CleanupSteps(s, e, p.value, Step(s, e));
    } else {
      GrowthSteps(s, e, Step(s, e));
    }
  }

  lemma ResvSteps(s: State, m: ResvMsg, rsbAlloc: bool)
    requires Inv(s) && PendingUnreserved(s)
    ensures StepsOnPaths(s, ResvArrives(m, rsbAlloc), HandleResv(s, m, rsbAlloc))
  {
    if n :| Completes(s, n, m, rsbAlloc) {
      CompletionSteps(s, n, m);
    } else {
      ResvKeepsPaths(s, m, rsbAlloc);
      GrowthSteps(s, ResvArrives(m, rsbAlloc), HandleResv(s, m, rsbAlloc));
    }
  }

  lemma RsbRemovalKeepsPaths(s: State, r: Ref)
    requires Inv(s) && r in s.rsbs
    ensures PathsStay(s, RsbCleanup(s, r))
  {
    RsbCleanupEffect(s, r);
    RsbCleanupKeepsPaths(s, r, s.rsbs[r].assocPsb.value);
  }

  lemma ReservationEventsKeepPaths(s: State, e: Event)
    requires Inv(s) && PendingUnreserved(s)
    requires e.ResvTearArrives? || e.ResvErrArrives? || e.BlockadeEnds? || e.PsbRefreshes? || e.RsbRefreshes? || e.RsbExpires?
    ensures PathsGrow(s, Step(s, e))
  {
    hide Inv, RsbCleanup, HandlePath, HandleResv, PsbCleanup, Trigger, Revert, MbbStart, InitiatePath, InitiateBypass;
    if e.ResvTearArrives? {
      var r := FindRsb(s, e.k);
      if r.Some? && r.value in s.rsbs {
        RsbRemovalKeepsPaths(s, r.value);
      }
    } else if e.RsbExpires? && e.r in s.rsbs {
      RsbRemovalKeepsPaths(s, e.r);
    } else if e.RsbRefreshes? && e.r in s.rsbs {
      GiveLabelKeepsInv(s, e.r);
    }
  }

  lemma OperatorEventsKeepPaths(s: State, e: Event)
    requires Inv(s) && !IsMessage(e) && !IsTimer(e) && !e.TeardownRequested?
    ensures PathsGrow(s, Step(s, e))
  {
    match e {
      case LinkFails(i, routes) => TriggerKeepsPaths(s, Walk(s.psbTable), i, routes);
      case LinkRecovers(i, routes) => RevertKeepsPaths(s, Walk(s.psbTable), i, routes);
      case PathRequested(src, dest, tunnelId, frr, alloc, route) =>
        InitiationGrows(s, src, dest, tunnelId, frr, alloc, route);
      case BypassRequested(src, dest, tunnelId, i, alloc, route) =>
        BypassInitiationGrows(s, src, dest, tunnelId, i, alloc, route);
      case MbbRequested(tunnelId, old', new', alloc, route) => MbbStartGrows(s, tunnelId, old', new', alloc, route);
      case ProtectionRequested(_, _, _, _) =>
    }
  }

  /**
   * Each event removes exactly the paths it is known to remove: a PathTear its own path,
   * an expiry and a teardown theirs, a RESV only the path that a replacement replaces.
   */
  lemma EveryStepOnPaths(s: State, e: Event)
    requires Inv(s) && PendingUnreserved(s) && IngressIsNotEgress(s, e)
    ensures StepsOnPaths(s, e, Step(s, e))
  {
    if e.ResvArrives? {
      ResvSteps(s, e.resv, e.rsbAlloc);
    } else if e.PathTearArrives? || e.PsbExpires? || e.TeardownRequested? {
      RemovalSteps(s, e);
    } else {
      if e.PathArrives? {
        PathKeepsPaths(s, e.path, e.env);
      } else if IsMessage(e) || IsTimer(e) {
        ReservationEventsKeepPaths(s, e);
      } else {
        OperatorEventsKeepPaths(s, e);
      }
      GrowthSteps(s, e, Step(s, e));
    }
  }

  // ---- runs -------------------------------------------------------------

  /** At every step of the run, no path that starts here is taken to end here. */
  ghost predicate IngressNeverEgress(s: State, run: seq<Event>)
    requires Shaped(s)
    decreases |run|
  {
    run != [] ==> IngressIsNotEgress(s, run[0]) && IngressNeverEgress(Step(s, run[0]), run[1..])
  }

  /** In every run, a replacement that waits has no reservation. */
  lemma PendingHasNoReservation(minLabel: nat, maxLabel: nat, run: seq<Event>)
    requires LP.Valid(LP.Fresh(minLabel, maxLabel)) && IngressNeverEgress(Initial(minLabel, maxLabel), run)
    ensures var s := After(Initial(minLabel, maxLabel), run);
            forall p :: p in s.psbs && s.psbs[p].mbbPending ==> s.psbs[p].assocRsb == None && s.psbs[p].isIngress
  {
    InitialInv(minLabel, maxLabel);
    PendingOverRuns(Initial(minLabel, maxLabel), run);
    var s := After(Initial(minLabel, maxLabel), run);
    assert forall p :: p in s.psbs ==> FreshPath(s.psbs[p]);
  }

  lemma {:induction false} PendingOverRuns(s: State, run: seq<Event>)
    requires Inv(s) && PendingUnreserved(s) && IngressNeverEgress(s, run)
    ensures PendingUnreserved(After(s, run))
    decreases |run|
  {
    if run != [] {
      StepKeepsInv(s, run[0]);
      EveryStepOnPaths(s, run[0]);
      PendingOverRuns(Step(s, run[0]), run[1..]);
    }
  }
}
