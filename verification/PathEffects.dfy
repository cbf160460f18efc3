// What a PATH leaves behind: the record of its sender, where it is sent on, the bypass
// it is given, the reservation at the egress; and that a repeated PATH changes nothing.
module PathEffects {
  import opened Common
  import opened StateDb
  import opened RsvpState
  import opened RsvpSteps
  import opened RsvpInvariant
  import opened RsvpRuns
  import opened MbbSafety
  import opened BypassUp
  import LP = LabelPool

  /** A PATH that is accepted: complete, with memory for it, and with a way on if it is new here. */
  ghost predicate Accepts(s: State, m: PathMsg, e: PathEnv)
    requires Shaped(s)
  {
    var isNew := FindPsb(s, m.key).None?;
    && m.hop.Some? && m.hasSender
    && (isNew ==> m.labelRequest && e.psbAlloc && (e.destLocal || e.srcLocal || e.route >= 0))
  }

  function PathOf(s: State, m: PathMsg): Ref
    requires Shaped(s)
  {
    if FindPsb(s, m.key).Some? then FindPsb(s, m.key).value else s.nextRef
  }

  /** The path holds what the PATH says. */
  ghost predicate Recorded(t: State, p: Ref, m: PathMsg) {
    && p in t.psbs && t.psbs[p].key == m.key && m.hop.Some?
    && t.psbs[p].prevHop == m.hop.value.addr && t.psbs[p].ifindexIn == m.hop.value.ifindex
    && t.psbs[p].cleanupArmed && t.psbs[p].refreshArmed
    && (m.refresh.Some? ==> t.psbs[p].refreshMs == m.refresh.value)
    && (!t.psbs[p].isBypass && m.frr == WantFacility ==> t.psbs[p].frrMode == Facility)
    && (!t.psbs[p].isBypass && m.frr == WantOneToOne ==> t.psbs[p].frrMode == OneToOne)
  }

  lemma AbsorbedPath(s: State, m: PathMsg, e: PathEnv)
    requires Inv(s) && Accepts(s, m, e)
    ensures FindPsb(s, m.key).Some? ==> FindPsb(s, m.key).value in s.psbs
    ensures var u, p := WithPath(s, m), PathOf(s, m);
            && Inv(u) && Recorded(u, p, m) && u == s.(psbs := u.psbs, psbTable := u.psbTable, nextRef := u.nextRef)
            && (forall q :: q in s.psbs && q != p ==> q in u.psbs && u.psbs[q] == s.psbs[q])
            && HandlePath(s, m, e) ==
               if e.destLocal then PathEgress(u, p, e.rsbAlloc) else PathTransit(u, p, FindPsb(s, m.key).None?, e)
  {
    hide Inv, HandlePath, FindPsb;
    FindPsbExact(s, m.key);
    AbsorbingGrows(s, m);
    HandledAfterRecording(s, m, e);
  }

  lemma HandledAfterRecording(s: State, m: PathMsg, e: PathEnv)
    requires Shaped(s) && Accepts(s, m, e) && (FindPsb(s, m.key).Some? ==> FindPsb(s, m.key).value in s.psbs)
    ensures PathOf(s, m) in WithPath(s, m).psbs
    ensures var u, p := WithPath(s, m), PathOf(s, m);
            HandlePath(s, m, e) == if e.destLocal then PathEgress(u, p, e.rsbAlloc) else PathTransit(u, p, FindPsb(s, m.key).None?, e)
  {
    hide PathEgress, PathTransit, FindPsb;
  }

  /** The path as it was before a PATH: the one with the key, or a blank one with the default period. */
  ghost function PathBefore(s: State, m: PathMsg): Psb
    requires Shaped(s)
  {
    if FindPsb(s, m.key).Some? && FindPsb(s, m.key).value in s.psbs then s.psbs[FindPsb(s, m.key).value]
    else Psb(m.key, 0, 0, 0, 30000, false, NoFrr, false, false, 0, None, 0, false, 0, None, false, false)
  }

  /** All that a PATH leaves as it was, apart from what it records and where the path is sent on. */
  ghost predicate KeepsOwn(v: Psb, w: Psb) {
    && w.key == v.key && w.isIngress == v.isIngress && w.isBypass == v.isBypass && w.frrActive == v.frrActive
    && w.protectedIf == v.protectedIf && w.mbbPending == v.mbbPending && w.mbbOldLspId == v.mbbOldLspId
  }

  /** What an accepted PATH makes of the path it is for. */
  ghost predicate Records(v: Psb, w: Psb, m: PathMsg)
    requires m.hop.Some?
  {
    && KeepsOwn(v, w)
    && w.prevHop == m.hop.value.addr && w.ifindexIn == m.hop.value.ifindex && w.cleanupArmed && w.refreshArmed
    && w.refreshMs == (if m.refresh.Some? then m.refresh.value else v.refreshMs)
    && w.frrMode == (if v.isBypass then v.frrMode
                     else if m.frr == WantFacility then Facility
                     else if m.frr == WantOneToOne then OneToOne else v.frrMode)
  }

  lemma AbsorbedRecords(s: State, m: PathMsg, e: PathEnv)
    requires Inv(s) && Accepts(s, m, e)
    ensures FindPsb(s, m.key).Some? ==> FindPsb(s, m.key).value in s.psbs
    ensures var u, p, v := WithPath(s, m), PathOf(s, m), PathBefore(s, m);
            && p in u.psbs && Records(v, u.psbs[p], m)
            && u.psbs[p].ifindexOut == v.ifindexOut && u.psbs[p].assocRsb == v.assocRsb
            && u.psbs[p].bypassPsb == v.bypassPsb && u.psbs[p].bypassTunnelId == v.bypassTunnelId
  {
    FindPsbExact(s, m.key);
  }

  lemma FollowUpKeepsRecord(u: State, p: Ref, v: Psb, m: PathMsg, e: PathEnv, isNew: bool)
    requires Inv(u) && p in u.psbs && m.hop.Some? && Records(v, u.psbs[p], m)
    requires isNew ==> e.destLocal || e.srcLocal || e.route >= 0
    ensures var t := if e.destLocal then PathEgress(u, p, e.rsbAlloc) else PathTransit(u, p, isNew, e);
            p in t.psbs && Records(v, t.psbs[p], m)
  {
    hide Inv, PathEgress, PathTransit;
    if e.destLocal {
      EgressKeepsPaths(u, p, e.rsbAlloc);
    } else if e.srcLocal || e.route < 0 {
      StoppedHere(u, p, isNew, e);
    } else {
      SentOn(u, p, isNew, e);
    }
  }

  lemma StoppedHere(u: State, p: Ref, isNew: bool, e: PathEnv)
    requires Shaped(u) && p in u.psbs && (e.srcLocal || e.route < 0) && (isNew ==> e.srcLocal)
    ensures PathTransit(u, p, isNew, e) == u
  {
  }

  /**
   * An accepted PATH records the sender's hop, its period, or the one before or the default when it
   * names none, and the protection it asks for; no other path and no forwarding entry changes.
   */
  lemma PathRecordsSender(s: State, m: PathMsg, e: PathEnv)
    requires Inv(s) && Accepts(s, m, e)
    ensures var t, p := Step(s, PathArrives(m, e)), PathOf(s, m);
            && FindPsb(t, m.key) == Some(p) && p in t.psbs && Records(PathBefore(s, m), t.psbs[p], m)
            && (forall q :: q in s.psbs && q != p ==> q in t.psbs && t.psbs[q] == s.psbs[q])
            && t.fwd == s.fwd && t.bsbs == s.bsbs
  {
    PathIsRecorded(s, m, e);
    AbsorbedPath(s, m, e);
    AbsorbedRecords(s, m, e);
    FollowUpKeepsRecord(WithPath(s, m), PathOf(s, m), PathBefore(s, m), m, e, FindPsb(s, m.key).None?);
    PathKeepsBlockades(s, m, e);
  }

  lemma PathKeepsBlockades(s: State, m: PathMsg, e: PathEnv)
    requires Shaped(s)
    ensures HandlePath(s, m, e).bsbs == s.bsbs
  {
    hide FirstReady, Walk, FindPsb, FindRsb;
  }

  lemma PathIsRecorded(s: State, m: PathMsg, e: PathEnv)
    requires Inv(s) && Accepts(s, m, e)
    ensures var t, p := HandlePath(s, m, e), PathOf(s, m);
            && FindPsb(t, m.key) == Some(p) && Recorded(t, p, m)
            && (forall q :: q in s.psbs && q != p ==> q in t.psbs && t.psbs[q] == s.psbs[q])
            && t.fwd == s.fwd
  {
    AbsorbedPath(s, m, e);
    var u, p := WithPath(s, m), PathOf(s, m);
    HandlePathKeepsInv(s, m, e);
    FollowUp(u, p, m, e, FindPsb(s, m.key).None?);
    FindPsbExact(HandlePath(s, m, e), m.key);
  }

  /** A PATH that is not accepted leaves paths, reservations, labels, entries and blockades as they were. */
  lemma RefusedPathLeavesNothing(s: State, m: PathMsg, e: PathEnv)
    requires Inv(s) && !Accepts(s, m, e)
    ensures var t := Step(s, PathArrives(m, e));
            t.psbs == s.psbs && t.rsbs == s.rsbs && t.labels == s.labels && t.fwd == s.fwd && t.bsbs == s.bsbs
  {
    FindPsbExact(s, m.key);
    if m.hop.Some? && m.hasSender && m.labelRequest && e.psbAlloc {
      var u, n := WithPath(s, m), s.nextRef;
      assert n !in s.psbs;
      assert u.psbs - {n} == s.psbs;
    }
  }

  /** Where a transit PATH is sent on, and which bypass that gives it. */
  lemma TransitForwards(s: State, m: PathMsg, e: PathEnv)
    requires Inv(s) && Accepts(s, m, e) && !e.destLocal && !e.srcLocal && e.route >= 0
    ensures var t, p, v := Step(s, PathArrives(m, e)), PathOf(s, m), PathBefore(s, m);
            && p in t.psbs && t.rsbs == s.rsbs && t.labels == s.labels && t.psbs[p].assocRsb == v.assocRsb
            && var w := t.psbs[p];
               && w.ifindexOut == (if e.sendRoute >= 0 then e.sendRoute else v.ifindexOut)
               && if w.frrMode == Facility && v.bypassPsb == None && !v.isBypass && w.ifindexOut != 0
                     && exists c :: Carries(t, c, w.ifindexOut)
                  then && w.bypassPsb.Some? && Carries(t, w.bypassPsb.value, w.ifindexOut)
                       && w.bypassTunnelId == t.psbs[w.bypassPsb.value].key.tunnelId
                  else w.bypassPsb == v.bypassPsb && w.bypassTunnelId == v.bypassTunnelId
  {
    hide Inv, FirstReady, Walk, FindPsb;
    AbsorbedPath(s, m, e);
    AbsorbedRecords(s, m, e);
    SentOn(WithPath(s, m), PathOf(s, m), FindPsb(s, m.key).None?, e);
  }

  lemma SentOn(u: State, p: Ref, isNew: bool, e: PathEnv)
    requires Inv(u) && p in u.psbs && !e.srcLocal && e.route >= 0
    ensures var t, v := PathTransit(u, p, isNew, e), u.psbs[p];
            && p in t.psbs && t == u.(psbs := u.psbs[p := t.psbs[p]])
            && var w := t.psbs[p];
               && w == v.(ifindexOut := w.ifindexOut, bypassPsb := w.bypassPsb, bypassTunnelId := w.bypassTunnelId)
               && w.ifindexOut == (if e.sendRoute >= 0 then e.sendRoute else v.ifindexOut)
               && Associated(t, v, w)
  {
    hide Inv, AutoAssociate, PathTransit, Carries;
    var t1 := SendPath(u, p, e.sendRoute);
    assert u.psbs[p := u.psbs[p]] == u.psbs;
    SendPathKeepsInv(u, p, e.sendRoute);
    TransitAssociates(u, p, isNew, e);
    AssociationIsExact(t1, p);
    AssociatedAfter(t1, p);
  }

  /** A path that is sent on has its bypass as before, or one that can carry its traffic if it waits for one. */
  ghost predicate Associated(t: State, v: Psb, w: Psb) {
    if v.frrMode == Facility && v.bypassPsb == None && !v.isBypass && w.ifindexOut != 0
       && exists c :: Carries(t, c, w.ifindexOut)
    then && w.bypassPsb.Some? && Carries(t, w.bypassPsb.value, w.ifindexOut)
         && w.bypassTunnelId == t.psbs[w.bypassPsb.value].key.tunnelId
    else w.bypassPsb == v.bypassPsb && w.bypassTunnelId == v.bypassTunnelId
  }

  lemma AssociatedAfter(t1: State, p: Ref)
    requires Inv(t1) && p in t1.psbs
    ensures p in AutoAssociate(t1, p).psbs && Associated(AutoAssociate(t1, p), t1.psbs[p], AutoAssociate(t1, p).psbs[p])
  {
    hide Inv, AutoAssociate, Carries, Before, Walk;
    AssociationIsExact(t1, p);
    CarriesTheSame(t1, AutoAssociate(t1, p), p);
  }

  lemma TransitAssociates(u: State, p: Ref, isNew: bool, e: PathEnv)
    requires Shaped(u) && p in u.psbs && !e.srcLocal && e.route >= 0
    ensures PathTransit(u, p, isNew, e) == AutoAssociate(SendPath(u, p, e.sendRoute), p)
  {
    hide FirstReady, Walk;
  }

  lemma CarriesTheSame(s: State, t: State, p: Ref)
    requires p in s.psbs && p in t.psbs && !(s.psbs[p].isBypass && s.psbs[p] != t.psbs[p])
    requires t == s.(psbs := s.psbs[p := t.psbs[p]]) && t.psbs[p].key == s.psbs[p].key && t.psbs[p].isBypass == s.psbs[p].isBypass
    ensures forall c, i :: Carries(t, c, i) <==> Carries(s, c, i)
  {
    assert forall k :: Labelled(t, k) <==> Labelled(s, k);
  }

  /** Our own PATH, or one for which there is no route, is recorded but not sent on. */
  lemma StoppedPathStays(s: State, m: PathMsg, e: PathEnv)
    requires Inv(s) && Accepts(s, m, e) && !e.destLocal && (e.srcLocal || e.route < 0)
    ensures var t, p, v := Step(s, PathArrives(m, e)), PathOf(s, m), PathBefore(s, m);
            && p in t.psbs && t.rsbs == s.rsbs && t.labels == s.labels
            && t.psbs[p].ifindexOut == v.ifindexOut && t.psbs[p].assocRsb == v.assocRsb
            && t.psbs[p].bypassPsb == v.bypassPsb && t.psbs[p].bypassTunnelId == v.bypassTunnelId
  {
    AbsorbedPath(s, m, e);
    AbsorbedRecords(s, m, e);
  }

  /** What follows the absorption of a PATH keeps the record, every other path and the entries. */
  ghost predicate Follows(u: State, p: Ref, m: PathMsg, t: State) {
    && Recorded(t, p, m) && t.fwd == u.fwd
    && forall q :: q in u.psbs && q != p ==> q in t.psbs && t.psbs[q] == u.psbs[q]
  }

  lemma EgressFollows(u: State, p: Ref, m: PathMsg, rsbAlloc: bool)
    requires Inv(u) && Recorded(u, p, m)
    ensures Follows(u, p, m, PathEgress(u, p, rsbAlloc))
  {
    EgressKeepsPaths(u, p, rsbAlloc);
    RsbOfPsb(u, p);
  }

  lemma TransitFollows(u: State, p: Ref, m: PathMsg, isNew: bool, e: PathEnv)
    requires Shaped(u) && Recorded(u, p, m) && (isNew ==> e.srcLocal || e.route >= 0)
    ensures Follows(u, p, m, PathTransit(u, p, isNew, e))
  {
    if !e.srcLocal && e.route >= 0 {
      var t := SendPath(u, p, e.sendRoute);
      assert Follows(u, p, m, t);
    }
  }

  lemma FollowUp(u: State, p: Ref, m: PathMsg, e: PathEnv, isNew: bool)
    requires Inv(u) && Recorded(u, p, m) && (isNew ==> e.destLocal || e.srcLocal || e.route >= 0)
    ensures Follows(u, p, m, if e.destLocal then PathEgress(u, p, e.rsbAlloc) else PathTransit(u, p, isNew, e))
  {
    if e.destLocal {
      EgressFollows(u, p, m, e.rsbAlloc);
    } else {
      TransitFollows(u, p, m, isNew, e);
    }
  }

  /** The egress answers the first PATH with a reservation that has the lowest free label, if there is one. */
  lemma EgressReserves(s: State, m: PathMsg, e: PathEnv)
    requires Inv(s) && Accepts(s, m, e) && e.destLocal && e.rsbAlloc && FindRsb(s, m.key) == None
    ensures PathOf(s, m) in HandlePath(s, m, e).psbs
    ensures var t, r := HandlePath(s, m, e), HandlePath(s, m, e).psbs[PathOf(s, m)].assocRsb;
            && r.Some? && r.value in t.rsbs && r.value !in s.rsbs
            && t.rsbs[r.value] == Rsb(m.key, 0, 0, t.rsbs[r.value].labelIn, 0, Flowspec(0.0, 0.0), 0,
                                      t.psbs[PathOf(s, m)].refreshMs, Some(PathOf(s, m)), false, true)
            && (forall q :: q in s.rsbs ==> q in t.rsbs && t.rsbs[q] == s.rsbs[q])
            && (if LP.Full(s.labels) then t.rsbs[r.value].labelIn == 0 else LP.IsLowestFree(s.labels, t.rsbs[r.value].labelIn))
  {
    hide Inv, HandlePath, GiveLabel, FindRsb;
    AbsorbedPath(s, m, e);
    var u, p := WithPath(s, m), PathOf(s, m);
    SameReservations(s, u, m.key);
    RsbOfPsb(u, p);
    NextIsNew(u);
    var w := NewRsb(m.key).(refreshMs := u.psbs[p].refreshMs, refreshArmed := true);
    AddRsbKeepsInv(u, p, w);
    GiveLabelKeepsInv(AddRsbFor(u, p, w), u.nextRef);
  }

  lemma NextIsNew(u: State)
    requires Inv(u)
    ensures u.nextRef !in u.rsbs
  {
  }

  /** The reservation that the egress already has follows the sender's period, and nothing else of it changes. */
  lemma EgressFollowsPeriod(s: State, m: PathMsg, e: PathEnv, r: Ref)
    requires Inv(s) && Accepts(s, m, e) && e.destLocal && r in s.rsbs && s.rsbs[r].key == m.key
    ensures var t, p := Step(s, PathArrives(m, e)), PathOf(s, m);
            && p in t.psbs && t.labels == s.labels && t.psbs[p].assocRsb == Some(r)
            && t.rsbs == s.rsbs[r := s.rsbs[r].(refreshMs := t.psbs[p].refreshMs)]
  {
    hide TablesOk, LabelsConserved, NoStaleForwarding, FindRsb;
    AbsorbedPath(s, m, e);
    var u, p := WithPath(s, m), PathOf(s, m);
    SameReservations(s, u, m.key);
    FindRsbExact(s, m.key);
    assert RsbLinked(u, r);
    RsbOfPsb(u, p);
    FindPsbExact(u, m.key);
  }

  lemma SameReservations(s: State, u: State, k: Key)
    requires Shaped(s) && Shaped(u) && u.rsbs == s.rsbs && u.rsbTable == s.rsbTable
    ensures FindRsb(u, k) == FindRsb(s, k)
  {
    assert RsbKeys(u) == RsbKeys(s);
  }

  // ---- a repeated PATH --------------------------------------------------

  /** The egress has nothing left to do: its reservation follows the period, or there was no memory for one. */
  ghost predicate EgressSettled(t: State, p: Ref, rsbAlloc: bool) {
    && Inv(t) && p in t.psbs
    && match t.psbs[p].assocRsb
       case None => !rsbAlloc
       case Some(r) => r in t.rsbs && t.rsbs[r].refreshMs == t.psbs[p].refreshMs
  }

  lemma SettledEgressIsIdle(t: State, p: Ref, rsbAlloc: bool)
    requires EgressSettled(t, p, rsbAlloc)
    ensures PathEgress(t, p, rsbAlloc) == t
  {
    RsbOfPsb(t, p);
    match t.psbs[p].assocRsb
    case None =>
    case Some(r) => assert t.rsbs[r := t.rsbs[r].(refreshMs := t.psbs[p].refreshMs)] == t.rsbs;
  }

  lemma EgressSettles(u: State, p: Ref, rsbAlloc: bool)
    requires Inv(u) && p in u.psbs
    ensures EgressSettled(PathEgress(u, p, rsbAlloc), p, rsbAlloc)
  {
    PathEgressKeepsInv(u, p, rsbAlloc);
    RsbOfPsb(u, p);
    if u.psbs[p].assocRsb.Some? {
      assert PsbLinked(u, p);
    }
  }

  lemma TransitTwice(u: State, p: Ref, isNew: bool, e: PathEnv)
    requires Shaped(u) && p in u.psbs && (isNew ==> e.srcLocal || e.route >= 0)
    ensures var t := PathTransit(u, p, isNew, e); p in t.psbs && PathTransit(t, p, false, e) == t
  {
    hide FirstReady, Walk;
    if !e.srcLocal && e.route >= 0 {
      var v := SendPath(u, p, e.sendRoute);
      var t := PathTransit(u, p, isNew, e);
      assert t.psbs[p := t.psbs[p]] == t.psbs;
      assert SendPath(t, p, e.sendRoute) == t;
    }
  }

  lemma RecordedIsAbsorbed(t: State, p: Ref, m: PathMsg)
    requires Shaped(t) && Recorded(t, p, m) && FindPsb(t, m.key) == Some(p)
    ensures WithPath(t, m) == t
  {
    assert t.psbs[p := t.psbs[p]] == t.psbs;
  }

  lemma FollowUpIsIdle(s: State, m: PathMsg, e: PathEnv)
    requires Inv(s) && Accepts(s, m, e)
    ensures var t, p := HandlePath(s, m, e), PathOf(s, m);
            p in t.psbs && t == if e.destLocal then PathEgress(t, p, e.rsbAlloc) else PathTransit(t, p, false, e)
  {
    AbsorbedPath(s, m, e);
    var u, p := WithPath(s, m), PathOf(s, m);
    if e.destLocal {
      EgressSettles(u, p, e.rsbAlloc);
      SettledEgressIsIdle(PathEgress(u, p, e.rsbAlloc), p, e.rsbAlloc);
    } else {
      TransitTwice(u, p, FindPsb(s, m.key).None?, e);
    }
  }

  /** Soft-state refresh: once a PATH has been accepted, receiving it again changes nothing. */
  lemma RepeatedPathIsIdle(s: State, m: PathMsg, e: PathEnv)
    requires Inv(s) && Accepts(s, m, e)
    ensures HandlePath(HandlePath(s, m, e), m, e) == HandlePath(s, m, e)
  {
    var t, p := HandlePath(s, m, e), PathOf(s, m);
    PathIsRecorded(s, m, e);
    HandlePathKeepsInv(s, m, e);
    FollowUpIsIdle(s, m, e);
    RecordedIsAbsorbed(t, p, m);
    AbsorbedPath(t, m, e);
  }
}
