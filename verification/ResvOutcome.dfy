// The outcome of a RESV, written out field by field: what the reservation records, what
// an ingress installs, when a blockade refuses it, and what a bypass's RESV sets off.
module ResvOutcome {
  import opened Common
  import opened StateDb
  import opened RsvpState
  import opened RsvpSteps
  import opened RsvpInvariant
  import opened RsvpRuns
  import opened MbbSafety
  import opened BypassUp
  import opened RsvpEffects
  import LP = LabelPool

  /** The reservation before a RESV: the path's own, or a blank one with the period of the path. */
  ghost function ResvBefore(s: State, p: Ref): Rsb
    requires p in s.psbs
  {
    var a := s.psbs[p].assocRsb;
    if a.Some? && a.value in s.rsbs then s.rsbs[a.value]
    else Rsb(s.psbs[p].key, 0, 0, 0, 0, Flowspec(0.0, 0.0), 0, s.psbs[p].refreshMs, Some(p), false, false)
  }

  /** The RESV is the first one, or brings another label or another hop. */
  ghost predicate Changes(s: State, p: Ref, m: ResvMsg)
    requires p in s.psbs && m.hop.Some? && m.labelOut.Some?
  {
    || s.psbs[p].assocRsb.None?
    || ResvBefore(s, p).labelOut != m.labelOut.value || ResvBefore(s, p).nextHop != m.hop.value.addr
  }

  /** What a RESV asks for. */
  ghost function Asked(s: State, p: Ref, m: ResvMsg): Flowspec
    requires p in s.psbs
  {
    if m.flowspec.Some? then m.flowspec.value else ResvBefore(s, p).flowspec
  }

  // ---- blockades --------------------------------------------------------

  lemma AbsorbedIs(s: State, p: Ref, m: ResvMsg)
    requires Admissible(s, p, m)
    ensures var u, r, v := Absorbed(s, p, m), ReservationOf(s, p), ResvBefore(s, p);
            && r in u.rsbs && u.bsbs == s.bsbs && u.labels == s.labels && u.fwd == s.fwd
            && u.psbs == s.psbs[p := s.psbs[p].(assocRsb := Some(r))]
            && u.rsbs[r] == v.(flowspec := Asked(s, p, m),
                               refreshMs := if m.refresh.Some? then m.refresh.value else v.refreshMs,
                               style := if m.style.Some? then m.style.value % 256 else v.style)
  {
    AbsorbedIsSound(s, p, m);
    if s.psbs[p].assocRsb.Some? {
      assert PsbLinked(s, p);
      assert s.psbs[p := s.psbs[p]] == s.psbs;
    }
  }

  /** A RESV is refused exactly when it asks for at least the rate and the size of what was refused before. */
  lemma BlockadeIsExact(s: State, p: Ref, m: ResvMsg)
    requires Admissible(s, p, m)
    ensures BlockadedFor(s, p, m) <==>
            && m.key in s.bsbs
            && Asked(s, p, m).rate >= s.bsbs[m.key].rate && Asked(s, p, m).size >= s.bsbs[m.key].size
  {
    AbsorbedIsSound(s, p, m);
    AbsorbedIs(s, p, m);
  }

  /** An admission failure that carries a flowspec sets the blockade of its session to that flowspec. */
  lemma FailureSetsBlockade(s: State, k: Key, failed: Option<Flowspec>, bsbAlloc: bool)
    requires Inv(s)
    ensures var t := Step(s, ResvErrArrives(k, failed, bsbAlloc));
            && t == s.(bsbs := t.bsbs)
            && (failed.Some? && (bsbAlloc || k in s.bsbs) ==> t.bsbs == s.bsbs[k := failed.value])
            && (failed.None? || !(bsbAlloc || k in s.bsbs) ==> t.bsbs == s.bsbs)
  {
  }

  /**
   * After such a failure a RESV of the session that asks for as much again gets no label and no entry
   * and changes no path, and one that asks for less rate or less size is let through.
   */
  lemma FailureBlocksRepeats(s: State, k: Key, failed: Flowspec, p: Ref, m: ResvMsg)
    requires Admissible(s, p, m) && m.key == k
    ensures var t := Step(s, ResvErrArrives(k, Some(failed), true));
            && Admissible(t, p, m)
            && (BlockadedFor(t, p, m) <==> Asked(s, p, m).rate >= failed.rate && Asked(s, p, m).size >= failed.size)
            && (BlockadedFor(t, p, m) ==>
                  var u := Step(t, ResvArrives(m, true));
                  u.fwd == s.fwd && u.labels == s.labels && u.rsbs.Keys == s.rsbs.Keys && u.psbs == s.psbs)
  {
    var t := Step(s, ResvErrArrives(k, Some(failed), true));
    StepKeepsInv(s, ResvErrArrives(k, Some(failed), true));
    BlockadeIsExact(t, p, m);
    if BlockadedFor(t, p, m) {
      BlockadedInstallsNothing(t, p, m);
    }
  }

  /** A blockade that has run out refuses nothing any more, and the others stay. */
  lemma EndedBlockadeRefusesNothing(s: State, p: Ref, m: ResvMsg)
    requires Admissible(s, p, m)
    ensures var t := Step(s, BlockadeEnds(m.key));
            t == s.(bsbs := t.bsbs) && Admissible(t, p, m) && !BlockadedFor(t, p, m)
    ensures forall k :: k != m.key && k in s.bsbs ==>
              k in Step(s, BlockadeEnds(m.key)).bsbs && Step(s, BlockadeEnds(m.key)).bsbs[k] == s.bsbs[k]
  {
    StepKeepsInv(s, BlockadeEnds(m.key));
    BlockadeIsExact(Step(s, BlockadeEnds(m.key)), p, m);
  }

  // ---- RESVs that are ignored or dropped -------------------------------

  /** A RESV without path, hop or label, or without memory for its reservation, changes nothing. */
  lemma UselessResvIsIgnored(s: State, m: ResvMsg, rsbAlloc: bool)
    requires Inv(s)
    requires || m.hop.None? || m.labelOut.None? || (forall p :: p in s.psbs ==> s.psbs[p].key != m.key)
             || (!rsbAlloc && forall r :: r in s.rsbs ==> s.rsbs[r].key != m.key)
    ensures Step(s, ResvArrives(m, rsbAlloc)) == s
  {
    FindPsbExact(s, m.key);
    FindRsbExact(s, m.key);
  }

  /**
   * A new reservation at a transit node without a free label is dropped again.  Nothing stays of it,
   * except that dropping the reservation of a head end takes the entry for the destination away.
   */
  lemma NoLabelNoReservation(s: State, p: Ref, m: ResvMsg)
    requires Admissible(s, p, m) && !BlockadedFor(s, p, m)
    requires s.psbs[p].assocRsb.None? && s.psbs[p].prevHop != 0 && LP.Full(s.labels)
    ensures var t := Step(s, ResvArrives(m, true));
            && t.rsbs == s.rsbs && t.psbs == s.psbs && t.labels == s.labels && t.bsbs == s.bsbs
            && t.fwd == if s.psbs[p].isIngress then s.fwd - {ToDest(m.key.dest)} else s.fwd
  {
    hide Inv, HandleResv, Reprogram, AcceptResv;
    AbsorbedIsSound(s, p, m);
    HandledAfterAbsorbing(s, p, m);
    AbsorbedIs(s, p, m);
    AcceptReprograms(s, p, m);
    NewReservation(s, p, m);
    var u, r := Absorbed(s, p, m), s.nextRef;
    TouchRsb(u, r, AcceptedFor(s, p, m));
    ReprogramDrops(SetRsb(u, r, AcceptedFor(s, p, m)), r, p, m.labelOut.value != u.rsbs[r].labelOut);
    BackAgain(s.psbs, p, s.psbs[p].(assocRsb := Some(r)), s.rsbs, r, AcceptedFor(s, p, m));
  }

  lemma ReprogramDrops(v: State, r: Ref, p: Ref, labelChanged: bool)
    requires Inv(v) && r in v.rsbs && p in v.psbs && v.rsbs[r].assocPsb == Some(p)
    requires v.psbs[p].prevHop != 0 && v.rsbs[r].labelIn == 0 && LP.Full(v.labels)
    ensures var t := Reprogram(v, r, p, true, labelChanged);
            && t.rsbs == v.rsbs - {r} && t.psbs == v.psbs[p := v.psbs[p].(assocRsb := None)]
            && t.labels == v.labels && t.bsbs == v.bsbs
            && t.fwd == if v.psbs[p].isIngress then v.fwd - {ToDest(v.rsbs[r].key.dest)} else v.fwd
  {
    GiveLabelKeepsInv(v, r);
    LP.AllocTakesLowest(v.labels);
    RsbCleanupEffect(v, r);
  }

  // ---- programming ------------------------------------------------------

  lemma AfterForwardingAssociates(u: State, p: Ref, isNew: bool, labelChanged: bool)
    requires Shaped(u) && p in u.psbs && !(isNew && u.psbs[p].mbbPending)
    ensures OnlyAssociations(u, AfterForwarding(u, p, isNew, labelChanged))
  {
    AssociationKeepsRest(u, Walk(u.psbTable), u.psbs[p].protectedIf);
  }

  lemma ReprogramForwards(v: State, r: Ref, p: Ref, isNew: bool, labelChanged: bool)
    requires Inv(v) && r in v.rsbs && p in v.psbs && !(isNew && v.psbs[p].mbbPending)
    requires isNew && v.psbs[p].prevHop != 0 ==> !LP.Full(v.labels)
    ensures OnlyAssociations(ProgramForwarding(v, r, p), Reprogram(v, r, p, isNew, labelChanged))
  {
    GiveLabelKeepsInv(v, r);
    AfterForwardingAssociates(ProgramForwarding(v, r, p), p, isNew, labelChanged);
  }

  /** An ingress installs the entry for unlabelled traffic to the destination, and nothing else. */
  lemma IngressProgramming(v: State, r: Ref, p: Ref)
    requires Shaped(v) && r in v.rsbs && p in v.psbs && v.psbs[p].prevHop == 0
    ensures ProgramForwarding(v, r, p) ==
            v.(fwd := v.fwd[ToDest(v.psbs[p].key.dest) :=
                            Entry(v.rsbs[r].labelOut, v.rsbs[r].nextIf, v.rsbs[r].nextHop, v.rsbs[r].key.dest)])
  {
  }

  // ---- the record -------------------------------------------------------

  /** The reservation that an accepted RESV leaves, in-label aside. */
  ghost function Recorded(s: State, p: Ref, m: ResvMsg, labelIn: nat): Rsb
    requires p in s.psbs && m.hop.Some? && m.labelOut.Some?
  {
    Rsb(m.key, m.hop.value.addr, m.hop.value.ifindex, labelIn, m.labelOut.value, Asked(s, p, m),
        if m.style.Some? then m.style.value % 256 else ResvBefore(s, p).style,
        if m.refresh.Some? then m.refresh.value else ResvBefore(s, p).refreshMs,
        Some(p), true, !s.psbs[p].isIngress)
  }

  lemma AcceptedIs(s: State, p: Ref, m: ResvMsg)
    requires Admissible(s, p, m)
    ensures ReservationOf(s, p) in Absorbed(s, p, m).rsbs
    ensures AcceptedFor(s, p, m) == Recorded(s, p, m, ResvBefore(s, p).labelIn)
    ensures s.psbs[p].assocRsb.None? ==> Accepted(s, p, m) == Recorded(s, p, m, 0)
  {
    AbsorbedIs(s, p, m);
    AbsorbedIsSound(s, p, m);
  }

  lemma ChangedResv(s: State, p: Ref, m: ResvMsg) returns (v: State, u: State)
    requires Admissible(s, p, m) && !BlockadedFor(s, p, m) && Changes(s, p, m)
    requires s.psbs[p].assocRsb.None? ==> !s.psbs[p].mbbPending && (s.psbs[p].prevHop != 0 ==> !LP.Full(s.labels))
    ensures Shaped(v) && v.labels == s.labels && v.fwd == s.fwd && v.psbs == s.psbs[p := s.psbs[p].(assocRsb := Some(ReservationOf(s, p)))]
    ensures ReservationOf(s, p) in v.rsbs && v.rsbs[ReservationOf(s, p)] == Recorded(s, p, m, ResvBefore(s, p).labelIn)
    ensures u == ProgramForwarding(v, ReservationOf(s, p), p) && OnlyAssociations(u, HandleResv(s, m, true))
  {
    hide Inv, HandleResv, Reprogram, AcceptResv;
    AbsorbedIsSound(s, p, m);
    HandledAfterAbsorbing(s, p, m);
    AbsorbedIs(s, p, m);
    AcceptedIs(s, p, m);
    AcceptReprograms(s, p, m);
    var w, r := Absorbed(s, p, m), ReservationOf(s, p);
    TouchRsb(w, r, AcceptedFor(s, p, m));
    v := SetRsb(w, r, AcceptedFor(s, p, m));
    ReprogramForwards(v, r, p, s.psbs[p].assocRsb.None?, m.labelOut.value != w.rsbs[r].labelOut);
    u := ProgramForwarding(v, r, p);
  }

  lemma ChangedIsRecorded(s: State, p: Ref, m: ResvMsg)
    requires Admissible(s, p, m) && !BlockadedFor(s, p, m) && Changes(s, p, m)
    requires s.psbs[p].assocRsb.None? ==> !s.psbs[p].mbbPending && (s.psbs[p].prevHop != 0 ==> !LP.Full(s.labels))
    ensures var t, r := HandleResv(s, m, true), ReservationOf(s, p);
            && r in t.rsbs && t.rsbs[r] == Recorded(s, p, m, t.rsbs[r].labelIn)
            && p in t.psbs && t.psbs[p].assocRsb == Some(r)
  {
    hide Inv, HandleResv, Recorded, ProgramForwarding;
    var v, u := ChangedResv(s, p, m);
    ProgrammingTouchesOne(v, ReservationOf(s, p), p);
    RelabelledRecord(s, p, m, ResvBefore(s, p).labelIn, u.rsbs[ReservationOf(s, p)].labelIn);
    ProgrammingKeepsPaths(v, ReservationOf(s, p), p);
  }

  lemma ProgrammingKeepsPaths(v: State, r: Ref, p: Ref)
    requires Shaped(v) && r in v.rsbs && p in v.psbs
    ensures ProgramForwarding(v, r, p).psbs == v.psbs
  {
  }

  lemma RelabelledRecord(s: State, p: Ref, m: ResvMsg, l: nat, k: nat)
    requires p in s.psbs && m.hop.Some? && m.labelOut.Some?
    ensures Recorded(s, p, m, l).(labelIn := k) == Recorded(s, p, m, k)
  {
  }

  /** A RESV that changes nothing refreshes the record; in transit a reservation without an in-label is given one. */
  lemma RefreshIsRecorded(s: State, p: Ref, m: ResvMsg)
    requires Admissible(s, p, m) && !BlockadedFor(s, p, m) && !Changes(s, p, m)
    ensures var t, r := HandleResv(s, m, true), ReservationOf(s, p);
            && r in t.rsbs && t.rsbs[r] == Recorded(s, p, m, t.rsbs[r].labelIn)
            && p in t.psbs && t.psbs == s.psbs && t.fwd == s.fwd
            && (s.psbs[p].prevHop == 0 || s.psbs[p].isIngress || ResvBefore(s, p).labelIn != 0 ==>
                  t.labels == s.labels && t.rsbs[r].labelIn == ResvBefore(s, p).labelIn)
            && (s.psbs[p].prevHop != 0 && !s.psbs[p].isIngress && ResvBefore(s, p).labelIn == 0 ==>
                  if LP.Full(s.labels) then t.rsbs[r].labelIn == 0 else LP.IsLowestFree(s.labels, t.rsbs[r].labelIn))
  {
    hide Inv, HandleResv, AcceptResv, Recorded;
    AbsorbedIsSound(s, p, m);
    HandledAfterAbsorbing(s, p, m);
    AbsorbedIs(s, p, m);
    AcceptedIs(s, p, m);
    UnchangedIsRelabelled(s, p, m);
    var w, r := Absorbed(s, p, m), ReservationOf(s, p);
    TouchRsb(w, r, AcceptedFor(s, p, m));
    GiveLabelKeepsInv(SetRsb(w, r, AcceptedFor(s, p, m)), r);
    assert s.psbs[p := s.psbs[p]] == s.psbs;
    RelabelledRecord(s, p, m, ResvBefore(s, p).labelIn, HandleResv(s, m, true).rsbs[r].labelIn);
  }

  lemma CompletionIsRecorded(s: State, n: Ref, m: ResvMsg)
    requires Admissible(s, n, m) && Completes(s, n, m, true)
    ensures var t, r := HandleResv(s, m, true), s.nextRef;
            && r in t.rsbs && t.rsbs[r] == Recorded(s, n, m, t.rsbs[r].labelIn)
            && n in t.psbs && t.psbs[n].assocRsb == Some(r)
  {
    hide Inv, HandleResv, Recorded, MbbComplete, ProgramForwarding;
    var v, w := BeforeCompletion(s, n, m);
    MbbCompleteEffect(w, n, s.nextRef);
    AcceptedIs(s, n, m);
    RelabelledRecord(s, n, m, 0, v.rsbs[s.nextRef].labelIn);
  }

  /**
   * The reservation of an accepted RESV holds the label and the hop that arrived, and the flowspec,
   * style and period it names or those of before; its cleanup timer runs, its refresh timer exactly
   * when the path does not start here.
   */
  lemma ResvIsRecorded(s: State, p: Ref, m: ResvMsg)
    requires Admissible(s, p, m) && !BlockadedFor(s, p, m)
    requires s.psbs[p].assocRsb.None? && s.psbs[p].prevHop != 0 ==> !LP.Full(s.labels)
    ensures var t, r := Step(s, ResvArrives(m, true)), ReservationOf(s, p);
            && r in t.rsbs && t.rsbs[r] == Recorded(s, p, m, t.rsbs[r].labelIn)
            && p in t.psbs && t.psbs[p].assocRsb == Some(r)
  {
    hide Inv, HandleResv, Recorded;
    if s.psbs[p].assocRsb.None? && s.psbs[p].mbbPending {
      NewIsNotBlockaded(s, p, m);
      CompletionIsRecorded(s, p, m);
    } else if Changes(s, p, m) {
      ChangedIsRecorded(s, p, m);
    } else {
      RefreshIsRecorded(s, p, m);
    }
  }

  // ---- the head end -----------------------------------------------------

  /** What unlabelled traffic to the destination is given: the label that arrived, towards the hop it came from. */
  ghost function WithPush(s: State, m: ResvMsg): map<FwdKey, Entry>
    requires m.hop.Some? && m.labelOut.Some?
  {
    s.fwd[ToDest(m.key.dest) := Entry(m.labelOut.value, m.hop.value.ifindex, m.hop.value.addr, m.key.dest)]
  }

  /**
   * A RESV with a new or changed label or hop, accepted where the path starts, installs one entry for the
   * traffic to its destination and touches no other, and takes no label.
   */
  lemma IngressInstallsPush(s: State, p: Ref, m: ResvMsg)
    requires Admissible(s, p, m) && !BlockadedFor(s, p, m) && s.psbs[p].prevHop == 0 && Changes(s, p, m)
    requires s.psbs[p].assocRsb.None? ==> !s.psbs[p].mbbPending
    ensures var t := Step(s, ResvArrives(m, true));
            t.fwd == WithPush(s, m) && t.labels == s.labels
  {
    hide Inv, HandleResv, ProgramForwarding;
    var v, u := ChangedResv(s, p, m);
    IngressProgramming(v, ReservationOf(s, p), p);
  }

  /**
   * A RESV that completes a replacement where it starts installs the same entry, and then takes away the
   * entry of the path it tears down.
   */
  lemma CompletionInstallsPush(s: State, n: Ref, m: ResvMsg)
    requires Admissible(s, n, m) && Completes(s, n, m, true) && s.psbs[n].prevHop == 0
    ensures var t, prior := Step(s, ResvArrives(m, true)), Replaced(s, n);
            (prior.Some? ==> prior.value in s.psbs) && t.fwd == WithPush(s, m) - Taken(s, prior)
  {
    hide Inv, HandleResv, ProgramForwarding, EntryTaken;
    var v := CompletionForwarding(s, n, m);
    AcceptedIs(s, n, m);
    NewReservation(s, n, m);
    IngressProgramming(SetRsb(WithReservation(s, n, m), s.nextRef, Accepted(s, n, m)), s.nextRef, n);
    assert v.fwd == WithPush(s, m);
    assert v.fwd - {} == v.fwd;
  }

  /**
   * Unlabelled traffic is known by its destination only, so the tear-down of the old path takes the entry
   * that was just installed: after the completion the destination has an entry if and only if the path
   * torn down had no unlabelled ingress reservation for it.
   */
  lemma CompletionKeepsPushIff(s: State, n: Ref, m: ResvMsg)
    requires Admissible(s, n, m) && Completes(s, n, m, true) && s.psbs[n].prevHop == 0
    ensures Replaced(s, n).Some? ==> Replaced(s, n).value in s.psbs
    ensures ToDest(m.key.dest) in Step(s, ResvArrives(m, true)).fwd <==>
            !(&& Replaced(s, n).Some?
              && var o := s.psbs[Replaced(s, n).value];
                 && o.isIngress && o.key.dest == m.key.dest
                 && exists r :: r in s.rsbs && o.assocRsb == Some(r) && s.rsbs[r].labelIn == 0)
  {
    hide Inv, HandleResv;
    CompletionInstallsPush(s, n, m);
  }

  // ---- a RESV for a bypass ----------------------------------------------

  /**
   * The first RESV of a bypass tunnel, and one that changes its label, arms every path that was waiting
   * for a bypass of the interface it protects.
   */
  lemma BypassResvArmsWaiting(s: State, p: Ref, m: ResvMsg, q: Ref)
    requires Admissible(s, p, m) && !BlockadedFor(s, p, m) && s.psbs[p].isBypass && s.psbs[p].protectedIf != 0
    requires s.psbs[p].assocRsb.None? || ResvBefore(s, p).labelOut != m.labelOut.value
    requires s.psbs[p].assocRsb.None? ==> !s.psbs[p].mbbPending
    requires s.psbs[p].prevHop != 0 ==> ResvBefore(s, p).labelIn != 0 || !LP.Full(s.labels)
    requires m.labelOut.value != 0 && Waits(s, q, s.psbs[p].protectedIf)
    ensures var t := Step(s, ResvArrives(m, true));
            && q in t.psbs && t.psbs[q].bypassPsb.Some?
            && Carries(t, t.psbs[q].bypassPsb.value, s.psbs[p].protectedIf)
            && t.psbs[q].bypassTunnelId == t.psbs[t.psbs[q].bypassPsb.value].key.tunnelId
  {
    hide Inv, HandleResv, Reprogram, AcceptResv, AutoAssociateAll;
    AbsorbedIsSound(s, p, m);
    HandledAfterAbsorbing(s, p, m);
    AbsorbedIs(s, p, m);
    AcceptedIs(s, p, m);
    AcceptReprograms(s, p, m);
    var w, r := Absorbed(s, p, m), ReservationOf(s, p);
    TouchRsb(w, r, AcceptedFor(s, p, m));
    BypassProgrammed(SetRsb(w, r, AcceptedFor(s, p, m)), r, p, s.psbs[p].assocRsb.None?,
                     m.labelOut.value != w.rsbs[r].labelOut, q);
  }

  lemma BypassProgrammed(v: State, r: Ref, p: Ref, isNew: bool, labelChanged: bool, q: Ref)
    requires Inv(v) && r in v.rsbs && p in v.psbs && v.psbs[p].isBypass && v.psbs[p].protectedIf != 0
    requires (isNew || labelChanged) && !(isNew && v.psbs[p].mbbPending)
    requires v.psbs[p].prevHop != 0 ==> v.rsbs[r].labelIn != 0 || !LP.Full(v.labels)
    requires v.rsbs[r].key == v.psbs[p].key && v.rsbs[r].labelOut != 0 && Waits(v, q, v.psbs[p].protectedIf)
    ensures var t := Reprogram(v, r, p, isNew, labelChanged);
            && q in t.psbs && t.psbs[q].bypassPsb.Some?
            && Carries(t, t.psbs[q].bypassPsb.value, v.psbs[p].protectedIf)
            && t.psbs[q].bypassTunnelId == t.psbs[t.psbs[q].bypassPsb.value].key.tunnelId
  {
    hide Inv, ProgramForwarding, AutoAssociateAll, Carries;
    var i, u := v.psbs[p].protectedIf, ProgramForwarding(v, r, p);
    BypassReprograms(v, r, p, isNew, labelChanged);
    ProgrammingTouchesOne(v, r, p);
    ProgrammingKeepsPaths(v, r, p);
    ProgramForwardingKeepsInv(v, r, p);
    LabelledNow(u, r, p);
    ArmingIsExact(u, i, q);
    var t := AutoAssociateAll(u, i);
    var c := t.psbs[q].bypassPsb.value;
    ArmedCarries(u, c, i);
    ArmingIsExact(u, i, c);
    CarriesStays(u, t, c, i);
  }

  lemma BypassReprograms(v: State, r: Ref, p: Ref, isNew: bool, labelChanged: bool)
    requires Inv(v) && r in v.rsbs && p in v.psbs && v.psbs[p].isBypass && (isNew || labelChanged)
    requires !(isNew && v.psbs[p].mbbPending) && (v.psbs[p].prevHop != 0 ==> v.rsbs[r].labelIn != 0 || !LP.Full(v.labels))
    ensures Reprogram(v, r, p, isNew, labelChanged) == AutoAssociateAll(ProgramForwarding(v, r, p), v.psbs[p].protectedIf)
  {
    GiveLabelKeepsInv(v, r);
    AssociationKeepsRest(ProgramForwarding(v, r, p), Walk(v.psbTable), v.psbs[p].protectedIf);
  }

  lemma LabelledNow(u: State, r: Ref, p: Ref)
    requires p in u.psbs && r in u.rsbs && u.rsbs[r].key == u.psbs[p].key && u.rsbs[r].labelOut != 0 && u.psbs[p].isBypass
    ensures Carries(u, p, u.psbs[p].protectedIf)
  {
  }

  lemma ArmedCarries(u: State, c: Ref, i: nat)
    requires Carries(u, c, i)
    ensures c in u.psbs && u.psbs[c].isBypass && !Waits(u, c, i)
  {
  }

  lemma CarriesStays(u: State, t: State, c: Ref, i: nat)
    requires Carries(u, c, i) && t == u.(psbs := t.psbs) && c in t.psbs && t.psbs[c] == u.psbs[c]
    ensures Carries(t, c, i)
  {
    assert Labelled(t, u.psbs[c].key);
  }
}
