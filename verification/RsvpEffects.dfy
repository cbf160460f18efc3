// What a RESV does: the reservation it records, the entry it installs, what a blockade
// or a tear leaves; and that a repeated RESV changes nothing.
module RsvpEffects {
  import opened Common
  import opened StateDb
  import opened RsvpState
  import opened RsvpSteps
  import opened RsvpInvariant
  import opened RsvpRuns
  import opened MbbSafety
  import LP = LabelPool

  // ---- RESV -------------------------------------------------------------

  /** The reservation that a RESV for a path is about: the path's own, or the next new one. */
  function ReservationOf(s: State, p: Ref): Ref
    requires p in s.psbs
  {
    if s.psbs[p].assocRsb.Some? then s.psbs[p].assocRsb.value else s.nextRef
  }

  /** The state before the blockade check: the reservation is there and holds what the RESV says. */
  function Absorbed(s: State, p: Ref, m: ResvMsg): (u: State)
    requires Shaped(s) && p in s.psbs
    ensures Shaped(u)
  {
    var a := s.psbs[p].assocRsb;
    if a.None? then WithReservation(s, p, m)
    else if a.value in s.rsbs then SetRsb(s, a.value, AbsorbResv(s.rsbs[a.value], m)) else s
  }

  /** A RESV that reaches the blockade check. */
  ghost predicate Admissible(s: State, p: Ref, m: ResvMsg) {
    Inv(s) && p in s.psbs && s.psbs[p].key == m.key && m.hop.Some? && m.labelOut.Some?
  }

  lemma AbsorbedIsSound(s: State, p: Ref, m: ResvMsg)
    requires Admissible(s, p, m)
    ensures var u, r := Absorbed(s, p, m), ReservationOf(s, p);
            && Inv(u) && r in u.rsbs && u.rsbs[r].key == m.key && u.rsbs[r].assocPsb == Some(p)
            && p in u.psbs && u.psbs[p] == s.psbs[p].(assocRsb := Some(r))
            && (r in s.rsbs <==> s.psbs[p].assocRsb.Some?)
  {
    if s.psbs[p].assocRsb.None? {
      NewReservation(s, p, m);
    } else {
      assert PsbLinked(s, p);
      var r := s.psbs[p].assocRsb.value;
      assert RsbLinked(s, r);
      TouchRsb(s, r, AbsorbResv(s.rsbs[r], m));
    }
  }

  lemma HandledAfterAbsorbing(s: State, p: Ref, m: ResvMsg)
    requires Admissible(s, p, m)
    ensures var u, r, isNew := Absorbed(s, p, m), ReservationOf(s, p), s.psbs[p].assocRsb.None?;
            r in u.rsbs && HandleResv(s, m, true) ==
              if Blockaded(u, r) then (if isNew then DeleteRsb(u, r) else u) else AcceptResv(u, r, isNew, m)
  {
    AbsorbedIsSound(s, p, m);
    if s.psbs[p].assocRsb.None? {
      NewReservation(s, p, m);
    } else {
      FindPsbExact(s, m.key);
      RsbOfPsb(s, p);
    }
  }

  ghost predicate BlockadedFor(s: State, p: Ref, m: ResvMsg)
    requires Shaped(s) && p in s.psbs
  {
    var u, r := Absorbed(s, p, m), ReservationOf(s, p);
    r in u.rsbs && Blockaded(u, r)
  }

  lemma BackAgain(psbs: map<Ref, Psb>, p: Ref, v: Psb, rsbs: map<Ref, Rsb>, r: Ref, w: Rsb)
    requires p in psbs && r !in rsbs
    ensures psbs[p := v][p := psbs[p]] == psbs && rsbs[r := w] - {r} == rsbs
  {
  }

  lemma DroppedAtOnce(s: State, p: Ref, m: ResvMsg)
    requires Shaped(s) && p in s.psbs && s.psbs[p].assocRsb == None && s.nextRef !in s.rsbs
    ensures var t := DeleteRsb(WithReservation(s, p, m), s.nextRef);
            t.psbs == s.psbs && t.rsbs == s.rsbs && t.fwd == s.fwd && t.labels == s.labels
  {
    var t := DeleteRsb(WithReservation(s, p, m), s.nextRef);
    var r, w := s.nextRef, ReservationFor(s, p, m);
    assert t.psbs == s.psbs[p := s.psbs[p].(assocRsb := Some(r))][p := s.psbs[p].(assocRsb := None)];
    assert t.rsbs == s.rsbs[r := w] - {r};
    BackAgain(s.psbs, p, s.psbs[p].(assocRsb := Some(r)), s.rsbs, r, w);
  }

  /** A blockaded reservation takes no label and no forwarding entry, and a new one does not stay. */
  lemma BlockadedInstallsNothing(s: State, p: Ref, m: ResvMsg)
    requires Admissible(s, p, m) && BlockadedFor(s, p, m)
    ensures var t := HandleResv(s, m, true);
            t.fwd == s.fwd && t.labels == s.labels && t.rsbs.Keys == s.rsbs.Keys && t.psbs == s.psbs
  {
    AbsorbedIsSound(s, p, m);
    HandledAfterAbsorbing(s, p, m);
    if s.psbs[p].assocRsb.None? {
      DroppedAtOnce(s, p, m);
    }
  }

  /** The reservation as an accepted RESV leaves it, in-label aside. */
  function AcceptedFor(s: State, p: Ref, m: ResvMsg): Rsb
    requires Shaped(s) && p in s.psbs && ReservationOf(s, p) in Absorbed(s, p, m).rsbs && m.hop.Some? && m.labelOut.Some?
  {
    Absorbed(s, p, m).rsbs[ReservationOf(s, p)].(cleanupArmed := true, refreshArmed := !s.psbs[p].isIngress,
      labelOut := m.labelOut.value, nextHop := m.hop.value.addr, nextIf := m.hop.value.ifindex)
  }

  lemma AfterForwardingKeepsEntries(s: State, p: Ref, isNew: bool, labelChanged: bool)
    requires Shaped(s) && p in s.psbs && !(isNew && s.psbs[p].mbbPending)
    ensures var t := AfterForwarding(s, p, isNew, labelChanged);
            t.fwd == s.fwd && t.labels == s.labels && t.rsbs == s.rsbs
  {
    AssociationKeepsRest(s, Walk(s.psbTable), s.psbs[p].protectedIf);
    AssociationKeepsPaths(s, Walk(s.psbTable), s.psbs[p].protectedIf);
  }

  lemma AssociationOfOneKeepsRest(s: State, p: Ref, ifindex: nat)
    requires Shaped(s)
    ensures OnlyAssociations(s, AssociateOne(s, p, ifindex))
  {
    hide FirstReady, Walk;
  }

  ghost predicate OnlyAssociations(s: State, t: State) {
    && t == s.(psbs := t.psbs) && t.psbs.Keys == s.psbs.Keys
    && forall p :: p in s.psbs ==>
         t.psbs[p] == s.psbs[p].(bypassPsb := t.psbs[p].bypassPsb, bypassTunnelId := t.psbs[p].bypassTunnelId)
  }

  lemma {:induction false} AssociationKeepsRest(s: State, walk: seq<Ref>, ifindex: nat)
    requires Shaped(s)
    ensures OnlyAssociations(s, AssociateIn(s, walk, ifindex))
    decreases |walk|
  {
    if walk != [] {
      AssociationOfOneKeepsRest(s, walk[0], ifindex);
      AssociationKeepsRest(AssociateOne(s, walk[0], ifindex), walk[1..], ifindex);
    }
  }

  /** At a transit node with a label to give, programming installs exactly the swap entry of the reservation. */
  lemma ReprogramInstallsSwap(s: State, r: Ref, p: Ref, isNew: bool, labelChanged: bool)
    requires Inv(s) && r in s.rsbs && p in s.psbs && s.psbs[p].prevHop != 0 && !(isNew && s.psbs[p].mbbPending)
    requires s.rsbs[r].labelIn != 0 || !LP.Full(s.labels)
    ensures var t := Reprogram(s, r, p, isNew, labelChanged);
            && r in t.rsbs && t.rsbs[r] == s.rsbs[r].(labelIn := t.rsbs[r].labelIn) && t.rsbs[r].labelIn != 0
            && t.fwd == s.fwd[InLabel(t.rsbs[r].labelIn) := Primary(s.rsbs[r])]
            && (if s.rsbs[r].labelIn != 0 then t.rsbs == s.rsbs && t.labels == s.labels
                else LP.IsLowestFree(s.labels, t.rsbs[r].labelIn) && InLabel(t.rsbs[r].labelIn) !in s.fwd)
            && (forall q :: q in s.rsbs && q != r ==> q in t.rsbs && t.rsbs[q] == s.rsbs[q])
  {
    GiveLabelKeepsInv(s, r);
    ProgramForwardingKeepsInv(s, r, p);
    AfterForwardingKeepsEntries(ProgramForwarding(s, r, p), p, isNew, labelChanged);
  }

  /**
   * A RESV with a new or changed label or hop, accepted at a transit node that has a label,
   * installs one entry and touches no other: the reservation's in-label is swapped for the
   * label that arrived, towards the hop it came from.  A reservation without an in-label
   * gets the lowest free one.
   */
  lemma ResvInstallsSwap(s: State, p: Ref, m: ResvMsg)
    requires Admissible(s, p, m) && !BlockadedFor(s, p, m) && s.psbs[p].prevHop != 0
    requires s.psbs[p].assocRsb.None? ==> !s.psbs[p].mbbPending
    requires var a := s.psbs[p].assocRsb;
             if a.Some? && a.value in s.rsbs
             then && (s.rsbs[a.value].labelIn != 0 || !LP.Full(s.labels))
                  && (s.rsbs[a.value].labelOut != m.labelOut.value || s.rsbs[a.value].nextHop != m.hop.value.addr)
             else !LP.Full(s.labels)
    ensures var t, r := HandleResv(s, m, true), ReservationOf(s, p);
            && r in t.rsbs && t.rsbs[r].key == m.key && t.rsbs[r].labelIn != 0 && t.rsbs[r].labelOut == m.labelOut.value
            && t.fwd == s.fwd[InLabel(t.rsbs[r].labelIn) :=
                              Entry(m.labelOut.value, m.hop.value.ifindex, m.hop.value.addr, m.key.dest)]
            && (if r in s.rsbs && s.rsbs[r].labelIn != 0 then t.rsbs[r].labelIn == s.rsbs[r].labelIn
                else LP.IsLowestFree(s.labels, t.rsbs[r].labelIn))
  {
    AbsorbedIsSound(s, p, m);
    HandledAfterAbsorbing(s, p, m);
    var u, r := Absorbed(s, p, m), ReservationOf(s, p);
    TouchRsb(u, r, AcceptedFor(s, p, m));
    var v := SetRsb(u, r, AcceptedFor(s, p, m));
    var isNew := s.psbs[p].assocRsb.None?;
    ReprogramInstallsSwap(v, r, p, isNew, m.labelOut.value != u.rsbs[r].labelOut);
    AcceptReprograms(s, p, m);
  }

  lemma AcceptReprograms(s: State, p: Ref, m: ResvMsg)
    requires Admissible(s, p, m)
    requires var u, r := Absorbed(s, p, m), ReservationOf(s, p);
             && r in u.rsbs && u.rsbs[r].assocPsb == Some(p) && p in u.psbs && u.psbs[p].isIngress == s.psbs[p].isIngress
             && (s.psbs[p].assocRsb.None? || u.rsbs[r].labelOut != m.labelOut.value || u.rsbs[r].nextHop != m.hop.value.addr)
    ensures var u, r := Absorbed(s, p, m), ReservationOf(s, p);
            AcceptResv(u, r, s.psbs[p].assocRsb.None?, m) ==
            Reprogram(SetRsb(u, r, AcceptedFor(s, p, m)), r, p, s.psbs[p].assocRsb.None?,
                      m.labelOut.value != u.rsbs[r].labelOut)
  {
  }

  // ---- a RESV that completes a replacement -----------------------------

  /** The forwarding entry that cleaning up a path takes away, if any. */
  function EntryTaken(s: State, p: Ref): set<FwdKey>
    requires p in s.psbs
  {
    var a := s.psbs[p].assocRsb;
    if a.None? || a.value !in s.rsbs then {}
    else if s.rsbs[a.value].labelIn != 0 then {InLabel(s.rsbs[a.value].labelIn)}
    else if s.psbs[p].isIngress then {ToDest(s.psbs[p].key.dest)} else {}
  }

  lemma CleanupOfReserved(s: State, p: Ref, r: Ref)
    requires Inv(s) && p in s.psbs && r in s.rsbs && s.psbs[p].assocRsb == Some(r) && s.rsbs[r].assocPsb == Some(p)
    ensures PsbCleanup(s, p).fwd == s.fwd - EntryTaken(s, p)
  {
    assert RsbLinked(s, r);
    RsbCleanupEffect(s, r);
    RsbCleanupKeepsInv(s, r);
    RsbThenPsb(s, p, RsbCleanup(s, r));
  }

  lemma CleanupTakesEntry(s: State, p: Ref)
    requires Inv(s) && p in s.psbs
    ensures PsbCleanup(s, p).fwd == s.fwd - EntryTaken(s, p)
  {
    var a := s.psbs[p].assocRsb;
    if a.Some? {
      assert PsbLinked(s, p);
      CleanupOfReserved(s, p, a.value);
    } else {
      DeletePsbKeepsInv(s, p);
      assert s.fwd - {} == s.fwd;
    }
  }

  /** The state in which a completion starts: the reservation is programmed, nothing is torn down yet. */
  lemma BeforeCompletion(s: State, n: Ref, m: ResvMsg) returns (v: State, w: State)
    requires Inv(s) && Completes(s, n, m, true)
    ensures v.psbs == s.psbs[n := s.psbs[n].(assocRsb := Some(s.nextRef))]
    ensures Inv(w) && OnlyAssociations(v, w) && n in w.psbs && HandleResv(s, m, true) == MbbComplete(w, n)
    ensures v.psbTable == s.psbTable && v.bsbs == s.bsbs
    ensures s.nextRef in v.rsbs && v.rsbs[s.nextRef] == Accepted(s, n, m).(labelIn := v.rsbs[s.nextRef].labelIn)
    ensures v == ProgramForwarding(SetRsb(WithReservation(s, n, m), s.nextRef, Accepted(s, n, m)), s.nextRef, n)
    ensures s.psbs[n].prevHop != 0 ==> v.rsbs[s.nextRef].labelIn != 0
  {
    var changed;
    v, changed := AcceptedUpToForwarding(s, n, m);
    w := AfterForwardingCompletes(v, n, changed);
    AssociationKeepsRest(v, Walk(v.psbTable), v.psbs[n].protectedIf);
    KeepsBlockades(s, n, m);
  }

  lemma KeepsBlockades(s: State, n: Ref, m: ResvMsg)
    requires Shaped(s) && n in s.psbs && m.hop.Some? && m.labelOut.Some?
    ensures ProgramForwarding(SetRsb(WithReservation(s, n, m), s.nextRef, Accepted(s, n, m)), s.nextRef, n).bsbs == s.bsbs
  {
  }

  /** Completion tears down the entry of the path it tears down, and no other. */
  lemma CompletionTakesEntry(w: State, n: Ref)
    requires Inv(w) && n in w.psbs && w.psbs[n].mbbPending
    ensures MbbComplete(w, n).fwd ==
            (if Replaced(w, n).Some? && Replaced(w, n).value in w.psbs then w.fwd - EntryTaken(w, Replaced(w, n).value) else w.fwd)
  {
    ReplacedIsAnother(w, n);
    if Replaced(w, n).Some? {
      CleanupTakesEntry(w, Replaced(w, n).value);
    }
  }

  lemma ProgrammedKeepsOthers(s: State, n: Ref, m: ResvMsg, v: State)
    requires Inv(s) && Completes(s, n, m, true)
    requires v == ProgramForwarding(SetRsb(WithReservation(s, n, m), s.nextRef, Accepted(s, n, m)), s.nextRef, n)
    ensures s.nextRef !in s.rsbs && forall q :: q in s.rsbs ==> q in v.rsbs && v.rsbs[q] == s.rsbs[q]
  {
    hide Inv, ProgramForwarding, HandleResv;
    NewReservation(s, n, m);
    ProgrammingTouchesOne(SetRsb(WithReservation(s, n, m), s.nextRef, Accepted(s, n, m)), s.nextRef, n);
  }

  lemma ProgrammingTouchesOne(s: State, r: Ref, p: Ref)
    requires Shaped(s) && r in s.rsbs && p in s.psbs
    ensures var t := ProgramForwarding(s, r, p);
            && t.rsbs.Keys == s.rsbs.Keys && t.rsbs[r] == s.rsbs[r].(labelIn := t.rsbs[r].labelIn)
            && (s.psbs[p].prevHop == 0 ==> t.rsbs == s.rsbs && t.labels == s.labels)
            && forall q :: q in s.rsbs && q != r ==> t.rsbs[q] == s.rsbs[q]
  {
    hide LP.Alloc;
  }

  lemma ProgrammedSwap(s: State, n: Ref, m: ResvMsg, v: State)
    requires Inv(s) && Completes(s, n, m, true) && s.psbs[n].prevHop != 0
    requires v == ProgramForwarding(SetRsb(WithReservation(s, n, m), s.nextRef, Accepted(s, n, m)), s.nextRef, n)
    ensures s.nextRef in v.rsbs && s.nextRef !in s.rsbs
    ensures var l := v.rsbs[s.nextRef].labelIn;
            && v.fwd == s.fwd[InLabel(l) := Entry(m.labelOut.value, m.hop.value.ifindex, m.hop.value.addr, m.key.dest)]
            && LP.IsLowestFree(s.labels, l) && InLabel(l) !in s.fwd
            && (forall q :: q in s.rsbs ==> q in v.rsbs && v.rsbs[q] == s.rsbs[q])
  {
    NewReservation(s, n, m);
    var u := WithReservation(s, n, m);
    TouchRsb(u, s.nextRef, Accepted(s, n, m));
    GiveLabelKeepsInv(SetRsb(u, s.nextRef, Accepted(s, n, m)), s.nextRef);
  }

  lemma SameEntryTaken(s: State, w: State, n: Ref, o: Ref)
    requires Inv(s) && o in s.psbs && o in w.psbs && o != n
    requires w.psbs[o].assocRsb == s.psbs[o].assocRsb && w.psbs[o].isIngress == s.psbs[o].isIngress
    requires w.psbs[o].key == s.psbs[o].key && forall q :: q in s.rsbs ==> q in w.rsbs && w.rsbs[q] == s.rsbs[q]
    ensures EntryTaken(w, o) == EntryTaken(s, o)
  {
    if s.psbs[o].assocRsb.Some? {
      assert PsbLinked(s, o);
    }
  }

  function WithSwap(s: State, l: nat, m: ResvMsg): map<FwdKey, Entry>
    requires m.hop.Some? && m.labelOut.Some?
  {
    s.fwd[InLabel(l) := Entry(m.labelOut.value, m.hop.value.ifindex, m.hop.value.addr, m.key.dest)]
  }

  function Taken(s: State, torn: Option<Ref>): set<FwdKey>
    requires torn.Some? ==> torn.value in s.psbs
  {
    if torn.Some? then EntryTaken(s, torn.value) else {}
  }

  /**
   * A RESV that completes a replacement in transit installs the replacement's swap entry, under the
   * lowest free label, and takes away at most the entry of the path it tears down.
   */
  lemma CompletionInstallsSwap(s: State, n: Ref, m: ResvMsg)
    requires Inv(s) && Completes(s, n, m, true) && s.psbs[n].prevHop != 0
    ensures var t, r, prior := HandleResv(s, m, true), s.nextRef, Replaced(s, n);
            && r in t.rsbs && LP.IsLowestFree(s.labels, t.rsbs[r].labelIn)
            && (prior.Some? ==> prior.value in s.psbs)
            && InLabel(t.rsbs[r].labelIn) in t.fwd
            && t.fwd == WithSwap(s, t.rsbs[r].labelIn, m) - Taken(s, prior)
  {
    var v := CompletionForwarding(s, n, m);
    ProgrammedSwap(s, n, m, v);
    ReplacedIsAnother(s, n);
    if Replaced(s, n).Some? {
      TakenIsAllocated(s, Replaced(s, n).value);
    }
  }

  lemma CompletionForwarding(s: State, n: Ref, m: ResvMsg) returns (v: State)
    requires Inv(s) && Completes(s, n, m, true)
    ensures v == ProgramForwarding(SetRsb(WithReservation(s, n, m), s.nextRef, Accepted(s, n, m)), s.nextRef, n)
    ensures Replaced(s, n).Some? ==> Replaced(s, n).value in s.psbs
    ensures var t, r := HandleResv(s, m, true), s.nextRef;
            && r in v.rsbs && r in t.rsbs && t.rsbs[r] == v.rsbs[r]
            && t.fwd == if Replaced(s, n).Some? then v.fwd - EntryTaken(s, Replaced(s, n).value) else v.fwd
  {
    var w;
    v, w := BeforeCompletion(s, n, m);
    ProgrammedKeepsOthers(s, n, m, v);
    MbbCompleteEffect(w, n, s.nextRef);
    CompletionTakesEntry(w, n);
    CompletionTakesTheSame(s, n, v, w);
  }

  lemma CompletionTakesTheSame(s: State, n: Ref, v: State, w: State)
    requires Inv(s) && n in s.psbs && s.psbs[n].mbbPending
    requires v.psbs == s.psbs[n := s.psbs[n].(assocRsb := Some(s.nextRef))] && v.psbTable == s.psbTable
    requires (forall q :: q in s.rsbs ==> q in v.rsbs && v.rsbs[q] == s.rsbs[q]) && OnlyAssociations(v, w)
    ensures n in w.psbs && Replaced(w, n) == Replaced(s, n)
    ensures Replaced(s, n).Some? ==>
              var o := Replaced(s, n).value; o in s.psbs && o in w.psbs && EntryTaken(w, o) == EntryTaken(s, o)
  {
    hide Inv, ScanIds, Walk, EntryTaken;
    ReplacedIsAnother(s, n);
    assert SameKeys(s, w);
    ScanSeesKeysOnly(s, w, Walk(s.psbTable), s.psbs[n].key.tunnelId, s.psbs[n].mbbOldLspId);
    if Replaced(s, n).Some? {
      SameEntryTaken(s, w, n, Replaced(s, n).value);
    }
  }

  lemma TakenIsAllocated(s: State, p: Ref)
    requires Inv(s) && p in s.psbs
    ensures forall l :: InLabel(l) in EntryTaken(s, p) ==> l in s.labels.used
  {
    var a := s.psbs[p].assocRsb;
    if a.Some? {
      assert PsbLinked(s, p);
      OwnLabelIsAllocated(s, a.value, 0);
    }
  }

  // ---- a repeated RESV --------------------------------------------------

  /** The path holds the reservation as the RESV describes it, in-label aside. */
  ghost predicate HoldsButLabel(t: State, p: Ref, r: Ref, m: ResvMsg) {
    && m.hop.Some? && m.labelOut.Some? && p in t.psbs && r in t.rsbs
    && t.psbs[p].key == m.key && t.psbs[p].assocRsb == Some(r) && t.rsbs[r].assocPsb == Some(p)
    && SaysAs(t.rsbs[r], m) && t.rsbs[r].refreshArmed == !t.psbs[p].isIngress
    && !Blockaded(t, r)
  }

  ghost predicate SaysAs(v: Rsb, m: ResvMsg)
    requires m.hop.Some? && m.labelOut.Some?
  {
    && (m.refresh.Some? ==> v.refreshMs == m.refresh.value)
    && (m.flowspec.Some? ==> v.flowspec == m.flowspec.value)
    && (m.style.Some? ==> v.style == m.style.value % 256) && v.cleanupArmed
    && v.labelOut == m.labelOut.value && v.nextHop == m.hop.value.addr && v.nextIf == m.hop.value.ifindex
  }

  /** A state in which a RESV has been accepted: there is no in-label to fetch any more, or none to be had. */
  ghost predicate Holds(t: State, p: Ref, r: Ref, m: ResvMsg) {
    && Inv(t) && HoldsButLabel(t, p, r, m)
    && (t.psbs[p].prevHop != 0 && !t.psbs[p].isIngress ==> t.rsbs[r].labelIn != 0 || LP.Full(t.labels))
  }

  /** Once a RESV has been accepted, the same RESV again changes nothing at all. */
  lemma HeldResvIsIdle(t: State, p: Ref, r: Ref, m: ResvMsg)
    requires Holds(t, p, r, m)
    ensures HandleResv(t, m, true) == t
  {
    HandledAfterAbsorbing(t, p, m);
    assert t.rsbs[r := t.rsbs[r]] == t.rsbs;
    assert Absorbed(t, p, m) == t;
    LP.AllocTakesLowest(t.labels);
    var w := t.rsbs[r];
    assert w == w.(cleanupArmed := true, refreshArmed := !t.psbs[p].isIngress,
                   labelOut := m.labelOut.value, nextHop := m.hop.value.addr, nextIf := m.hop.value.ifindex);
  }

  lemma ProgrammedHolds(u: State, r: Ref, p: Ref, m: ResvMsg)
    requires Inv(u) && HoldsButLabel(u, p, r, m)
    ensures Holds(ProgramForwarding(u, r, p), p, r, m)
    ensures u.psbs[p].prevHop != 0 && ProgramForwarding(u, r, p).rsbs[r].labelIn == 0 ==> u.rsbs[r].labelIn == 0 && LP.Full(u.labels)
  {
    ProgramForwardingKeepsInv(u, r, p);
    GiveLabelKeepsInv(u, r);
  }

  lemma AssociatedHolds(v: State, p: Ref, r: Ref, m: ResvMsg, isNew: bool, labelChanged: bool)
    requires Holds(v, p, r, m) && !(isNew && v.psbs[p].mbbPending)
    ensures Holds(AfterForwarding(v, p, isNew, labelChanged), p, r, m)
  {
    AfterForwardingKeepsInv(v, p, isNew, labelChanged);
    AssociationKeepsRest(v, Walk(v.psbTable), v.psbs[p].protectedIf);
  }

  lemma ReprogrammedHolds(u: State, r: Ref, p: Ref, isNew: bool, labelChanged: bool, m: ResvMsg)
    requires Inv(u) && HoldsButLabel(u, p, r, m)
    requires isNew ==> !u.psbs[p].mbbPending && (u.psbs[p].prevHop != 0 ==> u.rsbs[r].labelIn != 0 || !LP.Full(u.labels))
    ensures Holds(Reprogram(u, r, p, isNew, labelChanged), p, r, m)
  {
    ProgrammedHolds(u, r, p, m);
    AssociatedHolds(ProgramForwarding(u, r, p), p, r, m, isNew, labelChanged);
  }

  lemma AbsorbingTwice(v: Rsb, m: ResvMsg, accepted: Rsb)
    requires m.hop.Some? && m.labelOut.Some?
    requires accepted == AbsorbResv(v, m).(cleanupArmed := true, refreshArmed := accepted.refreshArmed,
                           assocPsb := accepted.assocPsb, labelOut := m.labelOut.value, nextHop := m.hop.value.addr, nextIf := m.hop.value.ifindex)
    ensures SaysAs(accepted, m)
  {
  }

  lemma AcceptedSaysSo(s: State, p: Ref, m: ResvMsg)
    requires Admissible(s, p, m) && !BlockadedFor(s, p, m)
    ensures var u, r := Absorbed(s, p, m), ReservationOf(s, p);
            && r in u.rsbs && Inv(SetRsb(u, r, AcceptedFor(s, p, m)))
            && HoldsButLabel(SetRsb(u, r, AcceptedFor(s, p, m)), p, r, m)
  {
    AbsorbedIsSound(s, p, m);
    var u, r := Absorbed(s, p, m), ReservationOf(s, p);
    TouchRsb(u, r, AcceptedFor(s, p, m));
    var was := if s.psbs[p].assocRsb.None? then NewRsb(m.key).(refreshMs := s.psbs[p].refreshMs) else s.rsbs[r];
    AbsorbingTwice(was, m, AcceptedFor(s, p, m));
  }

  lemma UnchangedIsRelabelled(s: State, p: Ref, m: ResvMsg)
    requires Admissible(s, p, m)
    requires var u, r := Absorbed(s, p, m), ReservationOf(s, p);
             && r in u.rsbs && u.rsbs[r].assocPsb == Some(p) && p in u.psbs && u.psbs[p] == s.psbs[p].(assocRsb := Some(r))
             && u.rsbs[r].labelOut == m.labelOut.value && u.rsbs[r].nextHop == m.hop.value.addr
    ensures var u, r := Absorbed(s, p, m), ReservationOf(s, p);
            var v := SetRsb(u, r, AcceptedFor(s, p, m));
            AcceptResv(u, r, false, m) == if s.psbs[p].prevHop != 0 && !s.psbs[p].isIngress then GiveLabel(v, r) else v
  {
  }

  lemma RelabelledHolds(v: State, p: Ref, r: Ref, m: ResvMsg)
    requires Inv(v) && HoldsButLabel(v, p, r, m)
    ensures Holds(if v.psbs[p].prevHop != 0 && !v.psbs[p].isIngress then GiveLabel(v, r) else v, p, r, m)
  {
    GiveLabelKeepsInv(v, r);
  }

  lemma AcceptedHolds(s: State, p: Ref, m: ResvMsg)
    requires Admissible(s, p, m) && !BlockadedFor(s, p, m)
    requires s.psbs[p].assocRsb.None? ==> !s.psbs[p].mbbPending && (s.psbs[p].prevHop != 0 ==> !LP.Full(s.labels))
    ensures Holds(HandleResv(s, m, true), p, ReservationOf(s, p), m)
  {
    AbsorbedIsSound(s, p, m);
    HandledAfterAbsorbing(s, p, m);
    AcceptedSaysSo(s, p, m);
    var u, r, isNew := Absorbed(s, p, m), ReservationOf(s, p), s.psbs[p].assocRsb.None?;
    var v := SetRsb(u, r, AcceptedFor(s, p, m));
    if isNew || u.rsbs[r].labelOut != m.labelOut.value || u.rsbs[r].nextHop != m.hop.value.addr {
      AcceptReprograms(s, p, m);
      ReprogrammedHolds(v, r, p, isNew, m.labelOut.value != u.rsbs[r].labelOut, m);
    } else {
      UnchangedIsRelabelled(s, p, m);
      RelabelledHolds(v, p, r, m);
    }
  }

  lemma CompletionKeepsBlockades(w: State, n: Ref)
    requires Inv(w) && n in w.psbs
    ensures MbbComplete(w, n).bsbs == w.bsbs
  {
    var prior := FindById(w, w.psbs[n].key.tunnelId, w.psbs[n].mbbOldLspId);
    if prior.Some? && prior.value in w.psbs {
      PsbCleanupKeepsInv(w, prior.value);
    }
  }

  lemma AcceptedNewSaysSo(s: State, n: Ref, m: ResvMsg, labelIn: nat)
    requires n in s.psbs && m.hop.Some? && m.labelOut.Some?
    ensures SaysAs(Accepted(s, n, m).(labelIn := labelIn), m)
  {
    AbsorbingTwice(NewRsb(m.key).(refreshMs := s.psbs[n].refreshMs), m, Accepted(s, n, m));
  }

  lemma CompletionHolds(s: State, n: Ref, m: ResvMsg)
    requires Inv(s) && Completes(s, n, m, true)
    ensures Holds(HandleResv(s, m, true), n, s.nextRef, m)
  {
    var v, w := BeforeCompletion(s, n, m);
    MbbCompleteEffect(w, n, s.nextRef);
    MbbCompleteKeepsInv(w, n);
    CompletionKeepsBlockades(w, n);
    AcceptedNewSaysSo(s, n, m, v.rsbs[s.nextRef].labelIn);
  }

  /**
   * Soft-state refresh: whatever a RESV did, whether it completed a replacement, was blockaded or found
   * no label, receiving it again changes nothing, as long as the first one did not have to drop a
   * reservation it had just created.
   */
  lemma RepeatedResvIsIdle(s: State, p: Ref, m: ResvMsg)
    requires Admissible(s, p, m)
    requires s.psbs[p].assocRsb.None? ==>
               !BlockadedFor(s, p, m) && (s.psbs[p].prevHop != 0 ==> !LP.Full(s.labels))
    ensures HandleResv(HandleResv(s, m, true), m, true) == HandleResv(s, m, true)
  {
    AbsorbedIsSound(s, p, m);
    HandledAfterAbsorbing(s, p, m);
    if BlockadedFor(s, p, m) {
      BlockadedTwice(s, p, m);
    } else {
      if s.psbs[p].assocRsb.None? && s.psbs[p].mbbPending {
        NewIsNotBlockaded(s, p, m);
        CompletionHolds(s, p, m);
      } else {
        AcceptedHolds(s, p, m);
      }
      HeldResvIsIdle(HandleResv(s, m, true), p, ReservationOf(s, p), m);
    }
  }

  lemma NewIsNotBlockaded(s: State, p: Ref, m: ResvMsg)
    requires Admissible(s, p, m) && s.psbs[p].assocRsb.None? && !BlockadedFor(s, p, m)
    ensures !WouldBeBlockaded(s, m)
  {
    NewReservation(s, p, m);
  }

  lemma BlockadedTwice(s: State, p: Ref, m: ResvMsg)
    requires Admissible(s, p, m) && s.psbs[p].assocRsb.Some? && BlockadedFor(s, p, m)
    ensures HandleResv(HandleResv(s, m, true), m, true) == HandleResv(s, m, true)
  {
    hide Inv, HandleResv, AcceptResv, DeleteRsb;
    AbsorbedIsSound(s, p, m);
    HandledAfterAbsorbing(s, p, m);
    var r, t := s.psbs[p].assocRsb.value, HandleResv(s, m, true);
    assert t == Absorbed(s, p, m);
    assert AbsorbResv(t.rsbs[r], m) == t.rsbs[r];
    assert t.rsbs[r := t.rsbs[r]] == t.rsbs;
    assert Absorbed(t, p, m) == t;
    HandledAfterAbsorbing(t, p, m);
  }

  // ---- tears ------------------------------------------------------------

  lemma TornTables(s: State, t: State, r: Ref, p: Ref)
    requires Inv(s) && Inv(t) && r in s.rsbs && p in s.psbs && s.rsbs[r].assocPsb == Some(p)
    requires t.rsbs == s.rsbs - {r} && t.psbs == s.psbs[p := s.psbs[p].(assocRsb := None)]
    ensures FindRsb(t, s.rsbs[r].key) == None
    ensures forall q :: q in s.psbs ==>
              t.psbs[q] == if s.psbs[q].key == s.rsbs[r].key then s.psbs[q].(assocRsb := None) else s.psbs[q]
  {
    assert RsbLinked(s, r);
    FindPsbExact(s, s.rsbs[r].key);
    FindRsbExact(s, s.rsbs[r].key);
    FindRsbExact(t, s.rsbs[r].key);
  }

  /** A ResvTear takes the reservation, its label and its entry, and leaves its path and every other entry. */
  lemma ResvTearTakesReservation(s: State, k: Key)
    requires Inv(s) && FindRsb(s, k).Some?
    ensures var t, r := HandleResvTear(s, k), FindRsb(s, k).value;
            && r in s.rsbs && t.rsbs == s.rsbs - {r} && FindRsb(t, k) == None && t.bsbs == s.bsbs - {k}
            && t.labels.used == s.labels.used - {s.rsbs[r].labelIn}
            && t.fwd == (if s.rsbs[r].labelIn != 0 then s.fwd - {InLabel(s.rsbs[r].labelIn)}
                         else if exists p :: p in s.psbs && s.psbs[p].key == k && s.psbs[p].isIngress
                         then s.fwd - {ToDest(k.dest)} else s.fwd)
            && t.psbs.Keys == s.psbs.Keys
            && forall p :: p in s.psbs ==>
                 t.psbs[p] == if s.psbs[p].key == k then s.psbs[p].(assocRsb := None) else s.psbs[p]
  {
    hide TablesOk, NoStaleForwarding, ReplacementsDiffer, FindRsb, Delete, RsbCleanup;
    FindRsbExact(s, k);
    var r := FindRsb(s, k).value;
    RsbCleanupEffect(s, r);
    RsbCleanupKeepsInv(s, r);
    ResvTearKeepsInv(s, k);
    TornTables(s, HandleResvTear(s, k), r, s.rsbs[r].assocPsb.value);
    OwnerIs(s, r, k);
  }

  lemma OwnerIs(s: State, r: Ref, k: Key)
    requires Inv(s) && r in s.rsbs && s.rsbs[r].key == k
    ensures var p := s.rsbs[r].assocPsb.value;
            && s.rsbs[r].assocPsb.Some? && p in s.psbs && s.psbs[p].key == k
            && forall q :: q in s.psbs && s.psbs[q].key == k ==> q == p
  {
    assert RsbLinked(s, r);
    FindPsbExact(s, k);
  }
}
