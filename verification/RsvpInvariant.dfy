// What every reachable state of the daemon satisfies, and why each elementary
// operation keeps it.
module RsvpInvariant {
  import opened Common
  import opened StateDb
  import opened RsvpState
  import LP = LabelPool

  /** Both tables hold the live blocks; keys are unique; references are not reused. */
  ghost predicate TablesOk(s: State) {
    && TableOk(s.psbTable, PsbKeys(s)) && UniqueKeys(PsbKeys(s))
    && TableOk(s.rsbTable, RsbKeys(s)) && UniqueKeys(RsbKeys(s))
    && (forall p :: p in s.psbs ==> p < s.nextRef)
    && (forall r :: r in s.rsbs ==> r < s.nextRef)
  }

  /** An RSB and its PSB have the same key and point to each other; no pointer dangles. */
  ghost predicate Mutual(s: State) {
    && (forall r :: r in s.rsbs ==> RsbLinked(s, r))
    && (forall p :: p in s.psbs && s.psbs[p].assocRsb.Some? ==> PsbLinked(s, p))
  }

  ghost predicate RsbLinked(s: State, r: Ref)
    requires r in s.rsbs
  {
    var a := s.rsbs[r].assocPsb;
    a.Some? && a.value in s.psbs && s.psbs[a.value].key == s.rsbs[r].key && s.psbs[a.value].assocRsb == Some(r)
  }

  ghost predicate PsbLinked(s: State, p: Ref)
    requires p in s.psbs && s.psbs[p].assocRsb.Some?
  {
    var a := s.psbs[p].assocRsb;
    a.value in s.rsbs && s.rsbs[a.value].assocPsb == Some(p)
  }

  /** The in-labels held by RSBs. */
  ghost function LabelsHeld(s: State): set<nat> {
    set r | r in s.rsbs && s.rsbs[r].labelIn != 0 :: s.rsbs[r].labelIn
  }

  /** The allocated labels are exactly those held by RSBs, and no two RSBs hold the same one. */
  ghost predicate LabelsConserved(s: State) {
    && LP.Valid(s.labels)
    && s.labels.used == LabelsHeld(s)
    && (forall r, q :: r in s.rsbs && q in s.rsbs && s.rsbs[r].labelIn == s.rsbs[q].labelIn != 0 ==> r == q)
  }

  /** Every labelled forwarding entry belongs to an allocated label. */
  ghost predicate NoStaleForwarding(s: State) {
    forall k :: k in s.fwd && k.InLabel? ==> k.l in s.labels.used
  }

  /** A replacement path never has the LSP id of the path it replaces. */
  ghost predicate ReplacementsDiffer(s: State) {
    forall p :: p in s.psbs ==> ReplacementDiffers(s.psbs[p])
  }

  ghost predicate ReplacementDiffers(v: Psb) {
    v.mbbPending ==> v.mbbOldLspId != v.key.lspId
  }

  ghost predicate Inv(s: State)
    ensures Inv(s) ==> Shaped(s)
  {
    TablesOk(s) && Mutual(s) && LabelsConserved(s) && NoStaleForwarding(s) && ReplacementsDiffer(s)
  }

  // ---- lookup under the invariant --------------------------------------

  lemma FindPsbExact(s: State, k: Key)
    requires Inv(s)
    ensures match FindPsb(s, k)
            case Some(p) => p in s.psbs && s.psbs[p].key == k
            case None => forall p :: p in s.psbs ==> s.psbs[p].key != k
    ensures forall p :: p in s.psbs && s.psbs[p].key == k ==> FindPsb(s, k) == Some(p)
  {
    FindAgrees(s.psbTable, PsbKeys(s), k);
    forall p | p in s.psbs
      ensures p in PsbKeys(s) && PsbKeys(s)[p] == s.psbs[p].key
    {
    }
  }

  lemma FindRsbExact(s: State, k: Key)
    requires Inv(s)
    ensures match FindRsb(s, k)
            case Some(r) => r in s.rsbs && s.rsbs[r].key == k
            case None => forall r :: r in s.rsbs ==> s.rsbs[r].key != k
    ensures forall r :: r in s.rsbs && s.rsbs[r].key == k ==> FindRsb(s, k) == Some(r)
  {
    FindAgrees(s.rsbTable, RsbKeys(s), k);
    forall r | r in s.rsbs
      ensures r in RsbKeys(s) && RsbKeys(s)[r] == s.rsbs[r].key
    {
    }
  }

  /** The RSB found under a PSB's key is the one the PSB points to. */
  lemma RsbOfPsb(s: State, p: Ref)
    requires Inv(s) && p in s.psbs
    ensures FindRsb(s, s.psbs[p].key) == s.psbs[p].assocRsb
  {
    FindRsbExact(s, s.psbs[p].key);
    var f := FindRsb(s, s.psbs[p].key);
    if f.Some? {
      assert RsbLinked(s, f.value);
      var q := s.rsbs[f.value].assocPsb.value;
      assert PsbKeys(s)[q] == PsbKeys(s)[p];
    }
    if s.psbs[p].assocRsb.Some? {
      assert PsbLinked(s, p);
      assert RsbLinked(s, s.psbs[p].assocRsb.value);
    }
  }

  // ---- elementary operations -------------------------------------------

  /** Changing fields of a PSB other than its key and its RSB. */
  lemma TouchPsb(s: State, p: Ref, v: Psb)
    requires Inv(s) && p in s.psbs
    requires v.key == s.psbs[p].key && v.assocRsb == s.psbs[p].assocRsb && ReplacementDiffers(v)
    ensures Inv(SetPsb(s, p, v))
  {
    var t := SetPsb(s, p, v);
    KeysStay(s, t);
    RsbKeysStay(s, t);
    SameLabels(s, t);
    forall r | r in t.rsbs ensures RsbLinked(t, r) { assert RsbLinked(s, r); }
    forall q | q in t.psbs && t.psbs[q].assocRsb.Some? ensures PsbLinked(t, q) { assert PsbLinked(s, q); }
  }

  /** Changing fields of an RSB other than its key, its PSB and its in-label. */
  lemma TouchRsb(s: State, r: Ref, v: Rsb)
    requires Inv(s) && r in s.rsbs
    requires v.key == s.rsbs[r].key && v.assocPsb == s.rsbs[r].assocPsb && v.labelIn == s.rsbs[r].labelIn
    ensures Inv(SetRsb(s, r, v))
  {
    var t := SetRsb(s, r, v);
    KeysStay(s, t);
    RsbKeysStay(s, t);
    SameLabels(s, t);
    forall q | q in t.rsbs ensures RsbLinked(t, q) { assert RsbLinked(s, q); }
    forall q | q in t.psbs && t.psbs[q].assocRsb.Some? ensures PsbLinked(t, q) { assert PsbLinked(s, q); }
  }

  lemma SameLabels(s: State, t: State)
    requires s.rsbs.Keys == t.rsbs.Keys
    requires forall r :: r in s.rsbs ==> s.rsbs[r].labelIn == t.rsbs[r].labelIn
    ensures LabelsHeld(s) == LabelsHeld(t)
  {
    forall l | l in LabelsHeld(s)
      ensures l in LabelsHeld(t)
    {
      var r :| r in s.rsbs && s.rsbs[r].labelIn != 0 && s.rsbs[r].labelIn == l;
      assert t.rsbs[r].labelIn == l;
    }
    forall l | l in LabelsHeld(t)
      ensures l in LabelsHeld(s)
    {
      var r :| r in t.rsbs && t.rsbs[r].labelIn != 0 && t.rsbs[r].labelIn == l;
      assert s.rsbs[r].labelIn == l;
    }
  }

  /** Creating a PSB after a failed lookup. */
  lemma AddPsbKeepsInv(s: State, v: Psb)
    requires Inv(s) && FindPsb(s, v.key) == None && v.assocRsb == None && ReplacementDiffers(v)
    ensures Inv(AddPsb(s, v))
  {
    var t := AddPsb(s, v);
    InsertKeepsTable(s.psbTable, PsbKeys(s), s.nextRef, v.key);
    PsbKeysGrow(s, t, s.nextRef, v);
    SameLabels(s, t);
    forall r | r in t.rsbs ensures RsbLinked(t, r) { assert RsbLinked(s, r); }
    forall q | q in t.psbs && t.psbs[q].assocRsb.Some? ensures PsbLinked(t, q) { assert PsbLinked(s, q); }
  }

  lemma KeysStay(s: State, t: State)
    requires s.psbs.Keys == t.psbs.Keys && forall p :: p in s.psbs ==> t.psbs[p].key == s.psbs[p].key
    ensures PsbKeys(t) == PsbKeys(s)
  {
  }

  lemma RsbKeysStay(s: State, t: State)
    requires s.rsbs.Keys == t.rsbs.Keys && forall r :: r in s.rsbs ==> t.rsbs[r].key == s.rsbs[r].key
    ensures RsbKeys(t) == RsbKeys(s)
  {
  }

  lemma PsbKeysGrow(s: State, t: State, p: Ref, v: Psb)
    requires t.psbs == s.psbs[p := v] && t.rsbs == s.rsbs
    ensures PsbKeys(t) == PsbKeys(s)[p := v.key] && RsbKeys(t) == RsbKeys(s)
  {
  }

  lemma RsbKeysGrow(s: State, t: State, r: Ref, v: Rsb)
    requires t.rsbs == s.rsbs[r := v]
    ensures RsbKeys(t) == RsbKeys(s)[r := v.key]
  {
  }

  lemma AddRsbTables(s: State, p: Ref, v: Rsb)
    requires Inv(s) && p in s.psbs && s.psbs[p].assocRsb == None && v.key == s.psbs[p].key
    ensures TablesOk(AddRsbFor(s, p, v)) && s.nextRef !in s.rsbs
  {
    var t := AddRsbFor(s, p, v);
    RsbOfPsb(s, p);
    InsertKeepsTable(s.rsbTable, RsbKeys(s), s.nextRef, v.key);
    KeysStay(s, t);
    RsbKeysGrow(s, t, s.nextRef, v.(assocPsb := Some(p)));
  }

  lemma AddRsbLinks(s: State, p: Ref, v: Rsb)
    requires Shaped(s) && Mutual(s) && p in s.psbs && s.psbs[p].assocRsb == None && v.key == s.psbs[p].key
    requires s.nextRef !in s.rsbs
    ensures Mutual(AddRsbFor(s, p, v))
  {
    var t, r := AddRsbFor(s, p, v), s.nextRef;
    forall q | q in t.rsbs ensures RsbLinked(t, q) { if q != r { assert RsbLinked(s, q); } }
    forall q | q in t.psbs && t.psbs[q].assocRsb.Some? ensures PsbLinked(t, q) { if q != p { assert PsbLinked(s, q); } }
  }

  lemma UnlabelledRsbAdded(s: State, r: Ref, v: Rsb, t: State)
    requires r !in s.rsbs && v.labelIn == 0 && t.rsbs == s.rsbs[r := v]
    ensures LabelsHeld(t) == LabelsHeld(s)
  {
    forall l | l in LabelsHeld(s)
      ensures l in LabelsHeld(t)
    {
      var q :| q in s.rsbs && s.rsbs[q].labelIn != 0 && s.rsbs[q].labelIn == l;
      assert t.rsbs[q] == s.rsbs[q];
    }
  }

  /** Creating the RSB of a PSB that has none. */
  lemma AddRsbKeepsInv(s: State, p: Ref, v: Rsb)
    requires Inv(s) && p in s.psbs && s.psbs[p].assocRsb == None
    requires v.key == s.psbs[p].key && v.labelIn == 0
    ensures Inv(AddRsbFor(s, p, v))
  {
    AddRsbTables(s, p, v);
    AddRsbLinks(s, p, v);
    UnlabelledRsbAdded(s, s.nextRef, v.(assocPsb := Some(p)), AddRsbFor(s, p, v));
  }

  /** A change of one in-label leaves tables and pointers alone. */
  lemma RelabelKeepsTables(s: State, t: State, r: Ref, l: nat)
    requires Inv(s) && r in s.rsbs
    requires t == s.(labels := t.labels, rsbs := s.rsbs[r := s.rsbs[r].(labelIn := l)])
    ensures TablesOk(t) && Mutual(t)
  {
    assert PsbKeys(t) == PsbKeys(s) && RsbKeys(t) == RsbKeys(s);
    forall q | q in t.rsbs ensures RsbLinked(t, q) { assert RsbLinked(s, q); }
    forall q | q in t.psbs && t.psbs[q].assocRsb.Some? ensures PsbLinked(t, q) { assert PsbLinked(s, q); }
  }

  /** A label handed to an RSB is not held by another one and has no forwarding entry. */
  lemma GiveLabelKeepsInv(s: State, r: Ref)
    requires Inv(s) && r in s.rsbs
    ensures Inv(GiveLabel(s, r))
    ensures var t := GiveLabel(s, r);
            && t == s.(labels := t.labels, rsbs := s.rsbs[r := s.rsbs[r].(labelIn := t.rsbs[r].labelIn)])
            && (s.rsbs[r].labelIn != 0 ==> t == s)
            && (s.rsbs[r].labelIn == 0 && t.rsbs[r].labelIn != 0 ==>
                  && LP.IsLowestFree(s.labels, t.rsbs[r].labelIn)
                  && InLabel(t.rsbs[r].labelIn) !in s.fwd)
            && (t.rsbs[r].labelIn == 0 ==> t == s && LP.Full(s.labels))
  {
    var t := GiveLabel(s, r);
    LP.AllocTakesLowest(s.labels);
    assert s.rsbs[r := s.rsbs[r]] == s.rsbs;
    var l := t.rsbs[r].labelIn;
    if s.rsbs[r].labelIn == 0 && l != 0 {
      LabelGiven(s, t, r, l);
    }
  }

  lemma LabelGiven(s: State, t: State, r: Ref, l: nat)
    requires Inv(s) && r in s.rsbs && s.rsbs[r].labelIn == 0 && l != 0
    requires t == s.(labels := t.labels, rsbs := s.rsbs[r := s.rsbs[r].(labelIn := l)])
    requires LP.Valid(t.labels) && l !in s.labels.used && t.labels.used == s.labels.used + {l}
    ensures Inv(t)
  {
    RelabelKeepsTables(s, t, r, l);
    LabelAdded(s, t, r, l);
    forall q | q in s.rsbs && s.rsbs[q].labelIn != 0
      ensures s.rsbs[q].labelIn in s.labels.used
    {
      assert s.rsbs[q].labelIn in LabelsHeld(s);
    }
  }

  lemma LabelAdded(s: State, t: State, r: Ref, l: nat)
    requires r in s.rsbs && s.rsbs[r].labelIn == 0 && l != 0
    requires t.rsbs == s.rsbs[r := s.rsbs[r].(labelIn := l)]
    ensures LabelsHeld(t) == LabelsHeld(s) + {l}
  {
    assert t.rsbs[r].labelIn == l;
    forall m | m in LabelsHeld(s)
      ensures m in LabelsHeld(t)
    {
      var q :| q in s.rsbs && s.rsbs[q].labelIn != 0 && s.rsbs[q].labelIn == m;
      assert t.rsbs[q].labelIn == m;
    }
  }

  lemma InstallKeepsInv(s: State, k: FwdKey, e: Entry)
    requires Inv(s) && (k.InLabel? ==> k.l in s.labels.used)
    ensures Inv(Install(s, k, e))
  {
    var t := Install(s, k, e);
    assert PsbKeys(t) == PsbKeys(s) && RsbKeys(t) == RsbKeys(s) && LabelsHeld(t) == LabelsHeld(s);
    forall r | r in t.rsbs ensures RsbLinked(t, r) { assert RsbLinked(s, r); }
    forall q | q in t.psbs && t.psbs[q].assocRsb.Some? ensures PsbLinked(t, q) { assert PsbLinked(s, q); }
  }

  /** The key of an RSB's entry is its destination or a label that is allocated. */
  lemma OwnLabelIsAllocated(s: State, r: Ref, dest: Addr)
    requires Inv(s) && r in s.rsbs
    ensures var k := FwdKeyFor(s.rsbs[r].labelIn, dest); k.InLabel? ==> k.l in s.labels.used
  {
    if s.rsbs[r].labelIn != 0 {
      assert s.rsbs[r].labelIn in LabelsHeld(s);
    }
  }

  // ---- removal ----------------------------------------------------------

  lemma LabelTaken(s: State, t: State, r: Ref)
    requires LabelsConserved(s) && r in s.rsbs && t.rsbs == s.rsbs - {r}
    ensures LabelsHeld(t) == LabelsHeld(s) - {s.rsbs[r].labelIn}
  {
    forall l | l in LabelsHeld(s) && l != s.rsbs[r].labelIn
      ensures l in LabelsHeld(t)
    {
      var q :| q in s.rsbs && s.rsbs[q].labelIn != 0 && s.rsbs[q].labelIn == l;
      assert t.rsbs[q] == s.rsbs[q];
    }
  }

  /** What cleaning up an RSB does, field by field. */
  lemma RsbCleanupEffect(s: State, r: Ref)
    requires Inv(s) && r in s.rsbs
    ensures var v := s.rsbs[r];
            var p := v.assocPsb.value;
            var t := RsbCleanup(s, r);
            && v.assocPsb.Some? && p in s.psbs
            && t == s.(rsbs := s.rsbs - {r}, rsbTable := Delete(s.rsbTable, r, v.key),
                       psbs := s.psbs[p := s.psbs[p].(assocRsb := None)],
                       labels := if v.labelIn != 0 then LP.Release(s.labels, v.labelIn) else s.labels,
                       fwd := if v.labelIn != 0 then s.fwd - {InLabel(v.labelIn)}
                              else if s.psbs[p].isIngress then s.fwd - {ToDest(v.key.dest)} else s.fwd)
  {
    assert RsbLinked(s, r);
    var u := ReleaseResources(s, r);
    assert u.rsbs - {r} == s.rsbs - {r};
  }

  lemma RsbRemovedTables(s: State, r: Ref, p: Ref, t: State)
    requires TablesOk(s) && r in s.rsbs && p in s.psbs
    requires t.rsbs == s.rsbs - {r} && t.rsbTable == Delete(s.rsbTable, r, s.rsbs[r].key)
    requires t.psbs == s.psbs[p := s.psbs[p].(assocRsb := None)] && t.psbTable == s.psbTable && t.nextRef == s.nextRef
    ensures TablesOk(t)
  {
    DeleteKeepsTable(s.rsbTable, RsbKeys(s), r);
    assert RsbKeys(t) == RsbKeys(s) - {r} && PsbKeys(t) == PsbKeys(s);
  }

  lemma RsbRemovedLinks(s: State, r: Ref, p: Ref, t: State)
    requires Mutual(s) && r in s.rsbs && p in s.psbs && s.rsbs[r].assocPsb == Some(p)
    requires t.rsbs == s.rsbs - {r} && t.psbs == s.psbs[p := s.psbs[p].(assocRsb := None)]
    ensures Mutual(t)
  {
    assert RsbLinked(s, r);
    forall q | q in t.rsbs ensures RsbLinked(t, q) { assert RsbLinked(s, q); }
    forall q | q in t.psbs && t.psbs[q].assocRsb.Some? ensures PsbLinked(t, q) { assert PsbLinked(s, q); }
  }

  /** Cleaning up an RSB gives its label back and removes its forwarding entry. */
  lemma RsbCleanupKeepsInv(s: State, r: Ref)
    requires Inv(s) && r in s.rsbs
    ensures Inv(RsbCleanup(s, r))
    ensures RsbCleanup(s, r).labels.used == s.labels.used - {s.rsbs[r].labelIn}
  {
    var l := s.rsbs[r].labelIn;
    RsbCleanupEffect(s, r);
    var t, p := RsbCleanup(s, r), s.rsbs[r].assocPsb.value;
    RsbRemovedTables(s, r, p, t);
    RsbRemovedLinks(s, r, p, t);
    LabelTaken(s, t, r);
    LP.ReleaseKeepsHint(s.labels, l);
    assert 0 !in s.labels.used;
  }

  /** Freeing a PSB that has no RSB. */
  lemma DeletePsbKeepsInv(s: State, p: Ref)
    requires Inv(s) && p in s.psbs && s.psbs[p].assocRsb == None
    ensures Inv(DeletePsb(s, p))
    ensures DeletePsb(s, p) == s.(psbs := s.psbs - {p}, psbTable := Delete(s.psbTable, p, s.psbs[p].key))
  {
    var t := DeletePsb(s, p);
    DeleteKeepsTable(s.psbTable, PsbKeys(s), p);
    assert PsbKeys(t) == PsbKeys(s) - {p} && RsbKeys(t) == RsbKeys(s);
    assert LabelsHeld(t) == LabelsHeld(s);
    forall q | q in t.rsbs ensures RsbLinked(t, q) { assert RsbLinked(s, q); }
    forall q | q in t.psbs && t.psbs[q].assocRsb.Some? ensures PsbLinked(t, q) { assert PsbLinked(s, q); }
  }

  /** What cleaning up a PSB does: it and its RSB are gone, everything else stays. */
  lemma PsbCleanupKeepsInv(s: State, p: Ref)
    requires Inv(s) && p in s.psbs
    ensures var t := PsbCleanup(s, p);
            var a := s.psbs[p].assocRsb;
            && Inv(t)
            && t.psbs == s.psbs - {p} && t.psbTable == Delete(s.psbTable, p, s.psbs[p].key)
            && t.rsbs == (if a.Some? then s.rsbs - {a.value} else s.rsbs)
            && t.labels.used == s.labels.used - (if a.Some? then {s.rsbs[a.value].labelIn} else {})
            && t.bsbs == s.bsbs && t.nextRef == s.nextRef && t.nextLspId == s.nextLspId
            && (forall k :: k in t.fwd ==> k in s.fwd && t.fwd[k] == s.fwd[k])
  {
    var a := s.psbs[p].assocRsb;
    if a.Some? {
      assert PsbLinked(s, p);
      RsbCleanupEffect(s, a.value);
      RsbCleanupKeepsInv(s, a.value);
      RsbThenPsb(s, p, RsbCleanup(s, a.value));
    } else {
      DeletePsbKeepsInv(s, p);
    }
  }

  lemma RsbThenPsb(s: State, p: Ref, u: State)
    requires Inv(u) && p in s.psbs && u.psbs == s.psbs[p := s.psbs[p].(assocRsb := None)]
    ensures Inv(DeletePsb(u, p))
    ensures DeletePsb(u, p) == u.(psbs := s.psbs - {p}, psbTable := Delete(u.psbTable, p, s.psbs[p].key))
  {
    DeletePsbKeepsInv(u, p);
    assert u.psbs - {p} == s.psbs - {p};
  }
}
