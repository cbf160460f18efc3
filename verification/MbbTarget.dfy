// Make-before-break: the path that a completion tears down, and when it is the incumbent.
module MbbTarget {
  import opened Common
  import opened StateDb
  import opened RsvpState
  import opened RsvpSteps
  import opened RsvpInvariant
  import opened RsvpRuns
  import opened MbbSafety
  import LP = LabelPool

  lemma {:induction false} FirstInScan(s: State, walk: seq<Ref>, o: Ref, tunnelId: nat, lspId: nat)
    requires Distinct(walk) && o in walk && HasIds(s, o, tunnelId, lspId)
    ensures FirstWithIds(s, walk, tunnelId, lspId) == Some(o) <==>
            forall p :: HasIds(s, p, tunnelId, lspId) ==> !Before(walk, p, o)
    decreases |walk|
  {
    var rest := walk[1..];
    if walk[0] == o {
      assert forall j :: 0 < j < |walk| ==> walk[j] != o;
    } else if HasIds(s, walk[0], tunnelId, lspId) {
      var j :| 0 <= j < |walk| && walk[j] == o;
      assert Before(walk, walk[0], o);
    } else {
      FirstInScan(s, rest, o, tunnelId, lspId);
      forall p | HasIds(s, p, tunnelId, lspId)
        ensures Before(walk, p, o) <==> Before(rest, p, o)
      {
        if i, j :| 0 <= i < j < |rest| && rest[i] == p && rest[j] == o {
          assert walk[i + 1] == p && walk[j + 1] == o;
        }
        if i, j :| 0 <= i < j < |walk| && walk[i] == p && walk[j] == o {
          assert rest[i - 1] == p && rest[j - 1] == o;
        }
      }
    }
  }

  /**
   * The incumbent is the path that a completion tears down if and only if no path of any
   * session with the same tunnel and LSP ids comes before it in the table.
   */
  lemma IncumbentIsReplacedIff(s: State, n: Ref, o: Ref)
    requires Inv(s) && n in s.psbs && o in s.psbs
    requires s.psbs[o].key == s.psbs[n].key.(lspId := s.psbs[n].mbbOldLspId)
    ensures Replaced(s, n) == Some(o) <==>
            forall p :: HasIds(s, p, s.psbs[o].key.tunnelId, s.psbs[o].key.lspId) ==> !Before(Walk(s.psbTable), p, o)
  {
    WalkVisitsEachOnce(s.psbTable, PsbKeys(s));
    assert o in PsbKeys(s);
    FirstInScan(s, Walk(s.psbTable), o, s.psbs[n].key.tunnelId, s.psbs[n].mbbOldLspId);
  }

  /**
   * The step that completes a replacement tears down the incumbent if and only if no path of any
   * session with the same tunnel and LSP ids comes before it in the table.
   */
  lemma CompletionRemovesIncumbentIff(s: State, n: Ref, m: ResvMsg, o: Ref)
    requires Inv(s) && Completes(s, n, m, true) && o in s.psbs
    requires s.psbs[o].key == s.psbs[n].key.(lspId := s.psbs[n].mbbOldLspId)
    ensures o !in HandleResv(s, m, true).psbs <==>
            forall p :: HasIds(s, p, s.psbs[o].key.tunnelId, s.psbs[o].key.lspId) ==> !Before(Walk(s.psbTable), p, o)
  {
    CompletionStep(s, n, m);
    IncumbentIsReplacedIff(s, n, o);
  }

  // ---- the target at the start -----------------------------------------

  lemma {:induction false} ScanSkips(s: State, a: seq<Ref>, n: Ref, b: seq<Ref>, tunnelId: nat, lspId: nat)
    requires !HasIds(s, n, tunnelId, lspId)
    ensures FirstWithIds(s, a + [n] + b, tunnelId, lspId) == FirstWithIds(s, a + b, tunnelId, lspId)
    decreases |a|
  {
    if a == [] {
      assert ([n] + b)[1..] == b && a + [n] + b == [n] + b && a + b == b;
    } else {
      ScanSkips(s, a[1..], n, b, tunnelId, lspId);
      assert (a + [n] + b)[1..] == a[1..] + [n] + b && (a + b)[1..] == a[1..] + b;
    }
  }

  lemma {:induction false} ScanSeesMembersOnly(s: State, t: State, walk: seq<Ref>, tunnelId: nat, lspId: nat)
    requires forall p :: p in walk ==> HasIds(s, p, tunnelId, lspId) == HasIds(t, p, tunnelId, lspId)
    ensures FirstWithIds(s, walk, tunnelId, lspId) == FirstWithIds(t, walk, tunnelId, lspId)
    decreases |walk|
  {
    if walk != [] {
      assert HasIds(s, walk[0], tunnelId, lspId) == HasIds(t, walk[0], tunnelId, lspId);
      ScanSeesMembersOnly(s, t, walk[1..], tunnelId, lspId);
    }
  }

  /** A new path with other ids does not change what a scan by ids finds. */
  lemma NewPathIsSkipped(s: State, t: State, v: Psb, tunnelId: nat, lspId: nat)
    requires Inv(s) && v.key.lspId != lspId
    requires t.psbTable == Insert(s.psbTable, s.nextRef, v.key) && t.psbs == s.psbs[s.nextRef := v]
    ensures FindById(t, tunnelId, lspId) == FindById(s, tunnelId, lspId)
  {
    hide LabelsConserved, NoStaleForwarding, Mutual, ReplacementsDiffer, ScanIds, Walk, Insert, Hash;
    var n, h := s.nextRef, Hash(v.key);
    var a, b := Walk(s.psbTable[..h]), s.psbTable[h] + Walk(s.psbTable[h + 1..]);
    WalkOfInsert(s.psbTable, n, v.key);
    assert Walk(s.psbTable) == a + b;
    assert Walk(t.psbTable) == a + [n] + b;
    ScanSkips(t, a, n, b, tunnelId, lspId);
    WalkVisitsEachOnce(s.psbTable, PsbKeys(s));
    forall p | p in a + b
      ensures HasIds(s, p, tunnelId, lspId) == HasIds(t, p, tunnelId, lspId)
    {
      assert p in PsbKeys(s);
    }
    ScanSeesMembersOnly(s, t, a + b, tunnelId, lspId);
  }

  /** Starting a replacement leaves the incumbent as it is and records it as the path to tear down. */
  lemma ReplacementTargetsIncumbent(s: State, tunnelId: nat, oldLspId: nat, newLspId: nat, route: int)
    requires Inv(s)
    ensures var t, n, prior := MbbStart(s, tunnelId, oldLspId, newLspId, true, route), s.nextRef, FindById(s, tunnelId, oldLspId);
            n in t.psbs ==>
              && prior.Some? && prior.value in s.psbs && prior.value in t.psbs && t.psbs[prior.value] == s.psbs[prior.value]
              && t.psbs[n].mbbPending && t.psbs[n].key == s.psbs[prior.value].key.(lspId := newLspId)
              && Replaced(t, n) == prior
  {
    var t, n, prior := MbbStart(s, tunnelId, oldLspId, newLspId, true, route), s.nextRef, FindById(s, tunnelId, oldLspId);
    FirstWithIdsHas(s, Walk(s.psbTable), tunnelId, oldLspId);
    if n in t.psbs {
      FindPsbExact(s, s.psbs[prior.value].key.(lspId := newLspId));
      assert newLspId != oldLspId;
      NewPathIsSkipped(s, t, t.psbs[n], tunnelId, oldLspId);
    }
  }

  // ---- a run that tears down a path of another session -----------------

  const OWN_LSP := Key(10, 0, 1, 1, 1, 0, 1)
  const OWN_REPLACEMENT := Key(10, 0, 1, 1, 1, 0, 2)
  const FOREIGN_LSP := Key(10, 0, 1, 1025, 1025, 0, 1)

  /** An LSP starts here, its replacement too, and another node's LSP with the same ids passes through. */
  const SETUP: seq<Event> := [
    PathRequested(1, 10, 1, false, true, 2),
    MbbRequested(1, 1, 2, true, 2),
    PathArrives(PathMsg(FOREIGN_LSP, Some(HopInfo(7, 3)), true, true, None, NoRequest),
                PathEnv(true, true, false, false, 2, 2))]

  const FIRST_RESV := ResvMsg(OWN_REPLACEMENT, Some(HopInfo(9, 2)), Some(77), None, None, None)

  lemma SetupOwn(s: State)
    requires s == Initial(1000, 20000)
    ensures var t := Step(s, SETUP[0]);
            && Inv(t) && t.nextRef == 1 && t.bsbs == map[]
            && t.psbs.Keys == {0} && t.psbs[0].key == OWN_LSP && t.psbs[0].isIngress && !t.psbs[0].mbbPending
  {
    InitialInv(1000, 20000);
    StepKeepsInv(s, SETUP[0]);
    var u := BumpLspId(s);
    SideFieldsKeepInv(s, u);
    FindPsbExact(u, OWN_LSP);
  }

  lemma SetupReplacement(s: State)
    requires Inv(s) && s.nextRef == 1 && s.bsbs == map[]
    requires s.psbs.Keys == {0} && s.psbs[0].key == OWN_LSP && s.psbs[0].isIngress && !s.psbs[0].mbbPending
    ensures var t := Step(s, SETUP[1]);
            && Inv(t) && t.nextRef == 2 && t.bsbs == map[]
            && t.psbs.Keys == {0, 1} && t.psbs[0] == s.psbs[0] && t.psbs[1].key == OWN_REPLACEMENT
            && t.psbs[1].mbbPending && t.psbs[1].mbbOldLspId == 1
            && t.psbs[1].assocRsb == None && t.psbs[1].prevHop == 0
  {
    hide LabelsConserved, NoStaleForwarding, Mutual, ReplacementsDiffer, HandlePath, HandleResv, Trigger, Revert, PsbCleanup;
    StepKeepsInv(s, SETUP[1]);
    WalkVisitsEachOnce(s.psbTable, PsbKeys(s));
    assert 0 in PsbKeys(s) && HasIds(s, 0, 1, 1);
    FirstWithIdsHas(s, Walk(s.psbTable), 1, 1);
    FindPsbExact(s, OWN_REPLACEMENT);
  }

  lemma SetupForeign(s: State)
    requires Inv(s) && s.nextRef == 2 && s.bsbs == map[]
    requires s.psbs.Keys == {0, 1} && s.psbs[0].key == OWN_LSP && s.psbs[1].key == OWN_REPLACEMENT
    ensures var t := Step(s, SETUP[2]);
            && Inv(t) && t.bsbs == map[]
            && t.psbs.Keys == {0, 1, 2} && t.psbs[0] == s.psbs[0] && t.psbs[1] == s.psbs[1]
            && t.psbs[2].key == FOREIGN_LSP
            && t.psbTable == Insert(s.psbTable, 2, FOREIGN_LSP)
  {
    hide Inv, HandleResv, Trigger, Revert, PsbCleanup, RsbCleanup, FindPsb;
    StepKeepsInv(s, SETUP[2]);
    FindPsbExact(s, FOREIGN_LSP);
  }

  /** A block put into a bucket comes before the blocks that were there. */
  lemma NewerComesFirst(t: Table, r: Ref, k: Key, q: Ref)
    requires |t| == HASH_SIZE && q in t[Hash(k)]
    ensures Before(Walk(Insert(t, r, k)), r, q)
  {
    WalkOfInsert(t, r, k);
    var h := Hash(k);
    var a, c := Walk(t[..h]), t[h];
    var j :| 0 <= j < |c| && c[j] == q;
    var walk := a + ([r] + c) + Walk(t[h + 1..]);
    assert walk[|a|] == r && walk[|a| + 1 + j] == q;
  }

  /** The hash of a key whose sums stay below 32 bits. */
  lemma SmallHash(k: Key, h: nat)
    requires k.tunnelId == 1 && k.lspId == 1
    requires h == (((k.dest * 31 + 256) * 31 + k.extTunnelId) * 31 + k.src) * 31 + 256 < UINT32
    ensures Hash(k) == h % 1024
  {
    assert Htons(1) == 256;
    assert k.dest % UINT32 == k.dest;
    assert (k.dest * 31 + 256) % UINT32 == k.dest * 31 + 256;
  }

  lemma SameBucket()
    ensures Hash(OWN_LSP) == Hash(FOREIGN_LSP)
  {
    SmallHash(OWN_LSP, 16862954);
    SmallHash(FOREIGN_LSP, 17878762);
  }

  /** A path with the incumbent's ids that arrives in the incumbent's bucket takes its place as the target. */
  lemma NewcomerIsFound(s: State, t: State, n: Ref, o: Ref, x: Ref, k: Key)
    requires Inv(s) && Inv(t) && o in s.psbs && Hash(s.psbs[o].key) == Hash(k)
    requires t.psbTable == Insert(s.psbTable, x, k) && o in t.psbs && n in t.psbs && x in t.psbs
    requires t.psbs[o].key == s.psbs[o].key && t.psbs[x].key == k
    requires t.psbs[o].key == t.psbs[n].key.(lspId := t.psbs[n].mbbOldLspId)
    requires k.tunnelId == t.psbs[o].key.tunnelId && k.lspId == t.psbs[o].key.lspId
    ensures Replaced(t, n).Some? && HasIds(t, Replaced(t, n).value, k.tunnelId, k.lspId) && Replaced(t, n) != Some(o)
  {
    assert o in PsbKeys(s);
    NewerComesFirst(s.psbTable, x, k, o);
    IncumbentIsReplacedIff(t, n, o);
    assert HasIds(t, x, k.tunnelId, k.lspId);
    WalkVisitsEachOnce(t.psbTable, PsbKeys(t));
    assert x in PsbKeys(t);
    FirstWithIdsHas(t, Walk(t.psbTable), k.tunnelId, k.lspId);
  }

  lemma AfterFirst(s: State, e: Event, rest: seq<Event>)
    requires Shaped(s)
    ensures After(s, [e] + rest) == After(Step(s, e), rest)
  {
    assert ([e] + rest)[1..] == rest;
  }

  lemma RunOfThree(s: State, a: Event, b: Event, c: Event, rest: seq<Event>)
    requires Shaped(s)
    ensures After(s, [a, b, c] + rest) == After(Step(Step(Step(s, a), b), c), rest)
  {
    assert [a, b, c] + rest == [a] + ([b] + ([c] + rest));
    AfterFirst(s, a, [b] + ([c] + rest));
    AfterFirst(Step(s, a), b, [c] + rest);
    AfterFirst(Step(Step(s, a), b), c, rest);
  }

  lemma AfterSetup()
    ensures var s := After(Initial(1000, 20000), SETUP);
            && Inv(s) && s.bsbs == map[]
            && s.psbs.Keys == {0, 1, 2} && s.psbs[0].key == OWN_LSP && s.psbs[1].key == OWN_REPLACEMENT
            && s.psbs[2].key == FOREIGN_LSP
            && s.psbs[1].mbbPending && s.psbs[1].assocRsb == None && s.psbs[1].prevHop == 0
            && Replaced(s, 1) == Some(2)
  {
    hide Inv, Step, Insert, FindById;
    var s0 := Initial(1000, 20000);
    SetupOwn(s0);
    var s1 := Step(s0, SETUP[0]);
    SetupReplacement(s1);
    var s2 := Step(s1, SETUP[1]);
    SetupForeign(s2);
    var s3 := Step(s2, SETUP[2]);
    SameBucket();
    NewcomerIsFound(s2, s3, 1, 0, 2, FOREIGN_LSP);
    SetupIsRun(s0, s1, s2, s3);
  }

  lemma SetupIsRun(s0: State, s1: State, s2: State, s3: State)
    requires Shaped(s0) && s1 == Step(s0, SETUP[0]) && s2 == Step(s1, SETUP[1]) && s3 == Step(s2, SETUP[2])
    ensures After(s0, SETUP) == s3
  {
    RunOfThree(s0, SETUP[0], SETUP[1], SETUP[2], []);
    assert SETUP == [SETUP[0], SETUP[1], SETUP[2]] + [];
  }

  lemma {:induction false} AfterLast(s: State, run: seq<Event>, e: Event)
    requires Shaped(s)
    ensures After(s, run + [e]) == Step(After(s, run), e)
    decreases |run|
  {
    if run == [] {
      assert run + [e] == [e];
      AfterFirst(s, e, []);
      assert [e] + [] == [e];
    } else {
      AfterLast(Step(s, run[0]), run[1..], e);
      assert (run + [e])[1..] == run[1..] + [e];
    }
  }

  /**
   * The first RESV of the replacement tears down the other node's LSP and leaves the
   * incumbent in place: the scan that looks for the incumbent compares ids only.
   */
  lemma ForeignPathIsTornDown()
    ensures var s := After(Initial(1000, 20000), SETUP);
            var t := After(Initial(1000, 20000), SETUP + [ResvArrives(FIRST_RESV, true)]);
            && s.psbs.Keys == {0, 1, 2} && s.psbs[0].key == OWN_LSP && s.psbs[1].key == OWN_REPLACEMENT
            && s.psbs[2].key == FOREIGN_LSP
            && t.psbs.Keys == {0, 1}
  {
    AfterSetup();
    CompletionStep(After(Initial(1000, 20000), SETUP), 1, FIRST_RESV);
    AfterLast(Initial(1000, 20000), SETUP, ResvArrives(FIRST_RESV, true));
  }
}
