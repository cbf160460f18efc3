// What operator calls, timers and tears do, written out over the fields of the blocks.
module Requests {
  import opened Common
  import opened StateDb
  import opened RsvpState
  import opened RsvpSteps
  import opened RsvpInvariant
  import opened RsvpRuns
  import opened MbbSafety
  import opened MbbTarget
  import opened BypassUp
  import opened RsvpEffects
  import LP = LabelPool

  /** The interface that sending a PATH records: the route's, if there is one. */
  ghost function SentOver(was: nat, route: int): nat {
    if route >= 0 then route else was
  }

  /** Everything but paths, their table and the reference counters is as it was. */
  ghost predicate OnlyPaths(s: State, t: State) {
    t.rsbs == s.rsbs && t.labels == s.labels && t.fwd == s.fwd && t.bsbs == s.bsbs
  }

  ghost predicate NoPathWith(s: State, k: Key) {
    forall p :: p in s.psbs ==> s.psbs[p].key != k
  }

  // ---- setting up LSPs and bypasses ------------------------------------

  lemma CreatedPath(s: State, v: Psb, route: int)
    requires Shaped(s)
    ensures SendPath(AddPsb(s, v), s.nextRef, route).psbs == s.psbs[s.nextRef := v.(ifindexOut := SentOver(v.ifindexOut, route))]
  {
  }

  /** A new LSP: its id is the next one, it starts here, asks for facility protection or none, and is refreshed. */
  lemma LspIsCreated(s: State, src: Addr, dest: Addr, tunnelId: nat, frr: bool, route: int)
    requires Inv(s) && NoPathWith(s, Key(dest, 0, tunnelId, src, src, 0, s.nextLspId))
    ensures var t := Step(s, PathRequested(src, dest, tunnelId, frr, true, route));
            && OnlyPaths(s, t) && t.nextLspId == (s.nextLspId + 1) % 65536
            && t.psbs == s.psbs[s.nextRef :=
                 Psb(Key(dest, 0, tunnelId, src, src, 0, s.nextLspId), 0, 0, SentOver(0, route), 30000, true,
                     if frr then Facility else NoFrr, false, false, 0, None, 0, false, 0, None, false, true)]
  {
    SideFieldsKeepInv(s, BumpLspId(s));
    FindPsbExact(BumpLspId(s), Key(dest, 0, tunnelId, src, src, 0, s.nextLspId));
  }

  /** An LSP id that came round again: the LSP that has it only has its PATH sent once more. */
  lemma LspIsSentAgain(s: State, src: Addr, dest: Addr, tunnelId: nat, frr: bool, alloc: bool, route: int, p: Ref)
    requires Inv(s) && p in s.psbs && s.psbs[p].key == Key(dest, 0, tunnelId, src, src, 0, s.nextLspId)
    ensures var t := Step(s, PathRequested(src, dest, tunnelId, frr, alloc, route));
            && OnlyPaths(s, t) && t.nextLspId == (s.nextLspId + 1) % 65536
            && t.psbs == s.psbs[p := s.psbs[p].(ifindexOut := SentOver(s.psbs[p].ifindexOut, route))]
  {
    SideFieldsKeepInv(s, BumpLspId(s));
    FindPsbExact(BumpLspId(s), s.psbs[p].key);
    assert s.psbs[p := s.psbs[p]] == s.psbs;
  }

  /** A new bypass tunnel is marked as one and remembers the interface it protects. */
  lemma BypassIsCreated(s: State, src: Addr, dest: Addr, tunnelId: nat, protectedIf: nat, route: int)
    requires Inv(s) && NoPathWith(s, Key(dest, 0, tunnelId, src, src, 0, s.nextLspId))
    ensures var t := Step(s, BypassRequested(src, dest, tunnelId, protectedIf, true, route));
            && OnlyPaths(s, t) && t.nextLspId == (s.nextLspId + 1) % 65536
            && t.psbs == s.psbs[s.nextRef :=
                 Psb(Key(dest, 0, tunnelId, src, src, 0, s.nextLspId), 0, 0, SentOver(0, route), 30000, true,
                     NoFrr, true, false, 0, None, protectedIf, false, 0, None, false, true)]
  {
    SideFieldsKeepInv(s, BumpLspId(s));
    FindPsbExact(BumpLspId(s), Key(dest, 0, tunnelId, src, src, 0, s.nextLspId));
  }

  // ---- arming by hand ---------------------------------------------------

  lemma {:induction false} FirstBypassIs(s: State, walk: seq<Ref>, tunnelId: nat)
    ensures match FirstBypass(s, walk, tunnelId)
            case Some(c) => c in walk && c in s.psbs && s.psbs[c].isBypass && s.psbs[c].key.tunnelId == tunnelId
            case None => forall c :: c in walk && c in s.psbs && s.psbs[c].isBypass ==> s.psbs[c].key.tunnelId != tunnelId
    decreases |walk|
  {
    if walk != [] {
      FirstBypassIs(s, walk[1..], tunnelId);
    }
  }

  lemma {:induction false} FirstBypassIsFirst(s: State, walk: seq<Ref>, tunnelId: nat, d: Ref)
    requires Distinct(walk) && BypassWith(s, d, tunnelId)
    ensures FirstBypass(s, walk, tunnelId).Some? ==> !Before(walk, d, FirstBypass(s, walk, tunnelId).value)
    decreases |walk|
  {
    if walk != [] {
      if BypassWith(s, walk[0], tunnelId) {
        NothingBeforeHead(walk, d);
      } else {
        FirstBypassIsFirst(s, walk[1..], tunnelId, d);
        var c := FirstBypass(s, walk, tunnelId);
        if c.Some? && Before(walk, d, c.value) {
          BeforeInRest(walk, d, c.value);
        }
      }
    }
  }

  /** A bypass tunnel with the given tunnel id. */
  ghost predicate BypassWith(s: State, c: Ref, tunnelId: nat) {
    c in s.psbs && s.psbs[c].isBypass && s.psbs[c].key.tunnelId == tunnelId
  }

  /** The first LSP of the table with the ids. */
  ghost predicate FirstLsp(s: State, p: Ref, tunnelId: nat, lspId: nat) {
    HasIds(s, p, tunnelId, lspId) && forall q :: HasIds(s, q, tunnelId, lspId) ==> !Before(Walk(s.psbTable), q, p)
  }

  /** The first bypass tunnel of the table with the tunnel id. */
  ghost predicate FirstTunnel(s: State, c: Ref, tunnelId: nat) {
    BypassWith(s, c, tunnelId) && forall d :: BypassWith(s, d, tunnelId) ==> !Before(Walk(s.psbTable), d, c)
  }

  /** An LSP armed by hand with a bypass. */
  ghost predicate ArmsWith(s: State, t: State, p: Ref, c: Ref, mode: FrrMode, bypassTunnelId: nat) {
    && p in s.psbs
    && t == s.(psbs := s.psbs[p := s.psbs[p].(frrMode := mode, bypassTunnelId := bypassTunnelId, bypassPsb := Some(c))])
  }

  /**
   * Arming by hand gives the first LSP of the table with the ids the first bypass of the table with the
   * tunnel id, when that bypass has a label from downstream; otherwise it changes nothing.
   */
  lemma ProtectionIsArmed(s: State, tunnelId: nat, lspId: nat, mode: FrrMode, bypassTunnelId: nat)
    requires Inv(s)
    ensures var t := Step(s, ProtectionRequested(tunnelId, lspId, mode, bypassTunnelId));
            && (forall p, c :: FirstLsp(s, p, tunnelId, lspId) && FirstTunnel(s, c, bypassTunnelId) ==>
                  if Labelled(s, s.psbs[c].key) then ArmsWith(s, t, p, c, mode, bypassTunnelId) else t == s)
            && ((forall p :: !HasIds(s, p, tunnelId, lspId)) || (forall c :: !BypassWith(s, c, bypassTunnelId)) ==> t == s)
  {
    hide Inv, ScanIds, FirstBypass, HasLabelOut, Walk;
    var walk := Walk(s.psbTable);
    AllInWalk(s);
    FirstWithIdsHas(s, walk, tunnelId, lspId);
    FirstBypassIs(s, walk, bypassTunnelId);
    var c := FirstBypass(s, walk, bypassTunnelId);
    if c.Some? {
      assert BypassWith(s, c.value, bypassTunnelId);
      LabelledIff(s, s.psbs[c.value].key);
    }
    forall p: Ref | FirstLsp(s, p, tunnelId, lspId)
      ensures FindById(s, tunnelId, lspId) == Some(p)
    {
      assert p in walk;
      FirstInScan(s, walk, p, tunnelId, lspId);
    }
    forall d: Ref | FirstTunnel(s, d, bypassTunnelId)
      ensures c == Some(d)
    {
      assert d in walk && BypassWith(s, c.value, bypassTunnelId);
      FirstBypassIsFirst(s, walk, bypassTunnelId, d);
      OneIsBefore(walk, c.value, d);
    }
  }

  /** When there is an LSP with the ids there is a first one, and so for a bypass with a tunnel id. */
  lemma FirstOnesExist(s: State, tunnelId: nat, lspId: nat, bypassTunnelId: nat)
    requires Inv(s)
    ensures (exists p :: HasIds(s, p, tunnelId, lspId)) ==> exists p :: FirstLsp(s, p, tunnelId, lspId)
    ensures (exists c :: BypassWith(s, c, bypassTunnelId)) ==> exists c :: FirstTunnel(s, c, bypassTunnelId)
  {
    hide Inv, ScanIds, FirstBypass, Walk;
    var walk := Walk(s.psbTable);
    AllInWalk(s);
    FirstWithIdsHas(s, walk, tunnelId, lspId);
    FirstBypassIs(s, walk, bypassTunnelId);
    if p :| HasIds(s, p, tunnelId, lspId) {
      assert p in walk;
      FirstInScan(s, walk, FindById(s, tunnelId, lspId).value, tunnelId, lspId);
      assert FirstLsp(s, FindById(s, tunnelId, lspId).value, tunnelId, lspId);
    }
    if c :| BypassWith(s, c, bypassTunnelId) {
      assert c in walk;
      var b := FirstBypass(s, walk, bypassTunnelId).value;
      forall d | BypassWith(s, d, bypassTunnelId)
        ensures !Before(walk, d, b)
      {
        FirstBypassIsFirst(s, walk, bypassTunnelId, d);
      }
      assert FirstTunnel(s, b, bypassTunnelId);
    }
  }

  lemma OneIsBefore(walk: seq<Ref>, a: Ref, b: Ref)
    requires a in walk && b in walk
    ensures a == b || Before(walk, a, b) || Before(walk, b, a)
  {
    var i :| 0 <= i < |walk| && walk[i] == a;
    var j :| 0 <= j < |walk| && walk[j] == b;
    if i < j {
      assert Before(walk, a, b);
    } else if j < i {
      assert Before(walk, b, a);
    }
  }

  // ---- starting a replacement ------------------------------------------

  /**
   * A replacement has the session of the incumbent and the new LSP id, takes over its refresh period and its
   * protection mode, and is marked until its first RESV.  Without an incumbent that starts here, or with
   * the new id in use, nothing happens.
   */
  lemma ReplacementTakesOver(s: State, tunnelId: nat, oldLspId: nat, newLspId: nat, route: int)
    requires Inv(s)
    ensures var t, prior := Step(s, MbbRequested(tunnelId, oldLspId, newLspId, true, route)), FindById(s, tunnelId, oldLspId);
            && OnlyPaths(s, t)
            && if prior.Some? && prior.value in s.psbs && s.psbs[prior.value].isIngress
                  && NoPathWith(s, s.psbs[prior.value].key.(lspId := newLspId))
               then var o := s.psbs[prior.value];
                    t.psbs == s.psbs[s.nextRef :=
                      Psb(o.key.(lspId := newLspId), 0, 0, SentOver(0, route), o.refreshMs, true, o.frrMode,
                          false, false, 0, None, 0, true, oldLspId, None, false, true)]
               else t == s
  {
    hide Inv, ScanIds;
    var prior := FindById(s, tunnelId, oldLspId);
    if prior.Some? && prior.value in s.psbs {
      FindPsbExact(s, s.psbs[prior.value].key.(lspId := newLspId));
    }
  }

  // ---- timers -----------------------------------------------------------

  /** The refresh of a path that is not at its end records the route it is sent over, and changes nothing else. */
  lemma PathRefreshIsSent(s: State, p: Ref, destLocal: bool, route: int)
    requires Inv(s)
    ensures var t := Step(s, PsbRefreshes(p, destLocal, route));
            t == if p in s.psbs && s.psbs[p].refreshArmed && (s.psbs[p].isIngress || !destLocal) && route >= 0
                 then s.(psbs := s.psbs[p := s.psbs[p].(ifindexOut := route)]) else s
  {
  }

  /** The refresh of a reservation that goes upstream gives it the lowest free label when it has none. */
  lemma ResvRefreshLabels(s: State, r: Ref, p: Ref)
    requires Inv(s) && r in s.rsbs && s.rsbs[r].assocPsb == Some(p) && p in s.psbs
    ensures var t := Step(s, RsbRefreshes(r));
            && r in t.rsbs && t == s.(labels := t.labels, rsbs := s.rsbs[r := s.rsbs[r].(labelIn := t.rsbs[r].labelIn)])
            && if s.rsbs[r].refreshArmed && s.psbs[p].prevHop != 0 && !s.psbs[p].isIngress && s.rsbs[r].labelIn == 0
               then if LP.Full(s.labels) then t == s else LP.IsLowestFree(s.labels, t.rsbs[r].labelIn)
               else t == s
  {
    assert s.rsbs[r := s.rsbs[r]] == s.rsbs;
    GiveLabelKeepsInv(s, r);
  }

  // ---- tears and expiries ----------------------------------------------

  /** A path goes with its reservation, the reservation's label, and its one entry. */
  ghost predicate TakesPath(s: State, t: State, p: Ref)
    requires p in s.psbs
  {
    var a := s.psbs[p].assocRsb;
    var held := a.Some? && a.value in s.rsbs;
    && t.psbs == s.psbs - {p}
    && t.rsbs == (if held then s.rsbs - {a.value} else s.rsbs)
    && t.labels.used == (if held then s.labels.used - {s.rsbs[a.value].labelIn} else s.labels.used)
    && t.fwd == (if held && s.rsbs[a.value].labelIn != 0 then s.fwd - {InLabel(s.rsbs[a.value].labelIn)}
                 else if held && s.psbs[p].isIngress then s.fwd - {ToDest(s.psbs[p].key.dest)}
                 else s.fwd)
  }

  lemma CleanupTakesPath(s: State, p: Ref)
    requires Inv(s) && p in s.psbs
    ensures TakesPath(s, PsbCleanup(s, p), p) && PsbCleanup(s, p).bsbs == s.bsbs
  {
    hide TablesOk, LabelsConserved, NoStaleForwarding, PsbCleanup, Delete;
    PsbCleanupKeepsInv(s, p);
    CleanupTakesEntry(s, p);
    assert s.fwd - {} == s.fwd;
    if s.psbs[p].assocRsb.Some? {
      assert PsbLinked(s, p);
    }
  }

  /** A PathTear takes the path of its session, if there is one, and the blockade of the session. */
  lemma PathTearTakesPath(s: State, k: Key)
    requires Inv(s)
    ensures var t := Step(s, PathTearArrives(k));
            && t.bsbs == s.bsbs - {k}
            && (forall p :: p in s.psbs && s.psbs[p].key == k ==> TakesPath(s, t, p))
            && (NoPathWith(s, k) ==> t == s.(bsbs := t.bsbs))
  {
    hide Inv, PsbCleanup, TakesPath;
    FindPsbExact(s, k);
    if FindPsb(s, k).Some? {
      var p := FindPsb(s, k).value;
      CleanupTakesPath(s, p);
      SameButBlockades(s, PsbCleanup(s, p), Step(s, PathTearArrives(k)), p);
    }
  }

  lemma SameButBlockades(s: State, t: State, u: State, p: Ref)
    requires p in s.psbs && TakesPath(s, t, p) && u == t.(bsbs := u.bsbs)
    ensures TakesPath(s, u, p)
  {
  }

  /** A ResvTear of a session without a reservation takes the blockade only. */
  lemma ResvTearOfNothing(s: State, k: Key)
    requires Inv(s) && forall r :: r in s.rsbs ==> s.rsbs[r].key != k
    ensures Step(s, ResvTearArrives(k)) == s.(bsbs := s.bsbs - {k})
  {
    FindRsbExact(s, k);
  }

  /** A path whose cleanup timer runs out goes in the same way; one whose timer is stopped stays. */
  lemma PathExpires(s: State, p: Ref)
    requires Inv(s) && p in s.psbs
    ensures var t := Step(s, PsbExpires(p));
            if s.psbs[p].cleanupArmed then TakesPath(s, t, p) else t == s
  {
    hide Inv, PsbCleanup, TakesPath;
    CleanupTakesPath(s, p);
  }

  /** So does the first path of the table with the ids of a tear-down request. */
  lemma TeardownTakesFirst(s: State, tunnelId: nat, lspId: nat)
    requires Inv(s)
    ensures var t, p := Step(s, TeardownRequested(tunnelId, lspId)), FindById(s, tunnelId, lspId);
            match p
            case Some(q) => HasIds(s, q, tunnelId, lspId) && TakesPath(s, t, q)
            case None => t == s && forall q :: !HasIds(s, q, tunnelId, lspId)
  {
    hide Inv, PsbCleanup, TakesPath, ScanIds;
    AllInWalk(s);
    FirstWithIdsHas(s, Walk(s.psbTable), tunnelId, lspId);
    var p := FindById(s, tunnelId, lspId);
    if p.Some? {
      CleanupTakesPath(s, p.value);
    }
  }

  /** A reservation whose cleanup timer runs out goes with its label and its entry; its path stays. */
  lemma ReservationExpires(s: State, r: Ref, p: Ref)
    requires Inv(s) && r in s.rsbs && s.rsbs[r].assocPsb == Some(p) && p in s.psbs
    ensures var t := Step(s, RsbExpires(r));
            if !s.rsbs[r].cleanupArmed then t == s
            else && t.rsbs == s.rsbs - {r} && t.psbs == s.psbs[p := s.psbs[p].(assocRsb := None)] && t.bsbs == s.bsbs
                 && t.labels.used == s.labels.used - {s.rsbs[r].labelIn}
                 && t.fwd == (if s.rsbs[r].labelIn != 0 then s.fwd - {InLabel(s.rsbs[r].labelIn)}
                              else if s.psbs[p].isIngress then s.fwd - {ToDest(s.rsbs[r].key.dest)} else s.fwd)
  {
    RsbCleanupEffect(s, r);
    RsbCleanupKeepsInv(s, r);
  }
}
