// Local repair: what a failure and a recovery of an interface do to every path at
// once, and when the second undoes the first.
module FastReroute {
  import opened Common
  import opened StateDb
  import opened RsvpState
  import opened RsvpSteps
  import opened RsvpInvariant
  import opened RsvpRuns
  import opened BypassUp

  /** The reservation found under a path's key. */
  function Reservation(s: State, p: Ref): Option<Ref>
    requires Shaped(s) && p in s.psbs
  {
    var r := FindRsb(s, s.psbs[p].key);
    if r.Some? && r.value in s.rsbs then r else None
  }

  /** The forwarding key of a path's traffic; none without a reservation. */
  function EntryKey(s: State, p: Ref): Option<FwdKey>
    requires Shaped(s) && p in s.psbs
  {
    match Reservation(s, p)
    case None => None
    case Some(r) => Some(if s.rsbs[r].labelIn == 0 then ToDest(s.psbs[p].key.dest) else InLabel(s.rsbs[r].labelIn))
  }

  function PrimaryOf(s: State, p: Ref): Entry
    requires Shaped(s) && p in s.psbs && Reservation(s, p).Some?
  {
    var v := s.rsbs[Reservation(s, p).value];
    Entry(v.labelOut, v.nextIf, v.nextHop, v.key.dest)
  }

  function Detour(s: State, p: Ref, ifindex: nat): Entry
    requires Shaped(s) && Switchable(s, p, ifindex)
  {
    var b := s.psbs[s.psbs[p].bypassPsb.value];
    var w := s.rsbs[FindRsb(s, b.key).value];
    Entry(w.labelOut, w.nextIf, w.nextHop, s.psbs[p].key.dest)
  }

  /** Only switch flags, egress interfaces and forwarding differ. */
  ghost predicate OnlySwitching(s: State, t: State) {
    && t == s.(psbs := t.psbs, fwd := t.fwd)
    && t.psbs.Keys == s.psbs.Keys
    && forall p :: p in s.psbs ==>
         t.psbs[p] == s.psbs[p].(frrActive := t.psbs[p].frrActive, ifindexOut := t.psbs[p].ifindexOut)
  }

  lemma ReservationsStay(s: State, t: State, p: Ref)
    requires Shaped(s) && OnlySwitching(s, t) && p in s.psbs
    ensures Shaped(t) && FindRsb(t, s.psbs[p].key) == FindRsb(s, s.psbs[p].key)
    ensures Reservation(t, p) == Reservation(s, p) && EntryKey(t, p) == EntryKey(s, p)
    ensures Reservation(s, p).Some? ==> PrimaryOf(t, p) == PrimaryOf(s, p)
  {
    assert RsbKeys(t) == RsbKeys(s);
  }

  // ---- one path ---------------------------------------------------------

  /** One path's switch flag is set or cleared; what else may change is its egress interface. */
  ghost predicate Flagged(s: State, t: State, p: Ref, active: bool) {
    && OnlySwitching(s, t) && p in s.psbs && t.psbs[p].frrActive == active
    && forall q :: q in s.psbs && q != p ==> t.psbs[q] == s.psbs[q]
  }

  lemma SendPathFlags(s: State, t: State, p: Ref, active: bool, route: int)
    requires Flagged(s, t, p, active)
    ensures Flagged(s, SendPath(t, p, route), p, active) && SendPath(t, p, route).fwd == t.fwd
  {
    if route >= 0 {
      var u := SetPsb(t, p, t.psbs[p].(ifindexOut := route));
      assert u.psbs.Keys == t.psbs.Keys;
      forall q | q in s.psbs
        ensures u.psbs[q] == s.psbs[q].(frrActive := u.psbs[q].frrActive, ifindexOut := u.psbs[q].ifindexOut)
      {
        assert t.psbs[q] == s.psbs[q].(frrActive := t.psbs[q].frrActive, ifindexOut := t.psbs[q].ifindexOut);
      }
    }
  }

  lemma PathFlags(s: State, t: State, p: Ref, active: bool, ifindexOut: nat, route: int)
    requires p in s.psbs && t == s.(fwd := t.fwd)
    ensures var u := SetPsb(t, p, s.psbs[p].(frrActive := active, ifindexOut := ifindexOut));
            Flagged(s, SendPath(u, p, route), p, active) && SendPath(u, p, route).fwd == t.fwd
  {
    SendPathFlags(s, SetPsb(t, p, s.psbs[p].(frrActive := active, ifindexOut := ifindexOut)), p, active, route);
  }

  lemma SwitchOne(s: State, p: Ref, ifindex: nat, routes: Ref -> int)
    requires Shaped(s) && Switchable(s, p, ifindex)
    ensures var t := TriggerOne(s, p, ifindex, routes);
            && Flagged(s, t, p, true)
            && t.fwd == if EntryKey(s, p).Some? then s.fwd[EntryKey(s, p).value := Detour(s, p, ifindex)] else s.fwd
  {
    var k := EntryKey(s, p);
    var t := if k.Some? then Install(s, k.value, Detour(s, p, ifindex)) else s;
    PathFlags(s, t, p, true, s.psbs[s.psbs[p].bypassPsb.value].ifindexOut, routes(p));
  }

  lemma RestoreOne(s: State, p: Ref, ifindex: nat, routes: Ref -> int)
    requires Shaped(s) && SwitchedFor(s, p, ifindex) && Reservation(s, p).Some?
    ensures var t := RevertOne(s, p, ifindex, routes);
            Flagged(s, t, p, false) && t.fwd == s.fwd[EntryKey(s, p).value := PrimaryOf(s, p)]
  {
    PathFlags(s, Install(s, EntryKey(s, p).value, PrimaryOf(s, p)), p, false, ifindex, routes(p));
  }

  lemma OthersSwitchTheSame(s: State, t: State, q: Ref, ifindex: nat)
    requires Shaped(s) && OnlySwitching(s, t) && q in s.psbs && t.psbs[q] == s.psbs[q]
    ensures Shaped(t) && (Switchable(t, q, ifindex) <==> Switchable(s, q, ifindex))
    ensures Switchable(s, q, ifindex) ==> Detour(t, q, ifindex) == Detour(s, q, ifindex)
    ensures SwitchedFor(t, q, ifindex) <==> SwitchedFor(s, q, ifindex)
  {
    assert RsbKeys(t) == RsbKeys(s);
  }

  // ---- the sweep over the table ----------------------------------------

  /** A path of the sweep that a failure switches and whose traffic has a given forwarding key. */
  ghost predicate Diverts(s: State, walk: seq<Ref>, ifindex: nat, p: Ref, k: FwdKey)
    requires Shaped(s)
  {
    p in walk && Switchable(s, p, ifindex) && EntryKey(s, p) == Some(k)
  }

  /** A path of the sweep that a recovery puts back and whose traffic has a given forwarding key. */
  ghost predicate Restores(s: State, walk: seq<Ref>, ifindex: nat, p: Ref, k: FwdKey)
    requires Shaped(s)
  {
    p in walk && SwitchedFor(s, p, ifindex) && EntryKey(s, p) == Some(k)
  }

  lemma SwitchingChains(s: State, t: State, u: State)
    requires OnlySwitching(s, t) && OnlySwitching(t, u)
    ensures OnlySwitching(s, u)
  {
    forall p | p in s.psbs
      ensures u.psbs[p] == s.psbs[p].(frrActive := u.psbs[p].frrActive, ifindexOut := u.psbs[p].ifindexOut)
    {
      assert t.psbs[p] == s.psbs[p].(frrActive := t.psbs[p].frrActive, ifindexOut := t.psbs[p].ifindexOut);
    }
  }

  /** After the sweep exactly the switchable paths of the sweep are newly active; every other path is untouched. */
  lemma {:induction false} TriggerFlags(s: State, walk: seq<Ref>, ifindex: nat, routes: Ref -> int)
    requires Shaped(s) && Distinct(walk)
    ensures var t := TriggerIn(s, walk, ifindex, routes);
            && OnlySwitching(s, t)
            && forall p :: p in s.psbs ==>
                 if p in walk && Switchable(s, p, ifindex) then t.psbs[p].frrActive else t.psbs[p] == s.psbs[p]
    decreases |walk|
  {
    if walk != [] {
      var p, t1 := walk[0], TriggerOne(s, walk[0], ifindex, routes);
      var t := TriggerIn(t1, walk[1..], ifindex, routes);
      if Switchable(s, p, ifindex) {
        SwitchOne(s, p, ifindex, routes);
      }
      TriggerFlags(t1, walk[1..], ifindex, routes);
      SwitchingChains(s, t1, t);
      forall q | q in s.psbs
        ensures if q in walk && Switchable(s, q, ifindex) then t.psbs[q].frrActive else t.psbs[q] == s.psbs[q]
      {
        if q != p {
          OthersSwitchTheSame(s, t1, q, ifindex);
        }
      }
    }
  }

  lemma {:induction false} RevertFlags(s: State, walk: seq<Ref>, ifindex: nat, routes: Ref -> int)
    requires Shaped(s) && Distinct(walk)
    ensures var t := RevertIn(s, walk, ifindex, routes);
            && OnlySwitching(s, t)
            && forall p :: p in s.psbs ==>
                 if p in walk && SwitchedFor(s, p, ifindex) && Reservation(s, p).Some? then !t.psbs[p].frrActive
                 else t.psbs[p] == s.psbs[p]
    decreases |walk|
  {
    if walk != [] {
      var p, t1 := walk[0], RevertOne(s, walk[0], ifindex, routes);
      var t := RevertIn(t1, walk[1..], ifindex, routes);
      if SwitchedFor(s, p, ifindex) && Reservation(s, p).Some? {
        RestoreOne(s, p, ifindex, routes);
      }
      RevertFlags(t1, walk[1..], ifindex, routes);
      SwitchingChains(s, t1, t);
      forall q | q in s.psbs
        ensures if q in walk && SwitchedFor(s, q, ifindex) && Reservation(s, q).Some? then !t.psbs[q].frrActive
                else t.psbs[q] == s.psbs[q]
      {
        if q != p {
          OthersSwitchTheSame(s, t1, q, ifindex);
          ReservationsStay(s, t1, q);
        }
      }
    }
  }

  ghost predicate SameEntry(s: State, t: State, k: FwdKey) {
    (k in t.fwd <==> k in s.fwd) && (k in s.fwd ==> t.fwd[k] == s.fwd[k])
  }

  lemma DivertsTheSame(s: State, t: State, walk: seq<Ref>, ifindex: nat, p: Ref, q: Ref, k: FwdKey)
    requires Shaped(s) && OnlySwitching(s, t) && p !in walk && forall o :: o in s.psbs && o != p ==> t.psbs[o] == s.psbs[o]
    ensures Shaped(t) && (Diverts(t, walk, ifindex, q, k) <==> Diverts(s, walk, ifindex, q, k))
    ensures Diverts(s, walk, ifindex, q, k) ==> Detour(t, q, ifindex) == Detour(s, q, ifindex)
    ensures Restores(t, walk, ifindex, q, k) <==> Restores(s, walk, ifindex, q, k)
    ensures Restores(s, walk, ifindex, q, k) ==> PrimaryOf(t, q) == PrimaryOf(s, q)
  {
    if q in walk && q in s.psbs {
      OthersSwitchTheSame(s, t, q, ifindex);
      ReservationsStay(s, t, q);
    }
  }

  /** An entry after a failure: a detour of a switched path that uses it, or what it was. */
  ghost predicate EntryAfterFailure(s: State, walk: seq<Ref>, ifindex: nat, t: State, k: FwdKey)
    requires Shaped(s)
  {
    if exists p :: Diverts(s, walk, ifindex, p, k)
    then k in t.fwd && exists p :: Diverts(s, walk, ifindex, p, k) && t.fwd[k] == Detour(s, p, ifindex)
    else SameEntry(s, t, k)
  }

  /** An entry after a recovery: the primary entry of a restored path that uses it, or what it was. */
  ghost predicate EntryAfterRecovery(s: State, walk: seq<Ref>, ifindex: nat, t: State, k: FwdKey)
    requires Shaped(s)
  {
    if exists p :: Restores(s, walk, ifindex, p, k)
    then k in t.fwd && exists p :: Restores(s, walk, ifindex, p, k) && t.fwd[k] == PrimaryOf(s, p)
    else SameEntry(s, t, k)
  }

  lemma {:induction false} TriggerEntry(s: State, walk: seq<Ref>, ifindex: nat, routes: Ref -> int, k: FwdKey)
    requires Shaped(s) && Distinct(walk)
    ensures EntryAfterFailure(s, walk, ifindex, TriggerIn(s, walk, ifindex, routes), k)
    decreases |walk|
  {
    if walk != [] {
      var t1 := TriggerOne(s, walk[0], ifindex, routes);
      TriggerEntry(t1, walk[1..], ifindex, routes, k);
      if Switchable(s, walk[0], ifindex) {
        SwitchOne(s, walk[0], ifindex, routes);
        FailureEntryStep(s, t1, walk, ifindex, TriggerIn(t1, walk[1..], ifindex, routes), k);
      } else {
        assert forall q :: Diverts(s, walk, ifindex, q, k) <==> Diverts(s, walk[1..], ifindex, q, k);
      }
    }
  }

  lemma FailureEntryStep(s: State, t1: State, walk: seq<Ref>, ifindex: nat, t: State, k: FwdKey)
    requires Shaped(s) && walk != [] && Distinct(walk)
    requires Switchable(s, walk[0], ifindex) && Flagged(s, t1, walk[0], true)
    requires t1.fwd == if EntryKey(s, walk[0]).Some?
                       then s.fwd[EntryKey(s, walk[0]).value := Detour(s, walk[0], ifindex)] else s.fwd
    requires Shaped(t1) && EntryAfterFailure(t1, walk[1..], ifindex, t, k)
    ensures EntryAfterFailure(s, walk, ifindex, t, k)
  {
    var rest := walk[1..];
    forall q
      ensures Diverts(t1, rest, ifindex, q, k) <==> Diverts(s, rest, ifindex, q, k)
      ensures Diverts(s, rest, ifindex, q, k) ==> Detour(t1, q, ifindex) == Detour(s, q, ifindex)
    {
      DivertsTheSame(s, t1, rest, ifindex, walk[0], q, k);
    }
    if q :| Diverts(t1, rest, ifindex, q, k) && t.fwd[k] == Detour(t1, q, ifindex) {
      assert Diverts(s, walk, ifindex, q, k);
    } else if EntryKey(s, walk[0]) == Some(k) {
      assert Diverts(s, walk, ifindex, walk[0], k);
    } else {
      assert forall q :: Diverts(s, walk, ifindex, q, k) ==> Diverts(s, rest, ifindex, q, k);
    }
  }

  lemma {:induction false} RevertEntry(s: State, walk: seq<Ref>, ifindex: nat, routes: Ref -> int, k: FwdKey)
    requires Shaped(s) && Distinct(walk)
    ensures EntryAfterRecovery(s, walk, ifindex, RevertIn(s, walk, ifindex, routes), k)
    decreases |walk|
  {
    if walk != [] {
      var t1 := RevertOne(s, walk[0], ifindex, routes);
      RevertEntry(t1, walk[1..], ifindex, routes, k);
      if SwitchedFor(s, walk[0], ifindex) && Reservation(s, walk[0]).Some? {
        RestoreOne(s, walk[0], ifindex, routes);
        RecoveryEntryStep(s, t1, walk, ifindex, RevertIn(t1, walk[1..], ifindex, routes), k);
      } else {
        assert forall q :: Restores(s, walk, ifindex, q, k) <==> Restores(s, walk[1..], ifindex, q, k);
      }
    }
  }

  lemma RecoveryEntryStep(s: State, t1: State, walk: seq<Ref>, ifindex: nat, t: State, k: FwdKey)
    requires Shaped(s) && walk != [] && Distinct(walk)
    requires SwitchedFor(s, walk[0], ifindex) && Reservation(s, walk[0]).Some? && Flagged(s, t1, walk[0], false)
    requires t1.fwd == s.fwd[EntryKey(s, walk[0]).value := PrimaryOf(s, walk[0])]
    requires Shaped(t1) && EntryAfterRecovery(t1, walk[1..], ifindex, t, k)
    ensures EntryAfterRecovery(s, walk, ifindex, t, k)
  {
    var rest := walk[1..];
    forall q
      ensures Restores(t1, rest, ifindex, q, k) <==> Restores(s, rest, ifindex, q, k)
      ensures Restores(s, rest, ifindex, q, k) ==> PrimaryOf(t1, q) == PrimaryOf(s, q)
    {
      DivertsTheSame(s, t1, rest, ifindex, walk[0], q, k);
    }
    if q :| Restores(t1, rest, ifindex, q, k) && t.fwd[k] == PrimaryOf(t1, q) {
      assert Restores(s, walk, ifindex, q, k);
    } else if EntryKey(s, walk[0]) == Some(k) {
      assert Restores(s, walk, ifindex, walk[0], k);
    } else {
      assert forall q :: Restores(s, walk, ifindex, q, k) ==> Restores(s, rest, ifindex, q, k);
    }
  }

  // ---- failure, then failure again -------------------------------------

  lemma {:induction false} NothingToSwitch(s: State, walk: seq<Ref>, ifindex: nat, routes: Ref -> int)
    requires Shaped(s) && forall p :: p in walk ==> !Switchable(s, p, ifindex)
    ensures TriggerIn(s, walk, ifindex, routes) == s
    decreases |walk|
  {
    if walk != [] {
      NothingToSwitch(s, walk[1..], ifindex, routes);
    }
  }

  lemma WalkIsAll(s: State)
    requires Inv(s)
    ensures Distinct(Walk(s.psbTable)) && forall p :: p in Walk(s.psbTable) <==> p in s.psbs
  {
    WalkVisitsEachOnce(s.psbTable, PsbKeys(s));
  }

  /** A path that leaves through the interface, asked for facility protection and has a bypass that can carry traffic. */
  ghost predicate Armed(s: State, p: Ref, ifindex: nat) {
    && p in s.psbs && s.psbs[p].ifindexOut == ifindex && s.psbs[p].frrMode == Facility
    && !s.psbs[p].frrActive && !s.psbs[p].isBypass
    && s.psbs[p].bypassPsb.Some? && s.psbs[p].bypassPsb.value in s.psbs
    && Labelled(s, s.psbs[s.psbs[p].bypassPsb.value].key)
  }

  lemma ArmedIsSwitchable(s: State, p: Ref, ifindex: nat)
    requires Inv(s)
    ensures Armed(s, p, ifindex) <==> Switchable(s, p, ifindex)
  {
    if p in s.psbs && s.psbs[p].bypassPsb.Some? && s.psbs[p].bypassPsb.value in s.psbs {
      LabelledIff(s, s.psbs[s.psbs[p].bypassPsb.value].key);
    }
  }

  /**
   * A failure switches exactly the armed paths that leave through the interface; any other
   * path, bypass tunnels among them, is not touched.
   */
  lemma FailureSwitchesExactly(s: State, ifindex: nat, routes: Ref -> int, p: Ref)
    requires Inv(s) && p in s.psbs
    ensures var t := Step(s, LinkFails(ifindex, routes));
            && p in t.psbs && t == s.(psbs := t.psbs, fwd := t.fwd)
            && (if Armed(s, p, ifindex) then t.psbs[p] == s.psbs[p].(frrActive := true, ifindexOut := t.psbs[p].ifindexOut)
                else t.psbs[p] == s.psbs[p])
            && !Armed(t, p, ifindex)
  {
    ArmedIsSwitchable(s, p, ifindex);
    SwitchedByFailure(s, ifindex, routes, p);
    StepKeepsInv(s, LinkFails(ifindex, routes));
    ArmedIsSwitchable(Trigger(s, ifindex, routes), p, ifindex);
    WalkIsAll(s);
    TriggerFlags(s, Walk(s.psbTable), ifindex, routes);
  }

  lemma SwitchedByFailure(s: State, ifindex: nat, routes: Ref -> int, p: Ref)
    requires Inv(s) && p in s.psbs
    ensures var t := Trigger(s, ifindex, routes);
            && p in t.psbs
            && (if Switchable(s, p, ifindex) then t.psbs[p].frrActive && !s.psbs[p].frrActive && !s.psbs[p].isBypass
                else t.psbs[p] == s.psbs[p])
            && !Switchable(t, p, ifindex)
  {
    var t := Trigger(s, ifindex, routes);
    WalkIsAll(s);
    TriggerFlags(s, Walk(s.psbTable), ifindex, routes);
    if !Switchable(s, p, ifindex) {
      OthersSwitchTheSame(s, t, p, ifindex);
    }
  }

  /** A second failure report changes nothing. */
  lemma SecondFailureIsIdle(s: State, ifindex: nat, routes: Ref -> int, again: Ref -> int)
    requires Inv(s)
    ensures Trigger(Trigger(s, ifindex, routes), ifindex, again) == Trigger(s, ifindex, routes)
  {
    var t := Trigger(s, ifindex, routes);
    WalkIsAll(s);
    TriggerFlags(s, Walk(s.psbTable), ifindex, routes);
    forall p | p in Walk(t.psbTable)
      ensures !Switchable(t, p, ifindex)
    {
      SwitchedByFailure(s, ifindex, routes, p);
    }
    NothingToSwitch(t, Walk(t.psbTable), ifindex, again);
  }

  lemma DetourOf(s: State, ifindex: nat, p: Ref, r: Ref, c: Ref, b: Ref)
    requires Inv(s) && Armed(s, p, ifindex) && s.psbs[p].bypassPsb == Some(c)
    requires r in s.rsbs && s.rsbs[r].key == s.psbs[p].key
    requires b in s.rsbs && s.rsbs[b].key == s.psbs[c].key
    ensures Switchable(s, p, ifindex) && s.rsbs[b].labelOut != 0 && Reservation(s, p) == Some(r)
    ensures EntryKey(s, p) == Some(if s.rsbs[r].labelIn != 0 then InLabel(s.rsbs[r].labelIn) else ToDest(s.psbs[p].key.dest))
    ensures Detour(s, p, ifindex) == Entry(s.rsbs[b].labelOut, s.rsbs[b].nextIf, s.rsbs[b].nextHop, s.psbs[p].key.dest)
  {
    ArmedIsSwitchable(s, p, ifindex);
    FindRsbExact(s, s.psbs[p].key);
    FindRsbExact(s, s.psbs[c].key);
  }

  /** The path is the only one whose traffic has its forwarding key. */
  ghost predicate OwnTraffic(s: State, p: Ref, r: Ref)
    requires p in s.psbs && r in s.rsbs
  {
    s.rsbs[r].labelIn == 0 ==> forall q :: q in s.psbs && q != p ==> s.psbs[q].key.dest != s.psbs[p].key.dest
  }

  /**
   * The traffic of a switched path, labelled or not, goes to its bypass: with the label that the bypass
   * got from downstream, to the next hop of the bypass.
   */
  lemma FailureDiverts(s: State, ifindex: nat, routes: Ref -> int, p: Ref, r: Ref, c: Ref, b: Ref)
    requires Inv(s) && p in s.psbs && Armed(s, p, ifindex) && s.psbs[p].bypassPsb == Some(c) && c in s.psbs
    requires r in s.rsbs && s.rsbs[r].key == s.psbs[p].key && OwnTraffic(s, p, r)
    requires b in s.rsbs && s.rsbs[b].key == s.psbs[c].key
    ensures var t := Step(s, LinkFails(ifindex, routes));
            var k := if s.rsbs[r].labelIn != 0 then InLabel(s.rsbs[r].labelIn) else ToDest(s.psbs[p].key.dest);
            && k in t.fwd && t.fwd[k].labelOut == s.rsbs[b].labelOut != 0 && t.fwd[k].ifindex == s.rsbs[b].nextIf
            && t.fwd[k].nextHop == s.rsbs[b].nextHop && t.fwd[k].dest == s.psbs[p].key.dest
  {
    hide Inv, TriggerIn, Switchable, Armed, EntryKey;
    WalkIsAll(s);
    DetourOf(s, ifindex, p, r, c, b);
    var k := EntryKey(s, p).value;
    TriggerEntry(s, Walk(s.psbTable), ifindex, routes, k);
    assert Diverts(s, Walk(s.psbTable), ifindex, p, k);
    forall q | Diverts(s, Walk(s.psbTable), ifindex, q, k)
      ensures q == p
    {
      KeysTellPathsApart(s, p, q, r);
    }
  }

  lemma KeysTellPathsApart(s: State, p: Ref, q: Ref, r: Ref)
    requires Inv(s) && p in s.psbs && q in s.psbs && Reservation(s, p) == Some(r) && OwnTraffic(s, p, r)
    requires EntryKey(s, p) == EntryKey(s, q)
    ensures p == q
  {
    if EntryKey(s, p).value.InLabel? {
      LabelsTellPathsApart(s, p, q);
    }
  }

  lemma LabelsTellPathsApart(s: State, p: Ref, q: Ref)
    requires Inv(s) && p in s.psbs && q in s.psbs
    requires EntryKey(s, p) == EntryKey(s, q) && EntryKey(s, p).Some? && EntryKey(s, p).value.InLabel?
    ensures p == q
  {
    RsbOfPsb(s, p);
    RsbOfPsb(s, q);
    assert PsbLinked(s, p) && PsbLinked(s, q);
  }

  // ---- where a path leaves ----------------------------------------------

  /** After the failure a switched path leaves where its PATH was routed to, or else where its bypass leaves. */
  lemma {:induction false} TriggerEgress(s: State, walk: seq<Ref>, ifindex: nat, routes: Ref -> int, p: Ref)
    requires Shaped(s) && Distinct(walk) && p in walk && Switchable(s, p, ifindex)
    requires routes(p) >= 0 || s.psbs[s.psbs[p].bypassPsb.value].isBypass
    ensures p in TriggerIn(s, walk, ifindex, routes).psbs
    ensures TriggerIn(s, walk, ifindex, routes).psbs[p].ifindexOut ==
            if routes(p) >= 0 then routes(p) else s.psbs[s.psbs[p].bypassPsb.value].ifindexOut
    decreases |walk|
  {
    var q, t1 := walk[0], TriggerOne(s, walk[0], ifindex, routes);
    TriggerFlags(t1, walk[1..], ifindex, routes);
    if Switchable(s, q, ifindex) {
      SwitchOne(s, q, ifindex, routes);
    }
    if q != p {
      assert p in walk[1..];
      OthersSwitchTheSame(s, t1, p, ifindex);
      TriggerEgress(t1, walk[1..], ifindex, routes, p);
    }
  }

  lemma FailureMovesEgress(s: State, ifindex: nat, routes: Ref -> int, p: Ref, c: Ref)
    requires Inv(s) && Armed(s, p, ifindex) && s.psbs[p].bypassPsb == Some(c) && (routes(p) >= 0 || s.psbs[c].isBypass)
    ensures p in Step(s, LinkFails(ifindex, routes)).psbs
    ensures Step(s, LinkFails(ifindex, routes)).psbs[p].ifindexOut ==
            if routes(p) >= 0 then routes(p) else s.psbs[c].ifindexOut
  {
    hide Inv, TriggerIn, Switchable;
    ArmedIsSwitchable(s, p, ifindex);
    WalkIsAll(s);
    TriggerEgress(s, Walk(s.psbTable), ifindex, routes, p);
  }

  /** A switched path with a reservation whose bypass protects the interface. */
  ghost predicate Diverted(s: State, p: Ref, ifindex: nat) {
    && p in s.psbs && s.psbs[p].frrActive
    && s.psbs[p].bypassPsb.Some? && s.psbs[p].bypassPsb.value in s.psbs
    && s.psbs[s.psbs[p].bypassPsb.value].protectedIf == ifindex
    && exists r :: r in s.rsbs && s.rsbs[r].key == s.psbs[p].key
  }

  lemma DivertedIff(s: State, p: Ref, ifindex: nat)
    requires Inv(s)
    ensures Diverted(s, p, ifindex) <==> SwitchedFor(s, p, ifindex) && Reservation(s, p).Some?
  {
    if p in s.psbs {
      FindRsbExact(s, s.psbs[p].key);
    }
  }

  lemma {:induction false} RevertEgress(s: State, walk: seq<Ref>, ifindex: nat, routes: Ref -> int, p: Ref)
    requires Shaped(s) && Distinct(walk) && p in walk && SwitchedFor(s, p, ifindex) && Reservation(s, p).Some?
    ensures p in RevertIn(s, walk, ifindex, routes).psbs
    ensures RevertIn(s, walk, ifindex, routes).psbs[p].ifindexOut == if routes(p) >= 0 then routes(p) else ifindex
    decreases |walk|
  {
    var q, t1 := walk[0], RevertOne(s, walk[0], ifindex, routes);
    RevertFlags(t1, walk[1..], ifindex, routes);
    if SwitchedFor(s, q, ifindex) && Reservation(s, q).Some? {
      RestoreOne(s, q, ifindex, routes);
    }
    if q != p {
      assert p in walk[1..];
      OthersSwitchTheSame(s, t1, p, ifindex);
      ReservationsStay(s, t1, p);
      RevertEgress(t1, walk[1..], ifindex, routes, p);
    }
  }

  /**
   * A recovery puts back exactly the diverted paths with a reservation: each is no longer switched and
   * leaves where its PATH is routed to, or else through the recovered interface.
   */
  lemma RecoveryRestoresExactly(s: State, ifindex: nat, routes: Ref -> int, p: Ref)
    requires Inv(s) && p in s.psbs
    ensures var t := Step(s, LinkRecovers(ifindex, routes));
            && p in t.psbs && t == s.(psbs := t.psbs, fwd := t.fwd)
            && t.psbs[p] == if Diverted(s, p, ifindex)
                            then s.psbs[p].(frrActive := false, ifindexOut := if routes(p) >= 0 then routes(p) else ifindex)
                            else s.psbs[p]
  {
    hide Inv, RevertIn;
    DivertedIff(s, p, ifindex);
    WalkIsAll(s);
    RevertFlags(s, Walk(s.psbTable), ifindex, routes);
    if Diverted(s, p, ifindex) {
      RevertEgress(s, Walk(s.psbTable), ifindex, routes, p);
    }
  }

  /** The traffic of a path that is put back follows its own reservation again. */
  lemma RecoveryRedirects(s: State, ifindex: nat, routes: Ref -> int, p: Ref, r: Ref)
    requires Inv(s) && p in s.psbs && Diverted(s, p, ifindex)
    requires r in s.rsbs && s.rsbs[r].key == s.psbs[p].key && OwnTraffic(s, p, r)
    ensures var t := Step(s, LinkRecovers(ifindex, routes));
            var k := if s.rsbs[r].labelIn != 0 then InLabel(s.rsbs[r].labelIn) else ToDest(s.psbs[p].key.dest);
            && k in t.fwd && t.fwd[k].labelOut == s.rsbs[r].labelOut && t.fwd[k].ifindex == s.rsbs[r].nextIf
            && t.fwd[k].nextHop == s.rsbs[r].nextHop && t.fwd[k].dest == s.psbs[p].key.dest
  {
    hide Inv, RevertIn, EntryKey;
    WalkIsAll(s);
    DivertedIff(s, p, ifindex);
    OwnEntry(s, p, r);
    var k := EntryKey(s, p).value;
    RevertEntry(s, Walk(s.psbTable), ifindex, routes, k);
    assert Restores(s, Walk(s.psbTable), ifindex, p, k);
    forall q | Restores(s, Walk(s.psbTable), ifindex, q, k)
      ensures q == p
    {
      KeysTellPathsApart(s, p, q, r);
    }
  }

  lemma OwnEntry(s: State, p: Ref, r: Ref)
    requires Inv(s) && p in s.psbs && r in s.rsbs && s.rsbs[r].key == s.psbs[p].key
    ensures Reservation(s, p) == Some(r)
    ensures EntryKey(s, p) == Some(if s.rsbs[r].labelIn != 0 then InLabel(s.rsbs[r].labelIn) else ToDest(s.psbs[p].key.dest))
    ensures PrimaryOf(s, p) == Entry(s.rsbs[r].labelOut, s.rsbs[r].nextIf, s.rsbs[r].nextHop, s.psbs[p].key.dest)
  {
    FindRsbExact(s, s.psbs[p].key);
  }

  // ---- failure, then recovery ------------------------------------------

  ghost predicate BypassProtects(s: State, p: Ref, ifindex: nat) {
    && p in s.psbs && s.psbs[p].bypassPsb.Some? && s.psbs[p].bypassPsb.value in s.psbs
    && s.psbs[s.psbs[p].bypassPsb.value].protectedIf == ifindex
  }

  ghost predicate SameFlags(s: State, t: State) {
    t.psbs.Keys == s.psbs.Keys && forall p :: p in s.psbs ==> t.psbs[p].frrActive == s.psbs[p].frrActive
  }

  lemma SwitchedAfterFailure(s: State, ifindex: nat, routes: Ref -> int, p: Ref)
    requires Inv(s) && p in s.psbs
    ensures var t := Trigger(s, ifindex, routes);
            && OnlySwitching(s, t) && t.psbTable == s.psbTable
            && Reservation(t, p) == Reservation(s, p) && EntryKey(t, p) == EntryKey(s, p)
            && (Reservation(s, p).Some? ==> PrimaryOf(t, p) == PrimaryOf(s, p))
            && (SwitchedFor(t, p, ifindex) <==>
                  if Switchable(s, p, ifindex) then BypassProtects(s, p, ifindex) else SwitchedFor(s, p, ifindex))
  {
    var t := Trigger(s, ifindex, routes);
    WalkIsAll(s);
    TriggerFlags(s, Walk(s.psbTable), ifindex, routes);
    ReservationsStay(s, t, p);
    SwitchedByFailure(s, ifindex, routes, p);
  }

  /** A path's flag after a failure and a recovery. */
  lemma FlagAfterRecovery(s: State, ifindex: nat, routes: Ref -> int, back: Ref -> int, p: Ref)
    requires Inv(s) && p in s.psbs
    ensures var u := Revert(Trigger(s, ifindex, routes), ifindex, back);
            && u.psbs.Keys == s.psbs.Keys
            && u.psbs[p].frrActive ==
               if Switchable(s, p, ifindex) then !(Reservation(s, p).Some? && BypassProtects(s, p, ifindex))
               else s.psbs[p].frrActive && !(SwitchedFor(s, p, ifindex) && Reservation(s, p).Some?)
  {
    var t := Trigger(s, ifindex, routes);
    WalkIsAll(s);
    SwitchedAfterFailure(s, ifindex, routes, p);
    SwitchedByFailure(s, ifindex, routes, p);
    RevertFlags(t, Walk(t.psbTable), ifindex, back);
  }

  /**
   * A recovery undoes the flags of a failure if and only if every switched path has a
   * reservation and a bypass that protects this very interface, and no path with a
   * reservation was already switched for it before.
   */
  lemma FlagsAreRestoredIff(s: State, ifindex: nat, routes: Ref -> int, back: Ref -> int)
    requires Inv(s)
    ensures SameFlags(s, Revert(Trigger(s, ifindex, routes), ifindex, back)) <==>
            && (forall p :: Switchable(s, p, ifindex) ==> Reservation(s, p).Some? && BypassProtects(s, p, ifindex))
            && (forall p :: SwitchedFor(s, p, ifindex) ==> Reservation(s, p).None?)
  {
    forall p | p in s.psbs
      ensures var u := Revert(Trigger(s, ifindex, routes), ifindex, back);
              && p in u.psbs
              && (u.psbs[p].frrActive == s.psbs[p].frrActive <==>
                  && (Switchable(s, p, ifindex) ==> Reservation(s, p).Some? && BypassProtects(s, p, ifindex))
                  && (SwitchedFor(s, p, ifindex) ==> Reservation(s, p).None?))
    {
      FlagAfterRecovery(s, ifindex, routes, back, p);
    }
    PathsRemain(s, ifindex, routes, back);
  }

  lemma PathsRemain(s: State, ifindex: nat, routes: Ref -> int, back: Ref -> int)
    requires Inv(s)
    ensures Revert(Trigger(s, ifindex, routes), ifindex, back).psbs.Keys == s.psbs.Keys
  {
    WalkIsAll(s);
    TriggerFlags(s, Walk(s.psbTable), ifindex, routes);
    var t := Trigger(s, ifindex, routes);
    RevertFlags(t, Walk(t.psbTable), ifindex, back);
  }

  /** No path that a recovery of the interface could put back is switched for it yet. */
  ghost predicate NoneSwitched(s: State, ifindex: nat)
    requires Shaped(s)
  {
    forall p :: SwitchedFor(s, p, ifindex) ==> Reservation(s, p).None?
  }

  /** An armed path on its own route, whose bypass protects the interface. */
  ghost predicate OnPrimary(s: State, p: Ref, ifindex: nat)
    requires Shaped(s) && p in s.psbs
  {
    && BypassProtects(s, p, ifindex) && EntryKey(s, p).Some?
    && EntryKey(s, p).value in s.fwd && s.fwd[EntryKey(s, p).value] == PrimaryOf(s, p)
  }

  /** An entry after a failure and a recovery. */
  lemma EntryAfterRoundTrip(s: State, ifindex: nat, routes: Ref -> int, back: Ref -> int, k: FwdKey)
    requires Inv(s) && NoneSwitched(s, ifindex)
    requires forall p :: Switchable(s, p, ifindex) ==> BypassProtects(s, p, ifindex)
    ensures var u := Revert(Trigger(s, ifindex, routes), ifindex, back);
            if exists p :: Switchable(s, p, ifindex) && EntryKey(s, p) == Some(k)
            then k in u.fwd && exists p :: Switchable(s, p, ifindex) && EntryKey(s, p) == Some(k) && u.fwd[k] == PrimaryOf(s, p)
            else SameEntry(s, u, k)
  {
    hide Inv, PrimaryOf, Detour, TriggerIn, RevertIn;
    var t, walk := Trigger(s, ifindex, routes), Walk(s.psbTable);
    WalkIsAll(s);
    TriggerFlags(s, walk, ifindex, routes);
    TriggerEntry(s, walk, ifindex, routes, k);
    RevertEntry(t, walk, ifindex, back, k);
    forall p
      ensures Diverts(s, walk, ifindex, p, k) <==> Switchable(s, p, ifindex) && EntryKey(s, p) == Some(k)
      ensures Restores(t, walk, ifindex, p, k) <==> Diverts(s, walk, ifindex, p, k)
      ensures Diverts(s, walk, ifindex, p, k) ==> PrimaryOf(t, p) == PrimaryOf(s, p)
    {
      RestoresWhatWasDiverted(s, ifindex, routes, p, k);
    }
    RoundTripEntry(s, t, walk, ifindex, Revert(t, ifindex, back), k);
  }

  lemma RestoresWhatWasDiverted(s: State, ifindex: nat, routes: Ref -> int, p: Ref, k: FwdKey)
    requires Inv(s) && NoneSwitched(s, ifindex) && (Switchable(s, p, ifindex) ==> BypassProtects(s, p, ifindex))
    ensures var t, walk := Trigger(s, ifindex, routes), Walk(s.psbTable);
            && t.psbTable == s.psbTable
            && (Diverts(s, walk, ifindex, p, k) <==> Switchable(s, p, ifindex) && EntryKey(s, p) == Some(k))
            && (Restores(t, walk, ifindex, p, k) <==> Diverts(s, walk, ifindex, p, k))
            && (Diverts(s, walk, ifindex, p, k) ==> PrimaryOf(t, p) == PrimaryOf(s, p))
  {
    WalkIsAll(s);
    TriggerFlags(s, Walk(s.psbTable), ifindex, routes);
    if p in s.psbs {
      SwitchedAfterFailure(s, ifindex, routes, p);
    }
  }

  lemma RoundTripEntry(s: State, t: State, walk: seq<Ref>, ifindex: nat, u: State, k: FwdKey)
    requires Shaped(s) && Shaped(t)
    requires EntryAfterFailure(s, walk, ifindex, t, k) && EntryAfterRecovery(t, walk, ifindex, u, k)
    requires forall p :: Diverts(s, walk, ifindex, p, k) <==> Switchable(s, p, ifindex) && EntryKey(s, p) == Some(k)
    requires forall p :: Restores(t, walk, ifindex, p, k) <==> Diverts(s, walk, ifindex, p, k)
    requires forall p :: Diverts(s, walk, ifindex, p, k) ==> PrimaryOf(t, p) == PrimaryOf(s, p)
    ensures if exists p :: Switchable(s, p, ifindex) && EntryKey(s, p) == Some(k)
            then k in u.fwd && exists p :: Switchable(s, p, ifindex) && EntryKey(s, p) == Some(k) && u.fwd[k] == PrimaryOf(s, p)
            else SameEntry(s, u, k)
  {
    if p :| Restores(t, walk, ifindex, p, k) && k in u.fwd && u.fwd[k] == PrimaryOf(t, p) {
      assert Diverts(s, walk, ifindex, p, k);
    }
  }

  /**
   * A recovery undoes a failure, flags and forwarding both, whenever every path that
   * the failure switches was on its own route with a bypass that protects this interface.
   */
  lemma RecoveryUndoesFailure(s: State, ifindex: nat, routes: Ref -> int, back: Ref -> int)
    requires Inv(s) && NoneSwitched(s, ifindex)
    requires forall p :: Switchable(s, p, ifindex) ==> OnPrimary(s, p, ifindex)
    ensures var u := Revert(Trigger(s, ifindex, routes), ifindex, back);
            SameFlags(s, u) && u.fwd == s.fwd
  {
    FlagsAreRestoredIff(s, ifindex, routes, back);
    var u := Revert(Trigger(s, ifindex, routes), ifindex, back);
    forall k
      ensures SameEntry(s, u, k)
    {
      EntryAfterRoundTrip(s, ifindex, routes, back, k);
    }
    SameEntries(s, u);
  }

  lemma SameEntries(s: State, u: State)
    requires forall k :: SameEntry(s, u, k)
    ensures u.fwd == s.fwd
  {
    forall k
      ensures (k in u.fwd <==> k in s.fwd) && (k in s.fwd ==> u.fwd[k] == s.fwd[k])
    {
      assert SameEntry(s, u, k);
    }
  }

  /**
   * For paths with in-labels the condition is exact: a recovery undoes a failure if and
   * only if every path that the failure switches was on its own route and its bypass
   * protects this interface, and none was switched for it before.
   */
  lemma RecoveryUndoesFailureIff(s: State, ifindex: nat, routes: Ref -> int, back: Ref -> int)
    requires Inv(s)
    requires forall p :: Switchable(s, p, ifindex) ==> EntryKey(s, p).Some? && EntryKey(s, p).value.InLabel?
    ensures var u := Revert(Trigger(s, ifindex, routes), ifindex, back);
            SameFlags(s, u) && u.fwd == s.fwd <==>
              NoneSwitched(s, ifindex) && forall p :: Switchable(s, p, ifindex) ==> OnPrimary(s, p, ifindex)
  {
    var u := Revert(Trigger(s, ifindex, routes), ifindex, back);
    FlagsAreRestoredIff(s, ifindex, routes, back);
    if SameFlags(s, u) && u.fwd == s.fwd {
      forall p | Switchable(s, p, ifindex)
        ensures OnPrimary(s, p, ifindex)
      {
        var k := EntryKey(s, p).value;
        EntryAfterRoundTrip(s, ifindex, routes, back, k);
        var q :| Switchable(s, q, ifindex) && EntryKey(s, q) == Some(k) && u.fwd[k] == PrimaryOf(s, q);
        LabelsTellPathsApart(s, p, q);
      }
    }
    if NoneSwitched(s, ifindex) && forall p :: Switchable(s, p, ifindex) ==> OnPrimary(s, p, ifindex) {
      RecoveryUndoesFailure(s, ifindex, routes, back);
    }
  }
}
