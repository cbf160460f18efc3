// Arming: what the arrival of a bypass tunnel's label does to every waiting path.
module BypassUp {
  import opened Common
  import opened StateDb
  import opened RsvpState
  import opened RsvpSteps
  import opened RsvpInvariant
  import opened RsvpRuns

  /** Some reservation with the key has a label from downstream. */
  ghost predicate Labelled(s: State, k: Key) {
    exists r :: r in s.rsbs && s.rsbs[r].key == k && s.rsbs[r].labelOut != 0
  }

  lemma LabelledIff(s: State, k: Key)
    requires Inv(s)
    ensures Labelled(s, k) <==> HasLabelOut(s, k)
  {
    FindRsbExact(s, k);
  }

  /** A bypass tunnel that protects the interface and can carry traffic. */
  ghost predicate Carries(s: State, c: Ref, ifindex: nat) {
    c in s.psbs && s.psbs[c].isBypass && s.psbs[c].protectedIf == ifindex && Labelled(s, s.psbs[c].key)
  }

  lemma CarriesIff(s: State, c: Ref, ifindex: nat)
    requires Inv(s)
    ensures Carries(s, c, ifindex) <==> ReadyBypass(s, c, ifindex)
  {
    if c in s.psbs {
      LabelledIff(s, s.psbs[c].key);
    }
  }

  lemma {:induction false} FirstReadyIs(s: State, walk: seq<Ref>, ifindex: nat)
    requires Shaped(s)
    ensures match FirstReady(s, walk, ifindex)
            case Some(c) => c in walk && ReadyBypass(s, c, ifindex)
            case None => forall c :: c in walk ==> !ReadyBypass(s, c, ifindex)
    decreases |walk|
  {
    if walk != [] {
      FirstReadyIs(s, walk[1..], ifindex);
    }
  }

  /** No bypass that is ready comes before the one a scan finds. */
  lemma {:induction false} FirstReadyIsFirst(s: State, walk: seq<Ref>, ifindex: nat, d: Ref)
    requires Shaped(s) && Distinct(walk) && ReadyBypass(s, d, ifindex)
    ensures FirstReady(s, walk, ifindex).Some? ==> !Before(walk, d, FirstReady(s, walk, ifindex).value)
    decreases |walk|
  {
    if walk != [] {
      if ReadyBypass(s, walk[0], ifindex) {
        NothingBeforeHead(walk, d);
      } else {
        FirstReadyIsFirst(s, walk[1..], ifindex, d);
        var c := FirstReady(s, walk, ifindex);
        if c.Some? && Before(walk, d, c.value) {
          BeforeInRest(walk, d, c.value);
        }
      }
    }
  }

  /** A bypass that can carry the traffic of an interface, and the first such in the order of the table. */
  ghost predicate FirstToCarry(s: State, c: Ref, ifindex: nat) {
    Carries(s, c, ifindex) && forall d :: Carries(s, d, ifindex) ==> !Before(Walk(s.psbTable), d, c)
  }

  lemma FoundIsFirst(s: State, ifindex: nat)
    requires Inv(s)
    ensures match FirstReady(s, Walk(s.psbTable), ifindex)
            case Some(c) => FirstToCarry(s, c, ifindex)
            case None => forall c :: !Carries(s, c, ifindex)
  {
    hide Inv, FirstReady, ReadyBypass, Carries;
    var walk := Walk(s.psbTable);
    AllInWalk(s);
    FirstReadyIs(s, walk, ifindex);
    ReadyAreListed(s, ifindex);
    forall d
      ensures Carries(s, d, ifindex) <==> ReadyBypass(s, d, ifindex)
    {
      CarriesIff(s, d, ifindex);
    }
    forall d | ReadyBypass(s, d, ifindex)
      ensures FirstReady(s, walk, ifindex).Some? ==> !Before(walk, d, FirstReady(s, walk, ifindex).value)
    {
      FirstReadyIsFirst(s, walk, ifindex, d);
    }
  }

  lemma ReadyAreListed(s: State, ifindex: nat)
    requires Inv(s)
    ensures forall c :: ReadyBypass(s, c, ifindex) ==> c in Walk(s.psbTable)
  {
    AllInWalk(s);
  }

  /** A path that the arrival of a bypass for an interface can arm. */
  ghost predicate Waits(s: State, p: Ref, ifindex: nat) {
    && p in s.psbs && s.psbs[p].frrMode == Facility && s.psbs[p].bypassPsb == None && !s.psbs[p].isBypass
    && s.psbs[p].ifindexOut == ifindex
  }

  /** Only associations of waiting paths differ. */
  ghost predicate OnlyArming(s: State, t: State, ifindex: nat) {
    && t == s.(psbs := t.psbs) && t.psbs.Keys == s.psbs.Keys
    && forall p :: p in s.psbs ==>
         if Waits(s, p, ifindex)
         then t.psbs[p] == s.psbs[p].(bypassPsb := t.psbs[p].bypassPsb, bypassTunnelId := t.psbs[p].bypassTunnelId)
         else t.psbs[p] == s.psbs[p]
  }

  /** A path waiting for a bypass is not one, so arming changes no bypass. */
  lemma ReadinessStays(s: State, t: State, c: Ref, ifindex: nat)
    requires Shaped(s) && OnlyArming(s, t, ifindex)
    ensures Shaped(t) && (ReadyBypass(t, c, ifindex) <==> ReadyBypass(s, c, ifindex))
  {
    assert RsbKeys(t) == RsbKeys(s);
  }

  lemma {:induction false} FirstReadyStays(s: State, t: State, walk: seq<Ref>, ifindex: nat)
    requires Shaped(s) && OnlyArming(s, t, ifindex)
    ensures Shaped(t) && FirstReady(t, walk, ifindex) == FirstReady(s, walk, ifindex)
    decreases |walk|
  {
    if walk != [] {
      ReadinessStays(s, t, walk[0], ifindex);
      FirstReadyStays(s, t, walk[1..], ifindex);
    }
  }

  /** A path with a bypass, if there is one. */
  ghost function AsArmed(s: State, p: Ref, c: Option<Ref>): Psb
    requires p in s.psbs
  {
    if c.Some? && c.value in s.psbs
    then s.psbs[p].(bypassPsb := c, bypassTunnelId := s.psbs[c.value].key.tunnelId) else s.psbs[p]
  }

  lemma ArmOne(s: State, p: Ref, ifindex: nat)
    requires Shaped(s) && Waits(s, p, ifindex) && ifindex != 0
    ensures var t, c := AssociateOne(s, p, ifindex), FirstReady(s, Walk(s.psbTable), ifindex);
            && OnlyArming(s, t, ifindex) && t.psbs[p] == AsArmed(s, p, c)
            && (forall q :: q in s.psbs && q != p ==> t.psbs[q] == s.psbs[q])
            && (c.None? ==> t == s)
  {
    hide FirstReady, Walk;
    FirstReadyIs(s, Walk(s.psbTable), ifindex);
  }

  lemma {:induction false} ArmIn(s: State, walk: seq<Ref>, ifindex: nat)
    requires Shaped(s) && Distinct(walk) && ifindex != 0
    ensures var t, c := AssociateIn(s, walk, ifindex), FirstReady(s, Walk(s.psbTable), ifindex);
            && OnlyArming(s, t, ifindex)
            && (forall p :: p in s.psbs ==>
                  t.psbs[p] == if p in walk && Waits(s, p, ifindex) then AsArmed(s, p, c) else s.psbs[p])
    decreases |walk|
  {
    if walk != [] {
      var p, t1 := walk[0], AssociateOne(s, walk[0], ifindex);
      if Waits(s, p, ifindex) {
        ArmOne(s, p, ifindex);
        FirstReadyStays(s, t1, Walk(s.psbTable), ifindex);
        FirstReadyIs(s, Walk(s.psbTable), ifindex);
      }
      ArmIn(t1, walk[1..], ifindex);
      ArmingChains(s, t1, AssociateIn(t1, walk[1..], ifindex), ifindex);
    }
  }

  lemma ArmingChains(s: State, t: State, u: State, ifindex: nat)
    requires OnlyArming(s, t, ifindex) && OnlyArming(t, u, ifindex)
    ensures OnlyArming(s, u, ifindex)
  {
  }

  /**
   * When some bypass that protects an interface has a label, afterwards no path that
   * leaves through the interface and asked for a bypass is without one, and each new
   * association is to a bypass tunnel that protects this interface and has a label.
   * When there is no such bypass nothing changes; no association that was there changes.
   */
  lemma BypassUpArmsAll(s: State, ifindex: nat)
    requires Inv(s) && ifindex != 0
    ensures var t := AutoAssociateAll(s, ifindex);
            && OnlyArming(s, t, ifindex)
            && ((forall p :: !Waits(t, p, ifindex)) <==>
                  (exists c :: ReadyBypass(s, c, ifindex)) || (forall p :: !Waits(s, p, ifindex)))
            && (forall p :: p in s.psbs && t.psbs[p].bypassPsb != s.psbs[p].bypassPsb ==>
                  && s.psbs[p].bypassPsb == None && t.psbs[p].bypassPsb.Some?
                  && ReadyBypass(t, t.psbs[p].bypassPsb.value, ifindex))
  {
    hide Inv, AssociateIn, FirstReady, ReadyBypass;
    var t, c := AutoAssociateAll(s, ifindex), FirstReady(s, Walk(s.psbTable), ifindex);
    ReadyAreListed(s, ifindex);
    AllInWalk(s);
    ArmIn(s, Walk(s.psbTable), ifindex);
    FirstReadyIs(s, Walk(s.psbTable), ifindex);
    if c.Some? {
      ReadinessStays(s, t, c.value, ifindex);
      assert forall p :: Waits(s, p, ifindex) ==> t.psbs[p] == AsArmed(s, p, c);
    } else {
      assert forall p :: Waits(s, p, ifindex) ==> Waits(t, p, ifindex);
    }
  }

  /**
   * When some bypass can carry the traffic of an interface, every path that waits for one gets the first
   * that can, and its tunnel id; every other path, and everything else, stays as it is.
   */
  lemma ArmingIsExact(s: State, ifindex: nat, p: Ref)
    requires Inv(s) && ifindex != 0 && p in s.psbs
    ensures var t := AutoAssociateAll(s, ifindex);
            && p in t.psbs && t == s.(psbs := t.psbs)
            && if Waits(s, p, ifindex) && exists c :: Carries(s, c, ifindex)
               then && t.psbs[p].bypassPsb.Some? && FirstToCarry(s, t.psbs[p].bypassPsb.value, ifindex)
                    && t.psbs[p] == AsArmed(s, p, t.psbs[p].bypassPsb)
               else t.psbs[p] == s.psbs[p]
  {
    hide Inv, AssociateIn, FirstReady;
    AllInWalk(s);
    ArmIn(s, Walk(s.psbTable), ifindex);
    FoundIsFirst(s, ifindex);
  }

  /** One path that is sent on is given a bypass for its egress interface on the same terms. */
  lemma AssociationIsExact(s: State, p: Ref)
    requires Inv(s) && p in s.psbs
    ensures var t, i := AutoAssociate(s, p), s.psbs[p].ifindexOut;
            && p in t.psbs && t == s.(psbs := s.psbs[p := t.psbs[p]])
            && if i != 0 && Waits(s, p, i) && exists c :: Carries(s, c, i)
               then && t.psbs[p].bypassPsb.Some? && FirstToCarry(s, t.psbs[p].bypassPsb.value, i)
                    && t.psbs[p] == AsArmed(s, p, t.psbs[p].bypassPsb)
               else t.psbs[p] == s.psbs[p]
  {
    hide Inv, FirstReady, Walk;
    assert s.psbs[p := s.psbs[p]] == s.psbs;
    FoundIsFirst(s, s.psbs[p].ifindexOut);
  }

  lemma AllInWalk(s: State)
    requires Inv(s)
    ensures Distinct(Walk(s.psbTable)) && forall p :: p in s.psbs <==> p in Walk(s.psbTable)
  {
    WalkVisitsEachOnce(s.psbTable, PsbKeys(s));
  }

  /** Interface 0 means no interface: a bypass for it arms nothing. */
  lemma {:induction false} NoInterfaceArmsNothing(s: State, walk: seq<Ref>)
    requires Shaped(s)
    ensures AssociateIn(s, walk, 0) == s
    decreases |walk|
  {
    if walk != [] {
      NoInterfaceArmsNothing(s, walk[1..]);
    }
  }
}
