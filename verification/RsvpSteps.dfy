// The handlers, timer callbacks and operator calls of the state machine, each a
// function from state to state.  Route lookups, local-address checks and the
// success of memory allocation are inputs.
module RsvpSteps {
  import opened Common
  import opened StateDb
  import opened RsvpState

  datatype HopInfo = HopInfo(addr: Addr, ifindex: nat)

  datatype FrrRequest = NoRequest | WantFacility | WantOneToOne | WantNeither

  datatype PathMsg = PathMsg(key: Key, hop: Option<HopInfo>, hasSender: bool, labelRequest: bool,
                             refresh: Option<nat>, frr: FrrRequest)

  /** What the node finds out while it handles a PATH; a route is an interface index, negative for none. */
  datatype PathEnv = PathEnv(psbAlloc: bool, rsbAlloc: bool, destLocal: bool, srcLocal: bool, route: int, sendRoute: int)

  datatype ResvMsg = ResvMsg(key: Key, hop: Option<HopInfo>, labelOut: Option<nat>, refresh: Option<nat>,
                             flowspec: Option<Flowspec>, style: Option<nat>)

  // ---- sending ----------------------------------------------------------

  /** Sending a PATH downstream records the egress interface, if there is a route. */
  function SendPath(s: State, p: Ref, route: int): State
    requires p in s.psbs
  {
    if route < 0 then s else SetPsb(s, p, s.psbs[p].(ifindexOut := route))
  }

  // ---- protection by a bypass tunnel -----------------------------------

  /** A bypass that can carry traffic around an interface: marked, protecting it, with a label from downstream. */
  predicate ReadyBypass(s: State, c: Ref, ifindex: nat)
    requires Shaped(s)
  {
    c in s.psbs && s.psbs[c].isBypass && s.psbs[c].protectedIf == ifindex && HasLabelOut(s, s.psbs[c].key)
  }

  predicate HasLabelOut(s: State, k: Key)
    requires Shaped(s)
  {
    var r := FindRsb(s, k);
    r.Some? && r.value in s.rsbs && s.rsbs[r.value].labelOut != 0
  }

  function FirstReady(s: State, walk: seq<Ref>, ifindex: nat): Option<Ref>
    requires Shaped(s)
  {
    if walk == [] then None
    else if ReadyBypass(s, walk[0], ifindex) then Some(walk[0])
    else FirstReady(s, walk[1..], ifindex)
  }

  predicate WantsBypass(v: Psb) {
    v.frrMode == Facility && v.bypassPsb == None && !v.isBypass
  }

  /** Arms a PSB with the first ready bypass for its egress interface. */
  function AutoAssociate(s: State, p: Ref): (t: State)
    requires Shaped(s) && p in s.psbs
    ensures Shaped(t)
  {
    var v := s.psbs[p];
    if !WantsBypass(v) || v.ifindexOut == 0 then s
    else match FirstReady(s, Walk(s.psbTable), v.ifindexOut)
      case None => s
      case Some(c) =>
        SetPsb(s, p, v.(bypassPsb := Some(c), bypassTunnelId := if c in s.psbs then s.psbs[c].key.tunnelId else 0))
  }

  /** One PSB of the scan made when a bypass comes up. */
  function AssociateOne(s: State, p: Ref, ifindex: nat): (t: State)
    requires Shaped(s)
    ensures Shaped(t)
  {
    if p in s.psbs && WantsBypass(s.psbs[p]) && s.psbs[p].ifindexOut == ifindex then AutoAssociate(s, p) else s
  }

  function AssociateIn(s: State, walk: seq<Ref>, ifindex: nat): (t: State)
    requires Shaped(s)
    ensures Shaped(t)
    decreases |walk|
  {
    if walk == [] then s else AssociateIn(AssociateOne(s, walk[0], ifindex), walk[1..], ifindex)
  }

  function AutoAssociateAll(s: State, ifindex: nat): (t: State)
    requires Shaped(s)
    ensures Shaped(t)
  {
    AssociateIn(s, Walk(s.psbTable), ifindex)
  }

  // ---- PATH -------------------------------------------------------------

  function AbsorbPath(v: Psb, m: PathMsg): Psb
    requires m.hop.Some?
  {
    v.(refreshMs := if m.refresh.Some? then m.refresh.value else v.refreshMs,
       frrMode := if v.isBypass then v.frrMode
                  else match m.frr
                    case WantFacility => Facility
                    case WantOneToOne => OneToOne
                    case _ => v.frrMode,
       prevHop := m.hop.value.addr, ifindexIn := m.hop.value.ifindex,
       cleanupArmed := true, refreshArmed := true)
  }

  /** The tunnel ends here: create the reservation, or follow the sender's refresh period. */
  function PathEgress(s: State, p: Ref, rsbAlloc: bool): (t: State)
    requires Shaped(s) && p in s.psbs
    ensures Shaped(t)
  {
    var v := s.psbs[p];
    match FindRsb(s, v.key)
    case Some(r) => if r in s.rsbs then SetRsb(s, r, s.rsbs[r].(refreshMs := v.refreshMs)) else s
    case None =>
      if !rsbAlloc then s
      else GiveLabel(AddRsbFor(s, p, NewRsb(v.key).(refreshMs := v.refreshMs, refreshArmed := true)), s.nextRef)
  }

  /** The tunnel goes on: forward, unless it is our own PATH or there is no route. */
  function PathTransit(s: State, p: Ref, isNew: bool, e: PathEnv): (t: State)
    requires Shaped(s) && p in s.psbs
    ensures Shaped(t)
  {
    if e.srcLocal then s
    else if e.route < 0 then (if isNew then DeletePsb(s, p) else s)
    else
      var t := SendPath(s, p, e.sendRoute);
      if WantsBypass(t.psbs[p]) then AutoAssociate(t, p) else t
  }

  function HandlePath(s: State, m: PathMsg, e: PathEnv): (t: State)
    requires Shaped(s)
    ensures Shaped(t)
  {
    var found := FindPsb(s, m.key);
    if m.hop.None? || !m.hasSender || (!m.labelRequest && found.None?) then s
    else if found.None? && !e.psbAlloc then s
    else
      var s1 := if found.None? then AddPsb(s, NewPsb(m.key).(refreshMs := DEFAULT_REFRESH_MS)) else s;
      var p := if found.None? then s.nextRef else found.value;
      if p !in s1.psbs then s
      else
        var s2 := SetPsb(s1, p, AbsorbPath(s1.psbs[p], m));
        if e.destLocal then PathEgress(s2, p, e.rsbAlloc) else PathTransit(s2, p, found.None?, e)
  }

  // ---- RESV -------------------------------------------------------------

  predicate AtLeast(a: Flowspec, b: Flowspec) {
    a.rate >= b.rate && a.size >= b.size
  }

  /** A reservation is blockaded when it is at least as large as the one that failed. */
  predicate Blockaded(s: State, r: Ref)
    requires r in s.rsbs
  {
    s.rsbs[r].key in s.bsbs && AtLeast(s.rsbs[r].flowspec, s.bsbs[s.rsbs[r].key])
  }

  function AbsorbResv(v: Rsb, m: ResvMsg): Rsb {
    v.(refreshMs := if m.refresh.Some? then m.refresh.value else v.refreshMs,
       flowspec := if m.flowspec.Some? then m.flowspec.value else v.flowspec,
       style := if m.style.Some? then m.style.value % 256 else v.style)
  }

  /** Tears down the path that a replacement path was set up for, and ends the replacement. */
  function MbbComplete(s: State, n: Ref): (t: State)
    requires Shaped(s) && n in s.psbs
    ensures Shaped(t)
  {
    var prior := FindById(s, s.psbs[n].key.tunnelId, s.psbs[n].mbbOldLspId);
    var t := if prior.Some? && prior.value in s.psbs then PsbCleanup(s, prior.value) else s;
    if n in t.psbs then SetPsb(t, n, t.psbs[n].(mbbPending := false, mbbOldLspId := 0)) else t
  }

  /** Programs forwarding for a new or changed reservation; a transit node needs an in-label for it. */
  function ProgramForwarding(s: State, r: Ref, p: Ref): (t: State)
    requires r in s.rsbs && p in s.psbs && Shaped(s)
    ensures Shaped(t) && t.psbs == s.psbs && r in t.rsbs
  {
    if s.psbs[p].prevHop != 0 then
      var t := GiveLabel(s, r);
      if t.rsbs[r].labelIn == 0 then t else Install(t, InLabel(t.rsbs[r].labelIn), Primary(t.rsbs[r]))
    else Install(s, ToDest(s.psbs[p].key.dest), Primary(s.rsbs[r]))
  }

  /** After forwarding is programmed: arm waiting LSPs, complete a replacement. */
  function AfterForwarding(s: State, p: Ref, isNew: bool, labelChanged: bool): (t: State)
    requires Shaped(s) && p in s.psbs
    ensures Shaped(t)
  {
    var t := if s.psbs[p].isBypass && (isNew || labelChanged) then AutoAssociateAll(s, s.psbs[p].protectedIf) else s;
    if isNew && p in t.psbs && t.psbs[p].mbbPending then MbbComplete(t, p) else t
  }

  /** Programs forwarding and follows up; a new reservation for which no in-label is left is dropped. */
  function Reprogram(s: State, r: Ref, p: Ref, isNew: bool, labelChanged: bool): (t: State)
    requires Shaped(s) && r in s.rsbs && p in s.psbs
    ensures Shaped(t)
  {
    var u := ProgramForwarding(s, r, p);
    if u.psbs[p].prevHop != 0 && u.rsbs[r].labelIn == 0 then (if isNew then RsbCleanup(u, r) else u)
    else AfterForwarding(u, p, isNew, labelChanged)
  }

  /** The part of a RESV after the blockade check. */
  function AcceptResv(s: State, r: Ref, isNew: bool, m: ResvMsg): (t: State)
    requires Shaped(s) && r in s.rsbs && m.hop.Some? && m.labelOut.Some?
    ensures Shaped(t)
  {
    var v := s.rsbs[r];
    var linked := v.assocPsb.Some? && v.assocPsb.value in s.psbs;
    var isIngress := linked && s.psbs[v.assocPsb.value].isIngress;
    var w := v.(cleanupArmed := true, refreshArmed := !isIngress,
                labelOut := m.labelOut.value, nextHop := m.hop.value.addr, nextIf := m.hop.value.ifindex);
    var t := SetRsb(s, r, w);
    var labelChanged := w.labelOut != v.labelOut;
    if !linked then t
    else
      var p := v.assocPsb.value;
      if isNew || labelChanged || w.nextHop != v.nextHop then
        Reprogram(t, r, p, isNew, labelChanged)
      else if s.psbs[p].prevHop != 0 && !isIngress then GiveLabel(t, r)
      else t
  }

  function HandleResv(s: State, m: ResvMsg, rsbAlloc: bool): (t: State)
    requires Shaped(s)
    ensures Shaped(t)
  {
    var psb := FindPsb(s, m.key);
    var rsb := FindRsb(s, m.key);
    if psb.None? || psb.value !in s.psbs || m.hop.None? || m.labelOut.None? then s
    else if rsb.None? && !rsbAlloc then s
    else
      var p := psb.value;
      var s1 := if rsb.None? then AddRsbFor(s, p, NewRsb(m.key).(refreshMs := s.psbs[p].refreshMs)) else s;
      var r := if rsb.None? then s.nextRef else rsb.value;
      if r !in s1.rsbs then s
      else
        var s2 := SetRsb(s1, r, AbsorbResv(s1.rsbs[r], m));
        if Blockaded(s2, r) then (if rsb.None? then DeleteRsb(s2, r) else s2)
        else AcceptResv(s2, r, rsb.None?, m)
  }

  // ---- tears, errors, timers -------------------------------------------

  function HandlePathTear(s: State, k: Key): (t: State)
    requires Shaped(s)
    ensures Shaped(t)
  {
    var p := FindPsb(s, k);
    var t := if p.Some? && p.value in s.psbs then PsbCleanup(s, p.value) else s;
    t.(bsbs := t.bsbs - {k})
  }

  function HandleResvTear(s: State, k: Key): (t: State)
    requires Shaped(s)
    ensures Shaped(t)
  {
    var r := FindRsb(s, k);
    var t := if r.Some? && r.value in s.rsbs then RsbCleanup(s, r.value) else s;
    t.(bsbs := t.bsbs - {k})
  }

  /** An admission failure with a flowspec blockades the reservation; `failed` is that flowspec. */
  function HandleResvErr(s: State, k: Key, failed: Option<Flowspec>, bsbAlloc: bool): (t: State)
    requires Shaped(s)
    ensures Shaped(t)
  {
    if failed.Some? && (k in s.bsbs || bsbAlloc) then s.(bsbs := s.bsbs[k := failed.value]) else s
  }

  function PsbRefreshTimer(s: State, p: Ref, destLocal: bool, route: int): (t: State)
    requires Shaped(s)
    ensures Shaped(t)
  {
    if p !in s.psbs || !s.psbs[p].refreshArmed then s
    else if s.psbs[p].isIngress || !destLocal then SendPath(s, p, route)
    else s
  }

  function PsbCleanupTimer(s: State, p: Ref): (t: State)
    requires Shaped(s)
    ensures Shaped(t)
  {
    if p !in s.psbs || !s.psbs[p].cleanupArmed then s else PsbCleanup(s, p)
  }

  function RsbRefreshTimer(s: State, r: Ref): (t: State)
    requires Shaped(s)
    ensures Shaped(t)
  {
    if r !in s.rsbs || !s.rsbs[r].refreshArmed then s
    else
      var a := s.rsbs[r].assocPsb;
      if a.Some? && a.value in s.psbs && s.psbs[a.value].prevHop != 0 && !s.psbs[a.value].isIngress
      then GiveLabel(s, r) else s
  }

  function RsbCleanupTimer(s: State, r: Ref): (t: State)
    requires Shaped(s)
    ensures Shaped(t)
  {
    if r !in s.rsbs || !s.rsbs[r].cleanupArmed then s else RsbCleanup(s, r)
  }

  // ---- operator calls ---------------------------------------------------

  function IngressKey(s: State, src: Addr, dest: Addr, tunnelId: nat): Key {
    Key(dest, 0, tunnelId, src, src, 0, s.nextLspId)
  }

  function BumpLspId(s: State): State {
    s.(nextLspId := (s.nextLspId + 1) % 65536)
  }

  /** Sets up an LSP from this node; an existing PSB only has its PATH sent again. */
  function InitiatePath(s: State, src: Addr, dest: Addr, tunnelId: nat, frr: bool, alloc: bool, route: int): (t: State)
    requires Shaped(s)
    ensures Shaped(t)
  {
    var k, t := IngressKey(s, src, dest, tunnelId), BumpLspId(s);
    var found := FindPsb(t, k);
    if found.Some? then (if found.value in t.psbs then SendPath(t, found.value, route) else t)
    else if !alloc then t
    else
      var v := NewPsb(k).(refreshMs := DEFAULT_REFRESH_MS, isIngress := true, refreshArmed := true,
                          frrMode := if frr then Facility else NoFrr);
      SendPath(AddPsb(t, v), t.nextRef, route)
  }

  function InitiateBypass(s: State, src: Addr, dest: Addr, tunnelId: nat, protectedIf: nat, alloc: bool, route: int): (t: State)
    requires Shaped(s)
    ensures Shaped(t)
  {
    var k, t := IngressKey(s, src, dest, tunnelId), BumpLspId(s);
    if FindPsb(t, k).Some? || !alloc then t
    else
      var v := NewPsb(k).(refreshMs := DEFAULT_REFRESH_MS, isIngress := true, refreshArmed := true,
                          isBypass := true, protectedIf := protectedIf);
      SendPath(AddPsb(t, v), t.nextRef, route)
  }

  function FirstBypass(s: State, walk: seq<Ref>, tunnelId: nat): Option<Ref> {
    if walk == [] then None
    else if walk[0] in s.psbs && s.psbs[walk[0]].key.tunnelId == tunnelId && s.psbs[walk[0]].isBypass then Some(walk[0])
    else FirstBypass(s, walk[1..], tunnelId)
  }

  function EnableProtection(s: State, tunnelId: nat, lspId: nat, mode: FrrMode, bypassTunnelId: nat): (t: State)
    requires Shaped(s)
    ensures Shaped(t)
  {
    var p := FindById(s, tunnelId, lspId);
    var c := FirstBypass(s, Walk(s.psbTable), bypassTunnelId);
    if p.None? || p.value !in s.psbs || c.None? || c.value !in s.psbs || !HasLabelOut(s, s.psbs[c.value].key) then s
    else SetPsb(s, p.value, s.psbs[p.value].(frrMode := mode, bypassTunnelId := bypassTunnelId, bypassPsb := c))
  }

  function Teardown(s: State, tunnelId: nat, lspId: nat): (t: State)
    requires Shaped(s)
    ensures Shaped(t)
  {
    var p := FindById(s, tunnelId, lspId);
    if p.Some? && p.value in s.psbs then PsbCleanup(s, p.value) else s
  }

  /** Sets up a replacement for an ingress LSP: same session, new LSP id, marked until its first RESV. */
  function MbbStart(s: State, tunnelId: nat, oldLspId: nat, newLspId: nat, alloc: bool, route: int): (t: State)
    requires Shaped(s)
    ensures Shaped(t)
  {
    var prior := FindById(s, tunnelId, oldLspId);
    if prior.None? || prior.value !in s.psbs || !s.psbs[prior.value].isIngress then s
    else
      var o := s.psbs[prior.value];
      var k := o.key.(lspId := newLspId);
      if FindPsb(s, k).Some? || !alloc then s
      else
        var v := NewPsb(k).(refreshMs := o.refreshMs, isIngress := true, frrMode := o.frrMode, refreshArmed := true,
                            mbbPending := true, mbbOldLspId := oldLspId);
        SendPath(AddPsb(s, v), s.nextRef, route)
  }

  // ---- fast reroute -----------------------------------------------------

  /** An LSP that a failure of an interface switches to its bypass. */
  predicate Switchable(s: State, p: Ref, ifindex: nat)
    requires Shaped(s)
  {
    && p in s.psbs
    && var v := s.psbs[p];
       && v.ifindexOut == ifindex && v.frrMode == Facility && !v.frrActive && !v.isBypass
       && v.bypassPsb.Some? && v.bypassPsb.value in s.psbs
       && HasLabelOut(s, s.psbs[v.bypassPsb.value].key)
  }

  /** Traffic of an LSP over a bypass: the bypass's label, next hop and interface. */
  function BypassEntry(bypass: Rsb, dest: Addr): Entry {
    Entry(bypass.labelOut, bypass.nextIf, bypass.nextHop, dest)
  }

  function TriggerOne(s: State, p: Ref, ifindex: nat, routes: Ref -> int): (t: State)
    requires Shaped(s)
    ensures Shaped(t)
  {
    if !Switchable(s, p, ifindex) then s
    else
      var v := s.psbs[p];
      var b := s.psbs[v.bypassPsb.value];
      var br := s.rsbs[FindRsb(s, b.key).value];
      var r := FindRsb(s, v.key);
      var t := if r.Some? && r.value in s.rsbs
               then Install(s, FwdKeyFor(s.rsbs[r.value].labelIn, v.key.dest), BypassEntry(br, v.key.dest)) else s;
      SendPath(SetPsb(t, p, v.(frrActive := true, ifindexOut := b.ifindexOut)), p, routes(p))
  }

  function TriggerIn(s: State, walk: seq<Ref>, ifindex: nat, routes: Ref -> int): (t: State)
    requires Shaped(s)
    ensures Shaped(t)
    decreases |walk|
  {
    if walk == [] then s else TriggerIn(TriggerOne(s, walk[0], ifindex, routes), walk[1..], ifindex, routes)
  }

  /** An interface failed: switch every armed LSP that leaves through it. */
  function Trigger(s: State, ifindex: nat, routes: Ref -> int): (t: State)
    requires Shaped(s)
    ensures Shaped(t)
  {
    TriggerIn(s, Walk(s.psbTable), ifindex, routes)
  }

  /** A switched LSP whose bypass protects the interface. */
  predicate SwitchedFor(s: State, p: Ref, ifindex: nat) {
    && p in s.psbs && s.psbs[p].frrActive
    && s.psbs[p].bypassPsb.Some? && s.psbs[p].bypassPsb.value in s.psbs
    && s.psbs[s.psbs[p].bypassPsb.value].protectedIf == ifindex
  }

  function RevertOne(s: State, p: Ref, ifindex: nat, routes: Ref -> int): (t: State)
    requires Shaped(s)
    ensures Shaped(t)
  {
    if !SwitchedFor(s, p, ifindex) then s
    else
      var v := s.psbs[p];
      match FindRsb(s, v.key)
      case None => s
      case Some(r) =>
        if r !in s.rsbs then s
        else
          var t := Install(s, FwdKeyFor(s.rsbs[r].labelIn, v.key.dest), Primary(s.rsbs[r]));
          SendPath(SetPsb(t, p, v.(frrActive := false, ifindexOut := ifindex)), p, routes(p))
  }

  function RevertIn(s: State, walk: seq<Ref>, ifindex: nat, routes: Ref -> int): (t: State)
    requires Shaped(s)
    ensures Shaped(t)
    decreases |walk|
  {
    if walk == [] then s else RevertIn(RevertOne(s, walk[0], ifindex, routes), walk[1..], ifindex, routes)
  }

  /** An interface recovered: put the LSPs switched for it back on their own path. */
  function Revert(s: State, ifindex: nat, routes: Ref -> int): (t: State)
    requires Shaped(s)
    ensures Shaped(t)
  {
    RevertIn(s, Walk(s.psbTable), ifindex, routes)
  }
}
