// Two nodes and the bytes between them: what one node's blocks become in a message, and
// what the other node's handler is given when it has parsed it.
module Neighbours {
  import opened Common
  import opened Wire
  import opened Builder
  import opened Objects
  import opened RoundTrip
  import opened StateDb
  import opened RsvpState
  import opened RsvpSteps
  import opened RsvpInvariant
  import opened RsvpRuns
  import opened RsvpEffects
  import opened PathEffects
  import opened ResvOutcome
  import ER = ExplicitRoute
  import PM = PathMessage
  import RM = ResvMessage
  import P = Parser
  import LP = LabelPool

  // ---- reading ----------------------------------------------------------

  /** The 32-bit number at a position. */
  function U32(d: seq<byte>, i: nat): nat
    requires i + 3 < |d|
  {
    U16(d, i) * 65536 + U16(d, i + 2)
  }

  /** The key under which a handler looks for state: session and sender, copied from their objects. */
  function KeyIn(session: seq<byte>, sender: seq<byte>): Key
    requires |session| >= 12 && |sender| >= 8
  {
    Key(U32(session, 0), U16(session, 4), U16(session, 6), U32(session, 8), U32(sender, 0), U16(sender, 4), U16(sender, 6))
  }

  function HopIn(d: seq<byte>): Option<HopInfo> {
    if |d| >= 8 then Some(HopInfo(U32(d, 0), U32(d, 4))) else None
  }

  function NumberIn(d: seq<byte>): Option<nat> {
    if |d| >= 4 then Some(U32(d, 0)) else None
  }

  /** The protection that the flags of a FAST_REROUTE object ask for; the facility flag is looked at first. */
  function RequestIn(d: seq<byte>): FrrRequest {
    if |d| < 20 then NoRequest
    else if d[3] / 2 % 2 == 1 then WantFacility
    else if d[3] % 2 == 1 then WantOneToOne
    else WantNeither
  }

  /** The RESV that a handler sees; `flow` reads the floating-point numbers of a flowspec. */
  function ReadResv(info: P.Info, flow: seq<byte> -> Flowspec): ResvMsg
    requires |Slot(info, P.Session)| >= 12 && |Slot(info, P.Sender)| >= 8
  {
    ResvMsg(KeyIn(Slot(info, P.Session), Slot(info, P.Sender)), HopIn(Slot(info, P.Hop)), NumberIn(Slot(info, P.Label)),
            NumberIn(Slot(info, P.TimeValues)),
            if P.FlowSpec in info.found then Some(flow(Slot(info, P.FlowSpec))) else None, NumberIn(Slot(info, P.Style)))
  }

  function ReadPath(info: P.Info): PathMsg
    requires |Slot(info, P.Session)| >= 12 && |Slot(info, P.Sender)| >= 8
  {
    PathMsg(KeyIn(Slot(info, P.Session), Slot(info, P.Sender)), HopIn(Slot(info, P.Hop)), P.Sender in info.found,
            P.LabelRequest in info.found, NumberIn(Slot(info, P.TimeValues)), RequestIn(Slot(info, P.FastReroute)))
  }

  // ---- writing ----------------------------------------------------------

  /** A key whose numbers have the widths they have on the wire; the reserved half of a session is sent as 0. */
  ghost predicate Sendable(k: Key) {
    && k.dest < UINT32 && k.sessionRsvd == 0 && k.tunnelId < 65536 && k.extTunnelId < UINT32
    && k.src < UINT32 && k.senderRsvd < 65536 && k.lspId < 65536
  }

  function SenderBytes(k: Key): seq<byte>
    requires Sendable(k)
  {
    Put32(k.src) + Put16(k.senderRsvd) + Put16(k.lspId)
  }

  /** The RESV that a node sends upstream for a reservation. */
  function ResvFor(v: Rsb, k: Key, addr: nat, ifindex: nat, flowspec: seq<byte>): RM.ResvContent
    requires Sendable(k) && addr < UINT32
  {
    RM.ResvContent(Put32(k.dest), k.tunnelId, Put32(k.extTunnelId), Put32(addr), ifindex, v.refreshMs, v.style,
                   flowspec, SenderBytes(k), v.labelIn)
  }

  /** What a PATH says beside what the state machine keeps: route, name, priorities, bandwidth, traffic and record. */
  datatype PathExtras = PathExtras(ero: seq<ER.Hop>, name: seq<byte>, setupPrio: byte, holdingPrio: byte,
                                   bandwidth: seq<byte>, tspec: seq<byte>, rro: seq<ER.Hop>)

  /** The flags of the SESSION_ATTRIBUTE: protection wanted, shared explicit, and what is in use. */
  function AttributeFlags(v: Psb): byte {
    if !v.frrActive then 0x05 else if v.frrMode == Facility then 0x2D else 0x0D
  }

  /** Bit 0, protection wanted; bit 2, shared explicit style; bit 3, protection in use; bit 5, by a bypass. */
  ghost predicate FlagsSay(d: seq<byte>, v: Psb) {
    && |d| >= 4 && d[2] % 2 == 1 && d[2] / 4 % 2 == 1
    && (d[2] / 8 % 2 == 1 <==> v.frrActive) && (d[2] / 32 % 2 == 1 <==> v.frrActive && v.frrMode == Facility)
    && d[2] / 2 % 2 == 0 && d[2] / 16 % 2 == 0 && d[2] < 64
  }

  /** The FAST_REROUTE payload: always the facility flag, whatever the mode. */
  function RerouteBytes(x: PathExtras): seq<byte> {
    [x.setupPrio, x.holdingPrio, 32, 0x02] + x.bandwidth + Zeros(12)
  }

  /** The PATH that a node sends downstream for a path. */
  function PathFor(v: Psb, addr: nat, ifindex: nat, x: PathExtras): PM.PathContent
    requires Sendable(v.key) && addr < UINT32
  {
    PM.PathContent(Put32(v.key.dest), v.key.tunnelId, Put32(v.key.extTunnelId), Put32(addr), ifindex, v.refreshMs,
                   x.ero, x.name, x.setupPrio, x.holdingPrio, AttributeFlags(v),
                   if v.frrMode != NoFrr && !v.isBypass then Some(RerouteBytes(x)) else None,
                   SenderBytes(v.key), x.tspec, x.rro)
  }

  lemma SenderReads(k: Key)
    requires Sendable(k)
    ensures var d := SenderBytes(k);
            |d| == 8 && U32(d, 0) == k.src && U16(d, 4) == k.senderRsvd && U16(d, 6) == k.lspId
  {
    var d := SenderBytes(k);
    assert d[..4] == Put32(k.src) && d[4..6] == Put16(k.senderRsvd) && d[6..] == Put16(k.lspId);
    assert d[0] == Put32(k.src)[0] && d[1] == Put32(k.src)[1] && d[2] == Put32(k.src)[2] && d[3] == Put32(k.src)[3];
    assert d[4] == Put16(k.senderRsvd)[0] && d[5] == Put16(k.senderRsvd)[1];
    assert d[6] == Put16(k.lspId)[0] && d[7] == Put16(k.lspId)[1];
  }

  lemma FourBytes(d: seq<byte>, i: nat, v: nat)
    requires v < UINT32 && i + 4 <= |d| && d[i..i + 4] == Put32(v)
    ensures U32(d, i) == v
  {
    var w := Put32(v);
    assert d[i] == d[i..i + 4][0] && d[i + 1] == d[i..i + 4][1] && d[i + 2] == d[i..i + 4][2] && d[i + 3] == d[i..i + 4][3];
  }

  lemma KeyReads(k: Key, session: seq<byte>)
    requires Sendable(k) && SessionSays(session, Put32(k.dest), k.tunnelId, Put32(k.extTunnelId))
    ensures |SenderBytes(k)| == 8 && KeyIn(session, SenderBytes(k)) == k
  {
    SenderReads(k);
    assert session[0..4] == session[..4] && session[8..12] == session[8..];
    FourBytes(session, 0, k.dest);
    FourBytes(session, 8, k.extTunnelId);
  }

  lemma HopReadsAs(d: seq<byte>, addr: nat, ifindex: nat)
    requires addr < UINT32 && HopSays(d, Put32(addr), ifindex)
    ensures HopIn(d) == Some(HopInfo(addr, ifindex))
  {
    assert d[0..4] == d[..4];
    FourBytes(d, 0, addr);
  }

  // ---- what arrives -----------------------------------------------------

  /**
   * The RESV that a node sends for a reservation is, at the node upstream, a RESV for the same key, from
   * this node, with this node's in-label as its label, and with the reservation's period and style.
   */
  lemma ResvArrivesAs(v: Rsb, k: Key, addr: nat, ifindex: nat, flowspec: seq<byte>, flow: seq<byte> -> Flowspec,
                      ip: seq<byte>, ttl: byte, trailer: seq<byte>)
    requires Sendable(k) && addr < UINT32 && RM.Sound(ResvFor(v, k, addr, ifindex, flowspec))
    requires |ip| >= 20 && |ip| == ip[0] % 16 * 4
    ensures var (err, info) := P.Parse(ip + Message(2, ttl, RM.ResvObjs(ResvFor(v, k, addr, ifindex, flowspec))) + trailer);
            && err == P.Success && info.msgType == 2 && |Slot(info, P.Session)| >= 12 && |Slot(info, P.Sender)| >= 8
            && ReadResv(info, flow) ==
               ResvMsg(k, Some(HopInfo(addr, ifindex)), Some(v.labelIn), Some(v.refreshMs), Some(flow(flowspec)),
                       Some(if v.style != 0 then v.style else 10))
  {
    hide P.Parse, Message, RM.ResvObjs, ReadResv;
    var c := ResvFor(v, k, addr, ifindex, flowspec);
    RM.ResvReadBack(ip, ttl, c, trailer);
    ResvReads(v, k, addr, ifindex, flowspec, flow, P.Parse(ip + Message(2, ttl, RM.ResvObjs(c)) + trailer).1);
  }

  lemma ResvReads(v: Rsb, k: Key, addr: nat, ifindex: nat, flowspec: seq<byte>, flow: seq<byte> -> Flowspec, info: P.Info)
    requires Sendable(k) && addr < UINT32
    requires SessionSays(Slot(info, P.Session), Put32(k.dest), k.tunnelId, Put32(k.extTunnelId))
    requires HopSays(Slot(info, P.Hop), Put32(addr), ifindex) && NumberSays(Slot(info, P.TimeValues), v.refreshMs)
    requires NumberSays(Slot(info, P.Style), if v.style != 0 then v.style else 10)
    requires P.FlowSpec in info.found && Slot(info, P.FlowSpec) == flowspec && Slot(info, P.Sender) == SenderBytes(k)
    requires NumberSays(Slot(info, P.Label), v.labelIn)
    ensures |Slot(info, P.Session)| >= 12 && |Slot(info, P.Sender)| >= 8
    ensures ReadResv(info, flow) ==
            ResvMsg(k, Some(HopInfo(addr, ifindex)), Some(v.labelIn), Some(v.refreshMs), Some(flow(flowspec)),
                    Some(if v.style != 0 then v.style else 10))
  {
    KeyReads(k, Slot(info, P.Session));
    HopReadsAs(Slot(info, P.Hop), addr, ifindex);
  }

  /**
   * The PATH that a node sends for a path is, at the node downstream, a PATH for the same key, from this
   * node, with the path's period and a label request.  It asks for facility protection exactly when the path
   * asks for protection of either mode and is no bypass, and its flags say whether protection is in use.
   */
  lemma PathArrivesAs(v: Psb, addr: nat, ifindex: nat, x: PathExtras, ip: seq<byte>, ttl: byte, trailer: seq<byte>)
    requires Sendable(v.key) && addr < UINT32 && PM.Sound(PathFor(v, addr, ifindex, x)) && |x.bandwidth| == 4
    requires |ip| >= 20 && |ip| == ip[0] % 16 * 4
    ensures var (err, info) := P.Parse(ip + Message(1, ttl, PM.PathObjs(PathFor(v, addr, ifindex, x))) + trailer);
            && err == P.Success && info.msgType == 1 && |Slot(info, P.Session)| >= 12 && |Slot(info, P.Sender)| >= 8
            && ReadPath(info) ==
               PathMsg(v.key, Some(HopInfo(addr, ifindex)), true, true, Some(v.refreshMs),
                       if v.frrMode != NoFrr && !v.isBypass then WantFacility else NoRequest)
            && FlagsSay(Slot(info, P.SessionAttribute), v)
  {
    hide P.Parse, Message, PM.PathObjs, FlagsSay;
    var c := PathFor(v, addr, ifindex, x);
    PM.PathReadBack(ip, ttl, c, trailer);
    var info := P.Parse(ip + Message(1, ttl, PM.PathObjs(c)) + trailer).1;
    PathReads(v, addr, ifindex, x, info);
    FlagsRead(v, x, Slot(info, P.SessionAttribute));
  }

  lemma FlagsRead(v: Psb, x: PathExtras, d: seq<byte>)
    requires PM.AttributeSays(d, x.setupPrio, x.holdingPrio, AttributeFlags(v), x.name)
    ensures FlagsSay(d, v)
  {
    assert d[2] == if !v.frrActive then 5 else if v.frrMode == Facility then 45 else 13;
  }

  lemma PathReads(v: Psb, addr: nat, ifindex: nat, x: PathExtras, info: P.Info)
    requires Sendable(v.key) && addr < UINT32 && |x.bandwidth| == 4
    requires SessionSays(Slot(info, P.Session), Put32(v.key.dest), v.key.tunnelId, Put32(v.key.extTunnelId))
    requires HopSays(Slot(info, P.Hop), Put32(addr), ifindex) && NumberSays(Slot(info, P.TimeValues), v.refreshMs)
    requires Slot(info, P.Sender) == SenderBytes(v.key)
    requires P.Sender in info.found && P.LabelRequest in info.found
    requires P.FastReroute in info.found <==> v.frrMode != NoFrr && !v.isBypass
    requires v.frrMode != NoFrr && !v.isBypass ==> Slot(info, P.FastReroute) == RerouteBytes(x)
    ensures |Slot(info, P.Session)| >= 12 && |Slot(info, P.Sender)| >= 8
    ensures ReadPath(info) ==
            PathMsg(v.key, Some(HopInfo(addr, ifindex)), true, true, Some(v.refreshMs),
                    if v.frrMode != NoFrr && !v.isBypass then WantFacility else NoRequest)
  {
    KeyReads(v.key, Slot(info, P.Session));
    HopReadsAs(Slot(info, P.Hop), addr, ifindex);
  }

  /**
   * Protection as the next node records it: any protected path is facility protected there, one that asked
   * for one-to-one backup included.
   */
  lemma NextNodeRecordsFacility(v: Psb, addr: nat, ifindex: nat, x: PathExtras, ip: seq<byte>, ttl: byte, trailer: seq<byte>,
                                down: State, e: PathEnv)
    requires Sendable(v.key) && addr < UINT32 && PM.Sound(PathFor(v, addr, ifindex, x)) && |x.bandwidth| == 4
    requires |ip| >= 20 && |ip| == ip[0] % 16 * 4
    requires v.frrMode != NoFrr && !v.isBypass
    requires Inv(down) && FindPsb(down, v.key) == None && e.psbAlloc && (e.destLocal || e.srcLocal || e.route >= 0)
    ensures var (err, info) := P.Parse(ip + Message(1, ttl, PM.PathObjs(PathFor(v, addr, ifindex, x))) + trailer);
            && err == P.Success && |Slot(info, P.Session)| >= 12 && |Slot(info, P.Sender)| >= 8
            && var t := Step(down, PathArrives(ReadPath(info), e));
               && down.nextRef in t.psbs && t.psbs[down.nextRef].frrMode == Facility
               && t.psbs[down.nextRef].prevHop == addr && t.psbs[down.nextRef].refreshMs == v.refreshMs
  {
    hide P.Parse, Message, PM.PathObjs, Inv, HandlePath, FindPsb;
    PathArrivesAs(v, addr, ifindex, x, ip, ttl, trailer);
    var info := P.Parse(ip + Message(1, ttl, PM.PathObjs(PathFor(v, addr, ifindex, x))) + trailer).1;
    PathRecordsSender(down, ReadPath(info), e);
  }

  /**
   * Neighbours agree on the label.  A node sends a RESV for a reservation it holds under an in-label; the
   * node upstream accepts it for a path of the same key and programs traffic: under its own in-label in
   * transit, for the destination at the ingress.  The label it puts on the traffic is the in-label of the
   * node downstream, and the next hop is that node.
   */
  lemma NeighboursAgreeOnLabel(down: State, r: Ref, p: Ref, up: State, q: Ref, addr: nat, ifindex: nat, flowspec: seq<byte>,
                               flow: seq<byte> -> Flowspec, ip: seq<byte>, ttl: byte, trailer: seq<byte>)
    requires Inv(down) && r in down.rsbs && down.rsbs[r].assocPsb == Some(p) && p in down.psbs
    requires Sendable(down.psbs[p].key) && addr < UINT32
    requires RM.Sound(ResvFor(down.rsbs[r], down.psbs[p].key, addr, ifindex, flowspec))
    requires |ip| >= 20 && |ip| == ip[0] % 16 * 4
    requires Inv(up) && q in up.psbs && up.psbs[q].key == down.psbs[p].key
    requires up.psbs[q].assocRsb == None && !up.psbs[q].mbbPending && up.bsbs == map[]
    requires up.psbs[q].prevHop != 0 ==> !LP.Full(up.labels)
    ensures var (err, info) := P.Parse(ip + Message(2, ttl, RM.ResvObjs(ResvFor(down.rsbs[r], down.psbs[p].key, addr, ifindex, flowspec))) + trailer);
            && err == P.Success && |Slot(info, P.Session)| >= 12 && |Slot(info, P.Sender)| >= 8
            && var t := Step(up, ResvArrives(ReadResv(info, flow), true));
               && up.nextRef in t.rsbs
               && var k := if up.psbs[q].prevHop != 0 then InLabel(t.rsbs[up.nextRef].labelIn) else ToDest(up.psbs[q].key.dest);
                  && k in t.fwd && t.fwd[k] == Entry(down.rsbs[r].labelIn, ifindex, addr, up.psbs[q].key.dest)
                  && (up.psbs[q].prevHop != 0 ==> LP.IsLowestFree(up.labels, t.rsbs[up.nextRef].labelIn))
  {
    hide P.Parse, Message, RM.ResvObjs, Inv, HandleResv;
    var c := ResvFor(down.rsbs[r], down.psbs[p].key, addr, ifindex, flowspec);
    ResvArrivesAs(down.rsbs[r], down.psbs[p].key, addr, ifindex, flowspec, flow, ip, ttl, trailer);
    var info := P.Parse(ip + Message(2, ttl, RM.ResvObjs(c)) + trailer).1;
    FirstResvProgrammes(up, q, ReadResv(info, flow));
  }

  lemma FirstResvProgrammes(up: State, q: Ref, m: ResvMsg)
    requires Admissible(up, q, m) && up.psbs[q].assocRsb == None && !up.psbs[q].mbbPending && up.bsbs == map[]
    requires up.psbs[q].prevHop != 0 ==> !LP.Full(up.labels)
    ensures var t := Step(up, ResvArrives(m, true));
            && up.nextRef in t.rsbs
            && var k := if up.psbs[q].prevHop != 0 then InLabel(t.rsbs[up.nextRef].labelIn) else ToDest(up.psbs[q].key.dest);
               && k in t.fwd && t.fwd[k] == Entry(m.labelOut.value, m.hop.value.ifindex, m.hop.value.addr, m.key.dest)
               && (up.psbs[q].prevHop != 0 ==> LP.IsLowestFree(up.labels, t.rsbs[up.nextRef].labelIn))
  {
    hide HandleResv, Absorbed;
    BlockadeIsExact(up, q, m);
    ResvIsRecorded(up, q, m);
    if up.psbs[q].prevHop != 0 {
      ResvInstallsSwap(up, q, m);
      NextIsFree(up);
    } else {
      IngressInstallsPush(up, q, m);
    }
  }

  lemma NextIsFree(up: State)
    requires Inv(up)
    ensures up.nextRef !in up.rsbs
  {
  }
}
