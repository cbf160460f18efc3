// The RESV message that a node sends upstream, built and read back.
module ResvMessage {
  import opened Common
  import opened Wire
  import opened Builder
  import opened Objects
  import opened RoundTrip
  import P = Parser

  const RESV_BUFFER: nat := 1024
  const STYLE_FF: nat := 10

  /** What goes into a RESV message; addresses and copied structures are raw bytes. */
  datatype ResvContent = ResvContent(
    dest: seq<byte>, tunnelId: nat, extTunnelId: seq<byte>,
    localAddr: seq<byte>, ifindex: nat, refreshMs: nat, style: nat,
    flowspec: seq<byte>, filter: seq<byte>, labelIn: nat)

  ghost predicate Sound(c: ResvContent) {
    && |c.dest| == 4 && c.tunnelId < 65536 && |c.extTunnelId| == 4
    && |c.localAddr| == 4 && c.ifindex < UINT32 && c.refreshMs < UINT32 && c.style < UINT32
    && |c.flowspec| == 32 && |c.filter| == 8 && c.labelIn < UINT32
  }

  /** The style sent: the reservation's own, or fixed filter when it has none. */
  function SentStyle(c: ResvContent): nat {
    if c.style != 0 then c.style else STYLE_FF
  }

  /** The objects of the message, in the order in which they are added. */
  ghost function ResvObjs(c: ResvContent): seq<Obj>
    requires Sound(c)
  {
    [SessionObject(c.dest, c.tunnelId, c.extTunnelId), HopObject(c.localAddr, c.ifindex), TimeObject(c.refreshMs),
     StyleObject(SentStyle(c)), Obj(9, 2, c.flowspec), Obj(10, 7, c.filter), LabelObject(c.labelIn)]
  }

  lemma Sizes(c: ResvContent)
    requires Sound(c)
    ensures ObjLen(SessionObject(c.dest, c.tunnelId, c.extTunnelId)) == 16 && ObjLen(HopObject(c.localAddr, c.ifindex)) == 12
    ensures ObjLen(TimeObject(c.refreshMs)) == 8 && ObjLen(StyleObject(SentStyle(c))) == 8
    ensures ObjLen(Obj(9, 2, c.flowspec)) == 36 && ObjLen(Obj(10, 7, c.filter)) == 12 && ObjLen(LabelObject(c.labelIn)) == 8
  {
  }

  /** SESSION to STYLE. */
  method BuildHead(b: RsvpBuilder, c: ResvContent)
    requires b.Valid() && b.objs == [] && b.buffer.Length == RESV_BUFFER && Sound(c)
    modifies b`offset, b`objs, b.buffer
    ensures b.Valid() && b.offset == 52
    ensures b.objs == ResvObjs(c)[..4]
  {
    Sizes(c);
    Add(b, SessionObject(c.dest, c.tunnelId, c.extTunnelId));
    Add(b, HopObject(c.localAddr, c.ifindex));
    Add(b, TimeObject(c.refreshMs));
    Add(b, StyleObject(SentStyle(c)));
  }

  /** The flow descriptor: FLOWSPEC, FILTER_SPEC and LABEL. */
  method BuildDescriptor(b: RsvpBuilder, c: ResvContent)
    requires b.Valid() && b.offset == 52 && b.buffer.Length == RESV_BUFFER && Sound(c)
    modifies b`offset, b`objs, b.buffer
    ensures b.Valid() && b.offset == 108
    ensures b.objs == old(b.objs) + ResvObjs(c)[4..]
  {
    Sizes(c);
    Add(b, Obj(9, 2, c.flowspec));
    Add(b, Obj(10, 7, c.filter));
    Add(b, LabelObject(c.labelIn));
  }

  /** Every addition fits: a RESV message is always 108 bytes long. */
  method BuildResv(buf: array<byte>, ttl: byte, c: ResvContent) returns (len: nat)
    requires buf.Length == RESV_BUFFER && Sound(c)
    modifies buf
    ensures len == 108 && buf[..len] == Message(2, if ttl > 0 then ttl - 1 else 255, ResvObjs(c))
  {
    var b := new RsvpBuilder(buf, 2);
    b.SetTtl(if ttl > 0 then ttl - 1 else 255);
    BuildHead(b, c);
    BuildDescriptor(b, c);
    assert ResvObjs(c)[..4] + ResvObjs(c)[4..] == ResvObjs(c);
    len := b.Finalize();
  }

  // ---- reading the message back ----------------------------------------

  lemma {:induction false} SizeOf(os: seq<Obj>)
    requires os != []
    ensures |EncodeAll(os)| == Align(ObjLen(os[0])) + |EncodeAll(os[1..])|
  {
    EncodeFront(os);
  }

  lemma ResvFits(c: ResvContent)
    requires Sound(c)
    ensures HDR_LEN + |EncodeAll(ResvObjs(c))| == 108
  {
    var os := ResvObjs(c);
    SizeOf(os);
    SizeOf(os[1..]);
    SizeOf(os[2..]);
    SizeOf(os[3..]);
    SizeOf(os[4..]);
    SizeOf(os[5..]);
    SizeOf(os[6..]);
    assert os[1..][1..] == os[2..] && os[2..][1..] == os[3..] && os[3..][1..] == os[4..];
    assert os[4..][1..] == os[5..] && os[5..][1..] == os[6..] && os[6..][1..] == [];
  }

  /** The slots that a RESV fills. */
  predicate Sends(f: P.Field) {
    f == P.Session || f == P.Hop || f == P.TimeValues || f == P.Style || f == P.FlowSpec || f == P.Sender || f == P.Label
  }

  lemma ResvSlot(c: ResvContent, info: P.Info, o: Obj, f: P.Field)
    requires Sound(c) && SlotMatches(info, ResvObjs(c), f) && o in ResvObjs(c) && Suits(o, f)
    ensures f in info.found && Slot(info, f) == o.data
  {
    OnlyOneOfItsClass(ResvObjs(c), o, f);
  }

  lemma ResvUnsent(c: ResvContent, info: P.Info, f: P.Field)
    requires Sound(c) && SlotMatches(info, ResvObjs(c), f) && !Sends(f)
    ensures f !in info.found
  {
    NoneOfItsClass(ResvObjs(c), f);
  }

  lemma ResvArrivesWhole(ip: seq<byte>, ttl: byte, c: ResvContent, trailer: seq<byte>)
    requires |ip| >= 20 && |ip| == ip[0] % 16 * 4
    requires Sound(c)
    ensures var (err, info) := P.Parse(ip + Message(2, ttl, ResvObjs(c)) + trailer);
            && err == P.Success && info.msgType == 2 && info.ttl == ttl
            && forall f: P.Field :: SlotMatches(info, ResvObjs(c), f)
  {
    hide P.Parse, SlotMatches, Message;
    ResvFits(c);
    ResvIsComplete(c);
    BuildThenParse(ip, 2, ttl, ResvObjs(c), trailer);
  }

  lemma ResvIsComplete(c: ResvContent)
    requires Sound(c)
    ensures HasMandatory(2, ResvObjs(c)) && AllAcceptable(ResvObjs(c))
  {
    var os := ResvObjs(c);
    Sizes(c);
    assert os[0] in os && os[1] in os && os[3] in os;
    assert Suits(os[0], P.Session) && Suits(os[1], P.Hop) && Suits(os[3], P.Style);
  }

  /**
   * The RESV message a node sends parses without error at the next node upstream, which recovers session,
   * hop, refresh period, style, flowspec, sender and label; no other slot is filled.
   */
  lemma ResvReadBack(ip: seq<byte>, ttl: byte, c: ResvContent, trailer: seq<byte>)
    requires |ip| >= 20 && |ip| == ip[0] % 16 * 4
    requires Sound(c)
    ensures var (err, info) := P.Parse(ip + Message(2, ttl, ResvObjs(c)) + trailer);
            && err == P.Success && info.msgType == 2 && info.ttl == ttl
            && SessionSays(Slot(info, P.Session), c.dest, c.tunnelId, c.extTunnelId)
            && HopSays(Slot(info, P.Hop), c.localAddr, c.ifindex)
            && NumberSays(Slot(info, P.TimeValues), c.refreshMs)
            && NumberSays(Slot(info, P.Style), if c.style != 0 then c.style else 10)
            && Slot(info, P.FlowSpec) == c.flowspec && Slot(info, P.Sender) == c.filter
            && NumberSays(Slot(info, P.Label), c.labelIn)
            && (forall f: P.Field :: f in info.found <==> Sends(f))
  {
    hide P.Parse, SlotMatches, Message, ResvObjs;
    ResvArrivesWhole(ip, ttl, c, trailer);
    var info := P.Parse(ip + Message(2, ttl, ResvObjs(c)) + trailer).1;
    ResvSlots(c, info);
    SessionReads(c.dest, c.tunnelId, c.extTunnelId);
    HopReads(c.localAddr, c.ifindex);
  }

  lemma ResvSlots(c: ResvContent, info: P.Info)
    requires Sound(c) && forall f: P.Field :: SlotMatches(info, ResvObjs(c), f)
    ensures Slot(info, P.Session) == SessionObject(c.dest, c.tunnelId, c.extTunnelId).data
    ensures Slot(info, P.Hop) == HopObject(c.localAddr, c.ifindex).data
    ensures Slot(info, P.TimeValues) == TimeObject(c.refreshMs).data && Slot(info, P.Style) == StyleObject(SentStyle(c)).data
    ensures Slot(info, P.FlowSpec) == c.flowspec && Slot(info, P.Sender) == c.filter
    ensures Slot(info, P.Label) == LabelObject(c.labelIn).data
    ensures forall f: P.Field :: f in info.found <==> Sends(f)
  {
    hide SlotMatches;
    var os := ResvObjs(c);
    ResvSlot(c, info, os[0], P.Session);
    ResvSlot(c, info, os[1], P.Hop);
    ResvSlot(c, info, os[2], P.TimeValues);
    ResvSlot(c, info, os[3], P.Style);
    ResvSlot(c, info, os[4], P.FlowSpec);
    ResvSlot(c, info, os[5], P.Sender);
    ResvSlot(c, info, os[6], P.Label);
    forall f: P.Field | !Sends(f)
      ensures f !in info.found
    {
      ResvUnsent(c, info, f);
    }
  }
}
