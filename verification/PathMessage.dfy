// The PATH message that a node sends downstream, built and read back.
module PathMessage {
  import opened Common
  import opened Wire
  import opened Builder
  import opened Objects
  import opened RoundTrip
  import opened ExplicitRoute
  import P = Parser

  const PATH_BUFFER: nat := 1500
  const NAME_MAX: nat := 255

  /** What goes into a PATH message; addresses and copied structures are raw bytes. */
  datatype PathContent = PathContent(
    dest: seq<byte>, tunnelId: nat, extTunnelId: seq<byte>,
    localAddr: seq<byte>, ifindex: nat, refreshMs: nat,
    ero: seq<Hop>, name: seq<byte>, setupPrio: byte, holdingPrio: byte, attrFlags: byte,
    fastReroute: Option<seq<byte>>, sender: seq<byte>, tspec: seq<byte>, rro: seq<Hop>)

  ghost predicate Sound(c: PathContent) {
    && |c.dest| == 4 && c.tunnelId < 65536 && |c.extTunnelId| == 4
    && |c.localAddr| == 4 && c.ifindex < UINT32 && c.refreshMs < UINT32
    && |c.ero| <= MAX_HOPS && HopsOk(c.ero)
    && |c.rro| <= MAX_HOPS && HopsOk(c.rro)
    && (c.fastReroute.Some? ==> |c.fastReroute.value| == 20)
    && |c.sender| == 8 && |c.tspec| == 32
  }

  function Clipped(name: seq<byte>): (n: seq<byte>)
    ensures |n| <= NAME_MAX
  {
    if |name| > NAME_MAX then name[..NAME_MAX] else name
  }

  /** SESSION_ATTRIBUTE payload: priorities, flags, name length, name. */
  function AttributeData(c: PathContent): seq<byte> {
    [c.setupPrio, c.holdingPrio, c.attrFlags, |Clipped(c.name)|] + Clipped(c.name)
  }

  /** The hops recorded so far and this node, unless the record is already full: then there is no record at all. */
  function RecordedRoute(c: PathContent): seq<Hop> {
    if |c.rro| < MAX_HOPS then c.rro + [Hop(ERO_IPV4, c.localAddr, 32, 0)] else []
  }

  function When(present: bool, o: Obj): seq<Obj> {
    if present then [o] else []
  }

  function SessionObj(c: PathContent): Obj
    requires c.tunnelId < 65536
  {
    SessionObject(c.dest, c.tunnelId, c.extTunnelId)
  }

  function HopObj(c: PathContent): Obj
    requires c.ifindex < UINT32
  {
    HopObject(c.localAddr, c.ifindex)
  }

  function TimeObj(c: PathContent): Obj
    requires c.refreshMs < UINT32
  {
    TimeObject(c.refreshMs)
  }

  function RouteObj(c: PathContent): Obj {
    Obj(20, 1, EncodeHops(c.ero))
  }

  const LabelRequestObj: Obj := Obj(19, 1, [0, 0, 8, 0])

  function AttributeObj(c: PathContent): Obj {
    Obj(207, 7, AttributeData(c))
  }

  function RerouteObj(c: PathContent): Obj {
    Obj(205, 1, if c.fastReroute.Some? then c.fastReroute.value else [])
  }

  function RecordObj(c: PathContent): Obj {
    Obj(21, 1, EncodeHops(RecordedRoute(c)))
  }

  ghost function Head(c: PathContent): seq<Obj>
    requires Sound(c)
  {
    [SessionObj(c), HopObj(c), TimeObj(c)] + When(c.ero != [], RouteObj(c))
  }

  ghost function Middle(c: PathContent): seq<Obj>
    requires Sound(c)
  {
    [LabelRequestObj, AttributeObj(c)] + When(c.fastReroute.Some?, RerouteObj(c))
  }

  ghost function Tail(c: PathContent): seq<Obj>
    requires Sound(c)
  {
    [Obj(11, 7, c.sender), Obj(12, 2, c.tspec)] + When(RecordedRoute(c) != [], RecordObj(c))
  }

  /** The objects of the message, in the order in which they are added. */
  ghost function PathObjs(c: PathContent): seq<Obj>
    requires Sound(c)
  {
    Head(c) + Middle(c) + Tail(c)
  }

  lemma Sizes(c: PathContent)
    requires Sound(c)
    ensures ObjLen(SessionObj(c)) == 16 && ObjLen(HopObj(c)) == 12 && ObjLen(TimeObj(c)) == 8
    ensures ObjLen(RouteObj(c)) <= 260 && ObjLen(LabelRequestObj) == 8 && ObjLen(AttributeObj(c)) <= 263
    ensures c.fastReroute.Some? ==> ObjLen(RerouteObj(c)) == 24
    ensures ObjLen(RecordObj(c)) <= 260 && HopsOk(RecordedRoute(c)) && |RecordedRoute(c)| <= MAX_HOPS
  {
    assert HopsOk(RecordedRoute(c));
  }

  /** The first half of the message: SESSION to EXPLICIT_ROUTE. */
  method BuildHead(b: RsvpBuilder, c: PathContent)
    requires b.Valid() && b.objs == [] && b.buffer.Length == PATH_BUFFER && Sound(c)
    modifies b`offset, b`objs, b.buffer
    ensures b.Valid() && b.offset <= 304
    ensures b.objs == Head(c)
  {
    Sizes(c);
    Add(b, SessionObj(c));
    Add(b, HopObj(c));
    Add(b, TimeObj(c));
    if c.ero != [] {
      Add(b, RouteObj(c));
    }
  }

  /** LABEL_REQUEST, SESSION_ATTRIBUTE and FAST_REROUTE. */
  method BuildMiddle(b: RsvpBuilder, c: PathContent)
    requires b.Valid() && b.offset <= 304 && b.buffer.Length == PATH_BUFFER && Sound(c)
    modifies b`offset, b`objs, b.buffer
    ensures b.Valid() && b.offset <= 600
    ensures b.objs == old(b.objs) + Middle(c)
  {
    Sizes(c);
    Add(b, LabelRequestObj);
    Add(b, AttributeObj(c));
    if c.fastReroute.Some? {
      Add(b, RerouteObj(c));
    }
  }

  /** SENDER_TEMPLATE, SENDER_TSPEC and RECORD_ROUTE. */
  method BuildTail(b: RsvpBuilder, c: PathContent)
    requires b.Valid() && b.offset <= 600 && b.buffer.Length == PATH_BUFFER && Sound(c)
    modifies b`offset, b`objs, b.buffer
    ensures b.Valid() && b.offset <= 908
    ensures b.objs == old(b.objs) + Tail(c)
  {
    Sizes(c);
    Add(b, Obj(11, 7, c.sender));
    Add(b, Obj(12, 2, c.tspec));
    if |c.rro| < MAX_HOPS {
      Add(b, RecordObj(c));
    }
  }

  /** No addition is ever refused, although no result is looked at: a PATH message takes at most 908 bytes. */
  method BuildPath(buf: array<byte>, ttl: byte, c: PathContent) returns (len: nat)
    requires buf.Length == PATH_BUFFER && Sound(c)
    modifies buf
    ensures len <= 908 && buf[..len] == Message(1, if ttl > 0 then ttl - 1 else 255, PathObjs(c))
  {
    var b := new RsvpBuilder(buf, 1);
    b.SetTtl(if ttl > 0 then ttl - 1 else 255);
    BuildHead(b, c);
    BuildMiddle(b, c);
    BuildTail(b, c);
    len := b.Finalize();
  }

  // ---- reading the message back ----------------------------------------

  /** Every object of the message is one of the ten kinds, and each kind has its own class. */
  lemma PathObjsAre(c: PathContent, o: Obj)
    requires Sound(c)
    ensures o in PathObjs(c) <==>
            || o == SessionObj(c) || o == HopObj(c) || o == TimeObj(c) || (c.ero != [] && o == RouteObj(c))
            || o == LabelRequestObj || o == AttributeObj(c) || (c.fastReroute.Some? && o == RerouteObj(c))
            || o == Obj(11, 7, c.sender) || o == Obj(12, 2, c.tspec)
            || (RecordedRoute(c) != [] && o == RecordObj(c))
  {
    var os := PathObjs(c);
    assert o in os <==> o in Head(c) || o in Middle(c) || o in Tail(c);
  }

  /** One class, one object. */
  lemma ClassIdentifies(c: PathContent, o: Obj, q: Obj)
    requires Sound(c) && o in PathObjs(c) && q in PathObjs(c) && o.classNum == q.classNum
    ensures o == q && o.classNum != 10
  {
    PathObjsAre(c, o);
    PathObjsAre(c, q);
  }

  lemma SlotIdentifiesClass(o: Obj, q: Obj, f: P.Field)
    requires Suits(o, f) && Suits(q, f) && o.classNum != 10 && q.classNum != 10
    ensures o.classNum == q.classNum
  {
  }

  lemma Deliver(c: PathContent, info: P.Info, o: Obj, f: P.Field)
    requires Sound(c) && SlotMatches(info, PathObjs(c), f)
    requires Suits(o, f) && o in PathObjs(c)
    ensures Has(info, f, o.data)
  {
    forall q | q in PathObjs(c) && Suits(q, f)
      ensures q == o
    {
      ClassIdentifies(c, o, o);
      ClassIdentifies(c, q, q);
      SlotIdentifiesClass(o, q, f);
      ClassIdentifies(c, o, q);
    }
    OnlyOneOfItsClass(PathObjs(c), o, f);
  }

  /** All kinds of object are there, the optional ones when there is something to carry. */
  lemma Present(c: PathContent)
    requires Sound(c)
    ensures var os := PathObjs(c);
            && SessionObj(c) in os && HopObj(c) in os && TimeObj(c) in os
            && LabelRequestObj in os && AttributeObj(c) in os && Obj(11, 7, c.sender) in os && Obj(12, 2, c.tspec) in os
            && (c.ero != [] ==> RouteObj(c) in os) && (RecordedRoute(c) != [] ==> RecordObj(c) in os)
            && (c.fastReroute.Some? ==> RerouteObj(c) in os)
  {
    var os := PathObjs(c);
    assert forall o :: o in os <==> o in Head(c) || o in Middle(c) || o in Tail(c);
  }

  lemma PathObjsAcceptable(c: PathContent)
    requires Sound(c)
    ensures AllAcceptable(PathObjs(c))
  {
    forall o | o in PathObjs(c)
      ensures Acceptable(o.classNum)
    {
      PathObjsAre(c, o);
    }
  }

  lemma NameReadBack(c: PathContent)
    ensures AttributeSays(AttributeData(c), c.setupPrio, c.holdingPrio, c.attrFlags, c.name)
  {
  }

  /** A slot of the parsed message holds a given payload. */
  ghost predicate Has(info: P.Info, f: P.Field, data: seq<byte>) {
    f in info.found && P.LengthOk(info.payload, info.found[f]) && P.DataOf(info, f) == data
  }

  /** The slots that a PATH fills: the optional ones when there is something to carry. */
  predicate Sends(c: PathContent, f: P.Field) {
    match f
    case Session => true
    case Hop => true
    case TimeValues => true
    case LabelRequest => true
    case SessionAttribute => true
    case Sender => true
    case SenderTspec => true
    case ExplicitRoute => c.ero != []
    case FastReroute => c.fastReroute.Some?
    case RecordRoute => RecordedRoute(c) != []
    case _ => false
  }

  lemma SentIsSlotted(c: PathContent, o: Obj)
    requires Sound(c)
    requires || o == SessionObj(c) || o == HopObj(c) || o == TimeObj(c) || (c.ero != [] && o == RouteObj(c))
             || o == LabelRequestObj || o == AttributeObj(c) || (c.fastReroute.Some? && o == RerouteObj(c))
             || o == Obj(11, 7, c.sender) || o == Obj(12, 2, c.tspec)
             || (RecordedRoute(c) != [] && o == RecordObj(c))
    ensures forall f: P.Field :: Suits(o, f) ==> Sends(c, f)
  {
  }

  lemma UnsentStaysEmpty(c: PathContent, info: P.Info, f: P.Field)
    requires Sound(c) && SlotMatches(info, PathObjs(c), f) && !Sends(c, f)
    ensures f !in info.found
  {
    var os := PathObjs(c);
    forall q | q in os
      ensures !Suits(q, f)
    {
      PathObjsAre(c, q);
      SentIsSlotted(c, q);
    }
    NoneOfItsClass(os, f);
  }

  /** The payloads of a PATH as they arrive, byte by byte. */
  ghost predicate PathPayloads(c: PathContent, info: P.Info)
    requires Sound(c)
  {
    && Has(info, P.Session, SessionObj(c).data) && Has(info, P.Sender, c.sender)
    && Has(info, P.Hop, HopObj(c).data) && Has(info, P.TimeValues, TimeObj(c).data)
    && Has(info, P.LabelRequest, LabelRequestObj.data) && Has(info, P.SenderTspec, c.tspec)
    && Has(info, P.SessionAttribute, AttributeData(c))
    && (c.ero != [] ==> Has(info, P.ExplicitRoute, RouteObj(c).data))
    && (RecordedRoute(c) != [] ==> Has(info, P.RecordRoute, RecordObj(c).data))
    && (c.fastReroute.Some? ==> Has(info, P.FastReroute, c.fastReroute.value))
  }

  lemma PathArrivesWhole(ip: seq<byte>, ttl: byte, c: PathContent, trailer: seq<byte>)
    requires |ip| >= P.IP_HDR_LEN && |ip| == ip[0] % 16 * 4
    requires Sound(c)
    ensures var (err, info) := P.Parse(ip + Message(1, ttl, PathObjs(c)) + trailer);
            && err == P.Success && info.msgType == 1 && info.ttl == ttl && PathPayloads(c, info)
            && (forall f: P.Field :: f in info.found <==> Sends(c, f))
  {
    hide P.Parse, PathObjs, Sends;
    PathFits(c);
    PathObjsAcceptable(c);
    BuildThenParse(ip, 1, ttl, PathObjs(c), trailer);
    var info := P.Parse(ip + Message(1, ttl, PathObjs(c)) + trailer).1;
    PathSlots(c, info);
    SentSlots(c, info);
    PathIsComplete(c);
  }

  /** Priorities, flags and name of a SESSION_ATTRIBUTE payload. */
  ghost predicate AttributeSays(d: seq<byte>, setup: byte, holding: byte, flags: byte, name: seq<byte>) {
    && |d| >= 4 && d[0] == setup && d[1] == holding && d[2] == flags
    && P.LspName(d) == if |name| > 255 then name[..255] else name
  }

  /**
   * The PATH message a node sends parses without error at the next node, which
   * recovers every number and address in it: session, sender, previous hop, refresh period, protocol,
   * priorities, name, routes and the request for protection.  A slot that the message has nothing for
   * stays empty.
   */
  lemma PathReadBack(ip: seq<byte>, ttl: byte, c: PathContent, trailer: seq<byte>)
    requires |ip| >= 20 && |ip| == ip[0] % 16 * 4
    requires Sound(c)
    ensures var (err, info) := P.Parse(ip + Message(1, ttl, PathObjs(c)) + trailer);
            && err == P.Success && info.msgType == 1 && info.ttl == ttl
            && SessionSays(Slot(info, P.Session), c.dest, c.tunnelId, c.extTunnelId)
            && HopSays(Slot(info, P.Hop), c.localAddr, c.ifindex)
            && NumberSays(Slot(info, P.TimeValues), c.refreshMs)
            && NumberSays(Slot(info, P.LabelRequest), 0x0800)
            && AttributeSays(Slot(info, P.SessionAttribute), c.setupPrio, c.holdingPrio, c.attrFlags, c.name)
            && Slot(info, P.Sender) == c.sender && Slot(info, P.SenderTspec) == c.tspec
            && (c.ero != [] ==> Decode(Slot(info, P.ExplicitRoute), 32) == c.ero)
            && (|c.rro| < 32 ==> Decode(Slot(info, P.RecordRoute), 32) == c.rro + [Hop(1, c.localAddr, 32, 0)])
            && (c.fastReroute.Some? ==> Slot(info, P.FastReroute) == c.fastReroute.value)
            && (forall f: P.Field :: f in info.found <==> Sends(c, f))
  {
    hide P.Parse, PathObjs, Sends;
    PathArrivesWhole(ip, ttl, c, trailer);
    PathDecodes(c, P.Parse(ip + Message(1, ttl, PathObjs(c)) + trailer).1);
  }

  lemma PathDecodes(c: PathContent, info: P.Info)
    requires Sound(c) && PathPayloads(c, info)
    ensures SessionSays(Slot(info, P.Session), c.dest, c.tunnelId, c.extTunnelId)
    ensures HopSays(Slot(info, P.Hop), c.localAddr, c.ifindex)
    ensures NumberSays(Slot(info, P.TimeValues), c.refreshMs) && NumberSays(Slot(info, P.LabelRequest), 0x0800)
    ensures AttributeSays(Slot(info, P.SessionAttribute), c.setupPrio, c.holdingPrio, c.attrFlags, c.name)
    ensures Slot(info, P.Sender) == c.sender && Slot(info, P.SenderTspec) == c.tspec
    ensures c.ero != [] ==> Decode(Slot(info, P.ExplicitRoute), 32) == c.ero
    ensures |c.rro| < 32 ==> Decode(Slot(info, P.RecordRoute), 32) == c.rro + [Hop(1, c.localAddr, 32, 0)]
    ensures c.fastReroute.Some? ==> Slot(info, P.FastReroute) == c.fastReroute.value
  {
    SessionReads(c.dest, c.tunnelId, c.extTunnelId);
    HopReads(c.localAddr, c.ifindex);
    RoutesReadBack(c);
    NameReadBack(c);
  }

  lemma RoutesReadBack(c: PathContent)
    requires Sound(c)
    ensures Decode(RouteObj(c).data, MAX_HOPS) == c.ero
    ensures Decode(RecordObj(c).data, MAX_HOPS) == RecordedRoute(c)
  {
    Sizes(c);
    RouteReadBack(c.ero, MAX_HOPS);
    RouteReadBack(RecordedRoute(c), MAX_HOPS);
  }

  /** Every object is one that the parser records. */
  lemma EachSuits(c: PathContent)
    requires Sound(c)
    ensures Suits(SessionObj(c), P.Session) && Suits(Obj(11, 7, c.sender), P.Sender)
    ensures Suits(HopObj(c), P.Hop) && Suits(TimeObj(c), P.TimeValues)
    ensures Suits(LabelRequestObj, P.LabelRequest) && Suits(Obj(12, 2, c.tspec), P.SenderTspec)
    ensures Suits(AttributeObj(c), P.SessionAttribute)
    ensures c.ero != [] ==> Suits(RouteObj(c), P.ExplicitRoute)
    ensures RecordedRoute(c) != [] ==> Suits(RecordObj(c), P.RecordRoute)
    ensures c.fastReroute.Some? ==> Suits(RerouteObj(c), P.FastReroute)
  {
    Sizes(c);
  }

  lemma PathIsComplete(c: PathContent)
    requires Sound(c)
    ensures HasMandatory(P.MSG_PATH, PathObjs(c))
  {
    Present(c);
    EachSuits(c);
  }

  lemma HeadFits(c: PathContent)
    requires Sound(c)
    ensures |EncodeAll(Head(c))| <= 296
  {
    Sizes(c);
    SizeOfThreeAnd(SessionObj(c), HopObj(c), TimeObj(c), When(c.ero != [], RouteObj(c)));
    SizeOfWhen(c.ero != [], RouteObj(c));
  }

  lemma MiddleFits(c: PathContent)
    requires Sound(c)
    ensures |EncodeAll(Middle(c))| <= 296
  {
    Sizes(c);
    SizeOfTwoAnd(LabelRequestObj, AttributeObj(c), When(c.fastReroute.Some?, RerouteObj(c)));
    SizeOfWhen(c.fastReroute.Some?, RerouteObj(c));
  }

  lemma TailFits(c: PathContent)
    requires Sound(c)
    ensures |EncodeAll(Tail(c))| <= 308
  {
    Sizes(c);
    SizeOfTwoAnd(Obj(11, 7, c.sender), Obj(12, 2, c.tspec), When(RecordedRoute(c) != [], RecordObj(c)));
    SizeOfWhen(RecordedRoute(c) != [], RecordObj(c));
  }

  /** The message always fits the buffer of the sender. */
  lemma PathFits(c: PathContent)
    requires Sound(c)
    ensures HDR_LEN + |EncodeAll(PathObjs(c))| <= 908 < PATH_BUFFER
  {
    EncodeAllConcat(Head(c) + Middle(c), Tail(c));
    EncodeAllConcat(Head(c), Middle(c));
    HeadFits(c);
    MiddleFits(c);
    TailFits(c);
  }

  lemma SizeOfWhen(present: bool, o: Obj)
    ensures |EncodeAll(When(present, o))| == if present then Align(ObjLen(o)) else 0
  {
    EncodeAllAppend([], o);
    assert [] + [o] == [o];
  }

  lemma SizeOfTwoAnd(a: Obj, b: Obj, rest: seq<Obj>)
    ensures |EncodeAll([a, b] + rest)| == Align(ObjLen(a)) + Align(ObjLen(b)) + |EncodeAll(rest)|
  {
    EncodeAllConcat([a, b], rest);
    EncodeAllAppend([a], b);
    SizeOfWhen(true, a);
    assert [a] + [b] == [a, b];
  }

  lemma SizeOfThreeAnd(a: Obj, b: Obj, c: Obj, rest: seq<Obj>)
    ensures |EncodeAll([a, b, c] + rest)| ==
            Align(ObjLen(a)) + Align(ObjLen(b)) + Align(ObjLen(c)) + |EncodeAll(rest)|
  {
    SizeOfTwoAnd(b, c, rest);
    EncodeFront([a, b, c] + rest);
    assert ([a, b, c] + rest)[1..] == [b, c] + rest;
  }

  lemma SentSlots(c: PathContent, info: P.Info)
    requires Sound(c) && forall f: P.Field :: SlotMatches(info, PathObjs(c), f)
    ensures forall f: P.Field :: f in info.found <==> Sends(c, f)
  {
    PathSlots(c, info);
    forall f: P.Field | !Sends(c, f)
      ensures f !in info.found
    {
      UnsentStaysEmpty(c, info, f);
    }
  }

  lemma PathSlots(c: PathContent, info: P.Info)
    requires Sound(c) && forall f: P.Field :: SlotMatches(info, PathObjs(c), f)
    ensures Has(info, P.Session, SessionObj(c).data) && Has(info, P.Sender, c.sender)
    ensures Has(info, P.Hop, HopObj(c).data) && Has(info, P.TimeValues, TimeObj(c).data)
    ensures Has(info, P.LabelRequest, LabelRequestObj.data) && Has(info, P.SenderTspec, c.tspec)
    ensures Has(info, P.SessionAttribute, AttributeData(c))
    ensures c.ero != [] ==> Has(info, P.ExplicitRoute, RouteObj(c).data)
    ensures RecordedRoute(c) != [] ==> Has(info, P.RecordRoute, RecordObj(c).data)
    ensures c.fastReroute.Some? ==> Has(info, P.FastReroute, c.fastReroute.value)
  {
    EachSuits(c);
    Present(c);
    Deliver(c, info, SessionObj(c), P.Session);
    Deliver(c, info, Obj(11, 7, c.sender), P.Sender);
    Deliver(c, info, HopObj(c), P.Hop);
    Deliver(c, info, TimeObj(c), P.TimeValues);
    Deliver(c, info, LabelRequestObj, P.LabelRequest);
    Deliver(c, info, Obj(12, 2, c.tspec), P.SenderTspec);
    Deliver(c, info, AttributeObj(c), P.SessionAttribute);
    if c.ero != [] {
      Deliver(c, info, RouteObj(c), P.ExplicitRoute);
    }
    if RecordedRoute(c) != [] {
      Deliver(c, info, RecordObj(c), P.RecordRoute);
    }
    if c.fastReroute.Some? {
      Deliver(c, info, RerouteObj(c), P.FastReroute);
    }
  }
}
