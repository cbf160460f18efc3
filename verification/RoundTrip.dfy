// What is built is what is parsed.
module RoundTrip {
  import opened Common
  import opened Wire
  import opened Builder
  import P = Parser

  /** The objects that a slot takes: class, C-Type where it is looked at, least payload. */
  predicate Suits(o: Obj, f: P.Field) {
    match f
    case Session => o.classNum == 1 && o.ctype == 7 && |o.data| >= 12
    case Hop => o.classNum == 3 && o.ctype == 1 && |o.data| >= 8
    case Integrity => o.classNum == 4 && |o.data| >= 16
    case TimeValues => o.classNum == 5 && |o.data| >= 4
    case ErrorSpec => o.classNum == 6 && |o.data| >= 8
    case Style => o.classNum == 8 && |o.data| >= 4
    case FlowSpec => o.classNum == 9 && |o.data| >= 32
    case Sender => (o.classNum == 10 || o.classNum == 11) && (o.ctype == 1 || o.ctype == 7) && |o.data| >= 8
    case SenderTspec => o.classNum == 12 && |o.data| >= 32
    case Adspec => o.classNum == 13 && |o.data| >= 4
    case Label => o.classNum == 16 && |o.data| >= 4
    case LabelRequest => o.classNum == 19 && |o.data| >= 4
    case ExplicitRoute => o.classNum == 20 && |o.data| >= 1
    case RecordRoute => o.classNum == 21 && |o.data| >= 1
    case Hello => o.classNum == 22 && (o.ctype == 1 || o.ctype == 2) && |o.data| >= 8
    case Detour => o.classNum == 63 && o.ctype == 7 && |o.data| >= 8
    case FastReroute => o.classNum == 205 && o.ctype == 1 && |o.data| >= 20
    case SessionAttribute => o.classNum == 207 && o.ctype == 7 && |o.data| >= 4
  }

  lemma SuitsIsFills(o: Obj, pos: nat, f: P.Field)
    ensures P.Fills(TlvOf(o, pos), f) <==> Suits(o, f)
  {
  }

  /** The first object of a message that suits a slot. */
  function FirstFor(os: seq<Obj>, f: P.Field): Option<Obj> {
    if os == [] then None else if Suits(os[0], f) then Some(os[0]) else FirstFor(os[1..], f)
  }

  /** A class that is known, or that an implementation may ignore when it is not. */
  predicate Acceptable(classNum: nat) {
    classNum >= 128 || classNum in {1, 3, 4, 5, 6, 8, 9, 10, 11, 12, 13, 16, 19, 20, 21, 22, 63}
  }

  predicate AllAcceptable(os: seq<Obj>) {
    forall o :: o in os ==> Acceptable(o.classNum)
  }

  lemma AcceptableIff(classNum: nat)
    ensures Acceptable(classNum) <==> !P.Rejected(classNum)
  {
  }

  predicate LengthsFit(os: seq<Obj>) {
    forall o :: o in os ==> ObjLen(o) < 65536
  }

  lemma EncodeFront(os: seq<Obj>)
    requires os != []
    ensures EncodeAll(os) == Encode(os[0]) + EncodeAll(os[1..])
  {
    assert os == [os[0]] + os[1..];
    EncodeAllConcat([os[0]], os[1..]);
    assert [os[0]][..0] == [];
    assert EncodeAll([os[0]]) == Encode(os[0]);
  }

  function TlvOf(o: Obj, pos: nat): P.Tlv {
    P.Tlv(pos, ObjLen(o), o.classNum, o.ctype)
  }

  /** Reading an encoded object gives back its header and payload. */
  lemma ObjectReadBack(p: seq<byte>, before: seq<byte>, o: Obj, later: seq<byte>)
    requires ObjLen(o) < 65536 && p == before + Encode(o) + later
    ensures |before| + OBJ_HDR_LEN <= |p| && P.TlvAt(p, |before|) == TlvOf(o, |before|)
    ensures P.LengthOk(p, TlvOf(o, |before|)) && P.PayloadAt(p, TlvOf(o, |before|)) == o.data
  {
    var e := Encode(o);
    assert forall i :: 0 <= i < |e| ==> p[|before| + i] == e[i];
    assert e[OBJ_HDR_LEN..ObjLen(o)] == o.data;
    assert p[|before| + OBJ_HDR_LEN..|before| + ObjLen(o)] == e[OBJ_HDR_LEN..ObjLen(o)];
  }

  lemma EncodeSteps(before: seq<byte>, os: seq<Obj>)
    requires os != []
    ensures before + EncodeAll(os) == before + Encode(os[0]) + EncodeAll(os[1..])
    ensures |before + Encode(os[0])| == |before| + Align(ObjLen(os[0]))
  {
    hide EncodeAll, Encode;
    EncodeFront(os);
    ThreePieces(before, Encode(os[0]), EncodeAll(os[1..]));
  }

  lemma ScanUnfolds(p: seq<byte>, pos: nat, next: nat)
    requires pos + OBJ_HDR_LEN <= |p| && P.LengthOk(p, P.TlvAt(p, pos)) && next == pos + Align(P.TlvAt(p, pos).len)
    ensures var t := P.TlvAt(p, pos);
            P.Scan(p, pos) == if P.Rejected(t.classNum) then P.Walk([], P.UnknownClass)
                              else P.Walk([t] + P.Scan(p, next).objs, P.Scan(p, next).err)
  {
  }

  /** One step of the walk: the first object, then the walk over the others. */
  lemma ScanStep(before: seq<byte>, os: seq<Obj>)
    requires os != [] && ObjLen(os[0]) < 65536
    ensures var p := before + EncodeAll(os);
            var t := TlvOf(os[0], |before|);
            var next := before + Encode(os[0]);
            && p == next + EncodeAll(os[1..])
            && P.LengthOk(p, t) && P.PayloadAt(p, t) == os[0].data
            && P.Scan(p, |before|) == if P.Rejected(os[0].classNum) then P.Walk([], P.UnknownClass)
                                      else P.Walk([t] + P.Scan(p, |next|).objs, P.Scan(p, |next|).err)
  {
    EncodeSteps(before, os);
    ObjectReadBack(before + EncodeAll(os), before, os[0], EncodeAll(os[1..]));
    ScanUnfolds(before + EncodeAll(os), |before|, |before + Encode(os[0])|);
  }

  lemma TailFacts(os: seq<Obj>)
    requires os != []
    ensures LengthsFit(os) <==> ObjLen(os[0]) < 65536 && LengthsFit(os[1..])
    ensures AllAcceptable(os) <==> !P.Rejected(os[0].classNum) && AllAcceptable(os[1..])
  {
    AcceptableIff(os[0].classNum);
    assert os == [os[0]] + os[1..];
  }

  /** The walk over encoded objects ends without error exactly when no class is rejected. */
  lemma {:induction false} ScanVerdict(before: seq<byte>, os: seq<Obj>)
    requires LengthsFit(os)
    ensures P.Scan(before + EncodeAll(os), |before|).err ==
            if AllAcceptable(os) then P.Success else P.UnknownClass
    decreases |os|
  {
    if os != [] {
      TailFacts(os);
      ScanStep(before, os);
      ScanVerdict(before + Encode(os[0]), os[1..]);
    }
  }

  /** The payload found in a slot of a decoded walk. */
  ghost predicate Holds(p: seq<byte>, found: P.Found, f: P.Field, data: seq<byte>) {
    f in found && P.LengthOk(p, found[f]) && P.PayloadAt(p, found[f]) == data
  }

  /** What recording the walk over some objects does to one slot. */
  ghost predicate SlotOutcome(p: seq<byte>, os: seq<Obj>, found: P.Found, r: P.Found, f: P.Field) {
    if f in found then f in r && r[f] == found[f]
    else match FirstFor(os, f)
         case None => f !in r
         case Some(o) => Holds(p, r, f, o.data)
  }

  lemma NoteOutcome(p: seq<byte>, os: seq<Obj>, pos: nat, found: P.Found, r: P.Found, f: P.Field)
    requires os != []
    requires var t := TlvOf(os[0], pos);
             && P.LengthOk(p, t) && P.PayloadAt(p, t) == os[0].data
             && SlotOutcome(p, os[1..], P.Note(found, t), r, f)
    ensures SlotOutcome(p, os, found, r, f)
  {
    forall g: P.Field
      ensures P.Fills(TlvOf(os[0], pos), g) <==> Suits(os[0], g)
    {
      SuitsIsFills(os[0], pos, g);
    }
  }

  lemma NoteAllStep(found: P.Found, t: P.Tlv, rest: seq<P.Tlv>)
    ensures P.NoteAll(found, [t] + rest) == P.NoteAll(P.Note(found, t), rest)
  {
    assert ([t] + rest)[1..] == rest;
  }

  /** Each slot receives the payload of the first object that suits it. */
  lemma {:induction false} SlotHoldsFirst(before: seq<byte>, os: seq<Obj>, found: P.Found, f: P.Field)
    requires LengthsFit(os) && AllAcceptable(os)
    ensures var p := before + EncodeAll(os);
            SlotOutcome(p, os, found, P.NoteAll(found, P.Scan(p, |before|).objs), f)
    decreases |os|
  {
    if os != [] {
      var p, next, t := before + EncodeAll(os), before + Encode(os[0]), TlvOf(os[0], |before|);
      TailFacts(os);
      ScanStep(before, os);
      NoteAllStep(found, t, P.Scan(p, |next|).objs);
      SlotHoldsFirst(next, os[1..], P.Note(found, t), f);
      NoteOutcome(p, os, |before|, found, P.NoteAll(found, P.Scan(p, |before|).objs), f);
    }
  }

  predicate HasObject(os: seq<Obj>, f: P.Field) {
    exists o :: o in os && Suits(o, f)
  }

  /** The objects that each kind of message must hold. */
  predicate HasMandatory(msgType: nat, os: seq<Obj>) {
    && ((msgType == 1 || msgType == 5) ==> HasObject(os, P.Session) && HasObject(os, P.Sender))
    && (msgType == 2 ==> HasObject(os, P.Session) && HasObject(os, P.Hop) && HasObject(os, P.Style))
    && ((msgType == 3 || msgType == 4) ==> HasObject(os, P.Session) && HasObject(os, P.ErrorSpec))
    && (msgType == 6 ==> HasObject(os, P.Session) && HasObject(os, P.Hop))
  }

  lemma {:induction false} FirstForIffSuits(os: seq<Obj>, f: P.Field)
    ensures FirstFor(os, f).Some? <==> HasObject(os, f)
    decreases |os|
  {
    if os != [] {
      FirstForIffSuits(os[1..], f);
      assert os == [os[0]] + os[1..];
      if o :| o in os && Suits(o, f) {
        assert o == os[0] || o in os[1..];
      }
    }
  }

  /** The fields of a finished message. */
  lemma MessageFields(msgType: byte, ttl: byte, os: seq<Obj>)
    requires HDR_LEN + |EncodeAll(os)| <= 65535
    ensures var m := Message(msgType, ttl, os);
            && |m| == HDR_LEN + |EncodeAll(os)| && U16(m, 6) == |m|
            && m[0] == 16 && m[1] == msgType && m[4] == ttl
            && m[HDR_LEN..] == EncodeAll(os) && Verifies(m)
  {
    hide EncodeAll, Verifies, Sealed;
    var raw := Header(msgType, 0, ttl, HDR_LEN + |EncodeAll(os)|) + EncodeAll(os);
    SealedVerifies(raw);
    assert U16(raw, 6) == |raw|;
    assert raw[HDR_LEN..] == EncodeAll(os);
    assert Message(msgType, ttl, os)[HDR_LEN..] == raw[HDR_LEN..];
  }

  lemma MiddlePart(a: seq<byte>, m: seq<byte>, c: seq<byte>)
    ensures (a + m + c)[|a|..|a| + |m|] == m
    ensures forall i :: 0 <= i < |m| ==> (a + m + c)[|a| + i] == m[i]
  {
  }

  /** A finished message behind an IP header, perhaps with bytes after it, passes every header check. */
  lemma BuiltHeaderPasses(ip: seq<byte>, msgType: byte, ttl: byte, os: seq<Obj>, trailer: seq<byte>)
    requires |ip| >= P.IP_HDR_LEN && |ip| == ip[0] % 16 * 4
    requires HDR_LEN + |EncodeAll(os)| <= 65535
    ensures var b := ip + Message(msgType, ttl, os) + trailer;
            && P.HeaderError(b) == P.Success
            && P.MessageOf(b) == Message(msgType, ttl, os)
  {
    var m := Message(msgType, ttl, os);
    MessageFields(msgType, ttl, os);
    MiddlePart(ip, m, trailer);
    var b := ip + m + trailer;
    assert b[0] == ip[0] && b[|ip| + 6] == m[6] && b[|ip| + 7] == m[7] && b[|ip|] == m[0];
    assert U16(b, |ip| + 6) == |m|;
  }

  /** What the parser makes of a finished message whose classes are all acceptable. */
  lemma ParseOfBuilt(ip: seq<byte>, msgType: byte, ttl: byte, os: seq<Obj>, trailer: seq<byte>)
    requires |ip| >= P.IP_HDR_LEN && |ip| == ip[0] % 16 * 4
    requires HDR_LEN + |EncodeAll(os)| <= 65535
    ensures var walk := P.Scan(EncodeAll(os), 0);
            var info := P.Info(P.NoteAll(map[], walk.objs), EncodeAll(os), msgType, ttl);
            && walk.err == (if AllAcceptable(os) then P.Success else P.UnknownClass)
            && P.Parse(ip + Message(msgType, ttl, os) + trailer) ==
               (if walk.err != P.Success then walk.err
                else if P.Complete(msgType, info.found) then P.Success else P.MalformedObj, info)
  {
    ObjectsFit(os);
    BuiltHeaderPasses(ip, msgType, ttl, os, trailer);
    MessageFields(msgType, ttl, os);
    ScanVerdict([], os);
    assert [] + EncodeAll(os) == EncodeAll(os);
  }

  /** The payload in a slot. */
  function Slot(info: P.Info, f: P.Field): seq<byte> {
    if f in info.found && P.LengthOk(info.payload, info.found[f]) then P.DataOf(info, f) else []
  }

  /** The slot of a parsed message, against the objects it was built from. */
  ghost predicate SlotMatches(info: P.Info, os: seq<Obj>, f: P.Field) {
    match FirstFor(os, f)
    case None => f !in info.found
    case Some(o) => f in info.found && P.LengthOk(info.payload, info.found[f]) && P.DataOf(info, f) == o.data
  }

  /**
   * Parsing a finished message gives back, per slot, the payload of the first
   * object that suits it; it succeeds exactly when the mandatory objects are there.
   */
  lemma BuildThenParse(ip: seq<byte>, msgType: byte, ttl: byte, os: seq<Obj>, trailer: seq<byte>)
    requires |ip| >= P.IP_HDR_LEN && |ip| == ip[0] % 16 * 4
    requires HDR_LEN + |EncodeAll(os)| <= 65535 && AllAcceptable(os)
    ensures var (err, info) := P.Parse(ip + Message(msgType, ttl, os) + trailer);
            && (err == P.Success <==> HasMandatory(msgType, os))
            && info.msgType == msgType && info.ttl == ttl
            && forall f: P.Field :: SlotMatches(info, os, f)
  {
    hide P.Parse, Message, HasMandatory, SlotMatches;
    ParseOfBuilt(ip, msgType, ttl, os, trailer);
    var info := P.Parse(ip + Message(msgType, ttl, os) + trailer).1;
    SlotsOfBuilt(os, info);
    CompleteIff(msgType, os, info.found);
  }

  lemma SlotsOfBuilt(os: seq<Obj>, info: P.Info)
    requires |EncodeAll(os)| < 65536 && AllAcceptable(os)
    requires info.payload == EncodeAll(os) && info.found == P.NoteAll(map[], P.Scan(EncodeAll(os), 0).objs)
    ensures forall f: P.Field :: SlotMatches(info, os, f) && (f in info.found <==> HasObject(os, f))
  {
    ObjectsFit(os);
    assert [] + EncodeAll(os) == EncodeAll(os);
    forall f: P.Field
      ensures SlotMatches(info, os, f) && (f in info.found <==> HasObject(os, f))
    {
      SlotHoldsFirst([], os, map[], f);
      FirstForIffSuits(os, f);
    }
  }

  lemma CompleteIff(msgType: nat, os: seq<Obj>, found: P.Found)
    requires forall f: P.Field :: f in found <==> HasObject(os, f)
    ensures P.Complete(msgType, found) <==> HasMandatory(msgType, os)
  {
    hide HasObject;
  }

  lemma {:induction false} ObjectsFit(os: seq<Obj>)
    requires |EncodeAll(os)| < 65536
    ensures LengthsFit(os)
    decreases |os|
  {
    if os != [] {
      EncodeFront(os);
      ObjectsFit(os[1..]);
      assert os == [os[0]] + os[1..];
    }
  }

  /** One object of an unknown class below 128 makes the parser refuse the whole message. */
  lemma RejectedClassRejectsMessage(ip: seq<byte>, msgType: byte, ttl: byte, os: seq<Obj>, trailer: seq<byte>)
    requires |ip| >= P.IP_HDR_LEN && |ip| == ip[0] % 16 * 4
    requires HDR_LEN + |EncodeAll(os)| <= 65535
    ensures P.Parse(ip + Message(msgType, ttl, os) + trailer).0 == P.UnknownClass <==> !AllAcceptable(os)
  {
    ParseOfBuilt(ip, msgType, ttl, os, trailer);
  }

  /** SCOPE, class 7, has no slot although the builder can write it: one makes the parser refuse the message. */
  lemma ScopeRejectsMessage(ip: seq<byte>, msgType: byte, ttl: byte, os: seq<Obj>, trailer: seq<byte>, scope: Obj)
    requires |ip| >= P.IP_HDR_LEN && |ip| == ip[0] % 16 * 4
    requires HDR_LEN + |EncodeAll(os)| <= 65535 && scope in os && scope.classNum == 7
    ensures P.Parse(ip + Message(msgType, ttl, os) + trailer).0 == P.UnknownClass
  {
    assert !Acceptable(scope.classNum);
    RejectedClassRejectsMessage(ip, msgType, ttl, os, trailer);
  }

  /** The only object of its class is the one that a slot receives. */
  lemma {:induction false} OnlyOneOfItsClass(os: seq<Obj>, o: Obj, f: P.Field)
    requires o in os && Suits(o, f)
    requires forall q :: q in os && q != o ==> !Suits(q, f)
    ensures FirstFor(os, f) == Some(o)
    decreases |os|
  {
    if os[0] != o {
      assert os == [os[0]] + os[1..];
      OnlyOneOfItsClass(os[1..], o, f);
    }
  }

  lemma LoneObject(os: seq<Obj>, info: P.Info, o: Obj, f: P.Field)
    requires o in os && Suits(o, f) && SlotMatches(info, os, f)
    requires forall q :: q in os && q != o ==> !Suits(q, f)
    ensures f in info.found && Slot(info, f) == o.data
  {
    OnlyOneOfItsClass(os, o, f);
  }

  /** The objects that neither a PATH nor a RESV carries reach their slots too, when they are alone in their class. */
  lemma OtherObjectsReadBack(ip: seq<byte>, msgType: byte, ttl: byte, os: seq<Obj>, trailer: seq<byte>, o: Obj)
    requires |ip| >= 20 && |ip| == ip[0] % 16 * 4
    requires HDR_LEN + |EncodeAll(os)| <= 65535 && AllAcceptable(os)
    requires o in os && forall q :: q in os && q != o ==> q.classNum != o.classNum
    ensures var info := P.Parse(ip + Message(msgType, ttl, os) + trailer).1;
            && (o.classNum == 4 && |o.data| >= 16 ==> P.Integrity in info.found && Slot(info, P.Integrity) == o.data)
            && (o.classNum == 6 && |o.data| >= 8 ==> P.ErrorSpec in info.found && Slot(info, P.ErrorSpec) == o.data)
            && (o.classNum == 13 && |o.data| >= 4 ==> P.Adspec in info.found && Slot(info, P.Adspec) == o.data)
            && (o.classNum == 22 && (o.ctype == 1 || o.ctype == 2) && |o.data| >= 8 ==>
                  P.Hello in info.found && Slot(info, P.Hello) == o.data)
            && (o.classNum == 63 && o.ctype == 7 && |o.data| >= 8 ==> P.Detour in info.found && Slot(info, P.Detour) == o.data)
  {
    hide P.Parse, SlotMatches, Message;
    BuildThenParse(ip, msgType, ttl, os, trailer);
    var info := P.Parse(ip + Message(msgType, ttl, os) + trailer).1;
    forall f: P.Field | Suits(o, f) && f != P.Sender
      ensures f in info.found && Slot(info, f) == o.data
    {
      LoneObject(os, info, o, f);
    }
    assert Suits(o, P.Integrity) <==> o.classNum == 4 && |o.data| >= 16;
    assert Suits(o, P.ErrorSpec) <==> o.classNum == 6 && |o.data| >= 8;
    assert Suits(o, P.Adspec) <==> o.classNum == 13 && |o.data| >= 4;
    assert Suits(o, P.Hello) <==> o.classNum == 22 && (o.ctype == 1 || o.ctype == 2) && |o.data| >= 8;
    assert Suits(o, P.Detour) <==> o.classNum == 63 && o.ctype == 7 && |o.data| >= 8;
  }

  lemma {:induction false} NoneOfItsClass(os: seq<Obj>, f: P.Field)
    requires forall q :: q in os ==> !Suits(q, f)
    ensures FirstFor(os, f) == None
    decreases |os|
  {
    if os != [] {
      NoneOfItsClass(os[1..], f);
    }
  }
}
