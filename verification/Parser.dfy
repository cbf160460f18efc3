// Parsing an RSVP packet: header checks, the object loop, mandatory objects.
//
// `Scan` splits a payload into objects and says how the walk ended; `Parse` is
// the whole decoding stated over it.  The method with the source's loop is
// proved equal to `Parse`.
module Parser {
  import opened Common
  import opened Wire

  const IP_HDR_LEN: nat := 20

  const MSG_PATH: nat := 1
  const MSG_RESV: nat := 2
  const MSG_PATHERR: nat := 3
  const MSG_RESVERR: nat := 4
  const MSG_PATHTEAR: nat := 5
  const MSG_RESVTEAR: nat := 6

  datatype Error = Success | MalformedObj | InvalidParam | BufferTooSmall | BadChecksum | UnknownClass

  /** The slots of the message info that an object can fill. */
  datatype Field =
    | Session | Hop | Integrity | TimeValues | ErrorSpec | Style | FlowSpec | Sender | SenderTspec | Adspec
    | Label | LabelRequest | ExplicitRoute | RecordRoute | SessionAttribute | FastReroute | Detour | Hello

  /** Sender templates and filter specs fill the same slot. */
  function FieldOf(classNum: nat): Option<Field> {
    match classNum
    case 1 => Some(Session)
    case 3 => Some(Hop)
    case 4 => Some(Integrity)
    case 5 => Some(TimeValues)
    case 6 => Some(ErrorSpec)
    case 8 => Some(Style)
    case 9 => Some(FlowSpec)
    case 10 => Some(Sender)
    case 11 => Some(Sender)
    case 12 => Some(SenderTspec)
    case 13 => Some(Adspec)
    case 16 => Some(Label)
    case 19 => Some(LabelRequest)
    case 20 => Some(ExplicitRoute)
    case 21 => Some(RecordRoute)
    case 22 => Some(Hello)
    case 63 => Some(Detour)
    case 205 => Some(FastReroute)
    case 207 => Some(SessionAttribute)
    case _ => None
  }

  /** The least payload with which an object is recorded. */
  function MinData(f: Field): nat {
    match f
    case Session => 12
    case Hop => 8
    case Integrity => 16
    case TimeValues => 4
    case ErrorSpec => 8
    case Style => 4
    case FlowSpec => 32
    case Sender => 8
    case SenderTspec => 32
    case Adspec => 4
    case Label => 4
    case LabelRequest => 4
    case ExplicitRoute => 1
    case RecordRoute => 1
    case SessionAttribute => 4
    case FastReroute => 20
    case Detour => 8
    case Hello => 8
  }

  predicate CTypeFits(f: Field, ctype: nat) {
    match f
    case Session => ctype == 7
    case Hop => ctype == 1
    case Sender => ctype == 1 || ctype == 7
    case SessionAttribute => ctype == 7
    case FastReroute => ctype == 1
    case Detour => ctype == 7
    case Hello => ctype == 1 || ctype == 2
    case _ => true
  }

  /** An object in a payload: where it starts, its length with header, its class and C-Type. */
  datatype Tlv = Tlv(off: nat, len: nat, classNum: byte, ctype: byte)

  predicate Fills(t: Tlv, f: Field) {
    FieldOf(t.classNum) == Some(f) && CTypeFits(f, t.ctype) && t.len >= OBJ_HDR_LEN + MinData(f)
  }

  /** A class number that makes the whole message unacceptable. */
  predicate Rejected(classNum: nat) {
    FieldOf(classNum) == None && classNum < 128
  }

  /** The object whose header starts at a position. */
  function TlvAt(p: seq<byte>, pos: nat): Tlv
    requires pos + OBJ_HDR_LEN <= |p|
  {
    Tlv(pos, U16(p, pos), p[pos + 2], p[pos + 3])
  }

  predicate LengthOk(p: seq<byte>, t: Tlv) {
    OBJ_HDR_LEN <= t.len && t.off + t.len <= |p|
  }

  function PayloadAt(p: seq<byte>, t: Tlv): (d: seq<byte>)
    requires LengthOk(p, t)
    ensures |d| == t.len - OBJ_HDR_LEN
  {
    p[t.off + OBJ_HDR_LEN..t.off + t.len]
  }

  datatype Walk = Walk(objs: seq<Tlv>, err: Error)

  /** Splits the payload from a position into objects, up to the first error. */
  function Scan(p: seq<byte>, pos: nat): Walk
    decreases |p| - pos
  {
    if pos + OBJ_HDR_LEN > |p| then Walk([], Success)
    else
      var t := TlvAt(p, pos);
      if !LengthOk(p, t) then Walk([], MalformedObj)
      else if Rejected(t.classNum) then Walk([], UnknownClass)
      else
        var rest := Scan(p, pos + Align(t.len));
        Walk([t] + rest.objs, rest.err)
  }

  /** The recorded object of each slot. */
  type Found = map<Field, Tlv>

  /** Records an object in its slot unless the slot is taken or the object does not fit it. */
  function Note(found: Found, t: Tlv): Found {
    match FieldOf(t.classNum)
    case None => found
    case Some(f) => if f !in found && Fills(t, f) then found[f := t] else found
  }

  function NoteAll(found: Found, ts: seq<Tlv>): Found
    decreases |ts|
  {
    if ts == [] then found else NoteAll(Note(found, ts[0]), ts[1..])
  }

  datatype Info = Info(found: Found, payload: seq<byte>, msgType: nat, ttl: nat)

  const NO_INFO: Info := Info(map[], [], 0, 0)

  /** The payload bytes of the object in a slot. */
  function DataOf(info: Info, f: Field): seq<byte>
    requires f in info.found && LengthOk(info.payload, info.found[f])
  {
    PayloadAt(info.payload, info.found[f])
  }

  /** The LSP name in a SESSION_ATTRIBUTE payload: the announced length, clamped to the bytes there are. */
  function LspName(data: seq<byte>): (name: seq<byte>)
    requires |data| >= 4
    ensures |name| <= 255
  {
    var available := |data| - 4;
    var nlen := if data[3] > available then available else data[3];
    data[4..4 + nlen]
  }

  /** The name is what was announced when it is all there, and otherwise all that is there. */
  lemma NameIsClamped(data: seq<byte>)
    requires |data| >= 4
    ensures |data| - 4 >= data[3] ==> |LspName(data)| == data[3]
    ensures |data| - 4 < data[3] ==> data == data[..4] + LspName(data)
    ensures LspName(data) <= data[4..]
  {
  }

  /** Mandatory objects of each message type. */
  predicate Complete(msgType: nat, found: Found) {
    if msgType == MSG_PATH || msgType == MSG_PATHTEAR then Session in found && Sender in found
    else if msgType == MSG_RESV then Session in found && Hop in found && Style in found
    else if msgType == MSG_PATHERR || msgType == MSG_RESVERR then Session in found && ErrorSpec in found
    else if msgType == MSG_RESVTEAR then Session in found && Hop in found
    else true
  }

  /** The checks before the object loop. */
  function HeaderError(b: seq<byte>): Error {
    if |b| < IP_HDR_LEN then BufferTooSmall
    else
      var ip := b[0] % 16 * 4;
      if ip < IP_HDR_LEN || ip > |b| then InvalidParam
      else if |b| < ip + HDR_LEN then BufferTooSmall
      else
        var len := U16(b, ip + 6);
        if len < HDR_LEN then MalformedObj
        else if ip + len > |b| then BufferTooSmall
        else if b[ip] / 16 != RSVP_VERSION then InvalidParam
        else if U16(b, ip + 2) != 0 && !Verifies(b[ip..ip + len]) then BadChecksum
        else Success
  }

  /** The length that an IP header claims for itself. */
  function IpLength(b: seq<byte>): nat {
    if |b| == 0 then 0 else b[0] % 16 * 4
  }

  /** The header checks, in the order in which they are made. */
  predicate PassesCheck(b: seq<byte>, i: nat) {
    var ip := IpLength(b);
    match i
    case 0 => |b| >= IP_HDR_LEN
    case 1 => IP_HDR_LEN <= ip <= |b|
    case 2 => |b| >= ip + HDR_LEN
    case 3 => |b| >= ip + HDR_LEN && U16(b, ip + 6) >= HDR_LEN
    case 4 => |b| >= ip + HDR_LEN && ip + U16(b, ip + 6) <= |b|
    case 5 => |b| >= ip + HDR_LEN && b[ip] / 16 == RSVP_VERSION
    case 6 => && |b| >= ip + HDR_LEN && ip + U16(b, ip + 6) <= |b|
              && (U16(b, ip + 2) == 0 || Verifies(b[ip..ip + U16(b, ip + 6)]))
    case _ => true
  }

  function CheckError(i: nat): Error {
    match i
    case 0 => BufferTooSmall
    case 1 => InvalidParam
    case 2 => BufferTooSmall
    case 3 => MalformedObj
    case 4 => BufferTooSmall
    case 5 => InvalidParam
    case 6 => BadChecksum
    case _ => Success
  }

  /** The RSVP message inside a packet that passed the header checks. */
  function MessageOf(b: seq<byte>): (m: seq<byte>)
    requires HeaderError(b) == Success
    ensures |m| >= HDR_LEN
  {
    var ip := b[0] % 16 * 4;
    b[ip..ip + U16(b, ip + 6)]
  }

  function Parse(b: seq<byte>): (Error, Info) {
    var err := HeaderError(b);
    if err != Success then (err, NO_INFO)
    else
      var m := MessageOf(b);
      var payload := m[HDR_LEN..];
      var walk := Scan(payload, 0);
      var info := Info(NoteAll(map[], walk.objs), payload, m[1], m[4]);
      if walk.err != Success then (walk.err, info)
      else if Complete(info.msgType, info.found) then (Success, info)
      else (MalformedObj, info)
  }

  // ---- the source's loop -----------------------------------------------

  method CheckHeader(b: seq<byte>) returns (err: Error)
    ensures err == HeaderError(b)
  {
    if |b| < IP_HDR_LEN {
      return BufferTooSmall;
    }
    var ip := b[0] % 16 * 4;
    if ip < IP_HDR_LEN || ip > |b| {
      return InvalidParam;
    }
    if |b| < ip + HDR_LEN {
      return BufferTooSmall;
    }
    var len := U16(b, ip + 6);
    if len < HDR_LEN {
      return MalformedObj;
    }
    if ip + len > |b| {
      return BufferTooSmall;
    }
    if b[ip] / 16 != RSVP_VERSION {
      return InvalidParam;
    }
    if U16(b, ip + 2) != 0 {
      var ok := VerifyChecksum(b[ip..ip + len]);
      if !ok {
        return BadChecksum;
      }
    }
    return Success;
  }

  lemma NoteNext(ts: seq<Tlv>, t: Tlv)
    ensures NoteAll(map[], ts + [t]) == Note(NoteAll(map[], ts), t)
  {
    NoteAllAppend(map[], ts, [t]);
    assert [t][1..] == [];
  }

  /** One good object moves from the rest of the walk to the objects seen. */
  lemma ScanStep(p: seq<byte>, pos: nat, ts: seq<Tlv>)
    requires pos + OBJ_HDR_LEN <= |p| && LengthOk(p, TlvAt(p, pos)) && !Rejected(TlvAt(p, pos).classNum)
    ensures var t, w, rest := TlvAt(p, pos), Scan(p, pos), Scan(p, pos + Align(TlvAt(p, pos).len));
            w.err == rest.err && ts + w.objs == ts + [t] + rest.objs
  {
    var rest := Scan(p, pos + Align(TlvAt(p, pos).len));
    assert Scan(p, pos) == Walk([TlvAt(p, pos)] + rest.objs, rest.err);
  }

  /** Walks the objects of a payload and records the first fitting one of each slot. */
  method ReadObjects(payload: seq<byte>) returns (err: Error, found: Found)
    ensures err == Scan(payload, 0).err
    ensures found == NoteAll(map[], Scan(payload, 0).objs)
  {
    hide Fills, FieldOf;
    found := map[];
    var pos, remaining := 0, |payload|;
    ghost var ts := [];
    while remaining >= OBJ_HDR_LEN
      invariant pos + remaining == |payload|
      invariant Scan(payload, 0) == Walk(ts + Scan(payload, pos).objs, Scan(payload, pos).err)
      invariant found == NoteAll(map[], ts)
      decreases remaining
    {
      var t := TlvAt(payload, pos);
      if t.len < OBJ_HDR_LEN || t.len > remaining {
        assert ts + [] == ts;
        return MalformedObj, found;
      }
      match FieldOf(t.classNum) {
        case Some(f) =>
          if f !in found && Fills(t, f) {
            found := found[f := t];
          }
        case None =>
          if t.classNum < 128 {
            assert ts + [] == ts;
            return UnknownClass, found;
          }
      }
      NoteNext(ts, t);
      ScanStep(payload, pos, ts);
      ts := ts + [t];
      if Align(t.len) > remaining {
        break;
      }
      pos := pos + Align(t.len);
      remaining := remaining - Align(t.len);
    }
    assert ts + [] == ts;
    return Success, found;
  }

  lemma {:induction false} NoteAllAppend(found: Found, a: seq<Tlv>, b: seq<Tlv>)
    ensures NoteAll(found, a + b) == NoteAll(NoteAll(found, a), b)
    decreases |a|
  {
    if a == [] {
      assert a + b == b;
    } else {
      assert (a + b)[1..] == a[1..] + b;
      NoteAllAppend(Note(found, a[0]), a[1..], b);
    }
  }

  method ParsePacket(b: seq<byte>) returns (err: Error, info: Info)
    ensures (err, info) == Parse(b)
  {
    err := CheckHeader(b);
    if err != Success {
      return err, NO_INFO;
    }
    var m := MessageOf(b);
    var payload := m[HDR_LEN..];
    var found;
    err, found := ReadObjects(payload);
    info := Info(found, payload, m[1], m[4]);
    if err == Success && !Complete(info.msgType, info.found) {
      err := MalformedObj;
    }
  }

  // ---- what the decoding means -----------------------------------------

  /** Every object found lies wholly inside the payload, and none overlaps the next. */
  lemma {:induction false} ScanStaysInside(p: seq<byte>, pos: nat)
    ensures var ts := Scan(p, pos).objs;
            && (forall i :: 0 <= i < |ts| ==> pos <= ts[i].off && LengthOk(p, ts[i]) && !Rejected(ts[i].classNum))
            && (forall i :: 0 <= i < |ts| ==> ts[i] == TlvAt(p, ts[i].off))
            && (ts != [] ==> ts[0].off == pos)
            && (forall i, j :: 0 <= i && j == i + 1 < |ts| ==> ts[j].off == ts[i].off + Align(ts[i].len))
    decreases |p| - pos
  {
    if pos + OBJ_HDR_LEN <= |p| {
      var t := TlvAt(p, pos);
      if LengthOk(p, t) && !Rejected(t.classNum) {
        ScanStaysInside(p, pos + Align(t.len));
      }
    }
  }

  /** Where the walk stops: at the end, at a bad length, or at a class below 128 that is not known. */
  function EndOf(pos: nat, ts: seq<Tlv>): nat {
    if ts == [] then pos else ts[|ts| - 1].off + Align(ts[|ts| - 1].len)
  }

  /** The first defect decides the error, and nothing before it is defective. */
  lemma {:induction false} ScanErrorIsFirstDefect(p: seq<byte>, pos: nat)
    ensures var w := Scan(p, pos);
            var end := EndOf(pos, w.objs);
            match w.err
            case Success => end + OBJ_HDR_LEN > |p|
            case MalformedObj => end + OBJ_HDR_LEN <= |p| && !LengthOk(p, TlvAt(p, end))
            case UnknownClass => && end + OBJ_HDR_LEN <= |p| && LengthOk(p, TlvAt(p, end))
                                 && Rejected(TlvAt(p, end).classNum)
            case _ => false
    decreases |p| - pos
  {
    if pos + OBJ_HDR_LEN <= |p| {
      var t := TlvAt(p, pos);
      if LengthOk(p, t) && !Rejected(t.classNum) {
        ScanErrorIsFirstDefect(p, pos + Align(t.len));
      }
    }
  }

  /** A slot holds the first object that fits it, and is empty when none does. */
  lemma {:induction false} FirstFittingWins(found: Found, ts: seq<Tlv>, f: Field)
    ensures var r := NoteAll(found, ts);
            && (f in found ==> f in r && r[f] == found[f])
            && (f !in found ==>
                  if forall i :: 0 <= i < |ts| ==> !Fills(ts[i], f) then f !in r
                  else f in r && exists i :: 0 <= i < |ts| && r[f] == ts[i] && Fills(ts[i], f)
                                          && forall j :: 0 <= j < i ==> !Fills(ts[j], f))
    decreases |ts|
  {
    if ts != [] {
      var t := ts[0];
      var next := Note(found, t);
      FirstFittingWins(next, ts[1..], f);
      if f !in found {
        if Fills(t, f) {
          assert next[f] == ts[0];
        } else {
          assert f !in next;
          if i :| 0 <= i < |ts| && Fills(ts[i], f) {
            assert ts[1..][i - 1] == ts[i];
            var r := NoteAll(next, ts[1..]);
            var k :| 0 <= k < |ts| - 1 && r[f] == ts[1..][k] && Fills(ts[1..][k], f)
                     && forall j :: 0 <= j < k ==> !Fills(ts[1..][j], f);
            assert r[f] == ts[k + 1];
            forall j | 0 <= j < k + 1
              ensures !Fills(ts[j], f)
            {
              if j > 0 { assert ts[j] == ts[1..][j - 1]; }
            }
          } else {
            assert forall i :: 0 <= i < |ts| - 1 ==> ts[1..][i] == ts[i + 1];
          }
        }
      }
    }
  }

  /** Whatever the bytes, a recorded object lies inside the payload and fits its slot. */
  lemma RecordedObjectsAreSound(b: seq<byte>, f: Field)
    requires f in Parse(b).1.found
    ensures var info := Parse(b).1;
            var t := info.found[f];
            Fills(t, f) && LengthOk(info.payload, t) && |DataOf(info, f)| >= MinData(f)
  {
    var payload := MessageOf(b)[HDR_LEN..];
    ScanStaysInside(payload, 0);
    FirstFittingWins(map[], Scan(payload, 0).objs, f);
  }

  predicate PassesBefore(b: seq<byte>, k: nat) {
    k == 0 || (PassesBefore(b, k - 1) && PassesCheck(b, k - 1))
  }

  /** A header is refused for the first check it fails. */
  lemma FirstFailureDecides(b: seq<byte>, k: nat)
    requires k < 7 && PassesBefore(b, k) && !PassesCheck(b, k)
    ensures HeaderError(b) == CheckError(k) != Success
  {
    UnfoldChecks(b);
  }

  lemma UnfoldChecks(b: seq<byte>)
    ensures PassesBefore(b, 1) <==> PassesCheck(b, 0)
    ensures PassesBefore(b, 2) <==> PassesBefore(b, 1) && PassesCheck(b, 1)
    ensures PassesBefore(b, 3) <==> PassesBefore(b, 2) && PassesCheck(b, 2)
    ensures PassesBefore(b, 4) <==> PassesBefore(b, 3) && PassesCheck(b, 3)
    ensures PassesBefore(b, 5) <==> PassesBefore(b, 4) && PassesCheck(b, 4)
    ensures PassesBefore(b, 6) <==> PassesBefore(b, 5) && PassesCheck(b, 5)
    ensures PassesBefore(b, 7) <==> PassesBefore(b, 6) && PassesCheck(b, 6)
  {
  }

  /** A header is accepted exactly when it passes every check. */
  lemma AcceptedPassesAll(b: seq<byte>)
    ensures HeaderError(b) == Success <==> PassesBefore(b, 7)
  {
    UnfoldChecks(b);
  }

  /** A packet taken apart: an IP header of the length it claims, an RSVP message likewise, and what follows. */
  ghost predicate Framed(b: seq<byte>, ip: seq<byte>, m: seq<byte>, rest: seq<byte>) {
    && b == ip + m + rest
    && 20 <= |ip| == IpLength(ip)
    && 8 <= |m| == U16(m, 6)
    && m[0] / 16 == 1 && (U16(m, 2) == 0 || Verifies(m))
  }

  lemma FramedIsAccepted(b: seq<byte>, ip: seq<byte>, m: seq<byte>, rest: seq<byte>)
    requires Framed(b, ip, m, rest)
    ensures HeaderError(b) == Success && MessageOf(b) == m
  {
    assert b[|ip|..|ip| + |m|] == m;
    assert b[0] == ip[0] && b[|ip|] == m[0];
    assert U16(b, |ip| + 6) == U16(m, 6) && U16(b, |ip| + 2) == U16(m, 2);
  }

  /** The header checks accept exactly the packets that hold a well-formed, correctly summed message. */
  lemma HeaderAcceptsIff(b: seq<byte>)
    ensures HeaderError(b) == Success <==> exists ip, m, rest :: Framed(b, ip, m, rest)
  {
    if HeaderError(b) == Success {
      var n, m := IpLength(b), MessageOf(b);
      assert U16(m, 6) == U16(b, n + 6) && U16(m, 2) == U16(b, n + 2);
      assert b == b[..n] + m + b[n + |m|..];
      assert Framed(b, b[..n], m, b[n + |m|..]);
    }
    if ip, m, rest :| Framed(b, ip, m, rest) {
      FramedIsAccepted(b, ip, m, rest);
    }
  }
}
