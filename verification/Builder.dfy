// Building an RSVP message object by object in a fixed buffer.
module Builder {
  import opened Wire

  /** An object: class number, C-Type and unpadded payload. */
  datatype Obj = Obj(classNum: byte, ctype: byte, data: seq<byte>)

  function ObjLen(o: Obj): nat {
    OBJ_HDR_LEN + |o.data|
  }

  /** The object on the wire: the length field is the true length, the bytes are padded to a multiple of four. */
  function Encode(o: Obj): (b: seq<byte>)
    ensures |b| == Align(ObjLen(o)) && |b| >= OBJ_HDR_LEN
  {
    Put16(ObjLen(o) % 65536) + [o.classNum, o.ctype] + o.data + Zeros(Align(ObjLen(o)) - ObjLen(o))
  }

  function EncodeAll(os: seq<Obj>): (b: seq<byte>)
    ensures |b| % 4 == 0
  {
    if os == [] then [] else EncodeAll(os[..|os| - 1]) + Encode(os[|os| - 1])
  }

  function Header(msgType: byte, checksum: nat, ttl: byte, len: nat): (b: seq<byte>)
    requires checksum < 65536
    ensures |b| == HDR_LEN
  {
    [16 * RSVP_VERSION, msgType] + Put16(checksum) + [ttl, 0] + Put16(len % 65536)
  }

  /** The finished message: header with length and checksum, then the objects. */
  function Message(msgType: byte, ttl: byte, os: seq<Obj>): seq<byte> {
    Sealed(Header(msgType, 0, ttl, HDR_LEN + |EncodeAll(os)|) + EncodeAll(os))
  }

  class RsvpBuilder {
    const buffer: array<byte>
    const msgType: byte
    var offset: nat
    var ttl: byte
    ghost var objs: seq<Obj>

    /** The header is in place, then the objects added so far, then zeros. */
    ghost predicate Valid()
      reads this, buffer
    {
      && HDR_LEN <= offset <= buffer.Length
      && offset == HDR_LEN + |EncodeAll(objs)|
      && buffer[..offset] == Header(msgType, 0, ttl, 0) + EncodeAll(objs)
      && (forall i :: offset <= i < buffer.Length ==> buffer[i] == 0)
    }

    /** Zeroes the buffer and writes the common header. */
    constructor (buf: array<byte>, kind: byte)
      requires buf.Length >= HDR_LEN
      modifies buf
      ensures buffer == buf && msgType == kind && ttl == 255
      ensures Valid() && objs == []
    {
      buffer, msgType, offset, ttl, objs := buf, kind, HDR_LEN, 255, [];
      new;
      for i := 0 to buf.Length
        invariant forall j :: 0 <= j < i ==> buf[j] == 0
        modifies buf
      {
        buf[i] := 0;
      }
      buf[0] := 16 * RSVP_VERSION;
      buf[1] := kind;
      buf[4] := 255;
    }

    /** Overwrites the TTL that the header was given. */
    method SetTtl(t: byte)
      requires Valid()
      modifies this, buffer
      ensures Valid() && ttl == t && objs == old(objs) && offset == old(offset)
    {
      buffer[4] := t;
      ttl := t;
      ghost var m := old(buffer[..offset]);
      assert buffer[..offset] == m[4 := t];
      assert m[HDR_LEN..] == EncodeAll(objs);
      assert m[..HDR_LEN] == Header(msgType, 0, old(ttl), 0);
    }

    /** Appends an object, or refuses it when the padded object does not fit. */
    method AddObj(classNum: byte, ctype: byte, data: seq<byte>) returns (ret: int)
      requires Valid()
      modifies `offset, `objs, buffer
      ensures Valid()
      ensures ret == if old(offset) + Align(OBJ_HDR_LEN + |data|) <= buffer.Length then 0 else -1
      ensures objs == if ret == 0 then old(objs) + [Obj(classNum, ctype, data)] else old(objs)
      ensures ret == 0 ==> offset == old(offset) + Align(OBJ_HDR_LEN + |data|)
      ensures ret != 0 ==> offset == old(offset) && buffer[..] == old(buffer[..])
    {
      var total := OBJ_HDR_LEN + |data|;
      var aligned := Align(total);
      if offset + aligned > buffer.Length {
        return -1;
      }
      ghost var o := Obj(classNum, ctype, data);
      PutBytes(offset, Put16(total % 65536) + [classNum, ctype]);
      PutBytes(offset + OBJ_HDR_LEN, data);
      ObjectInPlace(old(buffer[..]), offset, o, buffer[..]);
      EncodeAllAppend(objs, o);
      assert old(buffer[..])[..offset] == old(buffer[..offset]);
      assert buffer[..][..offset + aligned] == buffer[..offset + aligned];
      ThreePieces(Header(msgType, 0, ttl, 0), EncodeAll(objs), Encode(o));
      offset := offset + aligned;
      objs := objs + [o];
      return 0;
    }

    /** Copies bytes into the buffer. */
    method PutBytes(at: nat, data: seq<byte>)
      requires at + |data| <= buffer.Length
      modifies buffer
      ensures buffer[..] == Spliced(old(buffer[..]), at, data)
    {
      for i := 0 to |data|
        invariant buffer[..] == Spliced(old(buffer[..]), at, data[..i])
        modifies buffer
      {
        buffer[at + i] := data[i];
      }
      assert data[..|data|] == data;
    }

    static function Spliced(b: seq<byte>, at: nat, data: seq<byte>): (r: seq<byte>)
      requires at + |data| <= |b|
      ensures |r| == |b|
    {
      b[..at] + data + b[at + |data|..]
    }

    /** Header and payload written over zeros make an encoded object, padding included. */
    static lemma ObjectInPlace(b: seq<byte>, at: nat, o: Obj, r: seq<byte>)
      requires at + Align(ObjLen(o)) <= |b|
      requires forall i :: at <= i < |b| ==> b[i] == 0
      requires r == Spliced(Spliced(b, at, Put16(ObjLen(o) % 65536) + [o.classNum, o.ctype]), at + OBJ_HDR_LEN, o.data)
      ensures r[..at + Align(ObjLen(o))] == b[..at] + Encode(o)
      ensures forall i :: at + Align(ObjLen(o)) <= i < |r| ==> r[i] == 0
    {
      var head := Put16(ObjLen(o) % 65536) + [o.classNum, o.ctype];
      var end := at + Align(ObjLen(o));
      assert r == b[..at] + head + o.data + b[at + ObjLen(o)..];
      assert b[at + ObjLen(o)..end] == Zeros(Align(ObjLen(o)) - ObjLen(o));
      assert r[..end] == b[..at] + head + o.data + b[at + ObjLen(o)..end];
    }

    method WriteWord(at: nat, w: nat)
      requires at + 1 < offset <= buffer.Length && w < 65536
      modifies buffer
      ensures buffer[..offset] == WithWord(old(buffer[..offset]), at, w)
    {
      buffer[at] := w / 256;
      buffer[at + 1] := w % 256;
    }

    /** Writes the length, truncated to 16 bits, and the checksum; the buffer then starts with the finished message. */
    method Finalize() returns (len: nat)
      requires Valid()
      modifies buffer
      ensures len == offset == |Message(msgType, ttl, objs)|
      ensures buffer[..len] == Message(msgType, ttl, objs)
    {
      hide EncodeAll, Header;
      LengthInHeader(msgType, ttl, EncodeAll(objs), offset);
      WriteWord(6, offset % 65536);
      WriteWord(2, 0);
      var c := ComputeChecksum(buffer[..offset]);
      WriteWord(2, c);
      return offset;
    }
  }

  /** Writing the length into a header, and zero over its checksum. */
  lemma LengthInHeader(msgType: byte, ttl: byte, body: seq<byte>, len: nat)
    ensures var m := Header(msgType, 0, ttl, len) + body;
            WithWord(Header(msgType, 0, ttl, 0) + body, 6, len % 65536) == m && WithWord(m, 2, 0) == m
  {
  }

  lemma EncodeAllAppend(os: seq<Obj>, o: Obj)
    ensures EncodeAll(os + [o]) == EncodeAll(os) + Encode(o)
  {
    assert (os + [o])[..|os|] == os;
  }

  lemma ThreePieces(a: seq<byte>, b: seq<byte>, c: seq<byte>)
    ensures a + b + c == a + (b + c)
  {
  }

  /** Encodings concatenate. */
  lemma {:induction false} EncodeAllConcat(a: seq<Obj>, b: seq<Obj>)
    ensures EncodeAll(a + b) == EncodeAll(a) + EncodeAll(b)
    decreases |b|
  {
    if b == [] {
      assert a + b == a;
    } else {
      var front, last := b[..|b| - 1], b[|b| - 1];
      EncodeAllConcat(a, front);
      assert a + b == (a + front) + [last];
      EncodeAllAppend(a + front, last);
      ThreePieces(EncodeAll(a), EncodeAll(front), Encode(last));
    }
  }
}
