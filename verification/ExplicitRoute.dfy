// Explicit and record routes: lists of subobjects inside one object.
module ExplicitRoute {
  import opened Wire

  const MAX_HOPS: nat := 32
  const HOP_LEN: nat := 8
  const ERO_IPV4: nat := 1

  /** An IPv4 subobject: loose bit with type, address, prefix length, reserved byte. */
  datatype Hop = Hop(kind: byte, addr: seq<byte>, prefixLen: byte, res: byte)

  predicate HopOk(h: Hop) {
    h.kind % 128 == ERO_IPV4 && |h.addr| == 4
  }

  ghost predicate HopsOk(hs: seq<Hop>) {
    forall i :: 0 <= i < |hs| ==> HopOk(hs[i])
  }

  function EncodeHop(h: Hop): seq<byte> {
    [h.kind, HOP_LEN] + h.addr + [h.prefixLen, h.res]
  }

  function EncodeHops(hs: seq<Hop>): (b: seq<byte>)
    ensures HopsOk(hs) ==> |b| == HOP_LEN * |hs|
  {
    if hs == [] then [] else EncodeHop(hs[0]) + EncodeHops(hs[1..])
  }

  function HopAt(b: seq<byte>): Hop
    requires |b| >= HOP_LEN
  {
    Hop(b[0], b[2..6], b[6], b[7])
  }

  /** Is the first subobject an IPv4 hop? */
  predicate IsHop(b: seq<byte>)
    requires |b| >= 2
  {
    b[0] % 128 == ERO_IPV4 && b[1] == HOP_LEN
  }

  /** The IPv4 hops of a route, at most `room` of them; other subobjects are skipped, a bad length ends the list. */
  function Decode(b: seq<byte>, room: nat): (hs: seq<Hop>)
    ensures |hs| <= room
    ensures HopsOk(hs)
    decreases |b|
  {
    if |b| < 2 || room == 0 || b[1] < 2 || b[1] > |b| then []
    else if IsHop(b) then [HopAt(b)] + Decode(b[HOP_LEN..], room - 1)
    else Decode(b[b[1]..], room)
  }

  lemma DecodeStep(b: seq<byte>, at: nat, room: nat)
    requires at + 2 <= |b| && room > 0 && 2 <= b[at + 1] <= |b| - at
    ensures var next := at + b[at + 1];
            Decode(b[at..], room) ==
            if IsHop(b[at..]) then [HopAt(b[at..])] + Decode(b[next..], room - 1) else Decode(b[next..], room)
  {
    var len := b[at + 1];
    assert b[at..][len..] == b[at + len..];
  }

  lemma DecodeEnds(b: seq<byte>, room: nat)
    requires |b| < 2 || room == 0 || b[1] < 2 || b[1] > |b|
    ensures Decode(b, room) == []
  {
  }

  /** A hop takes up eight bytes. */
  lemma HopLength(b: seq<byte>)
    requires |b| >= 2 && IsHop(b)
    ensures b[1] == HOP_LEN
  {
  }

  lemma Associate(a: seq<Hop>, h: Hop, c: seq<Hop>)
    ensures a + ([h] + c) == a + [h] + c
  {
  }

  /** The handler's loop. */
  method ReadRoute(b: seq<byte>) returns (hops: seq<Hop>)
    ensures hops == Decode(b, MAX_HOPS)
  {
    hide Decode, IsHop, HopAt;
    hops := [];
    var at, rem := 0, |b|;
    assert b[0..] == b;
    while rem >= 2 && |hops| < MAX_HOPS
      invariant 0 <= at <= |b| && at + rem == |b| && |hops| <= MAX_HOPS
      invariant Decode(b, MAX_HOPS) == hops + Decode(b[at..], MAX_HOPS - |hops|)
      decreases rem
    {
      var sub := b[at..];
      if sub[1] < 2 || sub[1] > rem {
        DecodeEnds(sub, MAX_HOPS - |hops|);
        return;
      }
      DecodeStep(b, at, MAX_HOPS - |hops|);
      if IsHop(sub) {
        HopLength(sub);
        Associate(hops, HopAt(sub), Decode(b[at + HOP_LEN..], MAX_HOPS - |hops| - 1));
        hops := hops + [HopAt(sub)];
      }
      at, rem := at + sub[1], rem - sub[1];
    }
    DecodeEnds(b[at..], MAX_HOPS - |hops|);
  }

  lemma HopReadBack(h: Hop, rest: seq<byte>)
    requires HopOk(h)
    ensures var b := EncodeHop(h) + rest;
            && |b| >= HOP_LEN && IsHop(b) && HopAt(b) == h && b[HOP_LEN..] == rest && b[1] == HOP_LEN
  {
    var b := EncodeHop(h) + rest;
    assert b[2..6] == h.addr;
  }

  /** A route of IPv4 hops is read back up to the table size; bytes after it do not matter when it is full. */
  lemma {:induction false} RouteReadBack(hs: seq<Hop>, room: nat)
    requires HopsOk(hs)
    ensures Decode(EncodeHops(hs), room) == if |hs| <= room then hs else hs[..room]
    decreases |hs|
  {
    if hs != [] {
      var rest := EncodeHops(hs[1..]);
      HopReadBack(hs[0], rest);
      if room > 0 {
        RouteReadBack(hs[1..], room - 1);
        assert Decode(EncodeHops(hs), room) == [hs[0]] + Decode(rest, room - 1);
        if |hs| > room {
          assert [hs[0]] + hs[1..][..room - 1] == hs[..room];
        }
      }
    }
  }

  /** Subobjects that are not IPv4 hops are transparent. */
  lemma SkippedSubobject(sub: seq<byte>, rest: seq<byte>, room: nat)
    requires |sub| >= 2 && sub[1] == |sub| && !IsHop(sub) && room > 0
    ensures Decode(sub + rest, room) == Decode(rest, room)
  {
    assert (sub + rest)[|sub|..] == rest;
  }
}
