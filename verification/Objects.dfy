// The objects that signalling messages are made of, as they are written, and what a
// reader finds in them byte by byte.
module Objects {
  import opened Common
  import opened Wire
  import opened Builder

  function SessionObject(dest: seq<byte>, tunnelId: nat, extTunnelId: seq<byte>): Obj
    requires tunnelId < 65536
  {
    Obj(1, 7, dest + [0, 0] + Put16(tunnelId) + extTunnelId)
  }

  function HopObject(addr: seq<byte>, ifindex: nat): Obj
    requires ifindex < UINT32
  {
    Obj(3, 1, addr + Put32(ifindex))
  }

  function TimeObject(refreshMs: nat): Obj
    requires refreshMs < UINT32
  {
    Obj(5, 1, Put32(refreshMs))
  }

  function StyleObject(style: nat): Obj
    requires style < UINT32
  {
    Obj(8, 1, Put32(style))
  }

  function LabelObject(l: nat): Obj
    requires l < UINT32
  {
    Obj(16, 1, Put32(l))
  }

  // ---- what a reader finds ---------------------------------------------

  /** Destination, two reserved bytes, tunnel id, extended tunnel id. */
  ghost predicate SessionSays(d: seq<byte>, dest: seq<byte>, tunnelId: nat, extTunnelId: seq<byte>) {
    |d| == 12 && d[..4] == dest && d[4] == 0 && d[5] == 0 && U16(d, 6) == tunnelId && d[8..] == extTunnelId
  }

  /** Neighbour address, then the interface as a 32-bit number. */
  ghost predicate HopSays(d: seq<byte>, addr: seq<byte>, ifindex: nat) {
    |d| == 8 && d[..4] == addr && U16(d, 4) * 65536 + U16(d, 6) == ifindex
  }

  /** One 32-bit number. */
  ghost predicate NumberSays(d: seq<byte>, v: nat) {
    |d| == 4 && U16(d, 0) * 65536 + U16(d, 2) == v
  }

  lemma SessionReads(dest: seq<byte>, tunnelId: nat, extTunnelId: seq<byte>)
    requires |dest| == 4 && tunnelId < 65536 && |extTunnelId| == 4
    ensures SessionSays(SessionObject(dest, tunnelId, extTunnelId).data, dest, tunnelId, extTunnelId)
  {
    var d := SessionObject(dest, tunnelId, extTunnelId).data;
    assert d[..4] == dest && d[8..] == extTunnelId;
    assert d[6] == Put16(tunnelId)[0] && d[7] == Put16(tunnelId)[1];
  }

  lemma HopReads(addr: seq<byte>, ifindex: nat)
    requires |addr| == 4 && ifindex < UINT32
    ensures HopSays(HopObject(addr, ifindex).data, addr, ifindex)
  {
    var d, w := HopObject(addr, ifindex).data, Put32(ifindex);
    assert d[..4] == addr;
    assert d[4] == w[0] && d[5] == w[1] && d[6] == w[2] && d[7] == w[3];
  }

  /** Adds an object without looking at the result; the precondition says that it fits. */
  method Add(b: RsvpBuilder, o: Obj)
    requires b.Valid() && b.offset + Align(ObjLen(o)) <= b.buffer.Length
    modifies b`offset, b`objs, b.buffer
    ensures b.Valid() && b.objs == old(b.objs) + [o]
    ensures b.offset == old(b.offset) + Align(ObjLen(o))
  {
    var _ := b.AddObj(o.classNum, o.ctype, o.data);
  }
}
