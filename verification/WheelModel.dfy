// The hierarchical timer wheel as a value: five levels of slots, each slot a
// sequence of nodes.  `Tick`, `Arm` and `Disarm` follow the locked sections of
// the source.  `Timers` is the specification: a set of armed timers, each with
// the tick at which it is due.
module WheelModel {
  import opened IntrusiveList

  // Level 1 has 256 slots (numbers 0..255), levels 2 to 5 have 64 slots each.
  const TVR_SIZE: nat := 256
  const TVN_SIZE: nat := 64
  const SLOTS: nat := 512
  const HORIZON: nat := 0x1_0000_0000

  /** The tick count, the slots, and the expiry of every node that was ever armed. */
  datatype Wheel = Wheel(now: nat, slots: seq<seq<Node>>, expires: map<Node, nat>)

  /** Ticks covered by one slot of a level. */
  function Unit(level: nat): (u: nat)
    requires 1 <= level <= 5
    ensures u > 0
  {
    if level == 1 then 1 else if level == 2 then 256 else if level == 3 then 16384
    else if level == 4 then 1048576 else 67108864
  }

  function Base(level: nat): nat
    requires 2 <= level <= 5
  {
    TVR_SIZE + TVN_SIZE * (level - 2)
  }

  /** The level that takes a timer due in `idx` ticks. */
  function LevelFor(idx: nat): (level: nat)
    ensures 1 <= level <= 5
  {
    if idx < Unit(2) then 1 else if idx < Unit(3) then 2 else if idx < Unit(4) then 3
    else if idx < Unit(5) then 4 else 5
  }

  /** The slot that takes a timer with the given expiry. */
  function SlotOf(now: nat, expires: nat): (slot: nat)
    ensures slot < SLOTS
  {
    if expires <= now then (now + 1) % TVR_SIZE
    else
      var level := LevelFor(expires - now);
      if level == 1 then expires % TVR_SIZE
      else Base(level) + (expires / Unit(level)) % TVN_SIZE
  }

  predicate Shaped(w: Wheel) {
    |w.slots| == SLOTS
  }

  /** Every node in a slot has an expiry. */
  ghost predicate Known(w: Wheel) {
    Shaped(w) && forall i: nat, n: Node {:trigger n in w.slots[i]} :: 0 <= i < SLOTS && n in w.slots[i] ==> n in w.expires
  }

  /** Appends a node to the slot chosen by its expiry. */
  ghost function Place(w: Wheel, n: Node): (r: Wheel)
    requires Known(w) && n in w.expires
    ensures Known(r) && r.expires == w.expires && r.now == w.now
  {
    var slot := SlotOf(w.now, w.expires[n]);
    w.(slots := w.slots[slot := w.slots[slot] + [n]])
  }

  ghost function PlaceAll(w: Wheel, ns: seq<Node>): (r: Wheel)
    requires Known(w) && forall n: Node :: n in ns ==> n in w.expires
    ensures Known(r) && r.expires == w.expires && r.now == w.now
  {
    if ns == [] then w else Place(PlaceAll(w, ns[..|ns| - 1]), ns[|ns| - 1])
  }

  ghost function Emptied(w: Wheel, slot: nat): (r: Wheel)
    requires Known(w) && slot < SLOTS
    ensures Known(r)
  {
    w.(slots := w.slots[slot := []])
  }

  function Index(now: nat, level: nat): (index: nat)
    requires 1 <= level <= 5
    ensures index < if level == 1 then TVR_SIZE else TVN_SIZE
  {
    if level == 1 then now % TVR_SIZE else (now / Unit(level)) % TVN_SIZE
  }

  /** Empties the current slot of a level and places its nodes again. */
  ghost function Cascade(w: Wheel, level: nat): (r: Wheel)
    requires Known(w) && 2 <= level <= 5
    ensures Known(r) && r.expires == w.expires && r.now == w.now
  {
    var slot := Base(level) + Index(w.now, level);
    PlaceAll(Emptied(w, slot), w.slots[slot])
  }

  /** Cascades a level, and the levels above it while their index has wrapped to 0. */
  ghost function CascadeFrom(w: Wheel, level: nat): (r: Wheel)
    requires Known(w) && 2 <= level <= 5
    ensures Known(r) && r.expires == w.expires && r.now == w.now
    decreases 5 - level
  {
    var r := Cascade(w, level);
    if level < 5 && Index(w.now, level) == 0 then CascadeFrom(r, level + 1) else r
  }

  /** The wheel after the jiffies count has advanced and the due levels have cascaded. */
  ghost function Advance(w: Wheel): (r: Wheel)
    requires Known(w)
    ensures Known(r) && r.expires == w.expires && r.now == w.now + 1
  {
    var v := w.(now := w.now + 1);
    if Index(v.now, 1) == 0 then CascadeFrom(v, 2) else v
  }

  /** One tick: the new wheel and the expired nodes in list order. */
  ghost function Tick(w: Wheel): (r: (Wheel, seq<Node>))
    requires Known(w)
    ensures Known(r.0)
  {
    var v := Advance(w);
    var fired := v.slots[Index(v.now, 1)];
    (Emptied(v, Index(v.now, 1)), fired)
  }

  /** A slot without a given node. */
  ghost function Unslotted(s: seq<Node>, n: Node): (r: seq<Node>)
    ensures Members(r) == Members(s) - {n}
    ensures Distinct(s) ==> Distinct(r)
    ensures n !in s ==> r == s
  {
    if s == [] then []
    else
      var r := Unslotted(s[1..], n);
      assert s == [s[0]] + s[1..];
      assert Members(s) == {s[0]} + Members(s[1..]);
      if s[0] == n then r
      else
        assert Members([s[0]] + r) == {s[0]} + Members(r);
        assert s[0] in r ==> s[0] in Members(r);
        assert s[0] in s[1..] <==> s[0] in Members(s[1..]);
        [s[0]] + r
  }

  /** Takes a node out of the wheel if it is pending. */
  ghost function Disarm(w: Wheel, n: Node): (r: Wheel)
    requires Known(w)
    ensures Known(r)
  {
    var r := Wheel(w.now, seq(SLOTS, i requires 0 <= i < SLOTS => Unslotted(w.slots[i], n)), w.expires);
    assert forall i: nat, m: Node :: 0 <= i < SLOTS && m in r.slots[i] ==> m in Members(w.slots[i]) - {n};
    r
  }

  /** (Re)arms a node for an absolute expiry. */
  ghost function Arm(w: Wheel, n: Node, expires: nat): (r: Wheel)
    requires Known(w)
    ensures Known(r)
  {
    var v := Disarm(w, n);
    Place(v.(expires := v.expires[n := expires]), n)
  }

  /** A wheel with no timers. */
  function Idle(now: nat): Wheel {
    Wheel(now, seq(SLOTS, _ => []), map[])
  }

  // ---- the specification ------------------------------------------------

  /** Armed timers and the tick at which each is due. */
  datatype Timers = Timers(now: nat, due: map<Node, nat>)

  /** A cascaded timer is late by one tick when its expiry is a multiple of 256. */
  function Late(expires: nat): nat {
    if expires % TVR_SIZE == 0 then expires + 1 else expires
  }

  /** The tick at which a timer armed at tick `now` fires. */
  function FireAt(now: nat, expires: nat): nat {
    if expires <= now then now + 1
    else if expires - now < TVR_SIZE then expires
    else Late(expires)
  }

  ghost function ArmTimer(t: Timers, n: Node, expires: nat): Timers {
    t.(due := t.due[n := FireAt(t.now, expires)])
  }

  ghost function DisarmTimer(t: Timers, n: Node): Timers {
    t.(due := t.due - {n})
  }

  ghost function DueAt(t: Timers, tick: nat): set<Node> {
    set n | n in t.due && t.due[n] == tick
  }

  ghost function TickTimers(t: Timers): (Timers, set<Node>) {
    var fired := DueAt(t, t.now + 1);
    (Timers(t.now + 1, t.due - fired), fired)
  }
}
