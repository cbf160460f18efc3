// The timer wheel refines the set of armed timers.
module WheelRefinement {
  import opened IntrusiveList
  import opened WheelModel

  /** The slot in which each node sits. */
  type Seats = map<Node, nat>

  // Within a tick the levels cascade from the bottom: at stage 1 the count has
  // just advanced, at stage k levels 2..k are settled, and at stage 6 the expiry
  // slot has been swept too.  Stage 6 is the state between two ticks.
  const ADVANCED: nat := 1
  const CASCADED: nat := 5
  const SETTLED: nat := 6

  function LevelOf(slot: nat): nat
    requires TVR_SIZE <= slot < SLOTS
  {
    2 + (slot - TVR_SIZE) / TVN_SIZE
  }

  /** Is the current block of a level still waiting to be cascaded? */
  predicate Waiting(now: nat, level: nat, stage: nat)
    requires 2 <= level <= 5
  {
    stage < level && now % Unit(level) == 0
  }

  /** The slot is the right one for a timer with this expiry and due tick. */
  predicate SeatOk(now: nat, slot: nat, expires: nat, due: nat, stage: nat) {
    && slot < SLOTS
    && if slot < TVR_SIZE then
         && slot == due % TVR_SIZE
         && now + (if stage == SETTLED then 1 else 0) <= due < now + TVR_SIZE
       else
         var level := LevelOf(slot);
         var ahead := expires / Unit(level) - now / Unit(level);
         && slot == Base(level) + (expires / Unit(level)) % TVN_SIZE
         && due == Late(expires)
         && if Waiting(now, level, stage) then 0 <= ahead < TVN_SIZE else 1 <= ahead <= TVN_SIZE
  }

  /** A node taken off level `level` at a cascade, not yet placed again. */
  predicate Loose(now: nat, expires: nat, due: nat, level: nat)
    requires 2 <= level <= 5
  {
    now % Unit(level) == 0 && expires / Unit(level) == now / Unit(level) && due == Late(expires)
  }

  /** The slots hold exactly the seated nodes, each once and in its seat. */
  ghost predicate Seated(w: Wheel, seats: Seats) {
    && Known(w)
    && seats.Keys <= w.expires.Keys
    && (forall i {:trigger Distinct(w.slots[i])} :: 0 <= i < SLOTS ==> Distinct(w.slots[i]))
    && (forall i: nat, n: Node {:trigger n in w.slots[i]} :: 0 <= i < SLOTS && n in w.slots[i] ==> n in seats && seats[n] == i)
    && (forall n: Node :: n in seats ==> seats[n] < SLOTS && n in w.slots[seats[n]])
  }

  /** Every seat is the right one. */
  ghost predicate Right(w: Wheel, due: map<Node, nat>, seats: Seats, stage: nat) {
    && seats.Keys <= due.Keys
    && forall n: Node :: n in seats ==> n in w.expires && SeatOk(w.now, seats[n], w.expires[n], due[n], stage)
  }

  ghost predicate Inv(w: Wheel, due: map<Node, nat>, seats: Seats, stage: nat) {
    Seated(w, seats) && Right(w, due, seats, stage)
  }

  ghost predicate Refines(w: Wheel, t: Timers, seats: Seats) {
    w.now == t.now && seats.Keys == t.due.Keys && Inv(w, t.due, seats, SETTLED)
  }

  // ---- arithmetic of one timer -----------------------------------------

  lemma LevelOfBase(level: nat, index: nat)
    requires 2 <= level <= 5 && index < TVN_SIZE
    ensures TVR_SIZE <= Base(level) + index < SLOTS
    ensures LevelOf(Base(level) + index) == level
  {
  }

  /** A freshly armed timer is placed where it will fire at `FireAt`. */
  lemma ArmedSeat(now: nat, expires: nat)
    requires expires < now + HORIZON
    ensures SeatOk(now, SlotOf(now, expires), expires, FireAt(now, expires), SETTLED)
  {
    if expires > now {
      var level := LevelFor(expires - now);
      if level > 1 {
        LevelOfBase(level, (expires / Unit(level)) % TVN_SIZE);
        BlocksToGo(now, expires, level);
      }
    }
  }

  /** A timer of a higher level is one to 64 blocks of that level away. */
  lemma BlocksToGo(now: nat, expires: nat, level: nat)
    requires now < expires < now + HORIZON && level == LevelFor(expires - now) && 2 <= level <= 5
    ensures 1 <= expires / Unit(level) - now / Unit(level) <= TVN_SIZE
  {
    if level == 2 {
      assert 1 <= expires / 256 - now / 256 <= 64;
    } else if level == 3 {
      assert 1 <= expires / 16384 - now / 16384 <= 64;
    } else if level == 4 {
      assert 1 <= expires / 1048576 - now / 1048576 <= 64;
    } else {
      assert 1 <= expires / 67108864 - now / 67108864 <= 64;
    }
  }

  lemma CancelFactor(u: nat, a: int, b: int)
    requires u * a < u * b
    ensures a < b
  {
    assert u * (b - a) > 0;
  }

  lemma QuotientOf(u: nat, k: nat, r: nat)
    requires u > 0
    ensures (u * k + r) / u == k + r / u
  {
    var d := (u * k + r) / u;
    var e := r / u;
    assert u * (k + e) == u * k + u * e && u * (k + e + 1) == u * k + u * e + u;
    assert u * e <= r < u * e + u;
    assert u * d <= u * k + r < u * (d + 1);
    CancelFactor(u, d, k + e + 1);
    CancelFactor(u, k + e, d + 1);
  }

  /** How many blocks of a lower level make up one block of a level. */
  function Ratio(level: nat, to: nat): (m: nat)
    requires 1 <= to < level <= 5
    ensures Unit(to) * m == Unit(level)
    ensures to > 1 ==> Unit(to + 1) == TVN_SIZE * Unit(to)
  {
    if level == 2 then 256
    else if to == 1 then Unit(level)
    else if level - to == 1 then 64 else if level - to == 2 then 4096 else 262144
  }

  /** From the start of a block, a timer of the same block lies 1 to 63 smaller blocks ahead. */
  lemma BlocksAhead(now: nat, expires: nat, level: nat, to: nat)
    requires 2 <= to < level <= 5
    requires now % Unit(level) == 0
    requires Unit(to) <= expires - now < Unit(to + 1)
    ensures 1 <= expires / Unit(to) - now / Unit(to) < TVN_SIZE
  {
    var u, m, q, r := Unit(to), Ratio(level, to), now / Unit(level), expires - now;
    assert now == u * (m * q) by {
      assert now == Unit(level) * q;
    }
    QuotientOf(u, m * q, 0);
    QuotientOf(u, m * q, r);
    QuotientOf(u, 1, r - u);
    CancelFactor(u, r / u, TVN_SIZE);
  }

  lemma WholeBlocks(now: nat, level: nat)
    requires 2 <= level <= 5 && now % Unit(level) == 0
    ensures now % TVR_SIZE == 0
  {
    if level > 2 {
      assert now == 256 * (Ratio(level, 2) * (now / Unit(level)));
    }
  }

  lemma OffsetInRound(now: nat, r: nat)
    requires now % TVR_SIZE == 0 && r < TVR_SIZE
    ensures (now + r) % TVR_SIZE == r
  {
  }

  lemma InsideBlock(now: nat, expires: nat, level: nat)
    requires 2 <= level <= 5 && now % Unit(level) == 0 && expires / Unit(level) == now / Unit(level)
    ensures now <= expires < now + Unit(level)
  {
    assert now == Unit(level) * (now / Unit(level));
  }

  /** A timer due within the first level, seen from the start of a round. */
  lemma NearSeat(now: nat, expires: nat, level: nat)
    requires 2 <= level <= 5 && now % TVR_SIZE == 0 && now <= expires < now + TVR_SIZE
    ensures SeatOk(now, SlotOf(now, expires), expires, Late(expires), level)
  {
    OffsetInRound(now, expires - now);
    OffsetInRound(now, 1);
  }

  /** A cascaded timer goes to a strictly lower level, where its due tick is still met. */
  lemma CascadedSeat(now: nat, expires: nat, due: nat, level: nat)
    requires 2 <= level <= 5 && Loose(now, expires, due, level)
    ensures SlotOf(now, expires) < Base(level)
    ensures SeatOk(now, SlotOf(now, expires), expires, due, level)
  {
    InsideBlock(now, expires, level);
    WholeBlocks(now, level);
    if expires < now + TVR_SIZE {
      NearSeat(now, expires, level);
    } else {
      var to := LevelFor(expires - now);
      BlocksAhead(now, expires, level, to);
      LevelOfBase(to, (expires / Unit(to)) % TVN_SIZE);
    }
  }

  /** Advancing the count turns a settled seat into one of the first stage. */
  lemma AdvancedSeat(now: nat, slot: nat, expires: nat, due: nat)
    requires SeatOk(now, slot, expires, due, SETTLED)
    ensures SeatOk(now + 1, slot, expires, due, ADVANCED)
  {
  }

  /** A node in the current slot of a waiting level belongs to the current block. */
  lemma CurrentBlock(now: nat, level: nat, expires: nat, due: nat, stage: nat)
    requires 2 <= level <= 5 && stage < level && now % Unit(level) == 0
    requires SeatOk(now, Base(level) + Index(now, level), expires, due, stage)
    ensures Loose(now, expires, due, level)
  {
    LevelOfBase(level, Index(now, level));
  }

  /** Outside the current slot of a level, cascading that level changes nothing for a seat. */
  lemma OtherSeat(now: nat, slot: nat, expires: nat, due: nat, level: nat)
    requires 2 <= level <= 5 && SeatOk(now, slot, expires, due, level - 1)
    requires slot != Base(level) + Index(now, level)
    ensures SeatOk(now, slot, expires, due, level)
  {
  }

  /** A level wraps on this tick exactly when the level below wraps with index 0. */
  lemma NextLevelWraps(now: nat, level: nat)
    requires 2 <= level < 5 && now % Unit(level) == 0
    ensures now % Unit(level + 1) == 0 <==> Index(now, level) == 0
  {
  }

  /** If a level does not wrap on this tick, no level above it does. */
  lemma {:induction false} HigherLevelsRest(now: nat, level: nat, higher: nat)
    requires 2 <= level <= higher <= 5 && now % Unit(level) != 0
    ensures now % Unit(higher) != 0
  {
    if level < higher {
      if now % Unit(higher) == 0 {
        assert now == Unit(level) * (Ratio(higher, level) * (now / Unit(higher)));
        QuotientOf(Unit(level), Ratio(higher, level) * (now / Unit(higher)), 0);
        assert false;
      }
    }
  }

  // ---- slots ------------------------------------------------------------

  lemma PlaceSeats(w: Wheel, seats: Seats, n: Node)
    requires Seated(w, seats) && n in w.expires && n !in seats
    ensures Seated(Place(w, n), seats[n := SlotOf(w.now, w.expires[n])])
  {
    var slot := SlotOf(w.now, w.expires[n]);
    assert n !in w.slots[slot];
    assert Distinct(w.slots[slot]);
    forall i | 0 <= i < SLOTS
      ensures Distinct(Place(w, n).slots[i])
    {
      assert Distinct(w.slots[i]);
    }
  }

  /** Emptying a slot unseats its nodes and nothing else. */
  lemma EmptyUnseats(w: Wheel, seats: Seats, slot: nat)
    requires Seated(w, seats) && slot < SLOTS
    ensures Seated(Emptied(w, slot), seats - Members(w.slots[slot]))
  {
    var r := Emptied(w, slot);
    forall i: nat, n: Node | 0 <= i < SLOTS && n in r.slots[i]
      ensures n in seats - Members(w.slots[slot]) && seats[n] == i
    {
      assert i != slot && n in w.slots[i];
      assert n !in w.slots[slot];
      assert n !in Members(w.slots[slot]);
    }
  }

  lemma PlaceKeepsInv(w: Wheel, due: map<Node, nat>, seats: Seats, n: Node, stage: nat)
    requires Inv(w, due, seats, stage)
    requires n in w.expires && n in due && n !in seats
    requires SeatOk(w.now, SlotOf(w.now, w.expires[n]), w.expires[n], due[n], stage)
    ensures Inv(Place(w, n), due, seats[n := SlotOf(w.now, w.expires[n])], stage)
  {
    PlaceSeats(w, seats, n);
  }

  lemma {:induction false} PlaceAllKeepsInv(w: Wheel, due: map<Node, nat>, seats: Seats, ns: seq<Node>, level: nat)
    returns (after: Seats)
    requires 2 <= level <= 5 && Inv(w, due, seats, level)
    requires Distinct(ns)
    requires forall n: Node :: n in ns ==> n in w.expires && n in due && n !in seats && Loose(w.now, w.expires[n], due[n], level)
    ensures Inv(PlaceAll(w, ns), due, after, level)
    ensures after.Keys == seats.Keys + Members(ns)
    ensures forall n: Node :: n in seats ==> after[n] == seats[n]
    ensures forall n: Node :: n in ns ==> after[n] < Base(level)
  {
    after := seats;
    if ns != [] {
      var front, last := ns[..|ns| - 1], ns[|ns| - 1];
      assert ns == front + [last];
      after := PlaceAllKeepsInv(w, due, seats, front, level);
      CascadedSeat(w.now, w.expires[last], due[last], level);
      PlaceKeepsInv(PlaceAll(w, front), due, after, last, level);
      after := after[last := SlotOf(w.now, w.expires[last])];
    }
  }

  /** The nodes of the current slot of a wrapping level all belong to the block that starts now. */
  lemma CurrentSlotIsLoose(w: Wheel, due: map<Node, nat>, seats: Seats, level: nat, ns: seq<Node>)
    requires 2 <= level <= 5 && w.now % Unit(level) == 0
    requires Inv(w, due, seats, level - 1)
    requires ns == w.slots[Base(level) + Index(w.now, level)]
    ensures forall n: Node :: n in ns ==> n in w.expires && n in seats && Loose(w.now, w.expires[n], due[n], level)
  {
    forall n: Node | n in ns
      ensures n in w.expires && n in seats && Loose(w.now, w.expires[n], due[n], level)
    {
      CurrentBlock(w.now, level, w.expires[n], due[n], level - 1);
    }
  }

  /** Cascading a level leaves the seats outside its current slot right. */
  lemma OtherSeats(w: Wheel, due: map<Node, nat>, seats: Seats, level: nat)
    requires 2 <= level <= 5 && Inv(w, due, seats, level - 1)
    ensures forall n: Node :: n in seats && seats[n] != Base(level) + Index(w.now, level) ==>
              SeatOk(w.now, seats[n], w.expires[n], due[n], level)
  {
    forall n: Node | n in seats && seats[n] != Base(level) + Index(w.now, level)
      ensures SeatOk(w.now, seats[n], w.expires[n], due[n], level)
    {
      OtherSeat(w.now, seats[n], w.expires[n], due[n], level);
    }
  }

  /** With its current slot emptied, a level is settled. */
  lemma EmptyKeepsInv(w: Wheel, due: map<Node, nat>, seats: Seats, level: nat)
    requires 2 <= level <= 5 && Inv(w, due, seats, level - 1)
    ensures var slot := Base(level) + Index(w.now, level);
            var ns := w.slots[slot];
            && Inv(Emptied(w, slot), due, seats - Members(ns), level) && Distinct(ns)
            && forall n: Node :: n in seats ==> (n in ns <==> seats[n] == slot)
  {
    var slot := Base(level) + Index(w.now, level);
    OtherSeats(w, due, seats, level);
    EmptyUnseats(w, seats, slot);
    assert Distinct(w.slots[slot]);
  }

  /** A cascade settles its level and moves the nodes of one slot to strictly lower levels. */
  lemma CascadeKeepsInv(w: Wheel, due: map<Node, nat>, seats: Seats, level: nat) returns (after: Seats)
    requires 2 <= level <= 5 && w.now % Unit(level) == 0
    requires Inv(w, due, seats, level - 1)
    ensures Inv(Cascade(w, level), due, after, level)
    ensures after.Keys == seats.Keys
    ensures forall n: Node :: n in seats ==>
              if seats[n] == Base(level) + Index(w.now, level) then after[n] < Base(level) else after[n] == seats[n]
  {
    hide SeatOk, PlaceAll, Unit;
    var slot := Base(level) + Index(w.now, level);
    var ns := w.slots[slot];
    EmptyKeepsInv(w, due, seats, level);
    CurrentSlotIsLoose(w, due, seats, level, ns);
    after := PlaceAllKeepsInv(Emptied(w, slot), due, seats - Members(ns), ns, level);
  }

  /** Once a level does not wrap, the levels above it need no cascade. */
  lemma RestOfLevels(w: Wheel, due: map<Node, nat>, seats: Seats, stage: nat)
    requires 1 <= stage <= 5 && Inv(w, due, seats, stage)
    requires stage < 5 ==> w.now % Unit(stage + 1) != 0
    ensures Inv(w, due, seats, CASCADED)
  {
    forall n: Node | n in seats
      ensures SeatOk(w.now, seats[n], w.expires[n], due[n], CASCADED)
    {
      if seats[n] >= TVR_SIZE && LevelOf(seats[n]) > stage {
        HigherLevelsRest(w.now, stage + 1, LevelOf(seats[n]));
      }
    }
  }

  lemma {:induction false} CascadeFromKeepsInv(w: Wheel, due: map<Node, nat>, seats: Seats, level: nat)
    returns (after: Seats)
    requires 2 <= level <= 5 && w.now % Unit(level) == 0
    requires Inv(w, due, seats, level - 1)
    ensures Inv(CascadeFrom(w, level), due, after, CASCADED)
    ensures after.Keys == seats.Keys
    decreases 5 - level
  {
    after := CascadeKeepsInv(w, due, seats, level);
    if level < 5 {
      NextLevelWraps(w.now, level);
      if Index(w.now, level) == 0 {
        after := CascadeFromKeepsInv(Cascade(w, level), due, after, level + 1);
      } else {
        RestOfLevels(Cascade(w, level), due, after, level);
      }
    }
  }

  lemma CountKeepsInv(w: Wheel, due: map<Node, nat>, seats: Seats)
    requires Inv(w, due, seats, SETTLED)
    ensures Inv(w.(now := w.now + 1), due, seats, ADVANCED)
  {
    forall n: Node | n in seats
      ensures SeatOk(w.now + 1, seats[n], w.expires[n], due[n], ADVANCED)
    {
      AdvancedSeat(w.now, seats[n], w.expires[n], due[n]);
    }
  }

  /** After the cascades of a tick every node is in the slot of its block again. */
  lemma AdvanceKeepsInv(w: Wheel, due: map<Node, nat>, seats: Seats) returns (after: Seats)
    requires Inv(w, due, seats, SETTLED)
    ensures Inv(Advance(w), due, after, CASCADED)
    ensures after.Keys == seats.Keys
  {
    var v := w.(now := w.now + 1);
    CountKeepsInv(w, due, seats);
    after := seats;
    if Index(v.now, 1) == 0 {
      assert Advance(w) == CascadeFrom(v, 2);
      after := CascadeFromKeepsInv(v, due, seats, 2);
    } else {
      assert Advance(w) == v;
      RestOfLevels(v, due, seats, ADVANCED);
    }
  }

  // ---- one step ---------------------------------------------------------

  /** One tick of the wheel is one tick of the specification; the expired list has no duplicates. */
  lemma TickRefines(w: Wheel, t: Timers, seats: Seats) returns (after: Seats)
    requires Refines(w, t, seats)
    ensures Refines(Tick(w).0, TickTimers(t).0, after)
    ensures Members(Tick(w).1) == TickTimers(t).1
    ensures Distinct(Tick(w).1)
  {
    after := AdvanceKeepsInv(w, t.due, seats);
    var v := Advance(w);
    var slot := Index(v.now, 1);
    var fired := v.slots[slot];
    SweepIsDue(v, t.due, after, fired);
    var swept := after - Members(fired);
    forall n: Node | n in after && after[n] != slot
      ensures SeatOk(v.now, after[n], v.expires[n], t.due[n], SETTLED)
    {
      DueInSlot(v.now, after[n], v.expires[n], t.due[n]);
    }
    EmptyUnseats(v, after, slot);
    after := swept;
  }

  /** The expiry slot holds exactly the timers due now. */
  lemma SweepIsDue(v: Wheel, due: map<Node, nat>, seats: Seats, fired: seq<Node>)
    requires Inv(v, due, seats, CASCADED) && seats.Keys == due.Keys
    requires fired == v.slots[Index(v.now, 1)]
    ensures Members(fired) == DueAt(Timers(v.now, due), v.now)
  {
    forall n: Node | n in due
      ensures n in fired <==> due[n] == v.now
    {
      DueInSlot(v.now, seats[n], v.expires[n], due[n]);
    }
  }

  /** A settled timer is in the expiry slot exactly when it is due now, and is never overdue. */
  lemma DueInSlot(now: nat, slot: nat, expires: nat, due: nat)
    requires SeatOk(now, slot, expires, due, CASCADED)
    ensures slot == Index(now, 1) <==> due == now
    ensures due != now ==> SeatOk(now, slot, expires, due, SETTLED)
  {
    if slot >= TVR_SIZE {
      AheadMeansLater(now, expires, LevelOf(slot));
    }
  }

  lemma AheadMeansLater(now: nat, expires: nat, level: nat)
    requires 2 <= level <= 5 && expires / Unit(level) > now / Unit(level)
    ensures expires > now
  {
  }

  lemma DisarmRefines(w: Wheel, t: Timers, seats: Seats, n: Node)
    requires Refines(w, t, seats)
    ensures Refines(Disarm(w, n), DisarmTimer(t, n), seats - {n})
  {
    var r := Disarm(w, n);
    assert forall i: nat, m: Node :: 0 <= i < SLOTS && m in r.slots[i] ==> m in Members(w.slots[i]) - {n};
    forall m: Node | m in seats && m != n
      ensures m in r.slots[seats[m]]
    {
      assert m in Members(w.slots[seats[m]]) - {n};
    }
  }

  /** Arming places the timer where it will fire at `FireAt`. */
  lemma ArmRefines(w: Wheel, t: Timers, seats: Seats, n: Node, expires: nat) returns (after: Seats)
    requires Refines(w, t, seats) && expires < w.now + HORIZON
    ensures Refines(Arm(w, n, expires), ArmTimer(t, n, expires), after)
  {
    DisarmRefines(w, t, seats, n);
    ArmedSeat(w.now, expires);
    var v := Disarm(w, n);
    var due := ArmTimer(t, n, expires).due;
    PlaceKeepsInv(v.(expires := v.expires[n := expires]), due, seats - {n}, n, SETTLED);
    after := (seats - {n})[n := SlotOf(w.now, expires)];
  }
}
