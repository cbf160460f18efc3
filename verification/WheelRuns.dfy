// Whole runs of the timer wheel: what fires, and when.
module WheelRuns {
  import opened IntrusiveList
  import opened WheelModel
  import opened WheelRefinement

  datatype Op = ArmOp(node: Node, expires: nat) | DisarmOp(node: Node) | TickOp

  /** The nodes the wheel expires, tick by tick. */
  ghost function Fired(w: Wheel, ops: seq<Op>): seq<set<Node>>
    requires Known(w)
    decreases |ops|
  {
    if ops == [] then []
    else match ops[0]
      case ArmOp(n, expires) => Fired(Arm(w, n, expires), ops[1..])
      case DisarmOp(n) => Fired(Disarm(w, n), ops[1..])
      case TickOp => [Members(Tick(w).1)] + Fired(Tick(w).0, ops[1..])
  }

  /** The timers the specification expires, tick by tick. */
  ghost function FiredTimers(t: Timers, ops: seq<Op>): seq<set<Node>>
    decreases |ops|
  {
    if ops == [] then []
    else match ops[0]
      case ArmOp(n, expires) => FiredTimers(ArmTimer(t, n, expires), ops[1..])
      case DisarmOp(n) => FiredTimers(DisarmTimer(t, n), ops[1..])
      case TickOp => [TickTimers(t).1] + FiredTimers(TickTimers(t).0, ops[1..])
  }

  /** No timer is armed 2^32 ticks or more ahead. */
  predicate WithinHorizon(now: nat, ops: seq<Op>)
    decreases |ops|
  {
    ops == [] ||
    match ops[0]
    case ArmOp(_, expires) => expires < now + HORIZON && WithinHorizon(now, ops[1..])
    case DisarmOp(_) => WithinHorizon(now, ops[1..])
    case TickOp => WithinHorizon(now + 1, ops[1..])
  }

  lemma {:induction false} RunRefines(w: Wheel, t: Timers, seats: Seats, ops: seq<Op>)
    requires Refines(w, t, seats) && WithinHorizon(w.now, ops)
    ensures Fired(w, ops) == FiredTimers(t, ops)
    decreases |ops|
  {
    if ops != [] {
      match ops[0]
      case ArmOp(n, expires) =>
        var after := ArmRefines(w, t, seats, n, expires);
        RunRefines(Arm(w, n, expires), ArmTimer(t, n, expires), after, ops[1..]);
      case DisarmOp(n) =>
        DisarmRefines(w, t, seats, n);
        RunRefines(Disarm(w, n), DisarmTimer(t, n), seats - {n}, ops[1..]);
      case TickOp =>
        var after := TickRefines(w, t, seats);
        RunRefines(Tick(w).0, TickTimers(t).0, after, ops[1..]);
    }
  }

  /** In every run from an idle wheel, each tick expires exactly the timers that are due. */
  lemma WheelRefinesTimers(now: nat, ops: seq<Op>)
    requires WithinHorizon(now, ops)
    ensures Fired(Idle(now), ops) == FiredTimers(Timers(now, map[]), ops)
  {
    RunRefines(Idle(now), Timers(now, map[]), map[], ops);
  }

  // ---- one timer in a run ----------------------------------------------

  predicate Untouched(n: Node, ops: seq<Op>) {
    forall i :: 0 <= i < |ops| && !ops[i].TickOp? ==> ops[i].node != n
  }

  lemma {:induction false} UnarmedIsSilent(t: Timers, n: Node, ops: seq<Op>)
    requires n !in t.due && Untouched(n, ops)
    ensures forall k :: 0 <= k < |FiredTimers(t, ops)| ==> n !in FiredTimers(t, ops)[k]
    decreases |ops|
  {
    if ops != [] {
      match ops[0]
      case ArmOp(m, expires) => UnarmedIsSilent(ArmTimer(t, m, expires), n, ops[1..]);
      case DisarmOp(m) => UnarmedIsSilent(DisarmTimer(t, m), n, ops[1..]);
      case TickOp => UnarmedIsSilent(TickTimers(t).0, n, ops[1..]);
    }
  }

  /** The k-th tick of a run expires an untouched timer exactly when it is the due tick. */
  ghost predicate FiresOnlyAt(fired: seq<set<Node>>, n: Node, now: nat, tick: nat) {
    forall k :: 0 <= k < |fired| ==> (n in fired[k] <==> now + k + 1 == tick)
  }

  lemma {:induction false} DueTimerFires(t: Timers, n: Node, ops: seq<Op>)
    requires n in t.due && t.due[n] > t.now && Untouched(n, ops)
    ensures FiresOnlyAt(FiredTimers(t, ops), n, t.now, t.due[n])
    decreases |ops|
  {
    if ops != [] {
      match ops[0]
      case ArmOp(m, expires) => DueTimerFires(ArmTimer(t, m, expires), n, ops[1..]);
      case DisarmOp(m) => DueTimerFires(DisarmTimer(t, m), n, ops[1..]);
      case TickOp =>
        if t.due[n] == t.now + 1 {
          UnarmedIsSilent(TickTimers(t).0, n, ops[1..]);
        } else {
          DueTimerFires(TickTimers(t).0, n, ops[1..]);
        }
    }
  }

  ghost function After(w: Wheel, ops: seq<Op>): (r: Wheel)
    requires Known(w)
    ensures Known(r)
    decreases |ops|
  {
    if ops == [] then w
    else match ops[0]
      case ArmOp(n, expires) => After(Arm(w, n, expires), ops[1..])
      case DisarmOp(n) => After(Disarm(w, n), ops[1..])
      case TickOp => After(Tick(w).0, ops[1..])
  }

  /** Every reachable wheel refines some set of timers: each pending node sits in exactly one, right slot. */
  lemma {:induction false} ReachableRefines(w: Wheel, t: Timers, seats: Seats, ops: seq<Op>)
    returns (t': Timers, seats': Seats)
    requires Refines(w, t, seats) && WithinHorizon(w.now, ops)
    ensures Refines(After(w, ops), t', seats')
    decreases |ops|
  {
    if ops == [] {
      t', seats' := t, seats;
    } else {
      match ops[0]
      case ArmOp(n, expires) =>
        var after := ArmRefines(w, t, seats, n, expires);
        t', seats' := ReachableRefines(Arm(w, n, expires), ArmTimer(t, n, expires), after, ops[1..]);
      case DisarmOp(n) =>
        DisarmRefines(w, t, seats, n);
        t', seats' := ReachableRefines(Disarm(w, n), DisarmTimer(t, n), seats - {n}, ops[1..]);
      case TickOp =>
        var after := TickRefines(w, t, seats);
        t', seats' := ReachableRefines(Tick(w).0, TickTimers(t).0, after, ops[1..]);
    }
  }

  /** In every reachable wheel a node sits in one slot only; above level 1 its block is 1 to 64 blocks ahead. */
  lemma ReachableSlots(start: nat, ops: seq<Op>, i: nat, n: Node)
    requires WithinHorizon(start, ops)
    requires i < SLOTS && n in After(Idle(start), ops).slots[i]
    ensures var w := After(Idle(start), ops);
            && (forall j :: 0 <= j < SLOTS && n in w.slots[j] ==> j == i)
            && Distinct(w.slots[i])
            && (i >= TVR_SIZE ==>
                  var u := Unit(LevelOf(i));
                  && 1 <= w.expires[n] / u - w.now / u <= TVN_SIZE
                  && i == Base(LevelOf(i)) + (w.expires[n] / u) % TVN_SIZE)
  {
    var t, seats := ReachableRefines(Idle(start), Timers(start, map[]), map[], ops);
    var w := After(Idle(start), ops);
    assert SeatOk(w.now, seats[n], w.expires[n], t.due[n], SETTLED);
    assert Distinct(w.slots[i]);
  }

  /** In every run, a timer armed and then left alone fires exactly once, at `FireAt`. */
  lemma ArmedTimerFiresOnce(start: nat, before: seq<Op>, n: Node, expires: nat, later: seq<Op>)
    requires WithinHorizon(start, before)
    requires WithinHorizon(After(Idle(start), before).now, [ArmOp(n, expires)] + later)
    requires Untouched(n, later)
    ensures var w := After(Idle(start), before);
            FiresOnlyAt(Fired(Arm(w, n, expires), later), n, w.now, FireAt(w.now, expires))
  {
    var w := After(Idle(start), before);
    var t, seats := ReachableRefines(Idle(start), Timers(start, map[]), map[], before);
    var after := ArmRefines(w, t, seats, n, expires);
    RunRefines(Arm(w, n, expires), ArmTimer(t, n, expires), after, later);
    DueTimerFires(ArmTimer(t, n, expires), n, later);
  }

  /** Never early; never more than one tick late; late exactly for a cascaded multiple of 256. */
  lemma FireAtIsTight(now: nat, expires: nat)
    ensures FireAt(now, expires) > now
    ensures expires > now ==> expires <= FireAt(now, expires) <= expires + 1
    ensures expires > now ==>
              (FireAt(now, expires) == expires + 1 <==> expires - now >= TVR_SIZE && expires % TVR_SIZE == 0)
    ensures expires <= now ==> FireAt(now, expires) == now + 1
  {
  }

  // ---- a periodic timer in a run ---------------------------------------

  /** A run around one periodic timer: what happens to other timers, ticks, and the end of its callback. */
  datatype Around = Other(op: Op) | Done

  /** One expiry: its tick, the tick at which the timer was armed for it, and the deadline it was armed for. */
  datatype Firing = Firing(tick: nat, armedAt: nat, deadline: nat)

  predicate LeavesAlone(n: Node, now: nat, ops: seq<Around>)
    decreases |ops|
  {
    ops == [] ||
    match ops[0]
    case Done => LeavesAlone(n, now, ops[1..])
    case Other(ArmOp(m, expires)) => m != n && expires < now + HORIZON && LeavesAlone(n, now, ops[1..])
    case Other(DisarmOp(m)) => m != n && LeavesAlone(n, now, ops[1..])
    case Other(TickOp) => LeavesAlone(n, now + 1, ops[1..])
  }

  /**
   * The expiries of a periodic timer on the wheel.  When its callback is done the timer is armed
   * one period after its last deadline, unless it is armed already.
   */
  ghost function Expiries(w: Wheel, n: Node, armed: bool, at: nat, deadline: nat, period: nat, ops: seq<Around>): seq<Firing>
    requires Known(w)
    decreases |ops|
  {
    if ops == [] then []
    else match ops[0]
      case Done =>
        if armed then Expiries(w, n, armed, at, deadline, period, ops[1..])
        else Expiries(Arm(w, n, deadline + period), n, true, w.now, deadline + period, period, ops[1..])
      case Other(ArmOp(m, expires)) => Expiries(Arm(w, m, expires), n, armed, at, deadline, period, ops[1..])
      case Other(DisarmOp(m)) => Expiries(Disarm(w, m), n, armed, at, deadline, period, ops[1..])
      case Other(TickOp) =>
        if n in Tick(w).1 then
          [Firing(Tick(w).0.now, at, deadline)] + Expiries(Tick(w).0, n, false, at, deadline, period, ops[1..])
        else Expiries(Tick(w).0, n, armed, at, deadline, period, ops[1..])
  }

  /** The expiries by deadline alone: at the tick `FireAt` of the arming, for as often as it is armed. */
  function ExpiriesDue(now: nat, armed: bool, at: nat, deadline: nat, period: nat, ops: seq<Around>): seq<Firing>
    decreases |ops|
  {
    if ops == [] then []
    else match ops[0]
      case Done =>
        if armed then ExpiriesDue(now, armed, at, deadline, period, ops[1..])
        else ExpiriesDue(now, true, now, deadline + period, period, ops[1..])
      case Other(TickOp) =>
        if armed && FireAt(at, deadline) == now + 1 then
          [Firing(now + 1, at, deadline)] + ExpiriesDue(now + 1, false, at, deadline, period, ops[1..])
        else ExpiriesDue(now + 1, armed, at, deadline, period, ops[1..])
      case Other(_) => ExpiriesDue(now, armed, at, deadline, period, ops[1..])
  }

  /** The timer is armed on the wheel, to expire at its due tick, or it is not there and its deadline has passed. */
  ghost predicate Tracked(w: Wheel, t: Timers, seats: Seats, n: Node, armed: bool, at: nat, deadline: nat) {
    && Refines(w, t, seats)
    && if armed then n in t.due && t.due[n] == FireAt(at, deadline) > t.now else n !in t.due && deadline <= t.now
  }

  lemma TrackTick(w: Wheel, t: Timers, seats: Seats, n: Node, armed: bool, at: nat, deadline: nat) returns (after: Seats)
    requires Tracked(w, t, seats, n, armed, at, deadline)
    ensures var fires := armed && FireAt(at, deadline) == w.now + 1;
            && (n in Tick(w).1 <==> fires) && Tick(w).0.now == w.now + 1
            && Tracked(Tick(w).0, TickTimers(t).0, after, n, armed && !fires, at, deadline)
  {
    after := TickRefines(w, t, seats);
    assert n in Tick(w).1 <==> n in Members(Tick(w).1);
  }

  lemma TrackDone(w: Wheel, t: Timers, seats: Seats, n: Node, at: nat, deadline: nat, period: nat) returns (after: Seats)
    requires Tracked(w, t, seats, n, false, at, deadline) && period < HORIZON
    ensures var next := deadline + period;
            Arm(w, n, next).now == w.now && Tracked(Arm(w, n, next), ArmTimer(t, n, next), after, n, true, w.now, next)
  {
    after := ArmRefines(w, t, seats, n, deadline + period);
  }

  lemma TrackOther(w: Wheel, t: Timers, seats: Seats, n: Node, armed: bool, at: nat, deadline: nat, op: Op)
    returns (v: Wheel, u: Timers, after: Seats)
    requires Tracked(w, t, seats, n, armed, at, deadline) && !op.TickOp? && op.node != n
    requires op.ArmOp? ==> op.expires < w.now + HORIZON
    ensures v == (if op.ArmOp? then Arm(w, op.node, op.expires) else Disarm(w, op.node))
    ensures v.now == w.now && Tracked(v, u, after, n, armed, at, deadline)
  {
    if op.ArmOp? {
      after := ArmRefines(w, t, seats, op.node, op.expires);
      v, u := Arm(w, op.node, op.expires), ArmTimer(t, op.node, op.expires);
    } else {
      DisarmRefines(w, t, seats, op.node);
      v, u, after := Disarm(w, op.node), DisarmTimer(t, op.node), seats - {op.node};
    }
  }

  lemma {:induction false} ExpiriesAreDue(w: Wheel, t: Timers, seats: Seats, n: Node, armed: bool,
                                          at: nat, deadline: nat, period: nat, ops: seq<Around>)
    requires Tracked(w, t, seats, n, armed, at, deadline) && period < HORIZON && LeavesAlone(n, w.now, ops)
    ensures Expiries(w, n, armed, at, deadline, period, ops) == ExpiriesDue(w.now, armed, at, deadline, period, ops)
    decreases |ops|
  {
    if ops != [] {
      match ops[0]
      case Done =>
        if armed {
          ExpiriesAreDue(w, t, seats, n, armed, at, deadline, period, ops[1..]);
        } else {
          var next := deadline + period;
          var after := TrackDone(w, t, seats, n, at, deadline, period);
          ExpiriesAreDue(Arm(w, n, next), ArmTimer(t, n, next), after, n, true, w.now, next, period, ops[1..]);
        }
      case Other(op) =>
        if op.TickOp? {
          var after := TrackTick(w, t, seats, n, armed, at, deadline);
          var fires := armed && FireAt(at, deadline) == w.now + 1;
          ExpiriesAreDue(Tick(w).0, TickTimers(t).0, after, n, armed && !fires, at, deadline, period, ops[1..]);
        } else {
          var v, u, after := TrackOther(w, t, seats, n, armed, at, deadline, op);
          ExpiriesAreDue(v, u, after, n, armed, at, deadline, period, ops[1..]);
        }
    }
  }

  lemma {:induction false} DeadlinesStep(now: nat, armed: bool, at: nat, deadline: nat, period: nat, ops: seq<Around>, i: nat)
    requires i < |ExpiriesDue(now, armed, at, deadline, period, ops)|
    ensures var f := ExpiriesDue(now, armed, at, deadline, period, ops)[i];
            && f.deadline == deadline + (if armed then i else i + 1) * period
            && f.tick == FireAt(f.armedAt, f.deadline)
    decreases |ops|
  {
    match ops[0]
    case Done =>
      if armed {
        DeadlinesStep(now, armed, at, deadline, period, ops[1..], i);
      } else {
        DeadlinesStep(now, true, now, deadline + period, period, ops[1..], i);
        assert (i + 1) * period == i * period + period;
      }
    case Other(TickOp) =>
      if armed && FireAt(at, deadline) == now + 1 {
        if i > 0 {
          DeadlinesStep(now + 1, false, at, deadline, period, ops[1..], i - 1);
        }
      } else {
        DeadlinesStep(now + 1, armed, at, deadline, period, ops[1..], i);
      }
    case Other(_) => DeadlinesStep(now, armed, at, deadline, period, ops[1..], i);
  }

  /**
   * In every run, a periodic timer armed on a reachable wheel expires exactly at the ticks its
   * deadlines demand, and its i-th deadline is i periods after the first, however late its callbacks
   * end: lateness does not accumulate.  An expiry armed before its deadline is at most one tick late.
   */
  lemma PeriodicTimerDoesNotDrift(start: nat, before: seq<Op>, n: Node, expires: nat, period: nat, ops: seq<Around>)
    requires WithinHorizon(start, before) && 0 < period < HORIZON
    requires var now := After(Idle(start), before).now; expires < now + HORIZON && LeavesAlone(n, now, ops)
    ensures var w := After(Idle(start), before);
            var log := Expiries(Arm(w, n, expires), n, true, w.now, expires, period, ops);
            && log == ExpiriesDue(w.now, true, w.now, expires, period, ops)
            && forall i :: 0 <= i < |log| ==>
                 && log[i].deadline == expires + i * period
                 && log[i].tick == FireAt(log[i].armedAt, log[i].deadline)
                 && (log[i].armedAt < log[i].deadline ==> log[i].deadline <= log[i].tick <= log[i].deadline + 1)
  {
    var w := After(Idle(start), before);
    var t, seats := ReachableRefines(Idle(start), Timers(start, map[]), map[], before);
    var after := ArmRefines(w, t, seats, n, expires);
    ExpiriesAreDue(Arm(w, n, expires), ArmTimer(t, n, expires), after, n, true, w.now, expires, period, ops);
    var log := ExpiriesDue(w.now, true, w.now, expires, period, ops);
    forall i | 0 <= i < |log|
      ensures log[i].deadline == expires + i * period && log[i].tick == FireAt(log[i].armedAt, log[i].deadline)
    {
      DeadlinesStep(w.now, true, w.now, expires, period, ops, i);
    }
  }
}
