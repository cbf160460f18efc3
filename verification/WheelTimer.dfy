// The timer wheel in place: slot lists relinked under the wheel's lock.
//
// Every locked section of the source is one method.  The ghost field `model`
// is the value-level wheel; `seats` says which slot each linked node is in.
module WheelTimer {
  import opened Common
  import opened IntrusiveList
  import opened WheelModel
  import opened WheelRefinement

  const OK: int := 0
  const NOT_PENDING: int := 1
  const EINVAL: int := -22
  const EEXIST: int := -17
  const ESHUTDOWN: int := -108

  /** Ticks for a delay: rounded up. */
  function TicksFor(ms: nat, tickMs: nat): nat
    requires tickMs > 0
  {
    ms / tickMs + if ms > 0 && ms % tickMs != 0 then 1 else 0
  }

  /** Ticks of a period: truncated, but at least one. */
  function PeriodFor(ms: nat, tickMs: nat): (period: nat)
    requires tickMs > 0
    ensures period > 0
  {
    if ms / tickMs == 0 then 1 else ms / tickMs
  }

  /** The period is the greatest number of ticks within the time asked for, or one tick when there is none. */
  lemma PeriodFitsTime(ms: nat, tickMs: nat)
    requires tickMs > 0
    ensures ms >= tickMs ==> PeriodFor(ms, tickMs) * tickMs <= ms < (PeriodFor(ms, tickMs) + 1) * tickMs
    ensures ms < tickMs ==> PeriodFor(ms, tickMs) == 1
  {
    var q, r := ms / tickMs, ms % tickMs;
    QuotientAndRemainder(ms, tickMs, q, r);
    assert (q + 1) * tickMs == q * tickMs + tickMs;
    if ms >= tickMs {
      assert q > 0;
    }
  }

  /** The least number of ticks that covers the delay. */
  lemma TicksCoverDelay(ms: nat, tickMs: nat)
    requires tickMs > 0
    ensures ms <= TicksFor(ms, tickMs) * tickMs < ms + tickMs
    ensures TicksFor(ms, tickMs) <= ms
  {
    var q, r := ms / tickMs, ms % tickMs;
    QuotientAndRemainder(ms, tickMs, q, r);
    if ms > 0 && r != 0 {
      assert TicksFor(ms, tickMs) == q + 1;
      assert (q + 1) * tickMs == q * tickMs + tickMs;
    }
  }

  lemma QuotientAndRemainder(n: nat, d: nat, q: nat, r: nat)
    requires d > 0 && q == n / d && r == n % d
    ensures n == q * d + r && q <= q * d
  {
    assert n == d * q + r;
    ScaleUp(q, d);
  }

  lemma ScaleUp(q: nat, d: nat)
    requires d > 0
    ensures q <= q * d && q * d == d * q
  {
  }

  class TimerWheel {
    const tickMs: nat
    const heads: seq<Node>
    const expiredList: Node
    var jiffies: nat
    var running: bool
    ghost var model: Wheel
    ghost var seats: Seats
    ghost var expired: seq<Node>

    ghost function Heads(): set<Node> {
      Members(heads) + {expiredList}
    }

    ghost function Linked(): set<Node>
      reads `seats, `expired
    {
      seats.Keys + Members(expired)
    }

    /** No node is in two lists, and no list head is in a list. */
    ghost predicate Tidy(w: Wheel, at: Seats, gone: seq<Node>) {
      && |heads| == SLOTS && Seated(w, at) && Apart(heads, w.slots)
      && Inhabitants(w.slots) == at.Keys
      && expiredList !in heads
      && Heads() !! at.Keys && Heads() !! Members(gone) && at.Keys !! Members(gone)
    }

    lemma PlaceKeepsTidy(w: Wheel, at: Seats, gone: seq<Node>, n: Node)
      requires Tidy(w, at, gone) && n in w.expires
      requires n !in at && n !in gone && n !in Heads()
      ensures Tidy(Place(w, n), at[n := SlotOf(w.now, w.expires[n])], gone)
    {
      PlaceSeats(w, at, n);
      AppendKeepsApart(heads, w.slots, SlotOf(w.now, w.expires[n]), n);
    }

    /** Every slot is a ring of its own; so is the list of expired nodes. */
    ghost predicate Woven()
      reads `model, `seats, `expired
      reads (Heads() + seats.Keys + Members(expired))`next
      reads (Heads() + seats.Keys + Members(expired))`prev
    {
      && Tidy(model, seats, expired)
      && Forest(heads, model.slots)
      && Ring(expiredList, expired)
    }

    /** The fields of the linked nodes agree with the model. */
    ghost predicate Stamped()
      requires seats.Keys <= model.expires.Keys
      reads `model, `seats, `expired, `jiffies
      reads (seats.Keys + Members(expired))`pending, seats.Keys`expires, seats.Keys`wheel
    {
      && tickMs > 0 && model.now == jiffies
      && (forall n: Node :: n in seats ==> n.pending && n.expires == model.expires[n] && n.wheel == this)
      && (forall n: Node :: n in expired ==> !n.pending)
    }

    /** The fields agree with the model except for one node, which is on its way out. */
    ghost predicate StampedBut(out: Node)
      requires seats.Keys <= model.expires.Keys
      reads `model, `seats, `expired, `jiffies
      reads (seats.Keys + Members(expired))`pending, seats.Keys`expires, seats.Keys`wheel
    {
      && tickMs > 0 && model.now == jiffies
      && (forall n: Node :: n in seats && n != out ==> n.pending && n.expires == model.expires[n] && n.wheel == this)
      && (forall n: Node :: n in expired ==> !n.pending)
    }

    ghost predicate Structured()
      reads this, Heads(), Linked()
    {
      Woven() && Stamped()
    }

    constructor (tick: nat)
      requires tick > 0
      ensures Structured() && fresh(Heads()) && Linked() == {}
      ensures tickMs == tick && running && model == Idle(0)
    {
      tickMs := tick;
      var lists: seq<Node> := [];
      while |lists| < SLOTS
        invariant |lists| <= SLOTS && Distinct(lists)
        invariant forall i :: 0 <= i < |lists| ==> fresh(lists[i]) && Ring(lists[i], [])
      {
        var head := new Node();
        lists := lists + [head];
      }
      heads := lists;
      expiredList := new Node();
      jiffies, running := 0, true;
      model, seats, expired := Idle(0), map[], [];
    }

    method Link(node: Node, slot: nat)
      requires Woven() && node !in Heads() && node !in Linked()
      requires node in model.expires && slot == SlotOf(model.now, model.expires[node])
      modifies this`model, this`seats
      modifies (Heads() + seats.Keys + {node})`next, (Heads() + seats.Keys + {node})`prev
      ensures Woven()
      ensures model == Place(old(model), node)
      ensures seats == old(seats)[node := slot]
    {
      ghost var w, at := model, seats;
      assert node !in Inhabitants(w.slots) && Members(heads) <= Heads();
      ForestAddTail(node, heads, w.slots, slot);
      assert Ring(expiredList, expired);
      PlaceKeepsTidy(w, at, expired, node);
      model := Place(w, node);
      seats := at[node := slot];
    }

    /** A list head on the stack of the caller. */
    method LocalList() returns (list: Node)
      requires Structured()
      ensures Structured()
      ensures fresh(list) && Ring(list, []) && list !in Heads() && list !in Linked()
    {
      list := new Node();
    }

    method Splice(slot: nat, list: Node)
      requires Woven() && slot < SLOTS
      requires Ring(list, []) && list !in Heads() && list !in Linked()
      modifies this`model, this`seats
      modifies (Heads() + seats.Keys + {list})`next, (Heads() + seats.Keys + {list})`prev
      ensures Woven() && Ring(list, old(model.slots[slot]))
      ensures Members(old(model.slots[slot])) <= old(seats.Keys)
      ensures model == Emptied(old(model), slot)
      ensures seats == old(seats) - Members(old(model.slots[slot]))
    {
      ghost var w, at := model, seats;
      assert list !in Inhabitants(w.slots) && Members(heads) <= Heads();
      ForestSplice(heads, w.slots, slot, list);
      assert Ring(expiredList, expired);
      EmptyUnseats(w, at, slot);
      ShrinkKeepsApart(heads, w.slots, slot, []);
      model := Emptied(w, slot);
      seats := at - Members(w.slots[slot]);
    }

    method Unslot(slot: nat, list: Node)
      requires Structured() && slot < SLOTS
      requires Ring(list, []) && list !in Heads() && list !in Linked()
      modifies this`model, this`seats
      modifies (Heads() + seats.Keys + {list})`next, (Heads() + seats.Keys + {list})`prev
      ensures Structured() && Ring(list, old(model.slots[slot])) && Members(old(model.slots[slot])) <= old(seats.Keys)
      ensures model == Emptied(old(model), slot)
      ensures seats == old(seats) - Members(old(model.slots[slot]))
    {
      Splice(slot, list);
    }

    /** Moves a whole slot onto an empty list outside the wheel. */
    method Detach(slot: nat, list: Node)
      requires Structured() && slot < SLOTS
      requires Ring(list, []) && list !in Heads() && list !in Linked()
      modifies this`model, this`seats
      modifies (Heads() + seats.Keys + {list})`next, (Heads() + seats.Keys + {list})`prev
      ensures Replacing(list, old(model.slots[slot]), 0, model, seats.Keys)
      ensures Members(old(model.slots[slot])) <= old(seats.Keys)
      ensures model == Emptied(old(model), slot)
      ensures seats == old(seats) - Members(old(model.slots[slot]))
    {
      ghost var ns := model.slots[slot];
      Unslot(slot, list);
      forall n: Node | n in ns
        ensures n in old(seats) && n !in Heads() && n !in seats && n !in expired
      {
        assert n in Members(ns);
      }
      assert Members(ns[..0]) == {};
    }

    /** Appends a node to the slot of its expiry. */
    method InternalAdd(node: Node)
      requires Structured() && node !in Heads() && node !in Linked()
      requires node in model.expires && node.expires == model.expires[node] && node.wheel == this
      modifies this`model, this`seats
      modifies (Heads() + seats.Keys + {node})`next, (Heads() + seats.Keys + {node})`prev, node`pending
      ensures Structured()
      ensures model == Place(old(model), node)
      ensures seats == old(seats)[node := SlotOf(jiffies, node.expires)]
    {
      var slot := SlotOf(jiffies, node.expires);
      Link(node, slot);
      node.pending := true;
    }

    /** The nodes of `ns` from index k on are chained off a local list and wait to be placed again. */
    ghost predicate Detached(list: Node, ns: seq<Node>, k: nat)
      requires k <= |ns|
      reads `model, `seats, `expired, ({list} + Members(ns))`next, Members(ns)`expires, Members(ns)`wheel
    {
      && Distinct(ns) && list !in ns && list !in Heads() && list !in Linked()
      && list.next == At(list, ns, 0)
      && (forall j {:trigger ns[j].next} :: k <= j < |ns| ==> ns[j].next == At(list, ns, j + 1))
      && (forall j {:trigger ns[j]} :: k <= j < |ns| ==>
            && ns[j] !in Heads() && ns[j] !in seats && ns[j] !in expired
            && ns[j] in model.expires && ns[j].expires == model.expires[ns[j]] && ns[j].wheel == this)
    }

    /** The first k nodes of a detached list are placed again, the others still wait. */
    ghost predicate Replacing(list: Node, ns: seq<Node>, k: nat, w: Wheel, at: set<Node>)
      requires k <= |ns|
      reads this, Heads(), Linked(), {list} + Members(ns)
    {
      && Structured() && Detached(list, ns, k)
      && Known(w) && (forall n: Node :: n in ns ==> n in w.expires)
      && model == PlaceAll(w, ns[..k])
      && seats.Keys == at + Members(ns[..k])
    }

    /** One round of a cascade: the detached node at k goes to its slot. */
    method PlaceDetached(pos: Node, ghost list: Node, ghost ns: seq<Node>, ghost k: nat, ghost w: Wheel, ghost at: set<Node>)
      requires k < |ns| && pos == ns[k] && Replacing(list, ns, k, w, at)
      modifies this`model, this`seats
      modifies (Heads() + at + Members(ns))`next, (Heads() + at + Members(ns))`prev, Members(ns)`pending
      ensures Replacing(list, ns, k + 1, w, at)
    {
      assert pos in Members(ns) && Members(ns[..k]) <= Members(ns);
      NextPrefix(ns, k);
      assert PlaceAll(w, ns[..k + 1]) == Place(model, pos);
      hide Structured, Detached, PlaceAll, WheelModel.Place, Known;
      PlaceWaiting(pos, list, ns, k, at);
    }

    method PlaceWaiting(pos: Node, ghost list: Node, ghost ns: seq<Node>, ghost k: nat, ghost at: set<Node>)
      requires k < |ns| && pos == ns[k] && Structured() && Detached(list, ns, k)
      requires seats.Keys <= at + Members(ns)
      modifies this`model, this`seats
      modifies (Heads() + at + Members(ns))`next, (Heads() + at + Members(ns))`prev, Members(ns)`pending
      ensures Structured() && Detached(list, ns, k + 1)
      ensures model == Place(old(model), pos) && seats.Keys == old(seats.Keys) + {pos}
    {
      InternalAdd(pos);
    }

    static lemma NextPrefix(ns: seq<Node>, k: nat)
      requires k < |ns|
      ensures ns[..k + 1][..k] == ns[..k] && Members(ns[..k + 1]) == Members(ns[..k]) + {ns[k]}
    {
    }

    /** Walks a detached list, saving the next node first, and places every node again. */
    method PlaceList(list: Node, ghost ns: seq<Node>)
      requires Replacing(list, ns, 0, model, seats.Keys)
      modifies this`model, this`seats
      modifies (Heads() + seats.Keys + Members(ns))`next, (Heads() + seats.Keys + Members(ns))`prev, Members(ns)`pending
      ensures Structured()
      ensures model == PlaceAll(old(model), ns)
      ensures seats.Keys == old(seats.Keys) + Members(ns)
    {
      ghost var w, at := model, seats.Keys;
      var pos := list.next;
      ghost var k := 0;
      while pos != list
        invariant 0 <= k <= |ns| && pos == At(list, ns, k)
        invariant Replacing(list, ns, k, w, at)
        decreases |ns| - k
      {
        var tmp := pos.next;
        PlaceDetached(pos, list, ns, k, w, at);
        k := k + 1;
        pos := tmp;
      }
      assert ns[..k] == ns;
    }

    method Recycle(slot: nat, list: Node)
      requires Structured() && slot < SLOTS
      requires Ring(list, []) && list !in Heads() && list !in Linked()
      modifies this`model, this`seats, seats.Keys`pending
      modifies (Heads() + seats.Keys + {list})`next, (Heads() + seats.Keys + {list})`prev
      ensures Structured() && seats.Keys == old(seats.Keys)
      ensures model == PlaceAll(Emptied(old(model), slot), old(model.slots[slot]))
    {
      ghost var ns := model.slots[slot];
      Detach(slot, list);
      PlaceList(list, ns);
    }

    /** Empties one slot onto a local list and places its nodes again. */
    method Cascade(level: nat) returns (index: nat)
      requires Structured() && 2 <= level <= 5
      modifies this`model, this`seats
      modifies (Heads() + seats.Keys)`next, (Heads() + seats.Keys)`prev, seats.Keys`pending
      ensures Structured() && seats.Keys == old(seats.Keys)
      ensures model == WheelModel.Cascade(old(model), level)
      ensures index == Index(jiffies, level)
    {
      index := Index(jiffies, level);
      var list := LocalList();
      Recycle(Base(level) + index, list);
    }

    method CountUp()
      requires Structured()
      modifies `jiffies, `model
      ensures Structured()
      ensures model == old(model).(now := old(model).now + 1)
    {
      jiffies := jiffies + 1;
      model := model.(now := jiffies);
    }

    /** Cascades level 2, and each further level while the index below it is 0. */
    method CascadeDue()
      requires Structured()
      modifies `model, `seats
      modifies (Heads() + seats.Keys)`next, (Heads() + seats.Keys)`prev, seats.Keys`pending
      ensures Structured() && seats.Keys == old(seats.Keys)
      ensures model == CascadeFrom(old(model), 2)
    {
      CascadeLevels(model);
      var index := Cascade(2);
      if index == 0 {
        index := Cascade(3);
        if index == 0 {
          index := Cascade(4);
          if index == 0 {
            index := Cascade(5);
          }
        }
      }
    }

    method Advance()
      requires Structured()
      modifies `jiffies, `model, `seats
      modifies (Heads() + seats.Keys)`next, (Heads() + seats.Keys)`prev, seats.Keys`pending
      ensures Structured() && seats.Keys == old(seats.Keys)
      ensures model == WheelModel.Advance(old(model))
    {
      CountUp();
      if Index(jiffies, 1) == 0 {
        CascadeDue();
      }
    }

    static lemma CascadeLevels(v: Wheel)
      requires Known(v)
      ensures var v2 := WheelModel.Cascade(v, 2);
              var v3 := WheelModel.Cascade(v2, 3);
              var v4 := WheelModel.Cascade(v3, 4);
              var v5 := WheelModel.Cascade(v4, 5);
              CascadeFrom(v, 2) ==
              if Index(v.now, 2) != 0 then v2
              else if Index(v.now, 3) != 0 then v3
              else if Index(v.now, 4) != 0 then v4 else v5
    {
      var v2 := WheelModel.Cascade(v, 2);
      var v3 := WheelModel.Cascade(v2, 3);
      var v4 := WheelModel.Cascade(v3, 4);
      assert CascadeFrom(v4, 5) == WheelModel.Cascade(v4, 5);
      assert CascadeFrom(v3, 4) == if Index(v.now, 4) == 0 then CascadeFrom(v4, 5) else v4;
      assert CascadeFrom(v2, 3) == if Index(v.now, 3) == 0 then CascadeFrom(v3, 4) else v3;
    }

    lemma DropKeepsTidy(w: Wheel, at: Seats, gone: seq<Node>, slot: nat)
      requires Tidy(w, at, gone) && slot < SLOTS && w.slots[slot] != []
      ensures var n := w.slots[slot][0];
              n in at && Tidy(w.(slots := w.slots[slot := w.slots[slot][1..]]), at - {n}, gone)
    {
      assert w.slots[slot][0] in w.slots[slot];
      DropFirst(w, at, slot);
      ShrinkKeepsApart(heads, w.slots, slot, w.slots[slot][1..]);
      var r := w.slots[slot := w.slots[slot][1..]];
      assert Seated(w.(slots := r), at - {w.slots[slot][0]});
    }

    /** A list that shares no node with the wheel. */
    ghost predicate Outside(local: Node, done: seq<Node>)
      reads `seats, `expired
    {
      local !in Heads() && local !in Linked() && Members(done) !! Heads() + Linked()
    }

    method Relink(n: Node, ghost slot: nat, local: Node, ghost done: seq<Node>)
      requires Woven() && slot < SLOTS && model.slots[slot] != [] && n == model.slots[slot][0]
      requires Ring(local, done) && Outside(local, done)
      modifies (Heads() + seats.Keys + {local} + Members(done))`next
      modifies (Heads() + seats.Keys + {local} + Members(done))`prev
      ensures Forest(heads, model.slots[slot := model.slots[slot][1..]])
      ensures Ring(expiredList, expired) && Ring(local, done + [n])
    {
      assert Members(heads) <= Heads();
      ForestMoveFirst(n, heads, model.slots, slot, local, done);
      assert Ring(expiredList, expired);
    }

    method Unhook(n: Node, ghost slot: nat, local: Node, ghost done: seq<Node>)
      requires Woven() && slot < SLOTS && model.slots[slot] != [] && n == model.slots[slot][0]
      requires Ring(local, done) && Outside(local, done)
      modifies `model, `seats
      modifies (Heads() + seats.Keys + {local} + Members(done))`next
      modifies (Heads() + seats.Keys + {local} + Members(done))`prev
      ensures Woven() && Ring(local, done + [n]) && Outside(local, done + [n])
      ensures n in old(seats) && seats == old(seats) - {n}
      ensures model == old(model).(slots := old(model.slots)[slot := old(model.slots[slot])[1..]])
    {
      ghost var w, at := model, seats;
      DropKeepsTidy(w, at, expired, slot);
      assert Members(done + [n]) == Members(done) + {n};
      Relink(n, slot, local, done);
      model := w.(slots := w.slots[slot := w.slots[slot][1..]]);
      seats := at - {n};
    }

    /** Clears the flag of the first node of a slot. */
    method ClearPending(n: Node, ghost slot: nat, local: Node, ghost done: seq<Node>)
      requires Structured() && slot < SLOTS && model.slots[slot] != [] && n == model.slots[slot][0]
      requires Ring(local, done)
      modifies n`pending
      ensures Woven() && StampedBut(n) && Ring(local, done) && !n.pending
    {
      assert n in model.slots[slot];
      n.pending := false;
    }

    method UnhookUnstamped(n: Node, ghost slot: nat, local: Node, ghost done: seq<Node>)
      requires Woven() && StampedBut(n) && slot < SLOTS && model.slots[slot] != [] && n == model.slots[slot][0]
      requires Ring(local, done) && Outside(local, done)
      modifies `model, `seats
      modifies (Heads() + seats.Keys + {local} + Members(done))`next
      modifies (Heads() + seats.Keys + {local} + Members(done))`prev
      ensures Structured() && Ring(local, done + [n]) && Outside(local, done + [n])
      ensures n in old(seats) && seats == old(seats) - {n}
      ensures model == old(model).(slots := old(model.slots)[slot := old(model.slots[slot])[1..]])
    {
      Unhook(n, slot, local, done);
    }

    /** Moves the first node of a slot to a local list of expired nodes. */
    method ExpireFirst(n: Node, ghost slot: nat, local: Node, ghost done: seq<Node>)
      requires Structured() && slot < SLOTS && model.slots[slot] != [] && n == model.slots[slot][0]
      requires Ring(local, done) && Outside(local, done)
      modifies `model, `seats, n`pending
      modifies (Heads() + seats.Keys + {local} + Members(done))`next
      modifies (Heads() + seats.Keys + {local} + Members(done))`prev
      ensures Structured() && Ring(local, done + [n]) && Outside(local, done + [n]) && !n.pending
      ensures n in old(seats) && seats == old(seats) - {n}
      ensures model == old(model).(slots := old(model.slots)[slot := old(model.slots[slot])[1..]])
    {
      ClearPending(n, slot, local, done);
      UnhookUnstamped(n, slot, local, done);
    }

    static lemma DropFirst(w: Wheel, at: Seats, slot: nat)
      requires Seated(w, at) && slot < SLOTS && w.slots[slot] != []
      ensures Seated(w.(slots := w.slots[slot := w.slots[slot][1..]]), at - {w.slots[slot][0]})
    {
      var n := w.slots[slot][0];
      var r := w.(slots := w.slots[slot := w.slots[slot][1..]]);
      assert Distinct(w.slots[slot]);
      forall i | 0 <= i < SLOTS
        ensures Distinct(r.slots[i])
      {
        assert Distinct(w.slots[i]);
      }
      forall i: nat, m: Node {:trigger m in r.slots[i]} | 0 <= i < SLOTS && m in r.slots[i]
        ensures m in at - {n} && at[m] == i
      {
        assert m in w.slots[i];
        assert n in w.slots[slot];
      }
    }

    /** Of the nodes of a slot, `done` are on the local list and `rest` still in the slot. */
    ghost predicate Sweeping(slot: nat, local: Node, done: seq<Node>, rest: seq<Node>, w: Wheel, at: set<Node>)
      requires Known(w) && slot < SLOTS
      reads this, Heads(), Linked(), {local} + Members(done)
    {
      && Structured() && model == w.(slots := w.slots[slot := rest])
      && seats.Keys == at - Members(done) && Members(done) <= at
      && Ring(local, done) && Outside(local, done)
      && forall n: Node :: n in done ==> !n.pending
    }

    method SweepNext(n: Node, ghost slot: nat, local: Node, ghost done: seq<Node>, ghost rest: seq<Node>,
                     ghost w: Wheel, ghost at: set<Node>)
      returns (tmp: Node)
      requires Known(w) && slot < SLOTS && rest != [] && n == rest[0]
      requires Sweeping(slot, local, done, rest, w, at)
      modifies `model, `seats, n`pending
      modifies (Heads() + at + {local})`next, (Heads() + at + {local})`prev
      ensures Sweeping(slot, local, done + [n], rest[1..], w, at)
      ensures tmp == At(heads[slot], rest, 1) && (tmp == heads[slot] <==> |rest| == 1)
    {
      hide Woven, Stamped, Ring, Outside;
      NextInSlot(slot);
      tmp := n.next;
      assert Members(done + [n]) == Members(done) + {n};
      ExpireFirst(n, slot, local, done);
    }

    static lemma ShiftHead(done: seq<Node>, rest: seq<Node>)
      requires rest != []
      ensures done + [rest[0]] + rest[1..] == done + rest
    {
    }

    lemma NextInSlot(slot: nat)
      requires Structured() && slot < SLOTS && model.slots[slot] != []
      ensures var s := model.slots[slot];
              && s[0].next == At(heads[slot], s, 1) && s[0] in seats
              && (s[0].next == heads[slot] <==> |s| == 1)
    {
      assert Ring(heads[slot], model.slots[slot]);
      assert model.slots[slot][0] in model.slots[slot];
    }

    lemma StartSweep(slot: nat, local: Node)
      requires Structured() && slot < SLOTS
      requires Ring(local, []) && local !in Heads() && local !in Linked()
      ensures heads[slot].next == At(heads[slot], model.slots[slot], 0)
      ensures heads[slot].next == heads[slot] <==> model.slots[slot] == []
      ensures Sweeping(slot, local, [], model.slots[slot], model, seats.Keys)
    {
      assert model.slots[slot := model.slots[slot]] == model.slots;
      assert Ring(heads[slot], model.slots[slot]);
      assert Members([]) == {};
    }

    /** Empties the expiry slot onto a local list, clearing the pending flags. */
    method Sweep(slot: nat, local: Node)
      requires Structured() && slot < SLOTS
      requires Ring(local, []) && local !in Heads() && local !in Linked()
      modifies `model, `seats, seats.Keys`pending
      modifies (Heads() + seats.Keys + {local})`next, (Heads() + seats.Keys + {local})`prev
      ensures Sweeping(slot, local, old(model.slots[slot]), [], old(model), old(seats.Keys))
    {
      ghost var w, at, ns := model, seats.Keys, model.slots[slot];
      StartSweep(slot, local);
      var head := heads[slot];
      var pos: Node := head.next;
      ghost var done: seq<Node>, rest: seq<Node> := [], ns;
      while pos != head
        invariant done + rest == ns && Sweeping(slot, local, done, rest, w, at)
        invariant pos == At(head, rest, 0) && (pos == head <==> rest == [])
        decreases |rest|
      {
        NextInSlot(slot);
        var tmp := SweepNext(pos, slot, local, done, rest, w, at);
        ShiftHead(done, rest);
        done, rest := done + [pos], rest[1..];
        pos := tmp;
      }
      assert rest == [] && done == ns;
    }

    /** Hands the swept nodes to the workers: they go to the front of the expired list. */
    method Publish(slot: nat, local: Node, ghost ns: seq<Node>, ghost w: Wheel, ghost at: set<Node>)
      requires Known(w) && slot < SLOTS && Sweeping(slot, local, ns, [], w, at)
      modifies `expired, (Heads() + Linked() + {local} + Members(ns))`next, (Heads() + Linked() + {local} + Members(ns))`prev
      ensures Structured() && expired == ns + old(expired)
      ensures model == Emptied(w, slot) && seats.Keys == at - Members(ns)
    {
      ListSpliceInit(local, ns, expiredList, expired);
      assert Members(ns + expired) == Members(ns) + Members(expired);
      assert Forest(heads, model.slots);
      expired := ns + expired;
    }

    /** One tick: the wheel of the model ticks, and the expired nodes join the workers' list. */
    method Tick()
      requires Structured()
      modifies `jiffies, `model, `seats, `expired, seats.Keys`pending
      modifies (Heads() + Linked())`next, (Heads() + Linked())`prev
      ensures Structured()
      ensures model == WheelModel.Tick(old(model)).0
      ensures expired == WheelModel.Tick(old(model)).1 + old(expired)
    {
      Advance();
      var local := LocalList();
      SweepCurrent(local);
    }

    method SweepCurrent(local: Node)
      requires Structured()
      requires Ring(local, []) && local !in Heads() && local !in Linked()
      modifies `model, `seats, `expired, seats.Keys`pending
      modifies (Heads() + Linked() + {local})`next, (Heads() + Linked() + {local})`prev
      ensures Structured()
      ensures model == Emptied(old(model), Index(jiffies, 1))
      ensures expired == old(model.slots[Index(jiffies, 1)]) + old(expired)
    {
      var index := Index(jiffies, 1);
      ghost var w, at := model, seats.Keys;
      var empty := BucketEmpty(index);
      if empty {
        assert w.slots[index := []] == w.slots;
        assert [] + expired == expired;
      } else {
        Sweep(index, local);
        Publish(index, local, w.slots[index], w, at);
      }
    }

    method BucketEmpty(slot: nat) returns (empty: bool)
      requires Structured() && slot < SLOTS
      ensures Structured()
      ensures empty <==> model.slots[slot] == []
    {
      assert Ring(heads[slot], model.slots[slot]);
      empty := ListEmpty(heads[slot], model.slots[slot]);
    }

    // ---- arming and disarming -------------------------------------------

    static lemma DisarmAbsent(w: Wheel, at: Seats, n: Node)
      requires Seated(w, at) && n !in at
      ensures WheelModel.Disarm(w, n) == w
    {
      assert forall i :: 0 <= i < SLOTS ==> n !in w.slots[i];
    }

    static lemma {:induction false} UnslottedIsWithout(s: seq<Node>, k: nat)
      requires Distinct(s) && k < |s|
      ensures Unslotted(s, s[k]) == Without(s, k)
    {
      if k == 0 {
        assert s[0] !in s[1..];
      } else {
        UnslottedIsWithout(s[1..], k - 1);
        assert Without(s, k) == [s[0]] + Without(s[1..], k - 1);
      }
    }

    static lemma DisarmSeated(w: Wheel, at: Seats, n: Node, slot: nat, k: nat)
      requires Seated(w, at) && slot < SLOTS && k < |w.slots[slot]| && w.slots[slot][k] == n
      ensures WheelModel.Disarm(w, n) == w.(slots := w.slots[slot := Without(w.slots[slot], k)])
      ensures Seated(WheelModel.Disarm(w, n), at - {n})
    {
      assert n in w.slots[slot];
      assert Distinct(w.slots[slot]);
      UnslottedIsWithout(w.slots[slot], k);
      var r := WheelModel.Disarm(w, n);
      forall i | 0 <= i < SLOTS
        ensures Distinct(r.slots[i])
        ensures i != slot ==> r.slots[i] == w.slots[i]
      {
        assert Distinct(w.slots[i]);
      }
      forall i: nat, m: Node {:trigger m in r.slots[i]} | 0 <= i < SLOTS && m in r.slots[i]
        ensures m in w.slots[i] && m != n
      {
        assert m in Members(Unslotted(w.slots[i], n));
      }
      forall m: Node | m in at && m != n
        ensures m in r.slots[at[m]]
      {
        assert m in Members(w.slots[at[m]]) - {n};
      }
    }

    /** Unlinks a pending node. */
    method Remove(node: Node)
      requires Structured() && node in seats
      modifies `model, `seats
      modifies (Heads() + seats.Keys)`next, (Heads() + seats.Keys)`prev
      ensures Structured()
      ensures model == WheelModel.Disarm(old(model), node) && seats == old(seats) - {node}
    {
      Unseat(node);
    }

    method Unseat(node: Node)
      requires Woven() && node in seats
      modifies `model, `seats
      modifies (Heads() + seats.Keys)`next, (Heads() + seats.Keys)`prev
      ensures Woven()
      ensures model == WheelModel.Disarm(old(model), node) && seats == old(seats) - {node}
    {
      ghost var w, at, slot := model, seats, seats[node];
      assert node in w.slots[slot];
      ghost var k :| 0 <= k < |w.slots[slot]| && w.slots[slot][k] == node;
      DisarmKeepsTidy(w, at, expired, node, slot, k);
      RelinkWithout(node, slot, k);
      model := WheelModel.Disarm(w, node);
      seats := at - {node};
    }

    method RelinkWithout(node: Node, ghost slot: nat, ghost k: nat)
      requires Woven() && slot < SLOTS && k < |model.slots[slot]| && node == model.slots[slot][k]
      modifies (Heads() + seats.Keys)`next, (Heads() + seats.Keys)`prev
      ensures Forest(heads, model.slots[slot := Without(model.slots[slot], k)])
      ensures Ring(expiredList, expired)
    {
      assert node in model.slots[slot];
      assert Members(heads) <= Heads();
      ForestDel(node, heads, model.slots, slot, k);
      assert Ring(expiredList, expired);
    }

    lemma DisarmKeepsTidy(w: Wheel, at: Seats, gone: seq<Node>, n: Node, slot: nat, k: nat)
      requires Tidy(w, at, gone) && slot < SLOTS && k < |w.slots[slot]| && w.slots[slot][k] == n
      ensures Tidy(WheelModel.Disarm(w, n), at - {n}, gone)
      ensures WheelModel.Disarm(w, n) == w.(slots := w.slots[slot := Without(w.slots[slot], k)])
    {
      DisarmSeated(w, at, n, slot, k);
      ShrinkKeepsApart(heads, w.slots, slot, Without(w.slots[slot], k));
    }

    /** The tail of every arming call: stamp an unlinked node and place it. */
    method Schedule(node: Node, expires: nat)
      requires Structured() && node !in Heads() && node !in Linked()
      modifies `model, `seats, node`expires, node`wheel, node`pending
      modifies (Heads() + seats.Keys + {node})`next, (Heads() + seats.Keys + {node})`prev
      ensures Structured() && seats.Keys == old(seats.Keys) + {node}
      ensures model == Place(old(model).(expires := old(model).expires[node := expires]), node)
      ensures node.wheel == this && node.expires == expires && node.pending
    {
      hide Forest, Apart, Ring, WheelModel.Place, Inhabitants, SlotOf;
      node.wheel := this;
      node.expires := expires;
      model := model.(expires := model.expires[node := expires]);
      InternalAdd(node);
    }

    /** Takes a node out of the wheel when it is pending. */
    method Withdraw(node: Node)
      requires Structured() && node !in Heads() && node !in expired
      requires node.pending <==> node in seats
      modifies `model, `seats, node`pending
      modifies (Heads() + seats.Keys)`next, (Heads() + seats.Keys)`prev
      ensures Structured() && seats.Keys == old(seats.Keys) - {node}
      ensures model == WheelModel.Disarm(old(model), node)
      ensures !node.pending
    {
      if node.pending {
        Remove(node);
        node.pending := false;
      } else {
        DisarmAbsent(model, seats, node);
      }
    }

    /** A node that is no list head and whose flag tells whether this wheel holds it. */
    ghost predicate Deletable(node: Node)
      reads `seats, node`wheel, node`pending
    {
      node !in Heads() && (node.wheel == null || node.wheel == this ==> (node.pending <==> node in seats))
    }

    /** A node this wheel may be given: not one of its list heads, not between expiry and completion. */
    ghost predicate Admissible(node: Node)
      reads `seats, `expired, node`wheel, node`pending
    {
      Deletable(node) && (node.wheel == null || node.wheel == this ==> node !in expired)
    }

    /** Moves a node to the slot of a new expiry. */
    method Rearm(node: Node, expires: nat)
      requires Structured() && Admissible(node) && (node.wheel == null || node.wheel == this)
      modifies `model, `seats, node`expires, node`wheel, node`pending
      modifies (Heads() + seats.Keys + {node})`next, (Heads() + seats.Keys + {node})`prev
      ensures Structured()
      ensures model == WheelModel.Arm(old(model), node, expires)
      ensures node.wheel == this && node.expires == expires && node.pending
    {
      Withdraw(node);
      Schedule(node, expires);
    }

    method Restart(node: Node, period: nat, expires: nat)
      requires Structured() && Admissible(node) && (node.wheel == null || node.wheel == this)
      modifies `model, `seats, node`expires, node`wheel, node`pending, node`period
      modifies (Heads() + seats.Keys + {node})`next, (Heads() + seats.Keys + {node})`prev
      ensures Structured()
      ensures model == WheelModel.Arm(old(model), node, expires) && node.period == period
    {
      node.period := period;
      Rearm(node, expires);
    }

    /** Why a call on a node is refused; 0 when it is not. */
    predicate Refused(node: Node?, ret: int)
      reads `running, if node == null then {} else {node}
    {
      ret == if node == null then -22 else if !running then -108
             else if node.wheel != null && node.wheel != this then -17 else 0
    }

    /** Arms a one-shot timer. */
    method TimerAdd(node: Node?, ms: nat) returns (ret: int)
      requires ms < UINT32 && Structured() && (node != null ==> Admissible(node))
      modifies `model, `seats
      modifies (Heads() + seats.Keys)`next, (Heads() + seats.Keys)`prev
      modifies node
      ensures Structured() && old(Refused(node, ret))
      ensures ret != OK ==> model == old(model) && (node != null ==> unchanged(node))
      ensures ret == OK ==> model == WheelModel.Arm(old(model), node, jiffies + TicksFor(ms, tickMs)) && node.period == 0
    {
      if node == null {
        return EINVAL;
      }
      if !running {
        return ESHUTDOWN;
      }
      if node.wheel != null && node.wheel != this {
        return EEXIST;
      }
      Restart(node, 0, jiffies + TicksFor(ms, tickMs));
      return OK;
    }

    /** Arms a periodic timer; a period below one tick becomes one tick. */
    method TimerAddPeriodic(node: Node?, ms: nat) returns (ret: int)
      requires ms < UINT32 && Structured() && (node != null ==> Admissible(node))
      modifies `model, `seats
      modifies (Heads() + seats.Keys)`next, (Heads() + seats.Keys)`prev
      modifies node
      ensures Structured() && (if ms == 0 then ret == -22 else old(Refused(node, ret)))
      ensures ret != OK ==> model == old(model) && (node != null ==> unchanged(node))
      ensures ret == OK ==> && node.period == PeriodFor(ms, tickMs)
                            && model == WheelModel.Arm(old(model), node, jiffies + node.period)
    {
      if node == null || ms == 0 {
        return EINVAL;
      }
      if !running {
        return ESHUTDOWN;
      }
      if node.wheel != null && node.wheel != this {
        return EEXIST;
      }
      Restart(node, PeriodFor(ms, tickMs), jiffies + PeriodFor(ms, tickMs));
      return OK;
    }

    /** Gives a timer a new delay; its period is kept. */
    method TimerMod(node: Node?, ms: nat) returns (ret: int)
      requires ms < UINT32 && Structured() && (node != null ==> Admissible(node))
      modifies `model, `seats
      modifies (Heads() + seats.Keys)`next, (Heads() + seats.Keys)`prev
      modifies node
      ensures Structured() && old(Refused(node, ret))
      ensures ret != OK ==> model == old(model) && (node != null ==> unchanged(node))
      ensures ret == OK ==> && model == WheelModel.Arm(old(model), node, jiffies + TicksFor(ms, tickMs))
                            && node.period == old(node.period)
    {
      if node == null {
        return EINVAL;
      }
      if !running {
        return ESHUTDOWN;
      }
      if node.wheel != null && node.wheel != this {
        return EEXIST;
      }
      Rearm(node, jiffies + TicksFor(ms, tickMs));
      return OK;
    }

    /** Deletes a timer and stops it from re-arming; one that waits for a worker stays in the workers' list. */
    method TimerDel(node: Node?) returns (ret: int)
      requires Structured() && (node != null ==> Deletable(node))
      modifies `model, `seats
      modifies (Heads() + seats.Keys)`next, (Heads() + seats.Keys)`prev
      modifies node
      ensures Structured()
      ensures ret == if node == null || old(node.wheel != null && node.wheel != this) then -22
                     else if old(node.pending || node.executing) then 0 else 1
      ensures ret == EINVAL ==> model == old(model) && (node != null ==> unchanged(node))
      ensures ret != EINVAL ==> && model == WheelModel.Disarm(old(model), node)
                                && node.period == 0 && !node.pending
                                && node.wheel == (if old(node.pending) then null else old(node.wheel))
    {
      if node == null || (node.wheel != null && node.wheel != this) {
        return EINVAL;
      }
      node.period := 0;
      if node.pending {
        Withdraw(node);
        node.wheel := null;
        return OK;
      }
      DisarmAbsent(model, seats, node);
      return if node.executing then OK else NOT_PENDING;
    }

    /** After a callback: a periodic timer that was not touched meanwhile is armed one period after its last expiry. */
    method Complete(node: Node)
      requires Structured() && Admissible(node) && (node.wheel == null || node.wheel == this)
      modifies `model, `seats
      modifies (Heads() + seats.Keys)`next, (Heads() + seats.Keys)`prev
      modifies node
      ensures Structured() && !node.executing
      ensures model == if running && old(node.period > 0 && !node.pending)
                       then WheelModel.Arm(old(model), node, old(node.expires + node.period)) else old(model)
      ensures node.period == old(node.period)
    {
      node.executing := false;
      if running && node.period > 0 && !node.pending {
        Rearm(node, node.expires + node.period);
      } else if node.period == 0 && !node.pending {
        node.wheel := null;
      }
    }

    /** A worker takes the whole expired list onto its own list. */
    method TakeExpired(list: Node)
      requires Structured() && Ring(list, []) && list !in Heads() && list !in Linked()
      modifies `expired
      modifies ({list, expiredList} + Members(expired))`next, ({list, expiredList} + Members(expired))`prev
      ensures Structured() && model == old(model)
      ensures expired == [] && Ring(list, old(expired))
    {
      ListSpliceInit(expiredList, expired, list, []);
      assert expired + [] == expired;
      assert Forest(heads, model.slots);
      expired := [];
    }
  }
}
