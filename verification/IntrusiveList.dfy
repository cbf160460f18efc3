// Circular doubly linked lists threaded through the timer nodes themselves.
//
// A list head and a timer node are both a `Node`: the links are the first
// member of a timer node, so going from a link to its node is the identity.
// `Ring(h, s)` says that the links reachable from head `h` are exactly the
// nodes of `s`, in order, in both directions.  Every operation is proved to be
// the corresponding operation on that sequence.
module IntrusiveList {

  class Node {
    var next: Node?
    var prev: Node?
    var expires: nat
    var period: nat
    var pending: bool
    var executing: bool
    var wheel: object?

    /** A zeroed node whose links point to itself. */
    constructor ()
      ensures Ring(this, [])
      ensures expires == 0 && period == 0 && !pending && !executing && wheel == null
    {
      expires, period, pending, executing, wheel := 0, 0, false, false, null;
      next, prev := this, this;
    }
  }

  ghost predicate Distinct(s: seq<Node>) {
    forall i, j :: 0 <= i < j < |s| ==> s[i] != s[j]
  }

  /** The node at a position of the ring; either end of the sequence is the head. */
  ghost function At(h: Node, s: seq<Node>, k: int): Node {
    if 0 <= k < |s| then s[k] else h
  }

  ghost predicate Ring(h: Node, s: seq<Node>)
    reads ({h} + Members(s))`next, ({h} + Members(s))`prev
  {
    && h !in s && Distinct(s)
    && h.next == At(h, s, 0) && h.prev == At(h, s, |s| - 1)
    && (forall k {:trigger s[k].next} :: 0 <= k < |s| ==> s[k].next == At(h, s, k + 1))
    && (forall k {:trigger s[k].prev} :: 0 <= k < |s| ==> s[k].prev == At(h, s, k - 1))
  }

  ghost function Members(s: seq<Node>): set<Node> {
    set n | n in s
  }

  method InitListHead(h: Node)
    modifies h`next, h`prev
    ensures Ring(h, [])
  {
    h.next := h;
    h.prev := h;
  }

  /** Links `n` between two neighbours. */
  method ListAddBetween(n: Node, prev: Node, next: Node)
    modifies n`next, n`prev, prev`next, next`prev
    requires n != prev && n != next
    ensures n.next == next && n.prev == prev && prev.next == n && next.prev == n
    ensures next != prev ==> next.next == old(next.next) && prev.prev == old(prev.prev)
  {
    next.prev := n;
    n.next := next;
    n.prev := prev;
    prev.next := n;
  }

  /** Appends a node that is in no ring. */
  method ListAddTail(n: Node, h: Node, ghost s: seq<Node>)
    requires Ring(h, s) && n != h && n !in s
    modifies ({h, n} + Members(s))`next, ({h, n} + Members(s))`prev
    ensures Ring(h, s + [n])
  {
    ListAddBetween(n, h.prev, h);
  }

  method ListEmpty(h: Node, ghost s: seq<Node>) returns (empty: bool)
    requires Ring(h, s)
    ensures empty <==> s == []
  {
    empty := h.next == h;
  }

  ghost function Without(s: seq<Node>, k: nat): seq<Node>
    requires k < |s|
  {
    s[..k] + s[k + 1..]
  }

  /** Joins the neighbours of a node; the node keeps its own links. */
  method ListUnlink(n: Node, ghost h: Node, ghost s: seq<Node>, ghost k: nat)
    requires Ring(h, s) && k < |s| && s[k] == n
    modifies ({h} + Members(s))`next, ({h} + Members(s))`prev
    ensures Ring(h, Without(s, k))
    ensures n.next == old(n.next) && n.prev == old(n.prev)
  {
    var prev, next := n.prev, n.next;
    WithoutAt(h, s, k);
    next.prev := prev;
    prev.next := next;
    ghost var r := Without(s, k);
    forall i | 0 <= i < |r|
      ensures r[i].next == At(h, r, i + 1) && r[i].prev == At(h, r, i - 1)
    {
      assert r[i] == s[if i < k then i else i + 1];
    }
  }

  lemma WithoutAt(h: Node, s: seq<Node>, k: nat)
    requires h !in s && Distinct(s) && k < |s|
    ensures var r := Without(s, k);
            h !in r && Distinct(r) && forall i :: 0 <= i < |r| ==> r[i] == s[if i < k then i else i + 1]
  {
  }

  /** Removes a node and clears its links. */
  method ListDel(n: Node, ghost h: Node, ghost s: seq<Node>, ghost k: nat)
    requires Ring(h, s) && k < |s| && s[k] == n
    modifies ({h} + Members(s))`next, ({h} + Members(s))`prev
    ensures Ring(h, Without(s, k))
    ensures n.next == null && n.prev == null
  {
    ListUnlink(n, h, s, k);
    n.next := null;
    n.prev := null;
  }


  /** Moves a node from one ring to the end of another. */
  method ListMoveTail(n: Node, ghost h: Node, ghost s: seq<Node>, ghost k: nat, to: Node, ghost t: seq<Node>)
    requires Ring(h, s) && k < |s| && s[k] == n
    requires Ring(to, t) && to != h && to !in s && h !in t
    requires Members(s) !! Members(t)
    modifies ({h, to} + Members(s) + Members(t))`next, ({h, to} + Members(s) + Members(t))`prev
    ensures Ring(h, Without(s, k)) && Ring(to, t + [n])
  {
    ListUnlink(n, h, s, k);
    ListAddTail(n, to, t);
  }

  lemma DistinctConcat(s: seq<Node>, t: seq<Node>)
    requires Distinct(s) && Distinct(t) && Members(s) !! Members(t)
    ensures Distinct(s + t)
  {
    forall i, j | 0 <= i < j < |s + t|
      ensures (s + t)[i] != (s + t)[j]
    {
      if i < |s| <= j {
        assert s[i] in Members(s) && t[j - |s|] in Members(t);
      }
    }
  }

  /** Moves a whole ring to the front of another and leaves it empty. */
  method ListSpliceInit(from: Node, ghost s: seq<Node>, h: Node, ghost t: seq<Node>)
    requires Ring(from, s) && Ring(h, t)
    requires from != h && from !in t && h !in s && Members(s) !! Members(t)
    modifies ({from, h} + Members(s) + Members(t))`next, ({from, h} + Members(s) + Members(t))`prev
    ensures Ring(from, []) && Ring(h, s + t)
  {
    var empty := ListEmpty(from, s);
    if !empty {
      var first, last, at := from.next, from.prev, h.next;
      first.prev := h;
      h.next := first;
      last.next := at;
      at.prev := last;
      InitListHead(from);
      DistinctConcat(s, t);
    } else {
      assert s + t == t;
    }
  }

  // ---- several rings ----------------------------------------------------

  ghost function Inhabitants(rings: seq<seq<Node>>): set<Node> {
    set i, n {:trigger n in rings[i]} | 0 <= i < |rings| && n in rings[i] :: n
  }

  /** Heads and rings that share no node. */
  ghost predicate Apart(heads: seq<Node>, rings: seq<seq<Node>>) {
    && |heads| == |rings| && Distinct(heads)
    && (forall i, j {:trigger Members(rings[i]), Members(rings[j])} :: 0 <= i < j < |rings| ==>
          Members(rings[i]) !! Members(rings[j]))
    && (forall i {:trigger heads[i]} :: 0 <= i < |heads| ==> heads[i] !in Inhabitants(rings))
  }

  ghost predicate Forest(heads: seq<Node>, rings: seq<seq<Node>>)
    reads (Members(heads) + Inhabitants(rings))`next, (Members(heads) + Inhabitants(rings))`prev
  {
    && Apart(heads, rings)
    && forall i {:trigger Ring(heads[i], rings[i])} :: 0 <= i < |rings| ==>
         && (forall n: Node :: n in rings[i] ==> n in Inhabitants(rings))
         && Ring(heads[i], rings[i])
  }

  lemma ApartFrom(heads: seq<Node>, rings: seq<seq<Node>>, i: nat, j: nat)
    requires Apart(heads, rings) && i < |rings| && j < |rings| && i != j
    ensures heads[i] != heads[j] && heads[i] !in rings[j]
    ensures forall n: Node :: n in rings[j] ==> n in Inhabitants(rings) && n !in rings[i]
  {
    assert heads[i] !in Inhabitants(rings);
    assert Members(rings[i]) !! Members(rings[j]);
    forall n: Node | n in rings[j]
      ensures n in Inhabitants(rings) && n !in rings[i]
    {
      assert n in Members(rings[j]);
      assert n !in Members(rings[i]);
    }
  }

  lemma AppendKeepsApart(heads: seq<Node>, rings: seq<seq<Node>>, i: nat, n: Node)
    requires Apart(heads, rings) && i < |rings|
    requires n !in heads && n !in Inhabitants(rings)
    ensures Apart(heads, rings[i := rings[i] + [n]])
    ensures Inhabitants(rings[i := rings[i] + [n]]) == Inhabitants(rings) + {n}
  {
    var after := rings[i := rings[i] + [n]];
    assert Members(after[i]) == Members(rings[i]) + {n};
    assert forall j :: 0 <= j < |rings| && j != i ==> after[j] == rings[j] && n !in Members(rings[j]);
    assert n in after[i];
    forall x: Node | x in Inhabitants(rings)
      ensures x in Inhabitants(after)
    {
      var j :| 0 <= j < |rings| && x in rings[j];
      assert x in after[j];
    }
  }

  /** Shrinking one ring keeps the rings apart. */
  lemma ShrinkKeepsApart(heads: seq<Node>, rings: seq<seq<Node>>, i: nat, ring: seq<Node>)
    requires Apart(heads, rings) && i < |rings|
    requires forall n: Node :: n in ring ==> n in rings[i]
    ensures Apart(heads, rings[i := ring])
    ensures Inhabitants(rings[i := ring]) == Inhabitants(rings) - (Members(rings[i]) - Members(ring))
  {
    var after := rings[i := ring];
    forall j, k {:trigger Members(after[j]), Members(after[k])} | 0 <= j < k < |rings|
      ensures Members(after[j]) !! Members(after[k])
    {
      assert Members(after[j]) <= Members(rings[j]) && Members(after[k]) <= Members(rings[k]);
    }
    forall x: Node | x in Inhabitants(rings) && (x in rings[i] ==> x in ring)
      ensures x in Inhabitants(after)
    {
      var j :| 0 <= j < |rings| && x in rings[j];
      assert x in after[j];
    }
    forall x: Node | x in Inhabitants(after)
      ensures x in Inhabitants(rings) && (x in rings[i] ==> x in ring)
    {
      var j :| 0 <= j < |rings| && x in after[j];
      assert x in rings[j];
      if j != i { ApartFrom(heads, rings, i, j); }
    }
  }

  /** Appending to one ring of a forest leaves the others alone. */
  method ForestAddTail(n: Node, heads: seq<Node>, ghost rings: seq<seq<Node>>, i: nat)
    requires Forest(heads, rings) && i < |heads|
    requires n !in heads && n !in Inhabitants(rings)
    modifies (Members(heads) + Inhabitants(rings) + {n})`next
    modifies (Members(heads) + Inhabitants(rings) + {n})`prev
    ensures Forest(heads, rings[i := rings[i] + [n]])
  {
    ListAddTail(n, heads[i], rings[i]);
    AppendKeepsApart(heads, rings, i, n);
    forall j | 0 <= j < |rings| && j != i
      ensures Ring(heads[j], rings[j])
    {
      assert old(Ring(heads[j], rings[j]));
      ApartFrom(heads, rings, i, j);
      ApartFrom(heads, rings, j, i);
    }
  }

  /** Deleting from one ring of a forest leaves the others alone. */
  method ForestDel(n: Node, ghost heads: seq<Node>, ghost rings: seq<seq<Node>>, ghost i: nat, ghost k: nat)
    requires Forest(heads, rings) && i < |heads| && k < |rings[i]| && rings[i][k] == n
    modifies (Members(heads) + Inhabitants(rings))`next
    modifies (Members(heads) + Inhabitants(rings))`prev
    ensures Forest(heads, rings[i := Without(rings[i], k)])
    ensures Inhabitants(rings[i := Without(rings[i], k)]) == Inhabitants(rings) - {n}
    ensures n.next == null && n.prev == null
  {
    assert Ring(heads[i], rings[i]);
    ListDel(n, heads[i], rings[i], k);
    ShrinkKeepsApart(heads, rings, i, Without(rings[i], k));
    assert Members(rings[i]) - Members(Without(rings[i], k)) == {n};
    forall j | 0 <= j < |rings| && j != i
      ensures Ring(heads[j], rings[j])
    {
      assert old(Ring(heads[j], rings[j]));
      ApartFrom(heads, rings, i, j);
      ApartFrom(heads, rings, j, i);
    }
  }

  /** Splicing one ring of a forest onto an empty list outside it. */
  method ForestSplice(heads: seq<Node>, ghost rings: seq<seq<Node>>, i: nat, to: Node)
    requires Forest(heads, rings) && i < |heads|
    requires Ring(to, []) && to !in heads && to !in Inhabitants(rings)
    modifies (Members(heads) + Inhabitants(rings) + {to})`next
    modifies (Members(heads) + Inhabitants(rings) + {to})`prev
    ensures Forest(heads, rings[i := []]) && Ring(to, rings[i])
    ensures Inhabitants(rings[i := []]) == Inhabitants(rings) - Members(rings[i])
  {
    assert Ring(heads[i], rings[i]);
    assert rings[i] + [] == rings[i];
    ListSpliceInit(heads[i], rings[i], to, []);
    ShrinkKeepsApart(heads, rings, i, []);
    forall j | 0 <= j < |rings| && j != i
      ensures Ring(heads[j], rings[j])
    {
      assert old(Ring(heads[j], rings[j]));
      ApartFrom(heads, rings, i, j);
      ApartFrom(heads, rings, j, i);
    }
  }

  lemma FirstLeaves(heads: seq<Node>, rings: seq<seq<Node>>, i: nat)
    requires |heads| == |rings| && Apart(heads, rings) && i < |heads| && rings[i] != [] && Distinct(rings[i])
    ensures Without(rings[i], 0) == rings[i][1..]
    ensures Apart(heads, rings[i := rings[i][1..]])
    ensures Inhabitants(rings[i := rings[i][1..]]) == Inhabitants(rings) - {rings[i][0]}
  {
    ShrinkKeepsApart(heads, rings, i, rings[i][1..]);
    assert Members(rings[i]) - Members(rings[i][1..]) == {rings[i][0]};
  }

  method MoveFirst(n: Node, ghost heads: seq<Node>, ghost rings: seq<seq<Node>>, ghost i: nat, to: Node, ghost t: seq<Node>)
    requires Forest(heads, rings) && i < |heads| && rings[i] != [] && rings[i][0] == n
    requires Ring(to, t) && to !in heads && to !in Inhabitants(rings)
    requires Members(t) !! Members(heads) + Inhabitants(rings)
    modifies (Members(heads) + Inhabitants(rings) + {to} + Members(t))`next
    modifies (Members(heads) + Inhabitants(rings) + {to} + Members(t))`prev
    ensures Ring(heads[i], Without(rings[i], 0)) && Ring(to, t + [n])
    ensures forall j {:trigger Ring(heads[j], rings[j])} :: 0 <= j < |rings| && j != i ==> Ring(heads[j], rings[j])
  {
    assert Ring(heads[i], rings[i]);
    assert heads[i] in Members(heads) && Members(rings[i]) <= Inhabitants(rings);
    ListMoveTail(n, heads[i], rings[i], 0, to, t);
    forall j | 0 <= j < |rings| && j != i
      ensures Ring(heads[j], rings[j])
    {
      assert old(Ring(heads[j], rings[j]));
      ApartFrom(heads, rings, i, j);
      ApartFrom(heads, rings, j, i);
    }
  }

  /** Moving the first node of a ring to the end of a list outside the forest. */
  method ForestMoveFirst(n: Node, ghost heads: seq<Node>, ghost rings: seq<seq<Node>>, ghost i: nat, to: Node, ghost t: seq<Node>)
    requires Forest(heads, rings) && i < |heads| && rings[i] != [] && rings[i][0] == n
    requires Ring(to, t) && to !in heads && to !in Inhabitants(rings)
    requires Members(t) !! Members(heads) + Inhabitants(rings)
    modifies (Members(heads) + Inhabitants(rings) + {to} + Members(t))`next
    modifies (Members(heads) + Inhabitants(rings) + {to} + Members(t))`prev
    ensures Forest(heads, rings[i := rings[i][1..]]) && Ring(to, t + [n])
    ensures Inhabitants(rings[i := rings[i][1..]]) == Inhabitants(rings) - {n}
  {
    assert Ring(heads[i], rings[i]);
    FirstLeaves(heads, rings, i);
    MoveFirst(n, heads, rings, i, to, t);
  }
}
