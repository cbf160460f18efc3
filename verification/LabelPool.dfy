// The MPLS label manager: a byte bitmap with a moving search hint.
//
// The pure part describes one allocation as the source performs it, a next-fit
// search that starts at the hint and wraps around, and proves that it always
// yields the lowest free label.  The class below it is the bitmap allocator,
// proved against the pure part.
module LabelPool {

  import opened Common

  /** Range, hint and set of allocated labels. */
  datatype Pool = Pool(min: nat, max: nat, next: nat, used: set<nat>)

  /** A usable pool: no sum formed by the search leaves 32 bits. */
  ghost predicate InRange(p: Pool) {
    && 1 <= p.min <= p.max
    && p.max + (p.max - p.min) < UINT32
    && p.min <= p.next <= p.max
    && forall l :: l in p.used ==> p.min <= l <= p.max
  }

  /** Everything below the hint is taken. */
  ghost predicate HintTight(p: Pool) {
    forall l :: p.min <= l < p.next ==> l in p.used
  }

  ghost predicate Valid(p: Pool) {
    InRange(p) && HintTight(p)
  }

  ghost predicate Free?(p: Pool, l: nat) {
    p.min <= l <= p.max && l !in p.used
  }

  ghost predicate IsLowestFree(p: Pool, l: nat) {
    Free?(p, l) && forall m :: p.min <= m < l ==> m in p.used
  }

  ghost predicate Full(p: Pool) {
    forall l :: p.min <= l <= p.max ==> l in p.used
  }

  function Fresh(min: nat, max: nat): Pool {
    Pool(min, max, min, {})
  }

  /** The label probed at a given offset from the hint, in 32-bit arithmetic. */
  function Probe(p: Pool, offset: nat): nat {
    var l := (p.next + offset) % UINT32;
    if l > p.max then (p.min + (l - p.max - 1)) % UINT32 else l
  }

  /** Next-fit search; 0 when every probe hits an allocated label. */
  function NextFit(p: Pool, offset: nat): nat
    requires p.min <= p.max
    decreases p.max - p.min + 1 - offset
  {
    if offset >= p.max - p.min + 1 then 0
    else if Probe(p, offset) in p.used then NextFit(p, offset + 1)
    else Probe(p, offset)
  }

  /** No probe wraps in 32 bits or leaves the range. */
  lemma ProbeStaysInRange(p: Pool, offset: nat)
    requires InRange(p) && offset <= p.max - p.min
    ensures Probe(p, offset) == if p.next + offset <= p.max then p.next + offset
                                else p.min + (p.next + offset - p.max - 1)
    ensures p.min <= Probe(p, offset) <= p.max
  {
  }

  function Take(p: Pool, l: nat): Pool {
    p.(used := p.used + {l}, next := if l + 1 > p.max then p.min else l + 1)
  }

  /** One allocation: the new pool and the label, 0 when there is none. */
  function Alloc(p: Pool): (Pool, nat)
    requires p.min <= p.max
  {
    var l := NextFit(p, 0);
    if l == 0 then (p, 0) else (Take(p, l), l)
  }

  function Release(p: Pool, l: nat): Pool {
    if l !in p.used then p
    else p.(used := p.used - {l}, next := if l < p.next then l else p.next)
  }

  /** From an offset before which every probe failed, the search finds the lowest free label. */
  lemma {:induction false} NextFitFinds(p: Pool, offset: nat)
    requires Valid(p)
    requires offset <= p.max - p.min + 1
    requires forall l :: p.next <= l < p.next + offset && l <= p.max ==> l in p.used
    ensures var r := NextFit(p, offset);
            if Full(p) then r == 0 else IsLowestFree(p, r)
    decreases p.max - p.min + 1 - offset
  {
    if offset >= p.max - p.min + 1 {
      assert Full(p);
    } else {
      var l := Probe(p, offset);
      if p.next + offset <= p.max {
        assert l == p.next + offset;
      } else {
        assert l == p.min + (p.next + offset - p.max - 1) < p.next;
      }
      if l in p.used {
        NextFitFinds(p, offset + 1);
      }
    }
  }

  /** The allocator returns the lowest free label, and 0 exactly when the range is full. */
  lemma AllocTakesLowest(p: Pool)
    requires Valid(p)
    ensures var (q, l) := Alloc(p);
            && Valid(q)
            && q.min == p.min && q.max == p.max
            && (l == 0 <==> Full(p))
            && (l == 0 ==> q == p)
            && (l != 0 ==> IsLowestFree(p, l) && q.used == p.used + {l})
  {
    NextFitFinds(p, 0);
  }

  /** Releasing gives back exactly that label and keeps the hint tight. */
  lemma ReleaseKeepsHint(p: Pool, l: nat)
    requires Valid(p)
    ensures var q := Release(p, l);
            && Valid(q)
            && q.min == p.min && q.max == p.max
            && q.used == p.used - {l}
  {
    if l in p.used {
      var q := Release(p, l);
      assert forall m :: q.min <= m < q.next ==> m in p.used && m != l;
    }
  }

  /** Taking the lowest free label and releasing it at once restores the set of free labels. */
  lemma AllocThenRelease(p: Pool)
    requires Valid(p) && !Full(p)
    ensures var (q, l) := Alloc(p); Release(q, l).used == p.used
    ensures var (q, l) := Alloc(p); Alloc(Release(q, l)).1 == l
  {
    AllocTakesLowest(p);
    var (q, l) := Alloc(p);
    ReleaseKeepsHint(q, l);
    var r := Release(q, l);
    AllocTakesLowest(r);
    assert r.used == p.used;
    assert Free?(r, l);
  }

  // ---- whole runs -------------------------------------------------------

  datatype Op = AllocOp | ReleaseOp(l: nat)

  /** The answers of the source's allocator over a run of requests. */
  function Answers(p: Pool, ops: seq<Op>): seq<nat>
    requires p.min <= p.max
    decreases |ops|
  {
    if ops == [] then []
    else match ops[0]
      case AllocOp =>
        var (q, l) := Alloc(p);
        [l] + Answers(q, ops[1..])
      case ReleaseOp(l) => Answers(Release(p, l), ops[1..])
  }

  /** The reference: a plain set of labels, always handing out the smallest free one. */
  function LowestFrom(used: set<nat>, l: nat, max: nat): nat
    decreases max - l
  {
    if l > max then 0 else if l !in used then l else LowestFrom(used, l + 1, max)
  }

  function ReferenceAnswers(min: nat, max: nat, used: set<nat>, ops: seq<Op>): seq<nat>
    decreases |ops|
  {
    if ops == [] then []
    else match ops[0]
      case AllocOp =>
        var l := LowestFrom(used, min, max);
        [l] + ReferenceAnswers(min, max, if l == 0 then used else used + {l}, ops[1..])
      case ReleaseOp(l) => ReferenceAnswers(min, max, used - {l}, ops[1..])
  }

  lemma {:induction false} LowestFromIsLowest(p: Pool, l: nat)
    requires InRange(p) && p.min <= l
    requires forall m :: p.min <= m < l ==> m in p.used
    ensures var r := LowestFrom(p.used, l, p.max);
            if Full(p) then r == 0 else IsLowestFree(p, r)
    decreases p.max - l
  {
    if l <= p.max && l in p.used {
      LowestFromIsLowest(p, l + 1);
    }
  }

  lemma {:induction false} AnswersAreReference(p: Pool, ops: seq<Op>)
    requires Valid(p)
    ensures Answers(p, ops) == ReferenceAnswers(p.min, p.max, p.used, ops)
    decreases |ops|
  {
    if ops != [] {
      match ops[0]
      case AllocOp =>
        AllocTakesLowest(p);
        LowestFromIsLowest(p, p.min);
        var (q, l) := Alloc(p);
        AnswersAreReference(q, ops[1..]);
      case ReleaseOp(l) =>
        ReleaseKeepsHint(p, l);
        AnswersAreReference(Release(p, l), ops[1..]);
    }
  }

  /** Over every run from initialisation the hinted bitmap and the plain set give the same answers. */
  lemma NextFitRefinesLowestFit(min: nat, max: nat, ops: seq<Op>)
    requires 1 <= min <= max && max + (max - min) < UINT32
    ensures Answers(Fresh(min, max), ops) == ReferenceAnswers(min, max, {}, ops)
  {
    AnswersAreReference(Fresh(min, max), ops);
  }

  // ---- the bitmap -------------------------------------------------------

  predicate Bit(b: bv8, k: nat)
    requires k < 8
  {
    (b >> k) & 1 == 1
  }

  function WithBit(b: bv8, k: nat): (r: bv8)
    requires k < 8
  {
    b | (1 << k)
  }

  function WithoutBit(b: bv8, k: nat): (r: bv8)
    requires k < 8
  {
    b & !(1 << k)
  }

  lemma BitOfWithBit(b: bv8, k: nat, j: nat)
    requires k < 8 && j < 8
    ensures Bit(WithBit(b, k), j) <==> j == k || Bit(b, j)
  {
    if k == 0 {} else if k == 1 {} else if k == 2 {} else if k == 3 {}
    else if k == 4 {} else if k == 5 {} else if k == 6 {} else {}
  }

  lemma BitOfWithoutBit(b: bv8, k: nat, j: nat)
    requires k < 8 && j < 8
    ensures Bit(WithoutBit(b, k), j) <==> j != k && Bit(b, j)
  {
    if k == 0 {} else if k == 1 {} else if k == 2 {} else if k == 3 {}
    else if k == 4 {} else if k == 5 {} else if k == 6 {} else {}
  }

  class LabelManager {
    var min: nat
    var max: nat
    var next: nat
    var bitmap: array?<bv8>

    /** The bitmap, when there is one, has a bit for every label of the range. */
    ghost predicate Shaped()
      reads `min, `max, `bitmap, bitmap
    {
      bitmap != null ==> max - min + 1 <= 8 * bitmap.Length
    }

    predicate Allocated?(l: nat)
      requires Shaped()
      reads `min, `max, `bitmap, bitmap
    {
      bitmap != null && min <= l <= max && Bit(bitmap[(l - min) / 8], (l - min) % 8)
    }

    ghost function Used(): set<nat>
      requires Shaped()
      reads `min, `max, `bitmap, bitmap
    {
      set l | min <= l <= max && Allocated?(l)
    }

    ghost function Model(): Pool
      requires Shaped()
      reads this, bitmap
    {
      Pool(min, max, next, Used())
    }

    ghost predicate Ready()
      reads this, bitmap
    {
      Shaped() && bitmap != null && Valid(Model())
    }

    /** `granted` says whether the allocation of the bitmap succeeded. */
    constructor (lo: nat, hi: nat, granted: bool)
      requires lo < UINT32 && hi < UINT32
      ensures Shaped() && (bitmap != null <==> granted)
      ensures bitmap != null ==> fresh(bitmap)
      ensures Model() == Fresh(lo, hi)
    {
      min, max, next := lo, hi, lo;
      if granted {
        var size := if lo <= hi then (hi - lo + 8) / 8 else 0;
        bitmap := new bv8[size](_ => 0);
      } else {
        bitmap := null;
      }
      new;
      assert forall l :: !Allocated?(l);
    }

    method SetAllocated(l: nat)
      requires Shaped() && bitmap != null && min <= l <= max
      modifies bitmap
      ensures Shaped()
      ensures Used() == old(Used()) + {l}
    {
      var idx := l - min;
      bitmap[idx / 8] := WithBit(bitmap[idx / 8], idx % 8);
      forall m: nat | min <= m <= max
        ensures Allocated?(m) <==> m == l || old(Allocated?(m))
      {
        if (m - min) / 8 == idx / 8 {
          BitOfWithBit(old(bitmap[idx / 8]), idx % 8, (m - min) % 8);
        }
      }
    }

    method ClearAllocated(l: nat)
      requires Shaped() && bitmap != null && min <= l <= max
      modifies bitmap
      ensures Shaped()
      ensures Used() == old(Used()) - {l}
    {
      var idx := l - min;
      bitmap[idx / 8] := WithoutBit(bitmap[idx / 8], idx % 8);
      forall m: nat | min <= m <= max
        ensures Allocated?(m) <==> m != l && old(Allocated?(m))
      {
        if (m - min) / 8 == idx / 8 {
          BitOfWithoutBit(old(bitmap[idx / 8]), idx % 8, (m - min) % 8);
        }
      }
    }

    /** Allocates a label and moves the hint past it, around the end of the range. */
    method Claim(l: nat)
      requires Shaped() && bitmap != null && min <= l <= max
      modifies this`next, bitmap
      ensures Shaped() && Model() == Take(old(Model()), l)
    {
      SetAllocated(l);
      next := l + 1;
      if next > max {
        next := min;
      }
    }

    /** Returns 0 without a bitmap or with an empty range; otherwise the next-fit answer. */
    method AllocLabel() returns (r: nat)
      requires Shaped() && (bitmap != null && min <= max ==> Ready())
      modifies this`next, bitmap
      ensures Shaped() && min == old(min) && max == old(max) && bitmap == old(bitmap)
      ensures bitmap == null || min > max ==> r == 0 && Model() == old(Model())
      ensures bitmap != null && min <= max ==> Ready() && (Model(), r) == Alloc(old(Model()))
    {
      hide Bit, WithBit;
      if bitmap == null || min > max {
        return 0;
      }
      ghost var p := Model();
      var range := max - min + 1;
      var offset := 0;
      while offset < range
        invariant 0 <= offset <= range
        invariant Model() == p
        invariant NextFit(p, 0) == NextFit(p, offset)
      {
        r := (next + offset) % UINT32;
        if r > max {
          r := (min + (r - max - 1)) % UINT32;
        }
        assert r == Probe(p, offset);
        ProbeStaysInRange(p, offset);
        if !Allocated?(r) {
          Claim(r);
          AllocTakesLowest(p);
          return;
        }
        offset := offset + 1;
      }
      AllocTakesLowest(p);
      return 0;
    }

    method FreeLabel(l: nat)
      requires Shaped()
      modifies this`next, bitmap
      ensures Shaped() && min == old(min) && max == old(max) && bitmap == old(bitmap)
      ensures Model() == Release(old(Model()), l)
    {
      if !(min <= l <= max) {
        return;
      }
      if !Allocated?(l) {
        return;
      }
      ClearAllocated(l);
      if l < next {
        next := l;
      }
    }
  }
}
