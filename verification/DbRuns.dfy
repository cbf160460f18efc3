// The chained table against a plain map from keys to blocks, over every sequence of
// find-before-create and find-before-delete operations.
module DbRuns {
  import opened Common
  import opened StateDb

  datatype DbOp = Ensure(k: Key) | Drop(k: Key)

  /** The table, the key of every live block, and the next unused reference. */
  datatype Db = Db(table: Table, keys: map<Ref, Key>, next: Ref)

  /** The map that the table stands for. */
  datatype Plain = Plain(blocks: map<Key, Ref>, next: Ref)

  function Apply(d: Db, op: DbOp): (e: Db)
    requires |d.table| == HASH_SIZE
    ensures |e.table| == HASH_SIZE
  {
    var found := Find(d.table, d.keys, op.k);
    match op
    case Ensure(k) => if found.Some? then d else Db(Insert(d.table, d.next, k), d.keys[d.next := k], d.next + 1)
    case Drop(k) =>
      if found.None? then d else Db(Delete(d.table, found.value, k), d.keys - {found.value}, d.next)
  }

  function ApplyPlain(m: Plain, op: DbOp): Plain {
    match op
    case Ensure(k) => if k in m.blocks then m else Plain(m.blocks[k := m.next], m.next + 1)
    case Drop(k) => Plain(m.blocks - {k}, m.next)
  }

  function ApplyAll(d: Db, ops: seq<DbOp>): (e: Db)
    requires |d.table| == HASH_SIZE
    ensures |e.table| == HASH_SIZE
    decreases |ops|
  {
    if ops == [] then d else ApplyAll(Apply(d, ops[0]), ops[1..])
  }

  function ApplyAllPlain(m: Plain, ops: seq<DbOp>): Plain
    decreases |ops|
  {
    if ops == [] then m else ApplyAllPlain(ApplyPlain(m, ops[0]), ops[1..])
  }

  /** The live blocks are the values of the map, each under its own key. */
  ghost predicate Stands(d: Db, m: Plain) {
    && TableOk(d.table, d.keys) && UniqueKeys(d.keys) && d.next == m.next
    && (forall r :: r in d.keys ==> r < d.next)
    && (forall r :: r in d.keys ==> d.keys[r] in m.blocks && m.blocks[d.keys[r]] == r)
    && (forall k :: k in m.blocks ==> m.blocks[k] in d.keys && d.keys[m.blocks[k]] == k)
  }

  lemma LookupStands(d: Db, m: Plain, k: Key)
    requires Stands(d, m)
    ensures Find(d.table, d.keys, k) == if k in m.blocks then Some(m.blocks[k]) else None
  {
    FindAgrees(d.table, d.keys, k);
  }

  lemma StepStands(d: Db, m: Plain, op: DbOp)
    requires Stands(d, m)
    ensures Stands(Apply(d, op), ApplyPlain(m, op))
  {
    LookupStands(d, m, op.k);
    if op.Ensure? {
      InsertKeepsTable(d.table, d.keys, d.next, op.k);
    } else if op.k in m.blocks {
      DeleteKeepsTable(d.table, d.keys, m.blocks[op.k]);
    }
  }

  lemma {:induction false} RunStands(d: Db, m: Plain, ops: seq<DbOp>)
    requires Stands(d, m)
    ensures Stands(ApplyAll(d, ops), ApplyAllPlain(m, ops))
    decreases |ops|
  {
    if ops != [] {
      StepStands(d, m, ops[0]);
      RunStands(Apply(d, ops[0]), ApplyPlain(m, ops[0]), ops[1..]);
    }
  }

  /**
   * After every sequence of operations on an empty database, lookup answers what the map
   * answers, and walking all buckets visits exactly the blocks of the map, each once.
   */
  lemma TableRefinesMap(table: Table, ops: seq<DbOp>, k: Key)
    requires |table| == HASH_SIZE && forall b :: 0 <= b < HASH_SIZE ==> table[b] == []
    ensures var d, m := ApplyAll(Db(table, map[], 0), ops), ApplyAllPlain(Plain(map[], 0), ops);
            && Find(d.table, d.keys, k) == (if k in m.blocks then Some(m.blocks[k]) else None)
            && Distinct(Walk(d.table)) && forall r :: r in Walk(d.table) <==> r in m.blocks.Values
  {
    var d, m := ApplyAll(Db(table, map[], 0), ops), ApplyAllPlain(Plain(map[], 0), ops);
    assert Stands(Db(table, map[], 0), Plain(map[], 0));
    RunStands(Db(table, map[], 0), Plain(map[], 0), ops);
    LookupStands(d, m, k);
    WalkVisitsEachOnce(d.table, d.keys);
    forall r
      ensures r in d.keys <==> r in m.blocks.Values
    {
      if r in d.keys {
        assert m.blocks[d.keys[r]] == r;
      }
    }
  }
}
