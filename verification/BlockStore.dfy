// State blocks on the heap: a chained table of blocks and the addresses at which they
// live.  Reading and writing a block go through its address; freeing it ends the address.
module BlockStore {
  import opened Common
  import opened StateDb
  import opened HashChains

  class Store<T> {
    const db: BlockTable<T>
    var at: map<Ref, Block<T>>
    ghost var vals: map<Ref, T>

    ghost function Footprint(): (f: set<object>)
      reads this, db
    {
      {this, db, db.table} + db.blocks
    }

    /** Every block of a chain lives at its address. */
    ghost static predicate Addressed(chains: seq<seq<Block<T>>>, at: map<Ref, Block<T>>) {
      forall b: nat, y {:trigger y in chains[b]} :: b < |chains| && y in chains[b] ==> y.id in at && at[y.id] == y
    }

    /** The block at each address, and what it holds. */
    ghost static predicate Holding(at: map<Ref, Block<T>>, vals: map<Ref, T>, keys: map<Ref, Key>, blocks: set<Block<T>>)
      reads blocks`data
    {
      && at.Keys == keys.Keys && vals.Keys == keys.Keys
      && forall r :: r in at ==> at[r] in blocks && at[r].id == r && at[r].key == keys[r] && at[r].data == vals[r]
    }

    static lemma HoldingGrows(at: map<Ref, Block<T>>, vals: map<Ref, T>, keys: map<Ref, Key>, blocks: set<Block<T>>, x: Block<T>)
      requires Holding(at, vals, keys, blocks) && x.id !in vals
      ensures Holding(at[x.id := x], vals[x.id := x.data], keys[x.id := x.key], blocks + {x})
    {
    }

    static lemma HoldingShrinks(at: map<Ref, Block<T>>, vals: map<Ref, T>, keys: map<Ref, Key>, blocks: set<Block<T>>, r: Ref)
      requires Holding(at, vals, keys, blocks)
      ensures Holding(at - {r}, vals - {r}, keys - {r}, blocks)
    {
    }

    /** The table is sound and its blocks are where they should be, whatever they hold. */
    ghost predicate Placed()
      reads `at, db, db.table, db.blocks`nextHash
    {
      db.Wired() && TableOk(db.ids, db.keys) && Addressed(db.chains, at)
    }

    ghost predicate Valid()
      reads this, db, db.table, db.blocks
    {
      Placed() && Holding(at, vals, db.keys, db.blocks)
    }

    constructor ()
      ensures Valid() && fresh(Footprint()) && vals == map[] && db.keys == map[]
      ensures |db.ids| == HASH_SIZE && forall b :: 0 <= b < HASH_SIZE ==> db.ids[b] == []
    {
      db := new BlockTable();
      at, vals := map[], map[];
    }

    // ---- blocks -----------------------------------------------------------

    method Read(r: Ref) returns (v: Option<T>)
      requires Valid()
      ensures v == if r in vals then Some(vals[r]) else None
    {
      v := if r in at then Some(at[r].data) else None;
    }

    /** Overwrites what a block holds; its key and its place stay. */
    method Write(r: Ref, v: T)
      requires Valid() && r in vals
      modifies this, db.blocks
      ensures Valid() && vals == old(vals)[r := v]
      ensures at == old(at)
    {
      hide Placed;
      vals := vals[r := v];
      Overwrite(at[r], v);
    }

    static method Overwrite(x: Block<T>, v: T)
      modifies x`data
      ensures x.data == v
    {
      x.data := v;
    }

    method Add(r: Ref, k: Key, v: T)
      requires Valid() && r !in vals
      modifies this, db, db.table
      ensures Valid() && fresh(db.blocks - old(db.blocks))
      ensures vals == old(vals)[r := v] && db.keys == old(db.keys)[r := k] && db.ids == Insert(old(db.ids), r, k)
    {
      hide Holding, Addressed, BlockTable.Wired, TableOk, Insert;
      ghost var keys, blocks := db.keys, db.blocks;
      var x := CreateBlock(r, k, v);
      HoldingGrows(at, vals, keys, blocks, x);
      at, vals := at[r := x], vals[r := v];
    }

    method CreateBlock(r: Ref, k: Key, v: T) returns (x: Block<T>)
      requires Valid() && r !in vals
      modifies db, db.table
      ensures db.Wired() && TableOk(db.ids, db.keys) && Addressed(db.chains, at[r := x])
      ensures fresh(x) && x.id == r && x.key == k && x.data == v && db.blocks == old(db.blocks) + {x}
      ensures db.keys == old(db.keys)[r := k] && db.ids == Insert(old(db.ids), r, k)
    {
      InsertKeepsTable(db.ids, db.keys, r, k);
      ghost var before := db.chains;
      x := db.Create(k, r, v);
      AddressedGrows(before, at, Hash(k), x);
    }

    static lemma AddressedGrows(chains: seq<seq<Block<T>>>, at: map<Ref, Block<T>>, h: nat, x: Block<T>)
      requires Addressed(chains, at) && h < |chains| && x.id !in at
      ensures Addressed(chains[h := [x] + chains[h]], at[x.id := x])
    {
    }

    static lemma AddressedShrinks(before: seq<seq<Block<T>>>, after: seq<seq<Block<T>>>, at: map<Ref, Block<T>>, x: Block<T>)
      requires Addressed(before, at) && BlockTable<T>.Shrinks(before, after, x) && x.id in at && at[x.id] == x
      ensures Addressed(after, at - {x.id})
    {
    }

    method Drop(r: Ref)
      requires Valid() && r in vals
      modifies this, db, db.table, db.blocks`nextHash
      ensures Valid() && db.blocks == old(db.blocks)
      ensures vals == old(vals) - {r} && db.keys == old(db.keys) - {r}
      ensures db.ids == Delete(old(db.ids), r, old(db.keys)[r])
    {
      hide Holding, Addressed, BlockTable.Wired, TableOk, Delete;
      ghost var keys := db.keys;
      DeleteBlock(r);
      HoldingShrinks(at, vals, keys, db.blocks, r);
      at, vals := at - {r}, vals - {r};
    }

    method DeleteBlock(r: Ref)
      requires Valid() && r in vals
      modifies db, db.table, db.blocks`nextHash
      ensures db.Wired() && TableOk(db.ids, db.keys) && Addressed(db.chains, at - {r})
      ensures db.blocks == old(db.blocks) && db.keys == old(db.keys) - {r}
      ensures db.ids == Delete(old(db.ids), r, old(db.keys)[r])
    {
      LivesInItsChain(r);
      DeleteKeepsTable(db.ids, db.keys, r);
      ghost var before := db.chains;
      db.Delete(at[r]);
      AddressedShrinks(before, db.chains, at, at[r]);
    }

    lemma LivesInItsChain(r: Ref)
      requires Valid() && r in vals
      ensures at[r] in db.chains[Hash(at[r].key)]
    {
      var h := Hash(db.keys[r]);
      var i :| 0 <= i < |db.ids[h]| && db.ids[h][i] == r;
      assert BlockTable<T>.Names(db.chains[h], db.ids[h], db.keys);
      assert db.chains[h][i] in db.chains[h] && db.chains[h][i].id == r;
    }

    // ---- looking up and walking ------------------------------------------

    method FindKey(k: Key) returns (r: Option<Ref>)
      requires Valid()
      ensures r == Find(db.ids, db.keys, k)
    {
      var x := db.Find(k);
      r := if x == null then None else Some(x.id);
    }

    method FindIds(tunnelId: nat, lspId: nat) returns (r: Option<Ref>)
      requires Valid()
      ensures r == ScanIds(Walk(db.ids), db.keys, tunnelId, lspId)
    {
      var x := db.FindById(tunnelId, lspId);
      r := if x == null then None else Some(x.id);
    }

    /** The first block of a bucket. */
    method First(b: nat) returns (r: Option<Ref>)
      requires Valid() && b < HASH_SIZE
      ensures r == if db.ids[b] == [] then None else Some(db.ids[b][0])
    {
      assert BlockTable<T>.Linked(db.table[b], db.chains[b]) && BlockTable<T>.Names(db.chains[b], db.ids[b], db.keys);
      var x := db.table[b];
      r := if x == null then None else Some(x.id);
    }

    /** The block after one in its chain. */
    method Next(r: Ref, ghost b: nat, ghost j: nat) returns (next: Option<Ref>)
      requires Valid() && b < HASH_SIZE && j < |db.ids[b]| && db.ids[b][j] == r
      ensures next == if j + 1 < |db.ids[b]| then Some(db.ids[b][j + 1]) else None
    {
      assert BlockTable<T>.Linked(db.table[b], db.chains[b]) && BlockTable<T>.Names(db.chains[b], db.ids[b], db.keys);
      assert db.chains[b][j] in db.chains[b];
      var x := at[r].nextHash;
      next := if x == null then None else Some(x.id);
    }
  }
}
