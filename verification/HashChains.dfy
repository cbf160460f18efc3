// The state database in place: an array of bucket heads and blocks chained through
// their `nextHash` fields, proved against the tables of StateDb.
module HashChains {
  import opened Common
  import opened StateDb

  /** A state block: its key, its place in a chain, and what it holds; `id` stands for its address. */
  class Block<T> {
    const key: Key
    const id: Ref
    var nextHash: Block?<T>
    var data: T

    constructor (k: Key, id: Ref, v: T)
      ensures key == k && this.id == id && nextHash == null && data == v
    {
      key := k;
      this.id := id;
      nextHash := null;
      data := v;
    }
  }

  lemma {:induction false} ScanConcat(a: seq<Ref>, b: seq<Ref>, keys: map<Ref, Key>, tunnelId: nat, lspId: nat)
    ensures ScanIds(a + b, keys, tunnelId, lspId) ==
            if ScanIds(a, keys, tunnelId, lspId).Some? then ScanIds(a, keys, tunnelId, lspId)
            else ScanIds(b, keys, tunnelId, lspId)
    decreases |a|
  {
    if a == [] {
      assert a + b == b;
    } else {
      ScanConcat(a[1..], b, keys, tunnelId, lspId);
      assert (a + b)[1..] == a[1..] + b;
    }
  }

  lemma {:induction false} WithoutAt(chain: seq<Ref>, i: nat)
    requires Distinct(chain) && i < |chain|
    ensures Without(chain, chain[i]) == chain[..i] + chain[i + 1..]
    decreases |chain|
  {
    if i == 0 {
      assert chain[..0] + chain[1..] == chain[1..];
    } else {
      WithoutAt(chain[1..], i - 1);
      assert chain[1..][..i - 1] == chain[1..i] && chain[1..][i..] == chain[i + 1..];
      assert [chain[0]] + (chain[1..i] + chain[i + 1..]) == chain[..i] + chain[i + 1..];
    }
  }

  class BlockTable<T> {
    const table: array<Block?<T>>
    ghost var chains: seq<seq<Block<T>>>
    ghost var ids: Table
    ghost var keys: map<Ref, Key>
    ghost var blocks: set<Block<T>>

    /** A chain starts at its head and follows `nextHash` to the end. */
    ghost static predicate Linked(head: Block?<T>, chain: seq<Block<T>>)
      reads chain`nextHash
    {
      && head == (if chain == [] then null else chain[0])
      && forall i {:trigger chain[i]} :: 0 <= i < |chain| ==> chain[i].nextHash == if i + 1 < |chain| then chain[i + 1] else null
    }

    /** The chain of a bucket holds the blocks whose references the table lists. */
    ghost static predicate Names(chain: seq<Block<T>>, refs: seq<Ref>, keys: map<Ref, Key>) {
      && |refs| == |chain|
      && forall i :: 0 <= i < |chain| ==> chain[i].id == refs[i] && refs[i] in keys && keys[refs[i]] == chain[i].key
    }

    ghost static predicate Within(chains: seq<seq<Block<T>>>, blocks: set<Block<T>>) {
      forall b, i :: 0 <= b < |chains| && 0 <= i < |chains[b]| ==> chains[b][i] in blocks
    }

    static lemma WithinGrows(chains: seq<seq<Block<T>>>, blocks: set<Block<T>>, h: nat, r: Block<T>)
      requires Within(chains, blocks) && h < |chains|
      ensures Within(chains[h := [r] + chains[h]], blocks + {r})
    {
      var longer := chains[h := [r] + chains[h]];
      forall b, i | 0 <= b < |longer| && 0 <= i < |longer[b]|
        ensures longer[b][i] in blocks + {r}
      {
        if b != h {
          assert longer[b][i] == chains[b][i];
        } else if i > 0 {
          assert longer[b][i] == chains[b][i - 1];
        }
      }
    }

    ghost static predicate AllNamed(chains: seq<seq<Block<T>>>, ids: Table, keys: map<Ref, Key>) {
      |ids| == |chains| && forall b :: 0 <= b < |chains| ==> Names(chains[b], ids[b], keys)
    }

    ghost static predicate AllLinked(table: array<Block?<T>>, chains: seq<seq<Block<T>>>, blocks: set<Block<T>>)
      requires Within(chains, blocks)
      reads table, blocks`nextHash
    {
      |chains| == table.Length && forall b :: 0 <= b < |chains| ==> Linked(table[b], chains[b])
    }

    static lemma AllNamedGrows(chains: seq<seq<Block<T>>>, ids: Table, keys: map<Ref, Key>, h: nat, r: Block<T>)
      requires AllNamed(chains, ids, keys) && h < |chains| && r.id !in keys
      ensures AllNamed(chains[h := [r] + chains[h]], ids[h := [r.id] + ids[h]], keys[r.id := r.key])
    {
      forall b | 0 <= b < |chains|
        ensures Names(chains[b], ids[b], keys[r.id := r.key])
        ensures Names([r] + chains[b], [r.id] + ids[b], keys[r.id := r.key])
      {
        NamesGrow(chains[b], ids[b], keys, r);
      }
    }

    /** The pointers spell out the table. */
    ghost predicate Wired()
      reads this, table, blocks`nextHash
    {
      && table.Length == HASH_SIZE && |chains| == HASH_SIZE && |ids| == HASH_SIZE
      && Within(chains, blocks) && AllNamed(chains, ids, keys) && AllLinked(table, chains, blocks)
    }

    constructor ()
      ensures Wired() && TableOk(ids, keys) && fresh(table) && keys == map[] && blocks == {}
      ensures forall b :: 0 <= b < HASH_SIZE ==> ids[b] == [] && chains[b] == []
    {
      table := new Block?<T>[HASH_SIZE](_ => null);
      chains := seq(HASH_SIZE, _ => []);
      ids := seq(HASH_SIZE, _ => []);
      keys := map[];
      blocks := {};
    }

    /** Lookup by key: the block that the table's lookup names. */
    method Find(k: Key) returns (r: Block?<T>)
      requires Wired()
      ensures r == null <==> StateDb.Find(ids, keys, k) == None
      ensures r != null ==> r in blocks && StateDb.Find(ids, keys, k) == Some(r.id) && r.key == k
    {
      var h := Hash(k);
      ghost var i := 0;
      r := table[h];
      assert ids[h][0..] == ids[h];
      assert Linked(table[h], chains[h]) && Names(chains[h], ids[h], keys);
      while r != null
        invariant 0 <= i <= |chains[h]|
        invariant r == if i < |chains[h]| then chains[h][i] else null
        invariant FindIn(ids[h][i..], keys, k) == FindIn(ids[h], keys, k)
        decreases |chains[h]| - i
      {
        assert Linked(table[h], chains[h]) && Names(chains[h], ids[h], keys);
        assert chains[h][i].nextHash == if i + 1 < |chains[h]| then chains[h][i + 1] else null;
        if r.key == k {
          return;
        }
        assert ids[h][i..][1..] == ids[h][i + 1..];
        r := r.nextHash;
        i := i + 1;
      }
    }

    /** Scan by ids: the first block of the whole table with these ids. */
    method FindById(tunnelId: nat, lspId: nat) returns (r: Block?<T>)
      requires Wired()
      ensures r == null <==> ScanIds(Walk(ids), keys, tunnelId, lspId) == None
      ensures r != null ==> r in blocks && ScanIds(Walk(ids), keys, tunnelId, lspId) == Some(r.id)
    {
      for b := 0 to HASH_SIZE
        invariant ScanIds(Walk(ids[..b]), keys, tunnelId, lspId) == None
      {
        ghost var i := 0;
        r := table[b];
        assert ids[b][0..] == ids[b];
        assert Linked(table[b], chains[b]) && Names(chains[b], ids[b], keys);
        while r != null
          invariant 0 <= i <= |chains[b]|
          invariant r == if i < |chains[b]| then chains[b][i] else null
          invariant ScanIds(ids[b][i..], keys, tunnelId, lspId) == ScanIds(ids[b], keys, tunnelId, lspId)
          decreases |chains[b]| - i
        {
          assert Linked(table[b], chains[b]) && Names(chains[b], ids[b], keys);
          if r.key.tunnelId == tunnelId && r.key.lspId == lspId {
            ScanUpTo(b, tunnelId, lspId);
            return;
          }
          assert ids[b][i..][1..] == ids[b][i + 1..];
          r := r.nextHash;
          i := i + 1;
        }
        ScanUpTo(b, tunnelId, lspId);
      }
      assert ids[..HASH_SIZE] == ids;
      r := null;
    }

    /** A scan that finds nothing before a bucket and something in it finds that in the whole table. */
    lemma ScanUpTo(b: nat, tunnelId: nat, lspId: nat)
      requires |ids| == HASH_SIZE && b < HASH_SIZE && ScanIds(Walk(ids[..b]), keys, tunnelId, lspId) == None
      ensures ScanIds(Walk(ids[..b + 1]), keys, tunnelId, lspId) == ScanIds(ids[b], keys, tunnelId, lspId)
      ensures ScanIds(ids[b], keys, tunnelId, lspId).Some? ==>
                ScanIds(Walk(ids), keys, tunnelId, lspId) == ScanIds(ids[b], keys, tunnelId, lspId)
    {
      assert ids[..b + 1][..b] == ids[..b];
      ScanConcat(Walk(ids[..b]), ids[b], keys, tunnelId, lspId);
      assert ids == ids[..b + 1] + ids[b + 1..];
      WalkConcat(ids[..b + 1], ids[b + 1..]);
      ScanConcat(Walk(ids[..b + 1]), Walk(ids[b + 1..]), keys, tunnelId, lspId);
    }

    method VisitBucket(b: nat) returns (visited: seq<Block<T>>)
      requires Wired() && b < HASH_SIZE
      ensures visited == chains[b]
    {
      visited := [];
      ghost var i := 0;
      var c := table[b];
      assert Linked(table[b], chains[b]);
      while c != null
        invariant 0 <= i <= |chains[b]|
        invariant c == if i < |chains[b]| then chains[b][i] else null
        invariant visited == chains[b][..i]
        decreases |chains[b]| - i
      {
        visited := visited + [c];
        c := c.nextHash;
        i := i + 1;
      }
    }

    /** Walks every chain of every bucket. */
    method Visit() returns (visited: seq<Block<T>>)
      requires Wired()
      ensures |visited| == |Walk(ids)| && forall i :: 0 <= i < |visited| ==> visited[i].id == Walk(ids)[i]
    {
      hide AllLinked, Linked, Within;
      visited := [];
      for b := 0 to HASH_SIZE
        invariant |visited| == |Walk(ids[..b])|
        invariant forall i :: 0 <= i < |visited| ==> visited[i].id == Walk(ids[..b])[i]
      {
        var part := VisitBucket(b);
        visited := visited + part;
        assert Names(chains[b], ids[b], keys);
        assert ids[..b + 1][..b] == ids[..b];
        assert Walk(ids[..b + 1]) == Walk(ids[..b]) + ids[b];
      }
      assert ids[..HASH_SIZE] == ids;
    }

    lemma OnceInTable(b: nat, i: nat, c: nat, j: nat)
      requires Wired() && TableOk(ids, keys) && b < HASH_SIZE && c < HASH_SIZE && i < |chains[b]| && j < |chains[c]|
      requires chains[b][i] == chains[c][j]
      ensures b == c && i == j
    {
      assert Names(chains[b], ids[b], keys) && Names(chains[c], ids[c], keys);
      assert ids[b][i] in ids[b] && ids[c][j] in ids[c];
      assert Distinct(ids[b]);
    }

    static lemma NamesGrow(chain: seq<Block<T>>, refs: seq<Ref>, keys: map<Ref, Key>, r: Block<T>)
      requires Names(chain, refs, keys) && r.id !in keys
      ensures Names(chain, refs, keys[r.id := r.key]) && Names([r] + chain, [r.id] + refs, keys[r.id := r.key])
    {
    }

    static lemma LinkedAtHead(r: Block<T>, chain: seq<Block<T>>)
      requires Linked(r.nextHash, chain)
      ensures Linked(r, [r] + chain)
    {
      var longer := [r] + chain;
      forall i | 0 <= i < |longer|
        ensures longer[i].nextHash == if i + 1 < |longer| then longer[i + 1] else null
      {
        assert i > 0 ==> longer[i] == chain[i - 1];
      }
    }

    /** Makes a block the head of a chain. */
    static method Prepend(table: array<Block?<T>>, h: nat, r: Block<T>, ghost chains: seq<seq<Block<T>>>, ghost blocks: set<Block<T>>)
      requires Within(chains, blocks) && AllLinked(table, chains, blocks) && h < |chains| && r !in blocks
      modifies table, r`nextHash
      ensures Within(chains[h := [r] + chains[h]], blocks + {r})
      ensures AllLinked(table, chains[h := [r] + chains[h]], blocks + {r})
    {
      r.nextHash := table[h];
      table[h] := r;
      assert old(Linked(table[h], chains[h]));
      LinkedAtHead(r, chains[h]);
      WithinGrows(chains, blocks, h, r);
      forall b | 0 <= b < |chains| && b != h
        ensures Linked(table[b], chains[b])
      {
        assert old(Linked(table[b], chains[b]));
      }
    }

    /** Puts a new block at the head of its chain. */
    method Create(k: Key, id: Ref, v: T) returns (r: Block<T>)
      requires Wired() && id !in keys
      modifies this, table
      ensures Wired() && fresh(r) && r.key == k && r.id == id && r.data == v && blocks == old(blocks) + {r}
      ensures chains == old(chains)[Hash(k) := [r] + old(chains)[Hash(k)]]
      ensures ids == Insert(old(ids), id, k) && keys == old(keys)[id := k]
    {
      r := new Block(k, id, v);
      AllNamedGrows(chains, ids, keys, Hash(k), r);
      ghost var before, known := chains, blocks;
      chains, ids, keys := before[Hash(k) := [r] + before[Hash(k)]], Insert(ids, id, k), keys[id := k];
      blocks := known + {r};
      Prepend(table, Hash(k), r, before, known);
    }

    ghost static function Cut(chain: seq<Block<T>>, i: nat): seq<Block<T>>
      requires i < |chain|
    {
      chain[..i] + chain[i + 1..]
    }

    /** A block is at one place of one chain only. */
    ghost static predicate OnlyAt(chains: seq<seq<Block<T>>>, h: nat, i: nat, x: Block<T>) {
      && h < |chains| && i < |chains[h]| && chains[h][i] == x
      && (forall b :: 0 <= b < |chains| && b != h ==> x !in chains[b])
      && (forall j :: 0 <= j < |chains[h]| && j != i ==> chains[h][j] != x)
    }

    lemma PlacesAreUnique(h: nat, i: nat)
      requires Wired() && TableOk(ids, keys) && h < HASH_SIZE && i < |chains[h]|
      ensures OnlyAt(chains, h, i, chains[h][i])
    {
      var x := chains[h][i];
      forall b, j | 0 <= b < HASH_SIZE && 0 <= j < |chains[b]| && chains[b][j] == x
        ensures b == h && j == i
      {
        OnceInTable(b, j, h, i);
      }
    }

    static lemma WithinCut(chains: seq<seq<Block<T>>>, blocks: set<Block<T>>, h: nat, i: nat)
      requires Within(chains, blocks) && h < |chains| && i < |chains[h]|
      ensures Within(chains[h := Cut(chains[h], i)], blocks)
    {
      var shorter := chains[h := Cut(chains[h], i)];
      forall b, j | 0 <= b < |shorter| && 0 <= j < |shorter[b]|
        ensures shorter[b][j] in blocks
      {
        assert shorter[b][j] == if b == h && j >= i then chains[b][j + 1] else chains[b][j];
      }
    }

    /** Makes the pointer before a block skip it. */
    static method Unchain(table: array<Block?<T>>, h: nat, ghost i: nat, prev: Block?<T>, x: Block<T>,
                          ghost chains: seq<seq<Block<T>>>, ghost blocks: set<Block<T>>)
      requires Within(chains, blocks) && AllLinked(table, chains, blocks)
      requires h < |chains| && i < |chains[h]| && x == chains[h][i]
      requires if i == 0 then prev == null else prev != null && OnlyAt(chains, h, i - 1, prev)
      modifies table, (if prev == null then {} else {prev})`nextHash
      ensures Within(chains[h := Cut(chains[h], i)], blocks)
      ensures AllLinked(table, chains[h := Cut(chains[h], i)], blocks)
    {
      assert Linked(table[h], chains[h]);
      if prev == null {
        table[h] := x.nextHash;
      } else {
        prev.nextHash := x.nextHash;
      }
      CutLinks(table[h], chains[h], i);
      WithinCut(chains, blocks, h, i);
      forall b | 0 <= b < |chains| && b != h
        ensures Linked(table[b], chains[b])
      {
        assert old(Linked(table[b], chains[b]));
      }
    }

    /** A chain whose pointers skip one block is the chain without it. */
    static lemma CutLinks(head: Block?<T>, chain: seq<Block<T>>, i: nat)
      requires i < |chain|
      requires head == if i > 0 then chain[0] else if i + 1 < |chain| then chain[i + 1] else null
      requires forall j {:trigger chain[j]} :: 0 <= j < |chain| && j != i ==>
                 chain[j].nextHash ==
                   if j + 1 == i then (if i + 1 < |chain| then chain[i + 1] else null)
                   else if j + 1 < |chain| then chain[j + 1] else null
      ensures Linked(head, Cut(chain, i))
    {
      var shorter := Cut(chain, i);
      forall j | 0 <= j < |shorter|
        ensures shorter[j].nextHash == if j + 1 < |shorter| then shorter[j + 1] else null
      {
        assert shorter[j] == if j < i then chain[j] else chain[j + 1];
        assert j + 1 < |shorter| ==> shorter[j + 1] == if j + 1 < i then chain[j + 1] else chain[j + 2];
      }
    }

    static lemma NamesCut(chain: seq<Block<T>>, refs: seq<Ref>, keys: map<Ref, Key>, i: nat)
      requires Names(chain, refs, keys) && Distinct(refs) && i < |chain|
      ensures Names(Cut(chain, i), Without(refs, refs[i]), keys - {refs[i]})
    {
      WithoutAt(refs, i);
      NamesWithoutPlace(chain, refs, keys, i);
    }

    static lemma NamesWithoutPlace(chain: seq<Block<T>>, refs: seq<Ref>, keys: map<Ref, Key>, i: nat)
      requires Names(chain, refs, keys) && Distinct(refs) && i < |chain|
      ensures Names(Cut(chain, i), refs[..i] + refs[i + 1..], keys - {refs[i]})
    {
      var c, r := Cut(chain, i), refs[..i] + refs[i + 1..];
      forall j | 0 <= j < |c|
        ensures c[j].id == r[j] && r[j] in keys - {refs[i]} && keys[r[j]] == c[j].key
      {
        var was := if j < i then j else j + 1;
        assert c[j] == chain[was] && r[j] == refs[was];
      }
    }

    static lemma AllNamedCut(chains: seq<seq<Block<T>>>, ids: Table, keys: map<Ref, Key>, h: nat, i: nat)
      requires AllNamed(chains, ids, keys) && TableOk(ids, keys) && h < |chains| && i < |chains[h]|
      requires Hash(chains[h][i].key) == h
      ensures AllNamed(chains[h := Cut(chains[h], i)], StateDb.Delete(ids, ids[h][i], keys[ids[h][i]]), keys - {ids[h][i]})
    {
      var id := ids[h][i];
      assert id in ids[h];
      assert Names(chains[h], ids[h], keys) && Distinct(ids[h]);
      NamesCut(chains[h], ids[h], keys, i);
      forall b | 0 <= b < |chains| && b != h
        ensures Names(chains[b], ids[b], keys - {id})
      {
        assert Names(chains[b], ids[b], keys);
        assert id !in ids[b];
      }
    }

    static lemma CutDrops(chains: seq<seq<Block<T>>>, h: nat, i: nat, x: Block<T>)
      requires OnlyAt(chains, h, i, x)
      ensures x !in Cut(chains[h], i)
      ensures Shrinks(chains, chains[h := Cut(chains[h], i)], x)
    {
    }

    /** The second chains hold nothing that the first do not, and not this block. */
    ghost static predicate Shrinks(before: seq<seq<Block<T>>>, after: seq<seq<Block<T>>>, x: Block<T>) {
      && |after| == |before|
      && forall b: nat, y {:trigger y in after[b]} :: b < |after| && y in after[b] ==> y in before[b] && y != x
    }

    /** What unlinking one block needs and gives, apart from the pointers. */
    lemma DropKeepsTable(h: nat, i: nat)
      requires Wired() && TableOk(ids, keys) && h < HASH_SIZE && i < |chains[h]| && Hash(chains[h][i].key) == h
      ensures var x := chains[h][i];
              && x !in Cut(chains[h], i) && (i > 0 ==> OnlyAt(chains, h, i - 1, chains[h][i - 1]))
              && Shrinks(chains, chains[h := Cut(chains[h], i)], x)
              && AllNamed(chains[h := Cut(chains[h], i)], StateDb.Delete(ids, x.id, x.key), keys - {x.id})
    {
      var x := chains[h][i];
      PlacesAreUnique(h, i);
      CutDrops(chains, h, i, x);
      if i > 0 {
        PlacesAreUnique(h, i - 1);
      }
      assert Names(chains[h], ids[h], keys);
      AllNamedCut(chains, ids, keys, h, i);
    }

    /** The block, if it is in its chain, and the block before it. */
    method Locate(x: Block<T>) returns (curr: Block?<T>, prev: Block?<T>, ghost i: nat)
      requires Wired()
      ensures var chain := chains[Hash(x.key)];
              if x in chain then i < |chain| && chain[i] == x && curr == x && prev == (if i == 0 then null else chain[i - 1])
              else curr == null
    {
      var h := Hash(x.key);
      prev, curr, i := null, table[h], 0;
      assert Linked(table[h], chains[h]);
      while curr != null && curr != x
        invariant 0 <= i <= |chains[h]| && forall j :: 0 <= j < i ==> chains[h][j] != x
        invariant curr == if i < |chains[h]| then chains[h][i] else null
        invariant prev == if i == 0 then null else chains[h][i - 1]
        decreases |chains[h]| - i
      {
        assert curr.nextHash == if i + 1 < |chains[h]| then chains[h][i + 1] else null;
        prev := curr;
        curr := curr.nextHash;
        i := i + 1;
      }
    }

    method DropFromChain(h: nat, ghost i: nat, prev: Block?<T>, x: Block<T>, ghost left: Table, ghost leftKeys: map<Ref, Key>)
      requires Wired() && h < HASH_SIZE && i < |chains[h]| && x == chains[h][i]
      requires if i == 0 then prev == null else prev != null && OnlyAt(chains, h, i - 1, prev)
      requires AllNamed(chains[h := Cut(chains[h], i)], left, leftKeys)
      modifies this, table, blocks`nextHash
      ensures Wired() && blocks == old(blocks) && chains == old(chains)[h := Cut(old(chains)[h], i)]
      ensures ids == left && keys == leftKeys
    {
      ghost var before := chains;
      chains, ids, keys := before[h := Cut(before[h], i)], left, leftKeys;
      Unchain(table, h, i, prev, x, before, blocks);
    }

    /** Unlinks a block, if it is in its chain; the walk keeps the place the pointer to it is stored in. */
    method Delete(x: Block<T>)
      requires Wired() && TableOk(ids, keys)
      modifies this, table, blocks`nextHash
      ensures Wired() && blocks == old(blocks) && x !in chains[Hash(x.key)]
      ensures x in old(chains[Hash(x.key)]) ==> Shrinks(old(chains), chains, x)
      ensures if x in old(chains[Hash(x.key)]) then ids == StateDb.Delete(old(ids), x.id, x.key) && keys == old(keys) - {x.id}
              else ids == old(ids) && keys == old(keys)
    {
      var curr, prev, i := Locate(x);
      if curr == x {
        DropKeepsTable(Hash(x.key), i);
        DropFromChain(Hash(x.key), i, prev, x, StateDb.Delete(ids, x.id, x.key), keys - {x.id});
      }
    }
  }
}
