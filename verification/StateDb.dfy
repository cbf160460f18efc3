// The state database: keys, their hash, and chained buckets of references.
//
// A table is a sequence of 1024 chains of references; `keys` gives the key of
// every live block.  Lookup returns the first block of the chain whose key
// matches, creation puts a block at the head of its chain.
module StateDb {
  import opened Common

  const HASH_SIZE: nat := 1024

  type Ref = nat
  type Addr = nat

  /** Session and sender of an LSP; tunnel and LSP ids in host byte order. */
  datatype Key = Key(dest: Addr, sessionRsvd: nat, tunnelId: nat, extTunnelId: nat,
                     src: Addr, senderRsvd: nat, lspId: nat)

  /** A 16-bit id in network byte order. */
  function Htons(id: nat): nat {
    id % 256 * 256 + id / 256 % 256
  }

  /** Polynomial hash over five fields, in 32-bit arithmetic. */
  function Hash(k: Key): (h: nat)
    ensures h < HASH_SIZE
  {
    var h1 := k.dest % UINT32;
    var h2 := (h1 * 31 + Htons(k.tunnelId)) % UINT32;
    var h3 := (h2 * 31 + k.extTunnelId) % UINT32;
    var h4 := (h3 * 31 + k.src) % UINT32;
    (h4 * 31 + Htons(k.lspId)) % UINT32 % HASH_SIZE
  }

  type Table = seq<seq<Ref>>

  ghost predicate Distinct(s: seq<Ref>) {
    forall i, j :: 0 <= i < j < |s| ==> s[i] != s[j]
  }

  /** A block comes before another one in a scan. */
  ghost predicate Before(walk: seq<Ref>, p: Ref, q: Ref) {
    exists i, j :: 0 <= i < j < |walk| && walk[i] == p && walk[j] == q
  }

  /** What comes before another block of the rest of a scan is its head or before it there. */
  lemma BeforeInRest(walk: seq<Ref>, p: Ref, q: Ref)
    requires walk != [] && Before(walk, p, q)
    ensures p == walk[0] || Before(walk[1..], p, q)
  {
    var i, j :| 0 <= i < j < |walk| && walk[i] == p && walk[j] == q;
    if i > 0 {
      assert walk[1..][i - 1] == p && walk[1..][j - 1] == q;
    }
  }

  lemma NothingBeforeHead(walk: seq<Ref>, p: Ref)
    requires walk != [] && Distinct(walk)
    ensures !Before(walk, p, walk[0])
  {
  }

  /** The chains hold exactly the live blocks, each once, in the bucket of its key. */
  ghost predicate TableOk(t: Table, keys: map<Ref, Key>) {
    && |t| == HASH_SIZE
    && (forall b: nat, r: Ref {:trigger r in t[b]} :: b < HASH_SIZE && r in t[b] ==> r in keys && Hash(keys[r]) == b)
    && (forall r: Ref :: r in keys ==> r in t[Hash(keys[r])])
    && (forall b: nat {:trigger Distinct(t[b])} :: b < HASH_SIZE ==> Distinct(t[b]))
  }

  ghost predicate UniqueKeys(keys: map<Ref, Key>) {
    forall r, q :: r in keys && q in keys && keys[r] == keys[q] ==> r == q
  }

  function FindIn(chain: seq<Ref>, keys: map<Ref, Key>, k: Key): Option<Ref> {
    if chain == [] then None
    else if chain[0] in keys && keys[chain[0]] == k then Some(chain[0])
    else FindIn(chain[1..], keys, k)
  }

  function Find(t: Table, keys: map<Ref, Key>, k: Key): Option<Ref>
    requires |t| == HASH_SIZE
  {
    FindIn(t[Hash(k)], keys, k)
  }

  /** The first block of a scan with the given tunnel and LSP ids, whatever its session. */
  function ScanIds(walk: seq<Ref>, keys: map<Ref, Key>, tunnelId: nat, lspId: nat): Option<Ref> {
    if walk == [] then None
    else if walk[0] in keys && keys[walk[0]].tunnelId == tunnelId && keys[walk[0]].lspId == lspId then Some(walk[0])
    else ScanIds(walk[1..], keys, tunnelId, lspId)
  }

  function Insert(t: Table, r: Ref, k: Key): Table
    requires |t| == HASH_SIZE
  {
    t[Hash(k) := [r] + t[Hash(k)]]
  }

  function Without(chain: seq<Ref>, r: Ref): seq<Ref> {
    if chain == [] then [] else if chain[0] == r then chain[1..] else [chain[0]] + Without(chain[1..], r)
  }

  function Delete(t: Table, r: Ref, k: Key): Table
    requires |t| == HASH_SIZE
  {
    t[Hash(k) := Without(t[Hash(k)], r)]
  }

  /** All references, bucket by bucket, each chain in order. */
  function Walk(t: Table): seq<Ref> {
    if t == [] then [] else Walk(t[..|t| - 1]) + t[|t| - 1]
  }

  lemma {:induction false} FindInFinds(chain: seq<Ref>, keys: map<Ref, Key>, k: Key)
    ensures match FindIn(chain, keys, k)
            case Some(r) => r in chain && r in keys && keys[r] == k
            case None => forall r :: r in chain && r in keys ==> keys[r] != k
    decreases |chain|
  {
    if chain != [] {
      FindInFinds(chain[1..], keys, k);
    }
  }

  /** Lookup agrees with the map from keys to live blocks. */
  lemma FindAgrees(t: Table, keys: map<Ref, Key>, k: Key)
    requires TableOk(t, keys)
    ensures match Find(t, keys, k)
            case Some(r) => r in keys && keys[r] == k
            case None => forall r :: r in keys ==> keys[r] != k
    ensures UniqueKeys(keys) ==> forall r :: r in keys && keys[r] == k ==> Find(t, keys, k) == Some(r)
  {
    FindInFinds(t[Hash(k)], keys, k);
  }

  /** Creation after a failed lookup keeps the table sound and the keys unique. */
  lemma InsertKeepsTable(t: Table, keys: map<Ref, Key>, r: Ref, k: Key)
    requires TableOk(t, keys) && r !in keys
    ensures TableOk(Insert(t, r, k), keys[r := k])
    ensures UniqueKeys(keys) && Find(t, keys, k) == None ==> UniqueKeys(keys[r := k])
  {
    FindAgrees(t, keys, k);
    var h := Hash(k);
    var u := Insert(t, r, k);
    assert r !in t[h];
    assert Distinct(t[h]);
    forall b: nat | b < HASH_SIZE
      ensures Distinct(u[b])
    {
      assert Distinct(t[b]);
    }
  }

  lemma {:induction false} WithoutDrops(chain: seq<Ref>, r: Ref)
    requires Distinct(chain)
    ensures Distinct(Without(chain, r))
    ensures forall q :: q in Without(chain, r) <==> q in chain && q != r
    ensures |Without(chain, r)| == if r in chain then |chain| - 1 else |chain|
    decreases |chain|
  {
    if chain != [] {
      WithoutDrops(chain[1..], r);
      assert chain[0] !in chain[1..];
      assert chain == [chain[0]] + chain[1..];
    }
  }

  /** Deletion removes exactly one block; every other block stays reachable. */
  lemma DeleteKeepsTable(t: Table, keys: map<Ref, Key>, r: Ref)
    requires TableOk(t, keys) && r in keys
    ensures TableOk(Delete(t, r, keys[r]), keys - {r})
    ensures UniqueKeys(keys) ==> UniqueKeys(keys - {r})
  {
    var h := Hash(keys[r]);
    var u := Delete(t, r, keys[r]);
    assert Distinct(t[h]);
    WithoutDrops(t[h], r);
    forall b: nat | b < HASH_SIZE
      ensures Distinct(u[b])
    {
      assert Distinct(t[b]);
    }
  }

  lemma {:induction false} WalkOfPrefix(t: Table, keys: map<Ref, Key>, n: nat)
    requires TableOk(t, keys) && n <= HASH_SIZE
    ensures Distinct(Walk(t[..n]))
    ensures forall r :: r in Walk(t[..n]) <==> r in keys && Hash(keys[r]) < n
  {
    if n > 0 {
      WalkOfPrefix(t, keys, n - 1);
      var front, last := Walk(t[..n - 1]), t[n - 1];
      assert t[..n][..n - 1] == t[..n - 1];
      assert Walk(t[..n]) == front + last;
      assert Distinct(last);
      forall i, j | 0 <= i < j < |front + last|
        ensures (front + last)[i] != (front + last)[j]
      {
        if i < |front| <= j {
          assert front[i] in front && last[j - |front|] in last;
        }
      }
    }
  }

  /** Walking all buckets visits every live block exactly once. */
  lemma WalkVisitsEachOnce(t: Table, keys: map<Ref, Key>)
    requires TableOk(t, keys)
    ensures Distinct(Walk(t))
    ensures forall r :: r in Walk(t) <==> r in keys
  {
    WalkOfPrefix(t, keys, HASH_SIZE);
    assert t[..HASH_SIZE] == t;
  }

  lemma {:induction false} WalkConcat(x: Table, y: Table)
    ensures Walk(x + y) == Walk(x) + Walk(y)
    decreases |y|
  {
    if y == [] {
      assert x + y == x;
    } else {
      WalkConcat(x, y[..|y| - 1]);
      assert (x + y)[..|x + y| - 1] == x + y[..|y| - 1];
    }
  }

  lemma WalkAround(t: Table, h: nat)
    requires h < |t|
    ensures Walk(t) == Walk(t[..h]) + t[h] + Walk(t[h + 1..])
  {
    WalkConcat(t[..h + 1], t[h + 1..]);
    assert t == t[..h + 1] + t[h + 1..];
    assert t[..h + 1][..h] == t[..h];
  }

  /** A new block is visited just before the older blocks of its bucket. */
  lemma WalkOfInsert(t: Table, r: Ref, k: Key)
    requires |t| == HASH_SIZE
    ensures var h := Hash(k);
            && Walk(t) == Walk(t[..h]) + t[h] + Walk(t[h + 1..])
            && Walk(Insert(t, r, k)) == Walk(t[..h]) + ([r] + t[h]) + Walk(t[h + 1..])
  {
    var h, u := Hash(k), Insert(t, r, k);
    WalkAround(t, h);
    WalkAround(u, h);
    assert u[..h] == t[..h];
    assert u[h + 1..] == t[h + 1..];
  }
}
