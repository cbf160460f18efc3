// Shutting down: tear down the first path of each bucket until the bucket is empty.
module Shutdown {
  import opened Common
  import opened StateDb
  import opened RsvpState
  import opened RsvpInvariant
  import opened RsvpRuns
  import LP = LabelPool

  lemma CleanupShrinks(s: State, p: Ref)
    requires Shaped(s) && p in s.psbs
    ensures PsbCleanup(s, p).psbs.Keys == s.psbs.Keys - {p} && |PsbCleanup(s, p).psbs| < |s.psbs|
  {
    var a := s.psbs[p].assocRsb;
    var t := if a.Some? && a.value in s.rsbs then RsbCleanup(s, a.value) else s;
    assert t.psbs.Keys == s.psbs.Keys;
    assert DeletePsb(t, p).psbs.Keys == s.psbs.Keys - {p};
    assert |s.psbs.Keys - {p}| == |s.psbs.Keys| - 1;
  }

  /** The state after the tear-down loop from a bucket on; each turn frees a path or leaves a bucket. */
  function ShutdownFrom(s: State, bucket: nat): State
    requires Shaped(s) && bucket <= HASH_SIZE
    decreases HASH_SIZE - bucket, |s.psbs|
  {
    if bucket == HASH_SIZE then s
    else if s.psbTable[bucket] == [] || s.psbTable[bucket][0] !in s.psbs then ShutdownFrom(s, bucket + 1)
    else
      CleanupShrinks(s, s.psbTable[bucket][0]);
      ShutdownFrom(PsbCleanup(s, s.psbTable[bucket][0]), bucket)
  }

  ghost predicate NoneBelow(s: State, bucket: nat) {
    forall p :: p in s.psbs ==> Hash(s.psbs[p].key) >= bucket
  }

  lemma EmptyBucket(s: State, bucket: nat)
    requires Inv(s) && bucket < HASH_SIZE && NoneBelow(s, bucket) && s.psbTable[bucket] == []
    ensures NoneBelow(s, bucket + 1)
  {
    forall p | p in s.psbs
      ensures Hash(s.psbs[p].key) != bucket
    {
      assert p in PsbKeys(s) && p in s.psbTable[Hash(PsbKeys(s)[p])];
    }
  }

  lemma HeadIsLive(s: State, bucket: nat)
    requires Inv(s) && bucket < HASH_SIZE && s.psbTable[bucket] != []
    ensures s.psbTable[bucket][0] in s.psbs
  {
    assert s.psbTable[bucket][0] in s.psbTable[bucket];
  }

  lemma {:induction false} ShutdownEmptiesPaths(s: State, bucket: nat)
    requires Inv(s) && bucket <= HASH_SIZE && NoneBelow(s, bucket)
    ensures Inv(ShutdownFrom(s, bucket)) && ShutdownFrom(s, bucket).psbs.Keys == {}
    decreases HASH_SIZE - bucket, |s.psbs|
  {
    if bucket < HASH_SIZE {
      if s.psbTable[bucket] == [] {
        EmptyBucket(s, bucket);
        ShutdownEmptiesPaths(s, bucket + 1);
      } else {
        var p := s.psbTable[bucket][0];
        HeadIsLive(s, bucket);
        CleanupShrinks(s, p);
        PsbCleanupKeepsInv(s, p);
        ShutdownEmptiesPaths(PsbCleanup(s, p), bucket);
      }
    }
  }

  lemma HeadIsMember(chain: seq<Ref>)
    ensures chain != [] ==> chain[0] in chain
  {
  }

  lemma NoBlocksNoChains(t: Table, keys: map<Ref, Key>)
    requires TableOk(t, keys) && keys.Keys == {}
    ensures forall b :: 0 <= b < HASH_SIZE ==> t[b] == []
  {
    forall b | 0 <= b < HASH_SIZE
      ensures t[b] == []
    {
      HeadIsMember(t[b]);
    }
  }

  lemma ReservationHasPath(s: State, r: Ref)
    requires Inv(s) && r in s.rsbs
    ensures s.psbs.Keys != {}
  {
    assert RsbLinked(s, r);
  }

  lemma NothingWithoutPaths(s: State)
    requires Inv(s) && s.psbs.Keys == {}
    ensures s.rsbs.Keys == {} && s.labels.used == {} && forall l :: InLabel(l) !in s.fwd
    ensures forall b :: 0 <= b < HASH_SIZE ==> s.psbTable[b] == [] && s.rsbTable[b] == []
  {
    if r :| r in s.rsbs {
      ReservationHasPath(s, r);
    }
    NoBlocksNoChains(s.psbTable, PsbKeys(s));
    NoBlocksNoChains(s.rsbTable, RsbKeys(s));
  }

  /**
   * From every reachable state the shutdown ends, with both tables empty, every label
   * free and no labelled forwarding entry left.
   */
  lemma ShutdownLeavesNothing(minLabel: nat, maxLabel: nat, run: seq<Event>)
    requires LP.Valid(LP.Fresh(minLabel, maxLabel))
    ensures var t := ShutdownFrom(After(Initial(minLabel, maxLabel), run), 0);
            && t.psbs.Keys == {} && t.rsbs.Keys == {}
            && Shaped(t) && (forall b :: 0 <= b < HASH_SIZE ==> t.psbTable[b] == [] && t.rsbTable[b] == [])
            && (forall l :: l !in t.labels.used) && (forall l :: InLabel(l) !in t.fwd)
  {
    InitialInv(minLabel, maxLabel);
    RunKeepsInv(Initial(minLabel, maxLabel), run);
    ShutdownEmptiesPaths(After(Initial(minLabel, maxLabel), run), 0);
    NothingWithoutPaths(ShutdownFrom(After(Initial(minLabel, maxLabel), run), 0));
  }
}
