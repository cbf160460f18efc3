// The state machine in place: path and reservation blocks on the heap, chained into two
// tables of buckets, a label manager over its bitmap, and the forwarding entries.  Every
// handler reads and writes blocks at their addresses and walks the chains pointer by
// pointer; each is proved to take the daemon's state where its step function does.
module Daemon {
  import opened Common
  import opened StateDb
  import opened HashChains
  import opened BlockStore
  import opened RsvpState
  import opened RsvpSteps
  import opened RsvpRuns
  import RsvpInvariant
  import Shutdown
  import LP = LabelPool

  // ---- walking in two pieces -------------------------------------------

  lemma {:induction false} FirstReadyConcat(s: State, a: seq<Ref>, b: seq<Ref>, ifindex: nat)
    requires Shaped(s)
    ensures FirstReady(s, a + b, ifindex) ==
            if FirstReady(s, a, ifindex).Some? then FirstReady(s, a, ifindex) else FirstReady(s, b, ifindex)
    decreases |a|
  {
    if a == [] {
      assert a + b == b;
    } else {
      FirstReadyConcat(s, a[1..], b, ifindex);
      assert (a + b)[1..] == a[1..] + b;
    }
  }

  lemma {:induction false} FirstBypassConcat(s: State, a: seq<Ref>, b: seq<Ref>, tunnelId: nat)
    ensures FirstBypass(s, a + b, tunnelId) ==
            if FirstBypass(s, a, tunnelId).Some? then FirstBypass(s, a, tunnelId) else FirstBypass(s, b, tunnelId)
    decreases |a|
  {
    if a == [] {
      assert a + b == b;
    } else {
      FirstBypassConcat(s, a[1..], b, tunnelId);
      assert (a + b)[1..] == a[1..] + b;
    }
  }

  lemma {:induction false} AssociateInLast(s: State, a: seq<Ref>, p: Ref, ifindex: nat)
    requires Shaped(s)
    ensures AssociateIn(s, a + [p], ifindex) == AssociateOne(AssociateIn(s, a, ifindex), p, ifindex)
    decreases |a|
  {
    if a == [] {
      assert a + [p] == [p] && [p][1..] == [];
    } else {
      AssociateInLast(AssociateOne(s, a[0], ifindex), a[1..], p, ifindex);
      assert (a + [p])[1..] == a[1..] + [p];
    }
  }

  lemma {:induction false} TriggerInLast(s: State, a: seq<Ref>, p: Ref, ifindex: nat, routes: Ref -> int)
    requires Shaped(s)
    ensures TriggerIn(s, a + [p], ifindex, routes) == TriggerOne(TriggerIn(s, a, ifindex, routes), p, ifindex, routes)
    decreases |a|
  {
    if a == [] {
      assert a + [p] == [p] && [p][1..] == [];
    } else {
      TriggerInLast(TriggerOne(s, a[0], ifindex, routes), a[1..], p, ifindex, routes);
      assert (a + [p])[1..] == a[1..] + [p];
    }
  }

  lemma {:induction false} RevertInLast(s: State, a: seq<Ref>, p: Ref, ifindex: nat, routes: Ref -> int)
    requires Shaped(s)
    ensures RevertIn(s, a + [p], ifindex, routes) == RevertOne(RevertIn(s, a, ifindex, routes), p, ifindex, routes)
    decreases |a|
  {
    if a == [] {
      assert a + [p] == [p] && [p][1..] == [];
    } else {
      RevertInLast(RevertOne(s, a[0], ifindex, routes), a[1..], p, ifindex, routes);
      assert (a + [p])[1..] == a[1..] + [p];
    }
  }

  /** The blocks visited before a place in a bucket, that block included afterwards. */
  lemma WalkStep(t: Table, b: nat, j: nat)
    requires b < |t| && j < |t[b]|
    ensures Walk(t[..b]) + t[b][..j + 1] == Walk(t[..b]) + t[b][..j] + [t[b][j]]
  {
    assert t[b][..j + 1] == t[b][..j] + [t[b][j]];
  }

  lemma WalkBucket(t: Table, b: nat)
    requires b < |t|
    ensures Walk(t[..b + 1]) == Walk(t[..b]) + t[b] && t[b][..|t[b]|] == t[b]
  {
    assert t[..b + 1][..b] == t[..b];
  }

  lemma AllEmpty(t: Table)
    requires |t| == HASH_SIZE && forall b :: 0 <= b < HASH_SIZE ==> t[b] == []
    ensures t == EmptyTable()
  {
  }

  /** A place in a chain, or its end. */
  function At(chain: seq<Ref>, j: nat): Option<Ref> {
    if j < |chain| then Some(chain[j]) else None
  }

  /** The blocks visited up to a place in a bucket, and those still to come. */
  lemma FoundEarly(t: Table, b: nat, j: nat)
    requires b < |t| && j <= |t[b]|
    ensures Walk(t) == (Walk(t[..b]) + t[b][..j]) + (t[b][j..] + Walk(t[b + 1..]))
  {
    WalkAround(t, b);
    assert t[b] == t[b][..j] + t[b][j..];
  }

  /** A label manager and its bitmap, if it has one. */
  ghost function Manager(labels: LP.LabelManager): set<object>
    reads labels
  {
    {labels} + if labels.bitmap == null then {} else {labels.bitmap}
  }

  /** Each block holds its own key, and no address in use is handed out again. */
  ghost predicate PsbsKeyed(vals: map<Ref, Psb>, keys: map<Ref, Key>, next: Ref) {
    keys.Keys == vals.Keys && forall p :: p in vals ==> vals[p].key == keys[p] && p < next
  }

  ghost predicate RsbsKeyed(vals: map<Ref, Rsb>, keys: map<Ref, Key>, next: Ref) {
    keys.Keys == vals.Keys && forall r :: r in vals ==> vals[r].key == keys[r] && r < next
  }

  class Daemon {
    const paths: Store<Psb>
    const reservations: Store<Rsb>
    const labels: LP.LabelManager
    var bsbs: map<Key, Flowspec>
    var fwd: map<FwdKey, Entry>
    var nextRef: Ref
    var nextLspId: nat
    ghost var state: State
    ghost var Repr: set<object>

    /** The state that the heap spells out. */
    ghost function Snapshot(): State
      requires labels.Shaped()
      reads this, paths, paths.db, reservations, reservations.db, labels, labels.bitmap
    {
      State(paths.vals, paths.db.ids, reservations.vals, reservations.db.ids, bsbs, labels.Model(), fwd, nextRef, nextLspId)
    }

    ghost function Footprint(): set<object>
      reads paths, paths.db, reservations, reservations.db, labels
    {
      {this} + Manager(labels) + paths.Footprint() + reservations.Footprint()
    }

    /** The two tables, the label manager and the daemon itself share no object. */
    ghost predicate Separate()
      reads paths, paths.db, reservations, reservations.db, labels
    {
      && paths.Footprint() !! reservations.Footprint()
      && Manager(labels) !! paths.Footprint() + reservations.Footprint()
      && this !in Manager(labels) + paths.Footprint() + reservations.Footprint()
    }

    /** The objects the daemon is made of. */
    ghost predicate Owned()
      reads this, Repr
    {
      {this, paths, paths.db, reservations, reservations.db, labels} <= Repr && Repr == Footprint()
    }

    ghost predicate Valid()
      reads this, Repr
      ensures Valid() ==> this in Repr && Shaped(state)
    {
      && Owned()
      && paths.Valid() && reservations.Valid() && labels.Ready() && Separate() && state == Snapshot()
      && PsbsKeyed(paths.vals, paths.db.keys, nextRef) && RsbsKeyed(reservations.vals, reservations.db.keys, nextRef)
    }

    /** A daemon over empty tables and a label manager of its own. */
    constructor (paths: Store<Psb>, reservations: Store<Rsb>, labels: LP.LabelManager)
      requires paths.Valid() && reservations.Valid() && labels.Ready()
      requires paths.Footprint() !! reservations.Footprint() && Manager(labels) !! paths.Footprint() + reservations.Footprint()
      requires paths.vals == map[] && reservations.vals == map[] && paths.db.keys == map[] && reservations.db.keys == map[]
      ensures Valid() && Repr == {this} + Manager(labels) + paths.Footprint() + reservations.Footprint()
      ensures state == State(map[], paths.db.ids, map[], reservations.db.ids, map[], labels.Model(), map[], 0, 1)
    {
      hide Store.Valid;
      this.paths, this.reservations, this.labels := paths, reservations, labels;
      bsbs, fwd := map[], map[];
      nextRef, nextLspId := 0, 1;
      state := State(map[], paths.db.ids, map[], reservations.db.ids, map[], labels.Model(), map[], 0, 1);
      Repr := {this} + Manager(labels) + paths.Footprint() + reservations.Footprint();
    }

    // ---- blocks -----------------------------------------------------------

    method ReadPsb(p: Ref) returns (v: Option<Psb>)
      requires Valid()
      ensures v == if p in state.psbs then Some(state.psbs[p]) else None
    {
      v := paths.Read(p);
    }

    method ReadRsb(r: Ref) returns (v: Option<Rsb>)
      requires Valid()
      ensures v == if r in state.rsbs then Some(state.rsbs[r]) else None
    {
      v := reservations.Read(r);
    }

    /** Overwrites a path block; its key stays. */
    method WritePsb(p: Ref, v: Psb)
      requires Valid() && p in state.psbs && v.key == state.psbs[p].key
      modifies Repr
      ensures Valid() && fresh(Repr - old(Repr))
      ensures state == SetPsb(old(state), p, v)
    {
      hide Store.Valid, RsbsKeyed;
      state := SetPsb(state, p, v);
      paths.Write(p, v);
    }

    method WriteRsb(r: Ref, v: Rsb)
      requires Valid() && r in state.rsbs && v.key == state.rsbs[r].key
      modifies Repr
      ensures Valid() && fresh(Repr - old(Repr))
      ensures state == SetRsb(old(state), r, v)
    {
      hide Store.Valid, PsbsKeyed;
      state := SetRsb(state, r, v);
      reservations.Write(r, v);
    }

    /** A path block at a new address, at the head of its chain. */
    method CreatePsb(v: Psb) returns (p: Ref)
      requires Valid()
      modifies Repr
      ensures Valid() && fresh(Repr - old(Repr))
      ensures p == old(state).nextRef && state == AddPsb(old(state), v)
    {
      hide Store.Valid, Separate, PsbsKeyed, RsbsKeyed;
      p := nextRef;
      AddPath(p, v);
      nextRef := nextRef + 1;
      state, Repr := Snapshot(), Footprint();
    }

    method AddPath(p: Ref, v: Psb)
      requires Valid() && p == nextRef
      modifies paths, paths.db, paths.db.table
      ensures paths.Valid() && reservations.Valid() && labels.Ready() && Separate()
      ensures fresh(Footprint() - old(Footprint())) && paths.db.keys == old(paths.db.keys)[p := v.key]
      ensures PsbsKeyed(paths.vals, paths.db.keys, nextRef + 1)
      ensures RsbsKeyed(reservations.vals, reservations.db.keys, nextRef + 1)
      ensures Snapshot() == old(Snapshot()).(psbs := paths.vals, psbTable := paths.db.ids)
      ensures paths.vals == old(paths.vals)[p := v] && paths.db.ids == Insert(old(paths.db.ids), p, v.key)
    {
      hide Store.Valid;
      paths.Add(p, v.key, v);
    }

    method CreateRsb(v: Rsb) returns (r: Ref)
      requires Valid()
      modifies Repr
      ensures Valid() && fresh(Repr - old(Repr))
      ensures r == old(state).nextRef
      ensures var s := old(state);
              state == s.(rsbs := s.rsbs[r := v], rsbTable := Insert(s.rsbTable, r, v.key), nextRef := r + 1)
    {
      hide Store.Valid, Separate, PsbsKeyed, RsbsKeyed;
      r := nextRef;
      AddReservation(r, v);
      nextRef := nextRef + 1;
      state, Repr := Snapshot(), Footprint();
    }

    method AddReservation(r: Ref, v: Rsb)
      requires Valid() && r == nextRef
      modifies reservations, reservations.db, reservations.db.table
      ensures paths.Valid() && reservations.Valid() && labels.Ready() && Separate()
      ensures fresh(Footprint() - old(Footprint())) && reservations.db.keys == old(reservations.db.keys)[r := v.key]
      ensures PsbsKeyed(paths.vals, paths.db.keys, nextRef + 1)
      ensures RsbsKeyed(reservations.vals, reservations.db.keys, nextRef + 1)
      ensures Snapshot() == old(Snapshot()).(rsbs := reservations.vals, rsbTable := reservations.db.ids)
      ensures reservations.vals == old(reservations.vals)[r := v]
      ensures reservations.db.ids == Insert(old(reservations.db.ids), r, v.key)
    {
      hide Store.Valid;
      reservations.Add(r, v.key, v);
    }

    method FreePsb(p: Ref)
      requires Valid() && p in state.psbs
      modifies Repr
      ensures Valid() && fresh(Repr - old(Repr))
      ensures var s := old(state);
              state == s.(psbs := s.psbs - {p}, psbTable := Delete(s.psbTable, p, s.psbs[p].key))
    {
      hide Store.Valid, RsbsKeyed;
      state := state.(psbs := state.psbs - {p}, psbTable := Delete(state.psbTable, p, state.psbs[p].key));
      paths.Drop(p);
    }

    method FreeRsb(r: Ref)
      requires Valid() && r in state.rsbs
      modifies Repr
      ensures Valid() && fresh(Repr - old(Repr))
      ensures var s := old(state);
              state == s.(rsbs := s.rsbs - {r}, rsbTable := Delete(s.rsbTable, r, s.rsbs[r].key))
    {
      hide Store.Valid, PsbsKeyed;
      state := state.(rsbs := state.rsbs - {r}, rsbTable := Delete(state.rsbTable, r, state.rsbs[r].key));
      reservations.Drop(r);
    }

    // ---- lookup -----------------------------------------------------------

    method PsbFind(k: Key) returns (p: Option<Ref>)
      requires Valid()
      ensures p == FindPsb(state, k)
    {
      p := paths.FindKey(k);
      assert paths.db.keys == PsbKeys(state);
    }

    method RsbFind(k: Key) returns (r: Option<Ref>)
      requires Valid()
      ensures r == FindRsb(state, k)
    {
      r := reservations.FindKey(k);
      assert reservations.db.keys == RsbKeys(state);
    }

    method PsbFindById(tunnelId: nat, lspId: nat) returns (p: Option<Ref>)
      requires Valid()
      ensures p == FindById(state, tunnelId, lspId)
    {
      p := paths.FindIds(tunnelId, lspId);
      assert paths.db.keys == PsbKeys(state);
    }

    /** The head of a bucket of the path table. */
    method PsbFindByBucket(b: nat) returns (p: Option<Ref>)
      requires Valid() && b < HASH_SIZE
      ensures p == At(state.psbTable[b], 0)
    {
      p := paths.First(b);
    }

    /** The path after one in its chain. */
    method NextPsb(p: Ref, ghost b: nat, ghost j: nat) returns (next: Option<Ref>)
      requires Valid() && b < HASH_SIZE
      requires j < |state.psbTable[b]| && state.psbTable[b][j] == p
      ensures next == At(state.psbTable[b], j + 1)
    {
      next := paths.Next(p, b, j);
    }

    // ---- labels, forwarding, blockades, ids ------------------------------

    /** Gives a reservation a label from the bitmap unless it has one. */
    method AllocateLabel(r: Ref)
      requires Valid() && r in state.rsbs
      modifies Repr
      ensures Valid() && fresh(Repr - old(Repr))
      ensures state == GiveLabel(old(state), r)
    {
      hide Valid;
      var v := ReadRsb(r);
      if v.value.labelIn == 0 {
        var l := TakeLabel();
        if l != 0 {
          WriteRsb(r, v.value.(labelIn := l));
        }
      }
    }

    method TakeLabel() returns (l: nat)
      requires Valid()
      modifies Repr
      ensures Valid() && fresh(Repr - old(Repr))
      ensures old(state).labels.min <= old(state).labels.max
      ensures (state, l) == (old(state).(labels := LP.Alloc(old(state).labels).0), LP.Alloc(old(state).labels).1)
    {
      hide Store.Valid, LP.Alloc, PsbsKeyed, RsbsKeyed;
      state := state.(labels := LP.Alloc(state.labels).0);
      l := labels.AllocLabel();
    }

    method FreeLabel(l: nat)
      requires Valid()
      modifies Repr
      ensures Valid() && fresh(Repr - old(Repr))
      ensures var s := old(state); state == s.(labels := LP.Release(s.labels, l))
    {
      hide Store.Valid;
      LP.ReleaseKeepsHint(labels.Model(), l);
      state := state.(labels := LP.Release(state.labels, l));
      labels.FreeLabel(l);
    }

    method InstallEntry(k: FwdKey, e: Entry)
      requires Valid()
      modifies Repr
      ensures Valid() && fresh(Repr - old(Repr))
      ensures state == Install(old(state), k, e)
    {
      hide Store.Valid;
      fwd, state := fwd[k := e], Install(state, k, e);
    }

    method RemoveEntry(k: FwdKey)
      requires Valid()
      modifies Repr
      ensures Valid() && fresh(Repr - old(Repr))
      ensures state == Uninstall(old(state), k)
    {
      hide Store.Valid;
      fwd, state := fwd - {k}, Uninstall(state, k);
    }

    method SetBlockades(blockades: map<Key, Flowspec>)
      requires Valid()
      modifies Repr
      ensures Valid() && fresh(Repr - old(Repr))
      ensures state == old(state).(bsbs := blockades)
    {
      hide Store.Valid;
      bsbs, state := blockades, state.(bsbs := blockades);
    }

    method TakeLspId() returns (id: nat)
      requires Valid()
      modifies Repr
      ensures Valid() && fresh(Repr - old(Repr))
      ensures id == old(state).nextLspId && state == BumpLspId(old(state))
    {
      hide Store.Valid;
      id := nextLspId;
      nextLspId, state := (nextLspId + 1) % 65536, BumpLspId(state);
    }

    // ---- blocks that point at each other ---------------------------------

    /** Frees a path block; a reservation that points to it loses its pointer first. */
    method DeletePsb(p: Ref)
      requires Valid() && p in state.psbs
      modifies Repr
      ensures Valid() && fresh(Repr - old(Repr))
      ensures state == RsvpState.DeletePsb(old(state), p)
    {
      hide Valid;
      var v := ReadPsb(p);
      var a := v.value.assocRsb;
      if a.Some? {
        var w := ReadRsb(a.value);
        if w.Some? {
          WriteRsb(a.value, w.value.(assocPsb := None));
        }
      }
      FreePsb(p);
    }

    method DeleteRsb(r: Ref)
      requires Valid() && r in state.rsbs
      modifies Repr
      ensures Valid() && fresh(Repr - old(Repr))
      ensures state == RsvpState.DeleteRsb(old(state), r)
    {
      hide Valid;
      var v := ReadRsb(r);
      var a := v.value.assocPsb;
      if a.Some? {
        var w := ReadPsb(a.value);
        if w.Some? {
          WritePsb(a.value, w.value.(assocRsb := None));
        }
      }
      FreeRsb(r);
    }

    method CreateRsbFor(p: Ref, v: Rsb) returns (r: Ref)
      requires Valid() && p in state.psbs
      modifies Repr
      ensures Valid() && fresh(Repr - old(Repr))
      ensures r == old(state).nextRef && state == AddRsbFor(old(state), p, v)
    {
      hide Valid;
      r := CreateRsb(v.(assocPsb := Some(p)));
      var w := ReadPsb(p);
      WritePsb(p, w.value.(assocRsb := Some(r)));
    }

    // ---- sending, cleanup ------------------------------------------------

    method SendPathDownstream(p: Ref, route: int)
      requires Valid() && p in state.psbs
      modifies Repr
      ensures Valid() && fresh(Repr - old(Repr))
      ensures state == SendPath(old(state), p, route)
    {
      hide Valid;
      if route >= 0 {
        var v := ReadPsb(p);
        WritePsb(p, v.value.(ifindexOut := route));
      }
    }

    method CleanupResources(r: Ref)
      requires Valid() && r in state.rsbs
      modifies Repr
      ensures Valid() && fresh(Repr - old(Repr))
      ensures state == ReleaseResources(old(state), r)
    {
      hide Valid;
      var v := ReadRsb(r);
      var psb := None;
      if v.value.assocPsb.Some? {
        psb := ReadPsb(v.value.assocPsb.value);
      }
      if v.value.labelIn != 0 {
        RemoveEntry(InLabel(v.value.labelIn));
        FreeLabel(v.value.labelIn);
      } else if psb.Some? && psb.value.isIngress {
        RemoveEntry(ToDest(psb.value.key.dest));
      }
      WriteRsb(r, v.value.(labelIn := 0, cleanupArmed := false, refreshArmed := false));
    }

    method CleanupRsb(r: Ref)
      requires Valid() && r in state.rsbs
      modifies Repr
      ensures Valid() && fresh(Repr - old(Repr))
      ensures state == RsbCleanup(old(state), r)
    {
      hide Valid;
      CleanupResources(r);
      DeleteRsb(r);
    }

    /** Tears a path down with the reservation it points to. */
    method CleanupPsb(p: Ref)
      requires Valid() && p in state.psbs
      modifies Repr
      ensures Valid() && fresh(Repr - old(Repr))
      ensures state == PsbCleanup(old(state), p)
    {
      hide Valid;
      var v := ReadPsb(p);
      var a := v.value.assocRsb;
      if a.Some? {
        var w := ReadRsb(a.value);
        if w.Some? {
          CleanupRsb(a.value);
        }
      }
      v := ReadPsb(p);
      if v.Some? {
        DeletePsb(p);
      }
    }

    // ---- protection by a bypass tunnel -----------------------------------

    /** The reservation of a path's key, if it has a label from downstream. */
    method LabelledRsb(k: Key) returns (v: Option<Rsb>)
      requires Valid()
      ensures v.Some? <==> HasLabelOut(state, k)
      ensures v.Some? ==> v.value == state.rsbs[FindRsb(state, k).value]
    {
      hide Valid;
      v := None;
      var r := RsbFind(k);
      if r.Some? {
        v := ReadRsb(r.value);
        if v.Some? && v.value.labelOut == 0 {
          v := None;
        }
      }
    }

    method IsReadyBypass(c: Ref, ifindex: nat) returns (ready: bool)
      requires Valid()
      ensures ready == ReadyBypass(state, c, ifindex)
    {
      hide Valid;
      ready := false;
      var v := ReadPsb(c);
      if v.Some? && v.value.isBypass && v.value.protectedIf == ifindex {
        var r := LabelledRsb(v.value.key);
        ready := r.Some?;
      }
    }

    method FindReadyBypass(ifindex: nat) returns (c: Option<Ref>)
      requires Valid()
      ensures c == FirstReady(state, Walk(state.psbTable), ifindex)
    {
      hide Valid;
      ghost var s, t := state, state.psbTable;
      for b := 0 to HASH_SIZE
        invariant FirstReady(s, Walk(t[..b]), ifindex) == None
      {
        ghost var j := 0;
        assert Walk(t[..b]) + t[b][..0] == Walk(t[..b]);
        c := PsbFindByBucket(b);
        while c.Some?
          invariant j <= |t[b]| && c == At(t[b], j)
          invariant FirstReady(s, Walk(t[..b]) + t[b][..j], ifindex) == None
          decreases |t[b]| - j
        {
          WalkStep(t, b, j);
          FirstReadyConcat(s, Walk(t[..b]) + t[b][..j], [t[b][j]], ifindex);
          var ready := IsReadyBypass(c.value, ifindex);
          if ready {
            FoundEarly(t, b, j + 1);
            FirstReadyConcat(s, Walk(t[..b]) + t[b][..j + 1], t[b][j + 1..] + Walk(t[b + 1..]), ifindex);
            return;
          }
          c := NextPsb(c.value, b, j);
          j := j + 1;
        }
        WalkBucket(t, b);
      }
      assert t[..HASH_SIZE] == t;
      c := None;
    }

    method FrrAutoAssociate(p: Ref)
      requires Valid() && p in state.psbs
      modifies Repr
      ensures Valid() && fresh(Repr - old(Repr))
      ensures state == AutoAssociate(old(state), p)
    {
      hide Valid;
      var v := ReadPsb(p);
      if WantsBypass(v.value) && v.value.ifindexOut != 0 {
        var c := FindReadyBypass(v.value.ifindexOut);
        if c.Some? {
          var w := ReadPsb(c.value);
          WritePsb(p, v.value.(bypassPsb := c, bypassTunnelId := if w.Some? then w.value.key.tunnelId else 0));
        }
      }
    }

    /** One path of the scan made when a bypass comes up. */
    method AssociateWaiting(p: Ref, ifindex: nat)
      requires Valid()
      modifies Repr
      ensures Valid() && fresh(Repr - old(Repr))
      ensures state == AssociateOne(old(state), p, ifindex) && state.psbTable == old(state).psbTable
    {
      hide Valid;
      var v := ReadPsb(p);
      if v.Some? && WantsBypass(v.value) && v.value.ifindexOut == ifindex {
        FrrAutoAssociate(p);
      }
    }

    method FrrAutoAssociateAll(ifindex: nat)
      requires Valid()
      modifies Repr
      ensures Valid() && fresh(Repr - old(Repr))
      ensures state == AutoAssociateAll(old(state), ifindex)
    {
      hide Valid;
      ghost var s, t := state, state.psbTable;
      for b := 0 to HASH_SIZE
        invariant Valid() && fresh(Repr - old(Repr))
        invariant state == AssociateIn(s, Walk(t[..b]), ifindex) && state.psbTable == t
      {
        ghost var j := 0;
        assert Walk(t[..b]) + t[b][..0] == Walk(t[..b]);
        var c := PsbFindByBucket(b);
        while c.Some?
          invariant Valid() && fresh(Repr - old(Repr)) && j <= |t[b]| && c == At(t[b], j)
          invariant state == AssociateIn(s, Walk(t[..b]) + t[b][..j], ifindex) && state.psbTable == t
          decreases |t[b]| - j
        {
          WalkStep(t, b, j);
          AssociateInLast(s, Walk(t[..b]) + t[b][..j], c.value, ifindex);
          AssociateWaiting(c.value, ifindex);
          c := NextPsb(c.value, b, j);
          j := j + 1;
        }
        WalkBucket(t, b);
      }
      assert t[..HASH_SIZE] == t;
    }

    // ---- PATH -------------------------------------------------------------

    method PathAtEgress(p: Ref, rsbAlloc: bool)
      requires Valid() && p in state.psbs
      modifies Repr
      ensures Valid() && fresh(Repr - old(Repr))
      ensures state == PathEgress(old(state), p, rsbAlloc)
    {
      hide Valid;
      var v := ReadPsb(p);
      var found := RsbFind(v.value.key);
      if found.None? {
        if rsbAlloc {
          var r := CreateRsbFor(p, NewRsb(v.value.key).(refreshMs := v.value.refreshMs, refreshArmed := true));
          AllocateLabel(r);
        }
      } else {
        var w := ReadRsb(found.value);
        if w.Some? {
          WriteRsb(found.value, w.value.(refreshMs := v.value.refreshMs));
        }
      }
    }

    method PathInTransit(p: Ref, isNew: bool, e: PathEnv)
      requires Valid() && p in state.psbs
      modifies Repr
      ensures Valid() && fresh(Repr - old(Repr))
      ensures state == PathTransit(old(state), p, isNew, e)
    {
      hide Valid;
      if e.srcLocal {
        return;
      }
      if e.route < 0 {
        if isNew {
          DeletePsb(p);
        }
        return;
      }
      SendPathDownstream(p, e.sendRoute);
      var v := ReadPsb(p);
      if WantsBypass(v.value) {
        FrrAutoAssociate(p);
      }
    }

    method HandlePathMessage(m: PathMsg, e: PathEnv)
      requires Valid()
      modifies Repr
      ensures Valid() && fresh(Repr - old(Repr))
      ensures state == HandlePath(old(state), m, e)
    {
      hide Valid, PathEgress, PathTransit, FindPsb;
      var found := PsbFind(m.key);
      if m.hop.None? || !m.hasSender || (!m.labelRequest && found.None?) {
        return;
      }
      var p: Ref;
      if found.None? {
        if !e.psbAlloc {
          return;
        }
        p := CreatePsb(NewPsb(m.key).(refreshMs := DEFAULT_REFRESH_MS));
      } else {
        p := found.value;
      }
      var v := ReadPsb(p);
      if v.None? {
        return;
      }
      WritePsb(p, AbsorbPath(v.value, m));
      if e.destLocal {
        PathAtEgress(p, e.rsbAlloc);
      } else {
        PathInTransit(p, found.None?, e);
      }
    }

    // ---- RESV -------------------------------------------------------------

    /** Takes down the path that a replacement was set up for, and ends the replacement. */
    method CompleteMbb(n: Ref)
      requires Valid() && n in state.psbs
      modifies Repr
      ensures Valid() && fresh(Repr - old(Repr))
      ensures state == MbbComplete(old(state), n)
    {
      hide Valid, PsbCleanup, FindById;
      var v := ReadPsb(n);
      var prior := PsbFindById(v.value.key.tunnelId, v.value.mbbOldLspId);
      if prior.Some? {
        var o := ReadPsb(prior.value);
        if o.Some? {
          CleanupPsb(prior.value);
        }
      }
      v := ReadPsb(n);
      if v.Some? {
        WritePsb(n, v.value.(mbbPending := false, mbbOldLspId := 0));
      }
    }

    /** Programs forwarding; true when a transit node has no in-label to give. */
    method InstallForwarding(r: Ref, p: Ref) returns (failed: bool)
      requires Valid() && r in state.rsbs && p in state.psbs
      modifies Repr
      ensures Valid() && fresh(Repr - old(Repr))
      ensures state == ProgramForwarding(old(state), r, p)
      ensures failed == (state.psbs[p].prevHop != 0 && state.rsbs[r].labelIn == 0)
    {
      hide Valid;
      failed := false;
      var v := ReadPsb(p);
      if v.value.prevHop != 0 {
        AllocateLabel(r);
        var w := ReadRsb(r);
        if w.value.labelIn == 0 {
          failed := true;
        } else {
          InstallEntry(InLabel(w.value.labelIn), Primary(w.value));
        }
      } else {
        var w := ReadRsb(r);
        InstallEntry(ToDest(v.value.key.dest), Primary(w.value));
      }
    }

    /** Arms the LSPs that wait for a bypass, and completes a replacement. */
    method FollowUp(p: Ref, isNew: bool, labelChanged: bool)
      requires Valid() && p in state.psbs
      modifies Repr
      ensures Valid() && fresh(Repr - old(Repr))
      ensures state == AfterForwarding(old(state), p, isNew, labelChanged)
    {
      hide Valid;
      var v := ReadPsb(p);
      if v.value.isBypass && (isNew || labelChanged) {
        FrrAutoAssociateAll(v.value.protectedIf);
      }
      v := ReadPsb(p);
      if isNew && v.Some? && v.value.mbbPending {
        CompleteMbb(p);
      }
    }

    method ReprogramReservation(r: Ref, p: Ref, isNew: bool, labelChanged: bool)
      requires Valid() && r in state.rsbs && p in state.psbs
      modifies Repr
      ensures Valid() && fresh(Repr - old(Repr))
      ensures state == Reprogram(old(state), r, p, isNew, labelChanged)
    {
      hide Valid;
      var failed := InstallForwarding(r, p);
      if failed {
        if isNew {
          CleanupRsb(r);
        }
        return;
      }
      FollowUp(p, isNew, labelChanged);
    }

    method AcceptReservation(r: Ref, isNew: bool, m: ResvMsg)
      requires Valid() && r in state.rsbs && m.hop.Some? && m.labelOut.Some?
      modifies Repr
      ensures Valid() && fresh(Repr - old(Repr))
      ensures state == AcceptResv(old(state), r, isNew, m)
    {
      hide Valid;
      var v := ReadRsb(r);
      var psb := None;
      if v.value.assocPsb.Some? {
        psb := ReadPsb(v.value.assocPsb.value);
      }
      var isIngress := psb.Some? && psb.value.isIngress;
      var w := v.value.(cleanupArmed := true, refreshArmed := !isIngress,
                        labelOut := m.labelOut.value, nextHop := m.hop.value.addr, nextIf := m.hop.value.ifindex);
      WriteRsb(r, w);
      if psb.Some? {
        var labelChanged := w.labelOut != v.value.labelOut;
        if isNew || labelChanged || w.nextHop != v.value.nextHop {
          ReprogramReservation(r, v.value.assocPsb.value, isNew, labelChanged);
        } else if psb.value.prevHop != 0 && !isIngress {
          AllocateLabel(r);
        }
      }
    }

    method IsBlockaded(r: Ref) returns (blockaded: bool)
      requires Valid() && r in state.rsbs
      ensures blockaded == Blockaded(state, r)
    {
      var v := ReadRsb(r);
      blockaded := v.value.key in bsbs && AtLeast(v.value.flowspec, bsbs[v.value.key]);
    }

    method HandleResvMessage(m: ResvMsg, rsbAlloc: bool)
      requires Valid()
      modifies Repr
      ensures Valid() && fresh(Repr - old(Repr))
      ensures state == HandleResv(old(state), m, rsbAlloc)
    {
      hide Valid, AcceptResv, RsvpState.DeleteRsb, FindRsb, FindPsb;
      var psb := PsbFind(m.key);
      var rsb := RsbFind(m.key);
      if psb.None? || m.hop.None? || m.labelOut.None? {
        return;
      }
      var v := ReadPsb(psb.value);
      if v.None? {
        return;
      }
      var r: Ref;
      if rsb.None? {
        if !rsbAlloc {
          return;
        }
        r := CreateRsbFor(psb.value, NewRsb(m.key).(refreshMs := v.value.refreshMs));
      } else {
        r := rsb.value;
      }
      var w := ReadRsb(r);
      if w.None? {
        return;
      }
      WriteRsb(r, AbsorbResv(w.value, m));
      var blockaded := IsBlockaded(r);
      if blockaded {
        if rsb.None? {
          DeleteRsb(r);
        }
        return;
      }
      AcceptReservation(r, rsb.None?, m);
    }

    // ---- tears, errors, timers -------------------------------------------

    method EndBlockade(k: Key)
      requires Valid()
      modifies Repr
      ensures Valid() && fresh(Repr - old(Repr))
      ensures state == old(state).(bsbs := old(state).bsbs - {k})
    {
      SetBlockades(bsbs - {k});
    }

    method HandlePathTearMessage(k: Key)
      requires Valid()
      modifies Repr
      ensures Valid() && fresh(Repr - old(Repr))
      ensures state == HandlePathTear(old(state), k)
    {
      hide Valid;
      var p := PsbFind(k);
      if p.Some? {
        var v := ReadPsb(p.value);
        if v.Some? {
          CleanupPsb(p.value);
        }
      }
      EndBlockade(k);
    }

    method HandleResvTearMessage(k: Key)
      requires Valid()
      modifies Repr
      ensures Valid() && fresh(Repr - old(Repr))
      ensures state == HandleResvTear(old(state), k)
    {
      hide Valid;
      var r := RsbFind(k);
      if r.Some? {
        var v := ReadRsb(r.value);
        if v.Some? {
          CleanupRsb(r.value);
        }
      }
      EndBlockade(k);
    }

    method HandleResvErrMessage(k: Key, failed: Option<Flowspec>, bsbAlloc: bool)
      requires Valid()
      modifies Repr
      ensures Valid() && fresh(Repr - old(Repr))
      ensures state == HandleResvErr(old(state), k, failed, bsbAlloc)
    {
      if failed.Some? && (k in bsbs || bsbAlloc) {
        SetBlockades(bsbs[k := failed.value]);
      }
    }

    method PsbRefreshCallback(p: Ref, destLocal: bool, route: int)
      requires Valid()
      modifies Repr
      ensures Valid() && fresh(Repr - old(Repr))
      ensures state == PsbRefreshTimer(old(state), p, destLocal, route)
    {
      hide Valid;
      var v := ReadPsb(p);
      if v.Some? && v.value.refreshArmed && (v.value.isIngress || !destLocal) {
        SendPathDownstream(p, route);
      }
    }

    method PsbCleanupCallback(p: Ref)
      requires Valid()
      modifies Repr
      ensures Valid() && fresh(Repr - old(Repr))
      ensures state == PsbCleanupTimer(old(state), p)
    {
      hide Valid;
      var v := ReadPsb(p);
      if v.Some? && v.value.cleanupArmed {
        CleanupPsb(p);
      }
    }

    method RsbRefreshCallback(r: Ref)
      requires Valid()
      modifies Repr
      ensures Valid() && fresh(Repr - old(Repr))
      ensures state == RsbRefreshTimer(old(state), r)
    {
      hide Valid;
      var v := ReadRsb(r);
      if v.Some? && v.value.refreshArmed && v.value.assocPsb.Some? {
        var w := ReadPsb(v.value.assocPsb.value);
        if w.Some? && w.value.prevHop != 0 && !w.value.isIngress {
          AllocateLabel(r);
        }
      }
    }

    method RsbCleanupCallback(r: Ref)
      requires Valid()
      modifies Repr
      ensures Valid() && fresh(Repr - old(Repr))
      ensures state == RsbCleanupTimer(old(state), r)
    {
      hide Valid;
      var v := ReadRsb(r);
      if v.Some? && v.value.cleanupArmed {
        CleanupRsb(r);
      }
    }

    // ---- operator calls ---------------------------------------------------

    method InitiatePath(src: Addr, dest: Addr, tunnelId: nat, frr: bool, alloc: bool, route: int)
      requires Valid()
      modifies Repr
      ensures Valid() && fresh(Repr - old(Repr))
      ensures state == RsvpSteps.InitiatePath(old(state), src, dest, tunnelId, frr, alloc, route)
    {
      hide Valid;
      var id := TakeLspId();
      var k := Key(dest, 0, tunnelId, src, src, 0, id);
      var found := PsbFind(k);
      if found.Some? {
        var v := ReadPsb(found.value);
        if v.Some? {
          SendPathDownstream(found.value, route);
        }
      } else if alloc {
        var p := CreatePsb(NewPsb(k).(refreshMs := DEFAULT_REFRESH_MS, isIngress := true, refreshArmed := true,
                                      frrMode := if frr then Facility else NoFrr));
        SendPathDownstream(p, route);
      }
    }

    method InitiateBypassTunnel(src: Addr, dest: Addr, tunnelId: nat, protectedIf: nat, alloc: bool, route: int)
      requires Valid()
      modifies Repr
      ensures Valid() && fresh(Repr - old(Repr))
      ensures state == InitiateBypass(old(state), src, dest, tunnelId, protectedIf, alloc, route)
    {
      hide Valid;
      var id := TakeLspId();
      var k := Key(dest, 0, tunnelId, src, src, 0, id);
      var found := PsbFind(k);
      if found.None? && alloc {
        var p := CreatePsb(NewPsb(k).(refreshMs := DEFAULT_REFRESH_MS, isIngress := true, refreshArmed := true,
                                      isBypass := true, protectedIf := protectedIf));
        SendPathDownstream(p, route);
      }
    }

    method FindBypass(tunnelId: nat) returns (c: Option<Ref>)
      requires Valid()
      ensures c == FirstBypass(state, Walk(state.psbTable), tunnelId)
    {
      hide Valid;
      ghost var s, t := state, state.psbTable;
      for b := 0 to HASH_SIZE
        invariant FirstBypass(s, Walk(t[..b]), tunnelId) == None
      {
        ghost var j := 0;
        assert Walk(t[..b]) + t[b][..0] == Walk(t[..b]);
        c := PsbFindByBucket(b);
        while c.Some?
          invariant j <= |t[b]| && c == At(t[b], j)
          invariant FirstBypass(s, Walk(t[..b]) + t[b][..j], tunnelId) == None
          decreases |t[b]| - j
        {
          WalkStep(t, b, j);
          FirstBypassConcat(s, Walk(t[..b]) + t[b][..j], [t[b][j]], tunnelId);
          var v := ReadPsb(c.value);
          if v.Some? && v.value.key.tunnelId == tunnelId && v.value.isBypass {
            FoundEarly(t, b, j + 1);
            FirstBypassConcat(s, Walk(t[..b]) + t[b][..j + 1], t[b][j + 1..] + Walk(t[b + 1..]), tunnelId);
            return;
          }
          c := NextPsb(c.value, b, j);
          j := j + 1;
        }
        WalkBucket(t, b);
      }
      assert t[..HASH_SIZE] == t;
      c := None;
    }

    method FrrEnableProtection(tunnelId: nat, lspId: nat, mode: FrrMode, bypassTunnelId: nat)
      requires Valid()
      modifies Repr
      ensures Valid() && fresh(Repr - old(Repr))
      ensures state == EnableProtection(old(state), tunnelId, lspId, mode, bypassTunnelId)
    {
      hide Valid;
      var p := PsbFindById(tunnelId, lspId);
      if p.None? {
        return;
      }
      var v := ReadPsb(p.value);
      var c := FindBypass(bypassTunnelId);
      if v.None? || c.None? {
        return;
      }
      var w := ReadPsb(c.value);
      if w.Some? {
        var r := LabelledRsb(w.value.key);
        if r.Some? {
          WritePsb(p.value, v.value.(frrMode := mode, bypassTunnelId := bypassTunnelId, bypassPsb := c));
        }
      }
    }

    method TeardownPath(tunnelId: nat, lspId: nat)
      requires Valid()
      modifies Repr
      ensures Valid() && fresh(Repr - old(Repr))
      ensures state == Teardown(old(state), tunnelId, lspId)
    {
      hide Valid;
      var p := PsbFindById(tunnelId, lspId);
      if p.Some? {
        var v := ReadPsb(p.value);
        if v.Some? {
          CleanupPsb(p.value);
        }
      }
    }

    method StartMbb(tunnelId: nat, oldLspId: nat, newLspId: nat, alloc: bool, route: int)
      requires Valid()
      modifies Repr
      ensures Valid() && fresh(Repr - old(Repr))
      ensures state == MbbStart(old(state), tunnelId, oldLspId, newLspId, alloc, route)
    {
      hide Valid;
      var prior := PsbFindById(tunnelId, oldLspId);
      if prior.None? {
        return;
      }
      var v := ReadPsb(prior.value);
      if v.None? || !v.value.isIngress {
        return;
      }
      var o := v.value;
      var k := o.key.(lspId := newLspId);
      var found := PsbFind(k);
      if found.None? && alloc {
        var p := CreatePsb(NewPsb(k).(refreshMs := o.refreshMs, isIngress := true, frrMode := o.frrMode, refreshArmed := true,
                                      mbbPending := true, mbbOldLspId := oldLspId));
        SendPathDownstream(p, route);
      }
    }

    // ---- fast reroute -----------------------------------------------------

    method SwitchToBypass(p: Ref, ifindex: nat, routes: Ref -> int)
      requires Valid()
      modifies Repr
      ensures Valid() && fresh(Repr - old(Repr))
      ensures state == TriggerOne(old(state), p, ifindex, routes) && state.psbTable == old(state).psbTable
    {
      hide Valid;
      var v := ReadPsb(p);
      if v.None? || v.value.ifindexOut != ifindex || v.value.frrMode != Facility || v.value.frrActive || v.value.isBypass
         || v.value.bypassPsb.None? {
        return;
      }
      var b := ReadPsb(v.value.bypassPsb.value);
      if b.None? {
        return;
      }
      var bypass := LabelledRsb(b.value.key);
      if bypass.None? {
        return;
      }
      Redirect(v.value, bypass.value);
      WritePsb(p, v.value.(frrActive := true, ifindexOut := b.value.ifindexOut));
      SendPathDownstream(p, routes(p));
    }

    /** Sends the traffic of a path's reservation, if it has one, over a bypass. */
    method Redirect(v: Psb, bypass: Rsb)
      requires Valid()
      modifies Repr
      ensures Valid() && fresh(Repr - old(Repr))
      ensures var s := old(state);
              var r := FindRsb(s, v.key);
              state == if r.Some? && r.value in s.rsbs
                            then Install(s, FwdKeyFor(s.rsbs[r.value].labelIn, v.key.dest), BypassEntry(bypass, v.key.dest)) else s
    {
      hide Valid;
      var r := RsbFind(v.key);
      if r.Some? {
        var w := ReadRsb(r.value);
        if w.Some? {
          InstallEntry(FwdKeyFor(w.value.labelIn, v.key.dest), BypassEntry(bypass, v.key.dest));
        }
      }
    }

    method FrrTrigger(ifindex: nat, routes: Ref -> int)
      requires Valid()
      modifies Repr
      ensures Valid() && fresh(Repr - old(Repr))
      ensures state == Trigger(old(state), ifindex, routes)
    {
      hide Valid;
      ghost var s, t := state, state.psbTable;
      for b := 0 to HASH_SIZE
        invariant Valid() && fresh(Repr - old(Repr))
        invariant state == TriggerIn(s, Walk(t[..b]), ifindex, routes) && state.psbTable == t
      {
        ghost var j := 0;
        assert Walk(t[..b]) + t[b][..0] == Walk(t[..b]);
        var c := PsbFindByBucket(b);
        while c.Some?
          invariant Valid() && fresh(Repr - old(Repr)) && j <= |t[b]| && c == At(t[b], j)
          invariant state == TriggerIn(s, Walk(t[..b]) + t[b][..j], ifindex, routes) && state.psbTable == t
          decreases |t[b]| - j
        {
          WalkStep(t, b, j);
          TriggerInLast(s, Walk(t[..b]) + t[b][..j], c.value, ifindex, routes);
          var next := NextPsb(c.value, b, j);
          SwitchToBypass(c.value, ifindex, routes);
          c, j := next, j + 1;
        }
        WalkBucket(t, b);
      }
      assert t[..HASH_SIZE] == t;
    }

    method SwitchBack(p: Ref, ifindex: nat, routes: Ref -> int)
      requires Valid()
      modifies Repr
      ensures Valid() && fresh(Repr - old(Repr))
      ensures state == RevertOne(old(state), p, ifindex, routes) && state.psbTable == old(state).psbTable
    {
      hide Valid;
      var v := ReadPsb(p);
      if v.None? || !v.value.frrActive || v.value.bypassPsb.None? {
        return;
      }
      var b := ReadPsb(v.value.bypassPsb.value);
      if b.None? || b.value.protectedIf != ifindex {
        return;
      }
      var r := RsbFind(v.value.key);
      if r.Some? {
        var w := ReadRsb(r.value);
        if w.Some? {
          InstallEntry(FwdKeyFor(w.value.labelIn, v.value.key.dest), Primary(w.value));
          WritePsb(p, v.value.(frrActive := false, ifindexOut := ifindex));
          SendPathDownstream(p, routes(p));
        }
      }
    }

    method FrrRevert(ifindex: nat, routes: Ref -> int)
      requires Valid()
      modifies Repr
      ensures Valid() && fresh(Repr - old(Repr))
      ensures state == Revert(old(state), ifindex, routes)
    {
      hide Valid;
      ghost var s, t := state, state.psbTable;
      for b := 0 to HASH_SIZE
        invariant Valid() && fresh(Repr - old(Repr))
        invariant state == RevertIn(s, Walk(t[..b]), ifindex, routes) && state.psbTable == t
      {
        ghost var j := 0;
        assert Walk(t[..b]) + t[b][..0] == Walk(t[..b]);
        var c := PsbFindByBucket(b);
        while c.Some?
          invariant Valid() && fresh(Repr - old(Repr)) && j <= |t[b]| && c == At(t[b], j)
          invariant state == RevertIn(s, Walk(t[..b]) + t[b][..j], ifindex, routes) && state.psbTable == t
          decreases |t[b]| - j
        {
          WalkStep(t, b, j);
          RevertInLast(s, Walk(t[..b]) + t[b][..j], c.value, ifindex, routes);
          var next := NextPsb(c.value, b, j);
          SwitchBack(c.value, ifindex, routes);
          c, j := next, j + 1;
        }
        WalkBucket(t, b);
      }
      assert t[..HASH_SIZE] == t;
    }

    // ---- dispatch, shutdown -----------------------------------------------

    method HandleMessage(e: Event)
      requires Valid() && IsMessage(e)
      modifies Repr
      ensures Valid() && fresh(Repr - old(Repr))
      ensures state == Step(old(state), e)
    {
      hide Valid, HandlePath, HandleResv, HandlePathTear, HandleResvTear, HandleResvErr;
      match e {
        case PathArrives(m, env) => HandlePathMessage(m, env);
        case ResvArrives(m, rsbAlloc) => HandleResvMessage(m, rsbAlloc);
        case PathTearArrives(k) => HandlePathTearMessage(k);
        case ResvTearArrives(k) => HandleResvTearMessage(k);
        case ResvErrArrives(k, failed, bsbAlloc) => HandleResvErrMessage(k, failed, bsbAlloc);
      }
    }

    method HandleTimer(e: Event)
      requires Valid() && IsTimer(e)
      modifies Repr
      ensures Valid() && fresh(Repr - old(Repr))
      ensures state == Step(old(state), e)
    {
      hide Valid, PsbRefreshTimer, PsbCleanupTimer, RsbRefreshTimer, RsbCleanupTimer;
      match e {
        case BlockadeEnds(k) => EndBlockade(k);
        case PsbRefreshes(p, destLocal, route) => PsbRefreshCallback(p, destLocal, route);
        case PsbExpires(p) => PsbCleanupCallback(p);
        case RsbRefreshes(r) => RsbRefreshCallback(r);
        case RsbExpires(r) => RsbCleanupCallback(r);
      }
    }

    method HandleRequest(e: Event)
      requires Valid() && !IsMessage(e) && !IsTimer(e)
      modifies Repr
      ensures Valid() && fresh(Repr - old(Repr))
      ensures state == Step(old(state), e)
    {
      hide Valid, RsvpSteps.InitiatePath, InitiateBypass, EnableProtection, Teardown, MbbStart, Trigger, Revert;
      match e {
        case PathRequested(src, dest, tunnelId, frr, alloc, route) => InitiatePath(src, dest, tunnelId, frr, alloc, route);
        case BypassRequested(src, dest, tunnelId, i, alloc, route) =>
          InitiateBypassTunnel(src, dest, tunnelId, i, alloc, route);
        case ProtectionRequested(tunnelId, lspId, mode, bypass) => FrrEnableProtection(tunnelId, lspId, mode, bypass);
        case TeardownRequested(tunnelId, lspId) => TeardownPath(tunnelId, lspId);
        case MbbRequested(tunnelId, old', new', alloc, route) => StartMbb(tunnelId, old', new', alloc, route);
        case LinkFails(i, routes) => FrrTrigger(i, routes);
        case LinkRecovers(i, routes) => FrrRevert(i, routes);
      }
    }

    /** Handles one event, and keeps the invariant of the state machine. */
    method Handle(e: Event)
      requires Valid() && RsvpInvariant.Inv(state)
      modifies Repr
      ensures Valid() && fresh(Repr - old(Repr))
      ensures state == Step(old(state), e) && RsvpInvariant.Inv(state)
    {
      hide Valid;
      StepKeepsInv(state, e);
      hide Step;
      if IsMessage(e) {
        HandleMessage(e);
      } else if IsTimer(e) {
        HandleTimer(e);
      } else {
        HandleRequest(e);
      }
    }

    /** Tears down the head of each bucket until the bucket is empty. */
    method ShutDown()
      requires Valid() && RsvpInvariant.Inv(state)
      modifies Repr
      ensures Valid() && fresh(Repr - old(Repr))
      ensures state == Shutdown.ShutdownFrom(old(state), 0)
      ensures state.psbs.Keys == {} && state.rsbs.Keys == {} && state.labels.used == {}
      ensures forall l :: InLabel(l) !in state.fwd
    {
      hide Valid, PsbCleanup, RsvpInvariant.Inv;
      ghost var s := state;
      for b := 0 to HASH_SIZE
        invariant Valid() && fresh(Repr - old(Repr)) && RsvpInvariant.Inv(state)
        invariant Shutdown.ShutdownFrom(state, b) == Shutdown.ShutdownFrom(s, 0)
      {
        var c := PsbFindByBucket(b);
        while c.Some?
          invariant Valid() && fresh(Repr - old(Repr)) && RsvpInvariant.Inv(state)
          invariant c == At(state.psbTable[b], 0)
          invariant Shutdown.ShutdownFrom(state, b) == Shutdown.ShutdownFrom(s, 0)
          decreases |state.psbs|
        {
          Shutdown.HeadIsLive(state, b);
          Shutdown.CleanupShrinks(state, c.value);
          RsvpInvariant.PsbCleanupKeepsInv(state, c.value);
          CleanupPsb(c.value);
          c := PsbFindByBucket(b);
        }
      }
      Shutdown.ShutdownEmptiesPaths(s, 0);
      Shutdown.NothingWithoutPaths(state);
    }
  }

  method NewStore<T>() returns (store: Store<T>, ghost objects: set<object>)
    ensures store.Valid() && fresh(objects) && objects == store.Footprint()
    ensures store.vals == map[] && store.db.keys == map[] && store.db.ids == EmptyTable()
  {
    store := new Store();
    objects := store.Footprint();
    AllEmpty(store.db.ids);
  }

  /** Initialisation: two empty tables, and every label of the range free. */
  method Start(minLabel: nat, maxLabel: nat) returns (d: Daemon)
    requires LP.Valid(LP.Fresh(minLabel, maxLabel))
    ensures d.Valid() && fresh(d.Repr) && d.state == Initial(minLabel, maxLabel)
  {
    hide Store.Valid;
    hide Daemon.Valid;
    var paths: Store<Psb>, pathObjects := NewStore();
    var reservations: Store<Rsb>, rsbObjects := NewStore();
    var labels := new LP.LabelManager(minLabel, maxLabel, true);
    ghost var manager := Manager(labels);
    assert paths.Footprint() == pathObjects && reservations.Footprint() == rsbObjects;
    d := new Daemon(paths, reservations, labels);
    assert d.Repr == {d} + manager + pathObjects + rsbObjects;
  }
}
