// Path state blocks, reservation state blocks, and the operations on them that
// every handler is made of.
//
// A pointer to a block is a reference into a heap of live blocks; freeing a
// block removes it from the heap.  Forwarding is a map keyed as in the data
// plane: by in-label, or by destination for unlabelled (ingress) traffic.
module RsvpState {
  import opened Common
  import opened StateDb
  import LP = LabelPool

  datatype FrrMode = NoFrr | OneToOne | Facility

  datatype Flowspec = Flowspec(rate: real, size: real)

  datatype Psb = Psb(
    key: Key, prevHop: Addr, ifindexIn: nat, ifindexOut: nat, refreshMs: nat, isIngress: bool,
    frrMode: FrrMode, isBypass: bool, frrActive: bool, bypassTunnelId: nat, bypassPsb: Option<Ref>, protectedIf: nat,
    mbbPending: bool, mbbOldLspId: nat, assocRsb: Option<Ref>, cleanupArmed: bool, refreshArmed: bool)

  datatype Rsb = Rsb(
    key: Key, nextHop: Addr, nextIf: nat, labelIn: nat, labelOut: nat, flowspec: Flowspec, style: nat,
    refreshMs: nat, assocPsb: Option<Ref>, cleanupArmed: bool, refreshArmed: bool)

  datatype FwdKey = InLabel(l: nat) | ToDest(dest: Addr)

  datatype Entry = Entry(labelOut: nat, ifindex: nat, nextHop: Addr, dest: Addr)

  datatype State = State(
    psbs: map<Ref, Psb>, psbTable: Table, rsbs: map<Ref, Rsb>, rsbTable: Table, bsbs: map<Key, Flowspec>,
    labels: LP.Pool, fwd: map<FwdKey, Entry>, nextRef: Ref, nextLspId: nat)

  function EmptyTable(): (t: Table)
    ensures |t| == HASH_SIZE
  {
    seq(HASH_SIZE, _ => [])
  }

  function Initial(minLabel: nat, maxLabel: nat): State {
    State(map[], EmptyTable(), map[], EmptyTable(), map[], LP.Fresh(minLabel, maxLabel), map[], 0, 1)
  }

  /** A zeroed PSB. */
  function NewPsb(k: Key): Psb {
    Psb(k, 0, 0, 0, 0, false, NoFrr, false, false, 0, None, 0, false, 0, None, false, false)
  }

  function NewRsb(k: Key): Rsb {
    Rsb(k, 0, 0, 0, 0, Flowspec(0.0, 0.0), 0, 0, None, false, false)
  }

  function PsbKeys(s: State): map<Ref, Key> {
    map p | p in s.psbs :: s.psbs[p].key
  }

  function RsbKeys(s: State): map<Ref, Key> {
    map r | r in s.rsbs :: s.rsbs[r].key
  }

  predicate Shaped(s: State) {
    |s.psbTable| == HASH_SIZE && |s.rsbTable| == HASH_SIZE
  }

  // ---- lookup -----------------------------------------------------------

  function FindPsb(s: State, k: Key): Option<Ref>
    requires Shaped(s)
  {
    Find(s.psbTable, PsbKeys(s), k)
  }

  function FindRsb(s: State, k: Key): Option<Ref>
    requires Shaped(s)
  {
    Find(s.rsbTable, RsbKeys(s), k)
  }

  predicate HasIds(s: State, p: Ref, tunnelId: nat, lspId: nat) {
    p in s.psbs && s.psbs[p].key.tunnelId == tunnelId && s.psbs[p].key.lspId == lspId
  }

  function FirstWithIds(s: State, walk: seq<Ref>, tunnelId: nat, lspId: nat): Option<Ref> {
    ScanIds(walk, PsbKeys(s), tunnelId, lspId)
  }

  /** The first PSB of a linear scan with the given tunnel and LSP ids, whatever its session. */
  function FindById(s: State, tunnelId: nat, lspId: nat): Option<Ref> {
    FirstWithIds(s, Walk(s.psbTable), tunnelId, lspId)
  }

  // ---- blocks -----------------------------------------------------------

  function SetPsb(s: State, p: Ref, v: Psb): State {
    s.(psbs := s.psbs[p := v])
  }

  function SetRsb(s: State, r: Ref, v: Rsb): State {
    s.(rsbs := s.rsbs[r := v])
  }

  /** Allocates a PSB and puts it at the head of its chain; its reference is the old `nextRef`. */
  function AddPsb(s: State, v: Psb): State
    requires Shaped(s)
  {
    s.(psbs := s.psbs[s.nextRef := v], psbTable := Insert(s.psbTable, s.nextRef, v.key), nextRef := s.nextRef + 1)
  }

  /** Allocates an RSB for a PSB and sets the pointers between them. */
  function AddRsbFor(s: State, p: Ref, v: Rsb): State
    requires Shaped(s) && p in s.psbs
  {
    var r := s.nextRef;
    s.(rsbs := s.rsbs[r := v.(assocPsb := Some(p))], rsbTable := Insert(s.rsbTable, r, v.key), nextRef := r + 1,
       psbs := s.psbs[p := s.psbs[p].(assocRsb := Some(r))])
  }

  /** Frees a PSB; an RSB that still points to it loses its pointer. */
  function DeletePsb(s: State, p: Ref): State
    requires Shaped(s) && p in s.psbs
  {
    var v := s.psbs[p];
    s.(psbs := s.psbs - {p}, psbTable := Delete(s.psbTable, p, v.key),
       rsbs := if v.assocRsb.Some? && v.assocRsb.value in s.rsbs
               then s.rsbs[v.assocRsb.value := s.rsbs[v.assocRsb.value].(assocPsb := None)] else s.rsbs)
  }

  function DeleteRsb(s: State, r: Ref): State
    requires Shaped(s) && r in s.rsbs
  {
    var v := s.rsbs[r];
    s.(rsbs := s.rsbs - {r}, rsbTable := Delete(s.rsbTable, r, v.key),
       psbs := if v.assocPsb.Some? && v.assocPsb.value in s.psbs
               then s.psbs[v.assocPsb.value := s.psbs[v.assocPsb.value].(assocRsb := None)] else s.psbs)
  }

  // ---- labels and forwarding -------------------------------------------

  /** Gives an RSB an in-label if it has none; it stays without when the pool is empty. */
  function GiveLabel(s: State, r: Ref): State
    requires r in s.rsbs
  {
    if s.rsbs[r].labelIn != 0 || s.labels.min > s.labels.max then s
    else
      var (pool, l) := LP.Alloc(s.labels);
      if l == 0 then s else s.(labels := pool, rsbs := s.rsbs[r := s.rsbs[r].(labelIn := l)])
  }

  /** The data plane's key: unlabelled traffic is known by its destination only. */
  function FwdKeyFor(labelIn: nat, dest: Addr): FwdKey {
    if labelIn == 0 then ToDest(dest) else InLabel(labelIn)
  }

  function Install(s: State, k: FwdKey, e: Entry): State {
    s.(fwd := s.fwd[k := e])
  }

  function Uninstall(s: State, k: FwdKey): State {
    s.(fwd := s.fwd - {k})
  }

  /** The primary forwarding entry of an RSB. */
  function Primary(v: Rsb): Entry {
    Entry(v.labelOut, v.nextIf, v.nextHop, v.key.dest)
  }

  // ---- cleanup ----------------------------------------------------------

  /** Takes back the forwarding entry and the label of an RSB, and stops its timers. */
  function ReleaseResources(s: State, r: Ref): State
    requires r in s.rsbs
  {
    var v := s.rsbs[r];
    var linked := v.assocPsb.Some? && v.assocPsb.value in s.psbs;
    var s1 := if v.labelIn != 0 then
                Uninstall(s, InLabel(v.labelIn)).(labels := LP.Release(s.labels, v.labelIn))
              else if linked && s.psbs[v.assocPsb.value].isIngress then
                Uninstall(s, ToDest(s.psbs[v.assocPsb.value].key.dest))
              else s;
    SetRsb(s1, r, v.(labelIn := 0, cleanupArmed := false, refreshArmed := false))
  }

  function RsbCleanup(s: State, r: Ref): (q: State)
    requires Shaped(s) && r in s.rsbs
    ensures Shaped(q)
  {
    DeleteRsb(ReleaseResources(s, r), r)
  }

  function PsbCleanup(s: State, p: Ref): (q: State)
    requires Shaped(s) && p in s.psbs
    ensures Shaped(q)
  {
    var a := s.psbs[p].assocRsb;
    var s1 := if a.Some? && a.value in s.rsbs then RsbCleanup(s, a.value) else s;
    if p in s1.psbs then DeletePsb(s1, p) else s1
  }
}
