/**
  Copy-on-write fork (sched/lib/fork.c) against eager copying.

  The concrete machine has physical pages and per-environment page maps, and steps at the
  granularity of system calls and stores: the three calls and the copy of pgfault, the two
  calls of duppage, and everything else, interleave freely between environments, and a
  forking parent may store (and fault) between its own calls.  A fault may be on any page
  that is mapped but not writable, because the test in pgfault never fires.  The reference
  machine gives every environment private memory and copies on fork.
*/
module CowFork {
  import opened Bits

  datatype Option<T> = None | Some(value: T)

  const PGSIZE := 4096
  const PFTEMP := 0x7ff          // page number of PFTEMP = UTEMP + PTSIZE - PGSIZE
  const UTEMP := 0x400
  const UXSTACK := 0xeebff       // page below UXSTACKTOP
  const UVPNS := 0xeec00         // UTOP >> PGSHIFT

  type Data = seq<int>           // the bytes of one page
  function Zero(): Data { seq(PGSIZE, _ => 0) }

  // A present user mapping: the page, PTE_W and PTE_COW.
  datatype Pte = Pte(page: int, w: bool, cow: bool)

  // Where an environment is in pgfault, and in fork.
  datatype Stage = Allocated | Copied | Moved
  datatype Fault = NoFault | Handling(v: int, stage: Stage)
  // Mid(v, late): duppage has mapped page v in the child and not yet remapped the parent's own;
  // late says that the parent's mapping was writable then.
  datatype Dup = Between | Mid(v: int, late: bool)
  datatype Fork = NotForking | Forking(child: int, dup: Dup)

  datatype State = State(
    phys: map<int, Data>,
    vm: map<int, map<int, Pte>>,
    fault: map<int, Fault>,
    fork: map<int, Fork>,
    parent: map<int, int>)       // children still being built (not yet runnable), and by whom

  // ---------- the system calls used, without their argument checks ----------

  predicate Maps(s: State, e: int, v: int) { e in s.vm && v in s.vm[e] }

  function At(s: State, e: int, v: int): Pte
    requires Maps(s, e, v)
  {
    s.vm[e][v]
  }

  function SetPte(s: State, e: int, v: int, p: Pte): State
    requires e in s.vm
  {
    s.(vm := s.vm[e := s.vm[e][v := p]])
  }

  function SysPageAlloc(s: State, e: int, v: int, np: int): State
    requires e in s.vm
  {
    SetPte(s.(phys := s.phys[np := Zero()]), e, v, Pte(np, true, false))
  }

  // Write access may only be granted from a writable mapping.
  function SysPageMap(s: State, src: int, sv: int, dst: int, dv: int, w: bool, cow: bool): State
    requires Maps(s, src, sv) && dst in s.vm && (w ==> At(s, src, sv).w)
  {
    SetPte(s, dst, dv, Pte(At(s, src, sv).page, w, cow))
  }

  function SysPageUnmap(s: State, e: int, v: int): State
    requires e in s.vm
  {
    s.(vm := s.vm[e := s.vm[e] - {v}])
  }

  function MemMove(s: State, e: int, dv: int, sv: int): State
    requires Maps(s, e, dv) && Maps(s, e, sv) && At(s, e, sv).page in s.phys
  {
    s.(phys := s.phys[At(s, e, dv).page := s.phys[At(s, e, sv).page]])
  }

  function Poke(d: Data, off: nat, b: int): Data {
    if off < |d| then d[off := b] else d
  }

  // ---------- concrete steps ----------

  datatype Step =
    | Write(e: int, v: int, off: nat, b: int)     // a store that the hardware lets through
    | FaultAlloc(e: int, v: int, np: int)      // a store to a page not writable traps; sys_page_alloc(PFTEMP)
    | FaultCopy(e: int)                           // memmove(PFTEMP, addr)
    | FaultMove(e: int)                           // sys_page_map(PFTEMP -> addr, PTE_W)
    | FaultEnd(e: int)                            // sys_page_unmap(PFTEMP)
    | Exofork(e: int, c: int)
    | DupShare(e: int, v: int)                    // duppage of a read-only page
    | DupChild(e: int, v: int)                    // duppage of a W or COW page: the child's mapping ...
    | DupParent(e: int)                           // ... and the parent's own
    | AllocChild(e: int, v: int, np: int)      // the child's exception stack
    | Start(e: int)                               // sys_env_set_status(child, ENV_RUNNABLE)
    | Alloc(e: int, v: int, np: int)           // sys_page_alloc in one's own space
    | Unmap(e: int, v: int)
    | Exit(e: int)                                // env_free, at any moment

  // The environment is running user code: not under construction, not inside pgfault.
  predicate Active(s: State, e: int) {
    e in s.vm && e in s.fault && e in s.fork && e !in s.parent && s.fault[e] == NoFault
  }

  predicate Idle(s: State, e: int) { Active(s, e) && s.fork[e] == NotForking }

  predicate ForkingBetween(s: State, e: int) {
    Active(s, e) && s.fork[e].Forking? && s.fork[e].dup == Between && s.fork[e].child in s.vm
  }

  // The page allocator returns a page nobody maps.
  ghost predicate Fresh(s: State, p: int) {
    forall e, v | Maps(s, e, v) :: At(s, e, v).page != p
  }

  ghost predicate Enabled(s: State, t: Step) {
    match t
    case Write(e, v, off, b) =>
      Active(s, e) && v != PFTEMP && Maps(s, e, v) && At(s, e, v).w && At(s, e, v).page in s.phys && off < PGSIZE
    case FaultAlloc(e, v, np) =>
      Active(s, e) && v != PFTEMP && Maps(s, e, v) && !At(s, e, v).w && Fresh(s, np)
    case FaultCopy(e) => HandlingAt(s, e, Allocated) && At(s, e, s.fault[e].v).page in s.phys
    case FaultMove(e) => HandlingAt(s, e, Copied) && At(s, e, PFTEMP).w
    case FaultEnd(e) => HandlingAt(s, e, Moved)
    case Exofork(e, c) => Idle(s, e) && c !in s.vm && c !in s.parent
    case DupShare(e, v) =>
      && ForkingBetween(s, e) && v != PFTEMP && Maps(s, e, v) && !Maps(s, s.fork[e].child, v)
      && !At(s, e, v).w && !At(s, e, v).cow
    case DupChild(e, v) =>
      && ForkingBetween(s, e) && v != PFTEMP && Maps(s, e, v) && !Maps(s, s.fork[e].child, v)
      && (At(s, e, v).w || At(s, e, v).cow)
    case DupParent(e) => Active(s, e) && s.fork[e].Forking? && s.fork[e].dup.Mid? && Maps(s, e, s.fork[e].dup.v)
    case AllocChild(e, v, np) => ForkingBetween(s, e) && v != PFTEMP && Fresh(s, np)
    case Start(e) => ForkingBetween(s, e)
    case Alloc(e, v, np) => Idle(s, e) && v != PFTEMP && Fresh(s, np)
    case Unmap(e, v) => Idle(s, e) && v != PFTEMP
    case Exit(e) => e in s.vm && e in s.fault && e in s.fork && e !in s.parent
  }

  predicate HandlingAt(s: State, e: int, g: Stage) {
    && e in s.vm && e in s.fault && s.fault[e].Handling? && s.fault[e].stage == g
    && Maps(s, e, s.fault[e].v) && Maps(s, e, PFTEMP)
  }

  function SetStage(s: State, e: int, f: Fault): State { s.(fault := s.fault[e := f]) }
  function SetFork(s: State, e: int, f: Fork): State { s.(fork := s.fork[e := f]) }

  // Who is gone with e: also the child it was building, which nobody can start any more.  (Its
  // pages stay allocated; here they may be allocated anew, which allows for more.)
  function Dead(s: State, e: int): set<int> {
    if e in s.fork && s.fork[e].Forking? then {e, s.fork[e].child} else {e}
  }

  ghost function Next(s: State, t: Step): State
    requires Enabled(s, t)
  {
    match t
    case Write(e, v, off, b) => s.(phys := s.phys[At(s, e, v).page := Poke(s.phys[At(s, e, v).page], off, b)])
    case FaultAlloc(e, v, np) => SetStage(SysPageAlloc(s, e, PFTEMP, np), e, Handling(v, Allocated))
    case FaultCopy(e) => SetStage(MemMove(s, e, PFTEMP, s.fault[e].v), e, Handling(s.fault[e].v, Copied))
    case FaultMove(e) =>
      SetStage(SysPageMap(s, e, PFTEMP, e, s.fault[e].v, true, false), e, Handling(s.fault[e].v, Moved))
    case FaultEnd(e) => SetStage(SysPageUnmap(s, e, PFTEMP), e, NoFault)
    case Exofork(e, c) =>
      s.(vm := s.vm[c := map[]], fault := s.fault[c := NoFault],
        fork := s.fork[e := Forking(c, Between)][c := NotForking], parent := s.parent[c := e])
    case DupShare(e, v) => SysPageMap(s, e, v, s.fork[e].child, v, false, false)
    case DupChild(e, v) =>
      SetFork(SysPageMap(s, e, v, s.fork[e].child, v, false, true), e, Forking(s.fork[e].child, Mid(v, At(s, e, v).w)))
    case DupParent(e) =>
      SetFork(SysPageMap(s, e, s.fork[e].dup.v, e, s.fork[e].dup.v, false, true), e, Forking(s.fork[e].child, Between))
    case AllocChild(e, v, np) => SysPageAlloc(s, s.fork[e].child, v, np)
    case Start(e) => SetFork(s, e, NotForking).(parent := s.parent - {s.fork[e].child})
    case Alloc(e, v, np) => SysPageAlloc(s, e, v, np)
    case Unmap(e, v) => SysPageUnmap(s, e, v)
    case Exit(e) =>
      var gone := Dead(s, e);
      s.(vm := s.vm - gone, fault := s.fault - gone, fork := s.fork - gone, parent := s.parent - gone)
  }

  // ---------- the reference: private memories, copied on fork ----------

  datatype Cell = Cell(data: Data, writable: bool)
  type Ref = map<int, map<int, Cell>>

  datatype RefStep =
    | RStore(e: int, v: int, off: nat, b: int)
    | RCopy(e: int, c: int, v: int)      // eager fork copies one page of e to c
    | RNew(e: int, v: int)
    | RDrop(e: int, v: int)
    | RCreate(c: int)
    | RDestroy(es: set<int>)
    | RGrant(e: int, v: int)               // a read-only page becomes writable
    | RSkip

  predicate RefEnabled(r: Ref, t: RefStep) {
    match t
    case RStore(e, v, off, b) => e in r && v in r[e] && r[e][v].writable && off < PGSIZE
    case RCopy(e, c, v) => e in r && c in r && v in r[e]
    case RNew(e, v) => e in r
    case RDrop(e, v) => e in r
    case RCreate(c) => c !in r
    case RDestroy(es) => true
    case RGrant(e, v) => e in r && v in r[e]
    case RSkip => true
  }

  function RefNext(r: Ref, t: RefStep): Ref
    requires RefEnabled(r, t)
  {
    match t
    case RStore(e, v, off, b) => r[e := r[e][v := Cell(Poke(r[e][v].data, off, b), true)]]
    case RCopy(e, c, v) => r[c := r[c][v := r[e][v]]]
    case RNew(e, v) => r[e := r[e][v := Cell(Zero(), true)]]
    case RDrop(e, v) => r[e := r[e] - {v}]
    case RCreate(c) => r[c := map[]]
    case RDestroy(es) => r - es
    case RGrant(e, v) => r[e := r[e][v := Cell(r[e][v].data, true)]]
    case RSkip => r
  }

  // ---------- what the concrete machine means ----------

  // Page v of child c still shares the parent's writable page: eager fork would not have copied it yet.
  predicate InFlight(s: State, c: int, v: int) {
    c in s.parent && s.parent[c] in s.fork && s.fork[s.parent[c]] == Forking(c, Mid(v, true))
  }

  ghost predicate Visible(s: State, e: int, v: int) {
    Maps(s, e, v) && v != PFTEMP && !InFlight(s, e, v) && At(s, e, v).page in s.phys
  }

  function CellAt(s: State, e: int, v: int): Cell
    requires Maps(s, e, v) && At(s, e, v).page in s.phys
  {
    Cell(s.phys[At(s, e, v).page], At(s, e, v).w || At(s, e, v).cow)
  }

  ghost function Space(s: State, e: int): (m: map<int, Cell>)
    requires e in s.vm
    ensures forall v :: v in m <==> Visible(s, e, v)
    ensures forall v | v in m :: Visible(s, e, v) && m[v] == CellAt(s, e, v)
  {
    map v | v in s.vm[e] && Visible(s, e, v) :: CellAt(s, e, v)
  }

  // The memories of all environments, as their programs read them.
  ghost function View(s: State): Ref {
    map e | e in s.vm :: Space(s, e)
  }

  // The reference step a concrete step stands for.
  ghost function Meaning(s: State, t: Step): RefStep
    requires Enabled(s, t)
  {
    match t
    case Write(e, v, off, b) => RStore(e, v, off, b)
    case Exofork(e, c) => RCreate(c)
    case DupShare(e, v) => RCopy(e, s.fork[e].child, v)
    case DupChild(e, v) => if At(s, e, v).w then RSkip else RCopy(e, s.fork[e].child, v)
    case DupParent(e) => if s.fork[e].dup.late then RCopy(e, s.fork[e].child, s.fork[e].dup.v) else RSkip
    case AllocChild(e, v, np) => RNew(s.fork[e].child, v)
    case Alloc(e, v, np) => RNew(e, v)
    case Unmap(e, v) => RDrop(e, v)
    case Exit(e) => RDestroy(Dead(s, e))
    case FaultMove(e) => if At(s, e, s.fault[e].v).cow then RSkip else RGrant(e, s.fault[e].v)
    case _ => RSkip
  }

  // ---------- the invariant ----------

  // The two ways a writable mapping may be aliased: by the child's half-made copy in duppage, and
  // by PFTEMP between the last two calls of pgfault.
  predicate InFlightPair(s: State, e: int, v: int, e': int, v': int) {
    v' == v && InFlight(s, e', v) && s.parent[e'] == e && Maps(s, e', v) && !At(s, e', v).w
  }

  predicate MovedPair(s: State, e: int, v: int, e': int, v': int) {
    e == e' && e in s.fault && s.fault[e].Handling? && s.fault[e].stage == Moved
    && ((v == PFTEMP && v' == s.fault[e].v) || (v == s.fault[e].v && v' == PFTEMP))
  }

  predicate SharedWritable(s: State, e: int, v: int, e': int, v': int) {
    && Maps(s, e, v) && Maps(s, e', v') && (e != e' || v != v')
    && At(s, e, v).page == At(s, e', v').page && At(s, e, v).w
  }

  // A writable mapping shares its page with another one in these two ways only.
  ghost predicate Alone(s: State, e: int, v: int, e': int, v': int) {
    SharedWritable(s, e, v, e', v') ==> InFlightPair(s, e, v, e', v') || MovedPair(s, e, v, e', v')
  }

  ghost predicate Exclusive(s: State) {
    forall e, v, e', v' :: Alone(s, e, v, e', v')
  }

  ghost predicate FaultOk(s: State, e: int) {
    && e in s.fault
    && (Maps(s, e, PFTEMP) <==> s.fault[e].Handling?)
    && (s.fault[e].Handling? ==>
          var v := s.fault[e].v;
          && v != PFTEMP && Maps(s, e, v) && At(s, e, PFTEMP).w
          && (s.fault[e].stage == Moved ==> At(s, e, v) == Pte(At(s, e, PFTEMP).page, true, false))
          && (s.fault[e].stage != Moved ==> !At(s, e, v).w)
          && (s.fault[e].stage == Copied ==>
                At(s, e, v).page in s.phys && At(s, e, PFTEMP).page in s.phys
                && s.phys[At(s, e, PFTEMP).page] == s.phys[At(s, e, v).page]))
  }

  ghost predicate ForkOk(s: State, e: int) {
    && e in s.fork
    && (s.fork[e].Forking? ==>
          var c := s.fork[e].child;
          && c in s.vm && c in s.parent && s.parent[c] == e && e !in s.parent
          && (s.fork[e].dup.Mid? ==>
                var v := s.fork[e].dup.v;
                && v != PFTEMP && Maps(s, e, v) && Maps(s, c, v) && !At(s, c, v).w
                && (if s.fork[e].dup.late then At(s, e, v).w && At(s, c, v) == Pte(At(s, e, v).page, false, true)
                    else At(s, e, v).w || At(s, e, v).cow)))
  }

  ghost predicate ChildOk(s: State, c: int)
    requires c in s.parent
  {
    && c in s.vm && c in s.fork && c in s.fault && s.parent[c] in s.fork
    && s.fork[s.parent[c]].Forking? && s.fork[s.parent[c]].child == c
    && s.fault[c] == NoFault && s.fork[c] == NotForking
  }

  ghost predicate EnvOk(s: State, e: int) {
    FaultOk(s, e) && ForkOk(s, e) && (e in s.parent ==> ChildOk(s, e))
  }

  predicate Keyed(s: State) {
    s.vm.Keys == s.fault.Keys == s.fork.Keys && s.parent.Keys <= s.vm.Keys
  }

  ghost predicate Inv(s: State) {
    && Keyed(s)
    && (forall e, v | Maps(s, e, v) :: At(s, e, v).page in s.phys)
    && Exclusive(s)
    && (forall e | e in s.vm :: EnvOk(s, e))
  }

  // ---------- how spaces follow single mappings ----------

  ghost predicate SameSeen(s: State, s': State, e: int, v: int) {
    && (Visible(s', e, v) <==> Visible(s, e, v))
    && (Visible(s, e, v) && Visible(s', e, v) ==> CellAt(s', e, v) == CellAt(s, e, v))
  }

  lemma SpaceKept(s: State, s': State, e: int)
    requires e in s.vm && e in s'.vm && forall v :: SameSeen(s, s', e, v)
    ensures Space(s', e) == Space(s, e)
  {
    var m, m' := Space(s', e), Space(s, e);
    forall v ensures (v in m <==> v in m') && (v in m ==> m[v] == m'[v]) {
      assert SameSeen(s, s', e, v);
    }
  }

  lemma SpaceSet(s: State, s': State, e: int, v0: int)
    requires e in s.vm && e in s'.vm && Visible(s', e, v0) && forall v | v != v0 :: SameSeen(s, s', e, v)
    ensures Space(s', e) == Space(s, e)[v0 := CellAt(s', e, v0)]
  {
    var m, m' := Space(s', e), Space(s, e)[v0 := CellAt(s', e, v0)];
    forall v ensures (v in m <==> v in m') && (v in m ==> m[v] == m'[v]) {
      assert v != v0 ==> SameSeen(s, s', e, v);
    }
  }

  lemma SpaceUnset(s: State, s': State, e: int, v0: int)
    requires e in s.vm && e in s'.vm && !Visible(s', e, v0) && forall v | v != v0 :: SameSeen(s, s', e, v)
    ensures Space(s', e) == Space(s, e) - {v0}
  {
    var m, m' := Space(s', e), Space(s, e) - {v0};
    forall v ensures (v in m <==> v in m') && (v in m ==> m[v] == m'[v]) {
      assert v != v0 ==> SameSeen(s, s', e, v);
    }
  }

  // ---------- every step keeps the invariant ----------

  // A visible mapping of a page that (x, y) maps writable is (x, y) itself.
  lemma WritableIsAlone(s: State, x: int, y: int, e: int, v: int)
    requires Inv(s) && Maps(s, x, y) && At(s, x, y).w && y != PFTEMP && x in s.fault && s.fault[x] == NoFault
    requires Visible(s, e, v) && At(s, e, v).page == At(s, x, y).page
    ensures e == x && v == y
  {
    assert Alone(s, x, y, e, v) && EnvOk(s, x);
  }

  // Stores and the last steps of pgfault; allocations; duppage and unmapping; environments that
  // come and go.
  predicate InFault(t: Step) { t.Write? || t.FaultCopy? || t.FaultMove? || t.FaultEnd? }

  predicate InAlloc(t: Step) { t.FaultAlloc? || t.AllocChild? || t.Alloc? }

  predicate InDup(t: Step) { t.DupShare? || t.DupChild? || t.DupParent? || t.Unmap? }

  predicate InLife(t: Step) { t.Exofork? || t.Start? || t.Exit? }

  // The invariant, piece by piece.
  lemma EnvNow(s: State, e: int)
    requires Inv(s)
    ensures Keyed(s) && (e in s.vm ==> EnvOk(s, e))
  {
  }

  lemma AloneNow(s: State, e: int, v: int, e': int, v': int)
    requires Inv(s)
    ensures Alone(s, e, v, e', v') && Alone(s, e', v', e, v)
  {
  }

  lemma PhysNow(s: State, e: int, v: int)
    requires Inv(s)
    ensures Maps(s, e, v) ==> At(s, e, v).page in s.phys
  {
  }

  lemma FreshNow(s: State, p: int, e: int, v: int)
    requires Fresh(s, p)
    ensures Maps(s, e, v) ==> At(s, e, v).page != p
  {
  }

  lemma {:induction false} AloneInFault(s: State, t: Step, e: int, v: int, e': int, v': int)
    requires Inv(s) && Enabled(s, t) && InFault(t)
    ensures Alone(Next(s, t), e, v, e', v')
  {
    hide Inv, Fresh;
    AloneNow(s, e, v, e', v');
    EnvNow(s, t.e);
    if t.FaultMove? {
      AloneNow(s, t.e, PFTEMP, e, v);
      AloneNow(s, t.e, PFTEMP, e', v');
    }
  }

  lemma {:induction false} AloneInDup(s: State, t: Step, e: int, v: int, e': int, v': int)
    requires Inv(s) && Enabled(s, t) && InDup(t)
    ensures Alone(Next(s, t), e, v, e', v')
  {
    hide Inv, Fresh;
    AloneNow(s, e, v, e', v');
    EnvNow(s, t.e);
    if t.DupShare? || t.DupChild? {
      AloneNow(s, e, v, t.e, t.v);
    }
  }

  lemma {:induction false} AloneInAlloc(s: State, t: Step, e: int, v: int, e': int, v': int)
    requires Inv(s) && Enabled(s, t) && InAlloc(t)
    ensures Alone(Next(s, t), e, v, e', v')
  {
    hide Inv, Fresh;
    AloneNow(s, e, v, e', v');
    EnvNow(s, t.e);
    FreshNow(s, t.np, e, v);
    FreshNow(s, t.np, e', v');
  }

  lemma {:induction false} AloneInLife(s: State, t: Step, e: int, v: int, e': int, v': int)
    requires Inv(s) && Enabled(s, t) && InLife(t)
    ensures Alone(Next(s, t), e, v, e', v')
  {
    hide Inv, Fresh;
    AloneNow(s, e, v, e', v');
    EnvNow(s, t.e);
  }

  lemma {:induction false} FaultInFault(s: State, t: Step, e: int)
    requires Inv(s) && Enabled(s, t) && InFault(t) && e in Next(s, t).vm
    ensures FaultOk(Next(s, t), e)
  {
    hide Inv, Fresh, ForkOk;
    EnvNow(s, t.e);
    EnvNow(s, e);
    PhysNow(s, t.e, PFTEMP);
    if t.FaultCopy? { PhysNow(s, t.e, s.fault[t.e].v); }
    if e in s.vm && s.fault[e].Handling? {
      var y := if t.Write? then t.v else PFTEMP;
      AloneNow(s, t.e, y, e, PFTEMP);
      AloneNow(s, t.e, y, e, s.fault[e].v);
    }
  }

  lemma {:induction false} FaultInDup(s: State, t: Step, e: int)
    requires Inv(s) && Enabled(s, t) && InDup(t) && e in Next(s, t).vm
    ensures FaultOk(Next(s, t), e)
  {
    hide Inv, Fresh;
    EnvNow(s, t.e);
    EnvNow(s, e);
  }

  lemma {:induction false} FaultInAlloc(s: State, t: Step, e: int)
    requires Inv(s) && Enabled(s, t) && InAlloc(t) && e in Next(s, t).vm
    ensures FaultOk(Next(s, t), e)
  {
    hide Inv, Fresh;
    EnvNow(s, t.e);
    EnvNow(s, e);
    if e in s.vm && s.fault[e].Handling? {
      FreshNow(s, t.np, e, PFTEMP);
      FreshNow(s, t.np, e, s.fault[e].v);
    }
  }

  lemma {:induction false} FaultInLife(s: State, t: Step, e: int)
    requires Inv(s) && Enabled(s, t) && InLife(t) && e in Next(s, t).vm
    ensures FaultOk(Next(s, t), e)
  {
    hide Inv, Fresh;
    EnvNow(s, t.e);
    EnvNow(s, e);
  }

  lemma {:induction false} ForkInFault(s: State, t: Step, e: int)
    requires Inv(s) && Enabled(s, t) && InFault(t) && e in Next(s, t).vm
    ensures ForkOk(Next(s, t), e) && (e in Next(s, t).parent ==> ChildOk(Next(s, t), e))
  {
    hide Inv, Fresh;
    EnvNow(s, t.e);
    EnvNow(s, e);
    if e in s.vm && s.fork[e].Forking? { EnvNow(s, s.fork[e].child); }
  }

  lemma {:induction false} ForkInDup(s: State, t: Step, e: int)
    requires Inv(s) && Enabled(s, t) && InDup(t) && e in Next(s, t).vm
    ensures ForkOk(Next(s, t), e)
  {
    hide Inv, Fresh, FaultOk, ChildOk;
    EnvNow(s, t.e);
    EnvNow(s, e);
    if t.DupChild? && e == t.e {
      assert Maps(Next(s, t), e, t.v) && Maps(Next(s, t), s.fork[e].child, t.v);
    }
  }

  lemma {:induction false} ChildInDup(s: State, t: Step, e: int)
    requires Inv(s) && Enabled(s, t) && InDup(t) && e in Next(s, t).parent
    ensures ChildOk(Next(s, t), e)
  {
    hide Inv, Fresh, FaultOk, ForkOk;
    EnvNow(s, t.e);
    EnvNow(s, e);
  }

  lemma {:induction false} ForkInAlloc(s: State, t: Step, e: int)
    requires Inv(s) && Enabled(s, t) && InAlloc(t) && e in Next(s, t).vm
    ensures ForkOk(Next(s, t), e) && (e in Next(s, t).parent ==> ChildOk(Next(s, t), e))
  {
    hide Inv, Fresh, FaultOk;
    EnvNow(s, t.e);
    EnvNow(s, e);
  }

  lemma {:induction false} ForkInLife(s: State, t: Step, e: int)
    requires Inv(s) && Enabled(s, t) && InLife(t) && e in Next(s, t).vm
    ensures ForkOk(Next(s, t), e)
  {
    hide Inv, Fresh, FaultOk, ChildOk;
    EnvNow(s, t.e);
    EnvNow(s, e);
  }

  lemma {:induction false} ChildInLife(s: State, t: Step, e: int)
    requires Inv(s) && Enabled(s, t) && InLife(t) && e in Next(s, t).parent
    ensures ChildOk(Next(s, t), e)
  {
    hide Inv, Fresh, FaultOk;
    EnvNow(s, t.e);
    EnvNow(s, e);
    if e in s.parent { EnvNow(s, s.parent[e]); }
    if s.fork[t.e].Forking? { EnvNow(s, s.fork[t.e].child); }
  }

  lemma {:induction false} EnvKept(s: State, t: Step, e: int)
    requires Inv(s) && Enabled(s, t) && e in Next(s, t).vm && Keyed(Next(s, t))
    ensures EnvOk(Next(s, t), e)
  {
    hide Inv, Next, Enabled, FaultOk, ForkOk, ChildOk;
    if InFault(t) {
      FaultInFault(s, t, e);
      ForkInFault(s, t, e);
    } else if InDup(t) {
      FaultInDup(s, t, e);
      ForkInDup(s, t, e);
      if e in Next(s, t).parent { ChildInDup(s, t, e); }
    } else if InAlloc(t) {
      FaultInAlloc(s, t, e);
      ForkInAlloc(s, t, e);
    } else {
      FaultInLife(s, t, e);
      ForkInLife(s, t, e);
      if e in Next(s, t).parent { ChildInLife(s, t, e); }
    }
  }

  lemma {:induction false} AloneKept(s: State, t: Step, e: int, v: int, e': int, v': int)
    requires Inv(s) && Enabled(s, t)
    ensures Alone(Next(s, t), e, v, e', v')
  {
    hide Inv, Next, Enabled, Alone;
    if InFault(t) {
      AloneInFault(s, t, e, v, e', v');
    } else if InDup(t) {
      AloneInDup(s, t, e, v, e', v');
    } else if InAlloc(t) {
      AloneInAlloc(s, t, e, v, e', v');
    } else {
      AloneInLife(s, t, e, v, e', v');
    }
  }

  lemma {:induction false} NextKeyed(s: State, t: Step)
    requires Inv(s) && Enabled(s, t)
    ensures Keyed(Next(s, t))
  {
    hide Inv, Fresh, FaultOk;
    EnvNow(s, t.e);
  }

  lemma {:induction false} PageHeld(s: State, t: Step, e: int, v: int)
    requires Inv(s) && Enabled(s, t) && Maps(Next(s, t), e, v)
    ensures At(Next(s, t), e, v).page in Next(s, t).phys
  {
    hide Exclusive, EnvOk, Fresh;
    assert Maps(s, e, v) ==> At(s, e, v).page in s.phys;
    assert t.FaultMove? ==> At(s, t.e, PFTEMP).page in s.phys;
    assert t.DupParent? ==> At(s, t.e, s.fork[t.e].dup.v).page in s.phys;
    assert t.DupShare? || t.DupChild? ==> At(s, t.e, t.v).page in s.phys;
  }

  lemma {:induction false} StepInv(s: State, t: Step)
    requires Inv(s) && Enabled(s, t)
    ensures Inv(Next(s, t))
  {
    hide Alone, Next, Enabled, EnvOk;
    var s' := Next(s, t);
    NextKeyed(s, t);
    forall e, v | Maps(s', e, v) ensures At(s', e, v).page in s'.phys {
      PageHeld(s, t, e, v);
    }
    forall e, v, e', v' ensures Alone(s', e, v, e', v') {
      AloneKept(s, t, e, v, e', v');
    }
    forall e | e in s'.vm ensures EnvOk(s', e) {
      EnvKept(s, t, e);
    }
  }

  // ---------- every step means its reference step ----------

  lemma ViewKept(s: State, s': State)
    requires s'.vm.Keys == s.vm.Keys && forall e, v :: SameSeen(s, s', e, v)
    ensures View(s') == View(s)
  {
    forall e | e in s.vm ensures View(s')[e] == View(s)[e] {
      SpaceKept(s, s', e);
    }
  }

  lemma ViewSet(s: State, s': State, x: int, y: int)
    requires s'.vm.Keys == s.vm.Keys && Visible(s', x, y)
    requires forall e, v | e != x || v != y :: SameSeen(s, s', e, v)
    ensures x in View(s) && View(s') == View(s)[x := View(s)[x][y := CellAt(s', x, y)]]
  {
    forall e | e in s.vm ensures View(s')[e] == if e == x then View(s)[x][y := CellAt(s', x, y)] else View(s)[e] {
      if e == x {
        SpaceSet(s, s', x, y);
      } else {
        SpaceKept(s, s', e);
      }
    }
  }

  lemma ViewUnset(s: State, s': State, x: int, y: int)
    requires s'.vm.Keys == s.vm.Keys && x in s.vm && !Visible(s', x, y)
    requires forall e, v | e != x || v != y :: SameSeen(s, s', e, v)
    ensures View(s') == View(s)[x := View(s)[x] - {y}]
  {
    forall e | e in s.vm ensures View(s')[e] == if e == x then View(s)[x] - {y} else View(s)[e] {
      if e == x {
        SpaceUnset(s, s', x, y);
      } else {
        SpaceKept(s, s', e);
      }
    }
  }

  lemma ViewCreate(s: State, s': State, c: int)
    requires c !in s.vm && s'.vm.Keys == s.vm.Keys + {c} && forall v :: !Visible(s', c, v)
    requires forall e, v | e != c :: SameSeen(s, s', e, v)
    ensures View(s') == View(s)[c := map[]]
  {
    hide Visible, SameSeen, CellAt;
    forall e | e in s'.vm ensures View(s')[e] == if e == c then map[] else View(s)[e] {
      if e == c {
        assert forall v :: v !in Space(s', c);
      } else {
        SpaceKept(s, s', e);
      }
    }
  }

  lemma ViewDestroy(s: State, s': State, xs: set<int>)
    requires s'.vm.Keys == s.vm.Keys - xs && forall e, v | e !in xs :: SameSeen(s, s', e, v)
    ensures View(s') == View(s) - xs
  {
    forall e | e in s'.vm ensures View(s')[e] == View(s)[e] {
      SpaceKept(s, s', e);
    }
  }

  ghost predicate MeansView(s: State, t: Step)
    requires Enabled(s, t)
  {
    RefEnabled(View(s), Meaning(s, t)) && View(Next(s, t)) == RefNext(View(s), Meaning(s, t))
  }

  lemma {:induction false} WriteView(s: State, t: Step)
    requires Inv(s) && Enabled(s, t) && t.Write?
    ensures MeansView(s, t)
  {
    var s' := Next(s, t);
    forall e, v | e != t.e || v != t.v ensures SameSeen(s, s', e, v) {
      if Visible(s, e, v) && At(s, e, v).page == At(s, t.e, t.v).page {
        WritableIsAlone(s, t.e, t.v, e, v);
      }
    }
    assert Visible(s, t.e, t.v) && Visible(s', t.e, t.v);
    ViewSet(s, s', t.e, t.v);
  }

  // The allocation and the unmapping in pgfault: no program can tell.
  lemma {:induction false} FaultView(s: State, t: Step)
    requires Inv(s) && Enabled(s, t) && (t.FaultAlloc? || t.FaultEnd?)
    ensures MeansView(s, t)
  {
    var s' := Next(s, t);
    assert EnvOk(s, t.e);
    forall e, v ensures SameSeen(s, s', e, v) {
    }
    ViewKept(s, s');
  }

  // The remapping changes nothing for a copy-on-write page; any other page becomes writable.
  lemma {:induction false} FaultMoveView(s: State, t: Step)
    requires Inv(s) && Enabled(s, t) && t.FaultMove?
    ensures MeansView(s, t)
  {
    var s', y := Next(s, t), s.fault[t.e].v;
    assert EnvOk(s, t.e);
    forall e, v | e != t.e || v != y ensures SameSeen(s, s', e, v) {
    }
    assert Visible(s, t.e, y) && Visible(s', t.e, y);
    if At(s, t.e, y).cow {
      assert SameSeen(s, s', t.e, y);
      ViewKept(s, s');
    } else {
      ViewSet(s, s', t.e, y);
    }
  }

  // Until it is moved, the page at PFTEMP is seen nowhere.
  lemma TempIsPrivate(s: State, x: int, e: int, v: int)
    requires Inv(s) && HandlingAt(s, x, Allocated) && Visible(s, e, v)
    ensures At(s, e, v).page != At(s, x, PFTEMP).page
  {
    assert EnvOk(s, x) && Alone(s, x, PFTEMP, e, v);
  }

  lemma FaultCopyView(s: State, t: Step)
    requires Inv(s) && Enabled(s, t) && t.FaultCopy?
    ensures MeansView(s, t)
  {
    var s' := Next(s, t);
    assert EnvOk(s, t.e);
    forall e, v ensures SameSeen(s, s', e, v) {
      if Visible(s, e, v) {
        TempIsPrivate(s, t.e, e, v);
      }
    }
    ViewKept(s, s');
  }

  lemma {:induction false} DupShareView(s: State, t: Step)
    requires Inv(s) && Enabled(s, t) && t.DupShare?
    ensures MeansView(s, t)
  {
    var s' := Next(s, t);
    var c := s.fork[t.e].child;
    assert EnvOk(s, t.e);
    forall e, v | e != c || v != t.v ensures SameSeen(s, s', e, v) {
    }
    assert Visible(s, t.e, t.v) && Visible(s', c, t.v) && CellAt(s', c, t.v) == CellAt(s, t.e, t.v);
    ViewSet(s, s', c, t.v);
  }

  // The child's mapping of a writable page is not a copy yet, that of a copy-on-write page is.
  lemma {:induction false} DupChildView(s: State, t: Step)
    requires Inv(s) && Enabled(s, t) && t.DupChild?
    ensures MeansView(s, t)
  {
    var s' := Next(s, t);
    var c := s.fork[t.e].child;
    assert EnvOk(s, t.e);
    forall e, v | e != c || v != t.v ensures SameSeen(s, s', e, v) {
    }
    assert Visible(s, t.e, t.v);
    if At(s, t.e, t.v).w {
      assert InFlight(s', c, t.v) && SameSeen(s, s', c, t.v);
      ViewKept(s, s');
    } else {
      assert Visible(s', c, t.v) && CellAt(s', c, t.v) == CellAt(s, t.e, t.v);
      ViewSet(s, s', c, t.v);
    }
  }

  // The parent's remapping: the moment at which a writable page counts as copied.
  lemma {:induction false} DupParentView(s: State, t: Step)
    requires Inv(s) && Enabled(s, t) && t.DupParent?
    ensures MeansView(s, t)
  {
    var s' := Next(s, t);
    var c, y := s.fork[t.e].child, s.fork[t.e].dup.v;
    assert EnvOk(s, t.e);
    forall e, v | e != c || v != y ensures SameSeen(s, s', e, v) {
    }
    if s.fork[t.e].dup.late {
      assert Visible(s', c, y) && Visible(s, t.e, y) && CellAt(s', c, y) == CellAt(s, t.e, y);
      ViewSet(s, s', c, y);
    } else {
      assert SameSeen(s, s', c, y);
      ViewKept(s, s');
    }
  }

  lemma AllocView(s: State, t: Step)
    requires Inv(s) && Enabled(s, t) && t.Alloc?
    ensures MeansView(s, t)
  {
    var s' := Next(s, t);
    forall e, v | e != t.e || v != t.v ensures SameSeen(s, s', e, v) {
    }
    assert Visible(s', t.e, t.v) && CellAt(s', t.e, t.v) == Cell(Zero(), true);
    ViewSet(s, s', t.e, t.v);
  }

  lemma AllocChildView(s: State, t: Step)
    requires Inv(s) && Enabled(s, t) && t.AllocChild?
    ensures MeansView(s, t)
  {
    var s', c := Next(s, t), s.fork[t.e].child;
    assert EnvOk(s, t.e) && EnvOk(s, c);
    forall e, v | e != c || v != t.v ensures SameSeen(s, s', e, v) {
    }
    assert Visible(s', c, t.v) && CellAt(s', c, t.v) == Cell(Zero(), true);
    ViewSet(s, s', c, t.v);
  }

  lemma UnmapView(s: State, t: Step)
    requires Inv(s) && Enabled(s, t) && t.Unmap?
    ensures MeansView(s, t)
  {
    var s' := Next(s, t);
    forall e, v | e != t.e || v != t.v ensures SameSeen(s, s', e, v) {
    }
    ViewUnset(s, s', t.e, t.v);
  }

  lemma {:induction false} StartView(s: State, t: Step)
    requires Inv(s) && Enabled(s, t) && t.Start?
    ensures MeansView(s, t)
  {
    var s' := Next(s, t);
    assert EnvOk(s, t.e);
    forall e, v ensures SameSeen(s, s', e, v) {
    }
    ViewKept(s, s');
  }

  lemma ExoforkView(s: State, t: Step)
    requires Inv(s) && Enabled(s, t) && t.Exofork?
    ensures MeansView(s, t)
  {
    var s' := Next(s, t);
    assert EnvOk(s, t.e);
    forall e, v | e != t.c ensures SameSeen(s, s', e, v) {
    }
    ViewCreate(s, s', t.c);
  }

  lemma ExitView(s: State, t: Step)
    requires Inv(s) && Enabled(s, t) && t.Exit?
    ensures MeansView(s, t)
  {
    var s', gone := Next(s, t), Dead(s, t.e);
    assert EnvOk(s, t.e);
    forall e, v | e !in gone ensures SameSeen(s, s', e, v) {
      if e in s.vm && e in s.parent {
        assert EnvOk(s, e);
      }
    }
    ViewDestroy(s, s', gone);
  }

  // ---------- the theorem ----------

  lemma {:induction false} StepRefines(s: State, t: Step)
    requires Inv(s) && Enabled(s, t)
    ensures Inv(Next(s, t)) && MeansView(s, t)
  {
    hide Inv, MeansView;
    StepInv(s, t);
    match t
    case Write(_, _, _, _) => WriteView(s, t);
    case FaultAlloc(_, _, _) => FaultView(s, t);
    case FaultCopy(_) => FaultCopyView(s, t);
    case FaultMove(_) => FaultMoveView(s, t);
    case FaultEnd(_) => FaultView(s, t);
    case Exofork(_, _) => ExoforkView(s, t);
    case DupShare(_, _) => DupShareView(s, t);
    case DupChild(_, _) => DupChildView(s, t);
    case DupParent(_) => DupParentView(s, t);
    case AllocChild(_, _, _) => AllocChildView(s, t);
    case Start(_) => StartView(s, t);
    case Alloc(_, _, _) => AllocView(s, t);
    case Unmap(_, _) => UnmapView(s, t);
    case Exit(_) => ExitView(s, t);
  }

  ghost predicate RunEnabled(s: State, ts: seq<Step>)
    decreases |ts|
  {
    ts == [] || (Enabled(s, ts[0]) && RunEnabled(Next(s, ts[0]), ts[1..]))
  }

  ghost function Run(s: State, ts: seq<Step>): State
    requires RunEnabled(s, ts)
    decreases |ts|
  {
    if ts == [] then s else Run(Next(s, ts[0]), ts[1..])
  }

  ghost function Meanings(s: State, ts: seq<Step>): seq<RefStep>
    requires RunEnabled(s, ts)
    decreases |ts|
  {
    if ts == [] then [] else [Meaning(s, ts[0])] + Meanings(Next(s, ts[0]), ts[1..])
  }

  predicate RefRunEnabled(r: Ref, ts: seq<RefStep>)
    decreases |ts|
  {
    ts == [] || (RefEnabled(r, ts[0]) && RefRunEnabled(RefNext(r, ts[0]), ts[1..]))
  }

  function RefRun(r: Ref, ts: seq<RefStep>): Ref
    requires RefRunEnabled(r, ts)
    decreases |ts|
  {
    if ts == [] then r else RefRun(RefNext(r, ts[0]), ts[1..])
  }

  /** Over every run of stores, page faults, forks of forks, allocations and exits, in any
      interleaving, the memories are those of the eager reference. */
  lemma {:induction false} CowRefinesEager(s: State, ts: seq<Step>)
    requires Inv(s) && RunEnabled(s, ts)
    ensures Inv(Run(s, ts))
    ensures RefRunEnabled(View(s), Meanings(s, ts))
    ensures View(Run(s, ts)) == RefRun(View(s), Meanings(s, ts))
    decreases |ts|
  {
    if ts != [] {
      StepRefines(s, ts[0]);
      CowRefinesEager(Next(s, ts[0]), ts[1..]);
      assert Meanings(s, ts)[1..] == Meanings(Next(s, ts[0]), ts[1..]);
    }
  }

  // What a load from page v gives environment e.
  function ReadPage(s: State, e: int, v: int): Option<Data> {
    if Maps(s, e, v) && At(s, e, v).page in s.phys then Some(s.phys[At(s, e, v).page]) else None
  }

  function RefReadPage(r: Ref, e: int, v: int): Option<Data> {
    if e in r && v in r[e] then Some(r[e][v].data) else None
  }

  // Every page a started environment maps reads as in the reference, and none is missing.
  lemma {:induction false} ReadsAgree(s: State, ts: seq<Step>, e: int, v: int)
    requires Inv(s) && RunEnabled(s, ts)
    requires e in Run(s, ts).vm && e !in Run(s, ts).parent && v != PFTEMP
    ensures RefRunEnabled(View(s), Meanings(s, ts))
    ensures ReadPage(Run(s, ts), e, v) == RefReadPage(RefRun(View(s), Meanings(s, ts)), e, v)
  {
    CowRefinesEager(s, ts);
    var f := Run(s, ts);
    assert View(f)[e] == Space(f, e);
    assert v in Space(f, e) <==> Visible(f, e, v);
    if v in Space(f, e) {
      assert Space(f, e)[v] == CellAt(f, e, v);
    }
  }

  // Pages keep their size.
  ghost predicate FullPages(s: State) { forall p | p in s.phys :: |s.phys[p]| == PGSIZE }

  lemma {:induction false} PagesStayFull(s: State, ts: seq<Step>)
    requires RunEnabled(s, ts) && FullPages(s)
    ensures FullPages(Run(s, ts))
    decreases |ts|
  {
    if ts != [] {
      StepStaysFull(s, ts[0]);
      PagesStayFull(Next(s, ts[0]), ts[1..]);
    }
  }

  lemma StepStaysFull(s: State, t: Step)
    requires Enabled(s, t) && FullPages(s)
    ensures FullPages(Next(s, t))
  {
    hide Fresh;
  }

  // The byte a program reads at offset off of page v.
  function ReadByte(s: State, e: int, v: int, off: nat): Option<int> {
    match ReadPage(s, e, v)
    case Some(page) => if off < |page| then Some(page[off]) else None
    case None => None
  }

  // A store is read back, and changes no other byte that any started environment can read.
  lemma {:induction false} StoreIsRead(s: State, t: Step, e: int, v: int, off: nat)
    requires Inv(s) && FullPages(s) && Enabled(s, t) && t.Write? && v != PFTEMP && e !in s.parent
    ensures ReadByte(Next(s, t), t.e, t.v, t.off) == Some(t.b)
    ensures (e, v, off) != (t.e, t.v, t.off) ==> ReadByte(Next(s, t), e, v, off) == ReadByte(s, e, v, off)
  {
    if Maps(s, e, v) && (e != t.e || v != t.v) && At(s, e, v).page == At(s, t.e, t.v).page {
      WritableIsAlone(s, t.e, t.v, e, v);
    }
  }

  // The start: any environments, each writable page of any of them mapped nowhere else.
  lemma {:induction false} InitInv(s: State)
    requires s.parent == map[] && s.fault.Keys == s.fork.Keys == s.vm.Keys
    requires forall e | e in s.vm :: s.fault[e] == NoFault && s.fork[e] == NotForking && PFTEMP !in s.vm[e]
    requires forall e, v | Maps(s, e, v) :: At(s, e, v).page in s.phys
    requires forall e, v, e', v' :: !SharedWritable(s, e, v, e', v')
    ensures Inv(s)
  {
    forall e | e in s.vm ensures EnvOk(s, e) {
    }
  }

  // ---------- isolation and the snapshot a fork takes ----------

  // The environments whose memory a step may change.
  function Touches(s: State, t: Step): set<int> {
    match t
    case Exofork(e, c) => {c}
    case DupShare(e, _) => if e in s.fork && s.fork[e].Forking? then {s.fork[e].child} else {}
    case DupChild(e, _) => if e in s.fork && s.fork[e].Forking? then {s.fork[e].child} else {}
    case DupParent(e) => if e in s.fork && s.fork[e].Forking? then {s.fork[e].child} else {}
    case AllocChild(e, _, _) => if e in s.fork && s.fork[e].Forking? then {s.fork[e].child} else {}
    case Write(e, _, _, _) => {e}
    case Alloc(e, _, _) => {e}
    case Unmap(e, _) => {e}
    case Exit(e) => Dead(s, e)
    case FaultMove(e) => if HandlingAt(s, e, Copied) && At(s, e, s.fault[e].v).cow then {} else {e}
    case _ => {}
  }

  function RefTouches(t: RefStep): set<int> {
    match t
    case RStore(e, _, _, _) => {e}
    case RCopy(_, c, _) => {c}
    case RNew(e, _) => {e}
    case RDrop(e, _) => {e}
    case RCreate(c) => {c}
    case RDestroy(es) => es
    case RGrant(e, _) => {e}
    case RSkip => {}
  }

  lemma RefIsolation(r: Ref, t: RefStep, e: int)
    requires RefEnabled(r, t) && e in r && e !in RefTouches(t)
    ensures e in RefNext(r, t) && RefNext(r, t)[e] == r[e]
  {
  }

  lemma {:induction false} Isolation(s: State, t: Step, e: int)
    requires Inv(s) && Enabled(s, t) && e in s.vm && e !in Touches(s, t)
    ensures e in Next(s, t).vm && View(Next(s, t))[e] == View(s)[e]
  {
    MeaningTouches(s, t);
    hide Inv, Meaning, Touches, RefTouches, Enabled, Next, RefNext, RefEnabled;
    StepRefines(s, t);
    RefIsolation(View(s), Meaning(s, t), e);
  }

  lemma MeaningTouches(s: State, t: Step)
    requires Enabled(s, t)
    ensures RefTouches(Meaning(s, t)) <= Touches(s, t)
  {
  }

  // What environment e holds at page v of the reference.
  function Seen(r: Ref, e: int, v: int): Option<Cell> {
    if e in r && v in r[e] then Some(r[e][v]) else None
  }

  predicate Child(s: State, p: int, c: int) { c in s.parent && s.parent[c] == p }

  // p goes on with its fork: it does not start the child, nor allocate a new page v for it, nor die.
  predicate GoesOn(t: Step, p: int, v: int) {
    t.e == p ==> !t.Start? && !t.Exit? && (t.AllocChild? ==> t.v != v)
  }

  // What can happen to page v of child c: nothing, or it is copied from p.
  predicate Only(t: RefStep, p: int, c: int, v: int) {
    match t
    case RStore(e, w, _, _) => e != c || w != v
    case RCopy(x, d, w) => d != c || w != v || x == p
    case RNew(e, w) => e != c || w != v
    case RDrop(e, w) => e != c || w != v
    case RGrant(e, w) => e != c || w != v
    case RCreate(e) => e != c
    case RDestroy(es) => c !in es
    case RSkip => true
  }

  lemma {:induction false} MeansOnly(s: State, t: Step, p: int, c: int, v: int)
    requires Inv(s) && Enabled(s, t) && Child(s, p, c) && GoesOn(t, p, v)
    ensures Only(Meaning(s, t), p, c, v) && Child(Next(s, t), p, c)
  {
    hide Inv, Fresh, FaultOk;
    EnvNow(s, t.e);
    EnvNow(s, c);
  }

  // duppage copies only what the child does not have.
  lemma {:induction false} CopiesOnce(s: State, t: Step, c: int, v: int)
    requires Inv(s) && Enabled(s, t) && Meaning(s, t).RCopy? && Meaning(s, t).c == c && Meaning(s, t).v == v
    ensures Seen(View(s), c, v) == None
  {
    hide Exclusive, FaultOk;
    assert EnvOk(s, t.e);
    assert !Visible(s, c, v);
  }

  lemma OnlyCopied(r: Ref, t: RefStep, p: int, c: int, v: int)
    requires RefEnabled(r, t) && Only(t, p, c, v)
    ensures Seen(RefNext(r, t), c, v) == if t.RCopy? && t.c == c && t.v == v then Seen(r, p, v) else Seen(r, c, v)
  {
  }

  // One step leaves the child's page v as it is, or copies it from p, in which case there was none.
  lemma {:induction false} ChildStep(s: State, t: Step, p: int, c: int, v: int)
    requires Inv(s) && Enabled(s, t) && Child(s, p, c) && GoesOn(t, p, v)
    ensures Inv(Next(s, t)) && Child(Next(s, t), p, c)
    ensures var x, y := Seen(View(s), c, v), Seen(View(Next(s, t)), c, v);
      y == x || (x == None && y == Seen(View(s), p, v))
  {
    hide Inv, Meaning, Enabled, Next, RefNext, RefEnabled, View, Seen, Only;
    StepRefines(s, t);
    MeansOnly(s, t, p, c, v);
    OnlyCopied(View(s), Meaning(s, t), p, c, v);
    if Meaning(s, t).RCopy? && Meaning(s, t).c == c && Meaning(s, t).v == v {
      CopiesOnce(s, t, c, v);
    }
  }

  predicate GoOn(ts: seq<Step>, p: int, v: int) {
    forall i | 0 <= i < |ts| :: GoesOn(ts[i], p, v)
  }

  // A page copied stays as it is, whatever the parent and everybody else do.
  lemma {:induction false} CopyStays(s: State, ts: seq<Step>, p: int, c: int, v: int)
    requires Inv(s) && RunEnabled(s, ts) && Child(s, p, c) && GoOn(ts, p, v) && Seen(View(s), c, v) != None
    ensures Seen(View(Run(s, ts)), c, v) == Seen(View(s), c, v)
    decreases |ts|
  {
    hide Inv, Enabled, Next, View, Seen;
    if ts != [] {
      ChildStep(s, ts[0], p, c, v);
      CopyStays(Next(s, ts[0]), ts[1..], p, c, v);
    }
  }

  // Page v of the child is what p had there after k steps of the run.
  ghost predicate CopiedAt(s: State, ts: seq<Step>, k: nat, p: int, v: int, x: Option<Cell>)
    requires RunEnabled(s, ts)
  {
    k < |ts| && RunEnabled(s, ts[..k]) && x == Seen(View(Run(s, ts[..k])), p, v)
  }

  lemma {:induction false} CopiedLater(s: State, ts: seq<Step>, k: nat, p: int, v: int, x: Option<Cell>)
    requires ts != [] && RunEnabled(s, ts) && CopiedAt(Next(s, ts[0]), ts[1..], k, p, v, x)
    ensures CopiedAt(s, ts, k + 1, p, v, x)
  {
    hide Enabled, Next, View, Seen;
    assert ts[..k + 1][1..] == ts[1..][..k] && ts[..k + 1][0] == ts[0];
  }

  /** Snapshot, page by page: while p forks c, with stores and page faults of its own between the
      calls and everybody else doing as they like, a page the child gets is the parent's as it
      was at one moment of the fork, and stays so until the child starts. */
  lemma {:induction false} ForkSnapshot(s: State, ts: seq<Step>, p: int, c: int, v: int)
    requires Inv(s) && RunEnabled(s, ts) && Child(s, p, c) && GoOn(ts, p, v) && Seen(View(s), c, v) == None
    ensures var x := Seen(View(Run(s, ts)), c, v); x != None ==> exists k: nat :: CopiedAt(s, ts, k, p, v, x)
    decreases |ts|
  {
    hide Inv, Enabled, Next, View, Seen;
    if ts != [] {
      var s' := Next(s, ts[0]);
      var x := Seen(View(Run(s, ts)), c, v);
      ChildStep(s, ts[0], p, c, v);
      if Seen(View(s'), c, v) == None {
        ForkSnapshot(s', ts[1..], p, c, v);
        if x != None {
          var k: nat :| CopiedAt(s', ts[1..], k, p, v, x);
          CopiedLater(s, ts, k, p, v, x);
        }
      } else {
        CopyStays(s', ts[1..], p, c, v);
        assert ts[..0] == [];
        assert CopiedAt(s, ts, 0, p, v, x);
      }
    }
  }

  // ---------- every store goes through ----------

  // The test in pgfault, a bitwise "and" of FEC_WR with a negation, which is 0 or 1.
  const FEC_WR := 2
  const PTE_COW := 0x800

  function PgfaultPanics(err: nat, pte: nat): bool {
    BitAnd(BitAnd(err, FEC_WR), if BitAnd(pte, PTE_COW) == 0 then 1 else 0) != 0
  }

  // It never panics, so that pgfault gives a private writable copy of any page that is mapped.
  lemma {:induction false} GuardNeverFires(err: nat, pte: nat)
    ensures !PgfaultPanics(err, pte)
  {
    assert BitAnd(err / 2, 1) <= 1;
    assert BitAnd(err, FEC_WR) % 2 == 0;
    var x := BitAnd(err, FEC_WR);
    assert BitAnd(x / 2, 0) == 0 && BitAnd(x, 1) == 0 && BitAnd(x, 0) == 0;
  }

  lemma {:induction false} FaultBegins(s: State, e: int, v: int, np: int)
    requires Inv(s) && Active(s, e) && v != PFTEMP && Maps(s, e, v) && !At(s, e, v).w && Fresh(s, np)
    ensures var t := FaultAlloc(e, v, np); var r := Next(s, t);
      && Enabled(s, t) && Meaning(s, t) == RSkip && e !in r.parent
      && HandlingAt(r, e, Allocated) && r.fault[e].v == v && At(r, e, v) == At(s, e, v)
  {
    hide Inv;
    EnvNow(s, e);
  }

  lemma {:induction false} FaultCopies(s: State, e: int)
    requires Inv(s) && HandlingAt(s, e, Allocated) && e !in s.parent
    ensures var t := FaultCopy(e); var r := Next(s, t);
      && Enabled(s, t) && Meaning(s, t) == RSkip && e !in r.parent
      && HandlingAt(r, e, Copied) && r.fault[e].v == s.fault[e].v && r.vm == s.vm
  {
    hide Exclusive, ForkOk, ChildOk;
    assert EnvOk(s, e);
  }

  lemma {:induction false} FaultMoves(s: State, e: int)
    requires Inv(s) && HandlingAt(s, e, Copied) && e !in s.parent
    ensures var t, v := FaultMove(e), s.fault[e].v; var r := Next(s, t);
      && Enabled(s, t) && Meaning(s, t) == (if At(s, e, v).cow then RSkip else RGrant(e, v)) && e !in r.parent
      && HandlingAt(r, e, Moved) && r.fault[e].v == v && v != PFTEMP && At(r, e, v).w
  {
    hide Exclusive, ForkOk, ChildOk;
    assert EnvOk(s, e);
  }

  lemma {:induction false} FaultEnds(s: State, e: int)
    requires Inv(s) && HandlingAt(s, e, Moved) && e !in s.parent && s.fault[e].v != PFTEMP && At(s, e, s.fault[e].v).w
    ensures var t, v := FaultEnd(e), s.fault[e].v; var r := Next(s, t);
      Enabled(s, t) && Meaning(s, t) == RSkip && Active(r, e) && Maps(r, e, v) && At(r, e, v).w
  {
    hide Exclusive;
    assert EnvOk(s, e);
  }

  // Making a page writable that is, or is copy-on-write, changes nothing.
  lemma {:induction false} GrantIs(s: State, e: int, v: int)
    requires Inv(s) && Active(s, e) && Maps(s, e, v) && v != PFTEMP
    ensures RefEnabled(View(s), RGrant(e, v))
    ensures At(s, e, v).w || At(s, e, v).cow <==> RefNext(View(s), RGrant(e, v)) == View(s)
    ensures RefEnabled(View(s), RStore(e, v, 0, 0)) <==> At(s, e, v).w || At(s, e, v).cow
  {
    hide Exclusive, EnvOk;
    assert Visible(s, e, v);
    var m := View(s)[e];
    assert m == Space(s, e) && m[v] == CellAt(s, e, v);
    if At(s, e, v).w || At(s, e, v).cow {
      assert m[v := Cell(m[v].data, true)] == m;
    } else {
      assert RefNext(View(s), RGrant(e, v))[e][v].writable;
    }
  }

  function Handler(e: int, v: int, np: int): seq<Step> {
    [FaultAlloc(e, v, np), FaultCopy(e), FaultMove(e), FaultEnd(e)]
  }

  // The four steps of pgfault are enabled one after the other, and make the page writable.
  lemma {:induction false} FaultRuns(s: State, e: int, v: int, np: int)
    requires Inv(s) && Active(s, e) && v != PFTEMP && Maps(s, e, v) && !At(s, e, v).w && Fresh(s, np)
    ensures RunEnabled(s, Handler(e, v, np)) && RefEnabled(View(s), RGrant(e, v))
    ensures var r := Run(s, Handler(e, v, np));
      Inv(r) && Active(r, e) && Maps(r, e, v) && At(r, e, v).w && View(r) == RefNext(View(s), RGrant(e, v))
  {
    hide Inv, Enabled, Next, View, Meaning, RefNext, RefEnabled, Active, HandlingAt;
    FaultBegins(s, e, v, np);
    StepRefines(s, FaultAlloc(e, v, np));
    var s1 := Next(s, FaultAlloc(e, v, np));
    FaultCopies(s1, e);
    StepRefines(s1, FaultCopy(e));
    var s2 := Next(s1, FaultCopy(e));
    FaultMoves(s2, e);
    StepRefines(s2, FaultMove(e));
    var s3 := Next(s2, FaultMove(e));
    FaultEnds(s3, e);
    StepRefines(s3, FaultEnd(e));
    var s4 := Next(s3, FaultEnd(e));
    GrantIs(s, e, v);
    Skips(View(s));
    Skips(View(s1));
    Skips(View(s3));
    assert View(s2) == View(s) && View(s4) == View(s3);
    var ts := Handler(e, v, np);
    assert RunEnabled(s4, []) && Run(s4, []) == s4;
    assert ts[1..][1..][1..] == [FaultEnd(e)] && ts[1..][1..] == [FaultMove(e), FaultEnd(e)];
    assert RunEnabled(s3, ts[3..]) && Run(s3, ts[3..]) == s4;
    assert RunEnabled(s2, ts[2..]) && Run(s2, ts[2..]) == s4;
    assert RunEnabled(s1, ts[1..]) && Run(s1, ts[1..]) == s4;
  }

  lemma Skips(r: Ref)
    ensures RefEnabled(r, RSkip) && RefNext(r, RSkip) == r
  {
  }

  lemma {:induction false} RunAppend(s: State, ts: seq<Step>, t: Step)
    requires RunEnabled(s, ts) && Enabled(Run(s, ts), t)
    ensures RunEnabled(s, ts + [t]) && Run(s, ts + [t]) == Next(Run(s, ts), t)
    decreases |ts|
  {
    hide Enabled, Next;
    if ts == [] {
      assert RunEnabled(Next(s, t), []) && [t][1..] == [];
      assert ts + [t] == [t];
    } else {
      assert (ts + [t])[1..] == ts[1..] + [t];
      RunAppend(Next(s, ts[0]), ts[1..], t);
    }
  }

  // A store as its environment makes it: at once, or after pgfault has run.
  function StoreSteps(s: State, e: int, v: int, off: nat, b: int, np: int): seq<Step>
    requires Maps(s, e, v)
  {
    (if At(s, e, v).w then [] else Handler(e, v, np)) + [Write(e, v, off, b)]
  }

  /** Every store to a page that is mapped goes through, given a free page: where the reference
      allows it, it is the reference's store, and a read-only page is made writable first. */
  lemma {:induction false} StoreGoesThrough(s: State, e: int, v: int, off: nat, b: int, np: int)
    requires Inv(s) && Active(s, e) && v != PFTEMP && Maps(s, e, v) && off < PGSIZE && Fresh(s, np)
    ensures RunEnabled(s, StoreSteps(s, e, v, off, b, np))
    ensures var r, r', t := View(s), View(Run(s, StoreSteps(s, e, v, off, b, np))), RStore(e, v, off, b);
      && RefEnabled(r, RGrant(e, v)) && RefEnabled(RefNext(r, RGrant(e, v)), t)
      && r' == RefNext(RefNext(r, RGrant(e, v)), t)
      && (RefEnabled(r, t) ==> r' == RefNext(r, t))
  {
    hide Inv, Enabled, Next, View, RefNext, Active, Run, RunEnabled;
    GrantIs(s, e, v);
    var ts := if At(s, e, v).w then [] else Handler(e, v, np);
    if At(s, e, v).w {
      EmptyRun(s);
    } else {
      FaultRuns(s, e, v, np);
    }
    var s' := Run(s, ts);
    WriteEnabled(s', e, v, off, b);
    StepRefines(s', Write(e, v, off, b));
    RunAppend(s, ts, Write(e, v, off, b));
    assert RefEnabled(View(s), RStore(e, v, off, b)) ==> RefEnabled(View(s), RStore(e, v, 0, 0));
  }

  lemma EmptyRun(s: State)
    ensures RunEnabled(s, []) && Run(s, []) == s
  {
  }

  lemma WriteEnabled(s: State, e: int, v: int, off: nat, b: int)
    requires Inv(s) && Active(s, e) && v != PFTEMP && Maps(s, e, v) && At(s, e, v).w && off < PGSIZE
    ensures Enabled(s, Write(e, v, off, b)) && Meaning(s, Write(e, v, off, b)) == RStore(e, v, off, b)
  {
    hide Exclusive, EnvOk;
  }

  // ---------- fork_v0 ----------

  // dup_or_share: a writable page is copied through UTEMP, any other is shared read-only.
  ghost function DupOrShare(s: State, e: int, c: int, v: int, np: int): State
    requires Inv(s) && Maps(s, e, v) && c in s.vm && c != e && Fresh(s, np) && v != UTEMP
  {
    if !At(s, e, v).w then SysPageMap(s, e, v, c, v, false, false)
    else
      var s1 := SysPageAlloc(s, c, v, np);
      var s2 := SysPageMap(s1, c, v, e, UTEMP, true, false);
      var s3 := MemMove(s2, e, UTEMP, v);
      SysPageUnmap(s3, e, UTEMP)
  }

  // It is the reference's copy exactly when the page is not copy-on-write: a COW page it shares
  // read-only, so the child could not store to it any more.
  lemma {:induction false} EagerForkIsReference(s: State, e: int, c: int, v: int, np: int)
    requires Inv(s) && ForkingBetween(s, e) && c == s.fork[e].child && c != e && Maps(s, e, v) && !Maps(s, c, v)
    requires Fresh(s, np)
    requires v != UTEMP && v != PFTEMP && !Maps(s, e, UTEMP)
    ensures View(DupOrShare(s, e, c, v, np)) == RefNext(View(s), RCopy(e, c, v)) <==> !At(s, e, v).cow || At(s, e, v).w
  {
    var s' := DupOrShare(s, e, c, v, np);
    assert EnvOk(s, e);
    assert Visible(s, e, v) && Visible(s', c, v);
    assert At(s', c, v).page == if At(s, e, v).w then np else At(s, e, v).page;
    forall x, y | x != c || y != v ensures SameSeen(s, s', x, y) {
    }
    ViewSet(s, s', c, v);
    assert CellAt(s', c, v).data == CellAt(s, e, v).data && CellAt(s', c, v).writable == At(s, e, v).w;
    if At(s, e, v).cow && !At(s, e, v).w {
      assert View(s')[c][v] != RefNext(View(s), RCopy(e, c, v))[c][v];
    }
  }

  // ---------- duppage and fork as the source runs them ----------

  function Below(m: map<int, Cell>, k: int): map<int, Cell> {
    map v | v in m && v < k && v != UXSTACK :: m[v]
  }

  predicate Builds(s: State, e: int, c: int) {
    ForkingBetween(s, e) && s.fork[e].child == c && c != e
  }

  // duppage's system calls, with the bookkeeping of where fork stands.
  function DupFirst(s: State, e: int, c: int, v: int): State
    requires Builds(s, e, c) && Maps(s, e, v)
  {
    SetFork(SysPageMap(s, e, v, c, v, false, true), e, Forking(c, Mid(v, At(s, e, v).w)))
  }

  function DupSecond(s: State, e: int, c: int, v: int): State
    requires Maps(s, e, v)
  {
    SetFork(SysPageMap(s, e, v, e, v, false, true), e, Forking(c, Between))
  }

  function DupPageState(s: State, e: int, c: int, v: int): State
    requires Builds(s, e, c) && Maps(s, e, v)
  {
    if At(s, e, v).w || At(s, e, v).cow then DupSecond(DupFirst(s, e, c, v), e, c, v)
    else SysPageMap(s, e, v, c, v, false, false)
  }

  lemma DupPageFrame(s: State, e: int, c: int, v: int)
    requires Builds(s, e, c) && Maps(s, e, v)
    ensures var s' := DupPageState(s, e, c, v);
      && Builds(s', e, c) && s'.vm.Keys == s.vm.Keys
      && s'.vm[e].Keys == s.vm[e].Keys && s'.vm[c].Keys == s.vm[c].Keys + {v}
      && forall np | Fresh(s, np) :: Fresh(s', np)
  {
    var s' := DupPageState(s, e, c, v);
    forall np | Fresh(s, np) ensures Fresh(s', np) {
      forall x, y | Maps(s', x, y) ensures At(s', x, y).page != np {
        assert At(s, e, v).page != np;
        assert (x == c && y == v) || (Maps(s, x, y) && At(s', x, y).page == At(s, x, y).page);
      }
    }
  }

  lemma DupPageSteps(s: State, e: int, c: int, v: int)
    requires Builds(s, e, c) && Maps(s, e, v) && v != PFTEMP && !Maps(s, c, v)
    ensures if At(s, e, v).w || At(s, e, v).cow then
        var s1 := DupFirst(s, e, c, v);
        && Enabled(s, DupChild(e, v)) && Next(s, DupChild(e, v)) == s1
        && Enabled(s1, DupParent(e)) && Next(s1, DupParent(e)) == DupPageState(s, e, c, v)
        && (if At(s, e, v).w then Meaning(s, DupChild(e, v)) == RSkip && Meaning(s1, DupParent(e)) == RCopy(e, c, v)
            else Meaning(s, DupChild(e, v)) == RCopy(e, c, v) && Meaning(s1, DupParent(e)) == RSkip)
      else
        && Enabled(s, DupShare(e, v)) && Next(s, DupShare(e, v)) == DupPageState(s, e, c, v)
        && Meaning(s, DupShare(e, v)) == RCopy(e, c, v)
  {
  }

  lemma DupPageRefines(s: State, e: int, c: int, v: int)
    requires Inv(s) && Builds(s, e, c) && Maps(s, e, v) && v != PFTEMP && !Maps(s, c, v)
    ensures Inv(DupPageState(s, e, c, v))
    ensures RefEnabled(View(s), RCopy(e, c, v)) && View(DupPageState(s, e, c, v)) == RefNext(View(s), RCopy(e, c, v))
  {
    hide Inv, Meaning, Enabled, Next, View, DupPageState, DupFirst, DupSecond;
    DupPageSteps(s, e, c, v);
    if At(s, e, v).w || At(s, e, v).cow {
      StepRefines(s, DupChild(e, v));
      StepRefines(DupFirst(s, e, c, v), DupParent(e));
    } else {
      StepRefines(s, DupShare(e, v));
    }
  }

  // fork's first call ...
  function BeginFork(s: State, e: int, c: int): State {
    s.(vm := s.vm[c := map[]], fault := s.fault[c := NoFault],
      fork := s.fork[e := Forking(c, Between)][c := NotForking], parent := s.parent[c := e])
  }

  lemma BeginForkRefines(s: State, e: int, c: int)
    requires Inv(s) && Idle(s, e) && c !in s.vm && c !in s.parent
    ensures Inv(BeginFork(s, e, c)) && View(BeginFork(s, e, c)) == View(s)[c := map[]]
  {
    assert Enabled(s, Exofork(e, c)) && Next(s, Exofork(e, c)) == BeginFork(s, e, c);
    assert Meaning(s, Exofork(e, c)) == RCreate(c);
    hide Inv, Meaning, Enabled, Next, View;
    StepRefines(s, Exofork(e, c));
  }

  lemma BeginForkFrame(s: State, e: int, c: int)
    requires Inv(s) && Idle(s, e) && c !in s.vm && c !in s.parent
    ensures var s' := BeginFork(s, e, c);
      && Builds(s', e, c) && s'.vm[e] == s.vm[e] && s'.vm[c] == map[]
      && forall np | Fresh(s, np) :: Fresh(s', np)
    ensures PFTEMP !in s.vm[e] && e in View(s) && View(s)[e].Keys == s.vm[e].Keys
  {
    var s' := BeginFork(s, e, c);
    assert EnvOk(s, e) && e !in s.parent;
    assert forall v :: Visible(s, e, v) <==> v in s.vm[e];
    assert View(s)[e] == Space(s, e);
    assert forall x, y | Maps(s', x, y) :: x != c && At(s', x, y) == At(s, x, y);
    hide Inv;
  }

  // ... and its last: the child's exception stack, and the child may run.
  function EndFork(s: State, e: int, c: int, np: int): State
    requires c in s.vm
  {
    SetFork(SysPageAlloc(s, c, UXSTACK, np), e, NotForking).(parent := s.parent - {c})
  }

  lemma EndForkSteps(s: State, e: int, c: int, np: int)
    requires Builds(s, e, c) && Fresh(s, np)
    ensures Enabled(s, AllocChild(e, UXSTACK, np)) && Meaning(s, AllocChild(e, UXSTACK, np)) == RNew(c, UXSTACK)
    ensures Next(s, AllocChild(e, UXSTACK, np)) == SysPageAlloc(s, c, UXSTACK, np)
    ensures Enabled(SysPageAlloc(s, c, UXSTACK, np), Start(e))
    ensures Meaning(SysPageAlloc(s, c, UXSTACK, np), Start(e)) == RSkip
    ensures Next(SysPageAlloc(s, c, UXSTACK, np), Start(e)) == EndFork(s, e, c, np)
  {
  }

  lemma InView(s: State, c: int)
    requires c in s.vm
    ensures c in View(s)
  {
  }

  lemma EndForkRefines(s: State, e: int, c: int, np: int)
    requires Inv(s) && Builds(s, e, c) && Fresh(s, np)
    ensures Inv(EndFork(s, e, c, np))
    ensures RefEnabled(View(s), RNew(c, UXSTACK)) && View(EndFork(s, e, c, np)) == RefNext(View(s), RNew(c, UXSTACK))
    ensures c in View(s)
  {
    hide Inv, Meaning, Enabled, Next, View, EndFork, SysPageAlloc, Fresh;
    InView(s, c);
    EndForkSteps(s, e, c, np);
    StepRefines(s, AllocChild(e, UXSTACK, np));
    StepRefines(SysPageAlloc(s, c, UXSTACK, np), Start(e));
  }

  lemma EndForkIdle(s: State, e: int, c: int, np: int)
    requires Inv(s) && Builds(s, e, c)
    ensures Idle(EndFork(s, e, c, np), e) && Idle(EndFork(s, e, c, np), c)
  {
    hide Exclusive, FaultOk;
    assert EnvOk(s, e) && EnvOk(s, c);
  }

  // Where dup_or_share fails: a program with one page, which it may write, calls fork and then
  // fork_v0.  The page is copy-on-write only by then, and the second child may not write its copy.
  function ForkSteps(e: int, c: int, v: int, np: int): seq<Step> {
    [Exofork(e, c), DupChild(e, v), DupParent(e), AllocChild(e, UXSTACK, np), Start(e)]
  }

  lemma {:induction false} ForkRuns(s: State, e: int, c: int, v: int, np: int)
    requires Inv(s) && Idle(s, e) && c !in s.vm && c !in s.parent && Fresh(s, np)
    requires Maps(s, e, v) && At(s, e, v).w && v != PFTEMP
    ensures RunEnabled(s, ForkSteps(e, c, v, np))
    ensures var r := Run(s, ForkSteps(e, c, v, np));
      && Inv(r) && Idle(r, e) && r.vm.Keys == s.vm.Keys + {c} && r.parent == s.parent && r.vm[e].Keys == s.vm[e].Keys
      && At(r, e, v) == Pte(At(s, e, v).page, false, true)
  {
    hide Inv, Enabled, Next, View, Meaning, RefNext, Fresh, Run, RunEnabled, EndFork;
    var s1 := BeginFork(s, e, c);
    BeginForkSteps(s, e, c);
    BeginForkRefines(s, e, c);
    BeginForkFrame(s, e, c);
    var s2, s3 := DupFirst(s1, e, c, v), DupPageState(s1, e, c, v);
    DupPageSteps(s1, e, c, v);
    DupPageRefines(s1, e, c, v);
    DupPageFrame(s1, e, c, v);
    AfterFork(s, e, c, v, np);
    hide DupFirst, DupPageState, BeginFork;
    EndForkSteps(s3, e, c, np);
    EndForkRefines(s3, e, c, np);
    EndForkIdle(s3, e, c, np);
    var t5, t4 := [Start(e)], [AllocChild(e, UXSTACK, np), Start(e)];
    var t3 := [DupParent(e)] + t4;
    EmptyRun(EndFork(s3, e, c, np));
    RunCons(SysPageAlloc(s3, c, UXSTACK, np), Start(e), [], t5);
    RunCons(s3, AllocChild(e, UXSTACK, np), t5, t4);
    RunCons(s2, DupParent(e), t4, t3);
    RunCons(s1, DupChild(e, v), t3, [DupChild(e, v)] + t3);
    RunCons(s, Exofork(e, c), [DupChild(e, v)] + t3, ForkSteps(e, c, v, np));
  }

  lemma {:induction false} RunCons(s: State, t: Step, ts: seq<Step>, all: seq<Step>)
    requires Enabled(s, t) && RunEnabled(Next(s, t), ts) && all == [t] + ts
    ensures RunEnabled(s, all) && Run(s, all) == Run(Next(s, t), ts)
  {
    hide Enabled, Next;
    assert all[0] == t && all[1..] == ts;
  }

  lemma AfterFork(s: State, e: int, c: int, v: int, np: int)
    requires Idle(s, e) && c !in s.vm && c !in s.parent && Maps(s, e, v) && At(s, e, v).w
    ensures Builds(BeginFork(s, e, c), e, c) && Maps(BeginFork(s, e, c), e, v)
    ensures c in DupPageState(BeginFork(s, e, c), e, c, v).vm
    ensures var r := EndFork(DupPageState(BeginFork(s, e, c), e, c, v), e, c, np);
      && r.vm.Keys == s.vm.Keys + {c} && r.parent == s.parent && r.vm[e].Keys == s.vm[e].Keys
      && At(r, e, v) == Pte(At(s, e, v).page, false, true)
  {
  }

  lemma BeginForkSteps(s: State, e: int, c: int)
    requires Idle(s, e) && c !in s.vm && c !in s.parent
    ensures Enabled(s, Exofork(e, c)) && Next(s, Exofork(e, c)) == BeginFork(s, e, c)
  {
  }

  lemma {:induction false} ForkThenEagerFork(s: State, e: int, c: int, c': int, v: int, np: int, np': int)
    requires Inv(s) && Idle(s, e) && s.vm[e].Keys == {v} && At(s, e, v).w && v != PFTEMP && v != UTEMP
    requires c !in s.vm && c !in s.parent && c' !in s.vm && c' !in s.parent && c != c' && Fresh(s, np)
    requires RunEnabled(s, ForkSteps(e, c, v, np)) && Fresh(Run(s, ForkSteps(e, c, v, np)), np')
    ensures Idle(Run(s, ForkSteps(e, c, v, np)), e)
    ensures var r := BeginFork(Run(s, ForkSteps(e, c, v, np)), e, c');
      && Inv(r) && Maps(r, e, v) && c' in r.vm && c' != e && Fresh(r, np')
      && View(DupOrShare(r, e, c', v, np')) != RefNext(View(r), RCopy(e, c', v))
  {
    hide Inv, Enabled, Next, View, RefNext, Fresh, DupOrShare, Run, RunEnabled;
    ForkRuns(s, e, c, v, np);
    var r := Run(s, ForkSteps(e, c, v, np));
    BeginForkRefines(r, e, c');
    BeginForkFrame(r, e, c');
    EagerForkIsReference(BeginFork(r, e, c'), e, c', v, np');
  }

  class System {
    var s: State

    // Its two system calls (one for a read-only page) amount to the reference's copy.
    method DupPage(e: int, c: int, v: int)
      requires Inv(s) && Builds(s, e, c) && v != PFTEMP && Maps(s, e, v) && !Maps(s, c, v)
      modifies this
      ensures Inv(s) && Builds(s, e, c)
      ensures RefEnabled(View(old(s)), RCopy(e, c, v)) && View(s) == RefNext(View(old(s)), RCopy(e, c, v))
      ensures s.vm.Keys == old(s.vm.Keys) && s.vm[e].Keys == old(s.vm[e].Keys)
      ensures s.vm[c].Keys == old(s.vm[c].Keys) + {v}
      ensures forall np | Fresh(old(s), np) :: Fresh(s, np)
    {
      hide Inv, View, RefNext, Fresh;
      DupPageRefines(s, e, c, v);
      DupPageFrame(s, e, c, v);
      var pte := At(s, e, v);
      if pte.w || pte.cow {
        s := DupFirst(s, e, c, v);
        s := DupSecond(s, e, c, v);
      } else {
        s := SysPageMap(s, e, v, c, v, false, false);
      }
      assert s == DupPageState(old(s), e, c, v);
    }

    // fork: afterwards the child, ready to run, has the parent's memory with a new exception
    // stack, and nothing else has changed for anyone.
    method ForkChild(e: int, c: int, np: int)
      requires Inv(s) && Idle(s, e) && c !in s.vm && c !in s.parent && Fresh(s, np)
      requires forall v | v in s.vm[e] :: 0 <= v < UVPNS
      modifies this
      ensures Inv(s) && Idle(s, e) && Idle(s, c)
      ensures e in View(old(s))
      ensures View(s) == View(old(s))[c := Below(View(old(s))[e], UVPNS)[UXSTACK := Cell(Zero(), true)]]
    {
      hide Inv, View, Fresh, BeginFork, EndFork, Idle, Zero, RefNext, RefEnabled, Below;
      ghost var r0 := View(s);
      BeginForkRefines(s, e, c);
      BeginForkFrame(s, e, c);
      ghost var m := r0[e];
      s := BeginFork(s, e, c);
      ForkPages(e, c, np, r0, m);
      EndForkRefines(s, e, c, np);
      EndForkIdle(s, e, c, np);
      NewInRef(View(s), c);
      s := EndFork(s, e, c, np);
    }

    // The loop over all pages below UTOP.
    method ForkPages(e: int, c: int, np: int, ghost r0: Ref, ghost m: map<int, Cell>)
      requires Inv(s) && Builds(s, e, c) && Fresh(s, np) && View(s) == r0[c := map[]]
      requires e in r0 && r0[e] == m && PFTEMP !in m && (forall v | v in m :: v >= 0) && s.vm[e].Keys == m.Keys
      requires s.vm[c] == map[]
      modifies this
      ensures Inv(s) && Builds(s, e, c) && Fresh(s, np) && View(s) == r0[c := Below(m, UVPNS)]
    {
      hide Inv, View, Fresh, RefNext, Below;
      BelowGrows(m, 0);
      for v := 0 to UVPNS
        invariant Inv(s) && Builds(s, e, c) && Fresh(s, np)
        invariant s.vm[e].Keys == m.Keys && s.vm[c].Keys == Below(m, v).Keys
        invariant View(s) == r0[c := Below(m, v)]
      {
        BelowGrows(m, v);
        if v != UXSTACK && Maps(s, e, v) {
          CopyInRef(View(s), e, c, v);
          DupPage(e, c, v);
        }
      }
    }
  }

  lemma BelowGrows(m: map<int, Cell>, k: int)
    requires k >= 0
    ensures k == 0 && (forall v | v in m :: v >= 0) ==> Below(m, k) == map[]
    ensures Below(m, k + 1) == if k in m && k != UXSTACK then Below(m, k)[k := m[k]] else Below(m, k)
    ensures k !in Below(m, k)
  {
  }

  lemma CopyInRef(r: Ref, e: int, c: int, v: int)
    requires RefEnabled(r, RCopy(e, c, v))
    ensures RefNext(r, RCopy(e, c, v)) == r[c := r[c][v := r[e][v]]]
  {
  }

  lemma NewInRef(r: Ref, c: int)
    requires c in r
    ensures RefNext(r, RNew(c, UXSTACK)) == r[c := r[c][UXSTACK := Cell(Zero(), true)]]
  {
  }
}
