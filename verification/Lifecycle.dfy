/**
  The life of environments on one CPU: allocation and the free list, system calls, the timer, and
  the scheduler (sched/kern/env.c, sched.c, syscall.c, trap.c).  A function that never returns in
  the source leaves the kernel here by changing the mode.
*/
module LifecycleSpec {
  import opened EnvIds
  import opened Envs
  import opened Lottery
  import ParkMiller
  import Bits
  import Mmu

  const SYS_EXOFORK := 7
  const SYS_ENV_DESTROY := 3
  const SYS_ENV_SET_STATUS := 8
  const SYS_YIELD := 10
  const SYS_IPC_TRY_SEND := 11
  const SYS_IPC_RECV := 12
  const SYS_ENV_SET_PRIORITY := 14

  const TICKET_STEP := 50
  const E_BAD_ENV := 2
  const E_INVAL := 3
  const E_NO_MEM := 4
  const E_NO_FREE_ENV := 5
  const E_IPC_NOT_RECV := 7

  // In the kernel; in user mode, running cur; asleep until an interrupt; in the kernel monitor.
  datatype Mode = Kernel | User | Halted | Monitor

  // cur is curenv, -1 for NULL.
  datatype Sys = Sys(envs: seq<Env>, freeList: int, cur: int, seed: int, log: seq<Entry>, mode: Mode)

  // What brings the CPU into the kernel: the timer, a fault with no handler, a system call, or
  // anything else that returns to the environment (other calls, page faults with a handler).
  // Events that are no modelled call carry eax: what the program has in it, for Other on its return.
  // In TrySend, pageErr is the outcome of looking up and mapping the page (0 or a negative error).
  datatype Event =
    | Timer(eax: int) | Fault(eax: int)
    | Exofork(memOk: bool) | SetStatus(envid: int, status: Status) | Destroy(envid: int) | Yield
    | Recv(dstva: nat) | TrySend(envid: int, value: int, srcva: nat, perm: nat, pageErr: int)
    | SetPriority | Other(eax: int)

  // eax as the trap saves it: a program puts the number of the call there.
  function SavedEax(ev: Event): int {
    match ev
    case Timer(x) => x
    case Fault(x) => x
    case Exofork(_) => SYS_EXOFORK
    case SetStatus(_, _) => SYS_ENV_SET_STATUS
    case Destroy(_) => SYS_ENV_DESTROY
    case Yield => SYS_YIELD
    case Recv(_) => SYS_IPC_RECV
    case TrySend(_, _, _, _, _) => SYS_IPC_TRY_SEND
    case SetPriority => SYS_ENV_SET_PRIORITY
    case Other(x) => x
  }

  predicate IsCall(ev: Event) { !ev.Timer? && !ev.Fault? && !ev.Other? }

  predicate Shape(s: Sys) {
    && |s.envs| == NENV && -1 <= s.cur < NENV && -1 <= s.freeList < NENV
    && forall i | 0 <= i < NENV :: -1 <= s.envs[i].link < NENV
  }

  function SetEnv(s: Sys, i: int, e: Env): Sys
    requires 0 <= i < |s.envs|
  {
    s.(envs := s.envs[i := e])
  }

  // ---------- scheduling ----------

  // env_run
  function EnvRun(s: Sys, e: int): (t: Sys)
    requires Shape(s) && 0 <= e < NENV
    ensures Shape(t) && t.mode.User?
  {
    var u :=
      if s.cur >= 0 && s.envs[s.cur].status.Running? then SetEnv(s, s.cur, s.envs[s.cur].(status := Runnable)) else s;
    var env := u.envs[e];
    SetEnv(u, e, env.(status := Running, runs := (env.runs + 1) % WORD)).(cur := e, mode := User)
  }

  function Draw(s: Sys): int
    requires Shape(s)
  {
    ParkMiller.Times(s.seed) % (if Pool(s.envs, NENV) >= 0 then Pool(s.envs, NENV) + 1 else 1)
  }

  // sched_halt: with nothing left to wait for, the kernel monitor takes over.
  function SchedHalt(s: Sys): (t: Sys)
    ensures !t.mode.Kernel?
  {
    if exists i | 0 <= i < |s.envs| :: Eligible(s.envs[i]) || s.envs[i].status.Dying? then s.(cur := -1, mode := Halted)
    else s.(mode := Monitor)
  }

  // sched_yield
  function SchedYield(s: Sys): (t: Sys)
    requires Shape(s)
    ensures Shape(t) && !t.mode.Kernel?
  {
    var p, t := Pick(s.envs, Draw(s)), s.(seed := ParkMiller.Times(s.seed));
    PickFromIs(s.envs, Draw(s), 0);
    if p >= 0 then
      var e := s.envs[p];
      EnvRun(t.(log := t.log + [Entry(e.id, e.tickets, e.runs)]), p)
    else SchedHalt(t)
  }

  // round_robin, which returns when nothing is to run.
  function RoundRobin(s: Sys): (t: Sys)
    requires Shape(s)
    ensures Shape(t)
  {
    CircularRange(s.envs, s.cur + 1, 0);
    var p := RoundRobinPick(s.envs, s.cur);
    if p >= 0 then EnvRun(s, p) else s
  }

  // ---------- allocation ----------

  function Fresh(e: Env, slot: nat, parent: int): Env {
    e.(status := Runnable, id := NextId(e.id, slot), parent := parent, tickets := TICKET_STEP, runs := 0, eax := 0,
       recving := false)
  }

  // env_alloc: the new state, and the slot or a negative error; memOk says whether env_setup_vm
  // finds memory for the page directory.
  function EnvAlloc(s: Sys, parent: int, memOk: bool): (r: (Sys, int))
    requires Shape(s)
    ensures Shape(r.0) && r.1 < NENV
  {
    if s.freeList < 0 then (s, -E_NO_FREE_ENV)
    else if !memOk then (s, -E_NO_MEM)
    else
      var e := s.envs[s.freeList];
      (SetEnv(s, s.freeList, Fresh(e, s.freeList, parent)).(freeList := e.link), s.freeList)
  }

  // env_free, of which the memory part is PageTables.Memory.EnvFree
  function EnvFree(s: Sys, e: int): (t: Sys)
    requires Shape(s) && 0 <= e < NENV
    ensures Shape(t)
  {
    SetEnv(s, e, s.envs[e].(status := Free, link := s.freeList)).(freeList := e)
  }

  // env_destroy
  function EnvDestroy(s: Sys, e: int): (t: Sys)
    requires Shape(s) && 0 <= e < NENV
    ensures Shape(t)
  {
    if s.envs[e].status.Running? && s.cur != e then SetEnv(s, e, s.envs[e].(status := Dying))
    else
      var t := EnvFree(s, e);
      if s.cur == e then SchedYield(t.(cur := -1)) else t
  }

  // ---------- system calls and traps ----------

  function SpendTicket(s: Sys): Sys
    requires Shape(s)
  {
    if s.cur >= 0 && s.envs[s.cur].tickets > 2
    then SetEnv(s, s.cur, s.envs[s.cur].(tickets := s.envs[s.cur].tickets - 1))
    else s
  }

  // An address sys_ipc_recv accepts.
  predicate DstvaOk(dstva: nat) { dstva < Mmu.UTOP && dstva % Mmu.PGSIZE == 0 }

  // The result of sys_ipc_try_send to an existing environment e.
  function SendResult(e: Env, ev: Event): int
    requires ev.TrySend?
  {
    if !e.recving then -E_IPC_NOT_RECV
    else if ev.srcva >= Mmu.UTOP then 0
    else if ev.srcva % Mmu.PGSIZE != 0 then -E_INVAL
    else if ev.pageErr < 0 then ev.pageErr
    else 0
  }

  // The receiver after a successful send.
  function Delivered(e: Env, ev: Event, from: int): Env
    requires ev.TrySend?
  {
    var perm :=
      if ev.srcva >= Mmu.UTOP then 0
      else if e.dstva != 0 then Bits.BitOr(ev.perm, Mmu.PTE_U + Mmu.PTE_P)
      else e.perm;
    e.(perm := perm, from := from, recving := false, value := ev.value, eax := 0, status := Runnable)
  }

  // The state after a trap has been dispatched, and the result of a system call.
  function Dispatch(s: Sys, ev: Event): (r: (Sys, int))
    requires Shape(s) && s.cur >= 0
    ensures Shape(r.0)
  {
    var c := s.cur;
    match ev
    case Timer(_) => (SchedYield(SpendTicket(s)), 0)
    case Fault(_) => (EnvDestroy(s, c), 0)
    case Exofork(memOk) =>
      var (t, e) := EnvAlloc(s, s.envs[c].id, memOk);
      if e < 0 then (t, e)
      else (SetEnv(t, e, t.envs[e].(status := NotRunnable, eax := 0, tickets := t.envs[c].tickets)), t.envs[e].id)
    case SetStatus(envid, status) =>
      if !status.Runnable? && !status.NotRunnable? then (s, -E_INVAL)
      else
        var e := Envid2Env(s.envs, c, envid, true);
        if e < 0 then (s, -E_BAD_ENV) else (SetEnv(s, e, s.envs[e].(status := status)), 0)
    case Destroy(envid) =>
      var e := Envid2Env(s.envs, c, envid, true);
      if e < 0 then (s, -E_BAD_ENV) else (EnvDestroy(s, e), 0)
    case Yield => (SchedYield(s), 0)
    case Recv(dstva) =>
      var t := SetEnv(s, c, s.envs[c].(recving := true));
      if !DstvaOk(dstva) then (t, -E_INVAL)
      else (SchedYield(SetEnv(t, c, t.envs[c].(dstva := dstva, status := NotRunnable))), 0)
    case TrySend(envid, value, srcva, perm, pageErr) =>
      var e := Envid2Env(s.envs, c, envid, false);
      if e < 0 then (s, -E_BAD_ENV)
      else if SendResult(s.envs[e], ev) < 0 then (s, SendResult(s.envs[e], ev))
      else (SetEnv(s, e, Delivered(s.envs[e], ev, s.envs[c].id)), 0)
    case SetPriority =>
      var t := SpendTicket(s);
      (t, t.envs[c].tickets)
    case Other(_) => (s, 0)
  }

  // A system call that returns puts its result into eax of the caller's trap frame.
  function Answered(s: Sys, c: int, ev: Event, r: int): (t: Sys)
    requires Shape(s) && 0 <= c < NENV
    ensures Shape(t)
  {
    if s.mode.Kernel? && IsCall(ev) then SetEnv(s, c, s.envs[c].(eax := r)) else s
  }

  // The end of trap(): back to the current environment if it may still run.
  function TrapReturn(s: Sys): (t: Sys)
    requires Shape(s)
    ensures Shape(t) && !t.mode.Kernel?
  {
    if s.cur >= 0 && s.envs[s.cur].status.Running? then EnvRun(s, s.cur) else SchedYield(s)
  }

  // trap(), from user mode to the next time the kernel is left.
  function Trap(s: Sys, ev: Event): (t: Sys)
    requires Shape(s) && s.cur >= 0
    ensures Shape(t) && !t.mode.Kernel?
  {
    var k, c := s.(mode := Kernel), s.cur;
    if k.envs[c].status.Dying? then SchedYield(EnvFree(k, c).(cur := -1))
    else
      var (d, r) := Dispatch(Saved(k, ev), ev);
      if d.mode.Kernel? then TrapReturn(Answered(d, c, ev, r)) else d
  }

  // The trap frame is copied to the environment.
  function Saved(k: Sys, ev: Event): (t: Sys)
    requires Shape(k) && 0 <= k.cur
    ensures Shape(t)
  {
    SetEnv(k, k.cur, k.envs[k.cur].(eax := SavedEax(ev)))
  }

  // env_init
  function Boot(seed: int): (t: Sys)
    ensures Shape(t)
  {
    var envs := seq(NENV, i => Env(Free, if i + 1 < NENV then i + 1 else -1, 0, 0, 0, 0, 0, false, 0, 0, 0, 0));
    Sys(envs, 0, -1, seed, [], Kernel)
  }

  // ---------- the invariant ----------

  // fs is the free list from its head on; it holds every free environment once.
  ghost predicate FreeListIs(envs: seq<Env>, head: int, fs: seq<int>) {
    && Linked(envs, head, fs) && Distinct(fs)
    && forall i | 0 <= i < |envs| :: i in fs <==> envs[i].status.Free?
  }

  predicate Linked(envs: seq<Env>, head: int, fs: seq<int>)
    decreases |fs|
  {
    if fs == [] then head == -1
    else head == fs[0] && 0 <= head < |envs| && Linked(envs, envs[head].link, fs[1..])
  }

  predicate Distinct(fs: seq<int>)
    decreases |fs|
  {
    fs == [] || (fs[0] !in fs[1..] && Distinct(fs[1..]))
  }

  // Links outside the list do not matter to it.
  lemma {:induction false} LinkedKept(envs: seq<Env>, envs': seq<Env>, head: int, fs: seq<int>)
    requires Linked(envs, head, fs) && |envs'| == |envs|
    requires forall i | 0 <= i < |envs| && i in fs :: envs'[i].link == envs[i].link
    ensures Linked(envs', head, fs)
    decreases |fs|
  {
    if fs != [] {
      assert head in fs;
      LinkedKept(envs, envs', envs[head].link, fs[1..]);
    }
  }

  ghost predicate FreeListOk(s: Sys) { exists fs :: FreeListIs(s.envs, s.freeList, fs) }

  // An environment in use: not a zombie, with 2 to 50 tickets, and running only if current.
  predicate EnvOk(e: Env, current: bool) {
    && !e.status.Dying? && (!e.status.Free? ==> 2 <= e.tickets <= TICKET_STEP)
    && (e.status.Running? ==> current) && (current ==> !e.status.Free?)
  }

  // Every id a slot has is one env_alloc has given it.
  ghost predicate IdOk(e: Env, i: int) {
    0 <= i && exists k: nat :: e.id == IdAfter(i, k) && (e.status.Free? || k >= 1)
  }

  ghost predicate Core(s: Sys) {
    && Shape(s) && FreeListOk(s) && 1 <= s.seed < ParkMiller.N
    && (forall i | 0 <= i < NENV :: IdOk(s.envs[i], i))
    && (forall i | 0 <= i < NENV :: EnvOk(s.envs[i], s.cur == i))
  }

  ghost predicate Inv(s: Sys) {
    && Core(s)
    && match s.mode
       case Kernel => true
       case User => s.cur >= 0 && s.envs[s.cur].status.Running?
       case Halted => false
       case Monitor => NoneBefore(s.envs, NENV)
  }

  predicate SameFree(a: Env, b: Env) { a.link == b.link && (a.status.Free? <==> b.status.Free?) }

  lemma FreeListKept(s: Sys, t: Sys)
    requires FreeListOk(s) && t.freeList == s.freeList && |t.envs| == |s.envs|
    requires forall i | 0 <= i < |s.envs| :: SameFree(s.envs[i], t.envs[i])
    ensures FreeListOk(t)
  {
    var fs :| FreeListIs(s.envs, s.freeList, fs);
    LinkedKept(s.envs, t.envs, s.freeList, fs);
    assert FreeListIs(t.envs, t.freeList, fs);
  }

  // A change to one environment that leaves the free list alone.
  lemma SetKeeps(s: Sys, i: int, e: Env)
    requires Core(s) && 0 <= i < NENV && SameFree(s.envs[i], e) && s.envs[i].id == e.id && EnvOk(e, s.cur == i)
    ensures Core(SetEnv(s, i, e))
  {
    hide IdAfter;
    assert IdOk(e, i) by {
      assert IdOk(s.envs[i], i);
    }
    FreeListKept(s, SetEnv(s, i, e));
  }

  lemma RunKeeps(s: Sys, e: int)
    requires Core(s) && 0 <= e < NENV && Eligible(s.envs[e])
    ensures Inv(EnvRun(s, e)) && EnvRun(s, e).cur == e
  {
    hide IdAfter;
    assert forall i | 0 <= i < NENV :: IdOk(s.envs[i], i) ==> IdOk(EnvRun(s, e).envs[i], i);
    FreeListKept(s, EnvRun(s, e));
  }

  lemma CoreTickets(s: Sys)
    requires Core(s)
    ensures TicketsNonNegative(s.envs) && 0 <= Pool(s.envs, NENV) <= NENV * TICKET_STEP
    ensures 0 <= Draw(s) <= Pool(s.envs, NENV)
  {
    PoolMonotone(s.envs, 0, NENV);
    PoolBound(s, NENV);
  }

  lemma {:induction false} PoolBound(s: Sys, k: nat)
    requires Core(s) && k <= NENV
    ensures Pool(s.envs, k) <= k * TICKET_STEP
  {
    if k > 0 {
      PoolBound(s, k - 1);
    }
  }

  lemma {:induction false} DrawKeeps(s: Sys, log: seq<Entry>)
    requires Core(s)
    ensures 1 <= s.seed < ParkMiller.N
    ensures Core(s.(seed := ParkMiller.Times(s.seed))) && Core(s.(log := log))
  {
    hide IdOk, ParkMiller.Times;
    ParkMiller.TimesInRange(s.seed);
    FreeListKept(s, s.(seed := ParkMiller.Times(s.seed)));
    FreeListKept(s, s.(log := log));
  }

  // sched_yield always runs an eligible environment if there is one; otherwise the kernel
  // monitor takes over, so that one CPU alone never sleeps.
  lemma {:induction false} YieldKeeps(s: Sys)
    requires Core(s)
    ensures Inv(SchedYield(s))
    ensures SchedYield(s).mode.User? <==> !NoneBefore(s.envs, NENV)
    ensures SchedYield(s).mode.Monitor? <==> NoneBefore(s.envs, NENV)
  {
    hide Pick, Draw;
    var w, p := Draw(s), Pick(s.envs, Draw(s));
    CoreTickets(s);
    SomeoneWins(s.envs, w);
    PickFromIs(s.envs, w, 0);
    PickIsFrom(s.envs, w);
    ParkMiller.TimesInRange(s.seed);
    var t := s.(seed := ParkMiller.Times(s.seed));
    if p >= 0 {
      var u := t.(log := t.log + [Entry(s.envs[p].id, s.envs[p].tickets, s.envs[p].runs)]);
      assert Core(u);
      RunKeeps(u, p);
    } else {
      assert SchedHalt(t) == t.(mode := Monitor);
    }
  }

  lemma PickIsFrom(envs: seq<Env>, w: int)
    ensures Pick(envs, w) == PickFrom(envs, w, 0)
  {
  }

  lemma {:induction false} AllocKeeps(s: Sys, parent: int, memOk: bool)
    requires Core(s)
    ensures var (t, e) := EnvAlloc(s, parent, memOk);
      && Core(t) && t.cur == s.cur && t.mode == s.mode
      && (e >= 0 ==> s.envs[e].status.Free? && e != s.cur && e == s.freeList && t.freeList == s.envs[e].link)
      && (e >= 0 ==> t.envs[e] == Env(Runnable, s.envs[e].link, t.envs[e].id, parent, TICKET_STEP, 0, 0,
                false, s.envs[e].dstva, s.envs[e].from, s.envs[e].value, s.envs[e].perm))
      && (forall i | 0 <= i < NENV && i != e :: t.envs[i] == s.envs[i])
      && (e < 0 <==> !memOk || forall i | 0 <= i < NENV :: !s.envs[i].status.Free?)
  {
    var (t, e) := EnvAlloc(s, parent, memOk);
    var fs :| FreeListIs(s.envs, s.freeList, fs);
    if fs != [] {
      assert fs[0] in fs;
    }
    if e >= 0 {
      assert IdOk(s.envs[e], e);
      var k: nat :| s.envs[e].id == IdAfter(e, k);
      assert NextId(s.envs[e].id, e) == IdAfter(e, k + 1);
      assert IdOk(Fresh(s.envs[e], e, parent), e);
      hide IdAfter, NextId, IdOk;
      AllocList(s, fs, Fresh(s.envs[e], e, parent));
    }
  }

  // Taking the head off the free list and putting an environment back on it.
  lemma {:induction false} AllocList(s: Sys, fs: seq<int>, e: Env)
    requires FreeListIs(s.envs, s.freeList, fs) && fs != [] && !e.status.Free?
    ensures 0 <= fs[0] < |s.envs| && FreeListIs(s.envs[fs[0] := e], s.envs[fs[0]].link, fs[1..])
  {
    assert fs == [fs[0]] + fs[1..];
    LinkedKept(s.envs, s.envs[fs[0] := e], s.envs[fs[0]].link, fs[1..]);
  }

  lemma {:induction false} FreeList(s: Sys, fs: seq<int>, i: int)
    requires FreeListIs(s.envs, s.freeList, fs) && 0 <= i < |s.envs| && !s.envs[i].status.Free?
    ensures FreeListIs(s.envs[i := s.envs[i].(status := Free, link := s.freeList)], i, [i] + fs)
  {
    var envs := s.envs[i := s.envs[i].(status := Free, link := s.freeList)];
    assert ([i] + fs)[1..] == fs;
    LinkedKept(s.envs, envs, s.freeList, fs);
  }

  lemma {:induction false} FreeKeeps(s: Sys, e: int)
    requires Core(s) && 0 <= e < NENV && !s.envs[e].status.Free?
    ensures var t := EnvFree(s, e).(cur := if e == s.cur then -1 else s.cur);
      && Core(t) && t.mode == s.mode && t.envs[e].status.Free?
      && forall i | 0 <= i < NENV && i != e :: t.envs[i] == s.envs[i]
  {
    hide IdAfter;
    var fs :| FreeListIs(s.envs, s.freeList, fs);
    assert IdOk(s.envs[e], e) && IdOk(EnvFree(s, e).envs[e], e);
    FreeList(s, fs, e);
  }

  lemma DestroyKeeps(s: Sys, e: int)
    requires Core(s) && s.mode.Kernel? && 0 <= e < NENV && !s.envs[e].status.Free?
    ensures Inv(EnvDestroy(s, e))
    ensures e != s.cur ==> EnvDestroy(s, e) == EnvFree(s, e)
  {
    hide Core, FreeListOk, SchedYield;
    CoreEnv(s, e);
    FreeKeeps(s, e);
    if e == s.cur {
      YieldKeeps(EnvFree(s, e).(cur := -1));
    } else {
      assert EnvFree(s, e).(cur := s.cur) == EnvFree(s, e);
    }
  }

  lemma CoreShape(s: Sys)
    requires Core(s)
    ensures Shape(s)
  {
  }

  lemma CoreEnv(s: Sys, i: int)
    requires Core(s) && 0 <= i < NENV
    ensures Shape(s) && EnvOk(s.envs[i], s.cur == i)
  {
  }

  // Looking an id up never finds a free environment.
  lemma FoundInUse(s: Sys, envid: int, checkPerm: bool)
    requires Core(s) && s.cur >= 0
    ensures var e := Envid2Env(s.envs, s.cur, envid, checkPerm); e >= 0 ==> !s.envs[e].status.Free?
  {
    CoreEnv(s, s.cur);
    hide Core, FreeListOk, Slot;
  }

  lemma ExoforkKeeps(s: Sys, memOk: bool)
    requires Core(s) && s.cur >= 0 && s.mode.Kernel?
    ensures var t := Dispatch(s, Exofork(memOk)).0; Core(t) && t.mode.Kernel?
  {
    var (t, e) := EnvAlloc(s, s.envs[s.cur].id, memOk);
    CoreEnv(s, s.cur);
    AllocKeeps(s, s.envs[s.cur].id, memOk);
    if e >= 0 {
      CoreEnv(t, e);
      SetKeeps(t, e, t.envs[e].(status := NotRunnable, eax := 0, tickets := t.envs[s.cur].tickets));
    }
  }

  lemma SpendKeeps(s: Sys)
    requires Core(s)
    ensures Core(SpendTicket(s)) && SpendTicket(s).mode == s.mode
  {
    if s.cur >= 0 && s.envs[s.cur].tickets > 2 {
      CoreEnv(s, s.cur);
      SetKeeps(s, s.cur, s.envs[s.cur].(tickets := s.envs[s.cur].tickets - 1));
    }
  }

  // Every event keeps the invariant: in particular it ends in user mode with the one running
  // environment current, or in the monitor with nothing eligible.
  lemma DispatchKeeps(s: Sys, ev: Event)
    requires Core(s) && s.cur >= 0 && s.mode.Kernel?
    ensures Inv(Dispatch(s, ev).0)
  {
    hide Core, FreeListOk, SchedYield, Envid2Env, EnvAlloc, EnvDestroy, SpendTicket;
    var c := s.cur;
    CoreShape(s);
    CoreEnv(s, c);
    match ev
    case Timer(_) =>
      SpendKeeps(s);
      YieldKeeps(SpendTicket(s));
    case Fault(_) => DestroyKeeps(s, c);
    case Exofork(memOk) => ExoforkKeeps(s, memOk);
    case SetStatus(envid, status) =>
      FoundInUse(s, envid, true);
      var e := Envid2Env(s.envs, c, envid, true);
      if e >= 0 && (status.Runnable? || status.NotRunnable?) {
        CoreEnv(s, e);
        SetKeeps(s, e, s.envs[e].(status := status));
      }
    case Destroy(envid) =>
      FoundInUse(s, envid, true);
      var e := Envid2Env(s.envs, c, envid, true);
      if e >= 0 {
        DestroyKeeps(s, e);
      }
    case Yield => YieldKeeps(s);
    case Recv(dstva) =>
      var t := SetEnv(s, c, s.envs[c].(recving := true));
      SetKeeps(s, c, s.envs[c].(recving := true));
      if DstvaOk(dstva) {
        SetKeeps(t, c, t.envs[c].(dstva := dstva, status := NotRunnable));
        YieldKeeps(SetEnv(t, c, t.envs[c].(dstva := dstva, status := NotRunnable)));
      }
    case TrySend(envid, value, srcva, perm, pageErr) =>
      FoundInUse(s, envid, false);
      var e := Envid2Env(s.envs, c, envid, false);
      if e >= 0 && SendResult(s.envs[e], ev) >= 0 {
        CoreEnv(s, e);
        SetKeeps(s, e, Delivered(s.envs[e], ev, s.envs[c].id));
      }
    case SetPriority => SpendKeeps(s);
    case Other(_) =>
  }

  lemma AnswerKeeps(s: Sys, c: int, ev: Event, r: int)
    requires Core(s) && 0 <= c < NENV
    ensures Core(Answered(s, c, ev, r)) && Answered(s, c, ev, r).mode == s.mode && Answered(s, c, ev, r).cur == s.cur
  {
    CoreEnv(s, c);
    SetKeeps(s, c, s.envs[c].(eax := r));
  }

  lemma SaveKeeps(k: Sys, ev: Event)
    requires Core(k) && 0 <= k.cur
    ensures Core(Saved(k, ev)) && Saved(k, ev).mode == k.mode && Saved(k, ev).cur == k.cur
  {
    CoreEnv(k, k.cur);
    SetKeeps(k, k.cur, k.envs[k.cur].(eax := SavedEax(ev)));
  }

  lemma KernelEntry(s: Sys)
    requires Inv(s) && s.mode.User?
    ensures Shape(s) && Core(s.(mode := Kernel)) && 0 <= s.cur < NENV && s.envs[s.cur].status.Running?
  {
    FreeListKept(s, s.(mode := Kernel));
  }

  lemma {:induction false} TrapKeeps(s: Sys, ev: Event)
    requires Inv(s) && s.mode.User?
    ensures Inv(Trap(s, ev))
  {
    hide FreeListOk, SchedYield, Dispatch, Core, Answered, Saved;
    var k := s.(mode := Kernel);
    KernelEntry(s);
    CoreEnv(k, k.cur);
    SaveKeeps(k, ev);
    var q := Saved(k, ev);
    DispatchKeeps(q, ev);
    var (d, r) := Dispatch(q, ev);
    if d.mode.Kernel? {
      AnswerKeeps(d, k.cur, ev, r);
      var a := Answered(d, k.cur, ev, r);
      CoreShape(a);
      if a.cur >= 0 && a.envs[a.cur].status.Running? {
        RunKeeps(a, a.cur);
      } else {
        YieldKeeps(a);
      }
    }
  }

  // ---------- whole runs ----------

  // Everything that happens from user mode on; in the monitor nothing more happens.
  function Run(s: Sys, evs: seq<Event>): (t: Sys)
    requires Shape(s)
    ensures Shape(t)
    decreases |evs|
  {
    if evs == [] || !s.mode.User? || s.cur < 0 then s else Run(Trap(s, evs[0]), evs[1..])
  }

  // env_create for the initial environments, then the first sched_yield.
  function Create(s: Sys, memOk: seq<bool>): (t: Sys)
    requires Shape(s)
    ensures Shape(t)
    decreases |memOk|
  {
    if memOk == [] then s else Create(EnvAlloc(s, 0, memOk[0]).0, memOk[1..])
  }

  function Start(memOk: seq<bool>): (t: Sys)
    ensures Shape(t)
  {
    SchedYield(Create(Boot(1), memOk))
  }

  function From(i: nat, n: nat): (r: seq<int>)
    requires i <= n
    ensures forall x :: x in r <==> i <= x < n
    decreases n - i
  {
    if i == n then [] else [i] + From(i + 1, n)
  }

  lemma {:induction false} BootList(i: nat)
    requires i <= NENV
    ensures Linked(Boot(1).envs, if i == NENV then -1 else i, From(i, NENV)) && Distinct(From(i, NENV))
    decreases NENV - i
  {
    if i < NENV {
      BootList(i + 1);
      assert From(i, NENV)[1..] == From(i + 1, NENV);
    }
  }

  lemma NoIdYet(i: nat)
    ensures IdAfter(i, 0) == 0
  {
  }

  lemma BootInv()
    ensures Core(Boot(1)) && Boot(1).mode.Kernel?
  {
    hide Linked, Distinct, IdAfter;
    BootList(0);
    forall i | 0 <= i < NENV ensures IdOk(Boot(1).envs[i], i) {
      NoIdYet(i);
    }
    assert FreeListIs(Boot(1).envs, 0, From(0, NENV));
  }

  lemma {:induction false} CreateKeeps(s: Sys, memOk: seq<bool>)
    requires Core(s)
    ensures Core(Create(s, memOk)) && Create(s, memOk).mode == s.mode
    decreases |memOk|
  {
    hide Core, EnvAlloc;
    if memOk != [] {
      CoreEnv(s, 0);
      AllocKeeps(s, 0, memOk[0]);
      CreateKeeps(EnvAlloc(s, 0, memOk[0]).0, memOk[1..]);
    }
  }

  lemma {:induction false} RunKeepsInv(s: Sys, evs: seq<Event>)
    requires Inv(s) && Shape(s)
    ensures Inv(Run(s, evs))
    decreases |evs|
  {
    hide Core, Trap;
    if evs != [] && s.mode.User? {
      TrapKeeps(s, evs[0]);
      RunKeepsInv(Trap(s, evs[0]), evs[1..]);
    }
  }

  // Ids of environments in use are positive, name their slot, and so differ.
  lemma {:induction false} IdsInUse(s: Sys, i: int)
    requires Core(s) && 0 <= i < NENV && !s.envs[i].status.Free?
    ensures 0 < s.envs[i].id < WORD / 2 && Slot(s.envs[i].id) == i
  {
    hide IdAfter, Slot;
    assert IdOk(s.envs[i], i);
    var k: nat :| s.envs[i].id == IdAfter(i, k) && k >= 1;
    IdWellFormed(i, k);
  }

  // Environment i is in use, has this id, and may be managed by the caller.
  predicate Reachable(s: Sys, envid: int, checkPerm: bool, i: int)
    requires Shape(s) && s.cur >= 0 && 0 <= i < NENV
  {
    && !s.envs[i].status.Free? && s.envs[i].id == envid
    && (checkPerm ==> i == s.cur || s.envs[i].parent == s.envs[s.cur].id)
  }

  // envid2env searches only the slot the id names, and misses nothing.
  lemma {:induction false} FoundExactly(s: Sys, envid: int, checkPerm: bool)
    requires Core(s) && s.cur >= 0 && Shape(s)
    ensures var e := Envid2Env(s.envs, s.cur, envid, checkPerm);
      if envid == 0 then e == s.cur
      else if e >= 0 then Reachable(s, envid, checkPerm, e)
      else forall i | 0 <= i < NENV :: !Reachable(s, envid, checkPerm, i)
  {
    hide Core, Slot;
    if envid != 0 {
      Slot32(envid);
      forall i | 0 <= i < NENV && !s.envs[i].status.Free? && s.envs[i].id == envid ensures i == Slot(envid) {
        IdsInUse(s, i);
      }
    }
  }

  // In every state a booted machine reaches: the free list holds exactly the free environments,
  // once each; no environment is dying; the id of each in use names its slot; in user mode exactly
  // one is running and it is curenv;
  // and the machine has stopped only if nothing is runnable.
  lemma {:induction false} LifecycleSafety(memOk: seq<bool>, evs: seq<Event>)
    ensures var s := Run(Start(memOk), evs);
      && FreeListOk(s)
      && (forall i | 0 <= i < NENV :: !s.envs[i].status.Dying?)
      && (forall i | 0 <= i < NENV && !s.envs[i].status.Free? :: 2 <= s.envs[i].tickets <= 50)
      && (forall i | 0 <= i < NENV && !s.envs[i].status.Free? :: 0 < s.envs[i].id < WORD / 2 && Slot(s.envs[i].id) == i)
      && (s.mode.User? || s.mode.Monitor?)
      && (s.mode.User? ==> forall i | 0 <= i < NENV :: s.envs[i].status.Running? <==> i == s.cur)
      && (s.mode.Monitor? ==> forall i | 0 <= i < NENV :: !s.envs[i].status.Running? && !s.envs[i].status.Runnable?)
  {
    hide SchedYield, Create, Boot, Run;
    BootInv();
    CreateKeeps(Boot(1), memOk);
    YieldKeeps(Create(Boot(1), memOk));
    RunKeepsInv(Start(memOk), evs);
    var s := Run(Start(memOk), evs);
    StaysOut(Start(memOk), evs);
    assert forall i | 0 <= i < NENV :: EnvOk(s.envs[i], s.cur == i);
    forall i | 0 <= i < NENV && !s.envs[i].status.Free? ensures 0 < s.envs[i].id < WORD / 2 && Slot(s.envs[i].id) == i {
      IdsInUse(s, i);
    }
  }

  lemma {:induction false} StaysOut(s: Sys, evs: seq<Event>)
    requires Shape(s) && !s.mode.Kernel?
    ensures !Run(s, evs).mode.Kernel?
    decreases |evs|
  {
    hide Trap;
    if evs != [] && s.mode.User? && s.cur >= 0 {
      StaysOut(Trap(s, evs[0]), evs[1..]);
    }
  }
}

/** The same operations as the kernel performs them, on arrays and global variables. */
module Lifecycle {
  import opened EnvIds
  import opened Envs
  import L = Lottery
  import P = ParkMiller
  import Bits
  import Mmu
  import opened Spec = LifecycleSpec

  class KernelState {
    const envs: array<Env>
    var envFreeList: int
    var curenv: int
    const rng: P.Generator
    const historial: L.History
    var mode: Mode

    ghost function View(): Sys
      reads this, envs, rng, historial
    {
      Sys(envs[..], envFreeList, curenv, rng.state, historial.log, mode)
    }

    ghost predicate Valid()
      reads this, envs, rng, historial, historial.ring
    {
      envs.Length == NENV && historial.Valid() && Core(View())
    }

    // env_init
    constructor ()
      ensures Valid() && View() == Boot(1)
      ensures fresh(envs) && fresh(rng) && fresh(historial) && fresh(historial.ring)
    {
      envs := new Env[NENV];
      envFreeList, curenv, mode := 0, -1, Kernel;
      rng := new P.Generator(1);
      historial := new L.History();
      new;
      var i := 0;
      while i < NENV
        invariant 0 <= i <= NENV
        invariant forall j | 0 <= j < i :: envs[j] == Boot(1).envs[j]
        invariant historial.Valid() && historial.log == [] && rng.state == 1
        invariant envFreeList == 0 && curenv == -1 && mode == Kernel
      {
        envs[i] := Env(Free, if i + 1 < NENV then i + 1 else -1, 0, 0, 0, 0, 0, false, 0, 0, 0, 0);
        i := i + 1;
      }
      assert envs[..] == Boot(1).envs;
      BootInv();
    }

    // env_run
    method EnvRun(e: int)
      requires Valid() && mode.Kernel? && 0 <= e < NENV && Eligible(envs[e])
      modifies this, envs
      ensures View() == Spec.EnvRun(old(View()), e)
      ensures Valid()
    {
      hide Core;
      CoreShape(View());
      RunKeeps(View(), e);
      if curenv >= 0 && envs[curenv].status.Running? {
        envs[curenv] := envs[curenv].(status := Runnable);
      }
      curenv := e;
      envs[curenv] := envs[curenv].(status := Running);
      envs[curenv] := envs[curenv].(runs := (envs[curenv].runs + 1) % WORD);
      mode := User;
    }

    // sched_yield: lottery, then sched_halt if it found nothing to run.
    method SchedYield()
      requires Valid() && mode.Kernel?
      modifies this, envs, rng, historial, historial.ring
      ensures View() == Spec.SchedYield(old(View()))
      ensures Valid()
    {
      YieldKeeps(View());
      var ran := LotteryDraw();
      if !ran {
        SchedHalt();
      }
    }

    // The first loop of lottery: the tickets of all eligible environments.
    method TotalTickets() returns (pool: int)
      requires envs.Length == NENV
      ensures pool == L.Pool(envs[..], NENV)
    {
      pool := 0;
      var i := 0;
      while i < NENV
        invariant 0 <= i <= NENV && pool == L.Pool(envs[..], i)
      {
        if envs[i].status.Running? || envs[i].status.Runnable? {
          pool := pool + envs[i].tickets;
        }
        i := i + 1;
      }
    }

    // lottery: runs a winner if there is one.
    method LotteryDraw() returns (ran: bool)
      requires Valid() && mode.Kernel?
      modifies this, envs, rng, historial, historial.ring
      ensures Valid() && (ran ==> View() == Spec.SchedYield(old(View())))
      ensures !ran ==> L.Pick(old(envs[..]), Draw(old(View()))) < 0
      ensures !ran ==> View() == old(View()).(seed := P.Times(old(View()).seed))
    {
      hide Core, Spec.EnvRun;
      CoreShape(View());
      CoreTickets(View());
      DrawKeeps(View(), []);
      var pool := TotalTickets();
      var random := rng.LcgParkMiller();
      var winner := random % (pool + 1);
      assert winner == Draw(old(View()));
      var i, j := 0, 0;
      while i < NENV
        invariant 0 <= i <= NENV && j == L.Pool(envs[..], i)
        invariant View() == old(View()).(seed := P.Times(old(View()).seed)) && Valid()
        invariant L.Pick(envs[..], winner) == L.PickFrom(envs[..], winner, i)
      {
        if !envs[i].status.Running? && !envs[i].status.Runnable? {
          i := i + 1;
          continue;
        }
        j := j + envs[i].tickets;
        if j >= winner {
          DrawKeeps(View(), historial.log + [L.Entry(envs[i].id, envs[i].tickets, envs[i].runs)]);
          historial.Add(envs[i]);
          EnvRun(i);
          return true;
        }
        i := i + 1;
      }
      ran := false;
    }

    // round_robin, the scheduler the build can use instead of the lottery.
    method RoundRobin()
      requires Valid() && mode.Kernel?
      modifies this, envs
      ensures View() == Spec.RoundRobin(old(View()))
      ensures Valid()
    {
      hide IdAfter, Slot, Core;
      CoreShape(View());
      if curenv >= 0 {
        CoreEnv(View(), curenv);
        IdsInUse(View(), curenv);
      }
      var n := if curenv >= 0 then Slot(envs[curenv].id) + 1 else 0;
      var i := 0;
      while i < NENV
        invariant 0 <= i <= NENV
        invariant L.CircularFrom(envs[..], n, 0) == L.CircularFrom(envs[..], n, i)
      {
        var idx := (n + i) % NENV;
        if envs[idx].status.Runnable? {
          EnvRun(idx);
          return;
        }
        i := i + 1;
      }
      if curenv >= 0 && envs[curenv].status.Running? {
        EnvRun(Slot(envs[curenv].id));
      }
    }

    method SchedHalt()
      requires envs.Length == NENV
      modifies this
      ensures View() == Spec.SchedHalt(old(View()))
    {
      var i := 0;
      while i < NENV && !(envs[i].status.Runnable? || envs[i].status.Running? || envs[i].status.Dying?)
        invariant 0 <= i <= NENV
        invariant forall j | 0 <= j < i :: !Eligible(envs[j]) && !envs[j].status.Dying?
      {
        i := i + 1;
      }
      if i == NENV {
        mode := Monitor;
        return;
      }
      curenv := -1;
      mode := Halted;
    }

    // env_alloc; the result is the slot or a negative error.
    method EnvAlloc(parent: int, memOk: bool) returns (r: int)
      requires Valid()
      modifies this, envs
      ensures (View(), r) == Spec.EnvAlloc(old(View()), parent, memOk)
      ensures Valid()
    {
      AllocKeeps(View(), parent, memOk);
      var e := envFreeList;
      if e < 0 {
        return -E_NO_FREE_ENV;
      }
      if !memOk {
        return -E_NO_MEM;
      }
      envs[e] := envs[e].(id := NextId(envs[e].id, e));
      envs[e] := envs[e].(parent := parent, status := Runnable, runs := 0, tickets := TICKET_STEP);
      envs[e] := envs[e].(eax := 0, recving := false);
      assert envs[..] == old(envs[..])[e := Fresh(old(envs[e]), e, parent)];
      envFreeList := envs[e].link;
      r := e;
    }

    // env_free
    method EnvFree(e: int)
      requires Valid() && 0 <= e < NENV && !envs[e].status.Free?
      modifies this, envs
      ensures View() == Spec.EnvFree(old(View()), e)
      ensures Core(View().(cur := if e == curenv then -1 else curenv))
      ensures forall fs | FreeListIs(old(envs[..]), old(envFreeList), fs) :: FreeListIs(envs[..], envFreeList, [e] + fs)
    {
      hide Core, FreeListOk, FreeListIs;
      FreeKeeps(View(), e);
      CoreShape(View());
      forall fs | FreeListIs(envs[..], envFreeList, fs)
        ensures FreeListIs(Spec.EnvFree(View(), e).envs, e, [e] + fs)
      {
        FreeList(View(), fs, e);
      }
      envs[e] := envs[e].(status := Free);
      envs[e] := envs[e].(link := envFreeList);
      envFreeList := e;
      assert envs[..] == Spec.EnvFree(old(View()), e).envs;
    }

    // env_destroy.  The first case is for an environment running on another CPU.
    method EnvDestroy(e: int)
      requires envs.Length == NENV && Shape(View()) && mode.Kernel? && 0 <= e < NENV && !envs[e].status.Free?
      requires (envs[e].status.Running? && curenv != e) || Valid()
      modifies this, envs, rng, historial, historial.ring
      ensures View() == Spec.EnvDestroy(old(View()), e)
      ensures !(old(envs[e]).status.Running? && old(curenv) != e) ==> Valid() && Inv(View())
    {
      hide Core, FreeListOk, Spec.SchedYield;
      if envs[e].status.Running? && curenv != e {
        envs[e] := envs[e].(status := Dying);
        return;
      }
      DestroyKeeps(View(), e);
      EnvFree(e);
      if curenv == e {
        curenv := -1;
        SchedYield();
      }
    }

    // The timer, and the set-priority system call, cost a ticket.
    method SpendTicket()
      requires Valid() && curenv >= 0
      modifies envs
      ensures View() == Spec.SpendTicket(old(View()))
      ensures Valid()
    {
      SpendKeeps(View());
      if curenv >= 0 && envs[curenv].tickets > 2 {
        envs[curenv] := envs[curenv].(tickets := envs[curenv].tickets - 1);
      }
    }

    // envid2env: finds the environment in use that has this id, if the caller may manage it.
    method Envid2Env(envid: int, checkPerm: bool) returns (r: int)
      requires Valid() && curenv >= 0
      ensures r == Envs.Envid2Env(envs[..], curenv, envid, checkPerm)
      ensures -1 <= r < NENV && (envid == 0 ==> r == curenv)
      ensures envid != 0 && r >= 0 ==> Reachable(View(), envid, checkPerm, r)
      ensures envid != 0 && r < 0 ==> forall i | 0 <= i < NENV :: !Reachable(View(), envid, checkPerm, i)
    {
      hide Core, Slot, IdAfter;
      CoreShape(View());
      FoundExactly(View(), envid, checkPerm);
      if envid == 0 {
        return curenv;
      }
      Slot32(envid);
      var e := Slot(envid);
      if envs[e].status.Free? || envs[e].id != envid {
        return -1;
      }
      if checkPerm && e != curenv && envs[e].parent != envs[curenv].id {
        return -1;
      }
      r := e;
    }

    method SysExofork(memOk: bool) returns (r: int)
      requires Valid() && mode.Kernel? && curenv >= 0
      modifies this, envs
      ensures (View(), r) == Dispatch(old(View()), Exofork(memOk))
      ensures Valid()
    {
      hide Core, FreeListOk;
      CoreShape(View());
      ExoforkKeeps(View(), memOk);
      AllocKeeps(View(), envs[curenv].id, memOk);
      r := EnvAlloc(envs[curenv].id, memOk);
      ghost var alloced := envs[..];
      if r >= 0 {
        envs[r] := envs[r].(status := NotRunnable, eax := 0);
        envs[r] := envs[r].(tickets := envs[curenv].tickets);
        var child := alloced[r].(status := NotRunnable, eax := 0, tickets := alloced[curenv].tickets);
        assert envs[..] == alloced[r := child];
        r := envs[r].id;
      }
    }

    method SysEnvSetStatus(envid: int, status: Status) returns (r: int)
      requires Valid() && mode.Kernel? && curenv >= 0
      modifies envs
      ensures (View(), r) == Dispatch(old(View()), SetStatus(envid, status))
      ensures Valid()
    {
      hide Core, FreeListOk;
      CoreShape(View());
      DispatchKeeps(View(), SetStatus(envid, status));
      if !status.Runnable? && !status.NotRunnable? {
        return -E_INVAL;
      }
      var e := Envid2Env(envid, true);
      if e < 0 {
        return -E_BAD_ENV;
      }
      envs[e] := envs[e].(status := status);
      r := 0;
    }

    method SysEnvDestroy(envid: int) returns (r: int)
      requires Valid() && mode.Kernel? && curenv >= 0
      modifies this, envs, rng, historial, historial.ring
      ensures (View(), r) == Dispatch(old(View()), Destroy(envid))
      ensures Valid()
    {
      hide Core, FreeListOk;
      CoreShape(View());
      FoundInUse(View(), envid, true);
      var e := Envid2Env(envid, true);
      if e < 0 {
        return -E_BAD_ENV;
      }
      CoreEnv(View(), e);
      EnvDestroy(e);
      r := 0;
    }

    // sys_ipc_recv returns only on error.
    method SysIpcRecv(dstva: nat) returns (r: int)
      requires Valid() && mode.Kernel? && curenv >= 0
      modifies this, envs, rng, historial, historial.ring
      ensures (View(), r) == Dispatch(old(View()), Recv(dstva))
      ensures Valid()
    {
      hide Core, FreeListOk, Spec.SchedYield;
      CoreShape(View());
      CoreEnv(View(), curenv);
      SetKeeps(View(), curenv, envs[curenv].(recving := true));
      envs[curenv] := envs[curenv].(recving := true);
      if dstva >= Mmu.UTOP || dstva % Mmu.PGSIZE != 0 {
        return -E_INVAL;
      }
      CoreEnv(View(), curenv);
      SetKeeps(View(), curenv, envs[curenv].(dstva := dstva, status := NotRunnable));
      envs[curenv] := envs[curenv].(dstva := dstva, status := NotRunnable);
      SchedYield();
      r := 0;
    }

    // pageErr is the outcome of looking up and mapping the page that is sent along.
    method SysIpcTrySend(envid: int, value: int, srcva: nat, perm0: nat, pageErr: int) returns (r: int)
      requires Valid() && mode.Kernel? && curenv >= 0
      modifies envs
      ensures (View(), r) == Dispatch(old(View()), TrySend(envid, value, srcva, perm0, pageErr))
      ensures Valid()
    {
      hide Core, FreeListOk;
      ghost var ev := TrySend(envid, value, srcva, perm0, pageErr);
      CoreShape(View());
      DispatchKeeps(View(), ev);
      var e := Envid2Env(envid, false);
      if e < 0 {
        return -E_BAD_ENV;
      }
      if !envs[e].recving {
        return -E_IPC_NOT_RECV;
      }
      if srcva >= Mmu.UTOP {
        envs[e] := envs[e].(perm := 0);
      } else {
        if srcva % Mmu.PGSIZE != 0 {
          return -E_INVAL;
        }
        if pageErr < 0 {
          return pageErr;
        }
        var perm := Bits.BitOr(perm0, Mmu.PTE_U + Mmu.PTE_P);
        if envs[e].dstva != 0 {
          envs[e] := envs[e].(perm := perm);
        }
      }
      envs[e] := envs[e].(from := envs[curenv].id, recving := false);
      envs[e] := envs[e].(value := value, eax := 0, status := Runnable);
      assert envs[..] == old(envs[..])[e := Delivered(old(envs[e]), ev, old(envs[curenv].id))];
      r := 0;
    }

    method TrapDispatch(ev: Event) returns (r: int)
      requires Valid() && mode.Kernel? && curenv >= 0
      modifies this, envs, rng, historial, historial.ring
      ensures (View(), r) == Dispatch(old(View()), ev)
      ensures Valid()
    {
      hide Core, FreeListOk, Spec.SchedYield, Spec.EnvDestroy, Spec.SpendTicket;
      CoreShape(View());
      CoreEnv(View(), curenv);
      r := 0;
      match ev
      case Timer(_) =>
        SpendTicket();
        SchedYield();
      case Fault(_) => EnvDestroy(curenv);
      case Exofork(memOk) => r := SysExofork(memOk);
      case SetStatus(envid, status) => r := SysEnvSetStatus(envid, status);
      case Destroy(envid) => r := SysEnvDestroy(envid);
      case Yield => SchedYield();
      case Recv(dstva) => r := SysIpcRecv(dstva);
      case TrySend(envid, value, srcva, perm, pageErr) => r := SysIpcTrySend(envid, value, srcva, perm, pageErr);
      case SetPriority =>
        SpendTicket();
        r := envs[curenv].tickets;
      case Other(_) =>
    }

    // trap, entered from user mode; with one CPU the current environment is never a zombie.
    method Trap(ev: Event)
      requires Valid() && Inv(View()) && mode.User?
      modifies this, envs, rng, historial, historial.ring
      ensures View() == Spec.Trap(old(View()), ev)
      ensures Valid() && Inv(View())
    {
      hide FreeListOk, Spec.SchedYield, Dispatch, Spec.EnvRun, Core;
      TrapKeeps(View(), ev);
      KernelEntry(View());
      mode := Kernel;
      var c := curenv;
      CoreEnv(View(), c);
      SaveKeeps(View(), ev);
      envs[c] := envs[c].(eax := SavedEax(ev));
      ghost var q := View();
      DispatchKeeps(q, ev);
      var r := TrapDispatch(ev);
      if mode.Kernel? {
        CoreShape(View());
        AnswerKeeps(View(), c, ev, r);
        if IsCall(ev) {
          envs[c] := envs[c].(eax := r);
        }
        ghost var a := View();
        assert a == Answered(Dispatch(q, ev).0, c, ev, r);
        if curenv >= 0 && envs[curenv].status.Running? {
          EnvRun(curenv);
        } else {
          SchedYield();
        }
      }
    }
  }
}
