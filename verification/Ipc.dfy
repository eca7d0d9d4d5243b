/**
  Message passing: sys_ipc_try_send and sys_ipc_recv of sched/kern/syscall.c, ipc_recv of
  sched/lib/ipc.c, and the system call stub between them (sched/lib/syscall.c), over the kernel
  of LifecycleSpec.  Beside the kernel state we keep, for each environment, how far it is in
  ipc_recv, which sends to it have succeeded, and what its receives have returned.
*/
module Ipc {
  import opened EnvIds
  import opened Envs
  import opened LifecycleSpec
  import Lottery
  import Mmu
  import Bits
  import Channel

  datatype Msg = Msg(from: int, value: int)

  // Outside ipc_recv; in the system call; back in the stub with its result; panicked there
  // because the result was positive.
  datatype Phase = Idle | Called | Landed(ret: int) | Stuck

  datatype State = State(sys: Sys, phase: seq<Phase>, sent: seq<seq<Msg>>, got: seq<seq<Msg>>)

  // Trapped: the running environment enters the kernel.  Land: the stub takes the result out of
  // eax.  Finish: it panics on a positive result; ipc_recv returns an error, or picks sender and
  // value up from the environment's own Env structure.
  datatype Step = Trapped(ev: Event) | Land | Finish

  predicate Shaped(s: State) {
    Shape(s.sys) && |s.phase| == |s.sent| == |s.got| == NENV
  }

  // Inside ipc_recv the program makes no calls of its own; interrupts, and page faults with
  // whatever their handler calls, may come.  A fault at the very first instruction after the call
  // is one after Land.
  predicate Possible(s: State, t: Step)
    requires Shaped(s)
  {
    var c := s.sys.cur;
    s.sys.mode.User? && c >= 0 &&
    match t
    case Land => s.phase[c].Called?
    case Finish => s.phase[c].Landed?
    case Trapped(ev) =>
      match s.phase[c]
      case Idle => true
      case Called => ev.Fault? || ev == Timer(s.sys.envs[c].eax)
      case _ => ev.Fault? || ev.Timer? || ev.Other?
  }

  // Receives name a valid address; otherwise everybody may do anything.
  predicate Allowed(s: State, t: Step)
    requires Shaped(s)
  {
    Possible(s, t) && (t.Trapped? && t.ev.Recv? ==> DstvaOk(t.ev.dstva))
  }

  // The environment a send reaches, -1 if it fails.
  function Reached(s: Sys, ev: Event): (e: int)
    requires Shape(s) && s.cur >= 0 && ev.TrySend?
    ensures -1 <= e < NENV
  {
    var e := Envid2Env(s.envs, s.cur, ev.envid, false);
    if e >= 0 && SendResult(s.envs[e], ev) == 0 then e else -1
  }

  function Next(s: State, t: Step): (r: State)
    requires Shaped(s) && s.sys.mode.User? && s.sys.cur >= 0
    ensures Shaped(r)
  {
    var c := s.sys.cur;
    match t
    case Land => s.(phase := s.phase[c := Landed(s.sys.envs[c].eax)])
    case Finish =>
      var ret := if s.phase[c].Landed? then s.phase[c].ret else 0;
      if ret > 0 then s.(phase := s.phase[c := Stuck])
      else if ret < 0 then s.(phase := s.phase[c := Idle])
      else s.(phase := s.phase[c := Idle], got := s.got[c := s.got[c] + [Msg(s.sys.envs[c].from, s.sys.envs[c].value)]])
    case Trapped(ev) =>
      var u := s.(sys := LifecycleSpec.Trap(s.sys, ev));
      match ev
      case Recv(_) => u.(phase := s.phase[c := Called])
      case TrySend(_, value, _, _, _) =>
        var e := Reached(s.sys, ev);
        if e >= 0 then u.(sent := s.sent[e := s.sent[e] + [Msg(s.sys.envs[c].id, value)]]) else u
      case Exofork(memOk) =>
        var e := EnvAlloc(s.sys, s.sys.envs[c].id, memOk).1;
        if e >= 0 then u.(phase := s.phase[e := Idle], sent := s.sent[e := []], got := s.got[e := []]) else u
      case _ => u
  }

  // What is in an environment's Env structure, delivered but not yet read.
  function Unread(e: Env, p: Phase): seq<Msg> {
    if !p.Idle? && !e.recving then [Msg(e.from, e.value)] else []
  }

  // An environment's receives have returned exactly what was sent to it, in order, but for one
  // message that waits for it inside ipc_recv.
  predicate Faithful(s: State, i: int)
    requires Shaped(s) && 0 <= i < NENV
  {
    !s.sys.envs[i].status.Free? ==> s.sent[i] == s.got[i] + Unread(s.sys.envs[i], s.phase[i])
  }

  // The result of the call is 0 after a delivery.  Before, eax still holds the call's number.
  predicate PhaseOk(e: Env, p: Phase) {
    match p
    case Idle => !e.recving
    case Called => e.eax == if e.recving then SYS_IPC_RECV else 0
    case Landed(ret) => ret == SYS_IPC_RECV || (ret == 0 && !e.recving)
    case Stuck => true
  }

  predicate SlotOk(s: State, i: int)
    requires Shaped(s) && 0 <= i < NENV
  {
    Faithful(s, i) && (!s.sys.envs[i].status.Free? ==> PhaseOk(s.sys.envs[i], s.phase[i]))
  }

  ghost predicate IpcInv(s: State) {
    Shaped(s) && Inv(s.sys) && forall i | 0 <= i < NENV :: SlotOk(s, i)
  }

  // ---------- scheduling leaves messages alone ----------

  // The scheduler switches eligible environments between running and runnable, no more: this is
  // the part of an environment it never changes.
  function Rest(e: Env): Env {
    e.(status := if e.status.Running? then Runnable else e.status, runs := 0)
  }

  lemma YieldReschedules(s: Sys)
    requires Shape(s)
    ensures forall i | 0 <= i < NENV :: Rest(SchedYield(s).envs[i]) == Rest(s.envs[i])
  {
    hide Lottery.Pick, Draw;
    Lottery.PickFromIs(s.envs, Draw(s), 0);
    PickIsFrom(s.envs, Draw(s));
  }

  lemma ReturnReschedules(s: Sys)
    requires Shape(s)
    ensures forall i | 0 <= i < NENV :: Rest(TrapReturn(s).envs[i]) == Rest(s.envs[i])
  {
    YieldReschedules(s);
  }

  // The timer and the set-priority call take a ticket, down to two.
  function OneTicketLess(e: Env): Env { e.(tickets := if e.tickets > 2 then e.tickets - 1 else e.tickets) }

  // What one event can do to environment i, where e is its state afterwards.  The caller's own
  // eax is told apart in EaxAfter.
  predicate Effect(s: Sys, ev: Event, i: int, e: Env)
    requires Shape(s) && s.cur >= 0 && 0 <= i < NENV
  {
    var a := Rest(s.envs[i]);
    var b := Rest(if i == s.cur then e.(eax := s.envs[i].eax) else e);
    match ev
    case Exofork(memOk) =>
      var caller := s.envs[s.cur];
      if i == EnvAlloc(s, caller.id, memOk).1
      then b == a.(status := NotRunnable, id := NextId(a.id, i), parent := caller.id, tickets := caller.tickets,
                   eax := 0, recving := false)
      else b == a
    case SetStatus(envid, status) =>
      if i == Envid2Env(s.envs, s.cur, envid, true) && (status.Runnable? || status.NotRunnable?)
      then b == a.(status := status)
      else b == a
    case Destroy(envid) => if i == Envid2Env(s.envs, s.cur, envid, true) then b.status.Free? else b == a
    case Fault(_) => if i == s.cur then b.status.Free? else b == a
    case Recv(dstva) =>
      if i != s.cur then b == a
      else if DstvaOk(dstva) then b == a.(recving := true, dstva := dstva, status := NotRunnable)
      else b == a.(recving := true)
    case TrySend(_, _, _, _, _) =>
      if i != Reached(s, ev) then b == a
      else b == Delivered(a, ev, s.envs[s.cur].id).(eax := b.eax) && (i == s.cur || b.eax == 0)
    case Timer(_) => if i == s.cur then b == OneTicketLess(a) else b == a
    case SetPriority => if i == s.cur then b == OneTicketLess(a) else b == a
    case _ => b == a
  }

  // eax in the frame of an environment that made this event, if it is still in use.
  predicate EaxAfter(s: Sys, ev: Event, e: Env)
    requires Shape(s) && s.cur >= 0
  {
    match ev
    case Timer(x) => e.eax == x
    case Recv(dstva) => e.eax == if DstvaOk(dstva) then SYS_IPC_RECV else -E_INVAL
    case _ => true
  }

  lemma EffectKept(s: Sys, ev: Event, u: Sys, t: Sys)
    requires Shape(s) && s.cur >= 0 && Shape(u) && Shape(t)
    requires forall i | 0 <= i < NENV :: Effect(s, ev, i, u.envs[i]) && Rest(t.envs[i]) == Rest(u.envs[i])
    requires !u.envs[s.cur].status.Free? ==> EaxAfter(s, ev, u.envs[s.cur])
    ensures forall i | 0 <= i < NENV :: Effect(s, ev, i, t.envs[i])
    ensures !t.envs[s.cur].status.Free? ==> EaxAfter(s, ev, t.envs[s.cur])
  {
    hide Delivered, Reached;
    assert Rest(t.envs[s.cur]) == Rest(u.envs[s.cur]);
    forall i | 0 <= i < NENV ensures Effect(s, ev, i, t.envs[i]) {
      assert Effect(s, ev, i, u.envs[i]) && Rest(t.envs[i]) == Rest(u.envs[i]);
    }
  }

  lemma {:induction false} DispatchEffect(k: Sys, ev: Event)
    requires Core(k) && k.mode.Kernel? && k.cur >= 0 && k.envs[k.cur].eax == SavedEax(ev)
    ensures forall i | 0 <= i < NENV :: Effect(k, ev, i, Dispatch(k, ev).0.envs[i])
    ensures var e := Dispatch(k, ev).0.envs[k.cur];
      !e.status.Free? && !(ev.Recv? && !DstvaOk(ev.dstva)) ==> EaxAfter(k, ev, e)
    ensures ev.Recv? && !DstvaOk(ev.dstva) ==> Dispatch(k, ev).1 == -E_INVAL && Dispatch(k, ev).0.mode.Kernel?
    ensures (ev.Timer? || (ev.Recv? && DstvaOk(ev.dstva))) ==> !Dispatch(k, ev).0.mode.Kernel?
  {
    hide Core, SchedYield, Envid2Env, Delivered;
    CoreShape(k);
    CoreEnv(k, k.cur);
    var c, t := k.cur, Dispatch(k, ev).0;
    match ev
    case Timer(_) =>
      YieldReschedules(SpendTicket(k));
      assert Rest(t.envs[c]) == Rest(SpendTicket(k).envs[c]);
    case Yield =>
      YieldReschedules(k);
    case Recv(dstva) =>
      var v := SetEnv(k, c, k.envs[c].(recving := true));
      var w := SetEnv(v, c, v.envs[c].(dstva := dstva, status := NotRunnable));
      YieldReschedules(w);
      assert DstvaOk(dstva) ==> Rest(t.envs[c]) == Rest(w.envs[c]);
    case Fault(_) => DestroyEffect(k, ev, c);
    case Destroy(envid) =>
      var e := Envid2Env(k.envs, c, envid, true);
      if e >= 0 {
        FoundInUse(k, envid, true);
        DestroyEffect(k, ev, e);
      }
    case Exofork(memOk) => AllocKeeps(k, k.envs[c].id, memOk);
    case SetStatus(envid, status) =>
    case TrySend(_, _, _, _, _) => SendEffect(k, ev);
    case SetPriority =>
    case Other(_) =>
  }

  lemma SendEffect(k: Sys, ev: Event)
    requires Core(k) && k.mode.Kernel? && k.cur >= 0 && ev.TrySend?
    ensures Shape(k) && forall i | 0 <= i < NENV :: Effect(k, ev, i, Dispatch(k, ev).0.envs[i])
  {
    hide Core, Envid2Env;
    CoreShape(k);
  }

  lemma DestroyEffect(s: Sys, ev: Event, e: int)
    requires Core(s) && s.mode.Kernel? && s.cur >= 0 && 0 <= e < NENV && !s.envs[e].status.Free?
    requires (ev.Destroy? && e == Envid2Env(s.envs, s.cur, ev.envid, true)) || (ev.Fault? && e == s.cur)
    ensures forall i | 0 <= i < NENV :: Effect(s, ev, i, EnvDestroy(s, e).envs[i])
  {
    hide Core, SchedYield;
    CoreShape(s);
    CoreEnv(s, e);
    YieldReschedules(EnvFree(s, e).(cur := -1));
  }

  // Saving the frame and storing the result touch only the caller's eax.
  lemma {:induction false} FrameEffect(k: Sys, ev: Event, d: Sys, r: int)
    requires Shape(k) && k.cur >= 0 && Shape(d)
    requires forall i | 0 <= i < NENV :: Effect(Saved(k, ev), ev, i, d.envs[i])
    ensures forall i | 0 <= i < NENV :: Effect(k, ev, i, Answered(d, k.cur, ev, r).envs[i])
  {
    hide Slot, Envid2Env, EnvAlloc, Reached;
    var q := Saved(k, ev);
    SavedSame(k, ev);
    forall i | 0 <= i < NENV ensures Effect(k, ev, i, Answered(d, k.cur, ev, r).envs[i]) {
      assert Effect(q, ev, i, d.envs[i]);
      match ev
      case TrySend(_, _, _, _, _) =>
      case Exofork(_) =>
      case SetStatus(_, _) =>
      case Destroy(_) =>
      case Recv(_) =>
      case _ =>
    }
  }

  // Nothing an event decides on depends on the saved eax.
  lemma SavedSame(k: Sys, ev: Event)
    requires Shape(k) && k.cur >= 0
    ensures var q := Saved(k, ev);
      && (forall envid, p :: Envid2Env(q.envs, q.cur, envid, p) == Envid2Env(k.envs, k.cur, envid, p))
      && (forall parent, m :: EnvAlloc(q, parent, m).1 == EnvAlloc(k, parent, m).1)
      && (ev.TrySend? ==> Reached(q, ev) == Reached(k, ev))
  {
    hide Slot;
  }

  lemma {:induction false} TrapEffect(s: Sys, ev: Event)
    requires Inv(s) && s.mode.User?
    ensures Shape(s) && 0 <= s.cur < NENV
    ensures var k, t := s.(mode := Kernel), LifecycleSpec.Trap(s, ev);
      && (forall i | 0 <= i < NENV :: Effect(k, ev, i, t.envs[i]))
      && (!t.envs[s.cur].status.Free? ==> EaxAfter(k, ev, t.envs[s.cur]))
  {
    hide SchedYield, Dispatch, FreeListOk, Effect, Rest, Core, TrapReturn;
    var k, c := s.(mode := Kernel), s.cur;
    KernelEntry(s);
    CoreEnv(k, c);
    SaveKeeps(k, ev);
    var q := Saved(k, ev);
    DispatchEffect(q, ev);
    var (d, r) := Dispatch(q, ev);
    FrameEffect(k, ev, d, r);
    if d.mode.Kernel? {
      var a := Answered(d, c, ev, r);
      ReturnReschedules(a);
      EffectKept(k, ev, a, LifecycleSpec.Trap(s, ev));
    } else {
      assert Answered(d, c, ev, r) == d;
    }
  }

  // What one environment does leaves every other alone, up to its turn to run, unless that is its
  // child or waits for a message.
  lemma {:induction false} Protected(s: Sys, ev: Event, i: int)
    requires Inv(s) && s.mode.User? && 0 <= i < NENV && i != s.cur && !s.envs[i].status.Free?
    requires 0 <= s.cur < NENV && s.envs[i].parent != s.envs[s.cur].id && !s.envs[i].recving
    ensures Shape(s) && Rest(LifecycleSpec.Trap(s, ev).envs[i]) == Rest(s.envs[i])
  {
    hide LifecycleSpec.Trap, Core, Slot;
    KernelEntry(s);
    TrapEffect(s, ev);
    AllocKeeps(s.(mode := Kernel), s.envs[s.cur].id, if ev.Exofork? then ev.memOk else true);
  }

  // ---------- the invariant ----------

  // What the trap of step t does to environment i.
  predicate Took(s: State, t: Step, i: int)
    requires Shaped(s) && 0 <= s.sys.cur < NENV && t.Trapped? && 0 <= i < NENV
  {
    var k, u := s.sys.(mode := Kernel), LifecycleSpec.Trap(s.sys, t.ev);
    Shape(u) && Effect(k, t.ev, i, u.envs[i]) && (!u.envs[k.cur].status.Free? ==> EaxAfter(k, t.ev, u.envs[k.cur]))
  }

  lemma {:induction false} SendKept(s: State, t: Step, i: int)
    requires IpcInv(s) && Allowed(s, t) && t.Trapped? && t.ev.TrySend?
    requires 0 <= i < NENV && s.sys.cur < NENV && Took(s, t, i)
    ensures SlotOk(Next(s, t), i)
  {
    hide LifecycleSpec.Trap, Inv, Core, Envid2Env, EaxAfter;
    assert SlotOk(s, i) && SlotOk(s, s.sys.cur);
    KernelEntry(s.sys);
    FoundInUse(s.sys.(mode := Kernel), t.ev.envid, false);
  }

  lemma {:induction false} ReceiveKept(s: State, t: Step, i: int)
    requires IpcInv(s) && Allowed(s, t) && t.Trapped? && (t.ev.Recv? || t.ev.Timer?)
    requires 0 <= i < NENV && s.sys.cur < NENV && Took(s, t, i)
    ensures SlotOk(Next(s, t), i)
  {
    hide LifecycleSpec.Trap, Inv, Core;
    assert SlotOk(s, i) && SlotOk(s, s.sys.cur);
    KernelEntry(s.sys);
  }

  lemma {:induction false} ForkKept(s: State, t: Step, i: int)
    requires IpcInv(s) && Allowed(s, t) && t.Trapped? && t.ev.Exofork?
    requires 0 <= i < NENV && s.sys.cur < NENV && Took(s, t, i)
    ensures SlotOk(Next(s, t), i)
  {
    hide LifecycleSpec.Trap, Inv, Core, EnvAlloc, EaxAfter;
    assert SlotOk(s, i) && SlotOk(s, s.sys.cur);
    KernelEntry(s.sys);
    SameSlot(s.sys, s.sys.envs[s.sys.cur].id, t.ev.memOk);
  }

  // Being in the kernel makes no difference to the slot chosen.
  lemma SameSlot(s: Sys, parent: int, memOk: bool)
    requires Shape(s)
    ensures EnvAlloc(s.(mode := Kernel), parent, memOk).1 == EnvAlloc(s, parent, memOk).1
  {
  }

  lemma {:induction false} OtherKept(s: State, t: Step, i: int)
    requires IpcInv(s) && Allowed(s, t) && t.Trapped? && !t.ev.TrySend? && !t.ev.Recv? && !t.ev.Timer? && !t.ev.Exofork?
    requires 0 <= i < NENV && s.sys.cur < NENV && Took(s, t, i)
    ensures SlotOk(Next(s, t), i)
  {
    hide LifecycleSpec.Trap, Inv, Core, Envid2Env, EnvAlloc, EaxAfter;
    assert SlotOk(s, i) && SlotOk(s, s.sys.cur);
    KernelEntry(s.sys);
    if t.ev.SetStatus? { FoundInUse(s.sys.(mode := Kernel), t.ev.envid, true); }
  }

  lemma {:induction false} StepKeeps(s: State, t: Step)
    requires IpcInv(s) && Allowed(s, t)
    ensures IpcInv(Next(s, t))
  {
    hide LifecycleSpec.Trap, Inv, Effect, EaxAfter, Envid2Env;
    KernelEntry(s.sys);
    match t
    case Land =>
      forall i | 0 <= i < NENV ensures SlotOk(Next(s, t), i) {
        assert SlotOk(s, i) && SlotOk(s, s.sys.cur);
      }
    case Finish =>
      forall i | 0 <= i < NENV ensures SlotOk(Next(s, t), i) {
        assert SlotOk(s, i) && SlotOk(s, s.sys.cur);
      }
    case Trapped(ev) =>
      TrapKeeps(s.sys, ev);
      TrapEffect(s.sys, ev);
      forall i | 0 <= i < NENV ensures SlotOk(Next(s, t), i) {
        assert Took(s, t, i);
        if ev.TrySend? {
          SendKept(s, t, i);
        } else if ev.Exofork? {
          ForkKept(s, t, i);
        } else if ev.Recv? || ev.Timer? {
          ReceiveKept(s, t, i);
        } else {
          OtherKept(s, t, i);
        }
      }
  }

  // ---------- whole runs ----------

  predicate CanRun(s: State, ts: seq<Step>)
    requires Shaped(s)
    decreases |ts|
  {
    ts == [] || (Allowed(s, ts[0]) && CanRun(Next(s, ts[0]), ts[1..]))
  }

  function Run(s: State, ts: seq<Step>): (r: State)
    requires Shaped(s) && CanRun(s, ts)
    ensures Shaped(r)
    decreases |ts|
  {
    if ts == [] then s else Run(Next(s, ts[0]), ts[1..])
  }

  function NoMessages(): seq<seq<Msg>> { seq(NENV, _ => []) }

  function Start(memOk: seq<bool>): (s: State)
    ensures Shaped(s)
  {
    State(LifecycleSpec.Start(memOk), seq(NENV, _ => Idle), NoMessages(), NoMessages())
  }

  lemma {:induction false} CreatedQuiet(s: Sys, memOk: seq<bool>)
    requires Shape(s) && forall i | 0 <= i < NENV :: !s.envs[i].recving
    ensures forall i | 0 <= i < NENV :: !Create(s, memOk).envs[i].recving
    decreases |memOk|
  {
    hide NextId;
    if memOk != [] {
      CreatedQuiet(EnvAlloc(s, 0, memOk[0]).0, memOk[1..]);
    }
  }

  lemma {:induction false} StartInv(memOk: seq<bool>)
    ensures IpcInv(Start(memOk))
  {
    hide SchedYield, Create, Core;
    BootInv();
    CreateKeeps(Boot(1), memOk);
    var c := Create(Boot(1), memOk);
    YieldKeeps(c);
    YieldReschedules(c);
    CreatedQuiet(Boot(1), memOk);
    forall i | 0 <= i < NENV ensures SlotOk(Start(memOk), i) {
      assert Rest(SchedYield(c).envs[i]) == Rest(c.envs[i]);
    }
  }

  lemma {:induction false} RunKeeps(s: State, ts: seq<Step>)
    requires Shaped(s) && IpcInv(s) && CanRun(s, ts)
    ensures IpcInv(Run(s, ts))
    decreases |ts|
  {
    hide Next, IpcInv;
    if ts != [] {
      StepKeeps(s, ts[0]);
      RunKeeps(Next(s, ts[0]), ts[1..]);
    }
  }

  // At every moment of every run, what an environment's receives have returned is exactly what
  // has been sent to it, in order, but for a message that waits inside ipc_recv: nothing lost,
  // doubled, overwritten or made up, whoever sets whom runnable.
  lemma {:induction false} Delivery(memOk: seq<bool>, ts: seq<Step>, i: int)
    requires CanRun(Start(memOk), ts) && 0 <= i < NENV
    ensures Faithful(Run(Start(memOk), ts), i)
  {
    hide Run, CanRun, Inv;
    StartInv(memOk);
    RunKeeps(Start(memOk), ts);
    assert SlotOk(Run(Start(memOk), ts), i);
  }

  // ---------- receive addresses ----------

  ghost predicate StaysFaithful(s: State)
    requires Shaped(s)
  {
    forall ts | CanRun(s, ts) :: AllFaithful(Run(s, ts))
  }

  ghost predicate AllFaithful(s: State)
    requires Shaped(s)
  {
    forall i | 0 <= i < NENV :: Faithful(s, i)
  }

  // A receive at an invalid address returns at once, with the environment still marked as receiving.
  lemma FailedReceive(s: Sys, dstva: nat)
    requires Inv(s) && s.mode.User? && !DstvaOk(dstva)
    ensures var t := LifecycleSpec.Trap(s, Recv(dstva));
      && 0 <= s.cur < NENV && t.cur == s.cur && t.mode.User? && t.envs[s.cur].recving && t.envs[s.cur].eax == -E_INVAL
  {
    hide SchedYield, Core;
    KernelEntry(s);
    CoreEnv(s.(mode := Kernel), s.cur);
  }

  // The run that goes wrong after it: ipc_recv returns the error, and a send (here the program's
  // own, to id 0) succeeds although nobody is inside ipc_recv.
  lemma {:induction false} LostMessage(s: State, dstva: nat) returns (ts: seq<Step>)
    requires IpcInv(s) && s.sys.mode.User? && 0 <= s.sys.cur < NENV && s.phase[s.sys.cur].Idle? && !DstvaOk(dstva)
    ensures var r := Next(s, Trapped(Recv(dstva))); var c := s.sys.cur;
      && CanRun(r, ts) && !Faithful(Run(r, ts), c)
      && Run(r, ts).phase[c].Idle? && |Run(r, ts).sent[c]| == |Run(r, ts).got[c]| + 1
  {
    hide LifecycleSpec.Trap, Inv, Core, Effect, EaxAfter;
    var c := s.sys.cur;
    assert SlotOk(s, c);
    KernelEntry(s.sys);
    TrapKeeps(s.sys, Recv(dstva));
    FailedReceive(s.sys, dstva);
    var send := TrySend(0, 0, Mmu.UTOP, 0, 0);
    var s1 := Next(s, Trapped(Recv(dstva)));
    var s2 := Next(s1, Land);
    var s3 := Next(s2, Finish);
    var s4 := Next(s3, Trapped(send));
    SelfSend(s3.sys);
    ts := [Land, Finish, Trapped(send)];
    assert ts[1..] == [Finish, Trapped(send)] && ts[1..][1..] == [Trapped(send)] && ts[1..][1..][1..] == [];
    assert CanRun(s4, []) && Run(s4, []) == s4;
    assert CanRun(s3, [Trapped(send)]) && Run(s3, [Trapped(send)]) == s4;
    assert CanRun(s2, [Finish, Trapped(send)]) && Run(s2, [Finish, Trapped(send)]) == s4;
    assert CanRun(s1, ts) && Run(s1, ts) == s4;
  }

  lemma {:induction false} SelfSend(s: Sys)
    requires Inv(s) && s.mode.User? && 0 <= s.cur < NENV && Shape(s) && s.envs[s.cur].recving
    ensures var ev := TrySend(0, 0, Mmu.UTOP, 0, 0);
      Reached(s, ev) == s.cur && !LifecycleSpec.Trap(s, ev).envs[s.cur].status.Free?
  {
    hide LifecycleSpec.Trap, Core;
    var ev := TrySend(0, 0, Mmu.UTOP, 0, 0);
    KernelEntry(s);
    TrapEffect(s, ev);
    assert Effect(s.(mode := Kernel), ev, s.cur, LifecycleSpec.Trap(s, ev).envs[s.cur]);
  }

  // However the run goes on, messages are delivered faithfully, if and only if the address a
  // receive names is valid.
  lemma {:induction false} ReceiveFaithfulIff(s: State, dstva: nat)
    requires IpcInv(s) && s.sys.mode.User? && 0 <= s.sys.cur < NENV && s.phase[s.sys.cur].Idle?
    ensures StaysFaithful(Next(s, Trapped(Recv(dstva)))) <==> DstvaOk(dstva)
  {
    hide LifecycleSpec.Trap, Inv, Next;
    var r := Next(s, Trapped(Recv(dstva)));
    if DstvaOk(dstva) {
      StepKeeps(s, Trapped(Recv(dstva)));
      forall ts | CanRun(r, ts) ensures AllFaithful(Run(r, ts)) {
        RunKeeps(r, ts);
        forall i | 0 <= i < NENV ensures Faithful(Run(r, ts), i) {
          assert SlotOk(Run(r, ts), i);
        }
      }
    } else {
      var ts := LostMessage(s, dstva);
      assert !AllFaithful(Run(r, ts));
    }
  }

  // A page goes along when the sender names one and the receiver's address is not 0, which the
  // kernel takes for "no page" although it is a valid address.
  predicate PageSent(e: Env, ev: Event)
    requires ev.TrySend?
  {
    ev.srcva < Mmu.UTOP && e.dstva != 0
  }

  // The permission that ipc_recv reports is nonzero for a page and 0 for none, if and only if it
  // is not left over from an earlier receive.
  lemma {:induction false} PermTellsIff(e: Env, ev: Event, from: int)
    requires ev.TrySend? && SendResult(e, ev) == 0
    ensures DstvaOk(0)
    ensures (Delivered(e, ev, from).perm != 0 <==> PageSent(e, ev)) <==>
      !(ev.srcva < Mmu.UTOP && e.dstva == 0 && e.perm != 0)
  {
    assert Bits.BitOr(ev.perm, Mmu.PTE_U + Mmu.PTE_P) % 2 == 1;
  }

  // Such a leftover does arise.  With two environments c and o the lottery has no choice when one
  // of them blocks.
  ghost predicate Pair(s: State, c: int, o: int) {
    && Shaped(s) && IpcInv(s) && s.sys.mode.User? && s.sys.cur == c && 0 <= c < NENV && 0 <= o < NENV && c != o
    && forall i | 0 <= i < NENV && i != c && i != o :: !Eligible(s.sys.envs[i])
  }

  lemma {:induction false} BlockSwitches(s: State, c: int, o: int, d: nat)
    requires Pair(s, c, o) && s.phase[c].Idle? && s.sys.envs[o].status.Runnable? && DstvaOk(d)
    ensures var t := Trapped(Recv(d)); var r := Next(s, t);
      && Allowed(s, t) && Pair(r, o, c) && r.phase == s.phase[c := Called]
      && r.sys.envs[c].status.NotRunnable? && r.sys.envs[c].recving
      && r.sys.envs[c].dstva == d && r.sys.envs[c].perm == s.sys.envs[c].perm
      && Rest(r.sys.envs[o]) == Rest(s.sys.envs[o])
  {
    hide LifecycleSpec.Trap, Core, EaxAfter;
    var t := Trapped(Recv(d));
    KernelEntry(s.sys);
    StepKeeps(s, t);
    TrapKeeps(s.sys, t.ev);
    TrapEffect(s.sys, t.ev);
    var k, u := s.sys.(mode := Kernel), LifecycleSpec.Trap(s.sys, t.ev);
    forall i | 0 <= i < NENV && i != c ensures Rest(u.envs[i]) == Rest(s.sys.envs[i]) {
      assert Effect(k, t.ev, i, u.envs[i]);
    }
    assert Effect(k, t.ev, c, u.envs[c]);
    SomebodyRuns(u, o);
  }
  lemma {:induction false} SendStays(s: State, c: int, o: int, srcva: nat)
    requires Pair(s, c, o) && s.phase[c].Idle? && s.sys.envs[o].recving && !s.sys.envs[o].status.Free?
    requires srcva == 0 || srcva == Mmu.UTOP
    ensures var ev := TrySend(s.sys.envs[o].id, 0, srcva, 0, 0); var t, r := Trapped(ev), Next(s, Trapped(ev));
      && Allowed(s, t) && Reached(s.sys, ev) == o && Pair(r, c, o) && r.phase == s.phase
      && r.sys.envs[o].status.Runnable? && !r.sys.envs[o].recving
      && r.sys.envs[o].dstva == s.sys.envs[o].dstva && r.sys.envs[o].perm == Delivered(s.sys.envs[o], ev, 0).perm
      && r.sys.envs[c].perm == s.sys.envs[c].perm && r.sys.envs[c].dstva == s.sys.envs[c].dstva
      && r.sys.envs[c].recving == s.sys.envs[c].recving
  {
    hide LifecycleSpec.Trap, Core, EaxAfter, Envid2Env;
    var ev := TrySend(s.sys.envs[o].id, 0, srcva, 0, 0);
    var t, k, u := Trapped(ev), s.sys.(mode := Kernel), LifecycleSpec.Trap(s.sys, ev);
    KernelEntry(s.sys);
    FoundById(k, o, ev.envid);
    StepKeeps(s, t);
    TrapKeeps(s.sys, ev);
    TrapEffect(s.sys, ev);
    forall i | 0 <= i < NENV && i != o && i != c ensures Rest(u.envs[i]) == Rest(s.sys.envs[i]) {
      assert Effect(k, ev, i, u.envs[i]);
    }
    assert Effect(k, ev, o, u.envs[o]) && Effect(k, ev, c, u.envs[c]);
    SendReturns(s.sys, ev);
    CoreEnv(u, o);
  }

  lemma {:induction false} FoundById(s: Sys, o: int, envid: int)
    requires Core(s) && Shape(s) && 0 <= s.cur < NENV && 0 <= o < NENV
    requires !s.envs[o].status.Free? && s.envs[o].id == envid
    ensures envid != 0 && Envid2Env(s.envs, s.cur, envid, false) == o
  {
    hide Core, Slot;
    IdsInUse(s, o);
    Slot32(envid);
  }

  // The sender goes on running.
  lemma {:induction false} SendReturns(s: Sys, ev: Event)
    requires Inv(s) && s.mode.User? && ev.TrySend? && Shape(s) && Reached(s, ev) != s.cur
    ensures LifecycleSpec.Trap(s, ev).cur == s.cur && LifecycleSpec.Trap(s, ev).mode.User?
  {
    hide SchedYield, Core, Delivered, Envid2Env;
    KernelEntry(s);
    CoreEnv(s.(mode := Kernel), s.cur);
    SavedSame(s.(mode := Kernel), ev);
  }

  // A receiver that a message has reached takes it.
  lemma {:induction false} Takes(s: State, c: int, o: int)
    requires Pair(s, c, o) && s.phase[c].Called? && !s.sys.envs[c].recving
    ensures CanRun(s, [Land, Finish])
    ensures var r := Run(s, [Land, Finish]); Pair(r, c, o) && r.sys == s.sys && r.phase == s.phase[c := Idle]
  {
    hide Inv;
    assert SlotOk(s, c);
    var s1 := Next(s, Land);
    var s2 := Next(s1, Finish);
    assert [Land, Finish][1..] == [Finish] && [Finish][1..] == [];
    assert CanRun(s2, []) && Run(s2, []) == s2;
    assert CanRun(s1, [Finish]) && Run(s1, [Finish]) == s2;
    KernelEntry(s.sys);
    StepKeeps(s, Land);
    StepKeeps(s1, Finish);
  }

  lemma {:induction false} RunOn(s: State, ts: seq<Step>, us: seq<Step>)
    requires Shaped(s) && CanRun(s, ts) && CanRun(Run(s, ts), us)
    ensures CanRun(s, ts + us) && Run(s, ts + us) == Run(Run(s, ts), us)
    decreases |ts|
  {
    hide Next;
    if ts == [] {
      assert ts + us == us;
    } else {
      assert (ts + us)[1..] == ts[1..] + us;
      RunOn(Next(s, ts[0]), ts[1..], us);
    }
  }

  lemma RunOne(s: State, t: Step)
    requires Shaped(s) && Allowed(s, t)
    ensures CanRun(s, [t]) && Run(s, [t]) == Next(s, t)
  {
    assert [t][1..] == [];
    assert CanRun(Next(s, t), []);
  }

  // The other is sent a page, the two change places, and the other receives without a page.
  lemma {:induction false} LeavesPerm(s: State, c: int, o: int) returns (ts: seq<Step>)
    requires Pair(s, c, o) && s.phase[c].Idle? && s.phase[o].Idle? && s.sys.envs[o].status.Runnable?
    ensures CanRun(s, ts)
    ensures var r := Run(s, ts);
      && Pair(r, o, c) && r.phase[o].Idle? && r.sys.envs[c].recving && r.sys.envs[c].status.NotRunnable?
      && r.sys.envs[c].dstva == 0 && r.sys.envs[c].perm != 0
  {
    hide IpcInv, Next, CanRun, Run, Reached, Inv;
    BlockSwitches(s, c, o, Mmu.PGSIZE);
    var t1 := Trapped(Recv(Mmu.PGSIZE));
    RunOne(s, t1);
    var s1 := Next(s, t1);
    SendStays(s1, o, c, 0);
    assert Bits.BitOr(0, Mmu.PTE_U + Mmu.PTE_P) % 2 == 1;
    var t2 := Trapped(TrySend(s1.sys.envs[c].id, 0, 0, 0, 0));
    RunOne(s1, t2);
    RunOn(s, [t1], [t2]);
    var s2 := Next(s1, t2);
    BlockSwitches(s2, o, c, Mmu.PGSIZE);
    RunOne(s2, t1);
    RunOn(s, [t1] + [t2], [t1]);
    var s3 := Next(s2, t1);
    Takes(s3, c, o);
    RunOn(s, [t1] + [t2] + [t1], [Land, Finish]);
    var s4 := Run(s3, [Land, Finish]);
    SendStays(s4, c, o, Mmu.UTOP);
    var t5 := Trapped(TrySend(s4.sys.envs[o].id, 0, Mmu.UTOP, 0, 0));
    RunOne(s4, t5);
    ts := [t1] + [t2] + [t1] + [Land, Finish];
    RunOn(s, ts, [t5]);
    var s5 := Next(s4, t5);
    var t6 := Trapped(Recv(0));
    BlockSwitches(s5, c, o, 0);
    RunOne(s5, t6);
    RunOn(s, ts + [t5], [t6]);
    var s6 := Next(s5, t6);
    Takes(s6, o, c);
    ts := ts + [t5] + [t6];
    RunOn(s, ts, [Land, Finish]);
    ts := ts + [Land, Finish];
  }

  lemma {:induction false} TwoCreated()
    ensures var s := Create(Boot(1), [true, true]);
      && Eligible(s.envs[0]) && Eligible(s.envs[1]) && forall i | 2 <= i < NENV :: !Eligible(s.envs[i])
  {
    hide NextId;
    var b := Boot(1);
    var s1 := EnvAlloc(b, 0, true).0;
    var s2 := EnvAlloc(s1, 0, true).0;
    assert [true, true][1..] == [true] && [true][1..] == [];
    assert Create(s1, [true]) == s2;
  }

  lemma {:induction false} TwoStart() returns (c: int, o: int)
    ensures var s := Start([true, true]);
      Pair(s, c, o) && s.phase[c].Idle? && s.phase[o].Idle? && s.sys.envs[o].status.Runnable?
  {
    hide SchedYield, Create, Core;
    var s, t := Start([true, true]), Create(Boot(1), [true, true]);
    TwoCreated();
    BootInv();
    CreateKeeps(Boot(1), [true, true]);
    YieldKeeps(t);
    YieldReschedules(t);
    StartInv([true, true]);
    forall i | 0 <= i < NENV ensures Eligible(s.sys.envs[i]) <==> i < 2 {
      assert Rest(SchedYield(t).envs[i]) == Rest(t.envs[i]);
    }
    SomebodyRuns(s.sys, 0);
    KernelEntry(s.sys);
    c, o := s.sys.cur, 1 - s.sys.cur;
    CoreEnv(s.sys, o);
  }

  // A send that succeeds without a page and leaves a permission.
  predicate Misleads(s: State, ev: Event)
    requires Shaped(s)
  {
    && ev.TrySend? && Allowed(s, Trapped(ev)) && Reached(s.sys, ev) >= 0
    && var e := s.sys.envs[Reached(s.sys, ev)];
    !PageSent(e, ev) && Delivered(e, ev, s.sys.envs[s.sys.cur].id).perm != 0
  }

  // A run from the start of a system with two environments to such a send.
  lemma {:induction false} StalePermission() returns (ts: seq<Step>, ev: Event)
    ensures CanRun(Start([true, true]), ts) && Misleads(Run(Start([true, true]), ts), ev)
  {
    hide IpcInv, Next, CanRun, Run, Reached, Inv, Start;
    var c, o := TwoStart();
    ts := LeavesPerm(Start([true, true]), c, o);
    var s := Run(Start([true, true]), ts);
    SendStays(s, o, c, 0);
    ev := TrySend(s.sys.envs[c].id, 0, 0, 0, 0);
    PermTellsIff(s.sys.envs[c], ev, s.sys.envs[o].id);
  }

  // ---------- waking a blocked receiver ----------

  // Nobody sets a blocked receiver runnable.
  predicate Quiet(s: State, t: Step)
    requires Shaped(s)
  {
    && Allowed(s, t)
    && (t.Trapped? && t.ev.SetStatus? && t.ev.status.Runnable? ==>
          var e := Envid2Env(s.sys.envs, s.sys.cur, t.ev.envid, true); e >= 0 ==> !s.sys.envs[e].recving)
  }

  predicate Blocked(s: State, i: int)
    requires Shaped(s) && 0 <= i < NENV
  {
    && (s.sys.envs[i].recving ==> s.sys.envs[i].status.NotRunnable? && s.phase[i].Called?)
    && !s.phase[i].Stuck? && (s.phase[i].Landed? ==> s.phase[i].ret == 0)
  }

  ghost predicate QuietInv(s: State) {
    IpcInv(s) && forall i | 0 <= i < NENV && !s.sys.envs[i].status.Free? :: Blocked(s, i)
  }

  predicate QuietRun(s: State, ts: seq<Step>)
    requires Shaped(s)
    decreases |ts|
  {
    ts == [] || (Quiet(s, ts[0]) && QuietRun(Next(s, ts[0]), ts[1..]))
  }

  lemma {:induction false} BlockedKept(s: State, t: Step, i: int)
    requires QuietInv(s) && Quiet(s, t) && t.Trapped? && 0 <= i < NENV
    requires s.sys.cur < NENV && Effect(s.sys.(mode := Kernel), t.ev, i, LifecycleSpec.Trap(s.sys, t.ev).envs[i])
    ensures !Next(s, t).sys.envs[i].status.Free? ==> Blocked(Next(s, t), i)
  {
    hide LifecycleSpec.Trap, Inv, Core, Envid2Env, NextId;
    assert SlotOk(s, i) && SlotOk(s, s.sys.cur);
    KernelEntry(s.sys);
    var k := s.sys.(mode := Kernel);
    match t.ev
    case Timer(_) =>
    case Fault(_) =>
    case Exofork(memOk) =>
    case SetStatus(envid, status) =>
      FoundInUse(k, envid, true);
    case Destroy(envid) =>
    case Yield =>
    case Recv(dstva) =>
    case TrySend(envid, value, _, _, _) =>
      FoundInUse(k, envid, false);
    case SetPriority =>
    case Other(_) =>
  }

  lemma {:induction false} QuietStep(s: State, t: Step)
    requires QuietInv(s) && Quiet(s, t)
    ensures QuietInv(Next(s, t))
  {
    hide LifecycleSpec.Trap, Inv, Effect, EaxAfter, Envid2Env;
    KernelEntry(s.sys);
    StepKeeps(s, t);
    var c := s.sys.cur;
    assert SlotOk(s, c) && Blocked(s, c);
    if t.Trapped? {
      TrapEffect(s.sys, t.ev);
      forall i | 0 <= i < NENV && !Next(s, t).sys.envs[i].status.Free? ensures Blocked(Next(s, t), i) {
        BlockedKept(s, t, i);
      }
    } else {
      forall i | 0 <= i < NENV && !Next(s, t).sys.envs[i].status.Free? ensures Blocked(Next(s, t), i) {
        assert Blocked(s, i);
      }
    }
  }

  lemma {:induction false} QuietKeeps(s: State, ts: seq<Step>)
    requires Shaped(s) && QuietInv(s) && QuietRun(s, ts)
    ensures CanRun(s, ts) && QuietInv(Run(s, ts))
    decreases |ts|
  {
    hide Next, IpcInv;
    if ts != [] {
      QuietStep(s, ts[0]);
      QuietKeeps(Next(s, ts[0]), ts[1..]);
    }
  }

  lemma {:induction false} QuietStart(memOk: seq<bool>)
    ensures QuietInv(Start(memOk))
  {
    StartInv(memOk);
    hide Inv, LifecycleSpec.Start;
    forall i | 0 <= i < NENV && !Start(memOk).sys.envs[i].status.Free? ensures Blocked(Start(memOk), i) {
      assert SlotOk(Start(memOk), i);
    }
  }

  // Environment i has panicked inside a receive.
  predicate StuckAt(s: State, i: int)
    requires Shaped(s) && 0 <= i < NENV
  {
    !s.sys.envs[i].status.Free? && s.phase[i].Stuck?
  }

  // Without such a wake no receive panics: every one that returns to the program returns a message.
  lemma {:induction false} QuietNeverStuck(memOk: seq<bool>, ts: seq<Step>, i: int)
    requires QuietRun(Start(memOk), ts) && 0 <= i < NENV
    ensures CanRun(Start(memOk), ts) && !StuckAt(Run(Start(memOk), ts), i)
  {
    hide Run, CanRun, QuietRun, IpcInv;
    QuietStart(memOk);
    QuietKeeps(Start(memOk), ts);
  }

  // Set runnable, but nothing has been sent: the result of the call is still its number.
  predicate Woken(s: State, e: int)
    requires Shaped(s) && 0 <= e < NENV
  {
    s.phase[e].Called? && s.sys.envs[e].recving && Eligible(s.sys.envs[e])
  }

  function InUse(s: State): set<int>
    requires Shaped(s)
  {
    set i | 0 <= i < NENV && !s.sys.envs[i].status.Free?
  }

  lemma SomebodyRuns(s: Sys, e: int)
    requires Inv(s) && !s.mode.Kernel? && Shape(s) && 0 <= e < NENV && Eligible(s.envs[e])
    ensures s.mode.User?
  {
  }

  // Somebody else runs and dies of a page fault.
  lemma {:induction false} OtherDies(s: State, e: int)
    requires IpcInv(s) && s.sys.mode.User? && 0 <= e < NENV && Woken(s, e) && s.sys.cur != e
    ensures var t := Trapped(Fault(0));
      && Quiet(s, t) && IpcInv(Next(s, t)) && Next(s, t).sys.mode.User? && Woken(Next(s, t), e)
      && |InUse(Next(s, t))| < |InUse(s)|
  {
    hide LifecycleSpec.Trap, Core;
    var t, c := Trapped(Fault(0)), s.sys.cur;
    KernelEntry(s.sys);
    StepKeeps(s, t);
    TrapKeeps(s.sys, t.ev);
    TrapEffect(s.sys, t.ev);
    var k, u := s.sys.(mode := Kernel), LifecycleSpec.Trap(s.sys, t.ev);
    forall i | 0 <= i < NENV ensures Effect(k, t.ev, i, u.envs[i]) {
    }
    assert Effect(k, t.ev, e, u.envs[e]) && Rest(u.envs[e]) == Rest(k.envs[e]);
    assert c in InUse(s) && InUse(Next(s, t)) == InUse(s) - {c};
  }

  // However the lottery falls, a woken receiver may come to run before any send, and then panics.
  lemma {:induction false} WokenMayPanic(s: State, e: int) returns (ts: seq<Step>)
    requires IpcInv(s) && s.sys.mode.User? && 0 <= e < NENV && Woken(s, e)
    ensures QuietRun(s, ts) && CanRun(s, ts) && StuckAt(Run(s, ts), e) && Run(s, ts).got[e] == s.got[e]
    decreases |InUse(s)|
  {
    hide Inv, LifecycleSpec.Trap;
    if s.sys.cur == e {
      KernelEntry(s.sys);
      assert SlotOk(s, e);
      ts := [Land, Finish];
      assert ts[1..] == [Finish] && ts[1..][1..] == [];
      var s1 := Next(s, Land);
      var s2 := Next(s1, Finish);
      assert CanRun(s2, []) && QuietRun(s2, []) && Run(s2, []) == s2;
      assert CanRun(s1, [Finish]) && QuietRun(s1, [Finish]) && Run(s1, [Finish]) == s2;
    } else {
      hide IpcInv, Woken, StuckAt, InUse, Next, Quiet, Allowed;
      var t := Trapped(Fault(0));
      OtherDies(s, e);
      var rest := WokenMayPanic(Next(s, t), e);
      ts := [t] + rest;
      assert ts[1..] == rest;
    }
  }

  /** After an environment has been set runnable, no quiet run makes it panic in its receive, if
      and only if it was not blocked in one. */
  lemma {:induction false} WakePanicsIff(s: State, envid: int)
    requires QuietInv(s) && s.sys.mode.User? && 0 <= s.sys.cur < NENV && s.phase[s.sys.cur].Idle?
    requires Envid2Env(s.sys.envs, s.sys.cur, envid, true) >= 0
    ensures var e, r := Envid2Env(s.sys.envs, s.sys.cur, envid, true), Next(s, Trapped(SetStatus(envid, Runnable)));
      NeverStuck(r, e) <==> !s.sys.envs[e].recving
  {
    hide LifecycleSpec.Trap, Inv, Core, Envid2Env;
    var t := Trapped(SetStatus(envid, Runnable));
    var e, r := Envid2Env(s.sys.envs, s.sys.cur, envid, true), Next(s, t);
    KernelEntry(s.sys);
    FoundInUse(s.sys.(mode := Kernel), envid, true);
    if s.sys.envs[e].recving {
      assert Blocked(s, e);
      StepKeeps(s, t);
      TrapEffect(s.sys, t.ev);
      assert Effect(s.sys.(mode := Kernel), t.ev, e, LifecycleSpec.Trap(s.sys, t.ev).envs[e]);
      TrapKeeps(s.sys, t.ev);
      assert Woken(r, e);
      SomebodyRuns(r.sys, e);
      var ts := WokenMayPanic(r, e);
      assert !NeverStuck(r, e);
    } else {
      QuietStep(s, t);
      forall ts | QuietRun(r, ts) ensures CanRun(r, ts) && !StuckAt(Run(r, ts), e) {
        QuietKeeps(r, ts);
      }
    }
  }

  ghost predicate NeverStuck(s: State, i: int)
    requires Shaped(s) && 0 <= i < NENV
  {
    forall ts | QuietRun(s, ts) :: CanRun(s, ts) && !StuckAt(Run(s, ts), i)
  }

  // The rendezvous that the sieve over IPC relies on: on every quiet run a send succeeds only when
  // its receiver is blocked in its receive with everything sent before already returned.
  lemma {:induction false} Rendezvous(memOk: seq<bool>, ts: seq<Step>, ev: Event)
    requires QuietRun(Start(memOk), ts) && CanRun(Start(memOk), ts) && ev.TrySend?
    requires var s := Run(Start(memOk), ts); Quiet(s, Trapped(ev)) && Reached(s.sys, ev) >= 0
    ensures var s := Run(Start(memOk), ts); var e := Reached(s.sys, ev);
      && s.phase[e].Called? && s.sys.envs[e].status.NotRunnable? && s.sent[e] == s.got[e]
      && Next(s, Trapped(ev)).sent[e] == s.got[e] + [Msg(s.sys.envs[s.sys.cur].id, ev.value)]
  {
    hide Run, CanRun, QuietRun, IpcInv, Quiet, Reached, Next;
    QuietStart(memOk);
    QuietKeeps(Start(memOk), ts);
    SendMeets(Run(Start(memOk), ts), ev);
  }

  // What is sent to an environment, and how much of it its receives have returned.
  function Values(ms: seq<Msg>): (r: seq<int>)
    ensures |r| == |ms|
  {
    seq(|ms|, j requires 0 <= j < |ms| => ms[j].value)
  }

  function ChanOf(s: State, i: int): Channel.Chan
    requires Shaped(s) && 0 <= i < NENV
  {
    Channel.Chan(Values(s.sent[i]), |s.got[i]|)
  }

  predicate Receiving(s: State, i: int)
    requires Shaped(s) && 0 <= i < NENV
  {
    s.phase[i].Called? && s.sys.envs[i].status.NotRunnable?
  }

  /** On quiet runs the messages to an environment in use are a channel of the kind the sieve over
      IPC is built on, and what it reads are the values sent. */
  lemma {:induction false} MessagesAreChannels(memOk: seq<bool>, ts: seq<Step>, t: Step, i: int)
    requires QuietRun(Start(memOk), ts) && CanRun(Start(memOk), ts) && 0 <= i < NENV
    requires var s := Run(Start(memOk), ts); Quiet(s, t) && !s.sys.envs[i].status.Free?
    ensures var s := Run(Start(memOk), ts); Channel.Step(ChanOf(s, i), Receiving(s, i), ChanOf(Next(s, t), i))
    ensures var s := Run(Start(memOk), ts); s.got[i] <= s.sent[i]
  {
    hide Run, CanRun, QuietRun, IpcInv, Quiet, Next, Channel.Step, ChanOf, Receiving, SlotOk;
    QuietStart(memOk);
    QuietKeeps(Start(memOk), ts);
    ChannelStep(Run(Start(memOk), ts), t, i);
  }

  lemma {:induction false} ChannelStep(s: State, t: Step, i: int)
    requires QuietInv(s) && Quiet(s, t) && 0 <= i < NENV && !s.sys.envs[i].status.Free?
    ensures Channel.Step(ChanOf(s, i), Receiving(s, i), ChanOf(Next(s, t), i)) && s.got[i] <= s.sent[i]
  {
    hide LifecycleSpec.Trap, Inv, Core;
    KernelEntry(s.sys);
    assert SlotOk(s, i) && SlotOk(s, s.sys.cur) && Blocked(s, s.sys.cur);
    match t
    case Land =>
    case Finish =>
    case Trapped(ev) =>
      match ev
      case TrySend(_, value, _, _, _) =>
        if Reached(s.sys, ev) == i {
          SendMeets(s, ev);
        }
      case Exofork(memOk) =>
        AllocKeeps(s.sys.(mode := Kernel), s.sys.envs[s.sys.cur].id, memOk);
      case _ =>
  }

  lemma {:induction false} SendMeets(s: State, ev: Event)
    requires QuietInv(s) && Quiet(s, Trapped(ev)) && ev.TrySend? && Reached(s.sys, ev) >= 0
    ensures var e := Reached(s.sys, ev);
      && s.phase[e].Called? && s.sys.envs[e].status.NotRunnable? && s.sent[e] == s.got[e]
      && Next(s, Trapped(ev)).sent[e] == s.got[e] + [Msg(s.sys.envs[s.sys.cur].id, ev.value)]
  {
    hide LifecycleSpec.Trap, Inv, Core;
    KernelEntry(s.sys);
    FoundInUse(s.sys.(mode := Kernel), ev.envid, false);
    var e := Reached(s.sys, ev);
    assert Blocked(s, e) && SlotOk(s, e);
  }
}
