/**
  What programs see of the system calls and the timer (sched/kern/syscall.c, trap.c): the result
  in eax and the change of every environment, from one trap to the next return to user mode.
*/
module SystemCalls {
  import opened EnvIds
  import opened Envs
  import opened LifecycleSpec
  import Ipc
  import Mmu

  // What a call that comes back to its caller has put into the caller's eax.
  lemma {:induction false} AnswerStays(s: Sys, ev: Event)
    requires Inv(s) && s.mode.User? && Shape(s) && IsCall(ev)
    ensures var (d, r) := Dispatch(Saved(s.(mode := Kernel), ev), ev);
      d.mode.Kernel? ==> Trap(s, ev).envs[s.cur].eax == r
  {
    hide Core, SchedYield, Dispatch, Saved, TrapReturn;
    var k := s.(mode := Kernel);
    KernelEntry(s);
    CoreEnv(k, s.cur);
    SaveKeeps(k, ev);
    var (d, r) := Dispatch(Saved(k, ev), ev);
    if d.mode.Kernel? {
      Ipc.ReturnReschedules(Answered(d, s.cur, ev, r));
      assert Ipc.Rest(Trap(s, ev).envs[s.cur]) == Ipc.Rest(Answered(d, s.cur, ev, r).envs[s.cur]);
    }
  }

  // Everything but being scheduled, and the result in the caller's eax, is as before.
  predicate Same(s: Sys, t: Sys, i: int)
    requires 0 <= i < |s.envs| && 0 <= i < |t.envs|
  {
    Changed(s, t, i, s.envs[i])
  }

  // ... or is as in e.
  predicate Changed(s: Sys, t: Sys, i: int, e: Env)
    requires 0 <= i < |t.envs|
  {
    if i == s.cur then Ipc.Rest(t.envs[i].(eax := 0)) == Ipc.Rest(e.(eax := 0)) else Ipc.Rest(t.envs[i]) == Ipc.Rest(e)
  }

  // sys_exofork returns twice: to the caller the child's id, which is positive and names the slot
  // that was taken; to the child, once it is set runnable, 0.
  lemma {:induction false} ExoforkReturnsTwice(s: Sys) returns (i: int)
    requires Inv(s) && s.mode.User? && Shape(s) && exists j | 0 <= j < NENV :: s.envs[j].status.Free?
    ensures var t, c := Trap(s, Exofork(true)), s.cur;
      && 0 <= c < NENV && 0 <= i < NENV && s.envs[i].status.Free? && i != c
      && t.envs[c].eax == t.envs[i].id > 0 && Slot(t.envs[i].id) == i && t.cur == c && t.mode.User?
      && t.envs[i].status.NotRunnable? && t.envs[i].eax == 0 && !t.envs[i].recving
      && t.envs[i].parent == s.envs[c].id && t.envs[i].tickets == s.envs[c].tickets && t.envs[i].runs == 0
      && Ipc.Rest(t.envs[c].(eax := 0)) == Ipc.Rest(s.envs[c].(eax := 0))
      && forall j | 0 <= j < NENV && j != c && j != i :: t.envs[j] == s.envs[j]
  {
    hide Core, Slot, NextId, SchedYield, FreeListOk;
    var ev := Exofork(true);
    var k := s.(mode := Kernel);
    KernelEntry(s);
    CoreEnv(k, s.cur);
    SaveKeeps(k, ev);
    var q := Saved(k, ev);
    AllocKeeps(q, q.envs[q.cur].id, true);
    SavedFree(k, ev);
    i := s.freeList;
    TrapKeeps(s, ev);
    IdsInUse(Trap(s, ev), i);
  }

  // Without a free environment, or without memory, it returns an error once and changes nothing.
  lemma {:induction false} ExoforkFails(s: Sys, memOk: bool)
    requires Inv(s) && s.mode.User? && Shape(s)
    requires memOk ==> forall j | 0 <= j < NENV :: !s.envs[j].status.Free?
    ensures var t, c := Trap(s, Exofork(memOk)), s.cur;
      && 0 <= c < NENV && t.cur == c && t.mode.User? && t.envs[c].eax < 0
      && (t.envs[c].eax == -E_NO_FREE_ENV <==> forall j | 0 <= j < NENV :: !s.envs[j].status.Free?)
      && Ipc.Rest(t.envs[c].(eax := 0)) == Ipc.Rest(s.envs[c].(eax := 0))
      && forall j | 0 <= j < NENV && j != c :: t.envs[j] == s.envs[j]
  {
    hide Core, Slot, NextId, SchedYield, FreeListOk;
    var ev := Exofork(memOk);
    var k := s.(mode := Kernel);
    KernelEntry(s);
    CoreEnv(k, s.cur);
    SaveKeeps(k, ev);
    var q := Saved(k, ev);
    AllocKeeps(q, q.envs[q.cur].id, memOk);
    AllocKeeps(q, q.envs[q.cur].id, true);
    SavedFree(k, ev);
  }

  lemma SavedFree(k: Sys, ev: Event)
    requires Shape(k) && k.cur >= 0
    ensures forall j | 0 <= j < NENV :: k.envs[j].status.Free? <==> Saved(k, ev).envs[j].status.Free?
  {
  }

  // The environment a call is about: the caller for id 0, else one in use with that id which the
  // caller may manage.
  predicate Names(s: Sys, envid: int, checkPerm: bool, i: int)
    requires Shape(s) && 0 <= s.cur
  {
    if envid == 0 then i == s.cur else 0 <= i < NENV && Reachable(s, envid, checkPerm, i)
  }

  predicate NamesNobody(s: Sys, envid: int, checkPerm: bool)
    requires Shape(s) && 0 <= s.cur
  {
    envid != 0 && forall i | 0 <= i < NENV :: !Reachable(s, envid, checkPerm, i)
  }

  lemma {:induction false} FoundIs(s: Sys, ev: Event, envid: int, checkPerm: bool)
    requires Inv(s) && s.mode.User? && Shape(s)
    ensures 0 <= s.cur < NENV
    ensures var k := s.(mode := Kernel); var q := Saved(k, ev); var e := Envid2Env(q.envs, q.cur, envid, checkPerm);
      && e == Envid2Env(k.envs, k.cur, envid, checkPerm) && (NamesNobody(s, envid, checkPerm) ==> e == -1)
      && forall i :: Names(s, envid, checkPerm, i) ==> i == e && !s.envs[i].status.Free?
  {
    hide Core, Slot, Envid2Env;
    var k := s.(mode := Kernel);
    KernelEntry(s);
    Ipc.SavedSame(k, ev);
    FoundExactly(k, envid, checkPerm);
    var e := Envid2Env(k.envs, k.cur, envid, checkPerm);
    forall i | Names(s, envid, checkPerm, i) ensures i == e && !s.envs[i].status.Free? {
      if envid != 0 {
        assert Reachable(k, envid, checkPerm, i);
        IdsInUse(k, i);
        if e >= 0 { IdsInUse(k, e); }
      }
    }
    assert envid != 0 && e >= 0 ==> Reachable(s, envid, checkPerm, e);
  }

  // Nothing has happened but that the call has returned an error.
  predicate Failed(s: Sys, t: Sys, error: int)
    requires Shape(s) && Shape(t) && 0 <= s.cur
  {
    t.envs[s.cur].eax == -error && forall j | 0 <= j < NENV :: Same(s, t, j)
  }

  // The environment the call names, and no other, has become e, and the call has returned 0.
  predicate Succeeded(s: Sys, t: Sys, i: int, e: Env)
    requires Shape(s) && Shape(t) && 0 <= s.cur && 0 <= i < NENV
  {
    t.envs[s.cur].eax == 0 && Changed(s, t, i, e) && forall j | 0 <= j < NENV && j != i :: Same(s, t, j)
  }

  // sys_env_set_status.
  lemma {:induction false} SetStatusAnswers(s: Sys, envid: int, status: Status, i: int)
    requires Inv(s) && s.mode.User? && Shape(s)
    ensures var t, valid := Trap(s, SetStatus(envid, status)), status.Runnable? || status.NotRunnable?;
      && (!valid ==> Failed(s, t, E_INVAL))
      && (valid && NamesNobody(s, envid, true) ==> Failed(s, t, E_BAD_ENV))
      && (valid && 0 <= i < NENV && Names(s, envid, true, i) ==> Succeeded(s, t, i, s.envs[i].(status := status)))
  {
    hide Core, Slot, Envid2Env, SchedYield, Trap, FreeListOk;
    var ev := SetStatus(envid, status);
    KernelEntry(s);
    FoundIs(s, ev, envid, true);
    AnswerStays(s, ev);
    Ipc.TrapEffect(s, ev);
    forall j | 0 <= j < NENV ensures Ipc.Effect(s.(mode := Kernel), ev, j, Trap(s, ev).envs[j]) {
    }
  }

  // sys_env_destroy: nobody in use has that id any more.
  lemma {:induction false} DestroyAnswers(s: Sys, envid: int, i: int)
    requires Inv(s) && s.mode.User? && Shape(s)
    ensures var t, c := Trap(s, Destroy(envid)), s.cur;
      && 0 <= c < NENV && (NamesNobody(s, envid, true) ==> Failed(s, t, E_BAD_ENV))
      && (0 <= i < NENV && Names(s, envid, true, i) ==>
            && t.envs[i].status.Free? && (i != c ==> t.envs[c].eax == 0)
            && (forall j | 0 <= j < NENV && j != i :: Same(s, t, j))
            && forall j | 0 <= j < NENV && !t.envs[j].status.Free? :: t.envs[j].id != s.envs[i].id)
  {
    hide Core, Slot, Envid2Env, SchedYield, Trap, FreeListOk;
    var ev := Destroy(envid);
    var k, t := s.(mode := Kernel), Trap(s, ev);
    KernelEntry(s);
    FoundIs(s, ev, envid, true);
    AnswerStays(s, ev);
    Ipc.TrapEffect(s, ev);
    OtherIsFreed(s, ev, envid);
    forall j | 0 <= j < NENV ensures Ipc.Effect(k, ev, j, t.envs[j]) {
    }
    if 0 <= i < NENV && Names(s, envid, true, i) {
      forall j | 0 <= j < NENV && !t.envs[j].status.Free? ensures t.envs[j].id != s.envs[i].id {
        IdsInUse(k, i);
        if j != i && !s.envs[j].status.Free? { IdsInUse(k, j); }
      }
    }
  }

  // Destroying another environment comes back to the caller.
  lemma {:induction false} OtherIsFreed(s: Sys, ev: Event, envid: int)
    requires Inv(s) && s.mode.User? && Shape(s) && ev == Destroy(envid)
    ensures var q := Saved(s.(mode := Kernel), ev); var e := Envid2Env(q.envs, q.cur, envid, true);
      e != s.cur ==> Dispatch(q, ev).0.mode.Kernel?
  {
    hide Core, Slot, Envid2Env, SchedYield;
    KernelEntry(s);
  }

  // sys_ipc_try_send, to an environment anybody may name.
  lemma {:induction false} TrySendAnswers(s: Sys, envid: int, value: int, srcva: nat, perm: nat, pageErr: int, i: int)
    requires Inv(s) && s.mode.User? && Shape(s)
    ensures var t := Trap(s, TrySend(envid, value, srcva, perm, pageErr));
      && 0 <= s.cur < NENV
      && (NamesNobody(s, envid, false) ==> Failed(s, t, E_BAD_ENV))
      && (0 <= i < NENV && Names(s, envid, false, i) ==>
            && (!s.envs[i].recving ==> Failed(s, t, E_IPC_NOT_RECV))
            && (s.envs[i].recving && srcva < Mmu.UTOP && srcva % 4096 != 0 ==> Failed(s, t, E_INVAL))
            && (s.envs[i].recving && srcva < Mmu.UTOP && srcva % 4096 == 0 && pageErr < 0 ==> Failed(s, t, -pageErr))
            && (s.envs[i].recving && (srcva >= Mmu.UTOP || (srcva % 4096 == 0 && pageErr >= 0)) ==>
                  Succeeded(s, t, i, s.envs[i].(from := s.envs[s.cur].id, value := value, recving := false, eax := 0,
                                                status := Runnable, perm := t.envs[i].perm))))
  {
    hide Core, Slot, Envid2Env, SchedYield, Trap, FreeListOk;
    var ev := TrySend(envid, value, srcva, perm, pageErr);
    KernelEntry(s);
    FoundIs(s, ev, envid, false);
    AnswerStays(s, ev);
    Ipc.TrapEffect(s, ev);
    forall j | 0 <= j < NENV ensures Ipc.Effect(s.(mode := Kernel), ev, j, Trap(s, ev).envs[j]) {
    }
  }

  // A timer tick, and the set-priority call, take one ticket, but leave two; the call returns how
  // many are left.
  lemma {:induction false} TicketsGoDown(s: Sys, ev: Event)
    requires Inv(s) && s.mode.User? && Shape(s) && (ev.Timer? || ev.SetPriority?)
    ensures var t, c := Trap(s, ev), s.cur;
      && 0 <= c < NENV && (s.envs[c].tickets > 2 ==> t.envs[c].tickets == s.envs[c].tickets - 1)
      && (s.envs[c].tickets == 2 ==> t.envs[c].tickets == 2) && s.envs[c].tickets >= 2
      && t.envs[c].eax == (if ev.Timer? then ev.eax else t.envs[c].tickets)
      && Changed(s, t, c, s.envs[c].(tickets := t.envs[c].tickets))
      && forall j | 0 <= j < NENV && j != c :: Same(s, t, j)
  {
    hide Core, SchedYield, Trap, FreeListOk;
    KernelEntry(s);
    CoreEnv(s.(mode := Kernel), s.cur);
    if ev.SetPriority? { AnswerStays(s, ev); }
    Ipc.TrapEffect(s, ev);
    forall j | 0 <= j < NENV ensures Ipc.Effect(s.(mode := Kernel), ev, j, Trap(s, ev).envs[j]) {
    }
  }

  // sys_ipc_recv: on a valid address the caller waits and has no result yet.
  lemma {:induction false} RecvAnswers(s: Sys, dstva: nat)
    requires Inv(s) && s.mode.User? && Shape(s)
    ensures var t, c := Trap(s, Recv(dstva)), s.cur;
      && 0 <= c < NENV && t.envs[c].recving && (forall j | 0 <= j < NENV && j != c :: Same(s, t, j))
      && if dstva < Mmu.UTOP && dstva % 4096 == 0
         then (t.mode.User? ==> t.cur != c) && t.envs[c].status.NotRunnable?
              && t.envs[c].dstva == dstva && t.envs[c].eax == SYS_IPC_RECV
         else t.mode.User? && t.cur == c && t.envs[c].status.Running?
              && t.envs[c].dstva == s.envs[c].dstva && t.envs[c].eax == -E_INVAL
  {
    hide Core, SchedYield, Trap, FreeListOk;
    KernelEntry(s);
    Ipc.TrapEffect(s, Recv(dstva));
    if !DstvaOk(dstva) { Ipc.FailedReceive(s, dstva); }
    TrapKeeps(s, Recv(dstva));
    forall j | 0 <= j < NENV ensures Ipc.Effect(s.(mode := Kernel), Recv(dstva), j, Trap(s, Recv(dstva)).envs[j]) {
    }
  }
}
