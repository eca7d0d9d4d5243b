/**
  Which environment a yield chooses: the draws of sched_yield (sched/kern/sched.c) over whole runs
  of LifecycleSpec, in terms of the powers of 48271 and of the tickets alone.
*/
module SchedulingRuns {
  import opened EnvIds
  import opened Envs
  import opened LifecycleSpec
  import opened Lottery
  import ParkMiller

  // Number w falls to environment i: it lies in the interval of i's tickets in the running total,
  // where the first eligible environment also has 0.
  predicate FallsTo(envs: seq<Env>, w: int, i: int) {
    && 0 <= i < |envs| && Eligible(envs[i])
    && w <= Pool(envs, i + 1) && (w > Pool(envs, i) || NoneBefore(envs, i))
  }

  // The number drawn with this seed from a pool of tickets: one of pool + 1 numbers.
  function Number(seed: int, pool: int): int { if pool >= 0 then seed % (pool + 1) else 0 }

  // One yield.  The seed takes one step, and the environment that the number falls to runs ...
  lemma {:induction false} YieldChooses(s: Sys, i: int)
    requires Core(s) && Shape(s) && 0 <= i < NENV && Eligible(s.envs[i])
    ensures var t, seed := SchedYield(s), s.seed * 48271 % 0x7fff_ffff;
      t.seed == seed && (t.cur == i <==> FallsTo(s.envs, Number(seed, Pool(s.envs, NENV)), i))
  {
    hide Core, Pool, NoneBefore, SchedHalt;
    CoreTickets(s);
    WinsOn(s.envs, i, Draw(s));
    SomeoneWins(s.envs, Draw(s));
    SomebodyThere(s.envs, i);
    PickFromIs(s.envs, Draw(s), 0);
    PickIsFrom(s.envs, Draw(s));
    hide Pick, PickFrom;
  }

  lemma SomebodyThere(envs: seq<Env>, i: int)
    requires 0 <= i < |envs| && Eligible(envs[i])
    ensures !NoneBefore(envs, |envs|)
  {
  }

  // ... alone; its run count goes up, and the draw is recorded.
  lemma {:induction false} YieldRuns(s: Sys)
    requires Core(s) && Shape(s) && !NoneBefore(s.envs, NENV)
    ensures var t := SchedYield(s); var i := t.cur;
      && t.mode.User? && 0 <= i < NENV && t.envs[i].status.Running?
      && t.envs[i].runs == (s.envs[i].runs + 1) % 0x1_0000_0000
      && t.log == s.log + [Entry(s.envs[i].id, s.envs[i].tickets, s.envs[i].runs)]
      && forall j | 0 <= j < NENV && j != i :: t.envs[j].runs == s.envs[j].runs && !t.envs[j].status.Running?
  {
    hide Core, Pool, NoneBefore, Draw;
    YieldKeeps(s);
    CoreTickets(s);
    SomeoneWins(s.envs, Draw(s));
    PickFromIs(s.envs, Draw(s), 0);
    PickIsFrom(s.envs, Draw(s));
    forall j | 0 <= j < NENV && j != s.cur ensures !s.envs[j].status.Running? {
      CoreEnv(s, j);
    }
    hide Pick, PickFrom;
  }

  // Multiplying the inverse by the number wanted gives the seed for it.
  lemma {:induction false} SeedFor(w: int) returns (x: int)
    requires 1 <= w < ParkMiller.N
    ensures 1 <= x < ParkMiller.N && x * 48271 % 0x7fff_ffff == w
  {
    x := w * ParkMiller.INVERSE % ParkMiller.N;
    var q := w * ParkMiller.INVERSE / ParkMiller.N;
    assert w * ParkMiller.INVERSE == q * ParkMiller.N + x;
    assert ParkMiller.G * ParkMiller.INVERSE == 42704 * ParkMiller.N + 1;
    assert x * ParkMiller.G == w * (ParkMiller.G * ParkMiller.INVERSE) - q * ParkMiller.G * ParkMiller.N;
    assert x * ParkMiller.G == (w * 42704 - q * ParkMiller.G) * ParkMiller.N + w;
    ParkMiller.ModOf(x * ParkMiller.G, w * 42704 - q * ParkMiller.G, w);
  }

  // Nobody with a ticket is shut out: some seed chooses it.
  lemma {:induction false} SomeSeedChooses(s: Sys, i: int) returns (seed: int)
    requires Core(s) && Shape(s) && 0 <= i < NENV && Eligible(s.envs[i])
    ensures 1 <= seed < ParkMiller.N && SchedYield(s.(seed := seed)).cur == i
  {
    hide Core, SchedYield, NoneBefore, Number, Pool;
    OwnInterval(s, i);
    var w := Pool(s.envs, i + 1);
    seed := SeedFor(w);
    SmallNumber(w, Pool(s.envs, NENV));
    AnySeed(s, seed);
    YieldChooses(s.(seed := seed), i);
  }

  lemma OwnInterval(s: Sys, i: int)
    requires Core(s) && Shape(s) && 0 <= i < NENV && Eligible(s.envs[i])
    ensures 0 <= Pool(s.envs, i) < Pool(s.envs, i + 1) <= Pool(s.envs, NENV) < ParkMiller.N
  {
    hide Core;
    CoreTickets(s);
    CoreEnv(s, i);
    PoolMonotone(s.envs, 0, i);
    PoolMonotone(s.envs, i + 1, NENV);
  }

  lemma SmallNumber(w: int, pool: int)
    requires 0 <= w <= pool
    ensures Number(w, pool) == w
  {
  }

  lemma AnySeed(s: Sys, seed: int)
    requires Core(s) && 1 <= seed < ParkMiller.N
    ensures Core(s.(seed := seed))
  {
    FreeListKept(s, s.(seed := seed));
  }

  // ---------- whole runs ----------

  // Between two states the scheduler was called once, or not at all.
  predicate Drawn(s: Sys, t: Sys)
    requires |t.envs| == NENV
  {
    && |t.log| == |s.log| + 1 && t.seed == ParkMiller.Times(s.seed)
    && FallsTo(t.envs, Number(t.seed, Pool(t.envs, NENV)), t.cur)
  }

  predicate NotDrawn(s: Sys, t: Sys) { t.log == s.log && t.seed == s.seed && t.cur == s.cur }

  lemma {:induction false} PoolSame(a: seq<Env>, b: seq<Env>, k: nat)
    requires |a| == |b| && k <= |a|
    requires forall i | 0 <= i < |a| :: (Eligible(a[i]) <==> Eligible(b[i])) && a[i].tickets == b[i].tickets
    ensures Pool(a, k) == Pool(b, k) && (NoneBefore(a, k) <==> NoneBefore(b, k))
  {
    if k > 0 {
      PoolSame(a, b, k - 1);
    }
  }

  // The tickets and the eligible environments are the same after a yield as before.
  lemma {:induction false} YieldDraws(s: Sys, u: Sys)
    requires Core(u) && Shape(u) && u.seed == s.seed && u.log == s.log
    ensures var t := SchedYield(u); t.mode.User? ==> Drawn(s, t)
  {
    hide Core, Pool, NoneBefore, SchedYield;
    var t := SchedYield(u);
    YieldKeeps(u);
    if t.mode.User? {
      YieldRuns(u);
      SameTickets(u);
      var p := t.cur;
      PoolSame(u.envs, t.envs, NENV);
      PoolSame(u.envs, t.envs, p);
      PoolSame(u.envs, t.envs, p + 1);
      YieldChooses(u, p);
    }
  }

  lemma {:induction false} SameTickets(u: Sys)
    requires Shape(u)
    ensures forall i | 0 <= i < NENV ::
      (Eligible(u.envs[i]) <==> Eligible(SchedYield(u).envs[i])) && u.envs[i].tickets == SchedYield(u).envs[i].tickets
  {
    hide Draw;
    PickFromIs(u.envs, Draw(u), 0);
    PickIsFrom(u.envs, Draw(u));
    hide Pick, PickFrom;
  }

  // From a trap the kernel goes back to the same environment, or calls the scheduler once.
  lemma {:induction false} TrapEnds(s: Sys, ev: Event) returns (u: Sys, draws: bool)
    requires Inv(s) && s.mode.User? && Shape(s)
    ensures Core(u) && Shape(u) && u.seed == s.seed && u.log == s.log
    ensures if draws then Trap(s, ev) == SchedYield(u) else u.cur == s.cur >= 0 && Trap(s, ev) == EnvRun(u, s.cur)
    ensures ev.Timer? || ev.Yield? || ev.Fault? || (ev.Recv? && DstvaOk(ev.dstva)) ==> draws
  {
    hide Core, SchedYield, Envid2Env, SendResult, Delivered, NextId, FreeListOk, EnvRun;
    var k, c := s.(mode := Kernel), s.cur;
    KernelEntry(s);
    CoreEnv(k, c);
    SaveKeeps(k, ev);
    var q := Saved(k, ev);
    DispatchKeeps(q, ev);
    CoreEnv(q, c);
    FreeKeeps(q, c);
    SpendKeeps(q);
    var (d, r) := Dispatch(q, ev);
    if d.mode.Kernel? {
      AnswerKeeps(d, c, ev, r);
      u := Answered(d, c, ev, r);
      CoreShape(u);
      OtherDestroyed(q, ev);
      draws := !(u.cur >= 0 && u.envs[u.cur].status.Running?);
    } else {
      draws := true;
      match ev
      case Timer(_) => u := SpendTicket(q);
      case Fault(_) => u := EnvFree(q, c).(cur := -1);
      case Destroy(_) => u := EnvFree(q, c).(cur := -1);
      case Yield => u := q;
      case Recv(dstva) =>
        var v := SetEnv(q, c, q.envs[c].(recving := true));
        SetKeeps(q, c, v.envs[c]);
        u := SetEnv(v, c, v.envs[c].(dstva := dstva, status := NotRunnable));
        SetKeeps(v, c, u.envs[c]);
      case _ => u := q;
    }
  }

  lemma OtherDestroyed(q: Sys, ev: Event)
    requires Core(q) && q.cur >= 0 && Shape(q)
    ensures var d := Dispatch(q, ev).0; d.mode.Kernel? ==> d.seed == q.seed && d.log == q.log && d.cur == q.cur
  {
    hide Core, Envid2Env, SchedYield;
  }

  lemma {:induction false} TrapDraws(s: Sys, ev: Event)
    requires Inv(s) && s.mode.User? && Shape(s)
    ensures var t := Trap(s, ev); t.mode.User? ==> NotDrawn(s, t) || Drawn(s, t)
    ensures var t := Trap(s, ev); t.mode.User? && (ev.Timer? || ev.Yield?) ==> Drawn(s, t)
  {
    hide Core, SchedYield, Trap, Drawn;
    var u, draws := TrapEnds(s, ev);
    if draws {
      YieldDraws(s, u);
    }
  }

  // The seed after as many draws as the log records.
  predicate Counted(s: Sys) { s.seed == ParkMiller.Pow(48271, |s.log|) % 0x7fff_ffff }

  lemma {:induction false} StepCounted(s: Sys, t: Sys)
    requires Counted(s) && t.seed == ParkMiller.Times(s.seed) && |t.log| == |s.log| + 1
    ensures Counted(t)
  {
    hide ParkMiller.Pow, ParkMiller.Draw;
    var k := |s.log|;
    ParkMiller.DrawIsPower(k);
    ParkMiller.DrawIsPower(k + 1);
    assert ParkMiller.Draw(1, k + 1) == ParkMiller.Times(ParkMiller.Draw(1, k)) by { NextDraw(k); }
  }

  lemma NextDraw(k: nat)
    ensures ParkMiller.Draw(1, k + 1) == ParkMiller.Times(ParkMiller.Draw(1, k))
  {
  }

  lemma {:induction false} RunCounted(s: Sys, evs: seq<Event>)
    requires Inv(s) && Shape(s) && (s.mode.User? ==> Counted(s))
    ensures Run(s, evs).mode.User? ==> Counted(Run(s, evs))
    decreases |evs|
  {
    hide Core, Trap, Counted, Drawn;
    if evs != [] && s.mode.User? {
      var t := Trap(s, evs[0]);
      TrapKeeps(s, evs[0]);
      TrapDraws(s, evs[0]);
      if t.mode.User? {
        CountedOn(s, t);
      }
      RunCounted(t, evs[1..]);
    }
  }

  lemma CountedOn(s: Sys, t: Sys)
    requires Counted(s) && |t.envs| == NENV && (NotDrawn(s, t) || Drawn(s, t))
    ensures Counted(t)
  {
    hide ParkMiller.Pow, FallsTo;
    if Drawn(s, t) {
      hide Counted;
      StepCounted(s, t);
    }
  }

  lemma {:induction false} CreateDrawsNothing(s: Sys, memOk: seq<bool>)
    requires Shape(s)
    ensures Create(s, memOk).seed == s.seed && Create(s, memOk).log == s.log
    decreases |memOk|
  {
    hide NextId;
    if memOk != [] {
      CreateDrawsNothing(EnvAlloc(s, 0, memOk[0]).0, memOk[1..]);
    }
  }

  lemma {:induction false} StartCounted(memOk: seq<bool>)
    ensures Inv(Start(memOk)) && (Start(memOk).mode.User? ==> Counted(Start(memOk)))
  {
    hide Core, SchedYield, Create, Counted, Drawn;
    var u := Create(Boot(1), memOk);
    BootInv();
    CreateKeeps(Boot(1), memOk);
    CoreShape(u);
    CreateDrawsNothing(Boot(1), memOk);
    YieldKeeps(u);
    YieldDraws(u, u);
    if Start(memOk).mode.User? {
      FirstCount(u);
      CountedOn(u, Start(memOk));
    }
  }

  lemma FirstCount(u: Sys)
    requires u.seed == 1 && u.log == []
    ensures Counted(u)
  {
  }

  /** In every run from the start of the system, the k-th call of the scheduler draws the k-th power
      of 48271 modulo 2^31 - 1, and runs the environment to which that number, modulo the tickets
      of all eligible environments and one more, falls.  A timer tick and a yield are such calls. */
  lemma {:induction false} KthDraw(memOk: seq<bool>, evs: seq<Event>, ev: Event)
    requires Run(Start(memOk), evs).mode.User? && 0 <= Run(Start(memOk), evs).cur
    requires Trap(Run(Start(memOk), evs), ev).mode.User?
    ensures var s := Run(Start(memOk), evs); var t := Trap(s, ev);
      && |s.log| <= |t.log| <= |s.log| + 1 && (ev.Timer? || ev.Yield? ==> |t.log| == |s.log| + 1)
      && if |t.log| == |s.log| then t.cur == s.cur
         else FallsTo(t.envs, Number(ParkMiller.Pow(48271, |t.log|) % 0x7fff_ffff, Pool(t.envs, NENV)), t.cur)
  {
    hide Core, Trap, Start, Run, FallsTo, Pool;
    StartCounted(memOk);
    RunKeepsInv(Start(memOk), evs);
    RunCounted(Start(memOk), evs);
    var s := Run(Start(memOk), evs);
    TrapDraws(s, ev);
    CountedOn(s, Trap(s, ev));
  }
}
