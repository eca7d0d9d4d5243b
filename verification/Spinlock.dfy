/**
  The big kernel lock (sched/kern/spinlock.c) and the code that takes and drops it on every way
  into and out of the kernel (sched/kern/trap.c, env.c, sched.c, init.c).  Any number of CPUs
  interleave at every single access to the lock and to a CPU's status.
*/
module Spinlock {
  datatype Exit = ToUser | ToHalt

  // Where a CPU is.  n counts the lock_kernel calls still to make on this entry.
  datatype Pc =
    | Off | UserMode | Asleep               // not started; in user mode; halted with interrupts on
    | Entry(fromUser: bool)                 // trap(), before it exchanges the CPU's status
    | LockReadLocked(n: nat) | LockReadCpu(n: nat)   // spin_lock: the two reads of holding()
    | LockXchg(n: nat) | LockSetCpu(n: nat)
    | InKernel
    | Halting                               // sched_halt, about to mark the CPU halted
    | UnlockReadLocked(x: Exit) | UnlockReadCpu(x: Exit) // spin_unlock: holding() again
    | UnlockClearCpu(x: Exit) | UnlockXchg(x: Exit)
    | Panicked

  datatype Status = Unused | Started | Halted

  datatype Cpu = Cpu(pc: Pc, status: Status, acquired: nat, released: nat, entries: nat, exits: nat)

  // lk->locked, lk->cpu (-1 for NULL), and the CPUs; CPU 0 boots the others.
  datatype State = State(locked: bool, owner: int, cpus: seq<Cpu>)

  function Init(n: nat): State
    requires n >= 1
  {
    State(false, -1, seq(n, c requires 0 <= c < n =>
      if c == 0 then Cpu(LockReadLocked(1), Started, 0, 0, 1, 0) else Cpu(Off, Unused, 0, 0, 0, 0)))
  }

  // The one free choice a CPU has is how to leave the kernel.
  datatype Choice = Resume | Halt

  function Go(s: State, c: nat, pc: Pc): State
    requires c < |s.cpus|
  {
    s.(cpus := s.cpus[c := s.cpus[c].(pc := pc)])
  }

  // One step of CPU c.
  function Step(s: State, c: nat, choice: Choice): (t: State)
    requires c < |s.cpus|
    ensures |t.cpus| == |s.cpus|
  {
    var u := s.cpus[c];
    match u.pc
    // mp_main: the CPU announces itself, then takes the lock
    case Off => s.(cpus := s.cpus[c := u.(pc := LockReadLocked(1), status := Started, entries := u.entries + 1)])
    // an interrupt, fault or system call; from sleep, the timer
    case UserMode => s.(cpus := s.cpus[c := u.(pc := Entry(true), entries := u.entries + 1)])
    case Asleep => s.(cpus := s.cpus[c := u.(pc := Entry(false), entries := u.entries + 1)])
    case Entry(fromUser) =>
      var n := (if u.status.Halted? then 1 else 0) + (if fromUser then 1 else 0);
      s.(cpus := s.cpus[c := u.(pc := if n == 0 then InKernel else LockReadLocked(n), status := Started)])
    case LockReadLocked(n) => Go(s, c, if s.locked then LockReadCpu(n) else LockXchg(n))
    case LockReadCpu(n) => Go(s, c, if s.owner == c then Panicked else LockXchg(n))
    case LockXchg(n) =>
      if s.locked then s
      else s.(locked := true, cpus := s.cpus[c := u.(pc := LockSetCpu(n), acquired := u.acquired + 1)])
    case LockSetCpu(n) => Go(s, c, if n > 1 then LockReadLocked(n - 1) else InKernel).(owner := c)
    case InKernel => Go(s, c, if choice.Resume? then UnlockReadLocked(ToUser) else Halting)
    case Halting => s.(cpus := s.cpus[c := u.(pc := UnlockReadLocked(ToHalt), status := Halted)])
    case UnlockReadLocked(x) => Go(s, c, if s.locked then UnlockReadCpu(x) else Panicked)
    case UnlockReadCpu(x) => Go(s, c, if s.owner == c then UnlockClearCpu(x) else Panicked)
    case UnlockClearCpu(x) => Go(s, c, UnlockXchg(x)).(owner := -1)
    case UnlockXchg(x) =>
      s.(locked := false,
         cpus := s.cpus[c := u.(pc := if x.ToUser? then UserMode else Asleep,
                                released := u.released + 1, exits := u.exits + 1)])
    case Panicked => s
  }

  // From the successful exchange of spin_lock to the exchange of spin_unlock.
  predicate Holds(pc: Pc) {
    pc.LockSetCpu? || Named(pc) || pc.UnlockXchg?
  }

  // Those of the holder's points where lk->cpu names it.
  predicate Named(pc: Pc) {
    pc.InKernel? || pc.Halting? || pc.UnlockReadLocked? || pc.UnlockReadCpu? || pc.UnlockClearCpu?
  }

  predicate Outside(pc: Pc) { pc.Off? || pc.UserMode? || pc.Asleep? }

  // What is true of each CPU by itself.
  predicate CpuOk(u: Cpu) {
    && !u.pc.Panicked?
    && (u.pc.LockReadLocked? || u.pc.LockReadCpu? || u.pc.LockXchg? || u.pc.LockSetCpu? ==> u.pc.n == 1)
    && u.status == StatusAt(u.pc)
    && u.acquired == u.released + (if Holds(u.pc) then 1 else 0)
    && u.released == u.exits
    && u.entries == u.exits + (if Outside(u.pc) then 0 else 1)
  }

  // A CPU is marked halted just from before it drops the lock until it traps again.
  function StatusAt(pc: Pc): Status {
    match pc
    case Off => Unused
    case Asleep => Halted
    case Entry(fromUser) => if fromUser then Started else Halted
    case UnlockReadLocked(x) => if x.ToHalt? then Halted else Started
    case UnlockReadCpu(x) => if x.ToHalt? then Halted else Started
    case UnlockClearCpu(x) => if x.ToHalt? then Halted else Started
    case UnlockXchg(x) => if x.ToHalt? then Halted else Started
    case _ => Started
  }

  ghost predicate Inv(s: State) {
    && (forall c | 0 <= c < |s.cpus| :: CpuOk(s.cpus[c]))
    && (forall c | 0 <= c < |s.cpus| && Holds(s.cpus[c].pc) :: s.locked)
    && (s.locked ==> exists c | 0 <= c < |s.cpus| :: Holds(s.cpus[c].pc))
    && (forall c, d | 0 <= c < |s.cpus| && 0 <= d < |s.cpus| && Holds(s.cpus[c].pc) && Holds(s.cpus[d].pc) :: c == d)
    && (forall c | 0 <= c < |s.cpus| && Named(s.cpus[c].pc) :: s.owner == c)
    && (s.owner != -1 ==> 0 <= s.owner < |s.cpus| && Named(s.cpus[s.owner].pc))
  }

  lemma InitInv(n: nat)
    requires n >= 1
    ensures Inv(Init(n))
  {
  }

  // What a step of CPU c is to the lock: nothing, taking it, writing or clearing its name, or
  // dropping it.
  ghost predicate LockStep(s: State, t: State, c: nat)
    requires c < |s.cpus| == |t.cpus|
  {
    var p, q := s.cpus[c].pc, t.cpus[c].pc;
    || (Holds(p) == Holds(q) && Named(p) == Named(q) && t.locked == s.locked && t.owner == s.owner)
    || (!Holds(p) && Holds(q) && !Named(q) && !s.locked && t.locked && t.owner == s.owner)
    || (Holds(p) && Holds(q) && Named(q) && t.locked == s.locked && t.owner == c)
    || (Named(p) && Holds(q) && !Named(q) && t.locked == s.locked && t.owner == -1)
    || (Holds(p) && !Named(p) && !Holds(q) && !t.locked && t.owner == s.owner)
  }

  lemma AtCpu(s: State, c: nat)
    requires Inv(s) && c < |s.cpus|
    ensures CpuOk(s.cpus[c]) && (Holds(s.cpus[c].pc) ==> s.locked) && (Named(s.cpus[c].pc) <==> s.owner == c)
  {
  }

  lemma StepCpuOk(s: State, c: nat, choice: Choice)
    requires Inv(s) && c < |s.cpus|
    ensures CpuOk(Step(s, c, choice).cpus[c])
  {
    hide Inv;
    AtCpu(s, c);
  }

  lemma StepLock(s: State, c: nat, choice: Choice)
    requires Inv(s) && c < |s.cpus|
    ensures LockStep(s, Step(s, c, choice), c)
    ensures forall d | 0 <= d < |s.cpus| && d != c :: Step(s, c, choice).cpus[d] == s.cpus[d]
  {
    assert CpuOk(s.cpus[c]);
  }

  lemma NamedHolds(pc: Pc)
    ensures Named(pc) ==> Holds(pc)
  {
  }

  lemma {:induction false} StepInv(s: State, c: nat, choice: Choice)
    requires Inv(s) && c < |s.cpus|
    ensures Inv(Step(s, c, choice))
  {
    hide Step, CpuOk, Holds, Named;
    var t := Step(s, c, choice);
    StepCpuOk(s, c, choice);
    StepLock(s, c, choice);
    forall d | 0 <= d < |s.cpus| ensures Named(t.cpus[d].pc) ==> Holds(t.cpus[d].pc) {
      NamedHolds(t.cpus[d].pc);
    }
    NamedHolds(s.cpus[c].pc);
    if t.locked && s.locked {
      var h :| 0 <= h < |s.cpus| && Holds(s.cpus[h].pc);
      assert Holds(t.cpus[h].pc);
    }
  }

  // ---------- whole runs ----------

  // An interleaving: which CPU moves, and what it chooses.
  datatype Move = Move(cpu: nat, choice: Choice)

  function Run(s: State, ms: seq<Move>): (t: State)
    requires forall i | 0 <= i < |ms| :: ms[i].cpu < |s.cpus|
    ensures |t.cpus| == |s.cpus|
    decreases |ms|
  {
    if ms == [] then s else Run(Step(s, ms[0].cpu, ms[0].choice), ms[1..])
  }

  lemma {:induction false} RunInv(s: State, ms: seq<Move>)
    requires Inv(s) && forall i | 0 <= i < |ms| :: ms[i].cpu < |s.cpus|
    ensures Inv(Run(s, ms))
    decreases |ms|
  {
    hide Inv, Step;
    if ms != [] {
      StepInv(s, ms[0].cpu, ms[0].choice);
      RunInv(Step(s, ms[0].cpu, ms[0].choice), ms[1..]);
    }
  }

  // For any number of CPUs and every interleaving: at most one CPU is between lock_kernel and
  // unlock_kernel, neither debugging panic is reached, and on each CPU every entry into the kernel
  // takes the lock once and every exit drops it once.
  lemma {:induction false} BigKernelLock(n: nat, ms: seq<Move>)
    requires n >= 1 && forall i | 0 <= i < |ms| :: ms[i].cpu < n
    ensures var s := Run(Init(n), ms);
      && (forall c, d | 0 <= c < n && 0 <= d < n && Holds(s.cpus[c].pc) && Holds(s.cpus[d].pc) :: c == d)
      && (forall c | 0 <= c < n :: !s.cpus[c].pc.Panicked?)
      && (forall c | 0 <= c < n :: s.cpus[c].released == s.cpus[c].exits)
      && (forall c | 0 <= c < n && Outside(s.cpus[c].pc) :: s.cpus[c].acquired == s.cpus[c].entries)
      && (forall c | 0 <= c < n && s.cpus[c].pc.InKernel? :: s.cpus[c].acquired == s.cpus[c].entries)
      && (forall c | 0 <= c < n && s.cpus[c].pc.InKernel? :: s.locked && s.owner == c)
  {
    InitInv(n);
    RunInv(Init(n), ms);
    var s := Run(Init(n), ms);
    assert forall c | 0 <= c < n :: CpuOk(s.cpus[c]);
  }

  // Moves the holder still has to make.
  function Remaining(pc: Pc): nat
    requires Holds(pc)
  {
    match pc
    case LockSetCpu(n) => 6
    case InKernel => 5
    case Halting => 5
    case UnlockReadLocked(_) => 4
    case UnlockReadCpu(_) => 3
    case UnlockClearCpu(_) => 2
    case _ => 1
  }

  // The lock is never lost: whoever holds it can always go on, and drops it within k steps.
  lemma {:induction false} HolderReleases(s: State, c: nat, k: nat) returns (ms: seq<Move>)
    requires Inv(s) && c < |s.cpus| && Holds(s.cpus[c].pc) && k >= Remaining(s.cpus[c].pc)
    ensures |ms| <= k && (forall i | 0 <= i < |ms| :: ms[i] == Move(c, Choice.Resume)) && !Run(s, ms).locked
    decreases Remaining(s.cpus[c].pc)
  {
    StepInv(s, c, Choice.Resume);
    var t := Step(s, c, Choice.Resume);
    assert CpuOk(s.cpus[c]);
    if t.locked {
      var rest := HolderReleases(t, c, k - 1);
      ms := [Move(c, Choice.Resume)] + rest;
      assert ms[1..] == rest;
    } else {
      ms := [Move(c, Choice.Resume)];
      assert Run(t, ms[1..]) == t;
    }
  }

  predicate OnlyMoves(ms: seq<Move>, c: nat) { forall i | 0 <= i < |ms| :: ms[i].cpu == c }

  lemma {:induction false} RunOn(s: State, ms: seq<Move>, ns: seq<Move>)
    requires (forall i | 0 <= i < |ms| :: ms[i].cpu < |s.cpus|) && forall i | 0 <= i < |ns| :: ns[i].cpu < |s.cpus|
    ensures forall i | 0 <= i < |ms + ns| :: (ms + ns)[i].cpu < |s.cpus|
    ensures Run(s, ms + ns) == Run(Run(s, ms), ns)
    decreases |ms|
  {
    hide Step;
    if ms == [] {
      assert ms + ns == ns;
    } else {
      assert (ms + ns)[1..] == ms[1..] + ns;
      RunOn(Step(s, ms[0].cpu, ms[0].choice), ms[1..], ns);
    }
  }

  // In the kernel, with the lock.
  predicate Inside(s: State, c: nat)
    requires c < |s.cpus|
  {
    s.cpus[c].pc.InKernel? && s.locked && s.owner == c
  }

  // Own moves until a CPU that does not hold the lock is in the kernel, if the lock is free.
  function Way(pc: Pc): nat {
    match pc
    case UserMode => 5
    case Asleep => 5
    case Off => 4
    case Entry(_) => 4
    case LockReadLocked(_) => 3
    case LockReadCpu(_) => 3
    case LockXchg(_) => 2
    case LockSetCpu(_) => 1
    case _ => 0
  }

  // A free lock is taken: a CPU outside, on its way in, or spinning gets into the kernel by at most
  // five moves of its own, wherever it is.
  lemma {:induction false} FreeLockIsTaken(s: State, c: nat) returns (ms: seq<Move>)
    requires Inv(s) && c < |s.cpus| && (s.locked ==> s.cpus[c].pc.LockSetCpu? || s.cpus[c].pc.InKernel?)
    ensures |ms| <= Way(s.cpus[c].pc) <= 5 && OnlyMoves(ms, c) && Inside(Run(s, ms), c)
    decreases Way(s.cpus[c].pc)
  {
    assert CpuOk(s.cpus[c]);
    if s.cpus[c].pc.InKernel? {
      ms := [];
    } else {
      StepInv(s, c, Choice.Resume);
      var rest := FreeLockIsTaken(Step(s, c, Choice.Resume), c);
      ms := [Move(c, Choice.Resume)] + rest;
      assert ms[1..] == rest;
    }
  }

  /** At every moment of every run each CPU can still get into the kernel: the holder, if there is
      one, goes on until it drops the lock, and then the CPU takes it. */
  lemma {:induction false} EveryCpuGetsIn(n: nat, ms: seq<Move>, c: nat) returns (ns: seq<Move>)
    requires c < n && forall i | 0 <= i < |ms| :: ms[i].cpu < n
    ensures |ns| <= 11 && forall i | 0 <= i < |ns| :: ns[i].cpu < n
    ensures Inside(Run(Run(Init(n), ms), ns), c)
  {
    hide Inv, Step, Holds;
    InitInv(n);
    RunInv(Init(n), ms);
    ns := CanGetIn(Run(Init(n), ms), c);
  }

  lemma {:induction false} CanGetIn(s: State, c: nat) returns (ns: seq<Move>)
    requires Inv(s) && c < |s.cpus|
    ensures |ns| <= 11 && forall i | 0 <= i < |ns| :: ns[i].cpu < |s.cpus|
    ensures Inside(Run(s, ns), c)
  {
    if !s.locked || s.cpus[c].pc.LockSetCpu? || s.cpus[c].pc.InKernel? {
      ns := FreeLockIsTaken(s, c);
    } else {
      var h: nat :| h < |s.cpus| && Holds(s.cpus[h].pc);
      hide Step, Inv, Holds;
      var ms := HolderReleases(s, h, 6);
      RunInv(s, ms);
      var rest := FreeLockIsTaken(Run(s, ms), c);
      RunOn(s, ms, rest);
      ns := ms + rest;
    }
  }

  // The two ways out: to user mode, or halted with interrupts on.
  lemma {:induction false} GetsOut(s: State, c: nat, choice: Choice) returns (ms: seq<Move>)
    requires Inv(s) && c < |s.cpus| && s.cpus[c].pc.InKernel?
    ensures |ms| <= 6 && OnlyMoves(ms, c) && !Run(s, ms).locked && Run(s, ms).owner == -1
    ensures var u := Run(s, ms).cpus[c];
      if choice.Resume? then u.pc.UserMode? && u.status.Started? else u.pc.Asleep? && u.status.Halted?
  {
    assert CpuOk(s.cpus[c]);
    StepInv(s, c, choice);
    var t := Step(s, c, choice);
    var rest := Leaves(t, c, if choice.Resume? then ToUser else ToHalt);
    ms := [Move(c, choice)] + rest;
    assert ms[1..] == rest;
  }

  predicate OnWayOut(pc: Pc, x: Exit) {
    match pc
    case Halting => x.ToHalt?
    case UnlockReadLocked(y) => x == y
    case UnlockReadCpu(y) => x == y
    case UnlockClearCpu(y) => x == y
    case UnlockXchg(y) => x == y
    case _ => false
  }

  lemma {:induction false} Leaves(s: State, c: nat, x: Exit) returns (ms: seq<Move>)
    requires Inv(s) && c < |s.cpus|
    requires OnWayOut(s.cpus[c].pc, x) && Holds(s.cpus[c].pc)
    ensures |ms| <= Remaining(s.cpus[c].pc) && OnlyMoves(ms, c) && !Run(s, ms).locked && Run(s, ms).owner == -1
    ensures var u := Run(s, ms).cpus[c];
      if x.ToUser? then u.pc.UserMode? && u.status.Started? else u.pc.Asleep? && u.status.Halted?
    decreases Remaining(s.cpus[c].pc)
  {
    assert CpuOk(s.cpus[c]);
    StepInv(s, c, Choice.Resume);
    var t := Step(s, c, Choice.Resume);
    if s.cpus[c].pc.UnlockXchg? {
      ms := [Move(c, Choice.Resume)];
      assert Run(t, ms[1..]) == t;
    } else {
      var rest := Leaves(t, c, x);
      ms := [Move(c, Choice.Resume)] + rest;
      assert ms[1..] == rest;
    }
  }
}
