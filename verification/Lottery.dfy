/** Environments (sched/inc/env.h) and the id lookup of sched/kern/env.c. */
module Envs {
  import opened EnvIds

  datatype Status = Free | Dying | Runnable | Running | NotRunnable

  // link is the next free environment, -1 at the end; eax is that register in the saved trap
  // frame; the last five are the env_ipc fields.
  datatype Env = Env(status: Status, link: int, id: int, parent: int, tickets: int, runs: int, eax: int,
                     recving: bool, dstva: nat, from: int, value: int, perm: nat)

  predicate Eligible(e: Env) { e.status.Running? || e.status.Runnable? }

  // envid2env: the slot, or -1 for -E_BAD_ENV.
  function Envid2Env(envs: seq<Env>, cur: int, envid: int, checkPerm: bool): (e: int)
    requires |envs| == NENV && 0 <= cur < NENV
    ensures -1 <= e < NENV
  {
    if envid == 0 then cur
    else
      Slot32(envid);
      var e := Slot(envid);
      if envs[e].status.Free? || envs[e].id != envid then -1
      else if checkPerm && e != cur && envs[e].parent != envs[cur].id then -1
      else e
  }

  // An id handed out j allocations before the slot's current one finds nothing, for every j from
  // 1 up to the period; it is accepted again just when j is a multiple of the period.
  lemma {:induction false} StaleIdRejected(envs: seq<Env>, cur: int, slot: nat, k: nat, j: nat)
    requires |envs| == NENV && 0 <= cur < NENV && slot < NENV && k >= 1
    requires envs[slot].id == IdAfter(slot, k + j) && !envs[slot].status.Free?
    ensures Envid2Env(envs, cur, IdAfter(slot, k), false) == if j % PERIOD == 0 then slot else -1
    ensures 1 <= j < PERIOD ==> Envid2Env(envs, cur, IdAfter(slot, k), false) == -1
  {
    hide IdAfter, Slot;
    IdWellFormed(slot, k);
    IdsRepeat(slot, k + j, slot, k);
  }
}

/** The lottery draw, the history ring, and round robin (sched/kern/sched.c). */
module Lottery {
  import opened Envs
  import opened EnvIds

  // Tickets of the eligible environments among the first k.
  function Pool(envs: seq<Env>, k: nat): int
    requires k <= |envs|
  {
    if k == 0 then 0 else Pool(envs, k - 1) + (if Eligible(envs[k - 1]) then envs[k - 1].tickets else 0)
  }

  // The environment a winning number selects, looking from slot i on.
  function PickFrom(envs: seq<Env>, winner: int, i: nat): int
    requires i <= |envs|
    decreases |envs| - i
  {
    if i == |envs| then -1
    else if Eligible(envs[i]) && Pool(envs, i + 1) >= winner then i
    else PickFrom(envs, winner, i + 1)
  }

  function Pick(envs: seq<Env>, winner: int): int { PickFrom(envs, winner, 0) }

  ghost predicate TicketsNonNegative(envs: seq<Env>) {
    forall i | 0 <= i < |envs| && Eligible(envs[i]) :: envs[i].tickets >= 0
  }

  predicate NoneBefore(envs: seq<Env>, i: nat)
    requires i <= |envs|
  {
    forall j | 0 <= j < i :: !Eligible(envs[j])
  }

  lemma {:induction false} PoolMonotone(envs: seq<Env>, j: nat, k: nat)
    requires j <= k <= |envs| && TicketsNonNegative(envs)
    ensures Pool(envs, j) <= Pool(envs, k)
    decreases k - j
  {
    if j < k {
      PoolMonotone(envs, j, k - 1);
    }
  }

  lemma {:induction false} PickFromIs(envs: seq<Env>, w: int, i: nat)
    requires i <= |envs|
    ensures var p := PickFrom(envs, w, i);
      if p < 0 then p == -1 && forall j | i <= j < |envs| && Eligible(envs[j]) :: Pool(envs, j + 1) < w
      else i <= p < |envs| && Eligible(envs[p]) && Pool(envs, p + 1) >= w
           && forall j | i <= j < p && Eligible(envs[j]) :: Pool(envs, j + 1) < w
    decreases |envs| - i
  {
    hide Pool;
    if i < |envs| {
      PickFromIs(envs, w, i + 1);
    }
  }

  // The running total reached by the last eligible environment before k.
  lemma {:induction false} LastBefore(envs: seq<Env>, k: nat) returns (j: nat)
    requires k <= |envs| && !NoneBefore(envs, k)
    ensures j < k && Eligible(envs[j]) && Pool(envs, j + 1) == Pool(envs, k)
  {
    if Eligible(envs[k - 1]) {
      j := k - 1;
    } else {
      assert !NoneBefore(envs, k - 1);
      j := LastBefore(envs, k - 1);
    }
  }

  // Whenever an environment is eligible, every winner up to the pool selects one.
  lemma {:induction false} SomeoneWins(envs: seq<Env>, w: int)
    requires w <= Pool(envs, |envs|)
    ensures Pick(envs, w) >= 0 <==> !NoneBefore(envs, |envs|)
  {
    PickFromIs(envs, w, 0);
    if !NoneBefore(envs, |envs|) {
      var j := LastBefore(envs, |envs|);
    }
  }

  // Environment i wins on exactly the numbers of its own interval, which for the first eligible
  // one also includes 0.
  lemma {:induction false} WinsOn(envs: seq<Env>, i: nat, w: nat)
    requires i < |envs| && Eligible(envs[i]) && TicketsNonNegative(envs)
    ensures Pick(envs, w) == i <==> w <= Pool(envs, i + 1) && (w > Pool(envs, i) || NoneBefore(envs, i))
  {
    PickFromIs(envs, w, 0);
    var p := Pick(envs, w);
    if NoneBefore(envs, i) {
    } else {
      var j := LastBefore(envs, i);
      if w > Pool(envs, i) {
        forall k | 0 <= k < i && Eligible(envs[k]) ensures Pool(envs, k + 1) < w {
          PoolMonotone(envs, k + 1, i);
        }
      }
    }
  }

  function Wins(envs: seq<Env>, i: nat): set<int>
  {
    set w | 0 <= w <= Pool(envs, |envs|) && Pick(envs, w) == i
  }

  function Interval(lo: int, hi: int): (r: set<int>)
    ensures forall w :: w in r <==> lo <= w <= hi
    ensures |r| == if lo <= hi then hi - lo + 1 else 0
    decreases hi - lo
  {
    if lo > hi then {} else Interval(lo, hi - 1) + {hi}
  }

  lemma {:induction false} PoolBeforeFirst(envs: seq<Env>, i: nat)
    requires i <= |envs| && NoneBefore(envs, i)
    ensures Pool(envs, i) == 0
  {
    if i > 0 {
      PoolBeforeFirst(envs, i - 1);
    }
  }

  // Of the pool + 1 possible winners, tickets_i select environment i, one more for the first.
  lemma {:induction false} LotteryShares(envs: seq<Env>, i: nat)
    requires i < |envs| && Eligible(envs[i]) && TicketsNonNegative(envs)
    ensures |Wins(envs, i)| == envs[i].tickets + (if NoneBefore(envs, i) then 1 else 0)
  {
    hide Pick;
    var first := NoneBefore(envs, i);
    var lo := if first then 0 else Pool(envs, i) + 1;
    var hi := Pool(envs, i + 1);
    PoolMonotone(envs, i + 1, |envs|);
    PoolMonotone(envs, 0, i);
    if first {
      PoolBeforeFirst(envs, i);
    }
    forall w ensures w in Wins(envs, i) <==> w in Interval(lo, hi) {
      if w >= 0 {
        WinsOn(envs, i, w);
      }
    }
    assert Wins(envs, i) == Interval(lo, hi);
  }

  // How many numbers select one of the first k environments.
  function Shares(envs: seq<Env>, k: nat): nat
    requires k <= |envs|
  {
    if k == 0 then 0 else Shares(envs, k - 1) + |Wins(envs, k - 1)|
  }

  // All shares together are the pool + 1 numbers that are drawn: none is lost, none counts twice.
  lemma {:induction false} SharesSum(envs: seq<Env>, k: nat)
    requires k <= |envs| && TicketsNonNegative(envs)
    ensures Shares(envs, k) == Pool(envs, k) + (if NoneBefore(envs, k) then 0 else 1)
  {
    if k > 0 {
      SharesSum(envs, k - 1);
      if Eligible(envs[k - 1]) {
        LotteryShares(envs, k - 1);
      } else {
        NoWins(envs, k - 1);
      }
    }
  }

  lemma {:induction false} NoWins(envs: seq<Env>, i: nat)
    requires i < |envs| && !Eligible(envs[i])
    ensures |Wins(envs, i)| == 0
  {
    forall w | w in Wins(envs, i) ensures false {
      PickFromIs(envs, w, 0);
    }
    assert Wins(envs, i) == {};
  }

  // ---------- the history ----------

  const HIST_MAX_SIZE := 10000

  datatype Entry = Entry(id: int, tickets: int, runs: int)

  class History {
    const ring: array<Entry>
    var position: int
    var max: int
    ghost var log: seq<Entry>

    // After any number of additions the ring holds the last 10000 entries, entry k at k modulo 10000.
    ghost predicate Valid()
      reads this, ring
    {
      && ring.Length == HIST_MAX_SIZE
      && position == |log| % HIST_MAX_SIZE
      && max == (if |log| < HIST_MAX_SIZE then |log| else HIST_MAX_SIZE)
      && forall k | 0 <= k < |log| && |log| - HIST_MAX_SIZE <= k :: ring[k % HIST_MAX_SIZE] == log[k]
    }

    constructor ()
      ensures Valid() && log == [] && fresh(ring)
    {
      ring := new Entry[HIST_MAX_SIZE](_ => Entry(0, 0, 0));
      position, max := 0, 0;
      log := [];
    }

    // add_to_historial
    method Add(e: Env)
      requires Valid()
      modifies this, ring
      ensures Valid() && log == old(log) + [Entry(e.id, e.tickets, e.runs)]
    {
      ring[position] := Entry(e.id, e.tickets, e.runs);
      position := position + 1;
      if position > max {
        max := position;
      }
      if position == HIST_MAX_SIZE {
        position := 0;
      }
      log := log + [Entry(e.id, e.tickets, e.runs)];
    }
  }

  // ---------- round robin ----------

  function Index(n: nat, i: nat): nat
    requires n > 0
    ensures Index(n, i) < n
  {
    i % n
  }

  lemma IndexIs(n: nat, i: nat)
    requires i < 2 * n
    ensures Index(n, i) == if i < n then i else i - n
  {
    if i >= n {
      assert i == (i - n) + 1 * n;
    }
  }

  // The first runnable slot in circular order, i steps from n on; -1 if there is none.
  function CircularFrom(envs: seq<Env>, n: nat, i: nat): int
    requires i <= |envs|
    decreases |envs| - i
  {
    if i == |envs| then -1
    else if envs[Index(|envs|, n + i)].status.Runnable? then Index(|envs|, n + i)
    else CircularFrom(envs, n, i + 1)
  }

  // What round_robin runs next; -1 for nothing.
  function RoundRobinPick(envs: seq<Env>, cur: int): int
    requires -1 <= cur < |envs|
  {
    var p := CircularFrom(envs, cur + 1, 0);
    if p >= 0 then p
    else if cur >= 0 && envs[cur].status.Running? then cur
    else -1
  }

  // How many slots after cur's own the environment e comes.
  function Distance(n: nat, cur: int, e: int): int
    requires 0 <= e < n && -1 <= cur < n
  {
    if e > cur then e - cur - 1 else e - cur - 1 + n
  }

  lemma {:induction false} CircularFromIs(envs: seq<Env>, n: nat, i: nat, e: int)
    requires i <= |envs| && 0 <= e < |envs| && 0 < n <= |envs| && envs[e].status.Runnable?
    requires Distance(|envs|, n - 1, e) >= i
    ensures var p := CircularFrom(envs, n, i);
      && 0 <= p < |envs| && envs[p].status.Runnable?
      && Distance(|envs|, n - 1, p) <= Distance(|envs|, n - 1, e)
    decreases |envs| - i
  {
    hide Index;
    IndexIs(|envs|, n + i);
    if !envs[Index(|envs|, n + i)].status.Runnable? {
      CircularFromIs(envs, n, i + 1, e);
    }
  }

  // A yield either runs a waiting environment or brings its turn closer.
  lemma {:induction false} DistanceShrinks(envs: seq<Env>, cur: int, e: int)
    requires 0 <= cur < |envs| && 0 <= e < |envs| && e != cur && envs[e].status.Runnable?
    ensures var p := RoundRobinPick(envs, cur);
      && 0 <= p < |envs|
      && (p == e || Distance(|envs|, p, e) < Distance(|envs|, cur, e))
  {
    CircularFromIs(envs, cur + 1, 0, e);
  }

  // The environment running after the first k yields of a run; before each of them the states
  // of all environments may have changed.
  function Chosen(n: nat, run: seq<seq<Env>>, cur: int, k: nat): int
    requires k <= |run| && -1 <= cur < n && forall j | 0 <= j < |run| :: |run[j]| == n
    ensures -1 <= Chosen(n, run, cur, k) < n
  {
    if k == 0 then cur
    else
      CircularRange(run[k - 1], Chosen(n, run, cur, k - 1) + 1, 0);
      RoundRobinPick(run[k - 1], Chosen(n, run, cur, k - 1))
  }

  lemma {:induction false} CircularRange(envs: seq<Env>, n: nat, i: nat)
    requires i <= |envs|
    ensures -1 <= CircularFrom(envs, n, i) < |envs|
    decreases |envs| - i
  {
    if i < |envs| {
      CircularRange(envs, n, i + 1);
    }
  }

  // Bounded waiting: an environment that stays runnable runs within n - 1 yields.
  lemma {:induction false} RoundRobinServes(n: nat, run: seq<seq<Env>>, cur: int, e: int) returns (k: nat)
    requires 0 <= cur < n && 0 <= e < n && e != cur && |run| == n - 1
    requires forall j | 0 <= j < |run| :: |run[j]| == n && run[j][e].status.Runnable?
    ensures 1 <= k <= n - 1 && Chosen(n, run, cur, k) == e
  {
    k := ServedWithin(n, run, cur, e, n - 1);
  }

  lemma {:induction false} ServedWithin(n: nat, run: seq<seq<Env>>, cur: int, e: int, m: nat) returns (k: nat)
    requires 0 <= cur < n && 0 <= e < n && e != cur && m <= |run|
    requires forall j | 0 <= j < |run| :: |run[j]| == n && run[j][e].status.Runnable?
    ensures k <= m
    ensures (k >= 1 && Chosen(n, run, cur, k) == e) ||
            (0 <= Chosen(n, run, cur, m) && Chosen(n, run, cur, m) != e
             && Distance(n, Chosen(n, run, cur, m), e) + m <= Distance(n, cur, e))
  {
    if m == 0 {
      k := 0;
    } else {
      k := ServedWithin(n, run, cur, e, m - 1);
      if !(k >= 1 && Chosen(n, run, cur, k) == e) {
        DistanceShrinks(run[m - 1], Chosen(n, run, cur, m - 1), e);
        k := m;
      }
    }
  }
}
