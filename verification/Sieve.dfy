/**
  The concurrent prime sieve: a generator and a growing chain of filter processes, connected by
  pipes (fork/primes.c), or by blocking IPC (sched/user/primes.c).  Every process step may
  interleave with every other.  A pipe is the sequence of all numbers ever written to it and
  the count of those already read.
*/
module Sieve {
  import opened Primes
  import Channel

  datatype Option<T> = None | Some(value: T)

  // The generator: about to write i; has closed its pipe and waits for its child; has returned.
  datatype Gen = Writing(i: int) | GenWaiting | GenDone

  // A filter: waiting for its first number; between numbers; about to write v; has closed its
  // pipes and waits for its child; has ended.
  datatype Stage = First | Filtering(p: int) | Holding(p: int, v: int) | Waiting(p: int) | Done

  // limit: the bound n of fork/primes.c, None for the endless generator over IPC.
  // rendezvous: a write succeeds only when the reader is blocked in its receive (IPC);
  // otherwise a pipe takes up to cap unread numbers.
  datatype Config = Config(limit: Option<int>, rendezvous: bool, cap: nat)

  datatype State = State(gen: Gen, stages: seq<Stage>, hist: seq<seq<int>>, read: seq<nat>, printed: seq<int>)

  datatype Step =
    | GenWrite | GenClose | GenExit
    | ReadFirst(k: nat) | FirstEof(k: nat) | Read(k: nat) | Send(k: nat) | Eof(k: nat) | Exit(k: nat)

  function Init(): State { State(Writing(2), [First], [[]], [0], []) }

  predicate Shape(s: State) {
    |s.stages| == |s.hist| == |s.read| && |s.stages| >= 1 && forall k | 0 <= k < |s.read| :: s.read[k] <= |s.hist[k]|
  }

  predicate Unread(s: State, k: nat)
    requires Shape(s) && k < |s.stages|
  {
    s.read[k] < |s.hist[k]|
  }

  function NextNumber(s: State, k: nat): int
    requires Shape(s) && k < |s.stages| && Unread(s, k)
  {
    s.hist[k][s.read[k]]
  }

  // The only write end of pipe k has been closed.
  predicate PipeClosed(s: State, k: nat)
    requires Shape(s) && k < |s.stages|
  {
    if k == 0 then !s.gen.Writing? else s.stages[k - 1].Waiting? || s.stages[k - 1].Done?
  }

  function ChanOf(s: State, k: nat): Channel.Chan
    requires Shape(s) && k < |s.stages|
  {
    Channel.Chan(s.hist[k], s.read[k])
  }

  // In ipc_recv.
  predicate Receiving(g: Stage) { g.First? || g.Filtering? }

  predicate Room(c: Config, s: State, k: nat)
    requires Shape(s) && k < |s.stages|
  {
    if c.rendezvous then Channel.Meets(ChanOf(s, k), Receiving(s.stages[k]))
    else |s.hist[k]| - s.read[k] < c.cap
  }

  predicate Enabled(c: Config, s: State, t: Step)
    requires Shape(s)
  {
    var m := |s.stages|;
    match t
    case GenWrite => s.gen.Writing? && (c.limit.None? || s.gen.i <= c.limit.value) && Room(c, s, 0)
    case GenClose => s.gen.Writing? && c.limit.Some? && s.gen.i > c.limit.value
    case GenExit => s.gen.GenWaiting? && s.stages[0].Done?
    case ReadFirst(k) => k < m && s.stages[k].First? && Unread(s, k)
    case FirstEof(k) => k < m && s.stages[k].First? && !Unread(s, k) && PipeClosed(s, k)
    case Read(k) => k < m && s.stages[k].Filtering? && Unread(s, k)
    case Send(k) => k + 1 < m && s.stages[k].Holding? && Room(c, s, k + 1)
    case Eof(k) => k < m && s.stages[k].Filtering? && !Unread(s, k) && PipeClosed(s, k)
    case Exit(k) => k + 1 < m && s.stages[k].Waiting? && s.stages[k + 1].Done?
  }

  function Write(s: State, k: nat, x: int): State
    requires k < |s.hist|
  {
    s.(hist := s.hist[k := s.hist[k] + [x]])
  }

  function Take(s: State, k: nat): State
    requires k < |s.read|
  {
    s.(read := s.read[k := s.read[k] + 1])
  }

  function Become(s: State, k: nat, g: Stage): State
    requires k < |s.stages|
  {
    s.(stages := s.stages[k := g])
  }

  function Next(c: Config, s: State, t: Step): State
    requires Shape(s) && Enabled(c, s, t)
  {
    match t
    case GenWrite => Write(s, 0, s.gen.i).(gen := Writing(s.gen.i + 1))
    case GenClose => s.(gen := GenWaiting)
    case GenExit => s.(gen := GenDone)
    case ReadFirst(k) =>
      // prints its prime, makes the next pipe, and forks the next filter
      var p := NextNumber(s, k);
      var u := Become(Take(s, k), k, Filtering(p));
      u.(stages := u.stages + [First], hist := u.hist + [[]], read := u.read + [0], printed := s.printed + [p])
    case FirstEof(k) => Become(s, k, Done)
    case Read(k) =>
      var p, v := s.stages[k].p, NextNumber(s, k);
      if Divides(p, v) then Take(s, k) else Become(Take(s, k), k, Holding(p, v))
    case Send(k) => Become(Write(s, k + 1, s.stages[k].v), k, Filtering(s.stages[k].p))
    case Eof(k) => Become(s, k, Waiting(s.stages[k].p))
    case Exit(k) => Become(s, k, Done)
  }

  // ---------- the invariant ----------

  // The numbers fed in so far are 2..Fed(s).
  function Fed(c: Config, s: State): int {
    match s.gen
    case Writing(i) => i - 1
    case _ => if c.limit.Some? && c.limit.value >= 1 then c.limit.value else 1
  }

  // What stage k has passed on or is about to.
  function Passed(s: State, k: nat): seq<int>
    requires k + 1 < |s.hist| == |s.stages|
  {
    s.hist[k + 1] + (if s.stages[k].Holding? then [s.stages[k].v] else [])
  }

  predicate GenOk(c: Config, s: State)
    requires Shape(s)
  {
    && s.hist[0] == UpTo(Fed(c, s))
    && (s.gen.Writing? ==> s.gen.i >= 2 && (c.limit.Some? ==> s.gen.i <= c.limit.value + 1 || s.gen.i == 2))
    && (!s.gen.Writing? ==> c.limit.Some?)
    && (s.gen.GenDone? ==> s.stages[0].Done?)
  }

  // A stage that has forked its successor passes on its input, sifted by the prime it printed.
  predicate InnerOk(s: State, k: nat)
    requires Shape(s) && k + 1 < |s.stages|
  {
    && !s.stages[k].First? && s.read[k] >= 1
    && k < |s.printed| && s.printed[k] == s.hist[k][0]
    && Passed(s, k) == Sift(s.hist[k][0], s.hist[k][1..s.read[k]])
    && (s.stages[k].Filtering? || s.stages[k].Holding? || s.stages[k].Waiting? ==> s.stages[k].p == s.hist[k][0])
    && (s.stages[k].Waiting? || s.stages[k].Done? ==> PipeClosed(s, k) && s.read[k] == |s.hist[k]|)
    && (s.stages[k].Done? ==> s.stages[k + 1].Done?)
  }

  // The last stage of the chain has read nothing; it ends only on an empty, closed pipe.
  predicate LastOk(s: State)
    requires Shape(s)
  {
    var k := |s.stages| - 1;
    s.read[k] == 0 && (s.stages[k].First? || (s.stages[k].Done? && PipeClosed(s, k) && s.hist[k] == []))
  }

  predicate Inv(c: Config, s: State) {
    && Shape(s) && |s.printed| == |s.stages| - 1
    && GenOk(c, s) && LastOk(s)
    && forall k: nat | k + 1 < |s.stages| :: InnerOk(s, k)
  }

  lemma InitInv(c: Config)
    ensures Inv(c, Init())
  {
  }

  // Only the first pipe grows when the generator writes.
  lemma GenWriteInner(c: Config, s: State, k: nat)
    requires Inv(c, s) && Enabled(c, s, GenWrite) && k + 1 < |s.stages|
    ensures InnerOk(Next(c, s, GenWrite), k)
  {
    var s' := Next(c, s, GenWrite);
    assert InnerOk(s, k);
    assert s'.hist[k][1..s'.read[k]] == s.hist[k][1..s.read[k]];
  }

  lemma GenStepInv(c: Config, s: State, t: Step)
    requires Inv(c, s) && Enabled(c, s, t) && (t.GenWrite? || t.GenClose? || t.GenExit?)
    ensures Inv(c, Next(c, s, t))
  {
    var s' := Next(c, s, t);
    forall k: nat | k + 1 < |s'.stages| ensures InnerOk(s', k) {
      assert InnerOk(s, k);
      if t.GenWrite? {
        GenWriteInner(c, s, k);
      }
    }
  }

  lemma ReadFirstInv(c: Config, s: State, k: nat)
    requires Inv(c, s) && Enabled(c, s, ReadFirst(k))
    ensures Inv(c, Next(c, s, ReadFirst(k)))
  {
    var s' := Next(c, s, ReadFirst(k));
    assert k + 1 < |s.stages| ==> InnerOk(s, k);
    forall j: nat | j + 1 < |s'.stages| ensures InnerOk(s', j) {
      if j < k {
        assert InnerOk(s, j);
      } else {
        assert s'.hist[k][1..s'.read[k]] == [];
      }
    }
  }

  lemma {:induction false} SiftNext(p: int, s: seq<int>, i: nat)
    requires 1 <= i < |s|
    ensures Sift(p, s[1..i + 1]) == Sift(p, s[1..i]) + (if Divides(p, s[i]) then [] else [s[i]])
  {
    var b := s[1..i + 1];
    assert b[..|b| - 1] == s[1..i] && b[|b| - 1] == s[i];
  }

  lemma ReadInv(c: Config, s: State, k: nat)
    requires Inv(c, s) && Enabled(c, s, Read(k))
    ensures Inv(c, Next(c, s, Read(k)))
  {
    hide Divides, Sift;
    var s' := Next(c, s, Read(k));
    assert InnerOk(s, k);
    SiftNext(s.hist[k][0], s.hist[k], s.read[k]);
    assert InnerOk(s', k);
    forall j: nat | j + 1 < |s'.stages| ensures InnerOk(s', j) {
      assert InnerOk(s, j);
    }
  }

  lemma SendInv(c: Config, s: State, k: nat)
    requires Inv(c, s) && Enabled(c, s, Send(k))
    ensures Inv(c, Next(c, s, Send(k)))
  {
    var s' := Next(c, s, Send(k));
    assert InnerOk(s, k);
    assert s'.hist[k + 1] == Passed(s, k);
    forall j: nat | j + 1 < |s'.stages| ensures InnerOk(s', j) {
      assert InnerOk(s, j);
      assert s'.hist[j][1..s'.read[j]] == s.hist[j][1..s.read[j]];
    }
  }

  lemma EndInv(c: Config, s: State, t: Step)
    requires Inv(c, s) && Enabled(c, s, t) && (t.FirstEof? || t.Eof? || t.Exit?)
    ensures Inv(c, Next(c, s, t))
  {
    var s' := Next(c, s, t);
    forall j: nat | j + 1 < |s'.stages| ensures InnerOk(s', j) {
      assert InnerOk(s, j);
    }
  }

  lemma {:induction false} StepInv(c: Config, s: State, t: Step)
    requires Inv(c, s) && Enabled(c, s, t)
    ensures Inv(c, Next(c, s, t))
  {
    hide Inv, Next, Enabled;
    match t
    case ReadFirst(k) => ReadFirstInv(c, s, k);
    case Read(k) => ReadInv(c, s, k);
    case Send(k) => SendInv(c, s, k);
    case GenWrite => GenStepInv(c, s, t);
    case GenClose => GenStepInv(c, s, t);
    case GenExit => GenStepInv(c, s, t);
    case FirstEof(k) => EndInv(c, s, t);
    case Eof(k) => EndInv(c, s, t);
    case Exit(k) => EndInv(c, s, t);
  }

  // ---------- safety ----------

  // Every pipe carries a prefix of what a sequential sieve would send through it, and all of it
  // once its write end is closed.
  lemma {:induction false} PipeIsLevel(c: Config, s: State, k: nat)
    requires Inv(c, s) && k < |s.stages|
    ensures NonEmptyBelow(k, Fed(c, s)) && s.hist[k] <= Level(k, Fed(c, s))
    ensures forall i: nat | i < k :: s.printed[i] == Head(i, Fed(c, s))
    ensures k > 0 && PipeClosed(s, k) ==> PipeClosed(s, k - 1) && s.hist[k - 1] == Level(k - 1, Fed(c, s))
    ensures PipeClosed(s, k) ==> s.hist[k] == Level(k, Fed(c, s))
  {
    hide Fed, Divides, Sift, UpTo;
    if k > 0 {
      PipeIsLevel(c, s, k - 1);
      assert InnerOk(s, k - 1);
      var n, h, r := Fed(c, s), s.hist[k - 1], s.read[k - 1];
      assert h[1..r] <= Level(k - 1, n)[1..];
      SiftPrefix(h[0], h[1..r], Level(k - 1, n)[1..]);
      assert s.hist[k] <= Passed(s, k - 1);
      assert r == |h| ==> h[1..r] == h[1..];
    }
  }

  // The numbers in a pipe come in increasing order, and no prime printed before it divides them.
  lemma {:induction false} PipeContents(c: Config, s: State, k: nat)
    requires Inv(c, s) && k < |s.stages|
    ensures Increasing(s.hist[k])
    ensures forall x | x in s.hist[k] :: 2 <= x <= Fed(c, s) && forall i | 0 <= i < k :: !Divides(s.printed[i], x)
  {
    hide Fed, Divides;
    var n := Fed(c, s);
    PipeIsLevel(c, s, k);
    LevelIs(k, n);
    assert forall x | x in s.hist[k] :: x in Level(k, n);
  }

  // In every reachable state the output is a prefix of the primes.
  lemma {:induction false} PrintedPrimes(c: Config, s: State)
    requires Inv(c, s)
    ensures s.printed <= PrimesUpTo(Fed(c, s)) && s.printed == Heads(|s.stages| - 1, Fed(c, s))
    ensures forall p | p in s.printed :: IsPrime(p)
  {
    hide Fed, Divides, Level, IsPrime;
    var n, m := Fed(c, s), |s.stages| - 1;
    PipeIsLevel(c, s, m);
    assert s.printed == Heads(m, n);
    HeadsPrefixOfPrimes(m, m, n);
    PrimesUpToIs(n);
    assert forall p | p in s.printed :: p in PrimesUpTo(n);
  }

  lemma {:induction false} AllDone(c: Config, s: State, k: nat)
    requires Inv(c, s) && s.gen.GenDone? && k < |s.stages|
    ensures s.stages[k].Done?
  {
    if k > 0 {
      AllDone(c, s, k - 1);
      assert InnerOk(s, k - 1);
    }
  }

  // When the program ends, every process has ended and the output is exactly the primes up to n.
  lemma {:induction false} FinalOutput(c: Config, s: State)
    requires Inv(c, s) && s.gen.GenDone?
    ensures c.limit.Some? && s.printed == PrimesUpTo(c.limit.value)
    ensures forall k | 0 <= k < |s.stages| :: s.stages[k].Done?
  {
    var m := |s.stages| - 1;
    forall k | 0 <= k < |s.stages| ensures s.stages[k].Done? {
      AllDone(c, s, k);
    }
    assert s.hist[m] == [];
    PipeIsLevel(c, s, m);
    PrintedPrimes(c, s);
    HeadsArePrimes(m, Fed(c, s));
  }

  // A pipe that may still be written to has a live reader, so no write fails.
  lemma {:induction false} WriterHasReader(c: Config, s: State, k: nat)
    requires Inv(c, s) && k < |s.stages| && !PipeClosed(s, k)
    ensures !s.stages[k].Waiting? && !s.stages[k].Done?
  {
    assert k + 1 < |s.stages| ==> InnerOk(s, k);
  }

  // ---------- whole runs ----------

  predicate CanRun(c: Config, s: State, ts: seq<Step>)
    requires Shape(s)
    decreases |ts|
  {
    ts == [] || (Enabled(c, s, ts[0]) && Shape(Next(c, s, ts[0])) && CanRun(c, Next(c, s, ts[0]), ts[1..]))
  }

  function Run(c: Config, s: State, ts: seq<Step>): (r: State)
    requires Shape(s) && CanRun(c, s, ts)
    ensures Shape(r)
    decreases |ts|
  {
    if ts == [] then s else Run(c, Next(c, s, ts[0]), ts[1..])
  }

  lemma {:induction false} RunInv(c: Config, s: State, ts: seq<Step>)
    requires Inv(c, s) && CanRun(c, s, ts)
    ensures Inv(c, Run(c, s, ts))
    decreases |ts|
  {
    hide Next, Enabled;
    if ts != [] {
      StepInv(c, s, ts[0]);
      RunInv(c, Next(c, s, ts[0]), ts[1..]);
    }
  }

  // Whatever the interleaving: only primes are printed, in order and without a gap; the bounded
  // sieve, when its generator returns, has printed all primes up to n.
  lemma {:induction false} SieveSafety(c: Config, ts: seq<Step>)
    requires CanRun(c, Init(), ts)
    ensures var s := Run(c, Init(), ts);
      && s.printed <= PrimesUpTo(Fed(c, s))
      && (s.gen.GenDone? ==> c.limit.Some? && s.printed == PrimesUpTo(c.limit.value))
  {
    hide Inv, Fed, PrimesUpTo;
    var s := Run(c, Init(), ts);
    InitInv(c);
    RunInv(c, Init(), ts);
    PrintedPrimes(c, s);
    if s.gen.GenDone? {
      FinalOutput(c, s);
    }
  }

  // ---------- no deadlock ----------

  // Neither ended nor waiting for input on an open, empty pipe.
  predicate Busy(s: State, k: nat)
    requires Shape(s) && k < |s.stages|
  {
    Unread(s, k) || s.stages[k].Holding? || (PipeClosed(s, k) && !s.stages[k].Done?)
  }

  // A full pipe has a busy reader.
  lemma NoRoomBusy(c: Config, s: State, k: nat)
    requires Inv(c, s) && k < |s.stages| && !PipeClosed(s, k) && !Room(c, s, k) && (c.rendezvous || c.cap >= 1)
    ensures Busy(s, k)
  {
    WriterHasReader(c, s, k);
  }

  lemma {:induction false} BusyMoves(c: Config, s: State, k: nat) returns (t: Step)
    requires Inv(c, s) && k < |s.stages| && Busy(s, k) && (c.rendezvous || c.cap >= 1)
    ensures Enabled(c, s, t)
    decreases |s.stages| - k
  {
    hide GenOk;
    assert k + 1 < |s.stages| ==> InnerOk(s, k);
    match s.stages[k]
    case First => t := if Unread(s, k) then ReadFirst(k) else FirstEof(k);
    case Filtering(_) => t := if Unread(s, k) then Read(k) else Eof(k);
    case Holding(_, _) =>
      if Room(c, s, k + 1) {
        t := Send(k);
      } else {
        NoRoomBusy(c, s, k + 1);
        t := BusyMoves(c, s, k + 1);
      }
    case Waiting(_) =>
      if s.stages[k + 1].Done? {
        t := Exit(k);
      } else {
        t := BusyMoves(c, s, k + 1);
      }
  }

  // Until the generator has returned, some process can take a step.
  lemma {:induction false} NoDeadlock(c: Config, s: State) returns (t: Step)
    requires Inv(c, s) && !s.gen.GenDone? && (c.rendezvous || c.cap >= 1)
    ensures Enabled(c, s, t)
  {
    match s.gen
    case Writing(i) =>
      if c.limit.Some? && i > c.limit.value {
        t := GenClose;
      } else if Room(c, s, 0) {
        t := GenWrite;
      } else {
        NoRoomBusy(c, s, 0);
        t := BusyMoves(c, s, 0);
      }
    case GenWaiting =>
      if s.stages[0].Done? {
        t := GenExit;
      } else {
        t := BusyMoves(c, s, 0);
      }
  }

  // ---------- termination ----------

  function Rank(g: Stage): nat {
    match g case First => 0 case Filtering(_) => 1 case Holding(_, _) => 1 case Waiting(_) => 2 case Done => 3
  }

  function GenRank(g: Gen): nat {
    match g case Writing(_) => 0 case GenWaiting => 1 case GenDone => 2
  }

  // Numbers written to and read from pipe k, and how far its reader has come.
  function Work(s: State, k: nat): nat
    requires Shape(s) && k < |s.stages|
  {
    |s.hist[k]| + s.read[k] + Rank(s.stages[k])
  }

  function WorkBelow(s: State, k: nat): nat
    requires Shape(s) && k <= |s.stages|
  {
    if k == 0 then 0 else WorkBelow(s, k - 1) + Work(s, k - 1)
  }

  function Progress(s: State): nat
    requires Shape(s)
  {
    WorkBelow(s, |s.stages|) + GenRank(s.gen)
  }

  lemma {:induction false} MoreWork(s: State, s': State, k: nat, at: nat)
    requires Shape(s) && Shape(s') && k <= |s.stages| && k <= |s'.stages|
    requires forall j: nat | j < k :: Work(s', j) >= Work(s, j) + (if j == at then 1 else 0)
    ensures WorkBelow(s', k) >= WorkBelow(s, k) + (if at < k then 1 else 0)
  {
    hide Work;
    if k > 0 {
      MoreWork(s, s', k - 1, at);
    }
  }

  lemma {:induction false} StepProgress(c: Config, s: State, t: Step)
    requires Inv(c, s) && Enabled(c, s, t)
    ensures Shape(Next(c, s, t)) && Progress(Next(c, s, t)) > Progress(s)
  {
    hide Room, PipeClosed, Divides;
    var s', m := Next(c, s, t), |s.stages|;
    StepInv(c, s, t);
    hide Inv;
    var at := match t
      case GenWrite => 0 case GenClose => m case GenExit => m
      case ReadFirst(k) => k case FirstEof(k) => k case Read(k) => k
      case Send(k) => k + 1 case Eof(k) => k case Exit(k) => k;
    MoreWork(s, s', m, at);
  }

  lemma {:induction false} WorkBound(s: State, k: nat, w: nat)
    requires Shape(s) && k <= |s.stages| && forall j: nat | j < k :: Work(s, j) <= w
    ensures WorkBelow(s, k) <= k * w
  {
    hide Work, Shape;
    if k > 0 {
      WorkBound(s, k - 1, w);
      assert (k - 1) * w + w == k * w;
    }
  }

  function RunBound(n: int): nat {
    var b := if n < 2 then 0 else n - 1;
    (b + 1) * (2 * b + 3) + 2
  }

  lemma ProgressBound(c: Config, s: State)
    requires Inv(c, s) && c.limit.Some?
    ensures Progress(s) <= RunBound(c.limit.value)
  {
    var n, m := Fed(c, s), |s.stages|;
    var b := if c.limit.value < 2 then 0 else c.limit.value - 1;
    PrintedPrimes(c, s);
    PrimesUpToIs(n);
    forall j: nat | j < m ensures Work(s, j) <= 2 * b + 3 {
      PipeIsLevel(c, s, j);
      LevelShrinks(j, n);
    }
    WorkBound(s, m, 2 * b + 3);
    ProductMonotone(m, b + 1, 2 * b + 3);
  }

  lemma ProductMonotone(x: nat, y: nat, z: nat)
    requires x <= y
    ensures x * z <= y * z
  {
  }

  lemma {:induction false} RunProgress(c: Config, s: State, ts: seq<Step>)
    requires Inv(c, s) && CanRun(c, s, ts)
    ensures Progress(Run(c, s, ts)) >= Progress(s) + |ts|
    decreases |ts|
  {
    hide Next, Enabled, Progress;
    if ts != [] {
      StepInv(c, s, ts[0]);
      StepProgress(c, s, ts[0]);
      RunProgress(c, Next(c, s, ts[0]), ts[1..]);
    }
  }

  // No run of the bounded sieve is longer than a bound in n, and a run that cannot be extended
  // has ended with exactly the primes up to n printed.
  lemma {:induction false} SieveTerminates(n: int, cap: nat, ts: seq<Step>)
    requires cap >= 1
    requires var c := Config(Some(n), false, cap); CanRun(c, Init(), ts)
    ensures |ts| <= RunBound(n)
    ensures var c := Config(Some(n), false, cap); var s := Run(c, Init(), ts);
      (forall t :: !Enabled(c, s, t)) ==> s.gen.GenDone? && s.printed == PrimesUpTo(n)
  {
    hide Inv, Fed, PrimesUpTo, Enabled, RunBound;
    var c := Config(Some(n), false, cap);
    var s := Run(c, Init(), ts);
    InitInv(c);
    RunInv(c, Init(), ts);
    RunProgress(c, Init(), ts);
    ProgressBound(c, s);
    if s.gen.GenDone? {
      FinalOutput(c, s);
    } else {
      var t := NoDeadlock(c, s);
    }
  }

  // The endless sieve over IPC never stops, and prints the primes in order, without a gap.
  lemma {:induction false} EndlessSieve(ts: seq<Step>) returns (t: Step)
    requires var c := Config(None, true, 0); CanRun(c, Init(), ts)
    ensures var c := Config(None, true, 0); var s := Run(c, Init(), ts);
      s.printed <= PrimesUpTo(Fed(c, s)) && Enabled(c, s, t)
  {
    hide Inv, Fed, PrimesUpTo, Enabled;
    var c := Config(None, true, 0);
    var s := Run(c, Init(), ts);
    InitInv(c);
    RunInv(c, Init(), ts);
    PrintedPrimes(c, s);
    if s.gen.GenDone? {
      FinalOutput(c, s);
    }
    t := NoDeadlock(c, s);
  }

  // Over IPC, every pipe is such a channel.
  lemma {:induction false} PipesAreChannels(c: Config, s: State, t: Step, k: nat)
    requires c.rendezvous && Shape(s) && Enabled(c, s, t) && k < |s.stages|
    ensures var s' := Next(c, s, t);
      && Shape(s') && k < |s'.stages| && Channel.Step(ChanOf(s, k), Receiving(s.stages[k]), ChanOf(s', k))
  {
  }
}
