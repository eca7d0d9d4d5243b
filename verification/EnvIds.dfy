/** Environment ids: a slot number and a generation in one 32-bit signed word (sched/kern/env.c). */
module EnvIds {
  import opened Bits

  const NENV := 1024
  // 1 << ENVGENSHIFT
  const GENERATION := 4096
  const WORD := 0x1_0000_0000
  // Ids of one slot repeat after this many allocations.
  const PERIOD := 0x7_ffff

  function Unsigned(x: int): nat { x % WORD }

  function Signed(w: nat): int { if w < WORD / 2 then w else w - WORD }

  // env_alloc: the id that follows id in its slot.
  function NextId(id: int, slot: nat): int {
    var generation := Signed(BitAnd(Unsigned(id + GENERATION), WORD - NENV));
    var g: nat := if generation <= 0 then GENERATION else generation;
    BitOr(g, slot)
  }

  // ENVX
  function Slot(id: int): nat { BitAnd(Unsigned(id), NENV - 1) }

  // The id of a slot after its k-th allocation; env_init sets it to 0.
  function IdAfter(slot: nat, k: nat): int {
    if k == 0 then 0 else NextId(IdAfter(slot, k - 1), slot)
  }

  // ---------- what the bit operations compute ----------

  lemma {:induction false} ClearLow(x: nat, k: nat, n: nat)
    requires k <= n && x < Pow2(n)
    ensures Pow2(k) <= Pow2(n) && BitAnd(x, Pow2(n) - Pow2(k)) == x - x % Pow2(k)
    decreases k
  {
    hide BitAnd;
    if k == 0 {
      AndMask(0, x, n);
      assert 0 * Pow2(n) + x == x;
    } else {
      ClearLow(x / 2, k - 1, n - 1);
      AndEven(x, Pow2(n - 1) - Pow2(k - 1));
      HalfRemainder(x, Pow2(k - 1));
    }
  }

  lemma AndEven(x: nat, m: nat)
    ensures BitAnd(x, 2 * m) == 2 * BitAnd(x / 2, m)
  {
    assert (2 * m) / 2 == m && (2 * m) % 2 == 0;
  }

  lemma HalfRemainder(x: nat, h: nat)
    requires h > 0
    ensures x % (2 * h) == 2 * (x / 2 % h) + x % 2
  {
    var y := x / 2;
    var q, r := y / h, y % h;
    assert y == q * h + r;
    assert x == 2 * (q * h) + 2 * r + x % 2;
    assert 2 * (q * h) == q * (2 * h);
    RemainderIs(x, 2 * h, q, 2 * r + x % 2);
  }

  lemma RemainderIs(x: nat, d: nat, q: nat, r: nat)
    requires d > 0 && x == q * d + r && r < d
    ensures x % d == r
  {
    var e := x / d - q;
    assert e * d == r - x % d;
    MulBound(e, d);
  }

  lemma MulBound(e: int, d: int)
    requires d >= 0
    ensures e >= 1 ==> e * d >= d
    ensures e <= -1 ==> e * d <= -d
  {
  }

  // The id as generation and slot: the generation goes up by one and restarts at 1 when it
  // would turn the sign bit on.
  lemma {:induction false} NextIdIs(g: nat, slot: nat)
    requires slot < NENV && g <= PERIOD
    ensures var id := g * GENERATION + (if g == 0 then 0 else slot);
      NextId(id, slot) == (if g == PERIOD then 1 else g + 1) * GENERATION + slot
  {
    hide BitAnd, BitOr;
    Powers();
    assert Pow2(32) == Pow2(22) * 0x400 by { Pow2Sum(22, 10); }
    var s := if g == 0 then 0 else slot;
    var w := (g + 1) * GENERATION + s;
    ClearLow(w, 10, 32);
    assert w % 0x400 == s;
    var h := if g == PERIOD then 1 else g + 1;
    OrDisjoint(4 * h, slot, 10);
    assert 4 * h * 0x400 == h * GENERATION;
  }

  lemma {:induction false} Pow2Sum(a: nat, b: nat)
    ensures Pow2(a + b) == Pow2(a) * Pow2(b)
    decreases a
  {
    if a > 0 {
      Pow2Sum(a - 1, b);
    }
  }

  // ---------- ids over all allocations of a slot ----------

  function Cycle(k: nat): nat
    requires k >= 1
  {
    (k - 1) % PERIOD + 1
  }

  lemma CycleStep(k: nat)
    requires k >= 1
    ensures Cycle(k + 1) == if Cycle(k) == PERIOD then 1 else Cycle(k) + 1
  {
  }

  lemma {:induction false} IdIs(slot: nat, k: nat)
    requires slot < NENV && k >= 1
    ensures IdAfter(slot, k) == Cycle(k) * GENERATION + slot
  {
    hide NextId;
    if k == 1 {
      NextIdIs(0, slot);
      assert IdAfter(slot, 1) == NextId(0, slot);
    } else {
      IdIs(slot, k - 1);
      CycleStep(k - 1);
      NextIdIs(Cycle(k - 1), slot);
    }
  }

  // Every id is a positive 32-bit number whose low ten bits are its slot.
  lemma {:induction false} IdWellFormed(slot: nat, k: nat)
    requires slot < NENV && k >= 1
    ensures 0 < IdAfter(slot, k) < WORD / 2 && Slot(IdAfter(slot, k)) == slot
  {
    hide IdAfter, BitAnd, Pow2;
    IdIs(slot, k);
    Powers();
    var c := Cycle(k);
    AndMask(4 * c, slot, 10);
    assert 4 * c * 0x400 + slot == c * GENERATION + slot == IdAfter(slot, k);
    assert Unsigned(IdAfter(slot, k)) == IdAfter(slot, k);
  }

  // Two ids are the same only for the same slot and a whole number of periods apart.
  lemma {:induction false} IdsRepeat(slot: nat, k: nat, slot': nat, k': nat)
    requires slot < NENV && slot' < NENV && k >= 1 && k' >= 1
    ensures IdAfter(slot, k) == IdAfter(slot', k') <==> slot == slot' && (k - k') % PERIOD == 0
  {
    hide IdAfter;
    IdIs(slot, k);
    IdIs(slot', k');
    SameRemainder(k - 1, k' - 1);
  }

  lemma SameRemainder(a: int, b: int)
    ensures a % PERIOD == b % PERIOD <==> (a - b) % PERIOD == 0
  {
    assert a == (a / PERIOD) * PERIOD + a % PERIOD && b == (b / PERIOD) * PERIOD + b % PERIOD;
  }

  lemma Slot32(envid: int)
    ensures Slot(envid) < NENV
  {
    Powers();
    var w := Unsigned(envid);
    AndMask(w / 0x400, w % 0x400, 10);
    assert w / 0x400 * 0x400 + w % 0x400 == w;
  }
}
