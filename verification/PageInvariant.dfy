/**
  The invariant of physical page management (sched/kern/pmap.c), stated on values, and the
  lemmas that say each elementary change keeps it.
*/
module PageInvariant {
  import opened Mmu
  import opened PageSites

  // struct PageInfo: pp_ref is 16 bits wide, pp_link is a page number or NULL.
  datatype PageInfo = PageInfo(ref: nat, link: int)

  const REF_MOD := 0x1_0000

  // 16-bit increment and decrement.
  function Succ16(c: nat): nat { (c + 1) % REF_MOD }

  function Pred16(c: nat): nat { (c + REF_MOD - 1) % REF_MOD }

  lemma Counting(c: nat)
    requires c < REF_MOD
    ensures Pred16(Succ16(c)) == c && Succ16(c) < REF_MOD && Succ16(c) == if c + 1 < REF_MOD then c + 1 else 0
  {
    if c + 1 < REF_MOD {
      assert (c + 1) % REF_MOD == c + 1;
      assert c + 1 + REF_MOD - 1 == c + 1 * REF_MOD;
    }
  }

  // The list element after position k.
  function After(free: seq<int>, k: nat): int {
    if k + 1 < |free| then free[k + 1] else NULL
  }

  // page_free_list, followed through pp_link, is exactly `free`: null-terminated, without
  // repetition; a page that is not on it has a null link; a free page has count 0.
  ghost predicate ListOk(ps: seq<PageInfo>, head: int, free: seq<int>) {
    && head == (if free == [] then NULL else free[0])
    && (forall k | 0 <= k < |free| :: 0 <= free[k] < |ps|)
    && (forall k, l | 0 <= k < l < |free| :: free[k] != free[l])
    && (forall k | 0 <= k < |free| :: ps[free[k]] == PageInfo(0, After(free, k)))
    && (forall p | 0 <= p < |ps| && p !in free :: ps[p].link == NULL)
  }

  // The slots of kern_pgdir above UTOP that hold page tables; UVPT is the self map.
  predicate IsKernSlot(i: int) { UPDES <= i < NENTRIES && i != PDX(UVPT) }

  // The entries of kern_pgdir that name page p as a kernel page table.
  function KernUses(kern: seq<Word>, p: int): (r: set<int>)
    ensures forall i :: i in r <==> IsKernSlot(i) && i < |kern| && kern[i] != 0 && PGNUM(kern[i]) == p
  {
    set i | UPDES <= i < |kern| && IsKernSlot(i) && kern[i] != 0 && PGNUM(kern[i]) == p
  }

  // A page table that boot_map_region has made.
  predicate IsKernTable(kern: seq<Word>, p: int) { KernUses(kern, p) != {} }

  // kern_pgdir is empty below UTOP; above, it names existing pages that are kept from everybody
  // else, each page table once.
  ghost predicate KernOk(kern: seq<Word>, npages: nat, reserved: set<int>) {
    && |kern| == NENTRIES && (forall i | 0 <= i < UPDES :: kern[i] == 0)
    && (forall i | UPDES <= i < NENTRIES && kern[i] != 0 :: PGNUM(kern[i]) < npages && PGNUM(kern[i]) in reserved)
    && (forall i | UPDES <= i < NENTRIES && kern[i] != 0 :: kern[i] % 2 == 1)
    && (forall i | IsKernSlot(i) && kern[i] != 0 :: kern[i] % 8 == PTE_P + PTE_W + PTE_U)
    && (forall i, j | IsKernSlot(i) && IsKernSlot(j) && kern[i] != 0 && kern[j] != 0 ::
      PGNUM(kern[i]) == PGNUM(kern[j]) ==> i == j)
  }

  // Every count is the number of references: those of user address spaces, the entries of
  // kern_pgdir, and one for the page `pend` whose reference page_insert has announced but not
  // yet stored.
  ghost predicate CountsOk(ps: seq<PageInfo>, m: PhysMem, dirs: seq<int>, kern: seq<Word>, pend: int) {
    forall p | 0 <= p < |ps| :: ps[p].ref == |Holders(m, dirs, p)| + |KernUses(kern, p)| + (if p == pend then 1 else 0)
  }

  // A directory's entries above UTOP are those of kern_pgdir, except the self map at UVPT.
  function KernWord(kern: seq<Word>, d: int, i: nat): Word
    requires |kern| == NENTRIES && i < NENTRIES && d >= 0
  {
    if i == PDX(UVPT) then EntryWord(d, PTE_U) else kern[i]
  }

  ghost predicate KernelHalfOk(m: PhysMem, dirs: seq<int>, kern: seq<Word>)
    requires |kern| == NENTRIES
  {
    forall e: nat, i: nat | e < NENV && DirOf(dirs, e) >= 0 && UPDES <= i < NENTRIES ::
      WordAt(m, DirOf(dirs, e), i) == KernWord(kern, DirOf(dirs, e), i)
  }

  // reserved are the pages that user address spaces never get: those page_init keeps back, and
  // the kernel's page tables.
  ghost predicate Inv(ps: seq<PageInfo>, head: int, free: seq<int>, m: PhysMem, dirs: seq<int>,
                      reserved: set<int>, kern: seq<Word>, pend: int) {
    && |ps| == |m| && KernOk(kern, |m|, reserved)
    && ListOk(ps, head, free)
    && WellFormed(m, dirs, reserved)
    && CountsOk(ps, m, dirs, kern, pend)
    && (forall p | p in free :: p !in reserved)
    && (pend != NULL ==> MayBeMapped(m, dirs, reserved, pend) && pend !in free)
    && (forall p | 0 <= p < |ps| :: ps[p].ref < REF_MOD + (if p == pend then 1 else 0))
    && KernelHalfOk(m, dirs, kern)
  }

  // The announced reference may be one too many for 16 bits.  The count of pend, which is positive
  // in truth, then reads 0; this is the page array with the true count.
  function Unwrapped(ps: seq<PageInfo>, pend: int): seq<PageInfo> {
    if 0 <= pend < |ps| && ps[pend].ref == 0 then ps[pend := PageInfo(REF_MOD, ps[pend].link)] else ps
  }

  // Pages in nobody's hands: allocated, but not referenced.  An operation leaks exactly
  // when it leaves this set larger.
  ghost function Held(ps: seq<PageInfo>, free: seq<int>, reserved: set<int>): set<int> {
    set p | 0 <= p < |ps| && p !in free && p !in reserved && ps[p].ref == 0
  }

  // ---------- consequences ----------

  lemma InvParts(ps: seq<PageInfo>, head: int, free: seq<int>, m: PhysMem, dirs: seq<int>,
                 reserved: set<int>, kern: seq<Word>, pend: int)
    requires Inv(ps, head, free, m, dirs, reserved, kern, pend)
    ensures |ps| == |m| && |kern| == NENTRIES && |dirs| == NENV && forall i | 0 <= i < UPDES :: kern[i] == 0
    ensures ListOk(ps, head, free) && WellFormed(m, dirs, reserved) && Shape(m, dirs)
    ensures CountsOk(ps, m, dirs, kern, pend)
    ensures KernelHalfOk(m, dirs, kern) && KernOk(kern, |m|, reserved)
  {
  }

  lemma {:induction false} OnList(ps: seq<PageInfo>, head: int, free: seq<int>, p: int)
    requires ListOk(ps, head, free) && p in free
    ensures 0 <= p < |ps| && ps[p].ref == 0
  {
    var k :| 0 <= k < |free| && free[k] == p;
    assert ps[free[k]] == PageInfo(0, After(free, k));
  }

  // A kernel page table has exactly one reference, the entry of kern_pgdir.
  lemma {:induction false} KernTableOnce(ps: seq<PageInfo>, head: int, free: seq<int>, m: PhysMem, dirs: seq<int>,
                     reserved: set<int>, kern: seq<Word>, pend: int, p: int)
    requires Inv(ps, head, free, m, dirs, reserved, kern, pend) && IsKernTable(kern, p)
    ensures 0 <= p < |ps| && p in reserved && p !in free && ps[p].ref == 1
    ensures |KernUses(kern, p)| == 1 && Holders(m, dirs, p) == {} && p != pend
  {
    var i :| i in KernUses(kern, p);
    assert KernUses(kern, p) == {i};
    NoUserUse(m, dirs, reserved, p);
  }

  lemma NoUserUse(m: PhysMem, dirs: seq<int>, reserved: set<int>, p: int)
    requires WellFormed(m, dirs, reserved) && p in reserved && p != NULL
    ensures Holders(m, dirs, p) == {}
  {
  }

  // Free, kept back, kernel-table, held and referenced pages partition physical memory, and a
  // count is positive exactly when some entry or env_pgdir refers to the page.
  lemma {:induction false} Partition(ps: seq<PageInfo>, head: int, free: seq<int>, m: PhysMem, dirs: seq<int>,
                  reserved: set<int>, kern: seq<Word>, p: int)
    requires Inv(ps, head, free, m, dirs, reserved, kern, NULL) && 0 <= p < |ps|
    ensures ps[p].ref > 0 <==> (exists s :: IsSite(s) && Target(m, dirs, s) == p) || IsKernTable(kern, p)
    ensures p in free ==> ps[p].ref == 0 && p !in reserved && p !in Held(ps, free, reserved)
    ensures p in reserved && !IsKernTable(kern, p) ==> ps[p].ref == 0 && p !in Held(ps, free, reserved)
    ensures IsKernTable(kern, p) ==>
              ps[p].ref == 1 && p in reserved && p !in free && p !in Held(ps, free, reserved)
              && forall s | IsSite(s) :: Target(m, dirs, s) != p
    ensures p in free || p in reserved || p in Held(ps, free, reserved) || ps[p].ref > 0
  {
    hide KernOk, KernelHalfOk;
    var h := Holders(m, dirs, p);
    assert ps[p].ref == |h| + |KernUses(kern, p)|;
    if p in free {
      OnList(ps, head, free, p);
    }
    if p in reserved {
      NoUserUse(m, dirs, reserved, p);
    }
    if IsKernTable(kern, p) {
      KernTableOnce(ps, head, free, m, dirs, reserved, kern, NULL, p);
      assert forall s | IsSite(s) && Target(m, dirs, s) == p :: s in h;
    }
    if |h| > 0 {
      var s :| s in h;
      assert IsSite(s) && Target(m, dirs, s) == p;
    }
    if s :| IsSite(s) && Target(m, dirs, s) == p {
      assert s in h;
      CardinalityMono({s}, h);
    }
  }

  // No page of the page-table structure is mapped in any address space, and none is free.
  lemma {:induction false} StructureIsPrivate(ps: seq<PageInfo>, head: int, free: seq<int>, m: PhysMem, dirs: seq<int>,
                           reserved: set<int>, kern: seq<Word>, s: Site, e: nat, v: nat)
    requires Inv(ps, head, free, m, dirs, reserved, kern, NULL)
    requires IsSite(s) && IsStructure(s) && Target(m, dirs, s) != NULL
    requires e < NENV && v in UserMap(m, dirs, e)
    ensures UserMap(m, dirs, e)[v].page != Target(m, dirs, s)
    ensures ps[Target(m, dirs, s)].ref == 1 && Target(m, dirs, s) !in free
    ensures UserMap(m, dirs, e)[v].page !in free && UserMap(m, dirs, e)[v].page !in reserved
    ensures !IsKernTable(kern, UserMap(m, dirs, e)[v].page) && !IsKernTable(kern, Target(m, dirs, s))
    ensures UserMap(m, dirs, e)[v].perm % 2 == 1
  {
    hide KernOk, KernelHalfOk;
    SplitVpn(v, 0, 0);
    var u := PageUse(e, v / 1024, v % 1024);
    assert IsSite(u) && Target(m, dirs, u) != NULL;
    HeldOnce(m, dirs, reserved, s);
    var w := VpnWord(m, dirs, e, v);
    assert w != 0 && w % 2 == 1 && w % 4096 % 2 == 1;
    NotFree(ps, head, free, m, dirs, reserved, kern, NULL, u);
    NotFree(ps, head, free, m, dirs, reserved, kern, NULL, s);
    KernTablesReserved(kern, |m|, reserved);
  }

  lemma KernTablesReserved(kern: seq<Word>, npages: nat, reserved: set<int>)
    requires KernOk(kern, npages, reserved)
    ensures forall p | IsKernTable(kern, p) :: p in reserved
  {
    forall p | IsKernTable(kern, p) ensures p in reserved {
      var i :| i in KernUses(kern, p);
    }
  }

  lemma {:induction false} NotFree(ps: seq<PageInfo>, head: int, free: seq<int>, m: PhysMem, dirs: seq<int>,
                reserved: set<int>, kern: seq<Word>, pend: int, s: Site)
    requires Inv(ps, head, free, m, dirs, reserved, kern, pend)
    requires IsSite(s) && Target(m, dirs, s) != NULL
    ensures 0 <= Target(m, dirs, s) < |ps|
    ensures Target(m, dirs, s) !in free
    ensures 1 <= ps[Target(m, dirs, s)].ref
    ensures IsStructure(s) ==> Target(m, dirs, s) != pend && ps[Target(m, dirs, s)].ref == 1
  {
    var q := Target(m, dirs, s);
    assert s in Holders(m, dirs, q);
    assert 1 <= |Holders(m, dirs, q)| by {
      assert {s} <= Holders(m, dirs, q);
      CardinalityMono({s}, Holders(m, dirs, q));
    }
    if q in free {
      OnList(ps, head, free, q);
    }
    if IsStructure(s) {
      HeldOnce(m, dirs, reserved, s);
      KernTablesReserved(kern, |m|, reserved);
      assert KernUses(kern, q) == {};
    }
  }

  lemma CardinalityMono<T>(a: set<T>, b: set<T>)
    requires a <= b
    ensures |a| <= |b|
  {
    assert b == a + (b - a);
  }

  lemma {:induction false} FreeUnreferenced(ps: seq<PageInfo>, head: int, free: seq<int>, m: PhysMem, dirs: seq<int>,
                         reserved: set<int>, kern: seq<Word>, pend: int)
    requires Inv(ps, head, free, m, dirs, reserved, kern, pend) && free != []
    ensures Holders(m, dirs, free[0]) == {}
    ensures 0 <= free[0] < |ps| && free[0] !in reserved && free[0] != pend && ps[free[0]].ref == 0
    ensures MayBeMapped(m, dirs, reserved, free[0])
  {
    var p := free[0];
    OnList(ps, head, free, p);
    assert |Holders(m, dirs, p)| == 0;
    forall s | IsSite(s) ensures Target(m, dirs, s) != p {
      assert s !in Holders(m, dirs, p);
    }
  }

  // ---------- list steps ----------

  // page_alloc: unlink the head.
  lemma {:induction false} PopKeepsList(ps: seq<PageInfo>, head: int, free: seq<int>)
    requires ListOk(ps, head, free) && free != []
    ensures 0 <= head < |ps| && head == free[0] && ps[head] == PageInfo(0, After(free, 0))
    ensures ListOk(ps[head := PageInfo(0, NULL)], ps[head].link, free[1..])
  {
    assert ps[free[0]] == PageInfo(0, After(free, 0));
    var ps', free' := ps[head := PageInfo(0, NULL)], free[1..];
    forall k | 0 <= k < |free'|
      ensures 0 <= free'[k] < |ps'| && free'[k] != head && ps'[free'[k]] == PageInfo(0, After(free', k))
      ensures forall l | k < l < |free'| :: free'[k] != free'[l]
    {
      assert free'[k] == free[k + 1] && After(free', k) == After(free, k + 1);
      assert free[0] != free[k + 1];
      assert ps[free[k + 1]] == PageInfo(0, After(free, k + 1));
    }
    forall p | 0 <= p < |ps'| && p !in free' ensures ps'[p].link == NULL {
      if p != head {
        TailOf(free, p);
      }
    }
  }

  // page_free: link in front.
  lemma {:induction false} PushLinks(ps: seq<PageInfo>, head: int, free: seq<int>, p: int, k: nat)
    requires ListOk(ps, head, free) && 0 <= p < |ps| && p !in free && k <= |free|
    ensures var free' := [p] + free;
      0 <= free'[k] < |ps| && ps[p := PageInfo(0, head)][free'[k]] == PageInfo(0, After(free', k))
  {
    if k > 0 {
      assert ([p] + free)[k] == free[k - 1] && After([p] + free, k) == After(free, k - 1);
      assert free[k - 1] in free;
    }
  }

  lemma PushDistinct(free: seq<int>, p: int)
    requires p !in free && forall k, l | 0 <= k < l < |free| :: free[k] != free[l]
    ensures var free' := [p] + free; forall k, l | 0 <= k < l < |free'| :: free'[k] != free'[l]
  {
  }

  lemma {:induction false} PushKeepsList(ps: seq<PageInfo>, head: int, free: seq<int>, p: int)
    requires ListOk(ps, head, free) && 0 <= p < |ps| && p !in free
    ensures ListOk(ps[p := PageInfo(0, head)], p, [p] + free)
  {
    PushDistinct(free, p);
    var ps', free' := ps[p := PageInfo(0, head)], [p] + free;
    forall k | 0 <= k < |free'| ensures 0 <= free'[k] < |ps'| && ps'[free'[k]] == PageInfo(0, After(free', k)) {
      PushLinks(ps, head, free, p, k);
    }
    forall q | 0 <= q < |ps'| && q !in free' ensures ps'[q].link == NULL {
      assert q != p && q !in free;
    }
  }

  // Changing the count of a page that is not on the list.
  lemma RecountKeepsList(ps: seq<PageInfo>, head: int, free: seq<int>, p: int, r: nat)
    requires ListOk(ps, head, free) && 0 <= p < |ps| && p !in free
    ensures ListOk(ps[p := PageInfo(r, NULL)], head, free) && ps[p].link == NULL
  {
  }

  // The page array after page_decref(q).
  function DecrefPages(ps: seq<PageInfo>, head: int, q: int): seq<PageInfo>
    requires 0 <= q < |ps|
  {
    ps[q := if ps[q].ref == 1 then PageInfo(0, head) else PageInfo(Pred16(ps[q].ref), ps[q].link)]
  }

  function DecrefFree(ps: seq<PageInfo>, free: seq<int>, q: int): seq<int>
    requires 0 <= q < |ps|
  {
    if ps[q].ref == 1 then [q] + free else free
  }

  lemma {:induction false} DecrefKeepsList(ps: seq<PageInfo>, head: int, free: seq<int>, q: int)
    requires ListOk(ps, head, free) && 0 <= q < |ps| && 1 <= ps[q].ref <= REF_MOD && q !in free
    ensures ListOk(DecrefPages(ps, head, q), if ps[q].ref == 1 then q else head, DecrefFree(ps, free, q))
  {
    if ps[q].ref == 1 {
      PushKeepsList(ps, head, free, q);
    } else {
      RecountKeepsList(ps, head, free, q, ps[q].ref - 1);
    }
  }

  // ---------- steps of the whole invariant ----------

  // Writing below UTOP in a directory, or anywhere in a page that is no directory, keeps the kernel half.
  lemma WriteKeepsKernelHalf(m: PhysMem, dirs: seq<int>, kern: seq<Word>, t: int, m': PhysMem)
    requires Shape(m, dirs) && |kern| == NENTRIES && KernelHalfOk(m, dirs, kern)
    requires |m'| == |m| && forall p | 0 <= p < |m| && p != t :: m'[p] == m[p]
    requires forall e: nat, i: nat | e < NENV && DirOf(dirs, e) == t && UPDES <= i < NENTRIES ::
      WordAt(m', t, i) == WordAt(m, t, i)
    ensures KernelHalfOk(m', dirs, kern)
  {
  }

  lemma {:induction false} DropCounts(ps: seq<PageInfo>, head: int, m: PhysMem, dirs: seq<int>, kern: seq<Word>,
      pend: int, s: Site, m': PhysMem, dirs': seq<int>)
    requires CountsOk(ps, m, dirs, kern, pend)
    requires IsSite(s) && 0 <= Target(m, dirs, s) < |ps| && ps[Target(m, dirs, s)].ref <= REF_MOD
    requires SameOutside(m, dirs, m', dirs', s) && Target(m', dirs', s) == NULL
    ensures ps[Target(m, dirs, s)].ref >= (if Target(m, dirs, s) == pend then 2 else 1)
    ensures CountsOk(DecrefPages(ps, head, Target(m, dirs, s)), m', dirs', kern, pend)
  {
    var q := Target(m, dirs, s);
    assert s in Holders(m, dirs, q);
    CardinalityMono({s}, Holders(m, dirs, q));
    var ps' := DecrefPages(ps, head, q);
    forall p | 0 <= p < |ps'|
      ensures ps'[p].ref == |Holders(m', dirs', p)| + |KernUses(kern, p)| + (if p == pend then 1 else 0)
    {
      RetargetOneAt(m, dirs, m', dirs', s, p);
      assert ps[p].ref == |Holders(m, dirs, p)| + |KernUses(kern, p)| + (if p == pend then 1 else 0);
    }
  }

  lemma {:induction false} AddCounts(ps: seq<PageInfo>, m: PhysMem, dirs: seq<int>, kern: seq<Word>, pend: int,
      pend': int, s: Site, p: int, ps': seq<PageInfo>,
                  m': PhysMem, dirs': seq<int>)
    requires CountsOk(ps, m, dirs, kern, pend)
    requires IsSite(s) && Target(m, dirs, s) == NULL && 0 <= p < |ps|
    requires SameOutside(m, dirs, m', dirs', s) && Target(m', dirs', s) == p
    requires (pend' == NULL && pend == p && ps' == ps)
          || (pend' == pend != p && ps[p].ref == 0 && ps' == ps[p := PageInfo(1, NULL)])
    ensures CountsOk(ps', m', dirs', kern, pend')
  {
    forall x | 0 <= x < |ps'|
      ensures ps'[x].ref == |Holders(m', dirs', x)| + |KernUses(kern, x)| + (if x == pend' then 1 else 0)
    {
      RetargetOneAt(m, dirs, m', dirs', s, x);
      assert ps[x].ref == |Holders(m, dirs, x)| + |KernUses(kern, x)| + (if x == pend then 1 else 0);
    }
  }

  // pp_ref is 16 bits wide: storing one more reference keeps the count exact if and only if the
  // count was not already 65535 (then it wraps to 0 with 65536 references in place).
  lemma {:induction false} CountExactIff(ps: seq<PageInfo>, m: PhysMem, dirs: seq<int>, kern: seq<Word>, s: Site,
      p: int, m': PhysMem)
    requires CountsOk(ps, m, dirs, kern, NULL) && IsSite(s) && Target(m, dirs, s) == NULL && 0 <= p < |ps|
    requires SameOutside(m, dirs, m', dirs, s) && Target(m', dirs, s) == p && ps[p].ref < REF_MOD
    ensures var counted := PageInfo(Succ16(ps[p].ref), ps[p].link);
      CountsOk(ps[p := counted], m', dirs, kern, NULL) <==> ps[p].ref != 0xFFFF
    ensures |Holders(m', dirs, p)| + |KernUses(kern, p)| == ps[p].ref + 1
  {
    var ps' := ps[p := PageInfo(Succ16(ps[p].ref), ps[p].link)];
    RetargetOneAt(m, dirs, m', dirs, s, p);
    assert ps[p].ref == |Holders(m, dirs, p)| + |KernUses(kern, p)|;
    forall x | 0 <= x < |ps'| && x != p ensures ps'[x].ref == |Holders(m', dirs, x)| + |KernUses(kern, x)| {
      RetargetOneAt(m, dirs, m', dirs, s, x);
      assert ps[x].ref == |Holders(m, dirs, x)| + |KernUses(kern, x)|;
    }
    if ps[p].ref == 0xFFFF {
      assert ps'[p].ref != |Holders(m', dirs, p)| + |KernUses(kern, p)|;
    }
  }

  lemma {:induction false} SameHeld(ps: seq<PageInfo>, head: int, free: seq<int>, reserved: set<int>, q: int)
    requires 0 <= q < |ps| && 1 <= ps[q].ref <= REF_MOD
    ensures Held(DecrefPages(ps, head, q), DecrefFree(ps, free, q), reserved) == Held(ps, free, reserved)
  {
    var ps', free' := DecrefPages(ps, head, q), DecrefFree(ps, free, q);
    assert forall p :: p in free' <==> p in free || (ps[q].ref == 1 && p == q);
    assert forall p | 0 <= p < |ps| && p != q :: ps'[p] == ps[p];
  }

  // Dropping one reference: the site is cleared and its page goes through page_decref.
  lemma {:induction false} DropKeepsInv(ps: seq<PageInfo>, head: int, free: seq<int>, m: PhysMem, dirs: seq<int>,
                     reserved: set<int>, kern: seq<Word>, pend: int, s: Site, m': PhysMem, dirs': seq<int>)
    requires Inv(ps, head, free, m, dirs, reserved, kern, pend)
    requires IsSite(s) && Target(m, dirs, s) != NULL
    requires WellFormed(m', dirs', reserved) && |m'| == |m| && KernelHalfOk(m', dirs', kern)
    requires SameOutside(m, dirs, m', dirs', s) && Target(m', dirs', s) == NULL
    ensures var q := Target(m, dirs, s);
      && 0 <= q < |ps| && 1 <= ps[q].ref && q !in free && (IsStructure(s) ==> ps[q].ref == 1)
      && var ps', free' := DecrefPages(ps, head, q), DecrefFree(ps, free, q);
      && Inv(ps', if ps[q].ref == 1 then q else head, free', m', dirs', reserved, kern, pend)
      && Held(ps', free', reserved) == Held(ps, free, reserved)
  {
    NotFree(ps, head, free, m, dirs, reserved, kern, pend, s);
    var q := Target(m, dirs, s);
    var ps', free' := DecrefPages(ps, head, q), DecrefFree(ps, free, q);
    DecrefKeepsList(ps, head, free, q);
    DropCounts(ps, head, m, dirs, kern, pend, s, m', dirs');
    SameHeld(ps, head, free, reserved, q);
    if pend != NULL {
      forall s' | IsSite(s') && IsStructure(s') ensures Target(m', dirs', s') != pend {
        assert Target(m, dirs, s') != pend;
      }
    }
  }

  lemma HeldAfterRecount(ps: seq<PageInfo>, free: seq<int>, reserved: set<int>, p: int, r: nat, l: int)
    requires 0 <= p < |ps| && r > 0
    ensures Held(ps[p := PageInfo(r, l)], free, reserved) == Held(ps, free, reserved) - {p}
  {
  }

  // Adding the first reference to a page taken from nobody's hands.
  lemma {:induction false} AddKeepsInv(ps: seq<PageInfo>, head: int, free: seq<int>, m: PhysMem, dirs: seq<int>,
                    reserved: set<int>, kern: seq<Word>, pend: int, s: Site, p: int, m': PhysMem, dirs': seq<int>)
    requires Inv(ps, head, free, m, dirs, reserved, kern, pend)
    requires IsSite(s) && Target(m, dirs, s) == NULL
    requires WellFormed(m', dirs', reserved) && |m'| == |m| && KernelHalfOk(m', dirs', kern)
    requires SameOutside(m, dirs, m', dirs', s) && Target(m', dirs', s) == p
    requires 0 <= p < |ps| && p !in free && pend != p && ps[p].ref == 0
    ensures Inv(ps[p := PageInfo(1, NULL)], head, free, m', dirs', reserved, kern, pend)
    ensures Held(ps[p := PageInfo(1, NULL)], free, reserved) == Held(ps, free, reserved) - {p}
  {
    InvParts(ps, head, free, m, dirs, reserved, kern, pend);
    var ps' := ps[p := PageInfo(1, NULL)];
    AddCounts(ps, m, dirs, kern, pend, pend, s, p, ps', m', dirs');
    RecountKeepsList(ps, head, free, p, 1);
    HeldAfterRecount(ps, free, reserved, p, 1, NULL);
    if pend != NULL {
      StillMappable(m, dirs, reserved, m', dirs', s, pend);
    }
    hide WellFormed, CountsOk, KernelHalfOk, Holders, ListOk, Held, SameOutside, MayBeMapped, Target;
  }

  // Storing the announced reference: the count of p is already right.
  lemma {:induction false} StoreKeepsInv(ps: seq<PageInfo>, head: int, free: seq<int>, m: PhysMem, dirs: seq<int>,
                      reserved: set<int>, kern: seq<Word>, s: Site, p: int, m': PhysMem)
    requires Inv(ps, head, free, m, dirs, reserved, kern, p)
    requires IsSite(s) && Target(m, dirs, s) == NULL && 0 <= p < |ps| && ps[p].ref < REF_MOD
    requires WellFormed(m', dirs, reserved) && |m'| == |m| && KernelHalfOk(m', dirs, kern)
    requires SameOutside(m, dirs, m', dirs, s) && Target(m', dirs, s) == p
    ensures Inv(ps, head, free, m', dirs, reserved, kern, NULL)
    ensures p !in Held(ps, free, reserved)
  {
    AddCounts(ps, m, dirs, kern, p, NULL, s, p, ps, m', dirs);
    assert ps[p].ref >= 1;
  }

  // A page stays available for mapping when another page becomes a table or a directory.
  lemma StillMappable(m: PhysMem, dirs: seq<int>, reserved: set<int>, m': PhysMem, dirs': seq<int>, s: Site, pp: int)
    requires MayBeMapped(m, dirs, reserved, pp) && |m'| == |m|
    requires SameOutside(m, dirs, m', dirs', s) && Target(m', dirs', s) != pp
    ensures MayBeMapped(m', dirs', reserved, pp)
  {
  }

  // ---------- pgdir_walk allocating a table ----------

  lemma {:induction false} TailOf(free: seq<int>, q: int)
    requires free != []
    ensures q in free <==> q == free[0] || q in free[1..]
  {
    assert free == [free[0]] + free[1..];
  }

  // page_alloc(ALLOC_ZERO): the first free page passes to nobody's hands, cleared.
  lemma {:induction false} AllocKeepsInv(ps: seq<PageInfo>, head: int, free: seq<int>, m: PhysMem, dirs: seq<int>,
                      reserved: set<int>, kern: seq<Word>, pend: int, c: seq<Word>)
    requires Inv(ps, head, free, m, dirs, reserved, kern, pend) && free != [] && |c| == NENTRIES
    ensures 0 <= free[0] < |ps|
    ensures var p := free[0]; var ps1, m1 := ps[p := PageInfo(0, NULL)], m[p := c];
      && Inv(ps1, ps[p].link, free[1..], m1, dirs, reserved, kern, pend)
      && Held(ps1, free[1..], reserved) == Held(ps, free, reserved) + {p}
      && p !in Held(ps, free, reserved) && p !in free[1..] && p != pend && p !in reserved
      && SameEverywhere(m, dirs, m1, dirs)
      && SameMaps(m, dirs, m1, dirs)
      && Holders(m1, dirs, p) == {} && MayBeMapped(m1, dirs, reserved, p)
  {
    hide WellFormed, ListOk, KernelHalfOk, KernOk;
    InvParts(ps, head, free, m, dirs, reserved, kern, pend);
    FreeUnreferenced(ps, head, free, m, dirs, reserved, kern, pend);
    var p := free[0];
    var ps1, m1 := ps[p := PageInfo(0, NULL)], m[p := c];
    assert |m| == |ps| && Shape(m, dirs);
    WriteElsewhere(m, dirs, reserved, p, c);
    SameTargets(m, dirs, m1, dirs);
    PopKeepsList(ps, head, free);
    forall q ensures q in free <==> q == p || q in free[1..] {
      TailOf(free, q);
    }
    assert p !in free[1..];
    WriteKeepsKernelHalf(m, dirs, kern, p, m1) by {
      forall e: nat | e < NENV ensures DirOf(dirs, e) != p {
        assert IsSite(DirUse(e)) && Target(m, dirs, DirUse(e)) != p;
      }
    }
    assert CountsOk(ps1, m1, dirs, kern, pend) by {
      assert |Holders(m, dirs, p)| == 0;
    }
  }

  lemma {:induction false} AddTableKeepsInv(ps: seq<PageInfo>, head: int, free: seq<int>, m: PhysMem, dirs: seq<int>,
                         reserved: set<int>, kern: seq<Word>, pend: int, e: nat, i: nat, p: int)
    requires Inv(ps, head, free, m, dirs, reserved, kern, pend)
    requires e < NENV && i < UPDES && DirOf(dirs, e) != NULL && TableOf(m, dirs, e, i) == NULL
    requires 0 <= p < |ps| && p in Held(ps, free, reserved) && p != pend && Holders(m, dirs, p) == {}
    requires MayBeMapped(m, dirs, reserved, p) && forall j | 0 <= j < NENTRIES :: WordAt(m, p, j) == 0
    ensures 0 <= DirOf(dirs, e) < |m|
    ensures var ps' := ps[p := PageInfo(1, NULL)];
      var m' := SetWord(m, DirOf(dirs, e), i, EntryWord(p, PTE_P + PTE_W + PTE_U));
      && Inv(ps', head, free, m', dirs, reserved, kern, pend)
      && Held(ps', free, reserved) == Held(ps, free, reserved) - {p}
      && SameOutside(m, dirs, m', dirs, TableUse(e, i)) && TableOf(m', dirs, e, i) == p
      && SameMaps(m, dirs, m', dirs)
  {
    hide EntryWord, KernOk, Inv, WellFormed, CountsOk, ListOk, SameOutside, SameMaps, KernelHalfOk, MayBeMapped;
    InvParts(ps, head, free, m, dirs, reserved, kern, pend);
    MappableIs(m, dirs, reserved, p);
    var w := EntryWord(p, PTE_P + PTE_W + PTE_U);
    EntryWordParts(p, PTE_P + PTE_W + PTE_U);
    TableFlags(p);
    EntryWordIs(p, PTE_P + PTE_W + PTE_U);
    NoTableNoPtes(m, dirs, e, i);
    StepPde(m, dirs, reserved, e, i, w);
    var m' := SetWord(m, DirOf(dirs, e), i, w);
    WriteKeepsKernelHalf(m, dirs, kern, DirOf(dirs, e), m');
    AddKeepsInv(ps, head, free, m, dirs, reserved, kern, pend, TableUse(e, i), p, m', dirs);
  }

  lemma MappableIs(m: PhysMem, dirs: seq<int>, reserved: set<int>, p: int)
    requires MayBeMapped(m, dirs, reserved, p)
    ensures 0 <= p < |m| && p !in reserved
  {
  }

  lemma NoTableNoPtes(m: PhysMem, dirs: seq<int>, e: nat, i: nat)
    requires TableOf(m, dirs, e, i) == NULL
    ensures forall j: nat :: PteWord(m, dirs, e, i, j) == 0
  {
  }

  // Both together: what pgdir_walk does when it creates the table.
  lemma {:induction false} CreateTableKeepsInv(ps: seq<PageInfo>, head: int, free: seq<int>, m: PhysMem, dirs: seq<int>,
                            reserved: set<int>, kern: seq<Word>, pend: int, e: nat, i: nat, zeros: seq<Word>)
    requires Inv(ps, head, free, m, dirs, reserved, kern, pend) && free != []
    requires e < NENV && i < UPDES && DirOf(dirs, e) != NULL && TableOf(m, dirs, e, i) == NULL
    requires |zeros| == NENTRIES && forall j | 0 <= j < NENTRIES :: zeros[j] == 0
    ensures 0 <= free[0] < |ps| && 0 <= DirOf(dirs, e) < |m|
    ensures var ps' := ps[free[0] := PageInfo(1, NULL)];
      var m' := SetWord(m[free[0] := zeros], DirOf(dirs, e), i, EntryWord(free[0], PTE_P + PTE_W + PTE_U));
      && Inv(ps', ps[free[0]].link, free[1..], m', dirs, reserved, kern, pend)
      && Held(ps', free[1..], reserved) == Held(ps, free, reserved)
      && SameOutside(m, dirs, m', dirs, TableUse(e, i)) && TableOf(m', dirs, e, i) == free[0]
      && SameMaps(m, dirs, m', dirs)
  {
    var p := free[0];
    AllocKeepsInv(ps, head, free, m, dirs, reserved, kern, pend, zeros);
    var ps1, m1 := ps[p := PageInfo(0, NULL)], m[p := zeros];
    assert Target(m1, dirs, TableUse(e, i)) == Target(m, dirs, TableUse(e, i));
    AddTableKeepsInv(ps1, ps[p].link, free[1..], m1, dirs, reserved, kern, pend, e, i, p);
    assert ps1[p := PageInfo(1, NULL)] == ps[p := PageInfo(1, NULL)];
  }

  // ---------- page_insert and page_remove ----------

  // pp_ref++ before the entry is stored.
  lemma {:induction false} AnnounceKeepsInv(ps: seq<PageInfo>, head: int, free: seq<int>, m: PhysMem, dirs: seq<int>,
                         reserved: set<int>, kern: seq<Word>, pp: int)
    requires Inv(ps, head, free, m, dirs, reserved, kern, NULL)
    requires MayBeMapped(m, dirs, reserved, pp) && pp !in free
    ensures Inv(ps[pp := PageInfo(ps[pp].ref + 1, NULL)], head, free, m, dirs, reserved, kern, pp)
    ensures Held(ps[pp := PageInfo(ps[pp].ref + 1, NULL)], free, reserved) == Held(ps, free, reserved) - {pp}
  {
    RecountKeepsList(ps, head, free, pp, ps[pp].ref + 1);
  }

  lemma {:induction false} RemoveKeepsInv(ps: seq<PageInfo>, head: int, free: seq<int>, m: PhysMem, dirs: seq<int>,
                       reserved: set<int>, kern: seq<Word>, pend: int, e: nat, i: nat, j: nat)
    requires Inv(ps, head, free, m, dirs, reserved, kern, pend)
    requires e < NENV && i < UPDES && j < NENTRIES && PteWord(m, dirs, e, i, j) != 0
    ensures 0 <= TableOf(m, dirs, e, i) < |m|
    ensures var q := PGNUM(PteWord(m, dirs, e, i, j));
      && q < |ps| && 1 <= ps[q].ref <= REF_MOD && q !in free
      && (q == pend ==> ps[q].ref >= 2) && (q != pend ==> ps[q].ref < REF_MOD)
      && var m' := SetWord(m, TableOf(m, dirs, e, i), j, 0);
      var ps', free' := DecrefPages(ps, head, q), DecrefFree(ps, free, q);
      && Inv(ps', if ps[q].ref == 1 then q else head, free', m', dirs, reserved, kern, pend)
      && Held(ps', free', reserved) == Held(ps, free, reserved)
      && SameOutside(m, dirs, m', dirs, PageUse(e, i, j))
      && PteWord(m', dirs, e, i, j) == 0
      && SameOtherMaps(m, dirs, m', dirs, e)
      && UserMap(m', dirs, e) == UserMap(m, dirs, e) - {i * 1024 + j}
  {
    StepPte(m, dirs, reserved, e, i, j, 0);
    TableIsNoDirectory(m, dirs, reserved, kern, e, i, j, 0);
    var m' := SetWord(m, TableOf(m, dirs, e, i), j, 0);
    DropKeepsInv(ps, head, free, m, dirs, reserved, kern, pend, PageUse(e, i, j), m', dirs);
  }

  lemma {:induction false} TableIsNoDirectory(m: PhysMem, dirs: seq<int>, reserved: set<int>, kern: seq<Word>, e: nat,
      i: nat, j: nat, w: Word)
    requires WellFormed(m, dirs, reserved) && |kern| == NENTRIES && KernelHalfOk(m, dirs, kern)
    requires e < NENV && i < UPDES && j < NENTRIES && TableOf(m, dirs, e, i) != NULL
    ensures 0 <= TableOf(m, dirs, e, i) < |m|
    ensures KernelHalfOk(SetWord(m, TableOf(m, dirs, e, i), j, w), dirs, kern)
  {
    var t := TableOf(m, dirs, e, i);
    assert IsSite(TableUse(e, i)) && Target(m, dirs, TableUse(e, i)) == t;
    forall e': nat | e' < NENV ensures DirOf(dirs, e') != t {
      assert IsSite(DirUse(e')) && Target(m, dirs, DirUse(e')) != t;
    }
    WriteKeepsKernelHalf(m, dirs, kern, t, SetWord(m, t, j, w));
  }

  lemma {:induction false} InsertKeepsInv(ps: seq<PageInfo>, head: int, free: seq<int>, m: PhysMem, dirs: seq<int>,
                       reserved: set<int>, kern: seq<Word>, pp: int, e: nat, i: nat, j: nat, perm: nat)
    requires Inv(ps, head, free, m, dirs, reserved, kern, pp) && pp >= 0 && Overlaid(pp, perm) == pp
    requires ps[pp].ref != REF_MOD
    requires e < NENV && i < UPDES && j < NENTRIES && TableOf(m, dirs, e, i) != NULL && PteWord(m, dirs, e, i, j) == 0
    ensures 0 <= TableOf(m, dirs, e, i) < |m|
    ensures var m' := SetWord(m, TableOf(m, dirs, e, i), j, EntryWord(pp, perm));
      && Inv(ps, head, free, m', dirs, reserved, kern, NULL)
      && Held(ps, free, reserved) == Held(ps, free, reserved) - {pp}
      && SameOutside(m, dirs, m', dirs, PageUse(e, i, j))
      && Target(m', dirs, PageUse(e, i, j)) == pp
      && SameOtherMaps(m, dirs, m', dirs, e)
      && UserMap(m', dirs, e) == UserMap(m, dirs, e)[i * 1024 + j := Mapping(pp, Present(perm % 4096))]
  {
    hide EntryWord, Overlaid;
    var w := EntryWord(pp, perm);
    EntryWordParts(pp, perm);
    StepPte(m, dirs, reserved, e, i, j, w);
    TableIsNoDirectory(m, dirs, reserved, kern, e, i, j, w);
    var m' := SetWord(m, TableOf(m, dirs, e, i), j, w);
    StoreKeepsInv(ps, head, free, m, dirs, reserved, kern, PageUse(e, i, j), pp, m');
  }

  // In any state like this, the count of pp is right afterwards if it names pp, and one too high
  // if perm has page bits that pp does not have, so that the entry names another page.
  lemma {:induction false} InsertCounts(ps: seq<PageInfo>, head: int, free: seq<int>, m: PhysMem, dirs: seq<int>,
                       reserved: set<int>, kern: seq<Word>, pp: int, e: nat, i: nat, j: nat, perm: nat)
    requires Inv(ps, head, free, m, dirs, reserved, kern, pp) && pp >= 0
    requires e < NENV && i < UPDES && j < NENTRIES && TableOf(m, dirs, e, i) != NULL && PteWord(m, dirs, e, i, j) == 0
    ensures 0 <= TableOf(m, dirs, e, i) < |m|
    ensures var m' := SetWord(m, TableOf(m, dirs, e, i), j, EntryWord(pp, perm));
      && ps[pp].ref == |Holders(m', dirs, pp)| + |KernUses(kern, pp)| + (if Overlaid(pp, perm) == pp then 0 else 1)
      && (Overlaid(pp, perm) != pp ==> !CountsOk(ps, m', dirs, kern, NULL))
      && SameOtherMaps(m, dirs, m', dirs, e)
      && UserMap(m', dirs, e) == UserMap(m, dirs, e)[i * 1024 + j := Mapping(Overlaid(pp, perm), Present(perm % 4096))]
  {
    hide EntryWord, Overlaid, KernOk, KernelHalfOk, ListOk;
    var w := EntryWord(pp, perm);
    EntryWordParts(pp, perm);
    WritePte(m, dirs, reserved, e, i, j, w);
    var m' := SetWord(m, TableOf(m, dirs, e, i), j, w);
    var s0 := PageUse(e, i, j);
    forall s | IsSite(s) && s != s0 ensures Target(m', dirs, s) == Target(m, dirs, s) {
      match s
      case DirUse(e') =>
      case TableUse(e', i') =>
      case PageUse(e', i', j') =>
    }
    RetargetOneAt(m, dirs, m', dirs, s0, pp);
    assert ps[pp].ref == |Holders(m, dirs, pp)| + |KernUses(kern, pp)| + 1;
    MapsFollowPte(m, dirs, m', e, i, j, w);
  }

  // ---------- environments: env_setup_vm and env_free ----------

  lemma {:induction false} NewDirKernelHalf(m: PhysMem, dirs: seq<int>, kern: seq<Word>, e: nat, p: int)
    requires |kern| == NENTRIES && |dirs| == NENV && KernelHalfOk(m, dirs, kern) && e < NENV && 0 <= p < |m|
    requires m[p] == kern[PDX(UVPT) := EntryWord(p, PTE_U)]
    ensures KernelHalfOk(m, dirs[e := p], kern)
  {
    var dirs' := dirs[e := p];
    forall e': nat, i: nat | e' < NENV && DirOf(dirs', e') >= 0 && UPDES <= i < NENTRIES
      ensures WordAt(m, DirOf(dirs', e'), i) == KernWord(kern, DirOf(dirs', e'), i)
    {
      if e' != e {
        assert DirOf(dirs', e') == DirOf(dirs, e');
      }
    }
  }

  // env_setup_vm: the first free page becomes the directory of e, a copy of kern_pgdir with the self map.
  function DirPage(kern: seq<Word>, p: nat): seq<Word>
    requires |kern| == NENTRIES
  {
    kern[PDX(UVPT) := EntryWord(p, PTE_U)]
  }

  lemma {:induction false} SetupTables(ps: seq<PageInfo>, head: int, free: seq<int>, m: PhysMem, dirs: seq<int>,
                    reserved: set<int>, kern: seq<Word>, e: nat, p: int, m1: PhysMem)
    requires Inv(ps, head, free, m, dirs, reserved, kern, NULL) && free != [] && p == free[0] && 0 <= p < |m|
    requires e < NENV && DirOf(dirs, e) == NULL && m1 == m[p := DirPage(kern, p)]
    ensures WellFormed(m1, dirs[e := p], reserved) && KernelHalfOk(m1, dirs[e := p], kern)
    ensures SameOutside(m, dirs, m1, dirs[e := p], DirUse(e)) && SameMaps(m, dirs, m1, dirs[e := p])
    ensures SameOutside(m1, dirs, m1, dirs[e := p], DirUse(e))
    ensures UserMap(m1, dirs[e := p], e) == map[]
  {
    hide Inv, WellFormed, KernelHalfOk, CountsOk, ListOk, Held, Holders, MayBeMapped, SameEverywhere, SameMaps,
      SameOutside, UserMap;
    InvParts(ps, head, free, m, dirs, reserved, kern, NULL);
    AllocKeepsInv(ps, head, free, m, dirs, reserved, kern, NULL, DirPage(kern, p));
    InvParts(ps[p := PageInfo(0, NULL)], ps[p].link, free[1..], m1, dirs, reserved, kern, NULL);
    forall i: nat | i < UPDES ensures PdeWord(m1, dirs, e, i) == 0 && m1[p][i] == 0 {
    }
    StepDir(m1, dirs, reserved, e, p);
    SetupTransfers(m, dirs, m1, dirs[e := p], e);
    NewDirKernelHalf(m1, dirs, kern, e, p);
  }

  lemma {:induction false} SetupKeepsInv(ps: seq<PageInfo>, head: int, free: seq<int>, m: PhysMem, dirs: seq<int>,
                      reserved: set<int>, kern: seq<Word>, e: nat, p: int, m1: PhysMem)
    requires Inv(ps, head, free, m, dirs, reserved, kern, NULL) && free != [] && p == free[0] && 0 <= p < |m|
    requires e < NENV && DirOf(dirs, e) == NULL && m1 == m[p := DirPage(kern, p)] && |ps| == |m|
    ensures Inv(ps[p := PageInfo(1, NULL)], ps[p].link, free[1..], m1, dirs[e := p], reserved, kern, NULL)
    ensures Held(ps[p := PageInfo(1, NULL)], free[1..], reserved) == Held(ps, free, reserved)
  {
    hide Inv, WellFormed, KernelHalfOk, CountsOk, ListOk, Holders, MayBeMapped, SameEverywhere, SameMaps,
      SameOutside, UserMap;
    InvParts(ps, head, free, m, dirs, reserved, kern, NULL);
    SetupTables(ps, head, free, m, dirs, reserved, kern, e, p, m1);
    AllocKeepsInv(ps, head, free, m, dirs, reserved, kern, NULL, DirPage(kern, p));
    var ps1 := ps[p := PageInfo(0, NULL)];
    AddKeepsInv(ps1, ps[p].link, free[1..], m1, dirs, reserved, kern, NULL, DirUse(e), p, m1, dirs[e := p]);
    assert ps[p := PageInfo(0, NULL)][p := PageInfo(1, NULL)] == ps[p := PageInfo(1, NULL)];
  }

  lemma {:induction false} SetupTransfers(m: PhysMem, dirs: seq<int>, m1: PhysMem, dirs': seq<int>, e: nat)
    requires SameEverywhere(m, dirs, m1, dirs)
    requires SameMaps(m, dirs, m1, dirs) && SameMaps(m1, dirs, m1, dirs') && SameOutside(m1, dirs, m1, dirs', DirUse(e))
    requires e < NENV && DirOf(dirs, e) == NULL
    ensures SameOutside(m, dirs, m1, dirs', DirUse(e)) && SameMaps(m, dirs, m1, dirs') && UserMap(m1, dirs', e) == map[]
  {
    assert UserMap(m, dirs, e) == map[];
  }

  // env_free: a page table without entries is unhooked and given back.
  lemma {:induction false} DropTableKeepsInv(ps: seq<PageInfo>, head: int, free: seq<int>, m: PhysMem, dirs: seq<int>,
                          reserved: set<int>, kern: seq<Word>, e: nat, i: nat)
    requires Inv(ps, head, free, m, dirs, reserved, kern, NULL)
    requires e < NENV && i < UPDES && DirOf(dirs, e) != NULL && TableOf(m, dirs, e, i) != NULL
    requires forall j: nat | j < NENTRIES :: PteWord(m, dirs, e, i, j) == 0
    ensures 0 <= DirOf(dirs, e) < |m|
    ensures var q := TableOf(m, dirs, e, i);
      && 0 <= q < |ps| && ps[q].ref == 1 && q !in free
      && var m' := SetWord(m, DirOf(dirs, e), i, 0);
      && Inv(DecrefPages(ps, head, q), q, DecrefFree(ps, free, q), m', dirs, reserved, kern, NULL)
      && Held(DecrefPages(ps, head, q), DecrefFree(ps, free, q), reserved) == Held(ps, free, reserved)
      && SameOutside(m, dirs, m', dirs, TableUse(e, i)) && TableOf(m', dirs, e, i) == NULL
      && SameMaps(m, dirs, m', dirs)
  {
    StepPde(m, dirs, reserved, e, i, 0);
    var m' := SetWord(m, DirOf(dirs, e), i, 0);
    WriteKeepsKernelHalf(m, dirs, kern, DirOf(dirs, e), m');
    DropKeepsInv(ps, head, free, m, dirs, reserved, kern, NULL, TableUse(e, i), m', dirs);
  }

  // env_free: a directory without user entries is given back.
  lemma {:induction false} DropDirKeepsInv(ps: seq<PageInfo>, head: int, free: seq<int>, m: PhysMem, dirs: seq<int>,
                        reserved: set<int>, kern: seq<Word>, e: nat)
    requires Inv(ps, head, free, m, dirs, reserved, kern, NULL)
    requires e < NENV && DirOf(dirs, e) != NULL
    requires forall i: nat | i < UPDES :: TableOf(m, dirs, e, i) == NULL
    ensures var q := DirOf(dirs, e); var dirs' := dirs[e := NULL];
      && 0 <= q < |ps| && ps[q].ref == 1 && q !in free
      && Inv(DecrefPages(ps, head, q), q, DecrefFree(ps, free, q), m, dirs', reserved, kern, NULL)
      && Held(DecrefPages(ps, head, q), DecrefFree(ps, free, q), reserved) == Held(ps, free, reserved)
      && SameOutside(m, dirs, m, dirs', DirUse(e))
      && SameMaps(m, dirs, m, dirs') && UserMap(m, dirs', e) == map[]
  {
    InvParts(ps, head, free, m, dirs, reserved, kern, NULL);
    hide Inv, WellFormed, ListOk, Holders, CountsOk;
    var dirs' := dirs[e := NULL];
    forall i: nat | i < UPDES ensures PdeWord(m, dirs, e, i) == 0 {
      assert TableOf(m, dirs, e, i) == NULL;
    }
    StepDir(m, dirs, reserved, e, NULL);
    assert KernelHalfOk(m, dirs', kern) by {
      assert forall e': nat | e' < NENV && DirOf(dirs', e') >= 0 :: DirOf(dirs', e') == DirOf(dirs, e');
    }
    hide SameOutside, SameMaps, KernelHalfOk;
    DropKeepsInv(ps, head, free, m, dirs, reserved, kern, NULL, DirUse(e), m, dirs');
    assert UserMap(m, dirs', e) == map[];
  }

  // Only references made by environment e differ.
  ghost predicate SameForOthers(m: PhysMem, dirs: seq<int>, m': PhysMem, dirs': seq<int>, e: nat) {
    forall s | IsSite(s) && s.e != e :: Target(m', dirs', s) == Target(m, dirs, s)
  }

  /**
    What env_free conserves.  Between two states of the invariant that differ only in the
    references of e, with e holding none afterwards and nothing leaked: each count fell by
    exactly the references e had to the page, and every page whose count fell to zero is on
    the free list.
  */
  lemma {:induction false} FreedExactly(ps: seq<PageInfo>, head: int, free: seq<int>, m: PhysMem, dirs: seq<int>,
                     ps': seq<PageInfo>, head': int, free': seq<int>, m': PhysMem, dirs': seq<int>,
                     reserved: set<int>, kern: seq<Word>, e: nat, p: int)
    requires Inv(ps, head, free, m, dirs, reserved, kern, NULL)
    requires Inv(ps', head', free', m', dirs', reserved, kern, NULL)
    requires |ps'| == |ps| && 0 <= p < |ps|
    requires SameForOthers(m, dirs, m', dirs', e) && e < NENV && DirOf(dirs', e) == NULL
    requires Held(ps', free', reserved) == Held(ps, free, reserved)
    ensures ps'[p].ref == ps[p].ref - |set s | s in Holders(m, dirs, p) && s.e == e|
    ensures ps[p].ref > 0 && ps'[p].ref == 0 ==> p in free'
  {
    CountsFollow(ps, m, dirs, ps', m', dirs', kern, e, p);
    if ps[p].ref > 0 && ps'[p].ref == 0 {
      if p in reserved {
        NoUserUse(m, dirs, reserved, p);
        NoUserUse(m', dirs', reserved, p);
      }
      assert p !in Held(ps', free', reserved);
    }
  }

  lemma {:induction false} CountsFollow(ps: seq<PageInfo>, m: PhysMem, dirs: seq<int>, ps': seq<PageInfo>, m': PhysMem,
                     dirs': seq<int>, kern: seq<Word>, e: nat, p: int)
    requires CountsOk(ps, m, dirs, kern, NULL) && CountsOk(ps', m', dirs', kern, NULL) && |ps'| == |ps| && 0 <= p < |ps|
    requires SameForOthers(m, dirs, m', dirs', e) && e < NENV && DirOf(dirs', e) == NULL
    ensures ps'[p].ref == ps[p].ref - |set s | s in Holders(m, dirs, p) && s.e == e|
  {
    var own := set s | s in Holders(m, dirs, p) && s.e == e;
    forall s | IsSite(s) && s.e == e ensures Target(m', dirs', s) == NULL {
    }
    assert Holders(m', dirs', p) == Holders(m, dirs, p) - own;
    CardinalityDiff(Holders(m, dirs, p), own);
  }

  lemma CardinalityDiff<T>(a: set<T>, b: set<T>)
    requires b <= a
    ensures |a - b| == |a| - |b|
  {
    assert a == b + (a - b);
  }

  // How far env_free has come: tables below k unhooked; entries below l of table k cleared.
  ghost predicate TablesGone(m: PhysMem, dirs: seq<int>, e: nat, k: nat) {
    forall i: nat | i < k :: TableOf(m, dirs, e, i) == NULL
  }

  ghost predicate EntriesGone(m: PhysMem, dirs: seq<int>, e: nat, k: nat, l: nat) {
    forall j: nat | j < l :: PteWord(m, dirs, e, k, j) == 0
  }

  lemma {:induction false} AfterRemove(m: PhysMem, dirs: seq<int>, m': PhysMem, e: nat, k: nat, l: nat)
    requires e < NENV && k < UPDES && l < NENTRIES && TablesGone(m, dirs, e, k) && EntriesGone(m, dirs, e, k, l)
    requires SameOutside(m, dirs, m', dirs, PageUse(e, k, l)) && PteWord(m', dirs, e, k, l) == 0
    ensures TablesGone(m', dirs, e, k) && EntriesGone(m', dirs, e, k, l + 1)
    ensures TableOf(m', dirs, e, k) == TableOf(m, dirs, e, k)
    ensures SameForOthers(m, dirs, m', dirs, e)
  {
    forall i: nat | i <= k ensures TableOf(m', dirs, e, i) == TableOf(m, dirs, e, i) {
      assert Target(m', dirs, TableUse(e, i)) == Target(m, dirs, TableUse(e, i));
    }
    forall j: nat | j < l ensures PteWord(m', dirs, e, k, j) == 0 {
      assert Target(m', dirs, PageUse(e, k, j)) == Target(m, dirs, PageUse(e, k, j)) == NULL;
    }
  }

  lemma {:induction false} AfterDropTable(m: PhysMem, dirs: seq<int>, m': PhysMem, e: nat, k: nat)
    requires e < NENV && k < UPDES && TablesGone(m, dirs, e, k)
    requires SameOutside(m, dirs, m', dirs, TableUse(e, k)) && TableOf(m', dirs, e, k) == NULL
    ensures TablesGone(m', dirs, e, k + 1)
    ensures SameForOthers(m, dirs, m', dirs, e)
  {
    forall i: nat | i < k ensures TableOf(m', dirs, e, i) == NULL {
      assert Target(m', dirs, TableUse(e, i)) == Target(m, dirs, TableUse(e, i));
    }
  }

  lemma OthersChain(m: PhysMem, dirs: seq<int>, m': PhysMem, dirs': seq<int>, m'': PhysMem, dirs'': seq<int>, e: nat)
    requires SameForOthers(m, dirs, m', dirs', e) && SameForOthers(m', dirs', m'', dirs'', e)
    ensures SameForOthers(m, dirs, m'', dirs'', e)
  {
  }

  lemma OutsideIsOthers(m: PhysMem, dirs: seq<int>, m': PhysMem, dirs': seq<int>, s: Site)
    requires SameOutside(m, dirs, m', dirs', s)
    ensures SameForOthers(m, dirs, m', dirs', s.e)
  {
  }

  // "present" and "nonzero" are the same test on entries of the user range.
  lemma PresentIsNonzero(m: PhysMem, dirs: seq<int>, reserved: set<int>, e: nat, i: nat, j: nat)
    requires WellFormed(m, dirs, reserved) && e < NENV && i < UPDES && j < NENTRIES
    ensures PdeWord(m, dirs, e, i) % 2 == 1 <==> PdeWord(m, dirs, e, i) != 0
    ensures PteWord(m, dirs, e, i, j) % 2 == 1 <==> PteWord(m, dirs, e, i, j) != 0
  {
  }

  lemma NothingGone(m: PhysMem, dirs: seq<int>, e: nat, k: nat)
    ensures TablesGone(m, dirs, e, 0) && EntriesGone(m, dirs, e, k, 0)
  {
  }

  lemma NextGone(m: PhysMem, dirs: seq<int>, e: nat, k: nat)
    requires TablesGone(m, dirs, e, k) && PdeWord(m, dirs, e, k) == 0
    ensures TablesGone(m, dirs, e, k + 1)
  {
  }

  lemma AllGone(m: PhysMem, dirs: seq<int>, e: nat)
    requires TablesGone(m, dirs, e, UPDES)
    ensures forall i: nat | i < UPDES :: TableOf(m, dirs, e, i) == NULL
  {
  }

  lemma AllEntriesGone(m: PhysMem, dirs: seq<int>, e: nat, k: nat)
    requires EntriesGone(m, dirs, e, k, NENTRIES)
    ensures forall j: nat | j < NENTRIES :: PteWord(m, dirs, e, k, j) == 0
  {
  }

  // ---------- mappings and system calls ----------

  // A page found through an address space may be mapped again.
  lemma {:induction false} MappedIsMappable(ps: seq<PageInfo>, head: int, free: seq<int>, m: PhysMem, dirs: seq<int>,
                         reserved: set<int>, kern: seq<Word>, e: nat, v: nat)
    requires Inv(ps, head, free, m, dirs, reserved, kern, NULL)
    requires e < NENV && v in UserMap(m, dirs, e)
    ensures var p := UserMap(m, dirs, e)[v].page;
      MayBeMapped(m, dirs, reserved, p) && p !in free && 0 <= p < |ps| && ps[p].ref >= 1
  {
    SplitVpn(v, 0, 0);
    var u := PageUse(e, v / 1024, v % 1024);
    assert IsSite(u) && Target(m, dirs, u) == UserMap(m, dirs, e)[v].page;
    NotFree(ps, head, free, m, dirs, reserved, kern, NULL, u);
    hide Inv, CountsOk, ListOk, KernelHalfOk, Holders, Held;
    forall s | IsSite(s) && IsStructure(s) ensures Target(m, dirs, s) != Target(m, dirs, u) {
    }
  }

  // The contents of every page some environment maps are the same.
  ghost predicate ContentsKept(m: PhysMem, dirs: seq<int>, m': PhysMem) {
    && |m'| == |m|
    && forall e: nat, v: nat | e < NENV && v in UserMap(m, dirs, e) && 0 <= UserMap(m, dirs, e)[v].page < |m| ::
      m'[UserMap(m, dirs, e)[v].page] == m[UserMap(m, dirs, e)[v].page]
  }

  // A page that is free, or none, or a directory or page table of e.
  ghost predicate NoData(m: PhysMem, dirs: seq<int>, free: seq<int>, e: nat, q: int) {
    q == NULL || q in free || q == DirOf(dirs, e) || exists i: nat :: i < UPDES && q == TableOf(m, dirs, e, i)
  }

  lemma {:induction false} ChangesNoData(ps: seq<PageInfo>, head: int, free: seq<int>, m: PhysMem, dirs: seq<int>,
                         reserved: set<int>, kern: seq<Word>, e: nat, a: int, b: int, c: int, m': PhysMem)
    requires Inv(ps, head, free, m, dirs, reserved, kern, NULL) && e < NENV && |m'| == |m|
    requires NoData(m, dirs, free, e, a) && NoData(m, dirs, free, e, b) && NoData(m, dirs, free, e, c)
    requires forall q | 0 <= q < |m| && q != a && q != b && q != c :: m'[q] == m[q]
    ensures ContentsKept(m, dirs, m')
  {
    hide Inv, UserMap;
    forall x: nat, v: nat | x < NENV && v in UserMap(m, dirs, x) && 0 <= UserMap(m, dirs, x)[v].page < |m|
      ensures m'[UserMap(m, dirs, x)[v].page] == m[UserMap(m, dirs, x)[v].page]
    {
      var q := UserMap(m, dirs, x)[v].page;
      MappedIsMappable(ps, head, free, m, dirs, reserved, kern, x, v);
      assert IsSite(DirUse(e)) && Target(m, dirs, DirUse(e)) != q;
      forall i: nat | i < UPDES ensures TableOf(m, dirs, e, i) != q {
        assert IsSite(TableUse(e, i)) && Target(m, dirs, TableUse(e, i)) != q;
      }
    }
  }

  // A store into a page that is neither directory nor table.
  lemma {:induction false} StoreKeepsTables(ps: seq<PageInfo>, head: int, free: seq<int>, m: PhysMem, dirs: seq<int>,
                         reserved: set<int>, kern: seq<Word>, p: int, c: seq<Word>)
    requires Inv(ps, head, free, m, dirs, reserved, kern, NULL) && MayBeMapped(m, dirs, reserved, p) && |c| == NENTRIES
    ensures Inv(ps, head, free, m[p := c], dirs, reserved, kern, NULL)
    ensures SameEverywhere(m, dirs, m[p := c], dirs) && SameMaps(m, dirs, m[p := c], dirs)
  {
    InvParts(ps, head, free, m, dirs, reserved, kern, NULL);
    WriteElsewhere(m, dirs, reserved, p, c);
    SameTargets(m, dirs, m[p := c], dirs);
    forall e: nat | e < NENV ensures DirOf(dirs, e) != p {
      assert IsSite(DirUse(e)) && Target(m, dirs, DirUse(e)) != p;
    }
    WriteKeepsKernelHalf(m, dirs, kern, p, m[p := c]);
    hide WellFormed, ListOk, KernelHalfOk;
  }

  // ---------- page_init ----------

  // Pages page_init keeps off the list: page 0, the start-up code of the other processors, the
  // I/O hole, and extended memory below bootEnd (kernel image and boot_alloc data).
  predicate KeptBack(i: nat, bootEnd: nat) {
    || i == 0
    || i == PGNUM(MPENTRY_PADDR)
    || PGNUM(IOPHYSMEM) <= i < PGNUM(EXTPHYSMEM)
    || PGNUM(EXTPHYSMEM) <= i < bootEnd
  }

  // The same in physical addresses: the first page, the start-up code, and everything from the
  // I/O hole to the end of what boot_alloc has handed out.
  lemma KeptBackAddresses(a: nat, bootEnd: nat)
    requires 0x100 <= bootEnd
    ensures KeptBack(a / PGSIZE, bootEnd) <==>
      a < 0x1000 || 0x7000 <= a < 0x8000 || 0xA0000 <= a < bootEnd * PGSIZE
  {
    var i := a / PGSIZE;
    assert i * PGSIZE <= a < (i + 1) * PGSIZE;
  }

  ghost function Reserved(npages: nat, bootEnd: nat): set<int> {
    set i | 0 <= i < npages && KeptBack(i, bootEnd)
  }

  // kern_pgdir as page_init finds it: nothing but its own page at UVPT.
  function FirstKern(kernPgdir: nat): (kern: seq<Word>)
    ensures |kern| == NENTRIES
  {
    seq(NENTRIES, _ => 0)[PDX(UVPT) := EntryWord(kernPgdir, PTE_U)]
  }

  lemma {:induction false} FirstKernOk(kernPgdir: nat, npages: nat, reserved: set<int>)
    requires kernPgdir < npages && kernPgdir in reserved
    ensures KernOk(FirstKern(kernPgdir), npages, reserved)
    ensures forall p :: KernUses(FirstKern(kernPgdir), p) == {}
  {
    hide EntryWord;
    EntryWordIs(kernPgdir, PTE_U);
    EntryWordParts(kernPgdir, PTE_U);
  }

  // With no directory anywhere, nothing is referenced.
  lemma {:induction false} InitKeepsInv(ps: seq<PageInfo>, head: int, free: seq<int>, m: PhysMem, dirs: seq<int>,
                     bootEnd: nat, kernPgdir: nat)
    requires ListOk(ps, head, free) && |ps| == |m| && Shape(m, dirs)
    requires kernPgdir < |ps| && KeptBack(kernPgdir, bootEnd)
    requires forall e | 0 <= e < NENV :: dirs[e] == NULL
    requires forall p | 0 <= p < |ps| :: ps[p].ref == 0 && (p in free <==> !KeptBack(p, bootEnd))
    ensures Inv(ps, head, free, m, dirs, Reserved(|ps|, bootEnd), FirstKern(kernPgdir), NULL)
    ensures Held(ps, free, Reserved(|ps|, bootEnd)) == {}
    ensures forall e: nat | e < NENV :: UserMap(m, dirs, e) == map[]
  {
    var reserved := Reserved(|ps|, bootEnd);
    hide KernOk, FirstKern, ListOk;
    NobodyUses(m, dirs, reserved);
    forall p | p in free ensures p !in reserved {
      OnList(ps, head, free, p);
    }
    FirstKernOk(kernPgdir, |ps|, reserved);
    hide WellFormed, Holders, Target;
  }

  lemma {:induction false} NobodyUses(m: PhysMem, dirs: seq<int>, reserved: set<int>)
    requires Shape(m, dirs) && forall e | 0 <= e < NENV :: dirs[e] == NULL
    ensures WellFormed(m, dirs, reserved)
    ensures forall p | 0 <= p < |m| :: Holders(m, dirs, p) == {}
    ensures forall e: nat | e < NENV :: UserMap(m, dirs, e) == map[]
  {
    forall s | IsSite(s) ensures Target(m, dirs, s) == NULL {
      assert DirOf(dirs, s.e) == NULL;
    }
  }

  // ---------- boot_map_region ----------

  // The entry that maps page number v of the kernel's half, 0 if it is unmapped.
  function KernEntry(m: PhysMem, kern: seq<Word>, v: nat): Word {
    var d := v / 1024;
    if IsKernSlot(d) && d < |kern| && kern[d] != 0 then WordAt(m, PGNUM(kern[d]), v % 1024) else 0
  }

  ghost predicate NoDirectories(dirs: seq<int>) {
    forall e: nat :: DirOf(dirs, e) == NULL
  }

  // A page in nobody's hands becomes the kernel's page table for slot i.
  lemma {:induction false} HookKernTable(ps: seq<PageInfo>, head: int, free: seq<int>, m: PhysMem, dirs: seq<int>,
                     reserved: set<int>, kern: seq<Word>, i: nat, p: int)
    requires Inv(ps, head, free, m, dirs, reserved, kern, NULL) && NoDirectories(dirs)
    requires IsKernSlot(i) && kern[i] == 0 && p in Held(ps, free, reserved) && Holders(m, dirs, p) == {}
    ensures var kern' := kern[i := EntryWord(p, PTE_P + PTE_W + PTE_U)];
      var ps' := ps[p := PageInfo(1, NULL)];
      && Inv(ps', head, free, m, dirs, reserved + {p}, kern', NULL)
      && Held(ps', free, reserved + {p}) == Held(ps, free, reserved) - {p}
  {
    hide EntryWord, KernOk, WellFormed, KernUses, ListOk, Holders;
    KernShape(kern, |m|, reserved);
    var w := EntryWord(p, PTE_P + PTE_W + PTE_U);
    EntryWordParts(p, PTE_P + PTE_W + PTE_U);
    TableFlags(p);
    EntryWordIs(p, PTE_P + PTE_W + PTE_U);
    var kern', ps' := kern[i := w], ps[p := PageInfo(1, NULL)];
    RecountKeepsList(ps, head, free, p, 1);
    KernTablesReserved(kern, |m|, reserved);
    HookedCounts(kern, i, p, w);
    HookedKernOk(kern, |m|, reserved, i, p, w);
    ReserveMore(m, dirs, reserved, p);
    HeldAfterRecount(ps, free, reserved, p, 1, NULL);
    assert CountsOk(ps', m, dirs, kern', NULL);
    hide CountsOk;
  }

  lemma KernShape(kern: seq<Word>, npages: nat, reserved: set<int>)
    requires KernOk(kern, npages, reserved)
    ensures |kern| == NENTRIES
  {
  }

  lemma {:induction false} HookedKernOk(kern: seq<Word>, npages: nat, reserved: set<int>, i: nat, p: int, w: Word)
    requires KernOk(kern, npages, reserved) && IsKernSlot(i) && w % 8 == PTE_P + PTE_W + PTE_U && PGNUM(w) == p < npages
    requires KernUses(kern, p) == {}
    ensures KernOk(kern[i := w], npages, reserved + {p})
  {
    forall j | IsKernSlot(j) && j != i && kern[j] != 0 ensures PGNUM(kern[j]) != p {
      assert j !in KernUses(kern, p);
    }
  }

  lemma {:induction false} HookedCounts(kern: seq<Word>, i: nat, p: int, w: Word)
    requires |kern| == NENTRIES && IsKernSlot(i) && kern[i] == 0 && w != 0 && PGNUM(w) == p
    ensures |KernUses(kern[i := w], p)| == |KernUses(kern, p)| + 1
    ensures forall q | q != p :: KernUses(kern[i := w], q) == KernUses(kern, q)
  {
    assert KernUses(kern[i := w], p) == KernUses(kern, p) + {i};
  }

  lemma {:induction false} ReserveMore(m: PhysMem, dirs: seq<int>, reserved: set<int>, p: int)
    requires WellFormed(m, dirs, reserved) && Holders(m, dirs, p) == {}
    ensures WellFormed(m, dirs, reserved + {p})
  {
    forall s | IsSite(s) ensures Target(m, dirs, s) != p {
      assert s !in Holders(m, dirs, p);
    }
  }

  lemma FirstKernMapsNothing(m: PhysMem, kernPgdir: nat)
    ensures forall v: nat :: KernEntry(m, FirstKern(kernPgdir), v) == 0
  {
    hide EntryWord, PGNUM, WordAt;
  }

  // What pgdir_walk does when it creates a page table in kern_pgdir: the first free page becomes
  // a kernel page table, empty, and no kernel mapping changes.
  lemma {:induction false} KernTableKeepsInv(ps: seq<PageInfo>, head: int, free: seq<int>, m: PhysMem, dirs: seq<int>,
                     reserved: set<int>, kern: seq<Word>, i: nat, zeros: seq<Word>)
    requires Inv(ps, head, free, m, dirs, reserved, kern, NULL) && NoDirectories(dirs) && free != []
    requires IsKernSlot(i) && kern[i] == 0
    requires |zeros| == NENTRIES && forall j | 0 <= j < NENTRIES :: zeros[j] == 0
    ensures 0 <= free[0] < |ps|
    ensures var p := free[0];
      var ps', m', kern' := ps[p := PageInfo(1, NULL)], m[p := zeros], kern[i := EntryWord(p, PTE_P + PTE_W + PTE_U)];
      && Inv(ps', ps[p].link, free[1..], m', dirs, reserved + {p}, kern', NULL)
      && Held(ps', free[1..], reserved + {p}) == Held(ps, free, reserved)
      && SameMaps(m, dirs, m', dirs)
      && forall v: nat :: KernEntry(m', kern', v) == KernEntry(m, kern, v)
  {
    hide EntryWord, Inv, Held, WellFormed, CountsOk, ListOk, KernelHalfOk, Holders, SameEverywhere, SameMaps,
      MayBeMapped;
    InvParts(ps, head, free, m, dirs, reserved, kern, NULL);
    var p := free[0];
    AllocKeepsInv(ps, head, free, m, dirs, reserved, kern, NULL, zeros);
    var ps1, m1 := ps[p := PageInfo(0, NULL)], m[p := zeros];
    InHeld(ps1, free[1..], reserved, p, Held(ps, free, reserved));
    HookKernTable(ps1, ps[p].link, free[1..], m1, dirs, reserved, kern, i, p);
    assert ps1[p := PageInfo(1, NULL)] == ps[p := PageInfo(1, NULL)];
    EntryWordParts(p, PTE_P + PTE_W + PTE_U);
    TableFlags(p);
    EntryWordIs(p, PTE_P + PTE_W + PTE_U);
  }

  lemma InHeld(ps: seq<PageInfo>, free: seq<int>, reserved: set<int>, p: int, h: set<int>)
    requires Held(ps, free, reserved) == h + {p} && p !in h
    ensures p in Held(ps, free, reserved) && Held(ps, free, reserved) - {p} == h
  {
  }

  // Storing an entry of a kernel page table changes that kernel mapping and nothing else.
  lemma {:induction false} KernStoreKeepsInv(ps: seq<PageInfo>, head: int, free: seq<int>, m: PhysMem, dirs: seq<int>,
                     reserved: set<int>, kern: seq<Word>, v: nat, w: Word)
    requires Inv(ps, head, free, m, dirs, reserved, kern, NULL)
    requires IsKernSlot(v / 1024) && kern[v / 1024] != 0
    ensures var t := PGNUM(kern[v / 1024]);
      && 0 <= t < |m| && |m[t]| == NENTRIES
      && var m' := SetWord(m, t, v % 1024, w);
      && Inv(ps, head, free, m', dirs, reserved, kern, NULL)
      && SameMaps(m, dirs, m', dirs)
      && forall x: nat :: KernEntry(m', kern, x) == if x == v then w else KernEntry(m, kern, x)
  {
    InvParts(ps, head, free, m, dirs, reserved, kern, NULL);
    var t := PGNUM(kern[v / 1024]);
    NoUserUse(m, dirs, reserved, t);
    forall s | IsSite(s) ensures Target(m, dirs, s) != t {
      assert s !in Holders(m, dirs, t);
    }
    var m' := SetWord(m, t, v % 1024, w);
    WriteElsewhere(m, dirs, reserved, t, m'[t]);
    assert m' == m[t := m'[t]];
    SameTargets(m, dirs, m', dirs);
    forall e: nat | e < NENV ensures DirOf(dirs, e) != t {
      assert IsSite(DirUse(e)) && Target(m, dirs, DirUse(e)) != t;
    }
    WriteKeepsKernelHalf(m, dirs, kern, t, m');
    hide WellFormed, ListOk, KernelHalfOk, Holders, SameEverywhere, SameMaps;
    forall x: nat ensures KernEntry(m', kern, x) == if x == v then w else KernEntry(m, kern, x) {
      if x / 1024 == v / 1024 && x % 1024 == v % 1024 {
        assert x == v;
      }
    }
  }
}
