/**
  The two models of memory are one: what CowFork takes the page system calls to do is what the
  methods of PageTables.Memory do to page tables in place.
*/
module CowMemory {
  import opened Mmu
  import opened PageSites
  import opened PageInvariant
  import opened PageTables
  import Cow = CowFork
  import ExceptionStack

  // The page numbers of the fork machine and the addresses of sched/inc/memlayout.h.
  lemma PageNumbers()
    ensures Cow.PGSIZE == PGSIZE == ExceptionStack.PGSIZE && UTOP == ExceptionStack.UXSTACKTOP
    ensures Cow.UVPNS == UVPNS == PGNUM(UTOP) && UPDES == PDX(UTOP)
    ensures Page2Pa(Cow.UTEMP) == PTSIZE && Page2Pa(Cow.PFTEMP) == PTSIZE + PTSIZE - PGSIZE
    ensures Page2Pa(Cow.UXSTACK) == ExceptionStack.EXSTK && Page2Pa(Cow.UXSTACK + 1) == ExceptionStack.UXSTACKTOP
  {
  }

  // The bytes of a page, little-endian.
  function Bytes(row: seq<Word>): Cow.Data {
    seq(PGSIZE, i requires 0 <= i => if i / 4 < |row| then row[i / 4] / Weight(i % 4) % 0x100 else 0)
  }

  function Weight(k: nat): (w: nat)
    ensures w > 0
  {
    if k == 0 then 1 else 0x100 * Weight(k - 1)
  }

  function PteOf(x: Mapping): Cow.Pte { Cow.Pte(x.page, Writable(x.perm), x.perm / Cow.PTE_COW % 2 == 1) }

  function SpaceOf(um: map<nat, Mapping>): map<int, Cow.Pte> {
    map v | v in um :: PteOf(um[v])
  }

  // The state of the fork machine that a state of the page tables stands for; who is forking or
  // handling a fault is not recorded there, and taken from s.
  ghost function Meant(m: PhysMem, dirs: seq<int>, s: Cow.State): Cow.State {
    s.(phys := map p: int | 0 <= p < |m| :: Bytes(m[p]),
       vm := map e: nat | e < NENV && DirOf(dirs, e) != NULL :: SpaceOf(UserMap(m, dirs, e)))
  }

  lemma MeantIsFull(m: PhysMem, dirs: seq<int>, s: Cow.State)
    ensures Cow.FullPages(Meant(m, dirs, s))
  {
  }

  // The same but for pages that nobody maps.
  ghost predicate Agree(s: Cow.State, s': Cow.State) {
    && s'.vm == s.vm && s'.fork == s.fork && s'.fault == s.fault && s'.parent == s.parent
    && forall e, v | Cow.Maps(s, e, v) ::
      Cow.At(s, e, v).page in s.phys && Cow.At(s, e, v).page in s'.phys && SamePage(s, s', Cow.At(s, e, v).page)
  }

  predicate SamePage(s: Cow.State, s': Cow.State, p: int)
    requires p in s.phys && p in s'.phys
  {
    s'.phys[p] == s.phys[p]
  }

  // No program can tell the difference.
  lemma {:induction false} AgreeSameView(s: Cow.State, s': Cow.State)
    requires Agree(s, s')
    ensures Cow.View(s') == Cow.View(s)
  {
    forall e, v ensures Cow.SameSeen(s, s', e, v) {
    }
    Cow.ViewKept(s, s');
  }

  // A page on the free list is what the fork machine calls fresh.
  lemma {:induction false} FreeIsFresh(ps: seq<PageInfo>, head: int, free: seq<int>, m: PhysMem, dirs: seq<int>,
      reserved: set<int>, kern: seq<Word>, s: Cow.State, p: int)
    requires Inv(ps, head, free, m, dirs, reserved, kern, NULL) && p in free
    ensures Cow.Fresh(Meant(m, dirs, s), p)
  {
    hide Inv, UserMap;
    forall e, v | Cow.Maps(Meant(m, dirs, s), e, v) ensures Cow.At(Meant(m, dirs, s), e, v).page != p {
      MappedIsMappable(ps, head, free, m, dirs, reserved, kern, e, v);
    }
  }

  // Everything mapped is a page there is.
  ghost predicate InRange(m: PhysMem, dirs: seq<int>) {
    forall e: nat, v: nat | e < NENV && v in UserMap(m, dirs, e) :: 0 <= UserMap(m, dirs, e)[v].page < |m|
  }

  lemma {:induction false} MappedInRange(ps: seq<PageInfo>, head: int, free: seq<int>, m: PhysMem, dirs: seq<int>,
      reserved: set<int>, kern: seq<Word>)
    requires Inv(ps, head, free, m, dirs, reserved, kern, NULL)
    ensures InRange(m, dirs)
  {
    hide Inv, UserMap;
    forall e: nat, v: nat | e < NENV && v in UserMap(m, dirs, e) ensures 0 <= UserMap(m, dirs, e)[v].page < |m| {
      MappedIsMappable(ps, head, free, m, dirs, reserved, kern, e, v);
    }
  }

  lemma {:induction false} SpaceSet(m: PhysMem, dirs: seq<int>, m': PhysMem, s: Cow.State, e: nat, v: nat, x: Mapping)
    requires e < NENV && DirOf(dirs, e) != NULL && SameOtherMaps(m, dirs, m', dirs, e)
    requires UserMap(m', dirs, e) == UserMap(m, dirs, e)[v := x]
    ensures e in Meant(m, dirs, s).vm
    ensures var vm := Meant(m, dirs, s).vm; Meant(m', dirs, s).vm == vm[e := vm[e][v := PteOf(x)]]
  {
    hide UserMap, PteOf, Bytes;
    var vm, vm' := Meant(m, dirs, s).vm, Meant(m', dirs, s).vm;
    assert SpaceOf(UserMap(m, dirs, e)[v := x]) == SpaceOf(UserMap(m, dirs, e))[v := PteOf(x)];
    forall y | y in vm ensures vm'[y] == if y == e then vm[e][v := PteOf(x)] else vm[y] {
    }
  }

  lemma {:induction false} SpaceUnset(m: PhysMem, dirs: seq<int>, m': PhysMem, s: Cow.State, e: nat, v: nat)
    requires e < NENV && DirOf(dirs, e) != NULL && SameOtherMaps(m, dirs, m', dirs, e)
    requires UserMap(m', dirs, e) == UserMap(m, dirs, e) - {v}
    ensures e in Meant(m, dirs, s).vm
    ensures var vm := Meant(m, dirs, s).vm; Meant(m', dirs, s).vm == vm[e := vm[e] - {v}]
  {
    hide UserMap, PteOf, Bytes;
    var vm, vm' := Meant(m, dirs, s).vm, Meant(m', dirs, s).vm;
    assert SpaceOf(UserMap(m, dirs, e) - {v}) == SpaceOf(UserMap(m, dirs, e)) - {v};
    forall y | y in vm ensures vm'[y] == if y == e then vm[e] - {v} else vm[y] {
    }
  }

  // Where the environments map nothing new but page p, the contents agree.
  lemma {:induction false} ContentsAgree(m: PhysMem, dirs: seq<int>, m': PhysMem, s: Cow.State, t: Cow.State, p: int)
    requires InRange(m, dirs) && ContentsKept(m, dirs, m') && p < |m'|
    requires t.phys == if p < 0 then Meant(m, dirs, s).phys else Meant(m, dirs, s).phys[p := Bytes(m'[p])]
    requires t.vm == Meant(m', dirs, s).vm && t.fork == s.fork && t.fault == s.fault && t.parent == s.parent
    requires forall e, v | Cow.Maps(t, e, v) ::
      (p >= 0 && Cow.At(t, e, v).page == p) || UsedBefore(m, dirs, Cow.At(t, e, v).page)
    ensures Agree(t, Meant(m', dirs, s))
  {
    hide UserMap, Bytes;
    var b := Meant(m', dirs, s);
    forall e, v | Cow.Maps(t, e, v)
      ensures Cow.At(t, e, v).page in t.phys && Cow.At(t, e, v).page in b.phys && SamePage(t, b, Cow.At(t, e, v).page)
    {
      assert (p >= 0 && Cow.At(t, e, v).page == p) || UsedBefore(m, dirs, Cow.At(t, e, v).page);
    }
  }

  ghost predicate UsedBefore(m: PhysMem, dirs: seq<int>, p: int) {
    exists e: nat, v: nat :: e < NENV && v in UserMap(m, dirs, e) && UserMap(m, dirs, e)[v].page == p
  }

  lemma ZeroBytes()
    ensures Bytes(ZEROS) == Cow.Zero()
  {
  }

  // sys_page_alloc ...
  lemma {:induction false} AllocMeant(m: PhysMem, dirs: seq<int>, m': PhysMem, s: Cow.State, e: nat, v: nat, p: int)
    requires e < NENV && DirOf(dirs, e) != NULL && InRange(m, dirs)
    requires UserMap(m', dirs, e) == UserMap(m, dirs, e)[v := Mapping(p, PTE_P + PTE_U + PTE_W)]
    requires SameOtherMaps(m, dirs, m', dirs, e) && ContentsKept(m, dirs, m')
    requires 0 <= p < |m'| && m'[p] == ZEROS
    ensures e in Meant(m, dirs, s).vm
    ensures Agree(Cow.SysPageAlloc(Meant(m, dirs, s), e, v, p), Meant(m', dirs, s))
  {
    hide UserMap, Bytes, Cow.Zero;
    ZeroBytes();
    SpaceSet(m, dirs, m', s, e, v, Mapping(p, PTE_P + PTE_U + PTE_W));
    var t := Cow.SysPageAlloc(Meant(m, dirs, s), e, v, p);
    forall x, y | Cow.Maps(t, x, y) ensures Cow.At(t, x, y).page == p || UsedBefore(m, dirs, Cow.At(t, x, y).page) {
      if x != e || y != v {
        assert Cow.Maps(Meant(m, dirs, s), x, y) && Cow.At(t, x, y).page == UserMap(m, dirs, x)[y].page;
      }
    }
    ContentsAgree(m, dirs, m', s, t, p);
  }

  // ... sys_page_map ...
  lemma {:induction false} MapMeant(m: PhysMem, dirs: seq<int>, m': PhysMem, s: Cow.State, e: nat, v: nat, e': nat,
      v': nat, perm: nat)
    requires e < NENV && DirOf(dirs, e) != NULL && e' < NENV && DirOf(dirs, e') != NULL && InRange(m, dirs)
    requires v in UserMap(m, dirs, e) && (Writable(perm) ==> Writable(UserMap(m, dirs, e)[v].perm))
    requires UserMap(m', dirs, e') == UserMap(m, dirs, e')[v' := Mapping(UserMap(m, dirs, e)[v].page, perm)]
    requires SameOtherMaps(m, dirs, m', dirs, e') && ContentsKept(m, dirs, m')
    ensures var a := Meant(m, dirs, s);
      && Cow.Maps(a, e, v) && e' in a.vm && (Writable(perm) ==> Cow.At(a, e, v).w)
      && Agree(Cow.SysPageMap(a, e, v, e', v', Writable(perm), perm / Cow.PTE_COW % 2 == 1), Meant(m', dirs, s))
  {
    hide UserMap, Bytes;
    SpaceSet(m, dirs, m', s, e', v', Mapping(UserMap(m, dirs, e)[v].page, perm));
    var a := Meant(m, dirs, s);
    var t := Cow.SysPageMap(a, e, v, e', v', Writable(perm), perm / Cow.PTE_COW % 2 == 1);
    forall x, y | Cow.Maps(t, x, y) ensures UsedBefore(m, dirs, Cow.At(t, x, y).page) {
      if x == e' && y == v' {
        assert Cow.At(t, x, y).page == UserMap(m, dirs, e)[v].page;
      } else {
        assert Cow.Maps(a, x, y) && Cow.At(a, x, y).page == UserMap(m, dirs, x)[y].page;
      }
    }
    ContentsAgree(m, dirs, m', s, t, NULL);
  }

  // ... and sys_page_unmap.
  lemma {:induction false} UnmapMeant(m: PhysMem, dirs: seq<int>, m': PhysMem, s: Cow.State, e: nat, v: nat)
    requires e < NENV && DirOf(dirs, e) != NULL && InRange(m, dirs)
    requires UserMap(m', dirs, e) == UserMap(m, dirs, e) - {v}
    requires SameOtherMaps(m, dirs, m', dirs, e) && ContentsKept(m, dirs, m')
    ensures e in Meant(m, dirs, s).vm && Agree(Cow.SysPageUnmap(Meant(m, dirs, s), e, v), Meant(m', dirs, s))
  {
    hide UserMap, Bytes;
    SpaceUnset(m, dirs, m', s, e, v);
    var t := Cow.SysPageUnmap(Meant(m, dirs, s), e, v);
    forall x, y | Cow.Maps(t, x, y) ensures UsedBefore(m, dirs, Cow.At(t, x, y).page) {
      assert Cow.Maps(Meant(m, dirs, s), x, y) && Cow.At(t, x, y).page == UserMap(m, dirs, x)[y].page;
    }
    ContentsAgree(m, dirs, m', s, t, NULL);
  }

  ghost predicate Allocated(a: Cow.State, e: int, v: int, p: int, b: Cow.State) {
    Cow.Fresh(a, p) && e in a.vm && Agree(Cow.SysPageAlloc(a, e, v, p), b)
  }

  // The calls on the page tables themselves, in the terms of the fork machine.
  method SysPageAlloc(memory: Memory, e: nat, va: nat, ghost s: Cow.State) returns (r: int)
    requires memory.Valid() && e < NENV && DirOf(memory.pgdir[..], e) != NULL && va < UTOP
    modifies memory`freeList, memory`free, memory.pages, memory.mem
    ensures memory.Valid() && memory.pgdir[..] == old(memory.pgdir[..])
    ensures r == 0 ==> old(memory.free) != []
    ensures r == 0 ==>
      var a, b := Meant(old(memory.mem[..]), memory.pgdir[..], s), Meant(memory.mem[..], memory.pgdir[..], s);
      Allocated(a, e, PGNUM(va), old(memory.free)[0], b)
  {
    hide Inv, UserMap, SameOtherMaps, ContentsKept, InRange, Meant, Agree, Cow.Fresh, Cow.SysPageAlloc, TableOf, Held;
    MappedInRange(memory.pages[..], memory.freeList, memory.free, memory.mem[..], memory.pgdir[..], memory.reserved,
      memory.kern);
    if memory.free != [] {
      FreeIsFresh(memory.pages[..], memory.freeList, memory.free, memory.mem[..], memory.pgdir[..], memory.reserved,
        memory.kern, s, memory.free[0]);
    }
    r := memory.EnvPageAlloc(e, va, PTE_P + PTE_U + PTE_W);
    if r == 0 {
      AllocMeant(old(memory.mem[..]), memory.pgdir[..], memory.mem[..], s, e, PGNUM(va), old(memory.free)[0]);
    }
  }

  method SysPageMap(memory: Memory, e: nat, va: nat, e': nat, va': nat, perm: nat, ghost s: Cow.State) returns (r: int)
    requires memory.Valid() && e < NENV && DirOf(memory.pgdir[..], e) != NULL && va < UTOP
    requires e' < NENV && DirOf(memory.pgdir[..], e') != NULL && va' < UTOP && perm < 4096 && perm % 2 == 1
    modifies memory`freeList, memory`free, memory.pages, memory.mem
    ensures memory.pgdir[..] == old(memory.pgdir[..])
    ensures r == 0 ==>
      var a, b := Meant(old(memory.mem[..]), memory.pgdir[..], s), Meant(memory.mem[..], memory.pgdir[..], s);
      && Cow.Maps(a, e, PGNUM(va)) && e' in a.vm && (Writable(perm) ==> Cow.At(a, e, PGNUM(va)).w)
      && Agree(Cow.SysPageMap(a, e, PGNUM(va), e', PGNUM(va'), Writable(perm), perm / Cow.PTE_COW % 2 == 1), b)
  {
    hide Inv, UserMap, SameOtherMaps, ContentsKept, InRange, Meant, Agree, Cow.SysPageMap, TableOf, Held, Overlaid,
      EntryWord, Memory.CountIs, Memory.Fits, TablesKept;
    MappedInRange(memory.pages[..], memory.freeList, memory.free, memory.mem[..], memory.pgdir[..], memory.reserved,
      memory.kern);
    r := memory.EnvPageMap(e, va, e', va', perm);
    if r == 0 {
      EntryWordIs(old(memory.MapOf(e))[PGNUM(va)].page, perm);
      MapMeant(old(memory.mem[..]), memory.pgdir[..], memory.mem[..], s, e, PGNUM(va), e', PGNUM(va'), perm);
    }
  }

  method SysPageUnmap(memory: Memory, e: nat, va: nat, ghost s: Cow.State)
    requires memory.Valid() && e < NENV && DirOf(memory.pgdir[..], e) != NULL && va < UTOP
    modifies memory`freeList, memory`free, memory.pages, memory.mem
    ensures memory.Valid() && memory.pgdir[..] == old(memory.pgdir[..])
    ensures var a, b := Meant(old(memory.mem[..]), memory.pgdir[..], s), Meant(memory.mem[..], memory.pgdir[..], s);
      e in a.vm && Agree(Cow.SysPageUnmap(a, e, PGNUM(va)), b)
  {
    hide Inv, UserMap, SameOtherMaps, ContentsKept, InRange, Meant, Agree, Cow.SysPageUnmap, Held;
    MappedInRange(memory.pages[..], memory.freeList, memory.free, memory.mem[..], memory.pgdir[..], memory.reserved,
      memory.kern);
    memory.EnvPageUnmap(e, va);
    UnmapMeant(old(memory.mem[..]), memory.pgdir[..], memory.mem[..], s, e, PGNUM(va));
  }
}
