/**
  Physical pages and two-level page tables, changed in place (sched/kern/pmap.c), and the
  address-space part of environments (sched/kern/env.c, sched/kern/syscall.c).

  A pointer to a page-table entry is a pair (page of the table, slot).  A directory is
  named by its page.  `kern` is the content of kern_pgdir.
*/
module PageTables {
  import opened Mmu
  import Bits
  import opened PageSites
  import opened PageInvariant
  import Paging

  const WORDS := 0x1_0000_0000   // addresses are 32 bits wide
  const E_INVAL := -3
  const E_NO_MEM := -4

  // perm has no bit outside PTE_SYSCALL (bits 0-2 and 9-11) and has PTE_P and PTE_U.
  predicate PermOk(perm: nat) {
    perm < 4096 && perm / 8 % 64 == 0 && perm % 2 == 1 && perm / 4 % 2 == 1
  }

  predicate Writable(perm: nat) { perm / 2 % 2 == 1 }

  // (pte & (perm | PTE_P)) == (perm | PTE_P)
  predicate Allows(w: Word, perm: nat) {
    Bits.BitAnd(w, Present(perm)) == Present(perm)
  }

  // The access an entry grants when the directory adds no restriction.
  function Access(w: Word): nat { if w % 2 == 1 then w % 8 else 0 }

  // check_perm: present and user, and of the other bits only PTE_W and the three PTE_AVAIL ones.
  lemma {:induction false} PermOkBits(perm: nat)
    ensures PermOk(perm) <==> Bits.Bit(perm, 0) && Bits.Bit(perm, 2) && OnlySyscallBits(perm)
  {
    hide Bits.Bit;
    Bits.LowBits(perm);
    if perm < 4096 {
      forall k: nat | k >= 12 ensures !Bits.Bit(perm, k) {
        Bits.NoHighBit(perm, 12, k);
      }
    } else {
      var k := Bits.HighBit(perm);
    }
  }

  predicate SyscallBit(k: nat) { k <= 2 || 9 <= k <= 11 }

  ghost predicate OnlySyscallBits(perm: nat) {
    forall k: nat | Bits.Bit(perm, k) :: SyscallBit(k)
  }

  lemma {:induction false} WritableBit(perm: nat)
    ensures Writable(perm) <==> Bits.Bit(perm, 1)
  {
    Bits.LowBits(perm);
  }

  // The test of user_mem_check: the entry is present and has every bit asked for.
  lemma {:induction false} AllowsBits(w: nat, perm: nat)
    ensures Allows(w, perm) <==> Bits.Bit(w, 0) && Bits.Contains(w, perm)
  {
    hide Bits.Bit;
    Bits.AndContains(w, Present(perm));
    forall k: nat ensures Bits.Bit(Present(perm), k) <==> k == 0 || Bits.Bit(perm, k) {
      Bits.SetLowest(perm, k);
    }
  }

  lemma PresentIsOdd(perm: nat)
    ensures Present(perm) % 2 == 1
  {
  }

  lemma NoneAllowed(perm: nat)
    ensures !Allows(0, perm)
  {
  }

  const ZEROS: seq<Word> := seq(NENTRIES, _ => 0)

  class Memory {
    const pages: array<PageInfo>
    const mem: array<seq<Word>>
    const pgdir: array<int>           // envs[e].env_pgdir, as a page number or NULL
    var kern: seq<Word>               // kern_pgdir
    var freeList: int                 // page_free_list
    ghost var free: seq<int>          // what it lists
    ghost var reserved: set<int>      // pages page_init keeps back, and the kernel's page tables

    predicate Apart() {
      && (pages as object) != (mem as object) && (pages as object) != (pgdir as object)
      && (mem as object) != (pgdir as object)
    }

    ghost predicate Valid()
      reads this, pages, mem, pgdir
    {
      && Apart()
      && Inv(pages[..], freeList, free, mem[..], pgdir[..], reserved, kern, NULL)
    }

    // While page_insert has counted a reference to pend that it has not stored.
    ghost predicate Valid'(pend: int)
      reads this, pages, mem, pgdir
    {
      && Apart()
      && Inv(Unwrapped(pages[..], pend), freeList, free, mem[..], pgdir[..], reserved, kern, pend)
      && (0 <= pend < pages.Length ==> pages[pend].ref < REF_MOD)
    }

    // The 16-bit count of pp is that of the references to it and `more`.
    ghost predicate CountIs(pp: int, more: nat)
      reads this, pages, mem, pgdir
      requires 0 <= pp < pages.Length
    {
      && |Holders(mem[..], pgdir[..], pp)| + |KernUses(kern, pp)| + more <= REF_MOD
      && pages[pp].ref == (|Holders(mem[..], pgdir[..], pp)| + |KernUses(kern, pp)| + more) % REF_MOD
    }

    // The count of a page that page_insert maps at va of e stays within 16 bits: there is room for
    // one more, or the page is mapped there already.
    ghost predicate Fits(pp: int, e: nat, va: nat)
      reads pages, mem, pgdir
      requires 0 <= pp < pages.Length
    {
      pages[pp].ref + 1 < REF_MOD || There(pp, e, va)
    }

    ghost predicate There(pp: int, e: nat, va: nat)
      reads mem, pgdir
    {
      PGNUM(va) in MapOf(e) && MapOf(e)[PGNUM(va)].page == pp
    }

    ghost function MapOf(e: nat): map<nat, Mapping>
      reads mem, pgdir
    {
      UserMap(mem[..], pgdir[..], e)
    }

    ghost function HeldPages(): set<int>
      reads this, pages
    {
      Held(pages[..], free, reserved)
    }

    // Nothing at all has changed.
    twostate predicate Same()
      reads this, pages, mem, pgdir
    {
      && pages[..] == old(pages[..]) && mem[..] == old(mem[..]) && pgdir[..] == old(pgdir[..])
      && freeList == old(freeList) && free == old(free)
    }

    // page_init, after the arrays were allocated and cleared: every page that is not kept back is
    // on the list, and no page is held or referenced.
    constructor (npages: nat, bootEnd: nat, kernPgdir: nat, contents: PhysMem)
      requires |contents| == npages && (forall p | 0 <= p < npages :: |contents[p]| == NENTRIES)
      requires kernPgdir < npages && KeptBack(kernPgdir, bootEnd)
      ensures Valid() && fresh(pages) && fresh(mem) && fresh(pgdir)
      ensures pages.Length == npages && mem[..] == contents && kern == FirstKern(kernPgdir) && NoDirectories(pgdir[..])
      ensures reserved == Reserved(npages, bootEnd) && HeldPages() == {}
      ensures forall p | 0 <= p < npages :: p in free <==> !KeptBack(p, bootEnd)
      ensures forall e: nat | e < NENV :: MapOf(e) == map[]
      ensures forall v: nat :: KernEntry(mem[..], kern, v) == 0
    {
      hide FirstKern, KernOk, WellFormed, KernEntry, Inv, Held, UserMap, CountsOk, KernUses, KernelHalfOk, Unwrapped,
        ListOk, KeptBack, Reserved, NoDirectories;
      pages := new PageInfo[npages](_ => PageInfo(0, NULL));
      mem := new seq<Word>[npages](i requires 0 <= i < npages => contents[i]);
      pgdir := new int[NENV](_ => NULL);
      kern := FirstKern(kernPgdir);
      freeList := NULL;
      free := [];
      reserved := Reserved(npages, bootEnd);
      new;
      EmptyList(pages[..]);
      for i := 0 to npages
        invariant pages.Length == npages && (pages as object) != (mem as object)
        invariant ListOk(pages[..], freeList, free)
        invariant forall p | 0 <= p < npages :: pages[..][p].ref == 0 && (p in free <==> p < i && !KeptBack(p, bootEnd))
        invariant mem[..] == contents && pgdir[..] == seq(NENV, _ => NULL) && kern == FirstKern(kernPgdir)
        invariant reserved == Reserved(npages, bootEnd)
      {
        ghost var ps0, head0, free0 := pages[..], freeList, free;
        RecountKeepsList(ps0, head0, free0, i, 0);
        assert ps0[i] == PageInfo(0, NULL);
        pages[i] := pages[i].(link := NULL);
        assert pages[..] == ps0;
        if !KeptBack(i, bootEnd) {
          PushKeepsList(ps0, head0, free0, i);
          pages[i] := PageInfo(0, freeList);
          freeList := i;
          free := [i] + free;
          assert pages[..] == ps0[i := PageInfo(0, head0)];
        }
      }
      InitKeepsInv(pages[..], freeList, free, mem[..], pgdir[..], bootEnd, kernPgdir);
      FirstKernMapsNothing(mem[..], kernPgdir);
      UnwrappedIs(pages[..], NULL);
      NobodysDirectory(pgdir[..]);
    }

    // Unlinks the first free page, and clears it when asked to.
    method PageAlloc(zero: bool) returns (pp: int)
      requires pages.Length == mem.Length && (pages as object) != (mem as object)
      requires ListOk(pages[..], freeList, free)
      modifies this`freeList, this`free, pages, mem
      ensures ListOk(pages[..], freeList, free)
      ensures pp == NULL <==> old(free) == []
      ensures pp == NULL ==> pages[..] == old(pages[..]) && mem[..] == old(mem[..])
      ensures pp == NULL ==> freeList == old(freeList) && free == old(free)
      ensures pp != NULL ==>
        && pp == old(free)[0] && 0 <= pp < pages.Length && free == old(free)[1..]
        && freeList == old(pages[..])[pp].link
        && pages[..] == old(pages[..])[pp := PageInfo(0, NULL)]
        && mem[..] == if zero then old(mem[..])[pp := ZEROS] else old(mem[..])
    {
      if freeList == NULL {
        return NULL;
      }
      PopKeepsList(pages[..], freeList, free);
      assert pages[..][free[0]] == PageInfo(0, After(free, 0));
      pp := freeList;
      freeList := pages[pp].link;
      pages[pp] := pages[pp].(link := NULL);
      free := free[1..];
      if zero {
        mem[pp] := ZEROS;
      }
    }

    // Links a page in front of the list.  The preconditions are the two panics of the source.
    method PageFree(pp: int)
      requires ListOk(pages[..], freeList, free) && 0 <= pp < pages.Length
      requires pages[pp].ref == 0 && pages[pp].link == NULL && pp !in free
      modifies this`freeList, this`free, pages
      ensures ListOk(pages[..], freeList, free) && freeList == pp && free == [pp] + old(free)
      ensures pages[..] == old(pages[..])[pp := PageInfo(0, old(freeList))]
    {
      PushKeepsList(pages[..], freeList, free, pp);
      pages[pp] := pages[pp].(link := freeList);
      freeList := pp;
      free := [pp] + free;
    }

    // Drops one count (a 16-bit decrement) and frees the page at zero.
    method PageDecref(pp: int)
      requires ListOk(pages[..], freeList, free) && 0 <= pp < pages.Length
      requires pages[pp].ref < REF_MOD && pp !in free
      modifies this`freeList, this`free, pages
      ensures pages[..] == DecrefPages(old(pages[..]), old(freeList), pp)
      ensures freeList == (if old(pages[pp].ref) == 1 then pp else old(freeList))
      ensures free == DecrefFree(old(pages[..]), old(free), pp)
    {
      hide ListOk;
      ghost var r := Pred16(pages[pp].ref);
      RecountKeepsList(pages[..], freeList, free, pp, r);
      pages[pp] := pages[pp].(ref := Pred16(pages[pp].ref));
      assert pages[..] == old(pages[..])[pp := PageInfo(r, NULL)];
      if pages[pp].ref == 0 {
        PageFree(pp);
      }
    }

    // The slot of the page table that maps va in directory d, allocating the table on demand.
    method PgdirWalk(d: int, va: nat, create: bool, ghost e: nat, ghost pend: int) returns (t: int, slot: nat)
      requires Valid'(pend) && e < NENV && DirOf(pgdir[..], e) == d != NULL && va < UTOP && (create ==> pend == NULL)
      modifies this`freeList, this`free, pages, mem
      ensures Valid'(pend) && pgdir[..] == old(pgdir[..])
      ensures slot == PTX(va) < NENTRIES
      ensures t == TableOf(mem[..], pgdir[..], e, PDX(va))
      ensures t == NULL ==> Paging.Granted(mem[..], d, va) == 0
      ensures t != NULL ==> Paging.Pde(mem[..], d, va) / 4096 == t
      ensures t != NULL ==> Paging.Pte(mem[..], d, va) == WordAt(mem[..], t, slot)
      ensures t != NULL ==> Paging.Granted(mem[..], d, va) == Access(WordAt(mem[..], t, slot))
      ensures OnlyPages(old(mem[..]), mem[..], d, t)
      ensures SameOutside(old(mem[..]), old(pgdir[..]), mem[..], pgdir[..], TableUse(e, PDX(va)))
      ensures SameMaps(old(mem[..]), old(pgdir[..]), mem[..], pgdir[..])
      ensures HeldPages() == old(HeldPages())
      ensures t == NULL <==> old(TableOf(mem[..], pgdir[..], e, PDX(va))) == NULL && (!create || old(free) == [])
      ensures old(TableOf(mem[..], pgdir[..], e, PDX(va))) != NULL || !create || old(free) == [] ==> Same()
      ensures old(TableOf(mem[..], pgdir[..], e, PDX(va))) == NULL && create && old(free) != [] ==>
        && t == old(free)[0] && free == old(free)[1..] && 0 <= t < pages.Length
        && pages[..] == old(pages[..])[t := PageInfo(1, NULL)]
    {
      hide Inv, WellFormed, CountsOk, KernelHalfOk, Held, SameOutside, SameMaps, SameOtherMaps, ListOk, Target,
        Holders, UserMap, MayBeMapped;
      InvParts(Unwrapped(pages[..], pend), freeList, free, mem[..], pgdir[..], reserved, kern, pend);
      var i := PDX(va);
      slot := PTX(va);
      VpnOfVa(va);
      TableInRange(mem[..], pgdir[..], reserved, e, i);
      assert WordAt(mem[..], d, i) == mem[..][d][i];
      SameIsSame(mem[..], pgdir[..], TableUse(e, i));
      if mem[d][i] == 0 && create {
        var p := CreateTable(d, i, e);
      }
      Paging.WalkIsHardware(mem[..], pgdir[..], reserved, e, va) by {
        InvParts(Unwrapped(pages[..], pend), freeList, free, mem[..], pgdir[..], reserved, kern, pend);
      }
      if mem[d][i] != 0 {
        t := PGNUM(mem[d][i]);
      } else {
        t := NULL;
      }
    }

    // The allocating branch of pgdir_walk.
    method CreateTable(d: int, i: nat, ghost e: nat) returns (p: int)
      requires Valid() && e < NENV && i < UPDES && DirOf(pgdir[..], e) == d != NULL
      requires TableOf(mem[..], pgdir[..], e, i) == NULL && 0 <= d < mem.Length && |mem[d]| == NENTRIES
      modifies this`freeList, this`free, pages, mem
      ensures Valid() && pgdir[..] == old(pgdir[..])
      ensures p == TableOf(mem[..], pgdir[..], e, i) && |mem[d]| == NENTRIES
      ensures OnlyPages(old(mem[..]), mem[..], d, p)
      ensures SameOutside(old(mem[..]), old(pgdir[..]), mem[..], pgdir[..], TableUse(e, i))
      ensures SameMaps(old(mem[..]), old(pgdir[..]), mem[..], pgdir[..])
      ensures HeldPages() == old(HeldPages())
      ensures p == NULL <==> old(free) == []
      ensures p == NULL ==> Same()
      ensures p != NULL ==>
        && p == old(free)[0] && free == old(free)[1..] && 0 <= p < pages.Length
        && pages[..] == old(pages[..])[p := PageInfo(1, NULL)]
    {
      hide Inv, WellFormed, CountsOk, KernelHalfOk, Held, SameOutside, SameMaps, SameOtherMaps, ListOk, Target,
        Holders, UserMap, MayBeMapped;
      InvParts(pages[..], freeList, free, mem[..], pgdir[..], reserved, kern, NULL);
      ghost var ps0, m0, free0, head0, dirs := pages[..], mem[..], free, freeList, pgdir[..];
      SameIsSame(m0, dirs, TableUse(e, i));
      if free != [] {
        CreateTableKeepsInv(ps0, head0, free0, m0, dirs, reserved, kern, NULL, e, i, ZEROS);
      }
      hide TableOf, SetWord;
      p := PageAlloc(true);
      if p != NULL {
        ghost var m1 := mem[..];
        pages[p] := pages[p].(ref := Succ16(pages[p].ref));
        var row: seq<Word> := mem[d];
        mem[d] := row[i := EntryWord(p, PTE_P + PTE_W + PTE_U)];
        SetWordIsUpdate(m1, d, i, EntryWord(p, PTE_P + PTE_W + PTE_U));
        assert mem[..] == SetWord(m1, d, i, EntryWord(p, PTE_P + PTE_W + PTE_U));
        assert pages[..] == ps0[p := PageInfo(1, NULL)];
      }
    }

    // The page mapped at va and its entry, or NULL.  The source tests `*pte && PTE_P`, which is
    // "nonzero"; by the invariant a nonzero entry has PTE_P.
    method PageLookup(d: int, va: nat, ghost e: nat, ghost pend: int) returns (pp: int, t: int, slot: nat)
      requires Valid'(pend) && e < NENV && DirOf(pgdir[..], e) == d != NULL && va < UTOP
      modifies this`freeList, this`free, pages, mem
      ensures Valid'(pend) && Same()
      ensures var w := PteWord(mem[..], pgdir[..], e, PDX(va), PTX(va)); pp == if w == 0 then NULL else PGNUM(w)
      ensures pp != NULL <==> PGNUM(va) in MapOf(e)
      ensures pp != NULL ==>
        && pp == MapOf(e)[PGNUM(va)].page && t == TableOf(mem[..], pgdir[..], e, PDX(va)) && slot == PTX(va)
        && 0 <= t < mem.Length && |mem[t]| == NENTRIES && MapOf(e)[PGNUM(va)].perm == mem[t][slot] % 4096
    {
      hide Inv, WellFormed, CountsOk, KernelHalfOk, Held, SameOutside, SameMaps, SameOtherMaps, ListOk, Target,
        Holders, UserMap, MayBeMapped;
      InvParts(Unwrapped(pages[..], pend), freeList, free, mem[..], pgdir[..], reserved, kern, pend);
      t, slot := PgdirWalk(d, va, false, e, pend);
      TableInRange(mem[..], pgdir[..], reserved, e, PDX(va));
      LookupInMap(mem[..], pgdir[..], e, va);
      VpnOfVa(va);
      if t == NULL || mem[t][slot] == 0 {
        pp := NULL;
      } else {
        assert mem[..][t][slot] == PteWord(mem[..], pgdir[..], e, PDX(va), PTX(va));
        pp := PGNUM(mem[t][slot]);
      }
    }

    // Unmaps va; does nothing when nothing is mapped there.
    method PageRemove(d: int, va: nat, ghost e: nat, ghost pend: int)
      requires Valid'(pend) && e < NENV && DirOf(pgdir[..], e) == d != NULL && va < UTOP
      modifies this`freeList, this`free, pages, mem
      ensures Valid'(pend) && pgdir[..] == old(pgdir[..])
      ensures SameOutside(old(mem[..]), old(pgdir[..]), mem[..], pgdir[..], PageUse(e, PDX(va), PTX(va)))
      ensures PteWord(mem[..], pgdir[..], e, PDX(va), PTX(va)) == 0
      ensures var t := TableOf(mem[..], pgdir[..], e, PDX(va)); OnlyPages(old(mem[..]), mem[..], t, t)
      ensures MapOf(e) == old(MapOf(e)) - {PGNUM(va)}
      ensures SameOtherMaps(old(mem[..]), old(pgdir[..]), mem[..], pgdir[..], e)
      ensures Held(Unwrapped(pages[..], pend), free, reserved) == old(Held(Unwrapped(pages[..], pend), free, reserved))
      ensures PGNUM(va) !in old(MapOf(e)) ==> Same()
      ensures 0 <= pend < pages.Length ==>
        pages[pend].ref == if old(There(pend, e, va)) then Pred16(old(pages[pend].ref)) else old(pages[pend].ref)
      ensures |free| >= old(|free|)
    {
      hide KernOk, KernUses, EntryWord, PGNUM, PDX, PTX, Inv, WellFormed, CountsOk, KernelHalfOk, Held, SameOutside,
        SameMaps, SameOtherMaps, ListOk, Target, Holders, UserMap, MayBeMapped;
      hide Unwrapped;
      ghost var ps0, u0 := pages[..], Unwrapped(pages[..], pend);
      UnwrappedIs(ps0, pend);
      InvParts(u0, freeList, free, mem[..], pgdir[..], reserved, kern, pend);
      var t, slot := PgdirWalk(d, va, false, e, pend);
      var pp, _, _ := PageLookup(d, va, e, pend);
      VpnOfVa(va);
      TableInRange(mem[..], pgdir[..], reserved, e, PDX(va));
      SameIsSame(mem[..], pgdir[..], PageUse(e, PDX(va), PTX(va)));
      OtherMapsChain(mem[..], pgdir[..], mem[..], pgdir[..], mem[..], pgdir[..], e);
      LookupInMap(mem[..], pgdir[..], e, va);
      if t == NULL || mem[t][slot] == 0 {
        assert PteWord(mem[..], pgdir[..], e, PDX(va), PTX(va)) == 0;
        return;
      }
      assert mem[..][t][slot] == PteWord(mem[..], pgdir[..], e, PDX(va), PTX(va));
      RemoveKeepsInv(u0, freeList, free, mem[..], pgdir[..], reserved, kern, pend, e, PDX(va), PTX(va));
      hide TableOf, SetWord, PteWord, OnlyPages;
      UnwrappedList(ps0, freeList, free, pend);
      UnwrapDecref(ps0, freeList, free, pp, pend);
      PageDecref(pp);
      ghost var m1 := mem[..];
      var row: seq<Word> := mem[t];
      mem[t] := row[slot := 0];
      SetWordIsUpdate(m1, t, slot, 0);
      SetWordOnly(m1, t, slot, 0);
      assert mem[..] == SetWord(m1, t, slot, 0);
      SameTable(m1, pgdir[..], mem[..], e, PDX(va), PTX(va));
    }

    // Maps pp at va.  The count is raised before the old mapping is removed, so re-inserting
    // a page where it already is never frees it.  perm may be any word: its page bits fall on the
    // page address.  The counts stay exact if and only if that address has them already and the
    // count fits into 16 bits.
    method PageInsert(d: int, pp: int, va: nat, perm: nat, ghost e: nat) returns (r: int)
      requires Valid() && e < NENV && DirOf(pgdir[..], e) == d != NULL && va < UTOP
      requires MayBeMapped(mem[..], pgdir[..], reserved, pp) && pp !in free && 0 <= pp < pages.Length
      modifies this`freeList, this`free, pages, mem
      ensures pgdir[..] == old(pgdir[..])
      ensures Valid() <==> r != 0 || (Overlaid(pp, perm) == pp && old(Fits(pp, e, va)))
      ensures r == 0 || r == E_NO_MEM
      ensures r == E_NO_MEM <==> old(TableOf(mem[..], pgdir[..], e, PDX(va))) == NULL && old(free) == []
      ensures r == E_NO_MEM ==> Same()
      ensures r == 0 ==> MapOf(e) == old(MapOf(e))[PGNUM(va) := Mapping(Overlaid(pp, perm), Present(perm % 4096))]
      ensures r == 0 ==>
        Paging.Frame(mem[..], d, va) == Overlaid(pp, perm) && Paging.Granted(mem[..], d, va) == Present(perm % 4096) % 8
      ensures r == 0 && old(Fits(pp, e, va)) ==> HeldPages() == old(HeldPages()) - {pp}
      ensures r == 0 ==> CountIs(pp, if Overlaid(pp, perm) == pp then 0 else 1)
      ensures r == 0 ==>
        pages[pp].ref == if old(There(pp, e, va)) then old(pages[pp].ref) else Succ16(old(pages[pp].ref))
      ensures |free| >= old(|free|) - (if old(TableOf(mem[..], pgdir[..], e, PDX(va))) == NULL then 1 else 0)
      ensures TablesKept(old(mem[..]), pgdir[..], mem[..], pgdir[..], e)
      ensures OnlyPages(old(mem[..]), mem[..], d, TableOf(mem[..], pgdir[..], e, PDX(va)))
      ensures r == 0 ==> TableOf(mem[..], pgdir[..], e, PDX(va)) != NULL
      ensures r == 0 ==> var t := old(TableOf(mem[..], pgdir[..], e, PDX(va)));
        TableOf(mem[..], pgdir[..], e, PDX(va)) == if t == NULL then old(free)[0] else t
      ensures ContentsKept(old(mem[..]), pgdir[..], mem[..])
      ensures SameOtherMaps(old(mem[..]), old(pgdir[..]), mem[..], pgdir[..], e)
    {
      hide PGNUM, PDX, PTX, WellFormed, CountsOk, KernelHalfOk, Held, SameOutside, SameMaps, SameOtherMaps, ListOk,
        Target, Holders, UserMap, MayBeMapped;
      hide Inv, TableOf, SetWord, PteWord, OnlyPages, EntryWord, Overlaid, KernOk, KernUses, TablesKept, CountIs,
        ContentsKept;
      hide Paging.Granted, Paging.Frame, Paging.Pte, Paging.Pde, Access, Present;
      InvParts(pages[..], freeList, free, mem[..], pgdir[..], reserved, kern, NULL);
      SameContents(mem[..], pgdir[..]);
      VpnOfVa(va);
      var t, slot := PgdirWalk(d, va, true, e, NULL);
      OtherMapsChain(old(mem[..]), old(pgdir[..]), mem[..], pgdir[..], mem[..], pgdir[..], e) by {
        SameIsSame(mem[..], pgdir[..], DirUse(e));
      }
      ghost var m0, dirs, m1 := old(mem[..]), pgdir[..], mem[..];
      TableUseTarget(m0, dirs, e, PDX(va));
      TablesKeptOutside(m0, dirs, m1, dirs, e, TableUse(e, PDX(va)));
      if t == NULL {
        return E_NO_MEM;
      }
      SameMapsAt(m0, dirs, m1, dirs, e);
      assert pp !in free && pages[..][pp] == old(pages[..])[pp];
      TableUseTarget(m1, dirs, e, PDX(va));
      if old(TableOf(mem[..], pgdir[..], e, PDX(va))) == NULL {
        StillMappable(m0, dirs, reserved, m1, dirs, TableUse(e, PDX(va)), pp);
      }
      InvParts(pages[..], freeList, free, m1, dirs, reserved, kern, NULL);
      Exchange(d, t, slot, pp, va, perm, e);
      PresentIsOdd(perm % 4096);
      Paging.StoreIsSeen(m1, dirs, reserved, e, va, mem[..]);
      OnlyPagesChain(m0, m1, mem[..], d, t);
      OtherMapsChain(m0, dirs, m1, dirs, mem[..], dirs, e);
      TablesKeptChain(m0, m1, mem[..], dirs, e);
      ChangesNoData(old(pages[..]), old(freeList), old(free), m0, dirs, reserved, kern, e, d, t, NULL, mem[..]);
      r := 0;
    }

    // page_insert once the table is there: the count goes up, the old mapping goes, and the entry
    // is stored.
    method Exchange(d: int, t: int, slot: nat, pp: int, va: nat, perm: nat, ghost e: nat)
      requires Valid() && e < NENV && DirOf(pgdir[..], e) == d != NULL && va < UTOP
      requires TableOf(mem[..], pgdir[..], e, PDX(va)) == t != NULL && slot == PTX(va)
      requires MayBeMapped(mem[..], pgdir[..], reserved, pp) && pp !in free && 0 <= pp < pages.Length
      modifies this`freeList, this`free, pages, mem
      ensures pgdir[..] == old(pgdir[..]) && TableOf(mem[..], pgdir[..], e, PDX(va)) == t
      ensures Valid() <==> Overlaid(pp, perm) == pp && old(Fits(pp, e, va))
      ensures MapOf(e) == old(MapOf(e))[PGNUM(va) := Mapping(Overlaid(pp, perm), Present(perm % 4096))]
      ensures old(Fits(pp, e, va)) ==> HeldPages() == old(HeldPages()) - {pp}
      ensures pages[pp].ref == if old(There(pp, e, va)) then old(pages[pp].ref) else Succ16(old(pages[pp].ref))
      ensures |free| >= old(|free|) && TablesKept(old(mem[..]), pgdir[..], mem[..], pgdir[..], e)
      ensures CountIs(pp, if Overlaid(pp, perm) == pp then 0 else 1)
      ensures OnlyPages(old(mem[..]), mem[..], t, t)
      ensures SameOtherMaps(old(mem[..]), old(pgdir[..]), mem[..], pgdir[..], e)
    {
      hide PGNUM, PDX, PTX, WellFormed, CountsOk, KernelHalfOk, Held, SameOutside, SameMaps, SameOtherMaps, ListOk,
        Target, Holders, UserMap, MayBeMapped, CountIs;
      hide Inv, TableOf, SetWord, PteWord, OnlyPages, EntryWord, Overlaid, KernOk, KernUses, Succ16, Pred16, TablesKept;
      InvParts(pages[..], freeList, free, mem[..], pgdir[..], reserved, kern, NULL);
      ghost var c, there := pages[pp].ref, There(pp, e, va);
      if there { MappedIsMappable(pages[..], freeList, free, mem[..], pgdir[..], reserved, kern, e, PGNUM(va)); }
      CountSmall(pages[..], freeList, free, mem[..], pgdir[..], reserved, kern, pp);
      Counting(c);
      VpnOfVa(va);
      ghost var m1, dirs, ps1 := mem[..], pgdir[..], pages[..];
      AnnounceKeepsInv(ps1, freeList, free, m1, dirs, reserved, kern, pp);
      pages[pp] := pages[pp].(ref := Succ16(pages[pp].ref));
      assert Unwrapped(pages[..], pp) == ps1[pp := PageInfo(ps1[pp].ref + 1, NULL)];
      PageRemove(d, va, e, pp);
      assert pages[pp].ref == if there then c else Succ16(c);
      SameTable(m1, dirs, mem[..], e, PDX(va), PTX(va));
      ghost var m2 := mem[..];
      StoreEntry(t, slot, pp, perm, e, PDX(va));
      OnlyPagesChain(m1, m2, mem[..], t, t);
      TablesKeptOutside(m1, dirs, m2, dirs, e, PageUse(e, PDX(va), PTX(va)));
      TablesKeptChain(m1, m2, mem[..], dirs, e);
      OtherMapsChain(m1, dirs, m2, dirs, mem[..], dirs, e);
    }

    // The end of page_insert: the entry for pp, whose count is already raised, is stored.
    method StoreEntry(t: int, slot: nat, pp: int, perm: nat, ghost e: nat, ghost i: nat)
      requires pp != NULL && Valid'(pp) && e < NENV && i < UPDES && slot < NENTRIES
      requires TableOf(mem[..], pgdir[..], e, i) == t != NULL && PteWord(mem[..], pgdir[..], e, i, slot) == 0
      modifies mem
      ensures 0 <= pp < pages.Length && (Valid() <==> Overlaid(pp, perm) == pp && pages[pp].ref != 0)
      ensures MapOf(e) == old(MapOf(e))[i * 1024 + slot := Mapping(Overlaid(pp, perm), Present(perm % 4096))]
      ensures pages[pp].ref != 0 ==> HeldPages() == HeldPages() - {pp}
      ensures TablesKept(old(mem[..]), pgdir[..], mem[..], pgdir[..], e)
      ensures TableOf(mem[..], pgdir[..], e, i) == t
      ensures OnlyPages(old(mem[..]), mem[..], t, t) && SameOtherMaps(old(mem[..]), pgdir[..], mem[..], pgdir[..], e)
      ensures CountIs(pp, if Overlaid(pp, perm) == pp then 0 else 1)
    {
      hide WellFormed, CountsOk, KernelHalfOk, Held, SameOutside, SameMaps, SameOtherMaps, ListOk, Target, Holders,
        UserMap;
      hide MayBeMapped, Inv, TableOf, SetWord, PteWord, OnlyPages, EntryWord, Overlaid, KernOk, KernUses;
      ghost var m2, dirs := mem[..], pgdir[..];
      ghost var u := Unwrapped(pages[..], pp);
      InvParts(u, freeList, free, m2, dirs, reserved, kern, pp);
      PendMappable(u, freeList, free, m2, dirs, reserved, kern, pp);
      TableInRange(m2, dirs, reserved, e, i);
      InsertCounts(u, freeList, free, m2, dirs, reserved, kern, pp, e, i, slot, perm);
      if pages[pp].ref != 0 {
        NotHeld(pages[..], free, reserved, pp);
      }
      if Overlaid(pp, perm) == pp && pages[pp].ref != 0 {
        InsertKeepsInv(u, freeList, free, m2, dirs, reserved, kern, pp, e, i, slot, perm);
      } else {
        BadCount(pages[..], freeList, free, SetWord(m2, t, slot, EntryWord(pp, perm)), dirs, reserved, kern, pp);
      }
      var row: seq<Word> := mem[t];
      mem[t] := row[slot := EntryWord(pp, perm)];
      SetWordIsUpdate(m2, t, slot, EntryWord(pp, perm));
      SetWordOnly(m2, t, slot, EntryWord(pp, perm));
      assert mem[..] == SetWord(m2, t, slot, EntryWord(pp, perm));
      SameTableAfterPte(m2, dirs, reserved, e, i, slot, EntryWord(pp, perm));
    }

    // Gives environment e an address space: a fresh directory whose kernel half is kern_pgdir's
    // and whose user half is empty.
    method EnvSetupVm(e: nat) returns (r: int)
      requires Valid() && e < NENV && DirOf(pgdir[..], e) == NULL
      modifies this`freeList, this`free, pages, mem, pgdir
      ensures Valid()
      ensures r == if old(free) == [] then E_NO_MEM else 0
      ensures r != 0 ==> Same()
      ensures r == 0 ==> pgdir[..] == old(pgdir[..])[e := old(free)[0]] && MapOf(e) == map[]
      ensures r == 0 ==> free == old(free)[1..] && TablesGone(mem[..], pgdir[..], e, UPDES)
      ensures SameMaps(old(mem[..]), old(pgdir[..]), mem[..], pgdir[..])
      ensures SameForOthers(old(mem[..]), old(pgdir[..]), mem[..], pgdir[..], e)
      ensures HeldPages() == old(HeldPages())
    {
      hide Inv, WellFormed, CountsOk, KernelHalfOk, Held, SameOutside, SameMaps, SameForOthers, ListOk, Target,
        Holders, UserMap, MayBeMapped, KernOk, KernUses, TablesGone, SameEverywhere, EntryWord;
      InvParts(pages[..], freeList, free, mem[..], pgdir[..], reserved, kern, NULL);
      SameIsSame(mem[..], pgdir[..], DirUse(e));
      OutsideIsOthers(mem[..], pgdir[..], mem[..], pgdir[..], DirUse(e));
      ghost var ps0, head0, free0, m0, dirs0 := pages[..], freeList, free, mem[..], pgdir[..];
      if free != [] {
        AllocKeepsInv(ps0, head0, free0, m0, dirs0, reserved, kern, NULL, ZEROS);
        SetupTables(ps0, head0, free0, m0, dirs0, reserved, kern, e, free[0], m0[free[0] := DirPage(kern, free[0])]);
        SetupKeepsInv(ps0, head0, free0, m0, dirs0, reserved, kern, e, free[0], m0[free[0] := DirPage(kern, free[0])]);
        OutsideIsOthers(m0, dirs0, m0[free[0] := DirPage(kern, free[0])], dirs0[e := free[0]], DirUse(e));
      }
      var p := PageAlloc(true);
      if p == NULL {
        return E_NO_MEM;
      }
      pgdir[e] := p;
      mem[p] := kern;
      pages[p] := pages[p].(ref := Succ16(pages[p].ref));
      var row: seq<Word> := mem[p];
      mem[p] := row[PDX(UVPT) := EntryWord(p, PTE_P + PTE_U)];
      assert pages[..] == ps0[p := PageInfo(1, NULL)];
      PresentAnyway(p);
      assert mem[..] == m0[p := DirPage(kern, p)];
      assert pgdir[..] == dirs0[e := p];
      NewDirHasNoTables(mem[..], pgdir[..], kern, e, p);
      r := 0;
    }

    // Takes everything mapped by e away from it, then its page tables, then its directory.
    method EnvFree(e: nat)
      requires Valid() && e < NENV && DirOf(pgdir[..], e) != NULL
      modifies this`freeList, this`free, pages, mem, pgdir
      ensures Valid()
      ensures pgdir[..] == old(pgdir[..])[e := NULL] && MapOf(e) == map[]
      ensures SameOtherMaps(old(mem[..]), old(pgdir[..]), mem[..], pgdir[..], e)
      ensures SameForOthers(old(mem[..]), old(pgdir[..]), mem[..], pgdir[..], e)
      ensures HeldPages() == old(HeldPages())
    {
      hide Inv, WellFormed, CountsOk, KernelHalfOk, Held, SameOutside, SameMaps, SameForOthers, SameOtherMaps, ListOk;
      hide Target, Holders, UserMap, MayBeMapped, TablesGone, EntriesGone;
      ghost var m0, dirs, h := mem[..], pgdir[..], HeldPages();
      InvParts(pages[..], freeList, free, m0, dirs, reserved, kern, NULL);
      var d := pgdir[e];
      SameIsSame(m0, dirs, DirUse(e));
      OutsideIsOthers(m0, dirs, m0, dirs, DirUse(e));
      OtherMapsChain(m0, dirs, m0, dirs, m0, dirs, e);
      assert TablesGone(m0, dirs, e, 0) by { NothingGone(m0, dirs, e, 0); }
      for pdeno := 0 to UPDES
        invariant Valid() && pgdir[..] == dirs && HeldPages() == h
        invariant TablesGone(mem[..], dirs, e, pdeno)
        invariant SameForOthers(m0, dirs, mem[..], dirs, e) && SameOtherMaps(m0, dirs, mem[..], dirs, e)
      {
        FreeTable(e, d, pdeno, m0);
      }
      InvParts(pages[..], freeList, free, mem[..], dirs, reserved, kern, NULL);
      DropDirKeepsInv(pages[..], freeList, free, mem[..], dirs, reserved, kern, e) by {
        AllGone(mem[..], dirs, e);
      }
      OutsideIsOthers(mem[..], dirs, mem[..], dirs[e := NULL], DirUse(e));
      OthersChain(m0, dirs, mem[..], dirs, mem[..], dirs[e := NULL], e);
      OtherMapsChain(m0, dirs, mem[..], dirs, mem[..], dirs[e := NULL], e);
      pgdir[e] := NULL;
      assert pgdir[..] == dirs[e := NULL];
      PageDecref(d);
    }

    // One round of env_free's outer loop: empties page table pdeno and gives it back.
    method FreeTable(e: nat, d: int, pdeno: nat, ghost m0: PhysMem)
      requires Valid() && e < NENV && pdeno < UPDES && DirOf(pgdir[..], e) == d != NULL
      requires TablesGone(mem[..], pgdir[..], e, pdeno)
      requires SameForOthers(m0, pgdir[..], mem[..], pgdir[..], e)
      requires SameOtherMaps(m0, pgdir[..], mem[..], pgdir[..], e)
      modifies this`freeList, this`free, pages, mem
      ensures Valid() && pgdir[..] == old(pgdir[..]) && HeldPages() == old(HeldPages())
      ensures TablesGone(mem[..], pgdir[..], e, pdeno + 1)
      ensures SameForOthers(m0, pgdir[..], mem[..], pgdir[..], e) && SameOtherMaps(m0, pgdir[..], mem[..], pgdir[..], e)
    {
      hide Inv, WellFormed, CountsOk, KernelHalfOk, Held, SameOutside, SameMaps, SameForOthers, SameOtherMaps, ListOk;
      hide Target, Holders, UserMap, MayBeMapped, TablesGone, EntriesGone;
      ghost var dirs, h := pgdir[..], HeldPages();
      InvParts(pages[..], freeList, free, mem[..], dirs, reserved, kern, NULL);
      TableInRange(mem[..], dirs, reserved, e, pdeno);
      PresentIsNonzero(mem[..], dirs, reserved, e, pdeno, 0);
      assert mem[..][d][pdeno] == PdeWord(mem[..], dirs, e, pdeno);
      if mem[d][pdeno] % 2 == 0 {
        NextGone(mem[..], dirs, e, pdeno);
        return;
      }
      var pt := PGNUM(mem[d][pdeno]);
      assert pt == TableOf(mem[..], dirs, e, pdeno);
      NothingGone(mem[..], dirs, e, pdeno);
      for pteno := 0 to NENTRIES
        invariant Valid() && pgdir[..] == dirs && HeldPages() == h
        invariant TablesGone(mem[..], dirs, e, pdeno) && EntriesGone(mem[..], dirs, e, pdeno, pteno)
        invariant TableOf(mem[..], dirs, e, pdeno) == pt
        invariant SameForOthers(m0, dirs, mem[..], dirs, e) && SameOtherMaps(m0, dirs, mem[..], dirs, e)
      {
        ClearEntry(e, d, pdeno, pt, pteno, m0);
      }
      InvParts(pages[..], freeList, free, mem[..], dirs, reserved, kern, NULL);
      TableInRange(mem[..], dirs, reserved, e, pdeno);
      AllEntriesGone(mem[..], dirs, e, pdeno);
      DropTableKeepsInv(pages[..], freeList, free, mem[..], dirs, reserved, kern, e, pdeno);
      ghost var m1 := mem[..];
      var row: seq<Word> := mem[d];
      mem[d] := row[pdeno := 0];
      SetWordIsUpdate(m1, d, pdeno, 0);
      assert mem[..] == SetWord(m1, d, pdeno, 0);
      AfterDropTable(m1, dirs, mem[..], e, pdeno);
      OthersChain(m0, dirs, m1, dirs, mem[..], dirs, e);
      OtherMapsChain(m0, dirs, m1, dirs, mem[..], dirs, e);
      PageDecref(pt);
    }

    // One round of the inner loop.
    method ClearEntry(e: nat, d: int, pdeno: nat, pt: int, pteno: nat, ghost m0: PhysMem)
      requires Valid() && e < NENV && pdeno < UPDES && pteno < NENTRIES && DirOf(pgdir[..], e) == d != NULL
      requires TableOf(mem[..], pgdir[..], e, pdeno) == pt != NULL
      requires TablesGone(mem[..], pgdir[..], e, pdeno) && EntriesGone(mem[..], pgdir[..], e, pdeno, pteno)
      requires SameForOthers(m0, pgdir[..], mem[..], pgdir[..], e)
      requires SameOtherMaps(m0, pgdir[..], mem[..], pgdir[..], e)
      modifies this`freeList, this`free, pages, mem
      ensures Valid() && pgdir[..] == old(pgdir[..]) && HeldPages() == old(HeldPages())
      ensures TableOf(mem[..], pgdir[..], e, pdeno) == pt
      ensures TablesGone(mem[..], pgdir[..], e, pdeno) && EntriesGone(mem[..], pgdir[..], e, pdeno, pteno + 1)
      ensures SameForOthers(m0, pgdir[..], mem[..], pgdir[..], e) && SameOtherMaps(m0, pgdir[..], mem[..], pgdir[..], e)
    {
      hide Inv, WellFormed, CountsOk, KernelHalfOk, Held, SameOutside, SameMaps, SameForOthers, SameOtherMaps, ListOk;
      hide Target, Holders, UserMap, MayBeMapped, TablesGone, EntriesGone;
      ghost var dirs, m1 := pgdir[..], mem[..];
      InvParts(pages[..], freeList, free, m1, dirs, reserved, kern, NULL);
      TableInRange(m1, dirs, reserved, e, pdeno);
      PresentIsNonzero(m1, dirs, reserved, e, pdeno, pteno);
      assert m1[pt][pteno] == PteWord(m1, dirs, e, pdeno, pteno);
      if mem[pt][pteno] % 2 == 1 {
        PartsOfPgAddr(pdeno, pteno, 0);
        PageRemove(d, PGADDR(pdeno, pteno, 0), e, NULL);
        AfterRemove(m1, dirs, mem[..], e, pdeno, pteno);
        OthersChain(m0, dirs, m1, dirs, mem[..], dirs, e);
        OtherMapsChain(m0, dirs, m1, dirs, mem[..], dirs, e);
      } else {
        SameIsSame(m1, dirs, PageUse(e, pdeno, pteno));
        AfterRemove(m1, dirs, m1, e, pdeno, pteno);
      }
    }

    // One page is free and the table for va is missing.
    ghost predicate LeaksNow(e: nat, va: nat)
      reads this, mem, pgdir
    {
      |free| == 1 && TableOf(mem[..], pgdir[..], e, PDX(va)) == NULL
    }

    // sys_page_alloc after its argument checks: a zeroed page at va.  When the page table cannot be
    // allocated the page just taken is not given back: it is then the only page leaked.
    method EnvPageAlloc(e: nat, va: nat, perm: nat) returns (r: int)
      requires Valid() && e < NENV && DirOf(pgdir[..], e) != NULL && va < UTOP
      modifies this`freeList, this`free, pages, mem
      ensures Valid() && pgdir[..] == old(pgdir[..])
      ensures r == E_INVAL <==> !PermOk(perm)
      ensures r == E_INVAL || r == E_NO_MEM || r == 0
      ensures r == E_NO_MEM <==> PermOk(perm) && (old(free) == [] || old(LeaksNow(e, va)))
      ensures r == E_INVAL || (r == E_NO_MEM && old(free) == []) ==> Same()
      ensures r == E_NO_MEM ==> MapOf(e) == old(MapOf(e)) && free == []
      ensures HeldPages() == old(HeldPages()) + (if PermOk(perm) && old(LeaksNow(e, va)) then {old(free)[0]} else {})
      ensures PermOk(perm) && old(LeaksNow(e, va)) <==> HeldPages() != old(HeldPages())
      ensures r == 0 ==>
        && old(free) != [] && MapOf(e) == old(MapOf(e))[PGNUM(va) := Mapping(old(free)[0], perm)]
        && 0 <= old(free)[0] < mem.Length && mem[old(free)[0]] == ZEROS
        && old(free)[0] < pages.Length && pages[old(free)[0]].ref == 1
        && TableOf(mem[..], pgdir[..], e, PDX(va)) != NULL && |free| >= old(|free|) - 2
      ensures r == 0 ==> Paging.Granted(mem[..], pgdir[e], va) == perm % 8
      ensures ContentsKept(old(mem[..]), pgdir[..], mem[..])
      ensures SameOtherMaps(old(mem[..]), old(pgdir[..]), mem[..], pgdir[..], e)
    {
      hide Inv, WellFormed, CountsOk, KernelHalfOk, Held, SameOutside, SameMaps, SameForOthers, SameOtherMaps, ListOk;
      hide Target, Holders, UserMap, SameEverywhere, EntryWord, Overlaid, KernOk, KernUses, TableOf, PteWord,
        Unwrapped, CountIs, MayBeMapped, Fits, ContentsKept, Paging.Granted;
      ghost var ps0, head0, free0, m0, dirs := pages[..], freeList, free, mem[..], pgdir[..];
      UnwrappedIs(ps0, NULL);
      InvParts(ps0, head0, free0, m0, dirs, reserved, kern, NULL);
      OtherMapsChain(m0, dirs, m0, dirs, m0, dirs, e) by { SameIsSame(m0, dirs, DirUse(e)); }
      if !PermOk(perm) {
        SameContents(m0, dirs);
        return E_INVAL;
      }
      if free != [] {
        AllocKeepsInv(ps0, head0, free0, m0, dirs, reserved, kern, NULL, ZEROS);
      }
      SameContents(m0, dirs);
      var p := PageAlloc(true);
      if p == NULL {
        return E_NO_MEM;
      }
      ghost var m1 := mem[..];
      UnwrappedIs(pages[..], NULL);
      SameMapsAt(m0, dirs, m1, dirs, e);
      VpnOfVa(va);
      SameTables(m0, dirs, m1, e, PDX(va));
      ChangesNoData(ps0, head0, free0, m0, dirs, reserved, kern, e, p, NULL, NULL, m1);
      r := InsertFresh(p, e, va, perm);
      OtherMapsChain(m0, dirs, m1, dirs, mem[..], dirs, e);
      ContentsChain(m0, m1, mem[..], dirs);
    }

    // page_insert of a page that is in nobody's hands.
    method InsertFresh(p: int, e: nat, va: nat, perm: nat) returns (r: int)
      requires Valid() && e < NENV && DirOf(pgdir[..], e) != NULL && va < UTOP && PermOk(perm)
      requires MayBeMapped(mem[..], pgdir[..], reserved, p) && p !in free && 0 <= p < pages.Length && pages[p].ref == 0
      modifies this`freeList, this`free, pages, mem
      ensures Valid() && pgdir[..] == old(pgdir[..])
      ensures r == E_NO_MEM || r == 0
      ensures r == E_NO_MEM <==> old(TableOf(mem[..], pgdir[..], e, PDX(va))) == NULL && old(free) == []
      ensures r == E_NO_MEM ==> Same()
      ensures r == 0 ==> MapOf(e) == old(MapOf(e))[PGNUM(va) := Mapping(p, perm)] && mem[p] == old(mem[p])
      ensures r == 0 ==> HeldPages() == old(HeldPages()) - {p}
      ensures r == 0 ==> pages[p].ref == 1 && TableOf(mem[..], pgdir[..], e, PDX(va)) != NULL
      ensures |free| >= old(|free|) - 1
      ensures r == 0 ==> Paging.Granted(mem[..], pgdir[e], va) == perm % 8
      ensures ContentsKept(old(mem[..]), pgdir[..], mem[..])
      ensures SameOtherMaps(old(mem[..]), old(pgdir[..]), mem[..], pgdir[..], e)
    {
      hide Inv, WellFormed, CountsOk, KernelHalfOk, Held, SameOutside, SameMaps, SameForOthers, SameOtherMaps, ListOk;
      hide Target, Holders, UserMap, SameEverywhere, EntryWord, Overlaid, KernOk, KernUses, TableOf, PteWord,
        Unwrapped, CountIs, MayBeMapped, ContentsKept, Paging.Granted, Paging.Frame;
      ghost var m1, dirs := mem[..], pgdir[..];
      UnwrappedIs(pages[..], NULL);
      InvParts(pages[..], freeList, free, m1, dirs, reserved, kern, NULL);
      TableInRange(m1, dirs, reserved, e, PDX(va));
      EntryWordIs(p, perm);
      r := PageInsert(pgdir[e], p, va, perm, e);
      if r == 0 {
        UnwrappedIs(pages[..], NULL);
        StructureApart(mem[..], dirs, reserved, e, va, p) by {
          InvParts(pages[..], freeList, free, mem[..], dirs, reserved, kern, NULL);
        }
        assert mem[..][p] == m1[p];
        MappedIsMappable(pages[..], freeList, free, mem[..], dirs, reserved, kern, e, PGNUM(va));
      }
    }

    // sys_page_map after its argument checks: the page at srcva of one environment also at dstva
    // of another (or of the same).  Nothing checks perm: page bits in it that the page's address
    // does not have make the entry name another page, and exactly then the invariant is lost.
    method EnvPageMap(src: nat, srcva: nat, dst: nat, dstva: nat, perm: nat) returns (r: int)
      requires Valid() && src < NENV && dst < NENV && DirOf(pgdir[..], src) != NULL && DirOf(pgdir[..], dst) != NULL
      requires srcva < UTOP && dstva < UTOP
      modifies this`freeList, this`free, pages, mem
      ensures pgdir[..] == old(pgdir[..])
      ensures r == 0 || r == E_INVAL || r == E_NO_MEM
      ensures r == E_INVAL <==>
        PGNUM(srcva) !in old(MapOf(src)) || (Writable(perm) && !Writable(old(MapOf(src))[PGNUM(srcva)].perm))
      ensures r == E_NO_MEM <==>
        r != E_INVAL && old(TableOf(mem[..], pgdir[..], dst, PDX(dstva))) == NULL && old(free) == []
      ensures r != 0 ==> Same() && Valid()
      ensures r == 0 ==>
        var p := old(MapOf(src))[PGNUM(srcva)].page;
        && p >= 0 && MapOf(dst) == old(MapOf(dst))[PGNUM(dstva) := Mapping(Overlaid(p, perm), Present(perm % 4096))]
        && 0 <= p < pages.Length && (Valid() <==> Overlaid(p, perm) == p && old(Fits(p, dst, dstva)))
        && CountIs(p, if Overlaid(p, perm) == p then 0 else 1)
        && pages[p].ref == (if old(There(p, dst, dstva)) then old(pages[p].ref) else Succ16(old(pages[p].ref)))
        && (old(Fits(p, dst, dstva)) ==> HeldPages() == old(HeldPages()))
      ensures r != 0 ==> HeldPages() == old(HeldPages())
      ensures |free| >= old(|free|) - (if old(TableOf(mem[..], pgdir[..], dst, PDX(dstva))) == NULL then 1 else 0)
      ensures TablesKept(old(mem[..]), pgdir[..], mem[..], pgdir[..], dst)
      ensures r == 0 ==> TableOf(mem[..], pgdir[..], dst, PDX(dstva)) != NULL
      ensures r == 0 ==> Paging.Granted(mem[..], pgdir[dst], dstva) == Present(perm % 4096) % 8
      ensures ContentsKept(old(mem[..]), pgdir[..], mem[..])
      ensures SameOtherMaps(old(mem[..]), old(pgdir[..]), mem[..], pgdir[..], dst)
    {
      hide Inv, WellFormed, CountsOk, KernelHalfOk, Held, SameOutside, SameMaps, SameForOthers, SameOtherMaps, ListOk;
      hide Target, Holders, UserMap, SameEverywhere, OnlyPages, MayBeMapped, EntryWord, Overlaid, KernOk, KernUses,
        ContentsKept, Paging.Granted, Paging.Frame;
      ghost var m0, dirs := mem[..], pgdir[..];
      InvParts(pages[..], freeList, free, m0, dirs, reserved, kern, NULL);
      OtherMapsChain(m0, dirs, m0, dirs, m0, dirs, dst) by { SameIsSame(m0, dirs, DirUse(dst)); }
      SameContents(m0, dirs);
      var page, t, slot := PageLookup(pgdir[src], srcva, src, NULL);
      if page == NULL {
        return E_INVAL;
      }
      assert Writable(mem[t][slot]) == Writable(MapOf(src)[PGNUM(srcva)].perm) by {
        LowBits(mem[t][slot]);
      }
      if Writable(perm) && !Writable(mem[t][slot]) {
        return E_INVAL;
      }
      MappedIsMappable(pages[..], freeList, free, mem[..], dirs, reserved, kern, src, PGNUM(srcva));
      assert HeldPages() == HeldPages() - {page} by { NotHeld(pages[..], free, reserved, page); }
      r := PageInsert(pgdir[dst], page, dstva, perm, dst);
    }

    // sys_page_unmap after its argument checks.
    method EnvPageUnmap(e: nat, va: nat)
      requires Valid() && e < NENV && DirOf(pgdir[..], e) != NULL && va < UTOP
      modifies this`freeList, this`free, pages, mem
      ensures Valid() && pgdir[..] == old(pgdir[..])
      ensures MapOf(e) == old(MapOf(e)) - {PGNUM(va)}
      ensures HeldPages() == old(HeldPages())
      ensures ContentsKept(old(mem[..]), pgdir[..], mem[..])
      ensures SameOtherMaps(old(mem[..]), old(pgdir[..]), mem[..], pgdir[..], e)
    {
      hide Inv, UserMap, SameOtherMaps, ContentsKept, PteWord, Held, SameOutside, TableOf;
      ghost var ps0, head0, free0, m0, dirs := pages[..], freeList, free, mem[..], pgdir[..];
      VpnOfVa(va);
      PageRemove(pgdir[e], va, e, NULL);
      SameTable(m0, dirs, mem[..], e, PDX(va), PTX(va));
      UnwrappedIs(ps0, NULL);
      ChangesNoData(ps0, head0, free0, m0, dirs, reserved, kern, e, TableOf(m0, dirs, e, PDX(va)), NULL, NULL, mem[..]);
    }

    // user_mem_check: whether e may access [va, va+len) with perm; if not, the first bad address.
    // The end of the range is computed in 32 bits.
    method UserMemCheck(e: nat, va: nat, len: nat, perm: nat) returns (ok: bool, bad: nat)
      requires Valid() && e < NENV && DirOf(pgdir[..], e) != NULL && va < WORDS && len < WORDS
      modifies this`freeList, this`free, pages, mem
      ensures Valid() && Same()
      ensures var lo, hi := PGNUM(va), PGNUM((va + len + PGSIZE - 1) % WORDS);
        && (ok <==> Accepted(mem[..], pgdir[..], e, va, len, perm))
        && (!ok && hi > UVPNS ==> bad == va)
        && (!ok && hi <= UVPNS ==>
              lo <= PGNUM(bad) < hi && bad == (if PGNUM(bad) == lo then va else PGNUM(bad) * PGSIZE)
              && !Allows(VpnWord(mem[..], pgdir[..], e, PGNUM(bad)), perm)
              && forall v: nat | lo <= v < PGNUM(bad) :: Allows(VpnWord(mem[..], pgdir[..], e, v), perm))
    {
      hide Inv, Allows, VpnWord, Unwrapped, KernOk, KernUses, PDX, PTX;
      var hi := (va + len + PGSIZE - 1) % WORDS / PGSIZE * PGSIZE;
      bad := va;
      if hi > UTOP {
        return false, va;
      }
      var act := va / PGSIZE * PGSIZE;
      while act < hi
        invariant act % PGSIZE == 0 && PGNUM(va) <= PGNUM(act)
        invariant act <= hi || hi <= va
        invariant Valid() && Same()
        invariant forall v: nat | PGNUM(va) <= v < PGNUM(act) :: Allows(VpnWord(mem[..], pgdir[..], e, v), perm)
      {
        var allowed := PageAllows(e, act, perm);
        if !allowed {
          return false, if act > va then act else va;
        }
        act := act + PGSIZE;
      }
      ok := true;
    }

    // The test of one page.
    method PageAllows(e: nat, va: nat, perm: nat) returns (allowed: bool)
      requires Valid() && e < NENV && DirOf(pgdir[..], e) != NULL && va < UTOP
      modifies this`freeList, this`free, pages, mem
      ensures Valid() && Same()
      ensures allowed == Allows(VpnWord(mem[..], pgdir[..], e, PGNUM(va)), perm)
    {
      hide Inv, WellFormed, CountsOk, KernelHalfOk, Held, SameOutside, SameMaps, ListOk, Target, Holders, UserMap,
        Allows, Unwrapped, KernOk, KernUses;
      UnwrappedIs(pages[..], NULL);
      InvParts(pages[..], freeList, free, mem[..], pgdir[..], reserved, kern, NULL);
      var t, slot := PgdirWalk(pgdir[e], va, false, e, NULL);
      VpnOfVa(va);
      TableInRange(mem[..], pgdir[..], reserved, e, PDX(va));
      NoneAllowed(perm);
      allowed := t != NULL && Allows(mem[t][slot], perm);
    }

    // pgdir_walk on kern_pgdir, for an address of the kernel's half.
    method KernWalk(va: nat) returns (t: int, slot: nat)
      requires Valid() && NoDirectories(pgdir[..]) && IsKernSlot(PDX(va)) && va < WORDS
      modifies this, pages, mem
      ensures Valid() && slot == PTX(va)
      ensures t == NULL <==> old(kern[PDX(va)]) == 0 && old(free) == []
      ensures t == NULL ==> kern == old(kern) && free == []
      ensures t != NULL ==> kern[PDX(va)] != 0 && t == PGNUM(kern[PDX(va)])
      ensures forall v: nat :: KernEntry(mem[..], kern, v) == KernEntry(old(mem[..]), old(kern), v)
      ensures SameMaps(old(mem[..]), pgdir[..], mem[..], pgdir[..]) && HeldPages() == old(HeldPages())
      ensures TablesAdded(old(pages[..]), old(kern), pages[..], kern)
    {
      hide Inv, WellFormed, CountsOk, KernelHalfOk, Held, SameMaps, ListOk, KernOk, KernEntry, EntryWord, KernUses;
      InvParts(pages[..], freeList, free, mem[..], pgdir[..], reserved, kern, NULL);
      SameIsSame(mem[..], pgdir[..], DirUse(0));
      ghost var ps0, m0 := pages[..], mem[..];
      var i := PDX(va);
      slot := PTX(va);
      if kern[i] == 0 {
        if free != [] {
          KernTableKeepsInv(ps0, freeList, free, m0, pgdir[..], reserved, kern, i, ZEROS);
          EntryWordParts(free[0], PTE_P + PTE_W + PTE_U);
          EntryWordIs(free[0], PTE_P + PTE_W + PTE_U);
          HookedCounts(kern, i, free[0], EntryWord(free[0], PTE_P + PTE_W + PTE_U));
        }
        var p := PageAlloc(true);
        if p == NULL {
          return NULL, slot;
        }
        pages[p] := pages[p].(ref := Succ16(pages[p].ref));
        kern := kern[i := EntryWord(p, PTE_P + PTE_W + PTE_U)];
        reserved := reserved + {p};
        assert pages[..] == ps0[p := PageInfo(1, NULL)] && mem[..] == m0[p := ZEROS];
      }
      t := PGNUM(kern[i]);
    }

    // boot_map_region, for a region of the kernel's half that nothing is mapped in: no count of a
    // mapped page changes.  With no page left for a table the source stores through NULL.
    method BootMapRegion(va: nat, size: nat, pa: nat, perm: nat) returns (ok: bool)
      requires Valid() && NoDirectories(pgdir[..]) && perm < PGSIZE
      requires va % PGSIZE == 0 && size % PGSIZE == 0 && pa % PGSIZE == 0 && va + size <= WORDS && pa + size <= WORDS
      requires forall v: nat | PGNUM(va) <= v < PGNUM(va + size) ::
        IsKernSlot(v / 1024) && KernEntry(mem[..], kern, v) == 0
      modifies this, pages, mem
      ensures Valid() && SameMaps(old(mem[..]), pgdir[..], mem[..], pgdir[..]) && HeldPages() == old(HeldPages())
      ensures TablesAdded(old(pages[..]), old(kern), pages[..], kern)
      ensures ok || free == []
      ensures ok ==> RegionMapped(old(mem[..]), old(kern), mem[..], kern, PGNUM(va), PGNUM(va + size), PGNUM(pa), perm)
    {
      hide Inv, WellFormed, CountsOk, KernelHalfOk, Held, SameMaps, ListOk, KernOk, KernEntry, EntryWord, KernUses;
      ghost var m0, kern0, lo := mem[..], kern, PGNUM(va);
      SameIsSame(m0, pgdir[..], DirUse(0));
      var i := 0;
      while i < size
        invariant 0 <= i <= size && i % PGSIZE == 0
        invariant Valid() && NoDirectories(pgdir[..]) && HeldPages() == old(HeldPages())
        invariant SameMaps(m0, pgdir[..], mem[..], pgdir[..]) && TablesAdded(old(pages[..]), kern0, pages[..], kern)
        invariant RegionMapped(m0, kern0, mem[..], kern, lo, PGNUM(va + i), PGNUM(pa), perm)
      {
        RegionPage(va, size, pa, i);
        ghost var m, ps, k := mem[..], pages[..], kern;
        ok := BootMapPage(va + i, pa + i, perm);
        MapsChain(m0, m, mem[..], pgdir[..]);
        AddedChain(old(pages[..]), kern0, ps, k, pages[..], kern);
        if !ok {
          return;
        }
        i := i + PGSIZE;
      }
      ok := true;
    }

    // One round of its loop; page_remove finds nothing mapped at va.
    method BootMapPage(va: nat, pa: nat, perm: nat) returns (ok: bool)
      requires Valid() && NoDirectories(pgdir[..]) && IsKernSlot(PDX(va)) && va < WORDS && pa < WORDS && perm < PGSIZE
      requires PGNUM(va) / 1024 == PDX(va) && PGNUM(va) % 1024 == PTX(va)
      modifies this, pages, mem
      ensures Valid() && SameMaps(old(mem[..]), pgdir[..], mem[..], pgdir[..]) && HeldPages() == old(HeldPages())
      ensures TablesAdded(old(pages[..]), old(kern), pages[..], kern)
      ensures ok || free == []
      ensures ok ==> RegionMapped(old(mem[..]), old(kern), mem[..], kern, PGNUM(va), PGNUM(va) + 1, PGNUM(pa), perm)
    {
      hide Inv, WellFormed, CountsOk, KernelHalfOk, Held, SameMaps, ListOk, KernOk, KernEntry, EntryWord, KernUses,
        TablesAdded;
      var t, slot := KernWalk(va);
      if t == NULL {
        return false;
      }
      ghost var m1, w := mem[..], EntryWord(PGNUM(pa), perm);
      KernStoreKeepsInv(pages[..], freeList, free, m1, pgdir[..], reserved, kern, PGNUM(va), w);
      var row: seq<Word> := mem[t];
      mem[t] := row[slot := EntryWord(PGNUM(pa), perm)];
      SetWordIsUpdate(m1, t, slot, EntryWord(PGNUM(pa), perm));
      assert mem[..] == SetWord(m1, t, slot, EntryWord(PGNUM(pa), perm));
      MapsChain(old(mem[..]), m1, mem[..], pgdir[..]);
      ok := true;
    }

    // The mappings of mem_init and mem_init_mp: the page records, the environments, all of memory,
    // and the stacks of the CPUs.
    method MapKernel(pagesPa: nat, pagesSize: nat, envsPa: nat, envsSize: nat, stacks: seq<nat>) returns (ok: bool)
      requires Valid() && NoDirectories(pgdir[..]) && (forall v: nat :: KernEntry(mem[..], kern, v) == 0)
      requires pagesSize % PGSIZE == 0 && pagesSize <= PTSIZE && pagesPa % PGSIZE == 0 && pagesPa + pagesSize <= WORDS
      requires envsSize % PGSIZE == 0 && envsSize <= PTSIZE && envsPa % PGSIZE == 0 && envsPa + envsSize <= WORDS
      requires |stacks| == NCPU && forall c | 0 <= c < NCPU :: stacks[c] % PGSIZE == 0 && stacks[c] + KSTKSIZE <= WORDS
      modifies this, pages, mem
      ensures Valid() && NoDirectories(pgdir[..]) && HeldPages() == old(HeldPages())
      ensures TablesAdded(old(pages[..]), old(kern), pages[..], kern)
      ensures ok || free == []
      ensures ok ==> KernelMapped(mem[..], kern, pagesPa, pagesSize, envsPa, envsSize, stacks, NCPU)
    {
      hide Inv, KernEntry, EntryWord, TablesAdded, KernUses, SameMaps, Held;
      ghost var ps0, kern0 := pages[..], kern;
      ok := BootMapRegion(UPAGES, pagesSize, pagesPa, PTE_U + PTE_P);
      if !ok {
        return;
      }
      ghost var ps1, kern1 := pages[..], kern;
      ok := BootMapRegion(UENVS, envsSize, envsPa, PTE_U + PTE_P);
      AddedChain(ps0, kern0, ps1, kern1, pages[..], kern);
      if !ok {
        return;
      }
      ghost var ps2, kern2 := pages[..], kern;
      ok := BootMapRegion(KERNBASE, 0x10000000, 0, PTE_W + PTE_P);
      AddedChain(ps0, kern0, ps2, kern2, pages[..], kern);
      if !ok {
        return;
      }
      ghost var ps3, kern3 := pages[..], kern;
      ok := MapStacks(pagesPa, pagesSize, envsPa, envsSize, stacks);
      AddedChain(ps0, kern0, ps3, kern3, pages[..], kern);
    }

    // mem_init_mp: the stack of each CPU, with a gap below it.
    method MapStacks(ghost pagesPa: nat, ghost pagesSize: nat, ghost envsPa: nat, ghost envsSize: nat, stacks: seq<nat>)
      returns (ok: bool)
      requires Valid() && NoDirectories(pgdir[..]) && pagesSize <= PTSIZE && envsSize <= PTSIZE
      requires |stacks| == NCPU && forall c | 0 <= c < NCPU :: stacks[c] % PGSIZE == 0 && stacks[c] + KSTKSIZE <= WORDS
      requires KernelMapped(mem[..], kern, pagesPa, pagesSize, envsPa, envsSize, stacks, 0)
      modifies this, pages, mem
      ensures Valid() && NoDirectories(pgdir[..]) && HeldPages() == old(HeldPages())
      ensures TablesAdded(old(pages[..]), old(kern), pages[..], kern)
      ensures ok || free == []
      ensures ok ==> KernelMapped(mem[..], kern, pagesPa, pagesSize, envsPa, envsSize, stacks, NCPU)
    {
      hide Inv, KernEntry, EntryWord, TablesAdded, KernUses, SameMaps, Held;
      ghost var ps0, kern0 := pages[..], kern;
      AddedNothing(ps0, kern0);
      ok := true;
      for c := 0 to NCPU
        invariant Valid() && NoDirectories(pgdir[..]) && HeldPages() == old(HeldPages())
        invariant TablesAdded(ps0, kern0, pages[..], kern)
        invariant KernelMapped(mem[..], kern, pagesPa, pagesSize, envsPa, envsSize, stacks, c)
      {
        ghost var m, ps, k := mem[..], pages[..], kern;
        forall v: nat | PGNUM(StackBase(c)) <= v < PGNUM(StackBase(c) + KSTKSIZE)
          ensures PGNUM(KERNBASE - PTSIZE) <= v < PGNUM(KERNBASE) && IsKernSlot(v / 1024)
          ensures StackWord(v, stacks, c) == 0
        {
          StackApart(c, v, stacks, c);
        }
        ok := BootMapRegion(StackBase(c), KSTKSIZE, stacks[c], PTE_W + PTE_P);
        AddedChain(ps0, kern0, ps, k, pages[..], kern);
        if !ok {
          return;
        }
      }
    }

    // A store by a user program through a writable mapping: whatever it writes, the page tables,
    // the counts and every address space stay as they are.
    method UserStore(e: nat, va: nat, w: Word)
      requires Valid() && e < NENV && va < UTOP && PGNUM(va) in MapOf(e) && Writable(MapOf(e)[PGNUM(va)].perm)
      modifies mem
      ensures Valid()
      ensures SameEverywhere(old(mem[..]), pgdir[..], mem[..], pgdir[..])
      ensures SameMaps(old(mem[..]), pgdir[..], mem[..], pgdir[..])
      ensures var p := old(MapOf(e))[PGNUM(va)].page;
        0 <= p < mem.Length && |old(mem[..])[p]| == NENTRIES && mem[..] == SetWord(old(mem[..]), p, PGOFF(va) / 4, w)
    {
      hide Inv, WellFormed, CountsOk, KernelHalfOk, Held, SameOutside, SameMaps, SameEverywhere, ListOk, Target,
        Holders, UserMap;
      ghost var m0, dirs := mem[..], pgdir[..];
      InvParts(pages[..], freeList, free, m0, dirs, reserved, kern, NULL);
      MappedIsMappable(pages[..], freeList, free, m0, dirs, reserved, kern, e, PGNUM(va));
      LookupInMap(m0, dirs, e, va);
      TableInRange(m0, dirs, reserved, e, PDX(va));
      VpnOfVa(va);
      var t := PGNUM(mem[pgdir[e]][PDX(va)]);
      var p := PGNUM(mem[t][PTX(va)]);
      assert p == MapOf(e)[PGNUM(va)].page;
      var row: seq<Word> := mem[p];
      StoreKeepsTables(pages[..], freeList, free, m0, dirs, reserved, kern, p, row[PGOFF(va) / 4 := w]);
      SameMapsAt(m0, dirs, m0[p := row[PGOFF(va) / 4 := w]], dirs, e);
      mem[p] := row[PGOFF(va) / 4 := w];
      SetWordIsUpdate(m0, p, PGOFF(va) / 4, w);
      assert mem[..] == SetWord(m0, p, PGOFF(va) / 4, w);
    }
  }

  lemma NewDirHasNoTables(m: PhysMem, dirs: seq<int>, kern: seq<Word>, e: nat, p: int)
    requires |kern| == NENTRIES && (forall i | 0 <= i < UPDES :: kern[i] == 0) && e < NENV && |dirs| == NENV
    requires 0 <= p < |m| && dirs[e] == p && m[p] == DirPage(kern, p)
    ensures TablesGone(m, dirs, e, UPDES)
  {
    hide EntryWord;
    forall i: nat | i < UPDES ensures TableOf(m, dirs, e, i) == NULL {
      assert m[p][i] == 0;
    }
  }

  // An example of a leak: with three pages, of which page_init keeps one back, the directory of
  // the first environment takes the second, and its first sys_page_alloc loses the third.
  method LeakExample() returns (memory: Memory, r: int)
    ensures fresh(memory) && memory.Valid() && r == E_NO_MEM
    ensures memory.MapOf(0) == map[] && memory.free == [] && |memory.HeldPages()| == 1
  {
    hide Inv, Held, UserMap, TableOf, SameMaps, SameOtherMaps, SameForOthers, FirstKern, KernEntry, KeptBack, ListOk;
    FewPages();
    memory := new Memory(3, PGNUM(EXTPHYSMEM), 0, seq(3, _ => ZEROS));
    InvParts(memory.pages[..], memory.freeList, memory.free, memory.mem[..], memory.pgdir[..], memory.reserved,
      memory.kern, NULL);
    TwoFree(memory.pages[..], memory.freeList, memory.free);
    var _ := memory.EnvSetupVm(0);
    r := memory.EnvPageAlloc(0, 0, PTE_P + PTE_U);
  }

  // An example of a count that wraps: a program allocates a page at 0 and maps it at 65535 more
  // addresses.  Its count is then 0.
  method WrapCount(memory: Memory, e: nat) returns (ghost p: int)
    requires memory.Valid() && e < NENV && DirOf(memory.pgdir[..], e) != NULL
    requires memory.MapOf(e) == map[] && |memory.free| >= 66
    modifies memory`freeList, memory`free, memory.pages, memory.mem
    ensures !memory.Valid() && 0 <= p < memory.pages.Length && memory.pages[p].ref == 0
    ensures forall v: nat | v < REF_MOD :: v in memory.MapOf(e) && memory.MapOf(e)[v].page == p
  {
    hide Inv, Held, UserMap, TableOf, SameOtherMaps, Overlaid, Memory.CountIs, EntryWord, Succ16, TablesFor, Access,
      Paging.Granted, Paging.Frame, SameForOthers;
    TablesGrow(1);
    var perm := PTE_P + PTE_U;
    var r := memory.EnvPageAlloc(e, 0, perm);
    p := memory.MapOf(e)[0].page;
    EntryWordIs(p, perm);
    ghost var dirs := memory.pgdir[..];
    for n := 1 to REF_MOD - 1
      invariant memory.Valid() && memory.pgdir[..] == dirs && 0 <= p < memory.pages.Length && memory.pages[p].ref == n
      invariant forall v: nat :: v in memory.MapOf(e) <==> v < n
      invariant forall v: nat | v < n :: memory.MapOf(e)[v].page == p
      invariant |memory.free| >= 64 - TablesFor(n)
      invariant forall i: nat | i < TablesFor(n) :: TableOf(memory.mem[..], dirs, e, i) != NULL
    {
      Counting(n);
      VpnOfVa(n * PGSIZE);
      TablesGrow(n);
      r := memory.EnvPageMap(e, 0, e, n * PGSIZE, perm);
    }
    Counting(REF_MOD - 1);
    VpnOfVa((REF_MOD - 1) * PGSIZE);
    TablesGrow(REF_MOD - 1);
    r := memory.EnvPageMap(e, 0, e, (REF_MOD - 1) * PGSIZE, perm);
  }

  // How many page tables the first n pages take.
  function TablesFor(n: nat): nat { (n + 1023) / 1024 }

  lemma TablesGrow(n: nat)
    requires 1 <= n < REF_MOD
    ensures PDX(n * PGSIZE) == n / 1024 < UPDES && TablesFor(n + 1) == n / 1024 + 1 <= 64
    ensures TablesFor(n) == if n % 1024 == 0 then n / 1024 else n / 1024 + 1
  {
    assert n * PGSIZE / 0x400000 == n / 1024;
  }

  lemma FewPages()
    ensures KeptBack(0, PGNUM(EXTPHYSMEM)) && !KeptBack(1, PGNUM(EXTPHYSMEM)) && !KeptBack(2, PGNUM(EXTPHYSMEM))
  {
  }

  lemma {:induction false} TwoFree(ps: seq<PageInfo>, head: int, free: seq<int>)
    requires ListOk(ps, head, free) && |ps| == 3 && 0 !in free && 1 in free && 2 in free
    ensures |free| == 2
  {
    var i :| 0 <= i < |free| && free[i] == 1;
    var j :| 0 <= j < |free| && free[j] == 2;
    forall k | 0 <= k < |free| ensures (free[k] == 1 && k == i) || (free[k] == 2 && k == j) {
      assert free[k] in free;
    }
  }

  // An example: page 2 mapped with page bit 1 set in perm; the entry names page 3.
  lemma PageBitsMislead()
    ensures EntryWord(2, 0x1000 + PTE_P + PTE_U) == 3 * 4096 + PTE_P + PTE_U
    ensures Overlaid(2, 0x1000 + PTE_P + PTE_U) == 3
  {
    hide Bits.BitOr;
    EntryWordParts(2, 0x1000 + PTE_P + PTE_U);
    assert Bits.Pow2(1) == 2;
    Bits.OrDisjoint(1, 1, 1);
  }

  // What user_mem_check accepts, by its 32-bit end of the range ...
  ghost predicate Accepted(m: PhysMem, dirs: seq<int>, e: nat, va: nat, len: nat, perm: nat) {
    var hi := PGNUM((va + len + PGSIZE - 1) % WORDS);
    hi <= UVPNS && forall v: nat | PGNUM(va) <= v < hi :: Allows(VpnWord(m, dirs, e, v), perm)
  }

  // ... and what it is for: every address of the range is user memory that allows the access.
  ghost predicate Accessible(m: PhysMem, dirs: seq<int>, e: nat, va: nat, len: nat, perm: nat) {
    forall a: nat | va <= a < va + len :: PGNUM(a) < UVPNS && Allows(VpnWord(m, dirs, e, PGNUM(a)), perm)
  }

  // When the end wraps around, the pages the check looks at are at most the first one.
  lemma WrappedEnd(va: nat, len: nat)
    requires va < WORDS && len < WORDS && va + len + PGSIZE > WORDS
    ensures PGNUM((va + len + PGSIZE - 1) % WORDS) <= PGNUM(va) + 1
    ensures len > 0 ==> PGNUM(va + len - 1) >= WORDS / PGSIZE - 1
  {
    var sum := va + len + PGSIZE - 1;
    assert sum % WORDS == if sum < 2 * WORDS then sum - WORDS else sum - 2 * WORDS;
  }

  // The check is right if and only if the end of the range, rounded up, fits into 32 bits, or
  // what is left of it after wrapping around is refused all the same.
  lemma {:induction false} AcceptedIff(m: PhysMem, dirs: seq<int>, e: nat, va: nat, len: nat, perm: nat)
    requires va < WORDS && 0 < len < WORDS
    ensures var lo, hi := PGNUM(va), PGNUM((va + len + PGSIZE - 1) % WORDS);
      (Accepted(m, dirs, e, va, len, perm) <==> Accessible(m, dirs, e, va, len, perm)) <==>
      (va + len + PGSIZE <= WORDS || hi > UVPNS || (hi == lo + 1 && !Allows(VpnWord(m, dirs, e, lo), perm)))
  {
    hide Allows, VpnWord;
    var lo, hi := PGNUM(va), PGNUM((va + len + PGSIZE - 1) % WORDS);
    var last := va + len - 1;
    if va + len + PGSIZE <= WORDS {
      assert PGNUM(last) == hi - 1;
      if Accessible(m, dirs, e, va, len, perm) {
        forall v: nat | lo <= v < hi ensures Allows(VpnWord(m, dirs, e, v), perm) {
          var a := if v * PGSIZE < va then va else v * PGSIZE;
          assert PGNUM(a) == v && va <= a < va + len;
        }
      }
    } else {
      WrappedEnd(va, len);
      assert PGNUM(last) >= UVPNS;
      assert !Accessible(m, dirs, e, va, len, perm);
    }
  }

  // An input: 256 MB from KERNBASE on are accepted in every state and for every access, although
  // none of them is user memory.
  lemma {:induction false} WrappedAccepted(m: PhysMem, dirs: seq<int>, e: nat, perm: nat)
    ensures Accepted(m, dirs, e, KERNBASE, 0x10000000, perm)
    ensures forall a: nat | KERNBASE <= a < KERNBASE + 0x10000000 :: PGNUM(a) >= UVPNS
  {
  }

  lemma RegionPage(va: nat, size: nat, pa: nat, i: nat)
    requires va % PGSIZE == 0 && size % PGSIZE == 0 && pa % PGSIZE == 0 && i % PGSIZE == 0 && i < size
    requires va + size <= WORDS
    ensures var v := PGNUM(va + i);
      && PGNUM(va) <= v < PGNUM(va + size) && v / 1024 == PDX(va + i) && v % 1024 == PTX(va + i)
      && PGNUM(va + i + PGSIZE) == v + 1 && PGNUM(pa + i) == PGNUM(pa) + v - PGNUM(va) && i + PGSIZE <= size
  {
  }

  // The user may read the page records and the environments, write nothing of the kernel's, and
  // not even read the rest.
  lemma {:induction false} KernelIsProtected(m: PhysMem, dirs: seq<int>, kern: seq<Word>, e: nat, d: int, la: nat,
      pagesPa: nat, pagesSize: nat, envsPa: nat, envsSize: nat, stacks: seq<nat>)
    requires Paging.HasDirectory(m, dirs, kern, e, d) && |stacks| == NCPU
    requires KernelMapped(m, kern, pagesPa, pagesSize, envsPa, envsSize, stacks, NCPU)
    requires pagesSize % PGSIZE == 0 && pagesSize <= PTSIZE && envsSize % PGSIZE == 0 && envsSize <= PTSIZE
    requires UTOP <= la < WORDS && !(UVPT <= la < UVPT + PTSIZE)
    ensures !Paging.UserMayWrite(m, d, la)
    ensures Paging.UserMayRead(m, d, la) <==>
      UPAGES <= la < UPAGES + pagesSize || UENVS <= la < UENVS + envsSize
  {
    hide KernelWord, StackWord, EntryWord, Paging.HasDirectory;
    var v := la / 4096;
    assert IsKernSlot(PDX(la)) by {
      assert la / 0x400000 < 1024;
    }
    Paging.HardwareFollowsKernel(m, dirs, kern, e, d, la);
    KernelBits(v, pagesPa, pagesSize, envsPa, envsSize, stacks);
    assert KernEntry(m, kern, v) == KernelWord(v, pagesPa, pagesSize, envsPa, envsSize, stacks, NCPU);
  }

  lemma KernelBits(v: nat, pagesPa: nat, pagesSize: nat, envsPa: nat, envsSize: nat, stacks: seq<nat>)
    requires |stacks| == NCPU
    ensures var w := KernelWord(v, pagesPa, pagesSize, envsPa, envsSize, stacks, NCPU);
      if PGNUM(UPAGES) <= v < PGNUM(UPAGES + pagesSize) || PGNUM(UENVS) <= v < PGNUM(UENVS + envsSize)
      then w % 8 == PTE_P + PTE_U else w == 0 || w % 8 == PTE_P + PTE_W
  {
    hide EntryWord, StackWord;
    FlagBits(PGNUM(pagesPa) + v - PGNUM(UPAGES));
    FlagBits(PGNUM(envsPa) + v - PGNUM(UENVS));
    FlagBits(v - PGNUM(KERNBASE));
    StackBits(v, stacks, NCPU);
  }

  lemma FlagBits(pp: int)
    ensures pp >= 0 ==> EntryWord(pp, PTE_U + PTE_P) % 8 == PTE_U + PTE_P
    ensures pp >= 0 ==> EntryWord(pp, PTE_W + PTE_P) % 8 == PTE_W + PTE_P
  {
    hide EntryWord;
    if pp >= 0 {
      EntryWordParts(pp, PTE_U + PTE_P);
      EntryWordParts(pp, PTE_W + PTE_P);
      LowFlags(EntryWord(pp, PTE_U + PTE_P));
      LowFlags(EntryWord(pp, PTE_W + PTE_P));
    }
  }

  lemma {:induction false} StackBits(v: nat, stacks: seq<nat>, n: nat)
    requires |stacks| == NCPU && n <= NCPU
    ensures StackWord(v, stacks, n) == 0 || StackWord(v, stacks, n) % 8 == PTE_P + PTE_W
  {
    hide EntryWord;
    if n > 0 {
      StackBits(v, stacks, n - 1);
      FlagBits(PGNUM(stacks[n - 1]) + v - PGNUM(StackBase(n - 1)));
    }
  }

  lemma MapsChain(m: PhysMem, m': PhysMem, m'': PhysMem, dirs: seq<int>)
    requires SameMaps(m, dirs, m', dirs) && SameMaps(m', dirs, m'', dirs)
    ensures SameMaps(m, dirs, m'', dirs)
  {
  }

  // Page numbers lo to hi - 1 are mapped to the pages from base on, and all others as before.
  ghost predicate RegionMapped(m: PhysMem, kern: seq<Word>, m': PhysMem, kern': seq<Word>, lo: nat, hi: nat,
      base: nat, perm: nat) {
    && (forall v: nat | lo <= v < hi :: KernEntry(m', kern', v) == EntryWord(base + v - lo, perm))
    && (forall v: nat | v < lo || hi <= v :: KernEntry(m', kern', v) == KernEntry(m, kern, v))
  }

  // The only counts that differ are those of pages that have become kernel page tables.
  ghost predicate TablesAdded(ps: seq<PageInfo>, kern: seq<Word>, ps': seq<PageInfo>, kern': seq<Word>) {
    && |ps'| == |ps| && (forall p | IsKernTable(kern, p) :: IsKernTable(kern', p))
    && forall p | 0 <= p < |ps| && (!IsKernTable(kern', p) || IsKernTable(kern, p)) :: ps'[p].ref == ps[p].ref
  }

  // stack_start: the stack of CPU c ends a stack and a guard gap below the one before it.
  function StackBase(c: nat): nat
    requires c < NCPU
  {
    KSTACKTOP - c * (KSTKSIZE + KSTKGAP) - KSTKSIZE
  }

  // What the kernel maps at page number v, with the stacks of the first n CPUs in place.
  function KernelWord(v: nat, pagesPa: nat, pagesSize: nat, envsPa: nat, envsSize: nat, stacks: seq<nat>, n: nat): Word
    requires |stacks| == NCPU && n <= NCPU
  {
    if PGNUM(UPAGES) <= v < PGNUM(UPAGES + pagesSize) then EntryWord(PGNUM(pagesPa) + v - PGNUM(UPAGES), PTE_U + PTE_P)
    else if PGNUM(UENVS) <= v < PGNUM(UENVS + envsSize) then EntryWord(PGNUM(envsPa) + v - PGNUM(UENVS), PTE_U + PTE_P)
    else if PGNUM(KERNBASE) <= v < 0x100000 then EntryWord(v - PGNUM(KERNBASE), PTE_W + PTE_P)
    else StackWord(v, stacks, n)
  }

  function StackWord(v: nat, stacks: seq<nat>, n: nat): Word
    requires |stacks| == NCPU && n <= NCPU
  {
    if n == 0 then 0
    else if PGNUM(StackBase(n - 1)) <= v < PGNUM(StackBase(n - 1) + KSTKSIZE)
    then EntryWord(PGNUM(stacks[n - 1]) + v - PGNUM(StackBase(n - 1)), PTE_W + PTE_P)
    else StackWord(v, stacks, n - 1)
  }

  ghost predicate KernelMapped(m: PhysMem, kern: seq<Word>, pagesPa: nat, pagesSize: nat, envsPa: nat, envsSize: nat,
                               stacks: seq<nat>, n: nat)
    requires |stacks| == NCPU && n <= NCPU
  {
    forall v: nat :: KernEntry(m, kern, v) == KernelWord(v, pagesPa, pagesSize, envsPa, envsSize, stacks, n)
  }

  lemma AddedChain(ps: seq<PageInfo>, kern: seq<Word>, ps': seq<PageInfo>, kern': seq<Word>, ps'': seq<PageInfo>,
      kern'': seq<Word>)
    requires TablesAdded(ps, kern, ps', kern') && TablesAdded(ps', kern', ps'', kern'')
    ensures TablesAdded(ps, kern, ps'', kern'')
  {
  }

  lemma AddedNothing(ps: seq<PageInfo>, kern: seq<Word>)
    ensures TablesAdded(ps, kern, ps, kern)
  {
  }

  // The stacks lie in the 4 MB below KERNBASE, each wholly below the one before.
  lemma {:induction false} StackApart(n: nat, v: nat, stacks: seq<nat>, k: nat)
    requires n < NCPU && |stacks| == NCPU && k <= n
    requires PGNUM(StackBase(n)) <= v < PGNUM(StackBase(n) + KSTKSIZE)
    ensures PGNUM(KERNBASE - PTSIZE) <= v < PGNUM(KERNBASE) && IsKernSlot(v / 1024) && StackWord(v, stacks, k) == 0
  {
    if k > 0 {
      StackApart(n, v, stacks, k - 1);
    }
  }

  lemma EmptyList(ps: seq<PageInfo>)
    requires forall p | 0 <= p < |ps| :: ps[p].link == NULL
    ensures ListOk(ps, NULL, [])
  {
  }

  lemma NobodysDirectory(dirs: seq<int>)
    requires forall e | 0 <= e < |dirs| :: dirs[e] == NULL
    ensures NoDirectories(dirs)
  {
  }

  lemma CountSmall(ps: seq<PageInfo>, head: int, free: seq<int>, m: PhysMem, dirs: seq<int>, reserved: set<int>,
      kern: seq<Word>, p: int)
    requires Inv(ps, head, free, m, dirs, reserved, kern, NULL) && 0 <= p < |ps|
    ensures ps[p].ref < REF_MOD
  {
  }

  lemma UnwrappedIs(ps: seq<PageInfo>, pend: int)
    ensures |Unwrapped(ps, pend)| == |ps| && forall p | 0 <= p < |ps| && p != pend :: Unwrapped(ps, pend)[p] == ps[p]
    ensures 0 <= pend < |ps| ==> Unwrapped(ps, pend)[pend].link == ps[pend].link && Unwrapped(ps, pend)[pend].ref != 0
    ensures pend == NULL ==> Unwrapped(ps, pend) == ps
  {
  }

  lemma {:induction false} UnwrappedList(ps: seq<PageInfo>, head: int, free: seq<int>, pend: int)
    requires ListOk(Unwrapped(ps, pend), head, free)
    ensures ListOk(ps, head, free)
  {
    forall k | 0 <= k < |free| ensures ps[free[k]] == PageInfo(0, After(free, k)) {
      assert Unwrapped(ps, pend)[free[k]] == PageInfo(0, After(free, k));
    }
  }

  // page_decref does to the count what it does to the true one, and frees the page just then.
  lemma {:induction false} UnwrapDecref(ps: seq<PageInfo>, head: int, free: seq<int>, q: int, pend: int)
    requires 0 <= q < |ps| && (0 <= pend < |ps| ==> ps[pend].ref < REF_MOD)
    requires var u := Unwrapped(ps, pend); 1 <= u[q].ref <= REF_MOD && (q == pend ==> u[q].ref >= 2)
    requires q != pend ==> ps[q].ref < REF_MOD
    ensures var u := Unwrapped(ps, pend);
      && ps[q].ref < REF_MOD && (ps[q].ref == 1 <==> u[q].ref == 1) && DecrefFree(ps, free, q) == DecrefFree(u, free, q)
      && Unwrapped(DecrefPages(ps, head, q), pend) == DecrefPages(u, head, q)
      && (0 <= pend < |ps| ==> DecrefPages(ps, head, q)[pend].ref < REF_MOD)
  {
  }

  lemma PendMappable(ps: seq<PageInfo>, head: int, free: seq<int>, m: PhysMem, dirs: seq<int>, reserved: set<int>,
                     kern: seq<Word>, pend: int)
    requires Inv(ps, head, free, m, dirs, reserved, kern, pend) && pend != NULL
    ensures 0 <= pend < |ps| && ps[pend].ref >= 1
  {
  }

  lemma BadCount(ps: seq<PageInfo>, head: int, free: seq<int>, m: PhysMem, dirs: seq<int>, reserved: set<int>,
      kern: seq<Word>, p: int)
    requires 0 <= p < |ps| && ps[p].ref != |Holders(m, dirs, p)| + |KernUses(kern, p)|
    ensures !Inv(ps, head, free, m, dirs, reserved, kern, NULL)
  {
  }

  lemma LowBits(w: nat)
    ensures Writable(w) == Writable(w % 4096)
  {
    assert w / 2 % 2 == (w % 4096) / 2 % 2;
  }

  lemma NotHeld(ps: seq<PageInfo>, free: seq<int>, reserved: set<int>, p: int)
    requires 0 <= p < |ps| && ps[p].ref >= 1
    ensures Held(ps, free, reserved) == Held(ps, free, reserved) - {p}
  {
  }

  // The page mapped at va is neither e's directory nor the table that maps it.
  lemma {:induction false} StructureApart(m: PhysMem, dirs: seq<int>, reserved: set<int>, e: nat, va: nat, p: int)
    requires WellFormed(m, dirs, reserved) && e < NENV && va < UTOP
    requires PGNUM(va) in UserMap(m, dirs, e) && UserMap(m, dirs, e)[PGNUM(va)].page == p
    ensures p != DirOf(dirs, e) && p != TableOf(m, dirs, e, PDX(va))
  {
    LookupInMap(m, dirs, e, va);
    VpnOfVa(va);
    var u := PageUse(e, PDX(va), PTX(va));
    assert IsSite(u) && Target(m, dirs, u) == p;
    assert IsSite(DirUse(e)) && Target(m, dirs, DirUse(e)) == DirOf(dirs, e);
    assert IsSite(TableUse(e, PDX(va))) && Target(m, dirs, TableUse(e, PDX(va))) == TableOf(m, dirs, e, PDX(va));
  }

  lemma VpnOfVa(va: nat)
    requires va < UTOP
    ensures PGNUM(va) == PDX(va) * 1024 + PTX(va) < UVPNS && PDX(va) < UPDES && PTX(va) < NENTRIES
    ensures PGNUM(va) / 1024 == PDX(va) && PGNUM(va) % 1024 == PTX(va)
  {
    var q := va / 4096;
    assert va / 0x400000 == q / 1024 < UPDES;
  }

  lemma {:induction false} TableInRange(m: PhysMem, dirs: seq<int>, reserved: set<int>, e: nat, i: nat)
    requires WellFormed(m, dirs, reserved) && e < NENV && i < UPDES
    ensures DirOf(dirs, e) != NULL ==> 0 <= DirOf(dirs, e) < |m| && |m[DirOf(dirs, e)]| == NENTRIES
    ensures TableOf(m, dirs, e, i) != NULL ==>
      0 <= TableOf(m, dirs, e, i) < |m| && |m[TableOf(m, dirs, e, i)]| == NENTRIES
  {
    assert IsSite(TableUse(e, i)) && Target(m, dirs, TableUse(e, i)) == TableOf(m, dirs, e, i);
    assert IsSite(DirUse(e)) && Target(m, dirs, DirUse(e)) == DirOf(dirs, e);
  }

  lemma SameMapsAt(m: PhysMem, dirs: seq<int>, m': PhysMem, dirs': seq<int>, e: nat)
    requires SameMaps(m, dirs, m', dirs') && e < NENV
    ensures UserMap(m', dirs', e) == UserMap(m, dirs, e)
  {
  }

  lemma SameContents(m: PhysMem, dirs: seq<int>)
    ensures ContentsKept(m, dirs, m)
  {
  }

  // From here on the environments may map more, but not less.
  lemma {:induction false} ContentsChain(m: PhysMem, m': PhysMem, m'': PhysMem, dirs: seq<int>)
    requires SameMaps(m, dirs, m', dirs) && ContentsKept(m, dirs, m') && ContentsKept(m', dirs, m'')
    ensures ContentsKept(m, dirs, m'')
  {
    hide UserMap;
    assert forall e: nat | e < NENV :: UserMap(m', dirs, e) == UserMap(m, dirs, e);
  }

  lemma SameTables(m: PhysMem, dirs: seq<int>, m': PhysMem, e: nat, i: nat)
    requires SameEverywhere(m, dirs, m', dirs) && e < NENV && i < UPDES
    ensures TableOf(m', dirs, e, i) == TableOf(m, dirs, e, i)
  {
    assert IsSite(TableUse(e, i)) && Target(m', dirs, TableUse(e, i)) == Target(m, dirs, TableUse(e, i));
  }

  lemma TableUseTarget(m: PhysMem, dirs: seq<int>, e: nat, i: nat)
    ensures Target(m, dirs, TableUse(e, i)) == TableOf(m, dirs, e, i)
  {
  }

  lemma {:induction false} SameTable(m: PhysMem, dirs: seq<int>, m': PhysMem, e: nat, i: nat, j: nat)
    requires SameOutside(m, dirs, m', dirs, PageUse(e, i, j)) && e < NENV && i < UPDES
    ensures TableOf(m', dirs, e, i) == TableOf(m, dirs, e, i)
  {
    assert IsSite(TableUse(e, i)) && Target(m', dirs, TableUse(e, i)) == Target(m, dirs, TableUse(e, i));
  }

  // Storing an entry of a table leaves the directory entry that names the table.
  lemma {:induction false} SameTableAfterPte(m: PhysMem, dirs: seq<int>, reserved: set<int>, e: nat, i: nat, j: nat,
      w: Word)
    requires WellFormed(m, dirs, reserved) && e < NENV && i < UPDES && j < NENTRIES && TableOf(m, dirs, e, i) != NULL
    ensures 0 <= TableOf(m, dirs, e, i) < |m|
    ensures TableOf(SetWord(m, TableOf(m, dirs, e, i), j, w), dirs, e, i) == TableOf(m, dirs, e, i)
    ensures TablesKept(m, dirs, SetWord(m, TableOf(m, dirs, e, i), j, w), dirs, e)
  {
    WritePte(m, dirs, reserved, e, i, j, w);
  }

  // The page tables that e has it keeps.
  ghost predicate TablesKept(m: PhysMem, dirs: seq<int>, m': PhysMem, dirs': seq<int>, e: nat) {
    forall i: nat | i < UPDES && TableOf(m, dirs, e, i) != NULL :: TableOf(m', dirs', e, i) != NULL
  }

  lemma {:induction false} TablesKeptOutside(m: PhysMem, dirs: seq<int>, m': PhysMem, dirs': seq<int>, e: nat, s: Site)
    requires SameOutside(m, dirs, m', dirs', s) && e < NENV
    requires s.PageUse? || (s.TableUse? && Target(m, dirs, s) == NULL) || (m' == m && dirs' == dirs)
    ensures TablesKept(m, dirs, m', dirs', e)
  {
    forall i: nat | i < UPDES && TableOf(m, dirs, e, i) != NULL ensures TableOf(m', dirs', e, i) != NULL {
      assert IsSite(TableUse(e, i)) && Target(m, dirs, TableUse(e, i)) == TableOf(m, dirs, e, i);
      assert Target(m', dirs', TableUse(e, i)) == TableOf(m', dirs', e, i);
    }
  }

  lemma TablesKeptChain(m: PhysMem, m': PhysMem, m'': PhysMem, dirs: seq<int>, e: nat)
    requires TablesKept(m, dirs, m', dirs, e) && TablesKept(m', dirs, m'', dirs, e)
    ensures TablesKept(m, dirs, m'', dirs, e)
  {
  }

  lemma {:induction false} LookupInMap(m: PhysMem, dirs: seq<int>, e: nat, va: nat)
    requires va < UTOP
    ensures PGNUM(va) in UserMap(m, dirs, e) <==> PteWord(m, dirs, e, PDX(va), PTX(va)) != 0
    ensures PGNUM(va) in UserMap(m, dirs, e) ==>
      var w := PteWord(m, dirs, e, PDX(va), PTX(va));
      UserMap(m, dirs, e)[PGNUM(va)] == Mapping(PGNUM(w), w % 4096)
  {
    VpnOfVa(va);
  }
}
