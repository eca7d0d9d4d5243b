/**
  What the hardware makes of the page tables: for a directory and a linear address, the page that
  two-level translation arrives at, and the access it grants there.  A bit of access is granted
  when the directory entry and the table entry both have it.
*/
module Paging {
  import opened Mmu
  import opened PageSites
  import opened PageInvariant
  import Bits

  function Pde(m: PhysMem, d: int, la: nat): Word { WordAt(m, d, la / 0x400000 % 1024) }

  function Pte(m: PhysMem, d: int, la: nat): Word { WordAt(m, Pde(m, d, la) / 4096, la / 4096 % 1024) }

  function Frame(m: PhysMem, d: int, la: nat): nat { Pte(m, d, la) / 4096 }

  // PTE_P, PTE_W and PTE_U as granted; without PTE_P there is no access at all.
  function Granted(m: PhysMem, d: int, la: nat): nat {
    var access := Bits.BitAnd(Pte(m, d, la) % 8, Pde(m, d, la) % 8);
    if access % 2 == 1 then access else 0
  }

  predicate UserMayRead(m: PhysMem, d: int, la: nat) { Granted(m, d, la) / 4 % 2 == 1 }

  predicate UserMayWrite(m: PhysMem, d: int, la: nat) { UserMayRead(m, d, la) && Granted(m, d, la) / 2 % 2 == 1 }

  // With all three bits in the directory entry, the table entry decides.
  lemma {:induction false} TableDecides(m: PhysMem, d: int, la: nat)
    requires Pde(m, d, la) % 8 == PTE_P + PTE_W + PTE_U
    ensures Granted(m, d, la) == if Pte(m, d, la) % 2 == 1 then Pte(m, d, la) % 8 else 0
  {
    hide Pte, Pde, Bits.BitAnd;
    AndAll(Pte(m, d, la) % 8);
    LowFlags(Pte(m, d, la));
  }

  lemma AndAll(x: nat)
    requires x < 8
    ensures Bits.BitAnd(x, PTE_P + PTE_W + PTE_U) == x
  {
    assert Bits.Pow2(3) == 8;
    Bits.AndMask(0, x, 3);
  }

  // What the map of an environment says of one page.
  lemma MapHas(m: PhysMem, dirs: seq<int>, e: nat, v: nat)
    requires v < UVPNS
    ensures var w, um := VpnWord(m, dirs, e, v), UserMap(m, dirs, e);
      (v in um <==> w != 0) && (w != 0 ==> um[v].page == w / 4096 && um[v].perm == w % 4096)
  {
    hide VpnWord;
  }

  // A user address: the hardware finds the page of the environment's map and grants exactly the
  // permissions recorded there; where the map has nothing it grants nothing.
  lemma {:induction false} HardwareFollowsMap(m: PhysMem, dirs: seq<int>, reserved: set<int>, e: nat, la: nat)
    requires WellFormed(m, dirs, reserved) && e < NENV && DirOf(dirs, e) != NULL && la < UTOP
    ensures var d, um, v := DirOf(dirs, e), UserMap(m, dirs, e), la / 4096;
      if v in um then Frame(m, d, la) == um[v].page && Granted(m, d, la) == um[v].perm % 8 && um[v].perm % 2 == 1
      else Granted(m, d, la) == 0
  {
    hide WellFormed, UserMap, Granted;
    var d, i, j := DirOf(dirs, e), PDX(la), PTX(la);
    UserAddress(la);
    MapHas(m, dirs, e, la / 4096);
    EntriesOk(m, dirs, reserved, e, i, j);
    assert Pde(m, d, la) == PdeWord(m, dirs, e, i);
    if Pde(m, d, la) == 0 {
      NothingGranted(m, d, la);
      assert VpnWord(m, dirs, e, la / 4096) == 0;
    } else {
      assert Pte(m, d, la) == PteWord(m, dirs, e, i, j) == VpnWord(m, dirs, e, la / 4096);
      TableDecides(m, d, la);
      LowFlags(Pte(m, d, la));
    }
  }

  // The slot that pgdir_walk finds is the one the hardware uses, and nothing above it takes access away.
  lemma {:induction false} WalkIsHardware(m: PhysMem, dirs: seq<int>, reserved: set<int>, e: nat, la: nat)
    requires WellFormed(m, dirs, reserved) && e < NENV && DirOf(dirs, e) != NULL && la < UTOP
    ensures var d, t := DirOf(dirs, e), TableOf(m, dirs, e, PDX(la));
      if t == NULL then Granted(m, d, la) == 0
      else
        && Pde(m, d, la) / 4096 == t && Pte(m, d, la) == WordAt(m, t, PTX(la))
        && Granted(m, d, la) == if Pte(m, d, la) % 2 == 1 then Pte(m, d, la) % 8 else 0
  {
    hide WellFormed;
    var d := DirOf(dirs, e);
    UserAddress(la);
    EntriesOk(m, dirs, reserved, e, PDX(la), PTX(la));
    assert Pde(m, d, la) == PdeWord(m, dirs, e, PDX(la));
    if Pde(m, d, la) == 0 {
      NothingGranted(m, d, la);
    } else {
      TableDecides(m, d, la);
    }
  }

  // An entry stored in a table is what the hardware sees, whatever page it names.
  lemma {:induction false} StoreIsSeen(m: PhysMem, dirs: seq<int>, reserved: set<int>, e: nat, la: nat, m': PhysMem)
    requires WellFormed(m, dirs, reserved) && e < NENV && DirOf(dirs, e) != NULL && la < UTOP
    requires var t := TableOf(m, dirs, e, PDX(la)); t != NULL && OnlyPages(m, m', t, t)
    requires PGNUM(la) in UserMap(m', dirs, e) && UserMap(m', dirs, e)[PGNUM(la)].perm % 2 == 1
    ensures var d, x := DirOf(dirs, e), UserMap(m', dirs, e)[PGNUM(la)];
      Frame(m', d, la) == x.page && Granted(m', d, la) == x.perm % 8
  {
    hide WellFormed, UserMap, Granted;
    var d, t := DirOf(dirs, e), TableOf(m, dirs, e, PDX(la));
    UserAddress(la);
    MapHas(m', dirs, e, la / 4096);
    EntriesOk(m, dirs, reserved, e, PDX(la), PTX(la));
    DirectoryApart(m, dirs, reserved, e, PDX(la));
    assert Pde(m', d, la) == Pde(m, d, la) == PdeWord(m, dirs, e, PDX(la)) == PdeWord(m', dirs, e, PDX(la));
    assert Pte(m', d, la) == VpnWord(m', dirs, e, la / 4096);
    TableDecides(m', d, la);
    LowFlags(Pte(m', d, la));
  }

  lemma DirectoryApart(m: PhysMem, dirs: seq<int>, reserved: set<int>, e: nat, i: nat)
    requires WellFormed(m, dirs, reserved) && e < NENV && i < UPDES && TableOf(m, dirs, e, i) != NULL
    ensures 0 <= DirOf(dirs, e) < |m| && 0 <= TableOf(m, dirs, e, i) < |m| && DirOf(dirs, e) != TableOf(m, dirs, e, i)
  {
    assert IsSite(DirUse(e)) && Target(m, dirs, DirUse(e)) == DirOf(dirs, e);
    assert IsSite(TableUse(e, i)) && Target(m, dirs, TableUse(e, i)) == TableOf(m, dirs, e, i);
  }

  lemma NothingGranted(m: PhysMem, d: int, la: nat)
    requires Pde(m, d, la) == 0
    ensures Granted(m, d, la) == 0
  {
  }

  lemma UserAddress(la: nat)
    requires la < UTOP
    ensures PDX(la) < UPDES && PTX(la) < NENTRIES && la / 4096 < UVPNS
    ensures la / 4096 / 1024 == PDX(la) && la / 4096 % 1024 == PTX(la)
  {
    assert la / 0x400000 == la / 4096 / 1024;
  }

  lemma EntriesOk(m: PhysMem, dirs: seq<int>, reserved: set<int>, e: nat, i: nat, j: nat)
    requires WellFormed(m, dirs, reserved) && e < NENV && i < UPDES && j < NENTRIES
    ensures PdeWord(m, dirs, e, i) != 0 ==> PdeWord(m, dirs, e, i) % 8 == PTE_P + PTE_W + PTE_U
    ensures PteWord(m, dirs, e, i, j) != 0 ==> PteWord(m, dirs, e, i, j) % 2 == 1
  {
  }

  // ---------- above UTOP ----------

  ghost predicate HasDirectory(m: PhysMem, dirs: seq<int>, kern: seq<Word>, e: nat, d: int) {
    && e < NENV && d == DirOf(dirs, e) && 0 <= d < |m|
    && |kern| == NENTRIES && KernelHalfOk(m, dirs, kern) && exists r :: KernOk(kern, |m|, r)
  }

  // Every environment has the kernel's mappings, with the access of the kernel's table entries.
  lemma {:induction false} HardwareFollowsKernel(m: PhysMem, dirs: seq<int>, kern: seq<Word>, e: nat, d: int, la: nat)
    requires HasDirectory(m, dirs, kern, e, d) && la < 0x1_0000_0000 && IsKernSlot(PDX(la))
    ensures var w := KernEntry(m, kern, la / 4096);
      if w % 2 == 1 then Frame(m, d, la) == w / 4096 && Granted(m, d, la) == w % 8 else Granted(m, d, la) == 0
  {
    var i := PDX(la);
    assert la / 0x400000 == la / 4096 / 1024 == i;
    assert WordAt(m, DirOf(dirs, e), i) == KernWord(kern, DirOf(dirs, e), i);
    hide KernelHalfOk;
    if kern[i] == 0 {
      NothingGranted(m, d, la);
    } else {
      assert Pte(m, d, la) == KernEntry(m, kern, la / 4096);
      TableDecides(m, d, la);
    }
  }

  // The directory's entry for itself.
  lemma {:induction false} SelfEntry(m: PhysMem, dirs: seq<int>, kern: seq<Word>, e: nat, d: int)
    requires HasDirectory(m, dirs, kern, e, d)
    ensures WordAt(m, d, PDX(UVPT)) == EntryWord(d, PTE_U)
    ensures EntryWord(d, PTE_U) / 4096 == d && EntryWord(d, PTE_U) % 8 == PTE_P + PTE_U
  {
    hide EntryWord, KernOk, Bits.BitOr;
    assert WordAt(m, DirOf(dirs, e), PDX(UVPT)) == KernWord(kern, DirOf(dirs, e), PDX(UVPT));
    EntryWordParts(d, PTE_U);
    EntryWordIs(d, PTE_U);
    LowFlags(EntryWord(d, PTE_U));
  }

  // uvpt: what a program reads as word v of the self map is the table entry of page number v ...
  lemma {:induction false} UvptReadsEntries(m: PhysMem, dirs: seq<int>, kern: seq<Word>, e: nat, d: int, v: nat)
    requires HasDirectory(m, dirs, kern, e, d) && v < 0x10_0000
    ensures (UVPT + 4 * v) % 4096 / 4 == v % 1024
    ensures WordAt(m, Frame(m, d, UVPT + 4 * v), v % 1024) == Pte(m, d, v * 4096)
  {
    var la := UVPT + 4 * v;
    SelfEntry(m, dirs, kern, e, d);
    SelfAddress(v);
    hide EntryWord;
  }

  // ... uvpd, in the middle of it, is the directory ...
  lemma {:induction false} UvpdReadsDirectory(m: PhysMem, dirs: seq<int>, kern: seq<Word>, e: nat, d: int, i: nat)
    requires HasDirectory(m, dirs, kern, e, d) && i < 1024
    ensures (UVPD + 4 * i) % 4096 / 4 == i && WordAt(m, Frame(m, d, UVPD + 4 * i), i) == WordAt(m, d, i)
  {
    hide EntryWord, HasDirectory, PDX, Frame;
    var v := UVPT / 4096 + i;
    UvptReadsEntries(m, dirs, kern, e, d, v);
    SelfEntry(m, dirs, kern, e, d);
    UvpdAddress(i);
  }

  // (UVPT + (UVPT >> 12) * 4)
  const UVPD := UVPT + UVPT / 4096 * 4

  lemma UvpdAddress(i: nat)
    requires i < 1024
    ensures var v := UVPT / 4096 + i;
      v < 0x10_0000 && UVPT + 4 * v == UVPD + 4 * i && v % 1024 == i && PDX(UVPT) == v * 4096 / 0x400000 % 1024
      && v * 4096 / 4096 % 1024 == i
  {
  }

  // ... and nothing in it may be written.
  lemma {:induction false} SelfMapReadOnly(m: PhysMem, dirs: seq<int>, kern: seq<Word>, e: nat, d: int, la: nat)
    requires HasDirectory(m, dirs, kern, e, d) && UVPT <= la < UVPT + PTSIZE
    ensures !UserMayWrite(m, d, la)
  {
    SelfEntry(m, dirs, kern, e, d);
    hide EntryWord;
    assert la / 0x400000 % 1024 == PDX(UVPT);
    NoWriteBit(Pte(m, d, la) % 8);
  }

  lemma SelfAddress(v: nat)
    requires v < 0x10_0000
    ensures var la := UVPT + 4 * v;
      la / 0x400000 % 1024 == PDX(UVPT) && la / 4096 % 1024 == v / 1024 && la % 4096 / 4 == v % 1024
    ensures v * 4096 / 0x400000 % 1024 == v / 1024 && v * 4096 / 4096 % 1024 == v % 1024
  {
  }

  lemma NoWriteBit(x: nat)
    requires x < 8
    ensures Bits.BitAnd(x, PTE_P + PTE_U) / 2 % 2 == 0
  {
  }
}
