/**
  Address arithmetic of 32-bit two-level paging (sched/inc/mmu.h, sched/inc/memlayout.h,
  sched/kern/pmap.h).  Machine words are naturals below 2^32.  The macros of the source
  are bit expressions; here they are division and remainder, and the lemmas of this
  module show that the two readings agree.
*/
module Bits {
  function BitAnd(x: nat, y: nat): nat {
    if x == 0 || y == 0 then 0
    else (if x % 2 == 1 && y % 2 == 1 then 1 else 0) + 2 * BitAnd(x / 2, y / 2)
  }

  function BitOr(x: nat, y: nat): nat
    decreases x + y
  {
    if x == 0 && y == 0 then 0
    else (if x % 2 == 1 || y % 2 == 1 then 1 else 0) + 2 * BitOr(x / 2, y / 2)
  }

  function Pow2(k: nat): (r: nat)
    ensures r >= 1
  {
    if k == 0 then 1 else 2 * Pow2(k - 1)
  }

  lemma Powers()
    ensures Pow2(10) == 0x400 && Pow2(12) == 0x1000 && Pow2(22) == 0x400000
  {
    assert Pow2(4) == 16;
    assert Pow2(7) == 128;
    assert Pow2(10) == 0x400;
    assert Pow2(12) == 0x1000;
    assert Pow2(15) == 0x8000;
    assert Pow2(18) == 0x40000;
    assert Pow2(20) == 0x100000;
    assert Pow2(22) == 0x400000;
  }

  // Masking with k low ones keeps the part below 2^k.
  lemma {:induction false} AndMask(q: nat, r: nat, k: nat)
    requires r < Pow2(k)
    ensures BitAnd(q * Pow2(k) + r, Pow2(k) - 1) == r
  {
    if k > 0 {
      var h := Pow2(k - 1);
      var c := q * Pow2(k);
      assert c == 2 * (q * h);
      AndMask(q, r / 2, k - 1);
      assert (c + r) / 2 == q * h + r / 2 && (c + r) % 2 == r % 2;
      assert (2 * h - 1) / 2 == h - 1 && (2 * h - 1) % 2 == 1;
    }
  }

  // An "or" of a multiple of 2^k and a number below 2^k is their sum.
  lemma {:induction false} OrDisjoint(a: nat, b: nat, k: nat)
    requires b < Pow2(k)
    ensures BitOr(a * Pow2(k), b) == a * Pow2(k) + b
  {
    if k == 0 {
      OrZero(a);
    } else {
      var h := Pow2(k - 1);
      var c := a * Pow2(k);
      assert c == 2 * (a * h);
      if c != 0 || b != 0 {
        OrDisjoint(a, b / 2, k - 1);
        assert c / 2 == a * h && c % 2 == 0;
      }
    }
  }

  lemma {:induction false} OrCommutes(a: nat, b: nat)
    ensures BitOr(a, b) == BitOr(b, a)
    decreases a + b
  {
    if a != 0 || b != 0 {
      OrCommutes(a / 2, b / 2);
    }
  }

  // An "or" works on the parts above and below bit k separately.
  lemma {:induction false} OrSplit(x: nat, y: nat, a: nat, b: nat, k: nat)
    requires a < Pow2(k) && b < Pow2(k)
    ensures BitOr(x * Pow2(k) + a, y * Pow2(k) + b) == BitOr(x, y) * Pow2(k) + BitOr(a, b)
    decreases k
  {
    hide BitOr, Pow2;
    NextPower(k);
    if k == 0 {
      OrZero(0);
    } else {
      var h := Pow2(k - 1);
      OrSplit(x, y, a / 2, b / 2, k - 1);
      OrDoubled(x * h, a, y * h, b, BitOr(x, y) * h);
      Doubled(x, h);
      Doubled(y, h);
      Doubled(BitOr(x, y), h);
    }
  }

  lemma NextPower(k: nat)
    ensures Pow2(k) == if k == 0 then 1 else 2 * Pow2(k - 1)
  {
  }

  lemma Doubled(x: nat, h: nat)
    ensures x * (2 * h) == 2 * (x * h)
  {
  }

  // One digit more.
  lemma {:induction false} OrDoubled(x: nat, a: nat, y: nat, b: nat, z: nat)
    requires BitOr(x + a / 2, y + b / 2) == z + BitOr(a / 2, b / 2)
    ensures BitOr(2 * x + a, 2 * y + b) == 2 * z + BitOr(a, b)
  {
    assert (2 * x + a) / 2 == x + a / 2 && (2 * y + b) / 2 == y + b / 2;
    assert x + a / 2 == 0 && y + b / 2 == 0 ==> z == 0;
  }

  lemma {:induction false} OrZero(a: nat)
    ensures BitOr(a, 0) == a
    decreases a
  {
    if a != 0 {
      OrZero(a / 2);
    }
  }

  // Setting the lowest bit.
  lemma OrOne(a: nat)
    ensures BitOr(a, 1) == if a % 2 == 1 then a else a + 1
  {
    OrZero(a / 2);
    assert BitOr(a / 2, 1 / 2) == a / 2;
  }

  // ---------- single bits ----------

  // Digit k of the binary numeral.
  predicate Bit(x: nat, k: nat) { if k == 0 then x % 2 == 1 else Bit(x / 2, k - 1) }

  lemma BitZero(x: nat)
    ensures Bit(x, 0) <==> x % 2 == 1
  {
  }

  lemma BitNext(x: nat, k: nat)
    ensures Bit(x, k + 1) <==> Bit(x / 2, k)
  {
  }

  // x has every bit of y.
  ghost predicate Contains(x: nat, y: nat) { forall k: nat | Bit(y, k) :: Bit(x, k) }

  // An "and" gives back its second operand exactly when the first has all its bits.
  lemma {:induction false} AndContains(x: nat, y: nat)
    ensures BitAnd(x, y) == y <==> Contains(x, y)
    decreases y
  {
    hide Bit;
    if y == 0 {
      forall k: nat ensures !Bit(y, k) {
        ZeroBit(k);
      }
    } else {
      hide Contains;
      AndContains(x / 2, y / 2);
      AndHalves(x, y);
      BitZero(x);
      BitZero(y);
      if Contains(x, y) {
        ContainsHalves(x, y);
      } else if (Bit(y, 0) ==> Bit(x, 0)) && Contains(x / 2, y / 2) {
        HalvesContain(x, y);
      }
    }
  }

  lemma {:induction false} ContainsHalves(x: nat, y: nat)
    requires Contains(x, y)
    ensures (Bit(y, 0) ==> Bit(x, 0)) && Contains(x / 2, y / 2)
  {
    hide Bit;
    forall k: nat | Bit(y / 2, k) ensures Bit(x / 2, k) {
      BitNext(y, k);
      BitNext(x, k);
    }
  }

  lemma {:induction false} HalvesContain(x: nat, y: nat)
    requires (Bit(y, 0) ==> Bit(x, 0)) && Contains(x / 2, y / 2)
    ensures Contains(x, y)
  {
    hide Bit;
    forall k: nat | Bit(y, k) ensures Bit(x, k) {
      if k > 0 {
        BitNext(y, k - 1);
        BitNext(x, k - 1);
      }
    }
  }

  lemma {:induction false} ZeroBit(k: nat)
    ensures !Bit(0, k)
  {
    if k > 0 { ZeroBit(k - 1); }
  }

  lemma AndHalves(x: nat, y: nat)
    ensures BitAnd(x, y) == (if x % 2 == 1 && y % 2 == 1 then 1 else 0) + 2 * BitAnd(x / 2, y / 2)
  {
  }

  lemma {:induction false} LowBits(x: nat)
    ensures (Bit(x, 0) <==> x % 2 == 1) && (Bit(x, 1) <==> x / 2 % 2 == 1) && (Bit(x, 2) <==> x / 4 % 2 == 1)
    ensures x / 8 % 64 == 0 <==> !(Bit(x, 3) || Bit(x, 4) || Bit(x, 5) || Bit(x, 6) || Bit(x, 7) || Bit(x, 8))
  {
    hide Bit;
    BitZero(x);
    BitNext(x, 0);
    BitNext(x, 1);
    BitNext(x / 2, 0);
    BitZero(x / 2);
    BitZero(x / 2 / 2);
    assert x / 2 / 2 == x / 4;
    BitFrom3(x, 0);
    BitFrom3(x, 1);
    BitFrom3(x, 2);
    BitFrom3(x, 3);
    BitFrom3(x, 4);
    BitFrom3(x, 5);
    SixBits(x / 8);
  }

  lemma BitFrom3(x: nat, k: nat)
    ensures Bit(x, k + 3) <==> Bit(x / 8, k)
  {
    hide Bit;
    BitNext(x, k + 2);
    BitNext(x / 2, k + 1);
    BitNext(x / 2 / 2, k);
    assert x / 2 / 2 / 2 == x / 8;
  }

  lemma SixBits(y: nat)
    ensures y % 64 == 0 <==> !(Bit(y, 0) || Bit(y, 1) || Bit(y, 2) || Bit(y, 3) || Bit(y, 4) || Bit(y, 5))
  {
    hide Bit;
    var z := y / 8;
    BitFrom3(y, 0);
    BitFrom3(y, 1);
    BitFrom3(y, 2);
    ThreeBits(y);
    ThreeBits(z);
    assert y % 64 == 0 <==> y % 8 == 0 && z % 8 == 0;
  }

  lemma ThreeBits(y: nat)
    ensures y % 8 == 0 <==> !(Bit(y, 0) || Bit(y, 1) || Bit(y, 2))
  {
    hide Bit;
    BitZero(y);
    BitNext(y, 0);
    BitNext(y, 1);
    BitNext(y / 2, 0);
    BitZero(y / 2);
    BitZero(y / 2 / 2);
    assert y % 8 == y % 2 + 2 * (y / 2 % 2) + 4 * (y / 2 / 2 % 2);
  }

  lemma {:induction false} NoHighBit(x: nat, n: nat, k: nat)
    requires x < Pow2(n) && n <= k
    ensures !Bit(x, k)
  {
    if n == 0 {
      ZeroBit(k);
    } else {
      NoHighBit(x / 2, n - 1, k - 1);
    }
  }

  lemma {:induction false} HighBit(x: nat) returns (k: nat)
    requires x >= 4096
    ensures k >= 12 && Bit(x, k)
    decreases x
  {
    hide Bit;
    k := TopBit(x, 12);
  }

  lemma {:induction false} TopBit(x: nat, n: nat) returns (k: nat)
    requires x >= Pow2(n)
    ensures k >= n && Bit(x, k)
    decreases x
  {
    if n == 0 {
      if x % 2 == 1 {
        k := 0;
      } else {
        k := TopBit(x / 2, 0);
        BitNext(x, k);
        k := k + 1;
      }
    } else {
      k := TopBit(x / 2, n - 1);
      BitNext(x, k);
      k := k + 1;
    }
  }

  lemma {:induction false} SetLowest(x: nat, k: nat)
    ensures Bit(if x % 2 == 1 then x else x + 1, k) <==> k == 0 || Bit(x, k)
  {
    var y := if x % 2 == 1 then x else x + 1;
    if k == 0 {
      BitZero(y);
    } else {
      BitNext(x, k - 1);
      BitNext(y, k - 1);
      assert y / 2 == x / 2;
    }
  }
}

module Mmu {
  import opened Bits

  const PGSIZE := 4096
  const NENTRIES := 1024             // NPDENTRIES and NPTENTRIES
  const PTE_P := 1
  const PTE_W := 2
  const PTE_U := 4
  const UTOP := 0xeec00000
  const UENVS := 0xeec00000
  const UPAGES := 0xef000000
  const UVPT := 0xef400000
  const KERNBASE := 0xf0000000
  const KSTACKTOP := KERNBASE
  const KSTKSIZE := 0x8000
  const KSTKGAP := 0x8000
  const PTSIZE := 0x400000
  const NCPU := 8
  const IOPHYSMEM := 0x0A0000
  const EXTPHYSMEM := 0x100000
  const MPENTRY_PADDR := 0x7000

  function PGNUM(la: nat): nat { la / 4096 }
  function PDX(la: nat): nat { la / 0x400000 % 1024 }
  function PTX(la: nat): nat { la / 4096 % 1024 }
  function PGOFF(la: nat): nat { la % 4096 }
  function PGADDR(d: nat, t: nat, o: nat): nat { d * 0x400000 + t * 4096 + o }
  function Page2Pa(pp: nat): nat { pp * 4096 }

  // The entry word page2pa(pp) | perm | PTE_P.
  function Present(perm: nat): nat { if perm % 2 == 1 then perm else perm + 1 }
  function EntryWord(pp: nat, perm: nat): nat { BitOr(BitOr(Page2Pa(pp), perm), PTE_P) }

  // The page such an entry names when perm is any word: its page bits fall on the page address.
  function Overlaid(pp: nat, perm: nat): nat { BitOr(pp, perm / 4096) }

  lemma {:induction false} MacrosAreMasks(la: nat)
    ensures PDX(la) == BitAnd(la / 0x400000, 0x3FF)
    ensures PTX(la) == BitAnd(la / 0x1000, 0x3FF)
    ensures PGOFF(la) == BitAnd(la, 0xFFF)
  {
    Powers();
    AndMask(la / 0x400000 / 1024, PDX(la), 10);
    AndMask(la / 0x1000 / 1024, PTX(la), 10);
    AndMask(la / 0x1000, PGOFF(la), 12);
  }

  // PGADDR glues together what PDX, PTX and PGOFF take apart ...
  lemma {:induction false} PgAddrOfParts(la: nat)
    requires la < 0x1_0000_0000
    ensures PGADDR(PDX(la), PTX(la), PGOFF(la)) == la
  {
    var q := la / 4096;
    assert la / 0x400000 == q / 1024 < 1024;
  }

  // ... and back.
  lemma {:induction false} PartsOfPgAddr(d: nat, t: nat, o: nat)
    requires d < 1024 && t < 1024 && o < 4096
    ensures PDX(PGADDR(d, t, o)) == d && PTX(PGADDR(d, t, o)) == t && PGOFF(PGADDR(d, t, o)) == o
    ensures PGNUM(PGADDR(d, t, o)) == d * 1024 + t
  {
    var a := PGADDR(d, t, o);
    assert a / 4096 == d * 1024 + t;
    assert a / 0x400000 == d;
  }

  lemma {:induction false} PgAddrIsOr(d: nat, t: nat, o: nat)
    requires d < 1024 && t < 1024 && o < 4096
    ensures PGADDR(d, t, o) == BitOr(BitOr(d * 0x400000, t * 0x1000), o)
  {
    Powers();
    OrDisjoint(d, t * 0x1000, 22);
    OrDisjoint(d * 1024 + t, o, 12);
  }

  lemma {:induction false} EntryWordParts(pp: nat, perm: nat)
    ensures PGNUM(EntryWord(pp, perm)) == Overlaid(pp, perm)
    ensures EntryWord(pp, perm) % 4096 == Present(perm % 4096)
    ensures EntryWord(pp, perm) != 0 && EntryWord(pp, perm) % 2 == 1
  {
    hide BitOr;
    Powers();
    var h, l := perm / 4096, perm % 4096;
    OrSplit(pp, h, 0, l, 12);
    OrZero(l);
    OrCommutes(0, l);
    var w := Overlaid(pp, perm) * 4096 + l;
    assert Page2Pa(pp) == pp * Pow2(12) + 0 && perm == h * Pow2(12) + l;
    assert BitOr(Page2Pa(pp), perm) == w;
    OrOne(w);
    assert w % 4096 == l && w / 4096 == Overlaid(pp, perm);
  }

  // With permission bits only, page and permissions are simply put together.
  lemma {:induction false} EntryWordIs(pp: nat, perm: nat)
    requires perm < 4096
    ensures Overlaid(pp, perm) == pp && EntryWord(pp, perm) == Page2Pa(pp) + Present(perm)
  {
    hide BitOr;
    OrZero(pp);
    EntryWordParts(pp, perm);
    assert perm / 4096 == 0;
  }

  // The entry of a page table in a directory.
  lemma {:induction false} TableFlags(pp: nat)
    ensures EntryWord(pp, PTE_P + PTE_W + PTE_U) % 8 == PTE_P + PTE_W + PTE_U
  {
    hide EntryWord, Overlaid;
    EntryWordParts(pp, PTE_P + PTE_W + PTE_U);
    LowFlags(EntryWord(pp, PTE_P + PTE_W + PTE_U));
  }

  lemma LowFlags(w: nat)
    ensures w % 4096 % 8 == w % 8 && w % 8 % 2 == w % 2
  {
    assert w == w / 4096 * 512 * 8 + w % 4096;
  }

  // PTE_P is in every entry anyway.
  lemma {:induction false} PresentAnyway(pp: nat)
    ensures EntryWord(pp, PTE_P + PTE_U) == EntryWord(pp, PTE_U)
  {
    hide EntryWord, Overlaid;
    EntryWordIs(pp, PTE_P + PTE_U);
    EntryWordIs(pp, PTE_U);
  }
}
