/**
  What a page's reference count counts.  A "site" is one place of the kernel's data that
  names a physical page: an env_pgdir field, a user-range directory entry, or a user-range
  page-table entry.  Everything here is a function of physical memory (a sequence of pages
  of 1024 words) and of the env_pgdir fields (page numbers, NULL when unset).
*/
module PageSites {
  import opened Mmu

  const NULL := -1
  const NENV := 1024
  const UPDES := 955            // PDX(UTOP): directory slots of the user range
  const UVPNS := 977920         // UTOP / PGSIZE

  type Word = nat
  type PhysMem = seq<seq<Word>>

  datatype Site = DirUse(e: nat) | TableUse(e: nat, i: nat) | PageUse(e: nat, i: nat, j: nat)

  // One page-frame mapping as the hardware sees it: page number and permission bits.
  datatype Mapping = Mapping(page: int, perm: nat)

  ghost predicate Shape(m: PhysMem, dirs: seq<int>) {
    && |dirs| == NENV
    && forall p {:trigger m[p]} | 0 <= p < |m| :: |m[p]| == NENTRIES
  }

  function WordAt(m: PhysMem, p: int, i: nat): Word {
    if 0 <= p < |m| && i < |m[p]| then m[p][i] else 0
  }

  function SetWord(m: PhysMem, p: int, i: nat, w: Word): (m': PhysMem)
    requires 0 <= p < |m| && i < |m[p]|
  {
    var c: seq<Word> := m[p];
    m[p := c[i := w]]
  }

  lemma SetWordIsUpdate(m: PhysMem, p: int, i: nat, w: Word)
    requires 0 <= p < |m| && i < |m[p]|
    ensures var c: seq<Word> := m[p]; SetWord(m, p, i, w) == m[p := c[i := w]]
  {
  }

  // The word stored in the page-table structure at a directory or table site.
  function DirOf(dirs: seq<int>, e: nat): int {
    if e < |dirs| then dirs[e] else NULL
  }

  function PdeWord(m: PhysMem, dirs: seq<int>, e: nat, i: nat): Word {
    if i < UPDES then WordAt(m, DirOf(dirs, e), i) else 0
  }

  function TableOf(m: PhysMem, dirs: seq<int>, e: nat, i: nat): int {
    var w := PdeWord(m, dirs, e, i);
    if w == 0 then NULL else PGNUM(w)
  }

  function PteWord(m: PhysMem, dirs: seq<int>, e: nat, i: nat, j: nat): Word {
    WordAt(m, TableOf(m, dirs, e, i), j)
  }

  // The page a site refers to, or NULL.
  function Target(m: PhysMem, dirs: seq<int>, s: Site): int {
    match s
    case DirUse(e) => DirOf(dirs, e)
    case TableUse(e, i) => TableOf(m, dirs, e, i)
    case PageUse(e, i, j) =>
      var w := PteWord(m, dirs, e, i, j);
      if w == 0 then NULL else PGNUM(w)
  }

  predicate IsSite(s: Site) {
    match s
    case DirUse(e) => e < NENV
    case TableUse(e, i) => e < NENV && i < UPDES
    case PageUse(e, i, j) => e < NENV && i < UPDES && j < NENTRIES
  }

  ghost function AllSites(): (r: set<Site>)
    ensures forall s :: s in r <==> IsSite(s)
  {
    (set e: nat | e < NENV :: DirUse(e))
    + (set e: nat, i: nat | e < NENV && i < UPDES :: TableUse(e, i))
    + (set e: nat, i: nat, j: nat | e < NENV && i < UPDES && j < NENTRIES :: PageUse(e, i, j))
  }

  // The sites that refer to page p: pp_ref must be their number.
  ghost function Holders(m: PhysMem, dirs: seq<int>, p: int): (r: set<Site>)
    ensures forall s :: s in r <==> IsSite(s) && Target(m, dirs, s) == p
  {
    set s | s in AllSites() && Target(m, dirs, s) == p
  }

  ghost predicate IsStructure(s: Site) { !s.PageUse? }

  /**
    The page tables are well formed: every reference is to an existing page that is not
    reserved; a page used as a directory or as a table has no other reference at all (so
    none is ever mapped as user data, and no two tables overlap); nonzero entries have
    PTE_P set, and those of directories also PTE_W and PTE_U.
  */
  ghost predicate WellFormed(m: PhysMem, dirs: seq<int>, reserved: set<int>) {
    && Shape(m, dirs)
    && (forall s | IsSite(s) && Target(m, dirs, s) != NULL ::
          0 <= Target(m, dirs, s) < |m| && Target(m, dirs, s) !in reserved)
    && (forall s, s' | IsSite(s) && IsSite(s') && IsStructure(s)
            && Target(m, dirs, s) == Target(m, dirs, s') && Target(m, dirs, s) != NULL :: s == s')
    && (forall e: nat, i: nat | e < NENV && i < UPDES && PdeWord(m, dirs, e, i) != 0 ::
          PdeWord(m, dirs, e, i) % 8 == PTE_P + PTE_W + PTE_U)
    && (forall e: nat, i: nat, j: nat | e < NENV && i < UPDES && j < NENTRIES && PteWord(m, dirs, e, i, j) != 0 ::
          PteWord(m, dirs, e, i, j) % 2 == 1)
  }

  function VpnWord(m: PhysMem, dirs: seq<int>, e: nat, v: nat): Word {
    PteWord(m, dirs, e, v / 1024, v % 1024)
  }

  // The address space of environment e: a partial map from page number to mapping.
  ghost function UserMap(m: PhysMem, dirs: seq<int>, e: nat): map<nat, Mapping> {
    map v: nat | v < UVPNS && VpnWord(m, dirs, e, v) != 0
      :: Mapping(PGNUM(VpnWord(m, dirs, e, v)), VpnWord(m, dirs, e, v) % 4096)
  }

  // ---------- how the count follows a change of one site ----------

  ghost function Uses(m: PhysMem, dirs: seq<int>, s: Site, p: int): nat {
    if Target(m, dirs, s) == p then 1 else 0
  }

  lemma CountChange<T>(h: set<T>, h': set<T>, s: T)
    requires h' - {s} == h - {s}
    ensures |h'| == |h| - (if s in h then 1 else 0) + (if s in h' then 1 else 0)
  {
    assert h == if s in h then (h - {s}) + {s} else h - {s};
    assert h' == if s in h' then (h' - {s}) + {s} else h' - {s};
  }

  lemma {:induction false} RetargetOneAt(m: PhysMem, dirs: seq<int>, m': PhysMem, dirs': seq<int>, s: Site, p: int)
    requires IsSite(s)
    requires forall s' | IsSite(s') && s' != s :: Target(m', dirs', s') == Target(m, dirs, s')
    ensures |Holders(m', dirs', p)| == |Holders(m, dirs, p)| - Uses(m, dirs, s, p) + Uses(m', dirs', s, p)
  {
    var h, h' := Holders(m, dirs, p), Holders(m', dirs', p);
    forall s' | s' != s ensures s' in h <==> s' in h' {
    }
    CountChange(h, h', s);
  }

  lemma SameTargets(m: PhysMem, dirs: seq<int>, m': PhysMem, dirs': seq<int>)
    requires SameEverywhere(m, dirs, m', dirs')
    ensures forall p :: Holders(m', dirs', p) == Holders(m, dirs, p)
  {
  }

  lemma HeldOnce(m: PhysMem, dirs: seq<int>, reserved: set<int>, s: Site)
    requires WellFormed(m, dirs, reserved) && IsSite(s) && IsStructure(s) && Target(m, dirs, s) != NULL
    ensures Holders(m, dirs, Target(m, dirs, s)) == {s}
  {
  }

  // ---------- single-word updates of the structure ----------

  // Writing a page that is neither a directory nor a table moves no reference and no mapping.
  lemma {:induction false} WriteElsewhere(m: PhysMem, dirs: seq<int>, reserved: set<int>, q: int, c: seq<Word>)
    requires WellFormed(m, dirs, reserved)
    requires 0 <= q < |m| && |c| == NENTRIES
    requires forall s | IsSite(s) && IsStructure(s) :: Target(m, dirs, s) != q
    ensures var m' := m[q := c];
      && WellFormed(m', dirs, reserved)
      && SameEverywhere(m, dirs, m', dirs)
      && SameMaps(m, dirs, m', dirs)
  {
    var m' := m[q := c];
    forall e: nat, i: nat | e < NENV && i < UPDES
      ensures PdeWord(m', dirs, e, i) == PdeWord(m, dirs, e, i)
      ensures TableOf(m', dirs, e, i) == TableOf(m, dirs, e, i)
      ensures forall j: nat :: PteWord(m', dirs, e, i, j) == PteWord(m, dirs, e, i, j)
    {
      assert Target(m, dirs, DirUse(e)) != q;
      assert Target(m, dirs, TableUse(e, i)) != q;
    }
    forall s | IsSite(s) ensures Target(m', dirs, s) == Target(m, dirs, s) {
      match s
      case DirUse(e) =>
      case TableUse(e, i) =>
      case PageUse(e, i, j) =>
    }
    forall e: nat | e < NENV ensures UserMap(m', dirs, e) == UserMap(m, dirs, e) {
      forall v: nat | v < UVPNS ensures VpnWord(m', dirs, e, v) == VpnWord(m, dirs, e, v) {
        assert v / 1024 < UPDES;
      }
    }
  }

  // Writing one page-table entry.
  lemma {:induction false} WritePte(m: PhysMem, dirs: seq<int>, reserved: set<int>, e: nat, i: nat, j: nat, w: Word)
    requires WellFormed(m, dirs, reserved)
    requires e < NENV && i < UPDES && j < NENTRIES && TableOf(m, dirs, e, i) != NULL
    ensures var t := TableOf(m, dirs, e, i);
      && 0 <= t < |m|
      && var m' := SetWord(m, t, j, w);
      && Shape(m', dirs)
      && (forall e': nat, i': nat | e' < NENV && i' < UPDES :: PdeWord(m', dirs, e', i') == PdeWord(m, dirs, e', i'))
      && (forall e': nat, i': nat, j': nat | e' < NENV && i' < UPDES && j' < NENTRIES ::
            PteWord(m', dirs, e', i', j') == if e' == e && i' == i && j' == j then w else PteWord(m, dirs, e', i', j'))
  {
    var s := TableUse(e, i);
    assert IsSite(s) && Target(m, dirs, s) == TableOf(m, dirs, e, i);
    var t := TableOf(m, dirs, e, i);
    var m' := SetWord(m, t, j, w);
    forall e': nat, i': nat | e' < NENV && i' < UPDES
      ensures PdeWord(m', dirs, e', i') == PdeWord(m, dirs, e', i')
      ensures forall j': nat | j' < NENTRIES ::
        PteWord(m', dirs, e', i', j') == if e' == e && i' == i && j' == j then w else PteWord(m, dirs, e', i', j')
    {
      assert Target(m, dirs, DirUse(e')) != t;
      if TableOf(m, dirs, e', i') == t {
        assert Target(m, dirs, TableUse(e', i')) == t;
      }
    }
  }

  // Writing one directory entry of the user range.
  lemma {:induction false} WritePde(m: PhysMem, dirs: seq<int>, reserved: set<int>, e: nat, i: nat, w: Word)
    requires WellFormed(m, dirs, reserved)
    requires e < NENV && i < UPDES && DirOf(dirs, e) != NULL
    ensures var d := DirOf(dirs, e);
      && 0 <= d < |m|
      && var m' := SetWord(m, d, i, w);
      && Shape(m', dirs)
      && (forall e': nat, i': nat | e' < NENV && i' < UPDES ::
            PdeWord(m', dirs, e', i') == if e' == e && i' == i then w else PdeWord(m, dirs, e', i'))
      && (forall e': nat, i': nat, j': nat | e' < NENV && i' < UPDES && j' < NENTRIES && (e', i') != (e, i) ::
            PteWord(m', dirs, e', i', j') == PteWord(m, dirs, e', i', j'))
  {
    var d := DirOf(dirs, e);
    assert IsSite(DirUse(e)) && Target(m, dirs, DirUse(e)) == d;
    var m' := SetWord(m, d, i, w);
    forall e': nat, i': nat | e' < NENV && i' < UPDES
      ensures PdeWord(m', dirs, e', i') == if e' == e && i' == i then w else PdeWord(m, dirs, e', i')
      ensures forall j': nat | j' < NENTRIES && (e', i') != (e, i) ::
        PteWord(m', dirs, e', i', j') == PteWord(m, dirs, e', i', j')
    {
      if DirOf(dirs, e') == d {
        assert Target(m, dirs, DirUse(e')) == d;
      }
      assert Target(m, dirs, TableUse(e', i')) != d;
    }
  }

  // ---------- the five structural steps, with their effect on sites and address spaces ----------

  ghost predicate MayBeMapped(m: PhysMem, dirs: seq<int>, reserved: set<int>, p: int) {
    && 0 <= p < |m| && p !in reserved
    && forall s | IsSite(s) && IsStructure(s) :: Target(m, dirs, s) != p
  }

  ghost predicate SameOutside(m: PhysMem, dirs: seq<int>, m': PhysMem, dirs': seq<int>, s: Site) {
    forall s' | IsSite(s') && s' != s :: Target(m', dirs', s') == Target(m, dirs, s')
  }

  // Contents of all pages but a and b are the same.
  ghost predicate OnlyPages(m: PhysMem, m': PhysMem, a: int, b: int) {
    |m'| == |m| && forall q | 0 <= q < |m| && q != a && q != b :: m'[q] == m[q]
  }

  lemma OnlyPagesChain(m0: PhysMem, m1: PhysMem, m2: PhysMem, a: int, b: int)
    requires OnlyPages(m0, m1, a, b) && (OnlyPages(m1, m2, b, b) || OnlyPages(m1, m2, a, b))
    ensures OnlyPages(m0, m2, a, b)
  {
  }

  lemma SetWordOnly(m: PhysMem, p: int, i: nat, w: Word)
    requires 0 <= p < |m| && i < |m[p]|
    ensures OnlyPages(m, SetWord(m, p, i, w), p, p)
  {
  }

  ghost predicate SameEverywhere(m: PhysMem, dirs: seq<int>, m': PhysMem, dirs': seq<int>) {
    forall s | IsSite(s) :: Target(m', dirs', s) == Target(m, dirs, s)
  }

  ghost predicate SameMaps(m: PhysMem, dirs: seq<int>, m': PhysMem, dirs': seq<int>) {
    forall e: nat | e < NENV :: UserMap(m', dirs', e) == UserMap(m, dirs, e)
  }

  ghost predicate SameOtherMaps(m: PhysMem, dirs: seq<int>, m': PhysMem, dirs': seq<int>, e: nat) {
    forall e': nat | e' < NENV && e' != e :: UserMap(m', dirs', e') == UserMap(m, dirs, e')
  }

  lemma OtherMapsChain(m: PhysMem, dirs: seq<int>, m': PhysMem, dirs': seq<int>, m'': PhysMem, dirs'': seq<int>, e: nat)
    requires SameOtherMaps(m, dirs, m', dirs', e) || SameMaps(m, dirs, m', dirs')
    requires SameOtherMaps(m', dirs', m'', dirs'', e) || SameMaps(m', dirs', m'', dirs'')
    ensures SameOtherMaps(m, dirs, m'', dirs'', e)
  {
  }

  lemma SameIsSame(m: PhysMem, dirs: seq<int>, s: Site)
    ensures SameOutside(m, dirs, m, dirs, s) && SameMaps(m, dirs, m, dirs)
  {
  }

  // The address space of e with page number v set to entry word w (unset when w is 0).
  ghost function MapWith(um: map<nat, Mapping>, v: nat, w: Word): map<nat, Mapping> {
    if w == 0 then um - {v} else um[v := Mapping(PGNUM(w), w % 4096)]
  }

  // PTEs equal except at (e, i, j): the maps follow.
  lemma {:induction false} MapsFollowPte(m: PhysMem, dirs: seq<int>, m': PhysMem, e: nat, i: nat, j: nat, w: Word)
    requires e < NENV && i < UPDES && j < NENTRIES
    requires forall e': nat, i': nat, j': nat | e' < NENV && i' < UPDES && j' < NENTRIES ::
      PteWord(m', dirs, e', i', j') == if e' == e && i' == i && j' == j then w else PteWord(m, dirs, e', i', j')
    ensures forall e': nat | e' < NENV && e' != e :: UserMap(m', dirs, e') == UserMap(m, dirs, e')
    ensures UserMap(m', dirs, e) == MapWith(UserMap(m, dirs, e), i * 1024 + j, w)
  {
    forall e': nat, v: nat | e' < NENV && v < UVPNS
      ensures VpnWord(m', dirs, e', v) == if e' == e && v == i * 1024 + j then w else VpnWord(m, dirs, e', v)
    {
      SplitVpn(v, i, j);
    }
    MapFollowsWord(m, dirs, m', e, i * 1024 + j, w);
    forall e': nat | e' < NENV && e' != e ensures UserMap(m', dirs, e') == UserMap(m, dirs, e') {
      SameWordsSameMap(m, dirs, m', dirs, e');
    }
  }

  lemma {:induction false} MapFollowsWord(m: PhysMem, dirs: seq<int>, m': PhysMem, e: nat, v0: nat, w: Word)
    requires v0 < UVPNS
    requires forall v: nat | v < UVPNS :: VpnWord(m', dirs, e, v) == if v == v0 then w else VpnWord(m, dirs, e, v)
    ensures UserMap(m', dirs, e) == MapWith(UserMap(m, dirs, e), v0, w)
  {
    var u := UserMap(m', dirs, e);
    var u' := MapWith(UserMap(m, dirs, e), v0, w);
    assert forall v :: v in u <==> v in u';
    assert forall v | v in u :: u[v] == u'[v];
  }

  lemma SameWordsSameMap(m: PhysMem, dirs: seq<int>, m': PhysMem, dirs': seq<int>, e: nat)
    requires forall v: nat | v < UVPNS :: VpnWord(m', dirs', e, v) == VpnWord(m, dirs, e, v)
    ensures UserMap(m', dirs', e) == UserMap(m, dirs, e)
  {
  }

  lemma SplitVpn(v: nat, i: nat, j: nat)
    requires v < UVPNS && j < NENTRIES
    ensures v / 1024 < UPDES && v % 1024 < NENTRIES
    ensures v == i * 1024 + j <==> v / 1024 == i && v % 1024 == j
  {
  }

  lemma {:induction false} StepPte(m: PhysMem, dirs: seq<int>, reserved: set<int>, e: nat, i: nat, j: nat, w: Word)
    requires WellFormed(m, dirs, reserved)
    requires e < NENV && i < UPDES && j < NENTRIES && TableOf(m, dirs, e, i) != NULL
    requires w != 0 ==> w % 2 == 1 && MayBeMapped(m, dirs, reserved, PGNUM(w))
    ensures 0 <= TableOf(m, dirs, e, i) < |m|
    ensures var m' := SetWord(m, TableOf(m, dirs, e, i), j, w);
      && WellFormed(m', dirs, reserved)
      && SameOutside(m, dirs, m', dirs, PageUse(e, i, j))
      && PteWord(m', dirs, e, i, j) == w
      && SameOtherMaps(m, dirs, m', dirs, e)
      && UserMap(m', dirs, e) == MapWith(UserMap(m, dirs, e), i * 1024 + j, w)
  {
    WritePte(m, dirs, reserved, e, i, j, w);
    var m' := SetWord(m, TableOf(m, dirs, e, i), j, w);
    forall s | IsSite(s) && s != PageUse(e, i, j) ensures Target(m', dirs, s) == Target(m, dirs, s) {
      match s
      case DirUse(e') =>
      case TableUse(e', i') =>
      case PageUse(e', i', j') =>
    }
    assert WellFormed(m', dirs, reserved) by {
      var s0 := PageUse(e, i, j);
      assert Target(m', dirs, s0) == if w == 0 then NULL else PGNUM(w);
    }
    MapsFollowPte(m, dirs, m', e, i, j, w);
  }

  lemma {:induction false} StepPde(m: PhysMem, dirs: seq<int>, reserved: set<int>, e: nat, i: nat, w: Word)
    requires WellFormed(m, dirs, reserved)
    requires e < NENV && i < UPDES && DirOf(dirs, e) != NULL
    requires forall j: nat | j < NENTRIES :: PteWord(m, dirs, e, i, j) == 0
    requires w != 0 ==>
      w % 8 == PTE_P + PTE_W + PTE_U && 0 <= PGNUM(w) < |m| && PGNUM(w) !in reserved && Holders(m, dirs, PGNUM(w)) == {}
      && forall j | 0 <= j < NENTRIES :: WordAt(m, PGNUM(w), j) == 0
    ensures 0 <= DirOf(dirs, e) < |m|
    ensures var m' := SetWord(m, DirOf(dirs, e), i, w);
      && WellFormed(m', dirs, reserved)
      && SameOutside(m, dirs, m', dirs, TableUse(e, i))
      && TableOf(m', dirs, e, i) == (if w == 0 then NULL else PGNUM(w))
      && SameMaps(m, dirs, m', dirs)
  {
    WritePde(m, dirs, reserved, e, i, w);
    var d := DirOf(dirs, e);
    var m' := SetWord(m, d, i, w);
    assert IsSite(DirUse(e)) && Target(m, dirs, DirUse(e)) == d;
    forall j: nat | j < NENTRIES ensures PteWord(m', dirs, e, i, j) == 0 {
      if w != 0 {
        assert DirUse(e) !in Holders(m, dirs, PGNUM(w));
        assert PGNUM(w) != d;
        assert TableOf(m', dirs, e, i) == PGNUM(w);
        assert WordAt(m', PGNUM(w), j) == WordAt(m, PGNUM(w), j) == 0;
      }
    }
    forall s | IsSite(s) && s != TableUse(e, i) ensures Target(m', dirs, s) == Target(m, dirs, s) {
      match s
      case DirUse(e') =>
      case TableUse(e', i') =>
      case PageUse(e', i', j') =>
    }
    forall s | IsSite(s) ensures Target(m, dirs, s) != PGNUM(w) || w == 0 {
      if w != 0 { assert s !in Holders(m, dirs, PGNUM(w)); }
    }
    MapsFollowPtes(m, dirs, m', dirs);
  }

  lemma {:induction false} MapsFollowPtes(m: PhysMem, dirs: seq<int>, m': PhysMem, dirs': seq<int>)
    requires forall e: nat, i: nat, j: nat | e < NENV && i < UPDES && j < NENTRIES ::
      PteWord(m', dirs', e, i, j) == PteWord(m, dirs, e, i, j)
    ensures SameMaps(m, dirs, m', dirs')
  {
    forall e: nat, v: nat | e < NENV && v < UVPNS ensures VpnWord(m', dirs', e, v) == VpnWord(m, dirs, e, v) {
      SplitVpn(v, 0, 0);
    }
  }

  lemma {:induction false} StepDir(m: PhysMem, dirs: seq<int>, reserved: set<int>, e: nat, d: int)
    requires WellFormed(m, dirs, reserved) && e < NENV
    requires forall i: nat | i < UPDES :: PdeWord(m, dirs, e, i) == 0
    requires d != NULL ==>
      0 <= d < |m| && d !in reserved && Holders(m, dirs, d) == {} && forall i | 0 <= i < UPDES :: m[d][i] == 0
    ensures var dirs' := dirs[e := d];
      && WellFormed(m, dirs', reserved)
      && SameOutside(m, dirs, m, dirs', DirUse(e))
      && SameMaps(m, dirs, m, dirs')
  {
    var dirs' := dirs[e := d];
    forall e': nat, i: nat | e' < NENV && i < UPDES
      ensures PdeWord(m, dirs', e', i) == PdeWord(m, dirs, e', i)
      ensures TableOf(m, dirs', e', i) == TableOf(m, dirs, e', i)
      ensures forall j: nat :: PteWord(m, dirs', e', i, j) == PteWord(m, dirs, e', i, j)
    {
      if e' == e {
        assert PdeWord(m, dirs, e, i) == 0;
      }
    }
    forall s | IsSite(s) && s != DirUse(e) ensures Target(m, dirs', s) == Target(m, dirs, s) {
      match s
      case DirUse(e') =>
      case TableUse(e', i') =>
      case PageUse(e', i', j') =>
    }
    forall s | IsSite(s) ensures Target(m, dirs, s) != d || d == NULL {
      if d != NULL { assert s !in Holders(m, dirs, d); }
    }
    MapsFollowPtes(m, dirs, m, dirs');
  }
}
