/**
  The relinking of the free list in check_page_free_list (sched/kern/pmap.c): one walk with two
  tail pointers puts the pages of the first 4 MB first, changing only links.
*/
module FreeListPartition {
  import opened Mmu
  import opened PageSites
  import opened PageInvariant

  // pagetype, for the limit 1 that is used with only_low_memory
  predicate High(p: int) { p >= 0 && PDX(Page2Pa(p)) >= 1 }

  lemma HighIs(p: nat)
    requires p < 0x10_0000
    ensures High(p) <==> p >= 1024
  {
  }

  // The pages of one type, in their order on the list.
  function Select(s: seq<int>, high: bool): (r: seq<int>)
    requires forall k | 0 <= k < |s| :: s[k] >= 0
    decreases |s|
  {
    if s == [] then []
    else
      var t := Select(s[..|s| - 1], high);
      if High(s[|s| - 1]) == high then t + [s[|s| - 1]] else t
  }

  function LowFirst(s: seq<int>): seq<int>
    requires forall k | 0 <= k < |s| :: s[k] >= 0
  {
    Select(s, false) + Select(s, true)
  }

  predicate Distinct(s: seq<int>) { forall j, k | 0 <= j < k < |s| :: s[j] != s[k] }

  lemma {:induction false} SelectIs(s: seq<int>, high: bool)
    requires Distinct(s) && forall k | 0 <= k < |s| :: s[k] >= 0
    ensures Distinct(Select(s, high))
    ensures forall p :: p in Select(s, high) <==> p in s && High(p) == high
    decreases |s|
  {
    hide High;
    if s != [] {
      var t, x := s[..|s| - 1], s[|s| - 1];
      SelectIs(t, high);
      assert s == t + [x];
      var r := Select(t, high);
      forall k | 0 <= k < |r| ensures r[k] != x {
        assert r[k] in r;
      }
    }
  }

  // The same pages, low ones first, with no repetition.
  lemma {:induction false} LowFirstIs(s: seq<int>)
    requires Distinct(s) && forall k | 0 <= k < |s| :: s[k] >= 0
    ensures Distinct(LowFirst(s)) && multiset(LowFirst(s)) == multiset(s)
    ensures forall p :: p in LowFirst(s) <==> p in s
    ensures |LowFirst(s)| == |s| && forall j, k | 0 <= j < k < |s| && High(LowFirst(s)[j]) :: High(LowFirst(s)[k])
  {
    hide High;
    SelectIs(s, false);
    SelectIs(s, true);
    SelectCounts(s);
    var lo, hi := Select(s, false), Select(s, true);
    assert |LowFirst(s)| == |s|;
    assert forall k | 0 <= k < |lo| :: lo[k] in lo;
    assert forall k | 0 <= k < |hi| :: hi[k] in hi;
  }

  lemma {:induction false} SelectCounts(s: seq<int>)
    requires forall k | 0 <= k < |s| :: s[k] >= 0
    ensures multiset(LowFirst(s)) == multiset(s) && |Select(s, false)| + |Select(s, true)| == |s|
    decreases |s|
  {
    hide High;
    if s != [] {
      var t, x := s[..|s| - 1], s[|s| - 1];
      SelectCounts(t);
      var lo, hi := Select(t, false), Select(t, true);
      assert s == t + [x];
      assert multiset(s) == multiset(t) + multiset{x};
      assert multiset(lo + hi) == multiset(lo) + multiset(hi);
      if High(x) {
        assert LowFirst(s) == (lo + hi) + [x];
      } else {
        assert LowFirst(s) == (lo + [x]) + hi;
        assert multiset((lo + [x]) + hi) == multiset(lo) + multiset{x} + multiset(hi);
      }
    }
  }

  // Two pages of one type keep their order.
  lemma {:induction false} SelectStable(s: seq<int>, high: bool, j: nat, k: nat) returns (j': nat, k': nat)
    requires Distinct(s) && (forall i | 0 <= i < |s| :: s[i] >= 0) && j < k < |s| && High(s[j]) == high
    requires High(s[k]) == high
    ensures j' < k' < |Select(s, high)| && Select(s, high)[j'] == s[j] && Select(s, high)[k'] == s[k]
    decreases |s|
  {
    hide High;
    var t, x := s[..|s| - 1], s[|s| - 1];
    if k < |s| - 1 {
      j', k' := SelectStable(t, high, j, k);
    } else {
      SelectIs(t, high);
      assert t[j] in t && s[j] in Select(t, high);
      j' :| 0 <= j' < |Select(t, high)| && Select(t, high)[j'] == s[j];
      k' := |Select(t, high)|;
    }
  }

  // ---------- the loop ----------

  // q is linked up to its last page, at which the next page will be attached; with q empty,
  // that is the head variable itself.
  ghost predicate Tail(ps: seq<PageInfo>, head: int, tail: int, q: seq<int>) {
    && (forall k | 0 <= k < |q| :: 0 <= q[k] < |ps|)
    && (if q == [] then tail == NULL else head == q[0] && tail == q[|q| - 1])
    && forall k | 0 <= k < |q| - 1 :: ps[q[k]].link == q[k + 1]
  }

  lemma Attach(ps: seq<PageInfo>, head: int, tail: int, q: seq<int>, p: int)
    requires Tail(ps, head, tail, q) && Distinct(q) && 0 <= p < |ps| && p !in q
    ensures tail == NULL <==> q == []
    ensures q == [] ==> Tail(ps, p, p, q + [p])
    ensures q != [] ==> 0 <= tail < |ps| && Tail(ps[tail := ps[tail].(link := p)], head, p, q + [p])
  {
  }

  // Writing the link of a page outside q.
  lemma Apart(ps: seq<PageInfo>, head: int, tail: int, q: seq<int>, i: int, x: int)
    requires Tail(ps, head, tail, q) && 0 <= i < |ps| && i !in q
    ensures Tail(ps[i := ps[i].(link := x)], head, tail, q)
  {
  }

  // Where the walk is after i pages: both parts are linked so far, and the rest of the list, and
  // everything else about the pages, is as it was.
  ghost predicate Walk(was: seq<PageInfo>, ps: seq<PageInfo>, free: seq<int>, i: nat, pp1: int, tp0: int, pp2: int,
      tp1: int) {
    && |ps| == |was| && i <= |free| && (forall k | 0 <= k < |free| :: 0 <= free[k] < |ps|) && Distinct(free)
    && Tail(ps, pp1, tp0, Select(free[..i], false)) && Tail(ps, pp2, tp1, Select(free[..i], true))
    && (forall k | i <= k < |free| :: ps[free[k]].link == After(free, k))
    && (forall p | 0 <= p < |ps| :: ps[p].ref == was[p].ref)
    && (forall p | 0 <= p < |ps| && p !in free :: ps[p] == was[p])
  }

  lemma WalkShape(was: seq<PageInfo>, ps: seq<PageInfo>, free: seq<int>, i: nat, pp1: int, tp0: int, pp2: int, tp1: int)
    requires Walk(was, ps, free, i, pp1, tp0, pp2, tp1)
    ensures |ps| == |was| && i <= |free| && forall k | 0 <= k < |free| :: 0 <= free[k] < |ps|
    ensures i < |free| ==> ps[free[i]].link == After(free, i)
  {
  }

  lemma HeadIs(ps: seq<PageInfo>, head: int, free: seq<int>)
    requires ListOk(ps, head, free)
    ensures head == if free == [] then NULL else free[0]
  {
  }

  lemma WalkStart(ps: seq<PageInfo>, head: int, free: seq<int>)
    requires ListOk(ps, head, free)
    ensures Walk(ps, ps, free, 0, NULL, NULL, NULL, NULL)
  {
  }

  lemma {:induction false} SelectNext(free: seq<int>, i: nat, high: bool)
    requires i < |free| && forall k | 0 <= k < |free| :: free[k] >= 0
    ensures Select(free[..i + 1], high) == Select(free[..i], high) + (if High(free[i]) == high then [free[i]] else [])
  {
    assert free[..i + 1][..i] == free[..i];
  }

  // One round on the part q that grows and the part o that does not.
  lemma {:induction false} GrowPart(ps: seq<PageInfo>, free: seq<int>, i: nat, head: int, tail: int, q: seq<int>,
      head': int, tail': int, o: seq<int>)
    requires i < |free| && Distinct(free) && (forall k | 0 <= k < |free| :: 0 <= free[k] < |ps|)
    requires Tail(ps, head, tail, q) && Tail(ps, head', tail', o) && Distinct(q)
    requires (forall p | p in q :: p in free[..i]) && (forall p | p in o :: p in free[..i] && p !in q)
    ensures tail == NULL ==> Tail(ps, free[i], free[i], q + [free[i]])
    ensures tail != NULL ==> 0 <= tail < |ps| && tail in free[..i]
    ensures tail != NULL ==> Tail(ps[tail := ps[tail].(link := free[i])], head, free[i], q + [free[i]])
    ensures tail != NULL ==> Tail(ps[tail := ps[tail].(link := free[i])], head', tail', o)
  {
    hide Tail;
    NotBefore(free, i, i);
    Attach(ps, head, tail, q, free[i]);
    if tail != NULL {
      LastIn(ps, head, tail, q);
      Apart(ps, head', tail', o, tail, free[i]);
    }
  }

  lemma NotBefore(free: seq<int>, i: nat, k: nat)
    requires i <= k < |free| && Distinct(free)
    ensures free[k] !in free[..i]
  {
  }

  lemma {:induction false} WalkStep(was: seq<PageInfo>, ps: seq<PageInfo>, free: seq<int>, i: nat, pp1: int, tp0: int,
      pp2: int, tp1: int)
    requires Walk(was, ps, free, i, pp1, tp0, pp2, tp1) && i < |free|
    ensures var p := free[i];
      && 0 <= p < |ps|
      && (High(p) && tp1 == NULL ==> Walk(was, ps, free, i + 1, pp1, tp0, p, p))
      && (High(p) && tp1 != NULL ==> 0 <= tp1 < |ps| && tp1 != p)
      && (High(p) && tp1 != NULL ==> Walk(was, ps[tp1 := ps[tp1].(link := p)], free, i + 1, pp1, tp0, pp2, p))
      && (!High(p) && tp0 == NULL ==> Walk(was, ps, free, i + 1, p, p, pp2, tp1))
      && (!High(p) && tp0 != NULL ==> 0 <= tp0 < |ps| && tp0 != p)
      && (!High(p) && tp0 != NULL ==> Walk(was, ps[tp0 := ps[tp0].(link := p)], free, i + 1, pp1, p, pp2, tp1))
  {
    hide High, Tail, Select, Distinct;
    var p, t := free[i], free[..i];
    var lo, hi := Select(t, false), Select(t, true);
    assert Distinct(t) by { DistinctPrefix(free, i); }
    SelectIs(t, false);
    SelectIs(t, true);
    SelectNext(free, i, false);
    SelectNext(free, i, true);
    assert lo + [] == lo && hi + [] == hi;
    forall k | i <= k < |free| ensures free[k] !in t {
      NotBefore(free, i, k);
    }
    if High(p) {
      GrowPart(ps, free, i, pp2, tp1, hi, pp1, tp0, lo);
    } else {
      GrowPart(ps, free, i, pp1, tp0, lo, pp2, tp1, hi);
    }
  }

  lemma DistinctPrefix(free: seq<int>, i: nat)
    requires i <= |free| && Distinct(free)
    ensures Distinct(free[..i])
  {
  }

  lemma LastIn(ps: seq<PageInfo>, head: int, tail: int, q: seq<int>)
    requires Tail(ps, head, tail, q) && tail != NULL
    ensures tail in q
  {
  }

  // The two parts closed and joined.
  function Closed(ps: seq<PageInfo>, tail: int, next: int): seq<PageInfo> {
    if 0 <= tail < |ps| then ps[tail := ps[tail].(link := next)] else ps
  }

  function Follow(q: seq<int>, k: nat, next: int): int { if k + 1 < |q| then q[k + 1] else next }

  // A part with its last link set, followed by whatever hangs at next.
  ghost predicate Part(ps: seq<PageInfo>, head: int, q: seq<int>, next: int) {
    && (forall k | 0 <= k < |q| :: 0 <= q[k] < |ps| && ps[q[k]].link == Follow(q, k, next))
    && head == (if q == [] then next else q[0])
  }

  lemma ClosePart(ps: seq<PageInfo>, head: int, tail: int, q: seq<int>, next: int)
    requires Tail(ps, head, tail, q) && Distinct(q)
    ensures Part(Closed(ps, tail, next), if tail == NULL then next else head, q, next)
    ensures forall p | 0 <= p < |ps| && p !in q :: Closed(ps, tail, next)[p] == ps[p]
    ensures |Closed(ps, tail, next)| == |ps| && forall p | 0 <= p < |ps| :: Closed(ps, tail, next)[p].ref == ps[p].ref
  {
  }

  lemma {:induction false} PartApart(ps: seq<PageInfo>, ps': seq<PageInfo>, head: int, lo: seq<int>, hi: seq<int>)
    requires Part(ps, head, hi, NULL) && |ps'| == |ps| && (forall p | p in hi :: p !in lo)
    requires forall p | 0 <= p < |ps| && p !in lo :: ps'[p] == ps[p]
    ensures Part(ps', head, hi, NULL)
  {
    forall k | 0 <= k < |hi| ensures 0 <= hi[k] < |ps'| && ps'[hi[k]].link == Follow(hi, k, NULL) {
      assert hi[k] in hi;
      assert ps[hi[k]].link == Follow(hi, k, NULL);
    }
  }

  lemma {:induction false} JoinParts(ps: seq<PageInfo>, head: int, mid: int, lo: seq<int>, hi: seq<int>)
    requires Part(ps, head, lo, mid) && Part(ps, mid, hi, NULL)
    ensures Part(ps, head, lo + hi, NULL)
  {
    var q := lo + hi;
    forall k | 0 <= k < |q| ensures 0 <= q[k] < |ps| && ps[q[k]].link == Follow(q, k, NULL) {
      assert k + 1 < |q| ==> q[k + 1] == if k + 1 < |lo| then lo[k + 1] else hi[k + 1 - |lo|];
      if k < |lo| {
        assert q[k] == lo[k];
        assert ps[lo[k]].link == Follow(lo, k, mid);
      } else {
        var j := k - |lo|;
        assert q[k] == hi[j];
        assert ps[hi[j]].link == Follow(hi, j, NULL);
      }
    }
  }

  lemma {:induction false} ListFromPart(was: seq<PageInfo>, start: int, free: seq<int>, ps: seq<PageInfo>, head: int,
      r: seq<int>)
    requires ListOk(was, start, free) && Part(ps, head, r, NULL) && Distinct(r) && (forall p :: p in r <==> p in free)
    requires |ps| == |was| && (forall p | 0 <= p < |ps| :: ps[p].ref == was[p].ref)
    requires forall p | 0 <= p < |ps| && p !in free :: ps[p].link == was[p].link
    ensures ListOk(ps, head, r)
  {
    forall k | 0 <= k < |r| ensures 0 <= r[k] < |ps| && ps[r[k]] == PageInfo(0, After(r, k)) {
      hide ListOk;
      assert r[k] in r;
      OnList(was, start, free, r[k]);
      assert ps[r[k]].link == Follow(r, k, NULL);
    }
    forall p | 0 <= p < |ps| && p !in r ensures ps[p].link == NULL {
      assert p !in free;
    }
    hide Part;
  }

  lemma {:induction false} WalkEnd(was: seq<PageInfo>, start: int, ps: seq<PageInfo>, free: seq<int>, pp1: int,
      tp0: int, pp2: int, tp1: int)
    requires ListOk(was, start, free) && Walk(was, ps, free, |free|, pp1, tp0, pp2, tp1)
    ensures tp0 == NULL || 0 <= tp0 < |ps|
    ensures tp1 == NULL || 0 <= tp1 < |ps|
    ensures var mid := if tp1 == NULL then NULL else pp2;
      var ps' := Closed(Closed(ps, tp1, NULL), tp0, mid);
      && |ps'| == |ps| && ListOk(ps', if tp0 == NULL then mid else pp1, LowFirst(free))
      && forall p | 0 <= p < |ps| :: ps'[p].ref == was[p].ref
  {
    hide High, Tail, Closed, Part, Select, Distinct, ListOk;
    assert free[..|free|] == free;
    var lo, hi := Select(free, false), Select(free, true);
    SelectIs(free, false);
    SelectIs(free, true);
    LowFirstIs(free);
    TailInRange(ps, pp1, tp0, lo);
    TailInRange(ps, pp2, tp1, hi);
    var mid := if tp1 == NULL then NULL else pp2;
    var head := if tp0 == NULL then mid else pp1;
    var u := Closed(ps, tp1, NULL);
    ClosePart(ps, pp2, tp1, hi, NULL);
    TailKept(ps, u, pp1, tp0, lo);
    var v := Closed(u, tp0, mid);
    ClosePart(u, pp1, tp0, lo, mid);
    PartApart(u, v, mid, lo, hi);
    JoinParts(v, head, mid, lo, hi);
    ListFromPart(was, start, free, v, head, LowFirst(free));
  }

  lemma TailInRange(ps: seq<PageInfo>, head: int, tail: int, q: seq<int>)
    requires Tail(ps, head, tail, q)
    ensures tail == NULL || 0 <= tail < |ps|
  {
  }

  lemma {:induction false} TailKept(ps: seq<PageInfo>, ps': seq<PageInfo>, head: int, tail: int, q: seq<int>)
    requires Tail(ps, head, tail, q) && |ps'| == |ps| && forall p | 0 <= p < |ps| && p in q :: ps'[p] == ps[p]
    ensures Tail(ps', head, tail, q)
  {
    assert forall k | 0 <= k < |q| :: q[k] in q;
  }

  // The loop; tp is the page whose link a tail pointer points at, or NULL for the variable pp1 or pp2.
  method RelinkLowFirst(pages: array<PageInfo>, freeList: int, ghost free: seq<int>) returns (head: int)
    requires ListOk(pages[..], freeList, free)
    modifies pages
    ensures forall k | 0 <= k < |free| :: free[k] >= 0
    ensures ListOk(pages[..], head, LowFirst(free))
    ensures forall p | 0 <= p < pages.Length :: pages[p].ref == old(pages[p].ref)
  {
    hide High, Walk, ListOk, Select;
    ghost var was := pages[..];
    WalkStart(was, freeList, free);
    HeadIs(was, freeList, free);
    var pp1, pp2, tp0, tp1 := NULL, NULL, NULL, NULL;
    var pp := freeList;
    ghost var i := 0;
    while pp != NULL
      invariant Walk(was, pages[..], free, i, pp1, tp0, pp2, tp1)
      invariant pp == (if i < |free| then free[i] else NULL)
      decreases |free| - i
    {
      WalkShape(was, pages[..], free, i, pp1, tp0, pp2, tp1);
      WalkStep(was, pages[..], free, i, pp1, tp0, pp2, tp1);
      if High(pp) {
        if tp1 == NULL {
          pp2 := pp;
        } else {
          pages[tp1] := pages[tp1].(link := pp);
        }
        tp1 := pp;
      } else {
        if tp0 == NULL {
          pp1 := pp;
        } else {
          pages[tp0] := pages[tp0].(link := pp);
        }
        tp0 := pp;
      }
      pp := pages[pp].link;
      i := i + 1;
    }
    WalkShape(was, pages[..], free, i, pp1, tp0, pp2, tp1);
    WalkEnd(was, freeList, pages[..], free, pp1, tp0, pp2, tp1);
    if tp1 == NULL {
      pp2 := NULL;
    } else {
      pages[tp1] := pages[tp1].(link := NULL);
    }
    if tp0 == NULL {
      pp1 := pp2;
    } else {
      pages[tp0] := pages[tp0].(link := pp2);
    }
    head := pp1;
  }

  // Relinking keeps the whole page invariant, and no page changes hands.
  lemma {:induction false} RelinkKeepsInv(ps: seq<PageInfo>, head: int, free: seq<int>, ps': seq<PageInfo>,
      head': int, m: PhysMem, dirs: seq<int>,
                       reserved: set<int>, kern: seq<Word>)
    requires Inv(ps, head, free, m, dirs, reserved, kern, NULL) && |ps'| == |ps|
    requires (forall k | 0 <= k < |free| :: free[k] >= 0) && ListOk(ps', head', LowFirst(free))
    requires forall p | 0 <= p < |ps| :: ps'[p].ref == ps[p].ref
    ensures Inv(ps', head', LowFirst(free), m, dirs, reserved, kern, NULL)
    ensures Held(ps', LowFirst(free), reserved) == Held(ps, free, reserved)
  {
    hide WellFormed, KernelHalfOk, LowFirst, ListOk, Distinct;
    assert Distinct(free) by { ListDistinct(ps, head, free); }
    LowFirstIs(free);
  }

  lemma ListDistinct(ps: seq<PageInfo>, head: int, free: seq<int>)
    requires ListOk(ps, head, free)
    ensures Distinct(free)
  {
  }
}
