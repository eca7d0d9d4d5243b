/**
  The typed binary search over the kernel's debugging symbols (sched/kern/kdebug.c).  Entries of
  many kinds share one table; the values of one kind increase.  The search keeps going after an
  exact match, with the address increased by one in 32 bits, to find where the region ends.
*/
module StabSearch {
  const WORD := 0x1_0000_0000

  type Word = x: int | 0 <= x < WORD

  datatype Stab = Stab(kind: int, value: Word)

  datatype Region = Region(left: int, right: int)

  function Succ(a: Word): Word { (a + 1) % WORD }

  predicate Match(st: seq<Stab>, kind: int, i: int) {
    0 <= i < |st| && st[i].kind == kind
  }

  ghost predicate NoMatch(st: seq<Stab>, kind: int, lo: int, hi: int) {
    forall i | lo <= i <= hi :: !Match(st, kind, i)
  }

  ghost predicate Sorted(st: seq<Stab>, kind: int, lo: int, hi: int) {
    forall i, j | lo <= i < j <= hi && Match(st, kind, i) && Match(st, kind, j) :: st[i].value < st[j].value
  }

  // The last entry of the kind in [lo, m], or lo - 1.
  function Probe(st: seq<Stab>, kind: int, lo: int, m: int): (k: int)
    requires 0 <= lo <= m + 1 <= |st|
    ensures lo - 1 <= k <= m && NoMatch(st, kind, k + 1, m)
    ensures k >= lo ==> Match(st, kind, k)
    decreases m - lo + 1
  {
    if m < lo || Match(st, kind, m) then m else Probe(st, kind, lo, m - 1)
  }

  function Middle(st: seq<Stab>, kind: int, l: int, r: int): (k: int)
    requires 0 <= l <= r < |st|
    ensures l - 1 <= k <= (l + r) / 2 && NoMatch(st, kind, k + 1, (l + r) / 2)
    ensures k >= l ==> Match(st, kind, k)
  {
    Probe(st, kind, l, (l + r) / 2)
  }

  // An exact match may leave [l, r] as it is, but then the next address differs from the entry's.
  function Measure(st: seq<Stab>, kind: int, l: int, r: int, addr: Word): nat
    requires 0 <= l && r < |st|
  {
    if l > r then 0
    else
      var k := Middle(st, kind, l, r);
      2 * (r - l + 1) + (if k >= l && st[k].value == addr then 1 else 0)
  }

  datatype Outcome = Outcome(left: int, right: int, any: bool)

  // The main loop from the state (l, r, addr, left, any); the right end of the region is always r.
  function Loop(st: seq<Stab>, kind: int, l: int, r: int, addr: Word, left: int, any: bool): (o: Outcome)
    requires 0 <= l && r < |st| && 0 <= left
    ensures 0 <= o.left && o.right <= r
    decreases Measure(st, kind, l, r, addr)
  {
    if l > r then Outcome(left, r, any)
    else
      var m, k := (l + r) / 2, Middle(st, kind, l, r);
      if k < l then Loop(st, kind, m + 1, r, addr, left, any)
      else if st[k].value < addr then Loop(st, kind, m + 1, r, addr, k, true)
      else if st[k].value > addr then Loop(st, kind, l, k - 1, addr, left, true)
      else Loop(st, kind, k, r, Succ(addr), k, true)
  }

  function Close(st: seq<Stab>, kind: int, o: Outcome): Region
    requires 0 <= o.left && o.right < |st|
  {
    if !o.any then Region(o.left, o.left - 1)
    else if o.right < o.left then Region(o.right, o.right)
    else
      var k := Probe(st, kind, o.left + 1, o.right);
      Region(k, o.right)
  }

  lemma MeasureIs(st: seq<Stab>, kind: int, l: int, r: int, addr: Word)
    requires 0 <= l && r < |st|
    ensures l > r ==> Measure(st, kind, l, r, addr) == 0
    ensures l <= r ==> 2 * (r - l + 1) <= Measure(st, kind, l, r, addr) <= 2 * (r - l + 1) + 1
  {
  }

  // An exact match either shrinks the range or turns into an inexact one.
  lemma {:induction false} ExactDrops(st: seq<Stab>, kind: int, l: int, r: int, addr: Word)
    requires 0 <= l <= r < |st|
    requires var k := Middle(st, kind, l, r); k >= l && st[k].value == addr
    ensures var k := Middle(st, kind, l, r); Measure(st, kind, k, r, Succ(addr)) < Measure(st, kind, l, r, addr)
  {
    var k := Middle(st, kind, l, r);
    MeasureIs(st, kind, k, r, Succ(addr));
    if k == l {
      assert Middle(st, kind, k, r) == k;
    }
  }

  // One round of the loop, and why rounds cannot go on for ever.
  lemma {:induction false} Round(st: seq<Stab>, kind: int, l: int, r: int, addr: Word, left: int, any: bool)
    requires 0 <= l && r < |st| && 0 <= left
    ensures
      var o := Loop(st, kind, l, r, addr, left, any);
      if l > r then o == Outcome(left, r, any)
      else
        var m, k, w := (l + r) / 2, Middle(st, kind, l, r), Measure(st, kind, l, r, addr);
        if k < l then o == Loop(st, kind, m + 1, r, addr, left, any) && Measure(st, kind, m + 1, r, addr) < w
        else if st[k].value < addr
        then o == Loop(st, kind, m + 1, r, addr, k, true) && Measure(st, kind, m + 1, r, addr) < w
        else if st[k].value > addr
        then o == Loop(st, kind, l, k - 1, addr, left, true) && Measure(st, kind, l, k - 1, addr) < w
        else o == Loop(st, kind, k, r, Succ(addr), k, true) && Measure(st, kind, k, r, Succ(addr)) < w
  {
    hide Measure, Succ, Probe;
    if l <= r {
      var m, k := (l + r) / 2, Middle(st, kind, l, r);
      MeasureIs(st, kind, l, r, addr);
      if k >= l && st[k].value == addr {
        ExactDrops(st, kind, l, r, addr);
      } else if k >= l && st[k].value > addr {
        MeasureIs(st, kind, l, k - 1, addr);
      } else {
        MeasureIs(st, kind, m + 1, r, addr);
      }
    }
  }

  function Search(st: seq<Stab>, kind: int, lo: int, hi: int, addr: Word): Region
    requires 0 <= lo && hi < |st|
  {
    Close(st, kind, Loop(st, kind, lo, hi, addr, lo, false))
  }

  // stab_binsearch.  It ends on every table, sorted or not; indices are 32-bit ints.
  method StabBinsearch(st: seq<Stab>, regionLeft: int, regionRight: int, kind: int, address: Word)
      returns (left: int, right: int)
    requires |st| <= 0x4000_0000
    requires 0 <= regionLeft && regionRight < |st|
    ensures Region(left, right) == Search(st, kind, regionLeft, regionRight, address)
  {
    hide Loop, Measure, Succ;
    left, right := regionLeft, regionRight;
    var l, r, addr, any := regionLeft, regionRight, address, false;
    while l <= r
      invariant 0 <= l && 0 <= left && right == r <= regionRight
      invariant Loop(st, kind, l, r, addr, left, any) ==
        Loop(st, kind, regionLeft, regionRight, address, regionLeft, false)
      decreases Measure(st, kind, l, r, addr)
    {
      assert l + r < 0x8000_0000;
      var trueM := (l + r) / 2;
      var m := trueM;
      while m >= l && st[m].kind != kind
        invariant l - 1 <= m <= trueM
        invariant Probe(st, kind, l, m) == Middle(st, kind, l, r)
      {
        m := m - 1;
      }
      Round(st, kind, l, r, addr, left, any);
      if m < l {
        l := trueM + 1;
        continue;
      }
      any := true;
      if st[m].value < addr {
        left := m;
        l := trueM + 1;
      } else if st[m].value > addr {
        right := m - 1;
        r := m - 1;
      } else {
        left := m;
        l := m;
        addr := Succ(addr);
      }
    }
    Round(st, kind, l, r, addr, left, any);
    if !any {
      right := left - 1;
    } else {
      l := right;
      while l > left && st[l].kind != kind
        invariant left <= right ==> left <= l <= right
        invariant left <= right ==> Probe(st, kind, left + 1, l) == Probe(st, kind, left + 1, right)
        invariant left > right ==> l == right
      {
        l := l - 1;
      }
      left := l;
    }
  }

  // ---------- what the search finds ----------

  // The last entry of the kind in [lo, hi] whose value is at most a.
  ghost predicate IsFloor(st: seq<Stab>, kind: int, lo: int, hi: int, a: Word, p: int) {
    lo <= p <= hi && Match(st, kind, p) && st[p].value <= a
    && forall i | p < i <= hi && Match(st, kind, i) :: st[i].value > a
  }

  // The region the documentation promises: from that entry to just before the next of its kind.
  ghost predicate Brackets(st: seq<Stab>, kind: int, lo: int, hi: int, a: Word, g: Region) {
    && IsFloor(st, kind, lo, hi, a, g.left)
    && g.left <= g.right <= hi && NoMatch(st, kind, g.left + 1, g.right)
    && (g.right == hi || Match(st, kind, g.right + 1))
  }

  // The state of the loop: everything of the kind in [lo, l) is below c and left is the last of
  // it; the range was cut off on the right only before an entry above b.
  ghost predicate LeftOk(st: seq<Stab>, kind: int, lo: int, hi: int, l: int, c: int, left: int) {
    || (NoMatch(st, kind, lo, l - 1) && left == lo)
    || (lo <= left <= l && left <= hi && Match(st, kind, left) && st[left].value < c
        && NoMatch(st, kind, left + 1, l - 1))
  }

  ghost predicate RightOk(st: seq<Stab>, kind: int, hi: int, r: int, b: int) {
    r == hi || (r < hi && Match(st, kind, r + 1) && st[r + 1].value > b)
  }

  ghost predicate StateOk(st: seq<Stab>, kind: int, lo: int, hi: int, b: int, l: int, r: int, c: int, left: int,
      any: bool) {
    && 0 <= lo <= l <= r + 1 && r <= hi < |st|
    && LeftOk(st, kind, lo, hi, l, c, left) && RightOk(st, kind, hi, r, b)
    && (any ==> !NoMatch(st, kind, lo, hi)) && (!any ==> NoMatch(st, kind, lo, l - 1) && r == hi)
  }

  lemma StateParts(st: seq<Stab>, kind: int, lo: int, hi: int, b: int, l: int, r: int, c: int, left: int, any: bool)
    requires StateOk(st, kind, lo, hi, b, l, r, c, left, any)
    ensures 0 <= lo <= l <= r + 1 && r <= hi < |st| && lo <= left && RightOk(st, kind, hi, r, b)
  {
  }

  lemma {:induction false} StateRound(st: seq<Stab>, kind: int, lo: int, hi: int, b: int, l: int, r: int, c: Word,
      left: int, any: bool)
    requires StateOk(st, kind, lo, hi, b, l, r, c, left, any) && b <= c && l <= r
    ensures var m, k := (l + r) / 2, Middle(st, kind, l, r);
      if k < l then StateOk(st, kind, lo, hi, b, m + 1, r, c, left, any)
      else if st[k].value < c then StateOk(st, kind, lo, hi, b, m + 1, r, c, k, true)
      else st[k].value > c ==> StateOk(st, kind, lo, hi, b, l, k - 1, c, left, true)
  {
    var k := Middle(st, kind, l, r);
    assert k >= l ==> Match(st, kind, k) && !NoMatch(st, kind, lo, hi);
  }

  // While no entry equals the address, the loop narrows down on it.
  lemma {:induction false} Inexact(st: seq<Stab>, kind: int, lo: int, hi: int, b: int, l: int, r: int, c: Word,
      left: int, any: bool)
    requires StateOk(st, kind, lo, hi, b, l, r, c, left, any) && b <= c
    requires forall i | l <= i <= r && Match(st, kind, i) :: st[i].value != c
    ensures var o := Loop(st, kind, l, r, c, left, any);
      StateOk(st, kind, lo, hi, b, o.right + 1, o.right, c, o.left, o.any)
    decreases Measure(st, kind, l, r, c)
  {
    hide Loop, Measure, Middle, Succ, StateOk;
    StateParts(st, kind, lo, hi, b, l, r, c, left, any);
    Round(st, kind, l, r, c, left, any);
    if l <= r {
      StateRound(st, kind, lo, hi, b, l, r, c, left, any);
      var m, k := (l + r) / 2, Middle(st, kind, l, r);
      assert k >= l ==> Match(st, kind, k);
      if k < l {
        Inexact(st, kind, lo, hi, b, m + 1, r, c, left, any);
      } else if st[k].value < c {
        Inexact(st, kind, lo, hi, b, m + 1, r, c, k, true);
      } else {
        Inexact(st, kind, lo, hi, b, l, k - 1, c, left, true);
      }
    }
  }

  // An entry p equal to the address and the next entry q of the kind: is q looked at before p?
  // It depends only on where entries of the kind sit in the table.
  predicate UpperFirst(st: seq<Stab>, kind: int, l: int, r: int, p: int, q: int)
    requires 0 <= l <= p < q <= r < |st| && Match(st, kind, p) && Match(st, kind, q)
    decreases r - l
  {
    var m, k := (l + r) / 2, Middle(st, kind, l, r);
    if k < p then m < p && UpperFirst(st, kind, m + 1, r, p, q)
    else if k > q then UpperFirst(st, kind, l, k - 1, p, q)
    else k == q
  }

  // q is the entry of the kind that follows p.
  ghost predicate NextMatch(st: seq<Stab>, kind: int, p: int, q: int) {
    p < q && Match(st, kind, p) && Match(st, kind, q) && NoMatch(st, kind, p + 1, q - 1)
  }

  lemma UpperFirstRound(st: seq<Stab>, kind: int, l: int, r: int, p: int, q: int)
    requires 0 <= l <= p && q <= r < |st| && NextMatch(st, kind, p, q)
    ensures var m, k := (l + r) / 2, Middle(st, kind, l, r);
      if k < p then m < p && UpperFirst(st, kind, l, r, p, q) == UpperFirst(st, kind, m + 1, r, p, q)
      else if k > q then UpperFirst(st, kind, l, r, p, q) == UpperFirst(st, kind, l, k - 1, p, q)
      else (k == p || k == q) && UpperFirst(st, kind, l, r, p, q) == (k == q)
  {
  }

  // The loop does look at an entry equal to the address; by then it has cut the next entry off
  // exactly when that was looked at first.
  lemma {:induction false} ReachExact(st: seq<Stab>, kind: int, lo: int, hi: int, b: int, l: int, r: int, c: Word,
      left: int, any: bool, p: int, q: int)
      returns (r': int)
    requires StateOk(st, kind, lo, hi, b, l, r, c, left, any) && b <= c && Sorted(st, kind, lo, hi)
    requires l <= p <= r && Match(st, kind, p) && st[p].value == c
    ensures p <= r' <= r && RightOk(st, kind, hi, r', b)
    ensures Loop(st, kind, l, r, c, left, any) == Loop(st, kind, p, r', Succ(c), p, true)
    ensures q <= r && NextMatch(st, kind, p, q) ==> if UpperFirst(st, kind, l, r, p, q) then r' == q - 1 else r' >= q
    decreases Measure(st, kind, l, r, c)
  {
    hide Loop, Measure, Middle, Succ, UpperFirst, StateOk;
    StateParts(st, kind, lo, hi, b, l, r, c, left, any);
    StateRound(st, kind, lo, hi, b, l, r, c, left, any);
    Round(st, kind, l, r, c, left, any);
    var m, k := (l + r) / 2, Middle(st, kind, l, r);
    if q <= r && NextMatch(st, kind, p, q) {
      UpperFirstRound(st, kind, l, r, p, q);
    }
    assert k >= l ==> Match(st, kind, k);
    if k < l {
      r' := ReachExact(st, kind, lo, hi, b, m + 1, r, c, left, any, p, q);
    } else if st[k].value < c {
      r' := ReachExact(st, kind, lo, hi, b, m + 1, r, c, k, true, p, q);
    } else if st[k].value > c {
      r' := ReachExact(st, kind, lo, hi, b, l, k - 1, c, left, true, p, q);
    } else {
      assert k == p;
      r' := r;
    }
  }

  // Once an entry q below the address is passed, the region never moves back before it.
  lemma {:induction false} StaysAbove(st: seq<Stab>, kind: int, l: int, r: int, c: Word, left: int, q: int)
    requires 0 <= q <= l && q <= left && q <= r < |st| && Match(st, kind, q)
    requires l == q ==> st[q].value < c
    ensures var o := Loop(st, kind, l, r, c, left, true); o.left >= q && o.right >= q && o.any
    decreases Measure(st, kind, l, r, c)
  {
    hide Loop, Measure, Middle, Succ;
    Round(st, kind, l, r, c, left, true);
    if l <= r {
      var m, k := (l + r) / 2, Middle(st, kind, l, r);
      if k < l {
        StaysAbove(st, kind, m + 1, r, c, left, q);
      } else if st[k].value < c {
        StaysAbove(st, kind, m + 1, r, c, k, q);
      } else if st[k].value > c {
        StaysAbove(st, kind, l, k - 1, c, left, q);
      } else {
        StaysAbove(st, kind, k, r, Succ(c), k, q);
      }
    }
  }

  // After an exact match of the largest address, the next address is 0 and the match is cut off.
  lemma {:induction false} Wraps(st: seq<Stab>, kind: int, hi: int, r: int, q: int)
    requires 0 <= q <= r <= hi < |st| && Match(st, kind, q) && st[q].value == WORD - 1
    requires NoMatch(st, kind, q + 1, hi)
    ensures Loop(st, kind, q, r, 0, q, true) == Outcome(q, q - 1, true)
  {
    hide Loop, Measure;
    Round(st, kind, q, r, 0, q, true);
    assert Middle(st, kind, q, r) == q;
    Round(st, kind, q, q - 1, 0, q, true);
  }

  // The guard of the search: an entry equal to addr must not be followed by one equal to addr + 1
  // that is looked at later, and addr + 1 must not wrap around.
  ghost predicate Separable(st: seq<Stab>, kind: int, lo: int, hi: int, a: Word)
    requires 0 <= lo && hi < |st|
  {
    forall p | lo <= p <= hi && Match(st, kind, p) && st[p].value == a ::
      && a + 1 < WORD
      && forall q | q <= hi && NextMatch(st, kind, p, q) && st[q].value == a + 1 ::
           UpperFirst(st, kind, lo, hi, p, q) || (a + 2 == WORD && q == p + 1)
  }

  lemma {:induction false} CloseIs(st: seq<Stab>, kind: int, lo: int, hi: int, a: Word, c: int, o: Outcome, p: int)
    requires StateOk(st, kind, lo, hi, a, o.right + 1, o.right, c, o.left, o.any) && Sorted(st, kind, lo, hi)
    requires IsFloor(st, kind, lo, hi, a, p) && a <= c <= a + 1
    requires (forall i | lo <= i <= o.right && Match(st, kind, i) :: st[i].value < c)
    ensures o.left == p && Brackets(st, kind, lo, hi, a, Close(st, kind, o))
  {
    assert !NoMatch(st, kind, lo, hi);
    assert p <= o.right;
    assert o.left <= p;
    assert !NoMatch(st, kind, lo, o.right);
    assert o.left >= p;
  }

  // Everything of the kind before the final range is below the address.
  lemma {:induction false} BelowLeft(st: seq<Stab>, kind: int, lo: int, hi: int, a: int, r: int, c: int, left: int,
      any: bool)
    requires StateOk(st, kind, lo, hi, a, r + 1, r, c, left, any) && Sorted(st, kind, lo, hi)
    ensures forall i | lo <= i <= r && Match(st, kind, i) :: st[i].value < c
  {
    forall i | lo <= i <= r && Match(st, kind, i) ensures st[i].value < c {
      assert i <= left;
    }
  }

  // No entry equal to the address: the search finds the region.
  lemma {:induction false} SearchInexact(st: seq<Stab>, kind: int, lo: int, hi: int, a: Word, p: int)
    requires 0 <= lo && hi < |st| && Sorted(st, kind, lo, hi) && IsFloor(st, kind, lo, hi, a, p) && st[p].value != a
    ensures Brackets(st, kind, lo, hi, a, Search(st, kind, lo, hi, a))
  {
    forall i | lo <= i <= hi && Match(st, kind, i) ensures st[i].value != a {
      if i < p { assert st[i].value < st[p].value; }
    }
    Inexact(st, kind, lo, hi, a, lo, hi, a, lo, false);
    var o := Loop(st, kind, lo, hi, a, lo, false);
    BelowLeft(st, kind, lo, hi, a, o.right, a, o.left, o.any);
    CloseIs(st, kind, lo, hi, a, a, o, p);
  }

  // An entry p equal to the address, once reached with nothing equal to the next address in range.
  lemma {:induction false} SearchExact(st: seq<Stab>, kind: int, lo: int, hi: int, a: Word, p: int, r: int)
    requires 0 <= lo && hi < |st| && Sorted(st, kind, lo, hi) && IsFloor(st, kind, lo, hi, a, p) && st[p].value == a
    requires a + 1 < WORD && p <= r <= hi && RightOk(st, kind, hi, r, a)
    requires forall i | p <= i <= r && Match(st, kind, i) :: st[i].value != a + 1
    ensures Brackets(st, kind, lo, hi, a, Close(st, kind, Loop(st, kind, p, r, a + 1, p, true)))
  {
    hide Loop, Measure, Middle, Probe, Succ, Brackets, Close;
    Inexact(st, kind, lo, hi, a, p, r, a + 1, p, true);
    var o := Loop(st, kind, p, r, a + 1, p, true);
    BelowLeft(st, kind, lo, hi, a, o.right, a + 1, o.left, o.any);
    CloseIs(st, kind, lo, hi, a, a + 1, o, p);
  }

  // The case of two consecutive addresses, reached lower entry first: the search goes on past
  // the upper one and misses.
  lemma {:induction false} SearchOverruns(st: seq<Stab>, kind: int, lo: int, hi: int, a: Word, p: int, q: int, r: int)
    requires 0 <= lo && hi < |st| && Sorted(st, kind, lo, hi) && IsFloor(st, kind, lo, hi, a, p) && st[p].value == a
    requires q <= r <= hi && NextMatch(st, kind, p, q) && st[q].value == a + 1 && RightOk(st, kind, hi, r, a)
    ensures var o := Loop(st, kind, p, r, a + 1, p, true);
      Brackets(st, kind, lo, hi, a, Close(st, kind, o)) <==> a + 2 == WORD && q == p + 1
  {
    hide Loop, Measure, UpperFirst;
    var r' := ReachExact(st, kind, lo, hi, a, p, r, a + 1, p, true, q, hi + 1);
    var o := Loop(st, kind, p, r, a + 1, p, true);
    if a + 2 == WORD {
      assert NoMatch(st, kind, q + 1, hi);
      Wraps(st, kind, hi, r', q);
      assert o == Outcome(q, q - 1, true);
      assert Close(st, kind, o) == Region(q - 1, q - 1);
    } else {
      StaysAbove(st, kind, q, r', a + 2, q, q);
      assert Close(st, kind, o).left >= q;
    }
  }

  // stab_binsearch is right exactly when the table is separable at the address.
  lemma {:induction false} SearchIsRight(st: seq<Stab>, kind: int, lo: int, hi: int, a: Word, p: int)
    requires 0 <= lo && hi < |st| && Sorted(st, kind, lo, hi) && IsFloor(st, kind, lo, hi, a, p)
    ensures Brackets(st, kind, lo, hi, a, Search(st, kind, lo, hi, a)) <==> Separable(st, kind, lo, hi, a)
  {
    hide Loop, Measure, UpperFirst, Brackets, Middle, Probe;
    if st[p].value != a {
      SearchInexact(st, kind, lo, hi, a, p);
      forall i | lo <= i <= hi && Match(st, kind, i) ensures st[i].value != a {
        if i < p { assert st[i].value < st[p].value; }
      }
    } else {
      SearchAtEntry(st, kind, lo, hi, a, p);
    }
  }

  lemma {:induction false} SearchAtEntry(st: seq<Stab>, kind: int, lo: int, hi: int, a: Word, p: int)
    requires 0 <= lo && hi < |st| && Sorted(st, kind, lo, hi) && IsFloor(st, kind, lo, hi, a, p) && st[p].value == a
    ensures Brackets(st, kind, lo, hi, a, Search(st, kind, lo, hi, a)) <==> Separable(st, kind, lo, hi, a)
  {
    hide Loop, Measure, UpperFirst, Brackets, Middle, Probe;
    forall i | lo <= i <= hi && Match(st, kind, i) && st[i].value == a ensures i == p {
      assert i <= p;
    }
    forall i | p < i <= hi && Match(st, kind, i) && st[i].value == a + 1 ensures NextMatch(st, kind, p, i) {
    }
    if q :| p < q <= hi && NextMatch(st, kind, p, q) && st[q].value == a + 1 {
      var r := ReachExact(st, kind, lo, hi, a, lo, hi, a, lo, false, p, q);
      if UpperFirst(st, kind, lo, hi, p, q) {
        SearchExact(st, kind, lo, hi, a, p, r);
      } else {
        SearchOverruns(st, kind, lo, hi, a, p, q, r);
      }
    } else {
      var r := ReachExact(st, kind, lo, hi, a, lo, hi, a, lo, false, p, hi + 1);
      if a + 1 == WORD {
        Wraps(st, kind, hi, r, p);
        CutOff(st, kind, lo, hi, a, p);
      } else {
        SearchExact(st, kind, lo, hi, a, p, r);
      }
    }
  }

  lemma CutOff(st: seq<Stab>, kind: int, lo: int, hi: int, a: Word, p: int)
    requires IsFloor(st, kind, lo, hi, a, p) && p < |st|
    ensures Close(st, kind, Outcome(p, p - 1, true)) == Region(p - 1, p - 1)
    ensures !Brackets(st, kind, lo, hi, a, Region(p - 1, p - 1))
  {
  }

  // In particular it is right when addr and addr + 1 are not both values of the kind.
  lemma {:induction false} NotBothValues(st: seq<Stab>, kind: int, lo: int, hi: int, a: Word, p: int)
    requires 0 <= lo && hi < |st| && Sorted(st, kind, lo, hi) && IsFloor(st, kind, lo, hi, a, p) && a + 1 < WORD
    requires forall i, j | lo <= i <= hi && lo <= j <= hi && Match(st, kind, i) && Match(st, kind, j) ::
      st[i].value != a || st[j].value != a + 1
    ensures Brackets(st, kind, lo, hi, a, Search(st, kind, lo, hi, a))
  {
    hide UpperFirst, Brackets, Search;
    SearchIsRight(st, kind, lo, hi, a, p);
  }

  // On any table, sorted or not: left > right exactly when the range has no entry of the kind.
  lemma {:induction false} EmptyExactly(st: seq<Stab>, kind: int, lo: int, hi: int, a: Word)
    requires 0 <= lo && hi < |st|
    ensures var g := Search(st, kind, lo, hi, a);
      && (g.left > g.right <==> NoMatch(st, kind, lo, hi))
      && (NoMatch(st, kind, lo, hi) ==> g == Region(lo, lo - 1))
  {
    FoundExactly(st, kind, lo, hi, a, lo, false);
    NoneKeepsLeft(st, kind, lo, hi, a, lo);
  }

  lemma {:induction false} FoundExactly(st: seq<Stab>, kind: int, l: int, r: int, a: Word, left: int, any: bool)
    requires 0 <= l && r < |st| && 0 <= left
    ensures Loop(st, kind, l, r, a, left, any).any <==> any || !NoMatch(st, kind, l, r)
    decreases Measure(st, kind, l, r, a)
  {
    hide Loop, Measure, Middle, Succ;
    Round(st, kind, l, r, a, left, any);
    if l <= r {
      var m, k := (l + r) / 2, Middle(st, kind, l, r);
      if k < l {
        FoundExactly(st, kind, m + 1, r, a, left, any);
      } else if st[k].value < a {
        FoundExactly(st, kind, m + 1, r, a, k, true);
      } else if st[k].value > a {
        FoundExactly(st, kind, l, k - 1, a, left, true);
      } else {
        FoundExactly(st, kind, k, r, Succ(a), k, true);
      }
    }
  }

  lemma {:induction false} NoneKeepsLeft(st: seq<Stab>, kind: int, l: int, r: int, a: Word, left: int)
    requires 0 <= l && r < |st| && 0 <= left
    ensures NoMatch(st, kind, l, r) ==> Loop(st, kind, l, r, a, left, false).left == left
    decreases r - l
  {
    if l <= r && NoMatch(st, kind, l, r) {
      NoneKeepsLeft(st, kind, (l + r) / 2 + 1, r, a, left);
    }
  }

  // Every entry of the kind is above the address, so none contains it: the region ends before the
  // first of them, f, but left <= right, so a caller who takes that for success is misled.
  lemma {:induction false} SearchBelowAll(st: seq<Stab>, kind: int, lo: int, hi: int, a: Word, f: int)
    requires 0 <= lo <= f <= hi < |st| && Sorted(st, kind, lo, hi) && Match(st, kind, f)
    requires NoMatch(st, kind, lo, f - 1) && st[f].value > a
    ensures Search(st, kind, lo, hi, a) == Region(if f == lo then lo - 1 else lo, f - 1)
  {
    Inexact(st, kind, lo, hi, a, lo, hi, a, lo, false);
    var o := Loop(st, kind, lo, hi, a, lo, false);
    BelowLeft(st, kind, lo, hi, a, o.right, a, o.left, o.any);
    assert !NoMatch(st, kind, lo, hi);
    assert o.right < f;
    assert o.right == f - 1;
  }

  // A concrete miss: entries at 5 and 6, and a search for 5 that returns the entry at 6.
  lemma {:induction false} ConsecutiveMiss(st: seq<Stab>)
    requires st == [Stab(1, 5), Stab(1, 6)]
    ensures IsFloor(st, 1, 0, 1, 5, 0) && Search(st, 1, 0, 1, 5) == Region(1, 1)
  {
    hide Loop, Measure, Middle;
    MiddleOfTwo(st);
    Round(st, 1, 0, 1, 5, 0, false);
    Round(st, 1, 0, 1, 6, 0, true);
    Round(st, 1, 1, 1, 6, 0, true);
    Round(st, 1, 1, 1, 7, 1, true);
    Round(st, 1, 2, 1, 7, 1, true);
  }

  lemma MiddleOfTwo(st: seq<Stab>)
    requires st == [Stab(1, 5), Stab(1, 6)]
    ensures Middle(st, 1, 0, 1) == 0 && Middle(st, 1, 1, 1) == 1
  {
  }

  const N_SO := 0x64

  // The worked example of the documentation, for any table with those seven N_SO entries.
  lemma {:induction false} DocumentedExample(st: seq<Stab>)
    requires |st| >= 658
    requires forall i | 0 <= i <= 657 :: Match(st, N_SO, i) <==> i in {0, 13, 117, 118, 555, 556, 657}
    requires st[0].value == 0xf0100000 && st[13].value == 0xf0100040 && st[117].value == 0xf0100176
    requires st[118].value == 0xf0100178 && st[555].value == 0xf0100652 && st[556].value == 0xf0100654
    requires st[657].value == 0xf0100849
    ensures Search(st, N_SO, 0, 657, 0xf0100184) == Region(118, 554)
  {
    hide Search, Match;
    assert IsFloor(st, N_SO, 0, 657, 0xf0100184, 118);
    SearchInexact(st, N_SO, 0, 657, 0xf0100184, 118);
    var g := Search(st, N_SO, 0, 657, 0xf0100184);
    assert g.left == 118;
    assert Match(st, N_SO, 555);
  }
}
