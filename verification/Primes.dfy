/** Prime numbers, and the tower of filtered sequences that a chain of sieve stages computes. */
module Primes {
  // The test of the source is `x % d != 0`, on positive numbers.
  predicate Divides(d: int, x: int) { d >= 1 && x % d == 0 }

  predicate IsPrime(p: int) {
    p >= 2 && forall d | 2 <= d < p :: !Divides(d, p)
  }

  function PrimesUpTo(n: int): seq<int>
    decreases if n < 0 then 0 else n
  {
    if n < 2 then [] else PrimesUpTo(n - 1) + (if IsPrime(n) then [n] else [])
  }

  function UpTo(n: int): seq<int>
    decreases if n < 0 then 0 else n
  {
    if n < 2 then [] else UpTo(n - 1) + [n]
  }

  // What a stage with prime p passes on of s.
  function Sift(p: int, s: seq<int>): seq<int>
    decreases |s|
  {
    if s == [] then []
    else Sift(p, s[..|s| - 1]) + (if Divides(p, s[|s| - 1]) then [] else [s[|s| - 1]])
  }

  // Everything that ever reaches stage k when the numbers 2..n are fed in.
  function Level(k: nat, n: int): seq<int>
    decreases k
  {
    if k == 0 then UpTo(n)
    else if Level(k - 1, n) == [] then []
    else Sift(Level(k - 1, n)[0], Level(k - 1, n)[1..])
  }

  // Its first number, 0 if there is none.
  function Head(k: nat, n: int): int {
    if Level(k, n) == [] then 0 else Level(k, n)[0]
  }

  predicate NonEmptyBelow(k: nat, n: int) {
    forall i: nat | i < k :: Level(i, n) != []
  }

  ghost predicate Increasing(s: seq<int>) {
    forall i, j | 0 <= i < j < |s| :: s[i] < s[j]
  }

  // The first numbers of the first k levels.
  function Heads(k: nat, n: int): (r: seq<int>)
    ensures |r| == k && forall i: nat | i < k :: r[i] == Head(i, n)
  {
    if k == 0 then [] else Heads(k - 1, n) + [Head(k - 1, n)]
  }

  // ---------- sequences ----------

  lemma {:induction false} UpToIs(n: int)
    ensures forall x :: x in UpTo(n) <==> 2 <= x <= n
    ensures Increasing(UpTo(n))
    ensures |UpTo(n)| == if n < 2 then 0 else n - 1
    decreases if n < 0 then 0 else n
  {
    if n >= 2 {
      UpToIs(n - 1);
      assert forall i | 0 <= i < |UpTo(n - 1)| :: UpTo(n)[i] == UpTo(n - 1)[i] && UpTo(n - 1)[i] in UpTo(n - 1);
    }
  }

  lemma {:induction false} SiftIs(p: int, s: seq<int>)
    ensures forall x :: x in Sift(p, s) <==> x in s && !Divides(p, x)
    ensures |Sift(p, s)| <= |s|
    decreases |s|
  {
    hide Divides;
    if s != [] {
      var t, x := s[..|s| - 1], s[|s| - 1];
      SiftIs(p, t);
      assert s == t + [x];
    }
  }

  lemma {:induction false} SiftIncreases(p: int, s: seq<int>)
    requires Increasing(s)
    ensures Increasing(Sift(p, s))
    decreases |s|
  {
    hide Divides;
    if s != [] {
      var t, x := s[..|s| - 1], s[|s| - 1];
      SiftIncreases(p, t);
      SiftIs(p, t);
      forall i | 0 <= i < |Sift(p, t)| ensures Sift(p, t)[i] < x {
        assert Sift(p, t)[i] in t;
      }
    }
  }

  lemma {:induction false} SiftAppend(p: int, s: seq<int>, t: seq<int>)
    ensures Sift(p, s + t) == Sift(p, s) + Sift(p, t)
    decreases |t|
  {
    hide Divides;
    if t == [] {
      assert s + t == s;
    } else {
      var u := s + t;
      assert u[..|u| - 1] == s + t[..|t| - 1] && u[|u| - 1] == t[|t| - 1];
      SiftAppend(p, s, t[..|t| - 1]);
    }
  }

  lemma {:induction false} SiftPrefix(p: int, s: seq<int>, t: seq<int>)
    requires s <= t
    ensures Sift(p, s) <= Sift(p, t)
  {
    assert t == s + t[|s|..];
    SiftAppend(p, s, t[|s|..]);
  }

  // Dropping the first element of an increasing sequence removes it from the elements.
  lemma {:induction false} TailElements(a: seq<int>, x: int)
    requires Increasing(a) && a != []
    ensures x in a[1..] <==> x in a && x != a[0]
    ensures forall y | y in a :: a[0] <= y
    ensures Increasing(a[1..])
  {
    assert a == [a[0]] + a[1..];
  }

  lemma {:induction false} SameElements(a: seq<int>, b: seq<int>)
    requires Increasing(a) && Increasing(b) && forall x :: x in a <==> x in b
    ensures a == b
    decreases |a|
  {
    if a == [] {
      assert forall i | 0 <= i < |b| :: b[i] in a;
    } else {
      assert a[0] in a && a[0] in b;
      TailElements(a, 0);
      TailElements(b, 0);
      assert b[0] in b && b[0] in a;
      forall x ensures x in a[1..] <==> x in b[1..] {
        TailElements(a, x);
        TailElements(b, x);
      }
      SameElements(a[1..], b[1..]);
      assert a == [a[0]] + a[1..] && b == [b[0]] + b[1..];
    }
  }

  // ---------- levels and primes ----------

  predicate Survives(k: nat, n: int, x: int) {
    NonEmptyBelow(k, n) && forall i: nat | i < k :: !Divides(Head(i, n), x)
  }

  // Level k holds, in order, the numbers up to n that no earlier level's first number divides.
  lemma {:induction false} LevelIs(k: nat, n: int)
    ensures Increasing(Level(k, n))
    ensures forall x :: x in Level(k, n) <==> 2 <= x <= n && Survives(k, n, x)
  {
    hide Divides;
    if k == 0 {
      UpToIs(n);
    } else {
      LevelIs(k - 1, n);
      var s := Level(k - 1, n);
      if s != [] {
        var p := s[0];
        TailElements(s, 0);
        SiftIs(p, s[1..]);
        SiftIncreases(p, s[1..]);
        forall x ensures x in Level(k, n) <==> 2 <= x <= n && Survives(k, n, x) {
          TailElements(s, x);
          SurvivesStep(k, n, x);
          DividesSelf(p);
        }
      }
    }
  }

  lemma SurvivesStep(k: nat, n: int, x: int)
    requires k > 0
    ensures Survives(k, n, x) <==> Survives(k - 1, n, x) && Level(k - 1, n) != [] && !Divides(Head(k - 1, n), x)
  {
    hide Divides, Head, Level;
    assert NonEmptyBelow(k, n) <==> NonEmptyBelow(k - 1, n) && Level(k - 1, n) != [];
  }

  lemma DividesSelf(p: int)
    ensures p >= 1 ==> Divides(p, p)
  {
  }

  lemma DividesThrough(a: int, b: int, c: int)
    requires Divides(a, b) && Divides(b, c)
    ensures Divides(a, c)
  {
    var x, y := b / a, c / b;
    assert b == a * x && c == b * y;
    assert c == a * (x * y);
    MultipleMod(a, x * y);
  }

  lemma MulBound(a: int, t: int)
    requires a >= 1
    ensures t >= 1 ==> a * t >= a
    ensures t <= -1 ==> a * t <= -a
  {
  }

  lemma MultipleMod(a: int, q: int)
    requires a >= 1
    ensures (a * q) % a == 0
  {
    var m := a * q;
    assert m == a * (m / a) + m % a;
    assert a * (q - m / a) == m % a;
    MulBound(a, q - m / a);
  }

  lemma DivisorAtMost(d: int, x: int)
    requires Divides(d, x) && x >= 1
    ensures d <= x
  {
    assert x == d * (x / d);
    MulBound(d, x / d);
  }

  lemma HeadIn(k: nat, n: int)
    requires Level(k, n) != []
    ensures Head(k, n) in Level(k, n) && 2 <= Head(k, n) <= n
    ensures forall y | y in Level(k, n) :: Head(k, n) <= y
  {
    LevelIs(k, n);
    TailElements(Level(k, n), 0);
    assert Level(k, n)[0] in Level(k, n);
  }

  // The first number of a level is prime ...
  lemma {:induction false} HeadIsPrime(k: nat, n: int)
    requires Level(k, n) != []
    ensures IsPrime(Head(k, n))
  {
    hide Divides;
    LevelIs(k, n);
    HeadIn(k, n);
    var p := Head(k, n);
    forall d | 2 <= d < p ensures !Divides(d, p) {
      assert d !in Level(k, n);
      var i: nat :| i < k && Divides(Head(i, n), d);
      if Divides(d, p) {
        DividesThrough(Head(i, n), d, p);
      }
    }
  }

  // ... it exceeds the first numbers of the levels before it ...
  lemma {:induction false} HeadsIncrease(k: nat, n: int)
    requires NonEmptyBelow(k, n)
    ensures Increasing(Heads(k, n))
  {
    hide Divides, Survives, Sift;
    if k > 1 {
      HeadsIncrease(k - 1, n);
      LevelIs(k - 2, n);
      HeadIn(k - 1, n);
      var s := Level(k - 2, n);
      SiftIs(s[0], s[1..]);
      TailElements(s, Head(k - 1, n));
    }
  }

  // ... and every prime up to n is the first number of some level before the levels run out.
  lemma PrimeIsHead(k: nat, n: int, q: int)
    requires Level(k, n) == [] && NonEmptyBelow(k, n) && IsPrime(q) && q <= n
    ensures q in Heads(k, n)
  {
    LevelIs(k, n);
    assert !Survives(k, n, q);
    var i: nat :| i < k && Divides(Head(i, n), q);
    HeadIn(i, n);
    DivisorAtMost(Head(i, n), q);
    assert Heads(k, n)[i] == q;
  }

  lemma {:induction false} PrimesUpToIs(n: int)
    ensures forall x :: x in PrimesUpTo(n) <==> IsPrime(x) && x <= n
    ensures Increasing(PrimesUpTo(n))
    ensures |PrimesUpTo(n)| <= if n < 2 then 0 else n - 1
    decreases if n < 0 then 0 else n
  {
    if n >= 2 {
      PrimesUpToIs(n - 1);
      var ps := PrimesUpTo(n - 1);
      forall i | 0 <= i < |ps| ensures ps[i] < n {
        assert ps[i] in ps;
      }
    }
  }

  // The heads of all nonempty levels are exactly the primes up to n, in order.
  lemma {:induction false} HeadsArePrimes(k: nat, n: int)
    requires Level(k, n) == [] && NonEmptyBelow(k, n)
    ensures Heads(k, n) == PrimesUpTo(n)
  {
    hide IsPrime;
    HeadsIncrease(k, n);
    PrimesUpToIs(n);
    forall x ensures x in Heads(k, n) <==> x in PrimesUpTo(n) {
      if x in Heads(k, n) {
        var i: nat :| i < k && Heads(k, n)[i] == x;
        HeadIsPrime(i, n);
        HeadIn(i, n);
      }
      if x in PrimesUpTo(n) {
        PrimeIsHead(k, n, x);
      }
    }
    SameElements(Heads(k, n), PrimesUpTo(n));
  }

  // The levels shrink strictly, so they do run out.
  lemma {:induction false} LevelShrinks(k: nat, n: int)
    ensures |Level(k, n)| <= if n - 1 < k then 0 else n - 1 - k
  {
    if k == 0 {
      UpToIs(n);
    } else {
      LevelShrinks(k - 1, n);
      var s := Level(k - 1, n);
      if s != [] {
        SiftIs(s[0], s[1..]);
      }
    }
  }

  lemma {:induction false} HeadsPrefix(j: nat, k: nat, n: int)
    requires j <= k
    ensures Heads(j, n) <= Heads(k, n)
    decreases k - j
  {
    if j < k {
      HeadsPrefix(j, k - 1, n);
    }
  }

  // Any number of first heads is a prefix of the primes.
  lemma {:induction false} HeadsPrefixOfPrimes(j: nat, k: nat, n: int)
    requires j <= k && NonEmptyBelow(k, n)
    ensures Heads(j, n) <= PrimesUpTo(n)
    decreases if n < k then 0 else n - k + 1
  {
    if Level(k, n) == [] {
      HeadsArePrimes(k, n);
      HeadsPrefix(j, k, n);
    } else {
      LevelShrinks(k, n);
      HeadsPrefixOfPrimes(j, k + 1, n);
    }
  }
}
