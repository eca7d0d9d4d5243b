/** The scheduler's random numbers: the Park-Miller step in Schrage form (sched/kern/sched.c). */
module ParkMiller {
  const N := 0x7fff_ffff
  const G := 48271
  // N / G and N % G.
  const Q := 44488
  const R := 3399

  const WORD := 0x1_0000_0000
  type Word = x: int | 0 <= x < WORD

  // The value the step is to compute.
  function Times(x: int): int { x * G % N }

  function Pow(b: int, k: nat): int {
    if k == 0 then 1 else b * Pow(b, k - 1)
  }

  // The k-th value drawn from a seed.
  function Draw(seed: int, k: nat): int {
    if k == 0 then seed else Times(Draw(seed, k - 1))
  }

  lemma MultipleBound(d: int)
    ensures d >= 1 ==> d * N >= N
    ensures d <= -1 ==> d * N <= -N
  {
  }

  lemma ModOf(x: int, q: int, r: int)
    requires x == q * N + r && 0 <= r < N
    ensures x % N == r
  {
    var d := x / N - q;
    assert d * N == r - x % N;
    MultipleBound(d);
  }

  // G and R have no common factor: 5567 * R - 392 * G == 1.
  lemma Coprime(div: int, rem: int)
    requires rem * G == div * R && 0 <= div <= G
    ensures div == 0 || div == G
  {
    var t := 5567 * rem - 392 * div;
    assert div == G * t;
  }

  // So the two products of the step never agree.
  lemma {:induction false} ProductsDiffer(div: int, rem: int)
    requires 0 <= rem < Q && 0 <= div && 1 <= div * Q + rem < N
    ensures rem * G != div * R
  {
    if rem * G == div * R {
      Coprime(div, rem);
    }
  }

  class Generator {
    var state: Word

    constructor (seed: Word)
      ensures state == seed
    {
      state := seed;
    }

    // lcg_parkmiller.  No product or sum leaves 32 bits: every subtype check here is such a bound.
    method LcgParkMiller() returns (r: Word)
      requires 1 <= state < N
      modifies this
      ensures r == state == Times(old(state)) && 1 <= r < N
    {
      var div: Word := state / (N / G);
      var rem: Word := state % (N / G);
      var a: Word := rem * G;
      var b: Word := div * (N % G);
      ProductsDiffer(div, rem);
      if a > b {
        ModOf(state * G, div, a - b);
      } else {
        ModOf(state * G, div - 1, a + (N - b));
      }
      state := if a > b then a - b else a + (N - b);
      r := state;
    }
  }

  lemma ModSame(x: int, y: int, q: int)
    requires x == y + q * N
    ensures x % N == y % N
  {
    ModOf(x, y / N + q, y % N);
  }

  // A step stays in range ...
  lemma {:induction false} TimesInRange(x: int)
    requires 1 <= x < N
    ensures 1 <= Times(x) < N
  {
    var div, rem := x / Q, x % Q;
    ProductsDiffer(div, rem);
    if rem * G > div * R {
      ModOf(x * G, div, rem * G - div * R);
    } else {
      ModOf(x * G, div - 1, rem * G + (N - div * R));
    }
  }

  // ... no two states have the same successor: multiplying by the inverse of G undoes the step ...
  const INVERSE := 1899818559

  lemma {:induction false} StepUndone(x: int)
    requires 0 <= x < N
    ensures Times(x) * INVERSE % N == x
  {
    var q := x * G / N;
    assert Times(x) == x * G - q * N;
    assert G * INVERSE == 42704 * N + 1;
    assert Times(x) * INVERSE == x * (G * INVERSE) - q * INVERSE * N;
    ModOf(Times(x) * INVERSE, x * 42704 - q * INVERSE, x);
  }

  lemma {:induction false} StepInjective(x: int, y: int)
    requires 0 <= x < N && 0 <= y < N && Times(x) == Times(y)
    ensures x == y
  {
    StepUndone(x);
    StepUndone(y);
  }

  // ... and from seed 1 the k-th value is the k-th power of G modulo N, the sequence that
  // section [rand.predef] of ISO C++ calls minstd_rand.
  lemma {:induction false} DrawIsPower(k: nat)
    ensures Draw(1, k) == Pow(G, k) % N
  {
    if k > 0 {
      DrawIsPower(k - 1);
      var p := Pow(G, k - 1);
      var q := p / N;
      assert p == q * N + Draw(1, k - 1);
      assert G * p == Draw(1, k - 1) * G + q * G * N;
      ModSame(G * p, Draw(1, k - 1) * G, q * G);
    }
  }

  lemma {:induction false} PowSum(j: nat, k: nat)
    ensures Pow(G, j + k) == Pow(G, j) * Pow(G, k)
    decreases j
  {
    if j > 0 {
      PowSum(j - 1, k);
      assert G * (Pow(G, j - 1) * Pow(G, k)) == (G * Pow(G, j - 1)) * Pow(G, k);
    }
  }

  lemma PowModSum(j: nat, k: nat, x: int, y: int)
    requires Pow(G, j) % N == x && Pow(G, k) % N == y
    ensures Pow(G, j + k) % N == x * y % N
  {
    PowSum(j, k);
    var p, q := Pow(G, j) / N, Pow(G, k) / N;
    var a, b := Pow(G, j), Pow(G, k);
    assert a == p * N + x && b == q * N + y;
    assert a * b == (p * N + x) * (q * N + y);
    assert (p * N + x) * (q * N + y) == x * y + (p * q * N + p * y + q * x) * N;
    ModSame(a * b, x * y, p * q * N + p * y + q * x);
  }

  // One square, or one square and one step, with the quotient q given.
  lemma Square(j: nat, x: int, q: int, r: int)
    requires Pow(G, j) % N == x && x * x == q * N + r && 0 <= r < N
    ensures Pow(G, 2 * j) % N == r
  {
    PowModSum(j, j, x, x);
    ModOf(x * x, q, r);
  }

  lemma SquareStep(j: nat, x: int, q: int, r: int)
    requires Pow(G, j) % N == x && x * x * G == q * N + r && 0 <= r < N
    ensures Pow(G, 2 * j + 1) % N == r
  {
    var y, p := x * x % N, x * x / N;
    PowModSum(j, j, x, x);
    PowBase();
    PowModSum(2 * j, 1, y, G);
    assert x * x == p * N + y;
    assert x * x * G == y * G + p * G * N;
    ModOf(y * G, q - p * G, r);
  }

  lemma Power156()
    ensures Pow(G, 156) % N == 2071152004
  {
    hide Pow;
    PowBase();
    Square(1, 48271, 1, 182605794);
    Square(2, 182605794, 15527417, 1914720637);
    SquareStep(4, 1914720637, 82407600139964, 564586691);
    SquareStep(9, 564586691, 7165024886024, 1559527823);
    SquareStep(19, 1559527823, 54669195764756, 1272185027);
    Square(39, 1272185027, 753651719, 837051536);
    Square(78, 837051536, 326268036, 2071152004);
  }

  lemma Power10000()
    ensures Pow(G, 10000) % N == 399268537
  {
    hide Pow;
    Power156();
    Square(156, 2071152004, 1997533545, 1451777401);
    SquareStep(312, 1451777401, 47375793159734, 605889173);
    Square(625, 605889173, 170945045, 1285444814);
    Square(1250, 1285444814, 769443982, 1211932242);
    Square(2500, 1211932242, 683953873, 1629331733);
    Square(5000, 1629331733, 1236201216, 399268537);
  }

  // The check value that section gives: the 10000th value from seed 1.
  lemma {:induction false} TenThousandth()
    ensures Draw(1, 10000) == 399268537
  {
    hide Pow, Draw;
    Power10000();
    DrawIsPower(10000);
  }

  lemma PowBase()
    ensures Pow(G, 1) % N == 48271
  {
  }
}
