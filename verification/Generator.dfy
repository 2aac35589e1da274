/** The linear congruential generator of gtest.cc and its period. */
module Generators {

  import opened Basics

  // kMaxRange.
  const MAX_RANGE: nat := 0x8000_0000

  /** The linear congruence of the generator: a 64-bit product, cut to 32 bits and then to 31. */
  function NextState(state: nat): nat {
    (1103515245 * state + 12345) % TWO32 % MAX_RANGE
  }

  class Random {
    var state: nat

    constructor (seed: nat)
      ensures state == seed
    {
      state := seed;
    }

    /** One step of the generator, reduced to the range asked for. */
    method Generate(range: nat) returns (r: nat)
      requires 0 < range <= MAX_RANGE
      modifies this
      ensures r < range
      ensures state == NextState(old(state)) && r == state % range
    {
      state := NextState(state);
      r := state % range;
    }
  }

  /** The state after k steps. */
  ghost function Iterated(state: nat, k: nat): nat
    decreases k
  {
    if k == 0 then state else Iterated(NextState(state), k - 1)
  }

  // ---------------------------------------------------------- the congruence unreduced

  /** n steps without reduction. */
  ghost function Run(x: nat, n: nat): nat {
    if n == 0 then x else 1103515245 * Run(x, n - 1) + 12345
  }

  lemma {:induction false} RunTwice(x: nat, m: nat, n: nat)
    ensures Run(Run(x, m), n) == Run(x, m + n)
  {
    if n > 0 {
      RunTwice(x, m, n - 1);
    }
  }

  /** 2^k steps add a multiple of 2^k that is odd: the multiplier of those steps is
      1 + 4 * 2^k * Slope(k), their increment 2^k * (2 * Offset(k) + 1). */
  ghost function Slope(k: nat): nat {
    if k == 0 then 275878811
    else Slope(k - 1) + 2 * Pow2(k - 1) * (Slope(k - 1) * Slope(k - 1))
  }

  ghost function Offset(k: nat): nat {
    if k == 0 then 6172
    else Offset(k - 1) + Pow2(k - 1) * Slope(k - 1) * (2 * Offset(k - 1) + 1)
  }

  ghost function Stride(k: nat, x: nat): nat {
    4 * (Slope(k) * x) + 2 * Offset(k) + 1
  }

  lemma {:induction false} Leap(x: nat, k: nat)
    ensures Run(x, Pow2(k)) == x + Pow2(k) * Stride(k, x)
    decreases k
  {
    if k == 0 {
      assert Run(x, 1) == 1103515245 * Run(x, 0) + 12345;
    } else {
      var p := Pow2(k - 1);
      Leap(x, k - 1);
      var y := Run(x, p);
      Leap(y, k - 1);
      RunTwice(x, p, p);
      Doubled(p, Slope(k - 1), Offset(k - 1), x, y);
    }
  }

  /** Two leaps of p steps are one of 2p. */
  lemma Doubled(p: nat, m: nat, q: nat, x: nat, y: nat)
    requires y == x + p * (4 * (m * x) + 2 * q + 1)
    ensures y + p * (4 * (m * y) + 2 * q + 1)
         == x + 2 * p * (4 * ((m + 2 * p * (m * m)) * x) + 2 * (q + p * m * (2 * q + 1)) + 1)
  {
    var t, u, o := p * m, p * (m * m) * x, 2 * q + 1;
    var s, v := 4 * (m * x) + o, t * o;
    Regroup(p, m, x);
    Distribute(m, x, p, s);
    DistributeFour(t, m * x, o);
    assert m * y == m * x + 4 * u + v;
    assert (m + 2 * p * (m * m)) * x == m * x + 2 * u by { Distribute3(m, p * (m * m), x); }
    var r, inner := s + 16 * u + 4 * v, 4 * (m * x) + 8 * u + 2 * q + 2 * v + 1;
    assert s + r == 2 * inner;
    Factor(p, s, r, inner);
  }

  lemma Regroup(p: nat, m: nat, x: nat)
    ensures p * m * (m * x) == p * (m * m) * x
  {
    assert m * (m * x) == m * m * x;
    Associate(p, m, m * x);
    Associate(p, m * m, x);
  }

  lemma Associate(a: nat, b: nat, c: nat)
    ensures a * b * c == a * (b * c)
  {
  }

  lemma Distribute(m: nat, x: nat, p: nat, s: nat)
    ensures m * (x + p * s) == m * x + p * m * s
  {
    Associate(p, m, s);
    Associate(m, p, s);
  }

  lemma DistributeFour(t: nat, a: nat, o: nat)
    ensures t * (4 * a + o) == 4 * (t * a) + t * o
  {
  }

  lemma Distribute3(m: nat, w: nat, x: nat)
    ensures (m + 2 * w) * x == m * x + 2 * (w * x)
  {
  }

  lemma Factor(p: nat, s: nat, r: nat, inner: nat)
    requires s + r == 2 * inner
    ensures p * s + p * r == 2 * p * inner
  {
    assert p * s + p * r == p * (s + r);
  }

  /** What the period rests on: 2^k steps add an odd multiple of 2^k. */
  lemma OddLeap(x: nat, k: nat) returns (h: nat)
    ensures Run(x, Pow2(k)) == x + Pow2(k) * (2 * h + 1)
  {
    Leap(x, k);
    h := 2 * (Slope(k) * x) + Offset(k);
  }

  // -------------------------------------------------------------------- the period

  ghost predicate Multiple(v: int, p: nat) {
    exists z: int :: v == p * z
  }

  /** Within 2^k steps every remainder modulo 2^k comes up. */
  lemma {:induction false} Hits(x: nat, y: nat, k: nat) returns (n: nat, z: int)
    ensures n < Pow2(k) && Run(x, n) == y + Pow2(k) * z
    decreases k
  {
    if k == 0 {
      n, z := 0, x - y;
    } else {
      var p := Pow2(k - 1);
      n, z := Hits(x, y, k - 1);
      if z % 2 == 0 {
        Halve(p, z);
        z := z / 2;
      } else {
        var h := OddLeap(Run(x, n), k - 1);
        RunTwice(x, n, p);
        OddHit(y, p, z, h);
        n, z := n + p, (z + 2 * h + 1) / 2;
      }
    }
  }

  lemma OddHit(y: nat, p: nat, z: int, h: nat)
    requires z % 2 != 0
    ensures y + p * z + p * (2 * h + 1) == y + 2 * p * ((z + 2 * h + 1) / 2)
  {
    AddMultiples(p, z, 2 * h + 1);
    Halve(p, z + (2 * h + 1));
  }

  lemma AddMultiples(p: nat, a: int, b: int)
    ensures p * a + p * b == p * (a + b)
  {
  }

  lemma Halve(p: nat, z: int)
    requires z % 2 == 0
    ensures p * z == 2 * p * (z / 2)
  {
    var h := z / 2;
    assert z == 2 * h;
  }

  /** Fewer than 2^k steps never lead back modulo 2^k. */
  lemma {:induction false} NoReturn(w: nat, d: nat, k: nat)
    requires 0 < d < Pow2(k)
    ensures !Multiple(Run(w, d) - w, Pow2(k))
    decreases k
  {
    var p := Pow2(k - 1);
    var h := OddLeap(w, k - 1);
    if d == p {
      OddMultiple(p, h);
    } else if d < p {
      NoReturn(w, d, k - 1);
      CoarserMultiple(Run(w, d) - w, p);
    } else {
      RunTwice(w, p, d - p);
      NoReturn(Run(w, p), d - p, k - 1);
      SumOfMultiples(Run(w, d) - w, p, 2 * h + 1);
      CoarserMultiple(Run(w, d) - w, p);
    }
  }

  lemma OddMultiple(p: nat, h: nat)
    requires p > 0
    ensures !Multiple(p * (2 * h + 1), 2 * p)
  {
    if z: int :| p * (2 * h + 1) == 2 * p * z {
      Twice(p, z);
      Cancel(p, 2 * h + 1, 2 * z);
    }
  }

  lemma Twice(p: nat, z: int)
    ensures 2 * p * z == p * (2 * z)
  {
  }

  lemma Cancel(p: nat, a: int, b: int)
    requires p > 0 && p * a == p * b
    ensures a == b
  {
    AddMultiples(p, a, -b);
    if a > b {
      MulMonotone(1, a - b, p);
    } else if a < b {
      MulMonotone(1, b - a, p);
      AddMultiples(p, b, -a);
    }
  }

  lemma CoarserMultiple(v: int, p: nat)
    ensures Multiple(v, 2 * p) ==> Multiple(v, p)
  {
    if z: int :| v == 2 * p * z {
      assert v == p * (2 * z);
    }
  }

  lemma SumOfMultiples(v: int, p: nat, s: nat)
    ensures Multiple(v, p) ==> Multiple(v - p * s, p)
  {
    if z: int :| v == p * z {
      assert v - p * s == p * (z - s);
    }
  }

  lemma {:induction false} IteratedLast(x: nat, n: nat)
    ensures Iterated(x, n + 1) == NextState(Iterated(x, n))
    decreases n
  {
    if n > 0 {
      IteratedLast(NextState(x), n - 1);
    }
  }

  /** The reduction drops multiples of 2^31 only. */
  lemma NextStateReduces(s: nat) returns (u: nat)
    ensures 1103515245 * s + 12345 == NextState(s) + MAX_RANGE * u && NextState(s) < MAX_RANGE
  {
    var v := 1103515245 * s + 12345;
    var r := v % TWO32;
    u := 2 * (v / TWO32) + r / MAX_RANGE;
  }

  lemma {:induction false} IteratedReduces(x: nat, n: nat) returns (t: nat)
    requires x < MAX_RANGE
    ensures Run(x, n) == Iterated(x, n) + MAX_RANGE * t && Iterated(x, n) < MAX_RANGE
  {
    if n == 0 {
      t := 0;
    } else {
      var before := IteratedReduces(x, n - 1);
      IteratedLast(x, n - 1);
      var u := NextStateReduces(Iterated(x, n - 1));
      t := u + 1103515245 * before;
    }
  }

  lemma RangeIsPower()
    ensures Pow2(31) == MAX_RANGE
  {
    assert Pow2(0) == 0x1 && Pow2(1) == 0x2 && Pow2(2) == 0x4 && Pow2(3) == 0x8;
    assert Pow2(4) == 0x10 && Pow2(5) == 0x20 && Pow2(6) == 0x40 && Pow2(7) == 0x80;
    assert Pow2(8) == 0x100 && Pow2(9) == 0x200 && Pow2(10) == 0x400 && Pow2(11) == 0x800;
    assert Pow2(12) == 0x1000 && Pow2(13) == 0x2000 && Pow2(14) == 0x4000 && Pow2(15) == 0x8000;
    assert Pow2(16) == 0x10000 && Pow2(17) == 0x20000 && Pow2(18) == 0x40000 && Pow2(19) == 0x80000;
    assert Pow2(20) == 0x100000 && Pow2(21) == 0x200000 && Pow2(22) == 0x400000 && Pow2(23) == 0x800000;
    assert Pow2(24) == 0x1000000 && Pow2(25) == 0x2000000 && Pow2(26) == 0x4000000 && Pow2(27) == 0x8000000;
    assert Pow2(28) == 0x10000000 && Pow2(29) == 0x20000000 && Pow2(30) == 0x40000000 && Pow2(31) == 0x80000000;
  }

  /** From every state, every state comes up within 2^31 steps. */
  lemma EveryStateArises(x: nat, y: nat) returns (n: nat)
    requires x < MAX_RANGE && y < MAX_RANGE
    ensures n < MAX_RANGE && Iterated(x, n) == y
  {
    RangeIsPower();
    var z;
    n, z := Hits(x, y, 31);
    var t := IteratedReduces(x, n);
    SameRemainder(Iterated(x, n), y, t, z);
  }

  lemma SameRemainder(a: nat, b: nat, t: int, z: int)
    requires a < MAX_RANGE && b < MAX_RANGE && a + MAX_RANGE * t == b + MAX_RANGE * z
    ensures a == b
  {
  }

  /** And no state comes up twice. */
  lemma NoStateTwice(x: nat, i: nat, j: nat)
    requires x < MAX_RANGE && i < j && j - i < MAX_RANGE
    ensures Iterated(x, i) != Iterated(x, j)
  {
    RangeIsPower();
    var s := IteratedReduces(x, i);
    var t := IteratedReduces(x, j);
    RunTwice(x, i, j - i);
    NoReturn(Run(x, i), j - i, 31);
    Differ(Run(x, i), Run(x, j), Iterated(x, i), Iterated(x, j), s, t);
  }

  lemma Differ(x: nat, y: nat, a: nat, b: nat, s: nat, t: nat)
    requires x == a + MAX_RANGE * s && y == b + MAX_RANGE * t && !Multiple(y - x, Pow2(31))
    ensures a != b
  {
    if a == b {
      IsMultiple(y - x, t - s);
    }
  }

  lemma IsMultiple(v: int, z: int)
    requires v == MAX_RANGE * z
    ensures Multiple(v, Pow2(31))
  {
    RangeIsPower();
    assert v == Pow2(31) * z;
  }

  /** The period is exactly 2^31. */
  lemma PeriodExact(x: nat, k: nat)
    requires x < MAX_RANGE && 0 < k <= MAX_RANGE
    ensures Iterated(x, k) == x <==> k == MAX_RANGE
  {
    if k < MAX_RANGE {
      NoStateTwice(x, 0, k);
    } else {
      RangeIsPower();
      var h := OddLeap(x, 31);
      var t := IteratedReduces(x, k);
      SameRemainder(Iterated(x, k), x, t, 2 * h + 1);
    }
  }
}
