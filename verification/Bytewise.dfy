/** The bitwise or of numbers, digit by digit. */
module Bytewise {

  import opened Basics

  function Digit(set_: bool): (d: nat)
    ensures d < 2
  {
    if set_ then 1 else 0
  }

  function Or(a: nat, b: nat): nat {
    if a == 0 && b == 0 then 0 else Digit(a % 2 == 1 || b % 2 == 1) + 2 * Or(a / 2, b / 2)
  }

  lemma OrUnfolds(a: nat, b: nat, p: bool, q: bool)
    ensures Or(2 * a + Digit(p), 2 * b + Digit(q)) == 2 * Or(a, b) + Digit(p || q)
  {
    var x, y := 2 * a + Digit(p), 2 * b + Digit(q);
    assert x / 2 == a && y / 2 == b && x % 2 == Digit(p) && y % 2 == Digit(q);
  }

  /** On bytes it is the operator of the machine. */
  lemma OrIsBitwise(x: bv8, y: bv8)
    ensures Or(x as int, y as int) == (x | y) as int
  {
    OrWithin(x, y, x as int + y as int);
  }

  lemma {:induction false} OrWithin(x: bv8, y: bv8, n: nat)
    requires x as int + y as int <= n
    ensures Or(x as int, y as int) == (x | y) as int
    decreases n
  {
    if n == 0 {
      BothZero(x, y);
    } else {
      HalvesAreLess(x, y, n);
      OrWithin(x >> 1, y >> 1, n - 1);
      OrFromHalves(x, y, (x >> 1) as int, (y >> 1) as int, ((x >> 1) | (y >> 1)) as int);
    }
  }

  lemma BothZero(x: bv8, y: bv8)
    requires x as int + y as int == 0
    ensures Or(x as int, y as int) == (x | y) as int
  {
    ZeroBits(x);
    ZeroBits(y);
    assert x == 0 && y == 0;
  }

  lemma HalvesAreLess(x: bv8, y: bv8, n: nat)
    requires 0 < n && x as int + y as int <= n
    ensures (x >> 1) as int + (y >> 1) as int <= n - 1
  {
    ZeroBits(x);
    ZeroBits(y);
  }

  lemma OrFromHalves(x: bv8, y: bv8, a: nat, b: nat, c: nat)
    requires a == (x >> 1) as int && b == (y >> 1) as int && c == ((x >> 1) | (y >> 1)) as int && Or(a, b) == c
    ensures Or(x as int, y as int) == (x | y) as int
  {
    Halves(x);
    Halves(y);
    HalvesOfOr(x, y);
    OrUnfolds(a, b, x & 1 == 1, y & 1 == 1);
  }

  lemma HalvesOfOr(x: bv8, y: bv8)
    ensures (x | y) as int == 2 * (((x >> 1) | (y >> 1)) as int) + Digit(x & 1 == 1 || y & 1 == 1)
  {
    Halves(x | y);
    OrOfHalves(x, y);
  }

  lemma ZeroBits(x: bv8)
    ensures x as int == 0 <==> x == 0
    ensures (x >> 1) as int <= x as int && (x != 0 ==> (x >> 1) as int < x as int)
  {
  }

  lemma Halves(x: bv8)
    ensures x as int == 2 * ((x >> 1) as int) + Digit(x & 1 == 1)
  {
    assert x as int / 2 == (x >> 1) as int;
    LowestBit(x);
  }

  lemma LowestBit(x: bv8)
    ensures x as int % 2 == (x & 1) as int && (x & 1 == 0 || x & 1 == 1)
  {
  }

  lemma OrOfHalves(x: bv8, y: bv8)
    ensures (x | y) >> 1 == (x >> 1) | (y >> 1)
    ensures (x | y) & 1 == 1 <==> x & 1 == 1 || y & 1 == 1
  {
  }

  lemma {:induction false} OrNothing(a: nat)
    ensures Or(a, 0) == a == Or(0, a)
  {
    if a > 0 {
      OrNothing(a / 2);
    }
  }

  /** Where one number uses the digits from n up and the other those below, the or is the sum. */
  lemma {:induction false} OrIsSum(a: nat, b: nat, n: nat)
    requires b < Pow2(n)
    ensures Or(a * Pow2(n), b) == a * Pow2(n) + b
  {
    if n == 0 {
      OrNothing(a);
    } else {
      var high := a * Pow2(n - 1);
      assert a * Pow2(n) == 2 * high;
      OrIsSum(a, b / 2, n - 1);
      OrUnfolds(high, b / 2, false, b % 2 == 1);
    }
  }
}
