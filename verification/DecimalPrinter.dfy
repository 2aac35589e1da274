/** The printers of 128-bit integers in gtest-printers.cc: long division of a two-word number by
    ten, in 64-bit arithmetic. */
module DecimalPrinter {

  import opened Basics

  const TWO127: int := 0x8000_0000_0000_0000_0000_0000_0000_0000
  const TWO128: int := 0x1_0000_0000_0000_0000_0000_0000_0000_0000

  /** An unsigned 64-bit word: leaving the range is an error, so no operation below wraps. */
  newtype uint64 = x: int | 0 <= x < 0x1_0000_0000_0000_0000

  predicate IsDigit(ch: char) { '0' <= ch <= '9' }

  predicate AllDigits(s: string) {
    forall i :: 0 <= i < |s| ==> IsDigit(s[i])
  }

  function Pow10(n: nat): (p: nat)
    ensures p > 0
  {
    if n == 0 then 1 else 10 * Pow10(n - 1)
  }

  function DigitValue(ch: char): nat
    requires IsDigit(ch)
  {
    ch as int - '0' as int
  }

  /** The number that a string of decimal digits denotes. */
  function Denotes(s: string): nat
    requires AllDigits(s)
  {
    if s == [] then 0 else DigitValue(s[0]) * Pow10(|s| - 1) + Denotes(s[1..])
  }

  /** Decimal digits without a leading zero (but "0" for zero). */
  predicate Canonical(s: string) {
    AllDigits(s) && s != [] && (s[0] == '0' ==> s == "0")
  }

  /** `s` is the decimal form of v. */
  predicate IsDecimal(s: string, v: nat) {
    Canonical(s) && Denotes(s) == v
  }

  lemma {:induction false} DenotesBound(s: string)
    requires AllDigits(s)
    ensures Denotes(s) < Pow10(|s|)
  {
    if s != [] {
      DenotesBound(s[1..]);
      var d, p := DigitValue(s[0]), Pow10(|s| - 1);
      MulMonotone(d, 9, p);
      assert Denotes(s) == d * p + Denotes(s[1..]);
    }
  }

  lemma {:induction false} Pow10Monotone(a: nat, b: nat)
    requires a <= b
    ensures Pow10(a) <= Pow10(b)
    decreases b - a
  {
    if a < b {
      Pow10Monotone(a, b - 1);
    }
  }

  lemma CanonicalLowerBound(s: string)
    requires Canonical(s)
    ensures |s| > 1 ==> Denotes(s) >= Pow10(|s| - 1)
  {
    if |s| > 1 {
      MulMonotone(1, DigitValue(s[0]), Pow10(|s| - 1));
    }
  }

  /** Two digit strings of one length that denote the same number are the same. */
  lemma {:induction false} DenotesInjective(s: string, t: string)
    requires AllDigits(s) && AllDigits(t) && |s| == |t| && Denotes(s) == Denotes(t)
    ensures s == t
  {
    if s != [] {
      DenotesBound(s[1..]);
      DenotesBound(t[1..]);
      LeadingDigit(DigitValue(s[0]), Denotes(s[1..]), DigitValue(t[0]), Denotes(t[1..]), Pow10(|s| - 1));
      DenotesInjective(s[1..], t[1..]);
      assert s == [s[0]] + s[1..] && t == [t[0]] + t[1..];
    }
  }

  lemma LeadingDigit(a: nat, x: nat, b: nat, y: nat, p: nat)
    requires x < p && y < p && a * p + x == b * p + y
    ensures a == b && x == y
  {
    if a < b {
      MulMonotone(a + 1, b, p);
    } else if b < a {
      MulMonotone(b + 1, a, p);
    }
  }

  /** A number has one decimal form only. */
  lemma DecimalUnique(s: string, t: string, v: nat)
    requires IsDecimal(s, v) && IsDecimal(t, v)
    ensures s == t
  {
    DenotesBound(s);
    DenotesBound(t);
    CanonicalLowerBound(s);
    CanonicalLowerBound(t);
    if |s| < |t| {
      Pow10Monotone(|s|, |t| - 1);
    } else if |t| < |s| {
      Pow10Monotone(|t|, |s| - 1);
    }
    DenotesInjective(s, t);
  }

  lemma {:induction false} Pow10Add(a: nat, b: nat)
    ensures Pow10(a + b) == Pow10(a) * Pow10(b)
  {
    if a > 0 {
      Pow10Add(a - 1, b);
      assert 10 * (Pow10(a - 1) * Pow10(b)) == (10 * Pow10(a - 1)) * Pow10(b);
    }
  }

  /** 39 digits are enough. */
  lemma DigitsSuffice()
    ensures TWO128 < Pow10(39)
  {
    assert Pow10(3) == 1000 by { assert Pow10(1) == 10; assert Pow10(2) == 100; }
    Pow10Add(3, 3);
    assert Pow10(6) == 1000_000;
    Pow10Add(6, 6);
    Pow10Add(12, 1);
    assert Pow10(13) == 10_000_000_000_000;
    Pow10Add(13, 13);
    Pow10Add(26, 13);
  }

  /** The two words as one number. */
  function Words(high: uint64, low: uint64): nat {
    high as int * TWO64 + low as int
  }

  /** One step of the long division: the digit that falls out, and the quotient. */
  method DivideByTen(high: uint64, low: uint64) returns (high': uint64, low': uint64, digit: uint64)
    ensures digit < 10
    ensures Words(high, low) == 10 * Words(high', low') + digit as int
  {
    var highMod := high % 10;
    high' := high / 10;
    var carry := 6 * highMod + low % 10;
    low' := low / 10 + highMod * 1844674407370955161 + carry / 10;
    digit := carry % 10;
  }

  /** The loop's account: n is still to be divided, s has been written from position p on. */
  ghost predicate Progress(v: nat, n: nat, p: nat, s: string) {
    && p <= 39 && |s| == 39 - p && AllDigits(s)
    && n < Pow10(p)
    && v == n * Pow10(|s|) + Denotes(s)
    && (n == 0 ==> s != [] && s[0] != '0')
  }

  lemma NextDigit(v: nat, n: nat, p: nat, s: string, q: nat, d: nat)
    requires Progress(v, n, p, s) && n > 0 && n == 10 * q + d && d < 10
    ensures p > 0 && Progress(v, q, p - 1, [('0' as int + d) as char] + s)
  {
    var s' := [('0' as int + d) as char] + s;
    assert s'[1..] == s;
    Shift(q, d, Pow10(|s|));
    assert Denotes(s') == d * Pow10(|s|) + Denotes(s);
    assert Pow10(|s'|) == 10 * Pow10(|s|);
  }

  lemma Shift(q: nat, d: nat, p: nat)
    ensures (10 * q + d) * p == q * (10 * p) + d * p
  {
  }

  lemma Finished(v: nat, p: nat, s: string)
    requires Progress(v, 0, p, s)
    ensures IsDecimal(s, v)
  {
  }

  /** The loop of PrintTo(__uint128_t): fills a 40-byte buffer from the end. */
  method FormatDigits(v: nat) returns (text: string)
    requires 0 < v < TWO128
    ensures IsDecimal(text, v) && |text| <= 39
  {
    var buf := new char[40];
    var high: uint64 := (v / TWO64) as uint64;
    var low: uint64 := (v % TWO64) as uint64;
    var p := 39;
    buf[p] := '\0';
    ghost var s := "";
    DigitsSuffice();
    while high != 0 || low != 0
      invariant 0 <= p <= 39 && s == buf[p..39]
      invariant Progress(v, Words(high, low), p, s)
      decreases Words(high, low)
    {
      var digit: uint64;
      ghost var n := Words(high, low);
      high, low, digit := DivideByTen(high, low);
      NextDigit(v, n, p, s, Words(high, low), digit as int);
      p := p - 1;
      buf[p] := ('0' as int + digit as int) as char;
      s := [buf[p]] + s;
    }
    Finished(v, p, s);
    return buf[p..39];
  }

  method PrintUnsigned(v: nat, os: OStream)
    requires v < TWO128
    modifies os
    ensures exists s :: IsDecimal(s, v) && os.text == old(os.text) + s
  {
    if v == 0 {
      assert Denotes("0") == 0 && IsDecimal("0", 0);
      os.Put("0");
      return;
    }
    var text := FormatDigits(v);
    os.Put(text);
  }

  /** PrintTo(__int128_t): a sign, then the magnitude, negated in 128-bit arithmetic. */
  method PrintSigned(v: int, os: OStream)
    requires -TWO127 <= v < TWO127
    modifies os
    ensures exists s :: Canonical(s) && os.text == old(os.text) + (if v < 0 then "-" else "") + s
                        && v == (if v < 0 then -1 else 1) * Denotes(s)
  {
    var uv := v % TWO128;
    ghost var start := os.text;
    if v < 0 {
      os.Put("-");
      uv := (-uv) % TWO128;
    }
    assert uv == if v < 0 then -v else v;
    assert os.text == start + if v < 0 then "-" else "";
    PrintUnsigned(uv, os);
  }
}
