/** The double-buffered timing trace (src/trace.c) and its statistics, in 64-bit arithmetic. */
module Traces {

  import opened Basics

  const TWO63: int := 0x8000_0000_0000_0000

  type UInt64 = x: int | 0 <= x < 0x1_0000_0000_0000_0000

  // -------------------------------------------------------------------- statistics

  function Sum(v: seq<UInt64>): nat {
    if v == [] then 0 else Sum(v[..|v| - 1]) + v[|v| - 1]
  }

  function MinOf(v: seq<UInt64>): UInt64
    requires v != []
  {
    if |v| == 1 then v[0]
    else var m := MinOf(v[..|v| - 1]); if m > v[|v| - 1] then v[|v| - 1] else m
  }

  function MaxOf(v: seq<UInt64>): UInt64
    requires v != []
  {
    if |v| == 1 then v[0]
    else var m := MaxOf(v[..|v| - 1]); if m < v[|v| - 1] then v[|v| - 1] else m
  }

  /** The running minimum and maximum are values of the sequence, and bound all of them. */
  lemma {:induction false} MinMaxCorrect(v: seq<UInt64>)
    requires v != []
    ensures MinOf(v) in v && MaxOf(v) in v
    ensures forall i :: 0 <= i < |v| ==> MinOf(v) <= v[i] <= MaxOf(v)
    decreases |v|
  {
    var n := |v| - 1;
    if n > 0 {
      MinMaxCorrect(v[..n]);
      forall i | 0 <= i < n ensures MinOf(v[..n]) <= v[i] <= MaxOf(v[..n]) {
        assert v[..n][i] == v[i];
      }
    }
  }

  /** The sum is accumulated modulo 2^64. */
  function Average(v: seq<UInt64>): UInt64
    requires v != []
  {
    Sum(v) % TWO64 / |v|
  }

  function ToInt64(x: UInt64): int {
    if x < TWO63 then x else x - TWO64
  }

  function Abs(x: int): nat {
    if x < 0 then -x else x
  }

  /** The difference of two words, modulo 2^64. */
  function Minus(a: UInt64, b: UInt64): (d: UInt64)
    ensures d == (a as int - b as int) % TWO64
  {
    if a >= b then a - b else a as int - b as int + TWO64
  }

  /** |(int64) avg - x|: the difference is taken modulo 2^64 and read as signed. */
  function Deviation(avg: UInt64, x: UInt64): nat {
    Abs(ToInt64(Minus(avg, x)))
  }

  function MaxDeviation(v: seq<UInt64>, avg: UInt64): nat {
    if v == [] then 0
    else
      var m, d := MaxDeviation(v[..|v| - 1], avg), Deviation(avg, v[|v| - 1]);
      if d > m then d else m
  }

  function SquareSum(v: seq<UInt64>, avg: UInt64): nat {
    if v == [] then 0
    else SquareSum(v[..|v| - 1], avg) + Deviation(avg, v[|v| - 1]) * Deviation(avg, v[|v| - 1])
  }

  /** The exact integer root, where the source calls a floating-point one. */
  function Root(n: nat): (r: nat)
    ensures r * r <= n < (r + 1) * (r + 1)
  {
    if n == 0 then 0
    else
      var r := Root(n - 1);
      if (r + 1) * (r + 1) <= n then r + 1 else r
  }

  /** The average jitter of `cnt` measurements. */
  function AverageJitter(v: seq<UInt64>, avg: UInt64, cnt: nat): nat
    requires cnt > 0
  {
    Root(SquareSum(v, avg) % TWO64 / cnt)
  }

  /** No square overflows a signed 64-bit product: the source is undefined otherwise. */
  ghost predicate SquaresFit(v: seq<UInt64>, avg: UInt64) {
    forall i :: 0 <= i < |v| ==> Deviation(avg, v[i]) * Deviation(avg, v[i]) < TWO63
  }

  // ------------------------------------------------------------ what the numbers mean

  lemma SumAppend(v: seq<UInt64>, x: UInt64)
    ensures Sum(v + [x]) == Sum(v) + x
  {
    assert (v + [x])[..|v|] == v;
  }

  lemma {:induction false} SumBounds(v: seq<UInt64>, lo: nat, hi: nat)
    requires forall i :: 0 <= i < |v| ==> lo <= v[i] <= hi
    ensures |v| * lo <= Sum(v) <= |v| * hi
  {
    if v != [] {
      var n := |v| - 1;
      SumBounds(v[..n], lo, hi);
      assert v == v[..n] + [v[n]];
      OneMoreTime(n, lo);
      OneMoreTime(n, hi);
      SumAppend(v[..n], v[n]);
    }
  }

  lemma DivisionBounds(s: nat, n: nat, lo: nat, hi: nat)
    requires n > 0 && n * lo <= s <= n * hi
    ensures lo <= s / n <= hi
  {
    var q := s / n;
    assert n * q <= s < n * q + n;
    assert n * (q + 1) == n * q + n && n * (hi + 1) == n * hi + n;
    CancelLess(n, lo, q + 1);
    CancelLess(n, q, hi + 1);
  }

  lemma NoWrap(a: nat)
    requires a < TWO64
    ensures a % TWO64 == a
  {
  }

  /** Without overflow of the sum, the average lies between the least and the greatest value. */
  lemma AverageBetween(v: seq<UInt64>)
    requires v != [] && Sum(v) < TWO64
    ensures Average(v) == Sum(v) / |v|
    ensures MinOf(v) <= Average(v) <= MaxOf(v)
  {
    NoWrap(Sum(v));
    var lo, hi, s, n := MinOf(v), MaxOf(v), Sum(v), |v|;
    MinMaxCorrect(v);
    SumBounds(v, lo, hi);
    DivisionBounds(s, n, lo, hi);
  }

  lemma DeviationExact(avg: UInt64, x: UInt64)
    requires avg < TWO63 && x < TWO63
    ensures Deviation(avg, x) == Abs(avg - x)
  {
  }

  lemma {:induction false} MaxDeviationAttained(v: seq<UInt64>, avg: UInt64) returns (k: nat)
    requires v != []
    ensures k < |v| && MaxDeviation(v, avg) == Deviation(avg, v[k])
    ensures forall i :: 0 <= i < |v| ==> Deviation(avg, v[i]) <= MaxDeviation(v, avg)
    decreases |v|
  {
    var n := |v| - 1;
    k := n;
    if n > 0 {
      var j := MaxDeviationAttained(v[..n], avg);
      forall i | 0 <= i < n ensures Deviation(avg, v[i]) <= MaxDeviation(v[..n], avg) {
        assert v[..n][i] == v[i];
      }
      if Deviation(avg, v[n]) <= Deviation(avg, v[j]) {
        k := j;
      }
    }
  }

  function Max(a: nat, b: nat): nat {
    if a < b then b else a
  }

  /** The maximum jitter is the distance of the average from the farther end. */
  lemma MaxJitterExact(v: seq<UInt64>, avg: UInt64)
    requires v != [] && (forall i :: 0 <= i < |v| ==> v[i] < TWO63)
    requires MinOf(v) <= avg <= MaxOf(v)
    ensures MaxDeviation(v, avg) == Max(avg - MinOf(v), MaxOf(v) - avg)
  {
    MinMaxCorrect(v);
    var k := MaxDeviationAttained(v, avg);
    var least :| 0 <= least < |v| && v[least] == MinOf(v);
    var greatest :| 0 <= greatest < |v| && v[greatest] == MaxOf(v);
    DeviationExact(avg, v[k]);
    DeviationExact(avg, v[least]);
    DeviationExact(avg, v[greatest]);
  }

  lemma {:induction false} SquareSumBound(v: seq<UInt64>, avg: UInt64)
    ensures SquareSum(v, avg) <= |v| * (MaxDeviation(v, avg) * MaxDeviation(v, avg))
  {
    if v != [] {
      var n := |v| - 1;
      SquareSumBound(v[..n], avg);
      SquareStep(n, SquareSum(v[..n], avg), Deviation(avg, v[n]), MaxDeviation(v[..n], avg), MaxDeviation(v, avg));
    }
  }

  lemma SquareStep(n: nat, s: nat, d: nat, before: nat, m: nat)
    requires s <= n * (before * before) && d <= m && before <= m
    ensures s + d * d <= (n + 1) * (m * m)
  {
    SquareMonotone(d, m);
    SquareMonotone(before, m);
    MulMonotone(before * before, m * m, n);
    var q := m * m;
    assert (n + 1) * q == n * q + q;
  }

  lemma SquareMonotone(a: nat, b: nat)
    requires a <= b
    ensures a * a <= b * b
  {
    MulMonotone(a, b, a);
    MulMonotone(a, b, b);
  }

  lemma RootBound(s: nat, cnt: nat, m: nat)
    requires cnt > 0 && s <= cnt * (m * m)
    ensures Root(s / cnt) <= m
  {
    var q := m * m;
    DivisionBounds(s, cnt, 0, q);
    var r := Root(s / cnt);
    assert (m + 1) * (m + 1) == q + 2 * m + 1;
    if r > m {
      SquareMonotone(m + 1, r);
    }
  }

  /** Without overflow of the accumulated squares, the average jitter is at most the maximum one. */
  lemma AverageJitterAtMostMax(v: seq<UInt64>, avg: UInt64, cnt: nat)
    requires 0 < cnt && |v| <= cnt && SquareSum(v, avg) < TWO64
    ensures AverageJitter(v, avg, cnt) <= MaxDeviation(v, avg)
  {
    var m, s := MaxDeviation(v, avg), SquareSum(v, avg);
    SquareSumBound(v, avg);
    MulMonotone(|v|, cnt, m * m);
    NoWrap(s);
    RootBound(s, cnt, m);
  }

  /** The squared distances from the average, summed up as numbers. */
  function SquaredDistance(v: seq<UInt64>, avg: int): nat {
    if v == [] then 0
    else SquareIsNat(v[0] - avg); (v[0] - avg) * (v[0] - avg) + SquaredDistance(v[1..], avg)
  }

  lemma SquareIsNat(d: int)
    ensures d * d >= 0
  {
  }

  lemma {:induction false} DistanceAppend(v: seq<UInt64>, x: UInt64, avg: int)
    ensures SquaredDistance(v + [x], avg) == SquaredDistance(v, avg) + (x - avg) * (x - avg)
    decreases |v|
  {
    if v == [] {
      assert [x][1..] == [] && v + [x] == [x];
    } else {
      assert (v + [x])[1..] == v[1..] + [x];
      DistanceAppend(v[1..], x, avg);
    }
  }

  /** If all values are at distance d, that is their number times the square of d. */
  lemma {:induction false} DistanceOfEqual(v: seq<UInt64>, avg: int, d: nat)
    requires forall i :: 0 <= i < |v| ==> v[i] == avg + d || v[i] == avg - d
    ensures SquaredDistance(v, avg) == |v| * (d * d)
    decreases |v|
  {
    if v != [] {
      DistanceOfEqual(v[1..], avg, d);
      SameSquare(v[0] - avg, d);
      OneMoreTime(|v| - 1, d * d);
    }
  }

  lemma SameSquare(x: int, d: nat)
    requires x == d || x + d == 0
    ensures x * x == d * d
  {
  }

  lemma AbsSquare(d: int)
    ensures Abs(d) * Abs(d) == d * d
  {
  }

  /** The loop adds up these squares, as long as the values are below 2^63. */
  lemma {:induction false} SquareSumExact(v: seq<UInt64>, avg: UInt64)
    requires avg < TWO63 && forall i :: 0 <= i < |v| ==> v[i] < TWO63
    ensures SquareSum(v, avg) == SquaredDistance(v, avg)
    decreases |v|
  {
    if v != [] {
      var n := |v| - 1;
      SquareSumExact(v[..n], avg);
      DeviationExact(avg, v[n]);
      AbsSquare(avg - v[n]);
      AbsSquare(v[n] - avg);
      DistanceAppend(v[..n], v[n], avg);
      assert v == v[..n] + [v[n]];
    }
  }

  /** r is the integer root of s divided by cnt. */
  ghost predicate IsMeanRoot(r: nat, s: nat, cnt: nat) {
    cnt * (r * r) <= s < cnt * ((r + 1) * (r + 1))
  }

  /** Without overflow of the accumulated squares, the average jitter is the root of their mean. */
  lemma AverageJitterExact(v: seq<UInt64>, avg: UInt64, cnt: nat)
    requires 0 < cnt && avg < TWO63 && forall i :: 0 <= i < |v| ==> v[i] < TWO63
    requires SquaredDistance(v, avg) < TWO64
    ensures IsMeanRoot(AverageJitter(v, avg, cnt), SquaredDistance(v, avg), cnt)
  {
    SquareSumExact(v, avg);
    NoWrap(SquareSum(v, avg));
    MeanRoot(SquaredDistance(v, avg), cnt, AverageJitter(v, avg, cnt));
  }

  lemma MeanRoot(s: nat, cnt: nat, r: nat)
    requires cnt > 0 && r * r <= s / cnt < (r + 1) * (r + 1)
    ensures IsMeanRoot(r, s, cnt)
  {
    MeanBetween(s, cnt, r * r, (r + 1) * (r + 1));
  }

  lemma MeanBetween(s: nat, cnt: nat, a: nat, b: nat)
    requires cnt > 0 && a <= s / cnt < b
    ensures cnt * a <= s < cnt * b
  {
    Quotient(s, cnt);
    MulMonotone(a, s / cnt, cnt);
    MulMonotone(s / cnt + 1, b, cnt);
  }

  lemma Quotient(s: nat, n: nat)
    requires n > 0
    ensures n * (s / n) <= s < n * (s / n + 1)
  {
    var q := s / n;
    assert n * q <= s < n * q + n;
    assert n * (q + 1) == n * q + n;
  }

  // ------------------------------------------------------------------------ intervals

  function Interval(t: seq<UInt64>, i: nat): UInt64
    requires i + 1 < |t|
  {
    Minus(t[i + 1], t[i])
  }

  function Intervals(t: seq<UInt64>): (v: seq<UInt64>)
    requires t != []
    ensures |v| == |t| - 1 && forall i :: 0 <= i < |v| ==> v[i] == Interval(t, i)
  {
    seq(|t| - 1, i requires 0 <= i < |t| - 1 => Interval(t, i))
  }

  ghost predicate Nondecreasing(t: seq<UInt64>) {
    forall i, j :: 0 <= i <= j < |t| ==> t[i] <= t[j]
  }

  /** The intervals of a nondecreasing trace telescope. */
  lemma {:induction false} IntervalsTelescope(t: seq<UInt64>)
    requires t != [] && Nondecreasing(t)
    ensures Sum(Intervals(t)) == t[|t| - 1] - t[0]
    ensures forall i :: 0 <= i < |t| - 1 ==> Intervals(t)[i] == t[i + 1] - t[i]
    decreases |t|
  {
    if |t| > 1 {
      var n := |t| - 1;
      IntervalsTelescope(t[..n]);
      assert Intervals(t)[..n - 1] == Intervals(t[..n]);
    }
  }

  /** What the four numbers say of the values: their mean rounded down, the distance of the mean
      from the farther end, and, as long as nothing overflows, the root of the mean square. */
  ghost predicate Describes(v: seq<UInt64>, cnt: nat, avg: UInt64, avgJit: nat, maxJit: nat)
    requires v != []
  {
    && |v| * avg <= Sum(v) < |v| * (avg + 1) && MinOf(v) <= avg <= MaxOf(v)
    && maxJit == Max(avg - MinOf(v), MaxOf(v) - avg)
    && (SquaredDistance(v, avg) < TWO64 ==>
          IsMeanRoot(avgJit, SquaredDistance(v, avg), cnt) && avgJit <= maxJit)
  }

  /** The interval analysis of a nondecreasing trace that spans less than 2^63 ns. */
  lemma IntervalAnalysis(t: seq<UInt64>)
    requires |t| >= 2 && Nondecreasing(t) && t[|t| - 1] - t[0] < TWO63
    ensures
      var v := Intervals(t);
      var avg := Average(v);
      && avg == (t[|t| - 1] - t[0]) / (|t| - 1) && Sum(v) == t[|t| - 1] - t[0]
      && Describes(v, |t|, avg, AverageJitter(v, avg, |t|), MaxDeviation(v, avg))
  {
    var v := Intervals(t);
    IntervalsTelescope(t);
    forall i | 0 <= i < |v| ensures v[i] < TWO63 {
      assert t[0] <= t[i] <= t[i + 1] <= t[|t| - 1];
    }
    AverageBetween(v);
    Analysis(v, |t|);
  }

  /** What the statistics of any values mean, when the sum does not overflow. */
  lemma Analysis(v: seq<UInt64>, cnt: nat)
    requires 0 < |v| <= cnt && Sum(v) < TWO64 && (forall i :: 0 <= i < |v| ==> v[i] < TWO63)
    ensures Describes(v, cnt, Average(v), AverageJitter(v, Average(v), cnt), MaxDeviation(v, Average(v)))
  {
    var avg := Average(v);
    AverageBetween(v);
    Quotient(Sum(v), |v|);
    MaxJitterExact(v, avg);
    MaxBelow(v);
    JitterDescribed(v, avg, cnt);
  }

  lemma MaxBelow(v: seq<UInt64>)
    requires v != [] && forall i :: 0 <= i < |v| ==> v[i] < TWO63
    ensures MaxOf(v) < TWO63
  {
    MinMaxCorrect(v);
  }

  lemma JitterDescribed(v: seq<UInt64>, avg: UInt64, cnt: nat)
    requires 0 < |v| <= cnt && avg < TWO63 && (forall i :: 0 <= i < |v| ==> v[i] < TWO63)
    ensures SquaredDistance(v, avg) < TWO64 ==>
              && IsMeanRoot(AverageJitter(v, avg, cnt), SquaredDistance(v, avg), cnt)
              && AverageJitter(v, avg, cnt) <= MaxDeviation(v, avg)
  {
    SquareSumExact(v, avg);
    if SquaredDistance(v, avg) < TWO64 {
      AverageJitterAtMostMax(v, avg, cnt);
      AverageJitterExact(v, avg, cnt);
    }
  }

  // -------------------------------------------------------------------- the recorder

  function Zeros(n: nat): (v: seq<UInt64>)
    ensures |v| == n && forall i :: 0 <= i < n ==> v[i] == 0
  {
    seq(n, _ => 0)
  }

  /** The buffers after the complete blocks `done` and the times `current` of the block being filled. */
  ghost predicate Recorded(cnt: nat, pos: nat, active: seq<UInt64>, inactive: seq<UInt64>,
                           blocks: nat, done: seq<UInt64>, current: seq<UInt64>)
  {
    && |active| == |inactive| == cnt && (pos < cnt || cnt == 0 == pos) && current == active[..pos]
    && |done| == blocks * cnt
    && (if blocks == 0 then inactive == Zeros(cnt) else |done| >= cnt && inactive == done[|done| - cnt..])
  }

  lemma Stored(cnt: nat, pos: nat, active: seq<UInt64>, inactive: seq<UInt64>,
               blocks: nat, done: seq<UInt64>, current: seq<UInt64>, time: UInt64)
    requires Recorded(cnt, pos, active, inactive, blocks, done, current) && pos + 1 < cnt
    ensures Recorded(cnt, pos + 1, active[pos := time], inactive, blocks, done, current + [time])
  {
  }

  lemma Swapped(cnt: nat, pos: nat, active: seq<UInt64>, inactive: seq<UInt64>,
                blocks: nat, done: seq<UInt64>, current: seq<UInt64>, time: UInt64)
    requires Recorded(cnt, pos, active, inactive, blocks, done, current) && pos + 1 == cnt
    ensures Recorded(cnt, 0, inactive, active[pos := time], blocks + 1, done + (current + [time]), [])
  {
    var filled := active[pos := time];
    assert filled == current + [time];
    assert (done + filled)[|done|..] == filled;
    assert (blocks + 1) * cnt == blocks * cnt + cnt;
  }

  /** Once a block is complete, the inactive buffer is exactly the last complete block of the history. */
  lemma InactiveIsLastBlock(cnt: nat, pos: nat, active: seq<UInt64>, inactive: seq<UInt64>,
                            blocks: nat, done: seq<UInt64>, current: seq<UInt64>)
    requires Recorded(cnt, pos, active, inactive, blocks, done, current) && cnt > 0
    ensures blocks == |done + current| / cnt && pos == |done + current| % cnt
    ensures blocks > 0 ==> |done| >= cnt && inactive == (done + current)[|done| - cnt..|done|]
  {
    QuotientUnique(blocks, cnt, pos);
  }

  /** The last complete block of a history; zeros if there is none. */
  ghost function LastBlock(h: seq<UInt64>, cnt: nat): (b: seq<UInt64>)
    requires cnt > 0
    ensures |b| == cnt
  {
    var end := |h| - |h| % cnt;
    if |h| < cnt then Zeros(cnt) else BlockFits(|h|, cnt); h[end - cnt..end]
  }

  lemma BlockFits(n: nat, cnt: nat)
    requires 0 < cnt <= n
    ensures cnt <= n - n % cnt <= n
  {
    var q := n / cnt;
    MulMonotone(1, cnt, n);
    DivisionBounds(n, cnt, 1, n);
    MulMonotone(1, q, cnt);
    assert n == q * cnt + n % cnt;
  }

  class Trace {
    const cnt: nat
    var actBuf: nat
    var pos: nat
    const buf0: array<UInt64>
    const buf1: array<UInt64>
    const tmp: array<UInt64>
    // The value of sync_sem.
    var posted: bool

    // All times traced: those of the complete blocks, then those of the block being filled.
    ghost var blocks: nat
    ghost var done: seq<UInt64>
    ghost var current: seq<UInt64>

    function Active(): array<UInt64>
      reads `actBuf
    {
      if actBuf == 0 then buf0 else buf1
    }

    function Inactive(): array<UInt64>
      reads `actBuf
    {
      if actBuf == 0 then buf1 else buf0
    }

    ghost function History(): seq<UInt64>
      reads this
    {
      done + current
    }

    ghost predicate Valid()
      reads this, buf0, buf1
    {
      && cnt < TWO32 && tmp.Length == cnt
      && buf0 != buf1 && tmp != buf0 && tmp != buf1
      && actBuf < 2
      && Recorded(cnt, pos, Active()[..], Inactive()[..], blocks, done, current)
    }

    /** osal_trace_alloc. */
    constructor (n: nat)
      requires n < TWO32
      ensures Valid() && cnt == n && History() == [] && !posted
      ensures fresh(buf0) && fresh(buf1) && fresh(tmp)
    {
      cnt, actBuf, pos, posted := n, 0, 0, false;
      buf0 := new UInt64[n](_ => 0);
      buf1 := new UInt64[n](_ => 0);
      tmp := new UInt64[n](_ => 0);
      blocks, done, current := 0, [], [];
      new;
      assert buf1[..] == Zeros(cnt);
    }

    /** osal_trace_time: stores a time and, when the buffer is full, swaps the buffers and posts. */
    method Time(time: UInt64)
      requires Valid() && cnt > 0
      modifies this, Active()
      ensures Valid() && History() == old(History()) + [time]
      ensures pos == if old(pos) + 1 == cnt then 0 else old(pos) + 1
      ensures posted == (old(posted) || pos == 0)
    {
      StoreTime(time);
      if pos >= cnt {
        SwapBuffers();
        posted := true;
      }
    }

    /** The buffers and the history between a store and the exchange, if there is one. */
    ghost predicate Filled()
      reads this, buf0, buf1
    {
      && 0 < cnt < TWO32 && tmp.Length == cnt && buf0 != buf1 && tmp != buf0 && tmp != buf1 && actBuf < 2
      && pos <= cnt
      && (pos < cnt ==> Recorded(cnt, pos, Active()[..], Inactive()[..], blocks, done, current))
      && (pos == cnt ==> Recorded(cnt, 0, Inactive()[..], Active()[..], blocks + 1, done + current, []))
    }

    /** The store into the active buffer. */
    method StoreTime(time: UInt64)
      requires Valid() && cnt > 0
      modifies Active(), `pos, `current
      ensures Filled() && pos == old(pos) + 1 && done == old(done) && current == old(current) + [time]
    {
      ghost var active, inactive := Active()[..], Inactive()[..];
      if pos + 1 < cnt {
        Stored(cnt, pos, active, inactive, blocks, done, current, time);
      } else {
        Swapped(cnt, pos, active, inactive, blocks, done, current, time);
      }
      var filling := Active();
      filling[pos] := time;
      assert filling[..] == active[pos := time];
      pos := pos + 1;
      current := current + [time];
    }

    /** Exchanges a full buffer for the other one. */
    method SwapBuffers()
      requires Filled() && pos == cnt
      modifies `actBuf, `pos, `blocks, `done, `current
      ensures Valid() && pos == 0 && History() == old(History())
    {
      actBuf := if actBuf == 0 then 1 else 0;
      pos := 0;
      done, current, blocks := done + current, [], blocks + 1;
    }

    /** osal_trace_get_last_time: the latest time, or 0 if there is none. */
    method GetLastTime() returns (t: UInt64)
      requires Valid() && cnt > 0
      ensures t == if History() == [] then 0 else History()[|History()| - 1]
    {
      if pos == 0 {
        t := Inactive()[cnt - 1];
      } else {
        t := Active()[pos - 1];
      }
    }

    /** The analyses read the last complete block. */
    lemma InactiveHoldsLastBlock()
      requires Valid() && cnt > 0
      ensures Inactive()[..] == LastBlock(History(), cnt)
    {
      InactiveIsLastBlock(cnt, pos, Active()[..], Inactive()[..], blocks, done, current);
      Quotient(|History()|, cnt);
    }

    /** osal_trace_analyze_min_max: the intervals between the times of the last block. */
    method AnalyzeMinMax() returns (avg: UInt64, avgJit: nat, maxJit: nat, minVal: UInt64, maxVal: UInt64)
      requires Valid() && cnt >= 2
      requires SquaresFit(Intervals(LastBlock(History(), cnt)), Average(Intervals(LastBlock(History(), cnt))))
      modifies tmp
      ensures Valid()
      ensures
        var v := Intervals(LastBlock(History(), cnt));
        && tmp[..cnt - 1] == v
        && avg == Average(v) && minVal == MinOf(v) && maxVal == MaxOf(v)
        && maxJit == MaxDeviation(v, avg) && avgJit == AverageJitter(v, avg, cnt)
    {
      InactiveHoldsLastBlock();
      var sum;
      sum, minVal, maxVal := Differences(Inactive(), tmp);
      avg := sum / (cnt - 1);
      maxJit, avgJit := Jitter(tmp, cnt - 1, avg, cnt);
    }

    /** osal_trace_analyze_rel_min_max: the times of the last block themselves. */
    method AnalyzeRelMinMax() returns (avg: UInt64, avgJit: nat, maxJit: nat, minVal: UInt64, maxVal: UInt64)
      requires Valid() && cnt > 0
      requires SquaresFit(LastBlock(History(), cnt), Average(LastBlock(History(), cnt)))
      ensures
        var v := LastBlock(History(), cnt);
        && avg == Average(v) && minVal == MinOf(v) && maxVal == MaxOf(v)
        && maxJit == MaxDeviation(v, avg) && avgJit == AverageJitter(v, avg, cnt)
    {
      InactiveHoldsLastBlock();
      var times := Inactive();
      var sum;
      sum, minVal, maxVal := Accumulate(times);
      avg := sum / cnt;
      assert times[..cnt] == times[..];
      maxJit, avgJit := Jitter(times, cnt, avg, cnt);
    }
  }

  /** One turn of the accumulating loops. */
  method Account(ghost seen: seq<UInt64>, first: bool, x: UInt64, sum: UInt64, least: UInt64, greatest: UInt64)
    returns (sum': UInt64, least': UInt64, greatest': UInt64)
    requires sum == Sum(seen) % TWO64 && first == (seen == [])
    requires !first ==> least == MinOf(seen) && greatest == MaxOf(seen)
    ensures sum' == Sum(seen + [x]) % TWO64
    ensures least' == MinOf(seen + [x]) && greatest' == MaxOf(seen + [x])
  {
    assert (seen + [x])[..|seen|] == seen;
    ModAdd(Sum(seen), x);
    sum' := (sum as int + x) % TWO64;
    least', greatest' := least, greatest;
    if first {
      least' := x;
      greatest' := x;
    }
    if least' > x { least' := x; }
    if greatest' < x { greatest' := x; }
  }

  /** The first loop of the interval analysis. */
  method Differences(times: array<UInt64>, tmp: array<UInt64>) returns (sum: UInt64, least: UInt64, greatest: UInt64)
    requires tmp != times && tmp.Length == times.Length >= 2
    modifies tmp
    ensures tmp[..times.Length - 1] == Intervals(times[..])
    ensures sum == Sum(Intervals(times[..])) % TWO64
    ensures least == MinOf(Intervals(times[..])) && greatest == MaxOf(Intervals(times[..]))
  {
    ghost var v := Intervals(times[..]);
    var n := times.Length - 1;
    sum, least, greatest := 0, 0, 0;
    for i := 0 to n
      invariant tmp[..i] == v[..i]
      invariant sum == Sum(v[..i]) % TWO64
      invariant i > 0 ==> least == MinOf(v[..i]) && greatest == MaxOf(v[..i])
    {
      tmp[i] := Minus(times[i + 1], times[i]);
      assert tmp[i] == v[i] && v[..i] + [v[i]] == v[..i + 1];
      sum, least, greatest := Account(v[..i], i == 0, tmp[i], sum, least, greatest);
    }
    assert v[..n] == v;
  }

  /** The first loop of the analysis of relative times. */
  method Accumulate(times: array<UInt64>) returns (sum: UInt64, least: UInt64, greatest: UInt64)
    requires times.Length > 0
    ensures sum == Sum(times[..]) % TWO64 && least == MinOf(times[..]) && greatest == MaxOf(times[..])
  {
    ghost var v := times[..];
    sum, least, greatest := 0, 0, 0;
    for i := 0 to times.Length
      invariant sum == Sum(v[..i]) % TWO64
      invariant i > 0 ==> least == MinOf(v[..i]) && greatest == MaxOf(v[..i])
    {
      assert v[..i] + [v[i]] == v[..i + 1];
      sum, least, greatest := Account(v[..i], i == 0, times[i], sum, least, greatest);
    }
    assert v[..times.Length] == v;
  }

  lemma ModAdd(a: nat, b: nat)
    ensures (a % TWO64 + b) % TWO64 == (a + b) % TWO64
  {
    assert a == a / TWO64 * TWO64 + a % TWO64;
  }

  /** One turn of the second loop. */
  method Deviate(ghost seen: seq<UInt64>, avg: UInt64, x: UInt64, maxJit: nat, squares: UInt64)
    returns (maxJit': nat, squares': UInt64)
    requires maxJit == MaxDeviation(seen, avg) && squares == SquareSum(seen, avg) % TWO64
    ensures maxJit' == MaxDeviation(seen + [x], avg) && squares' == SquareSum(seen + [x], avg) % TWO64
  {
    assert (seen + [x])[..|seen|] == seen;
    var dev := ToInt64(Minus(avg, x));
    if dev < 0 {
      dev := -dev;
    }
    maxJit' := maxJit;
    if dev > maxJit {
      maxJit' := dev;
    }
    ModAdd(SquareSum(seen, avg), dev * dev);
    squares' := (squares as int + dev * dev) % TWO64;
  }

  /** The second loop of both analyses: the greatest deviation, and the root of the mean square. */
  method Jitter(values: array<UInt64>, n: nat, avg: UInt64, cnt: nat) returns (maxJit: nat, avgJit: nat)
    requires n <= values.Length && 0 < cnt
    requires SquaresFit(values[..n], avg)
    ensures maxJit == MaxDeviation(values[..n], avg) && avgJit == AverageJitter(values[..n], avg, cnt)
  {
    ghost var v := values[..n];
    maxJit := 0;
    var squares: UInt64 := 0;
    for i := 0 to n
      invariant maxJit == MaxDeviation(v[..i], avg)
      invariant squares == SquareSum(v[..i], avg) % TWO64
    {
      assert v[..i] + [values[i]] == v[..i + 1];
      maxJit, squares := Deviate(v[..i], avg, values[i], maxJit, squares);
    }
    assert v[..n] == v;
    avgJit := Root(squares / cnt);
  }
}
