/** What several of the modules share. */
module Basics {

  datatype Option<T> = None | Some(value: T)

  type Byte = b: int | 0 <= b < 256

  const TWO32: int := 0x1_0000_0000
  const TWO64: int := 0x1_0000_0000_0000_0000

  /** A position of a member. */
  ghost function Index<T>(s: seq<T>, e: T): (k: nat)
    requires e in s
    ensures k < |s| && s[k] == e
  {
    var k: nat :| k < |s| && s[k] == e; k
  }

  /** No element occurs twice: the position of s[i] can only be i. */
  ghost predicate Distinct<T>(s: seq<T>) {
    forall i {:trigger s[i]} :: 0 <= i < |s| ==> Index(s, s[i]) == i
  }

  lemma DistinctPairwise<T>(s: seq<T>)
    ensures Distinct(s) <==> forall i, j :: 0 <= i < j < |s| ==> s[i] != s[j]
  {
    if forall i, j :: 0 <= i < j < |s| ==> s[i] != s[j] {
      forall i | 0 <= i < |s| ensures Index(s, s[i]) == i {
        var k := Index(s, s[i]);
        assert s[k] == s[i];
      }
    }
  }

  lemma MulMonotone(a: nat, b: nat, k: nat)
    requires a <= b
    ensures a * k <= b * k && k * a <= k * b
  {
  }

  function Pow2(n: nat): (p: nat)
    ensures p > 0
  {
    if n == 0 then 1 else 2 * Pow2(n - 1)
  }

  lemma OneMoreTime(n: nat, q: nat)
    ensures (n + 1) * q == n * q + q
  {
  }

  lemma CancelLess(n: nat, a: nat, b: nat)
    requires n * a < n * b
    ensures a < b
  {
    if b <= a {
      MulMonotone(b, a, n);
    }
  }

  lemma QuotientUnique(q: nat, n: nat, r: nat)
    requires r < n
    ensures (q * n + r) / n == q && (q * n + r) % n == r
  {
    var x := q * n + r;
    var d := x / n;
    assert x == d * n + x % n;
    assert (d + 1) * n == d * n + n && (q + 1) * n == q * n + n;
    CancelLess(n, d, q + 1);
    CancelLess(n, q, d + 1);
  }

  lemma SubsetSize<T>(a: set<T>, b: set<T>)
    requires a <= b
    ensures |a| <= |b|
  {
    assert b == a + (b - a);
  }

  /** An output stream. */
  class OStream {
    var text: string

    constructor ()
      ensures text == []
    {
      text := [];
    }

    method Put(s: string)
      modifies this
      ensures text == old(text) + s
    {
      text := text + s;
    }
  }
}
