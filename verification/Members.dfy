/** The sequences of distinct members that the queue macros of libosal/queue.h are meant to keep. */
module Members {

  import opened Basics

  ghost function InsertAt<T>(s: seq<T>, k: nat, e: T): (r: seq<T>)
    requires k <= |s|
    ensures |r| == |s| + 1
    ensures forall i {:trigger r[i]} :: 0 <= i < |r| ==> r[i] == if i < k then s[i] else if i == k then e else s[i - 1]
  {
    s[..k] + [e] + s[k..]
  }

  ghost function RemoveAt<T>(s: seq<T>, k: nat): (r: seq<T>)
    requires k < |s|
    ensures |r| == |s| - 1
    ensures forall i {:trigger r[i]} :: 0 <= i < |r| ==> r[i] == if i < k then s[i] else s[i + 1]
  {
    s[..k] + s[k + 1..]
  }

  lemma InsertAtDistinct<T>(s: seq<T>, k: nat, e: T)
    requires k <= |s| && Distinct(s) && e !in s
    ensures Distinct(InsertAt(s, k, e))
  {
  }

  lemma RemoveAtDistinct<T>(s: seq<T>, k: nat)
    requires k < |s| && Distinct(s)
    ensures Distinct(RemoveAt(s, k))
    ensures s[k] !in RemoveAt(s, k)
  {
  }

  lemma ConcatDistinct<T>(s: seq<T>, t: seq<T>)
    requires Distinct(s) && Distinct(t) && forall e <- s :: e !in t
    ensures Distinct(s + t)
  {
    var r := s + t;
    forall i | 0 <= i < |r| ensures Index(r, r[i]) == i {
      var k := Index(r, r[i]);
      assert k < |s| ==> Index(s, s[k]) == k;
      assert k >= |s| ==> Index(t, t[k - |s|]) == k - |s|;
      assert i < |s| ==> Index(s, s[i]) == i && s[i] !in t;
      assert i >= |s| ==> Index(t, t[i - |s|]) == i - |s|;
    }
  }

  function Reversed<T>(s: seq<T>): (r: seq<T>)
    ensures |r| == |s| && forall i {:trigger r[i]} :: 0 <= i < |s| ==> r[i] == s[|s| - 1 - i]
  {
    if s == [] then [] else [s[|s| - 1]] + Reversed(s[..|s| - 1])
  }

  lemma {:induction false} ReversedPrepend<T>(x: T, s: seq<T>)
    ensures Reversed([x] + s) == Reversed(s) + [x]
    decreases |s|
  {
    if s != [] {
      var n := |s| - 1;
      assert ([x] + s)[..n + 1] == [x] + s[..n];
      ReversedPrepend(x, s[..n]);
    }
  }

  /** Two reversals give the sequence back. */
  lemma {:induction false} ReversedTwice<T>(s: seq<T>)
    ensures Reversed(Reversed(s)) == s
    decreases |s|
  {
    if s != [] {
      var n := |s| - 1;
      ReversedTwice(s[..n]);
      ReversedPrepend(s[n], Reversed(s[..n]));
      assert s == s[..n] + [s[n]];
    }
  }

  /** Removing what has just been inserted gives back the sequence. */
  lemma RemoveUndoesInsert<T>(s: seq<T>, k: nat, e: T)
    requires k <= |s| && Distinct(s) && e !in s
    ensures e in InsertAt(s, k, e) && Index(InsertAt(s, k, e), e) == k
    ensures RemoveAt(InsertAt(s, k, e), k) == s
  {
    InsertAtDistinct(s, k, e);
    assert InsertAt(s, k, e)[k] == e;
  }
}
