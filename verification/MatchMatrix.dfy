/** The connectivity matrix as a counter (gmock-matchers.h, gmock-matchers.cc): NextGraph walks
    through all graphs of one size. */
module MatchMatrices {
  import opened Basics
  import opened BipartiteMatching

  function NoEdges(n: nat): seq<bool> {
    seq(n, _ => false)
  }

  /** Binary increment, least significant bit first, wrapping around. */
  function Increment(bits: seq<bool>): (r: seq<bool>)
    ensures |r| == |bits|
  {
    if bits == [] then []
    else if bits[0] then [false] + Increment(bits[1..])
    else [true] + bits[1..]
  }

  ghost function Value(bits: seq<bool>): nat {
    if bits == [] then 0 else (if bits[0] then 1 else 0) + 2 * Value(bits[1..])
  }

  ghost function Iterate(bits: seq<bool>, k: nat): (r: seq<bool>)
    ensures |r| == |bits|
  {
    if k == 0 then bits else Increment(Iterate(bits, k - 1))
  }

  class MatchMatrix {
    const numElements: nat
    const numMatchers: nat
    var matched: seq<bool>

    ghost predicate Valid()
      reads this
    {
      AsGraph().Valid()
    }

    function AsGraph(): Graph
      reads this
    {
      Graph(numElements, numMatchers, matched)
    }

    constructor (elements: nat, matchers: nat)
      ensures numElements == elements && numMatchers == matchers
      ensures Valid() && matched == NoEdges(elements * matchers)
      ensures forall l: nat, r: nat :: l < elements && r < matchers ==> !AsGraph().HasEdge(l, r)
    {
      numElements := elements;
      numMatchers := matchers;
      assert 0 <= elements * matchers;
      matched := NoEdges(elements * matchers);
    }

    /** Changes one edge and no other. */
    method SetEdge(ilhs: nat, irhs: nat, b: bool)
      requires Valid() && ilhs < numElements && irhs < numMatchers
      modifies this
      ensures Valid()
      ensures AsGraph().HasEdge(ilhs, irhs) <==> b
      ensures forall l: nat, r: nat :: l < numElements && r < numMatchers && (l, r) != (ilhs, irhs) ==>
                (AsGraph().HasEdge(l, r) <==> old(AsGraph().HasEdge(l, r)))
    {
      var k := AsGraph().SpaceIndex(ilhs, irhs);
      forall l: nat, r: nat | l < numElements && r < numMatchers && (l, r) != (ilhs, irhs)
        ensures AsGraph().SpaceIndex(l, r) != k
      {
        SpaceIndexInjective(AsGraph(), l, r, ilhs, irhs);
      }
      matched := matched[k := b];
    }

    /** Adds 1 to the matrix read as a number; false if that left it empty. */
    method NextGraph() returns (more: bool)
      requires Valid()
      modifies this
      ensures Valid()
      ensures matched == Increment(old(matched))
      ensures more <==> Value(matched) != 0
    {
      ghost var start := matched;
      for ilhs: nat := 0 to numElements
        invariant Cleared(start, matched, ilhs * numMatchers)
      {
        for irhs: nat := 0 to numMatchers
          invariant Cleared(start, matched, ilhs * numMatchers + irhs)
        {
          var index := AsGraph().SpaceIndex(ilhs, irhs);
          if !matched[index] {
            StopCarry(start, matched, index);
            matched := matched[index := true];
            PositiveValue(matched, index);
            return true;
          }
          Carry(start, matched, index);
          matched := matched[index := false];
        }
        assert (ilhs + 1) * numMatchers == ilhs * numMatchers + numMatchers;
      }
      assert matched == NoEdges(|matched|);
      NoEdgesValue(|matched|);
      return false;
    }
  }

  /** Every pair has a place of its own, ... */
  lemma SpaceIndexInjective(g: Graph, l: nat, r: nat, l2: nat, r2: nat)
    requires l < g.lhs && l2 < g.lhs && r < g.rhs && r2 < g.rhs && (l, r) != (l2, r2)
    ensures g.SpaceIndex(l, r) != g.SpaceIndex(l2, r2)
  {
    if l < l2 {
      MulMonotone(l + 1, l2, g.rhs);
      assert (l + 1) * g.rhs == l * g.rhs + g.rhs;
    } else if l2 < l {
      MulMonotone(l2 + 1, l, g.rhs);
      assert (l2 + 1) * g.rhs == l2 * g.rhs + g.rhs;
    }
  }

  /** ... and the places follow each other as the nested loops of NextGraph visit the pairs. */
  lemma SpaceIndexRowByRow(g: Graph, l: nat, r: nat)
    requires l < g.lhs && r < g.rhs
    ensures g.SpaceIndex(0, 0) == 0
    ensures r + 1 < g.rhs ==> g.SpaceIndex(l, r + 1) == g.SpaceIndex(l, r) + 1
    ensures r + 1 == g.rhs && l + 1 < g.lhs ==> g.SpaceIndex(l + 1, 0) == g.SpaceIndex(l, r) + 1
  {
    assert (l + 1) * g.rhs == l * g.rhs + g.rhs;
  }

  // -------------------------------------------------------------- from matchers to an answer

  /** AnalyzeElements: `accepts` says which matcher accepts which element.  The results are first
      collected, then written into the matrix in the same order. */
  method AnalyzeElements(elements: nat, matchers: nat, accepts: (nat, nat) -> bool) returns (matrix: MatchMatrix)
    ensures fresh(matrix) && matrix.Valid() && matrix.numElements == elements && matrix.numMatchers == matchers
    ensures forall l: nat, r: nat :: l < elements && r < matchers ==> (matrix.AsGraph().HasEdge(l, r) <==> accepts(l, r))
  {
    var didMatch := CollectResults(elements, matchers, accepts);
    matrix := new MatchMatrix(elements, matchers);
    var iter: nat := 0;
    for ilhs: nat := 0 to elements
      invariant fresh(matrix) && matrix.Valid() && matrix.numElements == elements && matrix.numMatchers == matchers
      invariant iter == ilhs * matchers
      invariant forall l: nat, r: nat :: l < ilhs && r < matchers ==> (matrix.AsGraph().HasEdge(l, r) <==> accepts(l, r))
    {
      assert ilhs * matchers + matchers == (ilhs + 1) * matchers <= elements * matchers by {
        MulMonotone(ilhs + 1, elements, matchers);
      }
      for irhs: nat := 0 to matchers
        invariant fresh(matrix) && matrix.Valid() && matrix.numElements == elements && matrix.numMatchers == matchers
        invariant iter == ilhs * matchers + irhs
        invariant forall l: nat, r: nat :: l < ilhs && r < matchers ==> (matrix.AsGraph().HasEdge(l, r) <==> accepts(l, r))
        invariant forall r: nat :: r < irhs ==> (matrix.AsGraph().HasEdge(ilhs, r) <==> accepts(ilhs, r))
      {
        ResultAt(elements, matchers, accepts, didMatch, ilhs, irhs);
        matrix.SetEdge(ilhs, irhs, didMatch[iter]);
        iter := iter + 1;
      }
    }
  }

  /** The results, element by element. */
  ghost predicate AreResults(elements: nat, matchers: nat, accepts: (nat, nat) -> bool, results: seq<bool>) {
    && |results| == elements * matchers
    && forall k: nat :: k < |results| ==> results[k] == accepts(k / matchers, k % matchers)
  }

  lemma ResultAt(elements: nat, matchers: nat, accepts: (nat, nat) -> bool, results: seq<bool>, l: nat, r: nat)
    requires AreResults(elements, matchers, accepts, results) && l < elements && r < matchers
    ensures l * matchers + r < |results| && results[l * matchers + r] == accepts(l, r)
  {
    MulMonotone(l + 1, elements, matchers);
    assert (l + 1) * matchers == l * matchers + matchers;
    QuotientUnique(l, matchers, r);
  }

  method CollectResults(elements: nat, matchers: nat, accepts: (nat, nat) -> bool) returns (results: seq<bool>)
    ensures AreResults(elements, matchers, accepts, results)
  {
    results := [];
    for l: nat := 0 to elements
      invariant AreResults(l, matchers, accepts, results)
    {
      for r: nat := 0 to matchers
        invariant |results| == l * matchers + r
        invariant forall k: nat :: k < |results| ==> results[k] == accepts(k / matchers, k % matchers)
      {
        QuotientUnique(l, matchers, r);
        results := results + [accepts(l, r)];
      }
      assert (l + 1) * matchers == l * matchers + matchers;
    }
  }

  /** `f` sends the numbers below `from` to different numbers below `to`. */
  ghost predicate IsInjection(f: seq<nat>, from: nat, to: nat) {
    && |f| == from && (forall i :: 0 <= i < from ==> f[i] < to)
    && forall i, j :: 0 <= i < j < from ==> f[i] != f[j]
  }

  /** Every matcher gets an element that it accepts, no element twice. */
  ghost predicate AllMatchersServed(elements: nat, matchers: nat, accepts: (nat, nat) -> bool) {
    exists f :: IsInjection(f, matchers, elements) && forall r: nat :: r < matchers ==> accepts(f[r], r)
  }

  /** Every element gets a matcher that accepts it, no matcher twice. */
  ghost predicate AllElementsServed(elements: nat, matchers: nat, accepts: (nat, nat) -> bool) {
    exists f :: IsInjection(f, elements, matchers) && forall l: nat :: l < elements ==> accepts(l, f[l])
  }

  lemma SatisfiesMeans(g: Graph, accepts: (nat, nat) -> bool, require: Require)
    requires g.Valid() && forall l: nat, r: nat :: l < g.lhs && r < g.rhs ==> (g.HasEdge(l, r) <==> accepts(l, r))
    ensures Satisfies(g, Superset) <==> AllMatchersServed(g.lhs, g.rhs, accepts)
    ensures Satisfies(g, Subset) <==> AllElementsServed(g.lhs, g.rhs, accepts)
    ensures Satisfies(g, ExactMatch) <==> g.lhs == g.rhs && AllElementsServed(g.lhs, g.rhs, accepts)
  {
    forall f: seq<nat>
      ensures MatchersAssigned(g, f) <==> IsInjection(f, g.rhs, g.lhs) && forall r: nat :: r < g.rhs ==> accepts(f[r], r)
    {
      MatchersAssignedMeans(g, accepts, f);
    }
    forall f: seq<nat>
      ensures ElementsAssigned(g, f) <==> IsInjection(f, g.lhs, g.rhs) && forall l: nat :: l < g.lhs ==> accepts(l, f[l])
    {
      ElementsAssignedMeans(g, accepts, f);
    }
  }

  lemma MatchersAssignedMeans(g: Graph, accepts: (nat, nat) -> bool, f: seq<nat>)
    requires g.Valid() && forall l: nat, r: nat :: l < g.lhs && r < g.rhs ==> (g.HasEdge(l, r) <==> accepts(l, r))
    ensures MatchersAssigned(g, f) <==> IsInjection(f, g.rhs, g.lhs) && forall r: nat :: r < g.rhs ==> accepts(f[r], r)
  {
    DistinctPairwise(f);
    if MatchersAssigned(g, f) {
      forall r: nat | r < g.rhs ensures f[r] < g.lhs && accepts(f[r], r) {
        assert InGraph(g, (f[r], r));
      }
    }
  }

  lemma ElementsAssignedMeans(g: Graph, accepts: (nat, nat) -> bool, f: seq<nat>)
    requires g.Valid() && forall l: nat, r: nat :: l < g.lhs && r < g.rhs ==> (g.HasEdge(l, r) <==> accepts(l, r))
    ensures ElementsAssigned(g, f) <==> IsInjection(f, g.lhs, g.rhs) && forall l: nat :: l < g.lhs ==> accepts(l, f[l])
  {
    DistinctPairwise(f);
    if ElementsAssigned(g, f) {
      forall l: nat | l < g.lhs ensures f[l] < g.rhs && accepts(l, f[l]) {
        assert InGraph(g, (l, f[l]));
      }
    }
  }

  /** The whole matcher: from what each matcher says of each element to the answer. */
  method MatchElements(elements: nat, matchers: nat, accepts: (nat, nat) -> bool, require: Require) returns (ok: bool)
    ensures require.Superset? ==> (ok <==> AllMatchersServed(elements, matchers, accepts))
    ensures require.Subset? ==> (ok <==> AllElementsServed(elements, matchers, accepts))
    ensures require.ExactMatch? ==> (ok <==> elements == matchers && AllElementsServed(elements, matchers, accepts))
  {
    var matrix := AnalyzeElements(elements, matchers, accepts);
    ok := MatchAndExplain(matrix.AsGraph(), require);
    SatisfiesMeans(matrix.AsGraph(), accepts, require);
  }

  /** The first k bits were all set and have been cleared; the carry is still to be added. */
  ghost predicate Cleared(start: seq<bool>, now: seq<bool>, k: nat) {
    k <= |start| && now == NoEdges(k) + start[k..] && Increment(start) == NoEdges(k) + Increment(start[k..])
  }

  lemma StopCarry(start: seq<bool>, now: seq<bool>, k: nat)
    requires Cleared(start, now, k) && k < |start| && !now[k]
    ensures now[k := true] == Increment(start)
  {
    assert now[k] == start[k..][0];
  }

  lemma Carry(start: seq<bool>, now: seq<bool>, k: nat)
    requires Cleared(start, now, k) && k < |start| && now[k]
    ensures Cleared(start, now[k := false], k + 1)
  {
    assert now[k] == start[k..][0];
    assert start[k..][1..] == start[k + 1..];
    assert NoEdges(k) + ([false] + Increment(start[k + 1..])) == NoEdges(k + 1) + Increment(start[k + 1..]);
  }

  lemma {:induction false} NoEdgesValue(n: nat)
    ensures Value(NoEdges(n)) == 0
  {
    if n > 0 {
      assert NoEdges(n)[1..] == NoEdges(n - 1);
      NoEdgesValue(n - 1);
    }
  }

  lemma {:induction false} PositiveValue(bits: seq<bool>, k: nat)
    requires k < |bits| && bits[k]
    ensures Value(bits) > 0
  {
    if k > 0 {
      PositiveValue(bits[1..], k - 1);
    }
  }

  lemma {:induction false} ValueBound(bits: seq<bool>)
    ensures Value(bits) < Pow2(|bits|)
  {
    if bits != [] {
      ValueBound(bits[1..]);
    }
  }

  lemma {:induction false} ValueInjective(a: seq<bool>, b: seq<bool>)
    requires |a| == |b| && Value(a) == Value(b)
    ensures a == b
  {
    if a != [] {
      assert a[0] == b[0];
      ValueInjective(a[1..], b[1..]);
      assert a == [a[0]] + a[1..] && b == [b[0]] + b[1..];
    }
  }

  /** Addition of one, modulo 2 to the number of bits. */
  lemma {:induction false} IncrementAddsOne(bits: seq<bool>)
    ensures Value(Increment(bits)) == if Value(bits) + 1 == Pow2(|bits|) then 0 else Value(bits) + 1
  {
    if bits != [] {
      IncrementAddsOne(bits[1..]);
      assert Increment(bits)[1..] == if bits[0] then Increment(bits[1..]) else bits[1..];
    }
  }

  lemma {:induction false} IterateCounts(n: nat, k: nat)
    requires k < Pow2(n)
    ensures Value(Iterate(NoEdges(n), k)) == k
  {
    if k == 0 {
      NoEdgesValue(n);
    } else {
      IterateCounts(n, k - 1);
      IncrementAddsOne(Iterate(NoEdges(n), k - 1));
    }
  }

  /** Starting from the empty graph, every graph comes up exactly once in a cycle. */
  lemma EveryGraphOnce(target: seq<bool>, k: nat)
    requires k < Pow2(|target|)
    ensures Iterate(NoEdges(|target|), k) == target <==> k == Value(target)
    ensures Value(target) < Pow2(|target|)
  {
    ValueBound(target);
    IterateCounts(|target|, k);
    if k == Value(target) {
      ValueInjective(Iterate(NoEdges(|target|), k), target);
    }
  }
}
