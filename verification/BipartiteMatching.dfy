/** The maximum bipartite matching behind UnorderedElementsAre, IsSubsetOf and IsSupersetOf
    (gmock-matchers.cc): Ford-Fulkerson with one depth-first search per left node. */
module BipartiteMatching {

  import opened Basics

  // The value that marks an unmatched entry of `left` or `right`.
  const UNUSED: int := -1

  /** The connectivity matrix, flattened element by element. */
  datatype Graph = Graph(lhs: nat, rhs: nat, matched: seq<bool>) {
    ghost predicate Valid() {
      |matched| == lhs * rhs
    }

    function SpaceIndex(l: nat, r: nat): (k: nat)
      requires l < lhs && r < rhs
      ensures k < lhs * rhs
    {
      assert l * rhs + r < (l + 1) * rhs <= lhs * rhs by { MulMonotone(l + 1, lhs, rhs); }
      l * rhs + r
    }

    predicate HasEdge(l: nat, r: nat)
      requires Valid() && l < lhs && r < rhs
    {
      matched[SpaceIndex(l, r)]
    }
  }

  // ---------------------------------------------------------------- matchings

  type Pair = (nat, nat)

  ghost predicate InGraph(g: Graph, p: Pair)
    requires g.Valid()
  {
    p.0 < g.lhs && p.1 < g.rhs && g.HasEdge(p.0, p.1)
  }

  /** A set of edges of which no two share an end. */
  ghost predicate IsMatching(g: Graph, m: set<Pair>)
    requires g.Valid()
  {
    && (forall p <- m :: InGraph(g, p))
    && (forall p <- m, q <- m :: p.0 == q.0 || p.1 == q.1 ==> p == q)
  }

  ghost predicate IsMaximum(g: Graph, m: set<Pair>)
    requires g.Valid()
  {
    && IsMatching(g, m)
    && forall other: set<Pair> :: IsMatching(g, other) ==> |other| <= |m|
  }

  // ------------------------------------------------- the two cross-linked vectors

  ghost predicate InRange(v: seq<int>, bound: nat) {
    forall i :: 0 <= i < |v| ==> v[i] == UNUSED || 0 <= v[i] < bound
  }

  ghost predicate Shaped(g: Graph, left: seq<int>, right: seq<int>) {
    && g.Valid() && |left| == g.lhs && |right| == g.rhs
    && InRange(left, g.rhs) && InRange(right, g.lhs)
  }

  /** Every used entry of `left` is an edge whose right end points back. */
  ghost predicate LeftLinked(g: Graph, left: seq<int>, right: seq<int>)
    requires Shaped(g, left, right)
  {
    forall l: nat :: l < g.lhs && left[l] != UNUSED ==> right[left[l]] == l && g.HasEdge(l, left[l])
  }

  /** Every used entry of `right` except `stale` is pointed back at. */
  ghost predicate RightLinked(g: Graph, left: seq<int>, right: seq<int>, stale: int)
    requires Shaped(g, left, right)
  {
    forall r: nat :: r < g.rhs && r != stale && right[r] != UNUSED ==> left[right[r]] == r
  }

  ghost predicate Mutual(g: Graph, left: seq<int>, right: seq<int>) {
    Shaped(g, left, right) && LeftLinked(g, left, right) && RightLinked(g, left, right, UNUSED)
  }

  /** Every edge out of `l` ends in `z`. */
  ghost predicate EdgesInto(g: Graph, l: nat, z: set<nat>)
    requires g.Valid() && l < g.lhs
  {
    forall r: nat :: r < g.rhs && g.HasEdge(l, r) ==> r in z
  }

  /** A right node that is matched, and whose partner has edges into `z` only. */
  ghost predicate Trapped(g: Graph, right: seq<int>, r: nat, z: set<nat>)
    requires g.Valid() && |right| == g.rhs && InRange(right, g.lhs)
  {
    r < g.rhs && right[r] != UNUSED && EdgesInto(g, right[r], z)
  }

  /** The certificate that failed searches leave behind: `z` is fully matched and closed. */
  ghost predicate Closed(g: Graph, right: seq<int>, z: set<nat>)
    requires g.Valid() && |right| == g.rhs && InRange(right, g.lhs)
  {
    forall r <- z :: Trapped(g, right, r, z)
  }

  function Unseen(seen: seq<bool>): set<nat> {
    set r: nat | r < |seen| && !seen[r]
  }

  function SeenSet(seen: seq<bool>): set<nat> {
    set r: nat | r < |seen| && seen[r]
  }

  ghost predicate StillSeen(seen0: seq<bool>, seen1: seq<bool>) {
    |seen0| == |seen1| && forall r :: 0 <= r < |seen0| && seen0[r] ==> seen1[r]
  }

  /** Everything seen since `seen0` is a dead end. */
  ghost predicate NewlySeenTrapped(g: Graph, right: seq<int>, seen0: seq<bool>, seen1: seq<bool>)
    requires g.Valid() && |right| == g.rhs && InRange(right, g.lhs)
    requires |seen0| == |seen1| == g.rhs
  {
    forall r: nat :: r < g.rhs && seen1[r] && !seen0[r] ==> Trapped(g, right, r, SeenSet(seen1))
  }

  /** What a search from `l` may start from: `z` is any closed set, `left[l]` was just marked. */
  ghost predicate CanSearch(g: Graph, left: seq<int>, right: seq<int>, seen: seq<bool>, l: nat, z: set<nat>) {
    && Mutual(g, left, right) && |seen| == g.rhs && l < g.lhs
    && (left[l] != UNUSED ==> seen[left[l]])
    && Closed(g, right, z)
  }

  /** What a successful search from `l` leaves behind.  One more left node is matched and all
      others stay so; the node that `l` held before, if any, is left stale: it still names `l`.
      Nodes seen before the search, and those of the closed set `z`, keep their partner. */
  ghost predicate Augmented(g: Graph, l: nat, left0: seq<int>, right0: seq<int>, seen0: seq<bool>, z: set<nat>,
                            left1: seq<int>, right1: seq<int>)
    requires CanSearch(g, left0, right0, seen0, l, z)
  {
    && Shaped(g, left1, right1)
    && left1[l] != UNUSED && !seen0[left1[l]]
    && (forall k :: 0 <= k < g.lhs && k != l ==> (left1[k] == UNUSED <==> left0[k] == UNUSED))
    && LeftLinked(g, left1, right1)
    && RightLinked(g, left1, right1, left0[l])
    && (forall r: nat :: r < g.rhs && (seen0[r] || r in z) ==> right1[r] == right0[r])
  }

  /** The link made at the end of the path. */
  lemma AugmentAtFreeNode(g: Graph, l: nat, left: seq<int>, right: seq<int>, seen: seq<bool>, z: set<nat>, r: nat)
    requires CanSearch(g, left, right, seen, l, z)
    requires r < g.rhs && g.HasEdge(l, r) && !seen[r] && right[r] == UNUSED
    ensures Augmented(g, l, left, right, seen, z, left[l := r], right[r := l])
  {
  }

  /** The link made on the way back, when the partner of `r` has found another node. */
  lemma AugmentThrough(g: Graph, l: nat, left: seq<int>, right: seq<int>, seen0: seq<bool>, seen: seq<bool>,
                       z: set<nat>, r: nat, left1: seq<int>, right1: seq<int>)
    requires CanSearch(g, left, right, seen0, l, z) && StillSeen(seen0, seen)
    requires r < g.rhs && g.HasEdge(l, r) && !seen0[r] && seen[r] && right[r] != UNUSED && r !in z
    requires CanSearch(g, left, right, seen, right[r], z)
    requires Augmented(g, right[r], left, right, seen, z, left1, right1)
    ensures Augmented(g, l, left, right, seen0, z, left1[l := r], right1[r := l])
  {
    var p := right[r];
    assert left[p] == r && p != l;
    assert right1[r] == p;
    assert left1[l] != UNUSED ==> right1[left1[l]] == l;
  }

  /** The partner of a node of the closed set has nowhere else to go. */
  lemma ClosedPartner(g: Graph, right: seq<int>, z: set<nat>, r: nat)
    requires g.Valid() && |right| == g.rhs && InRange(right, g.lhs) && Closed(g, right, z) && r in z
    ensures r < g.rhs && right[r] != UNUSED && EdgesInto(g, right[r], z)
  {
    assert Trapped(g, right, r, z);
  }

  /** A failed search through `r` keeps the account of dead ends. */
  lemma DeadEndsExtended(g: Graph, right: seq<int>, seen0: seq<bool>, seen1: seq<bool>, r: nat, seen2: seq<bool>)
    requires g.Valid() && |right| == g.rhs && InRange(right, g.lhs)
    requires |seen0| == |seen1| == |seen2| == g.rhs && r < g.rhs && !seen1[r]
    requires StillSeen(seen0, seen1) && StillSeen(seen1[r := true], seen2)
    requires NewlySeenTrapped(g, right, seen0, seen1)
    requires right[r] != UNUSED && EdgesInto(g, right[r], SeenSet(seen2))
    requires NewlySeenTrapped(g, right, seen1[r := true], seen2)
    ensures StillSeen(seen0, seen2) && NewlySeenTrapped(g, right, seen0, seen2)
  {
    forall q: nat | q < g.rhs && seen2[q] && !seen0[q]
      ensures Trapped(g, right, q, SeenSet(seen2))
    {
      if q != r && seen1[q] {
        assert Trapped(g, right, q, SeenSet(seen1));
        assert SeenSet(seen1) <= SeenSet(seen2) by {
          forall x: nat | x < |seen1| && seen1[x] ensures seen2[x] {
            assert seen1[r := true][x];
          }
        }
      }
    }
    forall q | 0 <= q < g.rhs && seen0[q] ensures seen2[q] {
      assert seen1[r := true][q];
    }
  }

  class MaxBipartiteMatchState {
    const graph: Graph
    var left: seq<int>
    var right: seq<int>
    // The path-marking vector that Compute owns and hands to every search.
    var seen: seq<bool>

    ghost predicate Valid()
      reads this
    {
      Mutual(graph, left, right)
    }

    constructor (g: Graph)
      requires g.Valid()
      ensures graph == g && Valid()
      ensures forall l :: 0 <= l < g.lhs ==> left[l] == UNUSED
    {
      graph := g;
      left := seq(g.lhs, _ => UNUSED);
      right := seq(g.rhs, _ => UNUSED);
      seen := [];
    }

    /** One depth-first search for an augmenting path from `ilhs`.  `z` is any closed set: a
        search whose every edge leads into it fails. */
    method TryAugment(ilhs: nat, ghost z: set<nat>) returns (ok: bool)
      requires CanSearch(graph, left, right, seen, ilhs, z)
      modifies this
      ensures StillSeen(old(seen), seen)
      ensures !ok ==> left == old(left) && right == old(right)
      ensures !ok ==> EdgesInto(graph, ilhs, SeenSet(seen))
      ensures !ok ==> NewlySeenTrapped(graph, right, old(seen), seen)
      ensures ok ==> Augmented(graph, ilhs, old(left), old(right), old(seen), z, left, right)
      ensures EdgesInto(graph, ilhs, z) ==> !ok
      decreases Unseen(seen)
    {
      for irhs: nat := 0 to graph.rhs
        invariant left == old(left) && right == old(right)
        invariant StillSeen(old(seen), seen)
        invariant forall r: nat :: r < irhs && graph.HasEdge(ilhs, r) ==> seen[r]
        invariant NewlySeenTrapped(graph, right, old(seen), seen)
      {
        if seen[irhs] || !graph.HasEdge(ilhs, irhs) {
          continue;
        }
        ghost var before := seen;
        seen := seen[irhs := true];
        assert irhs in Unseen(old(seen)) && irhs !in Unseen(seen);
        if right[irhs] == UNUSED {
          ok := true;
          AugmentAtFreeNode(graph, ilhs, left, right, old(seen), z, irhs);
          assert irhs !in z by {
            if irhs in z { ClosedPartner(graph, right, z, irhs); }
          }
        } else {
          if irhs in z { ClosedPartner(graph, right, z, irhs); }
          label L:
          assert left[right[irhs]] == irhs;
          ok := TryAugment(right[irhs], z);
          if ok {
            AugmentThrough(graph, ilhs, old(left), old(right), old(seen), old@L(seen), z, irhs, left, right);
          } else {
            DeadEndsExtended(graph, right, old(seen), before, irhs, seen);
          }
        }
        if ok {
          left := left[ilhs := irhs];
          right := right[irhs := ilhs];
          return;
        }
      }
      ok := false;
    }

    /** Searches once from every left node and returns a maximum matching. */
    method Compute() returns (result: seq<Pair>)
      requires Valid()
      requires forall l :: 0 <= l < graph.lhs ==> left[l] == UNUSED
      modifies this
      ensures Valid()
      ensures result == PairsFrom(left, 0)
      ensures IsMaximum(graph, Elements(result)) && |Elements(result)| == |result|
    {
      ghost var z: set<nat> := {};
      for ilhs: nat := 0 to graph.lhs
        invariant Valid() && Closed(graph, right, z)
        invariant forall l :: ilhs <= l < graph.lhs ==> left[l] == UNUSED
        invariant forall l: nat :: l < ilhs && left[l] == UNUSED ==> EdgesInto(graph, l, z)
      {
        assert left[ilhs] == UNUSED;
        seen := seq(graph.rhs, _ => false);
        label L:
        var ok := TryAugment(ilhs, z);
        if ok {
          forall r <- z ensures Trapped(graph, right, r, z) {
            assert Trapped(graph, old@L(right), r, z);
          }
        } else {
          z := z + SeenSet(seen);
        }
      }
      result := [];
      for ilhs: nat := 0 to |left|
        invariant result + PairsFrom(left, ilhs) == PairsFrom(left, 0)
      {
        if left[ilhs] != UNUSED {
          result := result + [(ilhs, left[ilhs])];
        }
      }
      PairsFromDistinct(left, 0);
      CoverBoundsMatchings(graph, left, right, z);
    }
  }

  function Elements<T>(s: seq<T>): set<T> {
    set x | x in s
  }

  /** The matched pairs among the left nodes from `i` on. */
  function PairsFrom(left: seq<int>, i: nat): (ps: seq<Pair>)
    requires i <= |left| && forall k :: 0 <= k < |left| ==> left[k] == UNUSED || 0 <= left[k]
    decreases |left| - i
  {
    if i == |left| then []
    else if left[i] == UNUSED then PairsFrom(left, i + 1)
    else [(i, left[i])] + PairsFrom(left, i + 1)
  }

  lemma {:induction false} PairsFromElements(left: seq<int>, i: nat)
    requires i <= |left| && forall k :: 0 <= k < |left| ==> left[k] == UNUSED || 0 <= left[k]
    ensures forall p: Pair :: p in PairsFrom(left, i) <==> i <= p.0 < |left| && left[p.0] == p.1
    decreases |left| - i
  {
    if i < |left| {
      PairsFromElements(left, i + 1);
    }
  }

  lemma {:induction false} PairsFromDistinct(left: seq<int>, i: nat)
    requires i <= |left| && forall k :: 0 <= k < |left| ==> left[k] == UNUSED || 0 <= left[k]
    ensures |Elements(PairsFrom(left, i))| == |PairsFrom(left, i)|
    decreases |left| - i
  {
    if i < |left| {
      PairsFromDistinct(left, i + 1);
      if left[i] != UNUSED {
        var p: Pair, rest := (i, left[i]), PairsFrom(left, i + 1);
        PairsFromElements(left, i + 1);
        assert p !in Elements(rest);
        assert Elements([p] + rest) == {p} + Elements(rest);
      }
    }
  }

  // ------------------------------------------------------------------ maximality

  /** Where an edge of another matching is charged: to the pair that covers it. */
  ghost function Charge(g: Graph, left: seq<int>, right: seq<int>, z: set<nat>, p: Pair): Pair
    requires g.Valid() && InGraph(g, p) && Mutual(g, left, right) && Closed(g, right, z)
    requires forall l: nat :: l < g.lhs && left[l] == UNUSED ==> EdgesInto(g, l, z)
  {
    if p.1 in z then (ClosedPartner(g, right, z, p.1); (right[p.1], p.1))
    else (assert left[p.0] == UNUSED ==> EdgesInto(g, p.0, z); (p.0, left[p.0]))
  }

  /** Two edges that share no end are charged to different pairs. */
  lemma ChargeInjective(g: Graph, left: seq<int>, right: seq<int>, z: set<nat>, p: Pair, q: Pair)
    requires g.Valid() && InGraph(g, p) && InGraph(g, q) && Mutual(g, left, right) && Closed(g, right, z)
    requires forall l: nat :: l < g.lhs && left[l] == UNUSED ==> EdgesInto(g, l, z)
    requires p.0 != q.0 && p.1 != q.1
    ensures Charge(g, left, right, z, p) != Charge(g, left, right, z, q)
  {
    if p.1 in z {
      ClosedPartner(g, right, z, p.1);
      assert q.0 == right[p.1] ==> EdgesInto(g, q.0, z);
    }
    if q.1 in z {
      ClosedPartner(g, right, z, q.1);
      assert p.0 == right[q.1] ==> EdgesInto(g, p.0, z);
    }
  }

  /** An injective map has as many values as keys. */
  lemma {:induction false} InjectiveMapSize<A, B>(f: map<A, B>)
    requires forall a <- f, b <- f :: a != b ==> f[a] != f[b]
    ensures |f.Values| == |f|
  {
    if f.Keys == {} {
      assert f.Values == {};
    } else {
      var a :| a in f;
      var rest := map k | k in f && k != a :: f[k];
      assert rest.Keys == f.Keys - {a};
      InjectiveMapSize(rest);
      forall v <- f.Values ensures v in rest.Values + {f[a]} {
        var k :| k in f && f[k] == v;
        assert k != a ==> k in rest && rest[k] == v;
      }
      forall v <- rest.Values ensures v in f.Values {
        var k :| k in rest && rest[k] == v;
        assert k in f && f[k] == v;
      }
      assert f.Values == rest.Values + {f[a]};
      assert f[a] !in rest.Values;
    }
  }

  /** Koenig's argument: a closed set that absorbs every unmatched node proves the matching maximum. */
  lemma CoverBoundsMatchings(g: Graph, left: seq<int>, right: seq<int>, z: set<nat>)
    requires Mutual(g, left, right) && Closed(g, right, z)
    requires forall l: nat :: l < g.lhs && left[l] == UNUSED ==> EdgesInto(g, l, z)
    ensures IsMaximum(g, Elements(PairsFrom(left, 0)))
  {
    PairsFromElements(left, 0);
    var ours := Elements(PairsFrom(left, 0));
    forall other: set<Pair> | IsMatching(g, other) ensures |other| <= |ours| {
      var charge := map p | p in other :: Charge(g, left, right, z, p);
      forall p <- charge, q <- charge | p != q ensures charge[p] != charge[q] {
        ChargeInjective(g, left, right, z, p, q);
      }
      InjectiveMapSize(charge);
      forall c <- charge.Values ensures c in ours {
        var p :| p in charge && charge[p] == c;
        ChargeIsOurs(g, left, right, z, p);
      }
      assert charge.Keys == other;
      SubsetSize(charge.Values, ours);
    }
  }

  lemma ChargeIsOurs(g: Graph, left: seq<int>, right: seq<int>, z: set<nat>, p: Pair)
    requires g.Valid() && InGraph(g, p) && Mutual(g, left, right) && Closed(g, right, z)
    requires forall l: nat :: l < g.lhs && left[l] == UNUSED ==> EdgesInto(g, l, z)
    ensures Charge(g, left, right, z, p) in PairsFrom(left, 0)
  {
    PairsFromElements(left, 0);
    if p.1 in z {
      ClosedPartner(g, right, z, p.1);
    }
  }

  // ------------------------------------------------------- the unordered matchers

  datatype Require = Superset | Subset | ExactMatch {
    predicate NeedsMatchers() { Superset? || ExactMatch? }
    predicate NeedsElements() { Subset? || ExactMatch? }
  }

  /** `f` sends every element to its own matcher. */
  ghost predicate ElementsAssigned(g: Graph, f: seq<nat>)
    requires g.Valid()
  {
    |f| == g.lhs && Distinct(f) && forall l: nat :: l < g.lhs ==> InGraph(g, (l, f[l]))
  }

  /** `f` sends every matcher to its own element. */
  ghost predicate MatchersAssigned(g: Graph, f: seq<nat>)
    requires g.Valid()
  {
    |f| == g.rhs && Distinct(f) && forall r: nat :: r < g.rhs ==> InGraph(g, (f[r], r))
  }

  /** What the matchers describe: an injection of requirements (Superset), an injection of
      elements (Subset), or a permutation (ExactMatch). */
  ghost predicate Satisfies(g: Graph, require: Require)
    requires g.Valid()
  {
    match require
    case Superset => exists f :: MatchersAssigned(g, f)
    case Subset => exists f :: ElementsAssigned(g, f)
    case ExactMatch => g.lhs == g.rhs && exists f :: ElementsAssigned(g, f)
  }

  /** The numbers below n. */
  ghost function Below(n: nat): (s: set<nat>)
    ensures |s| == n && forall i: nat :: i in s <==> i < n
  {
    if n == 0 then {} else Below(n - 1) + {n - 1}
  }

  lemma FullSubset(s: set<nat>, n: nat)
    requires forall i <- s :: i < n
    requires |s| >= n
    ensures s == Below(n)
  {
    var all := Below(n);
    assert all == s + (all - s);
    assert |all - s| == 0;
  }

  /** The left and right ends of a matching are as many as its pairs. */
  lemma MatchingEnds(g: Graph, m: set<Pair>) returns (lefts: set<nat>, rights: set<nat>)
    requires g.Valid() && IsMatching(g, m)
    ensures |lefts| == |m| == |rights|
    ensures forall l <- lefts :: l < g.lhs && HasLeft(m, l)
    ensures forall r <- rights :: r < g.rhs && HasRight(m, r)
    ensures |m| <= g.lhs && |m| <= g.rhs
  {
    var element := map p | p in m :: p.0;
    var matcher := map p | p in m :: p.1;
    InjectiveMapSize(element);
    InjectiveMapSize(matcher);
    assert element.Keys == m == matcher.Keys;
    lefts, rights := element.Values, matcher.Values;
    SubsetSize(lefts, Below(g.lhs));
    SubsetSize(rights, Below(g.rhs));
  }

  ghost predicate HasLeft(m: set<Pair>, l: nat) {
    exists p <- m :: p.0 == l
  }

  ghost predicate HasRight(m: set<Pair>, r: nat) {
    exists p <- m :: p.1 == r
  }

  /** The partners of the left nodes below n, in order. */
  lemma {:induction false} PartnersOfLefts(m: set<Pair>, n: nat) returns (f: seq<nat>)
    requires forall l: nat :: l < n ==> HasLeft(m, l)
    ensures |f| == n && forall l: nat :: l < n ==> (l, f[l]) in m
  {
    if n == 0 {
      f := [];
    } else {
      var init := PartnersOfLefts(m, n - 1);
      assert HasLeft(m, n - 1);
      var p :| p in m && p.0 == n - 1;
      assert p == (n - 1, p.1);
      f := init + [p.1];
    }
  }

  lemma {:induction false} PartnersOfRights(m: set<Pair>, n: nat) returns (f: seq<nat>)
    requires forall r: nat :: r < n ==> HasRight(m, r)
    ensures |f| == n && forall r: nat :: r < n ==> (f[r], r) in m
  {
    if n == 0 {
      f := [];
    } else {
      var init := PartnersOfRights(m, n - 1);
      assert HasRight(m, n - 1);
      var p :| p in m && p.1 == n - 1;
      assert p == (p.0, n - 1);
      f := init + [p.0];
    }
  }

  lemma ElementsAssignedByPairs(g: Graph, m: set<Pair>, f: seq<nat>)
    requires g.Valid() && IsMatching(g, m) && |f| == g.lhs
    requires forall l: nat :: l < g.lhs ==> (l, f[l]) in m
    ensures ElementsAssigned(g, f)
  {
    forall i, j | 0 <= i < j < |f| ensures f[i] != f[j] {
      assert (i, f[i]) in m && (j, f[j]) in m;
    }
    DistinctPairwise(f);
  }

  lemma MatchersAssignedByPairs(g: Graph, m: set<Pair>, f: seq<nat>)
    requires g.Valid() && IsMatching(g, m) && |f| == g.rhs
    requires forall r: nat :: r < g.rhs ==> (f[r], r) in m
    ensures MatchersAssigned(g, f)
  {
    forall i, j | 0 <= i < j < |f| ensures f[i] != f[j] {
      assert (f[i], i) in m && (f[j], j) in m;
    }
    DistinctPairwise(f);
  }

  /** A matching as large as the element side assigns every element. */
  lemma ElementsFromMatching(g: Graph, m: set<Pair>) returns (f: seq<nat>)
    requires g.Valid() && IsMatching(g, m) && |m| >= g.lhs
    ensures ElementsAssigned(g, f)
  {
    var lefts, _ := MatchingEnds(g, m);
    FullSubset(lefts, g.lhs);
    f := PartnersOfLefts(m, g.lhs);
    ElementsAssignedByPairs(g, m, f);
  }

  lemma MatchersFromMatching(g: Graph, m: set<Pair>) returns (f: seq<nat>)
    requires g.Valid() && IsMatching(g, m) && |m| >= g.rhs
    ensures MatchersAssigned(g, f)
  {
    var _, rights := MatchingEnds(g, m);
    FullSubset(rights, g.rhs);
    f := PartnersOfRights(m, g.rhs);
    MatchersAssignedByPairs(g, m, f);
  }

  lemma MatchingFromElements(g: Graph, f: seq<nat>) returns (m: set<Pair>)
    requires g.Valid() && ElementsAssigned(g, f)
    ensures IsMatching(g, m) && |m| == g.lhs
  {
    var chosen: map<nat, Pair> := map l | l in Below(g.lhs) :: (l, f[l]);
    InjectiveMapSize(chosen);
    assert chosen.Keys == Below(g.lhs);
    m := chosen.Values;
    forall p <- m ensures InGraph(g, p) && p.1 == f[p.0] {
      var l :| l in chosen && chosen[l] == p;
    }
  }

  lemma MatchingFromMatchers(g: Graph, f: seq<nat>) returns (m: set<Pair>)
    requires g.Valid() && MatchersAssigned(g, f)
    ensures IsMatching(g, m) && |m| == g.rhs
  {
    var chosen: map<nat, Pair> := map r | r in Below(g.rhs) :: (f[r], r);
    InjectiveMapSize(chosen);
    assert chosen.Keys == Below(g.rhs);
    m := chosen.Values;
    forall p <- m ensures InGraph(g, p) && p.0 == f[p.1] {
      var r :| r in chosen && chosen[r] == p;
    }
  }

  /** A maximum matching is as large as a side exactly when that whole side can be assigned. */
  lemma MaximumDecides(g: Graph, m: set<Pair>)
    requires g.Valid() && IsMaximum(g, m)
    ensures |m| >= g.lhs <==> exists f :: ElementsAssigned(g, f)
    ensures |m| >= g.rhs <==> exists f :: MatchersAssigned(g, f)
  {
    if |m| >= g.lhs {
      var f := ElementsFromMatching(g, m);
    } else if f :| ElementsAssigned(g, f) {
      var other := MatchingFromElements(g, f);
    }
    if |m| >= g.rhs {
      var f := MatchersFromMatching(g, m);
    } else if f :| MatchersAssigned(g, f) {
      var other := MatchingFromMatchers(g, f);
    }
  }

  method FindMaxBipartiteMatching(g: Graph) returns (pairs: seq<Pair>)
    requires g.Valid()
    ensures IsMaximum(g, Elements(pairs)) && |Elements(pairs)| == |pairs|
  {
    var state := new MaxBipartiteMatchState(g);
    pairs := state.Compute();
  }

  ghost predicate MatcherUsable(g: Graph, r: nat)
    requires g.Valid() && r < g.rhs
  {
    exists l: nat :: l < g.lhs && g.HasEdge(l, r)
  }

  ghost predicate ElementUsable(g: Graph, l: nat)
    requires g.Valid() && l < g.lhs
  {
    exists r: nat :: r < g.rhs && g.HasEdge(l, r)
  }

  /** The quick test: false exactly when a count or an isolated node rules a pairing out. */
  method VerifyMatchMatrix(g: Graph, require: Require) returns (ok: bool)
    requires g.Valid()
    ensures ok <==>
      || (g.lhs == 0 && g.rhs == 0)
      || (&& (require.ExactMatch? ==> g.lhs == g.rhs)
          && (require != Subset ==> forall r: nat :: r < g.rhs ==> MatcherUsable(g, r))
          && (require != Superset ==> forall l: nat :: l < g.lhs ==> ElementUsable(g, l)))
  {
    if g.lhs == 0 && g.rhs == 0 {
      return true;
    }
    if require.ExactMatch? && g.lhs != g.rhs {
      return false;
    }
    var elementMatched: array<bool>, matcherMatched: array<bool> := FillFlags(g);
    ok := true;
    if require.NeedsMatchers() {
      for mi := 0 to matcherMatched.Length
        invariant ok <==> forall r: nat :: r < mi ==> MatcherUsable(g, r)
      {
        if !matcherMatched[mi] {
          ok := false;
        }
      }
    }
    ghost var matchersOk := ok;
    if require.NeedsElements() {
      for ei := 0 to elementMatched.Length
        invariant ok <==> matchersOk && forall l: nat :: l < ei ==> ElementUsable(g, l)
      {
        if !elementMatched[ei] {
          ok := false;
        }
      }
    }
  }

  /** The nested loops over the matrix that mark which elements and matchers have an edge. */
  method FillFlags(g: Graph) returns (elementMatched: array<bool>, matcherMatched: array<bool>)
    requires g.Valid()
    ensures fresh(elementMatched) && fresh(matcherMatched)
    ensures elementMatched.Length == g.lhs && matcherMatched.Length == g.rhs
    ensures forall l: nat :: l < g.lhs ==> (elementMatched[l] <==> ElementUsable(g, l))
    ensures forall r: nat :: r < g.rhs ==> (matcherMatched[r] <==> MatcherUsable(g, r))
  {
    elementMatched := new bool[g.lhs](_ => false);
    matcherMatched := new bool[g.rhs](_ => false);
    for ilhs: nat := 0 to g.lhs
      invariant elementMatched != matcherMatched
      invariant forall l: nat :: l < ilhs ==> (elementMatched[l] <==> ElementUsable(g, l))
      invariant forall l: nat :: ilhs <= l < g.lhs ==> !elementMatched[l]
      invariant forall r: nat :: r < g.rhs ==> (matcherMatched[r] <==> exists l: nat :: l < ilhs && g.HasEdge(l, r))
    {
      for irhs: nat := 0 to g.rhs
        invariant forall l: nat :: l < ilhs ==> (elementMatched[l] <==> ElementUsable(g, l))
        invariant forall l: nat :: ilhs < l < g.lhs ==> !elementMatched[l]
        invariant elementMatched[ilhs] <==> exists r: nat :: r < irhs && g.HasEdge(ilhs, r)
        invariant forall r: nat :: r < irhs ==> (matcherMatched[r] <==> exists l: nat :: l <= ilhs && g.HasEdge(l, r))
        invariant forall r: nat :: irhs <= r < g.rhs ==>
                                     (matcherMatched[r] <==> exists l: nat :: l < ilhs && g.HasEdge(l, r))
      {
        var matched := g.HasEdge(ilhs, irhs);
        elementMatched[ilhs] := elementMatched[ilhs] || matched;
        matcherMatched[irhs] := matcherMatched[irhs] || matched;
      }
    }
  }

  method FindPairing(g: Graph, require: Require) returns (ok: bool)
    requires g.Valid() && (require.ExactMatch? ==> g.lhs == g.rhs)
    ensures ok <==> Satisfies(g, require)
  {
    var matches := FindMaxBipartiteMatching(g);
    var maxFlow := |matches|;
    MaximumDecides(g, Elements(matches));
    if require.NeedsMatchers() && maxFlow < g.rhs {
      return false;
    }
    if require.NeedsElements() && maxFlow < g.lhs {
      return false;
    }
    return true;
  }

  /** The whole match: the quick test, then the pairing.  The quick test never changes the answer. */
  method MatchAndExplain(g: Graph, require: Require) returns (ok: bool)
    requires g.Valid()
    ensures ok <==> Satisfies(g, require)
  {
    ok := VerifyMatchMatrix(g, require);
    if ok {
      ok := FindPairing(g, require);
    } else if Satisfies(g, require) {
      QuickTestSound(g, require);
    }
  }

  lemma QuickTestSound(g: Graph, require: Require)
    requires g.Valid() && Satisfies(g, require)
    ensures require.ExactMatch? ==> g.lhs == g.rhs
    ensures require.NeedsMatchers() ==> forall r: nat :: r < g.rhs ==> MatcherUsable(g, r)
    ensures require.NeedsElements() ==> forall l: nat :: l < g.lhs ==> ElementUsable(g, l)
  {
    if require.Superset? {
      var f: seq<nat> :| MatchersAssigned(g, f);
      forall r: nat | r < g.rhs ensures MatcherUsable(g, r) {
        assert InGraph(g, (f[r], r));
      }
    } else {
      var f: seq<nat> :| ElementsAssigned(g, f);
      forall l: nat | l < g.lhs ensures ElementUsable(g, l) {
        assert InGraph(g, (l, f[l]));
      }
      if require.ExactMatch? {
        DistinctSize(f);
        FullSubset(Elements(f), g.rhs);
        forall r: nat | r < g.rhs ensures MatcherUsable(g, r) {
          assert r in Elements(f);
          var l :| 0 <= l < |f| && f[l] == r;
          assert InGraph(g, (l, f[l]));
        }
      }
    }
  }

  lemma {:induction false} DistinctSize(f: seq<nat>)
    requires Distinct(f)
    ensures |Elements(f)| == |f|
  {
    if f != [] {
      var init, last := f[..|f| - 1], f[|f| - 1];
      DistinctSize(init);
      assert f == init + [last];
      assert Elements(f) == Elements(init) + {last};
    }
  }
}
