/** Finite directed graphs: reachability and acyclicity. */
module Digraph {

  import opened Basics

  /** Each node with the nodes it points at. */
  type Edges<T> = map<T, set<T>>

  ghost predicate ClosedGraph<T>(edges: Edges<T>) {
    forall a <- edges :: edges[a] <= edges.Keys
  }

  /** A path of exactly n edges. */
  ghost predicate Path<T>(edges: Edges<T>, a: T, b: T, n: nat) {
    && n > 0 && a in edges
    && if n == 1 then b in edges[a] else exists c :: c in edges[a] && Path(edges, c, b, n - 1)
  }

  /** A path of at least one edge. */
  ghost predicate Reaches<T>(edges: Edges<T>, a: T, b: T) {
    exists n: nat :: Path(edges, a, b, n)
  }

  ghost predicate Acyclic<T>(edges: Edges<T>) {
    forall a <- edges :: !Reaches(edges, a, a)
  }

  lemma ReachesByStep<T>(edges: Edges<T>, a: T, c: T, b: T)
    requires a in edges && c in edges[a] && (c == b || Reaches(edges, c, b))
    ensures Reaches(edges, a, b)
  {
    if c == b {
      assert Path(edges, a, b, 1);
    } else {
      var n: nat :| Path(edges, c, b, n);
      assert Path(edges, a, b, n + 1);
    }
  }

  lemma FirstStep<T>(edges: Edges<T>, a: T, b: T) returns (c: T)
    requires Reaches(edges, a, b)
    ensures a in edges && c in edges[a] && (c == b || Reaches(edges, c, b))
  {
    var n: nat :| Path(edges, a, b, n);
    if n == 1 {
      c := b;
    } else {
      c :| c in edges[a] && Path(edges, c, b, n - 1);
    }
  }

  lemma {:induction false} PathTransitive<T>(edges: Edges<T>, a: T, b: T, c: T, n: nat)
    requires Path(edges, a, b, n) && Reaches(edges, b, c)
    ensures Reaches(edges, a, c)
  {
    if n == 1 {
      ReachesByStep(edges, a, b, c);
    } else {
      var d :| d in edges[a] && Path(edges, d, b, n - 1);
      PathTransitive(edges, d, b, c, n - 1);
      ReachesByStep(edges, a, d, c);
    }
  }

  lemma ReachesTransitive<T>(edges: Edges<T>, a: T, b: T, c: T)
    requires Reaches(edges, a, b) && Reaches(edges, b, c)
    ensures Reaches(edges, a, c)
  {
    var n: nat :| Path(edges, a, b, n);
    PathTransitive(edges, a, b, c, n);
  }

  /** A closed set that holds the successors of a holds everything a reaches. */
  lemma {:induction false} PathStaysIn<T>(edges: Edges<T>, a: T, b: T, n: nat, s: set<T>)
    requires Path(edges, a, b, n) && edges[a] <= s
    requires forall c <- s :: c in edges ==> edges[c] <= s
    ensures b in s
  {
    if n > 1 {
      var c :| c in edges[a] && Path(edges, c, b, n - 1);
      PathStaysIn(edges, c, b, n - 1, s);
    }
  }

  lemma ReachesStaysIn<T>(edges: Edges<T>, a: T, b: T, s: set<T>)
    requires Reaches(edges, a, b) && edges[a] <= s
    requires forall c <- s :: c in edges ==> edges[c] <= s
    ensures b in s
  {
    var n: nat :| Path(edges, a, b, n);
    PathStaysIn(edges, a, b, n, s);
  }

  /** What a node reaches. */
  ghost function Descendants<T>(edges: Edges<T>, a: T): set<T> {
    set b | b in edges && Reaches(edges, a, b)
  }

  lemma DescendantsComplete<T>(edges: Edges<T>, a: T, b: T)
    requires ClosedGraph(edges) && Reaches(edges, a, b)
    ensures b in Descendants(edges, a)
  {
    ReachesStaysIn(edges, a, b, edges.Keys);
  }

  /** What a graph reaches, a larger one reaches. */
  lemma {:induction false} PathInLarger<T>(small: Edges<T>, edges: Edges<T>, a: T, b: T, n: nat)
    requires small.Keys == edges.Keys && (forall c <- small :: small[c] <= edges[c]) && Path(small, a, b, n)
    ensures Path(edges, a, b, n)
  {
    if n > 1 {
      var c :| c in small[a] && Path(small, c, b, n - 1);
      PathInLarger(small, edges, c, b, n - 1);
    }
  }

  lemma ReachesInLarger<T>(small: Edges<T>, edges: Edges<T>, a: T, b: T)
    requires small.Keys == edges.Keys && (forall c <- small :: small[c] <= edges[c]) && Reaches(small, a, b)
    ensures Reaches(edges, a, b)
  {
    var n: nat :| Path(small, a, b, n);
    PathInLarger(small, edges, a, b, n);
  }

  /** The height of a node: how many nodes it reaches. */
  ghost function Height<T>(edges: Edges<T>, a: T): nat {
    |Descendants(edges, a)|
  }

  lemma HeightDecreases<T>(edges: Edges<T>, a: T, b: T)
    requires ClosedGraph(edges) && a in edges && b in edges[a] && !Reaches(edges, b, b)
    ensures Height(edges, b) < Height(edges, a)
  {
    var above, below := Descendants(edges, a), Descendants(edges, b);
    forall x <- below ensures x in above {
      ReachesByStep(edges, a, b, x);
    }
    ReachesByStep(edges, a, b, b);
    assert b in above && b !in below;
    SubsetSize(below, above - {b});
  }

  // --------------------------------------------------------------- adding an edge

  ghost function WithEdge<T>(edges: Edges<T>, a: T, b: T): Edges<T>
    requires a in edges
  {
    edges[a := edges[a] + {b}]
  }

  lemma {:induction false} PathWithEdge<T>(edges: Edges<T>, a: T, b: T, x: T, y: T, n: nat)
    requires a in edges && Path(edges, x, y, n)
    ensures Path(WithEdge(edges, a, b), x, y, n)
  {
    if n > 1 {
      var c :| c in edges[x] && Path(edges, c, y, n - 1);
      PathWithEdge(edges, a, b, c, y, n - 1);
    }
  }

  /** A new node without edges leaves all paths between the others as they are. */
  lemma {:induction false} PathWithNode<T>(edges: Edges<T>, e: T, a: T, b: T, n: nat)
    requires ClosedGraph(edges) && e !in edges && a in edges
    ensures Path(edges[e := {}], a, b, n) <==> Path(edges, a, b, n)
  {
    if n > 1 {
      forall c | c in edges[a] ensures Path(edges[e := {}], c, b, n - 1) <==> Path(edges, c, b, n - 1) {
        PathWithNode(edges, e, c, b, n - 1);
      }
    }
  }

  lemma ReachesWithNode<T>(edges: Edges<T>, e: T, a: T, b: T)
    requires ClosedGraph(edges) && e !in edges && a in edges
    ensures Reaches(edges[e := {}], a, b) <==> Reaches(edges, a, b)
  {
    var more := edges[e := {}];
    forall n: nat ensures Path(more, a, b, n) <==> Path(edges, a, b, n) {
      PathWithNode(edges, e, a, b, n);
    }
    if n: nat :| Path(edges, a, b, n) {
      assert Path(more, a, b, n);
    }
  }

  lemma DescendantsWithNode<T>(edges: Edges<T>, e: T, a: T)
    requires ClosedGraph(edges) && e !in edges && a in edges
    ensures Descendants(edges[e := {}], a) == Descendants(edges, a)
  {
    forall b | b in edges[e := {}] ensures Reaches(edges[e := {}], a, b) <==> b in edges && Reaches(edges, a, b) {
      ReachesWithNode(edges, e, a, b);
      if Reaches(edges, a, b) {
        DescendantsComplete(edges, a, b);
      }
    }
  }

  lemma NothingFromNode<T>(edges: Edges<T>, e: T, b: T)
    ensures !Reaches(edges[e := {}], e, b)
  {
    var more := edges[e := {}];
    forall n: nat ensures !Path(more, e, b, n) {
      assert more[e] == {};
    }
  }

  lemma AcyclicWithNode<T>(edges: Edges<T>, e: T)
    requires ClosedGraph(edges) && e !in edges && Acyclic(edges)
    ensures ClosedGraph(edges[e := {}]) && Acyclic(edges[e := {}])
  {
    var more := edges[e := {}];
    forall a <- more ensures !Reaches(more, a, a) {
      if a == e {
        NothingFromNode(edges, e, e);
      } else {
        ReachesWithNode(edges, e, a, a);
      }
    }
  }

  /** A path in the larger graph avoids the new edge or passes through its ends. */
  lemma {:induction false} NewPathSplits<T>(edges: Edges<T>, a: T, b: T, x: T, y: T, n: nat)
    requires a in edges && Path(WithEdge(edges, a, b), x, y, n)
    ensures Reaches(edges, x, y) || ((x == a || Reaches(edges, x, a)) && (b == y || Reaches(edges, b, y)))
  {
    var more := WithEdge(edges, a, b);
    if n == 1 {
      if y in edges[x] {
        assert Path(edges, x, y, 1);
      }
    } else {
      var c :| c in more[x] && Path(more, c, y, n - 1);
      NewPathSplits(edges, a, b, c, y, n - 1);
      if c in edges[x] {
        if Reaches(edges, c, y) {
          ReachesByStep(edges, x, c, y);
        }
        if c == a || Reaches(edges, c, a) {
          ReachesByStep(edges, x, c, a);
        }
      }
    }
  }

  /** A new edge closes a cycle exactly when its target is, or reaches, its source. */
  lemma EdgeKeepsAcyclic<T>(edges: Edges<T>, a: T, b: T)
    requires Acyclic(edges) && a in edges
    ensures Acyclic(WithEdge(edges, a, b)) <==> a != b && !Reaches(edges, b, a)
  {
    var more := WithEdge(edges, a, b);
    if a == b || Reaches(edges, b, a) {
      if Reaches(edges, b, a) {
        var n: nat :| Path(edges, b, a, n);
        PathWithEdge(edges, a, b, b, a, n);
      }
      ReachesByStep(more, a, b, a);
    } else if x :| x in more && Reaches(more, x, x) {
      var n: nat :| Path(more, x, x, n);
      NewPathSplits(edges, a, b, x, x, n);
      if Reaches(edges, b, x) && Reaches(edges, x, a) {
        ReachesTransitive(edges, b, x, a);
      }
      assert false;
    }
  }
}
