/** Walking a directed graph with a last-in, first-out worklist and no record of what has been
    visited: when such a walk ends. */
module Worklists {

  import opened Basics
  import opened Digraph

  // --------------------------------------------------------------------------- walks

  /** The orders in which the elements of a set can be listed. */
  ghost function Orders<T>(s: set<T>): set<seq<T>> {
    if s == {} then {[]} else set x, rest | x in s && rest in Orders(s - {x}) :: [x] + rest
  }

  ghost predicate Lists<T>(order: seq<T>, s: set<T>) {
    |order| == |s| && (forall x <- order :: x in s) && (forall x <- s :: x in order)
  }

  lemma {:induction false} OrdersList<T>(s: set<T>, order: seq<T>)
    requires order in Orders(s)
    ensures Lists(order, s)
    decreases |s|
  {
    if s != {} {
      var x, rest :| x in s && rest in Orders(s - {x}) && order == [x] + rest;
      OrdersList(s - {x}, rest);
      assert |s - {x}| == |s| - 1;
    }
  }

  /** Every listing is among the orders. */
  lemma {:induction false} ListsInOrders<T>(s: set<T>, order: seq<T>)
    requires Lists(order, s)
    ensures order in Orders(s)
    decreases |s|
  {
    if s != {} {
      var x, rest := order[0], order[1..];
      assert order == [x] + rest;
      ListsRest(s, x, rest);
      ListsInOrders(s - {x}, rest);
    }
  }

  lemma ListsRest<T>(s: set<T>, x: T, rest: seq<T>)
    requires Lists([x] + rest, s)
    ensures Lists(rest, s - {x})
  {
    var r := set y | y in rest;
    RestSize(rest);
    forall y <- s - {x} ensures y in rest {
      assert y in [x] + rest;
    }
    if x in rest {
      assert s <= r;
      SubsetSize(s, r);
    }
    assert x !in rest;
    forall y <- rest ensures y in s - {x} {
      assert y in [x] + rest;
    }
  }

  lemma {:induction false} RestSize<T>(rest: seq<T>)
    ensures |set y | y in rest| <= |rest|
  {
    if rest != [] {
      RestSize(rest[1..]);
      assert (set y | y in rest) == {rest[0]} + set y | y in rest[1..];
    }
  }

  lemma {:induction false} AppendOrder<T>(s: set<T>, order: seq<T>, x: T)
    requires order in Orders(s) && x !in s
    ensures order + [x] in Orders(s + {x})
    decreases |s|
  {
    var more := s + {x};
    if s == {} {
      assert [] in Orders(more - {x}) && order + [x] == [x] + [];
    } else {
      var y, rest :| y in s && rest in Orders(s - {y}) && order == [y] + rest;
      AppendOrder(s - {y}, rest, x);
      assert (s - {y}) + {x} == more - {y};
      assert order + [x] == [y] + (rest + [x]);
    }
  }

  lemma {:induction false} SomeOrder<T>(s: set<T>) returns (order: seq<T>)
    ensures order in Orders(s)
    decreases |s|
  {
    if s == {} {
      order := [];
    } else {
      var x :| x in s;
      order := SomeOrder(s - {x});
      AppendOrder(s - {x}, order, x);
      order := order + [x];
      assert s - {x} + {x} == s;
    }
  }

  /** One turn: the last entry is taken off, and what it points at is put on, in some order. */
  ghost function AfterTurn<T>(stack: seq<T>, order: seq<T>): seq<T>
    requires stack != []
  {
    stack[..|stack| - 1] + order
  }

  /** Some choice of orders takes n turns without emptying the worklist and without having taken
      off a node of `stops`. */
  ghost predicate CanWalk<T>(edges: Edges<T>, stops: set<T>, stack: seq<T>, n: nat)
    decreases n
  {
    n == 0 ||
    (&& stack != [] && stack[|stack| - 1] in edges && stack[|stack| - 1] !in stops
     && exists order :: order in Orders(edges[stack[|stack| - 1]]) && CanWalk(edges, stops, AfterTurn(stack, order), n - 1))
  }

  /** A walk from e ends, whatever the orders. */
  ghost predicate EveryWalkEnds<T>(edges: Edges<T>, stops: set<T>, e: T) {
    exists n: nat :: !CanWalk(edges, stops, [e], n)
  }

  ghost predicate Ahead<T>(edges: Edges<T>, e: T, x: T) {
    x == e || Reaches(edges, e, x)
  }

  /** No cycle can be reached from e. */
  ghost predicate NoCycleAhead<T>(edges: Edges<T>, e: T) {
    forall x <- edges :: Ahead(edges, e, x) ==> !Reaches(edges, x, x)
  }

  /** Everything in the worklist comes from `e`. */
  ghost predicate FromStart<T>(edges: Edges<T>, e: T, stack: seq<T>) {
    forall w <- stack :: w in edges && Ahead(edges, e, w)
  }

  lemma StepFromStart<T>(edges: Edges<T>, e: T, exp: T, next: T)
    requires ClosedGraph(edges) && exp in edges && Ahead(edges, e, exp) && next in edges[exp]
    ensures next in edges && Reaches(edges, e, next)
  {
    ReachesByStep(edges, exp, next, next);
    if exp != e {
      ReachesTransitive(edges, e, exp, next);
    }
  }

  // --------------------------------------------------------------- the measure of a worklist

  function Power(b: nat, n: nat): (p: nat)
    ensures b > 0 ==> p > 0
  {
    if n == 0 then 1 else b * Power(b, n - 1)
  }

  ghost function EntryWeight<T>(edges: Edges<T>, x: T): (w: nat)
    ensures w > 0
  {
    Power(|edges| + 1, Height(edges, x))
  }

  /** Each entry weighs more than all the entries that its turn can put on. */
  ghost function Weight<T>(edges: Edges<T>, stack: seq<T>): nat {
    if stack == [] then 0
    else Weight(edges, stack[..|stack| - 1]) + EntryWeight(edges, stack[|stack| - 1])
  }

  lemma WeightPush<T>(edges: Edges<T>, stack: seq<T>, e: T)
    ensures Weight(edges, stack + [e]) == Weight(edges, stack) + EntryWeight(edges, e)
  {
    assert (stack + [e])[..|stack|] == stack;
  }

  lemma {:induction false} PowerMonotone(b: nat, m: nat, n: nat)
    requires m <= n && b > 0
    ensures Power(b, m) <= Power(b, n)
    decreases n - m
  {
    if m < n {
      PowerMonotone(b, m, n - 1);
      MulMonotone(1, b, Power(b, n - 1));
    }
  }

  /** What one entry may put on: all lower than itself. */
  lemma EntryAbove<T>(edges: Edges<T>, parent: T, child: T) returns (p: nat)
    requires ClosedGraph(edges) && parent in edges && child in edges[parent] && !Reaches(edges, child, child)
    ensures Height(edges, parent) > 0 && p == Power(|edges| + 1, Height(edges, parent) - 1)
    ensures EntryWeight(edges, child) <= p
    ensures EntryWeight(edges, parent) == (|edges| + 1) * p
  {
    HeightDecreases(edges, parent, child);
    p := Power(|edges| + 1, Height(edges, parent) - 1);
    PowerMonotone(|edges| + 1, Height(edges, child), Height(edges, parent) - 1);
  }

  lemma {:induction false} WeightOfOrder<T>(edges: Edges<T>, stack: seq<T>, order: seq<T>, p: nat)
    requires forall x <- order :: EntryWeight(edges, x) <= p
    ensures Weight(edges, stack + order) <= Weight(edges, stack) + |order| * p
    decreases |order|
  {
    if order == [] {
      assert stack + order == stack;
    } else {
      var n := |order| - 1;
      WeightOfOrder(edges, stack, order[..n], p);
      LastPushed(stack, order);
      WeightPush(edges, stack + order[..n], order[n]);
      OneMoreTime(n, p);
    }
  }

  lemma LastPushed<T>(stack: seq<T>, order: seq<T>)
    requires order != []
    ensures stack + order == (stack + order[..|order| - 1]) + [order[|order| - 1]]
  {
  }

  /** A turn makes the worklist lighter, unless it is on a cycle. */
  lemma TurnIsLighter<T>(edges: Edges<T>, e: T, stack: seq<T>, order: seq<T>)
    requires ClosedGraph(edges) && NoCycleAhead(edges, e)
    requires stack != [] && FromStart(edges, e, stack) && Lists(order, edges[stack[|stack| - 1]])
    ensures FromStart(edges, e, AfterTurn(stack, order))
    ensures Weight(edges, AfterTurn(stack, order)) < Weight(edges, stack)
  {
    var base, top := stack[..|stack| - 1], stack[|stack| - 1];
    forall x <- order ensures x in edges && Reaches(edges, e, x) && !Reaches(edges, x, x) {
      StepFromStart(edges, e, top, x);
    }
    if order == [] {
      assert AfterTurn(stack, order) == base;
    } else {
      var p := EntryAbove(edges, top, order[0]);
      forall x <- order ensures EntryWeight(edges, x) <= p {
        var _ := EntryAbove(edges, top, x);
      }
      WeightOfOrder(edges, base, order, p);
      SubsetSize(edges[top], edges.Keys);
      MulMonotone(|order|, |edges|, p);
      MulBelow(|edges|, p);
    }
  }

  lemma MulBelow(n: nat, p: nat)
    requires p > 0
    ensures n * p < (n + 1) * p
  {
  }

  // ------------------------------------------------------------------- when walks end

  lemma {:induction false} WalkIsShort<T>(edges: Edges<T>, stops: set<T>, e: T, stack: seq<T>, n: nat)
    requires ClosedGraph(edges) && NoCycleAhead(edges, e) && FromStart(edges, e, stack)
    requires n > Weight(edges, stack)
    ensures !CanWalk(edges, stops, stack, n)
    decreases n
  {
    if CanWalk(edges, stops, stack, n) {
      var top := stack[|stack| - 1];
      var order :| order in Orders(edges[top]) && CanWalk(edges, stops, AfterTurn(stack, order), n - 1);
      OrdersList(edges[top], order);
      TurnIsLighter(edges, e, stack, order);
      WalkIsShort(edges, stops, e, AfterTurn(stack, order), n - 1);
      assert false;
    }
  }

  /** A cycle can be reached. */
  ghost predicate LeadsToCycle<T>(edges: Edges<T>, a: T) {
    exists x :: x in edges && Ahead(edges, a, x) && Reaches(edges, x, x)
  }

  lemma CycleGoesOn<T>(edges: Edges<T>, a: T) returns (c: T)
    requires LeadsToCycle(edges, a)
    ensures a in edges && c in edges[a] && LeadsToCycle(edges, c)
  {
    var x :| x in edges && Ahead(edges, a, x) && Reaches(edges, x, x);
    c := FirstStep(edges, a, x);
    assert Ahead(edges, c, x);
  }

  /** Putting on last what leads to the cycle keeps the walk going. */
  lemma {:induction false} WalkGoesOn<T>(edges: Edges<T>, stops: set<T>, base: seq<T>, a: T, n: nat)
    requires LeadsToCycle(edges, a) && forall x <- stops :: x in edges ==> edges[x] == {}
    ensures CanWalk(edges, stops, base + [a], n)
    decreases n
  {
    if n > 0 {
      var c := CycleGoesOn(edges, a);
      var before := SomeOrder(edges[a] - {c});
      AppendOrder(edges[a] - {c}, before, c);
      var order := before + [c];
      assert edges[a] - {c} + {c} == edges[a];
      WalkGoesOn(edges, stops, base + before, c, n - 1);
      var stack := base + [a];
      assert stack[..|stack| - 1] == base;
      assert AfterTurn(stack, order) == (base + before) + [c];
    }
  }

  /** Every walk ends exactly when no cycle can be reached. */
  lemma EveryWalkEndsExact<T>(edges: Edges<T>, stops: set<T>, e: T)
    requires ClosedGraph(edges) && e in edges && forall x <- stops :: x in edges ==> edges[x] == {}
    ensures EveryWalkEnds(edges, stops, e) <==> NoCycleAhead(edges, e)
  {
    if NoCycleAhead(edges, e) {
      WalkIsShort(edges, stops, e, [e], Weight(edges, [e]) + 1);
    } else {
      assert LeadsToCycle(edges, e);
      forall n: nat ensures CanWalk(edges, stops, [e], n) {
        WalkGoesOn(edges, stops, [], e, n);
        assert [] + [e] == [e];
      }
    }
  }
}
