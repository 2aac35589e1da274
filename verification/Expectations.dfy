/** Expectations and their prerequisites (gmock-spec-builders.cc): the worklist traversals of the
    prerequisite graph, and what they keep over a run of calls. */
module Expectations {

  import opened Basics
  import opened Digraph
  import opened Worklists

  class ExpectationBase {
    var prerequisites: set<ExpectationBase>
    // The cardinality: between `min` and `max` calls.
    const min: nat
    const max: nat
    const retiresOnSaturation: bool
    var callCount: nat
    var retired: bool

    constructor (min: nat, max: nat, retiresOnSaturation: bool)
      ensures this.min == min && this.max == max && this.retiresOnSaturation == retiresOnSaturation
      ensures prerequisites == {} && callCount == 0 && !retired
    {
      this.min, this.max, this.retiresOnSaturation := min, max, retiresOnSaturation;
      prerequisites, callCount, retired := {}, 0, false;
    }

    predicate IsSatisfied()
      reads this`callCount
    {
      min <= callCount <= max
    }

    predicate IsSaturated()
      reads this`callCount
    {
      callCount >= max
    }
  }

  type Exp = ExpectationBase

  /** The prerequisite graph of a set of expectations. */
  ghost function EdgesOf(g: set<Exp>): Edges<Exp>
    reads g`prerequisites
  {
    map e | e in g :: e.prerequisites
  }

  ghost predicate WellFormed(g: set<Exp>)
    reads g`prerequisites
  {
    ClosedGraph(EdgesOf(g))
  }

  ghost predicate AllSatisfied(g: set<Exp>, e: Exp)
    reads g
  {
    forall x <- g :: Reaches(EdgesOf(g), e, x) ==> x.min <= x.callCount <= x.max
  }

  ghost function SatisfiedSet(g: set<Exp>): set<Exp>
    reads g`callCount
  {
    set x | x in g && x.min <= x.callCount <= x.max
  }

  lemma WithinGraph(g: set<Exp>, x: Exp)
    requires WellFormed(g) && x in g
    ensures x.prerequisites <= g
  {
    assert EdgesOf(g)[x] <= EdgesOf(g).Keys;
  }

  // -------------------------------------------- whether all prerequisites are satisfied

  /** The expectations at which the traversal of AllPrerequisitesAreSatisfied returns false. */
  ghost function Refusing(g: set<Exp>): set<Exp>
    reads g
  {
    set x | x in g && !(x.prerequisites <= SatisfiedSet(g))
  }

  /** What it puts into the worklist for each expectation. */
  ghost function OpenEdges(g: set<Exp>): Edges<Exp>
    reads g
  {
    map x | x in g :: if x in Refusing(g) then {} else x.prerequisites
  }

  lemma OpenReaches(g: set<Exp>, e: Exp, x: Exp)
    requires Ahead(OpenEdges(g), e, x)
    ensures Ahead(EdgesOf(g), e, x)
  {
    if x != e {
      ReachesInLarger(OpenEdges(g), EdgesOf(g), e, x);
    }
  }

  ghost predicate SomeReaches(edges: Edges<Exp>, stack: seq<Exp>, x: Exp) {
    exists w :: w in stack && Reaches(edges, w, x)
  }

  /** Whether every direct and indirect prerequisite of `e` is satisfied.  The traversal keeps no
      record of what it has seen: it ends if it meets no cycle, and only then in every order of the
      prerequisites (AllPrerequisitesEndExact). */
  method AllPrerequisitesAreSatisfied(e: Exp, ghost g: set<Exp>) returns (ok: bool)
    requires e in g && WellFormed(g) && NoCycleAhead(OpenEdges(g), e)
    ensures ok <==> AllSatisfied(g, e)
  {
    ghost var edges, open := EdgesOf(g), OpenEdges(g);
    var expectations := [e];
    while expectations != []
      invariant FromStart(open, e, expectations)
      invariant forall x <- g :: Reaches(edges, e, x) ==> x.IsSatisfied() || SomeReaches(edges, expectations, x)
      decreases Weight(open, expectations)
    {
      ghost var before := expectations;
      var exp := expectations[|expectations| - 1];
      OpenReaches(g, e, exp);
      ghost var order;
      ok, expectations, order := PushPrerequisites(exp, expectations[..|expectations| - 1], g);
      if !ok {
        UnsatisfiedAhead(g, e, exp);
        return false;
      }
      OrdersList(open[exp], order);
      TurnIsLighter(open, e, before, order);
      forall x <- g | Reaches(edges, e, x) && !x.IsSatisfied() ensures SomeReaches(edges, expectations, x) {
        StillReached(g, before, expectations, order, x);
      }
    }
    return true;
  }

  lemma UnsatisfiedAhead(g: set<Exp>, e: Exp, exp: Exp)
    requires e in g && WellFormed(g) && exp in Refusing(g) && Ahead(EdgesOf(g), e, exp)
    ensures !AllSatisfied(g, e)
  {
    WithinGraph(g, exp);
    var c :| c in exp.prerequisites && c !in SatisfiedSet(g);
    StepFromStart(EdgesOf(g), e, exp, c);
  }

  /** Taking an entry off loses nothing if its prerequisites are satisfied and put on. */
  lemma StillReached(g: set<Exp>, before: seq<Exp>, stack: seq<Exp>, order: seq<Exp>, x: Exp)
    requires WellFormed(g) && before != [] && stack == AfterTurn(before, order) && before[|before| - 1] in g - Refusing(g)
    requires Lists(order, before[|before| - 1].prerequisites)
    requires !x.IsSatisfied() && SomeReaches(EdgesOf(g), before, x)
    ensures SomeReaches(EdgesOf(g), stack, x)
  {
    var base, exp := before[..|before| - 1], before[|before| - 1];
    assert before == base + [exp];
    var w :| w in before && Reaches(EdgesOf(g), w, x);
    if w in base {
      assert w in stack;
    } else {
      var c := FirstStep(EdgesOf(g), exp, x);
      assert c in SatisfiedSet(g) && c in order && c in stack;
    }
  }

  /** The inner loop: puts on all prerequisites of one expectation, or finds an unsatisfied one. */
  method PushPrerequisites(exp: Exp, base: seq<Exp>, ghost g: set<Exp>) returns (ok: bool, stack: seq<Exp>, ghost order: seq<Exp>)
    requires exp in g && WellFormed(g)
    ensures ok <==> exp !in Refusing(g)
    ensures ok ==> order in Orders(exp.prerequisites) && stack == base + order
  {
    WithinGraph(g, exp);
    stack, order := base, [];
    var todo := exp.prerequisites;
    assert order in Orders({});
    assert exp.prerequisites - todo == {};
    while todo != {}
      invariant todo <= exp.prerequisites && exp.prerequisites - todo <= SatisfiedSet(g)
      invariant order in Orders(exp.prerequisites - todo) && stack == base + order
      decreases todo
    {
      var next :| next in todo;
      if !next.IsSatisfied() {
        return false, stack, order;
      }
      AppendOrder(exp.prerequisites - todo, order, next);
      assert exp.prerequisites - todo + {next} == exp.prerequisites - (todo - {next});
      stack := stack + [next];
      order := order + [next];
      todo := todo - {next};
    }
    assert exp.prerequisites - todo == exp.prerequisites;
    ok := true;
  }

  /** In every order of the prerequisites the traversal ends, exactly when it can reach no cycle of
      expectations whose prerequisites are all satisfied. */
  lemma AllPrerequisitesEndExact(g: set<Exp>, e: Exp)
    requires e in g && WellFormed(g)
    ensures EveryWalkEnds(OpenEdges(g), Refusing(g), e) <==> NoCycleAhead(OpenEdges(g), e)
  {
    forall x <- g ensures x.prerequisites <= g {
      WithinGraph(g, x);
    }
    EveryWalkEndsExact(OpenEdges(g), Refusing(g), e);
  }

  // ------------------------------------------------- which prerequisites are unsatisfied

  ghost function UncalledSet(g: set<Exp>): set<Exp>
    reads g`callCount
  {
    set x | x in g && x.min == 0 == x.callCount
  }

  /** What FindUnsatisfiedPrerequisites puts into the worklist for each expectation: the satisfied
      prerequisites that have not been called. */
  ghost function PushedEdges(g: set<Exp>): Edges<Exp>
    reads g
  {
    map x | x in g :: x.prerequisites * UncalledSet(g)
  }

  /** `x` is a prerequisite of what can be reached in this way. */
  ghost predicate SeenFrom(g: set<Exp>, w: Exp, x: Exp)
    reads g
  {
    exists v <- g :: Ahead(PushedEdges(g), w, v) && x in v.prerequisites
  }

  /** The unsatisfied expectations that can be seen from `start`. */
  ghost function Exposed(g: set<Exp>, start: Exp): set<Exp>
    reads g
  {
    set x | x in g && !(x.min <= x.callCount <= x.max) && SeenFrom(g, start, x)
  }

  ghost predicate SomeSees(g: set<Exp>, stack: seq<Exp>, x: Exp)
    reads g
  {
    exists w <- stack :: SeenFrom(g, w, x)
  }

  /** Everything exposed has been found or can still be found. */
  ghost predicate Complete(g: set<Exp>, e: Exp, stack: seq<Exp>, found: set<Exp>)
    reads g
  {
    forall x <- Exposed(g, e) :: x in found || SomeSees(g, stack, x)
  }

  method FindUnsatisfiedPrerequisites(e: Exp, result: set<Exp>, ghost g: set<Exp>) returns (result': set<Exp>)
    requires e in g && WellFormed(g) && NoCycleAhead(PushedEdges(g), e)
    ensures result' == result + Exposed(g, e)
  {
    ghost var pushed := PushedEdges(g);
    assert ClosedGraph(pushed) by { PushedWithin(g); }
    var expectations := [e];
    result' := result;
    while expectations != []
      invariant FromStart(pushed, e, expectations)
      invariant result <= result' <= result + Exposed(g, e)
      invariant Complete(g, e, expectations, result')
      decreases Weight(pushed, expectations)
    {
      ghost var before, found := expectations, result';
      var exp := expectations[|expectations| - 1];
      ghost var order;
      assert exp in pushed;
      expectations, result', order := ExpandUnsatisfied(exp, expectations[..|expectations| - 1], result', g);
      OrdersList(pushed[exp], order);
      TurnIsLighter(pushed, e, before, order);
      ExposedHere(g, e, exp);
      TurnCompletes(g, e, before, order, found, result');
    }
  }

  lemma PushedWithin(g: set<Exp>)
    ensures ClosedGraph(PushedEdges(g))
  {
  }

  /** The unsatisfied prerequisites of what is taken off are exposed. */
  lemma ExposedHere(g: set<Exp>, e: Exp, exp: Exp)
    requires WellFormed(g) && exp in g && Ahead(PushedEdges(g), e, exp)
    ensures exp.prerequisites - SatisfiedSet(g) <= Exposed(g, e)
  {
    WithinGraph(g, exp);
    forall x <- exp.prerequisites - SatisfiedSet(g) ensures x in Exposed(g, e) {
      assert SeenFrom(g, e, x);
    }
  }

  /** What an entry saw is found or can be seen from what has been put on. */
  lemma TurnCompletes(g: set<Exp>, e: Exp, before: seq<Exp>, order: seq<Exp>, found: set<Exp>, found': set<Exp>)
    requires WellFormed(g) && before != [] && before[|before| - 1] in g && Complete(g, e, before, found)
    requires Lists(order, PushedEdges(g)[before[|before| - 1]])
    requires found' == found + (before[|before| - 1].prerequisites - SatisfiedSet(g))
    ensures Complete(g, e, AfterTurn(before, order), found')
  {
    var stack, base, exp := AfterTurn(before, order), before[..|before| - 1], before[|before| - 1];
    assert before == base + [exp];
    forall x <- Exposed(g, e) | x !in found' ensures SomeSees(g, stack, x) {
      var w :| w in before && SeenFrom(g, w, x);
      if w in base {
        assert w in stack;
      } else {
        var c := SeenThrough(g, exp, x);
        assert c in order && c in stack;
      }
    }
  }

  lemma SeenThrough(g: set<Exp>, exp: Exp, x: Exp) returns (c: Exp)
    requires exp in g && SeenFrom(g, exp, x) && x !in exp.prerequisites
    ensures c in PushedEdges(g)[exp] && SeenFrom(g, c, x)
  {
    var v :| v in g && Ahead(PushedEdges(g), exp, v) && x in v.prerequisites;
    c := FirstStep(PushedEdges(g), exp, v);
    assert Ahead(PushedEdges(g), c, v);
  }

  /** The inner loop: one expectation's prerequisites. */
  method ExpandUnsatisfied(exp: Exp, base: seq<Exp>, found: set<Exp>, ghost g: set<Exp>)
    returns (stack: seq<Exp>, found': set<Exp>, ghost order: seq<Exp>)
    requires exp in g && WellFormed(g)
    ensures order in Orders(PushedEdges(g)[exp]) && stack == base + order
    ensures found' == found + (exp.prerequisites - SatisfiedSet(g))
  {
    WithinGraph(g, exp);
    ghost var uncalled, satisfied := UncalledSet(g), SatisfiedSet(g);
    stack, found', order := base, found, [];
    var todo := exp.prerequisites;
    assert order in Orders({});
    assert (exp.prerequisites - todo) * uncalled == {};
    while todo != {}
      invariant todo <= exp.prerequisites
      invariant order in Orders((exp.prerequisites - todo) * uncalled) && stack == base + order
      invariant found' == found + (exp.prerequisites - todo - satisfied)
      decreases todo
    {
      var next :| next in todo;
      ghost var done := exp.prerequisites - todo;
      assert exp.prerequisites - (todo - {next}) == done + {next};
      if next.IsSatisfied() {
        if next.callCount == 0 {
          assert (done + {next}) * uncalled == done * uncalled + {next};
          AppendOrder(done * uncalled, order, next);
          stack := stack + [next];
          order := order + [next];
        } else {
          assert (done + {next}) * uncalled == done * uncalled;
        }
      } else {
        assert (done + {next}) * uncalled == done * uncalled;
        found' := found' + {next};
      }
      todo := todo - {next};
    }
    assert exp.prerequisites - todo == exp.prerequisites;
  }

  /** In every order of the prerequisites the traversal ends, exactly when it can reach no cycle of
      satisfied expectations that have not been called. */
  lemma FindUnsatisfiedEndExact(g: set<Exp>, e: Exp)
    requires e in g && WellFormed(g)
    ensures EveryWalkEnds(PushedEdges(g), {}, e) <==> NoCycleAhead(PushedEdges(g), e)
  {
    PushedWithin(g);
    EveryWalkEndsExact(PushedEdges(g), {}, e);
  }

  /** On a graph without cycles both end. */
  lemma AcyclicEnds(g: set<Exp>, e: Exp)
    requires Acyclic(EdgesOf(g))
    ensures NoCycleAhead(OpenEdges(g), e) && NoCycleAhead(PushedEdges(g), e)
  {
    forall x <- g ensures !Reaches(OpenEdges(g), x, x) && !Reaches(PushedEdges(g), x, x) {
      if Reaches(OpenEdges(g), x, x) {
        ReachesInLarger(OpenEdges(g), EdgesOf(g), x, x);
      }
      if Reaches(PushedEdges(g), x, x) {
        ReachesInLarger(PushedEdges(g), EdgesOf(g), x, x);
      }
    }
  }

  // ---------------------------------------------------------------------- retirement

  ghost function RetiredSet(g: set<Exp>): set<Exp>
    reads g`retired
  {
    set x | x in g && x.retired
  }

  /** The prerequisites of a retired expectation are retired. */
  ghost predicate RetiredClosed(edges: Edges<Exp>, retired: set<Exp>) {
    forall x <- retired :: x in edges ==> edges[x] <= retired
  }

  /** During the traversal: what has been retired since `retired0` is expanded or in the worklist. */
  ghost predicate Retiring(edges: Edges<Exp>, e: Exp, retired0: set<Exp>, retired: set<Exp>, stack: seq<Exp>) {
    && retired0 <= retired <= retired0 + Descendants(edges, e)
    && FromStart(edges, e, stack)
    && forall x <- retired + {e} :: x in edges && (x in stack || x in retired0 || edges[x] <= retired)
  }

  lemma RetirePush(edges: Edges<Exp>, e: Exp, retired0: set<Exp>, retired: set<Exp>, stack: seq<Exp>, exp: Exp, next: Exp)
    requires ClosedGraph(edges) && exp in edges && next in edges[exp]
    requires Retiring(edges, e, retired0, retired, stack + [exp])
    ensures Retiring(edges, e, retired0, retired + {next}, (stack + [next]) + [exp])
  {
    assert exp in stack + [exp];
    StepFromStart(edges, e, exp, next);
    forall x <- retired + {next} + {e}
      ensures x in edges && (x in (stack + [next]) + [exp] || x in retired0 || edges[x] <= retired + {next})
    {
      assert x in stack + [exp] ==> x in (stack + [next]) + [exp];
    }
  }

  lemma RetirePop(edges: Edges<Exp>, e: Exp, retired0: set<Exp>, retired: set<Exp>, stack: seq<Exp>, exp: Exp)
    requires Retiring(edges, e, retired0, retired, stack + [exp]) && exp in edges && edges[exp] <= retired
    ensures Retiring(edges, e, retired0, retired, stack)
  {
    forall w <- stack ensures w in stack + [exp] {
    }
  }

  lemma RetireDone(edges: Edges<Exp>, e: Exp, retired0: set<Exp>, retired: set<Exp>)
    requires Retiring(edges, e, retired0, retired, []) && RetiredClosed(edges, retired0) && e !in retired0
    ensures retired == retired0 + Descendants(edges, e) && RetiredClosed(edges, retired)
  {
    DescendantsWithin(edges, e, retired);
  }

  /** Works on any prerequisite graph, even one with cycles: every entry is pushed once, when it
      is retired. */
  method RetireAllPreRequisites(e: Exp, ghost g: set<Exp>)
    requires e in g && WellFormed(g) && RetiredClosed(EdgesOf(g), RetiredSet(g))
    modifies g`retired
    ensures RetiredSet(g) == old(RetiredSet(g)) + Descendants(EdgesOf(g), e)
    ensures RetiredClosed(EdgesOf(g), RetiredSet(g))
  {
    ghost var edges, retired0 := EdgesOf(g), RetiredSet(g);
    if e.retired {
      DescendantsWithin(edges, e, retired0);
      return;
    }
    var expectations := [e];
    while expectations != []
      invariant Retiring(edges, e, retired0, RetiredSet(g), expectations)
      decreases g - RetiredSet(g), |expectations|
    {
      var exp := expectations[|expectations| - 1];
      ghost var base := expectations[..|expectations| - 1];
      assert expectations == base + [exp] && exp in expectations;
      expectations := ExpandRetiring(exp, expectations[..|expectations| - 1], e, retired0, g);
      RetirePop(edges, e, retired0, RetiredSet(g), expectations, exp);
    }
    RetireDone(edges, e, retired0, RetiredSet(g));
  }

  /** The inner loop: retires one expectation's prerequisites. */
  method ExpandRetiring(exp: Exp, base: seq<Exp>, ghost e: Exp, ghost retired0: set<Exp>, ghost g: set<Exp>)
    returns (stack: seq<Exp>)
    requires exp in g && WellFormed(g)
    requires Retiring(EdgesOf(g), e, retired0, RetiredSet(g), base + [exp])
    modifies g`retired
    ensures Retiring(EdgesOf(g), e, retired0, RetiredSet(g), stack + [exp])
    ensures exp.prerequisites <= RetiredSet(g) && old(RetiredSet(g)) <= RetiredSet(g)
    ensures RetiredSet(g) == old(RetiredSet(g)) ==> stack == base
  {
    stack := base;
    var todo := exp.prerequisites;
    while todo != {}
      invariant todo <= exp.prerequisites
      invariant old(RetiredSet(g)) <= RetiredSet(g) && exp.prerequisites - todo <= RetiredSet(g)
      invariant Retiring(EdgesOf(g), e, retired0, RetiredSet(g), stack + [exp])
      invariant RetiredSet(g) == old(RetiredSet(g)) ==> stack == base
      decreases todo
    {
      var next :| next in todo;
      assert EdgesOf(g)[exp] <= g;
      if !next.retired {
        ghost var r := RetiredSet(g);
        RetirePush(EdgesOf(g), e, retired0, r, stack, exp, next);
        next.retired := true;
        assert RetiredSet(g) == r + {next};
        stack := stack + [next];
      }
      todo := todo - {next};
    }
  }

  lemma DescendantsWithin(edges: Edges<Exp>, e: Exp, s: set<Exp>)
    requires e in edges && edges[e] <= s && RetiredClosed(edges, s)
    ensures Descendants(edges, e) <= s
  {
    forall x <- Descendants(edges, e) ensures x in s {
      ReachesStaysIn(edges, e, x, s);
    }
  }

  // ------------------------------------------------------------- building the graph

  ghost predicate NobodyWaitsFor(g: set<Exp>, e: Exp)
    reads g`prerequisites
  {
    forall x <- g :: e !in x.prerequisites
  }

  lemma {:induction false} FreshUnreached(g: set<Exp>, e: Exp, x: Exp, n: nat)
    requires NobodyWaitsFor(g, e)
    ensures !Path(EdgesOf(g), x, e, n)
  {
    if n > 1 && Path(EdgesOf(g), x, e, n) {
      var c :| c in EdgesOf(g)[x] && Path(EdgesOf(g), c, e, n - 1);
      FreshUnreached(g, e, c, n - 1);
    }
  }

  /** The graph with `last` as a new prerequisite of `e`; nothing is added for the first
      expectation of a sequence or for a repetition of the last one. */
  ghost function Extended(edges: Edges<Exp>, last: ExpectationBase?, e: Exp): Edges<Exp>
    requires e in edges
  {
    if last == null || last == e then edges else var l: Exp := last; WithEdge(edges, e, l)
  }

  /** Whether `last` is a different expectation that depends on `e` already. */
  ghost predicate DependsOn(edges: Edges<Exp>, last: ExpectationBase?, e: Exp) {
    if last == null || last == e then false else var l: Exp := last; Reaches(edges, l, e)
  }

  class Sequence {
    var last: ExpectationBase?

    constructor ()
      ensures last == null
    {
      last := null;
    }

    /** Puts `e` behind the last expectation of the sequence.  The graph stays acyclic exactly when
        that one does not depend on `e` already. */
    method AddExpectation(e: Exp, ghost g: set<Exp>)
      requires e in g && (last != null ==> last in g) && WellFormed(g)
      modifies this`last, e`prerequisites
      ensures last == e && WellFormed(g)
      ensures e.prerequisites == old(e.prerequisites) + if old(last) == null || old(last) == e then {} else {old(last)}
      ensures EdgesOf(g) == Extended(old(EdgesOf(g)), old(last), e)
      ensures old(Acyclic(EdgesOf(g))) ==> (Acyclic(EdgesOf(g)) <==> !DependsOn(old(EdgesOf(g)), old(last), e))
    {
      ghost var edges := EdgesOf(g);
      if last != e {
        if last != null {
          var l: Exp := last;
          if Acyclic(edges) {
            EdgeKeepsAcyclic(edges, e, l);
          }
          e.prerequisites := e.prerequisites + {l};
          assert EdgesOf(g) == WithEdge(edges, e, l);
        }
        last := e;
      }
    }
  }

  /** Expectations that nobody depends on yet, as EXPECT_CALL creates them, never close a cycle. */
  lemma FreshKeepsAcyclic(g: set<Exp>, last: Exp, e: Exp)
    requires e in g && Acyclic(EdgesOf(g)) && NobodyWaitsFor(g, e) && last != e
    ensures Acyclic(WithEdge(EdgesOf(g), e, last))
  {
    forall n: nat ensures !Path(EdgesOf(g), last, e, n) {
      FreshUnreached(g, e, last, n);
    }
    EdgeKeepsAcyclic(EdgesOf(g), e, last);
  }

  /** The smallest cycle: one sequence that is given a, b and a again. */
  method RepeatedExpectationCloses(a: Exp, b: Exp)
    requires a != b && a.prerequisites == {} == b.prerequisites
    modifies a`prerequisites, b`prerequisites
    ensures a.prerequisites == {b} && b.prerequisites == {a}
    ensures !Acyclic(EdgesOf({a, b}))
  {
    ghost var g := {a, b};
    var s := new Sequence();
    s.AddExpectation(a, g);
    assert EdgesOf(g)[a] == {} && EdgesOf(g)[b] == {};
    s.AddExpectation(b, g);
    assert EdgesOf(g)[a] == {} && EdgesOf(g)[b] == {a};
    s.AddExpectation(a, g);
    assert EdgesOf(g)[a] == {b} && EdgesOf(g)[b] == {a};
    ReachesByStep(EdgesOf(g), b, a, a);
    ReachesByStep(EdgesOf(g), a, b, a);
  }

  /** A graph of two nodes has a cycle ahead exactly when they point at each other. */
  lemma PairCycle(edges: Edges<Exp>, a: Exp, b: Exp)
    requires a != b && edges.Keys == {a, b} && edges[a] <= {b} && edges[b] <= {a}
    ensures NoCycleAhead(edges, a) <==> edges[a] == {} || edges[b] == {}
  {
    if edges[a] == {b} && edges[b] == {a} {
      ReachesByStep(edges, b, a, a);
      ReachesByStep(edges, a, b, a);
    } else {
      forall x <- edges ensures !Reaches(edges, x, x) {
        if Reaches(edges, x, x) {
          var c := FirstStep(edges, x, x);
          var d := FirstStep(edges, c, x);
        }
      }
    }
  }

  /** On that cycle AllPrerequisitesAreSatisfied ends unless both are satisfied, and
      FindUnsatisfiedPrerequisites unless both are satisfied without having been called. */
  lemma RepeatedPairEnds(a: Exp, b: Exp)
    requires a != b && a.prerequisites == {b} && b.prerequisites == {a}
    ensures
      var g := {a, b};
      && (EveryWalkEnds(OpenEdges(g), Refusing(g), a) <==> !(a.IsSatisfied() && b.IsSatisfied()))
      && (EveryWalkEnds(PushedEdges(g), {}, a) <==> !({a, b} <= UncalledSet(g)))
  {
    var g := {a, b};
    assert WellFormed(g);
    AllPrerequisitesEndExact(g, a);
    FindUnsatisfiedEndExact(g, a);
    PairCycle(OpenEdges(g), a, b);
    PairCycle(PushedEdges(g), a, b);
  }

  /** The failing input: two such expectations that need not be called, and have not been. */
  lemma RepeatedPairNeverEnds(a: Exp, b: Exp)
    requires a != b && a.prerequisites == {b} && b.prerequisites == {a}
    requires a.min == 0 == b.min && a.callCount == 0 == b.callCount
    ensures !EveryWalkEnds(OpenEdges({a, b}), Refusing({a, b}), a)
    ensures !EveryWalkEnds(PushedEdges({a, b}), {}, a)
  {
    RepeatedPairEnds(a, b);
  }

  // ------------------------------------------------------------------- runs of calls

  /** The expectations that have been called and allow calls.  (One that allows no call at all is
      only ever called in excess.) */
  ghost function CalledSet(g: set<Exp>): set<Exp>
    reads g`callCount
  {
    set x | x in g && x.callCount > 0 && x.max > 0
  }

  /** A called expectation has its prerequisites behind it: satisfied, and retired for good. */
  ghost predicate Settled(edges: Edges<Exp>, called: set<Exp>, satisfied: set<Exp>, retired: set<Exp>) {
    forall x <- called :: Descendants(edges, x) <= satisfied && Descendants(edges, x) <= retired
  }

  lemma SettledAfterCall(edges: Edges<Exp>, e: Exp, called: set<Exp>, satisfied: set<Exp>, retired: set<Exp>,
                         called': set<Exp>, satisfied': set<Exp>, retired': set<Exp>)
    requires Settled(edges, called, satisfied, retired) && e !in retired && !Reaches(edges, e, e)
    requires called' <= called + {e} && satisfied - {e} <= satisfied' && retired <= retired'
    requires e in called' ==> e in called || (Descendants(edges, e) <= satisfied && Descendants(edges, e) <= retired')
    ensures Settled(edges, called', satisfied', retired')
  {
    forall x <- called' ensures Descendants(edges, x) <= satisfied' && Descendants(edges, x) <= retired' {
      assert x in called ==> e !in Descendants(edges, x);
    }
  }

  /** What every mock function call keeps. */
  ghost predicate RunInvariant(g: set<Exp>)
    reads g
  {
    && WellFormed(g) && Acyclic(EdgesOf(g))
    && RetiredClosed(EdgesOf(g), RetiredSet(g))
    && Settled(EdgesOf(g), CalledSet(g), SatisfiedSet(g), RetiredSet(g))
  }

  lemma FreshRun(g: set<Exp>)
    requires WellFormed(g) && Acyclic(EdgesOf(g)) && forall x <- g :: x.callCount == 0 && !x.retired
    ensures RunInvariant(g)
  {
  }

  lemma DescendantsUnchanged(g: set<Exp>, e: Exp, l: Exp, x: Exp)
    requires e in g && NobodyWaitsFor(g, e) && x != e
    ensures Descendants(WithEdge(EdgesOf(g), e, l), x) == Descendants(EdgesOf(g), x)
  {
    var edges, more := EdgesOf(g), WithEdge(EdgesOf(g), e, l);
    forall n: nat ensures !Path(edges, x, e, n) {
      FreshUnreached(g, e, x, n);
    }
    forall y <- g ensures Reaches(more, x, y) <==> Reaches(edges, x, y) {
      if Reaches(edges, x, y) {
        var n: nat :| Path(edges, x, y, n);
        PathWithEdge(edges, e, l, x, y, n);
      }
      if Reaches(more, x, y) {
        var n: nat :| Path(more, x, y, n);
        NewPathSplits(edges, e, l, x, y, n);
      }
    }
  }

  /** A new expectation without prerequisites joins the others. */
  lemma NewcomerKeepsRun(g: set<Exp>, e: Exp)
    requires RunInvariant(g) && e !in g && e.prerequisites == {} && e.callCount == 0 && !e.retired
    ensures RunInvariant(g + {e}) && NobodyWaitsFor(g + {e}, e)
    ensures EdgesOf(g + {e}) == EdgesOf(g)[e := {}]
  {
    var more := g + {e};
    assert EdgesOf(more) == EdgesOf(g)[e := {}];
    forall x <- g ensures e !in x.prerequisites {
      assert x.prerequisites == EdgesOf(g)[x];
    }
    AcyclicWithNode(EdgesOf(g), e);
    SettledWithNode(EdgesOf(g), e, CalledSet(g), SatisfiedSet(g), RetiredSet(g));
    assert RetiredSet(more) == RetiredSet(g) && CalledSet(more) == CalledSet(g) && SatisfiedSet(g) <= SatisfiedSet(more);
  }

  lemma SettledWithNode(edges: Edges<Exp>, e: Exp, called: set<Exp>, satisfied: set<Exp>, retired: set<Exp>)
    requires Settled(edges, called, satisfied, retired) && ClosedGraph(edges) && e !in edges && called <= edges.Keys
    ensures Settled(edges[e := {}], called, satisfied, retired)
  {
    var more := edges[e := {}];
    forall x <- called ensures Descendants(more, x) <= satisfied && Descendants(more, x) <= retired {
      DescendantsWithNode(edges, e, x);
    }
  }

  /** An expectation that nobody depends on may join a sequence at any time, also between calls. */
  method JoinSequence(s: Sequence, e: Exp, ghost g: set<Exp>)
    requires e in g && (s.last != null ==> s.last in g) && RunInvariant(g)
    requires NobodyWaitsFor(g, e) && e.callCount == 0 && !e.retired
    modifies s`last, e`prerequisites
    ensures RunInvariant(g) && s.last == e
    ensures e.prerequisites == old(e.prerequisites) + if old(s.last) == null || old(s.last) == e then {} else {old(s.last)}
    ensures EdgesOf(g) == Extended(old(EdgesOf(g)), old(s.last), e)
  {
    ghost var edges := EdgesOf(g);
    if s.last != null && s.last != e {
      var l: Exp := s.last;
      FreshKeepsAcyclic(g, l, e);
      forall x <- CalledSet(g)
        ensures Descendants(WithEdge(edges, e, l), x) == Descendants(edges, x)
      {
        DescendantsUnchanged(g, e, l, x);
      }
    }
    s.AddExpectation(e, g);
  }

  /** AddNewExpectation: creates an expectation, also between calls, and puts it behind the last one
      of the implicit sequence, if there is such a sequence. */
  method AddNewExpectation(implicit: Sequence?, min: nat, max: nat, retiresOnSaturation: bool, ghost g: set<Exp>)
    returns (e: Exp)
    requires RunInvariant(g) && (implicit != null && implicit.last != null ==> implicit.last in g)
    modifies if implicit == null then {} else {implicit}
    ensures fresh(e) && e.callCount == 0 && !e.retired
    ensures e.min == min && e.max == max && e.retiresOnSaturation == retiresOnSaturation
    ensures RunInvariant(g + {e}) && (implicit != null ==> implicit.last == e)
    ensures e.prerequisites == if implicit == null || old(implicit.last) == null then {} else {old(implicit.last)}
    ensures EdgesOf(g + {e}) == if implicit == null then old(EdgesOf(g))[e := {}]
                                else Extended(old(EdgesOf(g))[e := {}], old(implicit.last), e)
  {
    e := new ExpectationBase(min, max, retiresOnSaturation);
    NewcomerKeepsRun(g, e);
    if implicit != null {
      JoinSequence(implicit, e, g + {e});
    }
  }

  /** ShouldHandleArguments, for a call whose arguments match. */
  method ShouldHandle(e: Exp, ghost g: set<Exp>) returns (ok: bool)
    requires e in g && RunInvariant(g)
    ensures ok <==> !e.retired && forall x <- g :: Reaches(EdgesOf(g), e, x) ==> x.min <= x.callCount <= x.max
  {
    if e.retired {
      return false;
    }
    AcyclicEnds(g, e);
    ok := AllPrerequisitesAreSatisfied(e, g);
  }

  /** The state change of GetActionForArguments: an excess call is only counted; any other call
      retires all the prerequisites, and `e` itself if it asked for that and is now saturated. */
  method TakeCall(e: Exp, ghost g: set<Exp>)
    requires e in g && RunInvariant(g) && !e.retired && AllSatisfied(g, e)
    modifies g`retired, e`callCount
    ensures RunInvariant(g)
    ensures e.callCount == old(e.callCount) + 1
    ensures RetiredSet(g) == old(RetiredSet(g))
                             + (if old(e.callCount) >= e.max then {} else Descendants(EdgesOf(g), e))
                             + (if e.retiresOnSaturation && e.callCount == e.max then {e} else {})
    ensures e.retired <==> e.retiresOnSaturation && e.callCount == e.max
  {
    ghost var edges, called, satisfied, retired := EdgesOf(g), CalledSet(g), SatisfiedSet(g), RetiredSet(g);
    CountCall(e, g);
    assert e !in Descendants(edges, e) && (e.retired <==> e in RetiredSet(g));
    SettledAfterCall(edges, e, called, satisfied, retired, CalledSet(g), SatisfiedSet(g), RetiredSet(g));
  }

  /** The state change itself. */
  method CountCall(e: Exp, ghost g: set<Exp>)
    requires e in g && WellFormed(g) && RetiredClosed(EdgesOf(g), RetiredSet(g)) && !e.retired
    modifies g`retired, e`callCount
    ensures e.callCount == old(e.callCount) + 1
    ensures RetiredSet(g) == old(RetiredSet(g))
                             + (if old(e.callCount) >= e.max then {} else Descendants(EdgesOf(g), e))
                             + (if e.retiresOnSaturation && e.callCount == e.max then {e} else {})
    ensures RetiredClosed(EdgesOf(g), RetiredSet(g))
  {
    var saturated := e.IsSaturated();
    e.callCount := e.callCount + 1;
    if !saturated {
      RetireAllPreRequisites(e, g);
      if e.retiresOnSaturation && e.IsSaturated() {
        RetireOne(e, g);
      }
    }
  }

  /** Each of these expectations was put behind the one before it. */
  ghost predicate InSequence(g: set<Exp>, es: seq<Exp>)
    reads g
  {
    && (forall i :: 0 <= i < |es| ==> es[i] in g)
    && forall i :: 0 <= i < |es| - 1 ==> es[i] in es[i + 1].prerequisites
  }

  lemma {:induction false} LaterReachesEarlier(g: set<Exp>, es: seq<Exp>, i: nat, j: nat)
    requires InSequence(g, es) && i < j < |es|
    ensures Reaches(EdgesOf(g), es[j], es[i])
    decreases j
  {
    var k := j - 1;
    assert es[k] in es[k + 1].prerequisites && EdgesOf(g)[es[j]] == es[j].prerequisites;
    if i < k {
      LaterReachesEarlier(g, es, i, k);
    }
    ReachesByStep(EdgesOf(g), es[j], es[k], es[i]);
  }

  /** The law of a sequence: as long as an expectation lacks a call that it needs, nothing behind it
      takes a call, ... */
  lemma MissingCallBlocks(g: set<Exp>, es: seq<Exp>, i: nat, j: nat)
    requires InSequence(g, es) && i < j < |es| && es[i].callCount < es[i].min
    ensures !AllSatisfied(g, es[j])
  {
    LaterReachesEarlier(g, es, i, j);
  }

  /** ... and once something behind it has taken a call, it has had its calls and takes no more. */
  lemma CallsComeInOrder(g: set<Exp>, es: seq<Exp>, i: nat, j: nat)
    requires RunInvariant(g) && InSequence(g, es) && i < j < |es|
    requires es[j].callCount > 0 && es[j].max > 0
    ensures es[i].min <= es[i].callCount <= es[i].max && es[i].retired
  {
    LaterReachesEarlier(g, es, i, j);
    assert es[i] in Descendants(EdgesOf(g), es[j]);
    assert es[j] in CalledSet(g);
    assert es[i] in SatisfiedSet(g) && es[i] in RetiredSet(g);
  }

  /** An expectation whose prerequisites are all retired may retire. */
  method RetireOne(e: Exp, ghost g: set<Exp>)
    requires e in g && WellFormed(g) && RetiredClosed(EdgesOf(g), RetiredSet(g))
    requires Descendants(EdgesOf(g), e) <= RetiredSet(g)
    modifies e`retired
    ensures RetiredSet(g) == old(RetiredSet(g)) + {e}
    ensures RetiredClosed(EdgesOf(g), RetiredSet(g))
  {
    forall c <- e.prerequisites ensures c in RetiredSet(g) {
      ReachesByStep(EdgesOf(g), e, c, c);
      DescendantsComplete(EdgesOf(g), e, c);
    }
    ghost var r := RetiredSet(g);
    e.retired := true;
    assert RetiredSet(g) == r + {e};
  }

  /** In every state of a run, FindUnsatisfiedPrerequisites reports nothing exactly when there is
      nothing to report: stopping at called and at unsatisfied expectations loses no evidence. */
  lemma ExposedExact(g: set<Exp>, e: Exp)
    requires e in g && RunInvariant(g)
    ensures Exposed(g, e) == {} <==> AllSatisfied(g, e)
    ensures forall x <- Exposed(g, e) :: Reaches(EdgesOf(g), e, x) && !x.IsSatisfied()
  {
    forall x <- Exposed(g, e) ensures Reaches(EdgesOf(g), e, x) && !x.IsSatisfied() {
      var v :| v in g && Ahead(PushedEdges(g), e, v) && x in v.prerequisites;
      if v != e {
        ReachesInLarger(PushedEdges(g), EdgesOf(g), e, v);
      }
      StepFromStart(EdgesOf(g), e, v, x);
    }
    if Exposed(g, e) == {} {
      forall x <- g | Reaches(EdgesOf(g), e, x) ensures x.IsSatisfied() {
        var n: nat :| Path(EdgesOf(g), e, x, n);
        UnexposedSatisfied(g, e, e, x, n);
      }
    }
  }

  lemma {:induction false} UnexposedSatisfied(g: set<Exp>, e: Exp, y: Exp, x: Exp, n: nat)
    requires e in g && y in g && x in g && RunInvariant(g) && Exposed(g, e) == {}
    requires Ahead(PushedEdges(g), e, y) && Path(EdgesOf(g), y, x, n)
    ensures x.IsSatisfied()
  {
    var c := x;
    if n > 1 {
      c :| c in EdgesOf(g)[y] && Path(EdgesOf(g), c, x, n - 1);
    }
    ExposedHere(g, e, y);
    WithinGraph(g, y);
    assert c in EdgesOf(g)[y] && c !in Exposed(g, e);
    assert c in SatisfiedSet(g);
    if n > 1 {
      if c.callCount == 0 {
        PushedWithin(g);
        StepFromStart(PushedEdges(g), e, y, c);
        UnexposedSatisfied(g, e, c, x, n - 1);
      } else {
        assert Reaches(EdgesOf(g), c, x);
        assert x in Descendants(EdgesOf(g), c);
      }
    }
  }
}
