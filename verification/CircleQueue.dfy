/** The CIRCLEQ macros of libosal/queue.h: a doubly linked ring whose ends point at the head. */
module CircleQueues {

  import opened Basics
  import opened Members

  /** A link points at the head or at a member. */
  datatype Link = NullLink | Sentinel(head: CircleQueue) | To(elem: Element)

  class Element {
    var next: Link
    var prev: Link

    constructor () {
      next, prev := NullLink, NullLink;
    }
  }

  /** What a link to position i of the ring is: positions -1 and |s| are the head. */
  ghost function At(q: CircleQueue, s: seq<Element>, i: int): Link {
    if 0 <= i < |s| then To(s[i]) else Sentinel(q)
  }

  /** The values of all links of a ring that holds s. */
  ghost predicate Shape(q: CircleQueue, s: seq<Element>, first: Link, last: Link, nexts: seq<Link>, prevs: seq<Link>) {
    && Distinct(s)
    && first == At(q, s, 0) && last == At(q, s, |s| - 1)
    && |nexts| == |s| == |prevs|
    && (forall i: nat {:trigger nexts[i]} :: i < |s| ==> nexts[i] == At(q, s, i + 1))
    && (forall i: nat {:trigger prevs[i]} :: i < |s| ==> prevs[i] == At(q, s, i - 1))
  }

  ghost function Nexts(s: seq<Element>): (r: seq<Link>)
    reads s
    ensures |r| == |s|
    ensures forall i {:trigger r[i]} {:trigger s[i].next} :: 0 <= i < |s| ==> r[i] == s[i].next
  {
    seq(|s|, i requires 0 <= i < |s| reads s => s[i].next)
  }

  ghost function Prevs(s: seq<Element>): (r: seq<Link>)
    reads s
    ensures |r| == |s|
    ensures forall i {:trigger r[i]} {:trigger s[i].prev} :: 0 <= i < |s| ==> r[i] == s[i].prev
  {
    seq(|s|, i requires 0 <= i < |s| reads s => s[i].prev)
  }

  ghost function NextsWith(q: CircleQueue, s: seq<Element>, nexts: seq<Link>, k: nat, e: Element): seq<Link>
    requires k <= |s| == |nexts|
  {
    InsertAt(if k == 0 then nexts else nexts[k - 1 := To(e)], k, At(q, s, k))
  }

  ghost function PrevsWith(q: CircleQueue, s: seq<Element>, prevs: seq<Link>, k: nat, e: Element): seq<Link>
    requires k <= |s| == |prevs|
  {
    InsertAt(if k == |s| then prevs else prevs[k := To(e)], k, At(q, s, k - 1))
  }

  lemma LinksInserted(q: CircleQueue, s: seq<Element>, nexts: seq<Link>, prevs: seq<Link>, k: nat, e: Element)
    requires k <= |s| == |nexts| == |prevs|
    requires forall i {:trigger s[i].next} :: 0 <= i < |s| ==> s[i].next == if i + 1 == k then To(e) else nexts[i]
    requires forall i {:trigger s[i].prev} :: 0 <= i < |s| ==> s[i].prev == if i == k then To(e) else prevs[i]
    requires e.next == At(q, s, k) && e.prev == At(q, s, k - 1)
    ensures Nexts(InsertAt(s, k, e)) == NextsWith(q, s, nexts, k, e)
    ensures Prevs(InsertAt(s, k, e)) == PrevsWith(q, s, prevs, k, e)
  {
  }

  lemma ShapeInserted(q: CircleQueue, s: seq<Element>, first: Link, last: Link, nexts: seq<Link>, prevs: seq<Link>,
                      k: nat, e: Element)
    requires Shape(q, s, first, last, nexts, prevs) && k <= |s| && e !in s
    ensures Shape(q, InsertAt(s, k, e), if k == 0 then To(e) else first, if k == |s| then To(e) else last,
                  NextsWith(q, s, nexts, k, e), PrevsWith(q, s, prevs, k, e))
  {
    InsertAtDistinct(s, k, e);
    var r := InsertAt(s, k, e);
    assert r[|s|] == if k == |s| then e else s[|s| - 1];
  }

  ghost function NextsWithout(q: CircleQueue, s: seq<Element>, nexts: seq<Link>, k: nat): seq<Link>
    requires k < |s| == |nexts|
  {
    RemoveAt(if k == 0 then nexts else nexts[k - 1 := At(q, s, k + 1)], k)
  }

  ghost function PrevsWithout(q: CircleQueue, s: seq<Element>, prevs: seq<Link>, k: nat): seq<Link>
    requires k < |s| == |prevs|
  {
    RemoveAt(if k + 1 == |s| then prevs else prevs[k + 1 := At(q, s, k - 1)], k)
  }

  lemma LinksRemoved(q: CircleQueue, s: seq<Element>, nexts: seq<Link>, prevs: seq<Link>, k: nat)
    requires k < |s| == |nexts| == |prevs|
    requires forall i {:trigger s[i].next} :: 0 <= i < |s| ==> s[i].next == if i + 1 == k then At(q, s, k + 1) else nexts[i]
    requires forall i {:trigger s[i].prev} :: 0 <= i < |s| ==> s[i].prev == if i == k + 1 then At(q, s, k - 1) else prevs[i]
    ensures Nexts(RemoveAt(s, k)) == NextsWithout(q, s, nexts, k)
    ensures Prevs(RemoveAt(s, k)) == PrevsWithout(q, s, prevs, k)
  {
  }

  lemma ShapeRemoved(q: CircleQueue, s: seq<Element>, first: Link, last: Link, nexts: seq<Link>, prevs: seq<Link>, k: nat)
    requires Shape(q, s, first, last, nexts, prevs) && k < |s|
    ensures Shape(q, RemoveAt(s, k), if k == 0 then At(q, s, 1) else first,
                  if k + 1 == |s| then At(q, s, k - 1) else last,
                  NextsWithout(q, s, nexts, k), PrevsWithout(q, s, prevs, k))
  {
    RemoveAtDistinct(s, k);
    var r := RemoveAt(s, k);
    assert r != [] ==> r[|r| - 1] == s[if k + 1 == |s| then k - 1 else |r|];
  }

  class CircleQueue {
    var first: Link
    var last: Link
    ghost var elems: seq<Element>

    ghost predicate Valid()
      reads this, elems
    {
      Shape(this, elems, first, last, Nexts(elems), Prevs(elems))
    }

    /** CIRCLEQ_INIT. */
    constructor ()
      ensures Valid() && elems == []
    {
      first, last, elems := NullLink, NullLink, [];
      new;
      first, last := Sentinel(this), Sentinel(this);
    }

    method InsertAfter(listelm: Element, elm: Element)
      requires Valid() && listelm in elems && elm !in elems
      modifies this, elems, elm
      ensures Valid() && elems == InsertAt(old(elems), Index(old(elems), listelm) + 1, elm)
    {
      ghost var k, was, nexts, prevs := Index(elems, listelm) + 1, elems, Nexts(elems), Prevs(elems);
      ShapeInserted(this, was, first, last, nexts, prevs, k, elm);
      assert listelm.next == nexts[k - 1] == At(this, was, k);
      elm.next := listelm.next;
      elm.prev := To(listelm);
      if listelm.next == Sentinel(this) {
        last := To(elm);
      } else {
        listelm.next.elem.prev := To(elm);
      }
      listelm.next := To(elm);
      elems := InsertAt(was, k, elm);
      LinksInserted(this, was, nexts, prevs, k, elm);
    }

    method InsertBefore(listelm: Element, elm: Element)
      requires Valid() && listelm in elems && elm !in elems
      modifies this, elems, elm
      ensures Valid() && elems == InsertAt(old(elems), Index(old(elems), listelm), elm)
    {
      ghost var k: int := Index(elems, listelm);
      ghost var was, nexts, prevs := elems, Nexts(elems), Prevs(elems);
      ShapeInserted(this, was, first, last, nexts, prevs, k, elm);
      assert listelm.prev == prevs[k] == At(this, was, k - 1);
      elm.next := To(listelm);
      elm.prev := listelm.prev;
      if listelm.prev == Sentinel(this) {
        first := To(elm);
      } else {
        listelm.prev.elem.next := To(elm);
      }
      listelm.prev := To(elm);
      elems := InsertAt(was, k, elm);
      LinksInserted(this, was, nexts, prevs, k, elm);
    }

    method InsertHead(elm: Element)
      requires Valid() && elm !in elems
      modifies this, elems, elm
      ensures Valid() && elems == InsertAt(old(elems), 0, elm)
    {
      ghost var was, nexts, prevs := elems, Nexts(elems), Prevs(elems);
      ShapeInserted(this, was, first, last, nexts, prevs, 0, elm);
      elm.next := first;
      elm.prev := Sentinel(this);
      if last == Sentinel(this) {
        last := To(elm);
      } else {
        first.elem.prev := To(elm);
      }
      first := To(elm);
      elems := InsertAt(was, 0, elm);
      LinksInserted(this, was, nexts, prevs, 0, elm);
    }

    method InsertTail(elm: Element)
      requires Valid() && elm !in elems
      modifies this, elems, elm
      ensures Valid() && elems == InsertAt(old(elems), |old(elems)|, elm)
    {
      ghost var was, nexts, prevs := elems, Nexts(elems), Prevs(elems);
      ShapeInserted(this, was, first, last, nexts, prevs, |was|, elm);
      elm.next := Sentinel(this);
      elm.prev := last;
      if first == Sentinel(this) {
        first := To(elm);
      } else {
        last.elem.next := To(elm);
      }
      last := To(elm);
      elems := InsertAt(was, |was|, elm);
      LinksInserted(this, was, nexts, prevs, |was|, elm);
    }

    method Remove(elm: Element)
      requires Valid() && elm in elems
      modifies this, elems
      ensures Valid() && elems == RemoveAt(old(elems), Index(old(elems), elm))
    {
      ghost var k, was, nexts, prevs := Index(elems, elm), elems, Nexts(elems), Prevs(elems);
      ShapeRemoved(this, was, first, last, nexts, prevs, k);
      assert elm.next == nexts[k] && elm.prev == prevs[k];
      if elm.next == Sentinel(this) {
        last := elm.prev;
      } else {
        elm.next.elem.prev := elm.prev;
      }
      if elm.prev == Sentinel(this) {
        first := elm.next;
      } else {
        elm.prev.elem.next := elm.next;
      }
      elems := RemoveAt(was, k);
      LinksRemoved(this, was, nexts, prevs, k);
    }

    /** CIRCLEQ_FOREACH, collecting what the loop variable takes. */
    method Foreach() returns (visited: seq<Element>)
      requires Valid()
      ensures visited == elems
    {
      visited := [];
      var v := first;
      while v != Sentinel(this)
        invariant |visited| <= |elems| && visited == elems[..|visited|]
        invariant v == At(this, elems, |visited|)
        decreases |elems| - |visited|
      {
        visited := visited + [v.elem];
        v := v.elem.next;
      }
    }

    method ForeachReverse() returns (visited: seq<Element>)
      requires Valid()
      ensures visited == Reversed(elems)
    {
      visited := [];
      var v := last;
      ghost var n: nat := |elems|;
      assert elems[..n] == elems;
      while v != Sentinel(this)
        invariant n <= |elems| && v == At(this, elems, n - 1)
        invariant visited + Reversed(elems[..n]) == Reversed(elems)
        decreases n
      {
        assert elems[..n] == elems[..n - 1] + [v.elem];
        visited := visited + [v.elem];
        v := v.elem.prev;
        n := n - 1;
      }
    }

    /** CIRCLEQ_LOOP_NEXT: the next member, around the end. */
    function LoopNext(elm: Element): Link
      reads this, elm
    {
      if elm.next == Sentinel(this) then first else elm.next
    }

    /** CIRCLEQ_LOOP_PREV: the previous member, around the front. */
    function LoopPrev(elm: Element): Link
      reads this, elm
    {
      if elm.prev == Sentinel(this) then last else elm.prev
    }

    /** The link that follows a link around the ring, the head included. */
    ghost function Next(l: Link): Link
      reads this, if l.To? then {l.elem} else {}
    {
      if l.To? then l.elem.next else first
    }

    ghost function Prev(l: Link): Link
      reads this, if l.To? then {l.elem} else {}
    {
      if l.To? then l.elem.prev else last
    }

    /** A link that occurs in the ring. */
    ghost predicate InRing(l: Link)
      reads this
    {
      l == Sentinel(this) || (l.To? && l.elem in elems)
    }

    /** Next and prev are inverses of each other around the whole ring, the head included. */
    lemma NextAndPrevAreInverse(l: Link)
      requires Valid() && InRing(l)
      ensures InRing(Next(l)) && InRing(Prev(l))
      ensures Prev(Next(l)) == l && Next(Prev(l)) == l
    {
      var nexts, prevs := Nexts(elems), Prevs(elems);
      if l.To? {
        var k := Index(elems, l.elem);
        assert l.elem.next == nexts[k] && l.elem.prev == prevs[k];
      }
    }

    /** LOOP_NEXT goes from the last member to the first, LOOP_PREV from the first to the last, and
        they undo each other. */
    lemma LoopsGoAround(k: nat)
      requires Valid() && k < |elems|
      ensures LoopNext(elems[k]) == To(elems[if k + 1 == |elems| then 0 else k + 1])
      ensures LoopPrev(elems[k]) == To(elems[if k == 0 then |elems| - 1 else k - 1])
      ensures LoopPrev(LoopNext(elems[k]).elem) == To(elems[k]) == LoopNext(LoopPrev(elems[k]).elem)
    {
      var nexts, prevs := Nexts(elems), Prevs(elems);
      var n, p := if k + 1 == |elems| then 0 else k + 1, if k == 0 then |elems| - 1 else k - 1;
      assert elems[k].next == nexts[k] && elems[k].prev == prevs[k];
      assert elems[n].prev == prevs[n] && elems[p].next == nexts[p];
    }
  }
}
