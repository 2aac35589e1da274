/** The TAILQ macros of libosal/queue.h: a doubly linked queue whose back links name the slot
    (the pointer variable) that points at the element. */
module TailQueues {

  import opened Basics
  import opened Members

  /** The address of a pointer to an element: of a head's tqh_first or of an element's tqe_next. */
  datatype Slot = NullSlot | HeadSlot(head: TailQueue) | NextSlot(elem: Element)

  class Element {
    var next: Element?
    var prev: Slot

    constructor () {
      next := null;
      prev := NullSlot;
    }
  }

  // ------------------------------------------------------------------- the shape

  /** The slot that points at position i (at NULL for the position after the last). */
  ghost function SlotBefore(q: TailQueue, s: seq<Element>, i: nat): Slot
    requires i <= |s|
  {
    if i == 0 then HeadSlot(q) else NextSlot(s[i - 1])
  }

  /** What that slot holds. */
  ghost function At(s: seq<Element>, i: nat): Element? {
    if i < |s| then s[i] else null
  }

  /** The values of all links of a queue that holds s. */
  ghost predicate Shape(q: TailQueue, s: seq<Element>, first: Element?, last: Slot, nexts: seq<Element?>, prevs: seq<Slot>) {
    && Distinct(s)
    && first == At(s, 0)
    && last == SlotBefore(q, s, |s|)
    && |nexts| == |s| == |prevs|
    && (forall i: nat {:trigger nexts[i]} :: i < |s| ==> nexts[i] == At(s, i + 1))
    && (forall i: nat {:trigger prevs[i]} :: i < |s| ==> prevs[i] == SlotBefore(q, s, i))
  }

  ghost function Nexts(s: seq<Element>): (r: seq<Element?>)
    reads s
    ensures |r| == |s|
    ensures forall i {:trigger r[i]} {:trigger s[i].next} :: 0 <= i < |s| ==> r[i] == s[i].next
  {
    seq(|s|, i requires 0 <= i < |s| reads s => s[i].next)
  }

  ghost function Prevs(s: seq<Element>): (r: seq<Slot>)
    reads s
    ensures |r| == |s|
    ensures forall i {:trigger r[i]} {:trigger s[i].prev} :: 0 <= i < |s| ==> r[i] == s[i].prev
  {
    seq(|s|, i requires 0 <= i < |s| reads s => s[i].prev)
  }

  ghost function NextsWith(s: seq<Element>, nexts: seq<Element?>, k: nat, e: Element): seq<Element?>
    requires k <= |s| == |nexts|
  {
    InsertAt(if k == 0 then nexts else nexts[k - 1 := e], k, At(s, k))
  }

  ghost function PrevsWith(q: TailQueue, s: seq<Element>, prevs: seq<Slot>, k: nat, e: Element): seq<Slot>
    requires k <= |s| == |prevs|
  {
    InsertAt(if k == |s| then prevs else prevs[k := NextSlot(e)], k, SlotBefore(q, s, k))
  }

  lemma LinksInserted(q: TailQueue, s: seq<Element>, nexts: seq<Element?>, prevs: seq<Slot>, k: nat, e: Element)
    requires k <= |s| == |nexts| == |prevs|
    requires forall i {:trigger s[i].next} :: 0 <= i < |s| ==> s[i].next == if i + 1 == k then e else nexts[i]
    requires forall i {:trigger s[i].prev} :: 0 <= i < |s| ==> s[i].prev == if i == k then NextSlot(e) else prevs[i]
    requires e.next == At(s, k) && e.prev == SlotBefore(q, s, k)
    ensures Nexts(InsertAt(s, k, e)) == NextsWith(s, nexts, k, e)
    ensures Prevs(InsertAt(s, k, e)) == PrevsWith(q, s, prevs, k, e)
  {
  }

  lemma ShapeInserted(q: TailQueue, s: seq<Element>, first: Element?, last: Slot,
                      nexts: seq<Element?>, prevs: seq<Slot>, k: nat, e: Element)
    requires Shape(q, s, first, last, nexts, prevs) && k <= |s| && e !in s
    ensures Shape(q, InsertAt(s, k, e), if k == 0 then e else first, if k == |s| then NextSlot(e) else last,
                  NextsWith(s, nexts, k, e), PrevsWith(q, s, prevs, k, e))
  {
    InsertAtDistinct(s, k, e);
    var r := InsertAt(s, k, e);
    assert r[|s|] == if k == |s| then e else s[|s| - 1];
  }

  ghost function NextsWithout(s: seq<Element>, nexts: seq<Element?>, k: nat): seq<Element?>
    requires k < |s| == |nexts|
  {
    RemoveAt(if k == 0 then nexts else nexts[k - 1 := At(s, k + 1)], k)
  }

  ghost function PrevsWithout(q: TailQueue, s: seq<Element>, prevs: seq<Slot>, k: nat): seq<Slot>
    requires k < |s| == |prevs|
  {
    RemoveAt(if k + 1 == |s| then prevs else prevs[k + 1 := SlotBefore(q, s, k)], k)
  }

  lemma LinksRemoved(q: TailQueue, s: seq<Element>, nexts: seq<Element?>, prevs: seq<Slot>, k: nat)
    requires k < |s| == |nexts| == |prevs|
    requires forall i {:trigger s[i].next} :: 0 <= i < |s| ==> s[i].next == if i + 1 == k then At(s, k + 1) else nexts[i]
    requires forall i {:trigger s[i].prev} :: 0 <= i < |s| ==> s[i].prev == if i == k + 1 then SlotBefore(q, s, k) else prevs[i]
    ensures Nexts(RemoveAt(s, k)) == NextsWithout(s, nexts, k)
    ensures Prevs(RemoveAt(s, k)) == PrevsWithout(q, s, prevs, k)
  {
  }

  lemma ShapeRemoved(q: TailQueue, s: seq<Element>, first: Element?, last: Slot,
                     nexts: seq<Element?>, prevs: seq<Slot>, k: nat)
    requires Shape(q, s, first, last, nexts, prevs) && k < |s|
    ensures Shape(q, RemoveAt(s, k), if k == 0 then At(s, 1) else first,
                  if k + 1 == |s| then SlotBefore(q, s, k) else last,
                  NextsWithout(s, nexts, k), PrevsWithout(q, s, prevs, k))
  {
    RemoveAtDistinct(s, k);
    var r := RemoveAt(s, k);
    assert r != [] ==> r[|r| - 1] == s[if k + 1 == |s| then k - 1 else |r|];
  }

  ghost function NextsJoined(s: seq<Element>, t: seq<Element>, sn: seq<Element?>, tn: seq<Element?>): seq<Element?>
    requires |s| == |sn|
  {
    (if s == [] then sn else sn[|s| - 1 := At(t, 0)]) + tn
  }

  ghost function PrevsJoined(q: TailQueue, s: seq<Element>, t: seq<Element>, sp: seq<Slot>, tp: seq<Slot>): seq<Slot>
    requires |t| == |tp| > 0
  {
    sp + tp[0 := SlotBefore(q, s, |s|)]
  }

  lemma LinksConcat(q: TailQueue, s: seq<Element>, t: seq<Element>, sn: seq<Element?>, sp: seq<Slot>,
                    tn: seq<Element?>, tp: seq<Slot>)
    requires |s| == |sn| == |sp| && |t| == |tn| == |tp| > 0
    requires forall i {:trigger s[i].next} :: 0 <= i < |s| ==> s[i].next == if i + 1 == |s| then t[0] else sn[i]
    requires forall i {:trigger s[i].prev} :: 0 <= i < |s| ==> s[i].prev == sp[i]
    requires forall i {:trigger t[i].next} :: 0 <= i < |t| ==> t[i].next == tn[i]
    requires forall i {:trigger t[i].prev} :: 0 <= i < |t| ==> t[i].prev == if i == 0 then SlotBefore(q, s, |s|) else tp[i]
    ensures Nexts(s + t) == NextsJoined(s, t, sn, tn)
    ensures Prevs(s + t) == PrevsJoined(q, s, t, sp, tp)
  {
  }

  lemma ShapeConcat(q: TailQueue, q2: TailQueue, s: seq<Element>, t: seq<Element>, first: Element?, first2: Element?,
                    last: Slot, last2: Slot, sn: seq<Element?>, sp: seq<Slot>, tn: seq<Element?>, tp: seq<Slot>)
    requires Shape(q, s, first, last, sn, sp) && Shape(q2, t, first2, last2, tn, tp)
    requires t != [] && forall e <- s :: e !in t
    ensures Shape(q, s + t, if s == [] then first2 else first, last2, NextsJoined(s, t, sn, tn), PrevsJoined(q, s, t, sp, tp))
  {
    ConcatDistinct(s, t);
  }

  class TailQueue {
    var first: Element?
    var last: Slot
    ghost var elems: seq<Element>

    ghost predicate Valid()
      reads this, elems
    {
      Shape(this, elems, first, last, Nexts(elems), Prevs(elems))
    }

    constructor ()
      ensures Valid() && elems == []
    {
      first, last, elems := null, NullSlot, [];
      new;
      last := HeadSlot(this);
    }

    /** TAILQ_INIT: empties the head whatever it held. */
    method Init()
      modifies this
      ensures Valid() && elems == []
    {
      first := null;
      last := HeadSlot(this);
      elems := [];
    }

    method InsertHead(elm: Element)
      requires Valid() && elm !in elems
      modifies this, elems, elm
      ensures Valid() && elems == InsertAt(old(elems), 0, elm)
    {
      ghost var was, nexts, prevs := elems, Nexts(elems), Prevs(elems);
      ShapeInserted(this, was, first, last, nexts, prevs, 0, elm);
      elm.next := first;
      if elm.next != null {
        first.prev := NextSlot(elm);
      } else {
        last := NextSlot(elm);
      }
      first := elm;
      elm.prev := HeadSlot(this);
      elems := InsertAt(elems, 0, elm);
      LinksInserted(this, was, nexts, prevs, 0, elm);
    }

    method InsertTail(elm: Element)
      requires Valid() && elm !in elems
      modifies this, elems, elm
      ensures Valid() && elems == InsertAt(old(elems), |old(elems)|, elm)
    {
      ghost var was, nexts, prevs := elems, Nexts(elems), Prevs(elems);
      ShapeInserted(this, was, first, last, nexts, prevs, |was|, elm);
      elm.next := null;
      elm.prev := last;
      Store(last, elm);
      last := NextSlot(elm);
      elems := InsertAt(elems, |elems|, elm);
      LinksInserted(this, was, nexts, prevs, |was|, elm);
    }

    method InsertAfter(listelm: Element, elm: Element)
      requires Valid() && listelm in elems && elm !in elems
      modifies this, elems, elm
      ensures Valid() && elems == InsertAt(old(elems), Index(old(elems), listelm) + 1, elm)
    {
      ghost var k, was, nexts, prevs := Index(elems, listelm) + 1, elems, Nexts(elems), Prevs(elems);
      ShapeInserted(this, was, first, last, nexts, prevs, k, elm);
      assert listelm.next == nexts[k - 1] == At(was, k);
      elm.next := listelm.next;
      if elm.next != null {
        elm.next.prev := NextSlot(elm);
      } else {
        last := NextSlot(elm);
      }
      assert forall i {:trigger was[i].prev} :: 0 <= i < |was| ==>
          was[i].prev == (if i == k then NextSlot(elm) else prevs[i]) && was[i].next == nexts[i];
      listelm.next := elm;
      elm.prev := NextSlot(listelm);
      elems := InsertAt(was, k, elm);
      LinksInserted(this, was, nexts, prevs, k, elm);
    }

    /** TAILQ_INSERT_BEFORE takes no head: the queue is found through the slots only. */
    static method InsertBefore(listelm: Element, elm: Element, ghost queue: TailQueue)
      requires queue.Valid() && listelm in queue.elems && elm !in queue.elems
      modifies queue, queue.elems, elm
      ensures queue.Valid() && queue.elems == InsertAt(old(queue.elems), Index(old(queue.elems), listelm), elm)
    {
      ghost var k, was := Index(queue.elems, listelm), queue.elems;
      ghost var nexts, prevs := Nexts(was), Prevs(was);
      ShapeInserted(queue, was, queue.first, queue.last, nexts, prevs, k, elm);
      assert listelm.prev == prevs[k];
      elm.prev := listelm.prev;
      elm.next := listelm;
      Store(listelm.prev, elm);
      listelm.prev := NextSlot(elm);
      queue.elems := InsertAt(was, k, elm);
      LinksInserted(queue, was, nexts, prevs, k, elm);
    }

    method Remove(elm: Element)
      requires Valid() && elm in elems
      modifies this, elems
      ensures Valid() && elems == RemoveAt(old(elems), Index(old(elems), elm))
    {
      ghost var k, was, nexts, prevs := Index(elems, elm), elems, Nexts(elems), Prevs(elems);
      ShapeRemoved(this, was, first, last, nexts, prevs, k);
      assert elm.next == nexts[k] && elm.prev == prevs[k];
      if elm.next != null {
        elm.next.prev := elm.prev;
      } else {
        last := elm.prev;
      }
      Store(elm.prev, elm.next);
      elems := RemoveAt(was, k);
      LinksRemoved(this, was, nexts, prevs, k);
    }

    method Concat(head2: TailQueue)
      requires Valid() && head2.Valid() && head2 != this
      requires forall e <- elems :: e !in head2.elems
      modifies this, head2, elems, head2.elems
      ensures Valid() && elems == old(elems) + old(head2.elems)
      ensures head2.Valid() && head2.elems == []
    {
      if head2.first != null {
        ghost var s, t, sn, sp, tn, tp := elems, head2.elems, Nexts(elems), Prevs(elems), Nexts(head2.elems), Prevs(head2.elems);
        ShapeConcat(this, head2, s, t, first, head2.first, last, head2.last, sn, sp, tn, tp);
        assert s != [] ==> last == NextSlot(s[|s| - 1]) && s[|s| - 1] !in t;
        Store(last, head2.first);
        head2.first.prev := last;
        last := head2.last;
        elems := elems + head2.elems;
        LinksConcat(this, s, t, sn, sp, tn, tp);
        head2.Init();
      }
    }

    /** TAILQ_FOREACH, collecting what the loop variable takes. */
    method Foreach() returns (visited: seq<Element>)
      requires Valid()
      ensures visited == elems
    {
      visited := [];
      var v := first;
      while v != null
        invariant |visited| <= |elems| && visited == elems[..|visited|]
        invariant v == At(elems, |visited|)
        decreases |elems| - |visited|
      {
        visited := visited + [v];
        v := v.next;
      }
    }

    /** TAILQ_LAST: the slot in tqh_last, read as if it began a head. */
    method Last() returns (e: Element?)
      requires Valid()
      ensures e == if elems == [] then null else elems[|elems| - 1]
    {
      e := Load(LastFieldOf(last));
    }

    /** TAILQ_PREV of the member at position k. */
    method Prev(elm: Element) returns (e: Element?)
      requires Valid() && elm in elems
      ensures e == if Index(elems, elm) == 0 then null else elems[Index(elems, elm) - 1]
    {
      assert elm.prev == elems[Index(elems, elm)].prev;
      e := Load(LastFieldOf(elm.prev));
    }

    method ForeachReverse() returns (visited: seq<Element>)
      requires Valid()
      ensures visited == Reversed(elems)
    {
      visited := [];
      var v := Last();
      ghost var n: nat := |elems|;
      assert elems[..n] == elems;
      while v != null
        invariant n <= |elems| && v == if n == 0 then null else elems[n - 1]
        invariant visited + Reversed(elems[..n]) == Reversed(elems)
        decreases n
      {
        assert elems[..n] == elems[..n - 1] + [v];
        visited := visited + [v];
        v := Prev(v);
        n := n - 1;
      }
    }
  }

  /** Reading through a slot: *s. */
  function Load(s: Slot): Element?
    requires !s.NullSlot?
    reads Owner(s)
  {
    match s
    case HeadSlot(h) => h.first
    case NextSlot(e) => e.next
  }

  /** The cast of TAILQ_LAST and TAILQ_PREV: a head and an element's entry both hold a pointer
      followed by a slot, so ((struct headname *)s)->tqh_last is the head's tqh_last or the
      element's tqe_prev. */
  function LastFieldOf(s: Slot): Slot
    requires !s.NullSlot?
    reads Owner(s)
  {
    match s
    case HeadSlot(h) => h.last
    case NextSlot(e) => e.prev
  }

  /** The owner of a slot. */
  function Owner(s: Slot): set<object> {
    match s
    case NullSlot => {}
    case HeadSlot(h) => {h}
    case NextSlot(e) => {e}
  }

  /** The assignment through a slot: *s = e. */
  method Store(s: Slot, e: Element?)
    requires !s.NullSlot?
    modifies Owner(s)
    ensures s.HeadSlot? ==> s.head.first == e && unchanged(s.head`last, s.head`elems)
    ensures s.NextSlot? ==> s.elem.next == e && unchanged(s.elem`prev)
  {
    if s.HeadSlot? {
      s.head.first := e;
    } else {
      s.elem.next := e;
    }
  }
}
