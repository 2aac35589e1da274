/** The STAILQ macros of libosal/queue.h, a singly linked queue with a slot for its end. The SIMPLEQ
    macros are the same statements under other field names. */
module SingleTailQueues {

  import opened Basics
  import opened Members

  /** The address of a pointer to an element: of a head's stqh_first or of an element's stqe_next. */
  datatype Slot = NullSlot | HeadSlot(head: SingleTailQueue) | NextSlot(elem: Element)

  class Element {
    var next: Element?

    constructor () {
      next := null;
    }
  }

  /** What the slot before position i holds. */
  ghost function At(s: seq<Element>, i: nat): Element? {
    if i < |s| then s[i] else null
  }

  /** The slot that points at position i. */
  ghost function SlotBefore(q: SingleTailQueue, s: seq<Element>, i: nat): Slot
    requires i <= |s|
  {
    if i == 0 then HeadSlot(q) else NextSlot(s[i - 1])
  }

  /** The values of all links of a queue that holds s. */
  ghost predicate Shape(q: SingleTailQueue, s: seq<Element>, first: Element?, last: Slot, nexts: seq<Element?>) {
    && Distinct(s)
    && first == At(s, 0)
    && last == SlotBefore(q, s, |s|)
    && |nexts| == |s|
    && (forall i: nat {:trigger nexts[i]} :: i < |s| ==> nexts[i] == At(s, i + 1))
  }

  ghost function Nexts(s: seq<Element>): (r: seq<Element?>)
    reads s
    ensures |r| == |s|
    ensures forall i {:trigger r[i]} {:trigger s[i].next} :: 0 <= i < |s| ==> r[i] == s[i].next
  {
    seq(|s|, i requires 0 <= i < |s| reads s => s[i].next)
  }

  ghost function NextsWith(s: seq<Element>, nexts: seq<Element?>, k: nat, e: Element): seq<Element?>
    requires k <= |s| == |nexts|
  {
    InsertAt(if k == 0 then nexts else nexts[k - 1 := e], k, At(s, k))
  }

  lemma LinksInserted(s: seq<Element>, nexts: seq<Element?>, k: nat, e: Element)
    requires k <= |s| == |nexts|
    requires forall i {:trigger s[i].next} :: 0 <= i < |s| ==> s[i].next == if i + 1 == k then e else nexts[i]
    requires e.next == At(s, k)
    ensures Nexts(InsertAt(s, k, e)) == NextsWith(s, nexts, k, e)
  {
  }

  lemma ShapeInserted(q: SingleTailQueue, s: seq<Element>, first: Element?, last: Slot, nexts: seq<Element?>, k: nat, e: Element)
    requires Shape(q, s, first, last, nexts) && k <= |s| && e !in s
    ensures Shape(q, InsertAt(s, k, e), if k == 0 then e else first, if k == |s| then NextSlot(e) else last,
                  NextsWith(s, nexts, k, e))
  {
    InsertAtDistinct(s, k, e);
    var r := InsertAt(s, k, e);
    assert r[|s|] == if k == |s| then e else s[|s| - 1];
  }

  ghost function NextsWithout(s: seq<Element>, nexts: seq<Element?>, k: nat): seq<Element?>
    requires k < |s| == |nexts|
  {
    RemoveAt(if k == 0 then nexts else nexts[k - 1 := At(s, k + 1)], k)
  }

  lemma LinksRemoved(s: seq<Element>, nexts: seq<Element?>, k: nat)
    requires k < |s| == |nexts|
    requires forall i {:trigger s[i].next} :: 0 <= i < |s| ==> s[i].next == if i + 1 == k then At(s, k + 1) else nexts[i]
    ensures Nexts(RemoveAt(s, k)) == NextsWithout(s, nexts, k)
  {
  }

  lemma ShapeRemoved(q: SingleTailQueue, s: seq<Element>, first: Element?, last: Slot, nexts: seq<Element?>, k: nat)
    requires Shape(q, s, first, last, nexts) && k < |s|
    ensures Shape(q, RemoveAt(s, k), if k == 0 then At(s, 1) else first,
                  if k + 1 == |s| then SlotBefore(q, s, k) else last, NextsWithout(s, nexts, k))
  {
    RemoveAtDistinct(s, k);
    var r := RemoveAt(s, k);
    assert r != [] ==> r[|r| - 1] == s[if k + 1 == |s| then k - 1 else |r|];
  }

  ghost function NextsJoined(s: seq<Element>, t: seq<Element>, sn: seq<Element?>, tn: seq<Element?>): seq<Element?>
    requires |s| == |sn|
  {
    (if s == [] then sn else sn[|s| - 1 := At(t, 0)]) + tn
  }

  lemma LinksConcat(s: seq<Element>, t: seq<Element>, sn: seq<Element?>, tn: seq<Element?>)
    requires |s| == |sn| && |t| == |tn| > 0
    requires forall i {:trigger s[i].next} :: 0 <= i < |s| ==> s[i].next == if i + 1 == |s| then t[0] else sn[i]
    requires forall i {:trigger t[i].next} :: 0 <= i < |t| ==> t[i].next == tn[i]
    ensures Nexts(s + t) == NextsJoined(s, t, sn, tn)
  {
  }

  lemma ShapeConcat(q: SingleTailQueue, q2: SingleTailQueue, s: seq<Element>, t: seq<Element>, first: Element?,
                    first2: Element?, last: Slot, last2: Slot, sn: seq<Element?>, tn: seq<Element?>)
    requires Shape(q, s, first, last, sn) && Shape(q2, t, first2, last2, tn)
    requires t != [] && forall e <- s :: e !in t
    ensures Shape(q, s + t, if s == [] then first2 else first, last2, NextsJoined(s, t, sn, tn))
  {
    ConcatDistinct(s, t);
  }

  /** Where the search of STAILQ_REMOVE stops: the one element whose successor is s[k]. */
  lemma SearchStops(q: SingleTailQueue, s: seq<Element>, first: Element?, last: Slot, nexts: seq<Element?>, k: nat, i: nat)
    requires Shape(q, s, first, last, nexts) && 0 < k < |s| && i < k
    ensures nexts[i] == s[i + 1] && (nexts[i] == s[k] <==> i + 1 == k)
  {
    assert Index(s, s[i + 1]) == i + 1 && Index(s, s[k]) == k;
  }

  class SingleTailQueue {
    var first: Element?
    var last: Slot
    ghost var elems: seq<Element>

    ghost predicate Valid()
      reads this, elems
    {
      Shape(this, elems, first, last, Nexts(elems))
    }

    constructor ()
      ensures Valid() && elems == []
    {
      first, last, elems := null, NullSlot, [];
      new;
      last := HeadSlot(this);
    }

    /** STAILQ_INIT: empties the head whatever it held. */
    method Init()
      modifies this
      ensures Valid() && elems == []
    {
      first := null;
      last := HeadSlot(this);
      elems := [];
    }

    method InsertHead(elm: Element)
      requires Valid() && elm !in elems
      modifies this, elm
      ensures Valid() && elems == InsertAt(old(elems), 0, elm)
    {
      ghost var was, nexts := elems, Nexts(elems);
      ShapeInserted(this, was, first, last, nexts, 0, elm);
      elm.next := first;
      if elm.next == null {
        last := NextSlot(elm);
      }
      first := elm;
      elems := InsertAt(elems, 0, elm);
      LinksInserted(was, nexts, 0, elm);
    }

    method InsertTail(elm: Element)
      requires Valid() && elm !in elems
      modifies this, elems, elm
      ensures Valid() && elems == InsertAt(old(elems), |old(elems)|, elm)
    {
      ghost var was, nexts := elems, Nexts(elems);
      ShapeInserted(this, was, first, last, nexts, |was|, elm);
      elm.next := null;
      Store(last, elm);
      last := NextSlot(elm);
      elems := InsertAt(elems, |elems|, elm);
      LinksInserted(was, nexts, |was|, elm);
    }

    method InsertAfter(listelm: Element, elm: Element)
      requires Valid() && listelm in elems && elm !in elems
      modifies this, listelm, elm
      ensures Valid() && elems == InsertAt(old(elems), Index(old(elems), listelm) + 1, elm)
    {
      ghost var k, was, nexts := Index(elems, listelm) + 1, elems, Nexts(elems);
      ShapeInserted(this, was, first, last, nexts, k, elm);
      assert listelm.next == nexts[k - 1] == At(was, k);
      elm.next := listelm.next;
      if elm.next == null {
        last := NextSlot(elm);
      }
      listelm.next := elm;
      elems := InsertAt(was, k, elm);
      LinksInserted(was, nexts, k, elm);
    }

    /** STAILQ_REMOVE_HEAD of a queue that is not empty. */
    method RemoveHead()
      requires Valid() && elems != []
      modifies this
      ensures Valid() && elems == RemoveAt(old(elems), 0)
    {
      ghost var was, nexts := elems, Nexts(elems);
      ShapeRemoved(this, was, first, last, nexts, 0);
      assert first.next == nexts[0];
      first := first.next;
      if first == null {
        last := HeadSlot(this);
      }
      elems := RemoveAt(was, 0);
      LinksRemoved(was, nexts, 0);
    }

    /** STAILQ_REMOVE of a member: the predecessor is searched from the front. */
    method Remove(elm: Element)
      requires Valid() && elm in elems
      modifies this, elems
      ensures Valid() && elems == RemoveAt(old(elems), Index(old(elems), elm))
    {
      ghost var k, was, nexts := Index(elems, elm), elems, Nexts(elems);
      if first == elm {
        assert Index(was, was[0]) == 0;
        RemoveHead();
      } else {
        ShapeRemoved(this, was, first, last, nexts, k);
        var curelm: Element := first;
        ghost var i: nat := 0;
        SearchStops(this, was, first, last, nexts, k, i);
        while curelm.next != elm
          invariant i < k && curelm == was[i]
          invariant nexts[i] == was[i + 1] && (nexts[i] == was[k] <==> i + 1 == k)
          decreases k - i
          modifies {}
        {
          curelm := curelm.next;
          i := i + 1;
          SearchStops(this, was, first, last, nexts, k, i);
        }
        Unlink(curelm, k);
      }
    }

    /** The last step of STAILQ_REMOVE, where curelm precedes the member at position k. */
    method Unlink(curelm: Element, ghost k: nat)
      requires Valid() && 0 < k < |elems| && curelm == elems[k - 1]
      modifies this, curelm
      ensures Valid() && elems == RemoveAt(old(elems), k)
    {
      ghost var was, nexts := elems, Nexts(elems);
      ShapeRemoved(this, was, first, last, nexts, k);
      assert curelm.next == nexts[k - 1] == was[k] && was[k].next == nexts[k];
      assert Index(was, was[k - 1]) == k - 1;
      curelm.next := curelm.next.next;
      if curelm.next == null {
        last := NextSlot(curelm);
      }
      elems := RemoveAt(was, k);
      LinksRemoved(was, nexts, k);
    }

    method Concat(head2: SingleTailQueue)
      requires Valid() && head2.Valid() && head2 != this
      requires forall e <- elems :: e !in head2.elems
      modifies this, head2, elems
      ensures Valid() && elems == old(elems) + old(head2.elems)
      ensures head2.Valid() && head2.elems == []
    {
      if head2.first != null {
        ghost var s, t, sn, tn := elems, head2.elems, Nexts(elems), Nexts(head2.elems);
        ShapeConcat(this, head2, s, t, first, head2.first, last, head2.last, sn, tn);
        assert s != [] ==> last == NextSlot(s[|s| - 1]) && s[|s| - 1] !in t;
        Store(last, head2.first);
        last := head2.last;
        elems := elems + head2.elems;
        LinksConcat(s, t, sn, tn);
        head2.Init();
      }
    }

    /** STAILQ_FOREACH, collecting what the loop variable takes. */
    method Foreach() returns (visited: seq<Element>)
      requires Valid()
      ensures visited == elems
    {
      visited := [];
      var v := first;
      while v != null
        invariant |visited| <= |elems| && visited == elems[..|visited|]
        invariant v == At(elems, |visited|)
        decreases |elems| - |visited|
      {
        visited := visited + [v];
        v := v.next;
      }
    }
  }

  /** The owner of a slot. */
  function Owner(s: Slot): set<object> {
    match s
    case NullSlot => {}
    case HeadSlot(h) => {h}
    case NextSlot(e) => {e}
  }

  /** The assignment through a slot: *s = e. */
  method Store(s: Slot, e: Element?)
    requires !s.NullSlot?
    modifies Owner(s)
    ensures s.HeadSlot? ==> s.head.first == e && unchanged(s.head`last, s.head`elems)
    ensures s.NextSlot? ==> s.elem.next == e
  {
    if s.HeadSlot? {
      s.head.first := e;
    } else {
      s.elem.next := e;
    }
  }
}
