/** The Fisher-Yates shuffle of gtest-internal-inl.h. */
module Shuffles {

  import opened Basics
  import opened Generators

  /** What a shuffle of n elements may draw: one number below n, one below n - 1, ..., one below 2. */
  ghost predicate ValidChoices(n: nat, choices: seq<nat>) {
    && |choices| == (if n < 2 then 0 else n - 1)
    && forall i :: 0 <= i < |choices| ==> choices[i] < n - i
  }

  function Swap<E>(s: seq<E>, i: nat, j: nat): (r: seq<E>)
    requires i < |s| && j < |s|
    ensures |r| == |s|
  {
    s[i := s[j]][j := s[i]]
  }

  /** The shuffle of a whole sequence by given choices: each draw fixes the last element that is
      left. */
  ghost function Shuffled<E>(s: seq<E>, choices: seq<nat>): (r: seq<E>)
    requires ValidChoices(|s|, choices)
    ensures |r| == |s|
    decreases |s|
  {
    if |s| < 2 then s
    else
      var last := |s| - 1;
      var swapped := Swap(s, choices[0], last);
      Shuffled(swapped[..last], choices[1..]) + [swapped[last]]
  }

  lemma SwapMultiset<E>(s: seq<E>, i: nat, j: nat)
    requires i < |s| && j < |s|
    ensures multiset(Swap(s, i, j)) == multiset(s)
  {
  }

  lemma LastOut<E>(s: seq<E>)
    requires s != []
    ensures multiset(s) == multiset(s[..|s| - 1]) + multiset{s[|s| - 1]}
  {
    assert s == s[..|s| - 1] + [s[|s| - 1]];
  }

  /** Nothing is lost and nothing is invented. */
  lemma {:induction false} ShuffledPermutes<E>(s: seq<E>, choices: seq<nat>)
    requires ValidChoices(|s|, choices)
    ensures multiset(Shuffled(s, choices)) == multiset(s)
    decreases |s|
  {
    if |s| >= 2 {
      var last := |s| - 1;
      var swapped := Swap(s, choices[0], last);
      var front := Shuffled(swapped[..last], choices[1..]);
      ShuffledPermutes(swapped[..last], choices[1..]);
      LastOut(swapped);
      SwapMultiset(s, choices[0], last);
      assert multiset(front + [swapped[last]]) == multiset(front) + multiset{swapped[last]};
    }
  }

  /** Taking the same last element off two rearrangements leaves rearrangements. */
  lemma LastOutOfBoth<E>(s: seq<E>, t: seq<E>)
    requires |s| == |t| > 0 && multiset(s) == multiset(t) && s[|s| - 1] == t[|t| - 1]
    ensures multiset(s[..|s| - 1]) == multiset(t[..|t| - 1])
  {
    LastOut(s);
    LastOut(t);
    var x := multiset{s[|s| - 1]};
    assert (multiset(s[..|s| - 1]) + x) - x == multiset(s[..|s| - 1]);
    assert (multiset(t[..|t| - 1]) + x) - x == multiset(t[..|t| - 1]);
  }

  lemma SameSize<E>(s: seq<E>, t: seq<E>)
    requires multiset(s) == multiset(t)
    ensures |s| == |t|
  {
    assert |s| == |multiset(s)| == |multiset(t)| == |t|;
  }

  lemma Position<E>(s: seq<E>, t: seq<E>, i: nat) returns (k: nat)
    requires multiset(s) == multiset(t) && i < |t|
    ensures k < |s| && s[k] == t[i]
  {
    assert t[i] in multiset(t);
    k :| k < |s| && s[k] == t[i];
  }

  lemma SmallSame<E>(s: seq<E>, t: seq<E>)
    requires multiset(s) == multiset(t) && |s| < 2
    ensures s == t
  {
    SameSize(s, t);
    if |s| == 1 {
      var k := Position(s, t, 0);
    }
  }

  lemma DrawFirst<E>(s: seq<E>, sel: nat, rest: seq<nat>)
    requires |s| >= 2 && sel < |s| && ValidChoices(|s| - 1, rest)
    ensures ValidChoices(|s|, [sel] + rest)
    ensures Shuffled(s, [sel] + rest)
         == Shuffled(Swap(s, sel, |s| - 1)[..|s| - 1], rest) + [s[sel]]
  {
    assert ([sel] + rest)[1..] == rest;
  }

  /** Every arrangement of the elements can be drawn. */
  lemma {:induction false} EveryArrangementArises<E>(s: seq<E>, t: seq<E>) returns (choices: seq<nat>)
    requires multiset(s) == multiset(t)
    ensures ValidChoices(|s|, choices) && Shuffled(s, choices) == t
    decreases |s|
  {
    SameSize(s, t);
    if |s| < 2 {
      SmallSame(s, t);
      choices := [];
    } else {
      var last := |s| - 1;
      var sel := Position(s, t, last);
      SwapMultiset(s, sel, last);
      LastOutOfBoth(Swap(s, sel, last), t);
      var rest := EveryArrangementArises(Swap(s, sel, last)[..last], t[..last]);
      DrawFirst(s, sel, rest);
      choices := [sel] + rest;
      assert t == t[..last] + [t[last]];
    }
  }

  /** No arrangement of distinct elements can be drawn in two ways. */
  lemma {:induction false} ArrangementArisesOnce<E>(s: seq<E>, c: seq<nat>, d: seq<nat>)
    requires Distinct(s) && ValidChoices(|s|, c) && ValidChoices(|s|, d)
    requires Shuffled(s, c) == Shuffled(s, d)
    ensures c == d
    decreases |s|
  {
    if |s| >= 2 {
      var last := |s| - 1;
      assert Shuffled(s, c)[last] == s[c[0]] && Shuffled(s, d)[last] == s[d[0]];
      assert c[0] == d[0];
      var swapped := Swap(s, c[0], last);
      assert Shuffled(swapped[..last], c[1..]) == Shuffled(s, c)[..last];
      assert Shuffled(swapped[..last], d[1..]) == Shuffled(s, d)[..last];
      ArrangementArisesOnce(swapped[..last], c[1..], d[1..]);
      assert c == [c[0]] + c[1..] && d == [d[0]] + d[1..];
    }
  }

  /** A range of the vector is shuffled, the rest stays. */
  ghost function RangeShuffled<E>(s: seq<E>, begin: nat, end: nat, choices: seq<nat>): (r: seq<E>)
    requires begin <= end <= |s| && ValidChoices(end - begin, choices)
    ensures |r| == |s|
  {
    s[..begin] + Shuffled(s[begin..end], choices) + s[end..]
  }

  /** What a generator in a given state draws for n elements. */
  ghost function Draws(state: nat, n: nat): (choices: seq<nat>)
    ensures |choices| == if n < 2 then 0 else n - 1
    decreases n
  {
    if n < 2 then [] else [Draw(state, n)] + Draws(NextState(state), n - 1)
  }

  /** One of its draws, with `left` elements left. */
  ghost function Draw(state: nat, left: nat): nat
    requires left > 0
  {
    NextState(state) % left
  }

  /** The state after those draws. */
  ghost function StateAfter(state: nat, n: nat): nat
    decreases n
  {
    if n < 2 then state else StateAfter(NextState(state), n - 1)
  }

  /** Draw number i is made in the i-th state, from the elements that are left. */
  lemma {:induction false} DrawsAreStates(state: nat, n: nat, i: nat)
    requires i + 1 < n
    ensures Draws(state, n)[i] == Draw(Iterated(state, i), n - i)
    decreases n
  {
    if i > 0 {
      DrawsAreStates(NextState(state), n - 1, i - 1);
    }
  }

  /** The generator has gone from `start` to `state` and drawn `choices`; `left` elements are left. */
  ghost predicate Drawn(start: nat, n: nat, choices: seq<nat>, state: nat, left: nat) {
    && Draws(start, n) == choices + Draws(state, left)
    && StateAfter(start, n) == StateAfter(state, left)
  }

  lemma DrawnOne(start: nat, n: nat, choices: seq<nat>, state: nat, left: nat)
    requires Drawn(start, n, choices, state, left) && left >= 2
    ensures Drawn(start, n, choices + [Draw(state, left)], NextState(state), left - 1)
  {
  }

  /** The order depends on nothing but the range and the state of the generator. */
  method ShuffleRange<E>(random: Random, begin: nat, end: nat, v: array<E>)
    requires begin <= end <= v.Length <= MAX_RANGE
    modifies random, v
    ensures ValidChoices(end - begin, Draws(old(random.state), end - begin))
    ensures v[..] == RangeShuffled(old(v[..]), begin, end, Draws(old(random.state), end - begin))
    ensures random.state == StateAfter(old(random.state), end - begin)
  {
    ghost var choices: seq<nat> := [];
    ghost var start := random.state;
    var rangeWidth := end - begin;
    ghost var s, part, now := v[..], v[begin..end], v[begin..end];
    NothingDrawn(part);
    while rangeWidth >= 2
      invariant 0 <= rangeWidth <= end - begin == |now|
      invariant SoFar(part, choices, now, rangeWidth)
      invariant Drawn(start, end - begin, choices, random.state, rangeWidth)
      invariant v[..] == s[..begin] + now + s[end..]
    {
      var lastInRange := begin + rangeWidth - 1;
      DrawnOne(start, end - begin, choices, random.state, rangeWidth);
      var r := random.Generate(rangeWidth);
      var selected := begin + r;
      OneMore(part, choices, now, rangeWidth, r);
      SwapElements(v, selected, lastInRange, s[..begin], now, s[end..]);
      now := Swap(now, r, rangeWidth - 1);
      choices := choices + [r];
      rangeWidth := rangeWidth - 1;
    }
    AllDone(part, choices, now, rangeWidth);
    assert part == s[begin..end];
    assert Draws(start, end - begin) == choices;
  }

  /** std::swap of two vector elements, inside a part of the vector. */
  method SwapElements<E>(v: array<E>, i: nat, j: nat, ghost before: seq<E>, ghost part: seq<E>, ghost after: seq<E>)
    requires v[..] == before + part + after && |before| <= i < |before| + |part| && |before| <= j < |before| + |part|
    modifies v
    ensures v[..] == before + Swap(part, i - |before|, j - |before|) + after
  {
    SwapWithin(before, part, after, i - |before|, j - |before|);
    v[i], v[j] := v[j], v[i];
    assert v[..] == Swap(before + part + after, i, j);
  }

  lemma SwapWithin<E>(before: seq<E>, s: seq<E>, after: seq<E>, i: nat, j: nat)
    requires i < |s| && j < |s|
    ensures Swap(before + s + after, |before| + i, |before| + j) == before + Swap(s, i, j) + after
  {
  }

  /** Drawing `more` for the elements that are left completes the shuffle. */
  ghost predicate Completes<E>(s: seq<E>, drawn: seq<nat>, now: seq<E>, left: nat, more: seq<nat>)
    requires left <= |now|
  {
    && ValidChoices(left, more) && ValidChoices(|s|, drawn + more)
    && Shuffled(s, drawn + more) == Shuffled(now[..left], more) + now[left..]
  }

  /** The first draws have been made: whatever is drawn next completes the shuffle. */
  ghost predicate SoFar<E>(s: seq<E>, drawn: seq<nat>, now: seq<E>, left: nat) {
    && left <= |now| == |s| && (|s| >= 2 ==> left >= 1 && |drawn| == |s| - left) && (|s| < 2 ==> drawn == [] && left == |s|)
    && forall more {:trigger Completes(s, drawn, now, left, more)} ::
         ValidChoices(left, more) ==> Completes(s, drawn, now, left, more)
  }

  lemma NothingDrawn<E>(s: seq<E>)
    ensures SoFar(s, [], s, |s|)
  {
    forall more | ValidChoices(|s|, more) ensures Completes(s, [], s, |s|, more) {
      assert [] + more == more && s[..|s|] == s;
    }
  }

  lemma SwapParts<E>(now: seq<E>, left: nat, r: nat)
    requires 2 <= left <= |now| && r < left
    ensures Swap(now[..left], r, left - 1)[..left - 1] == Swap(now, r, left - 1)[..left - 1]
    ensures Swap(now, r, left - 1)[left - 1..] == [now[r]] + now[left..]
  {
    var next := Swap(now, r, left - 1);
    assert forall i :: 0 <= i < left - 1 ==> Swap(now[..left], r, left - 1)[i] == next[i];
    assert forall i :: left <= i < |now| ==> next[i] == now[i];
    assert next[left - 1] == now[r];
    assert next[left - 1..] == [next[left - 1]] + next[left..];
  }

  lemma DrawnNext<E>(now: seq<E>, left: nat, r: nat, more: seq<nat>)
    requires 2 <= left <= |now| && r < left && ValidChoices(left - 1, more)
    ensures ValidChoices(left, [r] + more)
    ensures Shuffled(now[..left], [r] + more) + now[left..]
         == Shuffled(Swap(now, r, left - 1)[..left - 1], more) + Swap(now, r, left - 1)[left - 1..]
  {
    DrawFirst(now[..left], r, more);
    SwapParts(now, left, r);
    var front, tail := Shuffled(Swap(now, r, left - 1)[..left - 1], more), now[left..];
    assert (front + [now[r]]) + tail == front + ([now[r]] + tail);
  }

  lemma OneMoreDraw<E>(s: seq<E>, drawn: seq<nat>, now: seq<E>, left: nat, r: nat, more: seq<nat>)
    requires 2 <= left <= |now| && r < left && ValidChoices(left - 1, more)
    requires Completes(s, drawn, now, left, [r] + more)
    ensures Completes(s, drawn + [r], Swap(now, r, left - 1), left - 1, more)
  {
    DrawnNext(now, left, r, more);
    assert drawn + [r] + more == drawn + ([r] + more);
  }

  lemma OneMore<E>(s: seq<E>, drawn: seq<nat>, now: seq<E>, left: nat, r: nat)
    requires SoFar(s, drawn, now, left) && left >= 2 && r < left
    ensures SoFar(s, drawn + [r], Swap(now, r, left - 1), left - 1)
  {
    var rest := left - 1;
    forall more | ValidChoices(rest, more)
      ensures Completes(s, drawn + [r], Swap(now, r, rest), rest, more)
    {
      assert ValidChoices(left, [r] + more);
      OneMoreDraw(s, drawn, now, left, r, more);
    }
  }

  lemma AllDone<E>(s: seq<E>, drawn: seq<nat>, now: seq<E>, left: nat)
    requires SoFar(s, drawn, now, left) && left < 2
    ensures ValidChoices(|s|, drawn) && now == Shuffled(s, drawn)
  {
    assert ValidChoices(left, []) && Completes(s, drawn, now, left, []);
    assert drawn + [] == drawn;
    assert now[..left] + now[left..] == now;
  }

  /** The shuffled vector is a permutation that leaves everything outside the range in place. */
  lemma RangeShuffledPermutes<E>(s: seq<E>, begin: nat, end: nat, choices: seq<nat>)
    requires begin <= end <= |s| && ValidChoices(end - begin, choices)
    ensures
      var r := RangeShuffled(s, begin, end, choices);
      r[..begin] == s[..begin] && r[end..] == s[end..] && multiset(r[begin..end]) == multiset(s[begin..end])
  {
    ShuffledPermutes(s[begin..end], choices);
    var r := RangeShuffled(s, begin, end, choices);
    assert r[begin..end] == Shuffled(s[begin..end], choices);
  }
}
