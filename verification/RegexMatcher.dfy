/** The backtracking matcher and the RE class of gtest-port.cc, against the language of a pattern. */
module RegexMatching {

  import opened Basics
  import opened SimpleRegex

  // -------------------------------------------------------------------- the language

  /** One item: as many matching characters as its repeat allows. */
  ghost predicate ItemMatches(item: Item, w: string) {
    && item.Min() <= |w| && (item.Bounded() ==> |w| <= 1)
    && forall i :: 0 <= i < |w| ==> item.MatchesChar(w[i])
  }

  ghost predicate InLanguage(items: seq<Item>, w: string)
    decreases |items|
  {
    if items == [] then w == []
    else exists k :: 0 <= k <= |w| && ItemMatches(items[0], w[..k]) && InLanguage(items[1..], w[k..])
  }

  /** The laws of the language, by concatenation: nothing matches the empty word only, ... */
  lemma EmptyLanguage(w: string)
    ensures InLanguage([], w) <==> w == []
  {
  }

  /** Where a word of two patterns splits. */
  ghost predicate SplitsAt(a: seq<Item>, b: seq<Item>, w: string, k: nat) {
    k <= |w| && InLanguage(a, w[..k]) && InLanguage(b, w[k..])
  }

  /** ... items after items match word after word, ... */
  lemma LanguageConcat(a: seq<Item>, b: seq<Item>, w: string)
    ensures InLanguage(a + b, w) <==> exists k: nat :: SplitsAt(a, b, w, k)
  {
    if InLanguage(a + b, w) {
      var k := SplitWord(a, b, w);
    }
    if k: nat :| SplitsAt(a, b, w, k) {
      JoinWords(a, b, w[..k], w[k..]);
      assert w[..k] + w[k..] == w;
    }
  }

  lemma {:induction false} SplitWord(a: seq<Item>, b: seq<Item>, w: string) returns (k: nat)
    requires InLanguage(a + b, w)
    ensures SplitsAt(a, b, w, k)
    decreases |a|
  {
    if a == [] {
      k := 0;
      assert a + b == b;
      SplitsAtStart(b, w);
    } else {
      var j := EndOfFirstOf(a, b, w);
      var i := SplitWord(a[1..], b, w[j..]);
      k := j + i;
      SplitsLater(a, b, w, j, i);
    }
  }

  lemma SplitsAtStart(b: seq<Item>, w: string)
    requires InLanguage(b, w)
    ensures SplitsAt([], b, w, 0)
  {
    assert w[0..] == w;
  }

  lemma SplitsLater(a: seq<Item>, b: seq<Item>, w: string, j: nat, i: nat)
    requires a != [] && j <= |w| && ItemMatches(a[0], w[..j]) && SplitsAt(a[1..], b, w[j..], i)
    ensures SplitsAt(a, b, w, j + i)
  {
    PutBack(a, w, j, i);
    Slices(w, j, i);
  }

  lemma EndOfFirstOf(a: seq<Item>, b: seq<Item>, w: string) returns (j: nat)
    requires a != [] && InLanguage(a + b, w)
    ensures j <= |w| && ItemMatches(a[0], w[..j]) && InLanguage(a[1..] + b, w[j..])
  {
    assert (a + b)[0] == a[0] && (a + b)[1..] == a[1..] + b;
    j := EndOfFirst(a + b, w);
  }

  lemma PutBack(a: seq<Item>, w: string, j: nat, i: nat)
    requires a != [] && j + i <= |w| && ItemMatches(a[0], w[..j]) && InLanguage(a[1..], w[j..][..i])
    ensures InLanguage(a, w[..j + i])
  {
    Slices(w, j, i);
    FirstWord(a, w[..j + i], j);
  }

  lemma Slices(w: string, j: nat, i: nat)
    requires j + i <= |w|
    ensures w[..j + i][..j] == w[..j] && w[..j + i][j..] == w[j..][..i] && w[j..][i..] == w[j + i..]
  {
  }

  lemma JoinSlices(v: string, w: string, j: nat)
    requires j <= |v|
    ensures (v + w)[..j] == v[..j] && (v + w)[j..] == v[j..] + w
  {
  }

  lemma EndOfFirst(a: seq<Item>, v: string) returns (j: nat)
    requires a != [] && InLanguage(a, v)
    ensures j <= |v| && ItemMatches(a[0], v[..j]) && InLanguage(a[1..], v[j..])
  {
    j :| 0 <= j <= |v| && ItemMatches(a[0], v[..j]) && InLanguage(a[1..], v[j..]);
  }

  lemma FirstWord(a: seq<Item>, v: string, j: nat)
    requires a != [] && j <= |v| && ItemMatches(a[0], v[..j]) && InLanguage(a[1..], v[j..])
    ensures InLanguage(a, v)
  {
  }

  lemma {:induction false} JoinWords(a: seq<Item>, b: seq<Item>, v: string, w: string)
    requires InLanguage(a, v) && InLanguage(b, w)
    ensures InLanguage(a + b, v + w)
    decreases |a|
  {
    if a == [] {
      assert a + b == b && v + w == w;
    } else {
      assert (a + b)[0] == a[0] && (a + b)[1..] == a[1..] + b;
      var j := EndOfFirst(a, v);
      JoinWords(a[1..], b, v[j..], w);
      JoinSlices(v, w, j);
      FirstWord(a + b, v + w, j);
    }
  }

  lemma SingleItem(item: Item, w: string)
    ensures InLanguage([item], w) <==> ItemMatches(item, w)
  {
    assert w[..|w|] == w && w[|w|..] == [];
    if k :| 0 <= k <= |w| && ItemMatches(item, w[..k]) && InLanguage([item][1..], w[k..]) {
      assert k == |w|;
    }
  }

  /** ... an atom matches one character, x? that or nothing, x* nothing or x and x* again, and x+ is
      x and then x*. */
  lemma ItemLanguages(escaped: bool, c: char, w: string)
    ensures
      var once, star := [Item(escaped, c, Once)], [Item(escaped, c, Star)];
      && (InLanguage(once, w) <==> |w| == 1 && AtomMatchesChar(escaped, c, w[0]))
      && (InLanguage([Item(escaped, c, Optional)], w) <==> w == [] || InLanguage(once, w))
      && (InLanguage(star, w) <==> w == [] || (InLanguage(once, w[..1]) && InLanguage(star, w[1..])))
      && (InLanguage([Item(escaped, c, Plus)], w) <==> w != [] && InLanguage(once, w[..1]) && InLanguage(star, w[1..]))
  {
    SingleItem(Item(escaped, c, Once), w);
    SingleItem(Item(escaped, c, Optional), w);
    SingleItem(Item(escaped, c, Star), w);
    SingleItem(Item(escaped, c, Plus), w);
    ItemWords(escaped, c, w);
    if w != [] {
      SingleItem(Item(escaped, c, Once), w[..1]);
      SingleItem(Item(escaped, c, Star), w[1..]);
    }
  }

  lemma ItemWords(escaped: bool, c: char, w: string)
    ensures
      var once, star := Item(escaped, c, Once), Item(escaped, c, Star);
      && (ItemMatches(once, w) <==> |w| == 1 && AtomMatchesChar(escaped, c, w[0]))
      && (ItemMatches(Item(escaped, c, Optional), w) <==> w == [] || ItemMatches(once, w))
      && (ItemMatches(star, w) <==> w == [] || (ItemMatches(once, w[..1]) && ItemMatches(star, w[1..])))
      && (ItemMatches(Item(escaped, c, Plus), w) <==> w != [] && ItemMatches(once, w[..1]) && ItemMatches(star, w[1..]))
  {
    if w != [] {
      assert w == w[..1] + w[1..];
    }
  }

  /** Some prefix of `str`, or all of it if the pattern ends in '$'. */
  ghost predicate MatchesHead(t: Tail, str: string) {
    exists k :: 0 <= k <= |str| && InLanguage(t.items, str[..k]) && (t.toEnd ==> k == |str|)
  }

  /** Some substring, with the anchors of the pattern. */
  ghost predicate MatchesAnywhere(p: Pattern, str: string) {
    exists a, b :: 0 <= a <= b <= |str| && InLanguage(p.tail.items, str[a..b])
                   && (p.fromStart ==> a == 0) && (p.tail.toEnd ==> b == |str|)
  }

  ghost predicate SplitAt(item: Item, t: Tail, str: string, i: nat) {
    i <= |str| && ItemMatches(item, str[..i]) && MatchesHead(t, str[i..])
  }

  lemma SplitChars(item: Item, t: Tail, str: string, j: nat)
    requires SplitAt(item, t, str, j)
    ensures forall i :: 0 <= i < j ==> item.MatchesChar(str[i])
  {
    forall i | 0 <= i < j ensures item.MatchesChar(str[i]) {
      assert str[..j][i] == str[i];
    }
  }

  lemma HeadSplits(item: Item, t: Tail, str: string)
    ensures MatchesHead(Tail([item] + t.items, t.toEnd), str) <==> exists i: nat :: SplitAt(item, t, str, i)
  {
    var whole := Tail([item] + t.items, t.toEnd);
    assert whole.items[1..] == t.items;
    if MatchesHead(whole, str) {
      var k :| 0 <= k <= |str| && InLanguage(whole.items, str[..k]) && (t.toEnd ==> k == |str|);
      var i :| 0 <= i <= k && ItemMatches(item, str[..k][..i]) && InLanguage(t.items, str[..k][i..]);
      assert str[..k][..i] == str[..i] && str[..k][i..] == str[i..][..k - i];
      assert SplitAt(item, t, str, i);
    }
    if i: nat :| SplitAt(item, t, str, i) {
      var k :| 0 <= k <= |str| - i && InLanguage(t.items, str[i..][..k]) && (t.toEnd ==> k == |str| - i);
      assert str[..i + k][..i] == str[..i] && str[..i + k][i..] == str[i..][..k];
      assert InLanguage(whole.items, str[..i + k]);
    }
  }

  lemma EmptyTailMatches(toEnd: bool, str: string)
    ensures MatchesHead(Tail([], toEnd), str) <==> (toEnd ==> str == [])
  {
    assert str[..0] == [];
    assert InLanguage([], str[..0]);
  }

  lemma AnywhereFromHeads(p: Pattern, str: string)
    ensures MatchesAnywhere(p, str) <==>
            exists a :: 0 <= a <= |str| && (p.fromStart ==> a == 0) && MatchesHead(p.tail, str[a..])
  {
    if MatchesAnywhere(p, str) {
      var a, b :| 0 <= a <= b <= |str| && InLanguage(p.tail.items, str[a..b])
                  && (p.fromStart ==> a == 0) && (p.tail.toEnd ==> b == |str|);
      assert str[a..b] == str[a..][..b - a];
      assert MatchesHead(p.tail, str[a..]);
    }
    if a :| 0 <= a <= |str| && (p.fromStart ==> a == 0) && MatchesHead(p.tail, str[a..]) {
      var k :| 0 <= k <= |str| - a && InLanguage(p.tail.items, str[a..][..k]) && (p.tail.toEnd ==> k == |str| - a);
      assert str[a..a + k] == str[a..][..k];
    }
  }

  // --------------------------------------------------------------------- the matcher

  /** Tries every count of the repeated atom, fewest first. */
  method MatchRepetitionAndRegexAtHead(escaped: bool, c: char, repeat: char, regex: CString, str: CString)
    returns (ok: bool)
    requires IsRepeat(repeat) && ParseTail(regex).Some? && |str| < SIZE_MAX
    ensures ok <==> exists i: nat :: SplitAt(Item(escaped, c, RepeatOf(repeat)), ParseTail(regex).value, str, i)
    decreases |regex|, 1
  {
    ghost var item, t := Item(escaped, c, RepeatOf(repeat)), ParseTail(regex).value;
    var minCount := if repeat == '+' then 1 else 0;
    var maxCount := if repeat == '?' then 1 else SIZE_MAX - 1;
    var i: nat := 0;
    while i <= maxCount
      invariant i <= |str|
      invariant forall j :: 0 <= j < i ==> item.MatchesChar(str[j])
      invariant forall j: nat :: j < i ==> !SplitAt(item, t, str, j)
      decreases |str| - i
    {
      if i >= minCount {
        var tailMatches := MatchRegexAtHead(regex, str[i..]);
        if tailMatches {
          assert SplitAt(item, t, str, i);
          return true;
        }
      }
      if CharAt(str, i) == NUL || !AtomMatchesChar(escaped, c, str[i]) {
        forall j: nat | SplitAt(item, t, str, j) ensures j <= i {
          SplitChars(item, t, str, j);
        }
        return false;
      }
      i := i + 1;
    }
    return false;
  }

  /** Whether a prefix of `str` matches; `regex` is valid and does not start with '^'. */
  method MatchRegexAtHead(regex: CString, str: CString) returns (ok: bool)
    requires ParseTail(regex).Some? && |str| < SIZE_MAX
    ensures ok <==> MatchesHead(ParseTail(regex).value, str)
    decreases |regex|, 0
  {
    if CharAt(regex, 0) == NUL {
      EmptyTailMatches(false, str);
      return true;
    }
    if regex[0] == '$' {
      assert regex == "$";
      EmptyTailMatches(true, str);
      return CharAt(str, 0) == NUL;
    }
    ghost var item, rest := FirstItem(regex).value.0, FirstItem(regex).value.1;
    HeadSplits(item, ParseTail(rest).value, str);
    var escaped := regex[0] == '\\';
    var r := if escaped then 1 else 0;
    if IsRepeat(CharAt(regex, r + 1)) {
      assert regex[r + 1..][1..] == regex[r + 2..];
      ok := MatchRepetitionAndRegexAtHead(escaped, regex[r], regex[r + 1], regex[r + 2..], str);
    } else {
      if CharAt(str, 0) == NUL || !AtomMatchesChar(escaped, regex[r], str[0]) {
        forall j: nat | SplitAt(item, ParseTail(rest).value, str, j) ensures j == 0 {
          SplitChars(item, ParseTail(rest).value, str, j);
        }
        return false;
      }
      ok := MatchRegexAtHead(regex[r + 1..], str[1..]);
      if ok {
        assert SplitAt(item, ParseTail(rest).value, str, 1);
      }
    }
  }

  /** Whether any substring matches; None stands for a null pointer. */
  method MatchRegexAnywhere(regex: Option<CString>, str: Option<CString>) returns (ok: bool)
    requires regex.Some? ==> Parse(regex.value).Some?
    requires str.Some? ==> |str.value| < SIZE_MAX
    ensures ok <==> regex.Some? && str.Some? && MatchesAnywhere(Parse(regex.value).value, str.value)
  {
    if regex.None? || str.None? {
      return false;
    }
    var re, s := regex.value, str.value;
    AnywhereFromHeads(Parse(re).value, s);
    if CharAt(re, 0) == '^' {
      assert s[0..] == s;
      ok := MatchRegexAtHead(re[1..], s);
      return;
    }
    var at: nat := 0;
    while true
      invariant at <= |s|
      invariant forall a :: 0 <= a < at ==> !MatchesHead(Parse(re).value.tail, s[a..])
      decreases |s| - at
    {
      ok := MatchRegexAtHead(re, s[at..]);
      if ok {
        return true;
      }
      if CharAt(s, at) == NUL {
        return false;
      }
      at := at + 1;
    }
  }

  // -------------------------------------------------------------------- the RE class

  class RE {
    var pattern: CString
    var fullPattern: CString
    var isValid: bool

    ghost predicate Valid()
      reads this
    {
      isValid ==> Parse(pattern).Some? && Parse(fullPattern) == Some(FullPattern(pattern))
    }

    /** The constructor and Init; None stands for the null pointer. */
    constructor (regex: Option<CString>)
      ensures Valid()
      ensures isValid <==> regex.Some? && InGrammar(regex.value)
      ensures regex.Some? ==> pattern == regex.value
    {
      pattern := if regex.Some? then regex.value else [];
      fullPattern := [];
      isValid := false;
      new;
      isValid := ValidateRegex(regex);
      if !isValid {
        return;
      }
      ParseDecidesGrammar(pattern);
      FullPatternParses(pattern);
      BuildFullPattern();
    }

    /** The rest of Init: prepends '^' and appends '$' where the text does not have them. */
    method BuildFullPattern()
      requires fullPattern == []
      modifies this`fullPattern
      ensures fullPattern == StartAnchor(pattern) + pattern + EndAnchor(pattern)
    {
      if pattern == [] || pattern[0] != '^' {
        fullPattern := fullPattern + ['^'];
      }
      assert fullPattern == StartAnchor(pattern);
      fullPattern := fullPattern + pattern;
      if pattern == [] || pattern[|pattern| - 1] != '$' {
        fullPattern := fullPattern + ['$'];
      }
    }

    /** None stands for a null string. */
    method FullMatch(str: Option<CString>) returns (ok: bool)
      requires Valid() && (str.Some? ==> |str.value| < SIZE_MAX)
      ensures ok <==> isValid && str.Some? && MatchesAnywhere(FullPattern(pattern), str.value)
    {
      if !isValid {
        return false;
      }
      ok := MatchRegexAnywhere(Some(fullPattern), str);
    }

    method PartialMatch(str: Option<CString>) returns (ok: bool)
      requires Valid() && (str.Some? ==> |str.value| < SIZE_MAX)
      ensures ok <==> isValid && str.Some? && MatchesAnywhere(Parse(pattern).value, str.value)
    {
      if !isValid {
        return false;
      }
      ok := MatchRegexAnywhere(Some(pattern), str);
    }
  }

  /** What FullMatch looks for: anchored at the start, and at the end unless the pattern text
      ends in '$' already. */
  ghost function FullPattern(regex: string): Pattern
    requires Parse(regex).Some?
  {
    var t := Parse(regex).value.tail;
    Pattern(true, Tail(t.items, regex == [] || regex[|regex| - 1] != '$' || t.toEnd))
  }

  lemma {:induction false} ParseTailAnchored(s: string)
    requires ParseTail(s).Some? && !ParseTail(s).value.toEnd
    ensures ParseTail(s + "$") == Some(Tail(ParseTail(s).value.items, true))
    decreases |s|
  {
    var t := ParseTail(s).value;
    ParseTailSound(s);
    ParseTailComplete(Tail(t.items, true));
    ShowTailAnchored(t);
  }

  lemma {:induction false} ShowTailAnchored(t: Tail)
    requires !t.toEnd
    ensures ShowTail(Tail(t.items, true)) == ShowTail(t) + "$"
    decreases |t.items|
  {
    if t.items != [] {
      var t' := t.(items := t.items[1..]);
      ShowTailAnchored(t');
      assert ShowItem(t.items[0]) + (ShowTail(t') + "$") == (ShowItem(t.items[0]) + ShowTail(t')) + "$";
    }
  }

  function StartAnchor(regex: string): string {
    if regex == [] || regex[0] != '^' then "^" else ""
  }

  function EndAnchor(regex: string): string {
    if regex == [] || regex[|regex| - 1] != '$' then "$" else ""
  }

  lemma FullPatternParses(regex: string)
    requires Parse(regex).Some?
    ensures Parse(StartAnchor(regex) + regex + EndAnchor(regex)) == Some(FullPattern(regex))
  {
    var start, end := StartAnchor(regex), EndAnchor(regex);
    var body := if regex != [] && regex[0] == '^' then regex[1..] else regex;
    assert start + regex == ['^'] + body;
    var full := ['^'] + (body + end);
    assert (start + regex) + end == full;
    assert full[0] == '^' && full[1..] == body + end;
    FullTailParses(body, end == "$");
    assert body != [] ==> body[|body| - 1] == regex[|regex| - 1];
  }

  lemma FullTailParses(body: string, add: bool)
    requires ParseTail(body).Some?
    requires add ==> body == [] || body[|body| - 1] != '$'
    ensures add ==> ParseTail(body + "$") == Some(Tail(ParseTail(body).value.items, true))
    ensures !add ==> ParseTail(body + "") == ParseTail(body)
  {
    ParseTailSound(body);
    ShowTailEnd(ParseTail(body).value);
    if add {
      ParseTailAnchored(body);
    } else {
      assert body + "" == body;
    }
  }

  /** An anchored tail ends in '$'. */
  lemma {:induction false} ShowTailEnd(t: Tail)
    ensures t.toEnd ==> ShowTail(t) != [] && ShowTail(t)[|ShowTail(t)| - 1] == '$'
    decreases |t.items|
  {
    if t.items != [] {
      ShowTailEnd(t.(items := t.items[1..]));
    }
  }

  // --------------------------------------------- when FullMatch means the whole string

  /** Whether the last character is the second half of an escape sequence. */
  predicate LastEscaped(s: string) {
    if s == [] then false
    else if s[0] != '\\' then LastEscaped(s[1..])
    else if |s| <= 2 then |s| == 2
    else LastEscaped(s[2..])
  }

  predicate EndsInEscapedDollar(regex: string) {
    regex != [] && regex[|regex| - 1] == '$' && LastEscaped(regex)
  }

  const ESCAPED_DOLLAR := Item(true, '$', Once)

  lemma {:induction false} EscapedDollarIsLastItem(s: string)
    requires ParseTail(s).Some?
    ensures s != [] && s[|s| - 1] == '$' && !ParseTail(s).value.toEnd <==> EndsInEscapedDollar(s)
    ensures EndsInEscapedDollar(s) ==> ParseTail(s).value.items != []
                                       && ParseTail(s).value.items[|ParseTail(s).value.items| - 1] == ESCAPED_DOLLAR
    decreases |s|
  {
    if s == "$" {
      assert s[1..] == [] && !LastEscaped(s[1..]);
      assert s[0] == '$' && !LastEscaped(s);
      assert ParseTail(s) == Some(Tail([], true));
    } else if s != [] {
      var (item, rest) := FirstItem(s).value;
      EscapedDollarIsLastItem(rest);
      FirstItemLastEscaped(s);
      if rest != [] {
        assert rest[|rest| - 1] == s[|s| - 1];
      }
    }
  }

  lemma FirstItemLastEscaped(s: string)
    requires s != [] && FirstItem(s).Some?
    ensures FirstItem(s).value.1 != [] ==> LastEscaped(s) == LastEscaped(FirstItem(s).value.1)
                                           && FirstItem(s).value.1 == s[|s| - |FirstItem(s).value.1|..]
    ensures FirstItem(s).value.1 == [] && s[|s| - 1] == '$' ==> LastEscaped(s) && FirstItem(s).value.0 == ESCAPED_DOLLAR
  {
    var n := if s[0] == '\\' then 2 else 1;
    var after := s[n..];
    if after != [] {
      assert LastEscaped(s) == LastEscaped(after);
      if IsRepeat(after[0]) {
        assert after[1..] == s[n + 1..];
      }
    }
  }

  /** A character that the item matches. */
  function Sample(item: Item): (ch: char)
    requires item.WellFormed()
    ensures ch != NUL && item.MatchesChar(ch)
  {
    if !item.escaped then item.c
    else match item.c
      case 'd' => '0'
      case 'D' => 'a'
      case 'f' => '\U{0C}'
      case 'n' => '\n'
      case 'r' => '\r'
      case 's' => ' '
      case 'S' => 'a'
      case 't' => '\t'
      case 'v' => '\U{0B}'
      case 'w' => 'a'
      case 'W' => ' '
      case c => c
  }

  /** No pattern has an empty language. */
  lemma {:induction false} SampleWord(items: seq<Item>) returns (w: CString)
    requires forall item <- items :: item.WellFormed()
    ensures InLanguage(items, w)
    decreases |items|
  {
    if items == [] {
      w := [];
    } else {
      var rest := SampleWord(items[1..]);
      assert items[0].WellFormed();
      w := [Sample(items[0])] + rest;
      assert w[..1] == [Sample(items[0])] && w[1..] == rest;
    }
  }

  lemma {:induction false} EscapedDollarEndsWords(items: seq<Item>, w: string)
    requires items != [] && items[|items| - 1] == ESCAPED_DOLLAR && InLanguage(items, w)
    ensures w != [] && w[|w| - 1] == '$'
    decreases |items|
  {
    var k :| 0 <= k <= |w| && ItemMatches(items[0], w[..k]) && InLanguage(items[1..], w[k..]);
    if |items| == 1 {
      assert k == |w| == 1 && items[0].MatchesChar(w[..1][0]);
    } else {
      EscapedDollarEndsWords(items[1..], w[k..]);
    }
  }

  ghost predicate FullMatchIsWhole(regex: string)
    requires Parse(regex).Some?
  {
    forall str: CString :: MatchesAnywhere(FullPattern(regex), str) <==> InLanguage(Parse(regex).value.tail.items, str)
  }

  /** FullMatch decides membership of the whole string, except that a pattern ending in an escaped
      '$' gets no end anchor: Init takes the escaped character for the anchor. */
  lemma FullMatchExact(regex: string)
    requires Parse(regex).Some?
    ensures FullMatchIsWhole(regex) <==> !EndsInEscapedDollar(regex)
  {
    var p := Parse(regex).value;
    var items := p.tail.items;
    var body := if p.fromStart then regex[1..] else regex;
    EscapedDollarIsLastItem(body);
    assert body != [] ==> body[|body| - 1] == regex[|regex| - 1];
    assert EndsInEscapedDollar(regex) <==> EndsInEscapedDollar(body);
    if EndsInEscapedDollar(regex) {
      ShowParse(regex);
      assert forall item <- items :: item in p.tail.items;
      var w := SampleWord(items);
      var str: CString := w + ['x'];
      assert str[0..|w|] == w;
      assert MatchesAnywhere(FullPattern(regex), str);
      assert !InLanguage(items, str) by {
        if InLanguage(items, str) {
          EscapedDollarEndsWords(items, str);
        }
      }
    } else {
      forall str: CString
        ensures MatchesAnywhere(FullPattern(regex), str) <==> InLanguage(items, str)
      {
        assert str[0..|str|] == str;
      }
    }
  }

  /** The smallest such case: the pattern "\\$" fully matches "$x". */
  lemma FullMatchTooWeak()
    ensures Parse("\\$").Some? && MatchesAnywhere(FullPattern("\\$"), "$x")
    ensures !InLanguage(Parse("\\$").value.tail.items, "$x")
  {
    var regex := "\\$";
    assert FirstItem(regex) == Some((ESCAPED_DOLLAR, []));
    var items := [ESCAPED_DOLLAR];
    assert ParseTail([]) == Some(Tail([], false));
    assert ParseTail(regex) == Some(Tail(items, false)) by {
      assert regex != "$" && [ESCAPED_DOLLAR] + [] == items;
      assert ParseTail(regex) == Prepend(ESCAPED_DOLLAR, ParseTail([]));
    }
    var w := "$x"[0..1];
    assert w[..1] == "$" && w[1..] == [] && items[1..] == [];
    assert ItemMatches(ESCAPED_DOLLAR, w[..1]);
    assert InLanguage(items[1..], w[1..]);
    assert InLanguage(items, w);
    if InLanguage(items, "$x") {
      EscapedDollarEndsWords(items, "$x");
    }
  }
}
