/** The simple regular expressions of gtest-port.cc: a validator, a backtracking matcher and the
    RE class, against a grammar and a language defined without them. */
module SimpleRegex {

  import opened Basics

  const NUL: char := '\0'
  const SIZE_MAX: nat := 0xFFFF_FFFF_FFFF_FFFF

  /** The characters of a C string, without the terminating NUL. */
  type CString = s: string | NUL !in s

  /** s[i] in C: the terminating NUL may be read, nothing beyond it. */
  function CharAt(s: CString, i: nat): char
    requires i <= |s|
  {
    if i < |s| then s[i] else NUL
  }

  // -------------------------------------------------------------- character classes

  predicate IsInSet(ch: char, set_: string) { ch != NUL && ch in set_ }
  predicate IsAsciiDigit(ch: char) { '0' <= ch <= '9' }
  predicate IsAsciiPunct(ch: char) {
    '!' <= ch <= '/' || ':' <= ch <= '@' || '[' <= ch <= '`' || '{' <= ch <= '~'
  }
  predicate IsRepeat(ch: char) { ch == '?' || ch == '*' || ch == '+' }
  predicate IsAnchorOrRepeat(ch: char) { ch == '^' || ch == '$' || IsRepeat(ch) }
  predicate IsUnsupported(ch: char) {
    ch == '(' || ch == ')' || ch == '[' || ch == ']' || ch == '{' || ch == '}' || ch == '|'
  }
  predicate IsAsciiWhiteSpace(ch: char) {
    ch == ' ' || ch == '\U{0C}' || ch == '\n' || ch == '\r' || ch == '\t' || ch == '\U{0B}'
  }
  predicate IsAsciiWordChar(ch: char) {
    'a' <= ch <= 'z' || 'A' <= ch <= 'Z' || '0' <= ch <= '9' || ch == '_'
  }
  predicate IsClassEscape(c: char) {
    c == 'd' || c == 'D' || c == 'f' || c == 'n' || c == 'r' || c == 's' || c == 'S' || c == 't' || c == 'v' || c == 'w' || c == 'W'
  }
  predicate IsValidEscape(c: char) { IsAsciiPunct(c) || IsClassEscape(c) }

  /** The classes above are the sets that the source spells out as string literals. */
  lemma CharacterSets(ch: char)
    ensures IsAsciiPunct(ch) <==> IsInSet(ch, "^-!\"#$%&'()*+,./:;<=>?@[\\]_`{|}~")
    ensures IsRepeat(ch) <==> IsInSet(ch, "?*+")
    ensures IsAnchorOrRepeat(ch) <==> IsInSet(ch, "^$?*+")
    ensures IsUnsupported(ch) <==> IsInSet(ch, "()[]{}|")
    ensures IsAsciiWhiteSpace(ch) <==> IsInSet(ch, " \U{0C}\n\r\t\U{0B}")
    ensures IsClassEscape(ch) <==> IsInSet(ch, "dDfnrsStvwW")
  {
    PunctuationSet(ch);
  }

  lemma PunctuationSet(ch: char)
    ensures IsAsciiPunct(ch) <==> IsInSet(ch, "^-!\"#$%&'()*+,./:;<=>?@[\\]_`{|}~")
  {
    var punct := "^-!\"#$%&'()*+,./:;<=>?@[\\]_`{|}~";
    if '!' <= ch <= '/' {
      assert punct[2] == '!' && punct[3] == '"' && punct[4] == '#' && punct[5] == '$' && punct[6] == '%';
      assert punct[7] == '&' && punct[8] == '\'' && punct[9] == '(' && punct[10] == ')' && punct[11] == '*';
      assert punct[12] == '+' && punct[13] == ',' && punct[1] == '-' && punct[14] == '.' && punct[15] == '/';
    }
    if ':' <= ch <= '@' {
      assert punct[16] == ':' && punct[17] == ';' && punct[18] == '<' && punct[19] == '=' && punct[20] == '>';
      assert punct[21] == '?' && punct[22] == '@';
    }
    if '[' <= ch <= '`' {
      assert punct[23] == '[' && punct[24] == '\\' && punct[25] == ']' && punct[0] == '^' && punct[26] == '_';
      assert punct[27] == '`';
    }
    if '{' <= ch <= '~' {
      assert punct[28] == '{' && punct[29] == '|' && punct[30] == '}' && punct[31] == '~';
    }
  }

  predicate AtomMatchesChar(escaped: bool, patternChar: char, ch: char) {
    if escaped then
      match patternChar
      case 'd' => IsAsciiDigit(ch)
      case 'D' => !IsAsciiDigit(ch)
      case 'f' => ch == '\U{0C}'
      case 'n' => ch == '\n'
      case 'r' => ch == '\r'
      case 's' => IsAsciiWhiteSpace(ch)
      case 'S' => !IsAsciiWhiteSpace(ch)
      case 't' => ch == '\t'
      case 'v' => ch == '\U{0B}'
      case 'w' => IsAsciiWordChar(ch)
      case 'W' => !IsAsciiWordChar(ch)
      case _ => IsAsciiPunct(patternChar) && patternChar == ch
    else (patternChar == '.' && ch != '\n') || patternChar == ch
  }

  /** What each atom matches: the capital classes are the complements of the small ones, a control
      escape or an escaped punctuation matches one character, and so does any plain character but
      the dot. */
  lemma AtomClasses(ch: char)
    ensures AtomMatchesChar(true, 'd', ch) <==> IsInSet(ch, "0123456789")
    ensures AtomMatchesChar(true, 's', ch) <==> IsInSet(ch, " \U{0C}\n\r\t\U{0B}")
    ensures AtomMatchesChar(true, 'w', ch) <==>
            AtomMatchesChar(true, 'd', ch) || ch == '_' || 'a' <= ch <= 'z' || 'A' <= ch <= 'Z'
    ensures AtomMatchesChar(true, 'D', ch) <==> !AtomMatchesChar(true, 'd', ch)
    ensures AtomMatchesChar(true, 'S', ch) <==> !AtomMatchesChar(true, 's', ch)
    ensures AtomMatchesChar(true, 'W', ch) <==> !AtomMatchesChar(true, 'w', ch)
    ensures AtomMatchesChar(true, 'n', ch) <==> ch == '\n'
    ensures AtomMatchesChar(true, 'r', ch) <==> ch == '\r'
    ensures AtomMatchesChar(true, 't', ch) <==> ch == '\t'
    ensures AtomMatchesChar(true, 'f', ch) <==> ch == '\U{0C}'
    ensures AtomMatchesChar(true, 'v', ch) <==> ch == '\U{0B}'
    ensures forall p :: IsAsciiPunct(p) ==> (AtomMatchesChar(true, p, ch) <==> ch == p)
    ensures forall p :: IsPlain(p) ==> (AtomMatchesChar(false, p, ch) <==> if p == '.' then ch != '\n' else ch == p)
  {
    var digits := "0123456789";
    assert digits[0] == '0' && digits[1] == '1' && digits[2] == '2' && digits[3] == '3' && digits[4] == '4';
    assert digits[5] == '5' && digits[6] == '6' && digits[7] == '7' && digits[8] == '8' && digits[9] == '9';
  }

  // ------------------------------------------------------- the grammar, as syntax trees

  datatype Repeat = Once | Optional | Star | Plus
  datatype Item = Item(escaped: bool, c: char, rep: Repeat) {
    /** An escape must be a supported one; a plain character must have no special meaning. */
    predicate WellFormed() {
      if escaped then IsValidEscape(c) else IsPlain(c)
    }
    predicate MatchesChar(ch: char) { AtomMatchesChar(escaped, c, ch) }
    function Min(): nat { if rep == Once || rep == Plus then 1 else 0 }
    predicate Bounded() { rep == Once || rep == Optional }
  }
  /** The part of a pattern after any leading '^'. */
  datatype Tail = Tail(items: seq<Item>, toEnd: bool)
  datatype Pattern = Pattern(fromStart: bool, tail: Tail)

  predicate IsPlain(c: char) {
    c != NUL && c != '\\' && c != '^' && c != '$' && !IsRepeat(c) && !IsUnsupported(c)
  }

  function ShowRepeat(rep: Repeat): string {
    match rep
    case Once => ""
    case Optional => "?"
    case Star => "*"
    case Plus => "+"
  }

  function ShowItem(item: Item): string {
    (if item.escaped then ['\\', item.c] else [item.c]) + ShowRepeat(item.rep)
  }

  function ShowTail(t: Tail): string
    decreases |t.items|
  {
    if t.items == [] then (if t.toEnd then "$" else "")
    else ShowItem(t.items[0]) + ShowTail(t.(items := t.items[1..]))
  }

  function Show(p: Pattern): string {
    (if p.fromStart then "^" else "") + ShowTail(p.tail)
  }

  ghost predicate WellFormed(p: Pattern) {
    forall item <- p.tail.items :: item.WellFormed()
  }

  /** The grammar: an optional '^', atoms each with at most one repeat, an optional '$'. */
  ghost predicate InGrammar(regex: string) {
    exists p :: WellFormed(p) && Show(p) == regex
  }

  // ----------------------------------------------------------------- reading a pattern

  function RepeatOf(ch: char): Repeat {
    if ch == '?' then Optional else if ch == '*' then Star else if ch == '+' then Plus else Once
  }

  /** Reads one item: an atom and its repeat, if there is one. */
  function FirstItem(s: string): (r: Option<(Item, string)>)
    requires s != []
    ensures r.Some? ==> |r.value.1| < |s|
  {
    if s[0] == '\\' then
      if |s| > 1 && IsValidEscape(s[1]) then Some(WithRepeat(true, s[1], s[2..])) else None
    else if IsPlain(s[0]) then Some(WithRepeat(false, s[0], s[1..]))
    else None
  }

  function WithRepeat(escaped: bool, c: char, rest: string): (r: (Item, string))
    ensures |r.1| <= |rest|
  {
    if rest != [] && IsRepeat(rest[0]) then (Item(escaped, c, RepeatOf(rest[0])), rest[1..])
    else (Item(escaped, c, Once), rest)
  }

  function Prepend(item: Item, t: Option<Tail>): Option<Tail> {
    if t.None? then None else Some(Tail([item] + t.value.items, t.value.toEnd))
  }

  function ParseTail(s: string): Option<Tail>
    decreases |s|
  {
    if s == [] then Some(Tail([], false))
    else if s == "$" then Some(Tail([], true))
    else
      var first := FirstItem(s);
      if first.None? then None else Prepend(first.value.0, ParseTail(first.value.1))
  }

  function Parse(s: string): Option<Pattern> {
    var fromStart := s != [] && s[0] == '^';
    var t := ParseTail(if fromStart then s[1..] else s);
    if t.None? then None else Some(Pattern(fromStart, t.value))
  }

  lemma WithRepeatSound(escaped: bool, c: char, rest: string)
    ensures ShowRepeat(WithRepeat(escaped, c, rest).0.rep) + WithRepeat(escaped, c, rest).1 == rest
  {
    if rest != [] && IsRepeat(rest[0]) {
      assert rest == [rest[0]] + rest[1..];
    }
  }

  lemma FirstItemSound(s: string)
    requires s != [] && FirstItem(s).Some?
    ensures FirstItem(s).value.0.WellFormed()
    ensures ShowItem(FirstItem(s).value.0) + FirstItem(s).value.1 == s
  {
    var n := if s[0] == '\\' then 2 else 1;
    var atom, after := s[..n], s[n..];
    WithRepeatSound(n == 2, s[n - 1], after);
    var r := WithRepeat(n == 2, s[n - 1], after);
    assert FirstItem(s).value == r;
    assert ShowItem(r.0) == atom + ShowRepeat(r.0.rep);
    assert (atom + ShowRepeat(r.0.rep)) + r.1 == atom + (ShowRepeat(r.0.rep) + r.1) == s;
  }

  lemma FirstItemComplete(item: Item, rest: string)
    requires item.WellFormed() && (rest == [] || !IsRepeat(rest[0]))
    ensures FirstItem(ShowItem(item) + rest) == Some((item, rest))
  {
    var s, after := ShowItem(item) + rest, ShowRepeat(item.rep) + rest;
    assert s == (if item.escaped then ['\\', item.c] else [item.c]) + after;
    assert s[if item.escaped then 2 else 1..] == after;
    assert WithRepeat(item.escaped, item.c, after) == (item, rest) by {
      assert item.rep != Once ==> after[1..] == rest;
      assert item.rep == Once ==> after == rest;
    }
  }

  lemma {:induction false} ParseTailSound(s: string)
    requires ParseTail(s).Some?
    ensures ShowTail(ParseTail(s).value) == s
    ensures WellFormed(Pattern(false, ParseTail(s).value))
    decreases |s|
  {
    if s != [] && s != "$" {
      FirstItemSound(s);
      var (item, rest) := FirstItem(s).value;
      ParseTailSound(rest);
      assert ParseTail(s).value.items[1..] == ParseTail(rest).value.items;
    }
  }

  lemma {:induction false} ParseTailComplete(t: Tail)
    requires WellFormed(Pattern(false, t))
    ensures ParseTail(ShowTail(t)) == Some(t)
    decreases |t.items|
  {
    if t.items != [] {
      var item, t' := t.items[0], t.(items := t.items[1..]);
      ParseTailComplete(t');
      TailStartsPlain(t');
      FirstItemComplete(item, ShowTail(t'));
      assert [item] + t'.items == t.items;
      assert item.WellFormed();
    }
  }

  lemma TailStartsPlain(t: Tail)
    requires WellFormed(Pattern(false, t))
    ensures ShowTail(t) != [] ==> !IsRepeat(ShowTail(t)[0]) && ShowTail(t)[0] != '^'
  {
    if t.items != [] {
      assert t.items[0].WellFormed();
    }
  }

  /** Reading undoes writing, so a pattern has one reading only and the grammar is decided. */
  lemma ParseShow(p: Pattern)
    requires WellFormed(p)
    ensures Parse(Show(p)) == Some(p)
  {
    ParseTailComplete(p.tail);
    TailStartsPlain(p.tail);
    assert p.fromStart ==> Show(p)[1..] == ShowTail(p.tail);
    assert !p.fromStart ==> Show(p) == ShowTail(p.tail);
  }

  lemma ShowParse(s: string)
    requires Parse(s).Some?
    ensures WellFormed(Parse(s).value) && Show(Parse(s).value) == s
  {
    var fromStart := s != [] && s[0] == '^';
    ParseTailSound(if fromStart then s[1..] else s);
    assert fromStart ==> s == "^" + s[1..];
  }

  lemma ParseDecidesGrammar(s: string)
    ensures Parse(s).Some? <==> InGrammar(s)
  {
    if Parse(s).Some? {
      ShowParse(s);
    }
    if p :| WellFormed(p) && Show(p) == s {
      ParseShow(p);
    }
  }

  /** The escapes: a backslash and one of the characters that the source lists. */
  lemma EscapesInGrammar(c: char)
    ensures InGrammar(['\\', c]) <==>
            IsInSet(c, "^-!\"#$%&'()*+,./:;<=>?@[\\]_`{|}~") || IsInSet(c, "dDfnrsStvwW")
  {
    var s := ['\\', c];
    ParseDecidesGrammar(s);
    CharacterSets(c);
    assert s[2..] == [] && ParseTail([]).Some?;
    assert FirstItem(s).Some? <==> IsValidEscape(c);
  }

  /** The patterns of one character: everything but a backslash, a repeat and what is unsupported. */
  lemma SinglesInGrammar(c: char)
    requires c != NUL
    ensures InGrammar([c]) <==> !IsInSet(c, "\\?*+()[]{}|")
  {
    var s := [c];
    ParseDecidesGrammar(s);
    CharacterSets(c);
    assert s[1..] == [] && ParseTail([]).Some?;
    var set_ := "\\?*+()[]{}|";
    assert set_[0] == '\\' && set_[1..4] == "?*+" && set_[4..] == "()[]{}|";
    assert set_ == ['\\'] + "?*+" + "()[]{}|";
    assert c in set_ <==> c == '\\' || c in "?*+" || c in "()[]{}|";
  }

  /** A repeat may follow an atom, and that once. */
  lemma RepeatsInGrammar(item: Item, r: char, q: char)
    requires item.WellFormed() && item.rep == Once && IsInSet(r, "?*+") && IsInSet(q, "?*+")
    ensures InGrammar(ShowItem(item) + [r]) && !InGrammar([r]) && !InGrammar(ShowItem(item) + [r, q])
  {
    CharacterSets(r);
    CharacterSets(q);
    var repeated := item.(rep := RepeatOf(r));
    var p := Pattern(false, Tail([repeated], false));
    assert p.tail.items[1..] == [] && ShowRepeat(repeated.rep) == [r];
    assert ShowTail(p.tail) == ShowItem(repeated) + ShowTail(Tail([], false)) == ShowItem(item) + [r];
    assert WellFormed(p) && Show(p) == ShowItem(item) + [r];
    NoLeadingRepeat(r);
    NoDoubleRepeat(item, r, q);
  }

  /** Which repeat each character stands for. */
  lemma RepeatTexts(item: Item)
    requires item.WellFormed() && item.rep == Once
    ensures ParseTail(ShowItem(item)) == Some(Tail([item], false))
    ensures ParseTail(ShowItem(item) + "?") == Some(Tail([item.(rep := Optional)], false))
    ensures ParseTail(ShowItem(item) + "*") == Some(Tail([item.(rep := Star)], false))
    ensures ParseTail(ShowItem(item) + "+") == Some(Tail([item.(rep := Plus)], false))
  {
    assert ShowItem(item) + "" == ShowItem(item);
    OneItem(item);
    OneItem(item.(rep := Optional));
    OneItem(item.(rep := Star));
    OneItem(item.(rep := Plus));
  }

  lemma OneItem(item: Item)
    requires item.WellFormed()
    ensures ParseTail((if item.escaped then ['\\', item.c] else [item.c]) + ShowRepeat(item.rep)) == Some(Tail([item], false))
  {
    var t := Tail([item], false);
    assert t.items[1..] == [] && ShowTail(Tail([], false)) == "";
    assert ShowTail(t) == ShowItem(item) + "" == ShowItem(item);
    ParseTailComplete(t);
  }

  lemma NoLeadingRepeat(r: char)
    requires IsRepeat(r)
    ensures !InGrammar([r]) && ParseTail([r]).None?
  {
    ParseDecidesGrammar([r]);
  }

  lemma NoDoubleRepeat(item: Item, r: char, q: char)
    requires item.WellFormed() && item.rep == Once && IsRepeat(r) && IsRepeat(q)
    ensures !InGrammar(ShowItem(item) + [r, q])
  {
    var s := ShowItem(item) + [r, q];
    ParseDecidesGrammar(s);
    NoLeadingRepeat(q);
    assert ShowItem(item) == if item.escaped then ['\\', item.c] else [item.c];
    var after := s[if item.escaped then 2 else 1..];
    assert after == [r, q] && after[1..] == [q];
    assert WithRepeat(item.escaped, item.c, after) == (item.(rep := RepeatOf(r)), [q]);
    assert FirstItem(s) == Some((item.(rep := RepeatOf(r)), [q]));
  }

  // ------------------------------------------------------------------- the validator

  /** Whether `s` may follow, given that a repeat may come first or not. */
  predicate AcceptsFrom(s: string, repeatable: bool) {
    if repeatable && s != [] && IsRepeat(s[0]) then ParseTail(s[1..]).Some? else ParseTail(s).Some?
  }

  lemma AcceptsEscape(s: string, repeatable: bool)
    requires s != [] && s[0] == '\\'
    ensures AcceptsFrom(s, repeatable) <==> |s| > 1 && IsValidEscape(s[1]) && AcceptsFrom(s[2..], true)
  {
  }

  lemma AcceptsOther(s: string, repeatable: bool)
    requires s != [] && s[0] != '\\' && s[0] != NUL
    ensures AcceptsFrom(s, repeatable) <==>
            && s[0] != '^' && (s[0] == '$' ==> |s| == 1)
            && !IsUnsupported(s[0]) && (IsRepeat(s[0]) ==> repeatable)
            && AcceptsFrom(s[1..], !IsAnchorOrRepeat(s[0]))
  {
    if s[0] == '$' {
      assert |s| == 1 ==> s == "$";
    }
  }

  lemma AcceptsStart(s: string)
    requires s != []
    ensures Parse(s).Some? <==> AcceptsFrom(if s[0] == '^' then s[1..] else s, false)
  {
  }

  /** What the loop of ValidateRegex knows at position i. */
  ghost predicate Scanned(s: string, i: nat, isValid: bool, repeatable: bool) {
    && i <= |s|
    && (i == 0 ==> isValid && !repeatable)
    && (i > 0 ==> (Parse(s).Some? <==> isValid && AcceptsFrom(s[i..], repeatable)))
  }

  lemma ScanEscape(s: string, i: nat, isValid: bool, repeatable: bool)
    requires Scanned(s, i, isValid, repeatable) && i < |s| && s[i] == '\\'
    ensures i + 1 == |s| ==> Parse(s).None?
    ensures i + 1 < |s| ==> Scanned(s, i + 2, isValid && IsValidEscape(s[i + 1]), true)
  {
    AcceptsEscape(s[i..], repeatable);
    if i == 0 {
      assert s[0..] == s;
      AcceptsStart(s);
    }
    if i + 1 < |s| {
      assert s[i..][2..] == s[i + 2..];
    }
  }

  lemma ScanOther(s: string, i: nat, isValid: bool, repeatable: bool)
    requires Scanned(s, i, isValid, repeatable) && i < |s| && s[i] != '\\' && s[i] != NUL
    ensures
      var faulty := (s[i] == '^' && i > 0) || (s[i] == '$' && i + 1 < |s|)
                    || IsUnsupported(s[i]) || (IsRepeat(s[i]) && !repeatable);
      Scanned(s, i + 1, isValid && !faulty, !IsAnchorOrRepeat(s[i]))
  {
    AcceptsOther(s[i..], repeatable);
    assert s[i..][1..] == s[i + 1..];
    if i == 0 {
      assert s[0..] == s;
      AcceptsStart(s);
    }
  }

  /** The single pass of ValidateRegex; None stands for the null pointer. */
  method ValidateRegex(regex: Option<CString>) returns (valid: bool)
    ensures valid <==> regex.Some? && InGrammar(regex.value)
  {
    if regex.None? {
      return false;
    }
    var s := regex.value;
    ParseDecidesGrammar(s);
    var isValid := true;
    var prevRepeatable := false;
    var i: nat := 0;
    while CharAt(s, i) != NUL
      invariant Scanned(s, i, isValid, prevRepeatable)
      decreases |s| - i
    {
      if s[i] == '\\' {
        ScanEscape(s, i, isValid, prevRepeatable);
        i := i + 1;
        if CharAt(s, i) == NUL {
          return false;
        }
        if !IsValidEscape(s[i]) {
          isValid := false;
        }
        prevRepeatable := true;
      } else {
        var ch := s[i];
        ScanOther(s, i, isValid, prevRepeatable);
        if ch == '^' && i > 0 {
          isValid := false;
        } else if ch == '$' && CharAt(s, i + 1) != NUL {
          isValid := false;
        } else if IsUnsupported(ch) {
          isValid := false;
        } else if IsRepeat(ch) && !prevRepeatable {
          isValid := false;
        }
        prevRepeatable := !IsAnchorOrRepeat(ch);
      }
      i := i + 1;
    }
    return isValid;
  }
}
