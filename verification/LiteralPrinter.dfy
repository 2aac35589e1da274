/** Printing 8-bit strings as C++ string literals (gtest-printers.cc), against the rules by which
    a C++ compiler reads them back: sections 5.13.3 and 5.13.5 of ISO/IEC 14882:2017. */
module LiteralPrinter {

  import opened Basics

  datatype CharFormat = AsIs | HexEscape | SpecialEscape

  predicate IsPrintableAscii(c: Byte) { 0x20 <= c <= 0x7E }

  function UpperHexDigit(d: int): char
    requires 0 <= d < 16
  {
    if d < 10 then ('0' as int + d) as char else ('A' as int + d - 10) as char
  }

  function HexText(c: Byte): string {
    if c < 16 then [UpperHexDigit(c)] else [UpperHexDigit(c / 16), UpperHexDigit(c % 16)]
  }

  predicate IsXDigit(ch: char) {
    '0' <= ch <= '9' || 'a' <= ch <= 'f' || 'A' <= ch <= 'F'
  }

  /** The letter of a simple escape sequence, if c has one. */
  function SimpleEscape(c: Byte): Option<char> {
    match c
    case 0x27 => Some('\'')
    case 0x5C => Some('\\')
    case 7 => Some('a')
    case 8 => Some('b')
    case 12 => Some('f')
    case 10 => Some('n')
    case 13 => Some('r')
    case 9 => Some('t')
    case 11 => Some('v')
    case _ => None
  }

  function FormatOf(c: Byte): CharFormat {
    if c == 0 || SimpleEscape(c).Some? then SpecialEscape
    else if IsPrintableAscii(c) then AsIs else HexEscape
  }

  function CharLiteral(c: Byte): string {
    if c == 0 then "\\0"
    else if SimpleEscape(c).Some? then ['\\', SimpleEscape(c).value]
    else if IsPrintableAscii(c) then [c as char]
    else "\\x" + HexText(c)
  }

  /** What stands for each character: itself if it is printable and neither a quote nor a backslash,
      a letter for the control characters that have one, and else its two upper-case hex digits. */
  lemma CharLiteralsExact(c: Byte)
    ensures 0x20 <= c <= 0x7E && c != 0x27 && c != 0x5C ==> CharLiteral(c) == [c as char]
    ensures CharLiteral(0x27) == "\\'" && CharLiteral(0x5C) == "\\\\" && CharLiteral(0) == "\\0"
    ensures CharLiteral(7) == "\\a" && CharLiteral(8) == "\\b" && CharLiteral(9) == "\\t" && CharLiteral(10) == "\\n"
    ensures CharLiteral(11) == "\\v" && CharLiteral(12) == "\\f" && CharLiteral(13) == "\\r"
    ensures (0 < c < 7 || 13 < c < 0x20 || 0x7E < c) ==>
              CharLiteral(c) == "\\x" + (if c < 16 then ["0123456789ABCDEF"[c]]
                                         else ["0123456789ABCDEF"[c / 16], "0123456789ABCDEF"[c % 16]])
  {
    HexDigitText();
  }

  lemma HexDigitText()
    ensures forall d: int :: 0 <= d < 16 ==> UpperHexDigit(d) == "0123456789ABCDEF"[d]
  {
  }

  /** The reported format is the form that was printed. */
  lemma FormatsExact(c: Byte)
    ensures FormatOf(c) == AsIs <==> |CharLiteral(c)| == 1
    ensures FormatOf(c) == HexEscape <==> |CharLiteral(c)| > 2
    ensures StringFormat(c) == AsIs <==> |StringLiteral(c)| == 1
    ensures StringFormat(c) == HexEscape <==> FormatOf(c) == HexEscape
  {
  }

  /** Inside a string literal the quotes swap their roles. */
  function StringLiteral(c: Byte): string {
    if c == 0x27 then "'" else if c == 0x22 then "\\\"" else CharLiteral(c)
  }

  function StringFormat(c: Byte): CharFormat {
    if c == 0x27 then AsIs else if c == 0x22 then SpecialEscape else FormatOf(c)
  }

  /** The text between the quotes; `afterHex`: the character before was hex-escaped. */
  function Body(s: seq<Byte>, afterHex: bool): string {
    if s == [] then ""
    else Gap(afterHex, s[0]) + StringLiteral(s[0]) + Body(s[1..], StringFormat(s[0]) == HexEscape)
  }

  function Printed(s: seq<Byte>): string {
    "\"" + Body(s, false) + "\""
  }

  method PrintAsCharLiteralTo(c: Byte, os: OStream) returns (format: CharFormat)
    modifies os
    ensures os.text == old(os.text) + CharLiteral(c) && format == FormatOf(c)
  {
    if c == 0 {
      os.Put("\\0");
    } else if SimpleEscape(c).Some? {
      os.Put("\\" + [SimpleEscape(c).value]);
    } else if IsPrintableAscii(c) {
      os.Put([c as char]);
      return AsIs;
    } else {
      os.Put("\\x");
      os.Put(HexText(c));
      return HexEscape;
    }
    return SpecialEscape;
  }

  method PrintAsStringLiteralTo(c: Byte, os: OStream) returns (format: CharFormat)
    modifies os
    ensures os.text == old(os.text) + StringLiteral(c) && format == StringFormat(c)
  {
    if c == 0x27 {
      os.Put("'");
      return AsIs;
    } else if c == 0x22 {
      os.Put("\\\"");
      return SpecialEscape;
    }
    format := PrintAsCharLiteralTo(c, os);
  }

  function Gap(afterHex: bool, c: Byte): string {
    if afterHex && IsXDigit(c as char) then "\" \"" else ""
  }

  lemma BodyStep(before: string, s: seq<Byte>, i: nat, afterHex: bool)
    requires i < |s|
    ensures before + Body(s[i..], afterHex)
         == before + Gap(afterHex, s[i]) + StringLiteral(s[i]) + Body(s[i + 1..], StringFormat(s[i]) == HexEscape)
  {
    var gap, lit, rest := Gap(afterHex, s[i]), StringLiteral(s[i]), Body(s[i + 1..], StringFormat(s[i]) == HexEscape);
    assert s[i..][1..] == s[i + 1..];
    assert Body(s[i..], afterHex) == gap + lit + rest;
    assert before + (gap + lit + rest) == before + gap + lit + rest;
  }

  ghost predicate SomeHexEscape(s: seq<Byte>) {
    exists i :: 0 <= i < |s| && StringFormat(s[i]) == HexEscape
  }

  /** The loop over the characters; reports whether any of them needed a hex escape. */
  method PrintCharsAsStringTo(s: seq<Byte>, os: OStream) returns (format: CharFormat)
    modifies os
    ensures os.text == old(os.text) + Printed(s)
    ensures format == if SomeHexEscape(s) then HexEscape else AsIs
  {
    ghost var all := os.text + "\"" + Body(s, false);
    os.Put("\"");
    var isPreviousHex := false;
    format := AsIs;
    assert s[0..] == s;
    for index: nat := 0 to |s|
      invariant os.text + Body(s[index..], isPreviousHex) == all
      invariant format == if SomeHexEscape(s[..index]) then HexEscape else AsIs
    {
      BodyStep(os.text, s, index, isPreviousHex);
      SomeHexEscapeStep(s, index);
      isPreviousHex := PrintNext(s[index], isPreviousHex, os);
      if isPreviousHex {
        format := HexEscape;
      }
    }
    assert s[..|s|] == s;
    assert os.text == all;
    os.Put("\"");
  }

  lemma SomeHexEscapeStep(s: seq<Byte>, i: nat)
    requires i < |s|
    ensures SomeHexEscape(s[..i + 1]) <==> SomeHexEscape(s[..i]) || StringFormat(s[i]) == HexEscape
  {
    assert s[..i + 1] == s[..i] + [s[i]];
    if k :| 0 <= k < i && StringFormat(s[..i][k]) == HexEscape {
      assert s[..i + 1][k] == s[..i][k];
    }
    assert s[..i + 1][i] == s[i];
  }

  /** One turn of the loop: a character, after a break where it could be taken for a hex digit of
      the escape before it. */
  method PrintNext(cur: Byte, isPreviousHex: bool, os: OStream) returns (hex: bool)
    modifies os
    ensures os.text == old(os.text) + Gap(isPreviousHex, cur) + StringLiteral(cur)
    ensures hex <==> StringFormat(cur) == HexEscape
  {
    if isPreviousHex && IsXDigit(cur as char) {
      os.Put("\" \"");
    }
    assert os.text == old(os.text) + Gap(isPreviousHex, cur);
    var printed := PrintAsStringLiteralTo(cur, os);
    hex := printed == HexEscape;
  }

  // -------------------------------------------------------------- reading it back

  predicate IsOctDigit(ch: char) { '0' <= ch <= '7' }

  function HexDigitValue(ch: char): nat
    requires IsXDigit(ch)
  {
    if ch <= '9' then ch as int - '0' as int
    else if ch <= 'F' then ch as int - 'A' as int + 10
    else ch as int - 'a' as int + 10
  }

  /** The digits and their values. */
  lemma DigitsExact(ch: char)
    ensures IsOctDigit(ch) <==> ch in "01234567"
    ensures IsXDigit(ch) <==> ch in "0123456789abcdefABCDEF"
    ensures forall d: int :: 0 <= d < 16 && (ch == "0123456789abcdef"[d] || ch == "0123456789ABCDEF"[d]) ==>
              IsXDigit(ch) && HexDigitValue(ch) == d
  {
    var digits := "0123456789abcdefABCDEF";
    assert digits[0] == '0' && digits[1] == '1' && digits[2] == '2' && digits[3] == '3' && digits[4] == '4';
    assert digits[5] == '5' && digits[6] == '6' && digits[7] == '7' && digits[8] == '8' && digits[9] == '9';
    assert digits[10] == 'a' && digits[11] == 'b' && digits[12] == 'c' && digits[13] == 'd' && digits[14] == 'e';
    assert digits[15] == 'f' && digits[16] == 'A' && digits[17] == 'B' && digits[18] == 'C' && digits[19] == 'D';
    assert digits[20] == 'E' && digits[21] == 'F';
    var octal := "01234567";
    assert octal[0] == '0' && octal[1] == '1' && octal[2] == '2' && octal[3] == '3' && octal[4] == '4';
    assert octal[5] == '5' && octal[6] == '6' && octal[7] == '7';
  }

  /** The longest run of hexadecimal digits at the head. */
  function HexRun(t: string): (n: nat)
    ensures n <= |t|
  {
    if t == [] || !IsXDigit(t[0]) then 0 else 1 + HexRun(t[1..])
  }

  function HexValue(digits: string): nat
    requires forall i :: 0 <= i < |digits| ==> IsXDigit(digits[i])
  {
    if digits == [] then 0 else 16 * HexValue(digits[..|digits| - 1]) + HexDigitValue(digits[|digits| - 1])
  }

  /** The run of at most `most` octal digits at the head. */
  function OctRun(t: string, most: nat): (n: nat)
    ensures n <= |t| && n <= most
    ensures forall i :: 0 <= i < n ==> IsOctDigit(t[i])
  {
    if most == 0 || t == [] || !IsOctDigit(t[0]) then 0 else 1 + OctRun(t[1..], most - 1)
  }

  function OctValue(digits: string): nat
    requires forall i :: 0 <= i < |digits| ==> IsOctDigit(digits[i])
  {
    if digits == [] then 0
    else
      assert IsOctDigit(digits[|digits| - 1]);
      8 * OctValue(digits[..|digits| - 1]) + (digits[|digits| - 1] as int - '0' as int)
  }

  lemma {:induction false} HexRunDigits(t: string)
    ensures forall i :: 0 <= i < HexRun(t) ==> IsXDigit(t[i])
  {
    if t != [] && IsXDigit(t[0]) {
      HexRunDigits(t[1..]);
    }
  }

  function SimpleEscapeValue(ch: char): Option<Byte> {
    match ch
    case '\'' => Some(0x27)
    case '"' => Some(0x22)
    case '?' => Some(0x3F)
    case '\\' => Some(0x5C)
    case 'a' => Some(7)
    case 'b' => Some(8)
    case 'f' => Some(12)
    case 'n' => Some(10)
    case 'r' => Some(13)
    case 't' => Some(9)
    case 'v' => Some(11)
    case _ => None
  }

  /** One escape sequence, after the backslash: hexadecimal digits without limit, or one to three
      octal digits, or a simple escape.  A value that does not fit a character is ill-formed. */
  function LexEscape(t: string): (r: Option<(Byte, string)>)
    ensures r.Some? ==> |r.value.1| < |t|
  {
    if t == [] then None
    else if t[0] == 'x' then
      HexRunDigits(t[1..]);
      var n := HexRun(t[1..]);
      var v := HexValue(t[1..][..n]);
      if n == 0 || v >= 256 then None else Some((v, t[1..][n..]))
    else if IsOctDigit(t[0]) then
      var n := OctRun(t, 3);
      var v := OctValue(t[..n]);
      if v >= 256 then None else Some((v, t[n..]))
    else
      var v := SimpleEscapeValue(t[0]);
      if v.None? then None else Some((v.value, t[1..]))
  }

  function Prepend(c: Byte, r: Option<seq<Byte>>): Option<seq<Byte>> {
    if r.None? then None else Some([c] + r.value)
  }

  /** The characters from inside a literal to the end of the adjacent literals. */
  function LexInside(t: string): Option<seq<Byte>>
    decreases |t|
  {
    if t == [] || t[0] == '\n' then None
    else if t[0] == '"' then LexBetween(t[1..])
    else if t[0] == '\\' then
      var e := LexEscape(t[1..]);
      if e.None? then None else Prepend(e.value.0, LexInside(e.value.1))
    else if t[0] as int < 256 then Prepend(t[0] as int, LexInside(t[1..]))
    else None
  }

  /** Between adjacent literals there is white space only. */
  function LexBetween(t: string): Option<seq<Byte>>
    decreases |t|
  {
    if t == [] then Some([])
    else if t[0] == ' ' then LexBetween(t[1..])
    else if t[0] == '"' then LexInside(t[1..])
    else None
  }

  /** Adjacent string literals, concatenated after their escapes have been read. */
  function Lex(t: string): Option<seq<Byte>> {
    if t != [] && t[0] == '"' then LexInside(t[1..]) else None
  }

  // -------------------------------------------------------------------- round trip

  /** The text from inside the literal to its closing quote. */
  function Rest(s: seq<Byte>, afterHex: bool): string {
    Body(s, afterHex) + "\""
  }

  lemma RestStarts(s: seq<Byte>, afterHex: bool)
    ensures Rest(s, afterHex) != []
    ensures afterHex ==> !IsXDigit(Rest(s, afterHex)[0])
    ensures !afterHex ==> (IsOctDigit(Rest(s, afterHex)[0]) <==> s != [] && IsOctDigit(s[0] as char))
  {
  }

  lemma RestUnfolds(s: seq<Byte>, afterHex: bool)
    requires s != []
    ensures Rest(s, afterHex)
         == Gap(afterHex, s[0]) + (StringLiteral(s[0]) + Rest(s[1..], StringFormat(s[0]) == HexEscape))
  {
    var gap, lit, rest := Gap(afterHex, s[0]), StringLiteral(s[0]), Body(s[1..], StringFormat(s[0]) == HexEscape);
    assert (gap + lit + rest) + "\"" == gap + (lit + (rest + "\""));
  }

  /** A break between two literals leaves no trace. */
  lemma LexGap(t: string)
    ensures LexInside("\" \"" + t) == LexInside(t)
  {
    var all := "\" \"" + t;
    assert all[1..] == " \"" + t && all[1..][1..] == "\"" + t && all[1..][1..][1..] == t;
    assert LexInside(all) == LexBetween(all[1..]) == LexBetween(all[1..][1..]);
  }

  lemma {:induction false} HexRunOf(digits: string, rest: string)
    requires forall i :: 0 <= i < |digits| ==> IsXDigit(digits[i])
    requires rest == [] || !IsXDigit(rest[0])
    ensures HexRun(digits + rest) == |digits|
  {
    if digits != [] {
      assert (digits + rest)[1..] == digits[1..] + rest;
      HexRunOf(digits[1..], rest);
    } else {
      assert digits + rest == rest;
    }
  }

  lemma HexTextValue(c: Byte)
    ensures |HexText(c)| > 0 && (forall i :: 0 <= i < |HexText(c)| ==> IsXDigit(HexText(c)[i]))
    ensures HexValue(HexText(c)) == c
  {
    var t := HexText(c);
    assert t[..|t| - 1] == if c < 16 then [] else [UpperHexDigit(c / 16)];
    assert c >= 16 ==> [UpperHexDigit(c / 16)][..0] == [];
    assert HexValue(t[..|t| - 1]) == c / 16;
  }

  /** The digits of a hex escape end where the text goes on with anything but a hex digit. */
  lemma LexHexEscape(c: Byte, rest: string)
    requires rest == [] || !IsXDigit(rest[0])
    ensures LexEscape("x" + HexText(c) + rest) == Some((c, rest))
  {
    var t := "x" + HexText(c) + rest;
    assert t[1..] == HexText(c) + rest;
    HexTextValue(c);
    HexRunOf(HexText(c), rest);
    assert t[1..][..|HexText(c)|] == HexText(c) && t[1..][|HexText(c)|..] == rest;
  }

  /** The break is needed: without it a hex digit would be taken into the escape before it. */
  lemma GapNeeded(p: Byte, c: Byte, rest: string)
    ensures Gap(true, c) == [] <==>
            LexEscape("x" + HexText(p) + (StringLiteral(c) + rest)) == Some((p, StringLiteral(c) + rest))
  {
    var after := StringLiteral(c) + rest;
    if Gap(true, c) == [] {
      FirstOfLiteral(c);
      LexHexEscape(p, after);
    } else {
      FirstOfLiteral(c);
      HexTextValue(p);
      var t := "x" + HexText(p) + after;
      assert t[1..] == HexText(p) + after;
      LongerHexRun(HexText(p), after);
    }
  }

  lemma FirstOfLiteral(c: Byte)
    ensures StringLiteral(c) != [] && (IsXDigit(StringLiteral(c)[0]) <==> IsXDigit(c as char))
  {
  }

  lemma {:induction false} LongerHexRun(digits: string, after: string)
    requires (forall i :: 0 <= i < |digits| ==> IsXDigit(digits[i])) && after != [] && IsXDigit(after[0])
    ensures HexRun(digits + after) > |digits|
    decreases |digits|
  {
    if digits != [] {
      assert (digits + after)[1..] == digits[1..] + after;
      LongerHexRun(digits[1..], after);
    } else {
      assert digits + after == after;
    }
  }

  lemma LexBackslash(t: string, c: Byte, rest: string)
    requires t != [] && t[0] == '\\' && LexEscape(t[1..]) == Some((c, rest))
    ensures LexInside(t) == Prepend(c, LexInside(rest))
  {
  }

  lemma LexNul(rest: string)
    requires rest == [] || !IsOctDigit(rest[0])
    ensures LexEscape("0" + rest) == Some((0, rest))
  {
    var t := "0" + rest;
    assert t[1..] == rest;
    assert OctRun(t, 3) == 1;
    assert t[..1] == "0" && "0"[..0] == [];
  }

  lemma LexSimple(c: Byte, ch: char, rest: string)
    requires SimpleEscapeValue(ch) == Some(c)
    ensures LexEscape([ch] + rest) == Some((c, rest))
  {
    assert ([ch] + rest)[1..] == rest;
  }

  lemma SimpleLiteral(c: Byte)
    requires c != 0 && StringFormat(c) == SpecialEscape
    ensures |StringLiteral(c)| == 2 && StringLiteral(c)[0] == '\\' && SimpleEscapeValue(StringLiteral(c)[1]) == Some(c)
  {
  }

  lemma LexNulLiteral(rest: string)
    requires rest == [] || !IsOctDigit(rest[0])
    ensures LexInside("\\0" + rest) == Prepend(0, LexInside(rest))
  {
    var t := "\\0" + rest;
    LexNul(rest);
    assert t[1..] == "0" + rest;
    LexBackslash(t, 0, rest);
  }

  lemma LexHexLiteral(c: Byte, rest: string)
    requires rest == [] || !IsXDigit(rest[0])
    ensures LexInside("\\x" + HexText(c) + rest) == Prepend(c, LexInside(rest))
  {
    var hex := HexText(c);
    LexHexEscape(c, rest);
    AfterBackslash("x", hex, rest);
    assert "\\" + "x" == "\\x";
    LexBackslash("\\x" + hex + rest, c, rest);
  }

  lemma AfterBackslash(x: string, hex: string, rest: string)
    requires |x| == 1
    ensures ("\\" + x) + hex + rest == "\\" + (x + hex + rest)
    ensures (("\\" + x) + hex + rest)[1..] == x + hex + rest
  {
  }

  lemma LexSimpleLiteral(c: Byte, lit: string, rest: string)
    requires |lit| == 2 && lit[0] == '\\' && SimpleEscapeValue(lit[1]) == Some(c)
    ensures LexInside(lit + rest) == Prepend(c, LexInside(rest))
  {
    var t := lit + rest;
    LexSimple(c, lit[1], rest);
    assert t[1..] == [lit[1]] + rest;
    LexBackslash(t, c, rest);
  }

  lemma LexPlainLiteral(ch: char, rest: string)
    requires ch != '\\' && ch != '"' && ch != '\n' && ch as int < 256
    ensures LexInside([ch] + rest) == Prepend(ch as int, LexInside(rest))
  {
    assert ([ch] + rest)[1..] == rest;
  }

  /** Each printed character reads back as itself, in any text that does not extend its escape. */
  lemma LexLiteral(c: Byte, rest: string)
    requires StringFormat(c) == HexEscape ==> rest == [] || !IsXDigit(rest[0])
    requires c == 0 ==> rest == [] || !IsOctDigit(rest[0])
    ensures LexInside(StringLiteral(c) + rest) == Prepend(c, LexInside(rest))
  {
    if c == 0 {
      LexNulLiteral(rest);
    } else if StringFormat(c) == HexEscape {
      LexHexLiteral(c, rest);
    } else if StringFormat(c) == SpecialEscape {
      SimpleLiteral(c);
      LexSimpleLiteral(c, StringLiteral(c), rest);
    } else {
      LexPlainLiteral(c as char, rest);
    }
  }

  /** A NUL is printed as \0: an octal digit after it is taken into the escape. */
  ghost predicate NulBeforeOctal(s: seq<Byte>) {
    exists i :: 0 <= i < |s| - 1 && s[i] == 0 && IsOctDigit(s[i + 1] as char)
  }

  lemma OctalDigitFirst(s: seq<Byte>)
    requires s != [] && IsOctDigit(s[0] as char)
    ensures Rest(s, false) == [s[0] as char] + Rest(s[1..], false)
  {
    RestUnfolds(s, false);
    assert StringLiteral(s[0]) == [s[0] as char];
  }

  /** The escape \0 swallows the one or two octal digits that follow it. */
  lemma LexNulOctal(s: seq<Byte>) returns (v: Byte, n: nat)
    requires NulThenOctal(s)
    ensures 2 <= n <= |s|
    ensures LexInside(StringLiteral(0) + Rest(s[1..], false)) == Prepend(v, LexInside(Rest(s[n..], false)))
  {
    OctalDigitFirst(s[1..]);
    assert s[1..][1..] == s[2..];
    RestStarts(s[2..], false);
    n := 2;
    if |s| > 2 && IsOctDigit(s[2] as char) {
      OctalDigitFirst(s[2..]);
      assert s[2..][1..] == s[3..];
      n := 3;
    }
    var after := Rest(s[2..], false);
    v := LexNulDigit(s[1] as char, after, n);
    assert after[n - 2..] == Rest(s[n..], false);
  }

  lemma LexNulDigit(d: char, after: string, n: nat) returns (v: Byte)
    requires IsOctDigit(d) && after != [] && n == if IsOctDigit(after[0]) then 3 else 2
    ensures LexInside(StringLiteral(0) + ([d] + after)) == Prepend(v, LexInside(after[n - 2..]))
  {
    v := LexOctal(d, after, n);
    var t := StringLiteral(0) + ([d] + after);
    assert t[1..] == "0" + ([d] + after);
    LexBackslash(t, v, after[n - 2..]);
  }

  lemma LexOctal(d: char, after: string, n: nat) returns (v: Byte)
    requires IsOctDigit(d) && after != [] && n == if IsOctDigit(after[0]) then 3 else 2
    ensures LexEscape("0" + ([d] + after)) == Some((v, after[n - 2..]))
  {
    var t := "0" + ([d] + after);
    assert t[1..][1..] == after;
    assert OctRun(after, 1) == n - 2 by {
      assert OctRun(after[1..], 0) == 0;
    }
    assert OctRun(t[1..], 2) == n - 1;
    assert OctRun(t, 3) == n;
    assert t[n..] == after[n - 2..];
    v := OctPrefixValue(t, n);
  }

  lemma OctPrefixValue(t: string, n: nat) returns (v: Byte)
    requires 2 <= n <= 3 && n <= |t| && t[0] == '0' && OctRun(t, 3) == n
    ensures v == OctValue(t[..n])
  {
    var two := t[..2];
    assert two[..1] == "0" && "0"[..0] == [];
    assert OctValue(two) < 8;
    assert n == 3 ==> t[..3][..2] == two;
    v := OctValue(t[..n]);
  }

  lemma LexRestStep(s: seq<Byte>, afterHex: bool)
    requires s != []
    ensures LexInside(Rest(s, afterHex))
         == LexInside(StringLiteral(s[0]) + Rest(s[1..], StringFormat(s[0]) == HexEscape))
  {
    var t := StringLiteral(s[0]) + Rest(s[1..], StringFormat(s[0]) == HexEscape);
    RestUnfolds(s, afterHex);
    if Gap(afterHex, s[0]) == [] {
      assert Rest(s, afterHex) == t;
    } else {
      LexGap(t);
    }
  }

  /** What reading is to give for s: s itself, or nothing or too little if a NUL is lost. */
  ghost predicate ReadsAs(s: seq<Byte>, r: Option<seq<Byte>>) {
    if NulBeforeOctal(s) then r.None? || |r.value| < |s| else r == Some(s)
  }

  predicate NulThenOctal(s: seq<Byte>) {
    |s| > 1 && s[0] == 0 && IsOctDigit(s[1] as char)
  }

  lemma ReadsAsSwallowed(s: seq<Byte>, n: nat, v: Byte, r: Option<seq<Byte>>)
    requires NulThenOctal(s) && 2 <= n <= |s| && ReadsAs(s[n..], r)
    ensures ReadsAs(s, Prepend(v, r))
  {
    assert s[0] == 0 && IsOctDigit(s[0 + 1] as char);
  }

  lemma ReadsAsKept(s: seq<Byte>, r: Option<seq<Byte>>)
    requires s != [] && !NulThenOctal(s) && ReadsAs(s[1..], r)
    ensures ReadsAs(s, Prepend(s[0], r))
  {
    NulBeforeOctalTail(s);
    assert s == [s[0]] + s[1..];
  }

  lemma LexFirst(s: seq<Byte>, afterHex: bool) returns (hex: bool)
    requires s != [] && !NulThenOctal(s)
    ensures LexInside(Rest(s, afterHex)) == Prepend(s[0], LexInside(Rest(s[1..], hex)))
  {
    hex := StringFormat(s[0]) == HexEscape;
    LexRestStep(s, afterHex);
    RestStarts(s[1..], hex);
    LexLiteral(s[0], Rest(s[1..], hex));
  }

  lemma {:induction false} LexRest(s: seq<Byte>, afterHex: bool)
    ensures ReadsAs(s, LexInside(Rest(s, afterHex)))
    decreases |s|
  {
    if s == [] {
      assert Rest(s, afterHex)[1..] == [];
    } else if NulThenOctal(s) {
      LexRestStep(s, afterHex);
      var v, n := LexNulOctal(s);
      LexRest(s[n..], false);
      ReadsAsSwallowed(s, n, v, LexInside(Rest(s[n..], false)));
    } else {
      var hex := LexFirst(s, afterHex);
      LexRest(s[1..], hex);
      ReadsAsKept(s, LexInside(Rest(s[1..], hex)));
    }
  }

  lemma NulBeforeOctalTail(s: seq<Byte>)
    requires s != [] && !NulThenOctal(s)
    ensures NulBeforeOctal(s) <==> NulBeforeOctal(s[1..])
  {
    if NulBeforeOctal(s) {
      var i :| 0 <= i < |s| - 1 && s[i] == 0 && IsOctDigit(s[i + 1] as char);
      assert s[1..][i - 1] == 0 && IsOctDigit(s[1..][i - 1 + 1] as char);
    }
    if NulBeforeOctal(s[1..]) {
      var i :| 0 <= i < |s| - 2 && s[1..][i] == 0 && IsOctDigit(s[1..][i + 1] as char);
      assert s[i + 1] == 0 && IsOctDigit(s[i + 1 + 1] as char);
    }
  }

  /** Printing then reading is the identity, exactly for the strings in which no NUL stands
      directly before an octal digit. */
  lemma PrintLexExact(s: seq<Byte>)
    ensures Lex(Printed(s)) == Some(s) <==> !NulBeforeOctal(s)
  {
    assert Printed(s)[1..] == Rest(s, false);
    LexRest(s, false);
  }

  /** The smallest failure: a NUL and the digit 1 read back as the single character 1. */
  lemma NulBeforeOctalLost()
    ensures Lex(Printed([0, 0x31])) != Some([0, 0x31])
  {
    var s := [0, 0x31];
    assert s[0] == 0 && IsOctDigit(s[0 + 1] as char);
    PrintLexExact(s);
  }
}
