/** Base64 decoding in gmock-internal-utils.cc, against the encodings of sections 4 and 5 of
    RFC 4648. */
module Base64 {

  import opened Basics
  import opened Bytewise

  type Sextet = v: int | 0 <= v < 64

  /** The alphabet: character number v. */
  function Letter(v: nat): char
    requires v < 64
  {
    if v < 26 then ('A' as int + v) as char
    else if v < 52 then ('a' as int + v - 26) as char
    else if v < 62 then ('0' as int + v - 52) as char
    else if v == 62 then '+' else '/'
  }

  /** kBase64. */
  function Alphabet(): (s: string)
    ensures |s| == 64 && forall v :: 0 <= v < 64 ==> s[v] == Letter(v)
  {
    seq(64, v requires 0 <= v < 64 => Letter(v))
  }

  lemma AlphabetText()
    ensures Alphabet()[..26] == "ABCDEFGHIJKLMNOPQRSTUVWXYZ"
    ensures Alphabet()[26..52] == "abcdefghijklmnopqrstuvwxyz"
    ensures Alphabet()[52..] == "0123456789+/"
  {
  }

  function UndoWebSafeEncoding(c: char): char {
    if c == '-' then '+' else if c == '_' then '/' else c
  }

  /** The search behind the table kUnBase64; 65 means that the character is not in the alphabet. */
  function UnBase64Impl(c: char, base64: string, carry: nat): nat {
    if base64 == [] then 65 else if base64[0] == c then carry else UnBase64Impl(c, base64[1..], carry + 1)
  }

  function UnBase64(c: char): nat {
    UnBase64Impl(UndoWebSafeEncoding(c), Alphabet(), 0)
  }

  predicate IsSpace(c: char) {
    c == ' ' || '\t' <= c <= '\r'
  }

  /** White space and padding are passed over wherever they stand. */
  predicate IsSkipped(c: char) {
    IsSpace(c) || c == '='
  }

  /** The white space of the C locale. */
  lemma SpacesExact(c: char)
    ensures IsSpace(c) <==> c in " \t\n\U{0B}\U{0C}\r"
    ensures IsSkipped(c) <==> c in " \t\n\U{0B}\U{0C}\r" || c == '='
  {
    var spaces := " \t\n\U{0B}\U{0C}\r";
    assert spaces[0] == ' ' && spaces[1] == '\t' && spaces[2] == '\n' && spaces[3] == '\U{0B}' && spaces[4] == '\U{0C}';
    assert spaces[5] == '\r';
  }

  // ------------------------------------------------------------------ the alphabet

  lemma {:induction false} SearchFrom(c: char, v: nat, from: nat)
    requires from <= v < 64 && Letter(v) == c
    ensures UnBase64Impl(c, Alphabet()[from..], from) == v
    decreases v - from
  {
    if from < v {
      LetterInjective(from, v);
      assert Alphabet()[from..][1..] == Alphabet()[from + 1..];
      SearchFrom(c, v, from + 1);
    }
  }

  lemma LetterInjective(u: nat, v: nat)
    requires u < 64 && v < 64
    ensures Letter(u) == Letter(v) ==> u == v
  {
  }

  lemma {:induction false} SearchFails(c: char, from: nat)
    requires from <= 64 && forall v: nat :: from <= v < 64 ==> Letter(v) != c
    ensures UnBase64Impl(c, Alphabet()[from..], from) == 65
    decreases 64 - from
  {
    if from < 64 {
      assert Alphabet()[from..][1..] == Alphabet()[from + 1..];
      SearchFails(c, from + 1);
    }
  }

  /** Character number v of the standard or of the URL-safe alphabet. */
  function Encoded(v: nat, url: bool): char
    requires v < 64
  {
    if url && v == 62 then '-' else if url && v == 63 then '_' else Letter(v)
  }

  /** The URL-safe alphabet differs in its last two characters. */
  lemma UrlAlphabetText(v: nat)
    requires v < 64
    ensures Encoded(v, true) == (Alphabet()[..62] + "-_")[v] && Encoded(v, false) == Alphabet()[v]
  {
  }

  ghost predicate InSomeAlphabet(c: char) {
    exists v: nat, url: bool :: v < 64 && c == Encoded(v, url)
  }

  /** The table inverts both alphabets and rejects every other character. */
  lemma TableExact(c: char)
    ensures UnBase64(c) < 64 || UnBase64(c) == 65
    ensures UnBase64(c) < 64 <==> InSomeAlphabet(c)
    ensures forall v: nat, url: bool :: v < 64 && c == Encoded(v, url) ==> UnBase64(c) == v
  {
    assert Alphabet()[0..] == Alphabet();
    var d := UndoWebSafeEncoding(c);
    if v: nat :| v < 64 && Letter(v) == d {
      SearchFrom(d, v, 0);
      assert c == Encoded(v, c == '-' || c == '_');
      forall u: nat, url: bool | u < 64 && c == Encoded(u, url) ensures u == v {
        LetterInjective(u, v);
      }
    } else {
      SearchFails(d, 0);
      forall u: nat, url: bool | u < 64 ensures c != Encoded(u, url) {
        assert Letter(u) != d;
      }
    }
  }

  // -------------------------------------------------------------------- the decoder

  /** static_cast<char>(v << n): the bits beyond the eighth are lost. */
  function Shl(v: Sextet, n: nat): Byte
    requires n == 2 || n == 4 || n == 6 || n == 8
  {
    (if n == 2 then v as int * 4 else if n == 4 then v as int * 16 else if n == 6 then v as int * 64 else v as int * 256) % 256
  }

  function Shr(v: Sextet, n: nat): Byte
    requires n == 0 || n == 2 || n == 4
  {
    if n == 0 then v else if n == 2 then v / 4 else v / 16
  }

  /** The byte completed by the sextet at place k of its group of four. */
  function Emit(previous: Sextet, current: Sextet, k: nat): Byte
    requires 1 <= k < 4
  {
    if k == 1 then previous as int * 4 + current / 16
    else if k == 2 then previous as int % 16 * 16 + current / 4
    else previous as int % 4 * 64 + current
  }

  /** The bytes that a string of sextets completes; bits left over are dropped. */
  function Bytes(s: seq<Sextet>): seq<Byte> {
    if s == [] then []
    else
      var n := |s| - 1;
      Bytes(s[..n]) + if n % 4 == 0 then [] else [Emit(s[n - 1], s[n], n % 4)]
  }

  predicate Acceptable(text: string) {
    forall i :: 0 <= i < |text| ==> IsSkipped(text[i]) || UnBase64(text[i]) < 64
  }

  /** Accepted are white space, padding and the characters of the two alphabets. */
  lemma AcceptableExact(text: string)
    ensures Acceptable(text) <==> forall i :: 0 <= i < |text| ==> IsSkipped(text[i]) || InSomeAlphabet(text[i])
  {
    forall i | 0 <= i < |text| ensures UnBase64(text[i]) < 64 <==> InSomeAlphabet(text[i]) {
      TableExact(text[i]);
    }
  }

  /** The sextets of the characters that are not skipped. */
  function Sextets(text: string): seq<Sextet>
    requires Acceptable(text)
  {
    if text == [] then []
    else
      var n := |text| - 1;
      Sextets(text[..n]) + if IsSkipped(text[n]) then [] else [UnBase64(text[n])]
  }

  /** The bits of the last sextet that wait for the next one, in their place. */
  ghost function Carry(s: seq<Sextet>): Byte {
    if s == [] then 0
    else
      var n := |s| - 1;
      if n % 4 == 0 then s[n] as int * 4
      else if n % 4 == 1 then s[n] as int % 16 * 16
      else if n % 4 == 2 then s[n] as int % 4 * 64
      else 0
  }

  ghost function BitPos(n: nat): nat {
    if n % 4 == 0 then 0 else 8 - 2 * (n % 4)
  }

  /** Base64Unescape.  The text is ASCII: a character beyond would index outside the table. */
  method Base64Unescape(encoded: string) returns (ok: bool, decoded: seq<Byte>)
    requires forall i :: 0 <= i < |encoded| ==> encoded[i] as int < 128
    ensures ok <==> Acceptable(encoded)
    ensures decoded == if ok then Bytes(Sextets(encoded)) else []
  {
    decoded := [];
    var bitPos := 0;
    var dst: Byte := 0;
    ghost var s: seq<Sextet> := [];
    for i := 0 to |encoded|
      invariant Acceptable(encoded[..i]) && s == Sextets(encoded[..i])
      invariant decoded == Bytes(s) && dst == Carry(s) && bitPos == BitPos(|s|)
    {
      var src := encoded[i];
      OneCharacter(encoded, i);
      if IsSkipped(src) {
        continue;
      }
      var srcBin := UnBase64(src);
      if srcBin >= 64 {
        return false, [];
      }
      dst, decoded, bitPos := AddSextet(srcBin, dst, decoded, bitPos, s);
      s := s + [srcBin];
    }
    assert encoded[..|encoded|] == encoded;
    ok := true;
  }

  lemma OneCharacter(text: string, i: nat)
    requires i < |text| && Acceptable(text[..i])
    ensures UnBase64(text[i]) < 64 || UnBase64(text[i]) == 65
    ensures Acceptable(text[..i + 1]) <==> IsSkipped(text[i]) || UnBase64(text[i]) < 64
    ensures Acceptable(text[..i + 1]) ==>
              Sextets(text[..i + 1]) == Sextets(text[..i]) + if IsSkipped(text[i]) then [] else [UnBase64(text[i])]
  {
    TableExact(text[i]);
    var next := text[..i + 1];
    assert next[..i] == text[..i] && next[i] == text[i];
  }

  lemma ShiftsKeepLowBits(v: Sextet)
    ensures Shl(v, 2) == v as int * 4 && Shl(v, 4) == v as int % 16 * 16
    ensures Shl(v, 6) == v as int % 4 * 64 && Shl(v, 8) == 0
  {
  }

  lemma CarryNext(s: seq<Sextet>, v: Sextet)
    ensures
      var p := BitPos(|s|);
      && (p == 0 || p == 2 || p == 4 || p == 6)
      && (p == 0 ==> Carry(s) == 0)
      && Carry(s + [v]) == (if p == 0 then Shl(v, 2) else Shl(v, 10 - p))
      && BitPos(|s| + 1) == (if p == 0 then 6 else (p + 6) % 8)
  {
    ShiftsKeepLowBits(v);
  }

  lemma ByteNext(s: seq<Sextet>, v: Sextet)
    ensures BitPos(|s|) == 0 ==> Bytes(s + [v]) == Bytes(s)
    ensures BitPos(|s|) != 0 ==>
              Bytes(s + [v]) == Bytes(s) + [Emit(s[|s| - 1], v, |s| % 4)]
  {
    assert (s + [v])[..|s|] == s;
  }

  lemma CarryOfLast(s: seq<Sextet>)
    requires BitPos(|s|) != 0
    ensures
      var k, last := |s| % 4, s[|s| - 1];
      || (k == 1 && BitPos(|s|) == 6 && Carry(s) == last as int * 4)
      || (k == 2 && BitPos(|s|) == 4 && Carry(s) == last as int % 16 * 16)
      || (k == 3 && BitPos(|s|) == 2 && Carry(s) == last as int % 4 * 64)
  {
    var n := |s| - 1;
    assert s != [] && (n + 1) % 4 != 0;
    Successor(n);
  }

  lemma Successor(n: nat)
    ensures (n + 1) % 4 == if n % 4 == 3 then 0 else n % 4 + 1
  {
  }

  lemma OrOfParts(a: nat, b: nat)
    ensures b < 4 ==> Or(a * 4, b) == a * 4 + b
    ensures b < 16 ==> Or(a * 16, b) == a * 16 + b
    ensures b < 64 ==> Or(a * 64, b) == a * 64 + b
  {
    assert Pow2(1) == 2 && Pow2(2) == 4 && Pow2(3) == 8 && Pow2(4) == 16 && Pow2(5) == 32 && Pow2(6) == 64;
    if b < 4 {
      OrIsSum(a, b, 2);
    }
    if b < 16 {
      OrIsSum(a, b, 4);
    }
    if b < 64 {
      OrIsSum(a, b, 6);
    }
  }

  /** What the loop holds back and the high bits of the next sextet do not overlap: or-ing them
      spells a byte. */
  lemma EmitIsOr(s: seq<Sextet>, v: Sextet)
    requires BitPos(|s|) != 0
    ensures
      var p := BitPos(|s|);
      && (p == 2 || p == 4 || p == 6)
      && Or(Carry(s), Shr(v, p - 2)) == Emit(s[|s| - 1], v, |s| % 4)
  {
    var k, last := |s| % 4, s[|s| - 1];
    CarryOfLast(s);
    OrOfParts(if k == 1 then last else if k == 2 then last % 16 else last % 4,
              if k == 1 then v / 16 else if k == 2 then v / 4 else v);
  }

  /** The two branches of the loop: start a byte, or complete one and start the next. */
  method AddSextet(srcBin: Sextet, dst: Byte, decoded: seq<Byte>, bitPos: nat, ghost s: seq<Sextet>)
    returns (dst': Byte, decoded': seq<Byte>, bitPos': nat)
    requires decoded == Bytes(s) && dst == Carry(s) && bitPos == BitPos(|s|)
    ensures decoded' == Bytes(s + [srcBin]) && dst' == Carry(s + [srcBin]) && bitPos' == BitPos(|s| + 1)
  {
    CarryNext(s, srcBin);
    ByteNext(s, srcBin);
    decoded' := decoded;
    if bitPos == 0 {
      OrNothing(Shl(srcBin, 2));
      dst' := Or(dst, Shl(srcBin, 2));
      bitPos' := 6;
    } else {
      EmitIsOr(s, srcBin);
      dst' := Or(dst, Shr(srcBin, bitPos - 2));
      decoded' := decoded' + [dst'];
      dst' := Shl(srcBin, 10 - bitPos);
      bitPos' := (bitPos + 6) % 8;
    }
  }

  // -------------------------------------------------------------------- the encodings

  /** The sextets of a byte string: sections 4 and 5 of RFC 4648. */
  function EncodeSextets(b: seq<Byte>): seq<Sextet>
    decreases |b|
  {
    if b == [] then []
    else if |b| == 1 then [b[0] / 4, b[0] % 4 * 16]
    else if |b| == 2 then [b[0] / 4, b[0] % 4 * 16 + b[1] / 16, b[1] % 16 * 4]
    else Quad(b[0], b[1], b[2]) + EncodeSextets(b[3..])
  }

  function Quad(x: Byte, y: Byte, z: Byte): (q: seq<Sextet>)
    ensures |q| == 4
  {
    [x / 4, x % 4 * 16 + y / 16, y % 16 * 4 + z / 64, z % 64]
  }

  /** A group of sextets is a group of bytes read as one number, high bits first; at the end of the
      string it is filled up with zero bits. */
  lemma EncodingIsNumber(b: seq<Byte>)
    requires b != []
    ensures
      var s := EncodeSextets(b);
      && (|b| == 1 ==> |s| == 2 && s[0] as int * 64 + s[1] == b[0] as int * 16)
      && (|b| == 2 ==> |s| == 3 && (s[0] as int * 64 + s[1]) * 64 + s[2] == (b[0] as int * 256 + b[1]) * 4)
      && (|b| > 2 ==> |s| > 3 && ((s[0] as int * 64 + s[1]) * 64 + s[2]) * 64 + s[3] == (b[0] as int * 256 + b[1]) * 256 + b[2]
                      && s[4..] == EncodeSextets(b[3..]))
  {
    if |b| > 2 {
      QuadIsNumber(b[0], b[1], b[2]);
      assert (Quad(b[0], b[1], b[2]) + EncodeSextets(b[3..]))[4..] == EncodeSextets(b[3..]);
    }
  }

  lemma QuadIsNumber(x: Byte, y: Byte, z: Byte)
    ensures
      var q := Quad(x, y, z);
      ((q[0] as int * 64 + q[1]) * 64 + q[2]) * 64 + q[3] == (x as int * 256 + y) * 256 + z
  {
  }

  /** The text of an encoding; `url` chooses the alphabet of each character. */
  function EncodeText(s: seq<Sextet>, url: seq<bool>): string
    requires |url| == |s|
  {
    seq(|s|, i requires 0 <= i < |s| => Encoded(s[i], url[i]))
  }

  /** What is left of a text without white space and padding. */
  function Significant(text: string): string {
    if text == [] then []
    else
      var n := |text| - 1;
      Significant(text[..n]) + if IsSkipped(text[n]) then [] else [text[n]]
  }

  /** A whole group at the front does not change how the rest is read. */
  lemma {:induction false} BytesOfGroups(a: seq<Sextet>, b: seq<Sextet>)
    requires |a| == 4
    ensures Bytes(a + b) == Bytes(a) + Bytes(b)
    decreases |b|
  {
    if b == [] {
      assert a + b == a;
    } else {
      var n := |b| - 1;
      BytesOfGroups(a, b[..n]);
      BytesOfOneMore(a, b[..n], b[n]);
      assert b == b[..n] + [b[n]];
    }
  }

  lemma BytesOfOneMore(a: seq<Sextet>, b: seq<Sextet>, v: Sextet)
    requires |a| == 4 && Bytes(a + b) == Bytes(a) + Bytes(b)
    ensures Bytes(a + (b + [v])) == Bytes(a) + Bytes(b + [v])
  {
    var ab := a + b;
    assert a + (b + [v]) == ab + [v];
    ByteNext(ab, v);
    ByteNext(b, v);
    GroupShift(|b|);
    assert b != [] ==> ab[|ab| - 1] == b[|b| - 1];
  }

  lemma GroupShift(n: nat)
    ensures BitPos(4 + n) == BitPos(n) && (4 + n) % 4 == n % 4
    ensures n == 0 ==> BitPos(n) == 0
  {
  }

  lemma BytesOfOne(u: Sextet, v: Sextet)
    ensures Bytes([u, v]) == [Emit(u, v, 1)]
  {
    assert [u, v][..1] == [u] && [u][..0] == [];
    assert Bytes([u]) == [];
  }

  lemma BytesOfTwo(u: Sextet, v: Sextet, w: Sextet)
    ensures Bytes([u, v, w]) == [Emit(u, v, 1), Emit(v, w, 2)]
  {
    assert [u, v, w][..2] == [u, v];
    BytesOfOne(u, v);
  }

  lemma BytesOfQuad(x: Byte, y: Byte, z: Byte)
    ensures Bytes(Quad(x, y, z)) == [x, y, z]
  {
    var q := Quad(x, y, z);
    assert q[..3] == [q[0], q[1], q[2]];
    BytesOfTwo(q[0], q[1], q[2]);
    assert Emit(q[0], q[1], 1) == x && Emit(q[1], q[2], 2) == y && Emit(q[2], q[3], 3) == z;
  }

  /** Decoding the sextets of a byte string gives it back; the zero bits at its end are dropped. */
  lemma {:induction false} BytesOfEncoding(b: seq<Byte>)
    ensures Bytes(EncodeSextets(b)) == b
    decreases |b|
  {
    var s := EncodeSextets(b);
    if |b| == 1 {
      BytesOfOne(s[0], s[1]);
      assert Emit(s[0], s[1], 1) == b[0];
    } else if |b| == 2 {
      BytesOfTwo(s[0], s[1], s[2]);
      assert Emit(s[0], s[1], 1) == b[0] && Emit(s[1], s[2], 2) == b[1];
    } else if |b| > 2 {
      BytesOfQuad(b[0], b[1], b[2]);
      BytesOfEncoding(b[3..]);
      BytesOfGroups(Quad(b[0], b[1], b[2]), EncodeSextets(b[3..]));
      assert b == [b[0], b[1], b[2]] + b[3..];
    }
  }

  /** Reading the significant characters is enough. */
  lemma {:induction false} SextetsOfSignificant(text: string, s: seq<Sextet>, url: seq<bool>)
    requires |url| == |s| && Significant(text) == EncodeText(s, url)
    ensures Acceptable(text) && Sextets(text) == s
    decreases |text|
  {
    if text != [] {
      var n := |text| - 1;
      assert text == text[..n + 1];
      if IsSkipped(text[n]) {
        SextetsOfSignificant(text[..n], s, url);
        OneCharacter(text, n);
      } else {
        var m := LastSignificant(text, s, url);
        SextetsOfSignificant(text[..n], s[..m], url[..m]);
        OneCharacter(text, n);
        assert s == s[..m] + [s[m]];
      }
    }
  }

  lemma LastSignificant(text: string, s: seq<Sextet>, url: seq<bool>) returns (m: nat)
    requires |url| == |s| && Significant(text) == EncodeText(s, url) && text != [] && !IsSkipped(text[|text| - 1])
    ensures m + 1 == |s| && UnBase64(text[|text| - 1]) == s[m]
    ensures Significant(text[..|text| - 1]) == EncodeText(s[..m], url[..m])
  {
    m := |s| - 1;
    assert Significant(text)[..m] == Significant(text[..|text| - 1]);
    assert EncodeText(s, url)[..m] == EncodeText(s[..m], url[..m]);
    assert text[|text| - 1] == Significant(text)[m] == Encoded(s[m], url[m]);
    TableExact(text[|text| - 1]);
  }

  /** Round trip: however an encoding is spelt, with or without padding, with white space anywhere,
      in either alphabet, decoding it gives the original bytes. */
  lemma DecodeUndoesEncode(b: seq<Byte>, url: seq<bool>, text: string)
    requires |url| == |EncodeSextets(b)| && Significant(text) == EncodeText(EncodeSextets(b), url)
    ensures Acceptable(text) && Bytes(Sextets(text)) == b
  {
    SextetsOfSignificant(text, EncodeSextets(b), url);
    BytesOfEncoding(b);
  }

  /** Padding to a multiple of four characters is one such spelling. */
  lemma {:induction false} PaddingIsSkipped(text: string, pad: nat)
    ensures Significant(text + seq(pad, _ => '=')) == Significant(text)
  {
    if pad == 0 {
      assert text + seq(0, _ => '=') == text;
    } else {
      var longer := text + seq(pad, _ => '=');
      assert longer[..|longer| - 1] == text + seq(pad - 1, _ => '=');
      PaddingIsSkipped(text, pad - 1);
    }
  }

  lemma EncodedNotSkipped(v: nat, url: bool)
    requires v < 64
    ensures !IsSkipped(Encoded(v, url))
  {
  }

  /** The text of an encoding has nothing in it that would be skipped. */
  lemma {:induction false} EncodingIsSignificant(s: seq<Sextet>, url: seq<bool>)
    requires |url| == |s|
    ensures Significant(EncodeText(s, url)) == EncodeText(s, url)
  {
    if s != [] {
      var m := |s| - 1;
      EncodingIsSignificant(s[..m], url[..m]);
      EncodedNotSkipped(s[m], url[m]);
      assert EncodeText(s, url)[..m] == EncodeText(s[..m], url[..m]);
    }
  }
}
