/** The UTF-8 recogniser of gtest-printers.cc against section 4 of RFC 3629. */
module Utf8 {

  import opened Basics

  predicate IsUTF8TrailByte(t: Byte) { 0x80 <= t <= 0xBF }

  /** The rules UTF8-1 to UTF8-4 of section 4 of RFC 3629. */
  predicate IsUtf8Char(t: seq<Byte>) {
    || (|t| == 1 && t[0] <= 0x7F)
    || (|t| == 2 && 0xC2 <= t[0] <= 0xDF && IsUTF8TrailByte(t[1]))
    || (|t| == 3 && IsUTF8TrailByte(t[2]) &&
        (|| (t[0] == 0xE0 && 0xA0 <= t[1] <= 0xBF)
         || (0xE1 <= t[0] <= 0xEC && IsUTF8TrailByte(t[1]))
         || (t[0] == 0xED && 0x80 <= t[1] <= 0x9F)
         || (0xEE <= t[0] <= 0xEF && IsUTF8TrailByte(t[1]))))
    || (|t| == 4 && IsUTF8TrailByte(t[2]) && IsUTF8TrailByte(t[3]) &&
        (|| (t[0] == 0xF0 && 0x90 <= t[1] <= 0xBF)
         || (0xF1 <= t[0] <= 0xF3 && IsUTF8TrailByte(t[1]))
         || (t[0] == 0xF4 && 0x80 <= t[1] <= 0x8F)))
  }

  function Concat(parts: seq<seq<Byte>>): seq<Byte> {
    if parts == [] then [] else parts[0] + Concat(parts[1..])
  }

  ghost predicate IsSplit(s: seq<Byte>, parts: seq<seq<Byte>>) {
    Concat(parts) == s && forall i :: 0 <= i < |parts| ==> IsUtf8Char(parts[i])
  }

  ghost predicate WellFormed(s: seq<Byte>) {
    exists parts :: IsSplit(s, parts)
  }

  // ---------------------------------------------------------- Unicode scalar values

  /** A Unicode scalar value: any code point that is not a surrogate. */
  predicate IsScalar(c: int) {
    0 <= c <= 0x10FFFF && !(0xD800 <= c <= 0xDFFF)
  }

  /** The table of section 3 of RFC 3629: six bits to a trail byte. */
  function Encode(c: int): (t: seq<Byte>)
    requires IsScalar(c)
    ensures IsUtf8Char(t)
  {
    if c < 0x80 then [c]
    else if c < 0x800 then [0xC0 + c / 64, 0x80 + c % 64]
    else if c < 0x1_0000 then [0xE0 + c / 64 / 64, 0x80 + c / 64 % 64, 0x80 + c % 64]
    else [0xF0 + c / 64 / 64 / 64, 0x80 + c / 64 / 64 % 64, 0x80 + c / 64 % 64, 0x80 + c % 64]
  }

  /** The six bits that a trail byte adds. */
  function Append(high: int, trail: Byte): int {
    64 * high + (trail as int - 0x80)
  }

  function Lead(b: Byte, base: int): int {
    b as int - base
  }

  function Decode(t: seq<Byte>): (c: int)
    requires IsUtf8Char(t)
    ensures IsScalar(c)
  {
    if |t| == 1 then Lead(t[0], 0)
    else if |t| == 2 then Append(Lead(t[0], 0xC0), t[1])
    else if |t| == 3 then Append(Append(Lead(t[0], 0xE0), t[1]), t[2])
    else Append(Append(Append(Lead(t[0], 0xF0), t[1]), t[2]), t[3])
  }

  lemma AppendSplits(high: int, trail: Byte)
    requires IsUTF8TrailByte(trail)
    ensures Append(high, trail) / 64 == high && Append(high, trail) % 64 == trail as int - 0x80
  {
  }

  lemma SplitAppends(c: int)
    ensures Append(c / 64, 0x80 + c % 64) == c
  {
  }

  /** The well-formed sequences of section 4 are the encodings of section 3, one for each scalar. */
  lemma EncodeDecode(t: seq<Byte>)
    requires IsUtf8Char(t)
    ensures Encode(Decode(t)) == t
  {
    if |t| >= 2 {
      var a := Append(Lead(t[0], if |t| == 2 then 0xC0 else if |t| == 3 then 0xE0 else 0xF0), t[1]);
      AppendSplits(Lead(t[0], if |t| == 2 then 0xC0 else if |t| == 3 then 0xE0 else 0xF0), t[1]);
      if |t| >= 3 {
        AppendSplits(a, t[2]);
        if |t| == 4 {
          AppendSplits(Append(a, t[2]), t[3]);
        }
      }
    }
  }

  lemma DecodeEncode(c: int)
    requires IsScalar(c)
    ensures Decode(Encode(c)) == c
  {
    SplitAppends(c);
    SplitAppends(c / 64);
    SplitAppends(c / 64 / 64);
  }

  // -------------------------------------------------------------- the unique split

  /** Two well-formed sequences at the head of one string are the same. */
  lemma PrefixFree(a: seq<Byte>, b: seq<Byte>, s: seq<Byte>)
    requires IsUtf8Char(a) && IsUtf8Char(b) && a <= s && b <= s
    ensures a == b
  {
    assert a[0] == s[0] == b[0];
    assert |a| == |b|;
    assert a == s[..|a|] == b;
  }

  lemma SplitFirst(s: seq<Byte>, parts: seq<seq<Byte>>)
    requires IsSplit(s, parts)
    ensures parts == [] <==> s == []
    ensures parts != [] ==> IsUtf8Char(parts[0]) && parts[0] <= s && IsSplit(s[|parts[0]|..], parts[1..])
  {
  }

  /** A string splits into well-formed sequences in one way only. */
  lemma {:induction false} SplitUnique(s: seq<Byte>, p: seq<seq<Byte>>, q: seq<seq<Byte>>)
    requires IsSplit(s, p) && IsSplit(s, q)
    ensures p == q
    decreases |p|
  {
    SplitFirst(s, p);
    SplitFirst(s, q);
    if p != [] {
      PrefixFree(p[0], q[0], s);
      SplitUnique(s[|p[0]|..], p[1..], q[1..]);
      assert p == [p[0]] + p[1..] && q == [q[0]] + q[1..];
    }
  }

  ghost predicate AllScalars(cs: seq<int>) {
    forall i :: 0 <= i < |cs| ==> IsScalar(cs[i])
  }

  function EncodeEach(cs: seq<int>): (parts: seq<seq<Byte>>)
    requires AllScalars(cs)
    ensures |parts| == |cs| && forall i :: 0 <= i < |cs| ==> parts[i] == Encode(cs[i])
  {
    seq(|cs|, i requires 0 <= i < |cs| => Encode(cs[i]))
  }

  /** Well-formed means: the encoding of some scalar values. */
  lemma WellFormedIsEncoded(s: seq<Byte>)
    ensures WellFormed(s) <==> exists cs :: AllScalars(cs) && Concat(EncodeEach(cs)) == s
  {
    if cs :| AllScalars(cs) && Concat(EncodeEach(cs)) == s {
      assert IsSplit(s, EncodeEach(cs));
    }
    if parts :| IsSplit(s, parts) {
      var cs := seq(|parts|, i requires 0 <= i < |parts| => Decode(parts[i]));
      forall i | 0 <= i < |parts| ensures Encode(cs[i]) == parts[i] {
        EncodeDecode(parts[i]);
      }
      assert EncodeEach(cs) == parts;
    }
  }

  /** Different scalar values never share an encoding. */
  lemma EncodedOnce(cs: seq<int>, ds: seq<int>)
    requires AllScalars(cs) && AllScalars(ds) && Concat(EncodeEach(cs)) == Concat(EncodeEach(ds))
    ensures cs == ds
  {
    var p, q := EncodeEach(cs), EncodeEach(ds);
    SplitUnique(Concat(p), p, q);
    forall i | 0 <= i < |cs| ensures cs[i] == ds[i] {
      assert p[i] == Encode(cs[i]) && q[i] == Encode(ds[i]);
      DecodeEncode(cs[i]);
      DecodeEncode(ds[i]);
    }
  }

  lemma SplitHead(s: seq<Byte>, n: nat)
    requires n <= |s| && IsUtf8Char(s[..n])
    ensures WellFormed(s) <==> WellFormed(s[n..])
  {
    if parts :| IsSplit(s[n..], parts) {
      var all := [s[..n]] + parts;
      assert all[1..] == parts;
      assert IsSplit(s, all);
    }
    if parts :| IsSplit(s, parts) {
      SplitFirst(s, parts);
      PrefixFree(s[..n], parts[0], s);
    }
  }

  lemma EmptyWellFormed()
    ensures WellFormed([])
  {
    assert IsSplit([], []);
  }

  /** The recogniser; every index it reads is below the length. */
  method IsValidUTF8(s: seq<Byte>) returns (ok: bool)
    ensures ok <==> WellFormed(s)
  {
    var i: nat := 0;
    assert s[0..] == s;
    while i < |s|
      invariant i <= |s|
      invariant WellFormed(s) <==> WellFormed(s[i..])
    {
      ghost var rest := s[i..];
      var lead := s[i];
      i := i + 1;
      ghost var n: nat;
      if lead <= 0x7F {
        n := 1;
      } else if lead < 0xC2 {
        if WellFormed(rest) { HeadNeeded(rest); }
        return false;
      } else if lead <= 0xDF && i + 1 <= |s| && IsUTF8TrailByte(s[i]) {
        n := 2;
        i := i + 1;
      } else if 0xE0 <= lead <= 0xEF && i + 2 <= |s| && IsUTF8TrailByte(s[i]) && IsUTF8TrailByte(s[i + 1])
                && (lead != 0xE0 || s[i] >= 0xA0) && (lead != 0xED || s[i] < 0xA0) {
        n := 3;
        i := i + 2;
      } else if 0xF0 <= lead <= 0xF4 && i + 3 <= |s| && IsUTF8TrailByte(s[i]) && IsUTF8TrailByte(s[i + 1])
                && IsUTF8TrailByte(s[i + 2]) && (lead != 0xF0 || s[i] >= 0x90) && (lead != 0xF4 || s[i] < 0x90) {
        n := 4;
        i := i + 3;
      } else {
        if WellFormed(rest) { HeadNeeded(rest); }
        return false;
      }
      SplitHead(rest, n);
      assert rest[n..] == s[i..];
    }
    assert s[i..] == [];
    EmptyWellFormed();
    return true;
  }

  /** What the head of a string must look like, read byte by byte. */
  predicate HeadOk(s: seq<Byte>)
    requires s != []
  {
    var lead := s[0];
    || lead <= 0x7F
    || (0xC2 <= lead <= 0xDF && |s| >= 2 && IsUTF8TrailByte(s[1]))
    || (0xE0 <= lead <= 0xEF && |s| >= 3 && IsUTF8TrailByte(s[1]) && IsUTF8TrailByte(s[2])
        && (lead != 0xE0 || s[1] >= 0xA0) && (lead != 0xED || s[1] < 0xA0))
    || (0xF0 <= lead <= 0xF4 && |s| >= 4 && IsUTF8TrailByte(s[1]) && IsUTF8TrailByte(s[2]) && IsUTF8TrailByte(s[3])
        && (lead != 0xF0 || s[1] >= 0x90) && (lead != 0xF4 || s[1] < 0x90))
  }

  lemma HeadNeeded(s: seq<Byte>)
    requires s != [] && WellFormed(s)
    ensures HeadOk(s)
  {
    var parts :| IsSplit(s, parts);
    SplitFirst(s, parts);
    assert parts[0] == s[..|parts[0]|];
  }
}
