/** Percent-encoding of file paths for `file://` links, and the decoder used for labels. */
module Percent {
  import opened Prelude

  // ----- UTF-8, as section 4 of RFC 3629 defines it

  predicate Continuation(b: Byte) { 0x80 <= b <= 0xBF }

  /** The length of the well-formed sequence that `s` begins with, or 0. */
  function SequenceLength(s: Bytes): (n: nat)
    ensures n <= |s|
  {
    if s == [] then 0
    else if s[0] < 0x80 then 1
    else if 0xC2 <= s[0] <= 0xDF then if |s| >= 2 && Continuation(s[1]) then 2 else 0
    else if 0xE0 <= s[0] <= 0xEF then
      if |s| >= 3 && Continuation(s[1]) && Continuation(s[2])
         && (s[0] == 0xE0 ==> 0xA0 <= s[1]) && (s[0] == 0xED ==> s[1] <= 0x9F) then 3 else 0
    else if 0xF0 <= s[0] <= 0xF4 then
      if |s| >= 4 && Continuation(s[1]) && Continuation(s[2]) && Continuation(s[3])
         && (s[0] == 0xF0 ==> 0x90 <= s[1]) && (s[0] == 0xF4 ==> s[1] <= 0x8F) then 4 else 0
    else 0
  }

  predicate IsUtf8(s: Bytes)
    decreases |s|
  {
    s == [] || (SequenceLength(s) > 0 && IsUtf8(s[SequenceLength(s)..]))
  }

  predicate IsScalar(u: nat) { u < 0xD800 || 0xE000 <= u <= 0x10FFFF }

  /** Section 3 of RFC 3629: how a character is written. */
  function Utf8Of(u: nat): Bytes
    requires IsScalar(u)
  {
    if u < 0x80 then [u]
    else if u < 0x800 then [0xC0 + u / 64, Follower(u)]
    else if u < 0x1_0000 then [0xE0 + u / 4096, Follower(u / 64), Follower(u)]
    else [0xF0 + u / 262144, Follower(u / 4096), Follower(u / 64), Follower(u)]
  }

  /** The six low bits, in a byte that begins no sequence. */
  function Follower(u: nat): Byte { 0x80 + u % 64 }

  predicate AllScalars(text: seq<nat>) { forall i :: 0 <= i < |text| ==> IsScalar(text[i]) }

  function Utf8(text: seq<nat>): Bytes
    requires AllScalars(text)
  {
    if text == [] then [] else Utf8Of(text[0]) + Utf8(text[1..])
  }

  lemma ScalarIsSequence(u: nat, s: Bytes)
    requires IsScalar(u)
    ensures SequenceLength(Utf8Of(u) + s) == |Utf8Of(u)|
  {
  }

  /** The bits of a byte that follows. */
  function Bits(b: Byte): (n: nat)
    ensures n < 64 && (Continuation(b) ==> b == 0x80 + n)
  {
    if Continuation(b) then b - 0x80 else 0
  }

  lemma SixBits(u: nat, n: nat)
    requires n < 64
    ensures Follower(64 * u + n) == 0x80 + n && (64 * u + n) / 64 == u
    ensures (64 * u + n) / 4096 == u / 64 && (64 * u + n) / 262144 == u / 4096
  {
  }

  lemma SequenceIsScalar(s: Bytes) returns (u: nat)
    requires SequenceLength(s) > 0
    ensures IsScalar(u) && Utf8Of(u) == s[..SequenceLength(s)]
  {
    var n, first := SequenceLength(s), s[0] as int;
    if n == 1 {
      u := first;
    } else if n == 2 {
      u := 64 * (first - 0xC0) + Bits(s[1]);
      SixBits(first - 0xC0, Bits(s[1]));
    } else if n == 3 {
      var high := 64 * (first - 0xE0) + Bits(s[1]);
      u := 64 * high + Bits(s[2]);
      SixBits(first - 0xE0, Bits(s[1]));
      SixBits(high, Bits(s[2]));
    } else {
      u := FourBytes(s);
    }
  }

  lemma FourBytes(s: Bytes) returns (u: nat)
    requires SequenceLength(s) == 4
    ensures IsScalar(u) && Utf8Of(u) == s[..4]
  {
    var first := s[0] as int;
    var high := 64 * (first - 0xF0) + Bits(s[1]);
    var middle := 64 * high + Bits(s[2]);
    u := 64 * middle + Bits(s[3]);
    SixBits(first - 0xF0, Bits(s[1]));
    SixBits(high, Bits(s[2]));
    SixBits(middle, Bits(s[3]));
  }

  /** The valid texts are the sequences of characters. */
  lemma Utf8Iff(s: Bytes)
    ensures IsUtf8(s) <==> exists text :: AllScalars(text) && s == Utf8(text)
  {
    if IsUtf8(s) {
      var text := CharactersOf(s);
    }
    if text :| AllScalars(text) && s == Utf8(text) {
      CharactersAreUtf8(text);
    }
  }

  lemma {:induction false} CharactersAreUtf8(text: seq<nat>)
    requires AllScalars(text)
    ensures IsUtf8(Utf8(text))
  {
    if text != [] {
      ScalarIsSequence(text[0], Utf8(text[1..]));
      CharactersAreUtf8(text[1..]);
      assert Utf8(text)[|Utf8Of(text[0])|..] == Utf8(text[1..]);
    }
  }

  lemma {:induction false} CharactersOf(s: Bytes) returns (text: seq<nat>)
    requires IsUtf8(s)
    ensures AllScalars(text) && s == Utf8(text)
    decreases |s|
  {
    if s == [] {
      text := [];
    } else {
      var n := SequenceLength(s);
      var u := SequenceIsScalar(s);
      var more := CharactersOf(s[n..]);
      Utf8Cons(u, more);
      text := [u] + more;
      assert s == s[..n] + s[n..];
    }
  }

  lemma Utf8Cons(u: nat, more: seq<nat>)
    requires IsScalar(u) && AllScalars(more)
    ensures AllScalars([u] + more) && Utf8([u] + more) == Utf8Of(u) + Utf8(more)
  {
    assert ([u] + more)[1..] == more;
  }

  /** What is assumed of `from_utf8_lossy`: valid text is left alone. */
  ghost predicate KeepsUtf8(lossy: Bytes -> Bytes) {
    forall s :: IsUtf8(s) ==> lossy(s) == s
  }

  lemma {:induction false} AsciiIsUtf8(s: Bytes)
    requires forall i :: 0 <= i < |s| ==> s[i] < 0x80
    ensures IsUtf8(s)
  {
    if s != [] {
      AsciiIsUtf8(s[1..]);
    }
  }

  // ----- encoding

  predicate Digit(b: Byte) { 48 <= b <= 57 }

  predicate Alphanumeric(b: Byte) { Digit(b) || 65 <= b <= 90 || 97 <= b <= 122 }

  /** '/', and the unreserved characters of section 2.3 of RFC 3986. */
  predicate Unescaped(b: Byte) {
    Alphanumeric(b) || b == 47 || b == 45 || b == 46 || b == 95 || b == 126
  }

  function UpperHex(d: nat): (b: Byte)
    requires d < 16
    ensures HexValue(b) == Some(d) && (Digit(b) || 65 <= b <= 70)
  {
    if d < 10 then 48 + d else 55 + d
  }

  function EncodeByte(b: Byte): Bytes {
    if Unescaped(b) then [b] else [37, UpperHex(b / 16), UpperHex(b % 16)]
  }

  function Encode(path: Bytes): Bytes {
    if path == [] then [] else EncodeByte(path[0]) + Encode(path[1..])
  }

  lemma {:induction false} EncodeAppend(a: Bytes, b: Bytes)
    ensures Encode(a + b) == Encode(a) + Encode(b)
  {
    if a == [] {
      assert a + b == b;
    } else {
      assert (a + b)[1..] == a[1..] + b;
      EncodeAppend(a[1..], b);
    }
  }

  method FileUriPath(path: Bytes) returns (encoded: Bytes)
    ensures encoded == Encode(path)
  {
    encoded := [];
    for i := 0 to |path|
      invariant encoded == Encode(path[..i])
    {
      assert path[..i + 1] == path[..i] + [path[i]];
      EncodeAppend(path[..i], [path[i]]);
      assert Encode([path[i]]) == EncodeByte(path[i]);
      if Unescaped(path[i]) {
        encoded := encoded + [path[i]];
      } else {
        encoded := encoded + [37];
        encoded := encoded + [UpperHex(path[i] / 16), UpperHex(path[i] % 16)];
      }
    }
    assert path[..|path|] == path;
  }

  // ----- decoding

  function HexValue(b: Byte): (r: Option<nat>)
    ensures r.Some? ==> r.value < 16
  {
    if Digit(b) then Some(b - 48)
    else if 65 <= b <= 70 then Some(b - 55)
    else if 97 <= b <= 102 then Some(b - 87)
    else None
  }

  /** `u8::from_str_radix` on two characters in base 16: two digits, or a plus sign and one digit. */
  function ParseHexPair(a: Byte, b: Byte): Option<Byte> {
    match (HexValue(a), HexValue(b))
    case (Some(h), Some(l)) => Some(HexByte(h, l))
    case (None, Some(l)) => if a == 43 then Some(HexByte(0, l)) else None
    case _ => None
  }

  function HexByte(h: nat, l: nat): Byte
    requires h < 16 && l < 16
  {
    16 * h + l
  }

  function DecodeBytes(input: Bytes): Bytes
    decreases |input|
  {
    if input == [] then []
    else if input[0] == 37 && |input| > 2 && ParseHexPair(input[1], input[2]).Some? then
      [ParseHexPair(input[1], input[2]).value] + DecodeBytes(input[3..])
    else [input[0]] + DecodeBytes(input[1..])
  }

  function Decode(lossy: Bytes -> Bytes, s: Bytes): Bytes { lossy(DecodeBytes(s)) }

  /** The escape at `i`, if there is one. */
  function EscapeAt(s: Bytes, i: nat): Option<Byte>
    requires i < |s|
  {
    if s[i] == 37 && i + 2 < |s| then ParseHexPair(s[i + 1], s[i + 2]) else None
  }

  lemma DecodeAt(s: Bytes, i: nat)
    requires i < |s|
    ensures match EscapeAt(s, i)
            case Some(b) => i + 3 <= |s| && DecodeBytes(s[i..]) == [b] + DecodeBytes(s[i + 3..])
            case None => DecodeBytes(s[i..]) == [s[i]] + DecodeBytes(s[i + 1..])
  {
    var rest := s[i..];
    assert rest[1..] == s[i + 1..];
    if |rest| > 2 {
      assert rest[3..] == s[i + 3..];
    }
  }

  method PercentDecode(lossy: Bytes -> Bytes, s: Bytes) returns (decoded: Bytes)
    ensures decoded == Decode(lossy, s)
  {
    var bytes: Bytes := [];
    var i := 0;
    while i < |s|
      invariant 0 <= i <= |s|
      invariant bytes + DecodeBytes(s[i..]) == DecodeBytes(s)
    {
      DecodeAt(s, i);
      ghost var before := bytes;
      if s[i] == 37 && i + 2 < |s| {
        var pair := ParseHexPair(s[i + 1], s[i + 2]);
        if pair.Some? {
          bytes := bytes + [pair.value];
          i := i + 3;
          Reassociate(before, [pair.value], DecodeBytes(s[i..]));
          continue;
        }
      }
      bytes := bytes + [s[i]];
      i := i + 1;
      Reassociate(before, [s[i - 1]], DecodeBytes(s[i..]));
    }
    assert s[i..] == [] && bytes == DecodeBytes(s);
    decoded := lossy(bytes);
  }

  lemma Reassociate(a: Bytes, b: Bytes, c: Bytes)
    ensures a + (b + c) == (a + b) + c
  {
  }

  // ----- the round trip

  lemma DecodeEncodedByte(b: Byte, rest: Bytes)
    ensures DecodeBytes(EncodeByte(b) + rest) == [b] + DecodeBytes(rest)
  {
    var s := EncodeByte(b) + rest;
    if Unescaped(b) {
      assert s[1..] == rest;
    } else {
      assert s[3..] == rest;
      assert 16 * (b / 16) + b % 16 == b;
    }
  }

  lemma {:induction false} DecodeBytesInverts(path: Bytes, rest: Bytes)
    ensures DecodeBytes(Encode(path) + rest) == path + DecodeBytes(rest)
  {
    if path == [] {
      assert Encode(path) + rest == rest;
    } else {
      assert Encode(path) + rest == EncodeByte(path[0]) + (Encode(path[1..]) + rest);
      DecodeEncodedByte(path[0], Encode(path[1..]) + rest);
      DecodeBytesInverts(path[1..], rest);
    }
  }

  /** Decoding undoes encoding on every string. */
  lemma DecodeInvertsEncode(lossy: Bytes -> Bytes, path: Bytes)
    requires KeepsUtf8(lossy) && IsUtf8(path)
    ensures Decode(lossy, Encode(path)) == path
  {
    DecodeBytesInverts(path, []);
    assert Encode(path) + [] == Encode(path) && path + DecodeBytes([]) == path;
  }

  /** Hence different paths have different links, valid text or not. */
  lemma EncodeInjective(p: Bytes, q: Bytes)
    requires Encode(p) == Encode(q)
    ensures p == q
  {
    DecodeBytesInverts(p, []);
    DecodeBytesInverts(q, []);
    assert Encode(p) + [] == Encode(p) && Encode(q) + [] == Encode(q);
    assert p + DecodeBytes([]) == p && q + DecodeBytes([]) == q;
  }

  // ----- the shape of the output

  predicate UpperHexDigit(b: Byte) { Digit(b) || 65 <= b <= 70 }

  /** Unreserved characters and '/', and triplets of a percent sign and two upper-case hexadecimal
      digits, as section 2.1 of RFC 3986 asks. */
  predicate UriPath(s: Bytes)
    decreases |s|
  {
    s == [] ||
    (if s[0] == 37 then |s| >= 3 && UpperHexDigit(s[1]) && UpperHexDigit(s[2]) && UriPath(s[3..])
     else Unescaped(s[0]) && UriPath(s[1..]))
  }

  lemma {:induction false} EncodeIsUriPath(path: Bytes)
    ensures UriPath(Encode(path))
    ensures forall i :: 0 <= i < |Encode(path)| ==> Encode(path)[i] == 37 || Unescaped(Encode(path)[i])
  {
    if path != [] {
      EncodeIsUriPath(path[1..]);
      var s, e := Encode(path), EncodeByte(path[0]);
      assert s[|e|..] == Encode(path[1..]);
      forall i | 0 <= i < |s| ensures s[i] == 37 || Unescaped(s[i]) {
        assert s[i] == if i < |e| then e[i] else Encode(path[1..])[i - |e|];
      }
    }
  }

  // ----- nothing is escaped needlessly

  const UPPER_HEX: string := "0123456789ABCDEF"

  const LOWER_HEX: string := "0123456789abcdef"

  /** Letters, digits, '-', '.', '_', '~' and '/'. */
  predicate IsPlain(b: Byte) {
    || 'a' as int <= b <= 'z' as int || 'A' as int <= b <= 'Z' as int || '0' as int <= b <= '9' as int
    || b == '-' as int || b == '.' as int || b == '_' as int || b == '~' as int || b == '/' as int
  }

  /** Just these are left alone. */
  lemma UnescapedIff(b: Byte)
    ensures Unescaped(b) <==> IsPlain(b)
  {
  }

  /** A path of such bytes is its own encoding. */
  lemma {:induction false} PlainPathsStay(path: Bytes)
    requires forall b :: b in path ==> IsPlain(b)
    ensures Encode(path) == path
  {
    if path != [] {
      assert path[0] in path && forall b :: b in path[1..] ==> b in path;
      UnescapedIff(path[0]);
      PlainPathsStay(path[1..]);
    }
  }

  /** Any other byte is a percent sign and two upper-case digits. */
  lemma OthersAreEscaped(b: Byte, rest: Bytes)
    requires !IsPlain(b)
    ensures Encode([b] + rest)
         == [37, UPPER_HEX[b / 16] as int, UPPER_HEX[b % 16] as int] + Encode(rest)
  {
    UnescapedIff(b);
    UpperHexDigits(b / 16);
    UpperHexDigits(b % 16);
    assert ([b] + rest)[1..] == rest;
  }

  lemma UpperHexDigits(d: nat)
    requires d < 16
    ensures UpperHex(d) == UPPER_HEX[d] as int
  {
  }

  /** Of all ways to write a path as a link, the encoding is the shortest, and the only one of its
      length. */
  lemma {:induction false} EncodeIsShortest(s: Bytes)
    requires UriPath(s)
    ensures |Encode(DecodeBytes(s))| <= |s|
    ensures |Encode(DecodeBytes(s))| == |s| ==> Encode(DecodeBytes(s)) == s
    decreases |s|
  {
    if s != [] {
      var path := DecodeBytes(s);
      if s[0] == 37 {
        EncodeIsShortest(s[3..]);
        var h, l := HexValue(s[1]).value, HexValue(s[2]).value;
        assert path == [16 * h + l] + DecodeBytes(s[3..]) && path[1..] == DecodeBytes(s[3..]);
        TripletIsEscape(s[1], s[2]);
        assert s == [37, s[1], s[2]] + s[3..];
      } else {
        EncodeIsShortest(s[1..]);
        assert path == [s[0]] + DecodeBytes(s[1..]) && path[1..] == DecodeBytes(s[1..]);
        assert s == [s[0]] + s[1..];
      }
    }
  }

  lemma TripletIsEscape(x: Byte, y: Byte)
    requires UpperHexDigit(x) && UpperHexDigit(y)
    ensures HexValue(x).Some? && HexValue(y).Some?
    ensures var b: Byte := HexByte(HexValue(x).value, HexValue(y).value);
            EncodeByte(b) == if Unescaped(b) then [b] else [37, x, y]
  {
    var h, l := HexValue(x).value, HexValue(y).value;
    assert (16 * h + l) / 16 == h && (16 * h + l) % 16 == l;
  }

  // ----- what is decoded

  /** The byte is this hexadecimal digit, in either case. */
  predicate IsHexDigit(b: Byte, d: nat) {
    d < 16 && (b == UPPER_HEX[d] as int || b == LOWER_HEX[d] as int)
  }

  lemma HexValueIff(b: Byte, d: nat)
    ensures HexValue(b) == Some(d) <==> IsHexDigit(b, d)
  {
  }

  /** A percent sign and two hexadecimal digits, of either case, stand for one byte. */
  lemma TripletIsDecoded(x: Byte, y: Byte, h: nat, l: nat, rest: Bytes)
    requires IsHexDigit(x, h) && IsHexDigit(y, l)
    ensures DecodeBytes([37, x, y] + rest) == [(16 * h + l) as Byte] + DecodeBytes(rest)
  {
    HexValueIff(x, h);
    HexValueIff(y, l);
    assert ([37, x, y] + rest)[3..] == rest;
  }

  /** The library also reads a plus sign and a digit as one. */
  lemma PlusIsDecoded(y: Byte, l: nat, rest: Bytes)
    requires IsHexDigit(y, l)
    ensures DecodeBytes([37, 43, y] + rest) == [l as Byte] + DecodeBytes(rest)
  {
    HexValueIff(y, l);
    assert ([37, 43, y] + rest)[3..] == rest;
  }

  /** Two bytes that may follow a percent sign. */
  ghost predicate IsHexPair(x: Byte, y: Byte) {
    (exists l :: IsHexDigit(y, l)) && (x == 43 || exists h :: IsHexDigit(x, h))
  }

  /** Everything else stands for itself, a percent sign too. */
  lemma OthersStandForThemselves(s: Bytes)
    requires s != [] && (s[0] == 37 && |s| > 2 ==> !IsHexPair(s[1], s[2]))
    ensures DecodeBytes(s) == [s[0]] + DecodeBytes(s[1..])
  {
    if s[0] == 37 && |s| > 2 && ParseHexPair(s[1], s[2]).Some? {
      HexValueIff(s[2], HexValue(s[2]).value);
      if s[1] != 43 {
        HexValueIff(s[1], HexValue(s[1]).value);
      }
    }
  }
}
