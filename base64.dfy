/**
 * The browser's `btoa` and `atob`: the base 64 encoding of section 4 of
 * RFC 4648 (alphabet A-Z a-z 0-9 + /, "=" padding) over strings whose
 * characters stand for bytes (code points 0 to 255, "Latin-1" strings),
 * and the forgiving decoder browsers use for `atob`.
 */
module Base64 {
  import opened Wrappers

  /** What `btoa`/`atob` throw on input they cannot handle. */
  datatype DomException = InvalidCharacterError

  predicate IsByte(v: int) { 0 <= v < 256 }

  predicate AllBytes(b: seq<int>) { forall i :: 0 <= i < |b| ==> IsByte(b[i]) }

  predicate AllSextets(v: seq<int>) { forall i :: 0 <= i < |v| ==> 0 <= v[i] < 64 }

  /** Every character of s is a byte, as `btoa` demands. */
  predicate IsLatin1(s: string) { forall i :: 0 <= i < |s| ==> s[i] as int < 256 }

  /** The code points of a string. */
  function CharCodes(s: string): (r: seq<int>)
    ensures |r| == |s| && forall i :: 0 <= i < |s| ==> r[i] == s[i] as int
  {
    seq(|s|, i requires 0 <= i < |s| => s[i] as int)
  }

  /** The string whose characters have the given byte values. */
  function FromCharCodes(b: seq<int>): (s: string)
    requires AllBytes(b)
    ensures |s| == |b| && forall i :: 0 <= i < |b| ==> s[i] as int == b[i]
    ensures IsLatin1(s)
  {
    seq(|b|, i requires 0 <= i < |b| => b[i] as char)
  }

  // ---------------------------------------------------------------------
  // The alphabet of section 4 of RFC 4648
  // ---------------------------------------------------------------------

  /** The character that stands for a 6-bit value. */
  function SextetChar(v: int): (c: char)
    requires 0 <= v < 64
    ensures SextetValue(c) == Some(v)
  {
    if v < 26 then ('A' as int + v) as char
    else if v < 52 then ('a' as int + v - 26) as char
    else if v < 62 then ('0' as int + v - 52) as char
    else if v == 62 then '+'
    else '/'
  }

  /** The 6-bit value a character of the alphabet stands for; None for any other character. */
  function SextetValue(c: char): (r: Option<int>)
    ensures r.Some? ==> 0 <= r.value < 64
  {
    if 'A' <= c <= 'Z' then Some(c as int - 'A' as int)
    else if 'a' <= c <= 'z' then Some(c as int - 'a' as int + 26)
    else if '0' <= c <= '9' then Some(c as int - '0' as int + 52)
    else if c == '+' then Some(62)
    else if c == '/' then Some(63)
    else None
  }

  predicate InAlphabet(s: string) { forall i :: 0 <= i < |s| ==> SextetValue(s[i]).Some? }

  // ---------------------------------------------------------------------
  // Encoding (btoa)
  // ---------------------------------------------------------------------

  /** The alphabet characters of the encoding, without padding: 4 per 3 bytes, then 2 or 3 for a short tail. */
  function EncodeGroups(b: seq<int>): (s: string)
    requires AllBytes(b)
    ensures InAlphabet(s)
  {
    if |b| == 0 then ""
    else if |b| == 1 then
      [SextetChar(b[0] / 4), SextetChar(b[0] % 4 * 16)]
    else if |b| == 2 then
      [SextetChar(b[0] / 4), SextetChar(b[0] % 4 * 16 + b[1] / 16), SextetChar(b[1] % 16 * 4)]
    else EncodeTriple(b[0], b[1], b[2]) + EncodeGroups(b[3..])
  }

  /** The four characters for three bytes: their 24 bits cut into four sextets, high bits first. */
  function EncodeTriple(b0: int, b1: int, b2: int): (s: string)
    requires IsByte(b0) && IsByte(b1) && IsByte(b2)
    ensures InAlphabet(s)
  {
    [SextetChar(b0 / 4), SextetChar(b0 % 4 * 16 + b1 / 16), SextetChar(b1 % 16 * 4 + b2 / 64), SextetChar(b2 % 64)]
  }

  /** The "=" characters that fill the last group up to 4 characters. */
  function Padding(byteCount: nat): string {
    if byteCount % 3 == 1 then "==" else if byteCount % 3 == 2 then "=" else ""
  }

  /** The padded encoding of a byte sequence. */
  function Encode(b: seq<int>): string
    requires AllBytes(b)
  {
    EncodeGroups(b) + Padding(|b|)
  }

  /** `btoa(s)`: throws when a character is not a byte. */
  function BtoA(s: string): Result<string, DomException> {
    if IsLatin1(s) then Success(Encode(CharCodes(s))) else Failure(InvalidCharacterError)
  }

  // ---------------------------------------------------------------------
  // Forgiving decoding (atob)
  // ---------------------------------------------------------------------

  /** TAB, LF, FF, CR and SPACE, which `atob` ignores. */
  predicate IsAsciiWhiteSpace(c: char) {
    c == '\t' || c == '\n' || c == '\U{000C}' || c == '\r' || c == ' '
  }

  function RemoveAsciiWhiteSpace(s: string): (r: string)
    ensures |r| <= |s|
  {
    if s == [] then []
    else if IsAsciiWhiteSpace(s[0]) then RemoveAsciiWhiteSpace(s[1..])
    else [s[0]] + RemoveAsciiWhiteSpace(s[1..])
  }

  /** Drops one or two trailing "=". */
  function StripPadding(s: string): string {
    if |s| >= 2 && s[|s| - 2] == '=' && s[|s| - 1] == '=' then s[..|s| - 2]
    else if |s| >= 1 && s[|s| - 1] == '=' then s[..|s| - 1]
    else s
  }

  /**
   * The bytes spelled by alphabet characters: 3 per 4 characters, 1 for a tail of 2,
   * 2 for a tail of 3; leftover bits are dropped. (A tail of 1 is refused by `AtoB`
   * before decoding.)
   */
  function DecodeGroups(s: string): (b: seq<int>)
    requires InAlphabet(s)
    ensures AllBytes(b)
  {
    if |s| <= 1 then []
    else
      var v0 := SextetValue(s[0]).value;
      var v1 := SextetValue(s[1]).value;
      if |s| == 2 then [v0 * 4 + v1 / 16]
      else
        var v2 := SextetValue(s[2]).value;
        if |s| == 3 then [v0 * 4 + v1 / 16, v1 % 16 * 16 + v2 / 4]
        else
          var v3 := SextetValue(s[3]).value;
          [v0 * 4 + v1 / 16, v1 % 16 * 16 + v2 / 4, v2 % 4 * 64 + v3] + DecodeGroups(s[4..])
  }

  /**
   * `atob(s)`: white space is dropped; when the length is then a multiple of 4,
   * one or two trailing "=" are dropped; a length of 1 modulo 4 or a character
   * outside the alphabet throws; otherwise the result holds one character per byte.
   */
  function AtoB(s: string): (r: Result<string, DomException>)
    ensures r.Success? ==> IsLatin1(r.value)
  {
    var d := RemoveAsciiWhiteSpace(s);
    var e := if |d| % 4 == 0 then StripPadding(d) else d;
    if |e| % 4 == 1 || !InAlphabet(e) then Failure(InvalidCharacterError)
    else Success(FromCharCodes(DecodeGroups(e)))
  }

  // ---------------------------------------------------------------------
  // Round trip
  // ---------------------------------------------------------------------

  /** Decoding the unpadded groups gives back the bytes. */
  lemma {:induction false} DecodeEncodeGroups(b: seq<int>)
    requires AllBytes(b)
    ensures DecodeGroups(EncodeGroups(b)) == b
  {
    if |b| >= 3 {
      var b0, b1, b2, rest := b[0], b[1], b[2], b[3..];
      assert b == [b0, b1, b2] + rest;
      var tail := EncodeGroups(rest);
      assert EncodeGroups(b) == EncodeTriple(b0, b1, b2) + tail;
      DecodeEncodeGroups(rest);
      DecodeTriple(b0, b1, b2, tail);
    } else {
      DecodeEncodeTail(b);
    }
  }

  /** A tail of one or two bytes, encoded in two or three characters, decodes back. */
  lemma {:induction false} DecodeEncodeTail(b: seq<int>)
    requires AllBytes(b) && |b| < 3
    ensures DecodeGroups(EncodeGroups(b)) == b
  {
    if |b| == 2 {
      var v0, v1, v2 := b[0] / 4, b[0] % 4 * 16 + b[1] / 16, b[1] % 16 * 4;
      assert EncodeGroups(b) == [SextetChar(v0), SextetChar(v1), SextetChar(v2)];
      DecodeThreeChars(v0, v1, v2);
      ShortGroupRoundTrip(b[0], b[1], v0, v1, v2);
      assert b == [b[0], b[1]];
    } else if |b| == 1 {
      var v0, v1 := b[0] / 4, b[0] % 4 * 16;
      assert EncodeGroups(b) == [SextetChar(v0), SextetChar(v1)];
      DecodeTwoChars(v0, v1);
      ShortGroupRoundTrip(b[0], 0, v0, v1, 0);
      assert b == [b[0]];
    }
  }

  /** Two alphabet characters decode to one byte. */
  lemma DecodeTwoChars(v0: int, v1: int)
    requires 0 <= v0 < 64 && 0 <= v1 < 64
    ensures DecodeGroups([SextetChar(v0), SextetChar(v1)]) == [v0 * 4 + v1 / 16]
  {
  }

  /** Three alphabet characters decode to two bytes. */
  lemma DecodeThreeChars(v0: int, v1: int, v2: int)
    requires 0 <= v0 < 64 && 0 <= v1 < 64 && 0 <= v2 < 64
    ensures DecodeGroups([SextetChar(v0), SextetChar(v1), SextetChar(v2)]) == [v0 * 4 + v1 / 16, v1 % 16 * 16 + v2 / 4]
  {
  }

  /** The four characters encoding three bytes, in front of more alphabet characters, decode to those bytes in front. */
  lemma DecodeTriple(b0: int, b1: int, b2: int, rest: string)
    requires IsByte(b0) && IsByte(b1) && IsByte(b2)
    requires InAlphabet(rest)
    ensures DecodeGroups(EncodeTriple(b0, b1, b2) + rest) == [b0, b1, b2] + DecodeGroups(rest)
  {
    var v0, v1, v2, v3 := b0 / 4, b0 % 4 * 16 + b1 / 16, b1 % 16 * 4 + b2 / 64, b2 % 64;
    DecodeQuad(v0, v1, v2, v3, rest);
    ByteGroupRoundTrip(b0, b1, b2, v0, v1, v2, v3);
  }

  /** Four alphabet characters in front of more alphabet characters decode to three bytes in front. */
  lemma DecodeQuad(v0: int, v1: int, v2: int, v3: int, rest: string)
    requires 0 <= v0 < 64 && 0 <= v1 < 64 && 0 <= v2 < 64 && 0 <= v3 < 64
    requires InAlphabet(rest)
    ensures var s := [SextetChar(v0), SextetChar(v1), SextetChar(v2), SextetChar(v3)] + rest;
      InAlphabet(s) && DecodeGroups(s) == [v0 * 4 + v1 / 16, v1 % 16 * 16 + v2 / 4, v2 % 4 * 64 + v3] + DecodeGroups(rest)
  {
    var s := [SextetChar(v0), SextetChar(v1), SextetChar(v2), SextetChar(v3)] + rest;
    assert s[4..] == rest;
  }

  /** The arithmetic of one group: three bytes split into four sextets and joined again. */
  lemma ByteGroupRoundTrip(b0: int, b1: int, b2: int, v0: int, v1: int, v2: int, v3: int)
    requires IsByte(b0) && IsByte(b1) && IsByte(b2)
    requires v0 == b0 / 4 && v1 == b0 % 4 * 16 + b1 / 16 && v2 == b1 % 16 * 4 + b2 / 64 && v3 == b2 % 64
    ensures v0 * 4 + v1 / 16 == b0
    ensures v1 % 16 * 16 + v2 / 4 == b1
    ensures v2 % 4 * 64 + v3 == b2
  {
  }

  /** The same for a tail of one or two bytes, whose last sextet carries zero bits. */
  lemma ShortGroupRoundTrip(b0: int, b1: int, v0: int, v1: int, v2: int)
    requires IsByte(b0) && IsByte(b1)
    requires v0 == b0 / 4 && v1 == b0 % 4 * 16 + b1 / 16 && v2 == b1 % 16 * 4
    ensures v0 * 4 + v1 / 16 == b0
    ensures v1 % 16 * 16 + v2 / 4 == b1
  {
  }

  lemma {:induction false} RemoveNoWhiteSpace(s: string)
    requires forall i :: 0 <= i < |s| ==> !IsAsciiWhiteSpace(s[i])
    ensures RemoveAsciiWhiteSpace(s) == s
  {
    if s != [] {
      RemoveNoWhiteSpace(s[1..]);
      assert [s[0]] + s[1..] == s;
    }
  }

  /** `atob` undoes `btoa` on every byte string. */
  lemma AtoBEncode(b: seq<int>)
    requires AllBytes(b)
    ensures AtoB(Encode(b)) == Success(FromCharCodes(b))
  {
    var g := EncodeGroups(b);
    var s := Encode(b);
    EncodeHasNoWhiteSpace(b);
    EncodeLengths(b);
    StripEncodePadding(b);
    DecodeEncodeGroups(b);
    var d := RemoveAsciiWhiteSpace(s);
    assert d == s;
    assert StripPadding(d) == g;
    assert !(|g| % 4 == 1 || !InAlphabet(g));
  }

  lemma EncodeHasNoWhiteSpace(b: seq<int>)
    requires AllBytes(b)
    ensures RemoveAsciiWhiteSpace(Encode(b)) == Encode(b)
  {
    var g := EncodeGroups(b);
    var s := Encode(b);
    forall i | 0 <= i < |s| ensures !IsAsciiWhiteSpace(s[i]) {
      if i < |g| {
        assert s[i] == g[i];
        assert SextetValue(s[i]).Some?;
      }
    }
    RemoveNoWhiteSpace(s);
  }

  /** The padded encoding has 4 characters per started group of 3 bytes. */
  lemma EncodeLengths(b: seq<int>)
    requires AllBytes(b)
    ensures |Encode(b)| == 4 * ((|b| + 2) / 3)
    ensures |Encode(b)| % 4 == 0
    ensures |EncodeGroups(b)| % 4 != 1
  {
    var n := |b|;
    var q, r := n / 3, n % 3;
    CeilThirds(n);
    EncodeGroupsLength(b);
    assert |Encode(b)| == |EncodeGroups(b)| + |Padding(n)|;
    var groups := |EncodeGroups(b)|;
    if r == 0 {
      assert groups == 4 * q + 0 && |Encode(b)| == 4 * q + 0;
      MultipleOfFour(q, 0);
    } else if r == 1 {
      assert groups == 4 * q + 2 && |Encode(b)| == 4 * (q + 1) + 0;
      MultipleOfFour(q + 1, 0);
      MultipleOfFour(q, 2);
    } else {
      assert groups == 4 * q + 3 && |Encode(b)| == 4 * (q + 1) + 0;
      MultipleOfFour(q + 1, 0);
      MultipleOfFour(q, 3);
    }
  }

  /** The number of started groups of 3. */
  lemma CeilThirds(n: nat)
    ensures (n + 2) / 3 == n / 3 + (if n % 3 == 0 then 0 else 1)
  {
  }

  lemma {:induction false} EncodeGroupsLength(b: seq<int>)
    requires AllBytes(b)
    ensures |EncodeGroups(b)| == 4 * (|b| / 3) + (if |b| % 3 == 0 then 0 else |b| % 3 + 1)
  {
    if |b| >= 3 {
      EncodeGroupsLength(b[3..]);
    }
  }

  lemma StripEncodePadding(b: seq<int>)
    requires AllBytes(b)
    ensures StripPadding(Encode(b)) == EncodeGroups(b)
  {
    var g := EncodeGroups(b);
    var s := Encode(b);
    if |b| % 3 == 1 {
      assert s[..|s| - 2] == g;
    } else if |b| % 3 == 2 {
      assert s[..|s| - 1] == g;
      assert SextetValue(s[|s| - 2]).Some?;
    } else {
      assert s == g;
      if |s| >= 1 { assert SextetValue(s[|s| - 1]).Some?; }
    }
  }

  lemma MultipleOfFour(k: nat, r: nat)
    requires r < 4
    ensures (4 * k + r) % 4 == r
  {
  }

  /** `atob(btoa(s))` is s for every string of bytes. */
  lemma BtoARoundTrip(s: string)
    requires IsLatin1(s)
    ensures BtoA(s).Success?
    ensures AtoB(BtoA(s).value) == Success(s)
  {
    AtoBEncode(CharCodes(s));
    assert FromCharCodes(CharCodes(s)) == s;
  }
}
