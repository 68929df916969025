/** The two byte-to-text encodings the client applies to payloads:
    PHP's rawurlencode() (percent-encoding as in section 2.1 of RFC 3986,
    leaving the unreserved set of section 2.3 untouched) and base64_encode()
    (the base 64 alphabet of section 4 of RFC 4648, with '=' padding).
    Each comes with the matching decoder and the round trip between them. */
module Encoding {
  import opened Text

  // ---------------------------------------------------------------------
  // Percent-encoding

  /** The unreserved characters of RFC 3986, section 2.3:
      ALPHA / DIGIT / "-" / "." / "_" / "~". */
  predicate IsUnreserved(c: Octet) {
    ('A' <= c <= 'Z') || ('a' <= c <= 'z') || ('0' <= c <= '9')
    || c == '-' || c == '.' || c == '_' || c == '~'
  }

  predicate IsUpperHex(c: Octet) {
    ('0' <= c <= '9') || ('A' <= c <= 'F')
  }

  /** The upper-case hexadecimal digit for d, as rawurlencode() writes it. */
  function HexDigit(d: nat): (c: Octet)
    requires d < 16
    ensures IsUpperHex(c) && IsUnreserved(c)
    ensures HexValue(c) == d
  {
    if d < 10 then ('0' as int + d) as char else ('A' as int + d - 10) as char
  }

  function HexValue(c: Octet): nat
    requires IsUpperHex(c)
  {
    if '0' <= c <= '9' then c as int - '0' as int else c as int - 'A' as int + 10
  }

  /** One byte as rawurlencode() writes it: itself when unreserved, else
      '%' and two upper-case hex digits. */
  function EncodeByte(c: Octet): (r: Bytes)
    ensures IsUnreserved(c) ==> r == [c]
    ensures !IsUnreserved(c) ==> |r| == 3 && r[0] == '%'
                                 && IsUpperHex(r[1]) && IsUpperHex(r[2])
                                 && HexValue(r[1]) * 16 + HexValue(r[2]) == c as int
  {
    if IsUnreserved(c) then [c] else ['%', HexDigit(c as int / 16), HexDigit(c as int % 16)]
  }

  /** PHP rawurlencode(). */
  function RawUrlEncode(s: Bytes): (r: Bytes)
    ensures |r| >= |s|
    ensures forall i :: 0 <= i < |r| ==> IsUnreserved(r[i]) || r[i] == '%'
  {
    if s == [] then [] else EncodeByte(s[0]) + RawUrlEncode(s[1..])
  }

  /** Percent-decoding of RFC 3986, section 2.1: fails on a '%' that is not
      followed by two upper-case hex digits. */
  function PercentDecode(t: Bytes): Option<Bytes>
    decreases |t|
  {
    if t == [] then Some([])
    else if t[0] != '%' then
      match PercentDecode(t[1..])
      case Some(rest) => Some([t[0]] + rest)
      case None => None
    else if |t| >= 3 && IsUpperHex(t[1]) && IsUpperHex(t[2]) then
      match PercentDecode(t[3..])
      case Some(rest) => Some([(HexValue(t[1]) * 16 + HexValue(t[2])) as char] + rest)
      case None => None
    else None
  }

  /** Decoding what rawurlencode() produced gives back the input. */
  lemma {:induction false} RawUrlRoundTrip(s: Bytes)
    ensures PercentDecode(RawUrlEncode(s)) == Some(s)
  {
    if s != [] {
      var e := EncodeByte(s[0]);
      var rest := RawUrlEncode(s[1..]);
      RawUrlRoundTrip(s[1..]);
      var t := e + rest;
      if IsUnreserved(s[0]) {
        assert t[0] == s[0] && t[1..] == rest;
      } else {
        assert t[0] == '%' && t[1] == e[1] && t[2] == e[2] && t[3..] == rest;
      }
      assert [s[0]] + s[1..] == s;
    }
  }

  /** rawurlencode() maps distinct inputs to distinct outputs. */
  lemma RawUrlEncodeInjective(s: Bytes, t: Bytes)
    requires RawUrlEncode(s) == RawUrlEncode(t)
    ensures s == t
  {
    RawUrlRoundTrip(s);
    RawUrlRoundTrip(t);
  }

  // ---------------------------------------------------------------------
  // Base 64 (RFC 4648, section 4)

  /** The character for a 6-bit value in the base 64 alphabet. */
  function B64Digit(v: nat): (c: Octet)
    requires v < 64
    ensures B64Value(c) == Some(v)
  {
    if v < 26 then ('A' as int + v) as char
    else if v < 52 then ('a' as int + v - 26) as char
    else if v < 62 then ('0' as int + v - 52) as char
    else if v == 62 then '+'
    else '/'
  }

  /** The 6-bit value of an alphabet character; None for any other byte,
      the pad character '=' included. */
  function B64Value(c: Octet): (r: Option<nat>)
    ensures r.Some? ==> r.value < 64
    ensures c == '=' ==> r.None?
  {
    if 'A' <= c <= 'Z' then Some(c as int - 'A' as int)
    else if 'a' <= c <= 'z' then Some(c as int - 'a' as int + 26)
    else if '0' <= c <= '9' then Some(c as int - '0' as int + 52)
    else if c == '+' then Some(62)
    else if c == '/' then Some(63)
    else None
  }

  /** Three bytes as four alphabet characters. */
  function EncodeTriple(b0: Octet, b1: Octet, b2: Octet): Bytes {
    [B64Digit(b0 as int / 4),
     B64Digit((b0 as int % 4) * 16 + b1 as int / 16),
     B64Digit((b1 as int % 16) * 4 + b2 as int / 64),
     B64Digit(b2 as int % 64)]
  }

  /** PHP base64_encode(): whole groups of three bytes, then a final group of
      one or two bytes padded with '='. */
  function Base64(s: Bytes): (r: Bytes)
    ensures |r| == 4 * ((|s| + 2) / 3)
  {
    if |s| == 0 then []
    else if |s| == 1 then
      [B64Digit(s[0] as int / 4), B64Digit((s[0] as int % 4) * 16), '=', '=']
    else if |s| == 2 then
      [B64Digit(s[0] as int / 4), B64Digit((s[0] as int % 4) * 16 + s[1] as int / 16),
       B64Digit((s[1] as int % 16) * 4), '=']
    else EncodeTriple(s[0], s[1], s[2]) + Base64(s[3..])
  }

  /** One group of four characters back to one, two or three bytes; the pad
      character may only stand in the last one or two positions, and the
      bits a padded group does not use must be zero (section 3.5 of RFC 4648),
      so that every byte string has one encoding. */
  function DecodeQuad(q: Bytes): Option<Bytes>
    requires |q| == 4
  {
    match (B64Value(q[0]), B64Value(q[1]), B64Value(q[2]), B64Value(q[3]))
    case (Some(v0), Some(v1), Some(v2), Some(v3)) =>
      Some([(v0 * 4 + v1 / 16) as char, ((v1 % 16) * 16 + v2 / 4) as char, ((v2 % 4) * 64 + v3) as char])
    case (Some(v0), Some(v1), Some(v2), None) =>
      if q[3] == '=' && v2 % 4 == 0 then Some([(v0 * 4 + v1 / 16) as char, ((v1 % 16) * 16 + v2 / 4) as char]) else None
    case (Some(v0), Some(v1), None, None) =>
      if q[2] == '=' && q[3] == '=' && v1 % 16 == 0 then Some([(v0 * 4 + v1 / 16) as char]) else None
    case _ => None
  }

  /** Base 64 decoding: groups of four, only the last of which may be padded. */
  function Base64Decode(t: Bytes): Option<Bytes>
    decreases |t|
  {
    if t == [] then Some([])
    else if |t| < 4 then None
    else
      match DecodeQuad(t[..4])
      case None => None
      case Some(group) =>
        if |t| == 4 then Some(group)
        else if |group| < 3 then None
        else
          match Base64Decode(t[4..])
          case None => None
          case Some(rest) => Some(group + rest)
  }

  lemma TripleRoundTrip(b0: Octet, b1: Octet, b2: Octet)
    ensures DecodeQuad(EncodeTriple(b0, b1, b2)) == Some([b0, b1, b2])
  {
    var x, y, z := b0 as int, b1 as int, b2 as int;
    var v1 := (x % 4) * 16 + y / 16;
    var v2 := (y % 16) * 4 + z / 64;
    assert v1 / 16 == x % 4 && v1 % 16 == y / 16;
    assert v2 / 4 == y % 16 && v2 % 4 == z / 64;
    assert (x / 4) * 4 + v1 / 16 == x;
    assert (v1 % 16) * 16 + v2 / 4 == y;
    assert (v2 % 4) * 64 + z % 64 == z;
  }

  lemma PairRoundTrip(b0: Octet, b1: Octet)
    ensures Base64Decode(Base64([b0, b1])) == Some([b0, b1])
  {
    var x, y := b0 as int, b1 as int;
    var v1 := (x % 4) * 16 + y / 16;
    var v2 := (y % 16) * 4;
    assert v1 / 16 == x % 4 && v1 % 16 == y / 16;
    assert v2 / 4 == y % 16;
    assert (x / 4) * 4 + v1 / 16 == x;
    assert (v1 % 16) * 16 + v2 / 4 == y;
    var t := Base64([b0, b1]);
    assert t[..4] == t;
  }

  lemma SingleRoundTrip(b0: Octet)
    ensures Base64Decode(Base64([b0])) == Some([b0])
  {
    var x := b0 as int;
    assert ((x % 4) * 16) / 16 == x % 4;
    assert (x / 4) * 4 + x % 4 == x;
    var t := Base64([b0]);
    assert t[..4] == t;
  }

  /** A full leading group decodes independently of what follows it. */
  lemma DecodeFullGroup(head: Bytes, rest: Bytes, group: Bytes, r: Bytes)
    requires |head| == 4 && DecodeQuad(head) == Some(group) && |group| == 3
    requires Base64Decode(rest) == Some(r)
    ensures Base64Decode(head + rest) == Some(group + r)
  {
    var t := head + rest;
    assert t[..4] == head && t[4..] == rest;
    if rest == [] {
      assert t == head;
      assert r == [] && group + r == group;
    }
  }

  lemma SplitThree(s: Bytes)
    requires |s| >= 3
    ensures [s[0], s[1], s[2]] + s[3..] == s
  {
  }

  lemma Base64Unfold(s: Bytes)
    requires |s| >= 3
    ensures Base64(s) == EncodeTriple(s[0], s[1], s[2]) + Base64(s[3..])
  {
  }

  /** The inductive step: a leading group of three bytes. */
  lemma Base64Step(s: Bytes)
    requires |s| >= 3
    requires Base64Decode(Base64(s[3..])) == Some(s[3..])
    ensures Base64Decode(Base64(s)) == Some(s)
  {
    var head := EncodeTriple(s[0], s[1], s[2]);
    var triple := [s[0], s[1], s[2]];
    var rest := s[3..];
    SplitThree(s);
    Base64Unfold(s);
    TripleRoundTrip(s[0], s[1], s[2]);
    DecodeFullGroup(head, Base64(rest), triple, rest);
  }

  /** Decoding what base64_encode() produced gives back the input. */
  lemma {:induction false} Base64RoundTrip(s: Bytes)
    ensures Base64Decode(Base64(s)) == Some(s)
    decreases |s|
  {
    if |s| == 1 {
      SingleRoundTrip(s[0]);
      assert [s[0]] == s;
    } else if |s| == 2 {
      PairRoundTrip(s[0], s[1]);
      assert [s[0], s[1]] == s;
    } else if |s| >= 3 {
      Base64RoundTrip(s[3..]);
      Base64Step(s);
    }
  }

  /** The alphabet character of a 6-bit value is the one it was read from. */
  lemma DigitOfValue(c: Octet)
    requires B64Value(c).Some?
    ensures B64Digit(B64Value(c).value) == c
  {
  }

  /** The byte arithmetic of one group, read back: the 6-bit values that
      three decoded bytes re-encode to are the ones they were decoded from. */
  lemma GroupArithmetic(v0: nat, v1: nat, v2: nat, v3: nat)
    requires v0 < 64 && v1 < 64 && v2 < 64 && v3 < 64
    ensures var b0, b1, b2 := v0 * 4 + v1 / 16, (v1 % 16) * 16 + v2 / 4, (v2 % 4) * 64 + v3;
            b0 < 256 && b1 < 256 && b2 < 256
            && b0 / 4 == v0 && (b0 % 4) * 16 + b1 / 16 == v1
            && (b1 % 16) * 4 + b2 / 64 == v2 && b2 % 64 == v3
            && (v1 % 16 == 0 ==> (b0 % 4) * 16 == v1)
            && (v2 % 4 == 0 ==> (b1 % 16) * 4 == v2)
  {
  }

  /** A group of four alphabet characters is EncodeTriple of what it decodes to. */
  lemma FullQuadCanonical(q: Bytes)
    requires |q| == 4
    requires B64Value(q[0]).Some? && B64Value(q[1]).Some? && B64Value(q[2]).Some? && B64Value(q[3]).Some?
    ensures var v0, v1, v2, v3 := B64Value(q[0]).value, B64Value(q[1]).value, B64Value(q[2]).value, B64Value(q[3]).value;
            v0 * 4 + v1 / 16 < 256 && (v1 % 16) * 16 + v2 / 4 < 256 && (v2 % 4) * 64 + v3 < 256
            && q == EncodeTriple((v0 * 4 + v1 / 16) as char, ((v1 % 16) * 16 + v2 / 4) as char, ((v2 % 4) * 64 + v3) as char)
  {
    var v0, v1, v2, v3 := B64Value(q[0]).value, B64Value(q[1]).value, B64Value(q[2]).value, B64Value(q[3]).value;
    GroupArithmetic(v0, v1, v2, v3);
    DigitOfValue(q[0]);
    DigitOfValue(q[1]);
    DigitOfValue(q[2]);
    DigitOfValue(q[3]);
  }

  /** A group with one pad character and zero unused bits is base64_encode()
      of the two bytes it decodes to. */
  lemma PairQuadCanonical(q: Bytes)
    requires |q| == 4 && q[3] == '='
    requires B64Value(q[0]).Some? && B64Value(q[1]).Some? && B64Value(q[2]).Some?
    requires B64Value(q[2]).value % 4 == 0
    ensures var v0, v1, v2 := B64Value(q[0]).value, B64Value(q[1]).value, B64Value(q[2]).value;
            v0 * 4 + v1 / 16 < 256 && (v1 % 16) * 16 + v2 / 4 < 256
            && q == Base64([(v0 * 4 + v1 / 16) as char, ((v1 % 16) * 16 + v2 / 4) as char])
  {
    var v0, v1, v2 := B64Value(q[0]).value, B64Value(q[1]).value, B64Value(q[2]).value;
    GroupArithmetic(v0, v1, v2, 0);
    DigitOfValue(q[0]);
    DigitOfValue(q[1]);
    DigitOfValue(q[2]);
  }

  /** A group with two pad characters and zero unused bits is
      base64_encode() of the byte it decodes to. */
  lemma SingleQuadCanonical(q: Bytes)
    requires |q| == 4 && q[2] == '=' && q[3] == '='
    requires B64Value(q[0]).Some? && B64Value(q[1]).Some?
    requires B64Value(q[1]).value % 16 == 0
    ensures var v0, v1 := B64Value(q[0]).value, B64Value(q[1]).value;
            v0 * 4 + v1 / 16 < 256 && q == Base64([(v0 * 4 + v1 / 16) as char])
  {
    var v0, v1 := B64Value(q[0]).value, B64Value(q[1]).value;
    GroupArithmetic(v0, v1, 0, 0);
    DigitOfValue(q[0]);
    DigitOfValue(q[1]);
  }

  /** A group the decoder accepts is the one base64_encode() writes for
      the bytes it decodes to. */
  lemma QuadCanonical(q: Bytes, g: Bytes)
    requires |q| == 4 && DecodeQuad(q) == Some(g)
    ensures 1 <= |g| <= 3
    ensures |g| == 3 ==> q == EncodeTriple(g[0], g[1], g[2])
    ensures |g| < 3 ==> q == Base64(g)
  {
    if B64Value(q[3]).Some? {
      FullQuadCanonical(q);
    } else if B64Value(q[2]).Some? {
      PairQuadCanonical(q);
    } else {
      SingleQuadCanonical(q);
    }
  }

  /** The decoder accepts only base64_encode()'s own text: whatever decodes
      to s is Base64(s). With Base64RoundTrip, the encoding of a byte string
      is the one text that decodes to it. */
  lemma {:induction false} Base64Canonical(t: Bytes, s: Bytes)
    requires Base64Decode(t) == Some(s)
    ensures t == Base64(s)
    decreases |t|
  {
    if t != [] {
      var g := DecodeQuad(t[..4]).value;
      QuadCanonical(t[..4], g);
      if |t| == 4 {
        assert t == t[..4];
        if |g| == 3 {
          assert Base64(g) == EncodeTriple(g[0], g[1], g[2]) + Base64(g[3..]);
        }
      } else {
        var rest := Base64Decode(t[4..]).value;
        Base64Canonical(t[4..], rest);
        assert s == g + rest;
        Base64Unfold(s);
        assert s[3..] == rest && s[0] == g[0] && s[1] == g[1] && s[2] == g[2];
        assert t == t[..4] + t[4..];
      }
    }
  }

  /** Every character base64_encode() writes is in the alphabet or is '='. */
  lemma {:induction false} Base64Alphabet(s: Bytes)
    ensures forall i :: 0 <= i < |Base64(s)| ==> B64Value(Base64(s)[i]).Some? || Base64(s)[i] == '='
    decreases |s|
  {
    if |s| >= 3 {
      Base64Alphabet(s[3..]);
      var head := EncodeTriple(s[0], s[1], s[2]);
      assert Base64(s) == head + Base64(s[3..]);
    }
  }
}
