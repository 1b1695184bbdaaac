/** Percent-encoding of header values (section 2.1 of RFC 3986), as the
    `percent-encoding` crate does it: every byte that is not an ASCII letter or
    digit is written as `%` and two upper-case hexadecimal digits; decoding
    accepts both cases and leaves a `%` without two digits alone. */
module Percent {
  import opened Text
  import Utf8

  predicate Alphanumeric(c: char) {
    IsDigit(c) || 'A' <= c <= 'Z' || 'a' <= c <= 'z'
  }

  function HexDigit(d: nat): char
    requires d < 16
  {
    if d < 10 then ('0' as int + d) as char else ('A' as int + d - 10) as char
  }

  function HexValue(c: char): Option<nat> {
    if IsDigit(c) then Some(c as int - '0' as int)
    else if 'A' <= c <= 'F' then Some(c as int - 'A' as int + 10)
    else if 'a' <= c <= 'f' then Some(c as int - 'a' as int + 10)
    else None
  }

  function EncodeByte(c: char): Bytes {
    if Alphanumeric(c) then [c]
    else ['%', HexDigit(c as int / 16 % 16), HexDigit(c as int % 16)]
  }

  /** `percent_encode(_, NON_ALPHANUMERIC)`. */
  function Encode(s: Bytes): Bytes {
    if s == [] then [] else EncodeByte(s[0]) + Encode(s[1..])
  }

  predicate EscapeAt(s: Bytes) {
    |s| >= 3 && s[0] == '%' && HexValue(s[1]).Some? && HexValue(s[2]).Some?
  }

  /** `percent_decode`. */
  function Decode(s: Bytes): Bytes {
    if s == [] then []
    else if EscapeAt(s) then
      [(HexValue(s[1]).value * 16 + HexValue(s[2]).value) as char] + Decode(s[3..])
    else [s[0]] + Decode(s[1..])
  }

  /** A header value as both parsers read it: the decoded text, or the raw text
      when decoding does not give UTF-8. */
  function DecodeValue(raw: Bytes): Bytes {
    if Utf8.Valid(Decode(raw)) then Decode(raw) else raw
  }

  lemma DecodeOfByte(c: char, rest: Bytes)
    requires c as int < 0x100
    ensures Decode(EncodeByte(c) + rest) == [c] + Decode(rest)
  {
    var e := EncodeByte(c) + rest;
    if Alphanumeric(c) {
      assert e[1..] == rest;
    } else {
      var h, l := c as int / 16 % 16, c as int % 16;
      HexOfDigit(h);
      HexOfDigit(l);
      assert e[3..] == rest;
      assert h * 16 + l == c as int;
    }
  }

  lemma HexOfDigit(d: nat)
    requires d < 16
    ensures HexValue(HexDigit(d)) == Some(d)
  {
  }

  /** Decoding undoes encoding, for every byte string. */
  lemma {:induction false} DecodeOfEncode(s: Bytes)
    requires forall i | 0 <= i < |s| :: s[i] as int < 0x100
    ensures Decode(Encode(s)) == s
  {
    if s != [] {
      DecodeOfEncode(s[1..]);
      DecodeOfByte(s[0], Encode(s[1..]));
    }
  }

  lemma DecodeValueOfEncode(v: Bytes)
    requires Utf8.Valid(v)
    ensures DecodeValue(Encode(v)) == v
  {
    Utf8.ValidIsBytes(v);
    DecodeOfEncode(v);
  }

  /** Encoded text is letters, digits and `%`, and ends in a letter or digit. */
  lemma {:induction false} EncodeShape(s: Bytes)
    ensures forall i | 0 <= i < |Encode(s)| :: Alphanumeric(Encode(s)[i]) || Encode(s)[i] == '%'
    ensures s != [] ==> |Encode(s)| > 0 && Alphanumeric(Encode(s)[|Encode(s)| - 1])
  {
    if s != [] {
      EncodeShape(s[1..]);
    }
  }

  lemma {:induction false} DecodeWithoutPercent(s: Bytes)
    requires '%' !in s
    ensures Decode(s) == s
  {
    if s != [] {
      DecodeWithoutPercent(s[1..]);
      assert s == [s[0]] + s[1..];
    }
  }

  /** A value without `%` is read as it stands. */
  lemma DecodeValueWithoutPercent(s: Bytes)
    requires '%' !in s
    ensures DecodeValue(s) == s
  {
    DecodeWithoutPercent(s);
  }

  // ---- The notation ----

  const UPPER: Bytes := "0123456789ABCDEF"
  const LOWER: Bytes := "0123456789abcdef"

  /** The value of a digit of either case. */
  lemma HexDigits(i: nat)
    requires i < 16
    ensures HexValue(UPPER[i]) == HexValue(LOWER[i]) == Some(i) && HexDigit(i) == UPPER[i]
  {
  }

  predicate IsHex(c: char) {
    c in UPPER || c in LOWER
  }

  lemma HexExactly(c: char)
    ensures HexValue(c).Some? <==> IsHex(c)
  {
    if IsHex(c) {
      var i :| 0 <= i < 16 && (UPPER[i] == c || LOWER[i] == c);
      HexDigits(i);
    }
    if HexValue(c).Some? {
      var d := HexValue(c).value;
      assert c == UPPER[d] || c == LOWER[d];
    }
  }

  lemma Halves(h: nat, l: nat)
    requires h < 16 && l < 16
    ensures (h * 16 + l) / 16 % 16 == h && (h * 16 + l) % 16 == l && h * 16 + l < 0x100
  {
  }

  /** A letter or digit is written as it is, any other byte as `%` and two upper-case
      digits, the higher half first. */
  lemma EncodedByte(h: nat, l: nat, c: char)
    requires h < 16 && l < 16 && c as int == h * 16 + l
    ensures '0' <= c <= '9' || 'A' <= c <= 'Z' || 'a' <= c <= 'z' ==> EncodeByte(c) == [c]
    ensures !('0' <= c <= '9' || 'A' <= c <= 'Z' || 'a' <= c <= 'z') ==> EncodeByte(c) == ['%', UPPER[h], UPPER[l]]
  {
    Halves(h, l);
    HexDigits(h);
    HexDigits(l);
  }

  /** Two digits of either case behind a `%` are read as one byte. */
  lemma EscapeIsRead(h: nat, l: nat, x: char, y: char, rest: Bytes)
    requires h < 16 && l < 16 && x in {UPPER[h], LOWER[h]} && y in {UPPER[l], LOWER[l]}
    ensures Decode(['%', x, y] + rest) == [(h * 16 + l) as char] + Decode(rest)
  {
    HexDigits(h);
    HexDigits(l);
    assert (['%', x, y] + rest)[3..] == rest;
  }

  lemma StaysUnlessEscape(c: char, rest: Bytes)
    requires !EscapeAt([c] + rest)
    ensures Decode([c] + rest) == [c] + Decode(rest)
  {
    assert ([c] + rest)[1..] == rest;
  }

  /** A `%` without two digits behind it, and any other character, stay as they
      are. */
  lemma OthersStay(c: char, rest: Bytes)
    requires c != '%' || |rest| < 2 || !IsHex(rest[0]) || !IsHex(rest[1])
    ensures Decode([c] + rest) == [c] + Decode(rest)
  {
    if |rest| >= 2 {
      HexExactly(rest[0]);
      HexExactly(rest[1]);
      assert ([c] + rest)[1] == rest[0] && ([c] + rest)[2] == rest[1];
    }
    StaysUnlessEscape(c, rest);
  }

  /** A value whose decoding is not UTF-8 is taken as it is written. */
  lemma ValueOfUndecodable(raw: Bytes)
    ensures DecodeValue(raw) == if Utf8.Encodes(Decode(raw)) then Decode(raw) else raw
  {
    Utf8.ValidExactly(Decode(raw));
  }
}
