/** UTF-8 well-formedness, by the byte-sequence table of section 4 of RFC 3629. */
module Utf8 {
  import opened Text

  predicate Between(c: char, lo: int, hi: int) {
    lo <= c as int <= hi
  }

  predicate Tail(c: char) {
    Between(c, 0x80, 0xBF)
  }

  /** Length of the well-formed sequence at the front of `s`, or 0. */
  function SequenceLength(s: Bytes): (n: nat)
    ensures n <= |s|
  {
    if |s| >= 1 && Between(s[0], 0x00, 0x7F) then 1
    else if |s| >= 2 && Between(s[0], 0xC2, 0xDF) && Tail(s[1]) then 2
    else if |s| >= 3 && Tail(s[2]) && ThreeByteStart(s[0], s[1]) then 3
    else if |s| >= 4 && Tail(s[2]) && Tail(s[3]) && FourByteStart(s[0], s[1]) then 4
    else 0
  }

  predicate ThreeByteStart(a: char, b: char) {
    || (Between(a, 0xE0, 0xE0) && Between(b, 0xA0, 0xBF))
    || (Between(a, 0xE1, 0xEC) && Tail(b))
    || (Between(a, 0xED, 0xED) && Between(b, 0x80, 0x9F))
    || (Between(a, 0xEE, 0xEF) && Tail(b))
  }

  predicate FourByteStart(a: char, b: char) {
    || (Between(a, 0xF0, 0xF0) && Between(b, 0x90, 0xBF))
    || (Between(a, 0xF1, 0xF3) && Tail(b))
    || (Between(a, 0xF4, 0xF4) && Between(b, 0x80, 0x8F))
  }

  /** What `String::from_utf8` accepts. */
  predicate Valid(s: Bytes) {
    s == [] || (SequenceLength(s) > 0 && Valid(s[SequenceLength(s)..]))
  }

  /** Well-formed text stays well-formed under concatenation, and a well-formed
      first part leaves the verdict to the second. */
  lemma {:induction false} ValidConcat(a: Bytes, b: Bytes)
    requires Valid(a)
    ensures Valid(a + b) <==> Valid(b)
  {
    if a == [] {
      assert a + b == b;
    } else {
      var n := SequenceLength(a);
      assert SequenceLength(a + b) == n;
      assert (a + b)[n..] == a[n..] + b;
      ValidConcat(a[n..], b);
    }
  }

  predicate Ascii(s: Bytes) {
    forall i | 0 <= i < |s| :: s[i] as int < 0x80
  }

  lemma {:induction false} AsciiIsValid(s: Bytes)
    requires Ascii(s)
    ensures Valid(s)
  {
    if s != [] {
      AsciiIsValid(s[1..]);
    }
  }

  /** Well-formed text consists of bytes. */
  lemma {:induction false} ValidIsBytes(s: Bytes)
    requires Valid(s)
    ensures forall i | 0 <= i < |s| :: s[i] as int < 0x100
  {
    if s != [] {
      var n := SequenceLength(s);
      ValidIsBytes(s[n..]);
      assert forall i | n <= i < |s| :: s[i] == s[n..][i - n];
    }
  }

  // ---- Code points ----

  /** A Unicode scalar value: any code point but a surrogate. */
  predicate Scalar(n: nat) {
    n < 0xD800 || 0xE000 <= n <= 0x10FFFF
  }

  /** The six low bits at `shift`, in a trailing byte. */
  function TailByte(n: nat): char {
    (0x80 + n % 64) as char
  }

  /** A scalar value in as few bytes as its size allows. */
  function EncodeScalar(n: nat): Bytes
    requires Scalar(n)
  {
    if n < 0x80 then [n as char]
    else if n < 0x800 then [(0xC0 + n / 64) as char, TailByte(n)]
    else if n < 0x1_0000 then [(0xE0 + n / 4096) as char, TailByte(n / 64), TailByte(n)]
    else [(0xF0 + n / 262144) as char, TailByte(n / 4096), TailByte(n / 64), TailByte(n)]
  }

  predicate Scalars(ns: seq<nat>) {
    forall n | n in ns :: Scalar(n)
  }

  function EncodeText(ns: seq<nat>): Bytes
    requires Scalars(ns)
  {
    if ns == [] then []
    else
      assert ns[0] in ns && forall n | n in ns[1..] :: n in ns;
      EncodeScalar(ns[0]) + EncodeText(ns[1..])
  }

  lemma TailValue(n: nat)
    ensures Tail(TailByte(n)) && TailByte(n) as int - 0x80 == n % 64
  {
  }

  lemma TwoBytes(n: nat, rest: Bytes)
    requires 0x80 <= n < 0x800
    ensures SequenceLength(EncodeScalar(n) + rest) == 2
  {
    TailValue(n);
    assert 2 <= n / 64 < 32;
  }

  lemma ThreeBytes(n: nat, rest: Bytes)
    requires 0x800 <= n < 0x1_0000 && Scalar(n)
    ensures SequenceLength(EncodeScalar(n) + rest) == 3
  {
    TailValue(n);
    TailValue(n / 64);
    var a, b := n / 4096, n / 64 % 64;
    assert n / 64 / 64 == a && n / 64 == a * 64 + b;
    assert 0 <= a < 16;
  }

  lemma FourBytes(n: nat, rest: Bytes)
    requires 0x1_0000 <= n <= 0x10FFFF
    ensures SequenceLength(EncodeScalar(n) + rest) == 4
  {
    TailValue(n);
    TailValue(n / 64);
    TailValue(n / 4096);
    var a, b := n / 262144, n / 4096 % 64;
    assert n / 4096 / 64 == a && n / 4096 == a * 64 + b;
    assert 0 <= a <= 4;
  }

  lemma EncodedLength(n: nat, rest: Bytes)
    requires Scalar(n)
    ensures SequenceLength(EncodeScalar(n) + rest) == |EncodeScalar(n)| > 0
  {
    if 0x80 <= n < 0x800 {
      TwoBytes(n, rest);
    } else if 0x800 <= n < 0x1_0000 {
      ThreeBytes(n, rest);
    } else if n >= 0x1_0000 {
      FourBytes(n, rest);
    }
  }

  lemma {:induction false} EncodedIsValid(ns: seq<nat>)
    requires Scalars(ns)
    ensures Valid(EncodeText(ns))
  {
    if ns != [] {
      assert ns[0] in ns && forall n | n in ns[1..] :: n in ns;
      EncodedIsValid(ns[1..]);
      EncodedLength(ns[0], EncodeText(ns[1..]));
      var e := EncodeScalar(ns[0]);
      assert (e + EncodeText(ns[1..]))[|e|..] == EncodeText(ns[1..]);
    }
  }

  lemma JoinBits(a: nat, b: nat)
    requires b < 64
    ensures (a * 64 + b) / 64 == a && (a * 64 + b) % 64 == b
  {
  }

  lemma ReadTwo(a: nat, b: nat)
    requires 0xC2 <= a <= 0xDF && 0x80 <= b <= 0xBF
    ensures var n := (a - 0xC0) * 64 + (b - 0x80); Scalar(n) && EncodeScalar(n) == [a as char, b as char]
  {
    JoinBits(a - 0xC0, b - 0x80);
  }

  lemma ReadThree(a: nat, b: nat, c: nat)
    requires a < 0x100 && b < 0x100 && c < 0x100 && ThreeByteStart(a as char, b as char) && 0x80 <= c <= 0xBF
    ensures var n := ((a - 0xE0) * 64 + (b - 0x80)) * 64 + (c - 0x80);
      n >= 0 && Scalar(n) && EncodeScalar(n) == [a as char, b as char, c as char]
  {
    var m := (a - 0xE0) * 64 + (b - 0x80);
    JoinBits(a - 0xE0, b - 0x80);
    JoinBits(m, c - 0x80);
    var n := m * 64 + (c - 0x80);
    assert n / 4096 == n / 64 / 64;
  }

  lemma ReadFour(a: nat, b: nat, c: nat, d: nat)
    requires a < 0x100 && b < 0x100 && FourByteStart(a as char, b as char)
    requires 0x80 <= c <= 0xBF && 0x80 <= d <= 0xBF
    ensures var n := (((a - 0xF0) * 64 + (b - 0x80)) * 64 + (c - 0x80)) * 64 + (d - 0x80);
      n >= 0 && Scalar(n) && EncodeScalar(n) == [a as char, b as char, c as char, d as char]
  {
    var l := (a - 0xF0) * 64 + (b - 0x80);
    var m := l * 64 + (c - 0x80);
    var n := m * 64 + (d - 0x80);
    JoinBits(a - 0xF0, b - 0x80);
    JoinBits(l, c - 0x80);
    JoinBits(m, d - 0x80);
    assert n / 4096 == n / 64 / 64 && n / 262144 == n / 64 / 64 / 64;
  }

  /** The first sequence of well-formed text is the encoding of a scalar value. */
  lemma FrontIsScalar(s: Bytes) returns (n: nat)
    requires SequenceLength(s) > 0
    ensures Scalar(n) && EncodeScalar(n) == s[..SequenceLength(s)]
  {
    match SequenceLength(s) {
      case 1 =>
        n := s[0] as int;
      case 2 =>
        n := (s[0] as int - 0xC0) * 64 + (s[1] as int - 0x80);
        ReadTwo(s[0] as int, s[1] as int);
      case 3 =>
        n := ((s[0] as int - 0xE0) * 64 + (s[1] as int - 0x80)) * 64 + (s[2] as int - 0x80);
        ReadThree(s[0] as int, s[1] as int, s[2] as int);
      case _ =>
        n := (((s[0] as int - 0xF0) * 64 + (s[1] as int - 0x80)) * 64 + (s[2] as int - 0x80)) * 64 +
             (s[3] as int - 0x80);
        ReadFour(s[0] as int, s[1] as int, s[2] as int, s[3] as int);
    }
  }

  lemma {:induction false} ValidIsEncoded(s: Bytes) returns (ns: seq<nat>)
    requires Valid(s)
    ensures Scalars(ns) && EncodeText(ns) == s
  {
    if s == [] {
      ns := [];
    } else {
      var k := SequenceLength(s);
      var n := FrontIsScalar(s);
      var more := ValidIsEncoded(s[k..]);
      ns := [n] + more;
      assert ns[1..] == more && s == s[..k] + s[k..];
    }
  }

  /** The text is the encoding of some scalar values. */
  ghost predicate Encodes(s: Bytes) {
    exists ns: seq<nat> :: Scalars(ns) && EncodeText(ns) == s
  }

  /** A byte string is accepted exactly if it is the encoding of Unicode scalar
      values: nothing overlong, no surrogate, nothing above the last code point,
      nothing cut short. */
  lemma ValidExactly(s: Bytes)
    ensures Valid(s) <==> Encodes(s)
  {
    if Valid(s) {
      var ns := ValidIsEncoded(s);
    }
    if ns: seq<nat> :| Scalars(ns) && EncodeText(ns) == s {
      EncodedIsValid(ns);
    }
  }
}
